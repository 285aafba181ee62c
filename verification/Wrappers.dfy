/** The optional and failing values that the source expresses with `std::optional`,
    `td::Result` and null pointers. */
module Wrappers {
  datatype Option<+T> = None | Some(value: T)

  datatype Result<+T> = Ok(value: T) | Err
}
