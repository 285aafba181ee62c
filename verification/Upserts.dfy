/** The tables that keep one row per account, the latest: a selection inside each batch and a
    conditional upsert at commit (ton-index-postgres-v2/src/InsertManagerPostgres.cpp). */
module Upserts {
  type Account = nat

  // `body` stands for the columns that neither identify nor order a row.
  datatype Row = Row(account: Account, lt: nat, body: nat)

  type Table = map<Account, Row>

  // A row is taken when its account is new or its lt strictly greater.
  predicate Wins(t: Table, r: Row) {
    r.account !in t || t[r.account].lt < r.lt
  }

  function Offer(t: Table, r: Row): Table {
    if Wins(t, r) then t[r.account := r] else t
  }

  function OfferAll(t: Table, rows: seq<Row>): Table {
    if rows == [] then t else Offer(OfferAll(t, rows[..|rows| - 1]), rows[|rows| - 1])
  }

  // The rows of the tasks of a batch, in task order.
  function Rows(tasks: seq<seq<Row>>): seq<Row> {
    if tasks == [] then [] else Rows(tasks[..|tasks| - 1]) + tasks[|tasks| - 1]
  }

  function Reversed<T>(s: seq<T>): seq<T> {
    if s == [] then [] else [s[|s| - 1]] + Reversed(s[..|s| - 1])
  }

  lemma {:induction false} ReversedCons<T>(x: T, s: seq<T>)
    ensures Reversed([x] + s) == Reversed(s) + [x]
    decreases |s|
  {
    var all := [x] + s;
    if s == [] {
      assert all == [x];
    } else {
      ReversedCons(x, s[..|s| - 1]);
      assert all[..|all| - 1] == [x] + s[..|s| - 1] && all[|all| - 1] == s[|s| - 1];
    }
  }

  lemma {:induction false} OfferAllAppend(t: Table, a: seq<Row>, b: seq<Row>)
    ensures OfferAll(t, a + b) == OfferAll(OfferAll(t, a), b)
    decreases |b|
  {
    if b == [] {
      assert a + b == a;
    } else {
      assert (a + b)[..|a + b| - 1] == a + b[..|b| - 1];
      OfferAllAppend(t, a, b[..|b| - 1]);
    }
  }

  // ---- Selection inside a batch, and the statement run at commit ----

  // The rows of one task against what was selected so far.
  method SelectFromTask(selected: Table, task: seq<Row>) returns (latest: Table)
    ensures latest == OfferAll(selected, task)
  {
    latest := selected;
    for j := 0 to |task|
      invariant latest == OfferAll(selected, task[..j])
    {
      var row := task[j];
      assert task[..j + 1][..j] == task[..j];
      if row.account !in latest {
        latest := latest[row.account := row];
      } else if latest[row.account].lt < row.lt {
        latest := latest[row.account := row];
      }
    }
    assert task[..|task|] == task;
  }

  /** Account states: tasks front to back. */
  method SelectLatestStates(tasks: seq<seq<Row>>) returns (latest: Table)
    ensures latest == OfferAll(map[], Rows(tasks))
  {
    latest := map[];
    for i := 0 to |tasks|
      invariant latest == OfferAll(map[], Rows(tasks[..i]))
    {
      latest := SelectFromTask(latest, tasks[i]);
      OfferAllAppend(map[], Rows(tasks[..i]), tasks[i]);
      assert tasks[..i + 1][..i] == tasks[..i];
    }
    assert tasks[..|tasks|] == tasks;
  }

  /** Interface tables: tasks back to front. */
  method SelectLatestInterfaces(tasks: seq<seq<Row>>) returns (latest: Table)
    ensures latest == OfferAll(map[], Rows(Reversed(tasks)))
  {
    hide Rows, Reversed;
    latest := map[];
    NothingBehind(tasks);
    for i := |tasks| downto 0
      invariant latest == OfferAll(map[], Rows(Reversed(tasks[i..])))
    {
      latest := SelectFromTask(latest, tasks[i]);
      OfferAllAppend(map[], Rows(Reversed(tasks[i + 1..])), tasks[i]);
      OneTaskMore(tasks, i);
    }
    assert tasks[0..] == tasks;
  }

  lemma NothingBehind(tasks: seq<seq<Row>>)
    ensures Rows(Reversed(tasks[|tasks|..])) == []
  {
    assert tasks[|tasks|..] == [];
  }

  lemma OneTaskMore(tasks: seq<seq<Row>>, i: nat)
    requires i < |tasks|
    ensures Rows(Reversed(tasks[i..])) == Rows(Reversed(tasks[i + 1..])) + tasks[i]
  {
    var before := Reversed(tasks[i + 1..]);
    ReversedCons(tasks[i], tasks[i + 1..]);
    assert tasks[i..] == [tasks[i]] + tasks[i + 1..];
    assert (before + [tasks[i]])[..|before|] == before;
  }

  // What a committed selection makes of an account.
  function Committed(t: Table, selected: Table): Table {
    map a | a in t.Keys + selected.Keys ::
      if a in selected && (a !in t || t[a].lt < selected[a].lt) then selected[a] else t[a]
  }

  class LatestTable {
    var table: Table

    constructor ()
      ensures table == map[]
    {
      table := map[];
    }

    /** The selected rows reach the table in whatever order the hash map yields them. */
    method Commit(selected: Table)
      modifies this
      ensures table == Committed(old(table), selected)
    {
      ghost var was := table;
      ghost var done: set<Account> := {};
      var rest := selected.Keys;
      while rest != {}
        invariant done + rest == selected.Keys && done !! rest
        invariant table == Committed(was, Part(selected, done))
        decreases rest
      {
        var a :| a in rest;
        if a !in table || table[a].lt < selected[a].lt {
          table := table[a := selected[a]];
        }
        rest, done := rest - {a}, done + {a};
      }
      assert Part(selected, done) == selected;
    }

    /** A batch of account states, selected and committed. */
    method InsertStates(batch: Batch)
      modifies this
      ensures table == CommitBatch(old(table), batch)
    {
      var latest := SelectLatestStates(batch);
      Commit(latest);
    }

    /** A batch of interface data: its tasks count back to front. */
    method InsertInterfaces(batch: Batch)
      modifies this
      ensures table == CommitBatch(old(table), Reversed(batch))
    {
      var latest := SelectLatestInterfaces(batch);
      Commit(latest);
    }
  }

  function Part(selected: Table, some: set<Account>): Table {
    map a | a in selected && a in some :: selected[a]
  }

  // ---- Batches ----

  type Batch = seq<seq<Row>>

  function CommitBatch(t: Table, batch: Batch): Table {
    Committed(t, OfferAll(map[], Rows(batch)))
  }

  function CommitAll(t: Table, history: seq<Batch>): Table {
    if history == [] then t else CommitBatch(CommitAll(t, history[..|history| - 1]), history[|history| - 1])
  }

  function HistoryRows(history: seq<Batch>): seq<Row> {
    if history == [] then [] else HistoryRows(history[..|history| - 1]) + Rows(history[|history| - 1])
  }

  lemma {:induction false} SelectionIsTransparent(t: Table, rows: seq<Row>)
    ensures Committed(t, OfferAll(map[], rows)) == OfferAll(t, rows)
  {
    if rows != [] {
      SelectionIsTransparent(t, rows[..|rows| - 1]);
    }
  }

  /** Selecting per batch and upserting equals offering every row by itself, however the rows
      were split into tasks and batches. */
  lemma {:induction false} SplittingIrrelevant(t: Table, history: seq<Batch>)
    ensures CommitAll(t, history) == OfferAll(t, HistoryRows(history))
  {
    if history != [] {
      var last := history[|history| - 1];
      SplittingIrrelevant(t, history[..|history| - 1]);
      SelectionIsTransparent(CommitAll(t, history[..|history| - 1]), Rows(last));
      OfferAllAppend(t, HistoryRows(history[..|history| - 1]), Rows(last));
    }
  }

  // ---- Latest row per account ----

  // One row per account that occurs, a row that was offered, of the greatest lt.
  ghost predicate IsLatest(t: Table, rows: set<Row>) {
    && (forall r :: r in rows ==> r.account in t && r.lt <= t[r.account].lt)
    && (forall a :: a in t ==> t[a].account == a && t[a] in rows)
  }

  function RowSet(rows: seq<Row>): set<Row> {
    set r | r in rows
  }

  /** The table holds the latest row of every account. */
  lemma {:induction false} OfferAllIsLatest(t: Table, known: set<Row>, rows: seq<Row>)
    requires IsLatest(t, known)
    ensures IsLatest(OfferAll(t, rows), known + RowSet(rows))
  {
    if rows != [] {
      OfferAllIsLatest(t, known, rows[..|rows| - 1]);
      assert rows == rows[..|rows| - 1] + [rows[|rows| - 1]];
    }
  }

  lemma TableIsLatest(t: Table, known: set<Row>, history: seq<Batch>)
    requires IsLatest(t, known)
    ensures IsLatest(CommitAll(t, history), known + RowSet(HistoryRows(history)))
  {
    SplittingIrrelevant(t, history);
    OfferAllIsLatest(t, known, HistoryRows(history));
  }

  // Two rows that could both stay for an account are the same row.
  ghost predicate NoTopTies(rows: set<Row>) {
    forall r, q :: r in rows && q in rows && Tops(r, rows) && Tops(q, rows) && r.account == q.account ==> r == q
  }

  ghost predicate Tops(r: Row, rows: set<Row>) {
    forall q :: q in rows && q.account == r.account ==> q.lt <= r.lt
  }

  lemma LatestIsUnique(t: Table, u: Table, rows: set<Row>)
    requires IsLatest(t, rows) && IsLatest(u, rows) && NoTopTies(rows)
    ensures t == u
  {
    assert t.Keys == u.Keys by {
      forall a ensures a in t <==> a in u {
        assert a in t ==> t[a] in rows;
        assert a in u ==> u[a] in rows;
      }
    }
    forall a | a in t ensures t[a] == u[a] {
      assert Tops(t[a], rows) && Tops(u[a], rows);
    }
  }

  // Every history of the same rows, whatever its splitting, order and repetitions, ends alike.
  ghost predicate OrderIrrelevant(rows: set<Row>) {
    forall h: seq<Batch>, g: seq<Batch> :: RowSet(HistoryRows(h)) == rows && RowSet(HistoryRows(g)) == rows ==>
      CommitAll(map[], h) == CommitAll(map[], g)
  }

  lemma {:induction false} GreatestStays(t: Table, r: Row, rows: seq<Row>)
    requires r.account in t && t[r.account] == r && Tops(r, RowSet(rows))
    ensures r.account in OfferAll(t, rows) && OfferAll(t, rows)[r.account] == r
  {
    if rows != [] {
      var last := rows[|rows| - 1];
      assert last in RowSet(rows);
      assert RowSet(rows[..|rows| - 1]) <= RowSet(rows);
      GreatestStays(t, r, rows[..|rows| - 1]);
    }
  }

  lemma {:induction false} Listing(rows: set<Row>) returns (s: seq<Row>)
    ensures RowSet(s) == rows
  {
    if rows == {} {
      s := [];
    } else {
      var r :| r in rows;
      var rest := Listing(rows - {r});
      s := rest + [r];
      assert RowSet(s) == RowSet(rest) + {r};
    }
  }

  // A history that commits `r` first and then everything.
  lemma CommittedFirst(r: Row, all: seq<Row>) returns (h: seq<Batch>)
    requires r in all && Tops(r, RowSet(all))
    ensures RowSet(HistoryRows(h)) == RowSet(all)
    ensures r.account in CommitAll(map[], h) && CommitAll(map[], h)[r.account] == r
  {
    h := [[[r]], [all]];
    assert h[..1] == [[[r]]] && h[..1][..0] == [];
    assert [all][..0] == [] && [[r]][..0] == [];
    assert Rows([all]) == all && Rows([[r]]) == [r];
    assert HistoryRows(h[..1]) == [r];
    assert HistoryRows(h) == [r] + all;
    SplittingIrrelevant(map[], h);
    OfferAllAppend(map[], [r], all);
    assert [r][..0] == [];
    GreatestStays(OfferAll(map[], [r]), r, all);
  }

  /** The commit order matters exactly when an account has two different rows of its greatest lt. */
  lemma OrderIrrelevantIff(rows: set<Row>)
    ensures OrderIrrelevant(rows) <==> NoTopTies(rows)
  {
    if NoTopTies(rows) {
      forall h: seq<Batch>, g: seq<Batch> | RowSet(HistoryRows(h)) == rows && RowSet(HistoryRows(g)) == rows
        ensures CommitAll(map[], h) == CommitAll(map[], g)
      {
        TableIsLatest(map[], {}, h);
        TableIsLatest(map[], {}, g);
        assert {} + rows == rows;
        LatestIsUnique(CommitAll(map[], h), CommitAll(map[], g), rows);
      }
    }
    if OrderIrrelevant(rows) {
      var all := Listing(rows);
      forall r, q | r in rows && q in rows && Tops(r, rows) && Tops(q, rows) && r.account == q.account ensures r == q {
        var h := CommittedFirst(r, all);
        var g := CommittedFirst(q, all);
        assert CommitAll(map[], h) == CommitAll(map[], g);
      }
    }
  }

  /** In particular when rows of equal account and lt are equal. */
  lemma EqualRowsSuffice(rows: set<Row>)
    requires forall r, q :: r in rows && q in rows && r.account == q.account && r.lt == q.lt ==> r == q
    ensures OrderIrrelevant(rows)
  {
    assert NoTopTies(rows) by {
      forall r, q | r in rows && q in rows && Tops(r, rows) && Tops(q, rows) && r.account == q.account ensures r == q {
        assert r.lt <= q.lt && q.lt <= r.lt;
      }
    }
    OrderIrrelevantIff(rows);
  }

  // ---- Every row of every task ----

  predicate BatchHas(batch: Batch, r: Row) {
    exists i :: 0 <= i < |batch| && r in batch[i]
  }

  lemma {:induction false} RowsHoldAll(batch: Batch, r: Row)
    ensures r in Rows(batch) <==> BatchHas(batch, r)
  {
    if batch != [] {
      var n := |batch| - 1;
      RowsHoldAll(batch[..n], r);
      if i :| 0 <= i < |batch| && r in batch[i] {
        assert i < n ==> batch[..n][i] == batch[i];
      }
    }
  }

  /** The rows of a history are the rows of all tasks of all its batches. */
  lemma {:induction false} HistoryHoldsAll(history: seq<Batch>, r: Row)
    ensures r in HistoryRows(history) <==> exists b :: 0 <= b < |history| && BatchHas(history[b], r)
  {
    if history != [] {
      var n := |history| - 1;
      HistoryHoldsAll(history[..n], r);
      RowsHoldAll(history[n], r);
      hide BatchHas, Rows;
      if b :| 0 <= b < |history| && BatchHas(history[b], r) {
        assert b < n ==> history[..n][b] == history[b];
      }
      if b :| 0 <= b < n && BatchHas(history[..n][b], r) {
        assert history[..n][b] == history[b];
      }
    }
  }

  /** The last task comes first. */
  lemma {:induction false} ReversedAt<T>(s: seq<T>, i: nat)
    requires i < |s|
    ensures |Reversed(s)| == |s| && Reversed(s)[i] == s[|s| - 1 - i]
  {
    if |s| > 1 {
      ReversedAt(s[..|s| - 1], if i > 0 then i - 1 else 0);
    }
  }
}
