/** Values handled by the trace assembler (tondb-scanner/src/TraceAssembler.h).
    Hashes are only ever compared, so a natural number stands for a 256-bit hash. */
module TraceModel {
  import opened Wrappers

  type Hash = nat

  datatype Address = Address(workchain: int, addr: nat)

  // Source of the messages that the masterchain itself creates.
  const SYSTEM_ADDRESS := Address(-1, 0)

  datatype Message = Message(hash: Hash, source: Option<Address>, destination: Option<Address>, createdLt: Option<nat>)

  datatype Transaction = Transaction(hash: Hash, account: Address, lt: nat, now: nat,
                                     inMsg: Option<Message>, outMsgs: seq<Message>)

  // One masterchain block together with the shard blocks parsed with it.
  datatype ParsedBlock = ParsedBlock(blocks: seq<seq<Transaction>>)

  datatype EdgeType = Ord | Ext | Sys | Logs

  datatype Edge = Edge(traceId: Hash, msgHash: Hash, msgLt: nat, leftTx: Option<Hash>, rightTx: Option<Hash>,
                       kind: EdgeType, incomplete: bool, broken: bool)

  datatype TraceState = Pending | Complete | Broken

  datatype Trace = Trace(traceId: Hash, externalHash: Option<Hash>, mcSeqnoStart: nat, mcSeqnoEnd: nat,
                         startLt: nat, startUtime: nat, endLt: nat, endUtime: nat,
                         state: TraceState, pendingEdges: nat, edges: nat, nodes: nat)

  // What one block reports about one trace: its record, the edges closed in the block in
  // processing order, and the edges left open (listed by the source in unspecified order).
  datatype EmittedTrace = EmittedTrace(trace: Trace, completed: seq<Edge>, open: set<Edge>)

  // What a processed block carries on: the trace assigned to each transaction, in
  // processing order, and the traces the block touched.
  datatype BlockResult = BlockResult(traceIds: seq<Hash>, traces: map<Hash, EmittedTrace>)

  // `size_t` arithmetic: decrementing zero wraps around.
  const SIZE_T_MAX: nat := 0xFFFF_FFFF_FFFF_FFFF

  function Decrement(x: nat): nat {
    if x == 0 then SIZE_T_MAX else x - 1
  }

  function Max(a: nat, b: nat): nat {
    if a < b then b else a
  }

  function CreatedLt(m: Message): nat {
    if m.createdLt.Some? then m.createdLt.value else 0
  }

  // An in-message that starts a trace even though its sender is known to be no transaction.
  predicate StartsTrace(m: Message) {
    m.source.None? || m.source.value == SYSTEM_ADDRESS
  }

  // An out-message that some later transaction has to consume, as opposed to a log.
  predicate Internal(m: Message) {
    m.destination.Some?
  }
}
