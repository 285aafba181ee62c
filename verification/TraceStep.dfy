/** The state change made by the trace assembler for one transaction and for one block,
    as functions on values (tondb-scanner/src/TraceAssembler.cpp). */
module TraceStep {
  import opened Wrappers
  import opened TraceModel

  // The actor's pending maps (`traces`, `edges`) and the locals of the
  // block in progress (`completed`, `updated`, `added`).
  datatype Work = Work(traces: map<Hash, Trace>, edges: map<Hash, Edge>,
                       completed: seq<Edge>, updated: set<Hash>, added: set<Hash>)

  datatype Assembler = Assembler(traces: map<Hash, Trace>, edges: map<Hash, Edge>)

  const EMPTY := Assembler(map[], map[])

  function NewTrace(seqno: nat, tx: Transaction): Trace {
    Trace(tx.hash, if tx.inMsg.Some? then Some(tx.inMsg.value.hash) else None, seqno, seqno,
          tx.lt, tx.now, tx.lt, tx.now, Pending, 0, 0, 1)
  }

  // The in-edge of a transaction whose in-message no pending edge announces.
  function RootEdge(tx: Transaction, m: Message): Edge {
    if m.source.None? then Edge(tx.hash, m.hash, CreatedLt(m), None, Some(tx.hash), Ext, false, false)
    else if m.source.value == SYSTEM_ADDRESS then Edge(tx.hash, m.hash, CreatedLt(m), None, Some(tx.hash), Sys, false, false)
    else Edge(tx.hash, m.hash, CreatedLt(m), None, Some(tx.hash), Ord, true, true)
  }

  function WithEdge(t: Trace, e: Edge): Trace {
    if e.incomplete then t.(pendingEdges := t.pendingEdges + 1) else t.(edges := t.edges + 1)
  }

  function Record(w: Work, e: Edge): Work {
    if e.incomplete
    then w.(edges := w.edges[e.msgHash := e], added := w.added + {e.msgHash})
    else w.(completed := w.completed + [e])
  }

  // A transaction that opens a trace of its own.
  function StartTrace(w: Work, seqno: nat, tx: Transaction): Work {
    match tx.inMsg
    case None =>
      w.(traces := w.traces[tx.hash := NewTrace(seqno, tx)], updated := w.updated + {tx.hash})
    case Some(m) =>
      var e := RootEdge(tx, m);
      var t := WithEdge(NewTrace(seqno, tx), e);
      Record(w, e).(traces := w.traces[tx.hash := if e.broken then t.(state := Broken) else t],
                    updated := w.updated + {tx.hash})
  }

  // The edge that a consuming transaction closes; a trace that is no longer pending is
  // replaced by a broken one rooted at the transaction itself.
  function ClosedEdge(w: Work, tx: Transaction, m: Message): Edge
    requires m.hash in w.edges
  {
    var e := w.edges[m.hash].(rightTx := Some(tx.hash), incomplete := false, broken := false);
    if e.traceId in w.traces then e else e.(traceId := tx.hash)
  }

  function JoinTrace(w: Work, seqno: nat, tx: Transaction, m: Message): Work
    requires m.hash in w.edges
  {
    var e := ClosedEdge(w, tx, m);
    var known := w.edges[m.hash].traceId in w.traces;
    var t := if known then w.traces[e.traceId] else NewTrace(seqno, tx).(edges := 1, state := Broken);
    w.(traces := w.traces[e.traceId := t.(pendingEdges := Decrement(t.pendingEdges), edges := t.edges + 1, nodes := t.nodes + 1)],
       edges := w.edges - {m.hash},
       completed := w.completed + [e],
       updated := w.updated + {e.traceId},
       added := w.added - {e.msgHash})
  }

  // The trace a transaction ends up in.
  function TraceIdFor(w: Work, tx: Transaction): Hash {
    match tx.inMsg
    case None => tx.hash
    case Some(m) => if m.hash in w.edges then ClosedEdge(w, tx, m).traceId else tx.hash
  }

  function AttachIn(w: Work, seqno: nat, tx: Transaction): Work {
    if tx.inMsg.Some? && tx.inMsg.value.hash in w.edges
    then JoinTrace(w, seqno, tx, tx.inMsg.value)
    else StartTrace(w, seqno, tx)
  }

  function Extended(t: Trace, seqno: nat, tx: Transaction): Trace {
    t.(mcSeqnoEnd := Max(t.mcSeqnoEnd, seqno), endLt := Max(t.endLt, tx.lt), endUtime := Max(t.endUtime, tx.now))
  }

  function OutEdge(traceId: Hash, tx: Transaction, m: Message): Edge {
    if m.destination.Some?
    then Edge(traceId, m.hash, CreatedLt(m), Some(tx.hash), None, Ord, true, false)
    else Edge(traceId, m.hash, CreatedLt(m), Some(tx.hash), None, Logs, false, false)
  }

  function EmitOne(w: Work, traceId: Hash, tx: Transaction, m: Message): Work
    requires traceId in w.traces
  {
    var e := OutEdge(traceId, tx, m);
    Record(w, e).(traces := w.traces[traceId := WithEdge(w.traces[traceId], e)])
  }

  // The first `k` out-messages of a transaction.
  function EmitOuts(w: Work, traceId: Hash, tx: Transaction, k: nat): (r: Work)
    requires traceId in w.traces && k <= |tx.outMsgs|
    ensures r.traces.Keys == w.traces.Keys
    ensures r.updated == w.updated
  {
    if k == 0 then w else EmitOne(EmitOuts(w, traceId, tx, k - 1), traceId, tx, tx.outMsgs[k - 1])
  }

  function Touch(w: Work, seqno: nat, tx: Transaction): Work {
    var a := AttachIn(w, seqno, tx);
    var id := TraceIdFor(w, tx);
    a.(traces := a.traces[id := Extended(a.traces[id], seqno, tx)])
  }

  function Step(w: Work, seqno: nat, tx: Transaction): Work {
    EmitOuts(Touch(w, seqno, tx), TraceIdFor(w, tx), tx, |tx.outMsgs|)
  }

  function StepAll(w: Work, seqno: nat, txs: seq<Transaction>): Work {
    if txs == [] then w
    else Step(StepAll(w, seqno, txs[..|txs| - 1]), seqno, txs[|txs| - 1])
  }

  // The trace assigned to each transaction.
  function Assigned(w: Work, seqno: nat, txs: seq<Transaction>): (r: seq<Hash>)
    ensures |r| == |txs|
  {
    if txs == [] then []
    else Assigned(w, seqno, txs[..|txs| - 1]) + [TraceIdFor(StepAll(w, seqno, txs[..|txs| - 1]), txs[|txs| - 1])]
  }
}
