/** The reference the assembler is measured against: traces read off the whole message
    graph of a history, with no pending maps and no counters. */
module MessageGraph {
  import opened Wrappers
  import opened TraceModel

  // A transaction together with the masterchain seqno it was processed under.
  datatype Placed = Placed(seqno: nat, tx: Transaction)

  type History = seq<Placed>

  // The logical time at which a message was created; externals have none.
  function SentLt(m: Message): nat {
    match m.createdLt
    case Some(lt) => lt
    case None => 0
  }

  predicate Emits(tx: Transaction, m: Hash) {
    exists k :: 0 <= k < |tx.outMsgs| && Internal(tx.outMsgs[k]) && tx.outMsgs[k].hash == m
  }

  predicate Consumes(tx: Transaction, m: Hash) {
    tx.inMsg.Some? && tx.inMsg.value.hash == m
  }

  // The transaction whose internal out-message has hash `m`.
  function Emitter(h: History, m: Hash): (r: Option<nat>)
    ensures r.Some? ==> r.value < |h| && Emits(h[r.value].tx, m)
    ensures r.None? ==> forall i :: 0 <= i < |h| ==> !Emits(h[i].tx, m)
  {
    if h == [] then None
    else if Emits(h[|h| - 1].tx, m) then Some(|h| - 1)
    else Emitter(h[..|h| - 1], m)
  }

  // The earlier transaction that sent the in-message of transaction `i`.
  function Parent(h: History, i: nat): (r: Option<nat>)
    requires i < |h|
    ensures r.Some? ==> r.value < i
  {
    if h[i].tx.inMsg.None? then None else Emitter(h[..i], h[i].tx.inMsg.value.hash)
  }

  // Follow in-messages back to their emitters as far as they are known.
  function Root(h: History, i: nat): Hash
    requires i < |h|
    decreases i
  {
    match Parent(h, i)
    case None => h[i].tx.hash
    case Some(j) => Root(h, j)
  }

  // The in-message claims to come from a transaction, but no earlier one sent it.
  predicate BrokenRoot(h: History, i: nat)
    requires i < |h|
  {
    h[i].tx.inMsg.Some? && Parent(h, i).None? && !StartsTrace(h[i].tx.inMsg.value)
  }

  function BrokenAt(h: History, m: Hash): (r: Option<nat>)
    ensures r.Some? ==> r.value < |h| && Consumes(h[r.value].tx, m) && BrokenRoot(h, r.value)
  {
    if h == [] then None
    else if Consumes(h[|h| - 1].tx, m) && BrokenRoot(h, |h| - 1) then Some(|h| - 1)
    else
      var r := BrokenAt(h[..|h| - 1], m);
      assert r.Some? ==> h[..|h| - 1][..r.value] == h[..r.value];
      r
  }

  predicate Consumed(h: History, m: Hash) {
    exists i :: 0 <= i < |h| && Consumes(h[i].tx, m)
  }

  function SentMessage(tx: Transaction, m: Hash): Message
    requires Emits(tx, m)
  {
    SentWithin(tx, m, |tx.outMsgs|)
  }

  function SentWithin(tx: Transaction, m: Hash, k: nat): (r: Message)
    requires k <= |tx.outMsgs|
    requires exists l :: 0 <= l < k && Internal(tx.outMsgs[l]) && tx.outMsgs[l].hash == m
    ensures r in tx.outMsgs && Internal(r) && r.hash == m
  {
    if Internal(tx.outMsgs[k - 1]) && tx.outMsgs[k - 1].hash == m then tx.outMsgs[k - 1] else SentWithin(tx, m, k - 1)
  }

  // The edge that message `m` leaves open: a sent message nobody has consumed, or a
  // consumed message nobody is known to have sent.
  function OpenEdge(h: History, m: Hash): Option<Edge> {
    match Emitter(h, m)
    case Some(i) =>
      if Consumed(h, m) then None
      else Some(Edge(Root(h, i), m, SentLt(SentMessage(h[i].tx, m)), Some(h[i].tx.hash), None, Ord, true, false))
    case None =>
      match BrokenAt(h, m)
      case Some(j) =>
        Some(Edge(h[j].tx.hash, m, SentLt(h[j].tx.inMsg.value), None, Some(h[j].tx.hash), Ord, true, true))
      case None => None
  }

  function TxHashes(tx: Transaction): set<Hash> {
    (set k | 0 <= k < |tx.outMsgs| :: tx.outMsgs[k].hash) +
    (if tx.inMsg.Some? then {tx.inMsg.value.hash} else {})
  }

  function Mentioned(h: History): set<Hash> {
    if h == [] then {} else Mentioned(h[..|h| - 1]) + TxHashes(h[|h| - 1].tx)
  }

  function OpenEdges(h: History): map<Hash, Edge> {
    map m | m in Mentioned(h) && OpenEdge(h, m).Some? :: OpenEdge(h, m).value
  }

  function EdgesOf(edges: map<Hash, Edge>, t: Hash): set<Hash> {
    set m | m in edges && edges[m].traceId == t
  }

  // Number of edges carrying trace id `t`.
  function CountEdges(edges: map<Hash, Edge>, t: Hash): nat {
    |EdgesOf(edges, t)|
  }

  predicate IsRoot(h: History, t: Hash) {
    exists i :: 0 <= i < |h| && Root(h, i) == t
  }

  // Transactions of trace `t`.
  function NodeCount(h: History, t: Hash): nat {
    if h == [] then 0
    else NodeCount(h[..|h| - 1], t) + (if Root(h, |h| - 1) == t then 1 else 0)
  }

  function LogCount(tx: Transaction, k: nat): nat
    requires k <= |tx.outMsgs|
  {
    if k == 0 then 0 else LogCount(tx, k - 1) + (if Internal(tx.outMsgs[k - 1]) then 0 else 1)
  }

  // Log messages sent by the transactions of trace `t`.
  function LogTotal(h: History, t: Hash): nat {
    if h == [] then 0
    else LogTotal(h[..|h| - 1], t) +
         (if Root(h, |h| - 1) == t then LogCount(h[|h| - 1].tx, |h[|h| - 1].tx.outMsgs|) else 0)
  }

  // The transaction's in-message is one whose both ends are accounted for.
  predicate HasClosedIn(h: History, i: nat)
    requires i < |h|
  {
    h[i].tx.inMsg.Some? && !BrokenRoot(h, i)
  }

  // Transactions of trace `t` whose in-message has both ends accounted for.
  function ClosedInCount(h: History, t: Hash): nat {
    if h == [] then 0
    else ClosedInCount(h[..|h| - 1], t) + (if Root(h, |h| - 1) == t && HasClosedIn(h, |h| - 1) then 1 else 0)
  }

  // Last seqno, logical time and time of the transactions of trace `t`.
  function Latest(h: History, t: Hash): (nat, nat, nat) {
    if h == [] then (0, 0, 0)
    else
      var r := Latest(h[..|h| - 1], t);
      var p := h[|h| - 1];
      if Root(h, |h| - 1) == t then (Max(r.0, p.seqno), Max(r.1, p.tx.lt), Max(r.2, p.tx.now)) else r
  }

  // The record of trace `t` rooted at transaction `r`, read off the graph.
  function TraceRecord(h: History, r: nat): Trace
    requires r < |h|
  {
    var p := h[r];
    var t := p.tx.hash;
    var l := Latest(h, t);
    Trace(t, if p.tx.inMsg.Some? then Some(p.tx.inMsg.value.hash) else None, p.seqno, l.0,
          p.tx.lt, p.tx.now, l.1, l.2, if BrokenRoot(h, r) then Broken else Pending,
          CountEdges(OpenEdges(h), t), ClosedInCount(h, t) + LogTotal(h, t), NodeCount(h, t))
  }

  // The transaction that opened the edge of message `m`.
  function OpenedBy(h: History, m: Hash): nat
    requires OpenEdge(h, m).Some?
  {
    match Emitter(h, m)
    case Some(i) => i
    case None => BrokenAt(h, m).value
  }

  // The edges opened by the transactions from index `from` on and still open.
  function OpenedSince(h: History, from: nat): set<Hash> {
    set m | m in OpenEdges(h) && from <= OpenedBy(h, m)
  }

  function ClosedIn(h: History, i: nat): Edge
    requires i < |h| && HasClosedIn(h, i)
  {
    var tx := h[i].tx;
    var m := tx.inMsg.value;
    match Parent(h, i)
    case Some(j) =>
      Edge(Root(h, i), m.hash, SentLt(SentMessage(h[j].tx, m.hash)), Some(h[j].tx.hash), Some(tx.hash), Ord, false, false)
    case None =>
      Edge(tx.hash, m.hash, SentLt(m), None, Some(tx.hash), if m.source.None? then Ext else Sys, false, false)
  }

  function LogEdges(t: Hash, tx: Transaction, k: nat): seq<Edge>
    requires k <= |tx.outMsgs|
  {
    if k == 0 then []
    else
      var m := tx.outMsgs[k - 1];
      LogEdges(t, tx, k - 1) +
      (if Internal(m) then [] else [Edge(t, m.hash, SentLt(m), Some(tx.hash), None, Logs, false, false)])
  }

  // The edges closed by the transactions from index `from` on, in history order.
  function ClosedSince(h: History, from: nat): seq<Edge> {
    if |h| <= from then []
    else
      var n := |h| - 1;
      ClosedSince(h[..n], from) +
      (if HasClosedIn(h, n) then [ClosedIn(h, n)] else []) +
      LogEdges(Root(h, n), h[n].tx, |h[n].tx.outMsgs|)
  }

  // Of these, the edges of trace `t`: all that its own transactions closed.
  function ClosedOf(h: History, from: nat, t: Hash): seq<Edge> {
    if |h| <= from then []
    else
      var n := |h| - 1;
      if Root(h, n) != t then ClosedOf(h[..n], from, t)
      else
        ClosedOf(h[..n], from, t) +
        (if HasClosedIn(h, n) then [ClosedIn(h, n)] else []) +
        LogEdges(t, h[n].tx, |h[n].tx.outMsgs|)
  }

  // The open edges of trace `t` among those opened from index `from` on.
  function OpenOf(h: History, from: nat, t: Hash): set<Edge> {
    set m | m in OpenedSince(h, from) && OpenEdges(h)[m].traceId == t :: OpenEdges(h)[m]
  }

  // The traces joined by the transactions from index `from` on.
  function TouchedSince(h: History, from: nat): set<Hash> {
    if |h| <= from then {} else TouchedSince(h[..|h| - 1], from) + {Root(h, |h| - 1)}
  }

  // ---- Well-formed histories ----

  predicate DistinctTxs(h: History) {
    forall i, j :: 0 <= i < j < |h| ==> h[i].tx.hash != h[j].tx.hash
  }

  predicate DistinctOuts(tx: Transaction) {
    forall k, l :: 0 <= k < l < |tx.outMsgs| && Internal(tx.outMsgs[k]) && Internal(tx.outMsgs[l]) ==>
                     tx.outMsgs[k].hash != tx.outMsgs[l].hash
  }

  ghost predicate SentOnce(h: History) {
    && (forall i :: 0 <= i < |h| ==> DistinctOuts(h[i].tx))
    && (forall i, j, m :: 0 <= i < j < |h| && Emits(h[i].tx, m) ==> !Emits(h[j].tx, m))
  }

  // A message is consumed at most once; only messages that start a trace without having
  // been sent by a transaction (externals, for instance) may recur.
  ghost predicate ConsumedOnce(h: History) {
    forall i, j, m :: 0 <= i < j < |h| && Consumes(h[i].tx, m) && Consumes(h[j].tx, m) ==>
      && Emitter(h, m).None?
      && StartsTrace(h[i].tx.inMsg.value) && StartsTrace(h[j].tx.inMsg.value)
  }

  ghost predicate SentBeforeConsumed(h: History) {
    forall i, j, m :: 0 <= i < |h| && 0 <= j < |h| && Emits(h[i].tx, m) && Consumes(h[j].tx, m) ==> i < j
  }

  ghost predicate WellFormed(h: History) {
    DistinctTxs(h) && SentOnce(h) && ConsumedOnce(h) && SentBeforeConsumed(h)
  }
}
