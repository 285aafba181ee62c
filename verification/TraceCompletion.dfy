/** What a reader of the assembler's output may rely on: counters that never wrap, and
    completed traces that stay completed. */
module TraceCompletion {
  import opened Wrappers
  import opened TraceModel
  import opened TraceStep
  import opened TraceBlock
  import opened MessageGraph
  import opened GraphLemmas
  import opened TraceInvariant
  import opened TraceRun

  // ---- Histories given by their blocks ----

  ghost predicate Earlier(a: Placed, b: Placed) {
    a.seqno < b.seqno || (a.seqno == b.seqno && a.tx.lt < b.tx.lt)
  }

  // Messages are sent strictly before they are consumed, in (seqno, lt) order.
  ghost predicate Causal(h: History) {
    forall i, j, m :: 0 <= i < |h| && 0 <= j < |h| && Emits(h[i].tx, m) && Consumes(h[j].tx, m) ==> Earlier(h[i], h[j])
  }

  ghost predicate Chronological(h: History) {
    forall i, j :: 0 <= i < j < |h| ==> !Earlier(h[j], h[i])
  }

  lemma BlockIsChronological(seqno: nat, txs: seq<Transaction>)
    requires Sorted(txs)
    ensures Chronological(Place(seqno, txs))
  {
    var h := Place(seqno, txs);
    forall i, j | 0 <= i < j < |h| ensures !Earlier(h[j], h[i]) {
      assert !Before(txs[j], txs[i]);
    }
  }

  lemma {:induction false} HistoryIsChronological(first: nat, blocks: seq<ParsedBlock>)
    ensures Chronological(HistoryOf(first, blocks))
    ensures forall i :: 0 <= i < |HistoryOf(first, blocks)| ==> HistoryOf(first, blocks)[i].seqno < first + |blocks|
  {
    hide Sorted, SortTxs, Flatten;
    if blocks != [] {
      var n := |blocks| - 1;
      HistoryIsChronological(first, blocks[..n]);
      BlockIsChronological(first + n, Ordered(blocks[n]));
      AppendChronological(HistoryOf(first, blocks[..n]), Place(first + n, Ordered(blocks[n])), first + n);
    }
  }

  lemma AppendChronological(h: History, last: History, seqno: nat)
    requires Chronological(h) && Chronological(last)
    requires forall i :: 0 <= i < |h| ==> h[i].seqno < seqno
    requires forall i :: 0 <= i < |last| ==> last[i].seqno == seqno
    ensures Chronological(h + last)
    ensures forall i :: 0 <= i < |h + last| ==> (h + last)[i].seqno < seqno + 1
  {
    var g := h + last;
    forall i, j | 0 <= i < j < |g| ensures !Earlier(g[j], g[i]) {
      if j < |h| {
        assert g[i] == h[i] && g[j] == h[j];
      } else if |h| <= i {
        assert g[i] == last[i - |h|] && g[j] == last[j - |h|];
      }
    }
  }

  /** Blocks whose messages respect (seqno, lt) order are processed sender first: sorting by
      logical time inside a block is enough. */
  lemma CausalIsWellFormed(first: nat, blocks: seq<ParsedBlock>)
    requires var h := HistoryOf(first, blocks);
             DistinctTxs(h) && SentOnce(h) && ConsumedOnce(h) && Causal(h)
    ensures WellFormed(HistoryOf(first, blocks))
  {
    hide HistoryOf, Emits;
    var h := HistoryOf(first, blocks);
    HistoryIsChronological(first, blocks);
    forall i, j, m | 0 <= i < |h| && 0 <= j < |h| && Emits(h[i].tx, m) && Consumes(h[j].tx, m)
      ensures i < j
    {
      assert Earlier(h[i], h[j]);
    }
  }

  // ---- Counting invariant ----

  // Every counter equals the number of pending edges of its trace, and every pending edge
  // belongs to a pending trace.
  predicate Counted(w: Work) {
    && (forall t :: t in w.traces ==> w.traces[t].pendingEdges == CountEdges(w.edges, t))
    && (forall m :: m in w.edges ==> w.edges[m].traceId in w.traces)
  }

  lemma RefinedIsCounted(w: Work, h: History, from: nat)
    requires Refines(w, h, from)
    ensures Counted(w)
  {
    forall t | t in w.traces ensures w.traces[t].pendingEdges == CountEdges(w.edges, t) {
      var _ := RecordCount(w, h, from, t);
    }
    forall m | m in w.edges ensures w.edges[m].traceId in w.traces {
      OpenEdgesAt(h, m);
      OpenEdgeHasRoot(h, m);
      assert m in EdgesOf(w.edges, w.edges[m].traceId);
    }
  }

  // The work state after whole blocks and some transactions of the next one.
  function Midway(first: nat, blocks: seq<ParsedBlock>, txs: seq<Transaction>): Work {
    StepAll(Begin(Run(EMPTY, first, blocks).0), first + |blocks|, txs)
  }

  lemma MidwayRefines(first: nat, blocks: seq<ParsedBlock>, txs: seq<Transaction>)
    requires WellFormed(HistoryOf(first, blocks) + Place(first + |blocks|, txs))
    ensures Refines(Midway(first, blocks, txs), HistoryOf(first, blocks) + Place(first + |blocks|, txs), |HistoryOf(first, blocks)|)
  {
    hide WellFormed, Refines, Mirrors, HistoryOf, StepAll, Place, Run;
    WellFormedTake(HistoryOf(first, blocks), Place(first + |blocks|, txs));
    RunMirrors(first, blocks);
    BeginRefines(Run(EMPTY, first, blocks).0, HistoryOf(first, blocks));
    StepAllRefines(Begin(Run(EMPTY, first, blocks).0), HistoryOf(first, blocks), |HistoryOf(first, blocks)|,
                   first + |blocks|, txs);
  }

  /** In every state reachable over a well-formed history, between any two transactions, the
      counters are exact. Hence a consumed message always finds its trace pending, and the
      unsigned counter is above zero whenever it is decremented. */
  lemma CountersAreExact(first: nat, blocks: seq<ParsedBlock>, txs: seq<Transaction>)
    requires WellFormed(HistoryOf(first, blocks) + Place(first + |blocks|, txs))
    ensures var w := Midway(first, blocks, txs);
            && Counted(w)
            && (forall m :: m in w.edges ==>
                  w.edges[m].traceId in w.traces && w.traces[w.edges[m].traceId].pendingEdges > 0)
  {
    hide WellFormed, Refines, HistoryOf, Place, Midway;
    MidwayRefines(first, blocks, txs);
    var w := Midway(first, blocks, txs);
    RefinedIsCounted(w, HistoryOf(first, blocks) + Place(first + |blocks|, txs), |HistoryOf(first, blocks)|);
    forall m | m in w.edges ensures w.traces[w.edges[m].traceId].pendingEdges > 0 {
      assert m in EdgesOf(w.edges, w.edges[m].traceId);
    }
  }

  // ---- Completion ----

  // All messages sent inside trace `t` have been consumed.
  ghost predicate Settled(h: History, t: Hash) {
    forall i, m :: 0 <= i < |h| && Root(h, i) == t && Emits(h[i].tx, m) ==> Consumed(h, m)
  }

  lemma NoOpenEdgeSettled(h: History, t: Hash)
    requires WellFormed(h) && CountEdges(OpenEdges(h), t) == 0
    ensures Settled(h, t)
  {
    forall i, m | 0 <= i < |h| && Root(h, i) == t && Emits(h[i].tx, m) ensures Consumed(h, m) {
      SenderIsUnique(h, i, m);
      OpenEdgesAt(h, m);
      assert m !in EdgesOf(OpenEdges(h), t);
    }
  }

  lemma SenderIsUnique(h: History, i: nat, m: Hash)
    requires WellFormed(h) && i < |h| && Emits(h[i].tx, m)
    ensures Emitter(h, m) == Some(i)
  {
    hide Emits;
  }

  /** Completion is final: once every message of a trace is consumed, no transaction of any
      well-formed continuation ends up in it. */
  lemma {:induction false} SettledIsFinal(h: History, rest: History, t: Hash, j: nat)
    requires WellFormed(h + rest) && IsRoot(h, t) && Settled(h, t)
    requires |h| <= j < |h + rest|
    ensures Root(h + rest, j) != t
    decreases j
  {
    var g := h + rest;
    match Parent(g, j)
    case None =>
      var i :| 0 <= i < |h| && Root(h, i) == t;
      var r := RootIsParentless(h, i);
      assert g[r] == h[r];
    case Some(p) =>
      if p < |h| {
        RootAppend(h, rest, p);
        SentIntoUnsettled(h, rest, t, p, j);
      } else {
        SettledIsFinal(h, rest, t, p);
      }
  }

  // A later consumer of a message proves that its sender's trace was not settled.
  lemma SentIntoUnsettled(h: History, rest: History, t: Hash, p: nat, j: nat)
    requires WellFormed(h + rest) && Settled(h, t) && p < |h| <= j < |h + rest|
    requires Parent(h + rest, j) == Some(p)
    ensures Root(h, p) != t
  {
    var g := h + rest;
    var m := g[j].tx.inMsg.value.hash;
    assert g[..j][p] == g[p] == h[p];
    assert Emits(g[p].tx, m) && Consumes(g[j].tx, m);
    SenderIsUnique(g, p, m);
    assert !Consumed(h, m) by {
      forall i | 0 <= i < |h| ensures !Consumes(h[i].tx, m) {
        assert g[i] == h[i];
      }
    }
    assert Emits(h[p].tx, m);
  }

  /** Every transaction but the root came in through a closed edge. */
  lemma {:induction false} ClosedInsFollowNodes(h: History, r: nat)
    requires WellFormed(h) && r < |h| && Parent(h, r).None?
    ensures ClosedInCount(h, h[r].tx.hash) + (if HasClosedIn(h, r) then 0 else 1) == NodeCount(h, h[r].tx.hash)
  {
    var t := h[r].tx.hash;
    var n := |h| - 1;
    var g, x := h[..n], h[n];
    assert h == g + [x];
    WellFormedPrefix(g, x);
    CountsSnoc(g, x, t);
    RootSnoc(g, x);
    if r < n {
      assert g[r] == h[r];
      assert g[..r] == h[..r];
      RootDependsOnPrefix(h, g, r);
      ClosedInsFollowNodes(g, r);
      if Root(h, n) == t {
        JoinsKnown(g, x, r);
        JoinedIsClosed(g, x);
      }
    } else {
      NewRoot(g, x);
      NoRootNoCounts(g, t);
    }
  }

  /** What a block reports about a trace is complete exactly when the trace has no open edge;
      then all its messages are consumed and its edges are counted by its nodes and logs. */
  lemma ReportedComplete(a: Assembler, h: History, g: History, seqno: nat, b: ParsedBlock, r: nat)
    requires Keyed(a.traces, a.edges) && Mirrors(a, h)
    requires g == h + Place(seqno, Ordered(b)) && WellFormed(g)
    requires r < |g| && Parent(g, r).None? && g[r].tx.hash in ProcessBlock(a, seqno, b).1.traces
    ensures var t := g[r].tx.hash;
            var rep := ProcessBlock(a, seqno, b).1.traces[t].trace;
            && (rep.state == Complete <==> CountEdges(OpenEdges(g), t) == 0)
            && (rep.state == Complete ==>
                  && Settled(g, t)
                  && rep.edges + (if g[r].tx.inMsg.None? then 1 else 0) == rep.nodes + LogTotal(g, t))
  {
    var t := g[r].tx.hash;
    BlockReports(a, h, g, seqno, b);
    hide ProcessBlock, WellFormed, Mirrors, Settled, CountEdges, OpenEdges;
    if CountEdges(OpenEdges(g), t) == 0 {
      NoOpenEdgeSettled(g, t);
      ClosedInsFollowNodes(g, r);
      if BrokenRoot(g, r) {
        BrokenStaysOpen(g, r);
      }
    }
  }

  // ---- Where a trace ends ----

  predicate Ends(h: History, t: Hash, end: (nat, nat, nat)) {
    forall i :: 0 <= i < |h| && Root(h, i) == t ==> h[i].seqno <= end.0 && h[i].tx.lt <= end.1 && h[i].tx.now <= end.2
  }

  predicate Attained(h: History, t: Hash, end: (nat, nat, nat)) {
    && (exists i :: 0 <= i < |h| && Root(h, i) == t && h[i].seqno == end.0)
    && (exists i :: 0 <= i < |h| && Root(h, i) == t && h[i].tx.lt == end.1)
    && (exists i :: 0 <= i < |h| && Root(h, i) == t && h[i].tx.now == end.2)
  }

  /** The recorded end of a trace is the greatest seqno, logical time and time of its transactions. */
  lemma {:induction false} EndIsLatest(h: History, t: Hash)
    ensures Ends(h, t, Latest(h, t))
    ensures IsRoot(h, t) ==> Attained(h, t, Latest(h, t))
    ensures !IsRoot(h, t) ==> Latest(h, t) == (0, 0, 0)
    decreases |h|
  {
    if h != [] {
      var n := |h| - 1;
      EndIsLatest(h[..n], t);
      assert h == h[..n] + [h[n]];
      hide Root, Parent, BrokenRoot, Latest, Ends, Attained;
      forall i | 0 <= i < n ensures Root(h, i) == Root(h[..n], i) {
        RootAppend(h[..n], [h[n]], i);
      }
      LatestStep(h, t);
      EndsStep(h, t, Latest(h[..n], t), Latest(h, t));
      if Root(h, n) == t && IsRoot(h[..n], t) {
        AttainedStep(h, t, Latest(h[..n], t), Latest(h, t));
      } else if IsRoot(h[..n], t) {
        StillAttained(h, t, Latest(h[..n], t));
      } else if Root(h, n) == t {
        FirstAttained(h, t, Latest(h, t));
      }
    }
  }

  lemma EndsStep(h: History, t: Hash, was: (nat, nat, nat), end: (nat, nat, nat))
    requires h != [] && Ends(h[..|h| - 1], t, was) && was.0 <= end.0 && was.1 <= end.1 && was.2 <= end.2
    requires forall i :: 0 <= i < |h| - 1 ==> Root(h, i) == Root(h[..|h| - 1], i)
    requires Root(h, |h| - 1) == t ==>
               h[|h| - 1].seqno <= end.0 && h[|h| - 1].tx.lt <= end.1 && h[|h| - 1].tx.now <= end.2
    ensures Ends(h, t, end)
  {
    hide Root;
    forall i | 0 <= i < |h| && Root(h, i) == t
      ensures h[i].seqno <= end.0 && h[i].tx.lt <= end.1 && h[i].tx.now <= end.2
    {
      if i < |h| - 1 {
        assert h[..|h| - 1][i] == h[i];
      }
    }
  }

  lemma FirstAttained(h: History, t: Hash, end: (nat, nat, nat))
    requires h != [] && Root(h, |h| - 1) == t
    requires end == (h[|h| - 1].seqno, h[|h| - 1].tx.lt, h[|h| - 1].tx.now)
    ensures Attained(h, t, end)
  {
    hide Root;
  }

  lemma LatestStep(h: History, t: Hash)
    requires h != []
    ensures var n, r, x := |h| - 1, Latest(h[..|h| - 1], t), h[|h| - 1];
            Latest(h, t) ==
            if Root(h, n) != t then r
            else (if x.seqno > r.0 then x.seqno else r.0, if x.tx.lt > r.1 then x.tx.lt else r.1, if x.tx.now > r.2 then x.tx.now else r.2)
  {
    hide Root;
  }

  lemma StillAttained(h: History, t: Hash, end: (nat, nat, nat))
    requires h != [] && Attained(h[..|h| - 1], t, end)
    requires forall i :: 0 <= i < |h| - 1 ==> Root(h, i) == Root(h[..|h| - 1], i)
    ensures Attained(h, t, end)
  {
    hide Root;
    var g := h[..|h| - 1];
    var i :| 0 <= i < |g| && Root(g, i) == t && g[i].seqno == end.0;
    var j :| 0 <= j < |g| && Root(g, j) == t && g[j].tx.lt == end.1;
    var k :| 0 <= k < |g| && Root(g, k) == t && g[k].tx.now == end.2;
    assert h[i] == g[i] && h[j] == g[j] && h[k] == g[k];
    assert Root(h, i) == t && Root(h, j) == t && Root(h, k) == t;
  }

  lemma AttainedStep(h: History, t: Hash, was: (nat, nat, nat), end: (nat, nat, nat))
    requires h != [] && Root(h, |h| - 1) == t && Attained(h[..|h| - 1], t, was)
    requires forall i :: 0 <= i < |h| - 1 ==> Root(h, i) == Root(h[..|h| - 1], i)
    requires end.0 in {was.0, h[|h| - 1].seqno} && end.1 in {was.1, h[|h| - 1].tx.lt} && end.2 in {was.2, h[|h| - 1].tx.now}
    ensures Attained(h, t, end)
  {
    hide Root;
    StillAttained(h, t, was);
  }

  // ---- The counts ----

  function NodesOf(h: History, t: Hash): set<nat> {
    set i: nat | i < |h| && Root(h, i) == t
  }

  function ClosedInsOf(h: History, t: Hash): set<nat> {
    set i: nat | i < |h| && Root(h, i) == t && HasClosedIn(h, i)
  }

  /** The counts read off the graph are numbers of transactions. */
  lemma {:induction false} CountsAreSizes(h: History, t: Hash)
    ensures NodeCount(h, t) == |NodesOf(h, t)| && ClosedInCount(h, t) == |ClosedInsOf(h, t)|
    decreases |h|
  {
    if h == [] {
      assert NodesOf(h, t) == {} && ClosedInsOf(h, t) == {};
    } else {
      var n := |h| - 1;
      var g := h[..n];
      assert h == g + [h[n]];
      CountsAreSizes(g, t);
      hide Root, Parent, BrokenRoot;
      forall i | 0 <= i < n ensures Root(h, i) == Root(g, i) && HasClosedIn(h, i) == HasClosedIn(g, i) {
        RootAppend(g, [h[n]], i);
        assert h[i] == g[i];
      }
      NodesStep(h, g, t);
      ClosedInsStep(h, g, t);
    }
  }

  lemma NodesStep(h: History, g: History, t: Hash)
    requires h != [] && g == h[..|h| - 1] && forall i :: 0 <= i < |g| ==> Root(h, i) == Root(g, i)
    ensures |NodesOf(h, t)| == |NodesOf(g, t)| + if Root(h, |g|) == t then 1 else 0
  {
    hide Root;
    assert NodesOf(h, t) == NodesOf(g, t) + (if Root(h, |g|) == t then {|g|} else {});
  }

  lemma ClosedInsStep(h: History, g: History, t: Hash)
    requires h != [] && g == h[..|h| - 1]
    requires forall i :: 0 <= i < |g| ==> Root(h, i) == Root(g, i) && HasClosedIn(h, i) == HasClosedIn(g, i)
    ensures |ClosedInsOf(h, t)| == |ClosedInsOf(g, t)| + if Root(h, |g|) == t && HasClosedIn(h, |g|) then 1 else 0
  {
    hide Root, HasClosedIn;
    assert ClosedInsOf(h, t) == ClosedInsOf(g, t) + (if Root(h, |g|) == t && HasClosedIn(h, |g|) then {|g|} else {});
  }
}
