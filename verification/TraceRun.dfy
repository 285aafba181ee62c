/** Whole runs of the assembler over consecutive blocks, compared with the message graph of
    everything processed. */
module TraceRun {
  import opened Wrappers
  import opened TraceModel
  import opened TraceStep
  import opened TraceBlock
  import opened MessageGraph
  import opened GraphLemmas
  import opened TraceInvariant

  function Place(seqno: nat, txs: seq<Transaction>): (r: History)
    ensures |r| == |txs|
    ensures forall i :: 0 <= i < |r| ==> r[i] == Placed(seqno, txs[i])
  {
    seq(|txs|, i requires 0 <= i < |txs| => Placed(seqno, txs[i]))
  }

  // The transactions of blocks `first`, `first + 1`, ... in processing order.
  function HistoryOf(first: nat, blocks: seq<ParsedBlock>): History {
    if blocks == [] then []
    else
      var n := |blocks| - 1;
      HistoryOf(first, blocks[..n]) + Place(first + n, Ordered(blocks[n]))
  }

  // In-order processing of consecutive blocks.
  function Run(a: Assembler, first: nat, blocks: seq<ParsedBlock>): (r: (Assembler, seq<BlockResult>))
    requires Keyed(a.traces, a.edges)
    ensures Keyed(r.0.traces, r.0.edges)
    ensures |r.1| == |blocks|
  {
    if blocks == [] then (a, [])
    else
      var n := |blocks| - 1;
      var before := Run(a, first, blocks[..n]);
      var after := ProcessBlock(before.0, first + n, blocks[n]);
      (after.0, before.1 + [after.1])
  }

  // What block `b` of a run reports is what processing it in the state before it gives.
  lemma {:induction false} RunResultAt(first: nat, blocks: seq<ParsedBlock>, b: nat)
    requires b < |blocks|
    ensures Run(EMPTY, first, blocks).1[b] == ProcessBlock(Run(EMPTY, first, blocks[..b]).0, first + b, blocks[b]).1
    decreases |blocks|
  {
    hide ProcessBlock;
    var n := |blocks| - 1;
    if b < n {
      RunResultAt(first, blocks[..n], b);
      assert blocks[..n][..b] == blocks[..b];
    }
  }

  // Between blocks: the pending edges are the open edges of the graph, and exactly the
  // traces that still have open edges are pending, with the records read off the graph.
  ghost predicate Mirrors(a: Assembler, h: History) {
    && a.edges == OpenEdges(h)
    && (forall t :: t in a.traces <==> IsRoot(h, t) && CountEdges(OpenEdges(h), t) != 0)
    && (forall r :: 0 <= r < |h| && Parent(h, r).None? && h[r].tx.hash in a.traces ==>
          a.traces[h[r].tx.hash] == TraceRecord(h, r))
  }

  lemma BeginRefines(a: Assembler, h: History)
    requires Mirrors(a, h)
    ensures Refines(Begin(a), h, |h|)
  {
    assert OpenedSince(h, |h|) == {} by {
      forall m | m in OpenEdges(h) ensures OpenedBy(h, m) < |h| {
        OpenEdgesAt(h, m);
      }
    }
    assert TouchedSince(h, |h|) == {};
  }

  lemma {:induction false} StepAllRefines(w: Work, h: History, from: nat, seqno: nat, txs: seq<Transaction>)
    requires Refines(w, h, from) && WellFormed(h + Place(seqno, txs))
    ensures Refines(StepAll(w, seqno, txs), h + Place(seqno, txs), from)
    decreases |txs|
  {
    hide WellFormed, Refines, Step, Place;
    if txs == [] {
      assert h + Place(seqno, txs) == h;
    } else {
      var n := |txs| - 1;
      var before, x := h + Place(seqno, txs[..n]), Placed(seqno, txs[n]);
      assert h + Place(seqno, txs) == before + [x];
      WellFormedPrefix(before, x);
      StepAllRefines(w, h, from, seqno, txs[..n]);
      StepRefines(StepAll(w, seqno, txs[..n]), before, from, x);
    }
  }

  lemma {:induction false} RootAppend(h: History, rest: History, i: nat)
    requires i < |h|
    ensures Root(h + rest, i) == Root(h, i) && Parent(h + rest, i) == Parent(h, i)
    ensures BrokenRoot(h + rest, i) == BrokenRoot(h, i)
  {
    assert (h + rest)[..i] == h[..i];
    RootDependsOnPrefix(h + rest, h, i);
  }

  lemma SplitLast(h: History, g: History, seqno: nat, txs: seq<Transaction>)
    requires txs != [] && g == h + Place(seqno, txs)
    ensures g == (h + Place(seqno, txs[..|txs| - 1])) + [Placed(seqno, txs[|txs| - 1])]
  {
  }

  lemma LastAssigned(w: Work, h: History, before: History, from: nat, seqno: nat, txs: seq<Transaction>)
    requires txs != [] && before == h + Place(seqno, txs[..|txs| - 1])
    requires Refines(w, h, from) && WellFormed(before + [Placed(seqno, txs[|txs| - 1])])
    ensures TraceIdFor(StepAll(w, seqno, txs[..|txs| - 1]), txs[|txs| - 1]) ==
            Root(before + [Placed(seqno, txs[|txs| - 1])], |before|)
  {
    var x := Placed(seqno, txs[|txs| - 1]);
    WellFormedPrefix(before, x);
    StepAllRefines(w, h, from, seqno, txs[..|txs| - 1]);
    TraceIdIsRoot(StepAll(w, seqno, txs[..|txs| - 1]), before, from, x);
  }

  lemma {:induction false} AssignedAreRoots(w: Work, h: History, g: History, from: nat, seqno: nat, txs: seq<Transaction>, i: nat)
    requires Refines(w, h, from) && g == h + Place(seqno, txs) && WellFormed(g) && i < |txs|
    ensures Assigned(w, seqno, txs)[i] == Root(g, |h| + i)
    decreases |txs|
  {
    hide WellFormed, Refines, Root, Parent, StepAll, TraceIdFor, BrokenRoot, Place;
    var n := |txs| - 1;
    var before, x := h + Place(seqno, txs[..n]), Placed(seqno, txs[n]);
    SplitLast(h, g, seqno, txs);
    if i < n {
      WellFormedPrefix(before, x);
      AssignedAreRoots(w, h, before, from, seqno, txs[..n], i);
      RootAppend(before, [x], |h| + i);
    } else {
      LastAssigned(w, h, before, from, seqno, txs);
    }
  }

  // A broken trace keeps the edge of its unknown sender open.
  lemma BrokenStaysOpen(h: History, r: nat)
    requires WellFormed(h) && r < |h| && BrokenRoot(h, r)
    ensures CountEdges(OpenEdges(h), h[r].tx.hash) > 0
  {
    var m := h[r].tx.inMsg.value.hash;
    assert Consumes(h[r].tx, m);
    BrokenIsFound(h, r);
    OpenEdgesAt(h, m);
    assert m in EdgesOf(OpenEdges(h), h[r].tx.hash);
  }

  lemma {:induction false} BrokenIsFound(h: History, r: nat)
    requires WellFormed(h) && r < |h| && BrokenRoot(h, r)
    ensures Emitter(h, h[r].tx.inMsg.value.hash).None? && BrokenAt(h, h[r].tx.inMsg.value.hash) == Some(r)
  {
    var m := h[r].tx.inMsg.value.hash;
    var g, x := h[..|h| - 1], h[|h| - 1];
    assert h == g + [x];
    assert Consumes(h[r].tx, m);
    WellFormedPrefix(g, x);
    EmitterSnoc(g, x, m);
    BrokenAtSnoc(g, x, m);
    if r < |g| {
      assert g[..r] == h[..r];
      RootDependsOnPrefix(h, g, r);
      BrokenIsFound(g, r);
      assert h[|g|] == x && !Consumes(x.tx, m);
    } else {
      assert h[..r] == g;
    }
  }

  lemma RecordCount(w: Work, h: History, from: nat, t: Hash) returns (r: nat)
    requires Refines(w, h, from) && t in w.traces
    ensures r < |h| && Parent(h, r).None? && h[r].tx.hash == t && w.traces[t] == TraceRecord(h, r)
    ensures w.traces[t].pendingEdges == CountEdges(OpenEdges(h), t)
  {
    var i :| 0 <= i < |h| && Root(h, i) == t;
    r := RootIsParentless(h, i);
  }

  lemma FinishMirrors(w: Work, h: History, from: nat)
    requires Refines(w, h, from) && Reportable(w)
    ensures Mirrors(Finish(w), h)
  {
    forall t | t in w.traces ensures w.traces[t].pendingEdges == CountEdges(OpenEdges(h), t) {
      var _ := RecordCount(w, h, from, t);
    }
  }

  // What a block that ends with history `h` and started at `from` reports of trace `h[r]`.
  function Expected(h: History, from: nat, r: nat): EmittedTrace
    requires r < |h|
  {
    var t := h[r].tx.hash;
    var rec := TraceRecord(h, r);
    EmittedTrace(if rec.pendingEdges == 0 then rec.(state := Complete) else rec,
                 ClosedOf(h, from, t), OpenOf(h, from, t))
  }

  lemma {:induction false} OfTraceAppend(a: seq<Edge>, b: seq<Edge>, t: Hash)
    ensures OfTrace(a + b, t) == OfTrace(a, t) + OfTrace(b, t)
    decreases |b|
  {
    if b == [] {
      assert a + b == a;
    } else {
      var n := |b| - 1;
      assert (a + b)[..|a + b| - 1] == a + b[..n];
      OfTraceAppend(a, b[..n], t);
    }
  }

  lemma {:induction false} OfOneTrace(edges: seq<Edge>, r: Hash, t: Hash)
    requires forall i :: 0 <= i < |edges| ==> edges[i].traceId == r
    ensures OfTrace(edges, t) == if r == t then edges else []
  {
    if edges != [] {
      OfOneTrace(edges[..|edges| - 1], r, t);
    }
  }

  lemma {:induction false} LogEdgesOf(t: Hash, tx: Transaction, k: nat)
    requires k <= |tx.outMsgs|
    ensures forall i :: 0 <= i < |LogEdges(t, tx, k)| ==> LogEdges(t, tx, k)[i].traceId == t
  {
    if k > 0 {
      LogEdgesOf(t, tx, k - 1);
    }
  }

  // Sorting the closed edges out by trace gives each trace what its transactions closed.
  lemma {:induction false} ClosedByTrace(h: History, from: nat, t: Hash)
    ensures OfTrace(ClosedSince(h, from), t) == ClosedOf(h, from, t)
    decreases |h|
  {
    if |h| > from {
      var n := |h| - 1;
      var r := Root(h, n);
      var ins := if HasClosedIn(h, n) then [ClosedIn(h, n)] else [];
      var logs := LogEdges(r, h[n].tx, |h[n].tx.outMsgs|);
      ClosedByTrace(h[..n], from, t);
      LogEdgesOf(r, h[n].tx, |h[n].tx.outMsgs|);
      hide LogEdges, ClosedSince, OfTrace;
      assert ClosedSince(h, from) == (ClosedSince(h[..n], from) + ins) + logs by {
        ClosedSinceStep(h, from);
      }
      OfTraceAppend(ClosedSince(h[..n], from) + ins, logs, t);
      OfTraceAppend(ClosedSince(h[..n], from), ins, t);
      OfOneTrace(ins, r, t);
      OfOneTrace(logs, r, t);
    }
  }

  lemma ReportKeys(w: Work, h: History, from: nat)
    requires Refines(w, h, from) && Reportable(w)
    ensures Report(w).Keys == TouchedSince(h, from)
  {
    hide TracesMatch, TouchedSince, Emitted;
  }

  lemma ReportMatches(w: Work, h: History, from: nat, r: nat)
    requires Refines(w, h, from) && Reportable(w) && WellFormed(h)
    requires r < |h| && Parent(h, r).None? && h[r].tx.hash in Report(w)
    ensures Report(w)[h[r].tx.hash] == Expected(h, from, r)
  {
    hide OpenEdges, OpenedSince, ClosedSince, ClosedOf, OfTrace, TouchedSince, WellFormed, Parent, CountEdges;
    var t := h[r].tx.hash;
    assert w.traces[t] == TraceRecord(h, r);
    ClosedByTrace(h, from, t);
    assert OpenAmong(w.edges, w.added, t) == OpenOf(h, from, t);
    if BrokenRoot(h, r) {
      BrokenStaysOpen(h, r);
    }
  }

  /** One block takes a state that mirrors the graph so far to one that mirrors the longer graph. */
  lemma BlockMirrors(a: Assembler, h: History, g: History, seqno: nat, b: ParsedBlock)
    requires Keyed(a.traces, a.edges) && Mirrors(a, h)
    requires g == h + Place(seqno, Ordered(b)) && WellFormed(g)
    ensures Mirrors(ProcessBlock(a, seqno, b).0, g)
  {
    hide StepAll, Refines, WellFormed, Mirrors, Report, Ordered, Assigned, Place;
    BeginRefines(a, h);
    StepAllRefines(Begin(a), h, |h|, seqno, Ordered(b));
    StepAllKeepsReportable(Begin(a), seqno, Ordered(b));
    FinishMirrors(StepAll(Begin(a), seqno, Ordered(b)), g, |h|);
  }

  /** Every transaction of the block is assigned its root. */
  lemma BlockAssignsRoots(a: Assembler, h: History, g: History, seqno: nat, b: ParsedBlock)
    requires Keyed(a.traces, a.edges) && Mirrors(a, h)
    requires g == h + Place(seqno, Ordered(b)) && WellFormed(g)
    ensures var ids := ProcessBlock(a, seqno, b).1.traceIds;
            |ids| == |Ordered(b)| && forall i :: 0 <= i < |ids| ==> ids[i] == Root(g, |h| + i)
  {
    hide StepAll, Refines, WellFormed, Mirrors, Report, Ordered, Assigned, Place, Root;
    BeginRefines(a, h);
    forall i | 0 <= i < |Ordered(b)| ensures Assigned(Begin(a), seqno, Ordered(b))[i] == Root(g, |h| + i) {
      AssignedAreRoots(Begin(a), h, g, |h|, seqno, Ordered(b), i);
    }
  }

  /** The block reports exactly the traces it touched, with the record and the edges that the
      graph prescribes; a trace is reported complete exactly when it has no open edge left. */
  lemma BlockReports(a: Assembler, h: History, g: History, seqno: nat, b: ParsedBlock)
    requires Keyed(a.traces, a.edges) && Mirrors(a, h)
    requires g == h + Place(seqno, Ordered(b)) && WellFormed(g)
    ensures var report := ProcessBlock(a, seqno, b).1.traces;
            && report.Keys == TouchedSince(g, |h|)
            && (forall i :: 0 <= i < |g| && Parent(g, i).None? && g[i].tx.hash in report ==>
                  report[g[i].tx.hash] == Expected(g, |h|, i))
  {
    hide StepAll, Refines, WellFormed, Mirrors, Expected, Report, Parent, TouchedSince, Ordered, Assigned, Place;
    var w := StepAll(Begin(a), seqno, Ordered(b));
    BeginRefines(a, h);
    StepAllRefines(Begin(a), h, |h|, seqno, Ordered(b));
    StepAllKeepsReportable(Begin(a), seqno, Ordered(b));
    ReportKeys(w, g, |h|);
    forall i | 0 <= i < |g| && Parent(g, i).None? && g[i].tx.hash in Report(w)
      ensures Report(w)[g[i].tx.hash] == Expected(g, |h|, i)
    {
      ReportMatches(w, g, |h|, i);
    }
  }

  lemma {:induction false} WellFormedTake(h: History, rest: History)
    requires WellFormed(h + rest)
    ensures WellFormed(h)
    decreases |rest|
  {
    if rest == [] {
      assert h + rest == h;
    } else {
      var n := |rest| - 1;
      assert h + rest == (h + rest[..n]) + [rest[n]];
      WellFormedPrefix(h + rest[..n], rest[n]);
      WellFormedTake(h, rest[..n]);
    }
  }

  lemma EmptyMirrors()
    ensures Mirrors(EMPTY, [])
  {
    assert OpenEdges([]) == map[];
  }

  /** Refinement: after any well-formed run from an empty state, the pending maps are the
      ones read off the message graph of the whole run. */
  lemma {:induction false} RunMirrors(first: nat, blocks: seq<ParsedBlock>)
    requires WellFormed(HistoryOf(first, blocks))
    ensures Mirrors(Run(EMPTY, first, blocks).0, HistoryOf(first, blocks))
  {
    hide WellFormed, Mirrors, ProcessBlock, Place, Ordered;
    if blocks == [] {
      EmptyMirrors();
    } else {
      var n := |blocks| - 1;
      WellFormedTake(HistoryOf(first, blocks[..n]), Place(first + n, Ordered(blocks[n])));
      RunMirrors(first, blocks[..n]);
      BlockMirrors(Run(EMPTY, first, blocks[..n]).0, HistoryOf(first, blocks[..n]), HistoryOf(first, blocks),
                   first + n, blocks[n]);
    }
  }

  /** Every transaction of every block of a well-formed run was assigned the hash of the root
      of its message chain, measured in the graph of the whole run. */
  lemma {:induction false} RunAssignsRoots(first: nat, blocks: seq<ParsedBlock>, b: nat, i: nat)
    requires WellFormed(HistoryOf(first, blocks))
    requires b < |blocks| && i < |Ordered(blocks[b])|
    ensures var ids := Run(EMPTY, first, blocks).1[b].traceIds;
            var at := |HistoryOf(first, blocks[..b])| + i;
            && |ids| == |Ordered(blocks[b])| && at < |HistoryOf(first, blocks)|
            && ids[i] == Root(HistoryOf(first, blocks), at)
    decreases |blocks|
  {
    hide WellFormed, Mirrors, ProcessBlock, Place, Ordered, Root, Parent, BrokenRoot;
    var n := |blocks| - 1;
    var h, last := HistoryOf(first, blocks[..n]), Place(first + n, Ordered(blocks[n]));
    WellFormedTake(h, last);
    if b < n {
      RunAssignsRoots(first, blocks[..n], b, i);
      assert blocks[..n][..b] == blocks[..b];
      RootAppend(h, last, |HistoryOf(first, blocks[..b])| + i);
    } else {
      RunMirrors(first, blocks[..n]);
      BlockAssignsRoots(Run(EMPTY, first, blocks[..n]).0, h, HistoryOf(first, blocks), first + n, blocks[n]);
    }
  }

  /** So every transaction of every shard block of every block of the run is assigned its root. */
  lemma EveryTransactionAssigned(first: nat, blocks: seq<ParsedBlock>, b: nat, j: nat, k: nat) returns (i: nat)
    requires WellFormed(HistoryOf(first, blocks)) && b < |blocks|
    requires j < |blocks[b].blocks| && k < |blocks[b].blocks[j]|
    ensures i < |Ordered(blocks[b])| && Ordered(blocks[b])[i] == blocks[b].blocks[j][k]
    ensures var ids := Run(EMPTY, first, blocks).1[b].traceIds;
            var at := |HistoryOf(first, blocks[..b])| + i;
            && |ids| == |Ordered(blocks[b])| && at < |HistoryOf(first, blocks)|
            && ids[i] == Root(HistoryOf(first, blocks), at)
  {
    hide WellFormed, Run, HistoryOf, Ordered, Root;
    OrderedHoldsAll(blocks[b], blocks[b].blocks[j][k]);
    i :| 0 <= i < |Ordered(blocks[b])| && Ordered(blocks[b])[i] == blocks[b].blocks[j][k];
    RunAssignsRoots(first, blocks, b, i);
  }
}
