/** Completion over whole runs: what a block reports as complete, no later block touches. */
module TraceFinality {
  import opened TraceModel
  import opened TraceStep
  import opened TraceBlock
  import opened MessageGraph
  import opened GraphLemmas
  import opened TraceRun
  import opened TraceCompletion

  lemma HistorySnoc(first: nat, blocks: seq<ParsedBlock>, c: nat)
    requires c < |blocks|
    ensures HistoryOf(first, blocks[..c + 1]) == HistoryOf(first, blocks[..c]) + Place(first + c, Ordered(blocks[c]))
  {
    hide Place, Ordered;
    assert blocks[..c + 1][..c] == blocks[..c];
  }

  lemma {:induction false} HistoryPrefix(first: nat, blocks: seq<ParsedBlock>, b: nat, c: nat) returns (rest: History)
    requires b <= c <= |blocks|
    ensures HistoryOf(first, blocks[..c]) == HistoryOf(first, blocks[..b]) + rest
    decreases c
  {
    hide HistoryOf, Place, Ordered;
    if b == c {
      rest := [];
    } else {
      var mid := HistoryPrefix(first, blocks, b, c - 1);
      HistorySnoc(first, blocks, c - 1);
      rest := mid + Place(first + (c - 1), Ordered(blocks[c - 1]));
    }
  }

  lemma {:induction false} TouchedIsRoot(h: History, from: nat, t: Hash) returns (i: nat)
    requires t in TouchedSince(h, from)
    ensures from <= i < |h| && Root(h, i) == t
    decreases |h|
  {
    hide Root;
    var n := |h| - 1;
    if Root(h, n) == t {
      i := n;
    } else {
      i := TouchedIsRoot(h[..n], from, t);
      assert h == h[..n] + [h[n]];
      RootAppend(h[..n], [h[n]], i);
    }
  }

  // Block `c` of a well-formed run: it is processed in a state that mirrors the history so far.
  lemma BlockInRun(first: nat, blocks: seq<ParsedBlock>, c: nat) returns (a: Assembler, h: History, g: History)
    requires WellFormed(HistoryOf(first, blocks)) && c < |blocks|
    ensures h == HistoryOf(first, blocks[..c]) && g == HistoryOf(first, blocks[..c + 1])
    ensures Keyed(a.traces, a.edges) && Mirrors(a, h)
    ensures g == h + Place(first + c, Ordered(blocks[c])) && WellFormed(g)
    ensures Run(EMPTY, first, blocks).1[c] == ProcessBlock(a, first + c, blocks[c]).1
  {
    hide WellFormed, Mirrors, ProcessBlock, Place, Ordered, HistoryOf, Run;
    RunResultAt(first, blocks, c);
    a := Run(EMPTY, first, blocks[..c]).0;
    h, g := HistoryOf(first, blocks[..c]), HistoryOf(first, blocks[..c + 1]);
    HistorySnoc(first, blocks, c);
    var later := HistoryPrefix(first, blocks, c + 1, |blocks|);
    assert blocks[..|blocks|] == blocks;
    WellFormedTake(g, later);
    WellFormedTake(h, Place(first + c, Ordered(blocks[c])));
    RunMirrors(first, blocks[..c]);
  }

  // A trace that block `b` reports complete has all its messages consumed.
  lemma CompleteIsSettled(first: nat, blocks: seq<ParsedBlock>, b: nat, t: Hash)
    requires WellFormed(HistoryOf(first, blocks)) && b < |blocks|
    requires t in Run(EMPTY, first, blocks).1[b].traces
    requires Run(EMPTY, first, blocks).1[b].traces[t].trace.state == Complete
    ensures IsRoot(HistoryOf(first, blocks[..b + 1]), t) && Settled(HistoryOf(first, blocks[..b + 1]), t)
  {
    hide WellFormed, Mirrors, ProcessBlock, Place, Ordered, Root, Parent, Settled, Run, HistoryOf, TouchedSince;
    var a, h, g := BlockInRun(first, blocks, b);
    BlockReports(a, h, g, first + b, blocks[b]);
    var i := TouchedIsRoot(g, |h|, t);
    var r := RootIsParentless(g, i);
    ReportedComplete(a, h, g, first + b, blocks[b], r);
  }

  // A settled trace is not the root of anything in a later block.
  lemma NoLaterRoot(first: nat, blocks: seq<ParsedBlock>, b: nat, t: Hash, c: nat, j: nat)
    requires b < c <= |blocks| && WellFormed(HistoryOf(first, blocks[..c]))
    requires IsRoot(HistoryOf(first, blocks[..b]), t) && Settled(HistoryOf(first, blocks[..b]), t)
    requires |HistoryOf(first, blocks[..b])| <= j < |HistoryOf(first, blocks[..c])|
    ensures Root(HistoryOf(first, blocks[..c]), j) != t
  {
    hide WellFormed, Root, Settled, IsRoot, HistoryOf;
    var rest := HistoryPrefix(first, blocks, b, c);
    SettledIsFinal(HistoryOf(first, blocks[..b]), rest, t, j);
  }

  lemma HistoryGrows(first: nat, blocks: seq<ParsedBlock>, b: nat, c: nat)
    requires b <= c <= |blocks|
    ensures |HistoryOf(first, blocks[..b])| <= |HistoryOf(first, blocks[..c])|
  {
    var rest := HistoryPrefix(first, blocks, b, c);
  }

  /** In a well-formed run, no transaction of a block after `b` is assigned to a trace that
      block `b` reported complete, and no block after `b` reports that trace again. */
  lemma CompleteForGood(first: nat, blocks: seq<ParsedBlock>, b: nat, t: Hash, c: nat)
    requires WellFormed(HistoryOf(first, blocks)) && b < c < |blocks|
    requires t in Run(EMPTY, first, blocks).1[b].traces
    requires Run(EMPTY, first, blocks).1[b].traces[t].trace.state == Complete
    ensures t !in Run(EMPTY, first, blocks).1[c].traceIds && t !in Run(EMPTY, first, blocks).1[c].traces
  {
    hide WellFormed, Mirrors, ProcessBlock, Place, Ordered, Root, Parent, Settled, Run, HistoryOf, IsRoot, TouchedSince;
    CompleteIsSettled(first, blocks, b, t);
    var a, h, g := BlockInRun(first, blocks, c);
    HistoryGrows(first, blocks, b + 1, c);
    BlockReports(a, h, g, first + c, blocks[c]);
    BlockAssignsRoots(a, h, g, first + c, blocks[c]);
    var ids := ProcessBlock(a, first + c, blocks[c]).1.traceIds;
    forall i | 0 <= i < |ids| ensures ids[i] != t {
      NoLaterRoot(first, blocks, b + 1, t, c + 1, |h| + i);
    }
    if t in TouchedSince(g, |h|) {
      var i := TouchedIsRoot(g, |h|, t);
      NoLaterRoot(first, blocks, b + 1, t, c + 1, i);
    }
  }
}
