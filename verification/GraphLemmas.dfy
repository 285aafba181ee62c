/** How the message graph of a history changes when a transaction is appended. */
module GraphLemmas {
  import opened Wrappers
  import opened TraceModel
  import opened MessageGraph

  // The last transaction of a history with only its first `k` out-messages.
  function Cut(p: Placed, k: nat): Placed
    requires k <= |p.tx.outMsgs|
  {
    p.(tx := p.tx.(outMsgs := p.tx.outMsgs[..k]))
  }

  lemma {:induction false} RootDependsOnPrefix(h: History, g: History, i: nat)
    requires i < |h| && i < |g| && h[..i] == g[..i]
    requires h[i].tx.hash == g[i].tx.hash && h[i].tx.inMsg == g[i].tx.inMsg
    ensures Parent(h, i) == Parent(g, i) && Root(h, i) == Root(g, i)
    ensures BrokenRoot(h, i) == BrokenRoot(g, i) && HasClosedIn(h, i) == HasClosedIn(g, i)
    decreases i
  {
    match Parent(h, i)
    case None =>
    case Some(j) =>
      assert h[..j] == h[..i][..j] == g[..j];
      assert h[j] == h[..i][j] == g[j];
      RootDependsOnPrefix(h, g, j);
  }

  lemma EmitterSnoc(h: History, x: Placed, m: Hash)
    ensures Emitter(h + [x], m) == if Emits(x.tx, m) then Some(|h|) else Emitter(h, m)
  {
    assert (h + [x])[..|h|] == h;
  }

  lemma RootSnoc(h: History, x: Placed)
    ensures forall i :: 0 <= i < |h| ==> Root(h + [x], i) == Root(h, i)
    ensures forall i :: 0 <= i < |h| ==> BrokenRoot(h + [x], i) == BrokenRoot(h, i)
    ensures forall i :: 0 <= i < |h| ==> HasClosedIn(h + [x], i) == HasClosedIn(h, i)
    ensures Parent(h + [x], |h|) == if x.tx.inMsg.None? then None else Emitter(h, x.tx.inMsg.value.hash)
  {
    assert (h + [x])[..|h|] == h;
    forall i | 0 <= i < |h|
      ensures Root(h + [x], i) == Root(h, i)
      ensures BrokenRoot(h + [x], i) == BrokenRoot(h, i)
      ensures HasClosedIn(h + [x], i) == HasClosedIn(h, i)
    {
      assert (h + [x])[..i] == h[..i];
      RootDependsOnPrefix(h + [x], h, i);
    }
  }

  // The counts of every trace after appending a transaction.
  lemma CountsSnoc(h: History, x: Placed, t: Hash)
    ensures var mine := Root(h + [x], |h|) == t;
            && NodeCount(h + [x], t) == NodeCount(h, t) + (if mine then 1 else 0)
            && ClosedInCount(h + [x], t) == ClosedInCount(h, t) + (if mine && HasClosedIn(h + [x], |h|) then 1 else 0)
            && LogTotal(h + [x], t) == LogTotal(h, t) + (if mine then LogCount(x.tx, |x.tx.outMsgs|) else 0)
            && Latest(h + [x], t) ==
               var r := Latest(h, t);
               if mine then (Max(r.0, x.seqno), Max(r.1, x.tx.lt), Max(r.2, x.tx.now)) else r
  {
    hide Root, HasClosedIn, LogCount;
    assert (h + [x])[..|h|] == h;
  }

  /** The root of a transaction is a transaction without a known sender. */
  lemma {:induction false} RootIsParentless(h: History, i: nat) returns (r: nat)
    requires i < |h|
    ensures r <= i && Parent(h, r).None? && h[r].tx.hash == Root(h, i) && Root(h, r) == Root(h, i)
    decreases i
  {
    match Parent(h, i)
    case None => r := i;
    case Some(j) => r := RootIsParentless(h, j);
  }

  lemma {:induction false} SentIsMentioned(h: History, i: nat)
    requires i < |h|
    ensures TxHashes(h[i].tx) <= Mentioned(h)
  {
    if i < |h| - 1 {
      SentIsMentioned(h[..|h| - 1], i);
    }
  }

  lemma OpenEdgesAt(h: History, m: Hash)
    ensures m in OpenEdges(h) <==> OpenEdge(h, m).Some?
    ensures m in OpenEdges(h) ==> OpenEdges(h)[m] == OpenEdge(h, m).value
  {
    match Emitter(h, m)
    case Some(i) => SentIsMentioned(h, i);
    case None =>
      match BrokenAt(h, m)
      case Some(j) => SentIsMentioned(h, j);
      case None =>
  }

  /** Every open edge belongs to the trace of a transaction in the history. */
  lemma OpenEdgeHasRoot(h: History, m: Hash)
    requires OpenEdge(h, m).Some?
    ensures IsRoot(h, OpenEdge(h, m).value.traceId)
  {
    match Emitter(h, m)
    case Some(i) => assert Root(h, i) == OpenEdge(h, m).value.traceId;
    case None => assert Root(h, BrokenAt(h, m).value) == OpenEdge(h, m).value.traceId;
  }

  lemma NoRootNoCounts(h: History, t: Hash)
    requires !IsRoot(h, t)
    ensures NodeCount(h, t) == ClosedInCount(h, t) == LogTotal(h, t) == 0
    ensures Latest(h, t) == (0, 0, 0)
    ensures CountEdges(OpenEdges(h), t) == 0
  {
    assert EdgesOf(OpenEdges(h), t) == {} by {
      forall m | m in OpenEdges(h) ensures OpenEdges(h)[m].traceId != t {
        OpenEdgesAt(h, m);
        OpenEdgeHasRoot(h, m);
      }
    }
    NoRootNoSums(h, t);
  }

  lemma {:induction false} NoRootNoSums(h: History, t: Hash)
    requires !IsRoot(h, t)
    ensures NodeCount(h, t) == ClosedInCount(h, t) == LogTotal(h, t) == 0
    ensures Latest(h, t) == (0, 0, 0)
  {
    hide Root, HasClosedIn, LogCount, BrokenRoot, Parent;
    if h != [] {
      var g, x := h[..|h| - 1], h[|h| - 1];
      assert h == g + [x];
      RootSnoc(g, x);
      assert forall i :: 0 <= i < |g| ==> Root(g, i) == Root(h, i) != t;
      NoRootNoSums(g, t);
    }
  }

  lemma BrokenAtSnoc(h: History, x: Placed, m: Hash)
    ensures BrokenAt(h + [x], m) ==
            if Consumes(x.tx, m) && BrokenRoot(h + [x], |h|) then Some(|h|) else BrokenAt(h, m)
  {
    assert (h + [x])[..|h|] == h;
  }

  lemma ConsumedSnoc(h: History, x: Placed, m: Hash)
    ensures Consumed(h + [x], m) <==> Consumed(h, m) || Consumes(x.tx, m)
  {
    var g := h + [x];
    if Consumed(h, m) {
      var i :| 0 <= i < |h| && Consumes(h[i].tx, m);
      assert Consumes(g[i].tx, m);
    }
    if Consumes(x.tx, m) {
      assert Consumes(g[|h|].tx, m);
    }
    if Consumed(g, m) {
      var i :| 0 <= i < |g| && Consumes(g[i].tx, m);
      assert i < |h| ==> Consumes(h[i].tx, m);
    }
  }

  // A message that the new transaction neither sends nor consumes keeps its edge.
  lemma OpenEdgeElsewhere(h: History, x: Placed, m: Hash)
    requires !Emits(x.tx, m) && !Consumes(x.tx, m)
    ensures OpenEdge(h + [x], m) == OpenEdge(h, m)
  {
    EmitterSnoc(h, x, m);
    ConsumedSnoc(h, x, m);
    BrokenAtSnoc(h, x, m);
    RootSnoc(h, x);
  }

  // Well-formedness speaks of identities, in-messages and sent hashes only.
  lemma WellFormedPart(g: History, c: History)
    requires WellFormed(g) && |c| <= |g|
    requires forall i :: 0 <= i < |c| ==> c[i].tx.hash == g[i].tx.hash && c[i].tx.inMsg == g[i].tx.inMsg
    requires forall i, m :: 0 <= i < |c| && Emits(c[i].tx, m) ==> Emits(g[i].tx, m)
    requires forall i :: 0 <= i < |c| ==> DistinctOuts(c[i].tx)
    ensures WellFormed(c)
  {
    forall i, j, m | 0 <= i < j < |c| && Consumes(c[i].tx, m) && Consumes(c[j].tx, m)
      ensures Emitter(c, m).None?
      ensures StartsTrace(c[i].tx.inMsg.value) && StartsTrace(c[j].tx.inMsg.value)
    {
      assert Consumes(g[i].tx, m) && Consumes(g[j].tx, m);
      assert Emitter(g, m).None?;
    }
    forall i, j, m | 0 <= i < |c| && 0 <= j < |c| && Emits(c[i].tx, m) && Consumes(c[j].tx, m)
      ensures i < j
    {
      assert Consumes(g[j].tx, m);
    }
  }

  lemma WellFormedPrefix(h: History, x: Placed)
    requires WellFormed(h + [x])
    ensures WellFormed(h)
  {
    hide Emits, DistinctOuts, ConsumedOnce, SentBeforeConsumed, DistinctTxs;
    assert forall i :: 0 <= i < |h| ==> (h + [x])[i] == h[i];
    WellFormedPart(h + [x], h);
  }

  lemma WellFormedCut(h: History, x: Placed, k: nat)
    requires WellFormed(h + [x]) && k <= |x.tx.outMsgs|
    ensures WellFormed(h + [Cut(x, k)])
  {
    hide ConsumedOnce, SentBeforeConsumed, DistinctTxs;
    var g, c := h + [x], h + [Cut(x, k)];
    assert DistinctOuts(g[|h|].tx) && g[|h|] == x;
    assert DistinctOuts(Cut(x, k).tx);
    forall i, m | 0 <= i < |c| && Emits(c[i].tx, m) ensures Emits(g[i].tx, m) {
    }
    WellFormedPart(g, c);
  }

  lemma ClosedSinceStep(h: History, from: nat)
    requires |h| > from
    ensures var n := |h| - 1;
            ClosedSince(h, from) ==
            ClosedSince(h[..n], from) + (if HasClosedIn(h, n) then [ClosedIn(h, n)] else []) +
            LogEdges(Root(h, n), h[n].tx, |h[n].tx.outMsgs|)
  {
  }
}
