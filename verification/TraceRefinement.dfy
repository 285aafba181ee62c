/** The incremental assembler computes exactly what the message graph says: its pending
    maps, its counters and what it reports are all read off the graph. */
module TraceRefinement {
  import opened Wrappers
  import opened TraceModel
  import opened TraceStep
  import opened MessageGraph
  import opened GraphLemmas

  // ---- Counting pending edges per trace ----

  lemma CountInsert(edges: map<Hash, Edge>, m: Hash, e: Edge, t: Hash)
    requires m !in edges
    ensures CountEdges(edges[m := e], t) == CountEdges(edges, t) + (if e.traceId == t then 1 else 0)
  {
    var a, b := EdgesOf(edges, t), EdgesOf(edges[m := e], t);
    assert b == if e.traceId == t then a + {m} else a;
  }

  lemma CountRemove(edges: map<Hash, Edge>, m: Hash, t: Hash)
    requires m in edges
    ensures CountEdges(edges, t) == CountEdges(edges - {m}, t) + (if edges[m].traceId == t then 1 else 0)
  {
    CountInsert(edges - {m}, m, edges[m], t);
    assert (edges - {m})[m := edges[m]] == edges;
  }

  // ---- Effect of a transaction on the open edges of the graph ----

  // Looking up the in-message among the open edges finds exactly the earlier sender.
  lemma LookupFindsParent(h: History, x: Placed)
    requires WellFormed(h + [x]) && x.tx.inMsg.Some?
    ensures var m := x.tx.inMsg.value.hash;
            && (OpenEdge(h, m).Some? <==> Emitter(h, m).Some?)
            && (m in OpenEdges(h) <==> Emitter(h, m).Some?)
  {
    var m := x.tx.inMsg.value.hash;
    var g, n := h + [x], |h|;
    assert Consumes(g[n].tx, m);
    EmitterSnoc(h, x, m);
    OpenEdgesAt(h, m);
    var e, b := Emitter(h, m), BrokenAt(h, m);
    assert e.Some? ==> !Consumed(h, m) by {
      forall j | 0 <= j < |h| ensures e.Some? ==> !Consumes(h[j].tx, m) {
        assert g[j] == h[j];
      }
    }
    assert forall j :: 0 <= j < |h| ==> g[j] == h[j];
    assert e.None? ==> b.None?;
  }

  lemma OpenEdgesWith(a: History, b: History, m: Hash, e: Edge)
    requires OpenEdge(a, m).None? && OpenEdge(b, m) == Some(e)
    requires forall q :: q != m ==> OpenEdge(b, q) == OpenEdge(a, q)
    ensures m !in OpenEdges(a) && OpenEdges(b) == OpenEdges(a)[m := e]
  {
    hide OpenEdge, OpenEdges;
    forall q
      ensures q in OpenEdges(b) <==> q == m || q in OpenEdges(a)
      ensures q in OpenEdges(b) && q != m ==> OpenEdges(b)[q] == OpenEdges(a)[q]
    {
      OpenEdgesAt(a, q);
      OpenEdgesAt(b, q);
    }
    OpenEdgesAt(a, m);
    OpenEdgesAt(b, m);
  }

  lemma OpenEdgesSame(a: History, b: History)
    requires forall q :: OpenEdge(b, q) == OpenEdge(a, q)
    ensures OpenEdges(b) == OpenEdges(a)
  {
    hide OpenEdge, OpenEdges;
    forall q
      ensures q in OpenEdges(b) <==> q in OpenEdges(a)
      ensures q in OpenEdges(b) ==> OpenEdges(b)[q] == OpenEdges(a)[q]
    {
      OpenEdgesAt(a, q);
      OpenEdgesAt(b, q);
    }
  }

  lemma OpenEdgesWithout(a: History, b: History, m: Hash)
    requires OpenEdge(b, m).None?
    requires forall q :: q != m ==> OpenEdge(b, q) == OpenEdge(a, q)
    ensures OpenEdges(b) == OpenEdges(a) - {m}
  {
    hide OpenEdge, OpenEdges;
    forall q
      ensures q in OpenEdges(b) <==> q != m && q in OpenEdges(a)
      ensures q in OpenEdges(b) ==> OpenEdges(b)[q] == OpenEdges(a)[q]
    {
      OpenEdgesAt(a, q);
      OpenEdgesAt(b, q);
    }
  }

  // The edge of the message that the new transaction consumes.
  lemma ConsumedEdge(h: History, x: Placed)
    requires WellFormed(h + [x]) && x.tx.inMsg.Some? && x.tx.outMsgs == []
    ensures var m := x.tx.inMsg.value;
            var after := OpenEdge(h + [x], m.hash);
            if Emitter(h, m.hash).Some? then after.None?
            else if StartsTrace(m) then after.None? && OpenEdge(h, m.hash).None?
            else after == Some(RootEdge(x.tx, m)) && OpenEdge(h, m.hash).None?
  {
    hide OpenEdges;
    var m := x.tx.inMsg.value.hash;
    EmitterSnoc(h, x, m);
    BrokenAtSnoc(h, x, m);
    ConsumedSnoc(h, x, m);
    RootSnoc(h, x);
    LookupFindsParent(h, x);
  }

  // Appending a transaction that sends nothing.
  lemma OpenEdgesAfterConsume(h: History, x: Placed)
    requires WellFormed(h + [x]) && x.tx.outMsgs == []
    ensures OpenEdges(h + [x]) ==
            if x.tx.inMsg.None? then OpenEdges(h)
            else
              var m := x.tx.inMsg.value;
              if Emitter(h, m.hash).Some? then OpenEdges(h) - {m.hash}
              else if StartsTrace(m) then OpenEdges(h)
              else OpenEdges(h)[m.hash := RootEdge(x.tx, m)]
  {
    hide OpenEdges, OpenEdge, WellFormed, Emitter;
    var g := h + [x];
    forall q | !Consumes(x.tx, q) ensures OpenEdge(g, q) == OpenEdge(h, q) {
      OpenEdgeElsewhere(h, x, q);
    }
    match x.tx.inMsg
    case None => OpenEdgesSame(h, g);
    case Some(m) =>
      ConsumedEdge(h, x);
      if Emitter(h, m.hash).Some? {
        OpenEdgesWithout(h, g, m.hash);
      } else if StartsTrace(m) {
        OpenEdgesSame(h, g);
      } else {
        OpenEdgesWith(h, g, m.hash, RootEdge(x.tx, m));
      }
  }

  lemma {:induction false} SentWithinPrefix(a: Transaction, b: Transaction, m: Hash, k: nat)
    requires k <= |a.outMsgs| && k <= |b.outMsgs| && a.outMsgs[..k] == b.outMsgs[..k]
    requires exists l :: 0 <= l < k && Internal(a.outMsgs[l]) && a.outMsgs[l].hash == m
    ensures exists l :: 0 <= l < k && Internal(b.outMsgs[l]) && b.outMsgs[l].hash == m
    ensures SentWithin(a, m, k) == SentWithin(b, m, k)
  {
    assert forall l :: 0 <= l < k ==> a.outMsgs[l] == a.outMsgs[..k][l] == b.outMsgs[l];
    if !(Internal(a.outMsgs[k - 1]) && a.outMsgs[k - 1].hash == m) {
      assert a.outMsgs[..k - 1] == a.outMsgs[..k][..k - 1] == b.outMsgs[..k - 1];
      SentWithinPrefix(a, b, m, k - 1);
    }
  }

  // Sending one more message opens its edge and leaves all others alone.
  lemma SendOne(x: Placed, k: nat, q: Hash)
    requires k < |x.tx.outMsgs|
    ensures var m := x.tx.outMsgs[k];
            if Internal(m) && m.hash == q
            then Emits(Cut(x, k + 1).tx, q) && SentMessage(Cut(x, k + 1).tx, q) == m
            else
              && Emits(Cut(x, k + 1).tx, q) == Emits(Cut(x, k).tx, q)
              && (Emits(Cut(x, k).tx, q) ==> SentMessage(Cut(x, k + 1).tx, q) == SentMessage(Cut(x, k).tx, q))
  {
    var m := x.tx.outMsgs[k];
    var a, b := Cut(x, k).tx, Cut(x, k + 1).tx;
    assert b.outMsgs[k] == m;
    assert a.outMsgs == b.outMsgs[..k];
    assert forall l :: 0 <= l < k ==> a.outMsgs[l] == b.outMsgs[l];
    if !(Internal(m) && m.hash == q) && Emits(a, q) {
      SentWithinPrefix(a, b, q, k);
    }
  }

  lemma SameRoots(h: History, x: Placed, k: nat)
    requires k < |x.tx.outMsgs|
    ensures var p, q := h + [Cut(x, k)], h + [Cut(x, k + 1)];
            && (forall i :: 0 <= i <= |h| ==> Root(p, i) == Root(q, i))
            && (forall i :: 0 <= i <= |h| ==> BrokenRoot(p, i) == BrokenRoot(q, i))
            && (forall i :: 0 <= i <= |h| ==> HasClosedIn(p, i) == HasClosedIn(q, i))
            && (forall i :: 0 <= i <= |h| ==> Parent(p, i) == Parent(q, i))
  {
    var p, q := h + [Cut(x, k)], h + [Cut(x, k + 1)];
    forall i | 0 <= i <= |h|
      ensures Root(p, i) == Root(q, i) && BrokenRoot(p, i) == BrokenRoot(q, i) && HasClosedIn(p, i) == HasClosedIn(q, i)
      ensures Parent(p, i) == Parent(q, i)
    {
      assert p[..i] == h[..i] == q[..i];
      RootDependsOnPrefix(p, q, i);
    }
  }

  lemma OpenEdgeKept(h: History, x: Placed, k: nat, q: Hash)
    requires k < |x.tx.outMsgs| && !(Internal(x.tx.outMsgs[k]) && x.tx.outMsgs[k].hash == q)
    ensures var a, b := h + [Cut(x, k)], h + [Cut(x, k + 1)];
            OpenEdge(b, q) == OpenEdge(a, q) && (OpenEdge(a, q).Some? ==> OpenedBy(b, q) == OpenedBy(a, q))
  {
    SendOne(x, k, q);
    SameRoots(h, x, k);
    EmitterSnoc(h, Cut(x, k), q);
    EmitterSnoc(h, Cut(x, k + 1), q);
    ConsumedSnoc(h, Cut(x, k), q);
    ConsumedSnoc(h, Cut(x, k + 1), q);
    BrokenAtSnoc(h, Cut(x, k), q);
    BrokenAtSnoc(h, Cut(x, k + 1), q);
  }

  lemma OpenEdgeAdded(h: History, x: Placed, k: nat)
    requires WellFormed(h + [x]) && k < |x.tx.outMsgs| && Internal(x.tx.outMsgs[k])
    ensures var m := x.tx.outMsgs[k];
            var a, b := h + [Cut(x, k)], h + [Cut(x, k + 1)];
            && OpenEdge(a, m.hash).None?
            && OpenEdge(b, m.hash) == Some(OutEdge(Root(a, |h|), x.tx, m))
            && OpenedBy(b, m.hash) == |h|
  {
    var q := x.tx.outMsgs[k].hash;
    FreshSend(h, x, k);
    SendOne(x, k, q);
    SameRoots(h, x, k);
    EmitterSnoc(h, Cut(x, k), q);
    EmitterSnoc(h, Cut(x, k + 1), q);
    ConsumedSnoc(h, x, q);
    ConsumedSnoc(h, Cut(x, k + 1), q);
    BrokenAtSnoc(h, Cut(x, k), q);
  }

  // A message about to be sent has neither been sent nor consumed before.
  lemma FreshSend(h: History, x: Placed, k: nat)
    requires WellFormed(h + [x]) && k < |x.tx.outMsgs| && Internal(x.tx.outMsgs[k])
    ensures var q := x.tx.outMsgs[k].hash;
            Emitter(h, q).None? && !Consumed(h + [x], q) && BrokenAt(h, q).None? && !Emits(Cut(x, k).tx, q)
  {
    var g, q := h + [x], x.tx.outMsgs[k].hash;
    assert Emits(g[|h|].tx, q);
    var e, b := Emitter(h, q), BrokenAt(h, q);
    assert forall j :: 0 <= j < |h| ==> g[j] == h[j];
    assert e.None? && b.None?;
    assert !Consumed(g, q);
    assert DistinctOuts(g[|h|].tx);
  }
}
