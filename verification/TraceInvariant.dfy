/** The invariant that ties the assembler's work state to the message graph, and its
    preservation by every transaction. */
module TraceInvariant {
  import opened TraceModel
  import opened TraceStep
  import opened MessageGraph
  import opened GraphLemmas
  import opened TraceRefinement

  // A trace is held while it has open edges or was touched in the current block, and its
  // record is the one read off the graph.
  ghost predicate TracesMatch(w: Work, h: History) {
    && (forall t :: t in w.traces <==> IsRoot(h, t) && (CountEdges(OpenEdges(h), t) != 0 || t in w.updated))
    && (forall r :: 0 <= r < |h| && Parent(h, r).None? && h[r].tx.hash in w.traces ==>
          w.traces[h[r].tx.hash] == TraceRecord(h, r))
  }

  // The locals of a block whose first transaction is number `from` of the history.
  ghost predicate LocalsMatch(w: Work, h: History, from: nat) {
    && w.completed == ClosedSince(h, from)
    && w.updated == TouchedSince(h, from)
    && w.added == OpenedSince(h, from)
  }

  ghost predicate Refines(w: Work, h: History, from: nat) {
    && from <= |h|
    && w.edges == OpenEdges(h)
    && LocalsMatch(w, h, from)
    && TracesMatch(w, h)
  }

  /** The assembler's one-step lookup assigns the root of the whole message chain. */
  lemma TraceIdIsRoot(w: Work, h: History, from: nat, x: Placed)
    requires Refines(w, h, from) && WellFormed(h + [x])
    ensures TraceIdFor(w, x.tx) == Root(h + [x], |h|)
    ensures x.tx.inMsg.Some? && x.tx.inMsg.value.hash in w.edges ==> w.edges[x.tx.inMsg.value.hash].traceId in w.traces
  {
    RootSnoc(h, x);
    if x.tx.inMsg.Some? {
      var m := x.tx.inMsg.value.hash;
      LookupFindsParent(h, x);
      OpenEdgesAt(h, m);
      if m in w.edges {
        OpenEdgeHasRoot(h, m);
        assert m in EdgesOf(w.edges, w.edges[m].traceId);
      }
    }
  }

  lemma NewRoot(h: History, x: Placed)
    requires WellFormed(h + [x])
    ensures !IsRoot(h, x.tx.hash)
  {
    var g := h + [x];
    forall i | 0 <= i < |h| ensures Root(h, i) != x.tx.hash {
      var r := RootIsParentless(h, i);
      assert g[r] == h[r] && g[|h|] == x;
    }
  }

  lemma AttachEdges(w: Work, h: History, from: nat, x: Placed)
    requires Refines(w, h, from) && WellFormed(h + [x]) && x.tx.outMsgs == []
    ensures Touch(w, x.seqno, x.tx).edges == OpenEdges(h + [x])
  {
    OpenEdgesAfterConsume(h, x);
    TraceIdIsRoot(w, h, from, x);
    if x.tx.inMsg.Some? {
      LookupFindsParent(h, x);
    }
  }

  lemma TouchedSnoc(h: History, from: nat, x: Placed)
    requires from <= |h|
    ensures TouchedSince(h + [x], from) == TouchedSince(h, from) + {Root(h + [x], |h|)}
  {
    hide Root;
    assert (h + [x])[..|h|] == h;
  }

  lemma OpenedSnoc(h: History, from: nat, x: Placed)
    requires WellFormed(h + [x]) && x.tx.outMsgs == [] && from <= |h|
    ensures OpenedSince(h + [x], from) ==
            if x.tx.inMsg.None? then OpenedSince(h, from)
            else
              var m := x.tx.inMsg.value;
              if Emitter(h, m.hash).Some? then OpenedSince(h, from) - {m.hash}
              else if StartsTrace(m) then OpenedSince(h, from)
              else OpenedSince(h, from) + {m.hash}
  {
    var g := h + [x];
    OpenEdgesAfterConsume(h, x);
    forall q | q in OpenEdges(g)
      ensures OpenEdge(g, q).Some?
      ensures if Consumes(x.tx, q) then OpenedBy(g, q) == |h| else OpenEdge(h, q).Some? && OpenedBy(g, q) == OpenedBy(h, q)
    {
      OpenEdgesAt(g, q);
      EmitterSnoc(h, x, q);
      BrokenAtSnoc(h, x, q);
      RootSnoc(h, x);
      if Consumes(x.tx, q) {
        LookupFindsParent(h, x);
      } else {
        OpenEdgeElsewhere(h, x, q);
      }
    }
    forall q ensures q in OpenEdges(h) <==> OpenEdge(h, q).Some? {
      OpenEdgesAt(h, q);
    }
  }

  lemma AttachLocals(w: Work, h: History, from: nat, x: Placed)
    requires Refines(w, h, from) && WellFormed(h + [x]) && x.tx.outMsgs == []
    ensures LocalsMatch(Touch(w, x.seqno, x.tx), h + [x], from)
  {
    hide OpenEdges, WellFormed, Root, TracesMatch, OpenedSince, TouchedSince;
    var g := h + [x];
    TraceIdIsRoot(w, h, from, x);
    TouchedSnoc(h, from, x);
    OpenedSnoc(h, from, x);
    RootSnoc(h, x);
    assert g[..|h|] == h;
    assert LogEdges(Root(g, |h|), x.tx, 0) == [];
    if x.tx.inMsg.Some? {
      LookupFindsParent(h, x);
      OpenEdgesAt(h, x.tx.inMsg.value.hash);
    }
  }

  // How the record of an existing trace changes when `x` is appended.
  lemma RecordSnoc(h: History, x: Placed, r: nat)
    requires r < |h|
    ensures var g := h + [x];
            var t := h[r].tx.hash;
            var a, b := TraceRecord(h, r), TraceRecord(g, r);
            if Root(g, |h|) == t
            then b == Extended(a, x.seqno, x.tx).(
                        nodes := a.nodes + 1, pendingEdges := CountEdges(OpenEdges(g), t),
                        edges := a.edges + (if HasClosedIn(g, |h|) then 1 else 0) + LogCount(x.tx, |x.tx.outMsgs|))
            else b == a.(pendingEdges := CountEdges(OpenEdges(g), t))
  {
    hide Root, Parent, HasClosedIn, BrokenRoot, OpenEdges, CountEdges, NodeCount, ClosedInCount, LogTotal, Latest;
    var t := h[r].tx.hash;
    assert (h + [x])[r] == h[r];
    assert BrokenRoot(h + [x], r) == BrokenRoot(h, r) by { RootSnoc(h, x); }
    CountsSnoc(h, x, t);
  }

  // Only the joined trace gains or loses open edges.
  lemma CountsAfterConsume(h: History, x: Placed, t: Hash)
    requires WellFormed(h + [x]) && x.tx.outMsgs == []
    ensures var g := h + [x];
            var open, was := CountEdges(OpenEdges(g), t), CountEdges(OpenEdges(h), t);
            if Root(g, |h|) != t || x.tx.inMsg.None? then open == was
            else if Emitter(h, x.tx.inMsg.value.hash).Some? then open == was - 1
            else open == was + (if BrokenRoot(g, |h|) then 1 else 0)
  {
    RootSnoc(h, x);
    OpenEdgesAfterConsume(h, x);
    if x.tx.inMsg.Some? {
      var m := x.tx.inMsg.value;
      LookupFindsParent(h, x);
      OpenEdgesAt(h, m.hash);
      if m.hash in OpenEdges(h) {
        CountRemove(OpenEdges(h), m.hash, t);
      } else {
        CountInsert(OpenEdges(h), m.hash, RootEdge(x.tx, m), t);
      }
    }
  }

  lemma IsRootSnoc(h: History, x: Placed, t: Hash)
    ensures IsRoot(h + [x], t) <==> IsRoot(h, t) || Root(h + [x], |h|) == t
  {
    var g := h + [x];
    RootSnoc(h, x);
    if IsRoot(h, t) {
      var i :| 0 <= i < |h| && Root(h, i) == t;
      assert Root(g, i) == t;
    }
    if IsRoot(g, t) {
      var i :| 0 <= i < |g| && Root(g, i) == t;
      assert i < |h| ==> Root(h, i) == t;
    }
  }

  lemma AttachKeys(w: Work, h: History, from: nat, x: Placed, t: Hash)
    requires Refines(w, h, from) && WellFormed(h + [x]) && x.tx.outMsgs == []
    ensures var v := Touch(w, x.seqno, x.tx);
            t in v.traces <==> IsRoot(h + [x], t) && (CountEdges(OpenEdges(h + [x]), t) != 0 || t in v.updated)
  {
    hide OpenEdges, CountEdges, WellFormed, Root, TraceRecord, IsRoot, Parent;
    TraceIdIsRoot(w, h, from, x);
    CountsAfterConsume(h, x, t);
    IsRootSnoc(h, x, t);
  }

  // The record of the trace that the new transaction starts.
  lemma StartedRecord(h: History, x: Placed)
    requires WellFormed(h + [x]) && x.tx.outMsgs == [] && Parent(h + [x], |h|).None?
    ensures var g, n := h + [x], |h|;
            TraceRecord(g, n) == NewTrace(x.seqno, x.tx).(
              state := if BrokenRoot(g, n) then Broken else Pending,
              pendingEdges := if BrokenRoot(g, n) then 1 else 0,
              edges := if HasClosedIn(g, n) then 1 else 0)
  {
    var t := x.tx.hash;
    NewRoot(h, x);
    NoRootNoCounts(h, t);
    CountsSnoc(h, x, t);
    CountsAfterConsume(h, x, t);
    RootSnoc(h, x);
  }

  lemma RecordOpen(h: History, r: nat)
    requires r < |h|
    ensures TraceRecord(h, r).pendingEdges == CountEdges(OpenEdges(h), h[r].tx.hash)
  {
  }

  lemma JoinedIsClosed(h: History, x: Placed)
    requires x.tx.inMsg.Some? && Emitter(h, x.tx.inMsg.value.hash).Some?
    ensures HasClosedIn(h + [x], |h|)
  {
    RootSnoc(h, x);
  }

  // Only the trace of the transaction changes.
  lemma TouchOthers(w: Work, seqno: nat, tx: Transaction, t: Hash)
    requires t != TraceIdFor(w, tx)
    ensures var v := Touch(w, seqno, tx);
            (t in v.traces <==> t in w.traces) && (t in w.traces ==> v.traces[t] == w.traces[t])
  {
    hide RootEdge, NewTrace, Extended;
  }

  // A trace joined by a transaction gains a node and turns a pending edge into a closed one.
  lemma TouchJoined(w: Work, seqno: nat, tx: Transaction)
    requires tx.inMsg.Some? && tx.inMsg.value.hash in w.edges
    requires w.edges[tx.inMsg.value.hash].traceId in w.traces
    ensures var id := w.edges[tx.inMsg.value.hash].traceId;
            var t, v := w.traces[id], Touch(w, seqno, tx);
            && id == TraceIdFor(w, tx) && id in v.traces
            && v.traces[id] == Extended(t, seqno, tx).(
                 nodes := t.nodes + 1, edges := t.edges + 1, pendingEdges := Decrement(t.pendingEdges))
  {
  }

  // A transaction that ends up in an existing trace found its sender.
  lemma JoinsKnown(h: History, x: Placed, r: nat)
    requires WellFormed(h + [x]) && r < |h| && Parent(h, r).None? && Root(h + [x], |h|) == h[r].tx.hash
    ensures x.tx.inMsg.Some? && Emitter(h, x.tx.inMsg.value.hash).Some?
  {
    assert Root(h, r) == h[r].tx.hash;
    NewRoot(h, x);
    RootSnoc(h, x);
  }

  // The record of the trace that the transaction joins.
  lemma JoinedRecord(w: Work, h: History, from: nat, x: Placed, r: nat)
    requires Refines(w, h, from) && WellFormed(h + [x]) && x.tx.outMsgs == []
    requires r < |h| && Parent(h, r).None? && h[r].tx.hash == Root(h + [x], |h|)
    ensures var v := Touch(w, x.seqno, x.tx);
            h[r].tx.hash in v.traces ==> v.traces[h[r].tx.hash] == TraceRecord(h + [x], r)
  {
    hide OpenEdges, CountEdges, WellFormed, Root, Emitter, LocalsMatch, Touch, TraceIdFor, TraceRecord, HasClosedIn;
    TraceIdIsRoot(w, h, from, x);
    RecordOpen(h, r);
    RecordSnoc(h, x, r);
    CountsAfterConsume(h, x, h[r].tx.hash);
    JoinsKnown(h, x, r);
    LookupFindsParent(h, x);
    JoinedIsClosed(h, x);
    TouchJoined(w, x.seqno, x.tx);
  }

  // The records of the other traces that already existed.
  lemma OtherRecord(w: Work, h: History, from: nat, x: Placed, r: nat)
    requires Refines(w, h, from) && WellFormed(h + [x]) && x.tx.outMsgs == []
    requires r < |h| && Parent(h, r).None? && h[r].tx.hash != Root(h + [x], |h|)
    ensures var v := Touch(w, x.seqno, x.tx);
            h[r].tx.hash in v.traces ==> v.traces[h[r].tx.hash] == TraceRecord(h + [x], r)
  {
    hide OpenEdges, CountEdges, WellFormed, Root, Emitter, LocalsMatch, Touch, TraceIdFor, TraceRecord, HasClosedIn;
    TraceIdIsRoot(w, h, from, x);
    RecordOpen(h, r);
    RecordSnoc(h, x, r);
    CountsAfterConsume(h, x, h[r].tx.hash);
    TouchOthers(w, x.seqno, x.tx, h[r].tx.hash);
  }

  lemma AttachStarted(w: Work, h: History, from: nat, x: Placed)
    requires Refines(w, h, from) && WellFormed(h + [x]) && x.tx.outMsgs == []
    requires Parent(h + [x], |h|).None?
    ensures x.tx.hash in Touch(w, x.seqno, x.tx).traces
    ensures Touch(w, x.seqno, x.tx).traces[x.tx.hash] == TraceRecord(h + [x], |h|)
  {
    StartedRecord(h, x);
    RootSnoc(h, x);
    if x.tx.inMsg.Some? {
      LookupFindsParent(h, x);
    }
  }

  lemma AttachTraces(w: Work, h: History, from: nat, x: Placed)
    requires Refines(w, h, from) && WellFormed(h + [x]) && x.tx.outMsgs == []
    ensures TracesMatch(Touch(w, x.seqno, x.tx), h + [x])
  {
    hide OpenEdges, CountEdges, WellFormed, Root, LocalsMatch, Touch, TraceRecord, IsRoot;
    var v, g := Touch(w, x.seqno, x.tx), h + [x];
    forall t ensures t in v.traces <==> IsRoot(g, t) && (CountEdges(OpenEdges(g), t) != 0 || t in v.updated) {
      AttachKeys(w, h, from, x, t);
    }
    forall r | 0 <= r < |g| && Parent(g, r).None? && g[r].tx.hash in v.traces
      ensures v.traces[g[r].tx.hash] == TraceRecord(g, r)
    {
      if r < |h| {
        assert g[..r] == h[..r];
        RootDependsOnPrefix(g, h, r);
        if g[r].tx.hash == Root(g, |h|) {
          JoinedRecord(w, h, from, x, r);
        } else {
          OtherRecord(w, h, from, x, r);
        }
      } else {
        AttachStarted(w, h, from, x);
      }
    }
  }

  // ---- Sending one message ----

  lemma SendEdges(h: History, x: Placed, k: nat)
    requires WellFormed(h + [x]) && k < |x.tx.outMsgs|
    ensures var m := x.tx.outMsgs[k];
            var a, b := h + [Cut(x, k)], h + [Cut(x, k + 1)];
            if Internal(m)
            then m.hash !in OpenEdges(a) && OpenEdges(b) == OpenEdges(a)[m.hash := OutEdge(Root(a, |h|), x.tx, m)]
            else OpenEdges(b) == OpenEdges(a)
  {
    var m := x.tx.outMsgs[k];
    var a, b := h + [Cut(x, k)], h + [Cut(x, k + 1)];
    forall q | !(Internal(m) && m.hash == q) ensures OpenEdge(b, q) == OpenEdge(a, q) {
      OpenEdgeKept(h, x, k, q);
    }
    if Internal(m) {
      OpenEdgeAdded(h, x, k);
      OpenEdgesWith(a, b, m.hash, OutEdge(Root(a, |h|), x.tx, m));
    } else {
      OpenEdgesSame(a, b);
    }
  }

  lemma SendOpened(h: History, from: nat, x: Placed, k: nat)
    requires WellFormed(h + [x]) && k < |x.tx.outMsgs| && from <= |h|
    ensures var m := x.tx.outMsgs[k];
            var a, b := h + [Cut(x, k)], h + [Cut(x, k + 1)];
            OpenedSince(b, from) == if Internal(m) then OpenedSince(a, from) + {m.hash} else OpenedSince(a, from)
  {
    var m := x.tx.outMsgs[k];
    var a, b := h + [Cut(x, k)], h + [Cut(x, k + 1)];
    SendEdges(h, x, k);
    forall q | q in OpenEdges(b)
      ensures OpenEdge(b, q).Some?
      ensures if Internal(m) && m.hash == q then OpenedBy(b, q) == |h|
              else OpenEdge(a, q).Some? && OpenedBy(b, q) == OpenedBy(a, q)
    {
      OpenEdgesAt(b, q);
      if Internal(m) && m.hash == q {
        OpenEdgeAdded(h, x, k);
      } else {
        OpenEdgeKept(h, x, k, q);
      }
    }
    forall q | q in OpenEdges(a) ensures OpenEdge(a, q).Some? {
      OpenEdgesAt(a, q);
    }
  }

  lemma {:induction false} OutsPrefix(t: Hash, a: Transaction, b: Transaction, k: nat)
    requires k <= |a.outMsgs| && k <= |b.outMsgs| && a.outMsgs[..k] == b.outMsgs[..k] && a.hash == b.hash
    ensures LogCount(a, k) == LogCount(b, k) && LogEdges(t, a, k) == LogEdges(t, b, k)
  {
    if k > 0 {
      assert a.outMsgs[k - 1] == a.outMsgs[..k][k - 1] == b.outMsgs[k - 1];
      assert a.outMsgs[..k - 1] == a.outMsgs[..k][..k - 1] == b.outMsgs[..k - 1];
      OutsPrefix(t, a, b, k - 1);
    }
  }

  lemma SendLogs(t: Hash, x: Placed, k: nat)
    requires k < |x.tx.outMsgs|
    ensures var m := x.tx.outMsgs[k];
            var a, b := Cut(x, k).tx, Cut(x, k + 1).tx;
            && LogCount(b, k + 1) == LogCount(a, k) + (if Internal(m) then 0 else 1)
            && LogEdges(t, b, k + 1) == LogEdges(t, a, k) + (if Internal(m) then [] else [OutEdge(t, x.tx, m)])
  {
    var a, b := Cut(x, k).tx, Cut(x, k + 1).tx;
    assert a.outMsgs[..k] == b.outMsgs[..k];
    OutsPrefix(t, a, b, k);
  }

  lemma SendClosed(h: History, from: nat, x: Placed, k: nat)
    requires k < |x.tx.outMsgs| && from <= |h|
    ensures var m := x.tx.outMsgs[k];
            var a, b := h + [Cut(x, k)], h + [Cut(x, k + 1)];
            && ClosedSince(b, from) ==
               ClosedSince(a, from) + (if Internal(m) then [] else [OutEdge(Root(a, |h|), x.tx, m)])
            && TouchedSince(b, from) == TouchedSince(a, from)
  {
    hide ClosedSince, TouchedSince, LogEdges, OutEdge, Root, HasClosedIn, ClosedIn;
    var n, a, b := |h|, h + [Cut(x, k)], h + [Cut(x, k + 1)];
    SameRoots(h, x, k);
    SendLogs(Root(a, n), x, k);
    TouchedSnoc(h, from, Cut(x, k));
    TouchedSnoc(h, from, Cut(x, k + 1));
    SameClosedIn(h, x, k);
    ClosedSinceStep(a, from);
    ClosedSinceStep(b, from);
    assert a[..n] == h && b[..n] == h;
    assert a[n] == Cut(x, k) && b[n] == Cut(x, k + 1);
  }

  lemma SameClosedIn(h: History, x: Placed, k: nat)
    requires k < |x.tx.outMsgs|
    ensures var n, a, b := |h|, h + [Cut(x, k)], h + [Cut(x, k + 1)];
            && HasClosedIn(a, n) == HasClosedIn(b, n)
            && (HasClosedIn(a, n) ==> ClosedIn(a, n) == ClosedIn(b, n))
  {
    var n, a, b := |h|, h + [Cut(x, k)], h + [Cut(x, k + 1)];
    SameRoots(h, x, k);
    assert a[..n] == h && b[..n] == h;
  }

  lemma SendRecord(h: History, x: Placed, k: nat, r: nat)
    requires WellFormed(h + [x]) && k < |x.tx.outMsgs| && r <= |h|
    ensures var m := x.tx.outMsgs[k];
            var a, b := h + [Cut(x, k)], h + [Cut(x, k + 1)];
            var id := Root(a, |h|);
            TraceRecord(b, r) ==
            if a[r].tx.hash == id then WithEdge(TraceRecord(a, r), OutEdge(id, x.tx, m)) else TraceRecord(a, r)
  {
    hide OpenEdges, CountEdges, WellFormed, Root, Parent, HasClosedIn, BrokenRoot, NodeCount, ClosedInCount, LogTotal, Latest;
    var m := x.tx.outMsgs[k];
    var a, b := h + [Cut(x, k)], h + [Cut(x, k + 1)];
    var t := a[r].tx.hash;
    assert b[r].tx.hash == t && a[r].tx.inMsg == b[r].tx.inMsg && a[r].seqno == b[r].seqno;
    SameRoots(h, x, k);
    SendCounts(h, x, k, t);
    SendEdges(h, x, k);
    if Internal(m) {
      CountInsert(OpenEdges(a), m.hash, OutEdge(Root(a, |h|), x.tx, m), t);
    }
  }

  lemma SendCounts(h: History, x: Placed, k: nat, t: Hash)
    requires k < |x.tx.outMsgs|
    ensures var a, b := h + [Cut(x, k)], h + [Cut(x, k + 1)];
            && NodeCount(b, t) == NodeCount(a, t) && ClosedInCount(b, t) == ClosedInCount(a, t)
            && Latest(b, t) == Latest(a, t)
            && LogTotal(b, t) == LogTotal(a, t) + (if Root(a, |h|) == t && !Internal(x.tx.outMsgs[k]) then 1 else 0)
  {
    SameRoots(h, x, k);
    SendLogs(t, x, k);
    CountsSnoc(h, Cut(x, k), t);
    CountsSnoc(h, Cut(x, k + 1), t);
  }

  lemma SendKeys(w: Work, h: History, from: nat, x: Placed, k: nat, t: Hash)
    requires WellFormed(h + [x]) && k < |x.tx.outMsgs| && from <= |h|
    requires Refines(w, h + [Cut(x, k)], from)
    requires Root(h + [Cut(x, k)], |h|) in w.traces
    ensures t in w.traces <==>
            IsRoot(h + [Cut(x, k + 1)], t) && (CountEdges(OpenEdges(h + [Cut(x, k + 1)]), t) != 0 || t in w.updated)
  {
    hide OpenEdges, CountEdges, WellFormed, Root, LocalsMatch, TraceRecord, IsRoot, Parent;
    var m := x.tx.outMsgs[k];
    var a := h + [Cut(x, k)];
    SameRoots(h, x, k);
    IsRootSnoc(h, Cut(x, k), t);
    IsRootSnoc(h, Cut(x, k + 1), t);
    SendEdges(h, x, k);
    if Internal(m) {
      CountInsert(OpenEdges(a), m.hash, OutEdge(Root(a, |h|), x.tx, m), t);
    }
  }

  lemma SendTraces(w: Work, h: History, from: nat, x: Placed, k: nat)
    requires WellFormed(h + [x]) && k < |x.tx.outMsgs| && from <= |h|
    requires Refines(w, h + [Cut(x, k)], from)
    requires Root(h + [Cut(x, k)], |h|) in w.traces
    ensures TracesMatch(EmitOne(w, Root(h + [Cut(x, k)], |h|), x.tx, x.tx.outMsgs[k]), h + [Cut(x, k + 1)])
  {
    hide OpenEdges, CountEdges, WellFormed, Root, LocalsMatch, TraceRecord, IsRoot, Parent, OutEdge;
    var a, b := h + [Cut(x, k)], h + [Cut(x, k + 1)];
    var v := EmitOne(w, Root(a, |h|), x.tx, x.tx.outMsgs[k]);
    forall t ensures t in v.traces <==> IsRoot(b, t) && (CountEdges(OpenEdges(b), t) != 0 || t in v.updated) {
      SendKeys(w, h, from, x, k, t);
    }
    forall r | 0 <= r < |b| && Parent(b, r).None? && b[r].tx.hash in v.traces
      ensures v.traces[b[r].tx.hash] == TraceRecord(b, r)
    {
      assert a[r].tx.hash == b[r].tx.hash;
      assert Parent(a, r).None? by { SameRoots(h, x, k); }
      SendRecord(h, x, k, r);
    }
  }

  lemma SendRefines(w: Work, v: Work, h: History, g: History, from: nat, x: Placed, id: Hash, k: nat)
    requires WellFormed(h + [x]) && k < |x.tx.outMsgs| && from <= |h|
    requires Refines(w, h + [Cut(x, k)], from) && g == h + [Cut(x, k + 1)]
    requires id == Root(h + [x], |h|) && id in w.traces
    requires v == EmitOne(w, id, x.tx, x.tx.outMsgs[k])
    ensures Refines(v, g, from)
  {
    CutSameRoot(h, x, k);
    SendEdges(h, x, k);
    SendOpened(h, from, x, k);
    SendClosed(h, from, x, k);
    SendTraces(w, h, from, x, k);
  }

  lemma CutSameRoot(h: History, x: Placed, k: nat)
    requires k <= |x.tx.outMsgs|
    ensures Root(h + [Cut(x, k)], |h|) == Root(h + [x], |h|)
  {
    assert (h + [Cut(x, k)])[..|h|] == (h + [x])[..|h|];
    RootDependsOnPrefix(h + [x], h + [Cut(x, k)], |h|);
  }

  // The history of a transaction being processed, with `k` of its messages sent.
  function Grown(h: History, x: Placed, k: nat): History
    requires k <= |x.tx.outMsgs|
  {
    h + [Cut(x, k)]
  }

  lemma SendNext(w: Work, h: History, from: nat, x: Placed, id: Hash, k: nat)
    requires WellFormed(h + [x]) && k < |x.tx.outMsgs| && from <= |h|
    requires id == Root(h + [x], |h|) && id in w.traces
    ensures Refines(EmitOuts(w, id, x.tx, k), Grown(h, x, k), from) ==>
            Refines(EmitOuts(w, id, x.tx, k + 1), Grown(h, x, k + 1), from)
  {
    var u, v := EmitOuts(w, id, x.tx, k), EmitOuts(w, id, x.tx, k + 1);
    if Refines(u, Grown(h, x, k), from) {
      SendRefines(u, v, h, Grown(h, x, k + 1), from, x, id, k);
    }
  }

  lemma SendAllRefines(w: Work, h: History, from: nat, x: Placed, id: Hash)
    requires WellFormed(h + [x]) && from <= |h|
    requires Refines(w, Grown(h, x, 0), from)
    requires id == Root(h + [x], |h|) && id in w.traces
    ensures Refines(EmitOuts(w, id, x.tx, |x.tx.outMsgs|), Grown(h, x, |x.tx.outMsgs|), from)
  {
    forall k | 0 <= k < |x.tx.outMsgs|
      ensures Refines(EmitOuts(w, id, x.tx, k), Grown(h, x, k), from) ==>
              Refines(EmitOuts(w, id, x.tx, k + 1), Grown(h, x, k + 1), from)
    {
      SendNext(w, h, from, x, id, k);
    }
    Climb(w, h, from, x, id, |x.tx.outMsgs|);
  }

  lemma {:induction false} Climb(w: Work, h: History, from: nat, x: Placed, id: Hash, n: nat)
    requires id in w.traces && n <= |x.tx.outMsgs|
    requires Refines(w, Grown(h, x, 0), from)
    requires forall k :: 0 <= k < |x.tx.outMsgs| && Refines(EmitOuts(w, id, x.tx, k), Grown(h, x, k), from) ==>
              Refines(EmitOuts(w, id, x.tx, k + 1), Grown(h, x, k + 1), from)
    ensures Refines(EmitOuts(w, id, x.tx, n), Grown(h, x, n), from)
  {
    if n > 0 {
      Climb(w, h, from, x, id, n - 1);
    }
  }

  lemma AttachRefines(w: Work, h: History, from: nat, x: Placed)
    requires Refines(w, h, from) && WellFormed(h + [x]) && x.tx.outMsgs == []
    ensures Refines(Touch(w, x.seqno, x.tx), h + [x], from)
  {
    AttachEdges(w, h, from, x);
    AttachLocals(w, h, from, x);
    AttachTraces(w, h, from, x);
  }

  lemma TouchIgnoresOuts(w: Work, x: Placed)
    ensures Touch(w, x.seqno, x.tx) == Touch(w, x.seqno, Cut(x, 0).tx)
    ensures TraceIdFor(w, x.tx) in Touch(w, x.seqno, x.tx).traces
  {
    var y := Cut(x, 0);
    assert NewTrace(x.seqno, x.tx) == NewTrace(x.seqno, y.tx);
    assert TraceIdFor(w, x.tx) == TraceIdFor(w, y.tx);
    assert AttachIn(w, x.seqno, x.tx) == AttachIn(w, x.seqno, y.tx) by {
      hide NewTrace;
      if x.tx.inMsg.Some? {
        assert RootEdge(x.tx, x.tx.inMsg.value) == RootEdge(y.tx, x.tx.inMsg.value);
      }
    }
    assert TraceIdFor(w, x.tx) in AttachIn(w, x.seqno, x.tx).traces;
  }

  lemma CutAll(x: Placed)
    ensures Cut(x, |x.tx.outMsgs|) == x
  {
    assert x.tx.outMsgs[..|x.tx.outMsgs|] == x.tx.outMsgs;
  }

  /** Main step: a transaction of a well-formed history keeps the whole work state equal to
      the message graph, and is assigned the root of its message chain. */
  lemma StepRefines(w: Work, h: History, from: nat, x: Placed)
    requires Refines(w, h, from) && WellFormed(h + [x])
    ensures Refines(Step(w, x.seqno, x.tx), h + [x], from)
    ensures TraceIdFor(w, x.tx) == Root(h + [x], |h|)
  {
    TraceIdIsRoot(w, h, from, x);
    WellFormedCut(h, x, 0);
    AttachRefines(w, h, from, Cut(x, 0));
    TouchIgnoresOuts(w, x);
    CutAll(x);
    SendAllRefines(Touch(w, x.seqno, x.tx), h, from, x, TraceIdFor(w, x.tx));
  }
}
