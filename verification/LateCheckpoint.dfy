/** A checkpoint written only after later blocks were processed. The delayed save holds a copy of
    the pending edges but shares the trace records with the running assembler
    (tondb-scanner/src/TraceAssembler.cpp, alarm). */
module LateCheckpoint {
  import opened TraceModel
  import opened TraceStep
  import opened TraceBlock

  // ---- One transaction ----

  lemma {:induction false} EmitOutsKeepsNodes(w: Work, id: Hash, tx: Transaction, k: nat)
    requires id in w.traces && k <= |tx.outMsgs|
    ensures var r := EmitOuts(w, id, tx, k);
            && r.traces[id].nodes == w.traces[id].nodes
            && (forall t :: t in w.traces && t != id ==> r.traces[t] == w.traces[t])
  {
    if k > 0 {
      EmitOutsKeepsNodes(w, id, tx, k - 1);
    }
  }

  // A transaction adds itself to one trace and leaves the others alone.
  lemma StepNodes(w: Work, seqno: nat, tx: Transaction, t: Hash)
    requires t in w.traces && t != tx.hash
    ensures var r := Step(w, seqno, tx);
            && t in r.traces && r.updated == w.updated + {TraceIdFor(w, tx)}
            && (if TraceIdFor(w, tx) == t then r.traces[t].nodes == w.traces[t].nodes + 1
                else r.traces[t] == w.traces[t])
  {
    EmitOutsKeepsNodes(Touch(w, seqno, tx), TraceIdFor(w, tx), tx, |tx.outMsgs|);
  }

  lemma {:induction false} StepAllNodes(w: Work, seqno: nat, txs: seq<Transaction>, t: Hash)
    requires t in w.traces && t !in w.updated && forall i :: 0 <= i < |txs| ==> txs[i].hash != t
    ensures var r := StepAll(w, seqno, txs);
            && t in r.traces
            && (if t in r.updated then r.traces[t].nodes > w.traces[t].nodes else r.traces[t] == w.traces[t])
  {
    if txs != [] {
      hide Step, TraceIdFor;
      var n := |txs| - 1;
      StepAllNodes(w, seqno, txs[..n], t);
      StepNodes(StepAll(w, seqno, txs[..n]), seqno, txs[n], t);
    }
  }

  // ---- The edges of the saved traces ----

  // The transaction consumes a message that the saved state has pending, for a pending trace.
  predicate Continues(a: Assembler, tx: Transaction) {
    && tx.inMsg.Some? && tx.inMsg.value.hash in a.edges
    && a.edges[tx.inMsg.value.hash].traceId in a.traces
  }

  // The transaction is not the root of a saved trace and sends no message that is saved as sent.
  predicate NewFor(a: Assembler, tx: Transaction) {
    tx.hash !in a.traces && forall k :: 0 <= k < |tx.outMsgs| && Internal(tx.outMsgs[k]) ==> tx.outMsgs[k].hash !in a.edges
  }

  // The pending edges of saved traces are the saved ones.
  ghost predicate SameEdges(a: Assembler, edges: map<Hash, Edge>) {
    && (forall m :: m in edges && edges[m].traceId in a.traces ==> m in a.edges && edges[m] == a.edges[m])
    && (forall m :: m in a.edges && a.edges[m].traceId in a.traces ==> m in edges && edges[m] == a.edges[m])
  }

  ghost predicate AllPending(a: Assembler, traces: map<Hash, Trace>) {
    forall t :: t in a.traces ==> t in traces
  }

  lemma {:induction false} EmitOutsSameEdges(a: Assembler, w: Work, id: Hash, tx: Transaction, k: nat)
    requires SameEdges(a, w.edges) && NewFor(a, tx) && id !in a.traces && id in w.traces && k <= |tx.outMsgs|
    ensures SameEdges(a, EmitOuts(w, id, tx, k).edges)
  {
    if k > 0 {
      EmitOutsSameEdges(a, w, id, tx, k - 1);
    }
  }

  // A transaction joins a saved trace exactly when it consumes a saved message of it.
  lemma JoinsIffContinues(a: Assembler, w: Work, tx: Transaction)
    requires SameEdges(a, w.edges) && AllPending(a, w.traces) && NewFor(a, tx)
    ensures TraceIdFor(w, tx) in a.traces <==> Continues(a, tx)
  {
  }

  lemma StepSameEdges(a: Assembler, w: Work, seqno: nat, tx: Transaction)
    requires SameEdges(a, w.edges) && AllPending(a, w.traces) && NewFor(a, tx) && !Continues(a, tx)
    ensures SameEdges(a, Step(w, seqno, tx).edges)
  {
    JoinsIffContinues(a, w, tx);
    var t := Touch(w, seqno, tx);
    assert SameEdges(a, t.edges);
    EmitOutsSameEdges(a, t, TraceIdFor(w, tx), tx, |tx.outMsgs|);
  }

  lemma {:induction false} StepAllSameEdges(a: Assembler, w: Work, seqno: nat, txs: seq<Transaction>)
    requires SameEdges(a, w.edges) && AllPending(a, w.traces)
    requires forall i :: 0 <= i < |txs| ==> NewFor(a, txs[i]) && !Continues(a, txs[i])
    requires a.traces.Keys !! w.updated
    ensures var r := StepAll(w, seqno, txs);
            SameEdges(a, r.edges) && AllPending(a, r.traces) && a.traces.Keys !! r.updated
  {
    if txs != [] {
      var n := |txs| - 1;
      StepAllSameEdges(a, w, seqno, txs[..n]);
      var u := StepAll(w, seqno, txs[..n]);
      StepSameEdges(a, u, seqno, txs[n]);
      JoinsIffContinues(a, u, txs[n]);
      hide Step, TraceIdFor, NewFor, Continues, SameEdges;
      assert a.traces.Keys !! Step(u, seqno, txs[n]).updated && AllPending(a, Step(u, seqno, txs[n]).traces) by {
        StepKeepsPending(a, u, seqno, txs[n]);
      }
    }
  }

  lemma StepKeepsPending(a: Assembler, w: Work, seqno: nat, tx: Transaction)
    requires AllPending(a, w.traces)
    ensures AllPending(a, Step(w, seqno, tx).traces) && Step(w, seqno, tx).updated == w.updated + {TraceIdFor(w, tx)}
  {
    hide EmitOuts;
    EmitOutsKeepsNodes(Touch(w, seqno, tx), TraceIdFor(w, tx), tx, |tx.outMsgs|);
  }

  // ---- One block ----

  predicate AllNew(a: Assembler, txs: seq<Transaction>) {
    forall i :: 0 <= i < |txs| ==> NewFor(a, txs[i])
  }

  predicate NoneContinues(a: Assembler, txs: seq<Transaction>) {
    forall i :: 0 <= i < |txs| ==> !Continues(a, txs[i])
  }

  /** Transactions touch a saved trace exactly when one of them consumes a saved message of one. */
  lemma {:induction false} TouchedIffContinues(a: Assembler, w: Work, seqno: nat, txs: seq<Transaction>)
    requires SameEdges(a, w.edges) && AllPending(a, w.traces) && a.traces.Keys !! w.updated && AllNew(a, txs)
    ensures a.traces.Keys !! StepAll(w, seqno, txs).updated <==> NoneContinues(a, txs)
  {
    if txs != [] {
      var n := |txs| - 1;
      var u := StepAll(w, seqno, txs[..n]);
      assert txs == txs[..n] + [txs[n]];
      TouchedIffContinues(a, w, seqno, txs[..n]);
      hide Step, TraceIdFor, NewFor, Continues, SameEdges;
      StepAllKeepsPending(a, w, seqno, txs[..n]);
      StepKeepsPending(a, u, seqno, txs[n]);
      if NoneContinues(a, txs[..n]) {
        StepAllSameEdges(a, w, seqno, txs[..n]);
        JoinsIffContinues(a, u, txs[n]);
      }
    }
  }

  lemma {:induction false} StepAllKeepsPending(a: Assembler, w: Work, seqno: nat, txs: seq<Transaction>)
    requires AllPending(a, w.traces)
    ensures AllPending(a, StepAll(w, seqno, txs).traces)
  {
    if txs != [] {
      hide Step, AllPending;
      StepAllKeepsPending(a, w, seqno, txs[..|txs| - 1]);
      StepKeepsPending(a, StepAll(w, seqno, txs[..|txs| - 1]), seqno, txs[|txs| - 1]);
    }
  }

  lemma {:induction false} OnlyRootsAreNew(w: Work, seqno: nat, txs: seq<Transaction>, t: Hash)
    requires t !in w.traces && forall i :: 0 <= i < |txs| ==> txs[i].hash != t
    ensures t !in StepAll(w, seqno, txs).traces
  {
    if txs != [] {
      hide EmitOuts;
      OnlyRootsAreNew(w, seqno, txs[..|txs| - 1], t);
    }
  }

  // ---- Several blocks ----

  // The records behind the saved pointers after one more block. A record is shared with the
  // running assembler as long as its trace is pending.
  function Shared(records: map<Hash, Trace>, cur: Assembler, w: Work): map<Hash, Trace> {
    map t | t in records ::
      if t in cur.traces && t in w.traces then (if t in w.updated then Finalised(w.traces[t]) else w.traces[t]) else records[t]
  }

  function Later(records: map<Hash, Trace>, cur: Assembler, first: nat, blocks: seq<ParsedBlock>): (r: map<Hash, Trace>)
    requires Keyed(cur.traces, cur.edges)
    ensures r.Keys == records.Keys
    decreases |blocks|
  {
    if blocks == [] then records
    else
      Later(Shared(records, cur, StepAll(Begin(cur), first, Ordered(blocks[0]))),
            ProcessBlock(cur, first, blocks[0]).0, first + 1, blocks[1..])
  }

  // What the save writes when the given blocks are processed between taking and writing it.
  function LateFile(a: Assembler, first: nat, blocks: seq<ParsedBlock>): Assembler
    requires Keyed(a.traces, a.edges)
  {
    Assembler(Later(a.traces, a, first, blocks), a.edges)
  }

  // The running state still has the saved traces as they were saved.
  ghost predicate Unchanged(a: Assembler, cur: Assembler) {
    SameEdges(a, cur.edges) && forall t :: t in a.traces ==> t in cur.traces && cur.traces[t] == a.traces[t]
  }

  lemma BlockUnchanged(a: Assembler, cur: Assembler, seqno: nat, b: ParsedBlock)
    requires Keyed(cur.traces, cur.edges) && Unchanged(a, cur)
    requires AllNew(a, Ordered(b)) && NoneContinues(a, Ordered(b))
    ensures Unchanged(a, ProcessBlock(cur, seqno, b).0)
    ensures Shared(a.traces, cur, StepAll(Begin(cur), seqno, Ordered(b))) == a.traces
  {
    var txs := Ordered(b);
    var w := StepAll(Begin(cur), seqno, txs);
    StepAllSameEdges(a, Begin(cur), seqno, txs);
    StepAllKeepsReportable(Begin(cur), seqno, txs);
    forall t | t in a.traces ensures t in w.traces && t !in w.updated && w.traces[t] == a.traces[t] {
      StepAllNodes(Begin(cur), seqno, txs, t);
    }
    hide StepAll, Ordered, Reportable, SameEdges, Continues, NewFor;
    assert Shared(a.traces, cur, w) == a.traces;
  }

  // A record never loses nodes.
  lemma {:induction false} LaterGrows(records: map<Hash, Trace>, cur: Assembler, first: nat, blocks: seq<ParsedBlock>, t: Hash)
    requires Keyed(cur.traces, cur.edges) && t in records && (t in cur.traces ==> cur.traces[t] == records[t])
    requires forall j :: 0 <= j < |blocks| ==> NotRooted(Ordered(blocks[j]), t)
    ensures Later(records, cur, first, blocks)[t].nodes >= records[t].nodes
    decreases |blocks|
  {
    if blocks != [] {
      var txs := Ordered(blocks[0]);
      var w := StepAll(Begin(cur), first, txs);
      StepAllKeepsReportable(Begin(cur), first, txs);
      if t in cur.traces {
        StepAllNodes(Begin(cur), first, txs, t);
      } else {
        OnlyRootsAreNew(Begin(cur), first, txs, t);
      }
      var next, after := ProcessBlock(cur, first, blocks[0]).0, Shared(records, cur, w);
      assert t in next.traces ==> next.traces[t] == after[t];
      hide StepAll, Ordered, Keyed, Reportable, ProcessBlock, Shared;
      LaterGrows(after, next, first + 1, blocks[1..], t);
    }
  }

  predicate NotRooted(txs: seq<Transaction>, t: Hash) {
    forall i :: 0 <= i < |txs| ==> txs[i].hash != t
  }

  // The first block that continues a saved trace gives its record more nodes.
  lemma BlockChanges(a: Assembler, cur: Assembler, seqno: nat, b: ParsedBlock) returns (t: Hash)
    requires Keyed(cur.traces, cur.edges) && Unchanged(a, cur)
    requires AllNew(a, Ordered(b)) && !NoneContinues(a, Ordered(b))
    ensures t in a.traces
    ensures var after := Shared(a.traces, cur, StepAll(Begin(cur), seqno, Ordered(b)));
            var next := ProcessBlock(cur, seqno, b).0;
            t in after && after[t].nodes > a.traces[t].nodes && (t in next.traces ==> next.traces[t] == after[t])
  {
    var txs := Ordered(b);
    var w := StepAll(Begin(cur), seqno, txs);
    TouchedIffContinues(a, Begin(cur), seqno, txs);
    StepAllKeepsReportable(Begin(cur), seqno, txs);
    t :| t in a.traces && t in w.updated;
    StepAllNodes(Begin(cur), seqno, txs, t);
  }

  predicate BlocksNew(a: Assembler, blocks: seq<ParsedBlock>) {
    forall j :: 0 <= j < |blocks| ==> AllNew(a, Ordered(blocks[j]))
  }

  predicate NoBlockContinues(a: Assembler, blocks: seq<ParsedBlock>) {
    forall j :: 0 <= j < |blocks| ==> NoneContinues(a, Ordered(blocks[j]))
  }

  lemma SplitBlocks(a: Assembler, blocks: seq<ParsedBlock>)
    requires blocks != []
    ensures BlocksNew(a, blocks) <==> AllNew(a, Ordered(blocks[0])) && BlocksNew(a, blocks[1..])
    ensures NoBlockContinues(a, blocks) <==> NoneContinues(a, Ordered(blocks[0])) && NoBlockContinues(a, blocks[1..])
  {
    hide AllNew, NoneContinues, Ordered;
    assert blocks == [blocks[0]] + blocks[1..];
  }

  lemma NewAreNotRooted(a: Assembler, blocks: seq<ParsedBlock>, t: Hash)
    requires BlocksNew(a, blocks) && t in a.traces
    ensures forall j :: 0 <= j < |blocks| ==> NotRooted(Ordered(blocks[j]), t)
  {
    hide Ordered;
  }

  lemma {:induction false} LaterIff(a: Assembler, cur: Assembler, first: nat, blocks: seq<ParsedBlock>)
    requires Keyed(cur.traces, cur.edges) && Unchanged(a, cur) && BlocksNew(a, blocks)
    ensures Later(a.traces, cur, first, blocks) == a.traces <==> NoBlockContinues(a, blocks)
    decreases |blocks|
  {
    if blocks != [] {
      SplitBlocks(a, blocks);
      hide StepAll, Ordered, Keyed, Unchanged, ProcessBlock, Shared, NoneContinues, NoBlockContinues, BlocksNew, AllNew;
      var next := ProcessBlock(cur, first, blocks[0]).0;
      if NoneContinues(a, Ordered(blocks[0])) {
        BlockUnchanged(a, cur, first, blocks[0]);
        LaterIff(a, next, first + 1, blocks[1..]);
      } else {
        LaterDiffers(a, cur, first, blocks);
      }
    }
  }

  lemma LaterDiffers(a: Assembler, cur: Assembler, first: nat, blocks: seq<ParsedBlock>)
    requires Keyed(cur.traces, cur.edges) && Unchanged(a, cur) && blocks != []
    requires AllNew(a, Ordered(blocks[0])) && BlocksNew(a, blocks[1..]) && !NoneContinues(a, Ordered(blocks[0]))
    ensures Later(a.traces, cur, first, blocks) != a.traces
  {
    hide StepAll, Ordered, Keyed, Unchanged, ProcessBlock, Shared, NoneContinues, BlocksNew, AllNew, NotRooted;
    var next := ProcessBlock(cur, first, blocks[0]).0;
    var after := Shared(a.traces, cur, StepAll(Begin(cur), first, Ordered(blocks[0])));
    var t := BlockChanges(a, cur, first, blocks[0]);
    NewAreNotRooted(a, blocks[1..], t);
    LaterGrows(after, next, first + 1, blocks[1..], t);
  }

  /** The late file is the checkpoint that was meant exactly when no transaction of the blocks in
      between consumes a message that was pending for a pending trace; otherwise trace records
      and edges come from different blocks. */
  lemma LateSaveIff(a: Assembler, first: nat, blocks: seq<ParsedBlock>)
    requires Keyed(a.traces, a.edges)
    requires forall j :: 0 <= j < |blocks| ==> AllNew(a, Flatten(blocks[j].blocks))
    ensures LateFile(a, first, blocks) == a <==> forall j :: 0 <= j < |blocks| ==> NoneContinues(a, Flatten(blocks[j].blocks))
  {
    forall j | 0 <= j < |blocks|
      ensures AllNew(a, Ordered(blocks[j]))
      ensures NoneContinues(a, Ordered(blocks[j])) <==> NoneContinues(a, Flatten(blocks[j].blocks))
    {
      SameTransactions(a, Flatten(blocks[j].blocks), Ordered(blocks[j]));
    }
    hide Ordered, Flatten, NoneContinues, AllNew;
    assert Unchanged(a, a);
    assert BlocksNew(a, blocks);
    LaterIff(a, a, first, blocks);
  }

  lemma SameTransactions(a: Assembler, txs: seq<Transaction>, sorted: seq<Transaction>)
    requires multiset(txs) == multiset(sorted)
    ensures AllNew(a, txs) <==> AllNew(a, sorted)
    ensures NoneContinues(a, txs) <==> NoneContinues(a, sorted)
  {
    assert forall x :: x in txs <==> x in multiset(txs);
    assert forall x :: x in sorted <==> x in multiset(sorted);
    assert AllNew(a, txs) <==> forall x :: x in txs ==> NewFor(a, x);
    assert AllNew(a, sorted) <==> forall x :: x in sorted ==> NewFor(a, x);
    assert NoneContinues(a, txs) <==> forall x :: x in txs ==> !Continues(a, x);
    assert NoneContinues(a, sorted) <==> forall x :: x in sorted ==> !Continues(a, x);
  }
}
