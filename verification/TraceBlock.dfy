/** One whole block: ordering its transactions, stepping through them, and reporting the
    traces they touched (tondb-scanner/src/TraceAssembler.cpp, process_block). */
module TraceBlock {
  import opened TraceModel
  import opened TraceStep

  // The order in which a block's transactions are processed.
  predicate Before(a: Transaction, b: Transaction) {
    if a.lt != b.lt then a.lt < b.lt
    else if a.account.workchain != b.account.workchain then a.account.workchain < b.account.workchain
    else a.account.addr < b.account.addr
  }

  // By logical time, then workchain, then address.
  predicate NotAfter(a: Transaction, b: Transaction) {
    || a.lt < b.lt
    || (a.lt == b.lt && a.account.workchain < b.account.workchain)
    || (a.lt == b.lt && a.account.workchain == b.account.workchain && a.account.addr <= b.account.addr)
  }

  predicate Sorted(txs: seq<Transaction>) {
    forall i, j :: 0 <= i < j < |txs| ==> NotAfter(txs[i], txs[j])
  }

  function Flatten(blocks: seq<seq<Transaction>>): seq<Transaction> {
    if blocks == [] then [] else Flatten(blocks[..|blocks| - 1]) + blocks[|blocks| - 1]
  }

  function Insert(txs: seq<Transaction>, tx: Transaction): (r: seq<Transaction>)
    ensures multiset(r) == multiset(txs) + multiset{tx}
  {
    if txs == [] then [tx]
    else
      var n := |txs| - 1;
      assert txs == txs[..n] + [txs[n]];
      if Before(tx, txs[n]) then Insert(txs[..n], tx) + [txs[n]] else txs + [tx]
  }

  lemma {:induction false} InsertKeepsSorted(txs: seq<Transaction>, tx: Transaction)
    requires Sorted(txs)
    ensures Sorted(Insert(txs, tx))
  {
    if txs != [] {
      var n := |txs| - 1;
      if Before(tx, txs[n]) {
        InsertKeepsSorted(txs[..n], tx);
        var r := Insert(txs[..n], tx);
        forall i | 0 <= i < |r|
          ensures NotAfter(r[i], txs[n])
        {
          assert r[i] in multiset(r);
          assert r[i] == tx || r[i] in txs[..n];
        }
      } else {
        forall i | 0 <= i < n
          ensures NotAfter(txs[i], tx)
        {
          assert NotAfter(txs[i], txs[n]);
        }
      }
    }
  }

  function SortTxs(txs: seq<Transaction>): (r: seq<Transaction>)
    ensures Sorted(r)
    ensures multiset(r) == multiset(txs)
  {
    if txs == [] then []
    else
      assert txs == txs[..|txs| - 1] + [txs[|txs| - 1]];
      InsertKeepsSorted(SortTxs(txs[..|txs| - 1]), txs[|txs| - 1]);
      Insert(SortTxs(txs[..|txs| - 1]), txs[|txs| - 1])
  }

  // No two transactions compare equal: one account runs at most one transaction at a
  // logical time.
  predicate DistinctKeys(txs: seq<Transaction>) {
    forall x, y :: x in txs && y in txs && x != y ==> Before(x, y) || Before(y, x)
  }

  /** Any sorted arrangement of the same transactions is the one processed, so nothing
      depends on how the library sort breaks its work up. */
  lemma {:induction false} SortedArrangementIsUnique(a: seq<Transaction>, b: seq<Transaction>)
    requires Sorted(a) && Sorted(b) && multiset(a) == multiset(b) && DistinctKeys(a)
    ensures a == b
  {
    if a == [] {
      assert |multiset(b)| == 0;
    } else {
      SameLast(a, b);
      assert a[..|a| - 1] == b[..|b| - 1] by {
        DropLast(a);
        DropLast(b);
        PrefixSorted(a);
        PrefixSorted(b);
        SortedArrangementIsUnique(a[..|a| - 1], b[..|b| - 1]);
      }
      JoinLast(a, b);
    }
  }

  lemma JoinLast(a: seq<Transaction>, b: seq<Transaction>)
    requires |a| == |b| > 0 && a[..|a| - 1] == b[..|b| - 1] && a[|a| - 1] == b[|b| - 1]
    ensures a == b
  {
    assert a == a[..|a| - 1] + [a[|a| - 1]] && b == b[..|b| - 1] + [b[|b| - 1]];
  }

  lemma PrefixSorted(a: seq<Transaction>)
    requires Sorted(a) && a != []
    ensures Sorted(a[..|a| - 1])
  {
  }

  lemma DropLast(a: seq<Transaction>)
    requires a != []
    ensures multiset(a[..|a| - 1]) == multiset(a) - multiset{a[|a| - 1]}
  {
    assert a == a[..|a| - 1] + [a[|a| - 1]];
  }

  lemma SameLast(a: seq<Transaction>, b: seq<Transaction>)
    requires Sorted(a) && Sorted(b) && multiset(a) == multiset(b) && DistinctKeys(a) && a != []
    ensures |a| == |b| && a[|a| - 1] == b[|a| - 1]
  {
    assert |a| == |multiset(a)| == |multiset(b)| == |b|;
    assert forall x :: x in a <==> x in multiset(a);
    assert forall x :: x in b <==> x in multiset(b);
    LastIsGreatest(a, b[|a| - 1]);
    LastIsGreatest(b, a[|a| - 1]);
  }

  lemma LastIsGreatest(a: seq<Transaction>, x: Transaction)
    requires Sorted(a) && DistinctKeys(a) && x in a
    ensures x == a[|a| - 1] || Before(x, a[|a| - 1])
  {
  }

  function Begin(a: Assembler): Work {
    Work(a.traces, a.edges, [], {}, {})
  }

  // Both pending maps are keyed by the hash stored in their values, and a pending edge is
  // always an incomplete one.
  predicate Keyed(traces: map<Hash, Trace>, edges: map<Hash, Edge>) {
    && (forall t :: t in traces ==> traces[t].traceId == t)
    && (forall m :: m in edges ==> edges[m].msgHash == m && edges[m].incomplete)
  }

  // What the end of a block relies on: every touched trace and every added edge is still in
  // its map, and every edge to report belongs to a touched trace.
  predicate Reportable(w: Work) {
    && Keyed(w.traces, w.edges)
    && w.updated <= w.traces.Keys
    && w.added <= w.edges.Keys
    && (forall i :: 0 <= i < |w.completed| ==> w.completed[i].traceId in w.updated)
    && (forall m :: m in w.added ==> w.edges[m].traceId in w.updated)
  }

  function Finalised(t: Trace): Trace {
    if t.pendingEdges == 0 && t.state != Broken then t.(state := Complete) else t
  }

  function OfTrace(edges: seq<Edge>, id: Hash): seq<Edge> {
    if edges == [] then []
    else
      var rest := OfTrace(edges[..|edges| - 1], id);
      var e := edges[|edges| - 1];
      if e.traceId == id then rest + [e] else rest
  }

  function OpenAmong(edges: map<Hash, Edge>, hashes: set<Hash>, id: Hash): set<Edge>
    requires hashes <= edges.Keys
  {
    set m | m in hashes && edges[m].traceId == id :: edges[m]
  }

  function Emitted(w: Work, id: Hash): EmittedTrace
    requires Reportable(w) && id in w.traces
  {
    EmittedTrace(Finalised(w.traces[id]), OfTrace(w.completed, id), OpenAmong(w.edges, w.added, id))
  }

  function Report(w: Work): map<Hash, EmittedTrace>
    requires Reportable(w)
  {
    map id | id in w.updated :: Emitted(w, id)
  }

  // Touched traces without pending edges leave the pending map.
  function Finish(w: Work): Assembler
    requires Reportable(w)
  {
    Assembler(map id | id in w.traces && (id in w.updated ==> w.traces[id].pendingEdges != 0) :: w.traces[id],
              w.edges)
  }

  lemma RecordKeepsReportable(w: Work, e: Edge)
    requires Reportable(w) && e.traceId in w.updated
    ensures Reportable(Record(w, e))
  {
  }

  lemma {:induction false} EmitOutsKeepsReportable(w: Work, id: Hash, tx: Transaction, k: nat)
    requires Reportable(w) && id in w.updated && k <= |tx.outMsgs|
    ensures Reportable(EmitOuts(w, id, tx, k))
  {
    if k > 0 {
      EmitOutsKeepsReportable(w, id, tx, k - 1);
      RecordKeepsReportable(EmitOuts(w, id, tx, k - 1), OutEdge(id, tx, tx.outMsgs[k - 1]));
    }
  }

  /** Whatever the transaction looks like, after it every lookup made at the end of the block
      still succeeds: no map is extended with a default value and no incomplete flag is off. */
  lemma StepKeepsReportable(w: Work, seqno: nat, tx: Transaction)
    requires Reportable(w)
    ensures Reportable(Step(w, seqno, tx))
    ensures TraceIdFor(w, tx) in Step(w, seqno, tx).updated
  {
    var id := TraceIdFor(w, tx);
    assert Reportable(AttachIn(w, seqno, tx)) && id in AttachIn(w, seqno, tx).updated;
    var t := Touch(w, seqno, tx);
    assert Reportable(t) && id in t.updated;
    EmitOutsKeepsReportable(t, id, tx, |tx.outMsgs|);
  }

  lemma {:induction false} StepAllKeepsReportable(w: Work, seqno: nat, txs: seq<Transaction>)
    requires Reportable(w)
    ensures Reportable(StepAll(w, seqno, txs))
  {
    if txs != [] {
      StepAllKeepsReportable(w, seqno, txs[..|txs| - 1]);
      StepKeepsReportable(StepAll(w, seqno, txs[..|txs| - 1]), seqno, txs[|txs| - 1]);
    }
  }

  function Ordered(b: ParsedBlock): seq<Transaction> {
    SortTxs(Flatten(b.blocks))
  }

  // ---- Every transaction of every shard block ----

  // Where a transaction stands: shard block and place in it.
  function Positions(blocks: seq<seq<Transaction>>, tx: Transaction): set<(nat, nat)> {
    set j: nat, i: nat | j < |blocks| && i < |blocks[j]| && blocks[j][i] == tx :: (j, i)
  }

  function Places(txs: seq<Transaction>, tx: Transaction, j: nat): set<(nat, nat)> {
    set i: nat | i < |txs| && txs[i] == tx :: (j, i)
  }

  lemma {:induction false} PlacesCount(txs: seq<Transaction>, tx: Transaction, j: nat)
    ensures multiset(txs)[tx] == |Places(txs, tx, j)|
  {
    if txs == [] {
      assert Places(txs, tx, j) == {};
    } else {
      var n := |txs| - 1;
      assert txs == txs[..n] + [txs[n]];
      PlacesCount(txs[..n], tx, j);
      assert Places(txs, tx, j) == Places(txs[..n], tx, j) + (if txs[n] == tx then {(j, n)} else {});
    }
  }

  lemma {:induction false} FlattenCounts(blocks: seq<seq<Transaction>>, tx: Transaction)
    ensures multiset(Flatten(blocks))[tx] == |Positions(blocks, tx)|
  {
    if blocks == [] {
      assert Positions(blocks, tx) == {};
    } else {
      var n := |blocks| - 1;
      FlattenCounts(blocks[..n], tx);
      PlacesCount(blocks[n], tx, n);
      assert Positions(blocks, tx) == Positions(blocks[..n], tx) + Places(blocks[n], tx, n);
    }
  }

  /** A block is processed with all transactions of all its shard blocks, each as often as it
      stands there. */
  lemma OrderedHoldsAll(b: ParsedBlock, tx: Transaction)
    ensures multiset(Ordered(b))[tx] == |Positions(b.blocks, tx)|
    ensures tx in Ordered(b) <==>
            exists j, i :: 0 <= j < |b.blocks| && 0 <= i < |b.blocks[j]| && b.blocks[j][i] == tx
  {
    FlattenCounts(b.blocks, tx);
    assert tx in Ordered(b) <==> tx in multiset(Ordered(b));
    if j: nat, i: nat :| j < |b.blocks| && i < |b.blocks[j]| && b.blocks[j][i] == tx {
      assert (j, i) in Positions(b.blocks, tx);
    }
  }

  function ProcessBlock(a: Assembler, seqno: nat, b: ParsedBlock): (r: (Assembler, BlockResult))
    requires Keyed(a.traces, a.edges)
    ensures Keyed(r.0.traces, r.0.edges)
  {
    StepAllKeepsReportable(Begin(a), seqno, Ordered(b));
    var w := StepAll(Begin(a), seqno, Ordered(b));
    (Finish(w), BlockResult(Assigned(Begin(a), seqno, Ordered(b)), Report(w)))
  }
}
