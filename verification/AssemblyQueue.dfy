/** The assembler's input queue: blocks may arrive in any order and are processed in seqno
    order (tondb-scanner/src/TraceAssembler.cpp, assemble and process_queue). */
module AssemblyQueue {
  import opened Wrappers
  import opened TraceModel
  import opened TraceStep
  import opened TraceBlock
  import opened TraceRun

  // `resolved` lists the promises answered so far, in order.
  datatype Queue = Queue(expected: nat, waiting: map<nat, ParsedBlock>, state: Assembler,
                         resolved: seq<(nat, BlockResult)>)

  type Delivery = (nat, ParsedBlock)

  predicate Valid(q: Queue) {
    Keyed(q.state.traces, q.state.edges)
  }

  // Process the block that the queue is waiting for.
  function Advance(q: Queue): (r: Queue)
    requires Valid(q) && q.expected in q.waiting
    ensures Valid(r)
  {
    var p := ProcessBlock(q.state, q.expected, q.waiting[q.expected]);
    Queue(q.expected + 1, q.waiting - {q.expected}, p.0, q.resolved + [(q.expected, p.1)])
  }

  function Drain(q: Queue): (r: Queue)
    requires Valid(q)
    ensures Valid(r) && q.expected <= r.expected && r.expected !in r.waiting
    ensures forall s :: s in r.waiting ==> s in q.waiting
    decreases |q.waiting|
  {
    if q.expected in q.waiting then
      assert |q.waiting - {q.expected}| < |q.waiting| by { Shrinks(q.waiting, q.expected); }
      Drain(Advance(q))
    else q
  }

  lemma Shrinks(m: map<nat, ParsedBlock>, s: nat)
    requires s in m
    ensures |m - {s}| == |m| - 1
  {
    assert (m - {s}).Keys == m.Keys - {s};
  }

  // A block below the expected seqno is fatal; a block already waiting is kept.
  function Deliver(q: Queue, d: Delivery): (r: Result<Queue>)
    requires Valid(q)
    ensures r.Ok? ==> Valid(r.value)
  {
    if d.0 < q.expected then Err
    else Ok(Drain(if d.0 in q.waiting then q else q.(waiting := q.waiting[d.0 := d.1])))
  }

  function DeliverAll(q: Queue, ds: seq<Delivery>): (r: Result<Queue>)
    requires Valid(q)
    ensures r.Ok? ==> Valid(r.value)
  {
    if ds == [] then Ok(q)
    else
      var before := DeliverAll(q, ds[..|ds| - 1]);
      if before.Err? then Err else Deliver(before.value, ds[|ds| - 1])
  }

  function Received(ds: seq<Delivery>): map<nat, ParsedBlock> {
    if ds == [] then map[] else Received(ds[..|ds| - 1])[ds[|ds| - 1].0 := ds[|ds| - 1].1]
  }

  predicate DistinctSeqnos(ds: seq<Delivery>) {
    forall i, j :: 0 <= i < j < |ds| ==> ds[i].0 != ds[j].0
  }

  predicate Holds(m: map<nat, ParsedBlock>, s: nat, b: ParsedBlock) {
    s in m && m[s] == b
  }

  // Adding a block before or after draining makes no difference.
  lemma {:induction false} LateArrival(q: Queue, s: nat, b: ParsedBlock)
    requires Valid(q) && q.expected <= s && s !in q.waiting
    ensures Drain(q).expected <= s && s !in Drain(q).waiting
    ensures Drain(Drain(q).(waiting := Drain(q).waiting[s := b])) == Drain(q.(waiting := q.waiting[s := b]))
    decreases |q.waiting|
  {
    hide ProcessBlock, Keyed;
    if q.expected in q.waiting {
      Shrinks(q.waiting, q.expected);
      var more := q.(waiting := q.waiting[s := b]);
      assert more.waiting - {q.expected} == (q.waiting - {q.expected})[s := b];
      assert Advance(more) == Advance(q).(waiting := Advance(q).waiting[s := b]);
      LateArrival(Advance(q), s, b);
    }
  }

  lemma {:induction false} ReceivedKeys(ds: seq<Delivery>, s: nat)
    ensures s in Received(ds) <==> exists i :: 0 <= i < |ds| && ds[i].0 == s
  {
    if ds != [] {
      var n := |ds| - 1;
      ReceivedKeys(ds[..n], s);
      if s in Received(ds[..n]) {
        var i :| 0 <= i < n && ds[..n][i].0 == s;
        assert ds[i].0 == s;
      }
      if exists i :: 0 <= i < |ds| && ds[i].0 == s {
        var i :| 0 <= i < |ds| && ds[i].0 == s;
        assert i < n ==> ds[..n][i].0 == s;
      }
    }
  }

  /** Whatever the order of arrival, the outcome is that of receiving all blocks at once and
      then processing in seqno order. */
  lemma {:induction false} ArrivalsCollapse(q: Queue, ds: seq<Delivery>)
    requires Valid(q) && q.waiting == map[] && DistinctSeqnos(ds)
    requires forall i :: 0 <= i < |ds| ==> q.expected <= ds[i].0
    ensures DeliverAll(q, ds) == Ok(Drain(q.(waiting := Received(ds))))
  {
    hide Drain;
    if ds == [] {
      assert q.(waiting := Received(ds)) == q;
      DrainIdle(q);
    } else {
      var n := |ds| - 1;
      var d := ds[n];
      ArrivalsCollapse(q, ds[..n]);
      ReceivedKeys(ds[..n], d.0);
      var before := q.(waiting := Received(ds[..n]));
      assert before.(waiting := before.waiting[d.0 := d.1]) == q.(waiting := Received(ds));
      LateArrival(before, d.0, d.1);
    }
  }

  lemma DrainIdle(q: Queue)
    requires Valid(q) && q.waiting == map[]
    ensures Drain(q) == q
  {
  }

  lemma {:induction false} ReceivedDepends(ds: seq<Delivery>, s: nat, b: ParsedBlock)
    requires DistinctSeqnos(ds)
    ensures Holds(Received(ds), s, b) <==> (s, b) in ds
  {
    if ds != [] {
      var n := |ds| - 1;
      ReceivedDepends(ds[..n], s, b);
      assert ds == ds[..n] + [ds[n]];
      if s == ds[n].0 {
        ReceivedKeys(ds[..n], s);
        assert forall i :: 0 <= i < n ==> ds[..n][i] == ds[i] && ds[i].0 != s;
      }
    }
  }

  /** Arrival-order independence: two deliveries of the same blocks in different orders leave
      the same state and answer the same promises in the same order. */
  lemma ArrivalOrderIrrelevant(q: Queue, ds: seq<Delivery>, es: seq<Delivery>)
    requires Valid(q) && q.waiting == map[] && DistinctSeqnos(ds) && DistinctSeqnos(es)
    requires forall i :: 0 <= i < |ds| ==> q.expected <= ds[i].0
    requires multiset(ds) == multiset(es)
    ensures DeliverAll(q, ds) == DeliverAll(q, es)
    ensures DeliverAll(q, ds).Ok?
  {
    hide DeliverAll, Received, Drain;
    assert forall d :: d in ds <==> d in es by {
      assert forall d :: d in ds <==> d in multiset(ds);
      assert forall d :: d in es <==> d in multiset(es);
    }
    forall i | 0 <= i < |es| ensures q.expected <= es[i].0 {
      assert es[i] in ds;
    }
    assert Received(ds) == Received(es) by {
      forall s, b ensures Holds(Received(ds), s, b) <==> Holds(Received(es), s, b) {
        ReceivedDepends(ds, s, b);
        ReceivedDepends(es, s, b);
      }
      SameMaps(Received(ds), Received(es));
    }
    ArrivalsCollapse(q, ds);
    ArrivalsCollapse(q, es);
  }

  lemma SameMaps(a: map<nat, ParsedBlock>, b: map<nat, ParsedBlock>)
    requires forall s, x :: Holds(a, s, x) <==> Holds(b, s, x)
    ensures a == b
  {
    forall s | s in a ensures s in b && b[s] == a[s] {
      assert Holds(a, s, a[s]);
    }
    forall s | s in b ensures s in a {
      assert Holds(b, s, b[s]);
    }
  }

  // ---- Consecutive blocks ----

  function Numbered(first: nat, blocks: seq<ParsedBlock>): (r: map<nat, ParsedBlock>)
    ensures forall s :: s in r <==> first <= s < first + |blocks|
    ensures forall s :: s in r ==> r[s] == blocks[s - first]
  {
    if blocks == [] then map[]
    else Numbered(first, blocks[..|blocks| - 1])[first + |blocks| - 1 := blocks[|blocks| - 1]]
  }

  function Answers(first: nat, results: seq<BlockResult>): seq<(nat, BlockResult)> {
    seq(|results|, i requires 0 <= i < |results| => (first + i, results[i]))
  }

  lemma {:induction false} RunSplitFirst(a: Assembler, first: nat, blocks: seq<ParsedBlock>)
    requires Keyed(a.traces, a.edges) && blocks != []
    ensures var p := ProcessBlock(a, first, blocks[0]);
            Run(a, first, blocks) == (Run(p.0, first + 1, blocks[1..]).0, [p.1] + Run(p.0, first + 1, blocks[1..]).1)
  {
    hide ProcessBlock, Keyed;
    var n := |blocks| - 1;
    if n == 0 {
      assert blocks[..0] == [] && blocks[1..] == [];
      RunNone(a, first);
      var p := ProcessBlock(a, first, blocks[0]);
      RunNone(p.0, first + 1);
      assert [] + [p.1] == [p.1] + [];
    } else {
      RunSplitFirst(a, first, blocks[..n]);
      var p := ProcessBlock(a, first, blocks[0]);
      assert blocks[..n][0] == blocks[0];
      assert blocks[..n][1..] == blocks[1..][..n - 1];
      assert blocks[1..][n - 1] == blocks[n];
      var before := Run(p.0, first + 1, blocks[1..][..n - 1]);
      var after := ProcessBlock(before.0, first + n, blocks[n]);
      assert Run(p.0, first + 1, blocks[1..]) == (after.0, before.1 + [after.1]);
      assert ([p.1] + before.1) + [after.1] == [p.1] + (before.1 + [after.1]);
    }
  }

  lemma AnswersFirst(first: nat, x: BlockResult, rest: seq<BlockResult>)
    ensures Answers(first, [x] + rest) == [(first, x)] + Answers(first + 1, rest)
  {
  }

  lemma {:induction false} DrainConsecutive(q: Queue, blocks: seq<ParsedBlock>)
    requires Valid(q) && q.waiting == Numbered(q.expected, blocks)
    ensures var r := Run(q.state, q.expected, blocks);
            Drain(q) == Queue(q.expected + |blocks|, map[], r.0, q.resolved + Answers(q.expected, r.1))
    decreases |blocks|
  {
    hide ProcessBlock, Keyed, Run, Numbered, Answers;
    if blocks == [] {
      assert q.waiting == map[];
      assert Answers(q.expected, []) == [] by { NoAnswers(q.expected); }
      RunNone(q.state, q.expected);
      assert q.resolved + Answers(q.expected, []) == q.resolved;
    } else {
      var p := ProcessBlock(q.state, q.expected, blocks[0]);
      var rest := Run(p.0, q.expected + 1, blocks[1..]).1;
      assert (q.waiting - {q.expected}) == Numbered(q.expected + 1, blocks[1..]) by { hide Numbered; }
      DrainConsecutive(Advance(q), blocks[1..]);
      RunSplitFirst(q.state, q.expected, blocks);
      AnswersFirst(q.expected, p.1, rest);
      assert q.resolved + ([(q.expected, p.1)] + Answers(q.expected + 1, rest)) ==
             (q.resolved + [(q.expected, p.1)]) + Answers(q.expected + 1, rest);
    }
  }

  lemma NoAnswers(first: nat)
    ensures Answers(first, []) == []
  {
  }

  lemma RunNone(a: Assembler, first: nat)
    requires Keyed(a.traces, a.edges)
    ensures Run(a, first, []) == (a, [])
  {
  }

  // The deliveries are exactly the given consecutive blocks, each once, in any order.
  ghost predicate Delivers(ds: seq<Delivery>, first: nat, blocks: seq<ParsedBlock>) {
    && DistinctSeqnos(ds)
    && (forall d :: d in ds <==> first <= d.0 < first + |blocks| && d.1 == blocks[d.0 - first])
  }

  /** Blocks `expected`, `expected + 1`, ... delivered in any order end in the state of
      in-order processing; every promise is answered exactly once, in ascending seqno order,
      with the result of in-order processing. */
  lemma ArrivalsMatchInOrder(q: Queue, blocks: seq<ParsedBlock>, ds: seq<Delivery>)
    requires Valid(q) && q.waiting == map[] && Delivers(ds, q.expected, blocks)
    ensures var r := Run(q.state, q.expected, blocks);
            DeliverAll(q, ds) ==
            Ok(Queue(q.expected + |blocks|, map[], r.0, q.resolved + Answers(q.expected, r.1)))
  {
    hide DeliverAll, Received, Drain, Run, Numbered, Answers, Keyed, Delivers;
    ReceivedIsNumbered(q.expected, blocks, ds);
    ArrivalsCollapse(q, ds);
    DrainConsecutive(q.(waiting := Numbered(q.expected, blocks)), blocks);
  }

  lemma ReceivedIsNumbered(first: nat, blocks: seq<ParsedBlock>, ds: seq<Delivery>)
    requires Delivers(ds, first, blocks)
    ensures Received(ds) == Numbered(first, blocks)
    ensures DistinctSeqnos(ds) && forall i :: 0 <= i < |ds| ==> first <= ds[i].0
  {
    hide Received, Numbered;
    assert forall i :: 0 <= i < |ds| ==> ds[i] in ds;
    var all := Numbered(first, blocks);
    forall s: nat, b ensures Holds(Received(ds), s, b) <==> Holds(all, s, b) {
      ReceivedDepends(ds, s, b);
      var d := (s, b);
      assert d in ds <==> first <= d.0 < first + |blocks| && d.1 == blocks[d.0 - first];
    }
    SameMaps(Received(ds), all);
  }

  // ---- Which deliveries are fatal ----

  // `got` are the seqnos received: those below the expected one have been processed without a
  // gap, the others are waiting.
  ghost predicate Frontier(first: nat, got: set<nat>, q: Queue) {
    && first <= q.expected
    && (forall s :: first <= s < q.expected ==> s in got)
    && (forall s: nat :: s in q.waiting <==> s in got && q.expected <= s)
  }

  lemma {:induction false} DrainFrontier(first: nat, got: set<nat>, q: Queue)
    requires Valid(q) && Frontier(first, got, q)
    ensures Frontier(first, got, Drain(q))
    decreases |q.waiting|
  {
    hide ProcessBlock, Keyed;
    if q.expected in q.waiting {
      Shrinks(q.waiting, q.expected);
      DrainFrontier(first, got, Advance(q));
    }
  }

  lemma {:induction false} DeliveriesFrontier(q: Queue, ds: seq<Delivery>)
    requires Valid(q) && q.waiting == map[] && DeliverAll(q, ds).Ok?
    ensures Frontier(q.expected, Received(ds).Keys, DeliverAll(q, ds).value)
    ensures DeliverAll(q, ds).value.expected !in Received(ds)
  {
    hide ProcessBlock, Keyed, Drain;
    if ds == [] {
      forall s | s in Received(ds) ensures false {}
    } else {
      var n := |ds| - 1;
      DeliveriesFrontier(q, ds[..n]);
      var before, d := DeliverAll(q, ds[..n]).value, ds[n];
      var with := if d.0 in before.waiting then before else before.(waiting := before.waiting[d.0 := d.1]);
      assert Frontier(q.expected, Received(ds).Keys, with);
      DrainFrontier(q.expected, Received(ds).Keys, with);
    }
  }

  /** After any accepted deliveries, in any order and with any repetitions, the next one is fatal
      exactly when its seqno lies before the first one asked for, or it and all seqnos from that one
      up to it have been delivered before. */
  lemma FatalIffBehind(q: Queue, ds: seq<Delivery>, d: Delivery)
    requires Valid(q) && q.waiting == map[] && DeliverAll(q, ds).Ok?
    ensures DeliverAll(q, ds + [d]).Err? <==> d.0 < q.expected || forall s :: q.expected <= s <= d.0 ==> s in Received(ds)
  {
    hide ProcessBlock, Keyed, Drain;
    assert (ds + [d])[..|ds|] == ds;
    DeliveriesFrontier(q, ds);
    var r := DeliverAll(q, ds).value;
    if r.expected <= d.0 {
      assert q.expected <= r.expected <= d.0 && r.expected !in Received(ds);
    }
  }

  // The first block delivered for a seqno.
  predicate FirstFor(ds: seq<Delivery>, s: nat, b: ParsedBlock) {
    exists i :: 0 <= i < |ds| && ds[i] == (s, b) && forall j :: 0 <= j < i ==> ds[j].0 != s
  }

  lemma FirstForMore(ds: seq<Delivery>, d: Delivery, s: nat, b: ParsedBlock)
    requires FirstFor(ds, s, b) || (d == (s, b) && forall j :: 0 <= j < |ds| ==> ds[j].0 != s)
    ensures FirstFor(ds + [d], s, b)
  {
    var all := ds + [d];
    assert forall j :: 0 <= j < |ds| ==> all[j] == ds[j];
    if FirstFor(ds, s, b) {
      var i :| 0 <= i < |ds| && ds[i] == (s, b) && forall j :: 0 <= j < i ==> ds[j].0 != s;
      assert all[i] == (s, b);
    } else {
      assert all[|ds|] == (s, b);
    }
  }

  lemma {:induction false} DrainKeepsBlocks(q: Queue, s: nat)
    requires Valid(q) && s in Drain(q).waiting
    ensures s in q.waiting && Drain(q).waiting[s] == q.waiting[s]
    decreases |q.waiting|
  {
    hide ProcessBlock, Keyed;
    if q.expected in q.waiting {
      Shrinks(q.waiting, q.expected);
      DrainKeepsBlocks(Advance(q), s);
    }
  }

  /** If a seqno is delivered more than once, the block that came first is kept. */
  lemma {:induction false} FirstDeliveryStays(q: Queue, ds: seq<Delivery>, s: nat)
    requires Valid(q) && q.waiting == map[] && DeliverAll(q, ds).Ok? && s in DeliverAll(q, ds).value.waiting
    ensures FirstFor(ds, s, DeliverAll(q, ds).value.waiting[s])
  {
    hide ProcessBlock, Keyed, Drain;
    var n := |ds| - 1;
    var before, d := DeliverAll(q, ds[..n]).value, ds[n];
    assert ds == ds[..n] + [d];
    var with := if d.0 in before.waiting then before else before.(waiting := before.waiting[d.0 := d.1]);
    DrainKeepsBlocks(with, s);
    if s in before.waiting {
      FirstDeliveryStays(q, ds[..n], s);
    } else {
      DeliveriesFrontier(q, ds[..n]);
      ReceivedKeys(ds[..n], s);
    }
    FirstForMore(ds[..n], d, s, with.waiting[s]);
  }
}
