/** The scheduler and the assembler put together: the scheduler's view of the assembler is the
    assembler's own queue, and what the assembler answers is in-order processing
    (ton-index-postgres-v2/src/IndexScheduler.cpp, tondb-scanner/src/TraceAssembler.cpp). */
module Pipeline {
  import opened TraceModel
  import opened TraceBlock
  import opened TraceRun
  import opened SchedulerModel
  import Queues = AssemblyQueue

  // The scheduler's model of the assembler agrees with the assembler's queue.
  ghost predicate Agree(s: Scheduler, q: Queues.Queue) {
    s.expected == q.expected && s.waiting == q.waiting.Keys
  }

  lemma {:induction false} DrainAgrees(s: Scheduler, q: Queues.Queue)
    requires Queues.Valid(q) && Agree(s, q)
    ensures Agree(Drain(s), Queues.Drain(q))
    decreases |s.waiting|
  {
    hide ProcessBlock, Keyed;
    if s.expected in s.waiting {
      Queues.Shrinks(q.waiting, q.expected);
      var t := s.(waiting := s.waiting - {s.expected}, expected := s.expected + 1,
                  stage := s.stage[s.expected := Assembled]);
      assert (q.waiting - {q.expected}).Keys == q.waiting.Keys - {q.expected};
      DrainAgrees(t, Queues.Advance(q));
    }
  }

  lemma SendAgrees(s: Scheduler, q: Queues.Queue, x: nat, b: ParsedBlock)
    requires Queues.Valid(q) && Agree(s, q) && !s.crashed
    ensures var r := Queues.Deliver(q, (x, b));
            && (SendToAssembler(s, x).crashed <==> r.Err?)
            && (r.Ok? ==> Agree(SendToAssembler(s, x), r.value))
  {
    hide ProcessBlock, Keyed, Drain, Queues.Drain;
    if s.expected <= x {
      var t := s.(waiting := s.waiting + {x}, stage := s.stage[x := Waiting]);
      var more := if x in q.waiting then q else q.(waiting := q.waiting[x := b]);
      assert Agree(t, more);
      DrainAgrees(t, more);
      DrainKeepsCrashed(t);
    }
  }

  lemma {:induction false} DrainKeepsCrashed(s: Scheduler)
    ensures Drain(s).crashed == s.crashed
    decreases |s.waiting|
  {
    if s.expected in s.waiting {
      DrainKeepsCrashed(s.(waiting := s.waiting - {s.expected}, expected := s.expected + 1,
                           stage := s.stage[s.expected := Assembled]));
    }
  }

  lemma {:induction false} DispatchLeavesAssembler(c: Config, s: Scheduler)
    ensures Dispatch(c, s).expected == s.expected && Dispatch(c, s).waiting == s.waiting && Dispatch(c, s).crashed == s.crashed
    decreases |s.queue|
  {
    if s.queue != [] && |s.processing| < c.maxActive {
      DispatchLeavesAssembler(c, DispatchOne(s));
    }
  }

  // Only a parsed seqno reaches the assembler.
  lemma OthersLeaveAssembler(c: Config, s: Scheduler, e: Event)
    requires !(e.Parsed? && e.ok)
    ensures var t := Apply(c, s, e);
            t.expected == s.expected && t.waiting == s.waiting && t.crashed == s.crashed
  {
    hide Dispatch, Discover;
    match e
    case Poll => DispatchLeavesAssembler(c, s);
    case QueuedToInsert(x, _) =>
      DispatchLeavesAssembler(c, s.(processing := s.processing - {x}, stage := s.stage[x := Inserting]));
    case _ =>
  }

  // ---- In-order processing ----

  // The blocks `first .. end - 1` of a chain.
  function Blocks(chain: nat -> ParsedBlock, first: nat, end: nat): (r: seq<ParsedBlock>)
    requires first <= end
    ensures |r| == end - first
  {
    seq(end - first, i requires 0 <= i < end - first => chain(first + i))
  }

  // The queue is where in-order processing from `start` on would have brought it, and holds
  // blocks of the chain.
  ghost predicate InOrder(chain: nat -> ParsedBlock, start: Queues.Queue, q: Queues.Queue) {
    && Queues.Valid(start) && Queues.Valid(q) && start.expected <= q.expected
    && (forall s :: s in q.waiting ==> q.waiting[s] == chain(s))
    && var r := Run(start.state, start.expected, Blocks(chain, start.expected, q.expected));
       q.state == r.0 && q.resolved == start.resolved + Queues.Answers(start.expected, r.1)
  }

  lemma AdvanceInOrder(chain: nat -> ParsedBlock, start: Queues.Queue, q: Queues.Queue)
    requires InOrder(chain, start, q) && q.expected in q.waiting
    ensures InOrder(chain, start, Queues.Advance(q))
  {
    hide ProcessBlock, Keyed;
    var before := Blocks(chain, start.expected, q.expected);
    var after := Blocks(chain, start.expected, q.expected + 1);
    assert after[..|before|] == before && after[|before|] == chain(q.expected);
    var r := Run(start.state, start.expected, before);
    var p := ProcessBlock(q.state, q.expected, chain(q.expected));
    assert Run(start.state, start.expected, after) == (p.0, r.1 + [p.1]);
    assert Queues.Answers(start.expected, r.1 + [p.1]) == Queues.Answers(start.expected, r.1) + [(q.expected, p.1)];
    assert start.resolved + (Queues.Answers(start.expected, r.1) + [(q.expected, p.1)]) ==
           q.resolved + [(q.expected, p.1)];
  }

  lemma {:induction false} DrainInOrder(chain: nat -> ParsedBlock, start: Queues.Queue, q: Queues.Queue)
    requires InOrder(chain, start, q)
    ensures InOrder(chain, start, Queues.Drain(q))
    decreases |q.waiting|
  {
    if q.expected in q.waiting {
      AdvanceInOrder(chain, start, q);
      hide InOrder, ProcessBlock, Keyed;
      Queues.Shrinks(q.waiting, q.expected);
      DrainInOrder(chain, start, Queues.Advance(q));
    }
  }

  lemma DeliverInOrder(chain: nat -> ParsedBlock, start: Queues.Queue, q: Queues.Queue, x: nat)
    requires InOrder(chain, start, q) && q.expected <= x
    ensures Queues.Deliver(q, (x, chain(x))).Ok? && InOrder(chain, start, Queues.Deliver(q, (x, chain(x))).value)
  {
    var more := if x in q.waiting then q else q.(waiting := q.waiting[x := chain(x)]);
    assert InOrder(chain, start, more);
    hide InOrder;
    DrainInOrder(chain, start, more);
  }

  // ---- Whole runs ----

  // What the events of a run deliver to the assembler.
  function Deliveries(chain: nat -> ParsedBlock, es: seq<Event>): seq<Queues.Delivery> {
    if es == [] then []
    else
      var e := es[|es| - 1];
      Deliveries(chain, es[..|es| - 1]) + (if e.Parsed? && e.ok then [(e.seqno, chain(e.seqno))] else [])
  }

  lemma {:induction false} PlaySnoc(c: Config, s: Scheduler, es: seq<Event>)
    requires es != []
    ensures Play(c, s, es) == Apply(c, Play(c, s, es[..|es| - 1]), es[|es| - 1])
    ensures Possible(c, s, es) ==> Possible(c, s, es[..|es| - 1]) && Enabled(Play(c, s, es[..|es| - 1]), es[|es| - 1])
    decreases |es|
  {
    hide Apply, Enabled;
    var n := |es| - 1;
    if n == 0 {
      assert es[..0] == [] && es[1..] == [];
      assert Play(c, Apply(c, s, es[0]), []) == Apply(c, s, es[0]);
    } else {
      PlaySnoc(c, Apply(c, s, es[0]), es[1..]);
      assert es[1..][..n - 1] == es[..n][1..] && es[..n][0] == es[0];
    }
  }

  /** Every run of the scheduler, whatever fails and in whatever order blocks are fetched and
      parsed: it stops the assembler exactly when the assembler's queue refuses a delivery;
      otherwise the two agree about what is expected and waiting, and the assembler's pending maps
      and answers are those of processing the chain in order up to the expected seqno. */
  lemma {:induction false} RunProcessesInOrder(c: Config, s: Scheduler, q: Queues.Queue,
                                               chain: nat -> ParsedBlock, es: seq<Event>)
    requires Queues.Valid(q) && q.waiting == map[] && Agree(s, q) && Possible(c, s, es) && !s.crashed
    ensures var r := Queues.DeliverAll(q, Deliveries(chain, es));
            var t := Play(c, s, es);
            && (t.crashed <==> r.Err?)
            && (!t.crashed ==> Agree(t, r.value) && InOrder(chain, q, r.value))
  {
    if es == [] {
      StartInOrder(chain, q);
    } else {
      var n := |es| - 1;
      var e, t := es[n], Play(c, s, es[..n]);
      PlaySnoc(c, s, es);
      RunProcessesInOrder(c, s, q, chain, es[..n]);
      LastEvent(c, q, chain, es, t);
    }
  }

  lemma StartInOrder(chain: nat -> ParsedBlock, q: Queues.Queue)
    requires Queues.Valid(q) && q.waiting == map[]
    ensures InOrder(chain, q, q)
  {
    assert Blocks(chain, q.expected, q.expected) == [];
    assert Queues.Answers(q.expected, []) == [];
    assert q.resolved + [] == q.resolved;
  }

  lemma LastEvent(c: Config, q: Queues.Queue, chain: nat -> ParsedBlock, es: seq<Event>, t: Scheduler)
    requires Queues.Valid(q) && es != [] && !t.crashed
    requires var r := Queues.DeliverAll(q, Deliveries(chain, es[..|es| - 1]));
             r.Ok? && Agree(t, r.value) && InOrder(chain, q, r.value)
    ensures var r := Queues.DeliverAll(q, Deliveries(chain, es));
            var u := Apply(c, t, es[|es| - 1]);
            && (u.crashed <==> r.Err?)
            && (!u.crashed ==> Agree(u, r.value) && InOrder(chain, q, r.value))
  {
    hide InOrder, Queues.Deliver, Queues.DeliverAll, Queues.Valid, Apply;
    var e := es[|es| - 1];
    var ds := Deliveries(chain, es[..|es| - 1]);
    var before := Queues.DeliverAll(q, ds).value;
    if e.Parsed? && e.ok {
      DeliverSnoc(q, ds, (e.seqno, chain(e.seqno)));
      ParsedEvent(c, q, chain, before, t, e.seqno);
    } else {
      OthersLeaveAssembler(c, t, e);
      assert ds + [] == ds;
    }
  }

  lemma DeliverSnoc(q: Queues.Queue, ds: seq<Queues.Delivery>, d: Queues.Delivery)
    requires Queues.Valid(q) && Queues.DeliverAll(q, ds).Ok?
    ensures Queues.DeliverAll(q, ds + [d]) == Queues.Deliver(Queues.DeliverAll(q, ds).value, d)
  {
    hide Queues.Deliver;
    assert (ds + [d])[..|ds|] == ds;
  }

  lemma ParsedEvent(c: Config, start: Queues.Queue, chain: nat -> ParsedBlock, q: Queues.Queue, s: Scheduler, x: nat)
    requires Queues.Valid(q) && !s.crashed && Agree(s, q) && InOrder(chain, start, q)
    ensures var r := Queues.Deliver(q, (x, chain(x)));
            var t := Apply(c, s, Parsed(x, true));
            && (t.crashed <==> r.Err?)
            && (!t.crashed ==> Agree(t, r.value) && InOrder(chain, start, r.value))
  {
    hide InOrder, Drain, Queues.Drain, Keyed;
    SendAgrees(s, q, x, chain(x));
    if q.expected <= x {
      DeliverInOrder(chain, start, q, x);
    }
  }
}
