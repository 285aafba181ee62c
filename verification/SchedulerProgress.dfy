/** When the scheduler can make progress, and when it has locked itself up. */
module SchedulerProgress {
  import opened Sets
  import opened SchedulerModel
  import opened SchedulerProofs
  import opened SchedulerHandOver

  // ---- Being wedged ----

  // All slots are taken by seqnos that wait in the assembler for one that is still queued.
  ghost predicate Wedged(c: Config, s: Scheduler) {
    && |s.processing| >= c.maxActive
    && (forall x :: InProcessing(s, x) ==> At(s, x, Waiting))
    && s.expected in s.queue
  }

  // Only these messages can arrive when everything in processing waits.
  lemma WedgedEvents(c: Config, s: Scheduler, e: Event)
    requires Wedged(c, s) && Enabled(s, e)
    ensures e.LastKnown? || e.Poll? || e.Inserted?
  {
    assert forall x: nat :: x in s.stage ==> s.stage[x] == Waiting || s.stage[x] == Inserting by {
      forall x: nat | x in s.stage && s.stage[x] != Inserting ensures s.stage[x] == Waiting {
        assert InProcessing(s, x);
      }
    }
  }

  lemma WedgedLastKnown(c: Config, s: Scheduler, v: nat)
    requires Wedged(c, s)
    ensures Wedged(c, GotLastKnown(c, s, v)) && GotLastKnown(c, s, v).expected == s.expected
  {
    hide Discover;
    var t := GotLastKnown(c, s, v);
    forall x: nat ensures InProcessing(t, x) == InProcessing(s, x) && At(t, x, Waiting) == At(s, x, Waiting) {}
  }

  lemma WedgedInserted(c: Config, s: Scheduler, x: nat, ok: bool)
    requires Wedged(c, s) && At(s, x, Inserting) && x !in s.processing
    ensures var t := Apply(c, s, Inserted(x, ok));
            Wedged(c, t) && t.expected == s.expected
  {
    var t := Apply(c, s, Inserted(x, ok));
    assert s.processing - {x} == s.processing;
    forall y: nat ensures InProcessing(t, y) ==> InProcessing(s, y) {}
    forall y: nat ensures At(s, y, Waiting) ==> At(t, y, Waiting) {}
  }

  lemma WedgedStep(c: Config, initial: set<nat>, s: Scheduler, e: Event)
    requires Conserved(c, initial, s) && Wedged(c, s) && Enabled(s, e)
    ensures Wedged(c, Apply(c, s, e)) && Apply(c, s, e).expected == s.expected
  {
    WedgedEvents(c, s, e);
    if e.LastKnown? {
      WedgedLastKnown(c, s, e.seqno);
    } else if e.Inserted? {
      assert e.seqno !in s.processing;
      WedgedInserted(c, s, e.seqno, e.ok);
    }
  }

  /** A wedged scheduler stays wedged and never advances the assembler, whatever arrives. */
  lemma {:induction false} WedgedForever(c: Config, initial: set<nat>, s: Scheduler, es: seq<Event>)
    requires Conserved(c, initial, s) && WaitingKnown(s) && Wedged(c, s) && Possible(c, s, es)
    ensures Wedged(c, Play(c, s, es)) && Play(c, s, es).expected == s.expected
    decreases |es|
  {
    hide Conserved, WaitingKnown, Wedged, Apply;
    if es != [] {
      WedgedStep(c, initial, s, es[0]);
      StepConserves(c, initial, s, es[0]);
      WedgedForever(c, initial, Apply(c, s, es[0]), es[1..]);
    }
  }

  // ---- Runs without failures ----

  // One past the last seqno due so far.
  function End(c: Config, start: nat, known: nat): nat {
    var top := if c.to == 0 || known < c.to then known else c.to;
    if top + 1 < start then start else top + 1
  }

  // The queue continues, without gaps, the seqnos dispatched so far.
  ghost predicate Fifo(c: Config, start: nat, s: Scheduler, next: nat) {
    && start <= next && next + |s.queue| == End(c, start, s.lastKnown)
    && (forall i :: 0 <= i < |s.queue| ==> s.queue[i] == next + i)
    && (forall x :: x in s.stage || x in s.inserted ==> x < next)
  }

  ghost predicate Starts(c: Config, initial: set<nat>, start: nat) {
    1 <= c.from <= start && !c.force && initial == Between(c.from, start - 1)
  }

  lemma {:induction false} DiscoverContiguous(c: Config, start: nat, existing: set<nat>, lo: nat, hi: nat)
    requires 1 <= c.from <= start && !c.force && lo <= hi
    requires forall x :: lo < x ==> (x in existing <==> c.from <= x < start)
    ensures var d := Discover(c, existing, lo, hi);
            && |d| == End(c, start, hi) - End(c, start, lo)
            && (forall i :: 0 <= i < |d| ==> d[i] == End(c, start, lo) + i)
    decreases hi
  {
    if lo < hi {
      DiscoverContiguous(c, start, existing, lo, hi - 1);
    }
  }

  lemma LastKnownFifo(c: Config, initial: set<nat>, start: nat, s: Scheduler, next: nat, v: nat)
    requires Starts(c, initial, start) && Conserved(c, initial, s) && Fifo(c, start, s, next) && s.lastKnown <= v
    ensures Fifo(c, start, GotLastKnown(c, s, v), next)
  {
    hide Discover, Between;
    assert forall x :: x in s.inserted ==> Target(c, initial, s.lastKnown, x);
    DiscoverContiguous(c, start, s.existing, s.lastKnown, v);
  }

  lemma {:induction false} DispatchFifo(c: Config, start: nat, s: Scheduler, next: nat) returns (after: nat)
    requires Fifo(c, start, s, next)
    ensures Fifo(c, start, Dispatch(c, s), after)
    decreases |s.queue|
  {
    if s.queue != [] && |s.processing| < c.maxActive {
      assert Fifo(c, start, DispatchOne(s), next + 1);
      after := DispatchFifo(c, start, DispatchOne(s), next + 1);
    } else {
      after := next;
    }
  }

  lemma {:induction false} DrainFifo(c: Config, start: nat, s: Scheduler, next: nat)
    requires Fifo(c, start, s, next) && forall x :: x in s.waiting ==> x in s.stage
    ensures Fifo(c, start, Drain(s), next)
    decreases |s.waiting|
  {
    if s.expected in s.waiting {
      var y := s.expected;
      DrainFifo(c, start, s.(waiting := s.waiting - {y}, expected := y + 1, stage := s.stage[y := Assembled]), next);
    }
  }

  lemma StepFifo(c: Config, initial: set<nat>, start: nat, s: Scheduler, next: nat, e: Event) returns (after: nat)
    requires Starts(c, initial, start) && Conserved(c, initial, s) && WaitingKnown(s) && Fifo(c, start, s, next)
    requires Enabled(s, e) && !Failure(e)
    ensures Fifo(c, start, Apply(c, s, e), after)
  {
    hide Dispatch, Drain, Discover, Between, Conserved;
    after := next;
    match e
    case LastKnown(v) => LastKnownFifo(c, initial, start, s, next, v);
    case Poll => after := DispatchFifo(c, start, s, next);
    case Parsed(x, _) =>
      if s.expected <= x {
        DrainFifo(c, start, s.(waiting := s.waiting + {x}, stage := s.stage[x := Waiting]), next);
      }
    case QueuedToInsert(x, accept) =>
      if accept {
        after := DispatchFifo(c, start, s.(processing := s.processing - {x}, stage := s.stage[x := Inserting]), next);
      }
    case _ =>
  }

  lemma {:induction false} RunFifo(c: Config, initial: set<nat>, start: nat, s: Scheduler, next: nat, es: seq<Event>)
      returns (after: nat)
    requires Starts(c, initial, start) && Good(c, initial, start, s) && Fifo(c, start, s, next)
    requires Possible(c, s, es) && forall e :: e in es ==> !Failure(e)
    ensures Good(c, initial, start, Play(c, s, es)) && Fifo(c, start, Play(c, s, es), after)
    decreases |es|
  {
    if es == [] {
      after := next;
    } else {
      assert es[0] in es && forall e :: e in es[1..] ==> e in es;
      assert WaitingKnown(s) && Conserved(c, initial, s);
      hide Good, Fifo, Apply, Starts, Conserved, WaitingKnown;
      StepGood(c, initial, start, s, es[0]);
      var n := StepFifo(c, initial, start, s, next, es[0]);
      after := RunFifo(c, initial, start, Apply(c, s, es[0]), n, es[1..]);
    }
  }

  lemma FifoNeverStarves(c: Config, initial: set<nat>, start: nat, s: Scheduler, next: nat)
    requires Starts(c, initial, start) && Good(c, initial, start, s) && Fifo(c, start, s, next)
    ensures s.waiting != {} ==> At(s, s.expected, Fetching) || At(s, s.expected, Parsing)
    ensures c.maxActive > 0 ==> !Wedged(c, s)
  {
    var x := s.expected;
    assert forall y :: y in s.queue ==> next <= y;
    if s.waiting != {} {
      var w := Member(s.waiting);
      assert At(s, w, Waiting) && w in s.stage;
      assert Target(c, initial, s.lastKnown, w);
      assert x < w < next;
      StartIsTarget(c, initial, start, s, x, w);
      assert !After(s, x) && !At(s, x, Waiting);
    }
    if c.maxActive > 0 && s.processing != {} && x in s.queue {
      var p := Member(s.processing);
      assert InProcessing(s, p) && p < next <= x;
      assert !At(s, p, Waiting);
    }
  }

  // A seqno between the start and one that is due is due itself.
  lemma StartIsTarget(c: Config, initial: set<nat>, start: nat, s: Scheduler, x: nat, w: nat)
    requires Starts(c, initial, start) && start <= x < w && Target(c, initial, s.lastKnown, w)
    ensures Target(c, initial, s.lastKnown, x)
  {
  }

  /** No starvation without failures: from the start on, whenever the assembler holds a waiting
      block, the seqno it waits for is itself being fetched or parsed; so the scheduler is never
      wedged. */
  lemma NeverStarves(c: Config, lastState: nat, es: seq<Event>)
    requires 1 <= c.from <= lastState + 1 && !c.force && c.maxActive > 0
    requires Possible(c, Initial(c.from, lastState), es) && forall e :: e in es ==> !Failure(e)
    ensures var s := Play(c, Initial(c.from, lastState), es);
            && !s.crashed && !Wedged(c, s)
            && (s.waiting != {} ==> At(s, s.expected, Fetching) || At(s, s.expected, Parsing))
  {
    var s := Initial(c.from, lastState);
    StartGood(c, lastState);
    assert Starts(c, s.existing, lastState + 1) && Fifo(c, lastState + 1, s, lastState + 1);
    hide Starts, Fifo, Initial, Play, Possible, Wedged, Failure, Conserved;
    var after := RunFifo(c, s.existing, lastState + 1, s, lastState + 1, es);
    FifoNeverStarves(c, s.existing, lastState + 1, Play(c, s, es), after);
  }

  // ---- A checkpoint older than the indexed range ----

  // Everything in flight lies above a seqno that will never come.
  ghost predicate Stalled(c: Config, expected: nat, s: Scheduler) {
    && s.expected == expected < c.from && s.inserted == {}
    && (forall x :: x in s.queue || x in s.waiting ==> c.from <= x)
    && (forall x :: x in s.stage ==> c.from <= x && s.stage[x] in {Fetching, Parsing, Waiting})
  }

  lemma {:induction false} DispatchStalled(c: Config, expected: nat, s: Scheduler)
    requires Stalled(c, expected, s)
    ensures Stalled(c, expected, Dispatch(c, s))
    decreases |s.queue|
  {
    if s.queue != [] && |s.processing| < c.maxActive {
      assert s.queue[0] in s.queue && forall x :: x in s.queue[1..] ==> x in s.queue;
      DispatchStalled(c, expected, DispatchOne(s));
    }
  }

  /** If the restored checkpoint is older than `from - 1`, the assembler never processes a block
      in any run, whatever fails or succeeds. */
  lemma {:induction false} OldCheckpointStalls(c: Config, expected: nat, s: Scheduler, es: seq<Event>)
    requires Stalled(c, expected, s) && Possible(c, s, es)
    ensures Stalled(c, expected, Play(c, s, es))
    decreases |es|
  {
    hide Discover, Dispatch;
    if es != [] {
      var e := es[0];
      if e.LastKnown? {
        DiscoverFinds(c, s.existing, s.lastKnown, e.seqno);
      } else if e.Poll? {
        DispatchStalled(c, expected, s);
      }
      assert Stalled(c, expected, Apply(c, s, e));
      OldCheckpointStalls(c, expected, Apply(c, s, e), es[1..]);
    }
  }

  lemma OldCheckpointStarts(c: Config, lastState: nat)
    requires lastState + 1 < c.from
    ensures Stalled(c, lastState + 1, Initial(c.from, lastState))
  {
  }
}
