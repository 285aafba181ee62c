/** Start-up of the scheduler and what reaches the assembler afterwards. */
module SchedulerHandOver {
  import opened Wrappers
  import opened SchedulerModel
  import opened SchedulerProofs

  // ---- Start-up ----

  predicate Ascending(q: seq<nat>) {
    forall i, j :: 0 <= i < j < |q| ==> q[i] < q[j]
  }

  lemma {:induction false} AfterRunStored(stored: seq<nat>, next: nat)
    ensures forall s: nat :: next <= s < AfterRun(stored, next) ==> s in stored
    ensures Ascending(stored) && (stored != [] ==> next <= stored[0]) ==> AfterRun(stored, next) !in stored
  {
    if stored != [] && stored[0] == next {
      assert stored == [stored[0]] + stored[1..];
      AfterRunStored(stored[1..], next + 1);
    }
  }

  /** Start-up: the next seqno is the first one missing from the lowest stored one on, or the first
      of the range if nothing is stored. Everything taken as done from the lowest stored seqno on
      really is stored. A restored checkpoint is taken as it is; without one, indexing resumes 50
      blocks before the next seqno, or at the start of the range if that is nearer. */
  lemma SkippedAreStored(from: nat, stored: seq<nat>, restored: Option<nat>)
    requires 1 <= from && Ascending(stored) && forall i :: 0 <= i < |stored| ==> from <= stored[i]
    requires restored.Some? ==> restored.value + 1 <= NextSeqno(from, stored)
    ensures var next := NextSeqno(from, stored);
            var last := LastState(from, next, restored);
            && from <= next && next !in stored && last + 1 <= next
            && (if stored == [] then next == from
                else stored[0] <= next && forall s: nat :: stored[0] <= s < next ==> s in stored)
            && (forall s: nat :: stored != [] && stored[0] <= s <= last ==> s in stored)
            && (restored.Some? ==> last == restored.value)
            && (restored.None? ==> next - (last + 1) == if next - from < 50 then next - from else 50)
  {
    if stored != [] {
      AfterRunStored(stored, stored[0]);
      assert stored[0] in stored;
    }
  }

  lemma {:induction false} DiscoverAscends(c: Config, existing: set<nat>, lo: nat, hi: nat)
    ensures Ascending(Discover(c, existing, lo, hi))
    decreases hi
  {
    if lo < hi {
      DiscoverAscends(c, existing, lo, hi - 1);
      DiscoverFinds(c, existing, lo, hi - 1);
      var d := Discover(c, existing, lo, hi - 1);
      assert forall i :: 0 <= i < |d| ==> d[i] in d;
    }
  }

  /** The first seqno ever queued is the one the assembler expects exactly when the restored
      state is not older than `from - 1`. */
  lemma FirstQueuedIsExpected(c: Config, lastState: nat, v: nat)
    requires 1 <= c.from && !c.force
    requires c.from <= v && lastState < v && (c.to == 0 || (c.from <= c.to && lastState < c.to))
    ensures var s := GotLastKnown(c, Initial(c.from, lastState), v);
            s.queue != [] && (s.queue[0] == s.expected <==> c.from <= lastState + 1)
  {
    hide Discover;
    var existing := Between(c.from, lastState);
    var d := Discover(c, existing, 0, v);
    DiscoverFinds(c, existing, 0, v);
    DiscoverAscends(c, existing, 0, v);
    var first := if c.from <= lastState + 1 then lastState + 1 else c.from;
    assert first in d;
    var i :| 0 <= i < |d| && d[i] == first;
    assert d[0] in d;
  }

  // ---- Which seqnos reach the assembler ----

  // The work of seqno `x` before the assembler has seen it.
  predicate Before(s: Scheduler, x: nat) {
    x in s.queue || At(s, x, Fetching) || At(s, x, Parsing)
  }

  predicate After(s: Scheduler, x: nat) {
    x in s.inserted || (x in s.stage && s.stage[x] in {Assembled, Interfaces, Actions, Handed, Inserting})
  }

  // `expected` separates what the assembler has processed from what it has not, except for the
  // seqnos `resent`, which come again although the assembler is past them.
  ghost predicate Orderly(c: Config, initial: set<nat>, start: nat, resent: set<nat>, s: Scheduler) {
    && !s.crashed
    && (forall x: nat :: x in s.waiting <==> At(s, x, Waiting))
    && (forall x :: x in s.waiting ==> s.expected <= x)
    && (forall x: nat :: Before(s, x) ==> s.expected <= x || x in resent)
    && (forall x: nat :: After(s, x) ==> x < s.expected)
    && (forall x :: x in resent ==> x < s.expected)
    && start <= s.expected && (s.expected == start || s.expected <= s.lastKnown + 1)
    && (forall x: nat :: 1 <= x && InRange(c, x) && (c.force || x !in initial) ==> start <= x || x in resent)
  }

  ghost predicate GoodBut(c: Config, initial: set<nat>, start: nat, resent: set<nat>, s: Scheduler) {
    Conserved(c, initial, s) && Orderly(c, initial, start, resent, s) && s.expected !in s.waiting
  }

  // Nothing comes to the assembler a second time.
  ghost predicate Good(c: Config, initial: set<nat>, start: nat, s: Scheduler) {
    GoodBut(c, initial, start, {}, s)
  }

  predicate LateFailure(e: Event) {
    (e.InterfacesProcessed? || e.ActionsProcessed? || e.Inserted?) && !e.ok
  }

  predicate Failure(e: Event) {
    LateFailure(e) || ((e.Fetched? || e.Parsed?) && !e.ok)
  }

  lemma {:induction false} DrainOrderly(c: Config, initial: set<nat>, start: nat, resent: set<nat>, s: Scheduler)
    requires Conserved(c, initial, s) && Orderly(c, initial, start, resent, s)
    ensures Orderly(c, initial, start, resent, Drain(s)) && Drain(s).expected !in Drain(s).waiting
    decreases |s.waiting|
  {
    if s.expected in s.waiting {
      var y := s.expected;
      var t := s.(waiting := s.waiting - {y}, expected := y + 1, stage := s.stage[y := Assembled]);
      assert Conserved(c, initial, t) && Orderly(c, initial, start, resent, t) by { DrainStep(c, initial, start, resent, s); }
      hide Conserved, Orderly;
      DrainOrderly(c, initial, start, resent, t);
    }
  }

  lemma DrainStep(c: Config, initial: set<nat>, start: nat, resent: set<nat>, s: Scheduler)
    requires Conserved(c, initial, s) && Orderly(c, initial, start, resent, s) && s.expected in s.waiting
    ensures var y := s.expected;
            var t := s.(waiting := s.waiting - {y}, expected := y + 1, stage := s.stage[y := Assembled]);
            Conserved(c, initial, t) && Orderly(c, initial, start, resent, t)
  {
    var y := s.expected;
    assert At(s, y, Waiting);
    MoveConserves(c, initial, s, y, Assembled);
    assert Target(c, initial, s.lastKnown, y);
    var t := s.(waiting := s.waiting - {y}, expected := y + 1, stage := s.stage[y := Assembled]);
    AssemblerIrrelevant(c, initial, s.(stage := s.stage[y := Assembled]), t);
    forall x: nat ensures At(t, x, Waiting) <==> At(s, x, Waiting) && x != y {}
    forall x: nat ensures Before(t, x) ==> Before(s, x) && x != y {}
    forall x: nat ensures After(t, x) ==> After(s, x) || x == y {}
  }

  lemma {:induction false} DispatchOrderly(c: Config, initial: set<nat>, start: nat, resent: set<nat>, s: Scheduler)
    requires GoodBut(c, initial, start, resent, s)
    ensures GoodBut(c, initial, start, resent, Dispatch(c, s))
    decreases |s.queue|
  {
    if s.queue != [] && |s.processing| < c.maxActive {
      assert GoodBut(c, initial, start, resent, DispatchOne(s)) by { DispatchOneGood(c, initial, start, resent, s); }
      hide GoodBut;
      DispatchOrderly(c, initial, start, resent, DispatchOne(s));
    }
  }

  // The step changes nothing at the assembler and moves nothing to its other side.
  ghost predicate Kept(s: Scheduler, t: Scheduler) {
    && t.crashed == s.crashed && t.expected == s.expected && t.waiting == s.waiting && t.lastKnown == s.lastKnown
    && (forall x: nat :: At(t, x, Waiting) <==> At(s, x, Waiting))
    && (forall x: nat :: Before(t, x) ==> Before(s, x))
    && (forall x: nat :: After(t, x) ==> After(s, x))
  }

  lemma KeptIsOrderly(c: Config, initial: set<nat>, start: nat, resent: set<nat>, s: Scheduler, t: Scheduler)
    requires Orderly(c, initial, start, resent, s) && Kept(s, t)
    ensures Orderly(c, initial, start, resent, t)
  {
    hide At, Before, After, InRange;
  }

  lemma GoodParts(c: Config, initial: set<nat>, start: nat, resent: set<nat>, s: Scheduler)
    requires GoodBut(c, initial, start, resent, s)
    ensures Conserved(c, initial, s) && Orderly(c, initial, start, resent, s) && WaitingKnown(s) && !s.crashed
    ensures s.expected !in s.waiting
  {
  }

  lemma DispatchOneGood(c: Config, initial: set<nat>, start: nat, resent: set<nat>, s: Scheduler)
    requires GoodBut(c, initial, start, resent, s) && s.queue != [] && |s.processing| < c.maxActive
    ensures GoodBut(c, initial, start, resent, DispatchOne(s))
  {
    DispatchOneConserves(c, initial, s);
    var t, y := DispatchOne(s), s.queue[0];
    assert y in s.queue;
    hide Orderly, Target;
    assert Kept(s, t);
    KeptIsOrderly(c, initial, start, resent, s, t);
  }

  lemma LastKnownGood(c: Config, initial: set<nat>, start: nat, resent: set<nat>, s: Scheduler, v: nat)
    requires GoodBut(c, initial, start, resent, s) && s.lastKnown <= v
    ensures GoodBut(c, initial, start, resent, GotLastKnown(c, s, v))
  {
    hide Discover;
    LastKnownConserves(c, initial, s, v);
    DiscoverFinds(c, s.existing, s.lastKnown, v);
    var t := GotLastKnown(c, s, v);
    forall x: nat ensures Before(t, x) ==> Before(s, x) || x in Discover(c, s.existing, s.lastKnown, v) {}
    forall x: nat ensures After(t, x) <==> After(s, x) {}
    forall x: nat ensures At(t, x, Waiting) <==> At(s, x, Waiting) {}
  }

  lemma RescheduleGood(c: Config, initial: set<nat>, start: nat, resent: set<nat>, s: Scheduler, x: nat)
    requires GoodBut(c, initial, start, resent, s) && (At(s, x, Fetching) || At(s, x, Parsing))
    ensures GoodBut(c, initial, start, resent, Reschedule(s, x))
  {
    hide Conserved, Orderly, WaitingKnown;
    GoodParts(c, initial, start, resent, s);
    RescheduleConserves(c, initial, s, x);
    var t := Reschedule(s, x);
    assert Kept(s, t);
    KeptIsOrderly(c, initial, start, resent, s, t);
  }

  // Moving on within the part before, or within the part after, the assembler.
  lemma MoveGood(c: Config, initial: set<nat>, start: nat, resent: set<nat>, s: Scheduler, x: nat, next: Stage)
    requires GoodBut(c, initial, start, resent, s) && InProcessing(s, x) && next in {Parsing, Interfaces, Actions, Handed}
    requires if next == Parsing then At(s, x, Fetching) else After(s, x)
    ensures GoodBut(c, initial, start, resent, s.(stage := s.stage[x := next]))
  {
    hide Conserved, Orderly, WaitingKnown;
    GoodParts(c, initial, start, resent, s);
    MoveConserves(c, initial, s, x, next);
    var t := s.(stage := s.stage[x := next]);
    assert Kept(s, t);
    KeptIsOrderly(c, initial, start, resent, s, t);
  }

  lemma SendGood(c: Config, initial: set<nat>, start: nat, resent: set<nat>, s: Scheduler, x: nat)
    requires GoodBut(c, initial, start, resent, s) && At(s, x, Parsing) && s.expected <= x
    ensures GoodBut(c, initial, start, resent, SendToAssembler(s, x))
  {
    assert Before(s, x);
    var u := s.(stage := s.stage[x := Waiting]);
    var t := u.(waiting := s.waiting + {x});
    MoveConserves(c, initial, s, x, Waiting);
    AssemblerIrrelevant(c, initial, u, t);
    forall y: nat ensures At(t, y, Waiting) <==> At(s, y, Waiting) || x == y {}
    forall y: nat ensures Before(t, y) ==> Before(s, y) {}
    forall y: nat ensures After(t, y) ==> After(s, y) {}
    assert Orderly(c, initial, start, resent, t);
    hide Orderly, Conserved, Drain;
    DrainConserves(c, initial, t);
    DrainOrderly(c, initial, start, resent, t);
  }

  lemma HandedGood(c: Config, initial: set<nat>, start: nat, resent: set<nat>, s: Scheduler, x: nat)
    requires GoodBut(c, initial, start, resent, s) && At(s, x, Handed)
    ensures GoodBut(c, initial, start, resent, s.(processing := s.processing - {x}, stage := s.stage[x := Inserting]))
  {
    hide Conserved, Orderly, WaitingKnown;
    GoodParts(c, initial, start, resent, s);
    HandOverConserves(c, initial, s, x);
    var t := s.(processing := s.processing - {x}, stage := s.stage[x := Inserting]);
    assert Kept(s, t);
    KeptIsOrderly(c, initial, start, resent, s, t);
  }

  lemma InsertedGood(c: Config, initial: set<nat>, start: nat, resent: set<nat>, s: Scheduler, x: nat)
    requires GoodBut(c, initial, start, resent, s) && At(s, x, Inserting)
    ensures GoodBut(c, initial, start, resent,
                 s.(existing := s.existing + {x}, inserted := s.inserted + {x}, stage := s.stage - {x}))
  {
    hide Conserved, Orderly, WaitingKnown;
    GoodParts(c, initial, start, resent, s);
    InsertedConserves(c, initial, s, x);
    var t := s.(existing := s.existing + {x}, inserted := s.inserted + {x}, stage := s.stage - {x});
    assert After(s, x);
    assert Kept(s, t);
    KeptIsOrderly(c, initial, start, resent, s, t);
  }

  // A failure after assembly queues a seqno that the assembler is past.
  lemma ResendGood(c: Config, initial: set<nat>, start: nat, resent: set<nat>, s: Scheduler, x: nat)
    requires GoodBut(c, initial, start, resent, s) && After(s, x) && x in s.stage
    ensures GoodBut(c, initial, start, resent + {x}, Reschedule(s, x))
  {
    hide Conserved, Orderly, WaitingKnown;
    GoodParts(c, initial, start, resent, s);
    RescheduleConserves(c, initial, s, x);
    var t := Reschedule(s, x);
    // The same, as if the seqno had been queued before.
    var q := s.(queue := s.queue + [x]);
    QueueIsOrderly(c, initial, start, resent, s, x);
    assert Kept(q, t);
    KeptIsOrderly(c, initial, start, resent + {x}, q, t);
  }

  lemma QueueIsOrderly(c: Config, initial: set<nat>, start: nat, resent: set<nat>, s: Scheduler, x: nat)
    requires Orderly(c, initial, start, resent, s) && After(s, x)
    ensures Orderly(c, initial, start, resent + {x}, s.(queue := s.queue + [x]))
  {
    var q := s.(queue := s.queue + [x]);
    assert x < s.expected;
    forall y: nat ensures At(q, y, Waiting) <==> At(s, y, Waiting) {}
    forall y: nat ensures After(q, y) <==> After(s, y) {}
    forall y: nat ensures Before(q, y) <==> Before(s, y) || y == x {}
    hide At, Before, After, InRange;
  }

  function NowResent(resent: set<nat>, e: Event): set<nat> {
    if LateFailure(e) then resent + {e.seqno} else resent
  }

  lemma LateFailureGood(c: Config, initial: set<nat>, start: nat, resent: set<nat>, s: Scheduler, e: Event)
    requires GoodBut(c, initial, start, resent, s) && Enabled(s, e) && LateFailure(e)
    ensures GoodBut(c, initial, start, resent + {e.seqno}, Apply(c, s, e))
    ensures e.seqno in Apply(c, s, e).queue && e.seqno < Apply(c, s, e).expected && !Apply(c, s, e).crashed
  {
    assert After(s, e.seqno);
    assert Apply(c, s, e) == Reschedule(s, e.seqno);
    ResendGood(c, initial, start, resent, s, e.seqno);
  }

  /** One step: the assembler is stopped exactly by a parsed seqno that comes again; every other
      step keeps the order, with a failure after assembly adding its seqno to those. */
  lemma StepOrder(c: Config, initial: set<nat>, start: nat, resent: set<nat>, s: Scheduler, e: Event)
    requires GoodBut(c, initial, start, resent, s) && Enabled(s, e)
    ensures Apply(c, s, e).crashed <==> e.Parsed? && e.ok && e.seqno in resent
    ensures !Apply(c, s, e).crashed ==> GoodBut(c, initial, start, NowResent(resent, e), Apply(c, s, e))
  {
    if LateFailure(e) {
      LateFailureGood(c, initial, start, resent, s, e);
    } else if e.Parsed? && e.ok {
      assert Before(s, e.seqno);
      if s.expected <= e.seqno {
        SendGood(c, initial, start, resent, s, e.seqno);
      }
    } else {
      OtherStepGood(c, initial, start, resent, s, e);
    }
  }

  lemma OtherStepGood(c: Config, initial: set<nat>, start: nat, resent: set<nat>, s: Scheduler, e: Event)
    requires GoodBut(c, initial, start, resent, s) && Enabled(s, e) && !LateFailure(e) && !(e.Parsed? && e.ok)
    ensures GoodBut(c, initial, start, resent, Apply(c, s, e)) && !Apply(c, s, e).crashed
  {
    assert GoodBut(c, initial, start, resent, Apply(c, s, e)) by {
      hide GoodBut, Dispatch, Drain, Discover;
      match e
      case LastKnown(v) => LastKnownGood(c, initial, start, resent, s, v);
      case Poll => DispatchOrderly(c, initial, start, resent, s);
      case Fetched(x, ok) =>
        if ok { MoveGood(c, initial, start, resent, s, x, Parsing); } else { RescheduleGood(c, initial, start, resent, s, x); }
      case Parsed(x, ok) => RescheduleGood(c, initial, start, resent, s, x);
      case TracesAssembled(x) => MoveGood(c, initial, start, resent, s, x, Interfaces);
      case InterfacesProcessed(x, ok) => MoveGood(c, initial, start, resent, s, x, Actions);
      case ActionsProcessed(x, ok) => MoveGood(c, initial, start, resent, s, x, Handed);
      case QueuedToInsert(x, accept) =>
        HandedGood(c, initial, start, resent, s, x);
        DispatchOrderly(c, initial, start, resent, s.(processing := s.processing - {x}, stage := s.stage[x := Inserting]));
      case Inserted(x, ok) => InsertedGood(c, initial, start, resent, s, x);
    }
  }

  lemma StepGood(c: Config, initial: set<nat>, start: nat, s: Scheduler, e: Event)
    requires Good(c, initial, start, s) && Enabled(s, e) && !LateFailure(e)
    ensures Good(c, initial, start, Apply(c, s, e))
  {
    StepOrder(c, initial, start, {}, s, e);
  }

  /** Hand-over: in every run in which only fetching or parsing fails, the assembler never
      receives a seqno below the expected one. */
  lemma {:induction false} NeverBelowExpected(c: Config, initial: set<nat>, start: nat, s: Scheduler, es: seq<Event>)
    requires Good(c, initial, start, s) && Possible(c, s, es) && forall e :: e in es ==> !LateFailure(e)
    ensures Good(c, initial, start, Play(c, s, es))
    decreases |es|
  {
    if es != [] {
      assert es[0] in es && forall e :: e in es[1..] ==> e in es;
      hide Good, Apply;
      StepGood(c, initial, start, s, es[0]);
      NeverBelowExpected(c, initial, start, Apply(c, s, es[0]), es[1..]);
    }
  }

  // The seqnos that forced indexing queues although the restored state is past them.
  function Forced(c: Config, lastState: nat): set<nat> {
    if c.force then Between(c.from, lastState) else {}
  }

  /** Start-up, for every configuration and every restored state. */
  lemma StartOrder(c: Config, lastState: nat)
    requires 1 <= c.from
    ensures var s := Initial(c.from, lastState);
            GoodBut(c, s.existing, lastState + 1, Forced(c, lastState), s)
  {
    StartConserved(c, lastState);
  }

  lemma StartGood(c: Config, lastState: nat)
    requires 1 <= c.from && (c.force ==> lastState < c.from)
    ensures var s := Initial(c.from, lastState);
            Good(c, s.existing, lastState + 1, s)
  {
    StartOrder(c, lastState);
    assert Forced(c, lastState) == {};
  }
}
