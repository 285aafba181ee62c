/** Properties of every run of the scheduler and its assembler. */
module SchedulerProofs {
  import opened Sets
  import opened SchedulerModel

  // ---- Conservation ----

  // A seqno that has been announced and is to be indexed.
  predicate Target(c: Config, initial: set<nat>, known: nat, x: nat) {
    1 <= x <= known && InRange(c, x) && (c.force || x !in initial)
  }

  predicate NoRepeats(q: seq<nat>) {
    forall i, j :: 0 <= i < j < |q| ==> q[i] != q[j]
  }

  predicate InProcessing(s: Scheduler, x: nat) {
    x in s.stage && s.stage[x] != Inserting
  }

  // Every target is in exactly one place: queued (once), in processing, awaiting insert, or
  // inserted; and no more than the allowed number is in processing.
  ghost predicate Conserved(c: Config, initial: set<nat>, s: Scheduler) {
    && NoRepeats(s.queue)
    && (forall x :: x in s.queue ==> x !in s.stage && x !in s.inserted)
    && (forall x :: x in s.stage ==> x !in s.inserted)
    && (forall x :: Target(c, initial, s.lastKnown, x) <==> x in s.queue || x in s.stage || x in s.inserted)
    && (forall x :: x in s.processing <==> InProcessing(s, x))
    && |s.processing| <= c.maxActive
    && s.existing == initial + s.inserted
  }

  lemma {:induction false} DiscoverFinds(c: Config, existing: set<nat>, lo: nat, hi: nat)
    ensures NoRepeats(Discover(c, existing, lo, hi))
    ensures forall x :: x in Discover(c, existing, lo, hi) <==>
                        lo < x <= hi && InRange(c, x) && (c.force || x !in existing)
    decreases hi
  {
    if lo < hi {
      DiscoverFinds(c, existing, lo, hi - 1);
    }
  }

  lemma LastKnownConserves(c: Config, initial: set<nat>, s: Scheduler, v: nat)
    requires Conserved(c, initial, s) && s.lastKnown <= v
    ensures Conserved(c, initial, GotLastKnown(c, s, v))
  {
    hide Discover;
    var d := Discover(c, s.existing, s.lastKnown, v);
    DiscoverFinds(c, s.existing, s.lastKnown, v);
    assert forall i :: 0 <= i < |d| ==> d[i] in d;
    assert forall i :: 0 <= i < |s.queue| ==> s.queue[i] in s.queue;
  }

  lemma DispatchOneConserves(c: Config, initial: set<nat>, s: Scheduler)
    requires Conserved(c, initial, s) && s.queue != [] && |s.processing| < c.maxActive
    ensures Conserved(c, initial, DispatchOne(s))
  {
    hide Target;
    var x, rest := s.queue[0], s.queue[1..];
    assert forall y :: y in s.queue <==> y == x || y in rest;
    assert x !in rest;
  }

  lemma {:induction false} DispatchConserves(c: Config, initial: set<nat>, s: Scheduler)
    requires Conserved(c, initial, s)
    ensures Conserved(c, initial, Dispatch(c, s))
    decreases |s.queue|
  {
    hide Conserved;
    if s.queue != [] && |s.processing| < c.maxActive {
      DispatchOneConserves(c, initial, s);
      DispatchConserves(c, initial, DispatchOne(s));
    }
  }

  lemma RescheduleConserves(c: Config, initial: set<nat>, s: Scheduler, x: nat)
    requires Conserved(c, initial, s) && x in s.stage
    ensures Conserved(c, initial, Reschedule(s, x))
  {
    hide Target;
    SubsetSize(s.processing - {x}, s.processing);
    assert forall i :: 0 <= i < |s.queue| ==> s.queue[i] in s.queue;
    var t := Reschedule(s, x);
    forall y: nat ensures InProcessing(t, y) <==> InProcessing(s, y) && y != x {}
  }

  lemma MoveConserves(c: Config, initial: set<nat>, s: Scheduler, x: nat, next: Stage)
    requires Conserved(c, initial, s) && InProcessing(s, x) && next != Inserting
    ensures Conserved(c, initial, s.(stage := s.stage[x := next]))
  {
    hide Target;
  }

  lemma {:induction false} DrainConserves(c: Config, initial: set<nat>, s: Scheduler)
    requires Conserved(c, initial, s) && forall x :: x in s.waiting ==> At(s, x, Waiting)
    ensures Conserved(c, initial, Drain(s))
    decreases |s.waiting|
  {
    hide Conserved;
    if s.expected in s.waiting {
      var y := s.expected;
      var t := s.(waiting := s.waiting - {y}, expected := y + 1, stage := s.stage[y := Assembled]);
      MoveConserves(c, initial, s, y, Assembled);
      AssemblerIrrelevant(c, initial, s.(stage := s.stage[y := Assembled]), t);
      DrainConserves(c, initial, t);
    }
  }

  lemma AssemblerIrrelevant(c: Config, initial: set<nat>, s: Scheduler, t: Scheduler)
    requires Conserved(c, initial, s)
    requires t == s.(waiting := t.waiting, expected := t.expected, crashed := t.crashed)
    ensures Conserved(c, initial, t)
  {
  }

  // The assembler's queue holds seqnos whose answer is outstanding.
  predicate WaitingKnown(s: Scheduler) {
    forall x :: x in s.waiting ==> At(s, x, Waiting)
  }

  lemma SendConserves(c: Config, initial: set<nat>, s: Scheduler, x: nat)
    requires Conserved(c, initial, s) && WaitingKnown(s) && At(s, x, Parsing)
    ensures Conserved(c, initial, SendToAssembler(s, x))
  {
    hide Conserved;
    if x < s.expected {
      AssemblerIrrelevant(c, initial, s, s.(crashed := true));
    } else {
      var t := s.(stage := s.stage[x := Waiting]);
      MoveConserves(c, initial, s, x, Waiting);
      AssemblerIrrelevant(c, initial, t, t.(waiting := s.waiting + {x}));
      DrainConserves(c, initial, t.(waiting := s.waiting + {x}));
    }
  }

  lemma {:induction false} DrainKeepsWaiting(s: Scheduler)
    requires WaitingKnown(s)
    ensures WaitingKnown(Drain(s))
    decreases |s.waiting|
  {
    if s.expected in s.waiting {
      var y := s.expected;
      DrainKeepsWaiting(s.(waiting := s.waiting - {y}, expected := y + 1, stage := s.stage[y := Assembled]));
    }
  }

  lemma {:induction false} DispatchKeepsWaiting(c: Config, initial: set<nat>, s: Scheduler)
    requires WaitingKnown(s) && Conserved(c, initial, s)
    ensures WaitingKnown(Dispatch(c, s))
    decreases |s.queue|
  {
    if s.queue != [] && |s.processing| < c.maxActive {
      DispatchOneConserves(c, initial, s);
      assert s.queue[0] in s.queue;
      DispatchKeepsWaiting(c, initial, DispatchOne(s));
    }
  }

  lemma StepConserves(c: Config, initial: set<nat>, s: Scheduler, e: Event)
    requires Conserved(c, initial, s) && WaitingKnown(s) && Enabled(s, e)
    ensures Conserved(c, initial, Apply(c, s, e)) && WaitingKnown(Apply(c, s, e))
  {
    hide Conserved, Dispatch, Drain, Discover;
    match e
    case LastKnown(v) => LastKnownConserves(c, initial, s, v);
    case Poll =>
      DispatchConserves(c, initial, s);
      DispatchKeepsWaiting(c, initial, s);
    case Fetched(x, ok) => StageConserves(c, initial, s, x, ok, Parsing);
    case Parsed(x, ok) =>
      if ok {
        SendConserves(c, initial, s, x);
        if s.expected <= x {
          DrainKeepsWaiting(s.(waiting := s.waiting + {x}, stage := s.stage[x := Waiting]));
        }
      } else {
        RescheduleConserves(c, initial, s, x);
      }
    case TracesAssembled(x) => StageConserves(c, initial, s, x, true, Interfaces);
    case InterfacesProcessed(x, ok) => StageConserves(c, initial, s, x, ok, Actions);
    case ActionsProcessed(x, ok) => StageConserves(c, initial, s, x, ok, Handed);
    case QueuedToInsert(x, accept) =>
      var q := s.(processing := s.processing - {x}, stage := s.stage[x := Inserting]);
      HandOverConserves(c, initial, s, x);
      DispatchConserves(c, initial, q);
      DispatchKeepsWaiting(c, initial, q);
    case Inserted(x, ok) =>
      if ok {
        InsertedConserves(c, initial, s, x);
      } else {
        RescheduleConserves(c, initial, s, x);
      }
  }

  lemma InsertedConserves(c: Config, initial: set<nat>, s: Scheduler, x: nat)
    requires Conserved(c, initial, s) && At(s, x, Inserting)
    ensures Conserved(c, initial, s.(existing := s.existing + {x}, inserted := s.inserted + {x}, stage := s.stage - {x}))
  {
    hide Target;
  }

  lemma StageConserves(c: Config, initial: set<nat>, s: Scheduler, x: nat, ok: bool, next: Stage)
    requires Conserved(c, initial, s) && WaitingKnown(s) && InProcessing(s, x) && !At(s, x, Waiting) && next != Inserting
    ensures Conserved(c, initial, MoveOn(s, x, ok, next)) && WaitingKnown(MoveOn(s, x, ok, next))
  {
    hide Conserved;
    if ok {
      MoveConserves(c, initial, s, x, next);
    } else {
      RescheduleConserves(c, initial, s, x);
    }
  }

  lemma HandOverConserves(c: Config, initial: set<nat>, s: Scheduler, x: nat)
    requires Conserved(c, initial, s) && WaitingKnown(s) && At(s, x, Handed)
    ensures var q := s.(processing := s.processing - {x}, stage := s.stage[x := Inserting]);
            Conserved(c, initial, q) && WaitingKnown(q)
  {
    hide Target, NoRepeats;
    var q := s.(processing := s.processing - {x}, stage := s.stage[x := Inserting]);
    assert |q.processing| <= c.maxActive by { SubsetSize(q.processing, s.processing); }
    assert q.stage.Keys == s.stage.Keys;
    assert forall y :: y in q.stage <==> y in s.stage;
    forall y: nat ensures y in q.processing <==> InProcessing(q, y) {
      assert y in s.processing <==> InProcessing(s, y);
    }
  }

  /** Conservation: whatever fails and however messages interleave, at all times every target
      is in exactly one place, nothing is queued twice, and the processing limit is kept. */
  lemma {:induction false} RunConserves(c: Config, initial: set<nat>, s: Scheduler, es: seq<Event>)
    requires Conserved(c, initial, s) && WaitingKnown(s) && Possible(c, s, es)
    ensures Conserved(c, initial, Play(c, s, es)) && WaitingKnown(Play(c, s, es))
    decreases |es|
  {
    hide Conserved, WaitingKnown, Apply;
    if es != [] {
      StepConserves(c, initial, s, es[0]);
      RunConserves(c, initial, Apply(c, s, es[0]), es[1..]);
    }
  }

  lemma StartConserved(c: Config, lastState: nat)
    ensures var s := Initial(c.from, lastState);
            Conserved(c, s.existing, s) && WaitingKnown(s)
  {
  }

  /** Every announced seqno in range that is not stored is queued, on its way or inserted, whatever
      was announced before. */
  lemma AnnouncedIsCovered(c: Config, initial: set<nat>, s: Scheduler, v: nat, x: nat)
    requires Conserved(c, initial, s) && s.lastKnown <= v
    requires 1 <= x <= v && c.from <= x && (c.to == 0 || x <= c.to) && (c.force || x !in initial)
    ensures var t := GotLastKnown(c, s, v);
            x in t.queue || x in t.stage || x in t.inserted
  {
    LastKnownConserves(c, initial, s, v);
    hide Discover;
    var t := GotLastKnown(c, s, v);
    assert x <= t.lastKnown;
    assert Target(c, initial, t.lastKnown, x);
  }
}
