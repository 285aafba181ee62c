/** Exactly when the assembler can still advance: over runs without failures, and over all runs. */
module SchedulerAdvance {
  import opened Sets
  import opened SchedulerModel
  import opened SchedulerProofs
  import opened SchedulerHandOver
  import opened SchedulerCrash
  import opened SchedulerProgress

  // The seqnos that keep their slot until the expected one has come.
  function Held(s: Scheduler): set<nat> {
    set x | x in s.stage && s.stage[x] in {Fetching, Parsing, Waiting}
  }

  // Counting from the front, the expected seqno finds no slot: the held ones and those queued
  // before it take them all.
  ghost predicate Blocked(c: Config, s: Scheduler) {
    exists i :: 0 <= i < |s.queue| && s.queue[i] == s.expected && i + |Held(s)| >= c.maxActive
  }

  ghost predicate NoFailure(es: seq<Event>) {
    forall e :: e in es ==> !Failure(e)
  }

  // Some run without failures brings the assembler further.
  ghost predicate CanAdvance(c: Config, s: Scheduler) {
    exists es :: Possible(c, s, es) && NoFailure(es) && Play(c, s, es).expected > s.expected
  }

  // Some run at all does.
  ghost predicate CanEverAdvance(c: Config, s: Scheduler) {
    exists es :: Possible(c, s, es) && Play(c, s, es).expected > s.expected
  }

  lemma {:induction false} PlayAppend(c: Config, s: Scheduler, a: seq<Event>, b: seq<Event>)
    ensures Play(c, s, a + b) == Play(c, Play(c, s, a), b)
    ensures Possible(c, s, a) ==> (Possible(c, s, a + b) <==> Possible(c, Play(c, s, a), b))
    decreases |a|
  {
    hide Apply, Enabled;
    if a == [] {
      assert a + b == b;
    } else {
      assert (a + b)[0] == a[0] && (a + b)[1..] == a[1..] + b;
      PlayAppend(c, Apply(c, s, a[0]), a[1..], b);
    }
  }

  lemma PlayOne(c: Config, s: Scheduler, e: Event)
    ensures Play(c, s, [e]) == Apply(c, s, e) && (Possible(c, s, [e]) <==> Enabled(s, e))
  {
    hide Apply, Enabled;
    assert [e][1..] == [];
    assert Play(c, Apply(c, s, e), []) == Apply(c, s, e);
    assert Possible(c, Apply(c, s, e), []);
  }

  // ---- Blocked for good ----

  lemma HeldSize(c: Config, initial: set<nat>, s: Scheduler)
    requires Conserved(c, initial, s)
    ensures Held(s) <= s.processing && |Held(s)| <= |s.processing|
  {
    forall x | x in Held(s) ensures x in s.processing {
      assert InProcessing(s, x);
    }
    SubsetSize(Held(s), s.processing);
  }

  lemma DispatchOneHeld(c: Config, initial: set<nat>, s: Scheduler)
    requires Conserved(c, initial, s) && s.queue != []
    ensures Held(DispatchOne(s)) == Held(s) + {s.queue[0]} && s.queue[0] !in Held(s) && s.queue[0] !in s.processing
    ensures |Held(DispatchOne(s))| == |Held(s)| + 1 && |DispatchOne(s).processing| == |s.processing| + 1
  {
    var x := s.queue[0];
    assert x in s.queue && !InProcessing(s, x);
    assert Held(DispatchOne(s)) == Held(s) + {x};
  }

  lemma {:induction false} DispatchBlocked(c: Config, initial: set<nat>, s: Scheduler)
    requires Conserved(c, initial, s) && Blocked(c, s)
    ensures Blocked(c, Dispatch(c, s)) && Dispatch(c, s).expected == s.expected
    decreases |s.queue|
  {
    if s.queue != [] && |s.processing| < c.maxActive {
      var i :| 0 <= i < |s.queue| && s.queue[i] == s.expected && i + |Held(s)| >= c.maxActive;
      HeldSize(c, initial, s);
      DispatchOneHeld(c, initial, s);
      DispatchOneConserves(c, initial, s);
      var t := DispatchOne(s);
      assert t.queue[i - 1] == s.queue[i];
      assert Blocked(c, t);
      hide Blocked, Conserved;
      DispatchBlocked(c, initial, t);
    }
  }

  // A step that leaves the front of the queue and the held seqnos alone.
  lemma StillBlocked(c: Config, s: Scheduler, t: Scheduler)
    requires Blocked(c, s) && s.queue <= t.queue && Held(t) == Held(s) && t.expected == s.expected
    ensures Blocked(c, t)
  {
    var i :| 0 <= i < |s.queue| && s.queue[i] == s.expected && i + |Held(s)| >= c.maxActive;
    assert t.queue[i] == s.queue[i];
  }

  lemma SendBlocked(c: Config, initial: set<nat>, start: nat, resent: set<nat>, s: Scheduler, x: nat)
    requires GoodBut(c, initial, start, resent, s) && Blocked(c, s) && At(s, x, Parsing)
    ensures var t := SendToAssembler(s, x);
            t.expected == s.expected && (t.crashed || Blocked(c, t))
  {
    assert s.expected in s.queue && s.expected !in s.stage && s.expected !in s.waiting;
    hide GoodBut, Conserved, Blocked;
    if s.expected <= x {
      var q := s.(waiting := s.waiting + {x}, stage := s.stage[x := Waiting]);
      assert SendToAssembler(s, x) == q && Held(q) == Held(s);
      StillBlocked(c, s, q);
    }
  }

  lemma HandedBlocked(c: Config, initial: set<nat>, start: nat, resent: set<nat>, s: Scheduler, x: nat)
    requires GoodBut(c, initial, start, resent, s) && Blocked(c, s) && At(s, x, Handed)
    ensures var q := s.(processing := s.processing - {x}, stage := s.stage[x := Inserting]);
            Blocked(c, q) && Conserved(c, initial, q)
  {
    hide Orderly, Conserved, Blocked;
    HandedGood(c, initial, start, resent, s, x);
    var q := s.(processing := s.processing - {x}, stage := s.stage[x := Inserting]);
    assert Held(q) == Held(s);
    StillBlocked(c, s, q);
  }

  lemma BlockedStep(c: Config, initial: set<nat>, start: nat, resent: set<nat>, s: Scheduler, e: Event)
    requires GoodBut(c, initial, start, resent, s) && Blocked(c, s) && Enabled(s, e) && !Failure(e)
    ensures Apply(c, s, e).expected == s.expected
    ensures Apply(c, s, e).crashed || Blocked(c, Apply(c, s, e))
  {
    hide Discover, Dispatch, SendToAssembler, Orderly, Conserved, Blocked;
    var t := Apply(c, s, e);
    match e
    case Poll => DispatchBlocked(c, initial, s);
    case QueuedToInsert(x, accept) =>
      HandedBlocked(c, initial, start, resent, s, x);
      DispatchBlocked(c, initial, s.(processing := s.processing - {x}, stage := s.stage[x := Inserting]));
    case Parsed(x, _) => SendBlocked(c, initial, start, resent, s, x);
    case _ =>
      assert Held(t) == Held(s);
      StillBlocked(c, s, t);
  }

  lemma {:induction false} BlockedForGood(c: Config, initial: set<nat>, start: nat, resent: set<nat>, s: Scheduler, es: seq<Event>)
    requires GoodBut(c, initial, start, resent, s) && Blocked(c, s) && Possible(c, s, es) && NoFailure(es)
    ensures Play(c, s, es).expected == s.expected
    decreases |es|
  {
    if es != [] {
      assert es[0] in es && forall e :: e in es[1..] ==> e in es;
      BlockedStep(c, initial, start, resent, s, es[0]);
      StepOrder(c, initial, start, resent, s, es[0]);
      var t := Apply(c, s, es[0]);
      hide GoodBut, Blocked, Apply;
      if t.crashed {
        assert es[1..] == [];
      } else {
        BlockedForGood(c, initial, start, NowResent(resent, es[0]), t, es[1..]);
      }
    }
  }

  // ---- The way forward ----

  // A seqno past the assembler can be handed to the insert manager, which frees its slot.
  lemma {:induction false} ReleaseOne(c: Config, initial: set<nat>, start: nat, resent: set<nat>, s: Scheduler, x: nat)
      returns (es: seq<Event>)
    requires GoodBut(c, initial, start, resent, s) && InProcessing(s, x) && After(s, x)
    ensures Possible(c, s, es) && NoFailure(es)
    ensures Play(c, s, es) == s.(processing := s.processing - {x}, stage := s.stage[x := Inserting])
    ensures GoodBut(c, initial, start, resent, Play(c, s, es))
    decreases Steps(s.stage[x])
  {
    hide GoodBut;
    if At(s, x, Handed) {
      es := ReleaseHanded(c, initial, start, resent, s, x);
    } else {
      MoveUp(c, initial, start, resent, s, x);
      var e, next := NextEvent(s.stage[x], x), NextStage(s.stage[x]);
      var t := s.(stage := s.stage[x := next]);
      assert InProcessing(t, x) && After(t, x);
      hide GoodBut, NextEvent, Apply, Enabled, InProcessing, After, Failure, Play, Possible;
      PlayOne(c, s, e);
      var rest := ReleaseOne(c, initial, start, resent, t, x);
      es := [e] + rest;
      PlayAppend(c, s, [e], rest);
      assert t.stage[x := Inserting] == s.stage[x := Inserting];
    }
  }

  lemma ReleaseHanded(c: Config, initial: set<nat>, start: nat, resent: set<nat>, s: Scheduler, x: nat)
      returns (es: seq<Event>)
    requires GoodBut(c, initial, start, resent, s) && At(s, x, Handed)
    ensures Possible(c, s, es) && NoFailure(es)
    ensures Play(c, s, es) == s.(processing := s.processing - {x}, stage := s.stage[x := Inserting])
    ensures GoodBut(c, initial, start, resent, Play(c, s, es))
  {
    hide GoodBut, Play, Possible;
    es := [QueuedToInsert(x, false)];
    HandedGood(c, initial, start, resent, s, x);
    GoodParts(c, initial, start, resent, s);
    PlayOne(c, s, es[0]);
  }

  // The next message about a seqno past the assembler, if nothing fails.
  lemma MoveUp(c: Config, initial: set<nat>, start: nat, resent: set<nat>, s: Scheduler, x: nat)
    requires GoodBut(c, initial, start, resent, s) && InProcessing(s, x) && After(s, x) && !At(s, x, Handed)
    ensures var e, t := NextEvent(s.stage[x], x), s.(stage := s.stage[x := NextStage(s.stage[x])]);
            Enabled(s, e) && !Failure(e) && Apply(c, s, e) == t && GoodBut(c, initial, start, resent, t)
  {
    assert x in s.stage;
    assert s.stage[x] in {Assembled, Interfaces, Actions} by {
      assert Conserved(c, initial, s);
    }
    MoveGood(c, initial, start, resent, s, x, NextStage(s.stage[x]));
    assert !s.crashed;
  }

  function Steps(st: Stage): nat {
    match st
    case Assembled => 4
    case Interfaces => 3
    case Actions => 2
    case _ => 1
  }

  function NextStage(st: Stage): Stage {
    match st
    case Assembled => Interfaces
    case Interfaces => Actions
    case _ => Handed
  }

  function NextEvent(st: Stage, x: nat): Event {
    match st
    case Assembled => TracesAssembled(x)
    case Interfaces => InterfacesProcessed(x, true)
    case _ => ActionsProcessed(x, true)
  }

  // All slots that are not held can be freed.
  lemma {:induction false} ReleaseAll(c: Config, initial: set<nat>, start: nat, resent: set<nat>, s: Scheduler)
      returns (es: seq<Event>)
    requires GoodBut(c, initial, start, resent, s)
    ensures Possible(c, s, es) && NoFailure(es)
    ensures var t := Play(c, s, es);
            && GoodBut(c, initial, start, resent, t) && t.queue == s.queue && t.expected == s.expected
            && t.waiting == s.waiting && Held(t) == Held(s) && t.processing == Held(s)
    decreases |s.processing|
  {
    hide GoodBut, Held, After, InProcessing;
    if s.processing == Held(s) {
      es := [];
    } else {
      var x := NotHeld(c, initial, start, resent, s);
      var first := ReleaseOne(c, initial, start, resent, s, x);
      var t := Play(c, s, first);
      var rest := ReleaseAll(c, initial, start, resent, t);
      es := first + rest;
      PlayAppend(c, s, first, rest);
    }
  }

  lemma NotHeld(c: Config, initial: set<nat>, start: nat, resent: set<nat>, s: Scheduler) returns (x: nat)
    requires GoodBut(c, initial, start, resent, s) && s.processing != Held(s)
    ensures x in s.processing && InProcessing(s, x) && After(s, x)
    ensures Held(s.(processing := s.processing - {x}, stage := s.stage[x := Inserting])) == Held(s)
    ensures |s.processing - {x}| < |s.processing|
  {
    HeldSize(c, initial, s);
    assert s.processing == Held(s) + (s.processing - Held(s));
    x := Member(s.processing - Held(s));
    assert InProcessing(s, x);
  }

  // Dispatching reaches a seqno that has fewer before it than there are free slots.
  lemma {:induction false} DispatchReaches(c: Config, initial: set<nat>, s: Scheduler, i: nat)
    requires Conserved(c, initial, s) && i < |s.queue| && i + |s.processing| < c.maxActive
    ensures var t := Dispatch(c, s);
            At(t, s.queue[i], Fetching) && t.expected == s.expected && t.waiting == s.waiting && t.crashed == s.crashed
    decreases i
  {
    DispatchOneHeld(c, initial, s);
    DispatchOneConserves(c, initial, s);
    DispatchKeepsExpected(c, s);
    var t := DispatchOne(s);
    if i == 0 {
      assert s.queue[0] !in t.queue;
      DispatchKeepsStage(c, t, s.queue[0]);
    } else {
      hide Conserved;
      assert t.queue[i - 1] == s.queue[i];
      DispatchReaches(c, initial, t, i - 1);
    }
  }

  // Once the expected seqno is being fetched or parsed, it only has to arrive.
  lemma ParsedAdvances(c: Config, s: Scheduler)
    requires At(s, s.expected, Parsing) && !s.crashed
    ensures Enabled(s, Parsed(s.expected, true)) && Apply(c, s, Parsed(s.expected, true)).expected > s.expected
  {
    var x := s.expected;
    var t := s.(waiting := s.waiting + {x}, stage := s.stage[x := Waiting]);
    var u := t.(waiting := t.waiting - {x}, expected := x + 1, stage := t.stage[x := Assembled]);
    assert Drain(t) == Drain(u);
    DrainAdvances(u);
  }

  lemma ArrivalRun(c: Config, s: Scheduler) returns (es: seq<Event>)
    requires (At(s, s.expected, Fetching) || At(s, s.expected, Parsing)) && !s.crashed
    ensures Possible(c, s, es) && NoFailure(es) && Play(c, s, es).expected > s.expected
  {
    var x := s.expected;
    var p := Parsed(x, true);
    if At(s, x, Parsing) {
      es := [p];
      ParsedAdvances(c, s);
      PlayOne(c, s, p);
    } else {
      var f := Fetched(x, true);
      var t := Apply(c, s, f);
      ParsedAdvances(c, t);
      PlayOne(c, s, f);
      PlayOne(c, t, p);
      PlayAppend(c, s, [f], [p]);
      es := [f] + [p];
    }
  }

  // Freeing slots, dispatching and letting the expected seqno arrive.
  lemma UnblockedRun(c: Config, initial: set<nat>, start: nat, resent: set<nat>, s: Scheduler, i: nat)
      returns (es: seq<Event>)
    requires GoodBut(c, initial, start, resent, s)
    requires i < |s.queue| && s.queue[i] == s.expected && i + |Held(s)| < c.maxActive
    ensures Possible(c, s, es) && NoFailure(es) && Play(c, s, es).expected > s.expected
  {
    var first := ReleaseAll(c, initial, start, resent, s);
    var t := Play(c, s, first);
    DispatchReaches(c, initial, t, i);
    var u := Apply(c, t, Poll);
    assert Enabled(t, Poll) && !u.crashed && u.expected == s.expected;
    hide GoodBut, Dispatch, Apply, Enabled, Held, Play, Possible;
    PlayOne(c, t, Poll);
    PlayAppend(c, s, first, [Poll]);
    var last := ArrivalRun(c, u);
    PlayAppend(c, s, first + [Poll], last);
    es := first + [Poll] + last;
  }

  // The expected seqno, if it is due, has not been seen by the assembler.
  lemma DueIsBefore(c: Config, initial: set<nat>, start: nat, resent: set<nat>, s: Scheduler)
    requires GoodBut(c, initial, start, resent, s) && Target(c, initial, s.lastKnown, s.expected)
    ensures Before(s, s.expected) && (s.expected in s.queue ==> s.expected !in s.stage)
  {
    var x := s.expected;
    assert x in s.queue || x in s.stage || x in s.inserted;
    assert !After(s, x) && !At(s, x, Waiting);
  }

  /** While the expected seqno is due: some run without failures advances the assembler exactly
      when the expected seqno is not blocked, that is, unless it is queued behind so many others
      that these and the held seqnos take all slots. */
  lemma AdvanceIff(c: Config, initial: set<nat>, start: nat, resent: set<nat>, s: Scheduler)
    requires GoodBut(c, initial, start, resent, s) && Target(c, initial, s.lastKnown, s.expected)
    ensures CanAdvance(c, s) <==> !Blocked(c, s)
  {
    if Blocked(c, s) {
      forall es | Possible(c, s, es) && NoFailure(es) ensures Play(c, s, es).expected == s.expected {
        BlockedForGood(c, initial, start, resent, s, es);
      }
    } else {
      DueIsBefore(c, initial, start, resent, s);
      if s.expected in s.queue {
        var i :| 0 <= i < |s.queue| && s.queue[i] == s.expected;
        var es := UnblockedRun(c, initial, start, resent, s, i);
      } else {
        var es := ArrivalRun(c, s);
      }
    }
  }

  // ---- What one failure does ----

  /** When fetching or parsing the expected seqno fails, runs without further failures still
      advance the assembler exactly if, before the failure, everything queued and everything held
      fitted into the slots. */
  lemma FailureBlocksIff(c: Config, initial: set<nat>, start: nat, resent: set<nat>, s: Scheduler, e: Event)
    requires GoodBut(c, initial, start, resent, s) && Enabled(s, e)
    requires e == Fetched(s.expected, false) || e == Parsed(s.expected, false)
    ensures CanAdvance(c, Apply(c, s, e)) <==> |s.queue| + |Held(s)| <= c.maxActive
  {
    var x, t := s.expected, Apply(c, s, e);
    assert t == Reschedule(s, x);
    RescheduleGood(c, initial, start, resent, s, x);
    assert Held(t) == Held(s) - {x} && x in Held(s);
    assert t.queue[|s.queue|] == x;
    assert Target(c, initial, t.lastKnown, t.expected);
    BlockedAt(c, initial, t, |s.queue|);
    AdvanceIff(c, initial, start, resent, t);
  }

  lemma BlockedAt(c: Config, initial: set<nat>, s: Scheduler, i: nat)
    requires Conserved(c, initial, s) && i < |s.queue| && s.queue[i] == s.expected
    ensures Blocked(c, s) <==> i + |Held(s)| >= c.maxActive
  {
    if Blocked(c, s) {
      var j :| 0 <= j < |s.queue| && s.queue[j] == s.expected && j + |Held(s)| >= c.maxActive;
      assert i == j;
    }
  }

  lemma {:induction false} DispatchMoves(c: Config, initial: set<nat>, s: Scheduler)
    requires Conserved(c, initial, s)
    ensures |Dispatch(c, s).queue| + |Held(Dispatch(c, s))| == |s.queue| + |Held(s)|
    decreases |s.queue|
  {
    if s.queue != [] && |s.processing| < c.maxActive {
      DispatchOneHeld(c, initial, s);
      DispatchOneConserves(c, initial, s);
      hide Conserved, Held;
      DispatchMoves(c, initial, DispatchOne(s));
    }
  }

  // The state in which the first seqno is being fetched, after start-up and one announcement.
  lemma FirstDispatch(c: Config, lastState: nat, v: nat)
    requires 1 <= c.from <= lastState + 1 && !c.force && c.maxActive >= 1 && lastState + 1 < End(c, lastState + 1, v)
    ensures var s0 := Initial(c.from, lastState);
            var s1 := Apply(c, s0, LastKnown(v));
            var s2 := Apply(c, s1, Poll);
            && Enabled(s0, LastKnown(v)) && Enabled(s1, Poll) && Good(c, s0.existing, lastState + 1, s2)
            && s2.expected == lastState + 1 && At(s2, s2.expected, Fetching)
            && |s2.queue| + |Held(s2)| == End(c, lastState + 1, v) - (lastState + 1)
  {
    var start := lastState + 1;
    var s0 := Initial(c.from, lastState);
    StartGood(c, lastState);
    assert Starts(c, s0.existing, start) && Fifo(c, start, s0, start);
    LastKnownFifo(c, s0.existing, start, s0, start, v);
    StepGood(c, s0.existing, start, s0, LastKnown(v));
    var s1 := Apply(c, s0, LastKnown(v));
    assert s1.queue[0] == start && Held(s1) == {} && s1.processing == {};
    DispatchReaches(c, s0.existing, s1, 0);
    DispatchMoves(c, s0.existing, s1);
    StepGood(c, s0.existing, start, s1, Poll);
  }

  /** From start-up, with any number of slots: if the very first fetch fails, runs without further
      failures still advance the assembler exactly when not more seqnos were announced than there
      are slots. */
  lemma OneFailureBlocksIff(c: Config, lastState: nat, v: nat)
    requires 1 <= c.from <= lastState + 1 && !c.force && c.maxActive >= 1 && lastState + 1 < End(c, lastState + 1, v)
    ensures var s := Initial(c.from, lastState);
            var es := [LastKnown(v), Poll, Fetched(lastState + 1, false)];
            && Possible(c, s, es)
            && (CanAdvance(c, Play(c, s, es)) <==> End(c, lastState + 1, v) - (lastState + 1) <= c.maxActive)
  {
    var s0 := Initial(c.from, lastState);
    FirstDispatch(c, lastState, v);
    hide Apply, Enabled, Initial, CanAdvance, Good, Held;
    var s1 := Apply(c, s0, LastKnown(v));
    var s2 := Apply(c, s1, Poll);
    var e := Fetched(lastState + 1, false);
    assert Good(c, s0.existing, lastState + 1, s2) && Enabled(s2, e) by {
      FetchEnabled(c, s0.existing, lastState + 1, s2);
    }
    FailureOfGood(c, s0.existing, lastState + 1, s2);
    PlayOne(c, s0, LastKnown(v));
    PlayOne(c, s1, Poll);
    PlayOne(c, s2, e);
    PlayAppend(c, s0, [LastKnown(v)], [Poll]);
    PlayAppend(c, s0, [LastKnown(v)] + [Poll], [e]);
    assert [LastKnown(v)] + [Poll] + [e] == [LastKnown(v), Poll, e];
  }

  lemma FetchEnabled(c: Config, initial: set<nat>, start: nat, s: Scheduler)
    requires Good(c, initial, start, s) && At(s, s.expected, Fetching)
    ensures Enabled(s, Fetched(s.expected, false))
  {
  }

  lemma FailureOfGood(c: Config, initial: set<nat>, start: nat, s: Scheduler)
    requires Good(c, initial, start, s) && Enabled(s, Fetched(s.expected, false))
    ensures CanAdvance(c, Apply(c, s, Fetched(s.expected, false))) <==> |s.queue| + |Held(s)| <= c.maxActive
  {
    FailureBlocksIff(c, initial, start, {}, s, Fetched(s.expected, false));
  }

  // ---- Over all runs ----

  // Letting a seqno fail that is being fetched or parsed.
  function FailEvent(st: Stage, x: nat): Event {
    if st == Fetching then Fetched(x, false) else Parsed(x, false)
  }

  // If everything that can fail does, only the waiting seqnos keep their slots, and nothing
  // before the old end of the queue moves.
  lemma {:induction false} FailAll(c: Config, initial: set<nat>, start: nat, resent: set<nat>, s: Scheduler)
      returns (es: seq<Event>)
    requires GoodBut(c, initial, start, resent, s)
    ensures Possible(c, s, es)
    ensures var t := Play(c, s, es);
            && GoodBut(c, initial, start, resent, t) && s.queue <= t.queue && t.expected == s.expected
            && t.waiting == s.waiting && Held(t) == s.waiting
    decreases |Held(s)|
  {
    hide GoodBut, Held;
    if Held(s) == s.waiting {
      es := [];
    } else {
      var x := NotWaiting(c, initial, start, resent, s);
      var e := FailEvent(s.stage[x], x);
      PlayOne(c, s, e);
      var rest := FailAll(c, initial, start, resent, Apply(c, s, e));
      es := [e] + rest;
      PlayAppend(c, s, [e], rest);
    }
  }

  lemma NotWaiting(c: Config, initial: set<nat>, start: nat, resent: set<nat>, s: Scheduler) returns (x: nat)
    requires GoodBut(c, initial, start, resent, s) && Held(s) != s.waiting
    ensures x in s.stage && Enabled(s, FailEvent(s.stage[x], x))
    ensures var t := Apply(c, s, FailEvent(s.stage[x], x));
            && GoodBut(c, initial, start, resent, t) && s.queue <= t.queue && t.expected == s.expected
            && t.waiting == s.waiting && |Held(t)| < |Held(s)|
  {
    assert s.waiting <= Held(s) by {
      forall y | y in s.waiting ensures y in Held(s) {
        assert At(s, y, Waiting);
      }
    }
    assert Held(s) == s.waiting + (Held(s) - s.waiting);
    x := Member(Held(s) - s.waiting);
    assert !At(s, x, Waiting);
    var t := Apply(c, s, FailEvent(s.stage[x], x));
    assert t == Reschedule(s, x);
    assert Held(t) == Held(s) - {x};
    RescheduleGood(c, initial, start, resent, s, x);
  }

  // As long as one slot is not taken by a waiting seqno, failures can bring the expected seqno to
  // the front.
  lemma {:induction false} RotatingRun(c: Config, initial: set<nat>, start: nat, resent: set<nat>, s: Scheduler, i: nat)
      returns (es: seq<Event>)
    requires GoodBut(c, initial, start, resent, s) && |s.waiting| < c.maxActive
    requires i < |s.queue| && s.queue[i] == s.expected
    ensures Possible(c, s, es) && Play(c, s, es).expected > s.expected
    decreases i
  {
    hide GoodBut, Held;
    var fails := FailAll(c, initial, start, resent, s);
    var t := Play(c, s, fails);
    assert t.queue[i] == s.queue[i];
    if i + |Held(t)| < c.maxActive {
      var rest := UnblockedRun(c, initial, start, resent, t, i);
      es := fails + rest;
      PlayAppend(c, s, fails, rest);
    } else {
      var frees := ReleaseAll(c, initial, start, resent, t);
      var u := Play(c, t, frees);
      var polled, j := PollBrings(c, initial, start, resent, u, i);
      var rest := RotatingRun(c, initial, start, resent, polled, j);
      PlayOne(c, u, Poll);
      PlayAppend(c, s, fails, frees);
      PlayAppend(c, s, fails + frees, [Poll]);
      PlayAppend(c, s, fails + frees + [Poll], rest);
      es := fails + frees + [Poll] + rest;
    }
  }

  // Dispatching with a free slot moves the expected seqno up, if it does not reach it.
  lemma PollBrings(c: Config, initial: set<nat>, start: nat, resent: set<nat>, s: Scheduler, i: nat)
      returns (t: Scheduler, j: nat)
    requires GoodBut(c, initial, start, resent, s) && |s.processing| < c.maxActive
    requires i < |s.queue| && s.queue[i] == s.expected && i + |s.processing| >= c.maxActive
    ensures Enabled(s, Poll) && t == Apply(c, s, Poll) && GoodBut(c, initial, start, resent, t)
    ensures t.expected == s.expected && t.waiting == s.waiting
    ensures j < |t.queue| && j < i && t.queue[j] == s.expected
  {
    t := Dispatch(c, s);
    DispatchOrderly(c, initial, start, resent, s);
    DispatchKeepsExpected(c, s);
    var k := c.maxActive - |s.processing|;
    DispatchTakes(c, initial, s, k);
    j := i - k;
  }

  lemma {:induction false} DispatchTakes(c: Config, initial: set<nat>, s: Scheduler, k: nat)
    requires Conserved(c, initial, s) && |s.processing| + k == c.maxActive && k <= |s.queue|
    ensures Dispatch(c, s).queue == s.queue[k..]
    decreases k
  {
    if k > 0 {
      DispatchOneHeld(c, initial, s);
      DispatchOneConserves(c, initial, s);
      hide Conserved, Held;
      var t := DispatchOne(s);
      DispatchTakes(c, initial, t, k - 1);
      assert t.queue[k - 1..] == s.queue[k..];
    }
  }

  lemma WedgedIffFull(c: Config, initial: set<nat>, start: nat, resent: set<nat>, s: Scheduler)
    requires GoodBut(c, initial, start, resent, s)
    ensures Wedged(c, s) <==> |s.waiting| >= c.maxActive && s.expected in s.queue
  {
    assert s.waiting <= s.processing by {
      forall x | x in s.waiting ensures x in s.processing {
        assert At(s, x, Waiting) && InProcessing(s, x);
      }
    }
    SubsetSize(s.waiting, s.processing);
    if |s.waiting| >= c.maxActive {
      SameSize(s.waiting, s.processing);
    }
    if Wedged(c, s) {
      assert s.processing <= s.waiting;
      assert s.processing == s.waiting;
    }
  }

  /** While the expected seqno is due: no run at all, whatever fails or succeeds in it, advances
      the assembler exactly when the waiting seqnos have all slots and the expected one is queued. */
  lemma NeverAgainIffWedged(c: Config, initial: set<nat>, start: nat, resent: set<nat>, s: Scheduler)
    requires GoodBut(c, initial, start, resent, s) && Target(c, initial, s.lastKnown, s.expected)
    ensures CanEverAdvance(c, s) <==> !(|s.waiting| >= c.maxActive && s.expected in s.queue)
  {
    WedgedIffFull(c, initial, start, resent, s);
    assert WaitingKnown(s) && Conserved(c, initial, s) && !s.crashed;
    DueIsBefore(c, initial, start, resent, s);
    hide GoodBut, Wedged, Conserved, WaitingKnown;
    if Wedged(c, s) {
      forall es | Possible(c, s, es) ensures Play(c, s, es).expected == s.expected {
        WedgedForever(c, initial, s, es);
      }
    } else if s.expected in s.queue {
      var i :| 0 <= i < |s.queue| && s.queue[i] == s.expected;
      var es := RotatingRun(c, initial, start, resent, s, i);
    } else {
      var es := ArrivalRun(c, s);
    }
  }

  // ---- Without failures ----

  /** From start-up, in every run without failures, the assembler can always be advanced as long
      as the seqno it expects has been announced. */
  lemma AlwaysCanAdvance(c: Config, lastState: nat, es: seq<Event>)
    requires 1 <= c.from <= lastState + 1 && !c.force && c.maxActive > 0
    requires Possible(c, Initial(c.from, lastState), es) && NoFailure(es)
    ensures var s := Play(c, Initial(c.from, lastState), es);
            Target(c, Initial(c.from, lastState).existing, s.lastKnown, s.expected) ==> CanAdvance(c, s)
  {
    var s, start := Initial(c.from, lastState), lastState + 1;
    StartGood(c, lastState);
    assert Starts(c, s.existing, start) && Fifo(c, start, s, start);
    hide Starts, Fifo, Initial, Play, Possible, Failure, Conserved, CanAdvance, Orderly;
    var after := RunFifo(c, s.existing, start, s, start, es);
    var t := Play(c, s, es);
    FifoUnblocked(c, s.existing, start, t, after);
    if Target(c, s.existing, t.lastKnown, t.expected) {
      AdvanceIff(c, s.existing, start, {}, t);
    }
  }

  lemma FifoUnblocked(c: Config, initial: set<nat>, start: nat, s: Scheduler, next: nat)
    requires Good(c, initial, start, s) && Fifo(c, start, s, next) && c.maxActive > 0
    ensures !Blocked(c, s)
  {
    if s.expected in s.queue {
      assert s.queue[0] in s.queue && Before(s, s.queue[0]);
      assert s.queue[0] == s.expected == next;
      forall x | x in Held(s) ensures false {
        assert At(s, x, Waiting) ==> x in s.waiting;
        assert !At(s, x, Waiting) ==> Before(s, x);
      }
      assert Held(s) == {};
      BlockedAt(c, initial, s, 0);
    }
  }
}
