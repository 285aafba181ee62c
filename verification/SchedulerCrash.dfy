/** Exactly which runs of the scheduler stop the assembler. */
module SchedulerCrash {
  import opened SchedulerModel
  import opened SchedulerProofs
  import opened SchedulerHandOver

  lemma {:induction false} DrainAdvances(s: Scheduler)
    ensures s.expected <= Drain(s).expected
    decreases |s.waiting|
  {
    if s.expected in s.waiting {
      DrainAdvances(s.(waiting := s.waiting - {s.expected}, expected := s.expected + 1,
                       stage := s.stage[s.expected := Assembled]));
    }
  }

  lemma {:induction false} DispatchKeepsExpected(c: Config, s: Scheduler)
    ensures Dispatch(c, s).expected == s.expected && Dispatch(c, s).waiting == s.waiting
    decreases |s.queue|
  {
    if s.queue != [] && |s.processing| < c.maxActive {
      DispatchKeepsExpected(c, DispatchOne(s));
    }
  }

  lemma ExpectedNeverDecreases(c: Config, s: Scheduler, e: Event)
    ensures s.expected <= Apply(c, s, e).expected
  {
    hide Drain, Dispatch;
    match e
    case Parsed(x, ok) =>
      DrainAdvances(s.(waiting := s.waiting + {x}, stage := s.stage[x := Waiting]));
    case Poll => DispatchKeepsExpected(c, s);
    case QueuedToInsert(x, accept) =>
      DispatchKeepsExpected(c, s.(processing := s.processing - {x}, stage := s.stage[x := Inserting]));
    case _ =>
  }

  /** A seqno below the expected one stops the assembler when it is parsed, whatever happens in
      between. */
  lemma {:induction false} ResendIsFatal(c: Config, s: Scheduler, es: seq<Event>, x: nat)
    requires x < s.expected && Possible(c, s, es + [Parsed(x, true)])
    ensures Play(c, s, es + [Parsed(x, true)]).crashed
    decreases |es|
  {
    var all := es + [Parsed(x, true)];
    if es == [] {
      assert all[1..] == [];
      assert Play(c, Apply(c, s, all[0]), []) == Apply(c, s, all[0]);
    } else {
      assert all[0] == es[0] && all[1..] == es[1..] + [Parsed(x, true)];
      ExpectedNeverDecreases(c, s, es[0]);
      hide Apply;
      ResendIsFatal(c, Apply(c, s, es[0]), es[1..], x);
    }
  }

  lemma {:induction false} DispatchKeepsStage(c: Config, s: Scheduler, x: nat)
    requires x !in s.queue && x in s.stage
    ensures x in Dispatch(c, s).stage && Dispatch(c, s).stage[x] == s.stage[x] && Dispatch(c, s).crashed == s.crashed
    decreases |s.queue|
  {
    if s.queue != [] && |s.processing| < c.maxActive {
      DispatchKeepsStage(c, DispatchOne(s), x);
    }
  }

  lemma FirstForced(c: Config, lastState: nat, v: nat)
    requires 1 <= c.from <= v && c.force && (c.to == 0 || c.from <= c.to)
    ensures var s := GotLastKnown(c, Initial(c.from, lastState), v);
            s.queue != [] && s.queue[0] == c.from && c.from !in s.queue[1..]
  {
    hide Discover, Between;
    var existing := Between(c.from, lastState);
    var d := Discover(c, existing, 0, v);
    DiscoverFinds(c, existing, 0, v);
    DiscoverAscends(c, existing, 0, v);
    assert c.from in d;
    var i :| 0 <= i < |d| && d[i] == c.from;
    assert d[0] in d;
  }

  lemma FirstIsFetched(c: Config, s: Scheduler)
    requires s.queue != [] && s.queue[0] !in s.queue[1..] && |s.processing| < c.maxActive
    ensures var t := Dispatch(c, s);
            At(t, s.queue[0], Fetching) && t.expected == s.expected && t.crashed == s.crashed
  {
    DispatchKeepsStage(c, DispatchOne(s), s.queue[0]);
    DispatchKeepsExpected(c, s);
  }

  // With forced indexing over a state that is already past `from`, parsing `from` first is fatal.
  lemma ForcedIndexCanCrash(c: Config, lastState: nat, v: nat)
    requires 1 <= c.from <= lastState && c.force && c.from <= v && (c.to == 0 || c.from <= c.to) && c.maxActive >= 1
    ensures var es := [LastKnown(v), Poll, Fetched(c.from, true), Parsed(c.from, true)];
            var s := Initial(c.from, lastState);
            Possible(c, s, es) && Play(c, s, es).crashed
  {
    var s0 := Initial(c.from, lastState);
    FirstForced(c, lastState, v);
    hide Between, Discover, Dispatch, Possible, Play;
    var s1 := Apply(c, s0, LastKnown(v));
    FirstIsFetched(c, s1);
    PlayFour(c, s0, LastKnown(v), Poll, Fetched(c.from, true), Parsed(c.from, true));
  }

  lemma PlayFour(c: Config, s: Scheduler, a: Event, b: Event, d: Event, e: Event)
    ensures var s1 := Apply(c, s, a);
            var s2 := Apply(c, s1, b);
            var s3 := Apply(c, s2, d);
            && Play(c, s, [a, b, d, e]) == Apply(c, s3, e)
            && (Possible(c, s, [a, b, d, e]) <==> Enabled(s, a) && Enabled(s1, b) && Enabled(s2, d) && Enabled(s3, e))
  {
    hide Apply, Enabled;
    assert [a, b, d, e][1..] == [b, d, e];
    assert [b, d, e][1..] == [d, e];
    assert [d, e][1..] == [e];
    assert [e][1..] == [];
    var s1 := Apply(c, s, a);
    var s2 := Apply(c, s1, b);
    var s3 := Apply(c, s2, d);
    assert Play(c, s3, [e]) == Apply(c, s3, e);
    assert Possible(c, s3, [e]) == Enabled(s3, e);
    assert Play(c, s2, [d, e]) == Play(c, s3, [e]);
    assert Possible(c, s2, [d, e]) == (Enabled(s2, d) && Possible(c, s3, [e]));
  }

  // ---- Exactly which runs crash ----

  // A seqno is parsed that was among `resent` or failed after assembly earlier in the run.
  ghost predicate Resends(resent: set<nat>, es: seq<Event>) {
    exists b :: 0 <= b < |es| && es[b].Parsed? && es[b].ok && (es[b].seqno in resent || FailedLate(es[..b], es[b].seqno))
  }

  ghost predicate FailedLate(es: seq<Event>, x: nat) {
    exists a :: 0 <= a < |es| && LateFailure(es[a]) && es[a].seqno == x
  }

  lemma FailedLateStep(e: Event, es: seq<Event>, resent: set<nat>, x: nat)
    ensures x in resent || FailedLate([e] + es, x) <==> x in NowResent(resent, e) || FailedLate(es, x)
  {
    var all := [e] + es;
    if FailedLate(es, x) {
      var a :| 0 <= a < |es| && LateFailure(es[a]) && es[a].seqno == x;
      assert all[a + 1] == es[a];
    }
    assert all[0] == e;
  }

  lemma ResendsStep(resent: set<nat>, es: seq<Event>)
    requires es != []
    ensures Resends(resent, es) <==>
            (es[0].Parsed? && es[0].ok && es[0].seqno in resent) || Resends(NowResent(resent, es[0]), es[1..])
  {
    var e, rest := es[0], es[1..];
    forall b | 0 <= b < |rest|
      ensures es[b + 1] == rest[b]
      ensures rest[b].Parsed? ==>
                (rest[b].seqno in resent || FailedLate(es[..b + 1], rest[b].seqno) <==>
                 rest[b].seqno in NowResent(resent, e) || FailedLate(rest[..b], rest[b].seqno))
    {
      assert es[..b + 1] == [e] + rest[..b];
      if rest[b].Parsed? {
        FailedLateStep(e, rest[..b], resent, rest[b].seqno);
      }
    }
    if Resends(resent, es) {
      var b :| 0 <= b < |es| && es[b].Parsed? && es[b].ok && (es[b].seqno in resent || FailedLate(es[..b], es[b].seqno));
      if b > 0 {
        assert es[b] == rest[b - 1];
      } else {
        assert !FailedLate(es[..0], es[0].seqno);
      }
    }
    if Resends(NowResent(resent, e), rest) {
      var b :| 0 <= b < |rest| && rest[b].Parsed? && rest[b].ok &&
               (rest[b].seqno in NowResent(resent, e) || FailedLate(rest[..b], rest[b].seqno));
      assert es[b + 1] == rest[b];
    }
  }

  lemma {:induction false} CrashIffResends(c: Config, initial: set<nat>, start: nat, resent: set<nat>, s: Scheduler, es: seq<Event>)
    requires GoodBut(c, initial, start, resent, s) && Possible(c, s, es)
    ensures Play(c, s, es).crashed <==> Resends(resent, es)
    decreases |es|
  {
    if es != [] {
      ResendsStep(resent, es);
      StepOrder(c, initial, start, resent, s, es[0]);
      var t := Apply(c, s, es[0]);
      hide GoodBut, Apply, Resends;
      if t.crashed {
        assert es[1..] == [];
        assert Play(c, t, []) == t;
      } else {
        CrashIffResends(c, initial, start, NowResent(resent, es[0]), t, es[1..]);
      }
    }
  }

  /** For every configuration and every run from start-up: the assembler is stopped exactly when
      a seqno is parsed that failed after assembly earlier in the run, or that forced indexing
      queued although the restored state covers it. */
  lemma CrashIff(c: Config, lastState: nat, es: seq<Event>)
    requires 1 <= c.from && Possible(c, Initial(c.from, lastState), es)
    ensures Play(c, Initial(c.from, lastState), es).crashed <==> Resends(Forced(c, lastState), es)
  {
    StartOrder(c, lastState);
    hide GoodBut, Resends, Forced;
    var s := Initial(c.from, lastState);
    CrashIffResends(c, s.existing, lastState + 1, Forced(c, lastState), s, es);
  }

  // No run in which at most fetching and parsing fail stops the assembler.
  ghost predicate Safe(c: Config, lastState: nat) {
    forall es :: Possible(c, Initial(c.from, lastState), es) && (forall e :: e in es ==> !LateFailure(e)) ==>
      !Play(c, Initial(c.from, lastState), es).crashed
  }

  /** Without failures after assembly the assembler is safe in every run exactly when indexing is
      not forced over a range that the restored state reaches into. */
  lemma SafeIff(c: Config, lastState: nat)
    requires 1 <= c.from && c.maxActive >= 1 && (c.to == 0 || c.from <= c.to)
    ensures Safe(c, lastState) <==> !c.force || lastState < c.from
  {
    hide Possible, Play, Initial, Resends;
    if !c.force || lastState < c.from {
      forall es | Possible(c, Initial(c.from, lastState), es) && forall e :: e in es ==> !LateFailure(e)
        ensures !Play(c, Initial(c.from, lastState), es).crashed
      {
        CrashIff(c, lastState, es);
        assert Forced(c, lastState) == {};
        NothingResent(es);
      }
    } else {
      ForcedIndexCanCrash(c, lastState, c.from);
      var es := [LastKnown(c.from), Poll, Fetched(c.from, true), Parsed(c.from, true)];
      assert Possible(c, Initial(c.from, lastState), es) && forall e :: e in es ==> !LateFailure(e);
    }
  }

  lemma NothingResent(es: seq<Event>)
    requires forall e :: e in es ==> !LateFailure(e)
    ensures !Resends({}, es)
  {
    forall b, x: nat | 0 <= b < |es| ensures !FailedLate(es[..b], x) {}
  }
}
