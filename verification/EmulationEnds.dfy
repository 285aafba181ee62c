/** Every emulation comes to an end: a bound on the number of messages, and what holds when none
    is left (ton-trace-emulator/src/TraceEmulator.cpp). */
module EmulationEnds {
  import opened TraceEmulation

  // The messages that a request can still cause: itself, its answer, and those of the requests it
  // leads to, if no transaction sends more than `b` messages.
  function Weight(b: nat, depth: nat): nat {
    2 + if depth == 0 then 0 else b * Weight(b, depth - 1)
  }

  ghost function Pending(b: nat, created: map<ReplyTo, Request>, rs: set<ReplyTo>): nat
    requires rs <= created.Keys
  {
    if rs == {} then 0
    else
      var r :| r in rs;
      Weight(b, created[r].depth) + Pending(b, created, rs - {r})
  }

  ghost function Work(b: nat, s: System): nat
    requires s.requests <= s.created.Keys
  {
    Pending(b, s.created, s.requests) + |s.waiting.Keys| + |s.undelivered|
  }

  lemma {:induction false} PendingRemove(b: nat, created: map<ReplyTo, Request>, rs: set<ReplyTo>, r: ReplyTo)
    requires rs <= created.Keys && r in rs
    ensures Pending(b, created, rs) == Weight(b, created[r].depth) + Pending(b, created, rs - {r})
    decreases |rs|
  {
    hide Weight;
    var x :| x in rs && Pending(b, created, rs) == Weight(b, created[x].depth) + Pending(b, created, rs - {x});
    if x != r {
      PendingRemove(b, created, rs - {x}, r);
      PendingRemove(b, created, rs - {r}, x);
      assert rs - {x} - {r} == rs - {r} - {x};
    }
  }

  lemma {:induction false} PendingUnion(b: nat, created: map<ReplyTo, Request>, xs: set<ReplyTo>, ys: set<ReplyTo>)
    requires xs <= created.Keys && ys <= created.Keys && xs !! ys
    ensures Pending(b, created, xs + ys) == Pending(b, created, xs) + Pending(b, created, ys)
    decreases |ys|
  {
    hide Weight;
    if ys == {} {
      assert xs + ys == xs;
    } else {
      var y :| y in ys;
      PendingRemove(b, created, ys, y);
      PendingRemove(b, created, xs + ys, y);
      assert xs + ys - {y} == xs + (ys - {y});
      PendingUnion(b, created, xs, ys - {y});
    }
  }

  lemma {:induction false} PendingSame(b: nat, created: map<ReplyTo, Request>, more: map<ReplyTo, Request>, rs: set<ReplyTo>)
    requires rs <= created.Keys && rs <= more.Keys && forall r :: r in rs ==> more[r] == created[r]
    ensures Pending(b, more, rs) == Pending(b, created, rs)
    decreases |rs|
  {
    hide Weight;
    if rs != {} {
      var r :| r in rs;
      PendingRemove(b, created, rs, r);
      PendingRemove(b, more, rs, r);
      PendingSame(b, created, more, rs - {r});
    }
  }

  lemma {:induction false} PendingChildren(b: nat, created: map<ReplyTo, Request>, node: NodeId, n: nat, depth: nat)
    requires Children(node, n) <= created.Keys
    requires forall i: nat :: i < n ==> Child(node, i) in created && created[Child(node, i)].depth == depth
    ensures Pending(b, created, Children(node, n)) == n * Weight(b, depth)
    decreases n
  {
    hide Weight;
    if n == 0 {
      assert Children(node, n) == {};
    } else {
      var last := Child(node, n - 1);
      assert Children(node, n) - {last} == Children(node, n - 1);
      PendingRemove(b, created, Children(node, n), last);
      PendingChildren(b, created, node, n - 1, depth);
      assert n * Weight(b, depth) == (n - 1) * Weight(b, depth) + Weight(b, depth);
    }
  }

  predicate Bounded(b: nat, e: Event) {
    e.Emulate? && e.outcome.Success? ==> |e.outcome.outs| <= b
  }

  lemma {:induction false} TargetsFit(outs: seq<OutMsg>)
    ensures |Targets(outs)| <= |outs|
  {
    if outs != [] {
      TargetsFit(outs[1..]);
    }
  }

  lemma RequestsCreated(s: System)
    requires Inv(s)
    ensures s.requests <= s.created.Keys
    ensures forall i: nat :: Child(s.nextId, i) !in s.created
  {
  }

  // Asking children costs no more than the request had left for them.
  lemma AskingPaid(b: nat, created: map<ReplyTo, Request>, more: map<ReplyTo, Request>, rs: set<ReplyTo>, to: ReplyTo,
                   node: NodeId, n: nat, depth: nat)
    requires rs <= created.Keys && to in rs && created[to].depth == depth + 1 && n <= b
    requires rs <= more.Keys && forall r :: r in rs ==> more[r] == created[r]
    requires Children(node, n) <= more.Keys && Children(node, n) !! rs
    requires forall i: nat :: i < n ==> Child(node, i) in more && more[Child(node, i)].depth == depth
    ensures Pending(b, more, rs - {to} + Children(node, n)) + 2 <= Pending(b, created, rs)
  {
    hide Children, Pending;
    PendingRemove(b, created, rs, to);
    PendingSame(b, created, more, rs - {to});
    PendingChildren(b, more, node, n, depth);
    PendingUnion(b, more, rs - {to}, Children(node, n));
    FewerWeigh(b, n, Weight(b, depth));
  }

  lemma FewerWeigh(b: nat, n: nat, w: nat)
    requires n <= b
    ensures n * w <= b * w
  {
    assert b * w == n * w + (b - n) * w;
  }

  lemma RequestedDepth(node: NodeId, msgs: seq<Msg>, depth: nat)
    ensures Requested(node, msgs, depth).Keys == Children(node, |msgs|)
    ensures forall i: nat :: i < |msgs| ==>
              Child(node, i) in Requested(node, msgs, depth) && Requested(node, msgs, depth)[Child(node, i)].depth == depth
  {
  }

  // What is on its way after a request is answered without asking anybody.
  predicate Answered(s: System, t: System, to: ReplyTo) {
    && t.requests == s.requests - {to} && t.created == s.created
    && t.waiting.Keys == s.waiting.Keys && t.undelivered == s.undelivered + {to}
  }

  // What is on its way after children were asked.
  predicate Asked(s: System, t: System, to: ReplyTo, msgs: seq<Msg>, depth: nat) {
    && t.requests == s.requests - {to} + Children(s.nextId, |msgs|)
    && t.created == s.created + Requested(s.nextId, msgs, depth)
    && (|| (t.waiting.Keys == s.waiting.Keys && t.undelivered == s.undelivered + {to})
        || (t.waiting.Keys == s.waiting.Keys + {s.nextId} && t.undelivered == s.undelivered))
  }

  lemma EmulateShape(s: System, to: ReplyTo, outcome: Outcome)
    requires to in s.created
    ensures var t := EmulateStep(s, to, outcome);
            if outcome.Failed? || s.created[to].depth == 0 then Answered(s, t, to)
            else Asked(s, t, to, Targets(outcome.outs), s.created[to].depth - 1)
  {
    hide Targets, Readable, Children, Requested;
  }

  lemma EmulatePays(b: nat, s: System, to: ReplyTo, outcome: Outcome)
    requires Inv(s) && to in s.requests && to in s.created && (outcome.Success? ==> |outcome.outs| <= b)
    ensures var t := EmulateStep(s, to, outcome);
            s.requests <= s.created.Keys && t.requests <= t.created.Keys && Work(b, t) < Work(b, s)
  {
    RequestsCreated(s);
    EmulateShape(s, to, outcome);
    var t := EmulateStep(s, to, outcome);
    hide Inv, EmulateStep, Targets, Answered, Asked, Work;
    if outcome.Failed? || s.created[to].depth == 0 {
      AnsweringPays(b, s, t, to);
    } else {
      TargetsFit(outcome.outs);
      AskingPays(b, s, t, to, Targets(outcome.outs), s.created[to].depth - 1);
    }
  }

  lemma AnsweringPays(b: nat, s: System, t: System, to: ReplyTo)
    requires s.requests <= s.created.Keys && to in s.requests && Answered(s, t, to)
    ensures t.requests <= t.created.Keys && Work(b, t) < Work(b, s)
  {
    hide Pending, Weight;
    PendingRemove(b, s.created, s.requests, to);
    WeightAtLeast(b, s.created[to].depth);
    assert |s.undelivered + {to}| <= |s.undelivered| + 1;
  }

  lemma AskingPays(b: nat, s: System, t: System, to: ReplyTo, msgs: seq<Msg>, depth: nat)
    requires s.requests <= s.created.Keys && to in s.requests && s.created[to].depth == depth + 1 && |msgs| <= b
    requires (forall i: nat :: Child(s.nextId, i) !in s.created) && Asked(s, t, to, msgs, depth)
    ensures t.requests <= t.created.Keys && Work(b, t) < Work(b, s)
  {
    hide Pending, Weight, Children, Requested;
    RequestedDepth(s.nextId, msgs, depth);
    ChildrenFresh(s, |msgs|);
    AskingPaid(b, s.created, t.created, s.requests, to, s.nextId, |msgs|, depth);
    OneMore(s.waiting.Keys, s.nextId);
    OneMore(s.undelivered, to);
  }

  lemma OneMore<T>(xs: set<T>, x: T)
    ensures |xs + {x}| <= |xs| + 1
  {
  }

  lemma ChildrenFresh(s: System, n: nat)
    requires forall i: nat :: Child(s.nextId, i) !in s.created
    ensures forall r :: r in Children(s.nextId, n) ==> r !in s.created
  {
  }

  lemma WeightAtLeast(b: nat, depth: nat)
    ensures Weight(b, depth) >= 2
  {
  }

  lemma DeliverShape(s: System, to: ReplyTo)
    requires Inv(s) && Enabled(s, Deliver(to))
    ensures var t := DeliverStep(s, to);
            && t.requests == s.requests && t.created == s.created
            && (|| (t.waiting.Keys == s.waiting.Keys && t.undelivered == s.undelivered - {to})
                || (to.Child? && to.parent in s.waiting && t.waiting.Keys == s.waiting.Keys - {to.parent} &&
                    t.undelivered == s.undelivered - {to} + {s.waiting[to.parent].replyTo}))
  {
    hide Inv, AllFilled, Values;
  }

  lemma DeliverPays(b: nat, s: System, to: ReplyTo)
    requires Inv(s) && Enabled(s, Deliver(to))
    ensures var t := DeliverStep(s, to);
            s.requests <= s.created.Keys && t.requests <= t.created.Keys && Work(b, t) < Work(b, s)
  {
    RequestsCreated(s);
    DeliverShape(s, to);
    hide Pending, Inv, DeliverStep;
    var t := DeliverStep(s, to);
    if t.waiting.Keys != s.waiting.Keys {
      assert |s.undelivered - {to} + {s.waiting[to.parent].replyTo}| <= |s.undelivered - {to}| + 1;
    }
  }

  lemma {:induction false} RunPays(b: nat, s: System, es: seq<Event>)
    requires Inv(s) && Possible(s, es) && forall e :: e in es ==> Bounded(b, e)
    ensures s.requests <= s.created.Keys && |es| <= Work(b, s)
    decreases |es|
  {
    RequestsCreated(s);
    if es != [] {
      assert es[0] in es && forall e :: e in es[1..] ==> e in es;
      StepKeepsInv(s, es[0]);
      match es[0] {
        case Emulate(to, outcome) => EmulatePays(b, s, to, outcome);
        case Deliver(to) => DeliverPays(b, s, to);
      }
      hide Inv, Work;
      RunPays(b, Apply(s, es[0]), es[1..]);
    }
  }

  /** No run is longer than the weight of the first request, whatever the interleaving, if no
      transaction sends more than `b` messages. */
  lemma RunsEnd(b: nat, msg: Msg, depth: nat, es: seq<Event>)
    requires Possible(Start(msg, depth), es) && forall e :: e in es ==> Bounded(b, e)
    ensures |es| <= Weight(b, depth)
  {
    var s := Start(msg, depth);
    StartInv(msg, depth);
    RunPays(b, s, es);
    PendingRemove(b, s.created, s.requests, Root);
    assert s.requests - {Root} == {};
  }

  /** As long as something is on its way, some message can be handled. */
  lemma QuietIffOver(s: System)
    requires Inv(s)
    ensures Quiet(s) <==> forall e :: !Enabled(s, e)
  {
    RequestsCreated(s);
    if r :| r in s.requests {
      assert Enabled(s, Emulate(r, Failed));
    } else if r :| r in s.undelivered {
      AllCanBeDelivered(s, r);
    }
  }

  /** A run that cannot go on has answered its caller: with a failure, or with a tree of the message
      asked for whose children answer the account-bound out-messages in order, at most one level
      deeper than the depth argument. */
  lemma FinishedRunAnswers(msg: Msg, depth: nat, es: seq<Event>)
    requires Possible(Start(msg, depth), es) && forall e :: !Enabled(Play(Start(msg, depth), es), e)
    ensures var s := Play(Start(msg, depth), es);
            && Root in s.answers && s.answers.Keys == s.created.Keys
            && (s.answers[Root].Ok? ==>
                  var t := s.answers[Root].value;
                  t.msg == msg && WellBuilt(t, depth) && Height(t) <= depth + 1)
  {
    StartInv(msg, depth);
    RunKeepsInv(Start(msg, depth), es);
    hide Start, Play, Possible, WellBuilt, Height, Inv;
    QuietIffOver(Play(Start(msg, depth), es));
    NothingLeftUnanswered(Play(Start(msg, depth), es));
    EmulationCompletes(msg, depth, es);
  }
}
