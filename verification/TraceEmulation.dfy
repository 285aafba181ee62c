/** Assembling a trace tree from asynchronous replies: every node waits for the trees of its
    out-messages and then answers its own parent (ton-trace-emulator/src/TraceEmulator.cpp). */
module TraceEmulation {
  import opened Wrappers

  type Msg = nat
  type NodeId = nat

  // An out-message of an emulated transaction: sent outside, to an account, or unreadable.
  datatype OutMsg = External | Internal(msg: Msg) | Unreadable

  datatype Tree = Tree(msg: Msg, outs: seq<OutMsg>, children: seq<Tree>)

  // What the emulator says about one message; it depends on account states not shown here.
  datatype Outcome = Failed | Success(outs: seq<OutMsg>)

  // Whom to answer. Node identities are never reused, so this names the promise itself.
  datatype ReplyTo = Root | Child(parent: NodeId, ind: nat)

  datatype Request = Request(msg: Msg, depth: nat)

  datatype Entry = Entry(request: Request, outs: seq<OutMsg>, slots: seq<Option<Tree>>, replyTo: ReplyTo)

  // `waiting` are the nodes that wait for children. Every promise made is in `created`; it is
  // a request under way (`requests`), held by a waiting node, or answered (`answers`).
  // Answers not yet delivered to their parent are in `undelivered`.
  datatype System = System(waiting: map<NodeId, Entry>, created: map<ReplyTo, Request>, requests: set<ReplyTo>,
                           answers: map<ReplyTo, Result<Tree>>, undelivered: set<ReplyTo>, nextId: NodeId)

  datatype Event = Emulate(to: ReplyTo, outcome: Outcome) | Deliver(to: ReplyTo)

  // The account-bound messages up to the first unreadable one, in order.
  function Targets(outs: seq<OutMsg>): seq<Msg> {
    if outs == [] || outs[0].Unreadable? then []
    else if outs[0].Internal? then [outs[0].msg] + Targets(outs[1..])
    else Targets(outs[1..])
  }

  predicate Readable(outs: seq<OutMsg>) {
    outs == [] || (!outs[0].Unreadable? && Readable(outs[1..]))
  }

  predicate AllFilled(slots: seq<Option<Tree>>) {
    forall i :: 0 <= i < |slots| ==> slots[i].Some?
  }

  function Values(slots: seq<Option<Tree>>): seq<Tree>
    requires AllFilled(slots)
  {
    seq(|slots|, i requires 0 <= i < |slots| => slots[i].value)
  }

  function Answer(s: System, to: ReplyTo, r: Result<Tree>): System {
    s.(answers := s.answers[to := r], undelivered := s.undelivered + {to})
  }

  function Children(node: NodeId, n: nat): set<ReplyTo> {
    set i | 0 <= i < n :: Child(node, i)
  }

  function Requested(node: NodeId, msgs: seq<Msg>, depth: nat): map<ReplyTo, Request> {
    map r | r in Children(node, |msgs|) :: Request(msgs[r.ind], depth)
  }

  // The slot that a reply is for exists.
  predicate InBounds(s: System, to: ReplyTo) {
    to.Child? && to.parent in s.waiting ==> to.ind < |s.waiting[to.parent].slots|
  }

  predicate Enabled(s: System, e: Event) {
    match e
    case Emulate(to, _) => to in s.requests && to in s.created
    case Deliver(to) => to in s.undelivered && to in s.answers && InBounds(s, to)
  }

  // Requests to the children of a new node.
  function WithChildren(s: System, msgs: seq<Msg>, depth: nat): System {
    s.(created := s.created + Requested(s.nextId, msgs, depth),
       requests := s.requests + Children(s.nextId, |msgs|), nextId := s.nextId + 1)
  }

  // A transaction whose messages are followed further. By the time an unreadable message is
  // found, the ones before it have been sent.
  function Expand(s: System, to: ReplyTo, q: Request, outs: seq<OutMsg>): System
    requires q.depth > 0
  {
    var msgs := Targets(outs);
    var u := WithChildren(s, msgs, q.depth - 1);
    if !Readable(outs) then Answer(u, to, Err)
    else if msgs == [] then Answer(u, to, Ok(Tree(q.msg, outs, [])))
    else u.(waiting := u.waiting[s.nextId := Entry(q, outs, seq(|msgs|, _ => None), to)])
  }

  function EmulateStep(s: System, to: ReplyTo, outcome: Outcome): System
    requires to in s.created
  {
    var q := s.created[to];
    var t := s.(requests := s.requests - {to});
    if outcome.Failed? then Answer(t, to, Err)
    else if q.depth == 0 then Answer(t, to, Ok(Tree(q.msg, outcome.outs, [])))
    else Expand(t, to, q, outcome.outs)
  }

  function DeliverStep(s: System, to: ReplyTo): System
    requires to in s.answers && InBounds(s, to)
  {
    var t := s.(undelivered := s.undelivered - {to});
    if to.Root? || to.parent !in t.waiting then t
    else
      var n, e := to.parent, t.waiting[to.parent];
      match s.answers[to]
      case Err => Answer(t.(waiting := t.waiting - {n}), e.replyTo, Err)
      case Ok(tree) =>
        var slots := e.slots[to.ind := Some(tree)];
        if AllFilled(slots)
        then Answer(t.(waiting := t.waiting - {n}), e.replyTo, Ok(Tree(e.request.msg, e.outs, Values(slots))))
        else t.(waiting := t.waiting[n := e.(slots := slots)])
  }

  function Apply(s: System, e: Event): System
    requires Enabled(s, e)
  {
    match e
    case Emulate(to, outcome) => EmulateStep(s, to, outcome)
    case Deliver(to) => DeliverStep(s, to)
  }

  function Start(msg: Msg, depth: nat): System {
    System(map[], map[Root := Request(msg, depth)], {Root}, map[], {}, 0)
  }

  predicate Possible(s: System, es: seq<Event>)
    decreases |es|
  {
    es == [] || (Enabled(s, es[0]) && Possible(Apply(s, es[0]), es[1..]))
  }

  function Play(s: System, es: seq<Event>): System
    requires Possible(s, es)
    decreases |es|
  {
    if es == [] then s else Play(Apply(s, es[0]), es[1..])
  }

  // ---- What a correct tree is ----

  // The i-th child answers the i-th account-bound message, down to the given depth.
  ghost predicate WellBuilt(t: Tree, depth: nat)
    decreases depth
  {
    if depth == 0 then t.children == []
    else
      && Readable(t.outs)
      && |t.children| == |Targets(t.outs)|
      && (forall i :: 0 <= i < |t.children| ==> t.children[i].msg == Targets(t.outs)[i] && WellBuilt(t.children[i], depth - 1))
  }

  function Height(t: Tree): nat {
    1 + MaxHeight(t.children)
  }

  function MaxHeight(ts: seq<Tree>): nat {
    if ts == [] then 0
    else
      var a, b := Height(ts[0]), MaxHeight(ts[1..]);
      if a < b then b else a
  }

  lemma {:induction false} HeightBound(t: Tree, depth: nat)
    requires WellBuilt(t, depth)
    ensures Height(t) <= depth + 1
    decreases depth, 1, 0
  {
    if depth > 0 {
      MaxHeightBound(t.children, depth - 1);
    }
  }

  lemma {:induction false} MaxHeightBound(ts: seq<Tree>, depth: nat)
    requires forall i :: 0 <= i < |ts| ==> WellBuilt(ts[i], depth)
    ensures MaxHeight(ts) <= depth + 1
    decreases depth + 1, 0, |ts|
  {
    if ts != [] {
      HeightBound(ts[0], depth);
      MaxHeightBound(ts[1..], depth);
    }
  }

  // ---- The invariant ----

  // The promise with which a waiting node will answer.
  ghost predicate HeldBy(s: System, n: NodeId, r: ReplyTo) {
    n in s.waiting && s.waiting[n].replyTo == r
  }

  ghost predicate Held(s: System, r: ReplyTo) {
    exists n :: HeldBy(s, n, r)
  }

  // Every promise is in exactly one place.
  ghost predicate OnePlace(s: System) {
    && (forall r :: r in s.created <==> r in s.requests || Held(s, r) || r in s.answers)
    && (forall r :: r in s.requests ==> !Held(s, r) && r !in s.answers)
    && (forall r :: Held(s, r) ==> r !in s.answers)
    && (forall n, k :: n in s.waiting && k in s.waiting && s.waiting[n].replyTo == s.waiting[k].replyTo ==> n == k)
    && s.undelivered <= s.answers.Keys
    && (forall r :: r in s.created && r.Child? ==> r.parent < s.nextId)
  }

  ghost predicate EntryRight(s: System, n: NodeId, e: Entry) {
    && e.replyTo in s.created && s.created[e.replyTo] == e.request && e.request.depth > 0
    && n < s.nextId && Readable(e.outs) && |e.slots| == |Targets(e.outs)| && !AllFilled(e.slots)
    && (forall i :: 0 <= i < |e.slots| ==> SlotRight(s, n, e, i))
    && (forall r :: r in s.created && r.Child? && r.parent == n ==> r.ind < |e.slots|)
  }

  // Slot `i` was asked of a child, and is filled exactly when the child's tree was delivered.
  ghost predicate SlotRight(s: System, n: NodeId, e: Entry, i: nat)
    requires i < |e.slots| && |e.slots| == |Targets(e.outs)| && e.request.depth > 0
  {
    var r := Child(n, i);
    && r in s.created && s.created[r] == Request(Targets(e.outs)[i], e.request.depth - 1)
    && (e.slots[i].Some? <==> r in s.answers && r !in s.undelivered)
    && (e.slots[i].Some? ==> s.answers[r] == Ok(e.slots[i].value))
  }

  ghost predicate AnswerRight(q: Request, a: Result<Tree>) {
    a.Ok? ==> a.value.msg == q.msg && WellBuilt(a.value, q.depth)
  }

  ghost predicate Inv(s: System) {
    && OnePlace(s)
    && (forall n :: n in s.waiting ==> EntryRight(s, n, s.waiting[n]))
    && (forall r :: r in s.answers ==> r in s.created && AnswerRight(s.created[r], s.answers[r]))
  }

  // The invariant while promise `gone` is in the hands of the running step.
  ghost predicate InvBut(s: System, gone: ReplyTo) {
    && gone in s.created && gone !in s.requests && !Held(s, gone) && gone !in s.answers
    && (forall r :: r in s.created <==> r in s.requests || Held(s, r) || r in s.answers || r == gone)
    && (forall r :: r in s.requests ==> !Held(s, r) && r !in s.answers)
    && (forall r :: Held(s, r) ==> r !in s.answers)
    && (forall n, k :: n in s.waiting && k in s.waiting && s.waiting[n].replyTo == s.waiting[k].replyTo ==> n == k)
    && s.undelivered <= s.answers.Keys
    && (forall r :: r in s.created && r.Child? ==> r.parent < s.nextId)
    && (forall n :: n in s.waiting ==> EntryRight(s, n, s.waiting[n]))
    && (forall r :: r in s.answers ==> r in s.created && AnswerRight(s.created[r], s.answers[r]))
  }

  lemma TakeRequest(s: System, to: ReplyTo)
    requires Inv(s) && to in s.requests
    ensures InvBut(s.(requests := s.requests - {to}), to)
  {
    hide AnswerRight, EntryRight, Held;
    var t := s.(requests := s.requests - {to});
    SameHolders(s, t);
    forall n | n in t.waiting ensures EntryRight(t, n, t.waiting[n]) {
      EntryUnaffected(s, t, n);
    }
  }

  lemma GiveAnswer(s: System, to: ReplyTo, a: Result<Tree>)
    requires InvBut(s, to) && AnswerRight(s.created[to], a)
    ensures Inv(Answer(s, to, a))
  {
    hide WellBuilt, AnswerRight;
    var t := Answer(s, to, a);
    forall n, r ensures HeldBy(t, n, r) == HeldBy(s, n, r) {}
    forall r ensures Held(t, r) == Held(s, r) {}
    forall n | n in t.waiting ensures EntryRight(t, n, t.waiting[n]) {
      assert EntryRight(s, n, s.waiting[n]);
      forall i | 0 <= i < |t.waiting[n].slots| ensures SlotRight(t, n, t.waiting[n], i) {
        assert SlotRight(s, n, s.waiting[n], i);
      }
    }
  }

  lemma AskChildren(s: System, to: ReplyTo, msgs: seq<Msg>, depth: nat)
    requires InvBut(s, to)
    ensures InvBut(WithChildren(s, msgs, depth), to)
    ensures s.nextId !in s.waiting
    ensures forall r :: r in WithChildren(s, msgs, depth).created && r.Child? && r.parent == s.nextId ==> r.ind < |msgs|
    ensures forall i :: 0 <= i < |msgs| ==>
              var r := Child(s.nextId, i);
              var t := WithChildren(s, msgs, depth);
              r in t.created && t.created[r] == Request(msgs[i], depth) && r !in t.answers
  {
    hide WellBuilt, AnswerRight;
    var t := WithChildren(s, msgs, depth);
    forall n, r ensures HeldBy(t, n, r) == HeldBy(s, n, r) {}
    forall r ensures Held(t, r) == Held(s, r) {}
    forall r | r in Children(s.nextId, |msgs|) ensures r !in s.created {}
    forall n | n in t.waiting ensures EntryRight(t, n, t.waiting[n]) && n != s.nextId {
      assert EntryRight(s, n, s.waiting[n]);
      forall i | 0 <= i < |t.waiting[n].slots| ensures SlotRight(t, n, t.waiting[n], i) {
        assert SlotRight(s, n, s.waiting[n], i);
      }
    }
  }

  lemma AddNode(s: System, n: NodeId, e: Entry)
    requires InvBut(s, e.replyTo) && n !in s.waiting && EntryRight(s, n, e)
    ensures Inv(s.(waiting := s.waiting[n := e]))
  {
    hide WellBuilt, AnswerRight, AllFilled, Targets, Readable;
    var t := s.(waiting := s.waiting[n := e]);
    forall k | k in s.waiting ensures s.waiting[k].replyTo != e.replyTo {
      assert HeldBy(s, k, s.waiting[k].replyTo);
    }
    forall k, r ensures HeldBy(t, k, r) == (HeldBy(s, k, r) || (k == n && r == e.replyTo)) {}
    forall r ensures Held(t, r) == (Held(s, r) || r == e.replyTo) {
      if Held(s, r) {
        var k :| HeldBy(s, k, r);
        assert HeldBy(t, k, r);
      }
      if r == e.replyTo { assert HeldBy(t, n, r); }
    }
    forall k | k in t.waiting ensures EntryRight(t, k, t.waiting[k]) {
      var f := t.waiting[k];
      assert EntryRight(s, k, f);
      forall i | 0 <= i < |f.slots| ensures SlotRight(t, k, f, i) {
        assert SlotRight(s, k, f, i);
      }
    }
  }

  // Taking a waiting node out of the map leaves its promise to the running step.
  lemma DropNode(s: System, n: NodeId)
    requires Inv(s) && n in s.waiting
    ensures InvBut(s.(waiting := s.waiting - {n}), s.waiting[n].replyTo)
  {
    hide AnswerRight, EntryRight;
    var e, t := s.waiting[n], s.(waiting := s.waiting - {n});
    assert HeldBy(s, n, e.replyTo);
    forall k, r ensures HeldBy(t, k, r) == (HeldBy(s, k, r) && k != n) {}
    forall r ensures Held(t, r) == (Held(s, r) && r != e.replyTo) {
      if Held(s, r) && r != e.replyTo {
        var k :| HeldBy(s, k, r);
        assert HeldBy(t, k, r);
      }
    }
    forall k | k in t.waiting ensures EntryRight(t, k, t.waiting[k]) {
      EntryUnaffected(s, t, k);
    }
  }

  lemma NewEntryRight(t: System, to: ReplyTo, q: Request, outs: seq<OutMsg>)
    requires InvBut(t, to) && t.created[to] == q && q.depth > 0 && Readable(outs) && Targets(outs) != []
    ensures EntryRight(WithChildren(t, Targets(outs), q.depth - 1), t.nextId,
                       Entry(q, outs, seq(|Targets(outs)|, _ => None), to))
  {
    var msgs := Targets(outs);
    var u, e := WithChildren(t, msgs, q.depth - 1), Entry(q, outs, seq(|msgs|, _ => None), to);
    AskChildren(t, to, msgs, q.depth - 1);
    StillRequested(t, to, msgs, q.depth - 1);
    hide InvBut, WithChildren, Targets;
    assert e.slots[0].None?;
    forall i | 0 <= i < |e.slots| ensures SlotRight(u, t.nextId, e, i) {
      assert Child(t.nextId, i) in u.created;
    }
  }

  lemma ExpandWaits(t: System, to: ReplyTo, q: Request, outs: seq<OutMsg>)
    requires InvBut(t, to) && to in t.created && t.created[to] == q && q.depth > 0 && Readable(outs) && Targets(outs) != []
    ensures Inv(Expand(t, to, q, outs))
  {
    hide InvBut, Inv, WithChildren, EntryRight, Targets, Readable;
    AskChildren(t, to, Targets(outs), q.depth - 1);
    SameWaiting(t, Targets(outs), q.depth - 1);
    NewEntryRight(t, to, q, outs);
    AddNode(WithChildren(t, Targets(outs), q.depth - 1), t.nextId, Entry(q, outs, seq(|Targets(outs)|, _ => None), to));
  }

  lemma ExpandAnswers(t: System, to: ReplyTo, q: Request, outs: seq<OutMsg>)
    requires InvBut(t, to) && to in t.created && t.created[to] == q && q.depth > 0 && (!Readable(outs) || Targets(outs) == [])
    ensures Inv(Expand(t, to, q, outs))
  {
    hide InvBut, Inv, WithChildren, Targets, Readable, Answer;
    var msgs := Targets(outs);
    var a := if !Readable(outs) then Err else Ok(Tree(q.msg, outs, []));
    AskChildren(t, to, msgs, q.depth - 1);
    StillRequested(t, to, msgs, q.depth - 1);
    GiveAnswer(WithChildren(t, msgs, q.depth - 1), to, a);
  }

  lemma ExpandKeepsInv(t: System, to: ReplyTo, q: Request, outs: seq<OutMsg>)
    requires InvBut(t, to) && t.created[to] == q && q.depth > 0
    ensures Inv(Expand(t, to, q, outs))
  {
    assert to in t.created;
    hide InvBut, Inv, Expand, Targets, Readable;
    if Readable(outs) && Targets(outs) != [] {
      ExpandWaits(t, to, q, outs);
    } else {
      ExpandAnswers(t, to, q, outs);
    }
  }

  lemma SameWaiting(t: System, msgs: seq<Msg>, depth: nat)
    ensures WithChildren(t, msgs, depth).waiting == t.waiting
  {
  }

  lemma EmulateKeepsInv(s: System, to: ReplyTo, outcome: Outcome)
    requires Inv(s) && Enabled(s, Emulate(to, outcome))
    ensures Inv(EmulateStep(s, to, outcome))
  {
    var q := s.created[to];
    var t := s.(requests := s.requests - {to});
    TakeRequest(s, to);
    hide InvBut, Inv, Expand, Answer;
    if outcome.Failed? {
      GiveAnswer(t, to, Err);
    } else if q.depth == 0 {
      GiveAnswer(t, to, Ok(Tree(q.msg, outcome.outs, [])));
    } else {
      ExpandKeepsInv(t, to, q, outcome.outs);
    }
  }

  lemma StillRequested(s: System, to: ReplyTo, msgs: seq<Msg>, depth: nat)
    requires InvBut(s, to)
    ensures var u := WithChildren(s, msgs, depth);
            to in s.created && to in u.created && u.created[to] == s.created[to] && u.nextId == s.nextId + 1
  {
  }

  // ---- Delivering a reply ----

  lemma SameHolders(s: System, t: System)
    requires t.waiting == s.waiting
    ensures forall r :: Held(t, r) == Held(s, r)
  {
    forall n, r ensures HeldBy(t, n, r) == HeldBy(s, n, r) {}
  }

  // An entry stays right if nothing that its slots refer to has changed.
  lemma EntryUnaffected(s: System, t: System, n: NodeId)
    requires n in s.waiting && n in t.waiting && s.waiting[n] == t.waiting[n] && EntryRight(s, n, s.waiting[n])
    requires t.created == s.created && t.answers == s.answers && t.nextId == s.nextId
    requires forall r: ReplyTo :: r.Child? && r.parent == n ==> (r in t.undelivered <==> r in s.undelivered)
    ensures EntryRight(t, n, t.waiting[n])
  {
    hide AllFilled, Targets, Readable;
    forall i | 0 <= i < |t.waiting[n].slots| ensures SlotRight(t, n, t.waiting[n], i) {
      assert SlotRight(s, n, s.waiting[n], i);
    }
  }

  // A reply that no waiting node is interested in.
  lemma Acknowledge(s: System, gone: ReplyTo, to: ReplyTo)
    requires InvBut(s, gone) && (to.Root? || to.parent !in s.waiting)
    ensures InvBut(s.(undelivered := s.undelivered - {to}), gone)
  {
    hide AnswerRight, EntryRight, Held;
    var t := s.(undelivered := s.undelivered - {to});
    SameHolders(s, t);
    forall n | n in t.waiting ensures EntryRight(t, n, t.waiting[n]) {
      EntryUnaffected(s, t, n);
    }
  }

  lemma IgnoreKeepsInv(s: System, to: ReplyTo)
    requires Inv(s) && (to.Root? || to.parent !in s.waiting)
    ensures Inv(s.(undelivered := s.undelivered - {to}))
  {
    hide AnswerRight, EntryRight, Held;
    var t := s.(undelivered := s.undelivered - {to});
    SameHolders(s, t);
    forall n | n in t.waiting ensures EntryRight(t, n, t.waiting[n]) {
      EntryUnaffected(s, t, n);
    }
  }

  // The state with the parent of a reply taken out and the reply acknowledged.
  function Opened(s: System, to: ReplyTo): System
    requires to.Child?
  {
    s.(waiting := s.waiting - {to.parent}, undelivered := s.undelivered - {to})
  }

  lemma OpenParent(s: System, to: ReplyTo)
    requires Inv(s) && to.Child? && to.parent in s.waiting
    ensures InvBut(Opened(s, to), s.waiting[to.parent].replyTo)
  {
    hide Inv, InvBut;
    DropNode(s, to.parent);
    Acknowledge(s.(waiting := s.waiting - {to.parent}), s.waiting[to.parent].replyTo, to);
  }

  // All children have answered: their trees make up the node's own.
  lemma FilledIsRight(s: System, to: ReplyTo, tree: Tree)
    requires Inv(s) && to.Child? && to.parent in s.waiting && to in s.undelivered && to in s.answers
    requires s.answers[to] == Ok(tree) && InBounds(s, to)
    ensures var e := s.waiting[to.parent];
            var slots := e.slots[to.ind := Some(tree)];
            AllFilled(slots) ==> AnswerRight(e.request, Ok(Tree(e.request.msg, e.outs, Values(slots))))
  {
    var n, e := to.parent, s.waiting[to.parent];
    var slots := e.slots[to.ind := Some(tree)];
    assert EntryRight(s, n, e);
    hide Targets, Readable, OnePlace;
    if AllFilled(slots) {
      forall i | 0 <= i < |slots|
        ensures Values(slots)[i].msg == Targets(e.outs)[i] && WellBuilt(Values(slots)[i], e.request.depth - 1)
      {
        assert SlotRight(s, n, e, i);
        var r := Child(n, i);
        assert slots[i].Some?;
        assert if i == to.ind then r == to else slots[i] == e.slots[i];
        assert r in s.answers && s.answers[r] == Ok(slots[i].value);
        assert AnswerRight(s.created[r], s.answers[r]);
      }
    }
  }

  // A child has answered and others are still missing.
  lemma PartlyFilledIsRight(s: System, to: ReplyTo, tree: Tree)
    requires Inv(s) && to.Child? && to.parent in s.waiting && to in s.undelivered && to in s.answers
    requires s.answers[to] == Ok(tree) && InBounds(s, to)
    requires !AllFilled(s.waiting[to.parent].slots[to.ind := Some(tree)])
    ensures var e := s.waiting[to.parent];
            EntryRight(Opened(s, to), to.parent, e.(slots := e.slots[to.ind := Some(tree)]))
  {
    var n, e := to.parent, s.waiting[to.parent];
    var t, f := Opened(s, to), e.(slots := e.slots[to.ind := Some(tree)]);
    assert EntryRight(s, n, e);
    hide Targets, Readable, OnePlace, WellBuilt;
    forall i | 0 <= i < |f.slots| ensures SlotRight(t, n, f, i) {
      assert SlotRight(s, n, e, i);
      assert i == to.ind <==> Child(n, i) == to;
    }
  }

  lemma DeliverKeepsInv(s: System, to: ReplyTo)
    requires Inv(s) && Enabled(s, Deliver(to))
    ensures Inv(DeliverStep(s, to))
  {
    hide Inv, InvBut, EntryRight, WellBuilt, AllFilled;
    if to.Root? || to.parent !in s.waiting {
      IgnoreKeepsInv(s, to);
    } else {
      var e := s.waiting[to.parent];
      OpenParent(s, to);
      CreatedOf(s, to.parent);
      var u := Opened(s, to);
      match s.answers[to]
      case Err => GiveAnswer(u, e.replyTo, Err);
      case Ok(tree) =>
        var slots := e.slots[to.ind := Some(tree)];
        if AllFilled(slots) {
          FilledIsRight(s, to, tree);
          GiveAnswer(u, e.replyTo, Ok(Tree(e.request.msg, e.outs, Values(slots))));
        } else {
          PartlyFilledIsRight(s, to, tree);
          AddNode(u, to.parent, e.(slots := slots));
          assert u.waiting[to.parent := e.(slots := slots)] == s.waiting[to.parent := e.(slots := slots)];
        }
    }
  }

  lemma CreatedOf(s: System, n: NodeId)
    requires Inv(s) && n in s.waiting
    ensures s.waiting[n].replyTo in s.created && s.created[s.waiting[n].replyTo] == s.waiting[n].request
  {
    assert EntryRight(s, n, s.waiting[n]);
  }

  // ---- Whole runs ----

  lemma StepKeepsInv(s: System, e: Event)
    requires Inv(s) && Enabled(s, e)
    ensures Inv(Apply(s, e))
    ensures forall r :: r in s.answers ==> r in Apply(s, e).answers && Apply(s, e).answers[r] == s.answers[r]
    ensures forall r :: r in s.created ==> r in Apply(s, e).created && Apply(s, e).created[r] == s.created[r]
  {
    match e
    case Emulate(to, outcome) =>
      EmulateKeepsInv(s, to, outcome);
      OnceEmulated(s, to, outcome);
    case Deliver(to) =>
      DeliverKeepsInv(s, to);
      OnceDelivered(s, to);
  }

  // An answer given is never changed, nor is a request.
  lemma OnceEmulated(s: System, to: ReplyTo, outcome: Outcome)
    requires Inv(s) && Enabled(s, Emulate(to, outcome))
    ensures var t := EmulateStep(s, to, outcome);
            && (forall r :: r in s.answers ==> r in t.answers && t.answers[r] == s.answers[r])
            && (forall r :: r in s.created ==> r in t.created && t.created[r] == s.created[r])
  {
    hide EntryRight, AnswerRight, Targets, Readable;
    assert to !in s.answers;
    forall r | r in s.created ensures r !in Children(s.nextId, |Targets(if outcome.Failed? then [] else outcome.outs)|) {}
  }

  lemma OnceDelivered(s: System, to: ReplyTo)
    requires Inv(s) && Enabled(s, Deliver(to))
    ensures var t := DeliverStep(s, to);
            && (forall r :: r in s.answers ==> r in t.answers && t.answers[r] == s.answers[r])
            && t.created == s.created
  {
    hide EntryRight, AnswerRight, AllFilled, Values;
    if to.Child? && to.parent in s.waiting {
      assert HeldBy(s, to.parent, s.waiting[to.parent].replyTo);
    }
  }

  lemma StartInv(msg: Msg, depth: nat)
    ensures Inv(Start(msg, depth))
  {
    var s := Start(msg, depth);
    forall n, r ensures !HeldBy(s, n, r) {}
  }

  /** In every run, for every interleaving of replies: each promise is answered at most once and
      its answer never changes; an answer with a tree is a tree of the requested message whose
      i-th child answers the i-th account-bound out-message, no deeper than asked for. */
  lemma {:induction false} RunKeepsInv(s: System, es: seq<Event>)
    requires Inv(s) && Possible(s, es)
    ensures Inv(Play(s, es))
    ensures forall r :: r in s.answers ==> r in Play(s, es).answers && Play(s, es).answers[r] == s.answers[r]
    ensures forall r :: r in s.created ==> r in Play(s, es).created && Play(s, es).created[r] == s.created[r]
    decreases |es|
  {
    hide Inv, Apply, Enabled;
    if es != [] {
      StepKeepsInv(s, es[0]);
      RunKeepsInv(Apply(s, es[0]), es[1..]);
    }
  }

  // No message is on its way.
  predicate Quiet(s: System) {
    s.requests == {} && s.undelivered == {}
  }

  lemma {:induction false} QuietHasNoWaiting(s: System, n: NodeId, depth: nat)
    requires Inv(s) && Quiet(s) && n in s.waiting && s.waiting[n].request.depth <= depth
    ensures false
    decreases depth
  {
    var e := s.waiting[n];
    assert EntryRight(s, n, e);
    hide Targets, Readable, WellBuilt;
    var i :| 0 <= i < |e.slots| && e.slots[i].None?;
    assert SlotRight(s, n, e, i);
    var r := Child(n, i);
    assert Held(s, r);
    var k :| HeldBy(s, k, r);
    assert EntryRight(s, k, s.waiting[k]);
    QuietHasNoWaiting(s, k, depth - 1);
  }

  /** When no message is left to deliver, no promise is left unanswered. */
  lemma NothingLeftUnanswered(s: System)
    requires Inv(s) && Quiet(s)
    ensures s.waiting == map[] && s.answers.Keys == s.created.Keys
  {
    hide EntryRight, AnswerRight;
    assert s.waiting.Keys == {} by {
      forall n | n in s.waiting ensures false {
        QuietHasNoWaiting(s, n, s.waiting[n].request.depth);
      }
    }
    forall n, r ensures !HeldBy(s, n, r) {}
  }

  /** Every message on its way can be handled: no reply is for a missing slot. */
  lemma AllCanBeDelivered(s: System, to: ReplyTo)
    requires Inv(s) && to in s.undelivered
    ensures Enabled(s, Deliver(to))
  {
    if to.Child? && to.parent in s.waiting {
      assert EntryRight(s, to.parent, s.waiting[to.parent]);
    }
  }

  /** A completed emulation: the caller gets exactly one answer, and a tree in it is rooted at
      the message asked for, answers every account-bound out-message in order, and is at most
      one level deeper than the depth argument. */
  lemma EmulationCompletes(msg: Msg, depth: nat, es: seq<Event>)
    requires Possible(Start(msg, depth), es) && Quiet(Play(Start(msg, depth), es))
    ensures var s := Play(Start(msg, depth), es);
            && Root in s.answers
            && (s.answers[Root].Ok? ==>
                  var t := s.answers[Root].value;
                  t.msg == msg && WellBuilt(t, depth) && Height(t) <= depth + 1)
  {
    StartInv(msg, depth);
    RunKeepsInv(Start(msg, depth), es);
    var s := Play(Start(msg, depth), es);
    hide Play, Possible, Height, WellBuilt;
    NothingLeftUnanswered(s);
    if s.answers[Root].Ok? {
      assert AnswerRight(s.created[Root], s.answers[Root]);
      HeightBound(s.answers[Root].value, depth);
    }
  }

  // ---- What is passed on ----

  /** Out-messages are readable exactly if none of them is unreadable. */
  lemma {:induction false} ReadableIff(outs: seq<OutMsg>)
    ensures Readable(outs) <==> forall i :: 0 <= i < |outs| ==> !outs[i].Unreadable?
  {
    if outs != [] {
      ReadableIff(outs[1..]);
      assert forall i :: 0 <= i < |outs| - 1 ==> outs[1..][i] == outs[i + 1];
    }
  }

  /** Nothing behind the first unreadable message is passed on. */
  lemma {:induction false} TargetsStop(outs: seq<OutMsg>, k: nat)
    requires k < |outs| && outs[k].Unreadable?
    ensures Targets(outs) == Targets(outs[..k])
  {
    if k > 0 && !outs[0].Unreadable? {
      assert outs[..k][1..] == outs[1..][..k - 1];
      TargetsStop(outs[1..], k - 1);
    }
  }

  lemma {:induction false} MaxHeightCovers(ts: seq<Tree>, i: nat)
    requires i < |ts|
    ensures Height(ts[i]) <= MaxHeight(ts)
  {
    if i > 0 {
      MaxHeightCovers(ts[1..], i - 1);
    }
  }

  /** Every child is lower than its parent. */
  lemma ChildIsLower(t: Tree, i: nat)
    requires i < |t.children|
    ensures Height(t.children[i]) < Height(t)
  {
    MaxHeightCovers(t.children, i);
  }
}
