/** What the answer of an emulation is: exactly the tree that the outcomes of the emulated messages
    make up, or an error exactly if one of them was one (ton-trace-emulator/src/TraceEmulator.cpp). */
module EmulationTruth {
  import opened Wrappers
  import opened TraceEmulation
  import opened EmulationEnds

  // What a run has told so far: the outcome for each promise, and the node made for it.
  datatype Log = Log(told: map<ReplyTo, Outcome>, made: map<ReplyTo, NodeId>)

  const NOTHING := Log(map[], map[])

  function Note(l: Log, s: System, e: Event): Log {
    match e
    case Deliver(_) => l
    case Emulate(to, outcome) =>
      Log(l.told[to := outcome],
          if outcome.Success? && to in s.created && s.created[to].depth > 0 then l.made[to := s.nextId] else l.made)
  }

  function PlayLog(s: System, l: Log, es: seq<Event>): Log
    requires Possible(s, es)
    decreases |es|
  {
    if es == [] then l else PlayLog(Apply(s, es[0]), Note(l, s, es[0]), es[1..])
  }

  // ---- The reference ----

  // The emulator failed, or an out-message that has to be followed cannot be read.
  predicate Bad(depth: nat, outcome: Outcome) {
    outcome.Failed? || (depth > 0 && !Readable(outcome.outs))
  }

  function OutsOf(l: Log, r: ReplyTo): seq<OutMsg> {
    if r in l.told && l.told[r].Success? then l.told[r].outs else []
  }

  function NodeOf(l: Log, r: ReplyTo): NodeId {
    if r in l.made then l.made[r] else 0
  }

  // The tree that the outcomes make up.
  function TreeOf(l: Log, r: ReplyTo, msg: Msg, depth: nat): Tree
    decreases depth, 0
  {
    var outs := OutsOf(l, r);
    Tree(msg, outs, if depth == 0 then [] else TreesOf(l, NodeOf(l, r), Targets(outs), depth - 1))
  }

  // The trees of the requests that node `n` made.
  function TreesOf(l: Log, n: NodeId, msgs: seq<Msg>, depth: nat): (ts: seq<Tree>)
    ensures |ts| == |msgs| && forall i :: 0 <= i < |ts| ==> ts[i] == TreeOf(l, Child(n, i), msgs[i], depth)
    decreases depth, 1
  {
    seq(|msgs|, i requires 0 <= i < |msgs| => TreeOf(l, Child(n, i), msgs[i], depth))
  }

  // ---- The invariant ----

  // Outcomes are known of all promises but those still requested; nodes were made for those whose
  // messages are followed.
  ghost predicate ToldRight(s: System, l: Log) {
    && (forall r :: r in l.told <==> r in s.created && r !in s.requests)
    && (forall r :: r in l.made <==> r in l.told && l.told[r].Success? && r in s.created && s.created[r].depth > 0)
    && (forall r :: r in l.made ==> l.made[r] < s.nextId && (r.Child? ==> r.parent < l.made[r]))
  }

  // The requests that node `n` made for its messages.
  ghost predicate Asked(created: map<ReplyTo, Request>, n: NodeId, outs: seq<OutMsg>, depth: nat) {
    var msgs := Targets(outs);
    forall i :: 0 <= i < |msgs| ==> Child(n, i) in created && created[Child(n, i)] == Request(msgs[i], depth)
  }

  ghost predicate MadeRight(s: System, l: Log, r: ReplyTo) {
    r in l.made && r in s.created && s.created[r].depth > 0 && Asked(s.created, l.made[r], OutsOf(l, r), s.created[r].depth - 1)
  }

  ghost predicate LogRight(s: System, l: Log) {
    && ToldRight(s, l)
    && (forall r :: r in l.made ==> MadeRight(s, l, r))
    && (forall r :: r in s.created && r.Child? ==> Asker(l, r))
    && (forall n :: n in s.waiting ==> Waits(l, n, s.waiting[n]))
  }

  // Some promise led to this request.
  ghost predicate Asker(l: Log, r: ReplyTo)
    requires r.Child?
  {
    exists p :: Asks(l, p, r)
  }

  predicate Asks(l: Log, p: ReplyTo, r: ReplyTo)
    requires r.Child?
  {
    p in l.made && l.made[p] == r.parent && r.ind < |Targets(OutsOf(l, p))|
  }

  ghost predicate Waits(l: Log, n: NodeId, e: Entry) {
    e.replyTo in l.made && l.made[e.replyTo] == n && OutsOf(l, e.replyTo) == e.outs
  }

  ghost predicate AnyBad(s: System, l: Log) {
    exists r :: r in l.told && r in s.created && Bad(s.created[r].depth, l.told[r])
  }

  // A tree answered for `r` has the outs told for it, and as children the answers of its requests.
  ghost predicate Justified(s: System, l: Log, r: ReplyTo, t: Tree)
    requires r in s.created
  {
    && t.outs == OutsOf(l, r)
    && (if s.created[r].depth == 0 then t.children == [] else r in l.made && AnsweredBy(s.answers, l.made[r], t))
  }

  ghost predicate AnsweredBy(answers: map<ReplyTo, Result<Tree>>, n: NodeId, t: Tree) {
    && |t.children| == |Targets(t.outs)|
    && forall i :: 0 <= i < |t.children| ==> Child(n, i) in answers && answers[Child(n, i)] == Ok(t.children[i])
  }

  ghost predicate BadFails(s: System, l: Log, r: ReplyTo) {
    r in l.told && r in s.created && Bad(s.created[r].depth, l.told[r]) ==> r in s.answers && s.answers[r] == Err
  }

  ghost predicate AnswerTrue(s: System, l: Log, r: ReplyTo) {
    r in s.answers ==>
      r in s.created && (s.answers[r].Err? ==> AnyBad(s, l)) && (s.answers[r].Ok? ==> Justified(s, l, r, s.answers[r].value))
  }

  ghost predicate AnswersRight(s: System, l: Log) {
    (forall r :: BadFails(s, l, r)) && (forall r :: AnswerTrue(s, l, r))
  }

  // ---- From the invariant to the answer ----

  lemma {:induction false} AnswerIsTree(s: System, l: Log, r: ReplyTo, q: Request)
    requires Inv(s) && LogRight(s, l) && AnswersRight(s, l) && r in s.answers && s.answers[r].Ok?
    requires r in s.created && s.created[r] == q
    ensures s.answers[r].value == TreeOf(l, r, q.msg, q.depth)
    decreases q.depth
  {
    hide Inv, LogRight, AnswersRight, Targets, TreeOf, OutsOf;
    var t := s.answers[r].value;
    AnswerParts(s, l, r);
    if q.depth > 0 {
      forall i | 0 <= i < |t.children|
        ensures t.children[i] == TreeOf(l, Child(NodeOf(l, r), i), Targets(t.outs)[i], q.depth - 1)
      {
        AnswerIsTree(s, l, Child(l.made[r], i), Request(Targets(t.outs)[i], q.depth - 1));
      }
    }
    TreeOfParts(l, r, q, t);
  }

  lemma AnswerParts(s: System, l: Log, r: ReplyTo)
    requires Inv(s) && LogRight(s, l) && AnswersRight(s, l) && r in s.answers && s.answers[r].Ok?
    ensures r in s.created && s.answers[r].value.msg == s.created[r].msg && Justified(s, l, r, s.answers[r].value)
    ensures s.created[r].depth > 0 ==> MadeRight(s, l, r)
  {
    RootOfAnswer(s, r);
    hide Inv, Targets, Asker, Waits;
    assert AnswerTrue(s, l, r);
  }

  lemma TreeOfParts(l: Log, r: ReplyTo, q: Request, t: Tree)
    requires t.msg == q.msg && t.outs == OutsOf(l, r)
    requires if q.depth == 0 then t.children == []
             else
               && |t.children| == |Targets(t.outs)|
               && forall i :: 0 <= i < |t.children| ==>
                    t.children[i] == TreeOf(l, Child(NodeOf(l, r), i), Targets(t.outs)[i], q.depth - 1)
    ensures t == TreeOf(l, r, q.msg, q.depth)
  {
    hide Targets, TreesOf;
    if q.depth > 0 {
      var ts := TreesOf(l, NodeOf(l, r), Targets(t.outs), q.depth - 1);
      SameTrees(t.children, ts);
    }
  }

  lemma SameTrees(a: seq<Tree>, b: seq<Tree>)
    requires |a| == |b| && forall i :: 0 <= i < |a| ==> a[i] == b[i]
    ensures a == b
  {
  }

  lemma RootOfAnswer(s: System, r: ReplyTo)
    requires Inv(s) && r in s.answers && s.answers[r].Ok?
    ensures r in s.created && s.answers[r].value.msg == s.created[r].msg
  {
  }

  // An error reaches the caller: whoever asked for it fails as well.
  lemma {:induction false} ErrorReachesRoot(s: System, l: Log, r: ReplyTo)
    requires LogRight(s, l) && AnswersRight(s, l) && s.answers.Keys == s.created.Keys
    requires r in s.answers && s.answers[r].Err? && Root in s.answers
    ensures s.answers[Root].Err?
    decreases if r.Child? then r.parent + 1 else 0
  {
    if r.Child? {
      assert Asker(l, r);
      var p :| Asks(l, p, r);
      ErrorPassesOn(s, l, p, r);
      ErrorReachesRoot(s, l, p);
    }
  }

  lemma ErrorPassesOn(s: System, l: Log, p: ReplyTo, r: ReplyTo)
    requires LogRight(s, l) && AnswersRight(s, l) && r.Child? && r in s.answers && s.answers[r].Err? && Asks(l, p, r)
    requires p in s.answers
    ensures s.answers[p].Err?
  {
    assert MadeRight(s, l, p);
    assert AnswerTrue(s, l, p);
    hide LogRight, AnswersRight, Targets;
    assert r == Child(l.made[p], r.ind);
  }

  // ---- Steps ----

  // The messages that have to be followed.
  function Followed(depth: nat, outcome: Outcome): seq<Msg> {
    if outcome.Success? && depth > 0 then Targets(outcome.outs) else []
  }

  // What emulating one message does to requests, nodes and answers.
  ghost predicate Effect(s: System, t: System, to: ReplyTo, outcome: Outcome)
    requires to in s.created
  {
    var q := s.created[to];
    var msgs := Followed(q.depth, outcome);
    && t.requests == s.requests - {to} + Children(s.nextId, |msgs|)
    && t.created == s.created + Requested(s.nextId, msgs, if q.depth > 0 then q.depth - 1 else 0)
    && (if q.depth > 0 && outcome.Success? then t.nextId == s.nextId + 1 else t.nextId == s.nextId)
    && (if !Bad(q.depth, outcome) && msgs != []
        then t.answers == s.answers &&
             t.waiting == s.waiting[s.nextId := Entry(q, outcome.outs, seq(|msgs|, _ => None), to)]
        else t.waiting == s.waiting &&
             t.answers == s.answers[to := if Bad(q.depth, outcome) then Err else Ok(Tree(q.msg, outcome.outs, []))])
  }

  lemma EmulateEffect(s: System, to: ReplyTo, outcome: Outcome)
    requires to in s.created
    ensures Effect(s, EmulateStep(s, to, outcome), to, outcome)
  {
    hide Targets, Readable, Children, Requested;
    NoChildren(s.nextId);
    if outcome.Failed? || s.created[to].depth == 0 {
      assert s.requests - {to} + {} == s.requests - {to} && s.created + map[] == s.created;
    }
  }

  lemma NoChildren(n: NodeId)
    ensures Children(n, 0) == {} && forall d: nat :: Requested(n, [], d) == map[]
  {
    forall d: nat ensures Requested(n, [], d) == map[] {}
  }

  // How system and log grow when one message is emulated.
  ghost predicate Grew(s: System, t: System, l: Log, k: Log, to: ReplyTo, outcome: Outcome) {
    && to in s.created && to in s.requests && to !in l.told && to !in l.made && to !in s.answers
    && (to.Child? ==> to.parent < s.nextId)
    && k.told == l.told[to := outcome]
    && k.made == (if outcome.Success? && s.created[to].depth > 0 then l.made[to := s.nextId] else l.made)
    && s.nextId <= t.nextId && (to in k.made ==> s.nextId < t.nextId)
    && Extends(s.created, t.created)
    && (forall r :: r in t.requests <==> (r in s.requests && r != to) || (r in t.created && r !in s.created))
    && NewKids(s, t, to, outcome)
  }

  predicate Extends(a: map<ReplyTo, Request>, b: map<ReplyTo, Request>) {
    forall r :: r in a ==> r in b && b[r] == a[r]
  }

  ghost predicate NewKids(s: System, t: System, to: ReplyTo, outcome: Outcome)
    requires to in s.created
  {
    && (forall r :: r in t.created && r !in s.created ==>
          && r.Child? && r.parent == s.nextId && outcome.Success? && s.created[to].depth > 0
          && r.ind < |Targets(outcome.outs)|)
    && (outcome.Success? && s.created[to].depth > 0 ==>
          Asked(t.created, s.nextId, outcome.outs, s.created[to].depth - 1))
  }

  lemma EmulateGrows(s: System, t: System, l: Log, to: ReplyTo, outcome: Outcome)
    requires Inv(s) && ToldRight(s, l) && to in s.requests && to in s.created && Effect(s, t, to, outcome)
    ensures Grew(s, t, l, Note(l, s, Emulate(to, outcome)), to, outcome)
  {
    RequestsCreated(s);
    ParentsBelow(s, to);
    ChildrenFresh(s, |Followed(s.created[to].depth, outcome)|);
    KidsOf(s, t, to, outcome);
    hide Inv, Targets, Readable, NewKids;
    GrownSets(s, t, to, outcome);
    hide Children, Requested;
  }

  lemma GrownSets(s: System, t: System, to: ReplyTo, outcome: Outcome)
    requires to in s.created && Effect(s, t, to, outcome) && s.requests <= s.created.Keys
    requires forall r :: r in Children(s.nextId, |Followed(s.created[to].depth, outcome)|) ==> r !in s.created
    ensures Extends(s.created, t.created)
    ensures forall r :: r in t.requests <==> (r in s.requests && r != to) || (r in t.created && r !in s.created)
  {
    hide Targets, Readable, Children;
    var q := s.created[to];
    var msgs := Followed(q.depth, outcome);
    RequestedDepth(s.nextId, msgs, if q.depth > 0 then q.depth - 1 else 0);
    hide Requested;
  }

  lemma ParentsBelow(s: System, to: ReplyTo)
    requires Inv(s) && to in s.requests
    ensures to !in s.answers && (to.Child? && to in s.created ==> to.parent < s.nextId)
  {
  }

  lemma KidsOf(s: System, t: System, to: ReplyTo, outcome: Outcome)
    requires to in s.created && Effect(s, t, to, outcome)
    ensures NewKids(s, t, to, outcome)
  {
    hide Targets, Readable;
  }

  lemma GrownTold(s: System, t: System, l: Log, k: Log, to: ReplyTo, outcome: Outcome)
    requires ToldRight(s, l) && Grew(s, t, l, k, to, outcome)
    ensures ToldRight(t, k)
  {
    hide Targets, Asked;
  }

  lemma AskedStays(a: map<ReplyTo, Request>, b: map<ReplyTo, Request>, n: NodeId, outs: seq<OutMsg>, depth: nat)
    requires Extends(a, b) && Asked(a, n, outs, depth)
    ensures Asked(b, n, outs, depth)
  {
    hide Targets;
  }

  lemma GrownMade(s: System, t: System, l: Log, k: Log, to: ReplyTo, outcome: Outcome, r: ReplyTo)
    requires Grew(s, t, l, k, to, outcome) && r in k.made && (r in l.made ==> MadeRight(s, l, r))
    ensures MadeRight(t, k, r)
  {
    hide Targets, Asked;
    if r != to {
      AskedStays(s.created, t.created, l.made[r], OutsOf(l, r), s.created[r].depth - 1);
    }
  }

  lemma GrownAsker(s: System, t: System, l: Log, k: Log, to: ReplyTo, outcome: Outcome, r: ReplyTo)
    requires Grew(s, t, l, k, to, outcome) && r in t.created && r.Child? && (r in s.created ==> Asker(l, r))
    ensures Asker(k, r)
  {
    hide Targets, Asked;
    if r in s.created {
      var p :| Asks(l, p, r);
      assert p != to;
      assert Asks(k, p, r);
    } else {
      assert Asks(k, to, r);
    }
  }

  lemma GrownWaits(s: System, t: System, l: Log, k: Log, to: ReplyTo, outcome: Outcome, n: NodeId)
    requires Grew(s, t, l, k, to, outcome) && Effect(s, t, to, outcome) && n in t.waiting
    requires n in s.waiting ==> Waits(l, n, s.waiting[n])
    ensures Waits(k, n, t.waiting[n])
  {
    hide Targets, Asked, NewKids, Children, Requested, Readable;
  }

  lemma EmulateLog(s: System, t: System, l: Log, to: ReplyTo, outcome: Outcome)
    requires Inv(s) && LogRight(s, l) && to in s.requests && to in s.created && Effect(s, t, to, outcome)
    ensures LogRight(t, Note(l, s, Emulate(to, outcome)))
  {
    hide Inv, Effect, Grew, ToldRight, MadeRight, Asker, Waits, Note;
    var k := Note(l, s, Emulate(to, outcome));
    EmulateGrows(s, t, l, to, outcome);
    GrownTold(s, t, l, k, to, outcome);
    forall n | n in t.waiting ensures Waits(k, n, t.waiting[n]) {
      GrownWaits(s, t, l, k, to, outcome, n);
    }
    forall r | r in k.made ensures MadeRight(t, k, r) {
      GrownMade(s, t, l, k, to, outcome, r);
    }
    forall r | r in t.created && r.Child? ensures Asker(k, r) {
      GrownAsker(s, t, l, k, to, outcome, r);
    }
  }

  lemma DeliverLog(s: System, l: Log, to: ReplyTo)
    requires Inv(s) && LogRight(s, l) && Enabled(s, Deliver(to))
    ensures LogRight(DeliverStep(s, to), l)
  {
    hide Inv, AllFilled, Values, Targets, Asker, Asked;
    var t := DeliverStep(s, to);
    forall n | n in t.waiting ensures Waits(l, n, t.waiting[n]) {
      assert Waits(l, n, s.waiting[n]);
    }
    forall r | r in l.made ensures MadeRight(t, l, r) {
      assert MadeRight(s, l, r);
    }
  }

  lemma BadStays(s: System, t: System, l: Log, k: Log)
    requires AnyBad(s, l) && Extends(s.created, t.created) && forall r :: r in l.told ==> r in k.told && k.told[r] == l.told[r]
    ensures AnyBad(t, k)
  {
    hide Bad;
    var r :| r in l.told && r in s.created && Bad(s.created[r].depth, l.told[r]);
    assert r in k.told && Bad(t.created[r].depth, k.told[r]);
  }

  // A justified answer stays so while answers are only added and nothing about it is told anew.
  lemma JustifiedStays(s: System, t: System, l: Log, k: Log, r: ReplyTo, tree: Tree)
    requires r in s.created && Extends(s.created, t.created) && Justified(s, l, r, tree)
    requires forall a :: a in s.answers ==> a in t.answers && t.answers[a] == s.answers[a]
    requires OutsOf(k, r) == OutsOf(l, r) && (r in l.made ==> r in k.made && k.made[r] == l.made[r])
    ensures Justified(t, k, r, tree)
  {
    hide Targets, OutsOf;
  }

  lemma EmulateAnswer(s: System, t: System, l: Log, k: Log, to: ReplyTo, outcome: Outcome, r: ReplyTo)
    requires Grew(s, t, l, k, to, outcome) && Effect(s, t, to, outcome) && r in t.answers && AnswerTrue(s, l, r)
    ensures AnswerTrue(t, k, r)
  {
    hide Asked, NewKids, Children, Requested, Bad, Followed, Targets;
    if r != to {
      if s.answers[r].Err? {
        BadStays(s, t, l, k);
      } else {
        JustifiedStays(s, t, l, k, r, s.answers[r].value);
      }
    } else {
      OwnAnswer(s, t, l, k, to, outcome);
    }
  }

  lemma OwnAnswer(s: System, t: System, l: Log, k: Log, to: ReplyTo, outcome: Outcome)
    requires Grew(s, t, l, k, to, outcome) && Effect(s, t, to, outcome) && to in t.answers
    ensures AnswerTrue(t, k, to)
  {
    hide Asked, NewKids, Children, Requested, Readable, Targets;
    if Bad(s.created[to].depth, outcome) {
      assert k.told[to] == outcome;
    }
  }

  lemma EmulateBad(s: System, t: System, l: Log, k: Log, to: ReplyTo, outcome: Outcome, r: ReplyTo)
    requires Grew(s, t, l, k, to, outcome) && Effect(s, t, to, outcome) && BadFails(s, l, r)
    requires r in l.told ==> r in s.created
    ensures BadFails(t, k, r)
  {
    hide Asked, NewKids, Children, Requested, Readable, Targets, Bad;
  }

  lemma EmulateAllBad(s: System, t: System, l: Log, k: Log, to: ReplyTo, outcome: Outcome)
    requires Grew(s, t, l, k, to, outcome) && Effect(s, t, to, outcome) && LogRight(s, l) && AnswersRight(s, l)
    ensures forall r :: BadFails(t, k, r)
  {
    hide Effect, Grew, BadFails, AnswerTrue, LogRight;
    forall r ensures BadFails(t, k, r) {
      assert BadFails(s, l, r);
      ToldIsCreated(s, l, r);
      EmulateBad(s, t, l, k, to, outcome, r);
    }
  }

  lemma EmulateAllTrue(s: System, t: System, l: Log, k: Log, to: ReplyTo, outcome: Outcome)
    requires Grew(s, t, l, k, to, outcome) && Effect(s, t, to, outcome) && AnswersRight(s, l)
    ensures forall r :: AnswerTrue(t, k, r)
  {
    hide Effect, Grew, BadFails, AnswerTrue;
    forall r ensures AnswerTrue(t, k, r) {
      assert AnswerTrue(s, l, r);
      if r in t.answers {
        EmulateAnswer(s, t, l, k, to, outcome, r);
      } else {
        NoAnswer(t, k, r);
      }
    }
  }

  lemma EmulateAnswers(s: System, t: System, l: Log, to: ReplyTo, outcome: Outcome)
    requires Inv(s) && LogRight(s, l) && AnswersRight(s, l) && to in s.requests && to in s.created && Effect(s, t, to, outcome)
    ensures AnswersRight(t, Note(l, s, Emulate(to, outcome)))
  {
    var k := Note(l, s, Emulate(to, outcome));
    assert ToldRight(s, l);
    hide Inv, Effect, Grew, BadFails, AnswerTrue, Note, LogRight, ToldRight;
    EmulateGrows(s, t, l, to, outcome);
    EmulateAllBad(s, t, l, k, to, outcome);
    EmulateAllTrue(s, t, l, k, to, outcome);
  }

  lemma ToldIsCreated(s: System, l: Log, r: ReplyTo)
    requires LogRight(s, l)
    ensures r in l.told ==> r in s.created && r !in s.requests
  {
  }

  lemma NoAnswer(s: System, l: Log, r: ReplyTo)
    requires r !in s.answers
    ensures AnswerTrue(s, l, r)
  {
  }

  // The tree of a node all of whose slots are filled.
  lemma FilledJustified(s: System, l: Log, to: ReplyTo, tree: Tree)
    requires Inv(s) && to.Child? && to.parent in s.waiting && to in s.answers && InBounds(s, to)
    requires Waits(l, to.parent, s.waiting[to.parent])
    requires s.answers[to] == Ok(tree) && AllFilled(s.waiting[to.parent].slots[to.ind := Some(tree)])
    ensures var e := s.waiting[to.parent];
            && e.replyTo in s.created
            && Justified(s, l, e.replyTo, Tree(e.request.msg, e.outs, Values(e.slots[to.ind := Some(tree)])))
  {
    var n, e := to.parent, s.waiting[to.parent];
    assert EntryRight(s, n, e);
    hide Inv, Targets, WellBuilt, Readable, OutsOf;
    var slots := e.slots[to.ind := Some(tree)];
    forall i | 0 <= i < |slots|
      ensures Child(n, i) in s.answers && s.answers[Child(n, i)] == Ok(slots[i].value)
    {
      assert SlotRight(s, n, e, i);
      assert i != to.ind ==> slots[i] == e.slots[i];
      assert i == to.ind ==> Child(n, i) == to && slots[i] == Some(tree);
    }
  }

  // What delivering a reply adds to the answers.
  lemma DeliverEffect(s: System, l: Log, to: ReplyTo, r: ReplyTo)
    requires Inv(s) && LogRight(s, l) && AnswersRight(s, l) && Enabled(s, Deliver(to)) && r in DeliverStep(s, to).answers
    ensures var t := DeliverStep(s, to);
            || (r in s.answers && t.answers[r] == s.answers[r])
            || (t.answers[r] == Err && AnyBad(s, l) && r in s.created)
            || (t.answers[r].Ok? && r in s.created && Justified(s, l, r, t.answers[r].value))
  {
    if to.Child? && to.parent in s.waiting {
      var e := s.waiting[to.parent];
      assert AnswerTrue(s, l, to);
      assert Waits(l, to.parent, e);
      CreatedOf(s, to.parent);
      if s.answers[to].Ok? && AllFilled(e.slots[to.ind := Some(s.answers[to].value)]) {
        hide Inv, LogRight, AnswersRight, AnyBad, Justified;
        FilledJustified(s, l, to, s.answers[to].value);
      }
    }
  }

  lemma DeliverAnswers(s: System, l: Log, to: ReplyTo)
    requires Inv(s) && LogRight(s, l) && AnswersRight(s, l) && Enabled(s, Deliver(to))
    ensures AnswersRight(DeliverStep(s, to), l)
  {
    var t := DeliverStep(s, to);
    OnceDelivered(s, to);
    assert Extends(s.created, t.created);
    hide Inv, LogRight, DeliverStep, Bad, Justified, AnyBad, Enabled;
    forall r ensures BadFails(t, l, r) {
      assert BadFails(s, l, r);
    }
    forall r ensures AnswerTrue(t, l, r) {
      if r in t.answers {
        assert AnswerTrue(s, l, r);
        DeliverEffect(s, l, to, r);
        if t.answers[r].Err? {
          BadStays(s, t, l, l);
        } else {
          JustifiedStays(s, t, l, l, r, t.answers[r].value);
        }
      }
    }
  }

  // ---- Whole runs ----

  ghost predicate Truth(s: System, l: Log) {
    Inv(s) && LogRight(s, l) && AnswersRight(s, l)
  }

  lemma StartTrue(msg: Msg, depth: nat)
    ensures Truth(Start(msg, depth), NOTHING)
  {
    StartInv(msg, depth);
    hide Inv;
  }

  lemma StepTrue(s: System, l: Log, e: Event)
    requires Truth(s, l) && Enabled(s, e)
    ensures Truth(Apply(s, e), Note(l, s, e))
  {
    hide Inv, LogRight, AnswersRight;
    StepKeepsInv(s, e);
    match e
    case Emulate(to, outcome) =>
      EmulateEffect(s, to, outcome);
      EmulateLog(s, EmulateStep(s, to, outcome), l, to, outcome);
      EmulateAnswers(s, EmulateStep(s, to, outcome), l, to, outcome);
    case Deliver(to) =>
      DeliverLog(s, l, to);
      DeliverAnswers(s, l, to);
  }

  lemma {:induction false} RunTrue(s: System, l: Log, es: seq<Event>)
    requires Truth(s, l) && Possible(s, es)
    ensures Truth(Play(s, es), PlayLog(s, l, es))
    decreases |es|
  {
    hide Truth, Apply, Enabled, Note;
    if es != [] {
      StepTrue(s, l, es[0]);
      RunTrue(Apply(s, es[0]), Note(l, s, es[0]), es[1..]);
    }
  }

  // What is told of a promise before it is emulated, and by that.
  lemma ToldFirst(s: System, l: Log, e: Event, r: ReplyTo, o: Outcome)
    requires Truth(s, l) && Enabled(s, e)
    ensures e.Emulate? ==> e.to !in l.told && e.to in Note(l, s, e).told
    ensures r in l.told ==> r in Note(l, s, e).told && Note(l, s, e).told[r] == l.told[r]
    ensures r in Note(l, s, e).told && Note(l, s, e).told[r] == o <==> (r in l.told && l.told[r] == o) || e == Emulate(r, o)
  {
    hide Inv, LogRight, AnswersRight;
    if e.Emulate? {
      ToldIsCreated(s, l, e.to);
    }
  }

  // The outcomes told are those of the run's events.
  lemma {:induction false} ToldByEvents(s: System, l: Log, es: seq<Event>, r: ReplyTo, o: Outcome)
    requires Truth(s, l) && Possible(s, es)
    ensures r in PlayLog(s, l, es).told && PlayLog(s, l, es).told[r] == o <==>
            (r in l.told && l.told[r] == o) || Emulate(r, o) in es
    decreases |es|
  {
    if es != [] {
      hide Truth, Apply, Enabled, Note;
      assert es == [es[0]] + es[1..];
      StepTrue(s, l, es[0]);
      ToldFirst(s, l, es[0], r, o);
      ToldByEvents(Apply(s, es[0]), Note(l, s, es[0]), es[1..], r, o);
    }
  }

  // No emulated message failed, and every out-message that had to be followed could be read.
  ghost predicate AllWell(s: System, es: seq<Event>) {
    forall to, outcome :: Emulate(to, outcome) in es ==> to in s.created && !Bad(s.created[to].depth, outcome)
  }

  /** A run that cannot go on answers its caller with exactly the tree that the outcomes make up if
      all went well, and with an error if not. */
  lemma AnswerIsDetermined(msg: Msg, depth: nat, es: seq<Event>)
    requires Possible(Start(msg, depth), es) && forall e :: !Enabled(Play(Start(msg, depth), es), e)
    ensures var s, l := Play(Start(msg, depth), es), PlayLog(Start(msg, depth), NOTHING, es);
            && Root in s.answers
            && s.answers[Root] == (if AllWell(s, es) then Ok(TreeOf(l, Root, msg, depth)) else Err)
  {
    var start := Start(msg, depth);
    StartInv(msg, depth);
    StartTrue(msg, depth);
    RunKeepsInv(start, es);
    RunTrue(start, NOTHING, es);
    FinishedRunAnswers(msg, depth, es);
    hide Truth;
    var s, l := Play(start, es), PlayLog(start, NOTHING, es);
    assert Root in start.created && s.created[Root] == Request(msg, depth);
    WellIffNoBad(start, es, s, l);
    hide Play, PlayLog, Possible, TreeOf, AllWell, Enabled;
    AnswerOf(s, l, Request(msg, depth));
  }

  lemma AnswerOf(s: System, l: Log, q: Request)
    requires Truth(s, l) && s.answers.Keys == s.created.Keys
    requires Root in s.created && s.created[Root] == q
    ensures s.answers[Root] == if AnyBad(s, l) then Err else Ok(TreeOf(l, Root, q.msg, q.depth))
  {
    assert AnswerTrue(s, l, Root);
    if AnyBad(s, l) {
      var r :| r in l.told && r in s.created && Bad(s.created[r].depth, l.told[r]);
      assert BadFails(s, l, r);
      ErrorReachesRoot(s, l, r);
    } else {
      AnswerIsTree(s, l, Root, q);
    }
  }

  lemma WellIffNoBad(start: System, es: seq<Event>, s: System, l: Log)
    requires Truth(start, NOTHING) && Possible(start, es)
    requires s == Play(start, es) && l == PlayLog(start, NOTHING, es) && Truth(s, l)
    ensures AllWell(s, es) <==> !AnyBad(s, l)
  {
    assert ToldRight(s, l);
    hide Truth, Possible, Play, PlayLog, Bad;
    if AnyBad(s, l) {
      var r :| r in l.told && r in s.created && Bad(s.created[r].depth, l.told[r]);
      ToldByEvents(start, NOTHING, es, r, l.told[r]);
    }
    if !AnyBad(s, l) {
      forall to, outcome | Emulate(to, outcome) in es ensures to in s.created && !Bad(s.created[to].depth, outcome) {
        ToldByEvents(start, NOTHING, es, to, outcome);
      }
    }
  }
}
