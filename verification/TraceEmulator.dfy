/** The emulator actor's methods: the same loops and slot updates as the source, proved to take
    the steps of the state machine (ton-trace-emulator/src/TraceEmulator.cpp). The actors of all
    accounts are represented by one, since node identities are global. */
module TraceEmulating {
  import opened Wrappers
  import opened TraceEmulation

  lemma {:induction false} TargetsFrom(outs: seq<OutMsg>, k: nat)
    requires k <= |outs| && forall i :: 0 <= i < k ==> !outs[i].Unreadable?
    ensures Targets(outs) == Targets(outs[..k]) + Targets(outs[k..])
    ensures Readable(outs) == Readable(outs[k..])
  {
    if k == 0 {
      assert outs[..0] == [] && outs[0..] == outs;
    } else {
      assert outs[..k][1..] == outs[1..][..k - 1];
      assert outs[1..][k - 1..] == outs[k..];
      TargetsFrom(outs[1..], k - 1);
    }
  }

  lemma {:induction false} TargetsSnoc(outs: seq<OutMsg>, o: OutMsg)
    requires forall i :: 0 <= i < |outs| ==> !outs[i].Unreadable?
    ensures Targets(outs + [o]) == Targets(outs) + (if o.Internal? then [o.msg] else [])
  {
    if outs == [] {
      assert (outs + [o])[1..] == [];
    } else {
      assert (outs + [o])[1..] == outs[1..] + [o];
      TargetsSnoc(outs[1..], o);
    }
  }

  /** Pass the account-bound messages on, in order, until an unreadable one is found. */
  method PassOn(outs: seq<OutMsg>) returns (sent: seq<Msg>, readable: bool)
    ensures sent == Targets(outs) && readable == Readable(outs)
  {
    sent := [];
    for k := 0 to |outs|
      invariant forall i :: 0 <= i < k ==> !outs[i].Unreadable?
      invariant sent == Targets(outs[..k])
    {
      TargetsFrom(outs, k);
      assert outs[k..][0] == outs[k];
      assert outs[..k + 1] == outs[..k] + [outs[k]];
      TargetsSnoc(outs[..k], outs[k]);
      if outs[k].Unreadable? {
        return sent, false;
      }
      if outs[k].Internal? {
        sent := sent + [outs[k].msg];
      }
    }
    TargetsFrom(outs, |outs|);
    assert outs[..|outs|] == outs;
    readable := true;
  }

  class TraceEmulatorActor {
    var resultPromises: map<NodeId, Entry>

    constructor ()
      ensures resultPromises == map[]
    {
      resultPromises := map[];
    }

    /** Emulate one message: `sent` are the messages passed on to child actors, `reply` is the
        answer if there is one right away. */
    method EmulateTransaction(to: ReplyTo, q: Request, outcome: Outcome, node: NodeId, ghost s: System)
      returns (sent: seq<Msg>, reply: Option<Result<Tree>>)
      requires s.waiting == resultPromises && s.nextId == node && to in s.created && s.created[to] == q
      modifies this
      ensures outcome.Failed? || q.depth == 0 ==> sent == [] && reply.Some?
      ensures var t := s.(requests := s.requests - {to});
              var u := if outcome.Success? && q.depth > 0 then WithChildren(t, sent, q.depth - 1) else t;
              var v := u.(waiting := resultPromises);
              EmulateStep(s, to, outcome) == if reply.Some? then Answer(v, to, reply.value) else v
    {
      hide Targets, Readable, Requested, Children;
      sent := [];
      if outcome.Failed? {
        return sent, Some(Err);
      }
      if q.depth > 0 {
        var readable;
        sent, readable := PassOn(outcome.outs);
        if !readable {
          return sent, Some(Err);
        }
      }
      if sent == [] {
        return sent, Some(Ok(Tree(q.msg, outcome.outs, [])));
      }
      resultPromises := resultPromises[node := Entry(q, outcome.outs, seq(|sent|, _ => None), to)];
      return sent, None;
    }

    /** A child's tree arrives: fill its slot, and answer once no slot is empty. */
    method ChildEmulated(parent: NodeId, child: Tree, ind: nat, ghost s: System) returns (reply: Option<(ReplyTo, Tree)>)
      requires parent in resultPromises ==> ind < |resultPromises[parent].slots|
      requires s.waiting == resultPromises && Child(parent, ind) in s.answers && s.answers[Child(parent, ind)] == Ok(child)
      modifies this
      ensures var t := s.(undelivered := s.undelivered - {Child(parent, ind)}, waiting := resultPromises);
              DeliverStep(s, Child(parent, ind)) == if reply.Some? then Answer(t, reply.value.0, Ok(reply.value.1)) else t
    {
      if parent !in resultPromises {
        return None;
      }
      var e := resultPromises[parent];
      e := e.(slots := e.slots[ind := Some(child)]);
      resultPromises := resultPromises[parent := e];
      for i := 0 to |e.slots|
        invariant forall j :: 0 <= j < i ==> e.slots[j].Some?
        invariant resultPromises == s.waiting[parent := e]
      {
        if e.slots[i].None? {
          return None;
        }
      }
      resultPromises := resultPromises - {parent};
      assert resultPromises == s.waiting - {parent};
      return Some((e.replyTo, Tree(e.request.msg, e.outs, Values(e.slots))));
    }

    /** A child failed: the parent fails at once, and later replies to it are ignored. */
    method ChildError(parent: NodeId, ind: nat, ghost s: System) returns (reply: Option<ReplyTo>)
      requires s.waiting == resultPromises && Child(parent, ind) in s.answers && s.answers[Child(parent, ind)] == Err
      requires InBounds(s, Child(parent, ind))
      modifies this
      ensures var t := s.(undelivered := s.undelivered - {Child(parent, ind)}, waiting := resultPromises);
              DeliverStep(s, Child(parent, ind)) == if reply.Some? then Answer(t, reply.value, Err) else t
    {
      if parent !in resultPromises {
        return None;
      }
      var e := resultPromises[parent];
      resultPromises := resultPromises - {parent};
      return Some(e.replyTo);
    }
  }
}
