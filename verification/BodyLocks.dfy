/** Concurrent insert batches that share message bodies. A batch writes only the bodies that no
    other batch has in progress, and its transaction may be rolled back and retried
    (ton-index-postgres-v2/src/InsertManagerPostgres.cpp). */
module BodyLocks {
  type Hash = nat

  // An attempt of a batch: not begun or rolled back; holding its body locks; past the locks
  // with its bodies written but not committed; committed.
  datatype Phase = Idle | Locked(owned: set<Hash>) | Unlocked(owned: set<Hash>) | Committed

  // `needs` are the hashes of the bodies and initial states of the batch's messages.
  datatype Batch = Batch(needs: set<Hash>, phase: Phase)

  // `stored` is the committed content of `message_contents`; `leaked` remembers the locks of
  // attempts that died between taking and releasing them.
  datatype Db = Db(stored: set<Hash>, inProgress: set<Hash>, batches: seq<Batch>, leaked: set<Hash>)

  // Every step is made by one batch.
  datatype Event = Lock(i: nat) | Unlock(i: nat) | Commit(i: nat) | Rollback(i: nat) | Throw(i: nat)

  predicate Enabled(s: Db, e: Event) {
    e.i < |s.batches| &&
    var p := s.batches[e.i].phase;
    match e
    case Lock(_) => p.Idle?
    case Unlock(_) => p.Locked?
    case Commit(_) => p.Unlocked?
    case Rollback(_) => p.Idle? || p.Unlocked?
    case Throw(_) => p.Locked?
  }

  function Become(s: Db, i: nat, p: Phase): seq<Batch>
    requires i < |s.batches|
  {
    s.batches[i := s.batches[i].(phase := p)]
  }

  function Apply(s: Db, e: Event): Db
    requires Enabled(s, e)
  {
    var b := s.batches[e.i];
    match e
    case Lock(i) =>
      var free := b.needs - s.inProgress;
      s.(inProgress := s.inProgress + free, batches := Become(s, i, Locked(free)))
    case Unlock(i) => s.(inProgress := s.inProgress - b.phase.owned, batches := Become(s, i, Unlocked(b.phase.owned)))
    case Commit(i) => s.(stored := s.stored + b.phase.owned, batches := Become(s, i, Committed))
    case Rollback(i) => s.(batches := Become(s, i, Idle))
    case Throw(i) => s.(batches := Become(s, i, Idle), leaked := s.leaked + b.phase.owned)
  }

  predicate Possible(s: Db, es: seq<Event>)
    decreases |es|
  {
    es == [] || (Enabled(s, es[0]) && Possible(Apply(s, es[0]), es[1..]))
  }

  function Play(s: Db, es: seq<Event>): Db
    requires Possible(s, es)
    decreases |es|
  {
    if es == [] then s else Play(Apply(s, es[0]), es[1..])
  }

  predicate Owns(b: Batch, h: Hash) {
    (b.phase.Locked? || b.phase.Unlocked?) && h in b.phase.owned
  }

  // The batch will still bring body `h`: it starts over, or has it in its transaction.
  predicate WillStore(b: Batch, h: Hash) {
    h in b.needs && (b.phase.Idle? || Owns(b, h))
  }

  predicate Covered(s: Db, h: Hash) {
    h in s.stored || h in s.leaked || exists j :: 0 <= j < |s.batches| && WillStore(s.batches[j], h)
  }

  // A body is in progress exactly when one batch holds its lock or the lock was leaked.
  ghost predicate LocksRight(s: Db) {
    && (forall i :: 0 <= i < |s.batches| && s.batches[i].phase.Locked? ==>
          s.batches[i].phase.owned <= s.inProgress && s.batches[i].phase.owned !! s.leaked)
    && (forall i, j :: 0 <= i < j < |s.batches| && s.batches[i].phase.Locked? && s.batches[j].phase.Locked? ==>
          s.batches[i].phase.owned !! s.batches[j].phase.owned)
    && s.leaked <= s.inProgress
    && (forall h :: h in s.inProgress && h !in s.leaked ==> Holder(s, h))
    && (forall i, h :: 0 <= i < |s.batches| && Owns(s.batches[i], h) ==> h in s.batches[i].needs)
  }

  predicate Holder(s: Db, h: Hash) {
    exists j :: 0 <= j < |s.batches| && s.batches[j].phase.Locked? && h in s.batches[j].phase.owned
  }

  // Every body that some batch needs is stored, still to be brought, or leaked.
  ghost predicate Inv(s: Db) {
    && LocksRight(s)
    && (forall i, h :: 0 <= i < |s.batches| && h in s.batches[i].needs ==> Covered(s, h))
  }

  lemma LockKeepsLocks(s: Db, i: nat)
    requires LocksRight(s) && Enabled(s, Lock(i))
    ensures LocksRight(Apply(s, Lock(i)))
  {
    var t := Apply(s, Lock(i));
    var free := s.batches[i].needs - s.inProgress;
    forall h | h in t.inProgress && h !in t.leaked ensures Holder(t, h) {
      if h in free {
        assert t.batches[i].phase == Locked(free);
      } else {
        var j :| 0 <= j < |s.batches| && s.batches[j].phase.Locked? && h in s.batches[j].phase.owned;
        assert t.batches[j] == s.batches[j];
      }
    }
  }

  lemma ReleaseKeepsLocks(s: Db, e: Event)
    requires LocksRight(s) && Enabled(s, e) && !e.Lock?
    ensures LocksRight(Apply(s, e))
  {
    var t := Apply(s, e);
    forall h | h in t.inProgress && h !in t.leaked ensures Holder(t, h) {
      assert Holder(s, h);
      var j :| 0 <= j < |s.batches| && s.batches[j].phase.Locked? && h in s.batches[j].phase.owned;
      assert j != e.i && t.batches[j] == s.batches[j];
    }
  }

  lemma StepKeepsCover(s: Db, e: Event, h: Hash)
    requires LocksRight(s) && Enabled(s, e) && Covered(s, h)
    ensures Covered(Apply(s, e), h)
  {
    var t := Apply(s, e);
    if h !in s.stored && h !in s.leaked {
      var j :| 0 <= j < |s.batches| && WillStore(s.batches[j], h);
      if j != e.i {
        assert t.batches[j] == s.batches[j] && WillStore(t.batches[j], h);
      } else if e.Lock? && h in s.inProgress {
        assert Holder(s, h);
        var k :| 0 <= k < |s.batches| && s.batches[k].phase.Locked? && h in s.batches[k].phase.owned;
        assert Owns(s.batches[k], h);
        assert t.batches[k] == s.batches[k] && WillStore(t.batches[k], h);
      } else if !e.Commit? {
        assert WillStore(t.batches[j], h);
      }
    }
  }

  lemma StepKeepsInv(s: Db, e: Event)
    requires Inv(s) && Enabled(s, e)
    ensures Inv(Apply(s, e))
  {
    hide LocksRight, Covered;
    var t := Apply(s, e);
    if e.Lock? {
      LockKeepsLocks(s, e.i);
    } else {
      ReleaseKeepsLocks(s, e);
    }
    forall i, h | 0 <= i < |t.batches| && h in t.batches[i].needs ensures Covered(t, h) {
      assert h in s.batches[i].needs;
      StepKeepsCover(s, e, h);
    }
  }

  lemma {:induction false} RunKeepsInv(s: Db, es: seq<Event>)
    requires Inv(s) && Possible(s, es)
    ensures Inv(Play(s, es))
    decreases |es|
  {
    hide Inv, Apply, Enabled;
    if es != [] {
      StepKeepsInv(s, es[0]);
      RunKeepsInv(Apply(s, es[0]), es[1..]);
    }
  }

  // Any number of batches, none begun.
  predicate Fresh(s: Db) {
    s.inProgress == {} && s.leaked == {} && forall i :: 0 <= i < |s.batches| ==> s.batches[i].phase.Idle?
  }

  predicate AllCommitted(s: Db) {
    forall i :: 0 <= i < |s.batches| ==> s.batches[i].phase.Committed?
  }

  lemma FreshInv(s: Db)
    requires Fresh(s)
    ensures Inv(s)
  {
    forall i, h | 0 <= i < |s.batches| && h in s.batches[i].needs ensures Covered(s, h) {
      assert WillStore(s.batches[i], h);
    }
  }

  lemma {:induction false} NoThrowNoLeak(s: Db, es: seq<Event>)
    requires Possible(s, es) && s.leaked == {} && forall e :: e in es ==> !e.Throw?
    ensures Play(s, es).leaked == {}
    decreases |es|
  {
    if es != [] {
      assert es[0] in es && forall e :: e in es[1..] ==> e in es;
      NoThrowNoLeak(Apply(s, es[0]), es[1..]);
    }
  }

  /** When every batch has committed, each body that a message refers to is stored or its lock
      was leaked and is still held, whatever the interleaving and however many attempts were
      rolled back. */
  lemma BodiesStoredOrLeaked(s: Db, es: seq<Event>, i: nat, h: Hash)
    requires Fresh(s) && Possible(s, es) && AllCommitted(Play(s, es))
    requires i < |Play(s, es).batches| && h in Play(s, es).batches[i].needs
    ensures h in Play(s, es).stored || (h in Play(s, es).leaked && h in Play(s, es).inProgress)
  {
    FreshInv(s);
    RunKeepsInv(s, es);
    hide Play, Possible;
    assert Covered(Play(s, es), h);
  }

  /** If no attempt dies while it holds its locks, no referenced body is missing at the end. */
  lemma AllBodiesStored(s: Db, es: seq<Event>, i: nat, h: Hash)
    requires Fresh(s) && Possible(s, es) && AllCommitted(Play(s, es))
    requires forall e :: e in es ==> !e.Throw?
    requires i < |Play(s, es).batches| && h in Play(s, es).batches[i].needs
    ensures h in Play(s, es).stored
  {
    BodiesStoredOrLeaked(s, es, i, h);
    NoThrowNoLeak(s, es);
  }

  // A leaked body that is neither stored nor in anybody's transaction.
  predicate Lost(s: Db, h: Hash) {
    h in s.leaked && h in s.inProgress && h !in s.stored && forall i :: 0 <= i < |s.batches| ==> !Owns(s.batches[i], h)
  }

  lemma LostStep(s: Db, e: Event, h: Hash)
    requires Lost(s, h) && Enabled(s, e)
    ensures Lost(Apply(s, e), h)
  {
    var t := Apply(s, e);
    assert !Owns(s.batches[e.i], h);
    forall i | 0 <= i < |t.batches| ensures !Owns(t.batches[i], h) {
      assert i != e.i ==> t.batches[i] == s.batches[i];
    }
  }

  /** The proviso is needed: a body lost to a leaked lock is never stored in any continuation. */
  lemma {:induction false} LostForever(s: Db, es: seq<Event>, h: Hash)
    requires Lost(s, h) && Possible(s, es)
    ensures Lost(Play(s, es), h)
    decreases |es|
  {
    hide Lost, Apply, Enabled;
    if es != [] {
      LostStep(s, es[0], h);
      LostForever(Apply(s, es[0]), es[1..], h);
    }
  }

  // ---- Exactly when a body is lost ----

  // No continuation ever stores the body.
  ghost predicate NeverStored(s: Db, h: Hash) {
    forall es :: Possible(s, es) ==> h !in Play(s, es).stored
  }

  predicate OnlyOwner(s: Db, i: nat, h: Hash) {
    i < |s.batches| && Owns(s.batches[i], h) && forall j :: 0 <= j < |s.batches| && j != i ==> !Owns(s.batches[j], h)
  }

  // The step that gives a body up: its only owner dies inside the locked section, or is rolled
  // back when the lock of the body has been leaked before.
  predicate Drops(s: Db, e: Event, h: Hash) {
    h !in s.stored && OnlyOwner(s, e.i, h) && (e.Throw? || (e.Rollback? && h in s.leaked))
  }

  lemma LostIffDropped(s: Db, e: Event, h: Hash)
    requires LocksRight(s) && Enabled(s, e) && !Lost(s, h)
    ensures Lost(Apply(s, e), h) <==> Drops(s, e, h)
  {
    var t := Apply(s, e);
    assert forall j :: 0 <= j < |s.batches| && j != e.i ==> t.batches[j] == s.batches[j];
    if Lost(t, h) {
      forall j | 0 <= j < |s.batches| && j != e.i ensures !Owns(s.batches[j], h) {
        assert !Owns(t.batches[j], h);
      }
      assert !Owns(t.batches[e.i], h);
    }
  }

  // The events with which an owner brings the body.
  lemma OwnerStores(s: Db, j: nat, h: Hash)
    requires j < |s.batches| && Owns(s.batches[j], h)
    ensures !NeverStored(s, h)
  {
    if s.batches[j].phase.Unlocked? {
      StoresNext(s, Commit(j), [], h);
    } else {
      var t := Apply(s, Unlock(j));
      StoresNext(t, Commit(j), [], h);
      StoresNext(s, Unlock(j), [Commit(j)], h);
    }
  }

  lemma StoresNext(s: Db, e: Event, es: seq<Event>, h: Hash)
    requires Enabled(s, e) && Possible(Apply(s, e), es) && h in Play(Apply(s, e), es).stored
    ensures Possible(s, [e] + es) && h in Play(s, [e] + es).stored && !NeverStored(s, h)
  {
    assert ([e] + es)[1..] == es;
  }

  /** A body that some batch needs is never stored in any continuation exactly when it is lost. */
  lemma DoomedIffLost(s: Db, i: nat, h: Hash)
    requires Inv(s) && i < |s.batches| && h in s.batches[i].needs
    ensures NeverStored(s, h) <==> Lost(s, h)
  {
    if Lost(s, h) {
      forall es | Possible(s, es) ensures h !in Play(s, es).stored {
        LostForever(s, es, h);
      }
    } else if h in s.stored {
      assert Possible(s, []) && h in Play(s, []).stored;
    } else if j :| 0 <= j < |s.batches| && Owns(s.batches[j], h) {
      OwnerStores(s, j, h);
    } else {
      assert Covered(s, h) && !Holder(s, h);
      var j :| 0 <= j < |s.batches| && WillStore(s.batches[j], h);
      LockedStores(s, j, h);
    }
  }

  // A batch that starts over takes the lock of a body nobody has in progress, and brings it.
  lemma LockedStores(s: Db, j: nat, h: Hash)
    requires j < |s.batches| && s.batches[j].phase.Idle? && h in s.batches[j].needs && h !in s.inProgress
    ensures !NeverStored(s, h)
  {
    var t := Apply(s, Lock(j));
    assert Owns(t.batches[j], h);
    OwnerStores(t, j, h);
    var es :| Possible(t, es) && h in Play(t, es).stored;
    StoresNext(s, Lock(j), es, h);
  }

  /** An attempt that dies inside the locked section loses a body that it owns, for good, exactly
      when the body is not stored and no other batch has it in its transaction. */
  lemma ThrowDoomsIff(s: Db, i: nat, h: Hash)
    requires Inv(s) && Enabled(s, Throw(i)) && h in s.batches[i].phase.owned
    ensures NeverStored(Apply(s, Throw(i)), h) <==>
            h !in s.stored && forall j :: 0 <= j < |s.batches| && j != i ==> !Owns(s.batches[j], h)
  {
    assert Owns(s.batches[i], h);
    StepKeepsInv(s, Throw(i));
    LostIffDropped(s, Throw(i), h);
    DoomedIffLost(Apply(s, Throw(i)), i, h);
  }

  // Some step of the run gives the body up.
  ghost predicate DroppedIn(s: Db, es: seq<Event>, h: Hash)
    requires Possible(s, es)
    decreases |es|
  {
    es != [] && (Drops(s, es[0], h) || DroppedIn(Apply(s, es[0]), es[1..], h))
  }

  lemma {:induction false} LostIffDroppedIn(s: Db, es: seq<Event>, h: Hash)
    requires Inv(s) && Possible(s, es) && !Lost(s, h)
    ensures Lost(Play(s, es), h) <==> DroppedIn(s, es, h)
    decreases |es|
  {
    if es != [] {
      LostIffDropped(s, es[0], h);
      StepKeepsInv(s, es[0]);
      var t := Apply(s, es[0]);
      hide Lost, Drops, Inv, Apply, Enabled;
      if Lost(t, h) {
        LostForever(t, es[1..], h);
      } else {
        LostIffDroppedIn(t, es[1..], h);
      }
    }
  }

  /** When every batch has committed, a referenced body is missing exactly when some step of the
      run gave it up. */
  lemma MissingIffDropped(s: Db, es: seq<Event>, i: nat, h: Hash)
    requires Fresh(s) && Possible(s, es) && AllCommitted(Play(s, es))
    requires i < |Play(s, es).batches| && h in Play(s, es).batches[i].needs
    ensures h !in Play(s, es).stored <==> DroppedIn(s, es, h)
  {
    BodiesStoredOrLeaked(s, es, i, h);
    FreshInv(s);
    LostIffDroppedIn(s, es, h);
    hide Play, Possible, DroppedIn;
    var t := Play(s, es);
    assert forall j :: 0 <= j < |t.batches| ==> !Owns(t.batches[j], h);
  }

  /** One attempt of one batch dying inside the locked section loses its bodies for good. */
  lemma ThrowLosesBodies(h: Hash)
    ensures var s := Db({}, {}, [Batch({h}, Idle)], {});
            var t := Apply(Apply(s, Lock(0)), Throw(0));
            Fresh(s) && Enabled(s, Lock(0)) && Enabled(Apply(s, Lock(0)), Throw(0)) && Lost(t, h)
  {
    var s := Db({}, {}, [Batch({h}, Idle)], {});
    assert {h} - {} == {h};
    var u := Apply(s, Lock(0));
    assert u == Db({}, {h}, [Batch({h}, Locked({h}))], {});
    assert Apply(u, Throw(0)) == Db({}, {h}, [Batch({h}, Idle)], {h});
  }

  // ---- The shared set itself ----

  predicate NoRepeats(q: seq<Hash>) {
    forall i, j :: 0 <= i < j < |q| ==> q[i] != q[j]
  }

  function Needs(refs: seq<Hash>): set<Hash> {
    set i | 0 <= i < |refs| :: refs[i]
  }

  class BodiesInProgress {
    var inProgress: set<Hash>

    constructor ()
      ensures inProgress == {}
    {
      inProgress := {};
    }

    /** Take the locks of all referenced bodies nobody holds, each once. */
    method LockBodies(refs: seq<Hash>) returns (owned: seq<Hash>)
      modifies this
      ensures Needs(owned) == Needs(refs) - old(inProgress) && NoRepeats(owned)
      ensures inProgress == old(inProgress) + Needs(owned)
    {
      owned := [];
      ghost var before := inProgress;
      for k := 0 to |refs|
        invariant Needs(owned) == Needs(refs[..k]) - before && NoRepeats(owned)
        invariant inProgress == before + Needs(owned)
      {
        NeedsSnoc(refs[..k], refs[k]);
        assert refs[..k + 1] == refs[..k] + [refs[k]];
        if refs[k] !in inProgress {
          NeedsSnoc(owned, refs[k]);
          NeedsHas(owned, refs[k]);
          owned := owned + [refs[k]];
          inProgress := inProgress + {refs[k]};
        }
      }
      assert refs[..|refs|] == refs;
    }

    method UnlockBodies(owned: seq<Hash>)
      modifies this
      ensures inProgress == old(inProgress) - Needs(owned)
    {
      ghost var before := inProgress;
      for k := 0 to |owned|
        invariant inProgress == before - Needs(owned[..k])
      {
        NeedsSnoc(owned[..k], owned[k]);
        assert owned[..k + 1] == owned[..k] + [owned[k]];
        inProgress := inProgress - {owned[k]};
      }
      assert owned[..|owned|] == owned;
    }
  }

  lemma NeedsSnoc(refs: seq<Hash>, h: Hash)
    ensures Needs(refs + [h]) == Needs(refs) + {h}
  {
    var all := refs + [h];
    forall x | x in Needs(refs) + {h} ensures x in Needs(all) {
      if x in Needs(refs) {
        var i :| 0 <= i < |refs| && refs[i] == x;
        assert all[i] == x;
      } else {
        assert all[|refs|] == x;
      }
    }
  }

  lemma NeedsHas(refs: seq<Hash>, h: Hash)
    ensures h in Needs(refs) <==> h in refs
  {
  }
}
