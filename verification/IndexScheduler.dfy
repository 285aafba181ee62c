/** The scheduler actor's own fields and loops, proved to take the steps of the state machine
    (ton-index-postgres-v2/src/IndexScheduler.cpp). */
module IndexScheduling {
  import opened SchedulerModel

  class IndexScheduler {
    const config: Config
    var queuedSeqnos: seq<nat>
    var processingSeqnos: set<nat>
    var existingSeqnos: set<nat>
    var lastKnownSeqno: nat

    // The part of the state machine that the actor holds.
    ghost predicate Shows(s: Scheduler)
      reads this
    {
      && queuedSeqnos == s.queue && processingSeqnos == s.processing
      && existingSeqnos == s.existing && lastKnownSeqno == s.lastKnown
    }

    constructor (c: Config)
      ensures config == c && queuedSeqnos == [] && processingSeqnos == {} && existingSeqnos == {} && lastKnownSeqno == 0
    {
      config := c;
      queuedSeqnos, processingSeqnos, existingSeqnos, lastKnownSeqno := [], {}, {}, 0;
    }

    /** The seqno to resume from, given the stored ones in ascending order. */
    method GotExistingSeqnos(stored: seq<nat>) returns (next: nat)
      ensures next == NextSeqno(config.from, stored)
    {
      next := config.from;
      if |stored| > 0 {
        next := stored[0];
        var i := 0;
        while i < |stored| && stored[i] == next
          invariant i <= |stored|
          invariant AfterRun(stored[i..], next) == AfterRun(stored, stored[0])
        {
          assert stored[i..][1..] == stored[i + 1..];
          next := next + 1;
          i := i + 1;
        }
      }
    }

    /** Everything up to the restored state counts as existing; the assembler is told what to expect. */
    method GotTraceAssemblerLastStateSeqno(lastState: nat) returns (expected: nat)
      requires queuedSeqnos == [] && processingSeqnos == {} && existingSeqnos == {} && lastKnownSeqno == 0
      modifies this`existingSeqnos
      ensures Shows(Initial(config.from, lastState)) && expected == Initial(config.from, lastState).expected
    {
      var seqno := config.from;
      while seqno <= lastState
        invariant existingSeqnos == Between(config.from, lastState) - Between(seqno, lastState)
        invariant config.from <= seqno
      {
        existingSeqnos := existingSeqnos + {seqno};
        seqno := seqno + 1;
      }
      expected := lastState + 1;
    }

    method GotLastKnownSeqno(seqno: nat, ghost s: Scheduler)
      requires Shows(s)
      modifies this`queuedSeqnos, this`lastKnownSeqno
      ensures Shows(GotLastKnown(config, s, seqno))
    {
      if config.to > 0 && lastKnownSeqno > config.to {
        return;
      }
      var x := lastKnownSeqno + 1;
      while x <= seqno
        invariant lastKnownSeqno == s.lastKnown
        invariant lastKnownSeqno < x && (lastKnownSeqno <= seqno ==> x <= seqno + 1)
        invariant lastKnownSeqno > seqno ==> x == lastKnownSeqno + 1
        invariant queuedSeqnos == s.queue + Discover(config, existingSeqnos, lastKnownSeqno, x - 1)
      {
        if !config.force && x in existingSeqnos {
          // Already there: skipped.
        } else if config.from <= x && (config.to == 0 || x <= config.to) {
          queuedSeqnos := queuedSeqnos + [x];
        }
        x := x + 1;
      }
      assert Discover(config, existingSeqnos, lastKnownSeqno, x - 1) == Discover(config, existingSeqnos, lastKnownSeqno, seqno);
      lastKnownSeqno := seqno;
    }

    method ScheduleNextSeqnos(ghost s: Scheduler) returns (sent: seq<nat>)
      requires Shows(s)
      modifies this`queuedSeqnos, this`processingSeqnos
      ensures Shows(Dispatch(config, s))
      ensures sent + queuedSeqnos == old(queuedSeqnos)
    {
      ghost var t := s;
      sent := [];
      while queuedSeqnos != [] && |processingSeqnos| < config.maxActive
        invariant Shows(t) && Dispatch(config, t) == Dispatch(config, s)
        invariant sent + queuedSeqnos == old(queuedSeqnos)
        decreases |queuedSeqnos|
      {
        var seqno := queuedSeqnos[0];
        t := DispatchOne(t);
        sent := sent + [seqno];
        queuedSeqnos := queuedSeqnos[1..];
        processingSeqnos := processingSeqnos + {seqno};
      }
    }

    method RescheduleSeqno(seqno: nat, ghost s: Scheduler)
      requires Shows(s)
      modifies this`queuedSeqnos, this`processingSeqnos
      ensures Shows(Reschedule(s, seqno))
    {
      processingSeqnos := processingSeqnos - {seqno};
      queuedSeqnos := queuedSeqnos + [seqno];
    }

    method SeqnoQueuedToInsert(seqno: nat, accept: bool, ghost s: Scheduler) returns (sent: seq<nat>)
      requires Shows(s)
      modifies this`queuedSeqnos, this`processingSeqnos
      ensures Shows(Apply(config, s, QueuedToInsert(seqno, accept)))
    {
      processingSeqnos := processingSeqnos - {seqno};
      sent := [];
      if accept {
        sent := ScheduleNextSeqnos(s.(processing := s.processing - {seqno}, stage := s.stage[seqno := Inserting]));
      }
    }

    method SeqnoInserted(seqno: nat, ghost s: Scheduler)
      requires Shows(s)
      modifies this`existingSeqnos
      ensures Shows(Apply(config, s, Inserted(seqno, true)))
    {
      existingSeqnos := existingSeqnos + {seqno};
    }
  }
}
