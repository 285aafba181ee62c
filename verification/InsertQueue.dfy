/** The queue of parsed blocks and the batches cut from it
    (tondb-scanner/src/InsertManagerBase.cpp, tondb-scanner/src/queue_state.h). */
module InsertQueue {
  datatype QueueState = QueueState(mcBlocks: int, blocks: int, txs: int, msgs: int, traces: int)

  const NOTHING := QueueState(0, 0, 0, 0, 0)

  function Plus(l: QueueState, r: QueueState): QueueState {
    QueueState(l.mcBlocks + r.mcBlocks, l.blocks + r.blocks, l.txs + r.txs, l.msgs + r.msgs, l.traces + r.traces)
  }

  function Minus(l: QueueState, r: QueueState): QueueState {
    QueueState(l.mcBlocks - r.mcBlocks, l.blocks - r.blocks, l.txs - r.txs, l.msgs - r.msgs, l.traces - r.traces)
  }

  // The comparison that the source writes `<`: not above on four counters; traces do not count.
  predicate Fits(l: QueueState, r: QueueState) {
    l.mcBlocks <= r.mcBlocks && l.blocks <= r.blocks && l.txs <= r.txs && l.msgs <= r.msgs
  }

  predicate NonNegative(q: QueueState) {
    q.mcBlocks >= 0 && q.blocks >= 0 && q.txs >= 0 && q.msgs >= 0 && q.traces >= 0
  }

  // ---- One task ----

  datatype Transaction = Transaction(hasInMsg: bool, outMsgs: nat)

  datatype Task = Task(seqno: nat, blocks: seq<seq<Transaction>>, traces: nat)

  function Messages(txs: seq<Transaction>): nat {
    if txs == [] then 0
    else Messages(txs[..|txs| - 1]) + txs[|txs| - 1].outMsgs + (if txs[|txs| - 1].hasInMsg then 1 else 0)
  }

  function AllTransactions(blocks: seq<seq<Transaction>>): seq<Transaction> {
    if blocks == [] then [] else AllTransactions(blocks[..|blocks| - 1]) + blocks[|blocks| - 1]
  }

  // A task is one masterchain block; its transactions and their messages count over all blocks.
  function Load(t: Task): QueueState {
    var all := AllTransactions(t.blocks);
    QueueState(1, |t.blocks|, |all|, Messages(all), t.traces)
  }

  lemma {:induction false} MessagesAppend(a: seq<Transaction>, b: seq<Transaction>)
    ensures Messages(a + b) == Messages(a) + Messages(b)
    decreases |b|
  {
    if b == [] {
      assert a + b == a;
    } else {
      assert (a + b)[..|a + b| - 1] == a + b[..|b| - 1];
      MessagesAppend(a, b[..|b| - 1]);
    }
  }

  // Whether the `k`-th message of a transaction exists: the in-message first, then the out-messages.
  predicate IsMessage(tx: Transaction, k: nat) {
    if k == 0 then tx.hasInMsg else k <= tx.outMsgs
  }

  function MessagesOf(tx: Transaction, i: nat): set<(nat, nat)> {
    set k: nat | k <= tx.outMsgs && IsMessage(tx, k) :: (i, k)
  }

  function AllMessages(txs: seq<Transaction>): set<(nat, nat)> {
    if txs == [] then {} else AllMessages(txs[..|txs| - 1]) + MessagesOf(txs[|txs| - 1], |txs| - 1)
  }

  function OutsUpTo(n: nat, i: nat): (r: set<(nat, nat)>)
    ensures |r| == n && forall p :: p in r <==> p.0 == i && 1 <= p.1 <= n
  {
    if n == 0 then {} else OutsUpTo(n - 1, i) + {(i, n)}
  }

  lemma MessagesOfCount(tx: Transaction, i: nat)
    ensures |MessagesOf(tx, i)| == tx.outMsgs + if tx.hasInMsg then 1 else 0
  {
    assert MessagesOf(tx, i) == OutsUpTo(tx.outMsgs, i) + (if tx.hasInMsg then {(i, 0)} else {});
  }

  lemma {:induction false} AllMessagesAre(txs: seq<Transaction>, p: (nat, nat))
    ensures p in AllMessages(txs) <==> p.0 < |txs| && IsMessage(txs[p.0], p.1)
  {
    if txs != [] {
      var n := |txs| - 1;
      AllMessagesAre(txs[..n], p);
      assert p in MessagesOf(txs[n], n) <==> p.0 == n && IsMessage(txs[n], p.1);
    }
  }

  /** The count is the number of messages: every out-message, and the in-message where there is one. */
  lemma {:induction false} MessagesAreCounted(txs: seq<Transaction>)
    ensures Messages(txs) == |AllMessages(txs)|
  {
    if txs != [] {
      var n := |txs| - 1;
      MessagesAreCounted(txs[..n]);
      MessagesOfCount(txs[n], n);
      forall p | p in AllMessages(txs[..n]) ensures p !in MessagesOf(txs[n], n) {
        AllMessagesAre(txs[..n], p);
      }
    }
  }

  lemma {:induction false} AllTransactionsAppend(a: seq<seq<Transaction>>, b: seq<seq<Transaction>>)
    ensures AllTransactions(a + b) == AllTransactions(a) + AllTransactions(b)
    decreases |b|
  {
    if b == [] {
      assert a + b == a;
    } else {
      assert (a + b)[..|a + b| - 1] == a + b[..|b| - 1];
      AllTransactionsAppend(a, b[..|b| - 1]);
    }
  }

  method GetQueueState(t: Task) returns (status: QueueState)
    ensures status == Load(t)
  {
    status := QueueState(1, |t.blocks|, 0, 0, t.traces);
    for i := 0 to |t.blocks|
      invariant var all := AllTransactions(t.blocks[..i]);
        status == QueueState(1, |t.blocks|, |all|, Messages(all), t.traces)
    {
      var txs := t.blocks[i];
      ghost var before := AllTransactions(t.blocks[..i]);
      assert t.blocks[..i + 1][..i] == t.blocks[..i];
      status := status.(txs := status.txs + |txs|);
      for j := 0 to |txs|
        invariant status == QueueState(1, |t.blocks|, |before| + |txs|, Messages(before) + Messages(txs[..j]), t.traces)
      {
        assert txs[..j + 1][..j] == txs[..j];
        status := status.(msgs := status.msgs + txs[j].outMsgs + (if txs[j].hasInMsg then 1 else 0));
      }
      assert txs[..|txs|] == txs;
      MessagesAppend(before, txs);
    }
    assert t.blocks[..|t.blocks|] == t.blocks;
  }

  // ---- Sums ----

  function Total(tasks: seq<Task>): (q: QueueState)
    ensures NonNegative(q) && q.mcBlocks == |tasks|
  {
    if tasks == [] then NOTHING else Plus(Total(tasks[..|tasks| - 1]), Load(tasks[|tasks| - 1]))
  }

  lemma TotalSnoc(a: seq<Task>, t: Task)
    ensures Total(a + [t]) == Plus(Total(a), Load(t))
  {
    hide Load, Plus;
    assert (a + [t])[..|a|] == a;
  }

  lemma {:induction false} TotalAppend(a: seq<Task>, b: seq<Task>)
    ensures Total(a + b) == Plus(Total(a), Total(b))
    decreases |b|
  {
    hide Load, Total, Plus;
    if b == [] {
      BatchStart();
      assert a + b == a;
      PlusNothing(Total(a));
    } else {
      var rest, last := b[..|b| - 1], b[|b| - 1];
      TotalAppend(a, rest);
      TotalSnoc(a + rest, last);
      TotalSnoc(rest, last);
      assert a + b == (a + rest) + [last];
      assert b == rest + [last];
      PlusAssoc(Total(a), Total(rest), Load(last));
    }
  }

  lemma PlusNothing(a: QueueState)
    ensures Plus(a, NOTHING) == a
  {}

  lemma PlusAssoc(a: QueueState, b: QueueState, c: QueueState)
    ensures Plus(Plus(a, b), c) == Plus(a, Plus(b, c))
  {}

  lemma BatchStart()
    ensures Total([]) == NOTHING
  {}

  // The blocks and the traces of several tasks.
  function AllBlocks(tasks: seq<Task>): seq<seq<Transaction>> {
    if tasks == [] then [] else AllBlocks(tasks[..|tasks| - 1]) + tasks[|tasks| - 1].blocks
  }

  function AllTraces(tasks: seq<Task>): nat {
    if tasks == [] then 0 else AllTraces(tasks[..|tasks| - 1]) + tasks[|tasks| - 1].traces
  }

  /** The sum counts the tasks, and what all their blocks together hold. */
  lemma {:induction false} TotalCountsAll(tasks: seq<Task>)
    ensures var all := AllTransactions(AllBlocks(tasks));
            Total(tasks) == QueueState(|tasks|, |AllBlocks(tasks)|, |all|, Messages(all), AllTraces(tasks))
  {
    if tasks != [] {
      var n := |tasks| - 1;
      TotalCountsAll(tasks[..n]);
      var before, last := AllBlocks(tasks[..n]), tasks[n].blocks;
      AllTransactionsAppend(before, last);
      MessagesAppend(AllTransactions(before), AllTransactions(last));
    }
  }

  // Removing the first task removes its load.
  lemma TotalHead(tasks: seq<Task>)
    requires tasks != []
    ensures Total(tasks[1..]) == Minus(Total(tasks), Load(tasks[0]))
  {
    hide Load;
    var one := [tasks[0]];
    assert one[..0] == [];
    TotalAppend(one, tasks[1..]);
    assert one + tasks[1..] == tasks;
  }

  // All tasks of a list of batches, in order.
  function Tasks(batches: seq<seq<Task>>): seq<Task> {
    if batches == [] then [] else batches[0] + Tasks(batches[1..])
  }

  lemma {:induction false} TasksSnoc(batches: seq<seq<Task>>, batch: seq<Task>)
    ensures Tasks(batches + [batch]) == Tasks(batches) + batch
    decreases |batches|
  {
    var all := batches + [batch];
    if batches == [] {
      assert all == [batch] && all[1..] == [];
      assert Tasks(all) == batch + [];
    } else {
      assert all[1..] == batches[1..] + [batch] && all[0] == batches[0];
      TasksSnoc(batches[1..], batch);
      assert (batches[0] + Tasks(batches[1..])) + batch == batches[0] + (Tasks(batches[1..]) + batch);
    }
  }

  // ---- What a batch is ----

  // A batch without its last task is within the limit; it is empty only if nothing is.
  ghost predicate GoodBatch(batch: seq<Task>, limit: QueueState) {
    if batch == [] then !Fits(NOTHING, limit) else Fits(Total(batch[..|batch| - 1]), limit)
  }

  // No further task would have been added: the limit is passed.
  ghost predicate Full(batch: seq<Task>, limit: QueueState) {
    !Fits(Total(batch), limit)
  }

  class InsertManager {
    const limit: QueueState
    const maxParallel: int

    var queue: seq<Task>
    var queueState: QueueState
    var parallel: int

    // The batches handed to insert actors so far, and how many of these reported back.
    var batches: seq<seq<Task>>
    ghost var finished: nat
    // Messages to itself, not yet handled, that ask for full batches.
    var scheduled: nat
    // Everything that was ever handed in.
    ghost var handedIn: seq<Task>

    ghost predicate Valid()
      reads this
    {
      && queueState == Total(queue)
      && Tasks(batches) + queue == handedIn
      && (forall i :: 0 <= i < |batches| ==> GoodBatch(batches[i], limit))
      && parallel == |batches| - finished && 0 <= parallel
      && (parallel <= maxParallel || parallel == 0)
    }

    constructor (limit: QueueState, maxParallel: int)
      ensures Valid() && handedIn == [] && batches == [] && finished == 0 && scheduled == 0
      ensures this.limit == limit && this.maxParallel == maxParallel
    {
      this.limit, this.maxParallel := limit, maxParallel;
      queue, queueState, parallel := [], NOTHING, 0;
      batches, finished, scheduled, handedIn := [], 0, 0, [];
    }

    /** The reported queue state is the load of everything waiting, the new task included. */
    method Insert(t: Task) returns (queued: QueueState)
      requires Valid()
      modifies this
      ensures Valid()
      ensures handedIn == old(handedIn) + [t] && queue == old(queue) + [t]
      ensures queued == queueState
      ensures batches == old(batches) && finished == old(finished) && scheduled == old(scheduled)
    {
      var delta := GetQueueState(t);
      TotalSnoc(queue, t);
      queue, queueState, handedIn := queue + [t], Plus(queueState, delta), handedIn + [t];
      queued := queueState;
    }

    // The inner loop: one batch from the front of the queue.
    method CutBatch() returns (batch: seq<Task>)
      requires queue != [] && queueState == Total(queue)
      modifies this`queue, this`queueState
      ensures queueState == Total(queue)
      ensures batch + queue == old(queue)
      ensures GoodBatch(batch, limit)
      ensures queue == [] || Full(batch, limit)
      ensures queue != [] ==> var q := Total(batch);
                q.mcBlocks > limit.mcBlocks || q.blocks > limit.blocks || q.txs > limit.txs || q.msgs > limit.msgs
      ensures batch != [] ==> var q := Total(batch[..|batch| - 1]);
                q.mcBlocks <= limit.mcBlocks && q.blocks <= limit.blocks && q.txs <= limit.txs && q.msgs <= limit.msgs
    {
      hide Load, Total, Plus, Minus;
      BatchStart();
      batch := [];
      var batchState := NOTHING;
      while queue != [] && Fits(batchState, limit)
        invariant queueState == Total(queue) && batchState == Total(batch)
        invariant batch + queue == old(queue)
        invariant batch != [] ==> Fits(Total(batch[..|batch| - 1]), limit)
        decreases |queue|
      {
        var task := queue[0];
        TotalHead(queue);
        queue := queue[1..];
        var load := GetQueueState(task);
        TotalSnoc(batch, task);
        assert (batch + [task])[..|batch|] == batch;
        batchState, queueState := Plus(batchState, load), Minus(queueState, load);
        batch := batch + [task];
      }
    }

    // One batch is cut and handed to an insert actor.
    method CreateBatch() returns (batch: seq<Task>)
      requires Valid() && queue != [] && parallel < maxParallel
      modifies this
      ensures Valid() && handedIn == old(handedIn) && finished == old(finished) && scheduled == old(scheduled)
      ensures batches == old(batches) + [batch] && batch + queue == old(queue)
      ensures parallel == old(parallel) + 1
      ensures Full(batch, limit) || (queue == [] && batch == old(queue))
    {
      hide Total, GoodBatch, Full, Tasks;
      ghost var waiting, before := queue, batches;
      batch := CutBatch();
      assert queue == [] ==> batch == waiting by {
        assert batch + [] == batch;
      }
      parallel := parallel + 1;
      batches := batches + [batch];
      TasksSnoc(before, batch);
      assert Tasks(before) + waiting == (Tasks(before) + batch) + queue;
    }

    /** Batches are cut in order until the queue, the parallel slots or, when only full batches
        are wanted, a limit's worth of waiting tasks runs out. */
    method ScheduleNextInsertBatches(fullBatch: bool)
      requires Valid()
      modifies this
      ensures Valid() && handedIn == old(handedIn) && finished == old(finished) && scheduled == old(scheduled)
      ensures old(batches) <= batches
      ensures queue == [] || parallel >= maxParallel || (fullBatch && Fits(queueState, limit))
      ensures forall i :: |old(batches)| <= i < |batches| ==>
                Full(batches[i], limit) || (!fullBatch && i == |batches| - 1 && queue == [])
    {
      hide Total, GoodBatch, Tasks;
      while queue != [] && parallel < maxParallel
        invariant Valid() && handedIn == old(handedIn) && finished == old(finished) && scheduled == old(scheduled)
        invariant old(batches) <= batches
        invariant forall i :: |old(batches)| <= i < |batches| ==>
                    Full(batches[i], limit) || (!fullBatch && i == |batches| - 1 && queue == [])
        decreases maxParallel - parallel
      {
        if Fits(queueState, limit) && fullBatch {
          break;
        }
        ghost var waiting := queue;
        var batch := CreateBatch();
        assert batch == waiting ==> Total(batch) == Total(waiting);
      }
    }

    /** An insert actor reported back: its slot is free, and a message asks for full batches. */
    method InsertBatchFinished()
      requires Valid() && finished < |batches|
      modifies this
      ensures Valid() && handedIn == old(handedIn) && batches == old(batches) && queue == old(queue)
      ensures finished == old(finished) + 1 && scheduled == old(scheduled) + 1
    {
      parallel, finished, scheduled := parallel - 1, finished + 1, scheduled + 1;
    }

    /** That message arrives: full batches are cut, whatever came in between. */
    method FullBatchesRequested()
      requires Valid() && scheduled > 0
      modifies this
      ensures Valid() && handedIn == old(handedIn) && finished == old(finished) && scheduled == old(scheduled) - 1
      ensures old(batches) <= batches
      ensures queue == [] || parallel >= maxParallel || Fits(queueState, limit)
      ensures forall i :: |old(batches)| <= i < |batches| ==> Full(batches[i], limit)
    {
      scheduled := scheduled - 1;
      ScheduleNextInsertBatches(true);
    }
  }

  // ---- Timing does not move the boundaries of full batches ----

  lemma PartFits(part: seq<Task>, whole: seq<Task>, limit: QueueState)
    requires part <= whole && Fits(Total(whole), limit)
    ensures Fits(Total(part), limit)
  {
    TotalAppend(part, whole[|part|..]);
    assert part + whole[|part|..] == whole;
  }

  // Two batches cut by the rule from the front of the same tasks have the same length.
  lemma NotShorter(b: seq<Task>, c: seq<Task>, all: seq<Task>, limit: QueueState)
    requires b <= all && c <= all && Full(b, limit) && GoodBatch(c, limit)
    ensures |c| <= |b|
  {
    hide Total;
    if |b| < |c| {
      assert b <= c[..|c| - 1];
      PartFits(b, c[..|c| - 1], limit);
    }
  }

  lemma Peel(batches: seq<seq<Task>>, q: seq<Task>)
    requires batches != []
    ensures Tasks(batches) + q == batches[0] + (Tasks(batches[1..]) + q)
  {}

  lemma SameSplit<T>(b: seq<T>, x: seq<T>, c: seq<T>, y: seq<T>)
    requires b + x == c + y && |b| == |c|
    ensures b == c && x == y
  {
    assert b == (b + x)[..|b|] && c == (c + y)[..|c|];
    assert x == (b + x)[|b|..] && y == (c + y)[|c|..];
  }

  ghost predicate CutByRule(batches: seq<seq<Task>>, limit: QueueState) {
    forall i :: 0 <= i < |batches| ==> GoodBatch(batches[i], limit) && Full(batches[i], limit)
  }

  lemma CutByRuleTail(batches: seq<seq<Task>>, limit: QueueState)
    requires batches != [] && CutByRule(batches, limit)
    ensures CutByRule(batches[1..], limit)
  {}

  lemma PrefixCons<T>(a: seq<T>, b: seq<T>)
    requires a != [] && b != [] && a[0] == b[0] && a[1..] <= b[1..]
    ensures a <= b
  {
    assert a == [a[0]] + a[1..] && b == [b[0]] + b[1..];
  }

  lemma FirstIsDetermined(bs: seq<seq<Task>>, cs: seq<seq<Task>>, q: seq<Task>, r: seq<Task>, limit: QueueState)
    requires CutByRule(bs, limit) && CutByRule(cs, limit) && bs != [] && cs != []
    requires Tasks(bs) + q == Tasks(cs) + r
    ensures bs[0] == cs[0] && Tasks(bs[1..]) + q == Tasks(cs[1..]) + r
  {
    hide GoodBatch, Full, Tasks;
    Peel(bs, q);
    Peel(cs, r);
    var b, c, x, y := bs[0], cs[0], Tasks(bs[1..]) + q, Tasks(cs[1..]) + r;
    NotShorter(b, c, b + x, limit);
    NotShorter(c, b, c + y, limit);
    SameSplit(b, x, c, y);
  }

  /** If only full batches are cut, the batches are determined by the order in which the tasks
      were handed in: of two histories of the same tasks, one's batches continue the other's. */
  lemma {:induction false} FullBatchesAreDetermined(bs: seq<seq<Task>>, cs: seq<seq<Task>>,
                                                    q: seq<Task>, r: seq<Task>, limit: QueueState)
    requires CutByRule(bs, limit) && CutByRule(cs, limit) && |bs| <= |cs|
    requires Tasks(bs) + q == Tasks(cs) + r
    ensures bs <= cs
    decreases |bs|
  {
    hide GoodBatch, Full, Tasks, Total;
    if bs != [] {
      FirstIsDetermined(bs, cs, q, r, limit);
      CutByRuleTail(bs, limit);
      CutByRuleTail(cs, limit);
      hide CutByRule;
      FullBatchesAreDetermined(bs[1..], cs[1..], q, r, limit);
      PrefixCons(bs, cs);
    }
  }
}
