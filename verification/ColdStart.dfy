/** A restart that finds no usable checkpoint: the assembler resumes with empty pending maps, up
    to 50 blocks before the first block that is missing in the database
    (ton-index-postgres-v2/src/IndexScheduler.cpp, got_existing_seqnos). */
module ColdStart {
  import opened Wrappers
  import opened TraceModel
  import opened TraceStep
  import opened TraceBlock
  import opened MessageGraph
  import opened TraceRun
  import opened TraceCompletion
  import opened TraceFinality
  import SchedulerModel

  // The transaction in which the message chain of transaction `i` begins.
  function Origin(h: History, i: nat): (r: nat)
    requires i < |h|
    ensures r <= i && Root(h, i) == h[r].tx.hash
    decreases i
  {
    match Parent(h, i)
    case None => i
    case Some(j) => Origin(h, j)
  }

  lemma {:induction false} EmitterAppend(h: History, g: History, m: Hash)
    ensures Emitter(h + g, m) ==
            match Emitter(g, m) { case Some(j) => Some(|h| + j) case None => Emitter(h, m) }
    decreases |g|
  {
    hide Emits;
    if g == [] {
      assert h + g == h;
    } else {
      var n := |g| - 1;
      assert (h + g)[..|h + g| - 1] == h + g[..n] && (h + g)[|h + g| - 1] == g[n];
      EmitterAppend(h, g[..n], m);
    }
  }

  // Without the history `h`, a transaction loses exactly a parent that lies in it.
  lemma ColdParent(h: History, g: History, i: nat)
    requires i < |g|
    ensures var full := Parent(h + g, |h| + i);
            match Parent(g, i) { case Some(j) => full == Some(|h| + j) case None => full.None? || full.value < |h| }
  {
    assert (h + g)[|h| + i] == g[i];
    assert (h + g)[..|h| + i] == h + g[..i];
    if g[i].tx.inMsg.Some? {
      EmitterAppend(h, g[..i], g[i].tx.inMsg.value.hash);
    }
  }

  lemma {:induction false} ColdOrigin(h: History, g: History, i: nat)
    requires i < |g|
    ensures var cold, full := Origin(g, i), Origin(h + g, |h| + i);
            && Parent(g, cold).None?
            && (if full < |h| then Parent(h + g, |h| + cold).Some? else full == |h| + cold)
    decreases i
  {
    hide Root;
    ColdParent(h, g, i);
    match Parent(g, i)
    case Some(j) => ColdOrigin(h, g, j);
    case None =>
      if Parent(h + g, |h| + i).Some? {
        assert Origin(h + g, |h| + i) == Origin(h + g, Parent(h + g, |h| + i).value);
      }
  }

  /** A transaction keeps its trace id exactly when its message chain begins after the restart. */
  lemma ColdRootIff(h: History, g: History, i: nat)
    requires DistinctTxs(h + g) && i < |g|
    ensures Root(g, i) == Root(h + g, |h| + i) <==> Origin(h + g, |h| + i) >= |h|
  {
    ColdOrigin(h, g, i);
    var cold, full := Origin(g, i), Origin(h + g, |h| + i);
    assert (h + g)[|h| + cold] == g[cold];
    hide Origin, Root, Parent;
    if full < |h| {
      assert (h + g)[full].tx.hash != (h + g)[|h| + cold].tx.hash;
    }
  }

  /** Otherwise it gets the id of the first transaction of the chain after the restart, and that
      trace is broken unless the in-message there looks like one that starts a trace. */
  lemma ColdRootIsBroken(h: History, g: History, i: nat)
    requires i < |g| && Origin(h + g, |h| + i) < |h|
    ensures var r := Origin(g, i);
            && Root(g, i) == g[r].tx.hash && g[r].tx.inMsg.Some?
            && (BrokenRoot(g, r) <==> !StartsTrace(g[r].tx.inMsg.value))
  {
    ColdOrigin(h, g, i);
    var r := Origin(g, i);
    assert (h + g)[|h| + r] == g[r];
  }

  // ---- Whole runs ----

  lemma {:induction false} HistorySplit(first: nat, blocks: seq<ParsedBlock>, k: nat)
    requires k <= |blocks|
    ensures HistoryOf(first, blocks) == HistoryOf(first, blocks[..k]) + HistoryOf(first + k, blocks[k..])
    decreases |blocks|
  {
    hide Place, Ordered;
    var n := |blocks| - 1;
    if k == |blocks| {
      assert blocks[..k] == blocks && blocks[k..] == [];
    } else {
      HistorySplit(first, blocks[..n], k);
      assert blocks[..n][..k] == blocks[..k];
      assert blocks[..n][k..] == blocks[k..][..n - k] && blocks[k..][n - k] == blocks[n];
    }
  }

  lemma WellFormedDrop(h: History, g: History)
    requires WellFormed(h + g)
    ensures WellFormed(g)
  {
    var all := h + g;
    assert forall i :: 0 <= i < |g| ==> g[i] == all[|h| + i];
    assert DistinctTxs(g) && SentOnce(g) && SentBeforeConsumed(g) by {
      hide Emits;
      forall i, j, m | 0 <= i < j < |g| && Emits(g[i].tx, m) ensures !Emits(g[j].tx, m) {
        assert Emits(all[|h| + i].tx, m);
      }
      forall i, j, m | 0 <= i < |g| && 0 <= j < |g| && Emits(g[i].tx, m) && Consumes(g[j].tx, m) ensures i < j {
        assert Emits(all[|h| + i].tx, m) && Consumes(all[|h| + j].tx, m);
      }
    }
    assert ConsumedOnce(g) by {
      hide Emits;
      forall i, j, m | 0 <= i < j < |g| && Consumes(g[i].tx, m) && Consumes(g[j].tx, m)
        ensures Emitter(g, m).None? && StartsTrace(g[i].tx.inMsg.value) && StartsTrace(g[j].tx.inMsg.value)
      {
        assert Consumes(all[|h| + i].tx, m) && Consumes(all[|h| + j].tx, m);
        EmitterAppend(h, g, m);
      }
    }
  }

  /** Of a run resumed with empty maps at block `k`, compared with the uninterrupted run: a
      transaction gets the same trace id exactly when its message chain begins at or after block
      `k`. */
  lemma ColdRunIff(first: nat, blocks: seq<ParsedBlock>, k: nat, b: nat, i: nat)
    requires WellFormed(HistoryOf(first, blocks)) && k <= b < |blocks| && i < |Ordered(blocks[b])|
    ensures var cold, full := Run(EMPTY, first + k, blocks[k..]).1[b - k].traceIds, Run(EMPTY, first, blocks).1[b].traceIds;
            var at := |HistoryOf(first, blocks[..b])| + i;
            && i < |cold| && i < |full| && at < |HistoryOf(first, blocks)|
            && (cold[i] == full[i] <==> Origin(HistoryOf(first, blocks), at) >= |HistoryOf(first, blocks[..k])|)
  {
    hide WellFormed, Run, Ordered, Place, HistoryOf, Root, Parent;
    var h, g := HistoryOf(first, blocks[..k]), HistoryOf(first + k, blocks[k..]);
    HistorySplit(first, blocks, k);
    HistorySplit(first, blocks[..b], k);
    assert blocks[..b][..k] == blocks[..k] && blocks[..b][k..] == blocks[k..][..b - k] && blocks[k..][b - k] == blocks[b];
    WellFormedDrop(h, g);
    RunAssignsRoots(first, blocks, b, i);
    RunAssignsRoots(first + k, blocks[k..], b - k, i);
    assert DistinctTxs(h + g) by {
      WellFormedIsDistinct(h + g);
    }
    ColdRootIff(h, g, |HistoryOf(first + k, blocks[k..][..b - k])| + i);
  }

  lemma WellFormedIsDistinct(h: History)
    requires WellFormed(h)
    ensures DistinctTxs(h)
  {
  }

  // The run resumed with empty maps at block `k` gives transaction `i` of block `b` the trace id of
  // the uninterrupted run.
  ghost predicate SameId(first: nat, blocks: seq<ParsedBlock>, k: nat, b: nat, i: nat)
    requires k <= b < |blocks|
  {
    var cold, full := Run(EMPTY, first + k, blocks[k..]).1[b - k].traceIds, Run(EMPTY, first, blocks).1[b].traceIds;
    i < |cold| && i < |full| && cold[i] == full[i]
  }

  // No message chain reaches back over more than `d` masterchain blocks.
  ghost predicate ShortTraces(h: History, d: nat) {
    forall j :: 0 <= j < |h| ==> h[j].seqno <= h[Origin(h, j)].seqno + d
  }

  lemma {:induction false} SeqnoOfBlock(first: nat, blocks: seq<ParsedBlock>, b: nat, i: nat)
    requires b < |blocks| && i < |Ordered(blocks[b])|
    ensures var at := |HistoryOf(first, blocks[..b])| + i;
            at < |HistoryOf(first, blocks)| && HistoryOf(first, blocks)[at].seqno == first + b
  {
    hide HistoryOf, Ordered;
    HistorySnoc(first, blocks, b);
    var rest := HistoryPrefix(first, blocks, b + 1, |blocks|);
    assert blocks[..|blocks|] == blocks;
  }

  /** What resuming 50 blocks early is for: if no message chain is longer than `d` blocks, a run
      resumed with empty maps assigns every transaction from `d` blocks after its start on to the
      same trace as the uninterrupted run. */
  lemma ShortTracesSurvive(first: nat, blocks: seq<ParsedBlock>, k: nat, d: nat, b: nat, i: nat)
    requires WellFormed(HistoryOf(first, blocks)) && ShortTraces(HistoryOf(first, blocks), d)
    requires k + d <= b < |blocks| && i < |Ordered(blocks[b])|
    ensures SameId(first, blocks, k, b, i)
  {
    hide WellFormed, Run, Ordered, Place, HistoryOf, Root, Parent, Origin;
    ColdRunIff(first, blocks, k, b, i);
    SeqnoOfBlock(first, blocks, b, i);
    HistorySplit(first, blocks, k);
    HistoryIsChronological(first, blocks[..k]);
    var all, h := HistoryOf(first, blocks), HistoryOf(first, blocks[..k]);
    assert forall j :: 0 <= j < |h| ==> all[j] == h[j];
  }

  /** If no message chain spans more than 50 blocks, a run resumed without checkpoint assigns every
      transaction from the next missing seqno on to the same trace as the uninterrupted run from
      `first` on, provided that the range reaches back 50 blocks or nothing precedes it. */
  lemma ResumedIdsAreRight(first: nat, blocks: seq<ParsedBlock>, from: nat, next: nat, b: nat, i: nat)
    requires WellFormed(HistoryOf(first, blocks)) && ShortTraces(HistoryOf(first, blocks), 50)
    requires 1 <= from <= next && (from + 50 <= next || first == from)
    requires first <= SchedulerModel.LastState(from, next, None) + 1
    requires b < |blocks| && next <= first + b && i < |Ordered(blocks[b])|
    ensures var k := SchedulerModel.LastState(from, next, None) + 1 - first;
            k <= b && SameId(first, blocks, k, b, i)
  {
    hide WellFormed, Ordered, HistoryOf, ShortTraces, SameId;
    if from + 50 <= next {
      ShortTracesSurvive(first, blocks, next - 50 - first, 50, b, i);
    } else {
      SameFromStart(first, blocks, b, i);
    }
  }

  lemma SameFromStart(first: nat, blocks: seq<ParsedBlock>, b: nat, i: nat)
    requires WellFormed(HistoryOf(first, blocks)) && b < |blocks| && i < |Ordered(blocks[b])|
    ensures SameId(first, blocks, 0, b, i)
  {
    hide WellFormed, Run, Ordered, HistoryOf, Root;
    assert blocks[0..] == blocks;
    RunAssignsRoots(first, blocks, b, i);
  }
}
