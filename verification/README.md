# Verified model of the TON index worker

The TON index worker reads masterchain blocks and their shard blocks, groups transactions into
message traces, and writes the result to PostgreSQL; a companion emulates traces and keeps them
in Redis. This project models the stateful protocols underneath and proves what they keep over
every input and every run:

- **Trace assembler.** The incremental, per-transaction assembler (`TraceStep`, `TraceBlock`) is
  compared with a reference that knows the whole message graph (`MessageGraph`). Over every
  well-formed history the pending maps, the counters, the assigned trace ids and the reported
  traces are exactly the ones read off the graph (`TraceInvariant`, `TraceRun`), completion is
  final (`TraceCompletion`, `TraceFinality`), arrival order does not matter (`AssemblyQueue`),
  and neither do restarts from checkpoints (`Checkpoints`); what a late save and a restart without
  checkpoint do is exact too (`LateCheckpoint`, `ColdStart`). The class in
  `TraceAssembler.dfy` has the loops and the shared, mutable trace objects of the source.
- **Index scheduler (PostgreSQL v2) feeding the assembler.** A state machine whose steps are the
  messages the actor receives (`SchedulerModel`), with conservation (`SchedulerProofs`), start-up
  and hand-over (`SchedulerHandOver`), exactly which runs stop the assembler (`SchedulerCrash`) and
  when it can still advance (`SchedulerProgress`, `SchedulerAdvance`). `Pipeline` puts scheduler and
  assembler together: whatever happens, the answers are those of in-order processing.
- **Insert batches.** The body-lock protocol under arbitrary interleaving (`BodyLocks`), the
  latest-row tables (`Upserts`), and the queue that batches are cut from (`InsertQueue`).
- **Block walk.** The backward walk over shard blocks (`BlockWalk`).
- **Emulated traces.** Trees assembled from asynchronous replies (`TraceEmulation`,
  `EmulationEnds`, `EmulationTruth`, `TraceEmulator`), their flattening and the rebuild in Go (`TraceFlattening`, `TraceRoundTrip`),
  and the replacement of stored traces with their per-address index (`TraceStore`).
- **Histogram.** Buckets and percentiles over the reals (`Histogram`).

Where a promised property fails, the exact condition is proved instead:

- The assembler is stopped by a run exactly when a seqno is parsed that failed after assembly
  earlier in the run, or that forced indexing queued although the restored state covers it
  (`CrashIff`). Without failures after assembly, all runs are safe exactly when indexing is not
  forced over a range that the restored state reaches into (`SafeIff`).
- A failed seqno goes to the back of the queue. If the fetch or the parsing of the expected seqno
  fails, runs without further failures still advance the assembler exactly when everything queued
  and everything that waits for the expected seqno fitted into the slots (`FailureBlocksIff`,
  `AdvanceIff`; from start-up: `OneFailureBlocksIff`). No run at all advances it, whatever fails or
  succeeds, exactly when waiting seqnos have all slots (`NeverAgainIffWedged`).
- A restored checkpoint older than `from - 1` means that the assembler never processes a block
  (`FirstQueuedIsExpected`, `OldCheckpointStalls`).
- An insert attempt that dies between taking and releasing body locks loses a body that it owns
  for good exactly when the body is not stored and no other batch has it in its transaction
  (`ThrowDoomsIff`); at the end of a run a referenced body is missing exactly when some step gave it
  up in this way (`MissingIffDropped`).
- A checkpoint written only after further blocks were processed is right exactly when no
  transaction of these blocks consumes a message pending for a pending trace, because the trace
  records are shared with the save (`LateSaveIff`).
- After a restart that finds no checkpoint, a transaction keeps its trace id exactly when its
  message chain begins after the restart (`ColdRunIff`); resuming 50 blocks early suffices when no
  chain is longer than that (`ShortTracesSurvive`).
- The commit order of latest-row batches matters exactly when an account has two different rows
  of its greatest lt (`OrderIrrelevantIff`).
- A trace comes back from the result map unchanged exactly when every out-message is answered by
  the next child or by no node (`RoundTrip`).
- An insert keeps the address index in step exactly when the new nodes agree with each other and
  with what stays stored about the account of a key (`InStepIffAgree`).
- The percentile search stays inside the bucket array exactly for percentages up to 100
  (`InBoundsIff`).
- The branch for a negative edge counter (tondb-scanner/src/TraceAssembler.cpp:257) can never
  be taken with an unsigned counter; the counters are proved exact instead (`CountersAreExact`).

Assumptions about the surroundings: hashes identify what they name, `from_seqno_` is at least 1,
the last known seqno never decreases, every actor message is one atomic step, and node identities
of the emulator are not reused while a reply to them is under way.

## Model

| member | source | states |
|---|---|---|
| `TraceBlock.SortedArrangementIsUnique` | tondb-scanner/src/TraceAssembler.cpp:226-240 | Any sorted arrangement of a block's transactions is the same list when no account has two transactions at one lt, so the library sort is determined. |
| `TraceBlock.OrderedHoldsAll` | tondb-scanner/src/TraceAssembler.cpp:226-240 | A block is processed with exactly the transactions of all its shard blocks, each as often as it stands there. |
| `TraceBlock.StepKeepsReportable` | tondb-scanner/src/TraceAssembler.cpp:278-405 | For any transaction, well-formed or not, all lookups made at the end of the block succeed: touched traces and added edges stay in their maps, added edges are incomplete, every edge to report has a touched trace. |
| `TraceBlock.StepAllKeepsReportable` | tondb-scanner/src/TraceAssembler.cpp:250-272 | The same over all transactions of a block, hence no map is extended with a default value. |
| `TraceInvariant.TraceIdIsRoot` | tondb-scanner/src/TraceAssembler.cpp:281-380 | The one-step lookup among pending edges assigns the hash of the root of the whole message chain, and the pending edge's trace is pending. |
| `TraceInvariant.StepRefines` | tondb-scanner/src/TraceAssembler.cpp:278-405 | One transaction keeps the assembler equal to the message graph: pending edges, trace records with all counters, closed edges, touched traces and added edges. |
| `TraceRun.BlockMirrors` | tondb-scanner/src/TraceAssembler.cpp:224-276 | A block keeps the pending maps equal to the open edges and live traces of the graph. |
| `TraceRun.BlockAssignsRoots` | tondb-scanner/src/TraceAssembler.cpp:224-248 | Every transaction of the block is assigned its root. |
| `TraceRun.BlockReports` | tondb-scanner/src/TraceAssembler.cpp:249-275 | The block reports exactly the traces it touched, each with the record, closed edges and open edges that the graph prescribes. |
| `TraceRun.RunMirrors` | tondb-scanner/src/TraceAssembler.cpp:224-405 | After any well-formed run the pending maps are the ones read off the graph of the whole run. |
| `TraceRun.RunAssignsRoots` | tondb-scanner/src/TraceAssembler.cpp:224-405 | Every transaction of every block was assigned the root of its chain in the graph of the whole run. |
| `TraceRun.EveryTransactionAssigned` | tondb-scanner/src/TraceAssembler.cpp:224-248 | Hence every transaction of every shard block of every block of a well-formed run is assigned its root. |
| `TraceRun.RunResultAt` | tondb-scanner/src/TraceAssembler.cpp:208-222 | What a run hands on for a block is what processing that block in the state before it gives. |
| `TraceCompletion.CausalIsWellFormed` | tondb-scanner/src/TraceAssembler.cpp:226-240 | If messages are sent before they are consumed in (seqno, lt) order, sorting each block by lt processes every sender before its consumer. |
| `TraceCompletion.CountersAreExact` | tondb-scanner/src/TraceAssembler.cpp:250-272 | In every reachable state, also inside a block, each pending counter is the number of pending edges of its trace and every pending edge has a pending trace with a counter above zero: the counter never wraps and the missing-trace branch is not taken. |
| `TraceCompletion.SettledIsFinal` | tondb-scanner/src/TraceAssembler.cpp:335-404 | Once all messages sent inside a trace are consumed, no transaction of any well-formed continuation has it as root. |
| `TraceCompletion.NoOpenEdgeSettled` | tondb-scanner/src/TraceAssembler.cpp:249-261 | A trace without open edges has all its messages consumed. |
| `TraceCompletion.ClosedInsFollowNodes` | tondb-scanner/src/TraceAssembler.cpp:281-380 | Every transaction of a trace but possibly its root came in through a closed edge. |
| `TraceCompletion.CountsAreSizes` | tondb-scanner/src/TraceAssembler.cpp:335-380 | The node and in-edge counts read off the graph are numbers of transactions with that root. |
| `TraceCompletion.EndIsLatest` | tondb-scanner/src/TraceAssembler.cpp:381-384 | The recorded end of a trace is the greatest seqno, lt and time of its transactions, each attained. |
| `TraceCompletion.ReportedComplete` | tondb-scanner/src/TraceAssembler.cpp:249-275 | A reported trace is complete if and only if it has no open edge; then its messages are all consumed and its edges equal nodes plus log messages, minus one if the root has no in-message. |
| `TraceFinality.CompleteForGood` | tondb-scanner/src/TraceAssembler.cpp:249-261 | In a well-formed run no later block assigns a transaction to, or reports, a trace that was reported complete. |
| `AssemblyQueue.LateArrival` | tondb-scanner/src/TraceAssembler.cpp:208-222 | Adding a block before or after draining the queue gives the same outcome. |
| `AssemblyQueue.ArrivalsCollapse` | tondb-scanner/src/TraceAssembler.cpp:130-138 | Delivering distinct blocks one by one equals receiving all at once and then draining. |
| `AssemblyQueue.ArrivalOrderIrrelevant` | tondb-scanner/src/TraceAssembler.cpp:130-138 | Two orders of delivery of the same blocks leave the same state and the same answers in the same order. |
| `AssemblyQueue.DrainConsecutive` | tondb-scanner/src/TraceAssembler.cpp:208-222 | Draining consecutive waiting blocks is in-order processing of them. |
| `AssemblyQueue.ArrivalsMatchInOrder` | tondb-scanner/src/TraceAssembler.cpp:130-138 | Consecutive blocks in any order of delivery end in the state of in-order processing; each promise is answered once, in ascending seqno order, with the in-order result. |
| `AssemblyQueue.FatalIffBehind` | tondb-scanner/src/TraceAssembler.cpp:130-138 | After any accepted deliveries, in any order and with repetitions, the next one is fatal if and only if its seqno lies before the start or all seqnos from the start up to it were delivered before. |
| `AssemblyQueue.FirstDeliveryStays` | tondb-scanner/src/TraceAssembler.cpp:135-135 | If a seqno is delivered more than once, the block that came first waits. |
| `TraceAssembly.TraceAssembler.JoinPending` | tondb-scanner/src/TraceAssembler.cpp:335-370 | Closing a pending edge and updating the shared trace object computes `JoinTrace` on the maps. |
| `TraceAssembly.TraceAssembler.StartPending` | tondb-scanner/src/TraceAssembler.cpp:286-334 | Opening a trace computes `StartTrace` on the maps. |
| `TraceAssembly.TraceAssembler.EmitOutMessages` | tondb-scanner/src/TraceAssembler.cpp:386-404 | The loop over out-messages computes `EmitOuts` on the maps, through the shared trace object. |
| `TraceAssembly.TraceAssembler.ProcessTransaction` | tondb-scanner/src/TraceAssembler.cpp:278-405 | The in-place updates are exactly the step function, and the returned id is the assigned trace. |
| `TraceAssembly.TraceAssembler.FinishTrace` | tondb-scanner/src/TraceAssembler.cpp:250-261 | A touched trace without pending edges becomes complete unless broken, and leaves the map. |
| `TraceAssembly.TraceAssembler.CollectTouched` | tondb-scanner/src/TraceAssembler.cpp:249-261 | After the loop over touched traces exactly the unfinished ones are pending. |
| `TraceAssembly.AttachReported` | tondb-scanner/src/TraceAssembler.cpp:262-272 | Distributing the closed and the still open edges over the touched traces gives exactly the report. |
| `TraceAssembly.CollectTransactions` | tondb-scanner/src/TraceAssembler.cpp:226-231 | The nested loops collect the transactions of all shard blocks in order. |
| `TraceAssembly.TraceAssembler.ProcessBlock` | tondb-scanner/src/TraceAssembler.cpp:224-276 | The pending maps and the report are those of the block function. |
| `TraceAssembly.TraceAssembler.ProcessQueue` | tondb-scanner/src/TraceAssembler.cpp:208-222 | The loop drains the queue. |
| `TraceAssembly.TraceAssembler.Assemble` | tondb-scanner/src/TraceAssembler.cpp:130-138 | Fatal, with nothing changed, below the expected seqno; otherwise the queue after the delivery. |
| `Checkpoints.SaveThenRestore` | tondb-scanner/src/TraceAssembler.cpp:89-101 | A saved state is what a request for its seqno restores, and a later request too unless a newer readable file is there; requests below it are not affected. |
| `Checkpoints.StateDir.RestoreState` | tondb-scanner/src/TraceAssembler.cpp:144-205 | The downward walk returns a readable checkpoint not above the request such that every newer one up to the request is unreadable, and none exactly if all up to the request are. |
| `Checkpoints.StateDir.GcStates` | tondb-scanner/src/TraceAssembler.cpp:52-87 | Exactly the greatest `keep` files not above the current seqno remain, unchanged. |
| `Checkpoints.CollectKeepsNewest` | tondb-scanner/src/TraceAssembler.cpp:72-84 | Every kept file is newer than every deleted one not above the current seqno. |
| `Checkpoints.CollectKeepsMost` | tondb-scanner/src/TraceAssembler.cpp:72-84 | As many files not above the current seqno are kept as there is room for, and all if there is room, unchanged. |
| `Checkpoints.GcKeepsHundred` | tondb-scanner/src/TraceAssembler.cpp:117-122 | The periodic clean-up keeps the hundred greatest files not above the expected seqno, or all if there are fewer. |
| `Checkpoints.CollectKeepsAnswer` | tondb-scanner/src/TraceAssembler.cpp:52-87 | For requests up to the current seqno deletion leaves the restored checkpoint unchanged if and only if a kept file serves the request or no file did. |
| `Checkpoints.StepStaysOnTrack` | tondb-scanner/src/TraceAssembler.cpp:103-128 | Processing, saving, deleting, damage to files and restarts each keep state, files and results those of the uninterrupted run. |
| `Checkpoints.RestartsAreInvisible` | tondb-scanner/src/TraceAssembler.cpp:144-205 | The same over every sequence of such events. |
| `Checkpoints.StartIsOnTrack` | tondb-scanner/src/TraceAssembler.cpp:144-148 | An empty directory and nothing processed is the start of the uninterrupted run. |
| `LateCheckpoint.StepAllNodes` | tondb-scanner/src/TraceAssembler.cpp:278-405 | A pending trace touched by a block gains nodes; an untouched one keeps its record. |
| `LateCheckpoint.TouchedIffContinues` | tondb-scanner/src/TraceAssembler.cpp:278-405 | Transactions touch a trace of a saved state if and only if one of them consumes a message that the state has pending for a pending trace. |
| `LateCheckpoint.LateSaveIff` | tondb-scanner/src/TraceAssembler.cpp:103-115 | A save written after any number of further blocks equals the intended checkpoint if and only if none of their transactions consumes a message that was pending for a pending trace. |
| `ColdStart.ColdRootIff` | ton-index-postgres-v2/src/IndexScheduler.cpp:111-120 | Without the history before a restart, a transaction keeps its root if and only if its message chain begins after the restart. |
| `ColdStart.ColdRootIsBroken` | ton-index-postgres-v2/src/IndexScheduler.cpp:111-120 | Otherwise its root is the first transaction of the chain after the restart, broken unless that one's in-message looks like one that starts a trace. |
| `ColdStart.ColdRunIff` | ton-index-postgres-v2/src/IndexScheduler.cpp:111-120 | A run resumed at some block with empty maps assigns a transaction the trace id of the uninterrupted run if and only if its message chain begins at or after that block. |
| `ColdStart.ShortTracesSurvive` | ton-index-postgres-v2/src/IndexScheduler.cpp:114-118 | If no message chain spans more than d blocks, a run resumed d blocks early with empty maps assigns the right trace ids from there on. |
| `ColdStart.ResumedIdsAreRight` | ton-index-postgres-v2/src/IndexScheduler.cpp:111-120 | If no message chain spans more than 50 blocks, the run that is resumed without checkpoint where the source resumes it assigns the trace ids of the uninterrupted run from the next missing seqno on. |
| `SchedulerHandOver.SkippedAreStored` | ton-index-postgres-v2/src/IndexScheduler.cpp:87-128 | The next seqno is the first one missing from the lowest stored one on, or `from` if nothing is stored; every seqno skipped from the lowest stored one on is stored; a restored checkpoint is taken as it is; without one exactly 50 blocks before the next seqno are redone, or all from `from` on if there are fewer. |
| `SchedulerHandOver.FirstQueuedIsExpected` | ton-index-postgres-v2/src/IndexScheduler.cpp:130-157 | The first queued seqno is the one the assembler expects if and only if the restored state is not older than `from - 1`. |
| `SchedulerHandOver.StartOrder` | ton-index-postgres-v2/src/IndexScheduler.cpp:130-139 | For every configuration and restored state, start-up satisfies the order invariant, with the seqnos that forced indexing repeats as its exceptions. |
| `SchedulerHandOver.StartGood` | ton-index-postgres-v2/src/IndexScheduler.cpp:130-139 | Without such seqnos it satisfies the hand-over invariant. |
| `SchedulerHandOver.StepOrder` | ton-index-postgres-v2/src/IndexScheduler.cpp:141-303 | A step stops the assembler if and only if it parses an exception; any other step keeps the order: what is queued, fetched or parsed is not below the expected seqno or an exception, what is past the assembler is below it; a failure after assembly adds an exception. |
| `SchedulerHandOver.StepGood` | ton-index-postgres-v2/src/IndexScheduler.cpp:141-303 | Every step but a failure after assembly keeps the invariant without exceptions. |
| `SchedulerHandOver.NeverBelowExpected` | ton-index-postgres-v2/src/IndexScheduler.cpp:159-213 | In every run in which only fetching or parsing fails the assembler never receives a seqno below the expected one. |
| `SchedulerHandOver.LateFailureGood` | ton-index-postgres-v2/src/IndexScheduler.cpp:215-260 | Every failure after assembly, not only the first, queues a seqno below the expected one again. |
| `SchedulerCrash.ResendIsFatal` | ton-index-postgres-v2/src/IndexScheduler.cpp:201-213 | Whatever happens in between, parsing a seqno below the expected one stops the assembler. |
| `SchedulerCrash.ForcedIndexCanCrash` | ton-index-postgres-v2/src/IndexScheduler.cpp:141-157 | With forced indexing over a state past `from`, the run that fetches and parses `from` first stops the assembler. |
| `SchedulerCrash.CrashIff` | ton-index-postgres-v2/src/IndexScheduler.cpp:141-260 | For every configuration and every run from start-up: the assembler is stopped if and only if a seqno is parsed that failed after assembly earlier in the run, or that forced indexing queued although the restored state covers it. |
| `SchedulerCrash.SafeIff` | ton-index-postgres-v2/src/IndexScheduler.cpp:141-157 | All runs without failures after assembly are safe if and only if indexing is not forced or the restored state is below `from`. |
| `SchedulerProofs.StepConserves` | ton-index-postgres-v2/src/IndexScheduler.cpp:141-311 | Every step, failures included, keeps each discovered in-range seqno in exactly one of queued, processing, awaiting insert and inserted, queued at most once, with processing within the limit. |
| `SchedulerProofs.StartConserved` | ton-index-postgres-v2/src/IndexScheduler.cpp:130-139 | The state after start-up is conserved: nothing is due, nothing is in two places. |
| `SchedulerProofs.RunConserves` | ton-index-postgres-v2/src/IndexScheduler.cpp:141-311 | The same at all times in every run. |
| `SchedulerProofs.AnnouncedIsCovered` | ton-index-postgres-v2/src/IndexScheduler.cpp:141-157 | Every announced seqno in range that is not stored is queued, on its way or inserted, whatever was announced before. |
| `SchedulerAdvance.BlockedForGood` | ton-index-postgres-v2/src/IndexScheduler.cpp:305-311 | If the seqnos queued before the expected one and those that hold a slot until it comes take all slots, no run without failures advances the assembler. |
| `SchedulerAdvance.AdvanceIff` | ton-index-postgres-v2/src/IndexScheduler.cpp:305-311 | While the expected seqno is due, some run without failures advances the assembler if and only if it is not blocked in this way. |
| `SchedulerAdvance.NeverAgainIffWedged` | ton-index-postgres-v2/src/IndexScheduler.cpp:176-180 | While the expected seqno is due, no run at all advances the assembler if and only if waiting seqnos have all slots and the expected one is queued. |
| `SchedulerProgress.WedgedForever` | ton-index-postgres-v2/src/IndexScheduler.cpp:176-180 | A wedged scheduler stays wedged in every run and never advances the assembler. |
| `SchedulerAdvance.FailureBlocksIff` | ton-index-postgres-v2/src/IndexScheduler.cpp:164-180 | When fetching or parsing the expected seqno fails, runs without further failures still advance the assembler if and only if everything queued and held fitted into the slots. |
| `SchedulerAdvance.OneFailureBlocksIff` | ton-index-postgres-v2/src/IndexScheduler.cpp:164-180 | From start-up, for every number of slots: after a failed first fetch this is so if and only if not more seqnos were announced than there are slots. |
| `SchedulerProgress.RunFifo` | ton-index-postgres-v2/src/IndexScheduler.cpp:141-174 | Without failures the queue stays ascending and contiguous and dispatched seqnos form a prefix, in every run. |
| `SchedulerProgress.FifoNeverStarves` | ton-index-postgres-v2/src/IndexScheduler.cpp:305-311 | Then a waiting block means that the expected seqno is itself being fetched or parsed. |
| `SchedulerProgress.NeverStarves` | ton-index-postgres-v2/src/IndexScheduler.cpp:305-311 | Hence from start-up on, in every run without failures, the scheduler is never wedged and the assembler never stopped. |
| `SchedulerAdvance.AlwaysCanAdvance` | ton-index-postgres-v2/src/IndexScheduler.cpp:141-174 | From start-up, in every run without failures, the assembler can always be advanced as long as the expected seqno has been announced. |
| `SchedulerProgress.OldCheckpointStarts` | ton-index-postgres-v2/src/IndexScheduler.cpp:130-139 | A checkpoint older than `from - 1` starts the scheduler in a stalled state. |
| `SchedulerProgress.OldCheckpointStalls` | ton-index-postgres-v2/src/IndexScheduler.cpp:141-157 | A stalled state never lets the assembler process a block, in any run. |
| `Pipeline.SendAgrees` | ton-index-postgres-v2/src/IndexScheduler.cpp:201-213 | The scheduler's view of the assembler, what it expects and what waits, is the assembler's own queue, and both refuse the same seqnos. |
| `Pipeline.RunProcessesInOrder` | ton-index-postgres-v2/src/IndexScheduler.cpp:141-311 | Every run of the scheduler, whatever fails and in whatever order blocks are parsed, leaves the assembler with the pending maps and answers of processing the chain in order up to the expected seqno, or stops it exactly when its queue refuses a block. |
| `IndexScheduling.IndexScheduler.GotExistingSeqnos` | ton-index-postgres-v2/src/IndexScheduler.cpp:93-104 | The loop finds the first seqno missing from the run that starts at the lowest stored one. |
| `IndexScheduling.IndexScheduler.GotTraceAssemblerLastStateSeqno` | ton-index-postgres-v2/src/IndexScheduler.cpp:130-139 | The actor reaches the initial state of the machine. |
| `IndexScheduling.IndexScheduler.GotLastKnownSeqno` | ton-index-postgres-v2/src/IndexScheduler.cpp:141-157 | The loop takes the discovery step. |
| `IndexScheduling.IndexScheduler.ScheduleNextSeqnos` | ton-index-postgres-v2/src/IndexScheduler.cpp:305-311 | The loop takes the dispatch step and sends a prefix of the queue in order. |
| `IndexScheduling.IndexScheduler.RescheduleSeqno` | ton-index-postgres-v2/src/IndexScheduler.cpp:176-180 | The actor takes the reschedule step. |
| `IndexScheduling.IndexScheduler.SeqnoQueuedToInsert` | ton-index-postgres-v2/src/IndexScheduler.cpp:281-294 | The actor takes the hand-over step, dispatching if the insert queue accepts. |
| `IndexScheduling.IndexScheduler.SeqnoInserted` | ton-index-postgres-v2/src/IndexScheduler.cpp:296-303 | The actor takes the insertion step. |
| `BodyLocks.StepKeepsInv` | ton-index-postgres-v2/src/InsertManagerPostgres.cpp:857-918 | Every step of any batch keeps: each needed body is stored, still to be brought by an idle or owning batch, or leaked; each lock has one holder. |
| `BodyLocks.RunKeepsInv` | ton-index-postgres-v2/src/InsertManagerPostgres.cpp:383-443 | The same for any number of batches, interleavings and rolled-back attempts. |
| `BodyLocks.BodiesStoredOrLeaked` | ton-index-postgres-v2/src/InsertManagerPostgres.cpp:383-443 | When all batches committed, each needed body is stored or its lock was leaked and is still held. |
| `BodyLocks.AllBodiesStored` | ton-index-postgres-v2/src/InsertManagerPostgres.cpp:857-918 | If no attempt dies while it holds locks, every needed body is stored at the end. |
| `BodyLocks.LostForever` | ton-index-postgres-v2/src/InsertManagerPostgres.cpp:857-865 | A lost body is never stored in any continuation. |
| `BodyLocks.DoomedIffLost` | ton-index-postgres-v2/src/InsertManagerPostgres.cpp:857-918 | A needed body is stored in no continuation if and only if its lock is leaked, it is not stored, and no batch has it in its transaction. |
| `BodyLocks.ThrowDoomsIff` | ton-index-postgres-v2/src/InsertManagerPostgres.cpp:857-918 | An attempt that dies inside the locked section loses a body that it owns, in every continuation, if and only if the body is not stored and no other batch owns it. |
| `BodyLocks.MissingIffDropped` | ton-index-postgres-v2/src/InsertManagerPostgres.cpp:383-443 | When all batches committed, a referenced body is missing if and only if some step of the run gave it up: its only owner died inside the locked section, or was rolled back after its lock had been leaked. |
| `BodyLocks.ThrowLosesBodies` | ton-index-postgres-v2/src/InsertManagerPostgres.cpp:857-918 | One attempt that dies inside the locked section loses its bodies. |
| `BodyLocks.BodiesInProgress.LockBodies` | ton-index-postgres-v2/src/InsertManagerPostgres.cpp:857-887 | The batch owns exactly the referenced bodies nobody had in progress, each once. |
| `BodyLocks.BodiesInProgress.UnlockBodies` | ton-index-postgres-v2/src/InsertManagerPostgres.cpp:912-918 | Exactly the owned bodies leave the set. |
| `Upserts.SelectLatestStates` | ton-index-postgres-v2/src/InsertManagerPostgres.cpp:960-972 | The loops select what offering the rows one by one selects. |
| `Upserts.SelectLatestInterfaces` | ton-index-postgres-v2/src/InsertManagerPostgres.cpp:1019-1033 | The same with the tasks back to front. |
| `Upserts.ReversedAt` | ton-index-postgres-v2/src/InsertManagerPostgres.cpp:1022-1023 | The tasks of interface data are taken from the last to the first. |
| `Upserts.HistoryHoldsAll` | ton-index-postgres-v2/src/InsertManagerPostgres.cpp:961-962 | The rows offered are those of all tasks of all batches. |
| `Upserts.LatestTable.Commit` | ton-index-postgres-v2/src/InsertManagerPostgres.cpp:957-958 | Conditional upserts in any order of the selected rows give one table. |
| `Upserts.LatestTable.InsertStates` | ton-index-postgres-v2/src/InsertManagerPostgres.cpp:952-1017 | Selecting and upserting a batch of account states commits the batch. |
| `Upserts.LatestTable.InsertInterfaces` | ton-index-postgres-v2/src/InsertManagerPostgres.cpp:1019-1063 | The same for interface data, whose tasks count back to front. |
| `Upserts.SplittingIrrelevant` | ton-index-postgres-v2/src/InsertManagerPostgres.cpp:952-1017 | Selecting per batch and upserting equals offering every row by itself, for every splitting into tasks and batches, ties included. |
| `Upserts.TableIsLatest` | ton-index-postgres-v2/src/InsertManagerPostgres.cpp:952-1017 | The table holds for every account an offered row of its greatest lt, and no other accounts. |
| `Upserts.OrderIrrelevantIff` | ton-index-postgres-v2/src/InsertManagerPostgres.cpp:952-1063 | All histories of the same rows, in any splitting, order and repetition, end alike if and only if no account has two different rows of its greatest lt. |
| `Upserts.EqualRowsSuffice` | ton-index-postgres-v2/src/InsertManagerPostgres.cpp:1019-1063 | In particular when rows of equal account and lt are equal. |
| `InsertQueue.GetQueueState` | tondb-scanner/src/InsertManagerBase.cpp:5-14 | The nested loops count one masterchain block, its blocks, and their transactions, messages and traces. |
| `InsertQueue.MessagesAreCounted` | tondb-scanner/src/InsertManagerBase.cpp:9-11 | The message count is the number of out-messages, plus one for each transaction with an in-message. |
| `InsertQueue.TotalHead` | tondb-scanner/src/InsertManagerBase.cpp:65-70 | Subtracting the load of the first task leaves the sum over the others. |
| `InsertQueue.TotalCountsAll` | tondb-scanner/src/InsertManagerBase.cpp:37-43 | The sum over queued tasks counts the tasks, and the blocks, transactions, messages and traces of all of them together. |
| `InsertQueue.InsertManager.Insert` | tondb-scanner/src/InsertManagerBase.cpp:37-43 | The reported state is the sum over all queued tasks, the new one last. |
| `InsertQueue.InsertManager.CutBatch` | tondb-scanner/src/InsertManagerBase.cpp:62-72 | The batch is a prefix of the queue; without its last task none of its four compared counters is above the limit; tasks remain only if one of the four is above it with that task. |
| `InsertQueue.InsertManager.CreateBatch` | tondb-scanner/src/InsertManagerBase.cpp:62-86 | Batches and queue together stay exactly what was handed in, in order; one more batch is active. |
| `InsertQueue.InsertManager.ScheduleNextInsertBatches` | tondb-scanner/src/InsertManagerBase.cpp:56-88 | Ends with the queue empty, the active limit reached or, for full batches, less than a limit's worth waiting; with full batches wanted every new batch is full, otherwise all but a last one that emptied the queue. |
| `InsertQueue.InsertManager.InsertBatchFinished` | tondb-scanner/src/InsertManagerBase.cpp:90-93 | One slot is freed and a message to itself is sent; the number of active batches stays between zero and the maximum. |
| `InsertQueue.InsertManager.FullBatchesRequested` | tondb-scanner/src/InsertManagerBase.cpp:90-93 | When that message arrives, full batches are cut, and only full ones. |
| `InsertQueue.FullBatchesAreDetermined` | tondb-scanner/src/InsertManagerBase.cpp:56-72 | If only full batches are cut, the batches depend on the order of the tasks alone, not on timing. |
| `BlockWalk.IndexQuery.AddBlockHandle` | tondb-scanner/src/DbScanner.cpp:220-235 | A block is taken once and its predecessors with seqno above 0 are queued. |
| `BlockWalk.IndexQuery.FetchLevel` | tondb-scanner/src/DbScanner.cpp:182-218 | For any order of replies, what is taken is reached and what is requested is taken, refused or queued. |
| `BlockWalk.IndexQuery.FetchShardBlocks` | tondb-scanner/src/DbScanner.cpp:160-218 | The walk ends with exactly the closure of the tops under predecessor links through accepted blocks, or fails on a missing block. |
| `BlockWalk.IndexQuery.CollectResults` | tondb-scanner/src/DbScanner.cpp:262-270 | The difference is the masterchain block and the taken blocks it references, each once; the state is it and the taken tops. |
| `BlockWalk.DiffIsComplete` | tondb-scanner/src/DbScanner.cpp:204-213 | If references never increase towards ancestors, a block referenced by this masterchain block is taken if and only if it is a top or an ancestor of one. |
| `BlockWalk.TopsAreReached` | tondb-scanner/src/DbScanner.cpp:171-178 | Every current top is taken, whatever references it; any other block taken is referenced by this masterchain block. |
| `BlockWalk.WalkGoesOn` | tondb-scanner/src/DbScanner.cpp:204-213 | From a block taken, exactly the predecessors that are tops or are referenced by this masterchain block are taken. |
| `TraceEmulation.StepKeepsInv` | ton-trace-emulator/src/TraceEmulator.cpp:94-201 | Every step keeps every promise in exactly one place and every answer right, and never changes an answer. |
| `TraceEmulation.RunKeepsInv` | ton-trace-emulator/src/TraceEmulator.cpp:94-201 | The same for every interleaving of replies. |
| `TraceEmulation.NothingLeftUnanswered` | ton-trace-emulator/src/TraceEmulator.cpp:176-201 | When nothing is left to deliver, no node waits and every promise is answered. |
| `TraceEmulation.AllCanBeDelivered` | ton-trace-emulator/src/TraceEmulator.cpp:176-193 | No reply is ever for a missing child slot. |
| `TraceEmulation.EmulationCompletes` | ton-trace-emulator/src/TraceEmulator.cpp:37-201 | The caller gets one answer; a tree in it is of the message asked for, its i-th child answers the i-th account-bound out-message at every level, and its height is at most depth + 1. |
| `TraceEmulation.HeightBound` | ton-trace-emulator/src/TraceEmulator.cpp:129-129 | A correctly built tree has height at most depth + 1. |
| `EmulationEnds.RunsEnd` | ton-trace-emulator/src/TraceEmulator.cpp:94-174 | No run, whatever its interleaving, has more messages than a bound given by the depth and the greatest number of out-messages. |
| `EmulationEnds.QuietIffOver` | ton-trace-emulator/src/TraceEmulator.cpp:176-201 | Nothing is on its way if and only if no message can be handled. |
| `EmulationEnds.FinishedRunAnswers` | ton-trace-emulator/src/TraceEmulator.cpp:94-201 | A run that cannot go on has answered every promise, and the caller with an error or a correct tree. |
| `EmulationTruth.AnswerIsDetermined` | ton-trace-emulator/src/TraceEmulator.cpp:94-201 | A run that cannot go on answers its caller with exactly the tree that the outcomes given for the promises make up, if no emulated message failed and every out-message to be followed was readable, and with an error if not. |
| `TraceEmulation.ReadableIff` | ton-trace-emulator/src/TraceEmulator.cpp:131-146 | The messages of a transaction can be followed if and only if none of them is unreadable. |
| `TraceEmulation.TargetsStop` | ton-trace-emulator/src/TraceEmulator.cpp:143-146 | Nothing behind the first unreadable message is passed on. |
| `TraceEmulation.ChildIsLower` | ton-trace-emulator/src/TraceEmulator.cpp:156-166 | Every child is lower than its parent, so the height bound is one on every path. |
| `TraceEmulating.PassOn` | ton-trace-emulator/src/TraceEmulator.cpp:129-167 | The loop passes on the account-bound messages in order up to the first unreadable one. |
| `TraceEmulating.TargetsSnoc` | ton-trace-emulator/src/TraceEmulator.cpp:140-164 | Each further readable message is passed on, behind the others, exactly if it goes to an account. |
| `TraceEmulating.TraceEmulatorActor.EmulateTransaction` | ton-trace-emulator/src/TraceEmulator.cpp:94-174 | The actor takes the emulation step: the messages passed on, the entry kept, or the answer given. |
| `TraceEmulating.TraceEmulatorActor.ChildEmulated` | ton-trace-emulator/src/TraceEmulator.cpp:176-193 | Filling a slot takes the delivery step, answering exactly when no slot is empty. |
| `TraceEmulating.TraceEmulatorActor.ChildError` | ton-trace-emulator/src/TraceEmulator.cpp:195-201 | A child's failure answers the parent with an error once. |
| `TraceFlattening.Flatten` | ton-trace-task-emulator/src/TaskResultInserter.cpp:30-56 | The work queue visits the nodes breadth first. |
| `TraceFlattening.BfsContains` | ton-trace-task-emulator/src/TaskResultInserter.cpp:36-56 | Exactly the nodes of the tree are written out. |
| `TraceFlattening.BfsByLevels` | ton-trace-task-emulator/src/TaskResultInserter.cpp:36-56 | The nodes of one level come in order and before those of the levels below. |
| `TraceFlattening.KeyIdentifies` | ton-trace-task-emulator/src/TaskResultInserter.cpp:59-65 | With distinct in-message hashes a key names one node. |
| `TraceRoundTrip.WriteResult` | ton-trace-task-emulator/src/TaskResultInserter.cpp:30-66 | Flattening and writing gives the result map of the tree. |
| `TraceRoundTrip.EntriesReflect` | ton-trace-task-emulator/src/TaskResultInserter.cpp:59-65 | The map holds exactly the keys of the tree, each with its node. |
| `TraceRoundTrip.LastEntryStays` | ton-trace-task-emulator/src/TaskResultInserter.cpp:59-65 | Of several nodes with one key the last one written stays. |
| `TraceRoundTrip.BuildNode` | ton-emulate-go/models/convert.go:29-58 | The recursive loop fills in exactly the specified tree and transaction map whenever its recursion ends. |
| `TraceRoundTrip.RoundTrip` | ton-emulate-go/models/convert.go:14-58 | Rebuilding a flattened trace with distinct in-message hashes returns the same tree, child order kept, if and only if in every node each out-message is answered by the next child or has no node. |
| `TraceRoundTrip.ShortHasShape` | ton-emulate-go/models/convert.go:38-55 | What comes back has the shape of the trace, with each transaction hash and in-message hash in its place. |
| `TraceRoundTrip.AllTransactionsKept` | ton-emulate-go/models/convert.go:36-36 | The transaction map holds every transaction of the trace and no other. |
| `TraceStore.DeleteDbSubtree` | ton-trace-emulator/src/TraceInserter.cpp:89-106 | The collected keys are exactly the stored keys reachable from the given key through out-messages, each with its index member. |
| `TraceStore.OutdatedByAll` | ton-trace-emulator/src/TraceInserter.cpp:25-47 | Over the whole tree, the deleted keys are exactly the stored keys reachable from confirmed nodes. |
| `TraceStore.TraceTable.Plan` | ton-trace-emulator/src/TraceInserter.cpp:17-47 | The loop lists the nodes breadth first and collects exactly the outdated keys. |
| `TraceStore.TraceTable.Remove` | ton-trace-emulator/src/TraceInserter.cpp:49-55 | Exactly the collected nodes and their index members go. |
| `TraceStore.TraceTable.Write` | ton-trace-emulator/src/TraceInserter.cpp:57-67 | The new nodes and their index members are there, everything else is kept. |
| `TraceStore.TraceTable.Insert` | ton-trace-emulator/src/TraceInserter.cpp:15-67 | The stored nodes are the survivors overridden by the new tree; the index loses the outdated members and gains those of the new tree. |
| `TraceStore.AfterAt` | ton-trace-emulator/src/TraceInserter.cpp:49-67 | After an insert a key is stored if and only if the new tree has it or it was stored and is not outdated; it holds a node of the new tree in the first case and what it held in the second. |
| `TraceStore.InStepIffAgree` | ton-trace-emulator/src/TraceInserter.cpp:49-67 | An insert keeps index and nodes in step if and only if the new nodes agree on accounts with each other and with what stays. |
| `TraceStore.InsertKeepsRight` | ton-trace-emulator/src/TraceInserter.cpp:15-106 | If the in-message hash determines the account, every insert keeps an address listing a key exactly when the key is stored with that account. |
| `Histograms.BucketCount` | tondb-scanner/src/Statistics.h:10-18 | The limits counted are 1 and the values 2 grown by half, up to the last one within the maximum: one more growth passes it. |
| `Histograms.BucketValues` | tondb-scanner/src/Statistics.h:20-34 | As many limits as counted: 1, then 2 grown by half again and again and rounded down; strictly growing. |
| `Histograms.IndexForValue` | tondb-scanner/src/Statistics.h:41-48 | All earlier limits are below the value, and the value is within the found limit unless the bucket is the last. |
| `Histograms.IndexMonotone` | tondb-scanner/src/Statistics.h:41-48 | Longer durations go to later buckets. |
| `Histograms.Histogram.Add` | tondb-scanner/src/Statistics.cpp:6-13 | The counters become those of the samples with the new one. |
| `Histograms.Histogram.Merge` | tondb-scanner/src/Statistics.cpp:65-75 | Merging gives the histogram of the concatenated samples, also when merged with itself. |
| `Histograms.Histogram.Reset` | tondb-scanner/src/Statistics.cpp:77-87 | The counters become those of no samples. |
| `Histograms.UptoAll` | tondb-scanner/src/Statistics.cpp:6-13 | The buckets together hold every event. |
| `Histograms.EventsAreHits` | tondb-scanner/src/Statistics.cpp:6-13 | The counts are numbers of single events: a sample counts as often as it was given. |
| `Histograms.Histogram.FindBucket` | tondb-scanner/src/Statistics.cpp:28-36 | The loop finds the first bucket with which the running count reaches the threshold. |
| `Histograms.Histogram.ComputePercentile` | tondb-scanner/src/Statistics.cpp:23-59 | Computes the specified percentile without reading past the buckets and without underflow of upper minus lower. |
| `Histograms.InBoundsIff` | tondb-scanner/src/Statistics.cpp:32-54 | With events present the search ends inside the buckets if and only if the percentage is at most 100. |
| `Histograms.PercentileAtMostMax` | tondb-scanner/src/Statistics.cpp:49-58 | For 0 to 100 percent the value lies between 0 and the longest duration. |
| `Histograms.PercentileMonotone` | tondb-scanner/src/Statistics.cpp:23-59 | Percentiles grow with the percentage. |
| `Histograms.OrderStatisticExists` | tondb-scanner/src/Statistics.cpp:28-36 | For 0 < p <= 100 some duration is the order statistic at the threshold. |
| `Histograms.OrderStatisticUnique` | tondb-scanner/src/Statistics.cpp:28-36 | It is the only one. |
| `Histograms.PercentileIsNearby` | tondb-scanner/src/Statistics.cpp:38-58 | For 0 < p <= 100 the percentile lies in the bucket range of the true order statistic, and so does the order statistic itself up to the last limit. |
| `Histograms.PercentileInterpolates` | tondb-scanner/src/Statistics.cpp:38-58 | For 0 < p <= 100, inside the bucket of the order statistic, the percentile divides the range from just above the previous limit to the smaller of the limit and the maximum exactly as the threshold p/100 of all events divides the events of the bucket. |

## Left out

- TL-B parsing, interface and action detectors, SQL text, DDL, ClickHouse columns, JSON building and the PostgreSQL v1 inserter: field copying, or results of a virtual machine that is not shown.
- The PostgreSQL v1 and ClickHouse schedulers, McBlockEmulator, TraceScheduler and IntegrityChecker: simpler relatives of what is modelled.
- Redis, RocksDB, PostgreSQL, networking, timers, logging and report text: I/O. A PostgreSQL transaction commits atomically or not at all.
- The transaction emulator and account states: an arbitrary outcome per message; the order in which messages change an account is not modelled. One emulator actor stands for the actors of all accounts.
- The count of broken traces and other statistics of the actors.
- Checkpoints.StepStaysOnTrack: a restart that finds no readable checkpoint is not one of its events, since it does lose traces (`ColdRunIff` says which).
- LateCheckpoint.LateSaveIff: is about blocks whose transactions root no saved trace and send no message that is saved as sent, as in every well-formed history.
- Checkpoints.RestartsAreInvisible: the same holds for its runs; takes a save as written before the next block is processed (`LateSaveIff` says what happens otherwise) and serialisation as faithful; state file names that parse to negative numbers, and two names that parse to one number, are not modelled.
- TraceBlock.SortedArrangementIsUnique: needs distinct (lt, account) keys; the order the library sort gives to equal keys is not modelled.
- SchedulerHandOver.FirstQueuedIsExpected: is about the first announcement that reaches past the restored state inside the configured range; before that nothing is queued.
- Increments of counters and seqnos are unbounded; only the decrement of `pending_edges` wraps around as in the source.
- TraceRoundTrip.RoundTrip: msgpack and base64 are taken as injective; account states and code cells stored beside the nodes are not modelled.
- TraceStore.TraceTable.Insert: following out-messages among the stored nodes is taken to end (a decreasing rank is given), as message hashes cannot form a cycle; index scores, interface entries, parse failures and the publication are not modelled.
- BlockWalk.IndexQuery.FetchShardBlocks: two handles of the same block count as one, and failures other than a missing block are not modelled.
- Histograms.Histogram.ComputePercentile: over exact reals, without concurrent adds; the percentile theorems hold for every strictly growing table of limits, so also for limits computed with rounding.
- InsertQueue.InsertManager.InsertBatchFinished: each created batch reports back at most once.
