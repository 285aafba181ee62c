/** The index scheduler and the assembler it feeds, as a state machine whose steps are the
    messages the scheduler receives (ton-index-postgres-v2/src/IndexScheduler.cpp). */
module SchedulerModel {
  import opened Wrappers

  // `to == 0` means no upper bound; `from` is at least 1.
  datatype Config = Config(from: nat, to: nat, force: bool, maxActive: nat)

  // Where a dispatched seqno is: being fetched, being parsed, waiting in the assembler,
  // assembled, in interface or action detection, handed to the insert manager, or queued there.
  datatype Stage = Fetching | Parsing | Waiting | Assembled | Interfaces | Actions | Handed | Inserting

  datatype Scheduler = Scheduler(queue: seq<nat>, processing: set<nat>, existing: set<nat>, lastKnown: nat,
                                 stage: map<nat, Stage>, inserted: set<nat>,
                                 expected: nat, waiting: set<nat>, crashed: bool)

  datatype Event =
    | LastKnown(seqno: nat)
    | Poll
    | Fetched(seqno: nat, ok: bool)
    | Parsed(seqno: nat, ok: bool)
    | TracesAssembled(seqno: nat)
    | InterfacesProcessed(seqno: nat, ok: bool)
    | ActionsProcessed(seqno: nat, ok: bool)
    | QueuedToInsert(seqno: nat, accept: bool)
    | Inserted(seqno: nat, ok: bool)

  // ---- Start-up ----

  // First seqno missing from the run that starts at the lowest stored one (sorted input).
  function AfterRun(stored: seq<nat>, next: nat): (r: nat)
    ensures next <= r
  {
    if stored != [] && stored[0] == next then AfterRun(stored[1..], next + 1) else next
  }

  function NextSeqno(from: nat, stored: seq<nat>): nat {
    if stored == [] then from else AfterRun(stored, stored[0])
  }

  // The last seqno taken as done, given the checkpoint the assembler found (if any).
  function LastState(from: nat, next: nat, restored: Option<nat>): nat
    requires 1 <= from && 1 <= next
  {
    match restored
    case Some(s) => s
    case None => (if from < next then (if from < next - 50 then next - 50 else from) else next) - 1
  }

  function Between(lo: nat, hi: nat): (r: set<nat>)
    ensures forall s :: s in r <==> lo <= s <= hi
    decreases hi
  {
    if hi < lo then {} else (if hi == 0 then {} else Between(lo, hi - 1)) + {hi}
  }

  function Initial(from: nat, lastState: nat): Scheduler {
    Scheduler([], {}, Between(from, lastState), 0, map[], {}, lastState + 1, {}, false)
  }

  // ---- Steps ----

  predicate InRange(c: Config, s: nat) {
    c.from <= s && (c.to == 0 || s <= c.to)
  }

  // The seqnos `lo + 1 .. hi` that are to be indexed, in order.
  function Discover(c: Config, existing: set<nat>, lo: nat, hi: nat): seq<nat>
    decreases hi
  {
    if hi <= lo then []
    else
      Discover(c, existing, lo, hi - 1) +
      (if (c.force || hi !in existing) && InRange(c, hi) then [hi] else [])
  }

  function GotLastKnown(c: Config, s: Scheduler, seqno: nat): Scheduler {
    if c.to > 0 && s.lastKnown > c.to then s
    else s.(queue := s.queue + Discover(c, s.existing, s.lastKnown, seqno), lastKnown := seqno)
  }

  function DispatchOne(s: Scheduler): Scheduler
    requires s.queue != []
  {
    var x := s.queue[0];
    s.(queue := s.queue[1..], processing := s.processing + {x}, stage := s.stage[x := Fetching])
  }

  function Dispatch(c: Config, s: Scheduler): Scheduler
    decreases |s.queue|
  {
    if s.queue != [] && |s.processing| < c.maxActive then Dispatch(c, DispatchOne(s)) else s
  }

  function Reschedule(s: Scheduler, x: nat): Scheduler {
    s.(processing := s.processing - {x}, queue := s.queue + [x], stage := s.stage - {x})
  }

  // The assembler answers every waiting seqno it can reach.
  function Drain(s: Scheduler): Scheduler
    decreases |s.waiting|
  {
    if s.expected in s.waiting then
      Drain(s.(waiting := s.waiting - {s.expected}, expected := s.expected + 1, stage := s.stage[s.expected := Assembled]))
    else s
  }

  function SendToAssembler(s: Scheduler, x: nat): Scheduler {
    if x < s.expected then s.(crashed := true)
    else Drain(s.(waiting := s.waiting + {x}, stage := s.stage[x := Waiting]))
  }

  predicate At(s: Scheduler, x: nat, st: Stage) {
    x in s.stage && s.stage[x] == st
  }

  // A message can only arrive if it is on its way; the last known seqno never decreases.
  predicate Enabled(s: Scheduler, e: Event) {
    !s.crashed &&
    match e
    case LastKnown(v) => s.lastKnown <= v
    case Poll => true
    case Fetched(x, _) => At(s, x, Fetching)
    case Parsed(x, _) => At(s, x, Parsing)
    case TracesAssembled(x) => At(s, x, Assembled)
    case InterfacesProcessed(x, _) => At(s, x, Interfaces)
    case ActionsProcessed(x, _) => At(s, x, Actions)
    case QueuedToInsert(x, _) => At(s, x, Handed)
    case Inserted(x, _) => At(s, x, Inserting)
  }

  function MoveOn(s: Scheduler, x: nat, ok: bool, next: Stage): Scheduler {
    if ok then s.(stage := s.stage[x := next]) else Reschedule(s, x)
  }

  function Apply(c: Config, s: Scheduler, e: Event): Scheduler {
    match e
    case LastKnown(v) => GotLastKnown(c, s, v)
    case Poll => Dispatch(c, s)
    case Fetched(x, ok) => MoveOn(s, x, ok, Parsing)
    case Parsed(x, ok) => if ok then SendToAssembler(s, x) else Reschedule(s, x)
    case TracesAssembled(x) => MoveOn(s, x, true, Interfaces)
    case InterfacesProcessed(x, ok) => MoveOn(s, x, ok, Actions)
    case ActionsProcessed(x, ok) => MoveOn(s, x, ok, Handed)
    case QueuedToInsert(x, accept) =>
      var q := s.(processing := s.processing - {x}, stage := s.stage[x := Inserting]);
      if accept then Dispatch(c, q) else q
    case Inserted(x, ok) =>
      if ok then s.(existing := s.existing + {x}, inserted := s.inserted + {x}, stage := s.stage - {x})
      else Reschedule(s, x)
  }

  predicate Possible(c: Config, s: Scheduler, es: seq<Event>)
    decreases |es|
  {
    es == [] || (Enabled(s, es[0]) && Possible(c, Apply(c, s, es[0]), es[1..]))
  }

  function Play(c: Config, s: Scheduler, es: seq<Event>): Scheduler
    decreases |es|
  {
    if es == [] then s else Play(c, Apply(c, s, es[0]), es[1..])
  }
}
