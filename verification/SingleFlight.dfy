/**
The cross-process single flight of `single_flight.rs`: one runner per key, every concurrent
trigger merged into a shared marker.  A process is one call (`run`, `queue`, `take`, or a
foreground caller that blocks on the flight lock and then drains); any number of them interleave,
one step per lock or marker operation.

A payload is modelled by the sequence of trigger ids merged into it, which is the free payload;
`FlightPayloads` shows what that says about a payload type with its own `merge`.
*/
module SingleFlight {
  import opened Options

  type TriggerId = nat

  /** A payload: the triggers merged into it, most recent merge first. */
  type Load = ids: seq<TriggerId> | ids != [] witness [0]

  datatype Call =
    | CallRun(load: Load)
    | CallQueue(load: Load)
    | CallTake
    | CallForeground(initial: Option<Load>)

  /** What one `run_fn` pass returned. */
  datatype Verdict = Ran | StopRequeue | StopCarry | Failed

  datatype Outcome =
    | Coalesced
    | RanPasses(passes: nat)
    | Stopped
    | StoppedCarrying(load: Load)
    | Errored
    | Queued
    | Took(taken: Option<Load>)
    | Abandoned(initial: Option<Load>)

  /** Where a call stands.  [M] holds the marker lock, [F] the flight lock. */
  datatype Pc =
    | RunWaiting(load: Load)
    | RunDeciding(load: Load)                                   // [M]
    | RunLost(load: Load)                                       // [M]
    | RunWon(load: Load)                                        // [M,F]
    | ForegroundWaiting(initial: Option<Load>)
    | ForegroundHolding(initial: Option<Load>)                  // [F]
    | DrainWaiting(next: Option<Load>, passes: nat)             // [F]
    | DrainHolding(next: Option<Load>, passes: nat)             // [M,F]
    | DrainLoaded(load: Load, passes: nat)                      // [M,F]
    | DrainEmpty(passes: nat)                                   // [M,F]
    | InPass(load: Load, passes: nat)                           // [F]
    | RequeueWaiting(load: Load, failed: bool)                  // [F]
    | RequeueHolding(load: Load, failed: bool)                  // [M,F]
    | RequeueMerged(failed: bool)                               // [M,F]
    | CarryWaiting(load: Load)                                  // [F]
    | CarryHolding(load: Load)                                  // [M,F]
    | CarryTaken(load: Load)                                    // [M,F]
    | QueueWaiting(load: Load)
    | QueueHolding(load: Load)                                  // [M]
    | TakeWaiting
    | TakeHolding                                               // [M]
    | Leaving(outcome: Outcome)                                 // [M]
    | Returned(outcome: Outcome)
    | Crashed
  {
    predicate HoldsMarkerLock() {
      RunDeciding? || RunLost? || RunWon? || DrainHolding? || DrainLoaded? || DrainEmpty? ||
      RequeueHolding? || RequeueMerged? || CarryHolding? || CarryTaken? || QueueHolding? ||
      TakeHolding? || Leaving?
    }

    predicate HoldsFlight() {
      RunWon? || ForegroundHolding? || DrainWaiting? || DrainHolding? || DrainLoaded? ||
      DrainEmpty? || InPass? || RequeueWaiting? || RequeueHolding? || RequeueMerged? ||
      CarryWaiting? || CarryHolding? || CarryTaken?
    }

    predicate Finished() {
      Returned? || Crashed?
    }
  }

  /**
  The shared files and every call made so far.  `accepted`, `completed` and `lost` are history:
  the triggers handed to a call, covered by a pass that ran, and dropped by a crash.  `merges`
  counts the marker merges since the flight lock was last acquired.
  */
  datatype State = State(
    procs: seq<Pc>,
    flight: Option<nat>,
    markerLock: Option<nat>,
    marker: Option<Load>,
    accepted: multiset<TriggerId>,
    completed: multiset<TriggerId>,
    lost: multiset<TriggerId>,
    merges: nat)

  datatype Event =
    | Start(call: Call)
    | Move(who: nat)
    | PassEnds(who: nat, verdict: Verdict)
    | Resume(who: nat, drain: bool)
    | Crash(who: nat)

  const Init := State([], None, None, None, multiset{}, multiset{}, multiset{}, 0)

  function Ids(load: Option<Load>): multiset<TriggerId> {
    match load
    case None => multiset{}
    case Some(ids) => multiset(ids)
  }

  /** `payload.merge(existing)` on the marker file. */
  function Merged(marker: Option<Load>, load: Load): Load {
    match marker
    case None => load
    case Some(existing) => load + existing
  }

  function Entry(call: Call): Pc {
    match call
    case CallRun(load) => RunWaiting(load)
    case CallQueue(load) => QueueWaiting(load)
    case CallTake => TakeWaiting
    case CallForeground(initial) => ForegroundWaiting(initial)
  }

  /** Positions from which the call moves on by itself once the locks allow it. */
  predicate Movable(pc: Pc) {
    !pc.ForegroundHolding? && !pc.InPass? && !pc.Finished()
  }

  /** The next position of a call; a try-acquire depends on whether the flight lock is free. */
  function Step(pc: Pc, marker: Option<Load>, flightFree: bool): Pc
    requires Movable(pc)
  {
    match pc
    // `run`: marker lock, then try-acquire the flight lock under the same hold.
    case RunWaiting(load) => RunDeciding(load)
    case RunDeciding(load) => if flightFree then RunWon(load) else RunLost(load)
    case RunLost(load) => Leaving(Coalesced)
    case RunWon(load) => DrainWaiting(Some(load), 0)
    // A foreground caller blocks on the flight lock itself.
    case ForegroundWaiting(initial) => ForegroundHolding(initial)
    // `drain`: take the marker, then either run a pass or make the exit handoff.
    case DrainWaiting(next, passes) => DrainHolding(next, passes)
    case DrainHolding(next, passes) =>
      (match (marker, next)
       case (Some(queued), Some(current)) => DrainLoaded(current + queued, passes)
       case (Some(queued), None) => DrainLoaded(queued, passes)
       case (None, Some(current)) => DrainLoaded(current, passes)
       case (None, None) => DrainEmpty(passes))
    case DrainLoaded(load, passes) => InPass(load, passes + 1)
    case DrainEmpty(passes) => Leaving(RanPasses(passes))
    // `StopRequeue` and a failed pass: merge back, release the flight under the hold.
    case RequeueWaiting(load, failed) => RequeueHolding(load, failed)
    case RequeueHolding(load, failed) => RequeueMerged(failed)
    case RequeueMerged(failed) => Leaving(if failed then Errored else Stopped)
    // `StopCarry`: absorb the marker, release the flight under the hold, hand the payload back.
    case CarryWaiting(load) => CarryHolding(load)
    case CarryHolding(load) => CarryTaken(if marker.Some? then load + marker.value else load)
    case CarryTaken(load) => Leaving(StoppedCarrying(load))
    // `queue` and `take`.
    case QueueWaiting(load) => QueueHolding(load)
    case QueueHolding(load) => Leaving(Queued)
    case TakeWaiting => TakeHolding
    case TakeHolding => Leaving(Took(marker))
    case Leaving(outcome) => Returned(outcome)
  }

  predicate Merges(pc: Pc) {
    pc.RunLost? || pc.RequeueHolding? || pc.QueueHolding?
  }

  predicate Takes(pc: Pc) {
    pc.DrainHolding? || pc.CarryHolding? || pc.TakeHolding?
  }

  /** What the same move does to the marker file. */
  function MarkerStep(pc: Pc, marker: Option<Load>): Option<Load> {
    if Merges(pc) then Some(Merged(marker, pc.load))
    else if Takes(pc) then None
    else marker
  }

  function AfterPass(load: Load, passes: nat, verdict: Verdict): Pc {
    match verdict
    case Ran => DrainWaiting(None, passes)
    case StopRequeue => RequeueWaiting(load, false)
    case StopCarry => CarryWaiting(load)
    case Failed => RequeueWaiting(load, true)
  }

  /** The owner of a file lock when call `i`, which held it or not, now holds it or not. */
  function LockAfter(owner: Option<nat>, i: nat, held: bool, holds: bool): Option<nat> {
    if held == holds then owner else if holds then Some(i) else None
  }

  /** The merge count after a move: a flight that is just acquired starts counting anew. */
  function MergesStep(pc: Pc, pc': Pc, merges: nat): nat {
    if Merges(pc) then merges + 1
    else if pc'.HoldsFlight() && !pc.HoldsFlight() then 0
    else merges
  }

  /** Call `i` goes to `pc`, taking and releasing the locks the two positions differ in. */
  function Goes(s: State, i: nat, pc: Pc): State
    requires i < |s.procs|
  {
    var was := s.procs[i];
    s.(procs := s.procs[i := pc],
    flight := LockAfter(s.flight, i, was.HoldsFlight(), pc.HoldsFlight()),
    markerLock := LockAfter(s.markerLock, i, was.HoldsMarkerLock(), pc.HoldsMarkerLock()))
  }

  /** A lock is exclusive: a call that has to take one waits until nobody owns it. */
  predicate MayGo(s: State, i: nat, pc: Pc)
    requires i < |s.procs|
  {
    && (pc.HoldsFlight() && !s.procs[i].HoldsFlight() ==> s.flight.None?)
    && (pc.HoldsMarkerLock() && !s.procs[i].HoldsMarkerLock() ==> s.markerLock.None?)
  }

  predicate CanMove(s: State, i: nat) {
    && i < |s.procs|
    && Movable(s.procs[i])
    && MayGo(s, i, Step(s.procs[i], s.marker, s.flight.None?))
  }

  predicate Enabled(s: State, e: Event) {
    match e
    case Start(_) => true
    case Move(i) => CanMove(s, i)
    case PassEnds(i, _) => i < |s.procs| && s.procs[i].InPass?
    case Resume(i, _) => i < |s.procs| && s.procs[i].ForegroundHolding?
    case Crash(i) => i < |s.procs| && !s.procs[i].Finished()
  }

  function Next(s: State, e: Event): State
    requires Enabled(s, e)
  {
    match e
    case Start(call) =>
      s.(procs := s.procs + [Entry(call)], accepted := s.accepted + InHand(Entry(call)))
    case Move(i) =>
      var pc := s.procs[i];
      var pc' := Step(pc, s.marker, s.flight.None?);
      Goes(s, i, pc').(marker := MarkerStep(pc, s.marker), merges := MergesStep(pc, pc', s.merges))
    case PassEnds(i, verdict) =>
      Goes(s, i, AfterPass(s.procs[i].load, s.procs[i].passes, verdict)).(
      completed := if verdict.Ran? then s.completed + multiset(s.procs[i].load) else s.completed)
    case Resume(i, drain) =>
      var initial := s.procs[i].initial;
      Goes(s, i, if drain then DrainWaiting(initial, 0) else Returned(Abandoned(initial)))
    // A killed process: the OS frees its locks, its payload in memory is gone, the marker stays.
    case Crash(i) => Goes(s, i, Crashed).(lost := s.lost + InHand(s.procs[i]))
  }

  /** The payload a call still has in its hands, on the way to a pass, the marker or its caller. */
  function Hand(pc: Pc): Option<Load> {
    match pc
    case RunWaiting(load) => Some(load)
    case RunDeciding(load) => Some(load)
    case RunLost(load) => Some(load)
    case RunWon(load) => Some(load)
    case ForegroundWaiting(initial) => initial
    case ForegroundHolding(initial) => initial
    case DrainWaiting(next, _) => next
    case DrainHolding(next, _) => next
    case DrainLoaded(load, _) => Some(load)
    case InPass(load, _) => Some(load)
    case RequeueWaiting(load, _) => Some(load)
    case RequeueHolding(load, _) => Some(load)
    case CarryWaiting(load) => Some(load)
    case CarryHolding(load) => Some(load)
    case CarryTaken(load) => Some(load)
    case QueueWaiting(load) => Some(load)
    case QueueHolding(load) => Some(load)
    case Leaving(outcome) => Carried(outcome)
    case _ => None
  }

  /** The payload an outcome hands back to the caller. */
  function Carried(outcome: Outcome): Option<Load> {
    match outcome
    case StoppedCarrying(load) => Some(load)
    case Took(taken) => taken
    case Abandoned(initial) => initial
    case _ => None
  }

  function InHand(pc: Pc): multiset<TriggerId> {
    Ids(Hand(pc))
  }

  /** The triggers a finished call gave back to its caller. */
  function GivenBack(pc: Pc): multiset<TriggerId> {
    if pc.Returned? then Ids(Carried(pc.outcome)) else multiset{}
  }

  // ---------------------------------------------------------------------------------------------
  // Runs

  predicate IsRun(s: State, run: seq<Event>)
    decreases |run|
  {
    run == [] || (Enabled(s, run[0]) && IsRun(Next(s, run[0]), run[1..]))
  }

  function Final(s: State, run: seq<Event>): State
    requires IsRun(s, run)
    decreases |run|
  {
    if run == [] then s else Final(Next(s, run[0]), run[1..])
  }
}
