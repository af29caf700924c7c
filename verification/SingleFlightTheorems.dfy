/** The promises of the single flight, over every interleaving of every set of calls. */
module SingleFlightTheorems {
  import opened Options
  import opened SingleFlight
  import opened SingleFlightInvariants

  // ---------------------------------------------------------------------------------------------
  // Conservation

  /**
  In every reachable state the triggers accepted so far are exactly those covered by a completed
  pass, waiting in the marker, in some call's hands, handed back to a caller, or in the hands of a
  call when it was killed.
  */
  lemma Conservation(run: seq<Event>)
    requires IsRun(Init, run)
    ensures var s := Final(Init, run);
            s.accepted == s.completed + s.lost + Ids(s.marker) + Total(InHand, s.procs) + Total(GivenBack, s.procs)
  {
    RunKeepsInv(Init, run);
  }

  ghost predicate CrashFree(run: seq<Event>) {
    forall k :: 0 <= k < |run| ==> !run[k].Crash?
  }

  /** Only a crash loses triggers, and it loses no more than the killed call had in its hands. */
  lemma {:induction false} OnlyCrashesLose(s: State, run: seq<Event>)
    requires IsRun(s, run) && CrashFree(run)
    ensures Final(s, run).lost == s.lost
    decreases |run|
  {
    if run != [] {
      assert !run[0].Crash?;
      assert forall k :: 0 <= k < |run[1..]| ==> run[1..][k] == run[k + 1];
      OnlyCrashesLose(Next(s, run[0]), run[1..]);
    }
  }

  // ---------------------------------------------------------------------------------------------
  // The exit handoff

  /** At most one pass runs at a time. */
  lemma OnePassAtATime(run: seq<Event>, i: nat, j: nat)
    requires IsRun(Init, run)
    requires i < |Final(Init, run).procs| && j < |Final(Init, run).procs|
    requires Final(Init, run).procs[i].InPass? && Final(Init, run).procs[j].InPass?
    ensures i == j
  {
    RunKeepsInv(Init, run);
  }

  /**
  A runner that leaves with `Ran` releases the flight lock with the marker empty and with nobody
  else inside a marker-lock section: no contender stands between its failed try and its merge.
  */
  lemma ReleasedUnderTheHold(run: seq<Event>, i: nat)
    requires IsRun(Init, run)
    requires i < |Final(Init, run).procs| && Final(Init, run).procs[i].DrainEmpty?
    ensures var s := Final(Init, run);
            && s.marker.None?
            && s.flight == Some(i)
            && CanMove(s, i) && Next(s, Move(i)).flight.None?
            && forall j :: 0 <= j < |s.procs| && j != i ==> !s.procs[j].HoldsMarkerLock()
  {
    RunKeepsInv(Init, run);
  }

  /** A queued payload that no runner is obliged to look at. */
  predicate Stranded(s: State) {
    s.marker.Some? && s.flight.None?
  }

  /** The steps that can strand a payload: a parked or requeued one, or a holder that vanishes. */
  predicate Strands(s: State, e: Event)
    requires Enabled(s, e)
  {
    match e
    case Move(i) => s.procs[i].RequeueMerged? || (Merges(s.procs[i]) && s.flight.None?)
    case Resume(i, drain) => !drain && s.marker.Some?
    case Crash(i) => s.procs[i].HoldsFlight() && s.marker.Some?
    case _ => false
  }

  lemma MoveStrandsExactly(s: State, i: nat)
    requires Locks(s) && Cleared(s) && CanMove(s, i) && !Stranded(s)
    ensures Stranded(Next(s, Move(i))) <==> Strands(s, Move(i))
  {
    var pc := s.procs[i];
    var s' := Next(s, Move(i));
    assert s'.marker == MarkerStep(pc, s.marker);
    assert s'.flight == LockAfter(s.flight, i, pc.HoldsFlight(), s'.procs[i].HoldsFlight());
    assert Seen(pc, s.marker);
  }

  lemma StrandedExactlyBy(s: State, e: Event)
    requires Inv(s) && Enabled(s, e) && !Stranded(s)
    ensures Stranded(Next(s, e)) <==> Strands(s, e)
  {
    if e.Move? {
      MoveStrandsExactly(s, e.who);
    }
  }

  /** Every pass returns `Ran` or `StopCarry`, nothing is parked, no holder vanishes. */
  predicate Quiet(e: Event) {
    match e
    case Start(call) => !call.CallQueue?
    case Move(_) => true
    case PassEnds(_, verdict) => verdict.Ran? || verdict.StopCarry?
    case Resume(_, drain) => drain
    case Crash(_) => false
  }

  predicate Parks(pc: Pc) {
    pc.QueueWaiting? || pc.QueueHolding? || pc.RequeueWaiting? || pc.RequeueHolding? || pc.RequeueMerged?
  }

  predicate Contends(pc: Pc) {
    pc.RunWaiting? || pc.RunDeciding?
  }

  /** Somebody holds the flight lock, or (`waking`) is about to try for it. */
  ghost predicate Attended(s: State, waking: bool) {
    s.flight.Some? || (waking && exists i :: 0 <= i < |s.procs| && Contends(s.procs[i]))
  }

  ghost predicate HandedOff(s: State, waking: bool) {
    && (s.marker.Some? ==> Attended(s, waking))
    && (forall i :: 0 <= i < |s.procs| && s.procs[i].RunLost? ==> Attended(s, waking))
    && (forall i :: 0 <= i < |s.procs| ==> !Parks(s.procs[i]))
  }

  lemma QuietStepParksNothing(s: State, e: Event)
    requires Enabled(s, e) && Quiet(e) && !e.Start? && !Parks(s.procs[e.who])
    ensures !Parks(Next(s, e).procs[e.who])
  {
  }

  /** In a quiet run the flight is released only by a runner that has the marker empty in its hold. */
  lemma QuietRelease(s: State, e: Event)
    requires Locks(s) && Cleared(s) && Enabled(s, e) && Quiet(e)
    requires forall i :: 0 <= i < |s.procs| ==> !Parks(s.procs[i])
    requires s.flight.Some? && Next(s, e).flight.None?
    ensures e.Move? && (s.procs[e.who].DrainEmpty? || s.procs[e.who].CarryTaken?)
    ensures Next(s, e).marker.None?
    ensures forall j :: 0 <= j < |s.procs| ==> !s.procs[j].RunLost?
  {
    assert !e.Start?;
    assert s.procs[e.who].HoldsFlight() && !Next(s, e).procs[e.who].HoldsFlight();
  }

  /** While nobody holds the flight, a quiet step leaves the marker to whoever is about to try. */
  lemma QuietWait(s: State, e: Event, waking: bool)
    requires HandedOff(s, waking) && Enabled(s, e) && Quiet(e)
    requires s.flight.None? && Next(s, e).flight.None?
    ensures Next(s, e).marker.Some? ==> Attended(Next(s, e), waking)
    ensures forall j :: 0 <= j < |Next(s, e).procs| && Next(s, e).procs[j].RunLost? ==> Attended(Next(s, e), waking)
  {
    var s' := Next(s, e);
    if Attended(s, waking) {
      var k :| 0 <= k < |s.procs| && Contends(s.procs[k]);
      assert Contends(s'.procs[k]);
    } else {
      assert forall i :: 0 <= i < |s.procs| ==> !Merges(s.procs[i]);
    }
  }

  lemma HandedOffKept(s: State, e: Event, waking: bool)
    requires Locks(s) && Cleared(s) && HandedOff(s, waking) && Enabled(s, e) && Quiet(e)
    ensures HandedOff(Next(s, e), waking)
  {
    if !e.Start? {
      QuietStepParksNothing(s, e);
    }
    if Next(s, e).flight.None? {
      if s.flight.Some? {
        QuietRelease(s, e);
      } else {
        QuietWait(s, e, waking);
      }
    }
  }

  ghost predicate AllQuiet(run: seq<Event>) {
    forall k :: 0 <= k < |run| ==> Quiet(run[k])
  }

  lemma {:induction false} QuietRunHandsOff(s: State, run: seq<Event>, waking: bool)
    requires Inv(s) && HandedOff(s, waking) && IsRun(s, run) && AllQuiet(run)
    ensures HandedOff(Final(s, run), waking)
    decreases |run|
  {
    if run != [] {
      assert Quiet(run[0]);
      assert forall k :: 0 <= k < |run[1..]| ==> run[1..][k] == run[k + 1];
      InvKept(s, run[0]);
      HandedOffKept(s, run[0], waking);
      QuietRunHandsOff(Next(s, run[0]), run[1..], waking);
    }
  }

  /** A holder of the flight that has yet to make its final check of the marker. */
  predicate WillTakeMarker(pc: Pc) {
    pc.HoldsFlight() && !pc.DrainEmpty? && !pc.CarryTaken? && !Parks(pc)
  }

  /**
  If every pass returns `Ran` or `StopCarry` and nothing is parked, abandoned or killed, a
  non-empty marker always has a live runner ahead of its final check.
  */
  lemma NonEmptyMarkerHasARunner(run: seq<Event>)
    requires IsRun(Init, run) && AllQuiet(run)
    ensures var s := Final(Init, run);
            s.marker.Some? ==>
              s.flight.Some? && s.flight.value < |s.procs| && WillTakeMarker(s.procs[s.flight.value])
  {
    RunKeepsInv(Init, run);
    QuietRunHandsOff(Init, run, false);
  }

  // ---------------------------------------------------------------------------------------------
  // Progress

  /** Call `i` can take its next step now; a pass or a foreground pass can always end. */
  predicate CanAct(s: State, i: nat) {
    i < |s.procs| && (CanMove(s, i) || s.procs[i].InPass? || s.procs[i].ForegroundHolding?)
  }

  /** The holder of the marker lock never waits for anything. */
  lemma MarkerHolderNeverWaits(s: State, i: nat)
    requires Locks(s) && i < |s.procs| && s.procs[i].HoldsMarkerLock()
    ensures CanMove(s, i)
  {
  }

  /**
  No reachable state is deadlocked, foreground callers blocked on the flight lock included: while
  some call is unfinished, some call can act.
  */
  lemma NoDeadlock(s: State, i: nat) returns (j: nat)
    requires Locks(s) && i < |s.procs| && !s.procs[i].Finished()
    ensures CanAct(s, j)
  {
    if s.markerLock.Some? {
      j := s.markerLock.value;
      MarkerHolderNeverWaits(s, j);
    } else if s.flight.Some? && s.procs[i].ForegroundWaiting? {
      j := s.flight.value;
    } else {
      j := i;
    }
  }

  /** Steps a call can still take by itself: ten of them pay for the merge it may leave behind. */
  function Rank(pc: Pc): nat {
    match pc
    case RunWaiting(_) => 22
    case RunDeciding(_) => 21
    case RunWon(_) => 20
    case RunLost(_) => 11
    case ForegroundWaiting(_) => 21
    case ForegroundHolding(_) => 20
    case DrainWaiting(next, _) => if next.Some? then 19 else 15
    case DrainHolding(next, _) => if next.Some? then 18 else 14
    case DrainLoaded(_, _) => 17
    case InPass(_, _) => 16
    case RequeueWaiting(_, _) => 12
    case RequeueHolding(_, _) => 11
    case RequeueMerged(_) => 2
    case CarryWaiting(_) => 12
    case CarryHolding(_) => 11
    case CarryTaken(_) => 2
    case DrainEmpty(_) => 2
    case QueueWaiting(_) => 12
    case QueueHolding(_) => 11
    case TakeWaiting => 3
    case TakeHolding => 2
    case Leaving(_) => 1
    case Returned(_) => 0
    case Crashed => 0
  }

  function Ranks(procs: seq<Pc>): nat {
    if procs == [] then 0 else Rank(procs[0]) + Ranks(procs[1..])
  }

  /** A queued marker is worth four steps: it buys one more turn of the drain loop. */
  function Work(s: State): nat {
    Ranks(s.procs) + 4 * Pending(s.marker)
  }

  lemma {:induction false} RanksAt(procs: seq<Pc>, i: nat, pc: Pc)
    requires i < |procs|
    ensures Ranks(procs[i := pc]) + Rank(procs[i]) == Ranks(procs) + Rank(pc)
    decreases i
  {
    if i == 0 {
      assert procs[0 := pc][1..] == procs[1..];
    } else {
      assert procs[i := pc][1..] == procs[1..][i - 1 := pc];
      RanksAt(procs[1..], i - 1, pc);
    }
  }

  lemma {:induction false} RanksAppend(procs: seq<Pc>, pc: Pc)
    ensures Ranks(procs + [pc]) == Ranks(procs) + Rank(pc)
  {
    if procs == [] {
      assert (procs + [pc])[1..] == [];
    } else {
      assert (procs + [pc])[1..] == procs[1..] + [pc];
      RanksAppend(procs[1..], pc);
    }
  }

  lemma MoveSpends(pc: Pc, marker: Option<Load>, flightFree: bool)
    requires Movable(pc)
    ensures Rank(Step(pc, marker, flightFree)) + 4 * Pending(MarkerStep(pc, marker)) < Rank(pc) + 4 * Pending(marker)
  {
  }

  lemma WorkAfter(s: State, s': State, i: nat)
    requires i < |s.procs| == |s'.procs| && s'.procs == s.procs[i := s'.procs[i]]
    ensures Work(s') + Rank(s.procs[i]) + 4 * Pending(s.marker) == Work(s) + Rank(s'.procs[i]) + 4 * Pending(s'.marker)
  {
    RanksAt(s.procs, i, s'.procs[i]);
  }

  lemma MoveStepSpends(s: State, i: nat)
    requires CanMove(s, i)
    ensures Work(Next(s, Move(i))) < Work(s)
  {
    WorkAfter(s, Next(s, Move(i)), i);
    MoveSpends(s.procs[i], s.marker, s.flight.None?);
  }

  lemma PassSpends(s: State, i: nat, verdict: Verdict)
    requires Enabled(s, PassEnds(i, verdict))
    ensures Work(Next(s, PassEnds(i, verdict))) < Work(s)
  {
    WorkAfter(s, Next(s, PassEnds(i, verdict)), i);
  }

  lemma ResumeSpends(s: State, i: nat, drain: bool)
    requires Enabled(s, Resume(i, drain))
    ensures Work(Next(s, Resume(i, drain))) < Work(s)
  {
    WorkAfter(s, Next(s, Resume(i, drain)), i);
  }

  lemma CrashSpends(s: State, i: nat)
    requires Enabled(s, Crash(i))
    ensures Work(Next(s, Crash(i))) < Work(s)
  {
    WorkAfter(s, Next(s, Crash(i)), i);
  }

  /** Every step but the arrival of a new call uses up some of the work left. */
  lemma StepSpends(s: State, e: Event)
    requires Enabled(s, e)
    ensures if e.Start? then Work(Next(s, e)) <= Work(s) + 22 else Work(Next(s, e)) < Work(s)
  {
    match e
    case Start(call) => RanksAppend(s.procs, Entry(call));
    case Move(i) => MoveStepSpends(s, i);
    case PassEnds(i, verdict) => PassSpends(s, i, verdict);
    case Resume(i, drain) => ResumeSpends(s, i, drain);
    case Crash(i) => CrashSpends(s, i);
  }

  function Calls(run: seq<Event>): nat {
    if run == [] then 0 else (if run[0].Start? then 1 else 0) + Calls(run[1..])
  }

  lemma {:induction false} RunSpends(s: State, run: seq<Event>)
    requires IsRun(s, run)
    ensures |run| + Work(Final(s, run)) <= Work(s) + 23 * Calls(run)
    decreases |run|
  {
    if run != [] {
      StepSpends(s, run[0]);
      RunSpends(Next(s, run[0]), run[1..]);
    }
  }

  /** Every interleaving of finitely many calls ends: at most 23 steps per call. */
  lemma RunsTerminate(run: seq<Event>)
    requires IsRun(Init, run)
    ensures |run| <= 23 * Calls(run)
  {
    RunSpends(Init, run);
  }

  /** One flight runs at most one pass plus one per merge made while it holds the lock. */
  lemma PassesPerFlight(run: seq<Event>, i: nat)
    requires IsRun(Init, run) && i < |Final(Init, run).procs|
    ensures var s := Final(Init, run);
            && (s.procs[i].InPass? ==> 1 <= s.procs[i].passes <= 1 + s.merges)
            && (s.procs[i].DrainEmpty? ==> s.procs[i].passes <= 1 + s.merges)
  {
    RunKeepsInv(Init, run);
    PassesStartAtOne(Init, run, i);
  }

  ghost predicate Counting(s: State) {
    forall j :: 0 <= j < |s.procs| && s.procs[j].InPass? ==> s.procs[j].passes >= 1
  }

  lemma CountingKept(s: State, e: Event)
    requires Counting(s) && Enabled(s, e)
    ensures Counting(Next(s, e))
  {
  }

  lemma {:induction false} PassesStartAtOne(s: State, run: seq<Event>, i: nat)
    requires IsRun(s, run) && i < |Final(s, run).procs| && Counting(s)
    ensures Final(s, run).procs[i].InPass? ==> Final(s, run).procs[i].passes >= 1
    decreases |run|
  {
    if run != [] {
      CountingKept(s, run[0]);
      PassesStartAtOne(Next(s, run[0]), run[1..], i);
    }
  }

  // ---------------------------------------------------------------------------------------------
  // Nothing is left behind

  ghost predicate Quiescent(s: State) {
    forall i :: 0 <= i < |s.procs| ==> !CanAct(s, i)
  }

  lemma QuiescentMeansFinished(s: State)
    requires Locks(s) && Quiescent(s)
    ensures forall i :: 0 <= i < |s.procs| ==> s.procs[i].Finished()
  {
    forall i | 0 <= i < |s.procs|
      ensures s.procs[i].Finished()
    {
      if !s.procs[i].Finished() {
        var j := NoDeadlock(s, i);
        assert false;
      }
    }
  }

  lemma {:induction false} FinishedHoldNothing(procs: seq<Pc>)
    requires forall i :: 0 <= i < |procs| ==> procs[i].Finished()
    ensures Total(InHand, procs) == multiset{}
  {
    if procs != [] {
      assert InHand(procs[0]) == multiset{};
      FinishedHoldNothing(procs[1..]);
    }
  }

  lemma NothingPending(s: State)
    requires s.marker.None? && Total(InHand, s.procs) == multiset{}
    ensures Settled(s) == s.completed + s.lost + Total(GivenBack, s.procs)
  {
    assert Ids(s.marker) == multiset{};
    var m := s.completed + s.lost;
    assert m + multiset{} == m;
  }

  lemma FinishedHaveNoLocks(s: State)
    requires Locks(s) && forall i :: 0 <= i < |s.procs| ==> s.procs[i].Finished()
    ensures s.flight.None?
    ensures forall i :: 0 <= i < |s.procs| ==> !Contends(s.procs[i])
  {
  }

  /**
  The whole promise.  Take any state without a parking call in progress in which every queued
  payload has a runner or a call about to try (after any history, crashes included), and let quiet
  steps run until nobody can act: the marker is empty and every trigger ever accepted was covered
  by a completed pass, handed back to its caller, or in the hands of a call that was killed.
  */
  lemma NothingIsLeftBehind(s: State, run: seq<Event>)
    requires Inv(s) && HandedOff(s, true)
    requires IsRun(s, run) && AllQuiet(run) && Quiescent(Final(s, run))
    ensures var s' := Final(s, run);
            && s'.marker.None?
            && s'.accepted == s'.completed + s'.lost + Total(GivenBack, s'.procs)
  {
    var s' := Final(s, run);
    RunKeepsInv(s, run);
    QuietRunHandsOff(s, run, true);
    QuiescentMeansFinished(s');
    FinishedHoldNothing(s'.procs);
    FinishedHaveNoLocks(s');
    NothingPending(s');
  }

  lemma TriggerAttends(s: State, load: Load)
    requires forall i :: 0 <= i < |s.procs| ==> !Parks(s.procs[i])
    ensures HandedOff(Next(s, Start(CallRun(load))), true)
  {
    var s' := Next(s, Start(CallRun(load)));
    assert Contends(s'.procs[|s.procs|]);
  }

  /** After any history without a parking call in progress, however many calls were killed and
   *  whatever the others are in the middle of, one more trigger drains the marker. */
  lemma NextTriggerRevives(history: seq<Event>, load: Load, run: seq<Event>)
    requires IsRun(Init, history)
    requires forall i :: 0 <= i < |Final(Init, history).procs| ==> !Parks(Final(Init, history).procs[i])
    requires IsRun(Next(Final(Init, history), Start(CallRun(load))), run) && AllQuiet(run)
    requires Quiescent(Final(Next(Final(Init, history), Start(CallRun(load))), run))
    ensures var s := Final(Next(Final(Init, history), Start(CallRun(load))), run);
            && s.marker.None?
            && s.accepted == s.completed + s.lost + Total(GivenBack, s.procs)
  {
    var s := Final(Init, history);
    RunKeepsInv(Init, history);
    InvKept(s, Start(CallRun(load)));
    TriggerAttends(s, load);
    NothingIsLeftBehind(Next(s, Start(CallRun(load))), run);
  }
}
