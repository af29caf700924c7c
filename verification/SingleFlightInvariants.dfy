/** What every step of the single flight keeps, and what follows for every run. */
module SingleFlightInvariants {
  import opened Options
  import opened SingleFlight

  // ---------------------------------------------------------------------------------------------
  // Sums over all calls

  ghost function Total(f: Pc -> multiset<TriggerId>, procs: seq<Pc>): multiset<TriggerId> {
    if procs == [] then multiset{} else f(procs[0]) + Total(f, procs[1..])
  }

  lemma {:induction false} TotalAt(f: Pc -> multiset<TriggerId>, procs: seq<Pc>, i: nat, pc: Pc, t: TriggerId)
    requires i < |procs|
    ensures Total(f, procs[i := pc])[t] + f(procs[i])[t] == Total(f, procs)[t] + f(pc)[t]
    decreases i
  {
    var after := procs[i := pc];
    if i == 0 {
      assert after[1..] == procs[1..];
    } else {
      assert after[1..] == procs[1..][i - 1 := pc];
      TotalAt(f, procs[1..], i - 1, pc, t);
    }
  }

  lemma {:induction false} TotalAppend(f: Pc -> multiset<TriggerId>, procs: seq<Pc>, pc: Pc)
    ensures Total(f, procs + [pc]) == Total(f, procs) + f(pc)
  {
    if procs == [] {
      assert (procs + [pc])[1..] == [];
    } else {
      assert (procs + [pc])[1..] == procs[1..] + [pc];
      TotalAppend(f, procs[1..], pc);
    }
  }

  // ---------------------------------------------------------------------------------------------
  // Mutual exclusion

  /** Each lock is owned by the one call whose position says so. */
  ghost predicate Locks(s: State) {
    && (forall i :: 0 <= i < |s.procs| ==> (s.procs[i].HoldsFlight() <==> s.flight == Some(i)))
    && (forall i :: 0 <= i < |s.procs| ==> (s.procs[i].HoldsMarkerLock() <==> s.markerLock == Some(i)))
    && (s.flight.Some? ==> s.flight.value < |s.procs|)
    && (s.markerLock.Some? ==> s.markerLock.value < |s.procs|)
  }

  lemma GoesKeepsLocks(s: State, i: nat, pc: Pc)
    requires Locks(s) && i < |s.procs| && MayGo(s, i, pc)
    ensures Locks(Goes(s, i, pc))
  {
  }

  lemma LocksKept(s: State, e: Event)
    requires Locks(s) && Enabled(s, e)
    ensures Locks(Next(s, e))
  {
    if !e.Start? {
      var s' := Next(s, e);
      GoesKeepsLocks(s, e.who, s'.procs[e.who]);
    }
  }

  // ---------------------------------------------------------------------------------------------
  // The exit handoff: the flight is released with the marker empty

  /** What the marker lock's holder has seen of the marker still stands. */
  predicate Seen(pc: Pc, marker: Option<Load>) {
    && (pc.DrainEmpty? || pc.CarryTaken? || pc.DrainLoaded? ==> marker.None?)
    && (pc.RequeueMerged? ==> marker.Some?)
  }

  ghost predicate Cleared(s: State) {
    forall i :: 0 <= i < |s.procs| ==> Seen(s.procs[i], s.marker)
  }

  lemma ClearedKept(s: State, e: Event)
    requires Locks(s) && Cleared(s) && Enabled(s, e)
    ensures Cleared(Next(s, e))
  {
  }

  // ---------------------------------------------------------------------------------------------
  // Passes per flight

  function Pending(marker: Option<Load>): nat {
    if marker.Some? then 1 else 0
  }

  /** Passes run so far, plus one if the marker asks for another, against the merges of this flight. */
  predicate PassesOwed(pc: Pc, marker: Option<Load>, merges: nat) {
    match pc
    case DrainWaiting(next, passes) => passes == 0 || (next.None? && passes + Pending(marker) <= 1 + merges)
    case DrainHolding(next, passes) => passes == 0 || (next.None? && passes + Pending(marker) <= 1 + merges)
    case DrainLoaded(_, passes) => passes + 1 + Pending(marker) <= 1 + merges
    case InPass(_, passes) => passes + Pending(marker) <= 1 + merges
    case DrainEmpty(passes) => passes <= 1 + merges
    case _ => true
  }

  ghost predicate PassesBounded(s: State) {
    forall i :: 0 <= i < |s.procs| ==> PassesOwed(s.procs[i], s.marker, s.merges)
  }

  lemma OwnPasses(pc: Pc, marker: Option<Load>, merges: nat, flightFree: bool)
    requires Movable(pc) && PassesOwed(pc, marker, merges)
    ensures var pc' := Step(pc, marker, flightFree);
            PassesOwed(pc', MarkerStep(pc, marker), MergesStep(pc, pc', merges))
  {
  }

  lemma OthersPasses(other: Pc, pc: Pc, pc': Pc, marker: Option<Load>, merges: nat)
    requires PassesOwed(other, marker, merges)
    requires other.HoldsFlight() ==> !pc'.HoldsFlight() || pc.HoldsFlight()
    requires other.HoldsMarkerLock() ==> !pc.HoldsMarkerLock()
    ensures PassesOwed(other, MarkerStep(pc, marker), MergesStep(pc, pc', merges))
  {
  }

  lemma PassesBoundedKept(s: State, e: Event)
    requires Locks(s) && PassesBounded(s) && Enabled(s, e)
    ensures PassesBounded(Next(s, e))
  {
    if e.Move? {
      var pc := s.procs[e.who];
      var pc' := Step(pc, s.marker, s.flight.None?);
      forall i | 0 <= i < |s.procs|
        ensures PassesOwed(Next(s, e).procs[i], MarkerStep(pc, s.marker), MergesStep(pc, pc', s.merges))
      {
        if i == e.who {
          OwnPasses(pc, s.marker, s.merges, s.flight.None?);
        } else {
          OthersPasses(s.procs[i], pc, pc', s.marker, s.merges);
        }
      }
    }
  }

  // ---------------------------------------------------------------------------------------------
  // Conservation

  ghost function Settled(s: State): multiset<TriggerId> {
    s.completed + s.lost + Ids(s.marker) + Total(InHand, s.procs) + Total(GivenBack, s.procs)
  }

  /** A move merges its payload into the marker, or takes the marker into it, or keeps both. */
  lemma MoveKinds(pc: Pc, marker: Option<Load>, flightFree: bool)
    requires Movable(pc)
    ensures var pc' := Step(pc, marker, flightFree);
            if Merges(pc) then Hand(pc) == Some(pc.load) && Hand(pc') == None && !pc'.Returned?
            else if Takes(pc) then
              && !pc'.Returned?
              && Hand(pc') == (match (Hand(pc), marker)
                               case (Some(hand), Some(queued)) => Some(hand + queued)
                               case (Some(hand), None) => Some(hand)
                               case (None, _) => marker)
            else if pc'.Returned? then Hand(pc') == None && Carried(pc'.outcome) == Hand(pc)
            else Hand(pc') == Hand(pc)
  {
  }

  /** So a move keeps every trigger: in hand, in the marker, or given back. */
  lemma MoveBalances(pc: Pc, marker: Option<Load>, flightFree: bool, t: TriggerId)
    requires Movable(pc)
    ensures var pc' := Step(pc, marker, flightFree);
            InHand(pc)[t] + Ids(marker)[t] == InHand(pc')[t] + GivenBack(pc')[t] + Ids(MarkerStep(pc, marker))[t]
  {
    MoveKinds(pc, marker, flightFree);
  }

  /** What call `i` and the history hold of trigger `t`; `Settled` counts the same over all calls. */
  function Local(s: State, i: nat, t: TriggerId): nat
    requires i < |s.procs|
  {
    s.completed[t] + s.lost[t] + Ids(s.marker)[t] + InHand(s.procs[i])[t] + GivenBack(s.procs[i])[t]
  }

  lemma SettledAfter(s: State, s': State, i: nat, t: TriggerId)
    requires i < |s.procs| == |s'.procs| && s'.procs == s.procs[i := s'.procs[i]]
    requires Local(s', i, t) == Local(s, i, t)
    ensures Settled(s')[t] == Settled(s)[t]
  {
    TotalAt(InHand, s.procs, i, s'.procs[i], t);
    TotalAt(GivenBack, s.procs, i, s'.procs[i], t);
  }

  lemma MoveKeepsLocal(s: State, i: nat, t: TriggerId)
    requires CanMove(s, i)
    ensures Local(Next(s, Move(i)), i, t) == Local(s, i, t)
  {
    var pc' := Step(s.procs[i], s.marker, s.flight.None?);
    MoveBalances(s.procs[i], s.marker, s.flight.None?, t);
    assert Next(s, Move(i)).procs[i] == pc';
  }

  lemma PassKeepsLocal(s: State, i: nat, verdict: Verdict, t: TriggerId)
    requires Enabled(s, PassEnds(i, verdict))
    ensures Local(Next(s, PassEnds(i, verdict)), i, t) == Local(s, i, t)
  {
    var load: Load := s.procs[i].load;
    var pc' := AfterPass(load, s.procs[i].passes, verdict);
    assert Next(s, PassEnds(i, verdict)).procs[i] == pc';
    assert InHand(s.procs[i])[t] == Ids(Some(load))[t];
    assert Hand(pc') == if verdict.Ran? then None else Some(load);
    assert GivenBack(pc')[t] == GivenBack(s.procs[i])[t] == 0;
    assert Next(s, PassEnds(i, verdict)).completed[t]
        == s.completed[t] + (if verdict.Ran? then Ids(Some(load))[t] else 0);
  }

  lemma ResumeKeepsLocal(s: State, i: nat, drain: bool, t: TriggerId)
    requires Enabled(s, Resume(i, drain))
    ensures Local(Next(s, Resume(i, drain)), i, t) == Local(s, i, t)
  {
    var initial := s.procs[i].initial;
    var pc' := Next(s, Resume(i, drain)).procs[i];
    assert InHand(s.procs[i]) == Ids(initial);
    assert InHand(pc')[t] + GivenBack(pc')[t] == Ids(initial)[t];
  }

  lemma CrashKeepsLocal(s: State, i: nat, t: TriggerId)
    requires Enabled(s, Crash(i))
    ensures Local(Next(s, Crash(i)), i, t) == Local(s, i, t)
  {
    assert Next(s, Crash(i)).procs[i] == Crashed;
    assert GivenBack(s.procs[i])[t] == 0 == GivenBack(Crashed)[t];
    assert InHand(Crashed)[t] == 0;
  }

  lemma ConservedKept(s: State, e: Event)
    requires Enabled(s, e) && s.accepted == Settled(s)
    ensures Next(s, e).accepted == Settled(Next(s, e))
  {
    var s' := Next(s, e);
    if e.Start? {
      TotalAppend(InHand, s.procs, Entry(e.call));
      TotalAppend(GivenBack, s.procs, Entry(e.call));
    } else {
      forall t: TriggerId
        ensures Settled(s')[t] == Settled(s)[t]
      {
        match e {
          case Move(i) => MoveKeepsLocal(s, i, t);
          case PassEnds(i, verdict) => PassKeepsLocal(s, i, verdict, t);
          case Resume(i, drain) => ResumeKeepsLocal(s, i, drain, t);
          case Crash(i) => CrashKeepsLocal(s, i, t);
        }
        SettledAfter(s, s', e.who, t);
      }
    }
  }

  // ---------------------------------------------------------------------------------------------
  // Every reachable state

  ghost predicate Inv(s: State) {
    Locks(s) && Cleared(s) && PassesBounded(s) && s.accepted == Settled(s)
  }

  lemma InvKept(s: State, e: Event)
    requires Inv(s) && Enabled(s, e)
    ensures Inv(Next(s, e))
  {
    LocksKept(s, e);
    ClearedKept(s, e);
    PassesBoundedKept(s, e);
    ConservedKept(s, e);
  }

  lemma {:induction false} RunKeepsInv(s: State, run: seq<Event>)
    requires Inv(s) && IsRun(s, run)
    ensures Inv(Final(s, run))
    decreases |run|
  {
    if run != [] {
      InvKept(s, run[0]);
      RunKeepsInv(Next(s, run[0]), run[1..]);
    }
  }
}
