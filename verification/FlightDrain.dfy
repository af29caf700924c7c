/**
`SingleFlight::run` and `drain` as they are written, over the marker file and the flight lock.
What other processes do while a pass is running is given as a script: turn `k` says which payloads
are merged into the marker during pass `k` and how that pass ends.
*/
module FlightDrain {
  import opened Options
  import opened SingleFlight

  datatype Turn = Turn(arrivals: seq<Load>, verdict: Verdict)

  function Arrivals(loads: seq<Load>): multiset<TriggerId> {
    if loads == [] then multiset{} else Ids(Some(loads[0])) + Arrivals(loads[1..])
  }

  /** Past the end of the script nothing arrives and passes run. */
  function TurnAt(turns: seq<Turn>, k: nat): Turn {
    if k < |turns| then turns[k] else Turn([], Ran)
  }

  /** The triggers merged into the marker while pass `k` was running. */
  function ArrivedIn(turns: seq<Turn>, k: nat): multiset<TriggerId> {
    Arrivals(TurnAt(turns, k).arrivals)
  }

  /**
  The passes of one drain: the first covers the caller's payload and whatever the marker held, and
  each later one exactly what arrived during the pass before it.
  */
  ghost predicate PassesCover(passes: seq<Load>, first: multiset<TriggerId>, turns: seq<Turn>) {
    forall k :: 0 <= k < |passes| ==>
      Ids(Some(passes[k])) == if k == 0 then first else ArrivedIn(turns, k - 1)
  }

  ghost predicate RanUpTo(turns: seq<Turn>, n: nat) {
    forall k :: 0 <= k < n ==> TurnAt(turns, k).verdict.Ran?
  }

  /** What the pass after `passes` has to cover. */
  function Wanted(passes: seq<Load>, first: multiset<TriggerId>, turns: seq<Turn>): multiset<TriggerId> {
    if passes == [] then first else ArrivedIn(turns, |passes| - 1)
  }

  /** There is nothing left for it to cover. */
  predicate Drained(passes: seq<Load>, nothing: bool, turns: seq<Turn>) {
    if passes == [] then nothing else TurnAt(turns, |passes| - 1).arrivals == []
  }

  lemma PassesCoverMore(passes: seq<Load>, load: Load, first: multiset<TriggerId>, turns: seq<Turn>)
    requires PassesCover(passes, first, turns) && Ids(Some(load)) == Wanted(passes, first, turns)
    ensures PassesCover(passes + [load], first, turns)
  {
  }

  lemma RanOneMore(turns: seq<Turn>, n: nat)
    requires RanUpTo(turns, n) && TurnAt(turns, n).verdict.Ran?
    ensures RanUpTo(turns, n + 1)
  {
  }

  lemma NoneAdds(m: multiset<TriggerId>)
    ensures Ids(None) + m == m
  {
  }

  class Flight {
    var held: bool
    var marker: Option<Load>

    /** `MarkerGuard::merge`. */
    method Merge(load: Load)
      modifies this`marker
      ensures marker == Some(Merged(old(marker), load))
      ensures Ids(marker) == Ids(Some(load)) + old(Ids(marker))
    {
      match marker
      case Some(existing) => marker := Some(load + existing);
      case None => marker := Some(load);
    }

    /** `MarkerGuard::take`. */
    method Take() returns (taken: Option<Load>)
      modifies this`marker
      ensures taken == old(marker) && marker.None?
    {
      taken := marker;
      marker := None;
    }

    /** The contenders of one turn, each merging under the marker lock. */
    method Arrive(loads: seq<Load>)
      modifies this`marker
      ensures Ids(marker) == old(Ids(marker)) + Arrivals(loads)
      ensures old(marker).None? ==> Ids(marker) == Arrivals(loads)
      ensures marker.None? <==> old(marker).None? && loads == []
    {
      if loads != [] {
        Merge(loads[0]);
        Arrive(loads[1..]);
      }
    }

    method Run(load: Load, turns: seq<Turn>) returns (outcome: Outcome, passes: seq<Load>)
      modifies this
      ensures held == old(held)
      ensures old(held) ==> outcome == Coalesced && passes == [] && marker == Some(Merged(old(marker), load))
      ensures !old(held) ==> PassesCover(passes, Ids(Some(load)) + old(Ids(marker)), turns)
      ensures !old(held) ==> passes != [] && Ended(outcome, passes, turns)
    {
      if held {
        Merge(load);
        return Coalesced, [];
      }
      held := true;
      outcome, passes := Drain(Some(load), turns);
    }

    /** How a drain whose pass number `n` covered `load` ends with `turn`, and what it reports. */
    ghost predicate Settles(outcome: Outcome, n: nat, load: Load, turn: Turn)
      reads this
    {
      match turn.verdict
      case Ran => outcome == RanPasses(n) && marker.None? && turn.arrivals == []
      case StopCarry =>
        && outcome.StoppedCarrying? && marker.None?
        && Ids(Some(outcome.load)) == Ids(Some(load)) + Arrivals(turn.arrivals)
      case StopRequeue => outcome == Stopped && Ids(marker) == Ids(Some(load)) + Arrivals(turn.arrivals)
      case Failed => outcome == Errored && Ids(marker) == Ids(Some(load)) + Arrivals(turn.arrivals)
    }

    ghost predicate Ended(outcome: Outcome, passes: seq<Load>, turns: seq<Turn>)
      reads this
    {
      if passes == [] then outcome == RanPasses(0) && marker.None?
      else
        && RanUpTo(turns, |passes| - 1)
        && Settles(outcome, |passes|, passes[|passes| - 1], TurnAt(turns, |passes| - 1))
    }

    /** Fold the queued marker into `next`. */
    method Absorb(next: Option<Load>) returns (filled: Option<Load>)
      modifies this`marker
      ensures marker.None?
      ensures filled.None? <==> next.None? && old(marker).None?
      ensures Ids(filled) == Ids(next) + old(Ids(marker))
      ensures next.None? ==> filled == old(marker)
    {
      var queued := Take();
      if queued.Some? && next.Some? {
        filled := Some(next.value + queued.value);
      } else if queued.Some? {
        filled := queued;
      } else {
        filled := next;
      }
    }

    /** One pass over `load` while `turn` happens; a pass that stops or fails ends the drain. */
    method Pass(ghost n: nat, load: Load, turn: Turn) returns (stopped: Option<Outcome>)
      requires held && marker.None?
      modifies this
      ensures stopped.None? <==> turn.verdict.Ran?
      ensures turn.verdict.Ran? ==> held && Ids(marker) == Arrivals(turn.arrivals)
      ensures turn.verdict.Ran? ==> (marker.None? <==> turn.arrivals == [])
      ensures !turn.verdict.Ran? ==> !held && Settles(stopped.value, n, load, turn)
    {
      Arrive(turn.arrivals);
      match turn.verdict
      case Ran =>
        stopped := None;
      case StopRequeue =>
        Merge(load);
        held := false;
        stopped := Some(Stopped);
      case StopCarry =>
        var carried := Absorb(Some(load));
        held := false;
        stopped := Some(StoppedCarrying(carried.value));
      case Failed =>
        Merge(load);
        held := false;
        stopped := Some(Errored);
    }

    /** Between passes: what is at hand and in the marker is what the next pass has to cover. */
    ghost predicate Between(next: Option<Load>, passes: seq<Load>, first: multiset<TriggerId>, nothing: bool,
                            turns: seq<Turn>)
      reads this
    {
      && PassesCover(passes, first, turns) && RanUpTo(turns, |passes|)
      && Ids(next) + Ids(marker) == Wanted(passes, first, turns)
      && (next.None? && marker.None? <==> Drained(passes, nothing, turns))
      && (passes != [] ==> !nothing)
    }

    /** One more pass, over a payload that is exactly what there was to cover. */
    method PassOver(load: Load, passes: seq<Load>, turns: seq<Turn>, ghost first: multiset<TriggerId>,
                    ghost nothing: bool)
      returns (stopped: Option<Outcome>)
      requires held && marker.None?
      requires PassesCover(passes, first, turns) && RanUpTo(turns, |passes|)
      requires Ids(Some(load)) == Wanted(passes, first, turns) && !nothing
      modifies this
      ensures PassesCover(passes + [load], first, turns)
      ensures stopped.None? ==> held && Between(None, passes + [load], first, nothing, turns)
      ensures stopped.Some? ==> !held && Ended(stopped.value, passes + [load], turns)
    {
      PassesCoverMore(passes, load, first, turns);
      stopped := Pass(|passes| + 1, load, TurnAt(turns, |passes|));
      if stopped.None? {
        RanOneMore(turns, |passes|);
        NoneAdds(Ids(marker));
      }
    }

    method Drain(initial: Option<Load>, turns: seq<Turn>) returns (outcome: Outcome, passes: seq<Load>)
      requires held
      modifies this
      ensures !held
      ensures PassesCover(passes, Ids(initial) + old(Ids(marker)), turns)
      ensures passes == [] <==> initial.None? && old(marker).None?
      ensures Ended(outcome, passes, turns)
    {
      ghost var first, nothing := Ids(initial) + Ids(marker), initial.None? && marker.None?;
      var next := initial;
      passes := [];
      while true
        invariant held && Between(next, passes, first, nothing, turns)
        decreases |turns| + 1 - |passes|
      {
        next := Absorb(next);
        if next.None? {
          held := false;
          return RanPasses(|passes|), passes;
        }
        var load := next.value;
        next := None;
        var stopped := PassOver(load, passes, turns, first, nothing);
        passes := passes + [load];
        if stopped.Some? {
          return stopped.value, passes;
        }
      }
    }
  }
}
