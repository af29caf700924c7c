/**
What every call answers, over every run.  The story of a call is told from outside: how it was
started, which passes it ran and how they ended, and how the marker file changed at its own steps.
*/
module SingleFlightStories {
  import opened Options
  import opened SingleFlight
  import opened SingleFlightInvariants

  /** A pass that is over: what it covered, how it ended, and what its call had taken from the marker
   *  since the pass before it. */
  datatype Ended = Ended(load: Load, verdict: Verdict, took: multiset<TriggerId>)

  /** `taken` and `merged`: what the call has taken from and put into the marker since its last pass. */
  datatype Story = Story(call: Call, ends: seq<Ended>, taken: multiset<TriggerId>, merged: multiset<TriggerId>)

  // ---------------------------------------------------------------------------------------------
  // Telling the story

  function Told(story: Story, s: State, e: Event): Story
    requires Enabled(s, e)
  {
    match e
    case Move(_) =>
      var before, after := Ids(s.marker), Ids(Next(s, e).marker);
      story.(taken := story.taken + (before - after), merged := story.merged + (after - before))
    case PassEnds(i, verdict) =>
      Story(story.call, story.ends + [Ended(s.procs[i].load, verdict, story.taken)], multiset{}, multiset{})
    case _ => story
  }

  /** The story of call `i` after one more event. */
  function After(story: Option<Story>, s: State, e: Event, i: nat): Option<Story>
    requires Enabled(s, e)
  {
    match e
    case Start(call) => if |s.procs| == i then Some(Story(call, [], multiset{}, multiset{})) else story
    case _ => if e.who == i && story.Some? then Some(Told(story.value, s, e)) else story
  }

  function StoryFrom(s: State, run: seq<Event>, i: nat, story: Option<Story>): Option<Story>
    requires IsRun(s, run)
    decreases |run|
  {
    if run == [] then story else StoryFrom(Next(s, run[0]), run[1..], i, After(story, s, run[0], i))
  }

  function StoryOf(run: seq<Event>, i: nat): Option<Story>
    requires IsRun(Init, run)
  {
    StoryFrom(Init, run, i, None)
  }

  // ---------------------------------------------------------------------------------------------
  // The answers

  /** What a caller that runs passes brings along. */
  function Own(call: Call): Option<Load> {
    match call
    case CallRun(load) => Some(load)
    case CallForeground(initial) => initial
    case _ => None
  }

  predicate RunsPasses(call: Call) {
    call.CallRun? || call.CallForeground?
  }

  /** What pass number `k` has to cover beside what was taken for it. */
  function Brought(call: Call, k: nat): multiset<TriggerId> {
    if k == 0 then Ids(Own(call)) else multiset{}
  }

  /** Every pass covers exactly what its call brought along, if it is the first, and what was taken. */
  ghost predicate Covered(call: Call, ends: seq<Ended>) {
    forall k :: 0 <= k < |ends| ==> Ids(Some(ends[k].load)) == Brought(call, k) + ends[k].took
  }

  ghost predicate AllRan(ends: seq<Ended>) {
    forall k :: 0 <= k < |ends| ==> ends[k].verdict == Ran
  }

  /** The last pass ended with `verdict`, and all before it ran. */
  ghost predicate EndedBy(ends: seq<Ended>, verdict: Verdict) {
    ends != [] && AllRan(ends[..|ends| - 1]) && ends[|ends| - 1].verdict == verdict
  }

  function LastLoad(ends: seq<Ended>): multiset<TriggerId>
    requires ends != []
  {
    Ids(Some(ends[|ends| - 1].load))
  }

  ghost predicate Untouched(story: Story) {
    story.taken == multiset{} && story.merged == multiset{}
  }

  /** What each outcome says about the call that returned it. */
  ghost predicate Answers(story: Story, outcome: Outcome) {
    match outcome
    case Coalesced =>
      && story.call.CallRun? && story.ends == []
      && story.merged == Ids(Some(story.call.load)) && story.taken == multiset{}
    case RanPasses(n) =>
      && RunsPasses(story.call) && AllRan(story.ends) && |story.ends| == n && Untouched(story)
      && (n == 0 ==> Own(story.call).None?)
    case Stopped =>
      EndedBy(story.ends, StopRequeue) && story.merged == LastLoad(story.ends) && story.taken == multiset{}
    case Errored =>
      EndedBy(story.ends, Failed) && story.merged == LastLoad(story.ends) && story.taken == multiset{}
    case StoppedCarrying(load) =>
      && EndedBy(story.ends, StopCarry) && story.merged == multiset{}
      && Ids(Some(load)) == LastLoad(story.ends) + story.taken
    case Queued =>
      && story.call.CallQueue? && story.ends == []
      && story.merged == Ids(Some(story.call.load)) && story.taken == multiset{}
    case Took(taken) =>
      story.call.CallTake? && story.ends == [] && Ids(taken) == story.taken && story.merged == multiset{}
    case Abandoned(initial) => story.call == CallForeground(initial) && story.ends == [] && Untouched(story)
  }

  // ---------------------------------------------------------------------------------------------
  // Where the call stands

  ghost predicate Fresh(story: Story, call: Call) {
    story.call == call && story.ends == [] && Untouched(story)
  }

  /** Between passes. */
  ghost predicate Draining(story: Story, passes: nat) {
    RunsPasses(story.call) && AllRan(story.ends) && |story.ends| == passes && story.merged == multiset{}
  }

  ghost predicate Stopping(story: Story, load: Load, verdict: Verdict) {
    EndedBy(story.ends, verdict) && story.ends[|story.ends| - 1].load == load && Untouched(story)
  }

  function VerdictOf(failed: bool): Verdict {
    if failed then Failed else StopRequeue
  }

  ghost predicate Fits(story: Story, pc: Pc, marker: Option<Load>) {
    match pc
    case RunWaiting(load) => Fresh(story, CallRun(load))
    case RunDeciding(load) => Fresh(story, CallRun(load))
    case RunLost(load) => Fresh(story, CallRun(load))
    case RunWon(load) => Fresh(story, CallRun(load))
    case ForegroundWaiting(initial) => Fresh(story, CallForeground(initial))
    case ForegroundHolding(initial) => Fresh(story, CallForeground(initial))
    case DrainWaiting(next, p) =>
      Draining(story, p) && Untouched(story) && next == (if p == 0 then Own(story.call) else None)
    case DrainHolding(next, p) =>
      Draining(story, p) && Untouched(story) && next == (if p == 0 then Own(story.call) else None)
    case DrainLoaded(load, p) => Draining(story, p) && Ids(Some(load)) == Brought(story.call, p) + story.taken
    case DrainEmpty(p) => Draining(story, p) && Untouched(story) && (p == 0 ==> Own(story.call).None?)
    case InPass(load, p) =>
      p > 0 && Draining(story, p - 1) && Ids(Some(load)) == Brought(story.call, p - 1) + story.taken
    case RequeueWaiting(load, failed) => Stopping(story, load, VerdictOf(failed))
    case RequeueHolding(load, failed) => Stopping(story, load, VerdictOf(failed))
    case RequeueMerged(failed) =>
      && EndedBy(story.ends, VerdictOf(failed)) && story.taken == multiset{}
      && story.merged == LastLoad(story.ends) && LastLoad(story.ends) <= Ids(marker)
    case CarryWaiting(load) => Stopping(story, load, StopCarry)
    case CarryHolding(load) => Stopping(story, load, StopCarry)
    case CarryTaken(load) =>
      && EndedBy(story.ends, StopCarry) && story.merged == multiset{}
      && Ids(Some(load)) == LastLoad(story.ends) + story.taken
    case QueueWaiting(load) => Fresh(story, CallQueue(load))
    case QueueHolding(load) => Fresh(story, CallQueue(load))
    case TakeWaiting => Fresh(story, CallTake)
    case TakeHolding => Fresh(story, CallTake)
    case Leaving(outcome) => Answers(story, outcome)
    case Returned(outcome) => Answers(story, outcome)
    case Crashed => true
  }

  // ---------------------------------------------------------------------------------------------
  // Every step keeps it

  lemma Nothing(m: multiset<TriggerId>)
    ensures m - m == multiset{} && m + multiset{} == m && multiset{} + m == m && m - multiset{} == m
    ensures multiset{} - m == multiset{}
  {
  }

  lemma MergeShows(marker: Option<Load>, load: Load)
    ensures Ids(Some(Merged(marker, load))) - Ids(marker) == Ids(Some(load))
    ensures Ids(marker) - Ids(Some(Merged(marker, load))) == multiset{}
    ensures Ids(Some(load)) <= Ids(Some(Merged(marker, load)))
  {
    if marker.Some? {
      assert multiset(load + marker.value) == multiset(load) + multiset(marker.value);
    }
  }

  /** The story after a move of its own call. */
  function Moved(story: Story, pc: Pc, marker: Option<Load>): Story {
    var before, after := Ids(marker), Ids(MarkerStep(pc, marker));
    story.(taken := story.taken + (before - after), merged := story.merged + (after - before))
  }

  lemma QuietMove(story: Story, pc: Pc, marker: Option<Load>)
    requires !Merges(pc) && !Takes(pc)
    ensures Moved(story, pc, marker) == story
  {
    Nothing(Ids(marker));
    Nothing(story.taken);
    Nothing(story.merged);
  }

  lemma MergingMove(story: Story, pc: Pc, marker: Option<Load>)
    requires Merges(pc) && Untouched(story)
    ensures Moved(story, pc, marker) == story.(merged := Ids(Some(pc.load)))
    ensures Ids(Some(pc.load)) <= Ids(MarkerStep(pc, marker))
  {
    MergeShows(marker, pc.load);
    Nothing(Ids(Some(pc.load)));
  }

  lemma TakingMove(story: Story, pc: Pc, marker: Option<Load>)
    requires Takes(pc) && Untouched(story)
    ensures Moved(story, pc, marker) == story.(taken := Ids(marker))
  {
    Nothing(Ids(marker));
  }

  lemma Joined(a: Load, b: Load)
    ensures Ids(Some(a + b)) == Ids(Some(a)) + Ids(Some(b))
  {
  }

  lemma QuietFits(story: Story, pc: Pc, marker: Option<Load>, free: bool)
    requires Movable(pc) && !Merges(pc) && !Takes(pc) && Fits(story, pc, marker)
    ensures Fits(story, Step(pc, marker, free), marker)
  {
  }

  lemma MergingFits(story: Story, pc: Pc, marker: Option<Load>, free: bool)
    requires Movable(pc) && Merges(pc) && Fits(story, pc, marker)
    ensures Fits(Moved(story, pc, marker), Step(pc, marker, free), MarkerStep(pc, marker))
  {
    MergingMove(story, pc, marker);
    MergedFits(story, pc, free, marker, MarkerStep(pc, marker));
  }

  lemma MergedFits(story: Story, pc: Pc, free: bool, marker: Option<Load>, after: Option<Load>)
    requires Movable(pc) && Merges(pc) && Fits(story, pc, marker) && Ids(Some(pc.load)) <= Ids(after)
    ensures Fits(story.(merged := Ids(Some(pc.load))), Step(pc, marker, free), after)
  {
  }

  /** A drain goes on with what it has at hand and what is queued, or finds nothing at all. */
  lemma DrainStep(next: Option<Load>, p: nat, marker: Option<Load>, free: bool)
    ensures var pc := Step(DrainHolding(next, p), marker, free);
      if next.None? && marker.None? then pc == DrainEmpty(p)
      else pc.DrainLoaded? && pc.passes == p && Ids(Some(pc.load)) == Ids(next) + Ids(marker)
  {
    Nothing(Ids(marker));
    Nothing(Ids(next));
    if marker.Some? && next.Some? { Joined(next.value, marker.value); }
  }

  lemma DrainTakes(story: Story, next: Option<Load>, p: nat, marker: Option<Load>, free: bool)
    requires Fits(story, DrainHolding(next, p), marker)
    ensures Fits(Moved(story, DrainHolding(next, p), marker), Step(DrainHolding(next, p), marker, free), None)
  {
    TakingMove(story, DrainHolding(next, p), marker);
    DrainStep(next, p, marker, free);
    DrainStepFits(story, next, p, marker, Step(DrainHolding(next, p), marker, free));
  }

  lemma DrainStepFits(story: Story, next: Option<Load>, p: nat, marker: Option<Load>, pc: Pc)
    requires Draining(story, p) && Untouched(story) && next == (if p == 0 then Own(story.call) else None)
    requires if next.None? && marker.None? then pc == DrainEmpty(p)
             else pc.DrainLoaded? && pc.passes == p && Ids(Some(pc.load)) == Ids(next) + Ids(marker)
    ensures Fits(story.(taken := Ids(marker)), pc, None)
  {
  }

  lemma CarryTakes(story: Story, load: Load, marker: Option<Load>, free: bool)
    requires Fits(story, CarryHolding(load), marker)
    ensures Fits(Moved(story, CarryHolding(load), marker), Step(CarryHolding(load), marker, free), None)
  {
    TakingMove(story, CarryHolding(load), marker);
    Nothing(Ids(Some(load)));
    if marker.Some? { Joined(load, marker.value); }
  }

  lemma TakeTakes(story: Story, marker: Option<Load>, free: bool)
    requires Fits(story, TakeHolding, marker)
    ensures Fits(Moved(story, TakeHolding, marker), Step(TakeHolding, marker, free), None)
  {
    TakingMove(story, TakeHolding, marker);
  }

  lemma MoveFits(story: Story, pc: Pc, marker: Option<Load>, free: bool)
    requires Movable(pc) && Fits(story, pc, marker)
    ensures Fits(Moved(story, pc, marker), Step(pc, marker, free), MarkerStep(pc, marker))
  {
    if Merges(pc) {
      MergingFits(story, pc, marker, free);
    } else if pc.DrainHolding? {
      DrainTakes(story, pc.next, pc.passes, marker, free);
    } else if pc.CarryHolding? {
      CarryTakes(story, pc.load, marker, free);
    } else if pc.TakeHolding? {
      TakeTakes(story, marker, free);
    } else {
      QuietMove(story, pc, marker);
      QuietFits(story, pc, marker, free);
    }
  }

  lemma EndFits(story: Story, load: Load, p: nat, verdict: Verdict, marker: Option<Load>)
    requires Fits(story, InPass(load, p), marker) && Covered(story.call, story.ends)
    ensures var ends := story.ends + [Ended(load, verdict, story.taken)];
      && Covered(story.call, ends)
      && Fits(Story(story.call, ends, multiset{}, multiset{}), AfterPass(load, p, verdict), marker)
  {
    var ends := story.ends + [Ended(load, verdict, story.taken)];
    assert ends[..|ends| - 1] == story.ends;
  }

  ghost predicate Knows(s: State, i: nat, story: Option<Story>) {
    if i < |s.procs|
    then story.Some? && Covered(story.value.call, story.value.ends) && Fits(story.value, s.procs[i], s.marker)
    else story.None?
  }

  /** Nobody else changes the marker while a call holds its lock. */
  lemma OthersFit(s: State, e: Event, i: nat, story: Story)
    requires Locks(s) && Enabled(s, e) && !e.Start? && e.who != i && i < |s.procs| && Fits(story, s.procs[i], s.marker)
    ensures Fits(story, Next(s, e).procs[i], Next(s, e).marker)
  {
    if s.procs[i].RequeueMerged? && e.Move? {
      assert !s.procs[e.who].HoldsMarkerLock();
    }
  }

  lemma OwnFits(s: State, e: Event, story: Story)
    requires Enabled(s, e) && !e.Start?
    requires Covered(story.call, story.ends) && Fits(story, s.procs[e.who], s.marker)
    ensures var told := Told(story, s, e);
      Covered(told.call, told.ends) && Fits(told, Next(s, e).procs[e.who], Next(s, e).marker)
  {
    match e
    case Move(i) =>
      MoveFits(story, s.procs[i], s.marker, s.flight.None?);
      assert Told(story, s, e) == Moved(story, s.procs[i], s.marker);
    case PassEnds(i, verdict) => EndFits(story, s.procs[i].load, s.procs[i].passes, verdict, s.marker);
    case Resume(_, _) =>
    case Crash(_) =>
  }

  lemma KnowsKept(s: State, e: Event, i: nat, story: Option<Story>)
    requires Locks(s) && Enabled(s, e) && Knows(s, i, story)
    ensures Knows(Next(s, e), i, After(story, s, e, i))
  {
    if !e.Start? && i < |s.procs| {
      if e.who == i {
        OwnFits(s, e, story.value);
      } else {
        OthersFit(s, e, i, story.value);
      }
    }
  }

  lemma {:induction false} RunKnows(s: State, run: seq<Event>, i: nat, story: Option<Story>)
    requires Inv(s) && IsRun(s, run) && Knows(s, i, story)
    ensures Knows(Final(s, run), i, StoryFrom(s, run, i, story))
    decreases |run|
  {
    if run != [] {
      InvKept(s, run[0]);
      KnowsKept(s, run[0], i, story);
      RunKnows(Next(s, run[0]), run[1..], i, After(story, s, run[0], i));
    }
  }

  // ---------------------------------------------------------------------------------------------
  // Over every run

  /** Every call that has returned answered for itself: what it returned is what its story says, and
   *  every pass it ran covered exactly what it had to. */
  lemma EveryCallAnswers(run: seq<Event>, i: nat)
    requires IsRun(Init, run) && i < |Final(Init, run).procs| && Final(Init, run).procs[i].Returned?
    ensures StoryOf(run, i).Some?
    ensures var story := StoryOf(run, i).value;
      Answers(story, Final(Init, run).procs[i].outcome) && Covered(story.call, story.ends)
  {
    RunKnows(Init, run, i, None);
    ReturnedAnswers(Final(Init, run), i, StoryOf(run, i));
  }

  lemma ReturnedAnswers(s: State, i: nat, story: Option<Story>)
    requires Knows(s, i, story) && i < |s.procs| && s.procs[i].Returned?
    ensures story.Some? && Answers(story.value, s.procs[i].outcome) && Covered(story.value.call, story.value.ends)
  {
  }

  /** Calls are numbered as they start. */
  lemma {:induction false} StartTellsTheCall(s: State, run: seq<Event>, k: nat, i: nat, story: Option<Story>)
    requires IsRun(s, run) && k < |run| && run[k].Start?
    requires IsRun(s, run[..k]) && i == |Final(s, run[..k]).procs|
    ensures StoryFrom(s, run, i, story).Some? && StoryFrom(s, run, i, story).value.call == run[k].call
    decreases |run|
  {
    var s' := Next(s, run[0]);
    var story' := After(story, s, run[0], i);
    if k == 0 {
      CallStays(s', run[1..], i, story');
    } else {
      assert run[..k][1..] == run[1..][..k - 1] && run[..k][0] == run[0];
      StartTellsTheCall(s', run[1..], k - 1, i, story');
    }
  }

  lemma {:induction false} CallStays(s: State, run: seq<Event>, i: nat, story: Option<Story>)
    requires IsRun(s, run) && i < |s.procs| && story.Some?
    ensures StoryFrom(s, run, i, story).Some? && StoryFrom(s, run, i, story).value.call == story.value.call
    decreases |run|
  {
    if run != [] {
      CallStays(Next(s, run[0]), run[1..], i, After(story, s, run[0], i));
    }
  }

  /** How the marker stands when the flight is freed after these passes. */
  ghost predicate LeavesBehind(ends: seq<Ended>, marker: Option<Load>) {
    if ends == [] || ends[|ends| - 1].verdict in {Ran, StopCarry} then marker.None?
    else LastLoad(ends) <= Ids(marker)
  }

  /** A call frees the flight under the marker lock: over an empty marker after a pass that ran or
   *  carried, and with the triggers of its last pass back in the marker after one that was requeued
   *  or failed. Only an abandoned foreground flight is freed otherwise. */
  lemma FreedOverTheRightMarker(run: seq<Event>, e: Event)
    requires IsRun(Init, run) && Enabled(Final(Init, run), e) && !e.Crash?
    requires Final(Init, run).flight.Some? && Next(Final(Init, run), e).flight.None?
    ensures !e.Start? && Final(Init, run).flight == Some(e.who) && StoryOf(run, e.who).Some?
    ensures var s := Final(Init, run); var story := StoryOf(run, e.who).value;
      if e.Resume? then !e.drain && Fresh(story, CallForeground(s.procs[e.who].initial))
      else e.Move? && s.markerLock == Some(e.who) && LeavesBehind(story.ends, s.marker)
  {
    var s := Final(Init, run);
    RunKeepsInv(Init, run);
    assert !e.Start?;
    assert s.procs[e.who].HoldsFlight() && !Next(s, e).procs[e.who].HoldsFlight();
    RunKnows(Init, run, e.who, None);
    FreeingPosition(s, e, StoryOf(run, e.who).value);
  }

  lemma FreeingPosition(s: State, e: Event, story: Story)
    requires Locks(s) && Cleared(s) && Enabled(s, e) && !e.Start? && !e.Crash?
    requires s.procs[e.who].HoldsFlight() && !Next(s, e).procs[e.who].HoldsFlight()
    requires Fits(story, s.procs[e.who], s.marker)
    ensures if e.Resume? then !e.drain && Fresh(story, CallForeground(s.procs[e.who].initial))
            else e.Move? && s.markerLock == Some(e.who) && LeavesBehind(story.ends, s.marker)
  {
    assert Seen(s.procs[e.who], s.marker);
  }

  // ---------------------------------------------------------------------------------------------
  // The merges of a flight

  /** Merges seen at the marker since the flight was last acquired. */
  function MergesSeen(s: State, run: seq<Event>, n: nat): nat
    requires IsRun(s, run)
    decreases |run|
  {
    if run == [] then n
    else
      var s' := Next(s, run[0]);
      MergesSeen(s', run[1..],
        if s.flight.None? && s'.flight.Some? then 0
        else if s'.marker.Some? && s'.marker != s.marker then n + 1
        else n)
  }

  lemma MergeChanges(marker: Option<Load>, load: Load)
    ensures marker != Some(Merged(marker, load))
  {
  }

  lemma MergesStepSeen(s: State, e: Event)
    requires Locks(s) && Enabled(s, e)
    ensures var s' := Next(s, e);
      s'.merges ==
        if s.flight.None? && s'.flight.Some? then 0
        else if s'.marker.Some? && s'.marker != s.marker then s.merges + 1
        else s.merges
  {
    if e.Move? && Merges(s.procs[e.who]) {
      MergeChanges(s.marker, s.procs[e.who].load);
    }
  }

  /** The bound on a flight's passes counts real merges. */
  lemma {:induction false} MergesAreSeen(s: State, run: seq<Event>)
    requires Inv(s) && IsRun(s, run)
    ensures Final(s, run).merges == MergesSeen(s, run, s.merges)
    decreases |run|
  {
    if run != [] {
      MergesStepSeen(s, run[0]);
      InvKept(s, run[0]);
      MergesAreSeen(Next(s, run[0]), run[1..]);
    }
  }
}
