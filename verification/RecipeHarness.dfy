/** The recipe harness around a rented box: provisioning, signals and the one teardown (`contract.ts`). */
module RecipeHarness {
  import opened Options

  /** What identifies a box at its provider. */
  type Handle = nat

  /** The memoised teardown promise. */
  datatype Teardown = NotAsked | Pending | Fulfilled | Rejected

  datatype Phase = Starting | Provisioning | Serving | Failing

  datatype Emitted = Ready | Error

  /** `created` are the boxes that exist at the provider, reported to the harness or not; `calls` are
   *  the handles `recipe.teardown` was called with; `boxAsked` is the box at the first teardown
   *  request; `signalled` says that a signal handler waits for the teardown. */
  datatype State = State(
    phase: Phase, created: set<Handle>, box: Option<Handle>, teardown: Teardown, boxAsked: Option<Option<Handle>>,
    calls: seq<Handle>, emitted: seq<Emitted>, signalled: bool, exit: Option<int>)

  const START := State(Starting, {}, None, NotAsked, None, [], [], false, None)

  /** One turn of the event loop, or a box coming into existence at the provider. */
  datatype Event =
    | BadInput
    | GoodInput
    | Signal
    | Created(handle: Handle)
    | OnBox(handle: Handle)
    | ProvisionOk(handle: Handle)
    | ProvisionFailed
    | TeardownSettles(ok: bool)
    | SignalHandlerResumes
    | FailurePathResumes

  predicate Settled(t: Teardown) {
    t == Fulfilled || t == Rejected
  }

  /** A request that finds no box is fulfilled on the spot, and whoever made it goes on to exit before
   *  the event loop turns to anything else. */
  predicate Exiting(s: State) {
    s.boxAsked == Some(None)
  }

  /** Handlers are installed before provisioning starts; a recipe reports what it has created, and
   *  nothing after it has returned or thrown. The provider creates whenever it likes. */
  predicate Enabled(s: State, e: Event) {
    && s.exit.None?
    && (Exiting(s) ==> e == SignalHandlerResumes || e == FailurePathResumes)
    && match e
       case BadInput => s.phase == Starting
       case GoodInput => s.phase == Starting
       case Signal => s.phase != Starting
       case Created(_) => s.phase != Starting
       case OnBox(handle) => s.phase == Provisioning && handle in s.created
       case ProvisionOk(handle) => s.phase == Provisioning && handle in s.created
       case ProvisionFailed => s.phase == Provisioning
       case TeardownSettles(_) => s.teardown == Pending
       case SignalHandlerResumes => s.signalled && Settled(s.teardown)
       case FailurePathResumes => s.phase == Failing && Settled(s.teardown)
  }

  function TornDownOnce(s: State): State {
    if s.teardown != NotAsked then s
    else if s.box.None? then s.(teardown := Fulfilled, boxAsked := Some(None))
    else s.(teardown := Pending, boxAsked := Some(s.box), calls := s.calls + [s.box.value])
  }

  function Next(s: State, e: Event): State
    requires Enabled(s, e)
  {
    match e
    case BadInput => s.(emitted := s.emitted + [Error], exit := Some(1))
    case GoodInput => s.(phase := Provisioning)
    case Signal => TornDownOnce(s).(signalled := true)
    case Created(handle) => s.(created := s.created + {handle})
    case OnBox(handle) => s.(box := Some(handle))
    case ProvisionOk(handle) => s.(phase := Serving, box := Some(handle), emitted := s.emitted + [Ready])
    case ProvisionFailed => TornDownOnce(s.(phase := Failing, emitted := s.emitted + [Error]))
    case TeardownSettles(ok) => s.(teardown := if ok then Fulfilled else Rejected)
    case SignalHandlerResumes => s.(exit := Some(if s.teardown == Fulfilled then 0 else 1))
    case FailurePathResumes => s.(exit := Some(1))
  }

  ghost predicate IsRun(states: seq<State>, events: seq<Event>) {
    && |states| == |events| + 1
    && states[0] == START
    && forall i :: 0 <= i < |events| ==> Enabled(states[i], events[i]) && states[i + 1] == Next(states[i], events[i])
  }

  // ---------------------------------------------------------------------------------------------
  // The closures as written, over their shared variables

  class Harness {
    var phase: Phase
    var box: Option<Handle>
    var teardown: Teardown
    var calls: seq<Handle>
    var emitted: seq<Emitted>
    var signalled: bool
    ghost var created: set<Handle>
    ghost var boxAsked: Option<Option<Handle>>

    ghost function Now(): State
      reads this
    {
      State(phase, created, box, teardown, boxAsked, calls, emitted, signalled, None)
    }

    /** Every caller gets the one promise; only the first starts a teardown. */
    method TearDownOnce()
      modifies this
      ensures Now() == TornDownOnce(old(Now()))
    {
      if teardown != NotAsked {
        return;
      }
      boxAsked := Some(box);
      if box.None? {
        teardown := Fulfilled;
        return;
      }
      teardown := Pending;
      calls := calls + [box.value];
    }

    method OnSignal()
      requires Enabled(Now(), Signal)
      modifies this
      ensures Now() == Next(old(Now()), Signal)
    {
      TearDownOnce();
      signalled := true;
    }

    method ReportBox(handle: Handle)
      requires Enabled(Now(), OnBox(handle))
      modifies this
      ensures Now() == Next(old(Now()), OnBox(handle))
    {
      box := Some(handle);
    }

    method ProvisionReturned(handle: Handle)
      requires Enabled(Now(), ProvisionOk(handle))
      modifies this
      ensures Now() == Next(old(Now()), ProvisionOk(handle))
    {
      phase := Serving;
      box := Some(handle);
      emitted := emitted + [Ready];
    }

    method ProvisionThrew()
      requires Enabled(Now(), ProvisionFailed)
      modifies this
      ensures Now() == Next(old(Now()), ProvisionFailed)
    {
      phase := Failing;
      emitted := emitted + [Error];
      TearDownOnce();
    }
  }

  // ---------------------------------------------------------------------------------------------
  // What every interleaving keeps

  /** The calls made for the box that stood at the first request. */
  function CallsFor(asked: Option<Option<Handle>>): seq<Handle> {
    if asked.Some? && asked.value.Some? then [asked.value.value] else []
  }

  predicate Inv(s: State) {
    && s.calls == CallsFor(s.boxAsked)
    && (s.teardown == NotAsked <==> s.boxAsked.None?)
    && (s.boxAsked == Some(None) ==> s.teardown == Fulfilled)
    && (s.signalled || s.phase == Failing <==> s.boxAsked.Some?)
    && s.emitted == (if s.phase == Serving then [Ready]
                     else if s.phase == Failing || (s.phase == Starting && s.exit.Some?) then [Error] else [])
    && (s.phase == Starting ==> s.boxAsked.None? && s.exit in {None, Some(1)})
    && (s.phase != Starting && s.exit.Some? ==>
          && Settled(s.teardown) && s.exit in {Some(0), Some(1)}
          && (s.exit == Some(0) ==> s.teardown == Fulfilled && s.signalled))
  }

  lemma InvKept(s: State, e: Event)
    requires Inv(s) && Enabled(s, e)
    ensures Inv(Next(s, e))
  {
  }

  lemma {:induction false} RunKeepsInv(states: seq<State>, events: seq<Event>, i: nat)
    requires IsRun(states, events) && i < |states|
    ensures Inv(states[i])
  {
    if i > 0 {
      RunKeepsInv(states, events, i - 1);
      InvKept(states[i - 1], events[i - 1]);
    }
  }

  /** For every interleaving: at most one teardown call, no exit while it is pending, exit 0 only once
   *  it was fulfilled, and at most one of `ready` and `error`. */
  lemma OneTeardownOneVerdict(states: seq<State>, events: seq<Event>, i: nat)
    requires IsRun(states, events) && i < |states|
    ensures var s := states[i];
      && |s.calls| <= 1 && |s.emitted| <= 1
      && (s.exit.Some? ==> s.teardown != Pending)
      && (s.exit == Some(0) ==> s.teardown == Fulfilled && s.signalled)
      && (s.exit.Some? ==> s.exit in {Some(0), Some(1)})
  {
    RunKeepsInv(states, events, i);
  }

  lemma RejectedStep(s: State, e: Event)
    requires Enabled(s, e)
    ensures Next(s, e).teardown == Rejected <==> s.teardown == Rejected || e == TeardownSettles(false)
  {
  }

  lemma {:induction false} RejectedIffItFailed(states: seq<State>, events: seq<Event>, i: nat)
    requires IsRun(states, events) && i < |states|
    ensures states[i].teardown == Rejected <==> TeardownSettles(false) in events[..i]
  {
    if i > 0 {
      RejectedIffItFailed(states, events, i - 1);
      assert events[..i] == events[..i - 1] + [events[i - 1]];
      RejectedStep(states[i - 1], events[i - 1]);
    }
  }

  /** The process exits by bad input, by a signal handler or by the failure path; with status 0 if and
   *  only if a signal handler ends it and no teardown has failed, and else with status 1. */
  lemma ExitStatusIff(states: seq<State>, events: seq<Event>, i: nat)
    requires IsRun(states, events) && i < |events|
    ensures states[i + 1].exit.Some? <==> events[i] in {BadInput, SignalHandlerResumes, FailurePathResumes}
    ensures states[i + 1].exit == Some(0) <==>
      events[i] == SignalHandlerResumes && TeardownSettles(false) !in events[..i]
    ensures states[i + 1].exit.Some? ==> states[i + 1].exit.value in {0, 1}
  {
    RejectedIffItFailed(states, events, i);
    assert Enabled(states[i], events[i]);
  }

  /** What each event has the harness emit. */
  function Verdicts(events: seq<Event>): seq<Emitted> {
    if events == [] then []
    else
      Verdicts(events[..|events| - 1]) +
      match events[|events| - 1]
      case ProvisionOk(_) => [Ready]
      case ProvisionFailed => [Error]
      case BadInput => [Error]
      case _ => []
  }

  /** `ready` is emitted when provisioning returns, `error` when it throws or the input is bad, and
   *  nothing else is. */
  lemma {:induction false} EmittedAre(states: seq<State>, events: seq<Event>, i: nat)
    requires IsRun(states, events) && i < |states|
    ensures states[i].emitted == Verdicts(events[..i])
  {
    if i > 0 {
      EmittedAre(states, events, i - 1);
      assert events[..i][..i - 1] == events[..i - 1];
      assert Enabled(states[i - 1], events[i - 1]);
    }
  }

  /** Once a teardown has been asked for and has settled, the process can exit. */
  lemma SettledCanExit(states: seq<State>, events: seq<Event>, i: nat)
    requires IsRun(states, events) && i < |states|
    requires states[i].exit.None? && Settled(states[i].teardown)
    ensures Enabled(states[i], SignalHandlerResumes) || Enabled(states[i], FailurePathResumes)
  {
    RunKeepsInv(states, events, i);
  }

  // ---------------------------------------------------------------------------------------------
  // Which box is torn down

  predicate Requests(e: Event) {
    e == Signal || e == ProvisionFailed
  }

  /** Step `k` asks for the teardown first. */
  ghost predicate FirstRequest(states: seq<State>, events: seq<Event>, k: nat) {
    k < |events| < |states| && Requests(events[k]) && states[k].teardown == NotAsked
  }

  lemma {:induction false} AskedStays(states: seq<State>, events: seq<Event>, k: nat, i: nat)
    requires IsRun(states, events) && FirstRequest(states, events, k) && k < i < |states|
    ensures states[i].boxAsked == Some(states[k].box)
  {
    RunKeepsInv(states, events, i - 1);
    if k + 1 < i {
      AskedStays(states, events, k, i - 1);
    }
  }

  lemma AskedByRequest(s: State, e: Event)
    requires Inv(s) && Enabled(s, e) && s.boxAsked.None? && Next(s, e).boxAsked.Some?
    ensures Requests(e) && s.teardown == NotAsked
  {
  }

  /** A process that exits with good input was asked to tear down. */
  lemma {:induction false} FirstRequestFound(states: seq<State>, events: seq<Event>, i: nat) returns (k: nat)
    requires IsRun(states, events) && i < |states| && states[i].boxAsked.Some?
    ensures k < i && FirstRequest(states, events, k)
  {
    var j := i - 1;
    if states[j].boxAsked.Some? {
      k := FirstRequestFound(states, events, j);
    } else {
      RunKeepsInv(states, events, j);
      AskedByRequest(states[j], events[j]);
      k := j;
    }
  }

  predicate Reports(e: Event) {
    e.OnBox? || e.ProvisionOk?
  }

  /** The box reported last. */
  function LastReported(events: seq<Event>): Option<Handle> {
    if events == [] then None
    else if Reports(events[|events| - 1]) then Some(events[|events| - 1].handle)
    else LastReported(events[..|events| - 1])
  }

  lemma {:induction false} BoxIsLastReported(states: seq<State>, events: seq<Event>, k: nat)
    requires IsRun(states, events) && k < |states|
    ensures states[k].box == LastReported(events[..k])
  {
    if k > 0 {
      BoxIsLastReported(states, events, k - 1);
      assert events[..k][..k - 1] == events[..k - 1];
      assert Enabled(states[k - 1], events[k - 1]);
    }
  }

  /** After good input, a process that has exited tore down the box reported last before the first
   *  request, and no other; it called no teardown if none had been reported. */
  lemma TornDownIffReportedInTime(states: seq<State>, events: seq<Event>, i: nat) returns (k: nat)
    requires IsRun(states, events) && i < |states| && states[i].exit.Some? && states[i].phase != Starting
    ensures k < i && FirstRequest(states, events, k)
    ensures Settled(states[i].teardown)
    ensures states[i].calls == (if LastReported(events[..k]).Some? then [LastReported(events[..k]).value] else [])
    ensures forall h :: h in states[i].calls <==> LastReported(events[..k]) == Some(h)
  {
    RunKeepsInv(states, events, i);
    k := FirstRequestFound(states, events, i);
    AskedStays(states, events, k, i);
    BoxIsLastReported(states, events, k);
  }

  /** For a recipe that creates one box: it is torn down if and only if it was reported before the
   *  first request. */
  lemma OneBoxTornDownIff(states: seq<State>, events: seq<Event>, i: nat, box: Handle) returns (k: nat)
    requires IsRun(states, events) && i < |states| && states[i].exit.Some? && states[i].phase != Starting
    requires states[i].created == {box}
    ensures k < i && FirstRequest(states, events, k)
    ensures states[i].calls == [box] <==> exists j :: 0 <= j < k && Reports(events[j])
  {
    k := TornDownIffReportedInTime(states, events, i);
    if LastReported(events[..k]).Some? {
      var j := ReportFound(events[..k]);
      assert events[j] == events[..k][j];
      ReportedWasCreated(states, events, k, i);
    } else {
      NothingReported(events[..k]);
      assert forall j :: 0 <= j < k ==> events[..k][j] == events[j];
    }
  }

  lemma {:induction false} ReportFound(events: seq<Event>) returns (j: nat)
    requires LastReported(events).Some?
    ensures j < |events| && Reports(events[j]) && events[j].handle == LastReported(events).value
  {
    if Reports(events[|events| - 1]) {
      j := |events| - 1;
    } else {
      j := ReportFound(events[..|events| - 1]);
    }
  }

  lemma {:induction false} NothingReported(events: seq<Event>)
    requires LastReported(events).None?
    ensures forall j :: 0 <= j < |events| ==> !Reports(events[j])
  {
    if events != [] {
      NothingReported(events[..|events| - 1]);
      forall j | 0 <= j < |events|
        ensures !Reports(events[j])
      {
        if j < |events| - 1 { assert events[..|events| - 1][j] == events[j]; }
      }
    }
  }

  /** Whatever is reported exists at the provider, and goes on being accounted for. */
  lemma ReportedWasCreated(states: seq<State>, events: seq<Event>, k: nat, i: nat)
    requires IsRun(states, events) && k <= i < |states| && LastReported(events[..k]).Some?
    ensures LastReported(events[..k]).value in states[i].created
  {
    BoxIsLastReported(states, events, k);
    BoxWasCreated(states, events, k);
    CreatedGrows(states, events, k, i);
  }

  lemma {:induction false} CreatedGrows(states: seq<State>, events: seq<Event>, k: nat, i: nat)
    requires IsRun(states, events) && k <= i < |states|
    ensures states[k].created <= states[i].created
    decreases i
  {
    if k < i {
      CreatedGrows(states, events, k, i - 1);
      assert Enabled(states[i - 1], events[i - 1]);
    }
  }

  lemma {:induction false} BoxWasCreated(states: seq<State>, events: seq<Event>, k: nat)
    requires IsRun(states, events) && k < |states|
    ensures states[k].box.Some? ==> states[k].box.value in states[k].created
  {
    if k > 0 {
      BoxWasCreated(states, events, k - 1);
      assert Enabled(states[k - 1], events[k - 1]);
    }
  }

  /** From the first request on, with a box reported, that box and no other is torn down. */
  lemma ReportedBoxIsTornDown(states: seq<State>, events: seq<Event>, k: nat, i: nat)
    requires IsRun(states, events) && FirstRequest(states, events, k) && k < i < |states|
    requires states[k].box.Some?
    ensures states[i].calls == [states[k].box.value]
  {
    RunKeepsInv(states, events, i);
    AskedStays(states, events, k, i);
  }

  /** While provisioning, a box that exists can be reported, and a signal that comes then tears it down. */
  lemma ReportThenSignal(states: seq<State>, events: seq<Event>, i: nat, box: Handle)
    requires IsRun(states, events) && i < |states|
    requires states[i].phase == Provisioning && states[i].exit.None? && states[i].teardown == NotAsked
    requires box in states[i].created
    ensures Enabled(states[i], OnBox(box)) && Enabled(Next(states[i], OnBox(box)), Signal)
    ensures Next(Next(states[i], OnBox(box)), Signal).calls == [box]
  {
    RunKeepsInv(states, events, i);
  }

  /** "Exactly one teardown" fails for a box that exists at the provider and has not been reported when
   *  the signal comes: the process exits 0 with the box up. */
  lemma UnreportedBoxLeaks() returns (states: seq<State>, events: seq<Event>)
    ensures IsRun(states, events)
    ensures states[|events|].exit == Some(0) && states[|events|].created == {7} && states[|events|].calls == []
  {
    events := [GoodInput, Created(7), Signal, SignalHandlerResumes];
    var s1 := Next(START, GoodInput);
    var s2 := Next(s1, Created(7));
    var s3 := Next(s2, Signal);
    states := [START, s1, s2, s3, Next(s3, SignalHandlerResumes)];
  }

  /** And it is only there that a request finds nothing: then no teardown is called and the exit comes
   *  with the very next event. */
  lemma NoBoxExitsAtOnce(states: seq<State>, events: seq<Event>, k: nat)
    requires IsRun(states, events) && FirstRequest(states, events, k) && states[k].box.None?
    ensures |events| <= k + 2
    ensures |events| == k + 2 ==> states[k + 2].exit.Some? && states[k + 2].calls == []
  {
    RunKeepsInv(states, events, k + 1);
    if k + 1 < |events| {
      assert Enabled(states[k + 1], events[k + 1]);
      if k + 2 < |events| {
        NothingAfterExit(states, events, k + 2);
      }
    }
  }

  lemma NothingAfterExit(states: seq<State>, events: seq<Event>, i: nat)
    requires IsRun(states, events) && i < |events|
    ensures states[i].exit.None?
  {
    assert Enabled(states[i], events[i]);
  }
}
