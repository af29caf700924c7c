/** Every run of a host's advertising loop: ticks, publish outcomes, restarts and roster moves. */
module AdvertisementRuns {
  import opened Options
  import opened Bytes
  import opened Advertisement
  import opened Numbers

  /** A publication on its way to the service, and the roster it was prepared under. */
  datatype Attempt = Attempt(publication: Publication, stamp: Stamp, at: int, instant: int)

  /** What the service turned down last, and when it was tried. */
  datatype Refusal = Refusal(envelope: Text, instant: int)

  datatype State = State(
    identity: Option<Identity>, stamp: Stamp, record: Option<Record>, inFlight: Option<Attempt>,
    refused: Option<Refusal>)

  datatype Event =
    | Tick(now: int, ttl: nat, sealed: Option<Sealed>, instant: int, attemptedAt: int)
    | Outcome(state: PublishState)
    | Restart
    | Move(identity: Option<Identity>, stamp: Stamp)

  /** `instant` reads a clock that only goes forward; `now` and `attemptedAt` read the wall clock.
   *  The loop is sequential: it ticks only between exchanges. */
  predicate Enabled(s: State, e: Event) {
    match e
    case Tick(_, _, _, _, _) => s.inFlight.None?
    case Outcome(_) => s.inFlight.Some?
    case Restart => true
    case Move(_, _) => true
  }

  function WorkingAt(s: State, e: Event): Record
    requires e.Tick? && s.identity.Some?
  {
    Working(s.record, s.identity.value, s.stamp, e.sealed, e.ttl)
  }

  /** What a tick hands to the exchange. */
  function Handed(s: State, e: Event): Option<Publication> {
    if e.Tick? && s.identity.Some?
    then HandedOut(WorkingAt(s, e), s.identity.value, e.now, e.ttl)
    else None
  }

  predicate Seals(s: State, e: Event) {
    e.Tick? && s.identity.Some? && !Current(s.record, s.identity.value, s.stamp)
  }

  predicate JudgesOversize(s: State, e: Event) {
    e.Tick? && s.identity.Some? && Oversize(WorkingAt(s, e))
  }

  const TICKS_PER_TTL := 8

  function RetryAfterMs(ttl: nat): nat {
    Max(ttl * 1000 / TICKS_PER_TTL, 1)
  }

  /** A publication the service refused a moment ago is not tried again yet. */
  predicate IsDue(s: State, e: Event, p: Publication)
    requires e.Tick?
  {
    !(s.refused.Some? && s.refused.value.envelope == p.envelope
      && e.instant - s.refused.value.instant < RetryAfterMs(e.ttl))
  }

  function Taken(s: State, e: Event): Option<Attempt>
    requires e.Tick?
  {
    match Handed(s, e)
    case Some(p) => if IsDue(s, e, p) then Some(Attempt(p, s.stamp, e.attemptedAt, e.instant)) else None
    case None => None
  }

  function Next(s: State, e: Event): State
    requires Enabled(s, e)
  {
    match e
    case Tick(_, _, _, _, _) =>
      if s.identity.None? then s
      else s.(record := Some(Latched(WorkingAt(s, e))), inFlight := Taken(s, e))
    case Outcome(state) =>
      var a := s.inFlight.value;
      s.(record := if RecordsLiveness(state) then Enlivened(s.record, s.stamp, a.publication, a.at) else s.record,
         inFlight := None,
         refused := if state == Refused then Some(Refusal(a.publication.envelope, a.instant)) else None)
    case Restart => s.(inFlight := None, refused := None)
    case Move(identity, stamp) => s.(identity := identity, stamp := stamp)
  }

  ghost predicate IsRun(states: seq<State>, events: seq<Event>) {
    && |states| == |events| + 1
    && forall i :: 0 <= i < |events| ==> Enabled(states[i], events[i]) && states[i + 1] == Next(states[i], events[i])
  }

  // ---------------------------------------------------------------------------------------------
  // A roster that moves during the exchange

  /** What is in flight came from the stored record. */
  predicate InFlightIsStored(s: State) {
    match s.inFlight
    case None => true
    case Some(a) =>
      && s.record.Some?
      && Matches(s.record.value, a.publication.identity, a.stamp)
      && s.record.value.envelope == Some(a.publication.envelope)
      && Fits(a.publication.envelope)
  }

  lemma InFlightKept(s: State, e: Event)
    requires Enabled(s, e) && InFlightIsStored(s)
    ensures InFlightIsStored(Next(s, e))
  {
  }

  lemma {:induction false} InFlightAlwaysStored(states: seq<State>, events: seq<Event>, i: nat)
    requires IsRun(states, events) && InFlightIsStored(states[0]) && i < |states|
    ensures InFlightIsStored(states[i])
  {
    if i > 0 {
      InFlightAlwaysStored(states, events, i - 1);
      InFlightKept(states[i - 1], events[i - 1]);
    }
  }

  /** In every run, an outcome marks the record published exactly when it may have gone through and
   *  the roster stands as it did when the publication was prepared; otherwise nothing is written. */
  lemma MovedRosterNeverLive(states: seq<State>, events: seq<Event>, i: nat)
    requires IsRun(states, events) && InFlightIsStored(states[0]) && i < |events| && events[i].Outcome?
    ensures states[i].inFlight.Some? && states[i].record.Some?
    ensures var a := states[i].inFlight.value; var r := states[i].record.value;
      states[i + 1].record ==
        if (events[i].state == Published || events[i].state == Uncertain) && states[i].stamp == a.stamp
        then Some(r.(publishedAt := Some(a.at), ttl := a.publication.ttl))
        else Some(r)
  {
    InFlightAlwaysStored(states, events, i);
  }

  // ---------------------------------------------------------------------------------------------
  // While identity and roster stand

  ghost predicate Stands(events: seq<Event>) {
    forall i :: 0 <= i < |events| ==> !events[i].Move?
  }

  function SealsLeft(s: State): nat {
    if s.identity.None? || Current(s.record, s.identity.value, s.stamp) then 0 else 1
  }

  function JudgesLeft(s: State): nat {
    if s.identity.None? then 0
    else if Current(s.record, s.identity.value, s.stamp) && !Oversize(s.record.value) then 0 else 1
  }

  function Bit(b: bool): nat {
    if b then 1 else 0
  }

  function SealCount(states: seq<State>, events: seq<Event>): nat
    requires |states| == |events| + 1
  {
    if events == [] then 0 else Bit(Seals(states[0], events[0])) + SealCount(states[1..], events[1..])
  }

  function JudgeCount(states: seq<State>, events: seq<Event>): nat
    requires |states| == |events| + 1
  {
    if events == [] then 0 else Bit(JudgesOversize(states[0], events[0])) + JudgeCount(states[1..], events[1..])
  }

  lemma StepSpends(s: State, e: Event)
    requires Enabled(s, e) && !e.Move?
    ensures Next(s, e).identity == s.identity && Next(s, e).stamp == s.stamp
    ensures SealsLeft(Next(s, e)) + Bit(Seals(s, e)) <= SealsLeft(s)
    ensures JudgesLeft(Next(s, e)) + Bit(JudgesOversize(s, e)) <= JudgesLeft(s)
  {
  }

  /** At most one new seal and one verdict on its size, whatever the ticks, outcomes and restarts. */
  lemma {:induction false} SealedAndJudgedOnce(states: seq<State>, events: seq<Event>)
    requires IsRun(states, events) && Stands(events)
    ensures SealCount(states, events) <= SealsLeft(states[0]) <= 1
    ensures JudgeCount(states, events) <= JudgesLeft(states[0]) <= 1
    decreases |events|
  {
    if events != [] {
      StepSpends(states[0], events[0]);
      SealedAndJudgedOnce(states[1..], events[1..]);
    }
  }

  /** The envelope a current record is left with. */
  predicate Holds(s: State, envelope: Option<Text>) {
    s.identity.Some? && Current(s.record, s.identity.value, s.stamp) && Latched(s.record.value).envelope == envelope
  }

  lemma HoldsOn(s: State, e: Event, envelope: Option<Text>)
    requires Enabled(s, e) && !e.Move? && Holds(s, envelope)
    ensures Holds(Next(s, e), envelope)
    ensures Handed(s, e).Some? ==> envelope == Some(Handed(s, e).value.envelope)
  {
  }

  lemma HandingHolds(s: State, e: Event)
    requires Enabled(s, e) && Handed(s, e).Some?
    ensures Holds(Next(s, e), Some(Handed(s, e).value.envelope)) && Fits(Handed(s, e).value.envelope)
  {
  }

  lemma JudgingHolds(s: State, e: Event)
    requires Enabled(s, e) && JudgesOversize(s, e)
    ensures Holds(Next(s, e), None) && Handed(s, e).None?
  {
  }

  lemma {:induction false} HoldsThrough(states: seq<State>, events: seq<Event>, i: nat, j: nat, envelope: Option<Text>)
    requires IsRun(states, events) && Stands(events) && i <= j < |states| && Holds(states[i], envelope)
    ensures Holds(states[j], envelope)
  {
    if i < j {
      HoldsThrough(states, events, i, j - 1, envelope);
      HoldsOn(states[j - 1], events[j - 1], envelope);
    }
  }

  /** All publications of such a run carry the same bytes, and they fit. */
  lemma SameBytes(states: seq<State>, events: seq<Event>, i: nat, j: nat)
    requires IsRun(states, events) && Stands(events) && i < j < |events|
    requires Handed(states[i], events[i]).Some? && Handed(states[j], events[j]).Some?
    ensures Handed(states[i], events[i]).value.envelope == Handed(states[j], events[j]).value.envelope
    ensures Fits(Handed(states[i], events[i]).value.envelope)
  {
    HandingHolds(states[i], events[i]);
    HoldsThrough(states, events, i + 1, j, Some(Handed(states[i], events[i]).value.envelope));
    HoldsOn(states[j], events[j], Some(Handed(states[i], events[i]).value.envelope));
  }

  /** An envelope judged too large ends the matter: nothing is handed out, before or after. */
  lemma OversizeIsFinal(states: seq<State>, events: seq<Event>, i: nat, j: nat)
    requires IsRun(states, events) && Stands(events) && i < |events| && j < |events|
    requires JudgesOversize(states[i], events[i])
    ensures Handed(states[j], events[j]).None?
  {
    JudgingHolds(states[i], events[i]);
    if i < j {
      HoldsThrough(states, events, i + 1, j, None);
      HoldsOn(states[j], events[j], None);
    } else if j < i && Handed(states[j], events[j]).Some? {
      var envelope := Some(Handed(states[j], events[j]).value.envelope);
      HandingHolds(states[j], events[j]);
      HoldsThrough(states, events, j + 1, i, envelope);
      FittingIsNotJudged(states[i], events[i], envelope);
    }
  }

  lemma FittingIsNotJudged(s: State, e: Event, envelope: Option<Text>)
    requires Holds(s, envelope) && envelope.Some?
    ensures !JudgesOversize(s, e)
  {
  }

  // ---------------------------------------------------------------------------------------------
  // What is handed out

  /** A tick of the run keeps the record and hands out a publication exactly as it should. */
  lemma TickHandsOut(s: State, e: Event)
    requires Enabled(s, e) && e.Tick? && s.identity.Some?
    ensures var s' := Next(s, e);
      && s'.record.Some? && Keeps(s.record, s.identity.value, s.stamp, e.sealed, e.ttl, s'.record.value)
      && HandsOut(s'.record.value, s.identity.value, e.now, e.ttl, Handed(s, e))
      && (s'.inFlight.Some? <==> Handed(s, e).Some? && IsDue(s, e, Handed(s, e).value))
      && (s'.inFlight.Some? ==> s'.inFlight.value == Attempt(Handed(s, e).value, s.stamp, e.attemptedAt, e.instant))
  {
    TickKeeps(s.record, s.identity.value, s.stamp, e.sealed, e.now, e.ttl);
  }

  /** A host without a secret hands nothing out. */
  lemma NoSecretNoHandout(s: State, e: Event)
    requires Enabled(s, e) && e.Tick? && s.identity.None?
    ensures Handed(s, e).None? && Next(s, e) == s
  {
  }

  /** A fresh seal that fits is handed out at the very tick that makes it. */
  lemma FreshSealHandedOut(s: State, e: Event)
    requires Enabled(s, e) && e.Tick? && s.identity.Some?
    requires s.record.None? || s.record.value.identity != s.identity.value || s.record.value.stamp != s.stamp
    requires e.sealed.Some? && e.sealed.value.recipients >= 2 && |e.sealed.value.bytes| <= 2048
    ensures Handed(s, e) == Some(Publication(s.identity.value, e.sealed.value.bytes, e.ttl))
    ensures s.refused.None? ==>
      Next(s, e).inFlight == Some(Attempt(Handed(s, e).value, s.stamp, e.attemptedAt, e.instant))
  {
    TickHandsOut(s, e);
  }

  /** While identity and roster stand, every tick at least half a lifetime after the recorded attempt
   *  hands the same bytes out again, whatever happened in between. */
  lemma RenewedAfterHalfLife(states: seq<State>, events: seq<Event>, i: nat, j: nat)
    requires IsRun(states, events) && Stands(events) && states[0].inFlight.None? && i < j < |events|
    requires events[i].Outcome? && (events[i].state == Published || events[i].state == Uncertain)
    requires forall k :: i < k < j ==> !(events[k].Outcome? && RecordsLiveness(events[k].state))
    requires events[j].Tick? && states[i].inFlight.Some?
    requires events[j].now >= states[i].inFlight.value.at
    requires events[j].now - states[i].inFlight.value.at >= states[i].inFlight.value.publication.ttl / 2 * 1000
    ensures Handed(states[j], events[j]).Some?
    ensures Handed(states[j], events[j]).value.envelope == states[i].inFlight.value.publication.envelope
  {
    InFlightCurrent(states, events, i);
    InFlightAlwaysStored(states, events, i);
    MovedRosterNeverLive(states, events, i);
    PublishedAtStays(states, events, i + 1, j);
    var envelope := Some(states[i].inFlight.value.publication.envelope);
    assert Holds(states[i + 1], envelope);
    HoldsThrough(states, events, i + 1, j, envelope);
    TickHandsOut(states[j], events[j]);
  }

  lemma {:induction false} RefusalStays(states: seq<State>, events: seq<Event>, i: nat, j: nat)
    requires IsRun(states, events) && i <= j < |states|
    requires forall k :: i <= k < j ==> !events[k].Outcome? && !events[k].Restart?
    ensures states[j].refused == states[i].refused
    decreases j
  {
    if i < j {
      RefusalStays(states, events, i, j - 1);
      assert !events[j - 1].Outcome? && !events[j - 1].Restart?;
    }
  }

  /** After a refusal, and until the next outcome or a restart, the same bytes are tried again only
   *  an eighth of their lifetime later, and other bytes at once. */
  lemma RefusedWaitsAnEighth(states: seq<State>, events: seq<Event>, i: nat, j: nat)
    requires IsRun(states, events) && i < j < |events| && events[i] == Outcome(Refused)
    requires forall k :: i < k < j ==> !events[k].Outcome? && !events[k].Restart?
    requires events[j].Tick? && Handed(states[j], events[j]).Some?
    ensures states[i].inFlight.Some?
    ensures var a := states[i].inFlight.value; var p := Handed(states[j], events[j]).value;
      states[j + 1].inFlight.Some? <==>
        || p.envelope != a.publication.envelope
        || events[j].instant - a.instant >= (if events[j].ttl == 0 then 1 else events[j].ttl * 125)
  {
    RefusalStays(states, events, i + 1, j);
  }

  /** A restart forgets what was in flight and what was refused: what is handed out next is tried. */
  lemma RestartTriesAgain(states: seq<State>, events: seq<Event>, i: nat, j: nat)
    requires IsRun(states, events) && i < j < |events| && events[i] == Restart
    requires forall k :: i < k < j ==> !events[k].Outcome? && !events[k].Restart?
    ensures states[i + 1].inFlight.None?
    ensures events[j].Tick? && Handed(states[j], events[j]).Some? ==> states[j + 1].inFlight.Some?
  {
    RefusalStays(states, events, i + 1, j);
    assert Enabled(states[j], events[j]);
  }

  lemma {:induction false} AccountStays(states: seq<State>, events: seq<Event>, i: nat, j: nat)
    requires IsRun(states, events) && i <= j < |states| && forall k :: i <= k < j ==> !events[k].Move?
    ensures states[j].identity == states[i].identity && states[j].stamp == states[i].stamp
    decreases j
  {
    if i < j {
      AccountStays(states, events, i, j - 1);
      assert !events[j - 1].Move?;
    }
  }

  /** A tick works for the identity and the roster of the last move. */
  lemma TickFollowsTheMove(states: seq<State>, events: seq<Event>, i: nat, j: nat)
    requires IsRun(states, events) && i < j < |events| && events[i].Move? && events[j].Tick?
    requires forall k :: i < k < j ==> !events[k].Move?
    ensures events[i].identity.None? ==> Handed(states[j], events[j]).None?
    ensures events[i].identity.Some? ==>
      var record := states[j + 1].record;
      record.Some? && record.value.identity == events[i].identity.value && record.value.stamp == events[i].stamp
  {
    AccountStays(states, events, i + 1, j);
    if events[i].identity.Some? {
      TickHandsOut(states[j], events[j]);
    }
  }

  // ---------------------------------------------------------------------------------------------
  // None while live

  /** Nothing is handed out, sealed or written while the current record is live. */
  lemma NoneWhileLive(s: State, e: Event)
    requires Enabled(s, e) && e.Tick? && s.identity.Some? && Current(s.record, s.identity.value, s.stamp)
    requires Live(s.record.value, e.now) && !Oversize(s.record.value)
    ensures Handed(s, e).None? && Next(s, e) == s
  {
  }

  lemma {:induction false} PublishedAtStays(states: seq<State>, events: seq<Event>, i: nat, j: nat)
    requires IsRun(states, events) && Stands(events) && i <= j < |states|
    requires states[i].identity.Some? && Current(states[i].record, states[i].identity.value, states[i].stamp)
    requires forall k :: i <= k < j ==> !(events[k].Outcome? && RecordsLiveness(events[k].state))
    ensures states[j].identity == states[i].identity
    ensures Current(states[j].record, states[i].identity.value, states[i].stamp) && states[j].stamp == states[i].stamp
    ensures states[j].record.value.publishedAt == states[i].record.value.publishedAt
    ensures states[j].record.value.ttl == states[i].record.value.ttl
  {
    if i < j {
      PublishedAtStays(states, events, i, j - 1);
      assert !(events[j - 1].Outcome? && RecordsLiveness(events[j - 1].state));
    }
  }

  lemma {:induction false} InFlightCurrent(states: seq<State>, events: seq<Event>, i: nat)
    requires IsRun(states, events) && Stands(events) && states[0].inFlight.None? && i < |states|
    ensures states[i].identity == states[0].identity && states[i].stamp == states[0].stamp
    ensures states[i].inFlight.Some? ==>
      && states[i].inFlight.value.stamp == states[0].stamp
      && states[0].identity == Some(states[i].inFlight.value.publication.identity)
  {
    if i > 0 {
      InFlightCurrent(states, events, i - 1);
      StepSpends(states[i - 1], events[i - 1]);
    }
  }

  /** From an attempt that may have gone through until the next such attempt, whatever else happens,
   *  a publication is handed out only after half the lifetime has gone by. */
  lemma RenewedOnlyAfterHalfLife(states: seq<State>, events: seq<Event>, i: nat, j: nat)
    requires IsRun(states, events) && Stands(events) && states[0].inFlight.None? && i < j < |events|
    requires events[i].Outcome? && RecordsLiveness(events[i].state)
    requires forall k :: i < k < j ==> !(events[k].Outcome? && RecordsLiveness(events[k].state))
    requires Handed(states[j], events[j]).Some?
    ensures states[i].inFlight.Some?
    ensures events[j].now - states[i].inFlight.value.at >= states[i].inFlight.value.publication.ttl / 2 * 1000
  {
    InFlightCurrent(states, events, i);
    InFlightAlwaysStored(states, events, i);
    MovedRosterNeverLive(states, events, i);
    PublishedAtStays(states, events, i + 1, j);
  }
}
