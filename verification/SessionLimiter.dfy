/** Per-peer session slots taken before the global session permits (`sync_driver.rs`). */
module SessionLimiter {
  import opened Options
  import opened Bytes

  const RESIDENT_SESSION_MAX := 8
  const RESIDENT_SESSIONS_PER_PEER_MAX := 4

  type Peer = Text

  type Counts = map<Peer, nat>

  function CountOf(counts: Counts, peer: Peer): nat {
    if peer in counts then counts[peer] else 0
  }

  function Plus(counts: Counts, peer: Peer): Counts {
    counts[peer := CountOf(counts, peer) + 1]
  }

  /** One slot back; an entry that reaches zero goes. */
  function Minus(counts: Counts, peer: Peer): Counts {
    if CountOf(counts, peer) > 1 then counts[peer := counts[peer] - 1] else counts - {peer}
  }

  class PerPeerSessionLimiter {
    var inFlight: Counts

    constructor ()
      ensures inFlight == map[]
    {
      inFlight := map[];
    }

    method TryAcquire(peer: Peer, max: nat) returns (slot: Option<Peer>)
      modifies this
      ensures slot == if CountOf(old(inFlight), peer) < max then Some(peer) else None
      ensures inFlight == if slot.Some? then Plus(old(inFlight), peer) else old(inFlight)
    {
      if CountOf(inFlight, peer) >= max {
        return None;
      }
      if peer !in inFlight {
        inFlight := inFlight[peer := 0];
      }
      inFlight := inFlight[peer := inFlight[peer] + 1];
      return Some(peer);
    }

    /** A slot dropping. Only a slot that was handed out drops, so its entry is positive. */
    method Release(peer: Peer)
      requires peer in inFlight ==> inFlight[peer] > 0
      modifies this
      ensures inFlight == Minus(old(inFlight), peer)
    {
      if peer in inFlight {
        inFlight := inFlight[peer := inFlight[peer] - 1];
        if inFlight[peer] == 0 {
          inFlight := inFlight - {peer};
        }
      }
    }
  }

  // ---------------------------------------------------------------------------------------------
  // The accept loop and its session tasks

  /** `accepting` holds a slot and no permit yet; a session in `running` holds both; one that is
   *  ending has dropped its slot and still holds its permit. */
  datatype State = State(inFlight: Counts, permits: nat, accepting: Option<Peer>, running: multiset<Peer>, ending: nat)

  datatype Event = Arrive(peer: Peer) | Decide | DropSlot(peer: Peer) | DropPermit

  predicate Enabled(s: State, e: Event) {
    match e
    case Arrive(_) => s.accepting.None?
    case Decide => s.accepting.Some?
    case DropSlot(peer) => peer in s.running
    case DropPermit => s.ending > 0 && s.permits > 0
  }

  function Next(s: State, e: Event): State
    requires Enabled(s, e)
  {
    match e
    case Arrive(peer) =>
      if CountOf(s.inFlight, peer) < RESIDENT_SESSIONS_PER_PEER_MAX
      then s.(inFlight := Plus(s.inFlight, peer), accepting := Some(peer)) else s
    case Decide =>
      var peer := s.accepting.value;
      if s.permits < RESIDENT_SESSION_MAX
      then s.(permits := s.permits + 1, accepting := None, running := s.running + multiset{peer})
      else s.(inFlight := Minus(s.inFlight, peer), accepting := None)
    case DropSlot(peer) =>
      s.(inFlight := Minus(s.inFlight, peer), running := s.running - multiset{peer}, ending := s.ending + 1)
    case DropPermit =>
      s.(permits := s.permits - 1, ending := s.ending - 1)
  }

  const START := State(map[], 0, None, multiset{}, 0)

  ghost predicate IsRun(states: seq<State>, events: seq<Event>) {
    && |states| == |events| + 1
    && states[0] == START
    && forall i :: 0 <= i < |events| ==> Enabled(states[i], events[i]) && states[i + 1] == Next(states[i], events[i])
  }

  // ---------------------------------------------------------------------------------------------
  // What every run keeps

  function Reserved(s: State): multiset<Peer> {
    match s.accepting
    case Some(peer) => multiset{peer}
    case None => multiset{}
  }

  /** The slots that are held. */
  function LiveSlots(s: State): multiset<Peer> {
    s.running + Reserved(s)
  }

  /** The map holds exactly the peers with live slots, with their number. */
  ghost predicate Tallies(counts: Counts, slots: multiset<Peer>) {
    forall p :: (p in counts <==> p in slots) && (p in counts ==> counts[p] == slots[p])
  }

  ghost predicate WithinCap(slots: multiset<Peer>) {
    forall p :: slots[p] <= RESIDENT_SESSIONS_PER_PEER_MAX
  }

  ghost predicate Inv(s: State) {
    && Tallies(s.inFlight, LiveSlots(s))
    && WithinCap(LiveSlots(s))
    && s.permits == |s.running| + s.ending
    && s.permits <= RESIDENT_SESSION_MAX
  }

  lemma PlusTallies(counts: Counts, slots: multiset<Peer>, peer: Peer)
    requires Tallies(counts, slots)
    ensures Tallies(Plus(counts, peer), slots + multiset{peer})
  {
    assert CountOf(counts, peer) == slots[peer];
  }

  lemma MinusTallies(counts: Counts, slots: multiset<Peer>, peer: Peer)
    requires Tallies(counts, slots) && peer in slots
    ensures Tallies(Minus(counts, peer), slots - multiset{peer})
  {
    assert CountOf(counts, peer) == slots[peer];
  }

  lemma CapPlus(slots: multiset<Peer>, peer: Peer)
    requires WithinCap(slots) && slots[peer] < RESIDENT_SESSIONS_PER_PEER_MAX
    ensures WithinCap(slots + multiset{peer})
  {
  }

  lemma CapMinus(slots: multiset<Peer>, peer: Peer)
    requires WithinCap(slots)
    ensures WithinCap(slots - multiset{peer})
  {
  }

  lemma ArriveKeeps(s: State, peer: Peer)
    requires Inv(s) && s.accepting.None?
    ensures Inv(Next(s, Arrive(peer)))
  {
    assert CountOf(s.inFlight, peer) == LiveSlots(s)[peer];
    if CountOf(s.inFlight, peer) < RESIDENT_SESSIONS_PER_PEER_MAX {
      PlusTallies(s.inFlight, LiveSlots(s), peer);
      CapPlus(LiveSlots(s), peer);
      assert LiveSlots(Next(s, Arrive(peer))) == LiveSlots(s) + multiset{peer};
    }
  }

  lemma DecideKeeps(s: State)
    requires Inv(s) && s.accepting.Some?
    ensures Inv(Next(s, Decide))
  {
    var peer := s.accepting.value;
    if s.permits < RESIDENT_SESSION_MAX {
      assert LiveSlots(Next(s, Decide)) == LiveSlots(s);
    } else {
      MinusTallies(s.inFlight, LiveSlots(s), peer);
      CapMinus(LiveSlots(s), peer);
      assert LiveSlots(Next(s, Decide)) == LiveSlots(s) - multiset{peer};
    }
  }

  lemma OneFewer(m: multiset<Peer>, peer: Peer)
    requires peer in m
    ensures |m| == |m - multiset{peer}| + 1
  {
    assert m == (m - multiset{peer}) + multiset{peer};
  }

  lemma SlotsWithout(running: multiset<Peer>, reserved: multiset<Peer>, peer: Peer)
    requires peer in running
    ensures (running - multiset{peer}) + reserved == (running + reserved) - multiset{peer}
  {
  }

  lemma DropSlotKeeps(s: State, peer: Peer)
    requires Inv(s) && peer in s.running
    ensures Inv(Next(s, DropSlot(peer)))
  {
    MinusTallies(s.inFlight, LiveSlots(s), peer);
    CapMinus(LiveSlots(s), peer);
    SlotsWithout(s.running, Reserved(s), peer);
    OneFewer(s.running, peer);
  }

  lemma InvKept(s: State, e: Event)
    requires Inv(s) && Enabled(s, e)
    ensures Inv(Next(s, e))
  {
    match e
    case Arrive(peer) => ArriveKeeps(s, peer);
    case Decide => DecideKeeps(s);
    case DropSlot(peer) => DropSlotKeeps(s, peer);
    case DropPermit => assert LiveSlots(Next(s, e)) == LiveSlots(s);
  }

  lemma {:induction false} RunKeepsInv(states: seq<State>, events: seq<Event>, i: nat)
    requires IsRun(states, events) && i < |states|
    ensures Inv(states[i])
  {
    if i > 0 {
      RunKeepsInv(states, events, i - 1);
      InvKept(states[i - 1], events[i - 1]);
    }
  }

  lemma {:induction false} KeysAtMost(keys: set<Peer>, slots: multiset<Peer>)
    requires forall p :: p in keys ==> p in slots
    ensures |keys| <= |slots|
  {
    if keys != {} {
      var p :| p in keys;
      KeysAtMost(keys - {p}, slots - multiset{p});
    }
  }

  /** In every reachable state: exact counts, each between one and the per-peer cap; at most one slot
   *  beyond the permits in use; and so a bounded map, whatever peers appear. */
  lemma LimiterIsExactAndBounded(states: seq<State>, events: seq<Event>, i: nat)
    requires IsRun(states, events) && i < |states|
    ensures var s := states[i];
      && s.inFlight.Keys == (set p | p in LiveSlots(s))
      && (forall p :: p in s.inFlight ==>
            s.inFlight[p] == LiveSlots(s)[p] && 1 <= s.inFlight[p] <= RESIDENT_SESSIONS_PER_PEER_MAX)
      && |LiveSlots(s)| <= s.permits + (if s.accepting.Some? then 1 else 0)
      && |s.inFlight| <= RESIDENT_SESSION_MAX + (if s.accepting.Some? then 1 else 0)
  {
    var s := states[i];
    RunKeepsInv(states, events, i);
    KeysAtMost(s.inFlight.Keys, LiveSlots(s));
    assert |s.inFlight| == |s.inFlight.Keys|;
  }

  /** In every run a connection gets a slot if and only if its peer holds fewer than four. */
  lemma SlotIffBelowCap(states: seq<State>, events: seq<Event>, i: nat)
    requires IsRun(states, events) && i < |events| && events[i].Arrive?
    ensures LiveSlots(states[i])[events[i].peer] < 4 ==>
      && states[i + 1].accepting == Some(events[i].peer)
      && LiveSlots(states[i + 1]) == LiveSlots(states[i]) + multiset{events[i].peer}
    ensures LiveSlots(states[i])[events[i].peer] >= 4 ==> states[i + 1] == states[i]
  {
    RunKeepsInv(states, events, i);
    assert Enabled(states[i], events[i]);
    assert CountOf(states[i].inFlight, events[i].peer) == LiveSlots(states[i])[events[i].peer];
  }

  /** And its session starts if and only if fewer than eight run or are ending; else its slot is back. */
  lemma SessionIffPermitFree(states: seq<State>, events: seq<Event>, i: nat)
    requires IsRun(states, events) && i < |events| && events[i] == Decide
    ensures states[i].accepting.Some? && states[i + 1].accepting.None?
    ensures var s, s', peer := states[i], states[i + 1], states[i].accepting.value;
      && s'.running == s.running + (if |s.running| + s.ending < 8 then multiset{peer} else multiset{})
      && LiveSlots(s') == LiveSlots(s) - (if |s.running| + s.ending < 8 then multiset{} else multiset{peer})
      && s'.ending == s.ending
  {
    RunKeepsInv(states, events, i);
    assert Enabled(states[i], events[i]);
  }

  /** Every running session has a peer of its own, and another peer is being accepted. */
  predicate Crowded(s: State) {
    && s.accepting.Some? && s.accepting.value !in s.running
    && |set p | p in s.running| == RESIDENT_SESSION_MAX
  }

  /** The documented bound holds if and only if the state is not that crowded one. */
  lemma DocumentedBoundIff(states: seq<State>, events: seq<Event>, i: nat)
    requires IsRun(states, events) && i < |states|
    ensures |states[i].inFlight| <= RESIDENT_SESSION_MAX <==> !Crowded(states[i])
  {
    var s := states[i];
    RunKeepsInv(states, events, i);
    var peers := set p | p in s.running;
    KeysAtMost(peers, s.running);
    assert |s.inFlight| == |s.inFlight.Keys|;
    match s.accepting
    case None =>
      assert s.inFlight.Keys == peers;
    case Some(peer) =>
      assert s.inFlight.Keys == peers + {peer};
      if peer in peers {
        assert peers + {peer} == peers;
      }
  }

  /** When every session has ended and none is being accepted, the map is empty again. */
  lemma IdleIsEmpty(states: seq<State>, events: seq<Event>, i: nat)
    requires IsRun(states, events) && i < |states|
    requires states[i].permits == 0 && states[i].accepting.None?
    ensures states[i].inFlight == map[]
  {
    RunKeepsInv(states, events, i);
    assert LiveSlots(states[i]) == multiset{};
  }

  /** What there is to do before the limiter is idle: a session drops its slot and then its permit. */
  function ToDo(s: State): nat {
    2 * |s.running| + s.ending + if s.accepting.Some? then 3 else 0
  }

  /** In every run: while something is held, an event other than an arrival is possible; each such
   *  event leaves less to do; and when nothing is left the map is empty. */
  lemma DrainsWithoutArrivals(states: seq<State>, events: seq<Event>, i: nat)
    requires IsRun(states, events) && i < |states|
    ensures ToDo(states[i]) <= 19
    ensures ToDo(states[i]) == 0 ==> states[i].inFlight == map[] && states[i].permits == 0
    ensures ToDo(states[i]) > 0 ==> exists e: Event :: !e.Arrive? && Enabled(states[i], e)
    ensures forall e: Event :: !e.Arrive? && Enabled(states[i], e) ==> ToDo(Next(states[i], e)) < ToDo(states[i])
  {
    var s := states[i];
    RunKeepsInv(states, events, i);
    if s.accepting.Some? {
      assert Enabled(s, Decide);
    } else if s.running != multiset{} {
      var peer :| peer in s.running;
      assert Enabled(s, DropSlot(peer));
    } else if s.ending > 0 {
      assert Enabled(s, DropPermit);
    } else {
      assert LiveSlots(s) == multiset{};
    }
    forall e: Event | !e.Arrive? && Enabled(s, e)
      ensures ToDo(Next(s, e)) < ToDo(s)
    {
    }
  }

  // ---------------------------------------------------------------------------------------------
  // The bound of eight entries is passed, by one, while a connection is being turned away

  lemma Extend(states: seq<State>, events: seq<Event>, e: Event) returns (states': seq<State>)
    requires IsRun(states, events) && Enabled(states[|events|], e)
    ensures states' == states + [Next(states[|events|], e)] && IsRun(states', events + [e])
  {
    states' := states + [Next(states[|events|], e)];
    forall i | 0 <= i < |events| + 1
      ensures Enabled(states'[i], (events + [e])[i]) && states'[i + 1] == Next(states'[i], (events + [e])[i])
    {
      if i < |events| {
        assert states'[i] == states[i] && states'[i + 1] == states[i + 1];
      }
    }
  }

  function FirstPeers(n: nat): set<Peer>
    requires n <= 256
  {
    set i: byte | 0 <= i < n :: [i]
  }

  lemma {:induction false} FillSlots(n: nat) returns (states: seq<State>, events: seq<Event>)
    requires n <= RESIDENT_SESSION_MAX
    ensures IsRun(states, events)
    ensures var s := states[|events|]; s.permits == n && s.accepting.None? && s.inFlight.Keys == FirstPeers(n)
    ensures |states[|events|].inFlight| == n
  {
    if n == 0 {
      states, events := [START], [];
    } else {
      states, events := FillSlots(n - 1);
      var peer: Peer := [n - 1];
      var s := states[|events|];
      assert peer !in s.inFlight;
      states := Extend(states, events, Arrive(peer));
      events := events + [Arrive(peer)];
      states := Extend(states, events, Decide);
      events := events + [Decide];
      assert states[|events|].inFlight == s.inFlight[peer := 1];
      assert FirstPeers(n) == FirstPeers(n - 1) + {peer};
    }
  }

  /** A ninth peer's entry exists while its connection waits for the permit it will not get. */
  lemma NineEntries() returns (states: seq<State>, events: seq<Event>)
    ensures IsRun(states, events) && |states[|events|].inFlight| == RESIDENT_SESSION_MAX + 1
  {
    states, events := FillSlots(RESIDENT_SESSION_MAX);
    var s := states[|events|];
    var peer: Peer := [8];
    assert peer !in s.inFlight;
    states := Extend(states, events, Arrive(peer));
    events := events + [Arrive(peer)];
    assert states[|events|].inFlight == s.inFlight[peer := 1];
  }
}
