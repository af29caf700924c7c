/** The four routing steps composed: nothing on offer is lost, nothing is dialed twice. */
module RoutePipeline {
  import opened Options
  import opened FirstSeen
  import opened Routes

  /** Everything the composed pipeline works on. */
  datatype Plan = Plan(sp: Spelling, offered: seq<Route>, routes: seq<Route>, peers: seq<string>,
                       memo: Option<string>)
  {
    ghost predicate Made() {
      && KeepsFirst(KeyOf(sp), offered, routes)
      && KeepsFirst(IdOf(sp), Names(routes), peers)
    }

    function Order(): seq<string> {
      Ordered(sp, memo, peers)
    }

    function Dialed(fallback: string): seq<Route> {
      Dials(sp, Order(), routes, fallback)
    }

    predicate IsMemo(id: Identity) {
      memo.Some? && PeerIdentity(sp, memo.value) == id
    }

    /** The memoised node first, the others as first offered. */
    function NodeRank(id: Identity): nat {
      if IsMemo(id) then 0 else 1 + First(NodeOf(sp), offered, id)
    }

    function RouteRank(d: Route): nat {
      First(KeyOf(sp), offered, KeyOf(sp)(d))
    }

    /** By node, and for one node as first offered. */
    predicate Before(d: Route, e: Route) {
      var m, n := NodeRank(NodeOf(sp)(d)), NodeRank(NodeOf(sp)(e));
      m < n || (m == n && RouteRank(d) < RouteRank(e))
    }

    /** The node as it is remembered, else as first offered; the relay as first offered with it. */
    predicate Spelled(d: Route) {
      var n := First(NodeOf(sp), offered, NodeOf(sp)(d));
      && n < |offered|
      && RouteRank(d) < |offered|
      && d.0 == (if IsMemo(NodeOf(sp)(d)) then memo.value else offered[n].0)
      && d.1 == offered[RouteRank(d)].1
    }

    ghost predicate AllSpelled(dials: seq<Route>) {
      forall i :: 0 <= i < |dials| ==> Spelled(dials[i])
    }

    ghost predicate Ascends(dials: seq<Route>) {
      forall i, j :: 0 <= i < j < |dials| ==> Before(dials[i], dials[j])
    }
  }

  // ---------------------------------------------------------------------------------------------
  // Nodes keep the order in which they were offered

  /** The first route to a node that is kept is the first that was offered. */
  lemma NodeFirst(p: Plan, id: Identity)
    requires KeepsFirst(KeyOf(p.sp), p.offered, p.routes)
    requires First(NodeOf(p.sp), p.offered, id) < |p.offered|
    ensures First(NodeOf(p.sp), p.routes, id) < |p.routes|
    ensures p.RouteRank(p.routes[First(NodeOf(p.sp), p.routes, id)]) == First(NodeOf(p.sp), p.offered, id)
  {
    var node, key := NodeOf(p.sp), KeyOf(p.sp);
    var i := First(node, p.offered, id);
    var j := FirstRouteKept(p, id);
    var k := First(node, p.routes, id);
    assert node(p.routes[j]) == id;
    assert IsFirst(key, p.offered, p.routes[k]);
    assert node(p.offered[p.RouteRank(p.routes[k])]) == id;
  }

  /** The route a node was first offered by is itself a first, and so it is kept. */
  lemma FirstRouteKept(p: Plan, id: Identity) returns (j: nat)
    requires Covers(KeyOf(p.sp), p.offered, p.routes)
    requires First(NodeOf(p.sp), p.offered, id) < |p.offered|
    ensures j < |p.routes| && NodeOf(p.sp)(p.routes[j]) == id
    ensures p.RouteRank(p.routes[j]) == First(NodeOf(p.sp), p.offered, id)
  {
    var key := KeyOf(p.sp);
    var i := First(NodeOf(p.sp), p.offered, id);
    assert Has(key, p.routes, key(p.offered[i]));
    j :| 0 <= j < |p.routes| && key(p.routes[j]) == key(p.offered[i]);
    assert First(key, p.offered, key(p.offered[i])) == i;
  }

  lemma NamesFirst(sp: Spelling, routes: seq<Route>, id: Identity)
    ensures First(IdOf(sp), Names(routes), id) == First(NodeOf(sp), routes, id)
  {
    var m, n := First(IdOf(sp), Names(routes), id), First(NodeOf(sp), routes, id);
    assert forall i :: 0 <= i < |routes| ==> IdOf(sp)(Names(routes)[i]) == NodeOf(sp)(routes[i]);
  }

  /** When the peer's node was first offered. */
  function OfferRank(p: Plan, peer: string): nat {
    First(NodeOf(p.sp), p.offered, PeerIdentity(p.sp, peer))
  }

  /** Peers in the order in which their nodes were first offered. */
  ghost predicate AsOffered(p: Plan, peers: seq<string>) {
    forall i, j :: 0 <= i < j < |peers| ==> OfferRank(p, peers[i]) < OfferRank(p, peers[j])
  }

  /** Some route to each peer's node was offered, and some is kept. */
  ghost predicate AllRouted(p: Plan, peers: seq<string>) {
    forall i :: 0 <= i < |peers| ==> Routed(p, PeerIdentity(p.sp, peers[i]))
  }

  ghost predicate Routed(p: Plan, id: Identity) {
    && First(NodeOf(p.sp), p.offered, id) < |p.offered|
    && First(NodeOf(p.sp), p.routes, id) < |p.routes|
  }

  lemma PeerRouted(p: Plan, peer: string)
    requires p.Made() && IsFirst(IdOf(p.sp), Names(p.routes), peer)
    ensures Routed(p, PeerIdentity(p.sp, peer))
  {
    var id := PeerIdentity(p.sp, peer);
    NamesFirst(p.sp, p.routes, id);
    var k := First(NodeOf(p.sp), p.routes, id);
    assert IsFirst(KeyOf(p.sp), p.offered, p.routes[k]);
    var n := First(KeyOf(p.sp), p.offered, KeyOf(p.sp)(p.routes[k]));
    assert NodeOf(p.sp)(p.offered[n]) == id;
  }

  lemma PairAsOffered(p: Plan, a: Identity, b: Identity)
    requires KeepsFirst(KeyOf(p.sp), p.offered, p.routes) && Routed(p, a) && Routed(p, b)
    requires First(IdOf(p.sp), Names(p.routes), a) < First(IdOf(p.sp), Names(p.routes), b)
    ensures First(NodeOf(p.sp), p.offered, a) < First(NodeOf(p.sp), p.offered, b)
  {
    NamesFirst(p.sp, p.routes, a);
    NamesFirst(p.sp, p.routes, b);
    NodeFirst(p, a);
    NodeFirst(p, b);
  }

  lemma PeersAsOffered(p: Plan)
    requires p.Made()
    ensures AllRouted(p, p.peers) && AsOffered(p, p.peers)
  {
    forall i | 0 <= i < |p.peers|
      ensures Routed(p, PeerIdentity(p.sp, p.peers[i]))
    {
      assert IsFirst(IdOf(p.sp), Names(p.routes), p.peers[i]);
      PeerRouted(p, p.peers[i]);
    }
    forall i, j | 0 <= i < j < |p.peers|
      ensures OfferRank(p, p.peers[i]) < OfferRank(p, p.peers[j])
    {
      PairAsOffered(p, PeerIdentity(p.sp, p.peers[i]), PeerIdentity(p.sp, p.peers[j]));
    }
  }

  // ---------------------------------------------------------------------------------------------
  // The dial order

  lemma {:induction false} WithoutMembers(sp: Spelling, peers: seq<string>, id: Identity, x: string)
    ensures x in Without(sp, peers, id) <==> x in peers && PeerIdentity(sp, x) != id
  {
    if peers != [] {
      WithoutMembers(sp, peers[1..], id, x);
      assert peers == [peers[0]] + peers[1..];
    }
  }

  /** Whoever is left of the rest comes after the first. */
  lemma WithoutComesAfter(p: Plan, peers: seq<string>, id: Identity, i: nat)
    requires AsOffered(p, peers) && peers != [] && i < |Without(p.sp, peers[1..], id)|
    ensures OfferRank(p, peers[0]) < OfferRank(p, Without(p.sp, peers[1..], id)[i])
  {
    var x := Without(p.sp, peers[1..], id)[i];
    WithoutMembers(p.sp, peers[1..], id, x);
    var j :| 0 <= j < |peers[1..]| && peers[1..][j] == x;
    assert peers[j + 1] == x;
  }

  lemma AsOfferedCons(p: Plan, x: string, rest: seq<string>)
    requires AsOffered(p, rest) && forall i :: 0 <= i < |rest| ==> OfferRank(p, x) < OfferRank(p, rest[i])
    ensures AsOffered(p, [x] + rest)
  {
  }

  lemma {:induction false} WithoutAsOffered(p: Plan, peers: seq<string>, id: Identity)
    requires AsOffered(p, peers)
    ensures AsOffered(p, Without(p.sp, peers, id))
  {
    if peers != [] {
      var rest := Without(p.sp, peers[1..], id);
      WithoutAsOffered(p, peers[1..], id);
      forall i | 0 <= i < |rest|
        ensures OfferRank(p, peers[0]) < OfferRank(p, rest[i])
      {
        WithoutComesAfter(p, peers, id, i);
      }
      AsOfferedCons(p, peers[0], rest);
    }
  }

  function PeerRank(p: Plan, peer: string): nat {
    p.NodeRank(PeerIdentity(p.sp, peer))
  }

  ghost predicate RanksAscend(p: Plan, order: seq<string>) {
    forall i, j :: 0 <= i < j < |order| ==> PeerRank(p, order[i]) < PeerRank(p, order[j])
  }

  ghost predicate NoMemo(p: Plan, peers: seq<string>) {
    forall i :: 0 <= i < |peers| ==> !p.IsMemo(PeerIdentity(p.sp, peers[i]))
  }

  lemma NoMemoAscends(p: Plan, peers: seq<string>)
    requires AsOffered(p, peers) && NoMemo(p, peers)
    ensures RanksAscend(p, peers) && forall i :: 0 <= i < |peers| ==> PeerRank(p, peers[i]) > 0
  {
    forall i | 0 <= i < |peers|
      ensures PeerRank(p, peers[i]) == 1 + OfferRank(p, peers[i])
    {
    }
  }

  lemma WithoutHasNoMemo(p: Plan)
    requires p.memo.Some?
    ensures NoMemo(p, Without(p.sp, p.peers, PeerIdentity(p.sp, p.memo.value)))
  {
    var id := PeerIdentity(p.sp, p.memo.value);
    var rest := Without(p.sp, p.peers, id);
    forall i | 0 <= i < |rest|
      ensures PeerIdentity(p.sp, rest[i]) != id
    {
      assert rest[i] in rest;
      WithoutMembers(p.sp, p.peers, id, rest[i]);
    }
  }

  lemma OrderAscends(p: Plan)
    requires AsOffered(p, p.peers)
    ensures RanksAscend(p, p.Order())
  {
    if Honored(p.sp, p.memo, p.peers) {
      var id := PeerIdentity(p.sp, p.memo.value);
      WithoutAsOffered(p, p.peers, id);
      WithoutHasNoMemo(p);
      NoMemoAscends(p, Without(p.sp, p.peers, id));
      assert PeerRank(p, p.memo.value) == 0;
    } else {
      forall i | 0 <= i < |p.peers|
        ensures !p.IsMemo(PeerIdentity(p.sp, p.peers[i]))
      {
        assert IdOf(p.sp)(p.peers[i]) == PeerIdentity(p.sp, p.peers[i]);
      }
      NoMemoAscends(p, p.peers);
    }
  }

  /** The dial order names the nodes the peers name. */
  lemma OrderNamesPeers(p: Plan, i: nat)
    requires i < |p.Order()|
    ensures Has(IdOf(p.sp), p.peers, PeerIdentity(p.sp, p.Order()[i]))
  {
    var x := p.Order()[i];
    if Honored(p.sp, p.memo, p.peers) {
      var id := PeerIdentity(p.sp, p.memo.value);
      if i > 0 {
        assert x in Without(p.sp, p.peers, id);
        WithoutMembers(p.sp, p.peers, id, x);
        var j :| 0 <= j < |p.peers| && p.peers[j] == x;
        assert IdOf(p.sp)(p.peers[j]) == PeerIdentity(p.sp, x);
      }
    } else {
      assert IdOf(p.sp)(p.peers[i]) == PeerIdentity(p.sp, x);
    }
  }

  lemma OrderCovers(p: Plan, i: nat) returns (k: nat)
    requires i < |p.peers|
    ensures k < |p.Order()| && PeerIdentity(p.sp, p.Order()[k]) == PeerIdentity(p.sp, p.peers[i])
  {
    if Honored(p.sp, p.memo, p.peers) {
      var id := PeerIdentity(p.sp, p.memo.value);
      k := 0;
      if PeerIdentity(p.sp, p.peers[i]) != id {
        var rest := Without(p.sp, p.peers, id);
        WithoutMembers(p.sp, p.peers, id, p.peers[i]);
        var j :| 0 <= j < |rest| && rest[j] == p.peers[i];
        k := j + 1;
      }
    } else {
      k := i;
    }
  }

  lemma OrderRouted(p: Plan)
    requires AllRouted(p, p.peers)
    ensures AllRouted(p, p.Order())
  {
    forall i | 0 <= i < |p.Order()|
      ensures Routed(p, PeerIdentity(p.sp, p.Order()[i]))
    {
      OrderNamesPeers(p, i);
      var j :| 0 <= j < |p.peers| && IdOf(p.sp)(p.peers[j]) == PeerIdentity(p.sp, p.Order()[i]);
      assert Routed(p, PeerIdentity(p.sp, p.peers[j]));
    }
  }

  // ---------------------------------------------------------------------------------------------
  // One node's routes

  /** Which kept route a dial comes from. */
  lemma {:induction false} BlockFrom(p: Plan, peer: string, from: nat, i: nat) returns (j: nat)
    requires from <= |p.routes| && i < |Block(p.sp, peer, p.routes[from..])|
    ensures from <= j < |p.routes|
    ensures Block(p.sp, peer, p.routes[from..])[i] == (peer, p.routes[j].1)
    ensures NodeOf(p.sp)(p.routes[j]) == PeerIdentity(p.sp, peer)
    decreases |p.routes| - from
  {
    assert p.routes[from..][1..] == p.routes[from + 1..];
    if PeerIdentity(p.sp, p.routes[from].0) != PeerIdentity(p.sp, peer) {
      j := BlockFrom(p, peer, from + 1, i);
    } else if i == 0 {
      j := from;
    } else {
      j := BlockFrom(p, peer, from + 1, i - 1);
    }
  }

  lemma {:induction false} BlockHas(p: Plan, peer: string, from: nat, j: nat) returns (i: nat)
    requires from <= j < |p.routes| && NodeOf(p.sp)(p.routes[j]) == PeerIdentity(p.sp, peer)
    ensures i < |Block(p.sp, peer, p.routes[from..])|
    ensures KeyOf(p.sp)(Block(p.sp, peer, p.routes[from..])[i]) == KeyOf(p.sp)(p.routes[j])
    decreases |p.routes| - from
  {
    assert p.routes[from..][1..] == p.routes[from + 1..];
    if from == j {
      i := 0;
    } else {
      i := BlockHas(p, peer, from + 1, j);
      if PeerIdentity(p.sp, p.routes[from].0) == PeerIdentity(p.sp, peer) {
        i := i + 1;
      }
    }
  }

  ghost predicate RoutesRise(p: Plan, block: seq<Route>) {
    forall i, j :: 0 <= i < j < |block| ==> p.RouteRank(block[i]) < p.RouteRank(block[j])
  }

  lemma {:induction false} BlockRises(p: Plan, peer: string, from: nat)
    requires InOrder(KeyOf(p.sp), p.offered, p.routes) && from <= |p.routes|
    ensures RoutesRise(p, Block(p.sp, peer, p.routes[from..]))
    decreases |p.routes| - from
  {
    if from < |p.routes| {
      assert p.routes[from..][1..] == p.routes[from + 1..];
      BlockRises(p, peer, from + 1);
      var rest := Block(p.sp, peer, p.routes[from + 1..]);
      forall i | 0 <= i < |rest|
        ensures p.RouteRank(p.routes[from]) < p.RouteRank(rest[i])
      {
        var j := BlockFrom(p, peer, from + 1, i);
      }
      if PeerIdentity(p.sp, p.routes[from].0) == PeerIdentity(p.sp, peer) {
        assert p.RouteRank((peer, p.routes[from].1)) == p.RouteRank(p.routes[from]);
      }
    }
  }

  /** A node some route is kept to never falls back. */
  lemma NoFallback(p: Plan, peer: string, fallback: string)
    requires Routed(p, PeerIdentity(p.sp, peer))
    ensures OrFallback(Block(p.sp, peer, p.routes), peer, fallback) == Block(p.sp, peer, p.routes) != []
  {
    assert p.routes[0..] == p.routes;
    var i := BlockHas(p, peer, 0, First(NodeOf(p.sp), p.routes, PeerIdentity(p.sp, peer)));
  }

  // ---------------------------------------------------------------------------------------------
  // All dials

  lemma DialsSplit(p: Plan, order: seq<string>, fallback: string)
    requires AllRouted(p, order) && order != []
    ensures Dials(p.sp, order, p.routes, fallback)
         == Block(p.sp, order[0], p.routes) + Dials(p.sp, order[1..], p.routes, fallback)
    ensures AllRouted(p, order[1..])
  {
    assert Routed(p, PeerIdentity(p.sp, order[0]));
    NoFallback(p, order[0], fallback);
  }

  lemma {:induction false} DialFrom(p: Plan, order: seq<string>, fallback: string, i: nat) returns (k: nat, j: nat)
    requires AllRouted(p, order) && i < |Dials(p.sp, order, p.routes, fallback)|
    ensures k < |order| && j < |p.routes|
    ensures Dials(p.sp, order, p.routes, fallback)[i] == (order[k], p.routes[j].1)
    ensures NodeOf(p.sp)(p.routes[j]) == PeerIdentity(p.sp, order[k])
    decreases |order|
  {
    DialsSplit(p, order, fallback);
    var block, rest := Block(p.sp, order[0], p.routes), Dials(p.sp, order[1..], p.routes, fallback);
    if i < |block| {
      k := 0;
      j := BlockOrigin(p, order[0], rest, i);
    } else {
      var k', j' := DialFrom(p, order[1..], fallback, i - |block|);
      assert order[1..][k'] == order[k' + 1];
      k, j := k' + 1, j';
      RestOrigin(block, rest, i);
    }
  }

  lemma BlockOrigin(p: Plan, peer: string, rest: seq<Route>, i: nat) returns (j: nat)
    requires i < |Block(p.sp, peer, p.routes)|
    ensures j < |p.routes| && NodeOf(p.sp)(p.routes[j]) == PeerIdentity(p.sp, peer)
    ensures (Block(p.sp, peer, p.routes) + rest)[i] == (peer, p.routes[j].1)
  {
    assert p.routes[0..] == p.routes;
    j := BlockFrom(p, peer, 0, i);
  }

  lemma RestOrigin(block: seq<Route>, rest: seq<Route>, i: nat)
    requires |block| <= i < |block| + |rest|
    ensures (block + rest)[i] == rest[i - |block|]
  {
  }

  lemma {:induction false} DialHas(p: Plan, order: seq<string>, fallback: string, k: nat, j: nat) returns (i: nat)
    requires AllRouted(p, order) && k < |order| && j < |p.routes|
    requires NodeOf(p.sp)(p.routes[j]) == PeerIdentity(p.sp, order[k])
    ensures i < |Dials(p.sp, order, p.routes, fallback)|
    ensures KeyOf(p.sp)(Dials(p.sp, order, p.routes, fallback)[i]) == KeyOf(p.sp)(p.routes[j])
    decreases |order|
  {
    DialsSplit(p, order, fallback);
    if k == 0 {
      i := BlockDialed(p, order[0], j, Dials(p.sp, order[1..], p.routes, fallback));
    } else {
      assert order[1..][k - 1] == order[k];
      var d := DialHas(p, order[1..], fallback, k - 1, j);
      i := RestDialed(Block(p.sp, order[0], p.routes), Dials(p.sp, order[1..], p.routes, fallback), d);
    }
  }

  lemma RestDialed(block: seq<Route>, rest: seq<Route>, d: nat) returns (i: nat)
    requires d < |rest|
    ensures i < |block + rest| && (block + rest)[i] == rest[d]
  {
    i := |block| + d;
  }

  lemma BlockDialed(p: Plan, peer: string, j: nat, rest: seq<Route>) returns (i: nat)
    requires j < |p.routes| && NodeOf(p.sp)(p.routes[j]) == PeerIdentity(p.sp, peer)
    ensures var dials := Block(p.sp, peer, p.routes) + rest;
            i < |dials| && KeyOf(p.sp)(dials[i]) == KeyOf(p.sp)(p.routes[j])
  {
    assert p.routes[0..] == p.routes;
    i := BlockHas(p, peer, 0, j);
  }

  ghost predicate AllRank(p: Plan, dials: seq<Route>, rank: nat) {
    forall i :: 0 <= i < |dials| ==> p.NodeRank(NodeOf(p.sp)(dials[i])) == rank
  }

  ghost predicate AllAbove(p: Plan, dials: seq<Route>, rank: nat) {
    forall i :: 0 <= i < |dials| ==> p.NodeRank(NodeOf(p.sp)(dials[i])) > rank
  }

  lemma BlockRank(p: Plan, peer: string)
    ensures AllRank(p, Block(p.sp, peer, p.routes), PeerRank(p, peer))
  {
    var block := Block(p.sp, peer, p.routes);
    assert p.routes[0..] == p.routes;
    forall i | 0 <= i < |block|
      ensures p.NodeRank(NodeOf(p.sp)(block[i])) == PeerRank(p, peer)
    {
      var j := BlockFrom(p, peer, 0, i);
    }
  }

  lemma RestRank(p: Plan, order: seq<string>, fallback: string)
    requires AllRouted(p, order) && RanksAscend(p, order) && order != []
    ensures AllAbove(p, Dials(p.sp, order[1..], p.routes, fallback), PeerRank(p, order[0]))
  {
    var rest := Dials(p.sp, order[1..], p.routes, fallback);
    forall i | 0 <= i < |rest|
      ensures p.NodeRank(NodeOf(p.sp)(rest[i])) > PeerRank(p, order[0])
    {
      var k, j := DialFrom(p, order[1..], fallback, i);
      assert order[1..][k] == order[k + 1];
    }
  }

  lemma {:induction false} DialsAscend(p: Plan, order: seq<string>, fallback: string)
    requires InOrder(KeyOf(p.sp), p.offered, p.routes) && AllRouted(p, order) && RanksAscend(p, order)
    ensures p.Ascends(Dials(p.sp, order, p.routes, fallback))
    decreases |order|
  {
    if order != [] {
      DialsSplit(p, order, fallback);
      assert p.routes[0..] == p.routes;
      var block, rest := Block(p.sp, order[0], p.routes), Dials(p.sp, order[1..], p.routes, fallback);
      DialsAscend(p, order[1..], fallback);
      BlockRises(p, order[0], 0);
      BlockRank(p, order[0]);
      RestRank(p, order, fallback);
      AscendsJoined(p, block, rest, PeerRank(p, order[0]));
    }
  }

  lemma AscendsJoined(p: Plan, a: seq<Route>, b: seq<Route>, rank: nat)
    requires RoutesRise(p, a) && AllRank(p, a, rank)
    requires p.Ascends(b) && AllAbove(p, b, rank)
    ensures p.Ascends(a + b)
  {
    forall i, j | 0 <= i < j < |a + b|
      ensures p.Before((a + b)[i], (a + b)[j])
    {
      if j < |a| {
        assert p.RouteRank(a[i]) < p.RouteRank(a[j]);
      } else if i < |a| {
        assert p.NodeRank(NodeOf(p.sp)(b[j - |a|])) > rank;
      } else {
        assert p.Before(b[i - |a|], b[j - |a|]);
      }
    }
  }

  // ---------------------------------------------------------------------------------------------
  // The pipeline

  lemma OfferedIsKept(p: Plan, i: nat) returns (j: nat)
    requires p.Made() && i < |p.offered|
    ensures j < |p.routes| && KeyOf(p.sp)(p.routes[j]) == KeyOf(p.sp)(p.offered[i])
  {
    assert Has(KeyOf(p.sp), p.routes, KeyOf(p.sp)(p.offered[i]));
    j :| 0 <= j < |p.routes| && KeyOf(p.sp)(p.routes[j]) == KeyOf(p.sp)(p.offered[i]);
  }

  lemma KeptHasPeer(p: Plan, j: nat) returns (m: nat)
    requires p.Made() && j < |p.routes|
    ensures m < |p.peers| && PeerIdentity(p.sp, p.peers[m]) == NodeOf(p.sp)(p.routes[j])
  {
    var name := Names(p.routes)[j];
    assert Has(IdOf(p.sp), p.peers, IdOf(p.sp)(name));
    m :| 0 <= m < |p.peers| && IdOf(p.sp)(p.peers[m]) == IdOf(p.sp)(name);
  }

  lemma OfferedIsDialed(p: Plan, fallback: string, i: nat) returns (d: nat)
    requires p.Made() && i < |p.offered|
    ensures d < |p.Dialed(fallback)| && KeyOf(p.sp)(p.Dialed(fallback)[d]) == KeyOf(p.sp)(p.offered[i])
  {
    PeersAsOffered(p);
    OrderRouted(p);
    var j := OfferedIsKept(p, i);
    var m := KeptHasPeer(p, j);
    var k := OrderCovers(p, m);
    d := DialHas(p, p.Order(), fallback, k, j);
  }

  lemma DialedIsOffered(p: Plan, fallback: string, d: nat) returns (i: nat)
    requires p.Made() && d < |p.Dialed(fallback)|
    ensures i < |p.offered| && KeyOf(p.sp)(p.offered[i]) == KeyOf(p.sp)(p.Dialed(fallback)[d])
  {
    PeersAsOffered(p);
    OrderRouted(p);
    var k, j := DialFrom(p, p.Order(), fallback, d);
    assert IsFirst(KeyOf(p.sp), p.offered, p.routes[j]);
    i := First(KeyOf(p.sp), p.offered, KeyOf(p.sp)(p.routes[j]));
  }

  /** Every pair of node and relay on offer is dialed, and no other. */
  lemma PipelineIsLossless(p: Plan, fallback: string, key: RouteKey)
    requires p.Made()
    ensures Has(KeyOf(p.sp), p.offered, key) <==> Has(KeyOf(p.sp), p.Dialed(fallback), key)
  {
    if i :| 0 <= i < |p.offered| && KeyOf(p.sp)(p.offered[i]) == key {
      var d := OfferedIsDialed(p, fallback, i);
    }
    if d :| 0 <= d < |p.Dialed(fallback)| && KeyOf(p.sp)(p.Dialed(fallback)[d]) == key {
      var i := DialedIsOffered(p, fallback, d);
    }
  }

  /** The memoised node comes first if it is offered, then each node as first offered; for one node,
   *  its relays as first offered. */
  lemma PipelineAscends(p: Plan, fallback: string)
    requires p.Made()
    ensures p.Ascends(p.Dialed(fallback))
  {
    PeersAsOffered(p);
    OrderRouted(p);
    OrderAscends(p);
    DialsAscend(p, p.Order(), fallback);
  }

  /** A peer is spelled as its node was first offered. */
  lemma PeerSpelled(p: Plan, peer: string)
    requires p.Made() && IsFirst(IdOf(p.sp), Names(p.routes), peer)
    ensures var n := First(NodeOf(p.sp), p.offered, PeerIdentity(p.sp, peer));
      n < |p.offered| && p.offered[n].0 == peer
  {
    var id := PeerIdentity(p.sp, peer);
    PeerRouted(p, peer);
    NamesFirst(p.sp, p.routes, id);
    NodeFirst(p, id);
    var k := First(NodeOf(p.sp), p.routes, id);
    assert IsFirst(KeyOf(p.sp), p.offered, p.routes[k]);
  }

  lemma OrderSpelled(p: Plan, k: nat)
    requires p.Made() && k < |p.Order()|
    ensures var id := PeerIdentity(p.sp, p.Order()[k]);
      || (p.IsMemo(id) && p.Order()[k] == p.memo.value)
      || (!p.IsMemo(id) && IsFirst(IdOf(p.sp), Names(p.routes), p.Order()[k]))
  {
    var x := p.Order()[k];
    if !Honored(p.sp, p.memo, p.peers) {
      assert IdOf(p.sp)(p.peers[k]) == PeerIdentity(p.sp, x);
    } else if k > 0 {
      var id := PeerIdentity(p.sp, p.memo.value);
      assert x in Without(p.sp, p.peers, id);
      WithoutMembers(p.sp, p.peers, id, x);
    }
  }

  /** How a dialed route is spelled. */
  lemma DialSpelled(p: Plan, fallback: string, d: nat)
    requires p.Made() && d < |p.Dialed(fallback)|
    ensures p.Spelled(p.Dialed(fallback)[d])
  {
    PeersAsOffered(p);
    OrderRouted(p);
    var k, j := DialFrom(p, p.Order(), fallback, d);
    assert Routed(p, PeerIdentity(p.sp, p.Order()[k]));
    assert IsFirst(KeyOf(p.sp), p.offered, p.routes[j]);
    OrderSpelled(p, k);
    if !p.IsMemo(PeerIdentity(p.sp, p.Order()[k])) {
      PeerSpelled(p, p.Order()[k]);
    }
  }

  /** No pair is dialed twice. */
  lemma EachPairOnce(p: Plan, fallback: string, i: nat, j: nat)
    requires p.Made() && i < j < |p.Dialed(fallback)|
    ensures KeyOf(p.sp)(p.Dialed(fallback)[i]) != KeyOf(p.sp)(p.Dialed(fallback)[j])
  {
    PipelineAscends(p, fallback);
    assert p.Before(p.Dialed(fallback)[i], p.Dialed(fallback)[j]);
  }

  lemma SameRankSameNode(p: Plan, a: Identity, b: Identity)
    requires First(NodeOf(p.sp), p.offered, a) < |p.offered| && p.NodeRank(a) == p.NodeRank(b)
    ensures a == b
  {
  }

  lemma DialKnown(p: Plan, fallback: string, d: nat)
    requires p.Made() && d < |p.Dialed(fallback)|
    ensures First(NodeOf(p.sp), p.offered, NodeOf(p.sp)(p.Dialed(fallback)[d])) < |p.offered|
  {
    var i := DialedIsOffered(p, fallback, d);
    assert NodeOf(p.sp)(p.offered[i]) == NodeOf(p.sp)(p.Dialed(fallback)[d]);
  }

  /** Dials are grouped by node. */
  lemma GroupedByNode(p: Plan, fallback: string, i: nat, j: nat, k: nat)
    requires p.Made() && i < j < k < |p.Dialed(fallback)|
    requires NodeOf(p.sp)(p.Dialed(fallback)[i]) == NodeOf(p.sp)(p.Dialed(fallback)[k])
    ensures NodeOf(p.sp)(p.Dialed(fallback)[j]) == NodeOf(p.sp)(p.Dialed(fallback)[i])
  {
    var dials := p.Dialed(fallback);
    DialKnown(p, fallback, i);
    PipelineAscends(p, fallback);
    assert p.Before(dials[i], dials[j]) && p.Before(dials[j], dials[k]);
    SameRankSameNode(p, NodeOf(p.sp)(dials[i]), NodeOf(p.sp)(dials[j]));
  }

  lemma OfferedMemoFirst(p: Plan, fallback: string, i: nat)
    requires p.Made() && i < |p.offered| && p.IsMemo(NodeOf(p.sp)(p.offered[i]))
    ensures p.Dialed(fallback) != [] && p.IsMemo(NodeOf(p.sp)(p.Dialed(fallback)[0]))
  {
    var d := OfferedIsDialed(p, fallback, i);
    PipelineAscends(p, fallback);
    assert d == 0 || p.Before(p.Dialed(fallback)[0], p.Dialed(fallback)[d]);
  }

  /** The memoised node is dialed, and then first, exactly when it is on offer. */
  lemma MemoFirstIffOffered(p: Plan, fallback: string)
    requires p.Made() && p.memo.Some?
    ensures var id := PeerIdentity(p.sp, p.memo.value);
      if Has(NodeOf(p.sp), p.offered, id)
      then p.Dialed(fallback) != [] && NodeOf(p.sp)(p.Dialed(fallback)[0]) == id
      else !Has(NodeOf(p.sp), p.Dialed(fallback), id)
  {
    var id := PeerIdentity(p.sp, p.memo.value);
    if i :| 0 <= i < |p.offered| && NodeOf(p.sp)(p.offered[i]) == id {
      OfferedMemoFirst(p, fallback, i);
    } else if d :| 0 <= d < |p.Dialed(fallback)| && NodeOf(p.sp)(p.Dialed(fallback)[d]) == id {
      DialKnown(p, fallback, d);
    }
  }

  /** A memo is kept exactly when its node is on offer. */
  lemma HonoredIffOffered(p: Plan)
    requires p.Made() && p.memo.Some?
    ensures Honored(p.sp, p.memo, p.peers) <==> Has(NodeOf(p.sp), p.offered, PeerIdentity(p.sp, p.memo.value))
  {
    var id := PeerIdentity(p.sp, p.memo.value);
    if i :| 0 <= i < |p.offered| && NodeOf(p.sp)(p.offered[i]) == id {
      var j := OfferedIsKept(p, i);
      var m := KeptHasPeer(p, j);
      assert IdOf(p.sp)(p.peers[m]) == id;
    }
    if m :| 0 <= m < |p.peers| && IdOf(p.sp)(p.peers[m]) == id {
      PeersAsOffered(p);
      assert Routed(p, PeerIdentity(p.sp, p.peers[m]));
    }
  }

  /** The relay to fall back to makes no difference. */
  lemma {:induction false} FallbackUnused(p: Plan, order: seq<string>, fallback: string, other: string)
    requires AllRouted(p, order)
    ensures Dials(p.sp, order, p.routes, fallback) == Dials(p.sp, order, p.routes, other)
    decreases |order|
  {
    if order != [] {
      assert Routed(p, PeerIdentity(p.sp, order[0]));
      NoFallback(p, order[0], fallback);
      NoFallback(p, order[0], other);
      FallbackUnused(p, order[1..], fallback, other);
    }
  }

  /** What the composed pipeline dials. */
  ghost predicate Exact(p: Plan, dials: seq<Route>) {
    && (forall key :: Has(KeyOf(p.sp), p.offered, key) <==> Has(KeyOf(p.sp), dials, key))
    && p.Ascends(dials)
    && p.AllSpelled(dials)
  }

  /** The pipeline as one pull runs it, on the row that remembers who answered. */
  method PullOrder(meta: Meta, sp: Spelling, memoKey: string, configured: seq<string>, relay: string,
                   subscribed: seq<(string, Option<string>)>) returns (dials: seq<Route>, ghost p: Plan)
    modifies meta
    ensures p.sp == sp && p.memo == old(Lookup(meta.rows, memoKey)) && p.Made()
    ensures p.offered == Offered(sp, configured, relay, subscribed)
    ensures forall fallback :: dials == p.Dialed(fallback)
    ensures Exact(p, dials)
    ensures forall peer, via ::
      Among(sp, dials, peer, via) <==> OnOffer(sp, configured, relay, subscribed, peer, via)
    ensures meta.rows ==
      if p.offered == [] || (p.memo.Some? && Has(NodeOf(sp), p.offered, PeerIdentity(sp, p.memo.value)))
      then old(meta.rows) else old(meta.rows) - {memoKey}
  {
    var routes := ForeignPullPeers(sp, configured, relay, subscribed);
    if routes == [] {
      p := Plan(sp, Offered(sp, configured, relay, subscribed), [], [], Lookup(meta.rows, memoKey));
      NothingKept(p);
      DialsAreOnOffer(p, [], configured, relay, subscribed);
      return [], p;
    }
    var peers := DistinctPeers(sp, routes);
    p := Plan(sp, Offered(sp, configured, relay, subscribed), routes, peers, Lookup(meta.rows, memoKey));
    if p.memo.Some? {
      HonoredIffOffered(p);
    }
    var order := meta.OrderedPullPeers(sp, memoKey, peers);
    dials := RouteAddrs(sp, order, routes, relay);
    PlanIsExact(p, relay);
    DialsAreOnOffer(p, dials, configured, relay, subscribed);
  }

  lemma DialsAreOnOffer(p: Plan, dials: seq<Route>, configured: seq<string>, relay: string,
                        subscribed: seq<(string, Option<string>)>)
    requires p.offered == Offered(p.sp, configured, relay, subscribed) && Exact(p, dials)
    ensures forall peer, via ::
      Among(p.sp, dials, peer, via) <==> OnOffer(p.sp, configured, relay, subscribed, peer, via)
  {
    forall peer, via
      ensures Among(p.sp, dials, peer, via) <==> OnOffer(p.sp, configured, relay, subscribed, peer, via)
    {
      AmongIffHas(p.sp, dials, peer, via);
      AmongIffHas(p.sp, p.offered, peer, via);
      if OnOffer(p.sp, configured, relay, subscribed, peer, via) {
        OfferHas(p.sp, configured, relay, subscribed, peer, via);
      }
      if Among(p.sp, p.offered, peer, via) {
        HasOffer(p.sp, configured, relay, subscribed, peer, via);
      }
    }
  }

  lemma NothingKept(p: Plan)
    requires KeepsFirst(KeyOf(p.sp), p.offered, p.routes) && p.routes == [] && p.peers == []
    ensures p.Made() && p.offered == [] && Exact(p, []) && forall fallback :: p.Dialed(fallback) == []
  {
    if p.offered != [] {
      CoversNeedsOne(KeyOf(p.sp), p.offered, p.routes);
    }
  }

  lemma PlanIsExact(p: Plan, relay: string)
    requires p.Made()
    ensures Exact(p, p.Dialed(relay)) && forall fallback :: p.Dialed(relay) == p.Dialed(fallback)
  {
    forall key
      ensures Has(KeyOf(p.sp), p.offered, key) <==> Has(KeyOf(p.sp), p.Dialed(relay), key)
    {
      PipelineIsLossless(p, relay, key);
    }
    PipelineAscends(p, relay);
    forall d | 0 <= d < |p.Dialed(relay)|
      ensures p.Spelled(p.Dialed(relay)[d])
    {
      DialSpelled(p, relay, d);
    }
    PeersAsOffered(p);
    OrderRouted(p);
    forall fallback
      ensures p.Dialed(relay) == p.Dialed(fallback)
    {
      FallbackUnused(p, p.Order(), relay, fallback);
    }
  }
}
