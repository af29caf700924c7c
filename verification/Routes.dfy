/** Which nodes are dialed for a foreign account, through which relays, in which order (`sync_driver.rs`). */
module Routes {
  import opened Options
  import opened Bytes
  import opened FirstSeen
  import opened Sequences

  /** How a peer string parses as a node id, and how strings are trimmed. */
  datatype Spelling = Spelling(parse: string -> Option<Text>, trim: string -> string)

  datatype Identity = NodeId(bytes: Text) | Literal(text: string)

  /** The node a peer string names, or its trimmed text if it names none. */
  function PeerIdentity(sp: Spelling, peer: string): Identity {
    match sp.parse(peer)
    case Some(id) => NodeId(id)
    case None => Literal(sp.trim(peer))
  }

  /** Two spellings of one node: of one node id, or of one text where neither is a node id. */
  predicate SameNode(sp: Spelling, a: string, b: string) {
    if sp.parse(a).Some? || sp.parse(b).Some? then sp.parse(a) == sp.parse(b) else sp.trim(a) == sp.trim(b)
  }

  lemma IdentityTellsNodesApart(sp: Spelling, a: string, b: string)
    ensures PeerIdentity(sp, a) == PeerIdentity(sp, b) <==> SameNode(sp, a, b)
  {
  }

  /** A node and the relay that reaches it. */
  type Route = (string, string)

  type RouteKey = (Identity, string)

  function NodeOf(sp: Spelling): Route -> Identity {
    (r: Route) => PeerIdentity(sp, r.0)
  }

  function KeyOf(sp: Spelling): Route -> RouteKey {
    (r: Route) => (PeerIdentity(sp, r.0), sp.trim(r.1))
  }

  function IdOf(sp: Spelling): string -> Identity {
    (peer: string) => PeerIdentity(sp, peer)
  }

  // ---------------------------------------------------------------------------------------------
  // The routes on offer

  /** A locator's own relay, unless it is missing or blank. */
  function LocatorRelay(sp: Spelling, relay: Option<string>, configuredRelay: string): string {
    if relay.Some? && sp.trim(relay.value) != [] then relay.value else configuredRelay
  }

  /** Configured peers through the configured relay, then every subscribed route. */
  function Offered(sp: Spelling, configured: seq<string>, relay: string,
                   subscribed: seq<(string, Option<string>)>): (r: seq<Route>)
    ensures |r| == |configured| + |subscribed|
    ensures forall i :: 0 <= i < |configured| ==> r[i] == (configured[i], relay)
    ensures forall i :: 0 <= i < |subscribed| ==>
      r[|configured| + i] == (subscribed[i].0, LocatorRelay(sp, subscribed[i].1, relay))
  {
    seq(|configured|, i requires 0 <= i < |configured| => (configured[i], relay))
    + seq(|subscribed|, i requires 0 <= i < |subscribed| =>
        (subscribed[i].0, LocatorRelay(sp, subscribed[i].1, relay)))
  }

  /** A configured peer goes with the configured relay. */
  ghost predicate FromConfig(sp: Spelling, configured: seq<string>, relay: string, peer: string, via: string) {
    exists i :: 0 <= i < |configured| && SameNode(sp, configured[i], peer) && sp.trim(relay) == sp.trim(via)
  }

  /** A subscribed peer goes with the relay its locator names, ... */
  ghost predicate FromLocator(sp: Spelling, subscribed: seq<(string, Option<string>)>, peer: string, via: string) {
    exists i :: 0 <= i < |subscribed|
      && subscribed[i].1.Some? && sp.trim(subscribed[i].1.value) != []
      && SameNode(sp, subscribed[i].0, peer) && sp.trim(subscribed[i].1.value) == sp.trim(via)
  }

  /** ... or with the configured relay, if it names none or a blank one. */
  ghost predicate FromBareLocator(sp: Spelling, relay: string, subscribed: seq<(string, Option<string>)>,
                                  peer: string, via: string) {
    exists i :: 0 <= i < |subscribed|
      && (subscribed[i].1.None? || sp.trim(subscribed[i].1.value) == [])
      && SameNode(sp, subscribed[i].0, peer) && sp.trim(relay) == sp.trim(via)
  }

  /** The node and the relay belong together, by the configuration or by a subscription. */
  ghost predicate OnOffer(sp: Spelling, configured: seq<string>, relay: string,
                          subscribed: seq<(string, Option<string>)>, peer: string, via: string) {
    || FromConfig(sp, configured, relay, peer, via)
    || FromLocator(sp, subscribed, peer, via)
    || FromBareLocator(sp, relay, subscribed, peer, via)
  }

  /** One of the routes leads to that node through that relay. */
  ghost predicate Among(sp: Spelling, routes: seq<Route>, peer: string, via: string) {
    exists i :: 0 <= i < |routes| && SameNode(sp, routes[i].0, peer) && sp.trim(routes[i].1) == sp.trim(via)
  }

  lemma AmongIffHas(sp: Spelling, routes: seq<Route>, peer: string, via: string)
    ensures Among(sp, routes, peer, via) <==> Has(KeyOf(sp), routes, KeyOf(sp)((peer, via)))
  {
    var key := KeyOf(sp)((peer, via));
    if i :| 0 <= i < |routes| && SameNode(sp, routes[i].0, peer) && sp.trim(routes[i].1) == sp.trim(via) {
      assert KeyOf(sp)(routes[i]) == key;
    }
    if i :| 0 <= i < |routes| && KeyOf(sp)(routes[i]) == key {
      IdentityTellsNodesApart(sp, routes[i].0, peer);
    }
  }

  lemma OfferHas(sp: Spelling, configured: seq<string>, relay: string, subscribed: seq<(string, Option<string>)>,
                 peer: string, via: string)
    requires OnOffer(sp, configured, relay, subscribed, peer, via)
    ensures Among(sp, Offered(sp, configured, relay, subscribed), peer, via)
  {
    var r := Offered(sp, configured, relay, subscribed);
    if FromConfig(sp, configured, relay, peer, via) {
      var i :| 0 <= i < |configured| && SameNode(sp, configured[i], peer) && sp.trim(relay) == sp.trim(via);
      assert r[i] == (configured[i], relay);
    } else if FromLocator(sp, subscribed, peer, via) {
      var i :| 0 <= i < |subscribed| && subscribed[i].1.Some? && sp.trim(subscribed[i].1.value) != []
        && SameNode(sp, subscribed[i].0, peer) && sp.trim(subscribed[i].1.value) == sp.trim(via);
      assert r[|configured| + i] == (subscribed[i].0, subscribed[i].1.value);
    } else {
      var i :| 0 <= i < |subscribed| && (subscribed[i].1.None? || sp.trim(subscribed[i].1.value) == [])
        && SameNode(sp, subscribed[i].0, peer) && sp.trim(relay) == sp.trim(via);
      assert r[|configured| + i] == (subscribed[i].0, relay);
    }
  }

  lemma HasOffer(sp: Spelling, configured: seq<string>, relay: string, subscribed: seq<(string, Option<string>)>,
                 peer: string, via: string)
    requires Among(sp, Offered(sp, configured, relay, subscribed), peer, via)
    ensures OnOffer(sp, configured, relay, subscribed, peer, via)
  {
    var r := Offered(sp, configured, relay, subscribed);
    var k :| 0 <= k < |r| && SameNode(sp, r[k].0, peer) && sp.trim(r[k].1) == sp.trim(via);
    if k < |configured| {
      assert r[k] == (configured[k], relay);
    } else {
      var i := k - |configured|;
      assert r[|configured| + i] == (subscribed[i].0, LocatorRelay(sp, subscribed[i].1, relay));
    }
  }

  /** What is kept of an offer is exactly what is on offer. */
  lemma KeptIsOnOffer(sp: Spelling, configured: seq<string>, relay: string,
                      subscribed: seq<(string, Option<string>)>, routes: seq<Route>, peer: string, via: string)
    requires KeepsFirst(KeyOf(sp), Offered(sp, configured, relay, subscribed), routes)
    ensures Among(sp, routes, peer, via) <==> OnOffer(sp, configured, relay, subscribed, peer, via)
  {
    var offered := Offered(sp, configured, relay, subscribed);
    AmongIffHas(sp, routes, peer, via);
    AmongIffHas(sp, offered, peer, via);
    KeptHasSameKeys(KeyOf(sp), offered, routes, KeyOf(sp)((peer, via)));
    if OnOffer(sp, configured, relay, subscribed, peer, via) {
      OfferHas(sp, configured, relay, subscribed, peer, via);
    }
    if Among(sp, offered, peer, via) {
      HasOffer(sp, configured, relay, subscribed, peer, via);
    }
  }

  /** The routes in the order in which they are tried. */
  method Chain(sp: Spelling, configured: seq<string>, relay: string, subscribed: seq<(string, Option<string>)>)
    returns (chain: seq<Route>)
    ensures chain == Offered(sp, configured, relay, subscribed)
  {
    chain := [];
    for i := 0 to |configured|
      invariant chain == Offered(sp, configured, relay, subscribed)[..i]
    {
      chain := chain + [(configured[i], relay)];
    }
    for i := 0 to |subscribed|
      invariant chain == Offered(sp, configured, relay, subscribed)[..|configured| + i]
    {
      var via := relay;
      if subscribed[i].1.Some? && sp.trim(subscribed[i].1.value) != [] {
        via := subscribed[i].1.value;
      }
      chain := chain + [(subscribed[i].0, via)];
    }
  }

  method ForeignPullPeers(sp: Spelling, configured: seq<string>, relay: string,
                          subscribed: seq<(string, Option<string>)>) returns (routes: seq<Route>)
    ensures KeepsFirst(KeyOf(sp), Offered(sp, configured, relay, subscribed), routes)
    ensures forall peer, via ::
      Among(sp, routes, peer, via) <==> OnOffer(sp, configured, relay, subscribed, peer, via)
  {
    var offered := Chain(sp, configured, relay, subscribed);
    routes := [];
    for i := 0 to |offered|
      invariant routes == Firsts(KeyOf(sp), offered[..i])
    {
      FirstsStep(KeyOf(sp), offered, i);
      if !Has(KeyOf(sp), routes, KeyOf(sp)(offered[i])) {
        routes := routes + [offered[i]];
      }
    }
    assert offered[..|offered|] == offered;
    FirstsKept(KeyOf(sp), offered);
    forall peer, via
      ensures Among(sp, routes, peer, via) <==> OnOffer(sp, configured, relay, subscribed, peer, via)
    {
      KeptIsOnOffer(sp, configured, relay, subscribed, routes, peer, via);
    }
  }

  function Names(routes: seq<Route>): (r: seq<string>)
    ensures |r| == |routes|
  {
    seq(|routes|, i requires 0 <= i < |routes| => routes[i].0)
  }

  method DistinctPeers(sp: Spelling, routes: seq<Route>) returns (peers: seq<string>)
    ensures KeepsFirst(IdOf(sp), Names(routes), peers)
  {
    peers := [];
    ghost var names := Names(routes);
    for i := 0 to |routes|
      invariant peers == Firsts(IdOf(sp), names[..i])
    {
      FirstsStep(IdOf(sp), names, i);
      if !Has(IdOf(sp), peers, PeerIdentity(sp, routes[i].0)) {
        peers := peers + [routes[i].0];
      }
    }
    assert names[..|routes|] == names;
    FirstsKept(IdOf(sp), names);
  }

  // ---------------------------------------------------------------------------------------------
  // The dial order

  function Without(sp: Spelling, peers: seq<string>, id: Identity): seq<string> {
    if peers == [] then []
    else (if PeerIdentity(sp, peers[0]) != id then [peers[0]] else []) + Without(sp, peers[1..], id)
  }

  /** The memo counts only while it names one of the peers. */
  predicate Honored(sp: Spelling, memo: Option<string>, peers: seq<string>) {
    memo.Some? && Has(IdOf(sp), peers, PeerIdentity(sp, memo.value))
  }

  function Ordered(sp: Spelling, memo: Option<string>, peers: seq<string>): seq<string> {
    if Honored(sp, memo, peers)
    then [memo.value] + Without(sp, peers, PeerIdentity(sp, memo.value))
    else peers
  }

  function Lookup(rows: map<string, string>, key: string): Option<string> {
    if key in rows then Some(rows[key]) else None
  }

  /** The metadata rows that remember which peer answered for which account. */
  class Meta {
    var rows: map<string, string>

    method OrderedPullPeers(sp: Spelling, key: string, peers: seq<string>) returns (order: seq<string>)
      modifies this
      ensures order == Ordered(sp, old(Lookup(rows, key)), peers)
      ensures rows == if Honored(sp, old(Lookup(rows, key)), peers) then old(rows) else old(rows) - {key}
    {
      var memo := Lookup(rows, key);
      if !Honored(sp, memo, peers) {
        rows := rows - {key};
        return peers;
      }
      order := [memo.value];
      var id := PeerIdentity(sp, memo.value);
      for i := 0 to |peers|
        invariant rows == old(rows)
        invariant order + Without(sp, peers[i..], id) == Ordered(sp, memo, peers)
      {
        assert peers[i..][1..] == peers[i + 1..];
        if PeerIdentity(sp, peers[i]) != id {
          assert (order + [peers[i]]) + Without(sp, peers[i + 1..], id) == order + Without(sp, peers[i..], id);
          order := order + [peers[i]];
        }
      }
      assert order + [] == order;
    }
  }

  /** Every route to the node `peer` names, under that spelling. */
  function Block(sp: Spelling, peer: string, routes: seq<Route>): seq<Route> {
    if routes == [] then []
    else (if PeerIdentity(sp, routes[0].0) == PeerIdentity(sp, peer) then [(peer, routes[0].1)] else [])
         + Block(sp, peer, routes[1..])
  }

  function OrFallback(block: seq<Route>, peer: string, fallback: string): seq<Route> {
    if block == [] then [(peer, fallback)] else block
  }

  function Dials(sp: Spelling, order: seq<string>, routes: seq<Route>, fallback: string): seq<Route> {
    if order == [] then []
    else OrFallback(Block(sp, order[0], routes), order[0], fallback) + Dials(sp, order[1..], routes, fallback)
  }

  method RoutesTo(sp: Spelling, peer: string, routes: seq<Route>) returns (block: seq<Route>)
    ensures block == Block(sp, peer, routes)
  {
    block := [];
    for i := 0 to |routes|
      invariant block + Block(sp, peer, routes[i..]) == Block(sp, peer, routes)
    {
      assert routes[i..][1..] == routes[i + 1..];
      if PeerIdentity(sp, routes[i].0) == PeerIdentity(sp, peer) {
        var one := (peer, routes[i].1);
        assert (block + [one]) + Block(sp, peer, routes[i + 1..]) == block + Block(sp, peer, routes[i..]);
        block := block + [one];
      }
    }
    assert block + [] == block;
  }

  method RouteAddrs(sp: Spelling, order: seq<string>, routes: seq<Route>, fallback: string)
    returns (resolved: seq<Route>)
    ensures resolved == Dials(sp, order, routes, fallback)
  {
    resolved := [];
    for i := 0 to |order|
      invariant resolved + Dials(sp, order[i..], routes, fallback) == Dials(sp, order, routes, fallback)
    {
      assert order[i..][1..] == order[i + 1..];
      var relays := RoutesTo(sp, order[i], routes);
      if relays == [] {
        relays := [(order[i], fallback)];
      }
      Concat(resolved, relays, Dials(sp, order[i + 1..], routes, fallback));
      resolved := resolved + relays;
    }
    assert resolved + [] == resolved;
  }
}
