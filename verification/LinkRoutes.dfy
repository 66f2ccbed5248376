/** The routes of the WireGuard link: which ones the allowed IPs ask for, and bringing the link to have
    these. */
module LinkRoutes {
  import opened Sorting
  import opened WireGuard
  import opened RouteDiff

  function RoutesTo(ips: seq<Text>, linkIndex: int, table: int): seq<Route> {
    if ips == [] then [] else [Route(ips[0], linkIndex, table, 0)] + RoutesTo(ips[1..], linkIndex, table)
  }

  /** A route for every allowed IP of every peer, in order. */
  function RoutesOf(peers: seq<PeerConfig>, linkIndex: int, table: int): seq<Route> {
    if peers == [] then []
    else RoutesTo(peers[0].allowedIPs, linkIndex, table) + RoutesOf(peers[1..], linkIndex, table)
  }

  /** The number of allowed IPs of all peers together. */
  function TotalIPs(peers: seq<PeerConfig>): nat {
    if peers == [] then 0 else |peers[0].allowedIPs| + TotalIPs(peers[1..])
  }

  /** The peer has the allowed IP. */
  predicate Allowed(peers: seq<PeerConfig>, ip: Text) {
    exists i :: 0 <= i < |peers| && ip in peers[i].allowedIPs
  }

  /** The route of the j-th allowed IP of the i-th peer comes after those of all earlier ones. */
  ghost predicate RouteInPlace(routes: seq<Route>, peers: seq<PeerConfig>, i: nat, j: nat, linkIndex: int, table: int)
    requires i < |peers| && j < |peers[i].allowedIPs|
  {
    var at := TotalIPs(peers[..i]) + j;
    at < |routes| && routes[at] == Route(peers[i].allowedIPs[j], linkIndex, table, 0)
  }

  /** One route per allowed IP of every peer, in the order of peers and IPs, and no others. */
  ghost predicate RoutesForAll(routes: seq<Route>, peers: seq<PeerConfig>, linkIndex: int, table: int) {
    && |routes| == TotalIPs(peers)
    && (forall i, j | 0 <= i < |peers| && 0 <= j < |peers[i].allowedIPs| ::
          RouteInPlace(routes, peers, i, j, linkIndex, table))
    && (forall r :: r in routes <==> r == Route(r.dst, linkIndex, table, 0) && Allowed(peers, r.dst))
  }

  lemma {:induction false} RouteToAt(ips: seq<Text>, j: nat, linkIndex: int, table: int)
    requires j < |ips|
    ensures |RoutesTo(ips, linkIndex, table)| == |ips|
    ensures RoutesTo(ips, linkIndex, table)[j] == Route(ips[j], linkIndex, table, 0)
  {
    if |ips| == 1 {
      assert RoutesTo(ips[1..], linkIndex, table) == [];
    } else {
      RouteToAt(ips[1..], if j == 0 then 0 else j - 1, linkIndex, table);
    }
  }

  lemma {:induction false} RoutesToMembers(ips: seq<Text>, linkIndex: int, table: int, r: Route)
    ensures r in RoutesTo(ips, linkIndex, table) <==> r == Route(r.dst, linkIndex, table, 0) && r.dst in ips
    ensures |RoutesTo(ips, linkIndex, table)| == |ips|
  {
    if ips == [] {
    } else {
      RoutesToMembers(ips[1..], linkIndex, table, r);
      assert ips == [ips[0]] + ips[1..];
    }
  }

  lemma {:induction false} RoutesOfMembers(peers: seq<PeerConfig>, linkIndex: int, table: int, r: Route)
    ensures r in RoutesOf(peers, linkIndex, table) <==> r == Route(r.dst, linkIndex, table, 0) && Allowed(peers, r.dst)
    ensures |RoutesOf(peers, linkIndex, table)| == TotalIPs(peers)
  {
    if peers == [] {
    } else {
      RoutesToMembers(peers[0].allowedIPs, linkIndex, table, r);
      RoutesOfMembers(peers[1..], linkIndex, table, r);
      AllowedSplit(peers, r.dst);
    }
  }

  lemma AllowedSplit(peers: seq<PeerConfig>, ip: Text)
    requires peers != []
    ensures Allowed(peers, ip) <==> ip in peers[0].allowedIPs || Allowed(peers[1..], ip)
  {
    if Allowed(peers[1..], ip) {
      var i :| 0 <= i < |peers[1..]| && ip in peers[1..][i].allowedIPs;
      assert ip in peers[i + 1].allowedIPs;
    }
    if Allowed(peers, ip) {
      var i :| 0 <= i < |peers| && ip in peers[i].allowedIPs;
      assert i > 0 ==> ip in peers[1..][i - 1].allowedIPs;
    }
  }

  lemma {:induction false} RouteOfAt(peers: seq<PeerConfig>, i: nat, j: nat, linkIndex: int, table: int)
    requires i < |peers| && j < |peers[i].allowedIPs|
    ensures RouteInPlace(RoutesOf(peers, linkIndex, table), peers, i, j, linkIndex, table)
  {
    var first, rest := RoutesTo(peers[0].allowedIPs, linkIndex, table), RoutesOf(peers[1..], linkIndex, table);
    if i == 0 {
      RouteToAt(peers[0].allowedIPs, j, linkIndex, table);
      assert TotalIPs(peers[..0]) == 0;
    } else {
      RouteOfAt(peers[1..], i - 1, j, linkIndex, table);
      RoutesToMembers(peers[0].allowedIPs, linkIndex, table, Route(0, 0, 0, 0));
      assert peers[..i][0] == peers[0] && peers[..i][1..] == peers[1..][..i - 1];
    }
  }

  lemma RoutesExactly(peers: seq<PeerConfig>, linkIndex: int, table: int)
    ensures RoutesForAll(RoutesOf(peers, linkIndex, table), peers, linkIndex, table)
  {
    var routes := RoutesOf(peers, linkIndex, table);
    RoutesOfMembers(peers, linkIndex, table, Route(0, 0, 0, 0));
    forall i, j | 0 <= i < |peers| && 0 <= j < |peers[i].allowedIPs|
      ensures RouteInPlace(routes, peers, i, j, linkIndex, table)
    {
      RouteOfAt(peers, i, j, linkIndex, table);
    }
    forall r
      ensures r in routes <==> r == Route(r.dst, linkIndex, table, 0) && Allowed(peers, r.dst)
    {
      RoutesOfMembers(peers, linkIndex, table, r);
    }
  }

  lemma Regroup(a: seq<Route>, b: seq<Route>, c: seq<Route>)
    ensures a + (b + c) == a + b + c
  {
  }

  method GenerateRoutes(config: Config<seq<PeerConfig>>, linkIndex: int, table: int) returns (routes: seq<Route>)
    ensures routes == RoutesOf(config.peers, linkIndex, table)
    ensures RoutesForAll(routes, config.peers, linkIndex, table)
  {
    RoutesExactly(config.peers, linkIndex, table);
    routes := [];
    for i := 0 to |config.peers|
      invariant RoutesOf(config.peers, linkIndex, table) == routes + RoutesOf(config.peers[i..], linkIndex, table)
    {
      assert config.peers[i..][1..] == config.peers[i + 1..];
      var ips := config.peers[i].allowedIPs;
      Regroup(routes, RoutesTo(ips, linkIndex, table), RoutesOf(config.peers[i + 1..], linkIndex, table));
      routes := AppendRoutes(routes, ips, linkIndex, table);
    }
  }

  method AppendRoutes(before: seq<Route>, ips: seq<Text>, linkIndex: int, table: int) returns (routes: seq<Route>)
    ensures routes == before + RoutesTo(ips, linkIndex, table)
  {
    routes := before;
    for j := 0 to |ips|
      invariant before + RoutesTo(ips, linkIndex, table) == routes + RoutesTo(ips[j..], linkIndex, table)
    {
      assert ips[j..][1..] == ips[j + 1..];
      Regroup(routes, [Route(ips[j], linkIndex, table, 0)], RoutesTo(ips[j + 1..], linkIndex, table));
      routes := routes + [Route(ips[j], linkIndex, table, 0)];
    }
  }

  /** Stands for the text of the IPv6 multicast network; only being equal to it matters. */
  const MULTICAST: Text := 0

  /** The scope that is spared. The program's comment speaks of link scope; in Linux 254 is the scope
      of the host, and 253 that of the link. */
  const SPARED_SCOPE := 254

  /** Routes that are never deleted. */
  predicate Protected(r: Route) {
    r.scope == SPARED_SCOPE || r.dst == MULTICAST
  }

  function Spared(deleted: seq<Route>): seq<Route> {
    if deleted == [] then []
    else (if Protected(deleted[0]) then [deleted[0]] else []) + Spared(deleted[1..])
  }

  /** The networks of the routes are the allowed IPs of the peers, each once. */
  ghost predicate ExactlyAllowed(routes: seq<Route>, peers: seq<PeerConfig>) {
    && DistinctBy(routes, RouteKey())
    && forall ip :: Allowed(peers, ip) <==> exists r :: r in routes && r.dst == ip
  }

  /** The route is the first of its network, which is an allowed IP of some peer. */
  predicate Necessary(peers: seq<PeerConfig>, current: seq<Route>, i: nat)
    requires i < |current|
  {
    Allowed(peers, current[i].dst) && forall j | 0 <= j < i :: current[j].dst != current[i].dst
  }

  lemma ExactlyPermuted(a: seq<Route>, b: seq<Route>, peers: seq<PeerConfig>)
    requires multiset(a) == multiset(b) && ExactlyAllowed(a, peers)
    ensures ExactlyAllowed(b, peers)
  {
    DistinctPermuted(a, b, RouteKey());
    forall r
      ensures r in a <==> r in b
    {
      assert r in multiset(a) <==> r in multiset(b);
    }
  }

  ghost predicate OnLink(routes: seq<Route>, linkIndex: int) {
    forall r | r in routes :: r.linkIndex == linkIndex
  }

  /** The routes of one link: listing filters by the link. */
  class RouteTable {
    const linkIndex: int
    var routes: seq<Route>

    ghost predicate Valid()
      reads this
    {
      OnLink(routes, linkIndex)
    }

    constructor (linkIndex: int, routes: seq<Route>)
      requires OnLink(routes, linkIndex)
      ensures Valid() && this.linkIndex == linkIndex && this.routes == routes
    {
      this.linkIndex, this.routes := linkIndex, routes;
    }

    /** Deletes the first such route. */
    method Delete(r: Route)
      requires r in routes
      modifies this
      ensures multiset(routes) == multiset(old(routes)) - multiset{r}
    {
      var i := 0;
      while routes[i] != r
        invariant 0 <= i < |routes|
        invariant r in routes[i..]
        decreases |routes| - i
      {
        i := i + 1;
      }
      assert routes == routes[..i] + [r] + routes[i + 1..];
      routes := routes[..i] + routes[i + 1..];
    }

    /** A second route of the same network would be refused. */
    method Add(r: Route)
      requires forall x | x in routes :: x.dst != r.dst
      modifies this
      ensures routes == old(routes) + [r]
    {
      routes := routes + [r];
    }

    method Reconfig(config: Config<seq<PeerConfig>>, table: int)
      requires Valid()
      modifies this
      ensures Valid()
      ensures var wanted := Wanted(RoutesOf(config.peers, linkIndex, table), RouteKey());
              var s := Scan(old(routes), wanted, RouteKey(), SameLink());
              exists added ::
                && IsAdded(added, s.rest, RouteKey())
                && multiset(routes) == multiset(s.kept + added + Spared(s.deleted))
      ensures ExactlyAllowed(routes, config.peers) <==>
              forall i | 0 <= i < |old(routes)| && Protected(old(routes)[i]) :: Necessary(config.peers, old(routes), i)
    {
      ghost var current := routes;
      var desired := GenerateRoutes(config, linkIndex, table);
      RoutesOfOnLink(config.peers, linkIndex, table);
      ghost var added := Apply(desired);
      EndsExactly(config.peers, desired, current, added, routes, linkIndex, table);
    }

    /** Deletes and adds the difference to the desired routes. */
    method Apply(desired: seq<Route>) returns (ghost addition: seq<Route>)
      requires Valid() && OnLink(desired, linkIndex)
      modifies this
      ensures Valid()
      ensures var s := Scan(old(routes), Wanted(desired, RouteKey()), RouteKey(), SameLink());
              && IsAdded(addition, s.rest, RouteKey())
              && multiset(routes) == multiset(s.kept + addition + Spared(s.deleted))
    {
      ghost var current := routes;
      var added, deleted := DiffRoutes(desired, routes);
      addition := added;
      ghost var s := Scan(current, Wanted(desired, RouteKey()), RouteKey(), SameLink());
      DifferenceReachesDesired(desired, current, added, RouteKey(), SameLink());
      ScanSplits(current, Wanted(desired, RouteKey()), RouteKey(), SameLink());
      DeleteAll(deleted, s.kept);
      AfterDeleting(desired, current, added, routes, linkIndex);
      AddAll(added);
    }

    /** Deletes what has to go, except for protected routes. */
    method DeleteAll(deleted: seq<Route>, ghost kept: seq<Route>)
      requires multiset(routes) == multiset(kept) + multiset(deleted)
      modifies this
      ensures multiset(routes) == multiset(kept) + multiset(Spared(deleted))
    {
      assert deleted[0..] == deleted && deleted[|deleted|..] == [];
      for i := 0 to |deleted|
        invariant multiset(routes) + multiset(Spared(deleted[i..]))
               == multiset(kept) + multiset(Spared(deleted)) + multiset(deleted[i..])
      {
        SplitFirst(deleted, i);
        if Protected(deleted[i]) {
          KeepOne(multiset(routes), deleted[i], multiset(kept) + multiset(Spared(deleted)),
                  multiset(deleted[i + 1..]), multiset(Spared(deleted[i + 1..])));
          continue;
        }
        DropOne(multiset(routes), deleted[i], multiset(kept) + multiset(Spared(deleted)),
                multiset(deleted[i + 1..]), multiset(Spared(deleted[i + 1..])));
        Delete(deleted[i]);
      }
      assert Spared(deleted[|deleted|..]) == [];
      assert multiset(routes) + multiset([]) == multiset(kept) + multiset(Spared(deleted)) + multiset([]);
      assert multiset(routes) + multiset([]) == multiset(routes);
    }

    method AddAll(added: seq<Route>)
      requires Valid() && OnLink(added, linkIndex) && StrictlyBy(added, RouteKey())
      requires forall a, r | a in added && r in routes :: a.dst != r.dst
      modifies this
      ensures Valid() && multiset(routes) == multiset(old(routes)) + multiset(added)
    {
      for i := 0 to |added|
        invariant routes == old(routes) + added[..i]
      {
        assert added[..i + 1] == added[..i] + [added[i]];
        assert forall j | 0 <= j < i :: RouteKey()(added[j]) < RouteKey()(added[i]);
        assert added[i] in added;
        Add(added[i]);
      }
      assert added[..|added|] == added;
    }
  }

  lemma {:induction false} RoutesToOnLink(ips: seq<Text>, linkIndex: int, table: int)
    ensures OnLink(RoutesTo(ips, linkIndex, table), linkIndex)
  {
    if ips == [] {
    } else {
      RoutesToOnLink(ips[1..], linkIndex, table);
    }
  }

  lemma {:induction false} RoutesOfOnLink(peers: seq<PeerConfig>, linkIndex: int, table: int)
    ensures OnLink(RoutesOf(peers, linkIndex, table), linkIndex)
  {
    if peers == [] {
    } else {
      RoutesToOnLink(peers[0].allowedIPs, linkIndex, table);
      RoutesOfOnLink(peers[1..], linkIndex, table);
    }
  }

  lemma {:induction false} WantedOnLink(desired: seq<Route>, linkIndex: int)
    requires OnLink(desired, linkIndex)
    ensures forall k | k in Wanted(desired, RouteKey()) :: Wanted(desired, RouteKey())[k].linkIndex == linkIndex
  {
    if desired == [] {
    } else {
      var last := desired[|desired| - 1];
      assert last in desired;
      WantedOnLink(desired[..|desired| - 1], linkIndex);
    }
  }

  /** On one link, a route that has to go leaves no want of its network behind: either there was none
      or another route satisfies it. */
  lemma {:induction false} NoWantLeft(current: seq<Route>, wanted: map<Text, Route>, linkIndex: int)
    requires OnLink(current, linkIndex) && forall k | k in wanted :: wanted[k].linkIndex == linkIndex
    ensures var s := Scan(current, wanted, RouteKey(), SameLink());
      forall r | r in s.deleted :: r.dst !in s.rest
  {
    if current == [] {
    } else {
      var c := current[0];
      assert c in current;
      if c.dst in wanted {
        NoWantLeft(current[1..], wanted - {c.dst}, linkIndex);
      } else {
        NoWantLeft(current[1..], wanted, linkIndex);
        ScanKeeps(current[1..], wanted, RouteKey(), SameLink());
      }
    }
  }

  lemma {:induction false} SparedWereDeleted(deleted: seq<Route>)
    ensures forall r | r in Spared(deleted) :: r in deleted
  {
    if deleted == [] {
    } else {
      SparedWereDeleted(deleted[1..]);
    }
  }

  /** Once the surplus is deleted, what is to be added is on the link and of networks without a route. */
  lemma AfterDeleting(desired: seq<Route>, current: seq<Route>, added: seq<Route>, routes: seq<Route>, linkIndex: int)
    requires OnLink(desired, linkIndex) && OnLink(current, linkIndex)
    requires IsAdded(added, Scan(current, Wanted(desired, RouteKey()), RouteKey(), SameLink()).rest, RouteKey())
    requires var s := Scan(current, Wanted(desired, RouteKey()), RouteKey(), SameLink());
      multiset(routes) == multiset(s.kept) + multiset(Spared(s.deleted))
    ensures OnLink(routes, linkIndex) && OnLink(added, linkIndex)
    ensures forall a, r | a in added && r in routes :: a.dst != r.dst
  {
    var wanted := Wanted(desired, RouteKey());
    var s := Scan(current, wanted, RouteKey(), SameLink());
    WantedOnLink(desired, linkIndex);
    ScanKeeps(current, wanted, RouteKey(), SameLink());
    ScanSplits(current, wanted, RouteKey(), SameLink());
    NoWantLeft(current, wanted, linkIndex);
    SparedWereDeleted(s.deleted);
    forall r | r in routes
      ensures r.linkIndex == linkIndex && r.dst !in s.rest
    {
      assert r in multiset(routes);
      assert r in s.kept || r in s.deleted;
      assert r in multiset(current);
    }
  }

  lemma SplitFirst(deleted: seq<Route>, i: nat)
    requires i < |deleted|
    ensures multiset(deleted[i..]) == multiset{deleted[i]} + multiset(deleted[i + 1..])
    ensures Protected(deleted[i]) ==>
              multiset(Spared(deleted[i..])) == multiset{deleted[i]} + multiset(Spared(deleted[i + 1..]))
    ensures !Protected(deleted[i]) ==>
              && Spared(deleted[i..]) == Spared(deleted[i + 1..])
              && deleted[i] !in multiset(Spared(deleted[i + 1..]))
  {
    assert deleted[i..] == [deleted[i]] + deleted[i + 1..];
    assert deleted[i..][1..] == deleted[i + 1..];
    if !Protected(deleted[i]) {
      SparedCount(deleted[i + 1..], deleted[i]);
    }
  }

  lemma KeepOne(routes: multiset<Route>, r: Route, others: multiset<Route>, left: multiset<Route>,
                spared: multiset<Route>)
    requires routes + (multiset{r} + spared) == others + (multiset{r} + left)
    ensures routes + spared == others + left
  {
    forall x
      ensures (routes + spared)[x] == (others + left)[x]
    {
      assert (routes + (multiset{r} + spared))[x] == (others + (multiset{r} + left))[x];
    }
  }

  lemma DropOne(routes: multiset<Route>, r: Route, others: multiset<Route>, left: multiset<Route>,
                spared: multiset<Route>)
    requires routes + spared == others + (multiset{r} + left) && r !in spared
    ensures r in routes
    ensures routes - multiset{r} + spared == others + left
  {
    assert (routes + spared)[r] == routes[r];
    assert (others + (multiset{r} + left))[r] >= 1;
    forall x
      ensures (routes - multiset{r} + spared)[x] == (others + left)[x]
    {
      assert (routes + spared)[x] == (others + (multiset{r} + left))[x];
    }
  }

  lemma {:induction false} SparedCount(deleted: seq<Route>, r: Route)
    requires !Protected(r)
    ensures r !in Spared(deleted)
  {
    if deleted == [] {
    } else {
      SparedCount(deleted[1..], r);
    }
  }

  lemma {:induction false} DesiredUnlessSpared(desired: seq<Route>, current: seq<Route>, added: seq<Route>)
    requires IsAdded(added, Scan(current, Wanted(desired, RouteKey()), RouteKey(), SameLink()).rest, RouteKey())
    ensures var wanted := Wanted(desired, RouteKey());
      var s := Scan(current, wanted, RouteKey(), SameLink());
      OnePerWant(s.kept + added + Spared(s.deleted), wanted, RouteKey(), SameLink())
      <==> forall r | r in s.deleted :: !Protected(r)
  {
    var wanted := Wanted(desired, RouteKey());
    var s := Scan(current, wanted, RouteKey(), SameLink());
    DifferenceReachesDesired(desired, current, added, RouteKey(), SameLink());
    var good, extra := s.kept + added, Spared(s.deleted);
    SparedEmpty(s.deleted);
    var all := good + extra;
    if extra == [] {
      assert all == good;
    } else {
      var r := extra[0];
      assert all[|good|] == r;
      assert r in all;
      if RouteKey()(r) in wanted {
        var x :| x in good && RouteKey()(x) == RouteKey()(r);
        var i :| 0 <= i < |good| && good[i] == x;
        assert all[i] == x;
        assert RouteKey()(all[i]) == RouteKey()(all[|good|]);
      }
    }
  }

  lemma {:induction false} SparedEmpty(deleted: seq<Route>)
    ensures Spared(deleted) == [] <==> forall r | r in deleted :: !Protected(r)
  {
    if deleted == [] {
    } else {
      SparedEmpty(deleted[1..]);
      assert deleted == [deleted[0]] + deleted[1..];
    }
  }

  /** Nothing desired asks for the current route, or an earlier one serves. */
  predicate Surplus(desired: seq<Route>, current: seq<Route>, i: nat)
    requires i < |current|
  {
    || (forall d | d in desired :: d.dst != current[i].dst)
    || (exists j :: 0 <= j < i && current[j].dst == current[i].dst)
  }

  /** The scan keeps a protected route only if it is the first of its network, which is wanted. */
  ghost predicate Harmless(current: seq<Route>, wanted: map<Text, Route>, i: nat)
    requires i < |current|
  {
    Protected(current[i]) ==> current[i].dst in wanted && forall j | 0 <= j < i :: current[j].dst != current[i].dst
  }

  ghost predicate AllHarmless(current: seq<Route>, wanted: map<Text, Route>) {
    forall i | 0 <= i < |current| :: Harmless(current, wanted, i)
  }

  lemma HarmlessTail(current: seq<Route>, wanted: map<Text, Route>)
    requires current != []
    ensures AllHarmless(current, wanted) <==>
            Harmless(current, wanted, 0) && AllHarmless(current[1..], wanted - {current[0].dst})
  {
    var rest, fewer := current[1..], wanted - {current[0].dst};
    forall i | 0 <= i < |rest|
      ensures Harmless(rest, fewer, i) <==> Harmless(current, wanted, i + 1)
    {
      assert rest[i] == current[i + 1];
      assert forall j | 0 <= j < i :: rest[j] == current[j + 1];
      assert (forall j | 0 <= j < i + 1 :: current[j].dst != current[i + 1].dst)
        <==> current[0].dst != current[i + 1].dst && forall j | 0 <= j < i :: rest[j].dst != rest[i].dst;
    }
    if Harmless(current, wanted, 0) && AllHarmless(rest, fewer) {
      forall i | 0 <= i < |current|
        ensures Harmless(current, wanted, i)
      {
        assert i > 0 ==> Harmless(rest, fewer, i - 1);
      }
    }
  }

  lemma {:induction false} DeletedProtected(current: seq<Route>, wanted: map<Text, Route>, linkIndex: int)
    requires OnLink(current, linkIndex) && forall k | k in wanted :: wanted[k].linkIndex == linkIndex
    ensures (forall r | r in Scan(current, wanted, RouteKey(), SameLink()).deleted :: !Protected(r))
            <==> AllHarmless(current, wanted)
  {
    if current == [] {
    } else {
      var c := current[0];
      assert c in current;
      HarmlessTail(current, wanted);
      if c.dst !in wanted {
        assert wanted - {c.dst} == wanted;
      }
      DeletedProtected(current[1..], wanted - {c.dst}, linkIndex);
    }
  }

  /** The link ends up with exactly the desired routes if and only if none of its protected routes is
      surplus. */
  lemma DesiredUnlessProtected(desired: seq<Route>, current: seq<Route>, added: seq<Route>, linkIndex: int)
    requires OnLink(desired, linkIndex) && OnLink(current, linkIndex)
    requires IsAdded(added, Scan(current, Wanted(desired, RouteKey()), RouteKey(), SameLink()).rest, RouteKey())
    ensures var wanted := Wanted(desired, RouteKey());
      var s := Scan(current, wanted, RouteKey(), SameLink());
      OnePerWant(s.kept + added + Spared(s.deleted), wanted, RouteKey(), SameLink())
      <==> forall i | 0 <= i < |current| && Surplus(desired, current, i) :: !Protected(current[i])
  {
    var wanted := Wanted(desired, RouteKey());
    WantedOnLink(desired, linkIndex);
    WantedKeyed(desired, RouteKey());
    DesiredUnlessSpared(desired, current, added);
    DeletedProtected(current, wanted, linkIndex);
    forall i | 0 <= i < |current|
      ensures Harmless(current, wanted, i) <==> (Surplus(desired, current, i) ==> !Protected(current[i]))
    {
      var k := current[i].dst;
      assert k in wanted <==> exists d :: d in desired && d.dst == k by {
        assert k in wanted <==> exists m :: 0 <= m < |desired| && RouteKey()(desired[m]) == k;
      }
    }
  }

  lemma AllowedIsDesired(peers: seq<PeerConfig>, linkIndex: int, table: int, ip: Text)
    ensures var desired := RoutesOf(peers, linkIndex, table);
      && (Allowed(peers, ip) <==> exists d :: d in desired && d.dst == ip)
      && (Allowed(peers, ip) <==> ip in Wanted(desired, RouteKey()))
  {
    var desired := RoutesOf(peers, linkIndex, table);
    RoutesOfMembers(peers, linkIndex, table, Route(ip, linkIndex, table, 0));
    WantedKeyed(desired, RouteKey());
    forall d | d in desired && d.dst == ip
      ensures Allowed(peers, ip)
    {
      RoutesOfMembers(peers, linkIndex, table, d);
    }
    assert ip in Wanted(desired, RouteKey()) <==> exists i :: 0 <= i < |desired| && RouteKey()(desired[i]) == ip;
    if d :| d in desired && d.dst == ip {
      var i :| 0 <= i < |desired| && desired[i] == d;
      assert RouteKey()(desired[i]) == ip;
    }
  }

  /** On the link, having the desired routes means having those of the allowed IPs. */
  lemma OneEach(peers: seq<PeerConfig>, desired: seq<Route>, entries: seq<Route>, linkIndex: int, table: int)
    requires desired == RoutesOf(peers, linkIndex, table) && OnLink(entries, linkIndex)
    ensures OnePerWant(entries, Wanted(desired, RouteKey()), RouteKey(), SameLink()) <==> ExactlyAllowed(entries, peers)
  {
    var wanted := Wanted(desired, RouteKey());
    RoutesOfOnLink(peers, linkIndex, table);
    WantedOnLink(desired, linkIndex);
    forall ip
      ensures Allowed(peers, ip) <==> ip in wanted
    {
      AllowedIsDesired(peers, linkIndex, table, ip);
    }
    assert forall x | x in entries :: RouteKey()(x) == x.dst && (x.dst in wanted ==> SameLink()(wanted[x.dst], x));
  }

  lemma OnLinkPermuted(a: seq<Route>, b: seq<Route>, linkIndex: int)
    requires multiset(a) == multiset(b) && OnLink(a, linkIndex)
    ensures OnLink(b, linkIndex)
  {
    forall r | r in b
      ensures r.linkIndex == linkIndex
    {
      assert r in multiset(a);
    }
  }

  lemma NecessaryIsNoSurplus(peers: seq<PeerConfig>, current: seq<Route>, linkIndex: int, table: int, i: nat)
    requires i < |current|
    ensures Necessary(peers, current, i) <==> !Surplus(RoutesOf(peers, linkIndex, table), current, i)
  {
    AllowedIsDesired(peers, linkIndex, table, current[i].dst);
  }

  lemma EndsExactly(peers: seq<PeerConfig>, desired: seq<Route>, current: seq<Route>, added: seq<Route>,
                    routes: seq<Route>, linkIndex: int, table: int)
    requires desired == RoutesOf(peers, linkIndex, table) && OnLink(current, linkIndex) && OnLink(routes, linkIndex)
    requires var s := Scan(current, Wanted(desired, RouteKey()), RouteKey(), SameLink());
      IsAdded(added, s.rest, RouteKey()) && multiset(routes) == multiset(s.kept + added + Spared(s.deleted))
    ensures ExactlyAllowed(routes, peers) <==>
            forall i | 0 <= i < |current| && Protected(current[i]) :: Necessary(peers, current, i)
  {
    var s := Scan(current, Wanted(desired, RouteKey()), RouteKey(), SameLink());
    var entries := s.kept + added + Spared(s.deleted);
    RoutesOfOnLink(peers, linkIndex, table);
    DesiredUnlessProtected(desired, current, added, linkIndex);
    forall i | 0 <= i < |current|
      ensures Necessary(peers, current, i) <==> !Surplus(desired, current, i)
    {
      NecessaryIsNoSurplus(peers, current, linkIndex, table, i);
    }
    OnLinkPermuted(routes, entries, linkIndex);
    OneEach(peers, desired, entries, linkIndex, table);
    SameExactly(entries, routes, peers);
  }

  lemma SameExactly(a: seq<Route>, b: seq<Route>, peers: seq<PeerConfig>)
    requires multiset(a) == multiset(b)
    ensures ExactlyAllowed(a, peers) <==> ExactlyAllowed(b, peers)
  {
    if ExactlyAllowed(a, peers) {
      ExactlyPermuted(a, b, peers);
    }
    if ExactlyAllowed(b, peers) {
      ExactlyPermuted(b, a, peers);
    }
  }

  /** A host-scope route that no peer asks for remains. */
  lemma ProtectedRemains()
    ensures var r := Route(5, 7, 0, SPARED_SCOPE);
      var s := Scan([r], Wanted([], RouteKey()), RouteKey(), SameLink());
      && s.deleted == [r] && Spared(s.deleted) == [r]
      && !OnePerWant(s.kept + [] + Spared(s.deleted), Wanted([], RouteKey()), RouteKey(), SameLink())
  {
    var r := Route(5, 7, 0, SPARED_SCOPE);
    assert [r][0] == r && [r][1..] == [];
    assert Surplus([], [r], 0);
    DesiredUnlessProtected([], [r], [], 7);
  }
}
