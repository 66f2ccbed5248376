/** The tables of the prober: endpoints of a peer by address and by ID, the choice of the active
    endpoint, and the peers by key. Calls run one after another. */
module PeerTables {
  import opened Collections
  import opened Options
  import opened Ticker

  type Address = int

  type Key = int

  const MAX_DURATION := 0x7fff_ffff_ffff_ffff

  /** A 64-bit duration. */
  type Duration = d: int | -MAX_DURATION - 1 <= d <= MAX_DURATION

  datatype EndpointStatus = EndpointStatus(state: State, rtt: Duration)

  datatype Active = Active(endpoint: Address, rtt: int)

  lemma SetOfNext(addresses: seq<Address>, i: nat)
    requires i < |addresses|
    ensures SetOf(addresses[..i + 1]) == SetOf(addresses[..i]) + {addresses[i]}
  {
    assert addresses[..i + 1] == addresses[..i] + [addresses[i]];
  }

  /** The two tables are inverse to each other, and every ID still stands for the only address it
      was ever given to. */
  ghost predicate TablesOk(ids: map<Address, nat>, endpoints: map<nat, Address>, issued: map<nat, Address>) {
    && (forall a | a in ids :: ids[a] in endpoints && endpoints[ids[a]] == a)
    && (forall id | id in endpoints :: endpoints[id] in ids && ids[endpoints[id]] == id)
    && (forall id | id in endpoints :: id in issued && issued[id] == endpoints[id])
  }

  /** What a peer knows of its endpoints: the IDs of the live ones, the addresses of all IDs, what the
      endpoints reported, and the status that was published. */
  datatype Tables = Tables(ids: map<Address, nat>, issued: map<nat, Address>,
                           statuses: map<nat, EndpointStatus>, status: Option<Active>)

  const NO_TABLES := Tables(map[], map[], map[], None)

  /** Exactly the given addresses are live. Those that were live before keep their IDs, the others get
      IDs that were never used; what was reported and published stays. */
  ghost predicate Updated(before: Tables, addresses: seq<Address>, after: Tables) {
    && after.ids.Keys == SetOf(addresses)
    && (forall a | a in after.ids ::
          if a in before.ids then after.ids[a] == before.ids[a] else after.ids[a] !in before.issued)
    && (forall id | id in before.issued :: id in after.issued && after.issued[id] == before.issued[id])
    && after.statuses == before.statuses && after.status == before.status
  }

  class DiscoPeer {
    const peerPublicDiscoKey: Key
    var closed: bool
    var endpointIDCounter: nat
    var endpointToEndpointID: map<Address, nat>
    var endpoints: map<nat, Address>
    var priorities: map<nat, Priority>
    var endpointStatusMap: map<nat, EndpointStatus>
    var status: Option<Active>

    /** Which address each ID was ever given to. */
    ghost var issued: map<nat, Address>

    ghost predicate Valid()
      reads this
    {
      && TablesOk(endpointToEndpointID, endpoints, issued)
      && (forall id | id in issued :: id <= endpointIDCounter)
      && endpointStatusMap.Keys <= issued.Keys
      && (closed ==> endpoints.Keys == {})
    }

    /** The addresses of the live endpoints. */
    ghost function Live(): set<Address>
      reads this
    {
      endpointToEndpointID.Keys
    }

    ghost function Snapshot(): Tables
      reads this
    {
      Tables(endpointToEndpointID, issued, endpointStatusMap, status)
    }

    /** IDs keep their addresses for ever. */
    twostate predicate IssuedKept()
      reads this
    {
      forall id | id in old(issued) :: id in issued && issued[id] == old(issued)[id]
    }

    constructor (key: Key)
      ensures Valid() && peerPublicDiscoKey == key && !closed && Snapshot() == NO_TABLES
    {
      peerPublicDiscoKey := key;
      closed, endpointIDCounter := false, 0;
      endpointToEndpointID, endpoints, priorities, endpointStatusMap := map[], map[], map[], map[];
      status, issued := None, map[];
    }

    /** Afterwards exactly the given addresses are live. Those that were live before keep their IDs,
        the others get IDs that were never used. */
    method SetEndpoints(addresses: seq<Address>)
      requires Valid()
      modifies this
      ensures Valid() && closed == old(closed) && IssuedKept()
      ensures closed ==> Live() == {}
      ensures !closed ==> Updated(old(Snapshot()), addresses, Snapshot())
      ensures endpointStatusMap == old(endpointStatusMap) && status == old(status)
    {
      assert forall id | id > endpointIDCounter :: id !in issued;
      if closed {
        CloseAllEndpoints();
        return;
      }
      OpenNew(addresses);
      CloseOld(addresses);
    }

    /** Opens an endpoint for every address that has none. */
    method OpenNew(addresses: seq<Address>)
      requires Valid() && !closed
      modifies this
      ensures Valid() && !closed && IssuedKept()
      ensures Live() == old(Live()) + SetOf(addresses)
      ensures forall a | a in Live() ::
                if a in old(endpointToEndpointID) then endpointToEndpointID[a] == old(endpointToEndpointID)[a]
                else endpointToEndpointID[a] > old(endpointIDCounter)
      ensures endpointStatusMap == old(endpointStatusMap) && status == old(status)
    {
      endpointIDCounter := endpointIDCounter + 1;
      var id := endpointIDCounter;
      for i := 0 to |addresses|
        invariant Valid() && !closed && IssuedKept()
        invariant id == endpointIDCounter > old(endpointIDCounter) && id !in issued
        invariant endpointToEndpointID.Keys == old(endpointToEndpointID).Keys + SetOf(addresses[..i])
        invariant forall a | a in endpointToEndpointID ::
                    if a in old(endpointToEndpointID) then endpointToEndpointID[a] == old(endpointToEndpointID)[a]
                    else endpointToEndpointID[a] > old(endpointIDCounter)
        invariant endpointStatusMap == old(endpointStatusMap) && status == old(status)
      {
        var ep := addresses[i];
        SetOfNext(addresses, i);
        if ep in endpointToEndpointID {
          continue;
        }
        OpenOne(ep, id);
        endpointIDCounter := endpointIDCounter + 1;
        id := endpointIDCounter;
      }
      assert addresses[..|addresses|] == addresses;
    }

    method OpenOne(ep: Address, id: nat)
      requires Valid() && !closed && ep !in endpointToEndpointID && id !in issued && id <= endpointIDCounter
      modifies this`endpointToEndpointID, this`endpoints, this`issued, this`priorities
      ensures Valid()
      ensures endpointToEndpointID == old(endpointToEndpointID)[ep := id]
      ensures endpoints == old(endpoints)[id := ep]
      ensures issued == old(issued)[id := ep] && priorities == old(priorities)[id := Primary]
    {
      endpointToEndpointID := endpointToEndpointID[ep := id];
      endpoints := endpoints[id := ep];
      issued := issued[id := ep];
      priorities := priorities[id := Primary];
    }

    /** Closes every live endpoint whose address is not among the given ones. */
    method CloseOld(addresses: seq<Address>)
      requires Valid()
      modifies this`endpointToEndpointID, this`endpoints
      ensures Valid()
      ensures Live() == old(Live()) * SetOf(addresses)
      ensures forall a | a in Live() :: endpointToEndpointID[a] == old(endpointToEndpointID)[a]
    {
      var keep := SetOf(addresses);
      var left := endpoints.Keys;
      while |left| != 0
        invariant left <= endpoints.Keys <= old(endpoints).Keys
        invariant Valid()
        invariant forall id | id in endpoints :: id in left || endpoints[id] in keep
        invariant forall a | a in endpointToEndpointID ::
                    a in old(endpointToEndpointID) && endpointToEndpointID[a] == old(endpointToEndpointID)[a]
        invariant forall a | a in old(endpointToEndpointID) && a in keep :: a in endpointToEndpointID
        decreases |left|
      {
        var id :| id in left;
        left := left - {id};
        var ep := endpoints[id];
        if ep in keep {
          continue;
        }
        endpointToEndpointID := endpointToEndpointID - {ep};
        endpoints := endpoints - {id};
      }
      assert left == {};
      assert forall a | a in Live() :: endpoints[endpointToEndpointID[a]] == a && a in keep;
      assert forall a :: a in Live() <==> a in old(Live()) && a in keep;
    }

    method CloseAllEndpoints()
      requires Valid()
      modifies this`endpointToEndpointID, this`endpoints
      ensures Valid() && Live() == {} && forall id :: id !in endpoints
    {
      CloseOld([]);
      assert Live() == {};
      assert forall id :: id !in endpoints;
    }

    /** Closing a second time does nothing. */
    method Close()
      requires Valid()
      modifies this
      ensures Valid() && closed && Live() == {} && issued == old(issued)
    {
      if closed {
        assert forall a :: a !in Live();
        return;
      }
      CloseAllEndpoints();
      closed := true;
    }

    /** A notifier of endpoint `id` reports a status; it may do so after the endpoint was closed. */
    method StatusChanged(id: nat, s: EndpointStatus)
      requires Valid() && id in issued
      modifies this
      ensures Valid() && issued == old(issued) && endpoints == old(endpoints)
      ensures endpointStatusMap == old(endpointStatusMap)[id := s]
      ensures Published(old(status))
    {
      endpointStatusMap := endpointStatusMap[id := s];
      UpdateStatus();
    }

    /** A live endpoint that is reported Connected. */
    ghost predicate Candidate(id: nat)
      reads this`endpoints, this`endpointStatusMap
    {
      && id in endpoints && id in endpointStatusMap
      && endpointStatusMap[id].state == Connected
      && endpointStatusMap[id].rtt < MAX_DURATION
    }

    /** A candidate with the least round-trip time. */
    ghost predicate Best(id: nat)
      reads this`endpoints, this`endpointStatusMap
    {
      Candidate(id) && forall other | Candidate(other) :: endpointStatusMap[id].rtt <= endpointStatusMap[other].rtt
    }

    /** Whatever the order in which the tables are visited: some best endpoint is published and made
        Primary, and all others Sub; without any candidate the published status stays and all live
        endpoints are Primary. */
    ghost predicate Published(before: Option<Active>)
      reads this
    {
      && priorities.Keys >= endpoints.Keys
      && (forall id | id in endpoints :: IsPriority(priorities[id]))
      && if exists id :: Candidate(id) then
           exists best :: Best(best)
             && status == Some(Active(endpoints[best], endpointStatusMap[best].rtt))
             && forall id | id in endpoints :: priorities[id] == if id == best then Primary else Sub
         else status == before && forall id | id in endpoints :: priorities[id] == Primary
    }

    method UpdateStatus()
      requires Valid()
      modifies this`priorities, this`status
      ensures Valid() && Published(old(status))
    {
      var minRTT, minEndpoint, minID := FindMin();
      SetPriorities(minRTT == MAX_DURATION, minID);
      if minRTT == MAX_DURATION {
        return;
      }
      status := Some(Active(minEndpoint, minRTT));
      assert Best(minID);
    }

    method FindMin() returns (minRTT: Duration, minEndpoint: Address, minID: nat)
      ensures minRTT == MAX_DURATION <==> forall id :: !Candidate(id)
      ensures minRTT < MAX_DURATION ==>
                Best(minID) && minEndpoint == endpoints[minID] && minRTT == endpointStatusMap[minID].rtt
    {
      minRTT, minEndpoint, minID := MAX_DURATION, 0, 0;
      var left := endpointStatusMap.Keys;
      while |left| != 0
        invariant left <= endpointStatusMap.Keys
        invariant minRTT < MAX_DURATION ==>
                    Candidate(minID) && minEndpoint == endpoints[minID] && minRTT == endpointStatusMap[minID].rtt
        invariant forall id | Candidate(id) && id !in left :: minRTT <= endpointStatusMap[id].rtt
        decreases |left|
      {
        var key :| key in left;
        left := left - {key};
        var value := endpointStatusMap[key];
        if value.state != Connected || minRTT < value.rtt {
          continue;
        }
        if key !in endpoints {
          continue;
        }
        minRTT := value.rtt;
        minEndpoint := endpoints[key];
        minID := key;
      }
    }

    method SetPriorities(none: bool, minID: nat)
      modifies this`priorities
      ensures priorities.Keys >= endpoints.Keys
      ensures forall id | id in endpoints :: priorities[id] == if none || id == minID then Primary else Sub
    {
      var left := endpoints.Keys;
      while |left| != 0
        invariant left <= endpoints.Keys
        invariant forall id | id in endpoints && id !in left ::
                    id in priorities && priorities[id] == if none || id == minID then Primary else Sub
        decreases |left|
      {
        var key :| key in left;
        left := left - {key};
        priorities := priorities[key := if none || key == minID then Primary else Sub];
      }
    }
  }

  // ----- all peers

  function Known(tables: map<Key, Tables>, k: Key): Tables {
    if k in tables then tables[k] else NO_TABLES
  }

  class Disco {
    var peers: map<Key, DiscoPeer>

    /** All peers that were ever made, and the tables of those that are listed. */
    ghost var made: set<DiscoPeer>
    ghost var tables: map<Key, Tables>

    /** A peer is in the table under its key until it is closed. */
    ghost predicate Valid()
      reads this, made
    {
      && (forall k | k in tables :: k in peers)
      && (forall k | k in peers ::
            && k in tables
            && peers[k] in made && peers[k].peerPublicDiscoKey == k && !peers[k].closed
            && peers[k].Snapshot() == tables[k])
      && (forall p | p in made ::
            && p.Valid()
            && (p.closed || (p.peerPublicDiscoKey in peers && peers[p.peerPublicDiscoKey] == p)))
    }

    constructor ()
      ensures Valid() && peers == map[] && made == {}
    {
      peers, made, tables := map[], {}, map[];
    }

    method AddPeer(k: Key) returns (peer: DiscoPeer)
      requires Valid()
      modifies this
      ensures Valid() && k in peers && peers[k] == peer
      ensures k in old(peers) ==> unchanged(this)
      ensures k !in old(peers) ==> fresh(peer) && tables[k] == NO_TABLES
      ensures made >= old(made) && fresh(made - old(made))
      ensures forall l :: l in peers <==> l in old(peers) || l == k
      ensures forall l | l in old(peers) :: peers[l] == old(peers)[l] && tables[l] == old(tables)[l]
    {
      if k in peers {
        return peers[k];
      }
      peer := new DiscoPeer(k);
      Store(k, peer);
    }

    method Store(k: Key, peer: DiscoPeer)
      requires Valid() && k !in peers && peer !in made
      requires peer.Valid() && !peer.closed && peer.Snapshot() == NO_TABLES && peer.peerPublicDiscoKey == k
      modifies this
      ensures Valid() && made == old(made) + {peer}
      ensures peers == old(peers)[k := peer] && tables == old(tables)[k := NO_TABLES]
    {
      peers, made, tables := peers[k := peer], made + {peer}, tables[k := NO_TABLES];
    }

    /** Afterwards the live peers are exactly the keys of the map, each with exactly its endpoints.
        Peers that were there before are the same objects; their endpoints that are still wanted keep
        their IDs, new ones get new IDs, and what they reported and published stays. */
    method SetPeers(wanted: map<Key, seq<Address>>)
      requires Valid()
      modifies this, made
      ensures Valid() && made >= old(made) && fresh(made - old(made))
      ensures peers.Keys == wanted.Keys
      ensures forall k | k in wanted :: peers[k].Live() == SetOf(wanted[k])
      ensures forall k | k in wanted && k in old(peers) ::
                peers[k] == old(peers)[k] && Updated(old(peers[k].Snapshot()), wanted[k], peers[k].Snapshot())
      ensures forall k | k in wanted && k !in old(peers) ::
                Updated(NO_TABLES, wanted[k], peers[k].Snapshot())
      ensures forall k | k in old(peers) && k !in wanted :: old(peers)[k].closed
    {
      AddAll(wanted);
      CloseOthers(wanted);
      assert forall k :: k in peers <==> k in wanted;
    }

    method AddAll(wanted: map<Key, seq<Address>>)
      requires Valid()
      modifies this, made
      ensures Valid() && made >= old(made) && fresh(made - old(made))
      ensures forall k | k in wanted :: k in tables && Updated(Known(old(tables), k), wanted[k], tables[k])
      ensures forall k | k in old(peers) :: k in peers && peers[k] == old(peers)[k]
    {
      ghost var before, tables0 := peers, tables;
      var left := wanted.Keys;
      while |left| != 0
        invariant forall k | k in left :: k in wanted
        invariant Valid() && made >= old(made) && fresh(made - old(made))
        invariant forall k | k in wanted && k !in left ::
                    k in tables && Updated(Known(tables0, k), wanted[k], tables[k])
        invariant forall k | k in left :: Known(tables, k) == Known(tables0, k)
        invariant forall k | k in before :: k in peers && peers[k] == before[k]
        decreases |left|
      {
        Inhabited(left);
        var k :| k in left;
        left := left - {k};
        SetPeer(k, wanted[k]);
      }
    }

    method SetPeer(k: Key, addresses: seq<Address>)
      requires Valid()
      modifies this, made
      ensures Valid() && made >= old(made) && fresh(made - old(made))
      ensures k in tables && Updated(Known(old(tables), k), addresses, tables[k])
      ensures forall l | l != k :: (l in tables <==> l in old(tables)) && Known(tables, l) == Known(old(tables), l)
      ensures forall l | l in old(peers) :: l in peers && peers[l] == old(peers)[l]
    {
      var peer := AddPeer(k);
      SetPeerEndpoints(peer, addresses);
    }

    method SetPeerEndpoints(peer: DiscoPeer, addresses: seq<Address>)
      requires Valid() && peer.peerPublicDiscoKey in peers && peers[peer.peerPublicDiscoKey] == peer
      modifies this`tables, peer
      ensures Valid() && tables == old(tables)[peer.peerPublicDiscoKey := peer.Snapshot()]
      ensures Updated(old(peer.Snapshot()), addresses, peer.Snapshot())
    {
      peer.SetEndpoints(addresses);
      tables := tables[peer.peerPublicDiscoKey := peer.Snapshot()];
    }

    /** Closes the peers that are not wanted; closing a peer takes it out of the table. */
    method CloseOthers(wanted: map<Key, seq<Address>>)
      requires Valid()
      modifies this`peers, this`tables, made
      ensures Valid()
      ensures forall k :: k in peers <==> k in old(peers) && k in wanted
      ensures forall k | k in peers :: k in tables && tables[k] == old(tables)[k] && peers[k] == old(peers)[k]
    {
      ghost var before, tables0 := peers, tables;
      var left := peers.Keys;
      while |left| != 0
        invariant Valid()
        invariant forall k | k in left :: k in peers
        invariant forall k | k in peers :: k in left || k in wanted
        invariant forall k | k in before && k in wanted :: k in peers
        invariant forall k | k in peers :: k in before && peers[k] == before[k]
        invariant forall k | k in peers :: k in tables && k in tables0 && tables[k] == tables0[k]
        decreases |left|
      {
        Inhabited(left);
        var k :| k in left;
        left := left - {k};
        if k !in wanted {
          ClosePeer(k);
        }
      }
    }

    method ClosePeer(k: Key)
      requires Valid() && k in peers
      modifies this`peers, this`tables, peers[k]
      ensures Valid()
      ensures forall l :: l in peers <==> l in old(peers) && l != k
      ensures forall l | l in peers :: l in tables && tables[l] == old(tables)[l] && peers[l] == old(peers)[l]
    {
      var peer := peers[k];
      peer.Close();
      Remove(k, peer);
    }

    /** Valid, except that the peer of the key is closed. */
    ghost predicate ValidBut(k: Key)
      reads this, made
    {
      && (forall l | l in tables :: l in peers)
      && (forall l | l in peers ::
            && l in tables && peers[l] in made && peers[l].peerPublicDiscoKey == l
            && (l != k ==> !peers[l].closed && peers[l].Snapshot() == tables[l]))
      && (forall p | p in made ::
            && p.Valid()
            && (p.closed || (p.peerPublicDiscoKey in peers && peers[p.peerPublicDiscoKey] == p)))
    }

    /** A peer that was closed tells so, and is taken out of the table. */
    method Remove(k: Key, peer: DiscoPeer)
      requires k in peers && peers[k] == peer && peer.peerPublicDiscoKey == k && peer.closed
      requires ValidBut(k)
      modifies this`peers, this`tables
      ensures Valid()
      ensures forall l :: l in peers <==> l in old(peers) && l != k
      ensures forall l | l in peers :: l in tables && tables[l] == old(tables)[l] && peers[l] == old(peers)[l]
    {
      peers, tables := peers - {k}, tables - {k};
    }
  }
}
