/** Two nodes probe each other's endpoints over a network that loses, reorders and duplicates
    packets. Pings and pongs carry the endpoint ID and packet ID of the ping's sender. */
module PingPong {

  datatype Node = A | B

  function Peer(n: Node): Node {
    if n == A then B else A
  }

  datatype Header = Ping | Pong

  /** `origin` is the endpoint object whose ping started the exchange; it is not on the wire, and no
      step looks at it. */
  datatype Packet = Packet(header: Header, src: Node, endpointID: nat, id: nat, origin: nat)

  /** A pong in the channel of an endpoint. */
  datatype Reply = Reply(id: nat, origin: nat)

  /** An endpoint object; it exists on when it was closed and taken out of the table. */
  datatype Endpoint = Endpoint(owner: Node, endpointID: nat, address: int, packetID: nat,
                               outstanding: set<nat>, channel: seq<Reply>)

  /** A pong was accepted: the object that did, the ping's ID, and the object that sent the ping. */
  datatype Credit = Credit(endpoint: nat, id: nat, origin: nat)

  /** `sent` is everything the network may still deliver, any number of times; `heard` are the pings
      that reached the other node. */
  datatype System = System(
    objects: seq<Endpoint>, table: map<(Node, nat), nat>, counter: map<Node, nat>,
    sent: set<Packet>, heard: set<Packet>, credits: seq<Credit>)

  datatype Step =
    | Open(node: Node, address: int)
    | Close(node: Node, endpointID: nat)
    | SendPing(endpoint: nat)
    | DeliverPing(p: Packet)
    | DeliverPong(p: Packet)
    | HandlePong(endpoint: nat, older: set<nat>)
    | Expire(endpoint: nat, id: nat)

  const CHANNEL := 1

  predicate Enabled(s: System, step: Step) {
    match step
    case Open(node, _) => node in s.counter
    case Close(node, eid) => (node, eid) in s.table
    case SendPing(o) => o < |s.objects|
    case DeliverPing(p) => p in s.sent && p.header == Ping
    case DeliverPong(p) =>
      p in s.sent && p.header == Pong
      && ((Peer(p.src), p.endpointID) in s.table ==>
            var o := s.table[(Peer(p.src), p.endpointID)];
            o < |s.objects| && |s.objects[o].channel| < CHANNEL)
    case HandlePong(o, older) =>
      o < |s.objects| && s.objects[o].channel != []
      && forall id | id in older :: id < s.objects[o].channel[0].id
    case Expire(o, id) => o < |s.objects| && id in s.objects[o].outstanding
  }

  /** The wire part of the steps looks up endpoints by ID only. Handling a pong for an outstanding
      ping also forgets `older` pings. */
  function Next(s: System, step: Step): System
    requires Enabled(s, step)
  {
    match step
    case Open(node, address) =>
      var eid := s.counter[node] + 1;
      s.(objects := s.objects + [Endpoint(node, eid, address, 0, {}, [])],
         table := s.table[(node, eid) := |s.objects|],
         counter := s.counter[node := eid])
    case Close(node, eid) =>
      s.(table := s.table - {(node, eid)})
    case SendPing(o) =>
      var e := s.objects[o];
      s.(objects := s.objects[o := e.(packetID := e.packetID + 1, outstanding := e.outstanding + {e.packetID})],
         sent := s.sent + {Packet(Ping, e.owner, e.endpointID, e.packetID, o)})
    case DeliverPing(p) =>
      s.(heard := s.heard + {p},
         sent := s.sent + {Packet(Pong, Peer(p.src), p.endpointID, p.id, p.origin)})
    case DeliverPong(p) =>
      if (Peer(p.src), p.endpointID) !in s.table then s
      else
        var o := s.table[(Peer(p.src), p.endpointID)];
        var e := s.objects[o];
        s.(objects := s.objects[o := e.(channel := e.channel + [Reply(p.id, p.origin)])])
    case HandlePong(o, older) =>
      var e := s.objects[o];
      var r := e.channel[0];
      if r.id in e.outstanding then
        s.(objects := s.objects[o := e.(channel := e.channel[1..], outstanding := e.outstanding - {r.id} - older)],
           credits := s.credits + [Credit(o, r.id, r.origin)])
      else
        s.(objects := s.objects[o := e.(channel := e.channel[1..])])
    case Expire(o, id) =>
      var e := s.objects[o];
      s.(objects := s.objects[o := e.(outstanding := e.outstanding - {id})])
  }

  const START := System([], map[], map[A := 0, B := 0], {}, {}, [])

  ghost predicate IsRun(s: System, steps: seq<Step>)
    decreases |steps|
  {
    steps == [] || (Enabled(s, steps[0]) && IsRun(Next(s, steps[0]), steps[1..]))
  }

  ghost function After(s: System, steps: seq<Step>): System
    requires IsRun(s, steps)
    decreases |steps|
  {
    if steps == [] then s else After(Next(s, steps[0]), steps[1..])
  }

  // ----- invariants

  /** IDs are never used twice by a node, so an ID stands for one object. */
  ghost predicate ObjectsOk(s: System) {
    && (forall n: Node :: n in s.counter)
    && (forall o | 0 <= o < |s.objects| ::
          && s.objects[o].endpointID <= s.counter[s.objects[o].owner]
          && (forall id | id in s.objects[o].outstanding :: id < s.objects[o].packetID))
    && (forall o, u | 0 <= o < |s.objects| && 0 <= u < |s.objects| ::
          s.objects[o].owner == s.objects[u].owner && s.objects[o].endpointID == s.objects[u].endpointID ==> o == u)
  }

  ghost predicate TableOk(s: System) {
    forall k | k in s.table ::
      s.table[k] < |s.objects| && s.objects[s.table[k]].owner == k.0 && s.objects[s.table[k]].endpointID == k.1
  }

  function PingOf(e: Endpoint, id: nat, origin: nat): Packet {
    Packet(Ping, e.owner, e.endpointID, id, origin)
  }

  /** A packet in the network stems from a ping its origin sent, and a pong from one that was heard. */
  ghost predicate PacketOk(s: System, p: Packet) {
    && p.origin < |s.objects|
    && var e := s.objects[p.origin];
    && p.endpointID == e.endpointID
    && p.id < e.packetID
    && (if p.header == Ping then p.src == e.owner
        else p.src == Peer(e.owner) && PingOf(e, p.id, p.origin) in s.heard)
  }

  ghost predicate NetworkOk(s: System) {
    forall p | p in s.sent :: PacketOk(s, p)
  }

  ghost predicate ChannelsOk(s: System) {
    forall o, i | 0 <= o < |s.objects| && 0 <= i < |s.objects[o].channel| ::
      var r := s.objects[o].channel[i];
      Packet(Pong, Peer(s.objects[o].owner), s.objects[o].endpointID, r.id, r.origin) in s.sent
  }

  /** Each credit goes to the sender of the ping, after the other node heard it, and the ping is not
      outstanding any more. */
  ghost predicate CreditOk(s: System, c: Credit) {
    && c.endpoint < |s.objects|
    && c.origin == c.endpoint
    && c.id < s.objects[c.endpoint].packetID
    && c.id !in s.objects[c.endpoint].outstanding
    && PingOf(s.objects[c.endpoint], c.id, c.origin) in s.heard
  }

  ghost predicate CreditsOk(s: System) {
    && (forall i | 0 <= i < |s.credits| :: CreditOk(s, s.credits[i]))
    && (forall i, j | 0 <= i < j < |s.credits| ::
          s.credits[i].endpoint == s.credits[j].endpoint ==> s.credits[i].id != s.credits[j].id)
  }

  ghost predicate Inv(s: System) {
    ObjectsOk(s) && TableOk(s) && NetworkOk(s) && ChannelsOk(s) && CreditsOk(s)
  }

  lemma HandleKeepsCredits(s: System, o: nat, older: set<nat>)
    requires Inv(s) && Enabled(s, HandlePong(o, older))
    ensures CreditsOk(Next(s, HandlePong(o, older)))
  {
    var e := s.objects[o];
    var r := e.channel[0];
    var p := Packet(Pong, Peer(e.owner), e.endpointID, r.id, r.origin);
    assert PacketOk(s, p);
    assert s.objects[r.origin].owner == e.owner;
    assert r.origin == o;
    var t := Next(s, HandlePong(o, older));
    forall i | 0 <= i < |t.credits|
      ensures CreditOk(t, t.credits[i])
    {
      if i < |s.credits| {
        assert CreditOk(s, s.credits[i]);
      }
    }
    forall i, j | 0 <= i < j < |t.credits|
      ensures t.credits[i].endpoint == t.credits[j].endpoint ==> t.credits[i].id != t.credits[j].id
    {
      assert CreditOk(s, s.credits[i]);
    }
  }

  lemma PacketStays(s: System, step: Step, p: Packet)
    requires ObjectsOk(s) && Enabled(s, step) && PacketOk(s, p)
    ensures PacketOk(Next(s, step), p)
  {
  }

  lemma NetworkStep(s: System, step: Step)
    requires Inv(s) && Enabled(s, step)
    ensures NetworkOk(Next(s, step))
  {
    var t := Next(s, step);
    forall p | p in t.sent
      ensures PacketOk(t, p)
    {
      if p in s.sent {
        PacketStays(s, step, p);
      } else if step.DeliverPing? {
        assert PacketOk(s, step.p);
      }
    }
  }

  lemma ChannelsStep(s: System, step: Step)
    requires Inv(s) && Enabled(s, step)
    ensures ChannelsOk(Next(s, step))
  {
  }

  lemma CreditsStep(s: System, step: Step)
    requires Inv(s) && Enabled(s, step)
    ensures CreditsOk(Next(s, step))
  {
    if step.HandlePong? {
      HandleKeepsCredits(s, step.endpoint, step.older);
    } else {
      var t := Next(s, step);
      forall i | 0 <= i < |t.credits|
        ensures CreditOk(t, t.credits[i])
      {
        assert CreditOk(s, s.credits[i]);
      }
    }
  }

  lemma ObjectsStep(s: System, step: Step)
    requires Inv(s) && Enabled(s, step)
    ensures ObjectsOk(Next(s, step))
  {
  }

  lemma TableStep(s: System, step: Step)
    requires Inv(s) && Enabled(s, step)
    ensures TableOk(Next(s, step))
  {
  }

  lemma InvStep(s: System, step: Step)
    requires Inv(s) && Enabled(s, step)
    ensures Inv(Next(s, step))
  {
    ObjectsStep(s, step);
    TableStep(s, step);
    NetworkStep(s, step);
    ChannelsStep(s, step);
    CreditsStep(s, step);
  }

  lemma InvStart()
    ensures Inv(START)
  {
    forall n: Node
      ensures n in START.counter
    {
      match n
      case A =>
      case B =>
    }
  }

  lemma {:induction false} InvRun(s: System, steps: seq<Step>)
    requires Inv(s) && IsRun(s, steps)
    ensures Inv(After(s, steps))
    decreases |steps|
  {
    if steps == [] {
    } else {
      InvStep(s, steps[0]);
      InvRun(Next(s, steps[0]), steps[1..]);
    }
  }

  /** Safety over all runs: a pong is credited to the very object that sent the ping, only after the
      other node received that ping, and no ping is credited twice. */
  lemma CreditsAreEarned(steps: seq<Step>, i: nat)
    requires IsRun(START, steps) && i < |After(START, steps).credits|
    ensures var s := After(START, steps);
      var c := s.credits[i];
      && c.endpoint < |s.objects|
      && c.origin == c.endpoint
      && PingOf(s.objects[c.endpoint], c.id, c.origin) in s.heard
      && forall j | 0 <= j < |s.credits| && j != i ::
           !(s.credits[j].endpoint == c.endpoint && s.credits[j].id == c.id)
  {
    InvStart();
    InvRun(START, steps);
    var s := After(START, steps);
    assert CreditOk(s, s.credits[i]);
  }

  /** An endpoint that was opened later for the same address never profits: its credits are for its
      own pings. */
  lemma LaterEndpointNotCredited(steps: seq<Step>, i: nat, earlier: nat, later: nat)
    requires IsRun(START, steps)
    requires var s := After(START, steps);
      && i < |s.credits| && earlier < later < |s.objects|
      && s.objects[earlier].owner == s.objects[later].owner
      && s.objects[earlier].address == s.objects[later].address
      && s.credits[i].origin == earlier
    ensures var s := After(START, steps);
      && s.credits[i].endpoint != later
      && s.objects[earlier].endpointID != s.objects[later].endpointID
  {
    InvStart();
    InvRun(START, steps);
    assert CreditOk(After(START, steps), After(START, steps).credits[i]);
  }

  /** A ping, its way, and the way and handling of its pong. */
  function Exchange(s: System, o: nat): seq<Step>
    requires o < |s.objects|
  {
    var e := s.objects[o];
    [SendPing(o),
     DeliverPing(Packet(Ping, e.owner, e.endpointID, e.packetID, o)),
     DeliverPong(Packet(Pong, Peer(e.owner), e.endpointID, e.packetID, o)),
     HandlePong(o, {})]
  }

  lemma FourSteps(s: System, a: seq<Step>)
    requires |a| == 4 && Enabled(s, a[0]) && Enabled(Next(s, a[0]), a[1])
    requires Enabled(Next(Next(s, a[0]), a[1]), a[2])
    requires Enabled(Next(Next(Next(s, a[0]), a[1]), a[2]), a[3])
    ensures IsRun(s, a) && After(s, a) == Next(Next(Next(Next(s, a[0]), a[1]), a[2]), a[3])
  {
    var s1 := Next(s, a[0]);
    var s2 := Next(s1, a[1]);
    var s3 := Next(s2, a[2]);
    assert a[3..][1..] == [];
    assert IsRun(s3, a[3..]) && After(s3, a[3..]) == Next(s3, a[3]);
    assert a[2..][1..] == a[3..];
    assert IsRun(s2, a[2..]) && After(s2, a[2..]) == After(s3, a[3..]);
    assert a[1..][1..] == a[2..];
    assert IsRun(s1, a[1..]) && After(s1, a[1..]) == After(s2, a[2..]);
  }

  /** And pongs are credited: in every reachable state, an endpoint in the table whose channel is empty
      sends a ping that, when nothing gets lost, is heard by the other node and credited to it. */
  lemma ExchangeIsCredited(steps: seq<Step>, o: nat)
    requires IsRun(START, steps)
    requires var s := After(START, steps);
      && o < |s.objects| && s.objects[o].channel == []
      && (s.objects[o].owner, s.objects[o].endpointID) in s.table
    ensures var s := After(START, steps);
      && IsRun(s, Exchange(s, o))
      && var t := After(s, Exchange(s, o));
      && t.credits == s.credits + [Credit(o, s.objects[o].packetID, o)]
      && PingOf(s.objects[o], s.objects[o].packetID, o) in t.heard
      && o < |t.objects| && t.objects[o].outstanding == s.objects[o].outstanding
  {
    InvStart();
    InvRun(START, steps);
    var s := After(START, steps);
    var e := s.objects[o];
    assert s.table[(e.owner, e.endpointID)] == o;
    assert e.packetID !in e.outstanding;
    var a := Exchange(s, o);
    var s1 := Next(s, a[0]);
    var s2 := Next(s1, a[1]);
    var s3 := Next(s2, a[2]);
    assert s2.objects[o].channel == [] && s2.table == s.table;
    assert s3.objects[o].channel == [Reply(e.packetID, o)];
    FourSteps(s, a);
  }

  lemma {:induction false} ClosedStaysOut(s: System, steps: seq<Step>, k: (Node, nat))
    requires Inv(s) && IsRun(s, steps) && k !in s.table && k.1 <= s.counter[k.0]
    ensures k !in After(s, steps).table
    decreases |steps|
  {
    if steps == [] {
    } else {
      InvStep(s, steps[0]);
      ClosedStaysOut(Next(s, steps[0]), steps[1..], k);
    }
  }

  /** Once an endpoint was closed, no pong with its ID has any effect any more. */
  lemma ClosedForGood(before: seq<Step>, node: Node, endpointID: nat, later: seq<Step>, pong: Packet)
    requires IsRun(START, before) && Enabled(After(START, before), Close(node, endpointID))
    requires IsRun(Next(After(START, before), Close(node, endpointID)), later)
    requires var t := After(Next(After(START, before), Close(node, endpointID)), later);
      Enabled(t, DeliverPong(pong)) && Peer(pong.src) == node && pong.endpointID == endpointID
    ensures var t := After(Next(After(START, before), Close(node, endpointID)), later);
      Next(t, DeliverPong(pong)) == t
  {
    InvStart();
    InvRun(START, before);
    var s := After(START, before);
    InvStep(s, Close(node, endpointID));
    assert s.objects[s.table[(node, endpointID)]].owner == node;
    ClosedStaysOut(Next(s, Close(node, endpointID)), later, (node, endpointID));
  }
}
