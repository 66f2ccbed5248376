/** The path of a received packet: the receiver hands it to the loop of a peer over a channel without
    buffer, and that loop puts a pong into the channel of an endpoint, which holds one. Neither send
    watches whether the other side was closed. */
module ReceivePath {
  import opened Options

  const CHANNEL := 1

  /** The loop of an endpoint: once it was closed it may take more packets or stop. */
  datatype EndpointLoop = EndpointLoop(running: bool, closed: bool, queued: nat)

  datatype Place = Waiting | Sending(endpoint: nat) | Stopped

  /** The loop of a peer: it looks for closing only while it waits for a packet. A closed peer is listed
      until closing has got as far as the table of peers. */
  datatype PeerLoop = PeerLoop(place: Place, closed: bool, listed: bool)

  /** `receiver` is the peer that the receiver is handing a packet to. */
  datatype Path = Path(receiver: Option<nat>, peers: map<nat, PeerLoop>, endpoints: map<nat, EndpointLoop>)

  datatype Step =
    | OpenPeer(peer: nat)
    | OpenEndpoint(endpoint: nat)
    | Receive(peer: nat)
    | HandOver(pongFor: Option<nat>)
    | Enqueue(peer: nat)
    | Take(endpoint: nat)
    | ClosePeer(peer: nat)
    | Unlist(peer: nat)
    | StopPeer(peer: nat)
    | CloseEndpoint(endpoint: nat)
    | StopEndpoint(endpoint: nat)

  predicate Room(s: Path, e: nat) {
    e in s.endpoints && s.endpoints[e].queued < CHANNEL
  }

  predicate At(s: Path, p: nat, place: Place) {
    p in s.peers && s.peers[p].place == place
  }

  /** A peer is looked up before the packet is handed to it, and may be closed in between; an endpoint
      is looked up by the loop of the peer, and may be closed before the loop gets its packet off. */
  predicate Enabled(s: Path, step: Step) {
    match step
    case OpenPeer(p) => p !in s.peers
    case OpenEndpoint(e) => e !in s.endpoints
    case Receive(p) => s.receiver.None? && p in s.peers && s.peers[p].listed
    case HandOver(to) =>
      s.receiver.Some? && At(s, s.receiver.value, Waiting)
      && (to.Some? ==> to.value in s.endpoints && !s.endpoints[to.value].closed)
    case Enqueue(p) => p in s.peers && s.peers[p].place.Sending? && Room(s, s.peers[p].place.endpoint)
    case Take(e) => e in s.endpoints && s.endpoints[e].running && s.endpoints[e].queued > 0
    case ClosePeer(p) => p in s.peers
    case Unlist(p) => p in s.peers && s.peers[p].closed
    case StopPeer(p) => At(s, p, Waiting) && s.peers[p].closed
    case CloseEndpoint(e) => e in s.endpoints
    case StopEndpoint(e) => e in s.endpoints && s.endpoints[e].running && s.endpoints[e].closed
  }

  function SetPlace(s: Path, p: nat, place: Place): Path
    requires p in s.peers
  {
    s.(peers := s.peers[p := s.peers[p].(place := place)])
  }

  function SetEndpoint(s: Path, e: nat, loop: EndpointLoop): Path {
    s.(endpoints := s.endpoints[e := loop])
  }

  /** A packet that is no pong for an endpoint of the table is done with when it is handed over. */
  function Next(s: Path, step: Step): Path
    requires Enabled(s, step)
  {
    match step
    case OpenPeer(p) => s.(peers := s.peers[p := PeerLoop(Waiting, false, true)])
    case OpenEndpoint(e) => SetEndpoint(s, e, EndpointLoop(true, false, 0))
    case Receive(p) => s.(receiver := Some(p))
    case HandOver(to) =>
      SetPlace(s, s.receiver.value, if to.Some? then Sending(to.value) else Waiting).(receiver := None)
    case Enqueue(p) =>
      var e := s.peers[p].place.endpoint;
      SetEndpoint(SetPlace(s, p, Waiting), e, s.endpoints[e].(queued := s.endpoints[e].queued + 1))
    case Take(e) => SetEndpoint(s, e, s.endpoints[e].(queued := s.endpoints[e].queued - 1))
    case ClosePeer(p) => s.(peers := s.peers[p := s.peers[p].(closed := true)])
    case Unlist(p) => s.(peers := s.peers[p := s.peers[p].(listed := false)])
    case StopPeer(p) => SetPlace(s, p, Stopped)
    case CloseEndpoint(e) => SetEndpoint(s, e, s.endpoints[e].(closed := true))
    case StopEndpoint(e) => SetEndpoint(s, e, s.endpoints[e].(running := false))
  }

  const START := Path(None, map[], map[])

  ghost predicate IsRun(s: Path, steps: seq<Step>)
    decreases |steps|
  {
    steps == [] || (Enabled(s, steps[0]) && IsRun(Next(s, steps[0]), steps[1..]))
  }

  ghost function After(s: Path, steps: seq<Step>): Path
    requires IsRun(s, steps)
    decreases |steps|
  {
    if steps == [] then s else After(Next(s, steps[0]), steps[1..])
  }

  ghost predicate Inv(s: Path) {
    && (s.receiver.Some? ==> s.receiver.value in s.peers)
    && (forall p | p in s.peers && s.peers[p].place.Sending? :: s.peers[p].place.endpoint in s.endpoints)
    && (forall e | e in s.endpoints ::
          s.endpoints[e].queued <= CHANNEL && (!s.endpoints[e].running ==> s.endpoints[e].closed))
    && (forall p | p in s.peers && s.peers[p].place.Stopped? :: s.peers[p].closed)
  }

  lemma InvStep(s: Path, step: Step)
    requires Inv(s) && Enabled(s, step)
    ensures Inv(Next(s, step))
  {
  }

  lemma {:induction false} InvRun(s: Path, steps: seq<Step>)
    requires Inv(s) && IsRun(s, steps)
    ensures Inv(After(s, steps))
    decreases |steps|
  {
    if steps == [] {
    } else {
      InvStep(s, steps[0]);
      InvRun(Next(s, steps[0]), steps[1..]);
    }
  }

  /** The loop of the peer waits for room in a channel that nobody takes from. */
  predicate PeerStuck(s: Path, p: nat) {
    p in s.peers && s.peers[p].place.Sending?
    && var e := s.peers[p].place.endpoint;
    e in s.endpoints && !s.endpoints[e].running && s.endpoints[e].queued == CHANNEL
  }

  /** The receiver has a packet for a peer whose loop has stopped or is stuck. */
  predicate Stuck(s: Path) {
    s.receiver.Some? && (At(s, s.receiver.value, Stopped) || PeerStuck(s, s.receiver.value))
  }

  lemma StuckStep(s: Path, step: Step)
    requires Inv(s) && Stuck(s) && Enabled(s, step)
    ensures Stuck(Next(s, step)) && Next(s, step).receiver == s.receiver
  {
  }

  /** Once the receiver is stuck it is for good: no packet is received any more, for any peer. */
  lemma {:induction false} StuckForever(s: Path, steps: seq<Step>)
    requires Inv(s) && Stuck(s) && IsRun(s, steps)
    ensures Stuck(After(s, steps)) && After(s, steps).receiver == s.receiver
    decreases |steps|
  {
    if steps == [] {
    } else {
      InvStep(s, steps[0]);
      StuckStep(s, steps[0]);
      StuckForever(Next(s, steps[0]), steps[1..]);
    }
  }

  /** The steps of the loops alone that make the peer ready for the receiver's packet. */
  function Unblock(s: Path): seq<Step>
    requires Inv(s) && s.receiver.Some?
  {
    var p := s.receiver.value;
    match s.peers[p].place
    case Sending(e) => if Room(s, e) then [Enqueue(p)] else [Take(e), Enqueue(p)]
    case _ => []
  }

  lemma UnblockWorks(s: Path)
    requires Inv(s) && s.receiver.Some? && !Stuck(s)
    ensures IsRun(s, Unblock(s))
    ensures var t := After(s, Unblock(s)); t.receiver == s.receiver && At(t, s.receiver.value, Waiting)
  {
    var p := s.receiver.value;
    var steps := Unblock(s);
    if s.peers[p].place.Sending? {
      var e := s.peers[p].place.endpoint;
      if Room(s, e) {
        assert steps[1..] == [];
      } else {
        assert steps[1..] == [Enqueue(p)];
        assert steps[1..][1..] == [];
        var t := Next(s, Take(e));
        assert Enabled(t, Enqueue(p));
        assert IsRun(t, steps[1..]) && After(t, steps[1..]) == Next(t, Enqueue(p));
      }
    }
  }

  /** When the receive path makes progress: in every reachable state in which the receiver has a
      packet, at most two steps of the loops alone make the peer ready to take it, if and only if the
      receiver is not stuck; and if it is, no steps of anybody ever do. */
  lemma ProgressExactly(steps: seq<Step>)
    requires IsRun(START, steps) && After(START, steps).receiver.Some?
    ensures var s := After(START, steps);
      && Inv(s)
      && (!Stuck(s) ==>
            && |Unblock(s)| <= 2 && IsRun(s, Unblock(s))
            && At(After(s, Unblock(s)), s.receiver.value, Waiting)
            && After(s, Unblock(s)).receiver == s.receiver)
      && (Stuck(s) ==> forall more | IsRun(s, more) :: After(s, more).receiver == s.receiver)
  {
    InvRun(START, steps);
    var s := After(START, steps);
    if Stuck(s) {
      forall more | IsRun(s, more)
        ensures After(s, more).receiver == s.receiver
      {
        StuckForever(s, more);
      }
    } else {
      UnblockWorks(s);
    }
  }

  /** Without closing anything the receiver is never stuck. */
  lemma {:induction false} NothingClosed(s: Path, steps: seq<Step>)
    requires Inv(s) && IsRun(s, steps)
    requires forall p | p in s.peers :: !s.peers[p].closed
    requires forall e | e in s.endpoints :: !s.endpoints[e].closed
    requires forall t | t in steps :: !t.ClosePeer? && !t.CloseEndpoint?
    ensures !Stuck(After(s, steps))
    decreases |steps|
  {
    if steps == [] {
    } else {
      assert steps[0] in steps;
      InvStep(s, steps[0]);
      NothingClosed(Next(s, steps[0]), steps[1..]);
    }
  }

  lemma NeverStuckWhileOpen(steps: seq<Step>)
    requires IsRun(START, steps) && forall t | t in steps :: !t.ClosePeer? && !t.CloseEndpoint?
    ensures !Stuck(After(START, steps))
  {
    NothingClosed(START, steps);
  }

  // ----- runs that get stuck

  ghost predicate Reaches(s: Path, t: Path) {
    exists steps :: IsRun(s, steps) && After(s, steps) == t
  }

  lemma ByStep(s: Path, step: Step, t: Path)
    requires Enabled(s, step) && Reaches(Next(s, step), t)
    ensures Reaches(s, t)
  {
    var steps :| IsRun(Next(s, step), steps) && After(Next(s, step), steps) == t;
    var all := [step] + steps;
    assert all[0] == step && all[1..] == steps;
    assert IsRun(s, all) && After(s, all) == t;
  }

  function One(receiver: Option<nat>, place: Place, loop: EndpointLoop): Path {
    Path(receiver, map[0 := PeerLoop(place, false, true)], map[0 := loop])
  }

  /** The endpoint's channel is filled by a pong. */
  lemma FirstPong(t: Path)
    requires Reaches(One(None, Waiting, EndpointLoop(true, false, 1)), t)
    ensures Reaches(START, t)
  {
    var open := EndpointLoop(true, false, 0);
    var s1 := Path(None, map[0 := PeerLoop(Waiting, false, true)], map[]);
    assert Next(One(None, Sending(0), open), Enqueue(0)) == One(None, Waiting, open.(queued := 1));
    ByStep(One(None, Sending(0), open), Enqueue(0), t);
    assert Next(One(Some(0), Waiting, open), HandOver(Some(0))) == One(None, Sending(0), open);
    ByStep(One(Some(0), Waiting, open), HandOver(Some(0)), t);
    assert Next(One(None, Waiting, open), Receive(0)) == One(Some(0), Waiting, open);
    ByStep(One(None, Waiting, open), Receive(0), t);
    assert Next(s1, OpenEndpoint(0)) == One(None, Waiting, open);
    ByStep(s1, OpenEndpoint(0), t);
    assert Next(START, OpenPeer(0)) == s1;
    ByStep(START, OpenPeer(0), t);
  }

  /** The next one waits for room. */
  lemma SecondPong(t: Path)
    requires Reaches(One(None, Sending(0), EndpointLoop(true, false, 1)), t)
    ensures Reaches(One(None, Waiting, EndpointLoop(true, false, 1)), t)
  {
    var full := EndpointLoop(true, false, 1);
    assert Next(One(Some(0), Waiting, full), HandOver(Some(0))) == One(None, Sending(0), full);
    ByStep(One(Some(0), Waiting, full), HandOver(Some(0)), t);
    assert Next(One(None, Waiting, full), Receive(0)) == One(Some(0), Waiting, full);
    ByStep(One(None, Waiting, full), Receive(0), t);
  }

  /** The endpoint is closed and stops, and another packet comes for the peer. */
  lemma ClosedMeanwhile(t: Path)
    requires t == One(Some(0), Sending(0), EndpointLoop(false, true, 1))
    ensures Reaches(One(None, Sending(0), EndpointLoop(true, false, 1)), t)
  {
    var full := EndpointLoop(true, false, 1);
    assert IsRun(t, []) && After(t, []) == t;
    assert Next(One(None, Sending(0), EndpointLoop(false, true, 1)), Receive(0)) == t;
    ByStep(One(None, Sending(0), EndpointLoop(false, true, 1)), Receive(0), t);
    assert Next(One(None, Sending(0), full.(closed := true)), StopEndpoint(0))
        == One(None, Sending(0), EndpointLoop(false, true, 1));
    ByStep(One(None, Sending(0), full.(closed := true)), StopEndpoint(0), t);
    assert Next(One(None, Sending(0), full), CloseEndpoint(0)) == One(None, Sending(0), full.(closed := true));
    ByStep(One(None, Sending(0), full), CloseEndpoint(0), t);
  }

  /** Two pongs come for an endpoint that is closed before it takes the first: the peer, which is open
      all the time, is stuck, and with the next packet for it so is the receiver. */
  lemma StuckBehindEndpoint()
    ensures var t := One(Some(0), Sending(0), EndpointLoop(false, true, 1)); Reaches(START, t) && Stuck(t)
  {
    var t := One(Some(0), Sending(0), EndpointLoop(false, true, 1));
    ClosedMeanwhile(t);
    SecondPong(t);
    FirstPong(t);
  }

  /** A peer is closed and stops after it was looked up: the receiver waits for it for ever. */
  lemma StuckBehindPeer()
    ensures var t := Path(Some(0), map[0 := PeerLoop(Stopped, true, true)], map[]); Reaches(START, t) && Stuck(t)
  {
    var t := Path(Some(0), map[0 := PeerLoop(Stopped, true, true)], map[]);
    var s1 := Path(None, map[0 := PeerLoop(Waiting, false, true)], map[]);
    var s2 := s1.(receiver := Some(0));
    var s3 := s2.(peers := map[0 := PeerLoop(Waiting, true, true)]);
    assert IsRun(t, []) && After(t, []) == t;
    assert Next(s3, StopPeer(0)) == t;
    ByStep(s3, StopPeer(0), t);
    assert Next(s2, ClosePeer(0)) == s3;
    ByStep(s2, ClosePeer(0), t);
    assert Next(s1, Receive(0)) == s2;
    ByStep(s1, Receive(0), t);
    assert Next(START, OpenPeer(0)) == s1;
    ByStep(START, OpenPeer(0), t);
  }
}
