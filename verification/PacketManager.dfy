/** Outstanding pings: added with the time of sending, and removed by an acknowledgement, by the
    acknowledgement of a later ping, or by a timer. */
module PacketManager {
  import opened Options

  type Id = nat

  /** The map of outstanding pings and the history of the others. While an acknowledgement for a
      ping sent at time t is being handled, `sweeping` is t. Nothing sent before `heard` is
      outstanding once the sweep is over. */
  datatype Pings = Pings(
    now: int, outstanding: map<Id, int>, sentAt: map<Id, int>,
    acked: seq<Id>, dropped: seq<Id>, superseded: seq<Id>,
    sweeping: Option<int>, heard: Option<int>)

  datatype Step =
    | Add(id: Id)
    | Ack(id: Id)
    | Sweep(id: Id)
    | EndSweep
    | Expire(id: Id)
    | Pass(duration: nat)

  /** The sweep visits the pings one by one, and other goroutines act in between. A timer may find
      its ping gone, which is not a step here. */
  ghost predicate Enabled(p: Pings, s: Step, timeout: nat) {
    match s
    case Add(id) => id !in p.sentAt
    case Ack(id) => p.sweeping.None? && id in p.outstanding
    case Sweep(id) => p.sweeping.Some? && id in p.outstanding && p.outstanding[id] < p.sweeping.value
    case EndSweep => p.sweeping.Some? && forall id | id in p.outstanding :: p.sweeping.value <= p.outstanding[id]
    case Expire(id) => id in p.outstanding && p.outstanding[id] + timeout <= p.now
    case Pass(_) => true
  }

  function Later(a: Option<int>, t: int): Option<int> {
    if a.Some? && a.value > t then a else Some(t)
  }

  ghost function Next(p: Pings, s: Step, timeout: nat): Pings
    requires Enabled(p, s, timeout)
  {
    match s
    case Add(id) => p.(outstanding := p.outstanding[id := p.now], sentAt := p.sentAt[id := p.now])
    case Ack(id) =>
      p.(outstanding := p.outstanding - {id}, acked := p.acked + [id], sweeping := Some(p.outstanding[id]))
    case Sweep(id) => p.(outstanding := p.outstanding - {id}, superseded := p.superseded + [id])
    case EndSweep => p.(sweeping := None, heard := Later(p.heard, p.sweeping.value))
    case Expire(id) => p.(outstanding := p.outstanding - {id}, dropped := p.dropped + [id])
    case Pass(duration) => p.(now := p.now + duration)
  }

  ghost predicate IsRun(p: Pings, steps: seq<Step>, timeout: nat)
    decreases |steps|
  {
    steps == [] || (Enabled(p, steps[0], timeout) && IsRun(Next(p, steps[0], timeout), steps[1..], timeout))
  }

  ghost function After(p: Pings, steps: seq<Step>, timeout: nat): Pings
    requires IsRun(p, steps, timeout)
    decreases |steps|
  {
    if steps == [] then p else After(Next(p, steps[0], timeout), steps[1..], timeout)
  }

  function Start(now: int): Pings {
    Pings(now, map[], map[], [], [], [], None, None)
  }

  function Count(id: Id, s: seq<Id>): nat {
    multiset(s)[id]
  }

  /** In how many of the four ways the ping is accounted for, repetitions included. */
  function Accounts(p: Pings, id: Id): nat {
    (if id in p.outstanding then 1 else 0) + Count(id, p.acked) + Count(id, p.dropped) + Count(id, p.superseded)
  }

  ghost predicate Inv(p: Pings) {
    && (forall id :: Accounts(p, id) == if id in p.sentAt then 1 else 0)
    && (forall id | id in p.outstanding :: id in p.sentAt && p.outstanding[id] == p.sentAt[id] <= p.now)
    && (p.sweeping.Some? ==> p.sweeping.value <= p.now)
    && (p.heard.Some? ==> p.heard.value <= p.now)
    && (p.heard.Some? ==> forall id | id in p.outstanding :: p.heard.value <= p.outstanding[id])
  }

  lemma CountAppend(id: Id, s: seq<Id>, last: Id)
    ensures Count(id, s + [last]) == Count(id, s) + if id == last then 1 else 0
  {
  }

  lemma InvStep(p: Pings, s: Step, timeout: nat)
    requires Inv(p) && Enabled(p, s, timeout)
    ensures Inv(Next(p, s, timeout))
  {
    var q := Next(p, s, timeout);
    forall id
      ensures Accounts(q, id) == if id in q.sentAt then 1 else 0
    {
      assert Accounts(p, id) == if id in p.sentAt then 1 else 0;
      match s
      case Ack(x) => CountAppend(id, p.acked, x);
      case Sweep(x) => CountAppend(id, p.superseded, x);
      case Expire(x) => CountAppend(id, p.dropped, x);
      case _ =>
    }
  }

  lemma {:induction false} InvRun(p: Pings, steps: seq<Step>, timeout: nat)
    requires Inv(p) && IsRun(p, steps, timeout)
    ensures Inv(After(p, steps, timeout))
    decreases |steps|
  {
    if steps == [] {
    } else {
      InvStep(p, steps[0], timeout);
      InvRun(Next(p, steps[0], timeout), steps[1..], timeout);
    }
  }

  /** Accounting: in every run each added ping is outstanding, acknowledged, dropped or superseded,
      in exactly one of these ways and once. So the drop callback runs at most once for a ping, and
      never for an acknowledged one. */
  lemma EachPingOnce(now: int, steps: seq<Step>, timeout: nat, id: Id)
    requires IsRun(Start(now), steps, timeout)
    ensures var p := After(Start(now), steps, timeout);
      Accounts(p, id) == if id in p.sentAt then 1 else 0
  {
    InvRun(Start(now), steps, timeout);
  }

  /** History only grows, and pings that are dropped later were sent after what was heard of. */
  ghost predicate Grown(p: Pings, q: Pings) {
    && p.dropped <= q.dropped
    && (p.heard.Some? ==> q.heard.Some? && p.heard.value <= q.heard.value)
    && (forall id | id in p.sentAt :: id in q.sentAt && q.sentAt[id] == p.sentAt[id])
    && (p.heard.Some? ==>
          forall i | |p.dropped| <= i < |q.dropped| ::
            q.dropped[i] in q.sentAt && p.heard.value <= q.sentAt[q.dropped[i]])
  }

  lemma GrownStep(p: Pings, s: Step, timeout: nat)
    requires Inv(p) && Enabled(p, s, timeout)
    ensures Grown(p, Next(p, s, timeout))
  {
  }

  lemma GrownTransitive(p: Pings, n: Pings, q: Pings)
    requires Grown(p, n) && Grown(n, q)
    ensures Grown(p, q)
  {
    if p.heard.Some? {
      forall i | |p.dropped| <= i < |q.dropped|
        ensures q.dropped[i] in q.sentAt && p.heard.value <= q.sentAt[q.dropped[i]]
      {
        assert i < |n.dropped| ==> q.dropped[i] == n.dropped[i];
      }
    }
  }

  lemma {:induction false} HistoryGrows(p: Pings, steps: seq<Step>, timeout: nat)
    requires Inv(p) && IsRun(p, steps, timeout)
    ensures Grown(p, After(p, steps, timeout))
    decreases |steps|
  {
    if steps == [] {
    } else {
      var n := Next(p, steps[0], timeout);
      InvStep(p, steps[0], timeout);
      GrownStep(p, steps[0], timeout);
      HistoryGrows(n, steps[1..], timeout);
      GrownTransitive(p, n, After(n, steps[1..], timeout));
    }
  }

  /** Once the acknowledgement of a ping sent at time t has been handled, no ping sent strictly
      before t is dropped any more. */
  lemma NothingOlderDropped(now: int, before: seq<Step>, later: seq<Step>, timeout: nat, i: nat)
    requires IsRun(Start(now), before, timeout)
    requires IsRun(After(Start(now), before, timeout), later, timeout)
    requires var p := After(Start(now), before, timeout);
      var q := After(p, later, timeout);
      p.heard.Some? && |p.dropped| <= i < |q.dropped|
    ensures var p := After(Start(now), before, timeout);
      var q := After(p, later, timeout);
      q.dropped[i] in q.sentAt && p.heard.value <= q.sentAt[q.dropped[i]]
  {
    InvRun(Start(now), before, timeout);
    HistoryGrows(After(Start(now), before, timeout), later, timeout);
  }

  /** The handling of an acknowledgement for a ping sent at `t` is under way, or over. */
  predicate Heard(p: Pings, t: int) {
    p.sweeping == Some(t) || HeardOut(p, t)
  }

  predicate HeardOut(p: Pings, t: int) {
    p.heard.Some? && t <= p.heard.value
  }

  lemma {:induction false} HeardStays(p: Pings, steps: seq<Step>, timeout: nat, t: int)
    requires Inv(p) && IsRun(p, steps, timeout) && Heard(p, t)
    ensures Inv(After(p, steps, timeout)) && Heard(After(p, steps, timeout), t)
    ensures HeardOut(p, t) || EndSweep in steps ==> HeardOut(After(p, steps, timeout), t)
    decreases |steps|
  {
    if steps == [] {
    } else {
      var n := Next(p, steps[0], timeout);
      InvStep(p, steps[0], timeout);
      HeardStays(n, steps[1..], timeout, t);
      assert steps == [steps[0]] + steps[1..];
      assert EndSweep in steps ==> steps[0] == EndSweep || EndSweep in steps[1..];
    }
  }

  /** In terms of the steps alone: when a ping is acknowledged and the sweep is then over, no ping that
      was sent before it is dropped any more. */
  lemma DropsComeLater(now: int, before: seq<Step>, x: Id, later: seq<Step>, y: Id, timeout: nat)
    requires IsRun(Start(now), before, timeout)
    requires var p := After(Start(now), before, timeout);
      Enabled(p, Ack(x), timeout) && IsRun(Next(p, Ack(x), timeout), later, timeout)
    requires var p := After(Start(now), before, timeout);
      EndSweep in later && Enabled(After(Next(p, Ack(x), timeout), later, timeout), Expire(y), timeout)
    ensures var p := After(Start(now), before, timeout);
      var q := After(Next(p, Ack(x), timeout), later, timeout);
      x in p.outstanding && y in q.outstanding && p.outstanding[x] <= q.outstanding[y]
  {
    InvRun(Start(now), before, timeout);
    var p := After(Start(now), before, timeout);
    InvStep(p, Ack(x), timeout);
    HeardStays(Next(p, Ack(x), timeout), later, timeout, p.outstanding[x]);
  }

  /** The step system without interference: an acknowledgement is handled in one go. */
  lemma AckIsRun(p: Pings, id: Id, limit: nat) returns (steps: seq<Step>)
    requires Inv(p) && p.sweeping.None? && id in p.outstanding
    ensures IsRun(p, steps, limit)
    ensures After(p, steps, limit).outstanding
         == map k | k in p.outstanding && k != id && p.outstanding[id] <= p.outstanding[k] :: p.outstanding[k]
  {
    var q := Next(p, Ack(id), limit);
    var rest := SweepIsRun(q, p.outstanding[id], limit);
    steps := [Ack(id)] + rest;
    assert steps[1..] == rest;
  }

  lemma SweepIsRun(p: Pings, t: int, limit: nat) returns (steps: seq<Step>)
    requires p.sweeping == Some(t)
    ensures IsRun(p, steps, limit)
    ensures After(p, steps, limit).outstanding
         == map k | k in p.outstanding && t <= p.outstanding[k] :: p.outstanding[k]
    decreases |p.outstanding.Keys|
  {
    if k :| k in p.outstanding && p.outstanding[k] < t {
      assert (p.outstanding - {k}).Keys == p.outstanding.Keys - {k};
      var rest := SweepIsRun(Next(p, Sweep(k), limit), t, limit);
      steps := [Sweep(k)] + rest;
      assert steps[1..] == rest;
    } else {
      steps := [EndSweep];
      assert steps[1..] == [];
    }
  }

  // ----- the object

  class Manager {
    const timeout: nat
    var m: map<Id, int>

    constructor (timeout: nat)
      ensures this.timeout == timeout && m == map[]
    {
      this.timeout := timeout;
      m := map[];
    }

    method AddPacket(id: Id, now: int)
      modifies this`m
      ensures m == old(m)[id := now]
    {
      m := m[id := now];
    }

    /** What the timer of a ping does when it is due; tells whether the drop callback runs. */
    method Expired(id: Id) returns (callback: bool)
      modifies this`m
      ensures callback <==> id in old(m)
      ensures m == old(m) - {id}
    {
      callback := id in m;
      m := m - {id};
    }

    /** Removes the ping and all that were sent before it. */
    method RecvAck(id: Id, now: int) returns (rtt: int, ok: bool)
      modifies this`m
      ensures ok <==> id in old(m)
      ensures ok ==> rtt == now - old(m)[id]
      ensures ok ==> m == map k | k in old(m) && k != id && old(m)[id] <= old(m)[k] :: old(m)[k]
      ensures !ok ==> rtt == 0 && m == old(m)
    {
      if id !in m {
        return 0, false;
      }
      var sent := m[id];
      m := m - {id};
      ghost var start := m;
      var left := m.Keys;
      while |left| != 0
        invariant left <= start.Keys
        invariant forall k :: k in m <==> k in start && (k in left || sent <= start[k])
        invariant forall k | k in m :: m[k] == start[k]
        decreases |left|
      {
        var key :| key in left;
        if sent > m[key] {
          m := m - {key};
        }
        left := left - {key};
      }
      return now - sent, true;
    }
  }
}
