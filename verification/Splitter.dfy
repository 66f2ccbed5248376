/** One connection split among several children: each incoming packet goes to the first child whose
    filter matches, if that child's queue has room. */
module Splitter {
  import opened Collections
  import opened Options
  import opened ByteData

  datatype Packet = Packet(data: seq<Byte>, addr: int)

  type Filter = Packet -> bool

  const QUEUE_LENGTH := 5

  /** The index of the first filter that matches, or the number of filters. */
  function FirstMatch(filters: seq<Filter>, p: Packet): (i: nat)
    ensures i <= |filters|
    ensures i < |filters| ==> filters[i](p)
    ensures forall j | 0 <= j < i :: !filters[j](p)
  {
    if filters == [] then 0 else if filters[0](p) then 0 else 1 + FirstMatch(filters[1..], p)
  }

  /** The queues after a packet came in: dropped if no filter matches or the queue is full. */
  function Dispatched(filters: seq<Filter>, queues: seq<seq<Packet>>, p: Packet): (after: seq<seq<Packet>>)
    requires |queues| == |filters|
    ensures |after| == |queues|
  {
    var i := FirstMatch(filters, p);
    if i < |filters| && |queues[i]| < QUEUE_LENGTH then queues[i := queues[i] + [p]] else queues
  }

  /** What a read by child `i` finds, and what is left. */
  datatype Pulled = Pulled(got: Option<Packet>, queues: seq<seq<Packet>>, incoming: seq<Packet>)

  /** The child reads packets off the connection until one is in its queue or the connection ends. */
  function Pull(filters: seq<Filter>, queues: seq<seq<Packet>>, incoming: seq<Packet>, i: nat): (r: Pulled)
    requires |queues| == |filters| && i < |queues|
    ensures |r.queues| == |queues|
    decreases |incoming|
  {
    if queues[i] != [] then Pulled(Some(queues[i][0]), queues[i := queues[i][1..]], incoming)
    else if incoming == [] then Pulled(None, queues, [])
    else Pull(filters, Dispatched(filters, queues, incoming[0]), incoming[1..], i)
  }

  // ----- all runs

  /** Children, what arrived so far, and what each child was handed so far. */
  datatype Split = Split(queues: seq<seq<Packet>>, arrived: seq<Packet>, handed: seq<seq<Packet>>)

  datatype Event = Arrive(p: Packet) | Take(child: nat)

  function Step(filters: seq<Filter>, s: Split, e: Event): (t: Split)
    requires |s.queues| == |s.handed| == |filters|
    ensures |t.queues| == |t.handed| == |filters|
  {
    match e
    case Arrive(p) => Split(Dispatched(filters, s.queues, p), s.arrived + [p], s.handed)
    case Take(i) =>
      if i < |filters| && s.queues[i] != [] then
        Split(s.queues[i := s.queues[i][1..]], s.arrived, s.handed[i := s.handed[i] + [s.queues[i][0]]])
      else s
  }

  function Start(n: nat): Split {
    Split(seq(n, i => []), [], seq(n, i => []))
  }

  function After(filters: seq<Filter>, events: seq<Event>): (s: Split)
    ensures |s.queues| == |s.handed| == |filters|
  {
    if events == [] then Start(|filters|)
    else Step(filters, After(filters, events[..|events| - 1]), events[|events| - 1])
  }

  /** The packets whose first matching filter is that of child `i`, in order of arrival. */
  function Own(filters: seq<Filter>, arrived: seq<Packet>, i: nat): seq<Packet> {
    if arrived == [] then []
    else
      var last := arrived[|arrived| - 1];
      Own(filters, arrived[..|arrived| - 1], i) + if FirstMatch(filters, last) == i then [last] else []
  }

  lemma AfterOneMore(filters: seq<Filter>, events: seq<Event>, e: Event)
    ensures After(filters, events + [e]) == Step(filters, After(filters, events), e)
  {
    assert (events + [e])[..|events|] == events;
  }

  /** From `s` to `t` child `i` reads: a prefix of what comes in has arrived, and the child is handed
      what it got. */
  ghost predicate Reads(filters: seq<Filter>, s: Split, incoming: seq<Packet>, i: nat, t: Split)
    requires |s.queues| == |s.handed| == |filters| && i < |filters|
  {
    var r := Pull(filters, s.queues, incoming, i);
    && t.queues == r.queues
    && t.arrived + r.incoming == s.arrived + incoming
    && t.handed == (if r.got.Some? then s.handed[i := s.handed[i] + [r.got.value]] else s.handed)
  }

  lemma ReadsAfterArrival(filters: seq<Filter>, s: Split, incoming: seq<Packet>, i: nat, t: Split)
    requires |s.queues| == |s.handed| == |filters| && i < |filters| && s.queues[i] == [] && incoming != []
    requires Reads(filters, Step(filters, s, Arrive(incoming[0])), incoming[1..], i, t)
    ensures Reads(filters, s, incoming, i, t)
  {
    assert s.arrived + [incoming[0]] + incoming[1..] == s.arrived + incoming;
  }

  /** A read is a run of arrivals that ends with taking a packet, if one is got, whatever happened
      before. */
  lemma {:induction false} PullIsRun(filters: seq<Filter>, events: seq<Event>, incoming: seq<Packet>, i: nat)
    returns (more: seq<Event>)
    requires i < |filters|
    ensures Reads(filters, After(filters, events), incoming, i, After(filters, events + more))
    decreases |incoming|
  {
    var s := After(filters, events);
    if s.queues[i] != [] {
      more := [Take(i)];
      AfterOneMore(filters, events, Take(i));
    } else if incoming == [] {
      more := [];
      assert events + more == events;
    } else {
      var arrive := Arrive(incoming[0]);
      AfterOneMore(filters, events, arrive);
      var rest := PullIsRun(filters, events + [arrive], incoming[1..], i);
      more := [arrive] + rest;
      assert events + more == events + [arrive] + rest;
      ReadsAfterArrival(filters, s, incoming, i, After(filters, events + more));
    }
  }

  /** What child `i` was handed, followed by what waits in its queue. */
  function Through(s: Split, i: nat): seq<Packet>
    requires i < |s.handed| && i < |s.queues|
  {
    s.handed[i] + s.queues[i]
  }

  /** The queues are bounded, and each child gets a subsequence of its own packets. */
  ghost predicate Fair(filters: seq<Filter>, s: Split)
    requires |s.queues| == |s.handed| == |filters|
  {
    forall i | 0 <= i < |filters| ::
      |s.queues[i]| <= QUEUE_LENGTH && IsSubsequence(Through(s, i), Own(filters, s.arrived, i))
  }

  lemma FairStep(filters: seq<Filter>, s: Split, e: Event)
    requires |s.queues| == |s.handed| == |filters| && Fair(filters, s)
    ensures Fair(filters, Step(filters, s, e))
  {
    var t := Step(filters, s, e);
    forall i | 0 <= i < |filters|
      ensures |t.queues[i]| <= QUEUE_LENGTH && IsSubsequence(Through(t, i), Own(filters, t.arrived, i))
    {
      match e
      case Arrive(p) =>
        assert t.arrived[..|t.arrived| - 1] == s.arrived;
        var own := Own(filters, s.arrived, i);
        if FirstMatch(filters, p) != i {
          assert Own(filters, t.arrived, i) == own;
        } else if |s.queues[i]| < QUEUE_LENGTH {
          assert Through(t, i) == Through(s, i) + [p];
          SubsequenceBoth(Through(s, i), own, p);
        } else {
          SubsequenceSkip(Through(s, i), own, p);
        }
      case Take(j) =>
        assert Through(t, i) == Through(s, i);
    }
  }

  lemma FairStart(filters: seq<Filter>)
    ensures Fair(filters, Start(|filters|))
  {
    SubsequenceOfNothing<Packet>();
    assert forall j | 0 <= j < |filters| :: Through(Start(|filters|), j) == [];
  }

  lemma {:induction false} FairRun(filters: seq<Filter>, events: seq<Event>)
    ensures Fair(filters, After(filters, events))
    decreases |events|
  {
    if events == [] {
      FairStart(filters);
    } else {
      var front := events[..|events| - 1];
      FairRun(filters, front);
      FairStep(filters, After(filters, front), events[|events| - 1]);
    }
  }

  /** In every run each child is handed, in order, a subsequence of exactly the packets whose first
      matching filter is its own. */
  lemma EachGetsItsOwn(filters: seq<Filter>, events: seq<Event>, i: nat)
    requires i < |filters|
    ensures var s := After(filters, events);
      |s.queues[i]| <= QUEUE_LENGTH && IsSubsequence(s.handed[i], Own(filters, s.arrived, i))
  {
    var s := After(filters, events);
    FairRun(filters, events);
    assert Through(s, i) == s.handed[i] + s.queues[i];
    assert IsSubsequence(Through(s, i), Own(filters, s.arrived, i));
    SubsequencePrefix(s.handed[i], s.queues[i], Own(filters, s.arrived, i));
  }

  /** No packet arrived for a child whose queue was full. */
  ghost predicate NeverFull(filters: seq<Filter>, events: seq<Event>, i: nat)
    requires i < |filters|
  {
    forall n | 0 <= n < |events| && events[n].Arrive? && FirstMatch(filters, events[n].p) == i ::
      |After(filters, events[..n]).queues[i]| < QUEUE_LENGTH
  }

  /** Packets are lost only to full queues: otherwise a child has all of its own, handed or queued. */
  lemma {:induction false} NothingLost(filters: seq<Filter>, events: seq<Event>, i: nat)
    requires i < |filters| && NeverFull(filters, events, i)
    ensures Through(After(filters, events), i) == Own(filters, After(filters, events).arrived, i)
    decreases |events|
  {
    if events == [] {
    } else {
      var front := events[..|events| - 1];
      FrontNeverFull(filters, events, i);
      NothingLost(filters, front, i);
      LosslessStep(filters, After(filters, front), events[|events| - 1], i);
    }
  }

  lemma FrontNeverFull(filters: seq<Filter>, events: seq<Event>, i: nat)
    requires i < |filters| && events != [] && NeverFull(filters, events, i)
    ensures NeverFull(filters, events[..|events| - 1], i)
    ensures var e := events[|events| - 1];
      e.Arrive? && FirstMatch(filters, e.p) == i ==>
        |After(filters, events[..|events| - 1]).queues[i]| < QUEUE_LENGTH
  {
    var front := events[..|events| - 1];
    forall n | 0 <= n < |front| && front[n].Arrive? && FirstMatch(filters, front[n].p) == i
      ensures |After(filters, front[..n]).queues[i]| < QUEUE_LENGTH
    {
      assert events[..n] == front[..n] && events[n] == front[n];
    }
  }

  lemma LosslessStep(filters: seq<Filter>, s: Split, e: Event, i: nat)
    requires |s.queues| == |s.handed| == |filters| && i < |filters|
    requires Through(s, i) == Own(filters, s.arrived, i)
    requires e.Arrive? && FirstMatch(filters, e.p) == i ==> |s.queues[i]| < QUEUE_LENGTH
    ensures var t := Step(filters, s, e);
      Through(t, i) == Own(filters, t.arrived, i)
  {
    var t := Step(filters, s, e);
    if e.Arrive? {
      assert t.arrived[..|t.arrived| - 1] == s.arrived;
      if FirstMatch(filters, e.p) == i {
        assert Through(t, i) == Through(s, i) + [e.p];
      } else {
        assert Through(t, i) == Through(s, i);
      }
    } else {
      assert Through(t, i) == Through(s, i);
    }
  }

  // ----- the objects

  class Conn {
    const filter: Filter
    var queue: seq<Packet>

    constructor (filter: Filter)
      ensures this.filter == filter && queue == []
    {
      this.filter := filter;
      queue := [];
    }
  }

  class Bundler {
    var children: seq<Conn>

    /** What the underlying connection will still deliver before it ends. */
    var incoming: seq<Packet>

    ghost function Filters(): seq<Filter>
      reads this
    {
      seq(|children|, i requires 0 <= i < |children| reads this => children[i].filter)
    }

    ghost function Queues(): seq<seq<Packet>>
      reads this, children
    {
      seq(|children|, i requires 0 <= i < |children| reads this, children => children[i].queue)
    }

    ghost predicate Valid()
      reads this
    {
      forall i, j | 0 <= i < j < |children| :: children[i] != children[j]
    }

    constructor (incoming: seq<Packet>)
      ensures Valid() && children == [] && this.incoming == incoming
    {
      children := [];
      this.incoming := incoming;
    }

    /** A new child comes last, so it sees only what the earlier filters let pass. */
    method Add(filter: Filter) returns (child: Conn)
      requires Valid()
      modifies this`children
      ensures Valid() && fresh(child) && children == old(children) + [child]
      ensures child.filter == filter && child.queue == []
    {
      child := new Conn(filter);
      children := children + [child];
    }

    method Dispatch(p: Packet)
      requires Valid()
      modifies children
      ensures Queues() == Dispatched(Filters(), old(Queues()), p)
    {
      ghost var filters := Filters();
      var i := 0;
      while i < |children|
        invariant 0 <= i <= |children|
        invariant forall j | 0 <= j < i :: !filters[j](p)
        invariant Queues() == old(Queues())
      {
        var child := children[i];
        if child.filter(p) {
          FirstIs(filters, p, i);
          assert Queues()[i] == child.queue;
          if |child.queue| < QUEUE_LENGTH {
            child.queue := child.queue + [p];
          }
          return;
        }
        i := i + 1;
      }
    }

    /** Reads the next packet of a child into a buffer of the given size. */
    method ReadFrom(i: nat, capacity: nat) returns (data: seq<Byte>, addr: int, ok: bool)
      requires Valid() && i < |children|
      modifies this`incoming, children
      ensures var r := Pull(Filters(), old(Queues()), old(incoming), i);
        && Queues() == r.queues && incoming == r.incoming
        && (ok <==> r.got.Some?)
        && (ok ==> addr == r.got.value.addr
                   && var all := r.got.value.data;
                   data == all[..if |all| < capacity then |all| else capacity])
    {
      ghost var filters := Filters();
      while true
        invariant Valid() && Filters() == filters
        invariant Pull(filters, Queues(), incoming, i) == Pull(filters, old(Queues()), old(incoming), i)
        decreases |incoming|
      {
        assert Queues()[i] == children[i].queue;
        if |children[i].queue| > 0 {
          var p := children[i].queue[0];
          children[i].queue := children[i].queue[1..];
          var n := if |p.data| < capacity then |p.data| else capacity;
          return p.data[..n], p.addr, true;
        }
        if |incoming| == 0 {
          return [], 0, false;
        }
        var p := incoming[0];
        ghost var queues, before := Queues(), incoming;
        assert queues[i] == [] && before != [];
        assert Pull(filters, queues, before, i) == Pull(filters, Dispatched(filters, queues, p), before[1..], i);
        incoming := incoming[1..];
        assert Queues() == queues;
        Dispatch(p);
      }
    }
  }

  lemma {:induction false} FirstIs(filters: seq<Filter>, p: Packet, i: nat)
    requires i < |filters| && filters[i](p) && forall j | 0 <= j < i :: !filters[j](p)
    ensures FirstMatch(filters, p) == i
  {
  }
}
