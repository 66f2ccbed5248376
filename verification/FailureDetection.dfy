/** A probed endpoint in time: ticker, outstanding pings and reported state. Time passes only when
    nothing is due, so timers fire on time and woken goroutines act at once. */
module FailureDetection {
  import opened Options
  import T = Ticker

  const DROP_TIMEOUT := 400

  datatype Endpoint = Endpoint(
    now: int, ticks: T.Ticks, outstanding: map<nat, int>, packetID: nat,
    priority: T.Priority, state: T.State, rtt: int)

  datatype Step =
    | TickerStep(step: T.Step)
    | SetPriority(priority: T.Priority)
    | ReceivePing
    | SendPing
    | FailToSend
    | AcceptPong(id: nat)
    | Drop(id: nat)
    | Pass(duration: nat)

  /** The time when the pass step may next stop being possible. */
  predicate NothingDueBefore(e: Endpoint, until: int) {
    && e.ticks.place.Waiting? && !e.ticks.reset && !e.ticks.wake
    && until <= e.ticks.place.deadline
    && forall id | id in e.outstanding :: until <= e.outstanding[id] + DROP_TIMEOUT
  }

  ghost predicate Enabled(e: Endpoint, s: Step) {
    match s
    case TickerStep(step) =>
      (step.Arm? || step.TakeReset? || step.Fire? || step.Lengthen?)
      && T.Enabled(T.System(e.ticks, e.now, []), step)
    case SetPriority(p) => T.IsPriority(p)
    case ReceivePing => true
    case SendPing => e.ticks.wake
    case FailToSend => e.ticks.wake
    case AcceptPong(id) => id in e.outstanding
    case Drop(id) => id in e.outstanding && e.outstanding[id] + DROP_TIMEOUT <= e.now
    case Pass(duration) => NothingDueBefore(e, e.now + duration)
  }

  /** Encrypting a ping may fail; then its ID is used up and nothing is waited for. A received ping
      restarts the ticker whatever the reported state is by then: the check of the state and the
      restart are not one action in the program. */
  ghost function Next(e: Endpoint, s: Step): Endpoint
    requires Enabled(e, s)
  {
    match s
    case TickerStep(step) => e.(ticks := T.Next(T.System(e.ticks, e.now, []), step).ticks)
    case SetPriority(p) => e.(priority := p, ticks := T.WithState(e.ticks, e.state, p, false))
    case ReceivePing => e.(ticks := T.WithState(e.ticks, T.Connecting, e.priority, true))
    case SendPing =>
      e.(ticks := e.ticks.(wake := false), packetID := e.packetID + 1,
         outstanding := e.outstanding[e.packetID := e.now])
    case FailToSend => e.(ticks := e.ticks.(wake := false), packetID := e.packetID + 1)
    case AcceptPong(id) =>
      var sent := e.outstanding[id];
      e.(outstanding := map k | k in e.outstanding && k != id && sent <= e.outstanding[k] :: e.outstanding[k],
         state := T.Connected, rtt := e.now - sent,
         ticks := T.WithState(e.ticks, T.Connected, e.priority, false))
    case Drop(id) =>
      e.(outstanding := e.outstanding - {id}, state := T.Connecting, rtt := 0,
         ticks := T.WithState(e.ticks, T.Connecting, e.priority, false))
    case Pass(duration) => e.(now := e.now + duration)
  }

  ghost predicate IsRun(e: Endpoint, steps: seq<Step>)
    decreases |steps|
  {
    steps == [] || (Enabled(e, steps[0]) && IsRun(Next(e, steps[0]), steps[1..]))
  }

  ghost function After(e: Endpoint, steps: seq<Step>): Endpoint
    requires IsRun(e, steps)
    decreases |steps|
  {
    if steps == [] then e else After(Next(e, steps[0]), steps[1..])
  }

  function Start(now: int, never: int): Endpoint {
    Endpoint(now, T.Fresh(never), map[], 0, T.Primary, T.Connecting, 0)
  }

  ghost predicate Inv(e: Endpoint) {
    && T.Bounded(e.ticks)
    && e.ticks.runPrev <= e.now
    && T.IsPriority(e.priority) && T.IsState(e.state)
    && (forall id | id in e.outstanding ::
          id < e.packetID && e.outstanding[id] <= e.now <= e.outstanding[id] + DROP_TIMEOUT)
  }

  lemma InvStep(e: Endpoint, s: Step)
    requires Inv(e) && Enabled(e, s)
    ensures Inv(Next(e, s))
  {
  }

  lemma {:induction false} InvRun(e: Endpoint, steps: seq<Step>)
    requires Inv(e) && IsRun(e, steps)
    ensures Inv(After(e, steps))
    decreases |steps|
  {
    if steps == [] {
    } else {
      InvStep(e, steps[0]);
      InvRun(Next(e, steps[0]), steps[1..]);
    }
  }

  /** Since time `t` nothing was heard: the state is Connecting already, or a ping that was sent in
      time is still outstanding, or the next ping is bound to be sent in time. */
  ghost predicate OnTheWay(t: int, e: Endpoint) {
    || e.state == T.Connecting
    || (exists id :: id in e.outstanding && e.outstanding[id] <= t + T.MAX_INTERVAL)
    || (e.now <= t + T.MAX_INTERVAL && (e.ticks.wake || e.ticks.runPrev <= t))
  }

  /** As before, but the next ping is sent already. */
  ghost predicate PingIsOut(t: int, e: Endpoint) {
    e.state == T.Connecting || (exists id :: id in e.outstanding && e.outstanding[id] <= t + T.MAX_INTERVAL)
  }

  /** The first ping that is tried in these steps can be encrypted. */
  predicate FirstSendWorks(steps: seq<Step>) {
    steps == [] || (!steps[0].FailToSend? && (steps[0].SendPing? || FirstSendWorks(steps[1..])))
  }

  lemma PingIsOutStep(t: int, e: Endpoint, s: Step)
    requires Inv(e) && PingIsOut(t, e) && Enabled(e, s) && !s.AcceptPong?
    ensures PingIsOut(t, Next(e, s))
  {
    if e.state != T.Connecting {
      var id :| id in e.outstanding && e.outstanding[id] <= t + T.MAX_INTERVAL;
      assert s == Drop(id) || id in Next(e, s).outstanding;
    }
  }

  lemma {:induction false} PingIsOutRun(t: int, e: Endpoint, steps: seq<Step>)
    requires Inv(e) && PingIsOut(t, e) && IsRun(e, steps)
    requires forall s | s in steps :: !s.AcceptPong?
    ensures Inv(After(e, steps)) && PingIsOut(t, After(e, steps))
    decreases |steps|
  {
    if steps == [] {
    } else {
      InvStep(e, steps[0]);
      PingIsOutStep(t, e, steps[0]);
      PingIsOutRun(t, Next(e, steps[0]), steps[1..]);
    }
  }

  lemma OnTheWayStep(t: int, e: Endpoint, s: Step)
    requires Inv(e) && OnTheWay(t, e) && Enabled(e, s) && !s.AcceptPong? && !s.FailToSend?
    ensures OnTheWay(t, Next(e, s))
    ensures s.SendPing? ==> PingIsOut(t, Next(e, s))
  {
    if e.state != T.Connecting {
      if id :| id in e.outstanding && e.outstanding[id] <= t + T.MAX_INTERVAL {
        assert s == Drop(id) || id in Next(e, s).outstanding;
      } else if s.SendPing? {
        assert e.packetID in Next(e, s).outstanding;
      }
    }
  }

  lemma {:induction false} OnTheWayRun(t: int, e: Endpoint, steps: seq<Step>)
    requires Inv(e) && OnTheWay(t, e) && IsRun(e, steps) && FirstSendWorks(steps)
    requires forall s | s in steps :: !s.AcceptPong?
    ensures Inv(After(e, steps)) && OnTheWay(t, After(e, steps))
    decreases |steps|
  {
    if steps == [] {
    } else {
      InvStep(e, steps[0]);
      OnTheWayStep(t, e, steps[0]);
      if steps[0].SendPing? {
        PingIsOutRun(t, Next(e, steps[0]), steps[1..]);
      } else {
        OnTheWayRun(t, Next(e, steps[0]), steps[1..]);
      }
    }
  }

  /** Failure detection: in every run, if from some point on no pong is accepted and the first ping
      that is tried then can be encrypted, then 10 s and 400 ms later the endpoint reports Connecting,
      however often its priority changes and pings are received in between. */
  lemma FailureDetected(now: int, never: int, before: seq<Step>, silent: seq<Step>)
    requires never <= now && IsRun(Start(now, never), before)
    requires IsRun(After(Start(now, never), before), silent) && FirstSendWorks(silent)
    requires forall s | s in silent :: !s.AcceptPong?
    ensures var e := After(Start(now, never), before);
      var d := After(e, silent);
      d.now > e.now + 10_400 ==> d.state == T.Connecting
  {
    var e := After(Start(now, never), before);
    InvRun(Start(now, never), before);
    OnTheWayRun(e.now, e, silent);
  }

  /** Once reported, the loss stays reported until a pong is accepted. */
  lemma {:induction false} StaysConnecting(e: Endpoint, steps: seq<Step>)
    requires IsRun(e, steps) && e.state == T.Connecting
    requires forall s | s in steps :: !s.AcceptPong?
    ensures After(e, steps).state == T.Connecting
    decreases |steps|
  {
    if steps == [] {
    } else {
      StaysConnecting(Next(e, steps[0]), steps[1..]);
    }
  }

  /** Time never gets stuck: if a millisecond cannot pass, then something is due that can be done. */
  lemma SomethingCanHappen(e: Endpoint)
    requires Inv(e)
    ensures
      || Enabled(e, Pass(1))
      || Enabled(e, TickerStep(T.Arm)) || Enabled(e, TickerStep(T.TakeReset))
      || Enabled(e, TickerStep(T.Fire)) || Enabled(e, TickerStep(T.Lengthen))
      || Enabled(e, SendPing)
      || exists id :: Enabled(e, Drop(id))
  {
    if e.ticks.place.Waiting? && !e.ticks.reset && !e.ticks.wake && e.now < e.ticks.place.deadline {
      if id :| id in e.outstanding && e.outstanding[id] + DROP_TIMEOUT < e.now + 1 {
        assert Enabled(e, Drop(id));
      }
    }
  }

  /** The pings whose timers are due. */
  ghost function Due(e: Endpoint): set<nat> {
    set id | id in e.outstanding && e.outstanding[id] + DROP_TIMEOUT <= e.now
  }

  /** Bounds the number of ticker steps before time has to pass. */
  function TickerRank(e: Endpoint): nat {
    (if e.ticks.runPrev < e.now then 3 else 0) + (if e.ticks.reset then 2 else 0)
    + (match e.ticks.place case Fired => 2 case Arming => 1 case Waiting(_) => 0)
  }

  /** Steps that happen by themselves, when pings can or cannot be encrypted. */
  predicate Unaided(s: Step, encrypts: bool) {
    s.TickerStep? || s.Drop? || s.Pass? || if encrypts then s.SendPing? else s.FailToSend?
  }

  ghost predicate LessLeft(a: Endpoint, b: Endpoint) {
    || Due(a) < Due(b)
    || (Due(a) == Due(b) && TickerRank(a) < TickerRank(b))
    || (Due(a) == Due(b) && TickerRank(a) == TickerRank(b) && !a.ticks.wake && b.ticks.wake)
  }

  /** What is due can be done, and leaves less to do at this time. */
  lemma DueStep(e: Endpoint, encrypts: bool) returns (s: Step)
    requires Inv(e) && !Enabled(e, Pass(1))
    ensures Unaided(s, encrypts) && Enabled(e, s) && Next(e, s).now == e.now && LessLeft(Next(e, s), e)
  {
    SomethingCanHappen(e);
    if id :| Enabled(e, Drop(id)) {
      s := Drop(id);
      assert id in Due(e) && Due(Next(e, s)) == Due(e) - {id};
    } else if Enabled(e, TickerStep(T.Arm)) {
      s := TickerStep(T.Arm);
    } else if Enabled(e, TickerStep(T.Lengthen)) {
      s := TickerStep(T.Lengthen);
    } else if Enabled(e, TickerStep(T.TakeReset)) {
      s := TickerStep(T.TakeReset);
    } else if Enabled(e, TickerStep(T.Fire)) {
      s := TickerStep(T.Fire);
    } else {
      s := if encrypts then SendPing else FailToSend;
      assert Due(Next(e, s)) == Due(e);
    }
  }

  /** Time passes: from every state and for every duration there is a run in which nothing happens
      but what happens by itself, no pong among it, and at whose end exactly that time has passed. */
  lemma {:induction false} TimeAdvances(e: Endpoint, duration: nat, encrypts: bool) returns (steps: seq<Step>)
    requires Inv(e)
    ensures IsRun(e, steps) && After(e, steps).now == e.now + duration
    ensures forall s | s in steps :: Unaided(s, encrypts)
    decreases duration, Due(e), TickerRank(e), e.ticks.wake
  {
    if duration == 0 {
      steps := [];
    } else {
      var s: Step;
      var left := duration;
      if Enabled(e, Pass(1)) {
        s, left := Pass(1), duration - 1;
      } else {
        s := DueStep(e, encrypts);
      }
      InvStep(e, s);
      var rest := TimeAdvances(Next(e, s), left, encrypts);
      steps := [s] + rest;
      assert steps[1..] == rest;
    }
  }

  /** So silence is noticed: whatever happened before, there is a run without any accepted pong that
      is long enough, and at its end the endpoint reports Connecting. */
  lemma SilenceIsNoticed(now: int, never: int, before: seq<Step>) returns (silent: seq<Step>)
    requires never <= now && IsRun(Start(now, never), before)
    ensures var e := After(Start(now, never), before);
      && IsRun(e, silent) && FirstSendWorks(silent) && (forall s | s in silent :: !s.AcceptPong?)
      && After(e, silent).now == e.now + 10_401
      && After(e, silent).state == T.Connecting
  {
    InvRun(Start(now, never), before);
    silent := TimeAdvances(After(Start(now, never), before), T.MAX_INTERVAL + DROP_TIMEOUT + 1, true);
    AllSendsWork(silent);
    FailureDetected(now, never, before, silent);
  }

  lemma {:induction false} AllSendsWork(steps: seq<Step>)
    requires forall s | s in steps :: !s.FailToSend?
    ensures FirstSendWorks(steps)
  {
    if steps == [] {
    } else {
      AllSendsWork(steps[1..]);
    }
  }

  lemma {:induction false} NothingSentNothingLost(e: Endpoint, steps: seq<Step>)
    requires IsRun(e, steps) && e.outstanding == map[]
    requires forall s | s in steps :: Unaided(s, false)
    ensures After(e, steps).state == e.state
    decreases |steps|
  {
    if steps == [] {
    } else {
      assert steps[0] in steps;
      NothingSentNothingLost(Next(e, steps[0]), steps[1..]);
    }
  }

  /** Why a ping has to be encrypted: while that fails and no ping is outstanding, silence of any
      length may pass without being reported. */
  lemma SilenceUnnoticed(e: Endpoint, duration: nat) returns (silent: seq<Step>)
    requires Inv(e) && e.outstanding == map[]
    ensures IsRun(e, silent) && (forall s | s in silent :: !s.AcceptPong?)
    ensures After(e, silent).now == e.now + duration && After(e, silent).state == e.state
  {
    silent := TimeAdvances(e, duration, false);
    NothingSentNothingLost(e, silent);
  }

  // ----- what is reported

  predicate IsVerdict(s: Step) {
    s.AcceptPong? || s.Drop?
  }

  /** The last accepted pong or dropped ping of the steps, if there is one. */
  function LastVerdict(steps: seq<Step>): Option<Step> {
    if steps == [] then None
    else if IsVerdict(steps[|steps| - 1]) then Some(steps[|steps| - 1])
    else LastVerdict(steps[..|steps| - 1])
  }

  /** The last priority that was set, or the given one. */
  function LastPriority(steps: seq<Step>, before: T.Priority): T.Priority {
    if steps == [] then before
    else if steps[|steps| - 1].SetPriority? then steps[|steps| - 1].priority
    else LastPriority(steps[..|steps| - 1], before)
  }

  lemma {:induction false} RunSplit(e: Endpoint, steps: seq<Step>)
    requires IsRun(e, steps) && steps != []
    ensures var front := steps[..|steps| - 1];
      && IsRun(e, front) && Enabled(After(e, front), steps[|steps| - 1])
      && After(e, steps) == Next(After(e, front), steps[|steps| - 1])
    decreases |steps|
  {
    if |steps| == 1 {
    } else {
      var rest := steps[1..];
      RunSplit(Next(e, steps[0]), rest);
      var front := steps[..|steps| - 1];
      assert front[0] == steps[0] && front[1..] == rest[..|rest| - 1];
    }
  }

  /** In every run the endpoint reports Connected if and only if the last verdict was an accepted
      pong; otherwise it reports Connecting and no round-trip time. Its priority, which is also that
      of the ticker, is the last one set. */
  lemma {:induction false} ReportsLastVerdict(now: int, never: int, steps: seq<Step>)
    requires IsRun(Start(now, never), steps)
    ensures var e := After(Start(now, never), steps);
      && (e.state == T.Connected <==> LastVerdict(steps).Some? && LastVerdict(steps).value.AcceptPong?)
      && (e.state != T.Connected ==> e.state == T.Connecting && e.rtt == 0)
      && e.priority == e.ticks.priority == LastPriority(steps, T.Primary)
    decreases |steps|
  {
    if steps == [] {
    } else {
      RunSplit(Start(now, never), steps);
      ReportsLastVerdict(now, never, steps[..|steps| - 1]);
    }
  }

  /** As long as there is no verdict the report stays. */
  lemma {:induction false} ReportStays(e: Endpoint, steps: seq<Step>)
    requires IsRun(e, steps) && forall s | s in steps :: !IsVerdict(s)
    ensures After(e, steps).state == e.state && After(e, steps).rtt == e.rtt
    decreases |steps|
  {
    if steps == [] {
    } else {
      assert steps[0] in steps;
      ReportStays(Next(e, steps[0]), steps[1..]);
    }
  }

  /** A ping that is still outstanding has the time at which it was sent; IDs are not used again. */
  lemma {:induction false} SentTimeStays(e: Endpoint, steps: seq<Step>, id: nat)
    requires Inv(e) && IsRun(e, steps) && id < e.packetID && id in After(e, steps).outstanding
    ensures id in e.outstanding && After(e, steps).outstanding[id] == e.outstanding[id]
    decreases |steps|
  {
    if steps == [] {
    } else {
      InvStep(e, steps[0]);
      SentTimeStays(Next(e, steps[0]), steps[1..], id);
    }
  }

  /** In every run, when the pong for a ping that was sent after `before` is accepted after `between`,
      then until the next verdict the endpoint reports Connected and the time between sending and
      accepting. */
  lemma RoundTripReported(now: int, never: int, before: seq<Step>, between: seq<Step>, quiet: seq<Step>)
    requires never <= now && IsRun(Start(now, never), before)
    requires var e := After(Start(now, never), before);
      Enabled(e, SendPing) && IsRun(Next(e, SendPing), between)
    requires var e := After(Start(now, never), before);
      var f := After(Next(e, SendPing), between);
      Enabled(f, AcceptPong(e.packetID)) && IsRun(Next(f, AcceptPong(e.packetID)), quiet)
    requires forall s | s in quiet :: !IsVerdict(s)
    ensures var e := After(Start(now, never), before);
      var f := After(Next(e, SendPing), between);
      var g := After(Next(f, AcceptPong(e.packetID)), quiet);
      g.state == T.Connected && g.rtt == f.now - e.now
  {
    InvRun(Start(now, never), before);
    var e := After(Start(now, never), before);
    InvStep(e, SendPing);
    var f := After(Next(e, SendPing), between);
    SentTimeStays(Next(e, SendPing), between, e.packetID);
    ReportStays(Next(f, AcceptPong(e.packetID)), quiet);
  }

  /** The ticker works with the reported state. */
  predicate InStep(e: Endpoint) {
    e.ticks.state == e.state && e.ticks.priority == e.priority
  }

  ghost predicate RestartsWhenConnecting(e: Endpoint, steps: seq<Step>)
    requires IsRun(e, steps)
    decreases |steps|
  {
    steps == [] ||
    ((steps[0].ReceivePing? ==> e.state == T.Connecting) && RestartsWhenConnecting(Next(e, steps[0]), steps[1..]))
  }

  /** The ticker keeps working with the reported state and priority as long as no received ping
      restarts it after the state it was meant for is gone. */
  lemma {:induction false} TickerInStep(e: Endpoint, steps: seq<Step>)
    requires InStep(e) && IsRun(e, steps) && RestartsWhenConnecting(e, steps)
    ensures InStep(After(e, steps))
    decreases |steps|
  {
    if steps == [] {
    } else {
      TickerInStep(Next(e, steps[0]), steps[1..]);
    }
  }

  /** A restart that comes too late does put the ticker out of step: the endpoint reports Connected
      and probes as if it were connecting. */
  lemma LateRestart(e: Endpoint)
    requires e.state == T.Connected
    ensures Enabled(e, ReceivePing)
    ensures var f := Next(e, ReceivePing);
      f.state == T.Connected && f.ticks.state == T.Connecting && f.ticks.currentInterval == T.MIN_INTERVAL
  {
  }
}
