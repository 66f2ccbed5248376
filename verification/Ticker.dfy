/** The ticker that says when to ping: a loop that re-arms a timer after every firing and whenever
    its settings change, with exponential back-off. Times are in milliseconds. */
module Ticker {
  import opened Collections
  import opened Powers

  datatype State = Connecting | Connected | UnsetState

  datatype Priority = Primary | Sub | UnsetPriority

  /** Where the loop is: about to arm the timer, waiting with the timer armed, or having fired and
      about to lengthen the interval. */
  datatype Place = Arming | Waiting(deadline: int) | Fired

  /** `reset` and `wake` are the channels of capacity one. */
  datatype Ticks = Ticks(
    multiplier: int, currentInterval: int, maxInterval: int, state: State, priority: Priority,
    reset: bool, wake: bool, runPrev: int, place: Place)

  const MIN_INTERVAL := 100
  const MAX_INTERVAL := 10_000
  const PRIMARY_MAX := 3_000
  const CONNECTED_INTERVAL := 3_000

  predicate IsState(s: State) {
    s == Connecting || s == Connected
  }

  predicate IsPriority(p: Priority) {
    p == Primary || p == Sub
  }

  // ----- the steps

  function WithState(t: Ticks, state: State, priority: Priority, forceReinit: bool): Ticks {
    if !forceReinit && t.state == state && t.priority == priority then t
    else
      t.(maxInterval := if priority == Primary then PRIMARY_MAX else MAX_INTERVAL,
         currentInterval := match state
                            case Connecting => MIN_INTERVAL
                            case Connected => CONNECTED_INTERVAL
                            case UnsetState => t.currentInterval,
         multiplier := 2, state := state, priority := priority, reset := true)
  }

  function Armed(t: Ticks): Ticks {
    t.(place := Waiting(t.runPrev + t.currentInterval))
  }

  function ResetTaken(t: Ticks): Ticks {
    t.(reset := false, place := Arming)
  }

  function TimerFired(t: Ticks, now: int): Ticks {
    t.(wake := true, runPrev := now, place := Fired)
  }

  function Lengthened(t: Ticks): Ticks {
    var longer := t.currentInterval * t.multiplier;
    t.(currentInterval := if longer > t.maxInterval then t.maxInterval else longer, place := Arming)
  }

  /** A new ticker wakes its owner at once; `never` is a time long past. */
  function Fresh(never: int): Ticks {
    WithState(Ticks(0, 0, 0, UnsetState, UnsetPriority, false, false, never, Arming), Connecting, Primary, false)
    .(wake := true)
  }

  /** The ticker at work: the time, and the times at which it fired. */
  datatype System = System(ticks: Ticks, now: int, fired: seq<int>)

  datatype Step =
    | SetState(state: State, priority: Priority, forceReinit: bool)
    | Arm
    | TakeReset
    | Fire
    | Lengthen
    | ReceiveWake
    | Pass(duration: nat)

  predicate Enabled(s: System, step: Step) {
    match step
    case SetState(state, priority, _) => IsState(state) && IsPriority(priority)
    case Arm => s.ticks.place.Arming?
    case TakeReset => s.ticks.place.Waiting? && s.ticks.reset
    case Fire => s.ticks.place.Waiting? && s.ticks.place.deadline <= s.now
    case Lengthen => s.ticks.place.Fired?
    case ReceiveWake => s.ticks.wake
    case Pass(_) => true
  }

  function Next(s: System, step: Step): System
    requires Enabled(s, step)
  {
    match step
    case SetState(state, priority, force) => s.(ticks := WithState(s.ticks, state, priority, force))
    case Arm => s.(ticks := Armed(s.ticks))
    case TakeReset => s.(ticks := ResetTaken(s.ticks))
    case Fire => s.(ticks := TimerFired(s.ticks, s.now), fired := s.fired + [s.now])
    case Lengthen => s.(ticks := Lengthened(s.ticks))
    case ReceiveWake => s.(ticks := s.ticks.(wake := false))
    case Pass(duration) => s.(now := s.now + duration)
  }

  ghost predicate IsRun(s: System, steps: seq<Step>)
    decreases |steps|
  {
    steps == [] || (Enabled(s, steps[0]) && IsRun(Next(s, steps[0]), steps[1..]))
  }

  ghost function After(s: System, steps: seq<Step>): System
    requires IsRun(s, steps)
    decreases |steps|
  {
    if steps == [] then s else After(Next(s, steps[0]), steps[1..])
  }

  // ----- what every run keeps

  /** The interval stays in its bounds, and while the loop waits the timer is armed for the current
      interval unless a reset is pending. */
  predicate Bounded(t: Ticks) {
    && t.multiplier == 2
    && IsState(t.state) && IsPriority(t.priority)
    && t.maxInterval == (if t.priority == Primary then PRIMARY_MAX else MAX_INTERVAL)
    && MIN_INTERVAL <= t.currentInterval <= t.maxInterval
    && (t.place.Waiting? ==>
          && t.runPrev + MIN_INTERVAL <= t.place.deadline <= t.runPrev + MAX_INTERVAL
          && (t.place.deadline == t.runPrev + t.currentInterval || t.reset))
  }

  ghost predicate Spaced(fired: seq<int>) {
    forall i | 0 <= i < |fired| - 1 :: fired[i] + MIN_INTERVAL <= fired[i + 1]
  }

  ghost predicate Inv(s: System) {
    && Bounded(s.ticks)
    && s.ticks.runPrev <= s.now
    && Spaced(s.fired)
    && (s.fired != [] ==> s.ticks.runPrev == s.fired[|s.fired| - 1])
  }

  lemma InvStep(s: System, step: Step)
    requires Inv(s) && Enabled(s, step)
    ensures Inv(Next(s, step))
  {
  }

  lemma {:induction false} InvRun(s: System, steps: seq<Step>)
    requires Inv(s) && IsRun(s, steps)
    ensures Inv(After(s, steps))
    decreases |steps|
  {
    if steps == [] {
    } else {
      InvStep(s, steps[0]);
      InvRun(Next(s, steps[0]), steps[1..]);
    }
  }

  /** In every interleaving of the loop with its callers: intervals stay between 100 ms and their
      maximum of at most 10 s, firings are at least 100 ms apart, and a waiting loop is armed for
      the current interval or about to be re-armed. */
  lemma TickerSafety(never: int, now: int, steps: seq<Step>)
    requires never <= now
    requires IsRun(System(Fresh(never), now, []), steps)
    ensures var s := After(System(Fresh(never), now, []), steps);
      && 100 <= s.ticks.currentInterval <= s.ticks.maxInterval <= 10_000
      && (forall i | 0 <= i < |s.fired| - 1 :: s.fired[i] + 100 <= s.fired[i + 1])
      && (s.ticks.place.Waiting? ==>
            s.ticks.place.deadline == s.ticks.runPrev + s.ticks.currentInterval || s.ticks.reset)
  {
    InvRun(System(Fresh(never), now, []), steps);
  }

  /** One undisturbed round of the loop: it fires at `times[0]`, lengthens and arms again. */
  function Rounds(t: Ticks, times: seq<int>): Ticks {
    if times == [] then t
    else Armed(Lengthened(TimerFired(Rounds(t, times[..|times| - 1]), times[|times| - 1])))
  }

  /** After n undisturbed firings the interval has doubled n times, up to its maximum. */
  lemma {:induction false} BackOff(t: Ticks, times: seq<int>)
    requires Bounded(t)
    ensures Rounds(t, times).maxInterval == t.maxInterval && Rounds(t, times).multiplier == 2
    ensures Rounds(t, times).currentInterval == Min(t.currentInterval * Pow2(|times|), t.maxInterval)
  {
    if times == [] {
      assert t.currentInterval * Pow2(0) == t.currentInterval;
    } else {
      var n := |times| - 1;
      BackOff(t, times[..n]);
      assert t.currentInterval * Pow2(n + 1) == 2 * (t.currentInterval * Pow2(n));
    }
  }

  /** How often it fires after a change of state or priority, or a forced restart: first 100 ms after
      the last firing when connecting and 3 s when connected; then, undisturbed, at intervals that
      double up to 3 s for a primary endpoint and 10 s for others. `times` are the firings. */
  lemma ProbeSchedule(t: Ticks, state: State, priority: Priority, force: bool, times: seq<int>)
    requires IsState(state) && IsPriority(priority)
    requires force || t.state != state || t.priority != priority
    ensures WithState(t, state, priority, force).reset
    ensures var u := Armed(ResetTaken(WithState(t, state, priority, force)));
      var first := if state == Connecting then 100 else 3_000;
      var most := if priority == Primary then 3_000 else 10_000;
      var interval := Min(first * Pow2(|times|), most);
      && u.place == Waiting(t.runPrev + first)
      && Rounds(u, times).currentInterval == interval
      && (times != [] ==> Rounds(u, times).place == Waiting(times[|times| - 1] + interval))
  {
    BackOff(Armed(ResetTaken(WithState(t, state, priority, force))), times);
  }

  // ----- the object

  class LoopTicker {
    var multiplier: int
    var currentInterval: int
    var maxInterval: int
    var state: State
    var priority: Priority
    var reset: bool
    var wakeCh: bool
    var runPrev: int
    var place: Place

    ghost function Value(): Ticks
      reads this
    {
      Ticks(multiplier, currentInterval, maxInterval, state, priority, reset, wakeCh, runPrev, place)
    }

    constructor (never: int)
      ensures Value() == Fresh(never) && Bounded(Value())
      ensures state == Connecting && priority == Primary && currentInterval == 100 && wakeCh
    {
      multiplier, currentInterval, maxInterval := 0, 0, 0;
      state, priority := UnsetState, UnsetPriority;
      reset, wakeCh, runPrev, place := false, false, never, Arming;
      new;
      ChangeState(Connecting, Primary, false);
      Wake();
    }

    method Wake()
      modifies this`wakeCh
      ensures Value() == old(Value()).(wake := true)
    {
      if !wakeCh {
        wakeCh := true;
      }
    }

    method ChangeState(state: State, priority: Priority, forceReinit: bool)
      modifies this
      ensures Value() == WithState(old(Value()), state, priority, forceReinit)
      ensures this.state == state && this.priority == priority
      ensures !forceReinit && old(this.state) == state && old(this.priority) == priority ==> Value() == old(Value())
      ensures (forceReinit || old(this.state) != state || old(this.priority) != priority) && IsState(state) ==>
                && reset && currentInterval == (if state == Connecting then 100 else 3_000)
                && maxInterval == (if priority == Primary then 3_000 else 10_000)
    {
      if !forceReinit && this.state == state && this.priority == priority {
        return;
      }
      if priority == Primary {
        maxInterval := PRIMARY_MAX;
      } else {
        maxInterval := MAX_INTERVAL;
      }
      match state {
        case Connecting => currentInterval := MIN_INTERVAL;
        case Connected => currentInterval := CONNECTED_INTERVAL;
        case UnsetState =>
      }
      multiplier := 2;
      this.state := state;
      this.priority := priority;
      if !reset {
        reset := true;
      }
    }

    /** The top of the loop. */
    method ArmTimer()
      requires place == Arming
      modifies this`place
      ensures Value() == Armed(old(Value()))
      ensures place == Waiting(runPrev + currentInterval)
    {
      place := Waiting(runPrev + currentInterval);
    }

    /** What a waiting loop does once it is woken by the timer at `now`, or by a reset. */
    method Continue(now: int, byReset: bool)
      requires place.Waiting? && if byReset then reset else place.deadline <= now
      modifies this
      ensures Value() == if byReset then ResetTaken(old(Value())) else Lengthened(TimerFired(old(Value()), now))
      ensures place == Arming
      ensures byReset ==> runPrev == old(runPrev) && wakeCh == old(wakeCh) && currentInterval == old(currentInterval)
      ensures !byReset ==>
                && wakeCh && runPrev == now
                && currentInterval == Min(old(currentInterval) * old(multiplier), old(maxInterval))
    {
      if byReset {
        reset := false;
        place := Arming;
        return;
      }
      Wake();
      runPrev := now;
      place := Fired;
      currentInterval := currentInterval * multiplier;
      if currentInterval > maxInterval {
        currentInterval := maxInterval;
      }
      place := Arming;
    }
  }
}
