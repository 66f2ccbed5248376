/** The coalescing trigger: callers store a configuration and then try to put a token into a channel
    of capacity one; the runner takes the token and then loads the configuration. */
module ReconfigTrigger {

  datatype Runner = Idle | Triggered | Applying

  /** `stored` are all configurations stored so far, in order; `loaded` tells how many of them there
      were when the runner last loaded. `pending` are the callers between their store and their send. */
  datatype Engine<C> = Engine(stored: seq<C>, token: bool, pending: set<int>, runner: Runner, loaded: nat)

  datatype Step<C> =
    | Store(caller: int, config: C)
    | Send(caller: int)
    | Trigger
    | Receive
    | Load
    | Finish

  predicate Enabled<C>(e: Engine<C>, s: Step<C>) {
    match s
    case Store(caller, _) => caller !in e.pending
    case Send(caller) => caller in e.pending
    case Trigger => true
    case Receive => e.runner == Idle && e.token
    case Load => e.runner == Triggered
    case Finish => e.runner == Applying
  }

  /** A send into the full channel does nothing. */
  function Next<C>(e: Engine<C>, s: Step<C>): Engine<C>
    requires Enabled(e, s)
  {
    match s
    case Store(caller, config) => e.(stored := e.stored + [config], pending := e.pending + {caller})
    case Send(caller) => e.(token := true, pending := e.pending - {caller})
    case Trigger => e.(token := true)
    case Receive => e.(token := false, runner := Triggered)
    case Load => e.(loaded := |e.stored|, runner := Applying)
    case Finish => e.(runner := Idle)
  }

  /** Initialisation stores the first configuration, triggers, and only then starts the runner. */
  function Initial<C>(first: C): Engine<C> {
    Engine([first], true, {}, Idle, 0)
  }

  ghost predicate IsRun<C>(e: Engine<C>, steps: seq<Step<C>>)
    decreases |steps|
  {
    steps == [] || (Enabled(e, steps[0]) && IsRun(Next(e, steps[0]), steps[1..]))
  }

  ghost function After<C>(e: Engine<C>, steps: seq<Step<C>>): Engine<C>
    requires IsRun(e, steps)
    decreases |steps|
  {
    if steps == [] then e else After(Next(e, steps[0]), steps[1..])
  }

  /** If the last stored configuration was not loaded, a load of it is on the way. */
  ghost predicate Inv<C>(e: Engine<C>) {
    && e.loaded <= |e.stored|
    && |e.stored| > 0
    && (e.loaded < |e.stored| ==> e.token || e.runner == Triggered || e.pending != {})
  }

  lemma InvStep<C>(e: Engine<C>, s: Step<C>)
    requires Inv(e) && Enabled(e, s)
    ensures Inv(Next(e, s))
  {
    if s.Store? {
      assert s.caller in Next(e, s).pending;
    }
  }

  lemma {:induction false} InvRun<C>(e: Engine<C>, steps: seq<Step<C>>)
    requires Inv(e) && IsRun(e, steps)
    ensures Inv(After(e, steps))
    decreases |steps|
  {
    if steps == [] {
    } else {
      InvStep(e, steps[0]);
      InvRun(Next(e, steps[0]), steps[1..]);
    }
  }

  /** No lost reconfiguration: in every interleaving of callers and the runner, once the channel is
      empty, the runner idle and no caller between its store and its send, the runner has loaded the
      last configuration stored. */
  lemma NoLostReconfig<C>(first: C, steps: seq<Step<C>>)
    requires IsRun(Initial(first), steps)
    requires var e := After(Initial(first), steps);
      !e.token && e.runner == Idle && e.pending == {}
    ensures After(Initial(first), steps).loaded == |After(Initial(first), steps).stored|
  {
    InvRun(Initial(first), steps);
  }

  /** What the runner does without interference until it is idle with an empty channel. */
  function Drain<C>(e: Engine<C>): seq<Step<C>> {
    (match e.runner
     case Idle => []
     case Triggered => [Load, Finish]
     case Applying => [Finish])
    + if e.token then [Receive, Load, Finish] else []
  }

  /** In every reachable state in which no caller is in between, the runner alone gets to the last
      configuration in at most five steps. */
  lemma RunnerCatchesUp<C>(first: C, steps: seq<Step<C>>)
    requires IsRun(Initial(first), steps)
    requires After(Initial(first), steps).pending == {}
    ensures var e := After(Initial(first), steps);
      && |Drain(e)| <= 5
      && IsRun(e, Drain(e))
      && After(e, Drain(e)) == e.(token := false, runner := Idle, loaded := |e.stored|)
  {
    InvRun(Initial(first), steps);
    var e := After(Initial(first), steps);
    var f := if e.runner == Triggered then e.(loaded := |e.stored|, runner := Idle) else e.(runner := Idle);
    var tail := if e.token then [Receive, Load, Finish] else [];
    DrainToken(f);
    if e.runner == Triggered {
      var g := Next(e, Load);
      assert Drain(e)[1..] == [Finish] + tail;
      assert ([Finish] + tail)[1..] == tail;
      assert Next(g, Finish) == f;
      assert IsRun(g, [Finish] + tail) && After(g, [Finish] + tail) == After(f, tail);
    } else if e.runner == Applying {
      assert Drain(e)[1..] == tail;
      assert Next(e, Finish) == f;
    } else {
      assert Drain(e) == tail;
    }
  }

  lemma DrainToken<C>(f: Engine<C>)
    requires f.runner == Idle
    ensures var tail: seq<Step<C>> := if f.token then [Receive, Load, Finish] else [];
      && IsRun(f, tail)
      && After(f, tail) == f.(token := false, loaded := if f.token then |f.stored| else f.loaded)
  {
    if f.token {
      var tail: seq<Step<C>> := [Receive, Load, Finish];
      var g := Next(f, Receive);
      var h := Next(g, Load);
      assert tail[1..] == [Load, Finish] && tail[1..][1..] == [Finish] && tail[1..][1..][1..] == [];
      assert IsRun(h, tail[1..][1..]) && After(h, tail[1..][1..]) == Next(h, Finish);
      assert IsRun(g, tail[1..]) && After(g, tail[1..]) == Next(h, Finish);
    }
  }
}
