/** The status notifiers: writers set a value under a lock and broadcast; a watcher waits on the
    condition variable and hands each change to a callback. */
module Notifier {
  import opened Collections

  /** Where the watcher is between its atomic sections. `Waiting` holds whether a broadcast has
      reached it. */
  datatype Place<T> =
    | Starting
    | Calling(value: T)
    | Looping
    | Waiting(woken: bool)
    | Finished

  /** `history` are the values the status held, in order; the last one is the current one. `prev` is
      what the watcher remembers. */
  datatype Status<T> = Status(history: seq<T>, closed: bool, place: Place<T>, prev: T, delivered: seq<T>)

  datatype Step<T> = Set(value: T) | Close | Start | Call | Loop | Wake

  predicate Enabled<T>(s: Status<T>, step: Step<T>) {
    && s.history != []
    && match step
       case Set(_) => true
       case Close => true
       case Start => s.place.Starting?
       case Call => s.place.Calling?
       case Loop => s.place.Looping?
       case Wake => s.place.Waiting? && s.place.woken
  }

  function Current<T>(s: Status<T>): T
    requires s.history != []
  {
    s.history[|s.history| - 1]
  }

  /** A broadcast wakes the watcher if it waits, and is lost otherwise. */
  function Broadcast<T>(p: Place<T>): Place<T> {
    if p.Waiting? then Waiting(true) else p
  }

  function Next<T(==)>(s: Status<T>, step: Step<T>): Status<T>
    requires Enabled(s, step)
  {
    match step
    case Set(v) => s.(history := s.history + [v], place := Broadcast(s.place))
    case Close => s.(closed := true, place := Broadcast(s.place))
    case Start => s.(prev := Current(s), place := Calling(Current(s)))
    case Call => s.(delivered := s.delivered + [s.place.value], prev := s.place.value, place := Looping)
    case Loop =>
      if s.closed then s.(place := Finished)
      else if Current(s) != s.prev then s.(place := Calling(Current(s)))
      else s.(place := Waiting(false))
    case Wake =>
      if s.closed then s.(place := Finished)
      else if Current(s) != s.prev then s.(place := Calling(Current(s)))
      else s.(place := Looping)
  }

  function Initial<T>(v: T): Status<T> {
    Status([v], false, Starting, v, [])
  }

  ghost predicate IsRun<T>(s: Status<T>, steps: seq<Step<T>>)
    decreases |steps|
  {
    steps == [] || (Enabled(s, steps[0]) && IsRun(Next(s, steps[0]), steps[1..]))
  }

  ghost function After<T>(s: Status<T>, steps: seq<Step<T>>): Status<T>
    requires IsRun(s, steps)
    decreases |steps|
  {
    if steps == [] then s else After(Next(s, steps[0]), steps[1..])
  }

  ghost predicate NoRepeats<T>(delivered: seq<T>) {
    forall i | 0 <= i < |delivered| - 1 :: delivered[i] != delivered[i + 1]
  }

  /** `at` tells when the status held the delivered values. The last delivery, or the one under way, is
      what the watcher remembers. */
  ghost predicate Inv<T>(s: Status<T>, at: seq<nat>) {
    && s.history != []
    && InOrder(s.delivered, s.history, at)
    && NoRepeats(s.delivered)
    && (s.place.Starting? ==> s.delivered == [])
    && (s.place.Finished? ==> s.closed)
    && (s.place.Calling? ==>
          && (s.delivered != [] ==> s.delivered[|s.delivered| - 1] != s.place.value)
          && s.place.value in s.history[if at == [] then 0 else at[|at| - 1]..])
    && (s.place.Looping? || s.place.Waiting? ==> s.delivered != [] && s.prev == s.delivered[|s.delivered| - 1])
    && (s.place.Calling? && s.delivered != [] ==> s.prev == s.delivered[|s.delivered| - 1])
    && (s.place.Waiting? && !s.place.woken ==> !s.closed && s.prev == Current(s))
  }

  /** Where in the history the last delivered value was found. */
  function From(at: seq<nat>): nat {
    if at == [] then 0 else at[|at| - 1]
  }

  lemma SetStep<T>(s: Status<T>, v: T, at: seq<nat>)
    requires Inv(s, at)
    ensures Inv(Next(s, Set(v)), at)
  {
    if s.place.Calling? {
      var k :| From(at) <= k < |s.history| && s.history[k] == s.place.value;
      assert (s.history + [v])[From(at)..][k - From(at)] == s.place.value;
    }
  }

  lemma CallStep<T>(s: Status<T>, at: seq<nat>) returns (at': seq<nat>)
    requires Inv(s, at) && s.place.Calling?
    ensures Inv(Next(s, Call), at')
  {
    var k :| From(at) <= k < |s.history| && s.history[k] == s.place.value;
    at' := at + [k];
    if at != [] {
      assert s.history[From(at)] == s.delivered[|s.delivered| - 1];
    }
  }

  /** The watcher looks at the current value. */
  lemma LookStep<T>(s: Status<T>, step: Step<T>, at: seq<nat>)
    requires Inv(s, at) && Enabled(s, step) && (step.Start? || step.Loop? || step.Wake?)
    ensures Inv(Next(s, step), at)
  {
    assert s.history[From(at)..][|s.history| - 1 - From(at)] == Current(s);
  }

  lemma InvStep<T>(s: Status<T>, step: Step<T>, at: seq<nat>) returns (at': seq<nat>)
    requires Inv(s, at) && Enabled(s, step)
    ensures Inv(Next(s, step), at')
  {
    at' := at;
    match step {
      case Set(v) => SetStep(s, v, at);
      case Call => at' := CallStep(s, at);
      case Close =>
      case _ => LookStep(s, step, at);
    }
  }

  lemma {:induction false} InvRun<T>(s: Status<T>, steps: seq<Step<T>>, at: seq<nat>) returns (at': seq<nat>)
    requires Inv(s, at) && IsRun(s, steps)
    ensures Inv(After(s, steps), at')
    decreases |steps|
  {
    if steps == [] {
      at' := at;
    } else {
      at' := InvStep(s, steps[0], at);
      at' := InvRun(Next(s, steps[0]), steps[1..], at');
    }
  }

  /** Over all interleavings of writers and the watcher: what is delivered is, in order, a
      subsequence of the values the status held, and no value is delivered twice in a row. */
  lemma DeliveredInOrder<T>(v: T, steps: seq<Step<T>>)
    requires IsRun(Initial(v), steps)
    ensures var s := After(Initial(v), steps);
      && IsSubsequence(s.delivered, s.history)
      && NoRepeats(s.delivered)
  {
    var at := InvRun(Initial(v), steps, []);
    var s := After(Initial(v), steps);
    assert InOrder(s.delivered, s.history, at);
    assert IsSubsequence(s.delivered, s.history);
  }

  /** A watcher that is blocked with no wake-up on the way has delivered the current value, and the
      status is not closed: no change is missed and no closing is overslept. */
  lemma BlockedIsUpToDate<T>(v: T, steps: seq<Step<T>>)
    requires IsRun(Initial(v), steps)
    requires After(Initial(v), steps).place == Waiting(false)
    ensures var s := After(Initial(v), steps);
      && !s.closed
      && s.history != []
      && s.delivered != []
      && s.delivered[|s.delivered| - 1] == Current(s)
  {
    var at := InvRun(Initial(v), steps, []);
  }

  // ----- the watcher goes on

  predicate Own<T>(step: Step<T>) {
    step.Start? || step.Call? || step.Loop? || step.Wake?
  }

  /** Bounds the steps that the watcher takes on its own. */
  function Left<T(==)>(s: Status<T>): nat
    requires s.history != []
  {
    match s.place
    case Starting => 5
    case Calling(v) => if v == Current(s) then 2 else 4
    case Looping => if s.prev == Current(s) then 1 else 3
    case Waiting(woken) => if !woken then 0 else if s.prev == Current(s) then 2 else 3
    case Finished => 0
  }

  /** The step that the watcher takes when it is not blocked. */
  lemma OwnStep<T>(s: Status<T>, at: seq<nat>) returns (step: Step<T>, at': seq<nat>)
    requires Inv(s, at) && !s.place.Finished? && s.place != Waiting(false)
    ensures Own(step) && Enabled(s, step) && Inv(Next(s, step), at')
    ensures Next(s, step).history == s.history && Next(s, step).closed == s.closed
    ensures Next(s, step).place.Finished? || Left(Next(s, step)) < Left(s)
    ensures Next(s, step).place.Finished? ==> s.closed
  {
    match s.place {
      case Starting => step := Start;
      case Calling(_) => step := Call;
      case Looping => step := Loop;
      case Waiting(_) => step := Wake;
    }
    at' := InvStep(s, step, at);
  }

  /** Left alone the watcher blocks or finishes, in few steps of its own. */
  lemma {:induction false} Settles<T>(s: Status<T>, at: seq<nat>) returns (steps: seq<Step<T>>, at': seq<nat>)
    requires Inv(s, at)
    ensures IsRun(s, steps) && |steps| <= Left(s) && forall x | x in steps :: Own(x)
    ensures var t := After(s, steps);
      && Inv(t, at') && t.history == s.history && t.closed == s.closed
      && (t.place.Finished? || t.place == Waiting(false))
    decreases Left(s)
  {
    if s.place.Finished? || s.place == Waiting(false) {
      steps, at' := [], at;
    } else {
      var step, at1 := OwnStep(s, at);
      var t := Next(s, step);
      if t.place.Finished? {
        steps, at' := [step], at1;
        assert steps[1..] == [];
        assert IsRun(t, steps[1..]) && After(t, steps[1..]) == t;
      } else {
        var rest, at2 := Settles(t, at1);
        steps, at' := [step] + rest, at2;
        assert steps[1..] == rest;
      }
    }
  }

  /** The watcher goes on: from every reachable state at most five steps of its own lead to where it
      is blocked with the current value delivered last, if the status is open, and to where it has
      finished, if it is closed. It never finishes while the status is open. */
  lemma WatcherGoesOn<T>(v: T, steps: seq<Step<T>>) returns (own: seq<Step<T>>)
    requires IsRun(Initial(v), steps)
    ensures var s := After(Initial(v), steps);
      && (s.place.Finished? ==> s.closed)
      && IsRun(s, own) && |own| <= 5 && (forall x | x in own :: Own(x))
      && var t := After(s, own);
      && t.history == s.history && t.history != []
      && if s.closed then t.place.Finished?
         else t.place == Waiting(false) && t.delivered != [] && t.delivered[|t.delivered| - 1] == Current(t)
  {
    var at := InvRun(Initial(v), steps, []);
    var at': seq<nat>;
    own, at' := Settles(After(Initial(v), steps), at);
  }
}
