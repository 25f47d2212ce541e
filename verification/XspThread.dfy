/** The shutdown handshake of LBMXspThread (UmLatPing.java): `run` on one thread, `terminate` on another,
    two volatile flags between them.  One step is one access to a flag or one end of a call. */
module XspThread {

  datatype RunnerPc =
    | NotStarted   // start() was called, run() not begun
    | Testing      // about to read _continueThread
    | Entering     // read true, about to call processEvents
    | Processing   // inside processEvents
    | Leaving      // read false, about to clear _running
    | Done

  datatype TerminatorPc =
    | NotCalled
    | Unblocking   // _continueThread cleared
    | Checking     // about to read _running
    | Sleeping
    | Returned

  datatype State = State(continueThread: bool, running: bool, runner: RunnerPc, terminator: TerminatorPc,
                         exited: bool)

  datatype Step =
    | SetRunning | TestContinue | Enter | Return | Throw | ClearRunning
    | ClearContinue | Unblock | TestRunning | Wake

  predicate RunnerStep(step: Step) {
    step.SetRunning? || step.TestContinue? || step.Enter? || step.Return? || step.Throw? || step.ClearRunning?
  }

  function Initial(): State {
    State(true, false, NotStarted, NotCalled, false)
  }

  predicate Enabled(s: State, step: Step) {
    !s.exited &&
    match step
    case SetRunning => s.runner == NotStarted
    case TestContinue => s.runner == Testing
    case Enter => s.runner == Entering
    case Return => s.runner == Processing
    case Throw => s.runner == Processing
    case ClearRunning => s.runner == Leaving
    case ClearContinue => s.terminator == NotCalled
    case Unblock => s.terminator == Unblocking
    case TestRunning => s.terminator == Checking
    case Wake => s.terminator == Sleeping
  }

  function Apply(s: State, step: Step): State
    requires Enabled(s, step)
  {
    match step
    case SetRunning => s.(running := true, runner := Testing)
    case TestContinue => s.(runner := if s.continueThread then Entering else Leaving)
    case Enter => s.(runner := Processing)
    case Return => s.(runner := Testing)
    case Throw => s.(exited := true)   // System.exit
    case ClearRunning => s.(running := false, runner := Done)
    case ClearContinue => s.(continueThread := false, terminator := Unblocking)
    case Unblock => s.(terminator := Checking)
    case TestRunning => s.(terminator := if s.running then Sleeping else Returned)
    case Wake => s.(terminator := Checking)
  }

  /** Any interleaving: each step enabled where it is taken. */
  predicate Run(s: State, steps: seq<Step>)
    decreases |steps|
  {
    steps == [] || (Enabled(s, steps[0]) && Run(Apply(s, steps[0]), steps[1..]))
  }

  function After(s: State, steps: seq<Step>): State
    requires Run(s, steps)
    decreases |steps|
  {
    if steps == [] then s else After(Apply(s, steps[0]), steps[1..])
  }

  ghost predicate Invariant(s: State) {
    && (s.continueThread <==> s.terminator == NotCalled)
    && (s.running <==> s.runner != NotStarted && s.runner != Done)
    && (s.runner == Leaving || s.runner == Done ==> !s.continueThread)
    && (s.terminator == Returned && !s.exited ==> s.runner != Entering && s.runner != Processing)
  }

  lemma {:induction false} InvariantHolds(s: State, steps: seq<Step>)
    requires Invariant(s) && Run(s, steps)
    ensures Invariant(After(s, steps))
    decreases |steps|
  {
    if steps == [] {
    } else {
      InvariantHolds(Apply(s, steps[0]), steps[1..]);
    }
  }

  lemma {:induction false} RunSplits(s: State, first: seq<Step>, rest: seq<Step>)
    requires Run(s, first + rest)
    ensures Run(s, first) && Run(After(s, first), rest)
    ensures After(s, first + rest) == After(After(s, first), rest)
    decreases |first|
  {
    if first == [] {
      assert first + rest == rest;
    } else {
      assert (first + rest)[1..] == first[1..] + rest;
      RunSplits(Apply(s, first[0]), first[1..], rest);
    }
  }

  function CallsStarted(steps: seq<Step>): nat {
    if steps == [] then 0 else (if steps[0] == Enter then 1 else 0) + CallsStarted(steps[1..])
  }

  function RunnerSteps(steps: seq<Step>): nat {
    if steps == [] then 0 else (if RunnerStep(steps[0]) then 1 else 0) + RunnerSteps(steps[1..])
  }

  lemma {:induction false} CallsAre(steps: seq<Step>)
    ensures CallsStarted(steps) == multiset(steps)[Enter]
  {
    if steps == [] {
    } else {
      CallsAre(steps[1..]);
      assert steps == [steps[0]] + steps[1..];
    }
  }

  lemma {:induction false} RunnerStepsAppend(steps: seq<Step>, step: Step)
    ensures RunnerSteps(steps + [step]) == RunnerSteps(steps) + if RunnerStep(step) then 1 else 0
  {
    if steps == [] {
      assert [step][1..] == [];
    } else {
      RunnerStepsAppend(steps[1..], step);
      assert (steps + [step])[1..] == steps[1..] + [step];
    }
  }

  lemma {:induction false} RunnerStepsAre(steps: seq<Step>)
    ensures RunnerSteps(steps) == |set i | 0 <= i < |steps| && RunnerStep(steps[i])|
  {
    var here := set i | 0 <= i < |steps| && RunnerStep(steps[i]);
    if steps == [] {
      assert here == {};
    } else {
      var last := |steps| - 1;
      RunnerStepsAre(steps[..last]);
      RunnerStepsAppend(steps[..last], steps[last]);
      assert steps == steps[..last] + [steps[last]];
      var before := set i | 0 <= i < last && RunnerStep(steps[..last][i]);
      assert here == before + if RunnerStep(steps[last]) then {last} else {};
    }
  }

  /** An exception ends the process: nothing happens after it, and nothing else ends it. */
  lemma {:induction false} ThrowIsLast(s: State, steps: seq<Step>)
    requires !s.exited && Run(s, steps)
    ensures After(s, steps).exited <==> Throw in steps
    ensures Throw in steps ==> steps[|steps| - 1] == Throw && multiset(steps)[Throw] == 1
    decreases |steps|
  {
    if steps == [] {
    } else {
      assert steps == [steps[0]] + steps[1..];
      if steps[0] == Throw {
        assert steps[1..] == [];
      } else {
        ThrowIsLast(Apply(s, steps[0]), steps[1..]);
      }
    }
  }

  /** terminate() sleeps between any two looks at _running. */
  lemma {:induction false} SleepsBetween(s: State, steps: seq<Step>)
    requires Run(s, steps)
    ensures var t := After(s, steps);
      multiset(steps)[TestRunning] + (if s.terminator == Sleeping then 1 else 0)
        + (if s.terminator == Returned then 1 else 0)
        == multiset(steps)[Wake] + (if t.terminator == Sleeping then 1 else 0)
        + (if t.terminator == Returned then 1 else 0)
    decreases |steps|
  {
    if steps == [] {
    } else {
      assert steps == [steps[0]] + steps[1..];
      SleepsBetween(Apply(s, steps[0]), steps[1..]);
    }
  }

  /** Calls the runner may still start once _continueThread is clear. */
  function CallsLeft(s: State): nat {
    if s.runner == Entering then 1 else 0
  }

  /** Steps the runner has left once _continueThread is clear. */
  function StepsLeft(s: State): nat {
    match s.runner
    case Entering => 4
    case Processing => 3
    case NotStarted => 3
    case Testing => 2
    case Leaving => 1
    case Done => 0
  }

  /** With the flag cleared, every call started and every runner step is paid for out of a fixed budget. */
  lemma {:induction false} ClearedBudget(s: State, steps: seq<Step>)
    requires Invariant(s) && !s.continueThread && Run(s, steps)
    ensures CallsStarted(steps) <= CallsLeft(s)
    ensures RunnerSteps(steps) <= StepsLeft(s)
    ensures !After(s, steps).exited ==> StepsLeft(After(s, steps)) == StepsLeft(s) - RunnerSteps(steps)
    decreases |steps|
  {
    if steps == [] {
    } else {
      var t := Apply(s, steps[0]);
      ClearedBudget(t, steps[1..]);
      if t.exited {
        assert steps[1..] == [];
      }
    }
  }

  /** Once terminate() has returned, no call is in progress and none ever starts, whatever the rest of the
      interleaving, and even if run() had not yet begun. */
  lemma NoCallAfterReturn(first: seq<Step>, rest: seq<Step>)
    requires Run(Initial(), first + rest)
    requires Run(Initial(), first) && After(Initial(), first).terminator == Returned && !After(Initial(), first).exited
    ensures After(Initial(), first).runner != Processing
    ensures CallsStarted(rest) == 0 && Enter !in rest
    ensures After(Initial(), first + rest).runner != Processing
  {
    CallsAre(rest);
    RunSplits(Initial(), first, rest);
    InvariantHolds(Initial(), first);
    var s := After(Initial(), first);
    ClearedBudget(s, rest);
    StaysOut(s, rest);
  }

  lemma {:induction false} StaysOut(s: State, steps: seq<Step>)
    requires Invariant(s) && s.terminator == Returned && !s.exited && Run(s, steps)
    ensures After(s, steps).runner != Processing
    decreases |steps|
  {
    if steps == [] {
    } else {
      StaysOut(Apply(s, steps[0]), steps[1..]);
    }
  }

  /** At most one further call starts after the flag is cleared, and the runner takes at most four steps:
      terminate() waits for a bounded amount of work. */
  lemma OneCallAfterClear(first: seq<Step>, rest: seq<Step>)
    requires Run(Initial(), first + rest)
    requires Run(Initial(), first) && !After(Initial(), first).continueThread
    ensures CallsStarted(rest) <= 1 && multiset(rest)[Enter] <= 1
    ensures RunnerSteps(rest) <= 4 && |set i | 0 <= i < |rest| && RunnerStep(rest[i])| <= 4
  {
    CallsAre(rest);
    RunnerStepsAre(rest);
    RunSplits(Initial(), first, rest);
    InvariantHolds(Initial(), first);
    ClearedBudget(After(Initial(), first), rest);
  }

  lemma RunFrom(s: State, step: Step, rest: seq<Step>) returns (steps: seq<Step>)
    requires Enabled(s, step) && Run(Apply(s, step), rest)
    ensures steps == [step] + rest && Run(s, steps) && After(s, steps) == After(Apply(s, step), rest)
    ensures CallsStarted(steps) == CallsStarted(rest) + if step == Enter then 1 else 0
    ensures RunnerSteps(steps) == RunnerSteps(rest) + if RunnerStep(step) then 1 else 0
  {
    steps := [step] + rest;
    assert steps[1..] == rest;
  }

  /** Both bounds are attained: the flag may be cleared between the runner's look at it and its call. */
  lemma BoundsAttained() returns (first: seq<Step>, rest: seq<Step>)
    ensures Run(Initial(), first) && !After(Initial(), first).continueThread
    ensures Run(After(Initial(), first), rest) && CallsStarted(rest) == 1 && RunnerSteps(rest) == 4
  {
    var s := State(false, true, Entering, Unblocking, false);
    rest := RunFrom(s.(runner := Leaving), ClearRunning, []);
    rest := RunFrom(s.(runner := Testing), TestContinue, rest);
    rest := RunFrom(s.(runner := Processing), Return, rest);
    rest := RunFrom(s, Enter, rest);
    first := RunFrom(State(true, true, Entering, NotCalled, false), ClearContinue, []);
    first := RunFrom(State(true, true, Testing, NotCalled, false), TestContinue, first);
    first := RunFrom(Initial(), SetRunning, first);
  }

  /** Own steps terminate() has left when nothing is running any more. */
  function WaitLeft(s: State): nat {
    match s.terminator
    case NotCalled => 3
    case Unblocking => 2
    case Sleeping => 2
    case Checking => 1
    case Returned => 0
  }

  lemma {:induction false} QuietBudget(s: State, steps: seq<Step>)
    requires Invariant(s) && s.runner == Done && !s.continueThread && !s.exited && Run(s, steps)
    ensures |steps| <= WaitLeft(s)
    ensures |steps| == WaitLeft(s) <==> After(s, steps).terminator == Returned
    decreases |steps|
  {
    if steps == [] {
    } else {
      QuietBudget(Apply(s, steps[0]), steps[1..]);
    }
  }

  /** A runner that has used up its budget lets terminate() return after at most two more steps. */
  lemma ShutdownCompletes(first: seq<Step>, middle: seq<Step>, rest: seq<Step>)
    requires Run(Initial(), first + (middle + rest))
    requires Run(Initial(), first) && !After(Initial(), first).continueThread
    requires Run(After(Initial(), first), middle)
    requires !After(After(Initial(), first), middle).exited
    requires RunnerSteps(middle) == StepsLeft(After(Initial(), first))
    ensures |rest| <= 2
    ensures |rest| == 2 ==> After(Initial(), first + (middle + rest)).terminator == Returned
  {
    RunSplits(Initial(), first, middle + rest);
    var s := After(Initial(), first);
    InvariantHolds(Initial(), first);
    RunSplits(s, middle, rest);
    InvariantHolds(s, middle);
    ClearedBudget(s, middle);
    var t := After(s, middle);
    StillCleared(s, middle);
    QuietBudget(t, rest);
  }

  lemma {:induction false} StillCleared(s: State, steps: seq<Step>)
    requires !s.continueThread && Run(s, steps)
    ensures !After(s, steps).continueThread
    decreases |steps|
  {
    if steps == [] {
    } else {
      StillCleared(Apply(s, steps[0]), steps[1..]);
    }
  }

  /** No deadlock: unless the process exited, some thread can move until both have finished. */
  lemma SomeStepEnabled(s: State)
    requires Invariant(s) && !s.exited && !(s.runner == Done && s.terminator == Returned)
    ensures exists step :: Enabled(s, step)
  {
    var step :=
      match s.runner
      case NotStarted => SetRunning
      case Testing => TestContinue
      case Entering => Enter
      case Processing => Return
      case Leaving => ClearRunning
      case Done =>
        match s.terminator
        case NotCalled => ClearContinue
        case Unblocking => Unblock
        case Checking => TestRunning
        case _ => Wake;
    assert Enabled(s, step);
  }
}
