/** What warm-up messages still in flight when main resets its counters can do to a measurement, for any
    number of messages and warm-ups. */
module LateWarmup {
  import opened CprtTime
  import opened PingPongRun

  ghost predicate Reaches(n: nat, s: State, t: State) {
    exists steps :: Run(n, s, steps) && After(n, s, steps) == t
  }

  lemma Stay(n: nat, s: State)
    ensures Reaches(n, s, s)
  {
    assert Run(n, s, []) && After(n, s, []) == s;
  }

  lemma Go(n: nat, s: State, step: Step, t: State)
    requires Enabled(n, s, step) && Reaches(n, Apply(n, s, step), t)
    ensures Reaches(n, s, t)
  {
    var rest :| Run(n, Apply(n, s, step), rest) && After(n, Apply(n, s, step), rest) == t;
    var steps := RunFrom(n, s, step, rest);
  }

  lemma {:induction false} Continue(n: nat, s: State, steps: seq<Step>, u: State)
    requires Run(n, s, steps) && Reaches(n, After(n, s, steps), u)
    ensures Reaches(n, s, u)
    decreases |steps|
  {
    if steps == [] {
    } else {
      Continue(n, Apply(n, s, steps[0]), steps[1..], u);
      Go(n, s, steps[0], u);
    }
  }

  lemma Join(n: nat, s: State, t: State, u: State)
    requires Reaches(n, s, t) && Reaches(n, t, u)
    ensures Reaches(n, s, u)
  {
    var steps :| Run(n, s, steps) && After(n, s, steps) == t;
    Continue(n, s, steps, u);
  }

  /** Measuring, with nothing on its way and no loss noticed. */
  predicate Quiet(s: State) {
    && s.main == Measuring && s.toPong == [] && s.toPing == []
    && s.clock.sec != 0 && s.numUnrec == 0 && |s.sent| == s.timedSent
  }

  /** All warm-up messages but one are lost. */
  lemma {:induction false} LoseWarmups(n: nat, warmups: nat, start: Timespec)
    requires warmups > 0
    ensures Reaches(n, Initial(warmups, start), Initial(1, start))
  {
    if warmups == 1 {
      Stay(n, Initial(1, start));
    } else {
      var s := Initial(warmups, start);
      var s1 := Apply(n, s, SendWarm);
      assert Apply(n, s1, DropToPong(0)) == Initial(warmups - 1, start);
      LoseWarmups(n, warmups - 1, start);
      Go(n, s1, DropToPong(0), Initial(1, start));
      Go(n, s, SendWarm, Initial(1, start));
    }
  }

  /** The state after the last one outlived the reset, came back, and was counted. */
  function Counted(start: Timespec): State {
    Initial(0, start).(main := Measuring, pongRcv := 1, pongSent := 1, numRcv := 1, warmSinceZeroing := 1,
      warmAtReset := 1)
  }

  lemma WarmupOutlivesReset(n: nat, start: Timespec) returns (s: State)
    ensures s == Initial(0, start).(main := Measuring, toPong := [Data(Timespec(0, 0), 0)], warmAtReset := 1)
    ensures Reaches(n, Initial(1, start), s)
  {
    var s1 := Apply(n, Initial(1, start), SendWarm);
    assert s1.toPong == [Data(Timespec(0, 0), 0)];
    s := Apply(n, s1, Reset);
    Stay(n, s);
    Go(n, s1, Reset, s);
    Go(n, Initial(1, start), SendWarm, s);
  }

  lemma WarmupReturns(n: nat, s: State, start: Timespec)
    requires s == Initial(0, start).(main := Measuring, toPong := [Data(Timespec(0, 0), 0)], warmAtReset := 1)
    ensures Reaches(n, s, Counted(start))
  {
    var s1 := Apply(n, s, Reflect);
    assert s1.toPong == [] && s1.toPing == [Data(Timespec(0, 0), 0)];
    assert Apply(n, s1, Deliver(false)) == Counted(start);
    Stay(n, Counted(start));
    Go(n, s1, Deliver(false), Counted(start));
    Go(n, s, Reflect, Counted(start));
  }

  lemma LateArrival(n: nat, warmups: nat, start: Timespec) returns (t: State)
    requires warmups > 0 && ClockOk(start)
    ensures Reaches(n, Initial(warmups, start), t) && Quiet(t)
    ensures t.timedSent == 0 && t.samples == [] && t.numRcv == 1 && t.lost == {}
  {
    t := Counted(start);
    var s := WarmupOutlivesReset(n, start);
    WarmupReturns(n, s, start);
    Join(n, Initial(1, start), s, t);
    LoseWarmups(n, warmups, start);
    Join(n, Initial(warmups, start), Initial(1, start), t);
  }

  /** A measurement is sent and lost. */
  lemma Lose(n: nat, s: State) returns (t: State)
    requires Quiet(s) && s.timedSent < n
    ensures Reaches(n, s, t) && Quiet(t) && t.timedSent == s.timedSent + 1
    ensures t.samples == s.samples && t.numRcv == s.numRcv && t.lost == s.lost + {s.timedSent}
  {
    var s1 := Apply(n, s, SendTimed);
    t := Apply(n, s1, DropToPong(0));
    Stay(n, t);
    Go(n, s1, DropToPong(0), t);
    Go(n, s, SendTimed, t);
  }

  lemma {:induction false} LoseAll(n: nat, s: State) returns (t: State)
    requires Quiet(s) && s.timedSent <= n
    ensures Reaches(n, s, t) && Quiet(t) && t.timedSent == n
    ensures t.samples == s.samples && t.numRcv == s.numRcv
    decreases n - s.timedSent
  {
    if s.timedSent == n {
      t := s;
      Stay(n, s);
    } else {
      var s1 := Lose(n, s);
      t := LoseAll(n, s1);
      Join(n, s, s1, t);
    }
  }

  /** A measurement is sent, comes back and is sampled. */
  lemma Return(n: nat, s: State) returns (t: State)
    requires Quiet(s) && s.timedSent < n
    ensures Reaches(n, s, t) && Quiet(t) && t.timedSent == s.timedSent + 1
    ensures |t.samples| == |s.samples| + 1 && t.numRcv == s.numRcv + 1 && t.lost == s.lost
  {
    var s1 := Apply(n, s, SendTimed);
    var s2 := Apply(n, s1, Reflect);
    t := Apply(n, s2, Deliver(false));
    Stay(n, t);
    Go(n, s2, Deliver(false), t);
    Go(n, s1, Reflect, t);
    Go(n, s, SendTimed, t);
  }

  lemma {:induction false} ReturnSome(n: nat, s: State, m: nat) returns (t: State)
    requires Quiet(s) && s.timedSent <= m <= n
    ensures Reaches(n, s, t) && Quiet(t) && t.timedSent == m && t.lost == s.lost
    ensures |t.samples| == |s.samples| + (m - s.timedSent) && t.numRcv == s.numRcv + (m - s.timedSent)
    decreases m - s.timedSent
  {
    if s.timedSent == m {
      t := s;
      Stay(n, s);
    } else {
      var s1 := Return(n, s);
      t := ReturnSome(n, s1, m);
      Join(n, s, s1, t);
    }
  }

  /** What main does once everything is sent: it prints, or crashes printing. */
  lemma Prints(n: nat, s: State) returns (t: State)
    requires Quiet(s) && s.timedSent == n && s.numRcv > 0
    ensures Reaches(n, s, t) && t == s.(main := if s.samples == [] then Crashed else Printed)
  {
    var s1 := Apply(n, s, FinishSending);
    var s2 := Apply(n, s1, AssertReceived);
    t := Apply(n, s2, PrintHistogram);
    Stay(n, t);
    Go(n, s2, PrintHistogram, t);
    Go(n, s1, AssertReceived, t);
    Go(n, s, FinishSending, t);
  }

  /** The late warm-up message alone comes back, and the histogram is printed empty. */
  lemma CrashRun(n: nat, warmups: nat, start: Timespec) returns (t: State)
    requires warmups > 0 && ClockOk(start)
    ensures Reaches(n, Initial(warmups, start), t) && t.main == Crashed
  {
    var s := LateArrival(n, warmups, start);
    var s1 := LoseAll(n, s);
    t := Prints(n, s1);
    Join(n, s, s1, t);
    Join(n, Initial(warmups, start), s, t);
  }

  /** The late warm-up message stands in for the last measurement, which is lost. */
  lemma MaskedRun(n: nat, warmups: nat, start: Timespec) returns (t: State)
    requires warmups > 0 && n >= 2 && ClockOk(start)
    ensures Reaches(n, Initial(warmups, start), t)
    ensures t.main == Passed && |t.samples| == n - 1 && t.lost == {n - 1}
  {
    var s := LateArrival(n, warmups, start);
    var s1 := ReturnSome(n, s, n - 1);
    var s2 := Lose(n, s1);
    var s3 := Prints(n, s2);
    var s4 := Apply(n, s3, AssertNoLoss);
    t := Apply(n, s4, AssertCount);
    Stay(n, t);
    Go(n, s4, AssertCount, t);
    Go(n, s3, AssertNoLoss, t);
    Join(n, s2, s3, t);
    Join(n, s1, s2, t);
    Join(n, s, s1, t);
    Join(n, Initial(warmups, start), s, t);
  }

  ghost predicate CanCrash(n: nat, warmups: nat, start: Timespec) {
    exists steps :: Run(n, Initial(warmups, start), steps) && After(n, Initial(warmups, start), steps).main == Crashed
  }

  ghost predicate CanMislead(n: nat, warmups: nat, start: Timespec) {
    exists steps :: Run(n, Initial(warmups, start), steps)
      && After(n, Initial(warmups, start), steps).main == Passed && |After(n, Initial(warmups, start), steps).samples| != n
  }

  /** Printing can crash on an empty histogram exactly when a warm-up was asked for. */
  lemma CrashIff(n: nat, warmups: nat, start: Timespec)
    requires ClockOk(start)
    ensures CanCrash(n, warmups, start) <==> warmups > 0
  {
    if warmups > 0 {
      var t := CrashRun(n, warmups, start);
    } else {
      forall steps | Run(n, Initial(0, start), steps)
        ensures After(n, Initial(0, start), steps).main != Crashed
      {
        NoWarmupsHolds(n, Initial(0, start), steps);
        PrintingIsSafe(n, 0, start, steps);
      }
    }
  }

  lemma MisledMeans(n: nat, warmups: nat, start: Timespec, steps: seq<Step>)
    requires ClockOk(start) && Run(n, Initial(warmups, start), steps)
    requires var s := After(n, Initial(warmups, start), steps); s.main == Passed && |s.samples| != n
    ensures warmups > 0 && n >= 2
  {
    InvariantHolds(n, Initial(warmups, start), steps);
    if warmups == 0 {
      NoWarmupsHolds(n, Initial(0, start), steps);
    }
  }

  /** The final check can pass over an incomplete histogram exactly when a warm-up and at least two
      measurements were asked for: with one measurement, missing it leaves nothing to print. */
  lemma MisleadIff(n: nat, warmups: nat, start: Timespec)
    requires ClockOk(start)
    ensures CanMislead(n, warmups, start) <==> warmups > 0 && n >= 2
  {
    if warmups > 0 && n >= 2 {
      var t := MaskedRun(n, warmups, start);
    }
    if CanMislead(n, warmups, start) {
      var steps :| Run(n, Initial(warmups, start), steps)
        && After(n, Initial(warmups, start), steps).main == Passed
        && |After(n, Initial(warmups, start), steps).samples| != n;
      MisledMeans(n, warmups, start, steps);
    }
  }

  /** The smallest cases: two measurements behind one warm-up message. */
  lemma MasksLoss(start: Timespec) returns (steps: seq<Step>)
    requires ClockOk(start)
    ensures Run(2, Initial(1, start), steps)
    ensures var s := After(2, Initial(1, start), steps); s.main == Passed && |s.samples| == 1 && s.lost == {1}
  {
    var t := MaskedRun(2, 1, start);
    steps :| Run(2, Initial(1, start), steps) && After(2, Initial(1, start), steps) == t;
  }

  lemma CrashesPrint(start: Timespec) returns (steps: seq<Step>)
    requires ClockOk(start)
    ensures Run(2, Initial(1, start), steps) && After(2, Initial(1, start), steps).main == Crashed
  {
    var t := CrashRun(2, 1, start);
    steps :| Run(2, Initial(1, start), steps) && After(2, Initial(1, start), steps) == t;
  }
}
