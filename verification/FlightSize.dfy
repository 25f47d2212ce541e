/** The flight-size counter shared by the sending thread and the source-event callback
    (um_lat_ping.c, um_lat_pong.c, UmLatPing.java).  A send and its increment are separate steps, and so
    are a decrement and the assertion after it. */
module FlightSize {

  /** The three programs.  The C ping ignores stability events; the C programs assert on a fresh read of
      the counter and keep the peak of values before the increment, the Java one uses the values returned
      by the atomic operations. */
  datatype Program = PingC | PongC | PingJava

  predicate CountsStable(p: Program) {
    p != PingC
  }

  datatype SenderPc =
    | Ready
    | Sent                // message out, not yet counted
    | Counted(cur: int)   // counted, peak not yet updated

  datatype CallbackPc =
    | Waiting
    | Asserting(value: int)   // decremented to this value, assertion pending

  /** `outstanding` is the truth the counter tracks; `unseen` counts stability events a program ignores;
      `posts` lists the counter after each increment. */
  datatype State = State(outstanding: nat, counter: int, sender: SenderPc, callback: CallbackPc, peak: int,
                         failed: bool, unseen: nat, posts: seq<int>)

  datatype Step = Send | Increment | NotePeak | Stable | ForcedReclaim | PlainReclaim | Check

  function Initial(): State {
    State(0, 0, Ready, Waiting, 0, false, 0, [])
  }

  predicate Enabled(s: State, step: Step) {
    !s.failed &&
    match step
    case Send => s.sender == Ready
    case Increment => s.sender == Sent
    case NotePeak => s.sender.Counted?
    case Stable => s.callback == Waiting && s.outstanding > 0
    case ForcedReclaim => s.callback == Waiting && s.outstanding > 0
    case PlainReclaim => s.callback == Waiting
    case Check => s.callback.Asserting?
  }

  function Decremented(s: State): State
    requires s.outstanding > 0
  {
    s.(outstanding := s.outstanding - 1, counter := s.counter - 1, callback := Asserting(s.counter - 1))
  }

  function Apply(p: Program, s: State, step: Step): State
    requires Enabled(s, step)
  {
    match step
    case Send => s.(outstanding := s.outstanding + 1, sender := Sent)
    case Increment =>
      s.(counter := s.counter + 1, posts := s.posts + [s.counter + 1],
         sender := Counted(if p == PingJava then s.counter + 1 else s.counter))
    case NotePeak => s.(peak := if s.sender.cur > s.peak then s.sender.cur else s.peak, sender := Ready)
    case Stable =>
      if CountsStable(p) then Decremented(s)
      else s.(outstanding := s.outstanding - 1, unseen := s.unseen + 1)
    case ForcedReclaim => Decremented(s)
    case PlainReclaim => s
    case Check =>
      var value := if p == PingJava then s.callback.value else s.counter;
      s.(failed := value < 0, callback := Waiting)
  }

  predicate Run(p: Program, s: State, steps: seq<Step>)
    decreases |steps|
  {
    steps == [] || (Enabled(s, steps[0]) && Run(p, Apply(p, s, steps[0]), steps[1..]))
  }

  function After(p: Program, s: State, steps: seq<Step>): State
    requires Run(p, s, steps)
    decreases |steps|
  {
    if steps == [] then s else After(p, Apply(p, s, steps[0]), steps[1..])
  }

  /** 1 while a message is out but not counted. */
  function Window(s: State): nat {
    if s.sender == Sent then 1 else 0
  }

  /** The increments whose peak update is done. */
  function Noted(s: State): seq<int> {
    if s.sender.Counted? && s.posts != [] then s.posts[..|s.posts| - 1] else s.posts
  }

  function PeakOf(values: seq<int>, offset: int): int {
    if values == [] then 0
    else
      var rest, v := PeakOf(values[..|values| - 1], offset), values[|values| - 1] - offset;
      if v > rest then v else rest
  }

  function Offset(p: Program): int {
    if p == PingJava then 0 else 1
  }

  ghost predicate Invariant(p: Program, s: State) {
    && s.counter + Window(s) == s.outstanding + s.unseen
    && (CountsStable(p) ==> s.unseen == 0)
    && (s.sender.Counted? ==> s.posts != [] && s.sender.cur == s.posts[|s.posts| - 1] - Offset(p))
    && s.peak == PeakOf(Noted(s), Offset(p))
  }

  lemma InvariantStep(p: Program, s: State, step: Step)
    requires Invariant(p, s) && Enabled(s, step)
    ensures Invariant(p, Apply(p, s, step))
  {
    var t := Apply(p, s, step);
    if step == Increment {
      assert Noted(t) == Noted(s) == s.posts;
    } else if step == NotePeak {
      assert Noted(t) == s.posts && Noted(s) == s.posts[..|s.posts| - 1];
    } else {
      assert Noted(t) == Noted(s);
    }
  }

  lemma {:induction false} InvariantHolds(p: Program, s: State, steps: seq<Step>)
    requires Invariant(p, s) && Run(p, s, steps)
    ensures Invariant(p, After(p, s, steps))
    decreases |steps|
  {
    if steps == [] {
    } else {
      InvariantStep(p, s, steps[0]);
      InvariantHolds(p, Apply(p, s, steps[0]), steps[1..]);
    }
  }

  function Pending(s: State): nat {
    if s.callback.Asserting? then 1 else 0
  }

  /** What the books count: messages sent and not retired, stability events a program ignores, increments;
      and each event that is heeded, and no other, leads to one assertion. */
  lemma {:induction false} BooksAre(p: Program, s: State, steps: seq<Step>)
    requires Run(p, s, steps)
    ensures var t, all := After(p, s, steps), multiset(steps);
      && t.outstanding + all[Stable] + all[ForcedReclaim] == s.outstanding + all[Send]
      && t.unseen == s.unseen + (if p == PingC then all[Stable] else 0)
      && |t.posts| == |s.posts| + all[Increment]
      && all[Check] + Pending(t) == Pending(s) + all[ForcedReclaim] + (if p == PingC then 0 else all[Stable])
    decreases |steps|
  {
    if steps == [] {
    } else {
      assert steps == [steps[0]] + steps[1..];
      BooksAre(p, Apply(p, s, steps[0]), steps[1..]);
    }
  }

  lemma {:induction false} PostsGrow(p: Program, s: State, steps: seq<Step>)
    requires Run(p, s, steps)
    ensures |s.posts| <= |After(p, s, steps).posts| && After(p, s, steps).posts[..|s.posts|] == s.posts
    decreases |steps|
  {
    if steps == [] {
    } else {
      var s1 := Apply(p, s, steps[0]);
      PostsGrow(p, s1, steps[1..]);
      assert After(p, s1, steps[1..]).posts[..|s.posts|] == s1.posts[..|s.posts|];
    }
  }

  lemma {:induction false} RunSplits(p: Program, s: State, first: seq<Step>, rest: seq<Step>)
    requires Run(p, s, first + rest)
    ensures Run(p, s, first) && Run(p, After(p, s, first), rest)
    ensures After(p, s, first + rest) == After(p, After(p, s, first), rest)
    decreases |first|
  {
    if first == [] {
      assert first + rest == rest;
    } else {
      assert (first + rest)[1..] == first[1..] + rest;
      RunSplits(p, Apply(p, s, first[0]), first[1..], rest);
    }
  }

  /** Each increment leaves one more counter value on record: the one it made. */
  lemma PostIs(p: Program, before: seq<Step>, after: seq<Step>)
    requires Run(p, Initial(), before + ([Increment] + after))
    ensures var k := multiset(before)[Increment];
      var end := After(p, Initial(), before + ([Increment] + after));
      Run(p, Initial(), before) && k < |end.posts| && end.posts[k] == After(p, Initial(), before).counter + 1
  {
    RunSplits(p, Initial(), before, [Increment] + after);
    var s := After(p, Initial(), before);
    BooksAre(p, Initial(), before);
    assert ([Increment] + after)[1..] == after;
    PostsGrow(p, Apply(p, s, Increment), after);
    var end := After(p, Apply(p, s, Increment), after);
    assert end.posts[..|s.posts| + 1][|s.posts|] == s.counter + 1;
  }

  /** In every interleaving: counter, plus one for a message sent but not yet counted, is the number
      outstanding (where stability events are heeded), so it is never below -1, and below 0 only then. */
  lemma CounterTracksOutstanding(p: Program, steps: seq<Step>)
    requires Run(p, Initial(), steps)
    ensures var s := After(p, Initial(), steps);
      && s.counter + Window(s) == s.outstanding + s.unseen && (p != PingC ==> s.unseen == 0)
      && s.counter >= -1
      && (s.counter < 0 <==> s.sender == Sent && s.outstanding + s.unseen == 0)
  {
    InvariantHolds(p, Initial(), steps);
  }

  /** The C assertions re-read the counter: they fail exactly when, at the check, the last message
      outstanding has come and gone before its sender counted it. */
  lemma AssertionFailsIffC(p: Program, steps: seq<Step>)
    requires p != PingJava && Run(p, Initial(), steps) && Enabled(After(p, Initial(), steps), Check)
    ensures var s := After(p, Initial(), steps);
      Apply(p, s, Check).failed <==> s.sender == Sent && s.outstanding + s.unseen == 0
  {
    CounterTracksOutstanding(p, steps);
  }

  /** The Java assertion judges the value its own decrement returned: failure is decided when the event
      arrives, by whether the message it retires is the only one and still uncounted. */
  lemma AssertionFailsIffJava(steps: seq<Step>, event: Step, between: seq<Step>)
    requires event == Stable || event == ForcedReclaim
    requires Run(PingJava, Initial(), steps)
    requires Enabled(After(PingJava, Initial(), steps), event)
    requires var s := Apply(PingJava, After(PingJava, Initial(), steps), event);
      && Run(PingJava, s, between) && Check !in between && Enabled(After(PingJava, s, between), Check)
    ensures var s := After(PingJava, Initial(), steps);
      var failed := Apply(PingJava, After(PingJava, Apply(PingJava, s, event), between), Check).failed;
      failed <==> s.sender == Sent && s.outstanding == 1
  {
    CounterTracksOutstanding(PingJava, steps);
    CallbackFrozen(PingJava, Apply(PingJava, After(PingJava, Initial(), steps), event), between);
  }

  lemma {:induction false} CallbackFrozen(p: Program, s: State, steps: seq<Step>)
    requires s.callback.Asserting? && Run(p, s, steps) && Check !in steps
    ensures After(p, s, steps).callback == s.callback
    decreases |steps|
  {
    if steps == [] {
    } else {
      assert steps[0] in steps;
      CallbackFrozen(p, Apply(p, s, steps[0]), steps[1..]);
    }
  }

  lemma RunFrom(p: Program, s: State, step: Step, rest: seq<Step>) returns (steps: seq<Step>)
    requires Enabled(s, step) && Run(p, Apply(p, s, step), rest)
    ensures steps == [step] + rest && Run(p, s, steps)
    ensures After(p, s, steps) == After(p, Apply(p, s, step), rest)
  {
    steps := [step] + rest;
    assert steps[1..] == rest;
  }

  /** The message out, and not yet counted. */
  function Uncounted(): State {
    Initial().(outstanding := 1, sender := Sent)
  }

  /** A message retired before it is counted fails the assertion, whatever the program. */
  lemma RetiredUncounted(p: Program) returns (steps: seq<Step>)
    ensures Run(p, Uncounted(), steps) && After(p, Uncounted(), steps).failed
  {
    var s := Apply(p, Uncounted(), ForcedReclaim);
    steps := RunFrom(p, s, Check, []);
    steps := RunFrom(p, Uncounted(), ForcedReclaim, steps);
  }

  /** So the failing interleaving exists in all of them. */
  lemma AssertionCanFail(p: Program) returns (steps: seq<Step>)
    ensures Run(p, Initial(), steps) && After(p, Initial(), steps).failed
  {
    steps := RetiredUncounted(p);
    assert Apply(p, Initial(), Send) == Uncounted();
    steps := RunFrom(p, Initial(), Send, steps);
  }

  /** A sender that is not between increment and update has recorded the largest counter value: as it was
      after each increment in Java, before each increment in C. */
  lemma PeakIsMaximum(p: Program, steps: seq<Step>)
    requires Run(p, Initial(), steps) && !After(p, Initial(), steps).sender.Counted?
    ensures var s := After(p, Initial(), steps);
      var before := if p == PingJava then 0 else 1;
      && s.peak >= 0 && (forall i :: 0 <= i < |s.posts| ==> s.posts[i] - before <= s.peak)
      && (s.peak > 0 ==> exists i :: 0 <= i < |s.posts| && s.posts[i] - before == s.peak)
  {
    InvariantHolds(p, Initial(), steps);
    PeakOfIsMaximum(After(p, Initial(), steps).posts, Offset(p));
  }

  lemma {:induction false} PeakOfIsMaximum(values: seq<int>, offset: int)
    ensures PeakOf(values, offset) >= 0
    ensures forall i :: 0 <= i < |values| ==> values[i] - offset <= PeakOf(values, offset)
    ensures PeakOf(values, offset) > 0 ==> exists i :: 0 <= i < |values| && values[i] - offset == PeakOf(values, offset)
  {
    if values == [] {
    } else {
      var rest := values[..|values| - 1];
      PeakOfIsMaximum(rest, offset);
      if PeakOf(values, offset) > 0 && PeakOf(values, offset) == PeakOf(rest, offset) {
        var i :| 0 <= i < |rest| && rest[i] - offset == PeakOf(rest, offset);
        assert values[i] - offset == PeakOf(values, offset);
      } else {
        assert PeakOf(values, offset) > 0 ==> values[|values| - 1] - offset == PeakOf(values, offset);
      }
    }
  }

  /** Over the same increments the Java peak is one more than the C peak, once the counter reached 1. */
  lemma {:induction false} JavaPeakIsOneMore(posts: seq<int>)
    ensures PeakOf(posts, 0) == PeakOf(posts, 1) + if exists i :: 0 <= i < |posts| && posts[i] >= 1 then 1 else 0
  {
    if posts == [] {
    } else {
      var rest := posts[..|posts| - 1];
      JavaPeakIsOneMore(rest);
      if exists i :: 0 <= i < |rest| && rest[i] >= 1 {
        var i :| 0 <= i < |rest| && rest[i] >= 1;
        assert posts[i] >= 1;
        PeakOfIsMaximum(rest, 0);
      } else {
        assert forall i :: 0 <= i < |posts| && posts[i] >= 1 ==> i == |posts| - 1 by {
          forall i | 0 <= i < |posts| - 1
            ensures posts[i] < 1
          {
            assert rest[i] < 1;
          }
        }
        NoPeak(rest);
      }
    }
  }

  lemma {:induction false} NoPeak(values: seq<int>)
    requires forall i :: 0 <= i < |values| ==> values[i] < 1
    ensures PeakOf(values, 0) == 0 && PeakOf(values, 1) == 0
  {
    if values == [] {
    } else {
      NoPeak(values[..|values| - 1]);
    }
  }
}
