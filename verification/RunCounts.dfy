/** What the counters of a measurement mean, told from the steps of the run alone, and what main's checks
    make of them. */
module RunCounts {
  import opened CprtTime
  import opened PingPongRun

  lemma {:induction false} RunSplits(n: nat, s: State, first: seq<Step>, rest: seq<Step>)
    requires Run(n, s, first + rest)
    ensures Run(n, s, first) && Run(n, After(n, s, first), rest)
    ensures After(n, s, first + rest) == After(n, After(n, s, first), rest)
    decreases |first|
  {
    if first == [] {
      assert first + rest == rest;
    } else {
      assert (first + rest)[1..] == first[1..] + rest;
      RunSplits(n, Apply(n, s, first[0]), first[1..], rest);
    }
  }

  /** A run, a step after it, and the rest. */
  lemma RunAround(n: nat, s: State, before: seq<Step>, step: Step, rest: seq<Step>)
    requires Run(n, s, before + ([step] + rest))
    ensures Run(n, s, before) && Enabled(n, After(n, s, before), step)
    ensures Run(n, Apply(n, After(n, s, before), step), rest)
    ensures After(n, s, before + ([step] + rest)) == After(n, Apply(n, After(n, s, before), step), rest)
  {
    RunSplits(n, s, before, [step] + rest);
    assert ([step] + rest)[1..] == rest;
  }

  lemma LastStep(n: nat, s: State, steps: seq<Step>)
    requires steps != [] && Run(n, s, steps)
    ensures var last := |steps| - 1;
      && Run(n, s, steps[..last]) && Enabled(n, After(n, s, steps[..last]), steps[last])
      && After(n, s, steps) == Apply(n, After(n, s, steps[..last]), steps[last])
  {
    var last := |steps| - 1;
    assert steps == steps[..last] + ([steps[last]] + []);
    RunAround(n, s, steps[..last], steps[last], []);
  }

  /** The state in which step i of a run is taken. */
  function At(n: nat, s: State, steps: seq<Step>, i: nat): State
    requires i <= |steps|
  {
    if Run(n, s, steps[..i]) then After(n, s, steps[..i]) else s
  }

  /** What may happen at a step. */
  datatype Kind = Message | Retransmission | Measurement | Loss | Reflection

  predicate MessageAt(s: State, step: Step) {
    step.Deliver? && s.toPing != [] && s.toPing[0].Data?
  }

  predicate LossAt(s: State, step: Step) {
    step.Deliver? && s.toPing != [] && s.toPing[0] == LossNotice
  }

  predicate Happens(s: State, step: Step, kind: Kind) {
    match kind
    case Message => MessageAt(s, step)
    case Retransmission => MessageAt(s, step) && step.retransmitted
    case Measurement => MessageAt(s, step) && s.toPing[0].stamp.sec != 0
    case Loss => LossAt(s, step)
    case Reflection => step == Reflect && s.toPong != [] && s.toPong[0].Data?
  }

  /** The steps of a run at which it does. */
  ghost function Times(n: nat, s: State, steps: seq<Step>, kind: Kind): set<int> {
    set i | 0 <= i < |steps| && Happens(At(n, s, steps, i), steps[i], kind)
  }

  lemma AtPrefix(n: nat, s: State, steps: seq<Step>, m: nat, i: nat)
    requires i <= m <= |steps|
    ensures At(n, s, steps[..m], i) == At(n, s, steps, i)
  {
    assert steps[..m][..i] == steps[..i];
  }

  lemma TimesMember(n: nat, s: State, steps: seq<Step>, kind: Kind, i: int)
    requires steps != []
    ensures var last := |steps| - 1;
      i in Times(n, s, steps, kind) <==>
        i in Times(n, s, steps[..last], kind) || (i == last && Happens(At(n, s, steps, last), steps[last], kind))
  {
    if 0 <= i < |steps| - 1 {
      AtPrefix(n, s, steps, |steps| - 1, i);
    }
  }

  lemma AddOne(here: set<int>, before: set<int>, added: set<int>, last: int)
    requires forall i :: i in here <==> i in before || i in added
    requires last !in before
    requires added == {} || added == {last}
    ensures |here| == |before| + if added == {} then 0 else 1
  {
    assert forall i :: i in here <==> i in before + added;
    assert here == before + added;
  }

  lemma TimesLast(n: nat, s: State, steps: seq<Step>, kind: Kind)
    requires steps != [] && Run(n, s, steps)
    ensures var last := |steps| - 1;
      && Run(n, s, steps[..last])
      && |Times(n, s, steps, kind)| == |Times(n, s, steps[..last], kind)|
           + if Happens(After(n, s, steps[..last]), steps[last], kind) then 1 else 0
  {
    var last := |steps| - 1;
    LastStep(n, s, steps);
    var here, before := Times(n, s, steps, kind), Times(n, s, steps[..last], kind);
    var added := if Happens(At(n, s, steps, last), steps[last], kind) then {last} else {};
    forall i
      ensures i in here <==> i in before || i in added
    {
      TimesMember(n, s, steps, kind, i);
    }
    AddOne(here, before, added, last);
  }

  predicate Zeroing(step: Step) {
    step == Reset || step == Bos
  }

  ghost predicate NoneZeroing(steps: seq<Step>) {
    Reset !in steps && Bos !in steps
  }

  lemma {:induction false} SamplesCounted(n: nat, s: State, steps: seq<Step>)
    requires Run(n, s, steps) && Reset !in steps
    ensures |After(n, s, steps).samples| == |s.samples| + |Times(n, s, steps, Measurement)|
    decreases |steps|
  {
    if steps == [] {
    } else {
      var last := |steps| - 1;
      LastStep(n, s, steps);
      SamplesCounted(n, s, steps[..last]);
      TimesLast(n, s, steps, Measurement);
    }
  }

  lemma {:induction false} Counted(n: nat, s: State, steps: seq<Step>)
    requires Run(n, s, steps) && NoneZeroing(steps)
    ensures var t := After(n, s, steps);
      && t.numRcv == s.numRcv + |Times(n, s, steps, Message)|
      && t.numRx == s.numRx + |Times(n, s, steps, Retransmission)|
      && t.numUnrec == s.numUnrec + |Times(n, s, steps, Loss)|
    decreases |steps|
  {
    if steps == [] {
    } else {
      var last := |steps| - 1;
      LastStep(n, s, steps);
      assert steps[last] in steps;
      Counted(n, s, steps[..last]);
      TimesLast(n, s, steps, Message);
      TimesLast(n, s, steps, Retransmission);
      TimesLast(n, s, steps, Loss);
    }
  }

  /** The state after the last reset or beginning of a session. */
  function Zeroed(n: nat, s: State, before: seq<Step>, zeroing: Step): State
    requires Run(n, s, before) && Enabled(n, After(n, s, before), zeroing)
  {
    Apply(n, After(n, s, before), zeroing)
  }

  /** From there on, the receive counters are the numbers of messages, retransmissions and loss notices
      delivered; the histogram holds the measurements delivered since the reset. */
  lemma CountersAre(n: nat, s: State, before: seq<Step>, zeroing: Step, since: seq<Step>)
    requires Run(n, s, before + ([zeroing] + since)) && (zeroing == Reset || zeroing == Bos)
    requires Reset !in since && (zeroing == Bos ==> Bos !in since)
    ensures Run(n, s, before) && Enabled(n, After(n, s, before), zeroing)
    ensures var z, t := Zeroed(n, s, before, zeroing), After(n, s, before + ([zeroing] + since));
      && (Bos !in since ==>
            && t.numRcv == |Times(n, z, since, Message)|
            && t.numRx == |Times(n, z, since, Retransmission)|
            && t.numUnrec == |Times(n, z, since, Loss)|)
      && (zeroing == Reset ==> |t.samples| == |Times(n, z, since, Measurement)|)
  {
    RunAround(n, s, before, zeroing, since);
    var z := Zeroed(n, s, before, zeroing);
    SamplesCounted(n, z, since);
    if Bos !in since {
      Counted(n, z, since);
    }
  }

  /** So the first check passes exactly if a message was delivered since. */
  lemma FirstCheck(n: nat, s: State, before: seq<Step>, zeroing: Step, since: seq<Step>)
    requires Run(n, s, before + ([zeroing] + since)) && Zeroing(zeroing) && NoneZeroing(since)
    requires Enabled(n, After(n, s, before + ([zeroing] + since)), AssertReceived)
    ensures Run(n, s, before) && Enabled(n, After(n, s, before), zeroing)
    ensures var z := Zeroed(n, s, before, zeroing);
      Apply(n, After(n, s, before + ([zeroing] + since)), AssertReceived).main ==
        if exists i :: 0 <= i < |since| && Happens(At(n, z, since, i), since[i], Message) then Received else Failed
  {
    CountersAre(n, s, before, zeroing, since);
    CountIsZero(n, Zeroed(n, s, before, zeroing), since, Message);
  }

  lemma CountIsZero(n: nat, s: State, steps: seq<Step>, kind: Kind)
    ensures |Times(n, s, steps, kind)| == 0 <==>
      forall i :: 0 <= i < |steps| ==> !Happens(At(n, s, steps, i), steps[i], kind)
  {
    if i :| 0 <= i < |steps| && Happens(At(n, s, steps, i), steps[i], kind) {
      assert i in Times(n, s, steps, kind);
    } else {
      assert Times(n, s, steps, kind) == {};
    }
  }

  /** Printing crashes exactly if no measurement was delivered since the reset. */
  lemma Printing(n: nat, s: State, before: seq<Step>, since: seq<Step>)
    requires Run(n, s, before + ([Reset] + since)) && Reset !in since
    requires Enabled(n, After(n, s, before + ([Reset] + since)), PrintHistogram)
    ensures Run(n, s, before) && Enabled(n, After(n, s, before), Reset)
    ensures var z := Zeroed(n, s, before, Reset);
      Apply(n, After(n, s, before + ([Reset] + since)), PrintHistogram).main ==
        if exists i :: 0 <= i < |since| && Happens(At(n, z, since, i), since[i], Measurement) then Printed else Crashed
  {
    CountersAre(n, s, before, Reset, since);
    CountIsZero(n, Zeroed(n, s, before, Reset), since, Measurement);
  }

  /** A loss notice reached the callback somewhere in the run. */
  ghost predicate MetLoss(n: nat, s: State, steps: seq<Step>) {
    exists i :: 0 <= i < |steps| && LossAt(At(n, s, steps, i), steps[i])
  }

  lemma NoLossIff(n: nat, s: State, steps: seq<Step>)
    ensures |Times(n, s, steps, Loss)| == 0 <==> !MetLoss(n, s, steps)
  {
    CountIsZero(n, s, steps, Loss);
  }

  /** The second check passes exactly if no delivery since met a loss notice. */
  lemma LossCheck(n: nat, s: State, before: seq<Step>, zeroing: Step, since: seq<Step>)
    requires Run(n, s, before + ([zeroing] + since)) && Zeroing(zeroing) && NoneZeroing(since)
    requires Enabled(n, After(n, s, before + ([zeroing] + since)), AssertNoLoss)
    ensures Run(n, s, before) && Enabled(n, After(n, s, before), zeroing)
    ensures Apply(n, After(n, s, before + ([zeroing] + since)), AssertNoLoss).main
      == if MetLoss(n, Zeroed(n, s, before, zeroing), since) then Failed else LossChecked
  {
    CountersAre(n, s, before, zeroing, since);
    NoLossIff(n, Zeroed(n, s, before, zeroing), since);
  }

  /** The third passes exactly if n messages were delivered since. */
  lemma FinalCheck(n: nat, s: State, before: seq<Step>, zeroing: Step, since: seq<Step>)
    requires Run(n, s, before + ([zeroing] + since)) && Zeroing(zeroing) && NoneZeroing(since)
    requires Enabled(n, After(n, s, before + ([zeroing] + since)), AssertCount)
    ensures Run(n, s, before) && Enabled(n, After(n, s, before), zeroing)
    ensures var z := Zeroed(n, s, before, zeroing);
      Apply(n, After(n, s, before + ([zeroing] + since)), AssertCount).main ==
        if |set i | 0 <= i < |since| && Happens(At(n, z, since, i), since[i], Message)| == n then Passed else Failed
  {
    CountersAre(n, s, before, zeroing, since);
  }

  /** A loss noticed before the second check is never forgiven, short of a new session: no continuation gets
      past the check. */
  lemma {:induction false} LossBlocks(n: nat, s: State, steps: seq<Step>)
    requires Run(n, s, steps) && NoneZeroing(steps)
    requires s.numUnrec > 0 && s.main != LossChecked && s.main != Passed
    ensures After(n, s, steps).main != LossChecked && After(n, s, steps).main != Passed
    decreases |steps|
  {
    if steps == [] {
    } else {
      assert steps[0] in steps;
      LossBlocks(n, Apply(n, s, steps[0]), steps[1..]);
    }
  }

  lemma LossIsFinal(n: nat, s: State, before: seq<Step>, retransmitted: bool, rest: seq<Step>)
    requires Run(n, s, before + ([Deliver(retransmitted)] + rest)) && NoneZeroing(rest)
    requires At(n, s, before, |before|).toPing != [] && At(n, s, before, |before|).toPing[0].LossNotice?
    requires At(n, s, before, |before|).main != LossChecked && At(n, s, before, |before|).main != Passed
    ensures After(n, s, before + ([Deliver(retransmitted)] + rest)).main != LossChecked
    ensures After(n, s, before + ([Deliver(retransmitted)] + rest)).main != Passed
  {
    RunAround(n, s, before, Deliver(retransmitted), rest);
    assert before[..|before|] == before;
    LossBlocks(n, Apply(n, After(n, s, before), Deliver(retransmitted)), rest);
  }

  lemma {:induction false} SendsAre(n: nat, s: State, steps: seq<Step>)
    requires Run(n, s, steps)
    ensures var t, all := After(n, s, steps), multiset(steps);
      all[SendWarm] + t.warmLeft == s.warmLeft && |t.sent| == |s.sent| + all[SendTimed]
    decreases |steps|
  {
    if steps == [] {
    } else {
      assert steps == [steps[0]] + steps[1..];
      SendsAre(n, Apply(n, s, steps[0]), steps[1..]);
    }
  }

  /** How many messages are sent: every warm-up before the measurement begins, all n measurements before
      main lingers. */
  lemma AllSent(n: nat, warmups: nat, start: Timespec, steps: seq<Step>)
    requires ClockOk(start) && Run(n, Initial(warmups, start), steps)
    ensures var t, all := After(n, Initial(warmups, start), steps), multiset(steps);
      && (t.main != Warming ==> all[SendWarm] == warmups)
      && (t.main in {Lingering, Received, Printed, LossChecked, Passed} ==> all[SendTimed] == n)
  {
    SendsAre(n, Initial(warmups, start), steps);
    InvariantHolds(n, Initial(warmups, start), steps);
  }

  lemma {:induction false} SentGrows(n: nat, s: State, steps: seq<Step>)
    requires Run(n, s, steps)
    ensures |s.sent| <= |After(n, s, steps).sent| && After(n, s, steps).sent[..|s.sent|] == s.sent
    decreases |steps|
  {
    if steps == [] {
    } else {
      var last := |steps| - 1;
      LastStep(n, s, steps);
      SentGrows(n, s, steps[..last]);
    }
  }

  /** The stamp of each timestamped send is the clock it was sent at. */
  lemma StampIs(n: nat, warmups: nat, start: Timespec, before: seq<Step>, rest: seq<Step>)
    requires Run(n, Initial(warmups, start), before + ([SendTimed] + rest))
    ensures Run(n, Initial(warmups, start), before)
    ensures var s, t := After(n, Initial(warmups, start), before),
                        After(n, Initial(warmups, start), before + ([SendTimed] + rest));
      multiset(before)[SendTimed] < |t.sent| && t.sent[multiset(before)[SendTimed]] == s.clock
  {
    var init := Initial(warmups, start);
    RunAround(n, init, before, SendTimed, rest);
    SendsAre(n, init, before);
    var s := After(n, init, before);
    SentGrows(n, Apply(n, s, SendTimed), rest);
    var t := After(n, Apply(n, s, SendTimed), rest);
    assert t.sent[..|s.sent| + 1][|s.sent|] == s.clock;
  }

  lemma SamplesKeep(n: nat, s: State, step: Step)
    requires Invariant(n, s) && Enabled(n, s, step)
    ensures |s.samples| <= |Apply(n, s, step).samples| && Apply(n, s, step).samples[..|s.samples|] == s.samples
  {
    if step == Reset {
      assert |Trail(s)| == 0;
    }
  }

  lemma {:induction false} SamplesGrow(n: nat, s: State, steps: seq<Step>)
    requires Invariant(n, s) && Run(n, s, steps)
    ensures |s.samples| <= |After(n, s, steps).samples| && After(n, s, steps).samples[..|s.samples|] == s.samples
    decreases |steps|
  {
    if steps == [] {
    } else {
      var last := |steps| - 1;
      LastStep(n, s, steps);
      SamplesGrow(n, s, steps[..last]);
      InvariantHolds(n, s, steps[..last]);
      SamplesKeep(n, After(n, s, steps[..last]), steps[last]);
    }
  }

  /** A sample is the cast of the clock at delivery less the stamp the message was sent with. */
  ghost predicate SampledAt(sample: nat, clock: Timespec, sent: seq<Timespec>, item: Item) {
    && item.Data? && item.id < |sent| && item.stamp == sent[item.id]
    && Nanos(clock) - Nanos(item.stamp) >= 0 && sample == CastSample(Nanos(clock) - Nanos(item.stamp))
  }

  lemma OneSample(n: nat, s: State, r: bool)
    requires Invariant(n, s) && Enabled(n, s, Deliver(r)) && Timed(s.toPing[0])
    ensures var t := Apply(n, s, Deliver(r));
      |t.samples| == |s.samples| + 1 && SampledAt(t.samples[|s.samples|], s.clock, s.sent, s.toPing[0])
  {
    DiffTsExactIff(s.clock, s.toPing[0].stamp);
  }

  lemma PrefixAt(a: seq<nat>, b: seq<nat>, k: nat)
    requires k < |a| <= |b| && b[..|a|] == a
    ensures b[k] == a[k]
  {
    assert b[..|a|][k] == a[k];
  }

  lemma SampleStays(n: nat, s: State, r: bool, rest: seq<Step>)
    requires Invariant(n, s) && Enabled(n, s, Deliver(r)) && Timed(s.toPing[0])
    requires Run(n, Apply(n, s, Deliver(r)), rest)
    ensures var t := After(n, Apply(n, s, Deliver(r)), rest);
      |s.samples| < |t.samples| && SampledAt(t.samples[|s.samples|], s.clock, s.sent, s.toPing[0])
  {
    OneSample(n, s, r);
    InvariantStep(n, s, Deliver(r));
    var s1 := Apply(n, s, Deliver(r));
    SamplesGrow(n, s1, rest);
    PrefixAt(s1.samples, After(n, s1, rest).samples, |s.samples|);
  }

  /** Each measurement delivered leaves one more sample, for good. */
  lemma SampleIs(n: nat, warmups: nat, start: Timespec, before: seq<Step>, r: bool, rest: seq<Step>)
    requires ClockOk(start) && Run(n, Initial(warmups, start), before + ([Deliver(r)] + rest))
    ensures Run(n, Initial(warmups, start), before) && After(n, Initial(warmups, start), before).toPing != []
    ensures var s, t := After(n, Initial(warmups, start), before),
                        After(n, Initial(warmups, start), before + ([Deliver(r)] + rest));
      s.toPing[0].Data? && s.toPing[0].stamp.sec != 0 ==>
        |s.samples| < |t.samples| && SampledAt(t.samples[|s.samples|], s.clock, s.sent, s.toPing[0])
  {
    var init := Initial(warmups, start);
    RunAround(n, init, before, Deliver(r), rest);
    InvariantHolds(n, init, before);
    var s := After(n, init, before);
    if Timed(s.toPing[0]) {
      SampleStays(n, s, r, rest);
    }
  }

  lemma {:induction false} PongCounted(n: nat, s: State, steps: seq<Step>)
    requires Run(n, s, steps) && PongBos !in steps
    ensures After(n, s, steps).pongRcv == s.pongRcv + |Times(n, s, steps, Reflection)|
    ensures After(n, s, steps).pongSent == s.pongSent + |Times(n, s, steps, Reflection)|
    decreases |steps|
  {
    if steps == [] {
    } else {
      var last := |steps| - 1;
      LastStep(n, s, steps);
      assert steps[last] in steps;
      PongCounted(n, s, steps[..last]);
      TimesLast(n, s, steps, Reflection);
    }
  }

  /** Pong's counters are the messages reflected since its last session began. */
  lemma PongCounts(n: nat, s: State, before: seq<Step>, since: seq<Step>)
    requires Run(n, s, before + ([PongBos] + since)) && PongBos !in since
    ensures Run(n, s, before) && Enabled(n, After(n, s, before), PongBos)
    ensures var z, t := Zeroed(n, s, before, PongBos), After(n, s, before + ([PongBos] + since));
      t.pongRcv == t.pongSent == |Times(n, z, since, Reflection)|
  {
    RunAround(n, s, before, PongBos, since);
    PongCounted(n, Zeroed(n, s, before, PongBos), since);
  }
}
