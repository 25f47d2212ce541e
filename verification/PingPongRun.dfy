/** A whole measurement: um_lat_ping's main thread and receive callback, um_lat_pong's reflector, and the
    two message streams between them, as one system of atomic steps in any order. */
module PingPongRun {
  import opened Machine
  import opened CprtTime

  /** What travels: a message with its time stamp, or the library's notice that one was lost for good.  The
      id numbers the timestamped messages in the order sent; only the books use it. */
  datatype Item = Data(stamp: Timespec, id: nat) | LossNotice

  /** Where ping's main stands.  Failed stands for a failed assertion, Crashed for hist_print's division by
      the number of samples when there are none. */
  datatype MainPc = Warming | Measuring | Lingering | Received | Printed | LossChecked | Passed | Failed | Crashed

  /** A message that became a sample, and the clock when it arrived. */
  datatype Taken = Taken(id: nat, arrival: Timespec)

  /** Fields up to numUnrec are the programs' own; the rest keep the books: the time stamps sent, the
      messages sampled, those lost, and what happened since the receive counters were last zeroed. */
  datatype State = State(
    main: MainPc, warmLeft: nat, timedSent: nat, clock: Timespec,
    toPong: seq<Item>, toPing: seq<Item>,
    pongRcv: nat, pongSent: nat,
    samples: seq<nat>, numRcv: nat, numRx: nat, numUnrec: nat,
    sent: seq<Timespec>, taken: seq<Taken>, lost: set<nat>,
    samplesAtZeroing: nat, warmSinceZeroing: nat, warmAtReset: nat)

  datatype Step =
    | Tick(now: Timespec)
    | SendWarm | Reset | SendTimed | FinishSending
    | AssertReceived | PrintHistogram | AssertNoLoss | AssertCount
    | DropToPong(i: nat) | DropToPing(i: nat) | NoticeToPong(i: nat) | NoticeToPing(i: nat)
    | Reflect | PongBos
    | Deliver(retransmitted: bool) | Bos

  predicate ClockOk(t: Timespec) {
    0 < t.sec && 0 <= t.nsec < BILLION && Nanos(t) < TWO_64
  }

  /** The receive callback's test: a stamp whose seconds are nonzero is a measurement. */
  predicate Timed(item: Item) {
    item.Data? && item.stamp.sec != 0
  }

  predicate Warm(item: Item) {
    item.Data? && item.stamp.sec == 0
  }

  /** The timestamped messages in a stream, by number. */
  function Ids(q: seq<Item>): seq<nat> {
    if q == [] then [] else (if Timed(q[0]) then [q[0].id] else []) + Ids(q[1..])
  }

  function WarmIn(q: seq<Item>): nat {
    if q == [] then 0 else (if Warm(q[0]) then 1 else 0) + WarmIn(q[1..])
  }

  function One(b: bool): nat {
    if b then 1 else 0
  }

  function Initial(warmups: nat, now: Timespec): State {
    State(Warming, warmups, 0, now, [], [], 0, 0, [], 0, 0, 0, [], [], {}, 0, 0, 0)
  }

  /** n is the number of messages to measure. */
  predicate Enabled(n: nat, s: State, step: Step) {
    s.main != Failed && s.main != Crashed &&
    match step
    case Tick(now) => ClockOk(now) && Nanos(s.clock) <= Nanos(now)
    case SendWarm => s.main == Warming && s.warmLeft > 0
    case Reset => s.main == Warming && s.warmLeft == 0
    case SendTimed => s.main == Measuring && s.timedSent < n
    case FinishSending => s.main == Measuring && s.timedSent == n
    case AssertReceived => s.main == Lingering
    case PrintHistogram => s.main == Received
    case AssertNoLoss => s.main == Printed
    case AssertCount => s.main == LossChecked
    case DropToPong(i) => i < |s.toPong|
    case DropToPing(i) => i < |s.toPing|
    case NoticeToPong(i) => i < |s.toPong|
    case NoticeToPing(i) => i < |s.toPing|
    case Reflect => s.toPong != []
    case PongBos => true
    case Deliver(_) => s.toPing != []
    case Bos => true
  }

  function TimedId(item: Item): set<nat> {
    if Timed(item) then {item.id} else {}
  }

  function RemoveAt(q: seq<Item>, i: nat): seq<Item>
    requires i < |q|
  {
    q[..i] + q[i + 1..]
  }

  /** hist_init and the zeroing of the receive counters in main. */
  function ResetCounters(s: State): State {
    s.(main := Measuring, samples := [], taken := [], numRcv := 0, numRx := 0, numUnrec := 0,
       samplesAtZeroing := 0, warmSinceZeroing := 0,
       warmAtReset := WarmIn(s.toPong) + WarmIn(s.toPing))
  }

  /** my_rcv_cb of pong, for the item at the head of its stream. */
  function Reflected(s: State): State
    requires s.toPong != []
  {
    var item, t := s.toPong[0], s.(toPong := s.toPong[1..]);
    if item.Data? then t.(toPing := t.toPing + [item], pongRcv := t.pongRcv + 1, pongSent := t.pongSent + 1) else t
  }

  /** my_rcv_cb of ping, for the item at the head of its stream. */
  function Delivered(s: State, retransmitted: bool): State
    requires s.toPing != []
  {
    var item, t := s.toPing[0], s.(toPing := s.toPing[1..]);
    if item.LossNotice? then t.(numUnrec := t.numUnrec + 1)
    else
      var u := t.(numRcv := t.numRcv + 1, numRx := t.numRx + One(retransmitted));
      if item.stamp.sec != 0 then
        u.(samples := u.samples + [CastSample(DiffTs(s.clock, item.stamp))],
           taken := u.taken + [Taken(item.id, s.clock)])
      else u.(warmSinceZeroing := u.warmSinceZeroing + 1)
  }

  function Apply(n: nat, s: State, step: Step): State
    requires Enabled(n, s, step)
  {
    match step
    case Tick(now) => s.(clock := now)
    case SendWarm => s.(warmLeft := s.warmLeft - 1, toPong := s.toPong + [Data(Timespec(0, 0), 0)])
    case Reset => ResetCounters(s)
    case SendTimed =>
      s.(timedSent := s.timedSent + 1, toPong := s.toPong + [Data(s.clock, |s.sent|)], sent := s.sent + [s.clock])
    case FinishSending => s.(main := Lingering)
    case AssertReceived => s.(main := if s.numRcv > 0 then Received else Failed)
    case PrintHistogram => s.(main := if s.samples != [] then Printed else Crashed)
    case AssertNoLoss => s.(main := if s.numUnrec == 0 then LossChecked else Failed)
    case AssertCount => s.(main := if s.numRcv == n then Passed else Failed)
    case DropToPong(i) => s.(toPong := RemoveAt(s.toPong, i), lost := s.lost + TimedId(s.toPong[i]))
    case DropToPing(i) => s.(toPing := RemoveAt(s.toPing, i), lost := s.lost + TimedId(s.toPing[i]))
    case NoticeToPong(i) => s.(toPong := s.toPong[i := LossNotice], lost := s.lost + TimedId(s.toPong[i]))
    case NoticeToPing(i) => s.(toPing := s.toPing[i := LossNotice], lost := s.lost + TimedId(s.toPing[i]))
    case Reflect => Reflected(s)
    case PongBos => s.(pongRcv := 0, pongSent := 0)
    case Deliver(retransmitted) => Delivered(s, retransmitted)
    case Bos =>
      s.(numRcv := 0, numRx := 0, numUnrec := 0, samplesAtZeroing := |s.samples|, warmSinceZeroing := 0)
  }

  predicate Run(n: nat, s: State, steps: seq<Step>)
    decreases |steps|
  {
    steps == [] || (Enabled(n, s, steps[0]) && Run(n, Apply(n, s, steps[0]), steps[1..]))
  }

  function After(n: nat, s: State, steps: seq<Step>): State
    requires Run(n, s, steps)
    decreases |steps|
  {
    if steps == [] then s else After(n, Apply(n, s, steps[0]), steps[1..])
  }

  /** Every timestamped message carries the stamp it was sent with, and none lies in the future. */
  ghost predicate Stamped(q: seq<Item>, sent: seq<Timespec>, clock: Timespec) {
    forall i :: 0 <= i < |q| && Timed(q[i]) ==>
      q[i].id < |sent| && q[i].stamp == sent[q[i].id] && ClockOk(q[i].stamp) && Nanos(q[i].stamp) <= Nanos(clock)
  }

  function TakenIds(taken: seq<Taken>): (r: seq<nat>)
    ensures |r| == |taken| && forall i :: 0 <= i < |r| ==> r[i] == taken[i].id
  {
    seq(|taken|, i requires 0 <= i < |taken| => taken[i].id)
  }

  /** The messages sampled, then those on their way back, then those on their way out. */
  function Trail(s: State): seq<nat> {
    TakenIds(s.taken) + Ids(s.toPing) + Ids(s.toPong)
  }

  ghost predicate Increasing(ids: seq<nat>) {
    forall i, j :: 0 <= i < j < |ids| ==> ids[i] < ids[j]
  }

  /** The n messages sent are those on the trail, in the order sent and each once, and those lost. */
  ghost predicate Accounted(trail: seq<nat>, lost: set<nat>, n: nat) {
    && Increasing(trail)
    && (forall k :: k in trail ==> k < n && k !in lost)
    && (forall k :: k in lost ==> k < n)
    && (forall k: nat :: k < n ==> k in trail || k in lost)
    && |trail| + |lost| == n
  }

  /** The receive counter against the histogram, since both were last in step. */
  ghost predicate CountersAgree(s: State) {
    && s.samplesAtZeroing <= |s.samples|
    && s.numRcv == |s.samples| - s.samplesAtZeroing + s.warmSinceZeroing
  }

  /** Round-trip time of a message: its arrival less the stamp it was sent with. */
  function RoundTrip(sent: seq<Timespec>, t: Taken): int
    requires t.id < |sent|
  {
    Nanos(t.arrival) - Nanos(sent[t.id])
  }

  /** A sample is the cast of the true round-trip time of its message. */
  ghost predicate SampleOf(sample: nat, sent: seq<Timespec>, t: Taken) {
    t.id < |sent| && 0 <= RoundTrip(sent, t) < TWO_64 && sample == CastSample(RoundTrip(sent, t))
  }

  ghost predicate SamplesTrue(s: State) {
    && |s.taken| == |s.samples|
    && forall i :: 0 <= i < |s.taken| ==> SampleOf(s.samples[i], s.sent, s.taken[i])
  }

  ghost predicate Phases(n: nat, s: State) {
    && s.timedSent == |s.sent| <= n
    && (s.main == Warming ==> s.timedSent == 0)
    && (s.main != Warming ==> s.warmLeft == 0)
    && (s.main !in {Warming, Measuring, Failed, Crashed} ==> s.timedSent == n)
    && (s.main != Warming ==> s.warmSinceZeroing + WarmIn(s.toPong) + WarmIn(s.toPing) <= s.warmAtReset)
    && (s.main == Received && s.warmAtReset == 0 ==> s.samples != [])
    && (s.main == Crashed ==> s.warmAtReset > 0)
    && (s.main in {Printed, LossChecked, Passed} ==> s.samples != [])
    && (s.main == Passed && s.warmAtReset == 0 ==> |s.samples| == n)
  }

  ghost predicate Invariant(n: nat, s: State) {
    && ClockOk(s.clock) && Stamped(s.toPong, s.sent, s.clock) && Stamped(s.toPing, s.sent, s.clock)
    && Accounted(Trail(s), s.lost, |s.sent|) && CountersAgree(s) && SamplesTrue(s) && Phases(n, s)
    && s.pongRcv == s.pongSent
  }

  lemma StampsMove(p: seq<Item>, q: seq<Item>, sent: seq<Timespec>, clock: Timespec)
    requires q != [] && Stamped(p, sent, clock) && Stamped(q, sent, clock)
    ensures Stamped(p + [q[0]], sent, clock) && Stamped(q[1..], sent, clock)
  {
  }

  /** Sending adds a stamp; the ones before it stay. */
  lemma StampsGrow(q: seq<Item>, sent: seq<Timespec>, clock: Timespec)
    requires ClockOk(clock) && Stamped(q, sent, clock)
    ensures Stamped(q, sent + [clock], clock)
    ensures Stamped(q + [Data(clock, |sent|)], sent + [clock], clock)
  {
  }

  lemma SamplesGrow(s: State)
    requires SamplesTrue(s)
    ensures SamplesTrue(s.(timedSent := s.timedSent + 1, toPong := s.toPong + [Data(s.clock, |s.sent|)],
      sent := s.sent + [s.clock]))
  {
    forall i | 0 <= i < |s.taken|
      ensures SampleOf(s.samples[i], s.sent + [s.clock], s.taken[i])
    {
      assert SampleOf(s.samples[i], s.sent, s.taken[i]);
    }
  }

  lemma {:induction false} IdsConcat(p: seq<Item>, q: seq<Item>)
    ensures Ids(p + q) == Ids(p) + Ids(q)
  {
    if p == [] {
      assert p + q == q;
    } else {
      IdsConcat(p[1..], q);
      assert (p + q)[0] == p[0] && (p + q)[1..] == p[1..] + q;
      var first := if Timed(p[0]) then [p[0].id] else [];
      assert first + (Ids(p[1..]) + Ids(q)) == first + Ids(p[1..]) + Ids(q);
    }
  }

  lemma {:induction false} WarmConcat(p: seq<Item>, q: seq<Item>)
    ensures WarmIn(p + q) == WarmIn(p) + WarmIn(q)
  {
    if p == [] {
      assert p + q == q;
    } else {
      WarmConcat(p[1..], q);
      assert (p + q)[0] == p[0] && (p + q)[1..] == p[1..] + q;
    }
  }

  lemma AppendOne(q: seq<Item>, item: Item)
    ensures Ids(q + [item]) == Ids(q) + (if Timed(item) then [item.id] else [])
    ensures WarmIn(q + [item]) == WarmIn(q) + One(Warm(item))
  {
    IdsConcat(q, [item]);
    WarmConcat(q, [item]);
  }

  /** A message taken out of a stream, or replaced by a notice, leaves what was before and after it. */
  lemma TakeOut(q: seq<Item>, i: nat)
    requires i < |q|
    ensures Ids(q) == Ids(q[..i]) + (if Timed(q[i]) then [q[i].id] else []) + Ids(q[i + 1..])
    ensures Ids(RemoveAt(q, i)) == Ids(q[i := LossNotice]) == Ids(q[..i]) + Ids(q[i + 1..])
    ensures WarmIn(RemoveAt(q, i)) == WarmIn(q[i := LossNotice]) <= WarmIn(q)
  {
    assert q == (q[..i] + [q[i]]) + q[i + 1..];
    assert q[i := LossNotice] == (q[..i] + [LossNotice]) + q[i + 1..];
    IdsConcat(q[..i] + [q[i]], q[i + 1..]);
    IdsConcat(q[..i] + [LossNotice], q[i + 1..]);
    IdsConcat(q[..i], q[i + 1..]);
    WarmConcat(q[..i] + [q[i]], q[i + 1..]);
    WarmConcat(q[..i] + [LossNotice], q[i + 1..]);
    WarmConcat(q[..i], q[i + 1..]);
    AppendOne(q[..i], q[i]);
    AppendOne(q[..i], LossNotice);
  }

  lemma StreamKeepsStamps(q: seq<Item>, i: nat, sent: seq<Timespec>, clock: Timespec)
    requires i < |q| && Stamped(q, sent, clock)
    ensures Stamped(RemoveAt(q, i), sent, clock) && Stamped(q[i := LossNotice], sent, clock)
  {
  }

  lemma SplitAround(before: seq<nat>, k: nat, after: seq<nat>)
    requires Increasing(before + [k] + after)
    ensures Increasing(before + after)
    ensures forall x :: x in before + after <==> x in before + [k] + after && x != k
  {
    var trail, rest := before + [k] + after, before + after;
    assert trail[|before|] == k;
    forall i | 0 <= i < |rest|
      ensures rest[i] in trail && rest[i] != k
    {
      assert rest[i] == trail[if i < |before| then i else i + 1];
    }
    forall i, j | 0 <= i < j < |rest|
      ensures rest[i] < rest[j]
    {
      assert trail[if i < |before| then i else i + 1] < trail[if j < |before| then j else j + 1];
    }
    forall i | 0 <= i < |trail| && trail[i] != k
      ensures trail[i] in rest
    {
      assert trail[i] == rest[if i < |before| then i else i - 1];
    }
  }

  /** Losing a message moves it from the trail to the lost ones. */
  lemma AccountLoss(before: seq<nat>, k: nat, after: seq<nat>, lost: set<nat>, n: nat)
    requires Accounted(before + [k] + after, lost, n)
    ensures Accounted(before + after, lost + {k}, n)
  {
    SplitAround(before, k, after);
    assert k in before + [k] + after;
  }

  lemma AccountSend(trail: seq<nat>, lost: set<nat>, n: nat)
    requires Accounted(trail, lost, n)
    ensures Accounted(trail + [n], lost, n + 1)
  {
    forall i | 0 <= i < |trail|
      ensures trail[i] < n
    {
      assert trail[i] in trail;
    }
  }

  lemma StreamLoss(pre: seq<nat>, q: seq<Item>, i: nat, post: seq<nat>, lost: set<nat>, n: nat)
    requires i < |q| && Accounted(pre + Ids(q) + post, lost, n)
    ensures Ids(RemoveAt(q, i)) == Ids(q[i := LossNotice])
    ensures Accounted(pre + Ids(RemoveAt(q, i)) + post, lost + TimedId(q[i]), n)
  {
    TakeOut(q, i);
    var before, after := pre + Ids(q[..i]), Ids(q[i + 1..]) + post;
    assert pre + Ids(RemoveAt(q, i)) + post == before + after;
    if Timed(q[i]) {
      assert pre + Ids(q) + post == before + [q[i].id] + after;
      AccountLoss(before, q[i].id, after, lost, n);
    } else {
      assert pre + Ids(q) + post == before + after;
      assert lost + {} == lost;
    }
  }

  lemma LossToPong(n: nat, s: State, step: Step)
    requires Invariant(n, s) && Enabled(n, s, step) && (step.DropToPong? || step.NoticeToPong?)
    ensures Invariant(n, Apply(n, s, step))
  {
    var pre := TakenIds(s.taken) + Ids(s.toPing);
    assert Trail(s) == pre + Ids(s.toPong) + [];
    StreamLoss(pre, s.toPong, step.i, [], s.lost, |s.sent|);
    TakeOut(s.toPong, step.i);
    StreamKeepsStamps(s.toPong, step.i, s.sent, s.clock);
    assert Trail(Apply(n, s, step)) == pre + Ids(RemoveAt(s.toPong, step.i)) + [];
  }

  lemma LossToPing(n: nat, s: State, step: Step)
    requires Invariant(n, s) && Enabled(n, s, step) && (step.DropToPing? || step.NoticeToPing?)
    ensures Invariant(n, Apply(n, s, step))
  {
    StreamLoss(TakenIds(s.taken), s.toPing, step.i, Ids(s.toPong), s.lost, |s.sent|);
    TakeOut(s.toPing, step.i);
    StreamKeepsStamps(s.toPing, step.i, s.sent, s.clock);
  }

  /** Reflection moves a message along its trail. */
  lemma ReflectTrail(s: State)
    requires s.toPong != []
    ensures Trail(Reflected(s)) == Trail(s)
  {
    AppendOne(s.toPing, s.toPong[0]);
  }

  lemma ReflectStep(n: nat, s: State)
    requires Invariant(n, s) && Enabled(n, s, Reflect)
    ensures Invariant(n, Apply(n, s, Reflect))
  {
    ReflectTrail(s);
    AppendOne(s.toPing, s.toPong[0]);
    StampsMove(s.toPing, s.toPong, s.sent, s.clock);
  }

  lemma DeliverSample(s: State, retransmitted: bool)
    requires s.toPing != [] && ClockOk(s.clock) && Stamped(s.toPing, s.sent, s.clock) && SamplesTrue(s)
    ensures SamplesTrue(Delivered(s, retransmitted))
  {
    var item := s.toPing[0];
    if Timed(item) {
      DiffTsExactIff(s.clock, item.stamp);
      assert SampleOf(CastSample(DiffTs(s.clock, item.stamp)), s.sent, Taken(item.id, s.clock));
    }
  }

  /** And so does delivery, to its end. */
  lemma DeliverTrail(s: State, retransmitted: bool)
    requires s.toPing != []
    ensures Trail(Delivered(s, retransmitted)) == Trail(s)
  {
    var t, item := Delivered(s, retransmitted), s.toPing[0];
    assert TakenIds(t.taken) == TakenIds(s.taken) + (if Timed(item) then [item.id] else []);
  }

  lemma DeliverPhases(n: nat, s: State, retransmitted: bool)
    requires s.toPing != [] && Phases(n, s) && CountersAgree(s)
    requires |s.samples| == |s.taken| && Accounted(Trail(s), s.lost, |s.sent|)
    ensures Phases(n, Delivered(s, retransmitted)) && CountersAgree(Delivered(s, retransmitted))
  {
    if Timed(s.toPing[0]) {
      assert |Ids(s.toPing)| >= 1;
    }
  }

  lemma DeliverStep(n: nat, s: State, retransmitted: bool)
    requires Invariant(n, s) && Enabled(n, s, Deliver(retransmitted))
    ensures Invariant(n, Apply(n, s, Deliver(retransmitted)))
  {
    DeliverSample(s, retransmitted);
    DeliverTrail(s, retransmitted);
    DeliverPhases(n, s, retransmitted);
    assert Stamped(s.toPing[1..], s.sent, s.clock);
  }

  lemma SendWarmStep(n: nat, s: State)
    requires Invariant(n, s) && Enabled(n, s, SendWarm)
    ensures Invariant(n, Apply(n, s, SendWarm))
  {
    AppendOne(s.toPong, Data(Timespec(0, 0), 0));
    assert Trail(Apply(n, s, SendWarm)) == Trail(s);
  }

  lemma SendTimedStep(n: nat, s: State)
    requires Invariant(n, s) && Enabled(n, s, SendTimed)
    ensures Invariant(n, Apply(n, s, SendTimed))
  {
    AppendOne(s.toPong, Data(s.clock, |s.sent|));
    StampsGrow(s.toPong, s.sent, s.clock);
    StampsGrow(s.toPing, s.sent, s.clock);
    SamplesGrow(s);
    AccountSend(Trail(s), s.lost, |s.sent|);
    assert Trail(Apply(n, s, SendTimed)) == Trail(s) + [|s.sent|];
  }

  /** The warm-up over, nothing has been sampled that resetting could lose. */
  lemma ResetStep(n: nat, s: State)
    requires Invariant(n, s) && Enabled(n, s, Reset)
    ensures Invariant(n, Apply(n, s, Reset))
  {
    assert |Trail(s)| == 0;
    assert Trail(Apply(n, s, Reset)) == Trail(s);
  }

  lemma MainStep(n: nat, s: State, step: Step)
    requires Invariant(n, s) && Enabled(n, s, step)
    requires step in {FinishSending, AssertReceived, PrintHistogram, AssertNoLoss, AssertCount}
    ensures Invariant(n, Apply(n, s, step))
  {
    assert Trail(Apply(n, s, step)) == Trail(s);
  }

  lemma InvariantStep(n: nat, s: State, step: Step)
    requires Invariant(n, s) && Enabled(n, s, step)
    ensures Invariant(n, Apply(n, s, step))
  {
    match step
    case Tick(_) => assert Trail(Apply(n, s, step)) == Trail(s);
    case SendWarm => SendWarmStep(n, s);
    case SendTimed => SendTimedStep(n, s);
    case Reset => ResetStep(n, s);
    case DropToPong(_) => LossToPong(n, s, step);
    case DropToPing(_) => LossToPing(n, s, step);
    case NoticeToPong(_) => LossToPong(n, s, step);
    case NoticeToPing(_) => LossToPing(n, s, step);
    case Reflect => ReflectStep(n, s);
    case PongBos => assert Trail(Apply(n, s, step)) == Trail(s);
    case Deliver(r) => DeliverStep(n, s, r);
    case Bos => assert Trail(Apply(n, s, step)) == Trail(s);
    case _ => MainStep(n, s, step);
  }

  lemma {:induction false} InvariantHolds(n: nat, s: State, steps: seq<Step>)
    requires Invariant(n, s) && Run(n, s, steps)
    ensures Invariant(n, After(n, s, steps))
    decreases |steps|
  {
    if steps == [] {
    } else {
      InvariantStep(n, s, steps[0]);
      InvariantHolds(n, Apply(n, s, steps[0]), steps[1..]);
    }
  }

  /** Conservation, in every reachable state: each timestamped message has become one sample, is in one of
      the streams, or is lost, and only one of these; samples and streams keep the order of sending.  Hence
      the counts; the receive counter counts samples and late warm-ups. */
  lemma Conservation(n: nat, warmups: nat, start: Timespec, steps: seq<Step>)
    requires ClockOk(start) && Run(n, Initial(warmups, start), steps)
    ensures var s := After(n, Initial(warmups, start), steps);
      && Increasing(Trail(s))
      && (forall k: nat :: k in Trail(s) || k in s.lost <==> k < |s.sent|)
      && (forall k :: k in Trail(s) ==> k !in s.lost)
      && s.timedSent == |s.sent| == |s.samples| + |Ids(s.toPing)| + |Ids(s.toPong)| + |s.lost|
      && s.numRcv == |s.samples| - s.samplesAtZeroing + s.warmSinceZeroing
      && s.pongRcv == s.pongSent
  {
    InvariantHolds(n, Initial(warmups, start), steps);
  }

  /** Every sample is the round-trip time of a timestamped message of its own, taken in the order sent, and
      exact below 2^31 ns; so warm-up messages are never samples. */
  lemma SamplesAreRoundTrips(n: nat, warmups: nat, start: Timespec, steps: seq<Step>)
    requires ClockOk(start) && Run(n, Initial(warmups, start), steps)
    ensures var s := After(n, Initial(warmups, start), steps);
      && |s.taken| == |s.samples| && Increasing(TakenIds(s.taken))
      && (forall i :: 0 <= i < |s.taken| ==> SampleOf(s.samples[i], s.sent, s.taken[i]))
      && (forall i :: 0 <= i < |s.taken| && RoundTrip(s.sent, s.taken[i]) < TWO_31 ==>
            s.samples[i] == RoundTrip(s.sent, s.taken[i]))
      && (s.main == Warming ==> s.samples == [])
  {
    InvariantHolds(n, Initial(warmups, start), steps);
    var s := After(n, Initial(warmups, start), steps);
    forall i, j | 0 <= i < j < |s.taken|
      ensures s.taken[i].id < s.taken[j].id
    {
      assert Trail(s)[i] == s.taken[i].id && Trail(s)[j] == s.taken[j].id;
    }
    forall i | 0 <= i < |s.taken| && RoundTrip(s.sent, s.taken[i]) < TWO_31
      ensures s.samples[i] == RoundTrip(s.sent, s.taken[i])
    {
      CastKeepsIff(RoundTrip(s.sent, s.taken[i]));
    }
  }

  /** A passing final check vouches for the histogram: with no warm-up message in flight at the reset, all n
      measurements are in it, none lost, none to come, whatever transport sessions began meanwhile. */
  lemma PassedMeansComplete(n: nat, warmups: nat, start: Timespec, steps: seq<Step>)
    requires ClockOk(start) && Run(n, Initial(warmups, start), steps)
    requires var s := After(n, Initial(warmups, start), steps); s.main == Passed && s.warmAtReset == 0
    ensures var s := After(n, Initial(warmups, start), steps);
      |s.samples| == n && Ids(s.toPong) == [] && Ids(s.toPing) == [] && s.lost == {}
  {
    InvariantHolds(n, Initial(warmups, start), steps);
  }

  /** Exactly when the check tells the truth: at the moment it passes, the histogram is complete if and only
      if late warm-ups counted since the last zeroing make up for the samples taken before it. */
  lemma CheckTruthfulIff(n: nat, warmups: nat, start: Timespec, steps: seq<Step>)
    requires ClockOk(start) && Run(n, Initial(warmups, start), steps)
    requires var s := After(n, Initial(warmups, start), steps);
      Enabled(n, s, AssertCount) && Apply(n, s, AssertCount).main == Passed
    ensures var s := After(n, Initial(warmups, start), steps);
      |s.samples| == n <==> s.warmSinceZeroing == s.samplesAtZeroing
  {
    InvariantHolds(n, Initial(warmups, start), steps);
  }

  /** With no warm-up message in flight at the reset, the histogram is never printed empty. */
  lemma PrintingIsSafe(n: nat, warmups: nat, start: Timespec, steps: seq<Step>)
    requires ClockOk(start) && Run(n, Initial(warmups, start), steps)
    requires After(n, Initial(warmups, start), steps).warmAtReset == 0
    ensures After(n, Initial(warmups, start), steps).main != Crashed
    ensures After(n, Initial(warmups, start), steps).main == Received ==>
      After(n, Initial(warmups, start), steps).samples != []
  {
    InvariantHolds(n, Initial(warmups, start), steps);
  }

  /** No warm-up message was ever sent or is still to be. */
  ghost predicate NoWarmups(s: State) {
    ClockOk(s.clock) && s.warmLeft == 0 && WarmIn(s.toPong) == 0 && WarmIn(s.toPing) == 0 && s.warmAtReset == 0
  }

  lemma NoWarmupsStep(n: nat, s: State, step: Step)
    requires NoWarmups(s) && Enabled(n, s, step)
    ensures NoWarmups(Apply(n, s, step))
  {
    match step
    case SendTimed => AppendOne(s.toPong, Data(s.clock, |s.sent|));
    case DropToPong(i) => TakeOut(s.toPong, i);
    case DropToPing(i) => TakeOut(s.toPing, i);
    case NoticeToPong(i) => TakeOut(s.toPong, i);
    case NoticeToPing(i) => TakeOut(s.toPing, i);
    case Reflect => AppendOne(s.toPing, s.toPong[0]);
    case _ =>
  }

  lemma {:induction false} NoWarmupsHolds(n: nat, s: State, steps: seq<Step>)
    requires NoWarmups(s) && Run(n, s, steps)
    ensures NoWarmups(After(n, s, steps))
    decreases |steps|
  {
    if steps == [] {
    } else {
      NoWarmupsStep(n, s, steps[0]);
      NoWarmupsHolds(n, Apply(n, s, steps[0]), steps[1..]);
    }
  }

  lemma RunFrom(n: nat, s: State, step: Step, rest: seq<Step>) returns (steps: seq<Step>)
    requires Enabled(n, s, step) && Run(n, Apply(n, s, step), rest)
    ensures steps == [step] + rest && Run(n, s, steps)
    ensures After(n, s, steps) == After(n, Apply(n, s, step), rest)
  {
    steps := [step] + rest;
    assert steps[1..] == rest;
  }
}
