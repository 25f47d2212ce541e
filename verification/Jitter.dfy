/** The timestamp jitter loop of um_lat_jitter.c, feeding the histogram. */
module Jitter {
  import opened Machine
  import opened CprtTime
  import opened Sequences
  import opened Histogram

  const TWO_SECONDS := 2_000_000_000

  /** True length of measurement k: one start and four warm-up readings come first, then pairs. */
  function Duration(clock: seq<Timespec>, k: nat): int
    requires 6 + 2 * k < |clock|
  {
    Nanos(clock[6 + 2 * k]) - Nanos(clock[5 + 2 * k])
  }

  function Durations(clock: seq<Timespec>, m: nat): (s: seq<int>)
    requires 4 + 2 * m < |clock|
    ensures |s| == m
  {
    if m == 0 then [] else Durations(clock, m - 1) + [Duration(clock, m - 1)]
  }

  function Casts(s: seq<int>): (r: seq<int>)
    requires NonNegative(s)
    ensures |r| == |s| && NonNegative(r)
  {
    if s == [] then [] else Casts(s[..|s| - 1]) + [CastSample(s[|s| - 1])]
  }

  /** The loop's running extremes after m measurements. */
  ghost predicate Tracked(clock: seq<Timespec>, m: nat, tsMin: int, tsMax: int)
    requires 4 + 2 * m < |clock|
  {
    && NonNegative(Durations(clock, m))
    && tsMin == MinFrom(INITIAL_MIN, Durations(clock, m))
    && tsMax == MaxFrom(0, Durations(clock, m))
  }

  /** Measurement k is the time between readings 5 + 2k and 6 + 2k, and its sample the cast of that. */
  lemma {:induction false} DurationsAre(clock: seq<Timespec>, m: nat, k: nat)
    requires k < m && 4 + 2 * m < |clock| && NonNegative(Durations(clock, m))
    ensures Durations(clock, m)[k] == Nanos(clock[6 + 2 * k]) - Nanos(clock[5 + 2 * k])
    ensures Casts(Durations(clock, m))[k] == CastSample(Nanos(clock[6 + 2 * k]) - Nanos(clock[5 + 2 * k]))
    decreases m
  {
    assert Durations(clock, m)[..m - 1] == Durations(clock, m - 1);
    if k == m - 1 {
    } else {
      DurationsAre(clock, m - 1, k);
    }
  }

  /** The loop's extremes are those of the measurements, the minimum cut at the value it starts from. */
  lemma TrackedMeans(clock: seq<Timespec>, m: nat, tsMin: int, tsMax: int)
    requires 4 + 2 * m < |clock| && Tracked(clock, m, tsMin, tsMax)
    ensures tsMin <= 999_999_999 && (tsMin == 999_999_999 || tsMin in Durations(clock, m))
    ensures tsMax >= 0 && (tsMax == 0 || tsMax in Durations(clock, m))
    ensures forall d :: d in Durations(clock, m) ==> tsMin <= d <= tsMax
  {
    ExtremesAre(Durations(clock, m), INITIAL_MIN);
    ExtremesAre(Durations(clock, m), 0);
  }

  lemma MeasureTracked(clock: seq<Timespec>, m: nat, tsMin: int, tsMax: int)
    requires Monotonic(clock) && 6 + 2 * m < |clock| && Tracked(clock, m, tsMin, tsMax)
    ensures var d := DiffTs(clock[6 + 2 * m], clock[5 + 2 * m]);
      && Tracked(clock, m + 1, if d < tsMin then d else tsMin, if d > tsMax then d else tsMax)
      && Casts(Durations(clock, m + 1)) == Casts(Durations(clock, m)) + [CastSample(d)]
  {
    DiffTsExactIff(clock[6 + 2 * m], clock[5 + 2 * m]);
    assert Durations(clock, m + 1)[..m] == Durations(clock, m);
  }

  lemma {:induction false} CastsKeep(s: seq<int>)
    requires NonNegative(s) && forall i :: 0 <= i < |s| ==> s[i] < TWO_31
    ensures Casts(s) == s
  {
    if s == [] {
    } else {
      CastsKeep(s[..|s| - 1]);
      CastKeepsIff(s[|s| - 1]);
    }
  }

  /** One measurement: two readings in a row, one sample, and the time since the start.  `before` is
      what the histogram held when the loop began. */
  method Measure(h: Hist, clock: seq<Timespec>, m: nat, tsMin: int, tsMax: int, ghost before: seq<int>)
    returns (tsMin': int, tsMax': int, elapsed: int)
    requires h.Valid() && Monotonic(clock) && 6 + 2 * m < |clock| && Tracked(clock, m, tsMin, tsMax)
    requires h.samples == before + Casts(Durations(clock, m))
    modifies h, h.buckets
    ensures h.Valid() && Tracked(clock, m + 1, tsMin', tsMax')
    ensures h.samples == before + Casts(Durations(clock, m + 1))
    ensures elapsed == Elapsed(clock, 6 + 2 * m)
  {
    var ts1, ts2 := clock[5 + 2 * m], clock[6 + 2 * m];
    var tsThis := DiffTs(ts2, ts1);
    MeasureTracked(clock, m, tsMin, tsMax);
    h.Input(CastSample(tsThis));
    tsMin' := if tsThis < tsMin then tsThis else tsMin;
    tsMax' := if tsThis > tsMax then tsThis else tsMax;
    elapsed := DiffTs(ts2, clock[0]);
    ElapsedByMacro(clock, 6 + 2 * m);
  }

  /** jitter_loop: m back-to-back pairs of readings until two seconds have passed. */
  method JitterLoop(h: Hist, clock: seq<Timespec>) returns (tsMin: int, tsMax: int, tsThis: int, m: nat)
    requires h.Valid() && Monotonic(clock)
    // the clock reaches two seconds
    requires |clock| >= 7 && |clock| % 2 == 1 && TWO_SECONDS <= Elapsed(clock, |clock| - 1)
    modifies h, h.buckets
    ensures h.Valid() && 1 <= m && 4 + 2 * m < |clock|
    ensures 2_000_000_000 <= tsThis == Elapsed(clock, 4 + 2 * m)
    ensures forall k :: 1 <= k < m ==> Elapsed(clock, 4 + 2 * k) < 2_000_000_000
    ensures Tracked(clock, m, tsMin, tsMax)
    ensures h.samples == old(h.samples) + Casts(Durations(clock, m))
  {
    tsMin, tsMax := INITIAL_MIN, 0;
    tsThis, m := 0, 0;
    while tsThis < TWO_SECONDS
      invariant h.Valid() && 4 + 2 * m < |clock|
      invariant m == 0 ==> tsThis == 0
      invariant m > 0 ==> tsThis == Elapsed(clock, 4 + 2 * m)
      invariant forall k :: 1 <= k < m ==> Elapsed(clock, 4 + 2 * k) < TWO_SECONDS
      invariant Tracked(clock, m, tsMin, tsMax)
      invariant h.samples == old(h.samples) + Casts(Durations(clock, m))
      decreases |clock| - 2 * m
    {
      tsMin, tsMax, tsThis := Measure(h, clock, m, tsMin, tsMax, old(h.samples));
      m := m + 1;
    }
  }

  /** The measured intervals are disjoint, so together they fit in the time that passed. */
  lemma {:induction false} DisjointIntervals(clock: seq<Timespec>, m: nat)
    requires Monotonic(clock) && 4 + 2 * m < |clock|
    ensures Sum(Durations(clock, m)) <= Elapsed(clock, 4 + 2 * m)
  {
    if m == 0 {
    } else {
      DisjointIntervals(clock, m - 1);
      SumAppend(Durations(clock, m - 1), Duration(clock, m - 1));
    }
  }

  /** Samples at or above a bound account for at least that much of the sum. */
  lemma {:induction false} LargeSamples(s: seq<int>, bound: nat)
    requires NonNegative(s)
    ensures (|s| - CountBelow(s, bound)) * bound <= Sum(s)
  {
    if s == [] {
    } else {
      var rest := s[..|s| - 1];
      LargeSamples(rest, bound);
      if s[|s| - 1] >= bound {
        var c := |rest| - CountBelow(rest, bound);
        assert (c + 1) * bound == c * bound + bound;
      }
    }
  }

  /** While every pair of readings is under 2^31 ns apart, a histogram that started empty agrees with the
      loop's own extremes, its sum fits in the elapsed time, and overflows are paid for in full. */
  lemma JitterAccounting(h: Hist, clock: seq<Timespec>, m: nat, tsMin: int, tsMax: int)
    requires h.Valid() && Monotonic(clock) && 4 + 2 * m < |clock| && Tracked(clock, m, tsMin, tsMax)
    requires h.samples == Casts(Durations(clock, m))
    requires forall k :: 0 <= k < m ==> Durations(clock, m)[k] < TWO_31
    ensures h.minSample == tsMin && h.maxSample == tsMax
    ensures h.sampleSum <= Elapsed(clock, 4 + 2 * m)
    ensures h.overflows * (h.numBuckets * h.nsPerBucket) <= Elapsed(clock, 4 + 2 * m)
  {
    CastsKeep(Durations(clock, m));
    DisjointIntervals(clock, m);
    Scales(0, h.numBuckets, h.nsPerBucket);
    LargeSamples(h.samples, h.numBuckets * h.nsPerBucket);
  }
}
