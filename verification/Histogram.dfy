/** The bucketed latency histogram (um_lat_ping.c; um_lat_jitter.c holds a copy). */
module Histogram {
  import opened Machine
  import opened Sequences

  const INITIAL_MIN := 999_999_999

  /** The largest (smallest) sample, starting from the value the running extreme is reset to. */
  function MaxFrom(start: int, s: seq<int>): int {
    if s == [] then start
    else var m := MaxFrom(start, s[..|s| - 1]); if s[|s| - 1] > m then s[|s| - 1] else m
  }

  function MinFrom(start: int, s: seq<int>): int {
    if s == [] then start
    else var m := MinFrom(start, s[..|s| - 1]); if s[|s| - 1] < m then s[|s| - 1] else m
  }

  ghost predicate NonNegative(s: seq<int>) {
    forall i :: 0 <= i < |s| ==> 0 <= s[i]
  }

  /** The samples that landed in bucket i. */
  function InBucket(s: seq<int>, width: int, i: int): int {
    CountBelow(s, (i + 1) * width) - CountBelow(s, i * width)
  }

  /** Number of samples a percentile must exceed; p is the rational num / den (a C double). */
  function Needed(numSamples: nat, num: nat, den: nat): nat
    requires den > 0
  {
    Scales(0, numSamples, num);
    Quotient(numSamples * num, 100 * den);
    numSamples * num / (100 * den)
  }

  /** The rank asked for is N * p / 100, rounded down. */
  lemma NeededIs(numSamples: nat, num: nat, den: nat)
    requires den > 0
    ensures Needed(numSamples, num, den) * (100 * den) <= numSamples * num < (Needed(numSamples, num, den) + 1) * (100 * den)
  {
    Scales(0, numSamples, num);
    Quotient(numSamples * num, 100 * den);
  }

  /** What hist_percentile reports: the upper edge of the first bucket by whose end more than `needed`
      samples have been found, or -1 when the buckets never hold that many. */
  ghost predicate IsPercentile(s: seq<int>, numBuckets: nat, width: nat, needed: nat, r: int) {
    if r == -1 then CountBelow(s, numBuckets * width) <= needed
    else exists i :: 0 <= i < numBuckets && UpperEdge(s, width, needed, r, i)
  }

  ghost predicate UpperEdge(s: seq<int>, width: nat, needed: nat, r: int, i: nat) {
    r == (i + 1) * width && CountBelow(s, i * width) <= needed < CountBelow(s, r)
  }

  ghost predicate Bucketed(counts: seq<int>, s: seq<int>, width: nat) {
    forall i :: 0 <= i < |counts| ==> counts[i] == InBucket(s, width, i)
  }

  /** The histogram's variables, as one value. */
  datatype Totals = Totals(minSample: int, maxSample: int, overflows: int, numSamples: int, sampleSum: int)

  /** What counts and totals must be for the samples fed in. */
  ghost predicate Summarizes(counts: seq<int>, t: Totals, s: seq<int>, width: nat) {
    && NonNegative(s)
    && Bucketed(counts, s, width)
    && t.overflows == |s| - CountBelow(s, |counts| * width)
    && t.numSamples == |s| && t.sampleSum == Sum(s)
    && t.maxSample == MaxFrom(0, s) && t.minSample == MinFrom(INITIAL_MIN, s)
  }

  ghost function CountsAfter(counts: seq<int>, bucket: nat): seq<int> {
    if bucket < |counts| then counts[bucket := counts[bucket] + 1] else counts
  }

  ghost function TotalsAfter(t: Totals, x: int, overflow: bool): Totals {
    Totals(if x < t.minSample then x else t.minSample, if x > t.maxSample then x else t.maxSample,
           t.overflows + (if overflow then 1 else 0), t.numSamples + 1, t.sampleSum + x)
  }

  class Hist {
    const numBuckets: nat
    const nsPerBucket: nat
    const buckets: array<int>
    var minSample: int
    var maxSample: int
    var overflows: int
    var numSamples: int
    var sampleSum: int
    /** Every sample fed in since the last initialization, in order. */
    ghost var samples: seq<int>

    /** The summary stands for the samples. */
    ghost predicate Valid()
      reads this, buckets
    {
      && numBuckets > 0 && nsPerBucket > 0 && buckets.Length == numBuckets
      && Summarizes(buckets[..], CurrentTotals(), samples, nsPerBucket)
    }

    function CurrentTotals(): Totals
      reads this
    {
      Totals(minSample, maxSample, overflows, numSamples, sampleSum)
    }

    /** hist_create */
    constructor (numBuckets: nat, nsPerBucket: nat)
      requires numBuckets > 0 && nsPerBucket > 0
      ensures Valid() && fresh(buckets) && samples == []
      ensures this.numBuckets == numBuckets && this.nsPerBucket == nsPerBucket
    {
      this.numBuckets, this.nsPerBucket := numBuckets, nsPerBucket;
      buckets := new int[numBuckets];
      new;
      var i := 0;
      while i < numBuckets
        invariant 0 <= i <= numBuckets
        invariant forall j :: 0 <= j < i ==> buckets[j] == 0
      {
        buckets[i] := 0;
        i := i + 1;
      }
      minSample, maxSample, overflows, numSamples, sampleSum := INITIAL_MIN, 0, 0, 0, 0;
      samples := [];
    }

    /** hist_init: forgets everything. */
    method Init()
      requires Valid()
      modifies this, buckets
      ensures Valid() && samples == []
    {
      minSample, maxSample, overflows, numSamples, sampleSum := INITIAL_MIN, 0, 0, 0, 0;
      var i := 0;
      while i < numBuckets
        invariant 0 <= i <= numBuckets
        invariant forall j :: 0 <= j < i ==> buckets[j] == 0
        invariant minSample == INITIAL_MIN && maxSample == overflows == numSamples == sampleSum == 0
      {
        buckets[i] := 0;
        i := i + 1;
      }
      samples := [];
    }

    /** The first half of hist_input: count, sum and extremes. */
    method AddToTotals(inSample: nat)
      modifies this`numSamples, this`sampleSum, this`maxSample, this`minSample
      ensures CurrentTotals() == TotalsAfter(old(CurrentTotals()), inSample, false)
    {
      numSamples := numSamples + 1;
      sampleSum := sampleSum + inSample;
      if inSample > maxSample {
        maxSample := inSample;
      }
      if inSample < minSample {
        minSample := inSample;
      }
    }

    /** The second half: the bucket, or the overflow count. */
    method AddToBucket(bucket: nat)
      requires buckets.Length == numBuckets
      modifies this`overflows, buckets
      ensures overflows == old(overflows) + if bucket >= numBuckets then 1 else 0
      ensures buckets[..] == CountsAfter(old(buckets[..]), bucket)
    {
      if bucket >= numBuckets {
        overflows := overflows + 1;
      } else {
        buckets[bucket] := buckets[bucket] + 1;
      }
    }

    /** hist_input */
    method Input(inSample: nat)
      requires Valid()
      modifies this, buckets
      ensures Valid() && samples == old(samples) + [inSample]
    {
      InputSummarized(buckets[..], CurrentTotals(), samples, inSample, nsPerBucket);
      AddToTotals(inSample);
      AddToBucket(BucketOf(inSample, nsPerBucket));
      samples := samples + [inSample];
    }

    /** hist_percentile; the rank it works with is N * p / 100, rounded down. */
    method Percentile(num: nat, den: nat) returns (r: int, ghost needed: nat)
      requires Valid() && den > 0
      ensures needed * (100 * den) <= |samples| * num < (needed + 1) * (100 * den)
      ensures needed == Needed(|samples|, num, den)
      ensures IsPercentile(samples, numBuckets, nsPerBucket, needed, r)
    {
      NeededIs(numSamples, num, den);
      var neededSamples := Needed(numSamples, num, den);
      needed := neededSamples;
      var foundSamples := 0;
      var i := 0;
      CountBelowExtremes(samples, 0);
      while i < numBuckets
        invariant 0 <= i <= numBuckets
        invariant foundSamples == CountBelow(samples, i * nsPerBucket) <= neededSamples
      {
        foundSamples := foundSamples + buckets[i];
        if foundSamples > neededSamples {
          assert UpperEdge(samples, nsPerBucket, neededSamples, (i + 1) * nsPerBucket, i);
          return (i + 1) * nsPerBucket, needed;
        }
        i := i + 1;
      }
      return -1, needed;
    }

    /** The average printed by hist_print, which divides by zero when there are no samples. */
    method Average() returns (threw: bool, r: int)
      requires Valid()
      ensures threw <==> samples == []
      ensures !threw ==> minSample <= r <= maxSample && r * |samples| <= Sum(samples) < (r + 1) * |samples|
    {
      if numSamples == 0 {
        return true, 0;
      }
      r := sampleSum / numSamples;
      threw := false;
      SumBetweenExtremes(samples, INITIAL_MIN);
      DivisionBounds(sampleSum, numSamples, minSample, maxSample);
    }
  }

  lemma DivisionBounds(sum: int, n: int, lo: int, hi: int)
    requires n > 0 && lo * n <= sum <= hi * n
    ensures lo <= sum / n <= hi
    ensures sum / n * n <= sum < (sum / n + 1) * n
  {
    var q := sum / n;
    assert q * n <= sum < (q + 1) * n;
    CancelFactor(lo, q + 1, n);
    CancelFactor(q, hi + 1, n);
  }

  lemma {:induction false} SumBetweenExtremes(s: seq<int>, start: int)
    requires NonNegative(s)
    ensures MinFrom(start, s) * |s| <= Sum(s) <= MaxFrom(0, s) * |s|
    ensures MaxFrom(0, s) >= 0
  {
    if s == [] {
    } else {
      var rest, x := s[..|s| - 1], s[|s| - 1];
      SumBetweenExtremes(rest, start);
      OneMore(MinFrom(start, s), MinFrom(start, rest), x, |rest|);
      OneLess(MaxFrom(0, s), MaxFrom(0, rest), x, |rest|);
    }
  }

  lemma OneMore(m: int, m0: int, x: int, n: nat)
    requires m <= m0 && m <= x
    ensures m * (n + 1) <= m0 * n + x
  {
    Scales(m, m0, n);
  }

  lemma OneLess(m: int, m0: int, x: int, n: nat)
    requires m0 <= m && x <= m
    ensures m0 * n + x <= m * (n + 1)
  {
    Scales(m0, m, n);
  }

  function BucketOf(x: nat, width: nat): nat
    requires width > 0
  {
    Quotient(x, width);
    x / width
  }

  lemma EdgeCounts(s: seq<int>, x: nat, i: nat, width: nat)
    requires width > 0
    ensures CountBelow(s + [x], i * width) == CountBelow(s, i * width) + if BucketOf(x, width) < i then 1 else 0
  {
    CountBelowAppend(s, x, i * width);
    BelowEdge(x, i, width);
  }

  /** A sample raises the count of exactly the bucket its quotient names, or else the overflow count. */
  lemma InputCounts(counts: seq<int>, s: seq<int>, x: nat, width: nat)
    requires width > 0 && Bucketed(counts, s, width)
    ensures Bucketed(CountsAfter(counts, BucketOf(x, width)), s + [x], width)
    ensures CountBelow(s + [x], |counts| * width)
      == CountBelow(s, |counts| * width) + if BucketOf(x, width) < |counts| then 1 else 0
  {
    forall i: nat | i <= |counts|
      ensures CountBelow(s + [x], i * width) == CountBelow(s, i * width) + if BucketOf(x, width) < i then 1 else 0
    {
      EdgeCounts(s, x, i, width);
    }
  }

  lemma InputSummarized(counts: seq<int>, t: Totals, s: seq<int>, x: nat, width: nat)
    requires width > 0 && Summarizes(counts, t, s, width)
    ensures Summarizes(CountsAfter(counts, BucketOf(x, width)),
        TotalsAfter(t, x, BucketOf(x, width) >= |counts|), s + [x], width)
  {
    InputCounts(counts, s, x, width);
    assert (s + [x])[..|s|] == s;
  }

  lemma BelowEdge(x: nat, i: nat, width: nat)
    requires width > 0
    ensures x < i * width <==> BucketOf(x, width) < i
  {
    Quotient(x, width);
    var q := x / width;
    if q < i {
      Scales(q + 1, i, width);
    } else {
      Scales(i, q, width);
    }
  }

  /** More than `needed` samples lie below the reported edge, at most `needed` below its bucket; and the
      answer is withheld exactly when too few samples avoided the overflow count. */
  lemma PercentileMeaning(counts: seq<int>, t: Totals, s: seq<int>, width: nat, needed: nat, r: int)
    requires width > 0 && Summarizes(counts, t, s, width)
    requires IsPercentile(s, |counts|, width, needed, r)
    ensures r == -1 <==> t.numSamples - t.overflows <= needed
    ensures r != -1 ==> CountBelow(s, r - width) <= needed < CountBelow(s, r)
  {
    if r != -1 {
      var i :| 0 <= i < |counts| && UpperEdge(s, width, needed, r, i);
      Scales(i + 1, |counts|, width);
      CountBelowMonotone(s, r, |counts| * width);
      assert r - width == i * width;
    }
  }

  /** Agreement with the exact statistic: the edge reported is that of the bucket holding the sample of
      0-based rank `needed` in the sorted list, or -1 if that sample overflowed or does not exist. */
  lemma PercentileOfSorted(s: seq<int>, t: seq<int>, numBuckets: nat, width: nat, needed: nat, r: int)
    requires width > 0 && NonNegative(s) && IsSortingOf(t, s)
    requires IsPercentile(s, numBuckets, width, needed, r)
    ensures |t| == |s|
    ensures needed >= |s| ==> r == -1
    ensures needed < |s| ==> t[needed] >= 0
    ensures needed < |s| ==>
      r == if t[needed] < numBuckets * width then (BucketOf(t[needed], width) + 1) * width else -1
  {
    CountAndSumPermute(s, t, 0);
    if needed < |s| {
      assert t[needed] in multiset(s);
      if r == -1 {
        CountAndSumPermute(s, t, numBuckets * width);
        RankInSorted(t, needed, numBuckets * width);
      } else {
        var i :| 0 <= i < numBuckets && UpperEdge(s, width, needed, r, i);
        CountAndSumPermute(s, t, i * width);
        CountAndSumPermute(s, t, r);
        RankInSorted(t, needed, i * width);
        RankInSorted(t, needed, r);
        BelowEdge(t[needed], i, width);
        BelowEdge(t[needed], i + 1, width);
        BelowEdge(t[needed], numBuckets, width);
      }
    }
  }

  /** The edge is computed as an int: it fits exactly when the bucket of that sample ends below 2^31, and so
      always when the histogram does. */
  lemma EdgeFitsIff(s: seq<int>, t: seq<int>, numBuckets: nat, width: nat, needed: nat, r: int)
    requires width > 0 && NonNegative(s) && IsSortingOf(t, s)
    requires IsPercentile(s, numBuckets, width, needed, r) && r != -1
    ensures needed < |t| && t[needed] >= 0
    ensures r < TWO_31 <==> (BucketOf(t[needed], width) + 1) * width < TWO_31
    ensures numBuckets * width < TWO_31 ==> r < TWO_31
  {
    PercentileOfSorted(s, t, numBuckets, width, needed, r);
    var i :| 0 <= i < numBuckets && UpperEdge(s, width, needed, r, i);
    Scales(i + 1, numBuckets, width);
  }

  /** One answer only. */
  lemma PercentileUnique(s: seq<int>, numBuckets: nat, width: nat, needed: nat, r: int, r': int)
    requires width > 0
    requires IsPercentile(s, numBuckets, width, needed, r) && IsPercentile(s, numBuckets, width, needed, r')
    ensures r == r'
  {
    PercentileMonotone(s, numBuckets, width, needed, needed, r, r');
    PercentileMonotone(s, numBuckets, width, needed, needed, r', r);
  }

  /** Asking for more never reports less, with -1 read as infinity. */
  lemma PercentileMonotone(s: seq<int>, numBuckets: nat, width: nat, needed: nat, needed': nat, r: int, r': int)
    requires width > 0 && needed <= needed'
    requires IsPercentile(s, numBuckets, width, needed, r) && IsPercentile(s, numBuckets, width, needed', r')
    ensures r' == -1 || (r != -1 && r <= r')
  {
    if r' != -1 {
      var j :| 0 <= j < numBuckets && UpperEdge(s, width, needed', r', j);
      Scales(j + 1, numBuckets, width);
      CountBelowMonotone(s, r', numBuckets * width);
      if r != -1 {
        var i :| 0 <= i < numBuckets && UpperEdge(s, width, needed, r, i);
        if j < i {
          Scales(j + 1, i, width);
          CountBelowMonotone(s, r', i * width);
        } else {
          Scales(i + 1, j + 1, width);
        }
      }
    }
  }

  /** The rank asked for grows with the percentile. */
  lemma NeededMonotone(numSamples: nat, num: nat, den: nat, num': nat, den': nat)
    requires den > 0 && den' > 0 && num * den' <= num' * den
    ensures Needed(numSamples, num, den) <= Needed(numSamples, num', den')
  {
    var a, a' := numSamples * num, numSamples * num';
    var d, d' := 100 * den, 100 * den';
    Scales(0, numSamples, num);
    Scales(0, numSamples, num');
    assert a * d' <= a' * d by {
      Scales(num * den', num' * den, numSamples * 100);
      assert a * d' == num * den' * (numSamples * 100);
      assert a' * d == num' * den * (numSamples * 100);
    }
    Quotient(a, d);
    Quotient(a', d');
    QuotientsOrdered(a, d, a', d');
  }

  lemma QuotientsOrdered(a: nat, d: nat, a': nat, d': nat)
    requires d > 0 && d' > 0 && a * d' <= a' * d
    ensures a / d <= a' / d'
  {
    var q, q' := a / d, a' / d';
    Quotient(a, d);
    Quotient(a', d');
    // q d d' <= a d' <= a' d < (q' + 1) d' d
    Scales(q * d, a, d');
    Scale(a', (q' + 1) * d', d);
    assert q * d * d' == q * (d * d');
    assert (q' + 1) * d' * d == (q' + 1) * (d * d');
    CancelFactor(q, q' + 1, d * d');
  }

  lemma Scale(x: int, y: int, k: int)
    requires x < y && k > 0
    ensures x * k < y * k
  {
    assert (y - x) * k > 0;
  }

  /** Nothing is lost between buckets and overflow count. */
  lemma {:induction false} BucketsSumTo(counts: seq<int>, s: seq<int>, width: nat)
    requires NonNegative(s) && Bucketed(counts, s, width)
    ensures Sum(counts) == CountBelow(s, |counts| * width)
  {
    if counts == [] {
      CountBelowExtremes(s, 0);
    } else {
      BucketsSumTo(counts[..|counts| - 1], s, width);
    }
  }

  lemma EverySampleCounted(counts: seq<int>, t: Totals, s: seq<int>, width: nat)
    requires Summarizes(counts, t, s, width)
    ensures Sum(counts) + t.overflows == t.numSamples
  {
    BucketsSumTo(counts, s, width);
  }

  lemma {:induction false} ExtremesAre(s: seq<int>, start: int)
    ensures MaxFrom(start, s) == start || MaxFrom(start, s) in s
    ensures MinFrom(start, s) == start || MinFrom(start, s) in s
    ensures MinFrom(start, s) <= start <= MaxFrom(start, s)
    ensures forall x :: x in s ==> MinFrom(start, s) <= x <= MaxFrom(start, s)
  {
    if s == [] {
    } else {
      ExtremesAre(s[..|s| - 1], start);
      assert s == s[..|s| - 1] + [s[|s| - 1]];
    }
  }

  /** The recorded maximum is always the largest sample, the recorded minimum the smallest exactly when
      some sample does not exceed the value it is reset to; otherwise it stays at that value. */
  lemma RecordedExtremes(s: seq<int>)
    requires NonNegative(s) && s != []
    ensures MaxFrom(0, s) in s && forall x :: x in s ==> x <= MaxFrom(0, s)
    ensures (MinFrom(INITIAL_MIN, s) in s && forall x :: x in s ==> MinFrom(INITIAL_MIN, s) <= x)
       <==> exists i :: 0 <= i < |s| && s[i] <= 999_999_999
    ensures (forall i :: 0 <= i < |s| ==> s[i] > 999_999_999) ==> MinFrom(INITIAL_MIN, s) == 999_999_999
  {
    ExtremesAre(s, 0);
    ExtremesAre(s, INITIAL_MIN);
    assert s[0] in s && s[0] >= 0;
    if i :| 0 <= i < |s| && s[i] <= INITIAL_MIN {
      assert s[i] in s;
    }
  }

  /** The positions of the samples from lo on and below hi. */
  ghost function Between(s: seq<int>, lo: int, hi: int): set<int> {
    set k | 0 <= k < |s| && lo <= s[k] < hi
  }

  lemma BetweenCounts(s: seq<int>, lo: int, hi: int)
    requires lo <= hi
    ensures |Between(s, lo, hi)| == CountBelow(s, hi) - CountBelow(s, lo)
  {
    var below, all := set k | 0 <= k < |s| && s[k] < lo, set k | 0 <= k < |s| && s[k] < hi;
    CountBelowIs(s, lo);
    CountBelowIs(s, hi);
    assert all == below + Between(s, lo, hi);
  }

  /** What the variables say: bucket i counts the samples from i widths on and below i + 1 widths, and the
      overflow count those from the end of the last bucket on. */
  lemma CountsAre(counts: seq<int>, t: Totals, s: seq<int>, width: nat, i: nat)
    requires Summarizes(counts, t, s, width) && i < |counts|
    ensures counts[i] == |Between(s, i * width, (i + 1) * width)|
    ensures t.overflows == |set k | 0 <= k < |s| && s[k] >= |counts| * width|
    ensures t.numSamples == |s| && t.sampleSum == Sum(s)
  {
    Scales(i, i + 1, width);
    BetweenCounts(s, i * width, (i + 1) * width);
    CountFromIs(s, |counts| * width);
  }

  /** The order of arrival leaves no trace: equal multisets of samples give equal histograms. */
  lemma OrderForgotten(counts: seq<int>, t: Totals, s: seq<int>, counts': seq<int>, t': Totals, s': seq<int>, width: nat)
    requires |counts| == |counts'| && multiset(s) == multiset(s')
    requires Summarizes(counts, t, s, width) && Summarizes(counts', t', s', width)
    ensures counts == counts' && t == t'
  {
    forall b
      ensures CountBelow(s, b) == CountBelow(s', b)
    {
      CountAndSumPermute(s, s', b);
    }
    CountAndSumPermute(s, s', 0);
    assert forall x :: x in s <==> x in multiset(s);
    assert forall x :: x in s' <==> x in multiset(s');
    ExtremesAre(s, 0);
    ExtremesAre(s', 0);
    ExtremesAre(s, INITIAL_MIN);
    ExtremesAre(s', INITIAL_MIN);
    assert counts == counts';
  }

  /** README's 500000 messages and 99.999%: the figure is lost from five overflows on (its prose says
      "over five"). */
  lemma FiveOverflowsLoseIt(counts: seq<int>, t: Totals, s: seq<int>, width: nat, r: int)
    requires width > 0 && Summarizes(counts, t, s, width) && |s| == 500_000
    requires IsPercentile(s, |counts|, width, Needed(|s|, 99_999, 1_000), r)
    ensures r == -1 <==> t.overflows >= 5
  {
    PercentileMeaning(counts, t, s, width, Needed(|s|, 99_999, 1_000), r);
  }
}
