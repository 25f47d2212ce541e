/** The integer standard deviation of lbmpong's calc_stddev. */
module Deviation {
  import opened Machine
  import opened Sequences

  function Square(x: int): (r: int)
    ensures r >= 0
  {
    x * x
  }

  /** What the loop leaves in the array: each sample replaced by its squared distance from the mean. */
  function SquaredDeviations(s: seq<int>, mean: int): (t: seq<int>)
    ensures |t| == |s| && forall i :: 0 <= i < |s| ==> t[i] == Square(s[i] - mean)
  {
    seq(|s|, i requires 0 <= i < |s| => Square(s[i] - mean))
  }

  function Squares(s: seq<int>): seq<int> {
    SquaredDeviations(s, 0)
  }

  lemma DeviationsSplit(s: seq<int>, mean: int)
    requires s != []
    ensures SquaredDeviations(s, mean)[..|s| - 1] == SquaredDeviations(s[..|s| - 1], mean)
  {
  }

  /** Sum of (x - m)^2, multiplied out. */
  lemma {:induction false} DeviationsExpand(s: seq<int>, m: int)
    ensures Sum(SquaredDeviations(s, m)) == Sum(Squares(s)) - 2 * m * Sum(s) + |s| * Square(m)
  {
    if s == [] {
    } else {
      var rest, x := s[..|s| - 1], s[|s| - 1];
      DeviationsExpand(rest, m);
      DeviationsSplit(s, m);
      DeviationsSplit(s, 0);
      ExpandStep(Sum(Squares(rest)), Sum(rest), |rest|, m, x);
    }
  }

  lemma ExpandStep(q: int, t: int, k: int, m: int, x: int)
    ensures q - 2 * m * t + k * (m * m) + (x - m) * (x - m) == (q + x * x) - 2 * m * (t + x) + (k + 1) * (m * m)
  {
  }

  /** n times the sum d of squared deviations, less what it is about the exact mean, from n samples with
      sum t and sum of squares q. */
  function Excess(n: int, q: int, t: int, d: int): int {
    n * d - (n * q - Square(t))
  }

  function ExcessAbout(s: seq<int>, m: int): int {
    Excess(|s|, Sum(Squares(s)), Sum(s), Sum(SquaredDeviations(s, m)))
  }

  /** How far n times the assumed mean misses the sum. */
  function Residue(t: int, n: int, m: int): int {
    t - n * m
  }

  /** For any assumed mean m, with S the sum of (x - m)^2 and q and t the sums of x^2 and x:
      n * S - (n * q - t^2) is the square of t - n * m. */
  lemma MeanError(s: seq<int>, m: int)
    ensures ExcessAbout(s, m) == Square(Residue(Sum(s), |s|, m))
    ensures ExcessAbout(s, m) == |s| * Sum(SquaredDeviations(s, m)) - (|s| * Sum(Squares(s)) - Sum(s) * Sum(s))
    ensures Residue(Sum(s), |s|, m) == Sum(s) - |s| * m
  {
    DeviationsExpand(s, m);
    CompleteSquare(|s|, Sum(Squares(s)), Sum(s), m, Sum(SquaredDeviations(s, m)));
  }

  lemma CompleteSquare(n: int, q: int, t: int, m: int, d: int)
    requires d == q - 2 * m * t + n * Square(m)
    ensures Excess(n, q, t, d) == Square(Residue(t, n, m))
  {
    assert n * d == n * (q - 2 * m * t + n * (m * m));
  }

  /** The truncated mean costs at most (n - 1)^2, spread over n. */
  lemma TruncatedMeanError(s: seq<int>)
    requires s != []
    ensures 0 <= ExcessAbout(s, TruncDiv(Sum(s), |s|)) <= Square(|s| - 1)
  {
    MeanError(s, TruncDiv(Sum(s), |s|));
    RemainderSquared(Sum(s), |s|);
  }

  lemma RemainderSquared(t: int, n: int)
    requires n > 0
    ensures Square(Residue(t, n, TruncDiv(t, n))) <= Square(n - 1)
  {
    Remainder(t, n);
    SquareMonotone(Residue(t, n, TruncDiv(t, n)), n - 1);
  }

  lemma Remainder(t: int, n: int)
    requires n > 0
    ensures -n < Residue(t, n, TruncDiv(t, n)) < n
  {
    if t >= 0 {
      assert t == n * (t / n) + t % n;
    } else {
      assert -t == n * (-t / n) + -t % n;
      assert n * -(-t / n) == -(n * (-t / n));
    }
  }

  lemma SquareMonotone(x: int, y: int)
    requires -y <= x <= y
    ensures Square(x) <= Square(y)
  {
    assert (y - x) * (y + x) >= 0;
    assert (y - x) * (y + x) == y * y - x * x;
  }

  lemma {:induction false} SumOfSquaresPermute(s: seq<int>, t: seq<int>)
    requires multiset(s) == multiset(t)
    ensures Sum(Squares(s)) == Sum(Squares(t))
    decreases |s|
  {
    assert |s| == |multiset(s)| == |multiset(t)| == |t|;
    if s == [] {
    } else {
      var k := MatchLast(s, t);
      var rest := t[..k] + t[k + 1..];
      SumOfSquaresPermute(s[..|s| - 1], rest);
      DeviationsSplit(s, 0);
      RemoveAt(Squares(t), k, 0);
      assert Squares(rest) == Squares(t)[..k] + Squares(t)[k + 1..];
    }
  }

  /** Sorting the samples first, as the caller does, leaves the sum of squared deviations alone. */
  lemma DeviationsPermute(s: seq<int>, t: seq<int>, mean: int)
    requires multiset(s) == multiset(t)
    ensures Sum(SquaredDeviations(s, mean)) == Sum(SquaredDeviations(t, mean))
  {
    CountAndSumPermute(s, t, 0);
    SumOfSquaresPermute(s, t);
    DeviationsExpand(s, mean);
    DeviationsExpand(t, mean);
  }

  /** The integer part of a square root. */
  function FloorSqrt(q: nat): (r: nat)
    ensures r * r <= q < (r + 1) * (r + 1)
  {
    if q == 0 then 0
    else
      var r := FloorSqrt(q - 1);
      if (r + 1) * (r + 1) == q then r + 1 else r
  }

  lemma {:induction false} SumOfSquaresNonNegative(s: seq<int>, mean: int)
    ensures Sum(SquaredDeviations(s, mean)) >= 0
  {
    if s == [] {
    } else {
      SumOfSquaresNonNegative(s[..|s| - 1], mean);
      DeviationsSplit(s, mean);
    }
  }

  lemma PrefixSum(s: seq<int>, r: nat, mean: int)
    requires r < |s|
    ensures Sum(SquaredDeviations(s[..r + 1], mean)) == Sum(SquaredDeviations(s[..r], mean)) + Square(s[r] - mean)
  {
    assert s[..r + 1][..r] == s[..r];
    DeviationsSplit(s[..r + 1], mean);
  }

  /** The loop: squares the deviations in place and adds them up. */
  method SquareInPlace(a: array<int>, n: nat, mean: int) returns (sum: int)
    requires n <= a.Length
    modifies a
    ensures a[..n] == SquaredDeviations(old(a[..n]), mean) && a[n..] == old(a[n..])
    ensures sum == Sum(SquaredDeviations(old(a[..n]), mean))
  {
    ghost var s := a[..n];
    sum := 0;
    var r := 0;
    while r < n
      invariant r <= n
      invariant a[..r] == SquaredDeviations(s[..r], mean)
      invariant a[r..n] == s[r..] && a[n..] == old(a[n..])
      invariant sum == Sum(SquaredDeviations(s[..r], mean))
    {
      assert a[r] == a[r..n][0] == s[r];
      a[r] := a[r] - mean;
      a[r] := Square(a[r]);
      sum := sum + a[r];
      assert a[r + 1..n] == s[r + 1..];
      PrefixSum(s, r, mean);
      r := r + 1;
    }
    assert s[..n] == s;
  }

  ghost predicate IsFloorSqrt(r: int, q: nat) {
    r >= 0 && r * r <= q < (r + 1) * (r + 1)
  }

  /** The truncated sample variance about `mean`. */
  function Variance(s: seq<int>, mean: int): nat
    requires |s| >= 2
  {
    SumOfSquaresNonNegative(s, mean);
    Quotient(Sum(SquaredDeviations(s, mean)), |s| - 1);
    Sum(SquaredDeviations(s, mean)) / (|s| - 1)
  }

  /** stddev is the largest integer whose square, n - 1 times over, does not exceed the sum of squares. */
  ghost predicate IsDeviation(stddev: int, sum: int, n: int) {
    stddev >= 0 && stddev * stddev * (n - 1) <= sum < (stddev + 1) * (stddev + 1) * (n - 1)
  }

  lemma DeviationIs(sum: nat, n: int, stddev: int)
    requires n >= 2 && sum / (n - 1) >= 0 && IsFloorSqrt(stddev, sum / (n - 1))
    ensures IsDeviation(stddev, sum, n)
  {
    var q := sum / (n - 1);
    Quotient(sum, n - 1);
    Scales(stddev * stddev, q, n - 1);
    Scales(q + 1, (stddev + 1) * (stddev + 1), n - 1);
  }

  /** calc_stddev over the first n cells; a single sample divides by zero. */
  method CalcStddev(a: array<int>, n: nat, mean: int) returns (threw: bool, stddev: int)
    requires n <= a.Length
    modifies a
    ensures a[..n] == SquaredDeviations(old(a[..n]), mean) && a[n..] == old(a[n..])
    ensures threw <==> n == 1
    ensures n >= 2 ==> IsFloorSqrt(stddev, Variance(old(a[..n]), mean))
    ensures n >= 2 ==> IsDeviation(stddev, Sum(SquaredDeviations(old(a[..n]), mean)), n)
  {
    SumOfSquaresNonNegative(a[..n], mean);
    var sum := SquareInPlace(a, n, mean);
    threw, stddev := n == 1, 0;
    if n >= 2 {
      Quotient(sum, n - 1);
      stddev := FloorSqrt(sum / (n - 1));
      DeviationIs(sum, n, stddev);
    }
  }
}
