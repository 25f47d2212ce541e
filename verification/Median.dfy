/** The median of lbmpong's calc_med, whose indices run one past the middle (lbmpong.java). */
module Median {
  import opened Machine
  import opened Sequences

  datatype MedianResult = Ok(value: int) | IndexOutOfBounds

  /** What calc_med returns from its sorted list t of n values. */
  function Reported(t: seq<int>): MedianResult {
    var h := |t| / 2;
    if h + 1 >= |t| then IndexOutOfBounds
    else if |t| % 2 == 1 then Ok(t[h + 1])
    else Ok(TruncDiv(t[h] + t[h + 1], 2))
  }

  /** The middle element, or the average of the two middle ones, as its comments intend. */
  function Middle(t: seq<int>): int
    requires t != []
  {
    var h := |t| / 2;
    if |t| % 2 == 1 then t[h] else TruncDiv(t[h - 1] + t[h], 2)
  }

  /** v is the value of 0-based rank k: at most k values lie below it and more than k do not exceed it. */
  ghost predicate HasRank(s: seq<int>, v: int, k: nat) {
    CountBelow(s, v) <= k < CountBelow(s, v + 1)
  }

  lemma SortedRank(s: seq<int>, t: seq<int>, k: nat)
    requires IsSortingOf(t, s) && k < |t|
    ensures HasRank(s, t[k], k)
  {
    CountAndSumPermute(s, t, t[k]);
    CountAndSumPermute(s, t, t[k] + 1);
    RankInSorted(t, k, t[k]);
    RankInSorted(t, k, t[k] + 1);
  }

  lemma RankUnique(s: seq<int>, v: int, v': int, k: nat)
    requires HasRank(s, v, k) && HasRank(s, v', k)
    ensures v == v'
  {
    if v < v' {
      CountBelowMonotone(s, v + 1, v');
    } else if v' < v {
      CountBelowMonotone(s, v' + 1, v);
    }
  }

  /** The call fails exactly for fewer than three values; for an odd count it returns the value of rank
      n/2 + 1, for an even one the truncated average of the values of rank n/2 and n/2 + 1. */
  lemma ReportedRank(s: seq<int>, t: seq<int>)
    requires IsSortingOf(t, s)
    ensures |t| == |s|
    ensures Reported(t).IndexOutOfBounds? <==> |s| < 3
    ensures |s| >= 3 && |s| % 2 == 1 ==> HasRank(s, Reported(t).value, |s| / 2 + 1)
    ensures |s| >= 3 && |s| % 2 == 0 ==>
      var a, b := t[|s| / 2], t[|s| / 2 + 1];
      HasRank(s, a, |s| / 2) && HasRank(s, b, |s| / 2 + 1) && Reported(t).value == TruncDiv(a + b, 2)
  {
    CountAndSumPermute(s, t, 0);
    var h := |s| / 2;
    if |s| >= 3 {
      SortedRank(s, t, h);
      SortedRank(s, t, h + 1);
    }
  }

  /** One index back, the odd case is the true middle: no more than half below it, no more than half above. */
  lemma MiddleOfOdd(s: seq<int>, t: seq<int>)
    requires IsSortingOf(t, s) && |s| % 2 == 1
    ensures |t| == |s|
    ensures CountBelow(s, Middle(t)) <= |s| / 2
    ensures |s| - CountBelow(s, Middle(t) + 1) <= |s| / 2
  {
    CountAndSumPermute(s, t, 0);
    SortedRank(s, t, |s| / 2);
  }

  /** And for an even count the true median averages the values of rank n/2 - 1 and n/2. */
  lemma MiddleOfEven(s: seq<int>, t: seq<int>)
    requires IsSortingOf(t, s) && s != [] && |s| % 2 == 0
    ensures |t| == |s|
    ensures var a, b := t[|s| / 2 - 1], t[|s| / 2];
      HasRank(s, a, |s| / 2 - 1) && HasRank(s, b, |s| / 2) && Middle(t) == TruncDiv(a + b, 2)
  {
    CountAndSumPermute(s, t, 0);
    SortedRank(s, t, |s| / 2 - 1);
    SortedRank(s, t, |s| / 2);
  }

  /** The report is never below the true median. */
  lemma ReportedAtLeastMiddle(t: seq<int>)
    requires Sorted(t) && |t| >= 3
    ensures Reported(t).value >= Middle(t)
  {
  }

  /** Whether enough of the n recorded values lie about m for a median of m to survive the shift by one.  For
      odd n, fewer than half of them may lie above it.  For even n, m must have rank n/2, and its neighbours
      in rank may differ from it only by what truncation toward zero hides. */
  predicate ShiftProof(s: seq<int>, m: int) {
    var h := |s| / 2;
    var lo, hi := if m <= 0 then m - 1 else m, if m >= 0 then m + 1 else m;
    if |s| % 2 == 1 then |s| - CountBelow(s, m + 1) < h
    else CountBelow(s, lo) < h && CountBelow(s, m) <= h < CountBelow(s, m + 1) && h + 1 < CountBelow(s, hi + 1)
  }

  /** Two truncated averages of neighbours in order agree exactly then. */
  lemma AveragesAgreeIff(a: int, b: int, c: int)
    requires a <= b <= c
    ensures var m := TruncDiv(a + b, 2);
      TruncDiv(b + c, 2) == m <==>
        (if m <= 0 then m - 1 else m) <= a && b == m && c <= (if m >= 0 then m + 1 else m)
  {
  }

  lemma SortedBelowIff(s: seq<int>, t: seq<int>, k: nat, bound: int)
    requires IsSortingOf(t, s) && k < |s|
    ensures |t| == |s| && (t[k] < bound <==> CountBelow(s, bound) > k)
  {
    CountAndSumPermute(s, t, bound);
    RankInSorted(t, k, bound);
  }

  lemma EvenIsMiddleIff(s: seq<int>, t: seq<int>, h: nat, m: int)
    requires IsSortingOf(t, s) && |t| == |s| == 2 * h >= 3 && m == TruncDiv(t[h - 1] + t[h], 2)
    ensures TruncDiv(t[h] + t[h + 1], 2) == m <==> ShiftProof(s, m)
  {
    var lo, hi := if m <= 0 then m - 1 else m, if m >= 0 then m + 1 else m;
    AveragesAgreeIff(t[h - 1], t[h], t[h + 1]);
    SortedBelowIff(s, t, h - 1, lo);
    SortedBelowIff(s, t, h, m);
    SortedBelowIff(s, t, h, m + 1);
    SortedBelowIff(s, t, h + 1, hi + 1);
  }

  /** The report is the true median exactly then. */
  lemma ReportedIsMiddleIff(s: seq<int>, t: seq<int>)
    requires IsSortingOf(t, s) && |s| >= 3
    ensures |t| == |s|
    ensures Reported(t).value == Middle(t) <==> ShiftProof(s, Middle(t))
  {
    var h := |s| / 2;
    SortedBelowIff(s, t, h + 1, Middle(t) + 1);
    if |s| % 2 == 0 {
      EvenIsMiddleIff(s, t, h, Middle(t));
    }
  }

  /** Of 1, 2, 3 the median reported is 3. */
  lemma ReportedIsNotMiddle()
    ensures Reported([1, 2, 3]) == Ok(3) && Middle([1, 2, 3]) == 2
  {
  }
}
