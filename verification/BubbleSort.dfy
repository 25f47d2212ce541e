/** The in-place bubble sort of lbmpong's calc_med (lbmpong.java). */
module BubbleSort {
  import opened Sequences

  /** Pairs out of order. */
  function Inversions(s: seq<int>): nat {
    if s == [] then 0
    else Inversions(s[..|s| - 1]) + CountAbove(s[..|s| - 1], s[|s| - 1])
  }

  function CountAbove(s: seq<int>, x: int): nat {
    |s| - CountBelow(s, x + 1)
  }

  function Swapped(s: seq<int>, r: nat): (t: seq<int>)
    requires r + 1 < |s|
    ensures |t| == |s|
  {
    seq(|s|, i requires 0 <= i < |s| => if i == r then s[r + 1] else if i == r + 1 then s[r] else s[i])
  }

  /** One comparison of neighbours. */
  function Step(s: seq<int>, r: nat): (t: seq<int>)
    requires r + 1 < |s|
    ensures |t| == |s|
  {
    if s[r] > s[r + 1] then Swapped(s, r) else s
  }

  /** The array after comparing positions 0 .. r-1 with their right neighbours. */
  function Pass(s: seq<int>, r: nat): (t: seq<int>)
    requires r == 0 || r < |s|
    ensures |t| == |s|
  {
    if r == 0 then s else Step(Pass(s, r - 1), r - 1)
  }

  /** Swaps made on the way. */
  function Swaps(s: seq<int>, r: nat): nat
    requires r == 0 || r < |s|
  {
    if r == 0 then 0
    else Swaps(s, r - 1) + if Pass(s, r - 1)[r - 1] > Pass(s, r - 1)[r] then 1 else 0
  }

  lemma InversionsAppend(s: seq<int>, x: int)
    ensures Inversions(s + [x]) == Inversions(s) + CountAbove(s, x)
  {
  }

  lemma Concatenated(a: seq<int>, x: int, y: int, b: seq<int>)
    ensures multiset(a + [x, y] + b) == multiset(a) + multiset{x, y} + multiset(b)
  {
  }

  lemma SwappedPermutes(s: seq<int>, r: nat)
    requires r + 1 < |s|
    ensures multiset(Swapped(s, r)) == multiset(s)
  {
    var a, b := s[..r], s[r + 2..];
    Concatenated(a, s[r], s[r + 1], b);
    Concatenated(a, s[r + 1], s[r], b);
    assert s == a + [s[r], s[r + 1]] + b;
    assert Swapped(s, r) == a + [s[r + 1], s[r]] + b;
  }

  lemma StepPermutes(s: seq<int>, r: nat)
    requires r + 1 < |s|
    ensures multiset(Step(s, r)) == multiset(s)
  {
    SwappedPermutes(s, r);
  }

  lemma StepInversions(s: seq<int>, r: nat)
    requires r + 1 < |s|
    ensures Inversions(Step(s, r)) == Inversions(s) - if s[r] > s[r + 1] then 1 else 0
  {
    if s[r] > s[r + 1] {
      SwapRemovesOne(s, r);
    }
  }

  lemma SwapLast(a: seq<int>, x: int, y: int)
    requires x > y
    ensures Inversions(a + [y] + [x]) == Inversions(a + [x] + [y]) - 1
  {
    InversionsAppend(a + [x], y);
    InversionsAppend(a, x);
    InversionsAppend(a + [y], x);
    InversionsAppend(a, y);
    CountBelowAppend(a, x, y + 1);
    CountBelowAppend(a, y, x + 1);
  }

  lemma AppendAgrees(s: seq<int>, t: seq<int>, x: int)
    requires multiset(s) == multiset(t)
    ensures Inversions(s + [x]) - Inversions(s) == Inversions(t + [x]) - Inversions(t)
  {
    InversionsAppend(s, x);
    InversionsAppend(t, x);
    CountAndSumPermute(s, t, x + 1);
  }

  /** Swapping one inverted pair of neighbours removes exactly one inversion. */
  lemma {:induction false} SwapRemovesOne(s: seq<int>, r: nat)
    requires r + 1 < |s| && s[r] > s[r + 1]
    ensures Inversions(Swapped(s, r)) == Inversions(s) - 1
  {
    var last := |s| - 1;
    var t := Swapped(s, r);
    if r + 1 == last {
      assert s == s[..r] + [s[r]] + [s[r + 1]] && t == s[..r] + [s[r + 1]] + [s[r]];
      SwapLast(s[..r], s[r], s[r + 1]);
    } else {
      SwapRemovesOne(s[..last], r);
      SwappedPermutes(s[..last], r);
      AppendAgrees(Swapped(s[..last], r), s[..last], s[last]);
      assert s == s[..last] + [s[last]];
      assert t == Swapped(s[..last], r) + [s[last]];
    }
  }

  lemma ComparisonPermutes(s: seq<int>, r: nat)
    requires 0 < r < |s|
    ensures multiset(Pass(s, r)) == multiset(Pass(s, r - 1))
  {
    StepPermutes(Pass(s, r - 1), r - 1);
  }

  lemma {:induction false} PassPermutes(s: seq<int>, r: nat)
    requires r == 0 || r < |s|
    ensures multiset(Pass(s, r)) == multiset(s)
  {
    if r == 0 {
    } else {
      PassPermutes(s, r - 1);
      ComparisonPermutes(s, r);
    }
  }

  lemma ComparisonInversions(s: seq<int>, r: nat)
    requires 0 < r < |s|
    ensures Inversions(Pass(s, r)) + Swaps(s, r) == Inversions(Pass(s, r - 1)) + Swaps(s, r - 1)
  {
    StepInversions(Pass(s, r - 1), r - 1);
  }

  /** Swaps are paid for in inversions, one each. */
  lemma {:induction false} PassInversions(s: seq<int>, r: nat)
    requires r == 0 || r < |s|
    ensures Inversions(Pass(s, r)) + Swaps(s, r) == Inversions(s)
  {
    if r == 0 {
      assert Pass(s, 0) == s && Swaps(s, 0) == 0;
    } else {
      PassInversions(s, r - 1);
      ComparisonInversions(s, r);
    }
  }

  /** A pass that swaps nothing found the list sorted and left it alone. */
  lemma {:induction false} NoSwapsMeansSorted(s: seq<int>, r: nat)
    requires r < |s| && Swaps(s, r) == 0
    ensures Pass(s, r) == s && Sorted(s[..r + 1])
  {
    if r == 0 {
    } else {
      NoSwapsMeansSorted(s, r - 1);
      SortedExtends(s[..r], s[r]);
      assert s[..r + 1] == s[..r] + [s[r]];
    }
  }

  lemma SortedExtends(s: seq<int>, x: int)
    requires Sorted(s) && (s != [] ==> s[|s| - 1] <= x)
    ensures Sorted(s + [x])
  {
  }

  lemma {:induction false} SortedMeansNoSwaps(s: seq<int>, r: nat)
    requires (r == 0 || r < |s|) && Sorted(s)
    ensures Swaps(s, r) == 0 && Pass(s, r) == s
  {
    if r == 0 {
    } else {
      SortedMeansNoSwaps(s, r - 1);
    }
  }

  /** After r comparisons the largest of the first r+1 elements stands at r; what follows is untouched. */
  lemma {:induction false} PassCarriesMaximum(s: seq<int>, r: nat)
    requires r < |s|
    ensures forall j :: r < j < |s| ==> Pass(s, r)[j] == s[j]
    ensures forall i :: 0 <= i <= r ==> Pass(s, r)[i] <= Pass(s, r)[r]
  {
    if r == 0 {
    } else {
      PassCarriesMaximum(s, r - 1);
    }
  }

  /** Bounds on a prefix survive a pass over it. */
  lemma {:induction false} PassKeepsBound(s: seq<int>, r: nat, bound: int)
    requires r < |s| && forall i :: 0 <= i <= r ==> s[i] <= bound
    ensures forall i :: 0 <= i <= r ==> Pass(s, r)[i] <= bound
  {
    if r == 0 {
    } else {
      PassKeepsBound(s, r - 1, bound);
      PassCarriesMaximum(s, r - 1);
    }
  }

  /** The last k elements are the k largest, in their final places. */
  ghost predicate Final(s: seq<int>, k: nat) {
    forall i: nat, j: nat :: i < j < |s| && j >= |s| - k ==> Ordered(s, i, j)
  }

  predicate Ordered(s: seq<int>, i: nat, j: nat) {
    i < |s| && j < |s| && s[i] <= s[j]
  }

  /** Comparisons inside the finished tail change nothing. */
  lemma {:induction false} PassStopsAtTail(s: seq<int>, k: nat, r: nat)
    requires 0 < k < |s| && Final(s, k) && |s| - k - 1 <= r < |s|
    ensures Pass(s, r) == Pass(s, |s| - k - 1)
  {
    var m := |s| - k - 1;
    if r == m {
    } else {
      PassStopsAtTail(s, k, r - 1);
      PassCarriesMaximum(s, m);
      if r - 1 == m {
        forall i: nat | i <= m
          ensures s[i] <= s[m + 1]
        {
          assert Ordered(s, i, m + 1);
        }
        PassKeepsBound(s, m, s[m + 1]);
      } else {
        assert Ordered(s, r - 1, r);
      }
    }
  }

  lemma PassFinishesPair(s: seq<int>, k: nat, i: nat, j: nat)
    requires k < |s| && Final(s, k) && i < j < |s| && |s| - k - 1 <= j
    ensures Ordered(Pass(s, |s| - k - 1), i, j)
  {
    var m := |s| - k - 1;
    PassCarriesMaximum(s, m);
    if i <= m < j {
      forall h: nat | h <= m
        ensures s[h] <= s[j]
      {
        assert Ordered(s, h, j);
      }
      PassKeepsBound(s, m, s[j]);
    } else if m < i {
      assert Ordered(s, i, j);
    }
  }

  /** A pass that stops where the finished tail begins. */
  function ShortPass(s: seq<int>, k: nat): (t: seq<int>)
    requires k < |s|
    ensures |t| == |s|
  {
    Pass(s, |s| - k - 1)
  }

  lemma ShortPassFinishesOne(s: seq<int>, k: nat)
    requires k < |s| && Final(s, k)
    ensures Final(ShortPass(s, k), k + 1)
  {
    forall i: nat, j: nat | i < j < |s| && |s| - k - 1 <= j
      ensures Ordered(ShortPass(s, k), i, j)
    {
      PassFinishesPair(s, k, i, j);
    }
  }

  /** Each full pass puts one more element in its final place. */
  lemma PassFinishesOne(s: seq<int>, k: nat)
    requires k < |s| && Final(s, k)
    ensures Final(FullPass(s), k + 1)
  {
    ShortPassFinishesOne(s, k);
    if k > 0 {
      PassStopsAtTail(s, k, |s| - 1);
    }
  }

  function FullPass(s: seq<int>): (t: seq<int>)
    ensures |t| == |s|
  {
    if |s| == 0 then s else Pass(s, |s| - 1)
  }

  function FullSwaps(s: seq<int>): nat {
    if |s| == 0 then 0 else Swaps(s, |s| - 1)
  }

  /** The list after k full passes. */
  function AfterPasses(s: seq<int>, k: nat): (t: seq<int>)
    ensures |t| == |s|
  {
    if k == 0 then s else FullPass(AfterPasses(s, k - 1))
  }

  /** One comparison in place. */
  method CompareAndSwap(a: array<int>, n: nat, r: nat) returns (swapped: bool)
    requires r + 1 < n <= a.Length
    modifies a
    ensures a[..n] == Step(old(a[..n]), r) && a[n..] == old(a[n..])
    ensures swapped <==> old(a[..n])[r] > old(a[..n])[r + 1]
  {
    swapped := false;
    if a[r] > a[r + 1] {
      var tmp := a[r];
      a[r] := a[r + 1];
      a[r + 1] := tmp;
      swapped := true;
    }
  }

  /** The inner for loop over the first n cells. */
  method BubblePass(a: array<int>, n: nat) returns (changed: bool, swaps: nat)
    requires n <= a.Length
    modifies a
    ensures a[..n] == FullPass(old(a[..n])) && a[n..] == old(a[n..])
    ensures swaps == FullSwaps(old(a[..n]))
    ensures changed <==> swaps > 0
  {
    ghost var s := a[..n];
    changed, swaps := false, 0;
    var r := 0;
    while r < n - 1
      invariant 0 <= r && (n == 0 ==> r == 0) && (n > 0 ==> r < n)
      invariant a[..n] == Pass(s, r) && a[n..] == old(a[n..])
      invariant swaps == Swaps(s, r)
      invariant changed <==> swaps > 0
    {
      var swapped := CompareAndSwap(a, n, r);
      if swapped {
        changed := true;
        swaps := swaps + 1;
      }
      r := r + 1;
    }
  }

  lemma FinalMeansSorted(s: seq<int>, k: nat)
    requires Final(s, k) && k + 1 >= |s|
    ensures Sorted(s)
  {
    forall i, j | 0 <= i < j < |s|
      ensures s[i] <= s[j]
    {
      assert Ordered(s, i, j);
    }
  }

  /** A pass that swaps was not the last possible one, and finishes one more element. */
  lemma BusyPass(s: seq<int>, k: nat)
    requires k <= |s| && Final(s, k) && FullSwaps(s) > 0
    ensures k + 1 < |s| && Final(FullPass(s), k + 1)
  {
    if k + 1 >= |s| {
      FinalMeansSorted(s, k);
      SortedMeansNoSwaps(s, |s| - 1);
    } else {
      PassFinishesOne(s, k);
    }
  }

  /** One that does not swap found everything in order. */
  lemma IdlePass(s: seq<int>)
    requires FullSwaps(s) == 0
    ensures FullPass(s) == s && Sorted(s) && Inversions(s) == 0
  {
    if 0 < |s| {
      NoSwapsMeansSorted(s, |s| - 1);
      assert s[..|s|] == s;
    }
    SortedHasNoInversions(s);
  }

  lemma PassAccounts(s: seq<int>)
    ensures multiset(FullPass(s)) == multiset(s)
    ensures Inversions(FullPass(s)) + FullSwaps(s) == Inversions(s)
  {
    if 0 < |s| {
      PassPermutes(s, |s| - 1);
      PassInversions(s, |s| - 1);
      assert FullPass(s) == Pass(s, |s| - 1) && FullSwaps(s) == Swaps(s, |s| - 1);
    }
  }

  /** What one pass achieves, k elements being in place before it. */
  lemma PassOutcome(s: seq<int>, k: nat)
    requires k <= |s| && Final(s, k)
    ensures multiset(FullPass(s)) == multiset(s)
    ensures Inversions(FullPass(s)) + FullSwaps(s) == Inversions(s)
    ensures FullSwaps(s) == 0 ==> Sorted(FullPass(s)) && Inversions(FullPass(s)) == 0
    ensures FullSwaps(s) > 0 ==> k + 1 < |s| && Final(FullPass(s), k + 1)
  {
    PassAccounts(s);
    if FullSwaps(s) > 0 {
      BusyPass(s, k);
    } else {
      IdlePass(s);
    }
  }

  lemma {:induction false} SortedHasNoInversions(s: seq<int>)
    requires Sorted(s)
    ensures Inversions(s) == 0
  {
    if s == [] {
    } else {
      var last := |s| - 1;
      SortedHasNoInversions(s[..last]);
      CountBelowExtremes(s[..last], s[last] + 1);
    }
  }

  /** Each of the first k passes swaps something. */
  ghost predicate Busy(s: seq<int>, k: nat) {
    forall j: nat :: j < k ==> FullSwaps(AfterPasses(s, j)) > 0
  }

  lemma BusyExtends(s: seq<int>, k: nat)
    requires Busy(s, k) && FullSwaps(AfterPasses(s, k)) > 0
    ensures Busy(s, k + 1) && AfterPasses(s, k + 1) == FullPass(AfterPasses(s, k))
  {
  }

  /** Where the loop stands: t is what k passes made of s, each of them having swapped something. */
  ghost predicate Progress(s: seq<int>, t: seq<int>, k: nat, swaps: nat) {
    && t == AfterPasses(s, k) && Busy(s, k) && multiset(t) == multiset(s)
    && swaps + Inversions(t) == Inversions(s)
    && k <= |t| && Final(t, k) && (k > 0 ==> k < |t|)
  }

  lemma OneMorePass(s: seq<int>, t: seq<int>, k: nat, swaps: nat)
    requires Progress(s, t, k, swaps) && FullSwaps(t) > 0
    ensures Progress(s, FullPass(t), k + 1, swaps + FullSwaps(t))
    ensures Inversions(FullPass(t)) < Inversions(t)
  {
    BusyExtends(s, k);
    PassOutcome(t, k);
  }

  lemma LastPass(s: seq<int>, t: seq<int>, k: nat, swaps: nat)
    requires Progress(s, t, k, swaps) && FullSwaps(t) == 0
    ensures IsSortingOf(FullPass(t), s) && swaps == Inversions(s)
  {
    IdlePass(t);
  }

  /** The do/while loop: sorts the first n cells, stopping after the first pass that swaps nothing.  Every swap
      of every pass together number exactly the inversions of the input, and n passes suffice (one pass when
      there is nothing to sort). */
  method SortPrefix(a: array<int>, n: nat) returns (passes: nat, swaps: nat)
    requires n <= a.Length
    modifies a
    ensures IsSortingOf(a[..n], old(a[..n])) && a[n..] == old(a[n..])
    ensures swaps == Inversions(old(a[..n]))
    ensures 1 <= passes <= if n == 0 then 1 else n
    ensures FullSwaps(AfterPasses(old(a[..n]), passes - 1)) == 0
    ensures forall k: nat :: k < passes - 1 ==> FullSwaps(AfterPasses(old(a[..n]), k)) > 0
  {
    ghost var s := a[..n];
    passes, swaps := 0, 0;
    while true
      invariant Progress(s, a[..n], passes, swaps) && a[n..] == old(a[n..])
      decreases Inversions(a[..n])
    {
      ghost var t := a[..n];
      if FullSwaps(t) > 0 {
        OneMorePass(s, t, passes, swaps);
      } else {
        LastPass(s, t, passes, swaps);
      }
      var changed, more := BubblePass(a, n);
      passes, swaps := passes + 1, swaps + more;
      if !changed {
        break;
      }
    }
  }
}
