/** Sums, counts and ranks over finite sequences of samples. */
module Sequences {

  function Sum(s: seq<int>): int {
    if s == [] then 0 else Sum(s[..|s| - 1]) + s[|s| - 1]
  }

  /** Number of elements below a bound. */
  function CountBelow(s: seq<int>, bound: int): (n: nat)
    ensures n <= |s|
  {
    if s == [] then 0
    else CountBelow(s[..|s| - 1], bound) + if s[|s| - 1] < bound then 1 else 0
  }

  ghost predicate Sorted(s: seq<int>) {
    forall i, j :: 0 <= i < j < |s| ==> s[i] <= s[j]
  }

  ghost predicate IsSortingOf(t: seq<int>, s: seq<int>) {
    Sorted(t) && multiset(t) == multiset(s)
  }

  lemma SumAppend(s: seq<int>, x: int)
    ensures Sum(s + [x]) == Sum(s) + x
  {
  }

  lemma CountBelowAppend(s: seq<int>, x: int, bound: int)
    ensures CountBelow(s + [x], bound) == CountBelow(s, bound) + if x < bound then 1 else 0
  {
  }

  /** The count, position by position. */
  lemma {:induction false} CountBelowIs(s: seq<int>, bound: int)
    ensures CountBelow(s, bound) == |set k | 0 <= k < |s| && s[k] < bound|
  {
    var here := set k | 0 <= k < |s| && s[k] < bound;
    if s == [] {
      assert here == {};
    } else {
      var last := |s| - 1;
      CountBelowIs(s[..last], bound);
      var before := set k | 0 <= k < last && s[..last][k] < bound;
      assert here == before + if s[last] < bound then {last} else {};
    }
  }

  lemma {:induction false} CountFromIs(s: seq<int>, bound: int)
    ensures |s| - CountBelow(s, bound) == |set k | 0 <= k < |s| && s[k] >= bound|
  {
    var here := set k | 0 <= k < |s| && s[k] >= bound;
    if s == [] {
      assert here == {};
    } else {
      var last := |s| - 1;
      CountFromIs(s[..last], bound);
      var before := set k | 0 <= k < last && s[..last][k] >= bound;
      assert here == before + if s[last] >= bound then {last} else {};
    }
  }

  lemma {:induction false} CountBelowMonotone(s: seq<int>, lo: int, hi: int)
    requires lo <= hi
    ensures CountBelow(s, lo) <= CountBelow(s, hi)
  {
    if s == [] {
    } else {
      CountBelowMonotone(s[..|s| - 1], lo, hi);
    }
  }

  /** Nothing is below a lower bound, everything is below a strict upper bound. */
  lemma {:induction false} CountBelowExtremes(s: seq<int>, bound: int)
    ensures (forall i :: 0 <= i < |s| ==> bound <= s[i]) ==> CountBelow(s, bound) == 0
    ensures (forall i :: 0 <= i < |s| ==> s[i] < bound) ==> CountBelow(s, bound) == |s|
  {
    if s == [] {
    } else {
      CountBelowExtremes(s[..|s| - 1], bound);
    }
  }

  /** Removing one element from anywhere changes counts and sums by that element alone. */
  lemma {:induction false} RemoveAt(s: seq<int>, k: nat, bound: int)
    requires k < |s|
    ensures CountBelow(s, bound) == CountBelow(s[..k] + s[k + 1..], bound) + if s[k] < bound then 1 else 0
    ensures Sum(s) == Sum(s[..k] + s[k + 1..]) + s[k]
  {
    var last := |s| - 1;
    if k == last {
      assert s[..k] + s[k + 1..] == s[..last];
    } else {
      RemoveAt(s[..last], k, bound);
      var rest := s[..k] + s[k + 1..last];
      assert s[..last][..k] + s[..last][k + 1..] == rest;
      assert s[..k] + s[k + 1..] == rest + [s[last]];
      CountBelowAppend(rest, s[last], bound);
      SumAppend(rest, s[last]);
    }
  }

  /** Where the last element of s sits in a permutation t of it. */
  lemma MatchLast(s: seq<int>, t: seq<int>) returns (k: nat)
    requires s != [] && multiset(s) == multiset(t)
    ensures k < |t| && t[k] == s[|s| - 1]
    ensures multiset(s[..|s| - 1]) == multiset(t[..k] + t[k + 1..])
  {
    var last := |s| - 1;
    assert s[last] in multiset(t);
    k :| 0 <= k < |t| && t[k] == s[last];
    assert s == s[..last] + [s[last]];
    assert t == t[..k] + [t[k]] + t[k + 1..];
    var rest := t[..k] + t[k + 1..];
    assert multiset(s) == multiset(s[..last]) + multiset{s[last]};
    assert multiset(t) == multiset(t[..k]) + multiset{t[k]} + multiset(t[k + 1..]) == multiset(rest) + multiset{t[k]};
    assert multiset(rest) == multiset(t) - multiset{t[k]};
  }

  /** Counts and sums depend on the multiset of elements only. */
  lemma {:induction false} CountAndSumPermute(s: seq<int>, t: seq<int>, bound: int)
    requires multiset(s) == multiset(t)
    ensures |s| == |t| && CountBelow(s, bound) == CountBelow(t, bound) && Sum(s) == Sum(t)
    decreases |s|
  {
    assert |s| == |multiset(s)| == |multiset(t)| == |t|;
    if s == [] {
    } else {
      var k := MatchLast(s, t);
      CountAndSumPermute(s[..|s| - 1], t[..k] + t[k + 1..], bound);
      RemoveAt(t, k, bound);
    }
  }

  /** In a sorted list, the element of rank k is below a bound exactly when more than k elements are. */
  lemma {:induction false} RankInSorted(t: seq<int>, k: nat, bound: int)
    requires Sorted(t) && k < |t|
    ensures t[k] < bound <==> CountBelow(t, bound) > k
  {
    var last := |t| - 1;
    if k < last {
      RankInSorted(t[..last], k, bound);
      if t[last] < bound {
        assert t[k] <= t[last];
      }
    } else if t[last] < bound {
      CountBelowExtremes(t, bound);
    }
  }

  /** Every sorting of the same samples is the same list. */
  lemma SortingUnique(t: seq<int>, u: seq<int>)
    requires Sorted(t) && Sorted(u) && multiset(t) == multiset(u)
    ensures t == u
  {
    CountAndSumPermute(t, u, 0);
    forall k | 0 <= k < |t|
      ensures t[k] == u[k]
    {
      CountAndSumPermute(t, u, t[k] + 1);
      CountAndSumPermute(t, u, u[k] + 1);
      RankInSorted(t, k, t[k] + 1);
      RankInSorted(u, k, t[k] + 1);
      RankInSorted(t, k, u[k] + 1);
      RankInSorted(u, k, u[k] + 1);
    }
  }
}
