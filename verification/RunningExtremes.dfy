/** The running minimum and maximum of lbmpong's calc_latency, whose "not set yet" mark is the value 0. */
module RunningExtremes {

  /** Value and index after each sample replaced the current one if smaller, or if the current one is 0. */
  function SentinelMin(s: seq<int>): (int, int) {
    if s == [] then (0, 0)
    else
      var last := |s| - 1;
      var (m, i) := SentinelMin(s[..last]);
      if s[last] < m || m == 0 then (s[last], last) else (m, i)
  }

  function SentinelMax(s: seq<int>): (int, int) {
    if s == [] then (0, 0)
    else
      var last := |s| - 1;
      var (m, i) := SentinelMax(s[..last]);
      if s[last] > m || m == 0 then (s[last], last) else (m, i)
  }

  ghost predicate IsMin(m: int, s: seq<int>) {
    m in s && forall i :: 0 <= i < |s| ==> m <= s[i]
  }

  ghost predicate IsMax(m: int, s: seq<int>) {
    m in s && forall i :: 0 <= i < |s| ==> s[i] <= m
  }

  /** m first occurs at i. */
  ghost predicate FirstAt(s: seq<int>, m: int, i: int) {
    0 <= i < |s| && s[i] == m && forall j :: 0 <= j < i ==> s[j] != m
  }

  ghost predicate SomeNegative(s: seq<int>) {
    exists i :: 0 <= i < |s| && s[i] < 0
  }

  ghost predicate SomePositive(s: seq<int>) {
    exists i :: 0 <= i < |s| && s[i] > 0
  }

  /** When the mark does no harm: no sample equals it, or the last one does, or the extreme lies beyond it. */
  ghost predicate MinUnharmed(s: seq<int>) {
    s != [] && (0 !in s || s[|s| - 1] == 0 || SomeNegative(s))
  }

  ghost predicate MaxUnharmed(s: seq<int>) {
    s != [] && (0 !in s || s[|s| - 1] == 0 || SomePositive(s))
  }

  lemma LastOrRest(s: seq<int>)
    requires s != []
    ensures forall x :: x in s <==> x in s[..|s| - 1] || x == s[|s| - 1]
    ensures SomeNegative(s) <==> SomeNegative(s[..|s| - 1]) || s[|s| - 1] < 0
  {
  }

  /** How the running minimum stands: right once a negative sample came; else it is some sample, at least
      0, and 0 only if the last sample was; and as long as no sample was 0 it is the first smallest one. */
  lemma {:induction false} SentinelMinState(s: seq<int>)
    requires s != []
    ensures SentinelMin(s).0 in s
    ensures SomeNegative(s) ==> IsMin(SentinelMin(s).0, s)
    ensures !SomeNegative(s) ==> SentinelMin(s).0 >= 0
    ensures SentinelMin(s).0 == 0 ==> !SomeNegative(s) && s[|s| - 1] == 0
    ensures s[|s| - 1] == 0 && !SomeNegative(s) ==> SentinelMin(s).0 == 0
    ensures 0 !in s ==> IsMin(SentinelMin(s).0, s) && FirstAt(s, SentinelMin(s).0, SentinelMin(s).1)
  {
    var last := |s| - 1;
    var rest := s[..last];
    LastOrRest(s);
    if rest == [] {
      assert s == [s[0]];
      if SomeNegative(s) {
        assert s[0] < 0;
      } else {
        assert s[0] >= 0;
      }
    } else {
      SentinelMinState(rest);
      assert SomeNegative(s) || s[last] >= 0;
      if !SomeNegative(rest) {
        assert forall i :: 0 <= i < |rest| ==> rest[i] >= 0;
      }
    }
  }

  /** Exactly what is reported.  From a negative sample on, the first smallest sample. */
  lemma {:induction false} NegativeMinimum(s: seq<int>)
    requires SomeNegative(s)
    ensures IsMin(SentinelMin(s).0, s) && FirstAt(s, SentinelMin(s).0, SentinelMin(s).1)
  {
    var last := |s| - 1;
    var rest := s[..last];
    LastOrRest(s);
    SentinelMinState(s);
    if SomeNegative(rest) {
      NegativeMinimum(rest);
    } else if rest == [] {
    } else {
      SentinelMinState(rest);
      assert forall i :: 0 <= i < |rest| ==> rest[i] >= 0;
    }
  }

  /** Without one, the first smallest sample after the last 0, or that 0 itself if nothing follows it. */
  lemma {:induction false} MinimumAfterZero(s: seq<int>, z: nat)
    requires z < |s| && s[z] == 0 && !SomeNegative(s) && forall j :: z < j < |s| ==> s[j] != 0
    ensures z == |s| - 1 ==> SentinelMin(s) == (0, z)
    ensures z < |s| - 1 ==>
      var (m, i) := SentinelMin(s);
      i > z && m > 0 && IsMin(m, s[z + 1..]) && FirstAt(s[z + 1..], m, i - z - 1)
  {
    var last := |s| - 1;
    var rest := s[..last];
    LastOrRest(s);
    if z == last {
      if rest != [] {
        SentinelMinState(rest);
      }
    } else {
      MinimumAfterZero(rest, z);
      assert s[z + 1..] == rest[z + 1..] + [s[last]];
      assert s[last] > 0;
      if z < last - 1 {
        StaysFirst(rest[z + 1..], s[last], SentinelMin(rest).0, SentinelMin(rest).1 - z - 1);
      }
    }
  }

  /** The first smallest of a list, with one more sample. */
  lemma StaysFirst(s: seq<int>, x: int, m: int, i: int)
    requires IsMin(m, s) && FirstAt(s, m, i)
    ensures x < m ==> IsMin(x, s + [x]) && FirstAt(s + [x], x, |s|)
    ensures x >= m ==> IsMin(m, s + [x]) && FirstAt(s + [x], m, i)
  {
    assert (s + [x])[i] == m && (s + [x])[|s|] == x;
  }

  /** The reported minimum is right exactly when the mark did no harm. */
  lemma SentinelMinIff(s: seq<int>)
    requires s != []
    ensures IsMin(SentinelMin(s).0, s) <==> MinUnharmed(s)
    ensures 0 !in s ==> FirstAt(s, SentinelMin(s).0, SentinelMin(s).1)
  {
    SentinelMinState(s);
    var m := SentinelMin(s).0;
    if !SomeNegative(s) && 0 in s {
      assert forall i :: 0 <= i < |s| ==> s[i] >= 0;
      var z :| 0 <= z < |s| && s[z] == 0;
      assert IsMin(m, s) <==> m == 0;
    }
  }

  function Negated(s: seq<int>): (t: seq<int>)
    ensures |t| == |s| && forall i :: 0 <= i < |s| ==> t[i] == -s[i]
  {
    seq(|s|, i requires 0 <= i < |s| => -s[i])
  }

  lemma {:induction false} MaxIsNegatedMin(s: seq<int>)
    ensures SentinelMax(s) == (-SentinelMin(Negated(s)).0, SentinelMin(Negated(s)).1)
  {
    if s == [] {
    } else {
      MaxIsNegatedMin(s[..|s| - 1]);
      assert Negated(s)[..|s| - 1] == Negated(s[..|s| - 1]);
    }
  }

  lemma NegatedElements(s: seq<int>, x: int)
    ensures x in s <==> -x in Negated(s)
  {
  }

  lemma NegatedExtremes(s: seq<int>, m: int)
    ensures IsMax(m, s) <==> IsMin(-m, Negated(s))
    ensures SomePositive(s) <==> SomeNegative(Negated(s))
  {
  }

  lemma SentinelMaxIff(s: seq<int>)
    requires s != []
    ensures IsMax(SentinelMax(s).0, s) <==> MaxUnharmed(s)
    ensures 0 !in s ==> FirstAt(s, SentinelMax(s).0, SentinelMax(s).1)
  {
    var t := Negated(s);
    var (m, i) := SentinelMax(s);
    MaxIsNegatedMin(s);
    SentinelMinIff(t);
    NegatedExtremes(s, m);
    NegatedElements(s, 0);
    if 0 !in s {
      assert FirstAt(t, -m, i);
      assert forall j :: 0 <= j < i ==> t[j] != -m;
    }
  }

  /** A round trip of 0 ns that is not the last is forgotten: the minimum of 0, 5 is reported as 5. */
  lemma ZeroIsForgotten()
    ensures SentinelMin([0, 5]).0 == 5 && !IsMin(SentinelMin([0, 5]).0, [0, 5])
  {
  }
}
