/** Clock readings and their differences (cprt.h). */
module CprtTime {
  import opened Machine

  /** `struct timespec`. */
  datatype Timespec = Timespec(sec: int, nsec: int)

  /** The exact instant a reading stands for, in nanoseconds. */
  function Nanos(t: Timespec): int {
    t.sec * BILLION + t.nsec
  }

  /** CPRT_DIFF_TS: every operand is cast to uint64_t, every operation wraps. */
  function DiffTs(end: Timespec, start: Timespec): (r: int)
    ensures 0 <= r < TWO_64
  {
    U64(U64(U64(U64(U64(end.sec) - U64(start.sec)) * BILLION) + U64(end.nsec)) - U64(start.nsec))
  }

  /** Wrapping through seconds, nanoseconds and borrow loses nothing but a multiple of 2^64. */
  lemma DiffTsIsDifference(end: Timespec, start: Timespec)
    ensures DiffTs(end, start) == U64(Nanos(end) - Nanos(start))
  {
    var e, s := end.sec, start.sec;
    var d := U64(U64(e) - U64(s));
    var p := U64(d * BILLION);
    var n := U64(p + U64(end.nsec));
    // how many periods each conversion removed
    var ke, ks := e / TWO_64, s / TWO_64;
    var kd := (U64(e) - U64(s)) / TWO_64;
    var kp := (d * BILLION) / TWO_64;
    var kn := (p + U64(end.nsec)) / TWO_64;
    var ken, ksn := end.nsec / TWO_64, start.nsec / TWO_64;
    var k := -(ke - ks + kd) * BILLION - kp - kn - ken + ksn;
    assert n - U64(start.nsec) == Nanos(end) - Nanos(start) + TWO_64 * k;
    U64Shift(Nanos(end) - Nanos(start), k);
  }

  /** The macro yields the true distance exactly for the spans a uint64_t can hold, whatever the fields. */
  lemma DiffTsExactIff(end: Timespec, start: Timespec)
    ensures DiffTs(end, start) == Nanos(end) - Nanos(start)
       <==> 0 <= Nanos(end) - Nanos(start) < TWO_64
    ensures var exact := (end.sec - start.sec) * 1_000_000_000 + (end.nsec - start.nsec);
      DiffTs(end, start) == exact <==> 0 <= exact < 0x1_0000_0000_0000_0000
  {
    DiffTsIsDifference(end, start);
    if 0 <= Nanos(end) - Nanos(start) < TWO_64 {
      U64Identity(Nanos(end) - Nanos(start));
    }
  }

  /** Adjacent intervals add up (modulo 2^64 always, exactly while the total fits). */
  lemma DiffTsAdditive(a: Timespec, b: Timespec, c: Timespec)
    ensures DiffTs(c, a) == U64(DiffTs(c, b) + DiffTs(b, a))
    ensures Nanos(a) <= Nanos(b) <= Nanos(c) < Nanos(a) + TWO_64
      ==> DiffTs(c, a) == DiffTs(c, b) + DiffTs(b, a)
  {
    DiffTsIsDifference(c, a);
    DiffTsIsDifference(c, b);
    DiffTsIsDifference(b, a);
    var x, y := Nanos(c) - Nanos(b), Nanos(b) - Nanos(a);
    var kx, ky := x / TWO_64, y / TWO_64;
    assert U64(x) + U64(y) == x + y + TWO_64 * (-kx - ky);
    U64Shift(x + y, -kx - ky);
    if Nanos(a) <= Nanos(b) <= Nanos(c) < Nanos(a) + TWO_64 {
      DiffTsExactIff(c, a);
      DiffTsExactIff(c, b);
      DiffTsExactIff(b, a);
    }
  }

  /** A uint64_t duration cast to int and passed on as a uint64_t sample. */
  function CastSample(ns: nat): (r: nat)
    ensures r < TWO_64
  {
    U64(S32(ns))
  }

  /** The cast keeps a duration exactly below 2^31 ns (or within 2^31 of the top of the range). */
  lemma CastKeepsIff(ns: nat)
    requires ns < TWO_64
    ensures CastSample(ns) == ns <==> ns < 0x8000_0000 || 0xffff_ffff_8000_0000 <= ns
    ensures CastSample(ns) == if ns % 0x1_0000_0000 < 0x8000_0000 then ns % 0x1_0000_0000
                              else ns % 0x1_0000_0000 + 0xffff_ffff_0000_0000
  {
    var low := ns % TWO_32;
    if low < TWO_31 {
      U64Identity(low);
    } else {
      U64Unique(low - TWO_32, -1, low - TWO_32 + TWO_64);
    }
  }

  /** Readings of a monotonic clock, spanning less than a uint64_t of nanoseconds. */
  ghost predicate Monotonic(clock: seq<Timespec>) {
    && (forall i, j :: 0 <= i <= j < |clock| ==> Nanos(clock[i]) <= Nanos(clock[j]))
    && (clock != [] ==> Nanos(clock[|clock| - 1]) - Nanos(clock[0]) < TWO_64)
  }

  /** Nanoseconds from the first reading to reading i. */
  function Elapsed(clock: seq<Timespec>, i: nat): int
    requires i < |clock|
  {
    Nanos(clock[i]) - Nanos(clock[0])
  }

  lemma ElapsedByMacro(clock: seq<Timespec>, i: nat)
    requires Monotonic(clock) && i < |clock|
    ensures 0 <= Elapsed(clock, i) == DiffTs(clock[i], clock[0])
  {
    DiffTsExactIff(clock[i], clock[0]);
  }

  /** cprt_sleep_ns over the readings it makes.  The test lags one reading behind, so the call returns
      right after the reading that follows the first one at least `duration` after the start. */
  method SleepNs(clock: seq<Timespec>, duration: nat) returns (last: nat)
    requires Monotonic(clock) && |clock| >= 2
    requires duration <= Elapsed(clock, |clock| - 2)
    ensures 1 <= last < |clock| && duration <= Elapsed(clock, last - 1) <= Elapsed(clock, last)
    ensures forall i :: 0 <= i < last - 1 ==> Elapsed(clock, i) < duration
  {
    var cur := 0;
    var nsSoFar;
    while true
      invariant cur < |clock| - 1
      invariant forall i :: 0 <= i < cur ==> Elapsed(clock, i) < duration
      decreases |clock| - cur
    {
      ElapsedByMacro(clock, cur);
      nsSoFar := DiffTs(clock[cur], clock[0]);
      cur := cur + 1;
      if nsSoFar >= duration {
        break;
      }
    }
    last := cur;
  }
}
