/** PongLBMReceiver of lbmpong.java: counting, warm-up, per-message statistics and the final report. */
module PongReceiver {
  import opened Machine
  import opened Sequences
  import opened RunningExtremes
  import Deviation
  import BubbleSort
  import Median

  /** What handling a data message leads to: Finished is the exit after the last message, Crashed an
      exception on the way to it, Overrun an index past the end of rtt_data. */
  datatype Outcome = Continue | Finished | Crashed | Overrun

  /** The round trips that count: everything after the first `ignore` messages. */
  function Recorded(history: seq<int>, ignore: int): seq<int> {
    if 0 <= ignore <= |history| then history[ignore..] else []
  }

  /** How many warm-up messages are still to come; a negative setting never runs out. */
  function IgnoreLeft(received: nat, ignore: int): int {
    if ignore <= 0 then ignore else if received >= ignore then 0 else ignore - received
  }

  lemma RecordedGrows(history: seq<int>, ignore: int, rtt: int)
    ensures Recorded(history + [rtt], ignore)
      == if IgnoreLeft(|history|, ignore) == 0 then Recorded(history, ignore) + [rtt] else []
    ensures IgnoreLeft(|history|, ignore) != 0 ==> Recorded(history, ignore) == []
    ensures IgnoreLeft(|history| + 1, ignore) ==
      if IgnoreLeft(|history|, ignore) > 0 then IgnoreLeft(|history|, ignore) - 1 else IgnoreLeft(|history|, ignore)
  {
  }

  /** Round-trip time of each message that arrives, from (receive time, time stamp). */
  function RoundTrips(arrivals: seq<(int, int)>): (r: seq<int>)
    ensures |r| == |arrivals|
  {
    if arrivals == [] then []
    else RoundTrips(arrivals[..|arrivals| - 1]) + [arrivals[|arrivals| - 1].0 - arrivals[|arrivals| - 1].1]
  }

  lemma {:induction false} RoundTripsAre(arrivals: seq<(int, int)>, i: nat)
    requires i < |arrivals|
    ensures RoundTrips(arrivals)[i] == arrivals[i].0 - arrivals[i].1
  {
    if i == |arrivals| - 1 {
    } else {
      RoundTripsAre(arrivals[..|arrivals| - 1], i);
    }
  }

  lemma {:induction false} RoundTripsPrefix(arrivals: seq<(int, int)>, n: nat)
    requires n <= |arrivals|
    ensures RoundTrips(arrivals[..n]) == RoundTrips(arrivals)[..n]
  {
    if n == |arrivals| {
      assert arrivals[..n] == arrivals;
    } else {
      var rest := arrivals[..|arrivals| - 1];
      RoundTripsPrefix(rest, n);
      assert rest[..n] == arrivals[..n];
    }
  }

  /** The msgs round trips a run measures are those after the first `ignore`, whenever that many arrive. */
  lemma MeasuredMessages(arrivals: seq<(int, int)>, used: nat, ignore: int, msgs: nat)
    requires used <= |arrivals| && |Recorded(RoundTrips(arrivals[..used]), ignore)| == msgs > 0
    ensures ignore >= 0 && used == ignore + msgs
    ensures Recorded(RoundTrips(arrivals[..used]), ignore) == RoundTrips(arrivals)[ignore..ignore + msgs]
  {
    RoundTripsPrefix(arrivals, used);
  }

  class Receiver {
    const msgs: int
    const ping: bool
    const ignore: int
    const rttData: array?<int>
    var msgCount: int
    var rttIgnore: int
    var currNsec: int
    var minNsec: int
    var minNsecIdx: int
    var maxNsec: int
    var maxNsecIdx: int
    var datanum: int
    var rttAvg: int
    var rttMedian: int
    var rttStddev: int
    /** Round-trip time of every data message received so far, in order. */
    ghost var history: seq<int>

    ghost predicate Configured() {
      rttData != null ==> rttData.Length == msgs
    }

    /** The counters; true between any two messages of a run still going on. */
    ghost predicate Counting()
      reads this
    {
      && Configured()
      && rttIgnore == IgnoreLeft(|history|, ignore)
      && msgCount == |Recorded(history, ignore)|
      && datanum == (if ping then msgCount else 0)
      && (ping && msgs > 0 ==> msgCount < msgs)
    }

    /** The statistics of the messages recorded by calc_latency. */
    ghost predicate Describes(rec: seq<int>)
      reads this, rttData
    {
      && datanum == |rec| && currNsec == Sum(rec)
      && (minNsec, minNsecIdx) == SentinelMin(rec)
      && (maxNsec, maxNsecIdx) == SentinelMax(rec)
      && (rttData != null ==> |rec| <= rttData.Length && rttData[..|rec|] == rec)
    }

    ghost predicate Valid()
      reads this, rttData
    {
      Counting() && (if ping then Describes(Recorded(history, ignore)) else Describes([]))
    }

    constructor (msgs: int, ping: bool, collect: bool, ignore: int)
      requires collect ==> msgs >= 0
      ensures Valid() && history == [] && (rttData != null ==> fresh(rttData))
      ensures this.msgs == msgs && this.ping == ping && this.ignore == ignore && (rttData != null <==> collect)
    {
      this.msgs, this.ping, this.ignore := msgs, ping, ignore;
      rttData := null;
      if collect {
        rttData := new int[msgs];
      }
      msgCount, rttIgnore, datanum, currNsec := 0, ignore, 0, 0;
      minNsec, minNsecIdx, maxNsec, maxNsecIdx := 0, 0, 0, 0;
      history := [];
    }

    /** A negative size makes the allocation throw before there is a receiver. */
    static method Create(msgs: int, ping: bool, collect: bool, ignore: int) returns (r: Receiver?)
      ensures r == null <==> collect && msgs < 0
      ensures r != null ==> fresh(r) && r.Valid() && r.history == [] && (r.rttData != null ==> fresh(r.rttData))
      ensures r != null ==> r.msgs == msgs && r.ping == ping && r.ignore == ignore && (r.rttData != null <==> collect)
    {
      r := null;
      if !collect || msgs >= 0 {
        r := new Receiver(msgs, ping, collect, ignore);
      }
    }

    /** calc_latency while the statistics cover `rec`: nothing during warm-up. */
    method CalcLatency(curr: int, sent: int, ghost rec: seq<int>) returns (overrun: bool)
      requires Describes(rec)
      modifies this`currNsec, this`minNsec, this`minNsecIdx, this`maxNsec, this`maxNsecIdx, this`datanum, rttData
      ensures overrun <==> rttIgnore == 0 && rttData != null && |rec| == rttData.Length
      ensures !overrun ==> Describes(if rttIgnore == 0 then rec + [curr - sent] else rec)
    {
      overrun := false;
      var diff := curr - sent;
      if rttIgnore == 0 {
        assert (rec + [diff])[..|rec|] == rec;
        currNsec := currNsec + diff;
        if diff < minNsec || minNsec == 0 {
          minNsec, minNsecIdx := diff, datanum;
        }
        if diff > maxNsec || maxNsec == 0 {
          maxNsec, maxNsecIdx := diff, datanum;
        }
        if rttData != null {
          if datanum >= rttData.Length {
            return true;
          }
          rttData[datanum] := diff;
        }
        datanum := datanum + 1;
      }
    }

    /** calc_med: sorts in place, then indexes one past the middle. */
    method CalcMed() returns (r: Median.MedianResult, ghost sorted: seq<int>)
      requires rttData != null && 0 <= msgCount == rttData.Length
      modifies rttData
      ensures sorted == rttData[..] && IsSortingOf(sorted, old(rttData[..]))
      ensures r == Median.Reported(sorted)
    {
      var n := msgCount;
      var passes, swaps := BubbleSort.SortPrefix(rttData, n);
      assert rttData[..n] == rttData[..] && old(rttData[..n]) == old(rttData[..]);
      sorted := rttData[..];
      if n % 2 == 1 {
        if n / 2 + 1 >= rttData.Length {
          return Median.IndexOutOfBounds, sorted;
        }
        return Median.Ok(rttData[n / 2 + 1]), sorted;
      }
      if n / 2 + 1 >= rttData.Length {
        return Median.IndexOutOfBounds, sorted;
      }
      return Median.Ok(TruncDiv(rttData[n / 2] + rttData[n / 2 + 1], 2)), sorted;
    }

    /** The calculations of print_rtt_data: the median (which may fail) and then, over the sorted array,
        the standard deviation about rttAvg. */
    method PrintRttData() returns (threw: bool)
      requires rttData != null && 0 <= msgCount == rttData.Length
      modifies this`rttMedian, this`rttStddev, rttData
      ensures threw <==> msgCount < 3
      ensures !threw ==> ReportOk(old(rttData[..]), rttAvg, rttMedian, rttStddev)
    {
      ghost var rec := rttData[..];
      var med, sorted := CalcMed();
      Median.ReportedRank(rec, sorted);
      if med.IndexOutOfBounds? {
        return true;
      }
      rttMedian := med.value;
      assert rttData[..msgCount] == sorted;
      threw, rttStddev := Deviation.CalcStddev(rttData, msgCount, rttAvg);
      SpreadPermutes(rec, sorted, rttAvg, rttStddev);
      assert MedianOk(rec, sorted, rttMedian);
    }

    /** Every message has been recorded: the counters agree and the statistics describe them all. */
    ghost predicate Complete(rec: seq<int>)
      reads this, rttData
    {
      && Configured() && ping && 0 < msgs == |rec| == msgCount && Describes(rec)
    }

    /** The message overruns an array of no cells. */
    ghost predicate Overruns(rec: seq<int>)
      reads this
    {
      ping && rttData != null && msgs == 0 && |rec| == 1
    }

    /** The counting part of onReceive. */
    method Count(t: int, s: int) returns (overrun: bool, last: bool)
      requires Valid()
      modifies this, rttData
      ensures history == old(history) + [t - s]
      ensures overrun <==> Overruns(Recorded(history, ignore))
      ensures last <==> ping && 0 < msgs == |Recorded(history, ignore)|
      ensures !overrun ==> if last then Complete(Recorded(history, ignore)) else Valid()
    {
      ghost var rec := Recorded(history, ignore);
      RecordedGrows(history, ignore, t - s);
      overrun, last := false, false;
      if rttIgnore == 0 {
        msgCount := msgCount + 1;
      }
      if ping {
        overrun := CalcLatency(t, s, rec);
      }
      history := history + [t - s];
      if !overrun {
        last := ping && rttIgnore == 0 && msgCount == msgs;
        if !last && rttIgnore > 0 {
          rttIgnore := rttIgnore - 1;
        }
      }
    }

    /** The last act of a ping run, before the process exits. */
    method Report(ghost rec: seq<int>) returns (crashed: bool)
      requires Complete(rec)
      modifies this`rttAvg, this`rttMedian, this`rttStddev, rttData
      ensures rttAvg == TruncDiv(Sum(rec), msgs)
      ensures crashed <==> rttData != null && msgs < 3
      ensures !crashed && rttData != null ==> ReportOk(rec, rttAvg, rttMedian, rttStddev)
    {
      rttAvg := TruncDiv(currNsec, msgCount);
      crashed := false;
      if rttData != null {
        assert rttData[..] == rttData[..|rec|];
        crashed := PrintRttData();
      }
    }

    /** onReceive for MSG_DATA: t is the receive time (0 when reflecting), s the time stamp carried. */
    method OnData(t: int, s: int) returns (outcome: Outcome)
      requires Valid()
      modifies this, rttData
      ensures history == old(history) + [t - s]
      ensures Leaves(outcome, Recorded(history, ignore))
    {
      var overrun, last := Count(t, s);
      if overrun {
        return Overrun;
      }
      if !last {
        return Continue;
      }
      var crashed := Report(Recorded(history, ignore));
      outcome := if crashed then Crashed else Finished;
    }

    /** A whole run: data messages arrive until the process exits or no more come. */
    method Run(arrivals: seq<(int, int)>) returns (outcome: Outcome, used: nat)
      requires Valid() && history == []
      modifies this, rttData
      ensures used <= |arrivals| && history == RoundTrips(arrivals[..used])
      ensures outcome == Continue ==> used == |arrivals|
      ensures Leaves(outcome, Recorded(history, ignore))
    {
      outcome, used := Continue, 0;
      while used < |arrivals| && outcome == Continue
        invariant used <= |arrivals| && history == RoundTrips(arrivals[..used])
        invariant Leaves(outcome, Recorded(history, ignore))
      {
        assert arrivals[..used + 1][..used] == arrivals[..used];
        outcome := OnData(arrivals[used].0, arrivals[used].1);
        used := used + 1;
      }
    }

    /** The state a message leaves: a ping process asked for at least one message stops exactly when `rec`
        holds all of them, and by an exception exactly if those are too few for a median; it overruns its
        array exactly when asked for none; otherwise it carries on. */
    ghost predicate Leaves(outcome: Outcome, rec: seq<int>)
      reads this, rttData
    {
      && (outcome == Overrun <==> Overruns(rec))
      && (outcome == Finished || outcome == Crashed <==> ping && 0 < msgs == |rec|)
      && (outcome == Crashed <==> ping && 0 < msgs == |rec| && rttData != null && msgs < 3)
      && (outcome == Continue ==> Valid())
      && (outcome == Finished || outcome == Crashed ==> FinalFigures(rec))
      && (outcome == Finished && rttData != null ==> ReportOk(rec, rttAvg, rttMedian, rttStddev))
    }

    /** What print_latency prints. */
    ghost predicate FinalFigures(rec: seq<int>)
      reads this
    {
      && |rec| == msgs == msgCount == datanum && msgs > 0
      && currNsec == Sum(rec) && rttAvg == TruncDiv(Sum(rec), msgs)
      && (minNsec, minNsecIdx) == SentinelMin(rec)
      && (maxNsec, maxNsecIdx) == SentinelMax(rec)
    }
  }

  ghost predicate MedianOk(rec: seq<int>, t: seq<int>, median: int) {
    IsSortingOf(t, rec) && Median.Reported(t) == Median.Ok(median)
  }

  ghost predicate SpreadOk(rec: seq<int>, avg: int, stddev: int) {
    |rec| >= 2 && Deviation.IsDeviation(stddev, Sum(Deviation.SquaredDeviations(rec, avg)), |rec|)
  }

  /** Median and standard deviation are those of the values recorded, in whatever order they came. */
  ghost predicate ReportOk(rec: seq<int>, avg: int, median: int, stddev: int) {
    (exists t :: MedianOk(rec, t, median)) && SpreadOk(rec, avg, stddev)
  }

  lemma SpreadPermutes(rec: seq<int>, sorted: seq<int>, avg: int, stddev: int)
    requires multiset(rec) == multiset(sorted) && |sorted| >= 2
    requires Deviation.IsDeviation(stddev, Sum(Deviation.SquaredDeviations(sorted, avg)), |sorted|)
    ensures SpreadOk(rec, avg, stddev)
  {
    CountAndSumPermute(rec, sorted, 0);
    Deviation.DeviationsPermute(rec, sorted, avg);
  }

  /** What a finished run reports, provided every round trip took some time: exact extremes at their first
      occurrence, around the average. */
  lemma PositiveRoundTrips(rec: seq<int>)
    requires rec != [] && forall i :: 0 <= i < |rec| ==> rec[i] > 0
    ensures var (lo, loAt) := SentinelMin(rec); var (hi, hiAt) := SentinelMax(rec);
      && IsMin(lo, rec) && FirstAt(rec, lo, loAt) && IsMax(hi, rec) && FirstAt(rec, hi, hiAt)
      && 0 < lo <= TruncDiv(Sum(rec), |rec|) <= hi
  {
    assert 0 !in rec;
    SentinelMinIff(rec);
    SentinelMaxIff(rec);
    var lo, hi := SentinelMin(rec).0, SentinelMax(rec).0;
    SumBounds(rec, lo, hi);
    AverageBounds(Sum(rec), |rec|, lo, hi);
  }

  lemma {:induction false} SumBounds(s: seq<int>, lo: int, hi: int)
    requires forall i :: 0 <= i < |s| ==> lo <= s[i] <= hi
    ensures lo * |s| <= Sum(s) <= hi * |s|
  {
    if s == [] {
    } else {
      var rest := s[..|s| - 1];
      SumBounds(rest, lo, hi);
      assert lo * |s| == lo * |rest| + lo;
      assert hi * |s| == hi * |rest| + hi;
    }
  }

  lemma AverageBounds(sum: int, n: int, lo: int, hi: int)
    requires n > 0 && lo > 0 && lo * n <= sum <= hi * n
    ensures lo <= TruncDiv(sum, n) <= hi
  {
    assert lo * n > 0;
    var q := sum / n;
    assert sum == q * n + sum % n;
    assert (q + 1) * n == q * n + n;
    assert (hi + 1) * n == hi * n + n;
    CancelFactor(lo, q + 1, n);
    CancelFactor(q, hi + 1, n);
  }
}
