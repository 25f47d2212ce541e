/** The catch-up scheduler `send_loop` (um_lat_ping.c), with its machine arithmetic.
    A run is described over the schedule w its clock readings induce: w[i] is the elapsed time at
    reading i times the rate, so message k falls due when w reaches k billion. */
module PacedSender {
  import opened Machine
  import opened CprtTime
  import opened Sequences

  /** Elapsed nanoseconds times the rate, reading by reading. */
  function Schedule(clock: seq<Timespec>, rate: nat): (w: seq<int>)
    ensures |w| == |clock|
    ensures forall i :: 0 <= i < |w| ==> w[i] == Elapsed(clock, i) * rate
  {
    seq(|clock|, i requires 0 <= i < |clock| => Elapsed(clock, i) * rate)
  }

  /** A schedule starts at zero and never decreases. */
  ghost predicate Advancing(w: seq<int>) {
    && w != [] && w[0] == 0
    && forall i, j :: 0 <= i <= j < |w| ==> w[i] <= w[j]
  }

  lemma ScheduleAdvances(clock: seq<Timespec>, rate: nat)
    requires Monotonic(clock) && clock != []
    ensures Advancing(Schedule(clock, rate))
  {
    forall i, j | 0 <= i <= j < |clock|
      ensures Elapsed(clock, i) * rate <= Elapsed(clock, j) * rate
    {
      Scales(Elapsed(clock, i), Elapsed(clock, j), rate);
    }
  }

  /** The schedule grows by the clock gap times the rate. */
  lemma GapInSchedule(clock: seq<Timespec>, rate: nat, i: nat)
    requires 0 < i < |clock|
    ensures Schedule(clock, rate)[i] - Schedule(clock, rate)[i - 1] == (Nanos(clock[i]) - Nanos(clock[i - 1])) * rate
  {
  }

  /** Message k (counting from 0) is due at reading i, and was not due at any earlier reading. */
  ghost predicate FirstDue(w: seq<int>, k: nat, i: nat) {
    && i < |w| && k * BILLION <= w[i]
    && forall j :: 0 <= j < i ==> w[j] < k * BILLION
  }

  function Clamp(due: int, n: int): int {
    if due > n then n else due
  }

  /** How many of n messages should be out once the schedule stands at `work`, in unbounded arithmetic. */
  function Quota(work: int, n: int): int {
    Clamp(work / BILLION + 1, n)
  }

  /** The same before clamping, as the C expression evaluates: a uint64_t product, then a cast to int. */
  function ScheduledByMachine(ns: nat, rate: nat): int {
    S32(U64(U64(ns * rate) / BILLION + 1))
  }

  /** When the conversions do no harm at a schedule of `work`: the count due fits an int, or its low 32 bits
      happen to be an int no smaller than the n it is cut to. */
  predicate Harmless(work: nat, n: int) {
    work / BILLION + 1 < TWO_31 || n <= (U64(work) / BILLION + 1) % TWO_32 < TWO_31
  }

  function MachineQuota(ns: nat, rate: nat, n: int): int {
    Clamp(ScheduledByMachine(ns, rate), n)
  }

  /** What a harmful reading leads to: a negative quota, at which the unsigned loop guard lets every message
      count pass, or one that holds back messages that are due. */
  ghost predicate GoesWrong(work: nat, n: int, quota: int) {
    if (U64(work) / BILLION + 1) % TWO_32 >= TWO_31
    then quota < 0 && forall numSent :: 0 <= numSent < TWO_31 ==> U64(numSent) < U64(quota)
    else 0 <= quota < n && (n - 1) * BILLION <= work
  }

  /** The machine's quota is the ideal one exactly for harmless readings. */
  lemma MachineQuotaIff(ns: nat, rate: nat, n: nat)
    requires ns < TWO_64 && rate < TWO_64 && n < TWO_31
    ensures ns * rate >= 0
    ensures MachineQuota(ns, rate, n) == Quota(ns * rate, n) <==> Harmless(ns * rate, n)
    ensures Harmless(ns * rate, n) <==>
      ns * rate / 1_000_000_000 + 1 < 0x8000_0000
      || n <= (U64(ns * rate) / 1_000_000_000 + 1) % 0x1_0000_0000 < 0x8000_0000
    ensures !Harmless(ns * rate, n) ==> GoesWrong(ns * rate, n, MachineQuota(ns, rate, n))
  {
    Scales(0, ns, rate);
    ConversionsIff(ns * rate, n);
  }

  lemma ConversionsIff(work: nat, n: nat)
    requires n < TWO_31
    ensures Clamp(S32(U64(U64(work) / BILLION + 1)), n) == Quota(work, n) <==> Harmless(work, n)
    ensures !Harmless(work, n) ==> GoesWrong(work, n, Clamp(S32(U64(U64(work) / BILLION + 1)), n))
  {
    U64Identity(U64(work) / BILLION + 1);
    var quota := Clamp(S32(U64(work) / BILLION + 1), n);
    if quota < 0 {
      U64Unique(quota, -1, quota + TWO_64);
    }
    if work / BILLION + 1 < TWO_31 {
      U64Identity(work);
    }
  }

  /** Beyond that the loop does go wrong: a stall of 2.15 s at a billion messages a second makes the quota
      of 10 messages negative, and the unsigned loop guard then lets every message count pass. */
  lemma StallBreaksQuota(numSent: nat)
    requires numSent < TWO_31
    ensures Quota(2_147_483_647 * 1_000_000_000, 10) == 10
    ensures MachineQuota(2_147_483_647, 1_000_000_000, 10) == -2_147_483_648
    ensures U64(numSent) < U64(-2_147_483_648)
  {
    U64Unique(-TWO_31, -1, TWO_64 - TWO_31);
    U64Identity(numSent);
    U64Identity(2_147_483_647 * BILLION);
    U64Identity(TWO_31);
  }

  /** No reading the loop comes to, all messages not being out, is one where the conversions do harm. */
  ghost predicate ReadingsFit(w: seq<int>, n: int) {
    forall i :: 0 <= i < |w| - 1 && w[i] < (n - 1) * BILLION ==> w[i + 1] >= 0 && Harmless(w[i + 1], n)
  }

  /** Messages already sent when iteration i begins. */
  ghost function SentBefore(w: seq<int>, n: int, i: nat): int
    requires i <= |w|
  {
    if i == 0 then 0 else Quota(w[i - 1], n)
  }

  /** Since the loop stops once the quota reaches n, that covers the quota of every iteration. */
  lemma ScheduleFits(w: seq<int>, n: nat, i: nat)
    requires Advancing(w) && i < |w| && ReadingsFit(w, n)
    requires i > 0 ==> SentBefore(w, n, i) < n
    ensures w[i] >= 0 && Harmless(w[i], n)
  {
    assert i > 0 ==> w[i - 1] < (n - 1) * BILLION && w[i] == w[i - 1 + 1];
  }

  /** What iteration i adds is due at its reading and was due at none before. */
  lemma NextFirstDue(w: seq<int>, n: nat, i: nat)
    requires Advancing(w) && i < |w|
    ensures SentBefore(w, n, i) <= Quota(w[i], n)
    ensures forall k :: SentBefore(w, n, i) <= k < Quota(w[i], n) ==> FirstDue(w, k, i)
  {
  }

  /** When each message went, and how many went at a time, in a run cut after |bursts| iterations. */
  ghost predicate LogOk(w: seq<int>, rounds: seq<nat>, bursts: seq<int>) {
    && (forall k :: 0 <= k < |rounds| ==> FirstDue(w, k, rounds[k]) && rounds[k] < |bursts|)
    && (forall i :: 0 <= i < |bursts| ==> bursts[i] == multiset(rounds)[i])
    && Sum(bursts) == |rounds|
  }

  lemma LogExtends(w: seq<int>, rounds: seq<nat>, bursts: seq<int>, more: nat)
    requires LogOk(w, rounds, bursts)
    requires forall k :: |rounds| <= k < |rounds| + more ==> FirstDue(w, k, |bursts|)
    ensures LogOk(w, rounds + seq(more, _ => |bursts|), bursts + [more])
  {
    var i := |bursts|;
    var added := seq(more, _ => i);
    Repeats(more, i);
    SumAppend(bursts, more);
    assert multiset(rounds + added) == multiset(rounds) + multiset(added);
    assert i !in rounds;
  }

  lemma {:induction false} Repeats(more: nat, i: nat)
    ensures multiset(seq(more, _ => i)) == multiset{}[i := more]
  {
    if more == 0 {
    } else {
      Repeats(more - 1, i);
      assert seq(more, _ => i) == seq(more - 1, _ => i) + [i];
    }
  }

  /** Each burst is the growth of the quota over one iteration. */
  ghost predicate BurstsFollowQuota(w: seq<int>, n: int, bursts: seq<int>)
    requires |bursts| <= |w|
  {
    forall i :: 0 <= i < |bursts| ==> bursts[i] == SentBefore(w, n, i + 1) - SentBefore(w, n, i)
  }

  lemma BurstsExtend(w: seq<int>, n: int, bursts: seq<int>, more: int)
    requires |bursts| < |w| && BurstsFollowQuota(w, n, bursts)
    requires more == SentBefore(w, n, |bursts| + 1) - SentBefore(w, n, |bursts|)
    ensures BurstsFollowQuota(w, n, bursts + [more])
  {
  }

  function Larger(a: int, b: int): int {
    if a > b then a else b
  }

  ghost predicate IsMaximum(m: int, s: seq<int>) {
    m in s && forall i :: 0 <= i < |s| ==> s[i] <= m
  }

  lemma MaximumExtends(m: int, s: seq<int>, x: int)
    requires s == [] ==> m <= x
    requires s != [] ==> IsMaximum(m, s)
    ensures IsMaximum(Larger(m, x), s + [x])
  {
  }

  /** Everything a run cut after |bursts| iterations has recorded. */
  ghost predicate RunLog(w: seq<int>, n: int, rounds: seq<nat>, bursts: seq<int>, worst: int)
    requires |bursts| <= |w|
  {
    && LogOk(w, rounds, bursts)
    && BurstsFollowQuota(w, n, bursts)
    && |rounds| == SentBefore(w, n, |bursts|)
    && if bursts == [] then worst == 0 else IsMaximum(worst, bursts)
  }

  lemma IterationLogged(w: seq<int>, n: nat, rounds: seq<nat>, bursts: seq<int>, worst: nat, more: int)
    requires Advancing(w) && |bursts| < |w|
    requires RunLog(w, n, rounds, bursts, worst)
    requires |rounds| + more == Quota(w[|bursts|], n)
    ensures more >= 0
    ensures RunLog(w, n, rounds + seq(more, _ => |bursts|), bursts + [more], Larger(worst, more))
  {
    NextFirstDue(w, n, |bursts|);
    LogExtends(w, rounds, bursts, more);
    MaximumExtends(worst, bursts, more);
    BurstsExtend(w, n, bursts, more);
  }

  /** A finished run: every message out, the last of them in the last iteration, one reading to spare. */
  ghost predicate Finished(w: seq<int>, n: nat, rounds: seq<nat>, bursts: seq<int>, worst: int) {
    && 1 <= |bursts| < |w| && |rounds| == n
    && RunLog(w, n, rounds, bursts, worst)
    && if n == 0 then |bursts| == 1 else rounds[n - 1] == |bursts| - 1
  }

  /** What one more iteration comes to: a longer log, and either readings left over or a finished run. */
  lemma IterationOutcome(w: seq<int>, n: nat, rounds: seq<nat>, bursts: seq<int>, worst: nat, more: int)
    requires Advancing(w) && |bursts| < |w| - 1 && (n - 1) * BILLION <= w[|w| - 2]
    requires |rounds| <= n && (bursts != [] ==> |rounds| < n)
    requires RunLog(w, n, rounds, bursts, worst)
    requires |rounds| + more == Quota(w[|bursts|], n)
    ensures 0 <= more <= n - |rounds|
    ensures var rounds', bursts' := rounds + seq(more, _ => |bursts|), bursts + [more];
      && RunLog(w, n, rounds', bursts', Larger(worst, more))
      && (|rounds'| < n ==> |bursts'| < |w| - 1)
      && (|rounds'| == n ==> Finished(w, n, rounds', bursts', Larger(worst, more)))
  {
    IterationLogged(w, n, rounds, bursts, worst, more);
  }

  /** The peak after n more sends: each compares the count before its own increment with the peak. */
  function FlightPeak(peak: int, count: int, n: nat): int {
    if n == 0 then peak else Larger(peak, count + n - 1)
  }

  /** The counts n increments find, starting from `count`. */
  function CountsFound(count: int, n: nat): (s: seq<int>)
    ensures |s| == n && forall j :: 0 <= j < n ==> s[j] == count + j
  {
    seq(n, j => count + j)
  }

  /** The peak is the old one or some count found, and none exceeds it. */
  ghost predicate IsPeak(peak: int, before: int, count: int, n: nat) {
    IsMaximum(peak, [before] + CountsFound(count, n))
  }

  lemma FlightPeakIs(peak: int, count: int, n: nat)
    ensures IsPeak(FlightPeak(peak, count, n), peak, count, n)
  {
    var s := [peak] + CountsFound(count, n);
    assert s[0] == peak;
    if n > 0 {
      assert s[n] == count + n - 1;
    }
  }

  lemma FlightPeakComposes(peak: int, count: int, n: nat, m: nat)
    ensures FlightPeak(FlightPeak(peak, count, n), count + n, m) == FlightPeak(peak, count, n + m)
  {
  }

  lemma SmallUnsigned(x: int)
    requires 0 <= x < TWO_31
    ensures U64(x) == x && S32(x) == x
  {
  }

  /** The sender half of um_lat_ping's globals. */
  class Sender {
    var curFlightSize: int
    var maxFlightSize: int
    var globalMaxTightSends: int

    constructor ()
      ensures curFlightSize == maxFlightSize == globalMaxTightSends == 0
    {
      curFlightSize, maxFlightSize, globalMaxTightSends := 0, 0, 0;
    }

    /** The machine's quota at reading i: uint64_t product, narrowing cast, clamp. */
    static method ShouldHaveSent(clock: seq<Timespec>, rate: nat, n: nat, i: nat, ghost w: seq<int>)
      returns (should: int)
      requires Monotonic(clock) && i < |clock| && n < TWO_31 && rate < TWO_64
      requires w == Schedule(clock, rate) && Advancing(w) && ReadingsFit(w, n)
      requires i > 0 ==> SentBefore(w, n, i) < n
      ensures should == Quota(w[i], n)
    {
      var nsSoFar := DiffTs(clock[i], clock[0]);
      should := S32(U64(U64(nsSoFar * rate) / BILLION + 1));
      if should > n {
        should := n;
      }
      ElapsedByMacro(clock, i);
      ScheduleFits(w, n, i);
      MachineQuotaIff(nsSoFar, rate, n);
    }

    /** The worst burst so far, by unsigned subtraction and comparison. */
    static method WorstBurst(maxTightSends: int, shouldHaveSent: int, numSent: int) returns (worst: int)
      requires 0 <= maxTightSends < TWO_31 && 0 <= numSent <= shouldHaveSent < TWO_31
      ensures worst == Larger(maxTightSends, shouldHaveSent - numSent)
    {
      SmallUnsigned(shouldHaveSent - numSent);
      SmallUnsigned(maxTightSends);
      worst := maxTightSends;
      if U64(shouldHaveSent - numSent) > U64(maxTightSends) {
        worst := S32(U64(shouldHaveSent - numSent));
      }
    }

    static method LessUnsigned(a: int, b: int) returns (less: bool)
      requires 0 <= a < TWO_31 && 0 <= b < TWO_31
      ensures less == (a < b)
    {
      SmallUnsigned(a);
      SmallUnsigned(b);
      less := U64(a) < U64(b);
    }

    /** The inner loop: sends until the quota is reached, counting each message in flight. */
    method CatchUp(shouldHaveSent: int, start: nat, round: nat) returns (sent: nat, added: seq<nat>)
      requires start <= shouldHaveSent < TWO_31
      modifies this`curFlightSize, this`maxFlightSize
      ensures sent == shouldHaveSent
      ensures added == seq(shouldHaveSent - start, _ => round)
      ensures curFlightSize == old(curFlightSize) + shouldHaveSent - start
      ensures maxFlightSize == FlightPeak(old(maxFlightSize), old(curFlightSize), shouldHaveSent - start)
      ensures IsPeak(maxFlightSize, old(maxFlightSize), old(curFlightSize), shouldHaveSent - start)
    {
      FlightPeakIs(old(maxFlightSize), old(curFlightSize), shouldHaveSent - start);
      sent, added := start, [];
      SmallUnsigned(start);
      SmallUnsigned(shouldHaveSent);
      while U64(sent) < U64(shouldHaveSent)
        invariant start <= sent <= shouldHaveSent && U64(sent) == sent
        invariant added == seq(sent - start, _ => round)
        invariant curFlightSize == old(curFlightSize) + sent - start
        invariant maxFlightSize == FlightPeak(old(maxFlightSize), old(curFlightSize), sent - start)
        decreases shouldHaveSent - sent
      {
        added := added + [round];
        var cur := curFlightSize;
        curFlightSize := cur + 1;
        if cur > maxFlightSize {
          maxFlightSize := cur;
        }
        sent := sent + 1;
        SmallUnsigned(sent);
      }
    }

    /** One iteration of the outer loop: find the quota at reading |bursts|, note the burst, catch up. */
    method Iterate(clock: seq<Timespec>, n: nat, rate: nat, rounds: seq<nat>, bursts: seq<int>, worst: nat,
                   ghost w: seq<int>)
      returns (rounds': seq<nat>, bursts': seq<int>, worst': nat)
      requires Monotonic(clock) && |bursts| < |clock| - 1 && n < TWO_31 && rate < TWO_64 && worst < TWO_31
      requires w == Schedule(clock, rate) && Advancing(w) && ReadingsFit(w, n)
      requires (n - 1) * BILLION <= w[|w| - 2]
      requires |rounds| <= n && (bursts != [] ==> |rounds| < n)
      requires RunLog(w, n, rounds, bursts, worst)
      modifies this`curFlightSize, this`maxFlightSize
      ensures |bursts'| == |bursts| + 1 && worst' < TWO_31
      ensures |rounds| <= |rounds'| <= n && RunLog(w, n, rounds', bursts', worst')
      ensures |rounds'| < n ==> |bursts'| < |clock| - 1
      ensures |rounds'| == n ==> Finished(w, n, rounds', bursts', worst')
      ensures curFlightSize == old(curFlightSize) + |rounds'| - |rounds|
      ensures maxFlightSize == FlightPeak(old(maxFlightSize), old(curFlightSize), |rounds'| - |rounds|)
    {
      var shouldHaveSent := ShouldHaveSent(clock, rate, n, |bursts|, w);
      IterationOutcome(w, n, rounds, bursts, worst, shouldHaveSent - |rounds|);
      worst' := WorstBurst(worst, shouldHaveSent, |rounds|);
      var sent, added := CatchUp(shouldHaveSent, |rounds|, |bursts|);
      rounds' := rounds + added;
      bursts' := bursts + [|added|];
    }

    /** Sends numSends messages.  `clock` holds the readings the loop makes, the first being the start;
        rounds[k] is the loop iteration (and so the reading) that sends message k, and bursts[i] the
        number of messages iteration i sends to catch up. */
    method SendLoop(clock: seq<Timespec>, numSends: int, sendsPerSec: nat)
      returns (numSent: int, rounds: seq<nat>, bursts: seq<int>)
      requires Monotonic(clock) && 0 <= numSends < TWO_31 && sendsPerSec < TWO_64
      // the clock keeps advancing until the last message is due, and is read once more
      requires |clock| >= 2 && (numSends - 1) * BILLION <= Schedule(clock, sendsPerSec)[|clock| - 2]
      requires ReadingsFit(Schedule(clock, sendsPerSec), numSends)
      modifies this
      ensures numSent == numSends
      ensures Finished(Schedule(clock, sendsPerSec), numSends, rounds, bursts, globalMaxTightSends)
      ensures curFlightSize == old(curFlightSize) + numSends
      ensures maxFlightSize == FlightPeak(old(maxFlightSize), old(curFlightSize), numSends)
      ensures IsPeak(maxFlightSize, old(maxFlightSize), old(curFlightSize), numSends)
    {
      FlightPeakIs(old(maxFlightSize), old(curFlightSize), numSends);
      ghost var w := Schedule(clock, sendsPerSec);
      ScheduleAdvances(clock, sendsPerSec);
      var maxTightSends := 0;
      numSent, rounds, bursts := 0, [], [];
      while true
        invariant |bursts| < |clock| - 1
        invariant numSent == |rounds| <= numSends
        invariant bursts != [] ==> numSent < numSends
        invariant 0 <= maxTightSends < TWO_31
        invariant RunLog(w, numSends, rounds, bursts, maxTightSends)
        invariant curFlightSize == old(curFlightSize) + numSent
        invariant maxFlightSize == FlightPeak(old(maxFlightSize), old(curFlightSize), numSent)
        decreases |clock| - |bursts|
      {
        ghost var before := numSent;
        rounds, bursts, maxTightSends := Iterate(clock, numSends, sendsPerSec, rounds, bursts, maxTightSends, w);
        numSent := |rounds|;
        FlightPeakComposes(old(maxFlightSize), old(curFlightSize), before, numSent - before);
        var unfinished := LessUnsigned(numSent, numSends);
        if !unfinished {
          break;
        }
      }
      globalMaxTightSends := maxTightSends;
    }
  }

  /** The readings alone decide when each message goes: two runs over one clock agree, and send in order. */
  lemma PacingDetermined(w: seq<int>, n: nat, rounds: seq<nat>, bursts: seq<int>, worst: int,
                         rounds': seq<nat>, bursts': seq<int>, worst': int)
    requires Finished(w, n, rounds, bursts, worst) && Finished(w, n, rounds', bursts', worst')
    ensures rounds == rounds' && bursts == bursts' && worst == worst'
    ensures forall k, l :: 0 <= k < l < n ==> rounds[k] <= rounds[l]
  {
  }

  /** What a finished run amounts to: message k goes in the first iteration whose reading, elapsed time times
      rate, has come to k billion. */
  lemma SentWhenDue(clock: seq<Timespec>, rate: nat, n: nat, rounds: seq<nat>, bursts: seq<int>, worst: int,
                    k: nat, j: nat)
    requires Monotonic(clock) && Finished(Schedule(clock, rate), n, rounds, bursts, worst)
    requires k < n && j < |bursts|
    ensures |rounds| == n && rounds[k] < |bursts| < |clock|
    ensures j < rounds[k] <==> (Nanos(clock[j]) - Nanos(clock[0])) * rate < k * 1_000_000_000
  {
    var w := Schedule(clock, rate);
    ScheduleAdvances(clock, rate);
    assert FirstDue(w, k, rounds[k]);
    assert w[j] == (Nanos(clock[j]) - Nanos(clock[0])) * rate;
  }

  /** The bursts are the numbers of messages the iterations send, and the figure kept is the largest. */
  lemma BurstsAre(w: seq<int>, n: nat, rounds: seq<nat>, bursts: seq<int>, worst: int)
    requires Finished(w, n, rounds, bursts, worst)
    ensures forall i :: 0 <= i < |bursts| ==> bursts[i] == multiset(rounds)[i] <= worst
    ensures (exists i :: 0 <= i < |bursts| && bursts[i] == worst) && Sum(bursts) == n == |rounds|
    ensures n > 0 ==> rounds[n - 1] == |bursts| - 1
  {
  }

  /** The last message falls due between the last two readings that count. */
  lemma LastDue(w: seq<int>, n: nat, rounds: seq<nat>, bursts: seq<int>, worst: int)
    requires n >= 2 && Advancing(w) && Finished(w, n, rounds, bursts, worst)
    ensures |bursts| >= 2 && w[|bursts| - 2] < (n - 1) * BILLION <= w[|bursts| - 1]
  {
    assert FirstDue(w, n - 1, |bursts| - 1);
    assert w[0] == 0;
  }

  /** The final reading lands less than one clock gap after the last message fell due. */
  lemma FinalReading(clock: seq<Timespec>, rate: nat, n: nat, rounds: seq<nat>, bursts: seq<int>, worst: int)
    requires Monotonic(clock) && n >= 2 && Finished(Schedule(clock, rate), n, rounds, bursts, worst)
    ensures var last := |bursts| - 1;
      && last >= 1
      && (n - 1) * BILLION <= Elapsed(clock, last) * rate
      && Elapsed(clock, last) * rate < (n - 1) * BILLION + (Nanos(clock[last]) - Nanos(clock[last - 1])) * rate
  {
    ScheduleAdvances(clock, rate);
    LastDue(Schedule(clock, rate), n, rounds, bursts, worst);
    GapInSchedule(clock, rate, |bursts| - 1);
  }

  /** The reported rate (n - 1) / duration never exceeds the requested one: the outer readings taken by
      `main` enclose the loop's own. */
  lemma ReportedRate(clock: seq<Timespec>, rate: nat, n: nat, rounds: seq<nat>, bursts: seq<int>, worst: int,
                     start: Timespec, end: Timespec)
    requires n >= 1 && Finished(Schedule(clock, rate), n, rounds, bursts, worst)
    requires Nanos(start) <= Nanos(clock[0]) && Nanos(clock[|bursts| - 1]) <= Nanos(end) < Nanos(start) + TWO_64
    requires Nanos(clock[0]) <= Nanos(end)
    ensures (n - 1) * BILLION <= DiffTs(end, start) * rate
  {
    assert FirstDue(Schedule(clock, rate), n - 1, |bursts| - 1);
    DiffTsExactIff(end, start);
    Scales(Elapsed(clock, |bursts| - 1), DiffTs(end, start), rate);
  }

  /** ceil(grown / BILLION), the messages that can fall due while the schedule grows that much. */
  function Ceiling(grown: nat): int {
    (grown + BILLION - 1) / BILLION
  }

  lemma QuotaStep(w: nat, w': nat, grown: nat, n: int)
    requires w <= w' <= w + grown
    ensures Quota(w', n) - Quota(w, n) <= Ceiling(grown)
    ensures grown <= BILLION ==> Ceiling(grown) <= 1
  {
  }

  lemma BurstBoundInSchedule(w: seq<int>, n: nat, rounds: seq<nat>, bursts: seq<int>, worst: int, grown: nat)
    requires Advancing(w) && Finished(w, n, rounds, bursts, worst)
    requires forall i :: 0 < i < |bursts| ==> w[i] - w[i - 1] <= grown
    ensures worst <= Larger(1, Ceiling(grown))
    ensures grown <= BILLION ==> worst <= 1
  {
    var i :| 0 <= i < |bursts| && bursts[i] == worst;
    assert worst == SentBefore(w, n, i + 1) - SentBefore(w, n, i);
    if i > 0 {
      assert 0 <= w[i - 1] <= w[i];
      QuotaStep(w[i - 1], w[i], grown, n);
    }
  }

  function ScaledGap(gap: nat, rate: nat): (r: nat)
    ensures r == gap * rate
  {
    Scales(0, gap, rate);
    gap * rate
  }

  lemma GapScaled(clock: seq<Timespec>, rate: nat, i: nat, gap: nat)
    requires 0 < i < |clock| && Nanos(clock[i]) - Nanos(clock[i - 1]) <= gap
    ensures Schedule(clock, rate)[i] - Schedule(clock, rate)[i - 1] <= ScaledGap(gap, rate)
  {
    GapInSchedule(clock, rate, i);
    Scales(Nanos(clock[i]) - Nanos(clock[i - 1]), gap, rate);
  }

  /** No burst outruns the longest pause of the clock; pauses shorter than a message period give none. */
  lemma BurstBound(clock: seq<Timespec>, rate: nat, n: nat, rounds: seq<nat>, bursts: seq<int>, worst: int, gap: nat)
    requires Monotonic(clock) && Finished(Schedule(clock, rate), n, rounds, bursts, worst)
    requires forall i :: 0 < i < |bursts| ==> Nanos(clock[i]) - Nanos(clock[i - 1]) <= gap
    ensures worst <= Larger(1, Ceiling(ScaledGap(gap, rate)))
    ensures worst > 1 ==> (worst - 1) * 1_000_000_000 < gap * rate
    ensures gap * rate <= 1_000_000_000 ==> worst <= 1
  {
    var w := Schedule(clock, rate);
    ScheduleAdvances(clock, rate);
    var grown := ScaledGap(gap, rate);
    forall i | 0 < i < |bursts|
      ensures w[i] - w[i - 1] <= grown
    {
      GapScaled(clock, rate, i, gap);
    }
    BurstBoundInSchedule(w, n, rounds, bursts, worst, grown);
  }

  /** One explicit bound on message count, rate and the longest pause of the clock is enough for the machine
      arithmetic of every iteration. */
  lemma PausesFit(clock: seq<Timespec>, rate: nat, n: nat, gap: nat)
    requires Monotonic(clock)
    requires forall i :: 0 < i < |clock| ==> Nanos(clock[i]) - Nanos(clock[i - 1]) <= gap
    requires (n - 1) * BILLION + ScaledGap(gap, rate) <= (TWO_31 - 1) * BILLION
    ensures ReadingsFit(Schedule(clock, rate), n)
  {
    var w := Schedule(clock, rate);
    if w != [] {
      ScheduleAdvances(clock, rate);
    }
    forall i | 0 <= i < |w| - 1 && w[i] < (n - 1) * BILLION
      ensures w[i + 1] >= 0 && Harmless(w[i + 1], n)
    {
      GapScaled(clock, rate, i + 1, gap);
      assert w[0] <= w[i + 1];
    }
  }
}
