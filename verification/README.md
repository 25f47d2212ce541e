# um_lat: a verified model

um_lat measures the latency of a messaging library. `um_lat_ping` sends timestamped messages at a steady
rate, `um_lat_pong` sends each one back, and `um_lat_ping` collects the round-trip times in a histogram.
`um_lat_jitter` measures how long a timestamp itself takes, and `lbmpong` is an older one-message-at-a-time
tester with exact statistics. The messaging library is closed and foreign; what is modelled here is
everything the tools do around it that their figures depend on:

- **Pacing.** `PacedSender` is the catch-up loop `send_loop` with its 64-bit product, narrowing cast and
  unsigned comparisons. A run is described over the *schedule* its clock readings induce: elapsed time times
  rate, so that message k falls due at k billion.
- **Time.** `CprtTime` has the wrapping nanosecond difference and the busy-wait sleep; `Jitter` the
  measuring loop built on them; `Machine` the integer conversions.
- **Statistics.** `Histogram` is the bucketed summary and its percentiles. `PongReceiver` is lbmpong's
  receiver, on top of `RunningExtremes`, `BubbleSort`, `Median` and `Deviation`. `Sequences` holds what they
  share.
- **Concurrency.** `PingPongRun` is a whole measurement (sender, reflector, receive callback and two lossy
  streams), `RunCounts` tells what its counters and checks come to over a run, and `LateWarmup` when it can
  go wrong; `FlightSize` is the counter shared by a sender and the source-event callback, `XspThread` the
  shutdown handshake, `EventRing` the ticketed debug log. Each is a set of atomic steps, a run being any
  sequence of enabled ones; the properties hold in every interleaving.
- **Options.** `GetOpt` is the command-line scanner and its consumer loop, `SafeAtoi` checked number
  conversion, `PairOption` the "a,b" values of -H and -w.

Code that updates variables is a class or a method with loops, proved against functions on values; the
lemmas are about those functions. Doubles are treated exactly: a percentile is a rational `num / den`, the
reported rate a cross-multiplied inequality, and `Math.sqrt` followed by a cast the integer square root.

## Where the code differs from its documentation or intent

The code is modelled as it is, and the exact condition under which it meets the intent is proved.

- README.md:369 says "anything over five overflows" loses the 99.999th percentile of 500,000 messages; it is
  lost from five on (`FiveOverflowsLoseIt`).
- The comments in `calc_med` speak of the middle element; the indices are one past it, so the figure is
  never too low, is right exactly when enough values lie about the middle, and fewer than three values
  overrun the array (`ReportedRank`, `ReportedAtLeastMiddle`, `ReportedIsMiddleIff`).
- lbmpong's running extremes use 0 for "not set yet", so a round trip of 0 ns can be forgotten
  (`SentinelMinIff`, `SentinelMaxIff`).
- The send loop's cast to `int` precedes its clamp, so a long enough stall at a high rate (2.15 s at a
  billion messages a second) makes the quota negative (`MachineQuotaIff`, `StallBreaksQuota`).
- The checks of `um_lat_ping` count late warm-up messages as measurements. The first can pass with no
  measurement at all, after which printing the histogram divides by zero: possible exactly when warm-ups are
  asked for (`CrashIff`). The last can pass with a measurement lost: possible exactly when warm-ups and at
  least two measurements are (`MisleadIff`). In a given run neither happens if no warm-up message was in
  flight at the reset (`PrintingIsSafe`, `PassedMeansComplete`).
- The histogram's recorded minimum starts at 999999999, so it is wrong when every sample is larger
  (`RecordedExtremes`).
- lbmpong asked for no messages does not stop at once: its first counted message overruns the array of
  round-trip times, if it collects them (`Receiver.OnData`).
- The assertions that the flight size is not negative can fail, when a message is retired before its sender
  has counted it (`AssertionFailsIffC`, `AssertionFailsIffJava`, `AssertionCanFail`).
- In the -H option the check meant for the second number repeats that of the first (`NullUsedIff`).
- The unsigned form of number conversion accepts negative texts (`UnsignedConversionIff`).

## Model

| member | source | states |
|---|---|---|
| CprtTime.DiffTsIsDifference | cprt.h:536-541 | for any four fields, through every wrap and borrow, it is the nanosecond difference modulo 2^64 |
| CprtTime.DiffTsExactIff | cprt.h:536-541 | it is the true difference, (seconds) * 1000000000 + (nanoseconds), if and only if the end is not before the start and less than 2^64 ns after it |
| CprtTime.DiffTsAdditive | cprt.h:536-541 | adjacent intervals add up: modulo 2^64 always, exactly while the whole fits |
| CprtTime.CastKeepsIff | um_lat_ping.c:551-553 | the detour through int keeps the low 32 bits, sign-extended to 64; so a duration below 2^31 ns, or within 2^31 of 2^64, and no other |
| CprtTime.ElapsedByMacro | um_lat_ping.c:595-596 | over a monotonic clock the macro gives the elapsed time at every reading |
| CprtTime.SleepNs | cprt.c:94-106 | a sleep never ends early, and ends one reading after the first that reached the duration |
| Machine.U64Congruent | um_lat_ping.c:596-604 | a uint64_t keeps the low 64 bits |
| Machine.S32Congruent | um_lat_ping.c:598 | an int keeps the low 32 bits, as a signed number |
| Machine.TruncDivIs | lbmpong.java:723 | Java's division rounds toward zero |
| Sequences.CountBelowIs | um_lat_ping.c:297-303 | the counts used to state ranks are numbers of positions |
| PacedSender.ScheduleAdvances | um_lat_ping.c:591-598 | the schedule of a monotonic clock starts at zero and never falls back |
| PacedSender.MachineQuotaIff | um_lat_ping.c:596-607 | product, cast and clamp give the ideal quota if and only if the count due fits an int, or its low 32 bits lie between the message count and 2^31; otherwise the quota is negative and the unsigned guard passes every count (low bits from 2^31 on), or messages that are due are held back (the rest) |
| PacedSender.StallBreaksQuota | um_lat_ping.c:598-607 | a stall of 2.15 s at a billion messages a second makes the quota of 10 messages -2^31 and the unsigned loop guard true for any count |
| PacedSender.ScheduleFits | um_lat_ping.c:596-607 | because the loop ends at the quota, a condition on the readings that follow an unfinished one covers the arithmetic of every iteration |
| PacedSender.NextFirstDue | um_lat_ping.c:598-607 | what an iteration adds is due at its reading and was due at no earlier one |
| PacedSender.IterationLogged | um_lat_ping.c:594-655 | one iteration keeps the whole account: send times, bursts, their sum, their maximum |
| PacedSender.IterationOutcome | um_lat_ping.c:594-655 | after it either messages remain and so do readings, or the run is finished with its last message sent in it |
| PacedSender.Sender.ShouldHaveSent | um_lat_ping.c:595-601 | the machine computes floor(elapsed * rate / 1e9) + 1 cut at the message count, in every iteration whose reading is harmless to the conversions |
| PacedSender.Sender.WorstBurst | um_lat_ping.c:602-604 | the unsigned subtraction and mixed comparison keep the true maximum |
| PacedSender.Sender.LessUnsigned | um_lat_ping.c:607-655 | the mixed-sign loop guards compare as integers while the operands are nonnegative ints |
| PacedSender.Sender.CatchUp | um_lat_ping.c:606-652 | sends exactly up to the quota, all at the current reading, raising the flight size by as many; the peak becomes the largest of the old one and the counts found before each increment |
| PacedSender.Sender.Iterate | um_lat_ping.c:594-655 | one do-while iteration extends the account, and ends the run exactly when every message is out |
| PacedSender.Sender.SendLoop | um_lat_ping.c:577-660 | over every monotonic clock exactly num_sends messages go out, message k in the first iteration whose reading has t * rate >= k * 1e9; bursts sum to num_sends; global_max_tight_sends is their exact maximum; max_flight_size is the largest of the old peak and the counts before each increment |
| PacedSender.Sender.constructor | um_lat_ping.c:577-660 | the sender's counters start at zero |
| PacedSender.PacingDetermined | um_lat_ping.c:594-655 | the readings alone determine when each message goes and every burst; messages go in order |
| PacedSender.SentWhenDue | um_lat_ping.c:594-655 | in a finished run message k goes at the first reading with (elapsed ns) * rate >= k * 1000000000 |
| PacedSender.BurstsAre | um_lat_ping.c:602-657 | the bursts are the numbers of messages the iterations send, sum to n, and the figure kept is the largest |
| PacedSender.FlightPeakIs | um_lat_ping.c:646-649 | the peak is the largest of the old peak and the counts the increments found, before incrementing |
| PacedSender.LastDue | um_lat_ping.c:594-655 | for n >= 2 the last message falls due after the reading before the last and no later than the last one |
| PacedSender.FinalReading | um_lat_ping.c:594-655 | for n >= 2 the last reading satisfies (n-1)*1e9 <= t*rate < (n-1)*1e9 + gap*rate, gap being the last pause of the clock |
| PacedSender.ReportedRate | um_lat_ping.c:757-769 | (actual_sends - 1) / duration never exceeds the requested rate |
| PacedSender.QuotaStep | um_lat_ping.c:596-601 | the quota grows by at most the ceiling of the schedule's growth in messages |
| PacedSender.BurstBoundInSchedule | um_lat_ping.c:594-657 | the worst burst is bounded by the largest growth of the schedule between readings |
| PacedSender.BurstBound | um_lat_ping.c:594-657 | global_max_tight_sends <= max(1, ceil(G*rate/1e9)) for the largest clock gap G, and at most 1 when G*rate <= 1e9 |
| PacedSender.PausesFit | um_lat_ping.c:594-604 | that condition follows from one bound on message count, rate and longest clock pause G: (n-1)*1e9 + G*rate <= (2^31-1)*1e9 |
| Histogram.Hist.constructor | um_lat_ping.c:259-264 | a created histogram stands for no samples |
| Histogram.Hist.Init | um_lat_ping.c:243-257 | re-initialization forgets every sample |
| Histogram.Hist.AddToTotals | um_lat_ping.c:270-278 | count, sum and extremes take in one sample |
| Histogram.Hist.AddToBucket | um_lat_ping.c:280-286 | one bucket, or the overflow count, grows by one |
| Histogram.Hist.Input | um_lat_ping.c:266-287 | buckets, overflows, count, sum and extremes stand for one sample more |
| Histogram.NeededIs | um_lat_ping.c:294 | the rank asked for is N * p / 100 rounded down |
| Histogram.Hist.Percentile | um_lat_ping.c:291-305 | with needed = floor(N*p/100), the result is the upper edge of the first bucket by whose end more than needed samples lie, or -1 when the buckets never hold that many |
| Histogram.Hist.Average | um_lat_ping.c:315-317 | the printed average is the floor of sum/N and lies between the recorded minimum and maximum; an empty histogram, and no other, divides by zero |
| Histogram.InputCounts | um_lat_ping.c:280-286 | a sample raises exactly the bucket of its quotient, or nothing when it overflows |
| Histogram.InputSummarized | um_lat_ping.c:266-287 | every field keeps describing the sample list |
| Histogram.BelowEdge | um_lat_ping.c:280-286 | a sample lies below a bucket edge exactly when its quotient is smaller |
| Histogram.PercentileMeaning | um_lat_ping.c:291-305 | more than `needed` samples lie below the result, at most `needed` below its bucket; -1 exactly when num_samples - overflows <= needed |
| Histogram.PercentileOfSorted | um_lat_ping.c:289-305 | agreement with the exact statistic: the result is the upper edge of the bucket of the sample of rank `needed` in the sorted list, -1 if that sample overflowed or does not exist |
| Histogram.EdgeFitsIff | um_lat_ping.c:297-301 | the edge reported fits an int if and only if the bucket of the sample of rank `needed` ends below 2^31, so always when buckets * width < 2^31 |
| Histogram.PercentileUnique | um_lat_ping.c:291-305 | the percentile specification admits one answer |
| Histogram.PercentileMonotone | um_lat_ping.c:319-321 | a higher rank never reports less, -1 read as infinity |
| Histogram.NeededMonotone | um_lat_ping.c:294 | a higher percentile asks for a rank at least as high |
| Histogram.BucketsSumTo | um_lat_ping.c:280-286 | the buckets together hold the samples below the histogram's end |
| Histogram.CountsAre | um_lat_ping.c:266-287 | bucket i holds the number of samples in [i*width, (i+1)*width), the overflow count the number from the last edge on |
| Histogram.EverySampleCounted | um_lat_ping.c:266-287 | sum of buckets + overflows = number of samples, in every reachable state |
| Histogram.SumBetweenExtremes | um_lat_ping.c:271-278 | N*min <= sum <= N*max |
| Histogram.ExtremesAre | um_lat_ping.c:273-278 | recorded extremes are attained or the reset value, and bound every sample |
| Histogram.RecordedExtremes | um_lat_ping.c:273-278 | the recorded maximum is always the largest sample; the recorded minimum is the smallest if and only if some sample is at most 999999999, and stays at that value otherwise |
| Histogram.OrderForgotten | um_lat_ping.c:266-287 | the whole state depends on the multiset of samples only |
| Histogram.FiveOverflowsLoseIt | README.md:365-369 | with 500,000 samples the 99.999th percentile is -1 if and only if there are at least five overflows |
| Jitter.MeasureTracked | um_lat_jitter.c:246-254 | one measurement extends the sample list and the running extremes by the true duration of its pair of readings |
| Jitter.Measure | um_lat_jitter.c:245-256 | one iteration: one sample, the extremes, and the time since the start |
| Jitter.JitterLoop | um_lat_jitter.c:226-262 | stops at the first pair of readings two seconds after the start; the histogram gained exactly the casts of all pair durations and the extremes are theirs |
| Jitter.DurationsAre | um_lat_jitter.c:234-250 | measurement k is the time between readings 5+2k and 6+2k, and its sample the cast of that |
| Jitter.TrackedMeans | um_lat_jitter.c:252-254 | the loop's extremes bound every measurement and are attained, or the values they start from |
| Jitter.CastsKeep | um_lat_jitter.c:251 | below 2^31 ns no sample is changed on its way into the histogram |
| Jitter.DisjointIntervals | um_lat_jitter.c:244-257 | the durations measured sum to at most the time elapsed |
| Jitter.LargeSamples | um_lat_jitter.c:155-176 | samples at or above a bound account for that bound each in the sum |
| Jitter.JitterAccounting | um_lat_jitter.c:226-262 | below 2^31 ns the loop's min and max equal the histogram's, sample sum <= elapsed time, and overflows*buckets*width <= elapsed time |
| Sequences.CountAndSumPermute | lbmpong.java:840-878 | sorting changes no count and no sum |
| Sequences.RankInSorted | lbmpong.java:854-860 | rank in the sorted list against counts in the unsorted one |
| Sequences.SortingUnique | lbmpong.java:840-852 | a list has one sorting |
| BubbleSort.SwapRemovesOne | lbmpong.java:845-849 | swapping an inverted pair of neighbours removes exactly one inversion |
| BubbleSort.PassPermutes | lbmpong.java:844-851 | a pass permutes |
| BubbleSort.PassInversions | lbmpong.java:844-851 | inversions after a pass plus swaps in it = inversions before |
| BubbleSort.NoSwapsMeansSorted | lbmpong.java:841-852 | a pass without swaps found the list sorted and left it alone |
| BubbleSort.PassCarriesMaximum | lbmpong.java:844-851 | each comparison leaves the maximum so far at its right end and later elements untouched |
| BubbleSort.PassFinishesOne | lbmpong.java:841-852 | with the k largest in final position, another pass puts k+1 there |
| BubbleSort.PassOutcome | lbmpong.java:841-852 | a pass either swaps, finishing one more element and leaving work, or proves the list sorted |
| BubbleSort.SortedHasNoInversions | lbmpong.java:852 | a sorted list has no inversion |
| BubbleSort.CompareAndSwap | lbmpong.java:845-850 | one comparison in place |
| BubbleSort.BubblePass | lbmpong.java:842-851 | the inner loop computes a pass in place, counts its swaps and reports whether there were any |
| BubbleSort.SortPrefix | lbmpong.java:840-852 | the do-while loop ends with a sorted permutation, after the first pass that swaps nothing and at most max(1, n) passes, having made exactly as many swaps as the input had inversions |
| RunningExtremes.SentinelMinState | lbmpong.java:827 | where the running minimum stands after any sequence of samples, its zero mark included |
| RunningExtremes.NegativeMinimum | lbmpong.java:827 | once a sample was negative, the minimum and index reported are the first smallest sample's |
| RunningExtremes.MinimumAfterZero | lbmpong.java:827 | otherwise, exactly what a 0 does: the first smallest sample after the last 0 is reported, or that 0 if nothing follows it |
| RunningExtremes.SentinelMinIff | lbmpong.java:827 | the reported minimum is the minimum if and only if no sample is 0, or the last one is, or some sample is negative; without zeros its index is the first occurrence |
| RunningExtremes.SentinelMaxIff | lbmpong.java:828 | the same for the maximum |
| RunningExtremes.MaxIsNegatedMin | lbmpong.java:827-828 | the two updates mirror each other |
| RunningExtremes.ZeroIsForgotten | lbmpong.java:827 | the minimum of 0, 5 is reported as 5 |
| Median.ReportedRank | lbmpong.java:854-860 | fails exactly for n < 3; odd n gives the value of rank n/2+1, even n the truncated average of the values of rank n/2 and n/2+1 |
| Median.SortedRank | lbmpong.java:854-860 | position k of the sorted list holds the value of rank k of the recorded ones |
| Median.RankUnique | lbmpong.java:854-860 | a rank determines its value |
| Median.MiddleOfOdd | lbmpong.java:854-856 | one index back, the odd case is the true median the comment intends |
| Median.MiddleOfEven | lbmpong.java:857-859 | one index back, the even case averages the values of rank n/2-1 and n/2 |
| Median.ReportedAtLeastMiddle | lbmpong.java:854-860 | the report is never below the true median |
| Median.ReportedIsMiddleIff | lbmpong.java:854-860 | it equals the true median m if and only if, of the recorded values, fewer than n/2 lie above m (n odd), or m has rank n/2 and the values of rank n/2-1 and n/2+1 differ from it only by the 1 that truncation hides (n even) |
| Median.ReportedIsNotMiddle | lbmpong.java:854-856 | of 1, 2, 3 the median reported is 3 |
| Deviation.SquareInPlace | lbmpong.java:867-873 | the loop leaves each cell its squared deviation and returns exactly their sum |
| Deviation.CalcStddev | lbmpong.java:863-878 | r with r^2 (n-1) <= sum of squared deviations < (r+1)^2 (n-1), about the given mean; divides by zero exactly for one sample |
| Deviation.DeviationIs | lbmpong.java:875-877 | dividing by n-1, rounding down and taking the integer root give that r |
| Deviation.DeviationsExpand | lbmpong.java:867-873 | the sum of squared deviations, multiplied out |
| Deviation.MeanError | lbmpong.java:723 | n*S - (n*sum(x^2) - (sum x)^2) = (sum x - n*m)^2 for any assumed mean m |
| Deviation.TruncatedMeanError | lbmpong.java:723 | with the truncated mean that excess is at least 0 and at most (n-1)^2 |
| Deviation.SumOfSquaresPermute | lbmpong.java:890-891 | sums of squares ignore order |
| Deviation.DeviationsPermute | lbmpong.java:890-891 | the earlier in-place sort does not change the deviations' sum |
| PongReceiver.Receiver.Create | lbmpong.java:681-694 | a fresh receiver has recorded nothing; with collection on, a negative message count throws and gives none |
| PongReceiver.Receiver.CalcLatency | lbmpong.java:822-832 | sum, extremes with indices, and rtt_data describe one round trip more, or nothing changes during warm-up; the index overruns exactly when rtt_data is full |
| PongReceiver.Receiver.Count | lbmpong.java:705-721 | counters after each message and whether it was the last; the index overruns exactly on the first recorded message of a run asked for none |
| PongReceiver.Receiver.CalcMed | lbmpong.java:834-861 | sorts rtt_data in place and returns what the off-by-one indices select |
| PongReceiver.Receiver.PrintRttData | lbmpong.java:880-895 | median then deviation over the sorted array, both those of the values as recorded; throws exactly for fewer than three |
| PongReceiver.Receiver.Report | lbmpong.java:721-735 | average, median and deviation of the last report |
| PongReceiver.Receiver.OnData | lbmpong.java:703-778 | every data message extends the history and leaves the receiver valid, finished with the right figures, crashed exactly when collecting fewer than three messages, or overrun exactly when collecting none |
| PongReceiver.Receiver.Run | lbmpong.java:703-812 | the same over a whole run |
| PongReceiver.RecordedGrows | lbmpong.java:710-777 | warm-up counting: which messages are recorded |
| PongReceiver.RoundTripsAre | lbmpong.java:824 | round trip k is the receive time of message k less the stamp it carries |
| PongReceiver.MeasuredMessages | lbmpong.java:709-735 | the values reported are exactly the round trips of messages ignore .. ignore+msgs-1 |
| PongReceiver.SpreadPermutes | lbmpong.java:890-891 | the deviation printed is that of the recorded order |
| PongReceiver.PositiveRoundTrips | lbmpong.java:722-728 | for positive round trips the reported extremes are exact, at their first indices, and 0 < min <= avg <= max |
| PingPongRun.InvariantStep | um_lat_ping.c:501-568 | every step of every thread keeps the invariant |
| PingPongRun.InvariantHolds | um_lat_ping.c:733-795 | so does every run |
| PingPongRun.AccountLoss | um_lat_ping.c:538-542 | losing a message anywhere in a stream moves it, and only it, to the lost ones |
| PingPongRun.ReflectStep | um_lat_pong.c:374-405 | the reflector keeps it, counting what it receives as it sends it |
| PingPongRun.DeliverStep | um_lat_ping.c:538-561 | the receive callback keeps it |
| PingPongRun.Conservation | um_lat_ping.c:507-561 | in every reachable state each timestamped message sent is exactly one of sampled, in a stream, or lost; samples and streams keep the order of sending; receive counter = samples + late warm-ups since it was zeroed; pong sends what it receives |
| PingPongRun.SamplesAreRoundTrips | um_lat_ping.c:548-554 | every sample is the cast of arrival minus the stamp of a timestamped message of its own, exact below 2^31 ns; samples come in the order sent, and none is a warm-up |
| PingPongRun.PassedMeansComplete | um_lat_ping.c:751-795 | with no warm-up in flight at the reset a passing final check means all n measurements are in the histogram, none lost or to come, even if a transport session began and zeroed the counters meanwhile |
| PingPongRun.NoWarmupsHolds | um_lat_ping.c:734-755 | with no warm-up asked for, no run has one in flight, ever |
| RunCounts.CountersAre | um_lat_ping.c:507-561 | after the last reset or BOS, num_rcv_msgs, num_rx_msgs and num_unrec_loss are the numbers of messages, retransmissions and loss notices delivered since, the samples the measurements delivered since the reset |
| RunCounts.FirstCheck | um_lat_ping.c:764 | the first assertion passes exactly if a message was delivered since |
| RunCounts.Printing | um_lat_ping.c:771 | printing crashes exactly if no measurement was delivered since the reset |
| RunCounts.LossCheck | um_lat_ping.c:794 | the loss assertion passes exactly if no delivery since met a loss notice |
| RunCounts.FinalCheck | um_lat_ping.c:795 | the last assertion passes exactly if n messages were delivered since |
| RunCounts.LossIsFinal | um_lat_ping.c:538-541 | once a loss notice was delivered, no continuation without a reset or BOS gets past the loss assertion |
| RunCounts.AllSent | um_lat_ping.c:734-758 | every warm-up is sent before the measurement begins, and n measurements before main lingers |
| RunCounts.StampIs | um_lat_ping.c:610-631 | each timestamped message carries the clock it was sent at |
| RunCounts.SampleIs | um_lat_ping.c:548-554 | each measurement delivered leaves one sample for good: the cast of the clock at delivery less the stamp it was sent with |
| RunCounts.PongCounts | um_lat_pong.c:341-398 | pong's counters are the messages reflected since its last BOS |
| LateWarmup.CrashIff | um_lat_ping.c:734-771 | for any number of messages: some run passes the first assertion and divides by zero printing an empty histogram if and only if a warm-up was asked for |
| LateWarmup.MisleadIff | um_lat_ping.c:734-795 | some run passes the final check over an incomplete histogram if and only if a warm-up and at least two measurements were asked for |
| LateWarmup.CrashRun | um_lat_ping.c:734-771 | for any number of messages and warm-ups above 0, a run that crashes: all but a late warm-up are lost |
| LateWarmup.MaskedRun | um_lat_ping.c:734-795 | for any such numbers with at least two messages, a run in which a late warm-up stands in for the last measurement, which is lost |
| LateWarmup.MasksLoss | um_lat_ping.c:745-795 | the smallest such run: two messages behind one warm-up |
| LateWarmup.CrashesPrint | um_lat_ping.c:764-771 | the crash with two messages behind one warm-up |
| FlightSize.InvariantStep | um_lat_pong.c:164-212 | every step of sender and callback keeps the invariant |
| FlightSize.InvariantHolds | um_lat_pong.c:164-212 | so does every run, for all three programs |
| FlightSize.BooksAre | um_lat_pong.c:164-212 | outstanding is sends less retirements; every event heeded, and no other, leads to one assertion; every increment is recorded |
| FlightSize.PostIs | um_lat_pong.c:399 | increment k records the counter value it made |
| FlightSize.CounterTracksOutstanding | um_lat_pong.c:381-402 | counter + (1 while a send is uncounted) = outstanding; never below -1, and below 0 exactly in that window with nothing else outstanding |
| FlightSize.AssertionFailsIffC | um_lat_pong.c:183-199 | the C assertion, which re-reads the counter, fails exactly when the check falls in that window |
| FlightSize.AssertionFailsIffJava | UmLatPing.java:329-342 | the Java assertion fails exactly when the event retires the only message out, still uncounted, whatever happens before the check |
| FlightSize.AssertionCanFail | um_lat_pong.c:183-199 | an interleaving that fails it in every program |
| FlightSize.PeakIsMaximum | UmLatPing.java:569-572 | the recorded peak is the largest counter value after an increment in Java, before one in C |
| FlightSize.PeakOfIsMaximum | um_lat_pong.c:399-402 | compare-and-keep yields the maximum |
| FlightSize.JavaPeakIsOneMore | um_lat_ping.c:646-649 | over the same increments the Java peak is one above the C peak once the counter reached 1 |
| XspThread.InvariantHolds | UmLatPing.java:738-760 | flags and program counters agree in every reachable state |
| XspThread.ThrowIsLast | UmLatPing.java:753-756 | an exception ends the process, and nothing else does |
| XspThread.SleepsBetween | UmLatPing.java:743-745 | terminate sleeps between any two looks at _running |
| XspThread.ClearedBudget | UmLatPing.java:748-760 | with the flag clear, every call and step of the runner is paid out of a fixed budget |
| XspThread.NoCallAfterReturn | UmLatPing.java:704-709 | once terminate returns no processEvents call is in progress or ever starts, even if run had not begun |
| XspThread.OneCallAfterClear | UmLatPing.java:738-760 | after the flag is cleared at most one call starts and the runner takes at most four steps, counted over the run |
| XspThread.BoundsAttained | UmLatPing.java:748-760 | both bounds are attained, the flag being cleared between the runner's look at it and its call |
| XspThread.QuietBudget | UmLatPing.java:743-746 | with the runner done, terminate returns after a fixed number of its steps |
| XspThread.ShutdownCompletes | UmLatPing.java:738-760 | a runner that used its budget lets terminate return within two more steps |
| XspThread.SomeStepEnabled | UmLatPing.java:738-760 | no deadlock |
| EventRing.Events.constructor | cprt.c:375-377 | an empty ring shows an empty log |
| EventRing.Events.Event | cprt.c:378-382 | from one thread the ring always shows the newest 1024 events of the log |
| EventRing.Events.DumpEvents | cprt.c:384-396 | the dump is exactly the last min(n, 1024) events, newest first, with their numbers |
| EventRing.Dump | cprt.c:384-396 | the same for any counter and ring that show a log |
| EventRing.ConsistentStep | cprt.c:378-382 | slots and pending tickets stay consistent with the log in every interleaving |
| EventRing.CleanStep | cprt.c:378-382 | a store by a writer that does not lag 1024 tickets leaves every slot to its owner |
| EventRing.PromptRunClean | cprt.c:378-382 | and so over whole runs |
| EventRing.LogIs | cprt.c:378-382 | the unbounded log is the events of the tickets taken, in ticket order |
| EventRing.PromptMeans | cprt.c:378-382 | in a prompt run every store comes before its ticket is 1024 behind |
| EventRing.QuietRingShowsLog | cprt.c:375-396 | if no writer lagged and none is pending the ring agrees with the unbounded log |
| EventRing.DumpQuiet | cprt.c:375-396 | a dump after a prompt, quiet run of any number of threads lists exactly the last min(n, 1024) events taken, newest first |
| EventRing.AnyOrderWhenNoneLags | cprt.c:378-382 | whatever order pending writers finish in |
| EventRing.LaggingWriterOverwrites | cprt.c:378-382 | and if one lags, some order leaves its stale event under a newer event's number |
| EventRing.DrainLast | cprt.c:378-382 | any pending writer may be the last to finish |
| GetOpt.IndexOf | cprt.c:443-451 | strchr: first occurrence or none |
| GetOpt.Scanner.constructor | cprt.c:405-419 | scanning starts behind the program name |
| GetOpt.Scanner.GetOpt | cprt.c:405-492 | result and globals of one call, case by case |
| GetOpt.NextListed | cprt.c:451-491 | for an option string pre + c + post, c usable and not in pre: a colon at the head of post makes c take the rest of its word or the next word, an error if there is none; without a colon the word must end after c |
| GetOpt.NextUnlisted | cprt.c:436-457 | any other option word is an error and stays |
| GetOpt.NextEnds | cprt.c:414-434 | every other word ends the options, and only -- is consumed |
| GetOpt.AllowedIff | cprt.c:437-460 | which options, with or without a value, an option string allows, told from the string |
| GetOpt.Scanner.ReadOptions | um_lat_ping.c:117 | the consumer loop collects the options the scanner returns until the end of options, or stops at the scanner's first error |
| GetOpt.OptionAdvances | cprt.c:459-491 | a call that returns an option moves the cursor by 1 or 2 words, within the line |
| GetOpt.LoopBounded | um_lat_ping.c:117-219 | the loop returns at most as many options as there are words |
| GetOpt.NextOnOption | cprt.c:459-491 | a printed option is read back, its value attached or not |
| GetOpt.ParseRendered | cprt.c:405-492 | any printed list of options is read back from any position |
| GetOpt.RoundTrip | cprt.c:405-492 | any option record, printed with any choice of "-xVAL" or "-x VAL" and an optional "--", parses to itself with cprt_optind at the first positional |
| GetOpt.NextConsumes | cprt.c:459-491 | the words a successful call consumes are a printing of the option it returns |
| GetOpt.AcceptedIsRendering | cprt.c:405-492 | conversely every accepted line is a printing of the options reported |
| SafeAtoi.Atoi | cprt.h:218-279 | the macro's control flow, for every integer type, computes the conversion that the lemmas below describe |
| SafeAtoi.Ranges | cprt.h:221-225 | the ranges of the eight integer types, in figures |
| SafeAtoi.CharacterClasses | cprt.h:229-233 | white space and digits as the library takes them |
| SafeAtoi.WholeTextIff | cprt.h:223-233 | strtoll consumes all of a text exactly when it is white space, sign, prefix and digits, and gives the value spelled |
| SafeAtoi.ScanPrefix | cprt.h:229-233 | what is read is the number the text starts with, up to the first character that is not a digit |
| SafeAtoi.SignedConversionIff | cprt.h:223-248 | conversion into a signed type gives v if and only if the text spells v and v fits |
| SafeAtoi.UnsignedConversionIff | cprt.h:249-275 | into an unsigned type, if and only if it spells a value that is v modulo 2^64, and v fits |
| SafeAtoi.FailureKind | cprt.h:235-248 | failure is by range if the text, or the number it starts with, is too large; otherwise by an invalid number |
| SafeAtoi.DigitsValue | cprt.h:218-279 | the digits of n, in base 10 or 16, have value n |
| SafeAtoi.LeadingZero | cprt.h:229-233 | a leading zero changes no value |
| SafeAtoi.TextConverts | cprt.h:218-279 | a text that spells a value in range converts to it |
| SafeAtoi.PrintThenConvert | cprt.h:218-279 | every value of the type survives decimal text, every nonnegative one 0x text in lower and 0X text in upper case |
| SafeAtoi.SpaceAndSign | cprt.h:231-233 | white space and a sign in front of decimal digits are accepted |
| SafeAtoi.SecondPrefix | cprt.h:226-230 | a second 0x after the one the macro strips is accepted |
| SafeAtoi.MinusOneIsAccepted | cprt.h:249-275 | "-1" converts to 2^64 - 1 |
| PairOption.ParsePair | um_lat_ping.c:129-207 | the 'H' and 'w' cases give what the nonempty comma-separated fields of the text amount to |
| PairOption.FieldsFromStrtok | um_lat_ping.c:134-143 | each strtok_r call yields the first remaining field and keeps the others |
| PairOption.FieldsAre | um_lat_ping.c:134-143 | the fields of a text: none if empty, itself if it has no comma, and those of both sides of any comma |
| PairOption.FirstThree | um_lat_ping.c:134-143 | three calls tell the first two fields and whether there are more |
| PairOption.CutGlues | um_lat_ping.c:134-143 | the pieces between commas, glued, are the text, and hold no comma |
| PairOption.AcceptedIff | um_lat_ping.c:129-207 | a pair is accepted if and only if there are exactly two fields and they spell its two ints (a warm-up also needing a rate) |
| PairOption.NullUsedIff | um_lat_ping.c:138-140 | the null pointer is used if and only if the option is -H and its text has one field, which spells an int |
| PairOption.OneNumberUsesNull | um_lat_ping.c:138-140 | which any single number does, while -w rejects it |
| PairOption.PairRoundTrip | um_lat_ping.c:129-207 | printing "a,b" and parsing it is the identity on all pairs of ints (a warm-up of some messages needing a rate) |

## Left out

- PacedSender.Sender.SendLoop: the clock is a given sequence of readings, assumed monotonic, spanning less than 2^64 ns, and to go on until the last message is due. Readings harmful to the conversions are excluded (`ReadingsFit`); what one iteration then does is in `MachineQuotaIff` and `StallBreaksQuota`, the rest of such a run is not modelled. Time stamps taken inside the loop belong to `PingPongRun`.
- Histogram.Hist.Input: counters and the sample sum are unbounded; their 32- and 64-bit wrap is not modelled.
- Histogram.EdgeFitsIff: says when the edge fits an int; what the program does when it does not is undefined and not modelled.
- Histogram.Hist.Percentile: the percentile is an exact rational, not a double, so rounding of `N*p/100` is not captured.
- Jitter.JitterLoop: the clock is assumed to reach two seconds.
- Jitter.JitterAccounting: assumes durations below 2^31 ns; longer ones are changed by the cast as `CastKeepsIff` says.
- PongReceiver.Receiver.OnData: long sums and squares are unbounded, and the square root is exact rather than through a double. Sending the next message, pausing, BOS, EOS and loss events are not modelled.
- PingPongRun.Conservation: a receive callback, a reset and a check are each one atomic step; duplicate delivery is not modelled, nor the wait for the stores, nor the sleeps.
- FlightSize.CounterTracksOutstanding: the counter is unbounded, and every event retires one message that was sent.
- XspThread.NoCallAfterReturn: volatile accesses are sequentially consistent and `terminate` is called once; what `processEvents` does is not modelled, so that a call returns is an assumption of `ShutdownCompletes`.
- EventRing.QuietRingShowsLog: the event counter's wrap past 2^31 is not modelled, nor a dump that runs while writers are active.
- GetOpt.Scanner.GetOpt: messages printed on errors are not modelled.
- GetOpt.Scanner.ReadOptions: the switch on a returned option is not modelled; in particular -h prints help and exits, and -L, which the option string allows and no case handles, exits as an unrecognized option.
- PairOption.ParsePair: the later checks that bucket count and width are positive are not part of it.
- Calls into the messaging library, sockets and multicast, printing and logging, time-of-day formatting, other platforms' branches, shell scripts.
- The affinity mask decode, the search for the best CPU and the socket loop of um_lat_jitter.c.
- The option switches themselves, including the missing break after -p in um_lat_pong.c.
- The Java copies of the histogram, send loop and receive callback, and UmLatPong.java, which repeat the C logic.
- CPRT_DIFF_TV, which no tool uses.
- lbmpong's registration and recovery callbacks.
