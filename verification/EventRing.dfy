/** The event ring of cprt.c: `cprt_event` takes a ticket atomically and writes its slot later, so writers
    on different threads may overtake each other; `cprt_dump_events` lists the ring newest first. */
module EventRing {

  const MAX_EVENTS := 1024

  /** The ring shows the log: each of the last MAX_EVENTS tickets finds its own event in its slot. */
  ghost predicate Shows(ring: seq<int>, log: seq<int>) {
    && |ring| == MAX_EVENTS
    && forall t :: 0 <= t < |log| && |log| - t <= MAX_EVENTS ==> ring[t % MAX_EVENTS] == log[t]
  }

  /** The last `count` entries of the log with their numbers, newest first. */
  function Newest(log: seq<int>, count: nat): (lines: seq<(int, int)>)
    requires count <= |log|
    ensures |lines| == count
    ensures forall i :: 0 <= i < count ==> lines[i] == (|log| - 1 - i, log[|log| - 1 - i])
  {
    seq(count, i requires 0 <= i < count => (|log| - 1 - i, log[|log| - 1 - i]))
  }

  function Kept(n: nat): nat {
    if n < MAX_EVENTS then n else MAX_EVENTS
  }

  /** The lines are the last 1024 entries, or all if there are fewer, newest first, with their numbers. */
  ghost predicate Lists(lines: seq<(int, int)>, log: seq<int>) {
    && (|log| <= 1024 ==> |lines| == |log|) && (|log| > 1024 ==> |lines| == 1024)
    && forall i :: 0 <= i < |lines| && i < |log| ==> lines[i] == (|log| - 1 - i, log[|log| - 1 - i])
  }

  /** Used from one thread. */
  class Events {
    var numEvents: int
    const events: array<int>
    ghost var log: seq<int>

    ghost predicate Valid()
      reads this, events
    {
      events.Length == MAX_EVENTS && numEvents == |log| && Shows(events[..], log)
    }

    constructor ()
      ensures Valid() && fresh(events) && log == []
    {
      numEvents := 0;
      events := new int[MAX_EVENTS];
      log := [];
    }

    /** cprt_event */
    method Event(e: int)
      requires Valid()
      modifies this, events
      ensures Valid() && log == old(log) + [e]
    {
      numEvents := numEvents + 1;
      events[(numEvents - 1) % MAX_EVENTS] := e;
      log := log + [e];
    }

    /** cprt_dump_events, which is only called once something was logged. */
    method DumpEvents() returns (lines: seq<(int, int)>)
      requires Valid() && log != []
      ensures lines == Newest(log, Kept(|log|))
      ensures Lists(lines, log)
    {
      lines := Dump(numEvents, events[..], log);
    }
  }

  /** The loop of cprt_dump_events over the counter and ring it finds. */
  method Dump(n: int, ring: seq<int>, ghost log: seq<int>) returns (lines: seq<(int, int)>)
    requires n == |log| >= 1 && Shows(ring, log)
    ensures lines == Newest(log, Kept(n))
    ensures Lists(lines, log)
  {
    lines := [];
    for i := 1 to MAX_EVENTS + 1
      invariant i - 1 <= n && (i > 1 ==> i - 1 < n)
      invariant lines == Newest(log, i - 1)
    {
      lines := lines + [(n - i, ring[(n - i) % MAX_EVENTS])];
      if n == i {
        break;
      }
    }
  }

  /** Any number of threads: `pending` maps each ticket taken but not yet written to its event.  The books
      beside the program's counter and ring: the log by ticket, and which ticket wrote each slot last. */
  datatype State = State(num: nat, ring: seq<int>, pending: map<nat, int>, log: seq<int>, writer: seq<int>)

  datatype Step = Take(event: int) | Write(ticket: nat)

  function Initial(ring: seq<int>): State
    requires |ring| == MAX_EVENTS
  {
    State(0, ring, map[], [], seq(MAX_EVENTS, _ => -1))
  }

  predicate Enabled(s: State, step: Step) {
    && |s.ring| == MAX_EVENTS && |s.writer| == MAX_EVENTS
    && (step.Write? ==> step.ticket in s.pending)
  }

  function Apply(s: State, step: Step): State
    requires Enabled(s, step)
  {
    match step
    case Take(e) => s.(num := s.num + 1, pending := s.pending[s.num := e], log := s.log + [e])
    case Write(t) =>
      s.(ring := s.ring[t % MAX_EVENTS := s.pending[t]], writer := s.writer[t % MAX_EVENTS := t],
         pending := s.pending - {t})
  }

  predicate Run(s: State, steps: seq<Step>)
    decreases |steps|
  {
    steps == [] || (Enabled(s, steps[0]) && Run(Apply(s, steps[0]), steps[1..]))
  }

  function After(s: State, steps: seq<Step>): State
    requires Run(s, steps)
    decreases |steps|
  {
    if steps == [] then s else After(Apply(s, steps[0]), steps[1..])
  }

  /** So many tickets were taken after this one that its slot belongs to a newer event. */
  predicate Lags(s: State, t: nat) {
    s.num - 1 - t >= MAX_EVENTS
  }

  /** No writer of the run stored its event while lagging. */
  predicate Prompt(s: State, steps: seq<Step>)
    requires Run(s, steps)
    decreases |steps|
  {
    steps == [] ||
    ((steps[0].Write? ==> !Lags(s, steps[0].ticket)) && Prompt(Apply(s, steps[0]), steps[1..]))
  }

  /** Books and program agree, in every reachable state. */
  ghost predicate Consistent(s: State) {
    && |s.ring| == MAX_EVENTS && |s.writer| == MAX_EVENTS && |s.log| == s.num
    && (forall t :: t in s.pending ==> t < s.num && s.pending[t] == s.log[t])
    && (forall k :: 0 <= k < MAX_EVENTS && s.writer[k] >= 0 ==>
          s.writer[k] < s.num && s.writer[k] % MAX_EVENTS == k && s.ring[k] == s.log[s.writer[k]])
  }

  /** Every ticket that still owns its slot has written it last, or has yet to write. */
  ghost predicate Clean(s: State)
    requires |s.writer| == MAX_EVENTS
  {
    forall t: nat :: t < s.num && !Lags(s, t) ==> t in s.pending || s.writer[t % MAX_EVENTS] == t
  }

  lemma ConsistentStep(s: State, step: Step)
    requires Consistent(s) && Enabled(s, step)
    ensures Consistent(Apply(s, step))
  {
  }

  lemma CleanStep(s: State, step: Step)
    requires Consistent(s) && Clean(s) && Enabled(s, step)
    requires step.Write? ==> !Lags(s, step.ticket)
    ensures Clean(Apply(s, step))
  {
  }

  lemma {:induction false} PromptRunClean(s: State, steps: seq<Step>)
    requires Consistent(s) && Run(s, steps)
    ensures Consistent(After(s, steps))
    ensures Clean(s) && Prompt(s, steps) ==> Clean(After(s, steps))
    decreases |steps|
  {
    if steps == [] {
    } else {
      ConsistentStep(s, steps[0]);
      if Clean(s) && Prompt(s, steps) {
        CleanStep(s, steps[0]);
      }
      PromptRunClean(Apply(s, steps[0]), steps[1..]);
    }
  }

  /** The events of the tickets taken, in order. */
  function Taken(steps: seq<Step>): seq<int> {
    if steps == [] then [] else (if steps[0].Take? then [steps[0].event] else []) + Taken(steps[1..])
  }

  lemma {:induction false} LogIs(s: State, steps: seq<Step>)
    requires Run(s, steps)
    ensures After(s, steps).log == s.log + Taken(steps)
    decreases |steps|
  {
    if steps == [] {
    } else {
      LogIs(Apply(s, steps[0]), steps[1..]);
      var first := if steps[0].Take? then [steps[0].event] else [];
      assert Apply(s, steps[0]).log == s.log + first;
      assert (s.log + first) + Taken(steps[1..]) == s.log + (first + Taken(steps[1..]));
    }
  }

  /** Promptness, write by write. */
  lemma {:induction false} PromptMeans(s: State, before: seq<Step>, t: nat, after: seq<Step>)
    requires Run(s, before + ([Write(t)] + after)) && Prompt(s, before + ([Write(t)] + after))
    ensures Run(s, before) && After(s, before).num - 1 - t < 1024
    decreases |before|
  {
    var steps := before + ([Write(t)] + after);
    if before == [] {
      assert steps[0] == Write(t);
    } else {
      assert steps[0] == before[0] && steps[1..] == before[1..] + ([Write(t)] + after);
      PromptMeans(Apply(s, before[0]), before[1..], t, after);
    }
  }

  /** Agreement with the unbounded log: when no writer lagged and none is pending, ring and log agree, so
      that a dump lists exactly the newest events. */
  lemma QuietRingShowsLog(ring: seq<int>, steps: seq<Step>)
    requires |ring| == MAX_EVENTS && Run(Initial(ring), steps) && Prompt(Initial(ring), steps)
    requires After(Initial(ring), steps).pending == map[]
    ensures var s := After(Initial(ring), steps); s.num == |s.log| && s.log == Taken(steps) && Shows(s.ring, s.log)
  {
    PromptRunClean(Initial(ring), steps);
    LogIs(Initial(ring), steps);
  }

  /** So a dump made then lists the newest events taken. */
  method DumpQuiet(ring: seq<int>, steps: seq<Step>) returns (lines: seq<(int, int)>)
    requires |ring| == MAX_EVENTS && Run(Initial(ring), steps) && Prompt(Initial(ring), steps)
    requires After(Initial(ring), steps).pending == map[] && Taken(steps) != []
    ensures Lists(lines, Taken(steps))
  {
    QuietRingShowsLog(ring, steps);
    var s := After(Initial(ring), steps);
    lines := Dump(s.num, s.ring, s.log);
  }

  /** The ticket that owns the slot of t among those taken so far. */
  function Owner(num: nat, t: nat): (u: nat)
    requires t < num
    ensures t <= u < num && u % MAX_EVENTS == t % MAX_EVENTS && num - 1 - u < MAX_EVENTS
  {
    var d := num - 1 - t;
    assert d == d / MAX_EVENTS * MAX_EVENTS + d % MAX_EVENTS;
    num - 1 - d % MAX_EVENTS
  }

  lemma RunExtends(s: State, step: Step, rest: seq<Step>) returns (steps: seq<Step>)
    requires Enabled(s, step) && Run(Apply(s, step), rest)
    ensures steps == [step] + rest && Run(s, steps) && After(s, steps) == After(Apply(s, step), rest)
  {
    steps := [step] + rest;
    assert steps[1..] == rest;
  }

  /** The others write first, t last. */
  lemma {:induction false} DrainLast(s: State, t: nat) returns (steps: seq<Step>)
    requires Consistent(s) && t in s.pending
    ensures forall i :: 0 <= i < |steps| ==> steps[i].Write?
    ensures Run(s, steps)
    ensures var s' := After(s, steps);
      && Consistent(s') && s'.pending == map[] && s'.num == s.num && s'.log == s.log
      && s'.writer[t % MAX_EVENTS] == t
    decreases |s.pending|
  {
    if u :| u in s.pending && u != t {
      var s1 := Apply(s, Write(u));
      ConsistentStep(s, Write(u));
      assert |s.pending.Keys - {u}| < |s.pending.Keys|;
      assert s1.pending.Keys == s.pending.Keys - {u};
      steps := DrainLast(s1, t);
      steps := RunExtends(s, Write(u), steps);
    } else {
      ConsistentStep(s, Write(t));
      assert Apply(s, Write(t)).pending == map[];
      steps := [];
      steps := RunExtends(s, Write(t), steps);
    }
  }

  lemma {:induction false} WritesKeepLag(s: State, steps: seq<Step>)
    requires Run(s, steps) && forall i :: 0 <= i < |steps| ==> steps[i].Write?
    requires forall t: nat :: t in s.pending ==> !Lags(s, t)
    ensures Prompt(s, steps)
    ensures After(s, steps).num == s.num && After(s, steps).log == s.log
    decreases |steps|
  {
    if steps == [] {
    } else {
      WritesKeepLag(Apply(s, steps[0]), steps[1..]);
    }
  }

  /** Without new tickets, whatever order the pending writers finish in, the ring comes out right if none
      of them lags. */
  lemma AnyOrderWhenNoneLags(s: State, steps: seq<Step>)
    requires Consistent(s) && Clean(s) && Run(s, steps) && forall i :: 0 <= i < |steps| ==> steps[i].Write?
    requires After(s, steps).pending == map[]
    requires forall t: nat :: t in s.pending ==> !Lags(s, t)
    ensures Shows(After(s, steps).ring, s.log)
  {
    WritesKeepLag(s, steps);
    PromptRunClean(s, steps);
  }

  /** And if one lags, some order goes wrong: the dump then shows its stale event under the number of the
      newer event that owns the slot. */
  lemma LaggingWriterOverwrites(s: State, t: nat) returns (steps: seq<Step>)
    requires Consistent(s) && t in s.pending && Lags(s, t)
    ensures forall i :: 0 <= i < |steps| ==> steps[i].Write?
    ensures Run(s, steps) && After(s, steps).pending == map[]
    ensures |After(s, steps).ring| == MAX_EVENTS
    ensures var u := Owner(s.num, t);
      t < u && After(s, steps).ring[u % MAX_EVENTS] == s.log[t]
    ensures s.log[t] != s.log[Owner(s.num, t)] ==> !Shows(After(s, steps).ring, s.log)
  {
    steps := DrainLast(s, t);
  }
}
