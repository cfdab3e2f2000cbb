/**
 * The sampler's control flags and its worker loop body (`processLoop`) as a
 * step function. The clock is an input: every clock read up to the start
 * of sampling in one tick gives `now`, as do the one-shot step's reads
 * (its `lastReportAt` and its report's title), and the read at the end of
 * the tick gives `finish`. The thread snapshots each sampling pass sees are inputs
 * too; sleeping, interrupts and the worker thread itself are not modelled.
 */
module Engine {
  import opened Wrappers
  import opened SortedMap
  import opened Capture
  import opened Report
  import opened ThreadNames

  /** The sampler's fields that the loop and the public controls read and write. */
  datatype Sampler = Sampler(
    cfg: CaptureConfig,
    names: Manipulator,
    periodMillis: int,
    intervalMillis: int,
    reportZeroTime: bool,
    store: Store,
    active: bool,
    started: bool,
    printRequested: bool,
    sampleOnce: bool,
    lastReportAt: int,
    prevTime: int,
    sampleDuration: int,
    log: seq<LogEntry>)

  const DefaultPeriodMillis := 100
  const DefaultIntervalMillis := 900000

  /** A sampler as constructed at time `now`: active, not started, nothing requested. */
  function New(now: int): (s: Sampler)
    ensures s.active && !s.started && !s.printRequested && !s.sampleOnce
    ensures s.lastReportAt == now && |s.store| == 0 && |s.log| == 0
    ensures s.cfg.prefixes == DefaultPrefixes && s.cfg.allowlist == {} && s.cfg.skipDaemon
    ensures s.periodMillis == DefaultPeriodMillis && s.intervalMillis == DefaultIntervalMillis
    ensures s.names.patterns.None? && !s.reportZeroTime
  {
    Sampler(CaptureConfig(DefaultPrefixes, {}, true), Unset, DefaultPeriodMillis, DefaultIntervalMillis,
            false, [], true, false, false, false, now, 0, 0, [])
  }

  /** The loop runs only after `init` has installed the name patterns and the worker has started. */
  ghost predicate Running(s: Sampler) {
    s.started && s.names.patterns.Some?
  }

  /** `init` followed by the first lines of `run`: patterns installed, worker started, timing reset. */
  function Start(s: Sampler, now: int): (r: Sampler)
    ensures Running(r)
    ensures r.names == Init(s.names)
    ensures r == s.(names := r.names, started := true, prevTime := now, sampleDuration := 0)
  {
    s.(names := Init(s.names), started := true, prevTime := now, sampleDuration := 0)
  }

  /** The group a thread falls into, through the name manipulator. */
  function GroupNameOf(m: Manipulator, t: ThreadSnapshot): (r: Option<string>)
    ensures r.Some? <==> GetManipulatedThreadName(m, t.name).Canonical?
    ensures r.Some? ==> r.value == GetManipulatedThreadName(m, t.name).name
  {
    match GetManipulatedThreadName(m, t.name)
    case Canonical(n) => Some(n)
    case _ => None
  }

  function NameOf(m: Manipulator): Resolver {
    t => GroupNameOf(m, t)
  }

  // ---------------------------------------------------------------------
  // Public controls
  // ---------------------------------------------------------------------

  /** `setReportFrequencySeconds`: the interval in milliseconds. */
  function SetReportFrequencySeconds(s: Sampler, seconds: int): (r: Sampler)
    ensures r.intervalMillis == 1000 * seconds
    ensures r == s.(intervalMillis := r.intervalMillis)
  {
    s.(intervalMillis := 1000 * seconds)
  }

  /** `pauseSampling`. */
  function Pause(s: Sampler): (r: Sampler)
    ensures !r.active && r == s.(active := false)
  {
    s.(active := false)
  }

  /** `resumeSampling` at time `now`: the next report interval starts now. */
  function Resume(s: Sampler, now: int): (r: Sampler)
    ensures r.active && r.lastReportAt == now
    ensures r == s.(active := true, lastReportAt := now)
  {
    s.(active := true, lastReportAt := now)
  }

  /** `printReport`: only asks the loop for a report. */
  function PrintReport(s: Sampler): (r: Sampler)
    ensures r.printRequested && r == s.(printRequested := true)
  {
    s.(printRequested := true)
  }

  /** What `sampleOnceAndPrint` does: sets the one-shot flag, or throws. */
  datatype Call = Accepted(s: Sampler) | SequenceError

  /** `sampleOnceAndPrint`: allowed only on a started, paused sampler. */
  function SampleOnceAndPrint(s: Sampler): (r: Call)
    ensures r.SequenceError? <==> s.active || !s.started
    ensures r.Accepted? ==> r.s.sampleOnce && r.s == s.(sampleOnce := true)
  {
    if s.active || !s.started then SequenceError else Accepted(s.(sampleOnce := true))
  }

  // ---------------------------------------------------------------------
  // One tick of the loop
  // ---------------------------------------------------------------------

  /** The clock reads and the thread snapshots of one tick. */
  datatype TickInput = TickInput(now: int, finish: int, threads: seq<ThreadSnapshot>, onceThreads: seq<ThreadSnapshot>)

  /** How far a tick got: to its end, or to an exception out of the report. */
  datatype Step = Continued(s: Sampler) | Threw(s: Sampler, fault: Fault)

  /** The settings and lifecycle flags a tick never changes. */
  ghost predicate SameSetup(a: Sampler, b: Sampler) {
    && a.cfg == b.cfg && a.names == b.names && a.active == b.active && a.started == b.started
    && a.periodMillis == b.periodMillis && a.intervalMillis == b.intervalMillis && a.reportZeroTime == b.reportZeroTime
  }

  /** A report is due when the interval is positive and more than a whole interval has passed since the last one. */
  predicate ReportDue(intervalMillis: int, lastReportAt: int, now: int) {
    intervalMillis > 0 && now > intervalMillis + lastReportAt
  }

  /**
   * `printReportNow` on the sampler, for the interval `[from, now]`: the
   * report's outputs go to the log; the store is cleared unless the
   * rendering throws.
   */
  function PrintNow(s: Sampler, from: int, now: int): (r: Step)
    ensures r.s == s.(store := r.s.store, log := r.s.log)
    ensures r.s.log == s.log + PrintReportNow(s.store, s.reportZeroTime, from, now).log
    ensures r.Threw? <==> PrintReportNow(s.store, s.reportZeroTime, from, now).fault.Some?
    ensures r.Threw? ==> r.s.store == s.store && Some(r.fault) == PrintReportNow(s.store, s.reportZeroTime, from, now).fault
    ensures r.Continued? ==> |r.s.store| == 0
    ensures |s.store| == 0 ==> r == Continued(s)
  {
    var run := PrintReportNow(s.store, s.reportZeroTime, from, now);
    var s1 := s.(store := run.store, log := s.log + run.log);
    if run.fault.Some? then Threw(s1, run.fault.value) else Continued(s1)
  }

  /** The report part of `processLoop`: a due report raises the request; a requested report is printed, then the request is cleared. */
  function ReportStep(s: Sampler, now: int): (r: Step)
    ensures SameSetup(s, r.s) && s.log <= r.s.log && r.s.sampleOnce == s.sampleOnce
  {
    var requested := s.printRequested || ReportDue(s.intervalMillis, s.lastReportAt, now);
    var s1 := s.(printRequested := requested);
    if !requested then Continued(s1)
    else
      match PrintNow(s1, s.lastReportAt, now)
      case Threw(s2, f) => Threw(s2, f)
      case Continued(s2) => Continued(s2.(printRequested := false, lastReportAt := now))
  }

  /** The duration credited to the active pass: the time since the end of the last tick plus that tick's sampling time. */
  function ActiveDuration(s: Sampler, now: int): int {
    now - s.prevTime + s.sampleDuration
  }

  /** The sampling part of `processLoop`: an active sampler samples every thread it is shown. */
  function ActiveStep(s: Sampler, now: int, threads: seq<ThreadSnapshot>): (r: Sampler)
    ensures SameSetup(s, r) && r.log == s.log
    ensures !s.active ==> r == s
  {
    if s.active then s.(store := SamplePass(s.cfg, NameOf(s.names), s.store, threads, ActiveDuration(s, now)))
    else s
  }

  /** The one-shot part of `processLoop`: the one-shot pass samples one period's worth, restarts the interval, prints, and clears the flag. */
  function OnceStep(s: Sampler, now: int, threads: seq<ThreadSnapshot>): (r: Step)
    ensures SameSetup(s, r.s) && s.log <= r.s.log
    ensures !s.sampleOnce ==> r == Continued(s)
  {
    if !s.sampleOnce then Continued(s)
    else
      var s1 := s.(store := SamplePass(s.cfg, NameOf(s.names), s.store, threads, s.periodMillis), lastReportAt := now);
      match PrintNow(s1, now, now)
      case Threw(s2, f) => Threw(s2, f)
      case Continued(s2) => Continued(s2.(sampleOnce := false))
  }

  /** One call of `processLoop` at time `now`: it ends normally or with the exception a report threw. */
  function ProcessLoop(s: Sampler, input: TickInput): (r: Step)
    ensures SameSetup(s, r.s) && s.log <= r.s.log
  {
    match ReportStep(s, input.now)
    case Threw(a, f) => Threw(a, f)
    case Continued(a) =>
      var b := ActiveStep(a, input.now, input.threads);
      match OnceStep(b, input.now, input.onceThreads)
      case Threw(c, f) => Threw(c, f)
      case Continued(c) => Continued(c.(sampleDuration := input.finish - input.now, prevTime := input.finish))
  }

  /** One turn of the worker loop: `processLoop`, with an exception out of it logged and the loop going on. */
  function Tick(s: Sampler, input: TickInput): (r: Sampler)
    requires Running(s)
    ensures Running(r) && SameSetup(s, r) && s.log <= r.log
  {
    match ProcessLoop(s, input)
    case Threw(a, f) => a.(log := a.log + [Failure(f)])
    case Continued(c) => c
  }

  // ---------------------------------------------------------------------
  // Properties of the loop
  // ---------------------------------------------------------------------

  /** `setReportFrequencySeconds(n)` with `n <= 0` turns periodic reports off; otherwise one is due once `n` seconds have passed. */
  lemma ReportFrequency(s: Sampler, seconds: int, now: int)
    ensures var r := SetReportFrequencySeconds(s, seconds);
            ReportDue(r.intervalMillis, r.lastReportAt, now) <==> seconds > 0 && now - s.lastReportAt > 1000 * seconds
  {
  }

  /** After `resumeSampling` at `now` no report is due for a whole interval. */
  lemma ResumeDefersReport(s: Sampler, now: int, later: int)
    requires later <= now + s.intervalMillis
    ensures !ReportDue(Resume(s, now).intervalMillis, Resume(s, now).lastReportAt, later)
  {
  }

  /** A report step always leaves the request cleared and the interval restarted, unless the report throws. */
  lemma ReportStepOutcome(s: Sampler, now: int)
    ensures var requested := s.printRequested || ReportDue(s.intervalMillis, s.lastReportAt, now);
            match ReportStep(s, now)
            case Continued(a) =>
              && !a.printRequested
              && (requested ==> a.lastReportAt == now && |a.store| == 0
                                && a.log == s.log + PrintReportNow(s.store, s.reportZeroTime, s.lastReportAt, now).log)
              && (!requested ==> a == s)
              && a.active == s.active && a.sampleOnce == s.sampleOnce
              && a.prevTime == s.prevTime && a.sampleDuration == s.sampleDuration
              && a.cfg == s.cfg && a.names == s.names
            case Threw(a, f) =>
              && requested && a.printRequested
              && a.store == s.store && a.lastReportAt == s.lastReportAt
              && a.log == s.log + PrintReportNow(s.store, s.reportZeroTime, s.lastReportAt, now).log
              && Some(f) == PrintReportNow(s.store, s.reportZeroTime, s.lastReportAt, now).fault
              && a.active == s.active && a.sampleOnce == s.sampleOnce
              && a.prevTime == s.prevTime && a.sampleDuration == s.sampleDuration
  {
  }

  /** A paused tick with no one-shot request does not sample: the store is kept, or cleared by a report. */
  lemma PausedTickDoesNotSample(s: Sampler, input: TickInput)
    requires Running(s) && !s.active && !s.sampleOnce
    ensures Tick(s, input).store == s.store || |Tick(s, input).store| == 0
    ensures |Tick(s, input).store| == 0 && |s.store| > 0 ==> Tick(s, input).lastReportAt == input.now
  {
    ReportStepOutcome(s, input.now);
  }

  /** A report that throws does not clear its request: the next tick prints the same store again and throws again. */
  lemma CrashRepeats(s: Sampler, input: TickInput, next: TickInput)
    requires Running(s)
    requires s.printRequested || ReportDue(s.intervalMillis, s.lastReportAt, input.now)
    requires PrintReportNow(s.store, s.reportZeroTime, s.lastReportAt, input.now).fault.Some?
    ensures var s1 := Tick(s, input);
            && s1.printRequested && s1.store == s.store && s1.lastReportAt == s.lastReportAt
            && s1.log[|s1.log| - 1] == Failure(PrintReportNow(s.store, s.reportZeroTime, s.lastReportAt, input.now).fault.value)
            && var s2 := Tick(s1, next);
               && s2.printRequested && s2.store == s.store && s2.lastReportAt == s.lastReportAt
               && s2.log[|s2.log| - 1] == s1.log[|s1.log| - 1]
  {
    ReportStepOutcome(s, input.now);
    var s1 := Tick(s, input);
    ReportStepOutcome(s1, next.now);
    FaultIgnoresInterval(s.store, s.reportZeroTime, s.lastReportAt, input.now, next.now);
  }

  /** Whether a report throws, and which fault, does not depend on the interval it reports. */
  lemma FaultIgnoresInterval(store: Store, reportZeroTime: bool, from: int, till: int, till2: int)
    ensures PrintReportNow(store, reportZeroTime, from, till).fault == PrintReportNow(store, reportZeroTime, from, till2).fault
  {
  }

  /**
   * What a tick of an active sampler with no one-shot request samples: the
   * threads it is shown, credited with the time since the last tick ended
   * plus that tick's sampling time, into the store as it was, or into an
   * empty store when a report went out first. A report that throws ends
   * the tick before anything is sampled, and the fault is logged.
   */
  lemma ActiveTickSamples(s: Sampler, input: TickInput)
    requires Running(s) && s.active && !s.sampleOnce
    ensures var requested := s.printRequested || ReportDue(s.intervalMillis, s.lastReportAt, input.now);
            var report := PrintReportNow(s.store, s.reportZeroTime, s.lastReportAt, input.now);
            var duration := input.now - s.prevTime + s.sampleDuration;
            var r := Tick(s, input);
            && (!requested ==>
                  && r.store == SamplePass(s.cfg, NameOf(s.names), s.store, input.threads, duration)
                  && r.log == s.log && r.lastReportAt == s.lastReportAt)
            && (requested && report.fault.None? ==>
                  && r.store == SamplePass(s.cfg, NameOf(s.names), [], input.threads, duration)
                  && r.log == s.log + report.log && r.lastReportAt == input.now)
            && (requested && report.fault.Some? ==>
                  && r.store == s.store
                  && r.log == s.log + report.log + [Failure(report.fault.value)])
  {
    ReportStepOutcome(s, input.now);
  }

  /**
   * Each completed tick credits the next active pass with exactly the time
   * between the two ticks' sampling starts: when no report is due, the next
   * tick adds its threads to the store with that duration.
   */
  lemma ActiveDurationIsTickGap(s: Sampler, input: TickInput, next: TickInput)
    requires Running(s) && ProcessLoop(s, input).Continued?
    requires var s1 := Tick(s, input);
             s1.active && !s1.sampleOnce && !s1.printRequested && !ReportDue(s1.intervalMillis, s1.lastReportAt, next.now)
    ensures ActiveDuration(Tick(s, input), next.now) == next.now - input.now
    ensures Tick(Tick(s, input), next).store
            == SamplePass(s.cfg, NameOf(s.names), Tick(s, input).store, next.threads, next.now - input.now)
  {
    var s1 := Tick(s, input);
    TickTiming(s, input);
    ActiveTickSamples(s1, next);
  }

  /** A completed tick records where it ended and how long its sampling took. */
  lemma TickTiming(s: Sampler, input: TickInput)
    requires Running(s) && ProcessLoop(s, input).Continued?
    ensures Tick(s, input).prevTime == input.finish && Tick(s, input).sampleDuration == input.finish - input.now
  {
  }

  // ---------------------------------------------------------------------
  // Stacks of plain frames never make the loop throw
  // ---------------------------------------------------------------------

  /** The store as sampling keeps it for plain frames: everything in key order, every key shaped. */
  ghost predicate Healthy(store: Store) {
    WellFormedStore(store) && ShapedStore(store)
  }

  ghost predicate PlainThreads(threads: seq<ThreadSnapshot>) {
    forall k :: 0 <= k < |threads| ==> PlainFrom(threads[k].stack, 0)
  }

  lemma EmptyStoreIsHealthy()
    ensures Healthy([])
  {
  }

  lemma PassKeepsHealthy(cfg: CaptureConfig, resolve: Resolver, store: Store, threads: seq<ThreadSnapshot>, duration: int)
    requires Healthy(store) && PlainThreads(threads)
    ensures Healthy(SamplePass(cfg, resolve, store, threads, duration))
  {
    PassMethodTime(cfg, resolve, store, threads, duration, "");
    PassKeepsShape(cfg, resolve, store, threads, duration);
  }

  /** A report of a healthy store does not throw, and leaves an empty store. */
  lemma PrintNowHealthy(s: Sampler, from: int, now: int)
    requires Healthy(s.store)
    ensures PrintNow(s, from, now).Continued? && |PrintNow(s, from, now).s.store| == 0
  {
    ReportNeverFails(s.store, s.reportZeroTime, from, now);
  }

  lemma ReportStepHealthy(s: Sampler, now: int)
    requires Healthy(s.store)
    ensures ReportStep(s, now).Continued? && Healthy(ReportStep(s, now).s.store)
  {
    PrintNowHealthy(s.(printRequested := true), s.lastReportAt, now);
    EmptyStoreIsHealthy();
  }

  lemma OnceStepHealthy(s: Sampler, now: int, threads: seq<ThreadSnapshot>)
    requires Healthy(s.store) && PlainThreads(threads)
    ensures OnceStep(s, now, threads).Continued? && Healthy(OnceStep(s, now, threads).s.store)
  {
    if s.sampleOnce {
      PassKeepsHealthy(s.cfg, NameOf(s.names), s.store, threads, s.periodMillis);
      var s1 := s.(store := SamplePass(s.cfg, NameOf(s.names), s.store, threads, s.periodMillis), lastReportAt := now);
      PrintNowHealthy(s1, now, now);
      EmptyStoreIsHealthy();
    }
  }

  /** A tick over stacks of plain frames completes and keeps the store healthy. */
  lemma TickHealthy(s: Sampler, input: TickInput)
    requires Running(s) && Healthy(s.store)
    requires PlainThreads(input.threads) && PlainThreads(input.onceThreads)
    ensures ProcessLoop(s, input).Continued?
    ensures Healthy(Tick(s, input).store)
  {
    ReportStepHealthy(s, input.now);
    var a := ReportStep(s, input.now).s;
    if a.active {
      PassKeepsHealthy(a.cfg, NameOf(a.names), a.store, input.threads, ActiveDuration(a, input.now));
    }
    OnceStepHealthy(ActiveStep(a, input.now, input.threads), input.now, input.onceThreads);
  }

  /** Runs the loop over a series of ticks. */
  function Ticks(s: Sampler, inputs: seq<TickInput>): (r: Sampler)
    requires Running(s)
    ensures Running(r) && SameSetup(s, r) && s.log <= r.log
    decreases |inputs|
  {
    if |inputs| == 0 then s else Ticks(Tick(s, inputs[0]), inputs[1..])
  }

  /** No tick of the series throws. */
  ghost predicate NeverThrows(s: Sampler, inputs: seq<TickInput>)
    requires Running(s)
    decreases |inputs|
  {
    |inputs| == 0 || (ProcessLoop(s, inputs[0]).Continued? && NeverThrows(Tick(s, inputs[0]), inputs[1..]))
  }

  /**
   * From a healthy store (an empty one included), a loop shown only stacks
   * of plain frames never throws, whatever the clock and the flags do.
   */
  lemma {:induction false} PlainStacksNeverThrow(s: Sampler, inputs: seq<TickInput>)
    requires Running(s) && Healthy(s.store)
    requires forall i :: 0 <= i < |inputs| ==> PlainThreads(inputs[i].threads) && PlainThreads(inputs[i].onceThreads)
    ensures NeverThrows(s, inputs)
    ensures Healthy(Ticks(s, inputs).store)
    decreases |inputs|
  {
    if |inputs| > 0 {
      TickHealthy(s, inputs[0]);
      assert forall i :: 0 <= i < |inputs[1..]| ==> inputs[1..][i] == inputs[i + 1];
      PlainStacksNeverThrow(Tick(s, inputs[0]), inputs[1..]);
    }
  }

  // ---------------------------------------------------------------------
  // Reports and the one-shot pass
  // ---------------------------------------------------------------------

  /**
   * A paused sampler whose requested report went out prints nothing on the
   * next request: the store is empty, so the second report has no title
   * and no records, and the request is cleared again.
   */
  lemma SecondReportPrintsNothing(s: Sampler, input: TickInput, next: TickInput)
    requires Running(s) && !s.active && !s.sampleOnce
    requires s.printRequested || ReportDue(s.intervalMillis, s.lastReportAt, input.now)
    requires ProcessLoop(s, input).Continued?
    ensures |Tick(s, input).store| == 0 && !Tick(s, input).printRequested && Tick(s, input).lastReportAt == input.now
    ensures var s2 := Tick(PrintReport(Tick(s, input)), next);
            s2.log == Tick(s, input).log && |s2.store| == 0 && !s2.printRequested
  {
    ReportStepOutcome(s, input.now);
    var s1 := PrintReport(Tick(s, input));
    ReportStepOutcome(s1, next.now);
  }

  /**
   * `pauseSampling` then `sampleOnceAndPrint` on a started sampler: the
   * next tick samples once, restarts the interval at its `now`, prints
   * and clears both the store and the one-shot flag, and the sampler stays
   * paused.
   */
  lemma {:induction false} OneShotAfterPause(s: Sampler, input: TickInput)
    requires Running(s) && Healthy(s.store)
    requires PlainThreads(input.threads) && PlainThreads(input.onceThreads)
    ensures SampleOnceAndPrint(Pause(s)).Accepted?
    ensures var s1 := Tick(SampleOnceAndPrint(Pause(s)).s, input);
            && !s1.sampleOnce && !s1.active && s1.lastReportAt == input.now && |s1.store| == 0
    ensures var s1 := Tick(SampleOnceAndPrint(Pause(s)).s, input);
            var requested := s.printRequested || ReportDue(s.intervalMillis, s.lastReportAt, input.now);
            var once := SamplePass(s.cfg, NameOf(s.names), if requested then [] else s.store, input.onceThreads, s.periodMillis);
            s1.log == s.log
                      + (if requested then PrintReportNow(s.store, s.reportZeroTime, s.lastReportAt, input.now).log else [])
                      + PrintReportNow(once, s.reportZeroTime, input.now, input.now).log
  {
    var p := SampleOnceAndPrint(Pause(s)).s;
    TickHealthy(p, input);
    ReportStepHealthy(p, input.now);
    var a := ReportStep(p, input.now).s;
    OnceStepHealthy(a, input.now, input.onceThreads);
    OneShotLog(p, input);
  }

  /**
   * The log of a paused tick with a one-shot request that does not throw:
   * the due or requested report of the store as it was, if any, then the
   * report of the one-shot pass over the store that report left, for the
   * empty interval at `now`.
   */
  lemma OneShotLog(p: Sampler, input: TickInput)
    requires Running(p) && !p.active && p.sampleOnce && ProcessLoop(p, input).Continued?
    ensures var requested := p.printRequested || ReportDue(p.intervalMillis, p.lastReportAt, input.now);
            var once := SamplePass(p.cfg, NameOf(p.names), if requested then [] else p.store, input.onceThreads, p.periodMillis);
            Tick(p, input).log == p.log
                                  + (if requested then PrintReportNow(p.store, p.reportZeroTime, p.lastReportAt, input.now).log else [])
                                  + PrintReportNow(once, p.reportZeroTime, input.now, input.now).log
  {
    ReportStepOutcome(p, input.now);
    var requested := p.printRequested || ReportDue(p.intervalMillis, p.lastReportAt, input.now);
    if !requested {
      AppendNothing(p.log);
    }
  }
}
