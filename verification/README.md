# perf-sampler core, modelled in Dafny

This project models the core of the in-process Java stack sampler `ThreadsSampler`. Its parts are:

- **Capture and aggregation (`sampleOnce`).** Each admitted thread's stack is cut at a monitored boundary and walked from the outermost frame inward. The walk builds a comma-joined path key one frame at a time. Every key on the path gains cumulative time. The innermost recorded key also gains self ("method") time. Counters live in a per-group `TreeMap`, and groups are keyed by the canonical thread name.
- **The counter record (`SampleCount`).**
- **The report renderer (`printReportNow`).** It visits each group's counters in key order and records times and labels in per-depth slots that the whole report shares. Each counter is then either collapsed into its parent row or printed. A printed row is indented by the levels where something changes and padded so the timing columns line up. The store is cleared afterwards.
- **The control flags of the worker loop.** These are `processLoop`, `pauseSampling`, `resumeSampling`, `sampleOnceAndPrint`, `printReport` and the setters. They are modelled as a step function over a record of flags, with the clock as an input.
- **The regex thread-name manipulator (`RegexThreadNameManipulator`).**

Modules:

| module | file | what it holds |
|---|---|---|
| `Wrappers` | wrappers.dfy | `Option`, standing for a Java `null` |
| `Strings` | strings.dfy | `String.compareTo` order, `startsWith`, `split(",")`, one-class `replaceAll`, decimal text |
| `SortedMap` | sortedmap.dfy | `TreeMap<String, V>` as its entries in key order |
| `Counters` | counters.dfy | `SampleCount` |
| `Capture` | capture.dfy | the boundary, path keys, one stack's walk, one pass over the threads |
| `Report` | report.dfy | labels, per-depth slots, collapse and indentation, row layout, the report |
| `ThreadNames` | threadnames.dfy | the removal patterns and `getManipulatedThreadName` |
| `Engine` | engine.dfy | the sampler's flags, its public controls, one tick of the loop |

Conventions:

- A stack is a sequence of frames. Index 0 is the innermost frame, as `getStackTrace` returns it.
- A thread snapshot carries an id, a raw name, a daemon bit and a stack.
- The thread-name manipulator is the `Resolver` that `Capture` is parameterised by. `Engine` builds it from `ThreadNames`.
- A user-supplied regex is modelled as the function its `replaceAll("")` computes. The two default patterns and the package-label pattern `([a-z]+\.([a-z]+|)).*` are defined exactly.

How exceptions are modelled:

- `printReportNow` can throw:
  - a `NullPointerException` when the indentation test reads a label slot that no counter has written;
  - an `ArrayIndexOutOfBoundsException` when `split(",")` of a key, which drops the trailing empty fields, gives no more fields than its counter's depth.
- Both are modelled as faults (`Report.Fault`).
- `Report.ReportNeverFails` shows that neither fault can happen on a store that sampling builds from frames whose tokens hold no comma and are not empty. `Engine.PlainStacksNeverThrow` lifts this to any series of ticks.
- When a report does throw, the loop goes on, as the source's `run` does. The request flag and the store survive, so the next tick throws again (`Engine.CrashRepeats`).

In four places the model follows what the code does rather than what its names and comments suggest:

- **Boundary.** With no prefix configured the code walks the whole stack (the boundary is 0). When no frame matches, it records only the outermost frame (the boundary is `n - 1`).
- **Self time.** It goes to the innermost *recorded* frame (`deepestIndex`), not to the innermost frame of the stack.
- **Walk direction.** Keys are built from the outermost frame inward.
- **`setSampleTheseThreadsOnly`.** A non-empty list is added to the current allowlist rather than replacing it.

## Model

| member | source | states |
|---|---|---|
| Counters.NewCount | src/main/java/com/incapsula/sampler/SampleCount.java:10-14 | a new counter has zero cumulative and self time, keeps the given depth and frame text, and is valid (self ≤ cumulative) |
| Counters.Increment | src/main/java/com/incapsula/sampler/SampleCount.java:16-22 | depth and frame text never change; a non-negative increment keeps the counter valid and neither time decreases; self time changes only for the current method |
| Counters.IncrementAllTotals | src/main/java/com/incapsula/sampler/SampleCount.java:16-22 | over any series of increments, cumulative time grows by the sum of all durations and self time by the sum of the flagged ones; identity fields never change; with non-negative durations both times are monotone and validity is kept |
| SortedMap.Get | src/main/java/com/imperva/sampler/ThreadsSampler.java:209 | `get` finds a value exactly when the key is present, and the value is that key's entry |
| SortedMap.Put | src/main/java/com/imperva/sampler/ThreadsSampler.java:212 | `put` adds the key, maps it to the new value, and leaves every other key's value unchanged |
| SortedMap.PutKeepsSorted | src/main/java/com/imperva/sampler/ThreadsSampler.java:257 | `put` keeps the entries in strictly ascending `compareTo` order |
| SortedMap.GetAt | src/main/java/com/imperva/sampler/ThreadsSampler.java:325-328 | in key order, iterating the map and looking a key up give the same value |
| SortedMap.PutSum | src/main/java/com/imperva/sampler/ThreadsSampler.java:257 | a `put` changes the total of the values by the new value minus the one it replaces |
| Strings.JavaSplitFields | src/main/java/com/imperva/sampler/ThreadsSampler.java:66-68 | `split(",")` gives the comma-separated fields with the trailing empty ones dropped, and the whole string when there is no comma |
| Strings.SplitOfJoin | src/main/java/com/imperva/sampler/ThreadsSampler.java:347 | splitting a key joined from comma-free fields whose last field is non-empty gives back those fields |
| Strings.JavaSplit | src/main/java/com/imperva/sampler/ThreadsSampler.java:347 | no field of `split(",")` holds a comma |
| Strings.LexLessIrreflexive | src/main/java/com/imperva/sampler/ThreadsSampler.java:325-326 | the `compareTo` order that sorts the `TreeMap` keys never puts a string before itself |
| Strings.LexLessTransitive | src/main/java/com/imperva/sampler/ThreadsSampler.java:325-326 | the key order is transitive |
| Strings.LexLessTotal | src/main/java/com/imperva/sampler/ThreadsSampler.java:325-326 | of two different keys one sorts before the other |
| Strings.StartsWithIsPrefix | src/main/java/com/imperva/sampler/ThreadsSampler.java:247 | the index-based `startsWith` holds exactly when the prefix is a prefix of the string |
| Strings.RemoveWhereCounts | src/main/java/com/imperva/sampler/ThreadsSampler.java:248 | removing a character class leaves every other character with its count and the removed ones with none |
| Capture.SetMonitoredPackages | src/main/java/com/imperva/sampler/ThreadsSampler.java:66-68 | the prefixes are exactly `split(",")` of the argument: comma-free fields with the trailing empty ones dropped, the whole argument when it has no comma; the allowlist and the daemon flag are unchanged |
| Capture.EmptyPackageListMonitorsEverything | src/main/java/com/imperva/sampler/ThreadsSampler.java:66-68 | an empty package list installs the prefix `""`, which makes every class monitored |
| Capture.SetSampleTheseThreadsOnly | src/main/java/com/imperva/sampler/ThreadsSampler.java:47-54 | an empty list clears the allowlist; a non-empty one yields the union of the old allowlist and the list |
| Capture.SetThreadToBeSampled | src/main/java/com/imperva/sampler/ThreadsSampler.java:60-62 | the thread joins the allowlist and nothing else does |
| Capture.IsMonitored | src/main/java/com/imperva/sampler/ThreadsSampler.java:267-276 | true exactly when some configured prefix starts the class name |
| Capture.FirstMonitoredFrom | src/main/java/com/imperva/sampler/ThreadsSampler.java:226-237 | the first monitored index at or after `i`, with nothing monitored in between, or the stack length |
| Capture.Boundary | src/main/java/com/imperva/sampler/ThreadsSampler.java:223-238 | no prefixes or an empty stack give 0; one frame gives 1 (nothing recorded); otherwise frames 1..b are unmonitored and frame b+1 is monitored unless b is the outermost index |
| Capture.BoundaryIsUnique | src/main/java/com/imperva/sampler/ThreadsSampler.java:223-238 | any index meeting the boundary conditions is the boundary |
| Capture.ComputeBoundary | src/main/java/com/imperva/sampler/ThreadsSampler.java:223-238 | the code's downward loop, which keeps the last match, computes the boundary |
| Capture.Token | src/main/java/com/imperva/sampler/ThreadsSampler.java:246-249 | a frame's key token is its text, except for generated accessors, whose token is no longer than the text |
| Capture.TokenOfAccessor | src/main/java/com/imperva/sampler/ThreadsSampler.java:247-248 | a generated accessor's token has no digit and keeps every other character of the frame text |
| Capture.PathKeyExtends | src/main/java/com/imperva/sampler/ThreadsSampler.java:240-252 | each key on the walk extends the previous one, so it sorts after it |
| Capture.PathKeysDistinct | src/main/java/com/imperva/sampler/ThreadsSampler.java:240-252 | keys of different frames of one stack differ in length, so no key is visited twice |
| Capture.WalkIsRecord | src/main/java/com/imperva/sampler/ThreadsSampler.java:240-261 | the loop with its string builder performs exactly the visits of the window, outermost first, each with its path key, token, depth n−i−1 and innermost flag |
| Capture.RecordStackTouches | src/main/java/com/imperva/sampler/ThreadsSampler.java:240-261 | each key of the window ends up as its old (or new) counter incremented once by the duration, with self time only at the boundary frame |
| Capture.RecordStackUntouched | src/main/java/com/imperva/sampler/ThreadsSampler.java:240-261 | a key outside the window keeps its counter |
| Capture.RecordStackMethodTime | src/main/java/com/imperva/sampler/ThreadsSampler.java:240-261 | recording keeps the counters sorted and raises their total self time by the duration exactly when the window is non-empty |
| Capture.RecordStackCumulativeTime | src/main/java/com/imperva/sampler/ThreadsSampler.java:240-261 | recording raises the total cumulative time by the duration times the window size |
| Capture.PathKeyAncestor | src/main/java/com/imperva/sampler/ThreadsSampler.java:240-252 | the key of frame i has one field per frame out to the outermost one, and its first m fields form the key of the frame m levels out |
| Capture.RecordStackKeepsShape | src/main/java/com/imperva/sampler/ThreadsSampler.java:240-261 | with plain tokens, every key keeps one field per depth level, a non-empty last field, and all its ancestor keys present |
| Capture.SampleThread | src/main/java/com/imperva/sampler/ThreadsSampler.java:196-261 | an unadmitted thread changes nothing; an admitted one updates only its group: the name map gets its id, the max depth becomes the larger of the old one and the stack length, and the counters get its stack recorded |
| Capture.SamplePass | src/main/java/com/imperva/sampler/ThreadsSampler.java:186-265 | a group that no admitted thread resolves to is unchanged |
| Capture.SampleThreadKeepsWellFormed | src/main/java/com/imperva/sampler/ThreadsSampler.java:196-261 | groups and counters stay in key order, and the thread's group gains the duration in self time exactly when the thread contributes a non-empty window |
| Capture.PassMethodTime | src/main/java/com/imperva/sampler/ThreadsSampler.java:186-265 | over a pass, each group's self time rises by the duration times the number of threads contributing to it |
| Capture.PassKeepsShape | src/main/java/com/imperva/sampler/ThreadsSampler.java:186-265 | a pass over stacks with plain tokens keeps every group's keys shaped |
| Report.PackageLabelIsGroupOne | src/main/java/com/imperva/sampler/ThreadsSampler.java:306 | when `([a-z]+\.([a-z]+|)).*` matches the whole text, the label is group 1 with the greedy second part; otherwise the label is the whole text |
| Report.FreshSlots | src/main/java/com/imperva/sampler/ThreadsSampler.java:314-316 | the three arrays of 1000 start with zero times and null labels |
| Report.StoreSlot | src/main/java/com/imperva/sampler/ThreadsSampler.java:329-338 | a counter within the limit writes its times and display label at its depth; every other slot is unchanged |
| Report.SkipRule | src/main/java/com/imperva/sampler/ThreadsSampler.java:329-344 | after the counter's own slot write, it is skipped exactly when it is at depth 1000 or deeper, or has no self time, is not at depth 0, and the depth above already holds its cumulative time and its own display label; a null label above never matches; a counter with self time within the limit is always printed |
| Report.Branches | src/main/java/com/imperva/sampler/ThreadsSampler.java:350-351 | the indentation test throws exactly when both time tests fail and the next label slot is null |
| Report.Collapsed | src/main/java/com/imperva/sampler/ThreadsSampler.java:346-355 | the indentation count throws exactly when some level below the depth hits a null label; otherwise it is the number of levels below the depth where the next level branches, so at most the depth |
| Report.CollapsedWhenAllBranch | src/main/java/com/imperva/sampler/ThreadsSampler.java:346-355 | when the cumulative time changes at every level, every level indents |
| Report.FormatLineLayout | src/main/java/com/imperva/sampler/ThreadsSampler.java:357-360 | a row is blanks for the indentation, then the token, then blanks up to the timing column, then the captions with both times and a newline |
| Report.RowsAlign | src/main/java/com/imperva/sampler/ThreadsSampler.java:357-360 | two rows that fit in 150 columns put the cumulative caption in the same column |
| Report.RenderEntry | src/main/java/com/imperva/sampler/ThreadsSampler.java:326-360 | the slot is written first; the counter is skipped exactly by the collapse rule; it fails with a null label exactly when a level below it hits one; it fails with a missing token exactly when it is not skipped, the count succeeds and the key splits into no more fields than its depth; a printed row is the row layout of the count, the token at its depth and its two times |
| Report.RenderGroups | src/main/java/com/imperva/sampler/ThreadsSampler.java:318-364 | one record per group in store order, carrying the group's name, max depth and names map; all groups when nothing throws, fewer than all when one does |
| Report.PrintReportNow | src/main/java/com/imperva/sampler/ThreadsSampler.java:308-369 | an empty store prints nothing; otherwise the title comes first; success prints one record per group and a flush, then clears the store; a throw keeps the store, prints no flush and no more records than groups |
| Report.RenderCounters | src/main/java/com/imperva/sampler/ThreadsSampler.java:326-361 | the group text only grows, and the slots keep their size |
| Report.RenderCountersRows | src/main/java/com/imperva/sampler/ThreadsSampler.java:326-361 | a group's text is its starting text followed by the printed rows of its counters, each rendered on the slots the counters before it left; it completes exactly when no row fails, and otherwise stops with the first failing row's fault |
| Report.RenderGroupsRows | src/main/java/com/imperva/sampler/ThreadsSampler.java:318-364 | each record's text is its group's rows rendered on the slots the groups before it left; a throw is the first failing row of the group after the last record |
| Report.ReportText | src/main/java/com/imperva/sampler/ThreadsSampler.java:308-369 | a report's log is the title, then one record per group with that group's text, starting from fresh slots, then the flush; a throwing report stops at the failing group with its fault |
| Report.ReadyRendersText | src/main/java/com/imperva/sampler/ThreadsSampler.java:325-361 | a group whose every counter finds its label slots written and a field for its depth renders without a fault |
| Report.ShapedIsRenderable | src/main/java/com/imperva/sampler/ThreadsSampler.java:325-361 | in key order with shaped keys, every counter's ancestors come earlier and its key has a field for its depth |
| Report.ReportNeverFails | src/main/java/com/imperva/sampler/ThreadsSampler.java:308-369 | a store kept sorted and shaped is reported in full: no exception, and the store is cleared |
| ThreadNames.RemoveLongHexRuns | RegexThreadNameManipulator.java:34 | the first default pattern never lengthens the name and keeps a leading character that is not a hex digit |
| ThreadNames.NoLongHexRunRemains | RegexThreadNameManipulator.java:34 | after the first default pattern no 16 consecutive `[0-9a-f]` characters remain |
| ThreadNames.ShortRunsKept | RegexThreadNameManipulator.java:34 | a name with no such run passes the first pattern unchanged |
| ThreadNames.RemoveLongHexRunsIdempotent | RegexThreadNameManipulator.java:34 | applying the first pattern twice equals applying it once |
| ThreadNames.KeepsOtherChars | RegexThreadNameManipulator.java:34 | the first pattern keeps every character that is not a hex digit, with its count |
| ThreadNames.AllHexRemoval | RegexThreadNameManipulator.java:34 | a name of hex digits only disappears when it is 16 or more long and is kept whole otherwise |
| ThreadNames.RemovalSplitsAtBlocker | RegexThreadNameManipulator.java:34 | a character that is not a hex digit splits the first pattern's work: the parts before and after it are treated independently |
| ThreadNames.NumericSeparatorsRemoved | RegexThreadNameManipulator.java:34 | the second default pattern leaves no dot, colon or digit and keeps every other character with its count |
| ThreadNames.SetThreadNameRemovalPatterns | RegexThreadNameManipulator.java:22-28 | the pattern list is replaced by one pattern per input, in input order |
| ThreadNames.Init | RegexThreadNameManipulator.java:31-36 | patterns already set, even an empty list, are kept; otherwise the two defaults are installed in order |
| ThreadNames.InitKeepsPatterns | RegexThreadNameManipulator.java:22-36 | a second `init` changes nothing, and `init` after `setThreadNameRemovalPatterns` keeps the set patterns |
| ThreadNames.ApplyAllLast | RegexThreadNameManipulator.java:15-17 | applying a list with one more pattern applies the shorter list, then that pattern to its result |
| ThreadNames.GetManipulatedThreadName | RegexThreadNameManipulator.java:12-20 | with no patterns the call throws; otherwise the name is excluded exactly when applying every pattern in order leaves it empty, and the group name is that non-empty result |
| ThreadNames.EmptyPatternsKeepNames | RegexThreadNameManipulator.java:12-20 | with an empty pattern list every non-empty name is its own group and the empty name is excluded |
| ThreadNames.DefaultPatternsApply | RegexThreadNameManipulator.java:12-20 | with the defaults the name is the hex-run removal followed by the separator removal, and it is null exactly when that result is empty |
| ThreadNames.SeparatorOnlyNamesExcluded | RegexThreadNameManipulator.java:19 | a name made only of dots, colons and digits resolves to null |
| ThreadNames.NamesWithOtherCharsGetGroup | RegexThreadNameManipulator.java:19 | a name with a character that is neither a hex digit nor a separator always gets a group |
| ThreadNames.SeparatorsCanJoinHexRuns | RegexThreadNameManipulator.java:15-17 | the patterns are applied in order, so two short hex-letter runs joined by a dot become one long run in the group name |
| Engine.New | src/main/java/com/imperva/sampler/ThreadsSampler.java:16-32 | a new sampler is active and unstarted with nothing requested; it has the default prefixes, period and interval, and an empty store |
| Engine.Start | src/main/java/com/imperva/sampler/ThreadsSampler.java:83-113 | `init` plus `run` leave the sampler running, with the name patterns `init` gives, the worker marked started, the tick start at `now`, no sampling time carried over, and every other field as it was |
| Engine.SetReportFrequencySeconds | src/main/java/com/imperva/sampler/ThreadsSampler.java:43-45 | the interval becomes 1000 times the seconds and nothing else changes |
| Engine.ReportFrequency | src/main/java/com/imperva/sampler/ThreadsSampler.java:43-45 | a report is due exactly when the seconds are positive and more than that many seconds have passed; zero or negative seconds turn periodic reports off |
| Engine.Pause | src/main/java/com/imperva/sampler/ThreadsSampler.java:166-168 | only clears the active flag |
| Engine.Resume | src/main/java/com/imperva/sampler/ThreadsSampler.java:170-173 | sets the active flag and restarts the report interval at `now` |
| Engine.ResumeDefersReport | src/main/java/com/imperva/sampler/ThreadsSampler.java:139-141 | after a resume, no report is due for a whole interval |
| Engine.PrintReport | src/main/java/com/imperva/sampler/ThreadsSampler.java:301-304 | only raises the request flag |
| Engine.SampleOnceAndPrint | src/main/java/com/imperva/sampler/ThreadsSampler.java:175-184 | throws exactly when sampling is active or the worker has not started; otherwise only sets the one-shot flag |
| Engine.ReportStep | src/main/java/com/imperva/sampler/ThreadsSampler.java:139-147 | the report part of a tick keeps the setup and the one-shot flag and only appends to the log |
| Engine.ActiveStep | src/main/java/com/imperva/sampler/ThreadsSampler.java:149-152 | the sampling part keeps the setup and the log, and leaves a paused sampler as it was |
| Engine.OnceStep | src/main/java/com/imperva/sampler/ThreadsSampler.java:155-160 | the one-shot part does nothing without the flag and otherwise only appends to the log |
| Engine.ProcessLoop | src/main/java/com/imperva/sampler/ThreadsSampler.java:127-164 | one call of `processLoop` keeps the setup and only appends to the log |
| Engine.Tick | src/main/java/com/imperva/sampler/ThreadsSampler.java:114-120 | one turn of the loop keeps the sampler running and its setup, and only appends to the log |
| Engine.PrintNow | src/main/java/com/imperva/sampler/ThreadsSampler.java:308-369 | the report's outputs are appended to the log; the store is cleared unless the report throws; an empty store changes nothing |
| Engine.ReportStepOutcome | src/main/java/com/imperva/sampler/ThreadsSampler.java:139-147 | a due or requested report is printed, clears the request and restarts the interval at `now`; nothing happens otherwise; a throw leaves the request raised, the store and the interval start as they were |
| Engine.PausedTickDoesNotSample | src/main/java/com/imperva/sampler/ThreadsSampler.java:150-152 | a paused tick without the one-shot flag keeps the store, or clears it only by a report at `now` |
| Engine.ActiveDurationIsTickGap | src/main/java/com/imperva/sampler/ThreadsSampler.java:149-163 | after a completed tick of an active sampler with nothing requested, when the next tick has no report due it adds its threads to the store with exactly the time between the two ticks' starts |
| Engine.TickTiming | src/main/java/com/imperva/sampler/ThreadsSampler.java:149-163 | a completed tick records where it ended and how long its sampling took |
| Engine.ActiveTickSamples | src/main/java/com/imperva/sampler/ThreadsSampler.java:139-152 | an active tick without a one-shot request samples its threads with the time since the last tick plus that tick's sampling time, into the store or, after a report, into an empty store; a throwing report logs the fault and samples nothing |
| Engine.CrashRepeats | src/main/java/com/imperva/sampler/ThreadsSampler.java:114-120 | a report that throws leaves its request raised and the store kept, and the next tick throws the same fault again |
| Engine.TickHealthy | src/main/java/com/imperva/sampler/ThreadsSampler.java:127-164 | a tick over stacks with plain tokens completes and keeps the store sorted and shaped |
| Engine.PlainStacksNeverThrow | src/main/java/com/imperva/sampler/ThreadsSampler.java:114-120 | over any series of ticks shown only stacks with plain tokens, the loop never throws |
| Engine.SecondReportPrintsNothing | src/main/java/com/imperva/sampler/ThreadsSampler.java:308-312 | once a report has gone out, a second request on a paused sampler prints nothing and clears the request again |
| Engine.OneShotAfterPause | src/main/java/com/imperva/sampler/ThreadsSampler.java:155-160 | after a pause, `sampleOnceAndPrint` is accepted; the next tick samples once over one period, restarts the interval at `now`, appends the due or requested report and then the one-shot report to the log, clears the store and the flag, and stays paused |
| Engine.OneShotLog | src/main/java/com/imperva/sampler/ThreadsSampler.java:139-160 | a paused tick with a one-shot request that does not throw logs the due or requested report, then the report of one period's pass over the store that report left |

## Left out

- Threads, `Thread.sleep`, `interrupt`, the bounded polling in `init` and `shutdown`, and `shutdown` itself: these are concurrency and wall-clock plumbing. The clock is an input to each tick. All reads up to sampling give `now`, and so do the one-shot step's reads (its `lastReportAt` and its report's title); the read at the end of the tick gives `finish`.
- `Thread.getAllStackTraces`, `getStackTrace`, `isDaemon`, `getId`: thread snapshots are inputs. With a non-empty allowlist, the snapshots are expected to be those of the listed threads.
- The text of the interval title (`new Date(...)`) and of the group title: the log records the interval ends, the group name, the max depth and the id-to-name map. The order of the names map's values is not modelled.
- The outputers (`PrintStreamSamplingOutputer`, `LoggerSamplingOutputer`) and `setSamplingOutputer`: the sink is the log, so `Engine.Sampler` has no outputer field and the setter has no counterpart. The message of `printError` is not modelled; the log records the fault.
- `MapBasedThreadNameManipulator`, any other `ThreadNameManipulator` implementation, and the general regex engine: a user pattern is an abstract string function, and a malformed pattern's `PatternSyntaxException` is not modelled. `setThreadNameManipulator` is modelled only as writing a regex manipulator (`ThreadNames.Manipulator`) into `names`. With another implementation, `init` would call that object's own `init`, and that path is not modelled.
- The setters with no logic (`setSamplingFrequencyMillis`, `setReportZeroTimePackages`, `setSkipDaemonThreads`, `setActive`): these are plain field writes on `Engine.Sampler`.
- `ThreadGroupSamples` is not part of this model's source. It is reconstructed from its uses as `Capture.Group`.
- Group order: the groups live in a `HashMap`, whose iteration order Java leaves unspecified. The model keeps them in name order, so reports list groups by name.
- Engine.SetReportFrequencySeconds: times and durations are unbounded integers, so `long` overflow (here and in the counters) is not modelled.
- Strings.LexLess: compares Unicode scalar values, whereas Java compares UTF-16 code units. The two orders differ only for characters outside the Basic Multilingual Plane.
- Report.FormatLine: `|token|` counts Unicode scalar values, whereas Java's `length()` counts UTF-16 code units. A token with characters outside the Basic Multilingual Plane gets a wider gap than in Java.
- Report.ReportNeverFails: covers stores built from frames whose tokens hold no comma and are not empty. For other frames the report can throw, and the model gives the fault. Which frames trigger it is not characterised further.
