/**
 * One capture-and-aggregate pass (`ThreadsSampler.sampleOnce`): each
 * admitted thread's stack is cut at the monitored boundary and walked from
 * the outermost frame inward, building a comma-joined path key one frame
 * at a time; every key on the path gains cumulative time and the innermost
 * one also gains self time.
 *
 * A stack is a sequence of frames whose index 0 is the innermost frame and
 * whose last index is the outermost one, as `getStackTrace` returns it.
 * The stacks, daemon bits and thread ids are inputs: the platform calls
 * that produce them are not modelled.
 */
module Capture {
  import opened Wrappers
  import opened Strings
  import opened SortedMap
  import opened Counters

  /** One `StackTraceElement`: its declaring class name and its `toString()` text. */
  datatype Frame = Frame(className: string, text: string)

  /** One sampled thread as the platform reports it. */
  datatype ThreadSnapshot = ThreadSnapshot(id: int, name: string, isDaemon: bool, stack: seq<Frame>)

  /**
   * `ThreadGroupSamples`: the deepest stack seen, the last raw name seen per
   * thread id, and the path-key counters in `TreeMap` order.
   */
  datatype Group = Group(maxDepth: int, threadNames: map<int, string>, samples: seq<(string, SampleCount)>)

  /** The settings a pass reads: monitored class-name prefixes, the thread allowlist, daemon skipping. */
  datatype CaptureConfig = CaptureConfig(prefixes: seq<string>, allowlist: set<int>, skipDaemon: bool)

  /** The aggregation store: groups keyed by canonical thread name. */
  type Store = seq<(string, Group)>

  /** The thread-name manipulator: a canonical group name, or `None` to exclude the thread. */
  type Resolver = ThreadSnapshot -> Option<string>

  const GeneratedAccessorPrefix := "sun.reflect.GeneratedMethodAccessor"

  /** The built-in monitored prefixes. */
  const DefaultPrefixes: seq<string> := ["com.imperva.", "com.mprv."]

  const EmptyGroup := Group(0, map[], [])

  // ---------------------------------------------------------------------
  // Configuration setters
  // ---------------------------------------------------------------------

  /** `setMonitoredPackages`: the comma-delimited list, split as `String.split(",")` does. */
  function SetMonitoredPackages(cfg: CaptureConfig, commaDelimited: string): (r: CaptureConfig)
    ensures forall i :: 0 <= i < |r.prefixes| ==> ',' !in r.prefixes[i]
    ensures ',' !in commaDelimited ==> r.prefixes == [commaDelimited]
    ensures ',' in commaDelimited ==> r.prefixes <= Fields(commaDelimited)
    ensures r.prefixes == JavaSplit(commaDelimited)
    ensures r.allowlist == cfg.allowlist && r.skipDaemon == cfg.skipDaemon
  {
    JavaSplitFields(commaDelimited);
    cfg.(prefixes := JavaSplit(commaDelimited))
  }

  /**
   * `setSampleTheseThreadsOnly`: a non-empty list is ADDED to the current
   * allowlist (it does not replace it); an empty list clears it.
   */
  function SetSampleTheseThreadsOnly(cfg: CaptureConfig, ids: seq<int>): (r: CaptureConfig)
    ensures |ids| == 0 ==> r.allowlist == {}
    ensures |ids| > 0 ==> forall id :: id in r.allowlist <==> id in cfg.allowlist || id in ids
    ensures r.prefixes == cfg.prefixes && r.skipDaemon == cfg.skipDaemon
  {
    if |ids| > 0 then cfg.(allowlist := cfg.allowlist + set id | id in ids) else cfg.(allowlist := {})
  }

  /** `setThreadToBeSampled`: adds one thread to the allowlist. */
  function SetThreadToBeSampled(cfg: CaptureConfig, id: int): (r: CaptureConfig)
    ensures id in r.allowlist && cfg.allowlist <= r.allowlist
    ensures forall x :: x in r.allowlist ==> x == id || x in cfg.allowlist
  {
    cfg.(allowlist := cfg.allowlist + {id})
  }

  /** An empty list sets the single prefix `""`, which every class name starts with. */
  lemma EmptyPackageListMonitorsEverything(cfg: CaptureConfig, className: string)
    ensures IsMonitored(SetMonitoredPackages(cfg, "").prefixes, className)
  {
    assert SetMonitoredPackages(cfg, "").prefixes[0] <= className;
  }

  // ---------------------------------------------------------------------
  // The monitored boundary
  // ---------------------------------------------------------------------

  /** `isMonitoredPackageName`: some configured prefix starts the class name. */
  function IsMonitored(prefixes: seq<string>, className: string): (r: bool)
    ensures r <==> exists i :: 0 <= i < |prefixes| && prefixes[i] <= className
  {
    if |prefixes| == 0 then false
    else if prefixes[0] <= className then true
    else
      var r := IsMonitored(prefixes[1..], className);
      assert r ==> exists i :: 0 <= i < |prefixes| && prefixes[i] <= className by {
        if r {
          var i :| 0 <= i < |prefixes[1..]| && prefixes[1..][i] <= className;
          assert prefixes[i + 1] <= className;
        }
      }
      assert (exists i :: 0 <= i < |prefixes| && prefixes[i] <= className) ==> r by {
        if exists i :: 0 <= i < |prefixes| && prefixes[i] <= className {
          var i :| 0 <= i < |prefixes| && prefixes[i] <= className;
          assert i > 0;
          assert prefixes[1..][i - 1] <= className;
        }
      }
      r
  }

  /** The smallest index `j >= i` whose frame is monitored, or `|stack|` when there is none. */
  function FirstMonitoredFrom(prefixes: seq<string>, stack: seq<Frame>, i: nat): (j: nat)
    requires i <= |stack|
    ensures i <= j <= |stack|
    ensures j < |stack| ==> IsMonitored(prefixes, stack[j].className)
    ensures forall k :: i <= k < j ==> !IsMonitored(prefixes, stack[k].className)
    decreases |stack| - i
  {
    if i == |stack| then i
    else if IsMonitored(prefixes, stack[i].className) then i
    else FirstMonitoredFrom(prefixes, stack, i + 1)
  }

  /**
   * The index of the innermost frame recorded for a stack (`deepestIndex`).
   * Without prefixes, or for an empty stack, it is 0 (the whole stack). With
   * prefixes and one frame it is 1, past the only frame, so nothing is
   * recorded. Otherwise frame `b + 1` is the innermost monitored frame among
   * indices 1 and up (frame 0 is never tested), or `b` is the outermost
   * frame when no frame matches.
   */
  function Boundary(prefixes: seq<string>, stack: seq<Frame>): (b: nat)
    ensures |prefixes| == 0 || |stack| == 0 ==> b == 0
    ensures |prefixes| > 0 && |stack| == 1 ==> b == 1
    ensures |prefixes| > 0 && |stack| >= 2 ==>
              && b < |stack|
              && (forall k :: 1 <= k <= b ==> !IsMonitored(prefixes, stack[k].className))
              && (b < |stack| - 1 ==> IsMonitored(prefixes, stack[b + 1].className))
  {
    if |prefixes| == 0 || |stack| == 0 then 0
    else if |stack| == 1 then 1
    else
      var j := FirstMonitoredFrom(prefixes, stack, 1);
      if j < |stack| then j - 1 else |stack| - 1
  }

  /** The boundary contract above pins the boundary down: no other index meets it. */
  lemma BoundaryIsUnique(prefixes: seq<string>, stack: seq<Frame>, b: nat)
    requires |prefixes| > 0 && |stack| >= 2
    requires b < |stack|
    requires forall k :: 1 <= k <= b ==> !IsMonitored(prefixes, stack[k].className)
    requires b < |stack| - 1 ==> IsMonitored(prefixes, stack[b + 1].className)
    ensures b == Boundary(prefixes, stack)
  {
  }

  /** The boundary scan as the sampler writes it: outermost to innermost, the last match wins. */
  method ComputeBoundary(prefixes: seq<string>, stack: seq<Frame>) returns (deepestIndex: int)
    ensures deepestIndex == Boundary(prefixes, stack)
  {
    deepestIndex := 0;
    if |prefixes| > 0 && |stack| > 0 {
      var initial := if |stack| < 2 then |stack| else |stack| - 1;
      deepestIndex := initial;
      var i := |stack| - 1;
      while i >= 1
        invariant 0 <= i <= |stack| - 1
        invariant deepestIndex == (var j := FirstMonitoredFrom(prefixes, stack, i + 1); if j < |stack| then j - 1 else initial)
      {
        if IsMonitored(prefixes, stack[i].className) {
          if i < 2 {
            deepestIndex := 0;
          } else {
            deepestIndex := i - 1;
          }
        }
        i := i - 1;
      }
    }
  }

  // ---------------------------------------------------------------------
  // Path keys
  // ---------------------------------------------------------------------

  /** The text a frame contributes to a key: digits are stripped from generated reflection accessors. */
  function Token(f: Frame): (t: string)
    ensures !(GeneratedAccessorPrefix <= f.className) ==> t == f.text
    ensures |t| <= |f.text|
  {
    if GeneratedAccessorPrefix <= f.className then RemoveDigits(f.text) else f.text
  }

  /** A generated accessor's token is its text without digits; its other characters stay. */
  lemma TokenOfAccessor(f: Frame)
    requires GeneratedAccessorPrefix <= f.className
    ensures forall i :: 0 <= i < |Token(f)| ==> !IsDigit(Token(f)[i])
    ensures forall c :: !IsDigit(c) ==> multiset(Token(f))[c] == multiset(f.text)[c]
  {
    RemoveWhereDrops(f.text, IsDigit);
    RemoveWhereCounts(f.text, IsDigit);
  }

  /**
   * The path key of frame `i`: the tokens of frames `|stack| - 1` down to
   * `i`, outermost first, joined by commas.
   */
  function PathKey(stack: seq<Frame>, i: nat): string
    requires i < |stack|
    decreases |stack| - i
  {
    if i == |stack| - 1 then Token(stack[i]) else PathKey(stack, i + 1) + "," + Token(stack[i])
  }

  /** The tokens of frames `|stack| - 1` down to `i`, outermost first. */
  function PathTokens(stack: seq<Frame>, i: nat): (ts: seq<string>)
    requires i < |stack|
    ensures |ts| == |stack| - i
    decreases |stack| - i
  {
    if i == |stack| - 1 then [Token(stack[i])] else PathTokens(stack, i + 1) + [Token(stack[i])]
  }

  /** Token `k` of a path is the token of frame `|stack| - 1 - k`. */
  lemma {:induction false} PathTokenAt(stack: seq<Frame>, i: nat, k: nat)
    requires i < |stack| && k < |stack| - i
    ensures PathTokens(stack, i)[k] == Token(stack[|stack| - 1 - k])
    decreases |stack| - i
  {
    if i < |stack| - 1 && k < |stack| - 1 - i {
      PathTokenAt(stack, i + 1, k);
    }
  }

  /** A path key is `String.join(",", ...)` of its tokens. */
  lemma {:induction false} PathKeyIsJoin(stack: seq<Frame>, i: nat)
    requires i < |stack|
    ensures PathKey(stack, i) == JoinComma(PathTokens(stack, i))
    decreases |stack| - i
  {
    if i < |stack| - 1 {
      PathKeyIsJoin(stack, i + 1);
      JoinSnoc(PathTokens(stack, i + 1), Token(stack[i]));
    }
  }

  /** Keys are prefix-closed: the key one frame further out is a proper prefix, so it sorts first. */
  lemma PathKeyExtends(stack: seq<Frame>, i: nat)
    requires i < |stack| - 1
    ensures PathKey(stack, i + 1) <= PathKey(stack, i)
    ensures LexLess(PathKey(stack, i + 1), PathKey(stack, i))
  {
    ProperPrefixIsLess(PathKey(stack, i + 1), PathKey(stack, i));
  }

  /** Keys of frames further in are strictly longer, so one stack never yields the same key twice. */
  lemma {:induction false} PathKeysDistinct(stack: seq<Frame>, i: nat, j: nat)
    requires i < j < |stack|
    ensures |PathKey(stack, i)| > |PathKey(stack, j)|
    decreases j - i
  {
    if i + 1 < j {
      PathKeysDistinct(stack, i + 1, j);
    }
  }

  // ---------------------------------------------------------------------
  // Recording one stack
  // ---------------------------------------------------------------------

  /** The counter for `key`, or a fresh one with the given frame text and depth. */
  function CounterFor(samples: seq<(string, SampleCount)>, key: string, text: string, depth: nat): SampleCount {
    match Get(samples, key)
    case Some(c) => c
    case None => NewCount(text, depth)
  }

  /**
   * One visit of the frame loop: the key built so far, the frame's token,
   * the depth a new counter gets, and whether the frame is the innermost
   * recorded one (the only one that earns self time).
   */
  datatype Visit = Visit(key: string, text: string, depth: nat, innermost: bool)

  /** `samplingMap.get(key)`, creating the counter if absent, then `increment`. */
  function Bump(samples: seq<(string, SampleCount)>, v: Visit, duration: int): seq<(string, SampleCount)> {
    Put(samples, v.key, Increment(CounterFor(samples, v.key, v.text, v.depth), duration, v.innermost))
  }

  /** The visits applied in order. */
  function Record(samples: seq<(string, SampleCount)>, vs: seq<Visit>, duration: int): seq<(string, SampleCount)>
    decreases |vs|
  {
    if |vs| == 0 then samples else Record(Bump(samples, vs[0], duration), vs[1..], duration)
  }

  /** No key is visited twice. */
  ghost predicate DistinctKeys(vs: seq<Visit>) {
    forall p, q :: 0 <= p < q < |vs| ==> vs[p].key != vs[q].key
  }

  /** Keys no visit names keep their counters. */
  lemma {:induction false} RecordUntouched(samples: seq<(string, SampleCount)>, vs: seq<Visit>, duration: int, k: string)
    requires forall p :: 0 <= p < |vs| ==> vs[p].key != k
    ensures Get(Record(samples, vs, duration), k) == Get(samples, k)
    decreases |vs|
  {
    if |vs| > 0 {
      assert vs[0].key != k;
      RecordUntouched(Bump(samples, vs[0], duration), vs[1..], duration, k);
    }
  }

  /**
   * With distinct keys, the key of visit `p` ends up with its counter (found,
   * or created with the visit's text and depth) incremented once.
   */
  lemma {:induction false} RecordTouches(samples: seq<(string, SampleCount)>, vs: seq<Visit>, duration: int, p: nat)
    requires DistinctKeys(vs) && p < |vs|
    ensures Get(Record(samples, vs, duration), vs[p].key)
            == Some(Increment(CounterFor(samples, vs[p].key, vs[p].text, vs[p].depth), duration, vs[p].innermost))
    decreases |vs|, 1
  {
    if p == 0 {
      RecordTouchesFirst(samples, vs, duration);
    } else {
      RecordTouchesLater(samples, vs, duration, p);
    }
  }

  lemma RecordTouchesFirst(samples: seq<(string, SampleCount)>, vs: seq<Visit>, duration: int)
    requires DistinctKeys(vs) && 0 < |vs|
    ensures Get(Record(samples, vs, duration), vs[0].key)
            == Some(Increment(CounterFor(samples, vs[0].key, vs[0].text, vs[0].depth), duration, vs[0].innermost))
  {
    forall p | 0 <= p < |vs[1..]|
      ensures vs[1..][p].key != vs[0].key
    {
      assert vs[1..][p] == vs[p + 1];
    }
    RecordUntouched(Bump(samples, vs[0], duration), vs[1..], duration, vs[0].key);
  }

  lemma {:induction false} RecordTouchesLater(samples: seq<(string, SampleCount)>, vs: seq<Visit>, duration: int, p: nat)
    requires DistinctKeys(vs) && 0 < p < |vs|
    ensures Get(Record(samples, vs, duration), vs[p].key)
            == Some(Increment(CounterFor(samples, vs[p].key, vs[p].text, vs[p].depth), duration, vs[p].innermost))
    decreases |vs|, 0
  {
    var next := Bump(samples, vs[0], duration);
    assert vs[p].key != vs[0].key;
    assert CounterFor(next, vs[p].key, vs[p].text, vs[p].depth) == CounterFor(samples, vs[p].key, vs[p].text, vs[p].depth);
    assert vs[1..][p - 1] == vs[p];
    RecordTouches(next, vs[1..], duration, p - 1);
  }

  /** Recording keeps the counters in key order. */
  lemma {:induction false} RecordKeepsSorted(samples: seq<(string, SampleCount)>, vs: seq<Visit>, duration: int)
    requires Sorted(samples)
    ensures Sorted(Record(samples, vs, duration))
    decreases |vs|
  {
    if |vs| > 0 {
      var v := vs[0];
      PutKeepsSorted(samples, v.key, Increment(CounterFor(samples, v.key, v.text, v.depth), duration, v.innermost));
      RecordKeepsSorted(Bump(samples, v, duration), vs[1..], duration);
    }
  }

  function MethodTimeOf(c: SampleCount): int {
    c.methodTime
  }

  function CumulativeTimeOf(c: SampleCount): int {
    c.cumulativeTime
  }

  /** One visit adds `duration` of cumulative time, and of self time when it is the innermost one. */
  lemma BumpTimes(samples: seq<(string, SampleCount)>, v: Visit, duration: int)
    requires Sorted(samples)
    ensures SumOf(Bump(samples, v, duration), CumulativeTimeOf) == SumOf(samples, CumulativeTimeOf) + duration
    ensures SumOf(Bump(samples, v, duration), MethodTimeOf) == SumOf(samples, MethodTimeOf) + (if v.innermost then duration else 0)
  {
    var c := Increment(CounterFor(samples, v.key, v.text, v.depth), duration, v.innermost);
    PutSum(samples, v.key, c, CumulativeTimeOf);
    PutSum(samples, v.key, c, MethodTimeOf);
  }

  /** The self time the visits hand out: `duration` per innermost visit. */
  function SelfShare(vs: seq<Visit>, duration: int): int {
    if |vs| == 0 then 0 else (if vs[0].innermost then duration else 0) + SelfShare(vs[1..], duration)
  }

  /** Self time grows by exactly the visits' self share. */
  lemma {:induction false} RecordMethodTime(samples: seq<(string, SampleCount)>, vs: seq<Visit>, duration: int)
    requires Sorted(samples)
    ensures SumOf(Record(samples, vs, duration), MethodTimeOf) == SumOf(samples, MethodTimeOf) + SelfShare(vs, duration)
    decreases |vs|
  {
    if |vs| > 0 {
      BumpTimes(samples, vs[0], duration);
      PutKeepsSorted(samples, vs[0].key, Increment(CounterFor(samples, vs[0].key, vs[0].text, vs[0].depth), duration, vs[0].innermost));
      RecordMethodTime(Bump(samples, vs[0], duration), vs[1..], duration);
    }
  }

  /** The arithmetic of one more visit: `n` visits' worth is one visit plus `n - 1` visits' worth. */
  lemma AddFrame(total: int, before: int, stepped: int, d: int, n: int)
    requires stepped == before + d
    requires total == stepped + d * (n - 1)
    ensures total == before + d * n
  {
  }

  /** Cumulative time grows by `duration` per visit; `n` is the number of visits. */
  lemma {:induction false} RecordCumulativeTime(samples: seq<(string, SampleCount)>, vs: seq<Visit>, duration: int, n: nat)
    requires Sorted(samples) && n == |vs|
    ensures SumOf(Record(samples, vs, duration), CumulativeTimeOf) == SumOf(samples, CumulativeTimeOf) + duration * n
    decreases |vs|
  {
    if n == 0 {
      assert duration * n == 0;
    } else {
      var next := Bump(samples, vs[0], duration);
      BumpTimes(samples, vs[0], duration);
      PutKeepsSorted(samples, vs[0].key, Increment(CounterFor(samples, vs[0].key, vs[0].text, vs[0].depth), duration, vs[0].innermost));
      RecordCumulativeTime(next, vs[1..], duration, n - 1);
      AddFrame(SumOf(Record(samples, vs, duration), CumulativeTimeOf), SumOf(samples, CumulativeTimeOf),
               SumOf(next, CumulativeTimeOf), duration, n);
    }
  }

  /**
   * The walk's state before visiting frame `i`: the builder `sb` holds the
   * key of frame `i + 1`, or nothing before the outermost frame.
   */
  ghost predicate BuilderHolds(stack: seq<Frame>, i: int, sb: string) {
    && (i == |stack| - 1 ==> sb == "")
    && (0 <= i < |stack| - 1 ==> sb == PathKey(stack, i + 1))
  }

  /** The builder's content after appending frame `i`. */
  function StepKey(stack: seq<Frame>, i: nat, sb: string): string
    requires i < |stack|
  {
    (if i < |stack| - 1 then sb + "," else sb) + Token(stack[i])
  }

  /**
   * The frame loop over frames `i` down to `b` as the sampler writes it:
   * append a comma (except before the outermost frame) and the frame's token
   * to the builder, then increment the counter of the key built so far,
   * creating it at depth `|stack| - i - 1` if needed; only frame `b` gets
   * self time.
   */
  function Walk(samples: seq<(string, SampleCount)>, stack: seq<Frame>, b: nat, i: int, sb: string, duration: int): seq<(string, SampleCount)>
    requires -1 <= i < |stack|
    decreases i + 1
  {
    if i < b then samples
    else
      var key := StepKey(stack, i, sb);
      Walk(Bump(samples, Visit(key, Token(stack[i]), |stack| - i - 1, i == b), duration), stack, b, i - 1, key, duration)
  }

  /** The visit of frame `j`: its path key, token and depth; frame `b` is innermost. */
  function VisitOf(stack: seq<Frame>, b: nat, j: nat): Visit
    requires j < |stack|
  {
    Visit(PathKey(stack, j), Token(stack[j]), |stack| - j - 1, j == b)
  }

  /** The visits of frames `i` down to `b`, in that order. */
  function VisitsFrom(stack: seq<Frame>, b: nat, i: int): (vs: seq<Visit>)
    requires -1 <= i < |stack|
    ensures |vs| == if i < b then 0 else i - b + 1
    ensures forall p :: 0 <= p < |vs| ==> vs[p] == VisitOf(stack, b, i - p)
  {
    if i < b then [] else seq(i - b + 1, p requires 0 <= p <= i - b => VisitOf(stack, b, i - p))
  }

  /** The visits from frame `i` are frame `i`'s visit followed by the visits from frame `i - 1`. */
  lemma VisitsFromStep(stack: seq<Frame>, b: nat, i: nat)
    requires b <= i < |stack|
    ensures VisitsFrom(stack, b, i)[0] == VisitOf(stack, b, i)
    ensures VisitsFrom(stack, b, i)[1..] == VisitsFrom(stack, b, i - 1)
  {
    var vs := VisitsFrom(stack, b, i);
    var tail := VisitsFrom(stack, b, i - 1);
    forall p | 0 <= p < |tail|
      ensures vs[1..][p] == tail[p]
    {
      assert vs[1..][p] == vs[p + 1];
    }
  }

  /** Frame `j` is visited at position `i - j`. */
  lemma VisitAt(stack: seq<Frame>, b: nat, i: int, j: nat)
    requires b <= j <= i < |stack|
    ensures VisitsFrom(stack, b, i)[i - j] == Visit(PathKey(stack, j), Token(stack[j]), |stack| - j - 1, j == b)
  {
  }

  /** One stack never visits the same key twice. */
  lemma VisitsDistinct(stack: seq<Frame>, b: nat, i: int)
    requires -1 <= i < |stack|
    ensures DistinctKeys(VisitsFrom(stack, b, i))
  {
    var vs := VisitsFrom(stack, b, i);
    forall p, q | 0 <= p < q < |vs|
      ensures vs[p].key != vs[q].key
    {
      PathKeysDistinct(stack, i - q, i - p);
    }
  }

  /** The key of visit `p` is the path key of frame `i - p`. */
  lemma VisitKey(stack: seq<Frame>, b: nat, i: int, p: nat)
    requires -1 <= i < |stack| && p < |VisitsFrom(stack, b, i)|
    ensures VisitsFrom(stack, b, i)[p].key == PathKey(stack, i - p)
  {
  }

  /** Only the last visit, the boundary frame's, is innermost. */
  lemma {:induction false} VisitsSelfShare(stack: seq<Frame>, b: nat, i: int, duration: int)
    requires -1 <= i < |stack|
    ensures SelfShare(VisitsFrom(stack, b, i), duration) == if b <= i then duration else 0
    decreases i + 1
  {
    if i >= b {
      VisitsFromStep(stack, b, i);
      VisitsSelfShare(stack, b, i - 1, duration);
    }
  }

  /** The key the loop builds at frame `i` is that frame's path key. */
  lemma WalkKey(stack: seq<Frame>, i: nat, sb: string)
    requires i < |stack| && BuilderHolds(stack, i, sb)
    ensures StepKey(stack, i, sb) == PathKey(stack, i)
    ensures i > 0 ==> BuilderHolds(stack, i - 1, PathKey(stack, i))
  {
    if i < |stack| - 1 {
      PathKeyExtends(stack, i);
    }
  }

  /** The loop with its string builder records exactly the visits of its frames. */
  lemma {:induction false} WalkIsRecord(samples: seq<(string, SampleCount)>, stack: seq<Frame>, b: nat, i: int, sb: string, duration: int)
    requires -1 <= i < |stack|
    requires i >= b ==> BuilderHolds(stack, i, sb)
    ensures Walk(samples, stack, b, i, sb, duration) == Record(samples, VisitsFrom(stack, b, i), duration)
    decreases i + 1
  {
    if i >= b {
      WalkKey(stack, i, sb);
      var vs := VisitsFrom(stack, b, i);
      VisitsFromStep(stack, b, i);
      var next := Bump(samples, vs[0], duration);
      WalkIsRecord(next, stack, b, i - 1, PathKey(stack, i), duration);
    }
  }

  /** Recording one stack into a group's counters. */
  function RecordStack(samples: seq<(string, SampleCount)>, prefixes: seq<string>, stack: seq<Frame>, duration: int): seq<(string, SampleCount)> {
    Walk(samples, stack, Boundary(prefixes, stack), |stack| - 1, "", duration)
  }

  /** Recording a stack is recording the visits of its window, outermost frame first. */
  lemma RecordStackVisits(samples: seq<(string, SampleCount)>, prefixes: seq<string>, stack: seq<Frame>, duration: int)
    ensures RecordStack(samples, prefixes, stack, duration) == Record(samples, VisitsFrom(stack, Boundary(prefixes, stack), |stack| - 1), duration)
  {
    WalkIsRecord(samples, stack, Boundary(prefixes, stack), |stack| - 1, "", duration);
  }

  /** Visiting frames `|stack| - 1` down to `b` increments the counter of every frame's path key once. */
  lemma {:induction false} VisitsTouch(samples: seq<(string, SampleCount)>, stack: seq<Frame>, b: nat, duration: int, j: nat)
    requires b <= j < |stack|
    ensures Get(Record(samples, VisitsFrom(stack, b, |stack| - 1), duration), PathKey(stack, j))
            == Some(Increment(CounterFor(samples, PathKey(stack, j), Token(stack[j]), |stack| - j - 1), duration, j == b))
  {
    var vs := VisitsFrom(stack, b, |stack| - 1);
    var p := |stack| - 1 - j;
    VisitAt(stack, b, |stack| - 1, j);
    var v := vs[p];
    assert v == Visit(PathKey(stack, j), Token(stack[j]), |stack| - j - 1, j == b);
    VisitsDistinct(stack, b, |stack| - 1);
    RecordTouches(samples, vs, duration, p);
  }

  /**
   * Every frame `j` of the window gets its path key's counter (found, or
   * created with the frame's token at depth `|stack| - j - 1`) incremented
   * once by `duration`, with self time for the boundary frame only.
   */
  lemma {:induction false} RecordStackTouches(samples: seq<(string, SampleCount)>, prefixes: seq<string>, stack: seq<Frame>, duration: int, j: nat)
    requires Boundary(prefixes, stack) <= j < |stack|
    ensures Get(RecordStack(samples, prefixes, stack, duration), PathKey(stack, j))
            == Some(Increment(CounterFor(samples, PathKey(stack, j), Token(stack[j]), |stack| - j - 1), duration, j == Boundary(prefixes, stack)))
  {
    RecordStackVisits(samples, prefixes, stack, duration);
    VisitsTouch(samples, stack, Boundary(prefixes, stack), duration, j);
  }

  /** Keys that are no visited frame's path key keep their counters. */
  lemma VisitsUntouched(samples: seq<(string, SampleCount)>, stack: seq<Frame>, b: nat, duration: int, k: string)
    requires forall j :: b <= j < |stack| ==> k != PathKey(stack, j)
    ensures Get(Record(samples, VisitsFrom(stack, b, |stack| - 1), duration), k) == Get(samples, k)
  {
    var vs := VisitsFrom(stack, b, |stack| - 1);
    forall p | 0 <= p < |vs|
      ensures vs[p].key != k
    {
      VisitKey(stack, b, |stack| - 1, p);
    }
    RecordUntouched(samples, vs, duration, k);
  }

  /** Keys that are no window frame's path key keep their counters. */
  lemma RecordStackUntouched(samples: seq<(string, SampleCount)>, prefixes: seq<string>, stack: seq<Frame>, duration: int, k: string)
    requires forall j :: Boundary(prefixes, stack) <= j < |stack| ==> k != PathKey(stack, j)
    ensures Get(RecordStack(samples, prefixes, stack, duration), k) == Get(samples, k)
  {
    RecordStackVisits(samples, prefixes, stack, duration);
    VisitsUntouched(samples, stack, Boundary(prefixes, stack), duration, k);
  }

  /**
   * Recording a stack keeps the counters sorted and adds `duration` of self
   * time exactly when the window is non-empty.
   */
  lemma RecordStackMethodTime(samples: seq<(string, SampleCount)>, prefixes: seq<string>, stack: seq<Frame>, duration: int)
    requires Sorted(samples)
    ensures Sorted(RecordStack(samples, prefixes, stack, duration))
    ensures SumOf(RecordStack(samples, prefixes, stack, duration), MethodTimeOf)
            == SumOf(samples, MethodTimeOf) + (if Boundary(prefixes, stack) < |stack| then duration else 0)
  {
    var b := Boundary(prefixes, stack);
    var vs := VisitsFrom(stack, b, |stack| - 1);
    RecordStackVisits(samples, prefixes, stack, duration);
    RecordKeepsSorted(samples, vs, duration);
    RecordMethodTime(samples, vs, duration);
    VisitsSelfShare(stack, b, |stack| - 1, duration);
  }

  /** Visiting frames `|stack| - 1` down to `b` adds `duration` of cumulative time per frame. */
  lemma VisitsCumulativeTime(samples: seq<(string, SampleCount)>, stack: seq<Frame>, b: nat, duration: int, n: nat)
    requires Sorted(samples) && n == (if b < |stack| then |stack| - b else 0)
    ensures SumOf(Record(samples, VisitsFrom(stack, b, |stack| - 1), duration), CumulativeTimeOf)
            == SumOf(samples, CumulativeTimeOf) + duration * n
  {
    RecordCumulativeTime(samples, VisitsFrom(stack, b, |stack| - 1), duration, n);
  }

  /** Recording a stack adds `duration` of cumulative time per window frame. */
  lemma RecordStackCumulativeTime(samples: seq<(string, SampleCount)>, prefixes: seq<string>, stack: seq<Frame>, duration: int)
    requires Sorted(samples)
    ensures SumOf(RecordStack(samples, prefixes, stack, duration), CumulativeTimeOf)
            == SumOf(samples, CumulativeTimeOf) + duration * WindowSize(prefixes, stack)
  {
    RecordStackVisits(samples, prefixes, stack, duration);
    VisitsCumulativeTime(samples, stack, Boundary(prefixes, stack), duration, WindowSize(prefixes, stack));
  }

  /** The number of frames recorded for a stack. */
  function WindowSize(prefixes: seq<string>, stack: seq<Frame>): nat {
    if Boundary(prefixes, stack) < |stack| then |stack| - Boundary(prefixes, stack) else 0
  }

  // ---------------------------------------------------------------------
  // The shape of the keys
  // ---------------------------------------------------------------------

  /** A frame whose token can be told apart inside a key: no comma and not empty. */
  predicate PlainToken(f: Frame) {
    ',' !in Token(f) && |Token(f)| > 0
  }

  /** Frames `i` to the outermost all have plain tokens. */
  ghost predicate PlainFrom(stack: seq<Frame>, i: nat) {
    forall j :: i <= j < |stack| ==> PlainToken(stack[j])
  }

  /**
   * The key `k` of the counters splits into one field per depth level down
   * to its counter's depth, the last field is not empty, and every shorter
   * run of leading fields is itself a key (the frames further out).
   */
  ghost predicate ShapedAt(samples: seq<(string, SampleCount)>, k: string)
    requires k in Keys(samples)
  {
    var fs := Fields(k);
    && |fs| == Get(samples, k).value.depth + 1
    && fs[|fs| - 1] != ""
    && forall m :: 1 <= m < |fs| ==> JoinComma(fs[..m]) in Keys(samples)
  }

  ghost predicate KeyShaped(samples: seq<(string, SampleCount)>) {
    forall k :: k in Keys(samples) ==> ShapedAt(samples, k)
  }

  /** The first `m` tokens of a path are the path of the frame `m - 1` levels in from the outermost one. */
  lemma {:induction false} PathTokensPrefix(stack: seq<Frame>, i: nat, m: nat)
    requires i < |stack| && 1 <= m <= |stack| - i
    ensures PathTokens(stack, i)[..m] == PathTokens(stack, |stack| - m)
    decreases |stack| - i
  {
    if m < |stack| - i {
      PathTokensPrefix(stack, i + 1, m);
      assert PathTokens(stack, i)[..m] == PathTokens(stack, i + 1)[..m];
    }
  }

  /** With plain tokens a path key splits back into its tokens. */
  lemma {:induction false} FieldsOfPathKey(stack: seq<Frame>, i: nat)
    requires i < |stack| && PlainFrom(stack, i)
    ensures Fields(PathKey(stack, i)) == PathTokens(stack, i)
  {
    var ts := PathTokens(stack, i);
    forall k | 0 <= k < |ts|
      ensures ',' !in ts[k]
    {
      PathTokenAt(stack, i, k);
    }
    PathKeyIsJoin(stack, i);
    FieldsOfJoin(ts);
  }

  /** The ancestors of a path key are the keys of the frames further out. */
  lemma PathKeyAncestor(stack: seq<Frame>, i: nat, m: nat)
    requires i < |stack| && PlainFrom(stack, i) && 1 <= m < |stack| - i
    ensures |Fields(PathKey(stack, i))| == |stack| - i
    ensures JoinComma(Fields(PathKey(stack, i))[..m]) == PathKey(stack, |stack| - m)
  {
    FieldsOfPathKey(stack, i);
    PathTokensPrefix(stack, i, m);
    PathKeyIsJoin(stack, |stack| - m);
  }

  /** The key of frame `i` has the shape its visit needs: its depth plus one fields, the last one its token. */
  lemma PathKeyShape(stack: seq<Frame>, i: nat)
    requires i < |stack| && PlainFrom(stack, i)
    ensures |Fields(PathKey(stack, i))| == |stack| - i
    ensures Fields(PathKey(stack, i))[|stack| - i - 1] == Token(stack[i]) != ""
  {
    FieldsOfPathKey(stack, i);
    PathTokenAt(stack, i, |stack| - i - 1);
  }

  /** Incrementing a key whose fields and ancestors are in place keeps every key shaped. */
  lemma BumpKeepsShape(samples: seq<(string, SampleCount)>, v: Visit, duration: int)
    requires KeyShaped(samples)
    requires |Fields(v.key)| == v.depth + 1 && Fields(v.key)[v.depth] != ""
    requires forall m :: 1 <= m < |Fields(v.key)| ==> JoinComma(Fields(v.key)[..m]) in Keys(samples)
    ensures KeyShaped(Bump(samples, v, duration))
  {
    var r := Bump(samples, v, duration);
    forall k | k in Keys(r)
      ensures ShapedAt(r, k)
    {
      if k != v.key {
        assert ShapedAt(samples, k);
      } else if k in Keys(samples) {
        assert ShapedAt(samples, k);
      }
    }
  }

  /** Visiting frames `i` down to `b` keeps every key shaped when the keys of the frames further out are present. */
  lemma {:induction false} VisitsKeepShape(samples: seq<(string, SampleCount)>, stack: seq<Frame>, b: nat, i: int, duration: int)
    requires -1 <= i < |stack| && PlainFrom(stack, b)
    requires KeyShaped(samples)
    requires forall j :: i < j < |stack| ==> PathKey(stack, j) in Keys(samples)
    ensures KeyShaped(Record(samples, VisitsFrom(stack, b, i), duration))
    decreases i + 1
  {
    if i >= b {
      var v := VisitsFrom(stack, b, i)[0];
      var next := Bump(samples, v, duration);
      VisitReady(samples, stack, b, i);
      BumpKeepsShape(samples, v, duration);
      VisitAddsKey(samples, stack, b, i, duration);
      VisitsKeepShape(next, stack, b, i - 1, duration);
      RecordVisitsUnfold(samples, stack, b, i, duration);
    }
  }

  /** Recording from frame `i` is visiting frame `i`, then recording from frame `i - 1`. */
  lemma {:induction false} RecordVisitsUnfold(samples: seq<(string, SampleCount)>, stack: seq<Frame>, b: nat, i: nat, duration: int)
    requires b <= i < |stack|
    ensures Record(samples, VisitsFrom(stack, b, i), duration)
            == Record(Bump(samples, VisitsFrom(stack, b, i)[0], duration), VisitsFrom(stack, b, i - 1), duration)
  {
    VisitsFromStep(stack, b, i);
  }

  /** After visiting frame `i` its key is present as well. */
  lemma VisitAddsKey(samples: seq<(string, SampleCount)>, stack: seq<Frame>, b: nat, i: nat, duration: int)
    requires b <= i < |stack|
    requires forall j :: i < j < |stack| ==> PathKey(stack, j) in Keys(samples)
    ensures forall j :: i - 1 < j < |stack| ==> PathKey(stack, j) in Keys(Bump(samples, VisitsFrom(stack, b, i)[0], duration))
  {
  }

  /** The visit of frame `i` meets the needs of `BumpKeepsShape` once the frames further out are keys. */
  lemma VisitReady(samples: seq<(string, SampleCount)>, stack: seq<Frame>, b: nat, i: nat)
    requires b <= i < |stack| && PlainFrom(stack, b)
    requires forall j :: i < j < |stack| ==> PathKey(stack, j) in Keys(samples)
    ensures var v := VisitsFrom(stack, b, i)[0];
            && |Fields(v.key)| == v.depth + 1 && Fields(v.key)[v.depth] != ""
            && forall m :: 1 <= m < |Fields(v.key)| ==> JoinComma(Fields(v.key)[..m]) in Keys(samples)
  {
    PathKeyShape(stack, i);
    forall m | 1 <= m < |Fields(PathKey(stack, i))|
      ensures JoinComma(Fields(PathKey(stack, i))[..m]) in Keys(samples)
    {
      PathKeyAncestor(stack, i, m);
    }
  }

  /** Recording a stack of plain frames keeps every key of the group shaped. */
  lemma RecordStackKeepsShape(samples: seq<(string, SampleCount)>, prefixes: seq<string>, stack: seq<Frame>, duration: int)
    requires KeyShaped(samples) && PlainFrom(stack, 0)
    ensures KeyShaped(RecordStack(samples, prefixes, stack, duration))
  {
    RecordStackVisits(samples, prefixes, stack, duration);
    VisitsKeepShape(samples, stack, Boundary(prefixes, stack), |stack| - 1, duration);
  }

  // ---------------------------------------------------------------------
  // One pass over the threads
  // ---------------------------------------------------------------------

  /**
   * A thread is sampled when the allowlist is empty or lists it, the
   * resolver gives it a canonical name, and it is not a daemon thread
   * while daemon threads are skipped.
   */
  predicate Admitted(cfg: CaptureConfig, resolve: Resolver, t: ThreadSnapshot) {
    && (cfg.allowlist == {} || t.id in cfg.allowlist)
    && resolve(t).Some?
    && !(cfg.skipDaemon && t.isDaemon)
  }

  /** The body of the per-thread loop of `sampleOnce`. */
  function SampleThread(cfg: CaptureConfig, resolve: Resolver, store: Store, t: ThreadSnapshot, duration: int): (r: Store)
    ensures !Admitted(cfg, resolve, t) ==> r == store
    ensures Admitted(cfg, resolve, t) ==>
              var name := resolve(t).value;
              var before := Get(store, name).GetOr(EmptyGroup);
              && Get(r, name).Some?
              && Get(r, name).value.threadNames == before.threadNames[t.id := t.name]
              && Get(r, name).value.maxDepth >= before.maxDepth
              && Get(r, name).value.maxDepth >= |t.stack|
              && (Get(r, name).value.maxDepth == before.maxDepth || Get(r, name).value.maxDepth == |t.stack|)
              && Get(r, name).value.samples == RecordStack(before.samples, cfg.prefixes, t.stack, duration)
    ensures forall g :: (!Admitted(cfg, resolve, t) || g != resolve(t).value) ==> Get(r, g) == Get(store, g)
  {
    if !Admitted(cfg, resolve, t) then store
    else
      var name := resolve(t).value;
      var group := Get(store, name).GetOr(EmptyGroup);
      var updated := Group(
        if |t.stack| > group.maxDepth then |t.stack| else group.maxDepth,
        group.threadNames[t.id := t.name],
        RecordStack(group.samples, cfg.prefixes, t.stack, duration));
      Put(store, name, updated)
  }

  /** Some admitted thread of the sequence resolves to group `g`. */
  predicate Touches(cfg: CaptureConfig, resolve: Resolver, threads: seq<ThreadSnapshot>, g: string) {
    exists k :: 0 <= k < |threads| && Admitted(cfg, resolve, threads[k]) && resolve(threads[k]) == Some(g)
  }

  /** `sampleOnce(duration)` over the snapshots, in order. Groups no admitted thread resolves to stay as they were. */
  function SamplePass(cfg: CaptureConfig, resolve: Resolver, store: Store, threads: seq<ThreadSnapshot>, duration: int): (r: Store)
    ensures forall g :: !Touches(cfg, resolve, threads, g) ==> Get(r, g) == Get(store, g)
    decreases |threads|
  {
    if |threads| == 0 then store
    else
      var r := SamplePass(cfg, resolve, SampleThread(cfg, resolve, store, threads[0], duration), threads[1..], duration);
      assert forall g :: !Touches(cfg, resolve, threads, g) ==> !Touches(cfg, resolve, threads[1..], g) by {
        forall g | Touches(cfg, resolve, threads[1..], g)
          ensures Touches(cfg, resolve, threads, g)
        {
          var k :| 0 <= k < |threads[1..]| && Admitted(cfg, resolve, threads[1..][k]) && resolve(threads[1..][k]) == Some(g);
          assert threads[1..][k] == threads[k + 1];
        }
      }
      r
  }

  /** Every group's counters are in key order, and so are the groups. */
  ghost predicate WellFormedStore(store: Store) {
    && Sorted(store)
    && forall g :: Get(store, g).Some? ==> Sorted(Get(store, g).value.samples)
  }

  /** Self time of a group, 0 for an absent group. */
  function GroupMethodTime(store: Store, g: string): int {
    match Get(store, g)
    case None => 0
    case Some(group) => SumOf(group.samples, MethodTimeOf)
  }

  /** Does thread `t` add a non-empty window to group `g`? */
  predicate Contributes(cfg: CaptureConfig, resolve: Resolver, t: ThreadSnapshot, g: string) {
    Admitted(cfg, resolve, t) && resolve(t) == Some(g) && Boundary(cfg.prefixes, t.stack) < |t.stack|
  }

  function ContributorCount(cfg: CaptureConfig, resolve: Resolver, threads: seq<ThreadSnapshot>, g: string): nat {
    if |threads| == 0 then 0
    else (if Contributes(cfg, resolve, threads[0], g) then 1 else 0) + ContributorCount(cfg, resolve, threads[1..], g)
  }

  lemma SampleThreadKeepsWellFormed(cfg: CaptureConfig, resolve: Resolver, store: Store, t: ThreadSnapshot, duration: int)
    requires WellFormedStore(store)
    ensures WellFormedStore(SampleThread(cfg, resolve, store, t, duration))
    ensures GroupMethodTime(SampleThread(cfg, resolve, store, t, duration), resolve(t).GetOr(""))
            == GroupMethodTime(store, resolve(t).GetOr("")) + (if Contributes(cfg, resolve, t, resolve(t).GetOr("")) then duration else 0)
  {
    if Admitted(cfg, resolve, t) {
      var name := resolve(t).value;
      var group := Get(store, name).GetOr(EmptyGroup);
      var updated := Group(
        if |t.stack| > group.maxDepth then |t.stack| else group.maxDepth,
        group.threadNames[t.id := t.name],
        RecordStack(group.samples, cfg.prefixes, t.stack, duration));
      RecordStackMethodTime(group.samples, cfg.prefixes, t.stack, duration);
      PutKeepsSorted(store, name, updated);
    }
  }

  /**
   * Conservation over a pass: each group's self time rises by `duration`
   * times the number of threads that contributed a non-empty window to it.
   */
  lemma {:induction false} PassMethodTime(cfg: CaptureConfig, resolve: Resolver, store: Store, threads: seq<ThreadSnapshot>, duration: int, g: string)
    requires WellFormedStore(store)
    ensures WellFormedStore(SamplePass(cfg, resolve, store, threads, duration))
    ensures GroupMethodTime(SamplePass(cfg, resolve, store, threads, duration), g)
            == GroupMethodTime(store, g) + duration * ContributorCount(cfg, resolve, threads, g)
    decreases |threads|
  {
    if |threads| > 0 {
      var t := threads[0];
      var next := SampleThread(cfg, resolve, store, t, duration);
      SampleThreadKeepsWellFormed(cfg, resolve, store, t, duration);
      PassMethodTime(cfg, resolve, next, threads[1..], duration, g);
      if !(Admitted(cfg, resolve, t) && resolve(t).value == g) {
        assert GroupMethodTime(next, g) == GroupMethodTime(store, g);
      }
      var rest := ContributorCount(cfg, resolve, threads[1..], g);
      var first := if Contributes(cfg, resolve, t, g) then 1 else 0;
      assert duration * (first + rest) == duration * first + duration * rest;
    }
  }

  /** Every group's keys are shaped. */
  ghost predicate ShapedStore(store: Store) {
    forall g :: Get(store, g).Some? ==> KeyShaped(Get(store, g).value.samples)
  }

  /** A thread whose frames all have plain tokens keeps every group's keys shaped. */
  lemma SampleThreadKeepsShape(cfg: CaptureConfig, resolve: Resolver, store: Store, t: ThreadSnapshot, duration: int)
    requires ShapedStore(store) && PlainFrom(t.stack, 0)
    ensures ShapedStore(SampleThread(cfg, resolve, store, t, duration))
  {
    if Admitted(cfg, resolve, t) {
      var group := Get(store, resolve(t).value).GetOr(EmptyGroup);
      RecordStackKeepsShape(group.samples, cfg.prefixes, t.stack, duration);
    }
  }

  /** A pass over threads whose frames all have plain tokens keeps every group's keys shaped. */
  lemma {:induction false} PassKeepsShape(cfg: CaptureConfig, resolve: Resolver, store: Store, threads: seq<ThreadSnapshot>, duration: int)
    requires ShapedStore(store)
    requires forall k :: 0 <= k < |threads| ==> PlainFrom(threads[k].stack, 0)
    ensures ShapedStore(SamplePass(cfg, resolve, store, threads, duration))
    decreases |threads|
  {
    if |threads| > 0 {
      SampleThreadKeepsShape(cfg, resolve, store, threads[0], duration);
      assert forall k :: 0 <= k < |threads[1..]| ==> threads[1..][k] == threads[k + 1];
      PassKeepsShape(cfg, resolve, SampleThread(cfg, resolve, store, threads[0], duration), threads[1..], duration);
    }
  }
}
