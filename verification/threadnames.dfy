/**
 * `RegexThreadNameManipulator`: the canonical group name of a thread is
 * its raw name with every removal pattern applied in turn, each removing
 * all of its matches; an empty result excludes the thread.
 *
 * A compiled pattern is modelled as the function its `replaceAll("")`
 * computes. The two built-in patterns are defined exactly:
 * `[0-9a-f]{16,}` and `[\.:\d]+`.
 */
module ThreadNames {
  import opened Wrappers
  import opened Strings

  /** The shortest run of hexadecimal digits the first built-in pattern removes. */
  const LongRun := 16

  /** The characters of `[0-9a-f]`: lower-case hexadecimal digits only. */
  predicate IsLowerHex(c: char) {
    IsDigit(c) || ('a' <= c <= 'f')
  }

  /** The characters of `[\.:\d]`: `\d` is the ASCII digits, Java's default. */
  predicate IsSeparator(c: char) {
    c == '.' || c == ':' || IsDigit(c)
  }

  // ---------------------------------------------------------------------
  // [0-9a-f]{16,}
  // ---------------------------------------------------------------------

  /** The length of the run of hexadecimal digits that starts `s`. */
  function HexRunLength(s: string): (n: nat)
    ensures n <= |s|
    ensures forall k :: 0 <= k < n ==> IsLowerHex(s[k])
    ensures n < |s| ==> !IsLowerHex(s[n])
  {
    if |s| == 0 || !IsLowerHex(s[0]) then 0 else 1 + HexRunLength(s[1..])
  }

  /**
   * `replaceAll("")` with `[0-9a-f]{16,}`. The matcher tries each position
   * in turn; a greedy match takes the whole run of hexadecimal digits from
   * there, so a run of 16 or more disappears and a shorter one stays (as do
   * all its suffixes, which are shorter still).
   */
  function RemoveLongHexRuns(s: string): (r: string)
    ensures |r| <= |s|
    ensures |s| > 0 && !IsLowerHex(s[0]) ==> |r| > 0 && r[0] == s[0]
    decreases |s|
  {
    if |s| == 0 then ""
    else
      var n := HexRunLength(s);
      if n >= LongRun then RemoveLongHexRuns(s[n..])
      else if n > 0 then s[..n] + RemoveLongHexRuns(s[n..])
      else [s[0]] + RemoveLongHexRuns(s[1..])
  }

  /** The 16 characters from `i` are all hexadecimal digits. */
  ghost predicate HexWindow(s: string, i: nat)
    requires i + LongRun <= |s|
  {
    forall k :: i <= k < i + LongRun ==> IsLowerHex(s[k])
  }

  /** Somewhere in `s` sixteen hexadecimal digits follow one another. */
  ghost predicate HasLongHexRun(s: string) {
    exists i: nat :: i + LongRun <= |s| && HexWindow(s, i)
  }

  /** A window lying wholly in the right-hand part of a concatenation is a window of that part. */
  lemma WindowInSuffix(a: string, b: string, i: nat)
    requires |a| <= i && i + LongRun <= |a + b|
    ensures HexWindow(a + b, i) ==> HexWindow(b, i - |a|)
  {
    if HexWindow(a + b, i) {
      forall k | i - |a| <= k < i - |a| + LongRun
        ensures IsLowerHex(b[k])
      {
        assert (a + b)[k + |a|] == b[k];
      }
    }
  }

  /** A window that contains a character that is not a hexadecimal digit is no run. */
  lemma WindowBlocked(s: string, i: nat, j: nat)
    requires i + LongRun <= |s| && i <= j < i + LongRun && !IsLowerHex(s[j])
    ensures !HexWindow(s, i)
  {
  }

  /** A run of 16 or more at the start is a window at 0. */
  lemma LongRunIsWindow(s: string)
    ensures HexRunLength(s) >= LongRun ==> HexWindow(s, 0)
  {
  }

  /** A character that is not a hexadecimal digit, then a run-free string: run-free. */
  lemma BlockerThenRest(c: char, t: string)
    requires !IsLowerHex(c) && !HasLongHexRun(t)
    ensures !HasLongHexRun([c] + t)
  {
    var r := [c] + t;
    forall i: nat | i + LongRun <= |r|
      ensures !HexWindow(r, i)
    {
      if i >= 1 {
        WindowInSuffix([c], t, i);
      } else {
        WindowBlocked(r, i, 0);
      }
    }
  }

  /** A short run, then a run-free string that is empty or starts with a blocker: run-free. */
  lemma ShortRunThenRest(a: string, t: string)
    requires |a| < LongRun && !HasLongHexRun(t)
    requires |t| > 0 ==> !IsLowerHex(t[0])
    ensures !HasLongHexRun(a + t)
  {
    var r := a + t;
    forall i: nat | i + LongRun <= |r|
      ensures !HexWindow(r, i)
    {
      if i >= |a| {
        WindowInSuffix(a, t, i);
      } else {
        WindowBlocked(r, i, |a|);
      }
    }
  }

  /** After the removal no run of 16 hexadecimal digits is left. */
  lemma {:induction false} NoLongHexRunRemains(s: string)
    ensures !HasLongHexRun(RemoveLongHexRuns(s))
    decreases |s|
  {
    if |s| > 0 {
      var n := HexRunLength(s);
      if n >= LongRun {
        NoLongHexRunRemains(s[n..]);
      } else if n > 0 {
        NoLongHexRunRemains(s[n..]);
        var t := RemoveLongHexRuns(s[n..]);
        assert n < |s| ==> |t| > 0 && t[0] == s[n];
        assert n == |s| ==> t == "";
        ShortRunThenRest(s[..n], t);
      } else {
        NoLongHexRunRemains(s[1..]);
        BlockerThenRest(s[0], RemoveLongHexRuns(s[1..]));
      }
    }
  }

  /** A run inside a suffix is a run of the whole string. */
  lemma SuffixRun(s: string, m: nat)
    requires m <= |s|
    ensures HasLongHexRun(s[m..]) ==> HasLongHexRun(s)
  {
    if HasLongHexRun(s[m..]) {
      var i: nat :| i + LongRun <= |s[m..]| && HexWindow(s[m..], i);
      assert HexWindow(s, m + i);
    }
  }

  /** A name without a long run passes unchanged: the removal only ever takes long runs. */
  lemma {:induction false} ShortRunsKept(s: string)
    requires !HasLongHexRun(s)
    ensures RemoveLongHexRuns(s) == s
    decreases |s|
  {
    if |s| > 0 {
      LongRunIsWindow(s);
      var n := HexRunLength(s);
      var m := if n > 0 then n else 1;
      SuffixRun(s, m);
      ShortRunsKept(s[m..]);
      assert s == s[..m] + s[m..];
    }
  }

  /** Removing twice removes nothing more. */
  lemma {:induction false} RemoveLongHexRunsIdempotent(s: string)
    ensures RemoveLongHexRuns(RemoveLongHexRuns(s)) == RemoveLongHexRuns(s)
  {
    NoLongHexRunRemains(s);
    ShortRunsKept(RemoveLongHexRuns(s));
  }

  /** One step of the removal: the run or character in front is kept or dropped, then the rest follows. */
  lemma RemoveLongHexRunsStep(s: string)
    requires |s| > 0
    ensures var n := HexRunLength(s);
            var m := if n > 0 then n else 1;
            RemoveLongHexRuns(s) == (if n >= LongRun then "" else s[..m]) + RemoveLongHexRuns(s[m..])
  {
    var n := HexRunLength(s);
    if n == 0 {
      assert s[..1] == [s[0]];
    }
  }

  /** A run stops at the first character that is not a hexadecimal digit, wherever that lies. */
  lemma {:induction false} HexRunBlocked(a: string, t: string)
    requires |t| > 0 && !IsLowerHex(t[0])
    ensures HexRunLength(a + t) == HexRunLength(a)
    decreases |a|
  {
    if |a| > 0 && IsLowerHex(a[0]) {
      assert (a + t)[1..] == a[1..] + t;
      HexRunBlocked(a[1..], t);
    }
  }

  /** A string of hexadecimal digits only is one run. */
  lemma {:induction false} AllHexIsOneRun(s: string)
    requires forall k :: 0 <= k < |s| ==> IsLowerHex(s[k])
    ensures HexRunLength(s) == |s|
    decreases |s|
  {
    if |s| > 0 {
      AllHexIsOneRun(s[1..]);
    }
  }

  /** A string of hexadecimal digits only goes entirely when it is long, and stays entirely when it is short. */
  lemma AllHexRemoval(s: string)
    requires forall k :: 0 <= k < |s| ==> IsLowerHex(s[k])
    ensures RemoveLongHexRuns(s) == if |s| >= LongRun then "" else s
  {
    if |s| > 0 {
      AllHexIsOneRun(s);
      assert s[..|s|] == s;
    }
  }

  /**
   * A character that is not a hexadecimal digit splits the removal: what
   * lies before it and what lies after it are treated independently.
   */
  lemma {:induction false} RemovalSplitsAtBlocker(a: string, c: char, b: string)
    requires !IsLowerHex(c)
    ensures RemoveLongHexRuns(a + [c] + b) == RemoveLongHexRuns(a) + [c] + RemoveLongHexRuns(b)
    decreases |a|
  {
    var s := a + [c] + b;
    if |a| == 0 {
      assert s == [c] + b;
      assert s[1..] == b;
    } else {
      ConcatAssoc(a, [c], b);
      HexRunBlocked(a, [c] + b);
      var n := HexRunLength(a);
      var m := if n > 0 then n else 1;
      var kept := if n >= LongRun then "" else a[..m];
      CutInsideLeft(a, [c] + b, m);
      ConcatAssoc(a[m..], [c], b);
      RemoveLongHexRunsStep(s);
      RemoveLongHexRunsStep(a);
      RemovalSplitsAtBlocker(a[m..], c, b);
      var x, y := RemoveLongHexRuns(a[m..]), RemoveLongHexRuns(b);
      assert RemoveLongHexRuns(s) == kept + (x + [c] + y);
      ConcatAssoc(kept, x, [c]);
      ConcatAssoc(kept + x, [c], y);
      ConcatAssoc(kept, x + [c], y);
    }
  }

  /** A run of hexadecimal digits holds no other character. */
  lemma HexRunHoldsNoOther(s: string, c: char)
    requires !IsLowerHex(c)
    ensures multiset(s[..HexRunLength(s)])[c] == 0
  {
    assert c !in s[..HexRunLength(s)];
  }

  /** Occurrences in a concatenation add up. */
  lemma CountConcat(a: string, b: string, c: char)
    ensures multiset(a + b)[c] == multiset(a)[c] + multiset(b)[c]
  {
  }

  /** Occurrences in a string add up over a cut. */
  lemma CountSplit(s: string, m: nat, c: char)
    requires m <= |s|
    ensures multiset(s)[c] == multiset(s[..m])[c] + multiset(s[m..])[c]
  {
    assert s == s[..m] + s[m..];
    CountConcat(s[..m], s[m..], c);
  }

  /** A character that is not a hexadecimal digit survives, as often as it occurred. */
  lemma {:induction false} KeepsOtherChar(s: string, c: char)
    requires !IsLowerHex(c)
    ensures multiset(RemoveLongHexRuns(s))[c] == multiset(s)[c]
    decreases |s|
  {
    if |s| > 0 {
      var n := HexRunLength(s);
      var m := if n > 0 then n else 1;
      var kept := if n >= LongRun then "" else s[..m];
      var rest := RemoveLongHexRuns(s[m..]);
      RemoveLongHexRunsStep(s);
      KeepsOtherChar(s[m..], c);
      CountConcat(kept, rest, c);
      CountSplit(s, m, c);
      if n >= LongRun {
        HexRunHoldsNoOther(s, c);
      }
    }
  }

  /** Every character that is not a hexadecimal digit survives, as often as it occurred. */
  lemma {:induction false} KeepsOtherChars(s: string)
    ensures forall c :: !IsLowerHex(c) ==> multiset(RemoveLongHexRuns(s))[c] == multiset(s)[c]
  {
    forall c | !IsLowerHex(c)
      ensures multiset(RemoveLongHexRuns(s))[c] == multiset(s)[c]
    {
      KeepsOtherChar(s, c);
    }
  }

  // ---------------------------------------------------------------------
  // [\.:\d]+
  // ---------------------------------------------------------------------

  /** `replaceAll("")` with `[\.:\d]+`: every dot, colon and digit goes. */
  function RemoveNumericSeparators(s: string): string {
    RemoveWhere(s, IsSeparator)
  }

  /** No dot, colon or digit is left, and every other character keeps its count. */
  lemma NumericSeparatorsRemoved(s: string)
    ensures forall i :: 0 <= i < |RemoveNumericSeparators(s)| ==> !IsSeparator(RemoveNumericSeparators(s)[i])
    ensures forall c :: !IsSeparator(c) ==> multiset(RemoveNumericSeparators(s))[c] == multiset(s)[c]
  {
    RemoveWhereDrops(s, IsSeparator);
    RemoveWhereCounts(s, IsSeparator);
  }

  // ---------------------------------------------------------------------
  // The manipulator
  // ---------------------------------------------------------------------

  /** A compiled removal pattern, as the function `matcher(s).replaceAll("")` computes. */
  type Removal = string -> string

  /** `threadNameRemovalPatterns`: `None` until set or initialised. */
  datatype Manipulator = Manipulator(patterns: Option<seq<Removal>>)

  const Unset := Manipulator(None)

  /** The patterns `init` installs: long hexadecimal runs first, then dots, colons and digits. */
  const DefaultPatterns: seq<Removal> := [RemoveLongHexRuns, RemoveNumericSeparators]

  /** What `getManipulatedThreadName` gives: a group name, `null`, or a `NullPointerException` when no patterns are set. */
  datatype Naming = Canonical(name: string) | Excluded | Uninitialised

  /** The patterns applied left to right. */
  function ApplyAll(patterns: seq<Removal>, name: string): string
    decreases |patterns|
  {
    if |patterns| == 0 then name else ApplyAll(patterns[1..], patterns[0](name))
  }

  /** Applying a longer list is applying the shorter one, then the last pattern. */
  lemma {:induction false} ApplyAllLast(patterns: seq<Removal>, p: Removal, name: string)
    ensures ApplyAll(patterns + [p], name) == p(ApplyAll(patterns, name))
    decreases |patterns|
  {
    if |patterns| > 0 {
      assert (patterns + [p])[1..] == patterns[1..] + [p];
      ApplyAllLast(patterns[1..], p, patterns[0](name));
    }
  }

  /** `setThreadNameRemovalPatterns`: replaces whatever was there, an empty list included. */
  function SetThreadNameRemovalPatterns(m: Manipulator, patterns: seq<Removal>): (r: Manipulator)
    ensures r.patterns.Some? && |r.patterns.value| == |patterns|
    ensures forall i :: 0 <= i < |patterns| ==> r.patterns.value[i] == patterns[i]
  {
    Manipulator(Some(patterns))
  }

  /** `init`: installs the default patterns only when none are set. */
  function Init(m: Manipulator): (r: Manipulator)
    ensures r.patterns.Some?
    ensures m.patterns.Some? ==> r == m
    ensures m.patterns.None? ==> r.patterns.value == DefaultPatterns
  {
    if m.patterns.None? then Manipulator(Some(DefaultPatterns)) else m
  }

  /** `getManipulatedThreadName`: the name with every pattern applied; empty means excluded. */
  function GetManipulatedThreadName(m: Manipulator, name: string): (r: Naming)
    ensures r.Uninitialised? <==> m.patterns.None?
    ensures m.patterns.Some? ==> (r.Excluded? <==> ApplyAll(m.patterns.value, name) == "")
    ensures r.Canonical? ==> r.name == ApplyAll(m.patterns.value, name) && r.name != ""
  {
    match m.patterns
    case None => Uninitialised
    case Some(ps) =>
      var stripped := ApplyAll(ps, name);
      if |stripped| == 0 then Excluded else Canonical(stripped)
  }

  /** `init` twice is `init` once, and patterns set before `init` are kept, even an empty list. */
  lemma InitKeepsPatterns(m: Manipulator, patterns: seq<Removal>)
    ensures Init(Init(m)) == Init(m)
    ensures Init(SetThreadNameRemovalPatterns(m, patterns)) == SetThreadNameRemovalPatterns(m, patterns)
  {
  }

  /** With an explicitly empty pattern list every name is its own group, and only the empty name is excluded. */
  lemma EmptyPatternsKeepNames(m: Manipulator, name: string)
    ensures GetManipulatedThreadName(Init(SetThreadNameRemovalPatterns(m, [])), name)
            == if name == "" then Excluded else Canonical(name)
  {
  }

  /** The name the default patterns give, step by step. */
  function DefaultNaming(name: string): string {
    RemoveNumericSeparators(RemoveLongHexRuns(name))
  }

  lemma DefaultPatternsApply(name: string)
    ensures GetManipulatedThreadName(Init(Unset), name)
            == if DefaultNaming(name) == "" then Excluded else Canonical(DefaultNaming(name))
  {
    var ps := DefaultPatterns;
    var first := RemoveLongHexRuns(name);
    assert ApplyAll(ps, name) == ApplyAll(ps[1..], first);
    assert ApplyAll(ps[1..], first) == ApplyAll(ps[1..][1..], RemoveNumericSeparators(first));
    assert ps[1..][1..] == [];
  }

  /** The removal adds no character the name did not have. */
  lemma {:induction false} RemovalAddsNothing(s: string)
    ensures forall c :: c in RemoveLongHexRuns(s) ==> c in s
    decreases |s|
  {
    if |s| > 0 {
      var n := HexRunLength(s);
      var m := if n > 0 then n else 1;
      RemovalAddsNothing(s[m..]);
      assert s == s[..m] + s[m..];
    }
  }

  /** With the default patterns a group name holds no dot, colon or digit. */
  lemma DefaultNamingHasNoSeparators(name: string)
    ensures forall i :: 0 <= i < |DefaultNaming(name)| ==> !IsSeparator(DefaultNaming(name)[i])
  {
    NumericSeparatorsRemoved(RemoveLongHexRuns(name));
  }

  /** A name made only of dots, colons and digits is excluded. */
  lemma SeparatorOnlyNamesExcluded(name: string)
    requires forall i :: 0 <= i < |name| ==> IsSeparator(name[i])
    ensures GetManipulatedThreadName(Init(Unset), name) == Excluded
  {
    DefaultPatternsApply(name);
    DefaultNamingHasNoSeparators(name);
    RemovalAddsNothing(name);
    RemoveWhereCounts(RemoveLongHexRuns(name), IsSeparator);
    var r := DefaultNaming(name);
    forall c
      ensures multiset(r)[c] == 0
    {
      if !IsSeparator(c) {
        assert c !in name;
        assert c !in RemoveLongHexRuns(name);
      }
    }
    assert multiset(r) == multiset{};
  }

  /** Every character that is neither a hexadecimal digit nor a separator keeps its count in the group name. */
  lemma DefaultNamingKeepsOtherChars(name: string)
    ensures forall c :: !IsLowerHex(c) && !IsSeparator(c) ==> multiset(DefaultNaming(name))[c] == multiset(name)[c]
  {
    KeepsOtherChars(name);
    NumericSeparatorsRemoved(RemoveLongHexRuns(name));
  }

  /** A name with a character that is neither a hexadecimal digit nor a separator always gets a group. */
  lemma NamesWithOtherCharsGetGroup(name: string, i: nat)
    requires i < |name| && !IsLowerHex(name[i]) && !IsSeparator(name[i])
    ensures GetManipulatedThreadName(Init(Unset), name).Canonical?
  {
    DefaultPatternsApply(name);
    DefaultNamingKeepsOtherChars(name);
    assert name[i] in multiset(name);
    assert name[i] in multiset(DefaultNaming(name));
  }

  /** Letters `a` to `f`: hexadecimal digits that the second pattern keeps. */
  predicate HexLetters(s: string) {
    forall k :: 0 <= k < |s| ==> 'a' <= s[k] <= 'f'
  }

  /** Two short runs of hexadecimal letters with a dot between them pass the first pattern untouched. */
  lemma {:induction false} DottedRunsSurviveFirstPattern(a: string, b: string)
    requires HexLetters(a) && HexLetters(b) && |a| < LongRun && |b| < LongRun
    ensures RemoveLongHexRuns(a + "." + b) == a + "." + b
  {
    var name := a + "." + b;
    assert name[|a|] == '.';
    forall i: nat | i + LongRun <= |name|
      ensures !HexWindow(name, i)
    {
      WindowBlocked(name, i, |a|);
    }
    ShortRunsKept(name);
  }

  /** The second pattern then takes the dot out. */
  lemma DottedRunsLoseDot(a: string, b: string)
    requires HexLetters(a) && HexLetters(b)
    ensures RemoveNumericSeparators(a + "." + b) == a + b
  {
    assert a + "." + b == a + ("." + b);
    RemoveWhereAppend(a, "." + b, IsSeparator);
    RemoveWhereAppend(".", b, IsSeparator);
    RemoveWhereNothing(a, IsSeparator);
    RemoveWhereNothing(b, IsSeparator);
  }

  /**
   * The second pattern can join what the first one left: a dot between two
   * short runs of hexadecimal letters vanishes after the long-run pattern
   * has already passed, so when the runs add up to sixteen or more the
   * default group name still holds a long run.
   */
  lemma SeparatorsCanJoinHexRuns(a: string, b: string)
    requires HexLetters(a) && HexLetters(b) && |a| < LongRun && |b| < LongRun
    requires |a| + |b| >= LongRun
    ensures GetManipulatedThreadName(Init(Unset), a + "." + b) == Canonical(a + b)
    ensures HasLongHexRun(a + b)
  {
    DottedRunsSurviveFirstPattern(a, b);
    DottedRunsLoseDot(a, b);
    DefaultPatternsApply(a + "." + b);
    assert HexWindow(a + b, 0);
  }
}
