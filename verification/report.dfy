/**
 * The report renderer (`printReportNow`): for every group, its counters are
 * visited in key order; each counter first records its times and display
 * label in per-depth slots shared by the whole report, is then either
 * collapsed into its parent row or printed with an indentation that counts
 * only the depth levels where something changes, and the timing columns are
 * aligned by padding the frame token to a fixed width.
 */
module Report {
  import opened Wrappers
  import opened Strings
  import opened SortedMap
  import opened Counters
  import opened Capture

  /** The length of the per-depth arrays; counters this deep or deeper are never printed. */
  const DepthLimit := 1000

  /** The length of the `spaces` literal the frame token is padded against. */
  const PadWidth := 150

  const CumulativeCaption := " Cumulative time(ms): "
  const MethodCaption := ", Method time(ms): "

  // ---------------------------------------------------------------------
  // Display labels
  // ---------------------------------------------------------------------

  /** The length of the longest all-lower-case prefix of `s`. */
  function LowerRun(s: string): (n: nat)
    ensures n <= |s|
    ensures forall i :: 0 <= i < n ==> IsLower(s[i])
    ensures n < |s| ==> !IsLower(s[n])
  {
    if |s| == 0 || !IsLower(s[0]) then 0 else 1 + LowerRun(s[1..])
  }

  predicate NoLineTerminator(s: string) {
    forall i :: 0 <= i < |s| ==> !IsLineTerminator(s[i])
  }

  /**
   * A way for `([a-z]+\.([a-z]+|)).*` to match all of `text`: lower-case
   * letters before the dot at `k`, lower-case letters from `k + 1` up to `m`,
   * and a rest that `.` can consume.
   */
  ghost predicate Parse(text: string, k: nat, m: nat) {
    && 0 < k < m <= |text|
    && text[k] == '.'
    && (forall i :: 0 <= i < k ==> IsLower(text[i]))
    && (forall i :: k < i < m ==> IsLower(text[i]))
    && NoLineTerminator(text[m..])
  }

  /**
   * The label a counter shows with zero-time packages reported: group 1 of
   * `([a-z]+\.([a-z]+|)).*` when it matches the whole frame text, the whole
   * text otherwise.
   */
  function PackageLabel(text: string): string {
    var k := LowerRun(text);
    if 0 < k < |text| && text[k] == '.' && NoLineTerminator(text) then
      text[..k + 1 + LowerRun(text[k + 1..])]
    else
      text
  }

  /** The matcher succeeds with the greedy (longest) second group, or fails and the text is kept. */
  lemma PackageLabelIsGroupOne(text: string)
    ensures forall k: nat, m: nat :: Parse(text, k, m) ==>
              && PackageLabel(text) == text[..|PackageLabel(text)|]
              && Parse(text, k, |PackageLabel(text)|)
              && m <= |PackageLabel(text)|
    ensures (forall k: nat, m: nat :: !Parse(text, k, m)) ==> PackageLabel(text) == text
  {
    var k0 := LowerRun(text);
    forall k: nat, m: nat | Parse(text, k, m)
      ensures PackageLabel(text) == text[..|PackageLabel(text)|]
      ensures Parse(text, k, |PackageLabel(text)|)
      ensures m <= |PackageLabel(text)|
    {
      ParseIsGreedy(text, k, m);
    }
    if 0 < k0 < |text| && text[k0] == '.' && NoLineTerminator(text) {
      ParseOfLabel(text);
    }
  }

  /** The label the code computes is a parse whenever the guard holds. */
  lemma ParseOfLabel(text: string)
    requires 0 < LowerRun(text) < |text| && text[LowerRun(text)] == '.' && NoLineTerminator(text)
    ensures Parse(text, LowerRun(text), LowerRun(text) + 1 + LowerRun(text[LowerRun(text) + 1..]))
  {
    var k := LowerRun(text);
    var rest := text[k + 1..];
    var m := k + 1 + LowerRun(rest);
    forall i | k < i < m
      ensures IsLower(text[i])
    {
      assert text[i] == rest[i - k - 1];
    }
    forall i | 0 <= i < |text[m..]|
      ensures !IsLineTerminator(text[m..][i])
    {
      assert text[m..][i] == text[m + i];
    }
    assert 0 < k < m <= |text| && text[k] == '.';
    assert forall i :: 0 <= i < k ==> IsLower(text[i]);
  }

  /** A run of `k` lower-case letters at the start is within the longest one, and is it when a non-letter follows. */
  lemma {:induction false} LowerRunCovers(s: string, k: nat)
    requires k <= |s| && forall i :: 0 <= i < k ==> IsLower(s[i])
    ensures LowerRun(s) >= k
    ensures k < |s| && !IsLower(s[k]) ==> LowerRun(s) == k
  {
    if k > 0 {
      assert IsLower(s[0]);
      LowerRunCovers(s[1..], k - 1);
    }
  }

  /** Every parse has its dot where the code looks for it and ends no later than the code's label. */
  lemma ParseIsGreedy(text: string, k: nat, m: nat)
    requires Parse(text, k, m)
    ensures k == LowerRun(text)
    ensures NoLineTerminator(text)
    ensures PackageLabel(text) == text[..k + 1 + LowerRun(text[k + 1..])]
    ensures m <= k + 1 + LowerRun(text[k + 1..])
    ensures Parse(text, k, k + 1 + LowerRun(text[k + 1..]))
  {
    LowerRunCovers(text, k);
    forall i | 0 <= i < |text|
      ensures !IsLineTerminator(text[i])
    {
      if i >= m {
        assert text[i] == text[m..][i - m];
      }
    }
    var rest := text[k + 1..];
    forall i | 0 <= i < m - k - 1
      ensures IsLower(rest[i])
    {
      assert rest[i] == text[k + 1 + i];
    }
    LowerRunCovers(rest, m - k - 1);
    ParseOfLabel(text);
  }

  /** The display label of a counter's frame text: empty unless zero-time packages are reported. */
  function DisplayLabel(reportZeroTime: bool, text: string): string {
    if reportZeroTime then PackageLabel(text) else ""
  }

  // ---------------------------------------------------------------------
  // The per-depth slots
  // ---------------------------------------------------------------------

  /**
   * The three arrays `depthMethodTime`, `depthCummulativeTime` and
   * `depthPackage`, allocated once per report and shared by all its groups;
   * `None` is a slot no counter has written yet.
   */
  datatype Slots = Slots(methodTime: seq<int>, cumulativeTime: seq<int>, labels: seq<Option<string>>)

  ghost predicate SlotsOk(s: Slots) {
    |s.methodTime| == DepthLimit && |s.cumulativeTime| == DepthLimit && |s.labels| == DepthLimit
  }

  /** Fresh arrays: zero times and `null` labels. */
  function FreshSlots(): (s: Slots)
    ensures SlotsOk(s)
    ensures forall d :: 0 <= d < DepthLimit ==> s.methodTime[d] == 0 && s.cumulativeTime[d] == 0 && s.labels[d] == None
  {
    Slots(seq(DepthLimit, d => 0), seq(DepthLimit, d => 0), seq(DepthLimit, d => None))
  }

  /** A counter within the limit writes its times and label into the slot of its depth. */
  function StoreSlot(s: Slots, c: SampleCount, reportZeroTime: bool): (r: Slots)
    requires SlotsOk(s)
    ensures SlotsOk(r)
    ensures c.depth < DepthLimit ==>
              && r.methodTime[c.depth] == c.methodTime
              && r.cumulativeTime[c.depth] == c.cumulativeTime
              && r.labels[c.depth] == Some(DisplayLabel(reportZeroTime, c.frameText))
    ensures forall d :: 0 <= d < DepthLimit && d != c.depth ==>
              r.methodTime[d] == s.methodTime[d] && r.cumulativeTime[d] == s.cumulativeTime[d] && r.labels[d] == s.labels[d]
  {
    if c.depth < DepthLimit then
      Slots(s.methodTime[c.depth := c.methodTime],
            s.cumulativeTime[c.depth := c.cumulativeTime],
            s.labels[c.depth := Some(DisplayLabel(reportZeroTime, c.frameText))])
    else s
  }

  /**
   * The skip rule, read on the slots after the counter's own write: too deep
   * to print, or a pass-through frame with no self time whose cumulative
   * time and label equal those of the depth above.
   */
  predicate Collapses(s: Slots, c: SampleCount)
    requires SlotsOk(s)
  {
    c.depth >= DepthLimit
    || (c.methodTime == 0 && c.depth > 0
        && c.cumulativeTime == s.cumulativeTime[c.depth - 1]
        && s.labels[c.depth] == s.labels[c.depth - 1])
  }

  /**
   * The skip rule in terms of what was there before the counter's write: a
   * counter is skipped when it is too deep, or when it has no self time,
   * is not at depth 0, and the depth above holds its cumulative time and
   * its own display label. A depth above that no counter has written never
   * matches, as `equals(null)` is false.
   */
  lemma SkipRule(s: Slots, c: SampleCount, reportZeroTime: bool)
    requires SlotsOk(s)
    ensures Collapses(StoreSlot(s, c, reportZeroTime), c) <==>
              || c.depth >= DepthLimit
              || (&& c.methodTime == 0 && c.depth > 0
                  && c.cumulativeTime == s.cumulativeTime[c.depth - 1]
                  && s.labels[c.depth - 1] == Some(DisplayLabel(reportZeroTime, c.frameText)))
    ensures c.depth < DepthLimit && c.methodTime != 0 ==> !Collapses(StoreSlot(s, c, reportZeroTime), c)
  {
  }

  /** Where the indentation test dereferences a `null` label: the first two operands of the `||` are false. */
  predicate NullAt(s: Slots, i: nat)
    requires SlotsOk(s) && i + 1 < DepthLimit
  {
    s.cumulativeTime[i] == s.cumulativeTime[i + 1] && s.methodTime[i + 1] <= 0 && s.labels[i + 1].None?
  }

  /** Does level `i` open a new indentation step? `None` when the test throws. */
  function Branches(s: Slots, i: nat): (r: Option<bool>)
    requires SlotsOk(s) && i + 1 < DepthLimit
    ensures r.None? <==> NullAt(s, i)
  {
    if s.cumulativeTime[i] != s.cumulativeTime[i + 1] || s.methodTime[i + 1] > 0 then Some(true)
    else if s.labels[i + 1].None? then None
    else Some(s.labels[i + 1] != s.labels[i])
  }

  /** The levels below `d` that open an indentation step. */
  ghost function BranchLevels(s: Slots, d: nat): set<nat>
    requires SlotsOk(s) && d < DepthLimit
  {
    set i: nat | i < d && Branches(s, i) == Some(true)
  }

  /** Level `d - 1` adds itself to the branching levels exactly when it opens a step. */
  lemma BranchLevelsStep(s: Slots, d: nat)
    requires SlotsOk(s) && 0 < d < DepthLimit && Branches(s, d - 1).Some?
    ensures |BranchLevels(s, d)| == |BranchLevels(s, d - 1)| + (if Branches(s, d - 1).value then 1 else 0)
  {
    var before := BranchLevels(s, d - 1);
    var extra: set<nat> := if Branches(s, d - 1).value then {d - 1} else {};
    assert BranchLevels(s, d) == before + extra by {
      forall i: nat
        ensures i in BranchLevels(s, d) <==> i in before + extra
      {
        if i < d - 1 {
          assert i in BranchLevels(s, d) <==> i in before;
        }
      }
    }
    assert before !! extra;
  }

  /**
   * The indentation loop over levels `0` to `d - 1`: the number of levels
   * that open a step (`collapsedDepth`), or `None` when some level throws.
   */
  function Collapsed(s: Slots, d: nat): (r: Option<nat>)
    requires SlotsOk(s) && d < DepthLimit
    ensures r.None? <==> exists i :: 0 <= i < d && NullAt(s, i)
    ensures r.Some? ==> r.value == |BranchLevels(s, d)| <= d
  {
    if d == 0 then Some(0)
    else
      match Collapsed(s, d - 1)
      case None => None
      case Some(n) =>
        match Branches(s, d - 1)
        case None => None
        case Some(b) =>
          BranchLevelsStep(s, d);
          Some(if b then n + 1 else n)
  }

  /** When every level's cumulative time differs from the next one's, every level indents. */
  lemma {:induction false} CollapsedWhenAllBranch(s: Slots, d: nat)
    requires SlotsOk(s) && d < DepthLimit
    requires forall i :: 0 <= i < d ==> s.cumulativeTime[i] != s.cumulativeTime[i + 1]
    ensures Collapsed(s, d) == Some(d)
  {
    if d > 0 {
      CollapsedWhenAllBranch(s, d - 1);
    }
  }

  // ---------------------------------------------------------------------
  // Formatting one row
  // ---------------------------------------------------------------------

  /** The padding after the token: the rest of the 150 columns, or nothing for a long row. */
  function Pad(methodLength: nat): nat {
    if methodLength < PadWidth then PadWidth - methodLength else 0
  }

  /** The indentation, two spaces per step, followed by the token. */
  function Indented(collapsed: nat, token: string): (r: string)
    ensures |r| == 2 * collapsed + |token|
  {
    Spaces(2 * collapsed) + token
  }

  /** The space after the token and the padding up to the timing column. */
  function Gap(methodLength: nat): (r: string)
    ensures |r| == 1 + Pad(methodLength)
    ensures forall i :: 0 <= i < |r| ==> r[i] == ' '
  {
    " " + Spaces(Pad(methodLength))
  }

  /** The timing part of a row. */
  function Timing(cumulative: int, methodTime: int): string {
    CumulativeCaption + Decimal(cumulative) + MethodCaption + Decimal(methodTime) + "\n"
  }

  /**
   * One printed row: two spaces per indentation step, the token, a space,
   * the padding, then the cumulative and self times.
   */
  function FormatLine(collapsed: nat, token: string, cumulative: int, methodTime: int): string {
    Indented(collapsed, token) + Gap(2 * collapsed + |token|) + Timing(cumulative, methodTime)
  }

  /** The timing column starts at column 151 on every row whose indentation and token fit in 150 columns. */
  function TimingColumn(collapsed: nat, token: string): nat {
    if 2 * collapsed + |token| < PadWidth then PadWidth + 1 else 2 * collapsed + |token| + 1
  }

  /** The indentation is blanks and the token follows it. */
  lemma IndentedLayout(collapsed: nat, token: string)
    ensures forall i :: 0 <= i < 2 * collapsed ==> Indented(collapsed, token)[i] == ' '
    ensures Indented(collapsed, token)[2 * collapsed..] == token
  {
  }

  /**
   * A row reads back as its parts: the indentation, the token at column
   * `2 * collapsed`, only blanks up to the timing column, and from there the
   * captions with both times, ending in a newline.
   */
  lemma FormatLineLayout(collapsed: nat, token: string, cumulative: int, methodTime: int)
    ensures var line := FormatLine(collapsed, token, cumulative, methodTime);
            && |line| > TimingColumn(collapsed, token)
            && (forall i :: 0 <= i < 2 * collapsed ==> line[i] == ' ')
            && line[2 * collapsed..2 * collapsed + |token|] == token
            && (forall i :: 2 * collapsed + |token| <= i < TimingColumn(collapsed, token) ==> line[i] == ' ')
            && line[TimingColumn(collapsed, token)..] == Timing(cumulative, methodTime)
  {
    var a := Indented(collapsed, token);
    var g := Gap(2 * collapsed + |token|);
    var t := Timing(cumulative, methodTime);
    var line := FormatLine(collapsed, token, cumulative, methodTime);
    IndentedLayout(collapsed, token);
    assert |a + g| == TimingColumn(collapsed, token);
    assert line[..|a + g|] == a + g;
    assert line[|a + g|..] == t;
    assert line[2 * collapsed..2 * collapsed + |token|] == a[2 * collapsed..];
    forall i | 2 * collapsed + |token| <= i < TimingColumn(collapsed, token)
      ensures line[i] == ' '
    {
      assert line[i] == g[i - |a|];
    }
  }

  /** Two rows that fit in 150 columns put their timing captions in the same column. */
  lemma RowsAlign(c1: nat, t1: string, cum1: int, m1: int, c2: nat, t2: string, cum2: int, m2: int)
    requires 2 * c1 + |t1| < PadWidth && 2 * c2 + |t2| < PadWidth
    ensures FormatLine(c1, t1, cum1, m1)[PadWidth + 1..][..|CumulativeCaption|]
            == FormatLine(c2, t2, cum2, m2)[PadWidth + 1..][..|CumulativeCaption|]
            == CumulativeCaption
  {
    FormatLineLayout(c1, t1, cum1, m1);
    FormatLineLayout(c2, t2, cum2, m2);
  }

  // ---------------------------------------------------------------------
  // Rendering
  // ---------------------------------------------------------------------

  /** Why rendering a report stopped. */
  datatype Fault =
    | NullLabel       // `depthPackage[i + 1].equals(...)` on a slot no counter wrote
    | MissingToken    // `tokens[depth]` past the fields of the key

  /** What one counter contributes. */
  datatype Row = Printed(line: string) | Skipped | Failed(fault: Fault)

  datatype EntryStep = EntryStep(slots: Slots, row: Row)

  /** One iteration of the counter loop. */
  function RenderEntry(s: Slots, reportZeroTime: bool, key: string, c: SampleCount): (r: EntryStep)
    requires SlotsOk(s)
    ensures SlotsOk(r.slots)
    ensures r.slots == StoreSlot(s, c, reportZeroTime)
    ensures r.row.Skipped? <==> Collapses(StoreSlot(s, c, reportZeroTime), c)
    ensures r.row == Failed(NullLabel) <==>
              !Collapses(StoreSlot(s, c, reportZeroTime), c)
              && exists i :: 0 <= i < c.depth && NullAt(StoreSlot(s, c, reportZeroTime), i)
    ensures r.row == Failed(MissingToken) <==>
              !Collapses(r.slots, c) && Collapsed(r.slots, c.depth).Some? && c.depth >= |JavaSplit(key)|
    ensures r.row.Printed? ==>
              && Collapsed(r.slots, c.depth).Some? && c.depth < |JavaSplit(key)|
              && r.row.line == FormatLine(Collapsed(r.slots, c.depth).value, JavaSplit(key)[c.depth], c.cumulativeTime, c.methodTime)
  {
    var slots := StoreSlot(s, c, reportZeroTime);
    if Collapses(slots, c) then EntryStep(slots, Skipped)
    else
      var tokens := JavaSplit(key);
      match Collapsed(slots, c.depth)
      case None => EntryStep(slots, Failed(NullLabel))
      case Some(n) =>
        if c.depth >= |tokens| then EntryStep(slots, Failed(MissingToken))
        else EntryStep(slots, Printed(FormatLine(n, tokens[c.depth], c.cumulativeTime, c.methodTime)))
  }

  // ---------------------------------------------------------------------
  // A group's rows, one counter at a time
  // ---------------------------------------------------------------------

  /** The slots once the first `p` counters of a group have written theirs, starting from `s`. */
  function SlotsAfter(s: Slots, reportZeroTime: bool, samples: seq<(string, SampleCount)>, p: nat): (r: Slots)
    requires SlotsOk(s) && p <= |samples|
    ensures SlotsOk(r)
  {
    if p == 0 then s else StoreSlot(SlotsAfter(s, reportZeroTime, samples, p - 1), samples[p - 1].1, reportZeroTime)
  }

  /** The row of the counter at `p`, rendered on the slots that the counters before it left. */
  function RowAt(s: Slots, reportZeroTime: bool, samples: seq<(string, SampleCount)>, p: nat): Row
    requires SlotsOk(s) && p < |samples|
  {
    RenderEntry(SlotsAfter(s, reportZeroTime, samples, p), reportZeroTime, samples[p].0, samples[p].1).row
  }

  /** What a row adds to its group's text: its line when printed, nothing otherwise. */
  function LineOf(row: Row): string {
    if row.Printed? then row.line else ""
  }

  /** The rows of a group, one per counter, in counter order. */
  function Rows(s: Slots, reportZeroTime: bool, samples: seq<(string, SampleCount)>): (rows: seq<Row>)
    requires SlotsOk(s)
    ensures |rows| == |samples|
    ensures forall p :: 0 <= p < |samples| ==> rows[p] == RowAt(s, reportZeroTime, samples, p)
  {
    seq(|samples|, p requires 0 <= p < |samples| => RowAt(s, reportZeroTime, samples, p))
  }

  /** The printed lines of the rows, in order. */
  function Lines(rows: seq<Row>): string {
    if |rows| == 0 then "" else LineOf(rows[0]) + Lines(rows[1..])
  }

  /** The text of a whole group: the lines of its rows. */
  function GroupText(s: Slots, reportZeroTime: bool, samples: seq<(string, SampleCount)>): string
    requires SlotsOk(s)
  {
    Lines(Rows(s, reportZeroTime, samples))
  }

  /** No row fails. */
  ghost predicate Completes(rows: seq<Row>) {
    forall p :: 0 <= p < |rows| ==> !rows[p].Failed?
  }

  /** The first row that fails, fails with `f`. */
  ghost predicate StopsWith(rows: seq<Row>, f: Fault) {
    exists p :: 0 <= p < |rows| && rows[p] == Failed(f) && forall q :: 0 <= q < p ==> !rows[q].Failed?
  }

  /** Rows complete when the first does not fail and the rest complete. */
  lemma CompletesCons(row: Row, rows: seq<Row>)
    ensures Completes([row] + rows) <==> !row.Failed? && Completes(rows)
  {
    var all := [row] + rows;
    assert all[0] == row;
    assert forall p :: 0 <= p < |rows| ==> all[p + 1] == rows[p];
  }

  /** Behind a first row that does not fail, the fault that stops the rest stops them all. */
  lemma StopsWithCons(row: Row, rows: seq<Row>, f: Fault)
    requires !row.Failed? && StopsWith(rows, f)
    ensures StopsWith([row] + rows, f)
  {
    var p :| 0 <= p < |rows| && rows[p] == Failed(f) && forall q :: 0 <= q < p ==> !rows[q].Failed?;
    var all := [row] + rows;
    assert all[p + 1] == Failed(f);
    forall q | 0 < q <= p
      ensures !all[q].Failed?
    {
      assert all[q] == rows[q - 1];
    }
  }

  /** Seen from the second counter on, the slots are those the first counter left. */
  lemma {:induction false} SlotsAfterShift(s: Slots, reportZeroTime: bool, samples: seq<(string, SampleCount)>, p: nat)
    requires SlotsOk(s) && p < |samples|
    ensures SlotsAfter(s, reportZeroTime, samples, p + 1)
            == SlotsAfter(StoreSlot(s, samples[0].1, reportZeroTime), reportZeroTime, samples[1..], p)
    decreases p
  {
    if p > 0 {
      SlotsAfterShift(s, reportZeroTime, samples, p - 1);
      assert samples[1..][p - 1] == samples[p];
    }
  }

  lemma RowAtShift(s: Slots, reportZeroTime: bool, samples: seq<(string, SampleCount)>, p: nat)
    requires SlotsOk(s) && p + 1 < |samples|
    ensures RowAt(s, reportZeroTime, samples, p + 1) == RowAt(StoreSlot(s, samples[0].1, reportZeroTime), reportZeroTime, samples[1..], p)
  {
    SlotsAfterShift(s, reportZeroTime, samples, p);
    assert samples[1..][p] == samples[p + 1];
  }

  /** A group's rows are its first counter's row, then the rows of the rest on the slots that counter left. */
  lemma RowsShift(s: Slots, reportZeroTime: bool, samples: seq<(string, SampleCount)>)
    requires SlotsOk(s) && |samples| > 0
    ensures Rows(s, reportZeroTime, samples)
            == [RowAt(s, reportZeroTime, samples, 0)] + Rows(StoreSlot(s, samples[0].1, reportZeroTime), reportZeroTime, samples[1..])
  {
    var s1 := StoreSlot(s, samples[0].1, reportZeroTime);
    var rows := Rows(s, reportZeroTime, samples);
    var rest := Rows(s1, reportZeroTime, samples[1..]);
    forall p | 0 <= p < |rest|
      ensures rows[p + 1] == rest[p]
    {
      RowAtShift(s, reportZeroTime, samples, p);
    }
    HeadThenTail(rows, rest);
  }

  /** A non-empty sequence whose elements after the first are those of `rest` is its head followed by `rest`. */
  lemma HeadThenTail<T>(xs: seq<T>, rest: seq<T>)
    requires |xs| == |rest| + 1
    requires forall p :: 0 <= p < |rest| ==> xs[p + 1] == rest[p]
    ensures xs == [xs[0]] + rest
  {
  }

  /** A group's text is its first row's line, then the text of the rest. */
  lemma GroupTextShift(s: Slots, reportZeroTime: bool, samples: seq<(string, SampleCount)>)
    requires SlotsOk(s) && |samples| > 0
    ensures GroupText(s, reportZeroTime, samples)
            == LineOf(RowAt(s, reportZeroTime, samples, 0)) + GroupText(StoreSlot(s, samples[0].1, reportZeroTime), reportZeroTime, samples[1..])
  {
    RowsShift(s, reportZeroTime, samples);
    var rows := Rows(s, reportZeroTime, samples);
    assert rows[1..] == Rows(StoreSlot(s, samples[0].1, reportZeroTime), reportZeroTime, samples[1..]);
  }

  /** A group's rendering: its text, or the fault that stopped it. */
  datatype Body = Text(text: string) | Stopped(fault: Fault)

  datatype GroupStep = GroupStep(slots: Slots, body: Body)

  /** The counter loop of one group, appending printed rows to the group's text. */
  function RenderCounters(s: Slots, reportZeroTime: bool, samples: seq<(string, SampleCount)>, text: string): (r: GroupStep)
    requires SlotsOk(s)
    ensures SlotsOk(r.slots)
    ensures r.body.Text? ==> text <= r.body.text
    decreases |samples|
  {
    if |samples| == 0 then GroupStep(s, Text(text))
    else
      var step := RenderEntry(s, reportZeroTime, samples[0].0, samples[0].1);
      match step.row
      case Failed(f) => GroupStep(step.slots, Stopped(f))
      case Skipped => RenderCounters(step.slots, reportZeroTime, samples[1..], text)
      case Printed(line) => RenderCounters(step.slots, reportZeroTime, samples[1..], text + line)
  }

  /**
   * The counter loop, row by row: it appends the lines of the group's rows to
   * `text` and ends on the slots of all counters, unless a row fails, and
   * then it stops with the fault of the first failing row.
   */
  ghost predicate RendersRows(s: Slots, reportZeroTime: bool, samples: seq<(string, SampleCount)>, text: string)
    requires SlotsOk(s)
  {
    var r := RenderCounters(s, reportZeroTime, samples, text);
    && (r.body.Text? <==> Completes(Rows(s, reportZeroTime, samples)))
    && (r.body.Text? ==> r.body.text == text + GroupText(s, reportZeroTime, samples)
                         && r.slots == SlotsAfter(s, reportZeroTime, samples, |samples|))
    && (r.body.Stopped? ==> StopsWith(Rows(s, reportZeroTime, samples), r.body.fault))
  }

  lemma {:induction false} RenderCountersRows(s: Slots, reportZeroTime: bool, samples: seq<(string, SampleCount)>, text: string)
    requires SlotsOk(s)
    ensures RendersRows(s, reportZeroTime, samples, text)
    decreases |samples|
  {
    if |samples| == 0 {
      assert GroupText(s, reportZeroTime, samples) == "";
    } else {
      var step := RenderEntry(s, reportZeroTime, samples[0].0, samples[0].1);
      if step.row.Failed? {
        FirstRowFails(s, reportZeroTime, samples, text);
      } else {
        RenderCountersRows(step.slots, reportZeroTime, samples[1..], text + LineOf(step.row));
        FirstRowPasses(s, reportZeroTime, samples, text);
      }
    }
  }

  /** A failing first row stops the group with its fault. */
  lemma FirstRowFails(s: Slots, reportZeroTime: bool, samples: seq<(string, SampleCount)>, text: string)
    requires SlotsOk(s) && |samples| > 0
    requires RenderEntry(s, reportZeroTime, samples[0].0, samples[0].1).row.Failed?
    ensures RendersRows(s, reportZeroTime, samples, text)
  {
    var step := RenderEntry(s, reportZeroTime, samples[0].0, samples[0].1);
    var rest := Rows(step.slots, reportZeroTime, samples[1..]);
    RowsShift(s, reportZeroTime, samples);
    assert RowAt(s, reportZeroTime, samples, 0) == step.row;
    CompletesCons(step.row, rest);
    assert ([step.row] + rest)[0] == step.row;
  }

  /** Behind a first row that does not fail, the loop goes on with that row's line appended. */
  lemma RenderCountersStep(s: Slots, reportZeroTime: bool, samples: seq<(string, SampleCount)>, text: string)
    requires SlotsOk(s) && |samples| > 0
    requires !RenderEntry(s, reportZeroTime, samples[0].0, samples[0].1).row.Failed?
    ensures var step := RenderEntry(s, reportZeroTime, samples[0].0, samples[0].1);
            RenderCounters(s, reportZeroTime, samples, text)
            == RenderCounters(step.slots, reportZeroTime, samples[1..], text + LineOf(step.row))
  {
    var step := RenderEntry(s, reportZeroTime, samples[0].0, samples[0].1);
    if step.row.Skipped? {
      AppendNothing(text);
    }
  }

  lemma AppendNothing<T>(a: seq<T>)
    ensures a + [] == a
  {
  }

  /** Behind a first row that does not fail, the group renders as the rest does after that row's line. */
  lemma FirstRowPasses(s: Slots, reportZeroTime: bool, samples: seq<(string, SampleCount)>, text: string)
    requires SlotsOk(s) && |samples| > 0
    requires var step := RenderEntry(s, reportZeroTime, samples[0].0, samples[0].1);
             !step.row.Failed? && RendersRows(step.slots, reportZeroTime, samples[1..], text + LineOf(step.row))
    ensures RendersRows(s, reportZeroTime, samples, text)
  {
    var step := RenderEntry(s, reportZeroTime, samples[0].0, samples[0].1);
    var rest := Rows(step.slots, reportZeroTime, samples[1..]);
    RowsShift(s, reportZeroTime, samples);
    assert RowAt(s, reportZeroTime, samples, 0) == step.row;
    CompletesCons(step.row, rest);
    RenderCountersStep(s, reportZeroTime, samples, text);
    var r := RenderCounters(step.slots, reportZeroTime, samples[1..], text + LineOf(step.row));
    if r.body.Text? {
      RestCompletes(s, reportZeroTime, samples, text);
    } else {
      StopsWithCons(step.row, rest, r.body.fault);
    }
  }

  /** The text and the slots when the rest of the group completes. */
  lemma RestCompletes(s: Slots, reportZeroTime: bool, samples: seq<(string, SampleCount)>, text: string)
    requires SlotsOk(s) && |samples| > 0
    requires var step := RenderEntry(s, reportZeroTime, samples[0].0, samples[0].1);
             var r := RenderCounters(step.slots, reportZeroTime, samples[1..], text + LineOf(step.row));
             && r.body.Text?
             && r.body.text == text + LineOf(step.row) + GroupText(step.slots, reportZeroTime, samples[1..])
             && r.slots == SlotsAfter(step.slots, reportZeroTime, samples[1..], |samples| - 1)
    ensures var step := RenderEntry(s, reportZeroTime, samples[0].0, samples[0].1);
            var r := RenderCounters(step.slots, reportZeroTime, samples[1..], text + LineOf(step.row));
            && r.body.text == text + GroupText(s, reportZeroTime, samples)
            && r.slots == SlotsAfter(s, reportZeroTime, samples, |samples|)
  {
    var step := RenderEntry(s, reportZeroTime, samples[0].0, samples[0].1);
    GroupTextShift(s, reportZeroTime, samples);
    SlotsAfterShift(s, reportZeroTime, samples, |samples| - 1);
    assert RowAt(s, reportZeroTime, samples, 0) == step.row;
    ConcatAssoc(text, LineOf(step.row), GroupText(step.slots, reportZeroTime, samples[1..]));
  }

  /** An output the sampler produces. */
  datatype LogEntry =
    | IntervalTitle(from: int, till: int)
    | ThreadRecord(group: string, maxDepth: int, threadNames: map<int, string>, text: string)
    | Flushed
    | Failure(fault: Fault)

  /** The groups rendered so far, and the fault that stopped the loop, if any. */
  datatype Rendered = Rendered(records: seq<LogEntry>, fault: Option<Fault>)

  /** The slots at the start of group `g`: every counter of the groups before it has written its own. */
  function GroupSlots(s: Slots, reportZeroTime: bool, store: Store, g: nat): (r: Slots)
    requires SlotsOk(s) && g <= |store|
    ensures SlotsOk(r)
  {
    if g == 0 then s
    else
      var samples := store[g - 1].1.samples;
      SlotsAfter(GroupSlots(s, reportZeroTime, store, g - 1), reportZeroTime, samples, |samples|)
  }

  /** Seen from the second group on, the slots start where the first group left them. */
  lemma {:induction false} GroupSlotsShift(s: Slots, reportZeroTime: bool, store: Store, g: nat)
    requires SlotsOk(s) && g < |store|
    ensures GroupSlots(s, reportZeroTime, store, g + 1)
            == GroupSlots(SlotsAfter(s, reportZeroTime, store[0].1.samples, |store[0].1.samples|), reportZeroTime, store[1..], g)
    decreases g
  {
    if g > 0 {
      GroupSlotsShift(s, reportZeroTime, store, g - 1);
      assert store[1..][g - 1] == store[g];
    }
  }

  /**
   * Group `g` completes, on the slots every earlier group left, and its
   * text is the lines of its rows.
   */
  ghost predicate GroupRendered(s: Slots, reportZeroTime: bool, store: Store, g: nat, text: string)
    requires SlotsOk(s) && g < |store|
  {
    var start := GroupSlots(s, reportZeroTime, store, g);
    Completes(Rows(start, reportZeroTime, store[g].1.samples)) && text == GroupText(start, reportZeroTime, store[g].1.samples)
  }

  /** Group `g`, on the slots every earlier group left, stops with `f`. */
  ghost predicate GroupStops(s: Slots, reportZeroTime: bool, store: Store, g: nat, f: Fault)
    requires SlotsOk(s) && g < |store|
  {
    StopsWith(Rows(GroupSlots(s, reportZeroTime, store, g), reportZeroTime, store[g].1.samples), f)
  }

  /** Each record is its group's, in store order, and carries the group's text. */
  ghost predicate RecordsRendered(s: Slots, reportZeroTime: bool, store: Store, records: seq<LogEntry>)
    requires SlotsOk(s) && |records| <= |store|
  {
    forall g :: 0 <= g < |records| ==> RecordOf(s, reportZeroTime, store, g, records[g])
  }

  /** Group `g`'s record, seen from the second group on, is group `g`'s record. */
  ghost predicate RecordOf(s: Slots, reportZeroTime: bool, store: Store, g: nat, rec: LogEntry)
    requires SlotsOk(s) && g < |store|
  {
    && rec.ThreadRecord?
    && rec.group == store[g].0
    && rec.maxDepth == store[g].1.maxDepth
    && rec.threadNames == store[g].1.threadNames
    && GroupRendered(s, reportZeroTime, store, g, rec.text)
  }

  lemma RecordShift(s: Slots, reportZeroTime: bool, store: Store, g: nat, rec: LogEntry)
    requires SlotsOk(s) && g + 1 < |store|
    requires RecordOf(SlotsAfter(s, reportZeroTime, store[0].1.samples, |store[0].1.samples|), reportZeroTime, store[1..], g, rec)
    ensures RecordOf(s, reportZeroTime, store, g + 1, rec)
  {
    GroupSlotsShift(s, reportZeroTime, store, g);
    assert store[1..][g] == store[g + 1];
  }

  lemma StopsShift(s: Slots, reportZeroTime: bool, store: Store, g: nat, fault: Option<Fault>)
    requires SlotsOk(s) && 0 < |store|
    requires fault.Some? ==>
               && g + 1 < |store|
               && GroupStops(SlotsAfter(s, reportZeroTime, store[0].1.samples, |store[0].1.samples|), reportZeroTime, store[1..], g, fault.value)
    ensures fault.Some? ==> GroupStops(s, reportZeroTime, store, g + 1, fault.value)
  {
    if fault.Some? {
      GroupSlotsShift(s, reportZeroTime, store, g);
      assert store[1..][g] == store[g + 1];
    }
  }

  /** The first group's record, then the records of the rest rendered on the slots the first group left. */
  lemma RecordsCons(s: Slots, reportZeroTime: bool, store: Store, first: LogEntry, records: seq<LogEntry>)
    requires SlotsOk(s) && 0 < |store| && |records| < |store|
    requires RecordOf(s, reportZeroTime, store, 0, first)
    requires RecordsRendered(SlotsAfter(s, reportZeroTime, store[0].1.samples, |store[0].1.samples|), reportZeroTime, store[1..], records)
    ensures RecordsRendered(s, reportZeroTime, store, [first] + records)
  {
    var s1 := SlotsAfter(s, reportZeroTime, store[0].1.samples, |store[0].1.samples|);
    var all := [first] + records;
    forall g | 0 <= g < |all|
      ensures RecordOf(s, reportZeroTime, store, g, all[g])
    {
      if g > 0 {
        assert all[g] == records[g - 1];
        assert RecordOf(s1, reportZeroTime, store[1..], g - 1, records[g - 1]);
        RecordShift(s, reportZeroTime, store, g - 1, records[g - 1]);
      }
    }
  }

  /** The first group either stops with the fault of its first failing row or gives the first record. */
  lemma FirstGroup(s: Slots, reportZeroTime: bool, store: Store)
    requires SlotsOk(s) && |store| > 0
    ensures var step := RenderCounters(s, reportZeroTime, store[0].1.samples, "");
            && (step.body.Stopped? ==> GroupStops(s, reportZeroTime, store, 0, step.body.fault))
            && (step.body.Text? ==>
                  && step.slots == SlotsAfter(s, reportZeroTime, store[0].1.samples, |store[0].1.samples|)
                  && RecordOf(s, reportZeroTime, store, 0, ThreadRecord(store[0].0, store[0].1.maxDepth, store[0].1.threadNames, step.body.text)))
  {
    RenderCountersRows(s, reportZeroTime, store[0].1.samples, "");
    PrependNothing(GroupText(s, reportZeroTime, store[0].1.samples));
  }

  lemma PrependNothing<T>(a: seq<T>)
    ensures [] + a == a
  {
  }

  /** The group loop: one thread record per group, in store order, until a group's rendering throws. */
  function RenderGroups(s: Slots, reportZeroTime: bool, store: Store): (r: Rendered)
    requires SlotsOk(s)
    ensures |r.records| <= |store|
    ensures r.fault.None? ==> |r.records| == |store|
    ensures r.fault.Some? ==> |r.records| < |store|
    ensures forall g :: 0 <= g < |r.records| ==>
              r.records[g].ThreadRecord?
              && r.records[g].group == store[g].0
              && r.records[g].maxDepth == store[g].1.maxDepth
              && r.records[g].threadNames == store[g].1.threadNames
    decreases |store|
  {
    if |store| == 0 then Rendered([], None)
    else
      var group := store[0].1;
      var step := RenderCounters(s, reportZeroTime, group.samples, "");
      match step.body
      case Stopped(f) => Rendered([], Some(f))
      case Text(text) =>
        var rest := RenderGroups(step.slots, reportZeroTime, store[1..]);
        Rendered([ThreadRecord(store[0].0, group.maxDepth, group.threadNames, text)] + rest.records, rest.fault)
  }

  /**
   * The group loop, group by group: each record carries the text of its
   * group's rows, rendered on the slots every earlier group left, and a loop
   * that stops, stops with the fault of the first failing row of the group
   * after the last record.
   */
  lemma {:induction false} RenderGroupsRows(s: Slots, reportZeroTime: bool, store: Store)
    requires SlotsOk(s)
    ensures var r := RenderGroups(s, reportZeroTime, store);
            && RecordsRendered(s, reportZeroTime, store, r.records)
            && (r.fault.Some? ==> GroupStops(s, reportZeroTime, store, |r.records|, r.fault.value))
    decreases |store|
  {
    if |store| > 0 {
      FirstGroup(s, reportZeroTime, store);
      var step := RenderCounters(s, reportZeroTime, store[0].1.samples, "");
      if step.body.Text? {
        RenderGroupsRows(step.slots, reportZeroTime, store[1..]);
        RestOfGroups(s, reportZeroTime, store);
      }
    }
  }

  /** Behind a first group that renders, the records and the fault are those of the rest, shifted by one group. */
  lemma RestOfGroups(s: Slots, reportZeroTime: bool, store: Store)
    requires SlotsOk(s) && |store| > 0
    requires var step := RenderCounters(s, reportZeroTime, store[0].1.samples, "");
             && step.body.Text?
             && var rest := RenderGroups(step.slots, reportZeroTime, store[1..]);
                && RecordsRendered(step.slots, reportZeroTime, store[1..], rest.records)
                && (rest.fault.Some? ==> GroupStops(step.slots, reportZeroTime, store[1..], |rest.records|, rest.fault.value))
    ensures var r := RenderGroups(s, reportZeroTime, store);
            && RecordsRendered(s, reportZeroTime, store, r.records)
            && (r.fault.Some? ==> GroupStops(s, reportZeroTime, store, |r.records|, r.fault.value))
  {
    FirstGroup(s, reportZeroTime, store);
    var step := RenderCounters(s, reportZeroTime, store[0].1.samples, "");
    var first := ThreadRecord(store[0].0, store[0].1.maxDepth, store[0].1.threadNames, step.body.text);
    var rest := RenderGroups(step.slots, reportZeroTime, store[1..]);
    RecordsCons(s, reportZeroTime, store, first, rest.records);
    StopsShift(s, reportZeroTime, store, |rest.records|, rest.fault);
    assert RenderGroups(s, reportZeroTime, store) == Rendered([first] + rest.records, rest.fault);
  }

  /**
   * What `printReportNow` leaves: the outputs it produced and the store and
   * `isEmptySamplingMap` after it (the flag is `|store| == 0`).
   */
  datatype ReportRun = ReportRun(log: seq<LogEntry>, store: Store, fault: Option<Fault>)

  /**
   * `printReportNow` with the report interval `[from, till]`: nothing for an
   * empty store; otherwise the interval title, one record per group, a
   * flush, and a cleared store. When a group throws, the records of the
   * groups before it are out, there is no flush, and the store is kept.
   */
  function PrintReportNow(store: Store, reportZeroTime: bool, from: int, till: int): (r: ReportRun)
    ensures |store| == 0 ==> r == ReportRun([], store, None)
    ensures |store| > 0 ==> |r.log| >= 1 && r.log[0] == IntervalTitle(from, till)
    ensures r.fault.None? ==> |r.store| == 0
    ensures r.fault.Some? ==> r.store == store && |r.log| <= |store| && Flushed !in r.log
    ensures |store| > 0 && r.fault.None? ==> |r.log| == |store| + 2 && r.log[|r.log| - 1] == Flushed
    ensures forall g :: 0 <= g < |store| && g + 1 < |r.log| && r.log[g + 1] != Flushed ==>
              && r.log[g + 1].ThreadRecord?
              && r.log[g + 1].group == store[g].0
              && r.log[g + 1].maxDepth == store[g].1.maxDepth
              && r.log[g + 1].threadNames == store[g].1.threadNames
  {
    if |store| == 0 then ReportRun([], store, None)
    else
      var rendered := RenderGroups(FreshSlots(), reportZeroTime, store);
      if rendered.fault.Some? then
        ReportRun([IntervalTitle(from, till)] + rendered.records, store, rendered.fault)
      else
        ReportRun([IntervalTitle(from, till)] + rendered.records + [Flushed], [], None)
  }

  /**
   * A report's log past its title: one record per group rendered, each
   * group on the slots the groups before it left, starting from fresh
   * slots, then the flush; or, when the report throws, the records of the
   * groups before the failing one and no flush.
   */
  ghost predicate LogRendered(store: Store, reportZeroTime: bool, r: ReportRun) {
    var flush := if r.fault.None? then 1 else 0;
    && 1 + flush <= |r.log| <= |store| + 1 + flush
    && RecordsRendered(FreshSlots(), reportZeroTime, store, r.log[1..|r.log| - flush])
    && (r.fault.Some? ==> |r.log| - 1 < |store| && GroupStops(FreshSlots(), reportZeroTime, store, |r.log| - 1, r.fault.value))
  }

  /**
   * The text of a report: the records between the interval title and the
   * flush carry their groups' texts, each group rendered on the slots the
   * groups before it left, starting from fresh slots; a report that throws
   * stops with the fault of the first failing row of the group after its
   * last record.
   */
  lemma ReportText(store: Store, reportZeroTime: bool, from: int, till: int)
    requires |store| > 0
    ensures LogRendered(store, reportZeroTime, PrintReportNow(store, reportZeroTime, from, till))
  {
    var rendered := RenderGroups(FreshSlots(), reportZeroTime, store);
    RenderGroupsRows(FreshSlots(), reportZeroTime, store);
    var r := PrintReportNow(store, reportZeroTime, from, till);
    var tail: seq<LogEntry> := if rendered.fault.Some? then [] else [Flushed];
    assert r.log == [IntervalTitle(from, till)] + rendered.records + tail by {
      AppendNothing([IntervalTitle(from, till)] + rendered.records);
    }
    FramedRecords(store, reportZeroTime, rendered, IntervalTitle(from, till), r);
  }

  /** A log made of a title, the rendered records and, when nothing failed, the flush. */
  lemma FramedRecords(store: Store, reportZeroTime: bool, rendered: Rendered, title: LogEntry, r: ReportRun)
    requires |rendered.records| <= |store|
    requires rendered.fault.None? ==> |rendered.records| == |store|
    requires rendered.fault.Some? ==> |rendered.records| < |store|
    requires RecordsRendered(FreshSlots(), reportZeroTime, store, rendered.records)
    requires rendered.fault.Some? ==> GroupStops(FreshSlots(), reportZeroTime, store, |rendered.records|, rendered.fault.value)
    requires r.fault == rendered.fault
    requires r.log == [title] + rendered.records + (if rendered.fault.Some? then [] else [Flushed])
    ensures LogRendered(store, reportZeroTime, r)
  {
    Framed(title, rendered.records, if rendered.fault.Some? then [] else [Flushed]);
  }

  /** The middle of a sequence framed by a head and a tail. */
  lemma Framed<T>(head: T, xs: seq<T>, tail: seq<T>)
    ensures ([head] + xs + tail)[1..1 + |xs|] == xs
  {
  }

  // ---------------------------------------------------------------------
  // When rendering cannot fail
  // ---------------------------------------------------------------------

  /** Some counter before position `p` has depth `d`. */
  ghost predicate DepthBefore(rest: seq<(string, SampleCount)>, p: nat, d: nat)
    requires p <= |rest|
  {
    exists q :: 0 <= q < p && rest[q].1.depth == d
  }

  /**
   * What the counter at position `p` needs to print without a fault: a
   * field for its depth in its key, and, for every depth above it, a slot
   * some counter has written, either before this group or earlier in it.
   */
  ghost predicate EntryReady(s: Slots, rest: seq<(string, SampleCount)>, p: nat)
    requires SlotsOk(s) && p < |rest|
  {
    rest[p].1.depth < DepthLimit ==>
      && |JavaSplit(rest[p].0)| > rest[p].1.depth
      && forall d: nat :: d < rest[p].1.depth ==> s.labels[d].Some? || DepthBefore(rest, p, d)
  }

  ghost predicate Ready(s: Slots, rest: seq<(string, SampleCount)>)
    requires SlotsOk(s)
  {
    forall p :: 0 <= p < |rest| ==> EntryReady(s, rest, p)
  }

  /** The counter at `p` has a field for its depth and its ancestors' depths earlier in the group. */
  ghost predicate EntryRenderable(samples: seq<(string, SampleCount)>, p: nat)
    requires p < |samples|
  {
    samples[p].1.depth < DepthLimit ==>
      && |JavaSplit(samples[p].0)| > samples[p].1.depth
      && forall d: nat :: d < samples[p].1.depth ==> DepthBefore(samples, p, d)
  }

  /** A group whose every counter has its ancestors' depths earlier in the group, and a field for its own. */
  ghost predicate Renderable(samples: seq<(string, SampleCount)>) {
    forall p :: 0 <= p < |samples| ==> EntryRenderable(samples, p)
  }

  lemma RenderableIsReady(s: Slots, samples: seq<(string, SampleCount)>)
    requires SlotsOk(s) && Renderable(samples)
    ensures Ready(s, samples)
  {
    forall p | 0 <= p < |samples|
      ensures EntryReady(s, samples, p)
    {
      assert EntryRenderable(samples, p);
    }
  }

  /** A ready first counter prints or collapses, it does not fail. */
  lemma FirstEntryDoesNotFail(s: Slots, reportZeroTime: bool, rest: seq<(string, SampleCount)>)
    requires SlotsOk(s) && |rest| > 0 && Ready(s, rest)
    ensures !RenderEntry(s, reportZeroTime, rest[0].0, rest[0].1).row.Failed?
  {
    var c := rest[0].1;
    var s1 := StoreSlot(s, c, reportZeroTime);
    if !Collapses(s1, c) {
      assert EntryReady(s, rest, 0);
      forall i | 0 <= i < c.depth
        ensures !NullAt(s1, i)
      {
        if i + 1 < c.depth {
          assert s.labels[i + 1].Some?;
        }
      }
    }
  }

  /** After the first counter, the rest of the group is still ready. */
  lemma ReadyAfterFirst(s: Slots, reportZeroTime: bool, rest: seq<(string, SampleCount)>)
    requires SlotsOk(s) && |rest| > 0 && Ready(s, rest)
    ensures Ready(RenderEntry(s, reportZeroTime, rest[0].0, rest[0].1).slots, rest[1..])
  {
    var c := rest[0].1;
    var s1 := StoreSlot(s, c, reportZeroTime);
    var tail := rest[1..];
    forall p | 0 <= p < |tail|
      ensures EntryReady(s1, tail, p)
    {
      assert tail[p] == rest[p + 1];
      assert EntryReady(s, rest, p + 1);
      if tail[p].1.depth < DepthLimit {
        forall d: nat | d < tail[p].1.depth
          ensures s1.labels[d].Some? || DepthBefore(tail, p, d)
        {
          if !s.labels[d].Some? {
            var q :| 0 <= q < p + 1 && rest[q].1.depth == d;
            if q > 0 {
              assert tail[q - 1].1.depth == d;
            }
          }
        }
      }
    }
  }

  /** A ready group renders to text. */
  lemma {:induction false} ReadyRendersText(s: Slots, reportZeroTime: bool, rest: seq<(string, SampleCount)>, text: string)
    requires SlotsOk(s) && Ready(s, rest)
    ensures RenderCounters(s, reportZeroTime, rest, text).body.Text?
    decreases |rest|
  {
    if |rest| > 0 {
      var step := RenderEntry(s, reportZeroTime, rest[0].0, rest[0].1);
      FirstEntryDoesNotFail(s, reportZeroTime, rest);
      ReadyAfterFirst(s, reportZeroTime, rest);
      var more := if step.row.Printed? then text + step.row.line else text;
      ReadyRendersText(step.slots, reportZeroTime, rest[1..], more);
    }
  }

  /** A store of renderable groups renders every group. */
  lemma {:induction false} RenderableGroupsRender(s: Slots, reportZeroTime: bool, store: Store)
    requires SlotsOk(s)
    requires forall g :: 0 <= g < |store| ==> Renderable(store[g].1.samples)
    ensures RenderGroups(s, reportZeroTime, store).fault.None?
    decreases |store|
  {
    if |store| > 0 {
      var step := RenderCounters(s, reportZeroTime, store[0].1.samples, "");
      RenderableIsReady(s, store[0].1.samples);
      ReadyRendersText(s, reportZeroTime, store[0].1.samples, "");
      assert forall g :: 0 <= g < |store[1..]| ==> store[1..][g] == store[g + 1];
      RenderableGroupsRender(step.slots, reportZeroTime, store[1..]);
    }
  }

  // ---------------------------------------------------------------------
  // Shaped counters are renderable
  // ---------------------------------------------------------------------

  /** `split(",")` keeps every field when the last one is not empty. */
  lemma SplitKeepsFields(k: string)
    requires Fields(k)[|Fields(k)| - 1] != ""
    ensures JavaSplit(k) == Fields(k)
  {
  }

  /** The join of the first `m` fields is a proper prefix of the join of all of them. */
  lemma {:induction false} JoinPrefix(fs: seq<string>, m: nat)
    requires 1 <= m < |fs|
    ensures JoinComma(fs[..m]) + "," + JoinComma(fs[m..]) == JoinComma(fs)
    decreases m
  {
    if m > 1 {
      JoinPrefix(fs[1..], m - 1);
      assert fs[..m][1..] == fs[1..][..m - 1];
      assert fs[1..][m - 1..] == fs[m..];
    }
  }

  /** An ancestor key sorts before its descendant. */
  lemma AncestorIsLess(fs: seq<string>, m: nat)
    requires 1 <= m < |fs|
    ensures LexLess(JoinComma(fs[..m]), JoinComma(fs))
  {
    JoinPrefix(fs, m);
    ProperPrefixIsLess(JoinComma(fs[..m]), JoinComma(fs));
  }

  /** In sorted entries a smaller key sits at a smaller position. */
  lemma {:induction false} SortedPosition(e: seq<(string, SampleCount)>, q: nat, p: nat)
    requires Sorted(e) && q < |e| && p < |e|
    requires LexLess(e[q].0, e[p].0)
    ensures q < p
  {
    SortedAscending(e);
    LexLessIrreflexive(e[q].0);
    if p < q {
      LexLessTransitive(e[q].0, e[p].0, e[q].0);
      assert false;
    }
  }

  /** The ancestor of the counter at `p` that has `m` fields is a key, and its counter has depth `m - 1`. */
  lemma AncestorKey(samples: seq<(string, SampleCount)>, p: nat, m: nat)
    requires Sorted(samples) && KeyShaped(samples)
    requires p < |samples| && 1 <= m <= samples[p].1.depth
    ensures |Fields(samples[p].0)| == samples[p].1.depth + 1
    ensures JoinComma(Fields(samples[p].0)[..m]) in Keys(samples)
    ensures Get(samples, JoinComma(Fields(samples[p].0)[..m])).value.depth == m - 1
  {
    var k := samples[p].0;
    var fs := Fields(k);
    GetAt(samples, p);
    assert ShapedAt(samples, k);
    var anc := JoinComma(fs[..m]);
    assert ShapedAt(samples, anc);
    FieldsOfJoin(fs[..m]);
  }

  /** A key's ancestor with `m` fields sorts before it. */
  lemma AncestorSortsFirst(k: string, m: nat)
    requires 1 <= m < |Fields(k)|
    ensures LexLess(JoinComma(Fields(k)[..m]), k)
  {
    AncestorIsLess(Fields(k), m);
    JoinFields(k);
  }

  /** The ancestor at depth `d` of the counter at `p` sits before it. */
  lemma AncestorBefore(samples: seq<(string, SampleCount)>, p: nat, d: nat)
    requires Sorted(samples) && KeyShaped(samples)
    requires p < |samples| && d < samples[p].1.depth
    ensures DepthBefore(samples, p, d)
  {
    var k := samples[p].0;
    AncestorKey(samples, p, d + 1);
    var anc := JoinComma(Fields(k)[..d + 1]);
    AncestorSortsFirst(k, d + 1);
    var q :| 0 <= q < |samples| && samples[q].0 == anc && samples[q].1 == Get(samples, anc).value;
    SortedPosition(samples, q, p);
  }

  /** Counters built with shaped keys in key order can always be rendered. */
  lemma ShapedIsRenderable(samples: seq<(string, SampleCount)>)
    requires Sorted(samples) && KeyShaped(samples)
    ensures Renderable(samples)
  {
    forall p | 0 <= p < |samples|
      ensures EntryRenderable(samples, p)
    {
      ShapedEntryRenderable(samples, p);
    }
  }

  lemma {:induction false} ShapedEntryRenderable(samples: seq<(string, SampleCount)>, p: nat)
    requires Sorted(samples) && KeyShaped(samples) && p < |samples|
    ensures EntryRenderable(samples, p)
  {
    GetAt(samples, p);
    assert ShapedAt(samples, samples[p].0);
    SplitKeepsFields(samples[p].0);
    forall d: nat | d < samples[p].1.depth
      ensures DepthBefore(samples, p, d)
    {
      AncestorBefore(samples, p, d);
    }
  }

  /**
   * A store whose groups and counters are in key order and whose keys are
   * shaped (as sampling keeps them for stacks of plain frames) is always
   * reported in full: the report neither throws nor keeps the store.
   */
  lemma ReportNeverFails(store: Store, reportZeroTime: bool, from: int, till: int)
    requires WellFormedStore(store) && ShapedStore(store)
    ensures PrintReportNow(store, reportZeroTime, from, till).fault.None?
    ensures |PrintReportNow(store, reportZeroTime, from, till).store| == 0
  {
    forall g | 0 <= g < |store|
      ensures Renderable(store[g].1.samples)
    {
      GetAt(store, g);
      assert Get(store, store[g].0).Some?;
      ShapedIsRenderable(store[g].1.samples);
    }
    if |store| > 0 {
      RenderableGroupsRender(FreshSlots(), reportZeroTime, store);
    }
  }
}
