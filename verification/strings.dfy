/**
 * The few pieces of `java.lang.String` behaviour the sampler relies on:
 * the `compareTo` order a `TreeMap<String, _>` sorts by, `split(",")`,
 * character-class removal as done by `replaceAll` with a one-class
 * pattern, and `long` to decimal text.
 */
module Strings {

  predicate IsDigit(c: char) {
    '0' <= c <= '9'
  }

  predicate IsLower(c: char) {
    'a' <= c <= 'z'
  }

  /** The characters a Java regex `.` does not match (no DOTALL flag). */
  predicate IsLineTerminator(c: char) {
    c == '\n' || c == '\r' || c == '\U{85}' || c == '\U{2028}' || c == '\U{2029}'
  }

  // ---------------------------------------------------------------------
  // String.compareTo
  // ---------------------------------------------------------------------

  /**
   * `a.compareTo(b) < 0`: the first differing character decides, and a
   * proper prefix sorts before every extension of it.
   */
  predicate LexLess(a: string, b: string)
    decreases |a|
  {
    if |a| == 0 then |b| > 0
    else if |b| == 0 then false
    else if a[0] != b[0] then a[0] < b[0]
    else LexLess(a[1..], b[1..])
  }

  lemma {:induction false} LexLessIrreflexive(a: string)
    ensures !LexLess(a, a)
    decreases |a|
  {
    if |a| > 0 {
      LexLessIrreflexive(a[1..]);
    }
  }

  lemma {:induction false} LexLessTransitive(a: string, b: string, c: string)
    requires LexLess(a, b) && LexLess(b, c)
    ensures LexLess(a, c)
    decreases |a|
  {
    if |a| > 0 && a[0] == b[0] && b[0] == c[0] {
      LexLessTransitive(a[1..], b[1..], c[1..]);
    }
  }

  lemma {:induction false} LexLessTotal(a: string, b: string)
    ensures a == b || LexLess(a, b) || LexLess(b, a)
    decreases |a|
  {
    if |a| > 0 && |b| > 0 && a[0] == b[0] {
      LexLessTotal(a[1..], b[1..]);
      if a[1..] == b[1..] {
        assert a == [a[0]] + a[1..] && b == [b[0]] + b[1..];
      }
    }
  }

  /** A proper prefix sorts first: the reason a `TreeMap` walk meets a path key's ancestors before the key. */
  lemma {:induction false} ProperPrefixIsLess(a: string, b: string)
    requires a <= b && |a| < |b|
    ensures LexLess(a, b)
    decreases |a|
  {
    if |a| > 0 {
      assert a[1..] <= b[1..];
      ProperPrefixIsLess(a[1..], b[1..]);
    }
  }

  /** `s.startsWith(prefix)`: `s` agrees with `prefix` on every position from `k` on. */
  predicate StartsWithFrom(s: string, prefix: string, k: nat)
    decreases |prefix| - k
  {
    k >= |prefix| || (k < |s| && s[k] == prefix[k] && StartsWithFrom(s, prefix, k + 1))
  }

  /** `s.startsWith(prefix)`, compared character by character. */
  predicate StartsWith(s: string, prefix: string) {
    StartsWithFrom(s, prefix, 0)
  }

  /** The character-by-character comparison from `k` on. */
  lemma {:induction false} StartsWithFromAgrees(s: string, prefix: string, k: nat)
    requires k <= |prefix|
    ensures StartsWithFrom(s, prefix, k) <==> (k < |prefix| ==> |prefix| <= |s|) && forall m :: k <= m < |prefix| ==> s[m] == prefix[m]
    decreases |prefix| - k
  {
    if k < |prefix| {
      StartsWithFromAgrees(s, prefix, k + 1);
    }
  }

  /** `startsWith` is the sequence-prefix relation. */
  lemma StartsWithIsPrefix(s: string, prefix: string)
    ensures StartsWith(s, prefix) <==> prefix <= s
  {
    StartsWithFromAgrees(s, prefix, 0);
  }

  // ---------------------------------------------------------------------
  // replaceAll with a single character class
  // ---------------------------------------------------------------------

  /**
   * `s` with every character satisfying `drop` removed, the others kept in
   * order: what `replaceAll("[class]+", "")` or `replaceAll("\\d+", "")` leaves.
   */
  function RemoveWhere(s: string, drop: char -> bool): (r: string)
    ensures |r| <= |s|
  {
    if |s| == 0 then "" else if drop(s[0]) then RemoveWhere(s[1..], drop) else [s[0]] + RemoveWhere(s[1..], drop)
  }

  /** No character the removal drops is left. */
  lemma {:induction false} RemoveWhereDrops(s: string, drop: char -> bool)
    ensures forall i :: 0 <= i < |RemoveWhere(s, drop)| ==> !drop(RemoveWhere(s, drop)[i])
  {
    if |s| > 0 {
      RemoveWhereDrops(s[1..], drop);
    }
  }

  /** Every kept character occurs as often as before; dropped ones not at all. */
  lemma {:induction false} RemoveWhereCounts(s: string, drop: char -> bool)
    ensures forall c :: multiset(RemoveWhere(s, drop))[c] == if drop(c) then 0 else multiset(s)[c]
  {
    if |s| > 0 {
      RemoveWhereCounts(s[1..], drop);
      assert s == [s[0]] + s[1..];
    }
  }

  /** With nothing to drop the string comes back unchanged. */
  lemma {:induction false} RemoveWhereNothing(s: string, drop: char -> bool)
    requires forall i :: 0 <= i < |s| ==> !drop(s[i])
    ensures RemoveWhere(s, drop) == s
  {
    if |s| > 0 {
      RemoveWhereNothing(s[1..], drop);
      assert s == [s[0]] + s[1..];
    }
  }

  /** Removal works piece by piece. */
  lemma {:induction false} RemoveWhereAppend(a: string, b: string, drop: char -> bool)
    ensures RemoveWhere(a + b, drop) == RemoveWhere(a, drop) + RemoveWhere(b, drop)
  {
    if |a| > 0 {
      RemoveWhereAppend(a[1..], b, drop);
      assert (a + b)[1..] == a[1..] + b;
    } else {
      assert a + b == b;
    }
  }

  /** `digitsRemover.matcher(s).replaceAll("")` with the pattern `\d+`. */
  function RemoveDigits(s: string): string {
    RemoveWhere(s, IsDigit)
  }

  // ---------------------------------------------------------------------
  // split(",")
  // ---------------------------------------------------------------------

  /** Every comma-separated field of `s`, empty ones included. */
  function Fields(s: string): (r: seq<string>)
    ensures |r| >= 1
    ensures forall i :: 0 <= i < |r| ==> ',' !in r[i]
    ensures ',' !in s ==> r == [s]
  {
    if |s| == 0 then [""]
    else
      var rest := Fields(s[1..]);
      assert s == [s[0]] + s[1..];
      if s[0] == ',' then [""] + rest
      else [[s[0]] + rest[0]] + rest[1..]
  }

  /** `String.join(",", fs)`. */
  function JoinComma(fs: seq<string>): string
    requires |fs| >= 1
  {
    if |fs| == 1 then fs[0] else fs[0] + "," + JoinComma(fs[1..])
  }

  /** Appending one more field to a join adds a comma and the field. */
  lemma {:induction false} JoinSnoc(fs: seq<string>, t: string)
    requires |fs| >= 1
    ensures JoinComma(fs + [t]) == JoinComma(fs) + "," + t
    decreases |fs|
  {
    if |fs| > 1 {
      assert (fs + [t])[1..] == fs[1..] + [t];
      JoinSnoc(fs[1..], t);
    } else {
      assert (fs + [t])[1..] == [t];
    }
  }

  /** Joining the fields of a string gives the string back. */
  lemma {:induction false} JoinFields(s: string)
    ensures JoinComma(Fields(s)) == s
  {
    if |s| > 0 {
      var rest := Fields(s[1..]);
      JoinFields(s[1..]);
      if s[0] == ',' {
        assert Fields(s)[1..] == rest;
      } else {
        if |rest| == 1 {
          assert Fields(s) == [[s[0]] + rest[0]];
        } else {
          assert Fields(s)[1..] == rest[1..];
          assert JoinComma(rest) == rest[0] + "," + JoinComma(rest[1..]);
        }
      }
    }
  }

  /** Splitting the join of comma-free fields gives the fields back. */
  lemma {:induction false} FieldsOfJoin(fs: seq<string>)
    requires |fs| >= 1
    requires forall i :: 0 <= i < |fs| ==> ',' !in fs[i]
    ensures Fields(JoinComma(fs)) == fs
    decreases |fs|, |fs[0]|
  {
    if |fs| == 1 {
    } else if |fs[0]| == 0 {
      FieldsOfJoin(fs[1..]);
      assert JoinComma(fs) == "," + JoinComma(fs[1..]);
      assert JoinComma(fs)[1..] == JoinComma(fs[1..]);
      assert fs == [""] + fs[1..];
    } else {
      var tail := [fs[0][1..]] + fs[1..];
      assert tail[1..] == fs[1..];
      FieldsOfJoin(tail);
      var j := JoinComma(fs);
      assert j == fs[0] + "," + JoinComma(fs[1..]);
      assert JoinComma(tail) == fs[0][1..] + "," + JoinComma(fs[1..]);
      assert j[1..] == JoinComma(tail);
      assert j[0] == fs[0][0];
      assert [fs[0][0]] + fs[0][1..] == fs[0];
    }
  }

  /** `fs` with its trailing empty strings removed. */
  function DropTrailingEmpty(fs: seq<string>): (r: seq<string>)
    ensures r <= fs
    ensures |r| > 0 ==> r[|r| - 1] != ""
    ensures forall i :: |r| <= i < |fs| ==> fs[i] == ""
  {
    if |fs| > 0 && fs[|fs| - 1] == "" then DropTrailingEmpty(fs[..|fs| - 1]) else fs
  }

  /**
   * Java's `s.split(",")`: without a comma the whole string is the only
   * element (even when it is empty); otherwise every field, with trailing
   * empty fields dropped.
   */
  function JavaSplit(s: string): (r: seq<string>)
    ensures forall i :: 0 <= i < |r| ==> ',' !in r[i]
  {
    if ',' !in s then [s] else DropTrailingEmpty(Fields(s))
  }

  /** What `split` keeps: exactly the fields up to the last non-empty one. */
  lemma JavaSplitFields(s: string)
    ensures ',' in s ==> JavaSplit(s) <= Fields(s)
    ensures ',' in s ==> forall i :: |JavaSplit(s)| <= i < |Fields(s)| ==> Fields(s)[i] == ""
    ensures ',' in s ==> |JavaSplit(s)| == 0 || JavaSplit(s)[|JavaSplit(s)| - 1] != ""
    ensures ',' !in s ==> JavaSplit(s) == [s]
  {
  }

  /** Splitting a path of comma-free fields whose last field is not empty returns the fields. */
  lemma {:induction false} SplitOfJoin(fs: seq<string>)
    requires |fs| >= 1
    requires forall i :: 0 <= i < |fs| ==> ',' !in fs[i]
    requires fs[|fs| - 1] != ""
    ensures JavaSplit(JoinComma(fs)) == fs
  {
    FieldsOfJoin(fs);
    var s := JoinComma(fs);
    if ',' !in s {
      assert Fields(s) == [s];
    }
  }

  // ---------------------------------------------------------------------
  // Padding and numbers
  // ---------------------------------------------------------------------

  function Spaces(n: nat): (r: string)
    ensures |r| == n
    ensures forall i :: 0 <= i < n ==> r[i] == ' '
  {
    if n == 0 then "" else " " + Spaces(n - 1)
  }

  function DigitChar(d: nat): char
    requires d < 10
  {
    ['0', '1', '2', '3', '4', '5', '6', '7', '8', '9'][d]
  }

  /** The decimal digits of `n`, most significant first, without leading zeros. */
  function NatDigits(n: nat): (r: string)
    ensures |r| >= 1
    ensures forall i :: 0 <= i < |r| ==> IsDigit(r[i])
    ensures |r| > 1 ==> r[0] != '0'
    decreases n
  {
    if n < 10 then [DigitChar(n)] else NatDigits(n / 10) + [DigitChar(n % 10)]
  }

  /** The value of a string of decimal digits. */
  function ParseDigits(s: string): nat
    requires forall i :: 0 <= i < |s| ==> IsDigit(s[i])
  {
    if |s| == 0 then 0
    else
      assert IsDigit(s[|s| - 1]);
      10 * ParseDigits(s[..|s| - 1]) + ((s[|s| - 1] as int) - ('0' as int))
  }

  lemma {:induction false} ParseNatDigits(n: nat)
    ensures ParseDigits(NatDigits(n)) == n
    decreases n
  {
    if n >= 10 {
      ParseNatDigits(n / 10);
      var r := NatDigits(n);
      assert r[..|r| - 1] == NatDigits(n / 10);
    }
  }

  /** `Long.toString(n)`: a minus sign for negative values, then the digits of the magnitude. */
  function Decimal(n: int): string {
    if n < 0 then "-" + NatDigits(-n) else NatDigits(n)
  }

  // ---------------------------------------------------------------------
  // Sequence facts used with large contexts in scope
  // ---------------------------------------------------------------------

  lemma ConcatAssoc<T>(a: seq<T>, b: seq<T>, c: seq<T>)
    ensures a + b + c == a + (b + c)
  {
  }

  /** Cutting `a + rest` inside `a` cuts `a`. */
  lemma CutInsideLeft<T>(a: seq<T>, rest: seq<T>, m: nat)
    requires m <= |a|
    ensures (a + rest)[..m] == a[..m]
    ensures (a + rest)[m..] == a[m..] + rest
  {
  }
}
