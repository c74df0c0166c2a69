/**
 * The string utilities the sync command leans on from Go's standard library:
 * decimal rendering and parsing of 64-bit integers (strconv.FormatInt,
 * strconv.ParseInt and fmt's "%02d"), strings.Split on a literal separator,
 * and strings.Map as a per-character rewrite. Strings are sequences of code
 * points.
 */
module Strings {
  import opened Outcomes

  const MinInt64: int := -0x8000_0000_0000_0000
  const MaxInt64: int := 0x7FFF_FFFF_FFFF_FFFF

  /** Go's int64, the representation of item and sale identifiers. */
  type Int64 = x: int | MinInt64 <= x <= MaxInt64

  predicate IsDigit(c: char) {
    '0' <= c <= '9'
  }

  predicate AllDigits(s: string) {
    forall i :: 0 <= i < |s| ==> IsDigit(s[i])
  }

  function DigitChar(d: nat): (c: char)
    requires d < 10
    ensures IsDigit(c) && c as int - '0' as int == d
  {
    (d + '0' as int) as char
  }

  function DigitValue(c: char): (d: nat)
    requires IsDigit(c)
    ensures d < 10 && DigitChar(d) == c
  {
    c as int - '0' as int
  }

  // ---------------------------------------------------------------------------
  // Decimal rendering and parsing
  // ---------------------------------------------------------------------------

  /** The base-10 digits of `n`, most significant first, without leading zeros. */
  function Digits(n: nat): (r: string)
    ensures |r| > 0 && AllDigits(r)
    ensures |r| == 1 <==> n < 10
    ensures r[0] == '0' <==> n == 0
    decreases n
  {
    if n < 10 then [DigitChar(n)] else Digits(n / 10) + [DigitChar(n % 10)]
  }

  /** The number a string of digits denotes; leading zeros are allowed. */
  function ValueOf(s: string): nat
    requires AllDigits(s)
  {
    if |s| == 0 then 0 else ValueOf(s[..|s| - 1]) * 10 + DigitValue(s[|s| - 1])
  }

  /** strconv.FormatInt(n, 10): a minus sign for negative numbers, then the digits of |n|. */
  function FormatInt(n: int): (r: string)
    ensures |r| > 0
    ensures r[0] == '-' <==> n < 0
    ensures n >= 0 ==> AllDigits(r)
    ensures n < 0 ==> |r| >= 2 && AllDigits(r[1..])
    ensures forall i :: 0 <= i < |r| ==> r[i] != ')' && r[i] != '/'
  {
    if n < 0 then "-" + Digits(-n) else Digits(n)
  }

  /**
   * strconv.ParseInt(s, 10, 64): an optional sign followed by at least one
   * digit, whose value must lie in the int64 range.
   */
  function ParseInt(s: string): (r: Option<Int64>)
    ensures r.Some? ==> |s| > 0 && (IsDigit(s[0]) || s[0] == '-' || s[0] == '+')
    ensures r.Some? && s[0] == '-' ==> r.value <= 0
    ensures r.Some? && s[0] != '-' ==> r.value >= 0
  {
    if |s| > 0 && (s[0] == '-' || s[0] == '+') then
      var body := s[1..];
      if |body| == 0 || !AllDigits(body) then None
      else
        var v: int := if s[0] == '-' then 0 - ValueOf(body) else ValueOf(body);
        if MinInt64 <= v <= MaxInt64 then Some(v) else None
    else if |s| == 0 || !AllDigits(s) then None
    else if ValueOf(s) <= MaxInt64 then Some(ValueOf(s))
    else None
  }

  lemma {:induction false} DigitsValue(n: nat)
    ensures ValueOf(Digits(n)) == n
    decreases n
  {
    if n >= 10 {
      var d := Digits(n / 10);
      DigitsValue(n / 10);
      assert (d + [DigitChar(n % 10)])[..|d|] == d;
    }
  }

  /** Distinct naturals have distinct digit strings. */
  lemma {:induction false} DigitsInjective(a: nat, b: nat)
    requires Digits(a) == Digits(b)
    ensures a == b
  {
    DigitsValue(a);
    DigitsValue(b);
  }

  /** An unsigned run of digits parses to its value when that fits in an int64. */
  lemma {:induction false} ParseUnsigned(d: string)
    requires |d| > 0 && AllDigits(d) && ValueOf(d) <= MaxInt64
    ensures ParseInt(d) == Some(ValueOf(d))
  {
    assert IsDigit(d[0]);
  }

  /** A '-' followed by digits parses to the negated value when that fits in an int64. */
  lemma {:induction false} ParseNegative(d: string)
    requires |d| > 0 && AllDigits(d) && ValueOf(d) <= -MinInt64
    ensures ParseInt("-" + d) == Some(0 - ValueOf(d))
  {
    assert ("-" + d)[1..] == d;
  }

  /** Parsing undoes rendering for every int64. */
  lemma {:induction false} FormatIntRoundTrip(n: Int64)
    ensures ParseInt(FormatInt(n)) == Some(n)
  {
    if n < 0 {
      var m: nat := -(n as int);
      DigitsValue(m);
      ParseNegative(Digits(m));
    } else {
      DigitsValue(n);
      ParseUnsigned(Digits(n));
    }
  }

  /** Distinct integers have distinct renderings. */
  lemma {:induction false} FormatIntInjective(a: int, b: int)
    requires FormatInt(a) == FormatInt(b)
    ensures a == b
  {
    if a < 0 {
      assert b < 0;
      assert Digits(-a) == FormatInt(a)[1..] == FormatInt(b)[1..] == Digits(-b);
      DigitsInjective(-a, -b);
    } else {
      DigitsInjective(a, b);
    }
  }

  /** fmt's "%02d": the decimal rendering, zero-padded on the left to at least two characters. */
  function PadTwo(n: int): (r: string)
    ensures |r| >= 2
    ensures 0 <= n < 100 ==> |r| == 2 && AllDigits(r)
    ensures n < 0 || n >= 10 ==> r == FormatInt(n)
  {
    if 0 <= n < 10 then "0" + FormatInt(n) else FormatInt(n)
  }

  /** For 0 to 99 the padded rendering is two digits whose value is the number. */
  lemma {:induction false} TwoDigitValue(n: int)
    ensures 0 <= n < 100 ==> ValueOf(PadTwo(n)) == n
  {
    var r := PadTwo(n);
    if 0 <= n < 10 {
      assert r[..1] == "0" && ValueOf(r[..1]) == 0;
      assert r[1] == DigitChar(n);
    } else if 10 <= n < 100 {
      DigitsValue(n);
    }
  }

  /** The padded rendering still parses back to the number it renders. */
  lemma {:induction false} PadTwoRoundTrip(n: Int64)
    ensures ParseInt(PadTwo(n)) == Some(n)
  {
    if 0 <= n < 10 {
      var r := PadTwo(n);
      assert r[..1] == "0";
      assert ValueOf(r[..1]) == 0;
    } else {
      FormatIntRoundTrip(n);
    }
  }

  // ---------------------------------------------------------------------------
  // Searching and splitting on a literal separator
  // ---------------------------------------------------------------------------

  predicate OccursAt(s: string, sep: string, i: nat) {
    i + |sep| <= |s| && s[i..i + |sep|] == sep
  }

  predicate Contains(s: string, sep: string) {
    exists i: nat :: i <= |s| && OccursAt(s, sep, i)
  }

  /** strings.Index on `s[from..]`: the first position at or after `from` where `sep` occurs. */
  function IndexFrom(s: string, sep: string, from: nat): (r: Option<nat>)
    ensures r.Some? ==> from <= r.value && OccursAt(s, sep, r.value)
    ensures r.Some? ==> forall j: nat :: from <= j < r.value ==> !OccursAt(s, sep, j)
    ensures r.None? ==> forall j: nat :: from <= j ==> !OccursAt(s, sep, j)
    decreases |s| - from
  {
    if from + |sep| > |s| then None
    else if s[from..from + |sep|] == sep then Some(from)
    else IndexFrom(s, sep, from + 1)
  }

  /**
   * strings.Split(s, sep) for a non-empty separator: the pieces between the
   * occurrences of `sep` found by scanning left to right.
   */
  function Split(s: string, sep: string): (r: seq<string>)
    requires |sep| > 0
    ensures |r| > 0
    decreases |s|
  {
    match IndexFrom(s, sep, 0)
    case None => [s]
    case Some(m) => [s[..m]] + Split(s[m + |sep|..], sep)
  }

  /** strings.Join: the pieces with `sep` between consecutive ones. */
  function JoinWith(parts: seq<string>, sep: string): string
    requires |parts| > 0
  {
    if |parts| == 1 then parts[0] else parts[0] + sep + JoinWith(parts[1..], sep)
  }

  /** Splitting loses nothing: joining the pieces back gives the original string. */
  lemma {:induction false} SplitJoin(s: string, sep: string)
    requires |sep| > 0
    ensures JoinWith(Split(s, sep), sep) == s
    decreases |s|
  {
    match IndexFrom(s, sep, 0)
    case None =>
    case Some(m) =>
      var rest := s[m + |sep|..];
      var tail := Split(rest, sep);
      SplitJoin(rest, sep);
      var parts := [s[..m]] + tail;
      assert Split(s, sep) == parts;
      assert |parts| > 1 && parts[0] == s[..m] && parts[1..] == tail;
      assert JoinWith(parts, sep) == s[..m] + sep + rest;
      assert s[m..m + |sep|] == sep;
      assert s == s[..m] + s[m..m + |sep|] + rest;
  }

  /** The last piece of strings.Split(s, sep). */
  function LastSegment(s: string, sep: string): (r: string)
    requires |sep| > 0
    ensures !Contains(s, sep) ==> r == s
  {
    var found := IndexFrom(s, sep, 0);
    assert found.Some? ==> OccursAt(s, sep, found.value);
    var parts := Split(s, sep);
    parts[|parts| - 1]
  }

  /** One step of strings.Split: the piece before the first separator, then the split of the rest. */
  lemma {:induction false} SplitStep(s: string, sep: string, m: nat)
    requires |sep| > 0 && IndexFrom(s, sep, 0) == Some(m)
    ensures m + |sep| <= |s|
    ensures LastSegment(s, sep) == LastSegment(s[m + |sep|..], sep)
  {
    var tail := Split(s[m + |sep|..], sep);
    var parts := [s[..m]] + tail;
    assert Split(s, sep) == parts;
    assert parts[|parts| - 1] == tail[|tail| - 1];
  }

  /** The last piece is a suffix of the string it came from. */
  lemma {:induction false} LastSegmentIsSuffix(s: string, sep: string)
    requires |sep| > 0
    ensures var r := LastSegment(s, sep); |r| <= |s| && s[|s| - |r|..] == r
    decreases |s|
  {
    match IndexFrom(s, sep, 0)
    case None =>
      assert Split(s, sep) == [s];
    case Some(m) =>
      var rest := s[m + |sep|..];
      SplitStep(s, sep, m);
      LastSegmentIsSuffix(rest, sep);
      var r := LastSegment(s, sep);
      assert s[|s| - |r|..] == rest[|rest| - |r|..];
  }

  /** Without an occurrence, the split is the whole string and `s` contains no separator. */
  lemma {:induction false} NoOccurrence(s: string, sep: string)
    requires |sep| > 0 && IndexFrom(s, sep, 0).None?
    ensures Split(s, sep) == [s] && LastSegment(s, sep) == s
    ensures !Contains(s, sep)
  {
    forall i: nat | i <= |s| ensures !OccursAt(s, sep, i) { }
  }

  /** An occurrence in a suffix of `s` is an occurrence in `s`, shifted by where the suffix starts. */
  lemma {:induction false} OccursShift(s: string, sep: string, d: nat, k: nat)
    requires d <= |s| && OccursAt(s[d..], sep, k)
    ensures OccursAt(s, sep, k + d)
  {
    assert s[k + d..k + d + |sep|] == s[d..][k..k + |sep|];
  }

  /** A string that contains the separator has a first occurrence. */
  lemma {:induction false} ContainsFound(s: string, sep: string)
    requires Contains(s, sep)
    ensures IndexFrom(s, sep, 0).Some?
  {
    var i: nat :| i <= |s| && OccursAt(s, sep, i);
  }

  /** An occurrence with none before it is the one strings.Index finds. */
  lemma {:induction false} FirstOccurrence(s: string, sep: string, k: nat)
    requires OccursAt(s, sep, k)
    requires forall j: nat :: j < k ==> !OccursAt(s, sep, j)
    ensures IndexFrom(s, sep, 0) == Some(k)
  {
    var r := IndexFrom(s, sep, 0);
    var v := if r.Some? then r.value else k;
    assert OccursAt(s, sep, v);
    assert r.Some?;
    assert v == k;
  }

  /** A string that does not contain the separator has no first occurrence. */
  lemma {:induction false} NotContainedNotFound(s: string, sep: string)
    requires !Contains(s, sep)
    ensures IndexFrom(s, sep, 0).None?
  {
    var r := IndexFrom(s, sep, 0);
    assert r.Some? ==> OccursAt(s, sep, r.value);
  }

  /** The last piece never holds the separator. */
  lemma {:induction false} LastSegmentSeparatorFree(s: string, sep: string)
    requires |sep| > 0
    ensures !Contains(LastSegment(s, sep), sep)
    decreases |s|
  {
    match IndexFrom(s, sep, 0)
    case None =>
      NoOccurrence(s, sep);
    case Some(m) =>
      SplitStep(s, sep, m);
      LastSegmentSeparatorFree(s[m + |sep|..], sep);
  }

  /** When the separator occurs, the last piece starts right after an occurrence. */
  lemma {:induction false} LastSegmentAfterSeparator(s: string, sep: string)
    requires |sep| > 0 && Contains(s, sep)
    ensures var r := LastSegment(s, sep);
      |r| + |sep| <= |s| && OccursAt(s, sep, |s| - |r| - |sep|)
    decreases |s|
  {
    ContainsFound(s, sep);
    var m := IndexFrom(s, sep, 0).value;
    var rest := s[m + |sep|..];
    var r := LastSegment(s, sep);
    SplitStep(s, sep, m);
    assert LastSegment(rest, sep) == r;
    if Contains(rest, sep) {
      LastSegmentAfterSeparator(rest, sep);
      assert |r| + |sep| <= |rest|;
      OccursShift(s, sep, m + |sep|, |rest| - |r| - |sep|);
      assert (|rest| - |r| - |sep|) + (m + |sep|) == |s| - |r| - |sep|;
    } else {
      NotContainedNotFound(rest, sep);
      NoOccurrence(rest, sep);
      assert |s| - |r| - |sep| == m;
    }
  }

  /**
   * The last piece holds no separator; it is all of `s` when `s` holds none,
   * and otherwise a separator ends right where it begins.
   */
  lemma {:induction false} LastSegmentProperties(s: string, sep: string)
    requires |sep| > 0
    ensures var r := LastSegment(s, sep);
      && |r| <= |s| && s[|s| - |r|..] == r
      && !Contains(r, sep)
      && (!Contains(s, sep) ==> r == s)
      && (Contains(s, sep) ==> |r| + |sep| <= |s| && OccursAt(s, sep, |s| - |r| - |sep|))
  {
    LastSegmentIsSuffix(s, sep);
    LastSegmentSeparatorFree(s, sep);
    if Contains(s, sep) {
      LastSegmentAfterSeparator(s, sep);
    } else {
      NotContainedNotFound(s, sep);
      NoOccurrence(s, sep);
    }
  }

  // ---------------------------------------------------------------------------
  // Per-character rewriting
  // ---------------------------------------------------------------------------

  /** strings.Map with a total rewrite: every character replaced by its image, in place. */
  function MapChars(s: string, f: char -> char): (r: string)
    ensures |r| == |s|
    ensures forall i :: 0 <= i < |s| ==> r[i] == f(s[i])
  {
    if |s| == 0 then [] else [f(s[0])] + MapChars(s[1..], f)
  }
}
