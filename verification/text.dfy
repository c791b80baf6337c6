/** The PHP string functions the client relies on (`strpos`, `substr`, `trim`,
    `rtrim`, `explode`, `join`, `strtolower`, `(int)` casts and integer
    interpolation), with the PHP 8 conventions for out-of-range offsets. */
module Text {
  import opened Wrappers

  /** `pat` occurs in `s` at position `i`. */
  predicate OccursAt(s: string, pat: string, i: nat) {
    i + |pat| <= |s| && s[i..i + |pat|] == pat
  }

  /** Leftmost position at or after `from` where `pat` occurs (PHP `strpos` with offset). */
  function IndexOf(s: string, pat: string, from: nat): (r: Option<nat>)
    ensures r.Some? ==> from <= r.value && OccursAt(s, pat, r.value)
    ensures r.Some? ==> forall j :: from <= j < r.value ==> !OccursAt(s, pat, j)
    ensures r.None? ==> forall j :: from <= j ==> !OccursAt(s, pat, j)
    decreases |s| - from
  {
    if from + |pat| > |s| then None
    else if s[from..from + |pat|] == pat then Some(from)
    else IndexOf(s, pat, from + 1)
  }

  /** The first occurrence of a character at or after `from` is found. */
  lemma IndexOfChar(s: string, c: char, from: nat, d: nat)
    requires from <= d < |s| && s[d] == c
    requires forall j :: from <= j < d ==> s[j] != c
    ensures IndexOf(s, [c], from) == Some(d)
  {
    assert OccursAt(s, [c], d) by { assert s[d..d + 1] == [c]; }
    forall j | from <= j < d ensures !OccursAt(s, [c], j) {
      assert s[j..j + 1] == [s[j]];
    }
  }

  /** The first occurrence at or after `from` is the one found. */
  lemma IndexOfFirst(s: string, pat: string, from: nat, d: nat)
    requires from <= d && OccursAt(s, pat, d)
    requires forall j :: from <= j < d ==> !OccursAt(s, pat, j)
    ensures IndexOf(s, pat, from) == Some(d)
  {
  }

  /** Searching a suffix is searching the whole string from the suffix's start. */
  lemma {:induction false} IndexOfShift(s: string, pat: string, i: nat, from: nat)
    requires i <= |s|
    ensures IndexOf(s[i..], pat, from) ==
              (if IndexOf(s, pat, i + from).Some? then Some(IndexOf(s, pat, i + from).value - i) else None)
    decreases |s| - i - from
  {
    var t := s[i..];
    if from + |pat| <= |t| {
      assert t[from..from + |pat|] == s[i + from..i + from + |pat|];
      if t[from..from + |pat|] != pat {
        IndexOfShift(s, pat, i, from + 1);
      }
    }
  }

  /** Searching a suffix from its start is searching the whole from there. */
  lemma IndexOfSuffix(s: string, pat: string, i: nat)
    requires i <= |s|
    ensures IndexOf(s[i..], pat, 0) ==
              (if IndexOf(s, pat, i).Some? then Some(IndexOf(s, pat, i).value - i) else None)
  {
    IndexOfShift(s, pat, i, 0);
    assert i + 0 == i;
  }

  /** PHP `strpos($s, $pat)`: `None` plays the role of `false`. */
  function StrPos(s: string, pat: string): (r: Option<nat>)
    ensures r.Some? ==> OccursAt(s, pat, r.value)
    ensures r.Some? ==> forall j :: 0 <= j < r.value ==> !OccursAt(s, pat, j)
    ensures r.None? ==> forall j :: 0 <= j ==> !OccursAt(s, pat, j)
  {
    IndexOf(s, pat, 0)
  }

  /** The integer PHP uses when a `strpos` result takes part in arithmetic or is
      passed as an offset: `false` converts to 0. */
  function PosOrZero(p: Option<nat>): nat {
    if p.Some? then p.value else 0
  }

  /** PHP 8 `substr($s, $start, $length)` with `len == None` for an omitted length.
      A negative start counts from the end (clamped at 0); a start past the end
      gives ""; a negative length stops that many characters before the end. */
  function Substr(s: string, start: int, len: Option<int>): (r: string)
    ensures |r| <= |s|
    ensures 0 <= start <= |s| && len.None? ==> r == s[start..]
    ensures 0 <= start && len.Some? && 0 <= len.value && start + len.value <= |s| ==>
              r == s[start..start + len.value]
    ensures start < 0 && -start <= |s| && len.None? ==> r == s[|s| + start..]
    ensures start < 0 && -start > |s| && len.None? ==> r == s
    ensures start > |s| ==> r == ""
  {
    var b := if start < 0 then (if |s| + start < 0 then 0 else |s| + start) else start;
    if b > |s| then ""
    else
      var e :=
        if len.None? then |s|
        else if len.value < 0 then |s| + len.value
        else if b + len.value > |s| then |s|
        else b + len.value;
      if e < b then "" else s[b..e]
  }

  /** Characters PHP's `trim`/`rtrim` strip when no list is given. */
  const Whitespace: set<char> := {' ', '\t', '\n', '\r', '\0', '\U{000B}'}

  /** PHP `rtrim($s, $chars)`. */
  function RTrim(s: string, chars: set<char>): (r: string)
    ensures |r| <= |s| && r == s[..|r|]
    ensures |r| > 0 ==> r[|r| - 1] !in chars
    ensures forall i :: |r| <= i < |s| ==> s[i] in chars
  {
    if |s| > 0 && s[|s| - 1] in chars then RTrim(s[..|s| - 1], chars) else s
  }

  /** PHP `ltrim($s, $chars)`. */
  function LTrim(s: string, chars: set<char>): (r: string)
    ensures |r| <= |s| && r == s[|s| - |r|..]
    ensures |r| > 0 ==> r[0] !in chars
    ensures forall i :: 0 <= i < |s| - |r| ==> s[i] in chars
  {
    if |s| > 0 && s[0] in chars then LTrim(s[1..], chars) else s
  }

  /** PHP `trim($s)` with the default character list. */
  function Trim(s: string): (r: string)
    ensures |r| > 0 ==> r[0] !in Whitespace && r[|r| - 1] !in Whitespace
  {
    LTrim(RTrim(s, Whitespace), Whitespace)
  }

  /** No whitespace at either end. */
  predicate Trimmed(s: string) {
    |s| > 0 ==> s[0] !in Whitespace && s[|s| - 1] !in Whitespace
  }

  /** `trim` leaves trimmed text alone and removes one leading space from it. */
  lemma {:induction false} TrimSpaced(s: string)
    requires Trimmed(s)
    ensures Trim(s) == s && Trim(" " + s) == s
  {
    var t := " " + s;
    if |s| > 0 {
      assert RTrim(s, Whitespace) == s;
      assert LTrim(s, Whitespace) == s;
      assert t[|t| - 1] == s[|s| - 1];
      assert RTrim(t, Whitespace) == t;
      assert t[0] in Whitespace && t[1..] == s;
      assert LTrim(t, Whitespace) == LTrim(s, Whitespace);
    } else {
      assert t[..|t| - 1] == "";
      assert RTrim(t, Whitespace) == RTrim("", Whitespace);
    }
  }

  /** `sep` joined between the parts (PHP `join`/`implode`). */
  function Join(parts: seq<string>, sep: string): string {
    if |parts| == 0 then ""
    else if |parts| == 1 then parts[0]
    else parts[0] + sep + Join(parts[1..], sep)
  }

  /** PHP `explode` on a one-character separator: always at least one part,
      and no part contains the separator. */
  function Split(s: string, sep: char): (r: seq<string>)
    ensures |r| >= 1
    ensures forall i :: 0 <= i < |r| ==> sep !in r[i]
    decreases |s|
  {
    var p := IndexOf(s, [sep], 0);
    if p.None? then
      assert sep !in s by {
        forall k | 0 <= k < |s|
          ensures s[k] != sep
        {
          assert !OccursAt(s, [sep], k);
          assert s[k..k + 1] == [s[k]];
        }
      }
      [s]
    else
      var i := p.value;
      assert sep !in s[..i] by {
        forall k | 0 <= k < i
          ensures s[..i][k] != sep
        {
          assert !OccursAt(s, [sep], k);
          assert s[k..k + 1] == [s[k]];
        }
      }
      [s[..i]] + Split(s[i + 1..], sep)
  }

  /** Splitting then joining on the same separator gives back the input. */
  lemma {:induction false} JoinSplit(s: string, sep: char)
    ensures Join(Split(s, sep), [sep]) == s
    decreases |s|
  {
    var p := IndexOf(s, [sep], 0);
    if p.Some? {
      var i := p.value;
      var rest := Split(s[i + 1..], sep);
      JoinSplit(s[i + 1..], sep);
      assert Split(s, sep) == [s[..i]] + rest;
      assert s[i..i + 1] == [sep];
      assert s == s[..i] + [sep] + s[i + 1..];
    }
  }

  /** `sep` does not occur in any part, so splitting a join recovers the parts. */
  lemma {:induction false} SplitJoin(parts: seq<string>, sep: char)
    requires |parts| >= 1
    requires forall i :: 0 <= i < |parts| ==> sep !in parts[i]
    ensures Split(Join(parts, [sep]), sep) == parts
    decreases |parts|
  {
    var s := Join(parts, [sep]);
    var h := parts[0];
    var p := IndexOf(s, [sep], 0);
    if |parts| == 1 {
      assert s == h;
      forall j | 0 <= j < |s|
        ensures !OccursAt(s, [sep], j)
      {
        assert s[j..j + 1] == [s[j]];
      }
      assert p.None?;
    } else {
      var tail := Join(parts[1..], [sep]);
      assert s == h + [sep] + tail;
      assert OccursAt(s, [sep], |h|) by { assert s[|h|..|h| + 1] == [sep]; }
      forall j | 0 <= j < |h|
        ensures !OccursAt(s, [sep], j)
      {
        assert s[j] == h[j];
        assert s[j..j + 1] == [s[j]];
      }
      assert p == Some(|h|);
      assert s[..|h|] == h;
      assert s[|h| + 1..] == tail;
      SplitJoin(parts[1..], sep);
    }
  }

  /** ASCII lower-casing, as PHP 8.2's locale-independent `strtolower`. */
  function Lower(s: string): (r: string)
    ensures |r| == |s|
    ensures forall i :: 0 <= i < |s| ==> ('A' <= s[i] <= 'Z' ==> r[i] as int == s[i] as int + 32)
    ensures forall i :: 0 <= i < |s| ==> (!('A' <= s[i] <= 'Z') ==> r[i] == s[i])
  {
    seq(|s|, i requires 0 <= i < |s| =>
      if 'A' <= s[i] <= 'Z' then (s[i] as int + 32) as char else s[i])
  }

  predicate IsSuffix(suf: string, s: string) {
    |suf| <= |s| && s[|s| - |suf|..] == suf
  }

  predicate IsDigit(c: char) {
    '0' <= c <= '9'
  }

  function DigitChar(d: nat): (c: char)
    requires d < 10
    ensures IsDigit(c)
  {
    (d + '0' as int) as char
  }

  function DigitValue(c: char): (d: nat)
    requires IsDigit(c)
    ensures d < 10
  {
    c as int - '0' as int
  }

  /** Decimal rendering of a natural number, as PHP string interpolation writes it. */
  function NatToString(n: nat): (r: string)
    ensures |r| >= 1
    ensures forall i :: 0 <= i < |r| ==> IsDigit(r[i])
  {
    if n < 10 then [DigitChar(n)] else NatToString(n / 10) + [DigitChar(n % 10)]
  }

  /** Decimal rendering of an integer (a leading '-' for negatives). */
  function IntToString(i: int): (r: string)
    ensures |r| >= 1
  {
    if i < 0 then "-" + NatToString(-i) else NatToString(i)
  }

  /** Value of a run of decimal digits (0 for the empty run). */
  function DigitsValue(s: string): nat
    requires forall i :: 0 <= i < |s| ==> IsDigit(s[i])
  {
    if |s| == 0 then 0 else DigitsValue(s[..|s| - 1]) * 10 + DigitValue(s[|s| - 1])
  }

  /** Longest prefix of `s` made of decimal digits. */
  function DigitRun(s: string): (r: string)
    ensures |r| <= |s| && r == s[..|r|]
    ensures forall i :: 0 <= i < |r| ==> IsDigit(r[i])
    ensures |r| < |s| ==> !IsDigit(s[|r|])
  {
    if |s| > 0 && IsDigit(s[0]) then [s[0]] + DigitRun(s[1..]) else ""
  }

  /** Leading whitespace PHP skips before a numeric prefix. */
  const NumericSpace: set<char> := {' ', '\t', '\n', '\r', '\U{000B}', '\U{000C}'}

  /** PHP `(int)` cast of a string: optional leading whitespace, an optional
      sign, then the longest run of decimal digits; 0 when there is none. */
  function ParseLeadingInt(s: string): int {
    ParseSigned(LTrim(s, NumericSpace))
  }

  /** Optional sign followed by the longest run of digits. */
  function ParseSigned(t: string): int {
    if |t| > 0 && t[0] == '-' then -(DigitsValue(DigitRun(t[1..])) as int)
    else if |t| > 0 && t[0] == '+' then DigitsValue(DigitRun(t[1..])) as int
    else DigitsValue(DigitRun(t)) as int
  }

  lemma {:induction false} DigitRunAllDigits(s: string)
    requires forall i :: 0 <= i < |s| ==> IsDigit(s[i])
    ensures DigitRun(s) == s
    decreases |s|
  {
    if |s| > 0 {
      DigitRunAllDigits(s[1..]);
    }
  }

  lemma {:induction false} DigitsValueOfNatToString(n: nat)
    ensures DigitsValue(NatToString(n)) == n
  {
    if n >= 10 {
      var r := NatToString(n);
      DigitsValueOfNatToString(n / 10);
      assert r[..|r| - 1] == NatToString(n / 10);
    }
  }

  lemma ParseDigitsOnly(d: string)
    requires |d| >= 1 && forall i :: 0 <= i < |d| ==> IsDigit(d[i])
    ensures ParseLeadingInt(d) == DigitsValue(d)
  {
    assert d[0] !in NumericSpace;
    LTrimStops(d, NumericSpace);
    DigitRunAllDigits(d);
    assert d[0] != '-' && d[0] != '+';
  }

  lemma ParseSignedMinus(t: string)
    requires |t| > 0 && t[0] == '-'
    ensures ParseSigned(t) == -(DigitsValue(DigitRun(t[1..])) as int)
  {
  }

  lemma LTrimStops(s: string, chars: set<char>)
    requires |s| > 0 && s[0] !in chars
    ensures LTrim(s, chars) == s
  {
  }

  lemma ParseMinusDigits(s: string)
    requires |s| >= 2 && s[0] == '-'
    requires forall i :: 1 <= i < |s| ==> IsDigit(s[i])
    ensures ParseLeadingInt(s) == -(DigitsValue(s[1..]) as int)
  {
    LTrimStops(s, NumericSpace);
    DigitRunAllDigits(s[1..]);
    ParseSignedMinus(s);
  }

  /** Casting the decimal rendering of an integer back with `(int)` recovers it. */
  lemma ParseIntToString(i: int)
    ensures ParseLeadingInt(IntToString(i)) == i
  {
    if i < 0 {
      ParseNegative(-i);
    } else {
      ParseDigitsOnly(NatToString(i));
      DigitsValueOfNatToString(i);
    }
  }

  lemma ParseNegative(n: nat)
    requires n > 0
    ensures ParseLeadingInt("-" + NatToString(n)) == -(n as int)
  {
    var d := NatToString(n);
    var s := "-" + d;
    assert s[1..] == d;
    forall i | 1 <= i < |s| ensures IsDigit(s[i]) {
      assert s[i] == d[i - 1];
    }
    ParseMinusDigits(s);
    DigitsValueOfNatToString(n);
  }
}
