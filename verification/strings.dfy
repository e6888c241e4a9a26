/** String helpers shared by the codecs: decimal text as produced by
    JavaScript template literals, `Array.prototype.join` / `String.prototype.split`
    on a single-character separator, and ASCII case mapping. */
module Strings {

  predicate IsDigit(c: char) {
    '0' <= c <= '9'
  }

  predicate AllDigits(s: string) {
    forall i :: 0 <= i < |s| ==> IsDigit(s[i])
  }

  function DigitChar(d: nat): (c: char)
    requires d < 10
    ensures IsDigit(c)
  {
    ('0' as int + d) as char
  }

  function DigitValue(c: char): (d: nat)
    requires IsDigit(c)
    ensures d < 10
  {
    c as int - '0' as int
  }

  /** Decimal text of a natural number, as `${n}` renders it. */
  function NatToString(n: nat): (s: string)
    ensures 1 <= |s|
    ensures AllDigits(s)
    ensures n < 10 <==> |s| == 1
    ensures 10 <= n < 100 ==> |s| == 2
  {
    if n < 10 then [DigitChar(n)] else NatToString(n / 10) + [DigitChar(n % 10)]
  }

  /** Decimal text of an integer, with a leading '-' for negative values. */
  function IntToString(n: int): (s: string)
    ensures 1 <= |s|
  {
    if n < 0 then "-" + NatToString(-n) else NatToString(n)
  }

  /** Value of a string of decimal digits (leading zeros allowed). */
  function ParseDecimal(s: string): nat
    requires AllDigits(s)
  {
    if |s| == 0 then 0 else ParseDecimal(s[..|s| - 1]) * 10 + DigitValue(s[|s| - 1])
  }

  lemma {:induction false} ParseNatToString(n: nat)
    ensures ParseDecimal(NatToString(n)) == n
  {
    if n >= 10 {
      var s := NatToString(n);
      assert s[..|s| - 1] == NatToString(n / 10);
      ParseNatToString(n / 10);
    }
  }

  /** A leading '0' does not change the value of a digit string. */
  lemma {:induction false} ParseLeadingZero(s: string)
    requires AllDigits(s)
    ensures ParseDecimal("0" + s) == ParseDecimal(s)
  {
    if |s| > 0 {
      var t := "0" + s;
      assert t[..|t| - 1] == "0" + s[..|s| - 1];
      ParseLeadingZero(s[..|s| - 1]);
    }
  }

  /** Index of the first occurrence of `c` in `s`. */
  function IndexOf(s: string, c: char): (k: nat)
    requires c in s
    ensures k < |s| && s[k] == c
    ensures c !in s[..k]
  {
    if s[0] == c then 0 else 1 + IndexOf(s[1..], c)
  }

  /** `parts.join(sep)` for a one-character separator. */
  function Join(parts: seq<string>, sep: char): string {
    if |parts| == 0 then ""
    else if |parts| == 1 then parts[0]
    else parts[0] + [sep] + Join(parts[1..], sep)
  }

  /** `s.split(sep)` for a one-character separator: never empty, and an
      empty input gives one empty part. */
  function Split(s: string, sep: char): (parts: seq<string>)
    ensures 1 <= |parts|
    ensures forall i :: 0 <= i < |parts| ==> sep !in parts[i]
    decreases |s|
  {
    if sep in s then
      var k := IndexOf(s, sep);
      [s[..k]] + Split(s[k + 1..], sep)
    else [s]
  }

  lemma SplitAfterSeparator(x: string, sep: char, t: string)
    requires sep !in x
    ensures Split(x + [sep] + t, sep) == [x] + Split(t, sep)
  {
    var s := x + [sep] + t;
    assert s[|x|] == sep;
    var k := IndexOf(s, sep);
    assert s[..k] == x;
    assert s[k + 1..] == t;
  }

  /** Splitting undoes joining when no part contains the separator. */
  lemma {:induction false} SplitJoin(parts: seq<string>, sep: char)
    requires 1 <= |parts|
    requires forall i :: 0 <= i < |parts| ==> sep !in parts[i]
    ensures Split(Join(parts, sep), sep) == parts
  {
    if |parts| > 1 {
      var rest := parts[1..];
      forall i | 0 <= i < |rest| ensures sep !in rest[i] {
        assert rest[i] == parts[i + 1];
      }
      SplitJoin(rest, sep);
      assert Join(parts, sep) == parts[0] + [sep] + Join(rest, sep);
      assert sep !in parts[0];
      SplitAfterSeparator(parts[0], sep, Join(rest, sep));
    }
  }

  /** `p` ends `s`, and is either all of `s` or preceded by `sep`. */
  predicate EndsWithPart(s: string, p: string, sep: char) {
    && |p| <= |s| && s[|s| - |p|..] == p
    && (|p| < |s| ==> s[|s| - |p| - 1] == sep)
  }

  /** A part that ends the text after a separator also ends the whole. */
  lemma EndsPastSeparator(s: string, k: nat, p: string, sep: char)
    requires k < |s| && s[k] == sep
    requires EndsWithPart(s[k + 1..], p, sep)
    ensures EndsWithPart(s, p, sep)
  {
    var t := s[k + 1..];
    assert s[|s| - |p|..] == t[|t| - |p|..];
    if |p| < |t| {
      assert s[|s| - |p| - 1] == t[|t| - |p| - 1];
    }
  }

  /** The last part of a split ends the string. */
  lemma {:induction false} SplitLastEnds(s: string, sep: char)
    ensures EndsWithPart(s, Split(s, sep)[|Split(s, sep)| - 1], sep)
    decreases |s|
  {
    var parts := Split(s, sep);
    if sep in s {
      var k := IndexOf(s, sep);
      var rest := Split(s[k + 1..], sep);
      SplitLastEnds(s[k + 1..], sep);
      assert parts == [s[..k]] + rest;
      assert parts[|parts| - 1] == rest[|rest| - 1];
      EndsPastSeparator(s, k, rest[|rest| - 1], sep);
    } else {
      assert parts == [s];
      assert s[|s| - |s|..] == s;
    }
  }

  /** The last part of a split is the longest separator-free suffix:
      either the whole string, or preceded by the separator. */
  lemma LastPartIsSuffix(s: string, sep: char)
    ensures var p := Split(s, sep)[|Split(s, sep)| - 1];
      && |p| <= |s| && s[|s| - |p|..] == p
      && (|p| < |s| ==> s[|s| - |p| - 1] == sep)
  {
    SplitLastEnds(s, sep);
  }

  function LowerChar(c: char): char {
    if 'A' <= c <= 'Z' then (c as int + 32) as char else c
  }

  function UpperChar(c: char): char {
    if 'a' <= c <= 'z' then (c as int - 32) as char else c
  }

  /** `toLowerCase` restricted to the ASCII letters. */
  function Lower(s: string): (r: string)
    ensures |r| == |s|
    ensures forall i :: 0 <= i < |s| ==> r[i] == LowerChar(s[i])
  {
    seq(|s|, i requires 0 <= i < |s| => LowerChar(s[i]))
  }

  /** `toUpperCase` restricted to the ASCII letters. */
  function Upper(s: string): (r: string)
    ensures |r| == |s|
    ensures forall i :: 0 <= i < |s| ==> r[i] == UpperChar(s[i])
  {
    seq(|s|, i requires 0 <= i < |s| => UpperChar(s[i]))
  }

  lemma LowerIdempotent(s: string)
    ensures Lower(Lower(s)) == Lower(s)
  {
  }
}
