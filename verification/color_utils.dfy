/** `colorToHalfTransparent(color, opacity)` of src/utils/colorUtils.ts.
    The two regular expressions are

      /rgba?\((\d+),\s*(\d+),\s*(\d+)(?:,\s*[\d.]+)?\)/i   anywhere in the text
      /^#?([a-f\d]{2})([a-f\d]{2})([a-f\d]{2})$/i           the whole text

    The first is written as `Patterns` tokens: a prefix, then the alpha
    group with the closing parenthesis or, failing that, the parenthesis
    alone. Its matcher is proved sound and complete, so each position has
    at most one match and the greedy reading is the backtracking engine's.
    The result is kept as numbers rather than as the `rgba(…)` text. */
module ColorUtils {
  import opened Wrappers
  import opened Patterns
  import Strings

  /** `rgba?\((\d+),\s*(\d+),\s*(\d+)` under the `i` flag: everything before
      the optional alpha group. The three captures are pieces 5, 8 and 11. */
  const RgbPrefix: seq<Token> := [
    One(Letter('r')), One(Letter('g')), One(Letter('b')), Opt(Letter('a')), One(Exactly('(')),
    Plus(Digit), One(Exactly(',')), Star(Space), Plus(Digit), One(Exactly(',')), Star(Space), Plus(Digit)]

  /** `,\s*[\d.]+\)`: the alpha group taking part. */
  const AlphaTail: seq<Token> := [One(Exactly(',')), Star(Space), Plus(DigitOrDot), One(Exactly(')'))]

  /** `\)`: the alpha group left out. */
  const CloseTail: seq<Token> := [One(Exactly(')'))]

  /** The `rgb` expression matches `s` at `p` with pieces `m`. */
  predicate RgbMatchesAt(s: string, p: nat, m: Found) {
    FitsThen(s, p, RgbPrefix, AlphaTail, CloseTail, m)
  }

  /** The `rgb` expression tried at `p`. */
  function MatchRgbAt(s: string, p: nat): (r: Option<Found>)
    requires p <= |s|
    ensures r.Some? ==> RgbMatchesAt(s, p, r.value)
    ensures forall m :: RgbMatchesAt(s, p, m) ==> r == Some(m)
  {
    var r := MatchThen(s, p, RgbPrefix, AlphaTail, CloseTail);
    if r.Some? then
      MatchThenSound(s, p, RgbPrefix, AlphaTail, CloseTail, r.value);
      RgbUnique(s, p);
      r
    else
      RgbUnique(s, p);
      r
  }

  /** Every match at `p` is the one `MatchThen` finds. */
  lemma RgbUnique(s: string, p: nat)
    requires p <= |s|
    ensures forall m :: RgbMatchesAt(s, p, m) ==> MatchThen(s, p, RgbPrefix, AlphaTail, CloseTail) == Some(m)
  {
    RgbShape();
    forall m | RgbMatchesAt(s, p, m)
      ensures MatchThen(s, p, RgbPrefix, AlphaTail, CloseTail) == Some(m)
    {
      MatchThenComplete(s, p, RgbPrefix, AlphaTail, CloseTail, m);
    }
  }

  /** The `rgb` expression meets the conditions of `MatchThenComplete`. */
  lemma RgbShape()
    ensures Deterministic(RgbPrefix) && Deterministic(AlphaTail) && Deterministic(CloseTail)
    ensures Separated(RgbPrefix, AlphaTail, CloseTail)
  {
    PrefixDeterministic();
    assert Disjoint(Space, DigitOrDot);
    assert Disjoint(DigitOrDot, Exactly(')'));
    assert Disjoint(Exactly(')'), Exactly(','));
    assert Disjoint(Exactly(','), Digit);
    assert Disjoint(Exactly(')'), Digit);
  }

  /** Each variable-length token of the prefix is followed by a solid one
      outside its class. */
  lemma PrefixDeterministic()
    ensures Deterministic(RgbPrefix)
  {
    var ts := RgbPrefix;
    forall j | 0 <= j < |ts| - 1 && Variable(ts[j])
      ensures Solid(ts[j + 1]) && Disjoint(ts[j].k, ts[j + 1].k)
    {
      if j == 3 {
        assert Disjoint(Letter('a'), Exactly('('));
      } else if j == 5 || j == 8 {
        assert Disjoint(Digit, Exactly(','));
      } else {
        assert j == 7 || j == 10;
        assert Disjoint(Space, Digit);
      }
    }
  }

  /** The captures of a match are runs of decimal digits. */
  lemma CapturesAreDigits(s: string, p: nat, m: Found)
    requires RgbMatchesAt(s, p, m)
    ensures |m.head| == 12
    ensures |m.head[5]| > 0 && All(m.head[5], Digit)
    ensures |m.head[8]| > 0 && All(m.head[8], Digit)
    ensures |m.head[11]| > 0 && All(m.head[11], Digit)
  {
    FitsPieces(s, p, RgbPrefix, m.head);
    assert RgbPrefix[5] == RgbPrefix[8] == RgbPrefix[11] == Plus(Digit);
    assert PieceOk(RgbPrefix[5], m.head[5]) && PieceOk(RgbPrefix[8], m.head[8]) && PieceOk(RgbPrefix[11], m.head[11]);
  }

  /** The leftmost match of the `rgb` expression at or after `p`. */
  function FirstRgbMatch(s: string, p: nat): (r: Option<(nat, Found)>)
    requires p <= |s|
    ensures r.Some? ==> p <= r.value.0 <= |s| && RgbMatchesAt(s, r.value.0, r.value.1)
    ensures r.Some? ==> forall j, m :: p <= j < r.value.0 ==> !RgbMatchesAt(s, j, m)
    ensures r.None? ==> forall j, m :: p <= j ==> !RgbMatchesAt(s, j, m)
  {
    RgbShape();
    FirstMatchThen(s, p, RgbPrefix, AlphaTail, CloseTail)
  }

  /** The second expression: the whole text is an optional `#` and three
      pairs of hexadecimal digits. */
  function HexMatch(s: string): (r: Option<(string, string, string)>)
    ensures r.Some? <==>
      || (|s| == 6 && All(s, HexDigit))
      || (|s| == 7 && s[0] == '#' && All(s[1..], HexDigit))
    ensures r.Some? ==>
      && |r.value.0| == 2 && |r.value.1| == 2 && |r.value.2| == 2
      && s == (if |s| == 7 then "#" else "") + r.value.0 + r.value.1 + r.value.2
    ensures r.Some? ==>
      && (forall i :: |s| - 6 <= i < |s| ==> IsHexDigit(s[i]))
      && r.value == (s[|s| - 6..|s| - 4], s[|s| - 4..|s| - 2], s[|s| - 2..])
  {
    if |s| == 7 && s[0] == '#' && All(s[1..], HexDigit) then Some((s[1..3], s[3..5], s[5..7]))
    else if |s| == 6 && All(s, HexDigit) then Some((s[0..2], s[2..4], s[4..6]))
    else None
  }

  function HexValue(c: char): (v: nat)
    requires IsHexDigit(c)
    ensures v < 16
    ensures IsDigit(c) ==> v == c as int - '0' as int
  {
    if IsDigit(c) then c as int - '0' as int
    else if 'a' <= c <= 'f' then c as int - 'a' as int + 10
    else c as int - 'A' as int + 10
  }

  /** `parseInt(d, radix)` of a string whose every character is a digit in
      that radix. */
  function ParseInt(d: string, radix: nat): (v: nat)
    requires radix == 10 || radix == 16
    requires All(d, HexDigit) && (radix == 10 ==> All(d, Digit))
    decreases |d|
  {
    if |d| == 0 then 0 else ParseInt(d[..|d| - 1], radix) * radix + HexValue(d[|d| - 1])
  }

  /** In base 10 `parseInt` reads the digits as `Strings.ParseDecimal` does. */
  lemma {:induction false} ParseIntDecimal(d: string)
    requires All(d, Digit)
    ensures Strings.AllDigits(d) && ParseInt(d, 10) == Strings.ParseDecimal(d)
    decreases |d|
  {
    if |d| > 0 {
      assert All(d[..|d| - 1], Digit);
      ParseIntDecimal(d[..|d| - 1]);
    }
  }

  /** The value of a two-digit hexadecimal number, digit by digit. */
  function PairValue(hi: char, lo: char): (v: nat)
    requires IsHexDigit(hi) && IsHexDigit(lo)
    ensures v < 256
  {
    16 * HexValue(hi) + HexValue(lo)
  }

  /** `parseInt` of two hexadecimal digits is their positional value, in
      0..255. */
  lemma HexPairInRange(d: string)
    requires |d| == 2 && All(d, HexDigit)
    ensures ParseInt(d, 16) == PairValue(d[0], d[1]) && ParseInt(d, 16) < 256
  {
    assert d[..1][..0] == [] && d[..1][0] == d[0];
    assert ParseInt(d[..1], 16) == HexValue(d[0]);
  }

  /** `Math.max(0, Math.min(1, opacity))`. */
  function Clamp(opacity: real): (r: real)
    ensures 0.0 <= r <= 1.0
    ensures 0.0 <= opacity <= 1.0 ==> r == opacity
    ensures opacity < 0.0 ==> r == 0.0
    ensures opacity > 1.0 ==> r == 1.0
  {
    if opacity < 0.0 then 0.0 else if opacity > 1.0 then 1.0 else opacity
  }

  datatype Rgba = Rgba(red: nat, green: nat, blue: nat, opacity: real)

  /** What an unrecognised colour gives: `rgba(0, 0, 0, 0)`. */
  const Fallback := Rgba(0, 0, 0, 0.0)

  /** The three captures of `match || match`, and whether they came from
      the `rgb` expression. */
  datatype Captures = Captures(fromRgb: bool, c1: string, c2: string, c3: string)

  function Captured(color: string): (r: Option<Captures>)
    ensures r.Some? ==> All(r.value.c1, HexDigit) && All(r.value.c2, HexDigit) && All(r.value.c3, HexDigit)
    ensures r.Some? && r.value.fromRgb ==> All(r.value.c1, Digit) && All(r.value.c2, Digit) && All(r.value.c3, Digit)
    ensures r.Some? && !r.value.fromRgb ==> |r.value.c1| == 2 && |r.value.c2| == 2 && |r.value.c3| == 2
  {
    match FirstRgbMatch(color, 0)
    case Some(found) =>
      var ps := found.1.head;
      CapturesAreDigits(color, found.0, found.1);
      DigitsAreHex(ps[5]);
      DigitsAreHex(ps[8]);
      DigitsAreHex(ps[11]);
      Some(Captures(true, ps[5], ps[8], ps[11]))
    case None =>
      match HexMatch(color)
      case Some(h) => Some(Captures(false, h.0, h.1, h.2))
      case None => None
  }

  lemma DigitsAreHex(d: string)
    requires All(d, Digit)
    ensures All(d, HexDigit)
  {
  }

  /** When the `rgb` expression matches, its captures are the ones used. */
  lemma CapturedFromRgb(color: string, p: nat, m: Found)
    requires FirstRgbMatch(color, 0) == Some((p, m))
    ensures |m.head| == 12 && Captured(color) == Some(Captures(true, m.head[5], m.head[8], m.head[11]))
  {
  }

  /** `color.indexOf('rgb') === 0`: the text starts with lower-case
      "rgb". */
  predicate StartsWithRgb(color: string) {
    |color| >= 3 && color[..3] == "rgb"
  }

  /** Text starting with "rgb" is not `#rrggbb`. */
  lemma RgbTextIsNotHex(color: string)
    ensures StartsWithRgb(color) ==> HexMatch(color).None?
  {
    assert StartsWithRgb(color) ==> color[0] == color[..3][0] == 'r';
  }

  /** `colorToHalfTransparent` as written: the radix is 10 only when the
      text starts with lower-case "rgb", although the expression also
      matches "RGB(…)" and matches anywhere in the text. */
  function ColorToHalfTransparentAsWritten(color: string, opacity: real): (r: Rgba)
    ensures r.opacity == if Captured(color).None? then 0.0 else Clamp(opacity)
  {
    match Captured(color)
    case None => Fallback
    case Some(c) =>
      var radix := if StartsWithRgb(color) then 10 else 16;
      RgbTextIsNotHex(color);
      Rgba(ParseInt(c.c1, radix), ParseInt(c.c2, radix), ParseInt(c.c3, radix), Clamp(opacity))
  }

  /** `colorToHalfTransparent` as evidently intended: decimal components
      whenever the `rgb` expression matched, hexadecimal ones for `#rrggbb`. */
  function ColorToHalfTransparent(color: string, opacity: real): (r: Rgba)
    ensures r.opacity == if Captured(color).None? then 0.0 else Clamp(opacity)
    ensures Captured(color).None? ==> r == Fallback
    ensures FirstRgbMatch(color, 0).Some? ==>
      var ps := FirstRgbMatch(color, 0).value.1.head;
      && Strings.AllDigits(ps[5]) && Strings.AllDigits(ps[8]) && Strings.AllDigits(ps[11])
      && r == Rgba(Strings.ParseDecimal(ps[5]), Strings.ParseDecimal(ps[8]), Strings.ParseDecimal(ps[11]), Clamp(opacity))
    ensures Captured(color).Some? && !Captured(color).value.fromRgb ==>
      r.red < 256 && r.green < 256 && r.blue < 256
    ensures FirstRgbMatch(color, 0).None? && HexMatch(color).Some? ==>
      var k := |color| - 6;
      r == Rgba(PairValue(color[k], color[k + 1]), PairValue(color[k + 2], color[k + 3]),
                PairValue(color[k + 4], color[k + 5]), Clamp(opacity))
  {
    match Captured(color)
    case None => Fallback
    case Some(c) =>
      var radix := if c.fromRgb then 10 else 16;
      if c.fromRgb then
        ParseIntDecimal(c.c1);
        ParseIntDecimal(c.c2);
        ParseIntDecimal(c.c3);
        Rgba(ParseInt(c.c1, radix), ParseInt(c.c2, radix), ParseInt(c.c3, radix), Clamp(opacity))
      else
        HexPairInRange(c.c1);
        HexPairInRange(c.c2);
        HexPairInRange(c.c3);
        Rgba(ParseInt(c.c1, radix), ParseInt(c.c2, radix), ParseInt(c.c3, radix), Clamp(opacity))
  }

  /** The two agree whenever the text starts with lower-case "rgb" or the
      `rgb` expression does not match at all. */
  lemma AsWrittenAgrees(color: string, opacity: real)
    requires StartsWithRgb(color) || FirstRgbMatch(color, 0).None?
    ensures ColorToHalfTransparentAsWritten(color, opacity) == ColorToHalfTransparent(color, opacity)
  {
    RgbTextIsNotHex(color);
  }

  const UpperCaseRed: string := "RGB(255, 0, 0)"

  /** Where the pieces of the `rgb` expression start and end in
      `UpperCaseRed`. */
  const UpperCaseRedCuts: seq<nat> := [0, 1, 2, 3, 3, 4, 7, 8, 9, 10, 11, 12, 13]

  /** The match of the `rgb` expression in `UpperCaseRed`. */
  function UpperCaseRedMatch(): Found {
    UpperCaseRedBounds();
    Found(Cut(UpperCaseRed, UpperCaseRedCuts), false, Cut(UpperCaseRed, [13, 14]))
  }

  lemma UpperCaseRedPieces0()
    ensures PieceOk(RgbPrefix[0], UpperCaseRed[UpperCaseRedCuts[0]..UpperCaseRedCuts[1]])
    ensures PieceOk(RgbPrefix[1], UpperCaseRed[UpperCaseRedCuts[1]..UpperCaseRedCuts[2]])
    ensures PieceOk(RgbPrefix[2], UpperCaseRed[UpperCaseRedCuts[2]..UpperCaseRedCuts[3]])
    ensures PieceOk(RgbPrefix[3], UpperCaseRed[UpperCaseRedCuts[3]..UpperCaseRedCuts[4]])
  {
  }

  lemma UpperCaseRedPieces4()
    ensures PieceOk(RgbPrefix[4], UpperCaseRed[UpperCaseRedCuts[4]..UpperCaseRedCuts[5]])
    ensures PieceOk(RgbPrefix[5], UpperCaseRed[UpperCaseRedCuts[5]..UpperCaseRedCuts[6]])
    ensures PieceOk(RgbPrefix[6], UpperCaseRed[UpperCaseRedCuts[6]..UpperCaseRedCuts[7]])
    ensures PieceOk(RgbPrefix[7], UpperCaseRed[UpperCaseRedCuts[7]..UpperCaseRedCuts[8]])
  {
  }

  lemma UpperCaseRedPieces8()
    ensures PieceOk(RgbPrefix[8], UpperCaseRed[UpperCaseRedCuts[8]..UpperCaseRedCuts[9]])
    ensures PieceOk(RgbPrefix[9], UpperCaseRed[UpperCaseRedCuts[9]..UpperCaseRedCuts[10]])
    ensures PieceOk(RgbPrefix[10], UpperCaseRed[UpperCaseRedCuts[10]..UpperCaseRedCuts[11]])
    ensures PieceOk(RgbPrefix[11], UpperCaseRed[UpperCaseRedCuts[11]..UpperCaseRedCuts[12]])
  {
  }

  lemma UpperCaseRedBounds()
    ensures Bounds(UpperCaseRed, UpperCaseRedCuts) && Bounds(UpperCaseRed, [13, 14])
  {
  }

  /** The pieces of `UpperCaseRedMatch()` fit `UpperCaseRed` from the
      start. */
  lemma UpperCaseRedFits()
    ensures RgbMatchesAt(UpperCaseRed, 0, UpperCaseRedMatch())
  {
    UpperCaseRedHead();
    UpperCaseRedTail();
  }

  lemma UpperCaseRedHead()
    ensures Fits(UpperCaseRed, 0, RgbPrefix, UpperCaseRedMatch().head)
    ensures Len(UpperCaseRedMatch().head) == 13
  {
    var s, b := UpperCaseRed, UpperCaseRedCuts;
    UpperCaseRedPieces();
    UpperCaseRedBounds();
    FitsCut(s, RgbPrefix, b);
    assert b[0] == 0 && b[12] == 13;
  }

  /** Each piece of `UpperCaseRed` between the cuts is one its token of
      the prefix may consume. */
  lemma UpperCaseRedPieces()
    ensures forall k :: 0 <= k < 12 ==> PieceOk(RgbPrefix[k], UpperCaseRed[UpperCaseRedCuts[k]..UpperCaseRedCuts[k + 1]])
  {
    var s, b := UpperCaseRed, UpperCaseRedCuts;
    forall k | 0 <= k < 12 ensures PieceOk(RgbPrefix[k], s[b[k]..b[k + 1]]) {
      if k == 0 { UpperCaseRedPieces0(); }
      else if k == 1 { UpperCaseRedPieces0(); }
      else if k == 2 { UpperCaseRedPieces0(); }
      else if k == 3 { UpperCaseRedPieces0(); }
      else if k == 4 { UpperCaseRedPieces4(); }
      else if k == 5 { UpperCaseRedPieces4(); }
      else if k == 6 { UpperCaseRedPieces4(); }
      else if k == 7 { UpperCaseRedPieces4(); }
      else if k == 8 { UpperCaseRedPieces8(); }
      else if k == 9 { UpperCaseRedPieces8(); }
      else if k == 10 { UpperCaseRedPieces8(); }
      else { UpperCaseRedPieces8(); }
    }
  }

  lemma UpperCaseRedTail()
    ensures Fits(UpperCaseRed, 13, CloseTail, UpperCaseRedMatch().tail)
  {
    var s := UpperCaseRed;
    UpperCaseRedBounds();
    assert PieceOk(CloseTail[0], s[13..14]);
    FitsCut(s, CloseTail, [13, 14]);
  }

  /** The `rgb` expression finds `UpperCaseRedMatch()` at the start of
      "RGB(255, 0, 0)". */
  lemma UpperCaseRedFound(color: string)
    requires color == UpperCaseRed
    ensures FirstRgbMatch(color, 0) == Some((0, UpperCaseRedMatch()))
  {
    UpperCaseRedFits();
    RgbShape();
    MatchThenComplete(color, 0, RgbPrefix, AlphaTail, CloseTail, UpperCaseRedMatch());
  }

  /** The captures of "RGB(255, 0, 0)" come from the `rgb` expression. */
  lemma UpperCaseRedCaptures(color: string)
    requires color == UpperCaseRed
    ensures Captured(color) == Some(Captures(true, "255", "0", "0"))
  {
    UpperCaseRedFound(color);
    CapturedFromRgb(color, 0, UpperCaseRedMatch());
    UpperCaseRedDigits();
  }

  lemma UpperCaseRedDigits()
    ensures UpperCaseRedMatch().head[5] == "255"
    ensures UpperCaseRedMatch().head[8] == UpperCaseRedMatch().head[11] == "0"
  {
    assert UpperCaseRed[4..7] == "255" && UpperCaseRed[9..10] == UpperCaseRed[12..13] == "0";
  }

  lemma ParsedComponents()
    ensures ParseInt("255", 16) == 597 && ParseInt("0", 16) == 0
    ensures ParseInt("255", 10) == 255 && ParseInt("0", 10) == 0
  {
    assert "255"[..2] == "25" && "25"[..1] == "2" && "2"[..0] == "" && "0"[..0] == "";
  }

  /** Wherever the `rgb` expression matches a text that does not start
      with lower-case "rgb", the code as written reads the decimal digits
      it captured in base 16. */
  lemma AsWrittenReadsRgbInHex(color: string, opacity: real)
    requires FirstRgbMatch(color, 0).Some? && !StartsWithRgb(color)
    ensures Captured(color).Some? && Captured(color).value.fromRgb
    ensures var c := Captured(color).value;
      ColorToHalfTransparentAsWritten(color, opacity) == Rgba(ParseInt(c.c1, 16), ParseInt(c.c2, 16), ParseInt(c.c3, 16), Clamp(opacity))
  {
  }

  /** Upper-case "RGB(255, 0, 0)" matches the `rgb` expression, but as
      written its components are read in base 16: red becomes
      0x255 = 597. */
  lemma UpperCaseRgbMisread(color: string)
    requires color == UpperCaseRed
    ensures ColorToHalfTransparentAsWritten(color, 1.0) == Rgba(597, 0, 0, 1.0)
    ensures ColorToHalfTransparent(color, 1.0) == Rgba(255, 0, 0, 1.0)
  {
    UpperCaseRedCaptures(color);
    UpperCaseRedNotLower(color);
    RedCapturesRead(color);
  }

  lemma UpperCaseRedNotLower(color: string)
    requires color == UpperCaseRed
    ensures !StartsWithRgb(color)
  {
    assert color[0] == 'R';
  }

  /** Both versions on a text whose `rgb` captures are "255", "0", "0" and
      that does not start with lower-case "rgb". */
  lemma RedCapturesRead(color: string)
    requires Captured(color) == Some(Captures(true, "255", "0", "0")) && !StartsWithRgb(color)
    ensures ColorToHalfTransparentAsWritten(color, 1.0) == Rgba(597, 0, 0, 1.0)
    ensures ColorToHalfTransparent(color, 1.0) == Rgba(255, 0, 0, 1.0)
  {
    ParsedComponents();
  }
}
