/** The browser's `btoa` / `atob` as used by src/utils/fileUtils.ts: the
    padded base 64 alphabet of RFC 4648 section 4 over "binary strings"
    (strings whose characters all have codes below 256). `atob` follows the
    forgiving-base64 decode of the WHATWG Infra standard: ASCII whitespace
    is dropped, one or two `=` are removed from a length that is a multiple
    of four, a remaining length of 1 modulo 4 fails, and the bits left over
    at the end are discarded. */
module Base64 {
  import opened Wrappers

  newtype byte = x: int | 0 <= x < 256

  const InvalidCharacter := "InvalidCharacterError"

  /** A string every character of which fits in one byte. */
  predicate IsBinary(s: string) {
    forall i :: 0 <= i < |s| ==> s[i] as int < 256
  }

  /** The 64-character alphabet of RFC 4648, Table 1. */
  function Alphabet(v: nat): (c: char)
    requires v < 64
    ensures IsBase64Char(c)
  {
    if v < 26 then ('A' as int + v) as char
    else if v < 52 then ('a' as int + v - 26) as char
    else if v < 62 then ('0' as int + v - 52) as char
    else if v == 62 then '+'
    else '/'
  }

  predicate IsBase64Char(c: char) {
    'A' <= c <= 'Z' || 'a' <= c <= 'z' || '0' <= c <= '9' || c == '+' || c == '/'
  }

  /** The value of an alphabet character. */
  function Value(c: char): (v: nat)
    requires IsBase64Char(c)
    ensures v < 64 && Alphabet(v) == c
  {
    if 'A' <= c <= 'Z' then c as int - 'A' as int
    else if 'a' <= c <= 'z' then c as int - 'a' as int + 26
    else if '0' <= c <= '9' then c as int - '0' as int + 52
    else if c == '+' then 62
    else 63
  }

  lemma ValueOfAlphabet(v: nat)
    requires v < 64
    ensures Value(Alphabet(v)) == v
  {
  }

  /** The four 6-bit values of the group of bytes `x`, `y`, `z`; a
      missing byte counts as 0. */
  function Sextet0(x: byte): (v: nat)
    ensures v < 64
  {
    x as nat / 4
  }

  function Sextet1(x: byte, y: byte): (v: nat)
    ensures v < 64
  {
    x as nat % 4 * 16 + y as nat / 16
  }

  function Sextet2(y: byte, z: byte): (v: nat)
    ensures v < 64
  {
    y as nat % 16 * 4 + z as nat / 64
  }

  function Sextet3(z: byte): (v: nat)
    ensures v < 64
  {
    z as nat % 64
  }

  /** The unpadded encoding: four characters per three bytes, then two or
      three characters for a final one or two bytes. */
  function EncodeUnpadded(b: seq<byte>): (s: string)
    ensures forall i :: 0 <= i < |s| ==> IsBase64Char(s[i])
    ensures |b| % 3 == 0 ==> |s| % 4 == 0
    ensures |b| % 3 == 1 ==> |s| % 4 == 2
    ensures |b| % 3 == 2 ==> |s| % 4 == 3
    decreases |b|
  {
    if |b| == 0 then []
    else if |b| == 1 then
      [Alphabet(Sextet0(b[0])), Alphabet(Sextet1(b[0], 0))]
    else if |b| == 2 then
      [Alphabet(Sextet0(b[0])), Alphabet(Sextet1(b[0], b[1])), Alphabet(Sextet2(b[1], 0))]
    else
      var g := [Alphabet(Sextet0(b[0])), Alphabet(Sextet1(b[0], b[1])), Alphabet(Sextet2(b[1], b[2])), Alphabet(Sextet3(b[2]))];
      var rest := EncodeUnpadded(b[3..]);
      AppendAlphabet(g, rest);
      g + rest
  }

  /** Alphabet text followed by alphabet text, and a group of four keeps the
      length modulo 4. */
  lemma AppendAlphabet(g: string, rest: string)
    requires |g| == 4
    requires forall i :: 0 <= i < |g| ==> IsBase64Char(g[i])
    requires forall i :: 0 <= i < |rest| ==> IsBase64Char(rest[i])
    ensures forall i :: 0 <= i < |g + rest| ==> IsBase64Char((g + rest)[i])
    ensures |g + rest| % 4 == |rest| % 4
  {
  }

  /** `=` characters that bring an encoding of `n` bytes to a multiple of
      four. */
  function Padding(n: nat): (p: string)
    ensures |p| <= 2 && forall i :: 0 <= i < |p| ==> p[i] == '='
  {
    if n % 3 == 1 then "==" else if n % 3 == 2 then "=" else ""
  }

  /** The padding brings an unpadded encoding of `n` bytes to a multiple of
      four characters. */
  lemma PaddingCompletes(n: nat, len: nat)
    requires n % 3 == 0 ==> len % 4 == 0
    requires n % 3 == 1 ==> len % 4 == 2
    requires n % 3 == 2 ==> len % 4 == 3
    ensures (len + |Padding(n)|) % 4 == 0
  {
  }

  /** Padded encoding (RFC 4648 section 4). */
  function Encode(b: seq<byte>): (s: string)
    ensures |s| % 4 == 0
    ensures forall i :: 0 <= i < |s| ==> IsBase64Char(s[i]) || s[i] == '='
  {
    var u := EncodeUnpadded(b);
    var p := Padding(|b|);
    PaddingCompletes(|b|, |u|);
    assert forall i :: 0 <= i < |u + p| ==> (u + p)[i] == if i < |u| then u[i] else p[i - |u|];
    u + p
  }

  /** The bytes rebuilt from 6-bit values. */
  function Byte0(v0: nat, v1: nat): (x: byte)
    requires v0 < 64 && v1 < 64
  {
    (v0 * 4 + v1 / 16) as byte
  }

  function Byte1(v1: nat, v2: nat): (y: byte)
    requires v1 < 64 && v2 < 64
  {
    (v1 % 16 * 16 + v2 / 4) as byte
  }

  function Byte2(v2: nat, v3: nat): (z: byte)
    requires v2 < 64 && v3 < 64
  {
    (v2 % 4 * 64 + v3) as byte
  }

  /** The bytes of the alphabet characters `t`; the low bits of a final
      partial group are discarded. A lone final character carries no whole
      byte and gives none (`Atob` rejects that length before decoding). */
  function DecodeUnpadded(t: string): (b: seq<byte>)
    requires forall i :: 0 <= i < |t| ==> IsBase64Char(t[i])
    decreases |t|
  {
    if |t| <= 1 then []
    else if |t| == 2 then
      [Byte0(Value(t[0]), Value(t[1]))]
    else if |t| == 3 then
      [Byte0(Value(t[0]), Value(t[1])), Byte1(Value(t[1]), Value(t[2]))]
    else
      [Byte0(Value(t[0]), Value(t[1])), Byte1(Value(t[1]), Value(t[2])), Byte2(Value(t[2]), Value(t[3]))]
      + DecodeUnpadded(t[4..])
  }

  predicate IsAsciiWhitespace(c: char) {
    c == '\t' || c == '\n' || c == 12 as char || c == '\r' || c == ' '
  }

  /** `s` without its ASCII whitespace. */
  function StripWhitespace(s: string): (r: string)
    ensures |r| <= |s|
    ensures forall i :: 0 <= i < |r| ==> !IsAsciiWhitespace(r[i]) && r[i] in s
    ensures (forall i :: 0 <= i < |s| ==> !IsAsciiWhitespace(s[i])) ==> r == s
  {
    if |s| == 0 then []
    else if IsAsciiWhitespace(s[0]) then StripWhitespace(s[1..])
    else [s[0]] + StripWhitespace(s[1..])
  }

  /** A single character is dropped exactly when it is whitespace. */
  lemma StripWhitespaceOne(c: char)
    ensures StripWhitespace([c]) == if IsAsciiWhitespace(c) then [] else [c]
  {
  }

  /** Stripping works piecewise: the kept characters of `a + b` are those
      of `a` followed by those of `b`, so the order is kept. */
  lemma {:induction false} StripWhitespaceAppend(a: string, b: string)
    ensures StripWhitespace(a + b) == StripWhitespace(a) + StripWhitespace(b)
    decreases |a|
  {
    if |a| == 0 {
      assert a + b == b;
    } else {
      assert (a + b)[0] == a[0];
      assert (a + b)[1..] == a[1..] + b;
      StripWhitespaceAppend(a[1..], b);
    }
  }

  /** Every character that is not whitespace is kept as often as it occurs;
      whitespace not at all. */
  lemma {:induction false} StripWhitespaceCounts(s: string)
    ensures forall c: char :: !IsAsciiWhitespace(c) ==> multiset(StripWhitespace(s))[c] == multiset(s)[c]
    ensures forall c: char :: IsAsciiWhitespace(c) ==> multiset(StripWhitespace(s))[c] == 0
    decreases |s|
  {
    if |s| > 0 {
      StripWhitespaceCounts(s[1..]);
      assert s == [s[0]] + s[1..];
    }
  }

  /** Whitespace anywhere is ignored: inserting one whitespace character
      into a text does not change what `atob` gives. */
  lemma AtobIgnoresWhitespace(a: string, c: char, b: string)
    requires IsAsciiWhitespace(c)
    ensures Atob(a + [c] + b) == Atob(a + b)
  {
    StripInserted(a, c, b);
    AtobSeesStripped(a + [c] + b, a + b);
  }

  lemma StripInserted(a: string, c: char, b: string)
    requires IsAsciiWhitespace(c)
    ensures StripWhitespace(a + [c] + b) == StripWhitespace(a + b)
  {
    StripWhitespaceAppend(a + [c], b);
    StripWhitespaceAppend(a, [c]);
    StripWhitespaceAppend(a, b);
    StripWhitespaceOne(c);
    assert StripWhitespace(a + [c]) == StripWhitespace(a);
  }

  /** `atob` reads only what is left after whitespace is removed. */
  lemma AtobSeesStripped(s1: string, s2: string)
    requires StripWhitespace(s1) == StripWhitespace(s2)
    ensures Atob(s1) == Atob(s2)
  {
  }

  /** One or two trailing `=` removed when the length is a multiple of 4. */
  function StripPadding(s: string): (r: string)
    ensures r <= s && |s| - |r| <= 2
    ensures forall i :: |r| <= i < |s| ==> s[i] == '='
    ensures |s| % 4 != 0 ==> r == s
    ensures |s| % 4 == 0 && |s| >= 1 && s[|s| - 1] == '=' ==> r < s
    ensures |s| % 4 == 0 && |s| >= 2 && s[|s| - 2..] == "==" ==> |r| == |s| - 2
  {
    if |s| % 4 == 0 && |s| >= 2 && s[|s| - 2..] == "==" then s[..|s| - 2]
    else if |s| % 4 == 0 && |s| >= 1 && s[|s| - 1] == '=' then s[..|s| - 1]
    else s
  }

  /** `atob`: the binary string whose character codes are the decoded
      bytes, or `InvalidCharacterError`. */
  function Atob(s: string): (r: Result<string>)
    ensures r.Ok? ==> IsBinary(r.value)
    ensures r.Thrown? ==> r.message == InvalidCharacter
    ensures var t := StripPadding(StripWhitespace(s));
      r.Ok? <==> |t| % 4 != 1 && forall i :: 0 <= i < |t| ==> IsBase64Char(t[i])
  {
    var t := StripPadding(StripWhitespace(s));
    if |t| % 4 == 1 || exists i :: 0 <= i < |t| && !IsBase64Char(t[i]) then Thrown(InvalidCharacter)
    else Ok(ToBinary(DecodeUnpadded(t)))
  }

  /** `btoa`: the padded encoding of a binary string's character codes;
      any character above U+00FF throws. */
  function Btoa(s: string): (r: Result<string>)
    ensures r.Ok? <==> IsBinary(s)
    ensures r.Ok? ==> |r.value| % 4 == 0 && Atob(r.value) == Ok(s)
    ensures r.Thrown? ==> r.message == InvalidCharacter
  {
    if IsBinary(s) then
      var b := FromBinary(s);
      DecodeEncode(b);
      assert ToBinary(b) == s;
      Ok(Encode(b))
    else Thrown(InvalidCharacter)
  }

  /** The binary string whose character `i` has code `b[i]`. */
  function ToBinary(b: seq<byte>): (s: string)
    ensures |s| == |b| && IsBinary(s)
    ensures forall i :: 0 <= i < |b| ==> s[i] as int == b[i] as int
  {
    seq(|b|, i requires 0 <= i < |b| => b[i] as char)
  }

  /** The codes of a binary string's characters. */
  function FromBinary(s: string): (b: seq<byte>)
    requires IsBinary(s)
    ensures |b| == |s| && ToBinary(b) == s
    ensures forall i :: 0 <= i < |s| ==> b[i] as int == s[i] as int
  {
    var b := seq(|s|, i requires 0 <= i < |s| => s[i] as int as byte);
    assert ToBinary(b) == s;
    b
  }

  /** The sextets of a group rebuild its bytes. */
  lemma GroupRoundTrip(x: byte, y: byte, z: byte)
    ensures Byte0(Sextet0(x), Sextet1(x, y)) == x
    ensures Byte1(Sextet1(x, y), Sextet2(y, z)) == y
    ensures Byte2(Sextet2(y, z), Sextet3(z)) == z
  {
    var v1 := Sextet1(x, y);
    assert v1 / 16 == x as nat % 4 && v1 % 16 == y as nat / 16;
    var v2 := Sextet2(y, z);
    assert v2 / 4 == y as nat % 16 && v2 % 4 == z as nat / 64;
  }

  /** The alphabet characters of the given sextets decode back to them. */
  lemma DecodeChars(t: string, vs: seq<nat>)
    requires |t| == |vs| && forall i :: 0 <= i < |vs| ==> vs[i] < 64 && t[i] == Alphabet(vs[i])
    ensures forall i :: 0 <= i < |t| ==> IsBase64Char(t[i]) && Value(t[i]) == vs[i]
  {
    forall i | 0 <= i < |t| ensures Value(t[i]) == vs[i] {
      ValueOfAlphabet(vs[i]);
    }
  }

  lemma DecodeTwoChars(t: string)
    requires |t| == 2 && IsBase64Char(t[0]) && IsBase64Char(t[1])
    ensures DecodeUnpadded(t) == [Byte0(Value(t[0]), Value(t[1]))]
  {
  }

  lemma DecodeEncodeOne(x: byte)
    ensures DecodeUnpadded(EncodeUnpadded([x])) == [x]
  {
    var v0, v1 := Sextet0(x), Sextet1(x, 0);
    var e := EncodeUnpadded([x]);
    assert e == [Alphabet(v0), Alphabet(v1)];
    ValueOfAlphabet(v0);
    ValueOfAlphabet(v1);
    DecodeTwoChars(e);
    GroupRoundTrip(x, 0, 0);
  }

  lemma DecodeEncodeTwo(x: byte, y: byte)
    ensures DecodeUnpadded(EncodeUnpadded([x, y])) == [x, y]
  {
    var e := EncodeUnpadded([x, y]);
    assert e == [Alphabet(Sextet0(x)), Alphabet(Sextet1(x, y)), Alphabet(Sextet2(y, 0))];
    GroupRoundTrip(x, y, 0);
    DecodeChars(e, [Sextet0(x), Sextet1(x, y), Sextet2(y, 0)]);
  }

  /** Four or more alphabet characters decode as one group of three bytes
      followed by the rest. */
  lemma DecodeGroup(t: string)
    requires |t| >= 4 && forall i :: 0 <= i < |t| ==> IsBase64Char(t[i])
    ensures DecodeUnpadded(t) == [Byte0(Value(t[0]), Value(t[1])), Byte1(Value(t[1]), Value(t[2])), Byte2(Value(t[2]), Value(t[3]))]
      + DecodeUnpadded(t[4..])
  {
  }

  /** A group of four characters encoding `x`, `y`, `z` decodes back to
      them, whatever follows. */
  lemma DecodeEncodedGroup(g: string, rest: string, e: string, x: byte, y: byte, z: byte)
    requires g == [Alphabet(Sextet0(x)), Alphabet(Sextet1(x, y)), Alphabet(Sextet2(y, z)), Alphabet(Sextet3(z))]
    requires e == g + rest
    requires forall i :: 0 <= i < |rest| ==> IsBase64Char(rest[i])
    requires forall i :: 0 <= i < |e| ==> IsBase64Char(e[i])
    ensures DecodeUnpadded(e) == [x, y, z] + DecodeUnpadded(rest)
  {
    assert e[4..] == rest;
    DecodeGroup(e);
    ValueOfAlphabet(Sextet0(x));
    ValueOfAlphabet(Sextet1(x, y));
    ValueOfAlphabet(Sextet2(y, z));
    ValueOfAlphabet(Sextet3(z));
    GroupRoundTrip(x, y, z);
  }

  lemma DecodeEncodeGroup(b: seq<byte>)
    requires |b| > 2
    ensures DecodeUnpadded(EncodeUnpadded(b)) == [b[0], b[1], b[2]] + DecodeUnpadded(EncodeUnpadded(b[3..]))
  {
    var e := EncodeUnpadded(b);
    var g := [Alphabet(Sextet0(b[0])), Alphabet(Sextet1(b[0], b[1])), Alphabet(Sextet2(b[1], b[2])), Alphabet(Sextet3(b[2]))];
    var rest := EncodeUnpadded(b[3..]);
    assert e == g + rest;
    DecodeEncodedGroup(g, rest, e, b[0], b[1], b[2]);
  }

  /** A sequence of at least three bytes is its first group and the rest. */
  lemma SplitGroup(b: seq<byte>)
    requires |b| > 2
    ensures b == [b[0], b[1], b[2]] + b[3..]
  {
  }

  lemma {:induction false} DecodeEncodeUnpadded(b: seq<byte>)
    ensures DecodeUnpadded(EncodeUnpadded(b)) == b
    decreases |b|
  {
    if |b| == 1 {
      DecodeEncodeOne(b[0]);
      assert b == [b[0]];
    } else if |b| == 2 {
      DecodeEncodeTwo(b[0], b[1]);
      assert b == [b[0], b[1]];
    } else if |b| > 2 {
      DecodeEncodeUnpadded(b[3..]);
      DecodeEncodeGroup(b);
      SplitGroup(b);
    }
  }

  /** An encoding holds no whitespace. */
  lemma EncodingHasNoWhitespace(b: seq<byte>)
    ensures forall i :: 0 <= i < |Encode(b)| ==> !IsAsciiWhitespace(Encode(b)[i])
  {
    var u := EncodeUnpadded(b);
    var s := Encode(b);
    forall i | 0 <= i < |s| ensures !IsAsciiWhitespace(s[i]) {
      if i < |u| {
        assert s[i] == u[i];
      } else {
        assert s[i] == Padding(|b|)[i - |u|];
      }
    }
  }

  /** Removing the padding of an encoding leaves the unpadded encoding. */
  lemma StripPaddingOfEncoding(b: seq<byte>)
    ensures StripPadding(Encode(b)) == EncodeUnpadded(b)
  {
    if |b| % 3 == 1 {
      StripTwo(b);
    } else if |b| % 3 == 2 {
      StripOne(b);
    } else {
      StripNone(b);
    }
  }

  lemma StripTwo(b: seq<byte>)
    requires |b| % 3 == 1
    ensures StripPadding(Encode(b)) == EncodeUnpadded(b)
  {
    var u := EncodeUnpadded(b);
    var s := Encode(b);
    assert s == u + "==";
    assert s[|s| - 2..] == "==";
    assert s[..|s| - 2] == u;
  }

  lemma StripOne(b: seq<byte>)
    requires |b| % 3 == 2
    ensures StripPadding(Encode(b)) == EncodeUnpadded(b)
  {
    var u := EncodeUnpadded(b);
    var s := Encode(b);
    assert s == u + "=";
    assert s[|s| - 1] == '=';
    assert s[..|s| - 1] == u;
    assert u[|u| - 1] != '=';
  }

  lemma StripNone(b: seq<byte>)
    requires |b| % 3 == 0
    ensures StripPadding(Encode(b)) == EncodeUnpadded(b)
  {
    var u := EncodeUnpadded(b);
    var s := Encode(b);
    assert s == u;
    if |u| > 0 {
      assert u[|u| - 1] != '=';
    }
  }

  /** Round trip: decoding an encoding gives back the bytes. */
  lemma DecodeEncode(b: seq<byte>)
    ensures Atob(Encode(b)) == Ok(ToBinary(b))
  {
    EncodingHasNoWhitespace(b);
    StripPaddingOfEncoding(b);
    DecodeEncodeUnpadded(b);
  }

  /** An input without whitespace whose length is 1 modulo 4 is rejected. */
  lemma LengthOneModFourRejected(s: string)
    requires |s| % 4 == 1 && forall i :: 0 <= i < |s| ==> !IsAsciiWhitespace(s[i])
    ensures Atob(s).Thrown?
  {
  }

  /** Such as the text "undefined" that `atob(undefined)` decodes. */
  lemma UndefinedIsRejected(s: string)
    requires s == "undefined"
    ensures Atob(s).Thrown?
  {
    assert |s| == 9;
    LengthOneModFourRejected(s);
  }
}
