/** The data-URL and byte helpers of src/utils/fileUtils.ts. A `File` is
    its bytes, its name and its MIME type; an `ArrayBuffer` or `Uint8Array`
    is a sequence of bytes. */
module FileUtils {
  import opened Wrappers
  import opened Base64
  import Strings

  datatype File = File(bytes: seq<byte>, name: string, mime: string)

  const DefaultFilename := "file.png"

  /** The `type` a `File` keeps from its options (the File API's blob
      constructor): a type holding any character outside U+0020..U+007E
      becomes empty; any other is converted to ASCII lower case. */
  function BlobType(t: string): (r: string)
    ensures r == "" <==> t == "" || exists i :: 0 <= i < |t| && !(' ' <= t[i] <= '~')
    ensures r != "" ==> r == Strings.Lower(t)
    ensures forall i :: 0 <= i < |r| ==> ' ' <= r[i] <= '~' && !('A' <= r[i] <= 'Z')
  {
    if exists i :: 0 <= i < |t| && !(' ' <= t[i] <= '~') then "" else Strings.Lower(t)
  }

  /** An upper-case type is stored in lower case, and a lower-case one as
      it is. */
  lemma BlobTypeExamples()
    ensures BlobType("IMAGE/PNG") == "image/png"
    ensures BlobType("image/png") == "image/png"
  {
  }

  /** What reading `[1]` of the `null` returned by a failed `match`
      throws. */
  const NoMatch := "TypeError"

  /** The line terminators, which `.` in a regular expression does not
      match. */
  predicate IsLineTerminator(c: char) {
    c == '\n' || c == '\r' || c == 0x2028 as char || c == 0x2029 as char
  }

  /** `/:(.*?);/` matches at position `p` of `h` with capture `m`: a colon at
      `p`, then `m`, then a semicolon, where `m` holds neither semicolons
      (the lazy `*?` stops at the first one) nor line terminators. */
  predicate MatchesAt(h: string, p: nat, m: string) {
    && p + |m| + 1 < |h|
    && h[p] == ':'
    && h[p + 1..p + 1 + |m|] == m
    && h[p + 1 + |m|] == ';'
    && forall i :: 0 <= i < |m| ==> m[i] != ';' && !IsLineTerminator(m[i])
  }

  /** The capture of the match at the colon `p`, scanning on from `q` for
      the first semicolon before any line terminator. */
  function CaptureFrom(h: string, p: nat, q: nat): (r: Option<string>)
    requires p < q <= |h| && h[p] == ':'
    requires forall i :: p < i < q ==> h[i] != ';' && !IsLineTerminator(h[i])
    ensures r.Some? ==> MatchesAt(h, p, r.value)
    ensures r.None? ==> forall m :: !MatchesAt(h, p, m)
    decreases |h| - q
  {
    if q == |h| || IsLineTerminator(h[q]) then
      assert forall m :: !MatchesAt(h, p, m) by {
        forall m ensures !MatchesAt(h, p, m) {
          assert MatchesAt(h, p, m) ==>
            forall i :: p < i < p + 1 + |m| ==> h[i] == m[i - p - 1] && !IsLineTerminator(h[i]);
        }
      }
      None
    else if h[q] == ';' then
      var m := h[p + 1..q];
      assert forall i :: 0 <= i < |m| ==> m[i] == h[p + 1 + i];
      Some(m)
    else CaptureFrom(h, p, q + 1)
  }

  /** The leftmost match of `/:(.*?);/` in `h` at or after `p`: its position
      and capture. */
  function FirstMatchFrom(h: string, p: nat): (r: Option<(nat, string)>)
    requires p <= |h|
    ensures r.Some? ==> p <= r.value.0 < |h| && MatchesAt(h, r.value.0, r.value.1)
    ensures r.Some? ==> forall j, m :: p <= j < r.value.0 ==> !MatchesAt(h, j, m)
    ensures r.None? ==> forall j, m :: p <= j < |h| ==> !MatchesAt(h, j, m)
    decreases |h| - p
  {
    if p == |h| then None
    else
      var here := if h[p] == ':' then CaptureFrom(h, p, p + 1) else None;
      if here.Some? then Some((p, here.value))
      else FirstMatchFrom(h, p + 1)
  }

  /** At a given colon the match, if any, is unique: `m` ends at the first
      semicolon. */
  lemma MatchIsUnique(h: string, p: nat, m1: string, m2: string)
    requires MatchesAt(h, p, m1) && MatchesAt(h, p, m2)
    ensures m1 == m2
  {
    assert forall i :: 0 <= i < |m1| ==> h[p + 1 + i] == m1[i] != ';';
    assert forall i :: 0 <= i < |m2| ==> h[p + 1 + i] == m2[i] != ';';
  }

  /** The ToUint8 conversion of a character code stored in a
      `Uint8Array`. */
  function Uint8(c: char): (b: byte)
    ensures c as int < 256 ==> b as int == c as int
  {
    (c as int % 256) as byte
  }

  /** The byte-filling loop of `base64ToFile`: `while (n--)` writes
      `bStr.charCodeAt(n)` from the last index down to 0. */
  method FillBytes(bin: string) returns (r: seq<byte>)
    ensures |r| == |bin|
    ensures forall i :: 0 <= i < |bin| ==> r[i] == Uint8(bin[i])
    ensures IsBinary(bin) ==> ToBinary(r) == bin
  {
    var n := |bin|;
    var a := new byte[n];
    while n > 0
      invariant 0 <= n <= |bin| && a.Length == |bin|
      invariant forall i :: n <= i < |bin| ==> a[i] == Uint8(bin[i])
    {
      n := n - 1;
      a[n] := Uint8(bin[n]);
    }
    r := a[..];
    if IsBinary(bin) {
      CodesOfBinary(bin, r);
    }
  }

  /** Storing each character code of a binary string gives back the
      string. */
  lemma CodesOfBinary(bin: string, bytes: seq<byte>)
    requires IsBinary(bin) && |bytes| == |bin|
    requires forall i :: 0 <= i < |bin| ==> bytes[i] == Uint8(bin[i])
    ensures ToBinary(bytes) == bin
  {
    assert forall i :: 0 <= i < |bin| ==> ToBinary(bytes)[i] as int == bin[i] as int;
  }

  /** `base64ToFile(base64Str, filename)`. The header is the text before the
      first comma and the payload the text between the first and the second
      comma; with no comma the payload is `undefined`, which `atob` reads as
      the text "undefined" and rejects. A header without a `:…;` match
      throws before the payload is decoded. The `File` keeps the capture
      as its type the way the blob constructor does (`BlobType`). */
  method Base64ToFile(dataUrl: string, filename: string) returns (r: Result<File>)
    ensures r.Ok? ==> r.value.name == (if filename == "" then DefaultFilename else filename)
    ensures var header := Strings.Split(dataUrl, ',')[0];
      r == Thrown(NoMatch) <==> forall j, m :: 0 <= j < |header| ==> !MatchesAt(header, j, m)
    ensures var parts := Strings.Split(dataUrl, ',');
      r.Ok? <==> FirstMatchFrom(parts[0], 0).Some? && |parts| >= 2 && Atob(parts[1]).Ok?
    ensures r.Ok? ==>
      var parts := Strings.Split(dataUrl, ',');
      && (exists k, cap :: && MatchesAt(parts[0], k, cap)
                           && (forall j, m :: j < k ==> !MatchesAt(parts[0], j, m))
                           && r.value.mime == BlobType(cap))
      && ToBinary(r.value.bytes) == Atob(parts[1]).value
  {
    var name := if filename == "" then DefaultFilename else filename;
    var parts := Strings.Split(dataUrl, ',');
    var found := FirstMatchFrom(parts[0], 0);
    if found.None? {
      return Thrown(NoMatch);
    }
    var payload := if |parts| >= 2 then parts[1] else "undefined";
    if |parts| < 2 {
      UndefinedIsRejected(payload);
    }
    var decoded := Atob(payload);
    if decoded.Thrown? {
      return Thrown(decoded.message);
    }
    var bytes := FillBytes(decoded.value);
    r := Ok(File(bytes, name, BlobType(found.value.1)));
  }

  /** `arrayBufferToBase64(buffer)`: one character per byte, in order, then
      `btoa`. The result decodes back to the buffer. */
  method ArrayBufferToBase64(buffer: seq<byte>) returns (r: string)
    ensures r == Encode(buffer)
    ensures Atob(r) == Ok(ToBinary(buffer))
  {
    var acc := "";
    var i := 0;
    while i < |buffer|
      invariant 0 <= i <= |buffer|
      invariant acc == ToBinary(buffer[..i])
    {
      acc := acc + [buffer[i] as char];
      i := i + 1;
    }
    assert buffer[..i] == buffer;
    var encoded := Btoa(acc);
    assert FromBinary(acc) == buffer;
    DecodeEncode(buffer);
    r := encoded.value;
  }

  /** `base64ToArrayBuffer(base64Str)`: `atob`, then byte `i` is the code of
      character `i`. */
  method Base64ToArrayBuffer(s: string) returns (r: Result<seq<byte>>)
    ensures r.Ok? <==> Atob(s).Ok?
    ensures r.Thrown? ==> r.message == InvalidCharacter
    ensures r.Ok? ==> ToBinary(r.value) == Atob(s).value
    ensures forall b :: s == Encode(b) ==> r == Ok(b)
  {
    var decoded := Atob(s);
    if decoded.Thrown? {
      forall b ensures s != Encode(b) {
        DecodeEncode(b);
      }
      return Thrown(decoded.message);
    }
    var bin := decoded.value;
    var a := new byte[|bin|];
    for i := 0 to |bin|
      invariant forall j :: 0 <= j < i ==> a[j] == Uint8(bin[j])
    {
      a[i] := Uint8(bin[i]);
    }
    var bytes := a[..];
    CodesOfBinary(bin, bytes);
    EncodingDeterminesBytes(s, bytes);
    r := Ok(bytes);
  }

  /** Bytes whose binary string is what `s` decodes to are the bytes `s`
      encodes, when it is an encoding. */
  lemma EncodingDeterminesBytes(s: string, bytes: seq<byte>)
    requires Atob(s).Ok? && ToBinary(bytes) == Atob(s).value
    ensures forall b :: s == Encode(b) ==> bytes == b
  {
    forall b | s == Encode(b) ensures bytes == b {
      DecodeEncode(b);
      assert forall i :: 0 <= i < |b| ==> b[i] as int == ToBinary(b)[i] as int == bytes[i] as int;
    }
  }
}
