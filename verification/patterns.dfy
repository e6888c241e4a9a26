/** A fragment of ECMAScript regular expressions large enough for the colour
    expressions: a sequence of tokens, each one character class taken once,
    optionally (`?`), any number of times (`*`) or at least once (`+`), all
    greedy. Such a sequence is matched here without backtracking; that is
    the backtracking engine's answer whenever every variable-length token is
    followed by one that needs a character outside its class, which
    `Deterministic` states and `MatchComplete` uses. */
module Patterns {
  import opened Wrappers

  /** `\d` without the `u` flag: the ASCII digits. */
  predicate IsDigit(c: char) {
    '0' <= c <= '9'
  }

  /** `\s`: the ECMAScript white space and line terminator characters. */
  predicate IsSpace(c: char) {
    || c == '\t' || c == '\n' || c == 0x0B as char || c == 0x0C as char || c == '\r' || c == ' '
    || c == 0xA0 as char || c == 0x1680 as char || (0x2000 as char <= c <= 0x200A as char)
    || c == 0x2028 as char || c == 0x2029 as char || c == 0x202F as char || c == 0x205F as char
    || c == 0x3000 as char || c == 0xFEFF as char
  }

  predicate IsHexDigit(c: char) {
    IsDigit(c) || 'a' <= c <= 'f' || 'A' <= c <= 'F'
  }

  /** The character classes used: `\d`, `\s`, `[\d.]`, `[a-f\d]` under the
      `i` flag, one letter under the `i` flag (a lower-case ASCII letter or
      its upper-case form; no other character folds onto an ASCII letter
      without the `u` flag), and one exact character. */
  datatype CharClass = Digit | Space | DigitOrDot | HexDigit | Letter(lower: char) | Exactly(c: char)

  predicate In(c: char, k: CharClass) {
    match k
    case Digit => IsDigit(c)
    case Space => IsSpace(c)
    case DigitOrDot => IsDigit(c) || c == '.'
    case HexDigit => IsHexDigit(c)
    case Letter(l) => c == l || c as int + 32 == l as int
    case Exactly(d) => c == d
  }

  predicate All(s: string, k: CharClass) {
    forall i :: 0 <= i < |s| ==> In(s[i], k)
  }

  datatype Token = One(k: CharClass) | Opt(k: CharClass) | Star(k: CharClass) | Plus(k: CharClass)

  /** The text `p` is what token `t` may consume. */
  predicate PieceOk(t: Token, p: string) {
    match t
    case One(k) => |p| == 1 && In(p[0], k)
    case Opt(k) => |p| <= 1 && All(p, k)
    case Star(k) => All(p, k)
    case Plus(k) => |p| > 0 && All(p, k)
  }

  /** `w` occurs in `s` at `i`. */
  predicate At(s: string, i: nat, w: string) {
    i + |w| <= |s| && s[i..i + |w|] == w
  }

  /** The total length of the pieces. */
  function Len(ps: seq<string>): nat {
    if |ps| == 0 then 0 else |ps[0]| + Len(ps[1..])
  }

  /** The pattern `ts` matches `s` from `i` with piece `ps[j]` consumed by
      token `ts[j]`, one after another. */
  predicate Fits(s: string, i: nat, ts: seq<Token>, ps: seq<string>)
    decreases |ts|
  {
    && |ps| == |ts|
    && (|ts| > 0 ==>
      && PieceOk(ts[0], ps[0]) && At(s, i, ps[0])
      && Fits(s, i + |ps[0]|, ts[1..], ps[1..]))
  }

  /** The length of the longest run of characters of class `k` from `i`. */
  function Run(s: string, i: nat, k: CharClass): (n: nat)
    requires i <= |s|
    ensures i + n <= |s|
    ensures All(s[i..i + n], k)
    ensures i + n == |s| || !In(s[i + n], k)
    decreases |s| - i
  {
    if i == |s| || !In(s[i], k) then 0
    else
      var n := Run(s, i + 1, k);
      AllCons(s, i, n, k);
      1 + n
  }

  /** A character of the class before a run of it makes a longer run. */
  lemma AllCons(s: string, i: nat, n: nat, k: CharClass)
    requires i + 1 + n <= |s| && In(s[i], k) && All(s[i + 1..i + 1 + n], k)
    ensures All(s[i..i + 1 + n], k)
  {
    var w, w' := s[i..i + 1 + n], s[i + 1..i + 1 + n];
    forall j | 0 <= j < |w| ensures In(w[j], k) {
      if j > 0 {
        assert w[j] == w'[j - 1];
      }
    }
  }

  /** A run of the class followed by a character outside it is the
      longest run. */
  lemma {:induction false} RunIsMaximal(s: string, i: nat, w: string, k: CharClass)
    requires At(s, i, w) && All(w, k)
    requires i + |w| == |s| || !In(s[i + |w|], k)
    ensures Run(s, i, k) == |w|
    decreases |w|
  {
    if |w| > 0 {
      assert s[i] == w[0];
      assert At(s, i + 1, w[1..]);
      RunIsMaximal(s, i + 1, w[1..], k);
    }
  }

  /** How much token `t` consumes from `i`: as much as it can. */
  function Take(s: string, i: nat, t: Token): (r: Option<nat>)
    requires i <= |s|
    ensures r.Some? ==> i + r.value <= |s|
  {
    match t
    case One(k) => if i < |s| && In(s[i], k) then Some(1) else None
    case Opt(k) => if i < |s| && In(s[i], k) then Some(1) else Some(0)
    case Star(k) => Some(Run(s, i, k))
    case Plus(k) => var n := Run(s, i, k); if n > 0 then Some(n) else None
  }

  /** The tokens matched one after another from `i`, each taking as much
      as it can. */
  function Match(s: string, i: nat, ts: seq<Token>): (r: Option<seq<string>>)
    requires i <= |s|
    ensures r.Some? ==> |r.value| == |ts| && i + Len(r.value) <= |s|
    decreases |ts|
  {
    if |ts| == 0 then Some([])
    else match Take(s, i, ts[0])
      case None => None
      case Some(n) =>
        match Match(s, i + n, ts[1..])
        case None => None
        case Some(rest) => Some([s[i..i + n]] + rest)
  }

  /** What a token takes is a piece it may consume. */
  lemma TakeSound(s: string, i: nat, t: Token, n: nat)
    requires i <= |s| && Take(s, i, t) == Some(n)
    ensures i + n <= |s| && PieceOk(t, s[i..i + n])
  {
    if (t.One? || t.Opt?) && n == 1 {
      assert s[i..i + 1][0] == s[i];
    }
  }

  /** What the matcher returns fits the pattern. */
  lemma {:induction false} MatchSound(s: string, i: nat, ts: seq<Token>, ps: seq<string>)
    requires i <= |s| && Match(s, i, ts) == Some(ps)
    ensures Fits(s, i, ts, ps)
    decreases |ts|
  {
    if |ts| > 0 {
      var n := Take(s, i, ts[0]).value;
      var rest := Match(s, i + n, ts[1..]).value;
      assert ps == [s[i..i + n]] + rest;
      assert ps[0] == s[i..i + n] && ps[1..] == rest;
      TakeSound(s, i, ts[0], n);
      MatchSound(s, i + n, ts[1..], rest);
    }
  }

  predicate Variable(t: Token) {
    !t.One?
  }

  /** The token always consumes at least one character. */
  predicate Solid(t: Token) {
    t.One? || t.Plus?
  }

  /** No character is in both classes. */
  predicate Disjoint(k1: CharClass, k2: CharClass) {
    forall c :: In(c, k1) ==> !In(c, k2)
  }

  /** Every token of variable length but the last is followed by one that
      needs a character outside its class. */
  predicate Deterministic(ts: seq<Token>) {
    forall j :: 0 <= j < |ts| - 1 && Variable(ts[j]) ==>
      Solid(ts[j + 1]) && Disjoint(ts[j].k, ts[j + 1].k)
  }

  /** The character after the fit, if any, is outside the class of the
      last token when that token has variable length. */
  predicate EndsBefore(s: string, i: nat, ts: seq<Token>, ps: seq<string>) {
    |ts| > 0 && Variable(ts[|ts| - 1]) ==> i + Len(ps) == |s| || (i + Len(ps) < |s| && !In(s[i + Len(ps)], ts[|ts| - 1].k))
  }

  /** A fit is followed directly by its last piece's successor: the length
      of the pieces adds up. */
  lemma FitsLength(s: string, i: nat, ts: seq<Token>, ps: seq<string>)
    requires Fits(s, i, ts, ps) && |ts| > 0
    ensures Len(ps) == |ps[0]| + Len(ps[1..])
  {
  }

  /** Token `t` takes exactly the piece `p` when the character after `p`
      cannot extend it. */
  lemma TakeExact(s: string, i: nat, t: Token, p: string)
    requires PieceOk(t, p) && At(s, i, p)
    requires Variable(t) ==> i + |p| == |s| || (i + |p| < |s| && !In(s[i + |p|], t.k))
    ensures Take(s, i, t) == Some(|p|)
  {
    match t
    case One(_) => assert s[i] == p[0];
    case Opt(_) =>
      if |p| == 1 {
        assert s[i] == p[0];
      }
    case Star(k) => RunIsMaximal(s, i, p, k);
    case Plus(k) => RunIsMaximal(s, i, p, k);
  }

  /** Inside a deterministic fit, the first piece is followed by a
      character its token cannot take. */
  lemma NextOutside(s: string, i: nat, ts: seq<Token>, ps: seq<string>)
    requires Deterministic(ts) && Fits(s, i, ts, ps) && |ts| > 1 && Variable(ts[0])
    ensures i + |ps[0]| < |s| && !In(s[i + |ps[0]|], ts[0].k)
  {
    var n := |ps[0]|;
    assert Solid(ts[1]) && Disjoint(ts[0].k, ts[1].k);
    assert Fits(s, i + n, ts[1..], ps[1..]);
    assert ps[1..][0] == ps[1] && ts[1..][0] == ts[1];
    assert |ps[1]| > 0 && In(ps[1][0], ts[1].k);
    assert s[i + n..i + n + |ps[1]|] == ps[1];
    assert s[i + n] == ps[1][0];
  }

  /** A fit lies within the text. */
  lemma {:induction false} FitsWithin(s: string, i: nat, ts: seq<Token>, ps: seq<string>)
    requires Fits(s, i, ts, ps) && (|ts| > 0 || i <= |s|)
    ensures i + Len(ps) <= |s|
    decreases |ts|
  {
    if |ts| > 0 {
      FitsLength(s, i, ts, ps);
      FitsWithin(s, i + |ps[0]|, ts[1..], ps[1..]);
    }
  }

  /** Cut points in `s`: ascending, and within the text. */
  predicate Bounds(s: string, b: seq<nat>) {
    && |b| > 0
    && (forall k :: 0 <= k < |b| ==> b[k] <= |s|)
    && (forall k :: 0 <= k < |b| - 1 ==> b[k] <= b[k + 1])
  }

  /** The pieces of `s` between consecutive cut points. */
  function Cut(s: string, b: seq<nat>): (ps: seq<string>)
    requires Bounds(s, b)
    ensures |ps| == |b| - 1
    ensures forall k :: 0 <= k < |ps| ==> ps[k] == s[b[k]..b[k + 1]]
  {
    seq(|b| - 1, k requires 0 <= k < |b| - 1 => s[b[k]..b[k + 1]])
  }

  lemma CutTail(s: string, b: seq<nat>)
    requires Bounds(s, b) && |b| > 1
    ensures Bounds(s, b[1..]) && Cut(s, b)[1..] == Cut(s, b[1..])
  {
    assert forall k :: 0 <= k < |b| - 1 ==> b[1..][k] == b[k + 1];
  }

  /** Pieces between cut points fit the pattern when each is one its token
      may consume; they cover the text from the first cut to the last. */
  lemma {:induction false} FitsCut(s: string, ts: seq<Token>, b: seq<nat>)
    requires Bounds(s, b) && |ts| == |b| - 1
    requires forall k :: 0 <= k < |ts| ==> PieceOk(ts[k], s[b[k]..b[k + 1]])
    ensures Fits(s, b[0], ts, Cut(s, b)) && b[0] + Len(Cut(s, b)) == b[|b| - 1]
    decreases |ts|
  {
    if |ts| > 0 {
      var ps := Cut(s, b);
      PiecesTail(s, ts, b);
      FitsCut(s, ts[1..], b[1..]);
      CutTail(s, b);
      assert ps[0] == s[b[0]..b[1]];
      FitsCons(s, b[0], ts, ps);
      assert b[1..][|b| - 2] == b[|b| - 1];
    }
  }

  lemma PiecesTail(s: string, ts: seq<Token>, b: seq<nat>)
    requires Bounds(s, b) && |ts| == |b| - 1 && |ts| > 0
    requires forall k :: 0 <= k < |ts| ==> PieceOk(ts[k], s[b[k]..b[k + 1]])
    ensures Bounds(s, b[1..])
    ensures forall k :: 0 <= k < |ts| - 1 ==> PieceOk(ts[1..][k], s[b[1..][k]..b[1..][k + 1]])
  {
    forall k | 0 <= k < |ts| - 1 ensures PieceOk(ts[1..][k], s[b[1..][k]..b[1..][k + 1]]) {
      assert ts[1..][k] == ts[k + 1] && b[1..][k] == b[k + 1] && b[1..][k + 1] == b[k + 2];
    }
  }

  /** A first piece its token may consume, followed by a fit of the rest. */
  lemma FitsCons(s: string, i: nat, ts: seq<Token>, ps: seq<string>)
    requires |ts| > 0 && |ps| == |ts| && PieceOk(ts[0], ps[0]) && At(s, i, ps[0])
    requires Fits(s, i + |ps[0]|, ts[1..], ps[1..])
    ensures Fits(s, i, ts, ps)
  {
  }

  /** Each piece of a fit is one its token may consume. */
  lemma {:induction false} FitsPieces(s: string, i: nat, ts: seq<Token>, ps: seq<string>)
    requires Fits(s, i, ts, ps)
    ensures forall j :: 0 <= j < |ts| ==> PieceOk(ts[j], ps[j])
    decreases |ts|
  {
    if |ts| > 0 {
      FitsPieces(s, i + |ps[0]|, ts[1..], ps[1..]);
      assert forall j :: 1 <= j < |ts| ==> ts[j] == ts[1..][j - 1] && ps[j] == ps[1..][j - 1];
    }
  }

  lemma DeterministicTail(ts: seq<Token>)
    requires Deterministic(ts) && |ts| > 0
    ensures Deterministic(ts[1..])
  {
    assert forall j :: 0 <= j < |ts| - 1 ==> ts[1..][j] == ts[j + 1];
  }

  lemma EndsBeforeTail(s: string, i: nat, ts: seq<Token>, ps: seq<string>)
    requires Fits(s, i, ts, ps) && |ts| > 0 && EndsBefore(s, i, ts, ps)
    ensures EndsBefore(s, i + |ps[0]|, ts[1..], ps[1..])
  {
    FitsLength(s, i, ts, ps);
    if |ts| > 1 {
      assert ts[1..][|ts| - 2] == ts[|ts| - 1];
    }
  }

  /** For a deterministic pattern whose fit ends where its last token must
      stop, that fit is the one the greedy matcher finds: there is no other. */
  lemma {:induction false} MatchComplete(s: string, i: nat, ts: seq<Token>, ps: seq<string>)
    requires i <= |s| && Deterministic(ts) && Fits(s, i, ts, ps) && EndsBefore(s, i, ts, ps)
    ensures Match(s, i, ts) == Some(ps)
    decreases |ts|
  {
    if |ts| > 0 {
      FirstPieceEnds(s, i, ts, ps);
      TakeExact(s, i, ts[0], ps[0]);
      DeterministicTail(ts);
      EndsBeforeTail(s, i, ts, ps);
      MatchComplete(s, i + |ps[0]|, ts[1..], ps[1..]);
      MatchStep(s, i, ts, ps);
    }
  }

  /** In a deterministic fit that ends where its last token must stop, the
      first piece is followed by a character its token cannot take. */
  lemma FirstPieceEnds(s: string, i: nat, ts: seq<Token>, ps: seq<string>)
    requires Deterministic(ts) && Fits(s, i, ts, ps) && EndsBefore(s, i, ts, ps) && |ts| > 0
    ensures PieceOk(ts[0], ps[0]) && At(s, i, ps[0])
    ensures Variable(ts[0]) ==> i + |ps[0]| == |s| || (i + |ps[0]| < |s| && !In(s[i + |ps[0]|], ts[0].k))
  {
    if |ts| > 1 && Variable(ts[0]) {
      NextOutside(s, i, ts, ps);
    } else if Variable(ts[0]) {
      FitsLength(s, i, ts, ps);
    }
  }

  lemma MatchStep(s: string, i: nat, ts: seq<Token>, ps: seq<string>)
    requires i <= |s| && |ts| > 0 && |ps| == |ts| && At(s, i, ps[0])
    requires Take(s, i, ts[0]) == Some(|ps[0]|) && Match(s, i + |ps[0]|, ts[1..]) == Some(ps[1..])
    ensures Match(s, i, ts) == Some(ps)
  {
    assert [ps[0]] + ps[1..] == ps;
  }

  /** A match of `head` followed by one of two tails: the pieces of each
      part, and whether the first tail was the one used. */
  datatype Found = Found(head: seq<string>, first: bool, tail: seq<string>)

  predicate FitsThen(s: string, i: nat, head: seq<Token>, tail1: seq<Token>, tail2: seq<Token>, f: Found) {
    && Fits(s, i, head, f.head)
    && Fits(s, i + Len(f.head), if f.first then tail1 else tail2, f.tail)
  }

  /** `head` greedily, then `tail1`, and only if that fails `tail2`, as a
      backtracking engine tries the alternatives of `(?:…)?` in order. */
  function MatchThen(s: string, i: nat, head: seq<Token>, tail1: seq<Token>, tail2: seq<Token>): (r: Option<Found>)
    requires i <= |s|
  {
    match Match(s, i, head)
    case None => None
    case Some(ps) =>
      var e := i + Len(ps);
      match Match(s, e, tail1)
      case Some(qs) => Some(Found(ps, true, qs))
      case None =>
        match Match(s, e, tail2)
        case Some(qs) => Some(Found(ps, false, qs))
        case None => None
  }

  /** What `MatchThen` found, in terms of the matcher's runs. */
  lemma MatchThenParts(s: string, i: nat, head: seq<Token>, tail1: seq<Token>, tail2: seq<Token>, f: Found)
    requires i <= |s| && MatchThen(s, i, head, tail1, tail2) == Some(f)
    ensures Match(s, i, head) == Some(f.head) && i + Len(f.head) <= |s|
    ensures Match(s, i + Len(f.head), if f.first then tail1 else tail2) == Some(f.tail)
  {
    var ps := Match(s, i, head).value;
    assert ps == f.head;
  }

  /** What `MatchThen` finds fits. */
  lemma MatchThenSound(s: string, i: nat, head: seq<Token>, tail1: seq<Token>, tail2: seq<Token>, f: Found)
    requires i <= |s| && MatchThen(s, i, head, tail1, tail2) == Some(f)
    ensures FitsThen(s, i, head, tail1, tail2, f)
  {
    MatchThenParts(s, i, head, tail1, tail2, f);
    MatchSound(s, i, head, f.head);
    MatchSound(s, i + Len(f.head), if f.first then tail1 else tail2, f.tail);
  }

  /** Each tail starts with a single character that the other tail's first
      token and the head's last token refuse, and ends with a single
      character. */
  predicate Separated(head: seq<Token>, tail1: seq<Token>, tail2: seq<Token>) {
    && |tail1| > 0 && |tail2| > 0
    && tail1[0].One? && tail2[0].One? && Disjoint(tail2[0].k, tail1[0].k)
    && tail1[|tail1| - 1].One? && tail2[|tail2| - 1].One?
    && (|head| > 0 ==> Disjoint(tail1[0].k, head[|head| - 1].k) && Disjoint(tail2[0].k, head[|head| - 1].k))
  }

  /** The first character of a fit whose first token is `One`. */
  lemma FirstChar(s: string, i: nat, ts: seq<Token>, ps: seq<string>)
    requires Fits(s, i, ts, ps) && |ts| > 0 && ts[0].One?
    ensures i < |s| && In(s[i], ts[0].k)
  {
    assert s[i..i + 1][0] == s[i];
  }

  /** Under those conditions a position has at most one match, and it is
      the one `MatchThen` finds. */
  lemma MatchThenComplete(s: string, i: nat, head: seq<Token>, tail1: seq<Token>, tail2: seq<Token>, f: Found)
    requires Deterministic(head) && Deterministic(tail1) && Deterministic(tail2) && Separated(head, tail1, tail2)
    requires FitsThen(s, i, head, tail1, tail2, f)
    ensures i <= |s| && MatchThen(s, i, head, tail1, tail2) == Some(f)
  {
    var e := i + Len(f.head);
    var t := if f.first then tail1 else tail2;
    FirstChar(s, e, t, f.tail);
    MatchComplete(s, i, head, f.head);
    MatchComplete(s, e, t, f.tail);
    if !f.first {
      FirstRefused(s, e, tail1);
    }
    MatchThenOf(s, i, head, tail1, tail2, f);
  }

  /** A pattern whose first token is `One` fails where that character is
      not in its class. */
  lemma FirstRefused(s: string, i: nat, ts: seq<Token>)
    requires i < |s| && |ts| > 0 && ts[0].One? && !In(s[i], ts[0].k)
    ensures Match(s, i, ts) == None
  {
  }

  /** The converse of `MatchThenParts`. */
  lemma MatchThenOf(s: string, i: nat, head: seq<Token>, tail1: seq<Token>, tail2: seq<Token>, f: Found)
    requires i <= |s| && Match(s, i, head) == Some(f.head) && i + Len(f.head) <= |s|
    requires f.first ==> Match(s, i + Len(f.head), tail1) == Some(f.tail)
    requires !f.first ==> Match(s, i + Len(f.head), tail1) == None && Match(s, i + Len(f.head), tail2) == Some(f.tail)
    ensures MatchThen(s, i, head, tail1, tail2) == Some(f)
  {
  }

  /** The leftmost position at or after `i` where `head` and one of the
      tails match, and that match. */
  function FirstMatchThen(s: string, i: nat, head: seq<Token>, tail1: seq<Token>, tail2: seq<Token>): (r: Option<(nat, Found)>)
    requires i <= |s|
    requires Deterministic(head) && Deterministic(tail1) && Deterministic(tail2) && Separated(head, tail1, tail2)
    ensures r.Some? ==> i <= r.value.0 <= |s| && FitsThen(s, r.value.0, head, tail1, tail2, r.value.1)
    ensures r.Some? ==> forall j, f :: i <= j < r.value.0 ==> !FitsThen(s, j, head, tail1, tail2, f)
    ensures r.None? ==> forall j, f :: i <= j ==> !FitsThen(s, j, head, tail1, tail2, f)
    decreases |s| - i
  {
    match MatchThen(s, i, head, tail1, tail2)
    case Some(f) =>
      MatchThenSound(s, i, head, tail1, tail2, f);
      Some((i, f))
    case None =>
      assert forall f :: !FitsThen(s, i, head, tail1, tail2, f) by {
        forall f | FitsThen(s, i, head, tail1, tail2, f) ensures false {
          MatchThenComplete(s, i, head, tail1, tail2, f);
        }
      }
      if i == |s| then
        assert forall j, f :: i <= j ==> !FitsThen(s, j, head, tail1, tail2, f) by {
          forall j, f | i < j && FitsThen(s, j, head, tail1, tail2, f) ensures false {
            MatchThenComplete(s, j, head, tail1, tail2, f);
          }
        }
        None
      else FirstMatchThen(s, i + 1, head, tail1, tail2)
  }
}
