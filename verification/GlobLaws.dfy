/** What each piece of a glob's text means. */
module GlobLaws {
  import opened Bytes
  import opened Glob

  ghost predicate Accepts(pattern: Bytes, s: Bytes) {
    Matches(Tokens(pattern), s)
  }

  /** A piece that stands for one byte: what follows it must match the rest. */
  lemma OneByte(piece: Bytes, rest: Bytes, s: Bytes, t: Token)
    requires piece != [] && FirstToken(piece + rest) == (t, |piece|) && !t.Star?
    ensures Accepts(piece + rest, s) <==> s != [] && Hits(t, s[0]) && Accepts(rest, s[1..])
  {
    hide FirstToken, Hits;
    assert (piece + rest)[|piece|..] == rest;
    assert ([t] + Tokens(rest))[1..] == Tokens(rest);
  }

  /** An empty pattern matches the empty string only. */
  lemma EmptyMeaning(s: Bytes)
    ensures Accepts([], s) <==> s == []
  {
  }

  /** `*` matches any stretch, the empty one included. */
  lemma StarMeaning(rest: Bytes, s: Bytes)
    ensures Accepts([42] + rest, s) <==> exists k :: 0 <= k <= |s| && Accepts(rest, s[k..])
  {
    hide Matches;
    var q := [42] + rest;
    assert q[1..] == rest && Tokens(q) == [Star] + Tokens(rest);
    assert s[0..] == s;
    StarIsSomeSuffix(Tokens(rest), s, 0);
    if Accepts(q, s) {
      var k :| 0 <= k <= |s| && Matches(Tokens(rest), s[k..]);
      assert Accepts(rest, s[k..]);
    }
    if k :| 0 <= k <= |s| && Accepts(rest, s[k..]) {
      assert Matches(Tokens(rest), s[k..]);
    }
  }

  /** `?` matches any one byte. */
  lemma QuestionMeaning(rest: Bytes, s: Bytes)
    ensures Accepts([63] + rest, s) <==> s != [] && Accepts(rest, s[1..])
  {
    OneByte([63], rest, s, Any);
  }

  /** A backslash takes the next byte literally, and matches nothing at the end of the pattern. */
  lemma EscapeMeaning(c: byte, rest: Bytes, s: Bytes)
    ensures Accepts([92, c] + rest, s) <==> s != [] && s[0] == c && Accepts(rest, s[1..])
    ensures !Accepts([92], s)
  {
    OneByte([92, c], rest, s, Literal(c));
    assert [92] + [] == [92];
    OneByte([92], [], s, Dead);
  }

  /** Any other byte, and an opening bracket that is never closed, matches itself. */
  lemma LiteralMeaning(c: byte, rest: Bytes, s: Bytes)
    requires c != 42 && c != 63 && c != 92 && (c == 91 ==> 93 !in rest)
    ensures Accepts([c] + rest, s) <==> s != [] && s[0] == c && Accepts(rest, s[1..])
  {
    assert ([c] + rest)[1..] == rest;
    OneByte([c], rest, s, Literal(c));
  }

  /** A bracketed class matches one byte it names, or, after a caret, one it does not. */
  lemma ClassMeaning(body: Bytes, rest: Bytes, s: Bytes)
    requires 93 !in body && (body == [] || body[0] != 94)
    ensures Accepts([91] + body + [93] + rest, s) <==> s != [] && InBody(body, 0, s[0]) && Accepts(rest, s[1..])
    ensures Accepts([91, 94] + body + [93] + rest, s) <==> s != [] && !InBody(body, 0, s[0]) && Accepts(rest, s[1..])
  {
    ClassToken(body, rest);
    OneByte([91] + body + [93], rest, s, Class(body, false));
    CaretToken(body, rest);
    OneByte([91, 94] + body + [93], rest, s, Class(body, true));
  }

  lemma ClassToken(body: Bytes, rest: Bytes)
    requires 93 !in body && (body == [] || body[0] != 94)
    ensures FirstToken([91] + body + [93] + rest) == (Class(body, false), |body| + 2)
  {
    var q := [91] + body + [93] + rest;
    assert forall i :: 1 <= i < |body| + 1 ==> q[i] == body[i - 1];
    IndexIs(q, 93, 1, |body| + 1);
    assert q[1..|body| + 1] == body;
  }

  lemma CaretToken(body: Bytes, rest: Bytes)
    requires 93 !in body
    ensures FirstToken([91, 94] + body + [93] + rest) == (Class(body, true), |body| + 3)
  {
    var q := [91, 94] + body + [93] + rest;
    assert forall i :: 2 <= i < |body| + 2 ==> q[i] == body[i - 2];
    IndexIs(q, 93, 1, |body| + 2);
    assert q[1..|body| + 2] == [94] + body;
  }

  /** What a class names: single bytes and ranges, a range always naming its first byte. */
  datatype Name = Single(c: byte) | Range(lo: byte, hi: byte)

  function Spelled(names: seq<Name>): Bytes {
    if names == [] then []
    else (match names[0] case Single(c) => [c] case Range(lo, hi) => [lo, 45, hi]) + Spelled(names[1..])
  }

  predicate Names(n: Name, ch: byte) {
    match n
    case Single(c) => ch == c
    case Range(lo, hi) => ch == lo || lo <= ch <= hi
  }

  /** No piece starts with a dash, which would be read as a range with what stands before it. */
  predicate Clear(names: seq<Name>) {
    forall n <- names :: (n.Single? ==> n.c != 45) && (n.Range? ==> n.lo != 45)
  }

  lemma {:induction false} NamedFrom(front: Bytes, names: seq<Name>, ch: byte)
    requires Clear(names)
    ensures InBody(front + Spelled(names), |front|, ch) <==> exists n <- names :: Names(n, ch)
    decreases |names|
  {
    hide Names;
    if names != [] {
      var n, rest := names[0], names[1..];
      assert names == [n] + rest;
      var piece := Spelled([n]);
      var body := front + Spelled(names);
      PieceFirst(names);
      assert body == (front + piece) + Spelled(rest);
      NamedFrom(front + piece, rest, ch);
      PieceNames(front, n, Spelled(rest), ch);
    }
  }

  lemma PieceFirst(names: seq<Name>)
    requires names != []
    ensures Spelled(names) == Spelled([names[0]]) + Spelled(names[1..])
    ensures Spelled([names[0]]) == match names[0] case Single(c) => [c] case Range(lo, hi) => [lo, 45, hi]
  {
    assert [names[0]][1..] == [];
  }

  lemma PieceNames(front: Bytes, n: Name, rest: Bytes, ch: byte)
    requires Clear([n])
    ensures var piece := Spelled([n]);
            InBody(front + piece + rest, |front|, ch) <==>
            Names(n, ch) || InBody(front + piece + rest, |front| + |piece|, ch)
  {
    PieceFirst([n]);
    assert n in [n];
    var body := front + Spelled([n]) + rest;
    var i := |front|;
    if n.Single? {
      assert body[i] == n.c;
    } else {
      assert body[i] == n.lo && body[i + 1] == 45 && body[i + 2] == n.hi;
      assert InBody(body, i + 1, ch) <==> n.lo <= ch <= n.hi || InBody(body, i + 3, ch);
    }
  }

  /** A class spelled with such names matches exactly the bytes they name. */
  lemma NamedMeaning(names: seq<Name>, ch: byte)
    requires Clear(names)
    ensures InBody(Spelled(names), 0, ch) <==> exists n <- names :: Names(n, ch)
  {
    NamedFrom([], names, ch);
    assert [] + Spelled(names) == Spelled(names);
  }
}
