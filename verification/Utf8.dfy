/** UTF-8 validity (section 4 of RFC 3629) and decoding with replacement characters. */
module Utf8 {
  import opened Bytes

  predicate Continues(b: byte) {
    0x80 <= b <= 0xBF
  }

  /** The second bytes allowed after a given first byte. */
  predicate Second(first: byte, b: byte) {
    if first == 0xE0 then 0xA0 <= b <= 0xBF
    else if first == 0xED then 0x80 <= b <= 0x9F
    else if first == 0xF0 then 0x90 <= b <= 0xBF
    else if first == 0xF4 then 0x80 <= b <= 0x8F
    else Continues(b)
  }

  /** Length of the sequence a first byte announces; 0 for a byte that starts none. */
  function Announced(first: byte): nat {
    if first < 0x80 then 1
    else if 0xC2 <= first <= 0xDF then 2
    else if 0xE0 <= first <= 0xEF then 3
    else if 0xF0 <= first <= 0xF4 then 4
    else 0
  }

  /** How many bytes at the front belong together: a whole character, or as much of one as is there. */
  function Reach(s: Bytes): (r: nat)
    requires s != []
    ensures 1 <= r <= |s|
  {
    var n := Announced(s[0]);
    if n <= 1 || |s| == 1 || !Second(s[0], s[1]) then 1
    else if n == 2 || |s| == 2 || !Continues(s[2]) then 2
    else if n == 3 || |s| == 3 || !Continues(s[3]) then 3
    else 4
  }

  /** A whole valid character stands at the front. */
  predicate Whole(s: Bytes)
    requires s != []
  {
    Reach(s) == Announced(s[0])
  }

  predicate Valid(s: Bytes)
    decreases |s|
  {
    s == [] || (Whole(s) && Valid(s[Reach(s)..]))
  }

  const REPLACEMENT: Bytes := [0xEF, 0xBF, 0xBD]

  /** Every maximal invalid piece becomes one replacement character. */
  function Lossy(s: Bytes): Bytes
    decreases |s|
  {
    if s == [] then []
    else (if Whole(s) then s[..Reach(s)] else REPLACEMENT) + Lossy(s[Reach(s)..])
  }

  /** The pieces beyond the first byte, and any invalid piece, hold no ASCII byte. */
  lemma PieceIsHigh(s: Bytes, i: nat)
    requires s != [] && i < Reach(s)
    ensures i > 0 || !Whole(s) || Reach(s) > 1 ==> s[i] >= 0x80
  {
  }

  /** A piece depends only on its own bytes and the next. */
  lemma ReachOfPart(s: Bytes, n: nat)
    requires 0 < n <= |s| && Whole(s) && Reach(s) <= n
    ensures Reach(s[..n]) == Reach(s) && Whole(s[..n])
  {
  }

  /** Lossy decoding is the identity exactly on valid text. */
  lemma {:induction false} LossyIffValid(s: Bytes)
    ensures Valid(s) ==> Lossy(s) == s
    ensures !Valid(s) ==> Lossy(s) != s
    decreases |s|
  {
    if s != [] {
      var n := Reach(s);
      LossyIffValid(s[n..]);
      assert s == s[..n] + s[n..];
      if Whole(s) {
        assert Lossy(s)[n..] == Lossy(s[n..]);
      } else {
        NotReplacement(s);
        assert Lossy(s)[0] == 0xEF && Lossy(s)[1] == 0xBF && Lossy(s)[2] == 0xBD;
      }
    }
  }

  lemma NotReplacement(s: Bytes)
    requires s != [] && !Whole(s)
    ensures !(|s| >= 3 && s[0] == 0xEF && s[1] == 0xBF && s[2] == 0xBD)
  {
  }

  /** Lossy decoding neither adds nor drops an ASCII byte. */
  lemma {:induction false} LossyKeepsAscii(s: Bytes, c: byte)
    requires c < 0x80
    ensures c in Lossy(s) <==> c in s
    decreases |s|
  {
    if s != [] {
      var n := Reach(s);
      LossyKeepsAscii(s[n..], c);
      assert s == s[..n] + s[n..];
      if !Whole(s) {
        forall i | 0 <= i < n ensures s[i] != c {
          PieceIsHigh(s, i);
        }
        assert c !in s[..n];
      }
    }
  }

  lemma {:induction false} LossyEmpty(s: Bytes)
    ensures Lossy(s) == [] <==> s == []
  {
    if s != [] {
      assert |Lossy(s)| > 0;
    }
  }

  /** Text cut at an ASCII byte is valid exactly when both sides are. */
  lemma {:induction false} ValidCut(a: Bytes, c: byte, b: Bytes)
    requires c < 0x80 && Valid(a + [c] + b)
    ensures Valid(a) && Valid(b)
    decreases |a|
  {
    var s := a + [c] + b;
    if a == [] {
      assert s[1..] == b;
    } else {
      var n := Reach(s);
      if n > |a| {
        PieceIsHigh(s, |a|);
      }
      assert s[..|a|] == a;
      ReachOfPart(s, |a|);
      assert s[n..] == a[n..] + [c] + b;
      ValidCut(a[n..], c, b);
    }
  }
}
