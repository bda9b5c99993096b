/** Valid UTF-8 is exactly the text that encodes a sequence of Unicode scalar values (section 3 of RFC 3629). */
module Utf8Laws {
  import opened Bytes
  import opened Utf8

  /** A code point that is no surrogate. */
  predicate Scalar(c: int) {
    0 <= c < 0xD800 || 0xE000 <= c < 0x11_0000
  }

  function Encoded(c: int): Bytes
    requires Scalar(c)
  {
    if c < 0x80 then [c]
    else if c < 0x800 then [0xC0 + c / 0x40, 0x80 + c % 0x40]
    else if c < 0x1_0000 then [0xE0 + c / 0x1000, 0x80 + c / 0x40 % 0x40, 0x80 + c % 0x40]
    else [0xF0 + c / 0x4_0000, 0x80 + c / 0x1000 % 0x40, 0x80 + c / 0x40 % 0x40, 0x80 + c % 0x40]
  }

  ghost predicate AllScalars(cs: seq<int>) {
    forall c <- cs :: Scalar(c)
  }

  function EncodedAll(cs: seq<int>): Bytes
    requires forall c <- cs :: Scalar(c)
  {
    if cs == [] then [] else Encoded(cs[0]) + EncodedAll(cs[1..])
  }

  /** An encoded scalar is one whole character, whatever follows. */
  lemma EncodedIsWhole(c: int, rest: Bytes)
    requires Scalar(c)
    ensures var s := Encoded(c) + rest; Whole(s) && Reach(s) == |Encoded(c)|
  {
    hide Whole, Reach;
    var s := Encoded(c) + rest;
    if c < 0x800 {
      assert Whole(s) && Reach(s) == |Encoded(c)| by { ShortIsWhole(c, rest); }
    } else if c < 0x1_0000 {
      ThreeIsWhole(c, s);
    } else {
      FourIsWhole(c, s);
    }
  }

  lemma ShortIsWhole(c: int, rest: Bytes)
    requires 0 <= c < 0x800
    ensures var s := Encoded(c) + rest; Whole(s) && Reach(s) == |Encoded(c)|
  {
  }

  lemma ThreeIsWhole(c: int, s: Bytes)
    requires Scalar(c) && 0x800 <= c < 0x1_0000 && |s| >= 3
    requires s[0] == 0xE0 + c / 0x1000 && s[1] == 0x80 + c / 0x40 % 0x40 && s[2] == 0x80 + c % 0x40
    ensures Whole(s) && Reach(s) == 3
  {
    assert c / 0x1000 == 0 ==> c / 0x40 % 0x40 >= 0x20;
    assert c / 0x1000 == 0xD ==> c / 0x40 % 0x40 < 0x20;
  }

  lemma FourIsWhole(c: int, s: Bytes)
    requires Scalar(c) && 0x1_0000 <= c && |s| >= 4
    requires s[0] == 0xF0 + c / 0x4_0000 && s[1] == 0x80 + c / 0x1000 % 0x40
    requires s[2] == 0x80 + c / 0x40 % 0x40 && s[3] == 0x80 + c % 0x40
    ensures Whole(s) && Reach(s) == 4
  {
    assert c / 0x4_0000 == 0 ==> c / 0x1000 % 0x40 >= 0x10;
    assert c / 0x4_0000 == 4 ==> c / 0x1000 % 0x40 < 0x10;
  }

  /** Six-bit digits of a number. */
  lemma Digits(high: int, third: int, second: int, first: int)
    requires 0 <= high && 0 <= first < 0x40 && 0 <= second < 0x40 && 0 <= third < 0x40
    ensures var c := ((high * 0x40 + third) * 0x40 + second) * 0x40 + first;
            c % 0x40 == first && c / 0x40 % 0x40 == second && c / 0x1000 % 0x40 == third && c / 0x4_0000 == high
  {
  }

  lemma TwoBytes(s: Bytes) returns (c: int)
    requires s != [] && Whole(s) && Reach(s) == 2
    ensures Scalar(c) && Encoded(c) == s[..2]
  {
    var a: int, x: int := s[0] - 0xC0, s[1] - 0x80;
    c := a * 0x40 + x;
    Digits(0, 0, a, x);
    assert c / 0x40 == a;
  }

  lemma ThreeBytes(s: Bytes) returns (c: int)
    requires s != [] && Whole(s) && Reach(s) == 3
    ensures Scalar(c) && Encoded(c) == s[..3]
  {
    var a: int, x: int, y: int := s[0] - 0xE0, s[1] - 0x80, s[2] - 0x80;
    c := (a * 0x40 + x) * 0x40 + y;
    Digits(0, a, x, y);
    assert c / 0x1000 == a;
    assert 0x800 <= c < 0x1_0000;
  }

  lemma FourBytes(s: Bytes) returns (c: int)
    requires s != [] && Whole(s) && Reach(s) == 4
    ensures Scalar(c) && Encoded(c) == s[..4]
  {
    var a: int, x: int, y: int, z: int := s[0] - 0xF0, s[1] - 0x80, s[2] - 0x80, s[3] - 0x80;
    c := ((a * 0x40 + x) * 0x40 + y) * 0x40 + z;
    Digits(a, x, y, z);
    assert 0x1_0000 <= c < 0x11_0000;
  }

  /** A whole character encodes a scalar. */
  lemma WholeIsEncoded(s: Bytes) returns (c: int)
    requires s != [] && Whole(s)
    ensures Scalar(c) && Encoded(c) == s[..Reach(s)]
  {
    var n := Reach(s);
    if n == 1 {
      c := s[0];
    } else {
      hide Encoded, Scalar;
      if n == 2 {
        c := TwoBytes(s);
      } else if n == 3 {
        c := ThreeBytes(s);
      } else {
        c := FourBytes(s);
      }
    }
  }

  lemma {:induction false} EncodedIsValid(cs: seq<int>)
    requires AllScalars(cs)
    ensures Valid(EncodedAll(cs))
    decreases |cs|
  {
    hide Whole, Encoded;
    if cs != [] {
      EncodedIsValid(cs[1..]);
      EncodedIsWhole(cs[0], EncodedAll(cs[1..]));
      var s := EncodedAll(cs);
      assert s[|Encoded(cs[0])|..] == EncodedAll(cs[1..]);
    }
  }

  lemma {:induction false} ValidIsEncoded(s: Bytes) returns (cs: seq<int>)
    requires Valid(s)
    ensures AllScalars(cs) && EncodedAll(cs) == s
    decreases |s|
  {
    hide Encoded;
    if s == [] {
      cs := [];
    } else {
      var c := WholeIsEncoded(s);
      var rest := ValidIsEncoded(s[Reach(s)..]);
      cs := [c] + rest;
      assert cs[1..] == rest;
    }
  }

  lemma ValidIff(s: Bytes)
    ensures Valid(s) <==> exists cs :: AllScalars(cs) && EncodedAll(cs) == s
  {
    hide Valid, EncodedAll;
    if Valid(s) {
      var cs := ValidIsEncoded(s);
    }
    if cs :| AllScalars(cs) && EncodedAll(cs) == s {
      EncodedIsValid(cs);
    }
  }

  /** Lossy decoding always yields valid text. */
  lemma {:induction false} LossyIsValid(s: Bytes)
    ensures Valid(Lossy(s))
    decreases |s|
  {
    hide Encoded;
    if s != [] {
      var n := Reach(s);
      LossyIsValid(s[n..]);
      var c: int := 0xFFFD;
      if Whole(s) {
        c := WholeIsEncoded(s);
      } else {
        assert Encoded(0xFFFD) == REPLACEMENT by { ReplacementIsEncoded(); }
      }
      EncodedIsWhole(c, Lossy(s[n..]));
      assert Lossy(s)[|Encoded(c)|..] == Lossy(s[n..]);
    }
  }

  lemma ReplacementIsEncoded()
    ensures Encoded(0xFFFD) == REPLACEMENT
  {
  }

  /** A truncated character is replaced once, each stray byte once. */
  lemma LossyExample()
    ensures Lossy([0xE2, 0x82, 65]) == [0xEF, 0xBF, 0xBD, 65]
    ensures Lossy([0xFF, 0x80]) == [0xEF, 0xBF, 0xBD, 0xEF, 0xBF, 0xBD]
  {
    var cut: Bytes, stray: Bytes := [0xE2, 0x82, 65], [0xFF, 0x80];
    assert Lossy([]) == [];
    assert cut[2..] == [65] && Lossy([65]) == [65];
    assert stray[1..] == [0x80] && Lossy([0x80]) == REPLACEMENT;
  }
}
