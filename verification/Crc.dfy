/**
 * CRC-16/XMODEM, which assigns keys to slots, and CRC-32C: the table-driven
 * forms against the definition one bit at a time.
 *
 * A register is the sequence of its bits in the order in which they leave it,
 * so that both algorithms shift towards index 0: the most significant bit
 * comes first for CRC-16 and the least significant one for CRC-32C.
 */
module Crc {
  import opened Bytes
  import ListSpec

  type Word = seq<bool>

  function Zeros(n: nat): (r: Word)
    ensures |r| == n
  {
    seq(n, _ => false)
  }

  function Ones(n: nat): (r: Word)
    ensures |r| == n
  {
    seq(n, _ => true)
  }

  function Xor(a: Word, b: Word): (r: Word)
    requires |a| == |b|
    ensures |r| == |a|
  {
    seq(|a|, i requires 0 <= i < |a| => a[i] != b[i])
  }

  /** One bit leaves; if it was set, the polynomial is folded in. */
  function Bit(r: Word, poly: Word): (s: Word)
    requires |r| == |poly| > 0
    ensures |s| == |r|
  {
    var moved := r[1..] + [false];
    if r[0] then Xor(moved, poly) else moved
  }

  function Bits(r: Word, poly: Word, n: nat): (s: Word)
    requires |r| == |poly| > 0
    ensures |s| == |r|
    decreases n
  {
    if n == 0 then r else Bits(Bit(r, poly), poly, n - 1)
  }

  /** One octet, already as bits in leaving order, is folded in bit by bit. */
  function Fold(r: Word, poly: Word, o: Word): (s: Word)
    requires |r| == |poly| >= 8 && |o| == 8
    ensures |s| == |r|
  {
    Bits(Xor(r, o + Zeros(|r| - 8)), poly, 8)
  }

  // Octets as bits.

  /** The `k` low bits of `n`, least significant first. */
  function Pattern(n: nat, k: nat): (r: Word)
    ensures |r| == k
  {
    if k == 0 then [] else [n % 2 == 1] + Pattern(n / 2, k - 1)
  }

  function Number(bits: Word): nat {
    if bits == [] then 0 else (if bits[0] then 1 else 0) + 2 * Number(bits[1..])
  }

  lemma {:induction false} PatternOfNumber(bits: Word)
    ensures Pattern(Number(bits), |bits|) == bits
    decreases |bits|
  {
    if bits != [] {
      PatternOfNumber(bits[1..]);
      var n := Number(bits);
      assert n / 2 == Number(bits[1..]) && (n % 2 == 1 <==> bits[0]);
    }
  }

  function Power2(k: nat): (p: nat)
    ensures p > 0
  {
    if k == 0 then 1 else 2 * Power2(k - 1)
  }

  lemma {:induction false} NumberBound(bits: Word)
    ensures Number(bits) < Power2(|bits|)
    decreases |bits|
  {
    if bits != [] {
      NumberBound(bits[1..]);
    }
  }

  /** An octet's bits in leaving order. */
  function Ordered(b: byte, lsbFirst: bool): (r: Word)
    ensures |r| == 8
  {
    if lsbFirst then Pattern(b, 8) else ListSpec.Reversed(Pattern(b, 8))
  }

  /** The octet with these bits: the table index. */
  function OctetOf(bits: Word, lsbFirst: bool): (b: byte)
    requires |bits| == 8
    ensures Ordered(b, lsbFirst) == bits
  {
    var low := if lsbFirst then bits else ListSpec.Reversed(bits);
    NumberBound(low);
    PatternOfNumber(low);
    assert Power2(8) == 256;
    Number(low)
  }

  // The definition.

  datatype Algorithm = Algorithm(poly: Word, first: Word, last: Word, lsbFirst: bool) {
    predicate Fits() { |poly| == |first| == |last| >= 8 }
  }

  /** Octets in order, each bit by bit. */
  function Register(a: Algorithm, s: Bytes): (r: Word)
    requires a.Fits()
    ensures |r| == |a.poly|
  {
    if s == [] then a.first
    else Fold(Register(a, s[..|s| - 1]), a.poly, Ordered(s[|s| - 1], a.lsbFirst))
  }

  function Sum(a: Algorithm, s: Bytes): Word
    requires a.Fits()
  {
    Xor(Register(a, s), a.last)
  }

  /** CRC-16: polynomial 0x1021, most significant bit first, register zero, nothing at the end. */
  function Xmodem(): (a: Algorithm)
    ensures a.Fits()
  {
    Algorithm(ListSpec.Reversed(Pattern(0x1021, 16)), Zeros(16), Zeros(16), false)
  }

  /** CRC-32C: reflected polynomial 0x82F63B78, least significant bit first, register all ones, complemented. */
  function Castagnoli(): (a: Algorithm)
    ensures a.Fits()
  {
    Algorithm(Pattern(0x82F6_3B78, 32), Ones(32), Ones(32), true)
  }

  // The table.

  function Entry(a: Algorithm, b: byte): Word
    requires a.Fits()
  {
    Bits(Ordered(b, a.lsbFirst) + Zeros(|a.poly| - 8), a.poly, 8)
  }

  /** The 256 precomputed entries. */
  ghost predicate Tabulates(a: Algorithm, table: seq<Word>)
    requires a.Fits()
  {
    |table| == 256 && forall i :: 0 <= i < 256 ==> table[i] == Entry(a, i)
  }

  method BuildTable(a: Algorithm) returns (table: array<Word>)
    requires a.Fits()
    ensures fresh(table) && Tabulates(a, table[..])
  {
    hide Bit, Ordered, Zeros;
    table := new Word[256];
    var i := 0;
    while i < 256
      invariant 0 <= i <= 256
      invariant forall j :: 0 <= j < i ==> table[j] == Entry(a, j)
    {
      var first := Ordered(i, a.lsbFirst) + Zeros(|a.poly| - 8);
      var crc, bit := first, 0;
      while bit < 8
        invariant 0 <= bit <= 8 && |crc| == |a.poly|
        invariant Bits(first, a.poly, 8) == Bits(crc, a.poly, 8 - bit)
      {
        crc := Bit(crc, a.poly);
        bit := bit + 1;
      }
      table[i] := crc;
      i := i + 1;
    }
  }

  // Linearity.

  lemma BitLinear(x: Word, y: Word, poly: Word)
    requires |x| == |y| == |poly| > 0
    ensures Bit(Xor(x, y), poly) == Xor(Bit(x, poly), Bit(y, poly))
  {
    assert Bit(Xor(x, y), poly) == Xor(Bit(x, poly), Bit(y, poly));
  }

  lemma {:induction false} BitsLinear(x: Word, y: Word, poly: Word, n: nat)
    requires |x| == |y| == |poly| > 0
    ensures Bits(Xor(x, y), poly, n) == Xor(Bits(x, poly, n), Bits(y, poly, n))
    decreases n
  {
    hide Bit, Xor;
    if n > 0 {
      BitLinear(x, y, poly);
      BitsLinear(Bit(x, poly), Bit(y, poly), poly, n - 1);
    }
  }

  /** A register that starts with `k` clear bits only moves for `k` steps. */
  lemma {:induction false} ClearBitsMove(k: nat, t: Word, poly: Word)
    requires k + |t| == |poly| > 0
    ensures Bits(Zeros(k) + t, poly, k) == t + Zeros(k)
    decreases k
  {
    if k == 0 {
      assert Zeros(0) + t == t && t + Zeros(0) == t;
    } else {
      var r := Zeros(k) + t;
      assert r[1..] + [false] == Zeros(k - 1) + (t + [false]);
      ClearBitsMove(k - 1, t + [false], poly);
      assert (t + [false]) + Zeros(k - 1) == t + Zeros(k);
    }
  }

  lemma SplitRegister(r: Word, o: Word)
    requires |r| >= 8 && |o| == 8
    ensures Xor(r, o + Zeros(|r| - 8)) == Xor(Xor(r[..8], o) + Zeros(|r| - 8), Zeros(8) + r[8..])
  {
  }

  /** One table lookup is eight bit steps. */
  lemma TableStep(a: Algorithm, r: Word, b: byte)
    requires a.Fits() && |r| == |a.poly|
    ensures var at := OctetOf(Xor(r[..8], Ordered(b, a.lsbFirst)), a.lsbFirst);
            |Entry(a, at)| == |r| && Xor(r[8..] + Zeros(8), Entry(a, at)) == Fold(r, a.poly, Ordered(b, a.lsbFirst))
  {
    hide Bits, Xor, Ordered, OctetOf;
    var o := Ordered(b, a.lsbFirst);
    var at := OctetOf(Xor(r[..8], o), a.lsbFirst);
    var head, tail := Xor(r[..8], o) + Zeros(|r| - 8), Zeros(8) + r[8..];
    SplitRegister(r, o);
    BitsLinear(head, tail, a.poly, 8);
    ClearBitsMove(8, r[8..], a.poly);
    XorCommutes(Entry(a, at), r[8..] + Zeros(8));
  }

  lemma XorCommutes(a: Word, b: Word)
    requires |a| == |b|
    ensures Xor(a, b) == Xor(b, a)
  {
  }

  /** The table-driven checksum is the bit-at-a-time one, on every byte string. */
  method TableSum(a: Algorithm, table: array<Word>, data: Bytes) returns (crc: Word)
    requires a.Fits() && Tabulates(a, table[..])
    ensures crc == Sum(a, data)
  {
    hide Bits, Xor, Ordered, OctetOf, Entry, Fold, Zeros, Register;
    crc := a.first;
    RegisterPush(a, data, 0);
    for i := 0 to |data|
      invariant |crc| == |a.poly| && crc == Register(a, data[..i])
    {
      TableStep(a, crc, data[i]);
      RegisterPush(a, data, i);
      var at := OctetOf(Xor(crc[..8], Ordered(data[i], a.lsbFirst)), a.lsbFirst);
      assert table[..][at] == table[at];
      crc := Xor(crc[8..] + Zeros(8), table[at]);
    }
    assert data[..|data|] == data;
    crc := Xor(crc, a.last);
  }

  lemma RegisterPush(a: Algorithm, data: Bytes, i: nat)
    requires a.Fits() && i <= |data|
    ensures Register(a, data[..0]) == a.first
    ensures i < |data| ==> Register(a, data[..i + 1]) == Fold(Register(a, data[..i]), a.poly, Ordered(data[i], a.lsbFirst))
  {
    hide Fold, Ordered;
    if i < |data| {
      assert data[..i + 1][..i] == data[..i];
    }
  }

  /** Exclusive or of two octets. */
  function XorByte(a: byte, b: byte): byte {
    OctetOf(Xor(Pattern(a, 8), Pattern(b, 8)), true)
  }

  lemma XorByteBits(a: byte, b: byte, lsbFirst: bool)
    ensures Ordered(XorByte(a, b), lsbFirst) == Xor(Ordered(a, lsbFirst), Ordered(b, lsbFirst))
  {
    hide Pattern, OctetOf, Xor;
    var p, q := Pattern(a, 8), Pattern(b, 8);
    assert Pattern(XorByte(a, b), 8) == Ordered(XorByte(a, b), true) == Xor(p, q);
    XorReversed(p, q);
  }

  lemma XorReversed(p: Word, q: Word)
    requires |p| == |q|
    ensures ListSpec.Reversed(Xor(p, q)) == Xor(ListSpec.Reversed(p), ListSpec.Reversed(q))
  {
  }

  lemma FoldLinear(x: Word, y: Word, poly: Word, o: Word, p: Word)
    requires |x| == |y| == |poly| >= 8 && |o| == |p| == 8
    ensures Fold(Xor(x, y), poly, Xor(o, p)) == Xor(Fold(x, poly, o), Fold(y, poly, p))
  {
    hide Bits;
    var n := |x| - 8;
    assert Xor(Xor(x, y), Xor(o, p) + Zeros(n)) == Xor(Xor(x, o + Zeros(n)), Xor(y, p + Zeros(n)));
    BitsLinear(Xor(x, o + Zeros(n)), Xor(y, p + Zeros(n)), poly, 8);
  }

  function XorBytes(s: Bytes, t: Bytes): Bytes
    requires |s| == |t|
  {
    seq(|s|, i requires 0 <= i < |s| => XorByte(s[i], t[i]))
  }

  /** With a zero register and no final mask the checksum is linear under exclusive or, on strings of equal length. */
  lemma {:induction false} SumLinear(a: Algorithm, s: Bytes, t: Bytes)
    requires a.Fits() && |s| == |t|
    requires a.first == Zeros(|a.poly|)
    ensures Register(a, XorBytes(s, t)) == Xor(Register(a, s), Register(a, t))
    decreases |s|
  {
    hide Fold, Ordered, XorByte;
    if s == [] {
      assert XorBytes(s, t) == [];
      assert Xor(a.first, a.first) == a.first;
    } else {
      var last := |s| - 1;
      SumLinear(a, s[..last], t[..last]);
      assert XorBytes(s, t)[..last] == XorBytes(s[..last], t[..last]);
      XorByteBits(s[last], t[last], a.lsbFirst);
      FoldLinear(Register(a, s[..last]), Register(a, t[..last]), a.poly,
                 Ordered(s[last], a.lsbFirst), Ordered(t[last], a.lsbFirst));
    }
  }

  /** CRC-16 of an exclusive or is the exclusive or of the CRC-16s. */
  lemma Crc16Linear(s: Bytes, t: Bytes)
    requires |s| == |t|
    ensures |Sum(Xmodem(), s)| == |Sum(Xmodem(), t)|
    ensures Sum(Xmodem(), XorBytes(s, t)) == Xor(Sum(Xmodem(), s), Sum(Xmodem(), t))
  {
    hide Register, XorBytes, Pattern, Zeros;
    var a := Xmodem();
    SumLinear(a, s, t);
    MaskNothing(Register(a, s));
    MaskNothing(Register(a, t));
    MaskNothing(Register(a, XorBytes(s, t)));
  }

  lemma MaskNothing(r: Word)
    ensures Xor(r, Zeros(|r|)) == r
  {
  }
}
