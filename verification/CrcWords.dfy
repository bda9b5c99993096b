/** The two checksums on machine words: shifts, exclusive or and the values published for "123456789". */
module CrcWords {
  import opened Bytes
  import opened Crc
  import ListSpec

  /** Exclusive or of two numbers, bit by bit. */
  function XorNum(a: nat, b: nat): nat {
    if a == 0 && b == 0 then 0
    else (if (a % 2 == 1) != (b % 2 == 1) then 1 else 0) + 2 * XorNum(a / 2, b / 2)
  }

  lemma {:induction false} PatternXor(a: nat, b: nat, k: nat)
    ensures Pattern(XorNum(a, b), k) == Xor(Pattern(a, k), Pattern(b, k))
    decreases k
  {
    hide Xor, Pattern;
    if k == 0 {
      NoPattern(a);
      NoPattern(b);
      NoPattern(XorNum(a, b));
      assert Xor([], []) == [] by { XorNone(); }
    } else {
      PatternXor(a / 2, b / 2, k - 1);
      FirstBit(a, k - 1);
      FirstBit(b, k - 1);
      FirstBit(XorNum(a, b), k - 1);
      XorParts(a, b);
      XorCons(a % 2 == 1, Pattern(a / 2, k - 1), b % 2 == 1, Pattern(b / 2, k - 1));
    }
  }

  lemma XorParts(a: nat, b: nat)
    ensures XorNum(a, b) / 2 == XorNum(a / 2, b / 2)
    ensures XorNum(a, b) % 2 == 1 <==> (a % 2 == 1) != (b % 2 == 1)
  {
    assert a == 0 && b == 0 ==> XorNum(a / 2, b / 2) == 0;
  }

  lemma XorNone()
    ensures Xor([], []) == []
  {
  }

  lemma XorCons(p: bool, u: Word, q: bool, v: Word)
    requires |u| == |v|
    ensures Xor([p] + u, [q] + v) == [p != q] + Xor(u, v)
  {
  }

  lemma FirstBit(n: nat, k: nat)
    ensures Pattern(n, k + 1) == [n % 2 == 1] + Pattern(n / 2, k)
  {
  }

  lemma NoPattern(n: nat)
    ensures Pattern(n, 0) == []
  {
  }

  lemma {:induction false} XorBound(a: nat, b: nat, k: nat)
    requires a < Power2(k) && b < Power2(k)
    ensures XorNum(a, b) < Power2(k)
    decreases k
  {
    if k > 0 {
      XorBound(a / 2, b / 2, k - 1);
    }
  }

  /** The last bit of a pattern one longer tells whether the number reaches that power. */
  lemma {:induction false} PatternPrefix(n: nat, k: nat)
    requires n < 2 * Power2(k)
    ensures Pattern(n, k + 1) == Pattern(n, k) + [n >= Power2(k)]
    decreases k
  {
    hide Pattern;
    FirstBit(n, k);
    if k == 0 {
      NoPattern(n);
      NoPattern(n / 2);
    } else {
      FirstBit(n, k - 1);
      PatternPrefix(n / 2, k - 1);
    }
  }

  /** Bits beyond the pattern do not matter. */
  lemma {:induction false} DropTop(n: nat, k: nat)
    requires n >= Power2(k)
    ensures Pattern(n - Power2(k), k) == Pattern(n, k)
    decreases k
  {
    hide Pattern;
    if k == 0 {
      NoPattern(n);
      NoPattern(n - 1);
    } else {
      FirstBit(n, k - 1);
      FirstBit(n - Power2(k), k - 1);
      DropTop(n / 2, k - 1);
      assert (n - Power2(k)) / 2 == n / 2 - Power2(k - 1);
    }
  }

  // ---- most significant bit first ----

  /** A 16-bit word in leaving order. */
  function High(n: nat): (w: Word)
    ensures |w| == 16
  {
    ListSpec.Reversed(Pattern(n, 16))
  }

  function ShiftHigh(n: nat, poly: nat): nat {
    if n < 0x8000 then 2 * n else XorNum(2 * n % 0x1_0000, poly)
  }

  lemma ShiftHighIsBit(n: nat, poly: nat)
    requires n < 0x1_0000 && poly < 0x1_0000
    ensures Bit(High(n), High(poly)) == High(ShiftHigh(n, poly)) && ShiftHigh(n, poly) < 0x1_0000
  {
    hide Pattern, XorNum;
    Sixteen();
    PatternPrefix(n, 15);
    var twice := 2 * n % 0x1_0000;
    ShiftedPattern(n);
    assert High(n)[0] == (n >= 0x8000);
    assert High(n)[1..] + [false] == High(twice);
    PatternXor(twice, poly, 16);
    XorReversed(Pattern(twice, 16), Pattern(poly, 16));
    XorBound(twice, poly, 16);
  }

  lemma Sixteen()
    ensures Power2(8) == 0x100 && Power2(15) == 0x8000 && Power2(16) == 0x1_0000
  {
    assert Power2(8) == 0x100;
  }

  lemma ShiftedPattern(n: nat)
    requires n < 0x1_0000
    ensures Pattern(2 * n % 0x1_0000, 16) == [false] + Pattern(n, 15)
  {
    hide Pattern;
    Sixteen();
    var twice := 2 * n % 0x1_0000;
    FirstBit(twice, 15);
    if n >= 0x8000 {
      DropTop(n, 15);
    }
  }

  function ShiftsHigh(n: nat, poly: nat, k: nat): nat
    decreases k
  {
    if k == 0 then n else ShiftsHigh(ShiftHigh(n, poly), poly, k - 1)
  }

  lemma {:induction false} ShiftsHighAreBits(n: nat, poly: nat, k: nat)
    requires n < 0x1_0000 && poly < 0x1_0000
    ensures Bits(High(n), High(poly), k) == High(ShiftsHigh(n, poly, k)) && ShiftsHigh(n, poly, k) < 0x1_0000
    decreases k
  {
    hide High, Bit, ShiftHigh;
    if k > 0 {
      ShiftHighIsBit(n, poly);
      ShiftsHighAreBits(ShiftHigh(n, poly), poly, k - 1);
    }
  }

  /** The register after one octet: exclusive or into the high byte, then eight shifts. */
  function Octet16(n: nat, b: byte): nat {
    ShiftsHigh(XorNum(n, 256 * b), 0x1021, 8)
  }

  function Crc16(s: Bytes): nat {
    if s == [] then 0 else Octet16(Crc16(s[..|s| - 1]), s[|s| - 1])
  }

  lemma HighByte(b: byte)
    ensures High(256 * b) == Ordered(b, false) + Zeros(8)
  {
    hide Pattern;
    assert Pattern(256 * b, 16) == Zeros(8) + Pattern(b, 8) by { LowZeros(b, 8, 8); }
  }

  lemma {:induction false} LowZeros(b: nat, z: nat, k: nat)
    ensures Pattern(Power2(z) * b, z + k) == Zeros(z) + Pattern(b, k)
    ensures Power2(8) == 256
    decreases z
  {
    if z == 0 {
      assert Power2(0) * b == b && Zeros(0) + Pattern(b, k) == Pattern(b, k);
    } else {
      LowZeros(b, z - 1, k);
      var n := Power2(z) * b;
      assert n == 2 * (Power2(z - 1) * b);
      FirstBit(n, z - 1 + k);
      assert [false] + Zeros(z - 1) == Zeros(z);
    }
  }

  lemma Octet16IsFold(n: nat, b: byte)
    requires n < 0x1_0000
    ensures Fold(High(n), High(0x1021), Ordered(b, false)) == High(Octet16(n, b)) && Octet16(n, b) < 0x1_0000
  {
    hide Pattern, XorNum, Bits, ShiftsHigh, Ordered, Zeros;
    HighByte(b);
    PatternXor(n, 256 * b, 16);
    XorReversed(Pattern(n, 16), Pattern(256 * b, 16));
    Sixteen();
    XorBound(n, 256 * b, 16);
    ShiftsHighAreBits(XorNum(n, 256 * b), 0x1021, 8);
  }

  /** CRC-16 on words is CRC-16 on bits. */
  lemma {:induction false} Crc16IsSum(s: Bytes)
    ensures Sum(Xmodem(), s) == High(Crc16(s)) && Crc16(s) < 0x1_0000
    decreases |s|
  {
    hide Pattern, Fold, Octet16, Ordered;
    RegisterIsCrc16(s);
    MaskNothing(Register(Xmodem(), s));
  }

  lemma {:induction false} RegisterIsCrc16(s: Bytes)
    ensures Register(Xmodem(), s) == High(Crc16(s)) && Crc16(s) < 0x1_0000
    decreases |s|
  {
    hide Pattern, Fold, Octet16, Ordered;
    if s == [] {
      assert Pattern(0, 16) == Zeros(16) by { LowZeros(0, 16, 0); assert Pattern(0, 0) == [] by { NoPattern(0); } }
    } else {
      RegisterIsCrc16(s[..|s| - 1]);
      Octet16IsFold(Crc16(s[..|s| - 1]), s[|s| - 1]);
    }
  }

  /** An octet with only its last leaving bit set leaves the polynomial behind. */
  lemma LastBitEntry(a: Algorithm, b: byte)
    requires a.Fits() && Ordered(b, a.lsbFirst) == Zeros(7) + [true]
    ensures Entry(a, b) == a.poly
  {
    hide Bit, Ordered;
    var n := |a.poly|;
    var rest := [true] + Zeros(n - 8);
    assert Ordered(b, a.lsbFirst) + Zeros(n - 8) == Zeros(7) + rest;
    ClearBitsMove(7, rest, a.poly);
    BitsSplit(Zeros(7) + rest, a.poly, 7);
    assert Bit(rest + Zeros(7), a.poly) == a.poly by { TopBit(rest + Zeros(7), a.poly); }
  }

  lemma {:induction false} BitsSplit(r: Word, poly: Word, n: nat)
    requires |r| == |poly| > 0
    ensures Bits(r, poly, n + 1) == Bit(Bits(r, poly, n), poly)
    decreases n
  {
    hide Bit;
    if n > 0 {
      BitsSplit(Bit(r, poly), poly, n - 1);
    }
  }

  lemma TopBit(r: Word, poly: Word)
    requires |r| == |poly| > 0 && r[0] && forall i :: 0 < i < |r| ==> !r[i]
    ensures Bit(r, poly) == poly
  {
  }

  lemma Ordinals()
    ensures Ordered(1, false) == Zeros(7) + [true]
    ensures Ordered(0x80, true) == Zeros(7) + [true]
  {
    hide Pattern;
    assert Pattern(1, 8) == [true] + Zeros(7) by {
      FirstBit(1, 7);
      LowZeros(0, 7, 0);
      NoPattern(0);
    }
    assert Pattern(0x80, 8) == Zeros(7) + [true] by {
      LowZeros(1, 7, 1);
      assert Power2(7) == 0x80;
      FirstBit(1, 0);
      NoPattern(0);
    }
  }

  /** CRC-16 of the octet 1 is 0x1021; with linearity that fixes the algorithm. */
  lemma Crc16Example()
    ensures Sum(Xmodem(), [1]) == High(0x1021) && Entry(Xmodem(), 1) == High(0x1021)
  {
    hide Pattern, Entry, Ordered, Bits;
    Ordinals();
    LastBitEntry(Xmodem(), 1);
    var o := Ordered(1, false);
    assert Xor(Zeros(16), o + Zeros(8)) == o + Zeros(8);
    assert Register(Xmodem(), [1]) == Entry(Xmodem(), 1) by { OneOctet(Xmodem(), 1); }
    MaskNothing(Register(Xmodem(), [1]));
  }

  lemma OneOctet(a: Algorithm, b: byte)
    requires a.Fits() && a.first == Zeros(|a.poly|)
    ensures Register(a, [b]) == Entry(a, b)
  {
    hide Bits, Ordered;
    var s := [b];
    assert s[..0] == [];
    var o := Ordered(b, a.lsbFirst) + Zeros(|a.poly| - 8);
    assert Xor(Zeros(|a.poly|), o) == o;
  }

  /** CRC-32C: the table's entry 128 is the reflected polynomial, and nothing sums to zero. */
  lemma Crc32cExample()
    ensures Entry(Castagnoli(), 0x80) == Pattern(0x82F6_3B78, 32)
    ensures Sum(Castagnoli(), []) == Zeros(32)
  {
    hide Pattern, Entry, Ordered;
    Ordinals();
    LastBitEntry(Castagnoli(), 0x80);
  }
}
