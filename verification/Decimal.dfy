/** Decimal text: how the program prints integers and how it parses them back. */
module Decimal {
  import opened Bytes

  const ZERO: byte := 48  // '0'
  const MINUS: byte := 45 // '-'
  const PLUS: byte := 43  // '+'

  const U16_MAX: int := 0xFFFF

  predicate IsDigit(b: byte) {
    ZERO <= b <= ZERO + 9
  }

  predicate AllDigits(s: Bytes) {
    forall i :: 0 <= i < |s| ==> IsDigit(s[i])
  }

  /** Canonical decimal of a natural number: no sign, no leading zero. */
  function Dec(n: nat): (s: Bytes)
    ensures s != [] && AllDigits(s)
  {
    if n < 10 then [ZERO + n] else Dec(n / 10) + [ZERO + n % 10]
  }

  function DecInt(i: int): (s: Bytes)
    ensures s != []
  {
    if i < 0 then [MINUS] + Dec(-i) else Dec(i)
  }

  /** Value of a digit string, most significant digit first. */
  function Value(s: Bytes): nat
    requires AllDigits(s)
  {
    if s == [] then 0 else 10 * Value(s[..|s| - 1]) + (s[|s| - 1] - ZERO)
  }

  function ParseDigits(s: Bytes): Option<nat> {
    if s != [] && AllDigits(s) then Some(Value(s)) else None
  }

  /** Signed parse: an optional sign, at least one digit, and the value in range. */
  function ParseI64(s: Bytes): (r: Option<int>)
    ensures r.Some? ==> I64_MIN <= r.value <= I64_MAX
  {
    if s == [] then None
    else
      var negative := s[0] == MINUS;
      var n := ParseDigits(if s[0] == MINUS || s[0] == PLUS then s[1..] else s);
      if n.None? then None
      else
        var v: int := if negative then 0 - n.value else n.value;
        if I64_MIN <= v <= I64_MAX then Some(v) else None
  }

  /** Unsigned 16-bit parse: a leading '+' is allowed, a '-' is not. */
  function ParseU16(s: Bytes): (r: Option<nat>)
    ensures r.Some? ==> r.value <= U16_MAX
  {
    if s == [] then None
    else
      var n := ParseDigits(if s[0] == PLUS then s[1..] else s);
      if n.Some? && n.value <= U16_MAX then n else None
  }

  lemma {:induction false} ValueOfDec(n: nat)
    ensures Value(Dec(n)) == n
    decreases n
  {
    if n < 10 {
      assert Dec(n)[..0] == [];
    } else {
      ValueOfDec(n / 10);
      var s := Dec(n);
      assert s[..|s| - 1] == Dec(n / 10);
    }
  }

  /** Printing then parsing gives the number back. */
  lemma ParseOfDecInt(i: int)
    requires I64_MIN <= i <= I64_MAX
    ensures ParseI64(DecInt(i)) == Some(i)
  {
    ValueOfDec(if i < 0 then -i else i);
    if i < 0 {
      assert DecInt(i)[1..] == Dec(-i);
    } else {
      assert IsDigit(Dec(i)[0]);
    }
  }

  lemma ParseOfDecU16(n: nat)
    requires n <= U16_MAX
    ensures ParseU16(Dec(n)) == Some(n)
  {
    ValueOfDec(n);
    assert IsDigit(Dec(n)[0]);
  }

  /** Text as it is read and written. */
  lemma DecimalExample()
    ensures Dec(1023) == [49, 48, 50, 51] && DecInt(-7) == [45, 55]
    ensures ParseI64([43, 49, 50]) == Some(12) && ParseI64([45]) == None && ParseU16([45, 49]) == None
  {
    assert Dec(10) == [49, 48] && Dec(102) == [49, 48, 50];
    var plus: Bytes := [43, 49, 50];
    assert plus[1..] == [49, 50];
    var one, two: Bytes := [49], [49, 50];
    assert two[..1] == one && one[..0] == [];
    assert Value(one) == 1 && Value(two) == 12;
    var minus: Bytes := [45];
    assert minus[1..] == [];
    assert !IsDigit(45);
    var m: Bytes := [45, 49];
    assert m[0] == 45;
  }
}
