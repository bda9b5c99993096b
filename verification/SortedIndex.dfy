/** The ordered score records of a sorted set. */
module SortedIndex {
  import opened Bytes
  import opened Order

  const SIGN_BIT: nat := 0x8000_0000_0000_0000

  /** A score by its sortable code: codes compare as the numbers do, the two zeros being neighbours. */
  type Score = s: nat | s <= U64_MAX

  const NEG_ZERO: Score := SIGN_BIT - 1
  const POS_ZERO: Score := SIGN_BIT

  // The code of a double's bit pattern.

  function Sortable(bits: Score): Score {
    if bits >= SIGN_BIT then U64_MAX - bits else bits + SIGN_BIT
  }

  function FromSortable(code: Score): Score {
    if code >= SIGN_BIT then code - SIGN_BIT else U64_MAX - code
  }

  /** Order of two bit patterns as sign and magnitude, minus zero below plus zero. */
  predicate BitsLess(a: Score, b: Score) {
    if a >= SIGN_BIT then b < SIGN_BIT || a > b else b < SIGN_BIT && a < b
  }

  /** The code is a bijection that turns the numeric order into the order of codes. */
  lemma SortableIsMonotone(a: Score, b: Score)
    ensures Sortable(a) < Sortable(b) <==> BitsLess(a, b)
    ensures FromSortable(Sortable(a)) == a && Sortable(FromSortable(a)) == a
    ensures Sortable(0) == POS_ZERO && Sortable(SIGN_BIT) == NEG_ZERO
  {
  }

  /** Equality and order of the numbers: both zeros are equal. */
  predicate NumEq(a: Score, b: Score) {
    a == b || (NEG_ZERO <= a <= POS_ZERO && NEG_ZERO <= b <= POS_ZERO)
  }

  predicate NumLess(a: Score, b: Score) {
    a < b && !NumEq(a, b)
  }

  /** Numbers are below, equal or above, and equal ones compare alike. */
  lemma NumTrichotomy(a: Score, b: Score, c: Score)
    ensures (NumLess(a, b) && !NumEq(a, b) && !NumLess(b, a))
         || (!NumLess(a, b) && NumEq(a, b) && !NumLess(b, a))
         || (!NumLess(a, b) && !NumEq(a, b) && NumLess(b, a))
    ensures NumEq(a, b) ==> (NumLess(a, c) <==> NumLess(b, c)) && (NumLess(c, a) <==> NumLess(c, b))
    ensures NumEq(NEG_ZERO, POS_ZERO)
  {
  }

  // The numbers behind the codes.

  const FRACTION: nat := 0x10_0000_0000_0000

  /** `f`, doubled `n` times. */
  function Doubled(f: nat, n: nat): nat {
    if n == 0 then f else 2 * Doubled(f, n - 1)
  }

  /** A double's absolute value by its bits, in units of the smallest one; infinity is above every number. */
  function Magnitude(bits: nat): nat {
    var exponent, fraction := bits / FRACTION, bits % FRACTION;
    if exponent == 0 then fraction else Doubled(FRACTION + fraction, exponent - 1)
  }

  /** The number a score code stands for, in those units. */
  function Number(code: Score): int {
    var bits := FromSortable(code);
    if bits >= SIGN_BIT then 0 - Magnitude(bits - SIGN_BIT) else Magnitude(bits)
  }

  lemma {:induction false} DoubledGrows(f: nat, g: nat, n: nat)
    requires f < g
    ensures Doubled(f, n) < Doubled(g, n)
  {
    if n > 0 {
      DoubledGrows(f, g, n - 1);
    }
  }

  lemma {:induction false} DoubledFurther(f: nat, m: nat, n: nat)
    requires m <= n
    ensures Doubled(f, m) <= Doubled(f, n)
    ensures Doubled(2 * f, n) == Doubled(f, n + 1)
    decreases n
  {
    if m < n {
      DoubledFurther(f, m, n - 1);
    } else if n > 0 {
      DoubledFurther(f, n - 1, n - 1);
    }
  }

  lemma MagnitudeGrows(a: nat, b: nat)
    requires a < b
    ensures Magnitude(a) < Magnitude(b)
  {
    hide Doubled;
    var ea, fa, eb, fb := a / FRACTION, a % FRACTION, b / FRACTION, b % FRACTION;
    assert a == ea * FRACTION + fa && b == eb * FRACTION + fb;
    if ea == eb {
      if ea > 0 {
        DoubledGrows(FRACTION + fa, FRACTION + fb, ea - 1);
      }
    } else {
      assert ea < eb;
      AtLeast(fb, ea, eb);
      if ea > 0 {
        DoubledGrows(FRACTION + fa, 2 * FRACTION, ea - 1);
        DoubledFurther(FRACTION, ea - 1, ea - 1);
      }
    }
  }

  /** Numbers of one exponent reach at least the bound of every lower one. */
  lemma AtLeast(fraction: nat, lower: nat, exponent: nat)
    requires lower < exponent
    ensures Doubled(FRACTION + fraction, exponent - 1) >= Doubled(FRACTION, lower) >= FRACTION
  {
    hide Doubled;
    DoubledFurther(FRACTION, lower, exponent - 1);
    DoubledFurther(FRACTION, 0, lower);
    assert Doubled(FRACTION, 0) == FRACTION by { DoubledNone(FRACTION); }
    if fraction > 0 {
      DoubledGrows(FRACTION, FRACTION + fraction, exponent - 1);
    }
  }

  lemma DoubledNone(f: nat)
    ensures Doubled(f, 0) == f
  {
  }

  /** Codes compare as the numbers they stand for, but for the two zeros, which are one number. */
  lemma NumberOrder(a: Score, b: Score)
    ensures Number(a) < Number(b) <==> a < b && !(a == NEG_ZERO && b == POS_ZERO)
    ensures NumLess(a, b) <==> Number(a) < Number(b)
    ensures NumEq(a, b) <==> Number(a) == Number(b)
  {
    hide Magnitude;
    var p, q := FromSortable(a), FromSortable(b);
    var x := if p >= SIGN_BIT then p - SIGN_BIT else p;
    var y := if q >= SIGN_BIT then q - SIGN_BIT else q;
    assert Magnitude(0) == 0 by { ZeroMagnitude(); }
    if x < y { MagnitudeGrows(x, y); }
    if y < x { MagnitudeGrows(y, x); }
    if 0 < x { MagnitudeGrows(0, x); }
    if 0 < y { MagnitudeGrows(0, y); }
  }

  lemma ZeroMagnitude()
    ensures Magnitude(0) == 0
  {
  }

  /** 1.0 is 2^52 units doubled 1022 times, and -1.0 its negative. */
  lemma OneExample()
    ensures Number(Sortable(0x3FF0_0000_0000_0000)) == Doubled(FRACTION, 1022)
    ensures Number(Sortable(0xBFF0_0000_0000_0000)) == 0 - Doubled(FRACTION, 1022)
  {
    hide Doubled;
  }

  datatype Member = Member(bytes: Bytes)

  datatype Item = Item(score: Score, member: Member)

  /** Physical order of two score records: score code, then member bytes. */
  predicate Lt(a: Item, b: Item) {
    a.score < b.score || (a.score == b.score && Below(a.member.bytes, b.member.bytes))
  }

  lemma LtIrreflexive(a: Item)
    ensures !Lt(a, a)
  {
    BelowIrreflexive(a.member.bytes);
  }

  lemma LtTransitive(a: Item, b: Item, c: Item)
    requires Lt(a, b) && Lt(b, c)
    ensures Lt(a, c)
  {
    if a.score == b.score == c.score {
      BelowTransitive(a.member.bytes, b.member.bytes, c.member.bytes);
    }
  }

  lemma LtTotal(a: Item, b: Item)
    ensures a == b || Lt(a, b) || Lt(b, a)
  {
    BelowTotal(a.member.bytes, b.member.bytes);
  }

  ghost predicate Sorted(xs: seq<Item>) {
    forall i, j :: 0 <= i < j < |xs| ==> Lt(xs[i], xs[j])
  }

  /** The record put at its place; a record already there stays single. */
  function Insert(xs: seq<Item>, e: Item): seq<Item> {
    if xs == [] then [e]
    else if Lt(e, xs[0]) then [e] + xs
    else if e == xs[0] then xs
    else [xs[0]] + Insert(xs[1..], e)
  }

  function Remove(xs: seq<Item>, e: Item): seq<Item> {
    if xs == [] then []
    else if xs[0] == e then xs[1..]
    else [xs[0]] + Remove(xs[1..], e)
  }

  lemma {:induction false} InsertHas(xs: seq<Item>, e: Item, x: Item)
    ensures x in Insert(xs, e) <==> x == e || x in xs
    decreases |xs|
  {
    if xs != [] {
      InsertHas(xs[1..], e, x);
      assert xs == [xs[0]] + xs[1..];
    }
  }

  lemma {:induction false} InsertSorted(xs: seq<Item>, e: Item)
    requires Sorted(xs)
    ensures Sorted(Insert(xs, e))
    decreases |xs|
  {
    hide Lt;
    if xs == [] {
    } else if Lt(e, xs[0]) {
      forall j | 0 < j < |xs| ensures Lt(e, xs[j]) {
        LtTransitive(e, xs[0], xs[j]);
      }
    } else if e != xs[0] {
      LtTotal(e, xs[0]);
      var rest := Insert(xs[1..], e);
      InsertSorted(xs[1..], e);
      forall j | 0 <= j < |rest| ensures Lt(xs[0], rest[j]) {
        InsertHas(xs[1..], e, rest[j]);
        if rest[j] != e {
          var i :| 0 <= i < |xs[1..]| && xs[1..][i] == rest[j];
          assert xs[i + 1] == rest[j];
        }
      }
    }
  }

  lemma {:induction false} RemoveHas(xs: seq<Item>, e: Item, x: Item)
    requires Sorted(xs)
    ensures x in Remove(xs, e) <==> x in xs && x != e
    decreases |xs|
  {
    hide Lt;
    if xs != [] {
      assert xs == [xs[0]] + xs[1..];
      if xs[0] == e {
        LtIrreflexive(e);
        assert e !in xs[1..];
      } else {
        RemoveHas(xs[1..], e, x);
      }
    }
  }

  lemma {:induction false} RemoveSorted(xs: seq<Item>, e: Item)
    requires Sorted(xs)
    ensures Sorted(Remove(xs, e))
    decreases |xs|
  {
    hide Lt;
    if xs != [] && xs[0] != e {
      var rest := Remove(xs[1..], e);
      RemoveSorted(xs[1..], e);
      forall j | 0 <= j < |rest| ensures Lt(xs[0], rest[j]) {
        RemoveHas(xs[1..], e, rest[j]);
        var i :| 0 <= i < |xs[1..]| && xs[1..][i] == rest[j];
        assert xs[i + 1] == rest[j];
      }
    }
  }

  /** A sorted sequence is determined by its elements. */
  lemma {:induction false} SortedUnique(xs: seq<Item>, ys: seq<Item>)
    requires Sorted(xs) && Sorted(ys)
    requires forall x :: x in xs <==> x in ys
    ensures xs == ys
    decreases |xs|
  {
    hide Lt;
    assert ys != [] ==> ys[0] in ys;
    if xs != [] {
      assert xs[0] in ys;
      SameHead(xs, ys);
      forall x ensures x in xs[1..] <==> x in ys[1..] {
        TailHas(xs, x);
        TailHas(ys, x);
      }
      SortedUnique(xs[1..], ys[1..]);
      assert xs == [xs[0]] + xs[1..] && ys == [ys[0]] + ys[1..];
    }
  }

  lemma SameHead(xs: seq<Item>, ys: seq<Item>)
    requires Sorted(xs) && Sorted(ys) && xs != [] && ys != []
    requires forall x :: x in xs <==> x in ys
    ensures xs[0] == ys[0]
  {
    hide Lt;
    assert xs[0] in ys && ys[0] in xs;
    var i :| 0 <= i < |ys| && ys[i] == xs[0];
    var j :| 0 <= j < |xs| && xs[j] == ys[0];
    if i > 0 && j > 0 {
      LtTransitive(xs[0], ys[0], xs[0]);
      LtIrreflexive(xs[0]);
    }
  }

  lemma TailHas(xs: seq<Item>, x: Item)
    requires Sorted(xs) && xs != []
    ensures x in xs[1..] <==> x in xs && x != xs[0]
  {
    hide Lt;
    assert xs == [xs[0]] + xs[1..];
    LtIrreflexive(xs[0]);
    assert xs[0] !in xs[1..];
  }
}
