/** The store's key order, and the range of keys that share a prefix. */
module Order {
  import opened Bytes

  /** Bytewise lexicographic order; a proper prefix comes first. */
  predicate Below(a: Bytes, b: Bytes)
    decreases |a|
  {
    b != [] && (a == [] || a[0] < b[0] || (a[0] == b[0] && Below(a[1..], b[1..])))
  }

  /** `a` and `b` agree up to `i`, where `a` ends or has the smaller byte. */
  predicate Departs(a: Bytes, b: Bytes, i: nat) {
    i <= |a| && i < |b| && a[..i] == b[..i] && (i == |a| || a[i] < b[i])
  }

  lemma SameStart(a: Bytes, b: Bytes, i: nat)
    requires Departs(a, b, i)
    ensures i > 0 ==> a[0] == b[0]
  {
    if i > 0 {
      assert a[..i][0] == b[..i][0];
    }
  }

  /** One key comes before another exactly when it departs from it downward somewhere. */
  lemma {:induction false} BelowMeaning(a: Bytes, b: Bytes)
    ensures Below(a, b) <==> exists i: nat :: Departs(a, b, i)
    decreases |a|
  {
    if a == [] {
      assert Departs(a, b, 0) <==> b != [];
    } else if b != [] && a[0] == b[0] {
      BelowMeaning(a[1..], b[1..]);
      if i: nat :| Departs(a[1..], b[1..], i) {
        assert a[..i + 1] == [a[0]] + a[1..][..i] == b[..i + 1];
        assert Departs(a, b, i + 1);
      }
      if i: nat :| Departs(a, b, i) {
        assert a[1..][..i - 1] == a[..i][1..] == b[..i][1..] == b[1..][..i - 1];
        assert Departs(a[1..], b[1..], i - 1);
      }
    } else if b != [] {
      assert a[0] < b[0] ==> Departs(a, b, 0);
      if i: nat :| Departs(a, b, i) {
        SameStart(a, b, i);
      }
    }
  }

  predicate AtMost(a: Bytes, b: Bytes) {
    a == b || Below(a, b)
  }

  lemma {:induction false} BelowIrreflexive(a: Bytes)
    ensures !Below(a, a)
    decreases |a|
  {
    if a != [] {
      BelowIrreflexive(a[1..]);
    }
  }

  lemma {:induction false} BelowTransitive(a: Bytes, b: Bytes, c: Bytes)
    requires Below(a, b) && Below(b, c)
    ensures Below(a, c)
    decreases |a|
  {
    if a != [] && a[0] == b[0] == c[0] {
      BelowTransitive(a[1..], b[1..], c[1..]);
    }
  }

  lemma {:induction false} BelowTotal(a: Bytes, b: Bytes)
    ensures a == b || Below(a, b) || Below(b, a)
    decreases |a|
  {
    if a != [] && b != [] && a[0] == b[0] {
      BelowTotal(a[1..], b[1..]);
      assert a[1..] == b[1..] ==> a == [a[0]] + a[1..] == [b[0]] + b[1..] == b;
    }
  }

  lemma {:induction false} PrefixAtMost(a: Bytes, b: Bytes)
    requires a <= b
    ensures AtMost(a, b)
    decreases |a|
  {
    if a != [] {
      PrefixAtMost(a[1..], b[1..]);
      assert a[1..] == b[1..] ==> a == [a[0]] + a[1..] == [b[0]] + b[1..] == b;
    }
  }

  /** The least key above everything that starts with `b`; `None` when there is none. */
  function UpperBound(b: Bytes): Option<Bytes>
    decreases |b|
  {
    if b == [] then None
    else
      var rest := UpperBound(b[1..]);
      if rest.Some? then Some([b[0]] + rest.value)
      else if b[0] < 255 then Some([b[0] + 1])
      else None
  }

  /** The in-place form: increment the last byte, carrying over bytes that wrap. */
  method KeyUpperBound(b: Bytes) returns (r: Option<Bytes>)
    ensures r == UpperBound(b)
  {
    var i := |b|;
    assert b[..i] == b;
    while i > 0
      invariant 0 <= i <= |b|
      invariant UpperBound(b) == UpperBound(b[..i])
    {
      i := i - 1;
      assert b[..i + 1] == b[..i] + [b[i]];
      UpperBoundLast(b[..i], b[i]);
      if b[i] != 255 {
        return Some(b[..i] + [b[i] + 1]);
      }
    }
    r := None;
  }

  lemma {:induction false} UpperBoundLast(front: Bytes, last: byte)
    ensures UpperBound(front + [last]) == if last < 255 then Some(front + [last + 1]) else UpperBound(front)
    decreases |front|
  {
    var b := front + [last];
    if front == [] {
      assert b[1..] == [] && b[0] == last;
      assert last < 255 ==> front + [last + 1] == [last + 1];
    } else {
      assert b[1..] == front[1..] + [last];
      UpperBoundLast(front[1..], last);
      if last < 255 {
        assert [front[0]] + (front[1..] + [last + 1]) == front + [last + 1];
      }
    }
  }

  /** `p` lies in the key range [low, high), where no `high` is the end of the store. */
  predicate InRange(p: Bytes, low: Bytes, high: Option<Bytes>) {
    !Below(p, low) && (high.None? || Below(p, high.value))
  }

  /** The range up to the upper bound holds exactly the keys that start with `b`. */
  lemma {:induction false} RangeIsPrefix(b: Bytes, p: Bytes)
    ensures InRange(p, b, UpperBound(b)) <==> b <= p
    decreases |b|
  {
    if b == [] {
    } else if p == [] {
    } else if b[0] != p[0] {
      if UpperBound(b).Some? && b[0] < p[0] {
        NotBelowNext(b, p);
      }
    } else {
      RangeIsPrefix(b[1..], p[1..]);
      assert b <= p <==> b[1..] <= p[1..];
      RangeTail(b, p);
    }
  }

  lemma NotBelowNext(b: Bytes, p: Bytes)
    requires b != [] && p != [] && b[0] < p[0] && UpperBound(b).Some?
    ensures !Below(p, UpperBound(b).value)
  {
  }

  lemma RangeTail(b: Bytes, p: Bytes)
    requires b != [] && p != [] && b[0] == p[0]
    ensures InRange(p, b, UpperBound(b)) <==> InRange(p[1..], b[1..], UpperBound(b[1..]))
  {
    var rest := UpperBound(b[1..]);
    if rest.Some? {
      assert UpperBound(b).value[1..] == rest.value;
    }
  }
}
