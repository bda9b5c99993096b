/** The plain-sequence operations that the list commands promise. */
module ListSpec {
  import opened Bytes
  import opened ListStore

  function Reversed<T>(xs: seq<T>): (r: seq<T>)
    ensures |r| == |xs|
    ensures forall i :: 0 <= i < |xs| ==> r[i] == xs[|xs| - 1 - i]
  {
    seq(|xs|, i requires 0 <= i < |xs| => xs[|xs| - 1 - i])
  }

  /** `xs` without its first `n` copies of `e`. */
  function RemoveFirst(xs: seq<Elem>, e: Elem, n: nat): seq<Elem> {
    if xs == [] then []
    else if xs[0] == e && n > 0 then RemoveFirst(xs[1..], e, n - 1)
    else [xs[0]] + RemoveFirst(xs[1..], e, n)
  }

  /** `xs` without its last `n` copies of `e`. */
  function RemoveLast(xs: seq<Elem>, e: Elem, n: nat): seq<Elem> {
    if xs == [] then []
    else
      var rest, last := xs[..|xs| - 1], xs[|xs| - 1];
      if last == e && n > 0 then RemoveLast(rest, e, n - 1)
      else RemoveLast(rest, e, n) + [last]
  }

  /** Removing from the tail is removing from the head of the reversed list. */
  lemma {:induction false} RemoveLastMirrors(xs: seq<Elem>, e: Elem, n: nat)
    ensures RemoveLast(xs, e, n) == Reversed(RemoveFirst(Reversed(xs), e, n))
    decreases |xs|
  {
    if xs != [] {
      var rest, last := xs[..|xs| - 1], xs[|xs| - 1];
      assert Reversed(xs)[0] == last;
      assert Reversed(xs)[1..] == Reversed(rest);
      RemoveLastMirrors(rest, e, if last == e && n > 0 then n - 1 else n);
      if !(last == e && n > 0) {
        var ys := RemoveFirst(Reversed(rest), e, n);
        assert Reversed([last] + ys) == Reversed(ys) + [last];
      }
    }
  }

  /** How many copies go: all of them, or `n` if there are more than `n`; nothing else goes. */
  lemma {:induction false} RemoveFirstCounts(xs: seq<Elem>, e: Elem, n: nat)
    ensures multiset(RemoveFirst(xs, e, n)) ==
            multiset(xs)[e := if multiset(xs)[e] <= n then 0 else multiset(xs)[e] - n]
    decreases |xs|
  {
    if xs != [] {
      assert xs == [xs[0]] + xs[1..];
      var m := if xs[0] == e && n > 0 then n - 1 else n;
      RemoveFirstCounts(xs[1..], e, m);
      assert multiset(xs) == multiset{xs[0]} + multiset(xs[1..]);
    }
  }

  /** Positions, counted from `base`, of the first `n` copies of `e`. */
  ghost function FirstMatches(xs: seq<Elem>, e: Elem, n: nat, base: nat): set<nat> {
    if xs == [] then {}
    else if xs[0] == e && n > 0 then {base} + FirstMatches(xs[1..], e, n - 1, base + 1)
    else FirstMatches(xs[1..], e, n, base + 1)
  }

  /** Positions of the last `n` copies of `e`. */
  ghost function LastMatches(xs: seq<Elem>, e: Elem, n: nat): set<nat> {
    if xs == [] then {}
    else
      var rest, last := xs[..|xs| - 1], xs[|xs| - 1];
      if last == e && n > 0 then {|xs| - 1} + LastMatches(rest, e, n - 1)
      else LastMatches(rest, e, n)
  }

  /** `xs` without the elements at the positions `gone`, positions counted from `base`. */
  ghost function Without(xs: seq<Elem>, gone: set<nat>, base: nat): seq<Elem> {
    if xs == [] then []
    else (if base in gone then [] else [xs[0]]) + Without(xs[1..], gone, base + 1)
  }

  lemma {:induction false} WithoutConcat(a: seq<Elem>, b: seq<Elem>, gone: set<nat>, base: nat)
    ensures Without(a + b, gone, base) == Without(a, gone, base) + Without(b, gone, base + |a|)
    decreases |a|
  {
    if a == [] {
      assert a + b == b;
    } else {
      assert (a + b)[1..] == a[1..] + b && (a + b)[0] == a[0];
      WithoutConcat(a[1..], b, gone, base + 1);
      var head := if base in gone then [] else [a[0]];
      assert Without(a + b, gone, base) == head + (Without(a[1..], gone, base + 1) + Without(b, gone, base + |a|));
    }
  }

  /** `Without` looks only at the positions it covers. */
  lemma {:induction false} WithoutAgrees(xs: seq<Elem>, p: set<nat>, q: set<nat>, base: nat)
    requires forall i :: base <= i < base + |xs| ==> (i in p <==> i in q)
    ensures Without(xs, p, base) == Without(xs, q, base)
    decreases |xs|
  {
    if xs != [] {
      WithoutAgrees(xs[1..], p, q, base + 1);
    }
  }

  lemma {:induction false} FirstMatchesRange(xs: seq<Elem>, e: Elem, n: nat, base: nat)
    ensures forall i :: i in FirstMatches(xs, e, n, base) ==> base <= i < base + |xs|
    decreases |xs|
  {
    if xs != [] {
      FirstMatchesRange(xs[1..], e, if xs[0] == e && n > 0 then n - 1 else n, base + 1);
    }
  }

  lemma {:induction false} LastMatchesRange(xs: seq<Elem>, e: Elem, n: nat)
    ensures forall i :: i in LastMatches(xs, e, n) ==> i < |xs|
    decreases |xs|
  {
    if xs != [] {
      LastMatchesRange(xs[..|xs| - 1], e, if xs[|xs| - 1] == e && n > 0 then n - 1 else n);
    }
  }

  lemma {:induction false} DroppingFirstMatches(xs: seq<Elem>, e: Elem, n: nat, base: nat)
    ensures Without(xs, FirstMatches(xs, e, n, base), base) == RemoveFirst(xs, e, n)
    decreases |xs|
  {
    if xs != [] {
      var m := if xs[0] == e && n > 0 then n - 1 else n;
      FirstMatchesRange(xs[1..], e, m, base + 1);
      DroppingFirstMatches(xs[1..], e, m, base + 1);
      WithoutAgrees(xs[1..], FirstMatches(xs, e, n, base), FirstMatches(xs[1..], e, m, base + 1), base + 1);
    }
  }

  lemma WithoutOne(x: Elem, gone: set<nat>, base: nat)
    ensures Without([x], gone, base) == if base in gone then [] else [x]
  {
    var rest: seq<Elem> := [x][1..];
    assert rest == [];
  }

  lemma {:induction false} DroppingLastMatches(xs: seq<Elem>, e: Elem, n: nat)
    ensures Without(xs, LastMatches(xs, e, n), 0) == RemoveLast(xs, e, n)
    decreases |xs|
  {
    if xs != [] {
      var k := |xs| - 1;
      var rest, last := xs[..k], xs[k];
      var m := if last == e && n > 0 then n - 1 else n;
      DroppingLastMatches(rest, e, m);
      LastMatchesRange(rest, e, m);
      assert xs == rest + [last];
      var gone := LastMatches(xs, e, n);
      WithoutConcat(rest, [last], gone, 0);
      WithoutAgrees(rest, gone, LastMatches(rest, e, m), 0);
      WithoutOne(last, gone, k);
    }
  }

  lemma {:induction false} WithoutAll(xs: seq<Elem>, gone: set<nat>, base: nat)
    requires forall i :: base <= i < base + |xs| ==> i in gone
    ensures Without(xs, gone, base) == []
    decreases |xs|
  {
    if xs != [] {
      WithoutAll(xs[1..], gone, base + 1);
    }
  }

  lemma {:induction false} WithoutNone(xs: seq<Elem>, gone: set<nat>, base: nat)
    requires forall i :: base <= i < base + |xs| ==> i !in gone
    ensures Without(xs, gone, base) == xs
    decreases |xs|
  {
    if xs != [] {
      WithoutNone(xs[1..], gone, base + 1);
    }
  }

  /** Dropping everything outside [from, to] keeps exactly that slice. */
  lemma DroppingOutside(xs: seq<Elem>, gone: set<nat>, from: nat, to: nat)
    requires from <= to < |xs|
    requires forall i :: 0 <= i < |xs| ==> (i in gone <==> i < from || i > to)
    ensures Without(xs, gone, 0) == xs[from..to + 1]
  {
    var a, b, c := xs[..from], xs[from..to + 1], xs[to + 1..];
    assert xs == a + (b + c);
    WithoutConcat(a, b + c, gone, 0);
    WithoutConcat(b, c, gone, from);
    WithoutAll(a, gone, 0);
    WithoutNone(b, gone, from);
    WithoutAll(c, gone, to + 1);
  }
}
