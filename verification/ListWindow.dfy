/** One index window and the elements it reads as; how writes at its ends change both. */
module ListWindow {
  import opened Bytes
  import opened ListStore
  import opened ListSpec
  import opened ListCompact

  function Numbered(es: seq<Elem>, next: nat): (ns: SideEntries)
    ensures |ns| == |es|
  {
    seq(|es|, i requires 0 <= i < |es| => (next + i, es[i]))
  }

  lemma {:induction false} NumberedEntries(es: seq<Elem>, next: nat)
    ensures Window(Entries(Numbered(es, next)), next, next + |es|)
    ensures forall i {:trigger es[i]} :: 0 <= i < |es| ==> Entries(Numbered(es, next))[next + i] == es[i]
    decreases |es|
  {
    if es != [] {
      var n := |es| - 1;
      var ns, rest := Numbered(es, next), es[..n];
      assert ns[..n] == Numbered(rest, next) && ns[n] == (next + n, es[n]);
      NumberedEntries(rest, next);
      assert forall i :: 0 <= i < n ==> es[i] == rest[i];
    }
  }

  /** Elements put on top of a window: at the head of the left side, at the tail of the right. */
  lemma PutOnTop(m: map<nat, Elem>, left: bool, next: nat, xs: seq<Elem>, es: seq<Elem>)
    requires Reads(m, left, next, xs)
    ensures Reads(m + Entries(Numbered(es, next)), left, next + |es|, if left then Reversed(es) + xs else xs + es)
  {
    hide Entries, Numbered;
    NumberedEntries(es, next);
    var m', ys := m + Entries(Numbered(es, next)), if left then Reversed(es) + xs else xs + es;
    assert Window(m', next - |xs|, next + |es|);
    forall i | 0 <= i < |ys| ensures m'[Target(left, next + |es|, |ys|, i)] == ys[i] {
      var x := Target(left, next + |es|, |ys|, i);
      if x >= next {
        assert ys[i] == es[x - next];
      } else {
        var j := if left then i - |es| else i;
        assert ys[i] == xs[j] && x == Target(left, next, |xs|, j);
      }
    }
  }

  ghost function Cut(m: map<nat, Elem>, lo: nat, hi: nat): map<nat, Elem> {
    map i | i in m && !(lo <= i < hi) :: m[i]
  }

  /** Taking `n` off the top: off the head of the left side, off the tail of the right. */
  lemma CutTop(m: map<nat, Elem>, left: bool, next: nat, xs: seq<Elem>, n: nat)
    requires Reads(m, left, next, xs) && n <= |xs|
    ensures Reads(Cut(m, next - n, next), left, next - n, if left then xs[n..] else xs[..|xs| - n])
  {
    var ys := if left then xs[n..] else xs[..|xs| - n];
    forall i | 0 <= i < |ys| ensures Cut(m, next - n, next)[Target(left, next - n, |ys|, i)] == ys[i] {
      var j := if left then i + n else i;
      assert ys[i] == xs[j] && Target(left, next - n, |ys|, i) == Target(left, next, |xs|, j);
    }
  }

  /** Taking `n` off the bottom: off the tail of the left side, off the head of the right. */
  lemma CutBottom(m: map<nat, Elem>, left: bool, next: nat, xs: seq<Elem>, n: nat)
    requires Reads(m, left, next, xs) && n <= |xs|
    ensures Reads(Cut(m, next - |xs|, next - |xs| + n), left, next, if left then xs[..|xs| - n] else xs[n..])
  {
    var ys := if left then xs[..|xs| - n] else xs[n..];
    var m' := Cut(m, next - |xs|, next - |xs| + n);
    forall i | 0 <= i < |ys| ensures m'[Target(left, next, |ys|, i)] == ys[i] {
      var j := if left then i else i + n;
      assert ys[i] == xs[j] && Target(left, next, |ys|, i) == Target(left, next, |xs|, j);
    }
  }

  /** Overwriting the slot of position `p`. */
  lemma PutAt(m: map<nat, Elem>, left: bool, next: nat, xs: seq<Elem>, p: nat, e: Elem)
    requires Reads(m, left, next, xs) && p < |xs|
    ensures Reads(m[Target(left, next, |xs|, p) := e], left, next, xs[p := e])
  {
  }

  // ---- runs of indices ----

  function Down(next: nat, n: nat): (s: seq<nat>)
    requires n <= next
  {
    seq(n, i requires 0 <= i < n => next - 1 - i)
  }

  function Up(base: nat, n: nat): (s: seq<nat>) {
    seq(n, i requires 0 <= i < n => base + i)
  }

  lemma CutDown(m: map<nat, Elem>, next: nat, n: nat)
    requires n <= next
    ensures m - (set i | i in Down(next, n)) == Cut(m, next - n, next)
  {
    forall i: nat ensures i in Down(next, n) <==> next - n <= i < next {
      if next - n <= i < next {
        assert Down(next, n)[next - 1 - i] == i;
      }
    }
  }

  lemma CutUp(m: map<nat, Elem>, base: nat, n: nat)
    ensures m - (set i | i in Up(base, n)) == Cut(m, base, base + n)
  {
    forall i: nat ensures i in Up(base, n) <==> base <= i < base + n {
      if base <= i < base + n {
        assert Up(base, n)[i - base] == i;
      }
    }
  }
}
