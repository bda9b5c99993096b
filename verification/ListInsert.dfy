/** LINSERT: shift one side of the list away from the insert point and take the vacated slot. */
module ListInsert {
  import opened Bytes
  import opened ListStore
  import opened ListSpec
  import opened ListCompact
  import opened ListRewrite
  import opened ListDb
  import opened ListWindow
  import opened ListEnds

  /** Position of the first `e`, if any. */
  function FirstAt(xs: seq<Elem>, e: Elem): (r: Option<nat>)
    ensures r.Some? ==> r.value < |xs| && xs[r.value] == e && e !in xs[..r.value]
    ensures r.None? ==> e !in xs
  {
    if xs == [] then None
    else if xs[0] == e then Some(0)
    else
      var r := FirstAt(xs[1..], e);
      if r.None? then None else Some(r.value + 1)
  }

  function Inserted(xs: seq<Elem>, at: nat, e: Elem): seq<Elem>
    requires at <= |xs|
  {
    xs[..at] + [e] + xs[at..]
  }

  function InsertSpec(v: View, before: bool, pivot: Elem, e: Elem): (View, Reply) {
    match v
    case Absent => (v, Count(0))
    case OtherType => (v, WrongKind)
    case List(xs, expire) =>
      match FirstAt(xs, pivot)
      case None => (v, Count(-1))
      case Some(p) =>
        var at := if before then p else p + 1;
        (List(Inserted(xs, at, e), expire), Count(|xs| + 1))
  }

  function Indices(es: SideEntries): (s: seq<nat>)
    ensures |s| == |es|
  {
    seq(|es|, i requires 0 <= i < |es| => es[i].0)
  }

  /** Every entry one slot further up, last entry first. */
  function ShiftedBack(es: SideEntries): (s: SideEntries)
    ensures |s| == |es|
  {
    seq(|es|, i requires 0 <= i < |es| => (es[|es| - 1 - i].0 + 1, es[|es| - 1 - i].1))
  }

  /** The writes of one insertion: move `es` up by one, then `e` into `slot`. */
  function ShiftOps(k: Key, left: bool, es: SideEntries, slot: nat, e: Elem): (b: seq<Op>)
    ensures OnlyOn(b, k)
  {
    Dels(k, left, Indices(es)) + Puts(k, left, ShiftedBack(es) + [(slot, e)])
  }

  /** The entries in the top slots of a window below `next`, in logical order: those the insertion shifts. */
  ghost predicate TopEntries(m: map<nat, Elem>, left: bool, es: SideEntries, next: nat) {
    && |es| <= next
    && forall i {:trigger es[i]} :: 0 <= i < |es| ==>
                                      es[i].0 == Target(left, next, |es|, i) && es[i].0 in m && m[es[i].0] == es[i].1
  }

  lemma IndicesCover(m: map<nat, Elem>, left: bool, es: SideEntries, next: nat)
    requires TopEntries(m, left, es, next)
    ensures m - (set i | i in Indices(es)) == Cut(m, next - |es|, next)
  {
    forall x: nat ensures x in Indices(es) <==> next - |es| <= x < next {
      if x in Indices(es) {
        var i :| 0 <= i < |es| && Indices(es)[i] == x;
        assert es[i].0 == x;
      }
      if next - |es| <= x < next {
        var i := if left then next - 1 - x else x - (next - |es|);
        assert es[i].0 == x && Indices(es)[i] == x;
      }
    }
  }

  /** `a` holds the shifted elements one slot up and `e` in the vacated slot. */
  ghost predicate Holds(a: map<nat, Elem>, es: SideEntries, next: nat, e: Elem) {
    && |es| <= next
    && Window(a, next - |es|, next + 1)
    && a[next - |es|] == e
    && forall i {:trigger es[i]} :: 0 <= i < |es| ==> es[i].0 + 1 in a && a[es[i].0 + 1] == es[i].1
  }

  lemma ShiftedEntries(m: map<nat, Elem>, left: bool, es: SideEntries, next: nat, e: Elem)
    requires TopEntries(m, left, es, next)
    ensures var ns := ShiftedBack(es) + [(next - |es|, e)];
            && DistinctIndices(ns)
            && forall i {:trigger ns[i]} :: 0 <= i < |es| ==>
                                              ns[i] == (Target(left, next, |es|, |es| - 1 - i) + 1, es[|es| - 1 - i].1)
  {
    var n := |es|;
    var ns := ShiftedBack(es) + [(next - n, e)];
    forall i | 0 <= i < n ensures ns[i] == (Target(left, next, n, n - 1 - i) + 1, es[n - 1 - i].1) {
      assert es[n - 1 - i].0 == Target(left, next, n, n - 1 - i);
    }
  }

  lemma ShiftedWindow(m: map<nat, Elem>, left: bool, es: SideEntries, next: nat, e: Elem)
    requires TopEntries(m, left, es, next)
    ensures Window(Entries(ShiftedBack(es) + [(next - |es|, e)]), next - |es|, next + 1)
  {
    hide Entries, ShiftedBack, DistinctIndices;
    var slot, n := next - |es|, |es|;
    var ns := ShiftedBack(es) + [(slot, e)];
    ShiftedEntries(m, left, es, next, e);
    assert ns[n] == (slot, e);
    EntriesAre(ns);
    forall x: nat | slot <= x < next + 1 ensures x in Entries(ns) {
      var i := if x == slot then n else if left then x - 1 - slot else next - x;
      assert ns[i].0 == x;
    }
  }

  /** What the puts write: every shifted element one slot up, and `e` in the vacated slot. */
  lemma ShiftedMap(m: map<nat, Elem>, left: bool, es: SideEntries, next: nat, e: Elem)
    requires TopEntries(m, left, es, next)
    ensures Holds(Entries(ShiftedBack(es) + [(next - |es|, e)]), es, next, e)
  {
    hide Entries, ShiftedBack, DistinctIndices, Window;
    var slot, n := next - |es|, |es|;
    var ns := ShiftedBack(es) + [(slot, e)];
    ShiftedEntries(m, left, es, next, e);
    ShiftedWindow(m, left, es, next, e);
    assert ns[n] == (slot, e);
    EntriesAre(ns);
    forall i | 0 <= i < n ensures es[i].0 + 1 in Entries(ns) && Entries(ns)[es[i].0 + 1] == es[i].1 {
      assert ns[n - 1 - i].0 == es[i].0 + 1;
    }
  }

  lemma ShiftReadsAt(m: map<nat, Elem>, left: bool, next: nat, xs: seq<Elem>, es: SideEntries, e: Elem,
                     a: map<nat, Elem>, j: nat)
    requires Reads(m, left, next, xs) && TopEntries(m, left, es, next) && |es| <= |xs| && j <= |xs|
    requires Holds(a, es, next, e)
    ensures var at := if left then |es| else |xs| - |es|;
            var m', x := Cut(m, next - |es|, next) + a, Target(left, next + 1, |xs| + 1, j);
            x in m' && m'[x] == (xs[..at] + [e] + xs[at..])[j]
  {
    var n, at := |es|, if left then |es| else |xs| - |es|;
    var x := Target(left, next + 1, |xs| + 1, j);
    if j < at {
      if left {
        assert es[j].0 + 1 == x && es[j].1 == xs[j];
      } else {
        assert x == Target(left, next, |xs|, j) && xs[j] == m[x];
      }
    } else if j > at {
      if left {
        assert x == Target(left, next, |xs|, j - 1) && xs[j - 1] == m[x];
      } else {
        assert es[j - 1 - at].0 + 1 == x && es[j - 1 - at].1 == xs[j - 1];
      }
    }
  }

  /** The side after the insertion reads as the old side with `e` at the insert point. */
  lemma ShiftReads(m: map<nat, Elem>, left: bool, next: nat, xs: seq<Elem>, es: SideEntries, e: Elem)
    requires Reads(m, left, next, xs) && TopEntries(m, left, es, next) && |es| <= |xs|
    ensures var at := if left then |es| else |xs| - |es|;
            Reads(Cut(m, next - |es|, next) + Entries(ShiftedBack(es) + [(next - |es|, e)]), left, next + 1,
                  xs[..at] + [e] + xs[at..])
  {
    hide Entries, ShiftedBack, TopEntries, Holds;
    ShiftedMap(m, left, es, next, e);
    var at := if left then |es| else |xs| - |es|;
    var a, ys := Entries(ShiftedBack(es) + [(next - |es|, e)]), xs[..at] + [e] + xs[at..];
    var m' := Cut(m, next - |es|, next) + a;
    assert Window(m', next - |xs|, next + 1) by {
      HoldsWindow(a, es, next, e);
    }
    forall j | 0 <= j < |ys| ensures m'[Target(left, next + 1, |ys|, j)] == ys[j] {
      ShiftReadsAt(m, left, next, xs, es, e, a, j);
    }
  }

  lemma HoldsWindow(a: map<nat, Elem>, es: SideEntries, next: nat, e: Elem)
    requires Holds(a, es, next, e)
    ensures Window(a, next - |es|, next + 1)
  {
  }

  ghost function ShiftedFamily(f: Family, left: bool, es: SideEntries, next: nat, e: Elem): Family
    requires |es| <= next
  {
    WithSide(f, left, Cut(Side(f, left), next - |es|, next) + Entries(ShiftedBack(es) + [(next - |es|, e)]))
  }

  lemma ShiftRun(f: Family, k: Key, left: bool, es: SideEntries, next: nat, e: Elem)
    requires TopEntries(Side(f, left), left, es, next)
    ensures |es| <= next
    ensures var g := ShiftedFamily(f, left, es, next, e);
            Run(f, ShiftOps(k, left, es, next - |es|, e)) == g && g == f.(left := g.left, right := g.right)
  {
    hide Run, Entries, ShiftedBack, Cut;
    var a, b := Dels(k, left, Indices(es)), Puts(k, left, ShiftedBack(es) + [(next - |es|, e)]);
    RunConcat(f, a, b);
    RunDels(f, k, left, Indices(es));
    IndicesCover(Side(f, left), left, es, next);
    RunPuts(WithSide(f, left, Cut(Side(f, left), next - |es|, next)), k, left, ShiftedBack(es) + [(next - |es|, e)]);
  }

  /** Shifting the left side's head or the right side's tail inserts `e` into the whole list. */
  lemma InsertEffect(f: Family, m: Meta, left: bool, es: SideEntries, e: Elem)
    requires OkWindows(m, f.left, f.right)
    requires TopEntries(Side(f, left), left, es, NextIdx(m, left))
    requires |es| <= if left then m.lCount else m.rCount
    ensures var g := ShiftedFamily(f, left, es, NextIdx(m, left), e);
            var at := if left then |es| else m.Len() - |es|;
            && OkWindows(Grown(m, left, 1), g.left, g.right)
            && Items(Grown(m, left, 1), g.left, g.right) == Inserted(Items(m, f.left, f.right), at, e)
  {
    hide Reads, Window, TopEntries, Entries, Cut;
    var a, b := LeftSeq(f.left, m.lNext, m.lCount), RightSeq(f.right, m.rNext, m.rCount);
    ReadsLeft(f.left, m.lNext, m.lCount);
    ReadsRight(f.right, m.rNext, m.rCount);
    var g, n := ShiftedFamily(f, left, es, NextIdx(m, left), e), |es|;
    if left {
      ShiftReads(f.left, true, m.lNext, a, es, e);
      ReadsItems(Grown(m, left, 1), g.left, g.right, a[..n] + [e] + a[n..], b);
    } else {
      ShiftReads(f.right, false, m.rNext, b, es, e);
      ReadsItems(Grown(m, left, 1), g.left, g.right, a, b[..|b| - n] + [e] + b[|b| - n..]);
    }
    InsertHalves(a, b, left, n, e);
  }

  lemma InsertHalves(a: seq<Elem>, b: seq<Elem>, left: bool, n: nat, e: Elem)
    requires n <= if left then |a| else |b|
    ensures left ==> (a[..n] + [e] + a[n..]) + b == Inserted(a + b, n, e)
    ensures !left ==> a + (b[..|b| - n] + [e] + b[|b| - n..]) == Inserted(a + b, |a + b| - n, e)
  {
    if left {
      assert (a + b)[..n] == a[..n] && (a + b)[n..] == a[n..] + b;
    } else {
      var k := |a + b| - n;
      assert (a + b)[..k] == a + b[..|b| - n] && (a + b)[k..] == b[|b| - n..];
    }
  }

  /** Shift `es`, drop `e` into the vacated slot, commit. */
  method InsertSide(d: Db, key: Key, m: Meta, left: bool, es: SideEntries, e: Elem, ghost now: nat)
    requires d.Valid() && OkList(At(d.store, key), m) && !Due(m.expire, now)
    requires TopEntries(Side(At(d.store, key), left), left, es, NextIdx(m, left))
    requires |es| <= if left then m.lCount else m.rCount
    modifies d
    ensures d.Valid() && SameElsewhere(old(d.store), d.store, key)
    ensures d.See(key, now) ==
            List(Inserted(old(Items(m, At(d.store, key).left, At(d.store, key).right)),
                          if left then |es| else m.Len() - |es|, e), m.expire)
  {
    hide Items, Run, Commit, TopEntries, ShiftedFamily, Inserted, OkWindows, Ok, ViewOf;
    ghost var f := At(d.store, key);
    var next := NextIdx(m, left);
    ShiftRun(f, key, left, es, next, e);
    InsertEffect(f, m, left, es, e);
    ghost var g := ShiftedFamily(f, left, es, next, e);
    var batch := AppendDels([], key, left, Indices(es));
    batch := AppendPuts(batch, key, left, ShiftedBack(es) + [(next - |es|, e)]);
    assert batch == ShiftOps(key, left, es, next - |es|, e);
    var after := Grown(m, left, 1);
    Committed(d.store, key, batch, after, g.left, g.right, now);
    d.CommitList(key, m.expire, Some(after), batch);
  }

  /** LINSERT key BEFORE|AFTER pivot element. */
  method Linsert(d: Db, key: Key, before: bool, pivot: Elem, e: Elem, now: nat) returns (reply: Reply)
    requires d.Valid()
    modifies d
    ensures d.Valid() && SameElsewhere(old(d.store), d.store, key)
    ensures (d.See(key, now), reply) == InsertSpec(old(d.See(key, now)), before, pivot, e)
  {
    hide Items, ViewOf, Ok, FirstAt, TopEntries, ElemsOf;
    var st := d.Resolve(key, now);
    match st {
      case Missing =>
        return Count(0);
      case WrongType =>
        return WrongKind;
      case Present(m) =>
        var f := At(d.store, key);
        var ls := CollectSide(f.left, true, m.lNext - m.lCount, m.lNext);
        var rs := CollectSide(f.right, false, m.rNext - m.rCount, m.rNext);
        SidesAreItems(m, f.left, f.right, ls, rs);
        var p := FindPivot(ElemsOf(ls) + ElemsOf(rs), pivot);
        if p.None? {
          return Count(-1);
        }
        var at := if before then p.value else p.value + 1;
        InsertAt(d, key, m, ls, rs, at, e, now);
        return Count(m.Len() + 1);
    }
  }

  /** Into the left window the head part shifts; into the right one the tail part does. */
  method InsertAt(d: Db, key: Key, m: Meta, ls: SideEntries, rs: SideEntries, at: nat, e: Elem, ghost now: nat)
    requires d.Valid() && OkList(At(d.store, key), m) && !Due(m.expire, now) && at <= m.Len()
    requires LiveSide(At(d.store, key).left, ls, true, m.lNext - m.lCount, m.lNext)
    requires LiveSide(At(d.store, key).right, rs, false, m.rNext - m.rCount, m.rNext)
    modifies d
    ensures d.Valid() && SameElsewhere(old(d.store), d.store, key)
    ensures d.See(key, now) ==
            List(Inserted(old(Items(m, At(d.store, key).left, At(d.store, key).right)), at, e), m.expire)
  {
    hide Items, ViewOf, Ok, TopEntries, Inserted;
    ShiftedPart(At(d.store, key), m, ls, rs, at);
    if at < |ls| {
      InsertSide(d, key, m, true, ls[..at], e, now);
    } else {
      InsertSide(d, key, m, false, rs[at - |ls|..], e, now);
    }
  }

  method FindPivot(xs: seq<Elem>, pivot: Elem) returns (r: Option<nat>)
    ensures r == FirstAt(xs, pivot)
  {
    assert xs[0..] == xs;
    for i := 0 to |xs|
      invariant match FirstAt(xs[i..], pivot)
                case None => FirstAt(xs, pivot) == None
                case Some(p) => FirstAt(xs, pivot) == Some(i + p)
    {
      if xs[i] == pivot {
        return Some(i);
      }
      assert xs[i..][1..] == xs[i + 1..];
    }
    return None;
  }

  /** The entries before the insert point on the left, or from it on on the right, sit in the top slots. */
  lemma ShiftedPart(f: Family, m: Meta, ls: SideEntries, rs: SideEntries, at: nat)
    requires OkWindows(m, f.left, f.right) && at <= |ls| + |rs|
    requires LiveSide(f.left, ls, true, m.lNext - m.lCount, m.lNext)
    requires LiveSide(f.right, rs, false, m.rNext - m.rCount, m.rNext)
    ensures at < |ls| ==> TopEntries(f.left, true, ls[..at], m.lNext)
    ensures at >= |ls| ==> TopEntries(f.right, false, rs[at - |ls|..], m.rNext)
  {
  }
}
