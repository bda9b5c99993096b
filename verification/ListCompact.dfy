/** Rewriting one window densely after dropping some of its entries. */
module ListCompact {
  import opened Bytes
  import opened ListStore
  import opened ListSpec

  type SideEntries = seq<(nat, Elem)>

  /** The live entries of a window in logical order: downward on the left, upward on the right. */
  ghost predicate LiveSide(m: map<nat, Elem>, live: SideEntries, left: bool, lo: nat, hi: nat) {
    && lo <= hi
    && |live| == hi - lo
    && Window(m, lo, hi)
    && forall i {:trigger live[i]} :: 0 <= i < |live| ==>
                                        live[i].0 == (if left then hi - 1 - i else lo + i) && m[live[i].0] == live[i].1
  }

  function CollectSide(m: map<nat, Elem>, left: bool, lo: nat, hi: nat): (live: SideEntries)
    requires lo <= hi && Window(m, lo, hi)
    ensures LiveSide(m, live, left, lo, hi)
  {
    if left then seq(hi - lo, i requires 0 <= i < hi - lo => (hi - 1 - i, m[hi - 1 - i]))
    else seq(hi - lo, i requires 0 <= i < hi - lo => (lo + i, m[lo + i]))
  }

  function ElemsOf(es: SideEntries): (xs: seq<Elem>)
    ensures |xs| == |es|
  {
    seq(|es|, i requires 0 <= i < |es| => es[i].1)
  }

  /** The entries whose index is not on the kill list, order kept. */
  function Kept(live: SideEntries, kill: seq<nat>): (k: SideEntries)
    ensures |k| <= |live|
  {
    if live == [] then []
    else (if live[0].0 in kill then [] else [live[0]]) + Kept(live[1..], kill)
  }

  function NextOf(live: SideEntries, left: bool): (n: nat)
    requires live != []
  {
    if left then live[0].0 + 1 else live[|live| - 1].0 + 1
  }

  /** Old slots of the survivors that move. */
  function Vacated(kept: SideEntries, left: bool, next: nat, n: nat): seq<nat>
    requires n <= |kept| <= next
  {
    if n == 0 then []
    else Vacated(kept, left, next, n - 1)
         + if kept[n - 1].0 != Target(left, next, |kept|, n - 1) then [kept[n - 1].0] else []
  }

  function Renumbered(kept: SideEntries, left: bool, next: nat): (r: SideEntries)
    requires |kept| <= next
    ensures |r| == |kept|
  {
    seq(|kept|, i requires 0 <= i < |kept| => (Target(left, next, |kept|, i), kept[i].1))
  }

  /** All deletes first, then every survivor at its new slot. */
  function CompactOps(k: Key, live: SideEntries, kill: seq<nat>, left: bool): (b: seq<Op>)
    requires live != [] && |Kept(live, kill)| <= NextOf(live, left)
    ensures OnlyOn(b, k)
  {
    var kept, next := Kept(live, kill), NextOf(live, left);
    Dels(k, left, kill) + Dels(k, left, Vacated(kept, left, next, |kept|))
    + Puts(k, left, Renumbered(kept, left, next))
  }

  method AppendDels(batch: seq<Op>, key: Key, left: bool, idxs: seq<nat>) returns (out: seq<Op>)
    ensures out == batch + Dels(key, left, idxs)
  {
    out := batch;
    for j := 0 to |idxs|
      invariant out == batch + Dels(key, left, idxs[..j])
    {
      assert Dels(key, left, idxs[..j + 1]) == Dels(key, left, idxs[..j]) + [DelElem(key, left, idxs[j])];
      out := out + [DelElem(key, left, idxs[j])];
    }
    assert idxs[..|idxs|] == idxs;
  }

  method AppendPuts(batch: seq<Op>, key: Key, left: bool, es: SideEntries) returns (out: seq<Op>)
    ensures out == batch + Puts(key, left, es)
  {
    out := batch;
    for j := 0 to |es|
      invariant out == batch + Puts(key, left, es[..j])
    {
      var op := PutElem(key, left, es[j].0, es[j].1);
      assert Puts(key, left, es[..j + 1]) == Puts(key, left, es[..j]) + [op];
      out := out + [op];
    }
    assert es[..|es|] == es;
  }

  method FilterKept(live: SideEntries, kill: seq<nat>) returns (kept: SideEntries)
    ensures kept == Kept(live, kill)
  {
    hide Kept;
    kept := [];
    assert live[0..] == live;
    for j := 0 to |live|
      invariant Kept(live, kill) == kept + Kept(live[j..], kill)
    {
      KeptStep(live, kill, j);
      if live[j].0 !in kill {
        kept := kept + [live[j]];
      }
    }
    KeptNone(live[|live|..], kill);
  }

  lemma KeptStep(live: SideEntries, kill: seq<nat>, j: nat)
    requires j < |live|
    ensures Kept(live[j..], kill) ==
            (if live[j].0 in kill then [] else [live[j]]) + Kept(live[j + 1..], kill)
  {
    assert live[j..][1..] == live[j + 1..];
  }

  lemma KeptNone(live: SideEntries, kill: seq<nat>)
    requires live == []
    ensures Kept(live, kill) == []
  {
  }

  method CompactSide(batch: seq<Op>, key: Key, live: SideEntries, kill: seq<nat>, left: bool)
    returns (out: seq<Op>, count: nat)
    requires live != [] ==> |live| <= NextOf(live, left)
    ensures live == [] ==> out == batch && count == 0
    ensures live != [] ==> out == batch + CompactOps(key, live, kill, left) && count == |Kept(live, kill)|
  {
    if live == [] {
      return batch, 0;
    }
    hide Kept, Dels, Puts, Vacated, Renumbered;
    var next := NextOf(live, left);
    var kept := FilterKept(live, kill);
    count := |kept|;
    var vacated, news := PlanMoves(kept, left, next);
    out := AppendDels(batch, key, left, kill);
    out := AppendDels(out, key, left, vacated);
    out := AppendPuts(out, key, left, news);
    Appended(batch, Dels(key, left, kill), Dels(key, left, vacated), Puts(key, left, news));
  }

  lemma Appended(x: seq<Op>, a: seq<Op>, b: seq<Op>, c: seq<Op>)
    ensures x + a + b + c == x + (a + b + c)
  {
  }

  /** Old slots to delete, and every survivor with its new slot. */
  method PlanMoves(kept: SideEntries, left: bool, next: nat) returns (vacated: seq<nat>, news: SideEntries)
    requires |kept| <= next
    ensures vacated == Vacated(kept, left, next, |kept|)
    ensures news == Renumbered(kept, left, next)
  {
    vacated, news := [], [];
    for j := 0 to |kept|
      invariant vacated == Vacated(kept, left, next, j)
      invariant news == Renumbered(kept, left, next)[..j]
    {
      var target := Target(left, next, |kept|, j);
      if kept[j].0 != target {
        vacated := vacated + [kept[j].0];
      }
      news := news + [(target, kept[j].1)];
    }
  }

  // ---- what the rewrite leaves behind ----

  lemma {:induction false} KeptMembers(live: SideEntries, kill: seq<nat>)
    ensures forall e :: e in Kept(live, kill) <==> e in live && e.0 !in kill
    decreases |live|
  {
    if live != [] {
      KeptMembers(live[1..], kill);
      assert forall e :: e in live <==> e == live[0] || e in live[1..];
    }
  }

  lemma {:induction false} VacatedMembers(kept: SideEntries, left: bool, next: nat, n: nat)
    requires n <= |kept| <= next
    ensures forall x :: x in Vacated(kept, left, next, n) <==>
                        exists i :: 0 <= i < n && kept[i].0 == x && x != Target(left, next, |kept|, i)
    decreases n
  {
    if n > 0 {
      VacatedMembers(kept, left, next, n - 1);
      var v := Vacated(kept, left, next, n - 1);
      forall x | x in Vacated(kept, left, next, n)
        ensures exists i :: 0 <= i < n && kept[i].0 == x && x != Target(left, next, |kept|, i)
      {
        if x !in v {
          assert kept[n - 1].0 == x;
        }
      }
    }
  }

  /** The survivors of a window are the list without the killed positions. */
  lemma {:induction false} KeptIsWithout(live: SideEntries, kill: seq<nat>, gone: set<nat>, base: nat)
    requires forall i :: 0 <= i < |live| ==> (live[i].0 in kill <==> base + i in gone)
    ensures ElemsOf(Kept(live, kill)) == Without(ElemsOf(live), gone, base)
    decreases |live|
  {
    if live != [] {
      forall i | 0 <= i < |live[1..]| ensures live[1..][i].0 in kill <==> base + 1 + i in gone {
        assert live[1..][i] == live[i + 1];
        assert base + 1 + i == base + (i + 1);
      }
      KeptIsWithout(live[1..], kill, gone, base + 1);
      assert ElemsOf(live)[1..] == ElemsOf(live[1..]);
      var rest := Kept(live[1..], kill);
      assert ElemsOf([live[0]] + rest) == [live[0].1] + ElemsOf(rest);
      assert live[0].0 in kill <==> base + 0 in gone;
    }
  }

  /** The window after the rewrite holds exactly the renumbered survivors. */
  lemma CompactEffect(f: Family, k: Key, live: SideEntries, kill: seq<nat>, left: bool, lo: nat, hi: nat)
    requires live != [] && LiveSide(Side(f, left), live, left, lo, hi)
    ensures NextOf(live, left) == hi && |Kept(live, kill)| <= hi - lo
    ensures Run(f, CompactOps(k, live, kill, left)) ==
            WithSide(f, left, Entries(Renumbered(Kept(live, kill), left, hi)))
  {
    hide Run, Kept, Vacated, Entries;
    assert NextOf(live, left) == hi;
    var kept := Kept(live, kill);
    var vac := Vacated(kept, left, hi, |kept|);
    var news := Renumbered(kept, left, hi);
    var a, b, c := Dels(k, left, kill), Dels(k, left, vac), Puts(k, left, news);
    RunConcat(f, a + b, c);
    TwoDels(f, k, left, kill, vac);
    var m2 := Side(f, left) - (set i | i in kill) - (set i | i in vac);
    RunPuts(WithSide(f, left, m2), k, left, news);
    SurvivorsStay(Side(f, left), live, kill, left, lo, hi);
    Covered(m2, Entries(news));
  }

  lemma TwoDels(f: Family, k: Key, left: bool, a: seq<nat>, b: seq<nat>)
    ensures Run(f, Dels(k, left, a) + Dels(k, left, b)) ==
            WithSide(f, left, Side(f, left) - (set i | i in a) - (set i | i in b))
  {
    hide Run;
    RunConcat(f, Dels(k, left, a), Dels(k, left, b));
    RunDels(f, k, left, a);
    RunDels(WithSide(f, left, Side(f, left) - (set i | i in a)), k, left, b);
  }

  lemma Covered(m: map<nat, Elem>, n: map<nat, Elem>)
    requires forall x :: x in m ==> x in n
    ensures m + n == n
  {
  }

  /** What the deletes leave is overwritten by the puts. */
  lemma SurvivorsStay(m: map<nat, Elem>, live: SideEntries, kill: seq<nat>, left: bool, lo: nat, hi: nat)
    requires live != [] && LiveSide(m, live, left, lo, hi)
    ensures |Kept(live, kill)| <= hi
    ensures var kept := Kept(live, kill);
            var m2 := m - (set i | i in kill) - (set i | i in Vacated(kept, left, hi, |kept|));
            forall x :: x in m2 ==> x in Entries(Renumbered(kept, left, hi))
  {
    var kept := Kept(live, kill);
    var vac := Vacated(kept, left, hi, |kept|);
    var news := Renumbered(kept, left, hi);
    EntriesAre(news);
    VacatedMembers(kept, left, hi, |kept|);
    KeptMembers(live, kill);
    forall x | x in m && x !in kill && x !in vac ensures x in Entries(news) {
      var i := if left then hi - 1 - x else x - lo;
      assert live[i].0 == x && live[i] in kept;
      var j :| 0 <= j < |kept| && kept[j] == live[i];
      assert kept[j].0 == x && x == Target(left, hi, |kept|, j);
      assert news[j].0 == x;
    }
  }

  /** A renumbered window is dense and reads back as the given elements. */
  lemma RenumberedReads(kept: SideEntries, left: bool, next: nat)
    requires |kept| <= next
    ensures Reads(Entries(Renumbered(kept, left, next)), left, next, ElemsOf(kept))
  {
    hide Entries;
    var news := Renumbered(kept, left, next);
    var m := Entries(news);
    EntriesAre(news);
    assert DistinctIndices(news);
    forall x: nat ensures x in m <==> next - |kept| <= x < next {
      if next - |kept| <= x < next {
        var j := if left then next - 1 - x else x - (next - |kept|);
        assert news[j].0 == x;
      }
    }
    forall j | 0 <= j < |kept| ensures m[Target(left, next, |kept|, j)] == ElemsOf(kept)[j] {
      assert news[j] == (Target(left, next, |kept|, j), kept[j].1);
    }
  }
}
