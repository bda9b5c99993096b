/** LREM and LTRIM: mark entries for removal, rewrite both windows, commit once. */
module ListTrim {
  import opened Bytes
  import opened ListStore
  import opened ListSpec
  import opened ListCompact
  import opened ListRewrite
  import opened ListDb


  // ---- what the commands promise ----

  /** LREM's effect: copies go from the head for a positive count, from the tail for a negative one. */
  function RemoveMatches(xs: seq<Elem>, e: Elem, cnt: int): seq<Elem> {
    if cnt < 0 then RemoveLast(xs, e, -cnt)
    else RemoveFirst(xs, e, if cnt == 0 then U64_MAX else cnt)
  }

  function RemSpec(v: View, e: Elem, cnt: int): (View, Reply) {
    match v
    case Absent => (v, Count(0))
    case OtherType => (v, WrongKind)
    case List(xs, expire) =>
      var ys := RemoveMatches(xs, e, cnt);
      (Settled(ys, expire), Count(|xs| - |ys|))
  }

  /** Count 0 leaves no copy at all and everything else untouched. */
  lemma RemoveZeroRemovesAll(xs: seq<Elem>, e: Elem)
    requires |xs| <= U64_MAX
    ensures multiset(RemoveMatches(xs, e, 0)) == multiset(xs)[e := 0]
  {
    RemoveFirstCounts(xs, e, U64_MAX);
    assert multiset(xs)[e] <= |multiset(xs)| == |xs|;
  }

  /** A list position as Redis reads it: negative counts from the back. */
  function Resolved(x: int, len: nat): int {
    if x < 0 then len + x else x
  }

  /** The window a [start, stop] pair selects in a list of `len` elements, or nothing. */
  function ClampRange(start: int, stop: int, len: nat): (r: Option<(nat, nat)>)
    ensures r.Some? ==> r.value.0 <= r.value.1 < len
  {
    var n := if len <= I64_MAX then len else I64_MAX;
    var s := if start < 0 then (if n + start > 0 then n + start else 0) else (if start < n then start else n);
    var e := if stop < 0 then n + stop else stop;
    if e < 0 || s > e || s >= n then None
    else Some((s, if e < n - 1 then e else n - 1))
  }

  /** The window holds exactly the positions between the two resolved ends. */
  lemma ClampSelects(start: int, stop: int, len: nat, p: nat)
    requires p < len <= I64_MAX
    ensures var r := ClampRange(start, stop, len);
            (r.Some? && r.value.0 <= p <= r.value.1) <==> Resolved(start, len) <= p <= Resolved(stop, len)
  {
  }

  function Sliced<T>(xs: seq<T>, start: int, stop: int): seq<T> {
    match ClampRange(start, stop, |xs|)
    case None => []
    case Some((from, to)) => xs[from..to + 1]
  }

  function TrimSpec(v: View, start: int, stop: int): (View, Reply) {
    match v
    case Absent => (v, Done)
    case OtherType => (v, WrongKind)
    case List(xs, expire) => (Settled(Sliced(xs, start, stop), expire), Done)
  }

  // ---- marking ----

  lemma MarkHere(live: SideEntries, kill: seq<nat>, gone: set<nat>, base: nat, p: nat)
    requires DistinctIndices(live) && p < |live| && Marks(live, kill, gone, base)
    ensures Marks(live, kill + [live[p].0], gone + {base + p}, base)
  {
    forall i | 0 <= i < |live| ensures live[i].0 in kill + [live[p].0] <==> base + i in gone + {base + p} {
      assert i != p ==> live[i].0 != live[p].0;
    }
  }

  lemma MarkElsewhere(live: SideEntries, kill: seq<nat>, gone: set<nat>, base: nat, q: nat)
    requires q < base || base + |live| <= q
    requires Marks(live, kill, gone, base)
    ensures Marks(live, kill, gone + {q}, base)
  {
  }

  lemma LiveDistinct(m: map<nat, Elem>, live: SideEntries, left: bool, lo: nat, hi: nat)
    requires LiveSide(m, live, left, lo, hi)
    ensures DistinctIndices(live)
  {
  }

  /** Positions still to be marked when `i` entries have been visited and `budget` copies may still go. */
  ghost function StillToGo(xs: seq<Elem>, e: Elem, backward: bool, budget: nat, i: nat): set<nat>
    requires i <= |xs|
  {
    if backward then LastMatches(xs[..|xs| - i], e, budget) else FirstMatches(xs[i..], e, budget, i)
  }

  /** Copies still to be removed at that point. */
  ghost function StillToCount(xs: seq<Elem>, e: Elem, backward: bool, budget: nat, i: nat): int
    requires i <= |xs|
  {
    |xs| - i - if backward then |RemoveLast(xs[..|xs| - i], e, budget)| else |RemoveFirst(xs[i..], e, budget)|
  }

  lemma VisitOne(xs: seq<Elem>, e: Elem, backward: bool, budget: nat, i: nat)
    requires i < |xs|
    ensures var p := if backward then |xs| - 1 - i else i;
            if xs[p] == e && budget > 0 then
              StillToGo(xs, e, backward, budget, i) == {p} + StillToGo(xs, e, backward, budget - 1, i + 1)
              && StillToCount(xs, e, backward, budget, i) == 1 + StillToCount(xs, e, backward, budget - 1, i + 1)
            else
              StillToGo(xs, e, backward, budget, i) == StillToGo(xs, e, backward, budget, i + 1)
              && StillToCount(xs, e, backward, budget, i) == StillToCount(xs, e, backward, budget, i + 1)
  {
    if backward {
      var here := xs[..|xs| - i];
      assert here[..|here| - 1] == xs[..|xs| - (i + 1)];
    } else {
      assert xs[i..][1..] == xs[i + 1..];
    }
  }

  lemma {:induction false} NoBudgetForward(xs: seq<Elem>, e: Elem, base: nat)
    ensures FirstMatches(xs, e, 0, base) == {} && RemoveFirst(xs, e, 0) == xs
    decreases |xs|
  {
    if xs != [] {
      NoBudgetForward(xs[1..], e, base + 1);
    }
  }

  lemma {:induction false} NoBudgetBackward(xs: seq<Elem>, e: Elem)
    ensures LastMatches(xs, e, 0) == {} && RemoveLast(xs, e, 0) == xs
    decreases |xs|
  {
    if xs != [] {
      NoBudgetBackward(xs[..|xs| - 1], e);
      assert xs == xs[..|xs| - 1] + [xs[|xs| - 1]];
    }
  }

  lemma Finished(xs: seq<Elem>, e: Elem, backward: bool, budget: nat, i: nat)
    requires i <= |xs| && (i == |xs| || budget == 0)
    ensures StillToGo(xs, e, backward, budget, i) == {} && StillToCount(xs, e, backward, budget, i) == 0
  {
    if budget == 0 {
      NoBudgetForward(xs[i..], e, i);
      NoBudgetBackward(xs[..|xs| - i], e);
    }
  }

  ghost function Budget(cnt: int): nat {
    if cnt == 0 then U64_MAX else if cnt < 0 then -cnt else cnt
  }

  /** All the marks at the start of the visit: what LREM has to remove. */
  lemma Started(xs: seq<Elem>, e: Elem, cnt: int)
    ensures Without(xs, StillToGo(xs, e, cnt < 0, Budget(cnt), 0), 0) == RemoveMatches(xs, e, cnt)
    ensures StillToCount(xs, e, cnt < 0, Budget(cnt), 0) == |xs| - |RemoveMatches(xs, e, cnt)|
  {
    assert xs[..|xs| - 0] == xs && xs[0..] == xs;
    if cnt < 0 {
      DroppingLastMatches(xs, e, -cnt);
    } else {
      DroppingFirstMatches(xs, e, Budget(cnt), 0);
    }
  }

  /** State of the visit: what is marked so far plus what is still to go is what LREM must remove. */
  ghost predicate Marking(ls: SideEntries, rs: SideEntries, e: Elem, cnt: int, budget: nat, i: nat,
                          killL: seq<nat>, killR: seq<nat>, gone: set<nat>)
  {
    var xs, backward := ElemsOf(ls) + ElemsOf(rs), cnt < 0;
    && i <= |xs|
    && DistinctIndices(ls) && DistinctIndices(rs)
    && Marks(ls, killL, gone, 0) && Marks(rs, killR, gone, |ls|)
    && gone + StillToGo(xs, e, backward, budget, i) == StillToGo(xs, e, backward, Budget(cnt), 0)
    && |killL| + |killR| + StillToCount(xs, e, backward, budget, i) == StillToCount(xs, e, backward, Budget(cnt), 0)
  }

  lemma MarkMiss(ls: SideEntries, rs: SideEntries, e: Elem, cnt: int, budget: nat, i: nat,
                 killL: seq<nat>, killR: seq<nat>, gone: set<nat>, p: nat)
    requires Marking(ls, rs, e, cnt, budget, i, killL, killR, gone)
    requires i < |ls| + |rs| && p == if cnt < 0 then |ls| + |rs| - 1 - i else i
    requires (ElemsOf(ls) + ElemsOf(rs))[p] != e
    ensures Marking(ls, rs, e, cnt, budget, i + 1, killL, killR, gone)
  {
    hide StillToGo, StillToCount, Marks, DistinctIndices;
    VisitOne(ElemsOf(ls) + ElemsOf(rs), e, cnt < 0, budget, i);
  }

  lemma MarkHit(ls: SideEntries, rs: SideEntries, e: Elem, cnt: int, budget: nat, i: nat,
                killL: seq<nat>, killR: seq<nat>, gone: set<nat>, p: nat)
    requires Marking(ls, rs, e, cnt, budget, i, killL, killR, gone)
    requires i < |ls| + |rs| && budget > 0 && p == if cnt < 0 then |ls| + |rs| - 1 - i else i
    requires (ElemsOf(ls) + ElemsOf(rs))[p] == e
    ensures p < |ls| ==> Marking(ls, rs, e, cnt, budget - 1, i + 1, killL + [ls[p].0], killR, gone + {p})
    ensures p >= |ls| ==> Marking(ls, rs, e, cnt, budget - 1, i + 1, killL, killR + [rs[p - |ls|].0], gone + {p})
  {
    hide StillToGo, StillToCount, Marks, DistinctIndices;
    VisitOne(ElemsOf(ls) + ElemsOf(rs), e, cnt < 0, budget, i);
    if p < |ls| {
      MarkHere(ls, killL, gone, 0, p);
      MarkElsewhere(rs, killR, gone, |ls|, p);
    } else {
      MarkElsewhere(ls, killL, gone, 0, p);
      MarkHere(rs, killR, gone, |ls|, p - |ls|);
    }
  }

  lemma MarkStart(ls: SideEntries, rs: SideEntries, e: Elem, cnt: int)
    requires DistinctIndices(ls) && DistinctIndices(rs)
    ensures Marking(ls, rs, e, cnt, Budget(cnt), 0, [], [], {})
  {
    hide StillToGo, StillToCount;
  }

  lemma MarkDone(ls: SideEntries, rs: SideEntries, e: Elem, cnt: int, budget: nat, i: nat,
                 killL: seq<nat>, killR: seq<nat>, gone: set<nat>)
    requires Marking(ls, rs, e, cnt, budget, i, killL, killR, gone)
    requires i == |ls| + |rs| || budget == 0
    ensures Marks(ls, killL, gone, 0) && Marks(rs, killR, gone, |ls|)
    ensures var xs := ElemsOf(ls) + ElemsOf(rs);
            Without(xs, gone, 0) == RemoveMatches(xs, e, cnt)
            && |killL| + |killR| == |xs| - |RemoveMatches(xs, e, cnt)|
  {
    hide StillToGo, StillToCount, Marks, DistinctIndices, Without, RemoveMatches;
    var xs := ElemsOf(ls) + ElemsOf(rs);
    Started(xs, e, cnt);
    Finished(xs, e, cnt < 0, budget, i);
    assert gone == StillToGo(xs, e, cnt < 0, Budget(cnt), 0);
  }

  /** Visit one entry: on a match it goes on its side's kill list and costs one of the budget. */
  method VisitEntry(ls: SideEntries, rs: SideEntries, e: Elem, cnt: int, budget: nat, i: nat,
                    killL: seq<nat>, killR: seq<nat>, ghost gone: set<nat>)
    returns (budget': nat, killL': seq<nat>, killR': seq<nat>, ghost gone': set<nat>)
    requires i < |ls| + |rs| && budget > 0
    requires Marking(ls, rs, e, cnt, budget, i, killL, killR, gone)
    ensures Marking(ls, rs, e, cnt, budget', i + 1, killL', killR', gone')
  {
    hide *;
    budget', killL', killR', gone' := budget, killL, killR, gone;
    var p := if cnt < 0 then |ls| + |rs| - 1 - i else i;
    var entry := if p < |ls| then ls[p] else rs[p - |ls|];
    EntryAt(ls, rs, p);
    if entry.1 != e {
      MarkMiss(ls, rs, e, cnt, budget, i, killL, killR, gone, p);
      return;
    }
    MarkHit(ls, rs, e, cnt, budget, i, killL, killR, gone, p);
    budget', gone' := budget - 1, gone + {p};
    if p < |ls| {
      killL' := killL + [entry.0];
    } else {
      killR' := killR + [entry.0];
    }
  }

  /** Visit head to tail (or tail to head) and mark up to the budget of matching entries. */
  method MarkMatches(ls: SideEntries, rs: SideEntries, e: Elem, cnt: int)
    returns (killL: seq<nat>, killR: seq<nat>, ghost gone: set<nat>)
    requires DistinctIndices(ls) && DistinctIndices(rs)
    ensures Marks(ls, killL, gone, 0) && Marks(rs, killR, gone, |ls|)
    ensures var xs := ElemsOf(ls) + ElemsOf(rs);
            Without(xs, gone, 0) == RemoveMatches(xs, e, cnt)
            && |killL| + |killR| == |xs| - |RemoveMatches(xs, e, cnt)|
  {
    var budget: nat := if cnt == 0 then U64_MAX else if cnt < 0 then -cnt else cnt;
    assert budget == Budget(cnt);
    hide *;
    killL, killR, gone := [], [], {};
    MarkStart(ls, rs, e, cnt);
    var n := |ls| + |rs|;
    var i := 0;
    while i < n && budget > 0
      invariant 0 <= i <= n
      invariant Marking(ls, rs, e, cnt, budget, i, killL, killR, gone)
    {
      budget, killL, killR, gone := VisitEntry(ls, rs, e, cnt, budget, i, killL, killR, gone);
      i := i + 1;
    }
    MarkDone(ls, rs, e, cnt, budget, i, killL, killR, gone);
  }

  lemma EntryAt(ls: SideEntries, rs: SideEntries, p: nat)
    requires p < |ls| + |rs|
    ensures (ElemsOf(ls) + ElemsOf(rs))[p] == (if p < |ls| then ls[p] else rs[p - |ls|]).1
  {
  }

  /** Physical indices of the entries whose logical position lies outside [from, to]. */
  method MarkOutside(live: SideEntries, m: Meta, left: bool, from: nat, to: nat)
    returns (kill: seq<nat>, ghost gone: set<nat>)
    requires DistinctIndices(live) && m.lCount <= m.lNext && m.rCount <= m.rNext
    requires forall j {:trigger live[j]} :: 0 <= j < |live| ==>
                                              live[j].0 == (if left then m.lNext - 1 - j else m.rNext - m.rCount + j)
    ensures var base := if left then 0 else m.lCount;
            && (forall i :: i in gone <==> base <= i < base + |live| && (i < from || i > to))
            && Marks(live, kill, gone, base)
  {
    ghost var base := if left then 0 else m.lCount;
    kill, gone := [], {};
    for j := 0 to |live|
      invariant forall i :: i in gone <==> base <= i < base + j && (i < from || i > to)
      invariant Marks(live, kill, gone, base)
    {
      var idx := live[j].0;
      var p := if left then (m.lNext - m.lCount) + m.lCount - 1 - idx else m.lCount + (idx - (m.rNext - m.rCount));
      assert p == base + j;
      if p < from || p > to {
        MarkHere(live, kill, gone, base, j);
        kill := kill + [idx];
        gone := gone + {p};
      }
    }
  }

  // ---- the commands ----

  /** Compact the sides that lost entries, then commit the surviving list (or its removal). */
  method RewriteSides(d: Db, key: Key, m: Meta, ls: SideEntries, rs: SideEntries,
                      killL: seq<nat>, killR: seq<nat>, ghost gone: set<nat>, ghost now: nat)
    requires !Due(m.expire, now)
    requires d.Valid() && At(d.store, key).meta == Some(m)
    requires LiveSide(At(d.store, key).left, ls, true, m.lNext - m.lCount, m.lNext)
    requires LiveSide(At(d.store, key).right, rs, false, m.rNext - m.rCount, m.rNext)
    requires Marks(ls, killL, gone, 0) && Marks(rs, killR, gone, |ls|)
    modifies d
    ensures d.Valid() && SameElsewhere(old(d.store), d.store, key)
    ensures d.See(key, now) == Settled(Without(ElemsOf(ls) + ElemsOf(rs), gone, 0), m.expire)
  {
    hide Run, Kept, Without, Entries, CompactOps, Commit;
    ghost var f := At(d.store, key);
    RewriteEffect(f, key, m, ls, rs, killL, killR, gone);
    SidesAreItems(m, f.left, f.right, ls, rs);
    var after := m;
    var batch: seq<Op> := [];
    if killL != [] {
      var count;
      batch, count := CompactSide(batch, key, ls, killL, true);
      after := after.(lCount := count);
    }
    if killR != [] {
      var count;
      batch, count := CompactSide(batch, key, rs, killR, false);
      after := after.(rCount := count);
    }
    KeptCounts(ls, killL, after.lCount, rs, killR, after.rCount);
    assert batch == SideOps(key, ls, killL, true) + SideOps(key, rs, killR, false);
    Committed(d.store, key, batch, after,
              NewSide(f.left, ls, killL, true, m.lNext), NewSide(f.right, rs, killR, false, m.rNext), now);
    d.CommitList(key, m.expire, if after.Len() == 0 then None else Some(after), batch);
  }

  lemma KeptCounts(ls: SideEntries, killL: seq<nat>, lCount: nat, rs: SideEntries, killR: seq<nat>, rCount: nat)
    requires if killL == [] then lCount == |ls| else lCount == |Kept(ls, killL)|
    requires if killR == [] then rCount == |rs| else rCount == |Kept(rs, killR)|
    ensures lCount == |Kept(ls, killL)| && rCount == |Kept(rs, killR)|
  {
    KeptAll(ls);
    KeptAll(rs);
  }

  /** LREM key count element. */
  method Lrem(d: Db, key: Key, cnt: int, elem: Elem, now: nat) returns (reply: Reply)
    requires d.Valid()
    modifies d
    ensures d.Valid() && SameElsewhere(old(d.store), d.store, key)
    ensures (d.See(key, now), reply) == RemSpec(old(d.See(key, now)), elem, cnt)
  {
    hide RemoveMatches, Without;
    var st := d.Resolve(key, now);
    match st {
      case Missing =>
        return Count(0);
      case WrongType =>
        return WrongKind;
      case Present(m) =>
        var f := At(d.store, key);
        var ls := CollectSide(f.left, true, m.lNext - m.lCount, m.lNext);
        var rs := CollectSide(f.right, false, m.rNext - m.rCount, m.rNext);
        LiveDistinct(f.left, ls, true, m.lNext - m.lCount, m.lNext);
        LiveDistinct(f.right, rs, false, m.rNext - m.rCount, m.rNext);
        SidesAreItems(m, f.left, f.right, ls, rs);
        var killL, killR;
        ghost var gone;
        killL, killR, gone := MarkMatches(ls, rs, elem, cnt);
        RewriteSides(d, key, m, ls, rs, killL, killR, gone, now);
        reply := Count(|killL| + |killR|);
    }
  }

  /** The two sides' marks together are the positions outside [from, to]. */
  lemma OutsideMarked(ls: SideEntries, rs: SideEntries, killL: seq<nat>, killR: seq<nat>,
                      goneL: set<nat>, goneR: set<nat>, from: nat, to: nat)
    requires from <= to < |ls| + |rs|
    requires forall i :: i in goneL <==> 0 <= i < |ls| && (i < from || i > to)
    requires forall i :: i in goneR <==> |ls| <= i < |ls| + |rs| && (i < from || i > to)
    requires Marks(ls, killL, goneL, 0) && Marks(rs, killR, goneR, |ls|)
    ensures Marks(ls, killL, goneL + goneR, 0) && Marks(rs, killR, goneL + goneR, |ls|)
    ensures Without(ElemsOf(ls) + ElemsOf(rs), goneL + goneR, 0) == (ElemsOf(ls) + ElemsOf(rs))[from..to + 1]
  {
    DroppingOutside(ElemsOf(ls) + ElemsOf(rs), goneL + goneR, from, to);
  }

  /** LTRIM key start stop. */
  method Ltrim(d: Db, key: Key, start: int, stop: int, now: nat) returns (reply: Reply)
    requires d.Valid()
    modifies d
    ensures d.Valid() && SameElsewhere(old(d.store), d.store, key)
    ensures (d.See(key, now), reply) == TrimSpec(old(d.See(key, now)), start, stop)
  {
    hide ClampRange, Without, Run, Marks, Commit;
    var st := d.Resolve(key, now);
    match st {
      case Missing =>
        return Done;
      case WrongType =>
        return WrongKind;
      case Present(m) =>
        var f := At(d.store, key);
        var window := ClampRange(start, stop, m.Len());
        if window.None? {
          Wiped(d.store, key, m);
          d.CommitList(key, m.expire, None, []);
          return Done;
        }
        var from, to := window.value.0, window.value.1;
        var ls := CollectSide(f.left, true, m.lNext - m.lCount, m.lNext);
        var rs := CollectSide(f.right, false, m.rNext - m.rCount, m.rNext);
        LiveDistinct(f.left, ls, true, m.lNext - m.lCount, m.lNext);
        LiveDistinct(f.right, rs, false, m.rNext - m.rCount, m.rNext);
        SidesAreItems(m, f.left, f.right, ls, rs);
        var killL, killR;
        ghost var goneL, goneR;
        killL, goneL := MarkOutside(ls, m, true, from, to);
        killR, goneR := MarkOutside(rs, m, false, from, to);
        ghost var gone := goneL + goneR;
        OutsideMarked(ls, rs, killL, killR, goneL, goneR, from, to);
        RewriteSides(d, key, m, ls, rs, killL, killR, gone, now);
        return Done;
    }
  }

  /** Committing the bare wipe removes the list. */
  lemma Wiped(s: Store, key: Key, m: Meta)
    requires AllOk(s) && At(s, key).meta == Some(m)
    ensures var t := Commit(s, [] + FinishOps(key, m.expire, None));
            AllOk(t) && SameElsewhere(s, t, key) && At(t, key) == NOTHING
  {
    var b := [] + FinishOps(key, m.expire, None);
    assert b == FinishOps(key, m.expire, None);
    CommitOne(s, b, key);
    FinishRun(At(s, key), key, m.expire, None);
    var t := Commit(s, b);
    forall k ensures Ok(At(t, k)) {
      if k != key {
        assert At(t, k) == At(s, k);
      }
    }
  }
}
