/** LPOS: the positions of an element, searched from either end of the list. */
module ListPos {
  import opened Bytes
  import opened ListStore
  import opened ListSpec
  import opened ListCompact
  import opened ListRewrite
  import opened ListDb

  type Placed = seq<(nat, Elem)>

  datatype PosReply =
    | ZeroRank | NegativeCount | NegativeMaxLen | WrongKind
    | Null | Position(at: nat) | Positions(all: seq<nat>)

  /** Positions of the entries that hold `e`, in their order. */
  function Hits(entries: Placed, e: Elem): seq<nat> {
    if entries == [] then []
    else Hits(entries[..|entries| - 1], e)
         + if entries[|entries| - 1].1 == e then [entries[|entries| - 1].0] else []
  }

  /** The entries from `lo` up to `hi`, each with its position. */
  function Between(xs: seq<Elem>, lo: nat, hi: nat): (r: Placed)
    requires lo <= hi <= |xs|
    ensures |r| == hi - lo
  {
    seq(hi - lo, i requires 0 <= i < hi - lo => (lo + i, xs[lo + i]))
  }

  lemma BetweenPush(xs: seq<Elem>, e: Elem, lo: nat, hi: nat)
    requires lo < hi <= |xs|
    ensures Hits(Between(xs, lo, hi), e) ==
            Hits(Between(xs, lo, hi - 1), e) + if xs[hi - 1] == e then [hi - 1] else []
  {
    var entries := Between(xs, lo, hi);
    assert entries[..|entries| - 1] == Between(xs, lo, hi - 1);
  }

  /** Hits in a window are exactly the positions holding the element. */
  lemma {:induction false} HitsAreMatches(xs: seq<Elem>, e: Elem, lo: nat, hi: nat, p: nat)
    requires lo <= hi <= |xs|
    ensures p in Hits(Between(xs, lo, hi), e) <==> lo <= p < hi && xs[p] == e
    decreases hi - lo
  {
    if lo < hi {
      BetweenPush(xs, e, lo, hi);
      HitsAreMatches(xs, e, lo, hi - 1, p);
    }
  }

  /** ... in ascending order. */
  lemma {:induction false} HitsAscend(xs: seq<Elem>, e: Elem, lo: nat, hi: nat)
    requires lo <= hi <= |xs|
    ensures var ps := Hits(Between(xs, lo, hi), e);
            forall i, j :: 0 <= i < j < |ps| ==> ps[i] < ps[j]
    decreases hi - lo
  {
    if lo < hi {
      BetweenPush(xs, e, lo, hi);
      HitsAscend(xs, e, lo, hi - 1);
      var before := Hits(Between(xs, lo, hi - 1), e);
      forall i | 0 <= i < |before| ensures before[i] < hi - 1 {
        HitsAreMatches(xs, e, lo, hi - 1, before[i]);
      }
    }
  }

  function Drop(ps: seq<nat>, n: nat): seq<nat> {
    if n < |ps| then ps[n..] else []
  }

  function Take(ps: seq<nat>, n: Option<nat>): seq<nat> {
    if n.Some? && n.value < |ps| then ps[..n.value] else ps
  }

  /** How far MAXLEN lets the search go. */
  function Reach(len: nat, maxLen: nat): (r: nat)
    ensures r <= len
  {
    if maxLen > 0 && maxLen < len then maxLen else len
  }

  /** Matches in search order: ascending from the head, descending from the tail. */
  function Found(xs: seq<Elem>, e: Elem, rank: int, maxLen: nat): seq<nat> {
    var m := Reach(|xs|, maxLen);
    if rank > 0 then Hits(Between(xs, 0, m), e) else Reversed(Hits(Between(xs, |xs| - m, |xs|), e))
  }

  function Abs(n: int): nat {
    if n < 0 then -n else n
  }

  /** COUNT 0 asks for every match, no COUNT for one. */
  function Wanted(count: Option<int>): Option<nat>
    requires count.Some? ==> count.value >= 0
  {
    if count.None? then Some(1) else if count.value == 0 then None else Some(count.value)
  }

  function Answer(picked: seq<nat>, count: Option<int>): PosReply {
    if count.Some? then Positions(picked) else if picked == [] then Null else Position(picked[0])
  }

  ghost function PosSpec(v: View, e: Elem, rank: int, count: Option<int>, maxLen: int): PosReply {
    if rank == 0 then ZeroRank
    else if count.Some? && count.value < 0 then NegativeCount
    else if maxLen < 0 then NegativeMaxLen
    else match v
         case Absent => Answer([], count)
         case OtherType => PosReply.WrongKind
         case List(xs, _) => Answer(Take(Drop(Found(xs, e, rank, maxLen), Abs(rank) - 1), Wanted(count)), count)
  }

  lemma HitsPush(entries: Placed, i: nat, e: Elem)
    requires i < |entries|
    ensures Hits(entries[..i + 1], e) == Hits(entries[..i], e) + if entries[i].1 == e then [entries[i].0] else []
  {
    assert entries[..i + 1][..i] == entries[..i];
  }

  lemma {:induction false} HitsPrefix(entries: Placed, i: nat, e: Elem)
    requires i <= |entries|
    ensures Hits(entries[..i], e) <= Hits(entries, e)
    decreases |entries| - i
  {
    if i < |entries| {
      HitsPrefix(entries, i + 1, e);
      HitsPush(entries, i, e);
    } else {
      assert entries[..i] == entries;
    }
  }

  lemma {:induction false} HitsConcat(a: Placed, b: Placed, e: Elem)
    ensures Hits(a + b, e) == Hits(a, e) + Hits(b, e)
    decreases |b|
  {
    if b == [] {
      assert a + b == a;
    } else {
      var last := |b| - 1;
      assert (a + b)[..|a + b| - 1] == a + b[..last];
      HitsConcat(a, b[..last], e);
    }
  }

  lemma {:induction false} HitsReversed(entries: Placed, e: Elem)
    ensures Hits(Reversed(entries), e) == Reversed(Hits(entries, e))
    decreases |entries|
  {
    if entries != [] {
      var last := |entries| - 1;
      var rest := entries[..last];
      HitsReversed(rest, e);
      assert Reversed(entries) == [entries[last]] + Reversed(rest);
      HitsConcat([entries[last]], Reversed(rest), e);
      OneHit(entries[last], e);
      ReversedPush(Hits(rest, e), Hits([entries[last]], e));
    } else {
      assert Reversed(entries) == [];
    }
  }

  lemma OneHit(entry: (nat, Elem), e: Elem)
    ensures Hits([entry], e) == if entry.1 == e then [entry.0] else []
  {
    assert [entry][..0] == [];
  }

  lemma ReversedPush(a: seq<nat>, b: seq<nat>)
    requires |b| <= 1
    ensures Reversed(a + b) == b + Reversed(a)
  {
  }

  /** The scan: skip the first matches, collect the next ones, stop when there are enough. */
  method Pick(entries: Placed, e: Elem, skip: nat, take: Option<nat>) returns (picked: seq<nat>)
    requires take.Some? ==> take.value > 0
    ensures picked == Take(Drop(Hits(entries, e), skip), take)
  {
    hide Hits;
    picked := [];
    var seen := 0;
    HitsNone(entries, e);
    for i := 0 to |entries|
      invariant seen == |Hits(entries[..i], e)|
      invariant picked == Drop(Hits(entries[..i], e), skip)
      invariant take.Some? ==> |picked| < take.value
    {
      HitsPush(entries, i, e);
      HitsPrefix(entries, i + 1, e);
      if entries[i].1 == e {
        seen := seen + 1;
        if seen > skip {
          picked := picked + [entries[i].0];
          if take.Some? && |picked| == take.value {
            return;
          }
        }
      }
    }
    assert entries[..|entries|] == entries;
  }

  lemma HitsNone(entries: Placed, e: Elem)
    ensures Hits(entries[..0], e) == []
  {
  }

  /** The entries of both windows with their positions, head to tail. */
  method Enumerate(ls: SideEntries, rs: SideEntries) returns (entries: Placed)
    ensures entries == Between(ElemsOf(ls) + ElemsOf(rs), 0, |ls| + |rs|)
  {
    entries := [];
    ghost var xs := ElemsOf(ls) + ElemsOf(rs);
    for p := 0 to |ls|
      invariant entries == Between(xs, 0, p)
    {
      entries := entries + [(p, ls[p].1)];
    }
    for p := 0 to |rs|
      invariant entries == Between(xs, 0, |ls| + p)
    {
      entries := entries + [(|ls| + p, rs[p].1)];
    }
  }

  /** The window of the search, turned round when it starts at the tail. */
  method SearchOrder(entries0: Placed, ghost xs: seq<Elem>, rank: int, maxLen: nat, ghost e: Elem) returns (entries: Placed)
    requires rank != 0 && entries0 == Between(xs, 0, |xs|)
    ensures Hits(entries, e) == Found(xs, e, rank, maxLen)
  {
    hide Hits, Between;
    entries := entries0;
    ghost var m := Reach(|xs|, maxLen);
    if maxLen > 0 {
      if rank < 0 {
        var skip := if |entries| > maxLen then |entries| - maxLen else 0;
        entries := entries[skip..];
      } else if maxLen < |entries| {
        entries := entries[..maxLen];
      }
    }
    BetweenPart(xs, m);
    if rank < 0 {
      HitsReversed(entries, e);
      entries := Reversed(entries);
    }
  }

  lemma BetweenPart(xs: seq<Elem>, m: nat)
    requires m <= |xs|
    ensures Between(xs, 0, |xs|)[..m] == Between(xs, 0, m)
    ensures Between(xs, 0, |xs|)[|xs| - m..] == Between(xs, |xs| - m, |xs|)
    ensures m == |xs| ==> Between(xs, |xs| - m, |xs|) == Between(xs, 0, m)
  {
  }

  /** LPOS key element [RANK r] [COUNT c] [MAXLEN m]. */
  method Lpos(d: Db, key: Key, e: Elem, rank: int, count: Option<int>, maxLen: int, now: nat) returns (reply: PosReply)
    requires d.Valid()
    modifies d
    ensures d.Valid() && SameElsewhere(old(d.store), d.store, key)
    ensures d.See(key, now) == old(d.See(key, now))
    ensures reply == PosSpec(old(d.See(key, now)), e, rank, count, maxLen)
  {
    hide Hits, Between, Found, Items;
    if rank == 0 {
      return ZeroRank;
    }
    if count.Some? && count.value < 0 {
      return NegativeCount;
    }
    if maxLen < 0 {
      return NegativeMaxLen;
    }
    var st := d.Resolve(key, now);
    match st {
      case Missing =>
        return if count.Some? then Positions([]) else Null;
      case WrongType =>
        return PosReply.WrongKind;
      case Present(m) =>
        var f := At(d.store, key);
        var ls := CollectSide(f.left, true, m.lNext - m.lCount, m.lNext);
        var rs := CollectSide(f.right, false, m.rNext - m.rCount, m.rNext);
        SidesAreItems(m, f.left, f.right, ls, rs);
        var entries := Enumerate(ls, rs);
        ghost var xs := ElemsOf(ls) + ElemsOf(rs);
        entries := SearchOrder(entries, xs, rank, maxLen, e);
        var picked := Pick(entries, e, Abs(rank) - 1, Wanted(count));
        reply := Answer(picked, count);
    }
  }
}
