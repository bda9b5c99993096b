/** What the list commands do to a plain sequence, command by command. */
module ListLaws {
  import opened Bytes
  import opened ListStore
  import opened ListSpec
  import opened ListRewrite
  import opened ListDb
  import opened ListEnds
  import opened ListTrim
  import opened ListInsert
  import opened ListMove
  import ListPos

  // ---- pushes and pops ----

  lemma OneReversed(e: Elem)
    ensures Reversed([e]) == [e]
  {
  }

  /** A push puts one element at its end of a list, starts a list where none is, and spares other types. */
  lemma PushOneMeaning(v: View, e: Elem, left: bool, create: bool)
    ensures PushSpec(v, [e], left, create) ==
            match v
            case OtherType => (v, Reply.WrongKind)
            case Absent => if create then (List([e], 0), Count(1)) else (v, Count(0))
            case List(xs, deadline) => (List(if left then [e] + xs else xs + [e], deadline), Count(|xs| + 1))
  {
    OneReversed(e);
    assert [e] + [] == [e] && [] + [e] == [e];
  }

  /** Pushing several elements is pushing them one after the other. */
  lemma PushOneByOne(v: View, es: seq<Elem>, e: Elem, left: bool, create: bool)
    ensures PushSpec(v, es + [e], left, create) == PushSpec(PushSpec(v, es, left, create).0, [e], left, create)
  {
    OneReversed(e);
    assert Reversed(es + [e]) == [e] + Reversed(es);
    var xs := if v.List? then v.elems else [];
    assert Pushed(xs, es + [e], left) == Pushed(Pushed(xs, es, left), [e], left);
  }

  /** A pop takes the element at its end; the last one takes the key with it. */
  lemma PopOneMeaning(xs: seq<Elem>, deadline: nat, left: bool)
    requires xs != []
    ensures PopSpec(Absent, left, None) == (Absent, Some([])) && PopSpec(OtherType, left, None) == (OtherType, None)
    ensures var (rest, popped) := PopSpec(List(xs, deadline), left, None);
            && popped == Some([if left then xs[0] else xs[|xs| - 1]])
            && rest == if |xs| == 1 then Absent
                       else List(if left then xs[1..] else xs[..|xs| - 1], deadline)
  {
    TakeOne(xs, left);
  }

  /** Popping several elements is popping them one after the other. */
  lemma PopOneByOne(v: View, n: nat, left: bool)
    requires v.List? && v.elems != []
    ensures PopSpec(v, left, Some(0)) == (v, Some([]))
    ensures var (v1, first) := PopSpec(v, left, None);
            var (v2, more) := PopSpec(v1, left, Some(n));
            PopSpec(v, left, Some(n + 1)) == (v2, Some(first.value + more.value))
  {
    hide Taken, Remaining;
    var xs := v.elems;
    var m := if n + 1 < |xs| then n + 1 else |xs|;
    TakeNone(xs, left);
    TakeMore(xs, m, left);
    if m == 1 {
      TakeNone(Remaining(xs, left, 1), left);
    }
  }

  lemma TakeMore(xs: seq<Elem>, m: nat, left: bool)
    requires 0 < m <= |xs|
    ensures |Remaining(xs, left, 1)| == |xs| - 1
    ensures Taken(xs, left, m) == Taken(xs, left, 1) + Taken(Remaining(xs, left, 1), left, m - 1)
    ensures Remaining(xs, left, m) == Remaining(Remaining(xs, left, 1), left, m - 1)
  {
    var n := |xs|;
    if left {
      assert xs[..m] == xs[..1] + xs[1..][..m - 1];
    } else {
      var rest := xs[..n - 1];
      assert xs[n - m..] == rest[n - m..] + [xs[n - 1]];
      assert rest[n - 1 - (m - 1)..] == rest[n - m..];
    }
  }

  // ---- LMOVE ----

  /** A move between two lists takes from one end of the source and puts at one end of the destination. */
  lemma MoveMeaning(xs: seq<Elem>, deadline: nat, dst: View, popLeft: bool, pushLeft: bool)
    requires xs != [] && !dst.OtherType?
    ensures var (src', dst', reply) := MoveSpec(List(xs, deadline), dst, false, popLeft, pushLeft);
            var x := if popLeft then xs[0] else xs[|xs| - 1];
            && reply == Bulk(x)
            && src' == (if |xs| == 1 then Absent else List(if popLeft then xs[1..] else xs[..|xs| - 1], deadline))
            && (dst.Absent? ==> dst' == List([x], 0))
            && (dst.List? ==> dst' == List(if pushLeft then [x] + dst.elems else dst.elems + [x], dst.expire))
  {
    TakeOne(xs, popLeft);
    PushOneMeaning(dst, if popLeft then xs[0] else xs[|xs| - 1], pushLeft, true);
  }

  /** Without a source, or with another type on either side, nothing moves. */
  lemma MoveRefused(src: View, dst: View, same: bool, popLeft: bool, pushLeft: bool)
    requires src.List? ==> src.elems != [] && dst.OtherType?
    ensures MoveSpec(src, dst, same, popLeft, pushLeft) ==
            (src, dst, if src.Absent? then Nil else Reply.WrongKind)
  {
  }

  // ---- LREM ----

  /** Everything but the copies of `e`. */
  function Except(xs: seq<Elem>, e: Elem): seq<Elem> {
    if xs == [] then [] else (if xs[0] == e then [] else [xs[0]]) + Except(xs[1..], e)
  }

  lemma {:induction false} ExceptPush(xs: seq<Elem>, x: Elem, e: Elem)
    ensures Except(xs + [x], e) == Except(xs, e) + if x == e then [] else [x]
    decreases |xs|
  {
    if xs == [] {
      assert [x][1..] == [] && [] + [x] == [x];
    } else {
      assert (xs + [x])[1..] == xs[1..] + [x];
      ExceptPush(xs[1..], x, e);
    }
  }

  function Copies(xs: seq<Elem>, e: Elem): nat {
    multiset(xs)[e]
  }

  lemma CopiesCons(xs: seq<Elem>, e: Elem)
    requires xs != []
    ensures Copies(xs, e) == Copies(xs[1..], e) + if xs[0] == e then 1 else 0
    ensures Copies(xs, e) == Copies(xs[..|xs| - 1], e) + if xs[|xs| - 1] == e then 1 else 0
  {
    assert xs == [xs[0]] + xs[1..] && xs == xs[..|xs| - 1] + [xs[|xs| - 1]];
  }

  /** The first `n` copies are those up to any cut with `n` of them in front. */
  lemma {:induction false} FirstGone(xs: seq<Elem>, e: Elem, n: nat, cut: nat)
    requires cut <= |xs| && (Copies(xs[..cut], e) == n || (cut == |xs| && Copies(xs, e) <= n))
    ensures RemoveFirst(xs, e, n) == Except(xs[..cut], e) + xs[cut..]
    decreases |xs|
  {
    hide Copies;
    if cut == 0 {
      assert Copies([], e) == 0 by { NoCopies(e); }
      assert xs[..0] == [] && xs == [] + xs[0..];
      if n == 0 {
        NoBudgetForward(xs, e, 0);
      }
    } else {
      hide Except, RemoveFirst;
      var rest := xs[1..];
      CopiesCons(xs, e);
      CopiesCons(xs[..cut], e);
      assert xs[..cut][1..] == rest[..cut - 1] && rest[cut - 1..] == xs[cut..];
      assert cut == |xs| ==> xs[..cut] == xs;
      FirstGone(rest, e, if xs[0] == e then n - 1 else n, cut - 1);
      assert RemoveFirst(xs, e, n) == (if xs[0] == e then [] else [xs[0]]) + RemoveFirst(rest, e, if xs[0] == e then n - 1 else n)
             && Except(xs[..cut], e) == (if xs[0] == e then [] else [xs[0]]) + Except(rest[..cut - 1], e) by {
        Unfolded(xs, e, n, cut);
      }
    }
  }

  lemma Unfolded(xs: seq<Elem>, e: Elem, n: nat, cut: nat)
    requires 0 < cut <= |xs| && (xs[0] == e ==> n > 0)
    ensures RemoveFirst(xs, e, n) ==
            (if xs[0] == e then [] else [xs[0]]) + RemoveFirst(xs[1..], e, if xs[0] == e then n - 1 else n)
    ensures Except(xs[..cut], e) == (if xs[0] == e then [] else [xs[0]]) + Except(xs[1..][..cut - 1], e)
  {
    assert xs[..cut][1..] == xs[1..][..cut - 1];
  }

  lemma NoCopies(e: Elem)
    ensures Copies([], e) == 0
  {
  }

  /** The last `n` copies are those from any cut with `n` of them behind. */
  lemma {:induction false} LastGone(xs: seq<Elem>, e: Elem, n: nat, cut: nat)
    requires cut <= |xs| && (Copies(xs[cut..], e) == n || (cut == 0 && Copies(xs, e) <= n))
    ensures RemoveLast(xs, e, n) == xs[..cut] + Except(xs[cut..], e)
    decreases |xs|
  {
    hide Copies;
    var k := |xs| - 1;
    if cut == |xs| {
      assert Copies([], e) == 0 by { NoCopies(e); }
      assert xs[cut..] == [] && xs[..cut] + [] == xs;
      if n == 0 {
        NoBudgetBackward(xs, e);
      }
    } else {
      hide Except, RemoveLast;
      CopiesCons(xs, e);
      CopiesCons(xs[cut..], e);
      var rest, last := xs[..k], xs[k];
      var m := if last == e then n - 1 else n;
      var tail := if last == e then [] else [last];
      assert xs[cut..][..|xs[cut..]| - 1] == rest[cut..] && rest[..cut] == xs[..cut];
      assert cut == 0 ==> xs[cut..] == xs && rest[cut..] == rest;
      LastGone(rest, e, m, cut);
      ExceptPush(rest[cut..], last, e);
      assert xs[cut..] == rest[cut..] + [last];
      assert RemoveLast(xs, e, n) == RemoveLast(rest, e, m) + tail by { UnfoldedLast(xs, e, n); }
    }
  }

  lemma UnfoldedLast(xs: seq<Elem>, e: Elem, n: nat)
    requires xs != [] && (xs[|xs| - 1] == e ==> n > 0)
    ensures var last := xs[|xs| - 1];
            RemoveLast(xs, e, n) ==
            RemoveLast(xs[..|xs| - 1], e, if last == e then n - 1 else n) + if last == e then [] else [last]
  {
  }

  lemma {:induction false} RemovedCount(xs: seq<Elem>, e: Elem, n: nat)
    ensures |RemoveFirst(xs, e, n)| == |xs| - if Copies(xs, e) <= n then Copies(xs, e) else n
    ensures |RemoveLast(xs, e, n)| == |xs| - if Copies(xs, e) <= n then Copies(xs, e) else n
    decreases |xs|
  {
    hide Copies;
    if xs == [] {
      NoCopies(e);
    } else {
      CopiesCons(xs, e);
      var k := |xs| - 1;
      RemovedCount(xs[1..], e, if xs[0] == e && n > 0 then n - 1 else n);
      RemovedCount(xs[..k], e, if xs[k] == e && n > 0 then n - 1 else n);
    }
  }

  /**
   * LREM with a positive count clears the copies in front of a cut, with a negative one those behind
   * it, the cut having as many on that side as the count says; with 0, or too few, every copy goes.
   */
  lemma RemMeaning(xs: seq<Elem>, deadline: nat, e: Elem, cnt: int, cut: nat)
    requires cut <= |xs| <= U64_MAX
    ensures var (v, reply) := RemSpec(List(xs, deadline), e, cnt);
            var ys := if v.List? then v.elems else [];
            var limit := if cnt < 0 then -cnt else cnt;
            var all := cnt == 0 || Copies(xs, e) <= limit;
            && !v.OtherType? && (v.List? ==> v.expire == deadline && v.elems != [])
            && reply == Count(if all then Copies(xs, e) else limit)
            && (all ==> ys == Except(xs, e))
            && (cnt > 0 && Copies(xs[..cut], e) == cnt ==> ys == Except(xs[..cut], e) + xs[cut..])
            && (cnt < 0 && Copies(xs[cut..], e) == -cnt ==> ys == xs[..cut] + Except(xs[cut..], e))
  {
    hide Except, RemoveFirst, RemoveLast;
    assert Copies(xs, e) <= |multiset(xs)| == |xs|;
    hide Copies;
    var limit := if cnt < 0 then -cnt else if cnt == 0 then U64_MAX else cnt;
    RemovedCount(xs, e, limit);
    assert xs[..|xs|] == xs && xs[|xs|..] == [] && xs[0..] == xs && xs[..0] == [];
    if Copies(xs, e) <= limit {
      FirstGone(xs, e, limit, |xs|);
      LastGone(xs, e, limit, 0);
      assert Except(xs, e) + [] == Except(xs, e) && [] + Except(xs, e) == Except(xs, e);
    }
    if cnt > 0 && Copies(xs[..cut], e) == cnt {
      FirstGone(xs, e, cnt, cut);
    }
    if cnt < 0 && Copies(xs[cut..], e) == -cnt {
      LastGone(xs, e, -cnt, cut);
    }
  }

  // ---- LTRIM ----

  /** The stretch between two positions, each counted from the back when negative, cut to the list. */
  lemma SlicedMeaning<T>(xs: seq<T>, start: int, stop: int)
    requires |xs| <= I64_MAX
    ensures var a, b := if start < 0 then |xs| + start else start, if stop < 0 then |xs| + stop else stop;
            var lo, hi := if a < 0 then 0 else a, if b < |xs| then b else |xs| - 1;
            Sliced(xs, start, stop) == if lo <= hi then xs[lo..hi + 1] else []
  {
  }

  /** LTRIM keeps that stretch; an empty one takes the key with it. */
  lemma TrimMeaning(xs: seq<Elem>, deadline: nat, start: int, stop: int)
    requires |xs| <= I64_MAX
    ensures var kept := Sliced(xs, start, stop);
            TrimSpec(List(xs, deadline), start, stop) == (if kept == [] then Absent else List(kept, deadline), Done)
    ensures TrimSpec(Absent, start, stop) == (Absent, Done)
    ensures TrimSpec(OtherType, start, stop) == (OtherType, Reply.WrongKind)
  {
  }

  // ---- LINSERT and LSET ----

  lemma {:induction false} FirstAtIs(a: seq<Elem>, pivot: Elem, b: seq<Elem>)
    requires pivot !in a
    ensures FirstAt(a + [pivot] + b, pivot) == Some(|a|)
    decreases |a|
  {
    if a != [] {
      assert (a + [pivot] + b)[1..] == a[1..] + [pivot] + b;
      FirstAtIs(a[1..], pivot, b);
    }
  }

  /** LINSERT puts the element right before or right after the first pivot. */
  lemma InsertMeaning(a: seq<Elem>, pivot: Elem, b: seq<Elem>, deadline: nat, before: bool, e: Elem)
    requires pivot !in a
    ensures InsertSpec(List(a + [pivot] + b, deadline), before, pivot, e) ==
            (List(a + (if before then [e, pivot] else [pivot, e]) + b, deadline), Count(|a| + |b| + 2))
  {
    var xs := a + [pivot] + b;
    var p := |a|;
    FirstAtIs(a, pivot, b);
    assert xs[..p] == a && xs[..p + 1] == a + [pivot] && xs[p..] == [pivot] + b && xs[p + 1..] == b;
    assert Inserted(xs, p, e) == a + [e, pivot] + b;
    assert Inserted(xs, p + 1, e) == a + [pivot, e] + b;
  }

  /** Without a pivot LINSERT changes nothing. */
  lemma InsertMisses(v: View, before: bool, pivot: Elem, e: Elem)
    requires v.List? ==> pivot !in v.elems
    ensures InsertSpec(v, before, pivot, e) ==
            (v, if v.Absent? then Count(0) else if v.OtherType? then Reply.WrongKind else Count(-1))
  {
  }

  /** LSET replaces one element, found from the front at a position or from the back at a negative one. */
  lemma SetMeaning(a: seq<Elem>, x: Elem, b: seq<Elem>, deadline: nat, e: Elem, index: int)
    ensures index == |a| || index == -1 - |b| ==>
              ListMove.SetSpec(List(a + [x] + b, deadline), index, e) == (List(a + [e] + b, deadline), Done)
    ensures index > |a| + |b| || index < -1 - |a| - |b| ==>
              ListMove.SetSpec(List(a + [x] + b, deadline), index, e) == (List(a + [x] + b, deadline), BadIndex)
  {
    var xs := a + [x] + b;
    var p := if index < 0 then |xs| + index else index;
    assert xs[|a| := e] == a + [e] + b;
    assert index == |a| || index == -1 - |b| ==> p == |a|;
  }

  // ---- LPOS ----

  /** Hits are numbered by how many copies there are up to them. */
  lemma {:induction false} HitsOrdinal(xs: seq<Elem>, e: Elem, lo: nat, hi: nat)
    requires lo <= hi <= |xs|
    ensures var ps := ListPos.Hits(ListPos.Between(xs, lo, hi), e);
            && |ps| == Copies(xs[lo..hi], e)
            && forall j :: 0 <= j < |ps| ==> lo <= ps[j] < hi && xs[ps[j]] == e && Copies(xs[lo..ps[j] + 1], e) == j + 1
    decreases hi - lo
  {
    hide Copies, ListPos.Hits, ListPos.Between;
    if lo == hi {
      assert ListPos.Between(xs, lo, hi) == [] && xs[lo..hi] == [];
      NoCopies(e);
      ListPos.HitsNone([], e);
    } else {
      HitsOrdinal(xs, e, lo, hi - 1);
      ListPos.BetweenPush(xs, e, lo, hi);
      CopiesCons(xs[lo..hi], e);
      assert xs[lo..hi][..hi - lo - 1] == xs[lo..hi - 1];
    }
  }

  /** Which copy the one at `p` is, counted from the end the search starts at. */
  ghost function Ordinal(xs: seq<Elem>, e: Elem, rank: int, p: nat): nat
    requires p < |xs|
  {
    if rank > 0 then Copies(xs[..p + 1], e) else Copies(xs[p..], e)
  }

  /** MAXLEN entries from that end are looked at, all of them for 0. */
  predicate Seen(len: nat, rank: int, maxLen: nat, p: nat) {
    p < len && (maxLen == 0 || if rank > 0 then p < maxLen else len <= p + maxLen)
  }

  /** `ps` are the seen copies in search order: the i-th is copy number i + 1. */
  ghost predicate InSearchOrder(xs: seq<Elem>, e: Elem, rank: int, maxLen: nat, ps: seq<nat>) {
    && (forall i :: 0 <= i < |ps| ==> ps[i] < |xs| && Ordinal(xs, e, rank, ps[i]) == i + 1)
    && (forall p: nat :: p in ps <==> Seen(|xs|, rank, maxLen, p) && xs[p] == e)
  }

  lemma FoundOrdinal(xs: seq<Elem>, e: Elem, rank: int, maxLen: nat)
    requires rank != 0
    ensures InSearchOrder(xs, e, rank, maxLen, ListPos.Found(xs, e, rank, maxLen))
  {
    hide InSearchOrder, ListPos.Hits, ListPos.Between;
    if rank > 0 {
      FromHead(xs, e, rank, maxLen);
    } else {
      FromTail(xs, e, rank, maxLen);
    }
  }

  lemma FromHead(xs: seq<Elem>, e: Elem, rank: int, maxLen: nat)
    requires rank > 0
    ensures InSearchOrder(xs, e, rank, maxLen, ListPos.Hits(ListPos.Between(xs, 0, ListPos.Reach(|xs|, maxLen)), e))
  {
    hide Copies, ListPos.Hits, ListPos.Between;
    var m := ListPos.Reach(|xs|, maxLen);
    var ps := ListPos.Hits(ListPos.Between(xs, 0, m), e);
    HitsOrdinal(xs, e, 0, m);
    forall p: nat ensures p in ps <==> Seen(|xs|, rank, maxLen, p) && xs[p] == e {
      ListPos.HitsAreMatches(xs, e, 0, m, p);
    }
    forall i | 0 <= i < |ps| ensures Ordinal(xs, e, rank, ps[i]) == i + 1 {
      assert xs[0..ps[i] + 1] == xs[..ps[i] + 1];
    }
  }

  lemma FromTail(xs: seq<Elem>, e: Elem, rank: int, maxLen: nat)
    requires rank < 0
    ensures var lo := |xs| - ListPos.Reach(|xs|, maxLen);
            InSearchOrder(xs, e, rank, maxLen, Reversed(ListPos.Hits(ListPos.Between(xs, lo, |xs|), e)))
  {
    hide Copies, Ordinal, Reversed, ListPos.Hits, ListPos.Between;
    var lo := |xs| - ListPos.Reach(|xs|, maxLen);
    var ps := ListPos.Hits(ListPos.Between(xs, lo, |xs|), e);
    HitsOrdinal(xs, e, lo, |xs|);
    SameEntries(ps);
    var back := Reversed(ps);
    forall p: nat ensures p in back <==> Seen(|xs|, rank, maxLen, p) && xs[p] == e {
      ListPos.HitsAreMatches(xs, e, lo, |xs|, p);
      SeenFromTail(|xs|, rank, maxLen, p);
    }
    forall i | 0 <= i < |back| ensures back[i] < |xs| && Ordinal(xs, e, rank, back[i]) == i + 1 {
      TailOrdinal(xs, e, rank, lo, ps, |ps| - 1 - i);
    }
  }

  lemma SeenFromTail(len: nat, rank: int, maxLen: nat, p: nat)
    requires rank < 0
    ensures Seen(len, rank, maxLen, p) <==> len - ListPos.Reach(len, maxLen) <= p < len
  {
  }

  lemma TailOrdinal(xs: seq<Elem>, e: Elem, rank: int, lo: nat, ps: seq<nat>, j: nat)
    requires rank < 0 && lo <= |xs| && j < |ps| == Copies(xs[lo..|xs|], e) && lo <= ps[j] < |xs|
    requires xs[ps[j]] == e && Copies(xs[lo..ps[j] + 1], e) == j + 1
    ensures Ordinal(xs, e, rank, ps[j]) == |ps| - j
  {
    hide Copies;
    SplitCopies(xs, e, lo, ps[j]);
  }

  lemma SameEntries(ps: seq<nat>)
    ensures forall p :: p in Reversed(ps) <==> p in ps
  {
    forall p | p in ps ensures p in Reversed(ps) {
      var i :| 0 <= i < |ps| && ps[i] == p;
      assert Reversed(ps)[|ps| - 1 - i] == p;
    }
  }

  lemma SplitCopies(xs: seq<Elem>, e: Elem, lo: nat, p: nat)
    requires lo <= p < |xs| && xs[p] == e
    ensures Copies(xs[lo..|xs|], e) == Copies(xs[lo..p + 1], e) - 1 + Copies(xs[p..], e)
  {
    CopiesCons(xs[lo..p + 1], e);
    assert xs[lo..p + 1][..p - lo] == xs[lo..p];
    assert xs[lo..|xs|] == xs[lo..p] + xs[p..];
  }

  /** The copies an LPOS call is about: from copy number |rank| on, one without COUNT, all for COUNT 0. */
  ghost predicate Chosen(xs: seq<Elem>, e: Elem, rank: int, count: Option<int>, maxLen: nat, p: nat) {
    && Seen(|xs|, rank, maxLen, p) && xs[p] == e
    && var nth, first := Ordinal(xs, e, rank, p), if rank < 0 then -rank else rank;
       && first <= nth
       && (count.None? ==> nth == first)
       && (count.Some? && count.value > 0 ==> nth < first + count.value)
  }

  /** Copies in search order, from number |rank| on. */
  ghost predicate Numbered(xs: seq<Elem>, e: Elem, rank: int, ps: seq<nat>) {
    forall i :: 0 <= i < |ps| ==>
                  ps[i] < |xs| && Ordinal(xs, e, rank, ps[i]) == i + if rank < 0 then -rank else rank
  }

  /** LPOS returns the positions of exactly those copies, in search order. */
  lemma PosMeaning(xs: seq<Elem>, deadline: nat, e: Elem, rank: int, count: Option<int>, maxLen: nat)
    requires rank != 0 && (count.Some? ==> count.value >= 0)
    ensures var reply := ListPos.PosSpec(List(xs, deadline), e, rank, count, maxLen);
            if count.Some? then
              && reply.Positions?
              && (forall p :: p in reply.all <==> Chosen(xs, e, rank, count, maxLen, p))
              && Numbered(xs, e, rank, reply.all)
            else if reply == ListPos.Null then forall p :: !Chosen(xs, e, rank, count, maxLen, p)
            else reply.Position? && Chosen(xs, e, rank, count, maxLen, reply.at)
  {
    hide Ordinal, Chosen, Seen, Numbered, InSearchOrder, ListPos.Found, ListPos.Take, ListPos.Drop;
    FoundOrdinal(xs, e, rank, maxLen);
    var ps := ListPos.Found(xs, e, rank, maxLen);
    var first := if rank < 0 then -rank else rank;
    var picked := ListPos.Take(ListPos.Drop(ps, first - 1), ListPos.Wanted(count));
    PickedAre(xs, e, rank, count, maxLen, ps, picked);
  }

  lemma PickedAre(xs: seq<Elem>, e: Elem, rank: int, count: Option<int>, maxLen: nat, ps: seq<nat>, picked: seq<nat>)
    requires rank != 0 && (count.Some? ==> count.value >= 0)
    requires InSearchOrder(xs, e, rank, maxLen, ps)
    requires picked == ListPos.Take(ListPos.Drop(ps, ListPos.Abs(rank) - 1), ListPos.Wanted(count))
    ensures forall p :: p in picked <==> Chosen(xs, e, rank, count, maxLen, p)
    ensures Numbered(xs, e, rank, picked)
  {
    hide Ordinal, Seen;
    var skip := ListPos.Abs(rank) - 1;
    assert forall i :: 0 <= i < |picked| ==> picked[i] == ps[skip + i];
    forall p: nat | Chosen(xs, e, rank, count, maxLen, p) ensures p in picked {
      var i :| 0 <= i < |ps| && ps[i] == p;
      assert picked[i - skip] == p;
    }
  }

  /** What LPOS refuses, and what it says of a key without a list. */
  lemma PosRefused(v: View, e: Elem, rank: int, count: Option<int>, maxLen: int)
    ensures rank == 0 ==> ListPos.PosSpec(v, e, rank, count, maxLen) == ListPos.ZeroRank
    ensures rank != 0 && count.Some? && count.value < 0 ==>
              ListPos.PosSpec(v, e, rank, count, maxLen) == ListPos.NegativeCount
    ensures rank != 0 && !(count.Some? && count.value < 0) && maxLen < 0 ==>
              ListPos.PosSpec(v, e, rank, count, maxLen) == ListPos.NegativeMaxLen
    ensures rank != 0 && !(count.Some? && count.value < 0) && maxLen >= 0 ==>
              && (v.OtherType? ==> ListPos.PosSpec(v, e, rank, count, maxLen) == ListPos.WrongKind)
              && (v.Absent? ==> ListPos.PosSpec(v, e, rank, count, maxLen) ==
                                if count.Some? then ListPos.Positions([]) else ListPos.Null)
  {
  }
}
