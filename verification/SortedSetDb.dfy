/** The sorted-set commands on one key. */
module SortedSetDb {
  import opened Bytes
  import opened Order
  import opened SortedIndex
  import opened SortedSet
  import ListSpec
  import ListTrim

  datatype Reply = WrongArity | Incompatible | Count(n: nat) | Null | NotANumber | NewScore(score: Score)

  /** The members named by the arguments. */
  function Named(args: seq<Member>): set<Member> {
    set m | m in args
  }

  /** The members of some entries. */
  ghost function MembersOf(items: seq<Item>): set<Member> {
    set x | x in items :: x.member
  }

  /** The named members that are stored. */
  ghost function Taken(s: Shape, members: seq<Member>): set<Member> {
    Named(members) * s.members.Keys
  }

  lemma TakenPush(s: Shape, members: seq<Member>, i: nat)
    requires i < |members|
    requires forall i, j :: 0 <= i < j < |members| ==> members[i] != members[j]
    ensures Taken(s, members[..i + 1]) ==
            if members[i] in s.members then Taken(s, members[..i]) + {members[i]} else Taken(s, members[..i])
    ensures members[i] !in Taken(s, members[..i])
  {
    assert members[..i + 1] == members[..i] + [members[i]];
  }

  lemma MembersPush(items: seq<Item>, i: nat)
    requires i < |items|
    ensures MembersOf(items[..i + 1]) == MembersOf(items[..i]) + {items[i].member}
  {
    assert items[..i + 1] == items[..i] + [items[i]];
  }

  lemma NoMembers(s: Shape)
    ensures MembersOf([]) == {} && Taken(s, []) == {}
  {
  }

  /** What removing `gone` leaves. */
  ghost predicate Removed(s: Shape, t: Shape, gone: set<Member>) {
    && t.meta == s.meta
    && t.members == s.members - gone
    && Indexed(t.members, t.index, {})
  }

  lemma RemovedOne(s: Shape, t: Shape, gone: set<Member>, m: Member)
    requires Removed(s, t, gone) && m in s.members && m !in gone
    ensures Removed(s, ApplyOp(ApplyOp(t, DelMember(m)), DelScored(s.members[m], m)), gone + {m})
  {
    DeleteKeepsIndexed(t.members, t.index, m);
    assert s.members - (gone + {m}) == t.members - {m};
  }

  lemma RemovedCount(members: Members, gone: set<Member>, m: Member)
    requires m in members && m !in gone
    ensures |members - gone| == |members - (gone + {m})| + 1
  {
    assert (members - gone).Keys == (members - (gone + {m})).Keys + {m};
  }

  /** Both records of one more member deleted. */
  lemma RemoveStep(s: Shape, batch: seq<Op>, gone: set<Member>, m: Member)
    requires Removed(s, Run(s, batch), gone) && m in s.members && m !in gone
    ensures Removed(s, Run(s, batch + [DelMember(m)] + [DelScored(s.members[m], m)]), gone + {m})
    ensures |s.members - gone| == |s.members - (gone + {m})| + 1
  {
    hide Removed, Run, ApplyOp;
    RemovedOne(s, Run(s, batch), gone, m);
    RemovedCount(s.members, gone, m);
    RunPush(s, batch, DelMember(m));
    RunPush(s, batch + [DelMember(m)], DelScored(s.members[m], m));
  }

  lemma NoneRemoved(s: Shape)
    requires Ok(s)
    ensures Removed(s, Run(s, []), {}) && s.members - {} == s.members
  {
    assert s.members - {} == s.members;
  }

  /** The commit after a removal: the counter, or nothing at all when no member is left. */
  lemma RemovalSettles(s: Shape, t: Shape, gone: set<Member>, expire: nat, count: nat)
    requires Removed(s, t, gone) && count == |s.members - gone|
    ensures var u := if count == 0 then NOTHING else t.(meta := Some(Meta(expire, count)));
            Ok(u) && u.members == s.members - gone && u.index == t.index
  {
    EmptyMembers(s.members - gone);
    if count == 0 {
      IndexCounts(t.members, t.index);
    }
  }

  lemma EmptyMembers(members: Members)
    ensures |members| == 0 <==> members == map[]
  {
    assert |members.Keys| == |members|;
  }

  class ZSet {
    var shape: Shape

    ghost predicate Valid()
      reads this
    {
      Ok(shape)
    }

    constructor ()
      ensures Valid() && shape.members == map[]
    {
      shape := NOTHING;
    }

    /** The batch, then the counter: an empty set loses every record. */
    method Commit(expire: nat, count: nat, batch: seq<Op>)
      modifies this
      ensures var t := Run(old(shape), batch);
              shape == if count == 0 then NOTHING else t.(meta := Some(Meta(expire, count)))
    {
      hide Run;
      RunPush(shape, batch, DropFamily);
      RunPush(shape, batch, PutMeta(Meta(expire, count)));
      if count == 0 {
        shape := Run(shape, batch + [DropFamily]);
      } else {
        shape := Run(shape, batch + [PutMeta(Meta(expire, count))]);
      }
    }

    function Expire(): nat
      reads this
    {
      if shape.meta.Some? then shape.meta.value.expire else 0
    }

    function Base(): nat
      reads this
    {
      if shape.meta.Some? then shape.meta.value.count else 0
    }

    /**
     * ZADD. The members become the left fold of the pairs, the reply is the growth (with CH the number
     * of pairs that took effect), and the score records are those of the members plus the stale ones.
     */
    method Add(f: Flags, ch: bool, pairs: seq<(Score, Member)>) returns (reply: Reply)
      requires Valid()
      modifies this
      ensures pairs == [] ==> reply == WrongArity
      ensures pairs != [] && Conflicting(f) ==> reply == Incompatible
      ensures pairs == [] || Conflicting(f) ==> shape == old(shape)
      ensures pairs != [] && !Conflicting(f) ==>
                && shape.members == AddAll(old(shape).members, f, pairs)
                && Indexed(shape.members, shape.index, Stale(old(shape).members, f, pairs))
                && Base() == |shape.members| && Expire() == old(Expire())
                && reply.Count?
                && reply.n == (if ch then Changes(old(shape).members, f, pairs)
                               else |shape.members| - |old(shape).members|)
                && (Valid() <==> LeavesNothing(old(shape).members, f, pairs))
    {
      hide Indexed, Stale, Pending, AddAll, Changes, Passes, Added, Run, NumEq, NumLess, LeavesNothing;
      if pairs == [] {
        return WrongArity;
      }
      if Conflicting(f) {
        return Incompatible;
      }
      ghost var s := shape;
      var base := Base();
      var batch: seq<Op>, pending: Members := [], map[];
      var count, added, changed := base, 0, 0;
      var i := 0;
      assert pairs[..0] == [];
      NothingAdded(s, f);
      NothingFolded(s.members, f);
      EmptyMembers(s.members);
      while i < |pairs|
        invariant 0 <= i <= |pairs| && shape == s
        invariant Added(s, f, pairs[..i], batch, pending)
        invariant count == |AddAll(s.members, f, pairs[..i])| == |s.members| + added
        invariant changed == Changes(s.members, f, pairs[..i]) && added <= changed
      {
        var (score, m) := pairs[i];
        assert pairs[..i] + [pairs[i]] == pairs[..i + 1];
        var was := Effective(shape.members, pending, m);
        var ok := Admits(f, was, score);
        if !ok {
          AddedSkip(s, f, pairs[..i], pairs[i], batch, pending);
        } else if was.Some? && NumEq(was.value, score) {
          AddedSkip(s, f, pairs[..i], pairs[i], batch, pending);
          pending := pending[m := score];
        } else if was.Some? {
          AddedMoved(s, f, pairs[..i], pairs[i], batch, pending);
          batch := batch + [DelScored(was.value, m), PutMember(m, score), PutScored(score, m)];
          pending := pending[m := score];
          changed := changed + 1;
        } else {
          AddedNew(s, f, pairs[..i], pairs[i], batch, pending);
          batch := batch + [PutMember(m, score), PutScored(score, m)];
          pending := pending[m := score];
          added, changed, count := added + 1, changed + 1, count + 1;
        }
        i := i + 1;
      }
      assert pairs[..i] == pairs;
      NothingStaleIff(s.members, f, pairs);
      if added + changed == 0 {
        NoChangeNoStale(s.members, f, pairs);
        return Count(0);
      }
      SomeMember(s.members, f, pairs);
      AddedParts(s, f, pairs, batch, pending);
      Commit(Expire(), count, batch);
      StaleBreaks(shape, Stale(s.members, f, pairs));
      reply := Count(if ch then changed else added);
    }

    /** ZADD INCR: one member moves by `delta`, unless the flags or a NaN sum veto it. */
    method AddIncr(f: Flags, delta: Score, m: Member, plus: (Score, Score) -> Option<Score>) returns (reply: Reply)
      requires Valid()
      modifies this
      ensures Valid()
      ensures var was := Get(old(shape).members, m);
              var sum := if was.Some? then plus(was.value, delta) else Some(delta);
              if (f.nx && was.Some?) || (f.xx && was.None?) then reply == Null && shape == old(shape)
              else if sum.None? then reply == NotANumber && shape == old(shape)
              else if was.Some? && ((f.gt && Number(sum.value) <= Number(was.value))
                                    || (f.lt && Number(was.value) <= Number(sum.value)))
              then reply == Null && shape == old(shape)
              else reply == NewScore(sum.value) && shape.members == old(shape).members[m := sum.value]
                   && Expire() == old(Expire())
    {
      hide Indexed, Run, NumEq, NumLess, Number;
      ghost var s := shape;
      var was := Get(shape.members, m);
      if (f.nx && was.Some?) || (f.xx && was.None?) {
        return Null;
      }
      var sum := if was.Some? then plus(was.value, delta) else Some(delta);
      if sum.None? {
        return NotANumber;
      }
      if was.Some? {
        NumberOrder(was.value, sum.value);
        NumberOrder(sum.value, was.value);
      }
      if was.Some? && ((f.gt && !NumLess(was.value, sum.value)) || (f.lt && !NumLess(sum.value, was.value))) {
        return Null;
      }
      var batch := if was.Some? then [DelScored(was.value, m)] else [];
      var count := Base() + if was.None? then 1 else 0;
      IncrBatch(s, m, sum.value);
      EmptyMembers(s.members);
      Commit(Expire(), count, batch + [PutMember(m, sum.value), PutScored(sum.value, m)]);
      reply := NewScore(sum.value);
    }

    /** ZINCRBY: the same without flags. */
    method IncrBy(delta: Score, m: Member, plus: (Score, Score) -> Option<Score>) returns (reply: Reply)
      requires Valid()
      modifies this
      ensures Valid()
      ensures var was := Get(old(shape).members, m);
              var sum := if was.Some? then plus(was.value, delta) else Some(delta);
              if sum.None? then reply == NotANumber && shape == old(shape)
              else reply == NewScore(sum.value) && shape.members == old(shape).members[m := sum.value]
                   && Expire() == old(Expire())
    {
      reply := AddIncr(Flags(false, false, false, false), delta, m, plus);
    }

    /** ZREM: exactly the named members go; each counts once. */
    method Rem(args: seq<Member>) returns (removed: nat)
      requires Valid()
      modifies this
      ensures Valid() && shape.members == old(shape).members - Named(args)
      ensures removed == |old(shape).members| - |shape.members|
      ensures shape.meta.Some? ==> Expire() == old(Expire())
    {
      hide Indexed, Run, ApplyOp, Removed;
      var members := Dedup(args);
      ghost var s := shape;
      EmptyMembers(s.members);
      removed := 0;
      if Base() == 0 {
        return;
      }
      var batch;
      batch, removed := DeleteNamed(shape, members);
      ghost var gone := Taken(s, members);
      assert s.members - gone == s.members - Named(args);
      if removed == 0 {
        SameSize(s.members, gone);
        return;
      }
      RemovalSettles(s, Run(s, batch), gone, Expire(), Base() - removed);
      Commit(Expire(), Base() - removed, batch);
    }

    /** ZPOPMIN / ZPOPMAX: the n extreme entries in order, leaving precisely the rest. */
    method Pop(n: nat, max: bool) returns (popped: seq<Item>)
      requires Valid()
      modifies this
      ensures Valid()
      ensures popped == Extremes(old(shape).index, n, max)
      ensures shape.index == Others(old(shape).index, n, max)
      ensures shape.members == old(shape).members - MembersOf(popped)
      ensures Extreme(popped, shape.index, max)
      ensures shape.meta.Some? ==> Expire() == old(Expire())
    {
      hide Ok, MembersOf, Extreme, Extremes, Others;
      ExtremesAre(shape, n, max);
      ghost var s := shape;
      IndexSize(s);
      NoMembers(s);
      if n == 0 || Base() == 0 {
        NothingPopped(s.index, n, max);
        assert s.members - {} == s.members;
        return [];
      }
      var window := Window(shape.index, n, max);
      ghost var lo := if max then |s.index| - |window| else 0;
      WindowIsExtreme(s.index, n, max, lo, lo + |window|);
      CommitPop(window, lo);
      popped := if max then ListSpec.Reversed(window) else window;
      SameElements(window, popped);
    }

    /** Both records of every entry of the window go, in one batch. */
    method CommitPop(window: seq<Item>, ghost lo: nat)
      requires Valid() && lo + |window| <= |shape.index| && window == shape.index[lo..lo + |window|]
      modifies this
      ensures Valid() && shape.index == old(shape).index[..lo] + old(shape).index[lo + |window|..]
      ensures shape.members == old(shape).members - MembersOf(window)
      ensures shape.meta.Some? ==> Expire() == old(Expire())
    {
      hide Run, ApplyOp, Removed, MembersOf;
      ghost var s := shape;
      IndexSize(s);
      var batch := DeleteWindow(shape, lo, lo + |window|, window);
      RestOfIndex(s, Run(s, batch), MembersOf(window), lo, lo + |window|);
      RemovalSettles(s, Run(s, batch), MembersOf(window), Expire(), Base() - |window|);
      Commit(Expire(), Base() - |window|, batch);
    }

    /** ZRANK / ZREVRANK: how many members come before it from the low or the high end, which is its position. */
    method Rank(m: Member, rev: bool) returns (r: Option<nat>)
      requires Valid()
      ensures r.None? <==> m !in shape.members
      ensures r.Some? ==>
                && r.value < |shape.index| == |shape.members|
                && (if rev then ListSpec.Reversed(shape.index) else shape.index)[r.value].member == m
                && r.value == |Before(shape.members, m, rev)|
    {
      hide Lt, Before;
      IndexCounts(shape.members, shape.index);
      if m !in shape.members {
        return None;
      }
      var bound := Item(shape.members[m], m);
      assert Pairs(shape.members, bound);
      var rank := CountBefore(shape.index, bound);
      EmptyMembers(shape.members);
      RankCounts(shape, m, rank, rev);
      return Some(if rev then shape.meta.value.count - 1 - rank else rank);
    }

    /** ZRANGE / ZREVRANGE by position: the clamped slice of the ordered entries. */
    method RangeByRank(start: int, stop: int, rev: bool) returns (items: seq<Item>)
      requires Valid()
      ensures var all := if rev then ListSpec.Reversed(shape.index) else shape.index;
              && |all| == |shape.members| && items == ListTrim.Sliced(all, start, stop)
              && (forall x :: x in all <==> Pairs(shape.members, x))
              && InOrder(all, rev)
    {
      hide Indexed, ListTrim.ClampRange, Pairs, InOrder;
      WholeInOrder(shape, rev);
      EmptyMembers(shape.members);
      IndexCounts(shape.members, shape.index);
      if shape.meta.None? {
        assert shape.index == [];
        NothingSliced(start, stop);
        return [];
      }
      var window := ListTrim.ClampRange(start, stop, shape.meta.value.count);
      if window.None? {
        return [];
      }
      var all := if rev then ListSpec.Reversed(shape.index) else shape.index;
      var (from, to) := window.value;
      items := all[from..to + 1];
    }
  }

  function AtMostAll(n: nat, xs: seq<Item>): nat {
    if n < |xs| then n else |xs|
  }

  /** The n lowest in ascending order, or the n highest in descending order. */
  function Extremes(xs: seq<Item>, n: nat, max: bool): seq<Item> {
    if max then ListSpec.Reversed(xs[|xs| - AtMostAll(n, xs)..]) else xs[..AtMostAll(n, xs)]
  }

  function Others(xs: seq<Item>, n: nat, max: bool): seq<Item> {
    if max then xs[..|xs| - AtMostAll(n, xs)] else xs[AtMostAll(n, xs)..]
  }

  /** The number first, then the sign of a zero, then the bytes of the member. */
  predicate Ahead(x: Item, y: Item) {
    || Number(x.score) < Number(y.score)
    || (Number(x.score) == Number(y.score) && x.score < y.score)
    || (x.score == y.score && Below(x.member.bytes, y.member.bytes))
  }

  lemma LtIsAhead(x: Item, y: Item)
    ensures Lt(x, y) <==> Ahead(x, y)
  {
    hide Number;
    NumberOrder(x.score, y.score);
    NumberOrder(y.score, x.score);
  }

  /** From the lowest to the highest, or the other way round. */
  ghost predicate InOrder(xs: seq<Item>, rev: bool) {
    forall i, j :: 0 <= i < j < |xs| ==> if rev then Ahead(xs[j], xs[i]) else Ahead(xs[i], xs[j])
  }

  /** `got` are in order, and everything in `rest` comes after them. */
  ghost predicate Extreme(got: seq<Item>, rest: seq<Item>, max: bool) {
    InOrder(got, max) && forall x, y :: x in got && y in rest ==> if max then Ahead(y, x) else Ahead(x, y)
  }

  lemma SortedInOrder(xs: seq<Item>)
    requires Sorted(xs)
    ensures InOrder(xs, false) && InOrder(ListSpec.Reversed(xs), true)
  {
    hide Lt, Ahead;
    forall i, j | 0 <= i < j < |xs| ensures Ahead(xs[i], xs[j]) {
      LtIsAhead(xs[i], xs[j]);
    }
  }

  /** The n extreme entries are the ones that come first from that end, in that order. */
  lemma ExtremesMeaning(xs: seq<Item>, n: nat, max: bool)
    requires Sorted(xs)
    ensures var got, rest := Extremes(xs, n, max), Others(xs, n, max);
            && Extreme(got, rest, max)
            && |got| == (if n < |xs| then n else |xs|)
            && forall x :: x in xs <==> x in got || x in rest
  {
    hide Lt, Ahead;
    SortedInOrder(xs);
    var got, rest := Extremes(xs, n, max), Others(xs, n, max);
    var k := AtMostAll(n, xs);
    var cut := if max then |xs| - k else k;
    assert xs == xs[..cut] + xs[cut..];
    if max {
      SameItems(xs[cut..]);
    }
  }

  lemma ExtremesAre(s: Shape, n: nat, max: bool)
    requires Ok(s)
    ensures Extreme(Extremes(s.index, n, max), Others(s.index, n, max), max)
  {
    ExtremesMeaning(s.index, n, max);
  }

  /** The counter, or its absence, gives the size of the index. */
  lemma IndexSize(s: Shape)
    requires Ok(s)
    ensures |s.index| == |s.members| == if s.meta.Some? then s.meta.value.count else 0
  {
    IndexCounts(s.members, s.index);
    EmptyMembers(s.members);
  }

  lemma NothingPopped(xs: seq<Item>, n: nat, max: bool)
    requires n == 0 || xs == []
    ensures Extremes(xs, n, max) == [] && Others(xs, n, max) == xs
  {
  }

  lemma WindowIsExtreme(xs: seq<Item>, n: nat, max: bool, lo: nat, hi: nat)
    requires lo == (if max then |xs| - AtMostAll(n, xs) else 0) && hi == lo + AtMostAll(n, xs)
    ensures Extremes(xs, n, max) == (if max then ListSpec.Reversed(xs[lo..hi]) else xs[lo..hi])
    ensures Others(xs, n, max) == xs[..lo] + xs[hi..]
  {
    if max {
      assert xs[lo..hi] == xs[lo..] && xs[hi..] == [];
      assert xs[..lo] + [] == xs[..lo];
    } else {
      assert xs[lo..hi] == xs[..hi] && xs[..lo] == [];
      assert [] + xs[hi..] == xs[hi..];
    }
  }

  lemma SameItems(xs: seq<Item>)
    ensures forall x :: x in ListSpec.Reversed(xs) <==> x in xs
  {
    forall x | x in xs ensures x in ListSpec.Reversed(xs) {
      var i :| 0 <= i < |xs| && xs[i] == x;
      assert ListSpec.Reversed(xs)[|xs| - 1 - i] == x;
    }
  }

  lemma WholeInOrder(s: Shape, rev: bool)
    requires Ok(s)
    ensures var all := if rev then ListSpec.Reversed(s.index) else s.index;
            InOrder(all, rev) && forall x :: x in all <==> Pairs(s.members, x)
  {
    hide Lt, Ahead;
    SortedInOrder(s.index);
    SameItems(s.index);
  }

  /** The members that come before `m`, from the low end or from the high end. */
  ghost function Before(members: Members, m: Member, rev: bool): set<Member>
    requires m in members
  {
    set k | k in members && var x, y := Item(members[k], k), Item(members[m], m);
                            if rev then Ahead(y, x) else Ahead(x, y)
  }

  /** The members of a stretch of the index are as many as it is long. */
  lemma {:induction false} StretchCounts(s: Shape, lo: nat, hi: nat)
    requires Ok(s) && lo <= hi <= |s.index|
    ensures |MembersOf(s.index[lo..hi])| == hi - lo
    decreases hi - lo
  {
    hide Ok, MembersOf;
    if lo == hi {
      assert s.index[lo..hi] == [];
      NoMembers(s);
    } else {
      StretchCounts(s, lo, hi - 1);
      WindowMember(s, lo, hi, hi - 1 - lo);
      MembersPush(s.index[lo..hi], hi - 1 - lo);
      assert s.index[lo..hi][..hi - 1 - lo] == s.index[lo..hi - 1];
      assert s.index[lo..hi][..hi - lo] == s.index[lo..hi];
    }
  }

  lemma RankCounts(s: Shape, m: Member, rank: nat, rev: bool)
    requires Ok(s) && m in s.members && rank < |s.index| && s.index[rank] == Item(s.members[m], m)
    ensures |Before(s.members, m, rev)| == if rev then |s.index| - 1 - rank else rank
  {
    hide Lt, Ahead;
    var n := |s.index|;
    var part := if rev then s.index[rank + 1..n] else s.index[0..rank];
    var lo, hi := if rev then rank + 1 else 0, if rev then n else rank;
    StretchCounts(s, lo, hi);
    forall k ensures k in Before(s.members, m, rev) <==> k in MembersOf(part) {
      StretchHasMembers(s, lo, hi, k);
      if k in s.members {
        PlaceOf(s, m, rank, rev, k);
      }
    }
    assert Before(s.members, m, rev) == MembersOf(part);
  }

  lemma StretchHasMembers(s: Shape, lo: nat, hi: nat, k: Member)
    requires Ok(s) && lo <= hi <= |s.index|
    ensures k in MembersOf(s.index[lo..hi]) ==> k in s.members
  {
    if x :| x in s.index[lo..hi] && x.member == k {
      assert x in s.index && Pairs(s.members, x);
    }
  }

  /** A member stands before `m` in the index exactly when it comes before it. */
  lemma PlaceOf(s: Shape, m: Member, rank: nat, rev: bool, k: Member)
    requires Ok(s) && m in s.members && rank < |s.index| && s.index[rank] == Item(s.members[m], m)
    requires k in s.members
    ensures var part := if rev then s.index[rank + 1..|s.index|] else s.index[0..rank];
            k in Before(s.members, m, rev) <==> k in MembersOf(part)
  {
    hide Lt, Ahead;
    var x, y := Item(s.members[k], k), Item(s.members[m], m);
    assert Pairs(s.members, x);
    var at :| 0 <= at < |s.index| && s.index[at] == x;
    LtIsAhead(x, y);
    LtIsAhead(y, x);
    LtIrreflexive(x);
    forall i | 0 <= i < |s.index| && s.index[i].member == k ensures i == at {
      assert Pairs(s.members, s.index[i]);
    }
    assert at < rank ==> Lt(x, y);
    assert rank < at ==> Lt(y, x);
    if Lt(x, y) && Lt(y, x) {
      LtTransitive(x, y, x);
    }
    InStretch(s.index, 0, rank, at);
    InStretch(s.index, rank + 1, |s.index|, at);
  }

  lemma InStretch(xs: seq<Item>, lo: nat, hi: nat, at: nat)
    requires lo <= hi <= |xs| && at < |xs|
    requires forall i :: 0 <= i < |xs| && xs[i].member == xs[at].member ==> i == at
    ensures xs[at].member in MembersOf(xs[lo..hi]) <==> lo <= at < hi
  {
    if lo <= at < hi {
      assert xs[lo..hi][at - lo] == xs[at];
    }
  }

  /** NX goes with no other flag, and GT not with LT. */
  lemma ConflictMeaning(f: Flags)
    ensures !Conflicting(f) <==> (f.nx ==> !f.xx && !f.gt && !f.lt) && (f.gt ==> !f.lt)
  {
  }

  predicate Conflicting(f: Flags) {
    (f.nx && f.xx) || (f.nx && (f.gt || f.lt)) || (f.gt && f.lt)
  }

  /** The three vetoes, one after the other. */
  method Admits(f: Flags, was: Option<Score>, score: Score) returns (ok: bool)
    ensures ok == Passes(f, was, score)
  {
    if f.nx && was.Some? {
      return false;
    }
    if f.xx && was.None? {
      return false;
    }
    if f.gt || f.lt {
      if was.Some? {
        if (f.gt && !NumLess(was.value, score)) || (f.lt && !NumLess(score, was.value)) {
          return false;
        }
      }
    }
    return true;
  }

  lemma NothingFolded(members: Members, f: Flags)
    ensures AddAll(members, f, []) == members && Changes(members, f, []) == 0
  {
  }

  /** A call that changes something leaves at least one member. */
  lemma {:induction false} SomeMember(members: Members, f: Flags, pairs: seq<(Score, Member)>)
    requires Changes(members, f, pairs) > 0
    ensures AddAll(members, f, pairs) != map[]
    decreases |pairs|
  {
    hide Writes;
    var rest := pairs[..|pairs| - 1];
    var (score, m) := pairs[|pairs| - 1];
    if !Writes(f, Get(AddAll(members, f, rest), m), score) {
      SomeMember(members, f, rest);
    } else {
      assert m in AddAll(members, f, pairs);
    }
  }

  lemma AddedParts(s: Shape, f: Flags, pairs: seq<(Score, Member)>, batch: seq<Op>, pending: Members)
    requires Added(s, f, pairs, batch, pending)
    ensures var t := Run(s, batch);
            t.members == AddAll(s.members, f, pairs) && Indexed(t.members, t.index, Stale(s.members, f, pairs))
    ensures |AddAll(s.members, f, pairs)| == 0 <==> AddAll(s.members, f, pairs) == map[]
  {
    EmptyMembers(AddAll(s.members, f, pairs));
  }

  /** Any stale record is a record without a member. */
  lemma StaleBreaks(s: Shape, stale: set<Item>)
    requires Indexed(s.members, s.index, stale)
    requires s.meta.Some? && s.meta.value.count == |s.members| && s.members != map[]
    ensures Ok(s) <==> stale == {}
  {
    if x :| x in stale {
      assert x in s.index && !Pairs(s.members, x);
    }
  }

  lemma IncrBatch(s: Shape, m: Member, score: Score)
    requires Ok(s)
    ensures var first := if m in s.members then [DelScored(s.members[m], m)] else [];
            var t := Run(s, first + [PutMember(m, score), PutScored(score, m)]);
            && t.members == s.members[m := score] && Indexed(t.members, t.index, {})
            && |t.members| == |s.members| + if m in s.members then 0 else 1
  {
    hide Indexed, Run;
    RunNone(s);
    if m in s.members {
      var del := DelScored(s.members[m], m);
      RunPush(s, [], del);
      assert [] + [del] == [del];
      PutBoth(s, [del], m, score);
      ReplaceKeepsIndexed(s.members, s.index, m, score);
      assert s.members[m := score].Keys == s.members.Keys;
    } else {
      PutBoth(s, [], m, score);
      WriteKeepsIndexed(s.members, s.index, {}, m, score);
      assert s.members[m := score].Keys == s.members.Keys + {m};
      var none: set<Item> := {};
      assert none - {Item(score, m)} == none;
    }
  }

  lemma PutBoth(s: Shape, first: seq<Op>, m: Member, score: Score)
    ensures var t, u := Run(s, first), Run(s, first + [PutMember(m, score), PutScored(score, m)]);
            u == t.(members := t.members[m := score], index := Insert(t.index, Item(score, m)))
  {
    hide Run, Insert;
    var put, scored := PutMember(m, score), PutScored(score, m);
    RunPush(s, first, put);
    RunPush(s, first + [put], scored);
    assert first + [put] + [scored] == first + [put, scored];
  }

  lemma NamedAdd(args: seq<Member>, m: Member)
    ensures Named(args + [m]) == Named(args) + {m}
  {
  }

  /** Arguments without repetition, in order of first appearance. */
  method Dedup(args: seq<Member>) returns (members: seq<Member>)
    ensures Named(members) == Named(args)
    ensures forall i, j :: 0 <= i < j < |members| ==> members[i] != members[j]
  {
    members := [];
    for i := 0 to |args|
      invariant Named(members) == Named(args[..i])
      invariant forall j, k :: 0 <= j < k < |members| ==> members[j] != members[k]
    {
      assert args[..i + 1] == args[..i] + [args[i]];
      NamedAdd(args[..i], args[i]);
      NamedAdd(members, args[i]);
      if args[i] !in members {
        members := members + [args[i]];
      }
    }
    assert args[..|args|] == args;
  }

  lemma SameSize(members: Members, gone: set<Member>)
    requires |members - gone| == |members|
    ensures members - gone == members
  {
    EqualSubset((members - gone).Keys, members.Keys);
  }

  lemma {:induction false} EqualSubset<T>(a: set<T>, b: set<T>)
    requires a <= b && |a| == |b|
    ensures a == b
    decreases |a|
  {
    if x :| x in a {
      EqualSubset(a - {x}, b - {x});
      assert a == (a - {x}) + {x} && b == (b - {x}) + {x};
    }
  }

  /** The first n of the ascending scan, or the last n through a bounded queue. */
  method Window(index: seq<Item>, n: nat, max: bool) returns (window: seq<Item>)
    requires n > 0
    ensures window == if max then index[|index| - AtMostAll(n, index)..] else index[..AtMostAll(n, index)]
  {
    window := [];
    var i := 0;
    while i < |index|
      invariant 0 <= i <= |index|
      invariant max ==> window == index[i - AtMostAll(n, index[..i])..i]
      invariant !max ==> window == index[..i] && i < n
    {
      window := window + [index[i]];
      assert index[..i + 1] == index[..i] + [index[i]];
      i := i + 1;
      if max {
        if |window| > n {
          window := window[1..];
        }
      } else if |window| >= n {
        break;
      }
    }
  }

  /** Members of a window are stored, and each once. */
  lemma WindowMember(s: Shape, lo: nat, hi: nat, i: nat)
    requires Ok(s) && lo + i < hi <= |s.index|
    ensures var window := s.index[lo..hi];
            && Pairs(s.members, window[i])
            && window[i].member !in MembersOf(window[..i])
  {
    hide Lt;
    var window := s.index[lo..hi];
    var x := s.index[lo + i];
    assert x in s.index && window[i] == x;
    forall j | 0 <= j < i ensures window[j].member != x.member {
      assert window[j] == s.index[lo + j] && Pairs(s.members, s.index[lo + j]);
      LtIrreflexive(x);
    }
  }

  /** Taking a window out of the index leaves what is before and after it. */
  lemma RestOfIndex(s: Shape, t: Shape, gone: set<Member>, lo: nat, hi: nat)
    requires Ok(s) && lo <= hi <= |s.index|
    requires gone == MembersOf(s.index[lo..hi]) && Removed(s, t, gone)
    ensures t.index == s.index[..lo] + s.index[hi..]
  {
    hide Lt;
    var rest := s.index[..lo] + s.index[hi..];
    forall x ensures x in t.index <==> x in rest {
      InWindow(s, lo, hi, x);
    }
    SortedRest(s.index, lo, hi);
    SortedUnique(t.index, rest);
  }

  lemma SortedRest(xs: seq<Item>, lo: nat, hi: nat)
    requires Sorted(xs) && lo <= hi <= |xs|
    ensures Sorted(xs[..lo] + xs[hi..])
  {
    hide Lt;
  }

  lemma InWindow(s: Shape, lo: nat, hi: nat, x: Item)
    requires Ok(s) && lo <= hi <= |s.index|
    ensures x in s.index[..lo] + s.index[hi..] <==>
            Pairs(s.members, x) && x.member !in MembersOf(s.index[lo..hi])
  {
    hide Lt;
    if Pairs(s.members, x) {
      assert x in s.index;
      var i :| 0 <= i < |s.index| && s.index[i] == x;
      forall j | 0 <= j < |s.index| && s.index[j].member == x.member ensures j == i {
        assert Pairs(s.members, s.index[j]);
        LtIrreflexive(x);
      }
      if lo <= i < hi {
        assert s.index[lo..hi][i - lo] == x;
      } else if i < lo {
        assert s.index[..lo][i] == x;
      } else {
        assert s.index[hi..][i - hi] == x;
      }
    } else {
      assert x !in s.index;
    }
  }

  lemma SameElements(xs: seq<Item>, ys: seq<Item>)
    requires ys == xs || ys == ListSpec.Reversed(xs)
    ensures MembersOf(xs) == MembersOf(ys)
  {
    forall x ensures x in xs <==> x in ys {
      if x in xs {
        var i :| 0 <= i < |xs| && xs[i] == x;
        assert ys[i] == x || ys[|xs| - 1 - i] == x;
      }
      if x in ys {
        var i :| 0 <= i < |ys| && ys[i] == x;
        assert xs[i] == x || xs[|xs| - 1 - i] == x;
      }
    }
  }

  /** Records strictly before the bound, counted by an ascending scan that stops at it. */
  method CountBefore(index: seq<Item>, bound: Item) returns (n: nat)
    requires Sorted(index) && bound in index
    ensures n < |index| && index[n] == bound
  {
    hide Lt;
    ghost var at :| 0 <= at < |index| && index[at] == bound;
    n := 0;
    LtIrreflexive(bound);
    while n < |index| && Lt(index[n], bound)
      invariant n <= at
    {
      assert n != at;
      n := n + 1;
    }
  }

  lemma NothingSliced(start: int, stop: int)
    ensures ListTrim.ClampRange(start, stop, 0) == None
  {
  }

  /** ZRANK and ZREVRANK of a member add up to the cardinality minus one, and ZRANGE at its rank is the member. */
  lemma RanksMirror(s: Shape, m: Member, rank: nat, revRank: nat)
    requires Ok(s) && rank < |s.index| && revRank < |s.index|
    requires s.index[rank].member == m && ListSpec.Reversed(s.index)[revRank].member == m
    ensures rank + revRank == |s.members| - 1
  {
    hide Lt;
    IndexCounts(s.members, s.index);
    var other := |s.index| - 1 - revRank;
    assert Pairs(s.members, s.index[rank]) && Pairs(s.members, s.index[other]);
    LtIrreflexive(s.index[rank]);
    assert s.index[rank] == s.index[other];
  }

  lemma RangeAtRank(s: Shape, m: Member, rank: nat)
    requires Ok(s) && rank < |s.index| <= I64_MAX && s.index[rank].member == m
    ensures m in s.members && ListTrim.ClampRange(rank, rank, |s.members|) == Some((rank, rank))
    ensures s.index[rank..rank + 1] == [Item(s.members[m], m)]
  {
    IndexCounts(s.members, s.index);
    assert Pairs(s.members, s.index[rank]);
  }

  /** Both records of every named member that is stored. */
  method DeleteNamed(s: Shape, members: seq<Member>) returns (batch: seq<Op>, removed: nat)
    requires Ok(s) && forall i, j :: 0 <= i < j < |members| ==> members[i] != members[j]
    ensures Removed(s, Run(s, batch), Taken(s, members))
    ensures removed + |s.members - Taken(s, members)| == |s.members|
  {
    hide Run, Removed, Ok, Taken;
    batch, removed := [], 0;
    NoneRemoved(s);
    NoMembers(s);
    assert members[..0] == [];
    for i := 0 to |members|
      invariant Removed(s, Run(s, batch), Taken(s, members[..i]))
      invariant removed + |s.members - Taken(s, members[..i])| == |s.members|
    {
      var m := members[i];
      TakenPush(s, members, i);
      if m in s.members {
        RemoveStep(s, batch, Taken(s, members[..i]), m);
        batch := batch + [DelMember(m)] + [DelScored(s.members[m], m)];
        removed := removed + 1;
      }
    }
    assert members[..|members|] == members;
  }

  /** Both records of every entry of a window of the index. */
  method DeleteWindow(s: Shape, ghost lo: nat, ghost hi: nat, window: seq<Item>) returns (batch: seq<Op>)
    requires Ok(s) && lo <= hi <= |s.index| && window == s.index[lo..hi]
    ensures Removed(s, Run(s, batch), MembersOf(window))
    ensures |s.members - MembersOf(window)| + |window| == |s.members|
  {
    hide Run, Removed, Ok, MembersOf;
    batch := [];
    NoneRemoved(s);
    NoMembers(s);
    assert window[..0] == [];
    for i := 0 to |window|
      invariant Removed(s, Run(s, batch), MembersOf(window[..i]))
      invariant |s.members - MembersOf(window[..i])| + i == |s.members|
    {
      var x := window[i];
      WindowMember(s, lo, hi, i);
      MembersPush(window, i);
      RemoveStep(s, batch, MembersOf(window[..i]), x.member);
      batch := batch + [DelMember(x.member)] + [DelScored(x.score, x.member)];
    }
    assert window[..|window|] == window;
  }
}
