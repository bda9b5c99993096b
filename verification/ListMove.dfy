/** LMOVE, LSET and the one-element pop and push that BLPOP, BLMOVE and its restore commit. */
module ListMove {
  import opened Bytes
  import opened ListStore
  import opened ListSpec
  import opened ListCompact
  import opened ListRewrite
  import opened ListDb
  import opened ListWindow
  import opened ListEnds

  // ---- the one-element pop ----

  ghost function PopOneFamily(f: Family, m: Meta, left: bool): Family
    requires m.Len() > 0 && m.lCount <= m.lNext && m.rCount <= m.rNext
  {
    var (isLeft, idx) := PopTarget(m, left);
    WithSide(f, isLeft, Side(f, isLeft) - {idx})
  }

  /** Shares of a one-element pop: the side its target lies on. */
  lemma PopOneShares(f: Family, m: Meta, left: bool)
    requires OkWindows(m, f.left, f.right) && m.Len() > 0
    ensures var (takeL, takeR) := Shares(m, left, 1);
            && PopOneFamily(f, m, left) == PoppedFamily(f, m, left, takeL, takeR)
            && (PopTarget(m, left).0 <==> takeL == 1)
  {
    var (takeL, takeR) := Shares(m, left, 1);
    var (isLeft, idx) := PopTarget(m, left);
    var g := PoppedFamily(f, m, left, takeL, takeR);
    assert Side(f, isLeft) - {idx} == Side(g, isLeft);
    assert Side(f, !isLeft) == Side(g, !isLeft);
  }

  /** After the single delete, `pop_one`'s meta denotes the remaining elements. */
  lemma PopOneEffect(f: Family, m: Meta, left: bool)
    requires OkWindows(m, f.left, f.right) && m.Len() > 0
    ensures var g := PopOneFamily(f, m, left);
            && OkWindows(AfterPopOne(m, left), g.left, g.right)
            && Items(AfterPopOne(m, left), g.left, g.right) == Remaining(Items(m, f.left, f.right), left, 1)
  {
    hide Items, Remaining, PoppedFamily, Run;
    var (takeL, takeR) := Shares(m, left, 1);
    PopOneShares(f, m, left);
    PopEffect(f, m, left, takeL, takeR);
    var g := PopOneFamily(f, m, left);
    SameItems(AfterPop(m, left, takeL, takeR), AfterPopOne(m, left), g.left, g.right);
  }

  /** Two metas that differ only in the position of an emptied window denote the same list. */
  lemma SameItems(m: Meta, m': Meta, l: map<nat, Elem>, r: map<nat, Elem>)
    requires OkWindows(m, l, r)
    requires m.lCount == m'.lCount && m.rCount == m'.rCount
    requires m.lNext == m'.lNext || m.lCount == 0
    requires m.rNext == m'.rNext || m.rCount == 0
    ensures OkWindows(m', l, r) && Items(m', l, r) == Items(m, l, r)
  {
    assert m.lCount == 0 ==> LeftSeq(l, m.lNext, 0) == LeftSeq(l, m'.lNext, 0);
    assert m.rCount == 0 ==> RightSeq(r, m.rNext, 0) == RightSeq(r, m'.rNext, 0);
  }

  /**
   * `pop_one` and the counted pop write different metas for one element exactly when the element is
   * the last one of the far side; the lists they denote are the same either way.
   */
  lemma TwoPopsAgree(f: Family, m: Meta, left: bool)
    requires OkWindows(m, f.left, f.right) && m.Len() > 0
    ensures var (takeL, takeR) := Shares(m, left, 1);
            var one, counted := AfterPopOne(m, left), AfterPop(m, left, takeL, takeR);
            var g := PopOneFamily(f, m, left);
            && g == PoppedFamily(f, m, left, takeL, takeR)
            && OkWindows(one, g.left, g.right) && OkWindows(counted, g.left, g.right)
            && Items(one, g.left, g.right) == Items(counted, g.left, g.right)
            && (one != counted <==> (if left then m.lCount == 0 && m.rCount == 1 else m.rCount == 0 && m.lCount == 1))
  {
    hide Items, Remaining;
    var (takeL, takeR) := Shares(m, left, 1);
    PopOneShares(f, m, left);
    PopOneEffect(f, m, left);
    PopEffect(f, m, left, takeL, takeR);
  }

  // ---- LSET ----

  function SetSpec(v: View, index: int, e: Elem): (View, Reply) {
    match v
    case Absent => (v, NoKey)
    case OtherType => (v, WrongKind)
    case List(xs, expire) =>
      var p := if index < 0 then |xs| + index else index;
      if 0 <= p < |xs| then (List(xs[p := e], expire), Done) else (v, BadIndex)
  }

  /** LSET key index element. */
  method Lset(d: Db, key: Key, index: int, e: Elem, now: nat) returns (reply: Reply)
    requires d.Valid()
    modifies d
    ensures d.Valid() && SameElsewhere(old(d.store), d.store, key)
    ensures (d.See(key, now), reply) == SetSpec(old(d.See(key, now)), index, e)
  {
    hide Items, ViewOf, Ok, Run, Commit, Window;
    var st := d.Resolve(key, now);
    match st {
      case Missing =>
        return NoKey;
      case WrongType =>
        return WrongKind;
      case Present(m) =>
        var p := if index < 0 then m.Len() + index else index;
        if p < 0 || p >= m.Len() {
          return BadIndex;
        }
        ghost var f := At(d.store, key);
        var isLeft := p < m.lCount;
        var idx := if isLeft then m.lNext - 1 - p else m.rNext - m.rCount + (p - m.lCount);
        var batch := [PutElem(key, isLeft, idx, e)];
        SetEffect(f, key, m, p, e);
        ghost var g := OnFamily(f, batch[0]);
        Committed(d.store, key, batch, m, g.left, g.right, now);
        d.CommitList(key, m.expire, Some(m), batch);
        return Done;
    }
  }

  lemma SetEffect(f: Family, k: Key, m: Meta, p: nat, e: Elem)
    requires OkWindows(m, f.left, f.right) && p < m.Len()
    ensures var isLeft := p < m.lCount;
            var idx := if isLeft then m.lNext - 1 - p else m.rNext - m.rCount + (p - m.lCount);
            var op := PutElem(k, isLeft, idx, e);
            var g := OnFamily(f, op);
            && Run(f, [op]) == g && g == f.(left := g.left, right := g.right)
            && OkWindows(m, g.left, g.right)
            && Items(m, g.left, g.right) == Items(m, f.left, f.right)[p := e]
  {
    hide Reads, Window;
    var a, b := LeftSeq(f.left, m.lNext, m.lCount), RightSeq(f.right, m.rNext, m.rCount);
    ReadsLeft(f.left, m.lNext, m.lCount);
    ReadsRight(f.right, m.rNext, m.rCount);
    if p < m.lCount {
      PutAt(f.left, true, m.lNext, a, p, e);
      ReadsItems(m, f.left[m.lNext - 1 - p := e], f.right, a[p := e], b);
    } else {
      PutAt(f.right, false, m.rNext, b, p - m.lCount, e);
      ReadsItems(m, f.left, f.right[m.rNext - m.rCount + (p - m.lCount) := e], a, b[p - m.lCount := e]);
    }
    RunSingle(f, PutElem(k, p < m.lCount, if p < m.lCount then m.lNext - 1 - p else m.rNext - m.rCount + (p - m.lCount), e));
  }

  lemma RunSingle(f: Family, op: Op)
    ensures Run(f, [op]) == OnFamily(f, op)
  {
    assert [] + [op] == [op];
    RunLast(f, [], op);
  }

  // ---- LMOVE ----

  /** LMOVE on the two keys' views; `same` when they are one key. */
  function MoveSpec(src: View, dst: View, same: bool, popLeft: bool, pushLeft: bool): (r: (View, View, Reply))
    requires src.List? ==> src.elems != []
  {
    match src
    case Absent => (src, dst, Nil)
    case OtherType => (src, dst, WrongKind)
    case List(xs, expire) =>
      if dst.OtherType? then (src, dst, WrongKind)
      else
        var x, rest := Taken(xs, popLeft, 1)[0], Remaining(xs, popLeft, 1);
        if same then
          var turned := List(Pushed(rest, [x], pushLeft), expire);
          (turned, turned, Bulk(x))
        else
          (Settled(rest, expire), PushSpec(dst, [x], pushLeft, true).0, Bulk(x))
  }

  /** A same-key move is a rotation: one step either way, or nothing at all. */
  lemma SameKeyMoveRotates(xs: seq<Elem>, expire: nat, popLeft: bool, pushLeft: bool)
    requires xs != []
    ensures var v := List(xs, expire);
            var n := |xs|;
            MoveSpec(v, v, true, popLeft, pushLeft) ==
            if popLeft && pushLeft then (v, v, Bulk(xs[0]))
            else if !popLeft && !pushLeft then (v, v, Bulk(xs[n - 1]))
            else if popLeft then (List(xs[1..] + [xs[0]], expire), List(xs[1..] + [xs[0]], expire), Bulk(xs[0]))
            else (List([xs[n - 1]] + xs[..n - 1], expire), List([xs[n - 1]] + xs[..n - 1], expire), Bulk(xs[n - 1]))
  {
    var n := |xs|;
    var x, rest := Taken(xs, popLeft, 1)[0], Remaining(xs, popLeft, 1);
    assert Reversed([x]) == [x];
    assert xs == [xs[0]] + xs[1..] == xs[..n - 1] + [xs[n - 1]];
  }

  function Contents(v: View): multiset<Elem> {
    if v.List? then multiset(v.elems) else multiset{}
  }

  lemma TakenIsGone(xs: seq<Elem>, left: bool)
    requires xs != []
    ensures multiset(xs) == multiset(Remaining(xs, left, 1)) + multiset{Taken(xs, left, 1)[0]}
  {
    var x, rest := Taken(xs, left, 1)[0], Remaining(xs, left, 1);
    if left {
      assert xs == [x] + rest;
    } else {
      assert xs == rest + [x];
    }
  }

  lemma PushedAdds(xs: seq<Elem>, x: Elem, left: bool)
    ensures multiset(Pushed(xs, [x], left)) == multiset(xs) + multiset{x}
  {
    assert Reversed([x]) == [x];
  }

  /** A move neither loses nor duplicates an element, whatever the two keys hold. */
  lemma MoveConserves(src: View, dst: View, popLeft: bool, pushLeft: bool)
    requires src.List? ==> src.elems != []
    ensures var (src', dst', _) := MoveSpec(src, dst, false, popLeft, pushLeft);
            Contents(src') + Contents(dst') == Contents(src) + Contents(dst)
  {
    hide Pushed, Taken, Remaining, Due;
    if src.List? && !dst.OtherType? {
      TakenIsGone(src.elems, popLeft);
      var x, rest := Taken(src.elems, popLeft, 1)[0], Remaining(src.elems, popLeft, 1);
      var ys := if dst.List? then dst.elems else [];
      PushedAdds(ys, x, pushLeft);
      assert Contents(Settled(rest, src.expire)) == multiset(rest);
      assert Contents(PushSpec(dst, [x], pushLeft, true).0) == multiset(ys) + multiset{x};
      var r := MoveSpec(src, dst, false, popLeft, pushLeft);
      assert r.0 == Settled(rest, src.expire) && r.1 == PushSpec(dst, [x], pushLeft, true).0;
      assert Contents(r.0) + Contents(r.1) == multiset(src.elems) + multiset(ys);
    }
  }

  /** The source half: the delete of the target, then the surviving root or the family wipe. */
  function PopHalf(src: Key, m: Meta, popLeft: bool): (b: seq<Op>)
    requires m.Len() > 0 && m.lCount <= m.lNext && m.rCount <= m.rNext
    ensures OnlyOn(b, src)
  {
    var (isLeft, idx) := PopTarget(m, popLeft);
    var after := AfterPopOne(m, popLeft);
    [DelElem(src, isLeft, idx)] + FinishOps(src, m.expire, if after.Len() == 0 then None else Some(after))
  }

  lemma PopHalfEffect(s: Store, src: Key, m: Meta, popLeft: bool, now: nat)
    requires AllOk(s) && OkList(At(s, src), m) && !Due(m.expire, now)
    ensures var t := Commit(s, PopHalf(src, m, popLeft));
            && AllOk(t) && SameElsewhere(s, t, src)
            && ViewOf(At(t, src), now) ==
               Settled(Remaining(Items(m, At(s, src).left, At(s, src).right), popLeft, 1), m.expire)
  {
    hide Items, Remaining, Run, Commit, Window;
    var f := At(s, src);
    var (isLeft, idx) := PopTarget(m, popLeft);
    PopOneEffect(f, m, popLeft);
    RunSingle(f, DelElem(src, isLeft, idx));
    var g := PopOneFamily(f, m, popLeft);
    Committed(s, src, [DelElem(src, isLeft, idx)], AfterPopOne(m, popLeft), g.left, g.right, now);
  }

  /** The destination half: the put on top of one side, then the root. */
  function PushHalf(dst: Key, m: Meta, e: Elem, pushLeft: bool): (b: seq<Op>)
    ensures OnlyOn(b, dst)
  {
    [PutElem(dst, pushLeft, NextIdx(m, pushLeft), e)] + FinishOps(dst, m.expire, Some(Grown(m, pushLeft, 1)))
  }

  /** What a push onto a resolved key starts from. */
  ghost predicate PushBase(f: Family, m: Meta) {
    && !f.foreign && f.index <= IndexFor(m.expire) && OkWindows(m, f.left, f.right)
  }

  lemma PushHalfEffect(s: Store, dst: Key, m: Meta, e: Elem, pushLeft: bool, now: nat)
    requires AllOk(s) && PushBase(At(s, dst), m) && !Due(m.expire, now)
    ensures var t := Commit(s, PushHalf(dst, m, e, pushLeft));
            && AllOk(t) && SameElsewhere(s, t, dst)
            && ViewOf(At(t, dst), now) ==
               List(Pushed(Items(m, At(s, dst).left, At(s, dst).right), [e], pushLeft), m.expire)
  {
    hide Items, Run, Commit, OkWindows, PushedFamily;
    var f := At(s, dst);
    PushEffect(f, dst, m, [e], pushLeft);
    var g := PushedFamily(f, m, [e], pushLeft);
    assert Puts(dst, pushLeft, Numbered([e], NextIdx(m, pushLeft))) ==
           [PutElem(dst, pushLeft, NextIdx(m, pushLeft), e)];
    Committed(s, dst, [PutElem(dst, pushLeft, NextIdx(m, pushLeft), e)], Grown(m, pushLeft, 1), g.left, g.right, now);
  }

  /** The elements and deadline a push adds to: none when the key is missing. */
  ghost function BaseItems(v: View): seq<Elem> {
    if v.List? then v.elems else []
  }

  ghost function BaseExpire(v: View): nat {
    if v.List? then v.expire else 0
  }

  lemma BaseOfAbsent(v: View)
    requires v == Absent
    ensures BaseItems(v) == [] && BaseExpire(v) == 0
  {
  }

  /** A resolved key as a push target: its own meta, or the blank one when it is missing. */
  ghost predicate PushTarget(s: Store, k: Key, m: Meta, now: nat) {
    && AllOk(s) && PushBase(At(s, k), m) && !Due(m.expire, now)
    && !ViewOf(At(s, k), now).OtherType?
    && BaseItems(ViewOf(At(s, k), now)) == Items(m, At(s, k).left, At(s, k).right)
    && m.expire == BaseExpire(ViewOf(At(s, k), now))
  }

  lemma MissingTarget(d: Db, k: Key, now: nat)
    requires d.Valid() && At(d.store, k) == NOTHING
    ensures PushTarget(d.store, k, BLANK, now)
  {
    hide *;
    var f := At(d.store, k);
    BlankReads(f, now);
    NothingIsAbsent(f, now);
    BaseOfAbsent(ViewOf(f, now));
    TargetParts(d, k, BLANK, now);
  }

  lemma NothingIsAbsent(f: Family, now: nat)
    requires f == NOTHING
    ensures Ok(f) && ViewOf(f, now) == Absent
  {
  }

  lemma TargetParts(d: Db, k: Key, m: Meta, now: nat)
    requires d.Valid() && !Due(m.expire, now)
    requires !At(d.store, k).foreign && At(d.store, k).index <= IndexFor(m.expire)
    requires OkWindows(m, At(d.store, k).left, At(d.store, k).right)
    requires !ViewOf(At(d.store, k), now).OtherType? && BaseExpire(ViewOf(At(d.store, k), now)) == m.expire
    requires BaseItems(ViewOf(At(d.store, k), now)) == Items(m, At(d.store, k).left, At(d.store, k).right)
    ensures PushTarget(d.store, k, m, now)
  {
    hide Items, OkWindows, ViewOf, BaseItems, BaseExpire, Due, IndexFor;
  }

  lemma PresentTarget(d: Db, k: Key, m: Meta, now: nat)
    requires d.Valid() && OkList(At(d.store, k), m) && !Due(m.expire, now)
    ensures PushTarget(d.store, k, m, now)
  {
    hide Items, OkWindows;
  }

  /** List state of a key a push may start from; nothing when it holds another type. */
  method ResolvePush(d: Db, key: Key, now: nat) returns (m: Option<Meta>)
    requires d.Valid()
    modifies d
    ensures d.Valid() && SameElsewhere(old(d.store), d.store, key)
    ensures d.See(key, now) == old(d.See(key, now))
    ensures !d.See(key, now).Absent? ==> d.store == old(d.store)
    ensures m.None? <==> d.See(key, now).OtherType?
    ensures m.Some? ==> PushTarget(d.store, key, m.value, now)
  {
    hide *;
    var st := d.Resolve(key, now);
    match st {
      case WrongType =>
        return None;
      case Missing =>
        MissingTarget(d, key, now);
        return Some(BLANK);
      case Present(meta) =>
        PresentTarget(d, key, meta, now);
        return Some(meta);
    }
  }

  /** LMOVE/RPOPLPUSH: pop one end of `src`, push one end of `dst`, one commit for both. */
  method MoveElem(d: Db, src: Key, dst: Key, popLeft: bool, pushLeft: bool, now: nat) returns (reply: Reply)
    requires d.Valid()
    modifies d
    ensures d.Valid() && forall k :: k != src && k != dst ==> At(d.store, k) == At(old(d.store), k)
    ensures (d.See(src, now), d.See(dst, now), reply) ==
            MoveSpec(old(d.See(src, now)), old(d.See(dst, now)), src == dst, popLeft, pushLeft)
  {
    hide Ok, Items, OkWindows, ViewOf, AllOk, Remaining, Taken, Pushed, Commit, PushTarget, OkList, PopTarget, PushSpec, Settled;
    var st := d.Resolve(src, now);
    match st {
      case Missing =>
        return Nil;
      case WrongType =>
        return WrongKind;
      case Present(m) =>
        var target := ResolvePush(d, dst, now);
        if target.None? {
          return WrongKind;
        }
        var f := At(d.store, src);
        assert OkWindows(m, f.left, f.right) && m.Len() > 0 && m.lCount <= m.lNext && m.rCount <= m.rNext by {
          ListCounts(f, m);
        }
        TargetIsEnd(f, m, popLeft);
        var (isLeft, idx) := PopTarget(m, popLeft);
        var e := Side(f, isLeft)[idx];
        if src == dst {
          Rotate(d, src, m, e, popLeft, pushLeft, now);
        } else {
          Transfer(d, src, dst, m, target.value, e, popLeft, pushLeft, now);
        }
        return Bulk(e);
    }
  }

  lemma ListCounts(f: Family, m: Meta)
    requires OkList(f, m)
    ensures OkWindows(m, f.left, f.right) && m.Len() > 0 && m.lCount <= m.lNext && m.rCount <= m.rNext
  {
  }

  /** Two keys: the source's half of the batch, then the destination's. */
  method Transfer(d: Db, src: Key, dst: Key, m: Meta, base: Meta, e: Elem, popLeft: bool, pushLeft: bool, ghost now: nat)
    requires d.Valid() && src != dst && OkList(At(d.store, src), m) && !Due(m.expire, now)
    requires PushTarget(d.store, dst, base, now)
    modifies d
    ensures d.Valid() && forall k :: k != src && k != dst ==> At(d.store, k) == At(old(d.store), k)
    ensures d.See(src, now) ==
            Settled(Remaining(old(Items(m, At(d.store, src).left, At(d.store, src).right)), popLeft, 1), m.expire)
    ensures d.See(dst, now) == PushSpec(old(d.See(dst, now)), [e], pushLeft, true).0
  {
    hide Ok, Items, Window, Remaining, Pushed, Commit, PopHalf, PushHalf;
    ghost var s := d.store;
    CommitConcat(s, PopHalf(src, m, popLeft), PushHalf(dst, base, e, pushLeft));
    PopHalfEffect(s, src, m, popLeft, now);
    ghost var t := Commit(s, PopHalf(src, m, popLeft));
    assert At(t, dst) == At(s, dst);
    PushHalfEffect(t, dst, base, e, pushLeft, now);
    d.store := Commit(d.store, PopHalf(src, m, popLeft) + PushHalf(dst, base, e, pushLeft));
    assert At(d.store, src) == At(t, src);
  }

  /** One key: both halves merge into one meta, and the later root write wins. */
  method Rotate(d: Db, key: Key, m: Meta, e: Elem, popLeft: bool, pushLeft: bool, ghost now: nat)
    requires d.Valid() && OkList(At(d.store, key), m) && !Due(m.expire, now)
    modifies d
    ensures d.Valid() && SameElsewhere(old(d.store), d.store, key)
    ensures d.See(key, now) ==
            List(Pushed(Remaining(old(Items(m, At(d.store, key).left, At(d.store, key).right)), popLeft, 1), [e], pushLeft), m.expire)
  {
    hide Ok, Items, Window, Remaining, Commit, Run, PushedFamily;
    ghost var f := At(d.store, key);
    var (isLeft, idx) := PopTarget(m, popLeft);
    var mid := AfterPopOne(m, popLeft);
    var del, put := DelElem(key, isLeft, idx), PutElem(key, pushLeft, NextIdx(mid, pushLeft), e);
    PopOneEffect(f, m, popLeft);
    RunSingle(f, del);
    ghost var g := PopOneFamily(f, m, popLeft);
    PushEffect(g, key, mid, [e], pushLeft);
    assert Puts(key, pushLeft, Numbered([e], NextIdx(mid, pushLeft))) == [put];
    RunConcat(f, [del], [put]);
    ghost var h := PushedFamily(g, mid, [e], pushLeft);
    var after := Grown(mid, pushLeft, 1);
    Committed(d.store, key, [del] + [put], after, h.left, h.right, now);
    d.CommitList(key, m.expire, Some(after), [del] + [put]);
  }

  // ---- the two commits of a blocking move ----

  /** Outcome of one latched look at a key by a blocking pop. */
  datatype Quick = Got(e: Elem) | Empty | Refused

  /** The quick path of BLPOP/BRPOP/BLMOVE on one key: pop one element and commit, if there is one. */
  method QuickPop(d: Db, key: Key, left: bool, now: nat) returns (r: Quick)
    requires d.Valid()
    modifies d
    ensures d.Valid() && SameElsewhere(old(d.store), d.store, key)
    ensures d.See(key, now) == PopSpec(old(d.See(key, now)), left, None).0
    ensures match old(d.See(key, now))
            case OtherType => r == Refused
            case Absent => r == Empty
            case List(xs, _) => r == Got(xs[if left then 0 else |xs| - 1])
  {
    hide Items, ViewOf, Ok, OkWindows, Commit, PopHalf, Remaining, Taken, PopTarget;
    var st := d.Resolve(key, now);
    match st {
      case WrongType =>
        return Refused;
      case Missing =>
        return Empty;
      case Present(m) =>
        var f := At(d.store, key);
        ListCounts(f, m);
        TargetIsEnd(f, m, left);
        TakeOne(Items(m, f.left, f.right), left);
        var (isLeft, idx) := PopTarget(m, left);
        r := Got(Side(f, isLeft)[idx]);
        PopHalfEffect(d.store, key, m, left, now);
        d.store := Commit(d.store, PopHalf(key, m, left));
    }
  }

  /**
   * The second commit of BLMOVE, and the restore when its destination turned into another type: push
   * one element. Refused, with nothing changed, exactly when the key holds another type.
   */
  method PushOne(d: Db, key: Key, e: Elem, left: bool, now: nat) returns (ok: bool)
    requires d.Valid()
    modifies d
    ensures d.Valid() && SameElsewhere(old(d.store), d.store, key)
    ensures ok <==> !old(d.See(key, now)).OtherType?
    ensures d.See(key, now) == PushSpec(old(d.See(key, now)), [e], left, true).0
  {
    hide Items, ViewOf, Ok, OkWindows, Commit, PushHalf, Pushed;
    var m := ResolvePush(d, key, now);
    if m.None? {
      return false;
    }
    PushHalfEffect(d.store, key, m.value, e, left, now);
    d.store := Commit(d.store, PushHalf(key, m.value, e, left));
    return true;
  }

  /** Restoring a popped element onto the end it came from puts the list back as it was. */
  lemma RestoreUndoesPop(xs: seq<Elem>, expire: nat, left: bool)
    requires xs != []
    ensures var (v, popped) := PopSpec(List(xs, expire), left, None);
            PushSpec(v, popped.value, left, true).0 == List(xs, if |xs| == 1 then 0 else expire)
  {
    var rest := Remaining(xs, left, 1);
    TakeOne(xs, left);
    var x := xs[if left then 0 else |xs| - 1];
    assert Reversed([x]) == [x];
    assert Pushed(rest, [x], left) == xs;
  }

  /** A list of one element comes back without its deadline. */
  lemma RestoreLosesDeadlineExample(x: Elem, expire: nat, left: bool)
    requires expire != 0
    ensures var (v, popped) := PopSpec(List([x], expire), left, None);
            && popped == Some([x])
            && PushSpec(v, popped.value, left, true).0 == List([x], 0) != List([x], expire)
  {
    RestoreUndoesPop([x], expire, left);
    TakeOne([x], left);
  }
}
