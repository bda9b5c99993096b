/** Pushes and pops at either end, across the boundary between the two windows. */
module ListEnds {
  import opened Bytes
  import opened ListStore
  import opened ListSpec
  import opened ListCompact
  import opened ListRewrite
  import opened ListWindow
  import opened ListDb

  // ---- what the commands promise ----

  function Pushed(xs: seq<Elem>, es: seq<Elem>, left: bool): (ys: seq<Elem>) {
    if left then Reversed(es) + xs else xs + es
  }

  function PushSpec(v: View, es: seq<Elem>, left: bool, create: bool): (View, Reply) {
    match v
    case OtherType => (v, WrongKind)
    case Absent => if create then (List(Pushed([], es, left), 0), Count(|es|)) else (v, Count(0))
    case List(xs, expire) => (List(Pushed(xs, es, left), expire), Count(|xs| + |es|))
  }

  /** The `n` elements a pop takes, in reply order. */
  function Taken(xs: seq<Elem>, left: bool, n: nat): (r: seq<Elem>)
    requires n <= |xs|
    ensures |r| == n
  {
    if left then xs[..n] else Reversed(xs[|xs| - n..])
  }

  function Remaining(xs: seq<Elem>, left: bool, n: nat): seq<Elem>
    requires n <= |xs|
  {
    if left then xs[n..] else xs[..|xs| - n]
  }

  /** How many elements LPOP/RPOP takes from a list of `len`: one without a count argument. */
  function PopCount(count: Option<nat>, len: nat): (n: nat)
    requires len > 0
    ensures n <= len
  {
    match count
    case None => 1
    case Some(c) => if c < len then c else len
  }

  function PopSpec(v: View, left: bool, count: Option<nat>): (View, Option<seq<Elem>>)
    requires v.List? ==> v.elems != []
  {
    match v
    case OtherType => (v, None)
    case Absent => (v, Some([]))
    case List(xs, expire) =>
      var n := PopCount(count, |xs|);
      (Settled(Remaining(xs, left, n), expire), Some(Taken(xs, left, n)))
  }

  // ---- pushes ----

  function Grown(m: Meta, left: bool, n: nat): Meta {
    if left then m.(lNext := m.lNext + n, lCount := m.lCount + n)
    else m.(rNext := m.rNext + n, rCount := m.rCount + n)
  }

  function NextIdx(m: Meta, left: bool): nat {
    if left then m.lNext else m.rNext
  }

  /** The family after the puts of a push. */
  ghost function PushedFamily(f: Family, m: Meta, es: seq<Elem>, left: bool): Family {
    WithSide(f, left, Side(f, left) + Entries(Numbered(es, NextIdx(m, left))))
  }

  lemma PushEffect(f: Family, k: Key, m: Meta, es: seq<Elem>, left: bool)
    requires OkWindows(m, f.left, f.right)
    ensures var g := PushedFamily(f, m, es, left);
            && Run(f, Puts(k, left, Numbered(es, NextIdx(m, left)))) == g
            && g == f.(left := g.left, right := g.right)
            && OkWindows(Grown(m, left, |es|), g.left, g.right)
            && Items(Grown(m, left, |es|), g.left, g.right) == Pushed(Items(m, f.left, f.right), es, left)
  {
    hide Run, Entries, Reads, Window, Numbered;
    RunPuts(f, k, left, Numbered(es, NextIdx(m, left)));
    var g := PushedFamily(f, m, es, left);
    var a, b := LeftSeq(f.left, m.lNext, m.lCount), RightSeq(f.right, m.rNext, m.rCount);
    ReadsLeft(f.left, m.lNext, m.lCount);
    ReadsRight(f.right, m.rNext, m.rCount);
    if left {
      PutOnTop(f.left, true, m.lNext, a, es);
      ReadsItems(Grown(m, left, |es|), g.left, g.right, Reversed(es) + a, b);
    } else {
      PutOnTop(f.right, false, m.rNext, b, es);
      ReadsItems(Grown(m, left, |es|), g.left, g.right, a, b + es);
    }
    PushHalves(a, b, es, left);
  }

  lemma PushHalves(a: seq<Elem>, b: seq<Elem>, es: seq<Elem>, left: bool)
    ensures Pushed(a + b, es, left) == if left then (Reversed(es) + a) + b else a + (b + es)
  {
  }

  /** LPUSH/RPUSH and their X variants: at least one element, appended at one end in one batch. */
  method Push(d: Db, key: Key, es: seq<Elem>, left: bool, create: bool, now: nat) returns (reply: Reply)
    requires d.Valid() && es != []
    modifies d
    ensures d.Valid() && SameElsewhere(old(d.store), d.store, key)
    ensures (d.See(key, now), reply) == PushSpec(old(d.See(key, now)), es, left, create)
  {
    hide Pushed, Items, ViewOf, Ok, OkWindows;
    var st := d.Resolve(key, now);
    match st {
      case WrongType =>
        return WrongKind;
      case Missing =>
        if !create {
          return Count(0);
        }
        PushMissing(d, key, es, left, now);
        reply := Count(|es|);
      case Present(m) =>
        CommitPush(d, key, m, es, left, now);
        reply := Count(m.Len() + |es|);
    }
  }

  /** A push onto a missing key starts from the blank meta. */
  method PushMissing(d: Db, key: Key, es: seq<Elem>, left: bool, ghost now: nat)
    requires d.Valid() && es != [] && At(d.store, key) == NOTHING
    modifies d
    ensures d.Valid() && SameElsewhere(old(d.store), d.store, key)
    ensures d.See(key, now) == List(Pushed([], es, left), 0)
  {
    hide *;
    BlankReads(At(d.store, key), now);
    CommitPush(d, key, BLANK, es, left, now);
  }

  /** Put `es` on top of one side of the list `m` and commit. */
  method CommitPush(d: Db, key: Key, m: Meta, es: seq<Elem>, left: bool, ghost now: nat)
    requires !Due(m.expire, now)
    requires d.Valid() && es != [] && !At(d.store, key).foreign
    requires At(d.store, key).index <= IndexFor(m.expire)
    requires OkWindows(m, At(d.store, key).left, At(d.store, key).right)
    modifies d
    ensures d.Valid() && SameElsewhere(old(d.store), d.store, key)
    ensures d.See(key, now) == List(Pushed(old(Items(m, At(d.store, key).left, At(d.store, key).right)), es, left), m.expire)
  {
    hide Run, Commit, PushedFamily, Items, OkWindows;
    ghost var f := At(d.store, key);
    var batch := AppendPuts([], key, left, Numbered(es, NextIdx(m, left)));
    assert batch == Puts(key, left, Numbered(es, NextIdx(m, left)));
    PushEffect(f, key, m, es, left);
    ghost var g := PushedFamily(f, m, es, left);
    var after := Grown(m, left, |es|);
    Committed(d.store, key, batch, after, g.left, g.right, now);
    d.CommitList(key, m.expire, Some(after), batch);
  }

  /** A missing list is the blank meta over no entries. */
  lemma BlankReads(f: Family, now: nat)
    requires f == NOTHING
    ensures BLANK.expire == 0 && !Due(BLANK.expire, now)
    ensures !f.foreign && f.index <= IndexFor(BLANK.expire)
    ensures OkWindows(BLANK, f.left, f.right) && Items(BLANK, f.left, f.right) == []
  {
  }

  // ---- pops ----

  /** O(1) target of a pop: the own side's top, else the far side's bottom. */
  function PopTarget(m: Meta, left: bool): (r: (bool, nat))
    requires m.Len() > 0 && m.lCount <= m.lNext && m.rCount <= m.rNext
    ensures if r.0 then m.lNext - m.lCount <= r.1 < m.lNext else m.rNext - m.rCount <= r.1 < m.rNext
  {
    if left then
      if m.lCount > 0 then (true, m.lNext - 1) else (false, m.rNext - m.rCount)
    else
      if m.rCount > 0 then (false, m.rNext - 1) else (true, m.lNext - m.lCount)
  }

  /** The meta after removing the target alone: a top removal also lowers `next`. */
  function AfterPopOne(m: Meta, left: bool): Meta
    requires m.Len() > 0 && m.lCount <= m.lNext && m.rCount <= m.rNext
  {
    var (isLeft, idx) := PopTarget(m, left);
    if isLeft then m.(lCount := m.lCount - 1, lNext := if idx == m.lNext - 1 then m.lNext - 1 else m.lNext)
    else m.(rCount := m.rCount - 1, rNext := if idx == m.rNext - 1 then m.rNext - 1 else m.rNext)
  }

  /** The meta after a counted pop: own side off the top, far side off the bottom. */
  function AfterPop(m: Meta, left: bool, takeL: nat, takeR: nat): Meta
    requires takeL <= m.lCount <= m.lNext && takeR <= m.rCount <= m.rNext
  {
    if left then m.(lNext := m.lNext - takeL, lCount := m.lCount - takeL, rCount := m.rCount - takeR)
    else m.(rNext := m.rNext - takeR, rCount := m.rCount - takeR, lCount := m.lCount - takeL)
  }

  function PopOps(k: Key, m: Meta, left: bool, takeL: nat, takeR: nat): (b: seq<Op>)
    requires takeL <= m.lCount <= m.lNext && takeR <= m.rCount <= m.rNext
    ensures OnlyOn(b, k)
  {
    if left then Dels(k, true, Down(m.lNext, takeL)) + Dels(k, false, Up(m.rNext - m.rCount, takeR))
    else Dels(k, false, Down(m.rNext, takeR)) + Dels(k, true, Up(m.lNext - m.lCount, takeL))
  }

  /** The family after the deletes of a counted pop. */
  ghost function PoppedFamily(f: Family, m: Meta, left: bool, takeL: nat, takeR: nat): Family
    requires takeL <= m.lCount <= m.lNext && takeR <= m.rCount <= m.rNext
  {
    if left then
      f.(left := Cut(f.left, m.lNext - takeL, m.lNext),
         right := Cut(f.right, m.rNext - m.rCount, m.rNext - m.rCount + takeR))
    else
      f.(left := Cut(f.left, m.lNext - m.lCount, m.lNext - m.lCount + takeL),
         right := Cut(f.right, m.rNext - takeR, m.rNext))
  }

  lemma PopRun(f: Family, k: Key, m: Meta, left: bool, takeL: nat, takeR: nat)
    requires takeL <= m.lCount <= m.lNext && takeR <= m.rCount <= m.rNext
    ensures Run(f, PopOps(k, m, left, takeL, takeR)) == PoppedFamily(f, m, left, takeL, takeR)
  {
    hide Run, Cut;
    if left {
      PopRuns(f, k, true, Down(m.lNext, takeL), Up(m.rNext - m.rCount, takeR));
      CutDown(f.left, m.lNext, takeL);
      CutUp(f.right, m.rNext - m.rCount, takeR);
    } else {
      PopRuns(f, k, false, Down(m.rNext, takeR), Up(m.lNext - m.lCount, takeL));
      CutDown(f.right, m.rNext, takeR);
      CutUp(f.left, m.lNext - m.lCount, takeL);
    }
  }

  /** What is left after the deletes of a counted pop reads as the remaining elements. */
  lemma PopEffect(f: Family, m: Meta, left: bool, takeL: nat, takeR: nat)
    requires OkWindows(m, f.left, f.right)
    requires takeL <= m.lCount && takeR <= m.rCount
    requires if left then takeR == 0 || takeL == m.lCount else takeL == 0 || takeR == m.rCount
    ensures var g := PoppedFamily(f, m, left, takeL, takeR);
            var after := AfterPop(m, left, takeL, takeR);
            && OkWindows(after, g.left, g.right)
            && Items(after, g.left, g.right) == Remaining(Items(m, f.left, f.right), left, takeL + takeR)
  {
    hide Cut, Reads, Remaining, Window;
    var a, b := LeftSeq(f.left, m.lNext, m.lCount), RightSeq(f.right, m.rNext, m.rCount);
    ReadsLeft(f.left, m.lNext, m.lCount);
    ReadsRight(f.right, m.rNext, m.rCount);
    RemainingOfHalves(a, b, left, takeL, takeR);
    var g, after := PoppedFamily(f, m, left, takeL, takeR), AfterPop(m, left, takeL, takeR);
    if left {
      CutTop(f.left, true, m.lNext, a, takeL);
      CutBottom(f.right, false, m.rNext, b, takeR);
      ReadsItems(after, g.left, g.right, a[takeL..], b[takeR..]);
    } else {
      CutBottom(f.left, true, m.lNext, a, takeL);
      CutTop(f.right, false, m.rNext, b, takeR);
      ReadsItems(after, g.left, g.right, a[..m.lCount - takeL], b[..m.rCount - takeR]);
    }
  }

  /** What remains of two halves when the first is used up before the second is touched. */
  lemma RemainingOfHalves(a: seq<Elem>, b: seq<Elem>, left: bool, takeL: nat, takeR: nat)
    requires takeL <= |a| && takeR <= |b|
    requires if left then takeR == 0 || takeL == |a| else takeL == 0 || takeR == |b|
    ensures Remaining(a + b, left, takeL + takeR) ==
            if left then a[takeL..] + b[takeR..] else a[..|a| - takeL] + b[..|b| - takeR]
  {
  }

  lemma PopRuns(f: Family, k: Key, first: bool, a: seq<nat>, b: seq<nat>)
    ensures Run(f, Dels(k, first, a) + Dels(k, !first, b)) ==
            WithSide(WithSide(f, first, Side(f, first) - (set i | i in a)), !first, Side(f, !first) - (set i | i in b))
  {
    hide Run;
    RunConcat(f, Dels(k, first, a), Dels(k, !first, b));
    RunDels(f, k, first, a);
    RunDels(WithSide(f, first, Side(f, first) - (set i | i in a)), k, !first, b);
  }

  /** The element under a logical position. */
  function ElemAt(f: Family, m: Meta, p: nat): (e: Elem)
    requires OkWindows(m, f.left, f.right) && p < m.Len()
    ensures e == Items(m, f.left, f.right)[p]
  {
    if p < m.lCount then f.left[m.lNext - 1 - p] else f.right[m.rNext - m.rCount + (p - m.lCount)]
  }

  function CollectRange(f: Family, m: Meta, from: nat, n: nat): (es: seq<Elem>)
    requires OkWindows(m, f.left, f.right) && from + n <= m.Len()
    ensures |es| == n
  {
    seq(n, i requires 0 <= i < n => ElemAt(f, m, from + i))
  }

  lemma CollectedIsSlice(f: Family, m: Meta, from: nat, n: nat)
    requires OkWindows(m, f.left, f.right) && from + n <= m.Len()
    ensures CollectRange(f, m, from, n) == Items(m, f.left, f.right)[from..from + n]
  {
    hide Items, OkWindows;
    var es, xs := CollectRange(f, m, from, n), Items(m, f.left, f.right);
    forall i | 0 <= i < n ensures es[i] == xs[from..from + n][i] {
      assert es[i] == ElemAt(f, m, from + i);
    }
  }

  /** The O(1) target holds the first (or last) element of the list. */
  lemma TargetIsEnd(f: Family, m: Meta, left: bool)
    requires OkWindows(m, f.left, f.right) && m.Len() > 0
    ensures PopTarget(m, left).1 in Side(f, PopTarget(m, left).0)
    ensures [Side(f, PopTarget(m, left).0)[PopTarget(m, left).1]] == Taken(Items(m, f.left, f.right), left, 1)
  {
    hide Items;
    var xs := Items(m, f.left, f.right);
    var p := if left then 0 else m.Len() - 1;
    assert Side(f, PopTarget(m, left).0)[PopTarget(m, left).1] == ElemAt(f, m, p) == xs[p];
    TakeOne(xs, left);
  }

  function Shares(m: Meta, left: bool, n: nat): (t: (nat, nat))
    requires n <= m.Len()
    ensures t.0 + t.1 == n && t.0 <= m.lCount && t.1 <= m.rCount
    ensures if left then t.1 == 0 || t.0 == m.lCount else t.0 == 0 || t.1 == m.rCount
  {
    if left then
      var tl := if n < m.lCount then n else m.lCount;
      (tl, n - tl)
    else
      var tr := if n < m.rCount then n else m.rCount;
      (n - tr, tr)
  }

  /** Counted pop off one end: the reply, and the list that is left. */
  method PopCore(d: Db, key: Key, left: bool, count: Option<nat>, now: nat) returns (elems: Option<seq<Elem>>)
    requires d.Valid()
    modifies d
    ensures d.Valid() && SameElsewhere(old(d.store), d.store, key)
    ensures (d.See(key, now), elems) == PopSpec(old(d.See(key, now)), left, count)
  {
    hide Run, Commit, PopOps, PoppedFamily, Items, AfterPop, Taken, Remaining;
    var st := d.Resolve(key, now);
    match st {
      case WrongType =>
        return None;
      case Missing =>
        return Some([]);
      case Present(m) =>
        var f := At(d.store, key);
        ghost var xs := Items(m, f.left, f.right);
        if count == Some(0) {
          TakeNone(xs, left);
          return Some([]);
        }
        var n := PopCount(count, m.Len());
        var es := ReadPopped(f, m, left, n);
        CommitPop(d, key, m, left, n, now);
        return Some(es);
    }
  }

  lemma TakeOne(xs: seq<Elem>, left: bool)
    requires xs != []
    ensures Taken(xs, left, 1) == [xs[if left then 0 else |xs| - 1]]
  {
  }

  lemma TakeNone(xs: seq<Elem>, left: bool)
    ensures Taken(xs, left, 0) == [] && Remaining(xs, left, 0) == xs
  {
  }

  /** Delete `n` entries off one end and commit what is left. */
  method CommitPop(d: Db, key: Key, m: Meta, left: bool, n: nat, ghost now: nat)
    requires !Due(m.expire, now)
    requires d.Valid() && At(d.store, key).meta == Some(m) && n <= m.Len()
    modifies d
    ensures d.Valid() && SameElsewhere(old(d.store), d.store, key)
    ensures d.See(key, now) == Settled(Remaining(old(Items(m, At(d.store, key).left, At(d.store, key).right)), left, n), m.expire)
  {
    hide Run, Commit, PopOps, Items, Remaining, Window;
    ghost var f := At(d.store, key);
    var (takeL, takeR) := Shares(m, left, n);
    var batch := BuildPop(key, m, left, takeL, takeR);
    var after := AfterPop(m, left, takeL, takeR);
    PopRun(f, key, m, left, takeL, takeR);
    PopEffect(f, m, left, takeL, takeR);
    ghost var g := PoppedFamily(f, m, left, takeL, takeR);
    Committed(d.store, key, batch, after, g.left, g.right, now);
    d.CommitList(key, m.expire, if after.Len() == 0 then None else Some(after), batch);
  }

  method ReadPopped(f: Family, m: Meta, left: bool, n: nat) returns (es: seq<Elem>)
    requires OkWindows(m, f.left, f.right) && 0 < n <= m.Len()
    ensures es == Taken(Items(m, f.left, f.right), left, n)
  {
    if n == 1 {
      TargetIsEnd(f, m, left);
      var (isLeft, idx) := PopTarget(m, left);
      es := [Side(f, isLeft)[idx]];
    } else {
      CollectedIsSlice(f, m, if left then 0 else m.Len() - n, n);
      es := CollectRange(f, m, if left then 0 else m.Len() - n, n);
      if !left {
        es := Reversed(es);
      }
    }
  }

  method BuildPop(key: Key, m: Meta, left: bool, takeL: nat, takeR: nat) returns (batch: seq<Op>)
    requires takeL <= m.lCount <= m.lNext && takeR <= m.rCount <= m.rNext
    ensures batch == PopOps(key, m, left, takeL, takeR)
  {
    if left {
      batch := AppendDels([], key, true, Down(m.lNext, takeL));
      batch := AppendDels(batch, key, false, Up(m.rNext - m.rCount, takeR));
    } else {
      batch := AppendDels([], key, false, Down(m.rNext, takeR));
      batch := AppendDels(batch, key, true, Up(m.lNext - m.lCount, takeL));
    }
  }
}
