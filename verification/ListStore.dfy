/**
 * The physical side of a list: one root record with two index windows, the element records of both
 * windows, the expire-index entry, and the ordered write batches that change them.
 */
module ListStore {
  import opened Bytes

  datatype Elem = Elem(bytes: Bytes)

  /** Root counters. The live left indices are [lNext - lCount, lNext), the right ones [rNext - rCount, rNext). */
  datatype Meta = Meta(expire: nat, lCount: nat, lNext: nat, rCount: nat, rNext: nat) {
    function Len(): nat { lCount + rCount }
  }

  const BLANK := Meta(0, 0, 0, 0, 0)

  /** Every record stored for one user key; `foreign` says that it holds some other type. */
  datatype Family = Family(
    foreign: bool,
    meta: Option<Meta>,
    left: map<nat, Elem>,
    right: map<nat, Elem>,
    index: set<nat>)

  const NOTHING := Family(false, None, map[], map[], {})

  type Store = map<Key, Family>

  function At(s: Store, k: Key): Family {
    if k in s then s[k] else NOTHING
  }

  function Side(f: Family, left: bool): map<nat, Elem> {
    if left then f.left else f.right
  }

  function WithSide(f: Family, left: bool, m: map<nat, Elem>): Family {
    if left then f.(left := m) else f.(right := m)
  }

  /** One write of a batch. `DropFamily` is the range delete over the list's three record kinds. */
  datatype Op =
    | PutElem(key: Key, left: bool, idx: nat, elem: Elem)
    | DelElem(key: Key, left: bool, idx: nat)
    | PutMeta(key: Key, meta: Meta)
    | DropFamily(key: Key)
    | PutIndex(key: Key, at: nat)
    | DelIndex(key: Key, at: nat)

  function OnFamily(f: Family, op: Op): Family {
    match op
    case PutElem(_, left, idx, elem) => WithSide(f, left, Side(f, left)[idx := elem])
    case DelElem(_, left, idx) => WithSide(f, left, Side(f, left) - {idx})
    case PutMeta(_, m) => f.(meta := Some(m))
    case DropFamily(_) => f.(meta := None, left := map[], right := map[])
    case PutIndex(_, at) => f.(index := f.index + {at})
    case DelIndex(_, at) => f.(index := f.index - {at})
  }

  /** A committed batch applies its writes in order. */
  function Commit(s: Store, b: seq<Op>): Store
    decreases |b|
  {
    if b == [] then s
    else Commit(s[b[0].key := OnFamily(At(s, b[0].key), b[0])], b[1..])
  }

  /** The same writes seen by one family. */
  function Run(f: Family, b: seq<Op>): Family
    decreases |b|
  {
    if b == [] then f else Run(OnFamily(f, b[0]), b[1..])
  }

  predicate OnlyOn(b: seq<Op>, k: Key) {
    forall i :: 0 <= i < |b| ==> b[i].key == k
  }

  /** A batch confined to one key changes that key's family and nothing else. */
  lemma {:induction false} CommitOne(s: Store, b: seq<Op>, k: Key)
    requires OnlyOn(b, k)
    ensures At(Commit(s, b), k) == Run(At(s, k), b)
    ensures forall k' :: k' != k ==> At(Commit(s, b), k') == At(s, k')
    decreases |b|
  {
    if b != [] {
      CommitOne(s[b[0].key := OnFamily(At(s, b[0].key), b[0])], b[1..], k);
    }
  }

  lemma {:induction false} CommitConcat(s: Store, a: seq<Op>, b: seq<Op>)
    ensures Commit(s, a + b) == Commit(Commit(s, a), b)
    decreases |a|
  {
    if a == [] {
      assert a + b == b;
    } else {
      assert (a + b)[1..] == a[1..] + b;
      CommitConcat(s[a[0].key := OnFamily(At(s, a[0].key), a[0])], a[1..], b);
    }
  }

  lemma {:induction false} RunConcat(f: Family, a: seq<Op>, b: seq<Op>)
    ensures Run(f, a + b) == Run(Run(f, a), b)
    decreases |a|
  {
    if a == [] {
      assert a + b == b;
    } else {
      assert (a + b)[1..] == a[1..] + b;
      RunConcat(OnFamily(f, a[0]), a[1..], b);
    }
  }

  lemma RunLast(f: Family, b: seq<Op>, op: Op)
    ensures Run(f, b + [op]) == OnFamily(Run(f, b), op)
  {
    RunConcat(f, b, [op]);
    assert Run(Run(f, b), [op]) == OnFamily(Run(f, b), op) by {
      assert [op][1..] == [];
    }
  }

  // ---- blocks of element deletes and puts on one side ----

  function Dels(k: Key, left: bool, idxs: seq<nat>): (b: seq<Op>)
    ensures |b| == |idxs| && OnlyOn(b, k)
  {
    seq(|idxs|, i requires 0 <= i < |idxs| => DelElem(k, left, idxs[i]))
  }

  function Puts(k: Key, left: bool, es: seq<(nat, Elem)>): (b: seq<Op>)
    ensures |b| == |es| && OnlyOn(b, k)
  {
    seq(|es|, i requires 0 <= i < |es| => PutElem(k, left, es[i].0, es[i].1))
  }

  ghost predicate DistinctIndices(es: seq<(nat, Elem)>) {
    forall i, j :: 0 <= i < j < |es| ==> es[i].0 != es[j].0
  }

  /** The map that holds exactly the given entries. */
  ghost function Entries(es: seq<(nat, Elem)>): map<nat, Elem> {
    if es == [] then map[]
    else Entries(es[..|es| - 1])[es[|es| - 1].0 := es[|es| - 1].1]
  }

  lemma {:induction false} EntriesAre(es: seq<(nat, Elem)>)
    ensures forall x :: x in Entries(es) ==> exists i :: 0 <= i < |es| && es[i].0 == x
    ensures forall i :: 0 <= i < |es| ==> es[i].0 in Entries(es)
    ensures DistinctIndices(es) ==> forall i :: 0 <= i < |es| ==> Entries(es)[es[i].0] == es[i].1
    decreases |es|
  {
    if es != [] {
      var rest := es[..|es| - 1];
      EntriesAre(rest);
      assert forall i :: 0 <= i < |rest| ==> es[i] == rest[i];
      forall x | x in Entries(es) ensures exists i :: 0 <= i < |es| && es[i].0 == x {
        if x in Entries(rest) {
          var i :| 0 <= i < |rest| && rest[i].0 == x;
          assert es[i].0 == x;
        } else {
          assert es[|es| - 1].0 == x;
        }
      }
    }
  }

  lemma {:induction false} RunDels(f: Family, k: Key, left: bool, idxs: seq<nat>)
    ensures Run(f, Dels(k, left, idxs)) == WithSide(f, left, Side(f, left) - (set i | i in idxs))
    decreases |idxs|
  {
    if idxs == [] {
      assert Side(f, left) - (set i | i in idxs) == Side(f, left);
    } else {
      hide Run;
      var n := |idxs| - 1;
      var rest, op := idxs[..n], DelElem(k, left, idxs[n]);
      assert idxs == rest + [idxs[n]];
      assert Dels(k, left, idxs) == Dels(k, left, rest) + [op];
      RunDels(f, k, left, rest);
      RunLast(f, Dels(k, left, rest), op);
      assert (set i | i in idxs) == (set i | i in rest) + {idxs[n]};
      MinusTwice(Side(f, left), set i | i in rest, {idxs[n]});
    }
  }

  lemma MinusTwice(m: map<nat, Elem>, a: set<nat>, b: set<nat>)
    ensures m - a - b == m - (a + b)
  {
  }

  lemma {:induction false} RunPuts(f: Family, k: Key, left: bool, es: seq<(nat, Elem)>)
    ensures Run(f, Puts(k, left, es)) == WithSide(f, left, Side(f, left) + Entries(es))
    decreases |es|
  {
    if es == [] {
      assert Side(f, left) + Entries(es) == Side(f, left);
    } else {
      hide Run;
      var n := |es| - 1;
      var rest, op := es[..n], PutElem(k, left, es[n].0, es[n].1);
      assert Puts(k, left, es) == Puts(k, left, rest) + [op];
      RunPuts(f, k, left, rest);
      RunLast(f, Puts(k, left, rest), op);
      PlusThenUpdate(Side(f, left), Entries(rest), es[n].0, es[n].1);
    }
  }

  lemma PlusThenUpdate(m: map<nat, Elem>, a: map<nat, Elem>, x: nat, e: Elem)
    ensures (m + a)[x := e] == m + a[x := e]
  {
  }

  // ---- what a well-formed list family denotes ----

  ghost predicate Window(m: map<nat, Elem>, lo: nat, hi: nat) {
    forall i :: i in m <==> lo <= i < hi
  }

  function IndexFor(expire: nat): set<nat> {
    if expire > 0 then {expire} else {}
  }

  ghost predicate OkWindows(m: Meta, left: map<nat, Elem>, right: map<nat, Elem>) {
    && m.lCount <= m.lNext
    && m.rCount <= m.rNext
    && Window(left, m.lNext - m.lCount, m.lNext)
    && Window(right, m.rNext - m.rCount, m.rNext)
  }

  /** Both windows dense, no stray record, no empty list, and one index entry exactly when a deadline is set. */
  ghost predicate Ok(f: Family) {
    match f.meta
    case None => f.left == map[] && f.right == map[] && f.index == {}
    case Some(m) => !f.foreign && m.Len() > 0 && OkWindows(m, f.left, f.right) && f.index == IndexFor(m.expire)
  }

  ghost function LeftSeq(m: map<nat, Elem>, next: nat, count: nat): (s: seq<Elem>)
    requires count <= next
    requires Window(m, next - count, next)
    ensures |s| == count
  {
    seq(count, i requires 0 <= i < count => m[next - 1 - i])
  }

  ghost function RightSeq(m: map<nat, Elem>, next: nat, count: nat): (s: seq<Elem>)
    requires count <= next
    requires Window(m, next - count, next)
    ensures |s| == count
  {
    seq(count, i requires 0 <= i < count => m[next - count + i])
  }

  /** Slot of position `i` of `count` in a window that ends below `next`: downward on the left, upward on the right. */
  function Target(left: bool, next: nat, count: nat, i: nat): nat
    requires i < count <= next
  {
    if left then next - 1 - i else next - count + i
  }

  /** The window below `next` is dense and reads, in logical order, as `xs`. */
  ghost predicate Reads(m: map<nat, Elem>, left: bool, next: nat, xs: seq<Elem>) {
    && |xs| <= next
    && Window(m, next - |xs|, next)
    && forall i {:trigger xs[i]} :: 0 <= i < |xs| ==> m[Target(left, next, |xs|, i)] == xs[i]
  }

  /** The list in logical order: the left window downward, then the right window upward. */
  ghost function Items(m: Meta, left: map<nat, Elem>, right: map<nat, Elem>): (s: seq<Elem>)
    requires OkWindows(m, left, right)
    ensures |s| == m.Len()
  {
    LeftSeq(left, m.lNext, m.lCount) + RightSeq(right, m.rNext, m.rCount)
  }

  lemma ReadsLeft(m: map<nat, Elem>, next: nat, count: nat)
    requires count <= next && Window(m, next - count, next)
    ensures Reads(m, true, next, LeftSeq(m, next, count))
  {
  }

  lemma ReadsRight(m: map<nat, Elem>, next: nat, count: nat)
    requires count <= next && Window(m, next - count, next)
    ensures Reads(m, false, next, RightSeq(m, next, count))
  {
  }

  /** A meta whose counters fit two readable windows denotes their concatenation. */
  lemma ReadsItems(m: Meta, l: map<nat, Elem>, r: map<nat, Elem>, a: seq<Elem>, b: seq<Elem>)
    requires Reads(l, true, m.lNext, a) && Reads(r, false, m.rNext, b)
    requires m.lCount == |a| && m.rCount == |b|
    ensures OkWindows(m, l, r) && Items(m, l, r) == a + b
  {
    assert LeftSeq(l, m.lNext, m.lCount) == a;
    assert RightSeq(r, m.rNext, m.rCount) == b;
  }

  /** What a client can see under one key at time `now`. */
  datatype View = Absent | OtherType | List(elems: seq<Elem>, expire: nat)

  ghost function ViewOf(f: Family, now: nat): (v: View)
    requires Ok(f)
    ensures v.List? ==> v.elems != [] && !Due(v.expire, now)
  {
    if f.foreign then OtherType
    else match f.meta
      case None => Absent
      case Some(m) => if Due(m.expire, now) then Absent else List(Items(m, f.left, f.right), m.expire)
  }
}
