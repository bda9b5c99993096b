/** The batch tails every list command shares, and the rewrite of both windows behind LREM and LTRIM. */
module ListRewrite {
  import opened Bytes
  import opened ListStore
  import opened ListSpec
  import opened ListCompact

  /** A list that lost its last element does not exist. */
  function Settled(xs: seq<Elem>, expire: nat): View {
    if xs == [] then Absent else List(xs, expire)
  }

  /** The tail `commit_list` adds: the root record, or the wipe of the whole family. */
  function FinishOps(k: Key, expire: nat, after: Option<Meta>): (b: seq<Op>)
    ensures OnlyOn(b, k)
  {
    match after
    case None => [DropFamily(k)] + if expire > 0 then [DelIndex(k, expire)] else []
    case Some(m) => (if expire > 0 then [PutIndex(k, expire)] else []) + [PutMeta(k, m)]
  }

  lemma FinishRun(f: Family, k: Key, expire: nat, after: Option<Meta>)
    ensures Run(f, FinishOps(k, expire, after)) ==
            match after
            case None => Family(f.foreign, None, map[], map[], f.index - IndexFor(expire))
            case Some(m) => f.(meta := Some(m), index := f.index + IndexFor(expire))
  {
    var b := FinishOps(k, expire, after);
    if |b| == 1 {
      assert b == [] + [b[0]];
      RunLast(f, [], b[0]);
      assert f.index - {} == f.index && f.index + {} == f.index;
    } else {
      assert b == ([] + [b[0]]) + [b[1]];
      RunLast(f, [], b[0]);
      RunLast(f, [] + [b[0]], b[1]);
    }
  }

  /** A batch that rewrites the windows to fit `after`, then the tail: a well-formed list again. */
  lemma FinishList(f: Family, k: Key, b: seq<Op>, after: Meta, l: map<nat, Elem>, r: map<nat, Elem>, now: nat)
    requires Run(f, b) == f.(left := l, right := r)
    requires !f.foreign && f.index <= IndexFor(after.expire)
    requires OkWindows(after, l, r) && !Due(after.expire, now)
    ensures var after' := if after.Len() == 0 then None else Some(after);
            var g := Run(f, b + FinishOps(k, after.expire, after'));
            Ok(g) && ViewOf(g, now) == Settled(Items(after, l, r), after.expire)
  {
    var after' := if after.Len() == 0 then None else Some(after);
    RunConcat(f, b, FinishOps(k, after.expire, after'));
    FinishRun(f.(left := l, right := r), k, after.expire, after');
  }

  /** `gone` names, by logical position from `base`, exactly the entries on the kill list. */
  ghost predicate Marks(live: SideEntries, kill: seq<nat>, gone: set<nat>, base: nat) {
    forall i {:trigger live[i]} :: 0 <= i < |live| ==> (live[i].0 in kill <==> base + i in gone)
  }

  function SideOps(k: Key, live: SideEntries, kill: seq<nat>, left: bool): (b: seq<Op>)
    requires live != [] ==> |live| <= NextOf(live, left)
    ensures OnlyOn(b, k)
  {
    if live == [] || kill == [] then [] else CompactOps(k, live, kill, left)
  }

  ghost function NewSide(m: map<nat, Elem>, live: SideEntries, kill: seq<nat>, left: bool, hi: nat): map<nat, Elem>
    requires |live| <= hi
  {
    if live == [] || kill == [] then m else Entries(Renumbered(Kept(live, kill), left, hi))
  }

  lemma {:induction false} KeptAll(live: SideEntries)
    ensures Kept(live, []) == live
    decreases |live|
  {
    if live != [] {
      KeptAll(live[1..]);
    }
  }

  lemma KeptUntouched(live: SideEntries, kill: seq<nat>)
    requires live == [] || kill == []
    ensures Kept(live, kill) == live
  {
    KeptAll(live);
  }

  lemma UntouchedReads(m: map<nat, Elem>, live: SideEntries, left: bool, lo: nat, hi: nat)
    requires LiveSide(m, live, left, lo, hi)
    ensures Reads(m, left, hi, ElemsOf(live))
  {
  }

  /** One window after the rewrite: dense below the same `hi`, reading as the survivors in order. */
  lemma SideRewrite(f: Family, k: Key, live: SideEntries, kill: seq<nat>, left: bool, lo: nat, hi: nat)
    requires LiveSide(Side(f, left), live, left, lo, hi)
    ensures live != [] ==> NextOf(live, left) == hi
    ensures Run(f, SideOps(k, live, kill, left)) == WithSide(f, left, NewSide(Side(f, left), live, kill, left, hi))
    ensures Reads(NewSide(Side(f, left), live, kill, left, hi), left, hi, ElemsOf(Kept(live, kill)))
  {
    if live == [] || kill == [] {
      KeptUntouched(live, kill);
      UntouchedReads(Side(f, left), live, left, lo, hi);
    } else {
      hide Run, Entries, Renumbered, CompactOps;
      CompactEffect(f, k, live, kill, left, lo, hi);
      RenumberedReads(Kept(live, kill), left, hi);
    }
  }

  /** Both windows rewritten: the list without the marked positions. */
  lemma RewriteEffect(f: Family, k: Key, m: Meta, ls: SideEntries, rs: SideEntries,
                      killL: seq<nat>, killR: seq<nat>, gone: set<nat>)
    requires Ok(f) && f.meta == Some(m)
    requires LiveSide(f.left, ls, true, m.lNext - m.lCount, m.lNext)
    requires LiveSide(f.right, rs, false, m.rNext - m.rCount, m.rNext)
    requires Marks(ls, killL, gone, 0) && Marks(rs, killR, gone, |ls|)
    ensures ls != [] ==> |ls| <= NextOf(ls, true)
    ensures rs != [] ==> |rs| <= NextOf(rs, false)
    ensures var l, r := NewSide(f.left, ls, killL, true, m.lNext), NewSide(f.right, rs, killR, false, m.rNext);
            var after := m.(lCount := |Kept(ls, killL)|, rCount := |Kept(rs, killR)|);
            && Run(f, SideOps(k, ls, killL, true) + SideOps(k, rs, killR, false)) == f.(left := l, right := r)
            && OkWindows(after, l, r)
            && Items(after, l, r) == Without(Items(m, f.left, f.right), gone, 0)
  {
    hide Run, Kept, Without, Entries, Reads, NewSide, SideOps;
    SideRewrite(f, k, ls, killL, true, m.lNext - m.lCount, m.lNext);
    var l := NewSide(f.left, ls, killL, true, m.lNext);
    var f1 := f.(left := l);
    SideRewrite(f1, k, rs, killR, false, m.rNext - m.rCount, m.rNext);
    RunConcat(f, SideOps(k, ls, killL, true), SideOps(k, rs, killR, false));
    var after := m.(lCount := |Kept(ls, killL)|, rCount := |Kept(rs, killR)|);
    ReadsItems(after, l, NewSide(f.right, rs, killR, false, m.rNext), ElemsOf(Kept(ls, killL)), ElemsOf(Kept(rs, killR)));
    KeptIsWithout(ls, killL, gone, 0);
    KeptIsWithout(rs, killR, gone, |ls|);
    SidesAreItems(m, f.left, f.right, ls, rs);
    WithoutConcat(ElemsOf(ls), ElemsOf(rs), gone, 0);
  }

  lemma SidesAreItems(m: Meta, left: map<nat, Elem>, right: map<nat, Elem>, ls: SideEntries, rs: SideEntries)
    requires OkWindows(m, left, right)
    requires LiveSide(left, ls, true, m.lNext - m.lCount, m.lNext)
    requires LiveSide(right, rs, false, m.rNext - m.rCount, m.rNext)
    ensures Items(m, left, right) == ElemsOf(ls) + ElemsOf(rs)
  {
    assert LeftSeq(left, m.lNext, m.lCount) == ElemsOf(ls);
    assert RightSeq(right, m.rNext, m.rCount) == ElemsOf(rs);
  }
}
