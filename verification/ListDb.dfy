/** The shared store as the list handlers use it: lazy expiry on resolve, one atomic commit per command. */
module ListDb {
  import opened Bytes
  import opened ListStore
  import opened ListRewrite

  /** What one key is from the list commands' point of view. */
  datatype ListState = Missing | Present(meta: Meta) | WrongType

  /** The part of a reply that depends on the data. */
  datatype Reply =
    | Count(n: int)
    | Nil
    | Bulk(e: Elem)
    | Many(es: seq<Elem>)
    | Done
    | WrongKind
    | NoKey
    | BadIndex

  ghost predicate AllOk(s: Store) {
    forall k :: Ok(At(s, k))
  }

  /** A present list and its root counters. */
  ghost predicate OkList(f: Family, m: Meta) {
    && !f.foreign && f.meta == Some(m) && m.Len() > 0
    && f.index == IndexFor(m.expire)
    && OkWindows(m, f.left, f.right)
  }

  ghost predicate SameElsewhere(s: Store, t: Store, key: Key) {
    forall k :: k != key ==> At(t, k) == At(s, k)
  }

  /**
   * Committing one key's batch and tail: the key's family is well formed again, reads as the new
   * windows, and no other key changed.
   */
  lemma Committed(s: Store, key: Key, b: seq<Op>, after: Meta, l: map<nat, Elem>, r: map<nat, Elem>, now: nat)
    requires !Due(after.expire, now)
    requires AllOk(s) && OnlyOn(b, key) && !At(s, key).foreign
    requires At(s, key).index <= IndexFor(after.expire)
    requires Run(At(s, key), b) == At(s, key).(left := l, right := r) && OkWindows(after, l, r)
    ensures var tail := FinishOps(key, after.expire, if after.Len() == 0 then None else Some(after));
            var t := Commit(s, b + tail);
            && AllOk(t) && SameElsewhere(s, t, key)
            && ViewOf(At(t, key), now) == Settled(Items(after, l, r), after.expire)
  {
    hide Run, Commit;
    var tail := FinishOps(key, after.expire, if after.Len() == 0 then None else Some(after));
    CommitOne(s, b + tail, key);
    FinishList(At(s, key), key, b, after, l, r, now);
    var t := Commit(s, b + tail);
    forall k ensures Ok(At(t, k)) {
      if k != key {
        assert At(t, k) == At(s, k);
      }
    }
  }

  class Db {
    var store: Store

    ghost predicate Valid()
      reads this
    {
      AllOk(store)
    }

    ghost function See(key: Key, now: nat): View
      requires Valid()
      reads this
    {
      ViewOf(At(store, key), now)
    }

    constructor ()
      ensures Valid()
      ensures forall k, now :: See(k, now) == Absent
    {
      store := map[];
    }

    /** Look a key up; a due list is wiped and reads as missing. */
    method Resolve(key: Key, now: nat) returns (st: ListState)
      requires Valid()
      modifies this
      ensures Valid() && SameElsewhere(old(store), store, key)
      ensures See(key, now) == old(See(key, now))
      ensures !st.Missing? ==> store == old(store)
      ensures st.Missing? ==> At(store, key) == NOTHING && See(key, now) == Absent
      ensures st.WrongType? ==> At(store, key).foreign && See(key, now) == OtherType
      ensures st.Present? ==> OkList(At(store, key), st.meta) && !Due(st.meta.expire, now)
                              && See(key, now) == List(Items(st.meta, At(store, key).left, At(store, key).right), st.meta.expire)
    {
      var f := At(store, key);
      if f.foreign {
        return WrongType;
      }
      if f.meta.None? {
        return Missing;
      }
      var m := f.meta.value;
      if Due(m.expire, now) {
        var wipe := FinishOps(key, m.expire, None);
        CommitOne(store, wipe, key);
        FinishRun(f, key, m.expire, None);
        store := Commit(store, wipe);
        assert At(store, key) == NOTHING;
        return Missing;
      }
      return Present(m);
    }

    /** Commit one list mutation: the caller's writes plus the root record, or the wipe when nothing is left. */
    method CommitList(key: Key, expire: nat, after: Option<Meta>, batch: seq<Op>)
      modifies this
      ensures store == Commit(old(store), batch + FinishOps(key, expire, after))
    {
      store := Commit(store, batch + FinishOps(key, expire, after));
    }
  }
}
