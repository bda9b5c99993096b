/** The keyspace commands as the server runs them: lookup with lazy expiry, a batch, one commit. */
module KeyDb {
  import opened Bytes
  import opened KeyStore
  import opened KeySpec
  import opened Keyspace

  ghost predicate AllOk(store: Store) {
    forall key <- store :: Ok(store[key])
  }

  /** The batch has been applied, in order, to every key's records. */
  ghost predicate Committed(before: Store, ops: seq<Op>, after: Store) {
    forall key :: At(after, key) == Shaped(At(before, key), ops, key)
  }

  /** The two stores agree outside `keys`. */
  ghost predicate SameBut(before: Store, after: Store, keys: set<Key>) {
    forall key :: key !in keys ==> At(after, key) == At(before, key)
  }

  lemma CommittedOnly(before: Store, ops: seq<Op>, after: Store, keys: set<Key>)
    requires Committed(before, ops, after) && OnlyOn(ops, keys)
    ensures SameBut(before, after, keys)
  {
    forall key | key !in keys ensures At(after, key) == At(before, key) {
      ShapedElsewhere(At(before, key), ops, keys, key);
    }
  }

  lemma AtOk(store: Store, key: Key)
    requires AllOk(store)
    ensures Ok(At(store, key))
  {
    NothingState();
  }

  lemma AbsGet(store: Store, key: Key)
    ensures KeySpec.Get(Abs(store), key) == View(At(store, key))
  {
    NothingState();
  }

  /** A store that changed at one key means a keyspace that changed at that key. */
  lemma AbsPut(before: Store, after: Store, key: Key)
    requires AllOk(before) && SameBut(before, after, {key}) && Ok(At(after, key))
    ensures AllOk(after)
    ensures Abs(after) == Put(Abs(before), key, View(At(after, key)))
  {
    hide Ok, View;
    forall k | k in after ensures Ok(after[k]) {
      AtOk(before, k);
      assert k != key ==> At(after, k) == At(before, k);
    }
    var expected := Put(Abs(before), key, View(At(after, key)));
    forall k ensures KeySpec.Get(Abs(after), k) == KeySpec.Get(expected, k) {
      AbsGet(after, k);
      AbsGet(before, k);
    }
    SameGets(Abs(after), expected);
  }

  lemma SameGets(a: KeySpec.Keyspace, b: KeySpec.Keyspace)
    requires forall k :: KeySpec.Get(a, k) == KeySpec.Get(b, k)
    ensures a == b
  {
    forall k ensures (k in a <==> k in b) && (k in a ==> a[k] == b[k]) {
      assert KeySpec.Get(a, k) == KeySpec.Get(b, k);
    }
  }

  lemma StateView(s: Shape)
    requires Ok(s)
    ensures View(s).Some? <==> StateOf(s).Present()
    ensures DeadlineOf(View(s)) == StateOf(s).Expire()
    ensures IsCollection(View(s)) <==> (StateOf(s).Enveloped? && StateOf(s).kind != STRING_TTL)
    ensures OldReply(View(s)) ==
            match StateOf(s)
            case Missing => Null
            case RawString(value) => OldText(value)
            case Enveloped(kind, _, payload) => if kind == STRING_TTL then OldText(payload) else Null
  {
  }

  /** The shapes behind the three states. */
  lemma StateShape(s: Shape)
    requires Ok(s)
    ensures StateOf(s).Missing? ==> s == NOTHING
    ensures StateOf(s).RawString? ==> s == Bare(StateOf(s).value)
    ensures StateOf(s).Enveloped? ==>
              var st := StateOf(s);
              TypedOk(s, st.kind) && s.data[(st.kind, ROOT)] == Val(st.expire, st.payload)
  {
    hide TypedOk, FamilyOf;
    OkCases(s);
    if s == NOTHING {
      NothingState();
    } else if BareOk(s) {
      RawState(s);
    } else {
      var kind: Kind :| TypedOk(s, kind);
      StateOfTyped(s, kind);
      TypedHasRoot(s, kind);
    }
  }

  lemma TypedHasRoot(s: Shape, kind: Kind)
    requires TypedOk(s, kind)
    ensures s.raw.None? && (kind, ROOT) in s.data
  {
  }

  /** The batch that clears a key's records, built range by range. */
  method ClearFamily(batch: seq<Op>, key: Key, state: KeyState) returns (ops: seq<Op>)
    ensures ops == batch + ClearOps(key, state)
  {
    ops := batch;
    if state.RawString? {
      ops := ops + [DelRaw(key)];
    } else if state.Enveloped? {
      ops := FamilyDelete(batch, key, state.kind, state.expire);
    }
  }

  method FamilyDelete(batch: seq<Op>, key: Key, kind: Kind, expire: nat) returns (ops: seq<Op>)
    ensures forall payload :: ops == batch + ClearOps(key, Enveloped(kind, expire, payload))
  {
    hide FamilyOf;
    var (first, last) := FamilyOf(kind);
    ops := RangeDeletes(batch, key, first, last);
    if expire > 0 {
      ops := ops + [DelIndex(key, expire, first)];
    }
  }

  /** One range per kind of the family. */
  method RangeDeletes(batch: seq<Op>, key: Key, first: Kind, last: Kind) returns (ops: seq<Op>)
    requires first <= last
    ensures ops == batch + RangeOps(key, first, last)
  {
    ops := batch + [DelRange(key, first)];
    var kind := first;
    while kind < last
      invariant first <= kind <= last
      invariant ops == batch + RangeOps(key, first, kind)
    {
      kind := kind + 1;
      ops := ops + [DelRange(key, kind)];
    }
  }

  class Db {
    var store: Store

    ghost predicate Valid()
      reads this
    {
      AllOk(store)
    }

    ghost function Keys(): KeySpec.Keyspace
      reads this
    {
      Abs(store)
    }

    constructor ()
      ensures Valid() && Keys() == map[]
    {
      store := map[];
    }

    /** One atomic write batch. */
    method Commit(ops: seq<Op>)
      modifies this
      ensures Committed(old(store), ops, store)
    {
      hide ApplyOp, Shaped;
      var i := 0;
      forall key ensures Shaped(At(store, key), [], key) == At(store, key) {
        ShapedNone(At(store, key), key);
      }
      assert ops[..0] == [];
      while i < |ops|
        invariant 0 <= i <= |ops|
        invariant Committed(old(store), ops[..i], store)
      {
        ghost var before := store;
        store := store[ops[i].key := ApplyOp(At(store, ops[i].key), ops[i])];
        forall key ensures At(store, key) == Shaped(At(old(store), key), ops[..i + 1], key) {
          assert At(before, key) == Shaped(At(old(store), key), ops[..i], key);
          ShapedPush(At(old(store), key), ops[..i], ops[i], key);
          assert ops[..i] + [ops[i]] == ops[..i + 1];
        }
        i := i + 1;
      }
      assert ops[..i] == ops;
    }

    /** A batch on one key that leaves it in a known shape. */
    method Write(ops: seq<Op>, key: Key, ghost after: Shape)
      requires Valid() && OnlyOn(ops, {key})
      requires Shaped(At(store, key), ops, key) == after && Ok(after)
      modifies this
      ensures Valid() && At(store, key) == after && SameBut(old(store), store, {key})
      ensures Keys() == Put(old(Keys()), key, View(after))
    {
      hide Ok, View, Shaped, Abs, AllOk;
      ghost var before := store;
      Commit(ops);
      CommittedOnly(before, ops, store, {key});
      assert At(store, key) == after;
      AbsPut(before, store, key);
    }

    /** Look a key up; a due key is purged and counts as missing. */
    method Resolve(key: Key, now: nat) returns (state: KeyState)
      requires Valid()
      modifies this
      ensures Valid() && SameBut(old(store), store, {key})
      ensures Keys() == Touched(old(Keys()), key, now)
      ensures state == StateOf(At(store, key)) && Ok(At(store, key))
      ensures View(At(store, key)) == Live(old(Keys()), key, now)
      ensures !Due(state.Expire(), now)
      ensures !Due(StateOf(At(old(store), key)).Expire(), now) ==> store == old(store)
    {
      hide Ok, View, Shaped, Abs, AllOk, StateOf, ClearOps, SameBut, Live, Touched, OnlyOn, At, Put;
      ghost var m := Keys();
      ghost var s := At(store, key);
      AtOk(store, key);
      AbsGet(store, key);
      StateView(s);
      LiveOf(m, key, now, View(s));
      state := FindState(At(store, key));
      if state.Enveloped? && Due(state.expire, now) {
        var ops := ClearFamily([], key, state);
        NoPrefix(ops, key, state);
        ClearEffect(s, key);
        NothingState();
        Write(ops, key, NOTHING);
        NothingView();
        return Missing;
      }
      ReadOnly(store, m, key);
    }

    method Set(key: Key, value: Blob, o: Options, now: nat) returns (reply: Reply)
      requires Valid()
      modifies this
      ensures Valid()
      ensures (Keys(), reply) == SetStep(old(Keys()), key, value, o, now)
    {
      hide Ok, View, Shaped, Abs, AllOk, StateOf, ClearOps, WriteOps, StringShape, SameBut, Live, Touched;
      ghost var m := Keys();
      var state := Resolve(key, now);
      StateView(At(store, key));
      var wrongType := state.Enveloped? && state.kind != STRING_TTL;
      var was := match state
                 case Missing => Null
                 case RawString(v) => OldText(v)
                 case Enveloped(kind, _, payload) => if kind == STRING_TTL then OldText(payload) else Null;
      if wrongType && o.get {
        return WrongType;
      }
      if (o.nx && state.Present()) || (o.xx && !state.Present()) {
        return if o.get then was else Null;
      }
      var deadline := if o.keepTtl then state.Expire() else if o.deadline.Some? then o.deadline.value else 0;
      Overwrite(key, state, value, deadline);
      TouchedPut(m, key, now, Entry(Str(value), deadline));
      reply := if o.get then was else Okay;
    }

    /** Clear whatever the key holds and write the string, in one batch. */
    method Overwrite(key: Key, state: KeyState, value: Blob, deadline: nat)
      requires Valid() && state == StateOf(At(store, key))
      modifies this
      ensures Valid() && Keys() == old(Keys())[key := Entry(Str(value), deadline)]
    {
      hide Ok, View, Shaped, Abs, AllOk, StateOf, ClearOps, WriteOps, StringShape, SameBut, OnlyOn, At, Put;
      ghost var s := At(store, key);
      AtOk(store, key);
      var ops := ClearFamily([], key, state);
      NoPrefix(ops, key, state);
      ClearEffect(s, key);
      WriteEffect(NOTHING, key, value, deadline);
      ShapedConcat(s, ops, WriteOps(key, value, deadline), key);
      StringView(value, deadline);
      OverwriteOnly(key, state, value, deadline);
      Write(ops + WriteOps(key, value, deadline), key, StringShape(value, deadline));
      PutSome(old(Keys()), key, Entry(Str(value), deadline));
    }

    /** Every pair lands in one batch, though each state was read before any of it is written. */
    method MSet(pairs: seq<(Key, Blob)>, now: nat) returns (reply: Reply)
      requires Valid()
      modifies this
      ensures Valid()
      ensures (Keys(), reply) == Step(old(Keys()), KeySpec.MSet(pairs, now))
    {
      hide Ok, View, Shaped, Abs, AllOk, StateOf, ClearOps, WriteOps, SameBut, Live, Touched, At, Put, Pending, OnlyOn;
      if pairs == [] {
        return WrongArity;
      }
      ghost var first := store;
      var batch: seq<Op> := [];
      var i := 0;
      NothingPending(store, pairs, now);
      while i < |pairs|
        invariant 0 <= i <= |pairs|
        invariant Valid() && Pending(first, store, batch, pairs[..i], now)
      {
        ghost var before := store;
        var state := Resolve(pairs[i].0, now);
        var ops := ClearFamily(batch, pairs[i].0, state);
        ops := ops + WriteOps(pairs[i].0, pairs[i].1, 0);
        PendingStep(first, before, store, batch, pairs[..i], pairs[i], now);
        Regroup(batch, ClearOps(pairs[i].0, state), WriteOps(pairs[i].0, pairs[i].1, 0));
        assert pairs[..i] + [pairs[i]] == pairs[..i + 1];
        batch := ops;
        i := i + 1;
      }
      assert pairs[..i] == pairs;
      ghost var last := store;
      Commit(batch);
      PendingDone(first, last, batch, pairs, now, store);
      reply := Okay;
    }

    method ApplyTtl(key: Key, deadline: nat, flag: Flag, now: nat) returns (reply: Reply)
      requires Valid()
      modifies this
      ensures Valid()
      ensures (Keys(), reply) == ExpireStep(old(Keys()), key, deadline, flag, now)
    {
      hide Ok, View, Shaped, Abs, AllOk, StateOf, ClearOps, SameBut, Live, OnlyOn, TypedOk, TimeBareOps, RetimeOps, Retimed, Timed, Bare, Put;
      ghost var m := Keys();
      var state := Resolve(key, now);
      ghost var s := At(store, key);
      StateView(s);
      StateShape(s);
      if !state.Present() || !FlagAllows(flag, state.Expire(), deadline) {
        return Done(false);
      }
      if deadline <= now {
        var ops := ClearFamily([], key, state);
        NoPrefix(ops, key, state);
        ClearEffect(s, key);
        NothingState();
        NothingView();
        Write(ops, key, NOTHING);
        TouchedNone(m, key, now);
      } else {
        Retime(key, state, deadline);
        TouchedPut(m, key, now, View(s).value.(deadline := deadline));
      }
      reply := Done(true);
    }

    /** The deadline of a present key changes; a bare string changes its record too. */
    method Retime(key: Key, state: KeyState, deadline: nat)
      requires Valid() && state == StateOf(At(store, key)) && state.Present() && deadline > 0
      requires View(At(store, key)).Some?
      modifies this
      ensures Valid()
      ensures Keys() == old(Keys())[key := View(At(old(store), key)).value.(deadline := deadline)]
    {
      hide Ok, View, Shaped, Abs, AllOk, StateOf, SameBut, TypedOk, Retimed, Timed, Bare, Put, TtlOps, FamilyOf;
      ghost var s := At(store, key);
      AtOk(store, key);
      StateShape(s);
      ghost var m := Keys();
      if state.RawString? {
        TimeBareEffect(state.value, key, deadline);
        RawRetimes(state.value, deadline);
        TtlOnly(key, STRING_TTL, 0, deadline);
        Write(TimeBareOps(key, state.value, deadline), key, Timed(state.value, deadline));
      } else {
        TypedHasRoot(s, state.kind);
        RetimeEffect(s, key, state.kind, deadline);
        RetimedView(s, state.kind, deadline);
        TypedIsOk(Retimed(s, state.kind, deadline), state.kind);
        TtlOnly(key, state.kind, state.expire, deadline);
        Write(RetimeOps(key, state.kind, state.payload, state.expire, deadline), key, Retimed(s, state.kind, deadline));
      }
      PutSome(m, key, View(s).value.(deadline := deadline));
    }

    method Persist(key: Key, now: nat) returns (reply: Reply)
      requires Valid()
      modifies this
      ensures Valid()
      ensures (Keys(), reply) == PersistStep(old(Keys()), key, now)
    {
      hide Ok, View, Shaped, Abs, AllOk, StateOf, SameBut, Live, OnlyOn, TypedOk, UntimeOps, RetimeOps, Retimed, Bare, Put, FamilyOf;
      ghost var m := Keys();
      var state := Resolve(key, now);
      ghost var s := At(store, key);
      StateView(s);
      StateShape(s);
      if !state.Enveloped? || state.expire == 0 {
        return Done(false);
      }
      if state.kind == STRING_TTL {
        UntimeEffect(s, key);
        UntimedView(s);
        UntimeOnly(key, state.payload, state.expire);
        Write(UntimeOps(key, state.payload, state.expire), key, Bare(state.payload));
      } else {
        TypedHasRoot(s, state.kind);
        RetimeEffect(s, key, state.kind, 0);
        RetimedView(s, state.kind, 0);
        TypedIsOk(Retimed(s, state.kind, 0), state.kind);
        RetimeOnly(key, state.kind, state.payload, state.expire, 0);
        Write(RetimeOps(key, state.kind, state.payload, state.expire, 0), key, Retimed(s, state.kind, 0));
      }
      PutSome(Keys(), key, View(s).value.(deadline := 0));
      PutSome(Touched(m, key, now), key, View(s).value.(deadline := 0));
      TouchedPut(m, key, now, View(s).value.(deadline := 0));
      reply := Done(true);
    }

    method Delete(key: Key, now: nat) returns (reply: Reply)
      requires Valid()
      modifies this
      ensures Valid()
      ensures (Keys(), reply) == DeleteStep(old(Keys()), key, now)
    {
      hide Ok, View, Shaped, Abs, AllOk, StateOf, ClearOps, SameBut, Live, OnlyOn, Put;
      ghost var m := Keys();
      var state := Resolve(key, now);
      ghost var s := At(store, key);
      StateView(s);
      TouchedNone(m, key, now);
      if !state.Present() {
        return Done(false);
      }
      var ops := ClearFamily([], key, state);
      NoPrefix(ops, key, state);
      ClearEffect(s, key);
      NothingState();
      NothingView();
      Write(ops, key, NOTHING);
      reply := Done(true);
    }

    method Rename(src: Key, dst: Key, nx: bool, now: nat) returns (reply: Reply)
      requires Valid()
      modifies this
      ensures Valid()
      ensures (Keys(), reply) == RenameStep(old(Keys()), src, dst, nx, now)
    {
      hide Ok, View, Shaped, Abs, AllOk, StateOf, SameBut, Live, Touched, Put, At;
      ghost var m := Keys();
      var source := Resolve(src, now);
      StateView(At(store, src));
      if !source.Present() {
        return SourceMissing;
      }
      if src == dst {
        return Moved;
      }
      ghost var m1, s := Keys(), At(store, src);
      ghost var mid := store;
      var target := Resolve(dst, now);
      SameAt(mid, store, dst, src);
      StateView(At(store, dst));
      if nx && target.Present() {
        return Blocked;
      }
      Move(src, dst, source, target);
      RenamedKeys(m, m1, src, dst, now, View(s));
      reply := Moved;
    }

    /** Clear the destination, carry every record over, drop the source: one batch. */
    method Move(src: Key, dst: Key, source: KeyState, target: KeyState)
      requires Valid() && src != dst && source.Present()
      requires source == StateOf(At(store, src)) && target == StateOf(At(store, dst))
      modifies this
      ensures Valid()
      ensures Keys() == Put(Put(old(Keys()), src, None), dst, View(At(old(store), src)))
    {
      hide Ok, View, Shaped, Abs, AllOk, StateOf, ClearOps, OnlyOn, TypedOk, FamilyOf, Bare, SameBut;
      ghost var s, d := At(store, src), At(store, dst);
      AtOk(store, src);
      AtOk(store, dst);
      StateShape(s);
      var ops := ClearFamily([], dst, target);
      NoPrefix(ops, dst, target);
      ClearEffect(d, dst);
      ShapedElsewhere(s, ops, {dst}, src);
      if source.RawString? {
        BareMoves(s, d, ops, src, dst, source.value);
        ops := ops + [PutRaw(dst, source.value), DelRaw(src)];
      } else {
        ops := MoveFamily(ops, store, source.kind, src, dst, source.expire);
      }
      ghost var before := store;
      Commit(ops);
      CommittedOnly(before, ops, store, {src, dst});
      assert At(store, src) == NOTHING && At(store, dst) == s;
      AbsMoved(before, store, src, dst);
    }

    /** Run commands one after the other. */
    method RunAll(commands: seq<Command>) returns (replies: seq<Reply>)
      requires Valid()
      modifies this
      ensures Valid()
      ensures (Keys(), replies) == StepAll(old(Keys()), commands)
    {
      hide SetStep, MSetStep, ExpireStep, PersistStep, RenameStep, DeleteStep, Abs, AllOk;
      ghost var m := Keys();
      replies := [];
      var i := 0;
      assert commands[..0] == [];
      while i < |commands|
        invariant 0 <= i <= |commands|
        invariant Valid() && (Keys(), replies) == StepAll(m, commands[..i])
      {
        var reply := Run(commands[i]);
        StepAllPush(m, commands[..i], commands[i]);
        assert commands[..i] + [commands[i]] == commands[..i + 1];
        replies := replies + [reply];
        i := i + 1;
      }
      assert commands[..i] == commands;
    }

    /** Every command refines its step on the user's view. */
    method Run(c: Command) returns (reply: Reply)
      requires Valid()
      modifies this
      ensures Valid()
      ensures (Keys(), reply) == Step(old(Keys()), c)
    {
      hide SetStep, MSetStep, ExpireStep, PersistStep, RenameStep, DeleteStep, Abs, AllOk;
      match c
      case Set(key, value, options, now) => reply := this.Set(key, value, options, now);
      case MSet(pairs, now) => reply := this.MSet(pairs, now);
      case ExpireAt(key, deadline, flag, now) => reply := this.ApplyTtl(key, deadline, flag, now);
      case Persist(key, now) => reply := this.Persist(key, now);
      case Rename(src, dst, nx, now) => reply := this.Rename(src, dst, nx, now);
      case Delete(key, now) => reply := this.Delete(key, now);
    }
  }

  lemma NoPrefix(ops: seq<Op>, key: Key, state: KeyState)
    requires ops == [] + ClearOps(key, state)
    ensures ops == ClearOps(key, state) && OnlyOn(ops, {key})
  {
    ClearOnly(key, state);
  }

  lemma ClearOnly(key: Key, state: KeyState)
    ensures OnlyOn(ClearOps(key, state), {key})
  {
    if state.Enveloped? {
      RangesOnly(key, FamilyOf(state.kind).0, FamilyOf(state.kind).1);
    }
  }

  lemma {:induction false} RangesOnly(key: Key, first: Kind, last: Kind)
    requires first <= last
    ensures OnlyOn(RangeOps(key, first, last), {key})
    decreases last - first
  {
    if first < last {
      RangesOnly(key, first, last - 1);
    }
  }

  lemma OverwriteOnly(key: Key, state: KeyState, value: Blob, deadline: nat)
    ensures OnlyOn(ClearOps(key, state) + WriteOps(key, value, deadline), {key})
  {
    hide ClearOps;
    ClearOnly(key, state);
  }

  lemma LiveOf(m: KeySpec.Keyspace, key: Key, now: nat, entry: Option<Entry>)
    requires KeySpec.Get(m, key) == entry
    ensures Live(m, key, now) == if entry.Some? && !Due(entry.value.deadline, now) then entry else None
    ensures Touched(m, key, now) == Put(m, key, Live(m, key, now))
    ensures entry.Some? ==> DeadlineOf(entry) == entry.value.deadline
    ensures entry.None? ==> DeadlineOf(entry) == 0
  {
  }

  lemma NothingView()
    ensures View(NOTHING) == None
  {
    NothingState();
  }

  lemma ReadOnly(store: Store, m: KeySpec.Keyspace, key: Key)
    requires m == Abs(store)
    ensures SameBut(store, store, {key}) && m == Put(m, key, KeySpec.Get(m, key))
  {
  }

  lemma TouchedPut(m: KeySpec.Keyspace, key: Key, now: nat, entry: Entry)
    ensures Touched(m, key, now)[key := entry] == m[key := entry]
  {
  }

  lemma PutSome(m: KeySpec.Keyspace, key: Key, entry: Entry)
    ensures Put(m, key, Some(entry)) == m[key := entry]
  {
  }

  lemma TouchedNone(m: KeySpec.Keyspace, key: Key, now: nat)
    ensures Put(Touched(m, key, now), key, None) == m - {key}
    ensures Live(m, key, now).None? ==> Touched(m, key, now) == m - {key}
  {
  }

  lemma RawRetimes(value: Blob, deadline: nat)
    requires deadline > 0
    ensures View(Bare(value)) == Some(Entry(Str(value), 0))
    ensures Ok(Timed(value, deadline)) && View(Timed(value, deadline)) == Some(Entry(Str(value), deadline))
  {
    StringView(value, deadline);
    StringView(value, 0);
  }

  lemma UntimedView(s: Shape)
    requires TypedOk(s, STRING_TTL)
    ensures var v := s.data[(STRING_TTL, ROOT)];
            && View(s) == Some(Entry(Str(v.payload), v.expire))
            && Ok(Bare(v.payload)) && View(Bare(v.payload)) == Some(Entry(Str(v.payload), 0))
  {
    StateOfTyped(s, STRING_TTL);
    StringView(s.data[(STRING_TTL, ROOT)].payload, 0);
  }

  lemma TypedIsOk(s: Shape, kind: Kind)
    requires TypedOk(s, kind)
    ensures Ok(s)
  {
  }

  lemma TtlOnly(key: Key, kind: Kind, was: nat, next: nat)
    ensures OnlyOn(TtlOps(key, kind, was, next), {key})
  {
  }

  lemma UntimeOnly(key: Key, payload: Blob, was: nat)
    ensures OnlyOn(UntimeOps(key, payload, was), {key})
  {
  }

  lemma RetimeOnly(key: Key, kind: Kind, payload: Blob, was: nat, next: nat)
    ensures OnlyOn(RetimeOps(key, kind, payload, was, next), {key})
  {
  }

  lemma Regroup(a: seq<Op>, b: seq<Op>, c: seq<Op>)
    ensures (a + b) + c == a + (b + c)
  {
  }

  // MSET: what the growing batch will do once committed.

  /** The keys named so far. */
  ghost function Named(pairs: seq<(Key, Blob)>): set<Key> {
    set i | 0 <= i < |pairs| :: pairs[i].0
  }

  /** On a named key the batch ends in its last value; it does not touch any other. */
  ghost predicate Pending(first: Store, store: Store, batch: seq<Op>, pairs: seq<(Key, Blob)>, now: nat) {
    && OnlyOn(batch, Named(pairs))
    && SameBut(first, store, Named(pairs))
    && forall key :: key in Named(pairs) ==> Replaced(store, batch, pairs, key, now)
  }

  ghost predicate Replaced(store: Store, batch: seq<Op>, pairs: seq<(Key, Blob)>, key: Key, now: nat) {
    && !Due(StateOf(At(store, key)).Expire(), now)
    && exists value :: Shaped(At(store, key), batch, key) == Bare(value)
                       && KeySpec.Get(MSetStep(map[], pairs), key) == Some(Entry(Str(value), 0))
  }

  lemma NothingPending(store: Store, pairs: seq<(Key, Blob)>, now: nat)
    ensures Pending(store, store, [], pairs[..0], now)
  {
  }

  lemma NamedPush(pairs: seq<(Key, Blob)>, pair: (Key, Blob))
    ensures Named(pairs + [pair]) == Named(pairs) + {pair.0}
    ensures MSetStep(map[], pairs + [pair]) == MSetStep(map[], pairs)[pair.0 := Entry(Str(pair.1), 0)]
  {
    var more := pairs + [pair];
    assert more[|pairs|] == pair;
    assert more[..|pairs|] == pairs;
    forall key | key in Named(pairs) ensures key in Named(more) {
      var i :| 0 <= i < |pairs| && pairs[i].0 == key;
      assert more[i] == pairs[i];
    }
  }

  /** One more pair: cleared with the state found now, then written, after all that is already batched. */
  lemma PairEffect(s: Shape, batch: seq<Op>, pair: (Key, Blob), state: KeyState)
    requires (Ok(s) && Shaped(s, batch, pair.0) == s && state == StateOf(s)) || BareOk(Shaped(s, batch, pair.0))
    ensures Shaped(s, batch + (ClearOps(pair.0, state) + WriteOps(pair.0, pair.1, 0)), pair.0) == Bare(pair.1)
  {
    hide Ok, Shaped, StateOf, ClearOps, WriteOps;
    var (key, value) := pair;
    var mid := Shaped(s, batch, key);
    ShapedConcat(s, batch, ClearOps(key, state) + WriteOps(key, value, 0), key);
    ShapedConcat(mid, ClearOps(key, state), WriteOps(key, value, 0), key);
    if BareOk(mid) {
      ClearBare(mid.raw.value, key, state);
    } else {
      ClearEffect(s, key);
    }
    WriteEffect(Shaped(mid, ClearOps(key, state), key), key, value, 0);
  }

  lemma PendingStep(first: Store, before: Store, store: Store, batch: seq<Op>, pairs: seq<(Key, Blob)>, pair: (Key, Blob), now: nat)
    requires Pending(first, before, batch, pairs, now)
    requires SameBut(before, store, {pair.0}) && Ok(At(store, pair.0))
    requires !Due(StateOf(At(store, pair.0)).Expire(), now)
    requires !Due(StateOf(At(before, pair.0)).Expire(), now) ==> store == before
    ensures var state := StateOf(At(store, pair.0));
            Pending(first, store, batch + (ClearOps(pair.0, state) + WriteOps(pair.0, pair.1, 0)), pairs + [pair], now)
  {
    hide Ok, Shaped, StateOf, ClearOps, WriteOps, At, MSetStep, Named;
    var (key, value) := pair;
    var s := At(store, key);
    var state := StateOf(s);
    var ops := ClearOps(key, state) + WriteOps(key, value, 0);
    NamedPush(pairs, pair);
    OverwriteOnly(key, state, value, 0);
    if key in Named(pairs) {
      assert Replaced(before, batch, pairs, key, now);
    } else {
      ShapedElsewhere(s, batch, Named(pairs), key);
    }
    PairEffect(s, batch, pair, state);
    forall k | k in Named(pairs + [pair]) ensures Replaced(store, batch + ops, pairs + [pair], k, now) {
      if k != key {
        assert Replaced(before, batch, pairs, k, now);
        ShapedConcat(At(store, k), batch, ops, k);
        ShapedElsewhere(Shaped(At(store, k), batch, k), ops, {key}, k);
      }
    }
  }

  lemma PendingDone(first: Store, store: Store, batch: seq<Op>, pairs: seq<(Key, Blob)>, now: nat, after: Store)
    requires AllOk(first) && Pending(first, store, batch, pairs, now) && Committed(store, batch, after)
    ensures AllOk(after) && Abs(after) == MSetStep(Abs(first), pairs)
  {
    hide Ok, Shaped, StateOf, At, MSetStep, Named, View, Abs, OnlyOn;
    forall key ensures Ok(At(after, key)) && KeySpec.Get(Abs(after), key) == KeySpec.Get(MSetStep(Abs(first), pairs), key) {
      AbsGet(after, key);
      AbsGet(first, key);
      AtOk(first, key);
      MSetOver(Abs(first), pairs, key);
      if key in Named(pairs) {
        assert Replaced(store, batch, pairs, key, now);
        var value :| Shaped(At(store, key), batch, key) == Bare(value)
                     && KeySpec.Get(MSetStep(map[], pairs), key) == Some(Entry(Str(value), 0));
        StringView(value, 0);
      } else {
        ShapedElsewhere(At(store, key), batch, Named(pairs), key);
      }
    }
    SameGets(Abs(after), MSetStep(Abs(first), pairs));
    AllAtOk(after);
  }

  lemma AllAtOk(store: Store)
    requires forall key :: Ok(At(store, key))
    ensures AllOk(store)
  {
    hide Ok;
    forall key | key in store ensures Ok(store[key]) {
      assert Ok(At(store, key));
    }
  }

  lemma {:induction false} MSetOver(m: KeySpec.Keyspace, pairs: seq<(Key, Blob)>, key: Key)
    ensures KeySpec.Get(MSetStep(m, pairs), key) ==
            if key in Named(pairs) then KeySpec.Get(MSetStep(map[], pairs), key) else KeySpec.Get(m, key)
    decreases |pairs|
  {
    if pairs != [] {
      var rest := pairs[..|pairs| - 1];
      MSetOver(m, rest, key);
      NamedPush(rest, pairs[|pairs| - 1]);
      assert rest + [pairs[|pairs| - 1]] == pairs;
    }
  }

  // RENAME.

  lemma StepAllPush(m: KeySpec.Keyspace, commands: seq<Command>, c: Command)
    ensures var (before, replies) := StepAll(m, commands);
            var (after, reply) := Step(before, c);
            StepAll(m, commands + [c]) == (after, replies + [reply])
  {
    assert (commands + [c])[..|commands|] == commands;
  }

  lemma SameAt(before: Store, after: Store, key: Key, other: Key)
    requires SameBut(before, after, {key}) && other != key
    ensures At(after, other) == At(before, other)
  {
  }

  lemma RenamedKeys(m: KeySpec.Keyspace, m1: KeySpec.Keyspace, src: Key, dst: Key, now: nat, entry: Option<Entry>)
    requires m1 == Touched(m, src, now) && entry == Live(m, src, now) && entry.Some? && src != dst
    ensures Put(Put(Touched(m1, dst, now), src, None), dst, entry) == (m1 - {src})[dst := entry.value]
  {
  }

  lemma AbsMoved(before: Store, after: Store, src: Key, dst: Key)
    requires AllOk(before) && SameBut(before, after, {src, dst}) && src != dst
    requires At(after, src) == NOTHING && At(after, dst) == At(before, src)
    ensures AllOk(after)
    ensures Abs(after) == Put(Put(Abs(before), src, None), dst, View(At(before, src)))
  {
    hide Ok, View, Abs, AllOk;
    var expected := Put(Put(Abs(before), src, None), dst, View(At(before, src)));
    NothingView();
    forall k ensures KeySpec.Get(Abs(after), k) == KeySpec.Get(expected, k) && Ok(At(after, k)) {
      AbsGet(after, k);
      AbsGet(before, k);
      AtOk(before, k);
      AtOk(before, src);
      NothingState();
    }
    SameGets(Abs(after), expected);
    AllAtOk(after);
  }

  lemma BareMoves(s: Shape, d: Shape, clear: seq<Op>, src: Key, dst: Key, value: Blob)
    requires src != dst && s == Bare(value)
    requires Shaped(d, clear, dst) == NOTHING && Shaped(s, clear, src) == s && OnlyOn(clear, {dst})
    ensures var ops := clear + [PutRaw(dst, value), DelRaw(src)];
            Shaped(d, ops, dst) == s && Shaped(s, ops, src) == NOTHING && OnlyOn(ops, {src, dst})
  {
    hide Shaped;
    var put, del := PutRaw(dst, value), DelRaw(src);
    ShapedPush(d, clear, put, dst);
    ShapedPush(d, clear + [put], del, dst);
    ShapedPush(s, clear, put, src);
    ShapedPush(s, clear + [put], del, src);
    assert clear + [put] + [del] == clear + [put, del];
  }

  /** Copy every record of the source's family, range-delete the source, move the index entry. */
  method MoveFamily(batch: seq<Op>, store: Store, kind: Kind, src: Key, dst: Key, expire: nat) returns (ops: seq<Op>)
    requires src != dst && OnlyOn(batch, {dst})
    requires TypedOk(At(store, src), kind) && At(store, src).data[(kind, ROOT)].expire == expire
    requires Shaped(At(store, dst), batch, dst) == NOTHING
    ensures OnlyOn(ops, {src, dst})
    ensures Shaped(At(store, dst), ops, dst) == At(store, src)
    ensures Shaped(At(store, src), ops, src) == NOTHING
  {
    hide TypedOk, FamilyOf, Shaped, OnlyOn, MoveTailOps, RangeOps;
    ghost var s, d := At(store, src), At(store, dst);
    var (first, last) := FamilyOf(kind);
    ops := CopyRecords(batch, At(store, src).data, first, last, dst, d);
    WholeFamily(s, kind);
    ghost var copy := Shaped(d, ops, dst);
    ghost var copies := ops;
    MoveTailEffect(s, copy, src, dst, kind);
    ShapedElsewhere(s, copies, {dst}, src);
    ShapedConcat(d, copies, MoveTailOps(src, dst, kind, expire), dst);
    ShapedConcat(s, copies, MoveTailOps(src, dst, kind, expire), src);
    MoveOnly(copies, src, dst, kind, expire);
    ops := ops + MoveTailOps(src, dst, kind, expire);
  }

  lemma MoveOnly(copies: seq<Op>, src: Key, dst: Key, kind: Kind, expire: nat)
    requires OnlyOn(copies, {dst})
    ensures OnlyOn(copies + MoveTailOps(src, dst, kind, expire), {src, dst})
  {
    hide FamilyOf, RangeOps;
    RangesOnly(src, FamilyOf(kind).0, FamilyOf(kind).1);
    TtlOnly(dst, FamilyOf(kind).0, 0, expire);
  }

  lemma WholeFamily(s: Shape, kind: Kind)
    requires TypedOk(s, kind)
    ensures Inside(s.data, FamilyOf(kind).0, FamilyOf(kind).1) == s.data
  {
    MetaIsFirst(kind);
    forall r | r in s.data ensures kind <= r.0 <= FamilyOf(kind).1 {
      SameFamily(r.0, kind);
    }
  }

  /** The records whose kind lies in `first..=last`. */
  function Inside(data: map<(Kind, Blob), Val>, first: nat, last: nat): map<(Kind, Blob), Val> {
    map r | r in data && first <= r.0 <= last :: data[r]
  }

  method CopyRecords(batch: seq<Op>, data: map<(Kind, Blob), Val>, first: Kind, last: Kind, dst: Key, ghost d: Shape)
    returns (ops: seq<Op>)
    requires OnlyOn(batch, {dst}) && Shaped(d, batch, dst) == NOTHING
    ensures OnlyOn(ops, {dst})
    ensures Copied(Shaped(d, ops, dst), Inside(data, first, last))
  {
    hide Shaped, Inside;
    var records := Inside(data, first, last);
    var todo := records.Keys;
    ops := batch;
    while todo != {}
      invariant todo <= records.Keys
      invariant OnlyOn(ops, {dst})
      invariant Shaped(d, ops, dst) == Shape(None, records - todo, {})
      decreases |todo|
    {
      var r :| r in todo;
      ShapedPush(d, ops, PutData(dst, r.0, r.1, records[r]), dst);
      assert records - (todo - {r}) == (records - todo)[r := records[r]];
      ops := ops + [PutData(dst, r.0, r.1, records[r])];
      todo := todo - {r};
    }
    assert records - todo == records;
  }
}
