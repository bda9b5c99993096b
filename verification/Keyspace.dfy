/** The keyspace commands on the physical records, proved against the user's view of them. */
module Keyspace {
  import opened Bytes
  import opened KeyStore
  import opened KeySpec

  // Batches and what they do to the records of one key.

  function RangeOps(key: Key, first: Kind, last: Kind): seq<Op>
    requires first <= last
    decreases last - first
  {
    if first == last then [DelRange(key, last)]
    else RangeOps(key, first, last - 1) + [DelRange(key, last)]
  }

  /** Everything stored for a key in this state. */
  function ClearOps(key: Key, state: KeyState): seq<Op> {
    match state
    case Missing => []
    case RawString(_) => [DelRaw(key)]
    case Enveloped(kind, expire, _) =>
      RangeOps(key, FamilyOf(kind).0, FamilyOf(kind).1)
      + if expire > 0 then [DelIndex(key, expire, FamilyOf(kind).0)] else []
  }

  /** Index maintenance of a root whose deadline goes from `was` to `next`. */
  function TtlOps(key: Key, kind: Kind, was: nat, next: nat): seq<Op> {
    (if was != next && was > 0 then [DelIndex(key, was, kind)] else [])
    + if next > 0 then [PutIndex(key, next, kind)] else []
  }

  function WriteOps(key: Key, value: Blob, deadline: nat): seq<Op> {
    if deadline > 0 then [PutData(key, STRING_TTL, ROOT, Val(deadline, value))] + TtlOps(key, STRING_TTL, 0, deadline)
    else [PutRaw(key, value)]
  }

  /** The records whose kind lies outside `first..=last`. */
  function Outside(data: map<(Kind, Blob), Val>, first: nat, last: nat): map<(Kind, Blob), Val> {
    map r | r in data && !(first <= r.0 <= last) :: data[r]
  }

  lemma OutsideStep(data: map<(Kind, Blob), Val>, first: nat, last: nat)
    requires first < last
    ensures (map r | r in Outside(data, first, last - 1) && r.0 != last :: Outside(data, first, last - 1)[r])
         == Outside(data, first, last)
    ensures (map r | r in data && r.0 != last :: data[r]) == Outside(data, last, last)
  {
  }

  lemma {:induction false} RangesClear(s: Shape, key: Key, first: Kind, last: Kind)
    requires first <= last
    ensures Shaped(s, RangeOps(key, first, last), key) == s.(data := Outside(s.data, first, last))
    decreases last - first
  {
    hide Shaped, Outside;
    if first == last {
      ShapedNone(s, key);
      ShapedPush(s, [], DelRange(key, last), key);
      assert [] + [DelRange(key, last)] == [DelRange(key, last)];
      OutsideStep(s.data, first - 1, last);
    } else {
      RangesClear(s, key, first, last - 1);
      ShapedPush(s, RangeOps(key, first, last - 1), DelRange(key, last), key);
      OutsideStep(s.data, first, last);
    }
  }

  /** Clearing what was found leaves nothing of the key. */
  lemma ClearEffect(s: Shape, key: Key)
    requires Ok(s)
    ensures Shaped(s, ClearOps(key, StateOf(s)), key) == NOTHING
  {
    hide Ok, TypedOk, StateOf, FamilyOf, RangeOps;
    OkCases(s);
    ShapedNone(s, key);
    if s == NOTHING {
      NothingState();
    } else if BareOk(s) {
      RawState(s);
      ShapedPush(s, [], DelRaw(key), key);
      assert [] + [DelRaw(key)] == [DelRaw(key)];
    } else {
      var kind: Kind :| TypedOk(s, kind);
      ClearTyped(s, key, kind);
    }
  }

  lemma NothingState()
    ensures StateOf(NOTHING) == Missing && Ok(NOTHING)
  {
    NotTyped(NOTHING);
  }

  lemma ClearTyped(s: Shape, key: Key, kind: Kind)
    requires TypedOk(s, kind)
    ensures Shaped(s, ClearOps(key, StateOf(s)), key) == NOTHING
  {
    StateOfTyped(s, kind);
    hide StateOf, RangeOps;
    MetaIsFirst(kind);
    var expire := s.data[(kind, ROOT)].expire;
    var ranges := RangeOps(key, kind, FamilyOf(kind).1);
    RangesClear(s, key, kind, FamilyOf(kind).1);
    forall r | r in s.data ensures kind <= r.0 <= FamilyOf(kind).1 {
      SameFamily(r.0, kind);
    }
    var cleared := Shaped(s, ranges, key);
    assert cleared == Shape(None, map[], s.index);
    if expire > 0 {
      ShapedPush(s, ranges, DelIndex(key, expire, kind), key);
    } else {
      assert ranges + [] == ranges;
    }
  }

  lemma SameFamily(a: Kind, kind: Kind)
    requires FamilyOf(a).0 == kind
    ensures kind <= a <= FamilyOf(kind).1
  {
  }

  function Bare(value: Blob): Shape {
    Shape(Some(value), map[], {})
  }

  /** A bare string survives clearing with a state read earlier, or is removed by it. */
  lemma ClearBare(value: Blob, key: Key, state: KeyState)
    ensures Shaped(Bare(value), ClearOps(key, state), key) == if state.RawString? then NOTHING else Bare(value)
  {
    hide RangeOps, FamilyOf;
    var s := Bare(value);
    ShapedNone(s, key);
    match state
    case Missing =>
    case RawString(_) =>
      ShapedPush(s, [], DelRaw(key), key);
      assert [] + [DelRaw(key)] == [DelRaw(key)];
    case Enveloped(kind, expire, _) =>
      var (first, last) := FamilyOf(kind);
      RangesClear(s, key, first, last);
      if expire > 0 {
        ShapedPush(s, RangeOps(key, first, last), DelIndex(key, expire, first), key);
      } else {
        assert RangeOps(key, first, last) + [] == RangeOps(key, first, last);
      }
  }

  /** A string with a deadline is one enveloped record and one index entry. */
  function Timed(value: Blob, deadline: nat): Shape {
    Shape(None, map[(STRING_TTL, ROOT) := Val(deadline, value)], {(deadline, STRING_TTL)})
  }

  function StringShape(value: Blob, deadline: nat): Shape {
    if deadline > 0 then Timed(value, deadline) else Bare(value)
  }

  lemma WriteEffect(s: Shape, key: Key, value: Blob, deadline: nat)
    requires s == NOTHING || (deadline == 0 && BareOk(s))
    ensures Shaped(s, WriteOps(key, value, deadline), key) == StringShape(value, deadline)
  {
    ShapedNone(s, key);
    if deadline > 0 {
      var put := PutData(key, STRING_TTL, ROOT, Val(deadline, value));
      ShapedPush(s, [], put, key);
      ShapedPush(s, [put], PutIndex(key, deadline, STRING_TTL), key);
      assert [] + [put] == [put];
      assert WriteOps(key, value, deadline) == [put] + [PutIndex(key, deadline, STRING_TTL)];
    } else {
      ShapedPush(s, [], PutRaw(key, value), key);
      assert [] + [PutRaw(key, value)] == [PutRaw(key, value)];
    }
  }

  lemma StringView(value: Blob, deadline: nat)
    ensures Ok(StringShape(value, deadline))
    ensures View(StringShape(value, deadline)) == Some(Entry(Str(value), deadline))
  {
    if deadline > 0 {
      var s := Timed(value, deadline);
      assert s.data.Keys == {(STRING_TTL, ROOT)};
      assert TypedOk(s, STRING_TTL);
      StateOfTyped(s, STRING_TTL);
    } else {
      RawState(Bare(value));
    }
  }

  // Deadline changes.

  /** A new deadline on a bare string moves it into an enveloped record. */
  function TimeBareOps(key: Key, value: Blob, deadline: nat): seq<Op> {
    [PutData(key, STRING_TTL, ROOT, Val(deadline, value)), DelRaw(key)] + TtlOps(key, STRING_TTL, 0, deadline)
  }

  function RetimeOps(key: Key, kind: Kind, payload: Blob, was: nat, next: nat): seq<Op> {
    [PutData(key, kind, ROOT, Val(next, payload))] + TtlOps(key, kind, was, next)
  }

  /** Taking the deadline from an enveloped string moves it back to a bare one. */
  function UntimeOps(key: Key, payload: Blob, was: nat): seq<Op> {
    [PutRaw(key, payload), DelData(key, STRING_TTL, ROOT)] + TtlOps(key, STRING_TTL, was, 0)
  }

  /** Index maintenance leaves exactly the new deadline's entry. */
  lemma TtlEffect(s: Shape, key: Key, kind: Kind, was: nat, next: nat)
    requires s.index == IndexOf(kind, was)
    ensures Shaped(s, TtlOps(key, kind, was, next), key) == s.(index := IndexOf(kind, next))
  {
    ShapedNone(s, key);
    var del := if was != next && was > 0 then [DelIndex(key, was, kind)] else [];
    if was != next && was > 0 {
      ShapedPush(s, [], DelIndex(key, was, kind), key);
      assert [] + del == del;
    }
    if next > 0 {
      ShapedPush(s, del, PutIndex(key, next, kind), key);
    } else {
      assert del + [] == del;
    }
  }

  lemma TimeBareEffect(value: Blob, key: Key, deadline: nat)
    requires deadline > 0
    ensures Shaped(Bare(value), TimeBareOps(key, value, deadline), key) == Timed(value, deadline)
  {
    hide TtlOps, Shaped;
    var s := Bare(value);
    var put, del := PutData(key, STRING_TTL, ROOT, Val(deadline, value)), DelRaw(key);
    ShapedNone(s, key);
    ShapedPush(s, [], put, key);
    ShapedPush(s, [put], del, key);
    assert [] + [put] == [put] && [put] + [del] == [put, del];
    var moved := Shaped(s, [put, del], key);
    ShapedConcat(s, [put, del], TtlOps(key, STRING_TTL, 0, deadline), key);
    TtlEffect(moved, key, STRING_TTL, 0, deadline);
  }

  lemma UntimeEffect(s: Shape, key: Key)
    requires TypedOk(s, STRING_TTL)
    ensures var v := s.data[(STRING_TTL, ROOT)];
            Shaped(s, UntimeOps(key, v.payload, v.expire), key) == Bare(v.payload)
  {
    hide TtlOps, Shaped;
    var v := s.data[(STRING_TTL, ROOT)];
    var put, del := PutRaw(key, v.payload), DelData(key, STRING_TTL, ROOT);
    ShapedNone(s, key);
    ShapedPush(s, [], put, key);
    ShapedPush(s, [put], del, key);
    assert [] + [put] == [put] && [put] + [del] == [put, del];
    var moved := Shaped(s, [put, del], key);
    ShapedConcat(s, [put, del], TtlOps(key, STRING_TTL, v.expire, 0), key);
    TtlEffect(moved, key, STRING_TTL, v.expire, 0);
    assert moved.data == map[];
  }

  function Retimed(s: Shape, kind: Kind, next: nat): Shape
    requires (kind, ROOT) in s.data
  {
    Shape(s.raw, s.data[(kind, ROOT) := s.data[(kind, ROOT)].(expire := next)],
          if next == 0 then {} else {(next, kind)})
  }

  lemma RetimeEffect(s: Shape, key: Key, kind: Kind, next: nat)
    requires TypedOk(s, kind)
    ensures var v := s.data[(kind, ROOT)];
            Shaped(s, RetimeOps(key, kind, v.payload, v.expire, next), key) == Retimed(s, kind, next)
  {
    hide TtlOps, Shaped, FamilyOf;
    var v := s.data[(kind, ROOT)];
    var put := PutData(key, kind, ROOT, Val(next, v.payload));
    ShapedNone(s, key);
    ShapedPush(s, [], put, key);
    assert [] + [put] == [put];
    ShapedConcat(s, [put], TtlOps(key, kind, v.expire, next), key);
    TtlEffect(Shaped(s, [put], key), key, kind, v.expire, next);
  }

  /** A deadline change is a deadline change and nothing else. */
  lemma RetimedView(s: Shape, kind: Kind, next: nat)
    requires TypedOk(s, kind)
    ensures TypedOk(Retimed(s, kind, next), kind) && View(s).Some?
    ensures View(Retimed(s, kind, next)) == Some(View(s).value.(deadline := next))
  {
    hide FamilyOf;
    var r := Retimed(s, kind, next);
    assert r.data.Keys == s.data.Keys;
    StateOfTyped(s, kind);
    StateOfTyped(r, kind);
    assert r.data - {(kind, ROOT)} == s.data - {(kind, ROOT)};
  }

  // Moving a family to another key.

  /** The records of `moved` written under `dst`. */
  ghost predicate Copied(s: Shape, moved: map<(Kind, Blob), Val>) {
    s == Shape(None, moved, {})
  }

  /** Family ranges and index entry of the source go, the index entry of the destination comes. */
  function MoveTailOps(src: Key, dst: Key, kind: Kind, expire: nat): seq<Op> {
    RangeOps(src, FamilyOf(kind).0, FamilyOf(kind).1)
    + TtlOps(dst, FamilyOf(kind).0, 0, expire)
    + if expire > 0 then [DelIndex(src, expire, FamilyOf(kind).0)] else []
  }

  lemma {:induction false} RangesElsewhere(s: Shape, key: Key, other: Key, first: Kind, last: Kind)
    requires first <= last && key != other
    ensures Shaped(s, RangeOps(key, first, last), other) == s
    decreases last - first
  {
    if first == last {
      ShapedNone(s, other);
      ShapedPush(s, [], DelRange(key, last), other);
      assert [] + [DelRange(key, last)] == [DelRange(key, last)];
    } else {
      RangesElsewhere(s, key, other, first, last - 1);
      ShapedPush(s, RangeOps(key, first, last - 1), DelRange(key, last), other);
    }
  }

  lemma TtlElsewhere(s: Shape, key: Key, other: Key, kind: Kind, was: nat, next: nat)
    requires key != other
    ensures Shaped(s, TtlOps(key, kind, was, next), other) == s
  {
    ShapedElsewhere(s, TtlOps(key, kind, was, next), {key}, other);
  }

  /** After the copies, the tail of a move leaves the destination the source's shape and the source nothing. */
  lemma MoveTailEffect(s: Shape, copy: Shape, src: Key, dst: Key, kind: Kind)
    requires TypedOk(s, kind) && Copied(copy, s.data) && src != dst
    ensures var ops := MoveTailOps(src, dst, kind, s.data[(kind, ROOT)].expire);
            Shaped(copy, ops, dst) == s && Shaped(s, ops, src) == NOTHING
  {
    MetaIsFirst(kind);
    forall r | r in s.data ensures kind <= r.0 <= FamilyOf(kind).1 {
      SameFamily(r.0, kind);
    }
    var expire := s.data[(kind, ROOT)].expire;
    var ranges := RangeOps(src, kind, FamilyOf(kind).1);
    var ttl := TtlOps(dst, kind, 0, expire);
    var tail := if expire > 0 then [DelIndex(src, expire, kind)] else [];
    RangesElsewhere(copy, src, dst, kind, FamilyOf(kind).1);
    RangesClear(s, src, kind, FamilyOf(kind).1);
    MoveTailParts(s, copy, src, dst, kind, ranges);
  }

  lemma MoveTailParts(s: Shape, copy: Shape, src: Key, dst: Key, kind: Kind, ranges: seq<Op>)
    requires TypedOk(s, kind) && Copied(copy, s.data) && src != dst
    requires Shaped(copy, ranges, dst) == copy
    requires Shaped(s, ranges, src) == s.(data := map[])
    ensures var expire := s.data[(kind, ROOT)].expire;
            var ops := ranges + TtlOps(dst, kind, 0, expire) + if expire > 0 then [DelIndex(src, expire, kind)] else [];
            Shaped(copy, ops, dst) == s && Shaped(s, ops, src) == NOTHING
  {
    hide FamilyOf, Shaped, TtlOps;
    var expire := s.data[(kind, ROOT)].expire;
    var ttl := TtlOps(dst, kind, 0, expire);
    ShapedConcat(copy, ranges, ttl, dst);
    TtlEffect(copy, dst, kind, 0, expire);
    ShapedConcat(s, ranges, ttl, src);
    TtlElsewhere(s.(data := map[]), dst, src, kind, 0, expire);
    if expire > 0 {
      ShapedPush(copy, ranges + ttl, DelIndex(src, expire, kind), dst);
      ShapedPush(s, ranges + ttl, DelIndex(src, expire, kind), src);
    } else {
      assert ranges + ttl + [] == ranges + ttl;
    }
  }
}
