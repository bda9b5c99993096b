/**
 * The physical side of the keyspace: for each user key a bare string record,
 * enveloped records by kind, and expire-index entries; and the ordered write
 * batches that change them.
 */
module KeyStore {
  import opened Bytes

  datatype Blob = Blob(bytes: Bytes)

  /** The kind byte of an enveloped record. */
  type Kind = k: nat | 1 <= k <= 0x19 witness 1

  const STRING_TTL: Kind := 0x01
  const ROOT: Blob := Blob([])

  /** The kinds a user key can exist under, in lookup order. */
  const META_KINDS: seq<Kind> := [0x01, 0x02, 0x04, 0x07, 0x09, 0x0C, 0x10, 0x11, 0x13]

  /** First and last kind of the family `kind` belongs to. */
  function FamilyOf(kind: Kind): (r: (Kind, Kind))
    ensures r.0 <= kind <= r.1
  {
    if kind == 0x01 then (0x01, 0x01)
    else if kind <= 0x03 then (0x02, 0x03)
    else if kind <= 0x06 then (0x04, 0x06)
    else if kind <= 0x08 then (0x07, 0x08)
    else if kind <= 0x0B then (0x09, 0x0B)
    else if kind <= 0x0F then (0x0C, 0x0F)
    else if kind == 0x10 then (0x10, 0x10)
    else if kind <= 0x12 then (0x11, 0x12)
    else (0x13, 0x19)
  }

  /** A family starts at a meta kind and runs up to the next one. */
  lemma FamilyMeaning(kind: Kind, k: Kind)
    ensures FamilyOf(kind).0 in META_KINDS
    ensures FamilyOf(kind).0 < k <= FamilyOf(kind).1 ==> k !in META_KINDS
    ensures FamilyOf(kind).1 == 0x19 || FamilyOf(kind).1 + 1 in META_KINDS
  {
  }

  /** An enveloped value; `expire` 0 is no deadline. */
  datatype Val = Val(expire: nat, payload: Blob)

  /** Everything stored for one user key. */
  datatype Shape = Shape(raw: Option<Blob>, data: map<(Kind, Blob), Val>, index: set<(nat, Kind)>)

  const NOTHING := Shape(None, map[], {})

  type Store = map<Key, Shape>

  function At(store: Store, key: Key): Shape {
    if key in store then store[key] else NOTHING
  }

  datatype Op =
    | PutRaw(key: Key, value: Blob)
    | DelRaw(key: Key)
    | PutData(key: Key, kind: Kind, suffix: Blob, val: Val)
    | DelData(key: Key, kind: Kind, suffix: Blob)
    | DelRange(key: Key, kind: Kind)
    | PutIndex(key: Key, expire: nat, kind: Kind)
    | DelIndex(key: Key, expire: nat, kind: Kind)

  function ApplyOp(s: Shape, op: Op): Shape {
    match op
    case PutRaw(_, value) => s.(raw := Some(value))
    case DelRaw(_) => s.(raw := None)
    case PutData(_, kind, suffix, val) => s.(data := s.data[(kind, suffix) := val])
    case DelData(_, kind, suffix) => s.(data := s.data - {(kind, suffix)})
    case DelRange(_, kind) => s.(data := map r | r in s.data && r.0 != kind :: s.data[r])
    case PutIndex(_, expire, kind) => s.(index := s.index + {(expire, kind)})
    case DelIndex(_, expire, kind) => s.(index := s.index - {(expire, kind)})
  }

  /** A batch, in order, on the shape of one key; operations on other keys do not concern it. */
  function Shaped(s: Shape, ops: seq<Op>, key: Key): Shape
    decreases |ops|
  {
    if ops == [] then s
    else
      var before := Shaped(s, ops[..|ops| - 1], key);
      var last := ops[|ops| - 1];
      if last.key == key then ApplyOp(before, last) else before
  }

  lemma {:induction false} ShapedConcat(s: Shape, a: seq<Op>, b: seq<Op>, key: Key)
    ensures Shaped(s, a + b, key) == Shaped(Shaped(s, a, key), b, key)
    decreases |b|
  {
    if b == [] {
      assert a + b == a;
    } else {
      var last := |b| - 1;
      ShapedConcat(s, a, b[..last], key);
      assert (a + b)[..|a + b| - 1] == a + b[..last];
      assert (a + b)[|a + b| - 1] == b[last];
    }
  }

  lemma ShapedPush(s: Shape, a: seq<Op>, op: Op, key: Key)
    ensures Shaped(s, a + [op], key) ==
            if op.key == key then ApplyOp(Shaped(s, a, key), op) else Shaped(s, a, key)
  {
    assert (a + [op])[..|a|] == a;
  }

  lemma ShapedNone(s: Shape, key: Key)
    ensures Shaped(s, [], key) == s
  {
  }

  /** The keys a batch writes. */
  ghost predicate OnlyOn(ops: seq<Op>, keys: set<Key>) {
    forall op <- ops :: op.key in keys
  }

  lemma {:induction false} ShapedElsewhere(s: Shape, ops: seq<Op>, keys: set<Key>, key: Key)
    requires OnlyOn(ops, keys) && key !in keys
    ensures Shaped(s, ops, key) == s
    decreases |ops|
  {
    if ops != [] {
      ShapedElsewhere(s, ops[..|ops| - 1], keys, key);
    }
  }

  // One physical shape per key.

  ghost predicate BareOk(s: Shape) {
    s.raw.Some? && s.data == map[] && s.index == {}
  }

  /** One family under root `kind`, indexed exactly when it has a deadline. */
  ghost predicate TypedOk(s: Shape, kind: Kind) {
    && s.raw.None?
    && kind in META_KINDS
    && (kind, ROOT) in s.data
    && (forall r <- s.data :: FamilyOf(r.0).0 == kind)
    && (kind == STRING_TTL ==> s.data.Keys == {(kind, ROOT)})
    && s.index == IndexOf(kind, s.data[(kind, ROOT)].expire)
  }

  /** The index entries a root with this deadline must have. */
  ghost function IndexOf(kind: Kind, expire: nat): set<(nat, Kind)> {
    if expire == 0 then {} else {(expire, kind)}
  }

  ghost predicate Ok(s: Shape) {
    s == NOTHING || BareOk(s) || exists kind: Kind :: TypedOk(s, kind)
  }

  // Lookup.

  datatype KeyState =
    | Missing
    | RawString(value: Blob)
    | Enveloped(kind: Kind, expire: nat, payload: Blob)
  {
    predicate Present() { !Missing? }
    function Expire(): nat { if Enveloped? then expire else 0 }
  }

  /** What the records say, whether due or not. */
  ghost function StateOf(s: Shape): KeyState {
    if s.raw.Some? then RawString(s.raw.value)
    else if kind: Kind :| TypedOk(s, kind) then
      var v := s.data[(kind, ROOT)]; Enveloped(kind, v.expire, v.payload)
    else Missing
  }

  lemma OneKind(s: Shape, a: Kind, b: Kind)
    requires TypedOk(s, a) && (b, ROOT) in s.data && b in META_KINDS
    ensures a == b
  {
    assert FamilyOf(b).0 == a;
    MetaIsFirst(b);
  }

  lemma MetaIsFirst(kind: Kind)
    requires kind in META_KINDS
    ensures FamilyOf(kind).0 == kind
  {
  }

  lemma StateOfTyped(s: Shape, kind: Kind)
    requires TypedOk(s, kind)
    ensures StateOf(s) == Enveloped(kind, s.data[(kind, ROOT)].expire, s.data[(kind, ROOT)].payload)
  {
    hide FamilyOf;
    forall other: Kind | TypedOk(s, other) ensures other == kind {
      OneKind(s, kind, other);
    }
  }

  /** The root scan over the meta kinds: the first kind with a root record decides. */
  method FindState(s: Shape) returns (state: KeyState)
    requires Ok(s)
    ensures state == StateOf(s)
  {
    hide Ok, FamilyOf, TypedOk, StateOf;
    OkCases(s);
    if s.raw.Some? {
      RawState(s);
      return RawString(s.raw.value);
    }
    var i := 0;
    while i < |META_KINDS|
      invariant 0 <= i <= |META_KINDS|
      invariant forall j :: 0 <= j < i ==> (META_KINDS[j], ROOT) !in s.data
    {
      var kind := META_KINDS[i];
      if (kind, ROOT) in s.data {
        TypedBy(s, kind);
        StateOfTyped(s, kind);
        var v := s.data[(kind, ROOT)];
        return Enveloped(kind, v.expire, v.payload);
      }
      i := i + 1;
    }
    NotTyped(s);
    state := Missing;
  }

  lemma OkCases(s: Shape)
    requires Ok(s)
    ensures s == NOTHING || BareOk(s) || exists kind: Kind :: TypedOk(s, kind)
  {
  }

  lemma RawState(s: Shape)
    requires s.raw.Some?
    ensures StateOf(s) == RawString(s.raw.value)
  {
  }

  lemma TypedBy(s: Shape, kind: Kind)
    requires Ok(s) && s.raw.None? && (kind, ROOT) in s.data && kind in META_KINDS
    ensures TypedOk(s, kind)
  {
    hide FamilyOf;
    var other: Kind :| TypedOk(s, other);
    OneKind(s, other, kind);
  }

  lemma NotTyped(s: Shape)
    requires s.raw.None? && forall i :: 0 <= i < |META_KINDS| ==> (META_KINDS[i], ROOT) !in s.data
    ensures StateOf(s) == Missing
  {
    hide FamilyOf;
    forall kind: Kind ensures !TypedOk(s, kind) {
      if kind in META_KINDS {
        var i :| 0 <= i < |META_KINDS| && META_KINDS[i] == kind;
      }
    }
  }

  /** An expire-index entry is present exactly when its root is there with that deadline. */
  lemma IndexIffDeadline(s: Shape, expire: nat, kind: Kind)
    requires Ok(s)
    ensures (expire, kind) in s.index <==>
            && expire != 0 && kind in META_KINDS
            && (kind, ROOT) in s.data && s.data[(kind, ROOT)].expire == expire
  {
    hide FamilyOf;
    if s.raw.None? && (kind, ROOT) in s.data && kind in META_KINDS {
      TypedBy(s, kind);
    }
  }

  /** A key is a bare string, or one root with the elements of its family, or nothing. */
  lemma OneShape(s: Shape, a: (Kind, Blob), b: (Kind, Blob))
    requires Ok(s) && a in s.data && b in s.data
    ensures s.raw.None? && FamilyOf(a.0) == FamilyOf(b.0)
    ensures (FamilyOf(a.0).0, ROOT) in s.data
  {
  }
}
