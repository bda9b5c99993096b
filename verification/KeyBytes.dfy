/**
 * The keyspace on the bytes of one slot: where each record of a user key lies, the write batches
 * and the lookup on physical keys and values, and which user keys the record-by-record view
 * of the store speaks for.
 */
module KeyBytes {
  import opened Bytes
  import opened Order
  import opened KeyStore
  import Codec
  import KeyDb

  type Records = map<Bytes, Bytes>

  /** One record a user key can have. */
  datatype Place =
    | RawPlace(key: Key)
    | DataPlace(key: Key, kind: Kind, suffix: Blob)
    | IndexPlace(key: Key, expire: nat, kind: Kind)

  function Physical(prefix: Bytes, p: Place): Bytes {
    match p
    case RawPlace(key) => Codec.StringKey(prefix, key.bytes)
    case DataPlace(key, kind, suffix) => Codec.ElemKey(prefix, kind, key.bytes, suffix.bytes)
    case IndexPlace(key, expire, kind) => Codec.ExpireIndexKey(prefix, expire, Codec.DataKey(prefix, kind, key.bytes))
  }

  /** The key fits its length field and its own bytes have no record's layout. */
  predicate Apart(key: Key) {
    Codec.Fits(key.bytes) && !Codec.ReadsAsRecord(key.bytes) && !Codec.ReadsAsIndexEntry(key.bytes)
  }

  /** A place of such a key; a deadline fits eight bytes. */
  predicate Proper(p: Place) {
    Apart(p.key) && (p.IndexPlace? ==> p.expire <= U64_MAX)
  }

  /** A bare string lies on no typed record and on no index entry. */
  lemma BareIsAlone(prefix: Bytes, key: Key, p: Place)
    requires Apart(key) && Proper(p) && !p.RawPlace?
    ensures Physical(prefix, RawPlace(key)) != Physical(prefix, p)
  {
    hide Codec.StringKey, Codec.ElemKey, Codec.DataKey, Codec.ExpireIndexKey, Codec.ReadsAsRecord, Codec.ReadsAsIndexEntry;
    Codec.RawMeetsRecordIff(prefix, key.bytes);
    Codec.RawMeetsIndexIff(prefix, key.bytes);
  }

  lemma FirstByte(prefix: Bytes, p: Place)
    requires !p.RawPlace?
    ensures |Physical(prefix, p)| > |prefix|
    ensures Physical(prefix, p)[|prefix|] == if p.DataPlace? then p.kind else Codec.KIND_EXPIRE_INDEX
  {
    hide Codec.BigEndian;
  }

  lemma IndexIsAlone(prefix: Bytes, a: Place, b: Place)
    requires Proper(a) && Proper(b) && a.IndexPlace? && b.IndexPlace?
    requires Physical(prefix, a) == Physical(prefix, b)
    ensures a == b
  {
    hide Codec.BigEndian, Codec.ReadsAsRecord, Codec.ReadsAsIndexEntry;
    var root, root2 := Codec.DataKey(prefix, a.kind, a.key.bytes), Codec.DataKey(prefix, b.kind, b.key.bytes);
    Codec.ExpireIndexInjective(prefix, a.expire, root, b.expire, root2);
    assert root + [] == root && root2 + [] == root2;
    Codec.ElemKeyInjective(prefix, a.kind, a.key.bytes, [], b.kind, b.key.bytes, []);
  }

  /** Records of different keys, kinds, elements or deadlines never meet. */
  lemma PlacesApart(prefix: Bytes, a: Place, b: Place)
    requires Proper(a) && Proper(b) && Physical(prefix, a) == Physical(prefix, b)
    ensures a == b
  {
    hide Codec.BigEndian, Codec.ReadsAsRecord, Codec.ReadsAsIndexEntry, Codec.DataKey, Codec.ElemKey;
    if a.RawPlace? || b.RawPlace? {
      if !b.RawPlace? {
        BareIsAlone(prefix, a.key, b);
      } else if !a.RawPlace? {
        BareIsAlone(prefix, b.key, a);
      } else {
        Codec.DropPrefix(prefix, a.key.bytes, b.key.bytes);
      }
    } else {
      FirstByte(prefix, a);
      FirstByte(prefix, b);
      if a.DataPlace? {
        Codec.ElemKeyInjective(prefix, a.kind, a.key.bytes, a.suffix.bytes, b.kind, b.key.bytes, b.suffix.bytes);
      } else {
        IndexIsAlone(prefix, a, b);
      }
    }
  }

  /** A key's delete range for one kind holds that key's records of that kind and no others. */
  lemma RangeIsConfined(prefix: Bytes, key: Key, kind: Kind, p: Place)
    requires Apart(key) && Proper(p)
    ensures var low := Codec.DataKey(prefix, kind, key.bytes);
            InRange(Physical(prefix, p), low, UpperBound(low)) <==> p.DataPlace? && p.key == key && p.kind == kind
  {
    hide Codec.BigEndian, Codec.ReadsAsRecord, Codec.ReadsAsIndexEntry, InRange, UpperBound;
    var low := Codec.DataKey(prefix, kind, key.bytes);
    if p.DataPlace? {
      Codec.DeleteRangeIsConfined(prefix, kind, key.bytes, p.kind, p.key.bytes, p.suffix.bytes);
    } else {
      var k := Physical(prefix, p);
      RangeIsPrefix(low, k);
      if low <= k {
        assert k == Codec.ElemKey(prefix, kind, key.bytes, k[|low|..]);
        PlacesApart(prefix, p, DataPlace(key, kind, Blob(k[|low|..])));
      }
    }
  }

  // What lies at a place.

  function Envelope(v: Val): Bytes {
    Codec.Leb(v.expire) + v.payload.bytes
  }

  function Stored(s: Shape, p: Place): Option<Bytes> {
    match p
    case RawPlace(_) => if s.raw.Some? then Some(s.raw.value.bytes) else None
    case DataPlace(_, kind, suffix) =>
      if (kind, suffix) in s.data then Some(Envelope(s.data[(kind, suffix)])) else None
    case IndexPlace(_, expire, kind) => if (expire, kind) in s.index then Some([]) else None
  }

  function Read(records: Records, k: Bytes): Option<Bytes> {
    if k in records then Some(records[k]) else None
  }

  /** The slot's bytes hold exactly the records of the store, at the places of every key that is apart. */
  ghost predicate Mirrors(records: Records, prefix: Bytes, store: Store) {
    forall p: Place :: Proper(p) ==> Read(records, Physical(prefix, p)) == Stored(At(store, p.key), p)
  }

  // Write batches.

  function Put(records: Records, prefix: Bytes, p: Place, value: Bytes): Records {
    records[Physical(prefix, p) := value]
  }

  function Erase(records: Records, prefix: Bytes, p: Place): Records {
    records - {Physical(prefix, p)}
  }

  function EraseRange(records: Records, low: Bytes): Records {
    map k | k in records && !InRange(k, low, UpperBound(low)) :: records[k]
  }

  function Apply(records: Records, prefix: Bytes, op: Op): Records {
    match op
    case PutRaw(key, value) => Put(records, prefix, RawPlace(key), value.bytes)
    case DelRaw(key) => Erase(records, prefix, RawPlace(key))
    case PutData(key, kind, suffix, val) => Put(records, prefix, DataPlace(key, kind, suffix), Envelope(val))
    case DelData(key, kind, suffix) => Erase(records, prefix, DataPlace(key, kind, suffix))
    case DelRange(key, kind) => EraseRange(records, Codec.DataKey(prefix, kind, key.bytes))
    case PutIndex(key, expire, kind) => Put(records, prefix, IndexPlace(key, expire, kind), [])
    case DelIndex(key, expire, kind) => Erase(records, prefix, IndexPlace(key, expire, kind))
  }

  function ApplyAll(records: Records, prefix: Bytes, ops: seq<Op>): Records
    decreases |ops|
  {
    if ops == [] then records else Apply(ApplyAll(records, prefix, ops[..|ops| - 1]), prefix, ops[|ops| - 1])
  }

  predicate ProperOp(op: Op) {
    Apart(op.key) && (op.PutIndex? || op.DelIndex? ==> op.expire <= U64_MAX)
  }

  /** The place an operation on one record writes. */
  function Target(op: Op): Place
    requires !op.DelRange?
  {
    match op
    case PutRaw(key, _) => RawPlace(key)
    case DelRaw(key) => RawPlace(key)
    case PutData(key, kind, suffix, _) => DataPlace(key, kind, suffix)
    case DelData(key, kind, suffix) => DataPlace(key, kind, suffix)
    case PutIndex(key, expire, kind) => IndexPlace(key, expire, kind)
    case DelIndex(key, expire, kind) => IndexPlace(key, expire, kind)
  }

  /** One operation does to the bytes at any place what it does to the record there. */
  lemma ApplyAt(records: Records, prefix: Bytes, s: Shape, op: Op, p: Place)
    requires ProperOp(op) && Proper(p) && Read(records, Physical(prefix, p)) == Stored(s, p)
    ensures Read(Apply(records, prefix, op), Physical(prefix, p)) ==
            Stored(if op.key == p.key then ApplyOp(s, op) else s, p)
  {
    hide Physical, Apart, InRange, Envelope;
    if op.DelRange? {
      RangeIsConfined(prefix, op.key, op.kind, p);
    } else if Physical(prefix, p) == Physical(prefix, Target(op)) {
      PlacesApart(prefix, p, Target(op));
    }
  }

  ghost predicate Agrees(records: Records, prefix: Bytes, s: Shape, p: Place) {
    Read(records, Physical(prefix, p)) == Stored(s, p)
  }

  lemma {:induction false} ApplyAllAt(records: Records, prefix: Bytes, s: Shape, ops: seq<Op>, p: Place)
    requires (forall op <- ops :: ProperOp(op)) && Proper(p) && Agrees(records, prefix, s, p)
    ensures Agrees(ApplyAll(records, prefix, ops), prefix, Shaped(s, ops, p.key), p)
    decreases |ops|
  {
    hide Physical, Proper, ProperOp, Apply, ApplyOp, Stored;
    if ops != [] {
      var last := |ops| - 1;
      ApplyAllAt(records, prefix, s, ops[..last], p);
      ApplyAt(ApplyAll(records, prefix, ops[..last]), prefix, Shaped(s, ops[..last], p.key), ops[last], p);
    }
  }

  /** A batch on keys that are apart, written to the bytes, keeps them a mirror of the store it is committed to. */
  lemma CommitMirrors(records: Records, prefix: Bytes, before: Store, ops: seq<Op>, after: Store)
    requires Mirrors(records, prefix, before) && KeyDb.Committed(before, ops, after)
    requires forall op <- ops :: ProperOp(op)
    ensures Mirrors(ApplyAll(records, prefix, ops), prefix, after)
  {
    hide Physical, Proper, ProperOp, ApplyAll, Shaped, Stored;
    forall p: Place | Proper(p)
      ensures Read(ApplyAll(records, prefix, ops), Physical(prefix, p)) == Stored(At(after, p.key), p)
    {
      ApplyAllAt(records, prefix, At(before, p.key), ops, p);
    }
  }

  // Lookup.

  /** The root scan from the i-th meta kind on. */
  function RootFrom(records: Records, prefix: Bytes, key: Key, i: nat): KeyState
    requires i <= |META_KINDS|
    decreases |META_KINDS| - i
  {
    if i == |META_KINDS| then Missing
    else
      match Read(records, Codec.DataKey(prefix, META_KINDS[i], key.bytes))
      case None => RootFrom(records, prefix, key, i + 1)
      case Some(value) =>
        var (expire, payload) := Codec.Decoded(value, 0, 0, 1);
        Enveloped(META_KINDS[i], expire, Blob(payload))
  }

  /** What the bytes say of a key, whether due or not. */
  function Found(records: Records, prefix: Bytes, key: Key): KeyState {
    match Read(records, Codec.StringKey(prefix, key.bytes))
    case Some(value) => RawString(Blob(value))
    case None => RootFrom(records, prefix, key, 0)
  }

  method LookUp(records: Records, prefix: Bytes, key: Key) returns (state: KeyState)
    ensures state == Found(records, prefix, key)
  {
    hide Codec.DataKey, Codec.Decoded;
    var raw := Codec.StringKey(prefix, key.bytes);
    if raw in records {
      return RawString(Blob(records[raw]));
    }
    var i := 0;
    while i < |META_KINDS|
      invariant 0 <= i <= |META_KINDS|
      invariant Found(records, prefix, key) == RootFrom(records, prefix, key, i)
    {
      var root := Codec.DataKey(prefix, META_KINDS[i], key.bytes);
      if root in records {
        var expire, payload := Codec.DecodeEnvelope(records[root]);
        return Enveloped(META_KINDS[i], expire, Blob(payload));
      }
      i := i + 1;
    }
    state := Missing;
  }

  /** Reading a root back gives its payload always, and its deadline exactly when that survives the envelope. */
  predicate Survives(expire: nat) {
    expire < 0x8000_0000_0000_0000 || expire == U64_MAX
  }

  lemma RootAt(records: Records, prefix: Bytes, s: Shape, key: Key, kind: Kind)
    requires Apart(key) && Agrees(records, prefix, s, DataPlace(key, kind, ROOT))
    ensures Read(records, Codec.DataKey(prefix, kind, key.bytes)) ==
            if (kind, ROOT) in s.data then Some(Envelope(s.data[(kind, ROOT)])) else None
  {
    hide Codec.DataKey, Envelope;
    assert Codec.ElemKey(prefix, kind, key.bytes, []) == Codec.DataKey(prefix, kind, key.bytes);
  }

  /** The scan finds the one root there is. */
  lemma {:induction false} RootFound(records: Records, prefix: Bytes, s: Shape, key: Key, kind: Kind, i: nat)
    requires i <= |META_KINDS| && Apart(key) && TypedOk(s, kind) && kind in META_KINDS[i..]
    requires forall k: Kind :: Agrees(records, prefix, s, DataPlace(key, k, ROOT))
    ensures var (expire, payload) := Codec.Decoded(Envelope(s.data[(kind, ROOT)]), 0, 0, 1);
            RootFrom(records, prefix, key, i) == Enveloped(kind, expire, Blob(payload))
    decreases |META_KINDS| - i
  {
    hide Codec.DataKey, Codec.Decoded, Envelope, FamilyOf, Apart, Agrees;
    RootAt(records, prefix, s, key, META_KINDS[i]);
    if (META_KINDS[i], ROOT) in s.data {
      OneKind(s, kind, META_KINDS[i]);
    } else {
      assert META_KINDS[i..] == [META_KINDS[i]] + META_KINDS[i + 1..];
      RootFound(records, prefix, s, key, kind, i + 1);
    }
  }

  lemma {:induction false} NoRoot(records: Records, prefix: Bytes, s: Shape, key: Key, i: nat)
    requires i <= |META_KINDS| && Apart(key) && s.data == map[]
    requires forall k: Kind :: Agrees(records, prefix, s, DataPlace(key, k, ROOT))
    ensures RootFrom(records, prefix, key, i) == Missing
    decreases |META_KINDS| - i
  {
    hide Codec.DataKey, Codec.Decoded, Envelope, Apart, Agrees;
    if i < |META_KINDS| {
      RootAt(records, prefix, s, key, META_KINDS[i]);
      NoRoot(records, prefix, s, key, i + 1);
    }
  }

  /** On mirrored bytes a lookup says what the records say, exactly when the deadline survives its envelope. */
  lemma LookUpIff(records: Records, prefix: Bytes, store: Store, key: Key)
    requires Mirrors(records, prefix, store) && Apart(key) && Ok(At(store, key))
    requires StateOf(At(store, key)).Expire() <= U64_MAX
    ensures Found(records, prefix, key) == StateOf(At(store, key)) <==> Survives(StateOf(At(store, key)).Expire())
  {
    hide Codec.StringKey, Codec.DataKey, Codec.ElemKey, Codec.Decoded, Codec.Leb, FamilyOf, TypedOk, StateOf, RootFrom, Apart;
    var s := At(store, key);
    assert Agrees(records, prefix, s, RawPlace(key));
    forall k: Kind ensures Agrees(records, prefix, s, DataPlace(key, k, ROOT)) {
      assert Proper(DataPlace(key, k, ROOT));
    }
    OkCases(s);
    if s == NOTHING {
      NoRoot(records, prefix, s, key, 0);
      KeyDb.StateShape(s);
      EmptyState();
    } else if s.raw.Some? {
      RawState(s);
    } else {
      var kind: Kind :| TypedOk(s, kind);
      TypedKind(s, kind);
      RootFound(records, prefix, s, key, kind, 0);
      StateOfTyped(s, kind);
      var v := s.data[(kind, ROOT)];
      Codec.EnvelopeRoundTrip(v.expire, v.payload.bytes);
    }
  }

  lemma EmptyState()
    ensures StateOf(NOTHING) == Missing
  {
  }

  lemma TypedKind(s: Shape, kind: Kind)
    requires TypedOk(s, kind)
    ensures kind in META_KINDS[0..] && s.raw.None? && (kind, ROOT) in s.data
  {
  }

  /** A SET of one key makes another key of its slot appear, though no command named it. */
  lemma ForeignKeyExample(prefix: Bytes)
    ensures var written, other := Key(Codec.DISGUISED_KEY), Key(Codec.TAGGED_KEY);
            var records := Apply(map[], prefix, PutRaw(written, Blob([0, 7])));
            && !Apart(written) && Apart(other)
            && Found(map[], prefix, other) == Missing
            && Found(records, prefix, other) == Enveloped(0x02, 0, Blob([7]))
  {
    hide Codec.BigEndian, Codec.Decoded, Found, RootFrom, Apart;
    var written, other := Key(Codec.DISGUISED_KEY), Key(Codec.TAGGED_KEY);
    var records := Apply(map[], prefix, PutRaw(written, Blob([0, 7])));
    Codec.RawCollisionExample(prefix);
    assert !Apart(written) by {
      WhatApartMeans(written);
    }
    assert Apart(other) by {
      ShortIsApart(other);
    }
    assert Found(map[], prefix, other) == Missing by {
      NothingFound(prefix, other);
    }
    var k := Codec.StringKey(prefix, Codec.DISGUISED_KEY);
    assert records == map[k := [0, 7]];
    assert k != Codec.StringKey(prefix, other.bytes);
    assert k[|prefix|] == 0x02;
    assert Codec.DataKey(prefix, 0x01, other.bytes)[|prefix|] == 0x01;
    FoundSecond(records, prefix, other, [0, 7]);
    assert Codec.Decoded([0, 7], 0, 0, 1) == (0, [7]) by {
      ZeroDeadline();
    }
  }

  lemma WhatApartMeans(key: Key)
    ensures Codec.ReadsAsRecord(key.bytes) ==> !Apart(key)
  {
  }

  lemma ShortIsApart(key: Key)
    requires |key.bytes| < 5
    ensures Apart(key)
  {
  }

  lemma NothingFound(prefix: Bytes, key: Key)
    requires Apart(key)
    ensures Found(map[], prefix, key) == Missing
  {
    hide RootFrom;
    NoRoot(map[], prefix, NOTHING, key, 0);
  }

  lemma FoundSecond(records: Records, prefix: Bytes, key: Key, value: Bytes)
    requires Codec.StringKey(prefix, key.bytes) !in records
    requires Codec.DataKey(prefix, 0x01, key.bytes) !in records
    requires Read(records, Codec.DataKey(prefix, 0x02, key.bytes)) == Some(value)
    ensures var (expire, payload) := Codec.Decoded(value, 0, 0, 1);
            Found(records, prefix, key) == Enveloped(0x02, expire, Blob(payload))
  {
    hide Codec.DataKey, Codec.StringKey, Codec.Decoded;
    assert META_KINDS[0] == 0x01 && META_KINDS[1] == 0x02;
  }

  lemma ZeroDeadline()
    ensures Codec.Decoded([0, 7], 0, 0, 1) == (0, [7])
  {
  }
}
