/** Physical keys of the records of one slot, and the envelope of their values. */
module Codec {
  import opened Bytes
  import opened Order
  import HashSlot

  const KIND_SEARCH_NUMVAL: byte := 0x19
  const KIND_STREAM_DELAY: byte := 0x1D
  const KIND_STREAM_OFFSET: byte := 0x20
  const KIND_EXPIRE_INDEX: byte := 0xFD

  /** Kinds whose records carry a length-prefixed user key. */
  predicate HasFamily(kind: byte) {
    1 <= kind <= KIND_SEARCH_NUMVAL || kind == KIND_STREAM_DELAY || kind == KIND_STREAM_OFFSET
  }

  /** Big-endian fixed-width integer. */
  function BigEndian(n: nat, width: nat): (r: Bytes)
    ensures |r| == width
  {
    if width == 0 then [] else BigEndian(n / 256, width - 1) + [n % 256]
  }

  function FromBigEndian(s: Bytes): nat {
    if s == [] then 0 else 256 * FromBigEndian(s[..|s| - 1]) + s[|s| - 1]
  }

  function Power(width: nat): nat {
    if width == 0 then 1 else 256 * Power(width - 1)
  }

  lemma {:induction false} BigEndianRoundTrip(n: nat, width: nat)
    requires n < Power(width)
    ensures FromBigEndian(BigEndian(n, width)) == n
    decreases width
  {
    if width > 0 {
      BigEndianRoundTrip(n / 256, width - 1);
      var s := BigEndian(n, width);
      assert s[..|s| - 1] == BigEndian(n / 256, width - 1);
    }
  }

  lemma {:induction false} BigEndianOf(s: Bytes)
    ensures BigEndian(FromBigEndian(s), |s|) == s && FromBigEndian(s) < Power(|s|)
    decreases |s|
  {
    if s != [] {
      BigEndianOf(s[..|s| - 1]);
    }
  }

  /** Fixed-width integers sort as their bytes do: index entries lie in the order of their deadlines. */
  lemma {:induction false} BigEndianOrder(a: nat, b: nat, width: nat, x: Bytes, y: Bytes)
    requires a < b < Power(width)
    ensures Below(BigEndian(a, width) + x, BigEndian(b, width) + y)
    decreases width
  {
    hide BigEndian;
    if width > 0 {
      var p, q := BigEndian(a / 256, width - 1), BigEndian(b / 256, width - 1);
      assert BigEndian(a, width) == p + [a % 256] && BigEndian(b, width) == q + [b % 256] by {
        LastByte(a, width);
        LastByte(b, width);
      }
      assert BigEndian(a, width) + x == p + ([a % 256] + x) && BigEndian(b, width) + y == q + ([b % 256] + y);
      if a / 256 < b / 256 {
        BigEndianOrder(a / 256, b / 256, width - 1, [a % 256] + x, [b % 256] + y);
      } else {
        BelowAfter(p, [a % 256] + x, [b % 256] + y);
      }
    }
  }

  lemma LastByte(n: nat, width: nat)
    requires width > 0
    ensures BigEndian(n, width) == BigEndian(n / 256, width - 1) + [n % 256]
  {
  }

  lemma {:induction false} BelowAfter(p: Bytes, x: Bytes, y: Bytes)
    ensures Below(p + x, p + y) <==> Below(x, y)
    decreases |p|
  {
    if p == [] {
      assert p + x == x && p + y == y;
    } else {
      assert (p + x)[1..] == p[1..] + x && (p + y)[1..] == p[1..] + y;
      BelowAfter(p[1..], x, y);
    }
  }

  /** A user key fits the four-byte length field. */
  predicate Fits(key: Bytes) {
    |key| < 0x1_0000_0000
  }

  function StringKey(prefix: Bytes, key: Bytes): Bytes {
    prefix + key
  }

  function DataKey(prefix: Bytes, kind: byte, key: Bytes): Bytes {
    prefix + [kind] + BigEndian(|key|, 4) + key
  }

  function ElemKey(prefix: Bytes, kind: byte, key: Bytes, suffix: Bytes): Bytes {
    DataKey(prefix, kind, key) + suffix
  }

  function DecodeDataKey(physical: Bytes, prefixLen: nat): Option<(byte, Bytes, Bytes)> {
    if |physical| <= prefixLen then None
    else
      var body := physical[prefixLen..];
      var kind := body[0];
      if kind == KIND_STREAM_DELAY || !HasFamily(kind) || |body| < 5 then None
      else
        var len := FromBigEndian(body[1..5]);
        if |body| < 5 + len then None
        else Some((kind, body[5..5 + len], body[5 + len..]))
  }

  lemma FourBytes(key: Bytes)
    requires Fits(key)
    ensures FromBigEndian(BigEndian(|key|, 4)) == |key|
  {
    assert Power(4) == 0x1_0000_0000;
    BigEndianRoundTrip(|key|, 4);
  }

  /** Decoding gives back kind, user key and suffix of every record key. */
  lemma DecodeInverse(prefix: Bytes, kind: byte, key: Bytes, suffix: Bytes)
    requires Fits(key) && HasFamily(kind) && kind != KIND_STREAM_DELAY
    ensures DecodeDataKey(ElemKey(prefix, kind, key, suffix), |prefix|) == Some((kind, key, suffix))
  {
    hide BigEndian, FromBigEndian;
    FourBytes(key);
    var body := ElemKey(prefix, kind, key, suffix)[|prefix|..];
    assert body == [kind] + BigEndian(|key|, 4) + key + suffix;
    assert body[1..5] == BigEndian(|key|, 4);
    assert body[5..5 + |key|] == key;
    assert body[5 + |key|..] == suffix;
  }

  /** Records of different kinds, keys or suffixes never share a physical key. */
  lemma ElemKeyInjective(prefix: Bytes, kind: byte, key: Bytes, suffix: Bytes, kind2: byte, key2: Bytes, suffix2: Bytes)
    requires Fits(key) && Fits(key2)
    requires ElemKey(prefix, kind, key, suffix) == ElemKey(prefix, kind2, key2, suffix2)
    ensures kind == kind2 && key == key2 && suffix == suffix2
  {
    hide BigEndian, FromBigEndian;
    var a, b := ElemKey(prefix, kind, key, suffix), ElemKey(prefix, kind2, key2, suffix2);
    FourBytes(key);
    FourBytes(key2);
    assert a[|prefix|] == kind && b[|prefix|] == kind2;
    assert a[|prefix| + 1..|prefix| + 5] == BigEndian(|key|, 4);
    assert b[|prefix| + 1..|prefix| + 5] == BigEndian(|key2|, 4);
    assert a[|prefix| + 5..|prefix| + 5 + |key|] == key;
    assert b[|prefix| + 5..|prefix| + 5 + |key2|] == key2;
    assert a[|prefix| + 5 + |key|..] == suffix;
    assert b[|prefix| + 5 + |key2|..] == suffix2;
  }

  /** One kind's delete range of a key covers that key's records of that kind and no other record. */
  lemma DeleteRangeIsConfined(prefix: Bytes, kind: byte, key: Bytes, kind2: byte, key2: Bytes, suffix2: Bytes)
    requires Fits(key) && Fits(key2) && kind < 255
    ensures var low := DataKey(prefix, kind, key);
            && UpperBound(low).Some?
            && (InRange(ElemKey(prefix, kind2, key2, suffix2), low, UpperBound(low))
                <==> kind == kind2 && key == key2)
  {
    hide BigEndian, UpperBound, InRange;
    var low := DataKey(prefix, kind, key);
    var p := ElemKey(prefix, kind2, key2, suffix2);
    RangeIsPrefix(low, p);
    assert low[|prefix|] == kind;
    SomeUpperBound(low, |prefix|);
    if low <= p {
      var suffix := p[|low|..];
      assert p == ElemKey(prefix, kind, key, suffix);
      ElemKeyInjective(prefix, kind, key, suffix, kind2, key2, suffix2);
    }
  }

  lemma {:induction false} SomeUpperBound(b: Bytes, i: nat)
    requires i < |b| && b[i] < 255
    ensures UpperBound(b).Some?
    decreases |b|
  {
    if i > 0 {
      SomeUpperBound(b[1..], i - 1);
    }
  }

  // Raw strings share the slot with typed records.

  datatype Classification = Raw | Typed(kind: byte)

  function Classify(afterPrefix: Bytes): Classification {
    if afterPrefix != []
       && (afterPrefix[0] <= KIND_SEARCH_NUMVAL || afterPrefix[0] == KIND_STREAM_DELAY
           || afterPrefix[0] == KIND_EXPIRE_INDEX || afterPrefix[0] == KIND_STREAM_OFFSET)
    then Typed(afterPrefix[0]) else Raw
  }

  function ExpireIndexKey(prefix: Bytes, expire: nat, dataKey: Bytes): Bytes
    requires |prefix| <= |dataKey|
  {
    prefix + [KIND_EXPIRE_INDEX] + BigEndian(expire, 8) + dataKey[|prefix|..]
  }

  /** The bytes of a user key have the layout of a record of some family. */
  predicate ReadsAsRecord(raw: Bytes) {
    DecodeDataKey(raw, 0).Some?
  }

  /** The bytes of a user key have the layout of an expire-index entry. */
  predicate ReadsAsIndexEntry(raw: Bytes) {
    && |raw| >= 9 && raw[0] == KIND_EXPIRE_INDEX
    && var root := DecodeDataKey(raw[9..], 0);
       root.Some? && root.value.2 == []
  }

  /** The kinds of record that carry a length-prefixed key and a free suffix. */
  predicate Framed(kind: byte) {
    HasFamily(kind) && kind != KIND_STREAM_DELAY
  }

  lemma DecodedRecord(prefix: Bytes, raw: Bytes)
    requires ReadsAsRecord(raw)
    ensures var (kind, key, suffix) := DecodeDataKey(raw, 0).value;
            && Framed(kind) && Fits(key) && |key| + 5 <= |raw|
            && prefix + raw == ElemKey(prefix, kind, key, suffix)
  {
    hide BigEndian, FromBigEndian;
    assert raw[0..] == raw;
    var (kind, key, suffix) := DecodeDataKey(raw, 0).value;
    var len := raw[1..5];
    BigEndianOf(len);
    assert Power(4) == 0x1_0000_0000;
    assert raw == [kind] + len + key + suffix;
    assert prefix + raw == prefix + [kind] + len + key + suffix;
  }

  lemma DropPrefix(prefix: Bytes, a: Bytes, b: Bytes)
    requires prefix + a == prefix + b
    ensures a == b
  {
    assert (prefix + a)[|prefix|..] == a;
    assert (prefix + b)[|prefix|..] == b;
  }

  /** A bare string lies on a record of another key exactly when its own bytes have a record's layout. */
  lemma RawMeetsRecordIff(prefix: Bytes, raw: Bytes)
    ensures (exists kind, key, suffix ::
               Framed(kind) && Fits(key) && StringKey(prefix, raw) == ElemKey(prefix, kind, key, suffix))
            <==> ReadsAsRecord(raw)
  {
    hide BigEndian, DecodeDataKey;
    if kind, key, suffix :|
      Framed(kind) && Fits(key) && StringKey(prefix, raw) == ElemKey(prefix, kind, key, suffix)
    {
      var body := [kind] + BigEndian(|key|, 4) + key + suffix;
      assert ElemKey(prefix, kind, key, suffix) == prefix + body;
      DropPrefix(prefix, raw, body);
      assert ElemKey([], kind, key, suffix) == body;
      DecodeInverse([], kind, key, suffix);
    }
    if ReadsAsRecord(raw) {
      DecodedRecord(prefix, raw);
      var (kind, key, suffix) := DecodeDataKey(raw, 0).value;
      assert StringKey(prefix, raw) == ElemKey(prefix, kind, key, suffix);
    }
  }

  /** The same for expire-index entries. */
  lemma RawMeetsIndexIff(prefix: Bytes, raw: Bytes)
    ensures (exists expire, kind, key ::
               && 0 <= expire <= U64_MAX && Framed(kind) && Fits(key)
               && StringKey(prefix, raw) == ExpireIndexKey(prefix, expire, DataKey(prefix, kind, key)))
            <==> ReadsAsIndexEntry(raw)
  {
    hide BigEndian, FromBigEndian, DecodeDataKey;
    if expire, kind, key :|
      && 0 <= expire <= U64_MAX && Framed(kind) && Fits(key)
      && StringKey(prefix, raw) == ExpireIndexKey(prefix, expire, DataKey(prefix, kind, key))
    {
      IndexBody(prefix, expire, kind, key);
      DropPrefix(prefix, raw, [KIND_EXPIRE_INDEX] + BigEndian(expire, 8) + DataKey([], kind, key));
      assert raw[9..] == DataKey([], kind, key) == ElemKey([], kind, key, []);
      DecodeInverse([], kind, key, []);
    }
    if ReadsAsIndexEntry(raw) {
      var expire, kind, key := DecodedIndexEntry(prefix, raw);
    }
  }

  lemma DecodedIndexEntry(prefix: Bytes, raw: Bytes) returns (expire: nat, kind: byte, key: Bytes)
    requires ReadsAsIndexEntry(raw)
    ensures expire <= U64_MAX && Framed(kind) && Fits(key)
    ensures StringKey(prefix, raw) == ExpireIndexKey(prefix, expire, DataKey(prefix, kind, key))
  {
    hide BigEndian, FromBigEndian, DecodeDataKey;
    DecodedRecord([], raw[9..]);
    var root := DecodeDataKey(raw[9..], 0).value;
    expire, kind, key := FromBigEndian(raw[1..9]), root.0, root.1;
    assert [] + raw[9..] == raw[9..];
    assert DataKey([], kind, key) + [] == DataKey([], kind, key);
    BigEndianOf(raw[1..9]);
    EightBytesRange();
    IndexBody(prefix, expire, kind, key);
    assert raw == [KIND_EXPIRE_INDEX] + raw[1..9] + raw[9..];
  }

  lemma IndexBody(prefix: Bytes, expire: nat, kind: byte, key: Bytes)
    ensures ExpireIndexKey(prefix, expire, DataKey(prefix, kind, key)) ==
            prefix + ([KIND_EXPIRE_INDEX] + BigEndian(expire, 8) + DataKey([], kind, key))
  {
    hide BigEndian;
    assert DataKey(prefix, kind, key)[|prefix|..] == DataKey([], kind, key);
  }

  /** A raw string that classifies as raw is no typed record and no index entry. */
  lemma RawIsApart(prefix: Bytes, raw: Bytes, kind: byte, key: Bytes, suffix: Bytes, expire: nat)
    requires Classify(raw).Raw? && HasFamily(kind)
    ensures StringKey(prefix, raw) != ElemKey(prefix, kind, key, suffix)
    ensures StringKey(prefix, raw) != ExpireIndexKey(prefix, expire, DataKey(prefix, kind, key))
  {
    hide BigEndian;
    var p := StringKey(prefix, raw);
    assert raw != [] ==> p[|prefix|] == raw[0];
    assert ElemKey(prefix, kind, key, suffix)[|prefix|] == kind;
    assert ExpireIndexKey(prefix, expire, DataKey(prefix, kind, key))[|prefix|] == KIND_EXPIRE_INDEX;
  }

  const TAGGED_KEY: Bytes := [123, 116, 125]                       // {t}
  const DISGUISED_KEY: Bytes := [0x02, 0, 0, 0, 3, 123, 116, 125]  // header of a hash root, then {t}

  /** The two user keys hash to one slot. */
  lemma OneSlotExample()
    ensures HashSlot.SlotOf(DISGUISED_KEY) == HashSlot.SlotOf(TAGGED_KEY)
  {
    hide HashSlot.HashTag;
    HashSlot.TagBetweenBraces(TAGGED_KEY, [], [116], []);
    HashSlot.TagBetweenBraces(DISGUISED_KEY, DISGUISED_KEY[..5], [116], []);
  }

  /** There the one, as a bare string, lies on the other's hash root. */
  lemma RawCollisionExample(prefix: Bytes)
    ensures StringKey(prefix, DISGUISED_KEY) == DataKey(prefix, 0x02, TAGGED_KEY)
    ensures ReadsAsRecord(DISGUISED_KEY) && DISGUISED_KEY != TAGGED_KEY
  {
    hide BigEndian, DecodeDataKey;
    ThreeInFourBytes();
    assert DISGUISED_KEY == [0x02] + BigEndian(3, 4) + TAGGED_KEY;
    assert StringKey(prefix, DISGUISED_KEY) == ElemKey(prefix, 0x02, TAGGED_KEY, []);
    RawMeetsRecordIff(prefix, DISGUISED_KEY);
  }

  lemma ThreeInFourBytes()
    ensures BigEndian(3, 4) == [0, 0, 0, 3]
  {
    assert BigEndian(0, 0) == [];
    assert BigEndian(0, 1) == [0];
    assert BigEndian(0, 2) == [0, 0];
    assert BigEndian(0, 3) == [0, 0, 0];
  }

  /** The entry of an earlier deadline comes first, whatever their keys. */
  lemma ExpireIndexOrder(prefix: Bytes, expire: nat, root: Bytes, expire2: nat, root2: Bytes)
    requires expire < expire2 <= U64_MAX && prefix <= root && prefix <= root2
    ensures Below(ExpireIndexKey(prefix, expire, root), ExpireIndexKey(prefix, expire2, root2))
  {
    hide BigEndian, Below;
    EightBytesRange();
    var x, y := root[|prefix|..], root2[|prefix|..];
    BigEndianOrder(expire, expire2, 8, x, y);
    var front := prefix + [KIND_EXPIRE_INDEX];
    BelowAfter(front, BigEndian(expire, 8) + x, BigEndian(expire2, 8) + y);
    assert ExpireIndexKey(prefix, expire, root) == front + (BigEndian(expire, 8) + x);
    assert ExpireIndexKey(prefix, expire2, root2) == front + (BigEndian(expire2, 8) + y);
  }

  /** Index entries of different deadlines or roots never share a physical key. */
  lemma ExpireIndexInjective(prefix: Bytes, expire: nat, root: Bytes, expire2: nat, root2: Bytes)
    requires expire < 0x1_0000_0000_0000_0000 && expire2 < 0x1_0000_0000_0000_0000
    requires prefix <= root && prefix <= root2
    requires ExpireIndexKey(prefix, expire, root) == ExpireIndexKey(prefix, expire2, root2)
    ensures expire == expire2 && root == root2
  {
    hide BigEndian;
    var a, b := ExpireIndexKey(prefix, expire, root), ExpireIndexKey(prefix, expire2, root2);
    assert a[|prefix| + 1..|prefix| + 9] == BigEndian(expire, 8);
    assert b[|prefix| + 1..|prefix| + 9] == BigEndian(expire2, 8);
    EightBytes(expire);
    EightBytes(expire2);
    assert a[|prefix| + 9..] == root[|prefix|..] && b[|prefix| + 9..] == root2[|prefix|..];
    assert root == prefix + root[|prefix|..] && root2 == prefix + root2[|prefix|..];
  }

  lemma EightBytesRange()
    ensures Power(8) == 0x1_0000_0000_0000_0000
  {
    assert Power(4) == 0x1_0000_0000;
    assert Power(6) == 0x1_0000_0000_0000;
  }

  lemma EightBytes(n: nat)
    requires n < 0x1_0000_0000_0000_0000
    ensures FromBigEndian(BigEndian(n, 8)) == n
  {
    EightBytesRange();
    BigEndianRoundTrip(n, 8);
  }

  // The value envelope.

  /** LEB128: seven bits per byte, low bits first, high bit set on all but the last. */
  function Leb(v: nat): (r: Bytes)
    ensures r != []
  {
    if v >= 0x80 then [v % 0x80 + 0x80] + Leb(v / 0x80) else [v]
  }

  method EncodeEnvelope(expire: nat, payload: Bytes) returns (out: Bytes)
    ensures out == Leb(expire) + payload
  {
    out := [];
    var v := expire;
    while v >= 0x80
      invariant out + Leb(v) == Leb(expire)
    {
      out := out + [v % 0x80 + 0x80];
      v := v / 0x80;
    }
    out := out + [v];
    out := out + payload;
  }

  /** Value of the bytes read so far, plus the seven-bit groups from `i` on scaled by `unit`. */
  function Decoded(value: Bytes, i: nat, expire: nat, unit: nat): (nat, Bytes)
    requires i <= |value|
    decreases |value| - i
  {
    if i == |value| then (0, [])
    else if i >= 9 then (U64_MAX, if |value| < 10 then [] else value[10..])
    else
      var more := expire + (value[i] % 0x80) * unit;
      if value[i] < 0x80 then (more, value[i + 1..]) else Decoded(value, i + 1, more, unit * 0x80)
  }

  method DecodeEnvelope(value: Bytes) returns (expire: nat, payload: Bytes)
    ensures (expire, payload) == Decoded(value, 0, 0, 1)
  {
    expire := 0;
    var unit: nat, i: nat := 1, 0;
    while i < |value|
      invariant 0 <= i <= |value|
      invariant Decoded(value, 0, 0, 1) == Decoded(value, i, expire, unit)
    {
      if i >= 9 {
        return U64_MAX, if |value| < 10 then [] else value[10..];
      }
      expire := expire + (value[i] % 0x80) * unit;
      unit := unit * 0x80;
      if value[i] < 0x80 {
        return expire, value[i + 1..];
      }
      i := i + 1;
    }
    return 0, [];
  }

  function Unit(i: nat): nat {
    if i == 0 then 1 else 0x80 * Unit(i - 1)
  }

  /** Reading back an encoded deadline from group `i` on. */
  lemma {:induction false} DecodedLeb(head: Bytes, v: nat, payload: Bytes, expire: nat)
    requires |head| < 9
    ensures Decoded(head + Leb(v) + payload, |head|, expire, Unit(|head|)) ==
            if |head| + |Leb(v)| <= 9 then (expire + v * Unit(|head|), payload) else (U64_MAX, (head + Leb(v) + payload)[10..])
    decreases v
  {
    var s := head + Leb(v) + payload;
    var unit := Unit(|head|);
    if v < 0x80 {
      assert s[|head|] == v;
      assert s[|head| + 1..] == payload;
    } else {
      var b := v % 0x80 + 0x80;
      var more := expire + (v % 0x80) * unit;
      assert s[|head|] == b && b % 0x80 == v % 0x80;
      assert s == (head + [b]) + Leb(v / 0x80) + payload;
      assert Decoded(s, |head|, expire, unit) == Decoded(s, |head| + 1, more, Unit(|head| + 1));
      if |head| == 8 {
        assert |s| >= 10;
      } else {
        DecodedLeb(head + [b], v / 0x80, payload, more);
        Regroup(v, unit, expire);
      }
    }
  }

  lemma Regroup(v: nat, unit: nat, expire: nat)
    ensures expire + (v % 0x80) * unit + (v / 0x80) * (0x80 * unit) == expire + v * unit
  {
    assert v == (v / 0x80) * 0x80 + v % 0x80;
    assert (v / 0x80) * (0x80 * unit) == ((v / 0x80) * 0x80) * unit;
    assert ((v / 0x80) * 0x80) * unit + (v % 0x80) * unit == ((v / 0x80) * 0x80 + v % 0x80) * unit;
  }

  lemma {:induction false} LebLength(v: nat, n: nat)
    requires n > 0
    ensures |Leb(v)| <= n <==> v < Unit(n)
    decreases n
  {
    if v >= 0x80 {
      if n == 1 {
        assert Unit(1) == 0x80;
      } else {
        LebLength(v / 0x80, n - 1);
        assert v < 0x80 * Unit(n - 1) <==> v / 0x80 < Unit(n - 1);
      }
    } else {
      UnitGrows(n);
    }
  }

  lemma {:induction false} UnitGrows(n: nat)
    requires n > 0
    ensures Unit(n) >= 0x80
  {
    if n > 1 {
      UnitGrows(n - 1);
    }
  }

  /** A deadline survives its envelope exactly below 2^63, or at the largest value, which the decoder saturates to. */
  lemma EnvelopeRoundTrip(expire: nat, payload: Bytes)
    requires expire <= U64_MAX
    ensures Decoded(Leb(expire) + payload, 0, 0, 1) == (expire, payload)
            <==> expire < 0x8000_0000_0000_0000 || expire == U64_MAX
    ensures Decoded(Leb(expire) + payload, 0, 0, 1).1 == payload
  {
    assert [] + Leb(expire) + payload == Leb(expire) + payload;
    DecodedLeb([], expire, payload, 0);
    LebLength(expire, 9);
    LebLength(expire, 10);
    UnitValues();
    if expire >= 0x8000_0000_0000_0000 {
      assert |Leb(expire)| == 10;
      assert (Leb(expire) + payload)[10..] == payload;
    }
  }

  /** 300 is written 0xAC 0x02. */
  lemma EnvelopeExample()
    ensures Leb(300) == [0xAC, 2] && Leb(0) == [0]
  {
    assert Leb(2) == [2];
  }

  /** Any other deadline reads back as the largest value; `PX 9223372036854775807` asks for one. */
  lemma LateDeadlineSaturates(expire: nat, payload: Bytes)
    requires 0x8000_0000_0000_0000 <= expire <= U64_MAX
    ensures Decoded(Leb(expire) + payload, 0, 0, 1) == (U64_MAX, payload)
  {
    assert [] + Leb(expire) + payload == Leb(expire) + payload;
    DecodedLeb([], expire, payload, 0);
    LebLength(expire, 9);
    EnvelopeRoundTrip(expire, payload);
    UnitValues();
  }

  lemma UnitValues()
    ensures Unit(9) == 0x8000_0000_0000_0000 && Unit(10) > U64_MAX
  {
    assert Unit(1) == 0x80;
    assert Unit(2) == 0x4000;
    assert Unit(3) == 0x20_0000;
    assert Unit(4) == 0x1000_0000;
    assert Unit(5) == 0x8_0000_0000;
    assert Unit(6) == 0x400_0000_0000;
    assert Unit(7) == 0x2_0000_0000_0000;
    assert Unit(8) == 0x100_0000_0000_0000;
  }
}
