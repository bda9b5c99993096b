/** Which part of a user key decides its slot. */
module HashSlot {
  import opened Bytes
  import CrcWords

  const OPEN: byte := 123 // '{'
  const CLOSE: byte := 125 // '}'

  function HashTag(key: Bytes): Bytes {
    match IndexFrom(key, OPEN, 0)
    case None => key
    case Some(start) =>
      match IndexFrom(key, CLOSE, start + 1)
      case None => key
      case Some(end) => if end == start + 1 then key else key[start + 1..end]
  }

  /** `tag` stands between the first opening brace and the first closing one after it. */
  ghost predicate Tagged(key: Bytes, head: Bytes, tag: Bytes, tail: Bytes) {
    key == head + [OPEN] + tag + [CLOSE] + tail && OPEN !in head && CLOSE !in tag && tag != []
  }

  lemma TagBetweenBraces(key: Bytes, head: Bytes, tag: Bytes, tail: Bytes)
    requires Tagged(key, head, tag, tail)
    ensures HashTag(key) == tag && tag != key
  {
    var start, end := |head|, |head| + 1 + |tag|;
    forall i | 0 <= i < start ensures key[i] != OPEN {
      assert key[i] == head[i];
    }
    IndexIs(key, OPEN, 0, start);
    forall i | start + 1 <= i < end ensures key[i] != CLOSE {
      assert key[i] == tag[i - start - 1];
    }
    IndexIs(key, CLOSE, start + 1, end);
    assert key[start + 1..end] == tag;
  }

  /** The whole key is hashed exactly when it has no non-empty tag. */
  lemma WholeKeyIff(key: Bytes)
    ensures HashTag(key) == key <==> !exists head, tag, tail :: Tagged(key, head, tag, tail)
  {
    hide Tagged, HashTag;
    if head, tag, tail :| Tagged(key, head, tag, tail) {
      TagBetweenBraces(key, head, tag, tail);
    } else if HashTag(key) != key {
      var head, tag, tail := SplitTag(key);
    }
  }

  lemma SplitTag(key: Bytes) returns (head: Bytes, tag: Bytes, tail: Bytes)
    requires HashTag(key) != key
    ensures Tagged(key, head, tag, tail)
  {
    hide IndexFrom;
    var start := IndexFrom(key, OPEN, 0).value;
    var end := IndexFrom(key, CLOSE, start + 1).value;
    head, tag, tail := key[..start], key[start + 1..end], key[end + 1..];
    assert key[0..start] == head;
    SplitAround(key, start, end);
  }

  lemma SplitAround(key: Bytes, start: nat, end: nat)
    requires start < end < |key|
    ensures key == key[..start] + [key[start]] + key[start + 1..end] + [key[end]] + key[end + 1..]
  {
  }

  /** The slot of a user key: CRC-16 of its tag, in 16384 slots. */
  function SlotOf(key: Bytes): (slot: nat)
    ensures slot < 0x4000
  {
    CrcWords.Crc16(HashTag(key)) % 16384
  }

  /** The checksum of the tag differs from the slot by a multiple of 16384. */
  lemma SlotMeaning(key: Bytes) returns (k: nat)
    ensures CrcWords.Crc16(HashTag(key)) == k * 0x4000 + SlotOf(key)
  {
    hide CrcWords.Crc16, HashTag;
    k := CrcWords.Crc16(HashTag(key)) / 0x4000;
  }

  /** Keys with the same tag, braces and all around it aside, share a slot, and it is that of the bare tag. */
  lemma TagDecidesSlot(key: Bytes, head: Bytes, tag: Bytes, tail: Bytes)
    requires Tagged(key, head, tag, tail) && OPEN !in tag
    ensures SlotOf(key) == SlotOf(tag)
  {
    TagBetweenBraces(key, head, tag, tail);
  }
}
