/** SCAN: one page over the ordered records of a slot, and what a whole cursor walk returns. */
module Scan {
  import opened Bytes
  import opened Order
  import opened Decimal
  import Codec
  import Glob
  import KeyStore

  const SLASH: byte := 47 // '/'

  /** MATCH pattern and TYPE, the latter as the kinds it names (0 is a bare string). */
  datatype Filter = Filter(pattern: Option<Bytes>, kinds: Option<set<byte>>)

  function DigitsAt(k: Bytes, i: nat): (r: nat)
    requires i <= |k|
    ensures i <= r <= |k|
    decreases |k| - i
  {
    if i < |k| && 48 <= k[i] <= 57 then DigitsAt(k, i + 1) else i
  }

  /** Length of a leading decimal slot and its slash: one to five digits. */
  function SlotPrefixLen(k: Bytes): (r: Option<nat>)
    ensures r.Some? ==> 2 <= r.value <= |k|
  {
    var digits := DigitsAt(k, 0);
    if digits == 0 || digits > 5 || digits >= |k| || k[digits] != SLASH then None else Some(digits + 1)
  }

  /** The user key a record stands for, with its kind; internal records stand for none. */
  function UserEntryOf(physical: Bytes): Option<(Bytes, byte)> {
    var plen := SlotPrefixLen(physical);
    if plen.None? then None
    else
      var after := physical[plen.value..];
      match Codec.Classify(after)
      case Raw => Some((after, 0))
      case Typed(kind) =>
        if kind == Codec.KIND_EXPIRE_INDEX || kind !in KeyStore.META_KINDS then None
        else
          var d := Codec.DecodeDataKey(physical, plen.value);
          if d.None? then None else Some((d.value.1, kind))
  }

  predicate Passes(key: Bytes, kind: byte, f: Filter) {
    && (f.pattern.Some? ==> Glob.Matches(Glob.Tokens(f.pattern.value), key))
    && (f.kinds.Some? ==> kind in f.kinds.value)
  }

  /** The user key of a record that passes the filter. */
  function Wanted(k: Bytes, f: Filter): (r: Option<Bytes>)
    ensures r.Some? ==> k != []
  {
    var e := UserEntryOf(k);
    if e.None? || !Passes(e.value.0, e.value.1, f) then None else Some(e.value.0)
  }

  /** The prefix every physical key of a slot starts with. */
  function SlotPrefix(slot: nat): Bytes {
    Dec(slot) + [SLASH]
  }

  lemma {:induction false} DigitsEnd(k: Bytes, i: nat, end: nat)
    requires i <= end < |k| && k[end] == SLASH
    requires forall j :: i <= j < end ==> IsDigit(k[j])
    ensures DigitsAt(k, i) == end
    decreases end - i
  {
    if i < end {
      DigitsEnd(k, i + 1, end);
    }
  }

  lemma FewDigits(slot: nat)
    requires slot < 16384
    ensures |Dec(slot)| <= 5
  {
    assert |Dec(slot / 10000)| == 1;
    assert |Dec(slot / 1000)| <= 2;
    assert |Dec(slot / 100)| <= 3;
    assert |Dec(slot / 10)| <= 4;
  }

  lemma PrefixFound(slot: nat, rest: Bytes)
    requires slot < 16384
    ensures SlotPrefixLen(SlotPrefix(slot) + rest) == Some(|SlotPrefix(slot)|)
    ensures (SlotPrefix(slot) + rest)[|SlotPrefix(slot)|..] == rest
  {
    FewDigits(slot);
    hide Dec;
    var k := SlotPrefix(slot) + rest;
    var end := |Dec(slot)|;
    assert k[end] == SLASH;
    forall j | 0 <= j < end ensures IsDigit(k[j]) {
      assert k[j] == Dec(slot)[j];
    }
    DigitsEnd(k, 0, end);
  }

  /** A bare string stands for its user key exactly when it classifies as raw, a family's root always; no other record stands for one. */
  lemma RecordsRecognised(slot: nat, raw: Bytes, kind: byte, key: Bytes, suffix: Bytes, expire: nat)
    requires slot < 16384 && Codec.Fits(key) && 1 <= kind <= Codec.KIND_SEARCH_NUMVAL
    ensures UserEntryOf(Codec.StringKey(SlotPrefix(slot), raw)) == Some((raw, 0)) <==> Codec.Classify(raw).Raw?
    ensures UserEntryOf(Codec.ElemKey(SlotPrefix(slot), kind, key, suffix)) ==
            if kind in KeyStore.META_KINDS then Some((key, kind)) else None
    ensures UserEntryOf(Codec.ExpireIndexKey(SlotPrefix(slot), expire, Codec.DataKey(SlotPrefix(slot), kind, key))) == None
  {
    hide SlotPrefix, SlotPrefixLen, Codec.DecodeDataKey, Codec.BigEndian;
    var prefix := SlotPrefix(slot);
    PrefixFound(slot, raw);
    var tail := [kind] + Codec.BigEndian(|key|, 4) + key + suffix;
    assert Codec.ElemKey(prefix, kind, key, suffix) == prefix + tail;
    PrefixFound(slot, tail);
    Codec.DecodeInverse(prefix, kind, key, suffix);
    var root := Codec.DataKey(prefix, kind, key);
    var entry := [Codec.KIND_EXPIRE_INDEX] + Codec.BigEndian(expire, 8) + root[|prefix|..];
    assert Codec.ExpireIndexKey(prefix, expire, root) == prefix + entry;
    PrefixFound(slot, entry);
  }

  /** Strictly ascending keys: what an ordered store iterates over. */
  ghost predicate Ascending(recs: seq<Bytes>) {
    forall i, j :: 0 <= i < j < |recs| ==> Below(recs[i], recs[j])
  }

  /** `k` comes after the cursor; a cursor from before the slot is clamped to its start. */
  predicate Follows(k: Bytes, prefix: Bytes, from: Bytes) {
    if Below(from, prefix) then !Below(k, prefix) else Below(from, k)
  }

  predicate Keep(k: Bytes, prefix: Bytes, from: Bytes, f: Filter) {
    prefix <= k && Follows(k, prefix, from) && Wanted(k, f).Some?
  }

  /** Every wanted record of the slot after the cursor, in order. */
  ghost function Selected(recs: seq<Bytes>, prefix: Bytes, from: Bytes, f: Filter): seq<Bytes> {
    if recs == [] then []
    else (if Keep(recs[0], prefix, from, f) then [recs[0]] else []) + Selected(recs[1..], prefix, from, f)
  }

  lemma {:induction false} SelectedConcat(a: seq<Bytes>, b: seq<Bytes>, prefix: Bytes, from: Bytes, f: Filter)
    ensures Selected(a + b, prefix, from, f) == Selected(a, prefix, from, f) + Selected(b, prefix, from, f)
    decreases |a|
  {
    hide Keep;
    if a == [] {
      assert a + b == b;
    } else {
      assert (a + b)[1..] == a[1..] + b;
      SelectedConcat(a[1..], b, prefix, from, f);
    }
  }

  lemma SelectedPush(a: seq<Bytes>, k: Bytes, prefix: Bytes, from: Bytes, f: Filter)
    ensures Selected(a + [k], prefix, from, f) ==
            Selected(a, prefix, from, f) + if Keep(k, prefix, from, f) then [k] else []
  {
    hide Keep;
    SelectedConcat(a, [k], prefix, from, f);
    assert [k][1..] == [];
  }

  lemma {:induction false} SelectedIff(recs: seq<Bytes>, prefix: Bytes, from: Bytes, f: Filter, k: Bytes)
    ensures k in Selected(recs, prefix, from, f) <==> k in recs && Keep(k, prefix, from, f)
    decreases |recs|
  {
    hide Keep;
    if recs != [] {
      SelectedIff(recs[1..], prefix, from, f, k);
      assert recs == [recs[0]] + recs[1..];
    }
  }

  lemma {:induction false} SelectedNone(recs: seq<Bytes>, prefix: Bytes, from: Bytes, f: Filter)
    requires forall k <- recs :: !Keep(k, prefix, from, f)
    ensures Selected(recs, prefix, from, f) == []
    decreases |recs|
  {
    hide Keep;
    if recs != [] {
      SelectedNone(recs[1..], prefix, from, f);
    }
  }

  lemma {:induction false} SelectedAscending(recs: seq<Bytes>, prefix: Bytes, from: Bytes, f: Filter)
    requires Ascending(recs)
    ensures Ascending(Selected(recs, prefix, from, f))
    decreases |recs|
  {
    hide Keep;
    if recs != [] {
      SelectedAscending(recs[1..], prefix, from, f);
      var rest := Selected(recs[1..], prefix, from, f);
      forall j | 0 <= j < |rest| ensures Below(recs[0], rest[j]) {
        SelectedIff(recs[1..], prefix, from, f, rest[j]);
        var i :| 0 <= i < |recs[1..]| && recs[1..][i] == rest[j];
        assert recs[i + 1] == rest[j];
      }
    }
  }

  /** Only records after the old cursor's follow a cursor that itself follows it. */
  lemma FollowsMeets(k: Bytes, prefix: Bytes, from: Bytes, c: Bytes)
    requires prefix <= c && Follows(c, prefix, from)
    ensures Below(c, k) ==> Follows(k, prefix, from) && Follows(k, prefix, c)
    ensures !Below(c, k) ==> !Follows(k, prefix, c)
  {
    PrefixAtMost(prefix, c);
    if Below(c, prefix) {
      BelowIrreflexive(c);
      if c != prefix {
        BelowTransitive(c, prefix, c);
      }
    }
    if Below(c, k) {
      if Below(from, prefix) {
        if Below(k, prefix) {
          BelowTransitive(c, k, prefix);
          PrefixAtMost(prefix, c);
          BelowIrreflexive(prefix);
          if prefix != c {
            BelowTransitive(prefix, c, prefix);
          }
        }
      } else {
        BelowTransitive(from, c, k);
      }
    }
  }

  /** Resuming at the n-th selected record selects exactly the ones after it. */
  lemma {:induction false} SelectedAfter(recs: seq<Bytes>, prefix: Bytes, from: Bytes, f: Filter, n: nat)
    requires Ascending(recs) && 0 < n <= |Selected(recs, prefix, from, f)|
    ensures var sel := Selected(recs, prefix, from, f);
            Selected(recs, prefix, sel[n - 1], f) == sel[n..]
    decreases |recs|
  {
    hide Wanted;
    var sel := Selected(recs, prefix, from, f);
    var c := sel[n - 1];
    var rest := Selected(recs[1..], prefix, from, f);
    assert c in sel;
    SelectedIff(recs, prefix, from, f, c);
    FollowsMeets(recs[0], prefix, from, c);
    HeadIsLeast(recs, c);
    if Keep(recs[0], prefix, from, f) {
      if n == 1 {
        SameSelection(recs[1..], prefix, from, f, c);
        assert sel[1..] == rest;
      } else {
        assert rest[n - 2] == c;
        SelectedAfter(recs[1..], prefix, from, f, n - 1);
        assert sel[n..] == rest[n - 1..];
      }
    } else {
      SelectedAfter(recs[1..], prefix, from, f, n);
    }
  }

  lemma HeadIsLeast(recs: seq<Bytes>, c: Bytes)
    requires Ascending(recs) && c in recs
    ensures !Below(c, recs[0])
    ensures forall k <- recs[1..] :: c == recs[0] ==> Below(c, k)
  {
    var i :| 0 <= i < |recs| && recs[i] == c;
    BelowIrreflexive(c);
    if i > 0 && Below(c, recs[0]) {
      BelowTransitive(c, recs[0], c);
    }
  }

  lemma {:induction false} SameSelection(recs: seq<Bytes>, prefix: Bytes, from: Bytes, f: Filter, c: Bytes)
    requires prefix <= c && Follows(c, prefix, from)
    requires forall k <- recs :: Below(c, k)
    ensures Selected(recs, prefix, c, f) == Selected(recs, prefix, from, f)
    decreases |recs|
  {
    hide Wanted, Follows;
    if recs != [] {
      FollowsMeets(recs[0], prefix, from, c);
      SameSelection(recs[1..], prefix, from, f, c);
    }
  }

  /** Past the slot's last record nothing starts with its prefix again. */
  lemma PrefixRunEnds(prefix: Bytes, a: Bytes, b: Bytes)
    requires !Below(a, prefix) && !(prefix <= a) && Below(a, b)
    ensures !(prefix <= b)
  {
    RangeIsPrefix(prefix, a);
    RangeIsPrefix(prefix, b);
    var high := UpperBound(prefix);
    if high.Some? && Below(b, high.value) {
      BelowTransitive(a, b, high.value);
    }
  }

  // One page.

  function Limit(count: nat): nat {
    if count == 0 then 1 else count
  }

  ghost function PageHits(recs: seq<Bytes>, prefix: Bytes, from: Bytes, f: Filter, count: nat): seq<Bytes> {
    var sel := Selected(recs, prefix, from, f);
    if |sel| <= Limit(count) then sel else sel[..Limit(count)]
  }

  /** The cursor a page ends with; empty when the iteration is over. */
  ghost function NextCursor(hits: seq<Bytes>, count: nat): Bytes {
    if |hits| < Limit(count) then [] else hits[|hits| - 1]
  }

  /** The user keys of the hits, in order. */
  ghost predicate KeysOf(keys: seq<Bytes>, hits: seq<Bytes>, f: Filter) {
    |keys| == |hits| && forall i :: 0 <= i < |hits| ==> Wanted(hits[i], f) == Some(keys[i])
  }

  /** Does the record pass the filter? The pattern is decided by the iterative matcher. */
  method Decide(k: Bytes, f: Filter) returns (user: Option<Bytes>)
    ensures user == Wanted(k, f)
  {
    hide Glob.Matches, Glob.Tokens, UserEntryOf;
    var e := UserEntryOf(k);
    if e.None? {
      return None;
    }
    if f.pattern.Some? {
      var ok, _ := Glob.GlobMatch(f.pattern.value, e.value.0);
      if !ok {
        return None;
      }
    }
    if f.kinds.Some? && e.value.1 !in f.kinds.value {
      return None;
    }
    return Some(e.value.0);
  }

  /** First record at or after `start`, or strictly after it. */
  method Seek(recs: seq<Bytes>, prefix: Bytes, from: Bytes) returns (i: nat)
    requires Ascending(recs)
    ensures i <= |recs|
    ensures forall j :: 0 <= j < i ==> !Follows(recs[j], prefix, from)
    ensures forall j :: i <= j < |recs| ==> Follows(recs[j], prefix, from) && !Below(recs[j], prefix)
  {
    i := 0;
    while i < |recs| && !Follows(recs[i], prefix, from)
      invariant i <= |recs|
      invariant forall j :: 0 <= j < i ==> !Follows(recs[j], prefix, from)
    {
      i := i + 1;
    }
    forall j | i <= j < |recs| ensures Follows(recs[j], prefix, from) && !Below(recs[j], prefix) {
      assert j == i || Below(recs[i], recs[j]);
      FollowsUp(prefix, from, recs[i], recs[j]);
    }
  }

  lemma FollowsUp(prefix: Bytes, from: Bytes, a: Bytes, b: Bytes)
    requires Follows(a, prefix, from) && (a == b || Below(a, b))
    ensures Follows(b, prefix, from) && !Below(b, prefix)
  {
    BelowTotal(a, prefix);
    BelowTotal(from, prefix);
    BelowIrreflexive(prefix);
    if Below(from, prefix) {
      if a != b && Below(b, prefix) {
        BelowTransitive(a, b, prefix);
      }
    } else {
      if a != b {
        BelowTransitive(from, a, b);
      }
      if Below(b, prefix) {
        BelowTransitive(from, b, prefix);
      }
    }
  }

  method CollectUserKeys(recs: seq<Bytes>, prefix: Bytes, from: Bytes, f: Filter, count: nat)
    returns (keys: seq<Bytes>, next: Bytes)
    requires Ascending(recs)
    ensures next == NextCursor(PageHits(recs, prefix, from, f, count), count)
    ensures KeysOf(keys, PageHits(recs, prefix, from, f, count), f)
  {
    hide Follows, Wanted, Selected;
    var i := Seek(recs, prefix, from);
    keys := [];
    ghost var hits: seq<Bytes> := [];
    SkippedNone(recs, i, prefix, from, f);
    while i < |recs|
      invariant i <= |recs|
      invariant hits == Selected(recs[..i], prefix, from, f) && |hits| < Limit(count)
      invariant KeysOf(keys, hits, f)
      invariant forall j :: i <= j < |recs| ==> Follows(recs[j], prefix, from) && !Below(recs[j], prefix)
    {
      var k := recs[i];
      assert recs[..i + 1] == recs[..i] + [k];
      SelectedPush(recs[..i], k, prefix, from, f);
      if !(prefix <= k) {
        LeftSlot(recs, i, prefix, from, f);
        return keys, [];
      }
      var user := Decide(k, f);
      if user.Some? {
        keys, hits := keys + [user.value], hits + [k];
        if |keys| >= count {
          SplitAt(recs, i + 1, prefix, from, f);
          return keys, k;
        }
      }
      i := i + 1;
    }
    assert recs[..i] == recs;
    next := [];
  }

  lemma SkippedNone(recs: seq<Bytes>, i: nat, prefix: Bytes, from: Bytes, f: Filter)
    requires i <= |recs| && forall j :: 0 <= j < i ==> !Follows(recs[j], prefix, from)
    ensures Selected(recs[..i], prefix, from, f) == []
  {
    hide Follows, Wanted;
    SelectedNone(recs[..i], prefix, from, f);
  }

  lemma SplitAt(recs: seq<Bytes>, i: nat, prefix: Bytes, from: Bytes, f: Filter)
    requires i <= |recs|
    ensures Selected(recs[..i], prefix, from, f) <= Selected(recs, prefix, from, f)
  {
    SelectedConcat(recs[..i], recs[i..], prefix, from, f);
    assert recs == recs[..i] + recs[i..];
  }

  lemma LeftSlot(recs: seq<Bytes>, i: nat, prefix: Bytes, from: Bytes, f: Filter)
    requires Ascending(recs) && i < |recs| && !(prefix <= recs[i]) && !Below(recs[i], prefix)
    ensures Selected(recs, prefix, from, f) == Selected(recs[..i], prefix, from, f)
  {
    hide Follows, Wanted;
    forall k | k in recs[i..] ensures !Keep(k, prefix, from, f) {
      var j :| 0 <= j < |recs[i..]| && recs[i..][j] == k;
      if j > 0 {
        assert Below(recs[i], recs[i + j]);
        PrefixRunEnds(prefix, recs[i], k);
      }
    }
    SelectedNone(recs[i..], prefix, from, f);
    SelectedConcat(recs[..i], recs[i..], prefix, from, f);
    assert recs == recs[..i] + recs[i..];
  }

  // A whole walk, one store per page: others may insert and delete records in between.

  datatype Page = Page(recs: seq<Bytes>, count: nat)

  /** The walk ends exactly at the last page. */
  ghost predicate FullWalk(pages: seq<Page>, prefix: Bytes, from: Bytes, f: Filter)
    decreases |pages|
  {
    && pages != [] && Ascending(pages[0].recs)
    && var next := NextCursor(PageHits(pages[0].recs, prefix, from, f, pages[0].count), pages[0].count);
       if next == [] then |pages| == 1 else FullWalk(pages[1..], prefix, next, f)
  }

  /** How often the pages return record `r`. */
  ghost function Times(r: Bytes, pages: seq<Page>, prefix: Bytes, from: Bytes, f: Filter): nat
    decreases |pages|
  {
    if pages == [] then 0
    else
      var hits := PageHits(pages[0].recs, prefix, from, f, pages[0].count);
      multiset(hits)[r] + Times(r, pages[1..], prefix, NextCursor(hits, pages[0].count), f)
  }

  /** A page holds `r` once when it is within reach, and its cursor passes `r` exactly when it does. */
  lemma PageOf(p: Page, prefix: Bytes, from: Bytes, f: Filter, r: Bytes)
    requires Ascending(p.recs) && prefix <= r && Wanted(r, f).Some?
    requires Follows(r, prefix, from) ==> r in p.recs
    ensures var hits := PageHits(p.recs, prefix, from, f, p.count);
            var next := NextCursor(hits, p.count);
            && multiset(hits)[r] <= 1
            && (!Follows(r, prefix, from) ==> multiset(hits)[r] == 0)
            && (Follows(r, prefix, from) && next == [] ==> multiset(hits)[r] == 1)
            && (next != [] ==>
                  (Follows(r, prefix, next) <==> Follows(r, prefix, from) && multiset(hits)[r] == 0))
  {
    hide Wanted;
    var sel := Selected(p.recs, prefix, from, f);
    var hits := PageHits(p.recs, prefix, from, f, p.count);
    SelectedAscending(p.recs, prefix, from, f);
    SelectedIff(p.recs, prefix, from, f, r);
    PrefixOnce(sel, |hits|, r);
    assert sel[..|hits|] == hits;
    if |hits| >= Limit(p.count) {
      var next := hits[|hits| - 1];
      assert next == sel[|hits| - 1];
      SelectedIff(p.recs, prefix, from, f, next);
      NonEmptyKey(next, f);
      FollowsMeets(r, prefix, from, next);
      if Follows(r, prefix, from) {
        SplitBy(sel, |hits|, r);
      } else if Below(next, r) {
        assert false;
      }
    }
  }

  lemma NonEmptyKey(k: Bytes, f: Filter)
    requires Wanted(k, f).Some?
    ensures k != []
  {
  }

  /** An ascending sequence holds nothing twice. */
  lemma {:induction false} PrefixOnce(sel: seq<Bytes>, n: nat, r: Bytes)
    requires Ascending(sel) && n <= |sel|
    ensures multiset(sel[..n])[r] <= 1
    ensures multiset(sel[..n])[r] == 1 <==> r in sel[..n]
    decreases n
  {
    if n > 0 {
      PrefixOnce(sel, n - 1, r);
      assert sel[..n] == sel[..n - 1] + [sel[n - 1]];
      if r == sel[n - 1] && r in sel[..n - 1] {
        var i :| 0 <= i < n - 1 && sel[i] == r;
        BelowIrreflexive(r);
        assert false;
      }
    }
  }

  /** A member beyond the first n is above the n-th, one among them is not. */
  lemma SplitBy(sel: seq<Bytes>, n: nat, r: Bytes)
    requires Ascending(sel) && 0 < n <= |sel| && r in sel
    ensures r in sel[..n] <==> !Below(sel[n - 1], r)
  {
    var i :| 0 <= i < |sel| && sel[i] == r;
    BelowIrreflexive(r);
    if i < n {
      assert sel[..n][i] == r;
      if i < n - 1 && Below(sel[n - 1], r) {
        BelowTransitive(r, sel[n - 1], r);
      }
    } else {
      assert Below(sel[n - 1], r);
      assert forall j :: 0 <= j < n ==> Below(sel[j], sel[i]);
    }
  }

  /**
   * A wanted record that stays in place is returned exactly once if it comes after the starting
   * cursor and never otherwise, whatever else is inserted or deleted between pages.
   */
  lemma {:induction false} ReturnedOnce(pages: seq<Page>, prefix: Bytes, from: Bytes, f: Filter, r: Bytes)
    requires FullWalk(pages, prefix, from, f)
    requires prefix <= r && Wanted(r, f).Some?
    requires forall p <- pages :: r in p.recs
    ensures Times(r, pages, prefix, from, f) == if Follows(r, prefix, from) then 1 else 0
    decreases |pages|
  {
    hide Wanted, Follows, PageHits, NextCursor;
    var p := pages[0];
    PageOf(p, prefix, from, f, r);
    var next := NextCursor(PageHits(p.recs, prefix, from, f, p.count), p.count);
    if next == [] {
      assert pages[1..] == [];
    } else {
      ReturnedOnce(pages[1..], prefix, next, f, r);
    }
  }

  /** SCAN from "0" starts at the slot's prefix: exactly the record equal to the prefix is out of reach. */
  lemma FullScan(pages: seq<Page>, prefix: Bytes, f: Filter, r: Bytes)
    requires FullWalk(pages, prefix, prefix, f)
    requires prefix <= r && Wanted(r, f).Some?
    requires forall p <- pages :: r in p.recs
    ensures Times(r, pages, prefix, prefix, f) == 1 <==> r != prefix
  {
    ReturnedOnce(pages, prefix, prefix, f, r);
    BelowIrreflexive(prefix);
    PrefixAtMost(prefix, r);
  }

  /** A record names `key` and a whole walk returns it once. */
  ghost predicate FoundOnce(r: Bytes, key: Bytes, pages: seq<Page>, prefix: Bytes, f: Filter) {
    Wanted(r, f) == Some(key) && Times(r, pages, prefix, prefix, f) == 1
  }

  /** A walk over the whole store or over the slot. */
  ghost predicate SlotWalk(pages: seq<Page>, prefix: Bytes, slot: nat, f: Filter) {
    slot < 16384 && (prefix == [] || prefix == SlotPrefix(slot)) && FullWalk(pages, prefix, prefix, f)
  }

  /**
   * Of the strings that stay in place, exactly those are found that pass the filter, that
   * classify as raw, and that are not the empty key of a walk confined to its slot.
   */
  lemma StringFoundIff(pages: seq<Page>, prefix: Bytes, slot: nat, f: Filter, raw: Bytes)
    requires SlotWalk(pages, prefix, slot, f)
    requires forall p <- pages :: Codec.StringKey(SlotPrefix(slot), raw) in p.recs
    ensures FoundOnce(Codec.StringKey(SlotPrefix(slot), raw), raw, pages, prefix, f)
            <==> && Codec.Classify(raw).Raw? && (prefix == [] || raw != [])
                 && (f.pattern.Some? ==> Glob.Matches(Glob.Tokens(f.pattern.value), raw))
                 && (f.kinds.Some? ==> 0 in f.kinds.value)
  {
    hide SlotPrefix, FullWalk, Times, Codec.Classify, Glob.Matches, Glob.Tokens, UserEntryOf;
    var r := Codec.StringKey(SlotPrefix(slot), raw);
    StringEntry(slot, raw);
    if Wanted(r, f) == Some(raw) {
      FullScan(pages, prefix, f, r);
      PrefixEnds(slot);
      assert prefix == SlotPrefix(slot) ==> (r == prefix <==> raw == []);
    }
  }

  /** Every collection that stays in place and passes the filter is found. */
  lemma CollectionFoundIff(pages: seq<Page>, prefix: Bytes, slot: nat, f: Filter, kind: byte, key: Bytes)
    requires SlotWalk(pages, prefix, slot, f) && Codec.Fits(key) && kind in KeyStore.META_KINDS
    requires forall p <- pages :: Codec.DataKey(SlotPrefix(slot), kind, key) in p.recs
    ensures FoundOnce(Codec.DataKey(SlotPrefix(slot), kind, key), key, pages, prefix, f)
            <==> && (f.pattern.Some? ==> Glob.Matches(Glob.Tokens(f.pattern.value), key))
                 && (f.kinds.Some? ==> kind in f.kinds.value)
  {
    hide SlotPrefix, FullWalk, Times, Glob.Matches, Glob.Tokens, UserEntryOf, Codec.BigEndian;
    var r := Codec.DataKey(SlotPrefix(slot), kind, key);
    assert r == Codec.ElemKey(SlotPrefix(slot), kind, key, []);
    RecordsRecognised(slot, [], kind, key, [], 0);
    if Wanted(r, f) == Some(key) {
      FullScan(pages, prefix, f, r);
      PrefixEnds(slot);
      assert |r| > |prefix|;
    }
  }

  lemma PrefixEnds(slot: nat)
    ensures SlotPrefix(slot) != []
  {
  }

  /** What a stored string's record is read as names the string exactly when it classifies as raw. */
  lemma StringEntry(slot: nat, raw: Bytes)
    requires slot < 16384
    ensures var e := UserEntryOf(Codec.StringKey(SlotPrefix(slot), raw));
            && (Codec.Classify(raw).Raw? ==> e == Some((raw, 0)))
            && (e.Some? && e.value.0 == raw ==> Codec.Classify(raw).Raw?)
  {
    hide SlotPrefix, SlotPrefixLen, Codec.FromBigEndian;
    PrefixFound(slot, raw);
  }

  /** A string whose key starts with a space is never found: the byte is a record kind. */
  lemma SpaceExample(slot: nat, f: Filter)
    requires slot < 16384
    ensures Wanted(Codec.StringKey(SlotPrefix(slot), [0x20, 102]), f) == None
  {
    hide SlotPrefix, SlotPrefixLen, Codec.DecodeDataKey, Passes;
    PrefixFound(slot, [0x20, 102]);
  }

  /** The empty key, alone in its slot, is out of a slot walk's reach though it is wanted. */
  lemma EmptyKeyExample(slot: nat)
    requires slot < 16384
    ensures var prefix, any := SlotPrefix(slot), Filter(None, None);
            var pages := [Page([prefix], 10)];
            && FullWalk(pages, prefix, prefix, any) && Wanted(prefix, any) == Some([])
            && Times(prefix, pages, prefix, prefix, any) == 0
  {
    hide SlotPrefix, UserEntryOf;
    var prefix, any := SlotPrefix(slot), Filter(None, None);
    var page := Page([prefix], 10);
    StringEntry(slot, []);
    assert prefix + [] == prefix;
    BelowIrreflexive(prefix);
    SelectedNone([prefix], prefix, prefix, any);
    assert PageHits(page.recs, prefix, prefix, any, 10) == [];
    FullScan([page], prefix, any, prefix);
  }

  /** On an unchanged store the walk ends, having returned every wanted record in order. */
  method WalkUnchanged(recs: seq<Bytes>, prefix: Bytes, from: Bytes, f: Filter, count: nat)
    returns (keys: seq<Bytes>)
    requires Ascending(recs)
    ensures KeysOf(keys, Selected(recs, prefix, from, f), f)
  {
    hide Follows, Wanted, Selected;
    keys := [];
    ghost var visited: seq<Bytes> := [];
    var cursor, done := from, false;
    while !done
      invariant if done then visited == Selected(recs, prefix, from, f)
                else visited + Selected(recs, prefix, cursor, f) == Selected(recs, prefix, from, f)
      invariant KeysOf(keys, visited, f)
      decreases !done, |Selected(recs, prefix, cursor, f)|
    {
      ghost var sel := Selected(recs, prefix, cursor, f);
      var more, next := CollectUserKeys(recs, prefix, cursor, f, count);
      ghost var hits := PageHits(recs, prefix, cursor, f, count);
      assert hits + sel[|hits|..] == sel;
      assert visited + hits + sel[|hits|..] == visited + sel;
      if next != [] {
        SelectedAfter(recs, prefix, cursor, f, |hits|);
      } else {
        LastPage(sel, hits, count, f, more);
      }
      keys, visited := keys + more, visited + hits;
      cursor, done := next, next == [];
    }
  }

  lemma LastPage(sel: seq<Bytes>, hits: seq<Bytes>, count: nat, f: Filter, keys: seq<Bytes>)
    requires hits == if |sel| <= Limit(count) then sel else sel[..Limit(count)]
    requires KeysOf(keys, hits, f) && NextCursor(hits, count) == []
    ensures hits == sel
  {
    hide Wanted;
    if |hits| >= Limit(count) {
      NonEmptyKey(hits[|hits| - 1], f);
    }
  }
}
