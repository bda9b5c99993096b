/** The replicated slot-owner map as text: how the leader writes it and how every node reads it back. */
module OwnerMap {
  import opened Bytes
  import opened Decimal
  import opened SlotMigration

  const SLOT_NUMBER: nat := 16384

  const QUOTE: byte := 34      // '"'
  const COLON: byte := 58      // ':'
  const COMMA: byte := 44      // ','
  const OPEN: byte := 123      // '{'
  const CLOSE: byte := 125     // '}'
  const BACKSLASH: byte := 92  // '\'

  /** SETSLOT accepts any 16-bit slot number. */
  type Slot16 = n: nat | n <= 0xFFFF

  type Owners = map<Slot16, Addr>

  /** The overrides from `lo` on, in slot order. */
  function Entries(owners: Owners, lo: nat): (es: seq<(Slot16, Addr)>)
    requires lo <= 0x1_0000
    decreases 0x1_0000 - lo
  {
    if lo == 0x1_0000 then []
    else (if lo in owners then [(lo, owners[lo])] else []) + Entries(owners, lo + 1)
  }

  /** Each override is written once, lowest slot first. */
  lemma {:induction false} EntriesAscend(owners: Owners, lo: nat)
    requires lo <= 0x1_0000
    ensures var es := Entries(owners, lo);
            && (forall e <- es :: lo <= e.0 && e.0 in owners && owners[e.0] == e.1)
            && (forall i, j :: 0 <= i < j < |es| ==> es[i].0 < es[j].0)
            && (forall slot: Slot16 :: slot in owners && lo <= slot ==> (slot, owners[slot]) in es)
    decreases 0x1_0000 - lo
  {
    if lo < 0x1_0000 {
      EntriesAscend(owners, lo + 1);
      var rest := Entries(owners, lo + 1);
      var es := Entries(owners, lo);
      assert es == (if lo in owners then [(lo, owners[lo])] else []) + rest;
      assert forall j :: 0 <= j < |rest| ==> rest[j] in rest;
      forall slot: Slot16 | slot in owners && lo <= slot ensures (slot, owners[slot]) in es {
        if slot == lo {
          assert es[0] == (slot, owners[slot]);
        } else {
          assert (slot, owners[slot]) in rest;
        }
      }
    }
  }

  function Quoted(text: Bytes): Bytes {
    [QUOTE] + text + [QUOTE]
  }

  function Member(e: (Slot16, Addr)): Bytes {
    Quoted(Dec(e.0)) + [COLON] + Quoted(e.1.text)
  }

  function Members(es: seq<(Slot16, Addr)>): (text: Bytes)
    requires es != []
    ensures |text| > 0 && text[0] == QUOTE
  {
    if |es| == 1 then Member(es[0]) else Member(es[0]) + [COMMA] + Members(es[1..])
  }

  /** `{"<slot>":"<addr>",...}`, sorted by slot; the address is not escaped. */
  function OwnerMapJson(owners: Owners): Bytes {
    var es := Entries(owners, 0);
    [OPEN] + (if es == [] then [] else Members(es)) + [CLOSE]
  }

  /** Bytes that may stand for themselves inside a JSON string. */
  predicate Plain(text: Bytes) {
    forall i :: 0 <= i < |text| ==> text[i] != QUOTE && text[i] != BACKSLASH && text[i] >= 32
  }

  /** A quoted string at the front of `s`, and what follows it. */
  function ParseString(s: Bytes): (r: Option<(Bytes, Bytes)>)
    ensures r.Some? ==> |r.value.1| < |s|
  {
    if s == [] || s[0] != QUOTE then None
    else
      var end := IndexFrom(s, QUOTE, 1);
      if end.None? || !Plain(s[1..end.value]) then None
      else Some((s[1..end.value], s[end.value + 1..]))
  }

  /** Pairs up to the closing brace, in text order. */
  function ParseMembers(s: Bytes): (r: Option<seq<(Bytes, Bytes)>>)
    decreases |s|
  {
    var name := ParseString(s);
    if name.None? || name.value.1 == [] || name.value.1[0] != COLON then None
    else
      var text := ParseString(name.value.1[1..]);
      if text.None? then None
      else
        var pair := (name.value.0, text.value.0);
        var rest := text.value.1;
        if rest == [CLOSE] then Some([pair])
        else if rest == [] || rest[0] != COMMA then None
        else
          var more := ParseMembers(rest[1..]);
          if more.None? then None else Some([pair] + more.value)
  }

  function ParseObject(s: Bytes): Option<seq<(Bytes, Bytes)>> {
    if s == [OPEN, CLOSE] then Some([])
    else if s == [] || s[0] != OPEN then None
    else ParseMembers(s[1..])
  }

  /** Pairs whose name is a slot below 16384 and whose address is not empty; the rest are skipped. */
  function Collect(pairs: seq<(Bytes, Bytes)>, into: Owners): Owners
    decreases |pairs|
  {
    if pairs == [] then into
    else
      var slot := ParseU16(pairs[0].0);
      Collect(pairs[1..],
        if slot.Some? && slot.value < SLOT_NUMBER && pairs[0].1 != []
        then into[slot.value := Addr(pairs[0].1)] else into)
  }

  /** The whole read: malformed text means no override at all. */
  function ParseOwnerMap(s: Bytes): Owners {
    var pairs := ParseObject(s);
    if pairs.None? then map[] else Collect(pairs.value, map[])
  }

  // Reading back what was written.

  lemma ParseQuoted(text: Bytes, rest: Bytes)
    requires Plain(text)
    ensures ParseString(Quoted(text) + rest) == Some((text, rest))
  {
    var s := Quoted(text) + rest;
    var at := |text| + 1;
    assert s[1..at] == text && s[at] == QUOTE && s[at + 1..] == rest;
    assert forall i :: 1 <= i < at ==> s[i] == text[i - 1];
    IndexIs(s, QUOTE, 1, at);
  }

  function PairOf(e: (Slot16, Addr)): (Bytes, Bytes) {
    (Dec(e.0), e.1.text)
  }

  function PairsOf(es: seq<(Slot16, Addr)>): seq<(Bytes, Bytes)> {
    if es == [] then [] else [PairOf(es[0])] + PairsOf(es[1..])
  }

  lemma DigitsArePlain(n: nat)
    ensures Plain(Dec(n))
  {
    hide Dec;
    forall i | 0 <= i < |Dec(n)| ensures IsDigit(Dec(n)[i]) {}
  }

  lemma ParseOneMember(e: (Slot16, Addr), rest: Bytes)
    requires Plain(e.1.text)
    ensures ParseString(Member(e) + rest) == Some((Dec(e.0), [COLON] + Quoted(e.1.text) + rest))
    ensures ([COLON] + Quoted(e.1.text) + rest)[1..] == Quoted(e.1.text) + rest
    ensures ParseString(Quoted(e.1.text) + rest) == Some((e.1.text, rest))
  {
    hide Quoted, ParseString, Dec, Plain;
    DigitsArePlain(e.0);
    var name, text := Quoted(Dec(e.0)), Quoted(e.1.text);
    Regroup(name, text, rest);
    ParseQuoted(Dec(e.0), [COLON] + text + rest);
    ParseQuoted(e.1.text, rest);
  }

  lemma Regroup(name: Bytes, text: Bytes, rest: Bytes)
    ensures (name + [COLON] + text) + rest == name + ([COLON] + text + rest)
    ensures ([COLON] + text + rest)[1..] == text + rest
  {
  }

  lemma {:induction false} ParseAllMembers(es: seq<(Slot16, Addr)>)
    requires es != []
    requires forall e <- es :: Plain(e.1.text)
    ensures ParseMembers(Members(es) + [CLOSE]) == Some(PairsOf(es))
    decreases |es|
  {
    hide Plain, ParseString, Member, Quoted;
    if |es| == 1 {
      ParseOneMember(es[0], [CLOSE]);
      assert PairsOf(es) == [PairOf(es[0])];
    } else {
      ParseAllMembers(es[1..]);
      var rest := [COMMA] + (Members(es[1..]) + [CLOSE]);
      assert Members(es) + [CLOSE] == Member(es[0]) + rest;
      ParseOneMember(es[0], rest);
      assert rest[1..] == Members(es[1..]) + [CLOSE];
      assert rest != [CLOSE];
    }
  }

  /** The overrides a reader keeps. */
  ghost predicate Readable(owners: Owners, slot: Slot16) {
    slot in owners && slot < SLOT_NUMBER && owners[slot].text != []
  }

  ghost function Kept(owners: Owners): Owners {
    map slot | slot in owners && Readable(owners, slot) :: owners[slot]
  }

  /** `into`, overridden by the readable entries from `lo` on. */
  ghost function Merged(owners: Owners, lo: nat, into: Owners): Owners {
    map slot | slot in into.Keys + owners.Keys && (slot in into || (lo <= slot && Readable(owners, slot)))
      :: if lo <= slot && Readable(owners, slot) then owners[slot] else into[slot]
  }

  lemma {:induction false} CollectEntries(owners: Owners, lo: nat, into: Owners)
    requires lo <= 0x1_0000
    ensures Collect(PairsOf(Entries(owners, lo)), into) == Merged(owners, lo, into)
    decreases 0x1_0000 - lo
  {
    hide PairsOf, Collect, Merged;
    EntriesStep(owners, lo);
    if lo == 0x1_0000 {
      PairsOfNothing();
      NothingMerged(owners, into);
    } else if lo in owners {
      CollectOne((lo, owners[lo]), Entries(owners, lo + 1), into);
      var more := if Readable(owners, lo) then into[lo := owners[lo]] else into;
      CollectEntries(owners, lo + 1, more);
      MergedStep(owners, lo, into);
    } else {
      CollectEntries(owners, lo + 1, into);
      MergedStep(owners, lo, into);
    }
  }

  lemma EntriesStep(owners: Owners, lo: nat)
    requires lo <= 0x1_0000
    ensures Entries(owners, lo) == if lo == 0x1_0000 then []
                                   else if lo in owners then [(lo, owners[lo])] + Entries(owners, lo + 1)
                                   else Entries(owners, lo + 1)
  {
  }

  lemma MergedStep(owners: Owners, lo: nat, into: Owners)
    requires lo < 0x1_0000
    ensures Merged(owners, lo + 1, if Readable(owners, lo) then into[lo := owners[lo]] else into)
         == Merged(owners, lo, into)
  {
  }

  lemma NothingMerged(owners: Owners, into: Owners)
    ensures Merged(owners, 0x1_0000, into) == into
    ensures Collect([], into) == into
  {
  }

  lemma CollectOne(e: (Slot16, Addr), rest: seq<(Slot16, Addr)>, into: Owners)
    ensures Collect(PairsOf([e] + rest), into)
         == Collect(PairsOf(rest), if e.0 < SLOT_NUMBER && e.1.text != [] then into[e.0 := e.1] else into)
  {
    ParseOfDecU16(e.0);
    assert ([e] + rest)[1..] == rest;
    assert PairsOf([e] + rest) == [PairOf(e)] + PairsOf(rest);
    assert PairsOf([e] + rest)[1..] == PairsOf(rest);
  }

  lemma {:induction false} EntriesArePlain(owners: Owners, lo: nat)
    requires lo <= 0x1_0000
    requires forall slot <- owners :: Plain(owners[slot].text)
    ensures forall e <- Entries(owners, lo) :: Plain(e.1.text)
    decreases 0x1_0000 - lo
  {
    if lo < 0x1_0000 {
      EntriesArePlain(owners, lo + 1);
    }
  }

  lemma PairsOfNothing()
    ensures PairsOf([]) == []
  {
  }

  /** What a reader gets from the leader's text: exactly the readable overrides. */
  lemma ParseOfJson(owners: Owners)
    requires forall slot <- owners :: Plain(owners[slot].text)
    ensures ParseOwnerMap(OwnerMapJson(owners)) == Kept(owners)
  {
    hide Entries, Members, ParseMembers, Collect, Plain, PairsOf;
    var es := Entries(owners, 0);
    CollectEntries(owners, 0, map[]);
    assert Merged(owners, 0, map[]) == Kept(owners);
    assert PairsOf([]) == [] by { PairsOfNothing(); }
    EntriesArePlain(owners, 0);
    if es == [] {
      assert OwnerMapJson(owners) == [OPEN, CLOSE];
    } else {
      ParseAllMembers(es);
      var json := OwnerMapJson(owners);
      assert json[1] == QUOTE;
      assert json[1..] == Members(es) + [CLOSE];
    }
  }

  /** No override is lost in the text exactly when each is for a real slot and names an address. */
  lemma RoundTrip(owners: Owners)
    requires forall slot <- owners :: Plain(owners[slot].text)
    ensures ParseOwnerMap(OwnerMapJson(owners)) == owners <==> forall slot <- owners :: Readable(owners, slot)
  {
    ParseOfJson(owners);
    if slot :| slot in owners && !Readable(owners, slot) {
      assert slot !in Kept(owners);
    }
  }

  /** An override for a slot beyond the last one is written and not read back. */
  lemma BeyondLastSlotExample(a: Addr)
    requires Plain(a.text)
    ensures ParseOwnerMap(OwnerMapJson(map[SLOT_NUMBER := a])) == map[]
  {
    hide ParseOwnerMap, OwnerMapJson;
    ParseOfJson(map[SLOT_NUMBER := a]);
  }

  /** The text of one override: {"3":"h"}. */
  lemma TextExample()
    ensures OwnerMapJson(map[3 := Addr([104])]) == [123, 34, 51, 34, 58, 34, 104, 34, 125]
  {
    hide Entries;
    OneEntry(3, Addr([104]), 0);
    var es := [(3, Addr([104]))];
    assert Entries(map[3 := Addr([104])], 0) == es;
    assert Member(es[0]) == [34, 51, 34, 58, 34, 104, 34];
  }

  lemma {:induction false} OneEntry(slot: Slot16, a: Addr, lo: nat)
    requires lo <= 0x1_0000
    ensures Entries(map[slot := a], lo) == if lo <= slot then [(slot, a)] else []
    decreases 0x1_0000 - lo
  {
    if lo < 0x1_0000 {
      OneEntry(slot, a, lo + 1);
    }
  }
}
