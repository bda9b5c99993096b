/**
 * Who owns a slot: equal-split bands with per-slot overrides, as the router
 * decides it and as the cluster commands display it.
 */
module Routing {
  import opened Bytes
  import opened SlotMigration
  import opened OwnerMap

  datatype RouteDecision = Local | Elsewhere(slot: Slot16, addr: Addr)

  /** Slots per node, by integer division. */
  function PerNode(n: nat): nat
    requires n > 0
  {
    SLOT_NUMBER / n
  }

  /** The first node from `index` on whose inclusive upper bound reaches `slot`; the last takes the rest. */
  function BandIndex(slot: nat, n: nat, per: nat, index: nat): (r: nat)
    requires index < n
    ensures index <= r < n
    decreases n - index
  {
    if index == n - 1 || slot <= (index + 1) * per then index
    else BandIndex(slot, n, per, index + 1)
  }

  function Route(slot: Slot16, addrs: seq<Addr>, per: nat, host: Addr): RouteDecision {
    if addrs == [] then Local
    else
      var addr := addrs[BandIndex(slot, |addrs|, per, 0)];
      if addr == host then Local else Elsewhere(slot, addr)
  }

  function RouteWithOwners(slot: Slot16, addrs: seq<Addr>, per: nat, host: Addr, owners: Owners): RouteDecision {
    if slot in owners then
      if owners[slot] == host then Local else Elsewhere(slot, owners[slot])
    else Route(slot, addrs, per, host)
  }

  /** The node every router sends `slot` to. */
  function Owner(slot: Slot16, addrs: seq<Addr>, owners: Owners): Addr
    requires addrs != []
  {
    Routed(if slot in owners then Some(owners[slot]) else None,
           addrs[BandIndex(slot, |addrs|, PerNode(|addrs|), 0)])
  }

  // Bands in closed form.

  function BandLow(i: nat, per: nat): nat {
    if i == 0 then 0 else i * per + 1
  }

  function BandHigh(i: nat, n: nat, per: nat): nat {
    if i == n - 1 then SLOT_NUMBER - 1 else (i + 1) * per
  }

  lemma Scale(i: nat, j: nat, per: nat)
    requires i <= j
    ensures i * per <= j * per
  {
  }

  /** The search picks node `r` exactly when `slot` lies in the `r`-th band. */
  lemma {:induction false} BandIffInRange(slot: nat, n: nat, per: nat, index: nat, r: nat)
    requires slot < SLOT_NUMBER && index <= r < n
    requires BandLow(index, per) <= slot
    ensures BandIndex(slot, n, per, index) == r <==> BandLow(r, per) <= slot <= BandHigh(r, n, per)
    decreases n - index
  {
    if index == n - 1 {
    } else if slot <= (index + 1) * per {
      if index < r {
        Scale(index + 1, r, per);
      }
    } else if index == r {
    } else {
      BandIffInRange(slot, n, per, index + 1, r);
    }
  }

  ghost predicate Distinct<T>(xs: seq<T>) {
    forall i, j :: 0 <= i < j < |xs| ==> xs[i] != xs[j]
  }

  /** A node answers locally exactly when it is the owner, so at most one does. */
  lemma LocalIffOwner(slot: Slot16, addrs: seq<Addr>, host: Addr, owners: Owners)
    requires addrs != []
    ensures RouteWithOwners(slot, addrs, PerNode(|addrs|), host, owners) ==
            if host == Owner(slot, addrs, owners) then Local else Elsewhere(slot, Owner(slot, addrs, owners))
  {
  }

  /** Some listed node answers locally exactly when the slot's override, if any, names a listed node. */
  lemma SomeNodeIsLocal(slot: Slot16, addrs: seq<Addr>, owners: Owners)
    requires addrs != []
    ensures (exists host <- addrs :: RouteWithOwners(slot, addrs, PerNode(|addrs|), host, owners) == Local)
            <==> (slot in owners ==> owners[slot] in addrs)
  {
    var owner := Owner(slot, addrs, owners);
    LocalIffOwner(slot, addrs, owner, owners);
    if owner in addrs {
      assert RouteWithOwners(slot, addrs, PerNode(|addrs|), owner, owners) == Local;
    }
  }

  // The displayed ranges.

  datatype Range = Range(start: nat, end: nat) {
    predicate Has(slot: nat) { start <= slot <= end }
  }

  datatype Group = Group(id: Bytes, ranges: seq<Range>)

  /** The first position holding `x`, or 0 when there is none. */
  function PositionOrFirst(ids: seq<Bytes>, x: Bytes, from: nat): (r: nat)
    requires from <= |ids|
    ensures ids != [] ==> r < |ids|
    ensures x in ids[from..] ==> from <= r < |ids| && ids[r] == x
    ensures x !in ids[from..] ==> r == 0
    decreases |ids| - from
  {
    if from == |ids| then 0
    else if ids[from] == x then from
    else
      assert ids[from..] == [ids[from]] + ids[from + 1..];
      PositionOrFirst(ids, x, from + 1)
  }

  /** The node index a slot is displayed under. */
  function DisplayIndex(slot: Slot16, addrs: seq<Addr>, owners: Owners, id: Addr -> Bytes): (r: nat)
    requires addrs != []
    ensures r < |addrs|
  {
    if slot in owners
    then PositionOrFirst(seq(|addrs|, i requires 0 <= i < |addrs| => id(addrs[i])), id(owners[slot]), 0)
    else BandIndex(slot, |addrs|, PerNode(|addrs|), 0)
  }

  /** The ranges of all groups in order, each with its group's id. */
  ghost function Flat(out: seq<Group>): seq<(Bytes, Range)> {
    if out == [] then [] else Flat(out[..|out| - 1]) + Tagged(out[|out| - 1])
  }

  ghost function Tagged(g: Group): seq<(Bytes, Range)> {
    seq(|g.ranges|, i requires 0 <= i < |g.ranges| => (g.id, g.ranges[i]))
  }

  lemma FlatExtend(out: seq<Group>, r: Range)
    requires out != []
    ensures var last := out[|out| - 1];
            Flat(out[..|out| - 1] + [last.(ranges := last.ranges + [r])]) == Flat(out) + [(last.id, r)]
  {
    hide Tagged;
    var last := out[|out| - 1];
    var more := out[..|out| - 1] + [last.(ranges := last.ranges + [r])];
    assert more[..|more| - 1] == out[..|out| - 1];
    TaggedExtend(last, r);
  }

  lemma TaggedExtend(g: Group, r: Range)
    ensures Tagged(g.(ranges := g.ranges + [r])) == Tagged(g) + [(g.id, r)]
  {
  }

  lemma FlatPush(out: seq<Group>, id: Bytes, r: Range)
    ensures Flat(out + [Group(id, [r])]) == Flat(out) + [(id, r)]
  {
    var more := out + [Group(id, [r])];
    assert more[..|more| - 1] == out;
    assert Tagged(Group(id, [r])) == [(id, r)];
  }

  /**
   * `runs` tile the slots below `upto`: consecutive, non-empty, each owned throughout by one node
   * whose id it carries, and each starting where the owner changes.
   */
  ghost predicate Tiles(runs: seq<(Bytes, Range)>, upto: nat, ownerOf: seq<nat>, ids: seq<Bytes>)
    decreases |runs|
  {
    if runs == [] then upto == 0
    else
      var (id, r) := runs[|runs| - 1];
      && r.start <= r.end < |ownerOf| && r.end + 1 == upto
      && (forall slot :: r.start <= slot <= r.end ==> ownerOf[slot] == ownerOf[r.start])
      && ownerOf[r.start] < |ids| && ids[ownerOf[r.start]] == id
      && (r.start > 0 ==> ownerOf[r.start - 1] != ownerOf[r.start])
      && Tiles(runs[..|runs| - 1], r.start, ownerOf, ids)
  }

  lemma NothingTiled(ownerOf: seq<nat>, ids: seq<Bytes>)
    ensures Flat([]) == [] && Tiles([], 0, ownerOf, ids)
  {
  }

  lemma TilesPush(runs: seq<(Bytes, Range)>, id: Bytes, r: Range, ownerOf: seq<nat>, ids: seq<Bytes>)
    requires Tiles(runs, r.start, ownerOf, ids)
    requires r.start <= r.end < |ownerOf|
    requires forall slot :: r.start <= slot <= r.end ==> ownerOf[slot] == ownerOf[r.start]
    requires ownerOf[r.start] < |ids| && ids[ownerOf[r.start]] == id
    requires r.start > 0 ==> ownerOf[r.start - 1] != ownerOf[r.start]
    ensures Tiles(runs + [(id, r)], r.end + 1, ownerOf, ids)
  {
    assert (runs + [(id, r)])[..|runs|] == runs;
  }

  /** The end of the maximal run of one owner that starts at `start`. */
  method RunEnd(ownerOf: seq<nat>, start: nat) returns (end: nat)
    requires start < |ownerOf|
    ensures start <= end < |ownerOf|
    ensures forall slot :: start <= slot <= end ==> ownerOf[slot] == ownerOf[start]
    ensures end + 1 < |ownerOf| ==> ownerOf[end + 1] != ownerOf[start]
  {
    end := start;
    while end + 1 < |ownerOf| && ownerOf[end + 1] == ownerOf[start]
      invariant start <= end < |ownerOf|
      invariant forall slot :: start <= slot <= end ==> ownerOf[slot] == ownerOf[start]
    {
      end := end + 1;
    }
  }

  function IdsOf(addrs: seq<Addr>, id: Addr -> Bytes): seq<Bytes> {
    seq(|addrs|, i requires 0 <= i < |addrs| => id(addrs[i]))
  }

  function OwnersOf(addrs: seq<Addr>, owners: Owners, id: Addr -> Bytes): seq<nat>
    requires addrs != []
  {
    seq(SLOT_NUMBER, slot requires 0 <= slot < SLOT_NUMBER => DisplayIndex(slot, addrs, owners, id))
  }

  /** The displayed ranges tile 0..16383 into maximal single-owner runs. */
  method AttributedRanges(addrs: seq<Addr>, owners: Owners, id: Addr -> Bytes) returns (out: seq<Group>)
    ensures addrs == [] ==> out == []
    ensures addrs != [] ==> Tiles(Flat(out), SLOT_NUMBER, OwnersOf(addrs, owners, id), IdsOf(addrs, id))
  {
    hide DisplayIndex, BandIndex, PositionOrFirst, Flat, Tiles;
    out := [];
    if addrs == [] {
      return;
    }
    var ids := IdsOf(addrs, id);
    var ownerOf := OwnersOf(addrs, owners, id);
    var start := 0;
    NothingTiled(ownerOf, ids);
    while start < SLOT_NUMBER
      invariant 0 <= start <= SLOT_NUMBER
      invariant Tiles(Flat(out), start, ownerOf, ids)
      invariant 0 < start < SLOT_NUMBER ==> ownerOf[start - 1] != ownerOf[start]
    {
      var end := RunEnd(ownerOf, start);
      var owner := ids[ownerOf[start]];
      var r := Range(start, end);
      TilesPush(Flat(out), owner, r, ownerOf, ids);
      if out != [] && out[|out| - 1].id == owner {
        var last := out[|out| - 1];
        FlatExtend(out, r);
        out := out[..|out| - 1] + [last.(ranges := last.ranges + [r])];
      } else {
        FlatPush(out, owner, r);
        out := out + [Group(owner, [r])];
      }
      start := end + 1;
    }
  }

  /** Every slot is in exactly one displayed range, and that range carries its owner's id. */
  lemma {:induction false} TilesCover(runs: seq<(Bytes, Range)>, upto: nat, ownerOf: seq<nat>, ids: seq<Bytes>, slot: nat)
    returns (at: nat)
    requires Tiles(runs, upto, ownerOf, ids) && slot < upto <= |ownerOf|
    ensures at < |runs| && runs[at].1.Has(slot)
    ensures ownerOf[slot] < |ids| && runs[at].0 == ids[ownerOf[slot]]
    ensures forall i :: 0 <= i < |runs| && runs[i].1.Has(slot) ==> i == at
    decreases |runs|
  {
    var last := |runs| - 1;
    if runs[last].1.Has(slot) {
      at := last;
      forall i | 0 <= i < last ensures !runs[i].1.Has(slot) {
        TilesEndBelow(runs[..last], runs[last].1.start, ownerOf, ids, i);
        assert runs[..last][i] == runs[i];
      }
    } else {
      at := TilesCover(runs[..last], runs[last].1.start, ownerOf, ids, slot);
      assert forall i :: 0 <= i < last ==> runs[..last][i] == runs[i];
    }
  }

  lemma {:induction false} TilesEndBelow(runs: seq<(Bytes, Range)>, upto: nat, ownerOf: seq<nat>, ids: seq<Bytes>, i: nat)
    requires Tiles(runs, upto, ownerOf, ids) && i < |runs|
    ensures runs[i].1.end < upto
    decreases |runs|
  {
    var last := |runs| - 1;
    if i < last {
      TilesEndBelow(runs[..last], runs[last].1.start, ownerOf, ids, i);
      assert runs[..last][i] == runs[i];
    }
  }

  /** Adjacent ranges belong to different nodes when the ids are distinct: no range could be longer. */
  lemma {:induction false} TilesAlternate(runs: seq<(Bytes, Range)>, upto: nat, ownerOf: seq<nat>, ids: seq<Bytes>, i: nat)
    requires Tiles(runs, upto, ownerOf, ids) && Distinct(ids) && i + 1 < |runs|
    ensures runs[i].0 != runs[i + 1].0 && runs[i].1.end + 1 == runs[i + 1].1.start
    decreases |runs|
  {
    var last := |runs| - 1;
    var before := runs[..last];
    assert before[i] == runs[i];
    if i + 1 < last {
      TilesAlternate(before, runs[last].1.start, ownerOf, ids, i);
      assert before[i + 1] == runs[i + 1];
    } else {
      assert Tiles(before, runs[last].1.start, ownerOf, ids);
      assert ownerOf[runs[i].1.end] == ownerOf[runs[i].1.start];
    }
  }

  /** The node a slot is displayed under is its router's owner exactly when its override names a listed node. */
  lemma DisplayIsOwner(slot: Slot16, addrs: seq<Addr>, owners: Owners, id: Addr -> Bytes)
    requires addrs != []
    requires forall a, b :: id(a) == id(b) ==> a == b
    ensures addrs[DisplayIndex(slot, addrs, owners, id)] == Owner(slot, addrs, owners)
            <==> (slot in owners ==> owners[slot] in addrs)
  {
    if slot in owners {
      var ids := seq(|addrs|, i requires 0 <= i < |addrs| => id(addrs[i]));
      var x := id(owners[slot]);
      assert ids[0..] == ids;
      if owners[slot] in addrs {
        var i :| 0 <= i < |addrs| && addrs[i] == owners[slot];
        assert ids[i] == x;
      }
    }
  }

  /** An override that names no listed node is displayed under the first one. */
  lemma UnlistedOverrideExample(slot: Slot16, a: Addr, b: Addr, id: Addr -> Bytes)
    requires a != b && id(a) != id(b)
    ensures var addrs, owners := [a], map[slot := b];
            addrs[DisplayIndex(slot, addrs, owners, id)] == a && Owner(slot, addrs, owners) == b
  {
  }

  /**
   * Display and routing agree: when the override of `slot`, if any, names a listed node, the one
   * displayed range holding `slot` carries the id of the one node that answers it locally.
   */
  lemma DisplayAgreesWithRouting(out: seq<Group>, addrs: seq<Addr>, owners: Owners, id: Addr -> Bytes, slot: Slot16, host: Addr)
    requires addrs != [] && slot < SLOT_NUMBER
    requires forall a, b :: id(a) == id(b) ==> a == b
    requires Tiles(Flat(out), SLOT_NUMBER, OwnersOf(addrs, owners, id), IdsOf(addrs, id))
    requires slot in owners ==> owners[slot] in addrs
    requires RouteWithOwners(slot, addrs, PerNode(|addrs|), host, owners) == Local
    ensures exists at :: 0 <= at < |Flat(out)| && Flat(out)[at].1.Has(slot) && Flat(out)[at].0 == id(host)
  {
    var ownerOf := OwnersOf(addrs, owners, id);
    var at := TilesCover(Flat(out), SLOT_NUMBER, ownerOf, IdsOf(addrs, id), slot);
    assert ownerOf[slot] == DisplayIndex(slot, addrs, owners, id);
    DisplayIsOwner(slot, addrs, owners, id);
    LocalIffOwner(slot, addrs, host, owners);
  }

  // The node list's bands.

  /** `addrs[i]` does not occur again later. */
  predicate LastAt(addrs: seq<Addr>, i: nat)
    requires i < |addrs|
  {
    addrs[i] !in addrs[i + 1..]
  }

  function Band(i: nat, n: nat): Range
    requires i < n
  {
    Range(BandLow(i, PerNode(n)), BandHigh(i, n, PerNode(n)))
  }

  /** The first `index` nodes have their bands; of a repeated address the last one counts. */
  ghost predicate Banded(slots: map<Addr, Range>, addrs: seq<Addr>, index: nat)
    requires index <= |addrs|
  {
    && slots.Keys == (set a | a in addrs[..index])
    && forall i :: 0 <= i < index && LastAt(addrs, i) ==> slots[addrs[i]] == Band(i, |addrs|)
  }

  lemma BandedStep(slots: map<Addr, Range>, addrs: seq<Addr>, index: nat)
    requires index < |addrs| && Banded(slots, addrs, index)
    ensures Banded(slots[addrs[index] := Band(index, |addrs|)], addrs, index + 1)
  {
    hide Band;
    assert addrs[..index + 1] == addrs[..index] + [addrs[index]];
    LaterDiffers(addrs, index);
  }

  lemma BandAt(i: nat, n: nat)
    requires i < n
    ensures Band(i, n) == Range(BandLow(i, PerNode(n)), if i == n - 1 then SLOT_NUMBER - 1 else PerNode(n) * (i + 1))
    ensures BandLow(i + 1, PerNode(n)) == PerNode(n) * (i + 1) + 1
  {
  }

  /** Each node's displayed band, built with a running start. */
  method ParseNodeSlots(addrs: seq<Addr>) returns (slots: map<Addr, Range>)
    ensures Banded(slots, addrs, |addrs|)
  {
    hide Banded, Band, BandLow, PerNode;
    slots := map[];
    NothingBanded(addrs);
    if addrs == [] {
      return;
    }
    var n := |addrs|;
    var per := PerNode(n);
    var start, index := 0, 0;
    while index < n
      invariant 0 <= index <= n
      invariant index < n ==> start == BandLow(index, per)
      invariant Banded(slots, addrs, index)
    {
      BandedStep(slots, addrs, index);
      BandAt(index, n);
      if index == n - 1 {
        slots := slots[addrs[index] := Range(start, SLOT_NUMBER - 1)];
      } else {
        var end := per * (index + 1);
        slots := slots[addrs[index] := Range(start, end)];
        start := end + 1;
      }
      index := index + 1;
    }
  }

  lemma NothingBanded(addrs: seq<Addr>)
    ensures Banded(map[], addrs, 0)
    ensures forall per: nat :: BandLow(0, per) == 0
  {
  }

  lemma LaterDiffers(addrs: seq<Addr>, index: nat)
    requires index < |addrs|
    ensures forall i :: 0 <= i < index && LastAt(addrs, i) ==> addrs[i] != addrs[index]
  {
    forall i | 0 <= i < index && LastAt(addrs, i) ensures addrs[i] != addrs[index] {
      assert addrs[i + 1..][index - i - 1] == addrs[index];
    }
  }

  /** Without overrides, a node's displayed band holds exactly the slots the router sends to it. */
  lemma BandsAgreeWithRouting(addrs: seq<Addr>, i: nat, slot: Slot16)
    requires i < |addrs| && Distinct(addrs) && slot < SLOT_NUMBER
    ensures LastAt(addrs, i)
    ensures Band(i, |addrs|).Has(slot) <==>
            RouteWithOwners(slot, addrs, PerNode(|addrs|), addrs[i], map[]) == Local
  {
    var per := PerNode(|addrs|);
    BandIffInRange(slot, |addrs|, per, 0, i);
    var r := BandIndex(slot, |addrs|, per, 0);
    assert addrs[r] == addrs[i] ==> r == i;
  }

  /** The displayed bands are all non-empty exactly below 16384 nodes. */
  lemma BandsNonEmptyIff(n: nat)
    requires n > 0
    ensures (forall i :: 0 <= i < n ==> BandLow(i, PerNode(n)) <= BandHigh(i, n, PerNode(n))) <==> n < SLOT_NUMBER
  {
    var per := PerNode(n);
    if n < SLOT_NUMBER {
      PerFits(n);
      forall i | 0 <= i < n ensures BandLow(i, per) <= BandHigh(i, n, per) {
        if i == n - 1 {
          Scale(i, n - 1, per);
        } else {
          assert (i + 1) * per == i * per + per;
        }
      }
    } else if n == SLOT_NUMBER {
      assert per == 1;
      assert BandLow(n - 1, per) > BandHigh(n - 1, n, per);
    } else {
      assert per == 0;
      assert BandLow(1, per) > BandHigh(1, n, per);
    }
  }

  /** With as many nodes as slots the last node's band is empty. */
  lemma EmptyBandExample()
    ensures var per := PerNode(SLOT_NUMBER);
            BandLow(SLOT_NUMBER - 1, per) == SLOT_NUMBER && BandHigh(SLOT_NUMBER - 1, SLOT_NUMBER, per) == SLOT_NUMBER - 1
  {
  }

  lemma PerFits(n: nat)
    requires 0 < n < SLOT_NUMBER
    ensures PerNode(n) >= 1 && (n - 1) * PerNode(n) <= SLOT_NUMBER - 2
  {
    var per := PerNode(n);
    assert n * per <= SLOT_NUMBER;
    assert (n - 1) * per == n * per - per;
    if per == 1 {
    } else {
      assert per >= 2;
    }
  }
}
