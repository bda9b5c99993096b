/**
 * A sorted set as records: a counter, one score per member, and the ordered
 * score records. Commands build one batch and commit it.
 */
module SortedSet {
  import opened Bytes
  import opened SortedIndex

  type Members = map<Member, Score>

  datatype Meta = Meta(expire: nat, count: nat)

  /** Everything stored for one sorted-set key. */
  datatype Shape = Shape(meta: Option<Meta>, members: Members, index: seq<Item>)

  const NOTHING := Shape(None, map[], [])

  datatype Op =
    | PutMember(member: Member, score: Score)
    | DelMember(member: Member)
    | PutScored(score: Score, member: Member)
    | DelScored(score: Score, member: Member)
    | PutMeta(meta: Meta)
    | DropFamily

  function ApplyOp(s: Shape, op: Op): Shape {
    match op
    case PutMember(m, score) => s.(members := s.members[m := score])
    case DelMember(m) => s.(members := s.members - {m})
    case PutScored(score, m) => s.(index := Insert(s.index, Item(score, m)))
    case DelScored(score, m) => s.(index := Remove(s.index, Item(score, m)))
    case PutMeta(meta) => s.(meta := Some(meta))
    case DropFamily => NOTHING
  }

  /** A batch, in order. */
  function Run(s: Shape, ops: seq<Op>): Shape
    decreases |ops|
  {
    if ops == [] then s else ApplyOp(Run(s, ops[..|ops| - 1]), ops[|ops| - 1])
  }

  lemma RunPush(s: Shape, ops: seq<Op>, op: Op)
    ensures Run(s, ops + [op]) == ApplyOp(Run(s, ops), op)
  {
    assert (ops + [op])[..|ops|] == ops;
  }

  lemma RunNone(s: Shape)
    ensures Run(s, []) == s
  {
  }

  /** `x` is the record of a member at its score. */
  predicate Pairs(members: Members, x: Item) {
    x.member in members && members[x.member] == x.score
  }

  /** The score records are the members at their scores, plus `stale` ones that should not be there. */
  ghost predicate Indexed(members: Members, index: seq<Item>, stale: set<Item>) {
    && Sorted(index)
    && (forall x :: x in index <==> Pairs(members, x) || x in stale)
    && (forall x <- stale :: !Pairs(members, x))
  }

  /** The records of a sorted set in order: the two indexes agree and the counter counts them. */
  ghost predicate Ok(s: Shape) {
    && Indexed(s.members, s.index, {})
    && (s.meta.None? <==> s.members == map[])
    && (s.meta.Some? ==> s.meta.value.count == |s.members|)
  }

  // One batch entry at a time.

  lemma WriteKeepsIndexed(members: Members, index: seq<Item>, stale: set<Item>, m: Member, score: Score)
    requires Indexed(members, index, stale) && m !in members
    ensures Indexed(members[m := score], Insert(index, Item(score, m)), stale - {Item(score, m)})
  {
    hide Lt, Insert, Sorted;
    InsertSorted(index, Item(score, m));
    forall x ensures x in Insert(index, Item(score, m)) <==>
                     Pairs(members[m := score], x) || x in stale - {Item(score, m)} {
      InsertHas(index, Item(score, m), x);
    }
  }

  /** Replacing a score through a belief `was` about the old one leaves the real old record behind when it is wrong. */
  lemma RewriteKeepsIndexed(members: Members, index: seq<Item>, stale: set<Item>, m: Member, was: Score, score: Score)
    requires Indexed(members, index, stale) && m in members && members[m] != score
    ensures Indexed(members[m := score], Insert(Remove(index, Item(was, m)), Item(score, m)),
                    stale + {Item(members[m], m)} - {Item(was, m), Item(score, m)})
  {
    hide Lt, Insert, Remove, Sorted;
    var mid := Remove(index, Item(was, m));
    RemoveSorted(index, Item(was, m));
    InsertSorted(mid, Item(score, m));
    forall x ensures x in Insert(mid, Item(score, m)) <==>
                     Pairs(members[m := score], x) || x in stale + {Item(members[m], m)} - {Item(was, m), Item(score, m)} {
      RemoveHas(index, Item(was, m), x);
      InsertHas(mid, Item(score, m), x);
    }
  }

  lemma DeleteKeepsIndexed(members: Members, index: seq<Item>, m: Member)
    requires Indexed(members, index, {}) && m in members
    ensures Indexed(members - {m}, Remove(index, Item(members[m], m)), {})
  {
    hide Lt, Remove, Sorted;
    RemoveSorted(index, Item(members[m], m));
    forall x ensures x in Remove(index, Item(members[m], m)) <==> Pairs(members - {m}, x) {
      RemoveHas(index, Item(members[m], m), x);
    }
  }

  /** There are as many score records as members. */
  lemma {:induction false} IndexCounts(members: Members, index: seq<Item>)
    requires Indexed(members, index, {})
    ensures |index| == |members|
    decreases |index|
  {
    hide Lt, Sorted;
    assert forall m <- members :: Pairs(members, Item(members[m], m));
    if index == [] {
      assert members == map[];
    } else {
      var x := index[0];
      assert Pairs(members, x);
      TailIndexed(members, index);
      IndexCounts(members - {x.member}, index[1..]);
      assert members.Keys == (members - {x.member}).Keys + {x.member};
    }
  }

  lemma TailIndexed(members: Members, index: seq<Item>)
    requires Indexed(members, index, {}) && index != []
    ensures Indexed(members - {index[0].member}, index[1..], {})
  {
    hide Lt;
    assert Pairs(members, index[0]);
    forall x ensures x in index[1..] <==> Pairs(members - {index[0].member}, x) {
      TailHas(index, x);
    }
  }

  // ZADD as a left fold over its pairs.

  datatype Flags = Flags(nx: bool, xx: bool, gt: bool, lt: bool)

  function Get(members: Members, m: Member): Option<Score> {
    if m in members then Some(members[m]) else None
  }

  /** Do the flags let this pair through, given the member's score so far? */
  predicate Passes(f: Flags, was: Option<Score>, score: Score) {
    && !(f.nx && was.Some?)
    && !(f.xx && was.None?)
    && !(was.Some? && ((f.gt && !NumLess(was.value, score)) || (f.lt && !NumLess(score, was.value))))
  }

  /** A pair takes effect when the flags pass and the number changes. */
  predicate Writes(f: Flags, was: Option<Score>, score: Score) {
    Passes(f, was, score) && !(was.Some? && NumEq(was.value, score))
  }

  function AddOne(members: Members, f: Flags, pair: (Score, Member)): Members {
    if Writes(f, Get(members, pair.1), pair.0) then members[pair.1 := pair.0] else members
  }

  /**
   * In numbers: NX only adds, XX only updates, GT only raises, LT only lowers, an equal score
   * stays as it is stored, and no pair touches another member.
   */
  lemma AddOneMeaning(members: Members, f: Flags, score: Score, m: Member)
    requires !(f.gt && f.lt)
    ensures var after := AddOne(members, f, (score, m));
            && (m !in members ==> after == if f.xx then members else members[m := score])
            && (m in members ==>
                  var was, next := Number(members[m]), Number(score);
                  && (f.nx || was == next ==> after == members)
                  && (!f.nx && f.gt ==> after == if was < next then members[m := score] else members)
                  && (!f.nx && f.lt ==> after == if next < was then members[m := score] else members)
                  && (!f.nx && !f.gt && !f.lt && was != next ==> after == members[m := score]))
  {
    hide NumLess, NumEq, Number;
    if m in members {
      NumberOrder(members[m], score);
      NumberOrder(score, members[m]);
    }
  }

  /** CH counts the pairs that change a member's number or add a member. */
  lemma ChangesMeaning(members: Members, f: Flags, pairs: seq<(Score, Member)>, pair: (Score, Member))
    ensures Changes(members, f, []) == 0
    ensures Changes(members, f, pairs + [pair]) ==
            Changes(members, f, pairs) + if AddAll(members, f, pairs + [pair]) == AddAll(members, f, pairs) then 0 else 1
  {
    hide Passes, Changes;
    FoldPush(members, f, pairs, pair);
    assert Changes(members, f, []) == 0 && Changes(members, f, pairs + [pair]) ==
           Changes(members, f, pairs) + if Writes(f, Get(AddAll(members, f, pairs), pair.1), pair.0) then 1 else 0 by {
      ChangesPush(members, f, pairs, pair);
    }
  }

  lemma ChangesPush(members: Members, f: Flags, pairs: seq<(Score, Member)>, pair: (Score, Member))
    ensures Changes(members, f, []) == 0
    ensures Changes(members, f, pairs + [pair]) ==
            Changes(members, f, pairs) + if Writes(f, Get(AddAll(members, f, pairs), pair.1), pair.0) then 1 else 0
  {
    FoldPush(members, f, pairs, pair);
  }

  function AddAll(members: Members, f: Flags, pairs: seq<(Score, Member)>): Members
    decreases |pairs|
  {
    if pairs == [] then members
    else AddOne(AddAll(members, f, pairs[..|pairs| - 1]), f, pairs[|pairs| - 1])
  }

  /** How many pairs took effect. */
  function Changes(members: Members, f: Flags, pairs: seq<(Score, Member)>): nat
    decreases |pairs|
  {
    if pairs == [] then 0
    else
      var rest := pairs[..|pairs| - 1];
      var (score, m) := pairs[|pairs| - 1];
      Changes(members, f, rest) + if Writes(f, Get(AddAll(members, f, rest), m), score) then 1 else 0
  }

  /** Scores this call has already settled, by member: what a duplicate member sees instead of the store. */
  function Pending(members: Members, f: Flags, pairs: seq<(Score, Member)>): Members
    decreases |pairs|
  {
    if pairs == [] then map[]
    else
      var before := Pending(members, f, pairs[..|pairs| - 1]);
      var (score, m) := pairs[|pairs| - 1];
      if Passes(f, Effective(members, before, m), score) then before[m := score] else before
  }

  function Effective(members: Members, pending: Members, m: Member): Option<Score> {
    if m in pending then Some(pending[m]) else Get(members, m)
  }

  /**
   * Score records left behind: a duplicate member that first re-adds its zero under the other sign
   * and then moves away deletes the record of the wrong zero.
   */
  ghost function Stale(members: Members, f: Flags, pairs: seq<(Score, Member)>): set<Item>
    decreases |pairs|
  {
    if pairs == [] then {}
    else
      var rest := pairs[..|pairs| - 1];
      var (score, m) := pairs[|pairs| - 1];
      var before, now := Stale(members, f, rest), AddAll(members, f, rest);
      var was := Effective(members, Pending(members, f, rest), m);
      if !Writes(f, was, score) then before
      else if was.None? || m !in now then before - {Item(score, m)}
      else before + {Item(now[m], m)} - {Item(was.value, m), Item(score, m)}
  }

  /** What this call believes about a member and what is stored are the same number. */
  ghost predicate Agree(believed: Option<Score>, stored: Option<Score>) {
    (believed.Some? <==> stored.Some?) && (believed.Some? ==> NumEq(believed.value, stored.value))
  }

  lemma AgreeDecides(f: Flags, believed: Option<Score>, stored: Option<Score>, score: Score)
    requires Agree(believed, stored)
    ensures Passes(f, believed, score) <==> Passes(f, stored, score)
    ensures Writes(f, believed, score) <==> Writes(f, stored, score)
  {
  }

  /** Beliefs agree with the fold throughout, so duplicates are decided as the fold decides them. */
  lemma {:induction false} BeliefsAgree(members: Members, f: Flags, pairs: seq<(Score, Member)>, m: Member)
    ensures Agree(Effective(members, Pending(members, f, pairs), m), Get(AddAll(members, f, pairs), m))
    decreases |pairs|
  {
    hide Passes, NumLess;
    if pairs != [] {
      var rest := pairs[..|pairs| - 1];
      var (score, who) := pairs[|pairs| - 1];
      BeliefsAgree(members, f, rest, m);
      BeliefsAgree(members, f, rest, who);
      AgreeDecides(f, Effective(members, Pending(members, f, rest), who), Get(AddAll(members, f, rest), who), score);
      if m == who {
        EqualChain(f, Effective(members, Pending(members, f, rest), who), Get(AddAll(members, f, rest), who), score);
      }
    }
  }

  lemma EqualChain(f: Flags, believed: Option<Score>, stored: Option<Score>, score: Score)
    requires Agree(believed, stored)
    ensures Passes(f, stored, score) && !Writes(f, stored, score) ==> stored.Some? && NumEq(score, stored.value)
  {
  }

  /** No score record is left behind when no pair of the call, and no stored score, is a negative zero. */
  lemma {:induction false} NoNegativeZeroNoStale(members: Members, f: Flags, pairs: seq<(Score, Member)>)
    requires forall m <- members :: members[m] != NEG_ZERO
    requires forall p <- pairs :: p.0 != NEG_ZERO
    ensures Stale(members, f, pairs) == {}
    ensures forall m <- AddAll(members, f, pairs) :: AddAll(members, f, pairs)[m] != NEG_ZERO
    ensures forall m <- Pending(members, f, pairs) :: Pending(members, f, pairs)[m] != NEG_ZERO
    decreases |pairs|
  {
    hide Passes, Writes;
    if pairs != [] {
      var rest := pairs[..|pairs| - 1];
      var (score, m) := pairs[|pairs| - 1];
      assert pairs[|pairs| - 1] in pairs;
      NoNegativeZeroNoStale(members, f, rest);
      BeliefsAgree(members, f, rest, m);
    }
  }

  /** The call that breaks the index: the stored zero is plus, re-added as minus, then moved to one. */
  lemma NegativeZeroExample(m: Member, one: Score)
    requires POS_ZERO < one
    ensures var pairs := [(NEG_ZERO, m), (one, m)];
            Stale(map[m := POS_ZERO], Flags(false, false, false, false), pairs) == {Item(POS_ZERO, m)}
  {
    var f := Flags(false, false, false, false);
    var members: Members := map[m := POS_ZERO];
    var first := [(NEG_ZERO, m)];
    var pairs := [(NEG_ZERO, m), (one, m)];
    assert pairs[..1] == first && first[..0] == [];
    assert AddAll(members, f, []) == members;
    assert AddAll(members, f, first) == members;
    assert Pending(members, f, first) == map[m := NEG_ZERO];
    assert Stale(members, f, first) == {};
    assert Effective(members, Pending(members, f, first), m) == Some(NEG_ZERO);
  }

  /** One more pair of the fold. */
  lemma FoldPush(members: Members, f: Flags, pairs: seq<(Score, Member)>, pair: (Score, Member))
    ensures (pairs + [pair])[..|pairs|] == pairs && (pairs + [pair])[|pairs|] == pair
  {
  }

  /** What `i` pairs have done to the batch. */
  ghost predicate Added(s: Shape, f: Flags, pairs: seq<(Score, Member)>, batch: seq<Op>, pending: Members) {
    && pending == Pending(s.members, f, pairs)
    && Run(s, batch).meta == s.meta
    && Run(s, batch).members == AddAll(s.members, f, pairs)
    && Indexed(AddAll(s.members, f, pairs), Run(s, batch).index, Stale(s.members, f, pairs))
  }

  lemma NothingAdded(s: Shape, f: Flags)
    requires Ok(s)
    ensures Added(s, f, [], [], map[])
  {
  }

  lemma AddedSkip(s: Shape, f: Flags, pairs: seq<(Score, Member)>, pair: (Score, Member), batch: seq<Op>, pending: Members)
    requires Added(s, f, pairs, batch, pending)
    requires !Writes(f, Effective(s.members, pending, pair.1), pair.0)
    ensures Added(s, f, pairs + [pair], batch,
                  if Passes(f, Effective(s.members, pending, pair.1), pair.0) then pending[pair.1 := pair.0] else pending)
    ensures AddAll(s.members, f, pairs + [pair]) == AddAll(s.members, f, pairs)
    ensures Changes(s.members, f, pairs + [pair]) == Changes(s.members, f, pairs)
  {
    hide Passes, Writes, Indexed, Run;
    FoldPush(s.members, f, pairs, pair);
    BeliefsAgree(s.members, f, pairs, pair.1);
    AgreeDecides(f, Effective(s.members, pending, pair.1), Get(AddAll(s.members, f, pairs), pair.1), pair.0);
  }

  lemma AddedNew(s: Shape, f: Flags, pairs: seq<(Score, Member)>, pair: (Score, Member), batch: seq<Op>, pending: Members)
    requires Added(s, f, pairs, batch, pending)
    requires Effective(s.members, pending, pair.1).None? && Writes(f, None, pair.0)
    ensures Added(s, f, pairs + [pair], batch + [PutMember(pair.1, pair.0), PutScored(pair.0, pair.1)], pending[pair.1 := pair.0])
    ensures |AddAll(s.members, f, pairs + [pair])| == |AddAll(s.members, f, pairs)| + 1
    ensures Changes(s.members, f, pairs + [pair]) == Changes(s.members, f, pairs) + 1
  {
    hide Indexed, Run, NumEq, NumLess;
    var (score, m) := pair;
    var now := AddAll(s.members, f, pairs);
    FoldPush(s.members, f, pairs, pair);
    BeliefsAgree(s.members, f, pairs, m);
    WriteKeepsIndexed(now, Run(s, batch).index, Stale(s.members, f, pairs), m, score);
    RunPush(s, batch, PutMember(m, score));
    RunPush(s, batch + [PutMember(m, score)], PutScored(score, m));
    assert batch + [PutMember(m, score)] + [PutScored(score, m)] == batch + [PutMember(m, score), PutScored(score, m)];
    assert now[m := score].Keys == now.Keys + {m};
  }

  lemma AddedMoved(s: Shape, f: Flags, pairs: seq<(Score, Member)>, pair: (Score, Member), batch: seq<Op>, pending: Members)
    requires Added(s, f, pairs, batch, pending)
    requires Effective(s.members, pending, pair.1).Some?
    requires Writes(f, Effective(s.members, pending, pair.1), pair.0)
    ensures var was := Effective(s.members, pending, pair.1).value;
            Added(s, f, pairs + [pair],
                  batch + [DelScored(was, pair.1), PutMember(pair.1, pair.0), PutScored(pair.0, pair.1)], pending[pair.1 := pair.0])
    ensures |AddAll(s.members, f, pairs + [pair])| == |AddAll(s.members, f, pairs)|
    ensures Changes(s.members, f, pairs + [pair]) == Changes(s.members, f, pairs) + 1
  {
    hide Indexed, Run, NumLess;
    var (score, m) := pair;
    var now := AddAll(s.members, f, pairs);
    var was := Effective(s.members, pending, m).value;
    FoldPush(s.members, f, pairs, pair);
    BeliefsAgree(s.members, f, pairs, m);
    AgreeDecides(f, Some(was), Get(now, m), score);
    RewriteKeepsIndexed(now, Run(s, batch).index, Stale(s.members, f, pairs), m, was, score);
    var a, b, c := DelScored(was, m), PutMember(m, score), PutScored(score, m);
    RunPush(s, batch, a);
    RunPush(s, batch + [a], b);
    RunPush(s, batch + [a] + [b], c);
    assert batch + [a] + [b] + [c] == batch + [a, b, c];
    assert now[m := score].Keys == now.Keys;
  }

  lemma {:induction false} NoChangeNoStale(members: Members, f: Flags, pairs: seq<(Score, Member)>)
    requires Changes(members, f, pairs) == 0
    ensures AddAll(members, f, pairs) == members && Stale(members, f, pairs) == {}
    decreases |pairs|
  {
    hide Writes, Passes;
    if pairs != [] {
      var rest := pairs[..|pairs| - 1];
      var (score, m) := pairs[|pairs| - 1];
      NoChangeNoStale(members, f, rest);
      BeliefsAgree(members, f, rest, m);
      AgreeDecides(f, Effective(members, Pending(members, f, rest), m), Get(AddAll(members, f, rest), m), score);
    }
  }

  /** Replacing a score through the stored one. */
  lemma ReplaceKeepsIndexed(members: Members, index: seq<Item>, m: Member, score: Score)
    requires Indexed(members, index, {}) && m in members
    ensures Indexed(members[m := score], Insert(Remove(index, Item(members[m], m)), Item(score, m)), {})
  {
    hide Lt, Insert, Remove, Sorted;
    DeleteKeepsIndexed(members, index, m);
    WriteKeepsIndexed(members - {m}, Remove(index, Item(members[m], m)), {}, m, score);
    assert (members - {m})[m := score] == members[m := score];
    var none: set<Item> := {};
    assert none - {Item(score, m)} == none;
  }

  // When a score record is left behind, read off the arguments.

  /** The scores the pairs give to `m`, in order. */
  function Given(pairs: seq<(Score, Member)>, m: Member): seq<Score>
    decreases |pairs|
  {
    if pairs == [] then []
    else Given(pairs[..|pairs| - 1], m) + if pairs[|pairs| - 1].1 == m then [pairs[|pairs| - 1].0] else []
  }

  /** All scores of `m` in order, the stored one first. */
  function ScoresOf(members: Members, pairs: seq<(Score, Member)>, m: Member): seq<Score> {
    (if m in members then [members[m]] else []) + Given(pairs, m)
  }

  /** No flag keeps a pair from `m`: every one is looked at, also one that repeats the number. */
  predicate Unflagged(members: Members, f: Flags, m: Member) {
    !f.nx && !f.gt && !f.lt && (f.xx ==> m in members)
  }

  /** The number changes between positions `i - 1` and `i`. */
  predicate Turn(q: seq<Score>, i: int) {
    0 < i < |q| && !NumEq(q[i - 1], q[i])
  }

  /** Positions `a` up to `b` repeat one number, which starts at `a`. */
  ghost predicate RunFrom(q: seq<Score>, a: nat, b: nat) {
    a < b <= |q| && (a == 0 || Turn(q, a)) && forall i :: a < i < b ==> !Turn(q, i)
  }

  /**
   * A run of one number starts as `z` and ends under the other sign of zero before the number
   * changes, and at no later change does `z` end a run or start one.
   */
  ghost predicate LeftBehind(q: seq<Score>, z: Score) {
    exists a: nat, b: nat :: LeftAt(q, z, a, b)
  }

  ghost predicate LeftAt(q: seq<Score>, z: Score, a: nat, b: nat) {
    && RunFrom(q, a, b) && Turn(q, b) && q[a] == z && q[b - 1] != z
    && forall i :: b < i && Turn(q, i) ==> Passed(q, z, i)
  }

  /** Neither side of position `i` is `z`. */
  predicate Passed(q: seq<Score>, z: Score, i: int) {
    0 < i < |q| && q[i - 1] != z && q[i] != z
  }

  /** The first score of the last run. */
  ghost function RunStart(q: seq<Score>): Score
    requires q != []
  {
    var n := |q| - 1;
    if n > 0 && NumEq(q[n - 1], q[n]) then RunStart(q[..n]) else q[n]
  }

  /** What the changes of the number leave behind, one after the other. */
  ghost function Left(q: seq<Score>): set<Score> {
    var n := |q| - 1;
    if n <= 0 then {}
    else if NumEq(q[n - 1], q[n]) then Left(q[..n])
    else Left(q[..n]) + {RunStart(q[..n])} - {q[n - 1], q[n]}
  }

  lemma {:induction false} RunStartIs(q: seq<Score>) returns (a: nat)
    requires q != []
    ensures RunFrom(q, a, |q|) && q[a] == RunStart(q) && NumEq(q[a], q[|q| - 1])
    decreases |q|
  {
    var n := |q| - 1;
    if n > 0 && NumEq(q[n - 1], q[n]) {
      a := RunStartIs(q[..n]);
      TurnsOfPrefix(q, n);
    } else {
      a := n;
    }
  }

  lemma TurnsOfPrefix(q: seq<Score>, n: nat)
    requires n <= |q|
    ensures forall i :: i < n ==> (Turn(q[..n], i) <==> Turn(q, i))
  {
    hide NumEq;
  }

  lemma RunFromUnique(q: seq<Score>, a: nat, c: nat, b: nat)
    requires RunFrom(q, a, b) && RunFrom(q, c, b)
    ensures a == c
  {
    hide NumEq;
  }

  /** Leaving behind, change by change, is leaving behind as described. */
  lemma {:induction false} LeftIff(q: seq<Score>, z: Score)
    ensures z in Left(q) <==> LeftBehind(q, z)
    decreases |q|
  {
    var n := |q| - 1;
    if n > 0 {
      var rest := q[..n];
      LeftIff(rest, z);
      TurnsOfPrefix(q, n);
      var a := RunStartIs(rest);
      if NumEq(q[n - 1], q[n]) {
        SameRun(q, z);
      } else {
        LastTurn(q, z, a);
      }
    }
  }

  lemma SameRun(q: seq<Score>, z: Score)
    requires |q| > 1 && NumEq(q[|q| - 2], q[|q| - 1])
    ensures LeftBehind(q, z) <==> LeftBehind(q[..|q| - 1], z)
  {
    hide NumEq;
    var n := |q| - 1;
    var rest := q[..n];
    TurnsOfPrefix(q, n);
    if LeftBehind(q, z) {
      var a: nat, b: nat :| LeftAt(q, z, a, b);
      assert LeftAt(rest, z, a, b);
    }
    if LeftBehind(rest, z) {
      var a: nat, b: nat :| LeftAt(rest, z, a, b);
      assert LeftAt(q, z, a, b);
    }
  }

  lemma LastTurn(q: seq<Score>, z: Score, a: nat)
    requires |q| > 1 && !NumEq(q[|q| - 2], q[|q| - 1])
    requires RunFrom(q[..|q| - 1], a, |q| - 1) && NumEq(q[a], q[|q| - 2])
    ensures LeftBehind(q, z) <==>
            (z == q[a] || LeftBehind(q[..|q| - 1], z)) && z != q[|q| - 2] && z != q[|q| - 1]
  {
    var n := |q| - 1;
    var rest := q[..n];
    TurnsOfPrefix(q, n);
    assert Turn(q, n);
    assert RunFrom(q, a, n);
    ZeroSigns(q[a], q[n - 1], q[n]);
    hide NumEq;
    if LeftBehind(q, z) {
      var c: nat, b: nat :| LeftAt(q, z, c, b);
      if b == n {
        RunFromUnique(q, a, c, n);
      } else {
        assert Passed(q, z, n);
        assert LeftAt(rest, z, c, b);
      }
    }
    if z != q[n - 1] && z != q[n] {
      if z == q[a] {
        assert LeftAt(q, z, a, n);
      } else if LeftBehind(rest, z) {
        var c: nat, b: nat :| LeftAt(rest, z, c, b);
        forall i | b < i && Turn(q, i) ensures Passed(q, z, i) {
          assert i != n ==> Turn(rest, i);
        }
        assert LeftAt(q, z, c, b);
      }
    }
  }

  lemma ZeroSigns(first: Score, last: Score, next: Score)
    requires NumEq(first, last) && !NumEq(last, next)
    ensures first != next
  {
  }

  /** The member holds its last run's first score, the call believes its last score. */
  ghost predicate Tracked(members: Members, f: Flags, pairs: seq<(Score, Member)>, m: Member, z: Score) {
    var q, now := ScoresOf(members, pairs, m), Get(AddAll(members, f, pairs), m);
    var believed := Effective(members, Pending(members, f, pairs), m);
    && (if q == [] then now == None && believed == None
        else now == Some(RunStart(q)) && believed == Some(q[|q| - 1]))
    && (Item(z, m) in Stale(members, f, pairs) <==> z in Left(q))
  }

  lemma LeftPush(q: seq<Score>, score: Score)
    ensures RunStart(q + [score]) == if q != [] && NumEq(q[|q| - 1], score) then RunStart(q) else score
    ensures q == [] ==> Left(q) == {}
    ensures Left(q + [score]) ==
            if q == [] then {}
            else if NumEq(q[|q| - 1], score) then Left(q)
            else Left(q) + {RunStart(q)} - {q[|q| - 1], score}
  {
    hide NumEq;
    assert (q + [score])[..|q|] == q;
  }

  lemma TrackedStep(members: Members, f: Flags, pairs: seq<(Score, Member)>, score: Score, m: Member, z: Score)
    requires Unflagged(members, f, m) && Tracked(members, f, pairs, m, z)
    ensures Tracked(members, f, pairs + [(score, m)], m, z)
  {
    hide NumEq, NumLess, Left, RunStart, Passes;
    var q := ScoresOf(members, pairs, m);
    FoldPush(members, f, pairs, (score, m));
    assert ScoresOf(members, pairs + [(score, m)], m) == q + [score];
    LeftPush(q, score);
    var believed := Effective(members, Pending(members, f, pairs), m);
    BeliefsAgree(members, f, pairs, m);
    PassesUnflagged(members, f, m, believed, score);
    AgreeDecides(f, believed, Get(AddAll(members, f, pairs), m), score);
  }

  lemma {:induction false} UnflaggedFold(members: Members, f: Flags, pairs: seq<(Score, Member)>, m: Member, z: Score)
    requires Unflagged(members, f, m)
    ensures Tracked(members, f, pairs, m, z)
    decreases |pairs|
  {
    if pairs == [] {
    } else {
      hide NumEq, NumLess, Left, RunStart, Passes, Writes, Unflagged, AddAll, Pending, Stale;
      var rest := pairs[..|pairs| - 1];
      var (score, who) := pairs[|pairs| - 1];
      assert rest + [(score, who)] == pairs;
      UnflaggedFold(members, f, rest, m, z);
      if who == m {
        TrackedStep(members, f, rest, score, m, z);
      } else {
        assert ScoresOf(members, pairs, m) == ScoresOf(members, rest, m);
        OthersKeep(members, f, rest, (score, who), m, z);
      }
    }
  }

  lemma PassesUnflagged(members: Members, f: Flags, m: Member, was: Option<Score>, score: Score)
    requires Unflagged(members, f, m) && (f.xx ==> was.Some?)
    ensures Passes(f, was, score)
  {
  }

  /** A pair for another member changes nothing about `m`. */
  lemma OthersKeep(members: Members, f: Flags, pairs: seq<(Score, Member)>, pair: (Score, Member), m: Member, z: Score)
    requires pair.1 != m
    ensures var more := pairs + [pair];
            && Get(AddAll(members, f, more), m) == Get(AddAll(members, f, pairs), m)
            && Effective(members, Pending(members, f, more), m) == Effective(members, Pending(members, f, pairs), m)
            && (Item(z, m) in Stale(members, f, more) <==> Item(z, m) in Stale(members, f, pairs))
  {
    hide Passes, Writes;
    FoldPush(members, f, pairs, pair);
  }

  /** With a flag a pair that passes always changes the number, so belief and store never part. */
  lemma {:induction false} FlaggedFold(members: Members, f: Flags, pairs: seq<(Score, Member)>, m: Member, z: Score)
    requires !Unflagged(members, f, m)
    ensures Effective(members, Pending(members, f, pairs), m) == Get(AddAll(members, f, pairs), m)
    ensures f.xx && m !in members ==> m !in AddAll(members, f, pairs)
    ensures Item(z, m) !in Stale(members, f, pairs)
    decreases |pairs|
  {
    if pairs != [] {
      var rest := pairs[..|pairs| - 1];
      var (score, who) := pairs[|pairs| - 1];
      FlaggedFold(members, f, rest, m, z);
      if who != m {
        assert rest + [(score, who)] == pairs;
        OthersKeep(members, f, rest, (score, who), m, z);
      }
    }
  }

  /** The exact condition: record (z, m) is left behind if no flag applies to `m` and its scores leave `z` behind. */
  lemma StaleIff(members: Members, f: Flags, pairs: seq<(Score, Member)>, m: Member, z: Score)
    ensures Item(z, m) in Stale(members, f, pairs) <==>
            Unflagged(members, f, m) && LeftBehind(ScoresOf(members, pairs, m), z)
  {
    if Unflagged(members, f, m) {
      UnflaggedFold(members, f, pairs, m, z);
      LeftIff(ScoresOf(members, pairs, m), z);
    } else {
      FlaggedFold(members, f, pairs, m, z);
    }
  }

  /** No member's scores leave a record behind. */
  ghost predicate LeavesNothing(members: Members, f: Flags, pairs: seq<(Score, Member)>) {
    forall m, z :: Unflagged(members, f, m) ==> !LeftBehind(ScoresOf(members, pairs, m), z)
  }

  lemma NothingStaleIff(members: Members, f: Flags, pairs: seq<(Score, Member)>)
    ensures Stale(members, f, pairs) == {} <==> LeavesNothing(members, f, pairs)
  {
    hide LeftBehind, ScoresOf, Stale;
    if Stale(members, f, pairs) == {} {
      forall m, z | Unflagged(members, f, m) ensures !LeftBehind(ScoresOf(members, pairs, m), z) {
        StaleIff(members, f, pairs, m, z);
      }
    }
    if LeavesNothing(members, f, pairs) {
      forall x ensures x !in Stale(members, f, pairs) {
        StaleIff(members, f, pairs, x.member, x.score);
      }
    }
  }
}
