/** JSON documents: reading, writing and removing at a path, and the JSON.SET command. */
module JsonTree {
  import opened Bytes
  import opened Utf8
  import opened JsonPath

  datatype Value =
    | Null
    | Bool(b: bool)
    | Number(text: Bytes)
    | String(s: Bytes)
    | Array(items: seq<Value>)
    | Object(members: map<Bytes, Value>)

  const EMPTY_OBJECT := Object(map[])

  /** One step down; a missing or mismatched step, a negative index and an invalid name lead nowhere. */
  function Child(v: Value, seg: Seg): Option<Value> {
    match seg
    case Field(name) =>
      if v.Object? && Valid(name) && name in v.members then Some(v.members[name]) else None
    case Index(at) =>
      if v.Array? && 0 <= at < |v.items| then Some(v.items[at]) else None
  }

  function GetAt(doc: Value, segs: seq<Seg>): Option<Value>
    decreases |segs|
  {
    if segs == [] then Some(doc)
    else
      var next := Child(doc, segs[0]);
      if next.None? then None else GetAt(next.value, segs[1..])
  }

  /** The read as a cursor moving down. */
  method ReadAt(doc: Value, segs: seq<Seg>) returns (r: Option<Value>)
    ensures r == GetAt(doc, segs)
  {
    var cur := doc;
    for i := 0 to |segs|
      invariant GetAt(doc, segs) == GetAt(cur, segs[i..])
    {
      assert segs[i..][1..] == segs[i + 1..];
      var next := Child(cur, segs[i]);
      if next.None? {
        return None;
      }
      cur := next.value;
    }
    assert segs[|segs|..] == [];
    r := Some(cur);
  }

  datatype SetResult = Fine | NotFound | WrongType

  /** The document with `child` at one step, which exists, is a missing field, or is the end of the array. */
  function WithChild(v: Value, seg: Seg, child: Value): Value {
    match seg
    case Field(name) => if v.Object? then Object(v.members[name := child]) else v
    case Index(at) =>
      if !v.Array? || at < 0 || at > |v.items| then v
      else if at == |v.items| then Array(v.items + [child])
      else Array(v.items[at := child])
  }

  /** The last step of a write. */
  function Place(v: Value, seg: Seg, child: Value): (Value, SetResult) {
    match seg
    case Field(name) =>
      if v.Object? && Valid(name) then (WithChild(v, seg, child), Fine) else (v, WrongType)
    case Index(at) =>
      if !v.Array? then (v, WrongType)
      else if at < 0 || at > |v.items| then (v, NotFound)
      else (WithChild(v, seg, child), Fine)
  }

  /** An inner step of a write: where it goes, creating an empty object under a missing field. */
  function Descend(v: Value, seg: Seg): (Option<Value>, SetResult) {
    match seg
    case Field(name) =>
      if !v.Object? || !Valid(name) then (None, WrongType)
      else (Some(if name in v.members then v.members[name] else EMPTY_OBJECT), Fine)
    case Index(at) =>
      if !v.Array? then (None, WrongType)
      else if 0 <= at < |v.items| then (Some(v.items[at]), Fine) else (None, NotFound)
  }

  /** The document after a write, also where it fails half way, and whether it succeeded. */
  function SetAt(doc: Value, segs: seq<Seg>, node: Value): (Value, SetResult)
    decreases |segs|
  {
    if segs == [] then (node, Fine)
    else if |segs| == 1 then Place(doc, segs[0], node)
    else
      var (child, result) := Descend(doc, segs[0]);
      if child.None? then (doc, result)
      else
        var (below, outcome) := SetAt(child.value, segs[1..], node);
        (WithChild(doc, segs[0], below), outcome)
  }

  /** A successful write is read back at its path. */
  lemma {:induction false} SetThenGet(doc: Value, segs: seq<Seg>, node: Value)
    requires SetAt(doc, segs, node).1 == Fine
    ensures GetAt(SetAt(doc, segs, node).0, segs) == Some(node)
    decreases |segs|
  {
    hide Valid;
    if |segs| == 1 {
      assert segs[1..] == [];
    } else if segs != [] {
      SetThenGet(Descend(doc, segs[0]).0.value, segs[1..], node);
    }
  }

  // Where a write can land.

  predicate ValidFields(segs: seq<Seg>) {
    forall seg <- segs :: seg.Field? && Valid(seg.name)
  }

  /** The path leaves the document at step `k`: from there on an object takes new fields, or an array one more element. */
  ghost predicate Extends(doc: Value, segs: seq<Seg>, k: nat) {
    k < |segs|
    && match GetAt(doc, segs[..k])
       case Some(Object(members)) => ValidFields(segs[k..]) && segs[k].name !in members
       case Some(Array(items)) => k == |segs| - 1 && segs[k] == Index(|items|)
       case _ => false
  }

  /** Step `k` asks an array for an element it neither has nor can take. */
  ghost predicate Misses(doc: Value, segs: seq<Seg>, k: nat) {
    k < |segs|
    && match GetAt(doc, segs[..k])
       case Some(Array(items)) =>
         segs[k].Index? && !(0 <= segs[k].at < |items|) && !(k == |segs| - 1 && segs[k].at == |items|)
       case _ => false
  }

  /** The path is there, or leaves the document where it can be extended. */
  ghost predicate Writable(doc: Value, segs: seq<Seg>) {
    GetAt(doc, segs).Some? || exists k: nat :: Extends(doc, segs, k)
  }

  ghost predicate OutOfRange(doc: Value, segs: seq<Seg>) {
    exists k: nat :: Misses(doc, segs, k)
  }

  /** Below an existing step both only concern what is there. */
  lemma WritableBelow(doc: Value, segs: seq<Seg>, child: Value)
    requires segs != [] && Child(doc, segs[0]) == Some(child)
    ensures Writable(doc, segs) <==> Writable(child, segs[1..])
    ensures OutOfRange(doc, segs) <==> OutOfRange(child, segs[1..])
  {
    hide Valid;
    var rest := segs[1..];
    forall k: nat | k < |rest|
      ensures Extends(doc, segs, k + 1) == Extends(child, rest, k) && Misses(doc, segs, k + 1) == Misses(child, rest, k)
    {
      assert segs[..k + 1][1..] == rest[..k] && segs[k + 1..] == rest[k..];
    }
    assert segs[..0] == [] && segs[0..] == segs;
    assert !Extends(doc, segs, 0) && !Misses(doc, segs, 0);
    if k: nat :| Extends(doc, segs, k) {
      assert Extends(child, rest, k - 1);
    }
    if k: nat :| Extends(child, rest, k) {
      assert Extends(doc, segs, k + 1);
    }
    if k: nat :| Misses(doc, segs, k) {
      assert Misses(child, rest, k - 1);
    }
    if k: nat :| Misses(child, rest, k) {
      assert Misses(doc, segs, k + 1);
    }
  }

  /** Where the first step leads nowhere, only that step counts. */
  lemma WritableHere(doc: Value, segs: seq<Seg>)
    requires segs != [] && Child(doc, segs[0]).None?
    ensures Writable(doc, segs) <==> Extends(doc, segs, 0)
    ensures OutOfRange(doc, segs) <==> Misses(doc, segs, 0)
  {
    hide Valid;
    forall k: nat | 0 < k <= |segs| ensures GetAt(doc, segs[..k]).None? {
      assert segs[..k][0] == segs[0];
    }
    assert segs[..|segs|] == segs;
  }

  /** A new object takes any path of fields and nothing else. */
  lemma {:induction false} CreatesFields(segs: seq<Seg>, node: Value)
    requires segs != []
    ensures SetAt(EMPTY_OBJECT, segs, node).1 == if ValidFields(segs) then Fine else WrongType
    decreases |segs|
  {
    hide Valid;
    assert segs == [segs[0]] + segs[1..];
    if |segs| > 1 {
      CreatesFields(segs[1..], node);
    }
  }

  /** A write succeeds exactly where the path is there or can be extended, and misses exactly at an array. */
  lemma {:induction false} SetOutcome(doc: Value, segs: seq<Seg>, node: Value)
    ensures SetAt(doc, segs, node).1 ==
            if Writable(doc, segs) then Fine else if OutOfRange(doc, segs) then NotFound else WrongType
    decreases |segs|
  {
    hide Valid, Extends, Misses, Writable, OutOfRange;
    if segs == [] {
      assert Writable(doc, segs) by { RootWritable(doc); }
    } else {
      var child := Child(doc, segs[0]);
      if child.Some? {
        WritableBelow(doc, segs, child.value);
        SetOutcome(child.value, segs[1..], node);
        assert |segs| == 1 ==> segs[1..] == [];
      } else {
        WritableHere(doc, segs);
        SetFromHere(doc, segs, node);
      }
    }
  }

  lemma RootWritable(doc: Value)
    ensures Writable(doc, [])
  {
  }

  lemma SetFromHere(doc: Value, segs: seq<Seg>, node: Value)
    requires segs != [] && Child(doc, segs[0]).None?
    ensures SetAt(doc, segs, node).1 ==
            if Extends(doc, segs, 0) then Fine else if Misses(doc, segs, 0) then NotFound else WrongType
  {
    hide Valid;
    assert segs[..0] == [] && segs[0..] == segs && segs == [segs[0]] + segs[1..];
    if |segs| > 1 {
      CreatesFields(segs[1..], node);
    }
  }

  /** A new object is built around a path into a missing field. */
  lemma CreatedExample(a: Bytes, b: Bytes, node: Value)
    requires Valid(a) && Valid(b)
    ensures SetAt(EMPTY_OBJECT, [Field(a), Field(b)], node) == (Object(map[a := Object(map[b := node])]), Fine)
  {
    hide Valid;
    assert [Field(a), Field(b)][1..] == [Field(b)];
  }

  /** Two paths that part ways: neither is a prefix of the other. */
  predicate Diverge(p: seq<Seg>, q: seq<Seg>) {
    !(p <= q) && !(q <= p)
  }

  lemma DivergeTail(p: seq<Seg>, q: seq<Seg>)
    requires Diverge(p, q)
    ensures p != [] && q != []
    ensures p[0] == q[0] ==> Diverge(p[1..], q[1..])
  {
    if p[0] == q[0] {
      assert p == [p[0]] + p[1..] && q == [q[0]] + q[1..];
    }
  }

  /** A step to one side does not see a change to the other. */
  lemma OtherChild(v: Value, seg: Seg, child: Value, other: Seg)
    requires seg != other
    ensures Child(WithChild(v, seg, child), other) == Child(v, other)
  {
    hide Valid;
  }

  /** A write, successful or not, leaves every diverging path as it was. */
  lemma {:induction false} SetKeepsDiverging(doc: Value, segs: seq<Seg>, node: Value, q: seq<Seg>)
    requires Diverge(segs, q)
    ensures GetAt(SetAt(doc, segs, node).0, q) == GetAt(doc, q)
    decreases |segs|
  {
    hide Valid;
    DivergeTail(segs, q);
    var seg := segs[0];
    if |segs| == 1 {
      assert segs[1..] == [];
      OtherChild(doc, seg, node, q[0]);
    } else {
      var (child, _) := Descend(doc, seg);
      if child.Some? {
        var below := SetAt(child.value, segs[1..], node).0;
        if seg != q[0] {
          OtherChild(doc, seg, below, q[0]);
        } else {
          SetKeepsDiverging(child.value, segs[1..], node, q[1..]);
          DivergeTail(segs[1..], q[1..]);
        }
      }
    }
  }

  /** Wherever something can be read, it can be overwritten. */
  lemma {:induction false} SetWhereReadable(doc: Value, segs: seq<Seg>, node: Value)
    requires GetAt(doc, segs).Some?
    ensures SetAt(doc, segs, node).1 == Fine
    decreases |segs|
  {
    hide Valid;
    if |segs| == 1 {
    } else if segs != [] {
      SetWhereReadable(Child(doc, segs[0]).value, segs[1..], node);
    }
  }

  // Removal.

  /** The last step of a removal; an invalid name is looked up as the empty one. */
  function Drop(v: Value, seg: Seg): (Value, bool) {
    match seg
    case Field(name) =>
      var key := if Valid(name) then name else [];
      if v.Object? && key in v.members then (Object(v.members - {key}), true) else (v, false)
    case Index(at) =>
      if v.Array? && 0 <= at < |v.items| then (Array(v.items[..at] + v.items[at + 1..]), true) else (v, false)
  }

  function RemoveAt(doc: Value, segs: seq<Seg>): (Value, bool)
    decreases |segs|
  {
    if segs == [] then (doc, false)
    else if |segs| == 1 then Drop(doc, segs[0])
    else
      var child := Child(doc, segs[0]);
      if child.None? then (doc, false)
      else
        var (below, removed) := RemoveAt(child.value, segs[1..]);
        (if removed then WithChild(doc, segs[0], below) else doc, removed)
  }

  /** The path with an invalid last name replaced by the empty name, which is what removal looks up. */
  function Target(segs: seq<Seg>): seq<Seg>
    requires segs != []
  {
    var last := segs[|segs| - 1];
    if last.Field? && !Valid(last.name) then segs[..|segs| - 1] + [Field([])] else segs
  }

  lemma TargetTail(segs: seq<Seg>)
    requires |segs| > 1
    ensures Target(segs)[0] == segs[0] && Target(segs)[1..] == Target(segs[1..])
  {
    var last := segs[|segs| - 1];
    assert segs[1..][..|segs| - 2] == segs[..|segs| - 1][1..];
    if last.Field? && !Valid(last.name) {
      assert Target(segs)[1..] == segs[..|segs| - 1][1..] + [Field([])];
    }
  }

  /** Something is removed exactly when the looked-up path reads something; otherwise nothing changes. */
  lemma {:induction false} RemovesIffPresent(doc: Value, segs: seq<Seg>)
    requires segs != []
    ensures RemoveAt(doc, segs).1 <==> GetAt(doc, Target(segs)).Some?
    ensures !RemoveAt(doc, segs).1 ==> RemoveAt(doc, segs).0 == doc
    decreases |segs|
  {
    if |segs| == 1 {
      assert Target(segs)[1..] == [];
      assert Valid([]);
    } else {
      TargetTail(segs);
      var child := Child(doc, segs[0]);
      if child.Some? {
        RemovesIffPresent(child.value, segs[1..]);
      }
    }
  }

  /** Removal does what the path says exactly when its last name is valid UTF-8 or the parent has no empty name. */
  lemma RemovesWhatIsNamedIff(doc: Value, segs: seq<Seg>)
    requires segs != []
    ensures (RemoveAt(doc, segs).1 <==> GetAt(doc, segs).Some?) <==>
            (Target(segs) == segs || GetAt(doc, Target(segs)).None?)
  {
    RemovesIffPresent(doc, segs);
    if Target(segs) != segs {
      InvalidLastIsAbsent(doc, segs);
    }
  }

  /** A name that is no UTF-8 removes the member with the empty name. */
  lemma InvalidNameExample()
    ensures var doc, segs := Object(map[[] := Null]), [Field([0xFF])];
            GetAt(doc, segs) == None && RemoveAt(doc, segs) == (EMPTY_OBJECT, true)
  {
    var members: map<Bytes, Value> := map[[] := Null];
    assert members - {[]} == map[];
  }

  lemma {:induction false} InvalidLastIsAbsent(doc: Value, segs: seq<Seg>)
    requires segs != [] && segs[|segs| - 1].Field? && !Valid(segs[|segs| - 1].name)
    ensures GetAt(doc, segs).None?
    decreases |segs|
  {
    if |segs| > 1 && Child(doc, segs[0]).Some? {
      InvalidLastIsAbsent(Child(doc, segs[0]).value, segs[1..]);
    }
  }

  /** Removing a field takes away that path and no diverging one. */
  lemma {:induction false} RemoveFieldKeepsOthers(doc: Value, segs: seq<Seg>, q: seq<Seg>)
    requires segs != [] && segs[|segs| - 1].Field? && Valid(segs[|segs| - 1].name)
    ensures RemoveAt(doc, segs).1 ==> GetAt(RemoveAt(doc, segs).0, segs).None?
    ensures Diverge(segs, q) ==> GetAt(RemoveAt(doc, segs).0, q) == GetAt(doc, q)
    decreases |segs|
  {
    hide Valid;
    if Diverge(segs, q) {
      DivergeTail(segs, q);
    }
    if |segs| == 1 {
      assert segs[1..] == [];
    } else {
      var seg, child := segs[0], Child(doc, segs[0]);
      if child.Some? {
        var (below, removed) := RemoveAt(child.value, segs[1..]);
        RemoveFieldKeepsOthers(child.value, segs[1..], if q == [] then [] else q[1..]);
        if removed && q != [] && q[0] != seg {
          OtherChild(doc, seg, below, q[0]);
        }
      }
    }
  }

  /** Where an element of the array at `head` is found after element `at` is gone. */
  function Shifted(at: int, j: int): int {
    if j < at then j else j + 1
  }

  /** Removing an array element shifts exactly the later ones down by one. */
  lemma {:induction false} RemoveIndexShifts(doc: Value, head: seq<Seg>, at: int, j: int, tail: seq<Seg>)
    requires RemoveAt(doc, head + [Index(at)]).1
    requires j >= 0
    ensures GetAt(RemoveAt(doc, head + [Index(at)]).0, head + [Index(j)] + tail)
         == GetAt(doc, head + [Index(Shifted(at, j))] + tail)
    decreases |head|
  {
    hide Valid;
    var segs := head + [Index(at)];
    var p, q := head + [Index(j)] + tail, head + [Index(Shifted(at, j))] + tail;
    if head == [] {
      assert p[1..] == tail && q[1..] == tail;
      var items := doc.items;
      var rest := items[..at] + items[at + 1..];
      assert forall k :: 0 <= k < |rest| ==> rest[k] == items[Shifted(at, k)];
    } else {
      assert segs[1..] == head[1..] + [Index(at)];
      assert p[1..] == head[1..] + [Index(j)] + tail;
      assert q[1..] == head[1..] + [Index(Shifted(at, j))] + tail;
      RemoveIndexShifts(Child(doc, head[0]).value, head[1..], at, j, tail);
    }
  }

  /** ... and leaves every path alone that does not go through that array. */
  lemma {:induction false} RemoveIndexKeepsOutside(doc: Value, head: seq<Seg>, at: int, q: seq<Seg>)
    requires Diverge(head, q)
    ensures GetAt(RemoveAt(doc, head + [Index(at)]).0, q) == GetAt(doc, q)
    decreases |head|
  {
    hide Valid;
    DivergeTail(head, q);
    var segs := head + [Index(at)];
    assert segs[1..] == head[1..] + [Index(at)];
    var child := Child(doc, head[0]);
    if child.Some? {
      var (below, removed) := RemoveAt(child.value, segs[1..]);
      if removed {
        if head[0] != q[0] {
          OtherChild(doc, head[0], below, q[0]);
        } else {
          RemoveIndexKeepsOutside(child.value, head[1..], at, q[1..]);
        }
      }
    }
  }

  // JSON.SET.

  datatype State = Missing | OtherType | Doc(expire: nat, doc: Value)

  datatype Reply = Okay | Nothing | WrongKind | BadPath | BadJson | NoSuchPath(path: Bytes) | WrongPathType

  /** What JSON.SET promises of a stored document. */
  ghost predicate SetSpec(before: State, arg: Bytes, parsed: Option<Value>, nx: bool, xx: bool, after: State, reply: Reply) {
    if reply != Okay then after == before
    else
      && Path(arg).Some? && parsed.Some? && !before.OtherType?
      && !(nx && before.Doc?) && !(xx && before.Missing?)
      && after == Doc(if before.Doc? then before.expire else 0,
                      SetAt(if before.Doc? then before.doc else Null, Path(arg).value, parsed.value).0)
      && SetAt(if before.Doc? then before.doc else Null, Path(arg).value, parsed.value).1 == Fine
      && GetAt(after.doc, Path(arg).value) == parsed
  }

  /** The reply, from the state, the path and the options; a missing key holds no container. */
  ghost function Decided(before: State, path: Option<seq<Seg>>, json: bool, nx: bool, xx: bool): Reply {
    if path.None? then BadPath
    else if !json then BadJson
    else if before.OtherType? then WrongKind
    else if (before.Missing? && xx) || (before.Doc? && nx) then Nothing
    else
      var doc := if before.Doc? then before.doc else Null;
      if Writable(doc, path.value) then Okay
      else if OutOfRange(doc, path.value) then NoSuchPath(Display(path.value))
      else WrongPathType
  }

  class JsonKey {
    var state: State

    constructor ()
      ensures state == Missing
    {
      state := Missing;
    }

    /** JSON.SET: writes the whole new document or nothing at all. */
    method Set(arg: Bytes, parsed: Option<Value>, nx: bool, xx: bool) returns (reply: Reply)
      modifies this
      ensures SetSpec(old(state), arg, parsed, nx, xx, state, reply)
      ensures reply == Okay <==>
              && Path(arg).Some? && parsed.Some? && !old(state).OtherType?
              && !(nx && old(state).Doc?) && !(xx && old(state).Missing?)
              && Writable(if old(state).Doc? then old(state).doc else Null, Path(arg).value)
      ensures reply == Okay ==> state.Doc? && state.expire == if old(state).Doc? then old(state).expire else 0
      ensures reply == Decided(old(state), Path(arg), parsed.Some?, nx, xx)
    {
      hide SetAt, GetAt, Path, Display, Writable, OutOfRange;
      var segs := ParsePath(arg);
      if segs.None? {
        return BadPath;
      }
      if parsed.None? {
        return BadJson;
      }
      if state.OtherType? {
        return WrongKind;
      }
      if (state.Missing? && xx) || (state.Doc? && nx) {
        return Nothing;
      }
      var doc := if state.Doc? then state.doc else Null;
      var (next, result) := SetAt(doc, segs.value, parsed.value);
      SetOutcome(doc, segs.value, parsed.value);
      if result == NotFound {
        var text := PathDisplay(segs.value);
        return NoSuchPath(text);
      }
      if result == WrongType {
        return WrongPathType;
      }
      SetThenGet(doc, segs.value, parsed.value);
      state := Doc(if state.Doc? then state.expire else 0, next);
      reply := Okay;
    }
  }

  /** Reading along a path is reading along its front, then along the rest from there. */
  lemma {:induction false} GetConcat(doc: Value, p: seq<Seg>, q: seq<Seg>)
    ensures GetAt(doc, p + q) == match GetAt(doc, p) case None => None case Some(v) => GetAt(v, q)
    ensures GetAt(doc, []) == Some(doc)
    decreases |p|
  {
    hide Valid;
    if p == [] {
      assert p + q == q;
    } else {
      assert (p + q)[0] == p[0] && (p + q)[1..] == p[1..] + q;
      if Child(doc, p[0]).Some? {
        GetConcat(Child(doc, p[0]).value, p[1..], q);
      }
    }
  }

  /** One step reads a member by its valid name or an item by its position from the front. */
  lemma GetOne(members: map<Bytes, Value>, items: seq<Value>, name: Bytes, at: int)
    ensures GetAt(Object(members), [Field(name)]) == if name in members && Valid(name) then Some(members[name]) else None
    ensures GetAt(Array(items), [Index(at)]) == if 0 <= at < |items| then Some(items[at]) else None
    ensures GetAt(Object(members), [Index(at)]) == None && GetAt(Array(items), [Field(name)]) == None
  {
    hide Valid;
    assert [Field(name)][1..] == [] && [Index(at)][1..] == [];
  }
}
