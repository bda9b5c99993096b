/**
 * BLMOVE/BRPOPLPUSH as two separate commits, interleaved with any other clients: the blocked pop off
 * the source, later the push onto the destination, or back onto the source when the destination has
 * meanwhile become another type.
 */
module BlockMove {
  import opened Bytes
  import opened ListStore
  import opened ListSpec
  import opened ListDb
  import opened ListEnds
  import opened ListMove

  /** Keys are the positions of the run's key universe. */
  datatype Plan = Plan(src: nat, dst: nat, popLeft: bool, pushLeft: bool)

  datatype Phase =
    | Waiting(p: Plan)
    | InFlight(p: Plan, e: Elem)
    | Landed(p: Plan, e: Elem)
    | Restored(p: Plan, e: Elem)
    | Dropped(p: Plan, e: Elem)
    | TurnedAway(p: Plan)

  datatype World = World(views: seq<View>, movers: seq<Phase>)

  datatype Step =
    | Pop(id: nat)
    | Push(id: nat)
    | OtherPush(key: nat, es: seq<Elem>, left: bool, create: bool)
    | OtherPop(key: nat, left: bool, count: Option<nat>)
    | OtherMove(src: nat, dst: nat, popLeft: bool, pushLeft: bool)
    | Others(views: seq<View>) // any other commit, or an expiry: any change of the keys

  ghost predicate Sound(w: World) {
    && (forall k :: 0 <= k < |w.views| ==> (w.views[k].List? ==> w.views[k].elems != []))
    && (forall i :: 0 <= i < |w.movers| ==> w.movers[i].p.src < |w.views| && w.movers[i].p.dst < |w.views|)
  }

  ghost predicate Enabled(w: World, a: Step) {
    match a
    case Pop(id) => id < |w.movers| && w.movers[id].Waiting?
                    && w.movers[id].p.src < |w.views| && !w.views[w.movers[id].p.src].Absent?
    case Push(id) => id < |w.movers| && w.movers[id].InFlight?
    case OtherPush(key, es, _, _) => key < |w.views| && es != []
    case OtherPop(key, _, _) => key < |w.views|
    case OtherMove(src, dst, _, _) => src < |w.views| && dst < |w.views|
    case Others(views) => |views| == |w.views|
                          && forall k :: 0 <= k < |views| ==> (views[k].List? ==> views[k].elems != [])
  }

  ghost function Next(w: World, a: Step): World
    requires Sound(w) && Enabled(w, a)
  {
    match a
    case Pop(id) =>
      var p := w.movers[id].p;
      var v := w.views[p.src];
      if v.OtherType? then w.(movers := w.movers[id := TurnedAway(p)])
      else
        var (rest, popped) := PopSpec(v, p.popLeft, None);
        World(w.views[p.src := rest], w.movers[id := InFlight(p, popped.value[0])])
    case Push(id) =>
      var p, e := w.movers[id].p, w.movers[id].e;
      if !w.views[p.dst].OtherType? then
        World(w.views[p.dst := PushSpec(w.views[p.dst], [e], p.pushLeft, true).0], w.movers[id := Landed(p, e)])
      else if !w.views[p.src].OtherType? then
        World(w.views[p.src := PushSpec(w.views[p.src], [e], p.popLeft, true).0], w.movers[id := Restored(p, e)])
      else
        // the source changed type too: there is no list to restore onto
        w.(movers := w.movers[id := Dropped(p, e)])
    case OtherPush(key, es, left, create) =>
      w.(views := w.views[key := PushSpec(w.views[key], es, left, create).0])
    case OtherPop(key, left, count) =>
      w.(views := w.views[key := PopSpec(w.views[key], left, count).0])
    case OtherMove(src, dst, popLeft, pushLeft) =>
      var (src', dst', _) := MoveSpec(w.views[src], w.views[dst], src == dst, popLeft, pushLeft);
      w.(views := w.views[src := src'][dst := dst'])
    case Others(views) => w.(views := views)
  }

  // ---- the ledger, kept for each element `x` ----

  ghost function Listed(vs: seq<View>, x: Elem): nat {
    if vs == [] then 0 else Listed(vs[..|vs| - 1], x) + Contents(vs[|vs| - 1])[x]
  }

  ghost function FlightOf(m: Phase, x: Elem): nat {
    if m.InFlight? && m.e == x then 1 else 0
  }

  ghost function LossOf(m: Phase, x: Elem): nat {
    if m.Dropped? && m.e == x then 1 else 0
  }

  ghost function Flying(ms: seq<Phase>, x: Elem): nat {
    if ms == [] then 0 else Flying(ms[..|ms| - 1], x) + FlightOf(ms[|ms| - 1], x)
  }

  ghost function Lost(ms: seq<Phase>, x: Elem): nat {
    if ms == [] then 0 else Lost(ms[..|ms| - 1], x) + LossOf(ms[|ms| - 1], x)
  }

  lemma {:induction false} ListedUpdate(vs: seq<View>, k: nat, v: View, x: Elem)
    requires k < |vs|
    ensures Listed(vs[k := v], x) == Listed(vs, x) - Contents(vs[k])[x] + Contents(v)[x]
    decreases |vs|
  {
    hide Contents;
    var n := |vs| - 1;
    if k == n {
      assert vs[k := v][..n] == vs[..n];
    } else {
      assert vs[k := v][..n] == vs[..n][k := v];
      ListedUpdate(vs[..n], k, v, x);
    }
  }

  lemma {:induction false} MoverUpdate(ms: seq<Phase>, i: nat, m: Phase, x: Elem)
    requires i < |ms|
    ensures Flying(ms[i := m], x) == Flying(ms, x) - FlightOf(ms[i], x) + FlightOf(m, x)
    ensures Lost(ms[i := m], x) == Lost(ms, x) - LossOf(ms[i], x) + LossOf(m, x)
    decreases |ms|
  {
    hide FlightOf, LossOf;
    var n := |ms| - 1;
    if i == n {
      assert ms[i := m][..n] == ms[..n];
    } else {
      assert ms[i := m][..n] == ms[..n][i := m];
      MoverUpdate(ms[..n], i, m, x);
    }
  }

  /** Copies of `x` held by some list or in flight between a mover's two commits. */
  ghost function Stock(w: World, x: Elem): nat {
    Listed(w.views, x) + Flying(w.movers, x)
  }

  /** Copies that another client's step brings in: the arguments of a push that is not refused. */
  ghost function Brought(w: World, a: Step, x: Elem): nat
    requires Enabled(w, a)
  {
    match a
    case OtherPush(key, es, _, create) =>
      if w.views[key].List? || (w.views[key].Absent? && create) then multiset(es)[x] else 0
    case Others(views) => Excess(Listed(views, x), Listed(w.views, x))
    case _ => 0
  }

  /** Copies that another client's step takes out: the reply of a pop. */
  ghost function TakenOut(w: World, a: Step, x: Elem): nat
    requires Sound(w) && Enabled(w, a)
  {
    match a
    case OtherPop(key, left, count) =>
      var popped := PopSpec(w.views[key], left, count).1;
      if popped.Some? then multiset(popped.value)[x] else 0
    case Others(views) => Excess(Listed(w.views, x), Listed(views, x))
    case _ => 0
  }

  ghost function Excess(a: nat, b: nat): nat {
    if a > b then a - b else 0
  }

  lemma SoundKept(w: World, a: Step)
    requires Sound(w) && Enabled(w, a)
    ensures Sound(Next(w, a))
  {
  }

  lemma PopKeepsStock(w: World, id: nat, x: Elem)
    requires Sound(w) && Enabled(w, Pop(id))
    ensures Stock(Next(w, Pop(id)), x) == Stock(w, x)
    ensures Lost(Next(w, Pop(id)).movers, x) == Lost(w.movers, x)
  {
    hide Listed, Flying, Lost, Taken, Remaining;
    var p := w.movers[id].p;
    var v := w.views[p.src];
    if v.OtherType? {
      MoverUpdate(w.movers, id, TurnedAway(p), x);
    } else {
      var rest, e := PopSpec(v, p.popLeft, None).0, PopSpec(v, p.popLeft, None).1.value[0];
      TakenIsGone(v.elems, p.popLeft);
      assert Contents(v) == Contents(rest) + multiset{e};
      ListedUpdate(w.views, p.src, rest, x);
      MoverUpdate(w.movers, id, InFlight(p, e), x);
    }
  }

  lemma PushGrows(v: View, e: Elem, left: bool)
    requires !v.OtherType?
    ensures Contents(PushSpec(v, [e], left, true).0) == Contents(v) + multiset{e}
  {
    hide Pushed;
    PushedAdds(if v.List? then v.elems else [], e, left);
  }

  /** Pushing `e` onto key `k` while mover `id` leaves its flight. */
  lemma LandingKeepsStock(w: World, id: nat, k: nat, v: View, m: Phase, x: Elem)
    requires id < |w.movers| && w.movers[id].InFlight? && k < |w.views|
    requires Contents(v) == Contents(w.views[k]) + multiset{w.movers[id].e}
    requires m.Landed? || m.Restored?
    ensures Stock(World(w.views[k := v], w.movers[id := m]), x) == Stock(w, x)
    ensures Lost(w.movers[id := m], x) == Lost(w.movers, x)
  {
    hide Listed, Flying, Lost, Contents;
    ListedUpdate(w.views, k, v, x);
    MoverUpdate(w.movers, id, m, x);
  }

  lemma PushKeepsStock(w: World, id: nat, x: Elem)
    requires Sound(w) && Enabled(w, Push(id))
    ensures Stock(Next(w, Push(id)), x) + Lost(Next(w, Push(id)).movers, x) == Stock(w, x) + Lost(w.movers, x)
  {
    hide Listed, Flying, Lost, PushSpec, Contents;
    var p, e := w.movers[id].p, w.movers[id].e;
    if !w.views[p.dst].OtherType? {
      PushGrows(w.views[p.dst], e, p.pushLeft);
      LandingKeepsStock(w, id, p.dst, PushSpec(w.views[p.dst], [e], p.pushLeft, true).0, Landed(p, e), x);
    } else if !w.views[p.src].OtherType? {
      PushGrows(w.views[p.src], e, p.popLeft);
      LandingKeepsStock(w, id, p.src, PushSpec(w.views[p.src], [e], p.popLeft, true).0, Restored(p, e), x);
    } else {
      MoverUpdate(w.movers, id, Dropped(p, e), x);
    }
  }

  lemma PushAdds(v: View, es: seq<Elem>, left: bool, create: bool)
    ensures Contents(PushSpec(v, es, left, create).0) ==
            Contents(v) + if v.List? || (v.Absent? && create) then multiset(es) else multiset{}
  {
    ReversedBag(es);
  }

  lemma {:induction false} ReversedBag(es: seq<Elem>)
    ensures multiset(Reversed(es)) == multiset(es)
    decreases |es|
  {
    if es != [] {
      ReversedBag(es[1..]);
      assert es == [es[0]] + es[1..];
      assert Reversed(es) == Reversed(es[1..]) + [es[0]];
    }
  }

  lemma PopTakes(v: View, left: bool, count: Option<nat>)
    requires v.List? ==> v.elems != []
    ensures var (rest, popped) := PopSpec(v, left, count);
            Contents(v) == Contents(rest) + if popped.Some? then multiset(popped.value) else multiset{}
  {
    if v.List? {
      var xs, n := v.elems, PopCount(count, |v.elems|);
      CutBag(xs, if left then n else |xs| - n);
      if !left {
        ReversedBag(xs[|xs| - n..]);
      }
    }
  }

  lemma CutBag(xs: seq<Elem>, n: nat)
    requires n <= |xs|
    ensures multiset(xs) == multiset(xs[..n]) + multiset(xs[n..])
  {
    assert xs == xs[..n] + xs[n..];
  }

  /** A push, pop or move of another client changes the lists by what it was given or replied. */
  lemma OtherConserves(w: World, a: Step, x: Elem)
    requires Sound(w) && Enabled(w, a) && !a.Pop? && !a.Push?
    ensures Listed(Next(w, a).views, x) + TakenOut(w, a, x) == Listed(w.views, x) + Brought(w, a, x)
  {
    hide Listed, PushSpec, PopSpec, MoveSpec, Contents;
    match a {
      case OtherPush(key, es, left, create) =>
        PushAdds(w.views[key], es, left, create);
        ListedUpdate(w.views, key, PushSpec(w.views[key], es, left, create).0, x);
      case OtherPop(key, left, count) =>
        PopTakes(w.views[key], left, count);
        ListedUpdate(w.views, key, PopSpec(w.views[key], left, count).0, x);
      case OtherMove(src, dst, popLeft, pushLeft) =>
        MoveKeepsListed(w.views, src, dst, popLeft, pushLeft, x);
      case Others(views) =>
    }
  }

  lemma MoveKeepsListed(vs: seq<View>, src: nat, dst: nat, popLeft: bool, pushLeft: bool, x: Elem)
    requires src < |vs| && dst < |vs| && (vs[src].List? ==> vs[src].elems != [])
    ensures var (src', dst', _) := MoveSpec(vs[src], vs[dst], src == dst, popLeft, pushLeft);
            Listed(vs[src := src'][dst := dst'], x) == Listed(vs, x)
  {
    hide Listed, MoveSpec, Contents;
    var (src', dst', _) := MoveSpec(vs[src], vs[dst], src == dst, popLeft, pushLeft);
    ListedUpdate(vs, src, src', x);
    ListedUpdate(vs[src := src'], dst, dst', x);
    if src == dst {
      TurnKeeps(vs[src], popLeft, pushLeft);
    } else {
      MoveConserves(vs[src], vs[dst], popLeft, pushLeft);
      assert (Contents(src') + Contents(dst'))[x] == (Contents(vs[src]) + Contents(vs[dst]))[x];
    }
  }

  lemma TurnKeeps(v: View, popLeft: bool, pushLeft: bool)
    requires v.List? ==> v.elems != []
    ensures var (src', dst', _) := MoveSpec(v, v, true, popLeft, pushLeft);
            src' == dst' && Contents(src') == Contents(v)
  {
    hide Pushed, Taken, Remaining;
    if v.List? {
      TakenIsGone(v.elems, popLeft);
      PushedAdds(Remaining(v.elems, popLeft, 1), Taken(v.elems, popLeft, 1)[0], pushLeft);
    }
  }

  /** One step: what was there plus what others brought is what is there plus what others took. */
  lemma StepConserves(w: World, a: Step, x: Elem)
    requires Sound(w) && Enabled(w, a)
    ensures var w' := Next(w, a);
            Stock(w', x) + Lost(w'.movers, x) + TakenOut(w, a, x) == Stock(w, x) + Lost(w.movers, x) + Brought(w, a, x)
  {
    match a {
      case Pop(id) => PopKeepsStock(w, id, x);
      case Push(id) => PushKeepsStock(w, id, x);
      case _ => OtherConserves(w, a, x);
    }
  }

  /**
   * With nothing in between, the two commits are LMOVE, except for a single element moved onto its
   * own list: there they lose the list's deadline, which LMOVE keeps.
   */
  lemma UninterruptedMoveIff(w: World, id: nat)
    requires Sound(w) && Enabled(w, Pop(id))
    requires w.views[w.movers[id].p.src].List? && !w.views[w.movers[id].p.dst].OtherType?
    ensures Sound(Next(w, Pop(id))) && Enabled(Next(w, Pop(id)), Push(id))
    ensures MovedAsOne(w, Next(w, Pop(id)), Next(Next(w, Pop(id)), Push(id)), id) <==>
            var p := w.movers[id].p;
            p.src != p.dst || |w.views[p.src].elems| > 1 || w.views[p.src].expire == 0
  {
    hide Taken, Pushed, Remaining;
    SoundKept(w, Pop(id));
    var p := w.movers[id].p;
    Rest(w.views[p.src].elems, p.popLeft);
    var (src', dst', reply) := MoveSpec(w.views[p.src], w.views[p.dst], p.src == p.dst, p.popLeft, p.pushLeft);
    var w2 := Next(Next(w, Pop(id)), Push(id));
    var rest := PopSpec(w.views[p.src], p.popLeft, None).0;
    assert w2.views == w.views[p.src := rest][p.dst := w2.views[p.dst]];
    assert p.src == p.dst ==> w2.views == w.views[p.src := w2.views[p.dst]];
    assert p.src == p.dst ==> w.views[p.src := src'][p.dst := dst'] == w.views[p.src := dst'];
    assert w.views[p.src := src'][p.dst := dst'][p.dst] == dst';
  }

  /** Both keys are as one LMOVE leaves them, every other key as it was, and the element is LMOVE's reply. */
  ghost predicate MovedAsOne(w: World, w1: World, w2: World, id: nat)
    requires Sound(w) && id < |w.movers| && id < |w1.movers| && |w2.views| == |w.views|
  {
    var p := w.movers[id].p;
    var (src', dst', reply) := MoveSpec(w.views[p.src], w.views[p.dst], p.src == p.dst, p.popLeft, p.pushLeft);
    && w2.views == w.views[p.src := src'][p.dst := dst']
    && w1.movers[id].InFlight? && reply == Bulk(w1.movers[id].e)
  }

  /** A pop that is refused its destination puts the list back, but for the deadline of a single element. */
  lemma RefusedMoveRestores(w: World, id: nat)
    requires Sound(w) && Enabled(w, Pop(id))
    ensures var p := w.movers[id].p;
            var src := w.views[p.src];
            src.List? && w.views[p.dst].OtherType? ==>
              var w1 := Next(w, Pop(id));
              && Enabled(w1, Push(id)) && Sound(w1)
              && var w2 := Next(w1, Push(id));
                 && w2.movers[id].Restored?
                 && w2.views == w.views[p.src := List(src.elems, if |src.elems| == 1 then 0 else src.expire)]
  {
    hide PopSpec, PushSpec;
    SoundKept(w, Pop(id));
    var p := w.movers[id].p;
    var v := w.views[p.src];
    if v.List? {
      PopThenPush(v.elems, v.expire, p.popLeft);
    }
  }

  lemma PopThenPush(xs: seq<Elem>, expire: nat, left: bool)
    requires xs != []
    ensures var (rest, popped) := PopSpec(List(xs, expire), left, None);
            && popped.Some? && |popped.value| == 1 && !rest.OtherType?
            && PushSpec(rest, [popped.value[0]], left, true).0 == List(xs, if |xs| == 1 then 0 else expire)
  {
    hide Taken, Remaining, Pushed;
    RestoreUndoesPop(xs, expire, left);
    var popped := PopSpec(List(xs, expire), left, None).1;
    assert popped.value == [popped.value[0]];
  }

  /** Where the second commit puts its element, and what becomes of the mover. */
  lemma PushStepMeaning(w: World, id: nat)
    requires Sound(w) && Enabled(w, Push(id))
    ensures var (p, e) := (w.movers[id].p, w.movers[id].e);
            var w' := Next(w, Push(id));
            && (w'.movers == w.movers[id := if !w.views[p.dst].OtherType? then Landed(p, e)
                                            else if !w.views[p.src].OtherType? then Restored(p, e) else Dropped(p, e)])
            && (w'.movers[id].Landed? ==> w'.views == w.views[p.dst := Joined(w.views[p.dst], e, p.pushLeft)])
            && (w'.movers[id].Restored? ==> w'.views == w.views[p.src := Joined(w.views[p.src], e, p.popLeft)])
            && (w'.movers[id].Dropped? ==> w'.views == w.views)
  {
    var p, e := w.movers[id].p, w.movers[id].e;
    assert Reversed([e]) == [e];
    assert [e] + [] == [e] && [] + [e] == [e];
  }

  /** A list with one more element at its left or right end. */
  function Joined(v: View, e: Elem, left: bool): View {
    match v
    case List(xs, expire) => List(if left then [e] + xs else xs + [e], expire)
    case _ => List([e], 0)
  }

  lemma Rest(xs: seq<Elem>, left: bool)
    requires xs != []
    ensures |Remaining(xs, left, 1)| == |xs| - 1
  {
  }

  // ---- whole runs ----

  ghost predicate IsRun(run: seq<World>, steps: seq<Step>) {
    && |run| == |steps| + 1
    && (forall i :: 0 <= i < |run[0].movers| ==> run[0].movers[i].Waiting?)
    && Sound(run[0])
    && forall i :: 0 <= i < |steps| ==> Goes(run[i], steps[i], run[i + 1])
  }

  ghost predicate Goes(w: World, a: Step, w': World) {
    Sound(w) && Enabled(w, a) && w' == Next(w, a)
  }

  ghost function TotalBrought(run: seq<World>, steps: seq<Step>, n: nat, x: Elem): nat
    requires n <= |steps| && IsRun(run, steps)
  {
    if n == 0 then 0 else assert Goes(run[n - 1], steps[n - 1], run[n - 1 + 1]); TotalBrought(run, steps, n - 1, x) + Brought(run[n - 1], steps[n - 1], x)
  }

  ghost function TotalTaken(run: seq<World>, steps: seq<Step>, n: nat, x: Elem): nat
    requires n <= |steps| && IsRun(run, steps)
  {
    if n == 0 then 0 else assert Goes(run[n - 1], steps[n - 1], run[n - 1 + 1]); TotalTaken(run, steps, n - 1, x) + TakenOut(run[n - 1], steps[n - 1], x)
  }

  lemma {:induction false} NothingLostAtStart(ms: seq<Phase>, x: Elem)
    requires forall i :: 0 <= i < |ms| ==> ms[i].Waiting?
    ensures Lost(ms, x) == 0
    decreases |ms|
  {
    if ms != [] {
      NothingLostAtStart(ms[..|ms| - 1], x);
    }
  }

  /**
   * Element conservation over every run: the lists and the elements in flight hold exactly what they
   * held at the start, plus what other clients brought, minus what they took, minus what was dropped.
   */
  lemma {:induction false} RunConserves(run: seq<World>, steps: seq<Step>, n: nat, x: Elem)
    requires IsRun(run, steps) && n <= |steps|
    ensures Stock(run[n], x) + Lost(run[n].movers, x) + TotalTaken(run, steps, n, x) ==
            Stock(run[0], x) + TotalBrought(run, steps, n, x)
    decreases n
  {
    if n == 0 {
      NothingLostAtStart(run[0].movers, x);
    } else {
      hide Stock, Lost, Brought, TakenOut, Enabled, Sound;
      RunConserves(run, steps, n - 1, x);
      assert Goes(run[n - 1], steps[n - 1], run[n - 1 + 1]);
      StepConserves(run[n - 1], steps[n - 1], x);
    }
  }

  /** A second commit that finds neither key a list. */
  ghost predicate DropStep(w: World, a: Step) {
    && a.Push? && a.id < |w.movers| && w.movers[a.id].InFlight?
    && w.movers[a.id].p.src < |w.views| && w.movers[a.id].p.dst < |w.views|
    && w.views[w.movers[a.id].p.dst].OtherType? && w.views[w.movers[a.id].p.src].OtherType?
  }

  lemma LossGrows(w: World, a: Step, x: Elem)
    requires Sound(w) && Enabled(w, a)
    ensures Lost(Next(w, a).movers, x) ==
            Lost(w.movers, x) + if DropStep(w, a) && w.movers[a.id].e == x then 1 else 0
  {
    hide Listed, Flying, Lost, PopSpec, PushSpec;
    if a.Pop? || a.Push? {
      MoverUpdate(w.movers, a.id, Next(w, a).movers[a.id], x);
    }
  }

  /** A copy of `x` is lost in a run exactly when a second commit carrying `x` finds both keys another type. */
  lemma {:induction false} LostIffBothRetyped(run: seq<World>, steps: seq<Step>, n: nat, x: Elem)
    requires IsRun(run, steps) && n <= |steps|
    ensures Lost(run[n].movers, x) > 0 <==>
            exists i :: 0 <= i < n && DropStep(run[i], steps[i]) && run[i].movers[steps[i].id].e == x
    decreases n
  {
    if n == 0 {
      NothingLostAtStart(run[0].movers, x);
    } else {
      hide Lost, Next, Enabled, Sound;
      LostIffBothRetyped(run, steps, n - 1, x);
      assert Goes(run[n - 1], steps[n - 1], run[n - 1 + 1]);
      LossGrows(run[n - 1], steps[n - 1], x);
    }
  }

  /** A concrete loss: one element, popped, and both keys overwritten before the second commit. */
  lemma LossExample(e: Elem)
    ensures var p := Plan(0, 1, true, false);
            var w0 := World([List([e], 0), Absent], [Waiting(p)]);
            var w1 := Next(w0, Pop(0));
            var w2 := Next(w1, Others([OtherType, OtherType]));
            Stock(w0, e) == 1 && Stock(Next(w2, Push(0)), e) == 0 && Lost(Next(w2, Push(0)).movers, e) == 1
  {
    var p := Plan(0, 1, true, false);
    var v := List([e], 0);
    var w0, w1 := World([v, Absent], [Waiting(p)]), World([Absent, Absent], [InFlight(p, e)]);
    assert Next(w0, Pop(0)) == w1;
    var w2 := Next(w1, Others([OtherType, OtherType]));
    var w3 := Next(w2, Push(0));
    assert w3 == World([OtherType, OtherType], [Dropped(p, e)]);
    TwoViews(v, Absent, e);
    TwoViews(OtherType, OtherType, e);
    OneMover(Waiting(p), e);
    OneMover(Dropped(p, e), e);
  }

  lemma TwoViews(a: View, b: View, x: Elem)
    ensures Listed([a, b], x) == Contents(a)[x] + Contents(b)[x]
  {
    hide Contents;
    var one, two := [a], [a, b];
    assert two[..1] == one && one[..0] == [];
    assert Listed(one, x) == Listed([], x) + Contents(a)[x];
  }

  lemma OneMover(m: Phase, x: Elem)
    ensures Flying([m], x) == FlightOf(m, x) && Lost([m], x) == LossOf(m, x)
  {
    var s := [m];
    assert s[..0] == [];
  }

  // ---- the two commits on the store ----

  /** How the key universe looks to a command at `now`. */
  ghost function Seen(d: Db, keys: seq<Key>, now: nat): (vs: seq<View>)
    reads d
    requires d.Valid()
    ensures |vs| == |keys| && forall i :: 0 <= i < |keys| ==> vs[i] == d.See(keys[i], now)
  {
    seq(|keys|, i requires 0 <= i < |keys| && d.Valid() reads d => d.See(keys[i], now))
  }

  ghost predicate DistinctKeys(keys: seq<Key>) {
    forall i, j :: 0 <= i < j < |keys| ==> keys[i] != keys[j]
  }

  /** One commit at one key changes one view. */
  lemma SeenUpdate(before: seq<View>, after: seq<View>, at: nat)
    requires at < |before| == |after|
    requires forall i :: 0 <= i < |before| && i != at ==> after[i] == before[i]
    ensures after == before[at := after[at]]
  {
  }

  lemma PopReplies(v: View, left: bool)
    requires v.List? ==> v.elems != []
    ensures var (rest, popped) := PopSpec(v, left, None);
            && (!v.List? ==> rest == v)
            && (v.List? ==> popped == Some([v.elems[if left then 0 else |v.elems| - 1]]))
  {
    if v.List? {
      TakeOne(v.elems, left);
    }
  }

  /** The first commit: a pop off the source takes the step `Pop`, or leaves an empty source and its client waiting. */
  method PopCommit(d: Db, keys: seq<Key>, p: Plan, now: nat, ghost w: World, ghost id: nat) returns (m: Phase)
    requires d.Valid() && DistinctKeys(keys) && Sound(w) && w.views == Seen(d, keys, now)
    requires id < |w.movers| && w.movers[id] == Waiting(p)
    modifies d
    ensures d.Valid()
    ensures World(Seen(d, keys, now), w.movers[id := m]) == if Enabled(w, Pop(id)) then Next(w, Pop(id)) else w
  {
    hide PopSpec, Seen;
    var r := QuickPop(d, keys[p.src], p.popLeft, now);
    SeenUpdate(w.views, Seen(d, keys, now), p.src);
    PopReplies(w.views[p.src], p.popLeft);
    match r {
      case Refused => m := TurnedAway(p);
      case Empty => m := Waiting(p);
      case Got(e) => m := InFlight(p, e);
    }
  }

  /** The second commit: onto the destination, else back onto the source, takes the step `Push`. */
  method PushCommit(d: Db, keys: seq<Key>, p: Plan, e: Elem, now: nat, ghost w: World, ghost id: nat) returns (m: Phase)
    requires d.Valid() && DistinctKeys(keys) && Sound(w) && w.views == Seen(d, keys, now)
    requires id < |w.movers| && w.movers[id] == InFlight(p, e)
    modifies d
    ensures d.Valid()
    ensures World(Seen(d, keys, now), w.movers[id := m]) == Next(w, Push(id))
  {
    var landed := PushOne(d, keys[p.dst], e, p.pushLeft, now);
    SeenUpdate(w.views, Seen(d, keys, now), p.dst);
    if landed {
      return Landed(p, e);
    }
    ghost var vs := Seen(d, keys, now);
    var restored := PushOne(d, keys[p.src], e, p.popLeft, now);
    SeenUpdate(vs, Seen(d, keys, now), p.src);
    m := if restored then Restored(p, e) else Dropped(p, e);
  }
}
