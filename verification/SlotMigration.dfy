/**
 * One hash slot while it migrates from one node to another: every node's
 * routing state for the slot, the raft-held owner, and the steps of the
 * protocol. Raft is one atomic register written only by the leader.
 */
module SlotMigration {
  import opened Bytes

  datatype Addr = Addr(text: Bytes)

  /** What one node knows about the slot, and the slot's keys it stores. */
  datatype Node = Node(owner: Option<Addr>, migrating: Option<Addr>, importing: Option<Addr>, keys: set<Key>)

  datatype Decision = Serve | Moved(to: Addr) | Ask(to: Addr)

  /** The override when there is one, the equal-split band otherwise. */
  function Routed(owner: Option<Addr>, band: Addr): Addr {
    if owner.Some? then owner.value else band
  }

  /** Where a single-key command goes: the importing gate, then ownership, then a migrated-away key. */
  function Redirect(self: Addr, band: Addr, node: Node, key: Key, asking: bool): Decision {
    if node.importing.Some? then
      if asking then Serve else Moved(node.importing.value)
    else if Routed(node.owner, band) != self then
      Moved(Routed(node.owner, band))
    else if node.migrating.Some? && key !in node.keys then
      Ask(node.migrating.value)
    else
      Serve
  }

  /** SETSLOT NODE at one node: the override is set and both migration marks go. */
  function Assigned(node: Node, owner: Addr): Node {
    Node(Some(owner), None, None, node.keys)
  }

  /**
   * `told` are the nodes that have handled SETSLOT NODE in the current
   * migration; `asked` the (node, key) pairs some client was sent to by ASK.
   */
  datatype Slot = Slot(
    band: Addr, leader: Addr, src: Addr, dst: Addr,
    nodes: map<Addr, Node>, raft: Option<Addr>, told: set<Addr>, asked: set<(Addr, Key)>)

  datatype Step =
    | Importing
    | Migrating
    | MoveKey(key: Key)
    | Command(node: Addr, key: Key, asking: bool, present: bool)
    | Sync(node: Addr)
    | SetNode(node: Addr)
    | NextMigration(to: Addr)

  /** The step names nodes that exist, and a transferred key is one its destination accepts. */
  predicate Possible(s: Slot, step: Step) {
    match step
    case Importing => s.dst in s.nodes
    case Migrating => s.src in s.nodes
    case MoveKey(k) =>
      && s.src in s.nodes && s.dst in s.nodes
      && k in s.nodes[s.src].keys
      && Redirect(s.dst, s.band, s.nodes[s.dst], k, true).Serve?
    case Command(n, _, _, _) => n in s.nodes
    case Sync(n) => n in s.nodes
    case SetNode(n) => n in s.nodes
    case NextMigration(to) => to in s.nodes && to != s.dst
  }

  /**
   * The discipline of a run. ASKING is used only where an ASK reply pointed;
   * NODE goes to the leader first, and to it only once the source is marked
   * MIGRATING and holds no key of the slot; the next migration starts once
   * leader, source and destination have handled NODE, and no ASK that points
   * to its destination is still to be followed: such old ones are dropped.
   */
  predicate Enabled(s: Slot, step: Step) {
    && Possible(s, step)
    && match step
       case Importing => s.dst !in s.told
       case Migrating => s.src !in s.told
       case MoveKey(_) => s.nodes[s.src].migrating.Some?
       case Command(n, k, asking, _) => asking ==> (n, k) in s.asked
       case Sync(_) => true
       case SetNode(n) => s.leader in s.told || (n == s.leader && Drained(s))
       case NextMigration(_) => {s.leader, s.src, s.dst} <= s.told
  }

  /** The source is marked MIGRATING and every key of the slot has left it. */
  predicate Drained(s: Slot) {
    s.src in s.nodes && s.nodes[s.src].migrating == Some(s.dst) && s.nodes[s.src].keys == {}
  }

  function WithNode(s: Slot, n: Addr, node: Node): Slot {
    s.(nodes := s.nodes[n := node])
  }

  function WithKey(node: Node, k: Key, present: bool): Node {
    node.(keys := if present then node.keys + {k} else node.keys - {k})
  }

  /** The node at `n`, blank when there is none. */
  function NodeAt(s: Slot, n: Addr): Node {
    if n in s.nodes then s.nodes[n] else Node(None, None, None, {})
  }

  function Next(s: Slot, step: Step): Slot {
    match step
    case Importing => WithNode(s, s.dst, NodeAt(s, s.dst).(importing := Some(s.src)))
    case Migrating => WithNode(s, s.src, NodeAt(s, s.src).(migrating := Some(s.dst)))
    case MoveKey(k) =>
      WithNode(WithNode(s, s.dst, WithKey(NodeAt(s, s.dst), k, true)), s.src, WithKey(NodeAt(s, s.src), k, false))
    case Command(n, k, asking, present) => (
      match Redirect(n, s.band, NodeAt(s, n), k, asking)
      case Serve => WithNode(s, n, WithKey(NodeAt(s, n), k, present))
      case Ask(to) => s.(asked := s.asked + {(to, k)})
      case Moved(_) => s
    )
    case Sync(n) => WithNode(s, n, NodeAt(s, n).(owner := s.raft))
    case SetNode(n) =>
      var t := WithNode(s, n, Assigned(NodeAt(s, n), s.dst)).(told := s.told + {n});
      if n == s.leader then t.(raft := Some(s.dst)) else t
    case NextMigration(to) => s.(src := s.dst, dst := to, told := {}, asked := set p | p in s.asked && p.0 != to)
  }

  ghost predicate Runs(s: Slot, steps: seq<Step>, t: Slot)
    decreases |steps|
  {
    if steps == [] then t == s
    else Enabled(s, steps[0]) && Runs(Next(s, steps[0]), steps[1..], t)
  }

  /** A settled slot about to migrate from `src` to `dst`: every node routes to `src`. */
  ghost predicate Initial(s: Slot) {
    && s.src != s.dst
    && {s.leader, s.src, s.dst} <= s.nodes.Keys
    && Routed(s.raft, s.band) == s.src
    && s.told == {} && s.asked == {}
    && forall n <- s.nodes ::
         && Routed(s.nodes[n].owner, s.band) == s.src
         && s.nodes[n].migrating.None? && s.nodes[n].importing.None?
         && (n != s.src ==> s.nodes[n].keys == {})
  }

  // The invariant, one group at a time.

  /** Only source and destination hold keys or marks; nobody else takes itself for the owner. */
  ghost predicate Bystander(s: Slot, n: Addr)
    requires n in s.nodes
  {
    && s.nodes[n].keys == {}
    && s.nodes[n].migrating.None? && s.nodes[n].importing.None?
    && Routed(s.nodes[n].owner, s.band) != n
  }

  ghost predicate Source(s: Slot, node: Node) {
    && node.importing.None?
    && (node.migrating.Some? ==> node.migrating == Some(s.dst) && s.src !in s.told)
    && (s.leader in s.told ==> node.keys == {})
    && (s.leader in s.told && Routed(node.owner, s.band) == s.src ==> node.migrating.Some?)
    && (s.leader !in s.told ==> Routed(node.owner, s.band) == s.src)
    && (s.src in s.told ==> Routed(node.owner, s.band) == s.dst)
  }

  ghost predicate Destination(s: Slot, node: Node) {
    && node.migrating.None?
    && (node.importing.Some? ==> s.dst !in s.told)
    && (s.leader !in s.told ==> Routed(node.owner, s.band) != s.dst)
    && (s.dst in s.told ==> Routed(node.owner, s.band) == s.dst)
    && (node.keys != {} ==> node.importing.Some? || Routed(node.owner, s.band) == s.dst)
  }

  /** Once a key has moved or an ASK was sent, the source is marked or the leader has switched. */
  ghost predicate Armed(s: Slot)
    requires s.src in s.nodes
  {
    s.nodes[s.src].migrating.Some? || s.leader in s.told
  }

  ghost predicate Inv(s: Slot) {
    && s.src != s.dst
    && {s.leader, s.src, s.dst} <= s.nodes.Keys
    && (s.told != {} ==> s.leader in s.told)
    && Routed(s.raft, s.band) == (if s.leader in s.told then s.dst else s.src)
    && (forall n <- s.nodes :: n != s.src && n != s.dst ==> Bystander(s, n))
    && Source(s, s.nodes[s.src]) && Destination(s, s.nodes[s.dst])
    && s.nodes[s.src].keys !! s.nodes[s.dst].keys
    && (s.nodes[s.dst].keys != {} ==> Armed(s))
    && (forall p <- s.asked :: p.0 == s.dst ==> Armed(s) && p.1 !in s.nodes[s.src].keys)
  }

  lemma InitialInv(s: Slot)
    requires Initial(s)
    ensures Inv(s)
  {
  }

  /** A node other than the destination serves a key only while nothing has moved away from it. */
  lemma OnlySourceServes(s: Slot, n: Addr, k: Key, asking: bool)
    requires Inv(s) && n in s.nodes && n != s.dst
    requires Redirect(n, s.band, s.nodes[n], k, asking).Serve?
    ensures n == s.src && s.leader !in s.told
    ensures s.nodes[s.src].migrating.Some? ==> k in s.nodes[s.src].keys
  {
    assert n != s.src ==> Bystander(s, n);
  }

  /** The destination serves a key to a disciplined client only when the source holds it no more. */
  lemma DestinationServes(s: Slot, k: Key, asking: bool)
    requires Inv(s)
    requires asking ==> (s.dst, k) in s.asked
    requires Redirect(s.dst, s.band, s.nodes[s.dst], k, asking).Serve?
    ensures k !in s.nodes[s.src].keys && Armed(s)
  {
  }

  lemma CommandKeepsInv(s: Slot, n: Addr, k: Key, asking: bool, present: bool)
    requires Inv(s) && Enabled(s, Command(n, k, asking, present))
    ensures Inv(Next(s, Command(n, k, asking, present)))
  {
    match Redirect(n, s.band, s.nodes[n], k, asking)
    case Serve =>
      if n == s.dst {
        DestinationServes(s, k, asking);
      } else {
        OnlySourceServes(s, n, k, asking);
      }
    case Ask(to) =>
      assert n != s.src && n != s.dst ==> Bystander(s, n);
    case Moved(_) =>
  }

  lemma NextMigrationKeepsInv(s: Slot, to: Addr)
    requires Inv(s) && Enabled(s, NextMigration(to))
    ensures Inv(Next(s, NextMigration(to)))
  {
    assert s.src in s.told && s.dst in s.told && s.leader in s.told;
    var t := Next(s, NextMigration(to));
    forall n | n in t.nodes && n != t.src && n != t.dst
      ensures Bystander(t, n)
    {
      if n != s.src {
        assert Bystander(s, n);
      }
    }
    if to != s.src {
      assert Bystander(s, to);
    }
  }

  /** Every step of the protocol keeps the invariant. */
  lemma StepKeepsInv(s: Slot, step: Step)
    requires Inv(s) && Enabled(s, step)
    ensures Inv(Next(s, step))
  {
    var t := Next(s, step);
    match step
    case Command(n, k, asking, present) => CommandKeepsInv(s, n, k, asking, present);
    case NextMigration(to) => NextMigrationKeepsInv(s, to);
    case Sync(n) => SyncKeepsInv(s, n);
    case SetNode(n) => SetNodeKeepsInv(s, n);
    case MoveKey(k) => MoveKeepsInv(s, k);
    case Importing =>
      assert forall n <- t.nodes :: n != t.src && n != t.dst ==> Bystander(s, n) && t.nodes[n] == s.nodes[n];
    case Migrating =>
      assert forall n <- t.nodes :: n != t.src && n != t.dst ==> Bystander(s, n) && t.nodes[n] == s.nodes[n];
  }

  lemma SyncKeepsInv(s: Slot, n: Addr)
    requires Inv(s) && n in s.nodes
    ensures Inv(Next(s, Sync(n)))
  {
    var t := Next(s, Sync(n));
    forall m | m in t.nodes && m != t.src && m != t.dst
      ensures Bystander(t, m)
    {
      assert Bystander(s, m);
    }
  }

  lemma SetNodeKeepsInv(s: Slot, n: Addr)
    requires Inv(s) && Enabled(s, SetNode(n))
    ensures Inv(Next(s, SetNode(n)))
  {
    var t := Next(s, SetNode(n));
    forall m | m in t.nodes && m != t.src && m != t.dst
      ensures Bystander(t, m)
    {
      assert Bystander(s, m);
    }
  }

  lemma MoveKeepsInv(s: Slot, k: Key)
    requires Inv(s) && Enabled(s, MoveKey(k))
    ensures Inv(Next(s, MoveKey(k)))
  {
    var t := Next(s, MoveKey(k));
    forall m | m in t.nodes && m != t.src && m != t.dst
      ensures Bystander(t, m)
    {
      assert Bystander(s, m);
    }
  }

  lemma {:induction false} RunKeepsInv(s: Slot, steps: seq<Step>, t: Slot)
    requires Inv(s) && Runs(s, steps, t)
    ensures Inv(t)
    decreases |steps|
  {
    if steps != [] {
      StepKeepsInv(s, steps[0]);
      RunKeepsInv(Next(s, steps[0]), steps[1..], t);
    }
  }

  /** A client that asks only where an ASK pointed it is served `k` by `n`. */
  ghost predicate Serves(s: Slot, n: Addr, k: Key)
    requires n in s.nodes
  {
    || Redirect(n, s.band, s.nodes[n], k, false).Serve?
    || ((n, k) in s.asked && Redirect(n, s.band, s.nodes[n], k, true).Serve?)
  }

  /** Migration safety over every run: one store per key, one server per key. */
  lemma MigrationSafety(s: Slot, steps: seq<Step>, t: Slot, k: Key, n: Addr, m: Addr)
    requires Initial(s) && Runs(s, steps, t)
    requires n in t.nodes && m in t.nodes && n != m
    ensures !(k in t.nodes[n].keys && k in t.nodes[m].keys)
    ensures !(Serves(t, n, k) && Serves(t, m, k))
  {
    InitialInv(s);
    RunKeepsInv(s, steps, t);
    OneServer(t, k, n, m);
  }

  lemma OneServer(s: Slot, k: Key, n: Addr, m: Addr)
    requires Inv(s) && n in s.nodes && m in s.nodes && n != m
    ensures !(k in s.nodes[n].keys && k in s.nodes[m].keys)
    ensures !(Serves(s, n, k) && Serves(s, m, k))
  {
    assert n != s.src && n != s.dst ==> Bystander(s, n);
    assert m != s.src && m != s.dst ==> Bystander(s, m);
  }

  /** The nodes holding `k`. */
  ghost predicate Stored(s: Slot, k: Key) {
    exists n <- s.nodes :: k in s.nodes[n].keys
  }

  /** Only a served deletion of `k` takes it out of the cluster. */
  lemma StepKeepsKey(s: Slot, step: Step, k: Key)
    requires Possible(s, step) && Stored(s, k) && s.src != s.dst
    requires !(step.Command? && step.key == k && !step.present)
    ensures Stored(Next(s, step), k)
  {
    var n :| n in s.nodes && k in s.nodes[n].keys;
    var t := Next(s, step);
    if step.MoveKey? && n == s.src && step.key == k {
      assert k in t.nodes[s.dst].keys;
    } else {
      assert k in t.nodes[n].keys;
    }
  }

  lemma {:induction false} RunKeepsKey(s: Slot, steps: seq<Step>, t: Slot, k: Key)
    requires Inv(s) && Runs(s, steps, t) && Stored(s, k)
    requires forall step <- steps :: !(step.Command? && step.key == k && !step.present)
    ensures Stored(t, k)
    decreases |steps|
  {
    if steps != [] {
      StepKeepsInv(s, steps[0]);
      StepKeepsKey(s, steps[0], k);
      RunKeepsKey(Next(s, steps[0]), steps[1..], t, k);
    }
  }

  /** The client that asks `first` for `k` is served by the node holding it, at once or after one ASK. */
  ghost predicate Reaches(s: Slot, first: Addr, k: Key)
    requires first in s.nodes && s.dst in s.nodes
  {
    var d := Redirect(first, s.band, s.nodes[first], k, false);
    || (d.Serve? && k in s.nodes[first].keys)
    || (d == Ask(s.dst) && k in s.nodes[s.dst].keys
        && Redirect(s.dst, s.band, s.nodes[s.dst], k, true).Serve?)
  }

  /**
   * A client that starts at the replicated owner reaches the node holding its key with at most one
   * redirect exactly when the leader has not switched yet or the destination imports no more.
   */
  lemma HolderIsReachableIff(s: Slot, k: Key, first: Addr)
    requires Inv(s) && Stored(s, k) && first == Routed(s.raft, s.band)
    ensures first in s.nodes
    ensures Reaches(s, first, k) <==> s.leader !in s.told || s.nodes[s.dst].importing.None?
  {
    var n :| n in s.nodes && k in s.nodes[n].keys;
    assert n != s.src && n != s.dst ==> Bystander(s, n);
  }

  /** In between, source and destination can send the client of a moved key back and forth. */
  lemma PingPongExample(a: Addr, b: Addr, k: Key)
    requires a != b
    ensures exists s, steps, t ::
              && Initial(s) && Runs(s, steps, t) && s.src == a && s.dst == b
              && a in t.nodes && b in t.nodes && k in t.nodes[b].keys
              && Redirect(a, t.band, t.nodes[a], k, false) == Moved(b)
              && Redirect(b, t.band, t.nodes[b], k, false) == Moved(a)
  {
    var (s, s3) := Drain(a, b, a, map[], k);
    var t := Next(s3, SetNode(a));
    RunsNone(t);
    RunsStep(s3, SetNode(a), [], t);
    DrainRuns(a, b, a, map[], k, [SetNode(a)] + [], t);
  }

  /**
   * Once leader, source and destination have handled NODE, the destination serves every key and
   * any node's redirect after its next sync points to the destination; the source's already does.
   */
  lemma SettledRoutesToDestination(s: Slot, n: Addr, k: Key, asking: bool)
    requires Inv(s) && {s.leader, s.src, s.dst} <= s.told && n in s.nodes
    ensures Redirect(n, s.band, NodeAt(Next(s, Sync(n)), n), k, asking) == if n == s.dst then Serve else Moved(s.dst)
    ensures n == s.src || n == s.dst ==>
              Redirect(n, s.band, s.nodes[n], k, asking) == if n == s.dst then Serve else Moved(s.dst)
  {
    assert s.leader in s.told && s.src in s.told && s.dst in s.told;
    assert n != s.src && n != s.dst ==> Bystander(s, n);
  }

  /** A settled slot whose one key sits at `a`, and the state once that key has moved to `b`. */
  function Drain(a: Addr, b: Addr, leader: Addr, others: map<Addr, Node>, k: Key): (Slot, Slot) {
    var s := Slot(a, leader, a, b, others + map[a := Node(None, None, None, {k}), b := Node(None, None, None, {})], None, {}, {});
    (s, Next(Next(Next(s, Migrating), Importing), MoveKey(k)))
  }

  lemma DrainRuns(a: Addr, b: Addr, leader: Addr, others: map<Addr, Node>, k: Key, steps: seq<Step>, t: Slot)
    requires a != b && leader in others.Keys + {a, b}
    requires forall n <- others :: others[n] == Node(None, None, None, {})
    requires Runs(Drain(a, b, leader, others, k).1, steps, t)
    ensures Initial(Drain(a, b, leader, others, k).0)
    ensures Runs(Drain(a, b, leader, others, k).0, [Migrating] + ([Importing] + ([MoveKey(k)] + steps)), t)
  {
    hide Runs;
    var s := Drain(a, b, leader, others, k).0;
    var s1 := Next(s, Migrating);
    var s2 := Next(s1, Importing);
    RunsStep(s2, MoveKey(k), steps, t);
    RunsStep(s1, Importing, [MoveKey(k)] + steps, t);
    RunsStep(s, Migrating, [Importing] + ([MoveKey(k)] + steps), t);
  }

  lemma RunsNone(s: Slot)
    ensures Runs(s, [], s)
  {
  }

  lemma RunsStep(s: Slot, step: Step, steps: seq<Step>, t: Slot)
    requires Enabled(s, step) && Runs(Next(s, step), steps, t)
    ensures Runs(s, [step] + steps, t)
  {
    assert ([step] + steps)[1..] == steps;
  }

  // The order the migration driver uses: NODE to the source, then to the destination, to nobody else.

  /** The state just before the driver sends NODE. */
  ghost predicate Ready(s: Slot) {
    Inv(s) && s.told == {} && Drained(s)
  }

  /** The driver's two NODE commands survive the next sync exactly when one of the two nodes leads. */
  lemma DriverSurvivesSync(s: Slot, n: Addr)
    requires Ready(s) && n in s.nodes
    ensures var u := Next(Next(Next(s, SetNode(s.src)), SetNode(s.dst)), Sync(n));
            Routed(u.nodes[n].owner, u.band) == s.dst <==> s.leader == s.src || s.leader == s.dst
  {
  }

  /**
   * A sync at the source between the two commands makes the source serve every key of the slot
   * again, also those the destination holds, exactly when the source is not the leader.
   */
  lemma DriverWindow(s: Slot, k: Key)
    requires Ready(s)
    ensures var u := Next(Next(s, SetNode(s.src)), Sync(s.src));
            Redirect(s.src, u.band, u.nodes[s.src], k, false).Serve? <==> s.leader != s.src
  {
  }

  /**
   * In that window a write at the source puts a moved key into both stores: three nodes, the third
   * one leading, one key moved, NODE to the source, a sync there, a write there.
   */
  lemma DriverWindowExample(a: Addr, b: Addr, leader: Addr, k: Key)
    requires a != b && leader != a && leader != b
    ensures exists s, steps, t ::
              && Initial(s) && Runs(s, steps, t) && Ready(t) && t.src == a && t.dst == b && t.leader == leader
              && var u := Next(Next(Next(t, SetNode(a)), Sync(a)), Command(a, k, false, true));
                 a in u.nodes && b in u.nodes && k in u.nodes[a].keys && k in u.nodes[b].keys
  {
    var others := map[leader := Node(None, None, None, {})];
    var (s, t) := Drain(a, b, leader, others, k);
    RunsNone(t);
    DrainRuns(a, b, leader, others, k, [], t);
    InitialInv(s);
    RunKeepsInv(s, [Migrating] + ([Importing] + ([MoveKey(k)] + [])), t);
    DriverWindow(t, k);
  }

  /** The discipline can be followed to the end: a slot with one key migrates and the key arrives. */
  lemma MigrationCompletes(a: Addr, b: Addr, k: Key)
    requires a != b
    ensures exists s, steps, t ::
              && Initial(s) && Runs(s, steps, t) && s.src == a && s.dst == b
              && {t.leader, t.src, t.dst} <= t.told && a in t.nodes && b in t.nodes
              && s.nodes[a].keys == {k} && t.nodes[a].keys == {} && t.nodes[b].keys == {k}
  {
    hide Runs;
    var (s, s3) := Drain(a, b, a, map[], k);
    var s4 := Next(s3, SetNode(a));
    var t := Next(s4, SetNode(b));
    RunsNone(t);
    RunsStep(s4, SetNode(b), [], t);
    RunsStep(s3, SetNode(a), [SetNode(b)] + [], t);
    DrainRuns(a, b, a, map[], k, [SetNode(a)] + ([SetNode(b)] + []), t);
  }
}
