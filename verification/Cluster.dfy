/**
 * Many slots migrating at once over one replicated owner map, held as text
 * and rewritten whole by the leader. Each slot refines the one-slot protocol.
 */
module Cluster {
  import opened Bytes
  import opened SlotMigration
  import opened OwnerMap
  import opened Routing
  import opened ClusterNode

  /** The current migration of a slot: who, who has handled NODE, who was sent where by ASK. */
  datatype Plan = Plan(src: Addr, dst: Addr, told: set<Addr>, asked: set<(Addr, Key)>)

  datatype State = State(
    addrs: seq<Addr>, leader: Addr, nodes: map<Addr, Tables>, register: Bytes, plans: map<Slot16, Plan>)

  datatype Event = Everywhere(node: Addr) | At(slot: Slot16, step: Step)

  /** The tables of node `n`, blank when there is none. */
  function TablesAt(c: State, n: Addr): Tables {
    if n in c.nodes then c.nodes[n] else Tables(map[], map[], map[], map[])
  }

  /** One slot of the cluster. */
  function Project(c: State, slot: Slot16): Slot
    requires slot in c.plans
  {
    var p := c.plans[slot];
    Slot(BandAddr(c.addrs, slot), c.leader, p.src, p.dst,
         map n | n in c.nodes :: View(c.nodes[n], slot),
         Get(ParseOwnerMap(c.register), slot), p.told, p.asked)
  }

  /** A sync concerns every slot of a node at once; every other step concerns one slot. */
  predicate Allowed(c: State, e: Event) {
    match e
    case Everywhere(n) => n in c.nodes
    case At(slot, step) => slot in c.plans && !step.Sync? && Enabled(Project(c, slot), step)
  }

  function WithTables(c: State, n: Addr, t: Tables): State {
    c.(nodes := c.nodes[n := t])
  }

  function WithPlan(c: State, slot: Slot16, p: Plan): State {
    c.(plans := c.plans[slot := p])
  }

  function WithStored(t: Tables, slot: Slot16, k: Key, present: bool): (r: Tables)
    ensures r.owners == t.owners
  {
    t.(keys := t.keys[slot := WithKey(View(t, slot), k, present).keys])
  }

  function After(c: State, e: Event): State {
    match e
    case Everywhere(n) => WithTables(c, n, TablesAt(c, n).(owners := ParseOwnerMap(c.register)))
    case At(slot, step) => if slot in c.plans then AfterStep(c, slot, step) else c
  }

  function AfterStep(c: State, slot: Slot16, step: Step): State
    requires slot in c.plans
  {
    var p := c.plans[slot];
    match step
    case Importing => WithTables(c, p.dst, Applied(TablesAt(c, p.dst), Mark(slot, true, p.src)))
    case Migrating => WithTables(c, p.src, Applied(TablesAt(c, p.src), Mark(slot, false, p.dst)))
    case MoveKey(k) =>
      WithTables(WithTables(c, p.dst, WithStored(TablesAt(c, p.dst), slot, k, true)),
                 p.src, WithStored(TablesAt(c, p.src), slot, k, false))
    case Command(n, k, asking, present) => (
      match Redirect(n, BandAddr(c.addrs, slot), View(TablesAt(c, n), slot), k, asking)
      case Serve => WithTables(c, n, WithStored(TablesAt(c, n), slot, k, present))
      case Ask(to) => WithPlan(c, slot, p.(asked := p.asked + {(to, k)}))
      case Moved(_) => c
    )
    case SetNode(n) => AfterAssign(c, slot, n)
    case NextMigration(to) => WithPlan(c, slot, Plan(p.dst, to, {}, set q | q in p.asked && q.0 != to))
    case Sync(_) => c
  }

  /** SETSLOT NODE at `n`; the leader also rewrites the register from its whole table. */
  function AfterAssign(c: State, slot: Slot16, n: Addr): State
    requires slot in c.plans
  {
    var p := c.plans[slot];
    var t := Applied(TablesAt(c, n), Assign(slot, p.dst));
    var d := WithPlan(WithTables(c, n, t), slot, p.(told := p.told + {n}));
    if n == c.leader then d.(register := OwnerMapJson(t.owners)) else d
  }

  ghost predicate Runs(c: State, events: seq<Event>, d: State)
    decreases |events|
  {
    if events == [] then d == c
    else Allowed(c, events[0]) && Runs(After(c, events[0]), events[1..], d)
  }

  /** Overrides the text can carry. */
  ghost predicate Writable(owners: Owners) {
    forall slot <- owners :: Plain(owners[slot].text) && Readable(owners, slot)
  }

  /** The leader's own override table is what every reader of the register gets. */
  ghost predicate LeaderAgrees(c: State) {
    && c.leader in c.nodes
    && Writable(c.nodes[c.leader].owners)
    && ParseOwnerMap(c.register) == c.nodes[c.leader].owners
  }

  /** Real slots, and node addresses the text can carry. */
  ghost predicate Representable(c: State) {
    && (forall slot <- c.plans :: slot < SLOT_NUMBER)
    && (forall n <- c.nodes :: n.text != [] && Plain(n.text))
  }

  /** Source and destination of every planned migration are nodes. */
  ghost predicate Manned(c: State) {
    forall slot <- c.plans :: c.plans[slot].src in c.nodes && c.plans[slot].dst in c.nodes
  }

  ghost predicate SlotsInv(c: State) {
    forall slot <- c.plans :: SlotMigration.Inv(Project(c, slot))
  }

  ghost predicate Inv(c: State) {
    c.addrs != [] && Representable(c) && LeaderAgrees(c) && SlotsInv(c)
  }

  /** Writing the leader's table with one more override is read back as exactly that. */
  lemma WriteReadsBack(owners: Owners, slot: Slot16, addr: Addr)
    requires Writable(owners) && slot < SLOT_NUMBER && addr.text != [] && Plain(addr.text)
    ensures Writable(owners[slot := addr])
    ensures ParseOwnerMap(OwnerMapJson(owners[slot := addr])) == owners[slot := addr]
  {
    var more := owners[slot := addr];
    forall s | s in more ensures Plain(more[s].text) && Readable(more, s) {
      assert s != slot ==> Plain(owners[s].text) && Readable(owners, s);
    }
    RoundTrip(more);
  }

  // How one change of the state shows in the projection of any slot.

  lemma ProjectTables(c: State, n: Addr, t: Tables, slot: Slot16)
    requires slot in c.plans
    ensures Project(WithTables(c, n, t), slot) == WithNode(Project(c, slot), n, View(t, slot))
    ensures NodeAt(Project(c, slot), n) == View(TablesAt(c, n), slot)
  {
    hide ParseOwnerMap, BandAddr;
    hide View;
    BlankView(slot);
    assert Project(WithTables(c, n, t), slot).nodes == Project(c, slot).nodes[n := View(t, slot)];
  }

  lemma BlankView(slot: Slot16)
    ensures View(Tables(map[], map[], map[], map[]), slot) == Node(None, None, None, {})
  {
  }

  lemma ProjectSame(c: State, n: Addr, t: Tables, slot: Slot16)
    requires slot in c.plans && n in c.nodes && View(t, slot) == View(TablesAt(c, n), slot)
    ensures Project(WithTables(c, n, t), slot) == Project(c, slot)
  {
    hide ParseOwnerMap, BandAddr, View;
    assert Project(WithTables(c, n, t), slot).nodes == Project(c, slot).nodes;
  }

  lemma StoredViews(t: Tables, slot: Slot16, k: Key, present: bool, other: Slot16)
    ensures View(WithStored(t, slot, k, present), other) ==
            if other == slot then WithKey(View(t, slot), k, present) else View(t, other)
  {
  }

  /** Every SETSLOT or command on a slot refines that slot's protocol step. */
  lemma SameSlotRefines(c: State, slot: Slot16, step: Step)
    requires slot in c.plans && !step.Sync? && !step.SetNode?
    ensures slot in AfterStep(c, slot, step).plans
    ensures Project(AfterStep(c, slot, step), slot) == Next(Project(c, slot), step)
  {
    hide ParseOwnerMap, View, Applied, WithStored, BandAddr, Redirect;
    var p := c.plans[slot];
    match step
    case Importing =>
      var t := Applied(TablesAt(c, p.dst), Mark(slot, true, p.src));
      ProjectTables(c, p.dst, t, slot);
      AppliedViews(TablesAt(c, p.dst), Mark(slot, true, p.src), slot);
    case Migrating =>
      var t := Applied(TablesAt(c, p.src), Mark(slot, false, p.dst));
      ProjectTables(c, p.src, t, slot);
      AppliedViews(TablesAt(c, p.src), Mark(slot, false, p.dst), slot);
    case MoveKey(k) =>
      var t := WithStored(TablesAt(c, p.dst), slot, k, true);
      var u := WithStored(TablesAt(c, p.src), slot, k, false);
      ProjectTables(c, p.dst, t, slot);
      ProjectTables(c, p.src, u, slot);
      ProjectTables(WithTables(c, p.dst, t), p.src, u, slot);
      StoredViews(TablesAt(c, p.dst), slot, k, true, slot);
      StoredViews(TablesAt(c, p.src), slot, k, false, slot);
    case Command(n, k, asking, present) =>
      var t := WithStored(TablesAt(c, n), slot, k, present);
      ProjectTables(c, n, t, slot);
      StoredViews(TablesAt(c, n), slot, k, present, slot);
    case NextMigration(to) =>
  }

  /** ... and is invisible to every other slot. */
  lemma OtherSlotUntouched(c: State, other: Slot16, step: Step, slot: Slot16)
    requires other in c.plans && slot in c.plans && slot != other
    requires !step.Sync? && !step.SetNode? && Possible(Project(c, other), step)
    ensures slot in AfterStep(c, other, step).plans
    ensures Project(AfterStep(c, other, step), slot) == Project(c, slot)
  {
    hide ParseOwnerMap, View, Applied, WithStored, BandAddr, Redirect;
    var p := c.plans[other];
    match step
    case Importing =>
      AppliedViews(TablesAt(c, p.dst), Mark(other, true, p.src), slot);
      ProjectSame(c, p.dst, Applied(TablesAt(c, p.dst), Mark(other, true, p.src)), slot);
    case Migrating =>
      AppliedViews(TablesAt(c, p.src), Mark(other, false, p.dst), slot);
      ProjectSame(c, p.src, Applied(TablesAt(c, p.src), Mark(other, false, p.dst)), slot);
    case MoveKey(k) =>
      var t := WithStored(TablesAt(c, p.dst), other, k, true);
      var u := WithStored(TablesAt(c, p.src), other, k, false);
      StoredViews(TablesAt(c, p.dst), other, k, true, slot);
      StoredViews(TablesAt(c, p.src), other, k, false, slot);
      ProjectSame(c, p.dst, t, slot);
      ProjectSame(WithTables(c, p.dst, t), p.src, u, slot);
    case Command(n, k, asking, present) =>
      StoredViews(TablesAt(c, n), other, k, present, slot);
      ProjectSame(c, n, WithStored(TablesAt(c, n), other, k, present), slot);
    case NextMigration(to) =>
  }

  /** SETSLOT NODE likewise, thanks to the leader's table being the register's. */
  lemma AssignRefines(c: State, slot: Slot16, n: Addr, other: Slot16)
    requires LeaderAgrees(c) && Representable(c) && slot in c.plans && other in c.plans
    requires n in c.nodes && c.plans[slot].dst in c.nodes
    ensures other in AfterAssign(c, slot, n).plans
    ensures Project(AfterAssign(c, slot, n), other) ==
            if other == slot then Next(Project(c, slot), SetNode(n)) else Project(c, other)
  {
    hide ParseOwnerMap, OwnerMapJson, View, BandAddr, Plain;
    var dst := c.plans[slot].dst;
    var t := Applied(TablesAt(c, n), Assign(slot, dst));
    ProjectTables(c, n, t, other);
    AppliedViews(TablesAt(c, n), Assign(slot, dst), other);
    if other != slot {
      ProjectSame(c, n, t, other);
    }
    if n == c.leader {
      WriteReadsBack(c.nodes[n].owners, slot, dst);
    }
  }

  /** The step a slot sees of a cluster event; `None` when it sees nothing. */
  function Seen(e: Event, slot: Slot16): Option<Step> {
    match e
    case Everywhere(n) => Some(Sync(n))
    case At(other, step) => if other == slot then Some(step) else None
  }

  /** Every event refines, for every slot, a step of the one-slot protocol or nothing. */
  lemma StepRefines(c: State, e: Event, slot: Slot16)
    requires Manned(c) && Representable(c) && LeaderAgrees(c) && Allowed(c, e) && slot in c.plans
    ensures slot in After(c, e).plans
    ensures Project(After(c, e), slot) ==
            if Seen(e, slot).Some? then Next(Project(c, slot), Seen(e, slot).value) else Project(c, slot)
  {
    hide ParseOwnerMap, View, Applied, BandAddr, SlotMigration.Inv, LeaderAgrees, Representable, AfterAssign;
    match e
    case Everywhere(n) =>
      ProjectTables(c, n, TablesAt(c, n).(owners := ParseOwnerMap(c.register)), slot);
      SyncedView(TablesAt(c, n), ParseOwnerMap(c.register), slot);
    case At(other, step) =>
      CommandNode(c, other, step);
      if step.SetNode? {
        AssignRefines(c, other, step.node, slot);
      } else if other == slot {
        SameSlotRefines(c, slot, step);
      } else {
        OtherSlotUntouched(c, other, step, slot);
      }
  }

  lemma SyncedView(t: Tables, owners: Owners, slot: Slot16)
    ensures View(t.(owners := owners), slot) == View(t, slot).(owner := Get(owners, slot))
  {
  }

  lemma InvManned(c: State)
    requires SlotsInv(c)
    ensures Manned(c)
  {
    forall slot | slot in c.plans ensures c.plans[slot].src in c.nodes && c.plans[slot].dst in c.nodes {
      SlotManned(Project(c, slot));
    }
  }

  lemma SlotManned(s: Slot)
    requires SlotMigration.Inv(s)
    ensures s.src in s.nodes && s.dst in s.nodes
  {
  }

  /** No lost override: the leader's table equals the parsed register after every step. */
  lemma StepKeepsLeader(c: State, e: Event)
    requires Manned(c) && Representable(c) && LeaderAgrees(c) && Allowed(c, e)
    ensures LeaderAgrees(After(c, e))
  {
    hide ParseOwnerMap, OwnerMapJson, SlotMigration.Inv, Plain, Project, View, Redirect, Writable, WithStored;
    if e.At? {
      if e.step.SetNode? && e.step.node == c.leader {
        WriteReadsBack(c.nodes[c.leader].owners, e.slot, c.plans[e.slot].dst);
      }
    }
  }

  lemma StepKeepsNames(c: State, e: Event)
    requires Manned(c) && Representable(c) && Allowed(c, e)
    ensures After(c, e).plans.Keys == c.plans.Keys && After(c, e).nodes.Keys == c.nodes.Keys
    ensures After(c, e).addrs == c.addrs
    ensures Representable(After(c, e))
  {
    hide ParseOwnerMap, OwnerMapJson, SlotMigration.Inv, Plain, Project, View, Redirect, WithStored, Applied;
    if e.At? {
      CommandNode(c, e.slot, e.step);
    }
  }

  lemma CommandNode(c: State, slot: Slot16, step: Step)
    requires slot in c.plans && Enabled(Project(c, slot), step)
    ensures step.Command? || step.SetNode? ==> step.node in c.nodes
  {
  }

  lemma StepKeepsInv(c: State, e: Event)
    requires Inv(c) && Allowed(c, e)
    ensures Inv(After(c, e))
  {
    hide *;
    InvIs(c);
    StepKeepsLeader(c, e);
    StepKeepsNames(c, e);
    forall slot | slot in After(c, e).plans ensures SlotMigration.Inv(Project(After(c, e), slot)) {
      SlotKeepsInv(c, e, slot);
    }
    InvIs(After(c, e));
  }

  lemma InvIs(c: State)
    ensures Inv(c) <==> (c.addrs != [] && Representable(c) && LeaderAgrees(c)
                         && forall slot <- c.plans :: SlotMigration.Inv(Project(c, slot)))
    ensures Inv(c) ==> Manned(c)
  {
    hide SlotMigration.Inv, Representable, LeaderAgrees;
    if Inv(c) {
      InvManned(c);
    }
  }

  lemma SlotKeepsInv(c: State, e: Event, slot: Slot16)
    requires Inv(c) && Allowed(c, e) && slot in c.plans
    ensures slot in After(c, e).plans && SlotMigration.Inv(Project(After(c, e), slot))
  {
    hide *;
    InvIs(c);
    StepRefines(c, e, slot);
    StepEnabled(c, e, slot);
    if Seen(e, slot).Some? {
      SlotMigration.StepKeepsInv(Project(c, slot), Seen(e, slot).value);
    }
  }

  lemma StepEnabled(c: State, e: Event, slot: Slot16)
    requires Allowed(c, e) && slot in c.plans
    ensures Seen(e, slot).Some? ==> Enabled(Project(c, slot), Seen(e, slot).value)
  {
  }

  lemma {:induction false} RunKeepsInv(c: State, events: seq<Event>, d: State)
    requires Inv(c) && Runs(c, events, d)
    ensures Inv(d)
    decreases |events|
  {
    if events != [] {
      StepKeepsInv(c, events[0]);
      RunKeepsInv(After(c, events[0]), events[1..], d);
    }
  }

  /** A settled cluster: every slot settled, and the leader past its first owner-aware sync. */
  ghost predicate Settled(c: State) {
    && c.addrs != [] && Representable(c) && LeaderAgrees(c)
    && forall slot <- c.plans :: SlotMigration.Initial(Project(c, slot))
  }

  /** Settled clusters exist: two nodes, no override yet, one slot about to migrate. */
  lemma SettledExample(a: Addr, b: Addr)
    requires a != b && a.text != [] && Plain(a.text) && b.text != [] && Plain(b.text)
    ensures var blank := Tables(map[], map[], map[], map[]);
            Settled(State([a, b], a, map[a := blank, b := blank], OwnerMapJson(map[]), map[5 := Plan(a, b, {}, {})]))
  {
    hide OwnerMapJson, ParseOwnerMap;
    var none: Owners := map[];
    RoundTrip(none);
    assert BandAddr([a, b], 5) == a;
  }

  /** Over every run: the leader's table is the register's, and every slot is safe. */
  lemma ClusterSafety(c: State, events: seq<Event>, d: State, slot: Slot16, k: Key, n: Addr, m: Addr)
    requires Settled(c) && Runs(c, events, d)
    requires slot in d.plans && n in d.nodes && m in d.nodes && n != m
    ensures d.leader in d.nodes && ParseOwnerMap(d.register) == d.nodes[d.leader].owners
    ensures !(KeyPresent(d.nodes[n], slot, k) && KeyPresent(d.nodes[m], slot, k))
    ensures RedirectLine(n, d.addrs, d.nodes[n], slot, k, false).Some?
         || RedirectLine(m, d.addrs, d.nodes[m], slot, k, false).Some?
  {
    SettledInv(c);
    RunKeepsInv(c, events, d);
    OneServer(Project(d, slot), k, n, m);
    RedirectLineIsRedirect(n, d.addrs, d.nodes[n], slot, k, false);
    RedirectLineIsRedirect(m, d.addrs, d.nodes[m], slot, k, false);
  }

  /** ... and once leader, source and destination have handled NODE, any sync routes to the destination. */
  lemma ClusterSettles(c: State, events: seq<Event>, d: State, slot: Slot16, n: Addr, k: Key, asking: bool)
    requires Settled(c) && Runs(c, events, d)
    requires slot in d.plans && n in d.nodes
    requires {d.leader, d.plans[slot].src, d.plans[slot].dst} <= d.plans[slot].told
    ensures RedirectLine(n, d.addrs, TablesAt(After(d, Everywhere(n)), n), slot, k, asking) ==
            if n == d.plans[slot].dst then None else Some(Moved(d.plans[slot].dst))
  {
    hide ParseOwnerMap, View, Redirect, RedirectLine, BandAddr, SlotMigration.Inv, LeaderAgrees;
    SettledInv(c);
    RunKeepsInv(c, events, d);
    InvIs(d);
    var s, e := Project(d, slot), After(d, Everywhere(n));
    SettledRoutesToDestination(s, n, k, asking);
    StepRefines(d, Everywhere(n), slot);
    ProjectTables(e, n, TablesAt(e, n), slot);
    RedirectLineIsRedirect(n, d.addrs, TablesAt(e, n), slot, k, asking);
  }

  lemma SettledInv(c: State)
    requires Settled(c)
    ensures Inv(c)
  {
    forall slot | slot in c.plans ensures SlotMigration.Inv(Project(c, slot)) {
      InitialInv(Project(c, slot));
    }
  }

  /**
   * A NODE at the leader keeps every other override exactly when the leader's
   * table agrees with the register on all other slots.
   */
  lemma AssignKeepsOthersIff(owners: Owners, register: Bytes, slot: Slot16, addr: Addr)
    requires Writable(owners) && slot < SLOT_NUMBER && addr.text != [] && Plain(addr.text)
    ensures ParseOwnerMap(OwnerMapJson(owners[slot := addr])) == ParseOwnerMap(register)[slot := addr]
            <==> owners - {slot} == ParseOwnerMap(register) - {slot}
  {
    hide ParseOwnerMap, OwnerMapJson;
    WriteReadsBack(owners, slot, addr);
    var read := ParseOwnerMap(register);
    if owners - {slot} == read - {slot} {
      SameBut(owners, read, slot, addr);
    }
    assert owners - {slot} == owners[slot := addr] - {slot};
    assert read - {slot} == read[slot := addr] - {slot};
  }

  lemma SameBut(a: Owners, b: Owners, slot: Slot16, addr: Addr)
    requires a - {slot} == b - {slot}
    ensures a[slot := addr] == b[slot := addr]
  {
    assert a[slot := addr] == (a - {slot})[slot := addr];
    assert b[slot := addr] == (b - {slot})[slot := addr];
  }

  /**
   * A leader that restarted, so that its table is blank, and has not synced: migrating one slot to
   * its NODE drops the override of another slot that the register still held.
   */
  lemma RestartedLeaderExample(a: Addr, b: Addr)
    requires a != b && a.text != [] && Plain(a.text) && b.text != [] && Plain(b.text)
    ensures var blank := Tables(map[], map[], map[], map[]);
            var c := State([a, b], a, map[a := blank, b := blank], OwnerMapJson(map[1 := b]), map[2 := Plan(a, b, {}, {})]);
            exists d :: Runs(c, [At(2, Migrating), At(2, SetNode(a))], d)
                        && 1 in ParseOwnerMap(c.register) && 1 !in ParseOwnerMap(d.register)
  {
    hide OwnerMapJson, ParseOwnerMap, BandAddr;
    var none: Owners := map[];
    WriteReadsBack(none, 1, b);
    WriteReadsBack(none, 2, b);
    assert none[1 := b] == map[1 := b];
    var blank := Tables(map[], map[], map[], map[]);
    var c := State([a, b], a, map[a := blank, b := blank], OwnerMapJson(map[1 := b]), map[2 := Plan(a, b, {}, {})]);
    var c1 := After(c, At(2, Migrating));
    assert Allowed(c, At(2, Migrating));
    assert View(c1.nodes[a], 2) == Node(None, Some(b), None, {});
    assert Allowed(c1, At(2, SetNode(a)));
    var d := After(c1, At(2, SetNode(a)));
    assert d.register == OwnerMapJson(none[2 := b]);
    assert Runs(d, [], d);
    assert [At(2, SetNode(a))][1..] == [];
    assert Runs(c1, [At(2, SetNode(a))], d);
    assert [At(2, Migrating), At(2, SetNode(a))][1..] == [At(2, SetNode(a))];
  }
}
