/** One node's routing tables, the SETSLOT command that changes them, and the per-command redirect. */
module ClusterNode {
  import opened Bytes
  import opened Decimal
  import opened SlotMigration
  import opened OwnerMap
  import opened Routing

  /** The shared routing state of a node, and the keys it stores per slot. */
  datatype Tables = Tables(
    owners: Owners, migrating: map<Slot16, Addr>, importing: map<Slot16, Addr>, keys: map<Slot16, set<Key>>)

  function Get<V>(m: map<Slot16, V>, slot: Slot16): Option<V> {
    if slot in m then Some(m[slot]) else None
  }

  /** What the tables say about one slot. */
  function View(t: Tables, slot: Slot16): Node {
    Node(Get(t.owners, slot), Get(t.migrating, slot), Get(t.importing, slot),
         if slot in t.keys then t.keys[slot] else {})
  }

  /** The redirect line of a routed command; `None` means it is served here. */
  function RedirectLine(self: Addr, addrs: seq<Addr>, t: Tables, slot: Slot16, key: Key, asking: bool): Option<Decision> {
    if slot in t.importing then
      if asking then None else Some(Moved(t.importing[slot]))
    else
      var per := if addrs == [] then 0 else PerNode(|addrs|);
      var route := RouteWithOwners(slot, addrs, per, self, t.owners);
      if route.Elsewhere? then Some(Moved(route.addr))
      else if slot in t.migrating && !KeyPresent(t, slot, key) then Some(Ask(t.migrating[slot]))
      else None
  }

  predicate KeyPresent(t: Tables, slot: Slot16, key: Key) {
    slot in t.keys && key in t.keys[slot]
  }

  /** The equal-split owner of a slot; the empty address while no instance is known. */
  function BandAddr(addrs: seq<Addr>, slot: Slot16): Addr {
    if addrs == [] then Addr([]) else addrs[BandIndex(slot, |addrs|, PerNode(|addrs|), 0)]
  }

  /** The redirect depends on nothing but the node's view of that slot and the slot's band. */
  lemma RedirectLineIsRedirect(self: Addr, addrs: seq<Addr>, t: Tables, slot: Slot16, key: Key, asking: bool)
    requires addrs != []
    ensures RedirectLine(self, addrs, t, slot, key, asking) ==
            var d := Redirect(self, BandAddr(addrs, slot), View(t, slot), key, asking);
            if d.Serve? then None else Some(d)
  {
    LocalIffOwner(slot, addrs, self, t.owners);
  }

  // SETSLOT.

  datatype SlotCommand =
    | Mark(slot: Slot16, importing: bool, addr: Addr)
    | Stable(slot: Slot16)
    | Assign(slot: Slot16, addr: Addr)

  datatype Reply = Okay | WrongArity | InvalidSlot | UnknownNode | UnknownSubcommand

  const MIGRATING: Bytes := [77, 73, 71, 82, 65, 84, 73, 78, 71]
  const IMPORTING: Bytes := [73, 77, 80, 79, 82, 84, 73, 78, 71]
  const STABLE: Bytes := [83, 84, 65, 66, 76, 69]
  const NODE: Bytes := [78, 79, 68, 69]

  function Upper(b: byte): byte {
    if 97 <= b <= 122 then b - 32 else b
  }

  function AsciiUpper(s: Bytes): (r: Bytes)
    ensures |r| == |s|
  {
    seq(|s|, i requires 0 <= i < |s| => Upper(s[i]))
  }

  /** The first listed address with this id. */
  function NodeWithId(addrs: seq<Addr>, id: Addr -> Bytes, wanted: Bytes): (r: Option<Addr>)
    ensures r.Some? ==> r.value in addrs && id(r.value) == wanted
    ensures r.None? ==> forall a <- addrs :: id(a) != wanted
  {
    if addrs == [] then None
    else if id(addrs[0]) == wanted then Some(addrs[0])
    else NodeWithId(addrs[1..], id, wanted)
  }

  /** The command of `SETSLOT <slot> <sub> [<id>]`, or the error it is answered with. */
  function Understood(args: seq<Bytes>, addrs: seq<Addr>, id: Addr -> Bytes): (r: (Option<SlotCommand>, Reply))
    ensures r.0.Some? <==> r.1.Okay?
    ensures r.0.Some? && !r.0.value.Stable? ==> r.0.value.addr in addrs
  {
    if |args| < 3 then (None, WrongArity)
    else
      var slot := ParseU16(args[1]);
      var sub := AsciiUpper(args[2]);
      if slot.None? then (None, InvalidSlot)
      else if sub == STABLE then (Some(Stable(slot.value)), Okay)
      else if sub != MIGRATING && sub != IMPORTING && sub != NODE then (None, UnknownSubcommand)
      else if |args| < 4 then (None, WrongArity)
      else
        var addr := NodeWithId(addrs, id, args[3]);
        if addr.None? then (None, UnknownNode)
        else if sub == NODE then (Some(Assign(slot.value, addr.value)), Okay)
        else (Some(Mark(slot.value, sub == IMPORTING, addr.value)), Okay)
  }

  function Applied(t: Tables, c: SlotCommand): Tables {
    match c
    case Mark(slot, true, addr) => t.(importing := t.importing[slot := addr])
    case Mark(slot, false, addr) => t.(migrating := t.migrating[slot := addr])
    case Stable(slot) => t.(migrating := t.migrating - {slot}, importing := t.importing - {slot})
    case Assign(slot, addr) =>
      Tables(t.owners[slot := addr], t.migrating - {slot}, t.importing - {slot}, t.keys)
  }

  /** A SETSLOT command acts on its own slot as the migration protocol's step, and on no other slot. */
  lemma AppliedViews(t: Tables, c: SlotCommand, slot: Slot16)
    ensures var v, w := View(t, slot), View(Applied(t, c), slot);
            if slot != c.slot then w == v
            else match c
                 case Mark(_, true, addr) => w == v.(importing := Some(addr))
                 case Mark(_, false, addr) => w == v.(migrating := Some(addr))
                 case Stable(_) => w == v.(migrating := None, importing := None)
                 case Assign(_, addr) => w == Assigned(v, addr)
  {
  }

  /** The replicated register; only the leader's appends reach it. */
  class Raft {
    const leader: Addr
    var value: Bytes

    constructor (leader: Addr, value: Bytes)
      ensures this.leader == leader && this.value == value
    {
      this.leader := leader;
      this.value := value;
    }
  }

  /** A client connection's single-shot ASKING flag. */
  class Connection {
    var asking: bool

    constructor ()
      ensures !asking
    {
      asking := false;
    }

    method Asking()
      modifies this
      ensures asking
    {
      asking := true;
    }
  }

  class Server {
    const self: Addr
    var addrs: seq<Addr>
    var owners: Owners
    var migrating: map<Slot16, Addr>
    var importing: map<Slot16, Addr>
    var keys: map<Slot16, set<Key>>

    function State(): Tables
      reads this
    {
      Tables(owners, migrating, importing, keys)
    }

    /** Start-up reads the instance list only: no override until the first sync. */
    constructor (self: Addr, addrs: seq<Addr>)
      ensures this.self == self && this.addrs == addrs
      ensures State() == Tables(map[], map[], map[], map[])
    {
      this.self := self;
      this.addrs := addrs;
      owners, migrating, importing, keys := map[], map[], map[], map[];
    }

    method SetSlot(args: seq<Bytes>, id: Addr -> Bytes, raft: Raft) returns (reply: Reply)
      modifies this, raft
      ensures addrs == old(addrs)
      ensures var (command, answer) := Understood(args, old(addrs), id);
              && reply == answer
              && State() == (if command.Some? then Applied(old(State()), command.value) else old(State()))
              && raft.value == (if command.Some? && command.value.Assign? && self == raft.leader
                                then OwnerMapJson(owners) else old(raft.value))
    {
      if |args| < 3 {
        return WrongArity;
      }
      var slot := ParseU16(args[1]);
      if slot.None? {
        return InvalidSlot;
      }
      var sub := AsciiUpper(args[2]);
      if sub == STABLE {
        migrating := migrating - {slot.value};
        importing := importing - {slot.value};
        return Okay;
      } else if sub != MIGRATING && sub != IMPORTING && sub != NODE {
        return UnknownSubcommand;
      }
      if |args| < 4 {
        return WrongArity;
      }
      var addr := NodeWithId(addrs, id, args[3]);
      if addr.None? {
        return UnknownNode;
      }
      if sub == MIGRATING {
        migrating := migrating[slot.value := addr.value];
      } else if sub == IMPORTING {
        importing := importing[slot.value := addr.value];
      } else {
        owners := owners[slot.value := addr.value];
        migrating := migrating - {slot.value};
        importing := importing - {slot.value};
        var entry := OwnerMapJson(owners);
        if self == raft.leader {
          raft.value := entry;
        }
      }
      reply := Okay;
    }

    /** The periodic re-read: instance list and override table are replaced wholesale. */
    method Sync(raft: Raft, instances: seq<Addr>)
      modifies this`addrs, this`owners
      ensures addrs == instances && State() == old(State()).(owners := ParseOwnerMap(raft.value))
    {
      addrs := instances;
      owners := ParseOwnerMap(raft.value);
    }

    /** Routing of one command: the ASKING flag is read and cleared whatever the outcome. */
    method RouteCommand(conn: Connection, slot: Slot16, key: Key) returns (line: Option<Decision>)
      requires addrs != []
      modifies conn
      ensures !conn.asking
      ensures var d := Redirect(self, BandAddr(addrs, slot), View(State(), slot), key, old(conn.asking));
              line == if d.Serve? then None else Some(d)
    {
      var asking := conn.asking;
      conn.asking := false;
      RedirectLineIsRedirect(self, addrs, State(), slot, key, asking);
      line := RedirectLine(self, addrs, State(), slot, key, asking);
    }
  }

  const SETSLOT_WORDS: seq<Bytes> := [
    [109, 105, 103, 114, 97, 116, 105, 110, 103], // migrating
    [105, 109, 112, 111, 114, 116, 105, 110, 103], // importing
    [110, 111, 100, 101], // node
    [115, 116, 97, 98, 108, 101]] // stable

  /** The four words of SETSLOT, in lower case as well, and what each of them orders. */
  lemma WordsMeaning(first: Bytes, slot: Slot16, addr: Addr, addrs: seq<Addr>, id: Addr -> Bytes)
    requires addr in addrs && forall a, b :: id(a) == id(b) ==> a == b
    ensures Understood([first, Dec(slot), SETSLOT_WORDS[0], id(addr)], addrs, id) == (Some(Mark(slot, false, addr)), Okay)
    ensures Understood([first, Dec(slot), SETSLOT_WORDS[1], id(addr)], addrs, id) == (Some(Mark(slot, true, addr)), Okay)
    ensures Understood([first, Dec(slot), SETSLOT_WORDS[2], id(addr)], addrs, id) == (Some(Assign(slot, addr)), Okay)
    ensures Understood([first, Dec(slot), SETSLOT_WORDS[3]], addrs, id) == (Some(Stable(slot)), Okay)
  {
    hide Dec, ParseU16;
    ParseOfDecU16(slot);
    assert NodeWithId(addrs, id, id(addr)) == Some(addr);
    assert AsciiUpper(SETSLOT_WORDS[0]) == MIGRATING;
    assert AsciiUpper(SETSLOT_WORDS[1]) == IMPORTING;
    assert AsciiUpper(SETSLOT_WORDS[2]) == NODE;
    assert AsciiUpper(SETSLOT_WORDS[3]) == STABLE;
  }
}
