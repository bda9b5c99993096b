# rdb: a verified model of a Redis-Cluster-compatible store

rdb keeps Redis data types in an ordered key-value store, spreads 16384 hash slots over several
nodes, and moves slots between running nodes. This project models the parts of it that are hard to
get right and proves what they promise:

- **Slot migration and redirection** (`SlotMigration`, `OwnerMap`, `Routing`, `ClusterNode`,
  `Cluster`). Nodes with override, MIGRATING and IMPORTING tables, single-shot ASKING, a raft
  register that holds the owner map as text and is re-read wholesale. `SlotMigration` is the
  protocol of one slot as a step relation; `Cluster` runs any number of slots over one register and
  shows that every event refines a step of each slot's protocol.
- **The two-window list** (`ListStore`, `ListSpec`, `ListWindow`, `ListCompact`, `ListRewrite`,
  `ListDb`, `ListEnds`, `ListTrim`, `ListInsert`, `ListMove`, `ListPos`, `ListLaws`, `WaitHub`,
  `BlockMove`).
  A list is a left window read downward followed by a right window read upward, kept by counters
  and ordered write batches. Every command is proved against a plain sequence operation; the
  blocking variants are state machines over interleaved commits.
- **The keyspace with deadlines** (`KeyStore`, `KeySpec`, `Keyspace`, `KeyDb`, `KeyBytes`, `Codec`,
  `HashSlot`, `Order`). A key is a bare string, an enveloped string or a typed family with an
  expire-index record. Every command sequence refines a map from keys to a value and a deadline,
  over a store of records per user key. `KeyBytes` takes that store down to the slot's bytes: for
  user keys whose own bytes do not have a record's layout, records never meet, each batch keeps the
  bytes a mirror of the store, and a lookup on them says the same as long as the deadline survives
  its envelope. `KeyDb.Db.RunAll` speaks for those keys and those deadlines.
- **The sorted set** (`SortedIndex`, `SortedSet`, `SortedSetDb`): member records, ordered score
  records and a counter that must agree.
- **SCAN** (`Scan`), the **glob matcher** (`Glob`, `GlobLaws`), **JSON paths and documents** (`Utf8`,
  `Utf8Laws`, `JsonPath`, `JsonTree`), the **RESP client codec** (`Resp`, `Decimal`) and the **CRCs**
  (`Crc`, `CrcWords`).

Objects that the program updates in place are classes (`ListDb.Db`, `KeyDb.Db`,
`SortedSetDb.ZSet`, `ClusterNode.Server`, `ClusterNode.Connection`, `JsonTree.JsonKey`) and its loops are loops; each such
method is proved against a function on values, and the laws are lemmas about those functions: what
each command means for a plain sequence, map, set of numbers or document, stated without them.
Integers are unbounded where the source's width cannot be reached (list indices, counters) and
bounded where it matters (i64 text, u16 slots, 64-bit deadlines and score codes).

## What turned out false

Each of these has a lemma at a failing input and the exact condition.

- *The migration driver keeps ownership safe.* It sends SETSLOT NODE to the source, then to the
  destination, and to nobody else. After the next sync every node routes to the destination exactly
  when one of the two is the raft leader (`SlotMigration.DriverSurvivesSync`), and a sync at the
  source between the two commands makes it serve moved keys again exactly when it is not the leader
  (`SlotMigration.DriverWindow`; a three-node run that ends with a key in two stores is
  `SlotMigration.DriverWindowExample`). With the leader first, every run is safe
  (`SlotMigration.MigrationSafety`).
- *A client always reaches the node holding its key with one redirect.* Between the leader's switch and
  the destination's own NODE the source and the destination can send it back and forth
  (`SlotMigration.PingPongExample`). It reaches the holder exactly when the leader has not switched
  yet or the destination is no longer importing (`SlotMigration.HolderIsReachableIff`).
- *NODE at the leader never drops another override.* It does when the leader has not synced since it
  started (`Cluster.RestartedLeaderExample`); it keeps them exactly when its table agrees with the
  register (`Cluster.AssignKeepsOthersIff`). The text loses overrides of slots at or above 16384,
  which SETSLOT accepts (`OwnerMap.BeyondLastSlotExample`), and of empty addresses, and no others
  (`OwnerMap.RoundTrip`).
- *Writing one key never touches another.* A bare string is stored under its own bytes, so a SET of a
  key that looks like a record header makes another key of the same slot appear
  (`KeyBytes.ForeignKeyExample`, `Codec.OneSlotExample`). A bare string lies on another key's record
  exactly when decoding its bytes as a record key succeeds (`Codec.RawMeetsRecordIff`,
  `Codec.RawMeetsIndexIff`); for all other keys records never meet (`KeyBytes.PlacesApart`). The
  source accepts this for first bytes of old strings (src/ds/codec.rs:317).
- *ZADD keeps the score records equal to the member records.* A duplicate member that re-adds its zero
  under the other sign and then moves away leaves a stale record (`SortedSet.NegativeZeroExample`).
  With the stored score put in front of the scores the call gives a member, a zero record is left
  behind exactly when the last finished run of zeros that starts or ends with it starts with it and
  ends with the other sign, and no unfinished run starts with it (`SortedSet.StaleIff`); no record is
  left exactly when that holds of no member (`SortedSet.NothingStaleIff`, `SortedSetDb.ZSet.Add`).
- *A deadline survives its envelope.* Exactly below 2^63, or at the largest 64-bit value
  (`Codec.EnvelopeRoundTrip`); every other one reads back as the largest value
  (`Codec.LateDeadlineSaturates`), so a lookup agrees with what was written exactly then
  (`KeyBytes.LookUpIff`).
- *JSON removal removes only what the path names.* An invalid UTF-8 last name is looked up as the empty
  name (`JsonTree.InvalidNameExample`, `JsonTree.RemovesWhatIsNamedIff`); a path round-trips exactly
  when its names are valid UTF-8 (`JsonPath.InvalidNameExample`, `JsonPath.RoundTripIff`).
- *SCAN from "0" returns every key that stays.* A string whose first byte is a record kind, a space among
  them, is never returned (`Scan.SpaceExample`), nor is the empty key when the walk is confined to its
  slot (`Scan.EmptyKeyExample`); every other string that passes the filter is returned exactly once
  (`Scan.StringFoundIff`), and so is every collection (`Scan.CollectionFoundIff`).
- *BLMOVE never loses an element.* It does exactly when the second commit finds both keys retyped
  (`BlockMove.LossExample`, `BlockMove.LostIffBothRetyped`). Uninterrupted it is LMOVE, exactly
  unless it moves the only element of a list with a deadline onto that list, whose deadline it loses
  (`BlockMove.UninterruptedMoveIff`). Restoring the only element of a list
  loses the list's deadline (`ListMove.RestoreLosesDeadlineExample`), and restoring any other loses
  nothing (`ListMove.RestoreUndoesPop`).
- *Every displayed node band is a range.* Exactly below 16384 nodes (`Routing.EmptyBandExample`,
  `Routing.BandsNonEmptyIff`); an override naming an unlisted address is displayed under the first
  node (`Routing.UnlistedOverrideExample`, `Routing.DisplayIsOwner`).

The code and its comments disagree in two places, where the model follows the code: a missing deadline
is said to count as infinite for EXPIRE's LT flag, but the code refuses LT then; and a path index is said
to take an optional minus, but the parser takes a plus as well.

## Model

| member | source | states |
|---|---|---|
| `SlotMigration.MigrationSafety` | src/command/mod.rs:321-372 | Over every run of IMPORTING, MIGRATING, key moves, single-key commands, ASK-then-ASKING retries, syncs and leader-first NODE, through any number of migrations in a row, no key is in two stores and no two nodes serve it |
| `SlotMigration.StepKeepsInv` | src/command/cluster_slot.rs:39-117 | Every step of the protocol keeps the invariant behind the safety theorem |
| `SlotMigration.RunKeepsInv` | src/command/cluster_slot.rs:39-117 | So does every run |
| `SlotMigration.CommandKeepsInv` | src/command/mod.rs:449-472 | A routed command, asking or not, that creates, keeps or deletes its key keeps the invariant |
| `SlotMigration.SetNodeKeepsInv` | src/command/cluster_slot.rs:95-115 | NODE keeps it when the leader goes first and the source is drained |
| `SlotMigration.SyncKeepsInv` | src/main.rs:88-101 | A topology sync at any node at any time keeps it |
| `SlotMigration.OneServer` | src/command/mod.rs:321-372 | In every state of the invariant two different nodes neither hold nor serve the same key |
| `SlotMigration.RunKeepsKey` | src/command/migrate/task.rs:119-144 | A key leaves the cluster only through a served deletion: moves, syncs and ownership changes never lose it |
| `SlotMigration.HolderIsReachableIff` | src/command/mod.rs:330-371 | In every state of the invariant a client sent to the replicated owner is served by the holder of its key directly or after one ASK, if and only if the leader has not handled NODE yet or the destination no longer imports |
| `SlotMigration.PingPongExample` | src/command/mod.rs:337-361 | In the remaining window a reachable state, with the key already moved, has source and destination redirect to each other |
| `SlotMigration.SettledRoutesToDestination` | src/main.rs:88-101 | Once leader, source and destination have handled NODE, any node routes to the destination after its next sync and the destination serves |
| `SlotMigration.MigrationCompletes` | src/command/cluster_slot.rs:39-117 | The disciplined order can be followed to the end: a run exists in which the key arrives and all three nodes have handled NODE |
| `SlotMigration.DriverSurvivesSync` | src/command/migrate/task.rs:146-169 | The driver's two NODE commands survive a sync if and only if the leader is one of the two nodes |
| `SlotMigration.DriverWindow` | src/command/migrate/task.rs:146-169 | A sync at the source between them makes it serve every key again if and only if it is not the leader |
| `SlotMigration.DriverWindowExample` | src/command/migrate/task.rs:146-169 | A run of three nodes from the start through the whole migration of a key; then the driver's first NODE, a sync and a write at the source put the moved key into both stores |
| `OwnerMap.ParseOfJson` | src/topology.rs:67-97 | Reading back the leader's text gives exactly the overrides of slots below 16384 with non-empty addresses |
| `OwnerMap.RoundTrip` | src/topology.rs:67-97 | No override is lost in the text if and only if every one is of that kind |
| `OwnerMap.EntriesAscend` | src/topology.rs:67-80 | Every override is written exactly once, lowest slot first |
| `OwnerMap.TextExample` | src/topology.rs:67-80 | The text of one override, byte by byte |
| `OwnerMap.BeyondLastSlotExample` | src/topology.rs:67-97 | An override for slot 16384 is written and not read back |
| `OwnerMap.ParseAllMembers` | src/topology.rs:84-87 | The object parser returns every written pair in order |
| `Routing.LocalIffOwner` | src/router.rs:54-72 | A node answers locally exactly when it is the slot's owner, and otherwise names the owner |
| `Routing.SomeNodeIsLocal` | src/router.rs:54-72 | Some listed node answers locally if and only if the slot's override, if any, names a listed node |
| `Routing.BandIffInRange` | src/router.rs:30-48 | The first-match search picks a node exactly when the slot lies in that node's band |
| `Routing.AttributedRanges` | src/command/cluster.rs:129-165 | The displayed ranges tile 0..16383 into consecutive non-empty runs of one owner, each starting where the owner changes |
| `Routing.RunEnd` | src/command/cluster.rs:152-155 | The inner loop finds the end of the maximal run |
| `Routing.TilesCover` | src/command/cluster.rs:148-164 | Every slot is in exactly one displayed range, which carries its owner's id |
| `Routing.TilesAlternate` | src/command/cluster.rs:148-164 | Neighbouring ranges belong to different nodes and touch |
| `Routing.DisplayIsOwner` | src/command/cluster.rs:139-147 | The displayed owner is the routed owner if and only if the override names a listed node |
| `Routing.UnlistedOverrideExample` | src/command/cluster.rs:139-147 | An override to an unlisted node is displayed under the first node |
| `Routing.DisplayAgreesWithRouting` | src/command/cluster.rs:129-165 | The range holding a slot carries the id of the node that answers it locally |
| `Routing.ParseNodeSlots` | src/topology.rs:115-134 | Each address gets its band; of a repeated address the last one stays |
| `Routing.BandsAgreeWithRouting` | src/topology.rs:115-134 | Without overrides a node's displayed band holds exactly the slots routed to it |
| `Routing.BandsNonEmptyIff` | src/topology.rs:120-131 | All displayed bands are non-empty if and only if there are fewer than 16384 nodes |
| `Routing.EmptyBandExample` | src/topology.rs:120-131 | With 16384 nodes the last one's band is empty |
| `ClusterNode.RedirectLineIsRedirect` | src/command/mod.rs:321-372 | The redirect line depends only on the node's view of that slot and the slot's band, as in the protocol |
| `ClusterNode.Understood` | src/command/cluster_slot.rs:20-139 | A SETSLOT argument list is understood or answered with an error; a named node is always a listed one |
| `ClusterNode.WordsMeaning` | src/command/cluster_slot.rs:37-130 | MIGRATING, IMPORTING, NODE and STABLE, in either case, order what their names say for the named slot and node |
| `ClusterNode.NodeWithId` | src/command/cluster_slot.rs:128-135 | Finds a listed address with the id, or there is none |
| `ClusterNode.AppliedViews` | src/command/cluster_slot.rs:39-105 | A SETSLOT changes its own slot's view as the protocol's step and no other slot's |
| `ClusterNode.Server.SetSlot` | src/command/cluster_slot.rs:19-124 | New tables for each subcommand, nothing changed on an error, the register rewritten from the whole table by the leader only |
| `ClusterNode.Server.RouteCommand` | src/command/mod.rs:449-472 | The ASKING flag is consumed by exactly one routed command, which is redirected as the protocol says |
| `Cluster.StepRefines` | src/command/cluster_slot.rs:39-117 | Every cluster event is, for every slot, a step of the one-slot protocol or invisible to it |
| `Cluster.SameSlotRefines` | src/command/cluster_slot.rs:39-94 | Marks, key moves and commands on a slot refine that slot's step |
| `Cluster.OtherSlotUntouched` | src/command/cluster_slot.rs:39-94 | They are invisible to every other slot |
| `Cluster.AssignRefines` | src/command/cluster_slot.rs:95-115 | Rewriting the whole register for one slot leaves every other slot's replicated owner alone |
| `Cluster.StepKeepsLeader` | src/command/cluster_slot.rs:95-115 | The leader's table equals the parsed register after every NODE and sync |
| `Cluster.RunKeepsInv` | src/main.rs:88-101 | Every run keeps that and every slot's invariant |
| `Cluster.ClusterSafety` | src/command/mod.rs:321-372 | Over every run with any number of migrating slots: no lost override, no key in two stores, at most one node serving a key |
| `Cluster.ClusterSettles` | src/main.rs:88-101 | Once leader, source and destination have handled NODE, every node's redirect after any sync is to the destination |
| `Cluster.SettledExample` | src/topology.rs:84-104 | The starting states of these theorems exist |
| `Cluster.AssignKeepsOthersIff` | src/command/cluster_slot.rs:95-115 | NODE at the leader keeps all other overrides if and only if its table agrees with the register on them |
| `Cluster.RestartedLeaderExample` | src/main.rs:376-379 | A run: a leader with empty tables handles MIGRATING and NODE for one slot, and another slot's replicated override is gone from the register |
| `ListDb.Db.Resolve` | src/command/list_cmd.rs:44-61 | A lookup wipes a due list, changes no other key and keeps what the user sees |
| `ListRewrite.FinishList` | src/command/list_cmd.rs:67-90 | After any batch whose windows fit the new counters the key is a well-formed list with those elements, or gone when empty |
| `ListEnds.Push` | src/command/list_cmd.rs:149-209 | LPUSH, RPUSH and their X variants equal pushing the elements one by one at that end of the sequence |
| `ListLaws.PushOneMeaning` | src/command/list_cmd.rs:149-209 | A push puts the element at its end, starts a missing list without a deadline or, as PUSHX, does not, and spares other types |
| `ListLaws.PushOneByOne` | src/command/list_cmd.rs:149-209 | Pushing several elements is pushing them one after the other |
| `ListEnds.PushEffect` | src/command/list_cmd.rs:175-196 | The numbered puts and the new counters denote the pushed sequence and keep both windows dense |
| `ListEnds.PopCore` | src/command/list_ops.rs:65-167 | A counted pop returns that many elements off that end, across the window boundary, and leaves the rest |
| `ListLaws.PopOneMeaning` | src/command/list_ops.rs:65-167 | A pop takes the element at its end; the last one takes the key with it |
| `ListLaws.PopOneByOne` | src/command/list_ops.rs:65-167 | A counted pop is that many pops, and replies their elements in order |
| `ListEnds.PopEffect` | src/command/list_ops.rs:81-153 | The deletes and the counters of a counted pop denote the remaining sequence |
| `ListEnds.TargetIsEnd` | src/ds/list_ds.rs:285-305 | The constant-time target is the first or last element |
| `ListMove.PopOneEffect` | src/command/list_cmd.rs:110-143 | The single-pop counters denote the remaining sequence |
| `ListMove.TwoPopsAgree` | src/command/list_ops.rs:128-152 | The two different counter updates for one element denote the same sequence; they differ exactly when the last element of the far window is taken |
| `ListCompact.CompactSide` | src/command/list_rewrite.rs:35-88 | The loop builds exactly the deletes of the vacated slots and the puts of the moved survivors |
| `ListCompact.CompactEffect` | src/command/list_rewrite.rs:35-88 | Though deletes and puts overlap, the window afterwards holds exactly the renumbered survivors |
| `ListCompact.RenumberedReads` | src/command/list_rewrite.rs:60-88 | That window is dense and reads as the survivors in order |
| `ListRewrite.RewriteEffect` | src/command/list_rewrite.rs:160-168 | Both windows rewritten denote the list without the marked positions |
| `ListTrim.Lrem` | src/command/list_rewrite.rs:92-181 | LREM removes exactly the first, last or all matches and replies how many |
| `ListLaws.RemMeaning` | src/command/list_rewrite.rs:92-181 | A positive count clears the copies in front of a cut that has that many before it, a negative one those behind; 0, or a count above what is there, clears all; the reply is how many |
| `ListTrim.MarkMatches` | src/command/list_rewrite.rs:130-159 | The budgeted visit marks exactly the first (or last) matches |
| `ListTrim.Ltrim` | src/command/list_rewrite.rs:186-267 | LTRIM keeps exactly the clamped slice, or removes the key |
| `ListLaws.SlicedMeaning` | src/command/list_rewrite.rs:186-267 | The slice runs between the two positions, counted from the back when negative, cut to the list |
| `ListLaws.TrimMeaning` | src/command/list_rewrite.rs:186-267 | LTRIM keeps it with the deadline, or drops the key |
| `ListTrim.MarkOutside` | src/command/list_rewrite.rs:231-245 | The marks are exactly the positions outside the slice |
| `ListTrim.ClampSelects` | src/command/list_cmd.rs:252-264 | The clamped window holds exactly the positions between the two resolved ends |
| `ListTrim.RemoveZeroRemovesAll` | src/command/list_rewrite.rs:132-136 | Count 0 leaves no copy and nothing else changes |
| `ListSpec.RemoveFirstCounts` | src/command/list_rewrite.rs:130-159 | Removing n matches takes that many copies of the element and nothing else |
| `ListSpec.RemoveLastMirrors` | src/command/list_rewrite.rs:137-144 | Removing from the tail is removing from the head of the reversed list |
| `ListInsert.Linsert` | src/command/list_move.rs:33-124 | LINSERT equals inserting beside the first pivot of the sequence |
| `ListLaws.InsertMeaning` | src/command/list_move.rs:33-124 | BEFORE puts the element right before the first pivot, AFTER right after it, and the reply is the new length |
| `ListLaws.InsertMisses` | src/command/list_move.rs:33-124 | Without a pivot nothing changes: -1, 0 or an error |
| `ListInsert.InsertEffect` | src/command/list_move.rs:69-116 | Shifting the head of the left window or the tail of the right one inserts the element into the whole list |
| `ListInsert.FindPivot` | src/command/list_move.rs:76-84 | The search returns the first pivot |
| `ListPos.Lpos` | src/command/list_move.rs:129-254 | LPOS returns the matches in search order, after RANK, up to COUNT, within MAXLEN |
| `ListLaws.PosMeaning` | src/command/list_move.rs:129-254 | The positions are exactly those of the copies numbered from RANK on, as many as COUNT says, among the MAXLEN entries from that end, in search order |
| `ListLaws.PosRefused` | src/command/list_move.rs:129-254 | The arguments it refuses, and a key without a list |
| `ListPos.Pick` | src/command/list_move.rs:219-241 | The scan skips and takes exactly as asked |
| `ListPos.HitsAreMatches` | src/command/list_move.rs:202-241 | Hits in a window are exactly the positions holding the element |
| `ListPos.HitsAscend` | src/command/list_move.rs:202-241 | They are reported in order |
| `ListMove.Lset` | src/command/list_cmd.rs:349-394 | LSET replaces exactly the addressed element |
| `ListLaws.SetMeaning` | src/command/list_cmd.rs:349-394 | The position is counted from the front, or from the back when negative; beyond either end nothing changes |
| `ListMove.MoveElem` | src/command/list_move.rs:259-367 | LMOVE and RPOPLPUSH equal popping one end and pushing another, in one commit, on two keys or one |
| `ListLaws.MoveMeaning` | src/command/list_move.rs:259-367 | Between two keys, for all four directions and a present or missing destination: what is taken, what stays, and at which end it arrives |
| `ListLaws.MoveRefused` | src/command/list_move.rs:259-367 | Without a source, or with another type on either side, nothing moves |
| `ListMove.MoveConserves` | src/command/list_move.rs:298-353 | The two lists together hold the same elements before and after |
| `ListMove.SameKeyMoveRotates` | src/command/list_move.rs:298-353 | On one key the move is a rotation or nothing, for all four direction pairs |
| `ListMove.QuickPop` | src/command/list_block.rs:95-155 | The blocking pop's first look pops one element or finds none |
| `ListMove.PushOne` | src/command/list_block.rs:224-267 | The second commit pushes one element unless the key has another type |
| `ListMove.RestoreUndoesPop` | src/command/list_block.rs:239-267 | Restoring a popped element gives the list back, without its deadline when it was the only element |
| `ListMove.RestoreLosesDeadlineExample` | src/command/list_block.rs:239-267 | A list of one element comes back without its deadline |
| `WaitHub.NoLostWakeup` | src/command/list_block.rs:83-181 | In every reachable state where the client is parked and unsignalled, each of its lists is empty or a writer that filled it still owes the notify |
| `WaitHub.StepKeepsInv` | src/command/list_block.rs:83-181 | Every interleaved step of client and writers keeps the invariant behind it |
| `WaitHub.RunKeepsInv` | src/command/list_block.rs:83-181 | It holds in every state of every run, renewals of the park's time slice included |
| `WaitHub.PendingKept` | src/command/list_cmd.rs:155-208 | A pending notify is pending until it is given |
| `WaitHub.AnswersIff` | src/command/list_block.rs:83-181 | The client answers exactly with an element of the key it looks at, or when its time is up |
| `WaitHub.WakeStartsOver` | src/command/list_block.rs:83-181 | A wake or a renewed slice leads back to registering and looking at every key |
| `WaitHub.FilledMeaning` | src/command/list_cmd.rs:155-208 | Only the pop and a writer's commit change which lists are filled, and how |
| `BlockMove.StepConserves` | src/command/list_block.rs:271-334 | Each of the two commits conserves every element; another client's push brings exactly its arguments, its pop takes exactly its reply, its move changes nothing, and any other change is booked as the difference it makes |
| `BlockMove.PopCommit` | src/command/list_block.rs:95-155 | The pop on the store, seen over any set of keys, is the run's first commit, or leaves an empty source as it is |
| `BlockMove.PushCommit` | src/command/list_block.rs:239-334 | The push on the store, with the push back on refusal, is the run's second commit |
| `BlockMove.UninterruptedMoveIff` | src/command/list_block.rs:271-334 | The two commits in a row are one LMOVE if and only if it is not a single element with a deadline moved onto its own list |
| `BlockMove.RefusedMoveRestores` | src/command/list_block.rs:239-267 | A refused destination puts the list back, but for the deadline of a single element |
| `BlockMove.PushStepMeaning` | src/command/list_block.rs:239-334 | The second commit puts its element at the asked end of the destination, else at the end of the source it came from, else nowhere |
| `BlockMove.RunConserves` | src/command/list_block.rs:271-334 | So does every interleaved run: an element is in a list, in flight, restored or counted as lost |
| `BlockMove.LostIffBothRetyped` | src/command/list_block.rs:239-267 | A copy is lost if and only if a second commit finds both keys another type |
| `BlockMove.LossExample` | src/command/list_block.rs:239-267 | A concrete loss |
| `KeyStore.FindState` | src/command/keys_core.rs:111-141 | The scan over the meta kinds finds the one shape the key has |
| `KeyStore.IndexIffDeadline` | src/ds/expire/mod.rs:52-67 | An expire-index entry is present if and only if its root is there with that deadline |
| `KeyStore.OneShape` | src/command/keys_core.rs:111-141 | A key never has a bare record beside typed ones, nor records of two families, nor elements without a root |
| `KeyStore.FamilyMeaning` | src/ds/codec.rs:138-158 | A family starts at a meta kind and runs up to the next one |
| `KeySpec.ViewMeaning` | src/command/keys_core.rs:111-141 | A user sees a string's bytes, or all of a collection's elements, with the root's deadline |
| `Keyspace.ClearEffect` | src/command/string.rs:62-88 | Clearing what a lookup found leaves nothing of the key, its index entry included |
| `Keyspace.ClearBare` | src/command/string.rs:62-88 | Clearing with a stale state cannot damage a string written earlier in the batch |
| `Keyspace.WriteEffect` | src/command/string.rs:93-107 | A written string is one record, with an index entry exactly when it has a deadline |
| `Keyspace.TtlEffect` | src/ds/expire/mod.rs:52-67 | Index maintenance leaves exactly the new deadline's entry, also when old and new are the same |
| `Keyspace.RetimedView` | src/command/keys_core.rs:237-247 | A deadline change changes the deadline and nothing else |
| `Keyspace.MoveTailEffect` | src/command/keys_core.rs:457-503 | After the copies, the rest of a move leaves the destination exactly the source's records and the source nothing |
| `KeyDb.Db.Resolve` | src/command/keys_core.rs:111-141 | A lookup drops a due key and nothing else, and returns what is left |
| `KeyDb.Db.Set` | src/command/string.rs:164-220 | SET with NX, XX, GET and KEEPTTL refines its step on the user's map |
| `KeySpec.SetMeaning` | src/command/string.rs:164-220 | SET writes the string with the given deadline, none, or the old one under KEEPTTL; NX and XX veto by whether the key is alive, GET reports the old string or refuses a collection; no other key changes |
| `KeyDb.Db.MSet` | src/command/string.rs:278-318 | MSET, with repeated keys and states read before the batch is written, refines assigning the pairs in order |
| `KeyDb.Db.ApplyTtl` | src/command/keys_core.rs:212-261 | EXPIRE with its flags, and a past deadline as a deletion, refine the map |
| `KeyDb.Db.Persist` | src/command/keys_core.rs:265-295 | PERSIST removes exactly the deadline |
| `KeySpec.PersistMeaning` | src/command/keys_core.rs:265-295 | Exactly the deadline goes, and the reply says whether there was one |
| `KeyDb.Db.Rename` | src/command/keys_core.rs:342-405 | RENAME and RENAMENX move value, elements and deadline over whatever was there |
| `KeySpec.RenameMeaning` | src/command/keys_core.rs:342-405 | A live entry moves with its deadline over whatever is there; RENAMENX only onto a key that is not alive; otherwise nothing alive changes |
| `KeyDb.MoveFamily` | src/command/keys_core.rs:411-504 | The copied records, range deletes and index entries turn the destination into the source and the source into nothing |
| `KeyDb.Db.Delete` | src/command/keys_core.rs:161-207 | DEL removes the key in whichever shape it exists |
| `KeySpec.DeleteMeaning` | src/command/keys_core.rs:161-207 | No trace is left, and the reply says whether the key was alive |
| `KeyDb.Db.Run` | src/command/keys_core.rs:212-405 | Every command refines its step and keeps every key in one well-formed shape |
| `KeyDb.Db.RunAll` | src/command/keys_core.rs:212-405 | Every sequence of commands refines the user's map, replies included, over records kept per user key; `KeyBytes` says for which keys and deadlines the bytes agree |
| `KeyBytes.PlacesApart` | src/ds/codec.rs:160-211 | The bare string, elements and index entries of keys that do not read as records themselves never share a physical key |
| `KeyBytes.RangeIsConfined` | src/ds/codec.rs:232-244 | A delete range holds its key's records of its kind and nothing else of those keys, bare strings and index entries included |
| `KeyBytes.CommitMirrors` | src/ds/codec.rs:160-257 | A batch applied to physical keys and enveloped values keeps the bytes a mirror of the store the batch was committed to |
| `KeyBytes.LookUp` | src/command/keys_core.rs:118-140 | The probe of the bare string, then of each meta kind's root, is its recursive definition on bytes |
| `KeyBytes.LookUpIff` | src/command/keys_core.rs:118-140 | On mirrored bytes it finds what the records say if and only if the deadline is below 2^63 or the largest value |
| `KeyBytes.ForeignKeyExample` | src/command/keys_core.rs:118-140 | A SET of one key makes a lookup of another, never written, find a hash root |
| `KeySpec.MSetLastWins` | src/command/string.rs:278-318 | The last pair naming a key wins and carries no deadline |
| `KeySpec.ExpireFlags` | src/command/keys_core.rs:145-153 | EXPIRE takes effect if and only if the key is live and its flag agrees (NX sets, XX replaces, GT raises, LT lowers), and then changes only the deadline |
| `KeySpec.ExpireThenPersist` | src/command/keys_core.rs:265-295 | PERSIST undoes EXPIRE |
| `KeySpec.RenameAndBack` | src/command/keys_core.rs:342-405 | Renaming to a free name and back restores the keyspace |
| `KeySpec.KeepTtlKeepsDeadline` | src/command/string.rs:201-206 | KEEPTTL keeps the deadline of a live key |
| `Order.KeyUpperBound` | src/store/rocksdb.rs:267-277 | The in-place carry loop computes the least key above a prefix |
| `Order.BelowMeaning` | src/store/rocksdb.rs:267-277 | A key comes before another exactly when, at the first difference, it ends or has the smaller byte |
| `Order.RangeIsPrefix` | src/store/rocksdb.rs:267-277 | The range from a key to its upper bound holds exactly the keys that start with it |
| `Codec.DecodeInverse` | src/ds/codec.rs:165-199 | Decoding a record key gives kind, user key and suffix back |
| `Codec.ElemKeyInjective` | src/ds/codec.rs:165-180 | Different records never share a physical key |
| `Codec.DeleteRangeIsConfined` | src/ds/codec.rs:232-244 | A kind's delete range of a key covers that key's records of that kind and no other record |
| `Codec.ExpireIndexInjective` | src/ds/codec.rs:204-211 | Different index entries never share a physical key |
| `Codec.ExpireIndexOrder` | src/ds/codec.rs:204-211 | The entry of an earlier deadline sorts first, whatever the keys |
| `Codec.BigEndianOrder` | src/ds/codec.rs:165-211 | Fixed-width integers sort as their bytes do |
| `Codec.RawIsApart` | src/ds/codec.rs:331-343 | A first byte that classifies as raw is enough for a bare string to be no typed record and no index entry |
| `Codec.RawMeetsRecordIff` | src/ds/codec.rs:160-199 | A bare string shares a physical key with some record if and only if its bytes decode as a record key |
| `Codec.RawMeetsIndexIff` | src/ds/codec.rs:160-211 | It shares one with some index entry if and only if its bytes have that layout over a whole root key |
| `Codec.OneSlotExample` | src/hash.rs:44-87 | The two keys of the example hash to one slot |
| `Codec.RawCollisionExample` | src/ds/codec.rs:310-330 | In any slot a bare string lies on another key's hash root |
| `Codec.EncodeEnvelope` | src/ds/codec.rs:247-257 | The loop writes the seven-bit groups of the deadline, then the payload |
| `Codec.DecodeEnvelope` | src/ds/codec.rs:262-278 | The loop reads them back, saturating at the tenth byte |
| `Codec.EnvelopeRoundTrip` | src/ds/codec.rs:247-278 | The payload always survives; the deadline if and only if it is below 2^63 or the largest value |
| `Codec.EnvelopeExample` | src/ds/codec.rs:247-257 | The bytes of two deadlines |
| `Codec.LateDeadlineSaturates` | src/ds/codec.rs:262-278 | Every deadline from 2^63 on reads back as the largest value |
| `SortedIndex.SortableIsMonotone` | src/ds/zset_ds.rs:99-116 | The score code is a bijection that turns the numeric order into byte order |
| `SortedIndex.NumTrichotomy` | src/command/zset_cmd.rs:151-162 | The comparison of scores is trichotomous, and equal scores compare alike |
| `SortedIndex.NumberOrder` | src/ds/zset_ds.rs:99-116 | Codes and the comparison of scores follow the numbers the doubles stand for, sign, exponent and fraction, the two zeros being one number |
| `SortedIndex.OneExample` | src/ds/zset_ds.rs:99-116 | The codes of 1.0 and -1.0 |
| `SortedSet.BeliefsAgree` | src/command/zset_cmd.rs:22-32 | What a call believes about a duplicate member is, as a number, what its batch has stored |
| `SortedSet.AddedMoved` | src/command/zset_cmd.rs:170-184 | Moving a member's score in the batch is one fold step, with the stale record it may leave |
| `SortedSet.AddedNew` | src/command/zset_cmd.rs:174-184 | Adding a member is one fold step and one more member |
| `SortedSet.AddedSkip` | src/command/zset_cmd.rs:145-169 | A vetoed or equal pair is a fold step that changes nothing |
| `SortedSet.NoNegativeZeroNoStale` | src/command/zset_cmd.rs:161-169 | Without negative zeros no stale record arises |
| `SortedSet.AddOneMeaning` | src/command/zset_cmd.rs:145-169 | In numbers: NX only adds, XX only updates, GT only raises, LT only lowers, an equal score stays, any other is taken, and no pair touches another member |
| `SortedSet.ChangesMeaning` | src/command/zset_cmd.rs:161-184 | CH counts the pairs that change the set |
| `SortedSet.StaleIff` | src/command/zset_cmd.rs:145-184 | Which zero records a call leaves behind, by the runs of zeros among the stored score and the given ones |
| `SortedSet.NothingStaleIff` | src/command/zset_cmd.rs:145-184 | None is left if and only if no member's scores leave one |
| `SortedSet.NegativeZeroExample` | src/command/zset_cmd.rs:161-169 | The call that leaves one |
| `SortedSet.IndexCounts` | src/ds/zset_ds.rs:81-86 | There are as many score records as members |
| `SortedSetDb.ZSet.Add` | src/command/zset_cmd.rs:64-197 | ZADD with NX, XX, GT, LT, CH and duplicates is the left fold of its pairs; the reply is the growth in cardinality; score records are those of the members plus the stale ones; the records agree afterwards if and only if no member's scores leave a zero behind |
| `SortedSetDb.ConflictMeaning` | src/command/zset_cmd.rs:92-106 | NX goes with no other flag, and GT not with LT |
| `SortedSetDb.ZSet.AddIncr` | src/command/zset_cmd.rs:203-264 | ZADD INCR moves one member or, vetoed by NX, XX or the two numbers under GT and LT, nothing, and keeps the records in agreement |
| `SortedSetDb.ZSet.IncrBy` | src/command/zset_cmd.rs:267-326 | ZINCRBY likewise |
| `SortedSetDb.ZSet.Rem` | src/command/zset_pop.rs:19-66 | ZREM removes exactly the named members, each counted once |
| `SortedSetDb.Dedup` | src/command/zset_pop.rs:25-30 | Arguments without repetition |
| `SortedSetDb.ZSet.Pop` | src/command/zset_pop.rs:73-164 | ZPOPMIN and ZPOPMAX return the n extreme entries in order and leave precisely the rest; by number, then by bytes, everything popped comes before everything left |
| `SortedSetDb.ExtremesMeaning` | src/command/zset_pop.rs:119-142 | The same of any ordered entries: how many go, in which order, and that the rest comes after |
| `SortedSetDb.Window` | src/command/zset_pop.rs:119-142 | The bounded queue ends with the last n, the early stop with the first n |
| `SortedSetDb.ZSet.Commit` | src/command/zset_util.rs:141-164 | The batch, then the counter, or nothing at all at zero |
| `SortedSetDb.ZSet.Rank` | src/command/zset_read.rs:174-237 | ZRANK and ZREVRANK give the number of members that come before it from that end, by number, then by bytes, which is its position |
| `SortedSetDb.CountBefore` | src/ds/zset_ds.rs:233-254 | The scan's count is the record's position |
| `SortedSetDb.RanksMirror` | src/command/zset_read.rs:219-229 | The two ranks add up to the cardinality minus one |
| `SortedSetDb.RangeAtRank` | src/command/zset_range.rs:285-305 | ZRANGE at a member's rank is that member |
| `SortedSetDb.ZSet.RangeByRank` | src/command/zset_range.rs:277-306 | ZRANGE and ZREVRANGE return the slice that LRANGE would of the list of all members with their scores, in ascending or descending order by number, then by bytes |
| `Scan.CollectUserKeys` | src/command/keys_scan.rs:78-115 | A page is the first COUNT wanted records after the cursor, and its cursor is the last of them, or empty at the end |
| `Scan.RecordsRecognised` | src/command/keys_scan.rs:18-30 | A bare string stands for its user key if and only if it classifies as raw, a family's root always; elements and index entries stand for none |
| `Scan.ReturnedOnce` | src/command/keys.rs:201-282 | Over a whole cursor walk, with any inserts and deletes between pages and any COUNTs, a wanted record that stays in place is returned exactly once if it follows the start and never otherwise |
| `Scan.FullScan` | src/command/keys.rs:244-254 | From "0" that is every record but one equal to the prefix |
| `Scan.StringFoundIff` | src/command/keys_scan.rs:18-30 | A string that stays in place is found exactly once if and only if it classifies as raw, passes the filter and is not the empty key of a slot walk |
| `Scan.CollectionFoundIff` | src/command/keys_scan.rs:18-30 | A collection that stays in place is found exactly once if and only if it passes the filter |
| `Scan.SpaceExample` | src/command/keys_scan.rs:18-30 | A string whose key starts with a space is never returned |
| `Scan.EmptyKeyExample` | src/command/keys.rs:244-254 | Nor is the empty key of a slot walk |
| `Scan.WalkUnchanged` | src/command/keys.rs:201-282 | On an unchanged store the walk ends, having returned every wanted key in order |
| `Scan.SelectedAfter` | src/command/keys_scan.rs:86-94 | Resuming at a returned record selects exactly the ones after it |
| `Scan.PrefixRunEnds` | src/command/keys_scan.rs:95-97 | Once a record leaves the slot's prefix no later one has it |
| `Glob.GlobMatch` | src/utils.rs:36-99 | The iterative matcher accepts exactly what the recursive token matcher with full star backtracking accepts, in at most (pattern length + 1) times (text length + 1) turns |
| `Glob.ClassAt` | src/utils.rs:115-144 | A character class is recognised, and matched, as its token says |
| `Glob.TryToken` | src/utils.rs:49-93 | One non-star token consumes one byte, or cannot match here |
| `Glob.NewStarSubsumes` | src/utils.rs:43-48 | A later star makes every earlier star's remaining splits redundant |
| `Glob.FixedWidth` | src/utils.rs:103-111 | Star-free tokens consume one byte each |
| `Glob.StarIsSomeSuffix` | src/utils.rs:43-48 | A star matches exactly when the rest matches some suffix |
| `GlobLaws.StarMeaning` | src/utils.rs:43-48 | A star in the text matches any stretch |
| `GlobLaws.QuestionMeaning` | src/utils.rs:49-93 | A question mark matches any one byte |
| `GlobLaws.EscapeMeaning` | src/utils.rs:49-93 | A backslash takes the next byte literally, and alone matches nothing |
| `GlobLaws.LiteralMeaning` | src/utils.rs:49-93 | Any other byte, and a bracket never closed, matches itself |
| `GlobLaws.ClassMeaning` | src/utils.rs:115-144 | A bracketed class matches one byte it names, or with a caret one it does not |
| `GlobLaws.NamedMeaning` | src/utils.rs:115-144 | A class names its single bytes and what lies in its ranges, a range always its first byte |
| `Utf8.LossyIffValid` | src/command/json_path.rs:88-108 | Lossy decoding is the identity exactly on valid text |
| `Utf8Laws.ValidIff` | src/command/json_path.rs:88-108 | Text is valid if and only if it encodes a sequence of Unicode scalar values |
| `Utf8Laws.LossyIsValid` | src/command/json_path.rs:88-108 | Lossy decoding always yields valid text |
| `Utf8Laws.LossyExample` | src/command/json_path.rs:88-108 | A truncated character is replaced once, each stray byte once |
| `JsonPath.ParsePath` | src/command/json_path.rs:32-79 | The loop accepts exactly the grammar's segment lists |
| `JsonPath.PathExample` | src/command/json_path.rs:32-79 | A path with a dotted name, a quoted name and a negative index |
| `JsonPath.ParsesIffDerives` | src/command/json_path.rs:32-79 | The parser accepts exactly the texts of the grammar, each in one way |
| `JsonPath.PathDisplay` | src/command/json_path.rs:84-108 | The loop prints the canonical form |
| `JsonPath.ShowAllReads` | src/command/json_path.rs:84-108 | The canonical form of what the parser produces parses to the same segments up to lossy names, although quotes are dropped |
| `JsonPath.RoundTripIff` | src/command/json_path.rs:32-108 | Parsing the canonical form gives the same segments if and only if every name is valid UTF-8 |
| `JsonPath.InvalidNameExample` | src/command/json_path.rs:32-108 | A name that is no UTF-8 does not survive |
| `JsonPath.Utf8RoundTrips` | src/command/json_path.rs:32-108 | Every accepted UTF-8 argument round-trips |
| `JsonTree.ReadAt` | src/command/json_path.rs:118-128 | The cursor reads what the path denotes |
| `JsonTree.GetOne` | src/command/json_path.rs:118-128 | One step reads a member by its valid name or an item by its position |
| `JsonTree.GetConcat` | src/command/json_path.rs:118-128 | Longer paths read step by step |
| `JsonTree.SetThenGet` | src/command/json_path.rs:160-199 | A successful write is read back, through auto-creation and append |
| `JsonTree.SetKeepsDiverging` | src/command/json_path.rs:160-199 | Every path that is no prefix of it and has it as no prefix reads as before |
| `JsonTree.SetWhereReadable` | src/command/json_path.rs:160-199 | What can be read can be overwritten |
| `JsonTree.SetOutcome` | src/command/json_path.rs:159-203 | A write succeeds if and only if the path is there, or leaves the document at an object, to go on with valid names only, or at the end of an array with its last step; it is not found if and only if an array lacks the position, and of the wrong type otherwise |
| `JsonTree.CreatedExample` | src/command/json_path.rs:168-170 | A write into a missing field of an object creates what is between |
| `JsonTree.RemovesIffPresent` | src/command/json_path.rs:205-220 | Something is removed exactly when the looked-up path reads something; otherwise nothing changes |
| `JsonTree.RemovesWhatIsNamedIff` | src/command/json_path.rs:213-214 | Removal does what the path says if and only if the last name is valid or the parent has no empty name |
| `JsonTree.InvalidNameExample` | src/command/json_path.rs:213-214 | Removing an invalid name removes the empty one |
| `JsonTree.RemoveFieldKeepsOthers` | src/command/json_path.rs:205-220 | Removing a field takes away that path and no diverging one |
| `JsonTree.RemoveIndexShifts` | src/command/json_path.rs:215-218 | Removing an array element shifts exactly the later ones |
| `JsonTree.RemoveIndexKeepsOutside` | src/command/json_path.rs:205-220 | Paths outside that array read as before |
| `JsonTree.JsonKey.Set` | src/command/json_cmd.rs:117-171 | JSON.SET stores the whole new document, read back at its path, with the old deadline, or changes nothing; the reply is decided by the state, the options and whether the document can be written there |
| `Resp.EncodeCommand` | bench/src/resp.rs:7-14 | The frame is appended to the buffer |
| `Resp.CommandExample` | bench/src/resp.rs:7-14 | A command, byte by byte |
| `Resp.CommandRoundTrip` | bench/src/resp.rs:7-103 | An encoded command parses to exactly its arguments and its own length, whatever follows |
| `Resp.PrefixIsIncomplete` | bench/src/resp.rs:51-103 | Every strict prefix of it is incomplete |
| `Resp.FrameReads` | src/resp/codec.rs:256-305 | The client parses every frame the server appends, nested arrays included, to what it keeps of it and its exact length |
| `Resp.FrameExample` | src/resp/codec.rs:256-305 | One frame of each kind, byte by byte |
| `Resp.LineReads` | bench/src/resp.rs:40-42 | A status or error line is found whole if and only if its text holds no CRLF |
| `Resp.RefusedMeaning` | bench/src/resp.rs:51-103 | Which lines are refused, and for what; a negative length is a null |
| `Resp.UnbrokenIsIncomplete` | bench/src/resp.rs:51-60 | Without a line break there is no answer yet |
| `Resp.ReplyStable` | bench/src/resp.rs:51-103 | A complete or malformed answer does not change when more bytes arrive |
| `Resp.ParseArray` | bench/src/resp.rs:79-99 | The loop over items and offset parses n replies in a row |
| `Resp.ReadReply` | bench/src/resp.rs:128-148 | One reply, an error or the end, and the unread rest, as the bytes decide and not how they were cut |
| `Resp.ReadReplies` | bench/src/resp.rs:128-148 | Any chunking of the same bytes yields the same replies, and what is buffered or unread afterwards is the rest of the stream, also when fewer replies arrive than asked for |
| `Decimal.ParseOfDecInt` | bench/src/resp.rs:44-46 | A printed 64-bit integer parses back |
| `Decimal.DecimalExample` | bench/src/resp.rs:44-46 | Numbers as text, signs included |
| `Crc.BuildTable` | src/hash.rs:12-30 | The nested loops tabulate the eight bit steps of every octet |
| `Crc.TableStep` | src/hash.rs:35-41 | One table lookup is eight bit steps |
| `Crc.TableSum` | bench/src/kafka_wire.rs:84-90 | The table-driven checksum is the bit-at-a-time one on every byte string, for CRC-16 and CRC-32C alike |
| `Crc.SumLinear` | src/hash.rs:35-41 | With a zero register the checksum is linear under exclusive or on strings of equal length |
| `Crc.Crc16Linear` | src/hash.rs:35-41 | So CRC-16 is |
| `CrcWords.Crc16IsSum` | src/hash.rs:12-41 | On 16-bit words, with shifts and exclusive or, it is the same checksum |
| `CrcWords.Crc16Example` | src/hash.rs:12-30 | The octet 1 sums to 0x1021, which is also its table entry |
| `CrcWords.Crc32cExample` | src/kafka/record.rs:14-36 | Table entry 128 of CRC-32C is 0x82F63B78, and nothing sums to zero |
| `HashSlot.TagBetweenBraces` | src/hash.rs:75-87 | The tag is what stands between the first opening brace and the first closing one after it, when not empty |
| `HashSlot.WholeKeyIff` | src/hash.rs:75-87 | The whole key is hashed if and only if it has no such tag |
| `HashSlot.SlotMeaning` | src/hash.rs:44-46 | The slot is below 16384 and differs from the checksum of the tag by a multiple of it |
| `HashSlot.TagDecidesSlot` | src/hash.rs:44-87 | A tagged key lies in the slot of its bare tag |

## Left out

- Sockets, tasks, HTTP, metrics, configuration, start-up order and the bench load loops: plumbing without a hard property.
- Raft itself: one atomic register with successful writes by one fixed leader; no lag, timeout or leader change. The instance list does not change during a run.
- The transfer inside MIGRATE and the driver's bound of 1024 batches: one atomic step moves one key; routing and executing a command is one step too. SETSLOT STABLE during a migration and multi-key commands are not part of the protocol runs. An ASK reply that points to a node is dropped when the slot's next migration makes that node the destination; any other reply may be followed at any later time.
- OwnerMap.ParseOfJson: covers the text the leader writes; whitespace, escapes and two spellings of one slot, which it never writes, are not parsed as a full JSON reader would, and addresses are assumed to need no escaping.
- MD5 node ids are a parameter, injective where a lemma needs it.
- The CLUSTER NODES text, which prints only a node's first group of ranges: the range results are about the flat list that CLUSTER SLOTS prints.
- The detached expiry purge and DEL's lookup before its latch: expiry is lazy and atomic, commands are whole steps.
- Latches, fsync and store errors; the store is an ordered map and a batch is applied in order. The keyspace and list models keep one record group per user key.
- Stream delay and ledger rows inside RENAME and DEL; the stream family is treated like any other. Delay rows have a layout of their own, which the collision results do not cover.
- KeyDb.Db.RunAll: holds of the bytes for user keys that do not read as records and for deadlines that survive the envelope, batch by batch and lookup by lookup (`KeyBytes`); the copying iteration inside RENAME stays on records.
- u64 overflow of list indices, arity checks and error texts, option parsing of SET, ZADD and SCAN; TYPE is given as the kinds it names.
- Several blocked clients at once: the wake-up result is about one client.
- Plain reads such as LRANGE, ZSCORE, GET, and the ZRANGE forms by score and by member.
- SortedSetDb.ZSet.AddIncr: floating-point addition is a parameter, and so is its NaN outcome; the set's expire-index entry is left to the keyspace model.
- JsonTree.SetThenGet: documents are values, so updating the tree through a mutable cursor, and sharing, are not modelled.
- Scan.CollectUserKeys: the hex text of a cursor is left out; a cursor is its bytes.
- Resp.ReplyStable: a frame that starts with CRLF, where the source slices out of range, is treated as malformed.
- Crc.TableSum: a register is a sequence of bits in the order they leave it; only CRC-16 is also shown on machine words (`CrcWords`), without its table.
- The Kafka batch builder and record counter, the Lite, SQL, ES and search modules.
