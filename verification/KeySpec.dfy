/** The keyspace as its users see it: a map from keys to a value and a deadline. */
module KeySpec {
  import opened Bytes
  import opened KeyStore

  datatype Value = Str(text: Blob) | Collection(kind: Kind, payload: Blob, elems: map<(Kind, Blob), Val>)

  /** Deadline 0 is none. */
  datatype Entry = Entry(value: Value, deadline: nat)

  type Keyspace = map<Key, Entry>

  /** What one key's records mean. */
  ghost function View(s: Shape): Option<Entry> {
    match StateOf(s)
    case Missing => None
    case RawString(value) => Some(Entry(Str(value), 0))
    case Enveloped(kind, expire, payload) =>
      Some(Entry(if kind == STRING_TTL then Str(payload)
                 else Collection(kind, payload, s.data - {(kind, ROOT)}), expire))
  }

  /** A user sees the bytes of a string, or every element of a collection, with the root's deadline. */
  lemma ViewMeaning(s: Shape, kind: Kind)
    ensures View(NOTHING) == None
    ensures s.raw.Some? ==> View(s) == Some(Entry(Str(s.raw.value), 0))
    ensures TypedOk(s, kind) ==>
              && View(s).Some? && View(s).value.deadline == s.data[(kind, ROOT)].expire
              && match View(s).value.value
                 case Str(text) => kind == STRING_TTL && text == s.data[(kind, ROOT)].payload
                 case Collection(k, payload, elems) =>
                   && k == kind != STRING_TTL && payload == s.data[(kind, ROOT)].payload
                   && forall r :: r != (kind, ROOT) ==>
                        (r in elems <==> r in s.data) && (r in s.data ==> elems[r] == s.data[r])
  {
    hide FamilyOf;
    if TypedOk(s, kind) {
      StateOfTyped(s, kind);
    }
  }

  ghost function Abs(store: Store): Keyspace {
    map key | key in store && View(store[key]).Some? :: View(store[key]).value
  }

  function Get(m: Keyspace, key: Key): Option<Entry> {
    if key in m then Some(m[key]) else None
  }

  function Put(m: Keyspace, key: Key, entry: Option<Entry>): Keyspace {
    if entry.Some? then m[key := entry.value] else m - {key}
  }

  /** The entry unless its deadline has passed. */
  function Live(m: Keyspace, key: Key, now: nat): Option<Entry> {
    if key in m && !Due(m[key].deadline, now) then Some(m[key]) else None
  }

  /** A due key is dropped when it is touched. */
  function Touched(m: Keyspace, key: Key, now: nat): Keyspace {
    Put(m, key, Live(m, key, now))
  }

  datatype Flag = Always | NX | XX | GT | LT

  /** A missing deadline counts as infinitely late for GT, and refuses LT. */
  predicate FlagAllows(flag: Flag, was: nat, next: nat) {
    match flag
    case Always => true
    case NX => was == 0
    case XX => was > 0
    case GT => was > 0 && next > was
    case LT => was > 0 && next < was
  }

  datatype Options = Options(nx: bool, xx: bool, get: bool, keepTtl: bool, deadline: Option<nat>)

  datatype Command =
    | Set(key: Key, value: Blob, options: Options, now: nat)
    | MSet(pairs: seq<(Key, Blob)>, now: nat)
    | ExpireAt(key: Key, deadline: nat, flag: Flag, now: nat)
    | Persist(key: Key, now: nat)
    | Rename(src: Key, dst: Key, nx: bool, now: nat)
    | Delete(key: Key, now: nat)

  datatype Reply =
    | Okay | Null | OldText(text: Blob) | WrongType
    | Done(yes: bool)
    | SourceMissing | Blocked | Moved
    | WrongArity

  /** The old value as a GET option reports it. */
  function OldReply(was: Option<Entry>): Reply {
    if was.Some? && was.value.value.Str? then OldText(was.value.value.text) else Null
  }

  predicate IsCollection(was: Option<Entry>) {
    was.Some? && was.value.value.Collection?
  }

  function DeadlineOf(was: Option<Entry>): nat {
    if was.Some? then was.value.deadline else 0
  }

  predicate Vetoed(options: Options, present: bool) {
    (options.nx && present) || (options.xx && !present)
  }

  function NewDeadline(options: Options, was: nat): nat {
    if options.keepTtl then was else if options.deadline.Some? then options.deadline.value else 0
  }

  function SetStep(m: Keyspace, key: Key, value: Blob, o: Options, now: nat): (Keyspace, Reply) {
    var was := Live(m, key, now);
    if o.get && IsCollection(was) then (Touched(m, key, now), WrongType)
    else if Vetoed(o, was.Some?) then (Touched(m, key, now), if o.get then OldReply(was) else Null)
    else (m[key := Entry(Str(value), NewDeadline(o, DeadlineOf(was)))], if o.get then OldReply(was) else Okay)
  }

  function MSetStep(m: Keyspace, pairs: seq<(Key, Blob)>): Keyspace
    decreases |pairs|
  {
    if pairs == [] then m
    else
      var last := pairs[|pairs| - 1];
      MSetStep(m, pairs[..|pairs| - 1])[last.0 := Entry(Str(last.1), 0)]
  }

  function ExpireStep(m: Keyspace, key: Key, deadline: nat, flag: Flag, now: nat): (Keyspace, Reply) {
    var was := Live(m, key, now);
    if was.None? || !FlagAllows(flag, was.value.deadline, deadline) then (Touched(m, key, now), Done(false))
    else if deadline <= now then (m - {key}, Done(true))
    else (m[key := was.value.(deadline := deadline)], Done(true))
  }

  function PersistStep(m: Keyspace, key: Key, now: nat): (Keyspace, Reply) {
    var was := Live(m, key, now);
    if DeadlineOf(was) == 0 then (Touched(m, key, now), Done(false))
    else (m[key := was.value.(deadline := 0)], Done(true))
  }

  function RenameStep(m: Keyspace, src: Key, dst: Key, nx: bool, now: nat): (Keyspace, Reply) {
    var was := Live(m, src, now);
    var m1 := Touched(m, src, now);
    if was.None? then (m1, SourceMissing)
    else if src == dst then (m1, Moved)
    else if nx && Live(m1, dst, now).Some? then (Touched(m1, dst, now), Blocked)
    else ((m1 - {src})[dst := was.value], Moved)
  }

  function DeleteStep(m: Keyspace, key: Key, now: nat): (Keyspace, Reply) {
    (m - {key}, Done(Live(m, key, now).Some?))
  }

  function Step(m: Keyspace, c: Command): (Keyspace, Reply) {
    match c
    case Set(key, value, options, now) => SetStep(m, key, value, options, now)
    case MSet(pairs, now) => (MSetStep(m, pairs), if pairs == [] then WrongArity else Okay)
    case ExpireAt(key, deadline, flag, now) => ExpireStep(m, key, deadline, flag, now)
    case Persist(key, now) => PersistStep(m, key, now)
    case Rename(src, dst, nx, now) => RenameStep(m, src, dst, nx, now)
    case Delete(key, now) => DeleteStep(m, key, now)
  }

  function StepAll(m: Keyspace, commands: seq<Command>): (Keyspace, seq<Reply>)
    decreases |commands|
  {
    if commands == [] then (m, [])
    else
      var (before, replies) := StepAll(m, commands[..|commands| - 1]);
      var (after, reply) := Step(before, commands[|commands| - 1]);
      (after, replies + [reply])
  }

  // What a user may rely on.

  /** The last pair naming a key wins, and no deadline survives an MSET. */
  lemma {:induction false} MSetLastWins(m: Keyspace, pairs: seq<(Key, Blob)>, key: Key)
    ensures Get(MSetStep(m, pairs), key) ==
            if exists i :: 0 <= i < |pairs| && pairs[i].0 == key
            then Some(Entry(Str(pairs[LastIndex(pairs, key)].1), 0)) else Get(m, key)
    decreases |pairs|
  {
    if pairs != [] {
      var rest := pairs[..|pairs| - 1];
      MSetLastWins(m, rest, key);
      assert forall i :: 0 <= i < |rest| ==> rest[i] == pairs[i];
    }
  }

  /** The last pair naming `key`. */
  ghost function LastIndex(pairs: seq<(Key, Blob)>, key: Key): (r: nat)
    requires exists i :: 0 <= i < |pairs| && pairs[i].0 == key
    ensures r < |pairs| && pairs[r].0 == key && forall j :: r < j < |pairs| ==> pairs[j].0 != key
    decreases |pairs|
  {
    if pairs[|pairs| - 1].0 == key then |pairs| - 1
    else
      var rest := pairs[..|pairs| - 1];
      assert exists i :: 0 <= i < |rest| && rest[i].0 == key by {
        var i :| 0 <= i < |pairs| && pairs[i].0 == key;
        assert rest[i] == pairs[i];
      }
      LastIndex(rest, key)
  }

  /** A deadline set on a key without one and taken away again leaves the key as it was. */
  lemma ExpireThenPersist(m: Keyspace, key: Key, deadline: nat, now: nat, later: nat)
    requires key in m && m[key].deadline == 0 && now < deadline && later < deadline
    ensures var m1 := ExpireStep(m, key, deadline, NX, now).0;
            PersistStep(m1, key, later) == (m, Done(true))
  {
    var m1 := ExpireStep(m, key, deadline, NX, now).0;
    assert m1[key := m[key]] == m;
  }

  /** Renaming onto a missing key and back restores the keyspace, deadlines included. */
  lemma RenameAndBack(m: Keyspace, src: Key, dst: Key, nx: bool, now: nat)
    requires Live(m, src, now).Some? && dst !in m
    ensures var m1 := RenameStep(m, src, dst, nx, now).0;
            RenameStep(m1, dst, src, nx, now) == (m, Moved)
  {
    var m1 := RenameStep(m, src, dst, nx, now).0;
    var m2 := RenameStep(m1, dst, src, nx, now).0;
    assert m2 == m;
  }

  /** SET with KEEPTTL changes the value and nothing else of a live key. */
  lemma KeepTtlKeepsDeadline(m: Keyspace, key: Key, value: Blob, o: Options, now: nat)
    requires o.keepTtl && SetStep(m, key, value, o, now).1 != WrongType && Live(m, key, now).Some? && !o.nx
    ensures Get(SetStep(m, key, value, o, now).0, key) == Some(Entry(Str(value), m[key].deadline))
  {
  }

  /** The key is there and its deadline, if it has one, lies ahead. */
  predicate Alive(m: Keyspace, key: Key, now: nat) {
    key in m && (m[key].deadline == 0 || now < m[key].deadline)
  }

  /** Every other key is as it was. */
  ghost predicate OnlyAt(m: Keyspace, after: Keyspace, key: Key) {
    forall k :: k != key ==> (k in after <==> k in m) && (k in m ==> after[k] == m[k])
  }

  /**
   * SET writes the string with the deadline it was given, without one, or with the old one under
   * KEEPTTL, unless NX meets a live key, XX meets none, or GET meets a collection; GET reports the
   * old string either way, and a dead key counts as missing.
   */
  lemma SetMeaning(m: Keyspace, key: Key, value: Blob, o: Options, now: nat)
    ensures var (after, reply) := SetStep(m, key, value, o, now);
            var alive := Alive(m, key, now);
            var text := if alive && m[key].value.Str? then OldText(m[key].value.text) else Null;
            var clash := o.get && alive && m[key].value.Collection?;
            var vetoed := (o.nx && alive) || (o.xx && !alive);
            && OnlyAt(m, after, key)
            && (clash || vetoed ==> (key in after <==> alive) && (alive ==> after[key] == m[key]))
            && (!clash && !vetoed ==>
                  && key in after && after[key].value == Str(value)
                  && (!o.keepTtl && o.deadline.None? ==> after[key].deadline == 0)
                  && (!o.keepTtl && o.deadline.Some? ==> after[key].deadline == o.deadline.value)
                  && (o.keepTtl ==> after[key].deadline == if alive then m[key].deadline else 0))
            && (clash ==> reply == WrongType)
            && (!clash && o.get ==> reply == text)
            && (!clash && !o.get ==> reply == if vetoed then Null else Okay)
  {
  }

  /** DEL leaves no trace of the key and says whether it was alive. */
  lemma DeleteMeaning(m: Keyspace, key: Key, now: nat)
    ensures var (after, reply) := DeleteStep(m, key, now);
            OnlyAt(m, after, key) && key !in after && reply == Done(Alive(m, key, now))
  {
  }

  /** PERSIST takes the deadline of a live key away, and changes nothing else of it. */
  lemma PersistMeaning(m: Keyspace, key: Key, now: nat)
    ensures var (after, reply) := PersistStep(m, key, now);
            var alive := Alive(m, key, now);
            && OnlyAt(m, after, key)
            && (key in after <==> alive)
            && (alive ==> after[key] == Entry(m[key].value, 0))
            && reply == Done(alive && m[key].deadline != 0)
  {
  }

  /**
   * RENAME moves a live entry with its deadline over whatever the destination holds; RENAMENX does so
   * only onto a key that is not alive. Otherwise at most dead keys go.
   */
  lemma RenameMeaning(m: Keyspace, src: Key, dst: Key, nx: bool, now: nat)
    ensures var (after, reply) := RenameStep(m, src, dst, nx, now);
            var alive, taken := Alive(m, src, now), Alive(m, dst, now);
            && (forall k :: k != src && k != dst ==> (k in after <==> k in m) && (k in m ==> after[k] == m[k]))
            && (!alive ==> reply == SourceMissing && src !in after && (dst != src ==> Get(after, dst) == Get(m, dst)))
            && (alive && src == dst ==> reply == Moved && after == m)
            && (alive && src != dst && nx && taken ==> reply == Blocked && after == m)
            && (alive && src != dst && !(nx && taken) ==>
                  reply == Moved && src !in after && Get(after, dst) == Some(m[src]))
  {
    var (after, reply) := RenameStep(m, src, dst, nx, now);
    if Alive(m, src, now) {
      assert m[src := m[src]] == m;
      if Alive(m, dst, now) {
        assert m[dst := m[dst]] == m;
      }
    }
  }

  /** EXPIRE takes effect exactly on a live key whose flag agrees: NX sets, XX replaces, GT raises, LT lowers. */
  lemma ExpireFlags(m: Keyspace, key: Key, deadline: nat, flag: Flag, now: nat)
    ensures var (after, reply) := ExpireStep(m, key, deadline, flag, now);
            var alive := Alive(m, key, now);
            var was := if alive then m[key].deadline else 0;
            && (reply == Done(true) <==>
                  && alive
                  && (flag == NX ==> was == 0)
                  && (flag != NX && flag != Always ==> was != 0)
                  && (flag == GT ==> was < deadline)
                  && (flag == LT ==> deadline < was))
            && (reply == Done(true) ==>
                  Get(after, key) == if deadline <= now then None else Some(Entry(m[key].value, deadline)))
            && (reply != Done(true) ==>
                  reply == Done(false) && Get(after, key) == if alive then Some(m[key]) else None)
            && OnlyAt(m, after, key)
  {
  }
}
