/**
 * One blocked BLPOP/BRPOP against any number of list writers: register first, then one latched look
 * at every key, then park. A writer notifies every key it filled before it lets go of the latch.
 */
module WaitHub {
  import opened Bytes

  type WriterId = nat

  /** Where the blocked client is: `n` keys registered, `n` keys looked at, parked, or answered. */
  datatype Client = Registering(n: nat) | Looking(n: nat) | Parked | Answered

  /** A writer holds the latches of `held`; after its commit, `toNotify` are the keys still to be notified. */
  datatype Writer = Writer(held: set<Key>, committed: bool, toNotify: set<Key>)

  datatype State = State(
    keys: seq<Key>,          // the client's keys, in argument order
    client: Client,
    signaled: bool,          // the client's waiter was woken
    registered: set<Key>,    // roots whose queue holds the waiter
    filled: set<Key>,        // keys whose list has an element
    writers: map<WriterId, Writer>)

  datatype Step =
    | Register
    | Look(stay: bool)                       // `stay`: the list still has an element after the pop
    | Wake
    | Renew                                  // the park's time slice ran out: a new waiter, from the start
    | GiveUp
    | Lock(w: WriterId, k: Key)
    // `now`: the held keys with an element after the commit; `notes`: the keys it will notify
    | CommitWrite(w: WriterId, now: set<Key>, notes: set<Key>)
    | Notify(w: WriterId, k: Key)
    | Unlock(w: WriterId)

  ghost predicate Init(s: State) {
    && s.keys != []
    && s.client == Registering(0) && !s.signaled && s.registered == {}
    && s.writers == map[]
  }

  predicate Free(s: State, k: Key) {
    forall w :: w in s.writers ==> k !in s.writers[w].held
  }

  /** The step may be taken. */
  predicate Enabled(s: State, a: Step) {
    match a
    case Register => s.client.Registering? && s.client.n < |s.keys|
    case Look(stay) => s.client.Looking? && s.client.n < |s.keys| && Free(s, s.keys[s.client.n])
    case Wake => s.client.Parked? && s.signaled
    case Renew => s.client.Parked?
    case GiveUp => s.client.Parked?
    case Lock(w, k) => Free(s, k) && (w in s.writers ==> !s.writers[w].committed)
    case CommitWrite(w, now, notes) =>
      // a command that can fill a list notifies it
      w in s.writers && !s.writers[w].committed
      && now <= s.writers[w].held && now - s.filled <= notes <= s.writers[w].held
    case Notify(w, k) => w in s.writers && k in s.writers[w].toNotify
    case Unlock(w) => w in s.writers && s.writers[w].toNotify == {}
  }

  function Next(s: State, a: Step): State
    requires Enabled(s, a)
  {
    match a
    case Register =>
      var n := s.client.n + 1;
      s.(registered := s.registered + {s.keys[n - 1]},
         client := if n == |s.keys| then Looking(0) else Registering(n))
    case Look(stay) =>
      var k, n := s.keys[s.client.n], s.client.n + 1;
      if k in s.filled then
        // pops one element, drops its registrations and answers
        s.(client := Answered, registered := {}, filled := if stay then s.filled else s.filled - {k})
      else
        s.(client := if n == |s.keys| then Parked else Looking(n))
    case Wake =>
      s.(client := Registering(0), signaled := false, registered := {})
    case Renew =>
      s.(client := Registering(0), signaled := false, registered := {})
    case GiveUp =>
      s.(client := Answered, registered := {})
    case Lock(w, k) =>
      var held := if w in s.writers then s.writers[w].held else {};
      s.(writers := s.writers[w := Writer(held + {k}, false, {})])
    case CommitWrite(w, now, notes) =>
      var held := s.writers[w].held;
      s.(filled := (s.filled - held) + now,
         writers := s.writers[w := Writer(held, true, notes)])
    case Notify(w, k) =>
      var me := s.writers[w];
      var s' := s.(writers := s.writers[w := me.(toNotify := me.toNotify - {k})]);
      // the oldest live waiter under k is popped and signaled; a waiter already woken is only popped
      if k in s.registered then s'.(registered := s.registered - {k}, signaled := true) else s'
    case Unlock(w) =>
      s.(writers := s.writers - {w})
  }

  /** A writer that filled `k` still holds its latch and has not notified yet. */
  ghost predicate PendingNotify(s: State, k: Key) {
    exists w :: w in s.writers && k in s.writers[w].held && k in s.writers[w].toNotify
  }

  ghost function Looked(s: State): nat {
    match s.client
    case Looking(n) => n
    case Parked => |s.keys|
    case _ => 0
  }

  ghost predicate Latched(s: State) {
    && (forall w :: w in s.writers ==> s.writers[w].toNotify <= s.writers[w].held
                                       && (!s.writers[w].committed ==> s.writers[w].toNotify == {}))
    && (forall v, w :: v in s.writers && w in s.writers && v != w ==> s.writers[v].held !! s.writers[w].held)
  }

  /** Every key already looked at is empty or about to be notified, unless the waiter was woken. */
  ghost predicate Covered(s: State) {
    !s.signaled ==>
      forall j {:trigger s.keys[j]} :: 0 <= j < Looked(s) && j < |s.keys| ==>
                                         s.keys[j] in s.registered && (s.keys[j] !in s.filled || PendingNotify(s, s.keys[j]))
  }

  /** Everything to be registered has been, unless the waiter was woken. */
  ghost predicate Registered(s: State) {
    !s.signaled ==>
      match s.client
      case Registering(n) => n <= |s.keys| && forall j {:trigger s.keys[j]} :: 0 <= j < n ==> s.keys[j] in s.registered
      case Answered => true
      case _ => forall k :: k in s.keys ==> k in s.registered
  }

  ghost predicate Inv(s: State) {
    && s.keys != [] && (s.client.Looking? ==> s.client.n <= |s.keys|)
    && Latched(s) && Registered(s) && Covered(s)
  }

  lemma InitHolds(s: State)
    requires Init(s)
    ensures Inv(s)
  {
  }

  lemma LatchedKept(s: State, a: Step)
    requires Inv(s) && Enabled(s, a)
    ensures Latched(Next(s, a))
  {
  }

  lemma RegisteredKept(s: State, a: Step)
    requires Inv(s) && Enabled(s, a)
    ensures Registered(Next(s, a))
  {
    var t := Next(s, a);
    if a.Register? && !t.signaled && t.client.Looking? {
      forall k | k in t.keys ensures k in t.registered {
        var j :| 0 <= j < |s.keys| && s.keys[j] == k;
      }
    }
  }

  /** Pending notifies survive every step but the notify itself, which wakes the client. */
  lemma PendingKept(s: State, a: Step, k: Key)
    requires Inv(s) && Enabled(s, a) && PendingNotify(s, k)
    ensures PendingNotify(Next(s, a), k) || (a.Notify? && a.k == k)
  {
    var t := Next(s, a);
    var w :| w in s.writers && k in s.writers[w].held && k in s.writers[w].toNotify;
    if !(a.Notify? && a.k == k) {
      assert w in t.writers && k in t.writers[w].held && k in t.writers[w].toNotify;
    }
  }

  lemma CoveredKept(s: State, a: Step)
    requires Inv(s) && Enabled(s, a)
    ensures Covered(Next(s, a))
  {
    var t := Next(s, a);
    if !t.signaled && !s.signaled {
      forall j | 0 <= j < Looked(t)
        ensures t.keys[j] in t.registered && (t.keys[j] !in t.filled || PendingNotify(t, t.keys[j]))
      {
        var k := t.keys[j];
        if j < Looked(s) {
          assert s.keys[j] in s.registered;
          if PendingNotify(s, k) {
            PendingKept(s, a, k);
          } else if k in t.filled {
            assert a.CommitWrite? && k in t.writers[a.w].toNotify;
          }
        }
      }
    }
  }

  lemma StepKeepsInv(s: State, a: Step)
    requires Inv(s) && Enabled(s, a)
    ensures Inv(Next(s, a))
  {
    LatchedKept(s, a);
    RegisteredKept(s, a);
    CoveredKept(s, a);
  }

  /** The client answers only with an element of the key it looks at, or when its time is up. */
  lemma AnswersIff(s: State, a: Step)
    requires Enabled(s, a) && !s.client.Answered?
    ensures Next(s, a).client.Answered? <==>
            a.GiveUp? || (a.Look? && s.keys[s.client.n] in s.filled)
  {
  }

  /** Whatever wakes the client, it registers and looks at all of its keys again before it parks. */
  lemma WakeStartsOver(s: State, a: Step)
    requires Enabled(s, a) && s.client.Parked?
    ensures Next(s, a).client == if a.Wake? || a.Renew? then Registering(0) else if a.GiveUp? then Answered else Parked
    ensures a.Wake? || a.Renew? ==> !Next(s, a).signaled && Next(s, a).filled == s.filled
  {
  }

  /** Only the client's pop and a writer's commit change which lists are filled, and only for keys they hold or look at. */
  lemma FilledMeaning(s: State, a: Step, k: Key)
    requires Enabled(s, a)
    ensures a.CommitWrite? && k in s.writers[a.w].held ==> (k in Next(s, a).filled <==> k in a.now)
    ensures a.Look? && k == s.keys[s.client.n] ==> (k in Next(s, a).filled <==> k in s.filled && a.stay)
    ensures !(a.CommitWrite? && k in s.writers[a.w].held) && !(a.Look? && k == s.keys[s.client.n]) ==>
              (k in Next(s, a).filled <==> k in s.filled)
  {
  }

  /** Every state of a run is reached by enabled steps from an initial one. */
  ghost predicate IsRun(run: seq<State>, steps: seq<Step>) {
    && |run| == |steps| + 1
    && Init(run[0])
    && forall i :: 0 <= i < |steps| ==> Enabled(run[i], steps[i]) && run[i + 1] == Next(run[i], steps[i])
  }

  lemma {:induction false} RunKeepsInv(run: seq<State>, steps: seq<Step>, i: nat)
    requires IsRun(run, steps) && i < |run|
    ensures Inv(run[i])
  {
    if i == 0 {
      InitHolds(run[0]);
    } else {
      RunKeepsInv(run, steps, i - 1);
      StepKeepsInv(run[i - 1], steps[i - 1]);
    }
  }

  /**
   * No lost wakeup: in every reachable state where the client is parked and unsignaled, each of its
   * lists is empty, or the writer that filled it still holds the latch and has the notify ahead of it.
   */
  lemma NoLostWakeup(run: seq<State>, steps: seq<Step>, i: nat, k: Key)
    requires IsRun(run, steps) && i < |run|
    requires run[i].client.Parked? && !run[i].signaled && k in run[i].keys
    ensures k !in run[i].filled || PendingNotify(run[i], k)
  {
    RunKeepsInv(run, steps, i);
    var j :| 0 <= j < |run[i].keys| && run[i].keys[j] == k;
  }
}
