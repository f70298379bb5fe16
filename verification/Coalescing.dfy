/** Memo coalescing: a table of weak references to one mutex per metadata digest. */
module Coalescing {
  import opened Bytes
  import opened Paths

  type Task = nat
  type Mutex = nat

  /** A task with a strong reference to a mutex: waiting for it, or holding it. */
  datatype Client = Client(digest: Digest, mutex: Mutex, holding: bool)

  /** `table` is `in_flight`; `registrar` is whoever holds the table's own lock and has already pruned it. */
  datatype State = State(table: map<Digest, Mutex>, clients: map<Task, Client>, next: Mutex, registrar: Option<Task>)

  ghost predicate Live(s: State, m: Mutex) {
    exists t :: t in s.clients && s.clients[t].mutex == m
  }

  ghost function Pruned(s: State): map<Digest, Mutex> {
    map d | d in s.table && Live(s, s.table[d]) :: s.table[d]
  }

  /** `in_flight.retain(..)` under the table lock. */
  ghost predicate Prune(s: State, s': State, t: Task) {
    && s.registrar.None? && t !in s.clients
    && s' == s.(table := Pruned(s), registrar := Some(t))
  }

  /** Upgrade the weak reference, or insert one to a new mutex; then give up the table lock. */
  ghost predicate Attach(s: State, s': State, d: Digest) {
    && s.registrar.Some?
    && var t := s.registrar.value;
       if d in s.table && Live(s, s.table[d]) then
         s' == s.(clients := s.clients[t := Client(d, s.table[d], false)], registrar := None)
       else
         s' == State(s.table[d := s.next], s.clients[t := Client(d, s.next, false)], s.next + 1, None)
  }

  /** `lock_owned` completes: nobody else holds the mutex. */
  ghost predicate Acquire(s: State, s': State, t: Task) {
    && t in s.clients && !s.clients[t].holding
    && (forall u :: u in s.clients && s.clients[u].mutex == s.clients[t].mutex ==> !s.clients[u].holding)
    && s' == s.(clients := s.clients[t := s.clients[t].(holding := true)])
  }

  /** The guard is dropped, or a waiting snapshot is cancelled. */
  ghost predicate Leave(s: State, s': State, t: Task) {
    t in s.clients && s' == s.(clients := s.clients - {t})
  }

  datatype Event = Pruning(task: Task) | Attaching(digest: Digest) | Acquiring(task: Task) | Leaving(task: Task)

  ghost predicate Step(s: State, s': State, e: Event) {
    match e
    case Pruning(t) => Prune(s, s', t)
    case Attaching(d) => Attach(s, s', d)
    case Acquiring(t) => Acquire(s, s', t)
    case Leaving(t) => Leave(s, s', t)
  }

  const Start := State(map[], map[], 0, None)

  ghost predicate Run(states: seq<State>, events: seq<Event>) {
    && |states| == |events| + 1
    && forall i :: 0 <= i < |events| ==> Step(states[i], states[i + 1], events[i])
  }

  /** Every strong reference is to the mutex that the table names for its digest. */
  ghost predicate Tabled(s: State) {
    forall t :: t in s.clients ==> s.clients[t].digest in s.table && s.table[s.clients[t].digest] == s.clients[t].mutex
  }

  ghost predicate Separate(s: State) {
    && (forall d :: d in s.table ==> s.table[d] < s.next)
    && (forall d, e :: d in s.table && e in s.table && s.table[d] == s.table[e] ==> d == e)
  }

  ghost predicate OneHolder(s: State) {
    forall t, u :: t in s.clients && u in s.clients && BothHold(s.clients[t], s.clients[u]) ==> t == u
  }

  predicate BothHold(a: Client, b: Client) { a.holding && b.holding && a.mutex == b.mutex }

  ghost predicate Inv(s: State) {
    && Tabled(s) && Separate(s) && OneHolder(s)
    && (s.registrar.Some? ==> s.registrar.value !in s.clients)
  }

  lemma PruneKeepsInv(s: State, s': State, t: Task)
    requires Inv(s) && Prune(s, s', t)
    ensures Inv(s')
  {
  }

  lemma FreshMutexKeepsInv(s: State, s': State, d: Digest)
    requires Inv(s) && Attach(s, s', d) && !(d in s.table && Live(s, s.table[d]))
    ensures Inv(s')
  {
  }

  lemma AttachKeepsInv(s: State, s': State, d: Digest)
    requires Inv(s) && Attach(s, s', d)
    ensures Inv(s')
  {
    if !(d in s.table && Live(s, s.table[d])) {
      FreshMutexKeepsInv(s, s', d);
    }
  }

  lemma StepKeepsInv(s: State, s': State, e: Event)
    requires Inv(s) && Step(s, s', e)
    ensures Inv(s')
  {
    match e {
      case Pruning(t) => PruneKeepsInv(s, s', t);
      case Attaching(d) => AttachKeepsInv(s, s', d);
      case Acquiring(t) =>
      case Leaving(t) =>
    }
  }

  lemma {:induction false} RunKeepsInv(states: seq<State>, events: seq<Event>, n: nat)
    requires Run(states, events) && Inv(states[0]) && n < |states|
    ensures Inv(states[n])
  {
    if n > 0 {
      RunKeepsInv(states, events, n - 1);
      StepKeepsInv(states[n - 1], states[n], events[n - 1]);
    }
  }

  /** In every interleaving, equal digests share one live mutex and different digests never share one. */
  lemma OneLiveMutexPerDigest(states: seq<State>, events: seq<Event>, n: nat, t: Task, u: Task)
    requires Run(states, events) && states[0] == Start && n < |states| && t in states[n].clients && u in states[n].clients
    ensures states[n].clients[t].digest == states[n].clients[u].digest <==> states[n].clients[t].mutex == states[n].clients[u].mutex
  {
    RunKeepsInv(states, events, n);
  }

  /** In every interleaving, equal snapshots never overlap in their critical sections. */
  lemma EqualSnapshotsExclude(states: seq<State>, events: seq<Event>, n: nat, t: Task, u: Task)
    requires Run(states, events) && states[0] == Start && n < |states| && t in states[n].clients && u in states[n].clients
    requires states[n].clients[t].digest == states[n].clients[u].digest && states[n].clients[t].holding && states[n].clients[u].holding
    ensures t == u
  {
    RunKeepsInv(states, events, n);
  }

  /** While a registration is between pruning and attaching, nothing else touches the table. */
  lemma {:induction false} TableIsStill(states: seq<State>, events: seq<Event>, n: nat)
    requires Run(states, events) && n < |states| && states[0].registrar.Some?
    requires forall i :: 0 <= i <= n ==> states[i].registrar == states[0].registrar
    ensures states[n].table == states[0].table && states[n].next == states[0].next
  {
    if n > 0 {
      TableIsStill(states, events, n - 1);
      assert Step(states[n - 1], states[n], events[n - 1]);
    }
  }

  /** Clients of a digest that was live when the registration pruned the table. */
  ghost predicate LiveDigest(s: State, d: Digest) {
    exists t :: t in s.clients && s.clients[t].digest == d
  }

  lemma PrunedIsLive(s: State, s': State, t: Task, d: Digest)
    requires Inv(s) && Prune(s, s', t)
    ensures d in s'.table <==> LiveDigest(s, d)
  {
  }

  /** After a registration the table names its own digest and exactly the digests that were live when it pruned,
      also when other tasks leave meanwhile. */
  lemma TableAfterRegistration(s: State, t: Task, states: seq<State>, events: seq<Event>, s': State, d: Digest)
    requires Inv(s) && |states| > 0 && Prune(s, states[0], t) && Run(states, events)
    requires forall i :: 0 <= i < |states| ==> states[i].registrar == Some(t)
    requires Attach(states[|states| - 1], s', d)
    ensures forall e :: e in s'.table <==> e == d || LiveDigest(s, e)
    ensures t in s'.clients && s'.clients[t].digest == d && s'.table[d] == s'.clients[t].mutex
  {
    TableIsStill(states, events, |states| - 1);
    forall e ensures e in s'.table <==> e == d || LiveDigest(s, e) {
      PrunedIsLive(s, states[0], t, e);
    }
  }

  lemma AttachedIsLive(s: State, s': State, d: Digest, e: Digest)
    requires Inv(s) && Attach(s, s', d)
    ensures LiveDigest(s', e) <==> e == d || LiveDigest(s, e)
  {
    var t := s.registrar.value;
    assert s'.clients[t].digest == d;
    if LiveDigest(s, e) {
      var u :| u in s.clients && s.clients[u].digest == e;
      assert u in s'.clients && s'.clients[u].digest == e;
    }
  }

  /** After a registration every named digest is live if and only if no other digest lost its last task between pruning and attaching. */
  lemma TableIsLiveUnlessLeft(s: State, t: Task, states: seq<State>, events: seq<Event>, s': State, d: Digest)
    requires Inv(s) && |states| > 0 && Prune(s, states[0], t) && Run(states, events)
    requires forall i :: 0 <= i < |states| ==> states[i].registrar == Some(t)
    requires Attach(states[|states| - 1], s', d)
    ensures (forall e :: e in s'.table ==> LiveDigest(s', e))
            <==> forall e :: e != d && LiveDigest(s, e) ==> LiveDigest(states[|states| - 1], e)
  {
    TableAfterRegistration(s, t, states, events, s', d);
    PruneKeepsInv(s, states[0], t);
    RunKeepsInv(states, events, |states| - 1);
    forall e ensures LiveDigest(s', e) <==> e == d || LiveDigest(states[|states| - 1], e) {
      AttachedIsLive(states[|states| - 1], s', d, e);
    }
  }

  // ----- a run with a dead entry

  /** One task registers, a second one prunes, the first one leaves, and the second one attaches for another digest. */
  function DeadEntryStates(a: Digest, b: Digest): seq<State> {
    var one, two := Client(a, 0, false), Client(b, 1, false);
    [Start, State(map[], map[], 0, Some(1)), State(map[a := 0], map[1 := one], 1, None), State(map[a := 0], map[1 := one], 1, Some(2)),
     State(map[a := 0], map[], 1, Some(2)), State(map[a := 0, b := 1], map[2 := two], 2, None)]
  }

  function DeadEntryEvents(a: Digest, b: Digest): seq<Event> {
    [Pruning(1), Attaching(a), Pruning(2), Leaving(1), Attaching(b)]
  }

  lemma DeadEntryStep(a: Digest, b: Digest, i: nat)
    requires a != b && i < 5
    ensures Step(DeadEntryStates(a, b)[i], DeadEntryStates(a, b)[i + 1], DeadEntryEvents(a, b)[i])
  {
    var s := DeadEntryStates(a, b);
    if i == 2 {
      assert 1 in s[2].clients && s[2].clients[1].mutex == s[2].table[a];
      assert Live(s[2], s[2].table[a]);
      assert Pruned(s[2]) == s[2].table;
    } else if i == 3 {
      assert s[3].clients - {1} == s[4].clients;
    } else if i == 4 {
      assert s[4].table[b := 1] == s[5].table;
    }
  }

  /** For any two digests: after the second registration the table still names the first, whose task is gone. */
  lemma DeadEntryRun(a: Digest, b: Digest)
    requires a != b
    ensures var states, events := DeadEntryStates(a, b), DeadEntryEvents(a, b);
            Run(states, events) && states[0] == Start && a in states[5].table && !LiveDigest(states[5], a)
  {
    var states, events := DeadEntryStates(a, b), DeadEntryEvents(a, b);
    forall i | 0 <= i < |events| ensures Step(states[i], states[i + 1], events[i]) { DeadEntryStep(a, b, i); }
  }

  /** A waiting task can take its mutex as soon as the tasks before it have left: nothing is held by a task that is gone. */
  lemma WaitersAreNeverStranded(s: State, t: Task)
    requires Inv(s) && t in s.clients && !s.clients[t].holding
    ensures (exists s' :: Acquire(s, s', t))
            <==> !(exists u :: u in s.clients && s.clients[u].holding && s.clients[u].digest == s.clients[t].digest)
  {
    var s' := s.(clients := s.clients[t := s.clients[t].(holding := true)]);
    if !(exists u :: u in s.clients && s.clients[u].holding && s.clients[u].digest == s.clients[t].digest) {
      assert Acquire(s, s', t);
    }
  }
}
