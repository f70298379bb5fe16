/** Steps below their scopes: the finish of a step before the finish of the scope that owns it
    (`execution_recorder.rs`, `complete` and `finish_remaining`). */
module Hierarchy {
  import opened Paths
  import opened Lifecycle

  /** An executable node: the scope it counts for, and its step if it has one. */
  datatype Node = Node(scope: Id, step: Option<Id>)

  /** The sink has accepted the finish. */
  predicate Done(c: Cell) { FinishedEvent in c.log }

  ghost predicate Child(nodes: seq<Node>, p: Id, s: Id) { Node(p, Some(s)) in nodes }

  ghost predicate ChildrenDone(b: Book, nodes: seq<Node>, p: Id) {
    forall s :: Child(nodes, p, s) ==> s in b && Done(b[s])
  }

  /** Nodes name scopes and steps that exist. */
  ghost predicate WellBound(b: Book, nodes: seq<Node>) {
    forall p, s :: Child(nodes, p, s) ==> p in b && s in b && b[p].scope && !b[s].scope
  }

  /** The finish of a step is accepted after that of its scope. */
  ghost predicate FinishesLate(b: Book, b': Book, p: Id, s: Id) {
    p in b && s in b && s in b' && Done(b[p]) && !Done(b[s]) && Done(b'[s])
  }

  ghost predicate Nested(books: seq<Book>, nodes: seq<Node>, p: Id) {
    forall i, s :: 0 <= i < |books| - 1 && Child(nodes, p, s) ==> !FinishesLate(books[i], books[i + 1], p, s)
  }

  // ----- what is published stays published

  lemma MoveKeepsDone(c: Cell, m: Move)
    requires Enabled(c, m)
    ensures Done(c) ==> Done(Apply(c, m))
    ensures Apply(c, m).scope == c.scope
    ensures !Done(c) && Done(Apply(c, m)) ==> m.AcceptFinish?
  {
  }

  lemma StepKeepsDone(b: Book, b': Book, a: Act, id: Id)
    requires Step(b, b', a) && id in b
    ensures id in b' && b'[id].scope == b[id].scope && (Done(b[id]) ==> Done(b'[id]))
    ensures !Done(b[id]) && Done(b'[id]) ==> b[id].tokens != []
  {
    if a.One? && a.id == id {
      MoveKeepsDone(b[id], a.move);
    }
  }

  lemma {:induction false} RunKeepsDone(books: seq<Book>, acts: seq<Act>, n: nat, m: nat, id: Id)
    requires Run(books, acts) && n <= m < |books| && id in books[n]
    ensures id in books[m] && books[m][id].scope == books[n][id].scope && (Done(books[n][id]) ==> Done(books[m][id]))
  {
    if n < m {
      RunKeepsDone(books, acts, n, m - 1, id);
      assert StepAt(books, acts, m - 1);
      StepKeepsDone(books[m - 1], books[m], acts[m - 1], id);
    }
  }

  /** Somewhere in a run the finish of an identity is accepted, if it was not before and is at the end. */
  lemma {:induction false} AcceptedSomewhere(books: seq<Book>, acts: seq<Act>, n: nat, id: Id) returns (i: nat)
    requires Run(books, acts) && n < |books| && id in books[0] && !Done(books[0][id])
    requires id in books[n] && Done(books[n][id])
    ensures i < n && id in books[i] && id in books[i + 1] && !Done(books[i][id]) && Done(books[i + 1][id])
  {
    RunKeepsDone(books, acts, 0, n - 1, id);
    if Done(books[n - 1][id]) {
      i := AcceptedSomewhere(books, acts, n - 1, id);
    } else {
      i := n - 1;
    }
  }

  // ----- when a reserved scope finish is safe

  /** Whatever the sink and the other operations do next, no step of the scope finishes after it. */
  ghost predicate StaysNested(b: Book, nodes: seq<Node>, p: Id) {
    forall books, acts :: Run(books, acts) && books[0] == b ==> Nested(books, nodes, p)
  }

  lemma DoneStaysNested(b: Book, nodes: seq<Node>, p: Id)
    requires ChildrenDone(b, nodes, p)
    ensures StaysNested(b, nodes, p)
  {
    forall books, acts | Run(books, acts) && books[0] == b ensures Nested(books, nodes, p) {
      forall i, s | 0 <= i < |books| - 1 && Child(nodes, p, s) ensures !FinishesLate(books[i], books[i + 1], p, s) {
        RunKeepsDone(books, acts, 0, i, s);
      }
    }
  }

  /** An unfinished step can be finished from any state. */
  lemma CanFinish(c: Cell) returns (moves: seq<Move>)
    requires Inv(c) && !c.scope && !Done(c)
    ensures Possible(c, moves) && CalmMoves(c, moves) && Done(After(c, moves))
    decreases match c.lifecycle case Planned => 2 case PublishingFinish => 0 case _ => 1,
              if c.declaring == NotDeclaring then 2 else if c.declaring == DeclareListed then 1 else 0,
              if c.starting == NotStarting then 0 else 1
  {
    var m := NextMove(c);
    CalmMoveKeepsInv(c, m);
    var rest := [];
    if m != AcceptFinish(0) {
      rest := CanFinish(Apply(c, m));
    }
    moves := [m] + rest;
    assert moves[1..] == rest;
  }

  function NextMove(c: Cell): (m: Move)
    requires Inv(c) && !c.scope && !Done(c)
    ensures Enabled(c, m) && Calm(c, m)
  {
    match c.lifecycle
    case Planned =>
      if c.declaring == NotDeclaring then ListDeclare else if c.declaring == DeclareListed then AcceptDeclare else CommitDeclare
    case PublishingFinish => AcceptFinish(0)
    case _ =>
      if c.starting == StartChecked then RejectStart else if c.starting == StartAccepted then CommitStart else ReserveShutdown
  }

  /** A scope finish that is on its way, and that the sink has not accepted yet. */
  predicate Publishing(c: Cell) { c.lifecycle == PublishingFinish && |c.tokens| == 1 && !c.tokens[0].accepted }

  /** With a step unfinished, the scope's finish can be accepted first and the step's later. */
  lemma LateFinish(b: Book, nodes: seq<Node>, p: Id, s: Id) returns (books: seq<Book>, acts: seq<Act>)
    requires AllInv(b) && WellBound(b, nodes) && Child(nodes, p, s) && Publishing(b[p]) && !Done(b[s])
    ensures Run(books, acts) && books[0] == b && !Nested(books, nodes, p)
  {
    var b' := b[p := Apply(b[p], AcceptFinish(0))];
    assert Inv(b[s]);
    var moves := CanFinish(b'[s]);
    var rest, more := OneIdentityRuns(b', s, moves);
    books, acts := [b] + rest, [One(p, AcceptFinish(0))] + more;
    forall i | 0 <= i < |acts| ensures StepAt(books, acts, i) {
      assert i > 0 ==> StepAt(rest, more, i - 1);
    }
    var i := AcceptedSomewhere(rest, more, |more|, s);
    RunKeepsDone(rest, more, 0, i, p);
    assert FinishesLate(books[i + 1], books[i + 2], p, s);
  }

  /** A reserved scope finish is safe, whatever happens next, if and only if every step of the scope has been published. */
  lemma NestingIsExact(b: Book, nodes: seq<Node>, p: Id)
    requires AllInv(b) && WellBound(b, nodes) && p in b && Publishing(b[p])
    ensures StaysNested(b, nodes, p) <==> ChildrenDone(b, nodes, p)
  {
    if ChildrenDone(b, nodes, p) {
      DoneStaysNested(b, nodes, p);
    } else {
      var s :| Child(nodes, p, s) && !(s in b && Done(b[s]));
      var books, acts := LateFinish(b, nodes, p, s);
    }
  }

  // ----- completions

  /** The nodes of a scope, by position. */
  function NodesOf(nodes: seq<Node>, p: Id): set<nat> {
    set n: nat | n < |nodes| && nodes[n].scope == p
  }

  /** `complete` for a node: its step has been finished, and it counts for its scope once. */
  ghost predicate Completes(nodes: seq<Node>, b: Book, p: Id, n: nat, counted: set<nat>) {
    && n in NodesOf(nodes, p) - counted
    && (nodes[n].step.Some? ==> nodes[n].step.value in b && b[nodes[n].step.value].terminal)
  }

  predicate CountsDown(b: Book, a: Act) {
    a.One? && a.id in b && b[a.id].scope && (a.move == CommitNode || a.move == ReserveCompletion)
  }

  ghost predicate Counting(nodes: seq<Node>, b: Book, a: Act, before: set<nat>, after: set<nat>) {
    if CountsDown(b, a) then exists n: nat :: Completes(nodes, b, a.id, n, before) && after == before + {n} else after == before
  }

  /** A run in which scopes are counted down by completed nodes only. */
  ghost predicate CountedRun(nodes: seq<Node>, books: seq<Book>, acts: seq<Act>, counted: seq<set<nat>>) {
    && Run(books, acts) && |counted| == |books| && counted[0] == {}
    && forall i :: 0 <= i < |acts| ==> Counting(nodes, books[i], acts[i], counted[i], counted[i + 1])
  }

  /** `ExecutionRecorder::new`: a scope waits for its nodes. */
  ghost predicate InitialFor(b: Book, nodes: seq<Node>) {
    Initial(b) && WellBound(b, nodes) && forall p :: p in b && b[p].scope ==> b[p].remaining == |NodesOf(nodes, p)|
  }

  ghost predicate Tally(nodes: seq<Node>, b: Book, counted: set<nat>) {
    && (forall p :: p in b && b[p].scope ==> b[p].remaining == |NodesOf(nodes, p) - counted|)
    && (forall n :: n in counted && n < |nodes| && nodes[n].step.Some? ==> nodes[n].step.value in b && Done(b[nodes[n].step.value]))
  }

  lemma MoveCountsDown(c: Cell, m: Move)
    requires Enabled(c, m)
    ensures c.scope ==> Apply(c, m).remaining == c.remaining - if m == CommitNode || m == ReserveCompletion then 1 else 0
  {
  }

  lemma StepCountsDown(b: Book, b': Book, a: Act, p: Id)
    requires Step(b, b', a) && p in b && b[p].scope
    ensures p in b' && b'[p].remaining == b[p].remaining - if CountsDown(b, a) && a.id == p then 1 else 0
  {
    if a.One? && a.id == p {
      MoveCountsDown(b[p], a.move);
    }
  }

  lemma OneFewer(nodes: seq<Node>, p: Id, q: Id, n: nat, counted: set<nat>)
    requires n in NodesOf(nodes, p) - counted
    ensures |NodesOf(nodes, q) - (counted + {n})| == |NodesOf(nodes, q) - counted| - if p == q then 1 else 0
  {
    var left := NodesOf(nodes, q) - counted;
    if p == q {
      assert NodesOf(nodes, q) - (counted + {n}) == left - {n};
    } else {
      assert NodesOf(nodes, q) - (counted + {n}) == left;
    }
  }

  lemma TallyOneMore(nodes: seq<Node>, b: Book, b': Book, a: Act, before: set<nat>, after: set<nat>)
    requires AllInv(b) && Step(b, b', a) && Tally(nodes, b, before) && Counting(nodes, b, a, before, after)
    ensures Tally(nodes, b', after)
  {
    forall p | p in b' && b'[p].scope ensures b'[p].remaining == |NodesOf(nodes, p) - after| {
      StepKeepsDone(b, b', a, p);
      StepCountsDown(b, b', a, p);
      if CountsDown(b, a) {
        var n: nat :| Completes(nodes, b, a.id, n, before) && after == before + {n};
        OneFewer(nodes, a.id, p, n, before);
      }
    }
    forall n | n in after && n < |nodes| && nodes[n].step.Some?
      ensures nodes[n].step.value in b' && Done(b'[nodes[n].step.value])
    {
      var s := nodes[n].step.value;
      if n !in before { assert Inv(b[s]); }
      StepKeepsDone(b, b', a, s);
    }
  }

  lemma {:induction false} TallyRun(nodes: seq<Node>, books: seq<Book>, acts: seq<Act>, counted: seq<set<nat>>, n: nat)
    requires CountedRun(nodes, books, acts, counted) && InitialFor(books[0], nodes) && n < |books|
    ensures Tally(nodes, books[n], counted[n]) && AllInv(books[n])
  {
    RunKeepsInv(books, acts, n);
    if n == 0 {
      assert forall p :: NodesOf(nodes, p) - {} == NodesOf(nodes, p);
    } else {
      TallyRun(nodes, books, acts, counted, n - 1);
      assert StepAt(books, acts, n - 1);
      TallyOneMore(nodes, books[n - 1], books[n], acts[n - 1], counted[n - 1], counted[n]);
    }
  }

  /** Every node of the scope has been counted, except perhaps one whose step is finished. */
  lemma AllCounted(nodes: seq<Node>, b: Book, p: Id, counted: set<nat>, last: set<nat>)
    requires Tally(nodes, b, counted) && NodesOf(nodes, p) - counted <= last
    requires forall n :: n in last && n < |nodes| && nodes[n].step.Some? ==> nodes[n].step.value in b && Done(b[nodes[n].step.value])
    ensures ChildrenDone(b, nodes, p)
  {
    forall s | Child(nodes, p, s) ensures s in b && Done(b[s]) {
      var n :| 0 <= n < |nodes| && nodes[n] == Node(p, Some(s));
      assert n in NodesOf(nodes, p);
    }
  }

  /** A scope that completes, or that is closed because it is empty, has no unfinished step. */
  lemma CompletionComesLast(nodes: seq<Node>, b: Book, p: Id, m: Move, before: set<nat>, after: set<nat>)
    requires AllInv(b) && Tally(nodes, b, before) && p in b && b[p].scope && Enabled(b[p], m)
    requires m == ReserveCompletion || m == ReserveClose
    requires Counting(nodes, b, One(p, m), before, after)
    ensures ChildrenDone(b, nodes, p)
  {
    assert Inv(b[p]);
    if m == ReserveClose {
      AllCounted(nodes, b, p, before, {});
    } else {
      var n: nat :| Completes(nodes, b, p, n, before) && after == before + {n};
      LastOne(NodesOf(nodes, p) - before, n);
      if nodes[n].step.Some? { assert Inv(b[nodes[n].step.value]); }
      AllCounted(nodes, b, p, before, {n});
    }
  }

  lemma LastOne(left: set<nat>, n: nat)
    requires n in left && |left| == 1
    ensures left == {n}
  {
    assert |left - {n}| == 0;
  }

  // ----- whole runs

  /** An act by which shutdown reserves the finish of this scope. */
  predicate ShutsDown(b: Book, a: Act, p: Id) {
    p in b && b[p].scope && match a case One(id, m) => id == p && m == ReserveShutdown case ReserveAll(scopes) => scopes && Active(b[p])
  }

  /** A shutdown reserves the finish of this scope only when all its steps are published. */
  ghost predicate ShutdownWaits(b: Book, a: Act, nodes: seq<Node>, p: Id) {
    ShutsDown(b, a, p) ==> ChildrenDone(b, nodes, p)
  }

  ghost predicate ReservedLast(b: Book, nodes: seq<Node>, p: Id) {
    p in b && b[p].scope && (b[p].tokens != [] || Done(b[p])) ==> ChildrenDone(b, nodes, p)
  }

  lemma StepReservesLast(nodes: seq<Node>, b: Book, b': Book, a: Act, before: set<nat>, after: set<nat>, p: Id)
    requires AllInv(b) && Step(b, b', a) && Tally(nodes, b, before) && Counting(nodes, b, a, before, after)
    requires ReservedLast(b, nodes, p) && ShutdownWaits(b, a, nodes, p)
    ensures ReservedLast(b', nodes, p)
  {
    if p in b {
      StepKeepsDone(b, b', a, p);
      if b[p].scope && ReservesOwn(a, p) {
        CompletionComesLast(nodes, b, p, a.move, before, after);
      }
      if ChildrenDone(b, nodes, p) {
        forall s | Child(nodes, p, s) ensures s in b' && Done(b'[s]) { StepKeepsDone(b, b', a, s); }
      } else if b[p].scope {
        NothingReserved(b, b', a, p);
      }
    }
  }

  predicate ReservesOwn(a: Act, p: Id) { a.One? && a.id == p && (a.move == ReserveCompletion || a.move == ReserveClose) }

  lemma NothingReserved(b: Book, b': Book, a: Act, p: Id)
    requires AllInv(b) && Step(b, b', a) && p in b && b[p].scope && b[p].tokens == [] && !Done(b[p])
    requires !ShutsDown(b, a, p) && !ReservesOwn(a, p)
    ensures p in b' && b'[p].tokens == [] && !Done(b'[p])
  {
    if a.One? && a.id == p {
      MoveKeepsDone(b[p], a.move);
    }
  }

  lemma {:induction false} RunReservesLast(nodes: seq<Node>, books: seq<Book>, acts: seq<Act>, counted: seq<set<nat>>, n: nat, p: Id)
    requires CountedRun(nodes, books, acts, counted) && InitialFor(books[0], nodes) && n < |books|
    requires forall i :: 0 <= i < |acts| ==> ShutdownWaits(books[i], acts[i], nodes, p)
    ensures ReservedLast(books[n], nodes, p)
  {
    if n == 0 {
      FreshReservesNothing(books[0], nodes, p);
    } else {
      RunReservesLast(nodes, books, acts, counted, n - 1, p);
      TurnReservesLast(nodes, books, acts, counted, n - 1, p);
    }
  }

  lemma FreshReservesNothing(b: Book, nodes: seq<Node>, p: Id)
    requires Initial(b)
    ensures ReservedLast(b, nodes, p)
  {
    assert p in b ==> !Done(Fresh(b[p].scope, b[p].remaining));
  }

  lemma TurnReservesLast(nodes: seq<Node>, books: seq<Book>, acts: seq<Act>, counted: seq<set<nat>>, n: nat, p: Id)
    requires CountedRun(nodes, books, acts, counted) && InitialFor(books[0], nodes) && n < |acts|
    requires ReservedLast(books[n], nodes, p) && ShutdownWaits(books[n], acts[n], nodes, p)
    ensures ReservedLast(books[n + 1], nodes, p)
  {
    TallyRun(nodes, books, acts, counted, n);
    assert StepAt(books, acts, n);
    StepReservesLast(nodes, books[n], books[n + 1], acts[n], counted[n], counted[n + 1], p);
  }

  /**
   * In every run, whatever the sink accepts: the finishes of the steps of a scope are accepted before that of the scope,
   * unless a shutdown reserves the scope's while one of them is still missing. Completions never do.
   */
  lemma StepsFinishFirst(nodes: seq<Node>, books: seq<Book>, acts: seq<Act>, counted: seq<set<nat>>, p: Id)
    requires CountedRun(nodes, books, acts, counted) && InitialFor(books[0], nodes)
    requires forall i :: 0 <= i < |acts| ==> ShutdownWaits(books[i], acts[i], nodes, p)
    ensures Nested(books, nodes, p)
  {
    forall i, s | 0 <= i < |books| - 1 && Child(nodes, p, s) ensures !FinishesLate(books[i], books[i + 1], p, s) {
      RunReservesLast(nodes, books, acts, counted, i, p);
      RunKeepsDone(books, acts, 0, i, p);
    }
  }

  // ----- the shutdown

  /** A step swept earlier, with no reservation since: settled, or active again after a rejection. */
  ghost predicate SweptOutcome(now: Cell, rejected: bool) {
    if rejected then Active(now) else Settled(now)
  }

  lemma OutcomeMove(c: Cell, m: Move, rejected: bool)
    requires Inv(c) && !c.scope && SweptOutcome(c, rejected) && Enabled(c, m) && !Reserves(m)
    ensures SweptOutcome(Apply(c, m), rejected || m.RejectFinish?)
  {
  }

  /** No step finish is reserved between the two sweeps. */
  ghost predicate NoneReserved(books: seq<Book>, acts: seq<Act>, n: nat, m: nat)
    requires |books| == |acts| + 1 && m <= |acts|
  {
    forall i :: n <= i < m ==> !ReservesKind(books[i], acts[i], false)
  }

  lemma {:induction false} OutcomeRun(books: seq<Book>, acts: seq<Act>, start: nat, n: nat, s: Id)
    requires Run(books, acts) && Initial(books[0]) && start <= n < |books| && NoneReserved(books, acts, start, n)
    requires s in books[start] && !books[start][s].scope && Settled(books[start][s])
    ensures s in books[n] && !books[n][s].scope && SweptOutcome(books[n][s], RejectedBetween(acts, start, n, s))
  {
    if n > start {
      OutcomeRun(books, acts, start, n - 1, s);
      RunKeepsInv(books, acts, n - 1);
      assert StepAt(books, acts, n - 1);
      StepKeepsDone(books[n - 1], books[n], acts[n - 1], s);
      RejectedOneMore(acts, start, n - 1, s);
      assert Inv(books[n - 1][s]);
      if acts[n - 1].One? && acts[n - 1].id == s {
        OutcomeMove(books[n - 1][s], acts[n - 1].move, RejectedBetween(acts, start, n - 1, s));
      }
    }
  }

  /** This step's finish was rejected after the sweep at `i`, or is still on its way at `j`. */
  ghost predicate Missing(books: seq<Book>, acts: seq<Act>, i: nat, j: nat, s: Id)
    requires j < |books|
  {
    RejectedBetween(acts, i + 1, j, s) || (s in books[j] && Publishing(books[j][s]))
  }

  /**
   * `finish_remaining` on a declared run, while anything else goes on: it sweeps the steps at `i` and the scopes at `j`. The
   * finish it reserves for a scope is safe if and only if no finish of a step of that scope was rejected in between or is still
   * on its way.
   */
  lemma ShutdownNests(books: seq<Book>, acts: seq<Act>, i: nat, j: nat, nodes: seq<Node>, p: Id)
    requires Run(books, acts) && Initial(books[0]) && i < j < |acts| && NonePlanned(books[i]) && NoneReserved(books, acts, i + 1, j)
    requires acts[i] == ReserveAll(false) && acts[j] == ReserveAll(true)
    requires WellBound(books[0], nodes) && p in books[j] && books[j][p].scope && Active(books[j][p])
    ensures StaysNested(books[j + 1], nodes, p) <==> !exists s :: Child(nodes, p, s) && Missing(books, acts, i, j, s)
  {
    RunKeepsInv(books, acts, j);
    RunKeepsInv(books, acts, j + 1);
    assert StepAt(books, acts, j);
    ScopeSweep(books[j], books[j + 1], p);
    BoundLater(books, acts, j + 1, nodes);
    NestingIsExact(books[j + 1], nodes, p);
    forall s | Child(nodes, p, s)
      ensures s in books[j + 1] && (Done(books[j + 1][s]) <==> !Missing(books, acts, i, j, s))
    {
      StepOutcome(books, acts, i, j, nodes, p, s);
    }
  }

  lemma BoundLater(books: seq<Book>, acts: seq<Act>, n: nat, nodes: seq<Node>)
    requires Run(books, acts) && n < |books| && WellBound(books[0], nodes)
    ensures WellBound(books[n], nodes)
  {
    forall p, s | Child(nodes, p, s) ensures p in books[n] && s in books[n] && books[n][p].scope && !books[n][s].scope {
      RunKeepsDone(books, acts, 0, n, p);
      RunKeepsDone(books, acts, 0, n, s);
    }
  }

  lemma ScopeSweep(b: Book, b': Book, id: Id)
    requires AllInv(b) && Step(b, b', ReserveAll(true)) && id in b
    ensures id in b' && if b[id].scope then (Active(b[id]) ==> Publishing(b'[id])) else b'[id] == b[id]
  {
    assert Inv(b[id]);
  }

  lemma StepSweep(b: Book, b': Book, s: Id)
    requires AllInv(b) && Step(b, b', ReserveAll(false)) && s in b && !b[s].scope && b[s].lifecycle != Planned
    ensures s in b' && !b'[s].scope && Settled(b'[s])
  {
  }

  lemma StepOutcome(books: seq<Book>, acts: seq<Act>, i: nat, j: nat, nodes: seq<Node>, p: Id, s: Id)
    requires Run(books, acts) && Initial(books[0]) && i < j < |acts| && NonePlanned(books[i]) && NoneReserved(books, acts, i + 1, j)
    requires acts[i] == ReserveAll(false) && acts[j] == ReserveAll(true)
    requires WellBound(books[0], nodes) && Child(nodes, p, s)
    ensures s in books[j + 1] && (Done(books[j + 1][s]) <==> !Missing(books, acts, i, j, s))
  {
    BoundLater(books, acts, i, nodes);
    RunKeepsInv(books, acts, i);
    assert StepAt(books, acts, i);
    StepSweep(books[i], books[i + 1], s);
    OutcomeRun(books, acts, i + 1, j, s);
    RunKeepsInv(books, acts, j);
    assert StepAt(books, acts, j);
    ScopeSweep(books[j], books[j + 1], s);
    OutcomeIsMissing(books[j][s], RejectedBetween(acts, i + 1, j, s));
  }

  lemma OutcomeIsMissing(c: Cell, rejected: bool)
    requires Inv(c) && SweptOutcome(c, rejected)
    ensures Done(c) <==> !rejected && !Publishing(c)
  {
  }

  // ----- one run in which a step finishes after its scope

  /** A scope `0` with one step `1`: declared, shut down while the sink rejects the step's finish, and shut down again. */
  const REJECTED_ACTS: seq<Act> := [
    One(0, ListDeclare), One(0, AcceptDeclare), One(0, CommitDeclare), One(1, ListDeclare), One(1, AcceptDeclare),
    One(1, CommitDeclare), ReserveAll(false), One(1, RejectFinish(0)), ReserveAll(true), One(0, AcceptFinish(0)),
    One(0, CommitFinish(0)), ReserveAll(false), One(1, AcceptFinish(0))]

  const REJECTED_NODES := [Node(0, Some(1))]

  function Listed(scope: bool, n: nat): Cell { Fresh(scope, n).(declaring := DeclareListed) }

  function Accepted(scope: bool, n: nat): Cell { Fresh(scope, n).(declaring := DeclareAccepted, log := [DeclaredEvent]) }

  function DeclaredCell(scope: bool, n: nat): Cell { Cell(scope, n, Declared, false, [], NotStarting, NotDeclaring, [DeclaredEvent]) }

  function PublishingCell(scope: bool, n: nat, accepted: bool): Cell {
    Cell(scope, n, PublishingFinish, false, [Token(Shutdown, Declared, accepted)], NotStarting, NotDeclaring,
         if accepted then [DeclaredEvent, FinishedEvent] else [DeclaredEvent])
  }

  function FinishedCell(scope: bool, n: nat): Cell {
    Cell(scope, n, Finished, true, [], NotStarting, NotDeclaring, [DeclaredEvent, FinishedEvent])
  }

  function ScopeCells(): seq<Cell> {
    var declared := DeclaredCell(true, 1);
    [Fresh(true, 1), Listed(true, 1), Accepted(true, 1), declared, declared, declared, declared, declared, declared,
     PublishingCell(true, 1, false), PublishingCell(true, 1, true), FinishedCell(true, 1), FinishedCell(true, 1), FinishedCell(true, 1)]
  }

  function StepCells(): seq<Cell> {
    var planned, declared := Fresh(false, 0), DeclaredCell(false, 0);
    [planned, planned, planned, planned, Listed(false, 0), Accepted(false, 0), declared, PublishingCell(false, 0, false), declared, declared,
     declared, declared, PublishingCell(false, 0, false), PublishingCell(false, 0, true)]
  }

  function Pair(scope: Cell, step: Cell): Book { map[0 := scope, 1 := step] }

  function RejectedBooks(): (r: seq<Book>)
    ensures |r| == 14
  {
    seq(14, i requires 0 <= i < 14 => Pair(ScopeCells()[i], StepCells()[i]))
  }

  lemma PairMove(c: Cell, s: Cell, id: Id, m: Move, c': Cell, s': Cell)
    requires if id == 0 then Enabled(c, m) && Calm(c, m) && c' == Apply(c, m) && s' == s
             else id == 1 && Enabled(s, m) && Calm(s, m) && s' == Apply(s, m) && c' == c
    ensures Step(Pair(c, s), Pair(c', s'), One(id, m)) && CalmAct(Pair(c, s), One(id, m))
  {
  }

  lemma PairSweep(c: Cell, s: Cell, scopes: bool)
    requires c.scope && !s.scope && c.starting == NotStarting && s.starting == NotStarting
    requires c.declaring == NotDeclaring && s.declaring == NotDeclaring
    ensures Step(Pair(c, s), Pair(Swept(c, scopes), Swept(s, scopes)), ReserveAll(scopes)) && CalmAct(Pair(c, s), ReserveAll(scopes))
  {
  }

  /** The cells follow the acts. */
  predicate Follows(c: Cell, s: Cell, a: Act, c': Cell, s': Cell) {
    match a
    case One(id, m) =>
      if id == 0 then Enabled(c, m) && Calm(c, m) && c' == Apply(c, m) && s' == s
      else id == 1 && Enabled(s, m) && Calm(s, m) && s' == Apply(s, m) && c' == c
    case ReserveAll(scopes) =>
      && c.scope && !s.scope && c.starting == s.starting == NotStarting && c.declaring == s.declaring == NotDeclaring
      && c' == Swept(c, scopes) && s' == Swept(s, scopes)
  }

  lemma DeclarationFollows(i: nat)
    requires i < 6
    ensures Follows(ScopeCells()[i], StepCells()[i], REJECTED_ACTS[i], ScopeCells()[i + 1], StepCells()[i + 1])
  {
  }

  lemma ShutdownFollows(i: nat)
    requires 6 <= i < 10
    ensures Follows(ScopeCells()[i], StepCells()[i], REJECTED_ACTS[i], ScopeCells()[i + 1], StepCells()[i + 1])
  {
  }

  lemma SecondShutdownFollows(i: nat)
    requires 10 <= i < 13
    ensures Follows(ScopeCells()[i], StepCells()[i], REJECTED_ACTS[i], ScopeCells()[i + 1], StepCells()[i + 1])
  {
  }

  lemma FollowingIsStep(c: Cell, s: Cell, a: Act, c': Cell, s': Cell)
    requires Follows(c, s, a, c', s')
    ensures Step(Pair(c, s), Pair(c', s'), a) && CalmAct(Pair(c, s), a)
  {
    if a.One? {
      PairMove(c, s, a.id, a.move, c', s');
    } else {
      PairSweep(c, s, a.scopes);
    }
  }

  lemma RejectedStep(i: nat)
    requires i < 13
    ensures StepAt(RejectedBooks(), REJECTED_ACTS, i)
  {
    if i < 6 {
      DeclarationFollows(i);
    } else if i < 10 {
      ShutdownFollows(i);
    } else {
      SecondShutdownFollows(i);
    }
    FollowingIsStep(ScopeCells()[i], StepCells()[i], REJECTED_ACTS[i], ScopeCells()[i + 1], StepCells()[i + 1]);
  }

  lemma OneNode(b: Book)
    requires b == Pair(Fresh(true, 1), Fresh(false, 0))
    ensures InitialFor(b, REJECTED_NODES) && Child(REJECTED_NODES, 0, 1)
  {
    assert NodesOf(REJECTED_NODES, 0) == {0};
    assert REJECTED_NODES[0] == Node(0, Some(1));
  }

  /** The documented order does not survive a rejected step: a second shutdown publishes it after its scope. */
  lemma RejectedStepFinishesLate()
    ensures var books, acts := RejectedBooks(), REJECTED_ACTS;
            && Run(books, acts) && InitialFor(books[0], REJECTED_NODES) && NonePlanned(books[6])
            && acts[6] == ReserveAll(false) && RejectsId(acts[7], 1) && acts[8] == ReserveAll(true)
            && FinishesLate(books[12], books[13], 0, 1) && !Nested(books, REJECTED_NODES, 0)
  {
    var books, acts := RejectedBooks(), REJECTED_ACTS;
    forall i | 0 <= i < |acts| ensures StepAt(books, acts, i) { RejectedStep(i); }
    OneNode(books[0]);
    assert FinishesLate(books[12], books[12 + 1], 0, 1);
  }
}
