/** Task and step lifecycles: reserve under the lock, publish outside it, commit or roll back. */
module Lifecycle {
  import opened Paths

  datatype Lifecycle = Planned | Declared | Started | PublishingFinish | Finished

  /** Events that the output sink has accepted. */
  datatype Event = DeclaredEvent | StartedEvent | FinishedEvent

  datatype Owner = Completion | Shutdown | Closing

  /** A reserved finish: who published it, the state a rejection restores, and whether the sink has accepted it. */
  datatype Token = Token(owner: Owner, previous: Lifecycle, accepted: bool)

  /** A start between its check, the sink and its commit. */
  datatype Starting = NotStarting | StartChecked | StartAccepted

  /** A declaration between its snapshot, the sink and its commit; `CloseDue` when an empty scope is still to be closed. */
  datatype Declaring = NotDeclaring | DeclareListed | DeclareAccepted | CloseDue

  /** One task scope or step with the operations in flight on it. `remaining` counts the unfinished nodes of a scope. */
  datatype Cell = Cell(
    scope: bool, remaining: nat, lifecycle: Lifecycle, terminal: bool,
    tokens: seq<Token>, starting: Starting, declaring: Declaring, log: seq<Event>)

  datatype Move =
    | ListDeclare | AcceptDeclare | RejectDeclare | CommitDeclare | ReserveClose
    | CheckStart | AcceptStart | RejectStart | CommitStart
    | CommitNode | ReserveCompletion | ReserveShutdown
    | AcceptFinish(k: nat) | CommitFinish(k: nat) | RejectFinish(k: nat)

  function Fresh(scope: bool, remaining: nat): Cell {
    Cell(scope, remaining, Planned, false, [], NotStarting, NotDeclaring, [])
  }

  predicate Active(c: Cell) { c.lifecycle == Declared || c.lifecycle == Started }

  predicate Reserves(m: Move) { m == ReserveClose || m == ReserveCompletion || m == ReserveShutdown }

  /** The checks that the source makes before each critical section. */
  predicate Enabled(c: Cell, m: Move) {
    match m
    case ListDeclare => c.lifecycle == Planned && c.declaring == NotDeclaring
    case AcceptDeclare => c.declaring == DeclareListed
    case RejectDeclare => c.declaring == DeclareListed
    case CommitDeclare => c.declaring == DeclareAccepted
    case ReserveClose => c.declaring == CloseDue
    case CheckStart => c.lifecycle == Declared && c.starting == NotStarting
    case AcceptStart => c.starting == StartChecked
    case RejectStart => c.starting == StartChecked
    case CommitStart => c.starting == StartAccepted
    case CommitNode => c.scope && c.lifecycle == Started && c.remaining > 1
    case ReserveCompletion => if c.scope then c.lifecycle == Started && c.remaining == 1 else Active(c)
    case ReserveShutdown => Active(c)
    case AcceptFinish(k) => k < |c.tokens| && !c.tokens[k].accepted
    case CommitFinish(k) => k < |c.tokens| && c.tokens[k].accepted
    case RejectFinish(k) => k < |c.tokens| && !c.tokens[k].accepted
  }

  function Without(tokens: seq<Token>, k: nat): seq<Token>
    requires k < |tokens|
  {
    tokens[..k] + tokens[k + 1..]
  }

  function Reserved(c: Cell, owner: Owner): Cell {
    c.(lifecycle := PublishingFinish, tokens := c.tokens + [Token(owner, c.lifecycle, false)])
  }

  /** What each critical section writes, without looking again at the state it overwrites. */
  function Apply(c: Cell, m: Move): Cell
    requires Enabled(c, m)
  {
    match m
    case ListDeclare => c.(declaring := DeclareListed)
    case AcceptDeclare => c.(declaring := DeclareAccepted, log := c.log + [DeclaredEvent])
    case RejectDeclare => c.(declaring := NotDeclaring)
    case CommitDeclare => c.(lifecycle := Declared, declaring := if c.scope && c.remaining == 0 then CloseDue else NotDeclaring)
    case ReserveClose => Reserved(c, Closing).(declaring := NotDeclaring)
    case CheckStart => c.(starting := StartChecked)
    case AcceptStart => c.(starting := StartAccepted, log := c.log + [StartedEvent])
    case RejectStart => c.(starting := NotStarting)
    case CommitStart => c.(lifecycle := Started, starting := NotStarting)
    case CommitNode => c.(remaining := c.remaining - 1)
    case ReserveCompletion => Reserved(if c.scope then c.(remaining := 0) else c, Completion)
    case ReserveShutdown => Reserved(c, Shutdown)
    case AcceptFinish(k) => c.(tokens := c.tokens[k := c.tokens[k].(accepted := true)], log := c.log + [FinishedEvent])
    case CommitFinish(k) => c.(lifecycle := Finished, terminal := true, tokens := Without(c.tokens, k))
    case RejectFinish(k) => c.(lifecycle := c.tokens[k].previous, tokens := Without(c.tokens, k))
  }

  /** Declared, then perhaps started, then at most one finish. */
  predicate Ordered(log: seq<Event>) {
    log <= [DeclaredEvent, StartedEvent, FinishedEvent] || log == [DeclaredEvent, FinishedEvent]
  }

  /** A finish is reserved only while no start of the same identity is in flight and no close of it is due. */
  predicate Calm(c: Cell, m: Move) {
    Reserves(m) ==> c.starting == NotStarting && (m != ReserveClose ==> c.declaring != CloseDue)
  }

  /** The log before a finish, for the state that the finish was reserved in. */
  function LogOf(l: Lifecycle): seq<Event> {
    if l == Planned then [] else if l == Declared then [DeclaredEvent] else [DeclaredEvent, StartedEvent]
  }

  predicate Inv(c: Cell) {
    && (c.terminal <==> c.lifecycle == Finished)
    && (c.lifecycle == PublishingFinish || c.tokens == [])
    && (c.declaring == CloseDue ==> c.scope && c.remaining == 0)
    && match c.lifecycle
       case Planned =>
         && c.starting == NotStarting && c.declaring != CloseDue
         && c.log == if c.declaring == DeclareAccepted then [DeclaredEvent] else []
       case Declared =>
         && (c.declaring == NotDeclaring || c.declaring == CloseDue)
         && c.log == if c.starting == StartAccepted then LogOf(Started) else LogOf(Declared)
       case Started =>
         && (c.declaring == NotDeclaring || c.declaring == CloseDue)
         && c.starting == NotStarting && c.log == LogOf(Started)
       case PublishingFinish =>
         && c.declaring == NotDeclaring && c.starting == NotStarting && |c.tokens| == 1
         && (c.tokens[0].previous == Declared || c.tokens[0].previous == Started)
         && (c.scope && c.tokens[0].owner == Completion ==> c.remaining == 0)
         && c.log == LogOf(c.tokens[0].previous) + if c.tokens[0].accepted then [FinishedEvent] else []
       case Finished =>
         && c.declaring == NotDeclaring && c.starting == NotStarting
         && (c.log == LogOf(Declared) + [FinishedEvent] || c.log == LogOf(Started) + [FinishedEvent])
  }

  lemma InvIsOrdered(c: Cell)
    requires Inv(c)
    ensures Ordered(c.log)
  {
  }

  lemma CalmMoveKeepsInv(c: Cell, m: Move)
    requires Inv(c) && Enabled(c, m) && Calm(c, m)
    ensures Inv(Apply(c, m))
  {
    if m.AcceptFinish? || m.CommitFinish? || m.RejectFinish? {
      FinishMoveKeepsInv(c, m);
    } else {
      EarlierMoveKeepsInv(c, m);
    }
  }

  predicate Starts(m: Move) { m == CheckStart || m == AcceptStart || m == RejectStart || m == CommitStart }

  lemma EarlierMoveKeepsInv(c: Cell, m: Move)
    requires Inv(c) && Enabled(c, m) && Calm(c, m) && !m.AcceptFinish? && !m.CommitFinish? && !m.RejectFinish?
    ensures Inv(Apply(c, m))
  {
    if Reserves(m) || m == CommitNode {
      ReservationKeepsInv(c, m);
    } else if Starts(m) {
      StartMoveKeepsInv(c, m);
    } else {
      DeclareMoveKeepsInv(c, m);
    }
  }

  lemma ReservationKeepsInv(c: Cell, m: Move)
    requires Inv(c) && Enabled(c, m) && Calm(c, m) && (Reserves(m) || m == CommitNode)
    ensures Inv(Apply(c, m))
  {
  }

  lemma StartMoveKeepsInv(c: Cell, m: Move)
    requires Inv(c) && Enabled(c, m) && Starts(m)
    ensures Inv(Apply(c, m))
  {
    assert LogOf(Declared) + [StartedEvent] == LogOf(Started);
  }

  lemma DeclareMoveKeepsInv(c: Cell, m: Move)
    requires Inv(c) && Enabled(c, m) && (m == ListDeclare || m == AcceptDeclare || m == RejectDeclare || m == CommitDeclare)
    ensures Inv(Apply(c, m))
  {
    assert [] + [DeclaredEvent] == [DeclaredEvent];
  }

  lemma FinishMoveKeepsInv(c: Cell, m: Move)
    requires Inv(c) && Enabled(c, m) && (m.AcceptFinish? || m.CommitFinish? || m.RejectFinish?)
    ensures Inv(Apply(c, m))
  {
  }

  /** Moves applied one after the other. */
  ghost predicate Possible(c: Cell, moves: seq<Move>)
    decreases |moves|
  {
    moves == [] || (Enabled(c, moves[0]) && Possible(Apply(c, moves[0]), moves[1..]))
  }

  ghost function After(c: Cell, moves: seq<Move>): Cell
    requires Possible(c, moves)
    decreases |moves|
  {
    if moves == [] then c else After(Apply(c, moves[0]), moves[1..])
  }

  ghost predicate CalmMoves(c: Cell, moves: seq<Move>)
    requires Possible(c, moves)
    decreases |moves|
  {
    moves == [] || (Calm(c, moves[0]) && CalmMoves(Apply(c, moves[0]), moves[1..]))
  }

  lemma {:induction false} CalmMovesKeepInv(c: Cell, moves: seq<Move>)
    requires Inv(c) && Possible(c, moves) && CalmMoves(c, moves)
    ensures Inv(After(c, moves))
    decreases |moves|
  {
    if moves != [] {
      CalmMoveKeepsInv(c, moves[0]);
      CalmMovesKeepInv(Apply(c, moves[0]), moves[1..]);
    }
  }

  /** Every continuation without another disturbed reservation keeps the order. */
  ghost predicate StaysOrdered(c: Cell) {
    forall moves :: Possible(c, moves) && CalmMoves(c, moves) ==> Ordered(After(c, moves).log)
  }

  /** What goes wrong after a calm move already was bound to go wrong before it. */
  lemma Inevitable(c: Cell, m: Move)
    requires Enabled(c, m) && Calm(c, m) && !StaysOrdered(Apply(c, m))
    ensures !StaysOrdered(c)
  {
    var next := Apply(c, m);
    var rest :| Possible(next, rest) && CalmMoves(next, rest) && !Ordered(After(next, rest).log);
    var moves := [m] + rest;
    assert moves[0] == m && moves[1..] == rest;
    assert Possible(c, moves) && CalmMoves(c, moves) && After(c, moves) == After(next, rest);
  }

  lemma AlreadyWrong(c: Cell)
    requires !Ordered(c.log)
    ensures !StaysOrdered(c)
  {
    assert Possible(c, []) && CalmMoves(c, []) && After(c, []) == c;
  }

  /** A start that was checked before the reservation can be accepted after the finish. */
  lemma StartAfterFinish(c: Cell)
    requires c.starting == StartChecked && |c.tokens| == 1 && !c.tokens[0].accepted && c.log == [DeclaredEvent]
    ensures !StaysOrdered(c)
  {
    var c1 := Apply(c, AcceptFinish(0));
    var c2 := Apply(c1, AcceptStart);
    assert c2.log == [DeclaredEvent, FinishedEvent, StartedEvent] && c2.log[1] == FinishedEvent;
    AlreadyWrong(c2);
    Inevitable(c1, AcceptStart);
    Inevitable(c, AcceptFinish(0));
  }

  /** Two reservations can both be accepted. */
  lemma TwoFinishes(c: Cell)
    requires |c.tokens| == 2 && !c.tokens[0].accepted && !c.tokens[1].accepted
    ensures !StaysOrdered(c)
  {
    var c1 := Apply(c, AcceptFinish(0));
    var c2 := Apply(c1, AcceptFinish(1));
    var n := |c.log|;
    assert |c2.log| == n + 2 && c2.log[n] == FinishedEvent && c2.log[n + 1] == FinishedEvent;
    AlreadyWrong(c2);
    Inevitable(c1, AcceptFinish(1));
    Inevitable(c, AcceptFinish(0));
  }

  /** A start that was accepted before the reservation overwrites it, and the next shutdown reserves again. */
  lemma StartOverwritesFinish(c: Cell)
    requires c.starting == StartAccepted && c.declaring != CloseDue && |c.tokens| == 1 && !c.tokens[0].accepted
    ensures !StaysOrdered(c)
  {
    var c1 := Apply(c, CommitStart);
    TwoFinishes(Apply(c1, ReserveShutdown));
    Inevitable(c1, ReserveShutdown);
    Inevitable(c, CommitStart);
  }

  /** A close that was due before the reservation reserves a second finish. */
  lemma CloseFinishesAgain(c: Cell)
    requires c.declaring == CloseDue && c.starting == NotStarting && |c.tokens| == 1 && !c.tokens[0].accepted
    ensures !StaysOrdered(c)
  {
    TwoFinishes(Apply(c, ReserveClose));
    Inevitable(c, ReserveClose);
  }

  lemma DisturbedReservation(c: Cell, m: Move)
    requires Inv(c) && Enabled(c, m) && Reserves(m) && !Calm(c, m)
    ensures !StaysOrdered(Apply(c, m))
  {
    var d := Apply(c, m);
    if d.starting == StartChecked {
      StartAfterFinish(d);
    } else if d.declaring == CloseDue {
      if d.starting == StartAccepted {
        CloseFinishesAgain(Apply(d, CommitStart));
        Inevitable(d, CommitStart);
      } else {
        CloseFinishesAgain(d);
      }
    } else {
      StartOverwritesFinish(d);
    }
  }

  /** Reserving a finish is safe, whatever the sink and the other operations do next, if and only if it is calm. */
  lemma CalmIsExact(c: Cell, m: Move)
    requires Inv(c) && Enabled(c, m) && Reserves(m)
    ensures StaysOrdered(Apply(c, m)) <==> Calm(c, m)
  {
    if Calm(c, m) {
      CalmMoveKeepsInv(c, m);
      var d := Apply(c, m);
      forall moves | Possible(d, moves) && CalmMoves(d, moves) ensures Ordered(After(d, moves).log) {
        CalmMovesKeepInv(d, moves);
        InvIsOrdered(After(d, moves));
      }
    } else {
      DisturbedReservation(c, m);
    }
  }

  // ----- whole runs over all identities

  type Id = nat

  /** One critical section of one identity, or the reservation of everything active of one kind by `finish_remaining`. */
  datatype Act = One(id: Id, move: Move) | ReserveAll(scopes: bool)

  type Book = map<Id, Cell>

  function Swept(c: Cell, scopes: bool): Cell {
    if c.scope == scopes && Active(c) then Apply(c, ReserveShutdown) else c
  }

  ghost predicate Step(b: Book, b': Book, a: Act) {
    match a
    case One(id, move) => id in b && Enabled(b[id], move) && b' == b[id := Apply(b[id], move)]
    case ReserveAll(scopes) => b' == map id | id in b :: Swept(b[id], scopes)
  }

  ghost predicate CalmAct(b: Book, a: Act) {
    match a
    case One(id, move) => id in b && Calm(b[id], move)
    case ReserveAll(scopes) => forall id :: id in b && b[id].scope == scopes && Active(b[id]) ==> Calm(b[id], ReserveShutdown)
  }

  ghost predicate Run(books: seq<Book>, acts: seq<Act>) {
    && |books| == |acts| + 1
    && forall i :: 0 <= i < |acts| ==> StepAt(books, acts, i)
  }

  ghost predicate StepAt(books: seq<Book>, acts: seq<Act>, i: nat)
    requires |books| == |acts| + 1 && i < |acts|
  {
    Step(books[i], books[i + 1], acts[i]) && CalmAct(books[i], acts[i])
  }

  /** `ExecutionRecorder::new`: everything planned, nothing in flight. */
  ghost predicate Initial(b: Book) {
    forall id :: id in b ==> b[id] == Fresh(b[id].scope, b[id].remaining)
  }

  ghost predicate AllInv(b: Book) {
    forall id {:trigger Inv(b[id])} :: id in b ==> Inv(b[id])
  }

  lemma StepKeepsInv(b: Book, b': Book, a: Act)
    requires AllInv(b) && Step(b, b', a) && CalmAct(b, a)
    ensures AllInv(b') && b'.Keys == b.Keys
  {
    match a {
      case One(id, move) => CalmMoveKeepsInv(b[id], move);
      case ReserveAll(scopes) =>
        forall id | id in b' ensures Inv(b'[id]) {
          if b[id].scope == scopes && Active(b[id]) {
            CalmMoveKeepsInv(b[id], ReserveShutdown);
          }
        }
    }
  }

  lemma {:induction false} RunKeepsInv(books: seq<Book>, acts: seq<Act>, n: nat)
    requires Run(books, acts) && Initial(books[0]) && n < |books|
    ensures AllInv(books[n]) && books[n].Keys == books[0].Keys
  {
    if n > 0 {
      RunKeepsInv(books, acts, n - 1);
      assert StepAt(books, acts, n - 1);
      StepKeepsInv(books[n - 1], books[n], acts[n - 1]);
    }
  }

  /** In every run each identity's accepted events are a declaration, at most one start and at most one finish, in
      that order. */
  lemma EventsAreOrdered(books: seq<Book>, acts: seq<Act>, n: nat, id: Id)
    requires Run(books, acts) && Initial(books[0]) && n < |books| && id in books[n]
    ensures Ordered(books[n][id].log)
  {
    RunKeepsInv(books, acts, n);
    InvIsOrdered(books[n][id]);
  }

  /** Moves of one identity, while the others rest, are a run. */
  lemma {:induction false} OneIdentityRuns(b: Book, id: Id, moves: seq<Move>) returns (books: seq<Book>, acts: seq<Act>)
    requires id in b && Possible(b[id], moves) && CalmMoves(b[id], moves)
    ensures Run(books, acts) && books[0] == b && id in books[|acts|] && books[|acts|][id] == After(b[id], moves)
    decreases |moves|
  {
    if moves == [] {
      books, acts := [b], [];
    } else {
      var b' := b[id := Apply(b[id], moves[0])];
      var rest, more := OneIdentityRuns(b', id, moves[1..]);
      books, acts := [b] + rest, [One(id, moves[0])] + more;
      forall i | 0 <= i < |acts| ensures StepAt(books, acts, i) {
        assert i > 0 ==> StepAt(rest, more, i - 1);
      }
    }
  }

  /** And a reservation that is not calm, in any run so far, has a continuation that breaks the order. */
  lemma DisturbedRunBreaks(books: seq<Book>, acts: seq<Act>, id: Id, m: Move) returns (after: seq<Book>, more: seq<Act>)
    requires Run(books, acts) && Initial(books[0]) && id in books[|acts|]
    requires Enabled(books[|acts|][id], m) && Reserves(m) && !Calm(books[|acts|][id], m)
    ensures Run(after, more) && after[0] == books[|acts|][id := Apply(books[|acts|][id], m)]
    ensures id in after[|more|] && !Ordered(after[|more|][id].log)
  {
    RunKeepsInv(books, acts, |acts|);
    var c := books[|acts|][id];
    assert Inv(c);
    DisturbedReservation(c, m);
    var d := Apply(c, m);
    var moves :| Possible(d, moves) && CalmMoves(d, moves) && !Ordered(After(d, moves).log);
    after, more := OneIdentityRuns(books[|acts|][id := d], id, moves);
  }

  /** In every run a reserved finish has exactly one publisher, and only a reserved one has any. */
  lemma OnePublisher(books: seq<Book>, acts: seq<Act>, n: nat, id: Id)
    requires Run(books, acts) && Initial(books[0]) && n < |books| && id in books[n]
    ensures |books[n][id].tokens| == if books[n][id].lifecycle == PublishingFinish then 1 else 0
  {
    RunKeepsInv(books, acts, n);
    assert Inv(books[n][id]);
  }

  /** The count of remaining nodes never grows, and a scope stays a scope. */
  lemma MoveLowersRemaining(c: Cell, m: Move)
    requires Enabled(c, m)
    ensures Apply(c, m).remaining <= c.remaining && Apply(c, m).scope == c.scope
  {
  }

  lemma {:induction false} RemainingFalls(books: seq<Book>, acts: seq<Act>, n: nat, m: nat, id: Id)
    requires Run(books, acts) && Initial(books[0]) && n <= m < |books| && id in books[0]
    ensures id in books[n] && id in books[m]
    ensures books[m][id].remaining <= books[n][id].remaining && books[m][id].scope == books[n][id].scope
  {
    RunKeepsInv(books, acts, n);
    RunKeepsInv(books, acts, m);
    if m > n {
      RemainingFalls(books, acts, n, m - 1, id);
      RunKeepsInv(books, acts, m - 1);
      assert StepAt(books, acts, m - 1);
      StepLowersRemaining(books[m - 1], books[m], acts[m - 1], id);
    }
  }

  lemma StepLowersRemaining(b: Book, b': Book, a: Act, id: Id)
    requires Step(b, b', a) && id in b
    ensures id in b' && b'[id].remaining <= b[id].remaining && b'[id].scope == b[id].scope
  {
    if a.One? {
      MoveLowersRemaining(b[a.id], a.move);
    } else if b[id].scope == a.scopes && Active(b[id]) {
      MoveLowersRemaining(b[id], ReserveShutdown);
    }
  }

  /** `complete` for a node of scope `p` with step `id` passes its checks. */
  ghost predicate Completable(b: Book, p: Id, id: Id) {
    p in b && id in b && b[p].scope && b[p].lifecycle == Started && b[p].remaining > 0 && Active(b[id])
  }

  lemma RejectedCell(c: Cell, k: nat)
    requires Inv(c) && Enabled(c, RejectFinish(k))
    ensures var d := Apply(c, RejectFinish(k));
            && d.log == c.log && d.tokens == [] && d.remaining == c.remaining && d.scope == c.scope && Active(d)
            && (c.scope && c.tokens[k].owner == Completion ==> d.remaining == 0)
  {
  }

  /**
   * Who can retry a rejected finish, in every run. It leaves no event behind, and shutdown can always reserve again. A step is
   * retried by completing its node again exactly as long as its scope still accepts completions, which the rejection itself does
   * not change. A scope whose last completion was rejected is never completed again: only shutdown can finish it. A scope whose
   * shutdown was rejected goes on as before.
   */
  lemma RejectedFinishIsRetryable(books: seq<Book>, acts: seq<Act>, n: nat, id: Id, k: nat)
    requires Run(books, acts) && Initial(books[0]) && n < |acts| && acts[n] == One(id, RejectFinish(k))
    ensures id in books[n] && id in books[n + 1] && k < |books[n][id].tokens|
    ensures books[n + 1][id].log == books[n][id].log && Enabled(books[n + 1][id], ReserveShutdown)
    ensures forall p :: p in books[n] && p != id ==> p in books[n + 1] && books[n + 1][p] == books[n][p]
    ensures forall p :: !books[n][id].scope && p in books[n] && books[n][p].scope ==>
              (Completable(books[n + 1], p, id) <==> books[n][p].lifecycle == Started && books[n][p].remaining > 0)
    ensures books[n][id].scope && books[n][id].tokens[k].owner == Completion ==>
              forall m :: n < m < |books| ==>
                id in books[m] && !Enabled(books[m][id], ReserveCompletion) && !Enabled(books[m][id], CommitNode)
    ensures books[n][id].scope && books[n][id].tokens[k].owner != Completion ==>
              books[n + 1][id].remaining == books[n][id].remaining
  {
    RunKeepsInv(books, acts, n);
    assert StepAt(books, acts, n);
    assert Inv(books[n][id]);
    RejectedCell(books[n][id], k);
    if books[n][id].scope && books[n][id].tokens[k].owner == Completion {
      forall m | n < m < |books|
        ensures id in books[m] && !Enabled(books[m][id], ReserveCompletion) && !Enabled(books[m][id], CommitNode)
      {
        RemainingFalls(books, acts, n + 1, m, id);
      }
    }
  }

  // ----- shutdown and results

  /** `results` succeeds: every step and every scope carries a finish time. */
  ghost predicate ResultsReady(b: Book) {
    forall id :: id in b ==> b[id].terminal
  }

  /** The finish is on its way or done. */
  predicate Settled(c: Cell) { c.lifecycle == PublishingFinish || c.lifecycle == Finished }

  /** Every identity of one kind is settled. */
  ghost predicate KindSettled(b: Book, scopes: bool) {
    forall id :: id in b && b[id].scope == scopes ==> Settled(b[id])
  }

  ghost predicate NonePlanned(b: Book) {
    forall id :: id in b ==> b[id].lifecycle != Planned
  }

  /** A settled identity admits only the publication of its finish. */
  lemma SettledMoves(c: Cell, m: Move)
    requires Inv(c) && Settled(c) && Enabled(c, m)
    ensures m.AcceptFinish? || m.CommitFinish? || m.RejectFinish?
  {
  }

  /** This act is the rejection of a finish of the given kind. */
  ghost predicate Rejects(b: Book, a: Act, scopes: bool) {
    a.One? && a.move.RejectFinish? && a.id in b && b[a.id].scope == scopes
  }

  lemma MoveKeepsKind(c: Cell, m: Move)
    requires Inv(c) && Enabled(c, m)
    ensures Apply(c, m).scope == c.scope && (c.lifecycle != Planned ==> Apply(c, m).lifecycle != Planned)
  {
  }

  lemma SettledMoveStays(c: Cell, m: Move)
    requires Inv(c) && Settled(c) && Enabled(c, m) && !m.RejectFinish?
    ensures Settled(Apply(c, m))
  {
  }

  lemma StepKeepsKinds(b: Book, b': Book, a: Act)
    requires AllInv(b) && Step(b, b', a) && NonePlanned(b)
    ensures NonePlanned(b')
  {
    forall id | id in b' ensures b'[id].lifecycle != Planned {
      if a.One? {
        MoveKeepsKind(b[a.id], a.move);
      } else if b[id].scope == a.scopes && Active(b[id]) {
        MoveKeepsKind(b[id], ReserveShutdown);
      }
    }
  }

  lemma SettledStays(b: Book, b': Book, a: Act, scopes: bool)
    requires AllInv(b) && KindSettled(b, scopes) && Step(b, b', a) && !Rejects(b, a, scopes)
    ensures KindSettled(b', scopes)
  {
    forall id | id in b' && b'[id].scope == scopes ensures Settled(b'[id]) {
      if a.One? && a.id == id {
        MoveKeepsKind(b[id], a.move);
        SettledMoveStays(b[id], a.move);
      } else if a.One? {
        assert b'[id] == b[id];
      } else {
        assert b'[id].scope == b[id].scope;
        assert Settled(b[id]) && !Active(b[id]);
      }
    }
  }

  lemma SweepSettles(b: Book, b': Book, scopes: bool)
    requires AllInv(b) && NonePlanned(b) && Step(b, b', ReserveAll(scopes))
    ensures KindSettled(b', scopes)
  {
  }

  /** No finish of this kind is rejected from position `n` on. */
  ghost predicate QuietFrom(books: seq<Book>, acts: seq<Act>, n: nat, scopes: bool)
    requires |books| == |acts| + 1
  {
    forall i :: n <= i < |acts| ==> !Rejects(books[i], acts[i], scopes)
  }

  lemma {:induction false} SettledRun(books: seq<Book>, acts: seq<Act>, start: nat, n: nat, scopes: bool)
    requires Run(books, acts) && Initial(books[0]) && start <= n < |books|
    requires KindSettled(books[start], scopes) && QuietFrom(books, acts, start, scopes)
    ensures KindSettled(books[n], scopes)
  {
    if n > start {
      SettledRun(books, acts, start, n - 1, scopes);
      RunKeepsInv(books, acts, n - 1);
      assert StepAt(books, acts, n - 1);
      SettledStays(books[n - 1], books[n], acts[n - 1], scopes);
    }
  }

  lemma {:induction false} NonePlannedRun(books: seq<Book>, acts: seq<Act>, start: nat, n: nat)
    requires Run(books, acts) && Initial(books[0]) && start <= n < |books| && NonePlanned(books[start])
    ensures NonePlanned(books[n])
  {
    if n > start {
      NonePlannedRun(books, acts, start, n - 1);
      RunKeepsInv(books, acts, n - 1);
      assert StepAt(books, acts, n - 1);
      StepKeepsKinds(books[n - 1], books[n], acts[n - 1]);
    }
  }

  /** A sweep of one kind, once everything was declared, settles that kind for the rest of the run unless a finish
      is rejected. */
  lemma SweptKind(books: seq<Book>, acts: seq<Act>, i: nat, scopes: bool)
    requires Run(books, acts) && Initial(books[0]) && i < |acts| && NonePlanned(books[i])
    requires acts[i] == ReserveAll(scopes) && QuietFrom(books, acts, i + 1, scopes)
    ensures KindSettled(books[|acts|], scopes)
  {
    RunKeepsInv(books, acts, i);
    assert StepAt(books, acts, i);
    SweepSettles(books[i], books[i + 1], scopes);
    SettledRun(books, acts, i + 1, |acts|, scopes);
  }

  /**
   * `finish_remaining` on a declared run, while anything else goes on: it sweeps the steps, later the scopes. If no finish is
   * rejected after its sweep and at the end nothing is in flight, `results` succeeds.
   */
  lemma ShutdownCompletesResults(books: seq<Book>, acts: seq<Act>, i: nat, j: nat)
    requires Run(books, acts) && Initial(books[0]) && i < j < |acts| && NonePlanned(books[i])
    requires acts[i] == ReserveAll(false) && QuietFrom(books, acts, i + 1, false)
    requires acts[j] == ReserveAll(true) && QuietFrom(books, acts, j + 1, true)
    requires forall id :: id in books[|acts|] ==> books[|acts|][id].tokens == []
    ensures ResultsReady(books[|acts|])
  {
    NonePlannedRun(books, acts, i, j);
    SweptKind(books, acts, i, false);
    SweptKind(books, acts, j, true);
    RunKeepsInv(books, acts, |acts|);
    forall id | id in books[|acts|] ensures books[|acts|][id].terminal {
      assert Settled(books[|acts|][id]) && Inv(books[|acts|][id]);
    }
  }

  ghost predicate NoReservation(moves: seq<Move>) {
    forall i :: 0 <= i < |moves| ==> !Reserves(moves[i]) && !moves[i].ListDeclare?
  }

  ghost predicate SomeRejection(moves: seq<Move>) {
    exists i :: 0 <= i < |moves| && moves[i].RejectFinish?
  }

  lemma {:induction false} WithoutReservationNoFinish(c: Cell, moves: seq<Move>)
    requires c.tokens == [] && !c.terminal && Possible(c, moves) && NoReservation(moves)
    ensures !After(c, moves).terminal
    decreases |moves|
  {
    if moves != [] {
      assert forall i :: 0 <= i < |moves[1..]| ==> moves[1..][i] == moves[i + 1];
      WithoutReservationNoFinish(Apply(c, moves[0]), moves[1..]);
    }
  }

  lemma RejectionComesFirst(moves: seq<Move>)
    requires moves != []
    ensures SomeRejection(moves) <==> moves[0].RejectFinish? || SomeRejection(moves[1..])
  {
  }

  /** After a sweep, and until somebody reserves again, an identity ends with a result if and only if its finish is
      not rejected, whoever owns it. */
  lemma {:induction false} ResultUnlessRejected(c: Cell, moves: seq<Move>)
    requires Inv(c) && Settled(c) && Possible(c, moves) && NoReservation(moves) && After(c, moves).tokens == []
    ensures After(c, moves).terminal <==> !SomeRejection(moves)
    decreases |moves|
  {
    if moves != [] {
      var m := moves[0];
      SettledMoves(c, m);
      CalmMoveKeepsInv(c, m);
      RejectionComesFirst(moves);
      assert forall i :: 0 <= i < |moves[1..]| ==> moves[1..][i] == moves[i + 1];
      if m.RejectFinish? {
        WithoutReservationNoFinish(Apply(c, m), moves[1..]);
      } else {
        ResultUnlessRejected(Apply(c, m), moves[1..]);
      }
    }
  }

  // ----- what a successful shutdown promises

  /** An act that reserves a finish of the given kind. */
  ghost predicate ReservesKind(b: Book, a: Act, scopes: bool) {
    if a.One? then Reserves(a.move) && a.id in b && b[a.id].scope == scopes else a.scopes == scopes
  }

  ghost predicate NoReservationFrom(books: seq<Book>, acts: seq<Act>, n: nat, scopes: bool)
    requires |books| == |acts| + 1
  {
    forall i :: n <= i < |acts| ==> !ReservesKind(books[i], acts[i], scopes)
  }

  /** `finish_remaining` returned no error for this kind: none of its own finishes was rejected. */
  ghost predicate ShutdownOk(books: seq<Book>, acts: seq<Act>, n: nat, scopes: bool)
    requires |books| == |acts| + 1
  {
    forall i :: n <= i < |acts| && Rejects(books[i], acts[i], scopes) ==> ForeignRejection(books[i], acts[i])
  }

  ghost predicate ForeignRejection(b: Book, a: Act) {
    a.One? && a.move.RejectFinish? && a.id in b && a.move.k < |b[a.id].tokens| && b[a.id].tokens[a.move.k].owner != Shutdown
  }

  /** A finish that somebody else is publishing. */
  predicate ForeignFinish(c: Cell) { c.lifecycle == PublishingFinish && |c.tokens| == 1 && c.tokens[0].owner != Shutdown }

  /** Some act from `n` on, before `m`, rejects the finish of this identity. */
  ghost predicate RejectedBetween(acts: seq<Act>, n: nat, m: nat, id: Id) {
    exists i :: n <= i < m && i < |acts| && RejectsId(acts[i], id)
  }

  predicate RejectsId(a: Act, id: Id) { a.One? && a.id == id && a.move.RejectFinish? }

  /** An identity that was settled at `c`, as it is now, with no reservation in between. */
  ghost predicate Fate(c: Cell, now: Cell, rejected: bool) {
    && now.scope == c.scope
    && if rejected then ForeignFinish(c) && now.tokens == [] && !now.terminal && now.lifecycle != PublishingFinish
       else Settled(now) && (now.tokens != [] ==> c.lifecycle == PublishingFinish && |c.tokens| == |now.tokens| == 1
                                                   && c.tokens[0].owner == now.tokens[0].owner)
  }

  lemma FateMoves(c: Cell, now: Cell, rejected: bool, m: Move)
    requires Inv(now) && Fate(c, now, rejected) && Enabled(now, m) && !Reserves(m)
    requires m.RejectFinish? && !rejected ==> now.tokens[m.k].owner != Shutdown
    ensures Fate(c, Apply(now, m), rejected || m.RejectFinish?)
  {
    if !rejected {
      SettledMoves(now, m);
    }
  }

  lemma FateStep(c: Cell, b: Book, b': Book, a: Act, id: Id, rejected: bool)
    requires AllInv(b) && Step(b, b', a) && id in b && Fate(c, b[id], rejected)
    requires !ReservesKind(b, a, c.scope) && (RejectsId(a, id) ==> ForeignRejection(b, a))
    ensures id in b' && Fate(c, b'[id], rejected || RejectsId(a, id))
  {
    if a.One? && a.id == id {
      assert Inv(b[id]);
      FateMoves(c, b[id], rejected, a.move);
    }
  }

  lemma {:induction false} FateRun(books: seq<Book>, acts: seq<Act>, start: nat, n: nat, id: Id)
    requires Run(books, acts) && Initial(books[0]) && start <= n < |books| && id in books[0]
    requires id in books[start] && Settled(books[start][id])
    requires NoReservationFrom(books, acts, start, books[start][id].scope) && ShutdownOk(books, acts, start, books[start][id].scope)
    ensures id in books[n] && Fate(books[start][id], books[n][id], RejectedBetween(acts, start, n, id))
  {
    if n == start {
      RunKeepsInv(books, acts, n);
      assert Inv(books[n][id]);
    } else {
      FateRun(books, acts, start, n - 1, id);
      FateAt(books, acts, start, n - 1, id, RejectedBetween(acts, start, n - 1, id));
      RejectedOneMore(acts, start, n - 1, id);
    }
  }

  lemma FateAt(books: seq<Book>, acts: seq<Act>, start: nat, n: nat, id: Id, rejected: bool)
    requires Run(books, acts) && Initial(books[0]) && start <= n < |acts| && id in books[start] && id in books[n]
    requires NoReservationFrom(books, acts, start, books[start][id].scope) && ShutdownOk(books, acts, start, books[start][id].scope)
    requires Fate(books[start][id], books[n][id], rejected)
    ensures id in books[n + 1] && Fate(books[start][id], books[n + 1][id], rejected || RejectsId(acts[n], id))
  {
    RunKeepsInv(books, acts, n);
    assert StepAt(books, acts, n);
    if RejectsId(acts[n], id) {
      assert Rejects(books[n], acts[n], books[start][id].scope);
    }
    FateStep(books[start][id], books[n], books[n + 1], acts[n], id, rejected);
  }

  lemma RejectedOneMore(acts: seq<Act>, start: nat, n: nat, id: Id)
    requires start <= n < |acts|
    ensures RejectedBetween(acts, start, n + 1, id) <==> RejectedBetween(acts, start, n, id) || RejectsId(acts[n], id)
  {
  }

  /** After its sweep at `sweep`, a finish that somebody else was publishing then is rejected. */
  ghost predicate LostLate(books: seq<Book>, acts: seq<Act>, sweep: nat, id: Id)
    requires sweep < |books|
  {
    id in books[sweep] && ForeignFinish(books[sweep][id]) && RejectedBetween(acts, sweep + 1, |acts|, id)
  }

  lemma IdentityOutcome(books: seq<Book>, acts: seq<Act>, sweep: nat, id: Id)
    requires Run(books, acts) && Initial(books[0]) && sweep < |acts| && id in books[0] && id in books[sweep]
    requires NonePlanned(books[sweep]) && acts[sweep] == ReserveAll(books[sweep][id].scope)
    requires NoReservationFrom(books, acts, sweep + 1, books[sweep][id].scope)
    requires ShutdownOk(books, acts, sweep + 1, books[sweep][id].scope)
    requires id in books[|acts|] && books[|acts|][id].tokens == []
    ensures books[|acts|][id].terminal <==> !LostLate(books, acts, sweep, id)
  {
    var scopes := books[sweep][id].scope;
    RunKeepsInv(books, acts, sweep);
    RunKeepsInv(books, acts, |acts|);
    assert StepAt(books, acts, sweep);
    SweepSettles(books[sweep], books[sweep + 1], scopes);
    assert books[sweep + 1][id] == Swept(books[sweep][id], scopes);
    FateRun(books, acts, sweep + 1, |acts|, id);
    assert Inv(books[|acts|][id]) && Inv(books[sweep][id]);
    CellOutcome(books[sweep][id], books[|acts|][id], RejectedBetween(acts, sweep + 1, |acts|, id));
  }

  lemma CellOutcome(c: Cell, last: Cell, rejected: bool)
    requires Inv(c) && Inv(last) && Fate(Swept(c, c.scope), last, rejected) && last.tokens == []
    ensures last.terminal <==> !(ForeignFinish(c) && rejected)
  {
  }

  /**
   * `finish_remaining` on a declared run that reports success, while anything else goes on: it sweeps the steps at `i`, the
   * scopes at `j`. If nobody reserves afterwards and nothing is in flight at the end, `results` succeeds if and only if no
   * finish that somebody else had in flight at the sweep is rejected later.
   */
  lemma SuccessfulShutdown(books: seq<Book>, acts: seq<Act>, i: nat, j: nat)
    requires Run(books, acts) && Initial(books[0]) && i < j < |acts| && NonePlanned(books[i])
    requires acts[i] == ReserveAll(false) && ShutdownOk(books, acts, i + 1, false) && NoReservationFrom(books, acts, i + 1, false)
    requires acts[j] == ReserveAll(true) && ShutdownOk(books, acts, j + 1, true) && NoReservationFrom(books, acts, j + 1, true)
    requires forall id :: id in books[|acts|] ==> books[|acts|][id].tokens == []
    ensures ResultsReady(books[|acts|]) <==> !SomeLost(books, acts, i, false) && !SomeLost(books, acts, j, true)
  {
    NonePlannedRun(books, acts, i, j);
    RunKeepsInv(books, acts, i);
    RunKeepsInv(books, acts, j);
    RunKeepsInv(books, acts, |acts|);
    forall id | id in books[0]
      ensures books[|acts|][id].terminal <==> !LostLate(books, acts, if books[i][id].scope then j else i, id)
      ensures books[j][id].scope == books[i][id].scope
    {
      RemainingFalls(books, acts, i, j, id);
      IdentityOutcome(books, acts, if books[i][id].scope then j else i, id);
    }
  }

  /** Some identity of the given kind loses its result in this way. */
  ghost predicate SomeLost(books: seq<Book>, acts: seq<Act>, sweep: nat, scopes: bool)
    requires sweep < |books|
  {
    exists id :: LostLate(books, acts, sweep, id) && books[sweep][id].scope == scopes
  }

  // ----- one run in which a successful shutdown leaves a result missing

  /** A scope with one node is declared, started and completed; shutdown sweeps while that finish is in flight. */
  const LATE_ACTS: seq<Act> := [
    One(0, ListDeclare), One(0, AcceptDeclare), One(0, CommitDeclare), One(0, CheckStart), One(0, AcceptStart), One(0, CommitStart),
    One(0, ReserveCompletion), ReserveAll(false), ReserveAll(true), One(0, RejectFinish(0))]

  function LateCells(): seq<Cell> {
    var declared := Cell(true, 1, Declared, false, [], NotStarting, NotDeclaring, [DeclaredEvent]);
    var started := declared.(lifecycle := Started, log := [DeclaredEvent, StartedEvent]);
    var publishing := started.(lifecycle := PublishingFinish, remaining := 0, tokens := [Token(Completion, Started, false)]);
    [Fresh(true, 1), Fresh(true, 1).(declaring := DeclareListed),
     Fresh(true, 1).(declaring := DeclareAccepted, log := [DeclaredEvent]), declared,
     declared.(starting := StartChecked), declared.(starting := StartAccepted, log := [DeclaredEvent, StartedEvent]), started,
     publishing, publishing, publishing, started.(remaining := 0)]
  }

  function OneIdentity(c: Cell): Book { map[0 := c] }

  function LateBooks(): (r: seq<Book>)
    ensures |r| == |LateCells()|
  {
    seq(|LateCells()|, i requires 0 <= i < |LateCells()| => OneIdentity(LateCells()[i]))
  }

  lemma LateMove(c: Cell, m: Move, d: Cell)
    requires Enabled(c, m) && Apply(c, m) == d && Calm(c, m)
    ensures Step(OneIdentity(c), OneIdentity(d), One(0, m)) && CalmAct(OneIdentity(c), One(0, m))
  {
  }

  lemma LateSweep(c: Cell, scopes: bool)
    requires !Active(c)
    ensures Step(OneIdentity(c), OneIdentity(c), ReserveAll(scopes)) && CalmAct(OneIdentity(c), ReserveAll(scopes))
  {
  }

  lemma LateStep(i: nat)
    requires i < 10
    ensures StepAt(LateBooks(), LATE_ACTS, i)
  {
    var c := LateCells();
    if i == 7 || i == 8 {
      LateSweep(c[i], i == 8);
    } else {
      LateMove(c[i], LATE_ACTS[i].move, c[i + 1]);
    }
  }

  /** Shutdown swept everything and reports success, nothing is in flight, and yet the scope has no result. */
  lemma LateRejectionLosesResult()
    ensures var books, acts := LateBooks(), LATE_ACTS;
            && Run(books, acts) && Initial(books[0]) && NonePlanned(books[7])
            && acts[7] == ReserveAll(false) && acts[8] == ReserveAll(true)
            && ShutdownOk(books, acts, 8, false) && ShutdownOk(books, acts, 9, true)
            && (forall id :: id in books[10] ==> books[10][id].tokens == []) && !ResultsReady(books[10])
  {
    var books, acts := LateBooks(), LATE_ACTS;
    forall i | 0 <= i < |acts| ensures StepAt(books, acts, i) { LateStep(i); }
    assert 0 in books[10] && !books[10][0].terminal;
  }
}
