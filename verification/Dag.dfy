/** Kahn-style analysis of the task graph (octa-dag `dag.rs`). Node ids are unique. */
module Dag {
  import opened Orders
  import opened Paths

  /** A node id; only its identity matters. */
  datatype Id = Id(name: Text)

  datatype Graph = Graph(nodes: set<Id>, edges: map<Id, set<Id>>)

  function Succ(g: Graph, u: Id): set<Id> { if u in g.edges then g.edges[u] else {} }

  /** Edges connect nodes. An adjacency entry may be missing. */
  ghost predicate WellFormed(g: Graph) {
    g.edges.Keys <= g.nodes && forall u :: u in g.edges ==> g.edges[u] <= g.nodes
  }

  function Preds(g: Graph, v: Id): set<Id> { set u | u in g.nodes && v in Succ(g, u) }

  // ---------------------------------------------------------------- cycles and orders

  /** A sequence of nodes along edges. */
  ghost predicate IsWalk(g: Graph, p: seq<Id>) {
    && |p| > 0 && (forall i :: 0 <= i < |p| ==> p[i] in g.nodes)
    && (forall i :: 0 <= i < |p| - 1 ==> p[i + 1] in Succ(g, p[i]))
  }

  ghost predicate IsCycle(g: Graph, p: seq<Id>) { IsWalk(g, p) && |p| > 1 && p[0] == p[|p| - 1] }

  ghost predicate Cyclic(g: Graph) { exists p :: IsCycle(g, p) }

  /** An order in which every listed node comes after all its predecessors. */
  ghost predicate TopoPrefix(g: Graph, order: seq<Id>) {
    && Distinct(order) && (forall v :: v in order ==> v in g.nodes)
    && forall i :: 0 <= i < |order| ==> forall u :: u in Preds(g, order[i]) ==> u in order[..i]
  }

  ghost predicate TopoOrder(g: Graph, order: seq<Id>) {
    TopoPrefix(g, order) && forall v :: v in g.nodes ==> v in order
  }

  /** There is exactly one order in which the nodes can run. */
  ghost predicate Linear(g: Graph) {
    exists order :: TopoOrder(g, order) && OnlyOrder(g, order)
  }

  ghost predicate OnlyOrder(g: Graph, order: seq<Id>) {
    forall other :: TopoOrder(g, other) ==> other == order
  }

  lemma {:induction false} WalkMovesForward(g: Graph, order: seq<Id>, p: seq<Id>, i: nat)
    requires TopoOrder(g, order) && IsWalk(g, p) && i < |order| && order[i] == p[|p| - 1]
    ensures |p| > 1 ==> exists k :: 0 <= k < i && order[k] == p[0]
  {
    if |p| > 1 {
      var n := |p| - 2;
      assert p[n + 1] in Succ(g, p[n]);
      assert p[n] in Preds(g, order[i]);
      assert p[n] in order[..i];
      var k :| 0 <= k < i && order[..i][k] == p[n];
      assert order[k] == p[n];
      var q := p[..|p| - 1];
      assert IsWalk(g, q);
      WalkMovesForward(g, order, q, k);
    }
  }

  /** A complete order rules out cycles. */
  lemma OrderedIsAcyclic(g: Graph, order: seq<Id>)
    requires TopoOrder(g, order)
    ensures !Cyclic(g)
  {
    if p :| IsCycle(g, p) {
      var i :| 0 <= i < |order| && order[i] == p[|p| - 1];
      WalkMovesForward(g, order, p, i);
    }
  }

  lemma {:induction false} DistinctFits(p: seq<Id>, r: set<Id>)
    requires Distinct(p) && forall i :: 0 <= i < |p| ==> p[i] in r
    ensures |p| <= |r|
  {
    if |p| > 0 {
      DistinctFits(p[1..], r - {p[0]});
    }
  }

  /** Every node of `r` has a predecessor in `r`. */
  ghost predicate Stuck(g: Graph, r: set<Id>) {
    r <= g.nodes && forall v :: v in r ==> Preds(g, v) * r != {}
  }

  lemma {:induction false} BackwardWalk(g: Graph, r: set<Id>, n: nat) returns (p: seq<Id>)
    requires Stuck(g, r) && r != {}
    ensures IsWalk(g, p) && |p| == n + 1 && forall i :: 0 <= i < |p| ==> p[i] in r
  {
    if n == 0 {
      var v :| v in r;
      p := [v];
    } else {
      var q := BackwardWalk(g, r, n - 1);
      var u :| u in Preds(g, q[0]) && u in r;
      p := [u] + q;
    }
  }

  /** A walk longer than the nodes it stays in closes a cycle. */
  lemma StuckIsCyclic(g: Graph, r: set<Id>)
    requires Stuck(g, r) && r != {}
    ensures Cyclic(g)
  {
    var p := BackwardWalk(g, r, |r|);
    if Distinct(p) { DistinctFits(p, r); }
    var i, k :| 0 <= i < k < |p| && p[i] == p[k];
    var c := p[i..k + 1];
    forall m | 0 <= m < |c| - 1 ensures c[m + 1] in Succ(g, c[m]) {
      assert p[i + m + 1] in Succ(g, p[i + m]);
    }
    assert IsCycle(g, c);
  }

  /** The nodes not listed yet whose predecessors all are. */
  function ReadyNodes(g: Graph, order: seq<Id>): set<Id> {
    set v | v in g.nodes && v !in order && forall u :: u in Preds(g, v) ==> u in order
  }

  function Rest(g: Graph, order: seq<Id>): set<Id> { set v | v in g.nodes && v !in order }

  /** Nothing ready and something left: a cycle. */
  lemma NothingReady(g: Graph, order: seq<Id>)
    requires ReadyNodes(g, order) == {} && Rest(g, order) != {}
    ensures Cyclic(g)
  {
    var r := Rest(g, order);
    forall v | v in r ensures Preds(g, v) * r != {} {
      assert v !in ReadyNodes(g, order);
      var u :| u in Preds(g, v) && u !in order;
      assert u in Preds(g, v) * r;
    }
    StuckIsCyclic(g, r);
  }

  lemma ExtendByReady(g: Graph, order: seq<Id>, v: Id)
    requires TopoPrefix(g, order) && v in ReadyNodes(g, order)
    ensures TopoPrefix(g, order + [v])
  {
    var next := order + [v];
    forall i, u | 0 <= i < |next| && u in Preds(g, next[i]) ensures u in next[..i] {
      if i < |order| {
        assert u in order[..i] && order[..i] == next[..i];
      } else {
        assert next[..i] == order;
      }
    }
  }

  /** In an acyclic graph every partial order can be completed. */
  lemma {:induction false} Complete(g: Graph, order: seq<Id>) returns (full: seq<Id>)
    requires TopoPrefix(g, order) && !Cyclic(g)
    ensures TopoOrder(g, full) && order <= full
    decreases Rest(g, order)
  {
    if Rest(g, order) == {} {
      full := order;
      forall v | v in g.nodes ensures v in order { assert v !in Rest(g, order); }
    } else {
      if ReadyNodes(g, order) == {} { NothingReady(g, order); }
      var v :| v in ReadyNodes(g, order);
      ExtendByReady(g, order, v);
      assert v in Rest(g, order) && v !in Rest(g, order + [v]);
      full := Complete(g, order + [v]);
    }
  }

  /** Two choices at some point mean two different orders. */
  lemma TwoReadyIsNotLinear(g: Graph, order: seq<Id>, a: Id, b: Id)
    requires TopoPrefix(g, order) && a in ReadyNodes(g, order) && b in ReadyNodes(g, order) && a != b
    ensures Cyclic(g) || !Linear(g)
  {
    if !Cyclic(g) {
      ExtendByReady(g, order, a);
      ExtendByReady(g, order, b);
      var x := Complete(g, order + [a]);
      var y := Complete(g, order + [b]);
      assert x[|order|] == (order + [a])[|order|] == a;
      assert y[|order|] == (order + [b])[|order|] == b;
    }
  }

  /** Every complete order starts with `order`. */
  ghost predicate Forced(g: Graph, order: seq<Id>) {
    forall other :: TopoOrder(g, other) ==> order <= other
  }

  lemma DistinctTail(order: seq<Id>, other: seq<Id>)
    requires Distinct(other) && order <= other && other != order
    ensures |order| < |other| && other[|order|] !in order
  {
  }

  lemma OnlyReadyIsForced(g: Graph, order: seq<Id>, v: Id)
    requires TopoPrefix(g, order) && Forced(g, order) && ReadyNodes(g, order) == {v}
    ensures Forced(g, order + [v])
  {
    assert v in ReadyNodes(g, order);
    forall other | TopoOrder(g, other) ensures order + [v] <= other {
      assert v in other;
      DistinctTail(order, other);
      assert order == other[..|order|];
      assert other[|order|] in ReadyNodes(g, order);
    }
  }

  lemma ForcedCompleteIsLinear(g: Graph, order: seq<Id>)
    requires TopoOrder(g, order) && Forced(g, order)
    ensures OnlyOrder(g, order) && Linear(g)
  {
    forall other | TopoOrder(g, other) ensures other == order {
      OneOrder(g, order, other);
    }
    assert OnlyOrder(g, order);
  }

  lemma OneOrder(g: Graph, order: seq<Id>, other: seq<Id>)
    requires TopoOrder(g, order) && TopoOrder(g, other) && order <= other
    ensures other == order
  {
    if other != order { ExtraNode(g, order, other); }
  }

  lemma ExtraNode(g: Graph, order: seq<Id>, other: seq<Id>)
    requires Distinct(other) && order <= other && other != order && (forall v :: v in other ==> v in g.nodes)
    ensures exists v :: v in g.nodes && v !in order
  {
    DistinctTail(order, other);
    assert other[|order|] in other;
  }

  // ---------------------------------------------------------------- counters

  /** Predecessors of `v` not yet in `done`. */
  function Waiting(g: Graph, v: Id, done: set<Id>): set<Id> { Preds(g, v) - done }

  /** For every node, how many predecessors it still waits for. */
  function Counts(g: Graph, done: set<Id>): map<Id, nat> { map v | v in g.nodes :: |Waiting(g, v, done)| }

  /** `more` counts one more than `less` for exactly the nodes in `targets`. */
  ghost predicate OneMore(more: map<Id, nat>, less: map<Id, nat>, targets: set<Id>) {
    && more.Keys == less.Keys && targets <= less.Keys
    && forall v :: v in less ==> more[v] == less[v] + (if v in targets then 1 else 0)
  }

  lemma OneLess(g: Graph, v: Id, done: set<Id>, u: Id)
    requires u in g.nodes && u !in done
    ensures |Waiting(g, v, done)| == |Waiting(g, v, done + {u})| + (if v in Succ(g, u) then 1 else 0)
  {
    var rest := Waiting(g, v, done + {u});
    if v in Succ(g, u) {
      assert Waiting(g, v, done) == rest + {u} && u !in rest;
    } else {
      assert Waiting(g, v, done) == rest;
    }
  }

  /** Finishing `u` lowers the count of each of its successors by one. */
  lemma FinishingOne(g: Graph, done: set<Id>, u: Id)
    requires WellFormed(g) && u in g.nodes && u !in done
    ensures OneMore(Counts(g, done), Counts(g, done + {u}), Succ(g, u))
  {
    forall v | v in g.nodes ensures Counts(g, done)[v] == Counts(g, done + {u})[v] + (if v in Succ(g, u) then 1 else 0) {
      OneLess(g, v, done, u);
    }
  }

  lemma NothingCounted(g: Graph)
    requires WellFormed(g)
    ensures Counts(g, g.edges.Keys) == map v | v in g.nodes :: 0
  {
  }

  /** The inner loop of `calculate_in_degrees`: one increment per target. */
  method CountUp(before: map<Id, nat>, targets: set<Id>, ghost goal: map<Id, nat>) returns (degrees: map<Id, nat>)
    requires OneMore(goal, before, targets)
    ensures degrees == goal
  {
    degrees := before;
    var left := targets;
    while left != {}
      invariant left <= targets && OneMore(goal, degrees, left)
    {
      var v :| v in left;
      degrees := degrees[v := degrees[v] + 1];
      left := left - {v};
    }
  }

  /** Discounts edges to `targets`: no counter underflows, and one that reaches zero frees its node. */
  method CountDown(before: map<Id, nat>, targets: set<Id>, ghost goal: map<Id, nat>) returns (r: Option<map<Id, nat>>,
      freed: seq<Id>)
    requires OneMore(before, goal, targets)
    ensures r == Some(goal)
    ensures Distinct(freed) && forall v :: v in freed <==> v in targets && goal[v] == 0
  {
    var degrees := before;
    freed := [];
    var left := targets;
    while left != {}
      invariant left <= targets && OneMore(degrees, goal, left)
      invariant Distinct(freed) && forall v :: v in freed <==> v in targets && v !in left && goal[v] == 0
    {
      var v :| v in left;
      if v !in degrees {
        r := None;
        return;
      }
      degrees := degrees[v := degrees[v] - 1];
      left := left - {v};
      if degrees[v] == 0 {
        freed := freed + [v];
      }
    }
    assert degrees == goal;
    r := Some(degrees);
  }

  class DAG {
    var nodes: set<Id>
    var edges: map<Id, set<Id>>

    function G(): Graph
      reads this
    {
      Graph(nodes, edges)
    }

    constructor ()
      ensures nodes == {} && edges == map[] && WellFormed(G())
    {
      nodes, edges := {}, map[];
    }

    /** `add_node` keeps an existing adjacency entry. */
    method AddNode(node: Id)
      requires WellFormed(G())
      modifies this
      ensures WellFormed(G()) && nodes == old(nodes) + {node}
      ensures forall u :: Succ(G(), u) == old(Succ(G(), u))
    {
      nodes := nodes + {node};
      if node !in edges {
        edges := edges[node := {}];
      }
    }

    /** `add_dependency` rejects unknown end points and otherwise adds exactly one edge. */
    method AddDependency(from: Id, to: Id) returns (ok: bool)
      requires WellFormed(G())
      modifies this
      ensures WellFormed(G()) && nodes == old(nodes)
      ensures ok <==> from in nodes && to in nodes
      ensures !ok ==> edges == old(edges)
      ensures ok ==> forall u :: Succ(G(), u) == old(Succ(G(), u)) + (if u == from then {to} else {})
    {
      if from !in nodes || to !in nodes {
        return false;
      }
      edges := edges[from := Succ(G(), from) + {to}];
      return true;
    }

    /** `calculate_in_degrees`: one increment per edge. */
    method CalculateInDegrees() returns (degrees: map<Id, nat>)
      requires WellFormed(G())
      ensures degrees == Counts(G(), {})
    {
      var g := G();
      degrees := map v | v in nodes :: 0;
      var keys := edges.Keys;
      NothingCounted(g);
      while keys != {}
        invariant keys <= g.edges.Keys && degrees == Counts(g, keys)
      {
        var u :| u in keys;
        var rest := keys - {u};
        FinishingOne(g, rest, u);
        assert rest + {u} == keys;
        degrees := CountUp(degrees, edges[u], Counts(g, rest));
        keys := rest;
      }
    }
  }

  // ---------------------------------------------------------------- the scheduling loop

  function Set(s: seq<Id>): set<Id> { set x | x in s }

  /** The loop state after the nodes in `order` were taken. */
  ghost predicate Progress(g: Graph, order: seq<Id>, ready: seq<Id>, degrees: map<Id, nat>) {
    && TopoPrefix(g, order) && degrees == Counts(g, Set(order))
    && Distinct(ready) && forall v :: v in ready <==> v in ReadyNodes(g, order)
  }

  /** A node is ready exactly when its counter is zero. */
  lemma ZeroIsReady(g: Graph, order: seq<Id>, v: Id)
    requires v in g.nodes
    ensures Counts(g, Set(order))[v] == 0 <==> forall u :: u in Preds(g, v) ==> u in order
  {
    var w := Waiting(g, v, Set(order));
    if w == {} {
      forall u | u in Preds(g, v) ensures u in order { assert u !in w; }
    } else {
      var u :| u in w;
    }
  }

  lemma ReadyAfter(g: Graph, order: seq<Id>, v: Id, x: Id)
    requires WellFormed(g) && TopoPrefix(g, order) && v in ReadyNodes(g, order)
    ensures x in ReadyNodes(g, order + [v]) <==>
            (x in ReadyNodes(g, order) && x != v) || (x in Succ(g, v) && x in g.nodes && forall u :: u in Preds(g, x) ==> u in order + [v])
    ensures x in Succ(g, v) ==> x !in ReadyNodes(g, order)
  {
    if x in Succ(g, v) {
      assert v in Preds(g, x);
    }
  }

  /** One turn of the loop, whatever node is taken. */
  lemma TurnKeepsProgress(g: Graph, order: seq<Id>, ready: seq<Id>, freed: seq<Id>)
    requires WellFormed(g) && ready != [] && Progress(g, order, ready, Counts(g, Set(order)))
    requires Distinct(freed)
    requires forall x :: x in freed <==> x in Succ(g, ready[|ready| - 1]) && Counts(g, Set(order) + {ready[|ready| - 1]})[x] == 0
    ensures var v := ready[|ready| - 1];
            Progress(g, order + [v], ready[..|ready| - 1] + freed, Counts(g, Set(order) + {v}))
  {
    var n := |ready| - 1;
    var v := ready[n];
    assert v in ready;
    ExtendByReady(g, order, v);
    assert Set(order + [v]) == Set(order) + {v};
    var next := ready[..n] + freed;
    forall x ensures x in next <==> x in ReadyNodes(g, order + [v]) {
      NextIsReady(g, order, ready, freed, x);
    }
    NextIsDistinct(g, order, ready, freed);
  }

  lemma NextIsDistinct(g: Graph, order: seq<Id>, ready: seq<Id>, freed: seq<Id>)
    requires WellFormed(g) && ready != [] && TopoPrefix(g, order) && Distinct(ready) && Distinct(freed)
    requires forall v :: v in ready <==> v in ReadyNodes(g, order)
    requires forall x :: x in freed ==> x in Succ(g, ready[|ready| - 1])
    ensures Distinct(ready[..|ready| - 1] + freed)
  {
    var v := ready[|ready| - 1];
    assert v in ready;
    forall x | x in freed ensures x !in ready[..|ready| - 1] { ReadyAfter(g, order, v, x); }
    DistinctApart(ready[..|ready| - 1], freed);
  }

  lemma NextIsReady(g: Graph, order: seq<Id>, ready: seq<Id>, freed: seq<Id>, x: Id)
    requires WellFormed(g) && ready != [] && TopoPrefix(g, order) && Distinct(ready)
    requires forall v :: v in ready <==> v in ReadyNodes(g, order)
    requires x in freed <==> x in Succ(g, ready[|ready| - 1]) && Counts(g, Set(order) + {ready[|ready| - 1]})[x] == 0
    ensures x in ready[..|ready| - 1] + freed <==> x in ReadyNodes(g, order + [ready[|ready| - 1]])
  {
    var n := |ready| - 1;
    var v := ready[n];
    assert v in ready;
    assert ready == ready[..n] + [v];
    assert Set(order + [v]) == Set(order) + {v};
    ReadyAfter(g, order, v, x);
    if x in g.nodes { ZeroIsReady(g, order + [v], x); }
    assert x in ready[..n] <==> x in ready && x != v;
  }

  lemma DistinctApart(a: seq<Id>, b: seq<Id>)
    requires Distinct(a) && Distinct(b) && forall x :: x in b ==> x !in a
    ensures Distinct(a + b)
  {
    var c := a + b;
    forall i, k | 0 <= i < k < |c| ensures c[i] != c[k] {
      if i < |a| <= k { assert c[k] in b && c[i] in a; }
    }
  }

  lemma StartProgress(g: Graph, ready: seq<Id>)
    requires Distinct(ready) && forall v :: v in ready <==> v in g.nodes && Counts(g, {})[v] == 0
    ensures Progress(g, [], ready, Counts(g, {}))
  {
    assert Set([]) == {};
    forall v | v in g.nodes ensures v in ReadyNodes(g, []) <==> Counts(g, {})[v] == 0 {
      ZeroIsReady(g, [], v);
    }
  }

  /** The nodes outside `rest` whose counter is zero. */
  ghost predicate ReadyOutside(g: Graph, degrees: map<Id, nat>, rest: set<Id>, ready: seq<Id>) {
    && g.nodes <= degrees.Keys && Distinct(ready)
    && forall v :: v in ready <==> v in g.nodes && v !in rest && degrees[v] == 0
  }

  /** Nodes whose counter is zero, in some order. */
  method InitiallyReady(g: Graph, degrees: map<Id, nat>) returns (ready: seq<Id>)
    requires degrees == Counts(g, {})
    ensures Progress(g, [], ready, degrees)
  {
    ready := [];
    var rest := g.nodes;
    while rest != {}
      invariant rest <= g.nodes
      invariant ReadyOutside(g, degrees, rest, ready)
    {
      var v :| v in rest;
      ReadyOneMore(g, degrees, rest, ready, v);
      if degrees[v] == 0 {
        ready := ready + [v];
      }
      rest := rest - {v};
    }
    StartProgress(g, ready);
  }

  lemma ReadyOneMore(g: Graph, degrees: map<Id, nat>, rest: set<Id>, ready: seq<Id>, v: Id)
    requires ReadyOutside(g, degrees, rest, ready) && rest <= g.nodes && v in rest
    ensures ReadyOutside(g, degrees, rest - {v}, if degrees[v] == 0 then ready + [v] else ready)
  {
    DistinctApart(ready, [v]);
  }

  /** Takes the last ready node and discounts its edges. */
  method Take(g: Graph, ready: seq<Id>, degrees: map<Id, nat>, ghost order: seq<Id>)
    returns (r: Option<map<Id, nat>>, next: seq<Id>)
    requires WellFormed(g) && ready != [] && Progress(g, order, ready, degrees)
    ensures r.Some? && Progress(g, order + [ready[|ready| - 1]], next, r.value)
  {
    var v := ready[|ready| - 1];
    var freed;
    assert v in ready;
    FinishingOne(g, Set(order), v);
    r, freed := CountDown(degrees, Succ(g, v), Counts(g, Set(order) + {v}));
    TurnKeepsProgress(g, order, ready, freed);
    next := ready[..|ready| - 1] + freed;
  }

  lemma {:induction false} DistinctSize(s: seq<Id>)
    requires Distinct(s)
    ensures |Set(s)| == |s|
  {
    if s != [] {
      DistinctSize(s[1..]);
      assert Set(s) == Set(s[1..]) + {s[0]};
    }
  }

  /** When nothing is ready, the count of taken nodes tells whether the graph is cyclic. */
  lemma Drained(g: Graph, order: seq<Id>)
    requires TopoPrefix(g, order) && ReadyNodes(g, order) == {}
    ensures |order| != |g.nodes| <==> Cyclic(g)
    ensures |order| == |g.nodes| <==> TopoOrder(g, order)
  {
    DistinctSize(order);
    assert Set(order) <= g.nodes;
    if Rest(g, order) == {} {
      forall v | v in g.nodes ensures v in order { assert v !in Rest(g, order); }
      assert Set(order) == g.nodes;
      OrderedIsAcyclic(g, order);
    } else {
      NothingReady(g, order);
      var v :| v in Rest(g, order);
      assert Set(order) <= g.nodes - {v};
      Smaller(Set(order), g.nodes, v);
    }
  }

  lemma Smaller(a: set<Id>, b: set<Id>, v: Id)
    requires a <= b - {v} && v in b
    ensures |a| < |b|
  {
    assert b == a + (b - a) && v in b - a;
  }

  /** `has_cycle`: `calculate_in_degrees` and `perform_topological_sort`. */
  method HasCycle(dag: DAG) returns (r: Option<bool>)
    requires WellFormed(dag.G())
    ensures r == Some(Cyclic(dag.G()))
  {
    var g := dag.G();
    var degrees := dag.CalculateInDegrees();
    var queue := InitiallyReady(g, degrees);
    var visited := 0;
    ghost var order: seq<Id> := [];
    while queue != []
      invariant Progress(g, order, queue, degrees) && visited == |order|
      decreases Rest(g, order)
    {
      ghost var v := queue[|queue| - 1];
      assert v in queue && v in Rest(g, order) && v !in Rest(g, order + [v]);
      var counts, next := Take(g, queue, degrees, order);
      if counts.None? {
        return None;
      }
      degrees, queue := counts.value, next;
      order := order + [v];
      visited := visited + 1;
    }
    assert ReadyNodes(g, order) == {};
    Drained(g, order);
    return Some(visited != |g.nodes|);
  }

  /** `is_linear`: gives up as soon as two nodes are ready together. */
  method IsLinear(dag: DAG) returns (r: Option<bool>)
    requires WellFormed(dag.G())
    ensures r == Some(!Cyclic(dag.G()) && Linear(dag.G()))
  {
    var g := dag.G();
    var degrees := dag.CalculateInDegrees();
    var ready := InitiallyReady(g, degrees);
    var visited := 0;
    ghost var order: seq<Id> := [];
    while ready != []
      invariant Progress(g, order, ready, degrees) && visited == |order| && Forced(g, order)
      decreases Rest(g, order)
    {
      if |ready| > 1 {
        assert ready[0] in ready && ready[1] in ready;
        TwoReadyIsNotLinear(g, order, ready[0], ready[1]);
        return Some(false);
      }
      ghost var v := ready[0];
      assert v in ready && v in Rest(g, order) && v !in Rest(g, order + [v]);
      assert ReadyNodes(g, order) == {v};
      OnlyReadyIsForced(g, order, v);
      var counts, next := Take(g, ready, degrees, order);
      if counts.None? {
        return None;
      }
      degrees, ready := counts.value, next;
      order := order + [v];
      visited := visited + 1;
    }
    assert ReadyNodes(g, order) == {};
    Drained(g, order);
    if visited == |g.nodes| {
      ForcedCompleteIsLinear(g, order);
    }
    return Some(visited == |g.nodes|);
  }
}
