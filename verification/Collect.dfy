/** `collect_pattern_sets` and `validate_contract_sets`: the results discovery promises. */
module Collect {
  import opened Orders
  import opened Paths
  import opened Patterns
  import opened Ignores
  import opened Fileset
  import opened Walk

  // ---------------------------------------------------------------- what is visited

  /** An include's scan root with no other include's scan root above it. */
  ghost predicate MinimalRoot(patterns: seq<InputPattern>, m: Path) {
    IsIncludeRoot(patterns, m) && forall r :: IsIncludeRoot(patterns, r) && r <= m ==> r == m
  }

  /** Visited by the walk from the minimal root above it. */
  ghost predicate Visited(w: World, p: Path) {
    exists n :: 0 <= n <= |p| && MinimalRoot(w.patterns, p[..n]) && Reached(w, p[..n], p)
  }

  ghost function VisitedSet(w: World): set<Path> {
    set p | p in w.tree.Keys + (set i | 0 <= i < |w.patterns| :: w.patterns[i].scanRoot) && Visited(w, p)
  }

  lemma MinimalExactly(patterns: seq<InputPattern>, minimal: seq<Path>, m: Path)
    requires RootsFor(patterns, minimal)
    ensures m in minimal <==> MinimalRoot(patterns, m)
  {
    if m in minimal {
      var a :| 0 <= a < |minimal| && minimal[a] == m;
      forall r | IsIncludeRoot(patterns, r) && r <= m ensures r == m {
        var b :| 0 <= b < |minimal| && minimal[b] <= r;
        assert minimal[b] == m[..|minimal[b]|];
        assert a == b;
      }
    }
    if MinimalRoot(patterns, m) {
      var b :| 0 <= b < |minimal| && minimal[b] <= m;
      assert minimal[b] in minimal;
    }
  }

  lemma VisitedFrom(w: World, minimal: seq<Path>, p: Path)
    requires RootsFor(w.patterns, minimal)
    ensures p in VisitedSet(w) <==> exists k :: 0 <= k < |minimal| && Reached(w, minimal[k], p)
  {
    if k :| 0 <= k < |minimal| && Reached(w, minimal[k], p) {
      assert p[..|minimal[k]|] == minimal[k];
      assert minimal[k] in minimal;
      MinimalExactly(w.patterns, minimal, minimal[k]);
      assert Visited(w, p);
    }
    if n :| 0 <= n <= |p| && MinimalRoot(w.patterns, p[..n]) && Reached(w, p[..n], p) {
      MinimalExactly(w.patterns, minimal, p[..n]);
      var k :| 0 <= k < |minimal| && minimal[k] == p[..n];
    }
  }

  // ---------------------------------------------------------------- the result

  /** The set a successful discovery returns. */
  ghost predicate Discovered(tree: Tree, rules: Rules, sets: seq<seq<InputPattern>>, p: Path) {
    IsInput(tree, rules, sets, p) && !RootPruned(rules, Flatten(sets))
  }

  lemma RootIsExpanded(w: World, p: Path)
    requires Reached(w, [], p) && p != []
    ensures !Ignored(w.rules, [], true)
  {
    assert p[..0] == [];
    assert Expanded(w, p[..0]);
  }

  /** Inputs are exactly the visited paths that the simple rule accepts, unless the root is pruned. */
  lemma VisitedInputs(w: World, minimal: seq<Path>, p: Path)
    requires WellWorld(w) && RootsFor(w.patterns, minimal)
    ensures p in VisitedSet(w) && IsInput(w.tree, w.rules, w.sets, p) <==> Discovered(w.tree, w.rules, w.sets, p)
  {
    VisitedFrom(w, minimal, p);
    if Discovered(w.tree, w.rules, w.sets, p) {
      InputIsReached(w, minimal, p);
    } else if p in VisitedSet(w) && IsInput(w.tree, w.rules, w.sets, p) {
      var k :| 0 <= k < |minimal| && Reached(w, minimal[k], p);
      assert minimal[k] in minimal;
      var b :| 0 <= b < |minimal| && minimal[b] <= [];
      assert minimal[b] == [] && minimal[b] <= minimal[k];
      assert k == b;
      if p != [] { RootIsExpanded(w, p); }
    }
  }

  ghost predicate Blocked(w: World, p: Path) { Visited(w, p) && Blocks(w, p) }

  /** The pattern sets end to end, with the range of each. */
  method Concatenate(sets: seq<seq<InputPattern>>) returns (patterns: seq<InputPattern>, groups: seq<(nat, nat)>)
    ensures patterns == Flatten(sets)
    ensures forall tree, rules :: GroupsFor(World(tree, rules, sets, patterns), groups)
  {
    patterns, groups := [], [];
    for i := 0 to |sets|
      invariant patterns == Flatten(sets[..i]) && RangesUpTo(sets, i, patterns, groups)
    {
      assert sets[..i + 1][..i] == sets[..i];
      OneMoreRange(sets, i, patterns, groups);
      groups := groups + [(|patterns|, |patterns| + |sets[i]|)];
      patterns := patterns + sets[i];
    }
    assert sets[..|sets|] == sets;
  }

  /** Each of the first `n` sets is found in its range. */
  ghost predicate RangesUpTo(sets: seq<seq<InputPattern>>, n: nat, patterns: seq<InputPattern>, groups: seq<(nat, nat)>)
    requires n <= |sets|
  {
    && |groups| == n
    && forall g :: 0 <= g < n ==> groups[g].0 <= groups[g].1 <= |patterns| && patterns[groups[g].0..groups[g].1] == sets[g]
  }

  lemma OneMoreRange(sets: seq<seq<InputPattern>>, n: nat, patterns: seq<InputPattern>, groups: seq<(nat, nat)>)
    requires n < |sets| && RangesUpTo(sets, n, patterns, groups)
    ensures RangesUpTo(sets, n + 1, patterns + sets[n], groups + [(|patterns|, |patterns| + |sets[n]|)])
  {
    var more := patterns + sets[n];
    assert more[|patterns|..|patterns| + |sets[n]|] == sets[n];
    assert forall g :: 0 <= g < n ==> more[groups[g].0..groups[g].1] == patterns[groups[g].0..groups[g].1];
  }

  /** `collect_pattern_sets`. */
  method CollectPatternSets(tree: Tree, rules: Rules, sets: seq<seq<InputPattern>>, maxEntries: nat)
    returns (r: Status, paths: map<Path, Kind>)
    requires WellFormed(tree) && AllWellParsed(Flatten(sets))
    ensures r == Configuration <==> maxEntries == 0 || |Flatten(sets)| > MAX_CACHE_LIST_ITEMS
    ensures r == Ok ==> |VisitedSet(World(tree, rules, sets, Flatten(sets)))| <= maxEntries
    ensures r == Limit ==> |VisitedSet(World(tree, rules, sets, Flatten(sets)))| > maxEntries
    ensures r == NotPortable ==> exists p :: Blocked(World(tree, rules, sets, Flatten(sets)), p)
    ensures r == Ok ==> forall p :: !Blocked(World(tree, rules, sets, Flatten(sets)), p)
    ensures r == Ok ==> forall p :: p in paths <==> Discovered(tree, rules, sets, p)
    ensures r == Ok ==> forall p :: p in paths ==> p in tree && paths[p] == tree[p]
  {
    paths := map[];
    if maxEntries == 0 {
      return Configuration, paths;
    }
    var patterns, groups := Concatenate(sets);
    if |patterns| > MAX_CACHE_LIST_ITEMS {
      return Configuration, paths;
    }
    var w := World(tree, rules, sets, patterns);
    var minimal := MinimalScanRoots(patterns);
    assert RootsFor(patterns, minimal);
    var walker := new Walker(w, groups, maxEntries);
    for i := 0 to |minimal|
      invariant walker.Valid() && walker.Collected() && walker.w == w && walker.maxEntries == maxEntries
      invariant fresh(walker) && fresh(walker.filter)
      invariant SeenFrom(w, minimal, i, walker.seen)
    {
      var inherited := AncestorMatches(patterns, minimal[i]);
      RootsKeepApart(w, minimal, i, walker.seen);
      ghost var before := walker.seen;
      r := walker.Walk(minimal[i], inherited);
      SeenGrows(w, minimal, i, before);
      if r != Ok {
        if r == Limit {
          SubsetSize(before + ReachedSet(w, minimal[i]), VisitedSet(w));
        } else {
          ghost var p :| BlocksDiscovery(w, minimal[i], p);
          VisitedFrom(w, minimal, p);
          assert Blocked(w, p);
        }
        return;
      }
    }
    SeenIsVisited(w, minimal, walker.seen);
    assert forall p :: Blocked(w, p) ==> p in VisitedSet(w);
    forall p ensures p in walker.paths <==> Discovered(tree, rules, sets, p) {
      VisitedInputs(w, minimal, p);
    }
    return Ok, walker.paths;
  }

  ghost predicate SeenFrom(w: World, minimal: seq<Path>, n: nat, seen: set<Path>)
    requires n <= |minimal|
  {
    forall p :: p in seen <==> exists k :: 0 <= k < n && Reached(w, minimal[k], p)
  }

  lemma RootsKeepApart(w: World, minimal: seq<Path>, n: nat, seen: set<Path>)
    requires Incomparable(minimal) && n < |minimal| && SeenFrom(w, minimal, n, seen)
    ensures forall v :: v in seen ==> !(minimal[n] <= v)
  {
  }

  lemma PrefixesCompare(a: Path, b: Path, v: Path)
    requires a <= v && b <= v
    ensures a <= b || b <= a
  {
  }

  lemma PrefixTransitive(a: Path, b: Path, c: Path)
    requires a <= b
    ensures b <= c ==> a <= c
  {
  }

  lemma SeenGrows(w: World, minimal: seq<Path>, n: nat, seen: set<Path>)
    requires RootsFor(w.patterns, minimal) && n < |minimal| && SeenFrom(w, minimal, n, seen)
    ensures SeenFrom(w, minimal, n + 1, seen + ReachedSet(w, minimal[n]))
    ensures seen + ReachedSet(w, minimal[n]) <= VisitedSet(w)
  {
    var next := seen + ReachedSet(w, minimal[n]);
    forall p ensures p in next <==> exists k :: 0 <= k < n + 1 && Reached(w, minimal[k], p) {
      if Reached(w, minimal[n], p) { ReachedIsListed(w, minimal[n], p); }
    }
    forall p | p in next ensures p in VisitedSet(w) {
      VisitedFrom(w, minimal, p);
    }
  }

  lemma SeenIsVisited(w: World, minimal: seq<Path>, seen: set<Path>)
    requires RootsFor(w.patterns, minimal) && SeenFrom(w, minimal, |minimal|, seen)
    ensures seen == VisitedSet(w)
  {
    forall p ensures p in seen <==> p in VisitedSet(w) {
      VisitedFrom(w, minimal, p);
    }
  }

  // ---------------------------------------------------------------- consequences

  ghost predicate DiscoveredAlone(tree: Tree, rules: Rules, sets: seq<seq<InputPattern>>, p: Path) {
    exists g :: 0 <= g < |sets| && Discovered(tree, rules, [sets[g]], p)
  }

  lemma SingleSet(set_: seq<InputPattern>)
    ensures Flatten([set_]) == set_
  {
  }

  lemma {:induction false} FlattenFrom(sets: seq<seq<InputPattern>>, x: InputPattern)
    ensures x in Flatten(sets) <==> exists g :: 0 <= g < |sets| && x in sets[g]
  {
    if sets != [] {
      var n := |sets| - 1;
      FlattenFrom(sets[..n], x);
      if x in sets[n] { assert sets[n] == sets[n]; }
      if g :| 0 <= g < n && x in sets[..n][g] { assert sets[g] == sets[..n][g]; }
      if g :| 0 <= g < |sets| && x in sets[g] { assert g < n ==> sets[..n][g] == sets[g]; }
    }
  }

  lemma IncludeRootOfSet(sets: seq<seq<InputPattern>>, root: Path)
    ensures IsIncludeRoot(Flatten(sets), root) <==> exists g :: 0 <= g < |sets| && IsIncludeRoot(sets[g], root)
  {
    var flat := Flatten(sets);
    if i :| 0 <= i < |flat| && !flat[i].excluded && flat[i].scanRoot == root {
      FlattenFrom(sets, flat[i]);
      var g :| 0 <= g < |sets| && flat[i] in sets[g];
      var k :| 0 <= k < |sets[g]| && sets[g][k] == flat[i];
      assert IsIncludeRoot(sets[g], root);
    }
    if g :| 0 <= g < |sets| && IsIncludeRoot(sets[g], root) {
      var k :| 0 <= k < |sets[g]| && !sets[g][k].excluded && sets[g][k].scanRoot == root;
      FlattenHas(sets, g, k);
      var i :| 0 <= i < |flat| && flat[i] == sets[g][k];
    }
  }

  /** A set none of whose includes starts at the workspace root selects something that exists and is not ignored. */
  ghost predicate ElsewhereSelects(tree: Tree, rules: Rules, patterns: seq<InputPattern>) {
    && !IsIncludeRoot(patterns, [])
    && exists p :: p in tree && !Ignored(rules, p, IsDir(tree, p)) && SetSelects(patterns, p, IsDir(tree, p))
  }

  /** Producer independence: the shared walk returns the union of the separate walks if and only if its root is not pruned, or
      no set that starts elsewhere selects anything. */
  lemma ProducersAreIndependent(tree: Tree, rules: Rules, sets: seq<seq<InputPattern>>)
    ensures (forall p :: Discovered(tree, rules, sets, p) <==> DiscoveredAlone(tree, rules, sets, p))
            <==> (RootPruned(rules, Flatten(sets)) ==> forall g :: 0 <= g < |sets| ==> !ElsewhereSelects(tree, rules, sets[g]))
  {
    if RootPruned(rules, Flatten(sets)) {
      PrunedUnion(tree, rules, sets);
    } else {
      forall p ensures Discovered(tree, rules, sets, p) <==> DiscoveredAlone(tree, rules, sets, p) {
        AloneWithoutPruning(tree, rules, sets, p);
      }
    }
  }

  lemma PrunedUnion(tree: Tree, rules: Rules, sets: seq<seq<InputPattern>>)
    requires Ignored(rules, [], true)
    ensures (forall p :: !DiscoveredAlone(tree, rules, sets, p)) <==> forall g :: 0 <= g < |sets| ==> !ElsewhereSelects(tree, rules, sets[g])
  {
    if g :| 0 <= g < |sets| && ElsewhereSelects(tree, rules, sets[g]) {
      var p := PrunedSet(tree, rules, sets[g]);
      assert DiscoveredAlone(tree, rules, sets, p);
    }
    if p :| DiscoveredAlone(tree, rules, sets, p) {
      var g :| 0 <= g < |sets| && Discovered(tree, rules, [sets[g]], p);
      AloneUnderPruning(tree, rules, sets[g], p);
      assert ElsewhereSelects(tree, rules, sets[g]);
    }
  }

  lemma PrunedSet(tree: Tree, rules: Rules, patterns: seq<InputPattern>) returns (p: Path)
    requires Ignored(rules, [], true) && ElsewhereSelects(tree, rules, patterns)
    ensures Discovered(tree, rules, [patterns], p)
  {
    p :| p in tree && !Ignored(rules, p, IsDir(tree, p)) && SetSelects(patterns, p, IsDir(tree, p));
    AloneUnderPruning(tree, rules, patterns, p);
  }

  /** A set walked alone finds what it selects unless it starts at a root that rejects itself. */
  lemma AloneUnderPruning(tree: Tree, rules: Rules, patterns: seq<InputPattern>, p: Path)
    requires Ignored(rules, [], true)
    ensures Discovered(tree, rules, [patterns], p) <==>
            !IsIncludeRoot(patterns, []) && p in tree && !Ignored(rules, p, IsDir(tree, p)) && SetSelects(patterns, p, IsDir(tree, p))
  {
    SingleSet(patterns);
    assert [patterns][0] == patterns;
  }

  lemma AloneWithoutPruning(tree: Tree, rules: Rules, sets: seq<seq<InputPattern>>, p: Path)
    requires !RootPruned(rules, Flatten(sets))
    ensures IsInput(tree, rules, sets, p) <==> DiscoveredAlone(tree, rules, sets, p)
  {
    IncludeRootOfSet(sets, []);
    forall g | 0 <= g < |sets|
      ensures Discovered(tree, rules, [sets[g]], p) <==> p in tree && !Ignored(rules, p, IsDir(tree, p)) && SetSelects(sets[g], p, IsDir(tree, p))
    {
      SingleSet(sets[g]);
      assert [sets[g]][0] == sets[g];
    }
  }

  /** An ignore file in the workspace root that rejects the root but keeps every entry. */
  function SelfRejecting(): Rules {
    Rules(d => d == [], (d, p, isDirectory) => if p == [] then Ignore else Whitelist)
  }

  function OneFile(name: Name): Tree { map[[] := Directory, [name] := File] }

  /** One set names a file; the other is any pattern that starts with a metacharacter. */
  function TwoProducers(name: Name, accepts: Name -> bool): seq<seq<InputPattern>> {
    [[InputPattern([Literal(name)], [name], Some(0), false, false)],
     [InputPattern([Meta(accepts)], [], Some(1), false, false)]]
  }

  lemma RootRejectsItself(name: Name)
    requires name != STATE_DIRECTORY
    ensures Ignored(SelfRejecting(), [], true) && !Ignored(SelfRejecting(), [name], false)
  {
  }

  lemma NamesItsFile(name: Name, accepts: Name -> bool)
    ensures SetSelects(TwoProducers(name, accepts)[0], [name], false)
    ensures LiteralPrefix(TwoProducers(name, accepts)[0][0].parts) == [name]
  {
    var named := TwoProducers(name, accepts)[0];
    assert named[0].parts[1..] == [] && [name][1..] == [];
    assert GlobMatches(named[0].parts, [name]);
    assert Covers(named[0], [name], false);
  }

  /** The exception is real: another producer's wildcard makes a named input disappear. */
  lemma PrunedRootLosesInput(name: Name, accepts: Name -> bool)
    requires name != STATE_DIRECTORY
    ensures AllWellParsed(Flatten(TwoProducers(name, accepts))) && WellFormed(OneFile(name))
    ensures DiscoveredAlone(OneFile(name), SelfRejecting(), TwoProducers(name, accepts), [name])
    ensures !Discovered(OneFile(name), SelfRejecting(), TwoProducers(name, accepts), [name])
  {
    var sets := TwoProducers(name, accepts);
    assert Flatten(sets) == sets[0] + sets[1] by {
      SingleSet(sets[0]);
      assert sets[..1] == [sets[0]];
    }
    NamesItsFile(name, accepts);
    FoundAlone(name, accepts);
    LostTogether(name, accepts);
  }

  lemma FoundAlone(name: Name, accepts: Name -> bool)
    requires name != STATE_DIRECTORY
    ensures DiscoveredAlone(OneFile(name), SelfRejecting(), TwoProducers(name, accepts), [name])
  {
    var named := TwoProducers(name, accepts)[0];
    SingleSet(named);
    RootRejectsItself(name);
    NamesItsFile(name, accepts);
    assert [named][0] == named;
    assert Discovered(OneFile(name), SelfRejecting(), [named], [name]);
  }

  lemma LostTogether(name: Name, accepts: Name -> bool)
    requires name != STATE_DIRECTORY
    ensures !Discovered(OneFile(name), SelfRejecting(), TwoProducers(name, accepts), [name])
  {
    var sets := TwoProducers(name, accepts);
    RootRejectsItself(name);
    IncludeRootOfSet(sets, []);
    assert sets[1][0].scanRoot == [] && !sets[1][0].excluded;
    assert IsIncludeRoot(sets[1], []);
  }

  /** `validate_contract_sets`: no output may be comparable with a positive scan root. */
  method ValidateContractSets(sets: seq<seq<InputPattern>>, outputs: seq<Path>) returns (ok: bool)
    ensures ok <==> |Flatten(sets)| <= MAX_CACHE_LIST_ITEMS && OutputsClear(sets, outputs)
  {
    var count := 0;
    assert sets[..|sets|] == sets;
    for g := 0 to |sets|
      invariant count == |Flatten(sets[..g])| <= MAX_CACHE_LIST_ITEMS
      invariant OutputsClear(sets[..g], outputs)
    {
      assert sets[..g + 1][..g] == sets[..g];
      FlattenShorter(sets, g + 1);
      count := count + |sets[g]|;
      if count > MAX_CACHE_LIST_ITEMS {
        return false;
      }
      for o := 0 to |outputs|
        invariant forall k :: 0 <= k < o ==> SetClear(sets[g], outputs[k])
      {
        if exists i :: 0 <= i < |sets[g]| && !sets[g][i].excluded && (sets[g][i].scanRoot <= outputs[o] || outputs[o] <= sets[g][i].scanRoot) {
          assert !SetClear(sets[g], outputs[o]);
          return false;
        }
      }
    }
    return true;
  }

  lemma {:induction false} FlattenShorter(sets: seq<seq<InputPattern>>, n: nat)
    requires n <= |sets|
    ensures |Flatten(sets[..n])| <= |Flatten(sets)|
    decreases |sets| - n
  {
    if n < |sets| {
      FlattenShorter(sets, n + 1);
      assert sets[..n + 1][..n] == sets[..n];
    } else {
      assert sets[..n] == sets;
    }
  }

  ghost predicate SetClear(patterns: seq<InputPattern>, output: Path) {
    forall i :: 0 <= i < |patterns| && !patterns[i].excluded ==> !(patterns[i].scanRoot <= output) && !(output <= patterns[i].scanRoot)
  }

  ghost predicate OutputsClear(sets: seq<seq<InputPattern>>, outputs: seq<Path>) {
    forall g, o :: 0 <= g < |sets| && 0 <= o < |outputs| ==> SetClear(sets[g], outputs[o])
  }

  /** An accepted contract keeps discovery away from the outputs on every possible tree: nothing
      visited, and so nothing selected, is inside, equal to or above an output. */
  lemma ContractKeepsOutputsOut(sets: seq<seq<InputPattern>>, outputs: seq<Path>, tree: Tree, rules: Rules, p: Path, o: nat)
    requires OutputsClear(sets, outputs) && o < |outputs|
    requires Visited(World(tree, rules, sets, Flatten(sets)), p)
    ensures !(outputs[o] <= p) && !(p <= outputs[o])
  {
    var w := World(tree, rules, sets, Flatten(sets));
    var n :| 0 <= n <= |p| && MinimalRoot(w.patterns, p[..n]) && Reached(w, p[..n], p);
    IncludeRootOfSet(sets, p[..n]);
    var g :| 0 <= g < |sets| && IsIncludeRoot(sets[g], p[..n]);
    assert SetClear(sets[g], outputs[o]);
    PrefixTransitive(p[..n], p, outputs[o]);
    if outputs[o] <= p { PrefixesCompare(p[..n], outputs[o], p); }
  }
}
