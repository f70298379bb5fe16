/** Input discovery: one pruned traversal shared by every pattern set (`fileset.rs`). */
module Fileset {
  import opened Orders
  import opened Paths
  import opened Patterns
  import opened Ignores

  datatype Kind = File | Directory | Symlink

  /** A workspace tree without symbolic links on the way to an entry. */
  type Tree = map<Path, Kind>

  function Parent(p: Path): Path
    requires p != []
  {
    p[..|p| - 1]
  }

  ghost predicate WellFormed(tree: Tree) {
    && [] in tree && tree[[]] == Directory
    && forall p :: p in tree && p != [] ==> Parent(p) in tree && tree[Parent(p)] == Directory
  }

  predicate IsDir(tree: Tree, p: Path) { p in tree && tree[p] == Directory }

  /** Everything above an entry is a directory. */
  lemma {:induction false} AboveEntry(tree: Tree, p: Path, n: nat)
    requires WellFormed(tree) && p in tree && n < |p|
    ensures IsDir(tree, p[..n])
    decreases |p| - n
  {
    if n + 1 < |p| {
      AboveEntry(tree, p, n + 1);
      assert p[..n + 1][..n] == p[..n] == Parent(p[..n + 1]);
    } else {
      assert p[..n] == Parent(p);
    }
  }

  /** A workspace and the pattern sets applied to it; `patterns` lists the sets end to end. */
  datatype World = World(tree: Tree, rules: Rules, sets: seq<seq<InputPattern>>, patterns: seq<InputPattern>)

  function Flatten(sets: seq<seq<InputPattern>>): seq<InputPattern> {
    if sets == [] then [] else Flatten(sets[..|sets| - 1]) + sets[|sets| - 1]
  }

  ghost predicate AllWellParsed(patterns: seq<InputPattern>) {
    forall i :: 0 <= i < |patterns| ==> WellParsed(patterns[i])
  }

  ghost predicate WellWorld(w: World) {
    WellFormed(w.tree) && w.patterns == Flatten(w.sets) && AllWellParsed(w.patterns)
  }

  // ---------------------------------------------------------------- the simple rule

  /** The pattern matches the path or a directory above it. */
  ghost predicate Covers(pat: InputPattern, p: Path, isDirectory: bool) {
    Matches(pat, p, isDirectory) || CoversAbove(pat, p)
  }

  ghost predicate CoversAbove(pat: InputPattern, p: Path) {
    exists n :: 0 <= n < |p| && Matches(pat, p[..n], true)
  }

  /** The last covering pattern of a set exists and is an include. */
  ghost predicate SetSelects(patterns: seq<InputPattern>, p: Path, isDirectory: bool) {
    exists i :: 0 <= i < |patterns| && !patterns[i].excluded && Covers(patterns[i], p, isDirectory)
                && forall k :: i < k < |patterns| ==> !Covers(patterns[k], p, isDirectory)
  }

  ghost predicate SomeSetSelects(sets: seq<seq<InputPattern>>, p: Path, isDirectory: bool) {
    exists g :: 0 <= g < |sets| && SetSelects(sets[g], p, isDirectory)
  }

  /** The declarative result: existing, not ignored, selected by some set on its own. */
  ghost predicate IsInput(tree: Tree, rules: Rules, sets: seq<seq<InputPattern>>, p: Path) {
    && p in tree && !Ignored(rules, p, IsDir(tree, p)) && SomeSetSelects(sets, p, IsDir(tree, p))
  }

  /** The walk starts at the workspace root, whose own ignore file rejects it. */
  ghost predicate RootPruned(rules: Rules, patterns: seq<InputPattern>) {
    IsIncludeRoot(patterns, []) && Ignored(rules, [], true)
  }

  // ---------------------------------------------------------------- what the walk reaches

  ghost predicate CoveredByInclude(patterns: seq<InputPattern>, p: Path, isDirectory: bool) {
    exists i :: 0 <= i < |patterns| && !patterns[i].excluded && Covers(patterns[i], p, isDirectory)
  }

  /** A directory whose entries are visited. */
  ghost predicate Expanded(w: World, p: Path) {
    && IsDir(w.tree, p) && !Ignored(w.rules, p, true)
    && (CoveredByInclude(w.patterns, p, true) || SomeMayMatchBelow(w.patterns, p))
  }

  predicate SomeMayMatchBelow(patterns: seq<InputPattern>, p: Path) {
    exists i :: 0 <= i < |patterns| && MayMatchBelow(patterns[i], p)
  }

  /** `p` is visited by the walk that starts at `root`, whether or not the root exists. */
  ghost predicate Reached(w: World, root: Path, p: Path) {
    && root <= p && (p == root || p in w.tree)
    && forall n :: |root| <= n < |p| ==> Expanded(w, p[..n])
  }

  ghost function ReachedSet(w: World, root: Path): set<Path> {
    set p | p in w.tree.Keys + {root} && Reached(w, root, p)
  }

  /** Going on below an expanded directory. */
  lemma ReachedChild(w: World, root: Path, p: Path, c: Path)
    requires Reached(w, root, p) && Expanded(w, p)
    requires c in w.tree && c != [] && Parent(c) == p
    ensures Reached(w, root, c)
  {
    forall n | |root| <= n < |c| ensures Expanded(w, c[..n]) {
      if n < |p| { assert c[..n] == p[..n]; } else { assert c[..n] == p; }
    }
  }

  /** A reached path below `p` goes through a child of `p`, which is expanded. */
  lemma ReachedThrough(w: World, root: Path, p: Path, q: Path)
    requires WellFormed(w.tree) && Reached(w, root, q) && root <= p && p <= q && p != q
    ensures Expanded(w, p)
    ensures q[..|p| + 1] in w.tree && Parent(q[..|p| + 1]) == p && q[..|p| + 1] <= q
  {
    assert q[..|p|] == p;
    var c := q[..|p| + 1];
    assert Parent(c) == p;
    if |c| < |q| { AboveEntry(w.tree, q, |c|); } else { assert c == q; }
  }

  // ---------------------------------------------------------------- refinement of the rule

  /** The roots of the walks: every include lies under one of them, and each comes from one. */
  ghost predicate RootsFor(patterns: seq<InputPattern>, minimal: seq<Path>) {
    && Incomparable(minimal)
    && (forall m :: m in minimal ==> IsIncludeRoot(patterns, m))
    && (forall r :: IsIncludeRoot(patterns, r) ==> Under(minimal, r))
  }

  /** The directories between a minimal root and an input below it are expanded. */
  lemma InputAboveIsExpanded(w: World, minimal: seq<Path>, k: nat, p: Path, j: nat, n: nat, d: nat)
    requires WellWorld(w) && RootsFor(w.patterns, minimal) && k < |minimal| && !RootPruned(w.rules, w.patterns)
    requires p in w.tree && !Ignored(w.rules, p, IsDir(w.tree, p)) && |minimal[k]| <= d < |p| && minimal[k] <= p
    requires j < |w.patterns| && WellParsed(w.patterns[j]) && !w.patterns[j].excluded
    requires n <= |p| && GlobMatches(w.patterns[j].parts, p[..n]) && (n < |p| ==> Matches(w.patterns[j], p[..n], true))
    ensures Expanded(w, p[..d])
  {
    AboveEntry(w.tree, p, d);
    assert minimal[k] in minimal;
    if d > 0 && Ignored(w.rules, p[..d], true) { IgnoredBelow(w.rules, p[..d], p, IsDir(w.tree, p)); }
    WorthwhileAbove(w.patterns, j, p, n, d);
  }

  /** An input is reached from the minimal root above it. */
  lemma InputIsReached(w: World, minimal: seq<Path>, p: Path)
    requires WellWorld(w) && RootsFor(w.patterns, minimal)
    requires !RootPruned(w.rules, w.patterns) && IsInput(w.tree, w.rules, w.sets, p)
    ensures exists k :: 0 <= k < |minimal| && Reached(w, minimal[k], p)
  {
    var isDirectory := IsDir(w.tree, p);
    var j := InputPatternOf(w, p);
    var pat := w.patterns[j];
    var n := CoverPoint(pat, p, isDirectory);
    MatchShape(pat.parts, p[..n]);
    assert IsIncludeRoot(w.patterns, pat.scanRoot);
    var k :| 0 <= k < |minimal| && minimal[k] <= pat.scanRoot;
    forall d | |minimal[k]| <= d < |p| ensures Expanded(w, p[..d]) {
      InputAboveIsExpanded(w, minimal, k, p, j, n, d);
    }
    assert Reached(w, minimal[k], p);
  }

  /** Some include pattern covers an input. */
  lemma InputPatternOf(w: World, p: Path) returns (j: nat)
    requires WellWorld(w) && IsInput(w.tree, w.rules, w.sets, p)
    ensures j < |w.patterns| && !w.patterns[j].excluded && Covers(w.patterns[j], p, IsDir(w.tree, p))
  {
    var isDirectory := IsDir(w.tree, p);
    var g :| 0 <= g < |w.sets| && SetSelects(w.sets[g], p, isDirectory);
    var i :| 0 <= i < |w.sets[g]| && !w.sets[g][i].excluded && Covers(w.sets[g][i], p, isDirectory);
    FlattenHas(w.sets, g, i);
    j :| 0 <= j < |w.patterns| && w.patterns[j] == w.sets[g][i];
  }

  lemma CoverPoint(pat: InputPattern, p: Path, isDirectory: bool) returns (n: nat)
    requires Covers(pat, p, isDirectory)
    ensures n <= |p| && Matches(pat, p[..n], n < |p| || isDirectory)
  {
    if Matches(pat, p, isDirectory) {
      n := |p|;
      assert p[..n] == p;
    } else {
      n :| 0 <= n < |p| && Matches(pat, p[..n], true);
    }
  }

  lemma WorthwhileAbove(patterns: seq<InputPattern>, j: nat, p: Path, n: nat, d: nat)
    requires j < |patterns| && WellParsed(patterns[j]) && !patterns[j].excluded
    requires n <= |p| && d < |p| && GlobMatches(patterns[j].parts, p[..n])
    requires n < |p| ==> Matches(patterns[j], p[..n], true)
    ensures CoveredByInclude(patterns, p[..d], true) || SomeMayMatchBelow(patterns, p[..d])
  {
    if d < n {
      PruningIsSafe(patterns[j], p[..n], p[..d]);
    } else {
      assert d > n ==> p[..d][..n] == p[..n];
      assert Covers(patterns[j], p[..d], true);
    }
  }

  lemma {:induction false} FlattenHas(sets: seq<seq<InputPattern>>, g: nat, i: nat)
    requires g < |sets| && i < |sets[g]|
    ensures sets[g][i] in Flatten(sets)
  {
    if g < |sets| - 1 {
      FlattenHas(sets[..|sets| - 1], g, i);
    }
  }

  // ---------------------------------------------------------------- one entry

  /** `matches` agrees with the patterns for a path below which `inherited` was computed. */
  ghost predicate VecFor(patterns: seq<InputPattern>, matches: seq<bool>, p: Path, isDirectory: bool) {
    |matches| == |patterns| && forall i :: 0 <= i < |patterns| ==> matches[i] == Covers(patterns[i], p, isDirectory)
  }

  ghost predicate InheritedFor(patterns: seq<InputPattern>, inherited: seq<bool>, p: Path) {
    |inherited| == |patterns| && forall i :: 0 <= i < |patterns| ==> inherited[i] == CoversAbove(patterns[i], p)
  }

  /** A directory's own matches are what its children inherit. */
  lemma ChildInherits(patterns: seq<InputPattern>, matches: seq<bool>, p: Path, c: Path)
    requires VecFor(patterns, matches, p, true) && c != [] && Parent(c) == p
    ensures InheritedFor(patterns, matches, c)
  {
    forall i | 0 <= i < |patterns| ensures CoversAbove(patterns[i], c) == Covers(patterns[i], p, true) {
      assert c[..|p|] == p;
      if Matches(patterns[i], p, true) { assert Matches(patterns[i], c[..|p|], true); }
      if n :| 0 <= n < |p| && Matches(patterns[i], p[..n], true) { assert c[..n] == p[..n]; }
      if n :| 0 <= n < |c| && Matches(patterns[i], c[..n], true) {
        if n < |p| { assert c[..n] == p[..n]; }
      }
    }
  }

  /** `ancestor_matches`: the state a walk inherits when it starts below the workspace root. */
  method AncestorMatches(patterns: seq<InputPattern>, path: Path) returns (matches: seq<bool>)
    ensures InheritedFor(patterns, matches, path)
  {
    matches := seq(|patterns|, i => false);
    for n := 0 to |path|
      invariant |matches| == |patterns|
      invariant forall i :: 0 <= i < |patterns| ==> matches[i] == exists k :: 0 <= k < n && Matches(patterns[i], path[..k], true)
    {
      matches := seq(|patterns|, i requires 0 <= i < |patterns| => matches[i] || Matches(patterns[i], path[..n], true));
    }
  }

  /** The include flag of the last match in `[lo, hi)`, as `next_back` finds it. */
  predicate LastWins(patterns: seq<InputPattern>, matches: seq<bool>, lo: nat, hi: nat)
    requires lo <= hi <= |patterns| == |matches|
  {
    if lo == hi then false
    else if matches[hi - 1] then !patterns[hi - 1].excluded
    else LastWins(patterns, matches, lo, hi - 1)
  }

  lemma {:induction false} LastWinsIsSetSelects(patterns: seq<InputPattern>, matches: seq<bool>, p: Path,
      isDirectory: bool, lo: nat, hi: nat)
    requires VecFor(patterns, matches, p, isDirectory) && lo <= hi <= |patterns|
    ensures LastWins(patterns, matches, lo, hi) <==> SetSelects(patterns[lo..hi], p, isDirectory)
  {
    if lo < hi {
      var all, fewer := patterns[lo..hi], patterns[lo..hi - 1];
      assert all == fewer + [patterns[hi - 1]];
      LastWinsIsSetSelects(patterns, matches, p, isDirectory, lo, hi - 1);
      if matches[hi - 1] {
        assert all[|fewer|] == patterns[hi - 1];
      } else {
        if i :| 0 <= i < |fewer| && !fewer[i].excluded && Covers(fewer[i], p, isDirectory)
                && forall k :: i < k < |fewer| ==> !Covers(fewer[k], p, isDirectory) {
          assert all[i] == fewer[i];
        }
        if i :| 0 <= i < |all| && !all[i].excluded && Covers(all[i], p, isDirectory)
                && forall k :: i < k < |all| ==> !Covers(all[k], p, isDirectory) {
          assert i < |fewer| && all[i] == fewer[i];
          assert forall k :: i < k < |fewer| ==> fewer[k] == all[k];
        }
      }
    }
  }

  /** Half-open ranges of the flattened patterns, one per set. */
  ghost predicate GroupsFor(w: World, groups: seq<(nat, nat)>) {
    && |groups| == |w.sets|
    && forall g :: 0 <= g < |groups| ==> groups[g].0 <= groups[g].1 <= |w.patterns| && w.patterns[groups[g].0..groups[g].1] == w.sets[g]
  }
}
