/** The explicit-stack traversal and its callers (`Walker::walk`, `collect_pattern_sets`). */
module Walk {
  import opened Orders
  import opened Paths
  import opened Patterns
  import opened Ignores
  import opened Fileset

  datatype Status = Ok | Limit | NotPortable | Configuration

  /** `normalize` refuses a backslash in any component. */
  predicate Portable(p: Path) { forall i :: 0 <= i < |p| ==> BACKSLASH !in p[i] }

  /** A stack item: a path and the matches inherited from its directory. */
  datatype Item = Item(path: Path, inherited: seq<bool>)

  function Children(tree: Tree, p: Path): set<Path> {
    set c | c in tree && c != [] && Parent(c) == p
  }

  lemma SubsetSize<T>(a: set<T>, b: set<T>)
    requires a <= b
    ensures |a| <= |b|
  {
    assert b == a + (b - a);
  }

  /** `read_dir` with the vector bounded while it is filled. */
  method ReadDir(tree: Tree, p: Path, remaining: nat) returns (entries: Option<seq<Path>>)
    ensures entries.None? <==> |Children(tree, p)| > remaining
    ensures entries.Some? ==> Distinct(entries.value) && forall c :: c in entries.value <==> c in Children(tree, p)
  {
    var all := Children(tree, p);
    var rest := all;
    var list: seq<Path> := [];
    while rest != {}
      invariant rest <= all && |list| + |rest| == |all| && |list| <= remaining
      invariant Distinct(list) && forall c :: c in list <==> c in all && c !in rest
    {
      if |list| >= remaining {
        return None;
      }
      var c :| c in rest;
      assert c !in list;
      list := list + [c];
      rest := rest - {c};
    }
    entries := Some(list);
  }

  /** Some stack item lies at or above `q`. */
  ghost predicate OnStack(pending: seq<Item>, q: Path) {
    exists i :: 0 <= i < |pending| && pending[i].path <= q
  }

  ghost predicate ItemsReached(w: World, root: Path, pending: seq<Item>) {
    forall i :: 0 <= i < |pending| ==>
      Reached(w, root, pending[i].path) && InheritedFor(w.patterns, pending[i].inherited, pending[i].path)
  }

  /** No stack item lies at or above another, or above a visited path. */
  ghost predicate Apart(pending: seq<Item>, seen: set<Path>) {
    && (forall i, k :: 0 <= i < |pending| && 0 <= k < |pending| && i != k ==> !(pending[i].path <= pending[k].path))
    && (forall i, v :: 0 <= i < |pending| && v in seen ==> !(pending[i].path <= v))
  }

  /** Everything reached is visited or still to come. */
  ghost predicate Complete(w: World, root: Path, pending: seq<Item>, seen: set<Path>) {
    forall q :: Reached(w, root, q) ==> q in seen || OnStack(pending, q)
  }

  /** What the stack and the visited set say about a walk from `root` in progress. */
  ghost predicate Frontier(w: World, root: Path, pending: seq<Item>, before: set<Path>, seen: set<Path>) {
    && ItemsReached(w, root, pending) && Apart(pending, seen) && Complete(w, root, pending, seen)
    && before <= seen <= before + ReachedSet(w, root)
  }

  lemma ReachedIsListed(w: World, root: Path, q: Path)
    requires Reached(w, root, q)
    ensures q in ReachedSet(w, root)
  {
  }

  /** The stack and the visited set after a pop, with `pushed` replacing the popped path. */
  ghost predicate Replaces(w: World, pending: seq<Item>, matches: seq<bool>, pushed: seq<Item>) {
    && pending != []
    && (forall i :: 0 <= i < |pushed| ==> pushed[i].inherited == matches && pushed[i].path in Children(w.tree, Top(pending)))
    && (forall i, k :: 0 <= i < k < |pushed| ==> pushed[i].path != pushed[k].path)
    && (Expanded(w, Top(pending)) ==> VecFor(w.patterns, matches, Top(pending), true)
                                      && forall c :: c in Children(w.tree, Top(pending)) ==> OnStack(pushed, c))
    && (!Expanded(w, Top(pending)) ==> pushed == [])
  }

  function Top(pending: seq<Item>): Path
    requires pending != []
  {
    pending[|pending| - 1].path
  }

  lemma ChildOrder(p: Path, c: Path, q: Path)
    requires c != [] && Parent(c) == p
    ensures c <= q ==> p <= q
    ensures q <= c <==> q <= p || q == c
    ensures p <= c && !(c <= p)
  {
  }

  lemma PairApart(pending: seq<Item>, pushed: seq<Item>, i: nat, k: nat)
    requires pending != [] && Apart(pending, {})
    requires forall a :: 0 <= a < |pushed| ==> pushed[a].path != [] && Parent(pushed[a].path) == Top(pending)
    requires forall a, b :: 0 <= a < b < |pushed| ==> pushed[a].path != pushed[b].path
    requires i != k && i < |pending| - 1 + |pushed| && k < |pending| - 1 + |pushed|
    ensures !((pending[..|pending| - 1] + pushed)[i].path <= (pending[..|pending| - 1] + pushed)[k].path)
  {
  }

  lemma ApartAfter(w: World, pending: seq<Item>, seen: set<Path>, matches: seq<bool>, pushed: seq<Item>)
    requires Apart(pending, seen) && Replaces(w, pending, matches, pushed)
    ensures Apart(pending[..|pending| - 1] + pushed, seen + {Top(pending)}) && Top(pending) !in seen
  {
    var next := pending[..|pending| - 1] + pushed;
    forall i, k | 0 <= i < |next| && 0 <= k < |next| && i != k ensures !(next[i].path <= next[k].path) {
      PairApart(pending, pushed, i, k);
    }
    forall i, v | 0 <= i < |next| && v in seen + {Top(pending)} ensures !(next[i].path <= v) {
      NextNotSeen(pending, seen, pushed, i, v);
    }
  }

  lemma NextNotSeen(pending: seq<Item>, seen: set<Path>, pushed: seq<Item>, i: nat, v: Path)
    requires pending != [] && Apart(pending, seen) && i < |pending| - 1 + |pushed| && v in seen + {Top(pending)}
    requires i >= |pending| - 1 ==> pushed[i - |pending| + 1].path != [] && Parent(pushed[i - |pending| + 1].path) == Top(pending)
    ensures !((pending[..|pending| - 1] + pushed)[i].path <= v)
  {
    var n := |pending| - 1;
    if i >= n {
      ChildNotSeen(pending, seen, pushed[i - n].path, v);
    } else {
      StackedNotSeen(pending, seen, i, v);
    }
  }

  lemma ChildNotSeen(pending: seq<Item>, seen: set<Path>, c: Path, v: Path)
    requires pending != [] && Apart(pending, seen) && c != [] && Parent(c) == Top(pending) && v in seen + {Top(pending)}
    ensures !(c <= v)
  {
  }

  lemma StackedNotSeen(pending: seq<Item>, seen: set<Path>, i: nat, v: Path)
    requires pending != [] && Apart(pending, seen) && i < |pending| - 1 && v in seen + {Top(pending)}
    ensures !(pending[i].path <= v)
  {
  }

  lemma ReachedAfter(w: World, root: Path, pending: seq<Item>, matches: seq<bool>, pushed: seq<Item>)
    requires ItemsReached(w, root, pending) && Replaces(w, pending, matches, pushed)
    ensures ItemsReached(w, root, pending[..|pending| - 1] + pushed)
  {
    forall i | 0 <= i < |pushed|
      ensures Reached(w, root, pushed[i].path) && InheritedFor(w.patterns, pushed[i].inherited, pushed[i].path)
    {
      ReachedChild(w, root, Top(pending), pushed[i].path);
      ChildInherits(w.patterns, matches, Top(pending), pushed[i].path);
    }
  }

  lemma OnLongerStack(a: seq<Item>, b: seq<Item>, c: Path, q: Path)
    requires (OnStack(a, c) || OnStack(b, c)) && c <= q
    ensures OnStack(a + b, q)
  {
    var s := a + b;
    if i :| 0 <= i < |a| && a[i].path <= c {
      assert s[i].path <= q;
    } else {
      var k :| 0 <= k < |b| && b[k].path <= c;
      assert s[|a| + k].path <= q;
    }
  }

  lemma StillToCome(w: World, root: Path, pending: seq<Item>, matches: seq<bool>, pushed: seq<Item>, q: Path)
    requires WellFormed(w.tree) && Replaces(w, pending, matches, pushed)
    requires root <= Top(pending) && Reached(w, root, q) && OnStack(pending, q) && q != Top(pending)
    ensures OnStack(pending[..|pending| - 1] + pushed, q)
  {
    var n, p := |pending| - 1, Top(pending);
    assert pending == pending[..n] + [pending[n]];
    if OnStack(pending[..n], q) {
      OnLongerStack(pending[..n], pushed, q, q);
    } else {
      ReachedThrough(w, root, p, q);
      assert q[..|p| + 1] in Children(w.tree, p);
      OnLongerStack(pending[..n], pushed, q[..|p| + 1], q);
    }
  }

  lemma CompleteAfter(w: World, root: Path, pending: seq<Item>, seen: set<Path>, matches: seq<bool>, pushed: seq<Item>)
    requires WellFormed(w.tree) && Complete(w, root, pending, seen) && Replaces(w, pending, matches, pushed)
    requires root <= Top(pending)
    ensures Complete(w, root, pending[..|pending| - 1] + pushed, seen + {Top(pending)})
  {
    forall q | Reached(w, root, q) ensures q in seen + {Top(pending)} || OnStack(pending[..|pending| - 1] + pushed, q) {
      if q !in seen && q != Top(pending) {
        StillToCome(w, root, pending, matches, pushed, q);
      }
    }
  }

  /** One turn of the loop keeps the frontier, and never pops a path twice. */
  lemma FrontierAfter(w: World, root: Path, pending: seq<Item>, before: set<Path>, seen: set<Path>, matches: seq<bool>,
      pushed: seq<Item>)
    requires WellFormed(w.tree) && Frontier(w, root, pending, before, seen) && Replaces(w, pending, matches, pushed)
    ensures Frontier(w, root, pending[..|pending| - 1] + pushed, before, seen + {Top(pending)})
    ensures Top(pending) !in seen && Top(pending) in ReachedSet(w, root)
  {
    ApartAfter(w, pending, seen, matches, pushed);
    ReachedAfter(w, root, pending, matches, pushed);
    CompleteAfter(w, root, pending, seen, matches, pushed);
    ReachedIsListed(w, root, Top(pending));
  }

  class Walker {
    const w: World
    const groups: seq<(nat, nat)>
    const maxEntries: nat
    const filter: IgnoreFilter
    var paths: map<Path, Kind>
    var visited: nat
    /** Every path taken from a stack so far. */
    ghost var seen: set<Path>

    ghost predicate Valid()
      reads this, filter
    {
      && filter.Valid() && filter.rules == w.rules
      && WellWorld(w) && GroupsFor(w, groups)
      && visited == |seen| && visited <= maxEntries
    }

    /** The collected paths are the inputs among the visited ones, none of which blocks discovery. */
    ghost predicate Collected()
      reads this
    {
      && (forall p :: p in paths <==> p in seen && IsInput(w.tree, w.rules, w.sets, p))
      && (forall p :: p in paths ==> paths[p] == w.tree[p])
      && (forall p :: p in seen ==> !Blocks(w, p))
    }

    constructor (w: World, groups: seq<(nat, nat)>, maxEntries: nat)
      requires WellWorld(w) && GroupsFor(w, groups)
      ensures Valid() && Collected() && this.w == w && this.groups == groups && this.maxEntries == maxEntries
      ensures paths == map[] && visited == 0 && seen == {} && fresh(filter)
    {
      this.w, this.groups, this.maxEntries := w, groups, maxEntries;
      filter := new IgnoreFilter(w.rules);
      paths, visited, seen := map[], 0, {};
    }

    /** The body of the walk for one popped path, up to the decision to read the directory. */
    method Visit(path: Path, inherited: seq<bool>) returns (r: Status, matches: seq<bool>, expand: bool)
      requires Valid() && InheritedFor(w.patterns, inherited, path)
      modifies this`paths, filter`matchers
      ensures Valid() && (r == Ok || r == NotPortable)
      ensures r == NotPortable <==> Blocks(w, path)
      ensures r == Ok ==> expand == Expanded(w, path)
      ensures r == Ok && expand ==> VecFor(w.patterns, matches, path, true)
      ensures r == Ok && !IsInput(w.tree, w.rules, w.sets, path) ==> paths == old(paths)
      ensures r == Ok && IsInput(w.tree, w.rules, w.sets, path) ==>
                paths == if path in old(paths) then old(paths) else old(paths)[path := w.tree[path]]
    {
      r, matches, expand := Ok, [], false;
      if path !in w.tree {
        return;
      }
      var isDirectory := IsDir(w.tree, path);
      var ignored := filter.IsIgnored(path, isDirectory);
      if ignored {
        return;
      }
      if !Portable(path) {
        r := NotPortable;
        return;
      }
      matches := seq(|w.patterns|, i requires 0 <= i < |w.patterns| && |inherited| == |w.patterns| =>
                                     Matches(w.patterns[i], path, isDirectory) || inherited[i]);
      assert VecFor(w.patterns, matches, path, isDirectory);
      var selected := exists g :: 0 <= g < |groups| && LastWins(w.patterns, matches, groups[g].0, groups[g].1);
      SelectionIsRule(matches, path, isDirectory);
      if selected && path !in paths {
        paths := paths[path := w.tree[path]];
      }
      var byInclude := exists i :: 0 <= i < |w.patterns| && !w.patterns[i].excluded && matches[i];
      expand := isDirectory && (byInclude || SomeMayMatchBelow(w.patterns, path));
    }

    lemma SelectionIsRule(matches: seq<bool>, path: Path, isDirectory: bool)
      requires GroupsFor(w, groups) && VecFor(w.patterns, matches, path, isDirectory)
      ensures (exists g :: 0 <= g < |groups| && LastWins(w.patterns, matches, groups[g].0, groups[g].1))
              <==> SomeSetSelects(w.sets, path, isDirectory)
    {
      forall g | 0 <= g < |groups|
        ensures LastWins(w.patterns, matches, groups[g].0, groups[g].1) <==> SetSelects(w.sets[g], path, isDirectory)
      {
        LastWinsIsSetSelects(w.patterns, matches, path, isDirectory, groups[g].0, groups[g].1);
      }
    }

    /** Visits the path on top of the stack and counts it. */
    method VisitTop(root: Path, pending: seq<Item>, ghost before: set<Path>) returns (r: Status, matches: seq<bool>, expand: bool)
      requires Valid() && Collected() && pending != [] && Frontier(w, root, pending, before, seen) && visited < maxEntries
      modifies this`paths, this`visited, this`seen, filter`matchers
      ensures Valid() && (r == Ok || r == NotPortable)
      ensures seen == old(seen) + {Top(pending)}
      ensures r == Ok ==> Collected() && expand == Expanded(w, Top(pending))
      ensures r == Ok && expand ==> VecFor(w.patterns, matches, Top(pending), true)
      ensures r == NotPortable ==> BlocksDiscovery(w, root, Top(pending))
    {
      var item := pending[|pending| - 1];
      TopIsNew(w, root, pending, before, seen);
      visited := visited + 1;
      seen := seen + {item.path};
      r, matches, expand := Visit(item.path, item.inherited);
    }

    /** One turn of the loop in `Walker::walk`. */
    method Turn(root: Path, pending: seq<Item>, ghost before: set<Path>) returns (r: Status, next: seq<Item>)
      requires Valid() && Collected() && pending != [] && Frontier(w, root, pending, before, seen)
      modifies this`paths, this`visited, this`seen, filter`matchers
      ensures Valid() && r != Configuration
      ensures r == Ok ==> Collected() && Frontier(w, root, next, before, seen) && visited == old(visited) + 1
      ensures r == Limit ==> |before + ReachedSet(w, root)| > maxEntries
      ensures r == NotPortable ==> exists p :: BlocksDiscovery(w, root, p)
    {
      next := [];
      if visited >= maxEntries {
        OverBudget(w, root, pending, before, seen, maxEntries);
        r := Limit;
        return;
      }
      ghost var earlier := seen;
      var matches, expand;
      r, matches, expand := VisitTop(root, pending, before);
      if r != Ok {
        return;
      }
      var pushed: seq<Item> := [];
      if expand {
        var path := pending[|pending| - 1].path;
        var entries := ReadDir(w.tree, path, maxEntries - visited);
        if entries.None? {
          ChildrenOverBudget(w, root, pending, before, earlier, maxEntries);
          r := Limit;
          return;
        }
        pushed := Stacked(entries.value, matches);
        StackedReplaces(w, pending, matches, entries.value, pushed);
      }
      FrontierAfter(w, root, pending, before, earlier, matches, pushed);
      next := pending[..|pending| - 1] + pushed;
    }

    /** `Walker::walk`. */
    method Walk(root: Path, inherited: seq<bool>) returns (r: Status)
      requires Valid() && Collected() && InheritedFor(w.patterns, inherited, root)
      requires forall v :: v in seen ==> !(root <= v)
      modifies this`paths, this`visited, this`seen, filter`matchers
      ensures Valid() && r != Configuration
      ensures r == Ok ==> Collected() && seen == old(seen) + ReachedSet(w, root)
      ensures r == Limit ==> |old(seen) + ReachedSet(w, root)| > maxEntries
      ensures r == NotPortable ==> exists p :: BlocksDiscovery(w, root, p)
    {
      var pending := [Item(root, inherited)];
      StartFrontier(w, root, inherited, seen);
      while pending != []
        invariant Valid() && Collected() && Frontier(w, root, pending, old(seen), seen)
        decreases maxEntries - visited
      {
        r, pending := Turn(root, pending, old(seen));
        if r != Ok {
          return;
        }
      }
      FinishedWalk(w, root, old(seen), seen);
      return Ok;
    }
  }

  /** An entry whose name the portable path model refuses. */
  predicate Blocks(w: World, p: Path) { p in w.tree && !Ignored(w.rules, p, IsDir(w.tree, p)) && !Portable(p) }

  ghost predicate BlocksDiscovery(w: World, root: Path, p: Path) { Reached(w, root, p) && Blocks(w, p) }

  /** Sorted entries, pushed in reverse so that the first is popped first. */
  function Stacked(entries: seq<Path>, matches: seq<bool>): seq<Item> {
    Reversed(Sort(PathLe, entries), matches)
  }

  lemma SortedEntries(entries: seq<Path>)
    requires Distinct(entries)
    ensures Distinct(Sort(PathLe, entries)) && forall c :: c in Sort(PathLe, entries) <==> c in entries
  {
    var sorted := Sort(PathLe, entries);
    DistinctMultiset(entries);
    DistinctMultiset(sorted);
    assert forall c :: (c in entries <==> c in multiset(entries)) && (c in sorted <==> c in multiset(sorted));
  }

  function Reversed(sorted: seq<Path>, matches: seq<bool>): (pushed: seq<Item>)
    ensures |pushed| == |sorted| && forall i :: 0 <= i < |sorted| ==> pushed[i] == Item(sorted[|sorted| - 1 - i], matches)
  {
    seq(|sorted|, i requires 0 <= i < |sorted| => Item(sorted[|sorted| - 1 - i], matches))
  }

  lemma ReversedHas(sorted: seq<Path>, matches: seq<bool>, c: Path)
    requires c in sorted
    ensures OnStack(Reversed(sorted, matches), c)
  {
    var i :| 0 <= i < |sorted| && sorted[i] == c;
    assert Reversed(sorted, matches)[|sorted| - 1 - i].path <= c;
  }

  lemma StackedItems(entries: seq<Path>, matches: seq<bool>)
    requires Distinct(entries)
    ensures var pushed := Stacked(entries, matches);
            && (forall i :: 0 <= i < |pushed| ==> pushed[i].inherited == matches && pushed[i].path in entries)
            && (forall i, k :: 0 <= i < k < |pushed| ==> pushed[i].path != pushed[k].path)
            && (forall c :: c in entries ==> OnStack(pushed, c))
  {
    var sorted := Sort(PathLe, entries);
    SortedEntries(entries);
    forall c | c in entries ensures OnStack(Stacked(entries, matches), c) { ReversedHas(sorted, matches, c); }
    var pushed := Stacked(entries, matches);
    forall i | 0 <= i < |pushed| ensures pushed[i].path in entries {
      assert pushed[i].path in sorted;
    }
  }

  lemma StackedReplaces(w: World, pending: seq<Item>, matches: seq<bool>, entries: seq<Path>, pushed: seq<Item>)
    requires pending != [] && Expanded(w, Top(pending)) && VecFor(w.patterns, matches, Top(pending), true)
    requires Distinct(entries) && forall c :: c in entries <==> c in Children(w.tree, Top(pending))
    requires pushed == Stacked(entries, matches)
    ensures Replaces(w, pending, matches, pushed)
  {
    StackedItems(entries, matches);
  }

  lemma StartFrontier(w: World, root: Path, inherited: seq<bool>, seen: set<Path>)
    requires InheritedFor(w.patterns, inherited, root) && forall v :: v in seen ==> !(root <= v)
    ensures Frontier(w, root, [Item(root, inherited)], seen, seen)
  {
    var pending := [Item(root, inherited)];
    forall q | Reached(w, root, q) ensures OnStack(pending, q) {
      assert pending[0].path <= q;
    }
  }

  lemma TopIsNew(w: World, root: Path, pending: seq<Item>, before: set<Path>, seen: set<Path>)
    requires Frontier(w, root, pending, before, seen) && pending != []
    ensures Top(pending) !in seen && Top(pending) in ReachedSet(w, root) && Reached(w, root, Top(pending))
  {
  }

  lemma OverBudget(w: World, root: Path, pending: seq<Item>, before: set<Path>, seen: set<Path>, budget: nat)
    requires Frontier(w, root, pending, before, seen) && pending != [] && |seen| >= budget
    ensures |before + ReachedSet(w, root)| > budget
  {
    TopIsNew(w, root, pending, before, seen);
    SubsetSize(seen + {Top(pending)}, before + ReachedSet(w, root));
  }

  /** A directory with more entries than budget left means the walk needs more than the budget. */
  lemma ChildrenOverBudget(w: World, root: Path, pending: seq<Item>, before: set<Path>, seen: set<Path>, budget: nat)
    requires Frontier(w, root, pending, before, seen) && pending != [] && Expanded(w, Top(pending))
    requires |seen| + 1 + |Children(w.tree, Top(pending))| > budget
    ensures |before + ReachedSet(w, root)| > budget
  {
    var p := Top(pending);
    var children := Children(w.tree, p);
    TopIsNew(w, root, pending, before, seen);
    forall c | c in children ensures c !in seen + {p} && c in ReachedSet(w, root) {
      ReachedChild(w, root, p, c);
      ReachedIsListed(w, root, c);
      ChildOrder(p, c, c);
    }
    SubsetSize(seen + {p} + children, before + ReachedSet(w, root));
  }

  lemma FinishedWalk(w: World, root: Path, before: set<Path>, seen: set<Path>)
    requires Frontier(w, root, [], before, seen)
    ensures seen == before + ReachedSet(w, root)
  {
  }
}
