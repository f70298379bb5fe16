/** Declared output roots: overlap validation (`bundle/path.rs`) and the inspection
    of live ancestors that precedes a restore (`restore.rs`). */
module Roots {
  import opened Orders
  import opened Paths

  /** Every directory strictly above `s`, as the string prefixes ending before a separator. */
  function Ancestors(s: Text): set<Text> {
    set k | 0 <= k < |s| && s[k] == SLASH :: s[..k]
  }

  lemma AncestorsAreStrict(p: Text, s: Text)
    ensures p in Ancestors(s) <==> StrictAncestor(p, s)
  {
    if StrictAncestor(p, s) { assert p == s[..|p|]; }
  }

  lemma AncestorTransitive(p: Text, q: Text, s: Text)
    requires p in Ancestors(q) && q in Ancestors(s)
    ensures p in Ancestors(s)
  {
    AncestorsAreStrict(p, q);
    AncestorsAreStrict(q, s);
    AncestorsAreStrict(p, s);
  }

  /** No root is repeated and none contains another. */
  ghost predicate Disjoint(roots: seq<Text>) {
    Distinct(roots) && forall a, b :: a in roots && b in roots ==> a !in Ancestors(b)
  }

  /** Tree-walk order of the bundle format: component by component. */
  predicate TreeLe(a: Text, b: Text) { PathLe(Split(a), Split(b)) }

  lemma TreeOrderIsTotal()
    ensures TotalOrder(TreeLe)
  {
    PathOrderIsTotal();
    forall a, b | TreeLe(a, b) && TreeLe(b, a) ensures a == b {
      JoinSplit(a);
      JoinSplit(b);
    }
    forall a, b, c | TreeLe(a, b) && TreeLe(b, c) ensures TreeLe(a, c) {
      assert PathLe(Split(a), Split(b)) && PathLe(Split(b), Split(c));
    }
  }

  lemma TreeSorted(roots: seq<Text>)
    ensures SortedBy(TreeLe, Sort(TreeLe, roots))
  {
    TreeOrderIsTotal();
    SortIsSorted(TreeLe, roots);
  }

  lemma AncestorComesFirst(p: Text, s: Text)
    requires p in Ancestors(s)
    ensures TreeLe(p, s) && TextLe(p, s) && p != s
    ensures !TreeLe(s, p) && !TextLe(s, p)
  {
    AncestorsAreStrict(p, s);
    var tail := s[|p| + 1..];
    assert s == p + [SLASH] + tail;
    SplitAppend(p, tail);
    LexPrefix(TextLe, Split(p), Split(s));
    LexPrefix(ByteLe, p, s);
    TreeOrderIsTotal();
    TextOrderIsTotal();
  }

  /** What `validate_output_roots` must reject. */
  ghost predicate Rejected(roots: seq<Text>) {
    || roots == []
    || ROOT in roots
    || !Disjoint(roots)
  }

  lemma PermutationKeepsRejection(a: seq<Text>, b: seq<Text>)
    requires multiset(a) == multiset(b)
    ensures Rejected(a) <==> Rejected(b)
  {
    assert |a| == |multiset(a)| == |multiset(b)| == |b|;
    assert forall x :: (x in a <==> x in multiset(a)) && (x in b <==> x in multiset(b));
    DistinctMultiset(a);
    DistinctMultiset(b);
  }

  /** No problem among the first `n` roots when each is compared with those before it. */
  ghost predicate CleanUpTo(s: seq<Text>, n: nat)
    requires n <= |s|
  {
    && (forall a :: 0 <= a < n ==> s[a] != ROOT)
    && (forall a, b :: 0 <= a < b < n ==> s[a] != s[b] && s[a] !in Ancestors(s[b]))
  }

  ghost predicate SeenUpTo(s: seq<Text>, n: nat, seen: set<Text>)
    requires n <= |s|
  {
    && (forall a :: 0 <= a < n ==> s[a] in seen)
    && (forall x :: x in seen ==> exists a :: 0 <= a < n && s[a] == x)
  }

  /** The test applied to one root, given the roots before it. */
  predicate Clashes(root: Text, seen: set<Text>) {
    root == ROOT || root in seen || Ancestors(root) * seen != {}
  }

  lemma ScanStep(s: seq<Text>, n: nat, seen: set<Text>)
    requires n < |s| && CleanUpTo(s, n) && SeenUpTo(s, n, seen)
    ensures Clashes(s[n], seen) <==> !CleanUpTo(s, n + 1)
    ensures SeenUpTo(s, n + 1, seen + {s[n]})
  {
  }

  /** One scan over the sorted roots finds every overlap, because an ancestor sorts first. */
  method ValidateOutputRoots(roots: seq<Text>) returns (r: Option<seq<Text>>)
    ensures r.None? <==> Rejected(roots)
    ensures r.Some? ==> multiset(r.value) == multiset(roots) && SortedBy(TreeLe, r.value) && Disjoint(r.value)
  {
    var sorted := Sort(TreeLe, roots);
    ScanDecides(roots);
    if roots == [] {
      return None;
    }
    var seen: set<Text> := {};
    for i := 0 to |sorted|
      invariant CleanUpTo(sorted, i) && SeenUpTo(sorted, i, seen)
    {
      ScanStep(sorted, i, seen);
      if Clashes(sorted[i], seen) {
        return None;
      }
      seen := seen + {sorted[i]};
    }
    r := Some(sorted);
  }

  lemma ScanDecides(roots: seq<Text>)
    ensures var sorted := Sort(TreeLe, roots);
            && SortedBy(TreeLe, sorted)
            && (Rejected(roots) <==> roots == [] || !CleanUpTo(sorted, |sorted|))
            && (!Rejected(roots) ==> Disjoint(sorted))
  {
    var sorted := Sort(TreeLe, roots);
    TreeSorted(roots);
    PermutationKeepsRejection(roots, sorted);
    ScanIsExact(sorted);
    assert |roots| == |multiset(roots)| == |multiset(sorted)| == |sorted|;
  }

  lemma ScanIsExact(sorted: seq<Text>)
    requires SortedBy(TreeLe, sorted)
    ensures CleanUpTo(sorted, |sorted|) <==> ROOT !in sorted && Disjoint(sorted)
  {
    if CleanUpTo(sorted, |sorted|) {
      forall a, b | 0 <= a < |sorted| && 0 <= b < |sorted| ensures sorted[a] !in Ancestors(sorted[b]) {
        if sorted[a] in Ancestors(sorted[b]) {
          AncestorComesFirst(sorted[a], sorted[b]);
        }
      }
    }
    assert forall a :: 0 <= a < |sorted| ==> sorted[a] in sorted;
  }

  /** What `symlink_metadata` finds in a workspace: real directories, and other entries. */
  datatype Workspace = Workspace(dirs: set<Text>, others: set<Text>)

  /** Every entry's parents are real directories, and no entry is both kinds. */
  ghost predicate WellFormed(ws: Workspace) {
    && ws.dirs !! ws.others
    && forall e :: e in ws.dirs + ws.others ==> Ancestors(e) <= ws.dirs
  }

  datatype Root = Root(path: Text, hadOriginal: bool)

  /** The durable intent: each root with its original presence, and the missing ancestors. */
  datatype Journal = Journal(roots: seq<Root>, createdParents: seq<Text>)

  function RootPaths(roots: seq<Root>): seq<Text> { seq(|roots|, i requires 0 <= i < |roots| => roots[i].path) }

  /** All directories above some root. */
  ghost predicate AboveSomeRoot(d: Text, roots: seq<Text>) {
    exists i :: 0 <= i < |roots| && d in Ancestors(roots[i])
  }

  /** A set in ascending string order, as a `BTreeSet` yields it. */
  method SortedElements(s: set<Text>) returns (r: seq<Text>)
    ensures SortedBy(TextLe, r) && Distinct(r)
    ensures forall x :: x in r <==> x in s
  {
    TextOrderIsTotal();
    var rest := s;
    r := [];
    while rest != {}
      invariant rest <= s
      invariant SortedBy(TextLe, r) && Distinct(r)
      invariant forall x :: x in r <==> x in s - rest
    {
      var x :| x in rest;
      InsertKeepsSorted(TextLe, x, r);
      InsertKeepsDistinct(x, r);
      r := Insert(TextLe, x, r);
      rest := rest - {x};
    }
  }

  lemma InsertKeepsDistinct(x: Text, s: seq<Text>)
    requires Distinct(s) && x !in s
    ensures Distinct(Insert(TextLe, x, s))
    ensures forall y :: y in Insert(TextLe, x, s) <==> y == x || y in s
  {
    var r := Insert(TextLe, x, s);
    DistinctMultiset(s);
    DistinctMultiset(r);
    assert forall y :: (y in r <==> y in multiset(r)) && (y in s <==> y in multiset(s));
  }

  /** `validate_live_ancestors`: collects missing ancestors, rejecting a file or link above a root. */
  method ValidateLiveAncestors(ws: Workspace, root: Text, missing: set<Text>) returns (r: Option<set<Text>>)
    ensures r.None? <==> Ancestors(root) * ws.others != {}
    ensures r.Some? ==> r.value == missing + (Ancestors(root) - ws.dirs)
  {
    var found := missing;
    for k := 0 to |root|
      invariant found == missing + (set i | 0 <= i < k && root[i] == SLASH && root[..i] !in ws.dirs :: root[..i])
      invariant forall i :: 0 <= i < k && root[i] == SLASH ==> root[..i] !in ws.others
    {
      if root[k] == SLASH {
        var relative := root[..k];
        if relative in ws.others {
          assert relative in Ancestors(root) * ws.others;
          return None;
        }
        if relative !in ws.dirs {
          found := found + {relative};
        }
      }
    }
    r := Some(found);
  }

  /** `inspect_live_roots`. */
  method InspectLiveRoots(ws: Workspace, roots: seq<Text>) returns (r: Option<Journal>)
    requires WellFormed(ws)
    ensures r.None? <==> exists i :: 0 <= i < |roots| && Ancestors(roots[i]) * ws.others != {}
    ensures r.Some? ==> RootPaths(r.value.roots) == roots
    ensures r.Some? ==> forall e :: e in r.value.roots ==> (e.hadOriginal <==> e.path in ws.dirs + ws.others)
    ensures r.Some? ==> SortedBy(TextLe, r.value.createdParents) && Distinct(r.value.createdParents)
    ensures r.Some? ==> forall d :: d in r.value.createdParents <==> AboveSomeRoot(d, roots) && d !in ws.dirs
  {
    var entries: seq<Root> := [];
    var created: set<Text> := {};
    for i := 0 to |roots|
      invariant |entries| == i
      invariant forall k :: 0 <= k < i ==> Ancestors(roots[k]) * ws.others == {}
      invariant forall k :: 0 <= k < i ==> entries[k] == Root(roots[k], roots[k] in ws.dirs + ws.others)
      invariant forall d :: d in created <==> AboveSomeRoot(d, roots[..i]) && d !in ws.dirs
    {
      var step := ValidateLiveAncestors(ws, roots[i], created);
      if step.None? {
        return None;
      }
      assert forall d :: AboveSomeRoot(d, roots[..i + 1]) <==> AboveSomeRoot(d, roots[..i]) || d in Ancestors(roots[i]) by {
        assert roots[..i + 1] == roots[..i] + [roots[i]];
        forall d | d in Ancestors(roots[i]) ensures AboveSomeRoot(d, roots[..i + 1]) {
          assert d in Ancestors(roots[..i + 1][i]);
        }
        forall d | AboveSomeRoot(d, roots[..i]) ensures AboveSomeRoot(d, roots[..i + 1]) {
          var k :| 0 <= k < i && d in Ancestors(roots[..i][k]);
          assert d in Ancestors(roots[..i + 1][k]);
        }
      }
      created := step.value;
      entries := entries + [Root(roots[i], roots[i] in ws.dirs + ws.others)];
    }
    assert roots[..|roots|] == roots;
    var parents := SortedElements(created);
    r := Some(Journal(entries, parents));
  }
}
