/** Ordered input patterns and the traversal each one needs (`fileset.rs`). */
module Patterns {
  import opened Orders
  import opened Paths

  type Name = Text
  /** A path below the workspace root, component by component. */
  type Path = seq<Name>

  /** One `/`-separated part of a pattern; `Meta` accepts exactly one component. */
  datatype Part = Literal(name: Name) | Meta(accepts: Name -> bool) | DoubleStar

  /** The glob rule: `**` spans any number of components, at least one when it comes last. */
  predicate GlobMatches(parts: seq<Part>, path: Path)
    decreases |parts| + |path|
  {
    if parts == [] then path == []
    else match parts[0]
      case Literal(name) => path != [] && path[0] == name && GlobMatches(parts[1..], path[1..])
      case Meta(accepts) => path != [] && accepts(path[0]) && GlobMatches(parts[1..], path[1..])
      case DoubleStar =>
        if |parts| == 1 then path != []
        else GlobMatches(parts[1..], path) || (path != [] && GlobMatches(parts, path[1..]))
  }

  datatype InputPattern = InputPattern(
    parts: seq<Part>, scanRoot: Path, maxDepth: Option<nat>, excluded: bool, requireDirectory: bool)

  function LiteralPrefix(parts: seq<Part>): (prefix: Path)
    ensures |prefix| <= |parts|
  {
    if parts == [] || !parts[0].Literal? then [] else [parts[0].name] + LiteralPrefix(parts[1..])
  }

  ghost predicate HasDoubleStar(parts: seq<Part>) { exists i :: 0 <= i < |parts| && parts[i].DoubleStar? }

  /** The traversal data agree with the parts they were derived from. */
  ghost predicate WellParsed(p: InputPattern) {
    && p.parts != [] && p.scanRoot == LiteralPrefix(p.parts)
    && (p.maxDepth.None? <==> HasDoubleStar(p.parts))
    && (p.maxDepth.Some? ==> p.maxDepth.value == |p.parts| - |p.scanRoot|)
  }

  /** `scan_root`: push literal parts until the first one with a metacharacter. */
  method ScanRoot(parts: seq<Part>) returns (root: Path)
    ensures root == LiteralPrefix(parts)
  {
    root := [];
    var i := 0;
    while i < |parts| && parts[i].Literal?
      invariant 0 <= i <= |parts|
      invariant LiteralPrefix(parts) == root + LiteralPrefix(parts[i..])
    {
      assert parts[i..][1..] == parts[i + 1..];
      root := root + [parts[i].name];
      i := i + 1;
    }
  }

  /** `scan_depth`: parts from the first metacharacter on, or no bound once `**` occurs. */
  method ScanDepth(parts: seq<Part>) returns (depth: Option<nat>)
    ensures depth.None? <==> HasDoubleStar(parts)
    ensures depth.Some? ==> depth.value == |parts| - |LiteralPrefix(parts)|
  {
    var started := false;
    var count := 0;
    for i := 0 to |parts|
      invariant !HasDoubleStar(parts[..i])
      invariant count <= i
      invariant started ==> count == i - |LiteralPrefix(parts)|
      invariant !started ==> count == 0 && |LiteralPrefix(parts)| == i + |LiteralPrefix(parts[i..])|
    {
      assert parts[..i + 1] == parts[..i] + [parts[i]];
      assert parts[i..][1..] == parts[i + 1..];
      if started || !parts[i].Literal? {
        started := true;
        if parts[i].DoubleStar? {
          return None;
        }
        count := count + 1;
      }
    }
    assert parts[..|parts|] == parts;
    depth := Some(count);
  }

  /** The derived fields of a pattern. */
  method Derive(parts: seq<Part>, excluded: bool, requireDirectory: bool) returns (p: InputPattern)
    requires parts != []
    ensures WellParsed(p) && p.parts == parts && p.excluded == excluded && p.requireDirectory == requireDirectory
  {
    var root := ScanRoot(parts);
    var depth := ScanDepth(parts);
    p := InputPattern(parts, root, depth, excluded, requireDirectory);
  }

  const BANG: Byte := 33
  const STAR: Byte := 42
  const QUESTION: Byte := 63
  const BRACKET: Byte := 91

  /** A leading `!` excludes; `\!` stands for a literal one. */
  function Body(value: Text): Text {
    if [BACKSLASH, BANG] <= value then [BANG] + value[2..] else if [BANG] <= value then value[1..] else value
  }

  predicate Excludes(value: Text) { [BANG] <= value }

  /** `trim_end_matches('/')`. */
  function Trimmed(text: Text): (r: Text)
    ensures |r| <= |text|
  {
    if text != [] && text[|text| - 1] == SLASH then Trimmed(text[..|text| - 1]) else text
  }

  predicate PortablePattern(text: Text) {
    && text != [] && |text| <= MAX_CACHE_STRING_BYTES && text[0] != SLASH
    && BACKSLASH !in text && COLON !in text && !HasControl(text)
    && forall p :: p in Split(Trimmed(text)) ==> NormalPart(p)
  }

  predicate HasMetacharacters(name: Name) { STAR in name || QUESTION in name || BRACKET in name }

  /** One component; `compile` is the glob library's reading of one with metacharacters, if it is valid. */
  function PartOf(compile: Name -> Option<Name -> bool>, name: Name): Option<Part> {
    if !HasMetacharacters(name) then Some(Literal(name))
    else if name == [STAR, STAR] then Some(DoubleStar)
    else match compile(name)
      case Some(accepts) => Some(Meta(accepts))
      case None => None
  }

  /** The parts are the readings of the names, one by one. */
  ghost predicate Reads(compile: Name -> Option<Name -> bool>, names: seq<Name>, parts: seq<Part>) {
    |parts| == |names| && forall i :: 0 <= i < |names| ==> PartOf(compile, names[i]) == Some(parts[i])
  }

  method Trim(text: Text) returns (r: Text)
    ensures r == Trimmed(text)
  {
    r := text;
    while r != [] && r[|r| - 1] == SLASH
      invariant Trimmed(r) == Trimmed(text)
    {
      r := r[..|r| - 1];
    }
  }

  /** Compiling every component: none if one of them is invalid. */
  method Compile(compile: Name -> Option<Name -> bool>, names: seq<Name>) returns (r: Option<seq<Part>>)
    ensures r.None? <==> exists i :: 0 <= i < |names| && PartOf(compile, names[i]).None?
    ensures r.Some? ==> Reads(compile, names, r.value)
  {
    var parts: seq<Part> := [];
    for i := 0 to |names|
      invariant Reads(compile, names[..i], parts)
    {
      var part := PartOf(compile, names[i]);
      if part.None? {
        return None;
      }
      parts := parts + [part.value];
      assert names[..i + 1] == names[..i] + [names[i]];
    }
    assert names[..|names|] == names;
    r := Some(parts);
  }

  /** `InputPattern::parse`: accepts exactly the portable texts whose components compile. */
  method Parse(compile: Name -> Option<Name -> bool>, value: Text) returns (r: Option<InputPattern>)
    ensures r.Some? <==> PortablePattern(Body(value)) && forall n :: n in Split(Trimmed(Body(value))) ==> PartOf(compile, n).Some?
    ensures r.Some? ==> WellParsed(r.value) && Reads(compile, Split(Trimmed(Body(value))), r.value.parts)
    ensures r.Some? ==> (r.value.excluded <==> Excludes(value)) && (r.value.requireDirectory <==> Trimmed(Body(value)) != Body(value))
  {
    var text := Body(value);
    if !PortablePattern(text) {
      return None;
    }
    var trimmed := Trim(text);
    var names := Split(trimmed);
    var parts := Compile(compile, names);
    if parts.None? {
      return None;
    }
    var p := Derive(parts.value, Excludes(value), text[|text| - 1] == SLASH);
    r := Some(p);
  }

  /** `InputPattern::matches`. */
  predicate Matches(p: InputPattern, path: Path, isDirectory: bool) {
    GlobMatches(p.parts, path) && (!p.requireDirectory || isDirectory)
  }

  /** `InputPattern::may_match_below`. */
  predicate MayMatchBelow(p: InputPattern, directory: Path) {
    && !p.excluded
    && (|| (directory <= p.scanRoot && p.scanRoot != directory)
        || (p.scanRoot <= directory && (p.maxDepth.None? || |directory| - |p.scanRoot| < p.maxDepth.value)))
  }

  /** A match starts with the literal prefix, and without `**` it is as long as the pattern. */
  lemma {:induction false} MatchShape(parts: seq<Part>, path: Path)
    requires GlobMatches(parts, path)
    ensures LiteralPrefix(parts) <= path
    ensures !HasDoubleStar(parts) ==> |path| == |parts|
    decreases |parts| + |path|
  {
    if parts != [] && !parts[0].DoubleStar? {
      MatchShape(parts[1..], path[1..]);
      if !HasDoubleStar(parts) {
        forall i | 0 <= i < |parts[1..]| ensures !parts[1..][i].DoubleStar? { assert !parts[i + 1].DoubleStar?; }
      }
      assert path == [path[0]] + path[1..];
    }
  }

  /** Pruning is safe: a directory above a match is never reported as hopeless. */
  lemma PruningIsSafe(p: InputPattern, path: Path, directory: Path)
    requires WellParsed(p) && !p.excluded && GlobMatches(p.parts, path)
    requires directory <= path && directory != path
    ensures MayMatchBelow(p, directory)
  {
    MatchShape(p.parts, path);
    if |directory| < |p.scanRoot| {
      assert directory == path[..|directory|] == p.scanRoot[..|directory|];
    } else {
      assert p.scanRoot == path[..|p.scanRoot|] == directory[..|p.scanRoot|];
    }
  }

  /** `path` lies at or below one of `roots`. */
  predicate Under(roots: seq<Path>, path: Path) { exists k :: 0 <= k < |roots| && roots[k] <= path }

  /** No root lies at or below another. */
  ghost predicate Incomparable(roots: seq<Path>) {
    forall a, b :: 0 <= a < |roots| && 0 <= b < |roots| && a != b ==> !(roots[a] <= roots[b])
  }

  ghost predicate IsIncludeRoot(patterns: seq<InputPattern>, root: Path) {
    exists i :: 0 <= i < |patterns| && !patterns[i].excluded && patterns[i].scanRoot == root
  }

  method IncludeRoots(patterns: seq<InputPattern>) returns (roots: seq<Path>)
    ensures forall r :: r in roots <==> IsIncludeRoot(patterns, r)
  {
    roots := [];
    for i := 0 to |patterns|
      invariant forall r :: r in roots <==> exists k :: 0 <= k < i && !patterns[k].excluded && patterns[k].scanRoot == r
    {
      if !patterns[i].excluded {
        roots := roots + [patterns[i].scanRoot];
      }
    }
  }

  /** The filter of `minimal_scan_roots` over sorted roots. */
  method KeepMinimal(sorted: seq<Path>) returns (minimal: seq<Path>)
    requires SortedBy(PathLe, sorted)
    ensures Incomparable(minimal)
    ensures forall m :: m in minimal ==> m in sorted
    ensures forall k :: 0 <= k < |sorted| ==> Under(minimal, sorted[k])
  {
    minimal := [];
    for i := 0 to |sorted|
      invariant KeptUpTo(sorted, minimal, i)
    {
      if !Under(minimal, sorted[i]) {
        KeepNewRoot(sorted, minimal, i);
        minimal := minimal + [sorted[i]];
      }
    }
  }

  ghost predicate KeptUpTo(sorted: seq<Path>, minimal: seq<Path>, i: nat)
    requires i <= |sorted|
  {
    && Incomparable(minimal)
    && (forall a :: 0 <= a < |minimal| ==> minimal[a] in sorted[..i])
    && (forall k :: 0 <= k < i ==> Under(minimal, sorted[k]))
  }

  lemma KeepNewRoot(sorted: seq<Path>, minimal: seq<Path>, i: nat)
    requires SortedBy(PathLe, sorted) && i < |sorted| && KeptUpTo(sorted, minimal, i) && !Under(minimal, sorted[i])
    ensures KeptUpTo(sorted, minimal + [sorted[i]], i + 1)
  {
    var more := minimal + [sorted[i]];
    StaysIncomparable(sorted, minimal, i);
    forall k | 0 <= k <= i ensures Under(more, sorted[k]) {
      UnderGrows(minimal, sorted[i], sorted[k]);
    }
    forall a | 0 <= a < |more| ensures more[a] in sorted[..i + 1] {
      StaysListed(sorted, minimal, i, a);
    }
  }

  lemma StaysIncomparable(sorted: seq<Path>, minimal: seq<Path>, i: nat)
    requires SortedBy(PathLe, sorted) && i < |sorted| && KeptUpTo(sorted, minimal, i) && !Under(minimal, sorted[i])
    ensures Incomparable(minimal + [sorted[i]])
  {
    NewRootIsHigher(sorted, minimal, i);
  }

  lemma StaysListed(sorted: seq<Path>, minimal: seq<Path>, i: nat, a: nat)
    requires i < |sorted| && a <= |minimal| && (a < |minimal| ==> minimal[a] in sorted[..i])
    ensures (minimal + [sorted[i]])[a] in sorted[..i + 1]
  {
    assert sorted[..i + 1] == sorted[..i] + [sorted[i]];
  }

  lemma UnderGrows(minimal: seq<Path>, root: Path, path: Path)
    requires Under(minimal, path) || root <= path
    ensures Under(minimal + [root], path)
  {
    var r := minimal + [root];
    assert r[|minimal|] == root;
    if k :| 0 <= k < |minimal| && minimal[k] <= path {
      assert r[k] <= path;
    }
  }

  lemma NewRootIsHigher(sorted: seq<Path>, minimal: seq<Path>, i: nat)
    requires SortedBy(PathLe, sorted) && i < |sorted| && !Under(minimal, sorted[i])
    requires forall a :: 0 <= a < |minimal| ==> minimal[a] in sorted[..i]
    ensures forall a :: 0 <= a < |minimal| ==> !(sorted[i] <= minimal[a]) && !(minimal[a] <= sorted[i])
  {
    forall a | 0 <= a < |minimal| ensures !(sorted[i] <= minimal[a]) {
      var k :| 0 <= k < i && sorted[..i][k] == minimal[a];
      if sorted[i] <= minimal[a] {
        PrefixSortsFirst(sorted[i], minimal[a]);
      }
    }
  }

  /** `minimal_scan_roots`: sort, then keep roots below no kept root (which drops duplicates). */
  method MinimalScanRoots(patterns: seq<InputPattern>) returns (minimal: seq<Path>)
    ensures Incomparable(minimal)
    ensures forall m :: m in minimal ==> IsIncludeRoot(patterns, m)
    ensures forall r :: IsIncludeRoot(patterns, r) ==> Under(minimal, r)
  {
    var roots := IncludeRoots(patterns);
    var sorted := Sort(PathLe, roots);
    SortedPaths(roots);
    minimal := KeepMinimal(sorted);
    forall r | IsIncludeRoot(patterns, r) ensures Under(minimal, r) {
      assert r in sorted;
    }
  }

  lemma SortedPaths(roots: seq<Path>)
    ensures SortedBy(PathLe, Sort(PathLe, roots))
    ensures forall r :: r in Sort(PathLe, roots) <==> r in roots
  {
    PathOrderIsTotal();
    SortIsSorted(PathLe, roots);
    var sorted := Sort(PathLe, roots);
    assert forall r :: (r in sorted <==> r in multiset(sorted)) && (r in roots <==> r in multiset(roots));
  }

  lemma PrefixSortsFirst(a: Path, b: Path)
    requires a <= b && PathLe(b, a)
    ensures a == b
  {
    LexPrefix(TextLe, a, b);
    PathOrderIsTotal();
  }
}
