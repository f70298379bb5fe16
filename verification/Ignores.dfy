/** Hierarchical `.octaignore` filtering (`IgnoreFilter` of `fileset.rs`). */
module Ignores {
  import opened Orders
  import opened Patterns

  /** What one ignore file says about one path. */
  datatype Verdict = Ignore | Whitelist | NoMatch

  /** The ignore files of a workspace: which directories have one, and what each decides. */
  datatype Rules = Rules(present: Path -> bool, verdict: (Path, Path, bool) -> Verdict)

  /** `.octa`, the reserved workspace state directory. */
  const STATE_DIRECTORY: Name := [46, 111, 99, 116, 97]

  /** The deepest ignore file with an opinion decides. */
  predicate Decide(rules: Rules, active: seq<Path>, path: Path, isDirectory: bool) {
    if active == [] then false
    else match rules.verdict(active[|active| - 1], path, isDirectory)
      case Ignore => true
      case Whitelist => false
      case NoMatch => Decide(rules, active[..|active| - 1], path, isDirectory)
  }

  /** Directories with an ignore file among `path[..0]`, ..., `path[..n]`, outermost first. */
  function ActiveDirs(rules: Rules, path: Path, n: nat): seq<Path>
    requires n <= |path|
  {
    (if n == 0 then [] else ActiveDirs(rules, path, n - 1)) +
    (if rules.present(path[..n]) then [path[..n]] else [])
  }

  /** The directory `n` levels down on the way to `path` is itself ignored. */
  predicate IgnoredAt(rules: Rules, path: Path, n: nat)
    requires 1 <= n <= |path|
  {
    Decide(rules, ActiveDirs(rules, path, n - 1), path[..n], true)
  }

  /** Reserved state, an ignored directory above, or the path itself; the workspace root is
      judged by its own ignore file. */
  predicate Ignored(rules: Rules, path: Path, isDirectory: bool) {
    || (path != [] && path[0] == STATE_DIRECTORY)
    || (exists n :: 1 <= n < |path| && IgnoredAt(rules, path, n))
    || Decide(rules, ActiveDirs(rules, path, if path == [] then 0 else |path| - 1), path, isDirectory)
  }

  lemma {:induction false} SharedAncestors(rules: Rules, a: Path, b: Path, n: nat)
    requires a <= b && n <= |a|
    ensures ActiveDirs(rules, a, n) == ActiveDirs(rules, b, n)
  {
    assert a[..n] == b[..n];
    if n > 0 { SharedAncestors(rules, a, b, n - 1); }
  }

  /** Pruning an ignored directory loses nothing: everything below it is ignored as well. The
      workspace root is the one exception, because its own verdict is not inherited. */
  lemma IgnoredBelow(rules: Rules, directory: Path, path: Path, isDirectory: bool)
    requires directory != [] && directory <= path && directory != path
    requires Ignored(rules, directory, true)
    ensures Ignored(rules, path, isDirectory)
  {
    if n :| 1 <= n < |directory| && IgnoredAt(rules, directory, n) {
      SameVerdictBelow(rules, directory, path, n);
    } else if directory[0] != STATE_DIRECTORY {
      assert directory[..|directory|] == directory;
      assert IgnoredAt(rules, directory, |directory|);
      SameVerdictBelow(rules, directory, path, |directory|);
    }
  }

  lemma SameVerdictBelow(rules: Rules, directory: Path, path: Path, n: nat)
    requires directory <= path && 1 <= n <= |directory|
    ensures IgnoredAt(rules, directory, n) == IgnoredAt(rules, path, n)
  {
    SharedAncestors(rules, directory, path, n - 1);
    assert directory[..n] == path[..n];
  }

  class IgnoreFilter {
    const rules: Rules
    /** Loaded directories, and whether each has a matcher. */
    var matchers: map<Path, bool>

    ghost predicate Valid()
      reads this
    {
      forall d :: d in matchers ==> matchers[d] == rules.present(d)
    }

    constructor (rules: Rules)
      ensures Valid() && this.rules == rules
    {
      this.rules := rules;
      matchers := map[];
    }

    method Load(directory: Path)
      requires Valid()
      modifies this`matchers
      ensures Valid() && directory in matchers
    {
      if directory !in matchers {
        matchers := matchers[directory := rules.present(directory)];
      }
    }

    /** `IgnoreFilter::matches`: a later, deeper file overrides an earlier one. */
    method Judge(active: seq<Path>, path: Path, isDirectory: bool) returns (ignored: bool)
      ensures ignored == Decide(rules, active, path, isDirectory)
    {
      ignored := false;
      for i := 0 to |active|
        invariant ignored == Decide(rules, active[..i], path, isDirectory)
      {
        assert active[..i + 1][..i] == active[..i];
        match rules.verdict(active[i], path, isDirectory) {
          case Ignore => ignored := true;
          case Whitelist => ignored := false;
          case NoMatch =>
        }
      }
      assert active[..|active|] == active;
    }

    /** `IgnoreFilter::is_ignored`: one descent, stopping at the first ignored directory. */
    method IsIgnored(path: Path, isDirectory: bool) returns (ignored: bool)
      requires Valid()
      modifies this`matchers
      ensures Valid() && ignored == Ignored(rules, path, isDirectory)
    {
      if path != [] && path[0] == STATE_DIRECTORY {
        return true;
      }
      var depth := if path == [] then 0 else |path| - 1;
      Load([]);
      var active: seq<Path> := if matchers[[]] then [[]] else [];
      assert path[..0] == [];
      for n := 0 to depth
        invariant Valid() && active == ActiveDirs(rules, path, n)
        invariant forall k :: 1 <= k <= n ==> !IgnoredAt(rules, path, k)
      {
        var directory := path[..n + 1];
        var hit := Judge(active, directory, true);
        assert hit == IgnoredAt(rules, path, n + 1);
        if hit {
          return true;
        }
        Load(directory);
        if matchers[directory] {
          active := active + [directory];
        }
      }
      ignored := Judge(active, path, isDirectory);
    }
  }
}
