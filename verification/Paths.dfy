/** Portable workspace-relative paths (octa-cache-protocol `path.rs`, octa-cache `workspace.rs`). */
module Paths {
  import opened Orders

  const SLASH: Byte := 47
  const DOT: Byte := 46
  const BACKSLASH: Byte := 92
  const COLON: Byte := 58
  const MAX_CACHE_STRING_BYTES := 16384
  const MAX_CACHE_LIST_ITEMS := 4096

  /** The distinguished path of the workspace root. */
  const ROOT: Text := [DOT]
  const PARENT: Text := [DOT, DOT]

  /** `char::is_control` over UTF-8: C0 and DEL are one byte, C1 is `C2 80..9F`. */
  predicate HasControl(s: Text) {
    || (exists i :: 0 <= i < |s| && (s[i] < 32 || s[i] == 127))
    || (exists i :: 0 <= i < |s| - 1 && s[i] == 194 && 128 <= s[i + 1] < 160)
  }

  /** `str::split('/')`: always at least one part, possibly empty. */
  function Split(s: Text): (parts: seq<Text>)
    ensures |parts| >= 1
    ensures forall p :: p in parts ==> SLASH !in p
  {
    if |s| == 0 then [[]]
    else if s[0] == SLASH then [[]] + Split(s[1..])
    else
      var rest := Split(s[1..]);
      [[s[0]] + rest[0]] + rest[1..]
  }

  /** `[str]::join("/")`. */
  function Join(parts: seq<Text>): Text {
    if |parts| == 0 then []
    else if |parts| == 1 then parts[0]
    else parts[0] + [SLASH] + Join(parts[1..])
  }

  predicate NormalPart(part: Text) { part != [] && part != ROOT && part != PARENT }

  /** `validate`. */
  predicate Valid(s: Text) {
    && s != [] && |s| <= MAX_CACHE_STRING_BYTES
    && (s == ROOT ||
        (&& s[0] != SLASH && BACKSLASH !in s && COLON !in s && !HasControl(s)
         && forall p :: p in Split(s) ==> NormalPart(p)))
  }

  /** The components below the workspace root that a path denotes. */
  function Components(s: Text): seq<Text> {
    if s == ROOT then [] else Split(s)
  }

  /** `p` names a directory strictly above `q`, decided on the strings. */
  predicate StrictAncestor(p: Text, q: Text) {
    |p| < |q| && p <= q && q[|p|] == SLASH
  }

  /** `RelativePath::is_within`. */
  predicate IsWithin(s: Text, root: Text) {
    root == ROOT || s == root || StrictAncestor(root, s)
  }

  lemma {:induction false} SplitAppend(a: Text, b: Text)
    ensures Split(a + [SLASH] + b) == Split(a) + Split(b)
  {
    var s := a + [SLASH] + b;
    if |a| == 0 {
      assert s[1..] == b;
    } else {
      assert s[1..] == a[1..] + [SLASH] + b;
      SplitAppend(a[1..], b);
    }
  }

  lemma {:induction false} JoinSplit(s: Text)
    ensures Join(Split(s)) == s
  {
    if |s| > 0 {
      JoinSplit(s[1..]);
      var rest := Split(s[1..]);
      if s[0] == SLASH {
        assert ([[]] + rest)[1..] == rest;
      } else {
        var parts := [[s[0]] + rest[0]] + rest[1..];
        assert parts[1..] == rest[1..];
        assert s == [s[0]] + s[1..];
      }
    }
  }

  lemma {:induction false} SplitJoin(parts: seq<Text>)
    requires |parts| >= 1 && forall p :: p in parts ==> SLASH !in p
    ensures Split(Join(parts)) == parts
  {
    SplitPlain(parts[0]);
    if |parts| > 1 {
      SplitJoin(parts[1..]);
      SplitAppend(parts[0], Join(parts[1..]));
      assert parts == [parts[0]] + parts[1..];
    } else {
      assert parts == [parts[0]];
    }
  }

  lemma {:induction false} SplitPlain(s: Text)
    requires SLASH !in s
    ensures Split(s) == [s]
  {
    if |s| > 0 {
      SplitPlain(s[1..]);
      assert [s[0]] + s[1..] == s;
    }
  }

  lemma {:induction false} JoinAppend(a: seq<Text>, b: seq<Text>)
    requires |a| >= 1 && |b| >= 1
    ensures Join(a + b) == Join(a) + [SLASH] + Join(b)
  {
    assert (a + b)[1..] == a[1..] + b;
    if |a| > 1 { JoinAppend(a[1..], b); } else { assert a[1..] + b == b; }
  }

  /** The string test of `is_within` decides exactly the component-prefix relation. */
  lemma IsWithinIsComponentPrefix(s: Text, root: Text)
    requires Valid(s) && Valid(root)
    ensures IsWithin(s, root) <==> Components(root) <= Components(s)
  {
    SplitPlain(ROOT);
    if root != ROOT {
      if StrictAncestor(root, s) {
        var tail := s[|root| + 1..];
        assert s == root + [SLASH] + tail;
        SplitAppend(root, tail);
        assert s != ROOT;
      }
      if s == ROOT {
        assert |Split(root)| >= 1;
        assert !IsWithin(s, root);
      } else if Components(root) <= Components(s) {
        JoinSplit(root);
        JoinSplit(s);
        var rest := Split(s)[|Split(root)|..];
        assert Split(s) == Split(root) + rest;
        if rest == [] {
          assert Split(s) == Split(root);
        } else {
          JoinAppend(Split(root), rest);
        }
      }
    }
  }

  /** Distinct validated strings denote distinct component sequences. */
  lemma ComponentsInjective(a: Text, b: Text)
    requires Valid(a) && Valid(b) && Components(a) == Components(b)
    ensures a == b
  {
    JoinSplit(a);
    JoinSplit(b);
  }

  /** Containment is a partial order with the workspace root on top. */
  lemma ContainmentIsPartialOrder(a: Text, b: Text, c: Text)
    requires Valid(a) && Valid(b) && Valid(c)
    ensures IsWithin(a, a) && IsWithin(a, ROOT)
    ensures IsWithin(a, b) && IsWithin(b, a) ==> a == b
    ensures IsWithin(a, b) && IsWithin(b, c) ==> IsWithin(a, c)
  {
  }

  /** A component of a host path; `Other` stands for a root or drive prefix. */
  datatype HostComponent = Normal(name: Text, utf8: bool) | CurDir | ParentDir | Other

  datatype Option<+T> = None | Some(value: T)

  /** The names of the normal components. */
  function Names(path: seq<HostComponent>): (names: seq<Text>) {
    if path == [] then []
    else (if path[0].Normal? then [path[0].name] else []) + Names(path[1..])
  }

  lemma {:induction false} NamesAppend(a: seq<HostComponent>, b: seq<HostComponent>)
    ensures Names(a + b) == Names(a) + Names(b)
  {
    if a == [] { assert a + b == b; } else {
      assert (a + b)[1..] == a[1..] + b;
      NamesAppend(a[1..], b);
    }
  }

  /** Only a leading current-directory component may accompany normal UTF-8 names. */
  ghost predicate PortableHost(path: seq<HostComponent>) {
    forall i :: 0 <= i < |path| ==>
      (path[i].Normal? && path[i].utf8) || (path[i].CurDir? && Names(path[..i]) == [])
  }

  /** `RelativePath::from_path`. Host names never contain a separator. */
  method FromPath(path: seq<HostComponent>) returns (r: Option<Text>)
    requires forall c :: c in path && c.Normal? ==> SLASH !in c.name
    ensures r.Some? ==> PortableHost(path) && Valid(r.value)
    ensures r.Some? && Names(path) != [] ==> Split(r.value) == Names(path)
    ensures r.Some? && Names(path) == [] ==> r.value == ROOT
    ensures r.None? ==> !PortableHost(path) || (Names(path) != [] && !Valid(Join(Names(path))))
  {
    var names: seq<Text> := [];
    for i := 0 to |path|
      invariant PortableHost(path[..i])
      invariant names == Names(path[..i])
      invariant forall n :: n in names ==> SLASH !in n
    {
      assert path[..i + 1] == path[..i] + [path[i]];
      NamesAppend(path[..i], [path[i]]);
      assert forall k :: 0 <= k <= i ==> path[..i + 1][..k] == path[..k];
      assert forall k :: 0 <= k <= i ==> path[..i][..k] == path[..k];
      match path[i] {
        case Normal(name, utf8) =>
          if !utf8 { return None; }
          names := names + [name];
        case CurDir =>
          if names != [] { return None; }
        case _ => return None;
      }
    }
    assert path[..|path|] == path;
    if names == [] {
      return Some(ROOT);
    }
    var text := Join(names);
    SplitJoin(names);
    r := if Valid(text) then Some(text) else None;
  }

  /** `Path::components` of a relative target: empty parts vanish, dots are special. */
  function TargetComponents(parts: seq<Text>): seq<HostComponent> {
    if parts == [] then []
    else
      var rest := TargetComponents(parts[1..]);
      if parts[0] == [] then rest
      else if parts[0] == ROOT then [CurDir] + rest
      else if parts[0] == PARENT then [ParentDir] + rest
      else [Normal(parts[0], true)] + rest
  }

  /** Walks a target from a directory, keeping the directory's own components;
      `None` when a step would leave the workspace. */
  function Resolve(at: seq<Text>, target: seq<HostComponent>): Option<seq<Text>>
    decreases |target|
  {
    if target == [] then Some(at)
    else
      match target[0]
      case CurDir => Resolve(at, target[1..])
      case Normal(name, _) => Resolve(at + [name], target[1..])
      case ParentDir => if at == [] then None else Resolve(at[..|at| - 1], target[1..])
      case Other => None
  }

  predicate PortableTarget(target: Text) {
    target != [] && target[0] != SLASH && BACKSLASH !in target && COLON !in target && !HasControl(target)
  }

  /** The directory a link lives in. */
  function LinkParent(link: Text): seq<Text> {
    Split(link)[..|Split(link)| - 1]
  }

  /** `validate_symlink_text`: a depth counter instead of a resolution. */
  method ValidateSymlinkText(link: Text, target: Text) returns (ok: bool)
    requires Valid(link)
    ensures ok <==> PortableTarget(target) && Resolve(LinkParent(link), TargetComponents(Split(target))).Some?
  {
    if !PortableTarget(target) {
      return false;
    }
    var components := TargetComponents(Split(target));
    var depth := |Split(link)| - 1;
    ghost var at := LinkParent(link);
    var i := 0;
    while i < |components|
      invariant 0 <= i <= |components|
      invariant depth == |at|
      invariant Resolve(LinkParent(link), components) == Resolve(at, components[i..])
    {
      match components[i] {
        case CurDir =>
        case Normal(name, _) =>
          depth := depth + 1;
          at := at + [name];
        case ParentDir =>
          if depth == 0 { return false; }
          depth := depth - 1;
          at := at[..|at| - 1];
        case Other => return false;
      }
      assert components[i..][1..] == components[i + 1..];
      i := i + 1;
    }
    return true;
  }

  /** `join_relative`; pushing `.` leaves a path unchanged. */
  method JoinRelative(root: seq<Text>, path: Text) returns (result: seq<Text>)
    requires Valid(path)
    ensures result == root + Components(path)
  {
    result := root;
    var parts := Split(path);
    SplitPlain(ROOT);
    for i := 0 to |parts|
      invariant result == root + (if path == ROOT then [] else parts[..i])
    {
      assert path != ROOT ==> NormalPart(parts[i]);
      if parts[i] != ROOT {
        result := result + [parts[i]];
      }
    }
  }
}
