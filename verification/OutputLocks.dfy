/** Striped output locks shared by capture, restore and recovery (`restore.rs`, `locking.rs`). */
module OutputLocks {
  import opened Orders
  import opened Paths
  import opened Roots

  // ---------------------------------------------------------------- which stripes are taken

  /** A root and everything above it. */
  function KeysOf(root: Text): set<Text> { Ancestors(root) + {root} }

  /** `k` joins the first parts of a path, at most `limit` of them. */
  ghost predicate JoinsFirst(parts: seq<Text>, limit: nat, k: Text)
    requires limit <= |parts|
  {
    exists n :: 0 < n <= limit && k == Join(parts[..n])
  }

  /** The prefix loop of `lock_output_paths` for one root. */
  method PrefixKeys(root: Text, keys: set<Text>) returns (r: set<Text>)
    requires Valid(root) && root != ROOT
    ensures r == keys + KeysOf(root)
  {
    var parts := Split(root);
    var prefix: Text := [];
    r := keys;
    for i := 0 to |parts|
      invariant prefix == Join(parts[..i])
      invariant forall k :: k in r <==> k in keys || JoinsFirst(parts, i, k)
    {
      JoinOneMore(parts, i);
      if prefix != [] {
        prefix := prefix + [SLASH];
      }
      prefix := prefix + parts[i];
      r := r + {prefix};
    }
    forall k ensures k in KeysOf(root) <==> JoinsFirst(parts, |parts|, k) {
      KeyIsPrefix(root, k);
    }
  }

  lemma JoinOneMore(parts: seq<Text>, i: nat)
    requires i < |parts| && forall p :: p in parts ==> p != []
    ensures Join(parts[..i + 1]) == (if i == 0 then parts[0] else Join(parts[..i]) + [SLASH] + parts[i])
    ensures i > 0 ==> Join(parts[..i]) != []
  {
    if i > 0 {
      assert parts[..i + 1] == parts[..i] + [parts[i]];
      JoinAppend(parts[..i], [parts[i]]);
      assert parts[0] in parts;
      assert parts[..i][0] == parts[0];
    }
  }

  lemma KeyIsPrefix(root: Text, k: Text)
    ensures k in KeysOf(root) <==> JoinsFirst(Split(root), |Split(root)|, k)
  {
    var parts := Split(root);
    JoinSplit(root);
    assert parts[..|parts|] == parts;
    AncestorsAreStrict(k, root);
    if k in Ancestors(root) {
      assert root == k + [SLASH] + root[|k| + 1..];
      SplitAppend(k, root[|k| + 1..]);
      assert parts[..|Split(k)|] == Split(k);
      JoinSplit(k);
    }
    if n :| 0 < n < |parts| && k == Join(parts[..n]) {
      assert parts == parts[..n] + parts[n..];
      JoinAppend(parts[..n], parts[n..]);
    }
  }

  /** Stripes a set of roots maps to, for an arbitrary stripe function. */
  ghost predicate HasStripe(shard: Text -> nat, roots: seq<Text>, stripe: nat) {
    exists i, k :: 0 <= i < |roots| && k in KeysOf(roots[i]) && shard(k) == stripe
  }

  predicate Ascending(s: seq<nat>) { forall i, j :: 0 <= i < j < |s| ==> s[i] < s[j] }

  /** The stripes of a root set, in the order they are locked. */
  ghost predicate GuardFor(shard: Text -> nat, roots: seq<Text>, guard: seq<nat>) {
    Ascending(guard) && forall x :: x in guard <==> HasStripe(shard, roots, x)
  }

  /** `lock_output_paths` up to the acquisition loop: the distinct stripes in ascending order. */
  method StripesOf(shard: Text -> nat, roots: seq<Text>) returns (stripes: seq<nat>)
    requires forall r :: r in roots ==> Valid(r) && r != ROOT
    ensures GuardFor(shard, roots, stripes)
  {
    var keys: set<Text> := {};
    for i := 0 to |roots|
      invariant forall k :: k in keys <==> exists n :: 0 <= n < i && k in KeysOf(roots[n])
    {
      keys := PrefixKeys(roots[i], keys);
    }
    var pool := set k | k in keys :: shard(k);
    stripes := [];
    var rest := pool;
    while rest != {}
      invariant rest <= pool
      invariant Ascending(stripes)
      invariant forall x :: x in stripes <==> x in pool - rest
      invariant forall x, y :: x in stripes && y in rest ==> x < y
    {
      var m := Smallest(rest);
      assert forall i :: 0 <= i < |stripes| ==> stripes[i] in stripes;
      stripes := stripes + [m];
      rest := rest - {m};
    }
    forall x ensures x in pool <==> HasStripe(shard, roots, x) {
      if HasStripe(shard, roots, x) {
        var i, k :| 0 <= i < |roots| && k in KeysOf(roots[i]) && shard(k) == x;
        assert k in keys;
      }
    }
  }

  method Smallest(s: set<nat>) returns (m: nat)
    requires s != {}
    ensures m in s && forall x :: x in s ==> m <= x
  {
    m :| m in s;
    var rest := s - {m};
    while rest != {}
      invariant rest <= s && m in s
      invariant forall x :: x in s ==> x in rest || m <= x
    {
      var x :| x in rest;
      if x < m { m := x; }
      rest := rest - {x};
    }
  }

  /** Nested or equal roots always meet on a stripe, whatever the stripe function. */
  lemma OverlapSharesStripe(shard: Text -> nat, a: seq<Text>, b: seq<Text>, i: nat, k: nat)
    requires i < |a| && k < |b| && (a[i] == b[k] || a[i] in Ancestors(b[k]))
    ensures HasStripe(shard, a, shard(a[i])) && HasStripe(shard, b, shard(a[i]))
  {
  }

  // ---------------------------------------------------------------- processes

  /** The recovery lock: captures ignore it, restores share it, recovery excludes everybody. */
  datatype Mode = Unused | Shared | Exclusive

  /** One process. Of its current guard it has locked the first `taken` stripes; afterwards it
      takes the guards in `later` (one per journal for a recovery). */
  datatype Proc = Proc(mode: Mode, admitted: bool, guard: seq<nat>, taken: nat, later: seq<seq<nat>>, done: bool)

  type System = seq<Proc>

  predicate Holds(q: Proc, stripe: nat) { q.taken <= |q.guard| && stripe in q.guard[..q.taken] }

  /** The caller of `lock_output_paths` has its whole guard. */
  predicate Complete(q: Proc) { q.admitted && q.taken == |q.guard| }

  predicate MayEnter(s: System, mode: Mode) {
    match mode
    case Unused => true
    case Shared => forall i :: 0 <= i < |s| && s[i].admitted ==> s[i].mode != Exclusive
    case Exclusive => forall i :: 0 <= i < |s| && s[i].admitted ==> s[i].mode == Unused
  }

  /** `lock_recovery`, which captures skip. */
  predicate Enter(s: System, t: System, p: nat) {
    && p < |s| && !s[p].done && !s[p].admitted && MayEnter(s, s[p].mode)
    && t == s[p := s[p].(admitted := true)]
  }

  /** One turn of the acquisition loop. */
  predicate Acquire(s: System, t: System, p: nat) {
    && p < |s| && s[p].admitted && s[p].taken < |s[p].guard|
    && (forall i :: 0 <= i < |s| ==> !Holds(s[i], s[p].guard[s[p].taken]))
    && t == s[p := s[p].(taken := s[p].taken + 1)]
  }

  function AfterRelease(q: Proc): Proc {
    if q.later == [] then q.(admitted := false, taken := 0, done := true)
    else q.(taken := 0, guard := q.later[0], later := q.later[1..])
  }

  /** Dropping a complete guard; a recovery goes on to its next journal. */
  predicate Release(s: System, t: System, p: nat) {
    p < |s| && Complete(s[p]) && t == s[p := AfterRelease(s[p])]
  }

  /** An operation that fails, at a lock call or elsewhere, drops whatever it holds. */
  predicate Abandon(s: System, t: System, p: nat) {
    p < |s| && !s[p].done && t == s[p := s[p].(admitted := false, taken := 0, later := [], done := true)]
  }

  predicate Progress(s: System, t: System, p: nat) { Enter(s, t, p) || Acquire(s, t, p) || Release(s, t, p) }

  predicate Step(s: System, t: System, p: nat) { Progress(s, t, p) || Abandon(s, t, p) }

  /** Any number of processes, each with ascending guards, none admitted yet. */
  ghost predicate Start(s: System) {
    forall i :: 0 <= i < |s| ==>
      && !s[i].admitted && !s[i].done && s[i].taken == 0 && Ascending(s[i].guard)
      && forall g :: g in s[i].later ==> Ascending(g)
  }

  ghost predicate ProcOk(q: Proc) {
    && Ascending(q.guard) && (forall g :: g in q.later ==> Ascending(g))
    && q.taken <= |q.guard| && (!q.admitted ==> q.taken == 0) && (q.done ==> !q.admitted)
  }

  ghost predicate Inv(s: System) {
    && (forall i :: 0 <= i < |s| ==> ProcOk(s[i]))
    && (forall i, k, x :: 0 <= i < |s| && 0 <= k < |s| && i != k && Holds(s[i], x) ==> !Holds(s[k], x))
    && (forall i, k :: 0 <= i < |s| && 0 <= k < |s| && i != k && s[i].admitted && s[k].admitted && s[i].mode == Exclusive ==>
          s[k].mode == Unused)
  }

  lemma StepKeepsInv(s: System, t: System, p: nat)
    requires Inv(s) && Step(s, t, p)
    ensures Inv(t) && |t| == |s|
  {
    var q := t[p];
    assert ProcOk(s[p]);
    if Release(s, t, p) && s[p].later != [] {
      assert s[p].later[0] in s[p].later;
      assert forall g :: g in q.later ==> g in s[p].later;
    }
    assert ProcOk(q);
    if Acquire(s, t, p) {
      var x := s[p].guard[s[p].taken];
      assert q.guard[..q.taken] == s[p].guard[..s[p].taken] + [x];
      assert forall y :: Holds(q, y) <==> Holds(s[p], y) || y == x;
    } else {
      assert forall y :: Holds(q, y) ==> Holds(s[p], y);
    }
  }

  ghost predicate SomeStep(s: System, t: System) { exists p :: Step(s, t, p) }

  /** A finite run from a start state. */
  ghost predicate Run(states: seq<System>) {
    && |states| > 0 && Start(states[0])
    && forall n :: 0 <= n < |states| - 1 ==> SomeStep(states[n], states[n + 1])
  }

  lemma {:induction false} RunKeepsInv(states: seq<System>, n: nat)
    requires Run(states) && n < |states|
    ensures Inv(states[n])
  {
    if n > 0 {
      RunKeepsInv(states, n - 1);
      assert SomeStep(states[n - 1], states[(n - 1) + 1]);
      var p :| Step(states[n - 1], states[n], p);
      StepKeepsInv(states[n - 1], states[n], p);
    }
  }

  /** Holders of overlapping root sets exclude each other. */
  lemma OverlappingHoldersExclude(shard: Text -> nat, states: seq<System>, n: nat, p: nat, q: nat,
                                  a: seq<Text>, b: seq<Text>, i: nat, k: nat)
    requires Run(states) && n < |states| && p < |states[n]| && q < |states[n]| && p != q
    requires GuardFor(shard, a, states[n][p].guard) && GuardFor(shard, b, states[n][q].guard)
    requires i < |a| && k < |b| && (a[i] == b[k] || a[i] in Ancestors(b[k]) || b[k] in Ancestors(a[i]))
    ensures !(Complete(states[n][p]) && Complete(states[n][q]))
  {
    RunKeepsInv(states, n);
    var s := states[n];
    var stripe := if b[k] in Ancestors(a[i]) then shard(b[k]) else shard(a[i]);
    if b[k] in Ancestors(a[i]) { OverlapSharesStripe(shard, b, a, k, i); }
    else { OverlapSharesStripe(shard, a, b, i, k); }
    assert stripe in s[p].guard && stripe in s[q].guard;
    if Complete(s[p]) && Complete(s[q]) {
      assert s[p].guard[..|s[p].guard|] == s[p].guard && s[q].guard[..|s[q].guard|] == s[q].guard;
      assert Holds(s[p], stripe) && Holds(s[q], stripe);
    }
  }

  /** Recovery runs alone among the processes that register with the recovery lock. */
  lemma RecoveryExcludes(states: seq<System>, n: nat, p: nat, q: nat)
    requires Run(states) && n < |states| && p < |states[n]| && q < |states[n]| && p != q
    requires states[n][p].admitted && states[n][p].mode == Exclusive && states[n][q].admitted
    ensures states[n][q].mode == Unused
  {
    RunKeepsInv(states, n);
  }

  predicate Waiting(q: Proc) { q.admitted && q.taken < |q.guard| }

  function Wanted(q: Proc): nat
    requires Waiting(q)
  {
    q.guard[q.taken]
  }

  /** A process waiting for the largest stripe, among the first `n`. */
  lemma {:induction false} LargestWaiter(s: System, n: nat) returns (p: nat)
    requires n <= |s| && exists i :: 0 <= i < n && Waiting(s[i])
    ensures p < n && Waiting(s[p])
    ensures forall i :: 0 <= i < n && Waiting(s[i]) ==> Wanted(s[i]) <= Wanted(s[p])
  {
    if !Waiting(s[n - 1]) {
      p := LargestWaiter(s, n - 1);
    } else if !exists i :: 0 <= i < n - 1 && Waiting(s[i]) {
      p := n - 1;
    } else {
      p := LargestWaiter(s, n - 1);
      if Wanted(s[p]) < Wanted(s[n - 1]) { p := n - 1; }
    }
  }

  lemma HolderWaitsHigher(q: Proc, x: nat)
    requires ProcOk(q) && Holds(q, x)
    ensures q.admitted && (Waiting(q) ==> x < Wanted(q))
  {
  }

  ghost predicate SomeProgress(s: System, t: System) { exists p :: Progress(s, t, p) }

  /** In every reachable state some unfinished process can move without giving up. */
  lemma NoDeadlock(states: seq<System>, n: nat)
    requires Run(states) && n < |states|
    requires exists i :: 0 <= i < |states[n]| && !states[n][i].done
    ensures exists t :: SomeProgress(states[n], t)
  {
    var s := states[n];
    RunKeepsInv(states, n);
    if p: nat :| p < |s| && Complete(s[p]) {
      assert Progress(s, s[p := AfterRelease(s[p])], p);
      assert SomeProgress(s, s[p := AfterRelease(s[p])]);
    } else if exists i :: 0 <= i < |s| && Waiting(s[i]) {
      var p := LargestWaiter(s, |s|);
      forall i | 0 <= i < |s| ensures !Holds(s[i], Wanted(s[p])) {
        if Holds(s[i], Wanted(s[p])) {
          HolderWaitsHigher(s[i], Wanted(s[p]));
        }
      }
      var t := s[p := s[p].(taken := s[p].taken + 1)];
      assert Progress(s, t, p);
      assert SomeProgress(s, t);
    } else {
      var p: nat :| p < |s| && !s[p].done;
      assert forall i :: 0 <= i < |s| ==> ProcOk(s[i]);
      var t := s[p := s[p].(admitted := true)];
      assert Progress(s, t, p);
      assert SomeProgress(s, t);
    }
  }
}
