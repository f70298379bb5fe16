/** Runs in which the commit marker is written although its write reports an error (`restore.rs`).

    The restore then rolls back a transaction that recovery takes for a committed one. Where the process dies during that
    rollback decides the end: a mixture of outputs, a missing output, or two markers that contradict each other. */
module TornCommit {
  import opened Roots
  import opened Restore
  import opened Paths
  import opened Orders

  /** `n` steps without a fault, and then these. */
  function Delayed(n: nat, faults: seq<Fault>): seq<Fault> { seq(n, _ => Healthy) + faults }

  /** The marker is torn, and the rollback dies after `k` steps. */
  function TornScript(j: Journal, k: nat): seq<Fault> { Delayed(MarkerAt(j), [FailAfter] + Delayed(k, [Crash])) }

  lemma TornScriptTears(j: Journal, k: nat)
    requires !FastPath(j)
    ensures Tears(j, TornScript(j, k)) && DiesAfter(TornScript(j, k), MarkerAt(j) + 1, k)
  {
    var n, script := MarkerAt(j), TornScript(j, k);
    forall i | n < i <= n + 1 + k ensures script[i] == Delayed(k, [Crash])[i - n - 1] {
    }
  }

  /** The last output of the journal, which is rolled back first. */
  predicate LastHadOriginal(j: Journal) { j.roots != [] && j.roots[|j.roots| - 1].hadOriginal }

  lemma RolledBackIsMixture(j: Journal, base: set<Text>, img: Image)
    requires ValidJournal(j, base) && Rolling(j, base, img) && NewState(j, base, img)
    requires |j.roots| >= 2 && LastHadOriginal(j)
    ensures var mixed := RolledBackRoot(j, img, |j.roots| - 1);
            && mixed.live[0] == New && mixed.live[|j.roots| - 1] == Old && Absent !in mixed.live && !mixed.rolledBack
            && !OldState(j, base, mixed) && !NewState(j, base, mixed)
  {
    var n := |j.roots| - 1;
    var mixed := RolledBackRoot(j, img, n);
    assert mixed.live[0] == New && mixed.live[n] == Old;
    assert mixed.live[0] != Original(j.roots[0]);
  }

  /**
   * The rollback dies after the last output has been put back. Recovery takes what is left for a completed commit, under
   * whatever faults, and deletes the backups: one output is the original, another one is new.
   */
  method TornCommitLeavesMixture(j: Journal, base: set<Text>, initial: Image, recoveries: seq<seq<Fault>>)
    returns (final: Image)
    requires ValidJournal(j, base) && Initial(j, base, initial)
    requires |j.roots| >= 2 && LastHadOriginal(j)
    ensures Sized(j, final) && final.live[0] == New && final.live[|j.roots| - 1] == Old
    ensures !OldState(j, base, final) && !NewState(j, base, final)
    ensures recoveries != [] && AllHealthy(recoveries[|recoveries| - 1]) ==> !final.journal
  {
    TornScriptTears(j, 3);
    var left;
    left, final := Lifetime(j, base, initial, [TornScript(j, 3)] + recoveries);
    RolledBackIsMixture(j, base, Marked(j, base));
    SameOutputs(j, base, left, final);
  }

  /**
   * The rollback dies between the two renames of the last output. The output is missing, the commit marker is there, and every
   * recovery refuses.
   */
  method TornCommitLosesOutput(j: Journal, base: set<Text>, initial: Image, recoveries: seq<seq<Fault>>)
    returns (final: Image)
    requires ValidJournal(j, base) && Initial(j, base, initial)
    requires LastHadOriginal(j)
    ensures Sized(j, final) && Stuck(final) && !final.rolledBack && final.live[|j.roots| - 1] == Absent
  {
    TornScriptTears(j, 1);
    var left;
    left, final := Lifetime(j, base, initial, [TornScript(j, 1)] + recoveries);
  }

  /** The rollback dies after its own marker: every output is the original again, both markers stay, and every recovery refuses. */
  method TornCommitKeepsBothMarkers(j: Journal, base: set<Text>, initial: Image, recoveries: seq<seq<Fault>>)
    returns (final: Image)
    requires ValidJournal(j, base) && Initial(j, base, initial)
    requires !FastPath(j)
    ensures Sized(j, final) && Stuck(final) && final.rolledBack && OldState(j, base, final)
  {
    TornScriptTears(j, UndoAll(j) + 1);
    var left;
    left, final := Lifetime(j, base, initial, [TornScript(j, UndoAll(j) + 1)] + recoveries);
  }

  /** Such restores exist: two outputs `a` and `b` side by side in the workspace root. */
  lemma TwoOutputs()
    ensures var j := Journal([Root([97], true), Root([98], true)], []);
            var initial := Image([Old, Old], [Absent, Absent], [Absent, Absent], {}, false, false, false, false);
            ValidJournal(j, {}) && Initial(j, {}, initial) && LastHadOriginal(j) && !FastPath(j)
  {
    var j := Journal([Root([97], true), Root([98], true)], []);
    assert Ancestors([97]) == {} && Ancestors([98]) == {};
    assert RootPaths(j.roots) == [[97], [98]];
    forall e | e in j.roots ensures Ancestors(e.path) == {} {
      assert e == j.roots[0] || e == j.roots[1];
    }
    forall d ensures !AboveSomeRoot(d, RootPaths(j.roots)) {
    }
  }
}
