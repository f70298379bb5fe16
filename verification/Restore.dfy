/** Crash-recoverable replacement of output roots (`restore.rs`, `restore/journal.rs`).

    The disk is an `Image`; every rename, marker write, directory creation or removal is one
    durable step. A script of faults decides before each step whether it succeeds, fails without
    effect, fails after its effect (a synchronisation error) or the process dies. */
module Restore {
  import opened Orders
  import opened Paths
  import opened Roots

  /** What a root's place holds: nothing, an interrupted copy, the original or the restored tree. */
  datatype Slot = Absent | Partial | Old | New

  datatype Image = Image(
    live: seq<Slot>, staged: seq<Slot>, saved: seq<Slot>, dirs: set<Text>,
    journal: bool, prepared: bool, committed: bool, rolledBack: bool)

  datatype Fault = Healthy | FailBefore | FailAfter | Crash
  datatype Status = Ok | Failed | Crashed | Corrupt

  // ---------------------------------------------------------------- states

  /** The journal describes disjoint roots over the directories `base` found outside them. */
  ghost predicate ValidJournal(j: Journal, base: set<Text>) {
    && j.roots != [] && Disjoint(RootPaths(j.roots))
    && (forall d :: d in base ==> Ancestors(d) <= base)
    && (forall e :: e in j.roots && e.hadOriginal ==> Ancestors(e.path) <= base)
    && SortedBy(TextLe, j.createdParents) && Distinct(j.createdParents)
    && (forall d :: d in j.createdParents <==> AboveSomeRoot(d, RootPaths(j.roots)) && d !in base)
  }

  /** The directories outside every root. */
  function Scaffold(ws: Workspace, roots: seq<Text>): set<Text> {
    set d | d in ws.dirs && forall i :: 0 <= i < |roots| ==> d != roots[i] && roots[i] !in Ancestors(d)
  }

  /** What `inspect_live_roots` promises about disjoint roots is a valid journal. */
  lemma InspectionIsValid(ws: Workspace, roots: seq<Text>, j: Journal)
    requires WellFormed(ws) && roots != [] && Disjoint(roots) && RootPaths(j.roots) == roots
    requires forall e :: e in j.roots ==> (e.hadOriginal <==> e.path in ws.dirs + ws.others)
    requires SortedBy(TextLe, j.createdParents) && Distinct(j.createdParents)
    requires forall d :: d in j.createdParents <==> AboveSomeRoot(d, roots) && d !in ws.dirs
    ensures ValidJournal(j, Scaffold(ws, roots))
  {
    var base := Scaffold(ws, roots);
    assert |j.roots| == |RootPaths(j.roots)| == |roots|;
    forall d, a | d in base && a in Ancestors(d) ensures a in base {
      forall i | 0 <= i < |roots| ensures a != roots[i] && roots[i] !in Ancestors(a) {
        if roots[i] in Ancestors(a) { AncestorTransitive(roots[i], a, d); }
      }
    }
    forall d | AboveSomeRoot(d, roots) ensures d in base <==> d in ws.dirs {
      var k :| 0 <= k < |roots| && d in Ancestors(roots[k]);
      forall i | 0 <= i < |roots| ensures d != roots[i] && roots[i] !in Ancestors(d) {
        assert roots[i] in roots && roots[k] in roots;
        if roots[i] in Ancestors(d) { AncestorTransitive(roots[i], d, roots[k]); }
      }
    }
    forall e | e in j.roots && e.hadOriginal ensures Ancestors(e.path) <= base {
      var i :| 0 <= i < |j.roots| && j.roots[i] == e;
      forall d | d in Ancestors(e.path) ensures d in base {
        assert d in Ancestors(roots[i]);
        assert AboveSomeRoot(d, roots);
      }
    }
  }

  /** The one-root case that needs no markers. */
  predicate FastPath(j: Journal) {
    |j.roots| == 1 && !j.roots[0].hadOriginal && j.createdParents == []
  }

  function Original(e: Root): Slot { if e.hadOriginal then Old else Absent }

  function FullDirs(j: Journal, base: set<Text>): set<Text> {
    base + set d | d in j.createdParents
  }

  ghost predicate Sized(j: Journal, img: Image) {
    |img.live| == |img.staged| == |img.saved| == |j.roots|
  }

  /** Every root and every directory is as it was before the restore. */
  ghost predicate OldState(j: Journal, base: set<Text>, img: Image)
    requires Sized(j, img)
  {
    img.dirs == base && forall i :: 0 <= i < |j.roots| ==> img.live[i] == Original(j.roots[i])
  }

  /** Every root is the restored one, below its created parents. */
  ghost predicate NewState(j: Journal, base: set<Text>, img: Image)
    requires Sized(j, img)
  {
    img.dirs == FullDirs(j, base) && forall i :: 0 <= i < |j.roots| ==> img.live[i] == New
  }

  /** The three places of one root while it may have to be rolled back. */
  predicate RootOk(hadOriginal: bool, live: Slot, staged: Slot, saved: Slot) {
    || (live == (if hadOriginal then Old else Absent) && staged == New && saved == Absent)
    || (hadOriginal && live == Absent && staged == New && saved == Old)
    || (live == New && staged == Absent && saved == (if hadOriginal then Old else Absent))
  }

  ghost predicate DirsOk(j: Journal, base: set<Text>, dirs: set<Text>) {
    base <= dirs <= FullDirs(j, base) && forall d :: d in dirs ==> Ancestors(d) <= dirs
  }

  /** A transaction whose rollback is possible. */
  ghost predicate Rolling(j: Journal, base: set<Text>, img: Image) {
    && Sized(j, img) && img.journal && img.prepared && !img.rolledBack
    && DirsOk(j, base, img.dirs)
    && forall i :: 0 <= i < |j.roots| ==>
         && RootOk(j.roots[i].hadOriginal, img.live[i], img.staged[i], img.saved[i])
         && (img.live[i] == New ==> Ancestors(j.roots[i].path) <= img.dirs)
  }

  /** All or nothing: new exactly when a commit marker became durable, except that the
      marker-free single-root path may also end complete. */
  ghost predicate Atomic(j: Journal, base: set<Text>, img: Image, commitDurable: bool)
    requires Sized(j, img)
  {
    if commitDurable then NewState(j, base, img)
    else OldState(j, base, img) || (FastPath(j) && NewState(j, base, img))
  }

  /** What every crash may leave behind. */
  ghost predicate Recoverable(j: Journal, base: set<Text>, img: Image, commitDurable: bool) {
    && Sized(j, img)
    && !(img.committed && img.rolledBack)
    && (!img.journal ==> !img.prepared && !img.committed && !img.rolledBack)
    && if img.committed then commitDurable && NewState(j, base, img)
       else if img.rolledBack then !commitDurable && OldState(j, base, img)
       else if img.prepared then !commitDurable && Rolling(j, base, img)
       else Atomic(j, base, img, commitDurable)
  }

  // ---------------------------------------------------------------- durable steps

  /** `rename(live, saved)`. The source exists and nothing is overwritten. */
  function BackUp(img: Image, i: nat): Image
    requires i < |img.live| == |img.saved| && img.live[i] != Absent && img.saved[i] == Absent
  {
    img.(live := img.live[i := Absent], saved := img.saved[i := img.live[i]])
  }

  /** `rename(staged, live)`, into an existing directory. */
  function Install(img: Image, i: nat, path: Text): Image
    requires i < |img.live| == |img.staged| && img.staged[i] != Absent && img.live[i] == Absent
    requires Ancestors(path) <= img.dirs
  {
    img.(live := img.live[i := img.staged[i]], staged := img.staged[i := Absent])
  }

  /** `rename(live, staged)`. */
  function Revert(img: Image, i: nat): Image
    requires i < |img.live| == |img.staged| && img.live[i] != Absent && img.staged[i] == Absent
  {
    img.(live := img.live[i := Absent], staged := img.staged[i := img.live[i]])
  }

  /** `rename(saved, live)`, into an existing directory. */
  function PutBack(img: Image, i: nat, path: Text): Image
    requires i < |img.live| == |img.saved| && img.saved[i] != Absent && img.live[i] == Absent
    requires Ancestors(path) <= img.dirs
  {
    img.(live := img.live[i := img.saved[i]], saved := img.saved[i := Absent])
  }

  /** `remove_dir` succeeds only on a directory with no directory and no live root below it. */
  predicate Removable(j: Journal, img: Image, d: Text)
    requires |img.live| == |j.roots|
  {
    && d in img.dirs
    && (forall e :: e in img.dirs ==> d !in Ancestors(e))
    && (forall i :: 0 <= i < |j.roots| && img.live[i] != Absent ==> d !in Ancestors(j.roots[i].path))
  }

  ghost predicate AllHealthy(script: seq<Fault>) {
    forall i :: 0 <= i < |script| ==> script[i] == Healthy
  }

  /** The fault that step `i` meets; an exhausted script is healthy. */
  function FaultAt(script: seq<Fault>, i: nat): Fault { if i < |script| then script[i] else Healthy }

  /** The steps from `a` up to `b` succeed. */
  ghost predicate Clear(script: seq<Fault>, a: nat, b: nat) {
    forall i :: a <= i < b ==> FaultAt(script, i) == Healthy
  }

  /** An operation of exactly `n` steps from `a` on: it succeeds if and only if none of them meets a fault. */
  ghost predicate Takes(script: seq<Fault>, a: nat, n: nat, b: nat, r: Status) {
    (r == Ok <==> Clear(script, a, a + n)) && (r == Ok ==> b == a + n)
  }

  /** A fault that leaves the disk as it was. */
  predicate Inert(f: Fault) { f == FailBefore || f == Crash }

  /** From step `a` on, the process dies after exactly `n` steps. */
  ghost predicate DiesAfter(script: seq<Fault>, a: nat, n: nat) {
    Clear(script, a, a + n) && FaultAt(script, a + n) == Crash
  }

  class Disk {
    var image: Image
    /** Faults met by the steps of this process, and the number of steps taken. */
    var script: seq<Fault>
    var at: nat
    /** History: a commit marker has been on disk. */
    var commitDurable: bool
    /** History: writing the commit marker reported an error after creating it. */
    var torn: bool

    constructor (image: Image, script: seq<Fault>)
      ensures this.image == image && this.script == script && at == 0 && !commitDurable && !torn
    {
      this.image, this.script, at, commitDurable, torn := image, script, 0, false, false;
    }

    ghost predicate Calm()
      reads this
    {
      AllHealthy(script)
    }

    method NextFault() returns (f: Fault)
      modifies this`at
      ensures f == FaultAt(script, old(at)) && at == old(at) + 1
    {
      f := FaultAt(script, at);
      at := at + 1;
    }

    /** One durable step. */
    method Apply(next: Image) returns (r: Status)
      modifies this`at, this`image
      ensures r != Corrupt && at == old(at) + 1
      ensures image == if Inert(FaultAt(script, old(at))) then old(image) else next
      ensures r == Ok <==> FaultAt(script, old(at)) == Healthy
      ensures r == Crashed <==> FaultAt(script, old(at)) == Crash
    {
      var f := NextFault();
      match f {
        case Healthy => image := next; r := Ok;
        case FailBefore => r := Failed;
        case FailAfter => image := next; r := Failed;
        case Crash => r := Crashed;
      }
    }

    /** `write_commit_marker`: create, synchronise, synchronise the directory. */
    method WriteCommitMarker() returns (r: Status)
      requires !image.committed
      modifies this`at, this`image, this`commitDurable, this`torn
      ensures r != Corrupt && at == old(at) + 1
      ensures r == Ok <==> FaultAt(script, old(at)) == Healthy
      ensures r == Crashed <==> FaultAt(script, old(at)) == Crash
      ensures image == if Inert(FaultAt(script, old(at))) then old(image) else old(image).(committed := true)
      ensures commitDurable <==> old(commitDurable) || !Inert(FaultAt(script, old(at)))
      ensures torn <==> old(torn) || FaultAt(script, old(at)) == FailAfter
    {
      var f := NextFault();
      match f {
        case Healthy =>
          image := image.(committed := true);
          commitDurable := true;
          r := Ok;
        case FailBefore => r := Failed;
        case FailAfter =>
          image := image.(committed := true);
          commitDurable, torn := true, true;
          r := Failed;
        case Crash => r := Crashed;
      }
    }
  }

  // ---------------------------------------------------------------- cleanup

  /** `remove_dir_all(transaction)`: entry by entry, so a crash leaves any part of it. */
  method DropTransaction(disk: Disk, ghost j: Journal) returns (r: Status)
    requires Sized(j, disk.image)
    modifies disk`image, disk`at
    ensures r != Corrupt && Sized(j, disk.image)
    ensures OnlyTransaction(old(disk.image), disk.image)
    ensures disk.Calm() ==> r == Ok
  {
    for i := 0 to |disk.image.live|
      invariant Sized(j, disk.image) && OnlyTransaction(old(disk.image), disk.image)
    {
      r := DropRoot(disk, j, i);
      if r != Ok { return; }
    }
    r := Ok;
  }

  /** Only the transaction directory differs. */
  predicate OnlyTransaction(a: Image, b: Image) { b == a.(staged := b.staged, saved := b.saved) }

  method DropRoot(disk: Disk, ghost j: Journal, i: nat) returns (r: Status)
    requires Sized(j, disk.image) && i < |disk.image.live|
    modifies disk`image, disk`at
    ensures r != Corrupt && Sized(j, disk.image) && OnlyTransaction(old(disk.image), disk.image)
    ensures disk.Calm() ==> r == Ok
  {
    r := DropStaged(disk, j, i);
    if r != Ok { return; }
    r := disk.Apply(disk.image.(saved := disk.image.saved[i := Partial]));
    if r != Ok { return; }
    r := disk.Apply(disk.image.(saved := disk.image.saved[i := Absent]));
  }

  method DropStaged(disk: Disk, ghost j: Journal, i: nat) returns (r: Status)
    requires Sized(j, disk.image) && i < |disk.image.live|
    modifies disk`image, disk`at
    ensures r != Corrupt && Sized(j, disk.image) && OnlyTransaction(old(disk.image), disk.image)
    ensures disk.Calm() ==> r == Ok
  {
    r := disk.Apply(disk.image.(staged := disk.image.staged[i := Partial]));
    if r != Ok { return; }
    r := disk.Apply(disk.image.(staged := disk.image.staged[i := Absent]));
  }

  /** Cleanup: live outputs and directories stay, markers go in their order, the journal last. */
  predicate Cleaned(a: Image, b: Image) {
    && b.live == a.live && b.dirs == a.dirs
    && (b.committed ==> a.committed && b.rolledBack == a.rolledBack && b.journal)
    && (b.rolledBack ==> a.rolledBack && b.journal)
    && (b.prepared ==> a.prepared && b.committed == a.committed && b.rolledBack == a.rolledBack && b.journal)
  }

  /** `remove_transaction_state`: prepared first, terminal markers only after the transaction. */
  method RemoveTransactionState(disk: Disk, ghost j: Journal, ghost base: set<Text>) returns (r: Status)
    requires Sized(j, disk.image) && disk.image.journal
    modifies disk`image, disk`at
    ensures r != Corrupt && Sized(j, disk.image) && Cleaned(old(disk.image), disk.image)
    ensures r == Ok ==> !disk.image.journal
    ensures old(Recoverable(j, base, disk.image, disk.commitDurable) && Atomic(j, base, disk.image, disk.commitDurable))
            ==> Recoverable(j, base, disk.image, disk.commitDurable)
    ensures disk.Calm() ==> r == Ok
    ensures FaultAt(disk.script, old(disk.at)) == Crash ==> r == Crashed && disk.image == old(disk.image)
  {
    r := disk.Apply(disk.image.(prepared := false));
    if r != Ok { return; }
    r := DropTransaction(disk, j);
    if r != Ok { return; }
    r := disk.Apply(disk.image.(committed := false));
    if r != Ok { return; }
    r := disk.Apply(disk.image.(rolledBack := false));
    if r != Ok { return; }
    r := disk.Apply(disk.image.(journal := false));
  }

  /** `remove_unprepared_transaction_state`. */
  method RemoveUnpreparedState(disk: Disk, ghost j: Journal, ghost base: set<Text>) returns (r: Status)
    requires Sized(j, disk.image) && disk.image.journal
    requires !disk.image.prepared && !disk.image.committed && !disk.image.rolledBack
    modifies disk`image, disk`at
    ensures r != Corrupt && Sized(j, disk.image) && Cleaned(old(disk.image), disk.image)
    ensures old(Recoverable(j, base, disk.image, disk.commitDurable)) ==> Recoverable(j, base, disk.image, disk.commitDurable)
    ensures r == Ok ==> !disk.image.journal
    ensures disk.Calm() ==> r == Ok
  {
    r := DropTransaction(disk, j);
    if r != Ok { return; }
    r := disk.Apply(disk.image.(journal := false));
  }

  /** `cleanup_committed`: refuses, for ever, when a live output is missing. */
  method CleanupCommitted(disk: Disk, j: Journal, ghost base: set<Text>) returns (r: Status)
    requires Sized(j, disk.image) && disk.image.committed && disk.image.journal
    modifies disk`image, disk`at
    ensures Sized(j, disk.image) && Cleaned(old(disk.image), disk.image)
    ensures r == Corrupt <==> Absent in old(disk.image.live)
    ensures r == Corrupt ==> disk.image == old(disk.image)
    ensures old(Recoverable(j, base, disk.image, disk.commitDurable)) ==> Recoverable(j, base, disk.image, disk.commitDurable)
    ensures r == Ok ==> !disk.image.journal
    ensures r != Corrupt && disk.Calm() ==> r == Ok
  {
    for i := 0 to |j.roots|
      invariant Absent !in disk.image.live[..i]
    {
      if disk.image.live[i] == Absent {
        return Corrupt;
      }
    }
    r := RemoveTransactionState(disk, j, base);
  }

  // ---------------------------------------------------------------- rollback

  /** Root `i` is back to its original, with the restored tree returned to staging. */
  predicate RevertedAt(j: Journal, img: Image, i: nat)
    requires i < |j.roots| == |img.live| == |img.staged| == |img.saved|
  {
    img.live[i] == Original(j.roots[i]) && img.staged[i] == New && img.saved[i] == Absent
  }

  /** Nothing but the places of root `i` differs. */
  predicate OnlyRoot(a: Image, b: Image, i: nat)
    requires i < |a.live| == |a.staged| == |a.saved| == |b.live| == |b.staged| == |b.saved|
  {
    b == a.(live := a.live[i := b.live[i]], staged := a.staged[i := b.staged[i]], saved := a.saved[i := b.saved[i]])
  }

  /** A root whose rollback has succeeded. */
  function RolledBackRoot(j: Journal, img: Image, i: nat): Image
    requires i < |j.roots| == |img.live| == |img.staged| == |img.saved|
  {
    img.(live := img.live[i := Original(j.roots[i])], staged := img.staged[i := New], saved := img.saved[i := Absent])
  }

  /** Steps of the rollback of an installed root. */
  function UndoSteps(e: Root): nat { if e.hadOriginal then 3 else 1 }

  /** The first rename of the rollback of a root is done, the second is not. */
  function HalfUndone(img: Image, i: nat): Image
    requires i < |img.live| == |img.staged|
  {
    img.(live := img.live[i := Absent], staged := img.staged[i := img.live[i]])
  }

  /** The rollback of an installed root, by the faults it meets: the first step takes the new tree away. */
  ghost predicate UndoesRoot(j: Journal, before: Image, after: Image, i: nat, script: seq<Fault>, a: nat, b: nat, r: Status)
    requires i < |j.roots| == |before.live| == |before.staged| == |before.saved| == |after.live|
  {
    && Takes(script, a, UndoSteps(j.roots[i]), b, r)
    && (if Inert(FaultAt(script, a)) then after == before else after.live[i] != New)
    && (FaultAt(script, a) == Crash ==> r == Crashed)
    && (j.roots[i].hadOriginal && DiesAfter(script, a, 1) ==> r == Crashed && after == HalfUndone(before, i))
  }

  /** The rollback of one root, from any of the states a crash can leave. */
  method RollbackRoot(disk: Disk, j: Journal, ghost base: set<Text>, i: nat) returns (r: Status)
    requires ValidJournal(j, base) && Rolling(j, base, disk.image) && i < |j.roots|
    modifies disk`image, disk`at
    ensures r != Corrupt && Rolling(j, base, disk.image) && OnlyRoot(old(disk.image), disk.image, i)
    ensures r == Ok ==> disk.image == RolledBackRoot(j, old(disk.image), i)
    ensures disk.Calm() ==> r == Ok
    ensures old(disk.image.live[i]) == New ==> UndoesRoot(j, old(disk.image), disk.image, i, disk.script, old(disk.at), disk.at, r)
  {
    if j.roots[i].hadOriginal {
      r := RollbackOriginal(disk, j, base, i);
    } else if disk.image.staged[i] == Absent {
      if disk.image.live[i] == Absent {
        return Corrupt;
      }
      r := disk.Apply(Revert(disk.image, i));
    } else if disk.image.live[i] != Absent {
      return Corrupt;
    } else {
      r := Ok;
    }
  }

  /** The branch for a root that had an original. */
  method RollbackOriginal(disk: Disk, j: Journal, ghost base: set<Text>, i: nat) returns (r: Status)
    requires ValidJournal(j, base) && Rolling(j, base, disk.image) && i < |j.roots| && j.roots[i].hadOriginal
    modifies disk`image, disk`at
    ensures r != Corrupt && Rolling(j, base, disk.image) && OnlyRoot(old(disk.image), disk.image, i)
    ensures r == Ok ==> disk.image == RolledBackRoot(j, old(disk.image), i)
    ensures disk.Calm() ==> r == Ok
    ensures old(disk.image.live[i]) == New ==> UndoesRoot(j, old(disk.image), disk.image, i, disk.script, old(disk.at), disk.at, r)
  {
    if disk.image.saved[i] == Absent {
      if disk.image.staged[i] == Absent {
        return Corrupt;
      }
      r := Ok;
    } else if disk.image.live[i] == Absent {
      r := ReturnSaved(disk, j, base, i);
    } else if disk.image.staged[i] != Absent {
      return Corrupt;
    } else {
      r := RollbackInstalled(disk, j, base, i);
    }
  }

  /** Both renames. */
  method RollbackInstalled(disk: Disk, j: Journal, ghost base: set<Text>, i: nat) returns (r: Status)
    requires ValidJournal(j, base) && Rolling(j, base, disk.image) && i < |j.roots| && j.roots[i].hadOriginal
    requires disk.image.live[i] == New
    modifies disk`image, disk`at
    ensures r != Corrupt && Rolling(j, base, disk.image) && OnlyRoot(old(disk.image), disk.image, i)
    ensures r == Ok ==> disk.image == RolledBackRoot(j, old(disk.image), i)
    ensures disk.Calm() ==> r == Ok
    ensures UndoesRoot(j, old(disk.image), disk.image, i, disk.script, old(disk.at), disk.at, r)
  {
    r := disk.Apply(Revert(disk.image, i));
    if r != Ok { return; }
    r := ReturnSaved(disk, j, base, i);
  }

  /** `create_parent(&live)` and `rename(saved, live)`. */
  method ReturnSaved(disk: Disk, j: Journal, ghost base: set<Text>, i: nat) returns (r: Status)
    requires ValidJournal(j, base) && Rolling(j, base, disk.image) && i < |j.roots| && j.roots[i].hadOriginal
    requires disk.image.saved[i] == Old && disk.image.live[i] == Absent
    modifies disk`image, disk`at
    ensures r != Corrupt && Rolling(j, base, disk.image) && OnlyRoot(old(disk.image), disk.image, i)
    ensures r == Ok ==> disk.image == RolledBackRoot(j, old(disk.image), i)
    ensures disk.image.live[i] != New
    ensures disk.Calm() ==> r == Ok
    ensures Takes(disk.script, old(disk.at), 2, disk.at, r)
    ensures FaultAt(disk.script, old(disk.at)) == Crash ==> r == Crashed && disk.image == old(disk.image)
  {
    var e := j.roots[i];
    assert e in j.roots;
    assert disk.image.dirs + Ancestors(e.path) == disk.image.dirs;
    r := disk.Apply(disk.image.(dirs := disk.image.dirs + Ancestors(e.path)));
    if r != Ok { return; }
    r := disk.Apply(PutBack(disk.image, i, e.path));
  }

  /** The first `n` created parents are all there. */
  ghost predicate HasFirst(j: Journal, dirs: set<Text>, n: nat)
    requires n <= |j.createdParents|
  {
    forall k :: 0 <= k < n ==> j.createdParents[k] in dirs
  }

  /** Created parents still present are among the first `n`. */
  ghost predicate OnlyFirst(j: Journal, base: set<Text>, dirs: set<Text>, n: nat)
    requires n <= |j.createdParents|
  {
    forall d :: d in dirs && d !in base ==> d in j.createdParents[..n]
  }

  ghost predicate AllReverted(j: Journal, img: Image)
    requires Sized(j, img)
  {
    forall i :: 0 <= i < |j.roots| ==> RevertedAt(j, img, i)
  }

  /** Once every root is reverted, only the created directories are left to undo. */
  lemma OnlyDirsLeft(j: Journal, base: set<Text>, a: Image, b: Image)
    requires Rolling(j, base, a) && AllReverted(j, a)
    requires b == a.(dirs := b.dirs) && DirsOk(j, base, b.dirs)
    ensures Rolling(j, base, b) && AllReverted(j, b)
    ensures b.dirs == base ==> OldState(j, base, b)
  {
    forall i | 0 <= i < |j.roots| ensures RevertedAt(j, b, i) {
      assert RevertedAt(j, a, i);
    }
    forall i | 0 <= i < |j.roots| ensures b.live[i] == Original(j.roots[i]) {
      assert RevertedAt(j, b, i);
    }
  }

  /** String order lists ancestors first, so the last remaining created parent is empty. */
  lemma LastParentIsRemovable(j: Journal, base: set<Text>, img: Image, n: nat)
    requires ValidJournal(j, base) && Rolling(j, base, img) && AllReverted(j, img)
    requires n < |j.createdParents| && OnlyFirst(j, base, img.dirs, n + 1)
    requires j.createdParents[n] in img.dirs
    ensures Removable(j, img, j.createdParents[n])
  {
    var d := j.createdParents[n];
    assert d in j.createdParents && d !in base;
    forall e | e in img.dirs ensures d !in Ancestors(e) {
      if d in Ancestors(e) {
        if e !in base {
          var k :| 0 <= k < n + 1 && j.createdParents[..n + 1][k] == e;
          AncestorComesFirst(d, e);
        }
      }
    }
    forall i | 0 <= i < |j.roots| && img.live[i] != Absent ensures d !in Ancestors(j.roots[i].path) {
      assert RevertedAt(j, img, i) && j.roots[i] in j.roots;
    }
  }

  /** One created parent, the last one that may still be there. */
  method RemoveParent(disk: Disk, j: Journal, ghost base: set<Text>, n: nat) returns (r: Status)
    requires ValidJournal(j, base) && Rolling(j, base, disk.image) && AllReverted(j, disk.image)
    requires n < |j.createdParents| && OnlyFirst(j, base, disk.image.dirs, n + 1)
    modifies disk`image, disk`at
    ensures r != Corrupt && Rolling(j, base, disk.image) && AllReverted(j, disk.image)
    ensures disk.image == old(disk.image).(dirs := disk.image.dirs)
    ensures r == Ok ==> disk.image.dirs == old(disk.image.dirs) - {j.createdParents[n]}
    ensures r == Ok ==> OnlyFirst(j, base, disk.image.dirs, n)
    ensures disk.Calm() ==> r == Ok
    ensures j.createdParents[n] in old(disk.image.dirs) ==> Takes(disk.script, old(disk.at), 1, disk.at, r)
  {
    var d := j.createdParents[n];
    assert j.createdParents[..n + 1] == j.createdParents[..n] + [d];
    assert d in j.createdParents;
    if d in disk.image.dirs {
      LastParentIsRemovable(j, base, disk.image, n);
    }
    r := Ok;
    if Removable(j, disk.image, d) {
      r := disk.Apply(disk.image.(dirs := disk.image.dirs - {d}));
    }
    OnlyDirsLeft(j, base, old(disk.image), disk.image);
  }

  /** Nothing of the first `n` created parents has been removed, one step has gone to each of the others. */
  ghost predicate LeftToRemove(j: Journal, dirs: set<Text>, n: nat, script: seq<Fault>, a: nat, now: nat)
    requires n <= |j.createdParents|
  {
    HasFirst(j, dirs, n) && now == a + |j.createdParents| - n && Clear(script, a, now)
  }

  lemma RemovingGoesOn(j: Journal, dirs: set<Text>, n: nat, script: seq<Fault>, a: nat, mid: nat, now: nat, r: Status)
    requires Distinct(j.createdParents) && n < |j.createdParents|
    requires LeftToRemove(j, dirs, n + 1, script, a, mid) && Takes(script, mid, 1, now, r)
    ensures r == Ok ==> LeftToRemove(j, dirs - {j.createdParents[n]}, n, script, a, now)
    ensures r != Ok ==> !Clear(script, a, a + |j.createdParents|)
  {
  }

  /** The directory loop of `rollback_with_observer`. */
  method RemoveCreatedParents(disk: Disk, j: Journal, ghost base: set<Text>) returns (r: Status)
    requires ValidJournal(j, base) && Rolling(j, base, disk.image) && AllReverted(j, disk.image)
    modifies disk`image, disk`at
    ensures r != Corrupt && Rolling(j, base, disk.image) && AllReverted(j, disk.image)
    ensures disk.image == old(disk.image).(dirs := disk.image.dirs)
    ensures r == Ok ==> OldState(j, base, disk.image)
    ensures disk.Calm() ==> r == Ok
    ensures old(disk.image.dirs) == FullDirs(j, base) ==> Takes(disk.script, old(disk.at), |j.createdParents|, disk.at, r)
  {
    var n := |j.createdParents|;
    ghost var all, a := disk.image.dirs == FullDirs(j, base), disk.at;
    NothingRemoved(j, base, disk.image.dirs, disk.script, a);
    while n > 0
      invariant 0 <= n <= |j.createdParents| && Rolling(j, base, disk.image) && AllReverted(j, disk.image)
      invariant disk.image == old(disk.image).(dirs := disk.image.dirs)
      invariant OnlyFirst(j, base, disk.image.dirs, n)
      invariant all ==> LeftToRemove(j, disk.image.dirs, n, disk.script, a, disk.at)
    {
      n := n - 1;
      ghost var dirs, mid := disk.image.dirs, disk.at;
      r := RemoveParent(disk, j, base, n);
      if all {
        RemovingGoesOn(j, dirs, n, disk.script, a, mid, disk.at, r);
      }
      if r != Ok { return; }
    }
    EverythingRemoved(j, base, disk.image);
    r := Ok;
  }

  lemma NothingRemoved(j: Journal, base: set<Text>, dirs: set<Text>, script: seq<Fault>, a: nat)
    requires DirsOk(j, base, dirs)
    ensures OnlyFirst(j, base, dirs, |j.createdParents|)
    ensures dirs == FullDirs(j, base) ==> LeftToRemove(j, dirs, |j.createdParents|, script, a, a)
  {
    assert j.createdParents[..|j.createdParents|] == j.createdParents;
  }

  lemma EverythingRemoved(j: Journal, base: set<Text>, img: Image)
    requires Rolling(j, base, img) && AllReverted(j, img) && OnlyFirst(j, base, img.dirs, 0)
    ensures OldState(j, base, img)
  {
    assert img.dirs == base;
    OnlyDirsLeft(j, base, img, img);
  }

  /** Steps of the rollback of the installed roots from `i` on. */
  function UndoFrom(j: Journal, i: nat): (n: nat)
    requires i <= |j.roots|
    ensures n >= |j.roots| - i
    ensures i < |j.roots| ==> n >= UndoSteps(j.roots[|j.roots| - 1])
    decreases |j.roots| - i
  {
    if i == |j.roots| then 0 else UndoSteps(j.roots[i]) + UndoFrom(j, i + 1)
  }

  /** Steps of a whole rollback before its marker. */
  function UndoAll(j: Journal): nat { UndoFrom(j, 0) + |j.createdParents| }

  /** How the rollback of an installed transaction stops at its roots, by the faults it meets. */
  ghost predicate StopsAtRoots(j: Journal, before: Image, after: Image, script: seq<Fault>, a: nat, r: Status)
    requires j.roots != [] && Sized(j, before) && Sized(j, after)
  {
    var n := |j.roots| - 1;
    && (if Inert(FaultAt(script, a)) then after == before else after.live[n] != New)
    && (j.roots[n].hadOriginal && DiesAfter(script, a, 1) ==> r == Crashed && after == HalfUndone(before, n))
    && (j.roots[n].hadOriginal && n > 0 && DiesAfter(script, a, 3) ==> r == Crashed && after == RolledBackRoot(j, before, n))
  }

  /** Roots from `i` on are rolled back, the others installed as before, and the steps are used up. */
  ghost predicate Undoing(j: Journal, before: Image, now: Image, i: nat, script: seq<Fault>, a: nat, b: nat)
    requires Sized(j, before) && Sized(j, now) && i <= |j.roots|
  {
    && (forall k :: 0 <= k < i ==> now.live[k] == New)
    && b == a + UndoFrom(j, i) && Clear(script, a, b)
    && (i == |j.roots| ==> now == before)
    && (i == |j.roots| - 1 ==> now == RolledBackRoot(j, before, i))
    && (i < |j.roots| ==> now.live[|j.roots| - 1] != New && !Inert(FaultAt(script, a)))
  }

  lemma UndoingStops(j: Journal, before: Image, now: Image, after: Image, i: nat, script: seq<Fault>, a: nat, mid: nat, b: nat,
                     r: Status)
    requires Sized(j, before) && Sized(j, now) && Sized(j, after) && i < |j.roots|
    requires Undoing(j, before, now, i + 1, script, a, mid)
    requires UndoesRoot(j, now, after, i, script, mid, b, r) && OnlyRoot(now, after, i) && r != Ok
    ensures StopsAtRoots(j, before, after, script, a, r)
    ensures !Clear(script, a, a + UndoFrom(j, 0))
  {
    DiesInTime(script, a, UndoFrom(j, i + 1), 1);
    DiesInTime(script, a, UndoFrom(j, i + 1), 3);
    UndoGrows(j, i);
  }

  lemma DiesInTime(script: seq<Fault>, a: nat, n: nat, m: nat)
    requires Clear(script, a, a + n)
    ensures DiesAfter(script, a, m) ==> n <= m
  {
  }

  lemma {:induction false} UndoGrows(j: Journal, i: nat)
    requires i <= |j.roots|
    ensures UndoFrom(j, i) <= UndoFrom(j, 0)
  {
    if i > 0 { UndoGrows(j, i - 1); }
  }

  lemma UndoingGoesOn(j: Journal, before: Image, now: Image, after: Image, i: nat, script: seq<Fault>, a: nat, mid: nat, b: nat)
    requires Sized(j, before) && Sized(j, now) && Sized(j, after) && i < |j.roots|
    requires Undoing(j, before, now, i + 1, script, a, mid)
    requires UndoesRoot(j, now, after, i, script, mid, b, Ok) && after == RolledBackRoot(j, now, i)
    ensures Undoing(j, before, after, i, script, a, b)
  {
  }

  lemma UndoingOneMore(j: Journal, before: Image, now: Image, after: Image, i: nat, script: seq<Fault>, a: nat, mid: nat, b: nat,
                       r: Status)
    requires Sized(j, before) && Sized(j, now) && Sized(j, after) && i < |j.roots|
    requires Undoing(j, before, now, i + 1, script, a, mid)
    requires now.live[i] == New ==> UndoesRoot(j, now, after, i, script, mid, b, r)
    requires OnlyRoot(now, after, i) && (r == Ok ==> after == RolledBackRoot(j, now, i))
    ensures r == Ok ==> Undoing(j, before, after, i, script, a, b)
    ensures r != Ok ==> StopsAtRoots(j, before, after, script, a, r) && !Clear(script, a, a + UndoFrom(j, 0))
  {
    if r == Ok {
      UndoingGoesOn(j, before, now, after, i, script, a, mid, b);
    } else {
      UndoingStops(j, before, now, after, i, script, a, mid, b, r);
    }
  }

  lemma UndoingEnds(j: Journal, before: Image, now: Image, script: seq<Fault>, a: nat, b: nat)
    requires j.roots != [] && Sized(j, before) && Sized(j, now) && Undoing(j, before, now, 0, script, a, b)
    ensures StopsAtRoots(j, before, now, script, a, Ok)
  {
    DiesInTime(script, a, UndoFrom(j, 0), 1);
    DiesInTime(script, a, UndoFrom(j, 0), 3);
  }

  ghost predicate RevertedFrom(j: Journal, img: Image, i: nat)
    requires Sized(j, img)
  {
    forall k :: i <= k < |j.roots| ==> RevertedAt(j, img, k)
  }

  lemma RevertedOneMore(j: Journal, before: Image, after: Image, i: nat)
    requires Sized(j, before) && i < |j.roots| && RevertedFrom(j, before, i + 1)
    requires Sized(j, after) && after == RolledBackRoot(j, before, i)
    ensures RevertedFrom(j, after, i)
  {
    forall k | i < k < |j.roots| ensures RevertedAt(j, after, k) {
      assert RevertedAt(j, before, k);
    }
  }

  /** One turn of the root loop. */
  method RollbackNext(disk: Disk, j: Journal, ghost base: set<Text>, i: nat, ghost start: Image, ghost a: nat,
                      ghost installed: bool)
    returns (r: Status)
    requires ValidJournal(j, base) && Rolling(j, base, disk.image) && i < |j.roots| && RevertedFrom(j, disk.image, i + 1)
    requires Sized(j, start) && (installed ==> Undoing(j, start, disk.image, i + 1, disk.script, a, disk.at))
    modifies disk`image, disk`at
    ensures r != Corrupt && Rolling(j, base, disk.image) && disk.image.committed == old(disk.image.committed)
    ensures disk.image.dirs == old(disk.image.dirs)
    ensures disk.Calm() ==> r == Ok
    ensures r == Ok ==> RevertedFrom(j, disk.image, i)
    ensures installed && r == Ok ==> Undoing(j, start, disk.image, i, disk.script, a, disk.at)
    ensures installed && r != Ok ==>
              StopsAtRoots(j, start, disk.image, disk.script, a, r) && !Clear(disk.script, a, a + UndoFrom(j, 0))
  {
    ghost var before, mid := disk.image, disk.at;
    r := RollbackRoot(disk, j, base, i);
    if installed {
      UndoingOneMore(j, start, before, disk.image, i, disk.script, a, mid, disk.at, r);
    }
    if r == Ok {
      RevertedOneMore(j, before, disk.image, i);
    }
  }

  /** The root loop of `rollback_with_observer`, last root first. */
  method RollbackRoots(disk: Disk, j: Journal, ghost base: set<Text>) returns (r: Status)
    requires ValidJournal(j, base) && Rolling(j, base, disk.image)
    modifies disk`image, disk`at
    ensures r != Corrupt && Rolling(j, base, disk.image) && disk.image.committed == old(disk.image.committed)
    ensures disk.image.dirs == old(disk.image.dirs)
    ensures r == Ok ==> AllReverted(j, disk.image)
    ensures disk.Calm() ==> r == Ok
    ensures old(NewState(j, base, disk.image)) ==>
              StopsAtRoots(j, old(disk.image), disk.image, disk.script, old(disk.at), r)
              && Takes(disk.script, old(disk.at), UndoFrom(j, 0), disk.at, r)
  {
    var i := |j.roots|;
    ghost var start, a, installed := disk.image, disk.at, NewState(j, base, disk.image);
    while i > 0
      invariant 0 <= i <= |j.roots| && Rolling(j, base, disk.image)
      invariant disk.image.committed == start.committed && disk.image.dirs == start.dirs
      invariant RevertedFrom(j, disk.image, i)
      invariant installed ==> Undoing(j, start, disk.image, i, disk.script, a, disk.at)
    {
      i := i - 1;
      r := RollbackNext(disk, j, base, i, start, a, installed);
      if r != Ok { return; }
    }
    if installed {
      UndoingEnds(j, start, disk.image, disk.script, a, disk.at);
    }
    r := Ok;
  }

  /** How the rollback of an installed transaction stops, by the faults it meets. */
  ghost predicate Stops(j: Journal, base: set<Text>, before: Image, after: Image, script: seq<Fault>, a: nat)
    requires j.roots != [] && Sized(j, before) && Sized(j, after)
  {
    var n := |j.roots| - 1;
    && (if Inert(FaultAt(script, a)) then after == before else after.live[n] != New)
    && (j.roots[n].hadOriginal && DiesAfter(script, a, 1) ==> after == HalfUndone(before, n))
    && (j.roots[n].hadOriginal && n > 0 && DiesAfter(script, a, 3) ==> after == RolledBackRoot(j, before, n))
    && (DiesAfter(script, a, UndoAll(j) + 1) ==>
          OldState(j, base, after) && after.journal && after.rolledBack && after.committed == before.committed)
  }

  /** The rollback after its roots: directories, marker, cleanup. */
  method FinishRollback(disk: Disk, j: Journal, ghost base: set<Text>) returns (r: Status)
    requires ValidJournal(j, base) && Rolling(j, base, disk.image) && AllReverted(j, disk.image)
    modifies disk`image, disk`at
    ensures r != Corrupt && Sized(j, disk.image) && disk.image.live == old(disk.image.live)
    ensures r == Ok ==> !disk.image.journal
    ensures !disk.image.journal ==> OldState(j, base, disk.image)
    ensures !old(disk.image.committed) && !disk.commitDurable ==> Recoverable(j, base, disk.image, disk.commitDurable)
    ensures disk.Calm() ==> r == Ok
    ensures old(disk.image.committed) ==> Conclusive(disk.image)
    ensures old(disk.image.dirs) == FullDirs(j, base) && DiesAfter(disk.script, old(disk.at), |j.createdParents| + 1) ==>
              OldState(j, base, disk.image) && disk.image.journal && disk.image.rolledBack
              && disk.image.committed == old(disk.image.committed)
  {
    r := RemoveCreatedParents(disk, j, base);
    if r != Ok { return; }
    r := disk.Apply(disk.image.(rolledBack := true));
    if r != Ok { return; }
    r := RemoveTransactionState(disk, j, base);
  }

  /** `rollback_with_observer`. */
  method Rollback(disk: Disk, j: Journal, ghost base: set<Text>) returns (r: Status)
    requires ValidJournal(j, base) && Rolling(j, base, disk.image)
    modifies disk`image, disk`at
    ensures r != Corrupt && Sized(j, disk.image)
    ensures r == Ok ==> !disk.image.journal
    ensures !disk.image.journal ==> OldState(j, base, disk.image)
    ensures !old(disk.image.committed) && !disk.commitDurable ==> Recoverable(j, base, disk.image, disk.commitDurable)
    ensures disk.Calm() ==> r == Ok
    // after a torn marker
    ensures old(disk.image.committed) ==> Conclusive(disk.image)
    ensures old(NewState(j, base, disk.image)) ==> Stops(j, base, old(disk.image), disk.image, disk.script, old(disk.at))
  {
    ghost var a := disk.at;
    r := RollbackRoots(disk, j, base);
    if r != Ok { return; }
    if Clear(disk.script, a, a + UndoFrom(j, 0)) {
      EarlyDeath(j, disk.script, a);
    }
    r := FinishRollback(disk, j, base);
  }

  lemma EarlyDeath(j: Journal, script: seq<Fault>, a: nat)
    requires j.roots != [] && Clear(script, a, a + UndoFrom(j, 0))
    ensures j.roots[|j.roots| - 1].hadOriginal ==> !DiesAfter(script, a, 1)
    ensures j.roots[|j.roots| - 1].hadOriginal && |j.roots| > 1 ==> !DiesAfter(script, a, 3)
  {
    DiesInTime(script, a, UndoFrom(j, 0), 1);
    DiesInTime(script, a, UndoFrom(j, 0), 3);
  }

  /** Recovery will not undo anything from here. */
  predicate Conclusive(img: Image) { img.committed || img.rolledBack || !img.prepared }

  /** What recovery does with a journal, from its markers alone. */
  datatype Choice = Conflict | Cleanup | Discard | Undo | Forget

  function RecoveryChoice(img: Image): Choice {
    if img.committed && img.rolledBack then Conflict
    else if img.committed then Cleanup
    else if img.rolledBack then Discard
    else if img.prepared then Undo
    else Forget
  }

  /** Recovery refuses this state every time: both terminal markers, or a commit marker over a missing output. */
  predicate Stuck(img: Image) { img.journal && img.committed && (img.rolledBack || Absent in img.live) }

  lemma CleanedIsNotStuck(a: Image, b: Image)
    requires Cleaned(a, b) && Conclusive(a) && !Stuck(a) && a.journal
    ensures Conclusive(b) && !Stuck(b)
  {
  }

  lemma RecoverableIsNotStuck(j: Journal, base: set<Text>, img: Image, commitDurable: bool)
    requires Recoverable(j, base, img, commitDurable)
    ensures !Stuck(img)
  {
  }

  /** `recover_one`. */
  method RecoverOne(disk: Disk, j: Journal, ghost base: set<Text>) returns (r: Status)
    requires ValidJournal(j, base) && disk.image.journal && Sized(j, disk.image)
    requires Recoverable(j, base, disk.image, disk.commitDurable) || Conclusive(disk.image)
    modifies disk`image, disk`at
    ensures Sized(j, disk.image)
    ensures old(Recoverable(j, base, disk.image, disk.commitDurable)) ==> Recoverable(j, base, disk.image, disk.commitDurable)
    ensures r == Corrupt <==> old(Stuck(disk.image))
    ensures r == Corrupt ==> disk.image == old(disk.image)
    ensures old(Conclusive(disk.image)) ==> Cleaned(old(disk.image), disk.image) && Conclusive(disk.image)
    ensures old(Conclusive(disk.image)) && r != Corrupt ==> !Stuck(disk.image)
    ensures r == Ok ==> !disk.image.journal
    ensures r != Corrupt && disk.Calm() ==> r == Ok
  {
    ghost var before := disk.image;
    if Recoverable(j, base, before, disk.commitDurable) {
      RecoverableIsNotStuck(j, base, before, disk.commitDurable);
    }
    match RecoveryChoice(disk.image) {
      case Conflict => r := Corrupt;
      case Cleanup => r := CleanupCommitted(disk, j, base);
      case Discard => r := RemoveTransactionState(disk, j, base);
      case Undo => r := Rollback(disk, j, base);
      case Forget => r := RemoveUnpreparedState(disk, j, base);
    }
    if Conclusive(before) && !Stuck(before) {
      CleanedIsNotStuck(before, disk.image);
    }
  }

  // ---------------------------------------------------------------- restore

  /** Before any live output is touched: intent written, nothing staged yet. */
  ghost predicate Intent(j: Journal, base: set<Text>, img: Image) {
    && Sized(j, img) && img.journal && !img.prepared && !img.committed && !img.rolledBack
    && OldState(j, base, img) && forall i :: 0 <= i < |j.roots| ==> img.saved[i] == Absent
  }

  /** One root of the bundle: partial until it is complete. */
  method ExtractRoot(disk: Disk, j: Journal, ghost base: set<Text>, i: nat) returns (r: Status)
    requires Intent(j, base, disk.image) && i < |j.roots|
    modifies disk`image, disk`at
    ensures r != Corrupt && Intent(j, base, disk.image)
    ensures r == Ok ==> disk.image == old(disk.image).(staged := old(disk.image).staged[i := New])
    ensures Takes(disk.script, old(disk.at), 2, disk.at, r)
  {
    r := disk.Apply(disk.image.(staged := disk.image.staged[i := Partial]));
    if r != Ok { return; }
    r := disk.Apply(disk.image.(staged := disk.image.staged[i := New]));
  }

  /** `extract_bundle` into staging. */
  method Extract(disk: Disk, j: Journal, ghost base: set<Text>) returns (r: Status)
    requires Intent(j, base, disk.image)
    modifies disk`image, disk`at
    ensures r != Corrupt && Intent(j, base, disk.image)
    ensures r == Ok ==> forall i :: 0 <= i < |j.roots| ==> disk.image.staged[i] == New
    ensures Takes(disk.script, old(disk.at), 2 * |j.roots| + 1, disk.at, r)
  {
    ghost var a := disk.at;
    for i := 0 to |j.roots|
      invariant Intent(j, base, disk.image)
      invariant forall k :: 0 <= k < i ==> disk.image.staged[k] == New
      invariant disk.at == a + 2 * i && Clear(disk.script, a, disk.at)
    {
      r := ExtractRoot(disk, j, base, i);
      if r != Ok { return; }
    }
    // `validate(&staging)` and the directory synchronisation change nothing but may fail.
    r := disk.Apply(disk.image);
  }

  /** `restore_new_root`. */
  method RestoreNewRoot(disk: Disk, j: Journal, ghost base: set<Text>) returns (r: Status)
    requires ValidJournal(j, base) && FastPath(j) && Intent(j, base, disk.image) && !disk.commitDurable
    modifies disk`image, disk`at
    ensures r != Corrupt && Recoverable(j, base, disk.image, disk.commitDurable)
    ensures r == Ok ==> !disk.image.journal && NewState(j, base, disk.image)
    ensures disk.Calm() ==> r == Ok
  {
    r := Extract(disk, j, base);
    if r == Ok {
      r := disk.Apply(disk.image);
    }
    if r == Ok {
      var path := j.roots[0].path;
      NoMissingAncestors(j, base);
      r := disk.Apply(Install(disk.image, 0, path));
    }
    if r == Crashed { return; }
    var cleaned := RemoveUnpreparedState(disk, j, base);
    if cleaned != Ok {
      r := cleaned;
    }
  }

  /** With nothing to create, every directory above every root already exists. */
  lemma NoMissingAncestors(j: Journal, base: set<Text>)
    requires ValidJournal(j, base)
    ensures forall e :: e in j.roots ==> Ancestors(e.path) <= FullDirs(j, base)
  {
    forall e, d | e in j.roots && d in Ancestors(e.path) ensures d in FullDirs(j, base) {
      var i :| 0 <= i < |j.roots| && j.roots[i] == e;
      assert d in Ancestors(RootPaths(j.roots)[i]);
      assert AboveSomeRoot(d, RootPaths(j.roots));
    }
  }

  /** The preparation of `restore_with_callbacks`, up to the prepared marker. */
  method Prepare(disk: Disk, j: Journal, ghost base: set<Text>) returns (r: Status)
    requires ValidJournal(j, base) && Intent(j, base, disk.image) && !disk.commitDurable
    modifies disk`image, disk`at
    ensures r != Corrupt && Sized(j, disk.image) && disk.image.journal
    ensures Recoverable(j, base, disk.image, false) && Atomic(j, base, disk.image, false)
    ensures r == Ok ==> Rolling(j, base, disk.image) && AllReverted(j, disk.image) && !disk.image.committed
    ensures r == Ok ==> disk.image.dirs == base
    ensures Takes(disk.script, old(disk.at), 2 * |j.roots| + 3, disk.at, r)
  {
    r := disk.Apply(disk.image);
    if r != Ok { return; }
    r := Extract(disk, j, base);
    if r != Ok { return; }
    r := disk.Apply(disk.image.(prepared := true));
  }

  /** Ancestors of a missing parent are present or listed before it. */
  lemma ParentsComeFirst(j: Journal, base: set<Text>, dirs: set<Text>, n: nat)
    requires ValidJournal(j, base) && n < |j.createdParents|
    requires base <= dirs && HasFirst(j, dirs, n)
    ensures Ancestors(j.createdParents[n]) <= dirs
  {
    forall d | d in Ancestors(j.createdParents[n]) ensures d in dirs {
      if d !in base {
        var k := EarlierParent(j, base, n, d);
      }
    }
  }

  lemma EarlierParent(j: Journal, base: set<Text>, n: nat, d: Text) returns (k: nat)
    requires ValidJournal(j, base) && n < |j.createdParents| && d in Ancestors(j.createdParents[n]) && d !in base
    ensures k < n && j.createdParents[k] == d
  {
    var p := j.createdParents[n];
    assert p in j.createdParents;
    AboveIsTransitive(d, p, RootPaths(j.roots));
    AncestorComesFirst(d, p);
    k := EarlierIndex(j.createdParents, n, d);
  }

  lemma EarlierIndex(sorted: seq<Text>, n: nat, d: Text) returns (k: nat)
    requires SortedBy(TextLe, sorted) && n < |sorted| && d in sorted && d != sorted[n] && !TextLe(sorted[n], d)
    ensures k < n && sorted[k] == d
  {
    k :| 0 <= k < |sorted| && sorted[k] == d;
  }

  lemma AboveIsTransitive(d: Text, p: Text, roots: seq<Text>)
    requires d in Ancestors(p) && AboveSomeRoot(p, roots)
    ensures AboveSomeRoot(d, roots)
  {
    var i :| 0 <= i < |roots| && p in Ancestors(roots[i]);
    AncestorTransitive(d, p, roots[i]);
  }

  lemma OneMoreParent(j: Journal, base: set<Text>, dirs: set<Text>, n: nat)
    requires ValidJournal(j, base) && DirsOk(j, base, dirs) && n < |j.createdParents| && HasFirst(j, dirs, n)
    ensures DirsOk(j, base, dirs + {j.createdParents[n]}) && HasFirst(j, dirs + {j.createdParents[n]}, n + 1)
    ensures j.createdParents[n] in dirs ==> dirs + {j.createdParents[n]} == dirs
  {
    ParentsComeFirst(j, base, dirs, n);
    assert j.createdParents[n] in j.createdParents;
  }

  /** One missing parent; an existing directory is accepted. */
  method CreateParent(disk: Disk, j: Journal, ghost base: set<Text>, n: nat) returns (r: Status)
    requires ValidJournal(j, base) && Rolling(j, base, disk.image) && AllReverted(j, disk.image)
    requires n < |j.createdParents| && HasFirst(j, disk.image.dirs, n)
    modifies disk`image, disk`at
    ensures r != Corrupt && Rolling(j, base, disk.image) && AllReverted(j, disk.image)
    ensures disk.image == old(disk.image).(dirs := disk.image.dirs)
    ensures r == Ok ==> disk.image.dirs == old(disk.image.dirs) + {j.createdParents[n]} && HasFirst(j, disk.image.dirs, n + 1)
    ensures disk.Calm() ==> r == Ok
    ensures j.createdParents[n] !in old(disk.image.dirs) ==> Takes(disk.script, old(disk.at), 1, disk.at, r)
  {
    var d := j.createdParents[n];
    OneMoreParent(j, base, disk.image.dirs, n);
    r := Ok;
    if d !in disk.image.dirs {
      r := disk.Apply(disk.image.(dirs := disk.image.dirs + {d}));
    }
    OnlyDirsLeft(j, base, old(disk.image), disk.image);
  }

  /** Only the first `n` missing parents have been created, one step for each. */
  ghost predicate Creating(j: Journal, base: set<Text>, dirs: set<Text>, n: nat, script: seq<Fault>, a: nat, now: nat)
    requires n <= |j.createdParents|
  {
    OnlyFirst(j, base, dirs, n) && now == a + n && Clear(script, a, now)
  }

  lemma CreatingGoesOn(j: Journal, base: set<Text>, dirs: set<Text>, n: nat, script: seq<Fault>, a: nat, mid: nat, now: nat,
                       r: Status)
    requires n < |j.createdParents| && Creating(j, base, dirs, n, script, a, mid) && Takes(script, mid, 1, now, r)
    ensures r == Ok ==> Creating(j, base, dirs + {j.createdParents[n]}, n + 1, script, a, now)
    ensures r != Ok ==> !Clear(script, a, a + |j.createdParents|)
  {
    assert j.createdParents[..n + 1] == j.createdParents[..n] + [j.createdParents[n]];
  }

  /** `create_live_parents`. */
  method CreateLiveParents(disk: Disk, j: Journal, ghost base: set<Text>) returns (r: Status)
    requires ValidJournal(j, base) && Rolling(j, base, disk.image) && AllReverted(j, disk.image)
    modifies disk`image, disk`at
    ensures r != Corrupt && Rolling(j, base, disk.image) && AllReverted(j, disk.image)
    ensures disk.image == old(disk.image).(dirs := disk.image.dirs)
    ensures r == Ok ==> disk.image.dirs == FullDirs(j, base)
    ensures disk.Calm() ==> r == Ok
    ensures old(disk.image.dirs) == base ==> Takes(disk.script, old(disk.at), |j.createdParents|, disk.at, r)
  {
    ghost var a, none := disk.at, disk.image.dirs == base;
    for n := 0 to |j.createdParents|
      invariant Rolling(j, base, disk.image) && AllReverted(j, disk.image)
      invariant disk.image == old(disk.image).(dirs := disk.image.dirs)
      invariant HasFirst(j, disk.image.dirs, n)
      invariant none ==> Creating(j, base, disk.image.dirs, n, disk.script, a, disk.at)
    {
      ghost var dirs, mid := disk.image.dirs, disk.at;
      r := CreateParent(disk, j, base, n);
      if none {
        NotYetCreated(j, base, dirs, n);
        CreatingGoesOn(j, base, dirs, n, disk.script, a, mid, disk.at, r);
      }
      if r != Ok { return; }
    }
    AllCreated(j, base, disk.image.dirs);
    r := Ok;
  }

  lemma AllCreated(j: Journal, base: set<Text>, dirs: set<Text>)
    requires DirsOk(j, base, dirs) && HasFirst(j, dirs, |j.createdParents|)
    ensures dirs == FullDirs(j, base)
  {
  }

  lemma NotYetCreated(j: Journal, base: set<Text>, dirs: set<Text>, n: nat)
    requires ValidJournal(j, base) && n < |j.createdParents| && OnlyFirst(j, base, dirs, n)
    ensures j.createdParents[n] !in dirs
  {
    assert j.createdParents[n] in j.createdParents;
  }

  /** The first `n` roots are installed and the others untouched. */
  ghost predicate InstalledUpTo(j: Journal, base: set<Text>, img: Image, n: nat) {
    && Rolling(j, base, img) && !img.committed && img.dirs == FullDirs(j, base)
    && (forall i :: 0 <= i < n && i < |j.roots| ==> img.live[i] == New)
    && (forall i :: n <= i < |j.roots| ==> RevertedAt(j, img, i))
  }

  lemma NoneInstalled(j: Journal, base: set<Text>, img: Image)
    requires Rolling(j, base, img) && AllReverted(j, img) && !img.committed && img.dirs == FullDirs(j, base)
    ensures InstalledUpTo(j, base, img, 0)
  {
  }

  /** Steps of one replacement. */
  function InstallSteps(e: Root): nat { if e.hadOriginal then 4 else 3 }

  /** Steps of the first `i` replacements. */
  function ReplaceSteps(j: Journal, i: nat): nat
    requires i <= |j.roots|
  {
    if i == 0 then 0 else ReplaceSteps(j, i - 1) + InstallSteps(j.roots[i - 1])
  }

  lemma {:induction false} ReplaceGrows(j: Journal, i: nat)
    requires i <= |j.roots|
    ensures ReplaceSteps(j, i) <= ReplaceSteps(j, |j.roots|)
    decreases |j.roots| - i
  {
    if i < |j.roots| { ReplaceGrows(j, i + 1); }
  }

  /** `create_parent(&live)` and `rename(staged, live)`. */
  method InstallRoot(disk: Disk, j: Journal, ghost base: set<Text>, i: nat) returns (r: Status)
    requires ValidJournal(j, base) && Rolling(j, base, disk.image) && i < |j.roots|
    requires disk.image.dirs == FullDirs(j, base) && disk.image.live[i] == Absent
    modifies disk`image, disk`at
    ensures r != Corrupt && Rolling(j, base, disk.image) && OnlyRoot(old(disk.image), disk.image, i)
    ensures disk.image.dirs == FullDirs(j, base)
    ensures r == Ok ==> disk.image.live[i] == New
    ensures Takes(disk.script, old(disk.at), 2, disk.at, r)
  {
    var e := j.roots[i];
    NoMissingAncestors(j, base);
    assert e in j.roots;
    assert disk.image.dirs + Ancestors(e.path) == disk.image.dirs;
    r := disk.Apply(disk.image.(dirs := disk.image.dirs + Ancestors(e.path)));
    if r != Ok { return; }
    r := disk.Apply(Install(disk.image, i, e.path));
  }

  lemma InstalledOneMore(j: Journal, base: set<Text>, before: Image, after: Image, i: nat)
    requires i < |j.roots| && InstalledUpTo(j, base, before, i)
    requires Rolling(j, base, after) && after.dirs == FullDirs(j, base) && OnlyRoot(before, after, i)
    ensures !after.committed && (after.live[i] == New ==> InstalledUpTo(j, base, after, i + 1))
  {
    forall k | i < k < |j.roots| ensures RevertedAt(j, after, k) {
      assert RevertedAt(j, before, k);
    }
  }

  /** One root of the replacement loop. */
  method ReplaceRoot(disk: Disk, j: Journal, ghost base: set<Text>, i: nat) returns (r: Status)
    requires ValidJournal(j, base) && i < |j.roots| && InstalledUpTo(j, base, disk.image, i)
    modifies disk`image, disk`at
    ensures r != Corrupt && Rolling(j, base, disk.image) && !disk.image.committed
    ensures r == Ok ==> InstalledUpTo(j, base, disk.image, i + 1)
    ensures Takes(disk.script, old(disk.at), InstallSteps(j.roots[i]), disk.at, r)
  {
    assert RevertedAt(j, disk.image, i);
    // The cancellation check.
    r := disk.Apply(disk.image);
    if r != Ok { return; }
    if j.roots[i].hadOriginal {
      r := disk.Apply(BackUp(disk.image, i));
      if r != Ok { return; }
    }
    r := InstallRoot(disk, j, base, i);
    InstalledOneMore(j, base, old(disk.image), disk.image, i);
  }

  ghost predicate Replacing(j: Journal, i: nat, script: seq<Fault>, a: nat, now: nat)
    requires i <= |j.roots|
  {
    now == a + ReplaceSteps(j, i) && Clear(script, a, now)
  }

  lemma ReplacingGoesOn(j: Journal, i: nat, script: seq<Fault>, a: nat, mid: nat, now: nat, r: Status)
    requires i < |j.roots| && Replacing(j, i, script, a, mid) && Takes(script, mid, InstallSteps(j.roots[i]), now, r)
    ensures r == Ok ==> Replacing(j, i + 1, script, a, now)
    ensures r != Ok ==> !Clear(script, a, a + ReplaceSteps(j, |j.roots|))
  {
    ReplaceGrows(j, i + 1);
  }

  /** The replacement loop. */
  method ReplaceRoots(disk: Disk, j: Journal, ghost base: set<Text>) returns (r: Status)
    requires ValidJournal(j, base) && InstalledUpTo(j, base, disk.image, 0)
    modifies disk`image, disk`at
    ensures r != Corrupt && Rolling(j, base, disk.image) && !disk.image.committed
    ensures r == Ok ==> InstalledUpTo(j, base, disk.image, |j.roots|)
    ensures Takes(disk.script, old(disk.at), ReplaceSteps(j, |j.roots|), disk.at, r)
  {
    ghost var a := disk.at;
    r := Ok;
    for i := 0 to |j.roots|
      invariant InstalledUpTo(j, base, disk.image, i) && r == Ok
      invariant Replacing(j, i, disk.script, a, disk.at)
    {
      ghost var mid := disk.at;
      r := ReplaceRoot(disk, j, base, i);
      ReplacingGoesOn(j, i, disk.script, a, mid, disk.at, r);
      if r != Ok { return; }
    }
  }

  /** A completed transaction whose commit marker exists. */
  ghost predicate Complete(j: Journal, base: set<Text>, img: Image) {
    Rolling(j, base, img) && NewState(j, base, img) && img.committed
  }

  /** The one image of a completed transaction whose commit marker exists. */
  function Marked(j: Journal, base: set<Text>): Image {
    var n := |j.roots|;
    Image(seq(n, _ => New), seq(n, _ => Absent), seq(n, i requires 0 <= i < n => Original(j.roots[i])), FullDirs(j, base),
          true, true, true, false)
  }

  lemma InstalledIsNew(j: Journal, base: set<Text>, img: Image)
    requires InstalledUpTo(j, base, img, |j.roots|)
    ensures Complete(j, base, img.(committed := true))
  {
  }

  lemma CompleteIsMarked(j: Journal, base: set<Text>, img: Image)
    requires Complete(j, base, img)
    ensures img == Marked(j, base)
  {
    var m := Marked(j, base);
    assert img.live == m.live && img.staged == m.staged && img.saved == m.saved;
  }

  /** The marker, due at step `marker`, is written by a run from `a` on, whether or not the write reports an error. */
  ghost predicate MarkedAt(script: seq<Fault>, a: nat, marker: nat) {
    Clear(script, a, marker) && !Inert(FaultAt(script, marker))
  }

  /** It is written and the write reports an error. */
  ghost predicate TornAt(script: seq<Fault>, a: nat, marker: nat) {
    Clear(script, a, marker) && FaultAt(script, marker) == FailAfter
  }

  /** What a disk remembers of a marker due at step `marker`. */
  ghost predicate Remembers(disk: Disk, a: nat, marker: nat)
    reads disk
  {
    (disk.commitDurable <==> MarkedAt(disk.script, a, marker)) && (disk.torn <==> TornAt(disk.script, a, marker))
  }

  /** Steps of the mutation before its marker. */
  function MutateSteps(j: Journal): nat { |j.createdParents| + ReplaceSteps(j, |j.roots|) }

  /** The replacements and the commit marker. */
  method ReplaceAndMark(disk: Disk, j: Journal, ghost base: set<Text>, ghost marker: nat) returns (r: Status)
    requires ValidJournal(j, base) && InstalledUpTo(j, base, disk.image, 0) && !disk.commitDurable && !disk.torn
    requires marker == disk.at + ReplaceSteps(j, |j.roots|)
    modifies disk`image, disk`at, disk`commitDurable, disk`torn
    ensures r != Corrupt
    ensures r == Ok ==> disk.commitDurable && !disk.torn
    ensures r == Ok || disk.torn ==> Complete(j, base, disk.image)
    ensures r != Ok && !disk.torn ==> Rolling(j, base, disk.image) && !disk.image.committed && !disk.commitDurable
    ensures disk.torn ==> r == Failed
    ensures disk.Calm() ==> r == Ok
    ensures Remembers(disk, old(disk.at), marker)
    ensures disk.torn ==> disk.at == marker + 1
  {
    r := ReplaceRoots(disk, j, base);
    if r != Ok { return; }
    InstalledIsNew(j, base, disk.image);
    r := disk.WriteCommitMarker();
  }

  /** The mutation of `restore_with_callbacks`: parents, replacements, commit marker. */
  method Mutate(disk: Disk, j: Journal, ghost base: set<Text>, ghost marker: nat) returns (r: Status)
    requires ValidJournal(j, base) && Rolling(j, base, disk.image) && AllReverted(j, disk.image)
    requires !disk.image.committed && !disk.commitDurable && !disk.torn
    requires marker == disk.at + MutateSteps(j)
    modifies disk`image, disk`at, disk`commitDurable, disk`torn
    ensures r != Corrupt
    ensures r == Ok ==> disk.commitDurable && !disk.torn
    ensures r == Ok || disk.torn ==> Complete(j, base, disk.image)
    ensures r != Ok && !disk.torn ==> Rolling(j, base, disk.image) && !disk.image.committed && !disk.commitDurable
    ensures disk.torn ==> r == Failed
    ensures disk.Calm() ==> r == Ok
    ensures old(disk.image.dirs) == base ==> Remembers(disk, old(disk.at), marker)
    ensures old(disk.image.dirs) == base && disk.torn ==> disk.at == marker + 1
  {
    r := CreateLiveParents(disk, j, base);
    if r != Ok { return; }
    NoneInstalled(j, base, disk.image);
    r := ReplaceAndMark(disk, j, base, disk.at + ReplaceSteps(j, |j.roots|));
  }

  /** A workspace before a restore: originals in place, no transaction. */
  ghost predicate Initial(j: Journal, base: set<Text>, img: Image) {
    && Sized(j, img) && !img.journal && !img.prepared && !img.committed && !img.rolledBack
    && OldState(j, base, img) && forall i :: 0 <= i < |j.roots| ==> img.saved[i] == Absent
  }

  /** The mutation, undone when it reports an error. */
  method MutateOrUndo(disk: Disk, j: Journal, ghost base: set<Text>, ghost marker: nat) returns (r: Status)
    requires ValidJournal(j, base) && Rolling(j, base, disk.image) && AllReverted(j, disk.image)
    requires !disk.image.committed && !disk.commitDurable && !disk.torn
    requires marker == disk.at + MutateSteps(j)
    modifies disk`image, disk`at, disk`commitDurable, disk`torn
    ensures r != Corrupt && Sized(j, disk.image)
    ensures r == Ok ==> disk.image.committed && disk.image.journal && !disk.torn
    ensures !disk.torn ==> Recoverable(j, base, disk.image, disk.commitDurable)
    ensures disk.torn ==> r != Ok && TornLeft(j, base, disk.image)
    ensures disk.Calm() ==> r == Ok
    ensures old(disk.image.dirs) == base ==> Remembers(disk, old(disk.at), marker)
    ensures old(disk.image.dirs) == base && disk.torn ==>
              Stops(j, base, Marked(j, base), disk.image, disk.script, marker + 1)
  {
    r := Mutate(disk, j, base, marker);
    if r == Failed {
      if disk.torn {
        CompleteIsMarked(j, base, disk.image);
      }
      var undone := Rollback(disk, j, base);
      r := if undone == Ok then Failed else undone;
    }
  }

  /** After a torn marker what is left is conclusive. */
  ghost predicate TornLeft(j: Journal, base: set<Text>, left: Image) {
    Sized(j, left) && Conclusive(left) && Complete(j, base, Marked(j, base))
  }

  /** Steps of a restore before its commit marker: the journal, the preparation, the missing parents and the replacements. */
  function MarkerAt(j: Journal): nat { 2 * |j.roots| + 4 + MutateSteps(j) }

  /** A restore under these faults writes its commit marker. */
  ghost predicate Commits(j: Journal, script: seq<Fault>) { !FastPath(j) && MarkedAt(script, 0, MarkerAt(j)) }

  /** It does, and the write reports an error. */
  ghost predicate Tears(j: Journal, script: seq<Fault>) { !FastPath(j) && TornAt(script, 0, MarkerAt(j)) }

  /** `restore_with_callbacks`. */
  method RestoreOutputs(disk: Disk, j: Journal, ghost base: set<Text>) returns (r: Status)
    requires ValidJournal(j, base) && Initial(j, base, disk.image) && !disk.commitDurable && !disk.torn && disk.at == 0
    modifies disk`image, disk`at, disk`commitDurable, disk`torn
    ensures r != Corrupt
    ensures !disk.torn ==> Recoverable(j, base, disk.image, disk.commitDurable)
    ensures disk.commitDurable <==> Commits(j, disk.script)
    ensures disk.torn <==> Tears(j, disk.script)
    ensures disk.torn ==> TornLeft(j, base, disk.image) && Stops(j, base, Marked(j, base), disk.image, disk.script, MarkerAt(j) + 1)
    ensures r == Ok ==> !disk.torn && !disk.image.journal && NewState(j, base, disk.image)
    ensures disk.Calm() ==> r == Ok
  {
    InitialIsIntent(j, base, disk.image);
    r := disk.Apply(disk.image.(journal := true));
    if r != Ok { return; }
    r := RestoreWithIntent(disk, j, base, MarkerAt(j));
  }

  lemma InitialIsIntent(j: Journal, base: set<Text>, img: Image)
    requires Initial(j, base, img)
    ensures Recoverable(j, base, img, false)
    ensures Intent(j, base, img.(journal := true)) && Recoverable(j, base, img.(journal := true), false)
  {
  }

  /** The restore once its journal has been written. */
  method RestoreWithIntent(disk: Disk, j: Journal, ghost base: set<Text>, ghost marker: nat) returns (r: Status)
    requires ValidJournal(j, base) && Intent(j, base, disk.image) && !disk.commitDurable && !disk.torn
    requires marker == disk.at + 2 * |j.roots| + 3 + MutateSteps(j)
    modifies disk`image, disk`at, disk`commitDurable, disk`torn
    ensures r != Corrupt
    ensures !disk.torn ==> Recoverable(j, base, disk.image, disk.commitDurable)
    ensures if FastPath(j) then !disk.commitDurable && !disk.torn
            else Remembers(disk, old(disk.at), marker)
    ensures disk.torn ==> TornLeft(j, base, disk.image)
                          && Stops(j, base, Marked(j, base), disk.image, disk.script, marker + 1)
    ensures r == Ok ==> !disk.torn && !disk.image.journal && NewState(j, base, disk.image)
    ensures disk.Calm() ==> r == Ok
  {
    if FastPath(j) {
      r := RestoreNewRoot(disk, j, base);
      return;
    }
    r := PrepareAndMutate(disk, j, base, marker);
    if r != Ok { return; }
    r := CleanupCommitted(disk, j, base);
  }

  /** The marked path after the journal has been written, up to the cleanup. */
  method PrepareAndMutate(disk: Disk, j: Journal, ghost base: set<Text>, ghost marker: nat) returns (r: Status)
    requires ValidJournal(j, base) && Intent(j, base, disk.image) && !disk.commitDurable && !disk.torn
    requires marker == disk.at + 2 * |j.roots| + 3 + MutateSteps(j)
    modifies disk`image, disk`at, disk`commitDurable, disk`torn
    ensures r != Corrupt && Sized(j, disk.image)
    ensures r == Ok ==> disk.image.committed && disk.image.journal && !disk.torn
    ensures !disk.torn ==> Recoverable(j, base, disk.image, disk.commitDurable)
    ensures Remembers(disk, old(disk.at), marker)
    ensures disk.torn ==> r != Ok && TornLeft(j, base, disk.image)
                          && Stops(j, base, Marked(j, base), disk.image, disk.script, marker + 1)
    ensures disk.Calm() ==> r == Ok
  {
    r := Prepare(disk, j, base);
    if r == Failed {
      var cleaned := RemoveTransactionState(disk, j, base);
      return if cleaned == Ok then Failed else cleaned;
    }
    if r != Ok { return; }
    r := MutateOrUndo(disk, j, base, marker);
  }

  // ---------------------------------------------------------------- whole runs

  /** Recoveries after a torn marker: outputs and directories stay as they were left, and a stuck state stays as it is. */
  ghost predicate Following(left: Image, img: Image) {
    && img.live == left.live && img.dirs == left.dirs && Conclusive(img)
    && (if Stuck(left) then img == left else !Stuck(img))
  }

  lemma SameOutputs(j: Journal, base: set<Text>, a: Image, b: Image)
    requires Sized(j, a) && Sized(j, b) && a.live == b.live && a.dirs == b.dirs
    ensures NewState(j, base, a) <==> NewState(j, base, b)
    ensures OldState(j, base, a) <==> OldState(j, base, b)
  {
  }

  /** Any number of recoveries, each under its own faults, one whenever a journal is left. */
  method RecoverAll(disk: Disk, j: Journal, ghost base: set<Text>, scripts: seq<seq<Fault>>)
    requires ValidJournal(j, base) && Sized(j, disk.image)
    requires Recoverable(j, base, disk.image, disk.commitDurable) || Conclusive(disk.image)
    modifies disk`image, disk`script, disk`at
    ensures Sized(j, disk.image)
    ensures old(Recoverable(j, base, disk.image, disk.commitDurable)) ==> Recoverable(j, base, disk.image, disk.commitDurable)
    ensures old(Conclusive(disk.image)) ==> Following(old(disk.image), disk.image)
    ensures scripts != [] && AllHealthy(scripts[|scripts| - 1]) && !old(Stuck(disk.image)) ==> !disk.image.journal
  {
    ghost var left, sound := disk.image, Recoverable(j, base, disk.image, disk.commitDurable);
    if sound { RecoverableIsNotStuck(j, base, left, disk.commitDurable); }
    var i := 0;
    while i < |scripts| && disk.image.journal
      invariant Sized(j, disk.image)
      invariant sound ==> Recoverable(j, base, disk.image, disk.commitDurable)
      invariant Conclusive(left) ==> Following(left, disk.image)
      invariant 0 < |scripts| <= i && AllHealthy(scripts[|scripts| - 1]) && !Stuck(left) ==> !disk.image.journal
    {
      disk.script, disk.at := scripts[i], 0;
      if sound { RecoverableIsNotStuck(j, base, disk.image, disk.commitDurable); }
      var _ := RecoverOne(disk, j, base);
      i := i + 1;
    }
  }

  function First(scripts: seq<seq<Fault>>): seq<Fault> { if scripts == [] then [] else scripts[0] }

  /**
   * One restore and any number of recoveries, each under its own faults: a recovery runs whenever a journal is left, and
   * stops at its own crash or error. `left` is what the restoring process left behind. What holds of the end is said of the
   * faults alone: whether they tear the commit marker, and the one that the rollback meets first.
   */
  method Lifetime(j: Journal, base: set<Text>, initial: Image, scripts: seq<seq<Fault>>) returns (left: Image, final: Image)
    requires ValidJournal(j, base) && Initial(j, base, initial)
    ensures Sized(j, left) && Sized(j, final)
    ensures !Tears(j, First(scripts)) ==> Recoverable(j, base, final, Commits(j, First(scripts)))
    ensures Tears(j, First(scripts)) ==>
              && TornLeft(j, base, left) && Stops(j, base, Marked(j, base), left, First(scripts), MarkerAt(j) + 1)
              && final.live == left.live && final.dirs == left.dirs
    // all or nothing, exactly
    ensures !final.journal ==>
              (Atomic(j, base, final, Commits(j, First(scripts))) <==>
               (Tears(j, First(scripts)) ==> Inert(FaultAt(First(scripts), MarkerAt(j) + 1))))
    // recovery never ends, exactly
    ensures Stuck(left) ==> Tears(j, First(scripts)) && !Inert(FaultAt(First(scripts), MarkerAt(j) + 1)) && final == left
    ensures |scripts| > 1 && AllHealthy(scripts[|scripts| - 1]) ==> (final.journal <==> Stuck(left))
  {
    var disk := new Disk(initial, First(scripts));
    var r := RestoreOutputs(disk, j, base);
    left := disk.image;
    ghost var commitDurable, torn := disk.commitDurable, disk.torn;
    if !torn {
      RecoverableIsNotStuck(j, base, left, commitDurable);
    } else {
      SparedOrNot(j, base, left, First(scripts), MarkerAt(j) + 1);
    }
    RecoverAll(disk, j, base, if scripts == [] then [] else scripts[1..]);
    final := disk.image;
    if torn {
      SameOutputs(j, base, left, final);
    }
  }

  lemma SparedOrNot(j: Journal, base: set<Text>, left: Image, script: seq<Fault>, a: nat)
    requires j.roots != [] && TornLeft(j, base, left) && Stops(j, base, Marked(j, base), left, script, a)
    ensures NewState(j, base, left) <==> Inert(FaultAt(script, a))
    ensures Inert(FaultAt(script, a)) ==> !Stuck(left)
  {
  }
}
