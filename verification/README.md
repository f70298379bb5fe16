# Verified model of Octa's cache and lifecycle core

Octa runs task graphs, remembers task results in a two-tier cache, restores their outputs into a workspace, and reports
every task and step as a stream of lifecycle events. This Dafny project models the parts of it where a mistake loses data
or reports the wrong thing, and proves what they promise for every input, every interleaving and every crash.

| files | what they model |
|---|---|
| `Orders`, `Bytes`, `Paths` | byte and path orders, self-delimiting encodings, portable relative paths and symlink targets |
| `Roots`, `Restore`, `TornCommit` | output roots and the crash-recoverable restore: journal, markers, renames, rollback, recovery, and runs with a torn commit marker |
| `OutputLocks` | striped output locks and the recovery lock, for any number of processes |
| `Patterns`, `Ignores`, `Fileset`, `Walk`, `Collect` | ordered input patterns, `.octaignore` files, and the one pruned walk shared by all producers |
| `Dag` | in-degree counting, cycle detection and the linearity test |
| `ActionKey`, `InputTree`, `Metadata` | the three persisted pre-images: action key, input tree, metadata tree |
| `Memo`, `MemoStore`, `Coalescing` | input hashing with hardlink de-duplication, the digest memo, and the table that coalesces equal snapshots |
| `Lifecycle`, `Hierarchy`, `Recorder` | the lifecycle protocol under concurrent completion and shutdown, steps below their scopes, and the aggregated status and failure |
| `Circuit` | the generation-stamped circuit breaker |
| `Store` | any number of layered clients over one remote service |

`dafny verify dfyconfig.toml` checks the whole project.

## How the parts are modelled

*Restore.* A disk image holds, for each root, its live, staged and saved place, the directories, and the four markers. Every
rename, marker write, creation and removal is one step that a fault script may let succeed, fail before or after its effect,
or replace by a crash. The renames carry preconditions, so the proofs also show that nothing is ever overwritten or missing.

*Discovery.* A workspace is a map from component sequences to kinds; ignore files and glob components are arbitrary
predicates. The walk is the source's explicit stack with its visited counter.

*Memo.* The hash function, the document format and the contents behind a metadata key are arbitrary functions. The theorem
about a hit names its assumptions: no collision among the texts that were hashed, documents read back as written, a key
stands for one content, a key that was seen to be replaced is not observed again, and other processes publish by the same rule.

*Concurrency.* Locks, coalescing and lifecycles are transition systems over the critical sections of the source. The
layered store takes, at each point where it waits, an arbitrary script of what other clients do to both tiers.

*Imperative code.* Loops, maps and counters of the source are methods and classes, each proved against a declarative
specification that is stated without reference to the method.

## What does not hold as one might expect

- A commit marker whose write reports an error after the file exists is rolled back all the same. A durable marker then no
  longer means new outputs, unless the very next step fails without effect; `Lifetime` states this of the faults alone. Depending on where the rollback then dies, the end is a
  mixture of outputs (`TornCommitLeavesMixture`), or a state that every later recovery refuses: a missing output below the
  commit marker (`TornCommitLosesOutput`) or both terminal markers (`TornCommitKeepsBothMarkers`).
- When an ignore file in the workspace root rejects the root itself, a walk that starts there collects nothing, also for
  producers that would be unaffected on their own. `ProducersAreIndependent` gives the exact condition.
- An exact memo record is refused when the paths' component order differs from their string order, as with `a/c` and `a-b`
  (`ExactMatchesIffStringOrder`). The snapshot is then hashed again; it is never wrong.
- A finish reserved while a start of the same identity is in flight, or while an empty scope is about to be closed, can
  lead to a start after the finish or to two finishes. `CalmIsExact` proves that these are exactly the unsafe moments.
- A scope whose last completion was rejected by the sink cannot be completed again: only shutdown can finish it
  (`RejectedFinishIsRetryable`).
- Shutdown can succeed and still leave a result missing, when the finish of a completion was in flight during the sweep and
  is rejected later (`SuccessfulShutdown`, with a run in `LateRejectionLosesResult`).
- Shutdown documents that steps finish before the scopes that own them. It goes on to the scopes after a rejected step, so
  this holds exactly if no finish of a step of the scope was rejected or is still on its way when the scope is reserved
  (`ShutdownNests`, with a run in `RejectedStepFinishesLate`). Completions always keep the order.
- Failure stamps are taken when a completion begins and recorded when it commits. The reported failure is the earliest one
  exactly if no failure that counts has an earlier stamp than every scope's first one (`Failure`, `OvertakingKeepsLaterStamp`).
- A shutdown whose finish was rejected leaves the status it raised. A scope carries the most severe status of its nodes
  exactly if every raised status is matched by a node (`StatusIsWorstNode`, with a run in `RejectedShutdownRaisesStatus`).
- A layered publication that finds its local binding in place does not look again, so whether it is still there at the end
  is decided by what other users of the tier do meanwhile (`Store.LayeredCacheStore.WriteAction`, with a run in
  `EvictedPublication`).
- The coalescing table may, right after a registration, still name a digest whose last task left between pruning and
  attaching, and only such a digest (`TableIsLiveUnlessLeft`, with a run in `DeadEntryRun`).

## Model

| member | source | states |
|---|---|---|
| `Restore.Lifetime` | crates/octa-cache/src/restore.rs:203-389 | one restore and any number of recoveries, each with its own arbitrary faults and crashes. The faults of the restore alone decide: the commit marker is due after a number of steps that the journal fixes, and it is torn if and only if all earlier steps succeed and this one fails after its effect. Whenever no journal is left, all roots and created directories are old if no marker became durable and new if one did, if and only if the marker was not torn or the next step fails without effect. A recovery without faults ends the transaction if and only if what the restoring process left has neither both terminal markers nor a commit marker over a missing output; otherwise no recovery ever changes anything |
| `TornCommit.TornCommitLeavesMixture` | crates/octa-cache/src/restore.rs:203-389 | for any two or more outputs of which the last had an original: the marker is torn and the rollback dies after that output is back; whatever recoveries follow, one output is old and another new, and a recovery without faults removes journal and backups |
| `TornCommit.TornCommitLosesOutput` | crates/octa-cache/src/restore.rs:395-480 | the rollback dies between the two renames of the last output: the output is missing below a commit marker, and no recovery changes that |
| `TornCommit.TornCommitKeepsBothMarkers` | crates/octa-cache/src/restore.rs:365-467 | for every journal with markers: the rollback dies after writing its own marker; all outputs are the originals, both terminal markers are there, and every recovery refuses |
| `TornCommit.TornScriptTears` | crates/octa-cache/src/restore.rs:203-302 | the faults of these runs, for every journal with markers |
| `TornCommit.TwoOutputs` | crates/octa-cache/src/restore.rs:203-302 | a workspace to which all three runs apply |
| `Restore.RestoreOutputs` | crates/octa-cache/src/restore.rs:203-302 | every outcome of a restore, crash included, is a recoverable state or, exactly if the faults tear the marker, the rollback of the one image that a completed transaction has, stopped where the following faults say; the marker becomes durable exactly when the faults let it; success means every root new; no "lost both" or "found both" error is reachable |
| `Restore.RecoverAll` | crates/octa-cache/src/restore.rs:365-389 | any number of recoveries keep a recoverable state recoverable, and after a torn marker keep every output; the last one, without faults, ends a transaction that is not stuck |
| `Restore.RestoreNewRoot` | crates/octa-cache/src/restore.rs:311-363 | the marker-free path for one new root ends absent or complete under every fault |
| `Restore.RecoverOne` | crates/octa-cache/src/restore.rs:365-389 | keeps recoverable states recoverable, refuses exactly the stuck states and leaves them as they are, otherwise ends the transaction when nothing fails; after a torn marker it never touches an output |
| `Restore.Rollback` | crates/octa-cache/src/restore.rs:395-467 | restartable from every state a crash leaves: once the journal is gone everything is old and the error branches cannot be reached. Of a completed transaction it leaves the image untouched if and only if its first step fails without effect, and its faults say what a death between two renames, after one root or after its own marker leaves |
| `Restore.RollbackRoot` | crates/octa-cache/src/restore.rs:403-452 | one root, from any of its three crash states, ends as its original with the new tree back in staging; nothing is overwritten and no other root is touched |
| `Restore.RollbackRoots` | crates/octa-cache/src/restore.rs:403-452 | last root first; from a completed transaction it takes three steps for a root with an original and one for another, and succeeds if and only if none of them meets a fault |
| `Restore.RemoveCreatedParents` | crates/octa-cache/src/restore.rs:453-463 | created parents are removed bottom-up and give back the original directory set, one step each when all are there |
| `Restore.CleanupCommitted` | crates/octa-cache/src/restore.rs:469-480 | refuses exactly when a live output is missing, and then changes nothing; otherwise removes the transaction and keeps every output |
| `Restore.CreateLiveParents` | crates/octa-cache/src/restore.rs:643-653 | parents are created top-down: every ancestor of a created directory already exists; when none is there it takes one step for each and succeeds if and only if none of them meets a fault |
| `Restore.ReplaceRoot` | crates/octa-cache/src/restore.rs:275-290 | one root is replaced by two renames, and every fault in between leaves a state that can be rolled back; it takes four steps, or three without an original, and succeeds if and only if none of them meets a fault |
| `Restore.Mutate` | crates/octa-cache/src/restore.rs:273-294 | parents, replacements and commit marker: an error leaves a state that can be rolled back, success a committed one; the faults say exactly whether the marker is written and whether it is torn |
| `Restore.Prepare` | crates/octa-cache/src/restore.rs:249-271 | until the prepared marker exists no live output has been touched; it succeeds if and only if none of its steps meets a fault |
| `Restore.RemoveTransactionState` | crates/octa-cache/src/restore/journal.rs:199-223 | marker removal order keeps the state recoverable at every crash point and never touches live outputs |
| `Restore.RemoveUnpreparedState` | crates/octa-cache/src/restore/journal.rs:233-251 | dropping an unprepared transaction leaves all outputs as they are |
| `Restore.InspectionIsValid` | crates/octa-cache/src/restore.rs:598-641 | what the inspection finds about disjoint roots is a journal from which restore and rollback are correct |
| `Restore.Disk.WriteCommitMarker` | crates/octa-cache/src/restore/journal.rs:112-122 | the marker becomes durable exactly on success or on a failure after its effect, and it is torn exactly on the latter |
| `Roots.ValidateOutputRoots` | crates/octa-cache/src/bundle/path.rs:9-42 | accepts exactly the non-empty lists of pairwise non-overlapping roots other than the workspace root, and returns them in tree order |
| `Roots.InspectLiveRoots` | crates/octa-cache/src/restore.rs:598-609 | fails exactly when a file or link lies above a root; lists exactly the missing ancestors, in string order |
| `Roots.ValidateLiveAncestors` | crates/octa-cache/src/restore.rs:611-641 | collects exactly the ancestors that are not directories yet |
| `Roots.AncestorComesFirst` | crates/octa-cache/src/bundle/path.rs:52-72 | an ancestor precedes every descendant in tree order and in string order, which is what makes one scan and top-down creation work |
| `OutputLocks.OverlapSharesStripe` | crates/octa-cache/src/restore.rs:486-530 | for any stripe function, two root sets with an equal or nested pair of roots share a stripe |
| `OutputLocks.StripesOf` | crates/octa-cache/src/restore.rs:486-530 | the acquired stripes are exactly those of all prefixes of all roots, strictly ascending |
| `OutputLocks.PrefixKeys` | crates/octa-cache/src/restore.rs:491-502 | the loop over components adds exactly the root and its ancestors as keys |
| `OutputLocks.KeyIsPrefix` | crates/octa-cache/src/restore.rs:491-502 | the keys of a root are exactly the joins of its leading components |
| `OutputLocks.RunKeepsInv` | crates/octa-cache/src/restore.rs:145-150 | in every interleaving, failing operations included, each process holds what it acquired, in order, and no stripe has two holders |
| `OutputLocks.OverlappingHoldersExclude` | crates/octa-cache/src/restore.rs:486-530 | in every interleaving two processes with overlapping roots never both hold complete guards |
| `OutputLocks.RecoveryExcludes` | crates/octa-cache/src/restore.rs:532-547 | an exclusive recovery runs alone |
| `OutputLocks.NoDeadlock` | crates/octa-cache/src/restore.rs:145-177 | in every reachable state with unfinished work some process can go on without giving up |
| `Collect.CollectPatternSets` | crates/octa-cache/src/fileset.rs:70-139 | the pruned shared traversal returns exactly the discovered paths with their kinds; it reports the limit only when more entries would be visited than allowed, a name that is not portable only when one is visited, and succeeds only when none is |
| `Collect.VisitedInputs` | crates/octa-cache/src/fileset.rs:361-436 | pruning loses nothing: what is visited and selected is exactly what exists, is not ignored, and is included by the last pattern of some set that covers it, provided the walk is not stopped at a self-rejecting workspace root |
| `Collect.ProducersAreIndependent` | crates/octa-cache/src/fileset.rs:115-139 | one shared walk returns the union of separate walks if and only if the walk does not start at a workspace root that its own ignore file rejects, or no set that starts elsewhere selects anything |
| `Collect.PrunedRootLosesInput` | crates/octa-cache/src/fileset.rs:361-436 | a concrete workspace in which another producer's wildcard makes a named input disappear |
| `Collect.ValidateContractSets` | crates/octa-cache/src/fileset.rs:161-194 | accepts exactly the bounded pattern sets whose scan roots are unrelated to every output root |
| `Collect.ContractKeepsOutputsOut` | crates/octa-cache/src/fileset.rs:161-194 | after acceptance, in every workspace, no visited path is inside, equal to or above an output root |
| `Walk.Walker.Walk` | crates/octa-cache/src/fileset.rs:361-436 | visits exactly the entries reachable through expanded directories, each at most once, within the budget |
| `Walk.Walker.Turn` | crates/octa-cache/src/fileset.rs:363-436 | one turn of the stack loop keeps the frontier apart, reachable and complete |
| `Walk.Walker.Visit` | crates/octa-cache/src/fileset.rs:371-413 | one entry: collected exactly when the simple rule selects it, expanded exactly when something below may matter |
| `Walk.ReadDir` | crates/octa-cache/src/fileset.rs:415-433 | a directory is listed completely, or refused exactly when it exceeds the remaining budget |
| `Fileset.InputIsReached` | crates/octa-cache/src/fileset.rs:361-436 | every input is reached from a minimal scan root |
| `Fileset.AncestorMatches` | crates/octa-cache/src/fileset.rs:196-206 | a flag per pattern: whether it matches some strict ancestor as a directory |
| `Fileset.LastWinsIsSetSelects` | crates/octa-cache/src/fileset.rs:391-399 | folding the match flags of one group computes whether its last covering pattern is an include |
| `Patterns.PruningIsSafe` | crates/octa-cache/src/fileset.rs:274-289 | a directory that the pruning test drops has no match of that pattern below it |
| `Patterns.MatchShape` | crates/octa-cache/src/fileset.rs:262-272 | every match starts with the literal prefix and, without a double star, has the pattern's length |
| `Patterns.Parse` | crates/octa-cache/src/fileset.rs:223-260 | accepts exactly the portable texts whose components the glob library accepts; sign, directory requirement, parts, scan root and depth are those of the text |
| `Patterns.Derive` | crates/octa-cache/src/fileset.rs:251-259 | scan root and depth belong to the parts |
| `Patterns.ScanRoot` | crates/octa-cache/src/fileset.rs:311-320 | the loop returns the literal prefix of the pattern |
| `Patterns.ScanDepth` | crates/octa-cache/src/fileset.rs:330-343 | unbounded exactly with a double star, else the number of remaining parts |
| `Patterns.MinimalScanRoots` | crates/octa-cache/src/fileset.rs:292-309 | pairwise incomparable include roots that cover every include root |
| `Ignores.IgnoredBelow` | crates/octa-cache/src/fileset.rs:453-483 | everything below an ignored directory is ignored, the workspace root's own verdict excepted |
| `Ignores.IgnoreFilter.IsIgnored` | crates/octa-cache/src/fileset.rs:453-529 | the lazily loaded, cached matcher decides the declarative rule and keeps its cache sound |
| `Dag.HasCycle` | crates/octa-dag/src/dag.rs:105-153 | true exactly when the graph has a cycle; a counter never underflows |
| `Dag.IsLinear` | crates/octa-dag/src/dag.rs:72-102 | true exactly when the graph is acyclic and has a single topological order |
| `Dag.DAG.CalculateInDegrees` | crates/octa-dag/src/dag.rs:155-164 | the counters are the numbers of predecessors |
| `Dag.CountDown` | crates/octa-dag/src/dag.rs:136-150 | finishing a node lowers exactly its successors' counters, never below zero, and frees exactly those that reach zero |
| `Dag.DAG.AddDependency` | crates/octa-dag/src/dag.rs:45-57 | adds one edge between known nodes, fails exactly for unknown ones |
| `Dag.DAG.AddNode` | crates/octa-dag/src/dag.rs:38-42 | adds a node and no edge |
| `Dag.OrderedIsAcyclic` | crates/octa-dag/src/dag.rs:126-153 | a complete topological order rules out every cycle |
| `Dag.StuckIsCyclic` | crates/octa-dag/src/dag.rs:126-153 | nodes that all wait for each other contain a cycle |
| `Dag.TwoReadyIsNotLinear` | crates/octa-dag/src/dag.rs:72-102 | two ready nodes at once mean a cycle or two different orders |
| `Dag.ForcedCompleteIsLinear` | crates/octa-dag/src/dag.rs:72-102 | an order in which every choice was forced is the only one |
| `ActionKey.EncodingIsCanonical` | crates/octa-cache-protocol/src/action.rs:252-363 | two validated descriptors encode to the same bytes if and only if they are equal up to plugin order |
| `ActionKey.ArgumentOrderMatters` | crates/octa-cache-protocol/src/action.rs:341-344 | swapping two different arguments always changes the encoding |
| `ActionKey.PluginOrderIsNormalised` | crates/octa-cache-protocol/src/action.rs:329-339 | any two registration orders of the same plugins encode alike |
| `ActionKey.Validate` | crates/octa-cache-protocol/src/action.rs:252-310 | accepts exactly the descriptors the declarative rules allow |
| `ActionKey.ValidatedFits` | crates/octa-cache-protocol/src/action.rs:252-310 | after validation no length, count or integer cast truncates |
| `ActionKey.DigestInput` | crates/octa-cache-protocol/src/action.rs:318-363 | the streaming encoder feeds exactly the canonical bytes, and the counted size is their length |
| `ActionKey.CountFitsU64` | crates/octa-cache-protocol/src/action.rs:380-401 | the 64-bit size counter cannot overflow on a validated descriptor |
| `ActionKey.CanonicalEncoder.PutPlugins` | crates/octa-cache-protocol/src/action.rs:329-339 | the plugin loop writes the count and every plugin in order |
| `ActionKey.CanonicalEncoder.PutRuntime` | crates/octa-cache-protocol/src/action.rs:444-466 | the runtime identity is written with its variant tag |
| `ActionKey.CanonicalEncoder.PutDigest` | crates/octa-cache-protocol/src/action.rs:435-442 | a digest is written with algorithm tag and size |
| `InputTree.TreeEncodingIsInjective` | crates/octa-cache/src/input.rs:491-530 | entry sequences within 32-bit lengths have equal pre-images if and only if they are equal |
| `InputTree.PreimageIdentifiesTree` | crates/octa-cache/src/input.rs:293-294 | whatever order entries were found in, sorted pre-images are equal if and only if the trees are |
| `InputTree.RootInput` | crates/octa-cache/src/input.rs:491-530 | the writing loop produces exactly that pre-image and counts its bytes |
| `Metadata.PreimageIsInjective` | crates/octa-cache/src/input.rs:414-448 | equal metadata pre-images mean equal scope and equal entries in every field |
| `Metadata.MetadataInput` | crates/octa-cache/src/input.rs:414-442 | a digest exists exactly when there is a scope, every key is persistent and the counter does not overflow; the stream is the pre-image and the count saturates |
| `Metadata.CancelFingerprint` | crates/octa-cache/src/platform.rs:359-391 | the fixed-field fingerprint of a key can be read back unambiguously |
| `Metadata.UpdateEntry` | crates/octa-cache/src/platform.rs:263-268 | one entry feeds its framed path, kind and fingerprint, or gives up for a transient key or an overflow |
| `Metadata.MemoScope` | crates/octa-cache/src/platform.rs:20-29 | the loop frames the domain and the three values |
| `Metadata.ScopeIsInjective` | crates/octa-cache/src/platform.rs:20-29 | different file system types, identifiers or boots never share a scope |
| `MemoStore.DigestMemo.Snapshot` | crates/octa-cache/src/input.rs:231-303 | whatever other processes do to the store before the lookup and before the publication: short of a hash collision the result is exactly what full hashing of the observed metadata produces, from the memo or from reading, and the root is the digest of the returned entries; it fails only if one of its reads fails |
| `MemoStore.DigestMemo.Others` | crates/octa-cache/src/digest_memo.rs:131-242 | other processes that publish exact snapshots, evict and damage keep the invariant |
| `MemoStore.DigestMemo.Lookup` | crates/octa-cache/src/input.rs:231-263 | a hit matches the present observation and is exact for it |
| `MemoStore.DigestMemo.Get` | crates/octa-cache/src/digest_memo.rs:131-184 | returns only the document that was stored under the digest, however damaged the blobs are, and does return an intact servable one |
| `MemoStore.DigestMemo.Put` | crates/octa-cache/src/digest_memo.rs:187-242 | keeps the stored-record invariant, never replaces a record, and files the document unless it is empty or too large |
| `MemoStore.DigestMemo.Publish` | crates/octa-cache/src/input.rs:295-303 | what is published under an observation is exact for it, or one of its keys has been replaced since |
| `MemoStore.DigestMemo.Disturb` | crates/octa-cache/src/digest_memo.rs:131-184 | eviction and arbitrary damage to blobs keep the invariant |
| `MemoStore.SameObservation` | crates/octa-cache/src/input.rs:231-263 | a record found under the present digest was written for the same scope and the same entries |
| `MemoStore.ExactMatchesIffStringOrder` | crates/octa-cache/src/input.rs:450-473 | an exact record is accepted if and only if discovery order equals string order of the paths |
| `MemoStore.ComponentOrderIsNotStringOrder` | crates/octa-cache/src/input.rs:450-473 | two paths for which it does not, so their snapshot is never served from the memo |
| `MemoStore.Serialize` | crates/octa-cache/src/digest_memo.rs:63-100 | the bounded sink accepts a document exactly when all its chunks together fit |
| `MemoStore.BoundedMemoBytes.Write` | crates/octa-cache/src/digest_memo.rs:81-95 | a chunk that does not fit leaves the buffer unchanged and marks it |
| `Memo.HashEverything` | crates/octa-cache/src/input.rs:265-294 | fails exactly when a read fails; else yields the sorted entries of metadata that each path itself showed |
| `Memo.HashFiles` | crates/octa-cache/src/input.rs:265-292 | fails exactly when the read for some key, the check of an alias or its second read fails; with hardlink de-duplication every path still gets the digest of a key that the path itself showed |
| `Memo.UniqueHashRequests` | crates/octa-cache/src/input.rs:392-412 | one request per key, each file pointing at the request for its own key, and exact alias counts |
| `Memo.SoleRequestIsOwn` | crates/octa-cache/src/input.rs:281-288 | a request with one asker was made for that asker's own path, so no re-inspection is needed |
| `Memo.CountsAliases` | crates/octa-cache/src/input.rs:392-412 | a request has more than one asker exactly when the key is shared |
| `Memo.AssembledIsFullHash` | crates/octa-cache/src/input.rs:203-229 | building directories and links first and files later gives, after sorting, the entries of all paths |
| `Coalescing.OneLiveMutexPerDigest` | crates/octa-cache/src/digest_memo.rs:111-128 | in every interleaving live references for equal digests are to one mutex, and for different digests to different ones |
| `Coalescing.EqualSnapshotsExclude` | crates/octa-cache/src/digest_memo.rs:111-128 | equal snapshots never overlap in their critical sections |
| `Coalescing.TableAfterRegistration` | crates/octa-cache/src/digest_memo.rs:111-128 | after a registration the table names its digest and exactly the digests that were live when it pruned, even if their tasks leave before it attaches |
| `Coalescing.TableIsLiveUnlessLeft` | crates/octa-cache/src/digest_memo.rs:111-128 | every named digest is live after a registration if and only if no other digest lost its last task between pruning and attaching |
| `Coalescing.DeadEntryRun` | crates/octa-cache/src/digest_memo.rs:111-128 | for any two digests a run after which the table names a digest whose task is gone |
| `Coalescing.WaitersAreNeverStranded` | crates/octa-cache/src/digest_memo.rs:127-128 | a waiting task can proceed exactly when no live task of its digest holds the mutex |
| `Coalescing.StepKeepsInv` | crates/octa-cache/src/digest_memo.rs:111-128 | pruning, attaching, acquiring, leaving and cancelling keep every strong reference in the table |
| `Lifecycle.EventsAreOrdered` | crates/octa-executor/src/execution_recorder.rs:205-625 | in every run without a disturbed reservation each scope and step has a declaration, at most one start and at most one finish accepted, in that order, whatever the sink rejects |
| `Lifecycle.DisturbedRunBreaks` | crates/octa-executor/src/execution_recorder.rs:271-306 | after any run whose reservations so far were calm, one that is not calm has a continuation that breaks the order |
| `Lifecycle.CalmIsExact` | crates/octa-executor/src/execution_recorder.rs:271-306 | reserving a finish is safe for all continuations if and only if no start of the same identity is between its check and its commit and no empty-scope close is due |
| `Lifecycle.DisturbedReservation` | crates/octa-executor/src/execution_recorder.rs:271-306 | otherwise some continuation accepts a start after the finish, or two finishes |
| `Lifecycle.OnePublisher` | crates/octa-executor/src/execution_recorder.rs:499-625 | a reserved finish has exactly one publisher |
| `Lifecycle.RejectedFinishIsRetryable` | crates/octa-executor/src/execution_recorder.rs:585-625 | in every run a rejected finish leaves no event and shutdown can reserve it again; the node of a step can be completed again exactly while its scope accepts completions; a scope whose last completion was rejected is never completed again |
| `Lifecycle.ShutdownCompletesResults` | crates/octa-executor/src/execution_recorder.rs:468-496 | after shutdown has swept steps and scopes of a declared run, if no finish is rejected after its sweep and nothing is in flight, results succeed |
| `Lifecycle.SuccessfulShutdown` | crates/octa-executor/src/execution_recorder.rs:468-496 | if none of its own finishes is rejected, nobody reserves afterwards and nothing is in flight, results succeed if and only if no finish that somebody else had in flight at the sweep is rejected later |
| `Lifecycle.ResultUnlessRejected` | crates/octa-executor/src/execution_recorder.rs:633-689 | after a sweep an identity ends with a result if and only if its finish is not rejected, whoever published it |
| `Lifecycle.LateRejectionLosesResult` | crates/octa-executor/src/execution_recorder.rs:468-496 | a run from the start in which shutdown swept everything and saw no error, nothing is in flight, and the scope has no result |
| `Lifecycle.CalmMoveKeepsInv` | crates/octa-executor/src/execution_recorder.rs:205-625 | each critical section keeps lifecycle, publisher and accepted events consistent |
| `Hierarchy.StepsFinishFirst` | crates/octa-executor/src/execution_recorder.rs:358-496 | in every run in which nodes count for their scope after their step has finished: the finishes of the steps of a scope are accepted before that of the scope, unless a shutdown reserves the scope while one of them is missing |
| `Hierarchy.CompletionComesLast` | crates/octa-executor/src/execution_recorder.rs:358-461 | a scope that completes, or is closed because it is empty, has no unfinished step |
| `Hierarchy.NestingIsExact` | crates/octa-executor/src/execution_recorder.rs:468-496 | a reserved scope finish that the sink has not accepted yet is safe for all continuations if and only if every step of the scope has been published |
| `Hierarchy.ShutdownNests` | crates/octa-executor/src/execution_recorder.rs:463-559 | what shutdown reserves for a scope is safe if and only if, since its sweep of the steps, no finish of a step of that scope was rejected and none is still on its way |
| `Hierarchy.RejectedStepFinishesLate` | crates/octa-executor/src/execution_recorder.rs:463-559 | a run in which the sink rejects a step, accepts its scope, and a second shutdown then publishes the step |
| `Hierarchy.LateFinish` | crates/octa-executor/src/execution_recorder.rs:463-559 | with a step unfinished, some continuation accepts the finish of the scope first and that of the step later |
| `Recorder.ExecutionRecorder.constructor` | crates/octa-executor/src/execution_recorder.rs:157-198 | every scope starts with one remaining node per binding |
| `Recorder.ExecutionRecorder.Commit` | crates/octa-executor/src/execution_recorder.rs:418-456 | fails exactly in the source's three cases; remaining plus committed completions stays the bound count, a finish is due exactly at the last one, and it carries the most severe node status if and only if every status that shutdown raised is matched by a node |
| `Recorder.ExecutionRecorder.Sweep` | crates/octa-executor/src/execution_recorder.rs:470-486 | reserves exactly the declared and started scopes, in declaration order, with their raised status |
| `Recorder.PendingMembers` | crates/octa-executor/src/execution_recorder.rs:470-486 | the published finishes are exactly those of the active scopes |
| `Recorder.ExecutionRecorder.Failure` | crates/octa-executor/src/execution_recorder.rs:710-727 | none exactly when no node failed; otherwise the earliest real failure over all nodes, or the earliest cancellation if there is none, if and only if no failure that counts has an earlier stamp than the first one of every scope |
| `Recorder.OriginGrows` | crates/octa-executor/src/execution_recorder.rs:751-781 | recording keeps the first real failure in commit order, or else the first cancellation |
| `Recorder.OriginIsEarliest` | crates/octa-executor/src/execution_recorder.rs:751-781 | the recorded failure of a scope is the earliest of its kind if and only if none committed after the first one has an earlier stamp |
| `Recorder.SelectedIsEarliest` | crates/octa-executor/src/execution_recorder.rs:710-727 | the same for the failure selected over all scopes |
| `Recorder.ChronologicalIsEnough` | crates/octa-executor/src/execution_recorder.rs:751-781 | stamps that never go back in commit order are enough, and a late cancellation shows that they are not needed |
| `Recorder.OvertakingKeepsLaterStamp` | crates/octa-executor/src/execution_recorder.rs:365-365 | stamps are taken on entry, so two overtaking completions keep the later stamp |
| `Recorder.StatusIsWorstNode` | crates/octa-executor/src/execution_recorder.rs:430-450 | a scope carries the most severe status of its nodes if and only if every status that shutdown raised is matched by a node |
| `Recorder.RejectedShutdownRaisesStatus` | crates/octa-executor/src/execution_recorder.rs:470-494 | the failing run on any such recorder: shutdown sweeps, the sink rejects its finish, the last node succeeds, and the scope finishes as failed although all its nodes succeeded |
| `Recorder.RejectedShutdownRun` | crates/octa-executor/src/execution_recorder.rs:470-494 | that run from a new recorder with one scope and one node |
| `Circuit.OpensExactlyAtThreshold` | crates/octa-cache-http/src/circuit.rs:56-66 | in every run the circuit opens exactly at the threshold-th failure of the current generation since its last success |
| `Circuit.LateOutcomesChangeNothing` | crates/octa-cache-http/src/circuit.rs:49-66 | no outstanding permit carries the generation of an open circuit, so a late outcome leaves it unchanged |
| `Circuit.PermitsAreOlder` | crates/octa-cache-http/src/circuit.rs:37-47 | granted generations never run ahead of the circuit and are strictly older than an open one |
| `Circuit.RefusedUntilDeadline` | crates/octa-cache-http/src/circuit.rs:37-47 | with a clock that does not run backwards no permit is granted between a trip and its deadline |
| `Circuit.ClosedIsBelowThreshold` | crates/octa-cache-http/src/circuit.rs:56-66 | a closed circuit has fewer failures than the threshold |
| `Circuit.CircuitBreaker.Permit` | crates/octa-cache-http/src/circuit.rs:37-47 | refuses exactly while the deadline lies ahead; the fields keep agreeing with the log |
| `Circuit.CircuitBreaker.Success` | crates/octa-cache-http/src/circuit.rs:49-54 | the fields keep agreeing with the log |
| `Circuit.CircuitBreaker.Failure` | crates/octa-cache-http/src/circuit.rs:56-66 | the fields, with wrapping, saturating and checked arithmetic, keep agreeing with the log |
| `Store.LayeredCacheStore.WriteAction` | crates/octa-cache/src/layered.rs:216-256 | between any actions of other clients: remote bindings never change, every remote bundle is present, a publication that is not refused leaves the answering remote tier bound to exactly this result, and the local one too, if and only if replaying what others did to the local tier leaves a binding that was already there. It is refused exactly when one of the tiers holds another result or the reached remote tier lacks the bundle, and fails exactly when the local tier has nothing bound and lacks the bundle |
| `Store.EvictedPublication` | crates/octa-cache/src/layered.rs:216-256 | a run from new stores: the result is bound locally, the remote tier is empty, the binding is evicted while the remote tier is asked; the publication is not refused and the local tier is left without it |
| `Store.LocalStore.Serve` | crates/octa-cache/src/layered.rs:172-271 | the binding of every key and the set of blobs after any script of other users are those of the replay |
| `Store.ReplayKeeps` | crates/octa-cache/src/layered.rs:216-256 | a script without a removal of the key keeps its binding |
| `Store.EvictedBinding` | crates/octa-cache/src/layered.rs:216-256 | after an eviction any further script decides as for a key that was never bound, and binds the same result again only by publishing it while its bundle is at hand |
| `Store.BoundByPublication` | crates/octa-cache/src/layered.rs:216-256 | a key that a script leaves bound to a result it was not bound to before has been published by the script, with the bundle at hand at that point |
| `Store.LayeredCacheStore.WriteBlob` | crates/octa-cache/src/layered.rs:172-214 | an accepted blob is in the local tier, and in the remote tier when both calls are answered; a conflict means the remote tier holds another body, put there by another client meanwhile; it fails exactly for a body that does not fit, or when the blob is dropped from the local tier before it could be sent |
| `Store.LayeredCacheStore.FindMissing` | crates/octa-cache/src/layered.rs:96-134 | the answer is, in request order, exactly the blobs absent from both tiers; with distinct requests it fails only when the remote does |
| `Store.LayeredCacheStore.CommitVerifiedHit` | crates/octa-cache/src/layered.rs:258-271 | success leaves the local tier bound to the verified result, and it fails only if a rival is published or the bundle disappears meanwhile |
| `Store.LayeredCacheStore.GetAction` | crates/octa-cache/src/layered.rs:66-94 | a hit is the binding of the tier it names and a remote one has its bundle; a miss is a miss in every tier that answered; what was published and not evicted is found |
| `Store.LayeredCacheStore.ReadBlob` | crates/octa-cache/src/layered.rs:136-153 | bytes are returned only if the local tier verified and holds them; undisturbed they are returned exactly when the local tier has them or the reached remote tier has a body that fits, and with others at work unless the blob is dropped after it was stored |
| `Store.ReferenceCache.WriteAction` | crates/octa-cache-test-support/src/lib.rs:151-190 | create if absent: bindings are never changed, and an action is refused exactly when its bundle is missing or its key is bound to another result |
| `Store.ReferenceCache.WriteBlob` | crates/octa-cache-test-support/src/lib.rs:235-265 | create if absent after checking the body against its descriptor |
| `Store.ReferenceCache.Serve` | crates/octa-cache-test-support/src/lib.rs:130-265 | any sequence of requests only adds bindings and keeps every bundle present |
| `Store.Missing` | crates/octa-cache-test-support/src/lib.rs:192-218 | the request-order filter returns exactly the absent blobs |
| `Store.AbsentTwice` | crates/octa-cache/src/layered.rs:96-134 | asking one tier after the other leaves exactly what both lack, in request order |
| `Paths.IsWithinIsComponentPrefix` | crates/octa-cache-protocol/src/path.rs:76-83 | on validated strings the containment test is exactly component prefix |
| `Paths.ContainmentIsPartialOrder` | crates/octa-cache-protocol/src/path.rs:76-83 | containment is reflexive, antisymmetric and transitive with the workspace root on top |
| `Paths.ComponentsInjective` | crates/octa-cache-protocol/src/path.rs:119-152 | different validated strings denote different paths |
| `Paths.FromPath` | crates/octa-cache-protocol/src/path.rs:34-55 | accepts exactly portable host paths and returns the validated string of their names |
| `Paths.ValidateSymlinkText` | crates/octa-cache/src/workspace.rs:36-56 | the depth counter accepts a target exactly when it is portable text and its resolution from the link's directory never leaves the workspace |
| `Paths.JoinRelative` | crates/octa-cache/src/workspace.rs:23-29 | appends exactly the components of the path |

## Left out

- Glob syntax inside one component is an arbitrary function of its text, and a pattern matches component by component. A
  bracket expression that contains a slash is outside this model.
- Ignore file syntax: an ignore file is an arbitrary function from paths to ignore, whitelist or no match.
- Symlinked scan roots, cancellation and read errors during the walk are not modelled.
- The shortcut of a restore whose outputs already match, the loop over several journals, recovery of a vanished workspace
  and the bundle format are not modelled.
- Renames and directory creation are atomic steps; torn directory contents are modelled only inside the transaction directory.
- BLAKE3, SHA-256, zstd, JSON and the file system's identity fields are uninterpreted.
- ActionKey: digests carry 32 hash bytes by assumption; their hexadecimal form is not modelled.
- Memo.HashFiles: a read that stays unstable counts as failed; cancellation is not modelled.
- MemoStore.DigestMemo.Snapshot: records and their digests are trusted, blobs are not; a damaged record file is treated by the
  local store and not modelled.
- Coalescing: a task that is cancelled while it waits for the table's own lock has no effect and is left out.
- Lifecycle.EventsAreOrdered: is about runs whose reservations are calm; `CalmIsExact` and `DisturbedRunBreaks` say why. An
  operation whose future is dropped between the sink and its commit is not modelled.
- Lifecycle: artifacts, reports and output values are not modelled.
- Hierarchy: a node without a step counts for its scope once because the scheduler completes it once; the recorder itself does
  not check that.
- Recorder: step failures follow the same rule as scope failures and are not repeated; the run status without failures is a
  plain maximum.
- Circuit: the results about the log hold for fewer than 2^64 generations and for deadlines the clock can represent.
- Store: namespace validation, cancellation and the repair of corrupt blobs are left out; a retried request is covered by
  letting other clients send any request.
- Store.LayeredCacheStore.WriteAction: a local lookup that fails ends the publication before anything is sent and is left out.
- Store.LayeredCacheStore.FindMissing: repeated descriptors in one request make the HTTP client reject the remote answer.
- HTTP transport, garbage collection, policies, the planner, the scheduler, plugins, templates and the command line are not
  part of this model.
