# Crash recovery, locking and encodings of the MySkills command line client

A Dafny model of the parts of the client whose correctness depends on every crash point, every interleaving or every
input, with proofs of what they keep.

- **Whole-artifact apply and rollback** (`ArtifactModel`, `ArtifactCompanion`, `ArtifactRuns`). A run promotes a list of
  directory trees through a journal with a phase for each move. `Companion` keeps the journal in memory apart from the
  one on disk, and makes one filesystem effect or request at a time. `steps` says how many are left, so a contract that
  holds of every outcome holds at every crash point. `ArtifactRuns` states the theorems over whole runs of calls, known
  only by the contracts of the methods.
- **Install, update, rollback and recovery** (`InstallModel`, `InstallRecovery`, `InstallPlan`, `InstallRoots`,
  `InstallHistory`, `InstallRuns`, `InstallOutcomes`, `InstallStack`). The same crash model over a transaction journal, a
  registry, active directories, stages and history snapshots. Another program may put files at the active path before
  the move or after the promotion. Recursive removal may tear anywhere; only the health of the root, and with it that
  recovery is not refused, needs removals to be atomic.
- **The root lock** (`RootLock`). A state machine whose steps are the single `mkdir`, `lstat`, `open`, `read`, `rm` and
  `rmdir` calls of any number of clients. Any call may fail and any process may end at any moment.
- **Text and encodings** (`Text`, `JsonText`, `Frontmatter`, `FrontmatterValues`, `FrontmatterBlocks`, `CanonicalJson`,
  `SnapshotIdentity`). JavaScript strings are sequences of UTF-16 code units. The frontmatter printer and parser, JSON
  string literals, the canonical text of JSON values, and the byte stream that identifies a snapshot.
- **The dry-run plan** (`BootstrapPlan`). Selector resolution, planning outcomes, blockers and terminal results.
- **ZIP archives** (`Crc`, `ZipLayout`, `ZipWriter`). The table-driven CRC-32 against bit-at-a-time division, and the
  archive writer against a reader that follows the central directory.
- **Device login** (`DeviceLogin`). The polling loop with a persisted request, a clock that never goes back and sleeps
  that never end early, over any number of interrupted runs. Times are reals, in milliseconds.

What the client reads from outside is a parameter: API answers, downloads, process probes, clock readings, the length of
sleeps, checkpoint decisions. SHA-256 is injective: digests are the digested data. Version comparison is any total
preorder.

`dafny verify dfyconfig.toml` checks the whole project.

## Where the code does less than it says

- **The lock.** The comment at `apps/cli/src/install-filesystem.ts:79-80` says that a single contender reaps a dead owner
  and that no new live owner's lock is deleted. The `reaping` claim and both removals go by path, so a reaper whose
  target has exited normally can drop another reaper's claim. `RootLock.TwoWorkers` gives the run: one owner dies while
  holding, another owner's process ended earlier, and two live clients are inside `work`. `RootLock.ExclusiveExactly`
  gives the exact bound: exclusion holds in all runs where no owner dies while holding, and in all runs where at most
  one owner's process ends at all. One death while holding is not enough of a bound.
- **Recovery of a rollback.** `candidateCommitted` (`apps/cli/src/cli.ts:5273-5282`) compares the installed record with
  the target. When a rollback's target equals the installed package, a rollback stopped right after its journal was
  prepared is taken for committed, and the snapshot its history still names is removed.
  The same can happen at the later stop between promotion and commit, and, for an entry with a legacy digest, after a
  recovery that was interrupted once it had migrated the entry. `InstallRuns.RollbackKeepsHistoryIff` and
  `RecoveredRollbackKeepsHistoryIff` say exactly when; `ReinstalledVersionLosesItsSnapshot` gives a root that two installs
  of one version reach.
- **The frontmatter printer.** JSON.stringify leaves U+2028 and U+2029 as they are, and the parser's `.` does not match
  them, so such a document is refused: `Frontmatter.DocumentReadsBack`.
- **Duplicate selectors.** The check on resolved roots at `apps/cli/src/codex-bootstrap.ts:553-558` can never fire after
  the check on slugs and types before it. It is an assertion in `BootstrapPlan.RejectResolvedSelectorDuplicates`.

## Model

| member | source | states |
|---|---|---|
| ArtifactRuns.RollbackUndoesApply | apps/cli/src/architecture-artifact.ts:152-181 | After any sequence of apply, verify and rollback calls, each stopped at any effect, one completed rollback leaves every owned path with exactly its baseline tree and the manifest as it was before the run, or absent; trees may be equal or empty |
| ArtifactRuns.StoppedApplyResumes | apps/cli/src/architecture-artifact.ts:107-136 | From wherever stopped applies and verifies left the disk, an apply with the claim and the closing check in its favour is never refused (no drift, no ambiguity); with 15n+14 effects left for n moves it completes with every owned path on its next tree |
| ArtifactRuns.RollbackIsNeverRefused | apps/cli/src/architecture-artifact.ts:152-181 | A rollback at any point of any run is never refused; with 7n+10 effects left it completes with the baseline trees and manifest |
| ArtifactRuns.CompletedApplyPromotes | apps/cli/src/architecture-artifact.ts:92-136 | A completed apply or verify at any point of any run leaves every owned path with its next tree, the manifest naming the run, and every old tree whole in the baseline copy |
| ArtifactRuns.RunKeepsInvariant | apps/cli/src/architecture-artifact.ts:92-181 | Every world of every run satisfies the protocol invariant, and no owned path has gained or lost a copy of any tree over its four places since staging |
| ArtifactRuns.ManifestAndReceiptsAreHonest | apps/cli/src/architecture-artifact.ts:129-146 | Outside rollback the manifest names the run only when all moves are done and every owned path holds its next tree; every promotion receipt was requested over such a disk, every restoration receipt over the baseline |
| ArtifactRuns.RollbackIsFinal | apps/cli/src/architecture-artifact.ts:107-107 | Once a rollback is journaled, no later apply or verify changes anything on disk |
| ArtifactRuns.StaysForward | apps/cli/src/architecture-artifact.ts:92-151 | Applies and verifies alone never enter a rollback state |
| ArtifactRuns.LostClaimChangesNothing | apps/cli/src/architecture-artifact.ts:103-105 | In every run, an apply from a prepared journal whose claim is lost leaves the world as it was and does not complete |
| ArtifactRuns.CompletionIsConfirmed | apps/cli/src/architecture-artifact.ts:149-149 | In every run, an apply or verify that completes had the API's closing confirmation |
| ArtifactRuns.ForeignBytesStay | apps/cli/src/architecture-artifact.ts:108-170 | In every run, a tree at an active path that is neither the run's old nor its next tree of that path is never moved or replaced, whatever calls are made and wherever they stop |
| ArtifactRuns.PreparedIsSound | apps/cli/src/architecture-artifact.ts:56-73 | The disk staging leaves satisfies the invariant |
| ArtifactModel.RenameConserves | apps/cli/src/architecture-artifact.ts:90-91 | A rename inside one owned path onto a free name keeps the number of copies of every tree over the four places |
| ArtifactCompanion.ReadTree | apps/cli/src/architecture-artifact.ts:37-42 | The bounded readback gives exactly the tree at a place, the empty tree for an absent place, and an error otherwise |
| ArtifactCompanion.MatchTree | apps/cli/src/architecture-artifact.ts:44-44 | Completes exactly when the active place holds the expected tree |
| ArtifactCompanion.MatchRelocated | apps/cli/src/architecture-artifact.ts:137-137 | Completes exactly when the relocated directory holds the expected tree |
| ArtifactCompanion.MoveStepKeepsInv | apps/cli/src/architecture-artifact.ts:108-128 | Work on one move that keeps that path consistent with its journaled phase keeps the whole invariant |
| ArtifactCompanion.DoneIsPromoted | apps/cli/src/architecture-artifact.ts:127-129 | When every move is done the active trees are the intent's, path by path and as the aggregate check reads them |
| ArtifactCompanion.UndoStepKeepsInv | apps/cli/src/architecture-artifact.ts:163-170 | Work on one move of rollback keeps every other path undoable or restored |
| ArtifactCompanion.RestoredIsBaseline | apps/cli/src/architecture-artifact.ts:171-174 | When every move is restored the active trees are the baseline's, path by path and as an aggregate |
| ArtifactCompanion.BeginRollbackKeepsInv | apps/cli/src/architecture-artifact.ts:161-162 | Journaling the start of rollback keeps the invariant from every state apply can reach |
| ArtifactCompanion.Companion.Fence | apps/cli/src/architecture-artifact.ts:89-89 | Refuses exactly without a lease, and otherwise costs one request |
| ArtifactCompanion.Companion.WriteJournal | apps/cli/src/architecture-artifact.ts:34-34 | The on-disk journal becomes the in-memory one, or nothing changes |
| ArtifactCompanion.Companion.MoveDirectory | apps/cli/src/architecture-artifact.ts:90-91 | Every move is of a tree just checked to be the recorded old or next one of its path, right after the lease was checked; it moves whole or not at all, an existing destination is refused, and no tree is lost or duplicated |
| ArtifactCompanion.Companion.SetPhase | apps/cli/src/architecture-artifact.ts:112-112 | The in-memory phase changes first; the disk has the new journal or the old one |
| ArtifactCompanion.Companion.RequestReceipt | apps/cli/src/architecture-artifact.ts:134-135 | The receipt records the disk at the request; the response may be lost |
| ArtifactCompanion.Companion.RecordIntent | apps/cli/src/architecture-artifact.ts:111-113 | First step of a move: stops only consistently with the journaled phase; no refusal from a consistent one |
| ArtifactCompanion.Companion.SetOldAside | apps/cli/src/architecture-artifact.ts:114-120 | Second step: the old tree goes to the baseline copy once, also when the rename happened before the stop |
| ArtifactCompanion.Companion.PlaceOld | apps/cli/src/architecture-artifact.ts:115-118 | From a disk that fits the announced move, completion leaves the old tree in the baseline copy, and nothing is refused under a lease |
| ArtifactCompanion.Companion.CheckCleared | apps/cli/src/architecture-artifact.ts:121-121 | Third step: the active place is empty before the new tree is announced |
| ArtifactCompanion.Companion.Expose | apps/cli/src/architecture-artifact.ts:122-126 | Fourth step: the staged tree goes to the active place once, also when the rename happened before the stop |
| ArtifactCompanion.Companion.PlaceNext | apps/cli/src/architecture-artifact.ts:123-124 | From a disk that fits the announced move, completion leaves the next tree active, and nothing is refused under a lease |
| ArtifactCompanion.Companion.ApplyMove | apps/cli/src/architecture-artifact.ts:109-127 | One whole move from any journaled phase ends with the next tree active, within fifteen effects |
| ArtifactCompanion.Companion.VerifyAggregate | apps/cli/src/architecture-artifact.ts:138-138 | Completes exactly when every placement holds its tree and every removal is absent |
| ArtifactCompanion.Companion.VerifyStaging | apps/cli/src/architecture-artifact.ts:88-88 | Completes exactly when every staged tree is the intended one |
| ArtifactCompanion.Companion.AssertBaseline | apps/cli/src/architecture-artifact.ts:46-55 | Completes exactly over the recorded manifest and old trees with no stranger in the namespace |
| ArtifactCompanion.Companion.ApplyMoves | apps/cli/src/architecture-artifact.ts:108-128 | From any consistent world: keeps the invariant and every tree, never refuses, and finishes with every phase done |
| ArtifactCompanion.Companion.Claim | apps/cli/src/architecture-artifact.ts:97-106 | A claim that is lost, or a disk that is not the staged baseline, is refused with nothing written; the disk is untouched until the claimed journal is written; from a staged disk only a lost claim refuses |
| ArtifactCompanion.Companion.PublishManifest | apps/cli/src/architecture-artifact.ts:129-132 | The manifest is written only over the fully promoted tree |
| ArtifactCompanion.Companion.SealReceipt | apps/cli/src/architecture-artifact.ts:133-135 | A receipt is requested only over the verified aggregate; a completed call added exactly one, and journaled its state after |
| ArtifactCompanion.Companion.Verify | apps/cli/src/architecture-artifact.ts:139-151 | Verification changes no tree and no manifest, succeeds only over the run's exact trees and with the API's closing confirmation |
| ArtifactCompanion.Companion.Apply | apps/cli/src/architecture-artifact.ts:92-136 | From any disk: a prepared run whose claim is lost, or that is not ready, changes nothing and does not complete; conservation, honest receipts, invariant kept; completion had the closing confirmation. From a resumable one: no refusal, and completion when 15n+14 effects are left for n moves |
| ArtifactCompanion.Companion.Deliver | apps/cli/src/architecture-artifact.ts:108-135 | The claimed part of apply: from an invariant world it is never refused |
| ArtifactCompanion.Companion.QuarantineActive | apps/cli/src/architecture-artifact.ts:167-167 | Only the run's own next tree is set aside; any other bytes are refused with nothing changed |
| ArtifactCompanion.Companion.PutOldBack | apps/cli/src/architecture-artifact.ts:168-168 | The baseline copy returns to the vacated place |
| ArtifactCompanion.Companion.RollbackMove | apps/cli/src/architecture-artifact.ts:164-169 | One move undone from every point apply or an earlier rollback can have left |
| ArtifactCompanion.Companion.RollbackMoves | apps/cli/src/architecture-artifact.ts:163-170 | All moves undone, last first, without refusal from any invariant world |
| ArtifactCompanion.Companion.MatchAllAbsent | apps/cli/src/architecture-artifact.ts:174-174 | Completes exactly when no owned path is active |
| ArtifactCompanion.Companion.VerifyBaseline | apps/cli/src/architecture-artifact.ts:172-174 | Completes exactly when the baseline's aggregate is active, or nothing when there was none; always once every move is restored |
| ArtifactCompanion.Companion.RestoreManifest | apps/cli/src/architecture-artifact.ts:172-177 | The manifest becomes the baseline's, or is removed when there was none |
| ArtifactCompanion.Companion.SealRollback | apps/cli/src/architecture-artifact.ts:178-180 | A completed call added exactly one restoration receipt, over the disk as it is, and then journaled the final state |
| ArtifactCompanion.Companion.Rollback | apps/cli/src/architecture-artifact.ts:152-181 | From any disk: foreign bytes stay where they are, and a receipt is requested only over the restored baseline. From any invariant world it never refuses, keeps the invariant at every stop, restores everything when it completes, and completes when 7n+10 effects are left |
| ArtifactCompanion.Companion.Unwind | apps/cli/src/architecture-artifact.ts:163-180 | The journaled part of rollback: from an invariant world it is never refused, and completes over the baseline |
| InstallRuns.InstallIsAtomic | apps/cli/src/cli.ts:3629-3713 | From any root, removals that tear included: stop install or update at any effect, interrupt recovery any number of times, let it finish once; then entry and active bytes are both the old ones (up to digest migration) or both the target's, no journal remains, other skills' entries are untouched |
| InstallRuns.RollbackIsAtomic | apps/cli/src/cli.ts:2413-2475 | The same for rollback, also when its target cannot be told from the installed package |
| InstallRuns.RecoveriesStayBetween | apps/cli/src/cli.ts:5246-5334 | Any number of interrupted or refused recoveries stay between the two outcomes |
| InstallRuns.RecoveryStaysBetween | apps/cli/src/cli.ts:5246-5334 | One recovery, completed, refused or stopped anywhere, stays between the two outcomes and empties the journal when it completes |
| InstallRuns.RecoveryBeforeCommit | apps/cli/src/cli.ts:5295-5332 | Before the commit a recovery, stopped anywhere, keeps the old entry with the previous bytes in one of their two places, and restores both when it completes |
| InstallRuns.RecoveryAfterCommit | apps/cli/src/cli.ts:5283-5293 | After the commit a recovery, stopped anywhere, keeps the new entry and the target bytes |
| InstallRuns.HaltedIsBetween | apps/cli/src/cli.ts:3651-3712 | Wherever a mutation halts, denied checkpoints included, the disk is between its two outcomes |
| InstallRecovery.RecoveryIsNotRefused | apps/cli/src/cli.ts:5295-5321 | On an unmanaged healthy root, which these commands keep healthy when removals are atomic, recovery never refuses |
| InstallRecovery.RecoveryCompletes | apps/cli/src/cli.ts:5246-5334 | There a recovery with seven effects left completes and empties the journal |
| InstallRuns.InstallConverges | apps/cli/src/cli.ts:3629-3713 | On an unmanaged root with atomic removals, after install or update stopped anywhere and any interrupted recoveries, one recovery with seven effects left completes and reaches one of the two outcomes |
| InstallRuns.RollbackConverges | apps/cli/src/cli.ts:2413-2475 | The same after a stopped rollback that left a healthy root |
| InstallRuns.PreviousBytesSurvive | apps/cli/src/cli.ts:5295-5332 | With removals that tear: until the registry commit the previous package's exact bytes stay at the active or the snapshot path through any number of interrupted or refused recoveries |
| InstallPlan.HaltedKeepsPrevious | apps/cli/src/cli.ts:3651-3708 | The same for the mutation itself, wherever it halts before the commit |
| InstallRuns.RefusalSparesItsTransaction | apps/cli/src/cli.ts:5297-5318 | With any number of journals: where recovery refuses a transaction, every place of that transaction alone is as it was before recovery began |
| InstallRuns.RefusalChangesNothing | apps/cli/src/cli.ts:5297-5318 | With the one journal these commands leave, a refused recovery has changed nothing at all |
| InstallRuns.RecoveryFailsClosed | apps/cli/src/cli.ts:5295-5321 | Whatever the one journal, the registry and the disk say: with files at the active path that neither package's digest describes, a drifted or missing recovery copy, or a managed workspace, any number of recoveries, stopped anywhere, leave the disk exactly as it was, and none completes |
| InstallRuns.OnlyHandsOffIsRefused | apps/cli/src/cli.ts:5295-5321 | Those four cases, with the target not in place, are exactly the refused ones; with seven effects left any other recovery completes |
| InstallRuns.ForeignFilesSurvive | apps/cli/src/cli.ts:5297-5299 | Files that another program put at the active path during a mutation, and that are neither package's, outlive every recovery |
| InstallRuns.CompletedOverTarget | apps/cli/src/cli.ts:5283-5293 | From any disk whose registry entry and active bytes are the target's: a completed recovery removes the stage, the journal and a rollback's two copies, and nothing else changes |
| InstallRuns.CompletedOverPrevious | apps/cli/src/cli.ts:5304-5332 | From any other disk: a completed recovery leaves the previous record and its verified bytes, or neither for a first install, no stage and no spare copy, and nothing else changes |
| InstallRuns.DenialIsUndone | apps/cli/src/cli.ts:5232-5244 | A checkpoint denied after the old tree moved leaves entry and bytes as before the call and no journal; on a managed root everything stays for authorised recovery |
| InstallRuns.RollbackKeepsHistoryIff | apps/cli/src/cli.ts:5273-5291 | A rollback stopped anywhere before its registry commit keeps every history snapshot under every schedule of interrupted recoveries if and only if its target differs from the installed package in version, platform, artifact or digest |
| InstallRuns.RecoveredRollbackKeepsHistoryIff | apps/cli/src/cli.ts:5273-5291 | One uninterrupted recovery of such a rollback keeps them if and only if the active path is vacated, or the entry as recorded is not the target's |
| InstallRuns.ReinstalledVersionLosesItsSnapshot | apps/cli/src/cli.ts:5273-5291 | After one version was installed twice, a rollback stopped once its journal was written and one recovery leave a history entry whose snapshot is gone |
| InstallRuns.BothInstallsAreAllowed | apps/cli/src/cli.ts:3609-3623 | Both installs that lead to that root are allowed |
| InstallStack.StacksStayOrdered | apps/cli/src/cli.ts:3575-3575 | In every state of every history of installs, updates, rollbacks, stops and recoveries, history followed by the installed version is non-decreasing, for any total preorder on versions |
| InstallStack.StepKeepsOrder | apps/cli/src/cli.ts:3624-3681 | One command or recovery keeps every stack non-decreasing, records waiting in a journal included |
| InstallStack.RegistryMatchesDisk | apps/cli/src/cli.ts:3672-3681 | In every state of every history whose installs each bring something new, removals that tear included, every history entry names an existing snapshot whose bytes match its digest, and adjacent stack entries differ |
| InstallStack.HealthyHistories | apps/cli/src/cli.ts:3672-3681 | When removals are atomic such a history keeps the whole root healthy: active packages match their entries, and what is journaled can be recovered |
| InstallHistory.RecoveryKeeps | apps/cli/src/cli.ts:5283-5332 | Recovery, stopped anywhere, keeps every history snapshot |
| InstallHistory.InstallKeeps | apps/cli/src/cli.ts:3629-3713 | Install and update, stopped anywhere, keep every history snapshot |
| InstallHistory.RollbackKeeps | apps/cli/src/cli.ts:2413-2475 | So does rollback, when its target differs from the installed package |
| InstallHistory.HaltedKeeps | apps/cli/src/cli.ts:3651-3712 | So does a halted mutation, denied checkpoints included |
| InstallHistory.BeforeIsNoCandidate | apps/cli/src/cli.ts:5273-5282 | Recovery never takes such an uncommitted rollback for committed |
| InstallHistory.HealthyIsKept | apps/cli/src/cli.ts:3672-3681 | On a healthy root every history entry names its snapshot |
| InstallStack.RollbacksUndoUpdates | apps/cli/src/cli.ts:2456-2468 | After n updates, k rollbacks restore the bytes, version, platform, artifact, provenance and history from before the last k updates |
| InstallStack.RollbackUndoesUpdate | apps/cli/src/cli.ts:2456-2468 | One rollback of an updated skill restores the package from before the update |
| InstallStack.UpdatedCanRollBack | apps/cli/src/cli.ts:2396-2425 | A rollback of an updated skill is never refused |
| InstallStack.UpdateReaches | apps/cli/src/cli.ts:3669-3707 | An update pushes exactly one entry, keeps the replaced bytes at its snapshot, and leaves older snapshots alone |
| InstallStack.RollbackReaches | apps/cli/src/cli.ts:2446-2475 | A rollback brings the newest snapshot's bytes to the active path and leaves older snapshots alone |
| InstallStack.DistinctStackRollsBackDistinctly | apps/cli/src/cli.ts:5273-5282 | Adjacent stack entries that differ are enough for recovery to tell a rollback's target from the installed package |
| InstallStack.PushKeepsOrder | apps/cli/src/cli.ts:3575-3575 | An install that eligibility allows keeps the stack non-decreasing |
| InstallStack.InstallPushes | apps/cli/src/cli.ts:3672-3681 | An install pushes its target on the stack |
| InstallStack.RollbackPops | apps/cli/src/cli.ts:2456-2468 | A rollback drops the top of the stack |
| InstallPlan.EligibleExactly | apps/cli/src/cli.ts:3571-3581 | A release is accepted if and only if its version parses, a prerelease was asked for, it is not older than the installed one, the client, adapter and installed version meet its minimums, and required user action was accepted |
| InstallPlan.PermittedExactly | apps/cli/src/cli.ts:3600-3627 | An install is planned if and only if the release is eligible, the recorded provenance and bytes are the expected ones, no intervening release needs consent that was not given, an unchanged version has an unchanged artifact, and an unregistered path is free |
| InstallPlan.ReconfirmedExactly | apps/cli/src/cli.ts:3653-3659 | What is checked again before anything moves: the first checkpoint, or the re-read artifact and eligibility |
| InstallPlan.CanRollBackExactly | apps/cli/src/cli.ts:2396-2422 | A rollback is planned if and only if a history entry exists, the installed bytes and the snapshot match their digests, and both carry the same provenance |
| InstallOutcomes.CompletedInstallWasAllowed | apps/cli/src/cli.ts:3571-3659 | A completed install or update had consent wherever the release, the re-read release or an intervening one requires user action, was not older, and kept an unchanged version's artifact |
| InstallOutcomes.CompletedInstallIs | apps/cli/src/cli.ts:3669-3713 | Every path and every field after a completed install or update: target bytes active, replaced bytes at the new snapshot, the archived entry pushed field by field, nothing else changed |
| InstallOutcomes.CompletedRollbackIs | apps/cli/src/cli.ts:2446-2475 | Every path and every field after a completed rollback: snapshot bytes active, both copies gone, the last entry's fields in the record, nothing else changed |
| InstallOutcomes.RollbackDistinctExactly | apps/cli/src/cli.ts:5273-5282 | Recovery can tell a rollback's target from the installed package exactly when version, platform, artifact or bytes differ |
| InstallOutcomes.InstallReasonIsAFault | apps/cli/src/cli.ts:3571-3627 | The reason an install is refused for is a fault of its release, its registry entry or its path |
| InstallOutcomes.RollbackReasonIsAFault | apps/cli/src/cli.ts:2396-2422 | The reason a rollback is refused for is a fault of its entry, its snapshot or its active bytes |
| InstallOutcomes.RecoveryReasonIsAFault | apps/cli/src/cli.ts:5295-5321 | The reason a recovery is refused for is what it may not touch |
| InstallPlan.CommittedHistory | apps/cli/src/cli.ts:3672-3681 | Pushing the archived package, or popping the target, leaves a history of existing snapshots |
| InstallPlan.PlannedIsWellFormed | apps/cli/src/cli.ts:3637-3650 | A journaled transaction carries what recovery relies on |
| InstallPlan.InFlightKeepsInv | apps/cli/src/cli.ts:3651-3693 | Every disk between staging and the registry commit is healthy |
| InstallPlan.CommitKeepsInv | apps/cli/src/cli.ts:3707-3711 | The disk right after the registry commit is healthy |
| InstallPlan.InFlightIsUncommitted | apps/cli/src/cli.ts:3669-3693 | Between staging and commit the previous package is whole at one of its two places |
| InstallPlan.HistorySurvives | apps/cli/src/cli.ts:3669-3689 | The moves of a transaction leave every history snapshot in place |
| InstallRecovery.CandidateIsSettled | apps/cli/src/cli.ts:5273-5293 | A transaction recovery takes for committed has its package in place with its history |
| InstallRecovery.CommittedOutlivesCleanup | apps/cli/src/cli.ts:5284-5291 | Clearing a committed transaction's spare copies keeps the root healthy |
| InstallRecovery.RestoredKeepsInv | apps/cli/src/cli.ts:5322-5332 | Dropping the stage, writing the previous record and dropping the spare snapshot each keep the root healthy |
| InstallRecovery.VacatedKeepsInv | apps/cli/src/cli.ts:5309-5309 | Clearing the active path is safe while the verified snapshot stands behind it |
| InstallRecovery.BroughtBackKeepsInv | apps/cli/src/cli.ts:5309-5311 | Bringing the verified snapshot back keeps the root healthy |
| InstallRoots.InstallRoot.InstallSkillVersion | apps/cli/src/cli.ts:3583-3714 | On any root: a forbidden install changes nothing, one not reconfirmed moves nothing, one denied late is undone, and with 22 effects any other completes with exactly the new disk; a stop leaves the stage only, a point of the transaction, or its recovery; files another program put at the active path before the move or after the promotion are never committed over; a healthy root stays healthy when removals are atomic |
| InstallRoots.InstallRoot.Rollback | apps/cli/src/cli.ts:2388-2478 | The same for rollback |
| InstallRoots.InstallRoot.Recover | apps/cli/src/cli.ts:5246-5334 | Any number of journals, one after the other, at most six effects each; completion leaves none; a healthy root stays healthy at every stop when removals are atomic; on a healthy unmanaged root seven effects are enough to complete |
| InstallRoots.InstallRoot.RecoverOne | apps/cli/src/cli.ts:5264-5332 | One transaction: confined to its own places, other snapshots spared, previous bytes kept before the commit, the whole resulting disk when it completes, nothing at all when it refuses, at most six effects |
| InstallRoots.InstallRoot.RestorePrevious | apps/cli/src/cli.ts:5304-5332 | The branch that restores, at every stop |
| InstallRoots.InstallRoot.RestoreTrees | apps/cli/src/cli.ts:5304-5321 | The previous bytes are at one of their two places at every stop, torn removals included |
| InstallRoots.InstallRoot.BringBack | apps/cli/src/cli.ts:5308-5312 | A verified snapshot replaces what is active without ever being the thing removed |
| InstallRoots.InstallRoot.CommitPrevious | apps/cli/src/cli.ts:5322-5330 | Metadata is restored before any journal is dropped |
| InstallRoots.InstallRoot.DropSpare | apps/cli/src/cli.ts:5331-5332 | The spare snapshot goes only when the previous package is active |
| InstallRoots.InstallRoot.FinishCommitted | apps/cli/src/cli.ts:5283-5293 | A committed transaction loses only its spare copies and its journal |
| InstallRoots.InstallRoot.ClearCopies | apps/cli/src/cli.ts:5284-5290 | Clearing a committed transaction's stage and copies leaves what recovery promises but for the journal, and spares everything else |
| InstallRoots.InstallRoot.RemoveRollbackCopies | apps/cli/src/cli.ts:2473-2474 | Only the two copies of a committed rollback are removed |
| InstallRoots.InstallRoot.Checkpoint | apps/cli/src/cli.ts:5232-5244 | A denied checkpoint runs recovery before it fails, and only a denied one fails |
| InstallRoots.InstallRoot.Mutate | apps/cli/src/cli.ts:3666-3711 | From the prepared journal to the registry commit: every stop is a point of the transaction or of its recovery; foreign promoted bytes are refused where they are |
| InstallRoots.InstallRoot.Carry | apps/cli/src/cli.ts:3634-3711 | From staging on: it ends with only the stage written, held back with nothing moved, denied and undone, at a point of the transaction, or committed |
| InstallRoots.InstallRoot.Reconfirm | apps/cli/src/cli.ts:3652-3667 | The first checkpoint, the re-read release and the last look at the active path each hold the mutation back with nothing moved |
| InstallRoots.InstallRoot.LookAgain | apps/cli/src/cli.ts:3666-3667 | Bytes at the active path other than those planned over are seen right before the move and left there |
| InstallRoots.InstallRoot.Promote | apps/cli/src/cli.ts:3669-3691 | The old tree moves, then the checkpoint may deny and undo, then the stage moves, each with its journaled state |
| InstallRoots.InstallRoot.ReadBackAndCommit | apps/cli/src/cli.ts:3693-3711 | Promoted bytes that are not the target's are refused and left; the target's are committed |
| InstallRoots.InstallRoot.CommitRecord | apps/cli/src/cli.ts:3707-3711 | The registry changes, then the journal says so; a stop leaves the disk before or after the change |
| InstallRoots.InstallRoot.Prepare | apps/cli/src/cli.ts:3634-3651 | Until the journal is written only the stage exists |
| RootLock.ExclusiveExactly | apps/cli/src/install-filesystem.ts:18-70 | For any number of clients and any interleaving of single filesystem calls, runs in which at most a owners end while holding and at most b owners' processes end are all exclusive if and only if a is 0 or b is at most 1 |
| RootLock.WorkIsExclusive | apps/cli/src/install-filesystem.ts:62-69 | Within that bound at most one live client is inside `work`, and the directory at the path is its own with its token |
| RootLock.RunKeepsInv | apps/cli/src/install-filesystem.ts:18-94 | The lock invariant holds along every run within the bound |
| RootLock.AcquireKeepsInv | apps/cli/src/install-filesystem.ts:24-42 | mkdir, lstat, open, stat, write and close keep the invariant, failures included |
| RootLock.CleanUpKeepsInv | apps/cli/src/install-filesystem.ts:43-60 | The cleanup of a failed acquisition keeps the invariant |
| RootLock.ReleaseKeepsInv | apps/cli/src/install-filesystem.ts:62-69 | Reading the owner and removing the directory keep the invariant |
| RootLock.ReclaimKeepsInv | apps/cli/src/install-filesystem.ts:76-94 | Probing, claiming, re-reading and removing keep the invariant |
| RootLock.ReapKeepsInv | apps/cli/src/install-filesystem.ts:82-93 | Taking the claim, removing the directory and dropping the claim keep the invariant |
| RootLock.EndingKeepsInv | apps/cli/src/install-filesystem.ts:111-114 | The end of any process at any moment keeps the invariant within the bound |
| RootLock.AmbiguousLockStays | apps/cli/src/install-filesystem.ts:79-80 | A reaper that ends between its claim and its removal leaves the lock ambiguous for good: nobody enters any more |
| RootLock.TwoWorkers | apps/cli/src/install-filesystem.ts:76-94 | A reachable state with one orphaned lock, two ended owners and two live clients inside `work` |
| RootLock.TwoReapers | apps/cli/src/install-filesystem.ts:88-93 | The claim is dropped by path: a stale reaper drops another reaper's claim, and two reapers are about to remove the same lock |
| RootLock.ForeignIsSpared | apps/cli/src/install-filesystem.ts:43-69 | A client that releases or cleans up and finds another's token, directory or owner file, or anything it did not make, changes nothing at the path, whatever its calls return |
| RootLock.AnsweringNumberIsSpared | apps/cli/src/install-filesystem.ts:76-94 | Where every probed process number answers, as reused numbers may, no client ever comes to remove a lock |
| RootLock.DeadLockIsReclaimed | apps/cli/src/install-filesystem.ts:24-42 | An orphaned lock that nobody claimed is removed by the next client, which then works under its own |
| RootLock.ChangedLockIsUnclaimed | apps/cli/src/install-filesystem.ts:88-93 | A reaper that claimed and then finds another token, or none, drops its claim and leaves the owner |
| RootLock.AnsweredProbeUnclaims | apps/cli/src/install-filesystem.ts:88-93 | So does one whose second probe is answered |
| RootLock.FailureCleansUp | apps/cli/src/install-filesystem.ts:43-60 | A failed acquisition removes the file and the directory it made |
| Frontmatter.DocumentReadsBack | apps/cli/src/author-init.ts:126-140 | The printed document parses to exactly its name and summary if and only if neither holds U+2028 or U+2029 and the header is at most 65536 bytes; otherwise the parser reports an error |
| Frontmatter.ParseSkillFrontmatter | apps/cli/src/codex-bootstrap.ts:1578-1625 | The parser's loops compute the reading of a document, which `FrontmatterBlocks.DocumentIsRead` and the entry rows below characterise |
| FrontmatterBlocks.DocumentIsRead | apps/cli/src/codex-bootstrap.ts:1578-1625 | An opened document is refused for more than 4096 lines, no closing line, or more than 65536 bytes up to it, in this order; otherwise it gives the name and description among the entries before the first closing line |
| FrontmatterBlocks.UnopenedIsRefused | apps/cli/src/codex-bootstrap.ts:1579-1580 | A document that does not start with three dashes and LF or CRLF is refused |
| FrontmatterBlocks.OpensExactly | apps/cli/src/codex-bootstrap.ts:1579-1580 | The opening delimiter, as bytes of the text |
| FrontmatterValues.MappingExactly | apps/cli/src/codex-bootstrap.ts:1602-1603 | A line is an entry with a key and a raw value exactly when it is a valid key, a colon, blanks and the rest of one line |
| FrontmatterValues.IgnoredIsSkipped | apps/cli/src/codex-bootstrap.ts:1597-1600 | White lines and comment lines add nothing |
| FrontmatterValues.IndentedIsRefused | apps/cli/src/codex-bootstrap.ts:1601-1601 | Any other line that starts with a blank is refused |
| FrontmatterValues.UnmappedIsRefused | apps/cli/src/codex-bootstrap.ts:1602-1603 | Any other line that is no entry is refused |
| FrontmatterValues.DuplicateIsRefused | apps/cli/src/codex-bootstrap.ts:1605-1605 | A second entry for a key is refused whatever its value |
| FrontmatterValues.PlainIsRead | apps/cli/src/codex-bootstrap.ts:1702-1702 | A plain value reads as itself, and so it does before blanks and a comment: one non-empty line, tight at both ends, that starts with no quote or block sign and has no number sign after a blank |
| FrontmatterValues.DoubleQuotedIsRead | apps/cli/src/codex-bootstrap.ts:1671-1683 | Any JSON string literal reads as what it means, also before a comment |
| FrontmatterValues.SingleQuotedIsRead | apps/cli/src/codex-bootstrap.ts:1689-1699 | Any one-line text between apostrophes, its own doubled, reads back, also before a comment |
| FrontmatterValues.JunkAfterDoubleQuote | apps/cli/src/codex-bootstrap.ts:1680-1681 | Anything but white and a comment after the closing quote is refused |
| FrontmatterValues.JunkAfterSingleQuote | apps/cli/src/codex-bootstrap.ts:1696-1697 | The same after the closing apostrophe |
| FrontmatterValues.UnclosedIsRefused | apps/cli/src/codex-bootstrap.ts:1687-1700 | A quoted value that is not closed is refused |
| FrontmatterValues.BadLiteralIsRefused | apps/cli/src/codex-bootstrap.ts:1682-1682 | A closed double-quoted value that is no JSON literal is refused |
| FrontmatterBlocks.BlockIsRead | apps/cli/src/codex-bootstrap.ts:1606-1652 | Under each of the six block headers, with or without a comment: indented tab-free lines read as their text without the shared margin, joined or with each lone break as a space, with all, none or one of the breaks at the end; the block ends at the next entry |
| FrontmatterBlocks.FoldingIs | apps/cli/src/codex-bootstrap.ts:1655-1666 | Folding is joining, with exactly the breaks that touch no other break and no end of the text turned into spaces |
| FrontmatterBlocks.BlockWithTabIsRefused | apps/cli/src/codex-bootstrap.ts:1645-1645 | A tab anywhere in a block is refused |
| FrontmatterBlocks.NestedIsSkipped | apps/cli/src/codex-bootstrap.ts:1614-1620 | A key with nothing after its colon has no value, and the blank and then the indented lines below it are skipped |
| FrontmatterBlocks.ReturnsAreBreaks | apps/cli/src/codex-bootstrap.ts:1581-1582 | A carriage return alone ends a line |
| Frontmatter.ReadEntries | apps/cli/src/codex-bootstrap.ts:1595-1624 | The entry loop computes the reading of the lines between the delimiters |
| Frontmatter.ReadValue | apps/cli/src/codex-bootstrap.ts:1606-1623 | A value is a block, a nested mapping to skip, or a scalar |
| Frontmatter.SkipNested | apps/cli/src/codex-bootstrap.ts:1617-1618 | Blank lines, then indented lines, are passed over |
| Frontmatter.ParseFrontmatterBlock | apps/cli/src/codex-bootstrap.ts:1627-1652 | The block ends at the first line neither blank nor indented; its value is the outdented, folded or literal, chomped text |
| Frontmatter.FoldYamlLines | apps/cli/src/codex-bootstrap.ts:1655-1666 | Single breaks between full lines become spaces |
| Frontmatter.ParseYamlScalar | apps/cli/src/codex-bootstrap.ts:1668-1703 | Quoted and plain scalars, with comments and every error case |
| Frontmatter.ParseDoubleQuoted | apps/cli/src/codex-bootstrap.ts:1671-1688 | The flag-driven scan finds the first unescaped quote |
| Frontmatter.ParseSingleQuoted | apps/cli/src/codex-bootstrap.ts:1689-1701 | The scan finds the first apostrophe that is not doubled |
| Frontmatter.FieldIsRead | apps/cli/src/codex-bootstrap.ts:1602-1622 | One printed line adds exactly its field, or is not a mapping when the value holds a separator |
| Frontmatter.FieldLineIsMapping | apps/cli/src/codex-bootstrap.ts:1602-1603 | A printed line is split into its key and its whole quoted value |
| Frontmatter.QuotedScalar | apps/cli/src/codex-bootstrap.ts:1671-1683 | A JSON string literal, read as a scalar, is its string |
| Frontmatter.PrintedShape | apps/cli/src/author-init.ts:129-139 | The printed document splits into its nine lines, with the closing delimiter at line four |
| Frontmatter.SingleQuotedReadsBack | apps/cli/src/codex-bootstrap.ts:1689-1701 | Any text, quoted with its apostrophes doubled, reads back |
| Frontmatter.LiteralBlockReadsBack | apps/cli/src/codex-bootstrap.ts:1627-1652 | Any tab-free lines, indented by any margin under a `&#124;+` header, read back without the margin that all but the blank ones share, and the block ends at the next entry |
| Frontmatter.FlushLines | apps/cli/src/codex-bootstrap.ts:1641-1646 | Lines of which one is neither blank nor indented have no such margin, so they read back as they are |
| Frontmatter.LineEndingsDoNotMatter | apps/cli/src/codex-bootstrap.ts:1579-1582 | Any document without carriage returns reads the same with every LF written as CRLF |
| JsonText.QuotedReadsBack | apps/cli/src/author-init.ts:131-132 | JSON.parse undoes JSON.stringify on every string, lone surrogates included (section 7 of RFC 8259) |
| JsonText.EscapedReadsBack | apps/cli/src/author-init.ts:131-132 | The body of a literal reads back unit by unit |
| JsonText.EscapedHidesQuotes | apps/cli/src/codex-bootstrap.ts:1673-1680 | The first unescaped quote in a literal followed by anything is its closing quote |
| JsonText.EscapedUnits | apps/cli/src/author-init.ts:127-128 | No control unit is left in a literal; a Unicode separator is there exactly when it was in the string |
| JsonText.LiteralIsRead | apps/cli/src/codex-bootstrap.ts:1682-1682 | Every literal of the JSON grammar is read as what its pieces mean: units, the eight letter escapes, four hexadecimal digits in either case (section 7 of RFC 8259) |
| JsonText.OnlyLiteralsAreRead | apps/cli/src/codex-bootstrap.ts:1682-1682 | Nothing but such literals is read |
| Text.SplitUndoesJoin | apps/cli/src/codex-bootstrap.ts:1582-1582 | Splitting undoes joining for lines without line feeds |
| Text.Utf8IsInjective | apps/cli/src/codex-bootstrap.ts:1527-1528 | Well-formed strings with the same UTF-8 bytes are equal |
| Text.ShortestForm | apps/cli/src/codex-bootstrap.ts:1527-1528 | Every scalar is encoded in the shortest form of RFC 3629, section 3, byte by byte |
| Text.SurrogatesEncoded | apps/cli/src/codex-bootstrap.ts:1527-1528 | A surrogate pair is encoded as its scalar, a lone surrogate as U+FFFD |
| CanonicalJson.CanonicalDecides | apps/cli/src/codex-bootstrap.ts:1714-1719 | Two JSON values have the same canonical text if and only if they are equal up to the order of object keys |
| CanonicalJson.HashedBytesDecide | apps/cli/src/codex-bootstrap.ts:1725-1727 | So do the UTF-8 bytes that are hashed |
| CanonicalJson.CanonicalSeparates | apps/cli/src/codex-bootstrap.ts:1714-1719 | Where one value's text ends can be told whatever value-ending text follows |
| CanonicalJson.SameTextIsEquivalent | apps/cli/src/codex-bootstrap.ts:1714-1719 | Same text means equal up to key order |
| CanonicalJson.EquivalentHasSameText | apps/cli/src/codex-bootstrap.ts:1714-1719 | Equal up to key order means same text |
| CanonicalJson.SortedAgree | apps/cli/src/codex-bootstrap.ts:1718-1718 | Sorting lists with distinct keys gives the same list exactly for the same elements |
| CanonicalJson.BeforeIsTotal | apps/cli/src/codex-bootstrap.ts:1721-1723 | The ordinal comparison is a strict total order |
| CanonicalJson.KeywordTexts | apps/cli/src/codex-bootstrap.ts:1715-1715 | The texts of null, true and false |
| CanonicalJson.ArrayText | apps/cli/src/codex-bootstrap.ts:1716-1716 | The text of any array of two values, with its brackets and comma |
| CanonicalJson.ObjectText | apps/cli/src/codex-bootstrap.ts:1717-1718 | The text of any object of two members, with its braces, colons and comma, is the one with the smaller key first, whichever comes first in the object |
| SnapshotIdentity.IdentityDecides | apps/cli/src/codex-bootstrap.ts:1524-1536 | Two snapshots as read have the same preimage if and only if they hold the same files in the same order; then their sizes agree too |
| SnapshotIdentity.StreamReadsBack | apps/cli/src/codex-bootstrap.ts:1530-1533 | The length-prefixed stream decodes to the (path bytes, content bytes) pairs, in order |
| SnapshotIdentity.OneFileStream | apps/cli/src/codex-bootstrap.ts:1530-1533 | The stream of a file whose path and content are one letter each |
| SnapshotIdentity.SnapshotArtifactIdentity | apps/cli/src/codex-bootstrap.ts:1524-1536 | Fails exactly when some content holds NUL or does not encode to its bytes; otherwise gives the whole stream and the size |
| BootstrapPlan.StatusAgreesWithResults | apps/cli/src/codex-bootstrap.ts:383-395 | For non-overlapping selectors and every outcome of selection and planning, the status is ready if and only if every terminal result is |
| BootstrapPlan.CreateDryRun | apps/cli/src/codex-bootstrap.ts:375-444 | The accepted selector lists are exactly the non-empty, at most eight, non-overlapping ones. The report is ready if and only if no contract is stale and every selector has exactly one usable directory, whose scan found nothing; each terminal result and reason, and each blocker, is what the directories and scans decide; a planning exception comes from a selected directory |
| BootstrapPlan.ResultsSettle | apps/cli/src/codex-bootstrap.ts:567-604 | No directory gives NotFound, several Ambiguous, an unplannable one its cause, findings or stale contracts NotReady, a clean scan ready, for each selector |
| BootstrapPlan.ReadyExactly | apps/cli/src/codex-bootstrap.ts:383-395 | Ready exactly when no contract is stale and each selector's one directory scans clean |
| BootstrapPlan.BlockersFollow | apps/cli/src/codex-bootstrap.ts:390-394 | Each blocker is there exactly when a contract is stale, a result is excluded, a result is blocked, or no result is ready |
| BootstrapPlan.OverlapExactly | apps/cli/src/codex-bootstrap.ts:540-552 | Two selectors overlap exactly when one source could satisfy both |
| BootstrapPlan.RejectResolvedSelectorDuplicates | apps/cli/src/codex-bootstrap.ts:540-561 | Accepts exactly the lists in which no two selectors could name one source; the second check, on resolved roots, is proved never to fire |
| BootstrapPlan.SelectSources | apps/cli/src/codex-bootstrap.ts:915-956 | A selector is selected exactly when one root holds its directory, and excluded otherwise |
| BootstrapPlan.MatchRoots | apps/cli/src/codex-bootstrap.ts:922-944 | The usable directories a selector could mean |
| BootstrapPlan.PlanCandidates | apps/cli/src/codex-bootstrap.ts:385-388 | Each selected source gives one candidate or one exclusion; an exception ends planning |
| BootstrapPlan.ReadyReport | apps/cli/src/codex-bootstrap.ts:383-395 | Ready means one candidate for each selector, named by it, in order |
| BootstrapPlan.FoundCandidateIsOwn | apps/cli/src/codex-bootstrap.ts:567-576 | Without overlapping selectors, the candidate a selector finds is its own |
| BootstrapPlan.ReadyHasNoBlocker | apps/cli/src/codex-bootstrap.ts:390-394 | No blocker means no stale contract, no exclusion, every candidate ready, and at least one |
| BootstrapPlan.ExclusionIsFound | apps/cli/src/codex-bootstrap.ts:576-583 | Every exclusion is found by some selector |
| Crc.Checksum.Compute | test-support/zip-fixture.ts:79-86 | The table-driven loop computes the bit-at-a-time division for every message |
| Crc.Checksum.Crc32Table | test-support/zip-fixture.ts:88-104 | The cached table is built once and holds the eight-fold shift of every octet |
| Crc.Checksum.TableEntry | test-support/zip-fixture.ts:96-100 | The inner loop computes one entry |
| Crc.ShiftIsLinear | test-support/zip-fixture.ts:98-98 | The bit step is linear under exclusive or |
| Crc.ShiftsAreLinear | test-support/zip-fixture.ts:97-99 | So are repeated steps |
| Crc.BitsAreShifts | test-support/zip-fixture.ts:97-99 | Feeding bits one at a time is shifting with the rest of the octet pending |
| Crc.TableStep | test-support/zip-fixture.ts:83-83 | Eight shifts of a word are its high part with the entry of its low octet |
| Crc.Lookup | test-support/zip-fixture.ts:83-83 | One step of the loop divides by one octet |
| Crc.BurstIsDetected | test-support/zip-fixture.ts:79-86 | Two messages that differ only within four consecutive octets have different checksums |
| Crc.DivisionIsInjective | test-support/zip-fixture.ts:82-84 | Processing an octet sequence loses nothing of the state |
| Crc.ShortMessages | test-support/zip-fixture.ts:79-86 | The checksums of no octet, of a zero and of all ones |
| Crc.ThreeLetters | test-support/zip-fixture.ts:79-86 | The checksum of the letters a, b and c |
| ZipWriter.WriteStoredZip | test-support/zip-fixture.ts:12-77 | Fails exactly when some number does not fit its field; otherwise writes exactly the archive of its entries |
| ZipLayout.ArchiveReadsBack | test-support/zip-fixture.ts:64-76 | A reader that starts at the end record, follows the central directory and insists on version 2.0, Unix attributes, one disk, no dates, extras or comments recovers names, stored bytes, sizes, checksums, methods, flags and modes, in order |
| ZipWriter.ArchiveSays | test-support/zip-fixture.ts:18-25 | What that reader learns of each entry: UTF-8 name and flag, content behind twelve zero bytes when encrypted, size, checksum, method and mode with their defaults |
| ZipWriter.ArchiveDecides | test-support/zip-fixture.ts:17-62 | Two entry lists give the same bytes if and only if they agree entry by entry on path, content, encryption, method and the low sixteen mode bits |
| ZipWriter.WriteEntry | test-support/zip-fixture.ts:18-61 | One entry's local and central records and the next offset, or an error exactly when a number does not fit |
| ZipWriter.LocalHeader | test-support/zip-fixture.ts:27-38 | The local header filled in place without gaps |
| ZipWriter.CentralHeader | test-support/zip-fixture.ts:40-57 | The central header filled in place without gaps |
| ZipWriter.EndRecord | test-support/zip-fixture.ts:66-74 | The end record filled in place without gaps |
| ZipWriter.HeaderBuffer.WriteUInt16LE | test-support/zip-fixture.ts:29-29 | Two little-endian bytes replace those at any place inside the buffer and nothing else changes; fails exactly for a value or a place out of range |
| ZipWriter.HeaderBuffer.NextUInt16LE | test-support/zip-fixture.ts:29-38 | Written in order without gaps, the fields so far are a prefix of the buffer |
| ZipWriter.HeaderBuffer.WriteUInt32LE | test-support/zip-fixture.ts:28-28 | The same for four bytes |
| ZipLayout.MembersReadBack | test-support/zip-fixture.ts:59-61 | Central headers with running offsets lead to the members |
| ZipLayout.MemberReadsBack | test-support/zip-fixture.ts:40-57 | One central header leads to its member and to the next header |
| ZipLayout.FieldsReadBack | test-support/zip-fixture.ts:27-38 | Little-endian fields read back wherever they lie |
| DeviceLogin.Client.Login | apps/cli/src/device-login.ts:49-130 | One run, stopped anywhere, succeeds if and only if the last answer was a well-formed authorization whose credential and configuration were saved and no request is stored; every other last answer has its own error; a decided request is removed unless the process ends first, an open one stays; both histories stay sound |
| DeviceLogin.Client.Restarts | apps/cli/src/device-login.ts:49-130 | Over any number of runs, each stored history extends the one before or belongs to a new request started no earlier than the old one's last schedule; all are sound, with fewer than 120 polls of each code |
| DeviceLogin.Client.Poll | apps/cli/src/device-login.ts:79-129 | The loop terminates, keeps the history sound, and ends as the last answer says, or as expired or interrupted while none decides |
| DeviceLogin.Client.PollOnce | apps/cli/src/device-login.ts:82-102 | One pass keeps the debt of the stored record, and moves the next poll on by at least five seconds |
| DeviceLogin.Client.SchedulePoll | apps/cli/src/device-login.ts:87-90 | A poll is scheduled no earlier than the stored instant, and saved before it is sent; a schedule that could not be saved ends the run |
| DeviceLogin.Client.Postpone | apps/cli/src/device-login.ts:97-101 | The next poll waits at least the answered interval from the answer |
| DeviceLogin.Client.Post | apps/cli/src/device-login.ts:23-40 | A poll is sent only after its schedule was recorded and strictly before the deadline |
| DeviceLogin.Client.Start | apps/cli/src/device-login.ts:69-77 | A new request carries the fields of an answer within its bounds, owes a full interval before its first poll and is saved before any; each failure has its error |
| DeviceLogin.Client.Resume | apps/cli/src/device-login.ts:61-67 | A stored request for the same scopes that has not expired is taken up unchanged with its history; otherwise the error says why, and only an expired one is removed |
| DeviceLogin.Client.Decide | apps/cli/src/device-login.ts:103-127 | Each decision has its result: denied, expired and invalid codes and a failed save each their own error, success only for a redeemed code whose stored request was removed |
| DeviceLogin.PollsAreSpaced | apps/cli/src/device-login.ts:88-90 | Scheduled polls n apart in the list are at least 5n seconds apart in time |
| DeviceLogin.PollsAreFew | apps/cli/src/device-login.ts:82-101 | A code is polled fewer than 120 times |
| DeviceLogin.ScheduleKeepsSound | apps/cli/src/device-login.ts:87-90 | Scheduling when the stored instant has passed and the deadline has not keeps the history sound |
| DeviceLogin.SendKeepsSound | apps/cli/src/device-login.ts:24-25 | Sending before the deadline keeps the history sound |

## Left out

- The API behind fences, claims, approvals and receipts: a request succeeds, is refused, or ends the run.
- Staging of an artifact before its first journal write, and the window between the claim and its journal write: the
  client promises no resume there.
- Symbolic links, inodes, ownership checks and fsync ordering: a rename, a file write and a directory read are one step
  each. The inode check in the lock's cleanup is kept.
- The tree digest compared in the aggregate check: with injective digests it follows from the trees.
- The locale-dependent order of the legacy digest: a legacy digest is the digested files with a tag.
- Edits by other programs at other instants than those two: the root lock keeps the client's own processes apart, and
  what the calls check again is checked at those two.
- Library adoption, workspace binding reads and target-operation artifact checks around installs: they only add refusals
  before anything is moved.
- Semantic versions, package grammar, manifest parsing and tree rendering: parameters or already verified inputs.
- Sorting of selectors and of their results, and the slug grammar of the allowlist: the model starts from the sorted
  list, on which the stable sort of the results changes nothing.
- The stages inside planning one candidate: each source comes to a scan, an exclusion or an exception.
- The text of a stored login request: the record read back is the one written, so the checks of its format never fail.
- DeviceLogin.Client.SchedulePoll: the spacing of polls covers the schedules that were saved; no poll is sent for one that
  was not, and a resumed run builds on the one before.
- Terminal output, prompts, token formats and signals: an interrupt is a run that stops.
- The HTTP API, keyring stores, lease files, bounded response reading and the other command adapters.
- Fractional or negative file modes beyond their low sixteen bits, which the ZIP format does not keep.
- RootLock.Read: the owner file is read in one step, at an instant between its opening and its reading; the only change
  an owner file sees is becoming complete, so every read has such an instant.
