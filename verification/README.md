# A Dafny model of the local stores of harnessctl

harnessctl keeps documents, issues, memory records, session bindings and worktree records
in plain files, and builds small transaction protocols on top of renames and unlinks. This
project models those protocols, the graph the issues form, the canonical encodings of
issues and documents, and the ownership rules of the installer, and proves what they keep.

## Structure

A disk (`FileBatches.Disk`) is a map from paths to bytes. One publish, that is one rename
or one unlink, is one atomic step. A script of faults says of every coming publish whether
it works, throws, or is the step at which the process dies; a publish that throws may have
taken effect already, which is what a failing directory sync after a rename looks like. A
revision is a constructor over the bytes, so SHA-256 is taken to be free of collisions. The
path order of a batch is a parameter, so nothing depends on the order chosen.

| file | models |
|---|---|
| `Wrappers.dfy` | option and result types, error categories |
| `FileBatches.dfy` | the disk, the batch writers, their checks and their rollback |
| `Identities.dfy` | ULIDs, prefixed identities and their order |
| `DocumentCatalog.dfy` | lineages, discovery of the catalogue, planning |
| `DocumentMoves.dfy` | the journaled move of a lineage, its recovery, and the refinement of one atomic step |
| `DocumentPlans.dfy` | which moves are allowed, and that planning never refuses an allowed one |
| `DocumentEdits.dfy` | create, update, version; runs of operations; history |
| `DocumentFailures.dfy` | what a move leaves when a publish throws, and which of it recovery can decide |
| `DocumentMixtures.dfy` | catalogues of which some publishes of a batch hold and others do not, and when they are valid |
| `DocumentRuns.dfy` | the life of a store: edits, interrupted moves, failing and completed recoveries |
| `DocumentStore.dfy` | the store itself, writing against a disk that can fail |
| `DocumentExamples.dfy` | concrete stores on which the document results with a condition fail |
| `Digraphs.dfy` | finite graphs and the depth-first searches |
| `IssueGraph.dfy` | the typed issue graph and its five operations |
| `IssueArchives.dfy` | archiving as a batch of issue files, and what an interrupted batch leaves |
| `ExecutionContexts.dfy` | workspace and binding records under an undo log |
| `EpicWorkspaces.dfy` | the worktree of one Epic, from creation to cleanup |
| `CanonicalYaml.dfy` | the canonical encoding of issues and a reader for it |
| `DocumentFormat.dfy` | the text form of documents |
| `McpOwnership.dfy` | ownership of MCP entries in host files |
| `MemorySupersession.dfy` | memory records, supersession and deletion |

## Main results

- **A lineage move is one atomic step.** It may die after any write, any number of
  recoveries may die after any of theirs, and issues may be linked and unlinked in between.
  At every such point each version has its exact bytes at its source, its destination or its
  backup; the next recovery leaves exactly the store before or exactly the store after the
  move, as the deletion of the journal decided, and it is refused if and only if an issue
  links to something that is not an active document of that store (`MoveRefinesAtomicStep`).
  The same holds when recoveries throw at any publish, their own rollbacks included
  (`FailingRecoveriesKeepTheDecision`).
- **What a throwing move leaves** is told by the faults alone: which files hold
  (`DocumentStore.MoveLineage`, `LeftBy`), whether recovery decides it (`MoveLeftIsDecided`,
  if and only if), whether every version outlives the removal of the journal
  (`FailedMoveKeepsVersions`), and whether the documents are the old ones, the moved ones, or
  at least a valid catalogue (`FailedMoveCatalog`).
- **A superseded version never changes** over any run of document operations, and the
  catalogue stays valid (`RunsKeepHistory`); so it is over the whole life of a store, through
  every move recovery can decide and recoveries that fail until one completes
  (`LifeKeepsHistory`). The operations of the store ensure that what they leave is such an
  event (`DocumentStore.MoveLineage`, `DocumentStore.UpdateDocument`).
- **The issue graph stays valid** over every run from an empty store in which no `blocks`
  closes a cycle (`RunsKeepGraph`). A step breaks it exactly when it is such a `blocks`
  (`StepKeepsSound`), and then it is the last step of the run (`OnlyTheLastBreaks`).
- **Both records or neither.** What the next holder of the lock sees of a workspace and
  binding publication is a function of the faults: both old, both new, or torn, the latter
  exactly as `FatesAreExact` says (`ExecutionContextStore.Publish`). Over every run of the
  operations, through failures, deaths and recoveries, committed generations are not reused,
  Epics are unique and stay, and stale bindings do not resolve (`RunsAreHistories`,
  `RunsKeepGenerationsAndEpics`).
- **A cleanup that is run again reaches `closed`**, whatever interrupted it
  (`EpicWorkspace.RerunCleanup`).
- **Issues are read back from their encoding** exactly when no list under a nested
  `comments` key is foreign to the comment form (`IssueRoundTrip`).
- **The installer changes only its own entries.** Over any interleaving with operator edits
  and changes of configuration, an entry it changes was absent, a historical definition of
  that installation, or a definition an earlier installation put there
  (`RunsChangeOnlyTheirOwn`).

## Where the code does less than one would expect

Each of these is proved, as an exact condition or as a concrete case.

- `extensions/generic-tools/issues.ts:578-582` adds `blocks` without the cycle check that
  `depends_on` gets: `StepKeepsSound`, `BlocksCanCloseCycle`. Every later mutation is then
  refused (`OnlyTheLastBreaks`).
- `extensions/generic-tools/issues-contract.ts:604` prints any list under a nested key
  `comments` as comments: `IssueRoundTrip`, `NestedCommentsAreLost`.
- `extensions/generic-tools/local-persistence.ts:167-170` records a replacement after
  publishing it, so a publish that throws after its rename is not undone:
  `RollbackExactness`, `FailedCreateStays`. The issue and memory writers record it first and
  are exact.
- `extensions/generic-tools/documents.ts:718` refuses a recovery while an issue links to a
  document that is not active in the store it leads to, and `extensions/generic-tools/issues.ts:599-616`
  links without running that recovery. A restore that dies between its batch and the
  deletion of its journal leaves its lineage active, so it can be linked, and then every
  recovery is refused until the link is gone: `LinkBlocksRecovery`, `LinkedRestoreIsStuck`.
- `extensions/generic-tools/documents.ts:664-669`: a journal publish that throws after its
  rename leaves the journal while its backups are taken back, and every later operation is
  refused exactly if one of them is gone: `JournalNeedsBackups`, `StuckJournal`.
- `extensions/generic-tools/documents.ts:383-387` removes the journal even if the rollback
  failed. A version is lost exactly if its deletion took effect and was not undone while its
  creation did not or was undone: `FailedMoveKeepsVersions`, `LostByFailedRestore`. The
  catalogue is valid exactly if no version is left at its source while one is at its
  destination, and none is lost below one that is not: `FailedMoveCatalog`. A single creation
  that throws after its rename, with every other publish working, leaves a version in both
  places and no journal, and then every operation is refused: `DoubledByFailedArchive`.
- `extensions/generic-tools/documents.ts:316-323`: an update has no journal. It survives a
  crash after any of its writes, in either order, exactly if it keeps its file:
  `UpdateIsCrashSafe`. If the old file goes first, the newest version is lost, the one before
  it is no longer superseded (`CrashUncoversHistory`), can be edited (`UncoveredIsEditable`),
  and such an edit takes it out of the catalogue (`UncoveredIsOverwritten`), so
  `RunsKeepHistory` does not extend over that crash: `RenameLosesNewest`. An update that
  throws does the same exactly if just one of its two writes holds in the end, even when its
  rollback completes: `FailedUpdateCatalog`, `HalvedByFaults`, `RenameThrows`.
- `extensions/generic-tools/execution-context.ts:869-893`: if removing the log takes effect
  but is reported as failed and the rollback then stops between its two records, the two
  records disagree: `FatesAreExact`, `TornCommit`. The session does not resolve in that
  state: `TornDoesNotResolve`.
- `extensions/generic-tools/workspaces.ts:166-188` never resumes a creation that stopped
  between the record and the worktree: `EpicWorkspace.CreateWorkspace` says exactly when that
  happens, `EpicWorkspace.EnsureExisting` that it stays refused.
- `extensions/generic-tools/identities.ts:49-55` sorts an all-digit ULID as a legacy number:
  `IdentityOrderOnUlids`, `DigitUlidSortsEarly`.
- `extensions/generic-tools/documents-contract.ts:91-115` accepts a title with a carriage
  return, which the decoder refuses: `EncodeDecode`, `TitleReturnIsRefused`.
- `extensions/generic-tools/issues.ts:646-661` archives without a journal. A crash leaves a
  valid graph exactly if no issue has two files and no issue refers to one that has none:
  `InterruptedArchive`, `ArchiveCrash`.

## Model

| member | source | states |
|---|---|---|
| `FileBatches.InPathOrder` | extensions/generic-tools/local-persistence.ts:144-148 | Sorting a batch keeps its replacements, each as often as before. |
| `FileBatches.InPathOrderIsSorted` | extensions/generic-tools/local-persistence.ts:144-148 | With a total order of paths, the sorted batch is ascending. |
| `FileBatches.ApplyPermuted` | extensions/generic-tools/local-persistence.ts:138-186 | Publishing distinct paths in any other order leaves the same disk. |
| `FileBatches.Disk.Publish` | extensions/generic-tools/local-persistence.ts:990-1033 | One publish changes one path or nothing, and a publish that throws may have changed it. |
| `FileBatches.Disk.CheckBatch` | extensions/generic-tools/local-persistence.ts:138-160 | A batch is refused before its first publish exactly when it is empty, too long, repeats a path or meets an unexpected revision; otherwise the old bytes of each path are remembered. |
| `FileBatches.Disk.ApplyBatch` | extensions/generic-tools/local-persistence.ts:138-186 | Refused exactly when a check fails, applied exactly when every publish works, and then the whole batch holds and no other path changed. A death leaves exactly a prefix of the path order. After a throw each path of the batch is new exactly if its publish took effect and was not undone, as the faults tell, and the batch counts as rolled back exactly when the rollback publishes work. |
| `FileBatches.Disk.PublishInOrder` | extensions/generic-tools/issues-storage.ts:134-161 | The publication loop for both orders of recording and publishing, accounted for path by path; with recording first, a completed rollback restores the old disk whatever the failing publish did. |
| `FileBatches.Disk.RollBack` | extensions/generic-tools/local-persistence.ts:172-185 | Recorded replacements are undone last first, going on after a rollback publish that throws; afterwards exactly those hold that took effect and were not undone. |
| `FileBatches.Disk.UndoOne` | extensions/generic-tools/local-persistence.ts:172-185 | Undoing one replacement takes the account of the batch one step further, and a death keeps what it had. |
| `FileBatches.UndoStep` | extensions/generic-tools/local-persistence.ts:172-185 | Putting back one path undoes exactly that publish in the account. |
| `FileBatches.LeftIsBetween` | extensions/generic-tools/local-persistence.ts:138-186 | Whatever a failed batch leaves, each of its paths is old or new and every other path as before. |
| `FileBatches.RollbackExactness` | extensions/generic-tools/local-persistence.ts:160-185 | With recording after publishing, a completed rollback is exact if and only if the failing publish had no effect or wrote what was there. |
| `FileBatches.FailedCreateStays` | extensions/generic-tools/local-persistence.ts:160-185 | A create whose publish throws after its rename is reported as rolled back and stays on the disk. |
| `Identities.CompareCodePoints` | extensions/generic-tools/identities.ts:59-67 | The loop computes the order by first differing code point and then by length. |
| `Identities.OrderIsAntisymmetric` | extensions/generic-tools/identities.ts:59-67 | Swapping the strings negates the result, and only equal strings compare as equal. |
| `Identities.OrderIsTransitive` | extensions/generic-tools/identities.ts:59-67 | The order is transitive, strictly if one of the two steps is strict. |
| `Identities.CreateUlid` | extensions/generic-tools/identities.ts:9-30 | A ULID is made exactly for 48 bits of time and ten bytes of entropy; it is the ten base-32 digits of the time and then the sixteen of the entropy. |
| `Identities.EncodeBase32` | extensions/generic-tools/identities.ts:9-30 | The digit loop writes the fixed-width base-32 numeral. |
| `Identities.DigitsKeepOrder` | extensions/generic-tools/identities.ts:9-30 | Fixed-width numerals compare as strings like their numbers, and differ when the numbers do. |
| `Identities.UlidsKeepOrder` | extensions/generic-tools/identities.ts:9-30 | ULIDs are ordered by time and then entropy, and no two inputs give the same one. |
| `Identities.UlidShape` | extensions/generic-tools/identities.ts:32-34 | Every generated suffix has the shape of a ULID and a first character of at most 7. |
| `Identities.IdentityOrderIsTotal` | extensions/generic-tools/identities.ts:46-57 | Comparing prefixed identities is a total order on all strings. |
| `Identities.IdentityOrderOnUlids` | extensions/generic-tools/identities.ts:46-57 | On ULIDs it is creation order if and only if it is not the case that just the later one is all digits. |
| `Identities.DigitUlidSortsEarly` | extensions/generic-tools/identities.ts:49-55 | Two ULIDs of which the later one sorts first. |
| `DocumentCatalog.SortEntities` | extensions/generic-tools/documents.ts:466-489 | The sorted entities are a permutation in the order of identity and version. |
| `DocumentCatalog.ValidateLineage` | extensions/generic-tools/documents.ts:551-563 | A sorted lineage is accepted exactly if its versions are one to n, in one place, with one creation time, and there are not too many. |
| `DocumentCatalog.LineagesAgree` | extensions/generic-tools/documents.ts:551-563 | Checking each group of the sorted entities is the same as the declarative validity of all lineages. |
| `DocumentCatalog.VersionsCount` | extensions/generic-tools/documents.ts:551-563 | In a valid catalogue the sorted versions of an identity are one to n: no gap, no repetition. |
| `DocumentCatalog.GroupById` | extensions/generic-tools/documents.ts:466-489 | Grouping keeps every entity under its identity, in order. |
| `DocumentCatalog.CatalogFromEntities` | extensions/generic-tools/documents.ts:466-489 | A catalogue is built exactly when the documents are valid, and then it lists all of them and every complete lineage in version order. |
| `DocumentCatalog.Discover` | extensions/generic-tools/documents.ts:433-464 | Reading the disk succeeds exactly when its documents form a valid catalogue, and describes exactly them. |
| `DocumentCatalog.DiscoverDocs` | extensions/generic-tools/local-persistence.ts:292-373 | The same for an overlaid set of documents, as recovery validates it. |
| `DocumentCatalog.ProposeCatalog` | extensions/generic-tools/documents.ts:491-539 | Planning accepts exactly the batches whose revisions match, whose files lie at canonical paths and whose result is valid; the planned catalogue is the one of the disk after the batch. |
| `DocumentCatalog.ReplaceByPath` | extensions/generic-tools/documents.ts:491-539 | The replacements are checked one by one against the state they meet; the result is the batch applied as a whole. |
| `DocumentMoves.MoveComplete` | extensions/generic-tools/documents.ts:346-390 | The whole batch takes the documents to those of the atomic move and keeps journal and backups. |
| `DocumentMoves.JournalPlan` | extensions/generic-tools/documents.ts:673-723 | In every state in the middle of a move, recovery accepts the journal and plans the rollback and the cleanup, unless an issue links to a document that is not active. |
| `DocumentMoves.JournalRecovery` | extensions/generic-tools/documents.ts:673-723 | That plan restores the old store, and each of its prefixes leaves a state recovery accepts again. |
| `DocumentMoves.OverlayIsRecovered` | extensions/generic-tools/documents.ts:691-719 | For every disk whose journal recovery accepts, the overlay it validates is exactly the documents after its rollback and after its whole plan. |
| `DocumentMoves.OrphanRecovery` | extensions/generic-tools/documents.ts:825-847 | Without a journal, recovery deletes whatever backups are left and nothing else, from any prefix of itself. |
| `DocumentMoves.CrashedMoveIsRecoverable` | extensions/generic-tools/documents.ts:346-390 | After any number of steps of a move the store is in the middle of it, before it or after it; the commit point is the deletion of the journal. |
| `DocumentMoves.RecoveryStep` | extensions/generic-tools/documents.ts:673-723 | From each such state, recovery is refused exactly if a link does not resolve in the decided store; otherwise it completes to that store, and when it dies it leaves such a state with the same decision. |
| `DocumentMoves.RecoveriesStayRecoverable` | extensions/generic-tools/documents.ts:673-723 | So does any number of recoveries that die, whatever links each of them meets. |
| `DocumentMoves.RecoverableSurvives` | extensions/generic-tools/documents.ts:635-662 | In each such state every version exists with its exact bytes at its source, its destination or its backup. |
| `DocumentMoves.MoveRefinesAtomicStep` | extensions/generic-tools/documents.ts:346-390 | A move with a crash after any write, and any number of crashed recoveries with links changing in between: no version is lost, and the next recovery leaves exactly the old or exactly the moved store, the latter if and only if the journal had been deleted; it is refused if and only if a link does not resolve in that store. |
| `DocumentMoves.FailedRecoveryStaysRecoverable` | extensions/generic-tools/documents.ts:673-723 | However a recovery ends, thrown and half undone included, the decision stands and recovery can go on. |
| `DocumentMoves.FailingRecoveriesKeepTheDecision` | extensions/generic-tools/documents.ts:808-823 | The same after any number of recoveries that fail in any way. |
| `DocumentMoves.LinkBlocksRecovery` | extensions/generic-tools/documents.ts:718 | A restore that dies before its journal is deleted leaves a valid catalogue in which the restored document can be linked; linked, it makes recovery refuse. |
| `DocumentMoves.KeptLinksResolve` | extensions/generic-tools/documents.ts:346-390 | Links that resolved before the move and keep clear of an archived lineage resolve whatever was decided, so they never block recovery. |
| `DocumentPlans.FilenameTellsIdentity` | extensions/generic-tools/documents-contract.ts:85-89 | Two canonical file names are equal only for one identity, whatever the slugs. |
| `DocumentPlans.DestinationFree` | extensions/generic-tools/documents.ts:355-368 | In a valid catalogue no document is in the way of a lineage that changes sides. |
| `DocumentPlans.MovedDocs` | extensions/generic-tools/documents.ts:369-371 | The planned documents are the documents on the disk after the move. |
| `DocumentPlans.MovedValid` | extensions/generic-tools/documents.ts:346-390 | Moving a whole lineage keeps the catalogue valid, so planning refuses no allowed move. |
| `DocumentPlans.AllowedMoveIsPlanned` | extensions/generic-tools/documents.ts:392-408 | Whatever passes the checks of the caller is a move to which the refinement applies, and the links of issues stay resolved. |
| `DocumentEdits.FilenameTellsVersion` | extensions/generic-tools/documents-contract.ts:85-89 | Two canonical file names are equal only for one version. |
| `DocumentEdits.UpdateAccepted` | extensions/generic-tools/documents.ts:302-325 | An update of a current active version is accepted by planning if and only if the new version can be encoded and read back. |
| `DocumentEdits.VersionAccepted` | extensions/generic-tools/documents.ts:327-344 | A new version is accepted if and only if it can be read back and the lineage and the catalogue have room for it. |
| `DocumentEdits.CreateAccepted` | extensions/generic-tools/documents.ts:234-265 | A create is accepted if and only if it can be read back, the identity is new and the catalogue has room. |
| `DocumentEdits.StepKeepsValid` | extensions/generic-tools/documents.ts:302-420 | Every accepted operation leaves a valid catalogue. |
| `DocumentEdits.DocsOfApply` | extensions/generic-tools/documents.ts:466-539 | A batch of document files changes the documents as it changes the disk. |
| `DocumentEdits.StepKeepsSuperseded` | extensions/generic-tools/documents.ts:302-420 | No operation changes the content of a superseded version. |
| `DocumentEdits.RunsKeepHistory` | extensions/generic-tools/documents.ts:234-420 | Over every run all states are valid, and what is superseded at one point is there, superseded, at every later one. |
| `DocumentEdits.RenameCrash` | extensions/generic-tools/documents.ts:316-323 | A crash between the two writes of a renaming update leaves either a catalogue nothing accepts or a valid one without the newest version. |
| `DocumentEdits.UpdateIsCrashSafe` | extensions/generic-tools/documents.ts:302-325 | Every crash of an accepted update, whatever the order of its writes, leaves a valid catalogue with the newest version if and only if the update keeps its file. |
| `DocumentEdits.CrashUncoversHistory` | extensions/generic-tools/documents.ts:316-323 | After a crash that deleted the old file first, the version before is no longer superseded. |
| `DocumentEdits.UncoveredIsEditable` | extensions/generic-tools/documents.ts:410-420 | It is then the current version and can be edited. |
| `DocumentEdits.UncoveredIsOverwritten` | extensions/generic-tools/documents.ts:302-325 | An edit that changes it takes its content out of the catalogue. |
| `DocumentFailures.JournalNeedsBackups` | extensions/generic-tools/documents.ts:664-707 | On every disk between a journal that could not be published and the removal of all its backups, recovery is refused for good if the journal is there and a backup is not; otherwise it leads back to the store before the move. |
| `DocumentFailures.PartlyTakenBack` | extensions/generic-tools/documents.ts:849-854 | On each such disk the documents are as before and the backups left are those of the move. |
| `DocumentFailures.CleanupKeepsVersions` | extensions/generic-tools/documents.ts:383-387 | With journal and backups removed, every version survives if and only if each is at its source or its destination. |
| `DocumentFailures.VersionAfterFailure` | extensions/generic-tools/documents.ts:372-388 | After a failed batch a version is at its source unless its deletion holds, and at its destination exactly if its creation holds, by the faults. |
| `DocumentFailures.FailedMoveKeepsVersions` | extensions/generic-tools/documents.ts:383-387 | A failed move whose journal is removed keeps every version if and only if the faults leave none deleted at its source and not created at its destination. |
| `DocumentFailures.CleanedMoveIsRecoverable` | extensions/generic-tools/documents.ts:372-388 | After the whole batch or none of it, a cleanup that failed in any way leaves a decided move. |
| `DocumentFailures.DocumentsByFaults` | extensions/generic-tools/documents.ts:372-388 | After a failed batch the documents are the old ones if and only if no publish holds, and the moved ones if and only if all hold. |
| `DocumentFailures.FailedBatchDecided` | extensions/generic-tools/documents.ts:372-388 | A failed batch can be put back if and only if its journal is there or nothing of it holds, and is committed if and only if its journal is gone and all of it holds. |
| `DocumentFailures.BackupsByFaults` | extensions/generic-tools/documents.ts:849-854 | Every backup is still there if and only if taking them back stopped with no deletion of one holding. |
| `DocumentFailures.MoveLeftIsDecided` | extensions/generic-tools/documents.ts:346-390 | Recovery can decide a move that stopped if and only if the faults are of these kinds: it stopped before its journal; at its journal, unless the journal reached the disk and a backup was taken back, and then every recovery is refused; in its batch, with the journal still there, or with nothing or everything of the batch holding; or after its batch. |
| `DocumentMixtures.Covered` | extensions/generic-tools/documents.ts:355-368 | A planned move takes along every version of its lineage. |
| `DocumentMixtures.MixedCatalog` | extensions/generic-tools/documents.ts:372-388 | A lineage of which each version is at its source, its destination, both or neither is a valid catalogue if and only if it is on one side and has no gap. |
| `DocumentMixtures.FailedMoveCatalog` | extensions/generic-tools/documents.ts:372-388 | After a failed move, whatever its cleanup did, the documents are the old ones, the moved ones, or a valid catalogue, each if and only if the faults say so. |
| `DocumentMixtures.HalvedByFaults` | extensions/generic-tools/local-persistence.ts:160-185 | Just one of two publishes holds if and only if the first threw after taking effect, or it worked and the second died, or the second threw and took effect exactly if undoing the first did. |
| `DocumentMixtures.EditLeft` | extensions/generic-tools/local-persistence.ts:160-185 | A failed batch of one or two writes leaves nothing or all of it, except in that case, and then one of the two. |
| `DocumentMixtures.FailedUpdateCatalog` | extensions/generic-tools/documents.ts:302-325 | A failed update leaves a valid catalogue with the newest version if and only if it keeps its file or not just one write holds; otherwise the catalogue is invalid or the newest version is gone. |
| `DocumentMixtures.FailedUpdateOnDisk` | extensions/generic-tools/documents.ts:302-325 | The same of the disk the store leaves. |
| `DocumentStore.CleanupAfterFailure` | extensions/generic-tools/documents.ts:383-387 | Removing the journal after a failed move makes what is on the disk, a stray write included, the new store. |
| `DocumentStore.LineageUnique` | extensions/generic-tools/documents.ts:392-408 | An identity of a valid catalogue has one lineage. |
| `DocumentStore.RecoveredHasNoJournal` | extensions/generic-tools/documents.ts:673-723 | A completed recovery leaves no journal, from any disk. |
| `DocumentStore.DocumentStore.CleanupMoveJournal` | extensions/generic-tools/documents.ts:808-823 | The journal is deleted first and the backups afterwards; what a failure leaves is exactly accounted for, and the journal stays exactly if its deletion had no effect. |
| `DocumentStore.DocumentStore.CleanupOrphanBackups` | extensions/generic-tools/documents.ts:825-828 | Leftover backups are deleted, and nothing else; a failure leaves exactly those not deleted or put back. |
| `DocumentStore.DocumentStore.Recover` | extensions/generic-tools/documents.ts:673-723 | Recovery refuses and writes exactly as planned for the state it meets, and however it fails the next recovery can go on. |
| `DocumentStore.DocumentStore.RecoverOrphans` | extensions/generic-tools/documents.ts:673-684 | The branch without a journal, with its limits and its checks. |
| `DocumentStore.DocumentStore.RecoverMove` | extensions/generic-tools/documents.ts:685-723 | The branch with a journal: checks, overlay, rollback, cleanup. |
| `DocumentStore.DocumentStore.ReadJournal` | extensions/generic-tools/documents.ts:689-717 | One pass over the entries accepts exactly the recoverable journals and collects the rollback and its overlay. |
| `DocumentStore.DocumentStore.RollBackMove` | extensions/generic-tools/documents.ts:720-723 | Rollback batch and then cleanup; refused exactly when the rollback names a path twice. |
| `DocumentStore.DocumentStore.StartMoveJournal` | extensions/generic-tools/documents.ts:635-671 | Leftovers, backups and journal in this order; when all works the move is prepared on a quiescent store, and when a publish throws what is left is told by the faults. |
| `DocumentStore.DocumentStore.WriteJournal` | extensions/generic-tools/documents.ts:664-669 | A journal publish that throws takes the backups back as far as that works; the journal stays exactly if its rename had happened, and for every outcome what is left is told by the faults. |
| `DocumentStore.DocumentStore.TakeBackBackups` | extensions/generic-tools/documents.ts:849-854 | Taking the backups back, for every way it can end: completed, it leaves the store from before them, and the journal if it is there. |
| `DocumentStore.DocumentStore.PublishJournal` | extensions/generic-tools/documents.ts:664-669 | The journal is on the disk afterwards exactly if its publish worked or threw after taking effect. |
| `DocumentStore.DocumentStore.PrepareMove` | extensions/generic-tools/documents.ts:635-671 | Backups and then the journal, with what each failure leaves. |
| `DocumentStore.DocumentStore.AbandonMove` | extensions/generic-tools/documents.ts:383-387 | After a failed batch the journal is removed as far as that works: which files hold, whether the journal is still there, when every version survives, and exactly when recovery decides, by the faults. |
| `DocumentStore.DocumentStore.RunMove` | extensions/generic-tools/documents.ts:372-388 | Batch and cleanup follow the step-by-step account, and however they end what is left is told by the faults. |
| `DocumentStore.DocumentStore.EndWrittenMove` | extensions/generic-tools/documents.ts:372-388 | After a batch that worked, deleting the journal commits; however the cleanup ends, the move is decided by the journal. |
| `DocumentStore.DocumentStore.EndFailedMove` | extensions/generic-tools/documents.ts:372-388 | After a batch that failed: a death leaves the journal, a throw removes it. |
| `DocumentStore.DocumentStore.RequireLineage` | extensions/generic-tools/documents.ts:392-408 | Finds the one complete lineage of an identity, exactly when the catalogue is valid and has it. |
| `DocumentStore.DocumentStore.RequireMovableLineage` | extensions/generic-tools/documents.ts:346-368 | A move is allowed exactly for a complete lineage on the other side, at the revision the caller has seen, and when archiving only if no issue links to it. |
| `DocumentStore.DocumentStore.MoveReplacements` | extensions/generic-tools/documents.ts:355-368 | The loop collects a create and a delete for every version. |
| `DocumentStore.DocumentStore.PlanMove` | extensions/generic-tools/documents.ts:369-371 | Planning an allowed move succeeds and describes the moved store. |
| `DocumentStore.DocumentStore.CarryOutMove` | extensions/generic-tools/documents.ts:372-388 | Journal, batch and cleanup together are the steps of the refinement theorem; a throw at any of them leaves exactly what the faults tell. |
| `DocumentStore.DocumentStore.MoveLineage` | extensions/generic-tools/documents.ts:346-390 | Refused exactly when the caller may not move the lineage or too many leftovers lie about, and then nothing changes; otherwise the steps of moving every version of it, when they all work exactly the atomic move, and after a throw exactly what the faults tell, which is one event of the life of the store. |
| `DocumentStore.DocumentStore.ChangeLocation` | extensions/generic-tools/documents.ts:155-192 | Recovery first: a refused one changes nothing, a failed one can be repeated, and after a completed one the move of the recovered store follows, refused exactly if it is not allowed there, with the same account of every failure. |
| `DocumentStore.DocumentStore.Commit` | extensions/generic-tools/documents.ts:491-539 | A batch is refused exactly if its plan is invalid; what was planned is what the disk then holds, and after a failure each file is new exactly if its write took effect and was not undone. |
| `DocumentStore.DocumentStore.CreateDocument` | extensions/generic-tools/documents.ts:234-265 | Refused exactly for an invalid catalogue, a malformed or taken identity, a full catalogue, or a document that cannot be read back; otherwise, however it ends, one step of the catalogue or none. |
| `DocumentStore.DocumentStore.CurrentActive` | extensions/generic-tools/documents.ts:410-420 | The current version of an active lineage, exactly at the revision the caller has seen. |
| `DocumentStore.DocumentStore.UpdateDocument` | extensions/generic-tools/documents.ts:302-325 | Refused exactly if the lineage may not be edited, the new version cannot be read back, or the file would be renamed while an issue links to it; otherwise one step of the catalogue, and if it fails a step or none, unless it renames its file and just one write holds. |
| `DocumentStore.DocumentStore.VersionDocument` | extensions/generic-tools/documents.ts:327-344 | Refused exactly if the lineage may not be edited or has no room, or the version cannot be read back; otherwise, however it ends, one step of the catalogue or none. |
| `DocumentRuns.EditsKeepControl` | extensions/generic-tools/documents.ts:302-344 | The batch of an edit changes the documents as planned and neither the journal nor the backups. |
| `DocumentRuns.InterruptedIsAtomic` | extensions/generic-tools/documents.ts:346-390 | A move that recovery can decide, followed by failing recoveries and a completed one, changed nothing or is exactly one step of the catalogue. |
| `DocumentRuns.LifeKeepsHistory` | extensions/generic-tools/documents.ts:234-420 | Over the whole life of a store, with every move recovery can decide, every settled store is valid and without leftovers, and superseded versions keep their content. |
| `DocumentExamples.LinkedRestoreIsStuck` | extensions/generic-tools/documents.ts:718 | A restore of one version that dies before its journal is deleted: the active document can be linked, and recovery is then refused. |
| `DocumentExamples.LostByFailedRestore` | extensions/generic-tools/documents.ts:383-387 | A restore of one version whose creation and whose undo throw: the version is at no path. |
| `DocumentExamples.DoubledByFailedArchive` | extensions/generic-tools/documents.ts:383-387 | An archive of one version whose creation throws after its rename, with all else working: the version is in both places, the catalogue invalid and the journal gone. |
| `DocumentExamples.StuckJournal` | extensions/generic-tools/documents.ts:664-669 | An archive of two versions whose journal publish throws after its rename and which dies while taking back the backups: every later recovery is refused. |
| `DocumentExamples.RenameLosesNewest` | extensions/generic-tools/documents.ts:316-323 | A new title for the second version, interrupted between its two writes: the second version is gone and the first can be edited. |
| `DocumentExamples.RenameThrows` | extensions/generic-tools/documents.ts:316-323 | The same update whose deletion takes effect and throws: the second version is gone although nothing was left to undo. |
| `Digraphs.VisitForCycle` | extensions/generic-tools/issues.ts:912-942 | One visit keeps the finished nodes free of cycles until a back edge is found, which is a cycle. |
| `Digraphs.AddCycleFindings` | extensions/generic-tools/issues.ts:912-942 | A report with room gains a finding exactly when the graph has a cycle; a full one never gains a false finding. |
| `Digraphs.SearchPath` | extensions/generic-tools/issues.ts:898-910 | The shared set of seen nodes loses nothing: what it skips has been explored without meeting the target. |
| `Digraphs.HasDependencyPath` | extensions/generic-tools/issues.ts:898-910 | True only if the target is reachable; false only if it is not and the search never left the graph; an error only if it did. |
| `Digraphs.HasHierarchyCycle` | extensions/generic-tools/issues.ts:887-896 | In a forest the walk up answers exactly whether the parent lies below the child. |
| `Digraphs.AddEdgeAcyclic` | extensions/generic-tools/issues.ts:592 | A new edge in an acyclic graph closes a cycle if and only if its target reaches its source. |
| `Digraphs.NewNodeAcyclic` | extensions/generic-tools/issues.ts:395-447 | A node nothing points at closes no cycle. |
| `IssueGraph.TypesForbidHierarchyCycles` | extensions/generic-tools/issues.ts:180-186 | Parents of allowed types always form a forest. |
| `IssueGraph.CheckTargets` | extensions/generic-tools/issues.ts:680-735 | A clean list of references adds no finding, and only a clean one: targets exist, none is the issue itself, symmetric ones are stored at the smaller identity. |
| `IssueGraph.CheckEntity` | extensions/generic-tools/issues.ts:680-735 | An issue adds no finding exactly if its parent and all its references are in order. |
| `IssueGraph.Validate` | extensions/generic-tools/issues.ts:665-759 | The report is empty exactly when the whole graph is valid, whatever its cap. |
| `IssueGraph.CreateKeepsGraph` | extensions/generic-tools/issues.ts:395-447 | An allowed new issue keeps the graph valid and unsplit. |
| `IssueGraph.UpdateAgreesWithTypes` | extensions/generic-tools/issues.ts:475-529 | An update keeps the graph valid if and only if the new type fits its parent and its children. |
| `IssueGraph.UpdateKeepsSplit` | extensions/generic-tools/issues.ts:507-516 | An update joins no active issue to an archived one. |
| `IssueGraph.NoParentBelow` | extensions/generic-tools/issues.ts:887-896 | Once types fit, the new parent is never below the issue. |
| `IssueGraph.RelateKeepsGraph` | extensions/generic-tools/issues.ts:560-597 | A changed relationship keeps the graph valid if and only if a dependency it adds is not reachable the other way round. |
| `IssueGraph.ActiveSearchIsGlobal` | extensions/generic-tools/issues.ts:592 | What the search among active issues does not find, without leaving them, is not reachable through archived ones either. |
| `IssueGraph.CollectSubtree` | extensions/generic-tools/issues.ts:618-663 | The recursion collects exactly the active issues of the subtree, through archived ones as well. |
| `IssueGraph.ArchiveKeepsValid` | extensions/generic-tools/issues.ts:618-663 | Archiving any set of issues keeps a valid graph valid. |
| `IssueGraph.ArchiveKeepsSplit` | extensions/generic-tools/issues.ts:618-663 | Archiving a whole subtree leaves no parent link between active and archived issues. |
| `IssueGraph.OnlyRootIsCutOff` | extensions/generic-tools/issues.ts:647-654 | Only the root of the subtree can lose its parent. |
| `IssueGraph.IssueStore.CreateIssue` | extensions/generic-tools/issues.ts:395-447 | Accepted exactly for a new identity in a valid graph with active dependencies and an active parent of an allowed type. |
| `IssueGraph.IssueStore.CheckPlace` | extensions/generic-tools/issues.ts:507-529 | The checks among active issues accept exactly the updates that fit the whole graph. |
| `IssueGraph.IssueStore.UpdateIssue` | extensions/generic-tools/issues.ts:475-529 | Accepted exactly at the revision the caller has seen and when types fit, and then only this issue changes. |
| `IssueGraph.IssueStore.Relate` | extensions/generic-tools/issues.ts:560-597 | Only a new `depends_on` is searched for a cycle: refused exactly if it would close one or the search leaves the active issues; a `blocks` is not searched. |
| `IssueGraph.IssueStore.ArchiveTree` | extensions/generic-tools/issues.ts:618-663 | Refused exactly for an invalid graph or an unknown issue; an archived root changes nothing, and otherwise exactly its subtree is archived. |
| `IssueGraph.StepKeepsSound` | extensions/generic-tools/issues.ts:578-592 | An accepted operation keeps the graph valid and unsplit if and only if it is not a `blocks` whose target is reachable from its source. |
| `IssueGraph.RunsKeepGraph` | extensions/generic-tools/issues.ts:395-663 | From an empty store every run without such a `blocks` reaches only valid, unsplit graphs. |
| `IssueGraph.OnlyTheLastBreaks` | extensions/generic-tools/issues.ts:207-224 | Every operation is refused on an invalid graph, so in a run only the last operation can break it, and it does exactly if it is a `blocks` that closes a cycle. |
| `IssueGraph.BlocksCanCloseCycle` | extensions/generic-tools/issues.ts:578-582 | A valid graph of two issues in which an accepted `blocks` closes a cycle. |
| `IssueArchives.ArchiveComplete` | extensions/generic-tools/issues.ts:646-661 | The completed batch of files is the archived graph. |
| `IssueArchives.PartValid` | extensions/generic-tools/issues.ts:680-735 | Part of a valid graph is valid if and only if nothing in it refers to something missing. |
| `IssueArchives.InterruptedArchive` | extensions/generic-tools/issues.ts:646-661 | Whatever a crash or a failed rollback leaves of the batch is a valid graph if and only if no issue has two files and none refers to one that has none. |
| `IssueArchives.ArchiveCrash` | extensions/generic-tools/issues.ts:646-661 | The same for every prefix of the batch in path order. |
| `ExecutionContexts.InFlightIsUndone` | extensions/generic-tools/execution-context.ts:988-1000 | While the log is there, any mixture of the two records is undone to the records before. |
| `ExecutionContexts.LeftoverIsCommitted` | extensions/generic-tools/execution-context.ts:869-893 | Whatever a publication leaves, the next holder of the lock sees both old, both new, or the one torn state. |
| `ExecutionContexts.ExecutionContextStore.Write` | extensions/generic-tools/execution-context.ts:903-932 | One record is written or removed in one step; removing a missing one touches nothing. |
| `ExecutionContexts.ExecutionContextStore.Rollback` | extensions/generic-tools/execution-context.ts:988-994 | Both records go back in order and the log goes last; how far it got is told by the faults. |
| `ExecutionContexts.ExecutionContextStore.Recover` | extensions/generic-tools/execution-context.ts:996-1000 | Recovery may fail or die without changing what is committed; completed, the disk is the committed records. |
| `ExecutionContexts.ExecutionContextStore.WriteBoth` | extensions/generic-tools/execution-context.ts:869-893 | After the log, the three steps end in both records new or in a state the log still undoes. |
| `ExecutionContexts.ExecutionContextStore.Publish` | extensions/generic-tools/execution-context.ts:869-893 | Both records become new exactly if all four steps work; in every case the next holder of the lock sees both old, both new or the torn state as a function of the faults, also when a second attempt starts from what the first left. |
| `ExecutionContexts.FatesAreExact` | extensions/generic-tools/execution-context.ts:869-893 | A publication is torn if and only if removing the log took effect and threw, and then putting back the workspace threw after taking effect or worked while putting back the binding had no effect; both records are new if and only if all worked, or the log went and putting back the workspace had no effect. |
| `ExecutionContexts.TornCommit` | extensions/generic-tools/execution-context.ts:869-893 | A concrete publication that ends with a binding without its workspace, and the session does not resolve. |
| `ExecutionContexts.ExecutionContextStore.ResolveSession` | extensions/generic-tools/execution-context.ts:408-428 | A session resolves exactly if its binding is bound, at the expected generation, and agrees with its workspace on Epic and generation, and Git confirms the workspace. |
| `ExecutionContexts.ExecutionContextStore.CheckEpicFree` | extensions/generic-tools/execution-context.ts:1136-1148 | Free exactly if no other workspace holds the Epic. |
| `ExecutionContexts.ExecutionContextStore.AttachEpic` | extensions/generic-tools/execution-context.ts:327-356 | Refused exactly if the session does not resolve, a generation is stale, an Epic is attached, or the Epic is unknown or taken; otherwise a publication, and the committed records move by one sound step. |
| `ExecutionContexts.ExecutionContextStore.WriteBinding` | extensions/generic-tools/execution-context.ts:899-901 | A single binding is afterwards the old one or the new one. |
| `ExecutionContexts.ExecutionContextStore.BindSession` | extensions/generic-tools/execution-context.ts:358-406 | Accepted exactly at the generations the caller has seen; a completed bind resolves. |
| `ExecutionContexts.ExecutionContextStore.AllocateProvisional` | extensions/generic-tools/execution-context.ts:228-290 | Reservation, worktree and publication with one retry: completed, both records are as intended; interrupted at Git, no binding and no log; always one sound step. |
| `ExecutionContexts.ExecutionContextStore.AdoptV1` | extensions/generic-tools/execution-context.ts:448-486 | Accepted exactly for a new session, a canonical Epic, an adoptable live record and a free Epic. |
| `ExecutionContexts.ExecutionContextStore.ReleaseSession` | extensions/generic-tools/execution-context.ts:430-446 | Accepted exactly for a bound session at its generation, which then no longer resolves. |
| `ExecutionContexts.PublicationKeepsSound` | extensions/generic-tools/execution-context.ts:869-893 | A publication that advances keeps Epics unique and records moving forward, even torn. |
| `ExecutionContexts.GenerationsAreNotReused` | extensions/generic-tools/execution-context.ts:639-689 | A committed binding generation never comes back for a different record of its session. |
| `ExecutionContexts.EpicsStay` | extensions/generic-tools/execution-context.ts:327-356 | At any time an Epic has at most one workspace, and an attached Epic never changes. |
| `ExecutionContexts.StaleUntilRebound` | extensions/generic-tools/execution-context.ts:607-620 | A binding whose workspace has moved on never resolves again until the binding changes. |
| `ExecutionContexts.AttachMakesOthersStale` | extensions/generic-tools/execution-context.ts:327-406 | Attaching makes every other session of the workspace stale, and it cannot bind again before it releases, while the attaching session resolves. |
| `ExecutionContexts.TornDoesNotResolve` | extensions/generic-tools/execution-context.ts:607-620 | In the torn state the session does not resolve. |
| `ExecutionContexts.StepKeepsSound` | extensions/generic-tools/execution-context.ts:988-1000 | However recovery or an operation ends, the committed records stay sound and move by at most one advance. |
| `ExecutionContexts.RunsAreHistories` | extensions/generic-tools/execution-context.ts:988-1000 | The committed records over every run of recoveries and operations from the empty store are sound and only advance. |
| `ExecutionContexts.RunsKeepGenerationsAndEpics` | extensions/generic-tools/execution-context.ts:639-689 | Over every run: a committed generation of a session means one record, Epics are unique and stay, and a binding its workspace has left behind does not resolve until it changes. |
| `EpicWorkspaces.CleanupVerdict` | extensions/generic-tools/workspaces.ts:302-329 | Cleanup goes on exactly for a clean, present worktree on its branch with our lock, or unlocked once cleanup has begun; it counts as complete exactly if cleanup has begun and nothing is left. |
| `EpicWorkspaces.EpicWorkspace.WriteState` | extensions/generic-tools/workspaces.ts:645-676 | The stored state moves by at most one step forward. |
| `EpicWorkspaces.EpicWorkspace.Remove` | extensions/generic-tools/workspaces.ts:261-300 | A removal is only issued after the start of cleanup is stored, for a clean unlocked worktree on its branch. |
| `EpicWorkspaces.EpicWorkspace.CloseRemoved` | extensions/generic-tools/workspaces.ts:331-340 | The record closes only after the worktree is gone, and exactly if the branch exists and the write works. |
| `EpicWorkspaces.EpicWorkspace.UnlockAndRemove` | extensions/generic-tools/workspaces.ts:261-300 | Unlocks if need be and removes; a failure leaves a worktree that can still be removed or is gone. |
| `EpicWorkspaces.EpicWorkspace.RemoveWorktree` | extensions/generic-tools/workspaces.ts:261-300 | Begin, unlock, remove and close: from a removable worktree it reaches `closed` or a state from which cleanup can go on. |
| `EpicWorkspaces.EpicWorkspace.Cleanup` | extensions/generic-tools/workspaces.ts:261-300 | Refused exactly if it is not started from the primary worktree, the record is not ready, or the worktree is neither removable nor gone with its branch still there; nothing but a fault stops it, states only move forward, and every removal was safe. |
| `EpicWorkspaces.EpicWorkspace.RerunCleanup` | extensions/generic-tools/workspaces.ts:261-340 | Run again after every crash and failure, cleanup reaches `closed`. |
| `EpicWorkspaces.EpicWorkspace.LockWorktree` | extensions/generic-tools/workspaces.ts:190-233 | The lock command fails on a locked worktree and otherwise sets our lock. |
| `EpicWorkspaces.EpicWorkspace.CreateWorkspace` | extensions/generic-tools/workspaces.ts:190-233 | Refused exactly without authority or a vacant place; a stopped run can be carried on unless it stopped exactly between the record and the worktree. |
| `EpicWorkspaces.EpicWorkspace.EnsureExisting` | extensions/generic-tools/workspaces.ts:164-188 | A creation that lacks at most its lock is completed; an abandoned one stays refused; otherwise the workspace is only checked. |
| `EpicWorkspaces.EpicWorkspace.MarkCleanupReady` | extensions/generic-tools/workspaces.ts:245-259 | Accepted exactly for a clean, unblocked, active workspace from inside it, and cleanup can then be carried out. |
| `CanonicalYaml.QuoteYamlString` | extensions/generic-tools/issues-contract.ts:674-690 | The loop escapes every character and encloses the string in quotes. |
| `CanonicalYaml.ReadQuotedQuote` | extensions/generic-tools/issues-contract.ts:674-690 | A double-quoted scalar is read back, whatever follows it (sections 5.7 and 7.3.1 of YAML 1.2.2). |
| `CanonicalYaml.ReadInlineEmit` | extensions/generic-tools/issues-contract.ts:662-672 | Every value printed inline is read back, a collection as an empty one. |
| `CanonicalYaml.EntriesRead` | extensions/generic-tools/issues-contract.ts:597-609 | The lines of a mapping are read back as its entries, up to the comment form. |
| `CanonicalYaml.ItemsRead` | extensions/generic-tools/issues-contract.ts:622-651 | The lines of a list are read back as its items, up to the comment form. |
| `CanonicalYaml.CommentsRead` | extensions/generic-tools/issues-contract.ts:611-620 | The comment form is read back as its four fields per item. |
| `CanonicalYaml.ReadLineRender` | extensions/generic-tools/issues-contract.ts:597-651 | Each emitted line is read back from its text: indent, dash, key and inline value. |
| `CanonicalYaml.ReadLinesJoined` | extensions/generic-tools/issues-contract.ts:220-235 | The text splits into the lines it was joined from. |
| `CanonicalYaml.EncodeCanonicalIssue` | extensions/generic-tools/issues-contract.ts:220-235 | The loop over the fields emits the encoding the theorems are about. |
| `CanonicalYaml.ReadEncoded` | extensions/generic-tools/issues-contract.ts:220-235 | Every encoding is accepted by the reader and returns what the comment form keeps. |
| `CanonicalYaml.RereadIsIdentity` | extensions/generic-tools/issues-contract.ts:597-651 | A value comes back unchanged if and only if each list under a special key `comments` holds only comments. |
| `CanonicalYaml.IssueRoundTrip` | extensions/generic-tools/issues-contract.ts:220-235 | An issue is recovered from its encoding if and only if no list under a nested `comments` is foreign. |
| `CanonicalYaml.EncodeInjective` | extensions/generic-tools/issues-contract.ts:220-235 | On such issues the encoding is injective. |
| `CanonicalYaml.OnlyMetadataCanBeLost` | extensions/generic-tools/issues-contract.ts:530-555 | With validated comments, only the metadata can fail to come back. |
| `CanonicalYaml.NestedCommentsAreLost` | extensions/generic-tools/issues-contract.ts:604 | Two different complete issues with one encoding. |
| `DocumentFormat.HeaderIsPlain` | extensions/generic-tools/documents-contract.ts:91-115 | No line of the frontmatter begins with a dash, so it cannot hold the fence. |
| `DocumentFormat.FenceAfterHeader` | extensions/generic-tools/documents-contract.ts:117-130 | The first fence found is the one after the header, whatever the body. |
| `DocumentFormat.NormalizedIs` | extensions/generic-tools/documents-contract.ts:173-179 | Normalised content has no carriage return, is trimmed, and normalises to itself. |
| `DocumentFormat.ReturnOnlyInTitle` | extensions/generic-tools/documents-contract.ts:91-115 | An encoding holds a carriage return if and only if the title does. |
| `DocumentFormat.EncodeDecode` | extensions/generic-tools/documents-contract.ts:117-154 | Decoding an encoding returns the metadata and the normalised body, and fails exactly if the title holds a carriage return. |
| `DocumentFormat.ReadableExactly` | extensions/generic-tools/documents-contract.ts:91-154 | Over this codec a document is readable if and only if it encodes and its title has no carriage return. |
| `DocumentFormat.TitleReturnIsRefused` | extensions/generic-tools/documents-contract.ts:91-154 | A document without content whose title holds a carriage return encodes to a text the decoder refuses. |
| `DocumentFormat.DecodeAcceptsTheImage` | extensions/generic-tools/documents-contract.ts:117-154 | The decoder accepts exactly the encodings of metadata without a carriage return in the title. |
| `DocumentFormat.UpdateKeepsContent` | extensions/generic-tools/documents.ts:965-967 | An update that gives no body keeps the content, under whatever metadata it writes. |
| `McpOwnership.JsonEqualityIsExact` | src/harnessctl/install.py:753-767 | The recursive comparison is equality of values and of their types. |
| `McpOwnership.MergeRecognized` | src/harnessctl/install.py:1092-1103 | Recognised after the merge is exactly what is historical or was generated. |
| `McpOwnership.Installer.Reconcile` | src/harnessctl/install.py:1132-1172 | Each entry ends as its rule says, and the flag is set exactly if something changed. |
| `McpOwnership.Installer.RemoveRetired` | src/harnessctl/install.py:1160-1171 | Entries no longer required are removed exactly if recognised. |
| `McpOwnership.Installer.Install` | src/harnessctl/install.py:375-445 | One installation reconciles with what is recognised and records what it owns, judged before it writes. |
| `McpOwnership.ChangesOnlyOwned` | src/harnessctl/install.py:1132-1172 | An installation changes an entry only if it was absent, historical, or recorded as generated. |
| `McpOwnership.ProvenanceMatches` | src/harnessctl/install.py:1105-1129 | After an installation every recorded definition is the host entry. |
| `McpOwnership.ReinstallIsIdempotent` | src/harnessctl/install.py:1105-1172 | Installing the same configuration again changes neither file. |
| `McpOwnership.ProvenanceWasWritten` | src/harnessctl/install.py:1105-1129 | Over every run, a recorded definition was put into the host file by an earlier installation of that definition. |
| `McpOwnership.RunsChangeOnlyTheirOwn` | src/harnessctl/install.py:1092-1172 | Over any interleaving of installations, each with its own configuration, and operator edits, a changed entry was absent, historical for that installation, or exactly a definition that an earlier installation put in place of something else. |
| `MemorySupersession.VisitOnce` | extensions/generic-tools/memory.ts:690-703 | One visit either meets a cycle or settles the node and all it leads to. |
| `MemorySupersession.AssertAcyclic` | extensions/generic-tools/memory.ts:690-703 | The check passes exactly if nothing supersedes itself, directly or not. |
| `MemorySupersession.CheckIds` | extensions/generic-tools/memory.ts:431-476 | Passes exactly if every identity occurs once and every record lies in the folder of its type. |
| `MemorySupersession.LoadState` | extensions/generic-tools/memory.ts:431-476 | Loads exactly the valid sets of files, and collects exactly the active records. |
| `MemorySupersession.LoadMemories` | extensions/generic-tools/local-persistence.ts:465-543 | The loader of the cache accepts the same sets and flags the same records as active. |
| `MemorySupersession.MemoryStore.Store` | extensions/generic-tools/memory.ts:154-163 | Accepted exactly for a valid memory and a new identity, and then one step of a run. |
| `MemorySupersession.MemoryStore.Supersede` | extensions/generic-tools/memory.ts:165-175 | Accepted exactly if the target is active and the identity new, and then one step of a run. |
| `MemorySupersession.MemoryStore.Delete` | extensions/generic-tools/memory.ts:177-204 | Accepted exactly if the target is active and the identity new; the record stays and a tombstone is added. |
| `MemorySupersession.StepKeepsChains` | extensions/generic-tools/memory.ts:154-204 | Each operation keeps the chains, with at most one deactivator per record, and changes the number of active records by 1, 0 or -1. |
| `MemorySupersession.RunsKeepChains` | extensions/generic-tools/memory.ts:154-204 | From an empty memory every run keeps the chains, and the active records number those stored less those deleted. |

## Left out

- Byte limits: file sizes, aggregate sizes and result sizes are not modelled; the limits on the number of documents, versions and replacements are.
- Portable collisions of paths and keys (Unicode normalisation and case folding) are not modelled.
- Temporary publication files and their removal by recovery, `fsync`, symbolic links and the no-follow reads are not modelled; a publish is one atomic step.
- The injected interruption points are not modelled; crashes come from the script of faults.
- `hasBinding` reads outside the lock and without recovery; it is not modelled.
- Locks are taken as held. The takeover of a stale lock checks and renames in two steps, and a crash leaves the lock directory; neither is modelled.
- `FileBatches.Disk.CheckBatch`: repeated paths are found by plain equality, not by their portable form, and before-images have no byte limit.
- `DocumentEdits.UpdateAccepted`: the content of a document is taken as normalised; whether metadata and content can be read back is the parameter `readable`, which `DocumentFormat.ConfigOf` instantiates and `DocumentFormat.ReadableExactly` characterises.
- `DocumentRuns.LifeKeepsHistory`: leaves out the moves that recovery cannot decide, which are exactly those outside `DecidedByFaults`, and the renaming updates of which just one write holds, which are exactly those of `Halved`.
- Recovery refuses a journal entry that does not fit with one error category, where the code tells mismatched paths from changed bytes.
- Of the checks recovery makes of the issues and memory records beside the documents, only the resolution of document links is modelled.
- The issue store is a map of issues: the names of issue files, the crashes of batches other than an archive, and the checks of linked document paths are not modelled. Its batch writer is the record-first writer of `FileBatches`, whose error categories differ in name.
- `IssueGraph.Issue` holds references as sets, so the order in which a search visits them is left open; text fields, comments and documents are one opaque string.
- Validation restricted to one issue identity only filters the report.
- A null item in a list under a `comments` key makes the encoder throw; in the model such an item is one that does not come back.
- Printing of numbers, UTF-8, and the YAML, Zod and JSON Schema libraries: numbers are opaque tokens, text is a sequence of Unicode scalar values, and the reading of document frontmatter is a parameter taken to be the inverse of printing.
- The semantic checks of an issue (timestamps, statuses, limits) and of input options are not modelled.
- The SQLite cache, its schema and its health check, configuration files, clocks and timestamps are not modelled.
- `git worktree remove`, `add`, `lock` and `unlock` are atomic steps on a table of worktrees; parsing that table is not modelled.
- Memory import and its relationship checks, search, export, secret scanning and limits on text are not modelled.
- `ExecutionContexts.ExecutionContextStore.AllocateProvisional`: whether Git creates the worktree and whether one found after a failure is ours are parameters; it takes a workspace identity that no record has, because the code draws a fresh ULID and never looks for an old record.
- `ExecutionContexts.ExecutionContextStore.AdoptV1`: takes a fresh workspace identity for the same reason.
- The records of memory and their tombstones are written one file at a time, so no crash falls inside an operation.
- `McpOwnership.Installer.Install`: starts from the parsed entries; loading, rendering and writing the two files are not modelled.
- Warnings of the installer, duplicate server identifiers, the order of its two files and a crash between them, and settings other than MCP entries are not modelled; JSON has no NaN.
