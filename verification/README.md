# Vola: verified models

Vola keeps a Hub of skills, projects, memories and profiles, and puts what it keeps onto local agents. This project
models the algorithms of its server (and one of its browser extension) whose guarantees span whole runs, and proves
those guarantees. HTTP, JSON and authentication are stripped away: a request is a method call, a document is its decoded
value, and every operation of a store or disk that can fail fails when a parameter says so.

The modules, in the order a reader may want them:

- `LocalSkillSync`, `LocalSkillSyncTheorems` and `LocalSkillCleanup`: the comparison of assigned skills with a local
  directory tree, the writes and deletions that follow, who owns which file, and why a second sync has nothing to do.
  `LocalDisk` is the disk, `RelPaths` the relative paths, `Paths` the order of a directory walk.
- `SkillAssignments`: how assigned skill paths are normalized when they are saved and again whenever they are read.
- `PreviewJobs`: the registry of running preview jobs and the stored status records, as atomic steps of any number of
  starters, workers and readers, with restarts.
- `RateLimiter`: the token buckets, the background purge and the bound on admitted calls.
- `BackupRestore` and `BackupRestoreApply`: inspecting a backup archive, previewing it and writing it back.
- `SkillBackups` and `SkillBackupTheorems`: overwriting a skill, backing it up, pruning backups and rolling back.
  `Stamps` is the fixed-width time stamp.
- `SkillConversion` and `Blocks`: the notes block that a platform conversion puts into a skill file;
  `SkillConversionPlan`: the conflicts and writes of a conversion.
- `Handover`, `FreshNames` and `MemoryReview`: the Codex console's handover files, its fresh identifiers and the review
  of memory candidates. `ConsoleText` and `Text` are the string functions they share.
- `McpHealth`, `Snippets` and `ClaudeBranch`: probing with backoff, cutting UTF-8 text, and the current branch of a
  conversation.

Code that changes things step by step is a class with the fields of the original, whose methods are proved against
functions; the theorems are about those functions. Where a property that one might expect does not hold of the code, a
lemma gives an input on which it fails and another says exactly when it holds:

- `TrimmedNamesCollide` and `DottedNameIsRefused`: `SyncConvergesIff`;
- `NestedAssignedSkillIsLost`: `AssignedSkillLosesFileIff`;
- `NormalizingTwiceDiffers`: `ReadsBackIff`;
- `FailedFinishLeavesRunning`: `HonestThroughoutIff`;
- `DottedNameBlocksRollback`: `RollbackPossibleIff`;
- `VariableClosesBlock`: `ChainKeepsTextIff` and `BlockIsBlockIff`;
- `StrayEndPilesUp`: `RepeatingIsIdempotentIff`;
- `MultiLineKindBuriesNotes`: `NotesSurviveIff` and `NotesSurviveRegenerationsIff`;
- `SecondCandidateReplaces`: `OthersOverARequest`;
- `OwnParentNeverEnds`: `EndsIff` and `BranchExistsIff`.

## Model

| member | source | states |
|---|---|---|
| `LocalSkillSyncTheorems.SyncConvergesIff` | internal/api/local_skill_sync.go:459-579 | after an apply without failures on an unobstructed disk no other file has changed, and an assigned skill that the Hub has is on disk byte for byte with a matching marker, and plans nothing when planned again, exactly when all its files have local paths, files with one local path agree, none contradicts the marker, and a team names itself; when all skills are like that, planning again queues nothing and finds nothing to add, update or resolve |
| `LocalSkillSyncTheorems.NoConflictIff` | internal/api/local_skill_sync.go:479-560 | a plan has no conflict exactly when, on the disk, the directory of every skill that the Hub has is absent, out of reach or marked for that skill, and no local path of a file in it is a directory or lies behind a regular file |
| `LocalSkillSyncTheorems.SkillStateIff` | internal/api/local_skill_sync.go:479-506 | what a plan takes a skill directory for, by what stands on the disk and by the fields of its marker |
| `LocalSkillSyncTheorems.SkillActionsIff` | internal/api/local_skill_sync.go:508-562 | a path is planned as added, updated, unchanged or missing exactly when it is absent, differs in a managed directory, is equal, or is a local file of a managed directory that the Hub lacks |
| `LocalSkillSyncTheorems.SkillOpsIff` | internal/api/local_skill_sync.go:508-562 | exactly the absent files and the differing ones of a managed directory are queued, with the bytes of the Hub |
| `LocalSkillSyncTheorems.MatchesScopeIff` | internal/api/local_skill_sync.go:1088-1104 | a marker matches agent and scope exactly when it says vola and names the agent, and its trimmed scope is blank or personal for the personal one, or team with the identifier of the team |
| `LocalSkillSyncTheorems.ReadMarkerIff` | internal/api/local_skill_sync.go:1043-1056 | a marker is found exactly where its bytes stand in the marker file, and missing exactly where there is no such file |
| `LocalSkillSyncTheorems.SyncOwnership` | internal/api/local_skill_sync.go:479-506 | every file whose bytes an apply changes lies in an assigned skill directory that was absent or carried a marker naming this agent, skill and scope when planned; writes are carried out exactly when the agent is supported, the plan has no conflict, no finding blocks it and manual ones are acknowledged |
| `LocalSkillSyncTheorems.OpLandsInOwned` | internal/api/local_skill_sync.go:523-556 | every queued write goes to a path below an owned skill directory |
| `LocalSkillSyncTheorems.SkillConvergesIff` | internal/api/local_skill_sync.go:666-702 | the same for one skill: in sync after a successful apply exactly when its files agree among themselves and with the marker |
| `LocalSkillSyncTheorems.NeverSettles` | internal/api/local_skill_sync.go:508-556 | files without a local path, or with one local path and different bytes, leave no disk at all on which the skill plans nothing |
| `LocalSkillSyncTheorems.TrimmedNamesCollide` | internal/api/local_skill_sync.go:1011-1025 | a concrete skill whose two file names differ in a leading space, and which never settles |
| `LocalSkillSyncTheorems.DottedNameIsRefused` | internal/api/local_skill_sync.go:1011-1025 | a concrete skill with a file name that begins with two dots, which is never delivered |
| `LocalSkillSyncTheorems.SettledIff` | internal/api/local_skill_sync.go:479-562 | an existing skill directory plans no write, no error and no conflict exactly when it is in sync |
| `LocalSkillSyncTheorems.MarkerConverges` | internal/api/local_skill_sync.go:666-676 | the marker of an applied skill reads back as the one written for it, whatever the files of the skills are called |
| `LocalSkillSyncTheorems.InSyncPlanIsQuiet` | internal/api/local_skill_sync.go:508-562 | when the skills that the Hub has are in sync, the plan holds nothing but unchanged and missing files |
| `LocalSkillSyncTheorems.PlanCovered` | internal/api/local_skill_sync.go:535-556 | each Hub file of a skill without conflict is either already on disk with its bytes or queued to be written with them |
| `LocalSkillSyncTheorems.PlanOpsDeliver` | internal/api/local_skill_sync.go:529-556 | each queued file write carries the bytes of a Hub file to its destination |
| `LocalSkillSyncTheorems.ApplyExplained` | internal/api/local_skill_sync.go:678-701 | a write list changes only paths that one of its operations names, to the data of that operation, and only where no regular file stood in the way |
| `LocalSkillSyncTheorems.ApplyComplete` | internal/api/local_skill_sync.go:678-701 | when no operation failed, every one left its file in place |
| `LocalSkillSyncTheorems.ApplySettles` | internal/api/local_skill_sync.go:678-701 | when all operations on a path agree, the path ends with their data, whatever the order |
| `LocalSkillSyncTheorems.ApplyOpMeans` | internal/api/local_skill_sync.go:682-701 | a file outside the target root is refused without a change; any other operation counts an error exactly when its directory or its file cannot be written |
| `LocalDisk.PutIff` | internal/api/local_skill_sync.go:682-701 | with its directory made first, a file can be written exactly when no path above it is a file, none that is missing there is denied, and its own path is no directory and not denied; no other file changes |
| `LocalSkillSyncTheorems.CountsItsAction` | internal/api/local_skill_sync.go:820-838 | the conflict counter is zero exactly when no change is a conflict, and so for each counted action |
| `LocalSkillSyncTheorems.NewMarkerMatchesIff` | internal/api/local_skill_sync.go:1058-1104 | the marker written for a skill matches that agent, skill and scope when it is read back, exactly when a team scope names its team |
| `LocalSkillSync.AgentPlan.AddChange` | internal/api/local_skill_sync.go:820-838 | appends the change and raises the one counter of its action |
| `LocalSkillSync.AgentPlan.PlanFile` | internal/api/local_skill_sync.go:508-556 | plans one file: add, update, unchanged or conflict, by what can be read at its destination |
| `LocalSkillSync.AgentPlan.AddMissing` | internal/api/local_skill_sync.go:724-768 | lists the local files below a managed directory that the Hub skill lacks |
| `LocalSkillSync.AgentPlan.PlanSkill` | internal/api/local_skill_sync.go:461-563 | plans one skill, or one conflict when its directory is taken by something else |
| `LocalSkillSync.AgentPlan.Build` | internal/api/local_skill_sync.go:459-577 | the plan of an agent: changes and writes of all assigned skills in turn, then one marker for each skill in the Hub, in any order |
| `LocalSkillSync.AgentPlan.ApplyWrites` | internal/api/local_skill_sync.go:662-702 | writes nothing when there are conflicts, blocked findings or unacknowledged manual ones, and otherwise applies every operation in turn, counting failures and writes |
| `RelPaths.LocalRelStaysInside` | internal/api/local_skill_sync.go:1011-1025 | whatever the relative path of a Hub file, its local path consists of plain names below the skill directory |
| `RelPaths.PlainRelIsLocal` | internal/api/local_skill_sync.go:1011-1025 | ordinary relative paths reach the disk as they are |
| `RelPaths.CleanRelMeans` | internal/api/local_skill_sync.go:1011-1025 | cleaning a path leaves blank and dotted segments out, keeps plain ones, and lets two dots take the last one away |
| `RelPaths.TrimRelIsTrimSpace` | internal/api/local_skill_sync.go:1011-1025 | trimming the segments is trimming the path as it is written |
| `RelPaths.NoPlaceIff` | internal/api/local_skill_sync.go:1011-1025 | a path has no place on the disk exactly when it is absolute, nothing remains of it, or its first segment begins with two dots |
| `LocalSkillCleanup.CleanupIsFixpoint` | internal/api/local_skill_sync.go:704-722 | the deleted directories lie below the root and apart from each other, each is marked for this agent and scope with an unassigned skill, and once they are removed a second walk finds nothing to delete |
| `LocalSkillCleanup.DeletedIff` | internal/api/local_skill_sync.go:770-818 | a directory is deleted exactly when its marker names this agent, scope and an unassigned skill, no directory above it is marked for this agent and scope, and the walk comes that far |
| `LocalSkillCleanup.AssignedSkillLosesFileIff` | internal/api/local_skill_sync.go:770-818 | an assigned skill loses a file to a cleanup exactly when the outermost directory above it that is marked for this agent and scope belongs to an unassigned skill, and every unreadable marker before it in the walk lies inside another marked directory; then it loses all of them |
| `LocalSkillCleanup.FlatCleanupKeepsAssigned` | internal/api/local_skill_sync.go:770-818 | an assigned skill with no managed directory of this agent and scope above it loses no file to a cleanup, whatever cannot be removed |
| `LocalSkillCleanup.NestedAssignedSkillIsLost` | internal/api/local_skill_sync.go:784-812 | a concrete disk where cleanup removes an assigned skill nested in an unassigned one |
| `LocalSkillCleanup.MarkersSurvive` | internal/api/local_skill_sync.go:784-812 | deleting the selected directories changes the marker of no directory that remains |
| `LocalSkillCleanup.CollectDeletes` | internal/api/local_skill_sync.go:770-818 | the walk selects exactly the directories that the declarative description selects, and stops at a marker that cannot be read |
| `LocalSkillCleanup.ApplyDeletes` | internal/api/local_skill_sync.go:704-722 | removes the selected directories with everything in them that can be removed, counting those that went and an error for each of the others |
| `LocalSkillCleanup.SyncAgent` | internal/api/local_skill_sync.go:415-579 | plan and apply in one: the disk ends as the sync of that agent says |
| `LocalSkillCleanup.CleanupAgent` | internal/api/local_skill_sync.go:770-818 | walk and deletion in one: the disk ends without exactly the selected directories |
| `LocalSkillCleanup.UserFilesAreSafe` | internal/api/local_skill_sync.go:459-722 | over any run of syncs and cleanups, of any agents and scopes with any Hub contents and any failing removals, a file with no marker in a directory above it is neither changed nor removed |
| `LocalSkillCleanup.OthersFilesAreSafe` | internal/api/local_skill_sync.go:459-722 | over any such run a file is neither changed nor removed as long as no directory above it carries a marker naming the agent and scope of one of the steps: one agent, scope or team never touches what another manages |
| `LocalSkillCleanup.ForeignDirectoryIsRefused` | internal/api/local_skill_sync.go:500-506 | planning a skill on a directory is one conflict without a write exactly when its marker names another agent, scope, team or skill |
| `SkillAssignments.ReadsBackIff` | internal/api/skill_assignments.go:241-264 | a normalized path is left alone by a second normalization exactly when it does not end in white space or /SKILL.md and is not /skills itself |
| `SkillAssignments.NormalizingTwiceDiffers` | internal/api/skill_assignments.go:241-264 | a concrete path, /skills/., whose normal form is normalized to something else |
| `SkillAssignments.NormalizedIsNormal` | internal/api/skill_assignments.go:241-264 | a normalized path that is not empty is a clean rooted path at or below /skills, without backslash or trailing slash |
| `SkillAssignments.PlainPathsAreRooted` | internal/api/skill_assignments.go:241-264 | with or without a leading slash, the skills root and the skill file, a plain path becomes the path below /skills |
| `SkillAssignments.NothingIsAssigned` | internal/api/skill_assignments.go:241-264 | a blank path and the current directory assign nothing |
| `SkillAssignments.NormalizeAssignments` | internal/api/skill_assignments.go:209-239 | one entry for each known agent in its order, with the normalized paths of all its items, ascending and without repetition |
| `SkillAssignments.StableDocumentReadsBack` | internal/api/skill_assignments.go:192-239 | a saved document whose paths are stable is read back exactly as it was saved |
| `PreviewJobs.JobsAreExclusive` | internal/api/local_platform_dashboard.go:317-375 | under every interleaving, with writes that may fail and restarts at any time, a key is registered exactly while one thread owns it, under that thread's job id |
| `PreviewJobs.HonestThroughoutIff` | internal/api/local_platform_dashboard.go:317-445 | a stored running record names a worker still at work throughout a run exactly when no restart and no failed final write of its key comes while the record says running, with the steps of any number of readers interleaved |
| `PreviewJobs.FirstBreakBreaks` | internal/api/local_platform_dashboard.go:317-445 | the first such step of a run is the one that breaks it |
| `PreviewJobs.StepKeepsHonestIff` | internal/api/local_platform_dashboard.go:317-445 | one atomic step keeps an honest key honest exactly when it is not such a step |
| `PreviewJobs.RunningRecordsAreHonest` | internal/api/local_platform_dashboard.go:317-445 | in particular, as long as no final write fails and no restart comes, a stored running record names the registered job of a worker still at work |
| `PreviewJobs.FailedFinishLeavesRunning` | internal/api/local_platform_dashboard.go:442-444 | a concrete run in which a failed final write leaves a running record whose job is no longer registered |
| `PreviewJobs.NoGhostJobs` | internal/api/local_platform_dashboard.go:447-467 | after a restart, no request is ever told that a job from before it is running, whatever the interleaving and whichever writes fail |
| `PreviewJobs.FirstReadRepairs` | internal/api/local_platform_dashboard.go:456-467 | taken as one step, a read reports running only for a registered job; the first read after a restart turns a leftover running record into failed and leaves the key honest |
| `PreviewJobs.ReadIsItsSteps` | internal/api/local_platform_dashboard.go:447-486 | a read taken as one step is its load, check and repair steps in a row |
| `PreviewJobs.StartIsItsSteps` | internal/api/local_platform_dashboard.go:326-380 | a start taken as one step is its read, claim and announcement in a row, with the answer given to a taken key |
| `PreviewJobs.FinishIsItsSteps` | internal/api/local_platform_dashboard.go:382-445 | the end of a worker taken as one step is its final write, its look at the registry and its deletion in a row |
| `PreviewJobs.ShownIff` | internal/api/local_platform_dashboard.go:447-486 | a stored record is shown as it is unless it says running without its job registered; a key without one is shown as succeeded exactly when its preview is cached |
| `PreviewJobs.FinishThenRead` | internal/api/local_platform_dashboard.go:382-486 | a job that ends well while its final status is lost is shown as succeeded when no record was stored |
| `PreviewJobs.HonestMeansRegistered` | internal/api/local_platform_dashboard.go:305-315 | an honest running record names a job that the registry reports as running |
| `PreviewJobs.Server.ReadTask` | internal/api/local_platform_dashboard.go:447-486 | returns the stored status, a failed one when its job is gone, which is then stored unless the write fails, or one made up from the cached preview; and nothing when a read fails |
| `PreviewJobs.Server.MarkFinished` | internal/api/local_platform_dashboard.go:317-324 | removes the entry of a key exactly when it holds this job, or the job id is blank |
| `PreviewJobs.Server.StartTask` | internal/api/local_platform_dashboard.go:326-380 | starts a job exactly when the status can be read and written and the key is free, and leaves the registry as it was otherwise; a taken key is answered with the status read, or a running one |
| `PreviewJobs.Server.FinishTask` | internal/api/local_platform_dashboard.go:382-445 | caches the preview, stores the final status, failed when the preview could not be cached, unless the write fails, and frees the key if it still holds this job |
| `RateLimiter.CleanupIsInvisible` | internal/api/ratelimit.go:38-78 | a limiter that forgets elapsed buckets and one that does not give identical replies to every sequence of calls and ticks |
| `RateLimiter.CleanupChangesNoReply` | internal/api/ratelimit.go:38-51 | cleanup ticks inserted anywhere change no reply, for a clock that does not run backwards |
| `RateLimiter.KeysAreIndependent` | internal/api/ratelimit.go:54-78 | the replies on one key are those of a limiter that sees the calls on that key alone |
| `RateLimiter.RateBound` | internal/api/ratelimit.go:54-78 | in any closed interval of a given length a key is admitted fewer than rate * (length / window + 2) times, and never when the rate is not positive |
| `RateLimiter.BoundIsReached` | internal/api/ratelimit.go:54-78 | the bound is sharp: around a reset, 2 * rate - 1 calls pass within one tick of the clock |
| `RateLimiter.AllowMeans` | internal/api/ratelimit.go:54-78 | what one call is told: the end of the window it is in, whether a token was left, and how many remain; other keys are not touched |
| `RateLimiter.Limiter.Allow` | internal/api/ratelimit.go:54-78 | the bucket and the reply of one call, as the specification says |
| `RateLimiter.Limiter.Cleanup` | internal/api/ratelimit.go:38-51 | one tick removes exactly the buckets that were reset more than two windows ago |
| `BackupRestore.NormalizeName` | internal/api/backup_restore.go:378-406 | an entry name is unsafe, or becomes its trimmed non-blank parts without a leading export |
| `BackupRestore.CleanNamesArePlain` | internal/api/backup_restore.go:378-406 | every part of an accepted name is a plain trimmed name without a slash, so that it cannot climb out of its category |
| `BackupRestore.RefusedIff` | internal/api/backup_restore.go:378-394 | a name is refused exactly when it is blank, absolute, or has one or two dots between its slashes of either kind |
| `BackupRestore.PlainNamesAreKept` | internal/api/backup_restore.go:378-406 | a plain path is read as it stands, written with either slash, and only a leading export is taken off and reported |
| `BackupRestore.SegmentsOf` | internal/api/backup_restore.go:383-393 | every part of a name that is not blank is kept in its place, without the white space around it |
| `BackupRestore.CategoryIff` | internal/api/backup_restore.go:515-536 | the directory names that make up each category |
| `BackupRestore.TargetIsPath` | internal/api/backup_restore.go:408-434 | a path with a category is stored as it stands, but for the projects below memory |
| `BackupRestore.TargetsMatchCategories` | internal/api/backup_restore.go:408-434 | an entry has no target exactly when its category is unknown, and otherwise its target lies strictly below the directory of its category |
| `BackupRestore.InspectEntries` | internal/api/backup_restore.go:309-376 | one pass over the archive, with the running total in 64-bit words, yields what the specification says |
| `BackupRestore.SumOfBytes` | internal/api/backup_restore.go:329-332 | the 64-bit running sum does not wrap for accepted entries |
| `BackupRestore.AcceptedWithinLimit` | internal/api/backup_restore.go:329-335 | accepted bytes never exceed 200 MiB |
| `BackupRestore.InspectionMeans` | internal/api/backup_restore.go:309-376 | inspection succeeds exactly when every file passes the limits at its turn and can be read where data is wanted, and then lists the usable files in order, counts the unsafe names and recognizes an export |
| `BackupRestore.RecognizedIff` | internal/api/backup_restore.go:329-376 | an archive is recognized exactly when it passes and holds a usable file below export or in a category |
| `BackupRestore.PlainFileIsListed` | internal/api/backup_restore.go:336-366 | a file with a plain name gives one entry with its name, path, target, category and size, and its data where that is wanted |
| `BackupRestore.RowsAddUp` | internal/api/backup_restore.go:167-190 | the category rows of a preview add up to its total files and total bytes |
| `BackupRestore.PreviewPredictsApply` | internal/api/backup_restore.go:152-215 | a restore inspects successfully exactly when the preview does and all usable data can be read, and then works on the previewed entries |
| `BackupRestore.BuildPreview` | internal/api/backup_restore.go:152-205 | totals, rows by category and the count of unknown files of the inspected entries |
| `BackupRestoreApply.LastWins` | internal/api/backup_restore.go:227-291 | in overwrite mode each target holds the last entry written to it successfully, and every other path is as before |
| `BackupRestoreApply.FirstWins` | internal/api/backup_restore.go:227-291 | in skip mode what was there stays, and otherwise the first entry written successfully stays |
| `BackupRestoreApply.OverwritesIff` | internal/api/backup_restore.go:447-454 | a mode overwrites exactly when it is the word overwrite, in any case and with white space around it |
| `BackupRestoreApply.ActionMeans` | internal/api/backup_restore.go:227-291 | an entry is created, overwritten, skipped or failed by what exists at its turn, the mode and the failing operations |
| `BackupRestoreApply.SkipAfterRestore` | internal/api/backup_restore.go:227-291 | restoring the same backup again in skip mode changes nothing after a restore without faults |
| `BackupRestoreApply.CountsAddUp` | internal/api/backup_restore.go:227-291 | every entry is created, overwritten, skipped or failed |
| `BackupRestoreApply.Store.WriteEntries` | internal/api/backup_restore.go:227-291 | the writes in turn, with counters that add up to the number of entries and no more overwritten than applied |
| `BackupRestoreApply.Store.Restore` | internal/api/backup_restore.go:207-292 | restores exactly when the archive is recognized and holds no unsafe name; each target then holds the last entry written when the mode is overwrite, and for any other mode what it held before or else the first; otherwise the store is unchanged |
| `SkillBackupTheorems.RollbackUndoesOverwrite` | internal/api/skill_diff_rollback.go:194-292 | an overwrite followed by a rollback to the backup it took restores exactly the old files of the target, and nothing outside the target and the skill's backups changes |
| `SkillBackupTheorems.RollbackExample` | internal/api/skill_diff_rollback.go:194-292 | a concrete overwrite and rollback that meets the conditions of the round trip |
| `SkillBackupTheorems.RollbackPossibleIff` | internal/api/skill_diff_rollback.go:194-226 | a skill that was backed up can be rolled back to exactly when no file name begins with .., no directory name ends in .., and its sizes are within the limits |
| `SkillBackupTheorems.DottedNameBlocksRollback` | internal/api/skill_diff_rollback.go:194-226 | a concrete skill with a file whose name begins with two dots, which is backed up but cannot be rolled back to |
| `SkillBackupTheorems.UnpackDelivers` | internal/api/skill_diff_rollback.go:237-292 | unpacking an archive of a skill puts exactly its files below the target |
| `SkillBackupTheorems.RestoreRelStaysInside` | internal/api/skill_diff_rollback.go:237-292 | whatever an archive calls its files, they are restored under plain names below the target |
| `SkillBackupTheorems.BackupSurvivesIff` | internal/api/skill_copy.go:213-234 | a backup just written survives pruning exactly when fewer than five backups are later than it, or it cannot be deleted |
| `SkillBackupTheorems.PruningKeepsFive` | internal/api/skill_copy.go:213-234 | at most five backups remain, and none is deleted while there are no more than five |
| `SkillBackupTheorems.OnlyBackupsArePruned` | internal/api/skill_copy.go:213-234 | pruning takes nothing but what is called a backup in the directory of the skill |
| `SkillBackupTheorems.NewestIsLast` | internal/api/skill_copy.go:141-151 | with a clock that does not run backwards, no backup is later than the one being taken |
| `SkillBackupTheorems.CopyDelivers` | internal/api/skill_copy.go:157-192 | a completed copy leaves each source file's bytes at the target and changes no other file |
| `Stamps.StampOrder` | internal/api/skill_copy.go:142-143 | the string order of stamps is the order of the instants they stand for |
| `Stamps.StampExample` | internal/api/skill_copy.go:142-143 | how a stamp is written |
| `SkillBackups.Store.Collect` | internal/api/local_skill_sync.go:615-660 | lists every file below a directory once, with its data |
| `SkillBackups.Store.Prune` | internal/api/skill_copy.go:213-234 | deletes exactly the backups with five or more later ones |
| `SkillBackups.Store.Copy` | internal/api/skill_copy.go:110-192 | conflict check with its read errors, backup and pruning when overwriting what can be listed, and the copy that stops at its first failing write |
| `SkillBackups.Store.Scan` | internal/api/skill_diff_rollback.go:194-226 | accepts exactly the archives whose names and sizes all pass |
| `SkillBackups.Store.Clear` | internal/api/skill_diff_rollback.go:228-231 | deletes every file below the target that can be deleted |
| `SkillBackups.Store.Rollback` | internal/api/skill_diff_rollback.go:150-292 | rolls back exactly when the path begins with the backups of the skill that the target is named after, ends as a backup, and holds an archive passing the scan; otherwise the store is unchanged |
| `SkillBackups.ValidBackupPathIff` | internal/api/skill_diff_rollback.go:167-172 | the accepted backup paths, by their segments |
| `SkillBackups.RollbackOther` | internal/api/skill_diff_rollback.go:167-172 | a backup taken when one skill is overwritten is refused for a target of any other name |
| `SkillConversion.ChainKeepsTextIff` | internal/api/skill_conversion.go:554-599 | for text without markers and external references, any chain of conversions leaves the trimmed original above the last block exactly when no earlier manifest holds the end marker in its joined environment variables; stripping gives the original back exactly when the last does not either, and there is one block exactly when the last holds neither marker there |
| `SkillConversion.RepeatingIsIdempotentIff` | internal/api/skill_conversion.go:554-599 | repeating a conversion that finds no more references changes nothing exactly when the environment variables do not hold the end marker and the stripped text holds no marker or is nothing but copies of the new block |
| `SkillConversion.VariableClosesBlock` | internal/api/skill_conversion.go:554-599 | a concrete manifest with the end marker among its environment variables: stripping does not give the text back, and repeating the conversion changes it |
| `SkillConversion.StrayEndPilesUp` | internal/api/skill_conversion.go:554-599 | a content that is a stray end marker, which every repetition of a conversion changes |
| `SkillConversion.BlockIsBlockIff` | internal/api/skill_conversion.go:565-597 | the notes of a conversion end where their block does exactly when the joined environment variables do not hold the end marker, and hold one marker of each kind exactly when the variables hold neither |
| `SkillConversion.RewrittenKeepsEnd` | internal/api/skill_conversion.go:557-563 | replacing references, which hold no bracket and no space, never takes an end marker away |
| `SkillConversion.NotesSay` | internal/api/skill_conversion.go:564-588 | the notes name both platforms, and hold each warning exactly when the manifest has scripts, dependency files, environment variables or external references |
| `SkillConversion.OthersRewriteNothing` | internal/api/skill_conversion.go:557-563 | only a conversion from Claude Code to Codex looks at references |
| `SkillConversion.ReferenceIsRewritten` | internal/api/skill_conversion.go:557-563 | a reference that such a conversion finds is replaced by the packaged path |
| `Blocks.StripUndoesAttach` | internal/api/skill_conversion.go:589-599 | stripping takes the block out of a text without markers and leaves the text |
| `Blocks.StrayEndAgain` | internal/api/skill_conversion.go:589-599 | a stray end marker keeps every old block in place |
| `Blocks.StrayStartAgain` | internal/api/skill_conversion.go:589-599 | a stray start marker makes the next conversion lose the text behind it |
| `Blocks.LateEndAgain` | internal/api/skill_conversion.go:589-599 | with an end marker in its notes, a block is never taken out whole |
| `Blocks.OnlyStacks` | internal/api/skill_conversion.go:589-599 | the only texts that a conversion reproduces although they begin with a pair of markers are stacks of its block |
| `SkillConversionPlan.ConflictIff` | internal/api/skill_conversion.go:224-252 | a plan has a conflict exactly when an existing target file may not be overwritten |
| `SkillConversionPlan.PlanMeans` | internal/api/skill_conversion.go:224-252 | each file is a conflict when it exists and may not be overwritten, and otherwise generated, converted or copied by what it is |
| `SkillConversionPlan.CountersAddUp` | internal/api/skill_conversion.go:650-662 | the counters of a conversion account for every file |
| `SkillConversionPlan.Hub.BuildPlan` | internal/api/skill_conversion.go:224-252 | the change planned for each file, or a failure exactly when some target file cannot be read |
| `SkillConversionPlan.Hub.BuildConversion` | internal/api/skill_conversion.go:224-299 | writes nothing when previewing, when a file cannot be read or when there is a conflict; keeps every file that may not be overwritten whatever fails; delivers every converted file when it succeeds |
| `Handover.NotesSurviveIff` | internal/api/codex_console.go:2125-2215 | extracting the notes of a rendered handover gives those of the file it replaces, or the placeholder, exactly when neither the time of saving, nor the kind or time of an item, nor the identifier of an item with an empty title holds their heading behind a line break |
| `Handover.HeadMarkedIff` | internal/api/codex_console.go:2125-2193 | the lines above the notes hold their heading behind a line break exactly when one of those fields does |
| `Handover.SingleLinesNeverBury` | internal/api/codex_console.go:2125-2193 | a single-line time of saving and single-line kinds, times and identifiers are enough |
| `Handover.NotesSurviveRegenerationsIff` | internal/api/codex_console.go:2018-2026 | manual notes survive every round of a sequence of regenerations, with any handover data, exactly when no round brings their heading in one of those fields |
| `Handover.MultiLineKindBuriesNotes` | internal/api/codex_console.go:2173-2184 | a concrete handover with a kind that holds the heading behind a line break, after which the next extraction returns something else whatever the notes were |
| `Handover.AppendGroup` | internal/api/codex_console.go:2166-2193 | appends the lines of a group of items |
| `Handover.RenderMarkdown` | internal/api/codex_console.go:2125-2164 | the rendered file, notes included |
| `Handover.SectionsAreShown` | internal/api/codex_console.go:2125-2193 | a reader finds each group of items under its own title and the summary, the activity and the four counters under the status, whatever the fields hold |
| `Handover.ItemExamples` | internal/api/codex_console.go:2166-2193 | an item with all its fields, and items that lack some, as they are shown |
| `Handover.OverrideIsStable` | internal/api/codex_console.go:2099-2123 | content sent along is stored with the marker in it, and sending what was stored changes nothing |
| `Handover.OverrideMeans` | internal/api/codex_console.go:2099-2123 | blank content stores nothing; otherwise the whole text is stored, as it is when it holds the marker, with the marker behind a first line that is a heading, and else below a title and the marker |
| `Handover.NotesBehindHeading` | internal/api/codex_console.go:2195-2215 | the notes of a file that begins with the heading are all that follows its line |
| `ConsoleText.MarkdownLineIsLine` | internal/api/codex_console.go:2217-2224 | a markdown line holds no line break unless its fallback does |
| `ConsoleText.NormalIdIsSlug` | internal/api/codex_console.go:3481-3505 | a normalized identifier has 1 to 72 letters, digits and dashes |
| `ConsoleText.NormalIdAgainIff` | internal/api/codex_console.go:3481-3505 | normalizing an identifier again changes nothing, exactly unless the cut at 72 characters left a dash at its end |
| `ConsoleText.NormalIdIsTidyIff` | internal/api/codex_console.go:3481-3505 | an identifier has single dashes, and only inside, exactly unless the cut left one at its end |
| `ConsoleText.TidySlugStays` | internal/api/codex_console.go:3481-3505 | a tidy slug of at most 72 characters is its own identifier |
| `ConsoleText.LettersStay` | internal/api/codex_console.go:3481-3505 | but for the cut, an identifier has exactly the letters and digits of the lower-case text, in order; a text without any becomes item |
| `ConsoleText.FieldsMean` | internal/api/codex_console.go:2217-2224 | white space separates words and makes none of its own |
| `FreshNames.UniqueThreadId` | internal/api/codex_console.go:2664-2683 | the first name not taken among the candidates, found within one more try than there are names taken |
| `FreshNames.ThreadIds` | internal/api/codex_console.go:1003-1006 | all thread ids of a response are pairwise distinct, begin with the given id, and are that id unless it was taken |
| `FreshNames.DistinctIdsAreKept` | internal/api/codex_console.go:2664-2673 | given ids that are pairwise distinct are all kept |
| `FreshNames.ThreadNamesDiffer` | internal/api/codex_console.go:2674-2682 | no two candidates for one thread are the same name |
| `FreshNames.GivenIdMeans` | internal/api/codex_console.go:2664-2669 | a thread without an identifier gets its number, filled up to three digits, and any other keeps its own, trimmed |
| `FreshNames.UniqueCategory` | internal/api/codex_console.go:1286-1315 | an unused category of at most 128 bytes, the first of the candidates; it fails exactly when all hundred are used, so never with fewer than a hundred categories |
| `FreshNames.CategoriesDiffer` | internal/api/codex_console.go:1299-1309 | the candidates are pairwise distinct, however the stem is cut |
| `MemoryReview.ReviewStateIsWellKept` | internal/api/codex_console.go:1092-1271 | over every run of reviews, syncs and resolutions from an empty state, each item is stored under its own id and has a time of syncing exactly when it is synced |
| `MemoryReview.ReviewedAllIff` | internal/api/codex_console.go:1146-1177 | a review drops the items to be reviewed again, stores decision, note and candidate for the others it was asked about, and leaves every other item as it was |
| `MemoryReview.ReportedIsSynced` | internal/api/codex_console.go:1103-1123 | after a sync the item of a candidate is synced under the path that was reported last |
| `MemoryReview.UnreportedStays` | internal/api/codex_console.go:1103-1123 | an item that no result reports as synced, or whose candidate is not known, stays as it was |
| `MemoryReview.ParseDecisionIff` | internal/api/codex_console.go:2515-2523 | four words ask for a decision, in any case and with white space around them |
| `MemoryReview.ByIdentifierIff` | internal/api/codex_console.go:2504-2513 | of several candidates with one identifier the last is known, and a blank identifier never |
| `MemoryReview.OutcomeIff` | internal/api/codex_console.go:2269-2307 | a candidate is synced, skipped or failed by its content, its size, the profile of its category and the failing operations |
| `MemoryReview.StepRespectsOthers` | internal/api/codex_console.go:2269-2307 | one sync step never changes, up to surrounding white space, a profile that this agent has not written |
| `MemoryReview.OthersOverARequest` | internal/api/codex_console.go:2269-2307 | over a whole request, such a profile is left alone unless a candidate agrees with its text, and from then on takes the content of the last candidate of its category |
| `MemoryReview.DistinctCategoriesRespectOthers` | internal/api/codex_console.go:1033-1090 | with one candidate for each category, a request leaves the text of every such profile as it was |
| `MemoryReview.SecondCandidateReplaces` | internal/api/codex_console.go:2291-2306 | a concrete request in which the first candidate takes a user's profile over by agreeing with it and the second replaces its text |
| `MemoryReview.Console.Review` | internal/api/codex_console.go:1129-1184 | applies one decision to the known candidates named, or nothing when loading or saving fails; updated counts the known ones among the identifiers that are not blank, and failed the others |
| `MemoryReview.Console.MarkSynced` | internal/api/codex_console.go:1092-1127 | marks the synced results of known candidates |
| `MemoryReview.Console.SyncCandidate` | internal/api/codex_console.go:2269-2307 | syncs, skips or fails one candidate, and writes its category only when it syncs |
| `MemoryReview.Console.Sync` | internal/api/codex_console.go:1033-1090 | one result for each candidate and each unknown id, counted as synced, skipped or failed, with no result uncounted |
| `MemoryReview.Console.Resolve` | internal/api/codex_console.go:1186-1271 | succeeds exactly when the texts fit, a free category exists where one is needed, and writing, loading and saving succeed; keeping the existing profile changes none, keeping both adds the first free category, using or merging the candidate changes its category alone |
| `McpHealth.ProbedWithinEight` | internal/api/mcp_health.go:60-113 | every configured server is probed in any eight consecutive cycles, wherever manual refreshes come in between |
| `McpHealth.FailingBound` | internal/api/mcp_health.go:88-113 | a server that always fails is probed at most 3 + ceil(n / 8) times in n consecutive cycles |
| `McpHealth.FailingBoundIsMet` | internal/api/mcp_health.go:88-113 | the bound is met: 8 * m failing cycles from cycle 1 on cost exactly 3 + m probes |
| `McpHealth.NothingIsLeftBehind` | internal/api/mcp_health.go:171-183 | after a run that ends with a cycle, nothing is remembered about servers that are not configured |
| `McpHealth.ReturningServerIsProbed` | internal/api/mcp_health.go:171-183 | a server that comes back is probed in its first cycle |
| `McpHealth.CheckedMeans` | internal/api/mcp_health.go:60-183 | what one cycle makes of one server: a due one is probed, its count starts again or grows and the cache says which; one that is not due stays as it was, and an unconfigured one is forgotten |
| `McpHealth.RefreshMeans` | internal/api/mcp_health.go:193-198 | after a manual refresh no failure is counted and every configured server is probed in the next cycle |
| `McpHealth.Checker.CheckAll` | internal/api/mcp_health.go:54-184 | one cycle: what is due is probed, counted and cached, and unconfigured servers are forgotten |
| `McpHealth.Checker.ManualRefresh` | internal/api/mcp_health.go:193-198 | a manual refresh clears every failure count |
| `Snippets.SnippetText` | internal/api/machine_helpers.go:120-131 | the collapsed text, or its longest valid prefix within 177 bytes, trimmed, and dots; at most 180 bytes, and valid UTF-8 whenever the text is or is cut |
| `Snippets.LocalLibrarySnippet` | internal/api/local_library.go:719-729 | the same with 237 and 240 bytes |
| `Snippets.Cut` | internal/api/machine_helpers.go:126-129 | the trimming loop stops at the longest valid prefix |
| `Snippets.CutDropsLittle` | internal/api/machine_helpers.go:126-129 | of valid UTF-8 the loop drops at most three bytes |
| `Snippets.CollapseKeepsValid` | internal/api/machine_helpers.go:121-121 | collapsing white space keeps valid UTF-8 valid |
| `Snippets.CollapseMeans` | internal/api/machine_helpers.go:121-121 | white space between two words becomes one blank, and goes at both ends |
| `Snippets.TrimRightMeans` | internal/api/machine_helpers.go:130-130 | trimming takes white space off the end of valid text and stops at the last word |
| `Snippets.EncodedIsRune` | internal/api/machine_helpers.go:126-129 | every Unicode scalar value is read back from its UTF-8 bytes as one character, whatever follows |
| `Snippets.RuneIsEncoded` | internal/api/machine_helpers.go:126-129 | and whatever is read as one character is the UTF-8 encoding of a scalar value |
| `Snippets.SpaceIff` | internal/api/machine_helpers.go:121-121 | a text begins with white space exactly when its first character is one of unicode.IsSpace |
| `ClaudeBranch.CurrentBranch` | extension/content.js:1046-1067 | the walk yields the chain of parents from a root to the current leaf, in no more steps than there are messages |
| `ClaudeBranch.BranchIsUnique` | extension/content.js:1046-1067 | there is only one such maximal chain |
| `ClaudeBranch.BranchOfDistinctIff` | extension/content.js:1046-1067 | for messages with distinct identifiers the branch is the maximal chain of parents among the messages themselves |
| `ClaudeBranch.EndsIff` | extension/content.js:1057-1064 | the walk can end exactly when the chain of parents meets no message twice |
| `ClaudeBranch.BranchExistsIff` | extension/content.js:1046-1067 | there is a branch to find exactly when the chain of parents meets no message twice |
| `ClaudeBranch.OwnParentNeverEnds` | extension/content.js:1057-1064 | a concrete message that is its own parent, from which the walk never ends |
| `ClaudeBranch.IndexMeans` | extension/content.js:1053-1053 | looking a message up by its identifier finds a message with that identifier |
| `ClaudeBranch.LastIsIndexed` | extension/content.js:1053-1053 | of several messages with one identifier the last is found |

## Left out

- `LocalSkillSyncTheorems.SyncConvergesIff`: skill paths are taken as normalized and their directories as apart, and applying without failure is a condition; which failures the disk reports is left open.
- `LocalSkillCleanup.CleanupIsFixpoint`: that a second walk finds nothing is stated for removals that succeed.
- `SkillConversion.RepeatingIsIdempotentIff`: says nothing of a repeated conversion that still finds external references to rewrite.
- `SkillConversion.RewrittenKeepsEnd`: the pattern that finds references is a parameter, of which only its lack of brackets and spaces and its slash are used.
- `SkillConversion.NotesSay`: which warnings stand in the notes is stated; their wording is in the model only.
- `MemoryReview.StepRespectsOthers`: syncing into profile memory only; appending a candidate to the context of a project is not modelled.
- `ClaudeBranch.CurrentBranch`: chains of parents without a cycle, since the original loop does not end on others; `EndsIff` says so.
- `SkillBackups.Store.Copy`: the subscription document that a copy updates at its end is not modelled.
- `SkillBackups.Store.Rollback`: the backup path is looked up as given, and the subscription document that a rollback updates is not modelled.
- `PreviewJobs.HonestThroughoutIff`: the interleaved steps leave out the cached previews and failing status reads; `PreviewJobs.Server` has both.
- HTTP handlers, JSON, authentication, scopes and access checks: a request arrives decoded and allowed.
- The text of errors and warnings: errors are counted, warnings are flags.
- Symbolic links, permissions and case folding of a real disk: a path may be denied, or stuck.
- The Cursor rewriting of skill files, which no agent that supports applying reaches, and export packages.
- The quality findings that block a sync: only how many are blocked or manual.
- The names of team skill directories: where a skill is placed below the root is a parameter, and a theorem that needs directories apart says so.
- Zip compression, hashing, base64 and content types: an archive is a list of names, sizes and data, and the hash in a thread id is a parameter.
- Manifests, reports and platform guessing of a conversion: the converted files are given.
- Overflow of the 64-bit cycle and token counters.
- Concurrent health cycles: a manual refresh clears the counts and its cycle comes next.
- Time formats other than the fixed-width stamp.
