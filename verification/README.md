# Litestream: a verification model

Litestream replicates a SQLite database as a chain of LTX files. Each file covers a range of
transactions and holds the pages they wrote; files live at level 0 (single transactions), at
compaction levels 1..8 and at the snapshot level 9. This project models the parts that decide which
files exist, which ones are chosen and what database they produce, and proves properties of them.

| file | what it models |
|---|---|
| `Ltx.dfy` | file ranges, filename order, coverage |
| `RestorePlan.dfy` | planning a restore: the greedy cover and the mutable level cursors that compute it |
| `RestoreTheorems.dfy` | completeness, minimality and meaning of a plan |
| `PageImage.dfy` | the history of a database, the contents of files, merging and applying them |
| `FollowTheory.dfy`, `Follow.dfy` | follow mode: patching a database in place, with failures and crashes anywhere |
| `ReplicaMachine.dfy` | the replica as a state machine of uploads, compactions, snapshots and deletions |
| `CacheBound.dfy` | cached maxima when responses of the storage get lost |
| `Replicator.dfy` | the methods that take these steps: sync, compaction, retention, cached maxima |
| `Restorability.dfy` | what every reachable state of the replica guarantees to restores and followers |
| `Wal.dfy`, `WalIndex.dfy`, `WalReader.dfy` | the write-ahead log: checksums, frames, page maps, opening at an offset |
| `WalFormat.dfy` | the same in bytes and numbers: header, frames, and the checksum as a weighted sum |
| `WalWriter.dfy` | writing such a log, and reading it back |
| `LogPosition.dfy` | deciding where the next sync reads on |
| `CaptureTheory.dfy`, `Capture.dfy`, `CaptureRun.dfy` | copying the log into level-0 files, one sync and any number of them while the log grows |
| `LogRestart.dfy`, `LogExamples.dfy` | any number of syncs through restarts of the log; logs on which something is lost, stale or kept back |
| `LeaseMachine.dfy`, `Leaser.dfy` | the S3 lease: the protocol of many clients, and one client's operations in it |
| `ResumableReader.dfy` | a reader that reopens broken streams |
| `WriteBuffer.dfy`, `VfsWriter.dfy` | writing through the VFS: lock, buffer files, switching writes on and off |

`dafny verify dfyconfig.toml` checks the whole project.

## Where the code differs from what it says

The models follow the code. In these places it does not do what its comments or messages promise.

- **Resuming a follower** (`environment/project/replica.go:559-587`). The comment speaks of saved
  transactions that retention has pruned. Snapshots start at transaction 1, so that test never fires.
  What the check does refuse is any follower *ahead* of the newest snapshot, and every such follower
  could have gone on (`Restorability.ResumeCondition`, with a run in
  `Restorability.NewerFollowerIsRefused`). What it lets pass are followers whose history was pruned: they
  go on and never find a file (`Restorability.PrunedFollowerIsStuck`). Where retention goes by the oldest
  snapshot, that can happen exactly if the saved transaction is more than one behind the end of that
  snapshot (`Restorability.SafeToResume`).
- **Resuming a stream** (`environment/project/internal/resumable_reader.go:32-36` and `:70-75`). The
  documentation promises a seamless stream reopened at the current offset; the code reopens one byte
  earlier, so that byte is handed out twice. `ResumableReader.ExactUnlessRewound` says exactly in which
  runs the stream is still right, `ResumableReader.BrokenOnce` gives one in which it is not, and
  `ResumableReader.DocumentedIsExact` proves the documented behaviour right.
- **Snapshots taken from the middle of the log** (`environment/project/db.go:1410-1417`). If the last
  page cannot be matched, a snapshot is taken with the offset left where it was. It is exact if and only
  if the database file already holds every page of the earlier part of the log
  (`CaptureTheory.SnapshotIsExact`), as after a checkpoint that went at least that far
  (`CaptureTheory.CheckpointedBacks`). `LogExamples.StaleSnapshot` is a log and a database file for which
  it is not. They arise when a database is put back, with its log, to an earlier moment, while the last file
  is from the time before that, as `environment/project/db.go:1212-1300` provides for.
- **A lost previous frame** (`environment/project/db.go:1578-1589`). The log message says that a snapshot
  follows; what follows is an incremental file over the log from its header
  (`LogRestart.GoneFrameIsNoSnapshot`). It is right if the files reach as far as the database that the
  log continues; otherwise exactly if nothing that was written in between is missing
  (`LogRestart.IncrementIsExact`). `LogExamples.LostWrite` is a log of the same length as the one before,
  for which a write is lost.
- **A log file of unchanged length** (`environment/project/db.go:1363-1368`). The comment concludes that
  the previous sync reached the end. A log that is rewritten in place from its start keeps its length, and
  its transactions are not captured until the file grows (`LogExamples.HeldTransaction`). For
  the first sync after a restart that is the one case in which it skips anything new, exactly
  (`LogRestart.SyncAfterRestart`), and in a run of syncs the one in which the files fall behind; they stay
  exact for an earlier transaction (`LogRestart.FilesStand`).
- **Disabling writes** (`environment/project/vfs.go:1727-1728` and `:2192-2199`). The flag is to keep new
  transactions from starting. It also keeps a file that is in one from raising its lock, so a transaction
  that still has to do so cannot commit, and the disabling waits for it until it rolls back, unlocks, or
  the wait is given up (`VfsWriter.VFSFile.Lock`, `VfsWriter.VFSFile.DisableWrites`).

- **Buffer files** (`environment/project/vfs.go:147-168` and `:1819-1834`). Dirty pages are to survive until
  they are uploaded. A file opened for writing gets a buffer path of its own; one whose writes are enabled
  later takes the same path as every other such file, and empties what is there. `VfsWriter.SharedBuffer`
  is a run in which a file uploads a page that another one wrote. `VfsWriter.VFS.SafeIffAlone` says exactly
  when the dirty pages of a file are safe, `VfsWriter.Spoil` that they are lost otherwise, and
  `VfsWriter.Session` that they are safe if all files are opened for writing.

## Assumptions

- Each level lists in filename order, by first and then by last transaction. Snapshots start at
  transaction 1.
- SQLite writes pages inside the new size, and every page that growth adds is written by the growing
  transaction; the lock page is never written. Pages are opaque values.
- The LTX library merges by last writer, within the size of the last input, and refuses inputs that are
  not contiguous; its decoder accepts a complete database only.
- During a run of syncs the log keeps its committed frames until it is started over. It is started over,
  with other salts, only when the database file holds everything committed, and that had been seen and was
  not held back. The frame captured last is then untouched or overwritten. Page sizes do not change.
- Nothing is written through a file of the VFS after it is closed, and a buffer file can be opened when a
  file is opened for writing. Nothing but the VFS touches buffer files, and their paths are distinct.
- Clients of a lease share a non-decreasing clock and one TTL, every write of the remote object gets a
  new etag, and every response carries it. A client stops holding a lease when it calls release,
  and exclusion is stated for clients that renew and release only leases they were given.

## Model

| member | source | states |
|---|---|---|
| `RestorePlan.CalcRestorePlan` | environment/project/replica.go:1420-1536 | Conflicting targets are refused; the snapshot is the last one that ends by the transaction wanted or was created before the moment given, and so is every file after it, which form a maximal greedy chain over all files of levels 0..8; a listing error is reported if the snapshots cannot be listed, or a level cannot be opened or breaks off before a file too far ahead, and only then; the other error cases are told apart exactly |
| `RestorePlan.ExtendPlan` | environment/project/replica.go:1482-1515 | The cursor loop ends, on a measure that falls in every turn, and what it returns is the greedy chain: each file is an eligible one over all levels to which no eligible file is preferred, until the target is reached or nothing is eligible |
| `RestorePlan.TakeNext` | environment/project/replica.go:1483-1508 | One turn of the loop: the candidate taken is a greedy choice unless it is stale, and some cursor has less work left |
| `RestorePlan.PickNext` | environment/project/replica.go:1483-1497 | After one round over the cursors all are caught up with the current end, and the index returned holds a candidate none of the others beats |
| `RestorePlan.PreferredIsGreedy` | environment/project/replica.go:1491-1497 | The best candidate of caught-up cursors is a greedy choice over all listed files, although every cursor has dropped files for good; no candidate at all means that no listed file is eligible |
| `RestorePlan.GreedyChoiceIs` | environment/project/replica.go:1605-1616 | The next file of a plan reaches farthest of those that continue it in time; among equals it starts first, then has the highest level, then is the oldest |
| `RestorePlan.LevelCursor.Refresh` | environment/project/replica.go:1549-1587 | A refreshed cursor holds a candidate no evaluated and still useful file beats, every file left starts too late, and it has no more work left than before |
| `RestorePlan.LevelCursor.Consider` | environment/project/replica.go:1568-1585 | Evaluating one file keeps the cursor's candidate the best so far and uses up work |
| `RestorePlan.LevelCursor.EnsureCurrent` | environment/project/replica.go:1589-1603 | Reads at most one file ahead; fails exactly if a file is needed and the listing has broken off, and a cursor that is done has evaluated its whole listing |
| `RestorePlan.TracksAdvance` | environment/project/replica.go:1553-1556 | A cursor stays correct when the end of the plan moves on, and dropping a stale candidate loses nothing |
| `RestorePlan.WorkShrinks` | environment/project/replica.go:1482-1515 | If no cursor gains work and one loses some, the total falls: the termination measure of planning |
| `RestorePlan.CheckContiguous` | environment/project/replica.go:1517-1527 | In latest mode the check passes exactly if no listed file starts behind a gap after the end of the plan |
| `RestorePlan.OpenCursors` | environment/project/replica.go:1463-1480 | One cursor a level, together listing exactly the files of levels 0..8 |
| `RestorePlan.SelectSnapshot` | environment/project/replica.go:1426-1452 | The snapshot kept is the last one listed that ends by the transaction wanted, if any, and was created before the moment given, if any |
| `RestoreTheorems.TargetCompleteness` | environment/project/replica.go:1430-1533 | With a target a plan is returned exactly if some snapshot, or none, and files ending by the target leave no transaction up to it uncovered; it then ends exactly at the target |
| `RestoreTheorems.LatestCompleteness` | environment/project/replica.go:1461-1533 | In latest mode a plan is returned exactly if something is stored and no transaction from the snapshot to the end of any listed file is uncovered; it then reaches every listed file |
| `RestoreTheorems.MomentCompleteness` | environment/project/replica.go:1430-1533 | As of a moment a plan exists exactly if files created before it cover some transaction from the first on, and it ends at the last transaction up to which they cover everything, from whichever snapshot |
| `RestoreTheorems.PlanIsMinimal` | environment/project/replica.go:1491-1510 | No set of admissible files that covers what the plan covers behind its snapshot has fewer files |
| `RestoreTheorems.GreedyPointsSeparate` | environment/project/replica.go:1605-1616 | The transactions just behind the ends of a greedy chain need pairwise different files |
| `RestoreTheorems.GreedyIsTouching` | environment/project/replica.go:1499-1510 | Each file of a greedy chain touches what came before it and reaches further |
| `RestoreTheorems.TouchingCovers` | environment/project/replica.go:1499-1510 | A touching chain leaves out no transaction between its start and its end |
| `RestoreTheorems.LatestSnapshotIsBest` | environment/project/replica.go:1430-1452 | In filename order, with snapshots starting at transaction 1, the last admissible snapshot reaches at least as far as any |
| `RestoreTheorems.SnapshotStartsFarthest` | environment/project/replica.go:1430-1461 | Choosing the last admissible snapshot is never worse than choosing another one or none |
| `RestoreTheorems.PlanIsTouching` | environment/project/replica.go:1420-1536 | A plan starts at transaction 1, its files touch and grow, and all of them are listed |
| `RestoreTheorems.RestoreReplaysHistory` | environment/project/replica.go:664-682 | Merging and decoding the files of a plan gives the database that replaying every transaction gives, although files overlap and the database may shrink and regrow inside a file |
| `PageImage.MergeMeaning` | environment/project/compactor.go:151-162 | Last-writer-wins merging of touching or overlapping files, cut to the last size, is exactly the file over their whole range |
| `PageImage.OverlayMeaning` | environment/project/compactor.go:151-162 | Laying touching files over each other gives, for each page still inside the database, its last write in the whole range |
| `PageImage.RestoreMeaning` | environment/project/replica.go:664-682 | A merged chain from transaction 1 decodes into a complete database, the one after its last transaction |
| `PageImage.SnapshotContent` | environment/project/db.go:1734-1779 | The file over 1..b holds every page but the lock page, and is the database after b |
| `PageImage.UnwrittenStays` | environment/project/replica.go:891-916 | A page inside the database at b that no transaction of a..b wrote was inside it all along, and is unchanged |
| `PageImage.WrittenHoldsLast` | environment/project/replica.go:891-916 | A page written in a..b and inside the database at b holds its last write |
| `PageImage.LastWritesSplit` | environment/project/compactor.go:151-162 | The last write of a page in a range is the one in the later part if there is one, else the one in the earlier part |
| `FollowTheory.FollowConverges` | environment/project/replica.go:760-785 | From an image that differs from the state at t only on pages touched up to u, any chain of touching files that reaches u gives exactly the state at its end |
| `FollowTheory.CrashInApply` | environment/project/replica.go:891-916 | A crash between any two page writes leaves the image repairable from the same transaction |
| `FollowTheory.ApplyAdvances` | environment/project/replica.go:872-923 | A file applied completely moves the point of repair to its end |
| `FollowTheory.TornBack` | environment/project/replica.go:774-781 | An image repairable from a later transaction is repairable from every earlier one, so the sidecar may lag behind |
| `FollowTheory.TornWrite` | environment/project/replica.go:897-909 | Writing one page of a file keeps an image repairable |
| `FollowTheory.TornTruncate` | environment/project/replica.go:911-916 | So does cutting the image to the size of the file |
| `FollowTheory.TornExact` | environment/project/replica.go:760-785 | An image with nothing left to repair is the state itself |
| `FollowTheory.UnwrittenIsUntouched` | environment/project/replica.go:891-916 | A page that a touching file does not hold was neither written nor cut off since the current transaction |
| `Follow.Follower.ApplyLTXFile` | environment/project/replica.go:872-923 | Whichever I/O call fails, the image stays repairable from the current transaction; success gives the file's overlay, cut to its size, and moves on to its end |
| `Follow.Follower.FillFromLevel` | environment/project/replica.go:933-985 | One level of the gap search: without an error it ends past the gap, or where no file of the level leads on; it applies touching files of that level alone, and of those at most the last leads past the gap; it fails exactly if an I/O call does |
| `Follow.Follower.FillFollowGap` | environment/project/replica.go:927-987 | Without an error: the lowest of levels 1..8 that has a file to continue the position is searched like this, and no other; the position stays if there is none |
| `Follow.Follower.FollowFile` | environment/project/replica.go:808-850 | One level-0 file: without a gap it alone is applied, if it reaches further; a gap is bridged first, and if that cannot be done the poll stops with the search exhausted |
| `Follow.Follower.FollowLevel0` | environment/project/replica.go:803-852 | The level-0 part of a poll: a listing without gaps is applied exactly; otherwise all of it is passed, or a gap is left that could not be bridged |
| `Follow.Follower.ApplyNewLTXFiles` | environment/project/replica.go:791-862 | An error-free poll advances exactly if some listed file of levels 0..8 continues the position, and ends past all of level 0, in front of a gap that the levels above cannot bridge, or where they end if level 0 has nothing new |
| `Follow.Follower.Poll` | environment/project/replica.go:760-785 | Whatever fails, the image is repairable from the recorded transaction; only a failure to record ends the loop; a poll without errors goes that far, applies a touching chain, records its end, moves exactly if it can, never behind the listed files, and has repaired the image once it passes the last torn write |
| `Restorability.CatchUp` | environment/project/replica.go:745-785 | Repeated polls, some failing anywhere: each error-free one brings a follower that is not pruned at least one transaction on, so with as many of them as it lacks it is at the last upload and stays there, and the database is the one after it |
| `Follow.Follower.Restart` | environment/project/replica.go:548-591 | After a crash the follower goes on from the recorded transaction with the image it finds; it is turned away exactly if nothing is recorded, the snapshots cannot be listed, or the check against them fails |
| `Follow.CheckResume` | environment/project/replica.go:567-587 | The resume check compares the saved transaction with the snapshot listed last |
| `ReplicaMachine.InvStep` | environment/project/compactor.go:102-423 | Uploads, compactions, snapshots, single deletions, lost responses and restarts keep the invariant: level 1 covers from the newest snapshot to its own end, level 0 from the watermark to the last upload |
| `ReplicaMachine.ReachableInv` | environment/project/compactor.go:102-423 | So every state reachable by any interleaving has it |
| `ReplicaMachine.InvUpload` | environment/project/replica.go:163-169 | An upload extends level 0 by one transaction and leaves the watermark alone |
| `ReplicaMachine.InvCompact` | environment/project/compactor.go:102-189 | A compaction keeps the coverage and never lowers the watermark, even if its response is lost |
| `ReplicaMachine.InvDelete` | environment/project/compactor.go:235-423 | Every deletion that retention may decide on keeps the coverage |
| `ReplicaMachine.DecisionsStayValid` | environment/project/compactor.go:266-282 | A deletion or compaction decided on stays allowed after any other step, so lists may be carried out late, in part and interleaved |
| `ReplicaMachine.DeletionsMayWait` | environment/project/store.go:188-212 | A lossless deletion stays lossless over any lossless run of the other levels' goroutines |
| `ReplicaMachine.CompactionsMayWait` | environment/project/store.go:188-212 | A lossless compaction that has listed its source files stays lossless over any such run that compacts nothing else into its level |
| `ReplicaMachine.StrictStep` | environment/project/compactor.go:102-423 | In runs without lost compaction responses files above level 0 stay disjoint, never straddle the end of the next level, level 0 covers everything behind level 1, and cached maxima stay exact |
| `ReplicaMachine.LosslessStrict` | environment/project/compactor.go:72-98 | In every state such a run reaches, each cached maximum of levels 1..9 is the true one |
| `ReplicaMachine.DeleteKeepsMax` | environment/project/compactor.go:311-313 | Retention never removes the file with the maximum of a level |
| `CacheBound.CacheNeverAhead` | environment/project/compactor.go:72-98 | Whatever responses get lost, while compactions are carried out as planned, at once or later: no cached maximum is ever beyond the true one, and the last file of each listing, which retention spares, ends last in its level |
| `CacheBound.TidyStep` | environment/project/compactor.go:102-423 | The invariant behind it, kept by every step: the files of each level ascend, and each level supports the next |
| `CacheBound.PlannedIsOnward` | environment/project/compactor.go:105-162 | A compaction planned from the listing, by a cached maximum however stale, starts and ends no earlier than any file of its level |
| `CacheBound.OnwardMayWait` | environment/project/compactor.go:112-174 | It may be carried out after any other steps that compact nothing into its level |
| `Replicator.CompactionOnward` | environment/project/compactor.go:105-174 | The compactor plans such compactions |
| `Restorability.AlwaysRestorable` | environment/project/replica.go:1420-1536 | In every reachable state a latest-mode plan exists and ends at the largest transaction stored |
| `Restorability.LatestRestoreReplaysHistory` | environment/project/replica.go:533-700 | And restoring it gives the database after that transaction |
| `Restorability.TwoLevelsCover` | environment/project/compactor.go:102-423 | In every reachable state each transaction from the newest snapshot to the last upload lies in a file of level 0 or 1 |
| `Restorability.FollowerNeverStuck` | environment/project/replica.go:791-987 | A follower between the newest snapshot and the last upload always finds a file that continues it |
| `Restorability.FollowerNeverStuckSince` | environment/project/replica.go:791-987 | If retention in levels 1..8 goes by the oldest snapshot, so does every follower that lacks at most the last transaction of that snapshot |
| `Restorability.LatestRestoreIsSQLites` | environment/project/replica.go:533-700 | Restoring what was captured from the log gives the database SQLite had at the cut of the last stored file |
| `Restorability.ResumeCondition` | environment/project/replica.go:577-587 | The check passes exactly if there is no snapshot or the saved transaction is not newer than the newest one; its first error never occurs, and the followers its second error turns away could go on |
| `Restorability.SafeToResume` | environment/project/replica.go:559-587 | A follower that the check lets go on can be stuck in some reachable state if and only if its saved transaction is more than one behind the end of the oldest snapshot |
| `Restorability.PrunedFollowerIsStuck` | environment/project/replica.go:559-587 | A run after which the check lets a follower at transaction 1 go on, while no file of any level continues it |
| `Restorability.NewerFollowerIsRefused` | environment/project/replica.go:581-583 | A run after which the check turns away a follower that a stored file continues |
| `Replicator.Replica.Compact` | environment/project/compactor.go:102-189 | Compacts exactly the source files behind the cached end of the level, if they are contiguous, into one file over their range; it is a run of the state machine, lossless if the state was and the response is not lost, never puts a cached maximum beyond the true one, and appends to level 1 without a gap |
| `Replicator.Replica.MaxLTXFileInfo` | environment/project/compactor.go:72-98 | The cached file if there is one, else the one with the largest transaction, which is then cached; nothing else changes |
| `Replicator.Replica.WriteCompacted` | environment/project/compactor.go:164-174 | Stored, stored without an answer, or failed: in each case the listing and the cache that result, as a run of the state machine |
| `Replicator.PlanCompaction` | environment/project/compactor.go:103-162 | What is compacted: all files of the listing behind the previous end; nothing if there are none; an error if they are not contiguous |
| `Replicator.SourceRange` | environment/project/compactor.go:127-138 | The range of the new file: from the first source file to the largest transaction |
| `Replicator.InputsContiguous` | environment/project/compactor.go:151-162 | The compactor accepts its inputs exactly if each touches the one before and reaches further |
| `Replicator.VerifyLevelConsistency` | environment/project/compactor.go:194-230 | Succeeds exactly if each file starts right behind the one before |
| `Replicator.CompactionReady` | environment/project/compactor.go:105-174 | What the cache says never exceeds the watermark, so a planned compaction leaves no gap; with an exact cache it is lossless |
| `Replicator.CompactedFollows` | environment/project/compactor.go:105-174 | A lossless compaction into a gapless level 1 leaves it gapless |
| `Replicator.Replica.Snapshot` | environment/project/db.go:2055-2070 | Stores one file over 1..pos and caches it if acknowledged; a run of the state machine |
| `Replicator.Replica.UploadLTXFile` | environment/project/replica.go:163-169 | Appends the next single transaction; without an acknowledgement the replica position is forgotten |
| `Replicator.Replica.Sync` | environment/project/replica.go:132-180 | Ends with everything uploaded, or with the position forgotten; whatever fails or is retried level 0 only grows at its end and never gets a gap |
| `Replicator.ScanMax` | environment/project/replica.go:218-234 | The file of a listing with the largest transaction, or none |
| `Replicator.Replica.Restart` | environment/project/replica.go:132-150 | After a restart nothing is remembered of the replica; still a run of the state machine |
| `Replicator.RetentionList` | environment/project/compactor.go:241-265 | All files of the listing that fail the test, in order, but never the last file |
| `Replicator.MinRetained` | environment/project/compactor.go:246-259 | The end of the oldest snapshot that is recent enough, 0 if none is |
| `Replicator.Replica.DeleteFiles` | environment/project/compactor.go:266-282 | Exactly the listed files disappear, except those whose deletion fails; a run of the state machine |
| `Replicator.Replica.EnforceSnapshotRetention` | environment/project/db.go:2073-2124 | Leaves exactly the last snapshot, those created at the moment or later, and those whose deletion fails, and succeeds exactly if none does; returns the end of the oldest of these, which no snapshot left behind ends before |
| `Replicator.Replica.EnforceRetentionByTXID` | environment/project/compactor.go:290-334 | For any transaction: leaves exactly the last file of the level, those that reach it, and those whose deletion fails, and succeeds exactly if none does; a run of the state machine if the transaction is not behind the newest snapshot, a lossless one if not behind the oldest; a gapless level stays gapless |
| `Replicator.Replica.EnforceSnapshotRetentionCascade` | environment/project/store.go:803-823 | Prunes the snapshots and then levels 1.. by the oldest retained snapshot, each as retention alone would, and succeeds unless a deletion fails; level 0 is left alone and level 1 stays gapless |
| `Replicator.Replica.DeleteCompactedL0` | environment/project/db.go:2163-2245 | Deletes exactly the leading level-0 files that are compacted into level 1 and old enough, never the last file, and succeeds unless a deletion fails; nothing behind them disappears in either case |
| `Replicator.Replica.EnforceL0RetentionByTime` | environment/project/db.go:2129-2245 | Level 0 loses exactly the leading files that are compacted and were created by the threshold, by their stored time, else by that of the local copy, so a gapless level stays gapless; it loses nothing without a retention time or a level 1; succeeds unless a deletion fails |
| `Replicator.Replica.Do` | environment/project/compactor.go:102-423 | Any one operation, with all its deletions carried out and no compaction response lost, keeps levels 0 and 1 contiguous and the cached maxima exact |
| `Replicator.Replica.Work` | environment/project/compactor.go:102-423 | So levels 0 and 1 are contiguous after any sequence of commits, syncs, compactions, snapshots, retention runs and restarts, from an empty replica |
| `Replicator.L0RetentionList` | environment/project/db.go:2173-2214 | The list is a prefix of the level without its last file: each file is compacted and old enough by its stored time, else by that of the local copy, and the next one is not |
| `Replicator.ExpiredIs` | environment/project/db.go:2180-2206 | A level-0 file has expired exactly if it is compacted and neither its stored time nor, without one, that of the local copy lies behind the threshold; with neither it has |
| `Replicator.ListMayBeDeleted` | environment/project/compactor.go:263-313 | Every file on a retention list of levels 1..9 may be deleted without hurting coverage or the cached maxima |
| `Replicator.L0ListMayBeDeleted` | environment/project/db.go:2167-2214 | So may every file on a level-0 list |
| `Replicator.MatchingIsPrefix` | environment/project/compactor.go:303-313 | In a gapless level the files that end before a transaction are a prefix |
| `Replicator.DeletesReach` | environment/project/compactor.go:266-282 | Deleting any subset of what may be deleted, in any order, is a run of the state machine |
| `Wal.WALChecksum` | environment/project/wal_reader.go:273-282 | The loop computes the recursive fold over pairs of 32-bit words modulo 2^32 |
| `Wal.ChecksumSplits` | environment/project/wal_reader.go:273-282 | A checksum may be interrupted at any multiple of eight bytes (section 4.2 of the SQLite Database File Format document) |
| `Wal.RunningSumsOfAll` | environment/project/wal_reader.go:162-176 | The frame-by-frame checksum is the checksum of all covered bytes at once |
| `WalIndex.IndexCommit` | environment/project/wal_reader.go:213-219 | Carrying the whole transaction map over at a commit gives the index up to it, although the map is never cleared |
| `WalIndex.CutIsPageMap` | environment/project/wal_reader.go:222-228 | Dropping the pages beyond the last commit size leaves the page map of the reader algorithm (section 4.4) |
| `WalIndex.EndOfPageMap` | environment/project/wal_reader.go:235-244 | The largest offset belongs to the last commit frame exactly if that frame writes a page inside the committed size |
| `WalReader.ReadHeader` | environment/project/wal_reader.go:88-131 | Tells incomplete or torn headers, invalid ones and valid ones apart |
| `WalReader.FramePresent` | environment/project/wal_reader.go:139-167 | A frame is present if header and page can be read and the salts match |
| `WalReader.FrameSums` | environment/project/wal_reader.go:169-173 | The two-part checksum of a frame is the checksum of both parts together |
| `WalReader.Reader.ReadFrame` | environment/project/wal_reader.go:135-187 | A frame is accepted exactly if it is complete, has the salts and, when asked for, continues the checksum; the position moves by one frame then |
| `WalReader.Reader.NextFrame` | environment/project/wal_reader.go:135-187 | Returns the chain of acceptable frames one by one |
| `WalReader.LogFramesAreValid` | environment/project/wal_reader.go:135-187 | The frames read from the header are exactly the valid prefix of section 4.1: salts of the header and the checksum over everything before |
| `WalReader.ChainSuffix` | environment/project/wal_reader.go:45-75 | Reading on behind the k-th frame with the checksum stored in it yields exactly what is left of the chain |
| `WalReader.OpenAt` | environment/project/wal_reader.go:45-75 | Opening at an offset succeeds exactly if the offset is the start of a later frame and the frame before is complete with the given salts; every other case gets its own error |
| `WalReader.FrameIndex` | environment/project/wal_reader.go:62-67 | An offset is accepted exactly if a frame starts there |
| `WalReader.Reader.ReadTransactions` | environment/project/wal_reader.go:192-220 | The map is the index of the last committed frames, the size that of the last commit, over every frame of the chain |
| `WalReader.Reader.PageMap` | environment/project/wal_reader.go:192-244 | For each page up to the committed size the offset of its last committed frame, never an uncommitted one; the end lies behind the start, and at the last commit if its frame writes an existing page |
| `WalReader.MaxOffset` | environment/project/wal_reader.go:235-241 | The largest offset of the map |
| `WalWriter.LogRoundTrip` | environment/project/wal_reader.go:88-187 | Header and frames laid out as section 4.1 says are read back exactly, also in front of bytes that are no frame of that log |
| `WalWriter.WholeLogRoundTrip` | environment/project/wal_reader.go:88-187 | A log that ends with its last frame is read back completely |
| `WalFormat.ChecksumIsWeighted` | environment/project/wal_reader.go:273-282 | The second sum is the sum of all 32-bit words with Fibonacci weights in reverse order modulo 2^32, the first the same without the last word; the sums started from count as two words in front (section 4.2) |
| `WalFormat.ChecksumFromZero` | environment/project/wal_reader.go:273-282 | The same for the checksum of the header, which starts from zero |
| `WalFormat.LittleEndianIs` | environment/project/wal_reader.go:273-282 | The words of a checksum in little-endian order, from their bytes |
| `WalFormat.BigEndianIs` | environment/project/wal_reader.go:273-282 | The words of headers, and of a checksum in big-endian order, from their bytes |
| `WalFormat.HeaderIs` | environment/project/wal_reader.go:88-131 | A header is accepted exactly if its bytes are one of the two magic numbers, the version, and a checksum in the order the magic number tells; and where its fields lie |
| `WalFormat.HeaderFails` | environment/project/wal_reader.go:88-131 | It reads as the end of the log exactly if it is too short or, behind a magic number, the checksum is wrong |
| `WalFormat.FrameIs` | environment/project/wal_reader.go:135-187 | Where frame i and its fields lie in the file, and which of its bytes are under the checksum |
| `WalFormat.ValidFrameIs` | environment/project/wal_reader.go:135-187 | A frame is valid exactly if it has the salts and holds the two weighted sums of all words so far |
| `WalIndex.LastCommitIs` | environment/project/wal_reader.go:213-219 | In front of the last commit lies a commit frame, behind it none |
| `LogPosition.PositionIs` | environment/project/db.go:1299-1445 | The decision of verification case by case, over the bytes of the log: when everything is taken anew, when the log is read on, when from its start, and when a third generation makes it a snapshot |
| `LogPosition.FrameSaltsUntil` | environment/project/wal_reader.go:246-271 | The salts of all frames up to the first that carries the given ones, that one included |
| `LogPosition.DetectFullCheckpoint` | environment/project/db.go:1486-1516 | Tells whether some frame before the first with the old salts carries salts that are neither old nor new |
| `LogPosition.LastPageMatch` | environment/project/db.go:1447-1484 | True exactly if the frame has the salts of the last file and its page, with these contents, is in that file |
| `CaptureTheory.PageOfIsInjective` | environment/project/wal_reader.go:142-156 | Pages are identified by the number their bytes spell, which loses nothing |
| `CaptureTheory.WritesAreLastWrites` | environment/project/wal_reader.go:192-220 | The frames between two commits hold the last writes of exactly the transactions in between |
| `CaptureTheory.ChunkIsFileContent` | environment/project/db.go:1594-1605 | The page map of the log from a commit on is the file over the transactions behind it |
| `CaptureTheory.SnapshotIsExact` | environment/project/db.go:1734-1779 | A snapshot that reads the log behind transaction m is exact if and only if the database file holds every page that no later transaction wrote |
| `CaptureTheory.CheckpointedBacks` | environment/project/db.go:1734-1779 | It does if a checkpoint has brought it to a transaction between m and the end of the log |
| `CaptureTheory.GroupsKeepState` | environment/project/db.go:1528-1717 | The database after captured file i is SQLite's at its cut, whether the file is an increment or a snapshot |
| `CaptureTheory.GroupsAreValid` | environment/project/db.go:1528-1717 | The captured files again form a history in which every page that growth adds is written |
| `CaptureTheory.GrownTxns` | environment/project/db.go:1299-1370 | A log that keeps its committed frames keeps its transactions as a prefix |
| `Capture.WriteLTXFromWAL` | environment/project/db.go:1781-1815 | Copies for every page of the map what its offset leads to |
| `Capture.WriteLTXFromDB` | environment/project/db.go:1734-1779 | Copies every page but the lock page, from the log before the database; fails exactly if a page is in neither |
| `Capture.OpenLog` | environment/project/db.go:1570-1592 | Reads from the header or from the saved offset, and from the header again if the frame before the offset is gone |
| `Capture.CaptureFrom` | environment/project/db.go:1594-1673 | The size of the captured stretch is never negative, and the outcome is nothing, a failed snapshot or exactly the file the frames stand for |
| `Capture.Database.Verify` | environment/project/db.go:1299-1445 | Where the next sync reads on, with which salts and whether a snapshot is due, over every branch; the flag of having reached the end of the log is used once |
| `Capture.Database.Sync` | environment/project/db.go:1528-1731 | One sync: its result, the new file, and the bookkeeping of the last synced offset |
| `Capture.Database.VerifyAndSync` | environment/project/db.go:1059-1091 | A sync works from what verification found; if that fails nothing is written |
| `CaptureRun.NextSync` | environment/project/db.go:1528-1717 | A sync of a grown log takes exactly the transactions committed since the last one, and nothing if there are none |
| `CaptureRun.FirstSync` | environment/project/db.go:1299-1306 | The first sync captures everything committed so far |
| `CaptureRun.Undisturbed` | environment/project/db.go:1299-1445 | As long as the log only grows, verification finds the last page in its place and reads on behind the last file |
| `CaptureRun.FilesAddUp` | environment/project/db.go:1528-1717 | Applying the captured files in order gives the database after the last transaction of the log |
| `CaptureRun.WholeLogIsCurrent` | environment/project/wal_reader.go:192-244 | One page map over the whole log, laid over the database it continues, gives the same |
| `CaptureRun.EachFrameOnce` | environment/project/db.go:1601-1605 | Every committed frame lies in the stretch of exactly one captured file |
| `CaptureRun.EndsAtCommit` | environment/project/db.go:1713-1717 | The captured stretch ends at the last commit |
| `LogRestart.AfterRestart` | environment/project/db.go:1330-1445 | After a restart the new log is read from its header, unless the file still ends with the last captured frame, or that frame was the first and nothing new is written |
| `LogRestart.SyncAfterRestart` | environment/project/db.go:1059-1091 | The first sync after a restart never fails; it takes up the new log completely, by an increment or a snapshot, except that it skips new transactions exactly if the log holds its frames back; what the files held stays exact in every case |
| `LogRestart.Monitor` | environment/project/db.go:1059-1091 | Any number of verified syncs over a log that grows, is started over, cut off or rewritten in place, in any order, keep the files caught up with it, but for the new transactions of a log that holds its frames back |
| `LogRestart.FilesStand` | environment/project/db.go:1059-1091 | After such a run the files add up to the database SQLite had after some transaction, and to the last one unless the log seen last holds its frames back |
| `LogExamples.RewritingSeen` | environment/project/db.go:1059-1091 | A run of that kind: a log grows, is rewritten in place behind its old frames, which are still there, and grows past them; it meets every condition, and its third sync holds a transaction back |
| `LogExamples.RewritingExists` | environment/project/db.go:1059-1091 | The bytes of its four logs |
| `LogRestart.AppliedIsExact` | environment/project/db.go:1570-1605 | The file over the transactions behind b, applied to the database after m, gives the database after k if and only if every page still there and not written behind b reads the same at m and at b |
| `LogRestart.IncrementIsExact` | environment/project/db.go:1570-1605 | An increment read from the header of a log keeps the files exact under just that condition; always, if the files reach as far as the database the log continues |
| `LogRestart.GoneFrameIsNoSnapshot` | environment/project/db.go:1578-1589 | If the previous frame is gone no snapshot follows but an increment over the log from its header |
| `LogExamples.LostWrite` | environment/project/db.go:1363-1368 | A log of the same length as the one before: the sync succeeds, and the write of an earlier transaction is in no file |
| `LogExamples.LostRunExists` | environment/project/db.go:1578-1589 | The bytes of that log, and the history of the database by SQLite's rules |
| `LogExamples.StaleSnapshot` | environment/project/db.go:1410-1417 | A log of two transactions and an older database file: the snapshot taken from the middle of the log holds a page as it was before both |
| `LogExamples.StaleRunExists` | environment/project/db.go:1410-1417 | The bytes of that log; the database file is a checkpoint of the transaction before it |
| `LogExamples.HeldTransaction` | environment/project/db.go:1363-1368 | A log rewritten in place: the sync finds nothing, although the log holds a transaction no file has |
| `LogExamples.HeldRunExists` | environment/project/db.go:1363-1368 | The bytes of that log |
| `LeaseMachine.MutualExclusion` | environment/project/s3/leaser.go:90-200 | In every reachable state at most one client has a lease that it has not released and whose expiry has not passed, with any clients, delays, losses and repeated messages |
| `LeaseMachine.ChangesHands` | environment/project/s3/leaser.go:90-136 | A run in which a client acquires the lease, and another one does once it has expired, with the next generation |
| `LeaseMachine.InvStep` | environment/project/s3/leaser.go:90-266 | The invariant behind it: unheard-of leases stay in place until they expire, held ones are in place or renewed by their holder, and every message in flight is harmless |
| `LeaseMachine.ArriveStep` | environment/project/s3/leaser.go:231-266 | The same for the arrival of a conditional write or deletion |
| `LeaseMachine.HolderCanRenew` | environment/project/s3/leaser.go:138-169 | The renewal of an unexpired holder is refused only if an earlier renewal of its own has arrived unanswered |
| `LeaseMachine.GoneForGood` | environment/project/s3/leaser.go:138-200 | A lease that was replaced or deleted never comes back |
| `Leaser.Leaser.PutObject` | environment/project/s3/leaser.go:231-266 | The fate of a conditional write: refused exactly if its condition fails on arrival; if answered the client holds the new lease |
| `Leaser.Leaser.AcquireLease` | environment/project/s3/leaser.go:90-136 | Refused at once, with the lease found, up to and including the moment of its expiry; else decided by a write conditional on what was read, of a lease with the next generation that ends one TTL from now; a run of the protocol |
| `Leaser.Leaser.RenewLease` | environment/project/s3/leaser.go:138-169 | Missing lease, missing etag, not held, renewed or unknown, each exactly when, for any lease; the generation stays; for a lease this client was given it is a run of the protocol |
| `Leaser.Leaser.ReleaseLease` | environment/project/s3/leaser.go:171-200 | Each outcome exactly when, for any lease: the client stops holding it, and once the request has arrived a lease ever written is not in place any more; for a lease this client was given it is a run of the protocol |
| `Leaser.AcquireSucceeds` | environment/project/s3/leaser.go:90-136 | Undisturbed, a lease is acquired exactly if there is none or it has expired |
| `Leaser.RenewSucceeds` | environment/project/s3/leaser.go:138-169 | With both messages delivered a renewal succeeds exactly if the lease it names is in place, expired or not |
| `Leaser.ObtainedIsExclusive` | environment/project/s3/leaser.go:90-169 | After a successful acquire or renewal no other client holds a lease, as long as it lasts |
| `ResumableReader.ResumableReader.Read` | environment/project/internal/resumable_reader.go:67-118 | At most four attempts, the first that is not to be retried decides; the bytes handed out so far are always those of the specification |
| `ResumableReader.ResumableReader.TryOnce` | environment/project/internal/resumable_reader.go:68-115 | One attempt: where it reads, how much, and whether the stream is kept |
| `ResumableReader.ReadingIs` | environment/project/internal/resumable_reader.go:67-118 | What a read yields: the first attempt that opens, and yields a byte or does not break off, decides, with as many bytes as were asked for, sent and left; with none the retries are used up |
| `ResumableReader.DocumentedIsExact` | environment/project/internal/resumable_reader.go:32-36 | Reopening at the current offset: over any reads the bytes handed out are the beginning of the file, and an end of file at a known size means all of it |
| `ResumableReader.ExactUnlessRewound` | environment/project/internal/resumable_reader.go:70-80 | Over any reads with the rewind: the bytes are the beginning of every file if and only if no byte was handed out by an attempt that found no open stream behind the start, or after such an attempt |
| `ResumableReader.RewindRepeats` | environment/project/internal/resumable_reader.go:70-80 | What is handed out instead: the byte before the reopening comes twice |
| `ResumableReader.EndMeansWholeUnlessRewound` | environment/project/internal/resumable_reader.go:91-107 | If reads end with an end of file at a known size, the whole file was handed out under exactly that condition |
| `ResumableReader.EndOfFileAtSize` | environment/project/internal/resumable_reader.go:91-107 | With a known size an end of file is reported only when that many bytes were handed out |
| `ResumableReader.BrokenOnce` | environment/project/internal/resumable_reader.go:67-118 | A concrete run that hands out 7, 7, 8 for the file 7, 8 |
| `VfsWriter.VFS.SafeIffAlone` | environment/project/vfs.go:147-168 | What a file has buffered is safe from everything the other files of the VFS may do if and only if no other open file has the same buffer file, or takes it when its writes are enabled |
| `VfsWriter.VFS.PerformOne` | environment/project/vfs.go:1366-2277 | Any step of a file touches only its own buffer file, or the one it opens; other files that are alone with theirs stay alone, and their buffers stay as they are |
| `VfsWriter.Spoil` | environment/project/vfs.go:1819-1834 | And otherwise ordinary steps of the other file destroy the dirty pages: enabling its writes, or a write and a sync |
| `VfsWriter.SharedBuffer` | environment/project/vfs.go:2098-2139 | A concrete run of two files whose writes are enabled later: the first uploads, as its page, what the second wrote |
| `VfsWriter.VFS.Open` | environment/project/vfs.go:140-203 | An opened file joins the VFS without a transaction, with a new or emptied buffer file at its own path if it is opened for writing; the one-writer invariant stays |
| `VfsWriter.Session` | environment/project/vfs.go:1366-2277 | From a new VFS on, after any sequence of opening files, locking, unlocking, writing, truncating, syncing, enabling, disabling and closing, at most one open file is in a write transaction; if all files are opened for writing each is alone with its buffer file |
| `VfsWriter.VFSFile.Lock` | environment/project/vfs.go:2182-2229 | Each refusal exactly when; a reserved lock starts a transaction and records the file as the writer; a file in a transaction that is to be disabled cannot raise its lock |
| `VfsWriter.VFSFile.Unlock` | environment/project/vfs.go:2231-2250 | Ends the transaction and gives up the writer's place, if it is this file's |
| `VfsWriter.VFSFile.Close` | environment/project/vfs.go:1366-1420 | Uploads what is dirty if that can be done, removes the path of the buffer, and does not stay the writer |
| `VfsWriter.VFSFile.DisableWrites` | environment/project/vfs.go:1715-1800 | Writes are disabled only with no transaction and no dirty page left, and what was dirty has been uploaded; otherwise they stay enabled; never while a transaction holds its lock, whatever others do |
| `VfsWriter.VFSFile.WaitForTransaction` | environment/project/vfs.go:1752-1778 | Waits while others lock, unlock, write and sync; gives up exactly on the first cancellation or timeout, or once the file is closed |
| `VfsWriter.VFSFile.EnableWrites` | environment/project/vfs.go:1803-1868 | Enabling keeps the transaction numbers, or takes up the reader's position the first time; without a buffer file it opens and empties the one at a path that all files enabled like this share |
| `VfsWriter.VFSFile.WriteAt` | environment/project/vfs.go:1542-1600 | Replaces exactly one page of the overlay by its patched contents, from buffer, replica or zeros; never the lock page |
| `VfsWriter.VFSFile.WriteToBuffer` | environment/project/vfs.go:2118-2139 | A dirty page keeps its slot, a new one gets the next; only that page of the overlay changes |
| `VfsWriter.VFSFile.ReadDirty` | environment/project/vfs.go:1430-1456 | Reads what was last written to a dirty page |
| `VfsWriter.VFSFile.Truncate` | environment/project/vfs.go:1632-1669 | Drops exactly the dirty pages beyond the new size |
| `VfsWriter.VFSFile.SyncToRemoteWithLock` | environment/project/vfs.go:1900-1967 | Uploads the overlay as the next transaction unless the replica lists a later one than expected; each failure leaves the overlay as it should, and no transaction number is used twice |
| `VfsWriter.VFSFile.CreateLTXFromDirty` | environment/project/vfs.go:2006-2086 | The uploaded pages are the overlay |
| `VfsWriter.VFS.Perform` | environment/project/vfs.go:1366-2277 | Steps of any files of the VFS, opening aside: a file blocked by its own disabling stays so until it unlocks, closes or the disabling gives up, and a file that is alone with its buffer keeps its dirty pages whatever the others do |
| `WriteBuffer.KeptIffOutOfReach` | environment/project/vfs.go:2098-2116 | A buffer file keeps its contents under everything that holders of some buffer files and openers of some paths may do, if and only if none of them holds it or opens its path |
| `WriteBuffer.BufferWrite` | environment/project/vfs.go:2118-2139 | Slots stay distinct and apart, and a write into one changes no other page |
| `WriteBuffer.BufferCut` | environment/project/vfs.go:1650-1656 | Forgetting offsets forgets just these pages |

## Left out

- Integer widths: transaction numbers, offsets and page numbers are unbounded; only the checksum wraps, modulo 2^32. Page counts near 2^32 and transaction numbers near 2^64 are not modelled.
- Page sizes that are not a multiple of eight: the original stops with a failed assertion there; the readers here require what SQLite guarantees.
- Frame buffers of the wrong size, and read errors other than a short read, in the log reader.
- Contents of listings: opening and reading a listing may fail, and follow mode may fail at any call, but a listing that is delivered is correct.
- The rewriting of bytes 18-19 and 24-27 of page 1, fsync, renames, file permissions and temporary files.
- Opening errors and a missing log file in `DB.verify`, and decoding errors of the last file; the size thresholds of `checkpointIfNeeded`, and checkpoints themselves.
- Restarts of the log that discard transactions no sync has seen: `LogRestart.IncrementIsExact` says when the next file is still right, but the run of `LogRestart.Monitor` excludes them.
- The order in which pages are written to an LTX file, and the file format itself; the LTX library is not part of this model.
- Snapshot reading runs concurrently with syncs in the original; here a snapshot is one step, of any past position.
- Contiguity above level 1: retention by transaction may drop level-1 files that were not compacted further, so it is not claimed. `Replicator.Replica.Compact` still refuses inputs with gaps.
- Exact cached maxima and gapless levels after a lost compaction response: the coverage that restores need survives that, and cached maxima stay below the true ones; exactness does not.
- Two processes that compact into one level at the same time: coverage is proved for them too, the bound on cached maxima is not.
- The compaction schedule of `Store.CompactDB`, and restoring the local level-0 file or detecting a database that is behind its replica.
- `Compactor.EnforceL0Retention`, which differs from the method of `DB` modelled here only in where it looks up file times.
- Restore options, the v0.3.x format, integrity checks and publishing the restored file.
- Messages of a lease that lack an etag, decode errors, and generations across a release, which start again at 1.
- A failed write to the VFS buffer file leaves the file as it was; torn writes of a page are not modelled.
- Reading through the VFS from cache, hydration file or replica, polling its index, and the tick of the periodic sync beyond the step it takes.
- The condition variable and mutexes of the VFS: each operation is one step, and waiting is a sequence of steps that others take.
- `VFSFile.Truncate` keeps what cache and replica say about pages that were cut off; a later partial write to such a page is patched into the old contents, as in the original.
- Storage back ends, command line, HTTP server, metrics, logging and configuration.
