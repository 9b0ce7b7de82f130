# A model of Clep's stores, sync protocol, filters and text algorithms

Clep keeps a vault of Markdown pages. This project models six parts of it in Dafny and proves what they
promise, on every input, every run or every interleaving.

- **Archived blobs.** `Cas` is the content-addressed store: blob rows, blob files, the release ledger and
  the mutation lock. `CasScan` is the vault-wide recount, `CasMigrate` the move of an old store into the
  vault, and `CasWorld` puts pages, rubbish items, captures, purges with crashes, garbage collection and
  rebuilds around the store and follows whole runs. The law it keeps: a row's count is the number of its
  holders (live pages, unreleased rubbish items, captures under way) plus the references that nobody will
  ever withdraw.
- **Git sync.** `SyncProtocol` interleaves full syncs, autocommits, the shutdown push, vault mutations and
  server startup over `sync_lock`, the mutation gate, the `syncing` flag and the watcher pause flag. The
  engine ends each call nondeterministically: finished, error, refusal or panic. `SyncLifecycle` follows the
  server's life over whole runs, from startup to shutdown.
- **Snapshots and Markdown.** `ImageLabels` matches every image label in one pass; `ImageRewrite` locates
  destinations, keeps a disjoint set and splices; `ImageShapes` says what their definitions mean for the images
  people write; `Entities` decodes HTML entities.
- **Previews.** `PreviewStore` is the bounded cache with its eviction loop, `PreviewAdmission` the
  concurrent admission of captures with its back-off.
- **Bases.** `BaseFilter` is the filter matcher, on the dates of `Calendar`, and `BaseMeaning` what it says of
  numbers, texts, lists and page fields; `BaseMember` is the partial evaluator and the three-valued analysis that
  decide filters before a page exists; `EmbedComplexity` is the worklist checks on an embed.
- **Regions and ISBNs.** `GeneratedRegion`, `RegionRoundTrip` and `RegionReplace` parse, write and replace
  generated Markdown regions, `RegionMeaning` says what is written and what is refused in terms of the text alone,
  and `RegionWitness` shows that the assumptions made for the replacement can hold together; `Isbn` normalises book
  numbers.

`Common` holds the option and result types and three facts about counting owners, `Escapes` the backslash rule
that both image modules read by.

Where the code and the natural reading of its promise part, the code is kept and the exact condition is proved:

- A rebuild keeps the accounting law if and only if no referenced file is missing and no capture under way has
  stored a blob (`CasWorld.RebuildKeepsTheLawExactly`), and each half has a run from the empty vault that loses a
  live page's blob (`MissingFilesLoseABlob`, `RebuildDuringACaptureLosesABlob`). It lowers a count if and only if
  it forgets more references than it gives back (`RebuildAgainstMaintained`).
- A store that cannot create its directory leaves a row without a file (`CasWorld.StoreKeepsBackingExactly`). So
  can a collection, if and only if it selects a row that can lose its file and not be deleted
  (`GcIsSafeExactly`). Storing the same bytes later then succeeds without writing them
  (`StoreWritesOnlyNewRows`).
- The walk behind the scan passes over unreadable directories without a warning, so a warning-free scan is the
  recount exactly when what it missed names no blob (`CasScan.ScanIsRecount`).
- A panic of the engine ends the window without a rebuild. A window keeps a matching index if and only if its
  engine did not panic after moving the tree (`SyncProtocol.WindowCoherence`, `PanicLeavesTheIndexBehind`).
- The comment on a deferred startup sweep (`crates/clep-api/src/lib.rs:670-673`) says that the window still running
  does the same sweep when it finishes. It does if and only if its engine returns an error or a changed tree
  (`SyncLifecycle.DeferredSweepRunsExactly`); otherwise no sweep runs at all (`DeferredSweepIsLost`).
- The gate does not imply `syncing`: an autocommit and the shutdown push hold it with the flag down. It does
  exactly for a full sync (`SyncProtocol.MutualExclusion`).
- `ne` is the complement of `eq` exactly when the comparison value is well typed or the page holds a
  non-empty array, and likewise for `not_contains` where the type supports it.
- Newlines are rewritten in one pass, so CR CR LF leaves a CR LF in a region's body; `RegionMeaning.BodyHoldsCrlfExactly`
  says exactly when one is left.
- Decoding does not know `&nbsp;`: the round trip with attribute escaping holds exactly for text without a
  no-break space.
- An ISBN-13 check digit does not catch every swap of two digits; `Isbn.SwapInIsbn13` says which get through.
- A preview row larger than the whole budget would not be recorded and would start no back-off
  (`PreviewAdmission.BackOffExactly`, `OversizedRowStartsNoBackOff`). At the code's own limits there is no such row
  (`PreviewStore.NothingIsTooLarge`).

Parameters stand for what the model does not look into: the digest, the clock, the outcome of a file write,
the Markdown parser's forest and image ranges, the TOML codec, the UUID parser, the resolution of a field
name, the serialised length of a preview, and what a sync engine or an index rebuild leaves behind.

## Model

| member | source | states |
|---|---|---|
| `Cas.BlobRelativePath` | crates/clep-archive/src/cas.rs:703-711 | a path exists exactly for `sha256:` and 64 lower-case hex digits, fans out by two digits, and spells the hash |
| `Cas.PathsAreInjective` | crates/clep-archive/src/cas.rs:703-711 | two hashes never share a blob path |
| `Cas.FirstError` | crates/clep-archive/src/cas.rs:1244-1293 | prevalidation is clean if and only if every hash has a valid row, a positive count and a file of the recorded size |
| `Cas.ReleaseTransaction` | crates/clep-archive/src/cas.rs:1315-1336 | the update loop succeeds exactly when every named row has a positive count, and then lowers each by one |
| `Cas.Prune` | crates/clep-archive/src/cas.rs:1546-1559 | file, then row, stopping at the first failure: the ways to end in terms of the faults (everything pruned, a file that cannot be removed, or one file gone whose row cannot be deleted), and everything pruned if and only if every selected row can be |
| `Cas.RebuildRows` | crates/clep-archive/src/cas.rs:1643-1662 | one row per file with the scanned count and type; which blobs are untyped and how many unreferenced |
| `Cas.ContentStore.Store` | crates/clep-archive/src/cas.rs:1342-1390 | deduplicates on the row, otherwise row and file appear together; a failed directory leaves the row, a failed write withdraws it and may leave part of the file; a busy lock changes nothing |
| `Cas.ContentStore.AdjustRef` | crates/clep-archive/src/cas.rs:1516-1536 | moves one count by one for a well-formed hash with a row, otherwise no effect |
| `Cas.ContentStore.OnPageDeleted` | crates/clep-archive/src/archive_hook.rs:88-118 | one decrement per distinct hash, carrying on past failures, which are exactly the reported ones |
| `Cas.ContentStore.ReleaseRubbishArchiveRefs` | crates/clep-archive/src/cas.rs:1295-1340 | all or nothing, at most once per item, and the reference-changed error is unreachable |
| `Cas.ContentStore.Gc` | crates/clep-archive/src/cas.rs:1538-1561 | removes only rows with no reference that were created before the cutoff, all of those and no other exactly when nothing blocks it, and otherwise stops in one of the ways the faults allow |
| `Cas.ContentStore.RebuildMetadata` | crates/clep-archive/src/cas.rs:1635-1710 | rows are recreated from files and scan and the ledger is cleared; a dry run reports the same and changes nothing |
| `Cas.ValidHashMeans` | crates/clep-archive/src/cas.rs:703-711 | `sha256:` and 64 digits out of `0123456789abcdef`, letter by letter |
| `Cas.StoreMeans` | crates/clep-archive/src/cas.rs:1342-1390 | each outcome of a store on its one row and file, field by field, every other row and file kept |
| `Cas.BumpMeans` | crates/clep-archive/src/cas.rs:1516-1536 | a count moves by the amount asked, its row otherwise and every other row stay |
| `Cas.PrevalidationMeans` | crates/clep-archive/src/cas.rs:1244-1293 | clean exactly for a well-formed hash with a row of non-negative size and positive count whose file has that size; each defect, taken in this order, has its own error |
| `Cas.ReleaseMeans` | crates/clep-archive/src/cas.rs:1295-1340 | released if and only if the item is not in the ledger and every hash passes; each named row loses one reference and nothing else changes |
| `Cas.RebuildMeans` | crates/clep-archive/src/cas.rs:1635-1662 | a row exactly where there is a file, with its size, the scanned count, the scanned type or `application/octet-stream` |
| `Cas.ReportMeans` | crates/clep-archive/src/cas.rs:1635-1710 | rows written, untyped, unreferenced and missing files, each in terms of files and scan |
| `CasWorld.CapturePreserves` | crates/clep-archive/src/cas.rs:1342-1390 | beginning and committing a capture keep the accounting law |
| `CasWorld.StorePreserves` | crates/clep-archive/src/cas.rs:1342-1390 | a store keeps the law in every case that keeps rows and files together: the row was there, the file was written, or its write failed and left nothing |
| `CasWorld.DeletionPreserves` | crates/clep-archive/src/archive_hook.rs:88-118 | deleting a page or dropping a capture, even half-way, keeps the law |
| `CasWorld.MovePreserves` | crates/clep-archive/src/archive_hook.rs:120-142 | trashing and restoring keep the law and never touch the store |
| `CasWorld.PurgeNeverFails` | crates/clep-archive/src/cas.rs:1244-1340 | in every state of the law a release is not refused: it succeeds, or was already completed |
| `CasWorld.ReleasePreserves` | crates/clep-archive/src/cas.rs:1295-1340 | a release keeps the law, first time or retried |
| `CasWorld.RemovalPreserves` | crates/clep-archive/src/archive_hook.rs:120-142 | removing the item after its release, or giving up in between, keeps the law |
| `CasWorld.GcKeepsNamed` | crates/clep-archive/src/cas.rs:1538-1561 | what garbage collection may take is named by no page, unreleased item or capture |
| `CasWorld.GcPreserves` | crates/clep-archive/src/cas.rs:1538-1561 | any partial collection keeps the law |
| `CasWorld.RebuildCountsAllButCaptures` | crates/clep-archive/src/cas.rs:1635-1710 | a rebuild at any moment counts all holders but the captures under way; it under-counts a blob exactly when one of those names it |
| `CasWorld.RebuildAgainstMaintained` | crates/clep-archive/src/cas.rs:1672-1701 | in every state of the law: recount = maintained count, less leaked references and captures under way, plus one per released item still present; it lowers the count if and only if it forgets more than it gives back |
| `CasWorld.RebuildKeepsTheLawExactly` | crates/clep-archive/src/cas.rs:1635-1710 | a warning-free rebuild keeps the law if and only if no referenced file is missing and no capture under way has stored a blob |
| `CasWorld.RebuildPreserves` | crates/clep-archive/src/cas.rs:1635-1710 | a rebuild step of a run keeps the law |
| `CasWorld.StepPreserves` | crates/clep-archive/src/cas.rs:1295-1390 | every kind of step keeps the law |
| `CasWorld.RunsKeepTheLaw` | crates/clep-archive/src/cas.rs:1295-1390 | over every run, rows are backed by files and counts equal holders plus leaked references |
| `CasWorld.NoNamedBlobIsLost` | crates/clep-archive/src/cas.rs:1538-1561 | after every run from the empty vault, each blob still named is on disk with its own content |
| `CasWorld.CleanRunsCountExactly` | crates/clep-archive/src/cas.rs:1295-1390 | in every run whose deletions complete, each row counts exactly its holders |
| `CasWorld.RetriedPurgeIsNoop` | crates/clep-archive/src/archive_hook.rs:70-86 | after a crash between release and removal a retry changes nothing in the store |
| `CasWorld.PurgeLowersByOne` | crates/clep-archive/src/cas.rs:1295-1340 | a first purge succeeds and lowers exactly the item's hashes by one; the next finds it completed |
| `CasWorld.PurgeAfterRebuild` | crates/clep-archive/src/cas.rs:1680-1693 | after a rebuild a released item's next purge lowers each of its hashes by exactly one, and the one after that by none |
| `CasWorld.MissingFilesLoseABlob` | crates/clep-archive/src/cas.rs:1664-1701 | a run from the empty vault, with one rebuild over a missing file, that ends with a live page whose blob is gone |
| `CasWorld.RebuildDuringACaptureLosesABlob` | crates/clep-archive/src/cas.rs:1635-1710 | a run from the empty vault, with one rebuild between a capture's store and its page and no file missing, that ends with a live page whose blob is gone |
| `CasWorld.StoreKeepsBackingExactly` | crates/clep-archive/src/cas.rs:1361-1390 | a store keeps every row backed by its file if and only if the row existed, the file was written, or the write failed leaving nothing |
| `CasWorld.GcKeepsBackingExactly` | crates/clep-archive/src/cas.rs:1551-1559 | an ended collection kept rows and files together if and only if it did not stop between a file and its row |
| `CasWorld.GcIsSafeExactly` | crates/clep-archive/src/cas.rs:1538-1561 | every way a collection can end keeps them together if and only if no selected row has a removable file and cannot be deleted |
| `CasWorld.StoreWritesOnlyNewRows` | crates/clep-archive/src/cas.rs:1357-1390 | a successful store leaves its bytes on disk if and only if there was no row or the file was there |
| `CasWorld.StoreAfterInterruptedGc` | crates/clep-archive/src/cas.rs:1361-1373 | after an interrupted collection a successful store leaves its bytes on disk if and only if the collection did not stop at that row |
| `CasWorld.StoreAfterNoDirectory` | crates/clep-archive/src/cas.rs:1374-1378 | after a failed directory a later store of the same bytes leaves them nowhere |
| `CasWorld.StepSparesYoungRows` | crates/clep-archive/src/cas.rs:1538-1561 | no step takes a row created at or after a collection's cutoff, nor its file |
| `CasWorld.YoungRowsSurviveRuns` | crates/clep-archive/src/cas.rs:1538-1561 | over every run, a row created at `t` or later outlives all collections whose cutoff is no later than `t` |
| `CasScan.CapturedArchiveHashes` | crates/clep-archive/src/archive_hook.rs:20-45 | the result is exactly the hashes the page names, each once |
| `CasScan.CapturedBlobTypes` | crates/clep-archive/src/archive_hook.rs:49-66 | each hash gets the last type the page declares for it, untyped entries giving none |
| `CasScan.CountRefs` | crates/clep-archive/src/cas_scan.rs:118-150 | each named hash gains one reference and no other changes |
| `CasScan.ScanPageContent` | crates/clep-archive/src/cas_scan.rs:118-150 | adding one page keeps counts, first-writer types and warnings equal to their definitions over the list of pages |
| `CasScan.ScanArchiveRefs` | crates/clep-archive/src/cas_scan.rs:25-35 | the scan's counts, types and warnings are those of all live pages and rubbish items |
| `CasScan.MentionsCountOwners` | crates/clep-archive/src/cas_scan.rs:37-116 | mentions over a list of files is the number of distinct owners naming the hash |
| `CasScan.ScanCount` | crates/clep-archive/src/cas_scan.rs:37-116 | the scan counts every owner but those the walk missed |
| `CasScan.ScanIsRecount` | crates/clep-archive/src/cas_scan.rs:25-116 | a warning-free scan is the recount the accounting law is compared with if and only if the files the walk missed name no blob |
| `CasScan.CaptureNames` | crates/clep-api/src/api/archive.rs:899-955 | the page a capture writes names its snapshot, its resources and nothing else |
| `CasScan.LegacyNames` | crates/clep-archive/src/archive_hook.rs:20-45 | a page with bare strings names those |
| `CasScan.CaptureTypes` | crates/clep-archive/src/cas_scan.rs:118-150 | the scan types a capture's resource as its last entry does, and a snapshot that is no resource as `text/html` |
| `CasMigrate.MigrateOne` | crates/clep-archive/src/cas_migrate.rs:90-144 | one hash goes to the list its fate names, and only a copy adds a file and bytes |
| `CasMigrate.Migrate` | crates/clep-archive/src/cas_migrate.rs:65-160 | every referenced hash is listed once by its fate, the destination gains exactly the copies, each matching its hash, the bytes copied are their total size, and the orphans are the unreferenced files |
| `CasMigrate.FillTypes` | crates/clep-archive/src/cas_migrate.rs:181-214 | gaps in the types of referenced hashes are filled from the old store, nothing else changes, and the count is the number filled |
| `CasMigrate.ExactlyOneList` | crates/clep-archive/src/cas_migrate.rs:65-160 | a well-formed hash is in exactly one of the five lists |
| `CasMigrate.DryRunPredictsWriteRun` | crates/clep-archive/src/cas_migrate.rs:65-160 | a dry run writes nothing and agrees with a write run except that failed writes move from copied to failed |
| `CasMigrate.RebuildMissesExactlyTheUncopied` | crates/clep-archive/src/cas_migrate.rs:154-158 | the rebuild's missing files are exactly missing, corrupt, failed and malformed together |
| `CasMigrate.ReportMeans` | crates/clep-archive/src/cas_migrate.rs:90-144 | each of the six lists in terms of the hash, the old file, its digest and the destination |
| `SyncProtocol.TaskStepKeepsInv` | crates/clep-api/src/sync_runtime.rs:156-258 | every step of every sync task keeps the invariant: holdings match program counters, flags match their owner, index follows tree |
| `SyncProtocol.ServerStepKeepsInv` | crates/clep-api/src/lib.rs:763-833 | startup, spawning and shutdown steps keep it |
| `SyncProtocol.MutationStepKeepsInv` | crates/clep-mutate/src/mutation_coordinator.rs:889-894 | mutation steps under the gate keep it, whatever paths they write and whether or not they index them |
| `SyncProtocol.QuietInWindow` | crates/clep-api/src/sync_runtime.rs:168-215 | while a task holds the gate no mutation is in progress |
| `SyncProtocol.RunKeepsInv` | crates/clep-api/src/sync_runtime.rs:156-258 | the invariant holds after every run of interleaved steps |
| `SyncProtocol.MutualExclusion` | crates/clep-api/src/sync_runtime.rs:156-258 | a paused watcher means a full sync holds the gate, has raised `syncing` and owns the lock; a task holding the gate owns the lock, admits no mutation and has raised `syncing` if and only if it is a full sync; at most one engine call of a window runs until an abort orphans one |
| `SyncProtocol.EveryExitLowersTheFlags` | crates/clep-api/src/sync_runtime.rs:44-57 | once no full sync is inside its window both flags are down, however the windows ended |
| `SyncProtocol.IndexMatchesTree` | crates/clep-api/src/sync_runtime.rs:168-215 | with the gate free and no mutation in flight, index equals tree unless something left it stale since the last rebuild |
| `SyncProtocol.BenignRunsKeepTheIndex` | crates/clep-api/src/sync_runtime.rs:168-215 | the same for every run without a panic that moved the tree, a failed rebuild or an unindexed write |
| `SyncProtocol.WindowCoherence` | crates/clep-api/src/sync_runtime.rs:174-212 | from equal index and tree, a window whose rebuilds succeed leaves them equal if and only if its engine did not panic after moving the tree |
| `SyncProtocol.SweepIsAlone` | crates/clep-api/src/lib.rs:664-677 | during the startup sweep the lock and gate are free, both flags down, every task done, and no mutation or engine call under way |
| `SyncProtocol.ReconcileNeverOverlapsAWindow` | crates/clep-api/src/lib.rs:763-796 | all of that in every run that reaches the sweep |
| `SyncProtocol.TasksOnlyAdvance` | crates/clep-api/src/sync_runtime.rs:168-215 | a step moves its own task strictly forward and leaves every other task alone |
| `SyncProtocol.WindowsAlwaysClose` | crates/clep-api/src/sync_runtime.rs:156-258 | a task of any kind that is past the gate, or finds lock and gate free, reaches its end by its own steps alone, moving no other task |
| `SyncProtocol.PanicLeavesTheIndexBehind` | crates/clep-api/src/sync_runtime.rs:180-215 | from every initial state, a startup sync that panics after moving the tree ends with the gate free and index and tree different |
| `SyncLifecycle.StartupEndsOnce` | crates/clep-api/src/lib.rs:763-796 | a run that leaves the server serving, draining or stopped ends the startup exactly once, any other run never |
| `SyncLifecycle.ServingMeansSweptOrTimedOut` | crates/clep-api/src/lib.rs:763-796 | every run that reaches serving, draining or stopped holds the end of the startup sweep or the end of the startup budget |
| `SyncLifecycle.StartupEndsAreApart` | crates/clep-api/src/lib.rs:664-677 | only one of the two happens, and no sweep after it |
| `SyncLifecycle.CompletedStartupSweeps` | crates/clep-api/src/lib.rs:674-676 | from every reachable state whose startup sync is over in time, the server goes on to the sweep and through it to serving |
| `SyncLifecycle.SkippedStartupSweeps` | crates/clep-api/src/lib.rs:764-764 | a vault without sync sweeps at once |
| `SyncLifecycle.RebuildsExactly` | crates/clep-api/src/sync_runtime.rs:174-202 | after its engine a window rebuilds for an error and a changed tree, and skips it for no change, a refusal and a panic |
| `SyncLifecycle.DeferredSweepRunsExactly` | crates/clep-api/src/lib.rs:668-673 | over every run, a startup window that came to its end has swept if and only if its engine returned an error or a changed tree |
| `SyncLifecycle.DeferredSweepIsLost` | crates/clep-api/src/lib.rs:791-796 | from every initial state, a startup that times out on a window without a change serves and never sweeps |
| `SyncLifecycle.NoDeadlock` | crates/clep-api/src/sync_runtime.rs:156-258 | from every reachable state all mutations, tasks and engine calls can be run to their ends by their own steps, leaving lock and gate free and both flags down |
| `SyncLifecycle.ServingIsOrderly` | crates/clep-api/src/lib.rs:810-833 | until the server drains there is no shutdown push, and an engine call runs only for the lock's owner, inside its window |
| `SyncLifecycle.MutationMeans` | crates/clep-mutate/src/mutation_coordinator.rs:889-894 | a write sets one file, indexing copies that file's state, no other path changes, and none the mutation did not announce |
| `SyncLifecycle.SpawnsExactly` | crates/clep-api/src/lib.rs:810-834 | syncs and autocommits begin exactly while serving, the shutdown push exactly while draining |
| `SyncLifecycle.WriteAndIndex` | crates/clep-mutate/src/mutation_coordinator.rs:889-894 | a mutation that indexes what it wrote changes one file, in tree and index alike, and leaves nothing behind |
| `SyncLifecycle.ShutdownRuns` | crates/clep-api/src/lib.rs:817-834 | a serving server can drain, spawn its last push and stop |
| `ImageLabels.LabelEndIsUnique` | crates/clep-archive/src/archive_snapshot.rs:941-990 | the simple definition of a label end determines it |
| `ImageLabels.OpenBracket` | crates/clep-archive/src/archive_snapshot.rs:960-970 | an unescaped `[` opens the candidate that starts there, if any, and keeps the matcher's invariant |
| `ImageLabels.CloseBracket` | crates/clep-archive/src/archive_snapshot.rs:975-988 | an unescaped `]` closes exactly the candidate whose brackets balance there |
| `ImageLabels.FindImageLabelEnds` | crates/clep-archive/src/archive_snapshot.rs:941-990 | every candidate gets its first balancing unescaped `]` if inside its range, and nothing otherwise; ranges untouched |
| `ImageRewrite.ScanAngle` | crates/clep-archive/src/archive_snapshot.rs:1005-1020 | finds the first unescaped `>`, or shows there is none |
| `ImageRewrite.ScanBare` | crates/clep-archive/src/archive_snapshot.rs:1023-1048 | finds where a bare destination stops, counting nested parentheses and escapes, or shows it never does |
| `ImageRewrite.ScanTitle` | crates/clep-archive/src/archive_snapshot.rs:1062-1092 | finds the end of a title under its own delimiter, nested for parentheses |
| `ImageRewrite.ValidImageSuffix` | crates/clep-archive/src/archive_snapshot.rs:1052-1099 | accepts exactly: optional title, white space, and `)` as the last byte |
| `ImageRewrite.ImageDestinationAfterLabel` | crates/clep-archive/src/archive_snapshot.rs:993-1050 | returns the destination if and only if one exists with a valid suffix |
| `ImageRewrite.Retain` | crates/clep-archive/src/archive_snapshot.rs:886-893 | kept ranges are in order, in bounds and disjoint, and each dropped one overlaps the last kept before it |
| `ImageRewrite.SpliceableMeansDisjoint` | crates/clep-archive/src/archive_snapshot.rs:886-893 | what the splicer accepts is pairwise disjoint, increasing and in bounds |
| `ImageRewrite.SpliceIsInvertible` | crates/clep-archive/src/archive_snapshot.rs:898-907 | putting the original texts back at the shifted ranges restores the document byte for byte |
| `ImageRewrite.Splice` | crates/clep-archive/src/archive_snapshot.rs:898-907 | the output loop computes the splice, and the splice can be undone |
| `ImageRewrite.SortByDestination` | crates/clep-archive/src/archive_snapshot.rs:885-885 | sorted by range, and the same replacements |
| `ImageRewrite.EditFor` | crates/clep-archive/src/archive_snapshot.rs:874-883 | the one replacement a labelled candidate has, or none |
| `ImageRewrite.CollectEdits` | crates/clep-archive/src/archive_snapshot.rs:872-884 | the replacements are exactly those of the candidates, each as often as it occurs |
| `ImageRewrite.RewriteMarkdownImages` | crates/clep-archive/src/archive_snapshot.rs:866-908 | the whole rewrite: labels by definition, kept destinations increasing and disjoint, dropped ones justified, every other byte kept |
| `ImageShapes.EscapedMeans` | crates/clep-archive/src/archive_snapshot.rs:941-1099 | a byte is escaped exactly when an odd number of backslashes stands before it |
| `ImageShapes.LabelEnds` | crates/clep-archive/src/archive_snapshot.rs:941-990 | the label of `![alt]` ends at its `]` |
| `ImageShapes.BareDestination` | crates/clep-archive/src/archive_snapshot.rs:993-1050 | the destination of `(url)` is `url` |
| `ImageShapes.AngleDestination` | crates/clep-archive/src/archive_snapshot.rs:993-1050 | the destination of `(<url>)` is `url`, spaces and parentheses included |
| `ImageShapes.TitledDestination` | crates/clep-archive/src/archive_snapshot.rs:1052-1099 | the destination of `(url "title")` is `url`, for each white space byte and each pair of title delimiters |
| `ImageShapes.ImageIsRewritten` | crates/clep-archive/src/archive_snapshot.rs:866-908 | `![alt](url)` becomes `![alt](cas:hash)` |
| `Entities.DecodeHtmlEntities` | crates/clep-archive/src/archive_snapshot.rs:768-790 | jumping from `&` to `&` gives the character-by-character decoding |
| `Entities.DecodeEscape` | crates/clep-archive/src/archive_snapshot.rs:768-839 | decoding an escaped text gives the text with no-break spaces spelt out |
| `Entities.RoundTrip` | crates/clep-archive/src/archive_snapshot.rs:768-839 | the round trip holds if and only if the text has no no-break space |
| `Entities.EscapedIsSafe` | crates/clep-archive/src/archive_snapshot.rs:755-767 | the escaping the round trip is measured against leaves no double quote and, in its later revision, no angle bracket |
| `Entities.OneLayerAtATime` | crates/clep-archive/src/archive_snapshot.rs:768-790 | output is never read again: a twice-escaped text loses one layer |
| `Entities.NumericReference` | crates/clep-archive/src/archive_snapshot.rs:807-839 | any reference, with `x` or `X`, digits of either case, leading zeros and with or without `;`, decodes to the scalar value it spells, and to nothing if it spells none |
| `Entities.EveryScalarHasAReference` | crates/clep-archive/src/archive_snapshot.rs:807-839 | every scalar value written out in either base decodes to itself |
| `Entities.NamedEntities` | crates/clep-archive/src/archive_snapshot.rs:792-806 | the five names, each with its character |
| `Entities.OtherAmpersandsStay` | crates/clep-archive/src/archive_snapshot.rs:768-790 | an `&` that starts no entity is kept |
| `Entities.DigitsMean` | crates/clep-archive/src/archive_snapshot.rs:807-839 | the digits of either case stand for their places in `0123456789abcdef` |
| `Entities.OnlyThoseAreDigits` | crates/clep-archive/src/archive_snapshot.rs:807-839 | and nothing else is a digit in either base |
| `Entities.ScalarsAreTheChars` | crates/clep-archive/src/archive_snapshot.rs:807-839 | a number names a character exactly when there is a character with that code |
| `Entities.NumeralsMean` | crates/clep-archive/src/archive_snapshot.rs:807-839 | each digit adds itself to ten or sixteen times what stands before it |
| `PreviewStore.FindOldest` | crates/clep-api/src/external_previews.rs:183-186 | the row evicted next is the least by attempt, then key |
| `PreviewStore.Evict` | crates/clep-api/src/external_previews.rs:174-187 | the loop ends having evicted the shortest prefix that makes room |
| `PreviewStore.EvictionIsUnique` | crates/clep-api/src/external_previews.rs:174-187 | there is only one such outcome |
| `PreviewStore.SaveRows` | crates/clep-api/src/external_previews.rs:124-195 | refreshed, too large or inserted, with the table each leaves |
| `PreviewStore.Store.Save` | crates/clep-api/src/external_previews.rs:124-195 | the same as an update of the store object |
| `PreviewStore.SaveStaysBounded` | crates/clep-api/src/external_previews.rs:124-195 | both bounds are kept, and an insertion establishes them |
| `PreviewStore.SaveLosesNothingElse` | crates/clep-api/src/external_previews.rs:138-145 | a failed refresh keeps the stored capture; surviving rows are unchanged |
| `PreviewStore.NothingIsTooLarge` | crates/clep-api/src/external_previews.rs:169-173 | at the code's limits on URL, title, description and image no row exceeds the byte budget |
| `PreviewStore.SaveMeans` | crates/clep-api/src/external_previews.rs:124-195 | what a save leaves under its key: title, description, address, image and size of the capture, the old capture with a new attempt, or the negative answer |
| `PreviewStore.ScreenshotMeans` | crates/clep-api/src/external_previews.rs:146-151 | an image is kept exactly if it is at most 8 MiB and starts with the bytes of a JPEG |
| `PreviewStore.EvictionOrder` | crates/clep-api/src/external_previews.rs:183-186 | what is evicted was attempted before what survives, or at the same time with a smaller key |
| `PreviewStore.CacheStaysSmall` | crates/clep-api/src/external_previews.rs:16-20 | a cache of at most 1000 rows and 129499136 bytes stays one |
| `PreviewAdmission.ShouldCaptureMeans` | crates/clep-api/src/external_previews.rs:351-363 | a cached row calls for a capture exactly from one instant on |
| `PreviewAdmission.AdmitsExactly` | crates/clep-api/src/external_previews.rs:328-391 | a request is admitted if and only if no error cooldown runs, the cache answers, the key is idle with fewer than two running, and there is no row, or five minutes have passed since the attempt and the row has no capture, one with an image seven days old, or one without an image five minutes old |
| `PreviewAdmission.StepKeepsInv` | crates/clep-api/src/external_previews.rs:328-410 | every request and completion keeps jobs, running keys and floors in step |
| `PreviewAdmission.RunKeepsInv` | crates/clep-api/src/external_previews.rs:328-410 | so does every run, from whatever table an earlier process left |
| `PreviewAdmission.AtMostTwoCaptures` | crates/clep-api/src/external_previews.rs:364-391 | at most two captures outstanding, at most one per key |
| `PreviewAdmission.FloorNeverDrops` | crates/clep-api/src/external_previews.rs:328-410 | while a key stays cached the earliest next capture never moves back |
| `PreviewAdmission.CapturesAreSpaced` | crates/clep-api/src/external_previews.rs:328-410 | no capture within five minutes of a recorded attempt, nor within seven days of a stored image, over any run that keeps the row |
| `PreviewAdmission.BackOffExactly` | crates/clep-api/src/external_previews.rs:351-391 | within five minutes of an attempt, with the cache answering and the old row due, a request is admitted if and only if the save worked and recorded nothing |
| `PreviewAdmission.OversizedRowStartsNoBackOff` | crates/clep-api/src/external_previews.rs:169-173 | a row too large for a smaller budget is dropped in silence and the next request captures at once |
| `PreviewAdmission.EverySaveRecords` | crates/clep-api/src/external_previews.rs:169-195 | at the code's limits every successful save records its attempt |
| `PreviewAdmission.CapturesAreSpacedAtTheLimits` | crates/clep-api/src/external_previews.rs:328-410 | so the spacing holds after every successful save |
| `PreviewAdmission.FailedSaveCoolsEveryKey` | crates/clep-api/src/external_previews.rs:381-388 | after a failed save no capture of any key is admitted for five minutes, over every run |
| `BaseFilter.ScalarNegation` | crates/clep-bases/src/base.rs:1123-1201 | on one scalar the negations are complements exactly when the value is well typed (and the type supports it) |
| `BaseFilter.NeComplementsEq` | crates/clep-bases/src/base.rs:1001-1077 | `ne` complements `eq` if and only if the value is well typed or the page holds a non-empty array |
| `BaseFilter.NotContainsComplementsContains` | crates/clep-bases/src/base.rs:1001-1077 | the same for `not_contains`, if and only if the type also supports it |
| `BaseFilter.FoldInMeans` | crates/clep-bases/src/base.rs:1123-1201 | the early-exit fold of `in` is: nothing if any member is ill typed, else whether some member is equal |
| `BaseFilter.InIsDisjunctionOfEq` | crates/clep-bases/src/base.rs:1001-1201 | `in` holds if and only if all members are well typed and `eq` holds for one, for every page value |
| `BaseFilter.MembershipNegation` | crates/clep-bases/src/base.rs:961-999 | `ne` complements `eq` for tags and aliases exactly for string values, and `contains` is `eq` there |
| `BaseFilter.MembershipInIsDisjunctionOfEq` | crates/clep-bases/src/base.rs:961-982 | and `in` is: all members strings, and `eq` for one |
| `BaseFilter.RelativeDatesMean` | crates/clep-bases/src/base.rs:281-306 | each relative-date operator on every pair of valid dates: same day, same Monday-based week, same calendar month, the seven days before and the seven after |
| `BaseFilter.RelativeDateMatches` | crates/clep-bases/src/base.rs:1123-1201 | the matcher on a page value that starts with a valid date: a relative-date operator matches if and only if the type has dates and the date is where the operator says |
| `BaseMeaning.CompareTextMeans` | crates/clep-bases/src/base.rs:1208-1215 | text order is lexicographic: a proper prefix, or the first character that differs is smaller |
| `BaseMeaning.ExpectedMeans` | crates/clep-bases/src/base.rs:1101-1121 | the comparison value of each type: a number, a boolean or a text; nulls, lists and tables never |
| `BaseMeaning.WrongFormMatches` | crates/clep-bases/src/base.rs:1082-1099 | a page value of another form than its type asks for is unequal to everything well typed and matches nothing else |
| `BaseMeaning.IllTypedNeverMatches` | crates/clep-bases/src/base.rs:1123-1201 | against an ill-typed comparison value no operator that reads it matches |
| `BaseMeaning.NumbersCompare` | crates/clep-bases/src/base.rs:1182-1215 | on numbers each of the six comparisons matches exactly when the reals stand in that relation |
| `BaseMeaning.SpecialNumbersCompare` | crates/clep-bases/src/base.rs:1182-1215 | NaN is only unequal; the infinities are beyond every number |
| `BaseMeaning.BooleansCompare` | crates/clep-bases/src/base.rs:1182-1215 | false comes before true |
| `BaseMeaning.TextsCompare` | crates/clep-bases/src/base.rs:1182-1215 | on text, and on dates as text, each of the six comparisons is lexicographic |
| `BaseMeaning.AffixesMatch` | crates/clep-bases/src/base.rs:1233-1249 | `starts_with` and `ends_with` match exactly when a text or address splits as e + x or x + e up to the case of ASCII letters, and no other type |
| `BaseMeaning.ContainsMatches` | crates/clep-bases/src/base.rs:1159-1176 | `contains` matches a choice or link that is equal, and any other text that splits as x + e + y up to case; `not_contains` the rest |
| `BaseMeaning.NumbersHaveNoParts` | crates/clep-bases/src/base.rs:1142-1144 | on numbers and booleans neither matches |
| `BaseMeaning.EmptinessMatches` | crates/clep-bases/src/base.rs:1009-1014 | `is_empty` matches exactly a missing value, an empty text or an empty list |
| `BaseMeaning.MissingMatches` | crates/clep-bases/src/base.rs:1035-1038 | a missing value is unequal to everything well typed and matches nothing else |
| `BaseMeaning.OneValueMatches` | crates/clep-bases/src/base.rs:1053-1077 | one value is compared as it is |
| `BaseMeaning.ListMatches` | crates/clep-bases/src/base.rs:1039-1052 | a list is compared by its items |
| `BaseMeaning.ItemsMean` | crates/clep-bases/src/base.rs:1039-1052 | it matches if one item does |
| `BaseMeaning.ItemsNegationMeans` | crates/clep-bases/src/base.rs:1039-1052 | a negation matches if no item matches the positive form |
| `BaseMeaning.LinksToMatches` | crates/clep-bases/src/base.rs:1015-1029 | `links_to` matches a relation, a text, and a known link with that id or canonical name |
| `BaseMeaning.LabelsMatch` | crates/clep-bases/src/base.rs:1001-1052 | on a multi-select, `eq` and `contains` are membership in its labels, `ne` and `not_contains` its complement |
| `BaseMeaning.DateMatches` | crates/clep-bases/src/base.rs:1130-1141 | a relative-date operator on a text that starts with a date: same day, month, Monday-based week, the seven days before or after, and only for dates |
| `BaseMeaning.NoDateNeverMatches` | crates/clep-bases/src/base.rs:308-313 | a text too short for a date, or that is none, never matches one |
| `BaseMeaning.OwnFieldsMatch` | crates/clep-bases/src/base.rs:918-934 | id, path and kind compare as the page's own |
| `BaseMeaning.TextFieldsMatch` | crates/clep-bases/src/base.rs:926-939 | and so do title and project |
| `BaseMeaning.DateFieldsMatch` | crates/clep-bases/src/base.rs:940-951 | and the two timestamps and the journal date |
| `BaseMeaning.TextFieldIsProperty` | crates/clep-bases/src/base.rs:900-916 | under every other operator a text field matches as a text property of that value would |
| `BaseMeaning.JournalDateIsProperty` | crates/clep-bases/src/base.rs:900-916 | the journal date matches under every operator as a date property of that value would |
| `BaseMeaning.EncryptionMatches` | crates/clep-bases/src/base.rs:948-948 | encryption compares as a boolean |
| `BaseMeaning.WordCountMatches` | crates/clep-bases/src/base.rs:952-954 | the word count compares as a number |
| `BaseMeaning.FieldsAreEmpty` | crates/clep-bases/src/base.rs:912-959 | which fields can be empty, and when |
| `BaseMeaning.ListFieldsMatch` | crates/clep-bases/src/base.rs:961-999 | tags compare as they are, aliases by canonical name |
| `BaseMeaning.FieldsHaveDates` | crates/clep-bases/src/base.rs:900-910 | timestamps and the journal date have dates under the relative operators |
| `BaseMeaning.OtherFieldsHaveNoDates` | crates/clep-bases/src/base.rs:900-910 | and no other field has |
| `BaseMeaning.FieldsHaveNoLinks` | crates/clep-bases/src/base.rs:1180-1181 | no field of a page is a relation |
| `BaseMeaning.PropertiesAreLookedUp` | crates/clep-bases/src/base.rs:886-897 | a property is looked up under its own key among properties and links |
| `BaseMeaning.UnknownFieldsNeverMatch` | crates/clep-bases/src/base.rs:859-871 | a name that resolves to nothing matches nothing |
| `Calendar.DayNumbersAreOrdered` | crates/clep-bases/src/base.rs:281-306 | day numbers follow the calendar over leap years and month lengths |
| `Calendar.MonthWindowMeans` | crates/clep-bases/src/base.rs:295-303 | the window from the first of this month to the first of the next holds exactly this month's dates |
| `Calendar.NextDayIsOneMore` | crates/clep-bases/src/base.rs:281-306 | the date after a date is a date with the next number, over month and year ends |
| `Calendar.EveryDayHasADate` | crates/clep-bases/src/base.rs:281-306 | the dates from 1 January of year 1 on are numbered without a gap |
| `Calendar.DatesMean` | crates/clep-bases/src/base.rs:281-306 | which dates there are: the lengths of the months, and 29 February in leap years |
| `Calendar.WeekdaysGoRound` | crates/clep-bases/src/base.rs:286-289 | weekdays go round in seven, and 1 January 2024 was a Monday |
| `Calendar.WeekMeans` | crates/clep-bases/src/base.rs:286-289 | two days share a week exactly when some Monday and the six days after it hold both |
| `BaseMember.PartialEvaluationIsSound` | crates/clep-bases/src/base.rs:793-857 | a committed verdict is the full matcher's on every new page with an empty body |
| `BaseMember.VerdictHoldsForAnyBody` | crates/clep-bases/src/base_member.rs:542-567 | it also holds with any body unless the comparison reads the word count |
| `BaseMember.FoldAllMeans` | crates/clep-bases/src/base_member.rs:70-76 | the conjunction is certain exactly when all parts are, impossible exactly when one is |
| `BaseMember.FoldAnyMeans` | crates/clep-bases/src/base_member.rs:78-84 | the dual for the disjunction |
| `BaseMember.ComparisonIsSound` | crates/clep-bases/src/base_member.rs:542-567 | the three-valued verdict on a comparison agrees with the matcher on every creatable page |
| `BaseMember.PossibilityIsSound` | crates/clep-bases/src/base_member.rs:521-540 | and so over the whole filter tree |
| `BaseMember.DisabledMeansImpossible` | crates/clep-bases/src/base_member.rs:199-234 | creation is disabled only when no creatable page passes base, view and embed |
| `BaseMember.CommitsOnFields` | crates/clep-bases/src/base.rs:793-838 | exactly when the partial evaluator commits on a page field: `links_to`, the word count, the journal date, and relative dates on timestamps |
| `BaseMember.CommitsOnProperties` | crates/clep-bases/src/base.rs:802-857 | exactly when it commits on a property: an operator its type does not have, or a key the base does not know |
| `BaseMember.OpenComparisons` | crates/clep-bases/src/base_member.rs:542-567 | a comparison is left open exactly when the evaluator does not commit or the word count is read |
| `BaseMember.ConnectivesDecide` | crates/clep-bases/src/base_member.rs:521-540 | a filter whose comparisons are all decided is decided |
| `BaseMember.DecidedFiltersAreExact` | crates/clep-bases/src/base_member.rs:521-540 | and its verdict is the matcher's on any creatable page, both ways |
| `BaseMember.DisabledExactly` | crates/clep-bases/src/base_member.rs:199-234 | creation is disabled if and only if base, view or embed filter is judged always false |
| `EmbedComplexity.ValidateStringSizes` | crates/clep-bases/src/base_embed.rs:286-310 | exactly one diagnostic per oversized string, at any nesting |
| `EmbedComplexity.CheckComparison` | crates/clep-bases/src/base_embed.rs:241-262 | silent exactly when field, `in` list and strings are within limits, each diagnostic justified |
| `EmbedComplexity.PushedAt` | crates/clep-bases/src/base_embed.rs:229-240 | every child is pushed once, the first one on top |
| `EmbedComplexity.Expand` | crates/clep-bases/src/base_embed.rs:216-263 | popping a node and pushing its children keeps the verdict, the node count and every path |
| `EmbedComplexity.WalkFilter` | crates/clep-bases/src/base_embed.rs:195-264 | silent if and only if the recursive definition holds, at most 65 nodes popped, every diagnostic names a real excess at the node its path leads to |
| `EmbedComplexity.ValidateComplexity` | crates/clep-bases/src/base_embed.rs:165-267 | no diagnostic if and only if limit, sort and filter are within limits; limit, sort keys and overlong fields are reported exactly when they exceed 1 to 200, 8 and 256, and every other diagnostic is justified by the filter |
| `EmbedComplexity.FitsEverywhere` | crates/clep-bases/src/base_embed.rs:195-264 | the recursive definition said of places: every node a path leads to is within its limits and at most eight deep |
| `EmbedComplexity.LongStringsMean` | crates/clep-bases/src/base_embed.rs:286-310 | no oversized string exactly when no string nested anywhere exceeds 4096 |
| `EmbedComplexity.LimitsInNumbers` | crates/clep-bases/src/base_embed.rs:6-14 | all nine limits as numbers |
| `GeneratedRegion.WalkForest` | crates/clep-bases/src/generated_region.rs:41-66 | over any forest, the depth counter sees exactly the root blocks |
| `GeneratedRegion.HtmlBlocks` | crates/clep-bases/src/generated_region.rs:41-66 | returns exactly the top-level HTML blocks |
| `GeneratedRegion.FindTerminatorMeans` | crates/clep-bases/src/generated_region.rs:68-72 | the terminator found is there and is the first |
| `GeneratedRegion.TerminatorAfterOpen` | crates/clep-bases/src/generated_region.rs:88-91 | the terminator never lies inside the opening, so the header slice is in bounds |
| `GeneratedRegion.ReadHeader` | crates/clep-bases/src/generated_region.rs:87-121 | an accepted header has version 1, a UUID, and its terminator inside the comment |
| `GeneratedRegion.RunMeans` | crates/clep-bases/src/generated_region.rs:74-162 | the loop accepts exactly alternating headers and end markers with distinct UUIDs, and pairs them |
| `GeneratedRegion.ParseMeans` | crates/clep-bases/src/generated_region.rs:74-162 | a document parses if and only if its directives are well formed, complete pairs |
| `GeneratedRegion.ParsedRegionsAreDisjoint` | crates/clep-bases/src/generated_region.rs:74-162 | spans ordered and disjoint, payload between header and end marker, flag equal to the fingerprint test, UUIDs distinct |
| `GeneratedRegion.ParseRegions` | crates/clep-bases/src/generated_region.rs:74-162 | the loop computes that parse and never slices out of bounds |
| `RegionRoundTrip.EnsureInertOutput` | crates/clep-bases/src/generated_region.rs:168-180 | refuses exactly the outputs with a directive among their top-level blocks |
| `RegionRoundTrip.NewlinesMakeNoDirective` | crates/clep-bases/src/generated_region.rs:187-192 | rewriting CRLF neither makes nor breaks a directive, so checking before rewriting is enough |
| `RegionRoundTrip.HeaderReadsBack` | crates/clep-bases/src/generated_region.rs:193-204 | the written header reads back to the same descriptor, whatever the configuration holds |
| `RegionRoundTrip.FormatParsesBack` | crates/clep-bases/src/generated_region.rs:182-205 | one region over the whole text, same id and selection, exact payload, not modified |
| `RegionMeaning.NewlinesMean` | crates/clep-bases/src/generated_region.rs:189-192 | the rewriting cuts a text at its CR LF pairs, so that no piece holds one, and joins the pieces with LF |
| `RegionMeaning.FormatMeans` | crates/clep-bases/src/generated_region.rs:182-205 | with `b` the output, CR LF read as LF, less the newlines at its ends: what is refused, in order, and otherwise the exact text: opening line, declaration of version 1, id, selection and the digest of the payload, `-->`, blank line, `b`, blank line, end marker |
| `RegionMeaning.PlainOutputIsKept` | crates/clep-bases/src/generated_region.rs:189-192 | an output without CR and without outer newlines stands between two blank lines as it is |
| `RegionMeaning.BodyHoldsCrlfExactly` | crates/clep-bases/src/generated_region.rs:189-192 | a CR LF is left in the body if and only if the output has a CR CR LF with more than newlines after it |
| `RegionMeaning.DirectiveMeans` | crates/clep-bases/src/generated_region.rs:68-84 | a directive is a comment that starts with one of the two markers and has only white space after its first `-->` |
| `RegionMeaning.SpacesMean` | crates/clep-bases/src/generated_region.rs:68-80 | white space is Unicode's, code by code |
| `RegionMeaning.TrimmedMeans` | crates/clep-bases/src/generated_region.rs:79-80 | a block is read without the white space around it, all of it |
| `RegionMeaning.HeaderMeans` | crates/clep-bases/src/generated_region.rs:87-121 | what a header reads as, by the text between opening and first `-->`: each error, and the descriptor, UUID and end |
| `RegionMeaning.FingerprintMeans` | crates/clep-bases/src/generated_region.rs:124-136 | a fingerprint passes exactly if it is `blake3:` and 64 lower-case hexadecimal digits, and otherwise which of the two errors |
| `RegionMeaning.StepErrors` | crates/clep-bases/src/generated_region.rs:84-156 | the error each wrong directive is refused with, by its place and text |
| `RegionMeaning.ParseRefuses` | crates/clep-bases/src/generated_region.rs:74-162 | a document is refused for its first wrong directive |
| `RegionMeaning.ParseMissesTheEnd` | crates/clep-bases/src/generated_region.rs:158-161 | and a well-formed one exactly when it ends inside a region |
| `RegionReplace.SpanHoldsTwo` | crates/clep-bases/src/generated_region.rs:207-219 | a region's span holds exactly its own two directives |
| `RegionReplace.ReplaceKeepsTheOthers` | crates/clep-bases/src/generated_region.rs:207-219 | after a replacement the region reads back fresh and every other keeps descriptor and flag, in place or moved |
| `RegionReplace.OtherPayloadsSurvive` | crates/clep-bases/src/generated_region.rs:207-219 | the payload text of every other region is unchanged |
| `RegionWitness.HypothesesHoldTogether` | crates/clep-bases/src/generated_region.rs:207-219 | for any id and selection, a parser, codec and page that meet everything the replacement theorem assumes |
| `Isbn.NormalizeIsbn10` | crates/clep-academic/src/import_isbn.rs:23-43 | the checksum loop accepts exactly the ISBN-10s of ISO 2108, with each error case told apart |
| `Isbn.NormalizeIsbn13` | crates/clep-academic/src/import_isbn.rs:45-60 | comparing the computed check digit accepts exactly the ISBN-13s of ISO 2108 |
| `Isbn.Normalize` | crates/clep-academic/src/import_isbn.rs:10-21 | the result is the one the standard's definitions give |
| `Isbn.CheckDigitCompletes` | crates/clep-academic/src/import_isbn.rs:62-68 | the computed digit makes the weighted sum a multiple of ten |
| `Isbn.ResultIsIsbn13` | crates/clep-academic/src/import_isbn.rs:10-43 | accepted exactly for a valid ISBN-10 or ISBN-13, and every result is a valid ISBN-13 |
| `Isbn.NormalizationIsIdempotent` | crates/clep-academic/src/import_isbn.rs:10-21 | normalising a result gives it back |
| `Isbn.SeparatorsAreIgnored` | crates/clep-academic/src/import_isbn.rs:10-14 | a space or hyphen anywhere changes nothing |
| `Isbn.OneWrongByteIsRejected` | crates/clep-academic/src/import_isbn.rs:10-60 | replacing any byte of an accepted input is accepted if and only if the new byte means the same |
| `Isbn.SwapInIsbn10IsRejected` | crates/clep-academic/src/import_isbn.rs:23-43 | swapping any two unequal symbols of an accepted ISBN-10 is rejected |
| `Isbn.SwapInIsbn13` | crates/clep-academic/src/import_isbn.rs:45-60 | exactly which swaps in an accepted ISBN-13, with or without separators, still pass |
| `Isbn.ConversionIsInjective` | crates/clep-academic/src/import_isbn.rs:40-42 | ISBN-10s with the same ISBN-13 differ at most in the case of X |
| `Isbn.ConversionReachesEvery978` | crates/clep-academic/src/import_isbn.rs:40-42 | every ISBN-13 with prefix 978 is the normal form of an ISBN-10 |
| `Isbn.CompactMeans` | crates/clep-academic/src/import_isbn.rs:10-14 | bytes 32 and 45 are dropped and no other byte is |
| `Isbn.Isbn10Means` | crates/clep-academic/src/import_isbn.rs:23-43 | an ISBN-10 in numbers: nine digits, a digit or X, and the sum weighted from ten down to one divisible by eleven |
| `Isbn.Isbn13Means` | crates/clep-academic/src/import_isbn.rs:45-60 | an ISBN-13 in numbers: 978 or 979, digits, and the sum weighted one and three in turn divisible by ten |
| `Isbn.RefusalMeans` | crates/clep-academic/src/import_isbn.rs:10-60 | which input is refused for its length, its characters or its prefix |
| `Isbn.ConversionMeans` | crates/clep-academic/src/import_isbn.rs:40-42 | a converted number is 978, the nine digits and the check digit that completes it |

## Left out

- SQLite, file descriptors, identity checks and platform branches of the store: tables are maps, the file tree a map from hash to bytes, a transaction one step.
- SHA-256 and BLAKE3 are parameters; only the form of a digest is assumed.
- `Cas.ContentStore.Store`: a database error after the row is inserted, such as a failed withdrawal, is not modelled.
- `Cas.ContentStore.Gc`: the order in which rows are taken is not fixed.
- Counts are unbounded integers, not 32- or 64-bit ones.
- `CasWorld.RunsKeepTheLaw`: pages keep the set of hashes they were captured with; edits of the archive table by hand and repeated stores of one hash in one capture are outside the runs, and so are the failures and rebuilds that the exact lemmas show to break the law.
- `CasScan.ScanArchiveRefs`: starts from the files the walk found; the walk, `.purge-*` directory names and the frontmatter parser are not modelled.
- `CasMigrate.Migrate`: the checks on the two store roots and the reading of the old database are not modelled.
- `SyncProtocol.IndexMatchesTree`: assumes a refusal and a finished sync without a changed tree leave the tree alone, and that a sweep keeps index and tree equal; edits from outside while the watcher is paused are not steps.
- `SyncProtocol.MutualExclusion`: counts the engine calls of windows; the status query of `crates/clep-api/src/sync_runtime.rs:263-274` calls the engine without the lock and is not a step.
- Sync liveness: that every change is eventually committed is not claimed (only that every state can be run to its end), and the debounce and the cadence timer are not modelled.
- The git engine, the watcher, the index builder and the reconcile sweep are single nondeterministic steps.
- `ImageLabels.FindImageLabelEnds`: the candidates come from the Markdown parser with distinct starts, each at `![`, in order.
- Text is bytes or abstract characters; UTF-8 boundaries are not modelled.
- HTML rewriting, CSS, data URIs and URL joining around the snapshot algorithms.
- `PreviewStore.Store.Save`: needs a table that may hold one row, since the source's eviction loop would not end for none.
- Preview responses shown to the client, image serving, the parsing of URLs and the capture worker; that JSON spells a byte of text with at most six is assumed.
- Dates are unbounded; the date library's own range is not modelled.
- Numbers in filters are reals with infinities and NaN; the rounding of large integers to doubles is not modelled.
- Field resolution is a parameter; the SQL compilation of filters, sorting, grouping and base diagnostics are not modelled.
- `EmbedComplexity.ValidateComplexity`: the semantic checks that run after the limits pass, and the wording of diagnostics, are not modelled.
- `GeneratedRegion.ParseRegions`: the Markdown parser is a parameter whose top-level blocks are in order, in bounds and disjoint; TOML keys are already told apart.
- `RegionRoundTrip.FormatParsesBack`: assumes the TOML codec's own round trip and an output that leaves no Markdown block open.
- `RegionReplace.ReplaceKeepsTheOthers`: assumes the parser finds the same blocks outside the replaced span; insertion of a new region is not modelled.
- Open Library lookups and citation keys around the ISBN code.
- The user interface, browser extension, configuration, feeds, backups, templates, deep links, Zotero import and HTTP routes.
