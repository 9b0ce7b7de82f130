/** The content-addressed store: blob rows, the release ledger, blob files and the mutation lock. */
module Cas {
  import opened Common

  type Bytes = seq<byte>
  type Hash = string
  type ItemId = nat

  /** One row of the `blobs` table. `refCount` may go below zero: `decrement_ref` is unconditional. */
  datatype BlobRow = BlobRow(size: int, contentType: string, createdAt: int, refCount: int)

  /** The durable state: the two tables of `cas.db` and the blob files of the fan-out directories. */
  datatype State = State(blobs: map<Hash, BlobRow>, releases: set<ItemId>, files: map<Hash, Bytes>)

  datatype CasError =
    | LockBusy
    | Io
    | InvalidHash(hash: Hash)
    | MissingBlob(hash: Hash)
    | InvalidSize(hash: Hash)
    | NoReference(hash: Hash)
    | BackingBlob(hash: Hash)
    | ReferenceChanged(hash: Hash)

  datatype ReleaseOutcome = Released | AlreadyCompleted

  datatype StoreResult = StoreResult(hash: Hash, alreadyExisted: bool)

  const PREFIX: string := "sha256:"

  predicate IsLowerHex(s: string) {
    forall i :: 0 <= i < |s| ==> '0' <= s[i] <= '9' || 'a' <= s[i] <= 'f'
  }

  /** `validate_hash`: the prefix, then exactly 64 lower-case hex digits. */
  predicate ValidHash(h: Hash) {
    PREFIX <= h && |h| == |PREFIX| + 64 && IsLowerHex(h[|PREFIX|..])
  }

  /** `blob_relative_path`: the two-level fan-out, a directory name and a file name. */
  function BlobRelativePath(h: Hash): (r: Option<(string, string)>)
    ensures r.Some? <==> ValidHash(h)
    ensures r.Some? ==> r.value.0 <= r.value.1 && |r.value.0| == 2 && PREFIX + r.value.1 == h
  {
    if ValidHash(h) then
      var hex := h[|PREFIX|..];
      Some((hex[..2], hex))
    else None
  }

  /** Distinct blobs never share a path, so a file found on disk names one hash only. */
  lemma PathsAreInjective(a: Hash, b: Hash)
    requires BlobRelativePath(a).Some? && BlobRelativePath(a) == BlobRelativePath(b)
    ensures a == b
  {
    assert a == PREFIX + BlobRelativePath(a).value.1;
    assert b == PREFIX + BlobRelativePath(b).value.1;
  }

  // ---- Reference arithmetic ----

  function AddRef(row: BlobRow, delta: int): BlobRow {
    row.(refCount := row.refCount + delta)
  }

  /** `UPDATE blobs SET ref_count = ref_count + delta WHERE hash = h`: no row, no effect. */
  function Bump(blobs: map<Hash, BlobRow>, h: Hash, delta: int): map<Hash, BlobRow> {
    if h in blobs then blobs[h := AddRef(blobs[h], delta)] else blobs
  }

  /** One reference withdrawn from every row named by `hs`. */
  function DecrementAll(blobs: map<Hash, BlobRow>, hs: set<Hash>): map<Hash, BlobRow> {
    map h | h in blobs :: if h in hs then AddRef(blobs[h], -1) else blobs[h]
  }

  lemma DecrementStep(blobs: map<Hash, BlobRow>, hs: set<Hash>, h: Hash)
    requires h !in hs
    ensures Bump(DecrementAll(blobs, hs), h, -1) == DecrementAll(blobs, hs + {h})
  {
  }

  // ---- Prevalidation ----

  /** What `prevalidate_rubbish_archive_ref` reports for `h`; `None` when the row, its count and its file agree. */
  function PrevalidateError(s: State, h: Hash): Option<CasError> {
    if !ValidHash(h) then Some(InvalidHash(h))
    else if h !in s.blobs then Some(MissingBlob(h))
    else if s.blobs[h].size < 0 then Some(InvalidSize(h))
    else if s.blobs[h].refCount <= 0 then Some(NoReference(h))
    else if h !in s.files || |s.files[h]| != s.blobs[h].size then Some(BackingBlob(h))
    else None
  }

  /** The error of the first hash, in iteration order, that fails prevalidation. */
  function FirstError(s: State, hs: seq<Hash>): (r: Option<CasError>)
    ensures r.None? <==> forall h :: h in hs ==> PrevalidateError(s, h).None?
  {
    if hs == [] then None
    else if PrevalidateError(s, hs[0]).Some? then PrevalidateError(s, hs[0])
    else
      assert forall h :: h in hs ==> h == hs[0] || h in hs[1..];
      FirstError(s, hs[1..])
  }

  // ---- Specification of each operation on the durable state ----

  function AfterStore(s: State, h: Hash, data: Bytes, contentType: string, now: int): State {
    if h in s.blobs then s.(blobs := Bump(s.blobs, h, 1))
    else State(s.blobs[h := BlobRow(|data|, contentType, now, 1)], s.releases, s.files[h := data])
  }

  /** How writing a new blob's file can go: the directory may fail, and a failed write may leave part of the file. */
  datatype FileWrite = Written | NoDirectory | WriteFailed(left: Option<Bytes>)

  /** The state after any `store`, successful or not. Only a failed write withdraws the inserted row. */
  function StoreOutcome(s: State, h: Hash, data: Bytes, contentType: string, now: int, write: FileWrite): State {
    if h in s.blobs || write.Written? then AfterStore(s, h, data, contentType, now)
    else match write
         case NoDirectory => s.(blobs := s.blobs[h := BlobRow(|data|, contentType, now, 1)])
         case WriteFailed(left) => if left.Some? then s.(files := s.files[h := left.value]) else s
  }

  /** What `release_rubbish_archive_refs` answers when it gets the lock. */
  function ReleaseResult(s: State, item: ItemId, hashes: seq<Hash>): Result<ReleaseOutcome, CasError> {
    if item in s.releases then Ok(AlreadyCompleted)
    else if FirstError(s, hashes).Some? then Err(FirstError(s, hashes).value)
    else Ok(Released)
  }

  function AfterRelease(s: State, item: ItemId, hs: set<Hash>): State {
    s.(blobs := DecrementAll(s.blobs, hs), releases := s.releases + {item})
  }

  /** Rows `gc` selects: no reference left and created before the cutoff. */
  function Collectable(s: State, cutoff: int): set<Hash> {
    set h | h in s.blobs && s.blobs[h].refCount <= 0 && s.blobs[h].createdAt < cutoff
  }

  /** Rows of `pruned` and files of `unlinked` are gone; the two differ when `gc` stops between file and row. */
  function AfterGcUntil(s: State, pruned: set<Hash>, unlinked: set<Hash>): State {
    s.(blobs := s.blobs - pruned, files := s.files - unlinked)
  }

  function AfterGc(s: State, pruned: set<Hash>): State {
    AfterGcUntil(s, pruned, pruned)
  }

  /** The vault-wide recount handed to `rebuild_metadata`. */
  datatype Scan = Scan(refs: map<Hash, nat>, types: map<Hash, string>, warnings: nat)

  const UNTYPED: string := "application/octet-stream"

  function RefsOf(scan: Scan, h: Hash): nat {
    if h in scan.refs then scan.refs[h] else 0
  }

  /** The row rebuilt for one blob file. */
  function RebuiltRow(scan: Scan, h: Hash, data: Bytes, now: int): BlobRow {
    BlobRow(|data|, if h in scan.types then scan.types[h] else UNTYPED, now, RefsOf(scan, h))
  }

  function AfterRebuild(s: State, scan: Scan, now: int): State {
    State(map h | h in s.files :: RebuiltRow(scan, h, s.files[h], now), {}, s.files)
  }

  /** Hashes the scan references with no blob file on disk. */
  function MissingFiles(s: State, scan: Scan): set<Hash> {
    scan.refs.Keys - s.files.Keys
  }

  datatype RebuildReport = RebuildReport(
    rowsWritten: nat,
    unreferencedBlobs: nat,
    untypedBlobs: set<Hash>,
    missingFiles: set<Hash>,
    dryRun: bool)

  /** The `UPDATE ... WHERE ref_count > 0` loop inside the release transaction. */
  method ReleaseTransaction(blobs: map<Hash, BlobRow>, hashes: seq<Hash>)
    returns (r: Result<map<Hash, BlobRow>, CasError>)
    requires Distinct(hashes)
    ensures r.Ok? <==> forall h :: h in hashes ==> h in blobs && blobs[h].refCount > 0
    ensures r.Ok? ==> r.value == DecrementAll(blobs, set h | h in hashes)
    ensures r.Err? ==> r.error.ReferenceChanged? && r.error.hash in hashes
  {
    var work := blobs;
    ghost var done: set<Hash> := {};
    assert DecrementAll(blobs, {}) == blobs;
    for i := 0 to |hashes|
      invariant done == set h | h in hashes[..i]
      invariant work == DecrementAll(blobs, done)
      invariant forall h :: h in hashes[..i] ==> h in blobs && blobs[h].refCount > 0
    {
      var h := hashes[i];
      assert h !in done;
      if h !in work || work[h].refCount <= 0 {
        return Err(ReferenceChanged(h));
      }
      DecrementStep(blobs, done, h);
      work := Bump(work, h, -1);
      done := done + {h};
      assert hashes[..i + 1] == hashes[..i] + [h];
    }
    assert hashes[..|hashes|] == hashes;
    return Ok(work);
  }

  /** What can stop `gc` at one row: its file cannot be removed, or the row itself cannot be deleted. */
  datatype GcFaults = GcFaults(undeletable: set<Hash>, undroppable: set<Hash>)

  /** The hash gives a path, and its file, if there is one, can be removed: the loop gets as far as the row. */
  predicate Unlinkable(files: map<Hash, Bytes>, faults: GcFaults, h: Hash) {
    ValidHash(h) && !(h in files && h in faults.undeletable)
  }

  predicate Prunable(files: map<Hash, Bytes>, faults: GcFaults, h: Hash) {
    Unlinkable(files, faults, h) && h !in faults.undroppable
  }

  /** The loop loses the file and keeps the row, if it comes to this hash. */
  predicate Sticks(files: map<Hash, Bytes>, faults: GcFaults, h: Hash) {
    Unlinkable(files, faults, h) && h in faults.undroppable
  }

  /** Every way the loop can end, whatever the order of the rows. */
  predicate Ends(files: map<Hash, Bytes>, rows: set<Hash>, faults: GcFaults, pruned: set<Hash>, stuck: Option<Hash>) {
    && pruned <= rows && (forall h :: h in pruned ==> Prunable(files, faults, h))
    && match stuck
       case Some(h) => h in rows && h !in pruned && Sticks(files, faults, h)
       case None => pruned == rows || exists h :: h in rows && h !in pruned && !Unlinkable(files, faults, h)
  }

  /** The files gone when the rows of `pruned` are, and `stuck` lost its file but not its row. */
  function Unlinked(pruned: set<Hash>, stuck: Option<Hash>): set<Hash> {
    if stuck.Some? then pruned + {stuck.value} else pruned
  }

  /** The loop of `gc`: the file goes first, then the row, and the first failure stops it. */
  method Prune(blobs: map<Hash, BlobRow>, files: map<Hash, Bytes>, rows: set<Hash>, faults: GcFaults)
    returns (blobs': map<Hash, BlobRow>, files': map<Hash, Bytes>, pruned: set<Hash>, stuck: Option<Hash>)
    ensures blobs' == blobs - pruned && files' == files - Unlinked(pruned, stuck)
    ensures Ends(files, rows, faults, pruned, stuck)
    ensures pruned == rows <==> forall h :: h in rows ==> Prunable(files, faults, h)
    ensures stuck.Some? ==>
              && stuck.value in rows && stuck.value !in pruned && stuck.value in faults.undroppable
              && ValidHash(stuck.value) && (stuck.value in files ==> stuck.value !in faults.undeletable)
  {
    blobs', files', pruned, stuck := blobs, files, {}, None;
    var todo := rows;
    while todo != {}
      invariant todo !! pruned && todo + pruned == rows && stuck.None?
      invariant blobs' == blobs - pruned && files' == files - pruned
      invariant forall h :: h in pruned ==> Prunable(files, faults, h)
    {
      var hash :| hash in todo;
      if !ValidHash(hash) || (hash in files' && hash in faults.undeletable) {
        assert hash in rows && hash !in pruned && !Unlinkable(files, faults, hash);
        return;
      }
      files' := files' - {hash};
      if hash in faults.undroppable {
        assert hash in rows && hash !in pruned && Sticks(files, faults, hash);
        stuck := Some(hash);
        return;
      }
      blobs' := blobs' - {hash};
      todo, pruned := todo - {hash}, pruned + {hash};
    }
  }

  /** Blob files no scanned page or item references. */
  function Unreferenced(files: map<Hash, Bytes>, scan: Scan): set<Hash> {
    set h | h in files && RefsOf(scan, h) == 0
  }

  /** What a rebuild reports: nothing about a dry run differs but the flag. */
  function ReportOf(s: State, scan: Scan, write: bool): RebuildReport {
    RebuildReport(|s.files|, |Unreferenced(s.files, scan)|, s.files.Keys - scan.types.Keys, MissingFiles(s, scan),
                  !write)
  }

  /** What the row-building loop knows about `h` when the files of `todo` are still to be read. */
  ghost predicate RowState(files: map<Hash, Bytes>, scan: Scan, now: int, todo: set<Hash>, rows: map<Hash, BlobRow>,
                           untyped: set<Hash>, idle: set<Hash>, h: Hash) {
    && (h in rows <==> h in files && h !in todo)
    && (h in rows ==> rows[h] == RebuiltRow(scan, h, files[h], now))
    && (h in untyped <==> h in rows && h !in scan.types)
    && (h in idle <==> h in rows && RefsOf(scan, h) == 0)
  }

  lemma RowsComplete(files: map<Hash, Bytes>, scan: Scan, now: int, rows: map<Hash, BlobRow>, untyped: set<Hash>,
                     idle: set<Hash>)
    requires forall h :: RowState(files, scan, now, {}, rows, untyped, idle, h)
    ensures rows == map h | h in files :: RebuiltRow(scan, h, files[h], now)
    ensures untyped == files.Keys - scan.types.Keys && idle == Unreferenced(files, scan)
  {
    assert forall h :: h in rows <==> h in files by {
      forall h ensures h in rows <==> h in files { assert RowState(files, scan, now, {}, rows, untyped, idle, h); }
    }
    forall h ensures h in untyped <==> h in files && h !in scan.types {
      assert RowState(files, scan, now, {}, rows, untyped, idle, h);
    }
    forall h ensures h in idle <==> h in Unreferenced(files, scan) {
      assert RowState(files, scan, now, {}, rows, untyped, idle, h);
    }
    forall h | h in files ensures rows[h] == RebuiltRow(scan, h, files[h], now) {
      assert RowState(files, scan, now, {}, rows, untyped, idle, h);
    }
  }

  lemma RowAdded(files: map<Hash, Bytes>, scan: Scan, now: int, todo: set<Hash>, rows: map<Hash, BlobRow>,
                 untyped: set<Hash>, idle: set<Hash>, h: Hash)
    requires h in todo && todo <= files.Keys && forall k :: RowState(files, scan, now, todo, rows, untyped, idle, k)
    ensures h !in idle
    ensures var untyped' := if h in scan.types then untyped else untyped + {h};
            var idle' := if RefsOf(scan, h) == 0 then idle + {h} else idle;
            var rows' := rows[h := RebuiltRow(scan, h, files[h], now)];
            forall k :: RowState(files, scan, now, todo - {h}, rows', untyped', idle', k)
  {
    var untyped' := if h in scan.types then untyped else untyped + {h};
    var idle' := if RefsOf(scan, h) == 0 then idle + {h} else idle;
    var rows' := rows[h := RebuiltRow(scan, h, files[h], now)];
    assert RowState(files, scan, now, todo, rows, untyped, idle, h);
    forall k ensures RowState(files, scan, now, todo - {h}, rows', untyped', idle', k) {
      assert RowState(files, scan, now, todo, rows, untyped, idle, k);
    }
  }

  /** The row-building loop of `rebuild_metadata`. */
  method RebuildRows(files: map<Hash, Bytes>, scan: Scan, now: int)
    returns (rows: map<Hash, BlobRow>, untyped: set<Hash>, unreferenced: nat)
    ensures rows == map h | h in files :: RebuiltRow(scan, h, files[h], now)
    ensures untyped == files.Keys - scan.types.Keys
    ensures unreferenced == |Unreferenced(files, scan)|
  {
    rows, untyped, unreferenced := map[], {}, 0;
    ghost var idle: set<Hash> := {};
    var todo := files.Keys;
    while todo != {}
      invariant todo <= files.Keys && unreferenced == |idle|
      invariant forall h :: RowState(files, scan, now, todo, rows, untyped, idle, h)
    {
      var h :| h in todo;
      RowAdded(files, scan, now, todo, rows, untyped, idle, h);
      if h !in scan.types {
        untyped := untyped + {h};
      }
      if RefsOf(scan, h) == 0 {
        unreferenced, idle := unreferenced + 1, idle + {h};
      }
      rows := rows[h := RebuiltRow(scan, h, files[h], now)];
      todo := todo - {h};
    }
    RowsComplete(files, scan, now, rows, untyped, idle);
  }

  // ---- What the operations do, row by row ----

  lemma HexDigits(c: char)
    ensures '0' <= c <= '9' || 'a' <= c <= 'f' <==> c in "0123456789abcdef"
  {
  }

  /** The format of a hash, letter by letter. */
  lemma ValidHashMeans(h: Hash)
    ensures ValidHash(h) <==>
            |h| == 71 && h[..7] == "sha256:" && forall i :: 7 <= i < 71 ==> h[i] in "0123456789abcdef"
  {
    if |h| == 71 {
      forall i | 7 <= i < 71 ensures h[7..][i - 7] == h[i] {
      }
      forall i | 7 <= i < 71 ensures '0' <= h[i] <= '9' || 'a' <= h[i] <= 'f' <==> h[i] in "0123456789abcdef" {
        HexDigits(h[i]);
      }
      if forall i :: 7 <= i < 71 ==> h[i] in "0123456789abcdef" {
        forall j | 0 <= j < |h[7..]| ensures '0' <= h[7..][j] <= '9' || 'a' <= h[7..][j] <= 'f' {
          assert h[7..][j] == h[j + 7];
        }
      }
    }
  }

  /** Every other hash keeps its row and file, and the ledger stays. */
  ghost predicate OthersKept(s: State, s': State, h: Hash) {
    && s'.releases == s.releases
    && forall k :: k != h ==>
         && (k in s'.blobs <==> k in s.blobs) && (k in s.blobs && k in s'.blobs ==> s'.blobs[k] == s.blobs[k])
         && (k in s'.files <==> k in s.files) && (k in s.files && k in s'.files ==> s'.files[k] == s.files[k])
  }

  /** A store, case by case, on the one row and the one file it may touch. */
  lemma StoreMeans(s: State, h: Hash, data: Bytes, contentType: string, now: int, write: FileWrite)
    ensures var s' := StoreOutcome(s, h, data, contentType, now, write);
            && OthersKept(s, s', h)
            && (h in s.blobs ==>
                  && h in s'.blobs && s'.blobs[h].refCount == s.blobs[h].refCount + 1 && s'.files == s.files
                  && s'.blobs[h].size == s.blobs[h].size && s'.blobs[h].contentType == s.blobs[h].contentType
                  && s'.blobs[h].createdAt == s.blobs[h].createdAt)
            && (h !in s.blobs && write.Written? ==>
                  && h in s'.blobs && s'.blobs[h] == BlobRow(|data|, contentType, now, 1)
                  && h in s'.files && s'.files[h] == data)
            && (h !in s.blobs && write.NoDirectory? ==>
                  h in s'.blobs && s'.blobs[h] == BlobRow(|data|, contentType, now, 1) && s'.files == s.files)
            && (h !in s.blobs && write.WriteFailed? ==>
                  && h !in s'.blobs
                  && if write.left.Some? then h in s'.files && s'.files[h] == write.left.value else s'.files == s.files)
  {
  }

  /** A count moves by `delta` if the row is there; nothing else moves. */
  lemma BumpMeans(blobs: map<Hash, BlobRow>, h: Hash, delta: int, k: Hash)
    ensures Bump(blobs, h, delta).Keys == blobs.Keys
    ensures k in blobs ==>
              Bump(blobs, h, delta)[k] ==
              BlobRow(blobs[k].size, blobs[k].contentType, blobs[k].createdAt,
                      blobs[k].refCount + if k == h then delta else 0)
  {
  }

  /** The row and the file that a release demands of a hash. */
  predicate Releasable(s: State, h: Hash) {
    && |h| == 71 && h[..7] == "sha256:" && (forall i :: 7 <= i < 71 ==> h[i] in "0123456789abcdef")
    && h in s.blobs && s.blobs[h].size >= 0 && s.blobs[h].refCount > 0
    && h in s.files && |s.files[h]| == s.blobs[h].size
  }

  lemma PrevalidationMeans(s: State, h: Hash)
    ensures PrevalidateError(s, h).None? <==> Releasable(s, h)
    ensures !ValidHash(h) ==> PrevalidateError(s, h) == Some(InvalidHash(h))
    ensures ValidHash(h) && h !in s.blobs ==> PrevalidateError(s, h) == Some(MissingBlob(h))
    ensures ValidHash(h) && h in s.blobs ==>
              && (s.blobs[h].size < 0 ==> PrevalidateError(s, h) == Some(InvalidSize(h)))
              && (s.blobs[h].size >= 0 && s.blobs[h].refCount <= 0 ==> PrevalidateError(s, h) == Some(NoReference(h)))
              && (s.blobs[h].size >= 0 && s.blobs[h].refCount > 0
                  && !(h in s.files && |s.files[h]| == s.blobs[h].size) ==>
                    PrevalidateError(s, h) == Some(BackingBlob(h)))
  {
    ValidHashMeans(h);
  }

  /** When a release succeeds, and what it then does to every row. */
  lemma ReleaseMeans(s: State, item: ItemId, hashes: seq<Hash>, k: Hash)
    ensures ReleaseResult(s, item, hashes) == Ok(AlreadyCompleted) <==> item in s.releases
    ensures ReleaseResult(s, item, hashes) == Ok(Released) <==>
            item !in s.releases && forall h :: h in hashes ==> Releasable(s, h)
    ensures var s' := AfterRelease(s, item, set h | h in hashes);
            && s'.files == s.files && s'.blobs.Keys == s.blobs.Keys
            && (forall i :: i in s'.releases <==> i in s.releases || i == item)
            && (k in s.blobs ==>
                  s'.blobs[k] == BlobRow(s.blobs[k].size, s.blobs[k].contentType, s.blobs[k].createdAt,
                                         s.blobs[k].refCount - if k in hashes then 1 else 0))
  {
    forall h | h in hashes ensures PrevalidateError(s, h).None? <==> Releasable(s, h) {
      PrevalidationMeans(s, h);
    }
  }

  /** A rebuild, row by row. */
  lemma RebuildMeans(s: State, scan: Scan, now: int, h: Hash)
    ensures var s' := AfterRebuild(s, scan, now);
            && s'.releases == {} && s'.files == s.files && (h in s'.blobs <==> h in s.files)
            && (h in s.files ==>
                  && s'.blobs[h].size == |s.files[h]| && s'.blobs[h].createdAt == now
                  && s'.blobs[h].refCount == (if h in scan.refs then scan.refs[h] else 0)
                  && s'.blobs[h].contentType == if h in scan.types then scan.types[h] else "application/octet-stream")
  {
  }

  /** A rebuild's report, figure by figure. */
  lemma ReportMeans(s: State, scan: Scan, write: bool)
    ensures var r := ReportOf(s, scan, write);
            && r.rowsWritten == |s.files.Keys| && r.dryRun == !write
            && r.unreferencedBlobs == |set h | h in s.files && (h in scan.refs ==> scan.refs[h] == 0)|
            && (forall h :: h in r.untypedBlobs <==> h in s.files && h !in scan.types)
            && (forall h :: h in r.missingFiles <==> h in scan.refs && h !in s.files)
  {
    assert Unreferenced(s.files, scan) == set h | h in s.files && (h in scan.refs ==> scan.refs[h] == 0);
  }

  /** The store object: the two tables, the blob files and the per-object lock cell. */
  class ContentStore {
    var blobs: map<Hash, BlobRow>
    var releases: set<ItemId>
    var files: map<Hash, Bytes>
    var lockHeld: bool

    ghost function Durable(): State
      reads this
    {
      State(blobs, releases, files)
    }

    constructor ()
      ensures Durable() == State(map[], {}, map[]) && !lockHeld
    {
      blobs, releases, files, lockHeld := map[], {}, map[], false;
    }

    /** `store`: dedupe on the row, else write the file; a failed write withdraws the inserted row. */
    method Store(digest: Bytes -> Hash, data: Bytes, contentType: string, now: int, write: FileWrite)
      returns (r: Result<StoreResult, CasError>)
      modifies this
      ensures lockHeld == old(lockHeld)
      ensures old(lockHeld) ==> r == Err(LockBusy) && Durable() == old(Durable())
      ensures !old(lockHeld) ==> (r.Ok? <==> digest(data) in old(blobs) || write.Written?)
      ensures r.Ok? ==> r.value == StoreResult(digest(data), digest(data) in old(blobs))
      ensures !old(lockHeld) ==>
                Durable() == StoreOutcome(old(Durable()), digest(data), data, contentType, now, write)
    {
      if lockHeld {
        return Err(LockBusy);
      }
      lockHeld := true;
      var hash := digest(data);
      var before := blobs;
      if hash in blobs {
        blobs := Bump(blobs, hash, 1);
        r := Ok(StoreResult(hash, true));
      } else {
        blobs := blobs[hash := BlobRow(|data|, contentType, now, 1)];
        match write
        case NoDirectory =>
          r := Err(Io);
        case WriteFailed(left) =>
          if left.Some? {
            files := files[hash := left.value];
          }
          blobs := blobs - {hash};
          assert blobs == before;
          r := Err(Io);
        case Written =>
          files := files[hash := data];
          r := Ok(StoreResult(hash, false));
      }
      lockHeld := false;
    }

    /** `increment_ref` and `decrement_ref`. */
    method AdjustRef(hash: Hash, delta: int) returns (r: Result<(), CasError>)
      requires delta == 1 || delta == -1
      modifies this
      ensures lockHeld == old(lockHeld)
      ensures r.Ok? <==> !old(lockHeld) && ValidHash(hash)
      ensures Durable() == if r.Ok? then old(Durable()).(blobs := Bump(old(blobs), hash, delta)) else old(Durable())
    {
      if lockHeld {
        return Err(LockBusy);
      }
      if !ValidHash(hash) {
        return Err(InvalidHash(hash));
      }
      blobs := Bump(blobs, hash, delta);
      return Ok(());
    }

    /** The delete hook: one decrement per distinct hash, carrying on past a hash that fails. */
    method OnPageDeleted(hashes: seq<Hash>) returns (failures: seq<Hash>)
      requires Distinct(hashes)
      modifies this
      ensures lockHeld == old(lockHeld) && releases == old(releases) && files == old(files)
      ensures forall h :: h in failures <==> h in hashes && (old(lockHeld) || !ValidHash(h))
      ensures blobs == DecrementAll(old(blobs), set h | h in hashes && h !in failures)
    {
      failures := [];
      ghost var done: set<Hash> := {};
      assert blobs == DecrementAll(old(blobs), done);
      for i := 0 to |hashes|
        invariant lockHeld == old(lockHeld) && releases == old(releases) && files == old(files)
        invariant forall h :: h in failures <==> h in hashes[..i] && (old(lockHeld) || !ValidHash(h))
        invariant done == set h | h in hashes[..i] && h !in failures
        invariant blobs == DecrementAll(old(blobs), done)
      {
        var h := hashes[i];
        assert h !in hashes[..i];
        assert hashes[..i + 1] == hashes[..i] + [h];
        DecrementStep(old(blobs), done, h);
        var r := AdjustRef(h, -1);
        if r.Err? {
          failures := failures + [h];
        } else {
          done := done + {h};
        }
      }
      assert hashes[..|hashes|] == hashes;
    }

    /** `release_rubbish_archive_refs`: all-or-nothing, at most once per item. */
    method ReleaseRubbishArchiveRefs(item: ItemId, hashes: seq<Hash>)
      returns (r: Result<ReleaseOutcome, CasError>)
      requires Distinct(hashes)
      modifies this
      ensures lockHeld == old(lockHeld)
      ensures old(lockHeld) ==> r == Err(LockBusy)
      ensures !old(lockHeld) ==> r == ReleaseResult(old(Durable()), item, hashes)
      ensures Durable() ==
                if r == Ok(Released) then AfterRelease(old(Durable()), item, set h | h in hashes) else old(Durable())
      ensures !(r.Err? && r.error.ReferenceChanged?)
    {
      if lockHeld {
        return Err(LockBusy);
      }
      if item in releases {
        return Ok(AlreadyCompleted);
      }
      lockHeld := true;
      var bad: Option<CasError> := None;
      for i := 0 to |hashes|
        invariant blobs == old(blobs) && releases == old(releases) && files == old(files)
        invariant bad.None?
        invariant FirstError(old(Durable()), hashes) == FirstError(old(Durable()), hashes[i..])
      {
        bad := PrevalidateError(State(blobs, releases, files), hashes[i]);
        if bad.Some? {
          break;
        }
        assert hashes[i..][1..] == hashes[i + 1..];
      }
      if bad.Some? {
        r := Err(bad.value);
      } else {
        var committed := ReleaseTransaction(blobs, hashes);
        match committed {
          case Ok(work) =>
            blobs, releases := work, releases + {item};
            r := Ok(Released);
          case Err(error) =>
            r := Err(error);
        }
      }
      lockHeld := false;
    }

    /** `gc`: prune every selected blob; `r` is the number pruned, or an error part-way. */
    method Gc(cutoff: int, faults: GcFaults) returns (r: Result<nat, CasError>, pruned: set<Hash>, stuck: Option<Hash>)
      modifies this
      ensures lockHeld == old(lockHeld)
      ensures pruned <= Collectable(old(Durable()), cutoff)
      ensures !old(lockHeld) ==> Ends(old(files), Collectable(old(Durable()), cutoff), faults, pruned, stuck)
      ensures Durable() == AfterGcUntil(old(Durable()), pruned, Unlinked(pruned, stuck))
      ensures old(lockHeld) ==> r == Err(LockBusy) && pruned == {} && stuck.None?
      ensures forall h :: h in pruned ==>
                            h in old(blobs) && old(blobs)[h].refCount <= 0 && old(blobs)[h].createdAt < cutoff
      ensures r.Ok? ==>
                forall h :: h in old(blobs) ==>
                              (h !in blobs <==> old(blobs)[h].refCount <= 0 && old(blobs)[h].createdAt < cutoff)
      ensures stuck.Some? ==> stuck.value in old(blobs) && stuck.value !in pruned && stuck.value in faults.undroppable
      ensures !old(lockHeld) ==> (r.Ok? <==> pruned == Collectable(old(Durable()), cutoff))
      ensures r.Ok? ==> r.value == |pruned|
      ensures !old(lockHeld) ==>
                (r.Ok? <==> forall h :: h in Collectable(old(Durable()), cutoff) ==> Prunable(old(files), faults, h))
    {
      if lockHeld {
        return Err(LockBusy), {}, None;
      }
      var rows := Collectable(State(blobs, releases, files), cutoff);
      blobs, files, pruned, stuck := Prune(blobs, files, rows, faults);
      r := if pruned == rows then Ok(|pruned|) else Err(Io);
    }

    /** `rebuild_metadata`: recreate every row from the files and the scan, and clear the release ledger. */
    method RebuildMetadata(scan: Scan, write: bool, now: int) returns (r: Result<RebuildReport, CasError>)
      modifies this
      ensures lockHeld == old(lockHeld)
      ensures r == if old(lockHeld) then Err(LockBusy) else Ok(ReportOf(old(Durable()), scan, write))
      ensures Durable() == if r.Ok? && write then AfterRebuild(old(Durable()), scan, now) else old(Durable())
    {
      if lockHeld {
        return Err(LockBusy);
      }
      var rows, untyped, unreferenced := RebuildRows(files, scan, now);
      r := Ok(RebuildReport(|files|, unreferenced, untyped, scan.refs.Keys - files.Keys, !write));
      if write {
        blobs, releases := rows, {};
      }
    }
  }
}
