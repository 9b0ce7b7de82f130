/**
 * Runs of the vault around the content store: captures, deletions, trashing, restoring, purging with
 * a crash between release and removal, garbage collection and rebuilds.
 *
 * The accounting law, kept by every step: a blob row's count is the number of its holders plus the
 * references nobody will ever withdraw (`leaked`).
 */
module CasWorld {
  import opened Common
  import opened Cas

  type PageId = nat

  datatype World = World(
    pages: map<PageId, set<Hash>>,     // live pages and the hashes their frontmatter names
    items: map<ItemId, set<Hash>>,     // rubbish items on disk, `.purge-*` tombstones excluded
    captures: map<PageId, set<Hash>>,  // captures under way: blobs stored, page not written yet
    purging: set<ItemId>,              // purge calls between the release hook and the item's removal
    cas: State,
    leaked: multiset<Hash>)            // references whose owner is gone without a decrement

  datatype Step =
    | BeginCapture(page: PageId)
    | StoreBlob(page: PageId, data: Bytes, contentType: string, now: int, write: FileWrite)
    | CommitCapture(page: PageId)
    | DropCapture(page: PageId, undone: set<Hash>)   // rollback; a crash undoes nothing
    | DeletePage(page: PageId, undone: set<Hash>)
    | Trash(page: PageId, item: ItemId)
    | Restore(item: ItemId, page: PageId)
    | ReleaseItem(item: ItemId, hashes: seq<Hash>)
    | AbandonPurge(item: ItemId)                     // crash, or a failed removal
    | RemoveItem(item: ItemId)
    | Gc(cutoff: int, pruned: set<Hash>)
    | Rebuild(scan: Scan, now: int)

  function Unreleased(w: World): map<ItemId, set<Hash>> {
    map i | i in w.items && i !in w.cas.releases :: w.items[i]
  }

  function ReleasedPresent(w: World): map<ItemId, set<Hash>> {
    map i | i in w.items && i in w.cas.releases :: w.items[i]
  }

  /** Owners that still expect to withdraw their own reference to `h`. */
  function Holders(w: World, h: Hash): nat {
    |Naming(w.pages, h)| + |Naming(Unreleased(w), h)| + |Naming(w.captures, h)|
  }

  /** Some live page, unreleased rubbish item or capture under way names `h`. */
  ghost predicate Named(w: World, h: Hash) {
    || (exists p :: p in w.pages && h in w.pages[p])
    || (exists i :: i in w.items && i !in w.cas.releases && h in w.items[i])
    || (exists p :: p in w.captures && h in w.captures[p])
  }

  lemma NamedIsHeld(w: World, h: Hash)
    ensures Named(w, h) <==> Holders(w, h) > 0
  {
    NamingNone(w.pages, h);
    NamingNone(Unreleased(w), h);
    NamingNone(w.captures, h);
    if exists i :: i in w.items && i !in w.cas.releases && h in w.items[i] {
      var i :| i in w.items && i !in w.cas.releases && h in w.items[i];
      assert i in Unreleased(w);
    }
  }

  /** The vault scan: one reference per live page and per rubbish item present, released or not, and no warning. */
  ghost predicate ScanOf(w: World, scan: Scan) {
    && scan.warnings == 0
    && (forall h :: RefsOf(scan, h) == |Naming(w.pages, h)| + |Naming(w.items, h)|)
    && (forall h :: h in scan.refs ==> scan.refs[h] > 0)
  }

  /** A row and a file exist together, the row records the file's size and the hash its content. */
  ghost predicate BackedAt(digest: Bytes -> Hash, s: State, h: Hash) {
    && (h in s.blobs <==> h in s.files)
    && (h in s.blobs ==> s.blobs[h].size == |s.files[h]| && digest(s.files[h]) == h)
  }

  /** The accounting law at one hash: an absent row counts as zero. */
  ghost predicate Account(w: World, h: Hash) {
    Holders(w, h) + w.leaked[h] == if h in w.cas.blobs then w.cas.blobs[h].refCount else 0
  }

  ghost predicate Inv(digest: Bytes -> Hash, w: World) {
    && (forall h :: BackedAt(digest, w.cas, h))
    && (forall h :: Account(w, h))
    && w.purging <= w.items.Keys
  }

  ghost predicate GoodDigest(digest: Bytes -> Hash) {
    forall data :: ValidHash(digest(data))
  }

  const EMPTY: World := World(map[], map[], map[], {}, State(map[], {}, map[]), multiset{})

  /** The row is there already, or the file is written, or its write fails and leaves nothing. */
  predicate StoreIsSafe(s: State, h: Hash, write: FileWrite) {
    h in s.blobs || write.Written? || write == WriteFailed(None)
  }

  /** Every referenced blob is on disk and no capture under way has stored anything yet. */
  ghost predicate RebuildIsSafe(w: World, scan: Scan) {
    MissingFiles(w.cas, scan) == {} && forall p :: p in w.captures ==> w.captures[p] == {}
  }

  /** When a step can be taken. Page and item identifiers are fresh UUIDs; an item is locked while it is purged. */
  ghost predicate Enabled(digest: Bytes -> Hash, w: World, s: Step) {
    match s
    case BeginCapture(p) => p !in w.pages && p !in w.captures
    case StoreBlob(p, data, _, _, write) =>
      p in w.captures && digest(data) !in w.captures[p] && StoreIsSafe(w.cas, digest(data), write)
    case CommitCapture(p) => p in w.captures && p !in w.pages
    case DropCapture(p, undone) => p in w.captures && undone <= w.captures[p]
    case DeletePage(p, undone) => p in w.pages && undone <= w.pages[p]
    case Trash(p, i) => p in w.pages && i !in w.items && i !in w.cas.releases
    case Restore(i, p) =>
      i in w.items && i !in w.purging && i !in w.cas.releases && p !in w.pages && p !in w.captures
    case ReleaseItem(i, hashes) =>
      i in w.items && i !in w.purging && Distinct(hashes) && w.items[i] == set h | h in hashes
    case AbandonPurge(i) => i in w.purging
    case RemoveItem(i) => i in w.purging
    case Gc(cutoff, pruned) => pruned <= Collectable(w.cas, cutoff)
    case Rebuild(scan, _) => ScanOf(w, scan) && RebuildIsSafe(w, scan)
  }

  /** One owner of `named` disappears and withdraws only the references in `undone`. */
  function Withdraw(w: World, named: set<Hash>, undone: set<Hash>): World {
    w.(cas := w.cas.(blobs := DecrementAll(w.cas.blobs, undone)),
       leaked := w.leaked + multiset(named - undone))
  }

  ghost function Apply(digest: Bytes -> Hash, w: World, s: Step): World
    requires Enabled(digest, w, s)
  {
    match s
    case BeginCapture(p) => w.(captures := w.captures[p := {}])
    case StoreBlob(p, data, contentType, now, write) =>
      var h := digest(data);
      var stored := w.(cas := StoreOutcome(w.cas, h, data, contentType, now, write));
      if h in w.cas.blobs || write.Written? then stored.(captures := w.captures[p := w.captures[p] + {h}]) else stored
    case CommitCapture(p) => w.(pages := w.pages[p := w.captures[p]], captures := w.captures - {p})
    case DropCapture(p, undone) => Withdraw(w.(captures := w.captures - {p}), w.captures[p], undone)
    case DeletePage(p, undone) => Withdraw(w.(pages := w.pages - {p}), w.pages[p], undone)
    case Trash(p, i) => w.(pages := w.pages - {p}, items := w.items[i := w.pages[p]])
    case Restore(i, p) => w.(pages := w.pages[p := w.items[i]], items := w.items - {i})
    case ReleaseItem(i, hashes) =>
      var r := ReleaseResult(w.cas, i, hashes);
      if r.Err? then w
      else if r.value.AlreadyCompleted? then w.(purging := w.purging + {i})
      else w.(purging := w.purging + {i}, cas := AfterRelease(w.cas, i, w.items[i]))
    case AbandonPurge(i) => w.(purging := w.purging - {i})
    case RemoveItem(i) =>
      w.(items := w.items - {i}, purging := w.purging - {i},
         leaked := if i in w.cas.releases || i !in w.items then w.leaked else w.leaked + multiset(w.items[i]))
    case Gc(_, pruned) => w.(cas := AfterGc(w.cas, pruned))
    case Rebuild(scan, now) => Rebuilt(w, scan, now)
  }

  /** The world after a rebuild, safe or not: every reference left behind is forgotten. */
  function Rebuilt(w: World, scan: Scan, now: int): World {
    w.(cas := AfterRebuild(w.cas, scan, now), leaked := multiset{})
  }

  // ---- Each kind of step keeps the law ----

  /** A world whose store, leaks and holder counts are those of `w`. */
  lemma SameAccounts(digest: Bytes -> Hash, w: World, w': World)
    requires Inv(digest, w) && w'.cas == w.cas && w'.leaked == w.leaked && w'.purging <= w'.items.Keys
    requires forall h :: Holders(w', h) == Holders(w, h)
    ensures Inv(digest, w')
  {
    forall h ensures Account(w', h) { assert Account(w, h); }
  }

  lemma CapturePreserves(digest: Bytes -> Hash, w: World, s: Step)
    requires Inv(digest, w) && Enabled(digest, w, s) && (s.BeginCapture? || s.CommitCapture?)
    ensures Inv(digest, Apply(digest, w, s))
  {
    var w' := Apply(digest, w, s);
    assert Unreleased(w') == Unreleased(w);
    forall h ensures Holders(w', h) == Holders(w, h) {
      if s.BeginCapture? {
        NamingUpdate(w.captures, s.page, {}, h);
      } else {
        NamingRemove(w.captures, s.page, h);
        NamingUpdate(w.pages, s.page, w.captures[s.page], h);
      }
    }
    SameAccounts(digest, w, w');
  }

  lemma StoreHolders(w: World, w': World, p: PageId, stored: Hash, h: Hash)
    requires p in w.captures && stored !in w.captures[p]
    requires w'.captures == w.captures[p := w.captures[p] + {stored}]
    requires w'.pages == w.pages && w'.items == w.items && w'.cas.releases == w.cas.releases
    ensures Holders(w', h) == Holders(w, h) + if h == stored then 1 else 0
  {
    var rest := w.captures - {p};
    assert w'.captures == rest[p := w.captures[p] + {stored}];
    NamingRemove(w.captures, p, h);
    NamingUpdate(rest, p, w.captures[p] + {stored}, h);
    assert Unreleased(w') == Unreleased(w);
  }

  lemma StorePreserves(digest: Bytes -> Hash, w: World, s: Step)
    requires Inv(digest, w) && Enabled(digest, w, s) && s.StoreBlob?
    ensures Inv(digest, Apply(digest, w, s))
  {
    var w' := Apply(digest, w, s);
    var stored := digest(s.data);
    if stored in w.cas.blobs || s.write.Written? {
      forall h ensures Account(w', h) && BackedAt(digest, w'.cas, h) {
        StoreHolders(w, w', s.page, stored, h);
        assert Account(w, h) && BackedAt(digest, w.cas, h);
      }
    }
  }

  /** An owner holding `named` goes away: the withdrawn references and the leaked ones add up. */
  lemma WithdrawPreserves(digest: Bytes -> Hash, w: World, gone: World, named: set<Hash>, undone: set<Hash>)
    requires Inv(digest, w) && undone <= named && gone.leaked == w.leaked && gone.purging <= gone.items.Keys
    requires gone.cas.blobs == w.cas.blobs && gone.cas.files == w.cas.files
    requires forall h :: Holders(w, h) == Holders(gone, h) + if h in named then 1 else 0
    ensures Inv(digest, Withdraw(gone, named, undone))
  {
    var w' := Withdraw(gone, named, undone);
    assert Unreleased(w') == Unreleased(gone);
    forall h ensures Account(w', h) && BackedAt(digest, w'.cas, h) {
      assert Holders(w', h) == Holders(gone, h);
      assert Account(w, h) && BackedAt(digest, w.cas, h);
    }
  }

  lemma DeletionPreserves(digest: Bytes -> Hash, w: World, s: Step)
    requires Inv(digest, w) && Enabled(digest, w, s) && (s.DropCapture? || s.DeletePage?)
    ensures Inv(digest, Apply(digest, w, s))
  {
    var gone := if s.DropCapture? then w.(captures := w.captures - {s.page}) else w.(pages := w.pages - {s.page});
    var named := if s.DropCapture? then w.captures[s.page] else w.pages[s.page];
    assert Unreleased(gone) == Unreleased(w);
    forall h ensures Holders(w, h) == Holders(gone, h) + if h in named then 1 else 0 {
      if s.DropCapture? {
        NamingRemove(w.captures, s.page, h);
      } else {
        NamingRemove(w.pages, s.page, h);
      }
    }
    WithdrawPreserves(digest, w, gone, named, s.undone);
  }

  /** Trashing and restoring move a reference between owners and never touch the store. */
  lemma MovePreserves(digest: Bytes -> Hash, w: World, s: Step)
    requires Inv(digest, w) && Enabled(digest, w, s) && (s.Trash? || s.Restore?)
    ensures Inv(digest, Apply(digest, w, s)) && Apply(digest, w, s).cas == w.cas
  {
    var w' := Apply(digest, w, s);
    forall h ensures Holders(w', h) == Holders(w, h) {
      if s.Trash? {
        assert Unreleased(w') == Unreleased(w)[s.item := w.pages[s.page]];
        NamingRemove(w.pages, s.page, h);
        NamingUpdate(Unreleased(w), s.item, w.pages[s.page], h);
      } else {
        assert Unreleased(w') == Unreleased(w) - {s.item};
        NamingUpdate(w.pages, s.page, w.items[s.item], h);
        NamingRemove(Unreleased(w), s.item, h);
      }
    }
    SameAccounts(digest, w, w');
  }

  /** The first purge attempt of an item always succeeds: no prevalidation error is reachable. */
  lemma PurgeNeverFails(digest: Bytes -> Hash, w: World, i: ItemId, hashes: seq<Hash>)
    requires GoodDigest(digest) && Inv(digest, w) && Enabled(digest, w, ReleaseItem(i, hashes))
    ensures ReleaseResult(w.cas, i, hashes) == Ok(if i in w.cas.releases then AlreadyCompleted else Released)
  {
    if i !in w.cas.releases {
      forall h | h in hashes ensures PrevalidateError(w.cas, h).None? {
        assert h in w.items[i];
        NamedIsHeld(w, h);
        assert Account(w, h) && BackedAt(digest, w.cas, h);
      }
    }
  }

  /** Recording the release alone: exactly the item's references leave the set of holders. */
  lemma MarkedHolders(w: World, marked: World, i: ItemId, h: Hash)
    requires i in w.items && i !in w.cas.releases
    requires marked.pages == w.pages && marked.items == w.items && marked.captures == w.captures
    requires marked.cas.releases == w.cas.releases + {i}
    ensures Holders(w, h) == Holders(marked, h) + if h in w.items[i] then 1 else 0
  {
    assert Unreleased(marked) == Unreleased(w) - {i};
    NamingRemove(Unreleased(w), i, h);
  }

  lemma FirstReleasePreserves(digest: Bytes -> Hash, w: World, i: ItemId)
    requires Inv(digest, w) && i in w.items && i !in w.cas.releases
    ensures Inv(digest, w.(purging := w.purging + {i}, cas := AfterRelease(w.cas, i, w.items[i])))
  {
    var marked := w.(cas := w.cas.(releases := w.cas.releases + {i}), purging := w.purging + {i});
    forall h ensures Holders(w, h) == Holders(marked, h) + if h in w.items[i] then 1 else 0 {
      MarkedHolders(w, marked, i, h);
    }
    WithdrawPreserves(digest, w, marked, w.items[i], w.items[i]);
    assert w.leaked + multiset(w.items[i] - w.items[i]) == w.leaked;
  }

  lemma ReleasePreserves(digest: Bytes -> Hash, w: World, i: ItemId, hashes: seq<Hash>)
    requires GoodDigest(digest) && Inv(digest, w) && Enabled(digest, w, ReleaseItem(i, hashes))
    ensures Inv(digest, Apply(digest, w, ReleaseItem(i, hashes)))
  {
    var w' := Apply(digest, w, ReleaseItem(i, hashes));
    PurgeNeverFails(digest, w, i, hashes);
    if i in w.cas.releases {
      assert Unreleased(w') == Unreleased(w);
      SameAccounts(digest, w, w');
    } else {
      FirstReleasePreserves(digest, w, i);
    }
  }

  /** Removing an item whose ledger entry a rebuild cleared leaks its references, and nothing else. */
  lemma UnreleasedRemovalPreserves(digest: Bytes -> Hash, w: World, i: ItemId)
    requires Inv(digest, w) && i in w.items && i !in w.cas.releases
    ensures Inv(digest, w.(items := w.items - {i}, purging := w.purging - {i},
                           leaked := w.leaked + multiset(w.items[i])))
  {
    var gone := w.(items := w.items - {i}, purging := w.purging - {i});
    assert Unreleased(gone) == Unreleased(w) - {i};
    forall h ensures Holders(w, h) == Holders(gone, h) + if h in w.items[i] then 1 else 0 {
      NamingRemove(Unreleased(w), i, h);
    }
    WithdrawPreserves(digest, w, gone, w.items[i], {});
    assert DecrementAll(w.cas.blobs, {}) == w.cas.blobs;
    assert w.items[i] - {} == w.items[i];
  }

  lemma RemovalPreserves(digest: Bytes -> Hash, w: World, s: Step)
    requires Inv(digest, w) && Enabled(digest, w, s) && (s.AbandonPurge? || s.RemoveItem?)
    ensures Inv(digest, Apply(digest, w, s))
  {
    var w' := Apply(digest, w, s);
    if s.AbandonPurge? || s.item in w.cas.releases {
      assert Unreleased(w') == Unreleased(w);
      SameAccounts(digest, w, w');
    } else {
      UnreleasedRemovalPreserves(digest, w, s.item);
    }
  }

  /** `gc` never removes a blob that a live page, an unreleased item or a capture under way names. */
  lemma GcKeepsNamed(digest: Bytes -> Hash, w: World, cutoff: int, h: Hash)
    requires Inv(digest, w) && h in Collectable(w.cas, cutoff)
    ensures !Named(w, h) && w.leaked[h] == 0
  {
    NamedIsHeld(w, h);
    assert Account(w, h);
  }

  /** A row no older than the cutoff keeps its row and its file, whatever its count. */
  lemma YoungRowsSurvive(digest: Bytes -> Hash, w: World, cutoff: int, pruned: set<Hash>, h: Hash)
    requires Inv(digest, w) && Enabled(digest, w, Gc(cutoff, pruned))
    requires h in w.cas.blobs && w.cas.blobs[h].createdAt >= cutoff
    ensures var w' := Apply(digest, w, Gc(cutoff, pruned));
            h in w'.cas.blobs && w'.cas.blobs[h] == w.cas.blobs[h] && h in w'.cas.files
  {
    assert BackedAt(digest, w.cas, h);
  }

  lemma GcPreserves(digest: Bytes -> Hash, w: World, cutoff: int, pruned: set<Hash>)
    requires Inv(digest, w) && pruned <= Collectable(w.cas, cutoff)
    ensures Inv(digest, Apply(digest, w, Gc(cutoff, pruned)))
  {
    var w' := Apply(digest, w, Gc(cutoff, pruned));
    assert Unreleased(w') == Unreleased(w);
    forall h ensures Account(w', h) && BackedAt(digest, w'.cas, h) {
      assert Account(w, h) && BackedAt(digest, w.cas, h);
      assert h in pruned ==> w.cas.blobs[h].refCount <= 0;
    }
  }

  lemma SplitItems(w: World, h: Hash)
    ensures |Naming(w.items, h)| == |Naming(Unreleased(w), h)| + |Naming(ReleasedPresent(w), h)|
  {
    assert Naming(w.items, h) == Naming(Unreleased(w), h) + Naming(ReleasedPresent(w), h);
    assert Naming(Unreleased(w), h) !! Naming(ReleasedPresent(w), h);
  }

  /**
   * A rebuild at any moment, captures under way or not: each file's new count is exactly the holders of
   * the resulting world less the captures under way. So it never under-counts a blob if and only if no
   * capture under way names it.
   */
  lemma RebuildCountsAllButCaptures(digest: Bytes -> Hash, w: World, scan: Scan, now: int, h: Hash)
    requires Inv(digest, w) && ScanOf(w, scan) && h in w.cas.files
    ensures var w' := Rebuilt(w, scan, now);
            var count := w'.cas.blobs[h].refCount;
            && count == Holders(w', h) - |Naming(w.captures, h)|
            && (count >= Holders(w', h) <==> forall p :: p in w.captures ==> h !in w.captures[p])
  {
    var w' := Rebuilt(w, scan, now);
    assert Unreleased(w') == w.items;
    NamingNone(w.captures, h);
  }

  /**
   * Maintained count against recount, in every state a run reaches: the rebuild forgets the leaked references
   * and the captures under way, and gives every released item still on disk its reference back. So it lowers a
   * count if and only if it forgets more than it gives back.
   */
  lemma RebuildAgainstMaintained(digest: Bytes -> Hash, w: World, scan: Scan, now: int, h: Hash)
    requires Inv(digest, w) && ScanOf(w, scan) && h in w.cas.files
    ensures h in w.cas.blobs
    ensures var was, count := w.cas.blobs[h].refCount, Rebuilt(w, scan, now).cas.blobs[h].refCount;
            var back, forgotten := |Naming(ReleasedPresent(w), h)|, w.leaked[h] + |Naming(w.captures, h)|;
            && count == was - forgotten + back
            && (count < was <==> back < forgotten)
  {
    SplitItems(w, h);
    assert Account(w, h) && BackedAt(digest, w.cas, h);
  }

  /** The law at one hash after a rebuild: no capture names it, and its file is there if anything else does. */
  lemma RebuiltAccount(digest: Bytes -> Hash, w: World, scan: Scan, now: int, h: Hash)
    requires Inv(digest, w) && ScanOf(w, scan)
    ensures Account(Rebuilt(w, scan, now), h) <==> |Naming(w.captures, h)| == 0 && h !in MissingFiles(w.cas, scan)
    ensures BackedAt(digest, Rebuilt(w, scan, now).cas, h)
  {
    var w' := Rebuilt(w, scan, now);
    assert BackedAt(digest, w.cas, h);
    assert Unreleased(w') == w.items;
    assert Holders(w', h) == RefsOf(scan, h) + |Naming(w.captures, h)|;
    assert h in scan.refs <==> RefsOf(scan, h) > 0;
  }

  /** A rebuild keeps the law if and only if nothing referenced is missing and no capture has stored a blob. */
  lemma RebuildKeepsTheLawExactly(digest: Bytes -> Hash, w: World, scan: Scan, now: int)
    requires Inv(digest, w) && ScanOf(w, scan)
    ensures Inv(digest, Rebuilt(w, scan, now)) <==> RebuildIsSafe(w, scan)
  {
    forall h
      ensures Account(Rebuilt(w, scan, now), h) <==>
              (forall p :: p in w.captures ==> h !in w.captures[p]) && h !in MissingFiles(w.cas, scan)
      ensures BackedAt(digest, Rebuilt(w, scan, now).cas, h)
    {
      RebuiltAccount(digest, w, scan, now, h);
      NamingNone(w.captures, h);
    }
    if Inv(digest, Rebuilt(w, scan, now)) {
      forall h ensures h !in MissingFiles(w.cas, scan) {
        assert Account(Rebuilt(w, scan, now), h);
      }
      forall p, h | p in w.captures ensures h !in w.captures[p] {
        assert Account(Rebuilt(w, scan, now), h);
      }
    }
  }

  lemma RebuildPreserves(digest: Bytes -> Hash, w: World, scan: Scan, now: int)
    requires Inv(digest, w) && Enabled(digest, w, Rebuild(scan, now))
    ensures Inv(digest, Apply(digest, w, Rebuild(scan, now)))
  {
    RebuildKeepsTheLawExactly(digest, w, scan, now);
  }

  lemma StepPreserves(digest: Bytes -> Hash, w: World, s: Step)
    requires GoodDigest(digest) && Inv(digest, w) && Enabled(digest, w, s)
    ensures Inv(digest, Apply(digest, w, s))
  {
    match s
    case BeginCapture(_) => CapturePreserves(digest, w, s);
    case StoreBlob(_, _, _, _, _) => StorePreserves(digest, w, s);
    case CommitCapture(_) => CapturePreserves(digest, w, s);
    case DropCapture(_, _) => DeletionPreserves(digest, w, s);
    case DeletePage(_, _) => DeletionPreserves(digest, w, s);
    case Trash(_, _) => MovePreserves(digest, w, s);
    case Restore(_, _) => MovePreserves(digest, w, s);
    case ReleaseItem(i, hashes) => ReleasePreserves(digest, w, i, hashes);
    case AbandonPurge(_) => RemovalPreserves(digest, w, s);
    case RemoveItem(_) => RemovalPreserves(digest, w, s);
    case Gc(cutoff, pruned) => GcPreserves(digest, w, cutoff, pruned);
    case Rebuild(scan, now) => RebuildPreserves(digest, w, scan, now);
  }

  // ---- Whole runs ----

  ghost predicate ValidRun(digest: Bytes -> Hash, w: World, steps: seq<Step>)
    decreases |steps|
  {
    steps == [] || (Enabled(digest, w, steps[0]) && ValidRun(digest, Apply(digest, w, steps[0]), steps[1..]))
  }

  ghost function Run(digest: Bytes -> Hash, w: World, steps: seq<Step>): World
    requires ValidRun(digest, w, steps)
    decreases |steps|
  {
    if steps == [] then w else Run(digest, Apply(digest, w, steps[0]), steps[1..])
  }

  /** Accounting over every run: backed rows, exact counts, and a row for everything still named. */
  lemma {:induction false} RunsKeepTheLaw(digest: Bytes -> Hash, w: World, steps: seq<Step>)
    requires GoodDigest(digest) && Inv(digest, w) && ValidRun(digest, w, steps)
    ensures Inv(digest, Run(digest, w, steps))
    decreases |steps|
  {
    if steps != [] {
      StepPreserves(digest, w, steps[0]);
      RunsKeepTheLaw(digest, Apply(digest, w, steps[0]), steps[1..]);
    }
  }

  /**
   * From the empty vault, whatever has happened, every blob a live page, an unreleased rubbish item or a
   * capture still names is on disk with the content its hash was computed from.
   */
  lemma NoNamedBlobIsLost(digest: Bytes -> Hash, steps: seq<Step>, h: Hash)
    requires GoodDigest(digest) && ValidRun(digest, EMPTY, steps)
    requires Named(Run(digest, EMPTY, steps), h)
    ensures var cas := Run(digest, EMPTY, steps).cas; h in cas.files && digest(cas.files[h]) == h
  {
    assert Inv(digest, EMPTY) by {
      assert Unreleased(EMPTY) == map[];
      forall h ensures Account(EMPTY, h) {
        NamingNone(EMPTY.pages, h);
        NamingNone(Unreleased(EMPTY), h);
        NamingNone(EMPTY.captures, h);
      }
    }
    RunsKeepTheLaw(digest, EMPTY, steps);
    var end := Run(digest, EMPTY, steps);
    NamedIsHeld(end, h);
    assert Account(end, h) && BackedAt(digest, end.cas, h);
  }

  /** The step collects nothing as young as `t`, and a rebuild in it stamps rows no earlier than `t`. */
  ghost predicate SparesFrom(s: Step, t: int) {
    (s.Gc? ==> s.cutoff <= t) && (s.Rebuild? ==> s.now >= t)
  }

  lemma StepSparesYoungRows(digest: Bytes -> Hash, w: World, s: Step, t: int, h: Hash)
    requires Inv(digest, w) && Enabled(digest, w, s) && SparesFrom(s, t)
    requires h in w.cas.blobs && w.cas.blobs[h].createdAt >= t
    ensures var w' := Apply(digest, w, s); h in w'.cas.blobs && w'.cas.blobs[h].createdAt >= t && h in w'.cas.files
  {
    assert BackedAt(digest, w.cas, h);
  }

  /** Over every run: a row created at `t` or later outlives all collections whose cutoff is no later than `t`. */
  lemma {:induction false} YoungRowsSurviveRuns(digest: Bytes -> Hash, w: World, steps: seq<Step>, t: int, h: Hash)
    requires GoodDigest(digest) && Inv(digest, w) && ValidRun(digest, w, steps)
    requires forall i :: 0 <= i < |steps| ==> SparesFrom(steps[i], t)
    requires h in w.cas.blobs && w.cas.blobs[h].createdAt >= t
    ensures var end := Run(digest, w, steps); h in end.cas.blobs && h in end.cas.files
    decreases |steps|
  {
    if steps == [] {
      assert BackedAt(digest, w.cas, h);
    } else {
      StepPreserves(digest, w, steps[0]);
      StepSparesYoungRows(digest, w, steps[0], t, h);
      YoungRowsSurviveRuns(digest, Apply(digest, w, steps[0]), steps[1..], t, h);
    }
  }

  /** A step that leaves no reference behind: nothing fails half-way and no purge loses its ledger entry. */
  ghost predicate Clean(w: World, s: Step) {
    match s
    case DropCapture(p, undone) => p in w.captures && undone == w.captures[p]
    case DeletePage(p, undone) => p in w.pages && undone == w.pages[p]
    case RemoveItem(i) => i in w.cas.releases
    case _ => true
  }

  ghost predicate CleanRun(digest: Bytes -> Hash, w: World, steps: seq<Step>)
    requires ValidRun(digest, w, steps)
    decreases |steps|
  {
    steps == [] || (Clean(w, steps[0]) && CleanRun(digest, Apply(digest, w, steps[0]), steps[1..]))
  }

  /** Without interruptions the law is exact: each row counts precisely its holders. */
  lemma {:induction false} CleanRunsCountExactly(digest: Bytes -> Hash, w: World, steps: seq<Step>)
    requires GoodDigest(digest) && Inv(digest, w) && w.leaked == multiset{}
    requires ValidRun(digest, w, steps) && CleanRun(digest, w, steps)
    ensures var end := Run(digest, w, steps);
            && end.leaked == multiset{}
            && forall h :: h in end.cas.blobs ==> end.cas.blobs[h].refCount == Holders(end, h)
    decreases |steps|
  {
    if steps == [] {
      forall h | h in w.cas.blobs ensures w.cas.blobs[h].refCount == Holders(w, h) {
        assert Account(w, h);
      }
    } else {
      StepPreserves(digest, w, steps[0]);
      CleanRunsCountExactly(digest, Apply(digest, w, steps[0]), steps[1..]);
    }
  }

  /** After a crash between release and removal, retrying the purge withdraws nothing a second time. */
  lemma RetriedPurgeIsNoop(digest: Bytes -> Hash, w: World, i: ItemId, hashes: seq<Hash>)
    requires GoodDigest(digest) && Inv(digest, w) && Enabled(digest, w, ReleaseItem(i, hashes))
    ensures var w1 := Apply(digest, w, ReleaseItem(i, hashes));
            && Enabled(digest, w1, AbandonPurge(i))
            && var w2 := Apply(digest, w1, AbandonPurge(i));
            && Enabled(digest, w2, ReleaseItem(i, hashes))
            && Apply(digest, w2, ReleaseItem(i, hashes)).cas == w1.cas
  {
    PurgeNeverFails(digest, w, i, hashes);
  }

  /** A first purge succeeds and lowers each of the item's hashes by exactly one; the next finds it completed. */
  lemma PurgeLowersByOne(digest: Bytes -> Hash, w: World, i: ItemId, hashes: seq<Hash>)
    requires GoodDigest(digest) && Inv(digest, w) && Enabled(digest, w, ReleaseItem(i, hashes)) && i !in w.cas.releases
    ensures ReleaseResult(w.cas, i, hashes) == Ok(Released)
    ensures var w' := Apply(digest, w, ReleaseItem(i, hashes));
            && ReleaseResult(w'.cas, i, hashes) == Ok(AlreadyCompleted)
            && w'.cas.blobs == DecrementAll(w.cas.blobs, w.items[i])
  {
    PurgeNeverFails(digest, w, i, hashes);
  }

  /** A rebuild clears the ledger, so a released item still on disk gives back its regained reference exactly once. */
  lemma PurgeAfterRebuild(digest: Bytes -> Hash, w: World, scan: Scan, now: int, i: ItemId, hashes: seq<Hash>)
    requires GoodDigest(digest) && Inv(digest, w) && Enabled(digest, w, Rebuild(scan, now))
    requires Enabled(digest, w, ReleaseItem(i, hashes)) && i in w.cas.releases
    ensures var w1 := Rebuilt(w, scan, now);
            && Enabled(digest, w1, ReleaseItem(i, hashes))
            && ReleaseResult(w1.cas, i, hashes) == Ok(Released)
            && var w2 := Apply(digest, w1, ReleaseItem(i, hashes));
            && ReleaseResult(w2.cas, i, hashes) == Ok(AlreadyCompleted)
            && w2.cas.blobs == DecrementAll(w1.cas.blobs, w.items[i])
  {
    RebuildPreserves(digest, w, scan, now);
    PurgeLowersByOne(digest, Rebuilt(w, scan, now), i, hashes);
  }

  // ---- Why an unsafe rebuild loses blobs ----

  lemma Prepend(digest: Bytes -> Hash, w: World, step: Step, w': World, rest: seq<Step>)
    requires Enabled(digest, w, step) && Apply(digest, w, step) == w' && ValidRun(digest, w', rest)
    ensures ValidRun(digest, w, [step] + rest) && Run(digest, w, [step] + rest) == Run(digest, w', rest)
  {
    assert ([step] + rest)[1..] == rest;
  }

  function Row(data: Bytes, refs: int): BlobRow {
    BlobRow(|data|, "t", 0, refs)
  }

  /** One blob, owned by page `p` or item 7. */
  function OneBlob(h: Hash, data: Bytes, pages: map<PageId, set<Hash>>, items: map<ItemId, set<Hash>>,
                   captures: map<PageId, set<Hash>>, releases: set<ItemId>, refs: int): World {
    World(pages, items, captures, {}, State(map[h := Row(data, refs)], releases, map[h := data]), multiset{})
  }

  /** Capturing `data` as page `p` of a world that has no row for it, before the steps of `rest`. */
  lemma CaptureRun(digest: Bytes -> Hash, data: Bytes, p: PageId, items: map<ItemId, set<Hash>>, releases: set<ItemId>,
                   rest: seq<Step>)
    returns (steps: seq<Step>)
    requires ValidRun(digest, OneBlob(digest(data), data, map[p := {digest(data)}], items, map[], releases, 1), rest)
    ensures var w := World(map[], items, map[], {}, State(map[], releases, map[]), multiset{});
            var w3 := OneBlob(digest(data), data, map[p := {digest(data)}], items, map[], releases, 1);
            ValidRun(digest, w, steps) && Run(digest, w, steps) == Run(digest, w3, rest)
  {
    var h := digest(data);
    var w := World(map[], items, map[], {}, State(map[], releases, map[]), multiset{});
    var none: set<Hash> := {};
    var w1 := w.(captures := map[p := none]);
    var w2 := OneBlob(h, data, map[], items, map[p := {h}], releases, 1);
    var w3 := OneBlob(h, data, map[p := {h}], items, map[], releases, 1);
    assert Apply(digest, w2, CommitCapture(p)) == w3;
    assert w1.captures[p] + {h} == {h} && map[p := none][p := {h}] == map[p := {h}];
    assert Apply(digest, w1, StoreBlob(p, data, "t", 0, Written)) == w2;
    Prepend(digest, w2, CommitCapture(p), w3, rest);
    steps := [CommitCapture(p)] + rest;
    Prepend(digest, w1, StoreBlob(p, data, "t", 0, Written), w2, steps);
    steps := [StoreBlob(p, data, "t", 0, Written)] + steps;
    Prepend(digest, w, BeginCapture(p), w1, steps);
    steps := [BeginCapture(p)] + steps;
  }

  /** Giving up on the purge of a released item, then collecting its blob. */
  lemma AbandonAndCollectRun(digest: Bytes -> Hash, data: Bytes) returns (steps: seq<Step>)
    ensures var h := digest(data);
            var w := OneBlob(h, data, map[], map[7 := {h}], map[], {7}, 0).(purging := {7});
            && ValidRun(digest, w, steps)
            && Run(digest, w, steps) == World(map[], map[7 := {h}], map[], {}, State(map[], {7}, map[]), multiset{})
  {
    var h := digest(data);
    var w := OneBlob(h, data, map[], map[7 := {h}], map[], {7}, 0).(purging := {7});
    var w1 := OneBlob(h, data, map[], map[7 := {h}], map[], {7}, 0);
    var w2 := World(map[], map[7 := {h}], map[], {}, State(map[], {7}, map[]), multiset{});
    assert Apply(digest, w1, Gc(1, {h})) == w2;
    Prepend(digest, w1, Gc(1, {h}), w2, []);
    Prepend(digest, w, AbandonPurge(7), w1, [Gc(1, {h})] + []);
    steps := [AbandonPurge(7)] + ([Gc(1, {h})] + []);
  }

  /** Trashing that page and purging the item up to a crash before its removal, then collecting the blob. */
  lemma ReleaseAndCollectRun(digest: Bytes -> Hash, data: Bytes) returns (steps: seq<Step>)
    requires GoodDigest(digest)
    ensures var h := digest(data);
            var w := OneBlob(h, data, map[1 := {h}], map[], map[], {}, 1);
            && ValidRun(digest, w, steps)
            && Run(digest, w, steps) == World(map[], map[7 := {h}], map[], {}, State(map[], {7}, map[]), multiset{})
  {
    var h := digest(data);
    var w := OneBlob(h, data, map[1 := {h}], map[], map[], {}, 1);
    var w1 := OneBlob(h, data, map[], map[7 := {h}], map[], {}, 1);
    var w2 := OneBlob(h, data, map[], map[7 := {h}], map[], {7}, 0).(purging := {7});
    assert Apply(digest, w, Trash(1, 7)) == w1;
    ReleaseOnce(digest, data, map[], {});
    steps := AbandonAndCollectRun(digest, data);
    Prepend(digest, w1, ReleaseItem(7, [h]), w2, steps);
    steps := [ReleaseItem(7, [h])] + steps;
    Prepend(digest, w, Trash(1, 7), w1, steps);
    steps := [Trash(1, 7)] + steps;
  }

  /** Releasing item 7 while the blob's only row counts one reference. */
  lemma ReleaseOnce(digest: Bytes -> Hash, data: Bytes, pages: map<PageId, set<Hash>>, releases: set<ItemId>)
    requires GoodDigest(digest) && 7 !in releases
    ensures var h := digest(data);
            var w := OneBlob(h, data, pages, map[7 := {h}], map[], releases, 1);
            && Enabled(digest, w, ReleaseItem(7, [h]))
            && Apply(digest, w, ReleaseItem(7, [h])) ==
               OneBlob(h, data, pages, map[7 := {h}], map[], releases + {7}, 0).(purging := {7})
  {
    var h := digest(data);
    var w := OneBlob(h, data, pages, map[7 := {h}], map[], releases, 1);
    assert PrevalidateError(w.cas, h).None?;
    assert FirstError(w.cas, [h]).None?;
    assert (set x | x in [h]) == {h};
    assert DecrementAll(w.cas.blobs, {h}) == map[h := Row(data, 0)];
  }

  /** The scan of a vault whose only reference is a released item's. */
  lemma ScanOfItem(w: World, h: Hash)
    requires w.pages == map[] && w.items == map[7 := {h}]
    ensures ScanOf(w, Scan(map[h := 1], map[], 0))
  {
    forall k ensures RefsOf(Scan(map[h := 1], map[], 0), k) == |Naming(w.pages, k)| + |Naming(w.items, k)| {
      NamingNone(w.pages, k);
      NamingNone(w.items - {7}, k);
      NamingRemove(w.items, 7, k);
    }
  }

  /**
   * From the empty vault: capture, trash, release, crash, collect, and rebuild although a blob is missing.
   * Capture the same bytes again and purge the old item: the new page's only reference is withdrawn, and the
   * next collection takes the blob it names.
   */
  lemma MissingFilesLoseABlob(digest: Bytes -> Hash, data: Bytes)
    returns (first: seq<Step>, scan: Scan, second: seq<Step>)
    requires GoodDigest(digest)
    ensures ValidRun(digest, EMPTY, first)
    ensures var w := Run(digest, EMPTY, first); ScanOf(w, scan) && MissingFiles(w.cas, scan) == {digest(data)}
    ensures ValidRun(digest, Rebuilt(Run(digest, EMPTY, first), scan, 0), second)
    ensures var end := Run(digest, Rebuilt(Run(digest, EMPTY, first), scan, 0), second);
            Named(end, digest(data)) && digest(data) !in end.cas.files
  {
    var h := digest(data);
    var collected := ReleaseAndCollectRun(digest, data);
    first := CaptureRun(digest, data, 1, map[], {}, collected);
    var w := Run(digest, EMPTY, first);
    scan := Scan(map[h := 1], map[], 0);
    ScanOfItem(w, h);
    var lost := PurgeAndCollectRun(digest, data);
    second := CaptureRun(digest, data, 2, map[7 := {h}], {}, lost);
    assert Rebuilt(w, scan, 0) == World(map[], map[7 := {h}], map[], {}, State(map[], {}, map[]), multiset{});
  }

  lemma PurgeAndCollectRun(digest: Bytes -> Hash, data: Bytes) returns (steps: seq<Step>)
    requires GoodDigest(digest)
    ensures var h := digest(data);
            var w := OneBlob(h, data, map[2 := {h}], map[7 := {h}], map[], {}, 1);
            ValidRun(digest, w, steps) && Named(Run(digest, w, steps), h) && h !in Run(digest, w, steps).cas.files
  {
    var h := digest(data);
    var w := OneBlob(h, data, map[2 := {h}], map[7 := {h}], map[], {}, 1);
    var w1 := OneBlob(h, data, map[2 := {h}], map[7 := {h}], map[], {7}, 0).(purging := {7});
    var w2 := w1.(cas := AfterGc(w1.cas, {h}));
    ReleaseOnce(digest, data, map[2 := {h}], {});
    assert 2 in w2.pages && h in w2.pages[2];
    Prepend(digest, w1, Gc(1, {h}), w2, []);
    Prepend(digest, w, ReleaseItem(7, [h]), w1, [Gc(1, {h})] + []);
    steps := [ReleaseItem(7, [h])] + ([Gc(1, {h})] + []);
  }

  /** An empty vault but for a capture that has stored its only blob. */
  lemma StoredRun(digest: Bytes -> Hash, data: Bytes) returns (steps: seq<Step>)
    ensures ValidRun(digest, EMPTY, steps)
    ensures Run(digest, EMPTY, steps) == OneBlob(digest(data), data, map[], map[], map[1 := {digest(data)}], {}, 1)
  {
    var h := digest(data);
    var none: set<Hash> := {};
    var w1 := EMPTY.(captures := map[1 := none]);
    var w2 := OneBlob(h, data, map[], map[], map[1 := {h}], {}, 1);
    assert w1.captures[1] + {h} == {h} && map[1 := none][1 := {h}] == map[1 := {h}];
    assert Apply(digest, w1, StoreBlob(1, data, "t", 0, Written)) == w2;
    Prepend(digest, w1, StoreBlob(1, data, "t", 0, Written), w2, []);
    steps := [StoreBlob(1, data, "t", 0, Written)] + [];
    Prepend(digest, EMPTY, BeginCapture(1), w1, steps);
    steps := [BeginCapture(1)] + steps;
  }

  lemma ScanOfNothing(w: World)
    requires w.pages == map[] && w.items == map[]
    ensures ScanOf(w, Scan(map[], map[], 0))
  {
    forall h ensures |Naming(w.pages, h)| + |Naming(w.items, h)| == 0 {
      NamingNone(w.pages, h);
      NamingNone(w.items, h);
    }
  }

  lemma CommitAndCollectRun(digest: Bytes -> Hash, w: World, h: Hash) returns (steps: seq<Step>)
    requires w.pages == map[] && w.captures == map[1 := {h}]
    requires h in w.cas.blobs && w.cas.blobs[h].refCount == 0 && w.cas.blobs[h].createdAt == 0
    ensures ValidRun(digest, w, steps) && Named(Run(digest, w, steps), h) && h !in Run(digest, w, steps).cas.files
  {
    var w1 := Apply(digest, w, CommitCapture(1));
    var w2 := w1.(cas := AfterGc(w1.cas, {h}));
    assert 1 in w2.pages && h in w2.pages[1];
    Prepend(digest, w1, Gc(1, {h}), w2, []);
    Prepend(digest, w, CommitCapture(1), w1, [Gc(1, {h})] + []);
    steps := [CommitCapture(1)] + ([Gc(1, {h})] + []);
  }

  /**
   * From the empty vault: store a capture's blob and rebuild before its page is written. Nothing is missing, yet
   * the recount of the blob is zero; once the page is there a collection takes the blob it names.
   */
  lemma RebuildDuringACaptureLosesABlob(digest: Bytes -> Hash, data: Bytes)
    returns (first: seq<Step>, scan: Scan, second: seq<Step>)
    ensures ValidRun(digest, EMPTY, first)
    ensures var w := Run(digest, EMPTY, first); ScanOf(w, scan) && MissingFiles(w.cas, scan) == {}
    ensures ValidRun(digest, Rebuilt(Run(digest, EMPTY, first), scan, 0), second)
    ensures var end := Run(digest, Rebuilt(Run(digest, EMPTY, first), scan, 0), second);
            Named(end, digest(data)) && digest(data) !in end.cas.files
  {
    first := StoredRun(digest, data);
    scan := Scan(map[], map[], 0);
    var w := Run(digest, EMPTY, first);
    ScanOfNothing(w);
    second := CommitAndCollectRun(digest, Rebuilt(w, scan, 0), digest(data));
  }

  // ---- Failures that separate rows from files ----

  /** Every row has its file, with its own content and size, and every file its row. */
  ghost predicate Backed(digest: Bytes -> Hash, s: State) {
    forall h :: BackedAt(digest, s, h)
  }

  /** A store keeps rows and files together unless the directory fails or a failed write leaves part of the file. */
  lemma StoreKeepsBackingExactly(digest: Bytes -> Hash, s: State, data: Bytes, contentType: string, now: int,
                                 write: FileWrite)
    requires Backed(digest, s)
    ensures Backed(digest, StoreOutcome(s, digest(data), data, contentType, now, write)) <==>
            StoreIsSafe(s, digest(data), write)
  {
    var h := digest(data);
    var s' := StoreOutcome(s, h, data, contentType, now, write);
    assert BackedAt(digest, s, h);
    forall k | k != h ensures BackedAt(digest, s', k) {
      assert BackedAt(digest, s, k);
    }
    assert BackedAt(digest, s', h) <==> StoreIsSafe(s, h, write);
  }

  /** A collection keeps rows and files together if and only if it did not stop between a file and its row. */
  lemma GcKeepsBackingExactly(digest: Bytes -> Hash, s: State, pruned: set<Hash>, unlinked: set<Hash>)
    requires Backed(digest, s) && pruned <= unlinked <= s.blobs.Keys
    ensures Backed(digest, AfterGcUntil(s, pruned, unlinked)) <==> unlinked == pruned
  {
    var s' := AfterGcUntil(s, pruned, unlinked);
    forall h ensures BackedAt(digest, s', h) <==> (h in unlinked ==> h in pruned) {
      assert BackedAt(digest, s, h);
    }
    if Backed(digest, s') {
      forall h | h in unlinked ensures h in pruned {
        assert BackedAt(digest, s', h);
      }
    }
  }

  /**
   * From the faults alone: a collection is sure to keep rows and files together if and only if no row it selects
   * can lose its file and not be deleted.
   */
  lemma GcIsSafeExactly(digest: Bytes -> Hash, s: State, cutoff: int, faults: GcFaults)
    requires Backed(digest, s)
    ensures (forall pruned, stuck :: Ends(s.files, Collectable(s, cutoff), faults, pruned, stuck) ==>
                                       Backed(digest, AfterGcUntil(s, pruned, Unlinked(pruned, stuck)))) <==>
            (forall h :: h in Collectable(s, cutoff) ==> !Sticks(s.files, faults, h))
  {
    var rows := Collectable(s, cutoff);
    forall pruned, stuck | Ends(s.files, rows, faults, pruned, stuck)
      ensures Backed(digest, AfterGcUntil(s, pruned, Unlinked(pruned, stuck))) <==> stuck.None?
    {
      GcKeepsBackingExactly(digest, s, pruned, Unlinked(pruned, stuck));
    }
    forall h | h in rows && Sticks(s.files, faults, h) ensures Ends(s.files, rows, faults, {}, Some(h)) {
    }
  }

  /**
   * A row without its file, however it came about, is never repaired by storing the bytes again: the store
   * succeeds, and leaves them on disk if and only if there was no row or the file was there.
   */
  lemma StoreWritesOnlyNewRows(s: State, h: Hash, data: Bytes, contentType: string, now: int)
    ensures var s' := StoreOutcome(s, h, data, contentType, now, Written);
            h in s'.blobs && (h in s'.files <==> h !in s.blobs || h in s.files)
  {
  }

  /** After an interrupted collection, then: the bytes are on disk exactly if it did not stop at that blob. */
  lemma StoreAfterInterruptedGc(digest: Bytes -> Hash, s: State, pruned: set<Hash>, unlinked: set<Hash>, data: Bytes,
                                contentType: string, now: int)
    requires Backed(digest, s) && pruned <= unlinked <= s.blobs.Keys
    ensures var h := digest(data);
            var s' := StoreOutcome(AfterGcUntil(s, pruned, unlinked), h, data, contentType, now, Written);
            h in s'.blobs && (h in s'.files <==> h !in unlinked - pruned)
  {
    assert BackedAt(digest, s, digest(data));
    StoreWritesOnlyNewRows(AfterGcUntil(s, pruned, unlinked), digest(data), data, contentType, now);
  }

  /** After a failed directory: a later store of the same bytes leaves them nowhere. */
  lemma StoreAfterNoDirectory(digest: Bytes -> Hash, s: State, data: Bytes, contentType: string, now: int)
    requires Backed(digest, s) && digest(data) !in s.blobs
    ensures var h := digest(data);
            var failed := StoreOutcome(s, h, data, contentType, now, NoDirectory);
            h !in StoreOutcome(failed, h, data, contentType, now, Written).files
  {
    assert BackedAt(digest, s, digest(data));
  }
}
