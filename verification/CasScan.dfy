/** The vault-wide recount: which hashes the pages and rubbish items name, how often, and with what type. */
module CasScan {
  import opened Common
  import opened Cas
  import CasWorld

  /** An element of the `[archive] blobs` array: a bare hash, a table, or anything else. */
  datatype BlobEntry = Legacy(hash: Hash) | Table(hashField: Option<Hash>, typeField: Option<string>) | Other

  /** The part of a page's frontmatter the scan reads. */
  datatype Meta = NoArchive | Archive(snapshot: Option<Hash>, blobs: seq<BlobEntry>)

  /** A scanned file. A page that parses with a repair warning still contributes its metadata. */
  datatype Doc = Readable(meta: Meta, warned: bool) | Unreadable

  predicate EntryNames(e: BlobEntry, h: Hash) {
    e == Legacy(h) || (e.Table? && e.hashField == Some(h))
  }

  /** The page mentions `h`, as its snapshot or in any array element. */
  predicate MetaNames(meta: Meta, h: Hash) {
    meta.Archive? && (meta.snapshot == Some(h) || exists i :: 0 <= i < |meta.blobs| && EntryNames(meta.blobs[i], h))
  }

  predicate DocNames(d: Doc, h: Hash) {
    d.Readable? && MetaNames(d.meta, h)
  }

  /** `captured_archive_hashes`: each hash once, however often the page repeats it. */
  method CapturedArchiveHashes(meta: Meta) returns (hashes: set<Hash>)
    ensures forall h :: h in hashes <==> MetaNames(meta, h)
  {
    hashes := {};
    if meta.Archive? {
      if meta.snapshot.Some? {
        hashes := {meta.snapshot.value};
      }
      for i := 0 to |meta.blobs|
        invariant forall h :: h in hashes <==>
                                meta.snapshot == Some(h) || exists j :: 0 <= j < i && EntryNames(meta.blobs[j], h)
      {
        var entry := meta.blobs[i];
        if entry.Legacy? {
          hashes := hashes + {entry.hash};
        } else if entry.Table? && entry.hashField.Some? {
          hashes := hashes + {entry.hashField.value};
        }
      }
    }
  }

  /** The type the last complete table entry for `h` declares. */
  function DeclaredType(blobs: seq<BlobEntry>, h: Hash): Option<string> {
    if blobs == [] then None
    else
      var last := blobs[|blobs| - 1];
      if last.Table? && last.hashField == Some(h) && last.typeField.Some? then last.typeField
      else DeclaredType(blobs[..|blobs| - 1], h)
  }

  method CapturedBlobTypes(meta: Meta) returns (types: map<Hash, string>)
    ensures forall h :: Lookup(types, h) == if meta.Archive? then DeclaredType(meta.blobs, h) else None
  {
    types := map[];
    if meta.Archive? {
      for i := 0 to |meta.blobs|
        invariant forall h :: Lookup(types, h) == DeclaredType(meta.blobs[..i], h)
      {
        assert meta.blobs[..i + 1][..i] == meta.blobs[..i];
        var entry := meta.blobs[i];
        if entry.Table? && entry.hashField.Some? && entry.typeField.Some? {
          types := types[entry.hashField.value := entry.typeField.value];
        }
      }
      assert meta.blobs[..|meta.blobs|] == meta.blobs;
    }
  }

  function Lookup(m: map<Hash, string>, h: Hash): Option<string> {
    if h in m then Some(m[h]) else None
  }

  /** What one page says about `h`'s type: its own declaration first, then `text/html` for its snapshot. */
  function DocType(d: Doc, h: Hash): Option<string> {
    if d.Unreadable? || d.meta.NoArchive? then None
    else if DeclaredType(d.meta.blobs, h).Some? then DeclaredType(d.meta.blobs, h)
    else if d.meta.snapshot == Some(h) then Some("text/html")
    else None
  }

  // ---- What a capture writes is what the scan reads ----

  /** The `[archive]` table a capture writes: its snapshot, and each resource as a table with hash and type. */
  function CaptureMeta(snapshot: Hash, resources: seq<(Hash, string)>): Meta {
    Archive(Some(snapshot), seq(|resources|, i requires 0 <= i < |resources| =>
                                               Table(Some(resources[i].0), Some(resources[i].1))))
  }

  /** The page of a capture names its snapshot, its resources, and nothing else. */
  lemma CaptureNames(snapshot: Hash, resources: seq<(Hash, string)>, h: Hash)
    ensures MetaNames(CaptureMeta(snapshot, resources), h) <==>
            h == snapshot || exists i :: 0 <= i < |resources| && resources[i].0 == h
  {
    var meta := CaptureMeta(snapshot, resources);
    forall i | 0 <= i < |resources| ensures EntryNames(meta.blobs[i], h) <==> resources[i].0 == h {
    }
    if i :| 0 <= i < |resources| && resources[i].0 == h {
      assert EntryNames(meta.blobs[i], h);
    }
  }

  /** And a page of the old form, with bare strings, names those. */
  lemma LegacyNames(hashes: seq<Hash>, h: Hash)
    ensures MetaNames(Archive(None, seq(|hashes|, i requires 0 <= i < |hashes| => Legacy(hashes[i]))), h) <==>
            h in hashes
  {
    var blobs := seq(|hashes|, i requires 0 <= i < |hashes| => Legacy(hashes[i]));
    if h in hashes {
      var i :| 0 <= i < |hashes| && hashes[i] == h;
      assert EntryNames(blobs[i], h);
    }
  }

  lemma {:induction false} NoDeclaredType(blobs: seq<BlobEntry>, h: Hash)
    requires forall i :: 0 <= i < |blobs| ==> !EntryNames(blobs[i], h)
    ensures DeclaredType(blobs, h).None?
  {
    if blobs != [] {
      assert !EntryNames(blobs[|blobs| - 1], h);
      NoDeclaredType(blobs[..|blobs| - 1], h);
    }
  }

  /** The last table that gives `h` a type decides it. */
  lemma {:induction false} LastTypeWins(blobs: seq<BlobEntry>, h: Hash, k: nat, t: string)
    requires k < |blobs| && blobs[k] == Table(Some(h), Some(t))
    requires forall j :: k < j < |blobs| ==> !EntryNames(blobs[j], h)
    ensures DeclaredType(blobs, h) == Some(t)
  {
    var n := |blobs| - 1;
    if k < n {
      assert !EntryNames(blobs[n], h);
      LastTypeWins(blobs[..n], h, k, t);
    }
  }

  /** Its types: a resource's own, the last one given; `text/html` for a snapshot that is no resource. */
  lemma CaptureTypes(snapshot: Hash, resources: seq<(Hash, string)>, h: Hash)
    ensures var given := DocType(Readable(CaptureMeta(snapshot, resources), false), h);
            && (forall k :: 0 <= k < |resources| && resources[k].0 == h
                            && (forall j :: k < j < |resources| ==> resources[j].0 != h) ==>
                              given == Some(resources[k].1))
            && ((forall k :: 0 <= k < |resources| ==> resources[k].0 != h) ==>
                  given == if h == snapshot then Some("text/html") else None)
  {
    var blobs := CaptureMeta(snapshot, resources).blobs;
    forall i | 0 <= i < |blobs| ensures EntryNames(blobs[i], h) <==> resources[i].0 == h {
    }
    forall k | 0 <= k < |resources| && resources[k].0 == h && forall j :: k < j < |resources| ==> resources[j].0 != h
      ensures DeclaredType(blobs, h) == Some(resources[k].1)
    {
      LastTypeWins(blobs, h, k, resources[k].1);
    }
    if forall k :: 0 <= k < |resources| ==> resources[k].0 != h {
      NoDeclaredType(blobs, h);
    }
  }

  // ---- Reference definitions over a whole list of files ----

  /** How many files mention `h`. */
  function Mentions(docs: seq<Doc>, h: Hash): nat {
    if docs == [] then 0
    else Mentions(docs[..|docs| - 1], h) + if DocNames(docs[|docs| - 1], h) then 1 else 0
  }

  /** The earliest type any file gives `h`: the first writer wins. */
  function FirstType(docs: seq<Doc>, h: Hash): Option<string> {
    if docs == [] then None
    else if FirstType(docs[..|docs| - 1], h).Some? then FirstType(docs[..|docs| - 1], h)
    else DocType(docs[|docs| - 1], h)
  }

  function Warnings(docs: seq<Doc>): nat {
    if docs == [] then 0
    else Warnings(docs[..|docs| - 1]) + if docs[|docs| - 1].Unreadable? || docs[|docs| - 1].warned then 1 else 0
  }

  /** A scan that accounts for exactly the files in `docs`. */
  ghost predicate Accounts(scan: Scan, docs: seq<Doc>) {
    && (forall h :: RefsOf(scan, h) == Mentions(docs, h))
    && (forall h :: h in scan.refs ==> scan.refs[h] > 0)
    && (forall h :: Lookup(scan.types, h) == FirstType(docs, h))
    && scan.warnings == Warnings(docs)
  }

  method CountRefs(refs: map<Hash, nat>, hashes: set<Hash>) returns (refs': map<Hash, nat>)
    requires forall h :: h in refs ==> refs[h] > 0
    ensures forall h :: h in refs' <==> h in refs || h in hashes
    ensures forall h :: h in refs' ==>
                          refs'[h] == (if h in refs then refs[h] else 0) + if h in hashes then 1 else 0
  {
    refs' := refs;
    var todo := hashes;
    while todo != {}
      invariant todo <= hashes
      invariant forall h :: h in refs' <==> h in refs || (h in hashes && h !in todo)
      invariant forall h :: h in refs' ==>
                              refs'[h] == (if h in refs then refs[h] else 0)
                                          + if h in hashes && h !in todo then 1 else 0
    {
      var h :| h in todo;
      refs' := refs'[h := (if h in refs' then refs'[h] else 0) + 1];
      todo := todo - {h};
    }
  }

  /** `scan_page_content` on one readable file. */
  method ScanPageContent(d: Doc, scan: Scan, ghost docs: seq<Doc>) returns (scan': Scan)
    requires d.Readable? && Accounts(scan, docs)
    ensures Accounts(scan', docs + [d])
  {
    assert (docs + [d])[..|docs|] == docs;
    var hashes := CapturedArchiveHashes(d.meta);
    var refs := CountRefs(scan.refs, hashes);
    var declared := CapturedBlobTypes(d.meta);
    var types := declared + scan.types;
    if d.meta.Archive? && d.meta.snapshot.Some? && d.meta.snapshot.value !in types {
      types := types[d.meta.snapshot.value := "text/html"];
    }
    scan' := Scan(refs, types, scan.warnings + if d.warned then 1 else 0);
    forall h ensures RefsOf(scan', h) == Mentions(docs + [d], h) {
      assert RefsOf(scan, h) == Mentions(docs, h);
    }
    forall h ensures Lookup(scan'.types, h) == FirstType(docs + [d], h) {
      assert Lookup(scan.types, h) == FirstType(docs, h);
      assert Lookup(declared, h) == if d.meta.Archive? then DeclaredType(d.meta.blobs, h) else None;
    }
  }

  /** `scan_archive_refs`: the live pages in path order, then the rubbish items. */
  method ScanArchiveRefs(pages: seq<Doc>, items: seq<Doc>) returns (scan: Scan)
    ensures Accounts(scan, pages + items)
  {
    var docs := pages + items;
    scan := Scan(map[], map[], 0);
    for i := 0 to |docs|
      invariant Accounts(scan, docs[..i])
    {
      assert docs[..i + 1] == docs[..i] + [docs[i]];
      if docs[i].Readable? {
        scan := ScanPageContent(docs[i], scan, docs[..i]);
      } else {
        assert docs[..i + 1][..i] == docs[..i];
        ghost var before := scan;
        scan := scan.(warnings := scan.warnings + 1);
        assert forall h :: RefsOf(scan, h) == RefsOf(before, h);
      }
    }
    assert docs[..|docs|] == docs;
  }

  // ---- The recount seen from the accounting world ----

  /** `docs` lists, without warnings, one file per key of `owners` naming exactly that owner's hashes. */
  ghost predicate Lists(docs: seq<Doc>, ids: seq<nat>, owners: map<nat, set<Hash>>) {
    && |docs| == |ids| && Distinct(ids) && Warnings(docs) == 0
    && (forall k :: k in owners <==> k in ids)
    && (forall i, h :: 0 <= i < |docs| && ids[i] in owners ==> (DocNames(docs[i], h) <==> h in owners[ids[i]]))
  }

  lemma {:induction false} MentionsCountOwners(docs: seq<Doc>, ids: seq<nat>, owners: map<nat, set<Hash>>, h: Hash)
    requires Lists(docs, ids, owners)
    ensures Mentions(docs, h) == |Naming(owners, h)|
    decreases |docs|
  {
    if docs == [] {
      NamingNone(owners, h);
    } else {
      var n := |docs| - 1;
      var k := ids[n];
      assert k in ids;
      forall j | j in ids ensures j in ids[..n] || j == k {
        assert ids == ids[..n] + [k];
      }
      assert k !in ids[..n];
      MentionsCountOwners(docs[..n], ids[..n], owners - {k}, h);
      NamingRemove(owners, k, h);
    }
  }

  lemma {:induction false} MentionsConcat(a: seq<Doc>, b: seq<Doc>, h: Hash)
    ensures Mentions(a + b, h) == Mentions(a, h) + Mentions(b, h)
    ensures Warnings(a + b) == Warnings(a) + Warnings(b)
    decreases |b|
  {
    if b == [] {
      assert a + b == a;
    } else {
      var n := |b| - 1;
      assert (a + b)[..|a + b| - 1] == a + b[..n];
      MentionsConcat(a, b[..n], h);
    }
  }

  /** The owners a walk missed. */
  function Unseen(m: map<nat, set<Hash>>, hidden: set<nat>): map<nat, set<Hash>> {
    map k | k in m && k in hidden :: m[k]
  }

  lemma NamingSplit(m: map<nat, set<Hash>>, hidden: set<nat>, h: Hash)
    ensures |Naming(m, h)| == |Naming(m - hidden, h)| + |Naming(Unseen(m, hidden), h)|
  {
    var seen, unseen := Naming(m - hidden, h), Naming(Unseen(m, hidden), h);
    assert Naming(m, h) == seen + unseen && seen !! unseen;
  }

  /** What the scan counts when the walk missed some owners without a warning, as below an unreadable directory. */
  lemma ScanCount(w: CasWorld.World, pages: seq<Doc>, pageIds: seq<nat>, noPages: set<nat>,
                  items: seq<Doc>, itemIds: seq<nat>, noItems: set<nat>, scan: Scan, h: Hash)
    requires noPages <= w.pages.Keys && noItems <= w.items.Keys
    requires Lists(pages, pageIds, w.pages - noPages) && Lists(items, itemIds, w.items - noItems)
    requires Accounts(scan, pages + items)
    ensures RefsOf(scan, h) + |Naming(Unseen(w.pages, noPages), h)| + |Naming(Unseen(w.items, noItems), h)| ==
            |Naming(w.pages, h)| + |Naming(w.items, h)|
  {
    MentionsConcat(pages, items, h);
    MentionsCountOwners(pages, pageIds, w.pages - noPages, h);
    MentionsCountOwners(items, itemIds, w.items - noItems, h);
    NamingSplit(w.pages, noPages, h);
    NamingSplit(w.items, noItems, h);
  }

  /**
   * The scan of a world's files is the recount its rebuild relies on if and only if the pages and items the walk
   * missed, if any, name no blob.
   */
  lemma ScanIsRecount(w: CasWorld.World, pages: seq<Doc>, pageIds: seq<nat>, noPages: set<nat>,
                      items: seq<Doc>, itemIds: seq<nat>, noItems: set<nat>, scan: Scan)
    requires noPages <= w.pages.Keys && noItems <= w.items.Keys
    requires Lists(pages, pageIds, w.pages - noPages) && Lists(items, itemIds, w.items - noItems)
    requires Accounts(scan, pages + items)
    ensures CasWorld.ScanOf(w, scan) <==>
            (forall k :: k in noPages ==> w.pages[k] == {}) && (forall k :: k in noItems ==> w.items[k] == {})
  {
    var lostPages, lostItems := Unseen(w.pages, noPages), Unseen(w.items, noItems);
    MentionsConcat(pages, items, "");
    forall h
      ensures RefsOf(scan, h) == |Naming(w.pages, h)| + |Naming(w.items, h)| <==>
              (forall k :: k in lostPages ==> h !in lostPages[k]) && (forall k :: k in lostItems ==> h !in lostItems[k])
    {
      ScanCount(w, pages, pageIds, noPages, items, itemIds, noItems, scan, h);
      NamingNone(lostPages, h);
      NamingNone(lostItems, h);
    }
    if CasWorld.ScanOf(w, scan) {
      forall k, h | k in noPages ensures h !in w.pages[k] {
        assert RefsOf(scan, h) == |Naming(w.pages, h)| + |Naming(w.items, h)|;
        assert k in lostPages;
      }
      forall k, h | k in noItems ensures h !in w.items[k] {
        assert RefsOf(scan, h) == |Naming(w.pages, h)| + |Naming(w.items, h)|;
        assert k in lostItems;
      }
    }
  }
}
