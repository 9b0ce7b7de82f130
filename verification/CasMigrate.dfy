/** The one-time move of the store into the vault: copy every referenced blob, verify it, then rebuild. */
module CasMigrate {
  import opened Common
  import opened Cas

  /** What sits at a blob's path in the old store: a readable file, or something that cannot be read. */
  datatype SourceEntry = Readable(bytes: Bytes) | Unreadable

  datatype Job = Job(
    source: map<Hash, SourceEntry>,
    listed: set<Hash>,       // blob files a listing of the old store finds
    dest: map<Hash, Bytes>,
    unwritable: set<Hash>,   // hashes whose destination write fails
    write: bool)

  datatype Outcome = Malformed | AlreadyPresent | Missing | Failed | Corrupt | Copied

  datatype Report = Report(
    copied: seq<Hash>, alreadyPresent: seq<Hash>, missing: seq<Hash>, corrupt: seq<Hash>, failed: seq<Hash>,
    malformed: seq<Hash>, bytesCopied: nat, orphansLeft: nat)

  /** What happens to one referenced hash. */
  ghost function Fate(digest: Bytes -> Hash, job: Job, h: Hash): Outcome {
    if !ValidHash(h) then Malformed
    else if h in job.dest then AlreadyPresent
    else if h !in job.source then Missing
    else if job.source[h].Unreadable? then Failed
    else if digest(job.source[h].bytes) != h then Corrupt
    else if job.write && h in job.unwritable then Failed
    else Copied
  }

  function SizeOf(job: Job, h: Hash): nat {
    if h in job.source && job.source[h].Readable? then |job.source[h].bytes| else 0
  }

  function TotalSize(job: Job, hs: seq<Hash>): nat {
    if hs == [] then 0 else TotalSize(job, hs[..|hs| - 1]) + SizeOf(job, hs[|hs| - 1])
  }

  ghost predicate Collects(digest: Bytes -> Hash, job: Job, refs: seq<Hash>, list: seq<Hash>, o: Outcome) {
    && Distinct(list)
    && forall h :: h in list <==> h in refs && Fate(digest, job, h) == o
  }

  /** The report sorts `refs` into its lists, each hash once. */
  ghost predicate Lists(digest: Bytes -> Hash, job: Job, refs: seq<Hash>, r: Report) {
    && Collects(digest, job, refs, r.copied, Copied)
    && Collects(digest, job, refs, r.alreadyPresent, AlreadyPresent)
    && Collects(digest, job, refs, r.missing, Missing)
    && Collects(digest, job, refs, r.corrupt, Corrupt)
    && Collects(digest, job, refs, r.failed, Failed)
    && Collects(digest, job, refs, r.malformed, Malformed)
  }

  /** The destination gained exactly the copies, each with the content its hash was computed from. */
  ghost predicate Gained(digest: Bytes -> Hash, job: Job, r: Report, dest: map<Hash, Bytes>) {
    && (forall h :: h in dest <==> h in job.dest || (job.write && h in r.copied))
    && (forall h :: h in job.dest && h in dest ==> dest[h] == job.dest[h])
    && (forall h :: h in dest && h !in job.dest ==> digest(dest[h]) == h)
    && r.bytesCopied == TotalSize(job, r.copied)
  }

  ghost predicate Sorted(digest: Bytes -> Hash, job: Job, refs: seq<Hash>, r: Report, dest: map<Hash, Bytes>) {
    Lists(digest, job, refs, r) && Gained(digest, job, r, dest)
  }

  /** The report with `h` added to the list of outcome `o`. */
  function Filed(job: Job, r: Report, h: Hash, o: Outcome): Report {
    match o
    case Malformed => r.(malformed := r.malformed + [h])
    case AlreadyPresent => r.(alreadyPresent := r.alreadyPresent + [h])
    case Missing => r.(missing := r.missing + [h])
    case Failed => r.(failed := r.failed + [h])
    case Corrupt => r.(corrupt := r.corrupt + [h])
    case Copied => r.(copied := r.copied + [h], bytesCopied := r.bytesCopied + SizeOf(job, h))
  }

  lemma Extend(digest: Bytes -> Hash, job: Job, refs: seq<Hash>, h: Hash, list: seq<Hash>, o: Outcome)
    requires h !in refs && Collects(digest, job, refs, list, o)
    ensures Collects(digest, job, refs + [h], if Fate(digest, job, h) == o then list + [h] else list, o)
  {
    assert h !in list;
  }

  lemma ListsExtend(digest: Bytes -> Hash, job: Job, refs: seq<Hash>, r: Report, h: Hash)
    requires h !in refs && Lists(digest, job, refs, r)
    ensures Lists(digest, job, refs + [h], Filed(job, r, h, Fate(digest, job, h)))
  {
    Extend(digest, job, refs, h, r.copied, Copied);
    Extend(digest, job, refs, h, r.alreadyPresent, AlreadyPresent);
    Extend(digest, job, refs, h, r.missing, Missing);
    Extend(digest, job, refs, h, r.corrupt, Corrupt);
    Extend(digest, job, refs, h, r.failed, Failed);
    Extend(digest, job, refs, h, r.malformed, Malformed);
  }

  lemma GainedExtend(digest: Bytes -> Hash, job: Job, r: Report, dest: map<Hash, Bytes>, h: Hash)
    requires Gained(digest, job, r, dest)
    ensures var o := Fate(digest, job, h);
            var dest' := if o == Copied && job.write then dest[h := job.source[h].bytes] else dest;
            Gained(digest, job, Filed(job, r, h, o), dest')
  {
    var copied := r.copied + [h];
    assert copied[..|r.copied|] == r.copied;
  }

  /** The body of `migrate`'s loop for one referenced hash. */
  method MigrateOne(digest: Bytes -> Hash, job: Job, h: Hash, r: Report, dest: map<Hash, Bytes>)
    returns (r': Report, dest': map<Hash, Bytes>)
    requires h in dest <==> h in job.dest
    ensures var o := Fate(digest, job, h);
            && r' == Filed(job, r, h, o)
            && dest' == if o == Copied && job.write then dest[h := job.source[h].bytes] else dest
  {
    dest' := dest;
    if BlobRelativePath(h).None? {
      r' := r.(malformed := r.malformed + [h]);
    } else if h in dest {
      r' := r.(alreadyPresent := r.alreadyPresent + [h]);
    } else if h !in job.source {
      r' := r.(missing := r.missing + [h]);
    } else {
      match job.source[h]
      case Unreadable => r' := r.(failed := r.failed + [h]);
      case Readable(bytes) =>
        if digest(bytes) != h {
          r' := r.(corrupt := r.corrupt + [h]);
        } else if job.write && h in job.unwritable {
          r' := r.(failed := r.failed + [h]);
        } else {
          if job.write {
            dest' := dest[h := bytes];
          }
          r' := r.(copied := r.copied + [h], bytesCopied := r.bytesCopied + |bytes|);
        }
    }
  }

  /** Blob files of the old store that nothing references. */
  function Orphans(job: Job, refs: seq<Hash>): set<Hash> {
    set h | h in job.listed && h !in refs
  }

  /** `migrate` over the referenced hashes in key order. */
  method Migrate(digest: Bytes -> Hash, job: Job, refs: seq<Hash>) returns (r: Report, dest: map<Hash, Bytes>)
    requires Distinct(refs)
    ensures Sorted(digest, job, refs, r, dest)
    ensures r.orphansLeft == |set h | h in job.listed && h !in refs|
  {
    r, dest := Report([], [], [], [], [], [], 0, 0), job.dest;
    for i := 0 to |refs|
      invariant Sorted(digest, job, refs[..i], r, dest)
    {
      assert refs[..i + 1] == refs[..i] + [refs[i]];
      ListsExtend(digest, job, refs[..i], r, refs[i]);
      GainedExtend(digest, job, r, dest, refs[i]);
      r, dest := MigrateOne(digest, job, refs[i], r, dest);
    }
    assert refs[..|refs|] == refs;
    r := r.(orphansLeft := |Orphans(job, refs)|);
  }

  /** The type a hash ends up with: the page's own, else the old store's if the hash is referenced. */
  function FilledType(scan: Scan, source: map<Hash, string>, h: Hash): Option<string> {
    if h in scan.types then Some(scan.types[h])
    else if h in scan.refs && h in source then Some(source[h])
    else None
  }

  /** `fill_types_from_source_db`: fills gaps only, and counts them. */
  method FillTypes(scan: Scan, source: map<Hash, string>) returns (scan': Scan, filled: nat)
    ensures scan'.refs == scan.refs && scan'.warnings == scan.warnings
    ensures forall h :: (h in scan'.types <==> FilledType(scan, source, h).Some?)
                        && (h in scan'.types ==> FilledType(scan, source, h) == Some(scan'.types[h]))
    ensures filled == |scan'.types| - |scan.types|
  {
    var untyped := scan.refs.Keys - scan.types.Keys;
    var types := scan.types;
    filled := 0;
    var todo := untyped;
    while todo != {}
      invariant todo <= untyped
      invariant forall h :: h in types <==> h in scan.types || (h in untyped && h !in todo && h in source)
      invariant forall h :: h in types ==> types[h] == if h in scan.types then scan.types[h] else source[h]
      invariant filled == |types| - |scan.types|
    {
      var h :| h in todo;
      if h in source {
        types := types[h := source[h]];
        filled := filled + 1;
      }
      todo := todo - {h};
    }
    scan' := scan.(types := types);
  }

  /** Each list in the job's own terms. */
  lemma ReportMeans(digest: Bytes -> Hash, job: Job, refs: seq<Hash>, r: Report, dest: map<Hash, Bytes>, h: Hash)
    requires Sorted(digest, job, refs, r, dest) && h in refs
    ensures h in r.malformed <==> !ValidHash(h)
    ensures h in r.alreadyPresent <==> ValidHash(h) && h in job.dest
    ensures h in r.missing <==> ValidHash(h) && h !in job.dest && h !in job.source
    ensures h in r.corrupt <==>
            && ValidHash(h) && h !in job.dest && h in job.source
            && job.source[h].Readable? && digest(job.source[h].bytes) != h
    ensures h in r.failed <==>
            && ValidHash(h) && h !in job.dest && h in job.source
            && (job.source[h].Unreadable?
                || (digest(job.source[h].bytes) == h && job.write && h in job.unwritable))
    ensures h in r.copied <==>
            && ValidHash(h) && h !in job.dest && h in job.source
            && job.source[h].Readable? && digest(job.source[h].bytes) == h && !(job.write && h in job.unwritable)
    ensures h in r.copied && job.write ==> h in dest && digest(dest[h]) == h
  {
  }

  function One(b: bool): nat {
    if b then 1 else 0
  }

  /** Every well-formed referenced hash is in exactly one of the five lists. */
  lemma ExactlyOneList(digest: Bytes -> Hash, job: Job, refs: seq<Hash>, r: Report, dest: map<Hash, Bytes>, h: Hash)
    requires Sorted(digest, job, refs, r, dest) && h in refs && ValidHash(h)
    ensures One(h in r.copied) + One(h in r.alreadyPresent) + One(h in r.missing) + One(h in r.corrupt)
            + One(h in r.failed) == 1
    ensures h !in r.malformed
  {
    match Fate(digest, job, h)
    case AlreadyPresent => assert h in r.alreadyPresent;
    case Missing => assert h in r.missing;
    case Failed => assert h in r.failed;
    case Corrupt => assert h in r.corrupt;
    case Copied => assert h in r.copied;
  }

  /**
   * A dry run writes nothing, and a write run of the same job then differs only where a write fails:
   * those hashes, planned as copies, end up failed.
   */
  lemma DryRunPredictsWriteRun(digest: Bytes -> Hash, job: Job, refs: seq<Hash>, dry: Report, dryDest: map<Hash, Bytes>,
                               wet: Report, wetDest: map<Hash, Bytes>)
    requires Sorted(digest, job.(write := false), refs, dry, dryDest)
    requires Sorted(digest, job.(write := true), refs, wet, wetDest)
    ensures dryDest == job.dest
    ensures forall h :: h in wet.copied <==> h in dry.copied && h !in job.unwritable
    ensures forall h :: h in wet.failed <==> h in dry.failed || (h in dry.copied && h in job.unwritable)
    ensures forall h :: (h in wet.missing <==> h in dry.missing) && (h in wet.corrupt <==> h in dry.corrupt)
    ensures forall h :: h in wet.alreadyPresent <==> h in dry.alreadyPresent
  {
    forall h
      ensures Fate(digest, job.(write := true), h) ==
              if Fate(digest, job.(write := false), h) == Copied && h in job.unwritable then Failed
              else Fate(digest, job.(write := false), h)
    {
    }
  }

  /**
   * After a write run the destination's rebuild reports as missing exactly the missing, corrupt, failed
   * and malformed hashes: nothing referenced is silently lost, nothing copied is reported.
   */
  lemma RebuildMissesExactlyTheUncopied(digest: Bytes -> Hash, job: Job, refs: seq<Hash>, r: Report,
                                        dest: map<Hash, Bytes>, scan: Scan, s: State)
    requires Sorted(digest, job, refs, r, dest) && job.write
    requires forall h :: h in job.dest ==> ValidHash(h)
    requires forall h :: h in scan.refs <==> h in refs
    requires s.files == dest
    ensures forall h :: h in MissingFiles(s, scan) <==>
                          h in r.missing || h in r.corrupt || h in r.failed || h in r.malformed
  {
    forall h
      ensures h in MissingFiles(s, scan) <==> h in r.missing || h in r.corrupt || h in r.failed || h in r.malformed
    {
      assert h in r.copied <==> h in refs && Fate(digest, job, h) == Copied;
      assert h in r.alreadyPresent <==> h in refs && Fate(digest, job, h) == AlreadyPresent;
    }
  }
}
