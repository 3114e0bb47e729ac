/** The sync sub-command: walk the document root and make sure every file is
    archived (registering new files and renaming entries whose content
    moved), then, for every locked entry whose file is missing, request a
    retrieval job or, once one is pending, download, decrypt, check and
    restore the file. Without `doRun` nothing is uploaded, renamed,
    requested or restored. */
module Sync {
  import opened Common
  import opened Paths
  import opened Disk
  import opened Crypt
  import opened Catalog
  import opened Upload
  import opened Download
  import opened Chunking
  import opened Regist
  import opened Config

  /** What the service and the disk do that the model cannot see: the upload
      outcomes for each encrypted file, the retrieval job started for each
      archive id, the job answers for each job id, the buffers whose write
      fails for each written file, and the error opening the AWS session of
      a new manager (if any). */
  datatype Services = Services(upload: string -> UploadEnv, retrieve: string -> Result<string>,
                               download: string -> DownloadEnv, writeFails: string -> set<nat>,
                               session: Option<Error>)

  /** The upload workers finish in some order of their chunks. */
  ghost predicate Ready(sv: Services) {
    forall p :: Scheduled(sv.upload(p))
  }

  /** What keepInGlacier decides for a file, before it writes anything. */
  datatype Keep =
    | Tracked(unlocked: bool)          // an entry has this name (a warning when it is not locked)
    | Relink(id: int, oldName: string) // an entry has this content under another name
    | RegisterNew                      // neither: the file is new
    | KeepFailed(error: Error)         // a lookup or the digest failed

  /** keepInGlacier's lookups: by name, then by the MD5 of the file's
      content. */
  function Decide(prims: Primitives, cat: Catalog, fs: FileSystem, docRoot: string, relPath: string): (k: Keep)
    reads cat, fs
    ensures k.Tracked? <==> cat.FindEntryByName(relPath).Ok? && cat.FindEntryByName(relPath).value.Some?
    ensures k.Tracked? ==> k.unlocked == (cat.FindEntryByName(relPath).value.value.lock == 0)
    ensures (k.Relink? || k.RegisterNew?) <==>
              && cat.FindEntryByName(relPath) == Ok(None)
              && GetMD5(prims, fs, Join(docRoot, relPath)).Ok?
              && cat.FindEntryByMD5(GetMD5(prims, fs, Join(docRoot, relPath)).value).Ok?
    ensures k.RegisterNew? ==> forall j :: 0 <= j < |cat.entries| ==> !Matches(cat.entries[j], ByName(relPath))
    ensures k.RegisterNew? ==> forall j :: 0 <= j < |cat.entries| ==>
              cat.entries[j].md5sum != Some(Hex(prims.md5(fs.files[Join(docRoot, relPath)].content)))
    ensures k.Relink? ==> var i := FirstMatch(cat.entries, ByMd5(Hex(prims.md5(fs.files[Join(docRoot, relPath)].content))));
              && 0 <= i < |cat.entries| && cat.entries[i].id == k.id && cat.entries[i].name == k.oldName
              && cat.entries[i].name != relPath && Scan(cat.entries[i]).Ok?
  {
    match cat.FindEntryByName(relPath)
    case Err(e) => KeepFailed(e)
    case Ok(Some(ent)) => Tracked(ent.lock == 0)
    case Ok(None) =>
      match GetMD5(prims, fs, Join(docRoot, relPath))
      case Err(e) => KeepFailed(e)
      case Ok(sum) =>
        match cat.FindEntryByMD5(sum)
        case Err(e) => KeepFailed(e)
        case Ok(Some(ent)) => Relink(ent.id, ent.name)
        case Ok(None) => RegisterNew
  }

  /** Renaming the first entry with some content to a name no entry had
      makes that entry the one the name finds, and it still scans. */
  lemma {:induction false} RelinkIsFound(rows: seq<Row>, k: int, name: string)
    requires AscendingIds(rows)
    requires 0 <= k < |rows| && Scan(rows[k]).Ok?
    requires forall j :: 0 <= j < |rows| ==> !Matches(rows[j], ByName(name))
    ensures var renamed := Updated(rows, rows[k].id, (row: Row) => row.(name := name));
            && FirstMatch(renamed, ByName(name)) == k
            && Scan(renamed[k]) == Ok(Scan(rows[k]).value.(name := name))
  {
    var renamed := Updated(rows, rows[k].id, (row: Row) => row.(name := name));
    assert Matches(renamed[k], ByName(name));
    forall j | 0 <= j < k
      ensures !Matches(renamed[j], ByName(name))
    {
      assert rows[j].id < rows[k].id;
    }
  }

  /** Renaming an entry away from a name no other entry carries leaves
      that name unmatched: its next lookup by name finds nothing. */
  lemma {:induction false} RelinkReleasesOldName(rows: seq<Row>, k: int, name: string)
    requires AscendingIds(rows)
    requires 0 <= k < |rows| && rows[k].name != name
    requires forall j :: 0 <= j < |rows| && j != k ==> rows[j].name != rows[k].name
    ensures FirstMatch(Updated(rows, rows[k].id, (row: Row) => row.(name := name)), ByName(rows[k].name)) == -1
  {
    var renamed := Updated(rows, rows[k].id, (row: Row) => row.(name := name));
    forall j | 0 <= j < |rows|
      ensures !Matches(renamed[j], ByName(rows[k].name))
    {
      if j != k {
        assert rows[j].id != rows[k].id by {
          if j < k { assert rows[j].id < rows[k].id; } else { assert rows[k].id < rows[j].id; }
        }
      }
    }
  }

  /** A file moved from `a` to `b`: the entry of `a` is the first with the
      file's digest, and no entry is named `b`. Sync relinks that entry to
      `b` instead of uploading the file again; afterwards `b` finds the
      entry and, when `a` named only that entry, `a` finds nothing. */
  lemma MovedFileIsRelinked(prims: Primitives, cat: Catalog, fs: FileSystem, docRoot: string, a: string, b: string)
    requires cat.Valid()
    requires forall j :: 0 <= j < |cat.entries| ==> cat.entries[j].name != b
    requires Join(docRoot, b) in fs.files && Join(docRoot, b) !in fs.statFaults
    requires var i := FirstMatch(cat.entries, ByMd5(Hex(prims.md5(fs.files[Join(docRoot, b)].content))));
             i >= 0 && cat.entries[i].name == a && Scan(cat.entries[i]).Ok?
    ensures var i := FirstMatch(cat.entries, ByMd5(Hex(prims.md5(fs.files[Join(docRoot, b)].content))));
            var renamed := Updated(cat.entries, cat.entries[i].id, (row: Row) => row.(name := b));
            && Decide(prims, cat, fs, docRoot, b) == Relink(cat.entries[i].id, a)
            && FirstMatch(renamed, ByName(b)) == i && Scan(renamed[i]).Ok?
            && ((forall j :: 0 <= j < |cat.entries| && j != i ==> cat.entries[j].name != a) ==>
                  FirstMatch(renamed, ByName(a)) == -1)
  {
    var i := FirstMatch(cat.entries, ByMd5(Hex(prims.md5(fs.files[Join(docRoot, b)].content))));
    RelinkIsFound(cat.entries, i, b);
    if forall j :: 0 <= j < |cat.entries| && j != i ==> cat.entries[j].name != a {
      RelinkReleasesOldName(cat.entries, i, b);
    }
  }

  /** keepInGlacier. The encrypted file's upload and writes follow `sv`. */
  method KeepInGlacier(prims: Primitives, cfg: Config, fs: FileSystem, cat: Catalog, rng: Entropy, relPath: string,
                       doRun: bool, sv: Services) returns (o: Outcome)
    modifies fs, cat, rng
    requires cat.Valid() && Ready(sv)
    ensures cat.Valid()
    ensures cat.requests == old(cat.requests) && cat.comments == old(cat.comments)
    ensures var k := old(Decide(prims, cat, fs, cfg.docRoot, relPath));
            && (k.Tracked? ==> o == Pass && unchanged(fs, cat, rng))
            && (k.KeepFailed? ==> o == Fail(k.error) && unchanged(fs, cat, rng))
            && (k.Relink? ==> && unchanged(fs, rng) && cat.ivs == old(cat.ivs)
                              && (!doRun ==> o == Pass && cat.entries == old(cat.entries))
                              && (doRun ==> && (o.Pass? <==> ("name", k.id) !in cat.faults)
                                            && cat.entries == if o.Pass? then Updated(old(cat.entries), k.id, (row: Row) => row.(name := relPath))
                                                              else old(cat.entries)))
            && (k.RegisterNew? && !doRun ==> o == Pass && unchanged(fs, cat, rng))
            && (k.RegisterNew? && doRun ==>
                  RegisteredOnce(relPath, o, Tables(old(cat.entries), old(cat.ivs), old(rng.pool)), Tables(cat.entries, cat.ivs, rng.pool)))
    ensures !doRun ==> o == Pass || o == Fail(old(Decide(prims, cat, fs, cfg.docRoot, relPath)).error)
    ensures !doRun ==> unchanged(fs, cat, rng)
    ensures doRun && o.Pass? ==> cat.FindEntryByName(relPath).Ok? && cat.FindEntryByName(relPath).value.Some?
  {
    ghost var k := Decide(prims, cat, fs, cfg.docRoot, relPath);
    var ent := cat.FindEntryByName(relPath);
    if ent.Err? {
      return Fail(ent.error);
    }
    if ent.value.Some? {
      // an entry with lock 0 is only reported
      return Pass;
    }
    var fullPath := Join(cfg.docRoot, relPath);
    var md5sum := GetMD5(prims, fs, fullPath);
    if md5sum.Err? {
      return Fail(md5sum.error);
    }
    var same := cat.FindEntryByMD5(md5sum.value);
    if same.Err? {
      return Fail(same.error);
    }
    if same.value.Some? {
      o := Pass;
      if doRun {
        ghost var rows := cat.entries;
        ghost var i := FirstMatch(rows, ByMd5(md5sum.value));
        o := cat.UpdateName(same.value.value.id, relPath);
        if o.Pass? {
          RelinkIsFound(rows, i, relPath);
        }
      }
      return;
    }
    o := Pass;
    if doRun {
      var encFilePath := fullPath + ".enc";
      var calls;
      o, calls := RegisterKeepingRows(prims, fs, cat, rng, cfg.docRoot, relPath, cfg.key,
                                      sv.upload(encFilePath), sv.writeFails(encFilePath));
    }
  }

  /** The walk visits keepInGlacier is called for: regular files other than
      the root, up to the first visit that carries an error. */
  predicate IsFileVisit(v: Visit) {
    v.err.None? && v.relPath != "." && !v.isDir
  }

  function FileVisits(visits: seq<Visit>): (r: seq<string>)
    ensures |r| <= |visits|
    ensures forall p :: p in r ==> exists v :: v in visits && IsFileVisit(v) && v.relPath == p
  {
    if visits == [] then []
    else
      var last := visits[|visits| - 1];
      var r := FileVisits(visits[..|visits| - 1]);
      if IsFileVisit(last) then r + [last.relPath] else r
  }

  /** The walk stopped at visit k with error e, having handled the files
      before it: either visit k carried e, or it is the file keepInGlacier
      failed for. */
  ghost predicate StoppedAt(visits: seq<Visit>, k: int, e: Error, handled: seq<string>) {
    && 0 <= k < |visits|
    && (forall j :: 0 <= j < k ==> visits[j].err.None?)
    && (visits[k].err.Some? ==> e == visits[k].err.value && handled == FileVisits(visits[..k]))
    && (visits[k].err.None? ==> IsFileVisit(visits[k]) && handled == FileVisits(visits[..k + 1]))
  }

  /** keepInGlacier as the walk sees it: the catalog stays valid, and a dry
      run changes nothing and fails exactly when a lookup or the digest
      does. */
  method KeepFile(prims: Primitives, cfg: Config, fs: FileSystem, cat: Catalog, rng: Entropy, relPath: string,
                  doRun: bool, sv: Services) returns (o: Outcome)
    modifies fs, cat, rng
    requires cat.Valid() && Ready(sv)
    ensures cat.Valid()
    ensures cat.requests == old(cat.requests) && cat.comments == old(cat.comments)
    ensures !doRun ==> unchanged(fs, cat, rng)
    ensures !doRun ==> o == DryKeep(old(Decide(prims, cat, fs, cfg.docRoot, relPath)))
  {
    o := KeepInGlacier(prims, cfg, fs, cat, rng, relPath, doRun, sv);
  }

  /** What keepInGlacier returns in a dry run, by its decision. */
  function DryKeep(k: Keep): Outcome {
    if k.KeepFailed? then Fail(k.error) else Pass
  }

  /** What checkUpl returns in a dry run, where nothing is written and every
      lookup sees the same catalog and files: the error of the first visit
      that carries one, or of the first file keepInGlacier's lookups fail
      for, whichever comes first; otherwise success. */
  ghost function DryRun(prims: Primitives, cat: Catalog, fs: FileSystem, docRoot: string, visits: seq<Visit>): Outcome
    reads cat, fs
    decreases |visits|
  {
    if visits == [] then Pass
    else if visits[0].err.Some? then Fail(visits[0].err.value)
    else if IsFileVisit(visits[0]) && DryKeep(Decide(prims, cat, fs, docRoot, visits[0].relPath)).Fail?
    then DryKeep(Decide(prims, cat, fs, docRoot, visits[0].relPath))
    else DryRun(prims, cat, fs, docRoot, visits[1..])
  }

  /** checkUpl: the walk stops at the first visit with an error, or at the
      first file keepInGlacier fails for; `handled` lists the files
      keepInGlacier was called for, in walk order. */
  method CheckUpl(prims: Primitives, cfg: Config, fs: FileSystem, cat: Catalog, rng: Entropy, visits: seq<Visit>,
                  doRun: bool, sv: Services) returns (o: Outcome, ghost handled: seq<string>)
    modifies fs, cat, rng
    requires cat.Valid() && Ready(sv)
    ensures cat.Valid()
    ensures cat.requests == old(cat.requests) && cat.comments == old(cat.comments)
    ensures o.Pass? ==> handled == FileVisits(visits) && forall j :: 0 <= j < |visits| ==> visits[j].err.None?
    ensures o.Fail? ==> exists k :: StoppedAt(visits, k, o.error, handled)
    ensures !doRun ==> unchanged(fs, cat, rng)
    ensures !doRun ==> o == old(DryRun(prims, cat, fs, cfg.docRoot, visits))
  {
    handled := [];
    var i := 0;
    while i < |visits|
      invariant 0 <= i <= |visits|
      invariant cat.Valid()
      invariant cat.requests == old(cat.requests) && cat.comments == old(cat.comments)
      invariant handled == FileVisits(visits[..i])
      invariant forall j :: 0 <= j < i ==> visits[j].err.None?
      invariant !doRun ==> unchanged(fs, cat, rng)
      invariant !doRun ==> old(DryRun(prims, cat, fs, cfg.docRoot, visits)) == old(DryRun(prims, cat, fs, cfg.docRoot, visits[i..]))
    {
      var v := visits[i];
      assert visits[..i + 1][..i] == visits[..i];
      assert visits[i..][0] == v && visits[i..][1..] == visits[i + 1..];
      if v.err.Some? {
        assert StoppedAt(visits, i, v.err.value, handled);
        return Fail(v.err.value), handled;
      }
      if v.relPath != "." && !v.isDir {
        handled := handled + [v.relPath];
        var r := KeepFile(prims, cfg, fs, cat, rng, v.relPath, doRun, sv);
        if r.Fail? {
          assert StoppedAt(visits, i, r.error, handled);
          return r, handled;
        }
      }
      i := i + 1;
    }
    assert visits[..i] == visits;
    o := Pass;
  }

  /** What checkDown depends on besides the disk and the database: the
      document root, the key, and the error that keeps a manager from
      being created (none when one is cached or the session opens). */
  datatype Setup = Setup(root: string, key: seq<byte>, noManager: Option<Error>)

  function SetupOf(cfg: Config, sv: Services): Setup
    reads cfg
  {
    Setup(cfg.docRoot, cfg.key, if cfg.ManagerFails(sv.session) then sv.session else None)
  }

  /** The job id requestExtractJob obtains: the manager comes first, and
      its failure is returned before the service is asked. */
  function JobStart(su: Setup, sv: Services, archiveId: string): Result<string>
  {
    if su.noManager.Some? then Err(su.noManager.value) else sv.retrieve(archiveId)
  }

  /** requestExtractJob: start a retrieval job for the entry's archive and
      record it, stamped with the clock. */
  method RequestExtractJob(cfg: Config, fs: FileSystem, cat: Catalog, entry: FileEntry, sv: Services) returns (o: Outcome)
    modifies cat
    ensures cat.entries == old(cat.entries) && cat.ivs == old(cat.ivs) && cat.comments == old(cat.comments)
    ensures JobStart(SetupOf(cfg, sv), sv, entry.archiveId).Err? ==>
              o == Fail(JobStart(SetupOf(cfg, sv), sv, entry.archiveId).error) && cat.requests == old(cat.requests)
    ensures JobStart(SetupOf(cfg, sv), sv, entry.archiveId).Ok? ==>
              && (o.Pass? <==> entry.id !in old(cat.requests) && ("ex_request", entry.id) !in cat.faults)
              && cat.requests == if o.Pass? then old(cat.requests)[entry.id := Request(JobStart(SetupOf(cfg, sv), sv, entry.archiveId).value, fs.now)]
                                 else old(cat.requests)
  {
    var mgr := cfg.GlacierManager(sv.session);
    if mgr.Err? {
      return Fail(mgr.error);
    }
    var jobId := sv.retrieve(entry.archiveId);
    if jobId.Err? {
      return Fail(jobId.error);
    }
    o := cat.InsertRequest(entry.id, jobId.value, fs.now);
  }

  /** Decrypt, seen from restore: only the plain file changes, and the
      digest it returns is the MD5 of what the plain file now holds. */
  method DecryptDigested(prims: Primitives, fs: FileSystem, cryptFile: string, plainFile: string, key: seq<byte>,
                         iv: seq<byte>, steps: seq<Read>, writeFails: set<nat>) returns (r: Result<seq<byte>>)
    modifies fs
    requires Buffered(steps)
    ensures fs.dirs == old(fs.dirs)
    ensures r == old(DecryptResult(prims, fs, cryptFile, plainFile, key, iv, steps, writeFails))
    ensures fs.files - {plainFile} == old(fs.files) - {plainFile}
    ensures r.Ok? ==> plainFile in fs.files && prims.md5(fs.files[plainFile].content) == r.value
  {
    r := Decrypt(prims, fs, cryptFile, plainFile, key, iv, steps, writeFails);
    DecryptDigestCoversOutput(prims, key, iv, steps, writeFails);
  }

  /** How restore ends once it has the entry's IV, given what decrypting
      `<file>.enc` returned `d`: with the decryption's error; with
      ErrMD5Mismatch exactly when the digest differs from the entry's, and
      then the request stays; or with success, and then the request is
      dropped unless the database refuses the delete (which is not
      reported). */
  ghost predicate RestoreOutcome(entry: FileEntry, d: Result<seq<byte>>, faults: set<(string, int)>, o: Outcome,
                                 req0: map<int, Request>, req1: map<int, Request>)
  {
    && (d.Err? ==> o == Fail(d.error) && req1 == req0)
    && (o == Fail(Md5Mismatch) <==> d.Ok? && Hex(d.value) != entry.md5Sum)
    && (d.Ok? && Hex(d.value) != entry.md5Sum ==> req1 == req0)
    && (d.Ok? && Hex(d.value) == entry.md5Sum ==>
          o == Pass && req1 == if ("ex_request", entry.id) in faults then req0 else req0 - {entry.id})
  }

  /** The part of retrieve after a finished download: decrypt `<file>.enc`
      to the file with the entry's IV, check the digest against the entry,
      restore the mtime and drop the request. */
  method Restore(prims: Primitives, cfg: Config, fs: FileSystem, cat: Catalog, entry: FileEntry, writeFails: set<nat>)
    returns (o: Outcome)
    modifies fs, cat
    ensures cat.entries == old(cat.entries) && cat.ivs == old(cat.ivs) && cat.comments == old(cat.comments)
    ensures cat.requests == old(cat.requests) || (o.Pass? && cat.requests == old(cat.requests) - {entry.id})
    ensures fs.dirs == old(fs.dirs)
    ensures entry.id !in old(cat.ivs) ==> o == Fail(NoRows) && unchanged(fs) && cat.requests == old(cat.requests)
    ensures var plain := Join(cfg.docRoot, entry.name);
            entry.id in old(cat.ivs) ==>
              RestoreOutcome(entry, old(DecryptResult(prims, fs, plain + ".enc", plain, cfg.key, cat.ivs[entry.id],
                                                      FileSteps(fs.files, plain + ".enc"), writeFails)),
                             cat.faults, o, old(cat.requests), cat.requests)
    ensures var plain := Join(cfg.docRoot, entry.name);
            && fs.files - {plain} == old(fs.files) - {plain}
            && (o.Pass? ==>
                  && plain in fs.files
                  && Hex(prims.md5(fs.files[plain].content)) == entry.md5Sum
                  && fs.files[plain].mtime == entry.mtime)
  {
    var plainFile := Join(cfg.docRoot, entry.name);
    var cryptFile := plainFile + ".enc";
    var iv := cat.GetIV(entry.id);
    if iv.Err? {
      return Fail(iv.error);
    }
    var steps := FileSteps(fs.files, cryptFile);
    FileStepsClean(fs.files, cryptFile);
    DecryptIntoErrors(prims, fs.statFaults, fs.dirs, plainFile, cfg.key, iv.value, steps, writeFails);
    var dlsum := DecryptDigested(prims, fs, cryptFile, plainFile, cfg.key, iv.value, steps, writeFails);
    if dlsum.Err? {
      return Fail(dlsum.error);
    }
    if entry.md5Sum != Hex(dlsum.value) {
      return Fail(Md5Mismatch);
    }
    var touched := fs.Chtimes(plainFile, entry.mtime);
    if touched.Fail? {
      assert false;
      return touched;
    }
    var _ := cat.DeleteRequest(entry.id);
    o := Pass;
  }

  /** The files retrieving the entry named `name` may touch: the file
      itself, its `.enc` download and that download's temp files. */
  ghost predicate Footprint(root: string, name: string, p: string) {
    var plain := Join(root, name);
    p == plain || p == plain + ".enc" || exists i: nat :: p == TempName(plain + ".enc", i)
  }

  /** Two file maps that differ only at footprints of the names `names`. */
  ghost predicate AgreeBeyond(a: map<string, DiskFile>, b: map<string, DiskFile>, root: string, names: set<string>) {
    forall p :: (p in a || p in b) && (forall n :: n in names ==> !Footprint(root, n, p)) ==> p in a && p in b && a[p] == b[p]
  }

  /** The frame DownloadFile, restore and the removal of `.enc` keep, seen
      as a footprint. */
  lemma FootprintFrame(a: map<string, DiskFile>, b: map<string, DiskFile>, root: string, name: string, n: nat)
    requires var crypt := Join(root, name) + ".enc";
             a - ({Join(root, name), crypt} + Temps(crypt, n)) == b - ({Join(root, name), crypt} + Temps(crypt, n))
    ensures AgreeBeyond(a, b, root, {name})
  {
    var crypt := Join(root, name) + ".enc";
    var touched := {Join(root, name), crypt} + Temps(crypt, n);
    forall p | (p in a || p in b) && (forall m :: m in {name} ==> !Footprint(root, m, p))
      ensures p in a && p in b && a[p] == b[p]
    {
      assert !Footprint(root, name, p);
      assert p !in touched;
      assert p in a - touched || p in b - touched;
      assert (a - touched)[p] == a[p] && (b - touched)[p] == b[p];
    }
  }

  /** The frame of restore and of the removal of `.enc`, seen as a
      footprint. */
  lemma PairFrame(a: map<string, DiskFile>, b: map<string, DiskFile>, root: string, name: string)
    requires a - {Join(root, name), Join(root, name) + ".enc"} == b - {Join(root, name), Join(root, name) + ".enc"}
    ensures AgreeBeyond(a, b, root, {name})
  {
    var touched := {Join(root, name), Join(root, name) + ".enc"};
    forall p | (p in a || p in b) && (forall m :: m in {name} ==> !Footprint(root, m, p))
      ensures p in a && p in b && a[p] == b[p]
    {
      assert !Footprint(root, name, p);
      assert p in a - touched || p in b - touched;
      assert (a - touched)[p] == a[p] && (b - touched)[p] == b[p];
    }
  }

  /** Footprint agreement composes when the second step is one of the names. */
  lemma AgreeBeyondStep(a: map<string, DiskFile>, b: map<string, DiskFile>, c: map<string, DiskFile>, root: string,
                        names: set<string>, name: string)
    requires AgreeBeyond(a, b, root, names) && AgreeBeyond(b, c, root, {name}) && name in names
    ensures AgreeBeyond(a, c, root, names)
  {
    forall p | (p in a || p in c) && (forall n :: n in names ==> !Footprint(root, n, p))
      ensures p in a && p in c && a[p] == c[p]
    {
      assert !Footprint(root, name, p);
      assert p in b;
    }
  }

  /** Downloading `<file>.enc` never makes or removes the file itself: the
      directories MkdirAll makes for it are shorter than the file's path,
      and its temp files are longer. */
  lemma EncSideNames(fs: FileSystem, plain: string, n: nat)
    ensures plain !in MkdirAllRun(fs.files, fs.dirs, fs.statFaults, Split(plain + ".enc").0).1
    ensures plain !in Temps(plain + ".enc", n)
  {
    var crypt := plain + ".enc";
    var dir := Split(crypt).0;
    var i := LastSlash(crypt);
    forall j | |plain| <= j < |crypt| ensures crypt[j] != '/' {
      assert crypt[j] == ".enc"[j - |plain|];
    }
    assert i < |plain|;
    assert |dir| == i + 1;
    SplitDir(crypt);
    forall x | x in MkdirAllRun(fs.files, fs.dirs, fs.statFaults, dir).1 ensures |x| < |plain| {
    }
    forall k | 1 <= k <= n ensures TempName(crypt, k) != plain {
      TempNameShape(crypt, k);
      assert |TempName(crypt, k)| > |crypt|;
    }
  }

  /** DownloadFile, seen from retrieve: a job that cannot be described or
      has not completed leaves the files alone; a completed one makes only
      the directories MkdirAll makes, removes none but temp files, and on
      success leaves the archive in `<file>.enc`. */
  method DownloadEnc(fs: FileSystem, cryptFile: string, env: DownloadEnv) returns (o: Outcome)
    modifies fs
    ensures env.describe.Err? ==> o == Fail(env.describe.error) && unchanged(fs)
    ensures env.describe.Ok? && !env.describe.value.completed ==> o == Fail(JobNotComplete) && unchanged(fs)
    ensures env.describe.Ok? && env.describe.value.completed ==>
              var n := ChunkCount(|env.describe.value.archive|, DlChunkSize);
              && o != Fail(JobNotComplete)
              && fs.dirs - old(fs.dirs) <= old(MkdirAllRun(fs.files, fs.dirs, fs.statFaults, Split(cryptFile).0)).1
              && old(fs.dirs) - fs.dirs <= Temps(cryptFile, n)
              && (o.Pass? ==> && cryptFile in fs.files && cryptFile !in fs.statFaults
                              && fs.files[cryptFile].content == env.describe.value.archive)
    ensures env.describe.Ok? ==>
              var n := ChunkCount(|env.describe.value.archive|, DlChunkSize);
              fs.files - ({cryptFile} + Temps(cryptFile, n)) == old(fs.files) - ({cryptFile} + Temps(cryptFile, n))
  {
    o := DownloadFile(fs, cryptFile, env);
  }

  /** Restore right after the download: `<file>.enc` holds the archive,
      and the directories agree with `dirs0` on the file itself, so the
      decryption is that of the archive's reads. */
  method RestoreDownloaded(prims: Primitives, cfg: Config, fs: FileSystem, cat: Catalog, entry: FileEntry,
                           archive: seq<byte>, ghost dirs0: set<string>, writeFails: set<nat>) returns (o: Outcome)
    modifies fs, cat
    requires var plain := Join(cfg.docRoot, entry.name);
             && plain + ".enc" in fs.files && plain + ".enc" !in fs.statFaults
             && fs.files[plain + ".enc"].content == archive
             && (plain in fs.dirs <==> plain in dirs0)
    ensures cat.entries == old(cat.entries) && cat.ivs == old(cat.ivs) && cat.comments == old(cat.comments)
    ensures cat.requests == old(cat.requests) || (o.Pass? && cat.requests == old(cat.requests) - {entry.id})
    ensures entry.id !in old(cat.ivs) ==> o == Fail(NoRows) && unchanged(fs) && cat.requests == old(cat.requests)
    ensures var plain := Join(cfg.docRoot, entry.name);
            entry.id in old(cat.ivs) ==>
              RestoreOutcome(entry, DecryptInto(prims, fs.statFaults, dirs0, plain, cfg.key, old(cat.ivs)[entry.id],
                                                FileReads(archive), writeFails),
                             cat.faults, o, old(cat.requests), cat.requests)
    ensures var plain := Join(cfg.docRoot, entry.name);
            && fs.files - {plain} == old(fs.files) - {plain}
            && (o.Pass? ==>
                  && plain in fs.files
                  && Hex(prims.md5(fs.files[plain].content)) == entry.md5Sum
                  && fs.files[plain].mtime == entry.mtime)
  {
    var plainFile := Join(cfg.docRoot, entry.name);
    var cryptFile := plainFile + ".enc";
    if entry.id in cat.ivs {
      assert DecryptResult(prims, fs, cryptFile, plainFile, cfg.key, cat.ivs[entry.id], FileSteps(fs.files, cryptFile), writeFails)
          == DecryptInto(prims, fs.statFaults, dirs0, plainFile, cfg.key, cat.ivs[entry.id], FileReads(archive), writeFails);
    }
    o := Restore(prims, cfg, fs, cat, entry, writeFails);
  }

  /** What retrieve does with the pending request of `entry` for job
      `jobId`, from the requests `req0` and directories `dirs0` before it
      to the requests `req1` and files `files1` after it; `fetched` tells
      whether the job's output was downloaded to `<file>.enc`. The
      manager comes first, and its failure is returned. */
  ghost predicate Retrieved(prims: Primitives, su: Setup, sv: Services, statFaults: set<string>,
                            faults: set<(string, int)>, ivs: map<int, seq<byte>>, entry: FileEntry, jobId: string,
                            dirs0: set<string>, req0: map<int, Request>, req1: map<int, Request>,
                            files1: map<string, DiskFile>, o: Outcome, fetched: bool)
  {
    && (su.noManager.Some? ==> o == Fail(su.noManager.value) && !fetched && req1 == req0)
    && (su.noManager.None? ==>
          Fetched(prims, su.root, su.key, sv, statFaults, faults, ivs, entry, jobId, dirs0, req0, req1, files1, o, fetched))
  }

  /** Retrieve once the manager exists: a job that cannot be described is
      returned; a job still running is not an error; a failed download is
      returned; after the download, the outcome is restore's on the
      archive. Unless the download hangs, `<file>.enc` is gone afterwards
      (when it can be removed at all). Only a restore drops the request. */
  ghost predicate Fetched(prims: Primitives, root: string, key: seq<byte>, sv: Services, statFaults: set<string>,
                          faults: set<(string, int)>, ivs: map<int, seq<byte>>, entry: FileEntry, jobId: string,
                          dirs0: set<string>, req0: map<int, Request>, req1: map<int, Request>,
                          files1: map<string, DiskFile>, o: Outcome, fetched: bool)
  {
    var env := sv.download(jobId);
    var plain := Join(root, entry.name);
    var completed := env.describe.Ok? && env.describe.value.completed;
    && (env.describe.Err? && env.describe.error != JobNotComplete ==> o == Fail(env.describe.error) && !fetched && req1 == req0)
    && (env.describe == Err(JobNotComplete) || (env.describe.Ok? && !completed) ==> o == Pass && !fetched && req1 == req0)
    && (completed && !fetched ==> o.Fail? && req1 == req0)
    && (o != Fail(Hang) && plain + ".enc" !in statFaults ==> plain + ".enc" !in files1)
    && (fetched ==>
          && completed
          && (entry.id !in ivs ==> o == Fail(NoRows) && req1 == req0)
          && (entry.id in ivs ==>
                RestoreOutcome(entry, DecryptInto(prims, statFaults, dirs0, plain, key, ivs[entry.id],
                                                  FileReads(env.describe.value.archive), sv.writeFails(plain)),
                               faults, o, req0, req1))
          && (o.Pass? ==> && plain in files1 && Hex(prims.md5(files1[plain].content)) == entry.md5Sum
                          && files1[plain].mtime == entry.mtime))
  }

  /** retrieve: check the manager, then download and restore. `restored`
      tells whether the file was written back. */
  method Retrieve(prims: Primitives, cfg: Config, fs: FileSystem, cat: Catalog, ex: ExRequest, entry: FileEntry,
                  sv: Services) returns (o: Outcome, restored: bool, ghost fetched: bool)
    modifies fs, cat
    ensures cat.entries == old(cat.entries) && cat.ivs == old(cat.ivs) && cat.comments == old(cat.comments)
    ensures cat.requests == old(cat.requests) || (restored && cat.requests == old(cat.requests) - {entry.id})
    ensures AgreeBeyond(old(fs.files), fs.files, cfg.docRoot, {entry.name})
    ensures cfg.ManagerFails(sv.session) ==> unchanged(fs, cat)
    ensures restored <==> fetched && o.Pass?
    ensures Retrieved(prims, SetupOf(cfg, sv), sv, fs.statFaults, cat.faults, old(cat.ivs), entry, ex.jobId, old(fs.dirs),
                      old(cat.requests), cat.requests, fs.files, o, fetched)
  {
    var mgr := cfg.GlacierManager(sv.session);
    if mgr.Err? {
      return Fail(mgr.error), false, false;
    }
    o, restored, fetched := FetchAndRestore(prims, cfg, fs, cat, ex, entry, sv);
  }

  /** The rest of retrieve: download the job's output to `<file>.enc`, then
      restore the file from it. A job still running is not an error. `.enc`
      is removed on the way out, except when the download hangs. */
  method FetchAndRestore(prims: Primitives, cfg: Config, fs: FileSystem, cat: Catalog, ex: ExRequest,
                         entry: FileEntry, sv: Services) returns (o: Outcome, restored: bool, ghost fetched: bool)
    modifies fs, cat
    ensures cat.entries == old(cat.entries) && cat.ivs == old(cat.ivs) && cat.comments == old(cat.comments)
    ensures cat.requests == old(cat.requests) || (restored && cat.requests == old(cat.requests) - {entry.id})
    ensures AgreeBeyond(old(fs.files), fs.files, cfg.docRoot, {entry.name})
    ensures restored <==> fetched && o.Pass?
    ensures Fetched(prims, cfg.docRoot, cfg.key, sv, fs.statFaults, cat.faults, old(cat.ivs), entry, ex.jobId, old(fs.dirs),
                    old(cat.requests), cat.requests, fs.files, o, fetched)
  {
    var plainFile := Join(cfg.docRoot, entry.name);
    var cryptFile := plainFile + ".enc";
    EncNotPlain(plainFile);
    var env := sv.download(ex.jobId);
    var dl := FetchEnc(fs, cfg.docRoot, entry.name, env);
    if dl == Fail(Hang) {
      // the download never returns: nothing deferred runs
      return dl, false, false;
    }
    ghost var files1 := fs.files;
    if dl.Fail? {
      o := if dl.error == JobNotComplete then Pass else dl;
      restored, fetched := false, false;
      var _ := fs.Remove(cryptFile);
      assert fs.files - {plainFile, cryptFile} == files1 - {plainFile, cryptFile};
    } else {
      fetched := true;
      o := RestoreAndRemove(prims, cfg, fs, cat, entry, env.describe.value.archive, old(fs.dirs), sv.writeFails(plainFile));
      restored := o.Pass?;
    }
    PairFrame(files1, fs.files, cfg.docRoot, entry.name);
    AgreeBeyondStep(old(fs.files), files1, fs.files, cfg.docRoot, {entry.name}, entry.name);
  }

  /** The download of retrieve, to `<file>.enc` beside the file: it touches
      only the file's footprint, and it neither makes nor removes a
      directory at the file's own path. */
  method FetchEnc(fs: FileSystem, root: string, name: string, env: DownloadEnv) returns (o: Outcome)
    modifies fs
    ensures env.describe.Err? ==> o == Fail(env.describe.error) && unchanged(fs)
    ensures env.describe.Ok? && !env.describe.value.completed ==> o == Fail(JobNotComplete) && unchanged(fs)
    ensures env.describe.Ok? && env.describe.value.completed ==>
              && o != Fail(JobNotComplete)
              && (Join(root, name) in fs.dirs <==> Join(root, name) in old(fs.dirs))
              && (o.Pass? ==> var crypt := Join(root, name) + ".enc";
                              && crypt in fs.files && crypt !in fs.statFaults
                              && fs.files[crypt].content == env.describe.value.archive)
    ensures AgreeBeyond(old(fs.files), fs.files, root, {name})
  {
    var plainFile := Join(root, name);
    var cryptFile := plainFile + ".enc";
    ghost var n := if env.describe.Ok? then ChunkCount(|env.describe.value.archive|, DlChunkSize) else 0;
    EncSideNames(fs, plainFile, n);
    ghost var made := MkdirAllRun(fs.files, fs.dirs, fs.statFaults, Split(cryptFile).0).1;
    o := DownloadEnc(fs, cryptFile, env);
    AgreeOutside(fs.files, old(fs.files), {cryptFile} + Temps(cryptFile, n), {plainFile, cryptFile} + Temps(cryptFile, n));
    FootprintFrame(old(fs.files), fs.files, root, name, n);
  }

  /** Restore right after the download, then the deferred removal of
      `<file>.enc`. */
  method RestoreAndRemove(prims: Primitives, cfg: Config, fs: FileSystem, cat: Catalog, entry: FileEntry,
                          archive: seq<byte>, ghost dirs0: set<string>, writeFails: set<nat>) returns (o: Outcome)
    modifies fs, cat
    requires var plain := Join(cfg.docRoot, entry.name);
             && plain + ".enc" in fs.files && plain + ".enc" !in fs.statFaults
             && fs.files[plain + ".enc"].content == archive
             && (plain in fs.dirs <==> plain in dirs0)
    ensures cat.entries == old(cat.entries) && cat.ivs == old(cat.ivs) && cat.comments == old(cat.comments)
    ensures cat.requests == old(cat.requests) || (o.Pass? && cat.requests == old(cat.requests) - {entry.id})
    ensures entry.id !in old(cat.ivs) ==> o == Fail(NoRows) && cat.requests == old(cat.requests)
    ensures var plain := Join(cfg.docRoot, entry.name);
            entry.id in old(cat.ivs) ==>
              RestoreOutcome(entry, DecryptInto(prims, fs.statFaults, dirs0, plain, cfg.key, old(cat.ivs)[entry.id],
                                                FileReads(archive), writeFails),
                             cat.faults, o, old(cat.requests), cat.requests)
    ensures var plain := Join(cfg.docRoot, entry.name);
            && plain + ".enc" !in fs.files
            && fs.files - {plain, plain + ".enc"} == old(fs.files) - {plain, plain + ".enc"}
            && (o.Pass? ==>
                  && plain in fs.files
                  && Hex(prims.md5(fs.files[plain].content)) == entry.md5Sum
                  && fs.files[plain].mtime == entry.mtime)
  {
    var plainFile := Join(cfg.docRoot, entry.name);
    EncNotPlain(plainFile);
    o := RestoreDownloaded(prims, cfg, fs, cat, entry, archive, dirs0, writeFails);
    ghost var files1 := fs.files;
    AgreeOutside(files1, old(fs.files), {plainFile}, {plainFile, plainFile + ".enc"});
    var _ := fs.Remove(plainFile + ".enc");
    assert fs.files - {plainFile, plainFile + ".enc"} == files1 - {plainFile, plainFile + ".enc"};
  }

  /** processExtract: without a pending request, start a retrieval job;
      with one, try to retrieve the file. A dry run does neither. */
  method ProcessExtract(prims: Primitives, cfg: Config, fs: FileSystem, cat: Catalog, entry: FileEntry, doRun: bool,
                        sv: Services) returns (o: Outcome, ghost fetched: bool)
    modifies fs, cat
    ensures cat.entries == old(cat.entries) && cat.ivs == old(cat.ivs) && cat.comments == old(cat.comments)
    ensures !doRun ==> o == Pass && !fetched && unchanged(fs, cat)
    ensures cat.requests - {entry.id} == old(cat.requests) - {entry.id}
    ensures AgreeBeyond(old(fs.files), fs.files, cfg.docRoot, {entry.name})
    ensures entry.id !in old(cat.requests) ==>
              && unchanged(fs) && !fetched
              && (doRun && JobStart(SetupOf(cfg, sv), sv, entry.archiveId).Ok? ==>
                    && (o.Pass? <==> ("ex_request", entry.id) !in cat.faults)
                    && cat.requests == if o.Pass? then old(cat.requests)[entry.id := Request(JobStart(SetupOf(cfg, sv), sv, entry.archiveId).value, fs.now)]
                                       else old(cat.requests))
              && (doRun && JobStart(SetupOf(cfg, sv), sv, entry.archiveId).Err? ==>
                    o == Fail(JobStart(SetupOf(cfg, sv), sv, entry.archiveId).error) && cat.requests == old(cat.requests))
    ensures entry.id in old(cat.requests) && doRun ==>
              && (cat.requests == old(cat.requests) || cat.requests == old(cat.requests) - {entry.id})
              && Retrieved(prims, SetupOf(cfg, sv), sv, fs.statFaults, cat.faults, old(cat.ivs), entry, old(cat.requests)[entry.id].jobId,
                           old(fs.dirs), old(cat.requests), cat.requests, fs.files, o, fetched)
  {
    var ex := cat.FindExRequestById(entry.id);
    o, fetched := Pass, false;
    if ex.value.None? {
      if doRun {
        o := RequestExtractJob(cfg, fs, cat, entry, sv);
      }
    } else {
      if doRun {
        var restored;
        o, restored, fetched := Retrieve(prims, cfg, fs, cat, ex.value.value, entry, sv);
      }
    }
  }

  /** checkDown as seen between two entries: the files, directories and
      requests, what processing the last entry returned, and whether its
      job's output was downloaded. */
  datatype Moment = Moment(files: map<string, DiskFile>, dirs: set<string>, requests: map<int, Request>,
                           last: Outcome, fetched: bool)

  /** An outcome that ends checkDown although processExtract's errors are
      otherwise dropped: a panic or a hang. */
  predicate Stops(r: Outcome) {
    r.Fail? && Fatal(r.error)
  }

  /** One turn of checkDown's loop, for the locked entry `e`, from `m0` to
      `m1`: its file can be examined; a file that exists, or a dry run,
      changes nothing; a missing file without a request gets a retrieval
      job recorded (if the manager, the service and the database allow);
      a missing file with a request is retrieved. Nothing outside the
      entry's request and footprint changes. */
  ghost predicate Step(prims: Primitives, su: Setup, sv: Services, doRun: bool, statFaults: set<string>,
                       faults: set<(string, int)>, ivs: map<int, seq<byte>>, now: int, e: FileEntry,
                       m0: Moment, m1: Moment)
  {
    var st := StatIn(m0.files, m0.dirs, statFaults, Join(su.root, e.name));
    && !st.Faulty?
    && (!st.Absent? || !doRun ==> m1 == Moment(m0.files, m0.dirs, m0.requests, Pass, false))
    && (st.Absent? && doRun ==>
          && m1.requests - {e.id} == m0.requests - {e.id}
          && AgreeBeyond(m0.files, m1.files, su.root, {e.name})
          && (e.id !in m0.requests ==>
                var job := JobStart(su, sv, e.archiveId);
                && m1.files == m0.files && m1.dirs == m0.dirs && !m1.fetched
                && (job.Err? ==> m1.last == Fail(job.error) && m1.requests == m0.requests)
                && (job.Ok? ==>
                      && (m1.last.Pass? <==> ("ex_request", e.id) !in faults)
                      && m1.requests == if m1.last.Pass? then m0.requests[e.id := Request(job.value, now)] else m0.requests))
          && (e.id in m0.requests ==>
                Retrieved(prims, su, sv, statFaults, faults, ivs, e, m0.requests[e.id].jobId, m0.dirs,
                          m0.requests, m1.requests, m1.files, m1.last, m1.fetched)))
  }

  /** checkDown's loop so far: before the first entry, then after each
      processed one, every turn is a Step and none but the last stops. */
  ghost predicate Turns(prims: Primitives, su: Setup, sv: Services, doRun: bool, statFaults: set<string>,
                        faults: set<(string, int)>, ivs: map<int, seq<byte>>, now: int, es: seq<FileEntry>,
                        trace: seq<Moment>)
    decreases |trace|
  {
    && 1 <= |trace| <= |es| + 1
    && if |trace| == 1 then trace[0].last == Pass
       else
         && Turns(prims, su, sv, doRun, statFaults, faults, ivs, now, es, trace[..|trace| - 1])
         && !Stops(trace[|trace| - 2].last)
         && Step(prims, su, sv, doRun, statFaults, faults, ivs, now, es[|trace| - 2], trace[|trace| - 2], trace[|trace| - 1])
  }

  /** A trace whose last moment does not stop the loop grows by a Step on
      the next entry. */
  lemma TurnsGrow(prims: Primitives, su: Setup, sv: Services, doRun: bool, statFaults: set<string>,
                  faults: set<(string, int)>, ivs: map<int, seq<byte>>, now: int, es: seq<FileEntry>,
                  trace: seq<Moment>, m: Moment)
    requires Turns(prims, su, sv, doRun, statFaults, faults, ivs, now, es, trace)
    requires |trace| <= |es| && !Stops(trace[|trace| - 1].last)
    requires Step(prims, su, sv, doRun, statFaults, faults, ivs, now, es[|trace| - 1], trace[|trace| - 1], m)
    ensures Turns(prims, su, sv, doRun, statFaults, faults, ivs, now, es, trace + [m])
  {
    assert (trace + [m])[..|trace|] == trace;
  }

  /** Over a whole trace, only the requests of the entries `es` and the
      files of their footprints change. */
  lemma {:induction false} TurnsFrame(prims: Primitives, su: Setup, sv: Services, doRun: bool, statFaults: set<string>,
                                      faults: set<(string, int)>, ivs: map<int, seq<byte>>, now: int, es: seq<FileEntry>,
                                      trace: seq<Moment>)
    requires Turns(prims, su, sv, doRun, statFaults, faults, ivs, now, es, trace)
    ensures var m := trace[|trace| - 1];
            && m.requests - Ids(es) == trace[0].requests - Ids(es)
            && AgreeBeyond(trace[0].files, m.files, su.root, Names(es))
    decreases |trace|
  {
    if |trace| > 1 {
      var t := trace[..|trace| - 1];
      TurnsFrame(prims, su, sv, doRun, statFaults, faults, ivs, now, es, t);
      assert t[0] == trace[0] && t[|t| - 1] == trace[|trace| - 2];
      var e, m0, m1 := es[|trace| - 2], trace[|trace| - 2], trace[|trace| - 1];
      assert e in es;
      AgreeOutside(m1.requests, m0.requests, {e.id}, Ids(es));
      AgreeBeyondStep(trace[0].files, m0.files, m1.files, su.root, Names(es), e.name);
    }
  }

  /** checkDown over the locked entries `es`, as the moments `trace` before
      the first entry and after each one processed: every turn is a Step,
      and no turn but the last stops the loop. The loop ends at a panic or
      a hang, which it returns; at an entry whose file cannot be examined,
      with that error; or after the last entry, with success (the errors
      of processExtract are dropped). */
  ghost predicate DownRun(prims: Primitives, su: Setup, sv: Services, doRun: bool, statFaults: set<string>,
                          faults: set<(string, int)>, ivs: map<int, seq<byte>>, now: int, es: seq<FileEntry>,
                          trace: seq<Moment>, o: Outcome)
  {
    && Turns(prims, su, sv, doRun, statFaults, faults, ivs, now, es, trace)
    && var m := trace[|trace| - 1];
       && (Stops(m.last) ==> o == m.last)
       && (!Stops(m.last) && |trace| <= |es| ==>
             var st := StatIn(m.files, m.dirs, statFaults, Join(su.root, es[|trace| - 1].name));
             st.Faulty? && o == Fail(st.error))
       && (!Stops(m.last) && |trace| == |es| + 1 ==> o == Pass)
  }

  /** One turn of checkDown's loop, from the moment `m0`: stat the entry's
      file; a failure other than non-existence ends the loop (`faulty`);
      otherwise the turn is a Step to the moment `m`. */
  method CheckEntry(prims: Primitives, cfg: Config, fs: FileSystem, cat: Catalog, e: FileEntry, doRun: bool,
                    sv: Services, ghost m0: Moment) returns (o: Outcome, faulty: bool, ghost m: Moment)
    modifies fs, cat
    requires m0.files == fs.files && m0.dirs == fs.dirs && m0.requests == cat.requests
    ensures cat.entries == old(cat.entries) && cat.ivs == old(cat.ivs) && cat.comments == old(cat.comments)
    ensures !doRun ==> unchanged(fs, cat)
    ensures cat.requests - {e.id} == old(cat.requests) - {e.id}
    ensures AgreeBeyond(old(fs.files), fs.files, cfg.docRoot, {e.name})
    ensures var st := StatIn(m0.files, m0.dirs, fs.statFaults, Join(cfg.docRoot, e.name));
            && (faulty <==> st.Faulty?)
            && (faulty ==> o == Fail(st.error) && unchanged(fs, cat))
            && (!faulty ==> m.last == o && Step(prims, SetupOf(cfg, sv), sv, doRun, fs.statFaults, cat.faults, cat.ivs, fs.now, e, m0, m))
    ensures m.files == fs.files && m.dirs == fs.dirs && m.requests == cat.requests
  {
    var st := fs.Stat(Join(cfg.docRoot, e.name));
    if st.Faulty? {
      return Fail(st.error), true, m0;
    }
    faulty := false;
    if st.Absent? {
      ghost var f;
      o, f := ProcessExtract(prims, cfg, fs, cat, e, doRun, sv);
      m := Moment(fs.files, fs.dirs, cat.requests, o, f);
    } else {
      o := Pass;
      m := Moment(fs.files, fs.dirs, cat.requests, o, false);
    }
  }

  /** checkDown: for every locked entry whose file does not exist, process
      its extraction; their errors are not reported (a panic or a hang still
      ends the run). An entry whose file cannot be examined ends the check
      with that error. */
  method CheckDown(prims: Primitives, cfg: Config, fs: FileSystem, cat: Catalog, doRun: bool, sv: Services)
    returns (o: Outcome, ghost trace: seq<Moment>)
    modifies fs, cat
    ensures cat.entries == old(cat.entries) && cat.ivs == old(cat.ivs) && cat.comments == old(cat.comments)
    ensures old(ScanAll(Select(cat.entries, LockedRows))).Err? ==>
              o == Fail(old(ScanAll(Select(cat.entries, LockedRows))).error) && unchanged(fs, cat)
    ensures o.Fail? ==> || (old(ScanAll(Select(cat.entries, LockedRows))).Err? && o == Fail(old(ScanAll(Select(cat.entries, LockedRows))).error))
                        || o.error.PathFault?
                        || Fatal(o.error)
    ensures !doRun ==> unchanged(fs, cat)
    ensures var locked := old(ScanAll(Select(cat.entries, LockedRows)));
            locked.Ok? ==>
              var ids := Ids(locked.value);
              && cat.requests - ids == old(cat.requests) - ids
              && AgreeBeyond(old(fs.files), fs.files, cfg.docRoot, Names(locked.value))
    ensures var locked := old(ScanAll(Select(cat.entries, LockedRows)));
            locked.Ok? ==>
              && DownRun(prims, SetupOf(cfg, sv), sv, doRun, fs.statFaults, cat.faults, cat.ivs, fs.now, locked.value, trace, o)
              && trace[0] == Moment(old(fs.files), old(fs.dirs), old(cat.requests), Pass, false)
              && var m := trace[|trace| - 1];
                 m.files == fs.files && m.dirs == fs.dirs && m.requests == cat.requests
  {
    var locked := cat.LockedEntry();
    if locked.Err? {
      return Fail(locked.error), [Moment(fs.files, fs.dirs, cat.requests, Pass, false)];
    }
    o, trace := CheckEntries(prims, cfg, fs, cat, locked.value, doRun, sv);
    TurnsFrame(prims, SetupOf(cfg, sv), sv, doRun, fs.statFaults, cat.faults, cat.ivs, fs.now, locked.value, trace);
  }

  /** checkDown's loop over the locked entries `es`. */
  method CheckEntries(prims: Primitives, cfg: Config, fs: FileSystem, cat: Catalog, es: seq<FileEntry>, doRun: bool,
                      sv: Services) returns (o: Outcome, ghost trace: seq<Moment>)
    modifies fs, cat
    ensures cat.entries == old(cat.entries) && cat.ivs == old(cat.ivs) && cat.comments == old(cat.comments)
    ensures o.Fail? ==> o.error.PathFault? || Fatal(o.error)
    ensures !doRun ==> unchanged(fs, cat)
    ensures DownRun(prims, SetupOf(cfg, sv), sv, doRun, fs.statFaults, cat.faults, cat.ivs, fs.now, es, trace, o)
    ensures trace[0] == Moment(old(fs.files), old(fs.dirs), old(cat.requests), Pass, false)
    ensures var m := trace[|trace| - 1];
            m.files == fs.files && m.dirs == fs.dirs && m.requests == cat.requests
  {
    trace := [Moment(fs.files, fs.dirs, cat.requests, Pass, false)];
    var i := 0;
    while i < |es|
      invariant 0 <= i <= |es|
      invariant cat.entries == old(cat.entries) && cat.ivs == old(cat.ivs) && cat.comments == old(cat.comments)
      invariant !doRun ==> unchanged(fs, cat)
      invariant |trace| == i + 1
      invariant trace[0] == Moment(old(fs.files), old(fs.dirs), old(cat.requests), Pass, false)
      invariant var m := trace[|trace| - 1];
                m.files == fs.files && m.dirs == fs.dirs && m.requests == cat.requests
      invariant Turns(prims, SetupOf(cfg, sv), sv, doRun, fs.statFaults, cat.faults, cat.ivs, fs.now, es, trace)
      invariant !Stops(trace[|trace| - 1].last)
    {
      var r, faulty;
      r, faulty, trace := Advance(prims, cfg, fs, cat, es, i, doRun, sv, trace);
      if faulty || Stops(r) {
        return r, trace;
      }
      i := i + 1;
    }
    o := Pass;
  }

  /** One pass of checkDown's loop body, on the entry `es[i]`, growing its
      trace: an entry that cannot be examined leaves everything as it was. */
  method Advance(prims: Primitives, cfg: Config, fs: FileSystem, cat: Catalog, es: seq<FileEntry>, i: nat,
                 doRun: bool, sv: Services, ghost trace: seq<Moment>) returns (r: Outcome, faulty: bool, ghost next: seq<Moment>)
    modifies fs, cat
    requires i < |es| && |trace| == i + 1
    requires var m := trace[|trace| - 1];
             m.files == fs.files && m.dirs == fs.dirs && m.requests == cat.requests
    requires Turns(prims, SetupOf(cfg, sv), sv, doRun, fs.statFaults, cat.faults, cat.ivs, fs.now, es, trace)
    requires !Stops(trace[|trace| - 1].last)
    ensures cat.entries == old(cat.entries) && cat.ivs == old(cat.ivs) && cat.comments == old(cat.comments)
    ensures !doRun ==> unchanged(fs, cat)
    ensures var st := StatIn(trace[i].files, trace[i].dirs, fs.statFaults, Join(cfg.docRoot, es[i].name));
            && (faulty <==> st.Faulty?)
            && (faulty ==> r == Fail(st.error) && next == trace && unchanged(fs, cat))
    ensures faulty || Stops(r) ==>
              DownRun(prims, SetupOf(cfg, sv), sv, doRun, fs.statFaults, cat.faults, cat.ivs, fs.now, es, next, r)
    ensures |next| >= 1 && next[0] == trace[0]
    ensures var m := next[|next| - 1];
            m.files == fs.files && m.dirs == fs.dirs && m.requests == cat.requests
    ensures !faulty ==>
              && |next| == i + 2 && next[|next| - 1].last == r
              && Turns(prims, SetupOf(cfg, sv), sv, doRun, fs.statFaults, cat.faults, cat.ivs, fs.now, es, next)
  {
    var e := es[i];
    ghost var m;
    r, faulty, m := CheckEntry(prims, cfg, fs, cat, e, doRun, sv, trace[i]);
    if faulty {
      return r, faulty, trace;
    }
    TurnsGrow(prims, SetupOf(cfg, sv), sv, doRun, fs.statFaults, cat.faults, cat.ivs, fs.now, es, trace, m);
    next := trace + [m];
  }

  /** The ids and the names of the entries `es`. */
  function Ids(es: seq<FileEntry>): set<int> {
    set e | e in es :: e.id
  }

  function Names(es: seq<FileEntry>): set<string> {
    set e | e in es :: e.name
  }

  /** Sync: the upload check, then the download check if the first one
      passed. `up` is what the upload check returned, `handled` the files
      it called keepInGlacier for, and `trace` the download check's
      moments. */
  method Sync(prims: Primitives, cfg: Config, fs: FileSystem, cat: Catalog, rng: Entropy, visits: seq<Visit>,
              doRun: bool, sv: Services)
    returns (o: Outcome, ghost up: Outcome, ghost handled: seq<string>, ghost trace: seq<Moment>)
    modifies fs, cat, rng
    requires cat.Valid() && Ready(sv)
    ensures cat.Valid()
    ensures cat.comments == old(cat.comments)
    ensures !doRun ==> unchanged(fs, cat, rng)
    ensures o.Pass? ==> forall j :: 0 <= j < |visits| ==> visits[j].err.None?
    ensures (exists j :: 0 <= j < |visits| && visits[j].err.Some?) ==> o.Fail? && cat.requests == old(cat.requests)
    ensures var locked := ScanAll(Select(cat.entries, LockedRows));
            locked.Ok? ==>
              var ids := Ids(locked.value);
              cat.requests - ids == old(cat.requests) - ids
    ensures !doRun ==> up == old(DryRun(prims, cat, fs, cfg.docRoot, visits))
    ensures up.Fail? ==> o == up && cat.requests == old(cat.requests) && exists k :: StoppedAt(visits, k, up.error, handled)
    ensures up.Pass? ==> handled == FileVisits(visits) && forall j :: 0 <= j < |visits| ==> visits[j].err.None?
    ensures up.Pass? ==>
              var locked := ScanAll(Select(cat.entries, LockedRows));
              && (locked.Err? ==> o == Fail(locked.error))
              && (locked.Ok? ==>
                    && DownRun(prims, SetupOf(cfg, sv), sv, doRun, fs.statFaults, cat.faults, cat.ivs, fs.now, locked.value, trace, o)
                    && var m := trace[|trace| - 1];
                       m.files == fs.files && m.dirs == fs.dirs && m.requests == cat.requests)
  {
    var checked;
    checked, handled := CheckUpl(prims, cfg, fs, cat, rng, visits, doRun, sv);
    up, trace := checked, [];
    if checked.Fail? {
      return checked, up, handled, trace;
    }
    ghost var rows := cat.entries;
    o, trace := CheckDown(prims, cfg, fs, cat, doRun, sv);
    assert cat.entries == rows;
  }
}
