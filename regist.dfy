/** Registration of one file in the archive: draw a fresh IV, encrypt the
    file to `<file>.enc`, insert its file_entry row (digest, name, mtime,
    size, no archive id) and its initial_vector row, upload the encrypted
    file, and back-fill the archive id. Each step that fails ends the
    registration; nothing done before it is undone. Once the encryption has
    succeeded, `.enc` is removed on the way out, whatever happens after. */
module Regist {
  import opened Common
  import opened Paths
  import opened Disk
  import opened Crypt
  import opened Catalog
  import opened Chunking
  import opened Upload

  /** The catalog tables after the two inserts of recordPlainFileMeta, and
      the new entry's id or the error that stopped them. */
  datatype Recorded = Recorded(id: Result<int>, entries: seq<Row>, ivs: map<int, seq<byte>>)

  /** The mtime and size os.Stat reports. Directory metadata is not part of
      the model: a directory reads as 0 and 0. */
  function Meta(st: Status): (int, int) {
    if st.IsFile? then (st.file.mtime, |st.file.content|) else (0, 0)
  }

  /** recordPlainFileMeta on the tables: stat the file, insert the
      file_entry row under `id` (the next rowid), then the IV under the same
      id. */
  function RecordMeta(entries: seq<Row>, ivs: map<int, seq<byte>>, faults: set<(string, int)>, id: int,
                      fullPath: string, st: Status, name: string, md5hex: string, iv: seq<byte>): Recorded
  {
    if st.Faulty? then Recorded(Err(st.error), entries, ivs)
    else if st.Absent? then Recorded(Err(NotExist(fullPath)), entries, ivs)
    else if ("file_entry", id) in faults then Recorded(Err(StoreFault("file_entry")), entries, ivs)
    else
      var (mtime, size) := Meta(st);
      var pending := entries + [Row(id, name, Some(md5hex), mtime, size, None, 0)];
      if id in ivs then Recorded(Err(DuplicateKey("initial_vector", id)), pending, ivs)
      else if ("initial_vector", id) in faults then Recorded(Err(StoreFault("initial_vector")), pending, ivs)
      else Recorded(Ok(id), pending, ivs[id := iv])
  }

  /** The archive-id back-fill: only the row of the new id gets it. */
  function Backfill(entries: seq<Row>, id: int, archiveId: string): seq<Row> {
    Updated(entries, id, (row: Row) => row.(archiveId := Some(archiveId)))
  }

  /** The outcome and the catalog after the inserts, the upload (whose
      result is `upload`) and the back-fill; `uploaded` tells whether the
      inserts succeeded, so that the upload step was reached. */
  datatype Registered = Registered(outcome: Outcome, entries: seq<Row>, ivs: map<int, seq<byte>>, uploaded: bool)

  function AfterUpload(rec: Recorded, faults: set<(string, int)>, upload: Result<string>): Registered {
    if rec.id.Err? then Registered(Fail(rec.id.error), rec.entries, rec.ivs, false)
    else if upload.Err? then Registered(Fail(upload.error), rec.entries, rec.ivs, true)
    else if ("archive_id", rec.id.value) in faults then Registered(Fail(StoreFault("archive_id")), rec.entries, rec.ivs, true)
    else Registered(Pass, Backfill(rec.entries, rec.id.value, upload.value), rec.ivs, true)
  }

  /** The upload as registerToArchive meets it: a manager is created
      first, and an error opening its session is returned in place of the
      upload's result. */
  function SessionUpload(prims: Primitives, data: seq<byte>, env: UploadEnv): Result<string>
    requires IsOrder(env.arrival(ChunkCount(|data|, UplChunkSize)), ChunkCount(|data|, UplChunkSize))
  {
    if env.session.Some? then Err(env.session.value) else UploadResult(prims, data, env)
  }

  /** recordPlainFileMeta. */
  method RecordPlainFileMeta(fs: FileSystem, cat: Catalog, path: string, fileName: string, md5sum: seq<byte>, iv: seq<byte>)
    returns (r: Result<int>)
    modifies cat
    requires cat.Valid()
    ensures cat.Valid()
    ensures cat.requests == old(cat.requests) && cat.comments == old(cat.comments)
    ensures var rec := RecordMeta(old(cat.entries), old(cat.ivs), cat.faults, old(cat.NextId()),
                                  Join(path, fileName), fs.Stat(Join(path, fileName)), fileName, Hex(md5sum), iv);
            r == rec.id && cat.entries == rec.entries && cat.ivs == rec.ivs
  {
    var fullPath := Join(path, fileName);
    var st := fs.Stat(fullPath);
    if st.Faulty? {
      return Err(st.error);
    }
    if st.Absent? {
      return Err(NotExist(fullPath));
    }
    var (mtime, size) := Meta(st);
    var inserted := cat.InsertEntry(Hex(md5sum), fileName, mtime, size);
    if inserted.Err? {
      return Err(inserted.error);
    }
    var id := inserted.value;
    var stored := cat.InsertIv(id, iv);
    if stored.Fail? {
      return Err(stored.error);
    }
    r := Ok(id);
  }

  /** The encrypted file never is the plain file. */
  lemma EncNotPlain(p: string)
    ensures p + ".enc" != p
  {
    assert |p + ".enc"| == |p| + 4;
  }

  /** RegisterToArchive after the encryption: record the metadata, create
      the manager, upload `<file>.enc`, back-fill the archive id, and remove
      `.enc` (the deferred removal). */
  method Publish(prims: Primitives, fs: FileSystem, cat: Catalog, path: string, fileName: string,
                 md5sum: seq<byte>, iv: seq<byte>, env: UploadEnv) returns (o: Outcome, calls: seq<Call>)
    modifies fs, cat
    requires cat.Valid()
    requires Join(path, fileName) + ".enc" in fs.files && Join(path, fileName) + ".enc" !in fs.statFaults
    requires var n := ChunkCount(|fs.files[Join(path, fileName) + ".enc"].content|, UplChunkSize);
             IsOrder(env.arrival(n), n)
    ensures cat.Valid()
    ensures cat.requests == old(cat.requests) && cat.comments == old(cat.comments)
    ensures fs.dirs == old(fs.dirs)
    ensures |cat.entries| >= |old(cat.entries)| && cat.entries[..|old(cat.entries)|] == old(cat.entries)
    ensures o.Pass? && old(cat.FindEntryByName(fileName)) == Ok(None) ==>
              cat.FindEntryByName(fileName).Ok? && cat.FindEntryByName(fileName).value.Some?
    ensures var full := Join(path, fileName);
            var enc := full + ".enc";
            var rec := RecordMeta(old(cat.entries), old(cat.ivs), cat.faults, old(cat.NextId()),
                                  full, old(fs.Stat(full)), fileName, Hex(md5sum), iv);
            var reg := AfterUpload(rec, cat.faults, SessionUpload(prims, old(fs.files[enc].content), env));
            && o == reg.outcome && cat.entries == reg.entries && cat.ivs == reg.ivs
            && (calls != [] <==> reg.uploaded && env.session.None?)
            && fs.files == old(fs.files) - {enc}
  {
    var fullPath := Join(path, fileName);
    var encFilePath := fullPath + ".enc";
    EncNotPlain(fullPath);
    RegistrationEffect(cat.entries, cat.ivs, cat.faults, cat.NextId(), fullPath, fs.Stat(fullPath), fileName, Hex(md5sum), iv,
                       SessionUpload(prims, fs.files[encFilePath].content, env));
    calls := [];
    var id := RecordPlainFileMeta(fs, cat, path, fileName, md5sum, iv);
    if id.Err? {
      var _ := fs.Remove(encFilePath);
      return Fail(id.error), [];
    }
    if env.session.Some? {
      var _ := fs.Remove(encFilePath);
      return Fail(env.session.value), [];
    }
    var archiveId;
    archiveId, calls := UploadSealed(prims, fs, encFilePath, env);
    if archiveId.Err? {
      var _ := fs.Remove(encFilePath);
      return Fail(archiveId.error), calls;
    }
    var filled := cat.SetArchiveId(id.value, archiveId.value);
    var _ := fs.Remove(encFilePath);
    o := filled;
  }

  /** UploadFile as Publish uses it: the archive id or error, and whether
      any call reached the service. */
  method UploadSealed(prims: Primitives, fs: FileSystem, fileName: string, env: UploadEnv)
    returns (r: Result<string>, calls: seq<Call>)
    requires fileName in fs.files ==>
               var n := ChunkCount(|fs.files[fileName].content|, UplChunkSize);
               IsOrder(env.arrival(n), n)
    ensures fs.Stat(fileName).IsFile? ==> r == UploadResult(prims, fs.files[fileName].content, env) && calls != []
  {
    r, calls := UploadFile(prims, fs, fileName, env);
  }

  /** RegisterToArchive. The upload uses the service outcomes `env`, and
      the encrypted file's writes fail at the buffers `writeFails`. */
  method RegisterToArchive(prims: Primitives, fs: FileSystem, cat: Catalog, rng: Entropy, path: string, fileName: string,
                           key: seq<byte>, env: UploadEnv, writeFails: set<nat>) returns (o: Outcome, calls: seq<Call>)
    modifies fs, cat, rng
    requires cat.Valid()
    requires Scheduled(env)
    ensures cat.Valid()
    ensures cat.requests == old(cat.requests) && cat.comments == old(cat.comments)
    ensures fs.dirs == old(fs.dirs)
    ensures |cat.entries| >= |old(cat.entries)| && cat.entries[..|old(cat.entries)|] == old(cat.entries)
    ensures o.Pass? && old(cat.FindEntryByName(fileName)) == Ok(None) ==>
              cat.FindEntryByName(fileName).Ok? && cat.FindEntryByName(fileName).value.Some?
    ensures |old(rng.pool)| < BlockSize ==>
              && o == Fail(RandomFault) && calls == [] && rng.pool == []
              && cat.entries == old(cat.entries) && cat.ivs == old(cat.ivs) && fs.files == old(fs.files)
    ensures |old(rng.pool)| >= BlockSize ==>
              var iv := old(rng.pool)[..BlockSize];
              var full := Join(path, fileName);
              var enc := full + ".enc";
              var steps := old(FileSteps(fs.files, full));
              var sealed := old(EncryptResult(prims, fs, full, enc, key, iv, steps, writeFails));
              && rng.pool == old(rng.pool)[BlockSize..]
              && (sealed.Err? ==>
                    && o == Fail(sealed.error) && calls == []
                    && cat.entries == old(cat.entries) && cat.ivs == old(cat.ivs)
                    && fs.files - {enc} == old(fs.files) - {enc})
              && (sealed.Ok? ==>
                    var rec := RecordMeta(old(cat.entries), old(cat.ivs), cat.faults, old(cat.NextId()),
                                          full, old(fs.Stat(full)), fileName, Hex(sealed.value), iv);
                    var crypted := EncryptRun(prims, key, iv, steps, writeFails).written;
                    var reg := AfterUpload(rec, cat.faults, SessionUpload(prims, crypted, env));
                    && o == reg.outcome && cat.entries == reg.entries && cat.ivs == reg.ivs
                    && (calls != [] <==> reg.uploaded && env.session.None?)
                    && fs.files == old(fs.files) - {enc})
  {
    var ivDrawn := MakeIV(rng);
    if ivDrawn.Err? {
      return Fail(ivDrawn.error), [];
    }
    o, calls := SealAndPublish(prims, fs, cat, path, fileName, key, ivDrawn.value, env, writeFails);
  }

  /** Everything after the IV is drawn: the encryption into the .enc file
      and, when it succeeds, Publish. */
  method SealAndPublish(prims: Primitives, fs: FileSystem, cat: Catalog, path: string, fileName: string,
                        key: seq<byte>, iv: seq<byte>, env: UploadEnv, writeFails: set<nat>) returns (o: Outcome, calls: seq<Call>)
    modifies fs, cat
    requires cat.Valid()
    requires Scheduled(env)
    requires |iv| == BlockSize
    ensures cat.Valid()
    ensures cat.requests == old(cat.requests) && cat.comments == old(cat.comments)
    ensures fs.dirs == old(fs.dirs)
    ensures |cat.entries| >= |old(cat.entries)| && cat.entries[..|old(cat.entries)|] == old(cat.entries)
    ensures o.Pass? && old(cat.FindEntryByName(fileName)) == Ok(None) ==>
              cat.FindEntryByName(fileName).Ok? && cat.FindEntryByName(fileName).value.Some?
    ensures var full := Join(path, fileName);
            var enc := full + ".enc";
            var steps := old(FileSteps(fs.files, full));
            var sealed := old(EncryptResult(prims, fs, full, enc, key, iv, steps, writeFails));
            && (sealed.Err? ==>
                  && o == Fail(sealed.error) && calls == []
                  && cat.entries == old(cat.entries) && cat.ivs == old(cat.ivs)
                  && fs.files - {enc} == old(fs.files) - {enc})
            && (sealed.Ok? ==>
                  var rec := RecordMeta(old(cat.entries), old(cat.ivs), cat.faults, old(cat.NextId()),
                                        full, old(fs.Stat(full)), fileName, Hex(sealed.value), iv);
                  var crypted := EncryptRun(prims, key, iv, steps, writeFails).written;
                  var reg := AfterUpload(rec, cat.faults, SessionUpload(prims, crypted, env));
                  && o == reg.outcome && cat.entries == reg.entries && cat.ivs == reg.ivs
                  && (calls != [] <==> reg.uploaded && env.session.None?)
                  && fs.files == old(fs.files) - {enc})
  {
    var fullPath := Join(path, fileName);
    var encFilePath := fullPath + ".enc";
    EncNotPlain(fullPath);
    var steps := FileSteps(fs.files, fullPath);
    ghost var st := fs.Stat(fullPath);
    ghost var files0 := fs.files;
    var md5sum := Encrypt(prims, fs, fullPath, encFilePath, key, iv, steps, writeFails);
    if md5sum.Err? {
      return Fail(md5sum.error), [];
    }
    // from here on, the removal of encFilePath is deferred
    ghost var crypted := EncryptRun(prims, key, iv, steps, writeFails).written;
    assert fs.files == files0[encFilePath := DiskFile(crypted, fs.now)];
    assert fs.Stat(fullPath) == st;
    o, calls := Publish(prims, fs, cat, path, fileName, md5sum.value, iv, env);
  }

  /** The two facts about the table the callers of a registration use: old
      rows are kept, and a name no row had is found once it succeeded. */
  lemma RegistrationEffect(entries: seq<Row>, ivs: map<int, seq<byte>>, faults: set<(string, int)>, id: int,
                           fullPath: string, st: Status, name: string, md5hex: string, iv: seq<byte>,
                           upload: Result<string>)
    requires forall j :: 0 <= j < |entries| ==> entries[j].id < id
    ensures var reg := AfterUpload(RecordMeta(entries, ivs, faults, id, fullPath, st, name, md5hex, iv), faults, upload);
            && |reg.entries| >= |entries| && reg.entries[..|entries|] == entries
            && (reg.outcome.Pass? && FirstMatch(entries, ByName(name)) == -1 ==>
                  FirstMatch(reg.entries, ByName(name)) >= 0 && Scan(reg.entries[FirstMatch(reg.entries, ByName(name))]).Ok?)
  {
    RegisteredRows(entries, ivs, faults, id, fullPath, st, name, md5hex, iv, upload);
    var reg := AfterUpload(RecordMeta(entries, ivs, faults, id, fullPath, st, name, md5hex, iv), faults, upload);
    if reg.outcome.Pass? && FirstMatch(entries, ByName(name)) == -1 {
      RegisteredIsFound(entries, ivs, faults, id, fullPath, st, name, md5hex, iv, upload);
    }
  }

  /** The rows kept by a registration: the rows before it are untouched, and
      once the file_entry insert has happened the table holds exactly one
      more row, the new one, with the next id, the file's name and digest,
      its mtime and size, lock 0, and an archive id only when the whole
      registration succeeded. A failed IV insert or upload leaves the row
      in place with no archive id: nothing is rolled back. */
  lemma {:induction false} RegisteredRows(entries: seq<Row>, ivs: map<int, seq<byte>>, faults: set<(string, int)>, id: int,
                                          fullPath: string, st: Status, name: string, md5hex: string, iv: seq<byte>,
                                          upload: Result<string>)
    requires forall j :: 0 <= j < |entries| ==> entries[j].id < id
    ensures var rec := RecordMeta(entries, ivs, faults, id, fullPath, st, name, md5hex, iv);
            var reg := AfterUpload(rec, faults, upload);
            && (reg.entries == entries || (
                  && |reg.entries| == |entries| + 1
                  && reg.entries[..|entries|] == entries
                  && var row := reg.entries[|entries|];
                  && row.id == id && row.name == name && row.md5sum == Some(md5hex) && row.lock == 0
                  && (row.mtime, row.size) == Meta(st)
                  && row.archiveId == (if reg.outcome.Pass? then Some(upload.value) else None)))
            && (reg.entries == entries <==> st.Faulty? || st.Absent? || ("file_entry", id) in faults)
            && (reg.outcome.Pass? <==> rec.id.Ok? && upload.Ok? && ("archive_id", id) !in faults)
            && (reg.uploaded <==> rec.id.Ok?)
            && (rec.id.Ok? ==> rec.id.value == id && reg.ivs == ivs[id := iv])
  {
    var rec := RecordMeta(entries, ivs, faults, id, fullPath, st, name, md5hex, iv);
    var reg := AfterUpload(rec, faults, upload);
    if !(st.Faulty? || st.Absent? || ("file_entry", id) in faults) {
      var (mtime, size) := Meta(st);
      var pending := entries + [Row(id, name, Some(md5hex), mtime, size, None, 0)];
      assert rec.entries == pending;
      assert pending[..|entries|] == entries;
      if reg.outcome.Pass? {
        var filled := Backfill(pending, id, upload.value);
        assert reg.entries == filled;
        assert filled[..|entries|] == entries by {
          forall j | 0 <= j < |entries| ensures filled[j] == entries[j] {
            assert pending[j] == entries[j];
          }
        }
        assert filled[|entries|] == pending[|entries|].(archiveId := Some(upload.value));
      }
      assert reg.entries != entries by {
        assert |reg.entries| == |pending| == |entries| + 1;
      }
    }
  }

  /** After a successful registration of a name no row carried before, the
      lookup by that name finds the new row, and it scans. The next sync
      therefore leaves the file alone. */
  lemma RegisteredIsFound(entries: seq<Row>, ivs: map<int, seq<byte>>, faults: set<(string, int)>, id: int,
                          fullPath: string, st: Status, name: string, md5hex: string, iv: seq<byte>,
                          upload: Result<string>)
    requires forall j :: 0 <= j < |entries| ==> entries[j].id < id
    requires FirstMatch(entries, ByName(name)) == -1
    requires AfterUpload(RecordMeta(entries, ivs, faults, id, fullPath, st, name, md5hex, iv), faults, upload).outcome.Pass?
    ensures var reg := AfterUpload(RecordMeta(entries, ivs, faults, id, fullPath, st, name, md5hex, iv), faults, upload);
            && FirstMatch(reg.entries, ByName(name)) == |entries|
            && Scan(reg.entries[|entries|]) == Ok(FileEntry(id, name, md5hex, Meta(st).0, Meta(st).1, upload.value, 0, ""))
  {
    var reg := AfterUpload(RecordMeta(entries, ivs, faults, id, fullPath, st, name, md5hex, iv), faults, upload);
    InsertedRow(entries, ivs, faults, id, fullPath, st, name, md5hex, iv, upload);
    assert upload.Ok?;
    NewRowFound(entries, reg.entries, Row(id, name, Some(md5hex), Meta(st).0, Meta(st).1, Some(upload.value), 0));
  }

  /** A name no row had, on a row appended with an archive id: the lookup
      by that name finds and scans the new row. */
  lemma NewRowFound(rows: seq<Row>, longer: seq<Row>, row: Row)
    requires FirstMatch(rows, ByName(row.name)) == -1
    requires |longer| == |rows| + 1 && longer[..|rows|] == rows && longer[|rows|] == row
    requires row.md5sum.Some? && row.archiveId.Some?
    ensures FirstMatch(longer, ByName(row.name)) == |rows|
    ensures Scan(longer[|rows|])
            == Ok(FileEntry(row.id, row.name, row.md5sum.value, row.mtime, row.size, row.archiveId.value, row.lock, ""))
  {
    FirstMatchAppended(rows, longer, ByName(row.name));
  }

  /** After an upload that failed once the rows were inserted, the lookup
      by that name finds the new row and cannot scan it: its archive id is
      NULL. Every later lookup of the file by name fails. */
  lemma FailedUploadIsUnscannable(entries: seq<Row>, ivs: map<int, seq<byte>>, faults: set<(string, int)>, id: int,
                                  fullPath: string, st: Status, name: string, md5hex: string, iv: seq<byte>,
                                  upload: Result<string>)
    requires forall j :: 0 <= j < |entries| ==> entries[j].id < id
    requires FirstMatch(entries, ByName(name)) == -1
    requires RecordMeta(entries, ivs, faults, id, fullPath, st, name, md5hex, iv).id.Ok?
    requires upload.Err?
    ensures var reg := AfterUpload(RecordMeta(entries, ivs, faults, id, fullPath, st, name, md5hex, iv), faults, upload);
            && reg.outcome == Fail(upload.error)
            && FirstMatch(reg.entries, ByName(name)) == |entries|
            && Scan(reg.entries[|entries|]) == Err(NullToString("archive_id"))
  {
    var reg := AfterUpload(RecordMeta(entries, ivs, faults, id, fullPath, st, name, md5hex, iv), faults, upload);
    InsertedRow(entries, ivs, faults, id, fullPath, st, name, md5hex, iv, upload);
    FirstMatchAppended(entries, reg.entries, ByName(name));
  }

  /** Once the file_entry insert has happened, the table is the old rows
      and the new one. */
  lemma InsertedRow(entries: seq<Row>, ivs: map<int, seq<byte>>, faults: set<(string, int)>, id: int,
                    fullPath: string, st: Status, name: string, md5hex: string, iv: seq<byte>,
                    upload: Result<string>)
    requires forall j :: 0 <= j < |entries| ==> entries[j].id < id
    requires RecordMeta(entries, ivs, faults, id, fullPath, st, name, md5hex, iv).id.Ok?
    ensures var reg := AfterUpload(RecordMeta(entries, ivs, faults, id, fullPath, st, name, md5hex, iv), faults, upload);
            && |reg.entries| == |entries| + 1 && reg.entries[..|entries|] == entries
            && reg.entries[|entries|]
               == Row(id, name, Some(md5hex), Meta(st).0, Meta(st).1, if reg.outcome.Pass? then Some(upload.value) else None, 0)
  {
    RegisteredRows(entries, ivs, faults, id, fullPath, st, name, md5hex, iv, upload);
  }

  /** A table that extends rows without a match by one matching row: the
      first match is the new row. */
  lemma FirstMatchAppended(rows: seq<Row>, longer: seq<Row>, f: Filter)
    requires FirstMatch(rows, f) == -1
    requires |longer| == |rows| + 1 && longer[..|rows|] == rows && Matches(longer[|rows|], f)
    ensures FirstMatch(longer, f) == |rows|
  {
    forall j | 0 <= j < |rows| ensures !Matches(longer[j], f) {
      assert longer[j] == longer[..|rows|][j];
    }
  }

  /** The state a registration works on: the file_entry rows, the IVs and
      the random pool. */
  datatype Tables = Tables(rows: seq<Row>, ivs: map<int, seq<byte>>, pool: seq<byte>)

  /** What one registration of `name` leaves behind, from `t0` to `t1`, as
      its callers see it: the old rows stay; the IV is drawn from the pool
      first, and a short pool is RandomFault with nothing else done; a
      success appended exactly one row, for this name, with an archive id,
      whose IV is the one drawn; and a name no row had is then found on
      that row. */
  ghost predicate RegisteredOnce(name: string, o: Outcome, t0: Tables, t1: Tables) {
    && |t1.rows| >= |t0.rows| && t1.rows[..|t0.rows|] == t0.rows
    && (|t0.pool| < BlockSize ==> o == Fail(RandomFault) && t1.rows == t0.rows && t1.ivs == t0.ivs && t1.pool == [])
    && (|t0.pool| >= BlockSize ==> t1.pool == t0.pool[BlockSize..])
    && (o.Pass? ==>
          && |t0.pool| >= BlockSize
          && |t1.rows| == |t0.rows| + 1
          && var row := t1.rows[|t0.rows|];
          && row.name == name && row.archiveId.Some? && row.md5sum.Some?
          && row.id in t1.ivs && t1.ivs[row.id] == t0.pool[..BlockSize]
          && (FirstMatch(t0.rows, ByName(name)) == -1 ==> FirstMatch(t1.rows, ByName(name)) == |t0.rows|))
  }

  /** RegisterToArchive seen through what its callers keep of it: the old
      rows stay, the untouched columns stay, the IV is drawn, a success
      appends the file's row, and a name no row had is found once the
      registration succeeded. */
  method RegisterKeepingRows(prims: Primitives, fs: FileSystem, cat: Catalog, rng: Entropy, path: string, fileName: string,
                             key: seq<byte>, env: UploadEnv, writeFails: set<nat>) returns (o: Outcome, calls: seq<Call>)
    modifies fs, cat, rng
    requires cat.Valid()
    requires Scheduled(env)
    ensures cat.Valid()
    ensures cat.requests == old(cat.requests) && cat.comments == old(cat.comments)
    ensures fs.dirs == old(fs.dirs)
    ensures |cat.entries| >= |old(cat.entries)| && cat.entries[..|old(cat.entries)|] == old(cat.entries)
    ensures o.Pass? && old(cat.FindEntryByName(fileName)) == Ok(None) ==>
              cat.FindEntryByName(fileName).Ok? && cat.FindEntryByName(fileName).value.Some?
    ensures RegisteredOnce(fileName, o, Tables(old(cat.entries), old(cat.ivs), old(rng.pool)), Tables(cat.entries, cat.ivs, rng.pool))
  {
    ghost var rows0, ivs0, pool0 := cat.entries, cat.ivs, rng.pool;
    ghost var id := cat.NextId();
    ghost var full := Join(path, fileName);
    ghost var st := fs.Stat(full);
    ghost var steps := FileSteps(fs.files, full);
    ghost var sealed := if |pool0| >= BlockSize then EncryptResult(prims, fs, full, full + ".enc", key, pool0[..BlockSize], steps, writeFails)
                        else Err(RandomFault);
    o, calls := RegisterToArchive(prims, fs, cat, rng, path, fileName, key, env, writeFails);
    if |pool0| >= BlockSize && sealed.Ok? {
      var iv := pool0[..BlockSize];
      var crypted := EncryptRun(prims, key, iv, steps, writeFails).written;
      RegisteredRows(rows0, ivs0, cat.faults, id, full, st, fileName, Hex(sealed.value), iv,
                     SessionUpload(prims, crypted, env));
      if o.Pass? {
        InsertedRow(rows0, ivs0, cat.faults, id, full, st, fileName, Hex(sealed.value), iv, SessionUpload(prims, crypted, env));
        if FirstMatch(rows0, ByName(fileName)) == -1 {
          FirstMatchAppended(rows0, cat.entries, ByName(fileName));
        }
      }
    }
  }
}
