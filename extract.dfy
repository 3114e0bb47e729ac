/** The extract command: restore every file of an archive database from the
    chunks stored in it. Each file_entry row names a file, its digest, its
    modification time and its CTR IV; its encrypted bytes are file_data
    chunks. A file is decrypted into name + ".tmp", checked against the
    digest, and only then moved into place and given its mtime. */
module Extract {
  import opened Common
  import opened Paths
  import opened Disk
  import opened Crypt

  /** A row of `select id, name, mtime, size, md5sum, iv from file_entry`:
      md5sum may be NULL, and a NULL iv scans into an empty byte slice. */
  datatype IndexRow = IndexRow(id: int, name: string, mtime: int, size: int, md5sum: Option<string>, iv: seq<byte>)

  /** What the chunk query for one entry yields: an error from the query
      itself, or its rows in ascending entry_order, each a scanned chunk or a
      scan error. */
  type ChunkQuery = Result<seq<Result<seq<byte>>>>

  /** The index of the first chunk row that failed to scan, or the row count. */
  function FirstBad(rows: seq<Result<seq<byte>>>): (k: nat)
    ensures k <= |rows|
    ensures forall j :: 0 <= j < k ==> rows[j].Ok?
    ensures k < |rows| ==> rows[k].Err?
    decreases |rows|
  {
    if rows == [] then 0
    else if rows[0].Err? then 0
    else
      var k := FirstBad(rows[1..]);
      assert forall j :: 1 <= j <= k ==> rows[j] == rows[1..][j - 1];
      k + 1
  }

  /** The bytes of the first k chunks, in order. */
  function Cipher(rows: seq<Result<seq<byte>>>, k: nat): seq<byte>
    requires k <= |rows| && forall j :: 0 <= j < k ==> rows[j].Ok?
  {
    if k == 0 then [] else Cipher(rows, k - 1) + rows[k - 1].value
  }

  /** The chunk database as the extract loop queries it: the answer to the
      chunks query of each file id. An id with no recorded answer selects
      no rows. */
  function ChunksOf(chunks: map<int, ChunkQuery>, id: int): ChunkQuery {
    if id in chunks then chunks[id] else Ok([])
  }

  /** The chunk query itself reports a panic or a hang. */
  ghost predicate CarriesFatal(q: ChunkQuery) {
    || (q.Err? && Fatal(q.error))
    || (q.Ok? && exists j :: 0 <= j < |q.value| && q.value[j].Err? && Fatal(q.value[j].error))
  }

  /** What extractFromDB leaves behind: its error (if any), the digest it
      returns, and the bytes written to the .tmp file. */
  datatype Extracted = Extracted(outcome: Outcome, md5sum: string, written: seq<byte>)

  /** extractFromDB once the .tmp file exists. The cipher needs a valid AES
      key; a NULL or short IV makes cipher.NewCTR panic; every chunk row
      until the first that fails to scan is decrypted with one keystream
      running across chunks and written, and the digest covers the
      decrypted bytes. A failure returns no digest. */
  function ExtractRun(prims: Primitives, key: seq<byte>, iv: seq<byte>, query: ChunkQuery): (e: Extracted)
    ensures e.outcome.Pass? <==> ValidKey(key) && |iv| == BlockSize && query.Ok? && FirstBad(query.value) == |query.value|
    ensures e.outcome.Pass? ==> e.md5sum == Hex(prims.md5(e.written))
    ensures e.outcome.Fail? ==> e.md5sum == ""
    ensures ValidKey(key) && |iv| != BlockSize ==> e.outcome.Fail? && Fatal(e.outcome.error) && e.written == []
    ensures e.outcome.Fail? && Fatal(e.outcome.error) ==> (ValidKey(key) && |iv| != BlockSize) || CarriesFatal(query)
    ensures !ValidKey(key) ==> e == Extracted(Fail(KeySize(|key|)), "", [])
  {
    if !ValidKey(key) then Extracted(Fail(KeySize(|key|)), "", [])
    else if |iv| != BlockSize then Extracted(Fail(Panic("cipher.NewCTR")), "", [])
    else if query.Err? then Extracted(Fail(query.error), "", [])
    else
      var rows := query.value;
      var k := FirstBad(rows);
      var plain := XorAt(prims, key, iv, Cipher(rows, k), 0);
      if k < |rows| then Extracted(Fail(rows[k].error), "", plain)
      else Extracted(Pass, Hex(prims.md5(plain)), plain)
  }

  /** The keystream runs on across chunks: chunk k is decrypted at the
      stream position where the chunks before it end. */
  lemma ChunkAtRunningPosition(prims: Primitives, key: seq<byte>, iv: seq<byte>, rows: seq<Result<seq<byte>>>, k: nat)
    requires k < |rows| && forall j :: 0 <= j <= k ==> rows[j].Ok?
    ensures XorAt(prims, key, iv, Cipher(rows, k + 1), 0)
      == XorAt(prims, key, iv, Cipher(rows, k), 0) + XorAt(prims, key, iv, rows[k].value, |Cipher(rows, k)|)
  {
    XorSplit(prims, key, iv, Cipher(rows, k), rows[k].value, 0);
  }

  /** Chunks that all scan and together hold the CTR encryption of a file,
      from stream position 0, extract to that file, with its digest. */
  lemma ExtractRoundTrip(prims: Primitives, key: seq<byte>, iv: seq<byte>, rows: seq<Result<seq<byte>>>, plain: seq<byte>)
    requires ValidKey(key) && |iv| == BlockSize
    requires forall j :: 0 <= j < |rows| ==> rows[j].Ok?
    requires Cipher(rows, |rows|) == XorAt(prims, key, iv, plain, 0)
    ensures ExtractRun(prims, key, iv, Ok(rows)) == Extracted(Pass, Hex(prims.md5(plain)), plain)
  {
    assert FirstBad(rows) == |rows|;
    XorTwice(prims, key, iv, plain, 0);
  }

  /** extractFromDB. The directory part of the name is created first (its
      error is overwritten and so ignored); creating the .tmp file can fail;
      everything after that is ExtractRun, and the .tmp file keeps whatever
      was written before a failure. */
  method ExtractFromDB(prims: Primitives, fs: FileSystem, name: string, key: seq<byte>, iv: seq<byte>, query: ChunkQuery)
    returns (md5sum: string, o: Outcome)
    modifies fs
    ensures var dir := Split(name).0;
      fs.dirs == old(fs.dirs) + if dir != "" then old(MkdirAllRun(fs.files, fs.dirs, fs.statFaults, dir)).1 else {}
    ensures name + ".tmp" in fs.statFaults || name + ".tmp" in fs.dirs ==>
      o.Fail? && !Fatal(o.error) && md5sum == "" && fs.files == old(fs.files)
    ensures name + ".tmp" !in fs.statFaults && name + ".tmp" !in fs.dirs ==>
      var e := ExtractRun(prims, key, iv, query);
      o == e.outcome && md5sum == e.md5sum && fs.files == old(fs.files)[name + ".tmp" := DiskFile(e.written, fs.now)]
  {
    MakeParent(fs, name);
    md5sum, o := CreateAndDecrypt(prims, fs, name + ".tmp", key, iv, query);
  }

  /** The MkdirAll of the name's directory, whose error is dropped. */
  method MakeParent(fs: FileSystem, name: string)
    modifies fs
    ensures fs.files == old(fs.files)
    ensures var dir := Split(name).0;
      fs.dirs == old(fs.dirs) + if dir != "" then old(MkdirAllRun(fs.files, fs.dirs, fs.statFaults, dir)).1 else {}
  {
    var (dir, _) := Split(name);
    if dir != "" {
      var ignored := fs.MkdirAll(dir);
    }
  }

  /** os.Create of the .tmp file, then the decryption into it. */
  method CreateAndDecrypt(prims: Primitives, fs: FileSystem, tmp: string, key: seq<byte>, iv: seq<byte>, query: ChunkQuery)
    returns (md5sum: string, o: Outcome)
    modifies fs
    ensures fs.dirs == old(fs.dirs)
    ensures tmp in fs.statFaults || tmp in fs.dirs ==>
      o.Fail? && !Fatal(o.error) && md5sum == "" && fs.files == old(fs.files)
    ensures tmp !in fs.statFaults && tmp !in fs.dirs ==>
      var e := ExtractRun(prims, key, iv, query);
      o == e.outcome && md5sum == e.md5sum && fs.files == old(fs.files)[tmp := DiskFile(e.written, fs.now)]
  {
    o := fs.WriteFile(tmp, []);
    if o.Fail? {
      return "", o;
    }
    md5sum, o := DecryptInto(prims, fs, tmp, key, iv, query);
    ghost var e := ExtractRun(prims, key, iv, query);
    OverwriteTwice(old(fs.files), tmp, DiskFile([], fs.now), DiskFile(e.written, fs.now));
  }

  /** Everything after the .tmp file is created: the cipher, the chunk query
      and the rows loop. */
  method DecryptInto(prims: Primitives, fs: FileSystem, tmp: string, key: seq<byte>, iv: seq<byte>, query: ChunkQuery)
    returns (md5sum: string, o: Outcome)
    modifies fs
    requires tmp in fs.files && fs.files[tmp] == DiskFile([], fs.now) && tmp !in fs.dirs && tmp !in fs.statFaults
    ensures fs.dirs == old(fs.dirs)
    ensures var e := ExtractRun(prims, key, iv, query);
      o == e.outcome && md5sum == e.md5sum && fs.files == old(fs.files)[tmp := DiskFile(e.written, fs.now)]
  {
    if !ValidKey(key) {
      return "", Fail(KeySize(|key|));
    }
    if |iv| != BlockSize {
      return "", Fail(Panic("cipher.NewCTR"));
    }
    if query.Err? {
      return "", Fail(query.error);
    }
    md5sum, o := ChunkLoop(prims, fs, tmp, key, iv, query.value);
  }

  /** The rows.Next loop: decrypt each chunk at the running stream position,
      hash it and append it to the open .tmp file. */
  method ChunkLoop(prims: Primitives, fs: FileSystem, tmp: string, key: seq<byte>, iv: seq<byte>, rows: seq<Result<seq<byte>>>)
    returns (md5sum: string, o: Outcome)
    modifies fs
    requires ValidKey(key) && |iv| == BlockSize
    requires tmp in fs.files && fs.files[tmp] == DiskFile([], fs.now) && tmp !in fs.dirs && tmp !in fs.statFaults
    ensures fs.dirs == old(fs.dirs)
    ensures var e := ExtractRun(prims, key, iv, Ok(rows));
      o == e.outcome && md5sum == e.md5sum && fs.files == old(fs.files)[tmp := DiskFile(e.written, fs.now)]
  {
    var hashed: seq<byte> := [];
    ghost var consumed: seq<byte> := [];
    var pos := 0;
    var i := 0;
    ghost var k := FirstBad(rows);
    assert fs.files == old(fs.files)[tmp := DiskFile([], fs.now)];
    while i < |rows|
      invariant 0 <= i <= k
      invariant consumed == Cipher(rows, i) && pos == |consumed|
      invariant hashed == XorAt(prims, key, iv, consumed, 0)
      invariant fs.dirs == old(fs.dirs)
      invariant fs.files == old(fs.files)[tmp := DiskFile(hashed, fs.now)]
      invariant tmp !in fs.dirs
      decreases |rows| - i
    {
      if rows[i].Err? {
        return "", Fail(rows[i].error);
      }
      var data := XorAt(prims, key, iv, rows[i].value, pos);
      ChunkAtRunningPosition(prims, key, iv, rows, i);
      hashed := hashed + data;
      consumed := consumed + rows[i].value;
      pos := pos + |rows[i].value|;
      var ignored := fs.WriteFile(tmp, hashed);
      i := i + 1;
    }
    md5sum := Hex(prims.md5(hashed));
    o := Pass;
  }

  /** The files and directories of the disk at one moment. */
  datatype Tree = Tree(files: map<string, DiskFile>, dirs: set<string>)

  /** extract's treatment of one file, from the disk `t0` to the disk `t1`:
      the name's directory is made (its error dropped); the .tmp file is
      created and receives ExtractRun's bytes; a failure there, or a digest
      other than the index's, ends with the .tmp file left behind; an
      existing target (file or directory) is refused, a target whose stat
      fails returns that error; otherwise the .tmp file becomes the target,
      with the stored mtime. */
  ghost predicate OneExtracted(prims: Primitives, key: seq<byte>, statFaults: set<string>, now: int, name: string,
                               mtime: int, md5sum: string, iv: seq<byte>, query: ChunkQuery, t0: Tree, t1: Tree,
                               o: Outcome)
  {
    var tmp := name + ".tmp";
    var dir := Split(name).0;
    && t1.dirs == t0.dirs + (if dir != "" then MkdirAllRun(t0.files, t0.dirs, statFaults, dir).1 else {})
    && (tmp in statFaults || tmp in t1.dirs ==> o.Fail? && !Fatal(o.error) && t1.files == t0.files)
    && (tmp !in statFaults && tmp !in t1.dirs ==>
          var e := ExtractRun(prims, key, iv, query);
          var staged := t0.files[tmp := DiskFile(e.written, now)];
          var st := StatIn(staged, t1.dirs, statFaults, name);
          && (e.outcome.Fail? ==> o == e.outcome && t1.files == staged)
          && (e.outcome.Pass? && e.md5sum != md5sum ==> o == Fail(ExtractMd5Differs) && t1.files == staged)
          && (e.outcome.Pass? && e.md5sum == md5sum ==>
                && (st.Faulty? ==> o == Fail(st.error) && t1.files == staged)
                && (st.IsFile? || st.IsDirectory? ==> o == Fail(FileExists(name)) && t1.files == staged)
                && (st.Absent? ==> o == Pass && t1.files == (staged - {tmp})[name := DiskFile(e.written, mtime)])))
  }

  /** extract: restore one file. The digest is checked before the target is
      looked at; an existing target (file or directory) is refused and
      nothing is renamed; only then is the .tmp file moved into place and
      given the stored mtime. */
  method ExtractOne(prims: Primitives, fs: FileSystem, name: string, mtime: int, md5sum: string, key: seq<byte>,
                    iv: seq<byte>, query: ChunkQuery)
    returns (o: Outcome)
    modifies fs
    ensures OneExtracted(prims, key, fs.statFaults, fs.now, name, mtime, md5sum, iv, query,
                         Tree(old(fs.files), old(fs.dirs)), Tree(fs.files, fs.dirs), o)
    ensures o.Fail? && Fatal(o.error) ==> (ValidKey(key) && |iv| != BlockSize) || CarriesFatal(query)
    ensures o.Pass? ==> name in fs.files && Hex(prims.md5(fs.files[name].content)) == md5sum
  {
    var md5w: string;
    md5w, o := ExtractFromDB(prims, fs, name, key, iv, query);
    if o.Fail? {
      return;
    }
    o := MoveIntoPlace(fs, name, mtime, md5sum, md5w);
  }

  /** The end of extract once extractFromDB succeeded: compare the digests,
      refuse an existing target, then rename .tmp into place and set its
      mtime. */
  method MoveIntoPlace(fs: FileSystem, name: string, mtime: int, md5sum: string, md5w: string) returns (o: Outcome)
    modifies fs
    requires name + ".tmp" in fs.files && name + ".tmp" !in fs.statFaults
    ensures fs.dirs == old(fs.dirs)
    ensures md5w != md5sum ==> o == Fail(ExtractMd5Differs) && fs.files == old(fs.files)
    ensures md5w == md5sum ==>
              var st := old(fs.Stat(name));
              var tmp := name + ".tmp";
              && (st.Faulty? ==> o == Fail(st.error) && fs.files == old(fs.files))
              && (st.IsFile? || st.IsDirectory? ==> o == Fail(FileExists(name)) && fs.files == old(fs.files))
              && (st.Absent? ==> o == Pass && fs.files == (old(fs.files) - {tmp})[name := DiskFile(old(fs.files)[tmp].content, mtime)])
  {
    if md5sum != md5w {
      return Fail(ExtractMd5Differs);
    }
    match fs.Stat(name)
    case Faulty(e) =>
      return Fail(e);
    case IsFile(_) =>
      return Fail(FileExists(name));
    case IsDirectory =>
      return Fail(FileExists(name));
    case Absent =>
    assert name != name + ".tmp" by { assert |name + ".tmp"| > |name|; }
    o := fs.Rename(name + ".tmp", name);
    o := fs.Chtimes(name, mtime);
  }

  /** Rows 0 .. |rs| - 1 were each extracted, from the disk `snaps[j]` to
      the disk `snaps[j + 1]` with outcome `rs[j]`, and each had an md5sum. */
  ghost predicate RowsExtracted(prims: Primitives, key: seq<byte>, statFaults: set<string>, now: int,
                                rows: seq<IndexRow>, chunks: map<int, ChunkQuery>, snaps: seq<Tree>, rs: seq<Outcome>)
  {
    && |rs| <= |rows| && |snaps| == |rs| + 1
    && forall j :: 0 <= j < |rs| ==>
         && rows[j].md5sum.Some?
         && OneExtracted(prims, key, statFaults, now, rows[j].name, rows[j].mtime, rows[j].md5sum.value, rows[j].iv,
                         ChunksOf(chunks, rows[j].id), snaps[j], snaps[j + 1], rs[j])
  }

  /** extract's loop up to where it stopped: every row reached was
      extracted, and no row but the last reached was fatal. The loop stops
      at a fatal result, which it returns; at a row whose md5sum is NULL,
      with that error; or after the last row, with success. */
  ghost predicate Extraction(prims: Primitives, key: seq<byte>, statFaults: set<string>, now: int, rows: seq<IndexRow>,
                             chunks: map<int, ChunkQuery>, snaps: seq<Tree>, rs: seq<Outcome>, o: Outcome)
  {
    && RowsExtracted(prims, key, statFaults, now, rows, chunks, snaps, rs)
    && (forall j :: 0 <= j < |rs| - 1 ==> !(rs[j].Fail? && Fatal(rs[j].error)))
    && var stopped := |rs| > 0 && rs[|rs| - 1].Fail? && Fatal(rs[|rs| - 1].error);
       && (stopped ==> o == rs[|rs| - 1])
       && (!stopped && |rs| < |rows| ==> rows[|rs|].md5sum.None? && o == Fail(NullToString("md5sum")))
       && (!stopped && |rs| == |rows| ==> o == Pass)
  }

  /** One more row extracted, from the last disk, keeps every earlier row
      extracted. */
  lemma RowsExtractedGrow(prims: Primitives, key: seq<byte>, statFaults: set<string>, now: int, rows: seq<IndexRow>,
                          chunks: map<int, ChunkQuery>, snaps: seq<Tree>, rs: seq<Outcome>, t: Tree, r: Outcome)
    requires RowsExtracted(prims, key, statFaults, now, rows, chunks, snaps, rs)
    requires |rs| < |rows| && rows[|rs|].md5sum.Some?
    requires OneExtracted(prims, key, statFaults, now, rows[|rs|].name, rows[|rs|].mtime, rows[|rs|].md5sum.value,
                          rows[|rs|].iv, ChunksOf(chunks, rows[|rs|].id), snaps[|rs|], t, r)
    ensures RowsExtracted(prims, key, statFaults, now, rows, chunks, snaps + [t], rs + [r])
  {
    var snaps1, rs1 := snaps + [t], rs + [r];
    forall j | 0 <= j < |rs1|
      ensures && rows[j].md5sum.Some?
              && OneExtracted(prims, key, statFaults, now, rows[j].name, rows[j].mtime, rows[j].md5sum.value, rows[j].iv,
                              ChunksOf(chunks, rows[j].id), snaps1[j], snaps1[j + 1], rs1[j])
    {
      if j < |rs| {
        assert snaps1[j] == snaps[j] && snaps1[j + 1] == snaps[j + 1] && rs1[j] == rs[j];
      } else {
        assert snaps1[j] == snaps[|rs|] && snaps1[j + 1] == t && rs1[j] == r;
      }
    }
  }

  /** SubCmdExtract: extract every indexed file. A failed index query or a
      row whose md5sum is NULL ends the command with that error; a file that
      fails to extract is skipped and the loop goes on (a panic still
      unwinds), so the command otherwise succeeds. `snaps` are the disks
      before each row and at the end, `rs` what each row returned. */
  method SubCmdExtract(prims: Primitives, fs: FileSystem, key: seq<byte>, index: Result<seq<IndexRow>>,
                       chunks: map<int, ChunkQuery>)
    returns (o: Outcome, ghost snaps: seq<Tree>, ghost rs: seq<Outcome>)
    modifies fs
    ensures index.Err? ==> o == Fail(index.error) && unchanged(fs)
    ensures o.Pass? ==> index.Ok? && forall i :: 0 <= i < |index.value| ==> index.value[i].md5sum.Some?
    ensures o.Fail? && !Fatal(o.error) ==> index.Err? || o.error == NullToString("md5sum")
    ensures && index.Ok?
            && (forall i :: 0 <= i < |index.value| ==> index.value[i].md5sum.Some?)
            && (ValidKey(key) ==> forall i :: 0 <= i < |index.value| ==> |index.value[i].iv| == BlockSize)
            && (forall i :: 0 <= i < |index.value| ==> !CarriesFatal(ChunksOf(chunks, index.value[i].id)))
            ==> o == Pass
    ensures index.Ok? ==>
              && Extraction(prims, key, fs.statFaults, fs.now, index.value, chunks, snaps, rs, o)
              && snaps[0] == Tree(old(fs.files), old(fs.dirs))
              && snaps[|snaps| - 1] == Tree(fs.files, fs.dirs)
  {
    if index.Err? {
      return Fail(index.error), [Tree(fs.files, fs.dirs)], [];
    }
    o, snaps, rs := ExtractRows(prims, fs, key, index.value, chunks);
  }

  /** No outcome in `rs` is fatal. */
  ghost predicate NoneFatal(rs: seq<Outcome>)
    decreases |rs|
  {
    |rs| > 0 ==> NoneFatal(rs[..|rs| - 1]) && !(rs[|rs| - 1].Fail? && Fatal(rs[|rs| - 1].error))
  }

  lemma {:induction false} NoneFatalEach(rs: seq<Outcome>)
    requires NoneFatal(rs)
    ensures forall j :: 0 <= j < |rs| ==> !(rs[j].Fail? && Fatal(rs[j].error))
    decreases |rs|
  {
    if |rs| > 0 {
      var k := |rs| - 1;
      NoneFatalEach(rs[..k]);
      assert forall j :: 0 <= j < k ==> rs[..k][j] == rs[j];
    }
  }

  /** The three ways extract's loop ends: at a fatal result, at a row
      whose md5sum is NULL, or after the last row. */
  lemma ExtractionEnds(prims: Primitives, key: seq<byte>, statFaults: set<string>, now: int, rows: seq<IndexRow>,
                       chunks: map<int, ChunkQuery>, snaps: seq<Tree>, rs: seq<Outcome>, o: Outcome)
    requires RowsExtracted(prims, key, statFaults, now, rows, chunks, snaps, rs)
    requires || (|rs| > 0 && NoneFatal(rs[..|rs| - 1]) && o == rs[|rs| - 1] && o.Fail? && Fatal(o.error))
             || (NoneFatal(rs) && |rs| < |rows| && rows[|rs|].md5sum.None? && o == Fail(NullToString("md5sum")))
             || (NoneFatal(rs) && |rs| == |rows| && o == Pass)
    ensures Extraction(prims, key, statFaults, now, rows, chunks, snaps, rs, o)
  {
    if |rs| > 0 && NoneFatal(rs[..|rs| - 1]) && o == rs[|rs| - 1] && o.Fail? && Fatal(o.error) {
      NoneFatalEach(rs[..|rs| - 1]);
      assert forall j :: 0 <= j < |rs| - 1 ==> rs[..|rs| - 1][j] == rs[j];
    } else {
      NoneFatalEach(rs);
    }
  }

  /** The loop of SubCmdExtract over the index rows. */
  method ExtractRows(prims: Primitives, fs: FileSystem, key: seq<byte>, rows: seq<IndexRow>, chunks: map<int, ChunkQuery>)
    returns (o: Outcome, ghost snaps: seq<Tree>, ghost rs: seq<Outcome>)
    modifies fs
    ensures o.Pass? ==> forall i :: 0 <= i < |rows| ==> rows[i].md5sum.Some?
    ensures o.Fail? && !Fatal(o.error) ==> o.error == NullToString("md5sum")
    ensures && (forall i :: 0 <= i < |rows| ==> rows[i].md5sum.Some?)
            && (ValidKey(key) ==> forall i :: 0 <= i < |rows| ==> |rows[i].iv| == BlockSize)
            && (forall i :: 0 <= i < |rows| ==> !CarriesFatal(ChunksOf(chunks, rows[i].id)))
            ==> o == Pass
    ensures Extraction(prims, key, fs.statFaults, fs.now, rows, chunks, snaps, rs, o)
    ensures snaps[0] == Tree(old(fs.files), old(fs.dirs)) && snaps[|snaps| - 1] == Tree(fs.files, fs.dirs)
  {
    snaps, rs := [Tree(fs.files, fs.dirs)], [];
    o := Pass;
    var i := 0;
    while i < |rows|
      invariant 0 <= i <= |rows|
      invariant |rs| == i && |snaps| == i + 1
      invariant snaps[0] == Tree(old(fs.files), old(fs.dirs)) && snaps[i] == Tree(fs.files, fs.dirs)
      invariant RowsExtracted(prims, key, fs.statFaults, fs.now, rows, chunks, snaps, rs)
      invariant NoneFatal(rs) && o == Pass
    {
      if rows[i].md5sum.None? {
        o := Fail(NullToString("md5sum"));
        break;
      }
      ghost var rs0 := rs;
      o, snaps, rs := ExtractNext(prims, fs, key, rows, chunks, i, snaps, rs);
      assert rs[..i] == rs0;
      if o.Fail? && Fatal(o.error) {
        break;
      }
      o := Pass;
      i := i + 1;
    }
    ExtractionEnds(prims, key, fs.statFaults, fs.now, rows, chunks, snaps, rs, o);
  }

  /** One turn of SubCmdExtract's loop: extract row i, whose md5sum is
      set, and record the disk after it and its outcome. */
  method ExtractNext(prims: Primitives, fs: FileSystem, key: seq<byte>, rows: seq<IndexRow>, chunks: map<int, ChunkQuery>,
                     i: nat, ghost snaps: seq<Tree>, ghost rs: seq<Outcome>)
    returns (r: Outcome, ghost snaps1: seq<Tree>, ghost rs1: seq<Outcome>)
    modifies fs
    requires RowsExtracted(prims, key, fs.statFaults, fs.now, rows, chunks, snaps, rs)
    requires i == |rs| < |rows| && rows[i].md5sum.Some? && snaps[i] == Tree(fs.files, fs.dirs)
    ensures RowsExtracted(prims, key, fs.statFaults, fs.now, rows, chunks, snaps1, rs1)
    ensures snaps1 == snaps + [Tree(fs.files, fs.dirs)] && rs1 == rs + [r]
    ensures r.Fail? && Fatal(r.error) ==>
              (ValidKey(key) && |rows[i].iv| != BlockSize) || CarriesFatal(ChunksOf(chunks, rows[i].id))
  {
    var row := rows[i];
    r := ExtractOne(prims, fs, row.name, row.mtime, row.md5sum.value, key, row.iv, ChunksOf(chunks, row.id));
    RowsExtractedGrow(prims, key, fs.statFaults, fs.now, rows, chunks, snaps, rs, Tree(fs.files, fs.dirs), r);
    snaps1, rs1 := snaps + [Tree(fs.files, fs.dirs)], rs + [r];
  }
}
