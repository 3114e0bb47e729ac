/** Retrieval of a finished archive-retrieval job into a local file. The
    archive is cut into 8 MiB ranges (ids from 1); each range is fetched
    into its own temp file next to the destination, retrying until the copy
    succeeds; the destination is then created and the temp files appended to
    it in ascending id order; a deferred cleanup removes the temp files of
    ids 1..n on every path that returns. */
module Download {
  import opened Common
  import opened Paths
  import opened Chunking
  import opened Disk

  const DlChunkSize: int := 8 * 1024 * 1024

  /** A job as DescribeJob reports it, with the bytes its output holds. */
  datatype Job = Job(completed: bool, archive: seq<byte>)

  /** What the service and the file system do that the model cannot see:
      the DescribeJob answer, how many attempts of each chunk fail before one
      succeeds, and the positions whose append to the destination fails. */
  datatype DownloadEnv = DownloadEnv(describe: Result<Job>, failedAttempts: int -> nat, appendFails: set<int>)

  /** The temp file of chunk i: `mars-<base>_<i as %03d>.tmp` in the
      destination's directory. */
  function TempName(filePath: string, i: nat): string {
    var (dir, base) := Split(filePath);
    Join(dir, TempBase(base, i))
  }

  /** The file name part of a temp file. */
  function TempBase(base: string, i: nat): string {
    "mars-" + base + "_" + Pad3(i) + ".tmp"
  }

  /** The directory part of Split ends in '/', or is empty. */
  lemma SplitDir(p: string)
    ensures Split(p).0 == [] || Split(p).0[|Split(p).0| - 1] == '/'
  {
  }

  lemma TempNameShape(filePath: string, i: nat)
    ensures TempName(filePath, i) == Split(filePath).0 + TempBase(Split(filePath).1, i)
  {
    var (dir, base) := Split(filePath);
    SplitDir(filePath);
    if dir != "" {
      assert dir[|dir| - 1] == '/';
      assert dir != ".";
    }
  }

  /** Different chunks never share a temp file. */
  lemma TempNameInjective(filePath: string, i: nat, j: nat)
    requires TempName(filePath, i) == TempName(filePath, j)
    ensures i == j
  {
    var (dir, base) := Split(filePath);
    TempNameShape(filePath, i);
    TempNameShape(filePath, j);
    var a := TempName(filePath, i);
    assert TempBase(base, i) == a[|dir|..];
    assert TempBase(base, j) == a[|dir|..];
    TempBaseInjective(base, i, j);
  }

  lemma TempBaseInjective(base: string, i: nat, j: nat)
    requires TempBase(base, i) == TempBase(base, j)
    ensures i == j
  {
    var m := "mars-" + base + "_";
    Middle(m, Pad3(i), ".tmp");
    Middle(m, Pad3(j), ".tmp");
    Pad3Injective(i, j);
  }

  /** The middle of a three-part string. */
  lemma Middle(m: string, x: string, e: string)
    ensures |m + x + e| == |m| + |x| + |e|
    ensures (m + x + e)[|m|..|m| + |x|] == x
  {
  }

  /** No temp file is the destination itself. */
  lemma TempNameNotTarget(filePath: string, i: nat)
    ensures TempName(filePath, i) != filePath
  {
    TempNameShape(filePath, i);
    var (dir, base) := Split(filePath);
    assert |TempName(filePath, i)| > |dir| + |base|;
  }

  /** The temp files of chunks 1..n. */
  function Temps(filePath: string, n: nat): set<string> {
    set i | 1 <= i <= n :: TempName(filePath, i)
  }

  /** The planning loop of a download: the plan with ids 1, 2, ... */
  method PlanSpecs(size: int) returns (chunks: seq<Chunk>)
    ensures chunks == Plan(size, DlChunkSize, 1)
  {
    chunks := [];
    var i := 1;
    var p := 0;
    while p < size
      invariant chunks + PlanFrom(p, size, DlChunkSize, i) == Plan(size, DlChunkSize, 1)
      decreases size - p
    {
      var px := p + DlChunkSize - 1;
      if px > size {
        px := size - 1;
      }
      assert PlanFrom(p, size, DlChunkSize, i) == [Chunk(i, p, px)] + PlanFrom(p + DlChunkSize, size, DlChunkSize, i + 1);
      chunks := chunks + [Chunk(i, p, px)];
      i := i + 1;
      p := p + DlChunkSize;
    }
  }

  /** The bytes GetJobOutput returns for `bytes=start-end`: the inclusive
      range, cut at the end of the archive. */
  function RangeBytes(archive: seq<byte>, spec: Chunk): seq<byte>
    requires 0 <= spec.start <= |archive| && spec.start <= spec.end + 1
  {
    archive[spec.start..Min(spec.end + 1, |archive|)]
  }

  /** downloadChunk: every failed attempt removes the temp file before the
      next one; the attempt that gets the range creates the temp file and
      copies the range into it. When creating the temp file fails, the
      retry's os.Remove clears the way if the path is an empty directory;
      otherwise every further attempt fails the same way and the loop never
      ends. */
  method DownloadChunk(fs: FileSystem, archive: seq<byte>, spec: Chunk, filePath: string, failures: nat)
    returns (o: Outcome)
    modifies fs
    requires spec.id >= 0 && 0 <= spec.start <= |archive| && spec.start <= spec.end + 1
    ensures o == Pass || o == Fail(Hang)
    ensures o.Pass? <==> TempName(filePath, spec.id) !in fs.statFaults && TempName(filePath, spec.id) !in fs.dirs
    ensures o.Pass? ==> fs.files == old(fs.files)[TempName(filePath, spec.id) := DiskFile(RangeBytes(archive, spec), fs.now)]
    ensures fs.files - {TempName(filePath, spec.id)} == old(fs.files) - {TempName(filePath, spec.id)}
    ensures fs.dirs <= old(fs.dirs) && old(fs.dirs) - fs.dirs <= {TempName(filePath, spec.id)}
  {
    var fn := TempName(filePath, spec.id);
    var body := RangeBytes(archive, spec);
    var attempt := 0;
    while attempt < failures
      invariant fs.files - {fn} == old(fs.files) - {fn}
      invariant fs.dirs <= old(fs.dirs) && old(fs.dirs) - fs.dirs <= {fn}
    {
      var _ := fs.Remove(fn);
      attempt := attempt + 1;
    }
    ghost var mid := fs.files;
    o := WriteTemp(fs, fn, body);
    if o.Pass? {
      AgreeAfterUpdate(mid, old(fs.files), fn, DiskFile(body, fs.now));
    }
  }

  /** The write of a chunk's temp file: os.Create, and on failure one
      os.Remove and a second os.Create; a second failure never returns. */
  method WriteTemp(fs: FileSystem, fn: string, body: seq<byte>) returns (o: Outcome)
    modifies fs
    ensures o == Pass || o == Fail(Hang)
    ensures o.Pass? <==> fn !in fs.statFaults && fn !in fs.dirs
    ensures o.Pass? ==> fs.files == old(fs.files)[fn := DiskFile(body, fs.now)]
    ensures fs.files - {fn} == old(fs.files) - {fn}
    ensures fs.dirs <= old(fs.dirs) && old(fs.dirs) - fs.dirs <= {fn}
  {
    var w := fs.WriteFile(fn, body);
    if w.Fail? {
      var _ := fs.Remove(fn);
      w := fs.WriteFile(fn, body);
      if w.Fail? {
        return Fail(Hang);
      }
    }
    AgreeAfterUpdate(fs.files, old(fs.files), fn, DiskFile(body, fs.now));
    o := Pass;
  }

  /** cleanupTemp: os.Remove of the temp files of chunks 1..n, errors
      ignored. */
  method CleanupTemp(fs: FileSystem, filePath: string, n: nat)
    modifies fs
    ensures fs.files - Temps(filePath, n) == old(fs.files) - Temps(filePath, n)
    ensures forall i :: 1 <= i <= n && TempName(filePath, i) !in fs.statFaults ==> TempName(filePath, i) !in fs.files
    ensures fs.dirs <= old(fs.dirs) && old(fs.dirs) - fs.dirs <= Temps(filePath, n)
  {
    var i := 1;
    while i <= n
      invariant 1 <= i <= n + 1
      invariant fs.files - Temps(filePath, i - 1) == old(fs.files) - Temps(filePath, i - 1)
      invariant forall j :: 1 <= j < i && TempName(filePath, j) !in fs.statFaults ==> TempName(filePath, j) !in fs.files
      invariant fs.dirs <= old(fs.dirs) && old(fs.dirs) - fs.dirs <= Temps(filePath, i - 1)
    {
      var fn := TempName(filePath, i);
      ghost var before, dirsBefore := fs.files, fs.dirs;
      var _ := fs.Remove(fn);
      RemoveStep(fs.files, before, old(fs.files), fs.statFaults, filePath, i);
      RemoveStepDirs(fs.dirs, dirsBefore, old(fs.dirs), filePath, i);
      i := i + 1;
    }
  }

  /** One step of the cleanup loop on the file table: removing (or failing
      to remove) the temp file of chunk i. */
  lemma RemoveStep(after: map<string, DiskFile>, before: map<string, DiskFile>, orig: map<string, DiskFile>,
                   faults: set<string>, filePath: string, i: nat)
    requires 1 <= i
    requires after - {TempName(filePath, i)} == before - {TempName(filePath, i)} && after.Keys <= before.Keys
    requires TempName(filePath, i) !in faults ==> TempName(filePath, i) !in after
    requires before - Temps(filePath, i - 1) == orig - Temps(filePath, i - 1)
    requires forall j :: 1 <= j < i && TempName(filePath, j) !in faults ==> TempName(filePath, j) !in before
    ensures after - Temps(filePath, i) == orig - Temps(filePath, i)
    ensures forall j :: 1 <= j <= i && TempName(filePath, j) !in faults ==> TempName(filePath, j) !in after
  {
    assert Temps(filePath, i) == Temps(filePath, i - 1) + {TempName(filePath, i)};
    AgreeOutside(after, before, {TempName(filePath, i)}, Temps(filePath, i));
    AgreeOutside(before, orig, Temps(filePath, i - 1), Temps(filePath, i));
  }

  /** One step of the cleanup loop on the directory set. */
  lemma RemoveStepDirs(after: set<string>, before: set<string>, orig: set<string>, filePath: string, i: nat)
    requires 1 <= i
    requires after <= before && before - after <= {TempName(filePath, i)}
    requires before <= orig && orig - before <= Temps(filePath, i - 1)
    ensures after <= orig && orig - after <= Temps(filePath, i)
  {
    assert Temps(filePath, i) == Temps(filePath, i - 1) + {TempName(filePath, i)};
  }

  /** The contents of the temp files of chunks 1..n in a file table, in
      ascending order (a missing one contributes nothing). */
  function TempContents(files: map<string, DiskFile>, filePath: string, n: nat): (r: seq<seq<byte>>)
    ensures |r| == n
  {
    seq(n, j requires 0 <= j < n =>
      if TempName(filePath, j + 1) in files then files[TempName(filePath, j + 1)].content else [])
  }

  /** doAppend of chunk i can succeed: its temp file opens and its copy
      into the destination does not fail. */
  predicate Appendable(files: map<string, DiskFile>, faults: set<string>, filePath: string,
                       appendFails: set<int>, i: nat) {
    TempName(filePath, i) in files && TempName(filePath, i) !in faults && i !in appendFails
  }

  /** Chunks 1..k can all be appended. */
  predicate AppendableUpTo(files: map<string, DiskFile>, faults: set<string>, filePath: string,
                          appendFails: set<int>, k: nat)
    decreases k
  {
    k == 0 || (AppendableUpTo(files, faults, filePath, appendFails, k - 1) && Appendable(files, faults, filePath, appendFails, k))
  }

  lemma {:induction false} AppendableUpToAll(files: map<string, DiskFile>, faults: set<string>, filePath: string,
                                            appendFails: set<int>, k: nat)
    requires AppendableUpTo(files, faults, filePath, appendFails, k)
    ensures forall j :: 1 <= j <= k ==> Appendable(files, faults, filePath, appendFails, j)
  {
    if k > 0 {
      AppendableUpToAll(files, faults, filePath, appendFails, k - 1);
    }
  }

  /** The merge: os.Create of the destination, then doAppend of the temp
      files of chunks 1..n in ascending order. The first temp file that
      cannot be opened, or whose copy fails, ends the merge with an error
      tagged with its position; the destination then holds the earlier
      temp files only. */
  method MergeTemps(fs: FileSystem, filePath: string, n: nat, appendFails: set<int>) returns (o: Outcome)
    modifies fs
    ensures fs.dirs == old(fs.dirs)
    ensures fs.files - {filePath} == old(fs.files) - {filePath}
    ensures o.Pass? <==>
              && filePath !in fs.statFaults && filePath !in fs.dirs
              && forall i :: 1 <= i <= n ==> Appendable(old(fs.files), fs.statFaults, filePath, appendFails, i)
    ensures o.Pass? ==>
              filePath in fs.files && fs.files[filePath].content == Flatten(TempContents(old(fs.files), filePath, n))
    ensures o.Fail? && (filePath in fs.statFaults || filePath in fs.dirs) ==>
              o.error == if filePath in fs.statFaults then PathFault(filePath) else IsDir(filePath)
    ensures o.Fail? && filePath !in fs.statFaults && filePath !in fs.dirs ==>
              && o.error.Tagged? && 1 <= o.error.tag <= n
              && !Appendable(old(fs.files), fs.statFaults, filePath, appendFails, o.error.tag)
              && forall j :: 1 <= j < o.error.tag ==> Appendable(old(fs.files), fs.statFaults, filePath, appendFails, j)
  {
    ghost var files0 := fs.files;
    var created := fs.WriteFile(filePath, []);
    if created.Fail? {
      return created;
    }
    o := AppendTemps(fs, filePath, n, appendFails, files0);
  }

  /** doAppend of the temp file of chunk i onto the destination. */
  method AppendOne(fs: FileSystem, filePath: string, i: nat, appendFails: set<int>, ghost files0: map<string, DiskFile>)
    returns (o: Outcome)
    modifies fs
    requires i >= 1
    requires fs.files - {filePath} == files0 - {filePath}
    requires filePath in fs.files && filePath !in fs.statFaults && filePath !in fs.dirs
    ensures fs.dirs == old(fs.dirs)
    ensures fs.files - {filePath} == files0 - {filePath}
    ensures filePath in fs.files
    ensures o.Pass? <==> Appendable(files0, fs.statFaults, filePath, appendFails, i)
    ensures o.Pass? ==> fs.files[filePath].content == old(fs.files[filePath].content) + TempContents(files0, filePath, i)[i - 1]
    ensures o.Fail? ==> o.error.Tagged? && o.error.tag == i && fs.files == old(fs.files)
  {
    var fn := TempName(filePath, i);
    TempNameNotTarget(filePath, i);
    AgreeAt(fs.files, files0, {filePath}, fn);
    var read := fs.ReadFile(fn);
    if read.Err? {
      return Fail(Tagged(i, read.error));
    }
    if i in appendFails {
      return Fail(Tagged(i, WriteFault));
    }
    ghost var before := fs.files;
    var _ := fs.WriteFile(filePath, fs.files[filePath].content + read.value);
    AgreeOutside(fs.files, before, {filePath}, {filePath});
    o := Pass;
  }

  /** The temp contents of chunks 1..i are those of 1..i-1 followed by
      chunk i's. */
  lemma TempContentsStep(files: map<string, DiskFile>, filePath: string, i: nat)
    requires i >= 1
    ensures Flatten(TempContents(files, filePath, i))
            == Flatten(TempContents(files, filePath, i - 1)) + TempContents(files, filePath, i)[i - 1]
  {
    assert TempContents(files, filePath, i)[..i - 1] == TempContents(files, filePath, i - 1);
  }

  method AppendTemps(fs: FileSystem, filePath: string, n: nat, appendFails: set<int>, ghost files0: map<string, DiskFile>)
    returns (o: Outcome)
    modifies fs
    requires fs.files - {filePath} == files0 - {filePath}
    requires filePath in fs.files && fs.files[filePath].content == []
    requires filePath !in fs.statFaults && filePath !in fs.dirs
    ensures fs.dirs == old(fs.dirs)
    ensures fs.files - {filePath} == files0 - {filePath}
    ensures o.Pass? <==> forall i :: 1 <= i <= n ==> Appendable(files0, fs.statFaults, filePath, appendFails, i)
    ensures o.Pass? ==>
              filePath in fs.files && fs.files[filePath].content == Flatten(TempContents(files0, filePath, n))
    ensures o.Fail? ==>
              && o.error.Tagged? && 1 <= o.error.tag <= n
              && !Appendable(files0, fs.statFaults, filePath, appendFails, o.error.tag)
              && forall j :: 1 <= j < o.error.tag ==> Appendable(files0, fs.statFaults, filePath, appendFails, j)
  {
    var i := 1;
    ghost var faults := fs.statFaults;
    while i <= n
      invariant 1 <= i <= n + 1
      invariant fs.dirs == old(fs.dirs)
      invariant fs.files - {filePath} == files0 - {filePath}
      invariant filePath in fs.files
      invariant fs.files[filePath].content == Flatten(TempContents(files0, filePath, i - 1))
      invariant AppendableUpTo(files0, faults, filePath, appendFails, i - 1)
    {
      o := AppendOne(fs, filePath, i, appendFails, files0);
      if o.Fail? {
        AppendableUpToAll(files0, faults, filePath, appendFails, i - 1);
        return;
      }
      TempContentsStep(files0, filePath, i);
      i := i + 1;
    }
    AppendableUpToAll(files0, faults, filePath, appendFails, n);
    o := Pass;
  }

  /** A temp file is never the directory the destination lives in. */
  lemma TempNameNotDir(filePath: string, i: nat)
    ensures |TempName(filePath, i)| > |TrimSlash(Split(filePath).0)|
  {
    TempNameShape(filePath, i);
  }

  lemma NotInTemps(filePath: string, n: nat)
    ensures filePath !in Temps(filePath, n)
    ensures TrimSlash(Split(filePath).0) !in Temps(filePath, n)
  {
    forall i | 1 <= i <= n
      ensures TempName(filePath, i) != filePath && TempName(filePath, i) != TrimSlash(Split(filePath).0)
    {
      TempNameNotTarget(filePath, i);
      TempNameNotDir(filePath, i);
    }
  }

  /** Temp files that hold the planned ranges merge into the whole archive. */
  lemma MergedIsArchive(files: map<string, DiskFile>, filePath: string, archive: seq<byte>, chunks: seq<Chunk>)
    requires chunks == Plan(|archive|, DlChunkSize, 1)
    requires WithinObject(chunks, |archive|)
    requires forall j :: 1 <= j <= |chunks| ==>
               TempName(filePath, j) in files && files[TempName(filePath, j)].content == RangeBytes(archive, chunks[j - 1])
    ensures Flatten(TempContents(files, filePath, |chunks|)) == archive
  {
    TempContentsAreSlices(files, filePath, archive, chunks);
    PlanSlicesConcatenate(archive, DlChunkSize, 1);
  }

  /** Temp file j holds the j-th slice of the archive. */
  lemma TempContentsAreSlices(files: map<string, DiskFile>, filePath: string, archive: seq<byte>, chunks: seq<Chunk>)
    requires WithinObject(chunks, |archive|)
    requires forall j :: 1 <= j <= |chunks| ==>
               TempName(filePath, j) in files && files[TempName(filePath, j)].content == RangeBytes(archive, chunks[j - 1])
    ensures TempContents(files, filePath, |chunks|) == Slices(archive, chunks)
  {
    var tc := TempContents(files, filePath, |chunks|);
    var sl := Slices(archive, chunks);
    forall k | 0 <= k < |chunks|
      ensures tc[k] == sl[k]
    {
      var name := TempName(filePath, k + 1);
      assert name in files && files[name].content == RangeBytes(archive, chunks[k]);
      SlicesAt(archive, chunks, k);
    }
  }

  lemma TempsGrow(filePath: string, a: nat, b: nat)
    requires a <= b
    ensures Temps(filePath, a) <= Temps(filePath, b)
  {
  }

  /** The worker loop of a download: every planned chunk fetched into its own
      temp file, in ascending id order, until one of them hangs. */
  method FetchChunks(fs: FileSystem, archive: seq<byte>, chunks: seq<Chunk>, filePath: string,
                     failedAttempts: int -> nat) returns (o: Outcome)
    modifies fs
    requires WithinObject(chunks, |archive|)
    requires forall k :: 0 <= k < |chunks| ==> chunks[k].id == k + 1
    ensures o == Pass || o == Fail(Hang)
    ensures fs.files - Temps(filePath, |chunks|) == old(fs.files) - Temps(filePath, |chunks|)
    ensures fs.dirs <= old(fs.dirs) && old(fs.dirs) - fs.dirs <= Temps(filePath, |chunks|)
    ensures o.Pass? ==> forall j :: 1 <= j <= |chunks| ==>
              && TempName(filePath, j) in fs.files && TempName(filePath, j) !in fs.statFaults
              && fs.files[TempName(filePath, j)].content == RangeBytes(archive, chunks[j - 1])
    ensures o.Fail? ==>
              exists i :: 1 <= i <= |chunks| && (TempName(filePath, i) in fs.statFaults || TempName(filePath, i) in old(fs.dirs))
  {
    var k := 0;
    while k < |chunks|
      invariant 0 <= k <= |chunks|
      invariant fs.files - Temps(filePath, k) == old(fs.files) - Temps(filePath, k)
      invariant fs.dirs <= old(fs.dirs) && old(fs.dirs) - fs.dirs <= Temps(filePath, k)
      invariant forall j :: 1 <= j <= k ==>
                  && TempName(filePath, j) in fs.files && TempName(filePath, j) !in fs.statFaults
                  && fs.files[TempName(filePath, j)].content == RangeBytes(archive, chunks[j - 1])
    {
      o := FetchOne(fs, archive, chunks, filePath, failedAttempts(k + 1), k, old(fs.files), old(fs.dirs));
      if o.Fail? {
        assert TempName(filePath, k + 1) in fs.statFaults || TempName(filePath, k + 1) in old(fs.dirs);
        TempsGrow(filePath, k + 1, |chunks|);
        return;
      }
      k := k + 1;
    }
    o := Pass;
  }

  /** One iteration of the worker loop: chunk k + 1 fetched into its own
      temp file, leaving every other file as it was. */
  method FetchOne(fs: FileSystem, archive: seq<byte>, chunks: seq<Chunk>, filePath: string, failures: nat,
                  k: nat, ghost files0: map<string, DiskFile>, ghost dirs0: set<string>) returns (o: Outcome)
    modifies fs
    requires WithinObject(chunks, |archive|)
    requires k < |chunks| && chunks[k].id == k + 1
    requires fs.files - Temps(filePath, k) == files0 - Temps(filePath, k)
    requires fs.dirs <= dirs0 && dirs0 - fs.dirs <= Temps(filePath, k)
    requires forall j :: 1 <= j <= k ==>
               && TempName(filePath, j) in fs.files && TempName(filePath, j) !in fs.statFaults
               && fs.files[TempName(filePath, j)].content == RangeBytes(archive, chunks[j - 1])
    ensures o == Pass || o == Fail(Hang)
    ensures fs.files - Temps(filePath, |chunks|) == files0 - Temps(filePath, |chunks|)
    ensures fs.dirs <= dirs0 && dirs0 - fs.dirs <= Temps(filePath, k + 1)
    ensures o.Pass? ==> fs.files - Temps(filePath, k + 1) == files0 - Temps(filePath, k + 1)
    ensures o.Pass? ==> forall j :: 1 <= j <= k + 1 ==>
              && TempName(filePath, j) in fs.files && TempName(filePath, j) !in fs.statFaults
              && fs.files[TempName(filePath, j)].content == RangeBytes(archive, chunks[j - 1])
    ensures o.Fail? ==> TempName(filePath, k + 1) in fs.statFaults || TempName(filePath, k + 1) in dirs0
  {
    var id := chunks[k].id;
    assert Temps(filePath, k + 1) == Temps(filePath, k) + {TempName(filePath, id)};
    forall j | 1 <= j <= k ensures TempName(filePath, j) != TempName(filePath, id) {
      if TempName(filePath, j) == TempName(filePath, id) {
        TempNameInjective(filePath, j, id);
      }
    }
    ghost var before := fs.files;
    o := DownloadChunk(fs, archive, chunks[k], filePath, failures);
    AgreeOutside(fs.files, before, {TempName(filePath, id)}, Temps(filePath, k + 1));
    AgreeOutside(before, files0, Temps(filePath, k), Temps(filePath, k + 1));
    TempsGrow(filePath, k + 1, |chunks|);
    AgreeOutside(fs.files, files0, Temps(filePath, k + 1), Temps(filePath, |chunks|));
  }

  /** The directories MkdirAll creates are shorter than the destination. */
  lemma DirNotTarget(filePath: string)
    ensures TrimSlash(Split(filePath).0) != "" ==> |TrimSlash(Split(filePath).0)| < |filePath|
  {
    SplitDir(filePath);
  }

  /** With every temp file in place, the merge can fail only on a position
      whose append fails. */
  lemma AllAppendable(files: map<string, DiskFile>, faults: set<string>, filePath: string, appendFails: set<int>, n: nat)
    requires forall j :: 1 <= j <= n ==> TempName(filePath, j) in files && TempName(filePath, j) !in faults
    ensures (forall i :: 1 <= i <= n ==> Appendable(files, faults, filePath, appendFails, i))
            <==> (forall i :: 1 <= i <= n ==> i !in appendFails)
  {
    if forall i :: 1 <= i <= n ==> i !in appendFails {
      forall i | 1 <= i <= n ensures Appendable(files, faults, filePath, appendFails, i) {
      }
    } else {
      var i :| 1 <= i <= n && i in appendFails;
      assert !Appendable(files, faults, filePath, appendFails, i);
    }
  }

  /** Everything after MkdirAll: the chunk workers, the merge and the
      deferred cleanup. */
  method FetchAndMerge(fs: FileSystem, filePath: string, archive: seq<byte>, failedAttempts: int -> nat,
                       appendFails: set<int>) returns (o: Outcome)
    modifies fs
    ensures o != Fail(JobNotComplete)
    ensures var n := ChunkCount(|archive|, DlChunkSize);
            && fs.files - ({filePath} + Temps(filePath, n)) == old(fs.files) - ({filePath} + Temps(filePath, n))
            && fs.dirs <= old(fs.dirs) && old(fs.dirs) - fs.dirs <= Temps(filePath, n)
            && (o.Pass? ==> filePath in fs.files && fs.files[filePath].content == archive && filePath !in fs.statFaults)
            && (o == Fail(Hang) ==>
                  exists i :: 1 <= i <= n && (TempName(filePath, i) in fs.statFaults || TempName(filePath, i) in old(fs.dirs)))
            && (o != Fail(Hang) ==> forall i :: 1 <= i <= n ==> TempName(filePath, i) !in fs.files)
            && (o != Fail(Hang) && filePath !in fs.statFaults && filePath !in old(fs.dirs) ==>
                  (o.Pass? <==> forall i :: 1 <= i <= n ==> i !in appendFails))
  {
    var chunks := PlanSpecs(|archive|);
    PlanShape(|archive|, DlChunkSize, 1);
    PlanSlicesConcatenate(archive, DlChunkSize, 1);
    NotInTemps(filePath, |chunks|);
    var outside := {filePath} + Temps(filePath, |chunks|);
    o := FetchChunks(fs, archive, chunks, filePath, failedAttempts);
    AgreeOutside(fs.files, old(fs.files), Temps(filePath, |chunks|), outside);
    if o.Fail? {
      return;
    }
    o := MergeAndClean(fs, filePath, archive, chunks, appendFails);
    AgreeOutside(fs.files, old(fs.files), outside, outside);
  }

  /** The merge of fetched temp files and the deferred cleanup that follows
      it, once every chunk holds its slice of the archive. */
  method MergeAndClean(fs: FileSystem, filePath: string, archive: seq<byte>, chunks: seq<Chunk>,
                       appendFails: set<int>) returns (o: Outcome)
    modifies fs
    requires chunks == Plan(|archive|, DlChunkSize, 1)
    requires WithinObject(chunks, |archive|)
    requires forall j :: 1 <= j <= |chunks| ==>
               && TempName(filePath, j) in fs.files && TempName(filePath, j) !in fs.statFaults
               && fs.files[TempName(filePath, j)].content == RangeBytes(archive, chunks[j - 1])
    ensures o != Fail(Hang) && o != Fail(JobNotComplete)
    ensures fs.dirs <= old(fs.dirs) && old(fs.dirs) - fs.dirs <= Temps(filePath, |chunks|)
    ensures o.Pass? ==> filePath !in fs.statFaults
    ensures fs.files - ({filePath} + Temps(filePath, |chunks|)) == old(fs.files) - ({filePath} + Temps(filePath, |chunks|))
    ensures o.Pass? ==> filePath in fs.files && fs.files[filePath].content == archive
    ensures forall i :: 1 <= i <= |chunks| ==> TempName(filePath, i) !in fs.files
    ensures filePath !in fs.statFaults && filePath !in old(fs.dirs) ==>
              (o.Pass? <==> forall i :: 1 <= i <= |chunks| ==> i !in appendFails)
  {
    NotInTemps(filePath, |chunks|);
    var outside := {filePath} + Temps(filePath, |chunks|);
    ghost var downloaded := fs.files;
    MergedIsArchive(downloaded, filePath, archive, chunks);
    AllAppendable(downloaded, fs.statFaults, filePath, appendFails, |chunks|);
    o := MergeTemps(fs, filePath, |chunks|, appendFails);
    ghost var merged := fs.files;
    CleanupTemp(fs, filePath, |chunks|);
    AgreeOutside(merged, downloaded, {filePath}, outside);
    AgreeOutside(fs.files, merged, Temps(filePath, |chunks|), outside);
    if o.Pass? {
      AgreeAt(fs.files, merged, Temps(filePath, |chunks|), filePath);
    }
  }

  /** DownloadFile. Temp files are fetched in ascending id order here: each
      chunk touches only its own temp file, and temp names differ between
      chunks (TempNameInjective), so the order of the workers does not
      matter. */
  method DownloadFile(fs: FileSystem, filePath: string, env: DownloadEnv) returns (o: Outcome)
    modifies fs
    ensures env.describe.Err? ==> o == Fail(env.describe.error) && unchanged(fs)
    ensures env.describe.Ok? && !env.describe.value.completed ==> o == Fail(JobNotComplete) && unchanged(fs)
    ensures env.describe.Ok? && env.describe.value.completed ==> o != Fail(JobNotComplete)
    ensures env.describe.Ok? && env.describe.value.completed ==>
              var archive := env.describe.value.archive;
              var n := ChunkCount(|archive|, DlChunkSize);
              var mkdirOk := old(MkdirAllRun(fs.files, fs.dirs, fs.statFaults, Split(filePath).0)).0.Pass?;
              && (!mkdirOk ==> o.Fail? && fs.files == old(fs.files))
              && fs.files - ({filePath} + Temps(filePath, n)) == old(fs.files) - ({filePath} + Temps(filePath, n))
              && fs.dirs - old(fs.dirs) <= old(MkdirAllRun(fs.files, fs.dirs, fs.statFaults, Split(filePath).0)).1
              && old(fs.dirs) - fs.dirs <= Temps(filePath, n)
              && (o.Pass? ==> filePath in fs.files && fs.files[filePath].content == archive && filePath !in fs.statFaults)
              && (o == Fail(Hang) ==>
                    exists i :: 1 <= i <= n && (TempName(filePath, i) in fs.statFaults || TempName(filePath, i) in old(fs.dirs)))
              && (mkdirOk && o != Fail(Hang) ==> forall i :: 1 <= i <= n ==> TempName(filePath, i) !in fs.files)
              && (mkdirOk && o != Fail(Hang) && filePath !in fs.statFaults && filePath !in old(fs.dirs) ==>
                    (o.Pass? <==> forall i :: 1 <= i <= n ==> i !in env.appendFails))
  {
    if env.describe.Err? {
      return Fail(env.describe.error);
    }
    var job := env.describe.value;
    if !job.completed {
      return Fail(JobNotComplete);
    }
    var (dir, _) := Split(filePath);
    var mk := fs.MkdirAll(dir);
    if mk.Fail? {
      return mk;
    }
    ghost var made := fs.dirs;
    DirNotTarget(filePath);
    assert filePath in made ==> filePath in old(fs.dirs);
    o := FetchAndMerge(fs, filePath, job.archive, env.failedAttempts, env.appendFails);
    if o == Fail(Hang) {
      var n := ChunkCount(|job.archive|, DlChunkSize);
      ghost var i :| 1 <= i <= n && (TempName(filePath, i) in fs.statFaults || TempName(filePath, i) in made);
      TempNameNotDir(filePath, i);
    }
  }
}
