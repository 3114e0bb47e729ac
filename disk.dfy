/** The local file system as the program sees it through the os package:
    regular files with their bytes and modification time, and directories.
    A call fails for the structural reasons the operating system gives
    (a missing path, a directory where a file is expected, a directory that
    still has entries); `statFaults` are paths whose stat fails for any other
    reason, such as a permission problem on the way. */
module Disk {
  import opened Common
  import opened Paths

  datatype DiskFile = DiskFile(content: seq<byte>, mtime: int)

  datatype Status = IsFile(file: DiskFile) | IsDirectory | Absent | Faulty(error: Error)

  /** A directory path as MkdirAll and ReadDir receive it from filepath.Split,
      without its trailing '/'. */
  function TrimSlash(d: string): string {
    if d != [] && d[|d| - 1] == '/' then d[..|d| - 1] else d
  }

  /** os.Stat over given files, directories and faults. */
  function StatIn(files: map<string, DiskFile>, dirs: set<string>, statFaults: set<string>, p: string): Status {
    if p in statFaults then Faulty(PathFault(p))
    else if p in files then IsFile(files[p])
    else if p in dirs then IsDirectory
    else Absent
  }

  /** What os.MkdirAll(d) returns and the directories it creates, over given
      files, directories and faults, for d as filepath.Split gives it (a
      trailing '/' or nothing). Its Stat
      fast path passes on a directory and fails on a regular file named
      without a trailing '/'. Otherwise the parent (the part before the
      last '/', unless that '/' is the first character) is made first,
      then Mkdir: "" does not exist, and a regular file named with a
      trailing '/' already exists. Directories made before a failure
      stay. */
  function MkdirAllRun(files: map<string, DiskFile>, dirs: set<string>, statFaults: set<string>, d: string): (r: (Outcome, set<string>))
    decreases |d|
    ensures forall x :: x in r.1 ==> x !in dirs && 0 < |x| <= |TrimSlash(d)| && x == TrimSlash(d)[..|x|]
    ensures r.0.Pass? ==> TrimSlash(d) != "" && TrimSlash(d) in dirs + r.1
    ensures TrimSlash(d) == "" ==> r.0 == Fail(NotExist(""))
    ensures r.0.Fail? ==> r.0.error.NotExist? || r.0.error.NotDir? || r.0.error.PathFault? || r.0.error.Exists?
  {
    var path := TrimSlash(d);
    if path != "" && path !in statFaults && path in dirs then (Pass, {})
    else if path != "" && path !in statFaults && path in files && path == d then (Fail(NotDir(path)), {})
    else
      var i := LastSlash(path);
      var parent := if i >= 1 then MkdirAllRun(files, dirs, statFaults, path[..i]) else (Pass, {});
      if parent.0.Fail? then parent
      else if path == "" then (Fail(NotExist(path)), {})
      else if path in statFaults then (Fail(PathFault(path)), parent.1)
      else if path in files then (Fail(Exists(path)), parent.1)
      else (Pass, parent.1 + {path})
  }

  /** Writing a key twice keeps the second value. */
  lemma OverwriteTwice<K, V>(m: map<K, V>, k: K, a: V, b: V)
    ensures m[k := a][k := b] == m[k := b]
  {
  }

  /** Two maps that agree outside a set agree outside any larger set. */
  lemma AgreeOutside<K, V>(m1: map<K, V>, m2: map<K, V>, a: set<K>, b: set<K>)
    requires m1 - a == m2 - a && a <= b
    ensures m1 - b == m2 - b
  {
    forall p | p !in b
      ensures (p in m1 <==> p in m2) && (p in m1 ==> m1[p] == m2[p])
    {
      assert p in m1 - a <==> p in m1;
      assert p in m2 - a <==> p in m2;
      if p in m1 {
        assert (m1 - a)[p] == m1[p];
        assert (m2 - a)[p] == m2[p];
      }
    }
  }

  lemma AgreeAt(m1: map<string, DiskFile>, m2: map<string, DiskFile>, a: set<string>, p: string)
    requires m1 - a == m2 - a && p !in a
    ensures p in m1 <==> p in m2
    ensures p in m1 ==> m1[p] == m2[p]
  {
    assert p in m1 - a <==> p in m1;
    assert p in m2 - a <==> p in m2;
    if p in m1 {
      assert (m1 - a)[p] == m1[p];
      assert (m2 - a)[p] == m2[p];
    }
  }

  /** Two maps that agree outside k agree everywhere once k is set. */
  lemma AgreeAfterUpdate(m1: map<string, DiskFile>, m2: map<string, DiskFile>, k: string, v: DiskFile)
    requires m1 - {k} == m2 - {k}
    ensures m1[k := v] == m2[k := v]
  {
    forall p | p != k
      ensures (p in m1 <==> p in m2) && (p in m1 ==> m1[p] == m2[p])
    {
      assert p in m1 - {k} <==> p in m1;
      assert p in m2 - {k} <==> p in m2;
      if p in m1 {
        assert (m1 - {k})[p] == m1[p];
        assert (m2 - {k})[p] == m2[p];
      }
    }
  }

  /** util.GetMD5: the hex MD5 of a file's bytes; a path that cannot be read
      to the end (missing, a directory, a stat fault) is an error. */
  function GetMD5(prims: Primitives, fs: FileSystem, p: string): (r: Result<string>)
    reads fs
    ensures r.Ok? <==> p !in fs.statFaults && p in fs.files
    ensures r.Ok? ==> r.value == Hex(prims.md5(fs.files[p].content))
  {
    match fs.ReadFile(p)
    case Ok(content) => Ok(Hex(prims.md5(content)))
    case Err(e) => Err(e)
  }

  /** One call of a filepath.Walk callback: the path relative to the root
      walked, whether it is a directory, and the error the walk hands over
      for it. The walk itself is a parameter wherever it is used. */
  datatype Visit = Visit(relPath: string, isDir: bool, err: Option<Error>)

  class FileSystem {
    var files: map<string, DiskFile>
    var dirs: set<string>
    const statFaults: set<string>
    /** The wall clock in nanoseconds: the modification time of files written now. */
    const now: int

    constructor (files0: map<string, DiskFile>, dirs0: set<string>, faults: set<string>, clock: int)
      ensures files == files0 && dirs == dirs0 && statFaults == faults && now == clock
    {
      files, dirs, statFaults, now := files0, dirs0, faults, clock;
    }

    /** No path is both a regular file and a directory. */
    predicate Valid()
      reads this
    {
      files.Keys !! dirs
    }

    /** os.Stat */
    function Stat(p: string): (s: Status)
      reads this
      ensures s.IsFile? <==> p !in statFaults && p in files
      ensures s.Absent? <==> p !in statFaults && p !in files && p !in dirs
    {
      StatIn(files, dirs, statFaults, p)
    }

    /** os.Open for reading: a regular file or a directory opens (reading a
        directory then fails). */
    function Open(p: string): (o: Outcome)
      reads this
      ensures o.Pass? <==> p !in statFaults && (p in files || p in dirs)
    {
      if p in statFaults then Fail(PathFault(p))
      else if p in files || p in dirs then Pass
      else Fail(NotExist(p))
    }

    /** Opening a file and reading it to the end. */
    function ReadFile(p: string): (r: Result<seq<byte>>)
      reads this
      ensures r.Ok? <==> p !in statFaults && p in files
      ensures r.Ok? ==> r.value == files[p].content
    {
      if p in statFaults then Err(PathFault(p))
      else if p in files then Ok(files[p].content)
      else if p in dirs then Err(IsDir(p))
      else Err(NotExist(p))
    }

    /** The entries of directory d (ioutil.ReadDir). */
    function ReadDir(d: string): (r: Result<set<string>>)
      reads this
      ensures r.Ok? <==> d !in statFaults && d in dirs
      ensures r.Ok? ==> forall p :: p in r.value <==> (p in files || p in dirs) && Parent(p) == d
    {
      if d in statFaults then Err(PathFault(d))
      else if d in dirs then Ok(set p | p in files.Keys + dirs && Parent(p) == d)
      else if d in files then Err(NotDir(d))
      else Err(NotExist(d))
    }

    /** os.Create followed by writes of `content`: the file is truncated and
        then holds exactly those bytes. */
    method WriteFile(p: string, content: seq<byte>) returns (o: Outcome)
      modifies this
      ensures dirs == old(dirs)
      ensures o.Pass? <==> p !in old(dirs) && p !in statFaults
      ensures o.Fail? ==> o.error == if p in statFaults then PathFault(p) else IsDir(p)
      ensures files == if o.Pass? then old(files)[p := DiskFile(content, now)] else old(files)
    {
      if p in statFaults {
        return Fail(PathFault(p));
      }
      if p in dirs {
        return Fail(IsDir(p));
      }
      files := files[p := DiskFile(content, now)];
      o := Pass;
    }

    /** os.Remove of a file or of an empty directory. */
    method Remove(p: string) returns (o: Outcome)
      modifies this
      ensures o.Fail? ==> !Fatal(o.error)
      ensures o.Pass? <==> p !in statFaults && (p in old(files) || (p in old(dirs) && old(ReadDir(p)) == Ok({})))
      ensures files == if o.Pass? then old(files) - {p} else old(files)
      ensures dirs == if o.Pass? && p !in old(files) then old(dirs) - {p} else old(dirs)
    {
      if p in statFaults {
        return Fail(PathFault(p));
      }
      if p in files {
        files := files - {p};
        return Pass;
      }
      if p !in dirs {
        return Fail(NotExist(p));
      }
      var entries := ReadDir(p);
      if entries != Ok({}) {
        return Fail(DirNotEmpty(p));
      }
      dirs := dirs - {p};
      o := Pass;
    }

    /** os.Rename of a regular file. */
    method Rename(from: string, to: string) returns (o: Outcome)
      modifies this
      ensures o.Fail? ==> !Fatal(o.error)
      ensures dirs == old(dirs)
      ensures o.Pass? <==> from in old(files) && from !in statFaults && to !in statFaults && to !in old(dirs)
      ensures files == if o.Pass? then (old(files) - {from})[to := old(files)[from]] else old(files)
    {
      if from in statFaults || from !in files {
        return Fail(NotExist(from));
      }
      if to in statFaults {
        return Fail(PathFault(to));
      }
      if to in dirs {
        return Fail(IsDir(to));
      }
      files := (files - {from})[to := files[from]];
      o := Pass;
    }

    /** os.Chtimes with the same access and modification time. */
    method Chtimes(p: string, t: int) returns (o: Outcome)
      modifies this
      ensures o.Fail? ==> !Fatal(o.error)
      ensures o.Fail? ==> o.error == if p in statFaults then PathFault(p) else NotExist(p)
      ensures dirs == old(dirs)
      ensures o.Pass? <==> p !in statFaults && (p in old(files) || p in old(dirs))
      ensures files == if o.Pass? && p in old(files) then old(files)[p := DiskFile(old(files)[p].content, t)] else old(files)
    {
      if p in statFaults {
        return Fail(PathFault(p));
      }
      if p in files {
        files := files[p := DiskFile(files[p].content, t)];
        return Pass;
      }
      if p !in dirs {
        return Fail(NotExist(p));
      }
      o := Pass;
    }

    /** os.MkdirAll of a directory as filepath.Split gives it. */
    method MkdirAll(d: string) returns (o: Outcome)
      modifies this
      decreases |d|
      ensures files == old(files)
      ensures var r := old(MkdirAllRun(files, dirs, statFaults, d)); o == r.0 && dirs == old(dirs) + r.1
    {
      var path := TrimSlash(d);
      if path != "" && path !in statFaults && path in dirs {
        return Pass;
      }
      if path != "" && path !in statFaults && path in files && path == d {
        return Fail(NotDir(path));
      }
      var i := LastSlash(path);
      if i >= 1 {
        o := MkdirAll(path[..i]);
        if o.Fail? {
          return;
        }
      }
      if path == "" {
        return Fail(NotExist(path));
      }
      if path in statFaults {
        return Fail(PathFault(path));
      }
      if path in files {
        return Fail(Exists(path));
      }
      dirs := dirs + {path};
      o := Pass;
    }
  }
}
