/** The clean sub-command: delete every local file that is archived, not
    locked and unchanged since it was archived, then remove the directories
    left empty, deepest first. */
module Clean {
  import opened Common
  import opened Paths
  import opened Disk
  import opened Catalog

  /** The directory list sorted by sort.Sort with Less(i, j) being
      len(d[i]) > len(d[j]): longest paths first. */
  predicate LongestFirst(s: seq<string>) {
    forall p, q :: 0 <= p < q < |s| ==> |s[p]| >= |s[q]|
  }

  /** In a list sorted longest first, a directory comes after every
      directory inside it, so children are emptied before their parent is
      examined. */
  lemma {:induction false} InnerDirsFirst(s: seq<string>, i: int, j: int)
    requires LongestFirst(s)
    requires 0 <= i < |s| && 0 <= j < |s|
    requires Inside(s[j], s[i])
    ensures i < j
  {
    InsideIsLonger(s[j], s[i]);
  }

  /** sort.Sort of the directory list, as an insertion sort with Swap. */
  method SortDirs(a: array<string>)
    modifies a
    ensures LongestFirst(a[..])
    ensures multiset(a[..]) == multiset(old(a[..]))
  {
    var i := 0;
    while i < a.Length
      invariant 0 <= i <= a.Length
      invariant LongestFirst(a[..i])
      invariant multiset(a[..]) == multiset(old(a[..]))
    {
      InsertAt(a, i);
      i := i + 1;
    }
    assert a[..a.Length] == a[..];
  }

  /** a[..n] is longest first, except possibly around position j. */
  predicate LongestFirstBut(s: seq<string>, n: int, j: int)
    requires 0 <= n <= |s|
  {
    forall p, q :: 0 <= p < q < n && q != j ==> |s[p]| >= |s[q]|
  }

  /** Swapping a[j] with the shorter a[j-1] moves the hole one place left. */
  lemma SwapLeft(s: seq<string>, n: int, j: int)
    requires 0 < j < n <= |s|
    requires LongestFirstBut(s, n, j) && |s[j - 1]| < |s[j]|
    ensures LongestFirstBut(s[j - 1 := s[j]][j := s[j - 1]], n, j - 1)
    ensures multiset(s[j - 1 := s[j]][j := s[j - 1]]) == multiset(s)
  {
    var t := s[j - 1 := s[j]][j := s[j - 1]];
    forall p, q | 0 <= p < q < n && q != j - 1
      ensures |t[p]| >= |t[q]|
    {
      if q == j && p < j - 1 {
        assert t[q] == s[j - 1];
      }
    }
  }

  /** The sorted prefix a[..i] with a[i] appended has its hole at i. */
  lemma HoleOpen(s: seq<string>, i: int)
    requires 0 <= i < |s| && LongestFirst(s[..i])
    ensures LongestFirstBut(s, i + 1, i)
  {
    forall p, q | 0 <= p < q < i + 1 && q != i
      ensures |s[p]| >= |s[q]|
    {
      assert s[p] == s[..i][p] && s[q] == s[..i][q];
    }
  }

  /** Once a[j-1] is no shorter than a[j], the hole is closed. */
  lemma HoleClosed(s: seq<string>, n: int, j: int)
    requires 0 <= j < n <= |s| && LongestFirstBut(s, n, j)
    requires j == 0 || |s[j - 1]| >= |s[j]|
    ensures LongestFirst(s[..n])
  {
    forall p, q | 0 <= p < q < n
      ensures |s[..n][p]| >= |s[..n][q]|
    {
      if q == j && p < j - 1 {
        assert |s[p]| >= |s[j - 1]|;
      }
    }
  }

  /** One pass of the insertion sort: a[i] moves left past every shorter
      path, so a[..i+1] becomes longest first. */
  method InsertAt(a: array<string>, i: int)
    modifies a
    requires 0 <= i < a.Length
    requires LongestFirst(a[..i])
    ensures LongestFirst(a[..i + 1])
    ensures multiset(a[..]) == multiset(old(a[..]))
  {
    var j := i;
    HoleOpen(a[..], i);
    while j > 0 && |a[j - 1]| < |a[j]|
      invariant 0 <= j <= i
      invariant LongestFirstBut(a[..], i + 1, j)
      invariant multiset(a[..]) == multiset(old(a[..]))
    {
      ghost var s := a[..];
      SwapLeft(s, i + 1, j);
      a[j - 1], a[j] := a[j], a[j - 1];
      assert a[..] == s[j - 1 := s[j]][j := s[j - 1]];
      j := j - 1;
    }
    HoleClosed(a[..], i + 1, j);
  }

  /** The condition under which clean deletes the file at relPath: the
      entry of that name scans (so it was uploaded), is not locked, and
      records the digest of the file's current content. */
  predicate Deletable(prims: Primitives, rows: seq<Row>, relPath: string, content: seq<byte>) {
    var i := FirstMatch(rows, ByName(relPath));
    i >= 0 && Scan(rows[i]).Ok? && rows[i].lock == 0 && rows[i].md5sum == Some(Hex(prims.md5(content)))
  }

  /** A deletable file has an archived copy: the first row of its name has
      an archive id, lock 0 and the file's digest. */
  lemma DeletableIsArchived(prims: Primitives, cat: Catalog, relPath: string, content: seq<byte>)
    requires Deletable(prims, cat.entries, relPath, content)
    ensures var ent := cat.FindEntryByName(relPath);
            && ent.Ok? && ent.value.Some? && ent.value.value.name == relPath && ent.value.value.lock == 0
            && ent.value.value.md5Sum == Hex(prims.md5(content))
    ensures var i := FirstMatch(cat.entries, ByName(relPath));
            && 0 <= i < |cat.entries| && cat.entries[i].name == relPath
            && cat.entries[i].archiveId.Some? && cat.entries[i].lock == 0
  {
  }

  /** cleanFile. A file without an entry dereferences a nil entry: a panic. */
  method CleanFile(prims: Primitives, fs: FileSystem, cat: Catalog, fullPath: string, relPath: string) returns (o: Outcome)
    modifies fs
    ensures fs.dirs == old(fs.dirs)
    ensures var ent := cat.FindEntryByName(relPath);
            && (ent.Err? ==> o == Fail(ent.error))
            && (ent == Ok(None) ==> o == Fail(Panic("nil pointer dereference")))
    ensures fs.files == old(fs.files) || (fs.files == old(fs.files) - {fullPath} && fullPath in old(fs.files))
    ensures fullPath in old(fs.files) && fullPath !in fs.files ==> o.Pass? && Deletable(prims, cat.entries, relPath, old(fs.files)[fullPath].content)
    ensures fullPath !in fs.statFaults && fullPath in old(fs.files) && Deletable(prims, cat.entries, relPath, old(fs.files)[fullPath].content) ==>
              o.Pass? && fullPath !in fs.files
    ensures var ent := cat.FindEntryByName(relPath);
            ent.Ok? && ent.value.Some? && ent.value.value.lock != 0 ==> o.Pass? && fs.files == old(fs.files)
  {
    var ent := cat.FindEntryByName(relPath);
    if ent.Err? {
      return Fail(ent.error);
    }
    if ent.value.None? {
      return Fail(Panic("nil pointer dereference"));
    }
    var e := ent.value.value;
    if e.lock == 0 {
      var md5file := GetMD5(prims, fs, fullPath);
      if md5file.Err? {
        return Fail(md5file.error);
      }
      if md5file.value == e.md5Sum {
        var removed := fs.Remove(fullPath);
        if removed.Fail? {
          return removed;
        }
      }
    }
    o := Pass;
  }

  /** removeIfEmpty. */
  method RemoveIfEmpty(fs: FileSystem, d: string) returns (o: Outcome)
    modifies fs
    requires fs.Valid()
    ensures fs.Valid()
    ensures old(fs.ReadDir(d)).Err? ==> o == Fail(old(fs.ReadDir(d)).error) && unchanged(fs)
    ensures old(fs.ReadDir(d)).Ok? && old(fs.ReadDir(d)).value != {} ==> o == Pass && unchanged(fs)
    ensures old(fs.ReadDir(d)) == Ok({}) ==> o == Pass && fs.files == old(fs.files) && fs.dirs == old(fs.dirs) - {d}
  {
    var fi := fs.ReadDir(d);
    if fi.Err? {
      return Fail(fi.error);
    }
    o := Pass;
    if fi.value == {} {
      o := fs.Remove(d);
    }
  }

  /** Every directory of `before` that is gone has no file or directory
      directly inside it. */
  ghost predicate EmptiedOnly(before: set<string>, files: map<string, DiskFile>, dirs: set<string>) {
    forall d :: d in before && d !in dirs ==> forall p :: p in files || p in dirs ==> Parent(p) != d
  }

  /** Something lies directly inside directory d. */
  ghost predicate Occupied(files: map<string, DiskFile>, dirs: set<string>, d: string) {
    exists p :: (p in files || p in dirs) && Parent(p) == d
  }

  /** One turn of the directory loop: removeIfEmpty, seen as a step that
      keeps every removed directory empty and leaves d, if it stays, with
      something inside it. */
  method RemoveListed(fs: FileSystem, d: string, ghost before: set<string>) returns (o: Outcome)
    modifies fs
    requires fs.Valid() && fs.dirs <= before
    requires EmptiedOnly(before, fs.files, fs.dirs)
    ensures fs.files == old(fs.files) && fs.Valid()
    ensures fs.dirs == old(fs.dirs) || fs.dirs == old(fs.dirs) - {d}
    ensures EmptiedOnly(before, fs.files, fs.dirs)
    ensures o.Pass? ==> d !in fs.statFaults && d in old(fs.dirs)
    ensures o.Pass? && d in fs.dirs ==> Occupied(fs.files, fs.dirs, d)
    ensures o.Fail? ==> unchanged(fs) && fs.ReadDir(d) == Err(o.error)
  {
    o := RemoveIfEmpty(fs, d);
    if o.Pass? && d in fs.dirs {
      var p :| p in fs.ReadDir(d).value;
    }
  }

  /** Removing a directory that does not lie directly inside d leaves d
      occupied. */
  lemma StillOccupied(files: map<string, DiskFile>, dirs: set<string>, d: string, gone: string)
    requires Occupied(files, dirs, d) && Parent(gone) != d
    ensures Occupied(files, dirs - {gone}, d)
  {
    var p :| (p in files || p in dirs) && Parent(p) == d;
    assert (p in files || p in dirs - {gone}) && Parent(p) == d;
  }

  /** A path's parent is shorter than the path, unless the path has no
      '/' and its parent is ".". */
  lemma ParentShorter(p: string)
    ensures Parent(p) == "." || |Parent(p)| < |p|
  {
  }

  /** The visits the walk makes before the first one with an error. */
  function BeforeError(visits: seq<Visit>): (r: seq<Visit>)
    ensures |r| <= |visits| && r == visits[..|r|]
    ensures forall j :: 0 <= j < |r| ==> r[j].err.None?
  {
    if visits == [] || visits[0].err.Some? then []
    else [visits[0]] + BeforeError(visits[1..])
  }

  /** The directories among some visits, other than the root, as full
      paths, in walk order. */
  function DirVisits(docRoot: string, visits: seq<Visit>): (r: seq<string>)
    ensures |r| <= |visits|
    ensures forall d :: d in r ==> exists v :: v in visits && v.isDir && d == Join(docRoot, v.relPath)
  {
    if visits == [] then []
    else
      var last := visits[|visits| - 1];
      var r := DirVisits(docRoot, visits[..|visits| - 1]);
      if last.isDir && last.relPath != "." then r + [Join(docRoot, last.relPath)] else r
  }

  /** The first error the walk hands over, if any. */
  function WalkError(visits: seq<Visit>): (r: Option<Error>)
    ensures r.None? <==> forall j :: 0 <= j < |visits| ==> visits[j].err.None?
    ensures r.Some? ==> exists j :: 0 <= j < |visits| && visits[j].err == r
  {
    if visits == [] then None
    else if visits[0].err.Some? then visits[0].err
    else WalkError(visits[1..])
  }

  /** Visit v deleted file p: p is v's file, and it was deletable. */
  ghost predicate Removable(prims: Primitives, rows: seq<Row>, docRoot: string, v: Visit, files: map<string, DiskFile>, p: string) {
    p == Join(docRoot, v.relPath) && p in files && Deletable(prims, rows, v.relPath, files[p].content)
  }

  /** Files only go: what stays is as it was. */
  ghost predicate Shrinks(before: map<string, DiskFile>, after: map<string, DiskFile>) {
    forall p :: p in after ==> p in before && after[p] == before[p]
  }

  /** Visit v's file, if it was deletable in `before` at a path whose stat
      works, is gone in `after`. */
  ghost predicate Cleaned(prims: Primitives, rows: seq<Row>, statFaults: set<string>, docRoot: string, v: Visit,
                          before: map<string, DiskFile>, after: map<string, DiskFile>)
  {
    var p := Join(docRoot, v.relPath);
    (!v.isDir && v.relPath != "." && p !in statFaults && p in before && Deletable(prims, rows, v.relPath, before[p].content))
    ==> p !in after
  }

  /** The body of the walk function of clean for a visit without an
      error: a regular file is cleaned, anything else is left alone. */
  method CleanVisit(prims: Primitives, fs: FileSystem, cat: Catalog, docRoot: string, v: Visit) returns (r: Outcome)
    modifies fs
    ensures fs.dirs == old(fs.dirs)
    ensures Shrinks(old(fs.files), fs.files)
    ensures forall p :: p in old(fs.files) && p !in fs.files ==> Removable(prims, cat.entries, docRoot, v, old(fs.files), p)
    ensures v.isDir || v.relPath == "." ==> r == Pass && unchanged(fs)
    ensures Cleaned(prims, cat.entries, fs.statFaults, docRoot, v, old(fs.files), fs.files)
  {
    if v.relPath == "." || v.isDir {
      return Pass;
    }
    r := CleanFile(prims, fs, cat, Join(docRoot, v.relPath), v.relPath);
  }

  /** The walk of clean: directories other than the root are collected,
      files are cleaned and their errors dropped (a panic ends the run).
      `reached` counts the visits whose callback ran: all of them, or up to
      the first visit with an error, or up to a panic. */
  method WalkClean(prims: Primitives, fs: FileSystem, cat: Catalog, docRoot: string, visits: seq<Visit>)
    returns (o: Outcome, dirList: seq<string>, ghost reached: nat)
    modifies fs
    ensures fs.dirs == old(fs.dirs)
    ensures Shrinks(old(fs.files), fs.files)
    ensures forall p :: p in old(fs.files) && p !in fs.files ==>
              exists j :: 0 <= j < |visits| && Removable(prims, cat.entries, docRoot, visits[j], old(fs.files), p)
    ensures o.Pass? ==> dirList == DirVisits(docRoot, visits) == DirVisits(docRoot, BeforeError(visits)) && WalkError(visits).None?
    ensures o.Fail? ==> Fatal(o.error) || Some(o.error) == WalkError(visits)
    ensures o.Fail? && !Fatal(o.error) ==> dirList == DirVisits(docRoot, BeforeError(visits))
    ensures reached <= |visits| && forall j :: 0 <= j < reached ==> visits[j].err.None?
    ensures o.Pass? ==> reached == |visits|
    ensures o.Fail? && !Fatal(o.error) ==> reached < |visits| && visits[reached].err == Some(o.error)
    ensures forall j :: 0 <= j < reached ==> Cleaned(prims, cat.entries, fs.statFaults, docRoot, visits[j], old(fs.files), fs.files)
  {
    dirList := [];
    var i := 0;
    while i < |visits|
      invariant 0 <= i <= |visits|
      invariant forall j :: 0 <= j < i ==> visits[j].err.None?
      invariant dirList == DirVisits(docRoot, visits[..i])
      invariant fs.dirs == old(fs.dirs)
      invariant Shrinks(old(fs.files), fs.files)
      invariant forall p :: p in old(fs.files) && p !in fs.files ==>
                  exists j :: 0 <= j < i && Removable(prims, cat.entries, docRoot, visits[j], old(fs.files), p)
      invariant forall j :: 0 <= j < i ==> Cleaned(prims, cat.entries, fs.statFaults, docRoot, visits[j], old(fs.files), fs.files)
    {
      var v := visits[i];
      assert visits[..i + 1][..i] == visits[..i];
      if v.err.Some? {
        WalkErrorAt(visits, i);
        return Fail(v.err.value), dirList, i;
      }
      if v.isDir && v.relPath != "." {
        dirList := dirList + [Join(docRoot, v.relPath)];
      }
      ghost var before := fs.files;
      var r := CleanVisit(prims, fs, cat, docRoot, v);
      forall p | p in old(fs.files) && p !in fs.files
        ensures exists j :: 0 <= j < i + 1 && Removable(prims, cat.entries, docRoot, visits[j], old(fs.files), p)
      {
        if p in before {
          assert Removable(prims, cat.entries, docRoot, visits[i], old(fs.files), p);
        }
      }
      CleanedKept(prims, cat.entries, fs.statFaults, docRoot, visits, i, old(fs.files), before, fs.files);
      if r.Fail? && Fatal(r.error) {
        return r, dirList, i + 1;
      }
      i := i + 1;
    }
    assert visits[..i] == visits;
    NoErrorWalksAll(visits);
    o, reached := Pass, i;
  }

  /** The turn of visit i keeps earlier visits cleaned, since files only go,
      and cleans visit i against the files before the walk, since what is
      left of them is unchanged. */
  lemma CleanedKept(prims: Primitives, rows: seq<Row>, statFaults: set<string>, docRoot: string, visits: seq<Visit>,
                    i: int, start: map<string, DiskFile>, before: map<string, DiskFile>, after: map<string, DiskFile>)
    requires 0 <= i < |visits|
    requires Shrinks(start, before) && Shrinks(before, after)
    requires forall j :: 0 <= j < i ==> Cleaned(prims, rows, statFaults, docRoot, visits[j], start, before)
    requires Cleaned(prims, rows, statFaults, docRoot, visits[i], before, after)
    ensures forall j :: 0 <= j < i + 1 ==> Cleaned(prims, rows, statFaults, docRoot, visits[j], start, after)
  {
    var p := Join(docRoot, visits[i].relPath);
    if p in before {
      assert before[p] == start[p];
    }
  }

  /** A walk without errors makes all its visits. */
  lemma {:induction false} NoErrorWalksAll(visits: seq<Visit>)
    requires forall j :: 0 <= j < |visits| ==> visits[j].err.None?
    ensures BeforeError(visits) == visits
  {
    if visits != [] {
      NoErrorWalksAll(visits[1..]);
    }
  }

  /** The first error of a walk whose first i visits carry none is that of
      visit i, when it has one. */
  lemma {:induction false} WalkErrorAt(visits: seq<Visit>, i: int)
    requires 0 <= i < |visits| && visits[i].err.Some?
    requires forall j :: 0 <= j < i ==> visits[j].err.None?
    ensures WalkError(visits) == visits[i].err
    ensures BeforeError(visits) == visits[..i]
    decreases i
  {
    if i > 0 {
      WalkErrorAt(visits[1..], i - 1);
      assert visits[..i] == [visits[0]] + visits[1..][..i - 1];
    }
  }

  /** The directory phase of Clean: removeIfEmpty on the directories
      longest path first, stopping at the first error. When it passes,
      every listed directory that is left has something inside it: a
      directory is only examined after every longer one, so nothing
      removed later lies directly inside it (unless "." is listed, whose
      children may be as short as it). */
  method RemoveEmptyDirs(fs: FileSystem, dirList: seq<string>) returns (o: Outcome)
    modifies fs
    requires fs.Valid()
    ensures fs.files == old(fs.files)
    ensures fs.dirs <= old(fs.dirs)
    ensures forall d :: d in old(fs.dirs) && d !in fs.dirs ==> d in dirList
    ensures EmptiedOnly(old(fs.dirs), fs.files, fs.dirs)
    ensures dirList == [] ==> o == Pass && unchanged(fs)
    ensures o.Pass? ==> forall d :: d in dirList ==> d !in fs.statFaults && d in old(fs.dirs)
    ensures o.Pass? && "." !in dirList ==> forall d :: d in dirList && d in fs.dirs ==> Occupied(fs.files, fs.dirs, d)
    ensures o.Fail? ==>
              exists d :: d in dirList && fs.ReadDir(d) == Err(o.error) &&
                forall r :: r in old(fs.dirs) && r !in fs.dirs ==> |r| >= |d|
  {
    var a := new string[|dirList|](i requires 0 <= i < |dirList| => dirList[i]);
    assert a[..] == dirList;
    SortDirs(a);
    InMultiset(a[..], dirList);
    InMultiset(dirList, a[..]);
    o := RemoveSorted(fs, a[..]);
  }

  /** The directory loop over a list sorted longest first. */
  method RemoveSorted(fs: FileSystem, s: seq<string>) returns (o: Outcome)
    modifies fs
    requires fs.Valid() && LongestFirst(s)
    ensures fs.files == old(fs.files)
    ensures fs.dirs <= old(fs.dirs)
    ensures forall d :: d in old(fs.dirs) && d !in fs.dirs ==> d in s
    ensures EmptiedOnly(old(fs.dirs), fs.files, fs.dirs)
    ensures s == [] ==> o == Pass && unchanged(fs)
    ensures o.Pass? ==> forall d :: d in s ==> d !in fs.statFaults && d in old(fs.dirs)
    ensures o.Pass? && "." !in s ==> forall d :: d in s && d in fs.dirs ==> Occupied(fs.files, fs.dirs, d)
    ensures o.Fail? ==>
              exists k :: 0 <= k < |s| && fs.ReadDir(s[k]) == Err(o.error) &&
                forall r :: r in old(fs.dirs) && r !in fs.dirs ==> |r| >= |s[k]|
  {
    var k := 0;
    o := Pass;
    while k < |s|
      invariant 0 <= k <= |s|
      invariant fs.files == old(fs.files)
      invariant fs.Valid()
      invariant fs.dirs <= old(fs.dirs)
      invariant forall d :: d in old(fs.dirs) && d !in fs.dirs ==> exists j :: 0 <= j < k && s[j] == d
      invariant EmptiedOnly(old(fs.dirs), fs.files, fs.dirs)
      invariant forall j :: 0 <= j < k ==> s[j] !in fs.statFaults && s[j] in old(fs.dirs)
      invariant o == Pass && (k == 0 ==> unchanged(fs))
      invariant "." !in s ==> forall j :: 0 <= j < k && s[j] in fs.dirs ==> Occupied(fs.files, fs.dirs, s[j])
    {
      ghost var dirs0 := fs.dirs;
      o := RemoveListed(fs, s[k], old(fs.dirs));
      if o.Fail? {
        StoppedAt(s, k, old(fs.dirs), fs.dirs);
        return;
      }
      if "." !in s {
        OccupiedKept(s, k, fs.files, dirs0, fs.dirs);
      }
      k := k + 1;
    }
  }

  /** Turn k of the directory loop keeps every directory examined so far,
      if it is still there, occupied: what turn k removes is no shorter
      than them, so it does not lie directly inside any of them. */
  lemma OccupiedKept(s: seq<string>, k: int, files: map<string, DiskFile>, dirs0: set<string>, dirs1: set<string>)
    requires 0 <= k < |s| && LongestFirst(s) && "." !in s
    requires forall j :: 0 <= j < k && s[j] in dirs0 ==> Occupied(files, dirs0, s[j])
    requires dirs1 == dirs0 || dirs1 == dirs0 - {s[k]}
    requires s[k] in dirs1 ==> Occupied(files, dirs1, s[k])
    ensures forall j :: 0 <= j < k + 1 && s[j] in dirs1 ==> Occupied(files, dirs1, s[j])
  {
    forall j | 0 <= j < k && s[j] in dirs1
      ensures Occupied(files, dirs1, s[j])
    {
      if dirs1 != dirs0 {
        assert s[j] in s;
        ParentShorter(s[k]);
        StillOccupied(files, dirs0, s[j], s[k]);
      }
    }
  }

  /** The loop stopping at turn k of a list sorted longest first: every
      directory removed so far is at least as long as the one it stopped on. */
  lemma StoppedAt(s: seq<string>, k: int, before: set<string>, dirs: set<string>)
    requires 0 <= k < |s| && LongestFirst(s)
    requires forall d :: d in before && d !in dirs ==> exists j :: 0 <= j < k && s[j] == d
    ensures forall r :: r in before && r !in dirs ==> |r| >= |s[k]|
  {
    forall r | r in before && r !in dirs
      ensures |r| >= |s[k]|
    {
      var j :| 0 <= j < k && s[j] == r;
    }
  }

  /** Clean: walk, then remove the empty directories the walk collected.
      The first directory error is returned; the walk's own error is
      returned only when no directory was collected, since the directory
      loop overwrites it. Every file the walk reached that was deletable at
      a usable path is gone, and when the run passes, every collected
      directory that is left has something inside it. `reached` counts the
      visits whose callback ran. */
  method Clean(prims: Primitives, fs: FileSystem, cat: Catalog, docRoot: string, visits: seq<Visit>)
    returns (o: Outcome, ghost reached: nat)
    modifies fs
    requires fs.Valid()
    ensures Shrinks(old(fs.files), fs.files)
    ensures forall p :: p in old(fs.files) && p !in fs.files ==>
              exists j :: 0 <= j < |visits| && Removable(prims, cat.entries, docRoot, visits[j], old(fs.files), p)
    ensures fs.dirs <= old(fs.dirs)
    ensures forall d :: d in old(fs.dirs) && d !in fs.dirs ==> exists v :: v in visits && v.isDir && d == Join(docRoot, v.relPath)
    ensures o.Fail? ==> Fatal(o.error) || Some(o.error) == WalkError(visits) || DirVisits(docRoot, BeforeError(visits)) != []
    ensures WalkError(visits).Some? && DirVisits(docRoot, BeforeError(visits)) == [] ==>
              o == Fail(WalkError(visits).value) || (o.Fail? && Fatal(o.error))
    ensures EmptiedOnly(old(fs.dirs), fs.files, fs.dirs)
    ensures o.Pass? ==> forall d :: d in DirVisits(docRoot, BeforeError(visits)) ==> d !in fs.statFaults && d in old(fs.dirs)
    ensures DirVisits(docRoot, BeforeError(visits)) != [] && o.Fail? && !Fatal(o.error) ==>
              exists d :: d in DirVisits(docRoot, BeforeError(visits)) && fs.ReadDir(d) == Err(o.error) &&
                forall r :: r in old(fs.dirs) && r !in fs.dirs ==> |r| >= |d|
    ensures reached <= |visits| && forall j :: 0 <= j < reached ==> visits[j].err.None?
    ensures reached < |visits| ==> visits[reached].err.Some? || (o.Fail? && Fatal(o.error))
    ensures forall j :: 0 <= j < reached ==> Cleaned(prims, cat.entries, fs.statFaults, docRoot, visits[j], old(fs.files), fs.files)
    ensures o.Pass? ==>
              forall d :: d in DirVisits(docRoot, BeforeError(visits)) && d in fs.dirs ==> Occupied(fs.files, fs.dirs, d)
  {
    var walked, dirList;
    walked, dirList, reached := WalkClean(prims, fs, cat, docRoot, visits);
    if walked.Fail? && Fatal(walked.error) {
      return walked, reached;
    }
    assert fs.Valid() by {
      assert fs.files.Keys <= old(fs.files).Keys;
    }
    DirVisitsNoDot(docRoot, BeforeError(visits));
    o := RemoveEmptyDirs(fs, dirList);
    if dirList == [] {
      o := walked;
    }
  }

  /** No collected directory is ".": the root itself is not collected, and
      joining a root with any other name never gives ".". */
  lemma {:induction false} DirVisitsNoDot(docRoot: string, visits: seq<Visit>)
    ensures "." !in DirVisits(docRoot, visits)
    decreases |visits|
  {
    if visits != [] {
      DirVisitsNoDot(docRoot, visits[..|visits| - 1]);
      var last := visits[|visits| - 1];
      if last.isDir && last.relPath != "." {
        var d := Join(docRoot, last.relPath);
        if docRoot != "" && docRoot != "." && docRoot[|docRoot| - 1] != '/' {
          assert |d| >= 2;
        }
      }
    }
  }

  /** Elements of a permutation are elements of the original. */
  lemma InMultiset(s: seq<string>, t: seq<string>)
    requires multiset(s) == multiset(t)
    ensures forall x :: x in s ==> x in t
  {
    forall x | x in s
      ensures x in t
    {
      assert x in multiset(s);
    }
  }
}
