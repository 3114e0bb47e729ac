/** The catalog database: the file_entry table (one row per archived file),
    initial_vector (the IV each file was encrypted with, keyed by the
    entry's id), comments, and ex_request (at most one pending retrieval job
    per entry, keyed by the entry's id). Rows come back in rowid order, and
    a new file_entry row takes the largest id plus one. A write fails for
    the (statement, id) pairs in `faults`, inserts and deletes being named by
    their table and updates by the column they set; everything else is as
    SQLite does it. */
module Catalog {
  import opened Common

  /** A file_entry row as stored: md5sum and archive_id may be NULL. */
  datatype Row = Row(id: int, name: string, md5sum: Option<string>, mtime: int, size: int,
                     archiveId: Option<string>, lock: int)

  /** The FileEntry record a row is scanned into. */
  datatype FileEntry = FileEntry(id: int, name: string, md5Sum: string, mtime: int, size: int,
                                 archiveId: string, lock: int, comment: string)

  /** An ex_request row: the retrieval job and its start in Unix nanoseconds. */
  datatype Request = Request(jobId: string, startDt: int)

  datatype ExRequest = ExRequest(id: int, jobId: string, startDt: int)

  /** The where-clauses the program queries file_entry with. */
  datatype Filter = ByName(name: string) | ByMd5(md5: string) | ByArchiveId(archiveId: string) | LockedRows | AllRows

  predicate Matches(row: Row, f: Filter) {
    match f
    case ByName(n) => row.name == n
    case ByMd5(m) => row.md5sum == Some(m)
    case ByArchiveId(a) => row.archiveId == Some(a)
    case LockedRows => row.lock == 1
    case AllRows => true
  }

  /** scan: the seven columns into a FileEntry with an empty comment. A
      NULL scanned into a string column is an error (md5sum is converted
      before archive_id). */
  function Scan(row: Row): (r: Result<FileEntry>)
    ensures r.Ok? <==> row.md5sum.Some? && row.archiveId.Some?
    ensures r.Err? ==> r.error == NullToString(if row.md5sum.None? then "md5sum" else "archive_id")
    ensures r.Ok? ==> && r.value.id == row.id && r.value.name == row.name && Some(r.value.md5Sum) == row.md5sum
                      && r.value.mtime == row.mtime && r.value.size == row.size
                      && Some(r.value.archiveId) == row.archiveId && r.value.lock == row.lock
                      && r.value.comment == ""
  {
    if row.md5sum.None? then Err(NullToString("md5sum"))
    else if row.archiveId.None? then Err(NullToString("archive_id"))
    else Ok(FileEntry(row.id, row.name, row.md5sum.value, row.mtime, row.size, row.archiveId.value, row.lock, ""))
  }

  /** scanWithComment: scan plus the left-joined comment, NULL (or no
      comments row) becoming "". */
  function ScanWithComment(row: Row, comment: Option<string>): (r: Result<FileEntry>)
    ensures r.Ok? <==> Scan(row).Ok?
    ensures r.Err? ==> r == Scan(row)
    ensures r.Ok? ==> r.value == Scan(row).value.(comment := if comment.Some? then comment.value else "")
  {
    match Scan(row)
    case Err(e) => Err(e)
    case Ok(entry) => Ok(entry.(comment := match comment case Some(c) => c case None => ""))
  }

  /** The rows a query returns, in table order. */
  function Select(rows: seq<Row>, f: Filter): (r: seq<Row>)
    ensures forall x :: x in r <==> x in rows && Matches(x, f)
    ensures |r| <= |rows|
  {
    if rows == [] then []
    else if Matches(rows[0], f) then [rows[0]] + Select(rows[1..], f)
    else Select(rows[1..], f)
  }

  /** The position of the first row matching f, or -1. */
  function FirstMatch(rows: seq<Row>, f: Filter): (i: int)
    ensures -1 <= i < |rows|
    ensures i >= 0 ==> Matches(rows[i], f) && forall j :: 0 <= j < i ==> !Matches(rows[j], f)
    ensures i == -1 ==> forall j :: 0 <= j < |rows| ==> !Matches(rows[j], f)
  {
    if rows == [] then -1
    else if Matches(rows[0], f) then 0
    else var i := FirstMatch(rows[1..], f); if i < 0 then -1 else i + 1
  }

  /** A single-row query's row is the first row of the full query. */
  lemma {:induction false} FirstMatchIsFirstSelected(rows: seq<Row>, f: Filter)
    ensures FirstMatch(rows, f) >= 0 <==> Select(rows, f) != []
    ensures FirstMatch(rows, f) >= 0 ==> Select(rows, f)[0] == rows[FirstMatch(rows, f)]
    decreases |rows|
  {
    if rows != [] && !Matches(rows[0], f) {
      FirstMatchIsFirstSelected(rows[1..], f);
    }
  }

  /** Scanning every row of a result set: the first failing row fails the
      whole query, and no partial list comes back. */
  function ScanAll(rows: seq<Row>): (r: Result<seq<FileEntry>>)
    ensures r.Ok? <==> forall i :: 0 <= i < |rows| ==> Scan(rows[i]).Ok?
    ensures r.Ok? ==> |r.value| == |rows| && forall i :: 0 <= i < |rows| ==> Scan(rows[i]) == Ok(r.value[i])
    ensures r.Err? ==> exists i :: 0 <= i < |rows| && Scan(rows[i]) == Err(r.error)
                                   && forall j :: 0 <= j < i ==> Scan(rows[j]).Ok?
    decreases |rows|
  {
    if rows == [] then Ok([])
    else match Scan(rows[0])
      case Err(e) => Err(e)
      case Ok(x) =>
        var rest := ScanAll(rows[1..]);
        assert forall j :: 1 <= j < |rows| ==> rows[j] == rows[1..][j - 1];
        match rest
        case Err(e) => ScanAllShift(rows, e); Err(e)
        case Ok(xs) => Ok([x] + xs)
  }

  /** A failure in the tail of a result set whose first row scans is a
      failure of the whole set at the next position. */
  lemma ScanAllShift(rows: seq<Row>, e: Error)
    requires |rows| > 0 && Scan(rows[0]).Ok?
    requires exists i :: 0 <= i < |rows[1..]| && Scan(rows[1..][i]) == Err(e)
                         && forall j :: 0 <= j < i ==> Scan(rows[1..][j]).Ok?
    ensures exists i :: 0 <= i < |rows| && Scan(rows[i]) == Err(e)
                        && forall j :: 0 <= j < i ==> Scan(rows[j]).Ok?
  {
    var i :| 0 <= i < |rows[1..]| && Scan(rows[1..][i]) == Err(e)
             && forall j :: 0 <= j < i ==> Scan(rows[1..][j]).Ok?;
    assert Scan(rows[i + 1]) == Err(e);
    assert forall j :: 1 <= j < i + 1 ==> rows[j] == rows[1..][j - 1];
  }

  /** A result set fails to scan with the error of its first row that does
      not scan. */
  lemma {:induction false} ScanAllStops(rows: seq<Row>, i: int)
    requires 0 <= i < |rows|
    requires forall j :: 0 <= j < i ==> Scan(rows[j]).Ok?
    requires Scan(rows[i]).Err?
    ensures ScanAll(rows) == Err(Scan(rows[i]).error)
    decreases i
  {
    if i > 0 {
      assert Scan(rows[0]).Ok?;
      assert forall j :: 0 <= j < i - 1 ==> rows[1..][j] == rows[j + 1];
      ScanAllStops(rows[1..], i - 1);
    }
  }

  /** A result set whose every row scans gives the scanned entries in row order. */
  lemma ScanAllScans(rows: seq<Row>, entry: seq<FileEntry>)
    requires |entry| == |rows|
    requires forall j :: 0 <= j < |rows| ==> Scan(rows[j]) == Ok(entry[j])
    ensures ScanAll(rows) == Ok(entry)
  {
    assert ScanAll(rows).Ok?;
  }

  /** Rows in strictly ascending id order, as a rowid table returns them. */
  ghost predicate AscendingIds(rows: seq<Row>) {
    forall i, j :: 0 <= i < j < |rows| ==> rows[i].id < rows[j].id
  }

  /** The table after `update file_entry set <column>=... where id=id`. */
  function Updated(rows: seq<Row>, id: int, change: Row -> Row): (r: seq<Row>)
    ensures |r| == |rows|
    ensures forall i :: 0 <= i < |rows| ==> r[i] == if rows[i].id == id then change(rows[i]) else rows[i]
  {
    seq(|rows|, i requires 0 <= i < |rows| => if rows[i].id == id then change(rows[i]) else rows[i])
  }

  class Catalog {
    var entries: seq<Row>
    var ivs: map<int, seq<byte>>
    var comments: map<int, Option<string>>
    var requests: map<int, Request>
    /** (statement, id) pairs whose write statements the database refuses. */
    const faults: set<(string, int)>

    ghost predicate Valid()
      reads this
    {
      AscendingIds(entries)
    }

    constructor (rows: seq<Row>, ivs0: map<int, seq<byte>>, comments0: map<int, Option<string>>,
                 requests0: map<int, Request>, faults0: set<(string, int)>)
      ensures entries == rows && ivs == ivs0 && comments == comments0 && requests == requests0 && faults == faults0
    {
      entries, ivs, comments, requests, faults := rows, ivs0, comments0, requests0, faults0;
    }

    /** FindEntrySingle: the first matching row, or none (sql.ErrNoRows is
        not an error here); a row that cannot be scanned is an error. */
    function FindEntrySingle(f: Filter): (r: Result<Option<FileEntry>>)
      reads this
      ensures r == Ok(None) <==> forall j :: 0 <= j < |entries| ==> !Matches(entries[j], f)
      ensures r.Ok? && r.value.Some? ==>
                exists i :: 0 <= i < |entries| && Matches(entries[i], f) && Scan(entries[i]) == Ok(r.value.value)
                            && forall j :: 0 <= j < i ==> !Matches(entries[j], f)
      ensures r.Err? ==>
                exists i :: 0 <= i < |entries| && Matches(entries[i], f) && Scan(entries[i]) == Err(r.error)
                            && forall j :: 0 <= j < i ==> !Matches(entries[j], f)
    {
      var i := FirstMatch(entries, f);
      if i < 0 then Ok(None)
      else match Scan(entries[i])
        case Err(e) => Err(e)
        case Ok(entry) => Ok(Some(entry))
    }

    function FindEntryByName(relPath: string): (r: Result<Option<FileEntry>>)
      reads this
      ensures r == FindEntrySingle(ByName(relPath))
      ensures r.Ok? && r.value.Some? ==> r.value.value.name == relPath
    {
      FindEntrySingle(ByName(relPath))
    }

    function FindEntryByMD5(md5sum: string): (r: Result<Option<FileEntry>>)
      reads this
      ensures r == FindEntrySingle(ByMd5(md5sum))
      ensures r.Ok? && r.value.Some? ==> r.value.value.md5Sum == md5sum
    {
      FindEntrySingle(ByMd5(md5sum))
    }

    function FindEntryByArchiveId(archiveId: string): (r: Result<Option<FileEntry>>)
      reads this
      ensures r == FindEntrySingle(ByArchiveId(archiveId))
      ensures r.Ok? && r.value.Some? ==> r.value.value.archiveId == archiveId
    {
      FindEntrySingle(ByArchiveId(archiveId))
    }

    /** FindEntryByQuery: the rows loop, appending each scanned entry. */
    method FindEntryByQuery(f: Filter) returns (r: Result<seq<FileEntry>>)
      ensures r == ScanAll(Select(entries, f))
    {
      var rows := Select(entries, f);
      var entry: seq<FileEntry> := [];
      var i := 0;
      while i < |rows|
        invariant 0 <= i <= |rows|
        invariant |entry| == i
        invariant forall j :: 0 <= j < i ==> Scan(rows[j]) == Ok(entry[j])
      {
        var e := Scan(rows[i]);
        if e.Err? {
          ScanAllStops(rows, i);
          return Err(e.error);
        }
        entry := entry + [e.value];
        i := i + 1;
      }
      ScanAllScans(rows, entry);
      r := Ok(entry);
    }

    /** LockedEntry: the entries with lock = 1. */
    method LockedEntry() returns (r: Result<seq<FileEntry>>)
      ensures r == ScanAll(Select(entries, LockedRows))
      ensures r.Ok? ==> forall e :: e in r.value ==> e.lock == 1
    {
      r := FindEntryByQuery(LockedRows);
      if r.Ok? {
        forall e | e in r.value ensures e.lock == 1 {
          var i :| 0 <= i < |r.value| && r.value[i] == e;
          assert Select(entries, LockedRows)[i] in Select(entries, LockedRows);
        }
      }
    }

    /** AllEntry: every entry, in table order. */
    method AllEntry() returns (r: Result<seq<FileEntry>>)
      ensures r == ScanAll(Select(entries, AllRows))
    {
      r := FindEntryByQuery(AllRows);
    }

    /** The id SQLite gives the next file_entry row: one past the largest. */
    function NextId(): (id: int)
      reads this
      requires Valid()
      ensures forall j :: 0 <= j < |entries| ==> entries[j].id < id
    {
      if entries == [] then 1 else entries[|entries| - 1].id + 1
    }

    /** insert into file_entry (md5sum, name, mtime, size): archive_id stays
        NULL and lock takes its default 0. */
    method InsertEntry(md5sum: string, name: string, mtime: int, size: int) returns (r: Result<int>)
      modifies this
      requires Valid()
      ensures Valid()
      ensures ivs == old(ivs) && comments == old(comments) && requests == old(requests)
      ensures r.Ok? <==> ("file_entry", old(NextId())) !in faults
      ensures r.Err? ==> r.error == StoreFault("file_entry") && entries == old(entries)
      ensures r.Ok? ==> r.value == old(NextId())
                        && entries == old(entries) + [Row(r.value, name, Some(md5sum), mtime, size, None, 0)]
    {
      var id := NextId();
      if ("file_entry", id) in faults {
        return Err(StoreFault("file_entry"));
      }
      entries := entries + [Row(id, name, Some(md5sum), mtime, size, None, 0)];
      r := Ok(id);
    }

    /** insert into initial_vector (id, iv): id is the primary key. */
    method InsertIv(id: int, iv: seq<byte>) returns (o: Outcome)
      modifies this
      ensures entries == old(entries) && comments == old(comments) && requests == old(requests)
      ensures o.Pass? <==> id !in old(ivs) && ("initial_vector", id) !in faults
      ensures o.Fail? ==> ivs == old(ivs)
                          && o.error == if id in old(ivs) then DuplicateKey("initial_vector", id) else StoreFault("initial_vector")
      ensures o.Pass? ==> ivs == old(ivs)[id := iv]
    {
      if id in ivs {
        return Fail(DuplicateKey("initial_vector", id));
      }
      if ("initial_vector", id) in faults {
        return Fail(StoreFault("initial_vector"));
      }
      ivs := ivs[id := iv];
      o := Pass;
    }

    /** GetIV: the IV stored for an entry; no row is an error here. */
    function GetIV(id: int): (r: Result<seq<byte>>)
      reads this
      ensures r.Ok? <==> id in ivs
      ensures r.Ok? ==> r.value == ivs[id]
      ensures r.Err? ==> r.error == NoRows
    {
      if id in ivs then Ok(ivs[id]) else Err(NoRows)
    }

    /** UpdateName: only the name of the row with that id changes; no such
        row is not an error. */
    method UpdateName(id: int, newName: string) returns (o: Outcome)
      modifies this
      requires Valid()
      ensures Valid()
      ensures ivs == old(ivs) && comments == old(comments) && requests == old(requests)
      ensures o.Pass? <==> ("name", id) !in faults
      ensures o.Fail? ==> o.error == StoreFault("name") && entries == old(entries)
      ensures o.Pass? ==> entries == Updated(old(entries), id, (row: Row) => row.(name := newName))
    {
      if ("name", id) in faults {
        return Fail(StoreFault("name"));
      }
      entries := Updated(entries, id, (row: Row) => row.(name := newName));
      o := Pass;
    }

    /** UpdateLock: only the lock of the row with that id changes. */
    method UpdateLock(id: int, lock: int) returns (o: Outcome)
      modifies this
      requires Valid()
      ensures Valid()
      ensures ivs == old(ivs) && comments == old(comments) && requests == old(requests)
      ensures o.Pass? <==> ("lock", id) !in faults
      ensures o.Fail? ==> o.error == StoreFault("lock") && entries == old(entries)
      ensures o.Pass? ==> entries == Updated(old(entries), id, (row: Row) => row.(lock := lock))
    {
      if ("lock", id) in faults {
        return Fail(StoreFault("lock"));
      }
      entries := Updated(entries, id, (row: Row) => row.(lock := lock));
      o := Pass;
    }

    /** `update file_entry set archive_id=? where id=?`, the back-fill after
        an upload. */
    method SetArchiveId(id: int, archiveId: string) returns (o: Outcome)
      modifies this
      requires Valid()
      ensures Valid()
      ensures ivs == old(ivs) && comments == old(comments) && requests == old(requests)
      ensures o.Pass? <==> ("archive_id", id) !in faults
      ensures o.Fail? ==> o.error == StoreFault("archive_id") && entries == old(entries)
      ensures o.Pass? ==> entries == Updated(old(entries), id, (row: Row) => row.(archiveId := Some(archiveId)))
    {
      if ("archive_id", id) in faults {
        return Fail(StoreFault("archive_id"));
      }
      entries := Updated(entries, id, (row: Row) => row.(archiveId := Some(archiveId)));
      o := Pass;
    }

    /** FindExRequestById: no request row is (nil, nil); StartDt is rebuilt
        from the stored nanoseconds. */
    function FindExRequestById(id: int): (r: Result<Option<ExRequest>>)
      reads this
      ensures r.Ok?
      ensures r.value.None? <==> id !in requests
      ensures r.value.Some? ==> r.value.value == ExRequest(id, requests[id].jobId, requests[id].startDt)
    {
      if id in requests then Ok(Some(ExRequest(id, requests[id].jobId, requests[id].startDt))) else Ok(None)
    }

    /** InsertRequest: the job id and the current time under the entry's id,
        the primary key. */
    method InsertRequest(id: int, jobId: string, clock: int) returns (o: Outcome)
      modifies this
      ensures entries == old(entries) && ivs == old(ivs) && comments == old(comments)
      ensures o.Pass? <==> id !in old(requests) && ("ex_request", id) !in faults
      ensures o.Fail? ==> requests == old(requests)
                          && o.error == if id in old(requests) then DuplicateKey("ex_request", id) else StoreFault("ex_request")
      ensures o.Pass? ==> requests == old(requests)[id := Request(jobId, clock)]
    {
      if id in requests {
        return Fail(DuplicateKey("ex_request", id));
      }
      if ("ex_request", id) in faults {
        return Fail(StoreFault("ex_request"));
      }
      requests := requests[id := Request(jobId, clock)];
      o := Pass;
    }

    /** DeleteRequest: only that id's row goes; an absent row is no error. */
    method DeleteRequest(id: int) returns (o: Outcome)
      modifies this
      ensures entries == old(entries) && ivs == old(ivs) && comments == old(comments)
      ensures o.Pass? <==> ("ex_request", id) !in faults
      ensures o.Fail? ==> o.error == StoreFault("ex_request") && requests == old(requests)
      ensures o.Pass? ==> requests == old(requests) - {id}
    {
      if ("ex_request", id) in faults {
        return Fail(StoreFault("ex_request"));
      }
      requests := requests - {id};
      o := Pass;
    }
  }

  /** A new row keeps ascending order, so a rowid table stays valid. */
  lemma AppendKeepsOrder(rows: seq<Row>, row: Row)
    requires AscendingIds(rows)
    requires forall j :: 0 <= j < |rows| ==> rows[j].id < row.id
    ensures AscendingIds(rows + [row])
  {
  }

  /** The rows with lock = 1, and only those, come back from LockedEntry. */
  lemma LockedRowsExactly(rows: seq<Row>, x: Row)
    ensures x in Select(rows, LockedRows) <==> x in rows && x.lock == 1
  {
  }

  /** A row whose archive id is still NULL (an upload that never finished)
      makes every lookup that reaches it fail. */
  lemma PendingRowFails(rows: seq<Row>, f: Filter)
    requires FirstMatch(rows, f) >= 0
    requires rows[FirstMatch(rows, f)].archiveId.None?
    ensures Scan(rows[FirstMatch(rows, f)]).Err?
    ensures ScanAll(Select(rows, f)).Err?
  {
    FirstMatchIsFirstSelected(rows, f);
  }
}
