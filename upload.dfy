/** A multipart upload of one file to the archive service. The file is cut
    into 8 MiB parts (ids from 0), every part is read, hashed as a tree of
    1 MiB SHA-256 leaves and sent, the per-part results are collected into
    an array indexed by part id, and the upload is then either aborted (some
    part failed) or completed with the tree hash of the id-ordered part
    hashes. The worker pool is modelled by `arrival`: for a given number of
    parts, the order in which their results reach the collector, any
    permutation of the part ids. */
module Upload {
  import opened Common
  import opened Chunking
  import opened Disk

  const OneMiB: int := 1048576
  const UplChunkSize: int := 8 * OneMiB

  datatype ChunkResult = ChunkResult(id: int, err: Option<Error>, hash: seq<byte>)

  /** An UploadMultipartPart request: the byte range as sent in its Range
      header, the body and its hex tree-hash checksum. */
  datatype Part = Part(uploadId: string, start: int, end: int, body: seq<byte>, checksum: string)

  /** The calls the upload makes on the archive service, in order. */
  datatype Call =
    | Initiate(partSize: int)
    | UploadPart(part: Part)
    | Abort(uploadId: string)
    | Complete(uploadId: string, checksum: string, archiveSize: int)

  /** What the service and the run-time do, which the model cannot see: the
      error opening the AWS session for the manager that uploads (if any),
      the result of initiate, the parts whose os.Open fails, whether requests
      pass the SDK's parameter validation, the order in which part results
      arrive, and the result of complete. */
  datatype UploadEnv = UploadEnv(
    session: Option<Error>,
    initiate: Result<string>,
    openFails: set<int>,
    partsValid: bool,
    arrival: nat -> seq<nat>,
    complete: Result<string>)

  /** Every chunk count has its arrival order: each part's result arrives
      exactly once. */
  ghost predicate Scheduled(env: UploadEnv) {
    forall n: nat :: IsOrder(env.arrival(n), n)
  }

  /** The planning loop of an upload: the plan with ids 0, 1, ... */
  method PlanParts(size: int) returns (params: seq<Chunk>)
    ensures params == Plan(size, UplChunkSize, 0)
  {
    params := [];
    var i := 0;
    var p := 0;
    while p < size
      invariant params + PlanFrom(p, size, UplChunkSize, i) == Plan(size, UplChunkSize, 0)
      decreases size - p
    {
      var pe := p + UplChunkSize - 1;
      if pe > size {
        pe := size - 1;
      }
      assert PlanFrom(p, size, UplChunkSize, i) == [Chunk(i, p, pe)] + PlanFrom(p + UplChunkSize, size, UplChunkSize, i + 1);
      params := params + [Chunk(i, p, pe)];
      i := i + 1;
      p := p + UplChunkSize;
    }
  }

  /** io.ReadAtLeast(f, buf, min) on a regular file positioned at pos, with
      a buffer of bufLen bytes. A read of a regular file returns everything
      up to the buffer's size or the end of the file, so one read decides. */
  function ReadAtLeast(data: seq<byte>, pos: nat, bufLen: int, min: int): (r: Result<nat>)
    ensures r.Ok? ==> min <= r.value <= bufLen || (min <= 0 && r.value == 0)
    ensures r.Ok? && r.value > 0 ==> pos + r.value <= |data|
  {
    if bufLen < min then Err(ShortBuffer)
    else if min <= 0 then Ok(0)
    else
      var avail := if pos >= |data| then 0 else Min(bufLen, |data| - pos);
      if avail >= min then Ok(avail)
      else if avail > 0 then Err(UnexpectedEof)
      else Err(Eof)
  }

  /** The 1 MiB leaves of buf from position p on, as the leaf loop slices
      them. */
  function LeavesFrom(buf: seq<byte>, p: nat): seq<seq<byte>>
    decreases |buf| - p
  {
    if p >= |buf| then [] else [buf[p..Min(p + OneMiB, |buf|)]] + LeavesFrom(buf, p + OneMiB)
  }

  function Leaves(buf: seq<byte>): seq<seq<byte>> {
    LeavesFrom(buf, 0)
  }

  /** The SHA-256 sum of each leaf, in order. */
  function Digests(prims: Primitives, leaves: seq<seq<byte>>): (r: seq<seq<byte>>)
    ensures |r| == |leaves|
    ensures forall i :: 0 <= i < |r| ==> r[i] == prims.sha256(leaves[i])
  {
    if leaves == [] then [] else [prims.sha256(leaves[0])] + Digests(prims, leaves[1..])
  }

  lemma DigestsStep(prims: Primitives, buf: seq<byte>, p: nat)
    requires p < |buf|
    ensures Digests(prims, LeavesFrom(buf, p))
            == [prims.sha256(buf[p..Min(p + OneMiB, |buf|)])] + Digests(prims, LeavesFrom(buf, p + OneMiB))
  {
    assert LeavesFrom(buf, p)[1..] == LeavesFrom(buf, p + OneMiB);
  }

  /** The leaves from p on cover buf[p..] in order, each holds 1 to OneMiB
      bytes, all but the last exactly OneMiB, and there are
      ceil((|buf| - p) / OneMiB) of them. */
  lemma {:induction false} LeavesFromCover(buf: seq<byte>, p: nat)
    requires p <= |buf|
    ensures Flatten(LeavesFrom(buf, p)) == buf[p..]
    ensures |LeavesFrom(buf, p)| == ChunkCount(|buf| - p, OneMiB)
    ensures forall i :: 0 <= i < |LeavesFrom(buf, p)| ==>
              0 < |LeavesFrom(buf, p)[i]| <= OneMiB
              && (i + 1 < |LeavesFrom(buf, p)| ==> |LeavesFrom(buf, p)[i]| == OneMiB)
    decreases |buf| - p
  {
    var leaves := LeavesFrom(buf, p);
    if p < |buf| {
      var head := buf[p..Min(p + OneMiB, |buf|)];
      var rest := LeavesFrom(buf, p + OneMiB);
      assert leaves == [head] + rest;
      FlattenCons(head, rest);
      var s := |buf| - p;
      if p + OneMiB <= |buf| {
        LeavesFromCover(buf, p + OneMiB);
        assert buf[p..] == head + buf[p + OneMiB..];
        if s == OneMiB {
          DivModUnique(s - 1, OneMiB, 0, s - 1);
        } else {
          DivStep(s - OneMiB - 1, OneMiB);
        }
        forall i | 0 <= i < |leaves|
          ensures 0 < |leaves[i]| <= OneMiB && (i + 1 < |leaves| ==> |leaves[i]| == OneMiB)
        {
          if i > 0 {
            assert leaves[i] == rest[i - 1];
          }
        }
      } else {
        assert rest == [];
        DivModUnique(s - 1, OneMiB, 0, s - 1);
      }
    }
  }

  /** The leaves of a part's bytes cover them in order, each at most 1 MiB,
      and there are ceil(n / OneMiB) of them. */
  lemma LeavesCover(buf: seq<byte>)
    ensures Flatten(Leaves(buf)) == buf
    ensures |Leaves(buf)| == ChunkCount(|buf|, OneMiB)
    ensures forall i :: 0 <= i < |Leaves(buf)| ==>
              0 < |Leaves(buf)[i]| <= OneMiB
              && (i + 1 < |Leaves(buf)| ==> |Leaves(buf)[i]| == OneMiB)
  {
    LeavesFromCover(buf, 0);
  }

  /** The leaf loop of processChunk: the SHA-256 sum of every 1 MiB leaf of
      the part's bytes, in order. */
  method LeafHashes(prims: Primitives, buf: seq<byte>) returns (hashes: seq<seq<byte>>)
    ensures hashes == Digests(prims, Leaves(buf))
  {
    hashes := [];
    var n := |buf|;
    var p := 0;
    while p < n
      invariant 0 <= p
      invariant hashes + Digests(prims, LeavesFrom(buf, p)) == Digests(prims, Leaves(buf))
      decreases n - p
    {
      var pe := p + OneMiB;
      if pe > n {
        pe := n;
      }
      DigestsStep(prims, buf, p);
      ghost var rest := Digests(prims, LeavesFrom(buf, p + OneMiB));
      var h := prims.sha256(buf[p..pe]);
      assert hashes + Digests(prims, LeavesFrom(buf, p)) == hashes + ([h] + rest);
      ConcatAssoc(hashes, [h], rest);
      hashes := hashes + [h];
      p := p + OneMiB;
    }
  }

  /** What processChunk sends on the result channel, and the part it
      uploads, if any. */
  function ChunkOutcome(prims: Primitives, data: seq<byte>, uploadId: string, cp: Chunk,
                        isOpen: bool, valid: bool): (ChunkResult, Option<Part>)
  {
    if !isOpen || cp.start < 0 then (ChunkResult(cp.id, Some(Tagged(cp.id, Invalid)), []), None)
    else match ReadAtLeast(data, cp.start, UplChunkSize, cp.end - cp.start)
      case Err(e) => (ChunkResult(cp.id, Some(Tagged(cp.id, e)), []), None)
      case Ok(n) =>
        var body := if n == 0 then [] else data[cp.start..cp.start + n];
        var tree := prims.treeHash(Digests(prims, Leaves(body)));
        if valid then (ChunkResult(cp.id, None, tree), Some(Part(uploadId, cp.start, cp.end, body, Hex(tree))))
        else (ChunkResult(cp.id, Some(InvalidParams), []), None)
  }

  /** processChunk: open and seek (a failed open surfaces as a failed seek),
      read the part, hash its 1 MiB leaves, validate and send. The send is
      retried until it succeeds. */
  method ProcessChunk(prims: Primitives, data: seq<byte>, uploadId: string, cp: Chunk,
                      isOpen: bool, valid: bool) returns (res: ChunkResult, sent: Option<Part>)
    ensures (res, sent) == ChunkOutcome(prims, data, uploadId, cp, isOpen, valid)
  {
    if !isOpen || cp.start < 0 {
      return ChunkResult(cp.id, Some(Tagged(cp.id, Invalid)), []), None;
    }
    var read := ReadAtLeast(data, cp.start, UplChunkSize, cp.end - cp.start);
    if read.Err? {
      return ChunkResult(cp.id, Some(Tagged(cp.id, read.error)), []), None;
    }
    var n := read.value;
    var buf: seq<byte> := if n == 0 then [] else data[cp.start..cp.start + n];
    var hashes := LeafHashes(prims, buf);
    var tree := prims.treeHash(hashes);
    if !valid {
      return ChunkResult(cp.id, Some(InvalidParams), []), None;
    }
    res, sent := ChunkResult(cp.id, None, tree), Some(Part(uploadId, cp.start, cp.end, buf, Hex(tree)));
  }

  /** Exactly one result per chunk, carrying the chunk's id; it is a success
      exactly when a part is sent, and a sent part carries the bytes read
      from the chunk's start, the chunk's own range, and the hex of the
      result's tree hash of the part's leaf digests. */
  lemma ChunkOutcomeShape(prims: Primitives, data: seq<byte>, uploadId: string, cp: Chunk,
                          isOpen: bool, valid: bool)
    ensures var (res, sent) := ChunkOutcome(prims, data, uploadId, cp, isOpen, valid);
            && res.id == cp.id
            && (res.err.None? <==> sent.Some?)
            && (res.err.None? <==> isOpen && cp.start >= 0 && valid
                                   && ReadAtLeast(data, cp.start, UplChunkSize, cp.end - cp.start).Ok?)
            && (sent.Some? ==>
                  var n := ReadAtLeast(data, cp.start, UplChunkSize, cp.end - cp.start).value;
                  && sent.value.body == (if n == 0 then [] else data[cp.start..cp.start + n])
                  && sent.value.start == cp.start && sent.value.end == cp.end
                  && sent.value.uploadId == uploadId
                  && res.hash == prims.treeHash(Digests(prims, Leaves(sent.value.body)))
                  && sent.value.checksum == Hex(res.hash))
  {
  }

  /** The first error among results, in the order they are received. */
  function FirstError(results: seq<ChunkResult>): Option<Error>
    decreases |results|
  {
    if results == [] then None
    else if results[0].err.Some? then results[0].err
    else FirstError(results[1..])
  }

  /** FirstError is the error of the earliest failed result, and there is
      one exactly when some result failed. */
  lemma {:induction false} FirstErrorIsFirst(results: seq<ChunkResult>)
    ensures FirstError(results).None? <==> forall i :: 0 <= i < |results| ==> results[i].err.None?
    ensures FirstError(results).Some? ==>
              exists i :: 0 <= i < |results| && results[i].err == FirstError(results)
                          && forall j :: 0 <= j < i ==> results[j].err.None?
    decreases |results|
  {
    if results != [] && results[0].err.None? {
      var rest := results[1..];
      FirstErrorIsFirst(rest);
      if FirstError(rest).Some? {
        var i :| 0 <= i < |rest| && rest[i].err == FirstError(rest)
                 && forall j :: 0 <= j < i ==> rest[j].err.None?;
        assert results[i + 1] == rest[i];
        forall j | 0 <= j < i + 1 ensures results[j].err.None? {
          if j > 0 {
            assert results[j] == rest[j - 1];
          }
        }
      }
      forall i | 0 <= i < |results| && FirstError(rest).None? ensures results[i].err.None? {
        if i > 0 {
          assert results[i] == rest[i - 1];
        }
      }
    }
  }

  predicate IdsAreOrder(results: seq<ChunkResult>) {
    && (forall i :: 0 <= i < |results| ==> 0 <= results[i].id < |results|)
    && (forall i, j :: 0 <= i < j < |results| ==> results[i].id != results[j].id)
  }

  /** The collection loop: receive one result per chunk, stop at the first
      error, and otherwise store each hash at the index of its chunk id. */
  method CollectResults(results: seq<ChunkResult>) returns (hashes: seq<seq<byte>>, err: Option<Error>)
    requires IdsAreOrder(results)
    ensures err == FirstError(results)
    ensures |hashes| == |results|
    ensures err.None? ==> forall i :: 0 <= i < |results| ==> hashes[results[i].id] == results[i].hash
  {
    var n := |results|;
    var arr := new seq<byte>[n](_ => []);
    err := None;
    var i := 0;
    while i < n
      invariant 0 <= i <= n
      invariant FirstError(results) == FirstError(results[i..])
      invariant forall j :: 0 <= j < i ==> arr[results[j].id] == results[j].hash
    {
      assert results[i..][1..] == results[i + 1..];
      if results[i].err.Some? {
        err := results[i].err;
        break;
      }
      arr[results[i].id] := results[i].hash;
      i := i + 1;
    }
    hashes := arr[..];
  }

  function PartOutcome(prims: Primitives, data: seq<byte>, uploadId: string, env: UploadEnv, cp: Chunk)
    : (ChunkResult, Option<Part>)
  {
    ChunkOutcome(prims, data, uploadId, cp, cp.id !in env.openFails, env.partsValid)
  }

  /** The outcomes of the planned parts in the order their results arrive. */
  function Arrived(prims: Primitives, data: seq<byte>, uploadId: string, env: UploadEnv, plan: seq<Chunk>)
    : (outs: seq<(ChunkResult, Option<Part>)>)
    requires IsOrder(env.arrival(|plan|), |plan|)
    ensures |outs| == |plan|
  {
    seq(|plan|, i requires 0 <= i < |plan| => PartOutcome(prims, data, uploadId, env, plan[env.arrival(|plan|)[i]]))
  }

  function Results(outs: seq<(ChunkResult, Option<Part>)>): (r: seq<ChunkResult>)
    ensures |r| == |outs|
  {
    seq(|outs|, i requires 0 <= i < |outs| => outs[i].0)
  }

  /** The UploadPart calls of the parts that were sent, in arrival order. */
  function SentCalls(outs: seq<(ChunkResult, Option<Part>)>): seq<Call>
    decreases |outs|
  {
    if outs == [] then []
    else
      var last := outs[|outs| - 1];
      SentCalls(outs[..|outs| - 1]) + (if last.1.Some? then [UploadPart(last.1.value)] else [])
  }

  /** The part hashes in chunk-id order. */
  function IdOrderHashes(prims: Primitives, data: seq<byte>, uploadId: string, env: UploadEnv, plan: seq<Chunk>)
    : seq<seq<byte>>
  {
    seq(|plan|, k requires 0 <= k < |plan| => PartOutcome(prims, data, uploadId, env, plan[k]).0.hash)
  }

  /** Whatever the arrival order, the result received at step j belongs to
      the part with id arrival[j], so the ids received are each part's once. */
  lemma ArrivedIds(prims: Primitives, data: seq<byte>, uploadId: string, env: UploadEnv, plan: seq<Chunk>)
    requires plan == Plan(|data|, UplChunkSize, 0)
    requires IsOrder(env.arrival(|plan|), |plan|)
    ensures forall j :: 0 <= j < |plan| ==> Results(Arrived(prims, data, uploadId, env, plan))[j].id == env.arrival(|plan|)[j]
    ensures IdsAreOrder(Results(Arrived(prims, data, uploadId, env, plan)))
  {
    PlanShape(|data|, UplChunkSize, 0);
    forall j | 0 <= j < |plan|
      ensures Results(Arrived(prims, data, uploadId, env, plan))[j].id == env.arrival(|plan|)[j]
    {
      var cp := plan[env.arrival(|plan|)[j]];
      ChunkOutcomeShape(prims, data, uploadId, cp, cp.id !in env.openFails, env.partsValid);
    }
  }

  /** Storing each received hash at its part's id gives the hashes in id
      order, whatever order they arrived in. */
  lemma CollectedInIdOrder(prims: Primitives, data: seq<byte>, uploadId: string, env: UploadEnv,
                           plan: seq<Chunk>, hashes: seq<seq<byte>>)
    requires plan == Plan(|data|, UplChunkSize, 0)
    requires IsOrder(env.arrival(|plan|), |plan|)
    requires |hashes| == |plan|
    requires forall j :: 0 <= j < |plan| ==> Results(Arrived(prims, data, uploadId, env, plan))[j].id == env.arrival(|plan|)[j]
    requires forall j :: 0 <= j < |plan| ==>
               hashes[Results(Arrived(prims, data, uploadId, env, plan))[j].id]
               == Results(Arrived(prims, data, uploadId, env, plan))[j].hash
    ensures hashes == IdOrderHashes(prims, data, uploadId, env, plan)
  {
    OrderCovers(env.arrival(|plan|), |plan|);
    var results := Results(Arrived(prims, data, uploadId, env, plan));
    forall k | 0 <= k < |plan|
      ensures hashes[k] == PartOutcome(prims, data, uploadId, env, plan[k]).0.hash
    {
      assert k in env.arrival(|plan|);
      var j :| 0 <= j < |plan| && env.arrival(|plan|)[j] == k;
      assert results[j].id == k;
    }
  }

  /** What UploadFile returns for a regular file holding `data`: the
      initiate error, the first part error received, or the result of
      complete. */
  function UploadResult(prims: Primitives, data: seq<byte>, env: UploadEnv): Result<string>
    requires IsOrder(env.arrival(ChunkCount(|data|, UplChunkSize)), ChunkCount(|data|, UplChunkSize))
  {
    if env.initiate.Err? then Err(env.initiate.error)
    else
      var plan := Plan(|data|, UplChunkSize, 0);
      PlanShape(|data|, UplChunkSize, 0);
      match FirstError(Results(Arrived(prims, data, env.initiate.value, env, plan)))
      case Some(e) => Err(e)
      case None => env.complete
  }

  /** The workers: every planned part is processed, and its result and its
      UploadPart call are taken in the order results arrive. */
  method ProcessParts(prims: Primitives, data: seq<byte>, uploadId: string, env: UploadEnv, params: seq<Chunk>)
    returns (results: seq<ChunkResult>, calls: seq<Call>)
    requires IsOrder(env.arrival(|params|), |params|)
    ensures results == Results(Arrived(prims, data, uploadId, env, params))
    ensures calls == SentCalls(Arrived(prims, data, uploadId, env, params))
  {
    ghost var outs := Arrived(prims, data, uploadId, env, params);
    results := [];
    calls := [];
    var i := 0;
    while i < |params|
      invariant 0 <= i <= |params|
      invariant results == Results(outs[..i])
      invariant calls == SentCalls(outs[..i])
    {
      var cp := params[env.arrival(|params|)[i]];
      var res, sent := ProcessChunk(prims, data, uploadId, cp, cp.id !in env.openFails, env.partsValid);
      assert outs[i] == (res, sent);
      assert outs[..i + 1][..i] == outs[..i];
      assert Results(outs[..i + 1]) == Results(outs[..i]) + [res];
      results := results + [res];
      if sent.Some? {
        calls := calls + [UploadPart(sent.value)];
      }
      i := i + 1;
    }
    assert outs[..|params|] == outs;
  }

  /** UploadFile: stat, initiate, plan, process every part, collect, then
      abort or complete. Its only caller uploads the `.enc` file it has just
      written, so the directory case below is never reached from there. */
  method UploadFile(prims: Primitives, fs: FileSystem, fileName: string, env: UploadEnv)
    returns (r: Result<string>, calls: seq<Call>)
    requires fileName in fs.files ==>
               var n := ChunkCount(|fs.files[fileName].content|, UplChunkSize);
               IsOrder(env.arrival(n), n)
    ensures !fs.Stat(fileName).IsFile? ==> r.Err? && calls == []
    ensures fs.Stat(fileName).IsFile? ==> r == UploadResult(prims, fs.files[fileName].content, env)
    ensures fs.Stat(fileName).IsFile? && env.initiate.Err? ==>
              r == Err(env.initiate.error) && calls == [Initiate(UplChunkSize)]
    ensures fs.Stat(fileName).IsFile? && env.initiate.Ok? ==>
              var data := fs.files[fileName].content;
              var plan := Plan(|data|, UplChunkSize, 0);
              var uploadId := env.initiate.value;
              IsOrder(env.arrival(|plan|), |plan|)
              && var outs := Arrived(prims, data, uploadId, env, plan);
              var first := FirstError(Results(outs));
              && (first.Some? ==>
                    r == Err(first.value)
                    && calls == [Initiate(UplChunkSize)] + SentCalls(outs) + [Abort(uploadId)])
              && (first.None? ==>
                    r == env.complete
                    && calls == [Initiate(UplChunkSize)] + SentCalls(outs)
                                + [Complete(uploadId, Hex(prims.treeHash(IdOrderHashes(prims, data, uploadId, env, plan))), |data|)])
  {
    calls := [];
    var st := fs.Stat(fileName);
    if !st.IsFile? {
      r := Err(if st.Faulty? then st.error else if st.Absent? then NotExist(fileName) else IsDir(fileName));
      return;
    }
    var data := st.file.content;
    var size := |data|;
    calls := [Initiate(UplChunkSize)];
    if env.initiate.Err? {
      r := Err(env.initiate.error);
      return;
    }
    var uploadId := env.initiate.value;
    var params := PlanParts(size);
    PlanShape(size, UplChunkSize, 0);
    var results, sentCalls := ProcessParts(prims, data, uploadId, env, params);
    calls := calls + sentCalls;
    ArrivedIds(prims, data, uploadId, env, params);
    var hashes, err := CollectResults(results);
    if err.Some? {
      calls := calls + [Abort(uploadId)];
      r := Err(err.value);
      return;
    }
    CollectedInIdOrder(prims, data, uploadId, env, params, hashes);
    var tree := prims.treeHash(hashes);
    calls := calls + [Complete(uploadId, Hex(tree), size)];
    r := env.complete;
  }

  /** For a planned part the read never fails: it yields the whole range,
      except for a one-byte last part, where the minimum end - start is 0
      and io.ReadAtLeast reads nothing. */
  lemma PlannedRead(data: seq<byte>, k: nat)
    requires k < |Plan(|data|, UplChunkSize, 0)|
    ensures var cp := Plan(|data|, UplChunkSize, 0)[k];
            && 0 <= cp.start < |data|
            && ReadAtLeast(data, cp.start, UplChunkSize, cp.end - cp.start)
               == Ok(if |data| - cp.start == 1 then 0 else Min(UplChunkSize, |data| - cp.start))
  {
    PlanFromBounds(0, |data|, UplChunkSize, 0);
    PlanFromAt(0, |data|, UplChunkSize, 0, k);
  }

  /** The bytes a planned part sends when it may open and validates. */
  lemma PlannedPartBody(prims: Primitives, data: seq<byte>, uploadId: string, k: nat)
    requires k < |Plan(|data|, UplChunkSize, 0)|
    ensures var cp := Plan(|data|, UplChunkSize, 0)[k];
            var (res, sent) := ChunkOutcome(prims, data, uploadId, cp, true, true);
            && 0 <= cp.start < |data| && res.err.None? && sent.Some?
            && sent.value.body == (if |data| - cp.start == 1 then [] else data[cp.start..Min(cp.start + UplChunkSize, |data|)])
  {
    PlannedRead(data, k);
  }

  /** The upload aborts exactly when the file is not empty and some part
      cannot open its file or the requests fail validation; which part's
      error is reported depends on the arrival order, whether one is does
      not. */
  lemma UploadAbortsIff(prims: Primitives, data: seq<byte>, uploadId: string, env: UploadEnv)
    requires IsOrder(env.arrival(|Plan(|data|, UplChunkSize, 0)|), |Plan(|data|, UplChunkSize, 0)|)
    ensures FirstError(Results(Arrived(prims, data, uploadId, env, Plan(|data|, UplChunkSize, 0)))).Some?
            <==> |data| > 0 && (!env.partsValid || exists k :: 0 <= k < ChunkCount(|data|, UplChunkSize) && k in env.openFails)
  {
    var plan := Plan(|data|, UplChunkSize, 0);
    var results := Results(Arrived(prims, data, uploadId, env, plan));
    PlanShape(|data|, UplChunkSize, 0);
    FirstErrorIsFirst(results);
    OrderCovers(env.arrival(|plan|), |plan|);
    forall j | 0 <= j < |plan|
      ensures results[j].err.None? <==> env.partsValid && env.arrival(|plan|)[j] !in env.openFails
    {
      ArrivedErr(prims, data, uploadId, env, j);
    }
    if exists k :: 0 <= k < |plan| && k in env.openFails {
      var k :| 0 <= k < |plan| && k in env.openFails;
      assert k in env.arrival(|plan|);
      var j :| 0 <= j < |plan| && env.arrival(|plan|)[j] == k;
      assert results[j].err.Some?;
    }
    if |data| > 0 && !env.partsValid {
      assert results[0].err.Some?;
    }
  }

  /** The j-th result to arrive is an error exactly when the parts do not
      validate or the part it reports cannot be opened. */
  lemma ArrivedErr(prims: Primitives, data: seq<byte>, uploadId: string, env: UploadEnv, j: nat)
    requires IsOrder(env.arrival(|Plan(|data|, UplChunkSize, 0)|), |Plan(|data|, UplChunkSize, 0)|)
    requires j < |Plan(|data|, UplChunkSize, 0)|
    ensures var plan := Plan(|data|, UplChunkSize, 0);
            Results(Arrived(prims, data, uploadId, env, plan))[j].err.None?
            <==> env.partsValid && env.arrival(|plan|)[j] !in env.openFails
  {
    var plan := Plan(|data|, UplChunkSize, 0);
    var k := env.arrival(|plan|)[j];
    var cp := plan[k];
    PlanShape(|data|, UplChunkSize, 0);
    assert cp.id == k;
    assert Results(Arrived(prims, data, uploadId, env, plan))[j] == PartOutcome(prims, data, uploadId, env, cp).0;
    PlannedRead(data, k);
    ChunkOutcomeShape(prims, data, uploadId, cp, cp.id !in env.openFails, env.partsValid);
  }

  /** A part whose file opens and whose requests validate is processed as
      such. */
  lemma OpenPartOutcome(prims: Primitives, data: seq<byte>, uploadId: string, env: UploadEnv, cp: Chunk)
    requires env.partsValid && cp.id !in env.openFails
    ensures PartOutcome(prims, data, uploadId, env, cp) == ChunkOutcome(prims, data, uploadId, cp, true, true)
  {
  }

  /** The bodies of the parts in chunk-id order. */
  function IdOrderBodies(prims: Primitives, data: seq<byte>, uploadId: string, env: UploadEnv, plan: seq<Chunk>)
    : (r: seq<seq<byte>>)
    ensures |r| == |plan|
  {
    seq(|plan|, k requires 0 <= k < |plan| =>
      match PartOutcome(prims, data, uploadId, env, plan[k]).1
      case Some(part) => part.body
      case None => [])
  }

  /** When part k may open and validates, its body is its planned range cut
      at the end of the file, except that a one-byte part, which can only be
      the last, is empty. */
  lemma BodyIsSlice(prims: Primitives, data: seq<byte>, uploadId: string, env: UploadEnv, k: nat)
    requires env.partsValid
    requires k < |Plan(|data|, UplChunkSize, 0)| && k !in env.openFails
    ensures var plan := Plan(|data|, UplChunkSize, 0);
            && WithinObject(plan, |data|)
            && 0 <= plan[k].start < |data|
            && IdOrderBodies(prims, data, uploadId, env, plan)[k]
               == (if |data| - plan[k].start == 1 then [] else Slices(data, plan)[k])
            && (|data| - plan[k].start == 1 ==> k == |plan| - 1)
  {
    var plan := Plan(|data|, UplChunkSize, 0);
    PlanFromBounds(0, |data|, UplChunkSize, 0);
    PlanShape(|data|, UplChunkSize, 0);
    PartBodyAt(prims, data, uploadId, env, k);
    SlicesAt(data, plan, k);
    PlannedEnd(data, k);
    if k + 1 < |plan| {
      PlanInterior(|data|, UplChunkSize, 0, k);
      PlanFromAt(0, |data|, UplChunkSize, 0, k + 1);
    }
  }

  /** The body part k sends when it may open and validates. */
  lemma PartBodyAt(prims: Primitives, data: seq<byte>, uploadId: string, env: UploadEnv, k: nat)
    requires env.partsValid
    requires k < |Plan(|data|, UplChunkSize, 0)| && k !in env.openFails
    ensures var cp := Plan(|data|, UplChunkSize, 0)[k];
            && 0 <= cp.start < |data|
            && IdOrderBodies(prims, data, uploadId, env, Plan(|data|, UplChunkSize, 0))[k]
               == (if |data| - cp.start == 1 then [] else data[cp.start..Min(cp.start + UplChunkSize, |data|)])
  {
    var plan := Plan(|data|, UplChunkSize, 0);
    PlanShape(|data|, UplChunkSize, 0);
    var cp := plan[k];
    assert cp.id == k;
    PlannedPartBody(prims, data, uploadId, k);
    OpenPartOutcome(prims, data, uploadId, env, cp);
  }

  /** The range of a planned part ends where its upload read does. */
  lemma PlannedEnd(data: seq<byte>, k: nat)
    requires k < |Plan(|data|, UplChunkSize, 0)|
    ensures var cp := Plan(|data|, UplChunkSize, 0)[k];
            Min(cp.end + 1, |data|) == Min(cp.start + UplChunkSize, |data|)
  {
    PlanFromAt(0, |data|, UplChunkSize, 0, k);
  }

  /** When every part succeeds, the part bodies in id order are the file's
      bytes, unless the size leaves remainder 1 modulo the part size: that
      last one-byte part is sent empty, and the bodies are the file without
      its last byte. */
  lemma UploadedBodies(prims: Primitives, data: seq<byte>, uploadId: string, env: UploadEnv)
    requires env.partsValid
    requires forall k :: 0 <= k < ChunkCount(|data|, UplChunkSize) ==> k !in env.openFails
    ensures var bodies := IdOrderBodies(prims, data, uploadId, env, Plan(|data|, UplChunkSize, 0));
            && (|data| % UplChunkSize != 1 ==> Flatten(bodies) == data)
            && (|data| % UplChunkSize == 1 ==>
                  |bodies| > 0 && bodies[|bodies| - 1] == [] && Flatten(bodies) == data[..|data| - 1])
  {
    var plan := Plan(|data|, UplChunkSize, 0);
    var bodies := IdOrderBodies(prims, data, uploadId, env, plan);
    PlanSlicesConcatenate(data, UplChunkSize, 0);
    var slices := Slices(data, plan);
    if |data| == 0 {
      assert plan == [];
      return;
    }
    PlanLastRemainder(|data|, UplChunkSize, 0);
    BodiesAreSlices(prims, data, uploadId, env);
    LastSlice(data, UplChunkSize);
    FlattenBodies(data, plan, slices, bodies);
  }

  lemma FlattenBodies(data: seq<byte>, plan: seq<Chunk>, slices: seq<seq<byte>>, bodies: seq<seq<byte>>)
    requires |plan| == |slices| == |bodies| > 0 && Flatten(slices) == data
    requires 0 <= plan[|plan| - 1].start < |data|
    requires forall k :: 0 <= k < |plan| ==> bodies[k] == (if |data| - plan[k].start == 1 then [] else slices[k])
    requires forall k :: 0 <= k < |plan| && |data| - plan[k].start == 1 ==> k == |plan| - 1
    requires slices[|plan| - 1] == data[plan[|plan| - 1].start..]
    ensures |data| - plan[|plan| - 1].start != 1 ==> Flatten(bodies) == data
    ensures |data| - plan[|plan| - 1].start == 1 ==> bodies[|plan| - 1] == [] && Flatten(bodies) == data[..|data| - 1]
  {
    var n := |plan|;
    if |data| - plan[n - 1].start != 1 {
      forall k | 0 <= k < n ensures bodies[k] == slices[k] {
        assert |data| - plan[k].start != 1;
      }
      assert bodies == slices;
    } else {
      assert slices[n - 1] == [data[|data| - 1]];
      assert bodies[..n - 1] == slices[..n - 1];
      LastSliceOneByte(data, slices, bodies);
    }
  }

  lemma BodiesAreSlices(prims: Primitives, data: seq<byte>, uploadId: string, env: UploadEnv)
    requires env.partsValid
    requires forall k :: 0 <= k < ChunkCount(|data|, UplChunkSize) ==> k !in env.openFails
    ensures var plan := Plan(|data|, UplChunkSize, 0);
            && WithinObject(plan, |data|)
            && forall k :: 0 <= k < |plan| ==>
                 && 0 <= plan[k].start < |data|
                 && IdOrderBodies(prims, data, uploadId, env, plan)[k]
                    == (if |data| - plan[k].start == 1 then [] else Slices(data, plan)[k])
                 && (|data| - plan[k].start == 1 ==> k == |plan| - 1)
  {
    var plan := Plan(|data|, UplChunkSize, 0);
    PlanShape(|data|, UplChunkSize, 0);
    PlanSlicesConcatenate(data, UplChunkSize, 0);
    forall k | 0 <= k < |plan|
      ensures && 0 <= plan[k].start < |data|
              && IdOrderBodies(prims, data, uploadId, env, plan)[k]
                 == (if |data| - plan[k].start == 1 then [] else Slices(data, plan)[k])
              && (|data| - plan[k].start == 1 ==> k == |plan| - 1)
    {
      BodyIsSlice(prims, data, uploadId, env, k);
    }
  }

  lemma LastSliceOneByte(data: seq<byte>, slices: seq<seq<byte>>, bodies: seq<seq<byte>>)
    requires |slices| == |bodies| > 0 && |data| > 0
    requires Flatten(slices) == data
    requires slices[|slices| - 1] == [data[|data| - 1]] && bodies[|bodies| - 1] == []
    requires bodies[..|bodies| - 1] == slices[..|slices| - 1]
    ensures Flatten(bodies) == data[..|data| - 1]
  {
    var n := |slices|;
    assert slices == slices[..n - 1] + [slices[n - 1]];
    assert bodies == bodies[..n - 1] + [[]];
    FlattenAppend(slices[..n - 1], [slices[n - 1]]);
    FlattenAppend(bodies[..n - 1], [[]]);
    assert Flatten([slices[n - 1]]) == Flatten([]) + slices[n - 1];
    assert Flatten([[]]) == Flatten([]) + [];
    assert data == data[..|data| - 1] + [data[|data| - 1]];
  }
}
