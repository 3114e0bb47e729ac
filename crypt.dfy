/** The streaming AES-CTR envelope: a random 16-byte IV, and Encrypt and
    Decrypt, which read the input in 16 KiB buffers, XOR each buffer with the
    keystream at the running stream position, write it to the output file,
    and fold the plaintext into a running MD5. The keystream and MD5 are
    uninterpreted (`Primitives`); what the input file's successive reads
    return is a parameter, `FileReads` being what a regular file delivers. */
module Crypt {
  import opened Common
  import opened Chunking
  import opened Disk

  const BlockSize: int := 16
  const BufSize: int := 16 * 1024

  /** crypto/rand: the bytes the system's random source will deliver. */
  class Entropy {
    var pool: seq<byte>

    constructor (bytes: seq<byte>)
      ensures pool == bytes
    {
      pool := bytes;
    }
  }

  /** MakeIV: io.ReadFull of one AES block from the random source. Every
      call consumes fresh bytes, so two calls never reuse the same draw. */
  method MakeIV(rng: Entropy) returns (r: Result<seq<byte>>)
    modifies rng
    ensures r.Ok? <==> |old(rng.pool)| >= BlockSize
    ensures r.Ok? ==> |r.value| == BlockSize && r.value == old(rng.pool)[..BlockSize] && rng.pool == old(rng.pool)[BlockSize..]
    ensures r.Err? ==> r.error == RandomFault && rng.pool == []
  {
    if |rng.pool| < BlockSize {
      rng.pool := [];
      return Err(RandomFault);
    }
    r := Ok(rng.pool[..BlockSize]);
    rng.pool := rng.pool[BlockSize..];
  }

  /** aes.NewCipher accepts AES-128, AES-192 and AES-256 keys. */
  predicate ValidKey(key: seq<byte>) {
    |key| == 16 || |key| == 24 || |key| == 32
  }

  /** One Read call on the input: the bytes it put in the buffer and the
      error it returned with them. */
  datatype Read = Read(data: seq<byte>, err: Option<Error>)

  predicate Buffered(steps: seq<Read>) {
    forall k :: 0 <= k < |steps| ==> |steps[k].data| <= BufSize
  }

  /** The bytes of the first k steps. */
  function Prefix(steps: seq<Read>, k: nat): (r: seq<byte>)
    requires k <= |steps|
    decreases k
  {
    if k == 0 then [] else Prefix(steps, k - 1) + steps[k - 1].data
  }

  /** The read at which the loop starting at read k leaves: the first read
      that returns no bytes (a clean stop, whatever error comes with it), that
      returns bytes together with an error, or whose buffer cannot be
      written; or the end of the steps. */
  function Stop(steps: seq<Read>, writeFails: set<nat>, k: nat): (r: nat)
    requires k <= |steps|
    ensures k <= r <= |steps|
    ensures forall j :: k <= j < r ==> steps[j].data != [] && steps[j].err.None? && j !in writeFails
    ensures r < |steps| ==> steps[r].data == [] || steps[r].err.Some? || r in writeFails
    decreases |steps| - k
  {
    if k == |steps| || steps[k].data == [] || steps[k].err.Some? || k in writeFails then k
    else Stop(steps, writeFails, k + 1)
  }

  /** What the read loop has done when it leaves: the input bytes it took
      and the error it returns, if any. */
  datatype Ended = Ended(consumed: seq<byte>, error: Option<Error>)

  function LoopEnd(steps: seq<Read>, writeFails: set<nat>): Ended {
    var k := Stop(steps, writeFails, 0);
    Ended(Prefix(steps, k),
          if k == |steps| || steps[k].data == [] then None
          else if steps[k].err.Some? then steps[k].err
          else Some(WriteFault))
  }

  /** The CTR transform of s placed at stream position pos. */
  function XorAt(prims: Primitives, key: seq<byte>, iv: seq<byte>, s: seq<byte>, pos: nat): (r: seq<byte>)
    ensures |r| == |s|
  {
    seq(|s|, i requires 0 <= i < |s| => s[i] ^ prims.keystream(key, iv, pos + i))
  }

  /** The keystream position runs on across buffers: transforming two
      pieces, the second at the position the first ends, is transforming
      their concatenation. */
  lemma XorSplit(prims: Primitives, key: seq<byte>, iv: seq<byte>, a: seq<byte>, b: seq<byte>, pos: nat)
    ensures XorAt(prims, key, iv, a + b, pos) == XorAt(prims, key, iv, a, pos) + XorAt(prims, key, iv, b, pos + |a|)
  {
    var whole, left, right := XorAt(prims, key, iv, a + b, pos), XorAt(prims, key, iv, a, pos), XorAt(prims, key, iv, b, pos + |a|);
    forall i | 0 <= i < |a| + |b| ensures whole[i] == (left + right)[i] {
      if i >= |a| {
        assert pos + |a| + (i - |a|) == pos + i;
      }
    }
  }

  /** The same keystream undoes itself. */
  lemma XorTwice(prims: Primitives, key: seq<byte>, iv: seq<byte>, s: seq<byte>, pos: nat)
    ensures XorAt(prims, key, iv, XorAt(prims, key, iv, s, pos), pos) == s
  {
    var t := XorAt(prims, key, iv, XorAt(prims, key, iv, s, pos), pos);
    forall i | 0 <= i < |s| ensures t[i] == s[i] {
      var k := prims.keystream(key, iv, pos + i);
      assert t[i] == (s[i] ^ k) ^ k;
    }
  }

  /** Where the loop leaves, read off at the read it leaves on. */
  lemma LoopEndAt(steps: seq<Read>, writeFails: set<nat>, k: nat)
    requires k <= |steps| && Stop(steps, writeFails, 0) == Stop(steps, writeFails, k)
    requires k == |steps| || steps[k].data == [] || steps[k].err.Some? || k in writeFails
    ensures LoopEnd(steps, writeFails) ==
              Ended(Prefix(steps, k),
                    if k == |steps| || steps[k].data == [] then None
                    else if steps[k].err.Some? then steps[k].err
                    else Some(WriteFault))
  {
    assert Stop(steps, writeFails, k) == k;
  }

  /** Appending the transform of one more buffer to the output file. */
  lemma WriteStep(prims: Primitives, key: seq<byte>, iv: seq<byte>, files: map<string, DiskFile>, p: string,
                  now: int, taken: seq<byte>, buf: seq<byte>)
    ensures files[p := DiskFile(XorAt(prims, key, iv, taken, 0), now)]
                 [p := DiskFile(XorAt(prims, key, iv, taken, 0) + XorAt(prims, key, iv, buf, |taken|), now)]
            == files[p := DiskFile(XorAt(prims, key, iv, taken + buf, 0), now)]
  {
    XorSplit(prims, key, iv, taken, buf, 0);
    OverwriteTwice(files, p, DiskFile(XorAt(prims, key, iv, taken, 0), now),
                   DiskFile(XorAt(prims, key, iv, taken + buf, 0), now));
  }

  /** What a call writes and returns: the output bytes and the digest. */
  datatype Transfer = Transfer(written: seq<byte>, digest: Result<seq<byte>>)

  function Returned(e: Ended, hashed: seq<byte>, prims: Primitives): Result<seq<byte>> {
    if e.error.None? then Result<seq<byte>>.Ok(prims.md5(hashed)) else Err(e.error.value)
  }

  /** Encrypt's loop: the output holds the transformed input taken; the
      digest covers that input, i.e. the plaintext. */
  function EncryptRun(prims: Primitives, key: seq<byte>, iv: seq<byte>, steps: seq<Read>, writeFails: set<nat>): Transfer {
    var e := LoopEnd(steps, writeFails);
    Transfer(XorAt(prims, key, iv, e.consumed, 0), Returned(e, e.consumed, prims))
  }

  /** Decrypt's loop: the output holds the transformed input taken; the
      digest covers the output, i.e. the plaintext. */
  function DecryptRun(prims: Primitives, key: seq<byte>, iv: seq<byte>, steps: seq<Read>, writeFails: set<nat>): Transfer {
    var e := LoopEnd(steps, writeFails);
    var plain := XorAt(prims, key, iv, e.consumed, 0);
    Transfer(plain, Returned(e, plain, prims))
  }

  /** What a regular file's steps return: full 16 KiB buffers, a shorter last
      one, then no bytes with io.EOF. */
  function FileReads(content: seq<byte>): (r: seq<Read>)
    ensures |r| == ChunkCount(|content|, BufSize) + 1
  {
    PlanSlicesConcatenate(content, BufSize, 0);
    PlanShape(|content|, BufSize, 0);
    var slices := Slices(content, Plan(|content|, BufSize, 0));
    seq(|slices|, i requires 0 <= i < |slices| => Read(slices[i], None)) + [Read([], Some(Eof))]
  }

  /** What successive reads of p deliver: a regular file's bytes in 16 KiB
      buffers, and for a directory no bytes with EISDIR. */
  function FileSteps(files: map<string, DiskFile>, p: string): (r: seq<Read>)
    ensures Buffered(r)
  {
    if p in files then FileReadsRun(files[p].content); FileReads(files[p].content)
    else [Read([], Some(IsDir(p)))]
  }

  lemma {:induction false} StopAt(steps: seq<Read>, writeFails: set<nat>, k: nat, n: nat)
    requires k <= n < |steps| && steps[n].data == []
    requires forall j :: k <= j < n ==> steps[j].data != [] && steps[j].err.None? && j !in writeFails
    ensures Stop(steps, writeFails, k) == n
    decreases n - k
  {
    if k < n {
      StopAt(steps, writeFails, k + 1, n);
    }
  }

  lemma {:induction false} PrefixIsFlatten(steps: seq<Read>, parts: seq<seq<byte>>, k: nat)
    requires k <= |parts| <= |steps|
    requires forall j :: 0 <= j < |parts| ==> steps[j].data == parts[j]
    ensures Prefix(steps, k) == Flatten(parts[..k])
    decreases k
  {
    if k > 0 {
      PrefixIsFlatten(steps, parts, k - 1);
      assert parts[..k][..k - 1] == parts[..k - 1];
    }
  }

  /** The piece of a plan's slice: between 1 and c bytes. */
  lemma SliceSize(content: seq<byte>, c: int, k: nat)
    requires c > 0 && k < |Plan(|content|, c, 0)|
    ensures WithinObject(Plan(|content|, c, 0), |content|)
    ensures 1 <= |Slices(content, Plan(|content|, c, 0))[k]| <= c
  {
    PlanSlicesConcatenate(content, c, 0);
    PlanFromAt(0, |content|, c, 0, k);
    SlicesAt(content, Plan(|content|, c, 0), k);
  }

  /** Reading a whole regular file without faults takes exactly its bytes
      and ends cleanly, in buffers that fit. */
  lemma FileReadsRun(content: seq<byte>)
    ensures Buffered(FileReads(content))
    ensures LoopEnd(FileReads(content), {}) == Ended(content, None)
  {
    var steps := FileReads(content);
    var plan := Plan(|content|, BufSize, 0);
    PlanSlicesConcatenate(content, BufSize, 0);
    var slices := Slices(content, plan);
    var n := |slices|;
    forall j | 0 <= j < n ensures 1 <= |steps[j].data| <= BufSize {
      SliceSize(content, BufSize, j);
    }
    StopAt(steps, {}, 0, n);
    PrefixIsFlatten(steps, slices, n);
    assert slices[..n] == slices;
  }

  /** Decrypting what Encrypt wrote, with the same key and IV, gives back
      the plaintext, and both calls return the plaintext's MD5. */
  lemma EncryptDecryptRoundTrip(prims: Primitives, key: seq<byte>, iv: seq<byte>, plain: seq<byte>)
    ensures EncryptRun(prims, key, iv, FileReads(plain), {}).digest == Result<seq<byte>>.Ok(prims.md5(plain))
    ensures var crypted := EncryptRun(prims, key, iv, FileReads(plain), {}).written;
            && |crypted| == |plain|
            && DecryptRun(prims, key, iv, FileReads(crypted), {}) == Transfer(plain, Result<seq<byte>>.Ok(prims.md5(plain)))
  {
    FileReadsRun(plain);
    var crypted := XorAt(prims, key, iv, plain, 0);
    FileReadsRun(crypted);
    XorTwice(prims, key, iv, plain, 0);
  }

  /** A read that returns no bytes ends the loop as a success even when it
      carries an error other than io.EOF; a read that returns bytes with an
      error ends it with that error, and none of its bytes are taken. */
  lemma ReadErrorRule(steps: seq<Read>, writeFails: set<nat>, k: nat)
    requires k < |steps|
    requires forall j :: 0 <= j < k ==> steps[j].data != [] && steps[j].err.None? && j !in writeFails
    ensures steps[k].data == [] ==> LoopEnd(steps, writeFails) == Ended(Prefix(steps, k), None)
    ensures steps[k].data != [] && steps[k].err.Some? ==> LoopEnd(steps, writeFails) == Ended(Prefix(steps, k), steps[k].err)
  {
    if steps[k].data == [] {
      StopAt(steps, writeFails, 0, k);
    } else if steps[k].err.Some? {
      StopBefore(steps, writeFails, 0, k);
    }
  }

  lemma {:induction false} StopBefore(steps: seq<Read>, writeFails: set<nat>, k: nat, n: nat)
    requires k <= n < |steps| && (steps[n].data == [] || steps[n].err.Some? || n in writeFails)
    requires forall j :: k <= j < n ==> steps[j].data != [] && steps[j].err.None? && j !in writeFails
    ensures Stop(steps, writeFails, k) == n
    decreases n - k
  {
    if k < n {
      StopBefore(steps, writeFails, k + 1, n);
    }
  }

  /** The create/cipher prologue both calls share once the input is open:
      os.Create of the output, aes.NewCipher of the key, and cipher.NewCTR,
      which panics on an IV that is not one block long. */
  predicate Creatable(fs: FileSystem, p: string)
    reads fs
  {
    p !in fs.statFaults && p !in fs.dirs
  }

  /** Encrypt's read/XOR/write loop on an output file just created. */
  method EncryptLoop(prims: Primitives, fs: FileSystem, cryptedFile: string, key: seq<byte>, iv: seq<byte>,
                     steps: seq<Read>, writeFails: set<nat>) returns (r: Result<seq<byte>>)
    modifies fs
    requires Buffered(steps)
    requires Creatable(fs, cryptedFile) && cryptedFile in fs.files && fs.files[cryptedFile] == DiskFile([], fs.now)
    ensures fs.dirs == old(fs.dirs)
    ensures r == EncryptRun(prims, key, iv, steps, writeFails).digest
    ensures fs.files == old(fs.files)[cryptedFile := DiskFile(EncryptRun(prims, key, iv, steps, writeFails).written, fs.now)]
  {
    ghost var stop := Stop(steps, writeFails, 0);
    var k := 0;
    var hashed: seq<byte> := [];
    assert fs.files == old(fs.files)[cryptedFile := DiskFile([], fs.now)];
    while k < |steps| && steps[k].data != []
      invariant 0 <= k <= |steps|
      invariant stop == Stop(steps, writeFails, k)
      invariant hashed == Prefix(steps, k)
      invariant fs.dirs == old(fs.dirs)
      invariant fs.files == old(fs.files)[cryptedFile := DiskFile(XorAt(prims, key, iv, hashed, 0), fs.now)]
      decreases |steps| - k
    {
      var buf := steps[k].data;
      if steps[k].err.Some? {
        LoopEndAt(steps, writeFails, k);
        return Err(steps[k].err.value);
      }
      var pos := |hashed|;
      ghost var before := hashed;
      hashed := hashed + buf;
      if k in writeFails {
        LoopEndAt(steps, writeFails, k);
        return Err(WriteFault);
      }
      var sofar := fs.files[cryptedFile].content;
      var _ := fs.WriteFile(cryptedFile, sofar + XorAt(prims, key, iv, buf, pos));
      WriteStep(prims, key, iv, old(fs.files), cryptedFile, fs.now, before, buf);
      k := k + 1;
    }
    LoopEndAt(steps, writeFails, k);
    return Result<seq<byte>>.Ok(prims.md5(hashed));
  }

  /** Decrypt's loop: cipher.StreamReader XORs each buffer as it is read;
      the digest and the output both take the decrypted bytes. */
  method DecryptLoop(prims: Primitives, fs: FileSystem, plainFile: string, key: seq<byte>, iv: seq<byte>,
                     steps: seq<Read>, writeFails: set<nat>) returns (r: Result<seq<byte>>)
    modifies fs
    requires Buffered(steps)
    requires Creatable(fs, plainFile) && plainFile in fs.files && fs.files[plainFile] == DiskFile([], fs.now)
    ensures fs.dirs == old(fs.dirs)
    ensures r == DecryptRun(prims, key, iv, steps, writeFails).digest
    ensures fs.files == old(fs.files)[plainFile := DiskFile(DecryptRun(prims, key, iv, steps, writeFails).written, fs.now)]
  {
    ghost var stop := Stop(steps, writeFails, 0);
    var k := 0;
    ghost var taken: seq<byte> := [];
    var hashed: seq<byte> := [];
    assert fs.files == old(fs.files)[plainFile := DiskFile([], fs.now)];
    while k < |steps| && steps[k].data != []
      invariant 0 <= k <= |steps|
      invariant stop == Stop(steps, writeFails, k)
      invariant taken == Prefix(steps, k)
      invariant hashed == XorAt(prims, key, iv, taken, 0)
      invariant fs.dirs == old(fs.dirs)
      invariant fs.files == old(fs.files)[plainFile := DiskFile(hashed, fs.now)]
      decreases |steps| - k
    {
      if steps[k].err.Some? {
        LoopEndAt(steps, writeFails, k);
        return Err(steps[k].err.value);
      }
      var buf := XorAt(prims, key, iv, steps[k].data, |hashed|);
      ghost var before := taken;
      XorSplit(prims, key, iv, taken, steps[k].data, 0);
      taken := taken + steps[k].data;
      hashed := hashed + buf;
      if k in writeFails {
        LoopEndAt(steps, writeFails, k);
        return Err(WriteFault);
      }
      var sofar := fs.files[plainFile].content;
      var _ := fs.WriteFile(plainFile, sofar + buf);
      WriteStep(prims, key, iv, old(fs.files), plainFile, fs.now, before, steps[k].data);
      k := k + 1;
    }
    LoopEndAt(steps, writeFails, k);
    return Result<seq<byte>>.Ok(prims.md5(hashed));
  }

  /** What Encrypt returns: the first failing step of the prologue, or the
      loop's digest. */
  function EncryptResult(prims: Primitives, fs: FileSystem, plainFile: string, cryptedFile: string,
                         key: seq<byte>, iv: seq<byte>, steps: seq<Read>, writeFails: set<nat>): Result<seq<byte>>
    reads fs
  {
    if fs.Open(plainFile).Fail? then Err(fs.Open(plainFile).error)
    else if !Creatable(fs, cryptedFile) then Err(if cryptedFile in fs.statFaults then PathFault(cryptedFile) else IsDir(cryptedFile))
    else if !ValidKey(key) then Err(KeySize(|key|))
    else if |iv| != BlockSize then Err(Panic("cipher.NewCTR"))
    else EncryptRun(prims, key, iv, steps, writeFails).digest
  }

  /** What Decrypt returns, likewise. */
  function DecryptResult(prims: Primitives, fs: FileSystem, cryptedFile: string, plainFile: string,
                         key: seq<byte>, iv: seq<byte>, steps: seq<Read>, writeFails: set<nat>): Result<seq<byte>>
    reads fs
  {
    if fs.Open(cryptedFile).Fail? then Err(fs.Open(cryptedFile).error)
    else DecryptInto(prims, fs.statFaults, fs.dirs, plainFile, key, iv, steps, writeFails)
  }

  /** What Decrypt returns once its input is open: only the faults and the
      directories decide whether the output can be created. */
  function DecryptInto(prims: Primitives, statFaults: set<string>, dirs: set<string>, plainFile: string,
                       key: seq<byte>, iv: seq<byte>, steps: seq<Read>, writeFails: set<nat>): Result<seq<byte>>
  {
    if plainFile in statFaults || plainFile in dirs then Err(if plainFile in statFaults then PathFault(plainFile) else IsDir(plainFile))
    else if !ValidKey(key) then Err(KeySize(|key|))
    else if |iv| != BlockSize then Err(Panic("cipher.NewCTR"))
    else DecryptRun(prims, key, iv, steps, writeFails).digest
  }

  /** Reads that return an error only together with no bytes. */
  predicate CleanReads(steps: seq<Read>) {
    forall k :: 0 <= k < |steps| && steps[k].data != [] ==> steps[k].err.None?
  }

  /** A file's reads are clean, and so are a directory's. */
  lemma FileStepsClean(files: map<string, DiskFile>, p: string)
    ensures CleanReads(FileSteps(files, p))
  {
  }

  /** On clean reads the loop fails only on a write. */
  lemma CleanLoopEnd(steps: seq<Read>, writeFails: set<nat>)
    requires CleanReads(steps)
    ensures LoopEnd(steps, writeFails).error == None || LoopEnd(steps, writeFails).error == Some(WriteFault)
  {
  }

  /** The errors a decryption of clean reads can return: the output cannot
      be created, the key or the IV is refused, or a write fails. */
  lemma DecryptIntoErrors(prims: Primitives, statFaults: set<string>, dirs: set<string>, plainFile: string,
                          key: seq<byte>, iv: seq<byte>, steps: seq<Read>, writeFails: set<nat>)
    requires CleanReads(steps)
    ensures var d := DecryptInto(prims, statFaults, dirs, plainFile, key, iv, steps, writeFails);
            d.Err? ==> d.error in {PathFault(plainFile), IsDir(plainFile), KeySize(|key|), Panic("cipher.NewCTR"), WriteFault}
  {
    CleanLoopEnd(steps, writeFails);
  }

  /** A successful Decrypt returns the MD5 of exactly the bytes it wrote. */
  lemma DecryptDigestCoversOutput(prims: Primitives, key: seq<byte>, iv: seq<byte>, steps: seq<Read>, writeFails: set<nat>)
    ensures var run := DecryptRun(prims, key, iv, steps, writeFails);
            run.digest.Ok? ==> run.digest.value == prims.md5(run.written)
  {
  }

  /** Encrypt(plainFile, cryptedFile, key, iv). */
  method Encrypt(prims: Primitives, fs: FileSystem, plainFile: string, cryptedFile: string, key: seq<byte>, iv: seq<byte>,
                 steps: seq<Read>, writeFails: set<nat>) returns (r: Result<seq<byte>>)
    modifies fs
    requires Buffered(steps)
    ensures fs.dirs == old(fs.dirs)
    ensures r == old(EncryptResult(prims, fs, plainFile, cryptedFile, key, iv, steps, writeFails))
    ensures old(fs.Open(plainFile)).Fail? ==> r == Err(old(fs.Open(plainFile)).error) && fs.files == old(fs.files)
    ensures old(fs.Open(plainFile)).Pass? && !old(Creatable(fs, cryptedFile)) ==> r.Err? && fs.files == old(fs.files)
    ensures old(fs.Open(plainFile)).Pass? && old(Creatable(fs, cryptedFile)) ==>
              && (!ValidKey(key) ==> r == Err(KeySize(|key|)) && fs.files == old(fs.files)[cryptedFile := DiskFile([], fs.now)])
              && (ValidKey(key) && |iv| != BlockSize ==>
                    r == Err(Panic("cipher.NewCTR")) && fs.files == old(fs.files)[cryptedFile := DiskFile([], fs.now)])
              && (ValidKey(key) && |iv| == BlockSize ==>
                    var run := EncryptRun(prims, key, iv, steps, writeFails);
                    r == run.digest && fs.files == old(fs.files)[cryptedFile := DiskFile(run.written, fs.now)])
  {
    var inFile := fs.Open(plainFile);
    if inFile.Fail? {
      return Err(inFile.error);
    }
    var created := fs.WriteFile(cryptedFile, []);
    if created.Fail? {
      return Err(created.error);
    }
    if !ValidKey(key) {
      return Err(KeySize(|key|));
    }
    if |iv| != BlockSize {
      return Err(Panic("cipher.NewCTR"));
    }
    r := EncryptLoop(prims, fs, cryptedFile, key, iv, steps, writeFails);
    assert old(fs.files)[cryptedFile := DiskFile([], fs.now)][cryptedFile := DiskFile(EncryptRun(prims, key, iv, steps, writeFails).written, fs.now)]
        == old(fs.files)[cryptedFile := DiskFile(EncryptRun(prims, key, iv, steps, writeFails).written, fs.now)];
  }

  /** Decrypt(cryptedFile, plainFile, key, iv). */
  method Decrypt(prims: Primitives, fs: FileSystem, cryptedFile: string, plainFile: string, key: seq<byte>, iv: seq<byte>,
                 steps: seq<Read>, writeFails: set<nat>) returns (r: Result<seq<byte>>)
    modifies fs
    requires Buffered(steps)
    ensures fs.dirs == old(fs.dirs)
    ensures r == old(DecryptResult(prims, fs, cryptedFile, plainFile, key, iv, steps, writeFails))
    ensures old(fs.Open(cryptedFile)).Fail? ==> r == Err(old(fs.Open(cryptedFile)).error) && fs.files == old(fs.files)
    ensures old(fs.Open(cryptedFile)).Pass? && !old(Creatable(fs, plainFile)) ==> r.Err? && fs.files == old(fs.files)
    ensures old(fs.Open(cryptedFile)).Pass? && old(Creatable(fs, plainFile)) ==>
              && (!ValidKey(key) ==> r == Err(KeySize(|key|)) && fs.files == old(fs.files)[plainFile := DiskFile([], fs.now)])
              && (ValidKey(key) && |iv| != BlockSize ==>
                    r == Err(Panic("cipher.NewCTR")) && fs.files == old(fs.files)[plainFile := DiskFile([], fs.now)])
              && (ValidKey(key) && |iv| == BlockSize ==>
                    var run := DecryptRun(prims, key, iv, steps, writeFails);
                    r == run.digest && fs.files == old(fs.files)[plainFile := DiskFile(run.written, fs.now)])
  {
    var inFile := fs.Open(cryptedFile);
    if inFile.Fail? {
      return Err(inFile.error);
    }
    var created := fs.WriteFile(plainFile, []);
    if created.Fail? {
      return Err(created.error);
    }
    if !ValidKey(key) {
      return Err(KeySize(|key|));
    }
    if |iv| != BlockSize {
      return Err(Panic("cipher.NewCTR"));
    }
    r := DecryptLoop(prims, fs, plainFile, key, iv, steps, writeFails);
    assert old(fs.files)[plainFile := DiskFile([], fs.now)][plainFile := DiskFile(DecryptRun(prims, key, iv, steps, writeFails).written, fs.now)]
        == old(fs.files)[plainFile := DiskFile(DecryptRun(prims, key, iv, steps, writeFails).written, fs.now)];
  }
}
