/** Decryption of files written by the companion Ruby tool: the OpenSSL
    "Salted__" envelope, AES-256-CBC under a key and IV derived from a
    password with the EVP_BytesToKey scheme (MD5, 2048 iterations). */
module RubyDec {
  import opened Common
  import opened Disk

  const KeyLen: nat := 32
  const IvLen: nat := 16
  const Count: nat := 2048
  const TotalLen: nat := KeyLen + IvLen

  /** MD5 applied n times in a row. */
  function Md5Iter(prims: Primitives, s: seq<byte>, n: nat): (r: seq<byte>)
    ensures n > 0 ==> |r| == 16
    ensures n == 0 ==> r == s
  {
    if n == 0 then s else prims.md5(Md5Iter(prims, s, n - 1))
  }

  /** Round k (from 1) of EVP_BytesToKey: D_1 = MD5^count(pass ‖ salt) and
      D_k = MD5^count(D_(k-1) ‖ pass ‖ salt). The first round alone is PBKDF1,
      section 5.1 of RFC 8018. */
  function Round(prims: Primitives, pass: seq<byte>, salt: seq<byte>, k: nat): (d: Block16)
    requires k >= 1
  {
    if k == 1 then Md5Iter(prims, pass + salt, Count)
    else Md5Iter(prims, Round(prims, pass, salt, k - 1) + pass + salt, Count)
  }

  /** The first k rounds, concatenated. */
  function Material(prims: Primitives, pass: seq<byte>, salt: seq<byte>, k: nat): (m: seq<byte>)
    ensures |m| == 16 * k
  {
    if k == 0 then [] else Material(prims, pass, salt, k - 1) + Round(prims, pass, salt, k)
  }

  /** The AES-256 key: the first 32 bytes of three rounds. */
  function Key(prims: Primitives, pass: seq<byte>, salt: seq<byte>): (key: seq<byte>)
    ensures |key| == KeyLen
  {
    Material(prims, pass, salt, 3)[..KeyLen]
  }

  /** The CBC IV: bytes 32 to 48 of three rounds. */
  function IV(prims: Primitives, pass: seq<byte>, salt: seq<byte>): (iv: Block16)
  {
    Material(prims, pass, salt, 3)[KeyLen..TotalLen]
  }

  /** Rounds accumulate until 48 bytes exist, which is three rounds: the key
      is the first two rounds and the IV the third. */
  lemma KeyIsTwoRounds(prims: Primitives, pass: seq<byte>, salt: seq<byte>)
    ensures Key(prims, pass, salt) == Round(prims, pass, salt, 1) + Round(prims, pass, salt, 2)
    ensures IV(prims, pass, salt) == Round(prims, pass, salt, 3)
  {
    var m2 := Material(prims, pass, salt, 2);
    assert Material(prims, pass, salt, 1) == Round(prims, pass, salt, 1);
    assert m2 == Round(prims, pass, salt, 1) + Round(prims, pass, salt, 2);
    assert Material(prims, pass, salt, 3) == m2 + Round(prims, pass, salt, 3);
  }

  /** GetKIV: the derivation loop, proved to produce the EVP_BytesToKey key
      and IV. */
  method GetKIV(prims: Primitives, pass: seq<byte>, salt: seq<byte>) returns (key: seq<byte>, iv: seq<byte>)
    ensures |key| == KeyLen && |iv| == IvLen
    ensures key == Key(prims, pass, salt) && iv == IV(prims, pass, salt)
  {
    var returnBuf: seq<byte> := [];
    var digestBuf: seq<byte> := [];
    ghost var rounds: nat := 0;
    while |returnBuf| < TotalLen
      invariant rounds <= 3
      invariant returnBuf == Material(prims, pass, salt, rounds)
      invariant digestBuf == if rounds == 0 then [] else Round(prims, pass, salt, rounds)
      decreases TotalLen - |returnBuf|
    {
      digestBuf := digestBuf + pass + salt;
      var s := digestBuf;
      var i := 0;
      while i < Count
        invariant 0 <= i <= Count
        invariant s == Md5Iter(prims, digestBuf, i)
      {
        s := prims.md5(s);
        i := i + 1;
      }
      assert rounds == 0 ==> digestBuf == pass + salt;
      rounds := rounds + 1;
      returnBuf := returnBuf + s;
      digestBuf := s;
    }
    key := returnBuf[0..KeyLen];
    iv := returnBuf[KeyLen..KeyLen + IvLen];
  }

  /** Byte-wise exclusive or of two blocks. */
  function Xor16(a: Block16, b: Block16): (r: Block16)
    ensures forall i :: 0 <= i < 16 ==> r[i] == a[i] ^ b[i]
  {
    seq(16, i requires 0 <= i < 16 => a[i] ^ b[i])
  }

  lemma XorTwice(a: Block16, b: Block16)
    ensures Xor16(Xor16(a, b), b) == a
  {
    assert forall i :: 0 <= i < 16 ==> a[i] ^ b[i] ^ b[i] == a[i];
  }

  /** The first n whole 16-byte blocks of s. */
  function Split16(s: seq<byte>, n: nat): (bs: seq<Block16>)
    requires 16 * n <= |s|
    ensures |bs| == n
    ensures forall i :: 0 <= i < n ==> bs[i] == s[16 * i..16 * i + 16]
  {
    seq(n, i requires 0 <= i < n => s[16 * i..16 * i + 16])
  }

  /** CBC decryption: P_i = D(C_i) xor C_(i-1), with C_(-1) = iv. */
  function CbcDecrypt(prims: Primitives, key: seq<byte>, iv: Block16, cs: seq<Block16>): (ps: seq<Block16>)
    ensures |ps| == |cs|
    decreases |cs|
  {
    if cs == [] then []
    else
      var n := |cs|;
      CbcDecrypt(prims, key, iv, cs[..n - 1])
        + [Xor16(prims.aesDecrypt(key, cs[n - 1]), if n == 1 then iv else cs[n - 2])]
  }

  /** CBC encryption: C_i = E(P_i xor C_(i-1)), with C_(-1) = iv. */
  function CbcEncrypt(prims: Primitives, key: seq<byte>, iv: Block16, ps: seq<Block16>): (cs: seq<Block16>)
    ensures |cs| == |ps|
    decreases |ps|
  {
    if ps == [] then []
    else
      var n := |ps|;
      var pre := CbcEncrypt(prims, key, iv, ps[..n - 1]);
      pre + [prims.aesEncrypt(key, Xor16(ps[n - 1], if n == 1 then iv else pre[n - 2]))]
  }

  /** Decrypting a prefix of the ciphertext gives the same prefix of the
      plaintext. */
  lemma {:induction false} CbcDecryptPrefix(prims: Primitives, key: seq<byte>, iv: Block16, cs: seq<Block16>, i: nat)
    requires i <= |cs|
    ensures CbcDecrypt(prims, key, iv, cs[..i]) == CbcDecrypt(prims, key, iv, cs)[..i]
    decreases |cs|
  {
    if i < |cs| {
      var n := |cs|;
      assert cs[..n - 1][..i] == cs[..i];
      CbcDecryptPrefix(prims, key, iv, cs[..n - 1], i);
    } else {
      assert cs[..i] == cs;
    }
  }

  /** AES decryption undoes AES encryption under the same key. */
  ghost predicate AesInverse(prims: Primitives) {
    forall k, b :: prims.aesDecrypt(k, prims.aesEncrypt(k, b)) == b
  }

  /** CBC decryption undoes CBC encryption under the same key and IV. */
  lemma {:induction false} CbcRoundTrip(prims: Primitives, key: seq<byte>, iv: Block16, ps: seq<Block16>)
    requires AesInverse(prims)
    ensures CbcDecrypt(prims, key, iv, CbcEncrypt(prims, key, iv, ps)) == ps
    decreases |ps|
  {
    if ps != [] {
      var n := |ps|;
      var pre := CbcEncrypt(prims, key, iv, ps[..n - 1]);
      var cs := CbcEncrypt(prims, key, iv, ps);
      var prev := if n == 1 then iv else pre[n - 2];
      var c := prims.aesEncrypt(key, Xor16(ps[n - 1], prev));
      assert cs == pre + [c];
      assert cs[..n - 1] == pre;
      assert CbcDecrypt(prims, key, iv, cs) == CbcDecrypt(prims, key, iv, pre) + [Xor16(prims.aesDecrypt(key, c), prev)];
      CbcRoundTrip(prims, key, iv, ps[..n - 1]);
      assert prims.aesDecrypt(key, c) == Xor16(ps[n - 1], prev);
      XorTwice(ps[n - 1], prev);
      FrontLast(ps);
    }
  }

  /** What one RubyDecrypt run reports and what it leaves in the output file. */
  datatype Decrypted = Decrypted(outcome: Outcome, written: seq<byte>)

  /** The last-block rule: the block is cut by the value of its final byte,
      with no check of that value; a value above 16 makes the slice panic. */
  function Unpad(last: Block16): (r: Result<seq<byte>>)
    ensures r.Ok? <==> last[15] as int <= 16
    ensures r.Ok? ==> |r.value| == 16 - last[15] as int && r.value == last[..|r.value|]
  {
    var pad := last[15] as int;
    if pad > 16 then Err(Panic("slice bounds out of range")) else Ok(last[..16 - pad])
  }

  /** What the block loop writes for the decrypted blocks ps: every block
      whole except the last, which goes through Unpad. */
  function Unpadded(ps: seq<Block16>): (d: Decrypted)
  {
    if ps == [] then Decrypted(Pass, [])
    else
      var n := |ps|;
      match Unpad(ps[n - 1])
      case Err(e) => Decrypted(Fail(e), Flatten(ps[..n - 1]))
      case Ok(tail) => Decrypted(Pass, Flatten(ps[..n - 1]) + tail)
  }

  /** The run on the bytes a read of the encrypted file yields: the header
      read must give 16 bytes, the salt is header bytes 8 to 16 (the
      "Salted__" magic is not checked), the block count is (size - 16) / 16
      and every block but the last is written whole. */
  function RubyRun(prims: Primitives, password: string, data: Result<seq<byte>>): (d: Decrypted)
    ensures data.Err? || data.value == [] ==> d == Decrypted(Fail(HeaderUnreadable), [])
    ensures data.Ok? && 0 < |data.value| < 16 ==> d == Decrypted(Fail(HeaderShort), [])
    ensures data.Ok? && 16 <= |data.value| < 32 ==> d == Decrypted(Pass, [])
    ensures d.outcome.Fail? && data.Ok? && |data.value| >= 16 ==> Fatal(d.outcome.error)
  {
    if data.Err? || data.value == [] then Decrypted(Fail(HeaderUnreadable), [])
    else if |data.value| < 16 then Decrypted(Fail(HeaderShort), [])
    else Unpadded(Plain(prims, password, data.value))
  }

  /** The whole decrypted blocks of an encrypted file of at least 16 bytes. */
  function Plain(prims: Primitives, password: string, data: seq<byte>): (ps: seq<Block16>)
    requires |data| >= 16
    ensures |ps| == (|data| - 16) / 16
  {
    var salt := data[8..16];
    var pass := prims.utf8(password);
    var body := data[16..];
    CbcDecrypt(prims, Key(prims, pass, salt), IV(prims, pass, salt), Split16(body, |body| / 16))
  }

  lemma {:induction false} FlattenBlocks(bs: seq<Block16>)
    ensures |Flatten(bs)| == 16 * |bs|
    decreases |bs|
  {
    if bs != [] {
      FlattenBlocks(bs[..|bs| - 1]);
    }
  }

  /** RubyDecrypt. The output file is created (truncated) before the header
      is read, so decrypting a file onto itself reads nothing. Everything
      written is flushed when the call ends, a panic included. */
  method RubyDecrypt(prims: Primitives, fs: FileSystem, password: string, cryptedFile: string, outFile: string)
    returns (o: Outcome)
    modifies fs
    ensures fs.dirs == old(fs.dirs)
    ensures old(fs.Open(cryptedFile)).Fail? ==> o == old(fs.Open(cryptedFile)) && fs.files == old(fs.files)
    ensures old(fs.Open(cryptedFile)).Pass? && (outFile in fs.statFaults || outFile in fs.dirs) ==>
      o.Fail? && fs.files == old(fs.files)
    ensures old(fs.Open(cryptedFile)).Pass? && outFile !in fs.statFaults && outFile !in fs.dirs ==>
      var data := if cryptedFile == outFile then Ok([]) else old(fs.ReadFile(cryptedFile));
      var run := RubyRun(prims, password, data);
      o == run.outcome && fs.files == old(fs.files)[outFile := DiskFile(run.written, fs.now)]
  {
    o := fs.Open(cryptedFile);
    if o.Fail? {
      return;
    }
    o := fs.WriteFile(outFile, []);
    if o.Fail? {
      return;
    }
    var data := fs.ReadFile(cryptedFile);
    var out: seq<byte>;
    o, out := DecryptBlocks(prims, password, data);
    o := Flush(fs, outFile, out, o);
    OverwriteTwice(old(fs.files), outFile, DiskFile([], fs.now), DiskFile(out, fs.now));
  }

  /** The deferred flush: the buffered output lands in the created file and
      the call's own outcome is kept. */
  method Flush(fs: FileSystem, outFile: string, out: seq<byte>, o0: Outcome) returns (o: Outcome)
    modifies fs
    requires outFile in fs.files && outFile !in fs.dirs && outFile !in fs.statFaults
    ensures o == o0 && fs.dirs == old(fs.dirs)
    ensures fs.files == old(fs.files)[outFile := DiskFile(out, fs.now)]
  {
    var ignored := fs.WriteFile(outFile, out);
    o := o0;
  }

  /** The header checks, the key derivation and the block loop over the
      bytes read. */
  method DecryptBlocks(prims: Primitives, password: string, data: Result<seq<byte>>) returns (o: Outcome, out: seq<byte>)
    ensures Decrypted(o, out) == RubyRun(prims, password, data)
  {
    if data.Err? || |data.value| == 0 {
      return Fail(HeaderUnreadable), [];
    }
    var bytes := data.value;
    if |bytes| < 16 {
      return Fail(HeaderShort), [];
    }
    var key, iv := GetKIV(prims, prims.utf8(password), bytes[8..16]);
    var numBlocks := (|bytes| - 16) / 16;
    var body := bytes[16..];
    o, out := CbcLoop(prims, key, iv, Split16(body, numBlocks));
  }

  /** The read-decrypt-write loop over the ciphertext blocks. */
  method CbcLoop(prims: Primitives, key: seq<byte>, iv: Block16, cs: seq<Block16>) returns (o: Outcome, out: seq<byte>)
    ensures Decrypted(o, out) == Unpadded(CbcDecrypt(prims, key, iv, cs))
  {
    var prev: Block16 := iv;
    out := [];
    var i := 0;
    while i < |cs|
      invariant 0 <= i <= |cs|
      invariant out == Flatten(CbcDecrypt(prims, key, iv, cs[..i]))
      invariant prev == if i == 0 then iv else cs[i - 1]
      invariant i < |cs| || cs == []
    {
      var p := Xor16(prims.aesDecrypt(key, cs[i]), prev);
      ghost var front := CbcDecrypt(prims, key, iv, cs[..i]);
      if i == |cs| - 1 {
        assert CbcDecrypt(prims, key, iv, cs) == front + [p];
        UnpaddedSnoc(front, p);
        match Unpad(p)
        case Err(e) =>
          return Fail(e), out;
        case Ok(tail) =>
          return Pass, out + tail;
      }
      CbcDecryptStep(prims, key, iv, cs, i);
      FlattenSnoc(front, p);
      out := out + p;
      prev := cs[i];
      i := i + 1;
    }
    o := Pass;
  }

  /** Decrypting one more ciphertext block appends one plaintext block. */
  lemma CbcDecryptStep(prims: Primitives, key: seq<byte>, iv: Block16, cs: seq<Block16>, i: nat)
    requires i < |cs|
    ensures CbcDecrypt(prims, key, iv, cs[..i + 1])
            == CbcDecrypt(prims, key, iv, cs[..i]) + [Xor16(prims.aesDecrypt(key, cs[i]), if i == 0 then iv else cs[i - 1])]
  {
    assert cs[..i + 1][..i] == cs[..i];
  }

  /** The last-block rule applied to blocks front followed by last. */
  lemma UnpaddedSnoc(front: seq<Block16>, last: Block16)
    ensures Unpad(last).Err? ==> Unpadded(front + [last]) == Decrypted(Fail(Unpad(last).error), Flatten(front))
    ensures Unpad(last).Ok? ==> Unpadded(front + [last]) == Decrypted(Pass, Flatten(front) + Unpad(last).value)
  {
    assert (front + [last])[..|front|] == front;
  }

  /** The envelope the Ruby side writes, as a reference: the magic
      "Salted__", the 8-byte salt, then AES-256-CBC over the plaintext with
      PKCS#7 padding (section 6.3 of RFC 5652). */
  const Magic: seq<byte> := [0x53, 0x61, 0x6c, 0x74, 0x65, 0x64, 0x5f, 0x5f]

  function Pad(plain: seq<byte>): (r: seq<byte>)
    ensures |r| % 16 == 0 && |plain| < |r| <= |plain| + 16
    ensures r[..|plain|] == plain
  {
    var p := 16 - |plain| % 16;
    plain + seq(p, _ => p as byte)
  }

  function RubyEncrypt(prims: Primitives, password: string, salt: seq<byte>, plain: seq<byte>): (data: seq<byte>)
    requires |salt| == 8
    ensures |data| == 16 + |Pad(plain)|
  {
    var pass := prims.utf8(password);
    var padded := Pad(plain);
    var cs := CbcEncrypt(prims, Key(prims, pass, salt), IV(prims, pass, salt), Split16(padded, |padded| / 16));
    FlattenBlocks(cs);
    Magic + salt + Flatten(cs)
  }

  lemma {:induction false} FlattenSplit(s: seq<byte>, n: nat, k: nat)
    requires 16 * n <= |s| && k <= n
    ensures Flatten(Split16(s, n)[..k]) == s[..16 * k]
    decreases k
  {
    if k > 0 {
      var xs := Split16(s, n);
      assert xs[..k][..k - 1] == xs[..k - 1];
      FlattenSplit(s, n, k - 1);
      assert s[..16 * k] == s[..16 * (k - 1)] + s[16 * (k - 1)..16 * k];
    }
  }

  lemma {:induction false} SplitFlatten(cs: seq<Block16>)
    ensures 16 * |cs| <= |Flatten(cs)|
    ensures Split16(Flatten(cs), |cs|) == cs
    decreases |cs|
  {
    FlattenBlocks(cs);
    if cs != [] {
      var n := |cs|;
      var init := cs[..n - 1];
      SplitFlatten(init);
      FlattenBlocks(init);
      var f, g := Flatten(cs), Flatten(init);
      assert f == g + cs[n - 1];
      forall i | 0 <= i < n
        ensures f[16 * i..16 * i + 16] == cs[i]
      {
        if i < n - 1 {
          SlicePrefix(g, cs[n - 1], 16 * i, 16 * i + 16);
          assert Split16(g, n - 1)[i] == init[i];
        } else {
          SliceSuffix(g, cs[n - 1]);
        }
      }
    }
  }

  /** The padding occupies the end of the last block, and its final byte
      is the padding length. */
  lemma PadTail(plain: seq<byte>)
    ensures var p := 16 - |plain| % 16;
      && |Pad(plain)| == |plain| + p
      && Pad(plain)[|Pad(plain)| - 1] == p as byte
  {
    var p := 16 - |plain| % 16;
    assert Pad(plain) == plain + seq(p, _ => p as byte);
  }

  /** A last block ending in the byte p, 1 <= p <= 16, loses its last p bytes. */
  lemma UnpadLast(last: Block16, p: nat)
    requires 1 <= p <= 16 && last[15] == p as byte
    ensures Unpad(last) == Ok(last[..16 - p])
  {
    assert last[15] as int == p;
  }

  /** Whole blocks whose final byte is p, 1 <= p <= 16, come out without
      their last p bytes. */
  lemma UnpaddedBlocks(s: seq<byte>, m: nat, p: nat)
    requires 16 * m == |s| && m >= 1 && 1 <= p <= 16 && s[|s| - 1] == p as byte
    ensures Unpadded(Split16(s, m)) == Decrypted(Pass, s[..|s| - p])
  {
    var ps := Split16(s, m);
    var last := ps[m - 1];
    assert last == s[|s| - 16..];
    UnpadLast(last, p);
    FlattenSplit(s, m, m - 1);
    assert last[..16 - p] == s[|s| - 16..|s| - p];
    SliceJoin(s, |s| - 16, |s| - p);
  }

  /** Cutting the last block by its final byte undoes the padding. */
  lemma UnpadPadded(plain: seq<byte>)
    ensures Unpadded(Split16(Pad(plain), |Pad(plain)| / 16)) == Decrypted(Pass, plain)
  {
    var p := 16 - |plain| % 16;
    PadTail(plain);
    UnpaddedBlocks(Pad(plain), |Pad(plain)| / 16, p);
  }

  /** The decryption side reads back the salt and the ciphertext blocks the
      encryption side wrote. */
  lemma EnvelopeBlocks(prims: Primitives, password: string, salt: seq<byte>, plain: seq<byte>)
    requires AesInverse(prims)
    requires |salt| == 8
    ensures Plain(prims, password, RubyEncrypt(prims, password, salt, plain)) == Split16(Pad(plain), |Pad(plain)| / 16)
  {
    var pass := prims.utf8(password);
    var key, iv := Key(prims, pass, salt), IV(prims, pass, salt);
    var padded := Pad(plain);
    var ps := Split16(padded, |padded| / 16);
    var cs := CbcEncrypt(prims, key, iv, ps);
    var data := RubyEncrypt(prims, password, salt, plain);
    assert data == Magic + salt + Flatten(cs);
    assert data[8..16] == salt;
    assert data[16..] == Flatten(cs);
    SplitFlatten(cs);
    CbcRoundTrip(prims, key, iv, ps);
  }

  /** RubyDecrypt recovers what the Ruby side encrypted, given that AES
      decryption inverts AES encryption. */
  lemma RubyRoundTrip(prims: Primitives, password: string, salt: seq<byte>, plain: seq<byte>)
    requires AesInverse(prims)
    requires |salt| == 8
    ensures RubyRun(prims, password, Ok(RubyEncrypt(prims, password, salt, plain))) == Decrypted(Pass, plain)
  {
    EnvelopeBlocks(prims, password, salt, plain);
    UnpadPadded(plain);
  }
}
