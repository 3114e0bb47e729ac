/** Values shared by every part of the model: bytes, optional values, the
    errors the program distinguishes, and the cryptographic primitives, which
    the model leaves uninterpreted and receives as parameters. */
module Common {

  type byte = bv8

  /** An MD5 sum or an AES block: exactly 16 bytes. */
  type Block16 = s: seq<byte> | |s| == 16
    witness [0, 0, 0, 0, 0, 0, 0, 0, 0, 0, 0, 0, 0, 0, 0, 0]

  /** A SHA-256 sum: exactly 32 bytes. */
  type Bytes32 = s: seq<byte> | |s| == 32
    witness [0, 0, 0, 0, 0, 0, 0, 0, 0, 0, 0, 0, 0, 0, 0, 0,
             0, 0, 0, 0, 0, 0, 0, 0, 0, 0, 0, 0, 0, 0, 0, 0]

  datatype Option<T> = None | Some(value: T)

  /** The errors the program raises or passes on. Wrapping that only adds a
      stack trace (errors.WithStack, errors.Cause) does not change identity;
      wrapping that adds a chunk id or a position is `Tagged`. */
  datatype Error =
    | NotExist(path: string)           // no such file or directory
    | IsDir(path: string)              // a regular-file operation on a directory
    | NotDir(path: string)             // a directory operation on a regular file
    | DirNotEmpty(path: string)        // removing a directory that still has entries
    | Exists(path: string)             // mkdir of a path that is already there
    | PathFault(path: string)          // a stat error other than not-exist
    | UnexpectedEof                    // a read that produced less than required
    | Eof                              // a read at the end of a file that produced nothing
    | ShortBuffer                      // io.ReadAtLeast with a buffer below the minimum
    | Invalid                          // os.ErrInvalid: an operation on a file that never opened
    | InvalidParams                    // a request that fails the SDK's parameter validation
    | ReadFault                        // an error a read returned together with data
    | WriteFault                       // a failed write to an output file
    | RandomFault                      // crypto/rand could not fill the buffer
    | KeySize(length: int)             // aes.NewCipher: key length not 16, 24 or 32
    | Panic(reason: string)            // an unrecovered run-time panic
    | Hang                             // a retry loop that never ends
    | Remote(op: string)               // an error returned by the archive service or its SDK
    | JobNotComplete                   // ErrJobNotComplete
    | Md5Mismatch                      // ErrMD5Mismatch
    | ExtractMd5Differs                // extract's own digest-mismatch error
    | FileExists(path: string)         // extract refuses to overwrite a file
    | NoRows                           // sql.ErrNoRows
    | NullToString(column: string)     // database/sql: NULL scanned into a string
    | DuplicateKey(table: string, id: int)
    | StoreFault(stmt: string)         // a statement the catalog store refused
    | MissingParam(key: string)        // a required configuration key is absent
    | EmptyPassword
    | HeaderUnreadable                 // RubyDecrypt: the header read failed
    | HeaderShort                      // RubyDecrypt: the header read gave fewer than 16 bytes
    | Tagged(tag: int, cause: Error)   // an error annotated with a chunk id or position

  /** Errors that never come back to a caller in the source: a panic unwinds
      the whole process and a hang never returns. Loops that otherwise drop
      or step over errors still stop on these. */
  predicate Fatal(e: Error) {
    e.Panic? || e.Hang?
  }

  datatype Result<T> = Ok(value: T) | Err(error: Error)

  /** A Go `error` return: nil or an error. */
  datatype Outcome = Pass | Fail(error: Error)

  function Min(a: int, b: int): int {
    if a <= b then a else b
  }

  /** Concatenation of a sequence of byte strings. */
  function Flatten(parts: seq<seq<byte>>): (r: seq<byte>)
    decreases |parts|
  {
    if parts == [] then [] else Flatten(parts[..|parts| - 1]) + parts[|parts| - 1]
  }

  lemma {:induction false} FlattenAppend(parts: seq<seq<byte>>, more: seq<seq<byte>>)
    ensures Flatten(parts + more) == Flatten(parts) + Flatten(more)
    decreases |more|
  {
    if more == [] {
      assert parts + more == parts;
    } else {
      var front, last := more[..|more| - 1], more[|more| - 1];
      FrontLast(more);
      ConcatAssoc(parts, front, [last]);
      FlattenAppend(parts, front);
      FlattenSnoc(parts + front, last);
      FlattenSnoc(front, last);
    }
  }

  /** A non-empty sequence is its front followed by its last element. */
  lemma FrontLast<T>(s: seq<T>)
    requires |s| > 0
    ensures s[..|s| - 1] + [s[|s| - 1]] == s
  {
  }

  lemma ConcatAssoc<T>(a: seq<T>, b: seq<T>, c: seq<T>)
    ensures (a + b) + c == a + (b + c)
  {
  }

  lemma SliceSplit<T>(s: seq<T>, i: int, j: int)
    requires 0 <= i <= j <= |s|
    ensures s[i..j] + s[j..] == s[i..]
  {
  }

  lemma SliceJoin<T>(s: seq<T>, i: int, j: int)
    requires 0 <= i <= j <= |s|
    ensures s[..i] + s[i..j] == s[..j]
  {
  }

  lemma SlicePrefix<T>(a: seq<T>, b: seq<T>, lo: int, hi: int)
    requires 0 <= lo <= hi <= |a|
    ensures (a + b)[lo..hi] == a[lo..hi]
  {
  }

  lemma SliceSuffix<T>(a: seq<T>, b: seq<T>)
    ensures (a + b)[|a|..|a| + |b|] == b
  {
  }

  lemma FlattenSnoc(parts: seq<seq<byte>>, last: seq<byte>)
    ensures Flatten(parts + [last]) == Flatten(parts) + last
  {
    assert (parts + [last])[..|parts|] == parts;
  }

  lemma FlattenCons(head: seq<byte>, tail: seq<seq<byte>>)
    ensures Flatten([head] + tail) == head + Flatten(tail)
  {
    FlattenAppend([head], tail);
    assert Flatten([head]) == Flatten([]) + head;
  }

  /** The cryptographic and encoding primitives the program calls into.
      The model states no property of them beyond their output lengths. */
  datatype Primitives = Primitives(
    md5: seq<byte> -> Block16,
    sha256: seq<byte> -> Bytes32,
    // glacier.ComputeTreeHash over a list of SHA-256 sums
    treeHash: seq<seq<byte>> -> seq<byte>,
    // the AES-CTR keystream byte at stream position i for (key, iv)
    keystream: (seq<byte>, seq<byte>, nat) -> byte,
    // one AES block decryption and encryption under a key
    aesDecrypt: (seq<byte>, Block16) -> Block16,
    aesEncrypt: (seq<byte>, Block16) -> Block16,
    // the bytes of a Go string
    utf8: string -> seq<byte>)

  /** fmt's %x: two lower-case hex digits per byte. */
  function HexDigit(d: bv8): char
    requires d < 16
  {
    if d < 10 then '0' + (d as int) as char else 'a' + (d as int - 10) as char
  }

  function Hex(b: seq<byte>): (s: string)
    ensures |s| == 2 * |b|
  {
    if b == [] then [] else [HexDigit(b[0] >> 4), HexDigit(b[0] & 15)] + Hex(b[1..])
  }

  lemma HexDigitInjective(x: bv8, y: bv8)
    requires x < 16 && y < 16
    ensures HexDigit(x) == HexDigit(y) ==> x == y
  {
  }

  lemma HexByteInjective(x: byte, y: byte)
    ensures HexDigit(x >> 4) == HexDigit(y >> 4) && HexDigit(x & 15) == HexDigit(y & 15) ==> x == y
  {
    HexDigitInjective(x >> 4, y >> 4);
    HexDigitInjective(x & 15, y & 15);
  }

  /** Equal hex renderings mean equal bytes: comparing hex digests is
      comparing digests. */
  lemma {:induction false} HexInjective(a: seq<byte>, b: seq<byte>)
    requires Hex(a) == Hex(b)
    ensures a == b
  {
    if a != [] {
      assert Hex(a)[0] == Hex(b)[0] && Hex(a)[1] == Hex(b)[1];
      HexByteInjective(a[0], b[0]);
      assert Hex(a)[2..] == Hex(a[1..]) && Hex(b)[2..] == Hex(b[1..]);
      HexInjective(a[1..], b[1..]);
      assert a == [a[0]] + a[1..] && b == [b[0]] + b[1..];
    }
  }

  /** The distinct values of a sequence. */
  function Elems(s: seq<nat>): set<nat> {
    set x | x in s
  }

  /** The numbers below n. */
  function Below(n: nat): (r: set<nat>)
    ensures |r| == n
    ensures forall k: nat :: k in r <==> k < n
  {
    if n == 0 then {} else Below(n - 1) + {n - 1}
  }

  /** An order in which n work items are handled: each index below n once. */
  predicate IsOrder(order: seq<nat>, n: nat) {
    && |order| == n
    && (forall i :: 0 <= i < n ==> order[i] < n)
    && (forall i, j :: 0 <= i < j < n ==> order[i] != order[j])
  }

  lemma {:induction false} DistinctCard(s: seq<nat>)
    requires forall i, j :: 0 <= i < j < |s| ==> s[i] != s[j]
    ensures |Elems(s)| == |s|
    decreases |s|
  {
    if s != [] {
      var init := s[..|s| - 1];
      DistinctCard(init);
      assert Elems(s) == Elems(init) + {s[|s| - 1]};
      assert s[|s| - 1] !in Elems(init);
    }
  }

  lemma {:induction false} SubsetCard(a: set<nat>, b: set<nat>)
    requires a <= b
    ensures |a| <= |b|
    decreases |b|
  {
    if b != {} {
      var x :| x in b;
      SubsetCard(a - {x}, b - {x});
    }
  }

  /** Every index is handled at some step of an order. */
  lemma OrderCovers(order: seq<nat>, n: nat)
    requires IsOrder(order, n)
    ensures forall k :: 0 <= k < n ==> k in order
  {
    DistinctCard(order);
    forall k | 0 <= k < n ensures k in order {
      if k !in order {
        SubsetCard(Elems(order), Below(n) - {k});
      }
    }
  }
}
