/** How a byte size is cut into inclusive [start, end] ranges. Uploads and
    downloads both run the loop `for p := 0; p < size; p += C` and clamp the
    end to size - 1 only when p + C - 1 > size; upload ids count from 0,
    download ids from 1. `PlanFrom` is that loop's output, and the lemmas
    below state what it is: ceil(size / C) consecutive chunks, chunk k
    starting at k * C, C bytes apart, covering every byte once, with the
    last end equal to size (one past the last byte) exactly when size leaves
    the remainder C - 1. */
module Chunking {
  import opened Common

  datatype Chunk = Chunk(id: int, start: int, end: int)

  /** ceil(size / c), and 0 for an empty object. */
  function ChunkCount(size: int, c: int): nat
    requires c > 0
  {
    if size <= 0 then 0 else (size - 1) / c + 1
  }

  /** The end the loop gives the chunk starting at p. */
  function EndOf(p: int, size: int, c: int): int {
    var pe := p + c - 1;
    if pe > size then size - 1 else pe
  }

  /** The chunks appended by the planning loop from position p on, with ids
      counting up from id. */
  function PlanFrom(p: int, size: int, c: int, id: int): seq<Chunk>
    requires c > 0
    decreases size - p
  {
    if p >= size then [] else [Chunk(id, p, EndOf(p, size, c))] + PlanFrom(p + c, size, c, id + 1)
  }

  function Plan(size: int, c: int, first: int): seq<Chunk>
    requires c > 0
  {
    PlanFrom(0, size, c, first)
  }

  lemma MulMono(a: int, b: int, c: int)
    requires a <= b && c >= 0
    ensures a * c <= b * c
  {
  }

  /** Euclidean division is determined by quotient and remainder. */
  lemma DivModUnique(b: int, c: int, q: int, r: int)
    requires c > 0 && 0 <= r < c && b == q * c + r
    ensures b / c == q && b % c == r
  {
    var q', r' := b / c, b % c;
    assert b == q' * c + r';
    var d := q - q';
    assert d * c == r' - r by {
      assert q * c - q' * c == (q - q') * c;
    }
    if d >= 1 {
      MulMono(1, d, c);
    } else if d <= -1 {
      MulMono(1, -d, c);
    }
  }

  lemma DivStep(x: int, c: int)
    requires c > 0
    ensures (x + c) / c == x / c + 1
  {
    DivModUnique(x + c, c, x / c + 1, x % c);
  }

  /** The planning loop runs ceil((size - p) / c) times. */
  lemma {:induction false} PlanFromLength(p: int, size: int, c: int, id: int)
    requires c > 0
    ensures |PlanFrom(p, size, c, id)| == ChunkCount(size - p, c)
    decreases size - p
  {
    if p < size {
      PlanFromLength(p + c, size, c, id + 1);
      var s := size - p;
      if s <= c {
        DivModUnique(s - 1, c, 0, s - 1);
      } else {
        DivStep(s - c - 1, c);
      }
    }
  }

  /** Every chunk from p on starts at or after p and inside the object, and
      ends no earlier than it starts. */
  lemma {:induction false} PlanFromBounds(p: int, size: int, c: int, id: int)
    requires c > 0
    ensures forall k :: 0 <= k < |PlanFrom(p, size, c, id)| ==>
              p <= PlanFrom(p, size, c, id)[k].start <= PlanFrom(p, size, c, id)[k].end
              && PlanFrom(p, size, c, id)[k].start < size
    decreases size - p
  {
    if p < size {
      PlanFromBounds(p + c, size, c, id + 1);
      var plan, rest := PlanFrom(p, size, c, id), PlanFrom(p + c, size, c, id + 1);
      forall k | 0 <= k < |plan|
        ensures p <= plan[k].start <= plan[k].end && plan[k].start < size
      {
        if k > 0 {
          assert plan[k] == rest[k - 1];
        }
      }
    }
  }

  /** Chunk k of the plan from p: id id + k and start p + k * c. */
  lemma {:induction false} PlanFromAt(p: int, size: int, c: int, id: int, k: nat)
    requires c > 0
    requires k < |PlanFrom(p, size, c, id)|
    ensures PlanFrom(p, size, c, id)[k] == Chunk(id + k, p + k * c, EndOf(p + k * c, size, c))
    ensures p + k * c < size
    decreases k
  {
    if k > 0 {
      PlanFromAt(p + c, size, c, id + 1, k - 1);
      assert p + c + (k - 1) * c == p + k * c;
    }
  }

  /** The count is ceil(size / c) (none for an empty object), ids run first,
      first + 1, ..., and chunk k starts at k * c. */
  lemma PlanShape(size: int, c: int, first: int)
    requires c > 0
    ensures |Plan(size, c, first)| == ChunkCount(size, c)
    ensures size <= 0 ==> Plan(size, c, first) == []
    ensures forall k :: 0 <= k < |Plan(size, c, first)| ==>
              Plan(size, c, first)[k].id == first + k && Plan(size, c, first)[k].start == k * c
  {
    PlanFromLength(0, size, c, first);
    forall k | 0 <= k < |Plan(size, c, first)|
      ensures Plan(size, c, first)[k].id == first + k && Plan(size, c, first)[k].start == k * c
    {
      PlanFromAt(0, size, c, first, k);
    }
  }

  /** Every chunk before the last is exactly c bytes long and the next one
      starts right after it. */
  lemma PlanInterior(size: int, c: int, first: int, k: nat)
    requires c > 0
    requires k + 1 < |Plan(size, c, first)|
    ensures Plan(size, c, first)[k].end == Plan(size, c, first)[k].start + c - 1
    ensures Plan(size, c, first)[k + 1].start == Plan(size, c, first)[k].end + 1
  {
    PlanFromAt(0, size, c, first, k);
    PlanFromAt(0, size, c, first, k + 1);
    assert (k + 1) * c == k * c + c;
  }

  lemma {:induction false} PlanFromLast(p: int, size: int, c: int, id: int)
    requires c > 0
    requires |PlanFrom(p, size, c, id)| > 0
    ensures var plan := PlanFrom(p, size, c, id);
            var last := plan[|plan| - 1];
            && 1 <= size - last.start <= c
            && last.end == (if size - last.start == c - 1 then size else size - 1)
    decreases size - p
  {
    if p + c < size {
      PlanFromLast(p + c, size, c, id + 1);
    }
  }

  /** The last chunk holds 1 to c bytes. Its end is size - 1, except when it
      holds exactly c - 1 bytes: then `p + c - 1 > size` is false and the end
      is size, one past the object's last byte. */
  lemma PlanLast(size: int, c: int, first: int)
    requires c > 0 && size > 0
    ensures var plan := Plan(size, c, first);
            && |plan| > 0
            && var last := plan[|plan| - 1];
            && 1 <= size - last.start <= c
            && last.end == (if size - last.start == c - 1 then size else size - 1)
  {
    PlanFromLength(0, size, c, first);
    PlanFromLast(0, size, c, first);
  }

  /** The last chunk holds size % c bytes, or c bytes when c divides size. */
  lemma PlanLastRemainder(size: int, c: int, first: int)
    requires c > 0 && size > 0
    ensures var plan := Plan(size, c, first);
            && |plan| > 0
            && size - plan[|plan| - 1].start == (if size % c == 0 then c else size % c)
  {
    var plan := Plan(size, c, first);
    PlanLast(size, c, first);
    PlanShape(size, c, first);
    var n := |plan|;
    var t := size - plan[n - 1].start;
    assert size == (n - 1) * c + t;
    if t < c {
      DivModUnique(size, c, n - 1, t);
    } else {
      assert size == n * c + 0;
      DivModUnique(size, c, n, 0);
    }
  }

  /** With chunks of at least 2 bytes, the last planned end lies past the
      object exactly when the size leaves the remainder c - 1. */
  lemma PlanLastOverhang(size: int, c: int, first: int)
    requires c >= 2 && size > 0
    ensures var plan := Plan(size, c, first);
            |plan| > 0 && (plan[|plan| - 1].end == size <==> size % c == c - 1)
  {
    PlanLast(size, c, first);
    PlanLastRemainder(size, c, first);
  }

  lemma DivMono(a: int, b: int, c: int)
    requires c > 0 && a <= b
    ensures a / c <= b / c
  {
    var qa, qb := a / c, b / c;
    assert a == qa * c + a % c && b == qb * c + b % c;
    if qa > qb {
      MulMono(qb + 1, qa, c);
    }
  }

  /** Byte b lies in the chunk starting at k * c exactly when b / c == k. */
  lemma InChunk(b: int, size: int, c: int, k: int)
    requires c > 0 && 0 <= b < size
    ensures k * c <= b <= EndOf(k * c, size, c) <==> b / c == k
  {
    if k * c <= b <= EndOf(k * c, size, c) {
      DivModUnique(b, c, k, b - k * c);
    }
    if b / c == k {
      assert b == k * c + b % c;
    }
  }

  /** Every byte of the object lies in exactly one chunk: byte b in chunk b / c. */
  lemma PlanCovers(size: int, c: int, first: int, b: int, k: nat)
    requires c > 0 && 0 <= b < size
    requires k < |Plan(size, c, first)|
    ensures b / c < |Plan(size, c, first)|
    ensures Plan(size, c, first)[k].start <= b <= Plan(size, c, first)[k].end <==> k == b / c
  {
    PlanShape(size, c, first);
    PlanFromAt(0, size, c, first, k);
    DivMono(b, size - 1, c);
    InChunk(b, size, c, k);
  }

  /** All ranges lie within an n-byte object. */
  predicate WithinObject(plan: seq<Chunk>, n: int) {
    forall k :: 0 <= k < |plan| ==> 0 <= plan[k].start <= plan[k].end + 1 && plan[k].start <= n
  }

  /** The bytes of an object that the ranges of a plan select, a range that
      reaches past the end being cut at the end, as an HTTP byte range is. */
  function Slices(data: seq<byte>, plan: seq<Chunk>): (r: seq<seq<byte>>)
    requires WithinObject(plan, |data|)
    ensures |r| == |plan|
    decreases |plan|
  {
    if plan == [] then []
    else [data[plan[0].start .. Min(plan[0].end + 1, |data|)]] + Slices(data, plan[1..])
  }

  lemma SlicesCons(data: seq<byte>, plan: seq<Chunk>)
    requires WithinObject(plan, |data|) && plan != []
    ensures Slices(data, plan) == [data[plan[0].start .. Min(plan[0].end + 1, |data|)]] + Slices(data, plan[1..])
  {
  }

  /** Slice k is the range of chunk k, cut at the end of the object. */
  lemma {:induction false} SlicesAt(data: seq<byte>, plan: seq<Chunk>, k: nat)
    requires WithinObject(plan, |data|) && k < |plan|
    ensures Slices(data, plan)[k] == data[plan[k].start .. Min(plan[k].end + 1, |data|)]
    decreases k
  {
    if k > 0 {
      SlicesAt(data, plan[1..], k - 1);
    }
  }

  lemma {:induction false} PlanFromSlices(data: seq<byte>, p: int, c: int, id: int)
    requires c > 0 && 0 <= p <= |data|
    ensures WithinObject(PlanFrom(p, |data|, c, id), |data|)
    ensures Flatten(Slices(data, PlanFrom(p, |data|, c, id))) == data[p..]
    decreases |data| - p
  {
    PlanFromBounds(p, |data|, c, id);
    var plan := PlanFrom(p, |data|, c, id);
    if p < |data| {
      var rest := PlanFrom(p + c, |data|, c, id + 1);
      var end := Min(p + c, |data|);
      assert plan[0] == Chunk(id, p, EndOf(p, |data|, c)) && plan[1..] == rest;
      assert Min(plan[0].end + 1, |data|) == end;
      if p + c <= |data| {
        PlanFromSlices(data, p + c, c, id + 1);
      } else {
        assert rest == [] && end == |data|;
        assert Slices(data, rest) == [];
        assert data[end..] == [];
      }
      SlicesStep(data, plan, end);
    }
  }

  /** Flattening the slices of a plan: its first range, then the rest. */
  lemma SlicesStep(data: seq<byte>, plan: seq<Chunk>, end: int)
    requires WithinObject(plan, |data|) && plan != []
    requires end == Min(plan[0].end + 1, |data|) && 0 <= plan[0].start <= end <= |data|
    requires Flatten(Slices(data, plan[1..])) == data[end..]
    ensures Flatten(Slices(data, plan)) == data[plan[0].start..]
  {
    var p := plan[0].start;
    SlicesCons(data, plan);
    FlattenCons(data[p..end], Slices(data, plan[1..]));
    SliceSplit(data, p, end);
  }

  /** Concatenating the planned ranges in ascending order, each cut at the
      end of the object, gives back the whole object, whatever the clamp did
      to the last end. */
  lemma PlanSlicesConcatenate(data: seq<byte>, c: int, first: int)
    requires c > 0
    ensures WithinObject(Plan(|data|, c, first), |data|)
    ensures Flatten(Slices(data, Plan(|data|, c, first))) == data
  {
    PlanFromSlices(data, 0, c, first);
  }

  /** The last slice of a non-empty object runs to its end. */
  lemma LastSlice(data: seq<byte>, c: int)
    requires c > 0 && |data| > 0
    ensures var plan := Plan(|data|, c, 0);
            && WithinObject(plan, |data|) && |plan| > 0
            && 0 <= plan[|plan| - 1].start < |data|
            && Slices(data, plan)[|plan| - 1] == data[plan[|plan| - 1].start..]
  {
    var plan := Plan(|data|, c, 0);
    PlanSlicesConcatenate(data, c, 0);
    PlanLast(|data|, c, 0);
    SlicesAt(data, plan, |plan| - 1);
  }
}
