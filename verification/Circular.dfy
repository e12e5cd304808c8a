/** Bytes in a circular buffer: slices that wrap, and writes that wrap or even lap the buffer. */
module Circular {
  type byte = x: int | 0 <= x < 256

  /** The index `k` bytes after index `i`. */
  function Idx(i: nat, k: nat, size: nat): (r: nat)
    requires i < size && k <= size
    ensures r < size
  {
    if i + k < size then i + k else i + k - size
  }

  /** `n` bytes from index `start` on, around the end of the buffer if need be. */
  function Slice(buf: seq<byte>, start: nat, n: nat): (r: seq<byte>)
    requires start < |buf| && n <= |buf|
    ensures |r| == n
  {
    if start + n <= |buf| then buf[start..start + n] else buf[start..] + buf[..start + n - |buf|]
  }

  lemma SliceAt(buf: seq<byte>, start: nat, n: nat, k: nat)
    requires start < |buf| && k < n <= |buf|
    ensures Slice(buf, start, n)[k] == buf[Idx(start, k, |buf|)]
  {
  }

  /** A slice is what stands at its indices. */
  lemma SliceIs(buf: seq<byte>, start: nat, n: nat, s: seq<byte>)
    requires start < |buf| && n <= |buf| && |s| == n
    requires forall k | 0 <= k < n :: s[k] == buf[Idx(start, k, |buf|)]
    ensures Slice(buf, start, n) == s
  {
    forall k | 0 <= k < n
      ensures Slice(buf, start, n)[k] == s[k]
    {
      SliceAt(buf, start, n, k);
    }
  }

  lemma IdxSum(i: nat, a: nat, b: nat, size: nat)
    requires i < size && a + b <= size
    ensures Idx(Idx(i, a, size), b, size) == Idx(i, a + b, size)
  {
  }

  /** What stands at `k` of two adjacent slices. */
  lemma SplitAt(buf: seq<byte>, start: nat, a: nat, b: nat, k: nat)
    requires start < |buf| && a + b <= |buf| && k < a + b
    ensures (Slice(buf, start, a) + Slice(buf, Idx(start, a, |buf|), b))[k] == buf[Idx(start, k, |buf|)]
  {
    hide *;
    if k < a {
      SliceAt(buf, start, a, k);
    } else {
      SliceAt(buf, Idx(start, a, |buf|), b, k - a);
      IdxSum(start, a, k - a, |buf|);
    }
  }

  lemma SliceSplit(buf: seq<byte>, start: nat, a: nat, b: nat)
    requires start < |buf| && a + b <= |buf|
    ensures Slice(buf, start, a + b) == Slice(buf, start, a) + Slice(buf, Idx(start, a, |buf|), b)
  {
    hide *;
    var s := Slice(buf, start, a) + Slice(buf, Idx(start, a, |buf|), b);
    forall k | 0 <= k < a + b
      ensures s[k] == buf[Idx(start, k, |buf|)]
    {
      SplitAt(buf, start, a, b, k);
    }
    SliceIs(buf, start, a + b, s);
  }

  /** Writing byte after byte; more bytes than the buffer holds overwrite the earlier ones. */
  function Inserted(buf: seq<byte>, wr: nat, data: seq<byte>): (r: seq<byte>)
    requires wr < |buf|
    ensures |r| == |buf|
    decreases |data|
  {
    if data == [] then buf else Inserted(buf[wr := data[0]], Idx(wr, 1, |buf|), data[1..])
  }

  /** The write index after `n` bytes. */
  function Advanced(i: nat, n: nat, size: nat): (r: nat)
    requires i < size
    ensures r < size
    decreases n
  {
    if n == 0 then i else Advanced(Idx(i, 1, size), n - 1, size)
  }

  lemma {:induction false} InsertedConcat(buf: seq<byte>, wr: nat, s: seq<byte>, t: seq<byte>)
    requires wr < |buf|
    ensures Inserted(buf, wr, s + t) == Inserted(Inserted(buf, wr, s), Advanced(wr, |s|, |buf|), t)
    decreases |s|
  {
    if s == [] {
      assert s + t == t;
    } else {
      assert (s + t)[1..] == s[1..] + t;
      InsertedConcat(buf[wr := s[0]], Idx(wr, 1, |buf|), s[1..], t);
    }
  }

  /** Up to a whole buffer the write index advances as the code advances it. */
  lemma {:induction false} AdvancedIsIdx(i: nat, n: nat, size: nat)
    requires i < size && n <= size
    ensures Advanced(i, n, size) == Idx(i, n, size)
    decreases n
  {
    if n > 0 {
      AdvancedIsIdx(Idx(i, 1, size), n - 1, size);
    }
  }

  lemma {:induction false} AdvancedConcat(i: nat, a: nat, b: nat, size: nat)
    requires i < size
    ensures Advanced(i, a + b, size) == Advanced(Advanced(i, a, size), b, size)
    decreases a
  {
    if a > 0 {
      AdvancedConcat(Idx(i, 1, size), a - 1, b, size);
    }
  }

  /** The loop that takes the buffer size off an index until it fits computes the same index. */
  lemma {:induction false} AdvancedIsReduced(i: nat, n: nat, size: nat, r: nat, q: nat)
    requires i < size && r < size && i + n == r + q * size
    ensures Advanced(i, n, size) == r
    decreases q
  {
    if q == 0 {
      AdvancedIsIdx(i, n, size);
    } else {
      assert (q - 1) * size == q * size - size;
      assert (q - 1) * size >= 0;
      if n < size {
        AdvancedIsIdx(i, n, size);
        assert q == 1 by { if q > 1 { QuotientIsSmall(q - 1, size); } }
      } else {
        AdvancedConcat(i, size, n - size, size);
        AdvancedIsIdx(i, size, size);
        AdvancedIsReduced(i, n - size, size, r, q - 1);
      }
    }
  }

  lemma QuotientIsSmall(q: nat, size: nat)
    requires q > 0
    ensures q * size >= size
  {
  }

  /** A copy into a contiguous stretch is a bytewise write. */
  lemma {:induction false} ChunkInserted(buf: seq<byte>, wr: nat, data: seq<byte>)
    requires wr < |buf| && wr + |data| <= |buf|
    ensures Inserted(buf, wr, data) == buf[..wr] + data + buf[wr + |data|..]
    decreases |data|
  {
    if data == [] {
    } else if wr + 1 == |buf| {
      assert data[1..] == [];
    } else {
      ChunkInserted(buf[wr := data[0]], wr + 1, data[1..]);
    }
  }

  function LastOf(s: seq<byte>, n: nat): (r: seq<byte>)
    ensures |r| <= n
  {
    if |s| <= n then s else s[|s| - n..]
  }

  // ---------------------------------------------------------------- a queue in a circular buffer

  /** `count` bytes from index `rd` on. */
  datatype Queue = Queue(buf: seq<byte>, rd: nat, count: nat)

  predicate Proper(q: Queue) {
    q.rd < |q.buf| && q.count <= |q.buf|
  }

  function Holds(q: Queue): (r: seq<byte>)
    requires Proper(q)
    ensures |r| == q.count
  {
    Slice(q.buf, q.rd, q.count)
  }

  /** Where the next byte goes. */
  function End(q: Queue): (r: nat)
    requires Proper(q)
    ensures r < |q.buf|
  {
    Idx(q.rd, q.count, |q.buf|)
  }

  /** One byte more; a full queue loses its oldest byte. */
  function ForceByte(q: Queue, b: byte): (r: Queue)
    requires Proper(q)
    ensures Proper(r) && |r.buf| == |q.buf|
  {
    var buf := q.buf[End(q) := b];
    if q.count < |q.buf| then Queue(buf, q.rd, q.count + 1) else Queue(buf, Idx(q.rd, 1, |q.buf|), q.count)
  }

  function ForceAll(q: Queue, data: seq<byte>): (r: Queue)
    requires Proper(q)
    ensures Proper(r) && |r.buf| == |q.buf|
    decreases |data|
  {
    if data == [] then q else ForceAll(ForceByte(q, data[0]), data[1..])
  }

  lemma {:induction false} ForceByteHolds(q: Queue, b: byte)
    requires Proper(q)
    ensures Holds(ForceByte(q, b)) == LastOf(Holds(q) + [b], |q.buf|)
    ensures End(ForceByte(q, b)) == Idx(End(q), 1, |q.buf|)
  {
    hide *;
    var r, s := ForceByte(q, b), LastOf(Holds(q) + [b], |q.buf|);
    ForcedAt(q, b, 0);
    forall k | 0 <= k < r.count
      ensures s[k] == r.buf[Idx(r.rd, k, |r.buf|)]
    {
      ForcedAt(q, b, k);
    }
    ForcedIs(q, b);
    SliceIs(r.buf, r.rd, r.count, s);
  }

  /** What stands at `k` after a forced byte. */
  lemma ForcedAt(q: Queue, b: byte, k: nat)
    requires Proper(q) && (k == 0 || k < ForceByte(q, b).count)
    ensures var r, s := ForceByte(q, b), LastOf(Holds(q) + [b], |q.buf|);
            k < |s| == r.count <= |r.buf| && r.rd < |r.buf| && s[k] == r.buf[Idx(r.rd, k, |r.buf|)]
  {
    hide Slice;
    var j := if q.count < |q.buf| then k else k + 1;
    if j < q.count {
      SliceAt(q.buf, q.rd, q.count, j);
    }
  }

  lemma ForcedIs(q: Queue, b: byte)
    requires Proper(q)
    ensures var r := ForceByte(q, b);
            && r.rd < |r.buf| && r.count <= |r.buf| && Holds(r) == Slice(r.buf, r.rd, r.count)
            && End(r) == Idx(End(q), 1, |q.buf|)
  {
    hide Slice;
  }

  lemma LastOfLast(s: seq<byte>, t: seq<byte>, n: nat)
    ensures LastOf(LastOf(s, n) + t, n) == LastOf(s + t, n)
  {
  }

  lemma HeadOff(s: seq<byte>, t: seq<byte>)
    requires t != []
    ensures s + [t[0]] + t[1..] == s + t
  {
  }

  /** A forced write leaves the last `size` bytes of old contents and new data. */
  lemma {:induction false} ForceAllHolds(q: Queue, data: seq<byte>)
    requires Proper(q)
    ensures Holds(ForceAll(q, data)) == LastOf(Holds(q) + data, |q.buf|)
    decreases |data|
  {
    if data == [] {
      assert Holds(q) + data == Holds(q);
    } else {
      var r := ForceByte(q, data[0]);
      assert ForceAll(q, data) == ForceAll(r, data[1..]);
      hide *;
      ForceByteHolds(q, data[0]);
      ForceAllHolds(r, data[1..]);
      LastOfLast(Holds(q) + [data[0]], data[1..], |q.buf|);
      HeadOff(Holds(q), data);
    }
  }

  /** How many of the oldest bytes make room for `n` new ones. */
  function Excess(count: nat, n: nat, size: nat): (r: nat)
    requires count <= size
    ensures r <= n && count + n - r <= size
  {
    if count + n > size then count + n - size else 0
  }

  /** Moving the read index first and then writing is the same as making room byte by byte. */
  lemma {:induction false} ForceAllIs(q: Queue, data: seq<byte>)
    requires Proper(q)
    ensures var excess := Excess(q.count, |data|, |q.buf|);
            ForceAll(q, data) ==
            Queue(Inserted(q.buf, End(q), data), Advanced(q.rd, excess, |q.buf|), q.count + |data| - excess)
    decreases |data|
  {
    hide Holds, LastOf, Slice, Idx;
    if data != [] {
      var r := ForceByte(q, data[0]);
      ForcedIs(q, data[0]);
      ForceAllIs(r, data[1..]);
    }
  }
}
