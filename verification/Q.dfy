/** Queues of fixed-size elements over the byte queue; no element is ever split by the buffer's end. */
module Queues {
  import opened Common
  import opened Words
  import opened Circular
  import opened ByteQs

  /** The whole elements of a byte sequence. */
  function Chunks(s: seq<byte>, size: nat): seq<seq<byte>>
    requires size > 0
  {
    if |s| < size then [] else [s[..size]] + Chunks(s[size..], size)
  }

  /** `x` is a whole number of elements. */
  predicate Aligned(x: nat, size: nat)
    requires size > 0
  {
    x == 0 || (x >= size && Aligned(x - size, size))
  }

  lemma {:induction false} AlignedIs(x: nat, size: nat) returns (n: nat)
    requires size > 0 && Aligned(x, size)
    ensures x == n * size && x / size == n
  {
    if x == 0 {
      n := 0;
    } else {
      var m := AlignedIs(x - size, size);
      n := m + 1;
      DivModUnique(x, size, n, 0);
    }
  }

  lemma {:induction false} MultipleIsAligned(n: nat, size: nat)
    requires size > 0
    ensures n * size >= 0 && Aligned(n * size, size) && (n * size) / size == n
    decreases n
  {
    if n > 0 {
      MultipleIsAligned(n - 1, size);
      assert n * size == (n - 1) * size + size;
    }
    DivModUnique(n * size, size, n, 0);
  }

  lemma {:induction false} AlignedSum(x: nat, y: nat, size: nat)
    requires size > 0 && Aligned(x, size) && Aligned(y, size)
    ensures Aligned(x + y, size)
    decreases x
  {
    if x > 0 {
      AlignedSum(x - size, y, size);
    }
  }

  lemma {:induction false} AlignedDifference(x: nat, y: nat, size: nat)
    requires size > 0 && Aligned(x, size) && Aligned(y, size) && y <= x
    ensures Aligned(x - y, size) && (y < x ==> y + size <= x)
    decreases y
  {
    if y > 0 {
      AlignedDifference(x - size, y - size, size);
    }
  }

  /** Aligned indices into an aligned buffer stay aligned around its end, and an element fits behind each. */
  lemma AlignedIdx(i: nat, k: nat, bufSz: nat, size: nat)
    requires size > 0 && i < bufSz && k <= bufSz && Aligned(i, size) && Aligned(k, size) && Aligned(bufSz, size)
    ensures Aligned(Idx(i, k, bufSz), size) && Idx(i, k, bufSz) + size <= bufSz
  {
    AlignedSum(i, k, size);
    if i + k >= bufSz {
      AlignedDifference(i + k, bufSz, size);
    }
    AlignedDifference(bufSz, Idx(i, k, bufSz), size);
  }

  lemma {:induction false} ChunksAre(s: seq<byte>, size: nat, n: nat)
    requires size > 0 && |s| == n * size
    ensures |Chunks(s, size)| == n
    ensures forall i: nat | i < n :: i * size + size <= |s| && Chunks(s, size)[i] == s[i * size..i * size + size]
    decreases n
  {
    if n > 0 {
      assert (n - 1) * size == n * size - size;
      ChunksAre(s[size..], size, n - 1);
      forall i: nat | i < n
        ensures i * size + size <= |s| && Chunks(s, size)[i] == s[i * size..i * size + size]
      {
        if i > 0 {
          assert (i - 1) * size == i * size - size;
          assert Chunks(s, size)[i] == Chunks(s[size..], size)[i - 1];
        }
      }
    }
  }

  lemma {:induction false} ChunksConcat(s: seq<byte>, t: seq<byte>, size: nat, n: nat)
    requires size > 0 && |s| == n * size
    ensures Chunks(s + t, size) == Chunks(s, size) + Chunks(t, size)
    decreases n
  {
    if n == 0 {
      assert s + t == t;
    } else {
      assert (n - 1) * size == n * size - size;
      assert (s + t)[size..] == s[size..] + t && (s + t)[..size] == s[..size];
      ChunksConcat(s[size..], t, size, n - 1);
    }
  }

  class Q {
    const mByteQ: ByteQ
    const sizeofT: uint32

    ghost predicate Valid()
      reads mByteQ, mByteQ.pfBuf
    {
      && mByteQ.Valid() && sizeofT > 0
      && Aligned(mByteQ.pfBuf.Length, sizeofT) && Aligned(mByteQ.nRdIdx, sizeofT) && Aligned(mByteQ.nCount, sizeofT)
    }

    /** The queue as its users see it. */
    ghost function Elements(): seq<seq<byte>>
      requires Valid()
      reads mByteQ, mByteQ.pfBuf
    {
      Chunks(mByteQ.Contents(), sizeofT)
    }

    lemma Parts()
      ensures Valid() <==> && mByteQ.Valid() && sizeofT > 0 && Aligned(mByteQ.pfBuf.Length, sizeofT)
                           && Aligned(mByteQ.nRdIdx, sizeofT) && Aligned(mByteQ.nCount, sizeofT)
      ensures Valid() ==> Elements() == Chunks(mByteQ.Contents(), sizeofT)
    {
      hide Aligned, Chunks, ByteQ.Contents, ByteQ.Valid;
    }

    constructor (q: ByteQ, sizeofT: uint32)
      requires q.Valid() && q.Contents() == [] && q.nRdIdx == 0 && sizeofT > 0 && Aligned(q.pfBuf.Length, sizeofT)
      ensures Valid() && Elements() == [] && mByteQ == q && this.sizeofT == sizeofT
    {
      mByteQ, this.sizeofT := q, sizeofT;
    }

    /** The k-th element stands in one piece at index `at` of the buffer. */
    ghost predicate StandsAt(k: int, at: nat)
      requires Valid()
      reads mByteQ, mByteQ.pfBuf
    {
      && at + sizeofT <= mByteQ.pfBuf.Length && 0 <= k < |Elements()|
      && mByteQ.pfBuf[at..at + sizeofT] == Elements()[k]
    }

    method GetReadReady() returns (n: int)
      requires Valid()
      ensures n == |Elements()| && mByteQ.nCount == n * sizeofT
    {
      n := mByteQ.nCount / sizeofT;
      ghost var k := AlignedIs(mByteQ.nCount, sizeofT);
      ChunksAre(mByteQ.Contents(), sizeofT, k);
    }

    /** All of the elements or none. */
    method Write(pBuf: seq<byte>) returns (bytes: int)
      requires Valid() && |pBuf| < 0x8000_0000 && Aligned(|pBuf|, sizeofT)
      modifies mByteQ`nWrIdx, mByteQ`nCount, mByteQ.pfBuf
      ensures Valid()
      ensures bytes == if |pBuf| <= mByteQ.pfBuf.Length - old(mByteQ.nCount) then |pBuf| else 0
      ensures Elements() == old(Elements()) + if bytes == 0 then [] else Chunks(pBuf, sizeofT)
    {
      hide ByteQ.Contents, Aligned, Chunks;
      ghost var before := mByteQ.Contents();
      ghost var k := AlignedIs(mByteQ.nCount, sizeofT);
      AlignedSum(mByteQ.nCount, |pBuf|, sizeofT);
      ChunksConcat(before, pBuf, sizeofT, k);
      bytes := mByteQ.Write(pBuf);
      assert pBuf[..|pBuf|] == pBuf && before + pBuf[..0] == before;
    }

    /** Removes and returns elements from the front. */
    method Read(pBytes: array<byte>, numT: nat) returns (n: int)
      requires Valid() && pBytes != mByteQ.pfBuf && numT * sizeofT <= pBytes.Length && numT * sizeofT < 0x1_0000_0000
      modifies mByteQ`nRdIdx, mByteQ`nCount, pBytes
      ensures Valid() && n == Min(numT, |old(Elements())|)
      ensures Elements() == old(Elements())[n..]
      ensures 0 <= n * sizeofT <= pBytes.Length && Chunks(pBytes[..n * sizeofT], sizeofT) == old(Elements())[..n]
    {
      hide *;
      Parts();
      mByteQ.Parts();
      ghost var before, rd, size := mByteQ.Contents(), mByteQ.nRdIdx, mByteQ.pfBuf.Length;
      var all := GetReadReady();
      ghost var few := Min(numT, all);
      MinProduct(numT, all, sizeofT);
      MultipleIsAligned(few, sizeofT);
      AlignedDifference(mByteQ.nCount, few * sizeofT, sizeofT);
      AlignedIdx(rd, few * sizeofT, size, sizeofT);
      assert before == before[..few * sizeofT] + before[few * sizeofT..];
      ChunksConcat(before[..few * sizeofT], before[few * sizeofT..], sizeofT, few);
      ChunksAre(before[..few * sizeofT], sizeofT, few);
      var bytes := mByteQ.Read(pBytes, numT * sizeofT);
      n := bytes / sizeofT;
      mByteQ.Parts();
      Parts();
      assert before[..few * sizeofT] == pBytes[..few * sizeofT];
    }

    /** The element at `idx` from the front, or at `-idx` from the back, as an index into the buffer. */
    method Get(idx: int) returns (r: Option<nat>)
      requires Valid()
      ensures r == None <==> !(-|Elements()| <= idx < |Elements()|)
      ensures r.Some? ==> StandsAt(if idx >= 0 then idx else |Elements()| + idx, r.value)
    {
      hide ByteQ.Contents, Chunks, Slice, Holds, StandsAt, Aligned;
      var numEntries := GetReadReady();
      r := None;
      if idx >= 0 {
        if idx < numEntries {
          Offset(idx, numEntries, sizeofT);
          Whereabouts(idx, idx * sizeofT, numEntries);
          var newIdx := mByteQ.nRdIdx + idx * sizeofT;
          newIdx := newIdx % mByteQ.pfBuf.Length;
          r := Some(newIdx);
        }
      } else {
        var aidx := -idx;
        if aidx <= numEntries {
          Offset(numEntries - aidx, numEntries, sizeofT);
          FromTheEnd(numEntries, aidx, sizeofT);
          Whereabouts(numEntries - aidx, (numEntries - aidx) * sizeofT, numEntries);
          var newIdx := mByteQ.nWrIdx - aidx * sizeofT;
          if newIdx < 0 {
            newIdx := newIdx + mByteQ.pfBuf.Length;
          }
          r := Some(newIdx);
        }
      }
    }

    /** Where the k-th element stands, `off` bytes from the front. */
    lemma Whereabouts(k: nat, off: nat, n: nat)
      requires Valid() && k < n == |Elements()| && mByteQ.nCount == n * sizeofT
      requires off == k * sizeofT && off + sizeofT <= mByteQ.nCount
      ensures var at := Idx(mByteQ.nRdIdx, off, mByteQ.pfBuf.Length);
              at == (mByteQ.nRdIdx + off) % mByteQ.pfBuf.Length && StandsAt(k, at)
    {
      hide Chunks, Holds, Slice;
      MultipleIsAligned(k, sizeofT);
      AlignedIdx(mByteQ.nRdIdx, off, mByteQ.pfBuf.Length, sizeofT);
      ModIsIdx(mByteQ.nRdIdx, off, mByteQ.pfBuf.Length);
      ChunksAre(mByteQ.Contents(), sizeofT, n);
      QueueShows(mByteQ.View(), off, sizeofT);
      var at := Idx(mByteQ.nRdIdx, off, mByteQ.pfBuf.Length);
      StraightSlice(mByteQ.pfBuf[..], at, sizeofT);
      assert mByteQ.pfBuf[at..at + sizeofT] == mByteQ.pfBuf[..][at..at + sizeofT];
    }
  }

  lemma MinProduct(a: nat, b: nat, c: nat)
    ensures 0 <= Min(a, b) * c <= a * c && Min(a, b) * c <= b * c && Min(b * c, a * c) == Min(a, b) * c
  {
    if a <= b {
      assert a * c <= b * c;
    } else {
      assert b * c <= a * c;
    }
  }

  lemma Offset(k: nat, n: nat, c: nat)
    requires k < n
    ensures 0 <= k * c && k * c + c <= n * c
  {
    assert (k + 1) * c <= n * c;
  }

  lemma FromTheEnd(n: nat, a: nat, c: nat)
    requires a <= n
    ensures (n - a) * c == n * c - a * c
  {
  }

  lemma ModIsIdx(i: nat, k: nat, size: nat)
    requires i < size && k <= size
    ensures (i + k) % size == Idx(i, k, size)
  {
    DivModUnique(i + k, size, if i + k < size then 0 else 1, Idx(i, k, size));
  }
}
