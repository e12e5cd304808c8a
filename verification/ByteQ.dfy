/**
 The byte ring buffer, with 32-bit counters that may pass below zero on their way, proved against the
 queue of `Circular`. Pointers into the buffer are indices.
 */
module ByteQs {
  import opened Common
  import opened Words
  import opened Circular

  /** The wrapping index increment; its callers never advance by more than the buffer size. */
  function IncBufIdx(idx: uint32, bufSz: uint32, nBytes: uint32): (r: uint32)
    requires idx < bufSz < 0x8000_0000 && nBytes <= bufSz
    ensures r == Idx(idx, nBytes, bufSz)
  {
    var next := Wrap32(idx + nBytes);
    if next >= bufSz then next - bufSz else next
  }

  lemma ChunkStep(buf: seq<byte>, wr: nat, data: seq<byte>, done: nat, n: nat)
    requires wr < |buf| && done + n <= |data| && wr + n <= |buf|
    ensures var chunk := data[done..done + n];
            && Inserted(buf, wr, data[done..]) ==
               Inserted(buf[..wr] + chunk + buf[wr + n..], Idx(wr, n, |buf|), data[done + n..])
            && Advanced(wr, |data| - done, |buf|) == Advanced(Idx(wr, n, |buf|), |data| - (done + n), |buf|)
  {
    var chunk := data[done..done + n];
    assert data[done..] == chunk + data[done + n..];
    InsertedConcat(buf, wr, chunk, data[done + n..]);
    ChunkInserted(buf, wr, chunk);
    AdvancedConcat(wr, n, |data| - (done + n), |buf|);
    AdvancedIsIdx(wr, n, |buf|);
  }

  lemma PrefixGrows(s: seq<byte>, done: nat, t: seq<byte>)
    requires done + |t| <= |s| && forall j | 0 <= j < |t| :: s[done + j] == t[j]
    ensures s[..done + |t|] == s[..done] + t
  {
    assert s[..done + |t|][..done] == s[..done];
  }

  lemma IdxStep(start: nat, done: nat, k: nat, size: nat)
    requires start < size && done + k <= size && Idx(start, done, size) + k <= size
    ensures Idx(Idx(start, done, size), k, size) == Idx(start, done + k, size)
  {
  }

  lemma IdxInside(start: nat, done: nat, j: nat, k: nat, size: nat)
    requires start < size && done + k <= size && Idx(start, done, size) + k <= size && j < k
    ensures Idx(start, done + j, size) == Idx(start, done, size) + j
  {
  }

  /** One more contiguous chunk of a slice, after `done` bytes of it. */
  lemma SliceStep(buf: seq<byte>, start: nat, n: nat, done: nat, k: nat)
    requires start < |buf| && done + k <= n <= |buf| && Idx(start, done, |buf|) + k <= |buf|
    ensures var idx := Idx(start, done, |buf|);
            && Slice(buf, start, n)[..done + k] == Slice(buf, start, n)[..done] + buf[idx..idx + k]
            && Idx(idx, k, |buf|) == Idx(start, done + k, |buf|)
  {
    hide *;
    var idx := Idx(start, done, |buf|);
    var s, t := Slice(buf, start, n), buf[idx..idx + k];
    IdxStep(start, done, k, |buf|);
    forall j | 0 <= j < |t|
      ensures s[done + j] == t[j]
    {
      SliceAt(buf, start, n, done + j);
      IdxInside(start, done, j, k, |buf|);
    }
    PrefixGrows(s, done, t);
  }

  lemma {:induction false} ForceAllEnd(q: Queue, data: seq<byte>)
    requires Proper(q)
    ensures End(ForceAll(q, data)) == Advanced(End(q), |data|, |q.buf|)
    decreases |data|
  {
    if data != [] {
      ForceByteHolds(q, data[0]);
      ForceAllEnd(ForceByte(q, data[0]), data[1..]);
    }
  }

  /** Taking `n` bytes from the front of a queue. */
  lemma QueueDrops(q: Queue, n: nat)
    requires Proper(q) && n <= q.count
    ensures var r := Queue(q.buf, Idx(q.rd, n, |q.buf|), q.count - n);
            Proper(r) && Holds(r) == Holds(q)[n..] && Slice(q.buf, q.rd, n) == Holds(q)[..n] && End(r) == End(q)
  {
    SliceSplit(q.buf, q.rd, n, q.count - n);
  }

  /** A write that fits loses nothing. */
  lemma FittingWrite(q: Queue, data: seq<byte>)
    requires Proper(q) && q.count + |data| <= |q.buf|
    ensures var r := Queue(Inserted(q.buf, End(q), data), q.rd, q.count + |data|);
            Proper(r) && Holds(r) == Holds(q) + data && End(r) == Advanced(End(q), |data|, |q.buf|)
  {
    hide Holds, End, Inserted, Advanced;
    ForceAllIs(q, data);
    ForceAllHolds(q, data);
    ForceAllEnd(q, data);
    NoExcess(q.rd, |q.buf|);
  }

  /** Bytes that already stand behind the end of a queue become its newest, in place of the oldest ones. */
  lemma QueueCommits(q: Queue, n: nat)
    requires Proper(q) && n <= |q.buf|
    ensures var excess := Excess(q.count, n, |q.buf|);
            var r := Queue(q.buf, Advanced(q.rd, excess, |q.buf|), Min(q.count + n, |q.buf|));
            && Proper(r) && excess <= q.count
            && Holds(r) == Holds(q)[excess..] + Slice(q.buf, End(q), n) && End(r) == Idx(End(q), n, |q.buf|)
  {
    hide *;
    ProperIs(q);
    var excess := Excess(q.count, n, |q.buf|);
    ExcessIs(q.count, n, |q.buf|);
    AdvancedIsIdx(q.rd, excess, |q.buf|);
    QueueDrops(q, excess);
    MinIs(q.count + n, |q.buf|);
    QueueGrows(Queue(q.buf, Idx(q.rd, excess, |q.buf|), q.count - excess), n);
  }

  lemma ExcessIs(count: nat, n: nat, size: nat)
    requires count <= size && n <= size
    ensures Excess(count, n, size) == if count + n <= size then 0 else count + n - size
  {
  }

  lemma QueueShows(q: Queue, from: nat, n: nat)
    requires Proper(q) && from + n <= q.count
    ensures Slice(q.buf, Idx(q.rd, from, |q.buf|), n) == Holds(q)[from..from + n]
  {
    hide Slice, Holds;
    QueueDrops(q, from);
    QueueDrops(Queue(q.buf, Idx(q.rd, from, |q.buf|), q.count - from), n);
    assert Holds(q)[from..][..n] == Holds(q)[from..from + n];
  }

  /** No index of the queue lies in a stretch of free bytes behind its end. */
  lemma FreeBytesAreOutside(rd: nat, count: nat, k: nat, n: nat, size: nat)
    requires rd < size && k < count && n <= size - count && Idx(rd, count, size) + n <= size
    ensures Idx(rd, k, size) < Idx(rd, count, size) || Idx(rd, count, size) + n <= Idx(rd, k, size)
  {
  }

  /** Bytes stored by hand. */
  function Stored(buf: seq<byte>, at: nat, data: seq<byte>): (r: seq<byte>)
    requires at + |data| <= |buf|
    ensures |r| == |buf|
  {
    buf[..at] + data + buf[at + |data|..]
  }

  lemma StoredAt(buf: seq<byte>, at: nat, data: seq<byte>, i: nat)
    requires at + |data| <= |buf| && i < |buf|
    ensures i < at || at + |data| <= i ==> Stored(buf, at, data)[i] == buf[i]
    ensures Stored(buf, at, data)[at..at + |data|] == data
  {
  }

  /** Bytes stored by hand behind the end of a queue leave its own bytes alone. */
  lemma StoreKeepsQueue(q: Queue, data: seq<byte>)
    requires Proper(q) && |data| <= |q.buf| - q.count && End(q) + |data| <= |q.buf|
    ensures var r := Queue(Stored(q.buf, End(q), data), q.rd, q.count);
            Proper(r) && End(r) == End(q) && Holds(r) == Holds(q)
  {
    hide Slice, Idx, Stored;
    var e, buf := End(q), Stored(q.buf, End(q), data);
    forall k | 0 <= k < q.count
      ensures Holds(q)[k] == buf[Idx(q.rd, k, |buf|)]
    {
      SliceAt(q.buf, q.rd, q.count, k);
      FreeBytesAreOutside(q.rd, q.count, k, |data|, |buf|);
      StoredAt(q.buf, e, data, Idx(q.rd, k, |buf|));
    }
    SliceIs(buf, q.rd, q.count, Holds(q));
  }

  /** A queue after `data` was stored by hand behind its end and committed. */
  function StoredAndCommitted(q: Queue, data: seq<byte>): Queue
    requires Proper(q) && |data| <= |q.buf| - q.count && End(q) + |data| <= |q.buf|
  {
    Queue(Stored(q.buf, End(q), data), q.rd, q.count + |data|)
  }

  /** Storing bytes by hand and committing them leaves the very state that a write of them leaves. */
  lemma StoreIsWrite(q: Queue, data: seq<byte>)
    requires Proper(q) && |data| <= |q.buf| - q.count && End(q) + |data| <= |q.buf|
    ensures var r := StoredAndCommitted(q, data);
            && r == Queue(Inserted(q.buf, End(q), data), q.rd, q.count + |data|)
            && Proper(r) && Holds(r) == Holds(q) + data && End(r) == Advanced(End(q), |data|, |q.buf|)
  {
    hide *;
    ProperIs(q);
    ChunkInserted(q.buf, End(q), data);
    StoredIs(q.buf, End(q), data);
    CommittedIs(q, data);
    FittingWrite(q, data);
  }

  lemma CommittedIs(q: Queue, data: seq<byte>)
    requires Proper(q) && |data| <= |q.buf| - q.count && End(q) + |data| <= |q.buf|
    ensures StoredAndCommitted(q, data) == Queue(Stored(q.buf, End(q), data), q.rd, q.count + |data|)
  {
  }

  lemma StoredIs(buf: seq<byte>, at: nat, data: seq<byte>)
    requires at + |data| <= |buf|
    ensures Stored(buf, at, data) == buf[..at] + data + buf[at + |data|..]
  {
  }

  lemma ProperIs(q: Queue)
    requires Proper(q)
    ensures q.rd < |q.buf| && q.count <= |q.buf| && End(q) == Idx(q.rd, q.count, |q.buf|)
    ensures Holds(q) == Slice(q.buf, q.rd, q.count)
  {
  }

  /** Until they are committed, bytes stored by hand are seen by nobody; the commit then shows just them. */
  lemma StoreShowsOnCommit(q: Queue, data: seq<byte>)
    requires Proper(q) && |data| <= |q.buf| - q.count && End(q) + |data| <= |q.buf|
    ensures var stored := Queue(Stored(q.buf, End(q), data), q.rd, q.count);
            && Proper(stored) && Holds(stored) == Holds(q)
            && Holds(StoredAndCommitted(q, data)) == Holds(stored) + Slice(stored.buf, End(stored), |data|)
  {
    hide Slice, Inserted, Idx, Holds, Stored, Advanced;
    StoreKeepsQueue(q, data);
    StoreIsWrite(q, data);
    StoredSlice(q, data);
  }

  lemma StoredSlice(q: Queue, data: seq<byte>)
    requires Proper(q) && End(q) + |data| <= |q.buf|
    ensures Slice(Stored(q.buf, End(q), data), End(q), |data|) == data
  {
    StraightSlice(Stored(q.buf, End(q), data), End(q), |data|);
  }

  lemma StartIdx(i: nat, size: nat)
    requires i < size
    ensures Idx(i, 0, size) == i
  {
  }

  lemma StraightSlice(buf: seq<byte>, at: nat, n: nat)
    requires at < |buf| && at + n <= |buf|
    ensures Slice(buf, at, n) == buf[at..at + n]
  {
  }

  class ByteQ {
    const pfBuf: array<byte>
    var nWrIdx: uint32
    var nRdIdx: uint32
    var nCount: uint32

    lemma Parts()
      requires Valid()
      ensures 0 < pfBuf.Length < 0x8000_0000 && Proper(View()) && nWrIdx == End(View())
      ensures View() == Queue(pfBuf[..], nRdIdx, nCount) && Contents() == Holds(View())
      ensures nRdIdx < pfBuf.Length && nCount <= pfBuf.Length && nWrIdx < pfBuf.Length
    {
    }

    /** The state is valid again when it shows this queue. */
    lemma Shows(q: Queue)
      requires Proper(q) && q == Queue(pfBuf[..], nRdIdx, nCount) && nWrIdx == End(q) && 0 < pfBuf.Length < 0x8000_0000
      ensures Valid() && View() == q && Contents() == Holds(q)
    {
    }

    ghost predicate Valid()
      reads this, pfBuf
    {
      && 0 < pfBuf.Length < 0x8000_0000 && Proper(View()) && nWrIdx == End(View())
    }

    ghost function View(): Queue
      reads this, pfBuf
    {
      Queue(pfBuf[..], nRdIdx, nCount)
    }

    ghost function Contents(): (r: seq<byte>)
      requires Valid()
      reads this, pfBuf
      ensures |r| == nCount
    {
      Holds(View())
    }

    constructor (pBuf: array<byte>)
      requires 0 < pBuf.Length < 0x8000_0000
      ensures Valid() && pfBuf == pBuf && Contents() == []
    {
      pfBuf, nWrIdx, nRdIdx, nCount := pBuf, 0, 0, 0;
    }

    method MemcpyOut(pRdBuf: array<byte>, at: nat, idx: nat, n: nat)
      requires pRdBuf != pfBuf && at + n <= pRdBuf.Length && idx + n <= pfBuf.Length
      modifies pRdBuf
      ensures pRdBuf[..at + n] == old(pRdBuf[..at]) + pfBuf[..][idx..idx + n]
      ensures forall j | at + n <= j < pRdBuf.Length :: pRdBuf[j] == old(pRdBuf[j])
    {
      forall k | 0 <= k < n {
        pRdBuf[at + k] := pfBuf[idx + k];
      }
    }

    method MemcpyIn(at: nat, pWrBuf: seq<byte>, from: nat, n: nat)
      requires at + n <= pfBuf.Length && from + n <= |pWrBuf|
      modifies pfBuf
      ensures pfBuf[..] == old(pfBuf[..])[..at] + pWrBuf[from..from + n] + old(pfBuf[..])[at + n..]
    {
      forall k | 0 <= k < n {
        pfBuf[at + k] := pWrBuf[from + k];
      }
    }

    /** The read loop: `n` bytes from index `start`, in contiguous chunks. */
    method CopyOut(start: uint32, n: uint32, pRdBuf: array<byte>) returns (bytesRead: uint32, idx: uint32)
      requires 0 < pfBuf.Length < 0x8000_0000 && start < pfBuf.Length && n <= pfBuf.Length
      requires pRdBuf != pfBuf && n <= pRdBuf.Length
      modifies pRdBuf
      ensures bytesRead == n && idx == Idx(start, n, pfBuf.Length)
      ensures pRdBuf[..n] == Slice(pfBuf[..], start, n) && pRdBuf[n..] == old(pRdBuf[n..])
    {
      hide Slice, Idx;
      ghost var buf := pfBuf[..];
      bytesRead, idx := 0, start;
      var toRead := n;
      StartIdx(start, pfBuf.Length);
      while toRead > 0
        invariant 0 <= toRead && bytesRead + toRead == n && idx == Idx(start, bytesRead, pfBuf.Length)
        invariant pfBuf[..] == buf
        invariant pRdBuf[..bytesRead] == Slice(buf, start, n)[..bytesRead]
        invariant forall j | n <= j < pRdBuf.Length :: pRdBuf[j] == old(pRdBuf[j])
        decreases toRead
      {
        var nBytes := Min(toRead, pfBuf.Length - idx);
        SliceStep(buf, start, n, bytesRead, nBytes);
        MemcpyOut(pRdBuf, bytesRead, idx, nBytes);
        idx := IncBufIdx(idx, pfBuf.Length, nBytes);
        bytesRead := bytesRead + nBytes;
        toRead := toRead - nBytes;
      }
    }

    /** The write loop: all of `pWrBuf` from the write index on, in contiguous chunks; it may lap. */
    method UnprotectedInsert(pWrBuf: seq<byte>) returns (bytesWritten: uint32, newWrIdx: uint32)
      requires 0 < pfBuf.Length < 0x8000_0000 && nWrIdx < pfBuf.Length && |pWrBuf| < 0x1_0000_0000
      modifies pfBuf
      ensures bytesWritten == |pWrBuf| && newWrIdx == Advanced(nWrIdx, |pWrBuf|, pfBuf.Length)
      ensures pfBuf[..] == Inserted(old(pfBuf[..]), nWrIdx, pWrBuf)
    {
      hide Inserted;
      bytesWritten, newWrIdx := 0, nWrIdx;
      var bytesToWrite := |pWrBuf|;
      ghost var goal := Inserted(pfBuf[..], nWrIdx, pWrBuf);
      assert pWrBuf[0..] == pWrBuf;
      while bytesToWrite > 0
        invariant 0 <= bytesToWrite && bytesWritten + bytesToWrite == |pWrBuf| && newWrIdx < pfBuf.Length
        invariant Inserted(pfBuf[..], newWrIdx, pWrBuf[bytesWritten..]) == goal
        invariant Advanced(newWrIdx, bytesToWrite, pfBuf.Length) == Advanced(nWrIdx, |pWrBuf|, pfBuf.Length)
        decreases bytesToWrite
      {
        var bytes := Min(bytesToWrite, pfBuf.Length - newWrIdx);
        ChunkStep(pfBuf[..], newWrIdx, pWrBuf, bytesWritten, bytes);
        MemcpyIn(newWrIdx, pWrBuf, bytesWritten, bytes);
        newWrIdx := IncBufIdx(newWrIdx, pfBuf.Length, bytes);
        bytesWritten := bytesWritten + bytes;
        bytesToWrite := bytesToWrite - bytes;
      }
      InsertedNothing(pfBuf[..], newWrIdx);
      assert pWrBuf[bytesWritten..] == [];
    }

    /** All of the bytes or, without room for them, none. */
    method Write(pWrBuf: seq<byte>) returns (bytesWritten: uint32)
      requires Valid() && |pWrBuf| < 0x1_0000_0000
      modifies `nWrIdx, `nCount, pfBuf
      ensures Valid() && nRdIdx == old(nRdIdx)
      ensures bytesWritten == if |pWrBuf| <= pfBuf.Length - old(nCount) then |pWrBuf| else 0
      ensures Contents() == old(Contents()) + pWrBuf[..bytesWritten]
    {
      hide *;
      Parts();
      ghost var q := View();
      var toWrite := if |pWrBuf| <= pfBuf.Length - nCount then |pWrBuf| else 0;
      FittingWrite(q, pWrBuf[..toWrite]);
      var newWrIdx;
      bytesWritten, newWrIdx := UnprotectedInsert(pWrBuf[..toWrite]);
      nWrIdx := newWrIdx;
      SmallWords(nCount + bytesWritten);
      nCount := Wrap32(nCount + bytesWritten);
      Shows(Queue(Inserted(q.buf, End(q), pWrBuf[..toWrite]), q.rd, q.count + toWrite));
    }

    /** Reads and removes bytes from the front. */
    method Read(pRdBuf: array<byte>, nLen: uint32) returns (bytesRead: uint32)
      requires Valid() && pRdBuf != pfBuf && nLen <= pRdBuf.Length
      modifies `nRdIdx, `nCount, pRdBuf
      ensures Valid() && bytesRead == Min(old(nCount), nLen)
      ensures pRdBuf[..bytesRead] == old(Contents())[..bytesRead] && pRdBuf[bytesRead..] == old(pRdBuf[bytesRead..])
      ensures Contents() == old(Contents())[bytesRead..]
      ensures nRdIdx == Idx(old(nRdIdx), bytesRead, pfBuf.Length)
    {
      hide *;
      Parts();
      ghost var q := View();
      MinIs(nCount, nLen);
      var toRead := Min(nCount, nLen);
      QueueDrops(q, toRead);
      SmallWords(nCount - toRead);
      var idx;
      bytesRead, idx := CopyOut(nRdIdx, toRead, pRdBuf);
      nRdIdx := idx;
      nCount := Wrap32(nCount - bytesRead);
      Shows(Queue(q.buf, Idx(q.rd, toRead, |q.buf|), q.count - toRead));
    }

    /** Reads bytes from the front and leaves them. */
    method Peek(pRdBuf: array<byte>, nLen: uint32) returns (bytesRead: uint32)
      requires Valid() && pRdBuf != pfBuf && nLen <= pRdBuf.Length
      modifies pRdBuf
      ensures Valid() && View() == old(View()) && bytesRead == Min(nCount, nLen)
      ensures pRdBuf[..bytesRead] == Contents()[..bytesRead] && pRdBuf[bytesRead..] == old(pRdBuf[bytesRead..])
    {
      hide *;
      Parts();
      MinIs(nCount, nLen);
      var idx;
      QueueDrops(View(), Min(nCount, nLen));
      bytesRead, idx := CopyOut(nRdIdx, Min(nCount, nLen), pRdBuf);
    }

    /** Publishes bytes that were stored at the write index by hand. */
    method CommitWrite(nLen: uint32) returns (bytesWritten: uint32)
      requires Valid() && nLen <= pfBuf.Length - nCount
      modifies `nWrIdx, `nCount
      ensures Valid() && bytesWritten == nLen && nRdIdx == old(nRdIdx)
      ensures Contents() == old(Contents()) + Slice(pfBuf[..], old(nWrIdx), nLen)
    {
      hide *;
      Parts();
      ghost var q := View();
      QueueGrows(q, nLen);
      SmallWords(nCount + nLen);
      nWrIdx := IncBufIdx(nWrIdx, pfBuf.Length, nLen);
      nCount := Wrap32(nCount + nLen);
      bytesWritten := nLen;
      Shows(Queue(q.buf, q.rd, q.count + nLen));
    }

    /** Drops bytes that were read in place. */
    method CommitRead(nLen: uint32) returns (bytesRead: uint32)
      requires Valid() && nLen <= nCount
      modifies `nRdIdx, `nCount
      ensures Valid() && bytesRead == nLen && Contents() == old(Contents())[nLen..]
    {
      hide *;
      Parts();
      ghost var q := View();
      QueueDrops(q, nLen);
      SmallWords(nCount - nLen);
      MinIs(nCount, nLen);
      var nBytes := Min(nCount, nLen);
      nRdIdx := IncBufIdx(nRdIdx, pfBuf.Length, nBytes);
      bytesRead := nBytes;
      nCount := Wrap32(nCount - nLen);
      Shows(Queue(q.buf, Idx(q.rd, nLen, |q.buf|), q.count - nLen));
    }

    /** How much can be stored behind the write index without wrapping. */
    method GetContiguousWriteReady() returns (bytesReady: uint32)
      requires Valid()
      ensures bytesReady <= pfBuf.Length - nCount && nWrIdx + bytesReady <= pfBuf.Length
      ensures bytesReady == pfBuf.Length - nCount || nWrIdx + bytesReady == pfBuf.Length
    {
      bytesReady := pfBuf.Length - nCount;
      bytesReady := Min(bytesReady, pfBuf.Length - nWrIdx);
    }

    /** How much can be read at the read index without wrapping. */
    method GetContiguousReadReady() returns (bytesReady: uint32)
      requires Valid()
      ensures bytesReady <= nCount && nRdIdx + bytesReady <= pfBuf.Length
      ensures bytesReady == nCount || nRdIdx + bytesReady == pfBuf.Length
      ensures pfBuf[nRdIdx..nRdIdx + bytesReady] == Contents()[..bytesReady]
    {
      bytesReady := Min(nCount, pfBuf.Length - nRdIdx);
      QueueDrops(View(), bytesReady);
    }

    method Flush()
      requires Valid()
      modifies `nWrIdx, `nRdIdx, `nCount
      ensures Valid() && Contents() == []
    {
      nCount := 0;
      nRdIdx, nWrIdx := 0, 0;
    }

    /** The step that both forced writes begin with: the oldest bytes make room. */
    method MakeRoom(nLen: uint32)
      requires Valid() && nLen < 0x8000_0000
      modifies `nRdIdx, `nCount
      ensures nRdIdx == Advanced(old(nRdIdx), Excess(old(nCount), nLen, pfBuf.Length), pfBuf.Length)
      ensures Wrap32(nCount + nLen) == Min(old(nCount) + nLen, pfBuf.Length)
    {
      hide *;
      Parts();
      RoomCount(nCount, nLen, pfBuf.Length);
      NoExcess(nRdIdx, pfBuf.Length);
      var writeableBytes := pfBuf.Length - nCount;
      var diff := Signed32(nLen - writeableBytes);
      if diff > 0 {
        AdvanceRdIdx(diff);
        nCount := Wrap32(nCount - diff);
      }
    }

    /** Moves the read index on by any distance, taking the buffer size off until it fits. */
    method AdvanceRdIdx(diff: uint32)
      requires 0 < pfBuf.Length < 0x8000_0000 && nRdIdx < pfBuf.Length && diff < 0x8000_0000
      modifies `nRdIdx
      ensures nRdIdx == Advanced(old(nRdIdx), diff, pfBuf.Length)
    {
      ghost var target := nRdIdx + diff;
      ghost var q: nat := 0;
      nRdIdx := Wrap32(nRdIdx + diff);
      while nRdIdx >= pfBuf.Length
        invariant nRdIdx + q * pfBuf.Length == target
        decreases nRdIdx
      {
        OneMoreTurn(q, pfBuf.Length);
        nRdIdx := nRdIdx - pfBuf.Length;
        q := q + 1;
      }
      AdvancedIsReduced(old(nRdIdx), diff, pfBuf.Length, nRdIdx, q);
    }

    /** Writes all bytes, of which there may be more than the buffer holds. */
    method ForceWrite(pWrBuf: seq<byte>) returns (bytes: uint32)
      requires Valid() && |pWrBuf| < 0x8000_0000
      modifies `nWrIdx, `nRdIdx, `nCount, pfBuf
      ensures Valid() && bytes == |pWrBuf|
      ensures Contents() == LastOf(old(Contents()) + pWrBuf, pfBuf.Length)
      ensures View() == ForceAll(old(View()), pWrBuf)
    {
      hide *;
      Parts();
      ghost var q := View();
      bytes := 0;
      ForcedState(q, pWrBuf);
      ForceAllHolds(q, pWrBuf);
      if |pWrBuf| != 0 {
        MakeRoom(|pWrBuf|);
        var newWrIdx;
        bytes, newWrIdx := UnprotectedInsert(pWrBuf);
        nWrIdx := newWrIdx;
        nCount := Wrap32(nCount + |pWrBuf|);
        Shows(ForceAll(q, pWrBuf));
      }
    }

    /** The other forced write, which keeps its write index in the queue, ends in the same state. */
    method ForceWriteUnprotected(pWrBuf: seq<byte>) returns (r: int)
      requires Valid() && |pWrBuf| < 0x8000_0000
      modifies `nWrIdx, `nRdIdx, `nCount, pfBuf
      ensures Valid() && r == |pWrBuf|
      ensures View() == ForceAll(old(View()), pWrBuf)
    {
      hide *;
      Parts();
      ghost var q := View();
      ForcedState(q, pWrBuf);
      if |pWrBuf| > 0 {
        MakeRoom(|pWrBuf|);
        InsertAtWrIdx(pWrBuf);
        nCount := Wrap32(nCount + |pWrBuf|);
        Shows(ForceAll(q, pWrBuf));
      }
      r := |pWrBuf|;
    }

    method InsertAtWrIdx(pWrBuf: seq<byte>)
      requires 0 < pfBuf.Length < 0x8000_0000 && nWrIdx < pfBuf.Length && |pWrBuf| < 0x8000_0000
      modifies `nWrIdx, pfBuf
      ensures nWrIdx == Advanced(old(nWrIdx), |pWrBuf|, pfBuf.Length)
      ensures pfBuf[..] == Inserted(old(pfBuf[..]), old(nWrIdx), pWrBuf)
    {
      hide Inserted;
      ghost var goal := Inserted(pfBuf[..], nWrIdx, pWrBuf);
      var remaining, written := |pWrBuf|, 0;
      assert pWrBuf[0..] == pWrBuf;
      while remaining > 0
        invariant 0 <= remaining && 0 <= written && written + remaining == |pWrBuf| && nWrIdx < pfBuf.Length
        invariant Inserted(pfBuf[..], nWrIdx, pWrBuf[written..]) == goal
        invariant Advanced(nWrIdx, remaining, pfBuf.Length) == Advanced(old(nWrIdx), |pWrBuf|, pfBuf.Length)
        decreases remaining
      {
        var contig := pfBuf.Length - nWrIdx;
        var bytes := Min(remaining, contig);
        ChunkStep(pfBuf[..], nWrIdx, pWrBuf, written, bytes);
        MemcpyIn(nWrIdx, pWrBuf, written, bytes);
        nWrIdx := IncBufIdx(nWrIdx, pfBuf.Length, bytes);
        written, remaining := written + bytes, remaining - bytes;
      }
      InsertedNothing(pfBuf[..], nWrIdx);
      assert pWrBuf[written..] == [];
    }

    /** Publishes bytes that were stored by hand, over the oldest ones if they did not fit. */
    method ForceCommitWrite(nLen: uint32) returns (bytes: uint32)
      requires Valid() && nLen <= pfBuf.Length
      modifies `nWrIdx, `nRdIdx, `nCount
      ensures Valid() && bytes == nLen
      ensures Contents() ==
              old(Contents())[Excess(old(nCount), nLen, pfBuf.Length)..] + Slice(pfBuf[..], old(nWrIdx), nLen)
    {
      hide *;
      Parts();
      ghost var q := View();
      QueueCommits(q, nLen);
      MakeRoom(nLen);
      nWrIdx := IncBufIdx(nWrIdx, pfBuf.Length, nLen);
      nCount := Wrap32(nCount + nLen);
      bytes := nLen;
      Shows(Queue(q.buf, Advanced(q.rd, Excess(q.count, nLen, |q.buf|), |q.buf|), Min(q.count + nLen, |q.buf|)));
    }

    /** Reads bytes from any distance behind the read index. */
    method PeekRandom(pRdBuf: array<byte>, bytesFromRdIdx: uint32, nLen: uint32) returns (bytesRead: uint32)
      requires Valid() && pRdBuf != pfBuf && nLen <= pRdBuf.Length && bytesFromRdIdx <= 0x8000_0000 + nCount
      modifies pRdBuf
      ensures Valid() && View() == old(View())
      ensures bytesRead == if bytesFromRdIdx >= nCount then 0 else Min(nCount - bytesFromRdIdx, nLen)
      ensures bytesRead > 0 ==> pRdBuf[..bytesRead] == Contents()[bytesFromRdIdx..bytesFromRdIdx + bytesRead]
      ensures pRdBuf[bytesRead..] == old(pRdBuf[bytesRead..])
    {
      hide *;
      Parts();
      bytesRead := 0;
      SmallWords(nRdIdx + bytesFromRdIdx);
      var idx: int := Wrap32(nRdIdx + bytesFromRdIdx);
      if idx >= pfBuf.Length {
        idx := idx - pfBuf.Length;
      }
      NegativeCount(nCount, bytesFromRdIdx);
      var count := Signed32(nCount - bytesFromRdIdx);
      count := if count < 0 then 0 else count;
      MinIs(count, nLen);
      MinIs(nCount - bytesFromRdIdx, nLen);
      var toRead := Min(count, nLen);
      if toRead > 0 {
        var after;
        IdxIs(nRdIdx, bytesFromRdIdx, pfBuf.Length);
        QueueShows(View(), bytesFromRdIdx, toRead);
        bytesRead, after := CopyOut(idx, toRead, pRdBuf);
      }
    }

    /** Reads the bytes behind the write index; they are the newest of the queue iff it holds as many. */
    method DoReadFromEnd(pRdBuf: array<byte>, nLen: int) returns (bytesRead: int)
      requires Valid() && pRdBuf != pfBuf && nLen <= pRdBuf.Length && nLen <= pfBuf.Length
      modifies pRdBuf
      ensures Valid() && View() == old(View()) && bytesRead == if nLen > 0 then nLen else 0
      ensures 0 <= nLen <= nCount ==> pRdBuf[..nLen] == Contents()[nCount - nLen..]
      ensures nLen > 0 ==> pRdBuf[..nLen] == Slice(pfBuf[..], Idx(nWrIdx, pfBuf.Length - nLen, pfBuf.Length), nLen)
      ensures pRdBuf[bytesRead..] == old(pRdBuf[bytesRead..])
    {
      hide *;
      Parts();
      bytesRead := 0;
      if nLen > 0 {
        var idx := nWrIdx - nLen;
        if idx < 0 {
          idx := idx + pfBuf.Length;
        }
        IdxIs(nWrIdx, pfBuf.Length - nLen, pfBuf.Length);
        if nLen <= nCount {
          QueueShows(View(), nCount - nLen, nLen);
          NewestIdx(View(), nLen);
        }
        var after;
        bytesRead, after := CopyOut(idx, nLen, pRdBuf);
      } else {
        assert pRdBuf[0..] == old(pRdBuf[0..]);
      }
    }

    /** Sets the read index from a pointer that a consumer has moved on. */
    method SetRdIdxFromPointer(ptr: int)
      requires Valid()
      modifies `nRdIdx, `nCount
      ensures Valid()
      ensures !(0 <= ptr <= pfBuf.Length) ==> View() == old(View())
      ensures 0 <= ptr < pfBuf.Length ==> nRdIdx == ptr && nCount == (nWrIdx - ptr) % pfBuf.Length
      ensures ptr == pfBuf.Length ==> nRdIdx == 0 && nCount == nWrIdx
      ensures forall n: nat |
                n <= old(nCount)
                && (ptr == Idx(old(nRdIdx), n, pfBuf.Length) || ptr == old(nRdIdx) + n == pfBuf.Length) ::
                Contents() == old(Contents())[n..] <==> !(n == 0 && old(nCount) == pfBuf.Length)
    {
      hide *;
      Parts();
      ghost var q := View();
      var newRdIdx := ptr;
      if 0 <= newRdIdx <= pfBuf.Length {
        if newRdIdx == pfBuf.Length {
          newRdIdx := 0;
        }
        var newCount: int := nWrIdx - newRdIdx;
        if newCount < 0 {
          newCount := newCount + pfBuf.Length;
        }
        MovedIsProper(q, newRdIdx, newCount);
        ghost var r := Queue(q.buf, newRdIdx, newCount);
        forall n: nat | n <= q.count && (ptr == Idx(q.rd, n, |q.buf|) || ptr == q.rd + n == |q.buf|)
          ensures Holds(r) == Holds(q)[n..] <==> !(n == 0 && q.count == |q.buf|)
        {
          MovedHolds(q, n, newRdIdx, ptr, newCount);
        }
        Modulo(nWrIdx - newRdIdx, pfBuf.Length);
        nRdIdx := newRdIdx;
        nCount := newCount;
        Shows(r);
      }
    }
  }

  /** A difference of two indices, modulo the size. */
  lemma Modulo(x: int, size: nat)
    requires 0 < x + size && x < size
    ensures x % size == if x < 0 then x + size else x
  {
    if x < 0 {
      var q, r := x / size, x % size;
      assert x == q * size + r;
      assert q >= 0 ==> q * size >= 0;
      assert q <= -2 ==> q * size <= -2 * size;
    } else {
      DivModUnique(x, size, 0, x);
    }
  }

  /** Moving the read pointer on drops the bytes passed, but a full queue whose pointer stands still seems empty. */
  lemma MovedHolds(q: Queue, n: nat, newRd: nat, ptr: int, newCount: int)
    requires Proper(q) && n <= q.count && (ptr == Idx(q.rd, n, |q.buf|) || ptr == q.rd + n == |q.buf|)
    requires newRd == (if ptr == |q.buf| then 0 else ptr) && newRd < |q.buf|
    requires newCount == if End(q) >= newRd then End(q) - newRd else End(q) - newRd + |q.buf|
    ensures newCount >= 0 && Proper(Queue(q.buf, newRd, newCount))
    ensures Holds(Queue(q.buf, newRd, newCount)) == Holds(q)[n..] <==> !(n == 0 && q.count == |q.buf|)
  {
    hide *;
    ProperIs(q);
    IdxIs(q.rd, n, |q.buf|);
    MovedIsProper(q, newRd, newCount);
    CountAfterMove(q, n, newRd, newCount);
    QueueDrops(q, n);
    if n == 0 && q.count == |q.buf| {
      EmptyHolds(Queue(q.buf, newRd, newCount));
      assert Holds(q)[n..] == Holds(q);
    }
  }

  lemma MinIs(a: int, b: int)
    ensures Min(a, b) == (if a <= b then a else b)
  {
  }

  lemma IdxIs(i: nat, k: nat, size: nat)
    requires i < size && k <= size
    ensures Idx(i, k, size) == if i + k < size then i + k else i + k - size
  {
  }

  /** A distance beyond the contents gives a negative count, as far as its sign bit reaches. */
  lemma NegativeCount(count: nat, distance: uint32)
    requires count < 0x8000_0000 && distance <= 0x8000_0000 + count
    ensures distance <= count ==> Signed32(count - distance) == count - distance
    ensures distance > count ==> Signed32(count - distance) < 0
  {
    SmallWords(count - distance);
  }

  /** Going back from the end of a queue by some of its bytes is going on from its front by the others. */
  lemma NewestIdx(q: Queue, n: nat)
    requires Proper(q) && 0 < n <= q.count
    ensures Idx(q.rd, q.count - n, |q.buf|) == Idx(End(q), |q.buf| - n, |q.buf|)
  {
  }

  /** What `newCount` is for a read pointer that was moved on by `n`. */
  lemma CountAfterMove(q: Queue, n: nat, newRd: nat, newCount: int)
    requires Proper(q) && n <= q.count && newRd == Idx(q.rd, n, |q.buf|)
    requires newCount == if End(q) >= newRd then End(q) - newRd else End(q) - newRd + |q.buf|
    ensures newCount == if n == 0 && q.count == |q.buf| then 0 else q.count - n
  {
  }

  lemma EmptyHolds(q: Queue)
    requires Proper(q) && q.count == 0
    ensures Holds(q) == []
  {
  }

  /** Any read index below the size goes with the count that the indices give. */
  lemma MovedIsProper(q: Queue, newRd: nat, newCount: int)
    requires Proper(q) && newRd < |q.buf|
    requires newCount == if End(q) >= newRd then End(q) - newRd else End(q) - newRd + |q.buf|
    ensures newCount >= 0 && Proper(Queue(q.buf, newRd, newCount)) && End(Queue(q.buf, newRd, newCount)) == End(q)
  {
  }

  /** Bytes that stand behind the end of a queue and fit in become its newest. */
  lemma QueueGrows(q: Queue, n: nat)
    requires Proper(q) && n <= |q.buf| - q.count
    ensures var r := Queue(q.buf, q.rd, q.count + n);
            Proper(r) && Holds(r) == Holds(q) + Slice(q.buf, End(q), n) && End(r) == Idx(End(q), n, |q.buf|)
  {
    hide Slice;
    SliceSplit(q.buf, q.rd, q.count, n);
  }

  /** The state after a forced write, part by part. */
  lemma ForcedState(q: Queue, data: seq<byte>)
    requires Proper(q)
    ensures var excess := Excess(q.count, |data|, |q.buf|);
            && ForceAll(q, data) ==
               Queue(Inserted(q.buf, End(q), data), Advanced(q.rd, excess, |q.buf|), Min(q.count + |data|, |q.buf|))
            && End(ForceAll(q, data)) == Advanced(End(q), |data|, |q.buf|)
    ensures data == [] ==> ForceAll(q, data) == q && LastOf(Holds(q) + data, |q.buf|) == Holds(q)
  {
    ForceAllIs(q, data);
    ForceAllEnd(q, data);
    assert Holds(q) + [] == Holds(q);
    hide Inserted, Advanced, Slice;
  }

  lemma OneMoreTurn(q: nat, size: nat)
    ensures (q + 1) * size == q * size + size
  {
  }

  /** The shortage is computed exactly, and the count is right again once the bytes are added. */
  lemma RoomCount(count: nat, n: nat, size: nat)
    requires count <= size < 0x8000_0000 && n < 0x8000_0000
    ensures var diff := Signed32(n - (size - count));
            && diff == n - (size - count) && (if diff > 0 then diff else 0) == Excess(count, n, size)
            && Wrap32((if diff > 0 then Wrap32(count - diff) else count) + n) == Min(count + n, size)
  {
    var diff := n - (size - count);
    SmallWords(diff);
    SmallWords(count + n);
    SmallWords(size);
    WrapAddsUp(count - diff, n);
    hide Signed32, Wrap32;
  }

  lemma InsertedNothing(buf: seq<byte>, wr: nat)
    requires wr < |buf|
    ensures Inserted(buf, wr, []) == buf && Advanced(wr, 0, |buf|) == wr
  {
  }

  lemma NoExcess(i: nat, size: nat)
    requires i < size
    ensures Advanced(i, 0, size) == i
  {
  }
}
