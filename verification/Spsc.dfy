/**
 One writer and one reader on a byte queue, interleaved byte by byte. To update the shared count a side
 reads and stores it in two separate accesses, inside a critical section if its protection is switched
 on. Before that a read looks at the count twice without a lock: the minimum of the count and the
 caller's length compares the count first and then takes its value.
 */
module Spsc {
  import opened Common
  import opened Words
  import opened Circular

  datatype Writer =
    | WIdle
    | Copying(data: seq<byte>, done: nat, idx: nat)    // in the copy loop, index not stored yet
    | Counting(data: seq<byte>)                        // index stored, about to read the count
    | Adding(data: seq<byte>, v: uint32)               // about to store v + |data|

  datatype Reader =
    | RIdle
    | Rereading(n: nat)                                // found fewer than n bytes, about to take their number
    | Fetching(got: seq<byte>, left: nat, idx: nat)
    | Releasing(got: seq<byte>)
    | Subtracting(got: seq<byte>, v: uint32)

  /** The read begun last: the length asked for, and what its two looks at the count gave. */
  datatype Call = Call(asked: nat, first: uint32, second: uint32)

  const NO_CALL := Call(0, 0, 0)

  datatype Side = NoSide | WriterSide | ReaderSide

  datatype State = State(
    wrCntProt: bool, rdCntProt: bool,
    buf: seq<byte>, nWrIdx: nat, nRdIdx: nat, nCount: uint32,
    inCritical: Side, w: Writer, r: Reader,
    accepted: seq<byte>, returned: seq<byte>,          // ghost: what the calls have taken and given
    base: nat,                                         // ghost: index of the oldest byte not returned
    call: Call)

  datatype Step = StartWrite(data: seq<byte>) | WriterStep | StartRead(n: nat) | ReaderStep

  ghost predicate Initial(s: State) {
    && 0 < |s.buf| < 0x8000_0000 && s.nWrIdx == s.nRdIdx == s.base == 0 && s.nCount == 0 && s.inCritical == NoSide
    && s.w == WIdle && s.r == RIdle && s.accepted == [] && s.returned == [] && s.call == NO_CALL
  }

  /** The indices are always inside the buffer. */
  predicate InBuffer(s: State) {
    && s.nWrIdx < |s.buf| && s.nRdIdx < |s.buf| && s.base < |s.buf| && |s.buf| < 0x8000_0000
    && (s.w.Copying? ==> s.w.idx < |s.buf| && s.w.done <= |s.w.data|)
    && (s.r.Fetching? ==> s.r.idx < |s.buf|)
  }

  function WriterNext(s: State): State
    requires InBuffer(s)
  {
    match s.w
    case WIdle => s
    case Copying(data, done, idx) =>
      if done < |data| then s.(buf := s.buf[idx := data[done]], w := Copying(data, done + 1, Idx(idx, 1, |s.buf|)))
      else s.(nWrIdx := idx, w := Counting(data))
    case Counting(data) =>
      if s.wrCntProt then
        if s.inCritical != NoSide then s else s.(inCritical := WriterSide, w := Adding(data, s.nCount))
      else s.(w := Adding(data, s.nCount))
    case Adding(data, v) =>
      s.(nCount := Wrap32(v + |data|), inCritical := if s.wrCntProt then NoSide else s.inCritical,
         w := WIdle, accepted := s.accepted + data)
  }

  function ReaderNext(s: State): State
    requires InBuffer(s)
  {
    match s.r
    case RIdle => s
    case Rereading(n) => s.(r := Fetching([], s.nCount, s.nRdIdx), call := s.call.(second := s.nCount))
    case Fetching(got, left, idx) =>
      if left > 0 then s.(r := Fetching(got + [s.buf[idx]], left - 1, Idx(idx, 1, |s.buf|)))
      else s.(nRdIdx := idx, r := Releasing(got))
    case Releasing(got) =>
      if s.rdCntProt then
        if s.inCritical != NoSide then s else s.(inCritical := ReaderSide, r := Subtracting(got, s.nCount))
      else s.(r := Subtracting(got, s.nCount))
    case Subtracting(got, v) =>
      s.(nCount := Wrap32(v - |got|), inCritical := if s.rdCntProt then NoSide else s.inCritical,
         r := RIdle, returned := s.returned + got, base := s.nRdIdx)
  }

  function Next(s: State, step: Step): State
    requires InBuffer(s)
  {
    match step
    case StartWrite(data) =>
      if s.w != WIdle || data == [] || |data| >= 0x8000_0000 then s
      else s.(w := Copying(if |data| <= Wrap32(|s.buf| - s.nCount) then data else [], 0, s.nWrIdx))
    case WriterStep => WriterNext(s)
    case StartRead(n) =>
      if s.r != RIdle || n == 0 then s
      else
        s.(r := if s.nCount < n then Rereading(n) else Fetching([], n, s.nRdIdx), call := Call(n, s.nCount, s.nCount))
    case ReaderStep => ReaderNext(s)
  }

  lemma StaysInBuffer(s: State, step: Step)
    requires InBuffer(s)
    ensures InBuffer(Next(s, step)) && |Next(s, step).buf| == |s.buf|
  {
  }

  function Run(s: State, steps: seq<Step>): (r: State)
    requires InBuffer(s)
    ensures InBuffer(r)
    decreases |steps|
  {
    if steps == [] then s
    else
      StaysInBuffer(s, steps[0]);
      assert InBuffer(Next(s, steps[0]));
      Run(Next(s, steps[0]), steps[1..])
  }

  // ---------------------------------------------------------------- both counts protected

  /** Bytes accepted and not returned. */
  function Unread(s: State): int {
    |s.accepted| - |s.returned|
  }

  ghost predicate QueueOk(s: State)
    requires InBuffer(s)
  {
    && s.returned <= s.accepted && s.nCount == Unread(s) <= |s.buf|
    && Slice(s.buf, s.base, s.nCount) == s.accepted[|s.returned|..]
  }

  /** The writer works in the free stretch behind the unread bytes. */
  ghost predicate WriterOk(s: State)
    requires InBuffer(s) && s.nCount <= |s.buf|
  {
    var end := Idx(s.base, s.nCount, |s.buf|);
    match s.w
    case WIdle => s.nWrIdx == end
    case Copying(data, done, idx) =>
      && s.nWrIdx == end && s.nCount + |data| <= |s.buf| && idx == Idx(end, done, |s.buf|)
      && Slice(s.buf, end, done) == data[..done]
    case Counting(data) =>
      && s.nCount + |data| <= |s.buf| && s.nWrIdx == Idx(end, |data|, |s.buf|)
      && Slice(s.buf, end, |data|) == data
    case Adding(data, v) =>
      && s.nCount + |data| <= |s.buf| && s.nWrIdx == Idx(end, |data|, |s.buf|)
      && Slice(s.buf, end, |data|) == data && v == s.nCount
  }

  /** The reader works in a front part of the unread bytes. */
  ghost predicate ReaderOk(s: State)
    requires InBuffer(s) && s.returned <= s.accepted
  {
    var unread := s.accepted[|s.returned|..];
    match s.r
    case RIdle => s.nRdIdx == s.base
    case Rereading(_) => s.nRdIdx == s.base
    case Fetching(got, left, idx) =>
      && s.nRdIdx == s.base && |got| + left <= s.nCount && |got| <= |s.buf| && idx == Idx(s.base, |got|, |s.buf|)
      && got <= unread
    case Releasing(got) =>
      |got| <= s.nCount && |got| <= |s.buf| && s.nRdIdx == Idx(s.base, |got|, |s.buf|) && got <= unread
    case Subtracting(got, v) =>
      && |got| <= s.nCount && |got| <= |s.buf| && s.nRdIdx == Idx(s.base, |got|, |s.buf|) && got <= unread
      && v == s.nCount
  }

  ghost predicate Inv(s: State) {
    && s.wrCntProt && s.rdCntProt && InBuffer(s) && QueueOk(s) && WriterOk(s) && ReaderOk(s)
    && (s.w.Adding? <==> s.inCritical == WriterSide) && (s.r.Subtracting? <==> s.inCritical == ReaderSide)
    && s.call.second <= |s.buf|
  }

  /** A store in the free stretch leaves the unread bytes and the bytes copied so far alone. */
  lemma StoreInFreeStretch(buf: seq<byte>, base: nat, count: nat, done: nat, b: byte)
    requires base < |buf| && count + done < |buf|
    ensures var end := Idx(base, count, |buf|);
            var idx := Idx(end, done, |buf|);
            && Slice(buf[idx := b], base, count) == Slice(buf, base, count)
            && Slice(buf[idx := b], end, done + 1) == Slice(buf, end, done) + [b]
  {
    var end := Idx(base, count, |buf|);
    var buf' := buf[Idx(end, done, |buf|) := b];
    forall k | 0 <= k < count
      ensures Slice(buf, base, count)[k] == buf'[Idx(base, k, |buf|)]
    {
      SliceAt(buf, base, count, k);
    }
    forall k | 0 <= k < done
      ensures Slice(buf, end, done)[k] == buf'[Idx(end, k, |buf|)]
    {
      SliceAt(buf, end, done, k);
    }
    hide Slice;
    SliceIs(buf', base, count, Slice(buf, base, count));
    SliceIs(buf', end, done + 1, Slice(buf, end, done) + [b]);
  }

  lemma KeepStart(s: State, step: Step)
    requires Inv(s) && (step.StartWrite? || step.StartRead?)
    ensures Inv(Next(s, step))
  {
    assert Slice(s.buf, Idx(s.base, s.nCount, |s.buf|), 0) == [];
    hide Slice;
  }

  lemma KeepCopy(s: State)
    requires Inv(s) && s.w.Copying?
    ensures Inv(WriterNext(s))
  {
    hide Slice;
    var size, end, data, done := |s.buf|, Idx(s.base, s.nCount, |s.buf|), s.w.data, s.w.done;
    if done < |data| {
      StoreInFreeStretch(s.buf, s.base, s.nCount, done, data[done]);
      assert data[..done + 1] == data[..done] + [data[done]];
      IdxSum(end, done, 1, size);
    } else {
      assert data[..done] == data;
    }
  }

  lemma KeepAdd(s: State)
    requires Inv(s) && !s.w.Copying?
    ensures Inv(WriterNext(s))
  {
    hide Slice, Wrap32;
    if s.w.Adding? {
      var n := |s.w.data|;
      SmallWords(s.nCount + n);
      SliceSplit(s.buf, s.base, s.nCount, n);
      IdxSum(s.base, s.nCount, n, |s.buf|);
      assert (s.accepted + s.w.data)[|s.returned|..] == s.accepted[|s.returned|..] + s.w.data;
    }
  }

  lemma KeepFetch(s: State)
    requires Inv(s) && s.r.Fetching?
    ensures Inv(ReaderNext(s))
  {
    hide Slice;
    var got, unread := s.r.got, s.accepted[|s.returned|..];
    if s.r.left > 0 {
      SliceAt(s.buf, s.base, s.nCount, |got|);
      assert got + [unread[|got|]] <= unread;
      IdxSum(s.base, |got|, 1, |s.buf|);
    }
  }

  /** Bytes given back in front of the writer do not concern it. */
  lemma WriterUndisturbed(s: State, r: State)
    requires InBuffer(s) && InBuffer(r) && r.nCount <= s.nCount <= |s.buf| && WriterOk(s) && !s.w.Adding?
    requires r.w == s.w && r.buf == s.buf && r.nWrIdx == s.nWrIdx
    requires Idx(r.base, r.nCount, |r.buf|) == Idx(s.base, s.nCount, |s.buf|)
    ensures WriterOk(r)
  {
    hide Slice, Idx;
  }

  /** What a read gives back leaves the front of the queue. */
  lemma FrontGoes(s: State, k: nat)
    requires InBuffer(s) && QueueOk(s) && k <= s.nCount && s.r.Subtracting? && k == |s.r.got|
    requires s.r.got <= s.accepted[|s.returned|..]
    ensures s.returned + s.r.got <= s.accepted
    ensures Slice(s.buf, Idx(s.base, k, |s.buf|), s.nCount - k) == s.accepted[|s.returned| + k..]
  {
    hide Slice, Idx;
    SliceSplit(s.buf, s.base, k, s.nCount - k);
    assert s.accepted[|s.returned|..] == s.r.got + s.accepted[|s.returned| + k..];
  }

  lemma KeepRelease(s: State)
    requires Inv(s) && !s.r.Fetching? && !s.r.Subtracting?
    ensures Inv(ReaderNext(s))
  {
    hide Slice, Wrap32;
    assert s.r.Rereading? ==> Idx(s.base, 0, |s.buf|) == s.base;
  }

  lemma KeepSubtract(s: State)
    requires Inv(s) && !s.r.Fetching?
    ensures Inv(ReaderNext(s))
  {
    hide Slice, Wrap32, Idx;
    if !s.r.Subtracting? {
      KeepRelease(s);
    } else {
      var k, r := |s.r.got|, ReaderNext(s);
      SmallWords(s.nCount - k);
      IdxSum(s.base, k, s.nCount - k, |s.buf|);
      FrontGoes(s, k);
      WriterUndisturbed(s, r);
      hide WriterOk;
      assert r.base == s.nRdIdx == Idx(s.base, k, |s.buf|) && r.nCount == s.nCount - k;
    }
  }

  lemma StepKeepsInv(s: State, step: Step)
    requires Inv(s)
    ensures Inv(Next(s, step))
  {
    hide Inv;
    match step {
      case WriterStep => if s.w.Copying? { KeepCopy(s); } else { KeepAdd(s); }
      case ReaderStep => if s.r.Fetching? { KeepFetch(s); } else { KeepSubtract(s); }
      case _ => KeepStart(s, step);
    }
  }

  lemma {:induction false} RunKeepsInv(s: State, steps: seq<Step>)
    requires Inv(s)
    ensures InBuffer(s) && Inv(Run(s, steps))
    decreases |steps|
  {
    if steps != [] {
      StepKeepsInv(s, steps[0]);
      RunKeepsInv(Next(s, steps[0]), steps[1..]);
    }
  }

  /** The bytes given out are always a prefix of the bytes taken in. */
  ghost predicate Safe(wrCntProt: bool, rdCntProt: bool) {
    forall s, steps: seq<Step> | Initial(s) && s.wrCntProt == wrCntProt && s.rdCntProt == rdCntProt ::
      Run(s, steps).returned <= Run(s, steps).accepted
  }

  lemma {:induction false} ProtectedIsSafe(s: State, steps: seq<Step>)
    requires Initial(s) && s.wrCntProt && s.rdCntProt
    ensures QueueOk(Run(s, steps))
  {
    assert Slice(s.buf, 0, 0) == [];
    RunKeepsInv(s, steps);
  }

  /** No step of the writer touches an unread byte. */
  lemma NoUnreadByteOverwritten(s: State)
    requires Inv(s)
    ensures Slice(WriterNext(s).buf, s.base, s.nCount) == Slice(s.buf, s.base, s.nCount)
  {
    hide Slice;
    if s.w.Copying? && s.w.done < |s.w.data| {
      StoreInFreeStretch(s.buf, s.base, s.nCount, s.w.done, s.w.data[s.w.done]);
    }
  }

  // ---------------------------------------------------------------- a count left unprotected

  lemma {:induction false} RunOneMore(s: State, steps: seq<Step>, step: Step)
    requires InBuffer(s)
    ensures Run(s, steps + [step]) == Next(Run(s, steps), step)
    decreases |steps|
  {
    if steps == [] {
      assert (steps + [step])[1..] == [];
    } else {
      assert (steps + [step])[1..] == steps[1..] + [step];
      StaysInBuffer(s, steps[0]);
      RunOneMore(Next(s, steps[0]), steps[1..], step);
    }
  }

  lemma Extend(s: State, steps: seq<Step>, at: State, step: Step) returns (more: seq<Step>, r: State)
    requires InBuffer(s) && at == Run(s, steps)
    ensures r == Run(s, more) == Next(at, step)
  {
    more, r := steps + [step], Next(at, step);
    RunOneMore(s, steps, step);
  }

  /** A write of one byte up to the store of the write index. */
  lemma WriteUpToCount(s: State, steps: seq<Step>, at: State, b: byte) returns (more: seq<Step>, r: State)
    requires InBuffer(s) && at == Run(s, steps)
    requires at.w == WIdle && at.nCount < |at.buf|
    ensures r == Run(s, more)
    ensures r == at.(buf := at.buf[at.nWrIdx := b], nWrIdx := Idx(at.nWrIdx, 1, |at.buf|), w := Counting([b]))
  {
    hide Run;
    more, r := Extend(s, steps, at, StartWrite([b]));
    assert r == at.(w := Copying([b], 0, at.nWrIdx));
    more, r := Extend(s, more, r, WriterStep);
    more, r := Extend(s, more, r, WriterStep);
  }

  /** A read of one byte up to the store of the read index. */
  lemma ReadUpToCount(s: State, steps: seq<Step>, at: State) returns (more: seq<Step>, r: State)
    requires InBuffer(s) && at == Run(s, steps)
    requires at.r == RIdle && at.nCount > 0
    ensures r == Run(s, more)
    ensures r == at.(nRdIdx := Idx(at.nRdIdx, 1, |at.buf|), r := Releasing([at.buf[at.nRdIdx]]),
                     call := Call(1, at.nCount, at.nCount))
  {
    hide Run;
    more, r := Extend(s, steps, at, StartRead(1));
    assert r == at.(r := Fetching([], 1, at.nRdIdx), call := Call(1, at.nCount, at.nCount));
    more, r := Extend(s, more, r, ReaderStep);
    more, r := Extend(s, more, r, ReaderStep);
  }

  lemma RunNone(s: State)
    requires InBuffer(s)
    ensures Run(s, []) == s
  {
  }

  /** A finished write of 1, a read of it and a write of 2, these two with the count still to update. */
  lemma BothAtTheCount(wrCntProt: bool, rdCntProt: bool) returns (s: State, steps: seq<Step>, r: State)
    ensures Initial(s) && s.wrCntProt == wrCntProt && s.rdCntProt == rdCntProt && InBuffer(s) && r == Run(s, steps)
    ensures r == State(wrCntProt, rdCntProt, [1, 2], 0, 1, 1, NoSide, Counting([2]), Releasing([1]),
                       [1], [], 0, Call(1, 1, 1))
  {
    hide Run, Next;
    s := State(wrCntProt, rdCntProt, [0, 0], 0, 0, 0, NoSide, WIdle, RIdle, [], [], 0, NO_CALL);
    RunNone(s);
    steps, r := WriteUpToCount(s, [], s, 1);
    assert r == State(wrCntProt, rdCntProt, [1, 0], 1, 0, 0, NoSide, Counting([1]), RIdle, [], [], 0, NO_CALL);
    CountOneWrite(r);
    steps, r := Extend(s, steps, r, WriterStep);
    steps, r := Extend(s, steps, r, WriterStep);
    steps, r := ReadUpToCount(s, steps, r);
    assert r == State(wrCntProt, rdCntProt, [1, 0], 1, 1, 1, NoSide, WIdle, Releasing([1]), [1], [], 0, Call(1, 1, 1));
    steps, r := WriteUpToCount(s, steps, r, 2);
    assert r.buf == [1, 2];
  }

  /** The two accesses of a writer that is alone at the count. */
  lemma CountOneWrite(s: State)
    requires InBuffer(s) && s.w.Counting? && s.inCritical == NoSide && s.nCount + |s.w.data| < 0x1_0000_0000
    ensures var a := Next(s, WriterStep);
            && a == s.(w := Adding(s.w.data, s.nCount), inCritical := if s.wrCntProt then WriterSide else NoSide)
            && Next(a, WriterStep) == s.(w := WIdle, nCount := s.nCount + |s.w.data|, accepted := s.accepted + s.w.data)
  {
  }

  /** The two accesses of a reader that is alone at the count. */
  lemma CountOneRead(s: State)
    requires InBuffer(s) && s.r.Releasing? && s.inCritical == NoSide && |s.r.got| <= s.nCount
    ensures var a := Next(s, ReaderStep);
            && a == s.(r := Subtracting(s.r.got, s.nCount), inCritical := if s.rdCntProt then ReaderSide else NoSide)
            && Next(a, ReaderStep) ==
               s.(r := RIdle, nCount := s.nCount - |s.r.got|, returned := s.returned + s.r.got, base := s.nRdIdx)
  {
  }

  lemma WriteOne(s: State, steps: seq<Step>, at: State, b: byte) returns (more: seq<Step>, r: State)
    requires InBuffer(s) && at == Run(s, steps)
    requires at.w == WIdle && at.nCount < |at.buf| && at.inCritical == NoSide
    ensures r == Run(s, more)
    ensures r == at.(buf := at.buf[at.nWrIdx := b], nWrIdx := Idx(at.nWrIdx, 1, |at.buf|),
                     nCount := at.nCount + 1, accepted := at.accepted + [b])
  {
    hide Run, Next;
    more, r := WriteUpToCount(s, steps, at, b);
    CountOneWrite(r);
    more, r := Extend(s, more, r, WriterStep);
    more, r := Extend(s, more, r, WriterStep);
  }

  lemma ReadOne(s: State, steps: seq<Step>, at: State) returns (more: seq<Step>, r: State)
    requires InBuffer(s) && at == Run(s, steps)
    requires at.r == RIdle && at.nCount > 0 && at.inCritical == NoSide
    ensures r == Run(s, more)
    ensures var next := Idx(at.nRdIdx, 1, |at.buf|);
            r == at.(nRdIdx := next, base := next, nCount := at.nCount - 1,
                     returned := at.returned + [at.buf[at.nRdIdx]], call := Call(1, at.nCount, at.nCount))
  {
    hide Run, Next;
    more, r := ReadUpToCount(s, steps, at);
    CountOneRead(r);
    more, r := Extend(s, more, r, ReaderStep);
    more, r := Extend(s, more, r, ReaderStep);
  }

  /** The writer adds to a count that the reader has changed meanwhile: one byte is returned twice. */
  lemma WriterUnprotected(rdCntProt: bool)
    ensures !Safe(false, rdCntProt)
  {
    hide Run;
    var s, steps, r := BothAtTheCount(false, rdCntProt);
    steps, r := Extend(s, steps, r, WriterStep);
    steps, r := Extend(s, steps, r, ReaderStep);
    steps, r := Extend(s, steps, r, ReaderStep);
    steps, r := Extend(s, steps, r, WriterStep);
    assert r == State(false, rdCntProt, [1, 2], 0, 1, 2, NoSide, WIdle, RIdle, [1, 2], [1], 1, Call(1, 1, 1));
    hide Next;
    steps, r := ReadOne(s, steps, r);
    steps, r := ReadOne(s, steps, r);
    assert |r.returned| == 3 && |r.accepted| == 2;
    assert !(Run(s, steps).returned <= Run(s, steps).accepted);
  }

  /** The reader takes off a count that the writer has changed meanwhile: an unread byte is overwritten. */
  lemma ReaderUnprotected(wrCntProt: bool)
    ensures !Safe(wrCntProt, false)
  {
    hide Run;
    var s, steps, r := BothAtTheCount(wrCntProt, false);
    steps, r := Extend(s, steps, r, ReaderStep);
    steps, r := Extend(s, steps, r, WriterStep);
    steps, r := Extend(s, steps, r, WriterStep);
    steps, r := Extend(s, steps, r, ReaderStep);
    assert r == State(wrCntProt, false, [1, 2], 0, 1, 0, NoSide, WIdle, RIdle, [1, 2], [1], 1, Call(1, 1, 1));
    hide Next;
    steps, r := WriteOne(s, steps, r, 3);
    steps, r := WriteOne(s, steps, r, 4);
    assert r.buf == [3, 4];
    steps, r := ReadOne(s, steps, r);
    assert r.returned[1] == 4 && r.accepted[1] == 2;
    assert !(Run(s, steps).returned <= Run(s, steps).accepted);
  }

  /** Both sides have to protect the count; then, in every interleaving, it is enough. */
  lemma SafeIffBothProtected(wrCntProt: bool, rdCntProt: bool)
    ensures Safe(wrCntProt, rdCntProt) <==> wrCntProt && rdCntProt
  {
    hide Run, Safe;
    if !wrCntProt {
      WriterUnprotected(rdCntProt);
    } else if !rdCntProt {
      ReaderUnprotected(wrCntProt);
    } else {
      BothProtected();
    }
  }

  lemma BothProtected()
    ensures Safe(true, true)
  {
    hide Run;
    forall s, steps: seq<Step> | Initial(s) && s.wrCntProt && s.rdCntProt
      ensures Run(s, steps).returned <= Run(s, steps).accepted
    {
      ProtectedIsSafe(s, steps);
    }
  }

  // ---------------------------------------------------------------- how much a read returns

  /** The number of bytes that the read in progress is going to return. */
  function Length(r: Reader): Option<nat> {
    match r
    case RIdle => None
    case Rereading(_) => None
    case Fetching(got, left, _) => Some(|got| + left)
    case Releasing(got) => Some(|got|)
    case Subtracting(got, _) => Some(|got|)
  }

  ghost predicate CallOk(s: State) {
    match Length(s.r)
    case Some(n) => n == if s.call.first < s.call.asked then s.call.second else s.call.asked
    case None => s.r.Rereading? ==> s.call.first < s.call.asked == s.r.n
  }

  lemma {:induction false} RunKeepsCall(s: State, steps: seq<Step>)
    requires InBuffer(s) && CallOk(s)
    ensures CallOk(Run(s, steps))
    decreases |steps|
  {
    if steps != [] {
      StaysInBuffer(s, steps[0]);
      StepKeepsCall(s, steps[0]);
      hide Next, CallOk;
      RunKeepsCall(Next(s, steps[0]), steps[1..]);
    }
  }

  lemma StepKeepsCall(s: State, step: Step)
    requires InBuffer(s) && CallOk(s)
    ensures CallOk(Next(s, step))
  {
  }

  /**
   In any run, protected or not: a read returns no more than was asked for iff it found that much at its
   first look at the count, or no more than that at its second.
   */
  lemma {:induction false} ReadKeepsToItsLengthIff(s: State, steps: seq<Step>)
    requires Initial(s)
    ensures var r := Run(s, steps);
            Length(r.r).Some? ==>
              (Length(r.r).value <= r.call.asked <==> r.call.first >= r.call.asked || r.call.second <= r.call.asked)
  {
    hide Run;
    RunKeepsCall(s, steps);
  }

  /** On a buffer of `size` bytes, with both counts protected, no read of `n` bytes ever returns more. */
  ghost predicate Contained(size: nat, n: nat) {
    forall s, steps: seq<Step> |
      Initial(s) && s.wrCntProt && s.rdCntProt && |s.buf| == size && Run(s, steps).call.asked == n ::
      var length := Length(Run(s, steps).r);
      length.Some? ==> length.value <= n
  }

  /** The rest of a copy loop. */
  lemma {:induction false} CopyAll(s: State, steps: seq<Step>, at: State) returns (more: seq<Step>, r: State)
    requires InBuffer(s) && at == Run(s, steps) && at.w.Copying?
    ensures r == Run(s, more) && |r.buf| == |at.buf|
    ensures r == at.(buf := r.buf, nWrIdx := r.nWrIdx, w := Counting(at.w.data))
    decreases |at.w.data| - at.w.done
  {
    hide Run;
    more, r := Extend(s, steps, at, WriterStep);
    if at.w.done < |at.w.data| {
      more, r := CopyAll(s, more, r);
    }
  }

  /** A read of `n` bytes finds none at first, and `n + 1` when it takes their number. */
  lemma ReadOverruns(size: nat, n: nat)
    requires 0 < n < size < 0x8000_0000
    ensures !Contained(size, n)
  {
    hide Run;
    var s := State(true, true, seq(size, _ => 0), 0, 0, 0, NoSide, WIdle, RIdle, [], [], 0, NO_CALL);
    RunNone(s);
    var data: seq<byte> := seq(n + 1, _ => 0);
    var steps, r := Extend(s, [], s, StartRead(n));
    steps, r := Extend(s, steps, r, StartWrite(data));
    steps, r := CopyAll(s, steps, r);
    CountOneWrite(r);
    steps, r := Extend(s, steps, r, WriterStep);
    steps, r := Extend(s, steps, r, WriterStep);
    steps, r := Extend(s, steps, r, ReaderStep);
    assert Run(s, steps).call == Call(n, 0, n + 1) && Length(Run(s, steps).r) == Some(n + 1);
  }

  /** A read stays inside its caller's buffer in every interleaving iff that is as large as the queue. */
  lemma ReadContainedIff(size: nat, n: nat)
    requires 0 < size < 0x8000_0000 && 0 < n
    ensures Contained(size, n) <==> n >= size
  {
    if n < size {
      ReadOverruns(size, n);
    } else {
      hide Run;
      forall s, steps: seq<Step> |
        Initial(s) && s.wrCntProt && s.rdCntProt && |s.buf| == size && Run(s, steps).call.asked == n
        ensures Length(Run(s, steps).r).Some? ==> Length(Run(s, steps).r).value <= n
      {
        assert Slice(s.buf, 0, 0) == [];
        RunKeepsInv(s, steps);
        RunKeepsSize(s, steps);
        ReadKeepsToItsLengthIff(s, steps);
      }
    }
  }

  lemma {:induction false} RunKeepsSize(s: State, steps: seq<Step>)
    requires InBuffer(s)
    ensures |Run(s, steps).buf| == |s.buf|
    decreases |steps|
  {
    if steps != [] {
      StaysInBuffer(s, steps[0]);
      RunKeepsSize(Next(s, steps[0]), steps[1..]);
    }
  }
}
