/**
 The transaction queue of a buffered interface, one direction of it: transactions are queued, loaded
 one at a time, committed piece by piece, flushed, and purged when their 31-bit deadline has passed.
 */
module BufIOQueues {
  import opened Common
  import opened Words

  type byte = x: int | 0 <= x < 256

  const OSAL_WAIT_INFINITE: uint32 := 0xffff_ffff

  // ---------------------------------------------------------------- deadlines

  /** Bit 31 says that a transaction never expires; the other bits are its deadline. */
  function ExpiryFor(timeout: uint32, ms: uint32): uint32 {
    if timeout == 0 || timeout == 0xffff_ffff then 0xffff_ffff else Wrap32(ms + timeout) % 0x8000_0000
  }

  predicate IsExpired(expiryTime: uint32, timeOrTicks: uint32) {
    var time := timeOrTicks % 0x8000_0000;
    expiryTime < 0x8000_0000 && Signed32(2 * Wrap32(expiryTime - time)) < 0
  }

  /** What the deadline stands for: none, or a time on the unbounded clock. */
  function DeadlineFor(timeout: uint32, now: int): Option<int> {
    if timeout == 0 || timeout == 0xffff_ffff then None else Some(now + timeout)
  }

  predicate Encodes(expiryTime: uint32, deadline: Option<int>) {
    match deadline
    case None => expiryTime == 0xffff_ffff
    case Some(d) => expiryTime == d % 0x8000_0000
  }

  predicate HasPassed(deadline: Option<int>, now: int) {
    deadline.Some? && deadline.value < now
  }

  lemma Mod31OfWrap(x: int)
    ensures Wrap32(x) % 0x8000_0000 == x % 0x8000_0000
  {
    var q := WrapOf(x);
    var w := Wrap32(x);
    Mod31Unique(x, w % 0x8000_0000, w / 0x8000_0000 + 2 * q);
  }

  lemma Mod31Unique(x: int, r: int, q: int)
    requires x == r + 0x8000_0000 * q && 0 <= r < 0x8000_0000
    ensures x % 0x8000_0000 == r
  {
  }

  lemma ExpiryEncodes(timeout: uint32, now: int)
    ensures Encodes(ExpiryFor(timeout, Wrap32(now)), DeadlineFor(timeout, now))
  {
    WrapAddsUp(now, timeout);
    Mod31OfWrap(now + timeout);
  }

  /** The doubled difference of two 31-bit times is negative iff they are half the range apart or more. */
  lemma DoubledDifference(e: int, t: int)
    requires 0 <= e < 0x8000_0000 && 0 <= t < 0x8000_0000
    ensures Signed32(2 * Wrap32(e - t)) < 0 <==> (e - t) % 0x8000_0000 >= 0x4000_0000
  {
    var d := e - t;
    if d >= 0 {
      assert Wrap32(d) == d;
    } else {
      assert Wrap32(d) == d + 0x1_0000_0000 && d % 0x8000_0000 == d + 0x8000_0000;
    }
  }

  predicate JudgedRightly(expiryTime: uint32, deadline: Option<int>, now: int) {
    IsExpired(expiryTime, Wrap32(now)) <==> HasPassed(deadline, now)
  }

  /** Where a deadline is judged rightly: modulo 2^31 it lies in the half of the circle that its side of `now` owns. */
  predicate OnItsHalf(deadline: Option<int>, now: int) {
    deadline.Some? ==> (deadline.value < now <==> (deadline.value - now) % 0x8000_0000 >= 0x4000_0000)
  }

  lemma ExpiryIs(expiryTime: uint32, deadline: Option<int>, now: int)
    requires Encodes(expiryTime, deadline)
    ensures IsExpired(expiryTime, Wrap32(now)) <==>
            deadline.Some? && (deadline.value - now) % 0x8000_0000 >= 0x4000_0000
  {
    if deadline.Some? {
      var e, t, diff := expiryTime, now % 0x8000_0000, deadline.value - now;
      Mod31OfWrap(now);
      DoubledDifference(e, t);
      var q := deadline.value / 0x8000_0000 - now / 0x8000_0000;
      assert diff == (e - t) + 0x8000_0000 * q;
      Mod31Sum(diff, e - t, q);
    }
  }

  /**
   Exactly which deadlines are judged rightly: all that are at most 2^30 away, and of the others those
   whose distance happens to fall on the right half of the 31-bit circle.
   */
  lemma ExpiryIsExact(expiryTime: uint32, deadline: Option<int>, now: int)
    requires Encodes(expiryTime, deadline)
    ensures JudgedRightly(expiryTime, deadline, now) <==> OnItsHalf(deadline, now)
    ensures (deadline.Some? ==> -0x4000_0000 <= deadline.value - now < 0x4000_0000) ==> OnItsHalf(deadline, now)
  {
    ExpiryIs(expiryTime, deadline, now);
    if deadline.Some? {
      var diff := deadline.value - now;
      if 0 <= diff < 0x4000_0000 {
        Mod31Unique(diff, diff, 0);
      } else if -0x4000_0000 <= diff < 0 {
        Mod31Unique(diff, diff + 0x8000_0000, -1);
      }
    }
  }

  /**
   A timeout is kept, from the moment it is given until 2^30 after its end, iff it is none or shorter
   than 2^30. A longer one is taken for over while 2^30 or more of it are left.
   */
  lemma TimeoutIsKept(timeout: uint32, start: int)
    ensures (forall now | start <= now <= start + timeout + 0x4000_0000 ::
               JudgedRightly(ExpiryFor(timeout, Wrap32(start)), DeadlineFor(timeout, start), now))
            <==> timeout == 0 || timeout == 0xffff_ffff || timeout < 0x4000_0000
  {
    var e, d := ExpiryFor(timeout, Wrap32(start)), DeadlineFor(timeout, start);
    ExpiryEncodes(timeout, start);
    hide ExpiryFor, IsExpired, Wrap32;
    if d.None? || timeout < 0x4000_0000 {
      forall now | start <= now <= start + timeout + 0x4000_0000
        ensures JudgedRightly(e, d, now)
      {
        ExpiryIsExact(e, d, now);
      }
    } else {
      var now := start + timeout - 0x4000_0000;
      ExpiryIsExact(e, d, now);
      assert !JudgedRightly(e, d, now);
    }
  }

  lemma Mod31Sum(a: int, b: int, q: int)
    requires a == b + 0x8000_0000 * q
    ensures a % 0x8000_0000 == b % 0x8000_0000
  {
    Mod31Unique(a, b % 0x8000_0000, b / 0x8000_0000 + q);
  }

  // ---------------------------------------------------------------- one direction as a value

  /** A transaction; `ticket` numbers the accepted ones, `deadline` is what `expiryTime` stands for. */
  datatype Trans = Trans(ticket: nat, payload: seq<byte>, transferred: nat, expiryTime: uint32, deadline: Option<int>)

  datatype Lane = Lane(
    queue: seq<Trans>, curr: Option<Trans>,
    started: seq<Trans>,            // taken out of curr, in that order, as they were then
    leaving: seq<Trans>,            // taken out or purged, with their callback still to be made
    completed: seq<Trans>,          // callbacks made, in order
    handed: seq<Trans>,             // completed without a callback, which is then the driver's to make
    wire: seq<byte>,                // what the driver has committed
    tickets: nat)

  const EMPTY := Lane([], None, [], [], [], [], [], 0)

  /** The transaction as it is accepted: the code sees the low word of the time. */
  function Accepted(t: Trans, ticket: nat, timeout: uint32, now: int): Trans {
    t.(ticket := ticket, expiryTime := ExpiryFor(timeout, Wrap32(now)), deadline := DeadlineFor(timeout, now))
  }

  function Queued(s: Lane, t: Trans, timeout: uint32, now: int): Lane {
    if t.payload == [] then s
    else s.(queue := s.queue + [Accepted(t, s.tickets, timeout, now)], tickets := s.tickets + 1)
  }

  function Loaded(s: Lane): Lane {
    if s.curr.None? && s.queue != [] then s.(curr := Some(s.queue[0].(transferred := 0)), queue := s.queue[1..]) else s
  }

  /** The part of a commit or flush that takes the current transaction out. */
  function TakenOut(s: Lane, callback: bool): Lane
    requires s.curr.Some?
  {
    var t := s.curr.value;
    var r := s.(curr := None, started := s.started + [t]);
    if callback then r.(leaving := s.leaving + [t]) else r.(handed := s.handed + [t])
  }

  /** A callback is made, outside every critical section. */
  function CalledBack(s: Lane, i: nat): Lane
    requires i < |s.leaving|
  {
    s.(leaving := s.leaving[..i] + s.leaving[i + 1..], completed := s.completed + [s.leaving[i]])
  }

  function Committed(s: Lane, len: nat, callback: bool, forceCompleted: bool): Lane
    requires s.curr.Some? ==> s.curr.value.transferred + len <= |s.curr.value.payload|
  {
    if s.curr.None? then s
    else
      var t := s.curr.value;
      var r := s.(curr := Some(t.(transferred := t.transferred + len)),
                  wire := s.wire + t.payload[t.transferred..t.transferred + len]);
      if forceCompleted || t.transferred + len >= |t.payload| then TakenOut(r, callback) else r
  }

  function Flushed(s: Lane): Lane {
    if s.curr.None? then s else TakenOut(s, true)
  }

  predicate Goes(t: Trans, purgeAll: bool, ms: uint32) {
    purgeAll || IsExpired(t.expiryTime, ms)
  }

  function Kept(queue: seq<Trans>, purgeAll: bool, ms: uint32): (r: seq<Trans>)
    ensures forall t | t in r :: t in queue
  {
    if queue == [] then []
    else (if Goes(queue[0], purgeAll, ms) then [] else [queue[0]]) + Kept(queue[1..], purgeAll, ms)
  }

  function Gone(queue: seq<Trans>, purgeAll: bool, ms: uint32): seq<Trans> {
    if queue == [] then []
    else (if Goes(queue[0], purgeAll, ms) then [queue[0]] else []) + Gone(queue[1..], purgeAll, ms)
  }

  /** The critical section of a purge; the callbacks of what is gone come later. */
  function PurgedQueue(s: Lane, purgeAll: bool, now: int): Lane {
    s.(queue := Kept(s.queue, purgeAll, Wrap32(now)), leaving := s.leaving + Gone(s.queue, purgeAll, Wrap32(now)))
  }

  /** Critical sections and callbacks; the flush of a purge is a flush like any other. */
  datatype Op =
    | Queue(t: Trans, timeout: uint32, now: int)
    | Load
    | Commit(len: nat, callback: bool, forceCompleted: bool)
    | Flush
    | PurgeQueue(purgeAll: bool, now: int)
    | CallBack(i: nat)

  /** A driver commits no more than what is left. */
  predicate Allowed(s: Lane, op: Op) {
    && (op.Commit? && s.curr.Some? ==> s.curr.value.transferred + op.len <= |s.curr.value.payload|)
    && (op.CallBack? ==> op.i < |s.leaving|)
  }

  function Next(s: Lane, op: Op): Lane
    requires Allowed(s, op)
  {
    match op
    case Queue(t, timeout, now) => Queued(s, t, timeout, now)
    case Load => Loaded(s)
    case Commit(len, callback, forceCompleted) => Committed(s, len, callback, forceCompleted)
    case Flush => Flushed(s)
    case PurgeQueue(purgeAll, now) => PurgedQueue(s, purgeAll, now)
    case CallBack(i) => CalledBack(s, i)
  }

  // ---------------------------------------------------------------- what every run keeps

  function Current(s: Lane): seq<Trans> {
    if s.curr.Some? then [s.curr.value] else []
  }

  function TicketsOf(s: seq<Trans>): seq<nat> {
    if s == [] then [] else [s[0].ticket] + TicketsOf(s[1..])
  }

  function Count(s: seq<Trans>, ticket: nat): nat {
    if s == [] then 0 else (if s[0].ticket == ticket then 1 else 0) + Count(s[1..], ticket)
  }

  /** How often a ticket is in the queue, in work, on its way out, called back or handed to the driver. */
  function Places(s: Lane, ticket: nat): nat {
    Count(s.queue, ticket) + Count(Current(s), ticket) + Count(s.leaving, ticket)
    + Count(s.completed, ticket) + Count(s.handed, ticket)
  }

  /** Started, current and queued transactions, in their order. */
  function Line(s: Lane): seq<nat> {
    TicketsOf(s.started) + TicketsOf(Current(s)) + TicketsOf(s.queue)
  }

  predicate Increasing(s: seq<nat>) {
    forall i, j | 0 <= i < j < |s| :: s[i] < s[j]
  }

  ghost predicate WithinPayload(s: seq<Trans>) {
    forall t | t in s :: t.transferred <= |t.payload|
  }

  function Sent(s: seq<Trans>): seq<byte> {
    if s == [] then []
    else
      var t := s[|s| - 1];
      Sent(s[..|s| - 1]) + if t.transferred <= |t.payload| then t.payload[..t.transferred] else t.payload
  }

  /** Every accepted transaction is in exactly one place. */
  ghost predicate Conserved(s: Lane) {
    forall k: nat :: Places(s, k) == if k < s.tickets then 1 else 0
  }

  /** Nobody overtakes. */
  ghost predicate InLine(s: Lane) {
    Increasing(Line(s)) && AllBelow(Line(s), s.tickets)
  }

  ghost predicate AllBelow(s: seq<nat>, n: nat) {
    forall k | k in s :: k < n
  }

  ghost predicate NoneEmpty(s: seq<Trans>) {
    forall t | t in s :: t.payload != []
  }

  /** The bytes committed are what the started transactions say they have transferred. */
  ghost predicate WireIsSent(s: Lane) {
    && NoneEmpty(s.queue) && WithinPayload(s.started + Current(s))
    && s.wire == Sent(s.started + Current(s))
  }

  ghost predicate Inv(s: Lane) {
    Conserved(s) && InLine(s) && WireIsSent(s) && (s.curr.Some? ==> s.curr.value.transferred < |s.curr.value.payload|)
  }

  lemma {:induction false} TicketsConcat(a: seq<Trans>, b: seq<Trans>)
    ensures TicketsOf(a + b) == TicketsOf(a) + TicketsOf(b)
    decreases |a|
  {
    if a == [] {
      assert a + b == b;
    } else {
      assert (a + b)[1..] == a[1..] + b;
      TicketsConcat(a[1..], b);
    }
  }

  lemma {:induction false} CountConcat(a: seq<Trans>, b: seq<Trans>, k: nat)
    ensures Count(a + b, k) == Count(a, k) + Count(b, k)
    decreases |a|
  {
    if a == [] {
      assert a + b == b;
    } else {
      assert (a + b)[1..] == a[1..] + b;
      CountConcat(a[1..], b, k);
    }
  }

  lemma OneTrans(t: Trans, k: nat)
    ensures TicketsOf([t]) == [t.ticket] && Count([t], k) == if t.ticket == k then 1 else 0
    ensures TicketsOf([]) == [] && Count([], k) == 0
  {
  }

  lemma SentOneMore(s: seq<Trans>, t: Trans)
    requires t.transferred <= |t.payload|
    ensures Sent(s + [t]) == Sent(s) + t.payload[..t.transferred]
    ensures WithinPayload(s) <==> WithinPayload(s + [t])
  {
    assert (s + [t])[..|s|] == s;
    assert forall x | x in s :: x in s + [t];
  }

  lemma IncreasingSnoc(s: seq<nat>, x: nat)
    requires Increasing(s) && AllBelow(s, x)
    ensures Increasing(s + [x]) && AllBelow(s + [x], x + 1)
  {
    forall i | 0 <= i < |s|
      ensures s[i] < x
    {
      assert s[i] in s;
    }
  }

  lemma SnocAssociates(a: seq<nat>, b: seq<nat>, c: seq<nat>, x: nat)
    ensures a + b + (c + [x]) == a + b + c + [x]
  {
  }

  lemma SkipOne(a: seq<nat>, x: nat, b: seq<nat>)
    requires Increasing(a + ([x] + b))
    ensures Increasing(a + b)
  {
    var s := a + ([x] + b);
    forall i, j | 0 <= i < j < |a + b|
      ensures (a + b)[i] < (a + b)[j]
    {
      assert (a + b)[i] == s[if i < |a| then i else i + 1] && (a + b)[j] == s[if j < |a| then j else j + 1];
    }
  }

  lemma PurgeStep(queue: seq<Trans>, purgeAll: bool, ms: uint32)
    requires queue != []
    ensures var t, rest := queue[0], queue[1..];
            && queue == [t] + rest
            && Kept(queue, purgeAll, ms) ==
               (if Goes(t, purgeAll, ms) then Kept(rest, purgeAll, ms) else [t] + Kept(rest, purgeAll, ms))
            && Gone(queue, purgeAll, ms) ==
               (if Goes(t, purgeAll, ms) then [t] + Gone(rest, purgeAll, ms) else Gone(rest, purgeAll, ms))
  {
  }

  /** A purge splits the queue. */
  lemma {:induction false} PurgeSplits(queue: seq<Trans>, purgeAll: bool, ms: uint32, k: nat)
    ensures Count(queue, k) == Count(Kept(queue, purgeAll, ms), k) + Count(Gone(queue, purgeAll, ms), k)
  {
    if queue != [] {
      var t, rest := queue[0], queue[1..];
      hide Kept, Gone, Goes;
      PurgeStep(queue, purgeAll, ms);
      PurgeSplits(rest, purgeAll, ms, k);
      CountConcat([t], Kept(rest, purgeAll, ms), k);
      CountConcat([t], Gone(rest, purgeAll, ms), k);
    }
  }

  lemma FrontAssociates(a: seq<nat>, x: nat, b: seq<nat>)
    ensures a + ([x] + b) == a + [x] + b
  {
  }

  lemma BelowConcat(a: seq<nat>, b: seq<nat>, n: nat)
    ensures AllBelow(a + b, n) <==> AllBelow(a, n) && AllBelow(b, n)
  {
    assert (forall k | k in a :: k in a + b) && forall k | k in b :: k in a + b;
  }

  lemma PurgeStepTickets(queue: seq<Trans>, purgeAll: bool, ms: uint32)
    requires queue != []
    ensures var t, rest := queue[0], queue[1..];
            var kept := TicketsOf(Kept(rest, purgeAll, ms));
            && TicketsOf(queue) == [t.ticket] + TicketsOf(rest)
            && TicketsOf(Kept(queue, purgeAll, ms)) == if Goes(t, purgeAll, ms) then kept else [t.ticket] + kept
  {
    hide TicketsOf, Kept, Gone, Goes;
    PurgeStep(queue, purgeAll, ms);
    TicketsConcat([queue[0]], queue[1..]);
    TicketsConcat([queue[0]], Kept(queue[1..], purgeAll, ms));
    OneTrans(queue[0], 0);
  }

  /** What a purge keeps stays in order. */
  lemma {:induction false} PurgeKeepsOrder(front: seq<nat>, queue: seq<Trans>, purgeAll: bool, ms: uint32, n: nat)
    requires Increasing(front + TicketsOf(queue)) && AllBelow(TicketsOf(queue), n)
    ensures Increasing(front + TicketsOf(Kept(queue, purgeAll, ms)))
            && AllBelow(TicketsOf(Kept(queue, purgeAll, ms)), n)
    decreases |queue|
  {
    if queue != [] {
      hide TicketsOf, Kept, Increasing, AllBelow, Goes;
      var t, rest := queue[0], queue[1..];
      var kept := TicketsOf(Kept(rest, purgeAll, ms));
      PurgeStepTickets(queue, purgeAll, ms);
      BelowConcat([t.ticket], TicketsOf(rest), n);
      BelowConcat([t.ticket], kept, n);
      if Goes(t, purgeAll, ms) {
        SkipOne(front, t.ticket, TicketsOf(rest));
        PurgeKeepsOrder(front, rest, purgeAll, ms, n);
      } else {
        FrontAssociates(front, t.ticket, TicketsOf(rest));
        PurgeKeepsOrder(front + [t.ticket], rest, purgeAll, ms, n);
        FrontAssociates(front, t.ticket, kept);
      }
    }
  }

  /** The parts that the invariant is made of, for lemmas that do not look inside. */
  lemma PartsOf(s: Lane, k: nat)
    ensures Places(s, k) ==
            Count(s.queue, k) + Count(Current(s), k) + Count(s.leaving, k) + Count(s.completed, k) + Count(s.handed, k)
    ensures Line(s) == TicketsOf(s.started) + TicketsOf(Current(s)) + TicketsOf(s.queue)
    ensures s.curr.None? ==> Current(s) == [] && TicketsOf(Current(s)) == [] && Count(Current(s), k) == 0
    ensures s.curr.Some? ==> Current(s) == [s.curr.value] && TicketsOf(Current(s)) == [s.curr.value.ticket]
                             && Count(Current(s), k) == if s.curr.value.ticket == k then 1 else 0
  {
  }

  lemma QueuedPlaces(s: Lane, t: Trans, k: nat)
    requires t.ticket == s.tickets
    ensures var r := s.(queue := s.queue + [t], tickets := s.tickets + 1);
            && Places(r, k) == Places(s, k) + (if k == s.tickets then 1 else 0)
            && Line(r) == Line(s) + [s.tickets]
  {
    var r := s.(queue := s.queue + [t], tickets := s.tickets + 1);
    hide TicketsOf, Count, Places, Line;
    PartsOf(s, k);
    PartsOf(r, k);
    CountConcat(s.queue, [t], k);
    TicketsConcat(s.queue, [t]);
    OneTrans(t, k);
    SnocAssociates(TicketsOf(s.started), TicketsOf(Current(s)), TicketsOf(s.queue), s.tickets);
  }

  lemma KeepQueued(s: Lane, t: Trans, timeout: uint32, now: int)
    requires Inv(s)
    ensures Inv(Queued(s, t, timeout, now))
  {
    if t.payload != [] {
      hide TicketsOf, Count, Places, Line, Increasing, AllBelow, ExpiryFor, DeadlineFor, Wrap32, Sent, WithinPayload;
      var q := Accepted(t, s.tickets, timeout, now);
      forall k: nat
        ensures Places(Queued(s, t, timeout, now), k) == Places(s, k) + (if k == s.tickets then 1 else 0)
        ensures Line(Queued(s, t, timeout, now)) == Line(s) + [s.tickets]
      {
        QueuedPlaces(s, q, k);
      }
      QueuedPlaces(s, q, 0);
      IncreasingSnoc(Line(s), s.tickets);
    }
  }

  lemma LoadedPlaces(s: Lane, k: nat)
    requires s.curr.None? && s.queue != []
    ensures Places(Loaded(s), k) == Places(s, k) && Line(Loaded(s)) == Line(s)
  {
    hide TicketsOf, Count, Places, Line;
    var r := Loaded(s);
    PartsOf(s, k);
    PartsOf(r, k);
    assert s.queue == [s.queue[0]] + s.queue[1..];
    CountConcat([s.queue[0]], s.queue[1..], k);
    TicketsConcat([s.queue[0]], s.queue[1..]);
    OneTrans(s.queue[0], k);
    SnocEmpty(TicketsOf(s.started), s.queue[0].ticket, TicketsOf(s.queue[1..]));
  }

  lemma SnocEmpty(a: seq<nat>, x: nat, b: seq<nat>)
    ensures a + [] + ([x] + b) == a + [x] + b
    ensures a + [x] + [] + b == a + [x] + b
  {
  }

  lemma KeepLoaded(s: Lane)
    requires Inv(s)
    ensures Inv(Loaded(s))
  {
    if s.curr.None? && s.queue != [] {
      hide TicketsOf, Count, Places, Line, Increasing, AllBelow, Sent, WithinPayload;
      var r := Loaded(s);
      forall k: nat
        ensures Places(r, k) == Places(s, k)
      {
        LoadedPlaces(s, k);
      }
      LoadedPlaces(s, 0);
      PartsOf(s, 0);
      PartsOf(r, 0);
      assert s.started + [] == s.started;
      SentOneMore(s.started, r.curr.value);
    }
  }

  lemma TakenOutPlaces(s: Lane, callback: bool, k: nat)
    requires s.curr.Some?
    ensures var r := TakenOut(s, callback);
            Places(r, k) == Places(s, k) && Line(r) == Line(s) && r.started + Current(r) == s.started + Current(s)
  {
    var t, r := s.curr.value, TakenOut(s, callback);
    hide TicketsOf, Count, Places, Line;
    PartsOf(s, k);
    PartsOf(r, k);
    TicketsConcat(s.started, [t]);
    CountConcat(s.leaving, [t], k);
    CountConcat(s.handed, [t], k);
    OneTrans(t, k);
    SnocEmpty(TicketsOf(s.started), t.ticket, TicketsOf(s.queue));
  }

  lemma KeepTakenOut(s: Lane, callback: bool)
    requires s.curr.Some? && Conserved(s) && InLine(s) && WireIsSent(s)
    ensures Inv(TakenOut(s, callback))
  {
    hide TicketsOf, Count, Places, Line, Increasing, AllBelow, Sent, WithinPayload;
    var r := TakenOut(s, callback);
    forall k: nat
      ensures Places(r, k) == Places(s, k)
    {
      TakenOutPlaces(s, callback, k);
    }
    TakenOutPlaces(s, callback, 0);
  }

  /** The current transaction has made progress. */
  function Progressed(s: Lane, len: nat): Lane
    requires s.curr.Some? && s.curr.value.transferred + len <= |s.curr.value.payload|
  {
    var t := s.curr.value;
    s.(curr := Some(t.(transferred := t.transferred + len)),
      wire := s.wire + t.payload[t.transferred..t.transferred + len])
  }

  lemma KeepProgressed(s: Lane, len: nat)
    requires Inv(s) && s.curr.Some? && s.curr.value.transferred + len <= |s.curr.value.payload|
    ensures var r := Progressed(s, len); Conserved(r) && InLine(r) && WireIsSent(r)
  {
    hide TicketsOf, Count, Places, Line, Increasing, AllBelow, Sent, WithinPayload;
    var t, r := s.curr.value, Progressed(s, len);
    forall k: nat
      ensures Places(r, k) == Places(s, k) && Line(r) == Line(s)
    {
      PartsOf(s, k);
      PartsOf(r, k);
    }
    PartsOf(s, 0);
    PartsOf(r, 0);
    SentOneMore(s.started, t);
    SentOneMore(s.started, r.curr.value);
    assert t.payload[..t.transferred + len] ==
           t.payload[..t.transferred] + t.payload[t.transferred..t.transferred + len];
    assert Places(r, 0) == Places(s, 0) && Line(r) == Line(s);
  }

  lemma KeepCommitted(s: Lane, len: nat, callback: bool, forceCompleted: bool)
    requires Inv(s) && (s.curr.Some? ==> s.curr.value.transferred + len <= |s.curr.value.payload|)
    ensures Inv(Committed(s, len, callback, forceCompleted))
  {
    if s.curr.Some? {
      KeepProgressed(s, len);
      var r := Progressed(s, len);
      hide Conserved, InLine, WireIsSent;
      if forceCompleted || r.curr.value.transferred >= |r.curr.value.payload| {
        KeepTakenOut(r, callback);
      }
    }
  }

  lemma PurgedPlaces(s: Lane, purgeAll: bool, now: int, k: nat)
    ensures Places(PurgedQueue(s, purgeAll, now), k) == Places(s, k)
  {
    hide TicketsOf, Count, Places, Line, Kept, Gone, Wrap32;
    PartsOf(s, k);
    PartsOf(PurgedQueue(s, purgeAll, now), k);
    PurgeSplits(s.queue, purgeAll, Wrap32(now), k);
    CountConcat(s.leaving, Gone(s.queue, purgeAll, Wrap32(now)), k);
  }

  lemma KeepPurged(s: Lane, purgeAll: bool, now: int)
    requires Inv(s)
    ensures Inv(PurgedQueue(s, purgeAll, now))
  {
    hide TicketsOf, Count, Places, Line, Increasing, AllBelow, Sent, WithinPayload, Kept, Gone, Wrap32;
    var r := PurgedQueue(s, purgeAll, now);
    forall k: nat
      ensures Places(r, k) == Places(s, k)
    {
      PurgedPlaces(s, purgeAll, now, k);
    }
    PartsOf(s, 0);
    PartsOf(r, 0);
    var front := TicketsOf(s.started) + TicketsOf(Current(s));
    BelowConcat(front, TicketsOf(s.queue), s.tickets);
    PurgeKeepsOrder(front, s.queue, purgeAll, Wrap32(now), s.tickets);
    BelowConcat(front, TicketsOf(r.queue), s.tickets);
  }

  lemma CalledBackPlaces(s: Lane, i: nat, k: nat)
    requires i < |s.leaving|
    ensures Places(CalledBack(s, i), k) == Places(s, k) && Line(CalledBack(s, i)) == Line(s)
  {
    var r, t := CalledBack(s, i), s.leaving[i];
    hide TicketsOf, Count, Places, Line;
    PartsOf(s, k);
    PartsOf(r, k);
    assert s.leaving == s.leaving[..i] + [t] + s.leaving[i + 1..];
    CountConcat(s.leaving[..i] + [t], s.leaving[i + 1..], k);
    CountConcat(s.leaving[..i], [t], k);
    CountConcat(s.leaving[..i], s.leaving[i + 1..], k);
    CountConcat(s.completed, [t], k);
    OneTrans(t, k);
  }

  lemma KeepCalledBack(s: Lane, i: nat)
    requires Inv(s) && i < |s.leaving|
    ensures Inv(CalledBack(s, i))
  {
    hide TicketsOf, Count, Places, Line, Increasing, AllBelow, Sent, WithinPayload;
    forall k: nat
      ensures Places(CalledBack(s, i), k) == Places(s, k)
    {
      CalledBackPlaces(s, i, k);
    }
    CalledBackPlaces(s, i, 0);
  }

  lemma StepKeepsInv(s: Lane, op: Op)
    requires Inv(s) && Allowed(s, op)
    ensures Inv(Next(s, op))
  {
    hide Inv;
    match op {
      case Queue(t, timeout, now) => KeepQueued(s, t, timeout, now);
      case Load => KeepLoaded(s);
      case Commit(len, callback, forceCompleted) => KeepCommitted(s, len, callback, forceCompleted);
      case Flush => if s.curr.Some? { KeepFlushed(s); }
      case PurgeQueue(purgeAll, now) => KeepPurged(s, purgeAll, now);
      case CallBack(i) => KeepCalledBack(s, i);
    }
  }

  lemma KeepFlushed(s: Lane)
    requires Inv(s) && s.curr.Some?
    ensures Inv(TakenOut(s, true))
  {
    hide Conserved, InLine, WireIsSent;
    KeepTakenOut(s, true);
  }

  // ---------------------------------------------------------------- whole runs

  ghost predicate Reaches(s: Lane, ops: seq<Op>, r: Lane)
    decreases |ops|
  {
    if ops == [] then r == s else Allowed(s, ops[0]) && Reaches(Next(s, ops[0]), ops[1..], r)
  }

  lemma {:induction false} RunKeepsInv(s: Lane, ops: seq<Op>, r: Lane)
    requires Inv(s) && Reaches(s, ops, r)
    ensures Inv(r)
    decreases |ops|
  {
    hide Inv, Next;
    if ops != [] {
      StepKeepsInv(s, ops[0]);
      RunKeepsInv(Next(s, ops[0]), ops[1..], r);
    }
  }

  /**
   After any run: every accepted transaction is in the queue, current, on its way to its callback,
   called back or handed to the driver, exactly once in all; started, current and queued ones stand in
   the order in which they were accepted; and the wire carries, in that order, of each started
   transaction the prefix it says it has transferred.
   */
  lemma {:induction false} TransactionsConserved(ops: seq<Op>, s: Lane)
    requires Reaches(EMPTY, ops, s)
    ensures forall k: nat :: Places(s, k) == if k < s.tickets then 1 else 0
    ensures Increasing(Line(s)) && s.wire == Sent(s.started + Current(s)) && WithinPayload(s.started + Current(s))
  {
    EmptyIsFine();
    hide *;
    RunKeepsInv(EMPTY, ops, s);
    InvParts(s);
  }

  lemma EmptyIsFine()
    ensures Inv(EMPTY) && Encoded(EMPTY)
  {
    assert Line(EMPTY) == [];
  }

  lemma InvParts(s: Lane)
    requires Inv(s)
    ensures forall k: nat :: Places(s, k) == if k < s.tickets then 1 else 0
    ensures Increasing(Line(s)) && s.wire == Sent(s.started + Current(s)) && WithinPayload(s.started + Current(s))
  {
    hide Places, Line, Sent, WithinPayload, Increasing, AllBelow;
  }

  // ---------------------------------------------------------------- what is cut short

  /** The transaction that a step takes out before all of it was sent. */
  function CutBy(s: Lane, op: Op): set<nat> {
    match op
    case Flush => if s.curr.Some? then {s.curr.value.ticket} else {}
    case Commit(len, _, forceCompleted) =>
      if s.curr.Some? && forceCompleted && s.curr.value.transferred + len < |s.curr.value.payload|
      then {s.curr.value.ticket} else {}
    case _ => {}
  }

  /** Those that were current at a flush, a purge's own included, or at a commit that was forced early. */
  function Cut(s: Lane, ops: seq<Op>): set<nat>
    decreases |ops|
  {
    if ops == [] || !Allowed(s, ops[0]) then {} else CutBy(s, ops[0]) + Cut(Next(s, ops[0]), ops[1..])
  }

  ghost predicate WholeUnlessIn(s: Lane, cut: set<nat>) {
    && (forall t | t in s.started :: t.transferred < |t.payload| <==> t.ticket in cut)
    && (forall k | k in cut :: k in TicketsOf(s.started))
  }

  lemma {:induction false} TicketListed(s: seq<Trans>, t: Trans)
    requires t in s
    ensures t.ticket in TicketsOf(s)
  {
    if s[0] != t {
      TicketListed(s[1..], t);
    }
  }

  /** The current transaction's ticket is none of those started. */
  lemma CurrentIsNew(s: Lane)
    requires Inv(s) && s.curr.Some?
    ensures s.curr.value.ticket !in TicketsOf(s.started)
    ensures forall t | t in s.started :: t.ticket != s.curr.value.ticket
  {
    hide TicketsOf, Places, Count, Sent, WithinPayload, AllBelow;
    PartsOf(s, 0);
    var a, c := TicketsOf(s.started), s.curr.value.ticket;
    assert Line(s) == a + [c] + TicketsOf(s.queue);
    forall i | 0 <= i < |a|
      ensures a[i] != c
    {
      assert Line(s)[i] == a[i] && Line(s)[|a|] == c;
    }
    forall t | t in s.started
      ensures t.ticket != c
    {
      TicketListed(s.started, t);
    }
  }

  /** Taking the current transaction out cuts it iff it is not sent whole. */
  lemma TakenOutWhole(s: Lane, r: Lane, t: Trans, cut: set<nat>, more: set<nat>)
    requires WholeUnlessIn(s, cut) && r.started == s.started + [t] && t.ticket !in TicketsOf(s.started)
    requires (forall x | x in s.started :: x.ticket != t.ticket) && t.transferred <= |t.payload|
    requires more == if t.transferred < |t.payload| then {t.ticket} else {}
    ensures WholeUnlessIn(r, cut + more)
  {
    hide TicketsOf;
    TicketsConcat(s.started, [t]);
    OneTrans(t, 0);
  }

  lemma StepKeepsWhole(s: Lane, op: Op, cut: set<nat>)
    requires Inv(s) && Allowed(s, op) && WholeUnlessIn(s, cut)
    ensures WholeUnlessIn(Next(s, op), cut + CutBy(s, op))
  {
    hide Inv, TicketsOf, WholeUnlessIn, Kept, Gone, Accepted;
    InvBounds(s);
    var r := Next(s, op);
    if s.curr.Some? && r.curr.None? {
      CurrentIsNew(s);
      var t := r.started[|s.started|];
      TakenOutWhole(s, r, t, cut, CutBy(s, op));
    } else {
      SameStarted(s, r, cut);
      assert cut + CutBy(s, op) == cut;
    }
  }

  lemma InvBounds(s: Lane)
    requires Inv(s)
    ensures s.curr.Some? ==> s.curr.value.transferred < |s.curr.value.payload|
  {
  }

  lemma SameStarted(s: Lane, r: Lane, cut: set<nat>)
    requires WholeUnlessIn(s, cut) && r.started == s.started
    ensures WholeUnlessIn(r, cut)
  {
  }

  lemma {:induction false} RunKeepsWhole(s: Lane, ops: seq<Op>, r: Lane, cut: set<nat>)
    requires Inv(s) && Reaches(s, ops, r) && WholeUnlessIn(s, cut)
    ensures WholeUnlessIn(r, cut + Cut(s, ops))
    decreases |ops|
  {
    hide Inv, Next, WholeUnlessIn, CutBy;
    if ops == [] {
      assert cut + {} == cut;
    } else {
      StepKeepsInv(s, ops[0]);
      StepKeepsWhole(s, ops[0], cut);
      RunKeepsWhole(Next(s, ops[0]), ops[1..], r, cut + CutBy(s, ops[0]));
      assert cut + CutBy(s, ops[0]) + Cut(Next(s, ops[0]), ops[1..]) == cut + Cut(s, ops);
    }
  }

  /** After any run a transaction that was taken out of work was sent whole iff no flush and no early commit cut it. */
  lemma {:induction false} WholeUnlessCut(ops: seq<Op>, s: Lane)
    requires Reaches(EMPTY, ops, s)
    ensures forall t | t in s.started :: t.transferred <= |t.payload|
    ensures forall t | t in s.started :: t.transferred == |t.payload| <==> t.ticket !in Cut(EMPTY, ops)
  {
    EmptyIsFine();
    TransactionsConserved(ops, s);
    assert forall t | t in s.started :: t in s.started + Current(s);
    RunKeepsWhole(EMPTY, ops, s, {});
    assert {} + Cut(EMPTY, ops) == Cut(EMPTY, ops);
    hide Cut, Reaches, Inv, Places, Line, Sent, Increasing;
  }

  /**
   A commit sends the next bytes of the current transaction and takes it out iff all of it is sent or
   the driver forces it; then it is to be called back, or handed to the driver who asked for that.
   */
  lemma CommitIsExact(s: Lane, len: nat, callback: bool, forceCompleted: bool)
    requires s.curr.Some? && s.curr.value.transferred + len <= |s.curr.value.payload|
    ensures var t, r := s.curr.value, Next(s, Commit(len, callback, forceCompleted));
            var sent, ends := t.transferred + len, forceCompleted || t.transferred + len == |t.payload|;
            var done := t.(transferred := sent);
            && r.wire == s.wire + t.payload[t.transferred..sent]
            && r.curr == (if ends then None else Some(done))
            && r.started == s.started + (if ends then [done] else [])
            && r.leaving == s.leaving + (if ends && callback then [done] else [])
            && r.handed == s.handed + (if ends && !callback then [done] else [])
            && r.queue == s.queue && r.completed == s.completed && r.tickets == s.tickets
  {
  }

  /** A flush takes out the current transaction as it stands, to be called back; nothing else changes. */
  lemma FlushIsExact(s: Lane)
    ensures var r, gone := Next(s, Flush), Current(s);
            && r.curr == None && r.started == s.started + gone && r.leaving == s.leaving + gone && r.wire == s.wire
            && r.queue == s.queue && r.completed == s.completed && r.handed == s.handed && r.tickets == s.tickets
  {
  }

  // ---------------------------------------------------------------- what was asked for

  datatype Request = Request(payload: seq<byte>, deadline: Option<int>)

  /** What an operation asks for, if it is accepted; a timeout of 0 or of all ones is none. */
  function NewRequest(op: Op): seq<Request> {
    if op.Queue? && op.t.payload != []
    then [Request(op.t.payload, if 0 < op.timeout < 0xffff_ffff then Some(op.now + op.timeout) else None)]
    else []
  }

  /** The accepted requests of a run, by ticket. */
  function Requests(ops: seq<Op>): seq<Request> {
    if ops == [] then [] else NewRequest(ops[0]) + Requests(ops[1..])
  }

  ghost predicate Carry(s: seq<Trans>, requests: seq<Request>) {
    forall t | t in s :: t.ticket < |requests| && Request(t.payload, t.deadline) == requests[t.ticket]
  }

  ghost predicate AllCarry(s: Lane, requests: seq<Request>) {
    && |requests| == s.tickets && Carry(s.queue, requests) && Carry(Current(s), requests) && Carry(s.started, requests)
    && Carry(s.leaving, requests) && Carry(s.completed, requests) && Carry(s.handed, requests)
  }

  lemma CarryMore(s: seq<Trans>, requests: seq<Request>, more: seq<Request>)
    requires Carry(s, requests)
    ensures Carry(s, requests + more)
  {
  }

  lemma CarryConcat(a: seq<Trans>, b: seq<Trans>, requests: seq<Request>)
    ensures Carry(a + b, requests) <==> Carry(a, requests) && Carry(b, requests)
  {
    assert (forall t | t in a :: t in a + b) && forall t | t in b :: t in a + b;
  }

  lemma {:induction false} GoneAreMembers(queue: seq<Trans>, purgeAll: bool, ms: uint32)
    ensures forall t | t in Gone(queue, purgeAll, ms) :: t in queue
  {
    if queue != [] {
      hide Goes;
      GoneAreMembers(queue[1..], purgeAll, ms);
    }
  }

  lemma QueueCarries(s: Lane, op: Op, requests: seq<Request>)
    requires op.Queue? && AllCarry(s, requests)
    ensures AllCarry(Queued(s, op.t, op.timeout, op.now), requests + NewRequest(op))
  {
    hide Carry, ExpiryFor, Wrap32;
    if op.t.payload == [] {
      assert requests + [] == requests;
    } else {
      var more := NewRequest(op);
      CarryMore(s.queue, requests, more);
      CarryMore(Current(s), requests, more);
      CarryMore(s.started, requests, more);
      CarryMore(s.leaving, requests, more);
      CarryMore(s.completed, requests, more);
      CarryMore(s.handed, requests, more);
      var t := Accepted(op.t, s.tickets, op.timeout, op.now);
      OneCarries(t, requests + more);
      CarryConcat(s.queue, [t], requests + more);
    }
  }

  lemma OneCarries(t: Trans, requests: seq<Request>)
    requires t.ticket < |requests| && Request(t.payload, t.deadline) == requests[t.ticket]
    ensures Carry([t], requests)
  {
  }

  lemma StepCarries(s: Lane, op: Op, requests: seq<Request>)
    requires Allowed(s, op) && AllCarry(s, requests)
    ensures AllCarry(Next(s, op), requests + NewRequest(op))
  {
    if op.Queue? {
      QueueCarries(s, op, requests);
    } else {
      assert requests + [] == requests;
      hide Kept, Gone, Goes, Wrap32;
      if op.PurgeQueue? {
        GoneAreMembers(s.queue, op.purgeAll, Wrap32(op.now));
      }
    }
  }

  lemma {:induction false} RunCarries(s: Lane, ops: seq<Op>, r: Lane, requests: seq<Request>)
    requires Reaches(s, ops, r) && AllCarry(s, requests)
    ensures AllCarry(r, requests + Requests(ops))
    decreases |ops|
  {
    hide Next, AllCarry, Allowed, NewRequest;
    if ops == [] {
      assert requests + [] == requests;
    } else {
      StepCarries(s, ops[0], requests);
      RunCarries(Next(s, ops[0]), ops[1..], r, requests + NewRequest(ops[0]));
      assert requests + NewRequest(ops[0]) + Requests(ops[1..]) == requests + Requests(ops);
    }
  }

  /** Wherever a transaction is after a run, it carries the payload and the deadline of its request. */
  lemma {:induction false} RequestsKept(ops: seq<Op>, s: Lane)
    requires Reaches(EMPTY, ops, s)
    ensures AllCarry(s, Requests(ops))
  {
    RunCarries(EMPTY, ops, s, []);
    assert [] + Requests(ops) == Requests(ops);
  }

  // ---------------------------------------------------------------- purging by deadline

  /** Every word in the queue and in work stands for its deadline. */
  ghost predicate Encoded(s: Lane) {
    && (forall t | t in s.queue :: Encodes(t.expiryTime, t.deadline))
    && (s.curr.Some? ==> Encodes(s.curr.value.expiryTime, s.curr.value.deadline))
  }

  lemma StepKeepsEncoded(s: Lane, op: Op)
    requires Encoded(s) && Allowed(s, op)
    ensures Encoded(Next(s, op))
  {
    hide Encodes, ExpiryFor, DeadlineFor, Wrap32, Kept, Gone, Goes;
    if op.Queue? {
      ExpiryEncodes(op.timeout, op.now);
    }
  }

  lemma {:induction false} RunKeepsEncoded(s: Lane, ops: seq<Op>, r: Lane)
    requires Encoded(s) && Reaches(s, ops, r)
    ensures Encoded(r)
    decreases |ops|
  {
    hide Encoded, Next;
    if ops != [] {
      StepKeepsEncoded(s, ops[0]);
      RunKeepsEncoded(Next(s, ops[0]), ops[1..], r);
    }
  }

  /** Those of `queue` whose deadline has passed, or those whose deadline has not. */
  function ByDeadline(queue: seq<Trans>, now: int, passed: bool): seq<Trans> {
    if queue == [] then []
    else (if HasPassed(queue[0].deadline, now) == passed then [queue[0]] else []) + ByDeadline(queue[1..], now, passed)
  }

  ghost predicate AllOnTheirHalf(queue: seq<Trans>, now: int) {
    forall t | t in queue :: OnItsHalf(t.deadline, now)
  }

  lemma {:induction false} KeptMembers(queue: seq<Trans>, ms: uint32, t: Trans)
    ensures t in Kept(queue, false, ms) <==> t in queue && !IsExpired(t.expiryTime, ms)
  {
    if queue != [] {
      hide IsExpired;
      KeptMembers(queue[1..], ms, t);
    }
  }

  lemma {:induction false} ByDeadlineMembers(queue: seq<Trans>, now: int, t: Trans)
    ensures t in ByDeadline(queue, now, false) <==> t in queue && !HasPassed(t.deadline, now)
  {
    if queue != [] {
      hide HasPassed;
      ByDeadlineMembers(queue[1..], now, t);
    }
  }

  lemma {:induction false} PurgeByDeadline(queue: seq<Trans>, now: int)
    requires forall t | t in queue :: JudgedRightly(t.expiryTime, t.deadline, now)
    ensures Kept(queue, false, Wrap32(now)) == ByDeadline(queue, now, false)
    ensures Gone(queue, false, Wrap32(now)) == ByDeadline(queue, now, true)
  {
    if queue != [] {
      hide IsExpired, HasPassed, Wrap32;
      PurgeByDeadline(queue[1..], now);
    }
  }

  /** A purge keeps exactly the transactions whose deadline has not passed iff every deadline is on its half. */
  lemma {:induction false} PurgeIsExact(queue: seq<Trans>, now: int)
    requires forall t | t in queue :: Encodes(t.expiryTime, t.deadline)
    ensures Kept(queue, false, Wrap32(now)) == ByDeadline(queue, now, false) <==> AllOnTheirHalf(queue, now)
    ensures AllOnTheirHalf(queue, now) ==> Gone(queue, false, Wrap32(now)) == ByDeadline(queue, now, true)
  {
    hide Encodes, IsExpired, HasPassed, OnItsHalf, Wrap32;
    forall t | t in queue
      ensures JudgedRightly(t.expiryTime, t.deadline, now) <==> OnItsHalf(t.deadline, now)
    {
      ExpiryIsExact(t.expiryTime, t.deadline, now);
    }
    if AllOnTheirHalf(queue, now) {
      PurgeByDeadline(queue, now);
    } else {
      var t :| t in queue && !OnItsHalf(t.deadline, now);
      KeptMembers(queue, Wrap32(now), t);
      ByDeadlineMembers(queue, now, t);
    }
  }

  // ---------------------------------------------------------------- a purge among other operations

  ghost predicate Leads(s: Lane, r: Lane) {
    exists ops :: Reaches(s, ops, r)
  }

  lemma {:induction false} ReachesOn(s: Lane, ops: seq<Op>, q: Lane, more: seq<Op>, r: Lane)
    requires Reaches(s, ops, q) && Reaches(q, more, r)
    ensures Reaches(s, ops + more, r)
    decreases |ops|
  {
    if ops == [] {
      assert ops + more == more;
    } else {
      hide Next, Allowed;
      ReachesOn(Next(s, ops[0]), ops[1..], q, more, r);
      assert (ops + more)[0] == ops[0] && (ops + more)[1..] == ops[1..] + more;
    }
  }

  lemma LeadsOn(s: Lane, q: Lane, r: Lane)
    requires Leads(s, q) && Leads(q, r)
    ensures Leads(s, r)
  {
    hide Reaches;
    var ops :| Reaches(s, ops, q);
    var more :| Reaches(q, more, r);
    ReachesOn(s, ops, q, more, r);
  }

  lemma LeadsStep(s: Lane, op: Op)
    requires Allowed(s, op)
    ensures Leads(s, Next(s, op))
  {
    hide Next;
    assert Reaches(Next(s, op), [op][1..], Next(s, op));
    assert Reaches(s, [op], Next(s, op));
  }

  /**
   What a purge tests after its critical section, without a lock: `a` is the state in which it finds
   that there is a current transaction, `b` the one in which it looks at its deadline.
   */
  function Tested(a: Lane, b: Lane, purgeAll: bool): Option<Trans> {
    if a.curr.None? then None else if purgeAll then a.curr else b.curr
  }

  /** The transaction that a flush takes out of work. */
  function TakenByFlush(c: Lane): Option<nat> {
    var started := Flushed(c).started;
    if |started| > |c.started| then Some(started[|c.started|].ticket) else None
  }

  /** The transaction that the flush of a purge takes, if the test makes it flush in state `c`. */
  function FlushTakes(tested: Option<Trans>, purgeAll: bool, later: int, c: Lane): Option<nat> {
    if tested.Some? && Goes(tested.value, purgeAll, Wrap32(later)) then TakenByFlush(c) else None
  }

  /** The transaction that it should take: the one that was tested, if its time is over. */
  function FlushShouldTake(tested: Option<Trans>, purgeAll: bool, later: int): Option<nat> {
    if tested.Some? && (purgeAll || HasPassed(tested.value.deadline, later)) then Some(tested.value.ticket) else None
  }

  /**
   The tested transaction is judged rightly and is still current at the flush, or there is nothing to
   flush by mistake.
   */
  predicate TestStillHolds(tested: Option<Trans>, purgeAll: bool, later: int, c: Lane) {
    tested.Some? ==>
      if purgeAll || HasPassed(tested.value.deadline, later)
      then
        && (purgeAll || OnItsHalf(tested.value.deadline, later))
        && c.curr.Some? && c.curr.value.ticket == tested.value.ticket
      else OnItsHalf(tested.value.deadline, later) || c.curr.None?
  }

  lemma EncodedAfter(s: Lane)
    requires Leads(EMPTY, s)
    ensures Encoded(s)
  {
    EmptyIsFine();
    hide Encoded, Reaches;
    var ops :| Reaches(EMPTY, ops, s);
    RunKeepsEncoded(EMPTY, ops, s);
  }

  lemma PurgeLeads(s: Lane, purgeAll: bool, now: int)
    ensures Leads(s, PurgedQueue(s, purgeAll, now))
  {
    hide Leads, PurgedQueue;
    LeadsStep(s, PurgeQueue(purgeAll, now));
  }

  lemma QueuePurgeIsExact(s: Lane, purgeAll: bool, now: int)
    requires Encoded(s)
    ensures !purgeAll ==>
              (PurgedQueue(s, purgeAll, now).queue == ByDeadline(s.queue, now, false) <==> AllOnTheirHalf(s.queue, now))
    ensures !purgeAll && AllOnTheirHalf(s.queue, now) ==>
              PurgedQueue(s, purgeAll, now).leaving == s.leaving + ByDeadline(s.queue, now, true)
    ensures purgeAll ==>
              PurgedQueue(s, purgeAll, now).queue == [] && PurgedQueue(s, purgeAll, now).leaving == s.leaving + s.queue
  {
    hide Encodes, Wrap32, Kept, Gone, ByDeadline, AllOnTheirHalf;
    PurgeIsExact(s.queue, now);
    AllGo(s.queue, Wrap32(now));
  }

  lemma {:induction false} AllGo(queue: seq<Trans>, ms: uint32)
    ensures Kept(queue, true, ms) == [] && Gone(queue, true, ms) == queue
  {
    if queue != [] {
      AllGo(queue[1..], ms);
      assert queue == [queue[0]] + queue[1..];
    }
  }

  lemma TestedEncodes(a: Lane, b: Lane, purgeAll: bool)
    requires Encoded(a) && Encoded(b)
    ensures var tested := Tested(a, b, purgeAll);
            tested.Some? ==> Encodes(tested.value.expiryTime, tested.value.deadline)
  {
    hide Encodes;
  }

  lemma FlushIsExactIff(tested: Option<Trans>, purgeAll: bool, later: int, c: Lane)
    requires tested.Some? ==> Encodes(tested.value.expiryTime, tested.value.deadline)
    ensures FlushTakes(tested, purgeAll, later, c) == FlushShouldTake(tested, purgeAll, later)
            <==> TestStillHolds(tested, purgeAll, later, c)
  {
    hide Encodes, IsExpired, HasPassed, OnItsHalf, Wrap32;
    if tested.Some? {
      ExpiryIsExact(tested.value.expiryTime, tested.value.deadline, later);
    }
  }

  /**
   A purge from any state of any run, with any other operations between its parts: it keeps exactly the
   queued transactions whose deadline has not passed iff their deadlines lie on their halves; and its
   flush takes the transaction that it tested if that one is past its deadline, and nothing otherwise,
   iff that one is judged rightly and, if it is to go, still current when the flush comes, or else
   nothing is current then.
   */
  lemma {:induction false} PurgesAreExact(s: Lane, a: Lane, b: Lane, c: Lane, purgeAll: bool, now: int, later: int)
    requires Leads(EMPTY, s) && Leads(PurgedQueue(s, purgeAll, now), a) && Leads(a, b) && Leads(b, c)
    ensures !purgeAll ==>
              (PurgedQueue(s, purgeAll, now).queue == ByDeadline(s.queue, now, false) <==> AllOnTheirHalf(s.queue, now))
    ensures !purgeAll && AllOnTheirHalf(s.queue, now) ==>
              PurgedQueue(s, purgeAll, now).leaving == s.leaving + ByDeadline(s.queue, now, true)
    ensures purgeAll ==>
              PurgedQueue(s, purgeAll, now).queue == [] && PurgedQueue(s, purgeAll, now).leaving == s.leaving + s.queue
    ensures var tested := Tested(a, b, purgeAll);
            FlushTakes(tested, purgeAll, later, c) == FlushShouldTake(tested, purgeAll, later)
            <==> TestStillHolds(tested, purgeAll, later, c)
  {
    hide *;
    PurgeLeads(s, purgeAll, now);
    LeadsOn(EMPTY, s, PurgedQueue(s, purgeAll, now));
    LeadsOn(EMPTY, PurgedQueue(s, purgeAll, now), a);
    LeadsOn(EMPTY, a, b);
    EncodedAfter(s);
    EncodedAfter(a);
    EncodedAfter(b);
    QueuePurgeIsExact(s, purgeAll, now);
    TestedEncodes(a, b, purgeAll);
    FlushIsExactIff(Tested(a, b, purgeAll), purgeAll, later, c);
  }

  /** One byte to send, by `deadline`, of which `sent` bytes are sent. */
  function OneByte(ticket: nat, deadline: uint32, sent: nat): Trans
    requires deadline < 0x8000_0000
  {
    Trans(ticket, [0], sent, deadline, Some(deadline))
  }

  /** The first of two transactions is in work, and its time is over at 5. */
  const FIRST_LOADED := Lane([OneByte(1, 1000, 0)], Some(OneByte(0, 1, 0)), [], [], [], [], [], 2)
  const FIRST_SENT := Lane([OneByte(1, 1000, 0)], None, [OneByte(0, 1, 1)], [OneByte(0, 1, 1)], [], [], [0], 2)
  const SECOND_LOADED :=
    Lane([], Some(OneByte(1, 1000, 0)), [OneByte(0, 1, 1)], [OneByte(0, 1, 1)], [], [], [0], 2)

  lemma TwoAreQueued()
    ensures Leads(EMPTY, FIRST_LOADED)
  {
    var t := Trans(0, [0], 0, 0, None);
    var q1 := Lane([OneByte(0, 1, 0)], None, [], [], [], [], [], 1);
    var q2 := Lane([OneByte(0, 1, 0), OneByte(1, 1000, 0)], None, [], [], [], [], [], 2);
    assert Queued(EMPTY, t, 1, 0) == q1;
    assert Queued(q1, t, 1000, 0) == q2;
    assert Loaded(q2) == FIRST_LOADED;
    hide Leads, Queued, Loaded;
    LeadsStep(EMPTY, Queue(t, 1, 0));
    LeadsStep(q1, Queue(t, 1000, 0));
    LeadsStep(q2, Load);
    LeadsOn(EMPTY, q1, q2);
    LeadsOn(EMPTY, q2, FIRST_LOADED);
  }

  lemma SecondIsLoaded()
    ensures Leads(FIRST_LOADED, SECOND_LOADED)
  {
    assert Committed(FIRST_LOADED, 1, true, false) == FIRST_SENT;
    assert Loaded(FIRST_SENT) == SECOND_LOADED;
    hide Leads, Committed, Loaded;
    LeadsStep(FIRST_LOADED, Commit(1, true, false));
    LeadsStep(FIRST_SENT, Load);
    LeadsOn(FIRST_LOADED, FIRST_SENT, SECOND_LOADED);
  }

  lemma OneByteAtFive()
    ensures var first, second := OneByte(0, 1, 0), OneByte(1, 1000, 0);
            && OnItsHalf(first.deadline, 5) && OnItsHalf(second.deadline, 5)
            && HasPassed(first.deadline, 5) && !HasPassed(second.deadline, 5)
            && IsExpired(first.expiryTime, Wrap32(5)) && !IsExpired(second.expiryTime, Wrap32(5))
  {
    ExpiryIs(1, Some(1), 5);
    ExpiryIs(1000, Some(1000), 5);
  }

  lemma NothingPurgedAtFive()
    ensures PurgedQueue(FIRST_LOADED, false, 5) == FIRST_LOADED
  {
    OneByteAtFive();
    var queue := FIRST_LOADED.queue;
    assert queue == [OneByte(1, 1000, 0)] && queue[1..] == [];
    hide IsExpired, Wrap32;
  }

  /**
   A purge whose deadlines all lie on their halves, and whose flush takes a transaction that was not
   sent and has time left: the driver finished the expired one meanwhile and loaded the next.
   */
  lemma FlushTakesAnother()
    ensures Leads(EMPTY, FIRST_LOADED) && PurgedQueue(FIRST_LOADED, false, 5) == FIRST_LOADED
    ensures Leads(FIRST_LOADED, SECOND_LOADED)
    ensures AllOnTheirHalf(FIRST_LOADED.queue, 5) && OnItsHalf(FIRST_LOADED.curr.value.deadline, 5)
    ensures var tested := Tested(FIRST_LOADED, FIRST_LOADED, false);
            FlushShouldTake(tested, false, 5) == Some(0) && FlushTakes(tested, false, 5, SECOND_LOADED) == Some(1)
    ensures SECOND_LOADED.curr.value.transferred == 0 && !HasPassed(SECOND_LOADED.curr.value.deadline, 5)
  {
    hide Leads, PurgedQueue, OnItsHalf, HasPassed, IsExpired, Wrap32;
    TwoAreQueued();
    SecondIsLoaded();
    NothingPurgedAtFive();
    OneByteAtFive();
  }

  // ---------------------------------------------------------------- calls that nobody disturbs

  /** The transaction taken out last is called back. */
  function LastCalledBack(s: Lane): Lane {
    if s.leaving == [] then s else CalledBack(s, |s.leaving| - 1)
  }

  function CommittedAtOnce(s: Lane, len: nat, callback: bool, forceCompleted: bool): Lane
    requires s.curr.Some? ==> s.curr.value.transferred + len <= |s.curr.value.payload|
  {
    var r := Committed(s, len, callback, forceCompleted);
    if callback && s.curr.Some? && r.curr.None? then LastCalledBack(r) else r
  }

  function FlushedAtOnce(s: Lane): Lane {
    if s.curr.Some? then LastCalledBack(Flushed(s)) else s
  }

  /** Queued ones are judged at `now`, the current one at `later`; its callback comes first, then theirs in order. */
  function Purged(s: Lane, purgeAll: bool, now: int, later: int): Lane {
    var f := if s.curr.Some? && Goes(s.curr.value, purgeAll, Wrap32(later)) then FlushedAtOnce(s) else s;
    f.(queue := Kept(s.queue, purgeAll, Wrap32(now)), completed := f.completed + Gone(s.queue, purgeAll, Wrap32(now)))
  }

  lemma TakenOutAtOnce(s: Lane)
    requires s.curr.Some?
    ensures LastCalledBack(TakenOut(s, true)) ==
            s.(curr := None, started := s.started + [s.curr.value], completed := s.completed + [s.curr.value])
  {
    var leaving := s.leaving + [s.curr.value];
    assert leaving[..|s.leaving|] == s.leaving && leaving[|s.leaving| + 1..] == [];
  }

  /** A purge that nobody disturbs, part by part. */
  lemma PurgedParts(s: Lane, purgeAll: bool, now: int, later: int)
    ensures var a := PurgedQueue(s, purgeAll, now);
            var b := if a.curr.Some? && Goes(a.curr.value, purgeAll, Wrap32(later)) then FlushedAtOnce(a) else a;
            && b.leaving == s.leaving + Gone(s.queue, purgeAll, Wrap32(now)) && a.curr == s.curr
            && b.(leaving := s.leaving, completed := b.completed + Gone(s.queue, purgeAll, Wrap32(now)))
               == Purged(s, purgeAll, now, later)
  {
    var a := PurgedQueue(s, purgeAll, now);
    hide Kept, Gone, Goes, Wrap32;
    if s.curr.Some? {
      TakenOutAtOnce(s);
      TakenOutAtOnce(a);
    }
  }

  // ---------------------------------------------------------------- the object

  class Transaction {
    const pBuf8: seq<byte>
    var transferredIdx: nat
    var expiryTime: uint32
    ghost var ticket: nat
    ghost var deadline: Option<int>

    constructor (pBuf8: seq<byte>)
      ensures this.pBuf8 == pBuf8 && transferredIdx == 0 && expiryTime == OSAL_WAIT_INFINITE && deadline == None
    {
      this.pBuf8, transferredIdx, expiryTime, ticket, deadline := pBuf8, 0, OSAL_WAIT_INFINITE, 0, None;
    }
  }

  ghost function ViewOf(t: Transaction): Trans
    reads t
  {
    Trans(t.ticket, t.pBuf8, t.transferredIdx, t.expiryTime, t.deadline)
  }

  ghost function ViewAll(s: seq<Transaction>): (r: seq<Trans>)
    reads s
    ensures |r| == |s| && forall i | 0 <= i < |s| :: r[i] == ViewOf(s[i])
  {
    if s == [] then [] else [ViewOf(s[0])] + ViewAll(s[1..])
  }

  lemma ViewSnoc(s: seq<Transaction>, t: Transaction)
    ensures ViewAll(s + [t]) == ViewAll(s) + [ViewOf(t)]
  {
    hide ViewAll, ViewOf;
  }

  lemma ViewTail(s: seq<Transaction>)
    requires s != []
    ensures ViewAll(s)[0] == ViewOf(s[0]) && ViewAll(s)[1..] == ViewAll(s[1..]) && ViewAll(s) != []
  {
  }

  lemma TransAssociates(a: seq<Trans>, t: Trans, b: seq<Trans>)
    ensures a + ([t] + b) == a + [t] + b
  {
  }

  lemma PurgeNext(queue: seq<Trans>, kept: seq<Trans>, gone: seq<Trans>, purgeAll: bool, ms: uint32)
    requires queue != []
    ensures var t := queue[0];
            && kept + Kept(queue, purgeAll, ms) ==
               (if Goes(t, purgeAll, ms) then kept else kept + [t]) + Kept(queue[1..], purgeAll, ms)
            && gone + Gone(queue, purgeAll, ms) ==
               (if Goes(t, purgeAll, ms) then gone + [t] else gone) + Gone(queue[1..], purgeAll, ms)
  {
    hide Kept, Gone, Goes;
    PurgeStep(queue, purgeAll, ms);
    TransAssociates(kept, queue[0], Kept(queue[1..], purgeAll, ms));
    TransAssociates(gone, queue[0], Gone(queue[1..], purgeAll, ms));
  }

  lemma DistinctSnoc(s: seq<Transaction>, t: Transaction)
    requires Distinct(s) && t !in s
    ensures Distinct(s + [t])
  {
  }

  lemma DistinctTail(s: seq<Transaction>)
    requires Distinct(s) && s != []
    ensures Distinct(s[1..]) && s[0] !in s[1..]
  {
  }

  lemma NothingToPurge(purgeAll: bool, ms: uint32)
    ensures Kept(ViewAll([]), purgeAll, ms) == [] && Gone(ViewAll([]), purgeAll, ms) == [] && ViewAll([]) == []
            && Distinct<Transaction>([])
  {
  }

  /** A transaction that is called back next among those on their way out. */
  lemma NextCallback(base: seq<Trans>, rest: seq<Trans>)
    requires rest != []
    ensures (base + rest)[|base|] == rest[0]
    ensures (base + rest)[..|base|] + (base + rest)[|base| + 1..] == base + rest[1..]
  {
  }

  /**
   One direction. The methods named Section are critical sections; a callback is recorded in
   `completed`, and from then on the caller owns the transaction.
   */
  class Channel {
    var mpCurr: Transaction?
    var mQueue: seq<Transaction>
    ghost var started: seq<Trans>
    ghost var leaving: seq<Trans>
    ghost var completed: seq<Trans>
    ghost var handed: seq<Trans>
    ghost var wire: seq<byte>
    ghost var tickets: nat

    /** Nothing is owned twice. */
    ghost predicate Valid()
      reads this
    {
      Distinct(mQueue) && mpCurr !in mQueue
    }

    ghost function View(): Lane
      reads this, mQueue, mpCurr
    {
      Lane(ViewAll(mQueue), if mpCurr == null then None else Some(ViewOf(mpCurr)),
           started, leaving, completed, handed, wire, tickets)
    }

    lemma ViewParts(purgeAll: bool, ms: uint32)
      ensures View().curr == if mpCurr == null then None else Some(ViewOf(mpCurr))
      ensures View() == Lane(ViewAll(mQueue), View().curr, started, leaving, completed, handed, wire, tickets)
      ensures mpCurr != null ==>
                (Goes(ViewOf(mpCurr), purgeAll, ms) <==> purgeAll || IsExpired(mpCurr.expiryTime, ms))
    {
      hide ViewAll, IsExpired;
    }

    constructor ()
      ensures Valid() && View() == EMPTY && Inv(View())
    {
      mpCurr, mQueue, started, leaving, completed, handed, wire, tickets := null, [], [], [], [], [], [], 0;
      new;
      EmptyIsFine();
    }

    method Queue(t: Transaction, timeout: uint32, ms: uint32, ghost now: int) returns (rval: bool)
      requires Valid() && t !in mQueue && t != mpCurr && ms == Wrap32(now)
      modifies this, t`expiryTime, t`ticket, t`deadline
      ensures Valid() && rval == (t.pBuf8 != []) && View() == Queued(old(View()), old(ViewOf(t)), timeout, now)
    {
      hide ExpiryFor, DeadlineFor, Wrap32, ViewAll, Distinct;
      rval := false;
      if |t.pBuf8| > 0 {
        DistinctSnoc(mQueue, t);
        t.deadline := DeadlineFor(timeout, now);
        t.expiryTime := ExpiryFor(timeout, ms);
        t.ticket := tickets;
        tickets := tickets + 1;
        ViewSnoc(mQueue, t);
        mQueue := mQueue + [t];
        rval := true;
      }
    }

    /** The current transaction, or else the next one, and where its rest begins. */
    method LoadNextTransaction() returns (rval: Transaction?, offset: nat, len: nat)
      requires Valid() && Inv(View())
      modifies `mpCurr, `mQueue, mQueue`transferredIdx
      ensures Valid() && View() == Loaded(old(View())) && rval == mpCurr
      ensures rval == null <==> old(mpCurr) == null && old(mQueue) == []
      ensures rval != null ==> offset == rval.transferredIdx && 0 < len == |rval.pBuf8| - offset
    {
      offset, len := 0, 0;
      KeepLoaded(View());
      if mpCurr == null && mQueue != [] {
        mpCurr, mQueue := mQueue[0], mQueue[1..];
        mpCurr.transferredIdx := 0;
      }
      if mpCurr != null {
        offset := mpCurr.transferredIdx;
        len := |mpCurr.pBuf8| - mpCurr.transferredIdx;
      }
      rval := mpCurr;
    }

    /** The callback of a transaction on its way out, outside every critical section. */
    method CallBack(pC: Transaction, ghost i: nat)
      requires Valid() && i < |leaving| && leaving[i] == ViewOf(pC)
      modifies `leaving, `completed
      ensures Valid() && View() == CalledBack(old(View()), i)
    {
      completed := completed + [leaving[i]];
      leaving := leaving[..i] + leaving[i + 1..];
    }

    /** The critical section of a commit: whom to call back, if the transaction is taken out. */
    method CommitSection(len: nat, forceCompleted: bool, ghost callback: bool) returns (pC: Transaction?)
      requires Valid() && (mpCurr != null ==> mpCurr.transferredIdx + len <= |mpCurr.pBuf8|)
      modifies this, if mpCurr == null then {} else {mpCurr}
      ensures Valid() && View() == Committed(old(View()), len, callback, forceCompleted)
      ensures pC == if old(mpCurr) != null && mpCurr == null then old(mpCurr) else null
      ensures pC != null && callback ==> leaving == old(leaving) + [ViewOf(pC)]
    {
      hide ViewAll, Distinct;
      pC := null;
      if mpCurr != null {
        wire := wire + mpCurr.pBuf8[mpCurr.transferredIdx..mpCurr.transferredIdx + len];
        mpCurr.transferredIdx := mpCurr.transferredIdx + len;
        if forceCompleted || mpCurr.transferredIdx >= |mpCurr.pBuf8| {
          pC := mpCurr;
          mpCurr := null;
          started := started + [ViewOf(pC)];
          if callback {
            leaving := leaving + [ViewOf(pC)];
          } else {
            handed := handed + [ViewOf(pC)];
          }
        }
      }
    }

    method CommitTransaction(len: nat, callCallbackIfCompleted: bool, forceCompleted: bool) returns (done: bool)
      requires Valid() && (mpCurr != null ==> mpCurr.transferredIdx + len <= |mpCurr.pBuf8|)
      modifies this, if mpCurr == null then {} else {mpCurr}
      ensures Valid() && View() == CommittedAtOnce(old(View()), len, callCallbackIfCompleted, forceCompleted)
      ensures done <==> old(mpCurr) != null && mpCurr == null
    {
      hide ViewAll, Distinct, ViewOf, Committed, CalledBack;
      var pC := CommitSection(len, forceCompleted, callCallbackIfCompleted);
      done := pC != null;
      if pC != null && callCallbackIfCompleted {
        CallBack(pC, |leaving| - 1);
      }
    }

    /** The critical section of a flush, which takes whatever is current. */
    method FlushSection() returns (pC: Transaction?)
      requires Valid()
      modifies `mpCurr, `started, `leaving
      ensures Valid() && View() == Flushed(old(View())) && pC == old(mpCurr) && mpCurr == null
      ensures pC != null ==> leaving == old(leaving) + [ViewOf(pC)]
      ensures pC == null ==> leaving == old(leaving)
    {
      pC := mpCurr;
      if mpCurr != null {
        mpCurr := null;
        started := started + [ViewOf(pC)];
        leaving := leaving + [ViewOf(pC)];
      }
    }

    method FlushActiveTransaction() returns (rval: bool)
      requires Valid()
      modifies `mpCurr, `started, `leaving, `completed
      ensures Valid() && View() == FlushedAtOnce(old(View())) && rval == old(mpCurr != null) && mpCurr == null
    {
      hide ViewAll, Distinct, ViewOf, CalledBack;
      var pC := FlushSection();
      rval := pC != null;
      if pC != null {
        CallBack(pC, |leaving| - 1);
      }
    }

    /** Takes the queue apart and puts back what stays. */
    method SplitQueue(purgeAll: bool, ms: uint32) returns (purged: seq<Transaction>)
      requires Valid()
      modifies `mQueue
      ensures Valid() && ViewAll(mQueue) == Kept(old(ViewAll(mQueue)), purgeAll, ms)
      ensures ViewAll(purged) == Gone(old(ViewAll(mQueue)), purgeAll, ms)
    {
      ghost var all := ViewAll(mQueue);
      var tmp := mQueue;
      hide Kept, Gone, ViewAll, Distinct, Wrap32;
      NothingToPurge(purgeAll, ms);
      mQueue, purged := [], [];
      while tmp != []
        invariant Distinct(tmp) && Distinct(mQueue) && mpCurr !in tmp && mpCurr !in mQueue
        invariant forall t | t in mQueue :: t !in tmp
        invariant ViewAll(mQueue) + Kept(ViewAll(tmp), purgeAll, ms) == Kept(all, purgeAll, ms)
        invariant ViewAll(purged) + Gone(ViewAll(tmp), purgeAll, ms) == Gone(all, purgeAll, ms)
        decreases |tmp|
      {
        var t := tmp[0];
        PurgeNext(ViewAll(tmp), ViewAll(mQueue), ViewAll(purged), purgeAll, ms);
        ViewTail(tmp);
        DistinctTail(tmp);
        if purgeAll || IsExpired(t.expiryTime, ms) {
          ViewSnoc(purged, t);
          purged := purged + [t];
        } else {
          ViewSnoc(mQueue, t);
          DistinctSnoc(mQueue, t);
          mQueue := mQueue + [t];
        }
        tmp := tmp[1..];
      }
      NothingToPurge(purgeAll, ms);
      assert tmp == [];
    }

    method PurgeOldMessages(purgeAll: bool, ms: uint32, ghost now: int) returns (purged: seq<Transaction>)
      requires Valid() && ms == Wrap32(now)
      modifies `mQueue, `leaving
      ensures Valid() && View() == PurgedQueue(old(View()), purgeAll, now)
      ensures leaving == old(leaving) + ViewAll(purged) && ViewAll(purged) == Gone(old(ViewAll(mQueue)), purgeAll, ms)
    {
      hide Kept, Gone, ViewAll, Distinct, Wrap32;
      purged := SplitQueue(purgeAll, ms);
      leaving := leaving + ViewAll(purged);
    }

    /** The callbacks of purged transactions, in order. */
    method CallBackAll(purged: seq<Transaction>, ghost base: seq<Trans>)
      requires Valid() && leaving == base + ViewAll(purged)
      modifies `leaving, `completed
      ensures Valid() && leaving == base && completed == old(completed) + ViewAll(purged)
    {
      hide ViewAll, ViewOf, Distinct;
      var rest := purged;
      NoneToCallBack(base, completed);
      while rest != []
        invariant Valid() && leaving == base + ViewAll(rest)
        invariant completed + ViewAll(rest) == old(completed) + ViewAll(purged)
        decreases |rest|
      {
        ViewTail(rest);
        NextCallback(base, ViewAll(rest));
        TransAssociates(completed, ViewOf(rest[0]), ViewAll(rest[1..]));
        assert ViewAll(rest) == [ViewAll(rest)[0]] + ViewAll(rest)[1..];
        CallBack(rest[0], |base|);
        rest := rest[1..];
      }
      NoneToCallBack(base, completed);
    }

    /** `ms` is what the purge of the queue reads off the clock, `laterMs` what the test of the current one does. */
    method PurgeOldTxMessages(purgeAll: bool, ms: uint32, laterMs: uint32, ghost now: int, ghost later: int)
      requires Valid() && ms == Wrap32(now) && laterMs == Wrap32(later)
      modifies this
      ensures Valid() && View() == Purged(old(View()), purgeAll, now, later)
    {
      hide *;
      ghost var s := View();
      ViewParts(purgeAll, laterMs);
      PurgedParts(s, purgeAll, now, later);
      var purged := PurgeOldMessages(purgeAll, ms, now);
      ViewParts(purgeAll, laterMs);
      if mpCurr != null && (purgeAll || IsExpired(mpCurr.expiryTime, laterMs)) {
        var _ := FlushActiveTransaction();
      }
      ViewParts(purgeAll, laterMs);
      CallBackAll(purged, s.leaving);
      ViewParts(purgeAll, laterMs);
    }
  }

  lemma NoneToCallBack(base: seq<Trans>, completed: seq<Trans>)
    ensures base + ViewAll([]) == base && completed + ViewAll([]) == completed
  {
  }
}
