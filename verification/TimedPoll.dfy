/**
 Timer lists. `PollTimed` is what the scheduler's walk over a timer list computes on 32-bit words,
 cursor and all; `PollIdeal` is the same service on unbounded times. The refinement between
 them holds as long as the times in play span less than 2^31.
 */
module TimedPoll {
  import opened Words
  import opened Ordering

  const MAX_TASKS_PER_EXECUTION := 12

  datatype Schedulable = Schedulable(
    nextExecutionTime: uint32, executionPeriod: uint32, pTaskFn: nat, pUserData: nat)

  /** What the execution queue keeps of a schedulable. */
  datatype Element = Element(pTaskFn: nat, pUserData: nat, isPeriodic: bool)

  function ElementOf(s: Schedulable): Element {
    Element(s.pTaskFn, s.pUserData, s.executionPeriod != 0)
  }

  function NodeCompare(s0: Schedulable, s1: Schedulable): int {
    Signed32(s0.nextExecutionTime - s1.nextExecutionTime)
  }

  function TimeDiff(s: Schedulable, compareTimer: uint32): int {
    Signed32(s.nextExecutionTime - compareTimer)
  }

  /** The next due time of a periodic task: on its grid, or the next tick if a whole period was missed. */
  function Rearmed(s: Schedulable, compareTimer: uint32): Schedulable {
    var timeDiff := TimeDiff(s, compareTimer);
    if -timeDiff >= Signed32(s.executionPeriod)
    then s.(nextExecutionTime := Wrap32(compareTimer + 1))
    else s.(nextExecutionTime := Wrap32(compareTimer + s.executionPeriod + timeDiff))
  }

  lemma RearmedElement(s: Schedulable, compareTimer: uint32)
    ensures ElementOf(Rearmed(s, compareTimer)) == ElementOf(s)
  {
  }

  datatype Polled<I, K> = Polled(list: seq<Item<I, K>>, batch: seq<Element>)

  /** The list and cursor after the task at the cursor was taken off and, if periodic, put back. */
  function Reinserted<I>(list: seq<Item<I, Schedulable>>, pos: nat, compareTimer: uint32)
    : (r: (seq<Item<I, Schedulable>>, nat))
    requires pos < |list|
    ensures r.1 <= |r.0|
  {
    var x, rest := list[pos], RemoveAt(list, pos);
    if x.key.executionPeriod == 0 then (rest, pos)
    else
      var y := Item(x.id, Rearmed(x.key, compareTimer));
      var q := FrontPos(NodeCompare, rest, y.key);
      (InsertAt(rest, q, y), if q <= pos then pos + 1 else pos)
  }

  /** The walk from position `pos`, with the tasks already queued in `batch`. */
  function PollTimed<I>(list: seq<Item<I, Schedulable>>, pos: nat, compareTimer: uint32, batch: seq<Element>)
    : (r: Polled<I, Schedulable>)
    requires pos <= |list| && |batch| < MAX_TASKS_PER_EXECUTION
    ensures |r.batch| <= MAX_TASKS_PER_EXECUTION && batch <= r.batch
    decreases MAX_TASKS_PER_EXECUTION - |batch|
  {
    if pos == |list| || TimeDiff(list[pos].key, compareTimer) > 0 then Polled(list, batch)
    else
      var (list', pos') := Reinserted(list, pos, compareTimer);
      var batch' := batch + [ElementOf(list[pos].key)];
      if |batch'| == MAX_TASKS_PER_EXECUTION then Polled(list', batch')
      else PollTimed(list', pos', compareTimer, batch')
  }

  // ---------------------------------------------------------------- unbounded times

  datatype Ideal = Ideal(due: int, period: uint32, pTaskFn: nat, pUserData: nat)

  function CompareIdeal(a: Ideal, b: Ideal): int {
    a.due - b.due
  }

  function Lower(a: Ideal): Schedulable {
    Schedulable(Wrap32(a.due), a.period, a.pTaskFn, a.pUserData)
  }

  function LowerItem<I>(x: Item<I, Ideal>): Item<I, Schedulable> {
    Item(x.id, Lower(x.key))
  }

  function LowerAll<I>(list: seq<Item<I, Ideal>>): (r: seq<Item<I, Schedulable>>)
    ensures |r| == |list| && forall i | 0 <= i < |list| :: r[i] == LowerItem(list[i])
  {
    if list == [] then [] else [LowerItem(list[0])] + LowerAll(list[1..])
  }

  function RearmedIdeal(a: Ideal, now: int): Ideal {
    if now - a.due >= a.period then a.(due := now + 1) else a.(due := a.due + a.period)
  }

  /** The service of a timer list: due tasks from the front, until none is due or the batch is full. */
  function PollIdeal<I>(list: seq<Item<I, Ideal>>, now: int, batch: seq<Element>): (r: Polled<I, Ideal>)
    requires |batch| < MAX_TASKS_PER_EXECUTION
    decreases MAX_TASKS_PER_EXECUTION - |batch|
  {
    if list == [] || list[0].key.due > now then Polled(list, batch)
    else
      var x := list[0];
      var list' := if x.key.period == 0 then list[1..]
                   else Insert(CompareIdeal, list[1..], Item(x.id, RearmedIdeal(x.key, now)));
      var batch' := batch + [ElementOf(Lower(x.key))];
      if |batch'| == MAX_TASKS_PER_EXECUTION then Polled(list', batch') else PollIdeal(list', now, batch')
  }

  // ---------------------------------------------------------------- wraparound refinement

  /** The listed due times, `now` and the due times a service at `now` assigns lie in [lo, lo + 2^31). */
  ghost predicate InWindow<I>(list: seq<Item<I, Ideal>>, now: int, lo: int) {
    lo <= now < lo + 0x8000_0000 && forall x | x in list :: KeyInWindow(x.key, now, lo)
  }

  ghost predicate KeyInWindow(a: Ideal, now: int, lo: int) {
    && lo <= a.due < lo + 0x8000_0000 && a.period < 0x8000_0000
    && (a.due <= now ==> RearmedIdeal(a, now).due < lo + 0x8000_0000)
  }

  lemma CompareRefines(a: Ideal, b: Ideal, lo: int)
    requires lo <= a.due < lo + 0x8000_0000 && lo <= b.due < lo + 0x8000_0000
    ensures NodeCompare(Lower(a), Lower(b)) == CompareIdeal(a, b)
  {
    SignedDifferenceExact(a.due, b.due);
  }

  lemma {:induction false} FrontPosRefines<I>(list: seq<Item<I, Ideal>>, a: Ideal, lo: int)
    requires lo <= a.due < lo + 0x8000_0000
    requires forall x | x in list :: lo <= x.key.due < lo + 0x8000_0000
    ensures FrontPos(NodeCompare, LowerAll(list), Lower(a)) == FrontPos(CompareIdeal, list, a)
  {
    if list != [] {
      assert list[0] in list;
      CompareRefines(a, list[0].key, lo);
      assert LowerAll(list)[1..] == LowerAll(list[1..]);
      FrontPosRefines(list[1..], a, lo);
    }
  }

  lemma {:induction false} LowerInsert<I>(list: seq<Item<I, Ideal>>, p: nat, x: Item<I, Ideal>)
    requires p <= |list|
    ensures LowerAll(InsertAt(list, p, x)) == InsertAt(LowerAll(list), p, LowerItem(x))
  {
    hide LowerAll;
  }

  lemma {:induction false} InsertRefines<I>(list: seq<Item<I, Ideal>>, x: Item<I, Ideal>, lo: int)
    requires lo <= x.key.due < lo + 0x8000_0000
    requires forall y | y in list :: lo <= y.key.due < lo + 0x8000_0000
    ensures Insert(NodeCompare, LowerAll(list), LowerItem(x)) == LowerAll(Insert(CompareIdeal, list, x))
  {
    FrontPosRefines(list, x.key, lo);
    hide LowerAll, FrontPos, InsertAt;
    LowerInsert(list, FrontPos(CompareIdeal, list, x.key), x);
  }

  lemma RearmRefines(a: Ideal, now: int, lo: int)
    requires lo <= a.due <= now < lo + 0x8000_0000 && a.period < 0x8000_0000
    ensures Rearmed(Lower(a), Wrap32(now)) == Lower(RearmedIdeal(a, now))
  {
    hide Signed32, Wrap32;
    SignedDifferenceExact(a.due, now);
    SmallWords(a.period);
    WrapAddsUp(now, 1);
    WrapAddsUp(now, a.period + (a.due - now));
  }

  lemma RearmIsFuture(a: Ideal, now: int, lo: int)
    requires a.period != 0 && a.due <= now
    ensures RearmedIdeal(a, now).due > now
    ensures KeyInWindow(a, now, lo) ==> KeyInWindow(RearmedIdeal(a, now), now, lo)
  {
  }

  lemma {:induction false} InsertMembers<I, K>(cmp: (K, K) -> int, s: seq<Item<I, K>>, x: Item<I, K>)
    ensures forall y | y in Insert(cmp, s, x) :: y == x || y in s
  {
    InsertAtMembers(s, FrontPos(cmp, s, x.key), x);
  }

  /** The list after the service of its due head. */
  function Served<I>(list: seq<Item<I, Ideal>>, now: int): seq<Item<I, Ideal>>
    requires list != []
  {
    var x := list[0];
    if x.key.period == 0 then list[1..] else Insert(CompareIdeal, list[1..], Item(x.id, RearmedIdeal(x.key, now)))
  }

  lemma {:induction false} ServedKeepsWindow<I>(list: seq<Item<I, Ideal>>, now: int, lo: int)
    requires InWindow(list, now, lo) && list != [] && list[0].key.due <= now
    ensures InWindow(Served(list, now), now, lo)
  {
    var x := list[0];
    assert x in list;
    if x.key.period != 0 {
      RearmIsFuture(x.key, now, lo);
      InsertMembers(CompareIdeal, list[1..], Item(x.id, RearmedIdeal(x.key, now)));
    }
  }

  ghost predicate SortedIdeal<I>(list: seq<Item<I, Ideal>>) {
    forall i, j | 0 <= i < j < |list| :: list[i].key.due <= list[j].key.due
  }

  lemma {:induction false} IdealPreorder<I>(list: seq<Item<I, Ideal>>)
    ensures PreorderOn(CompareIdeal, list)
    ensures SortedBy(CompareIdeal, list) <==> SortedIdeal(list)
  {
  }

  lemma {:induction false} InsertKeepsSorted<I>(list: seq<Item<I, Ideal>>, x: Item<I, Ideal>)
    requires SortedIdeal(list)
    ensures SortedIdeal(Insert(CompareIdeal, list, x))
  {
    IdealPreorder(list);
    IdealPreorder(list + [x]);
    InsertSorted(CompareIdeal, list, x);
    IdealPreorder(Insert(CompareIdeal, list, x));
  }

  lemma {:induction false} ServedKeepsSorted<I>(list: seq<Item<I, Ideal>>, now: int)
    requires SortedIdeal(list) && list != []
    ensures SortedIdeal(Served(list, now))
  {
    var x := list[0];
    if x.key.period != 0 {
      InsertKeepsSorted(list[1..], Item(x.id, RearmedIdeal(x.key, now)));
    }
  }

  /** One turn of the 32-bit walk at the head of the list lands where the ideal service does. */
  lemma {:induction false} TurnRefines<I>(list: seq<Item<I, Ideal>>, now: int, lo: int)
    requires InWindow(list, now, lo) && SortedIdeal(list) && list != [] && list[0].key.due <= now
    ensures Reinserted(LowerAll(list), 0, Wrap32(now)).0 == LowerAll(Served(list, now))
    ensures var pos := Reinserted(LowerAll(list), 0, Wrap32(now)).1;
            pos == 0 || (pos == 1 && (Served(list, now)[0].key.due > now)
                         && (|Served(list, now)| == 1 || Served(list, now)[1].key.due > now))
  {
    var x := list[0];
    assert x in list;
    assert RemoveAt(LowerAll(list), 0) == LowerAll(list[1..]);
    if x.key.period != 0 {
      var y := Item(x.id, RearmedIdeal(x.key, now));
      RearmRefines(x.key, now, lo);
      RearmIsFuture(x.key, now, lo);
      assert forall z | z in list[1..] :: z in list;
      InsertRefines(list[1..], y, lo);
      FrontPosRefines(list[1..], y.key, lo);
    }
  }

  lemma {:induction false} PollIdealStep<I>(list: seq<Item<I, Ideal>>, now: int, batch: seq<Element>)
    requires |batch| < MAX_TASKS_PER_EXECUTION
    ensures list == [] || list[0].key.due > now ==> PollIdeal(list, now, batch) == Polled(list, batch)
    ensures list != [] && list[0].key.due <= now ==>
              var batch' := batch + [ElementOf(Lower(list[0].key))];
              PollIdeal(list, now, batch) ==
              if |batch'| == MAX_TASKS_PER_EXECUTION then Polled(Served(list, now), batch')
              else PollIdeal(Served(list, now), now, batch')
  {
  }

  lemma {:induction false} PollTimedStop<I>(list: seq<Item<I, Schedulable>>, pos: nat, compareTimer: uint32,
      batch: seq<Element>)
    requires pos <= |list| && |batch| < MAX_TASKS_PER_EXECUTION
    requires pos == |list| || TimeDiff(list[pos].key, compareTimer) > 0
    ensures PollTimed(list, pos, compareTimer, batch) == Polled(list, batch)
  {
  }

  lemma {:induction false} PollTimedStep<I>(list: seq<Item<I, Schedulable>>, pos: nat, compareTimer: uint32,
      batch: seq<Element>)
    requires pos < |list| && |batch| < MAX_TASKS_PER_EXECUTION && TimeDiff(list[pos].key, compareTimer) <= 0
    ensures var r := Reinserted(list, pos, compareTimer);
            var batch' := batch + [ElementOf(list[pos].key)];
            PollTimed(list, pos, compareTimer, batch) ==
            if |batch'| == MAX_TASKS_PER_EXECUTION then Polled(r.0, batch')
            else PollTimed(r.0, r.1, compareTimer, batch')
  {
  }

  lemma DueRefines(a: Ideal, now: int, lo: int)
    requires lo <= now < lo + 0x8000_0000 && lo <= a.due < lo + 0x8000_0000
    ensures TimeDiff(Lower(a), Wrap32(now)) == a.due - now
  {
    SignedDifferenceExact(a.due, now);
  }

  /** A cursor that was pushed behind the new head has no due task in front of it. */
  lemma {:induction false} SecondNotDue<I>(list: seq<Item<I, Ideal>>, now: int, lo: int, batch: seq<Element>)
    requires InWindow(list, now, lo) && |batch| < MAX_TASKS_PER_EXECUTION
    requires list != [] && list[0].key.due > now && (|list| == 1 || list[1].key.due > now)
    ensures PollTimed(LowerAll(list), 1, Wrap32(now), batch) == PollTimed(LowerAll(list), 0, Wrap32(now), batch)
  {
    assert list[0] in list && (|list| > 1 ==> list[1] in list);
    DueRefines(list[0].key, now, lo);
    PollTimedStop(LowerAll(list), 0, Wrap32(now), batch);
    if |list| > 1 {
      DueRefines(list[1].key, now, lo);
    }
    PollTimedStop(LowerAll(list), 1, Wrap32(now), batch);
  }

  /** The walk over 32-bit words makes the same decisions as the service on unbounded times. */
  lemma {:induction false} PollRefines<I>(list: seq<Item<I, Ideal>>, now: int, lo: int, batch: seq<Element>)
    requires InWindow(list, now, lo) && SortedIdeal(list) && |batch| < MAX_TASKS_PER_EXECUTION
    ensures PollTimed(LowerAll(list), 0, Wrap32(now), batch)
         == Polled(LowerAll(PollIdeal(list, now, batch).list), PollIdeal(list, now, batch).batch)
    decreases MAX_TASKS_PER_EXECUTION - |batch|
  {
    PollIdealStep(list, now, batch);
    if list == [] {
      PollTimedStop(LowerAll(list), 0, Wrap32(now), batch);
    } else {
      assert list[0] in list;
      DueRefines(list[0].key, now, lo);
      if list[0].key.due > now {
        PollTimedStop(LowerAll(list), 0, Wrap32(now), batch);
      } else {
        TurnRefines(list, now, lo);
        ServedKeepsWindow(list, now, lo);
        ServedKeepsSorted(list, now);
        hide PollTimed, PollIdeal, Served, Reinserted, InWindow, SortedIdeal, LowerAll;
        PollTimedStep(LowerAll(list), 0, Wrap32(now), batch);
        var batch', list' := batch + [ElementOf(Lower(list[0].key))], Served(list, now);
        if |batch'| < MAX_TASKS_PER_EXECUTION {
          PollRefines(list', now, lo, batch');
          if Reinserted(LowerAll(list), 0, Wrap32(now)).1 == 1 {
            SecondNotDue(list', now, lo, batch');
          }
        }
      }
    }
  }

  // ---------------------------------------------------------------- what a service does

  function DueCount<I>(list: seq<Item<I, Ideal>>, now: int): (n: nat)
    ensures n <= |list|
    ensures forall i | 0 <= i < n :: list[i].key.due <= now
    ensures n < |list| ==> list[n].key.due > now
  {
    if list == [] || list[0].key.due > now then 0 else 1 + DueCount(list[1..], now)
  }

  function Elements<I>(list: seq<Item<I, Ideal>>): seq<Element> {
    if list == [] then [] else [ElementOf(Lower(list[0].key))] + Elements(list[1..])
  }

  /** The periodic ones among the served tasks, with their next due times. */
  function Rearms<I>(served: seq<Item<I, Ideal>>, now: int): seq<Item<I, Ideal>> {
    if served == [] then []
    else (if served[0].key.period == 0 then [] else [Item(served[0].id, RearmedIdeal(served[0].key, now))])
         + Rearms(served[1..], now)
  }

  function ServiceCount<I>(list: seq<Item<I, Ideal>>, now: int, queued: nat): nat
    requires queued < MAX_TASKS_PER_EXECUTION
  {
    var room := MAX_TASKS_PER_EXECUTION - queued;
    if DueCount(list, now) < room then DueCount(list, now) else room
  }

  lemma {:induction false} ServedSplits<I>(list: seq<Item<I, Ideal>>, now: int, k: nat)
    requires SortedIdeal(list) && 0 < k <= DueCount(list, now)
    ensures DueCount(Served(list, now), now) == DueCount(list, now) - 1
    ensures k - 1 <= |Served(list, now)| && Served(list, now)[..k - 1] == list[1..k]
    ensures Served(list, now)[k - 1..]
         == InsertAllFromFront(CompareIdeal, list[k..], Rearms(list[..1], now))
  {
    var x, rest := list[0], list[1..];
    assert rest[..k - 1] == list[1..k] && rest[k - 1..] == list[k..];
    assert list[..1][1..] == [];
    DueCountIs(rest, now, DueCount(list, now) - 1);
    if x.key.period == 0 {
      assert Rearms(list[..1], now) == [];
    } else {
      var y := Item(x.id, RearmedIdeal(x.key, now));
      assert Rearms(list[..1], now) == [y];
      InsertBehindDue(rest, now, k - 1, y);
    }
  }

  lemma {:induction false} DueCountIs<I>(list: seq<Item<I, Ideal>>, now: int, n: nat)
    requires n <= |list| && (forall i | 0 <= i < n :: list[i].key.due <= now)
    requires n < |list| ==> list[n].key.due > now
    ensures DueCount(list, now) == n
  {
  }

  lemma InsertAtBehind<T>(s: seq<T>, j: nat, p: nat, y: T)
    requires j <= p <= |s|
    ensures InsertAt(s, p, y)[..j] == s[..j]
    ensures InsertAt(s, p, y)[j..] == InsertAt(s[j..], p - j, y)
  {
    assert s[j..][..p - j] == s[j..p] && s[j..][p - j..] == s[p..];
    assert s[..p] == s[..j] + s[j..p];
  }

  /** A future due time is inserted behind every due task. */
  lemma {:induction false} InsertBehindDue<I>(list: seq<Item<I, Ideal>>, now: int, j: nat, y: Item<I, Ideal>)
    requires j <= DueCount(list, now) && y.key.due > now
    ensures var r := Insert(CompareIdeal, list, y);
            && r[..j] == list[..j] && r[j..] == Insert(CompareIdeal, list[j..], y)
            && DueCount(r, now) == DueCount(list, now)
  {
    hide FrontPos, DueCount;
    var p := FrontPos(CompareIdeal, list, y.key);
    assert p >= DueCount(list, now);
    FrontPosIs(CompareIdeal, list[j..], y.key, p - j);
    InsertAtBehind(list, j, p, y);
    DueCountIs(Insert(CompareIdeal, list, y), now, DueCount(list, now));
  }

  lemma {:induction false} RearmsSplit<I>(served: seq<Item<I, Ideal>>, now: int)
    requires served != []
    ensures Rearms(served, now) == Rearms(served[..1], now) + Rearms(served[1..], now)
    ensures Elements(served) == [ElementOf(Lower(served[0].key))] + Elements(served[1..])
  {
    assert served[..1][1..] == [];
  }

  lemma {:induction false} InsertAllSplit<I>(acc: seq<Item<I, Ideal>>, s: seq<Item<I, Ideal>>, t: seq<Item<I, Ideal>>)
    requires |s| <= 1
    ensures InsertAllFromFront(CompareIdeal, acc, s + t)
         == InsertAllFromFront(CompareIdeal, InsertAllFromFront(CompareIdeal, acc, s), t)
  {
    if s == [] {
      assert s + t == t;
    } else {
      assert s[1..] == [] && (s + t)[1..] == t;
    }
  }

  lemma {:induction false} ServeNothing<I>(list: seq<Item<I, Ideal>>, now: int)
    ensures Elements(list[..0]) == [] && InsertAllFromFront(CompareIdeal, list[0..], Rearms(list[..0], now)) == list
  {
    assert list[..0] == [] && list[0..] == list;
  }

  lemma {:induction false} ServeOneMore<I>(list: seq<Item<I, Ideal>>, now: int, k: nat)
    requires SortedIdeal(list) && 0 < k <= DueCount(list, now)
    ensures var list' := Served(list, now);
            && k - 1 <= |list'| && DueCount(list', now) == DueCount(list, now) - 1
            && Elements(list[..k]) == [ElementOf(Lower(list[0].key))] + Elements(list'[..k - 1])
            && InsertAllFromFront(CompareIdeal, list[k..], Rearms(list[..k], now))
               == InsertAllFromFront(CompareIdeal, list'[k - 1..], Rearms(list'[..k - 1], now))
  {
    ServedSplits(list, now, k);
    hide InsertAllFromFront, Rearms, Elements, Served;
    assert list[..k][..1] == list[..1] && list[..k][1..] == list[1..k] && list[..k][0] == list[0];
    RearmsSplit(list[..k], now);
    RearmsShort(list[..1], now);
    InsertAllSplit(list[k..], Rearms(list[..1], now), Rearms(list[1..k], now));
  }

  lemma RearmsShort<I>(s: seq<Item<I, Ideal>>, now: int)
    requires |s| == 1
    ensures |Rearms(s, now)| <= 1
  {
  }

  /**
   Service in closed form: exactly the first tasks that are due, up to the free room, are queued,
   each once and in due order; the rest keep their order and the periodic ones served come back.
   */
  ghost predicate ServesInOrder<I>(list: seq<Item<I, Ideal>>, now: int, batch: seq<Element>, r: Polled<I, Ideal>)
    requires |batch| < MAX_TASKS_PER_EXECUTION
  {
    var k := ServiceCount(list, now, |batch|);
    && r.batch == batch + Elements(list[..k])
    && r.list == InsertAllFromFront(CompareIdeal, list[k..], Rearms(list[..k], now))
  }

  lemma {:induction false} ServesNothing<I>(list: seq<Item<I, Ideal>>, now: int, batch: seq<Element>)
    requires |batch| < MAX_TASKS_PER_EXECUTION && (list == [] || list[0].key.due > now)
    ensures ServesInOrder(list, now, batch, Polled(list, batch))
  {
    ServeNothing(list, now);
    assert batch + [] == batch;
  }

  lemma ConcatAssociates<T>(s: seq<T>, x: T, t: seq<T>)
    ensures s + [x] + t == s + ([x] + t)
  {
  }

  lemma {:induction false} ServesLast<I>(list: seq<Item<I, Ideal>>, now: int, batch: seq<Element>)
    requires SortedIdeal(list) && |batch| == MAX_TASKS_PER_EXECUTION - 1 && list != [] && list[0].key.due <= now
    ensures ServesInOrder(list, now, batch, Polled(Served(list, now), batch + [ElementOf(Lower(list[0].key))]))
  {
    var k := ServiceCount(list, now, |batch|);
    hide DueCount, Rearms, Elements, InsertAllFromFront, SortedIdeal, Served;
    ServeOneMore(list, now, k);
    ServeNothing(Served(list, now), now);
  }

  lemma OneFewer<I>(list: seq<Item<I, Ideal>>, list': seq<Item<I, Ideal>>, now: int, queued: nat)
    requires queued < MAX_TASKS_PER_EXECUTION - 1 && DueCount(list, now) > 0
             && DueCount(list', now) == DueCount(list, now) - 1
    ensures 0 < ServiceCount(list, now, queued) <= DueCount(list, now) <= |list|
    ensures ServiceCount(list', now, queued + 1) == ServiceCount(list, now, queued) - 1
  {
  }

  lemma ServesParts<I>(list: seq<Item<I, Ideal>>, now: int, batch: seq<Element>, r: Polled<I, Ideal>, k: nat)
    requires |batch| < MAX_TASKS_PER_EXECUTION && k == ServiceCount(list, now, |batch|) && k <= |list|
    ensures ServesInOrder(list, now, batch, r) <==>
            && r.batch == batch + Elements(list[..k])
            && r.list == InsertAllFromFront(CompareIdeal, list[k..], Rearms(list[..k], now))
  {
  }

  lemma HeadIsDue<I>(list: seq<Item<I, Ideal>>, now: int)
    requires list != [] && list[0].key.due <= now
    ensures DueCount(list, now) > 0
  {
  }

  lemma OneLonger(batch: seq<Element>, e: Element)
    requires |batch| < MAX_TASKS_PER_EXECUTION - 1
    ensures |batch + [e]| == |batch| + 1 < MAX_TASKS_PER_EXECUTION
  {
  }

  lemma {:induction false} ServesMore<I>(list: seq<Item<I, Ideal>>, now: int, batch: seq<Element>, r: Polled<I, Ideal>)
    requires SortedIdeal(list) && |batch| < MAX_TASKS_PER_EXECUTION - 1 && list != [] && list[0].key.due <= now
    requires ServesInOrder(Served(list, now), now, batch + [ElementOf(Lower(list[0].key))], r)
    ensures ServesInOrder(list, now, batch, r)
  {
    hide *;
    var k, e, list' := ServiceCount(list, now, |batch|), ElementOf(Lower(list[0].key)), Served(list, now);
    HeadIsDue(list, now);
    OneLonger(batch, e);
    ServeOneMore(list, now, 1);
    OneFewer(list, list', now, |batch|);
    ServeOneMore(list, now, k);
    ConcatAssociates(batch, e, Elements(list'[..k - 1]));
    ServesParts(list', now, batch + [e], r, k - 1);
    ServesParts(list, now, batch, r, k);
  }

  lemma {:induction false} PollServes<I>(list: seq<Item<I, Ideal>>, now: int, batch: seq<Element>)
    requires SortedIdeal(list) && |batch| < MAX_TASKS_PER_EXECUTION
    ensures ServesInOrder(list, now, batch, PollIdeal(list, now, batch))
    decreases MAX_TASKS_PER_EXECUTION - |batch|
  {
    PollIdealStep(list, now, batch);
    if list == [] || list[0].key.due > now {
      ServesNothing(list, now, batch);
    } else {
      ServedKeepsSorted(list, now);
      hide PollIdeal, Served, SortedIdeal, ServesInOrder;
      var list', batch' := Served(list, now), batch + [ElementOf(Lower(list[0].key))];
      if |batch'| == MAX_TASKS_PER_EXECUTION {
        ServesLast(list, now, batch);
      } else {
        PollServes(list', now, batch');
        ServesMore(list, now, batch, PollIdeal(list', now, batch'));
      }
    }
  }

  /** A poll leaves the list sorted; with room to spare it leaves only tasks of the future. */
  lemma {:induction false} PollKeepsSorted<I>(list: seq<Item<I, Ideal>>, now: int, batch: seq<Element>)
    requires SortedIdeal(list) && |batch| < MAX_TASKS_PER_EXECUTION
    ensures var r := PollIdeal(list, now, batch);
            && SortedIdeal(r.list)
            && (|r.batch| < MAX_TASKS_PER_EXECUTION ==> forall x | x in r.list :: x.key.due > now)
    decreases MAX_TASKS_PER_EXECUTION - |batch|
  {
    PollIdealStep(list, now, batch);
    if list != [] && list[0].key.due <= now {
      var list', batch' := Served(list, now), batch + [ElementOf(Lower(list[0].key))];
      ServedKeepsSorted(list, now);
      if |batch'| < MAX_TASKS_PER_EXECUTION {
        PollKeepsSorted(list', now, batch');
      }
    }
  }

  // ---------------------------------------------------------------- the grid of a periodic task

  /** The due time of a task first due at `a.due` after services at the times `servedAt`. */
  function DueAfter(a: Ideal, servedAt: seq<int>): int {
    if servedAt == [] then a.due
    else
      var last := |servedAt| - 1;
      RearmedIdeal(a.(due := DueAfter(a, servedAt[..last])), servedAt[last]).due
  }

  ghost predicate ServedWhenDue(a: Ideal, servedAt: seq<int>) {
    forall i | 0 <= i < |servedAt| :: servedAt[i] >= DueAfter(a, servedAt[..i])
  }

  lemma {:induction false} ServedPrefix(a: Ideal, servedAt: seq<int>)
    requires ServedWhenDue(a, servedAt) && servedAt != []
    ensures ServedWhenDue(a, servedAt[..|servedAt| - 1])
  {
    var init := servedAt[..|servedAt| - 1];
    assert forall i | 0 <= i < |init| :: init[..i] == servedAt[..i];
  }

  lemma OneMorePeriod(n: nat, period: int)
    ensures (n + 1) * period == n * period + period
  {
  }

  lemma DueAfterOneMore(a: Ideal, servedAt: seq<int>)
    requires a.period != 0 && ServedWhenDue(a, servedAt) && servedAt != []
    ensures var n := |servedAt| - 1;
            var d := DueAfter(a, servedAt[..n]);
            && servedAt[n] >= d
            && DueAfter(a, servedAt) == if servedAt[n] - d >= a.period then servedAt[n] + 1 else d + a.period
  {
  }

  lemma PromptOf(a: Ideal, n: nat, servedAt: int)
    ensures PromptAt(a, n, servedAt) <==> servedAt - (a.due + n * a.period) < a.period
  {
  }

  /** A task is due no earlier than its grid point. */
  lemma {:induction false} NotBeforeGrid(a: Ideal, servedAt: seq<int>)
    requires a.period != 0 && ServedWhenDue(a, servedAt)
    ensures DueAfter(a, servedAt) >= a.due + |servedAt| * a.period
  {
    if servedAt != [] {
      var init := servedAt[..|servedAt| - 1];
      ServedPrefix(a, servedAt);
      DueAfterOneMore(a, servedAt);
      hide DueAfter, ServedWhenDue;
      NotBeforeGrid(a, init);
      OneMorePeriod(|init|, a.period);
    }
  }

  /** The i-th service comes less than one period after the i-th grid point. */
  predicate PromptAt(a: Ideal, i: nat, servedAt: int) {
    servedAt - (a.due + i * a.period) < a.period
  }

  /** One service moves a task from grid point `g` to the next iff it was on `g` and is served promptly. */
  lemma GridStep(d: int, g: int, period: int, t: int, d': int)
    requires 0 < period && g <= d <= t && d' == if t - d >= period then t + 1 else d + period
    ensures d' == g + period <==> d == g && t - g < period
  {
  }

  ghost predicate AllPrompt(a: Ideal, servedAt: seq<int>) {
    forall i | 0 <= i < |servedAt| :: PromptAt(a, i, servedAt[i])
  }

  lemma AllPromptOneMore(a: Ideal, servedAt: seq<int>)
    requires servedAt != []
    ensures var n := |servedAt| - 1;
            AllPrompt(a, servedAt) <==> AllPrompt(a, servedAt[..n]) && PromptAt(a, n, servedAt[n])
  {
    hide PromptAt;
  }

  /**
   After k services a periodic task is due exactly at start + k * period iff every service came
   less than one period after its own grid point.
   */
  lemma {:induction false} GridKeptIffPrompt(a: Ideal, servedAt: seq<int>)
    requires a.period != 0 && ServedWhenDue(a, servedAt)
    ensures DueAfter(a, servedAt) == a.due + |servedAt| * a.period <==> AllPrompt(a, servedAt)
  {
    hide *;
    if servedAt == [] {
      NothingServed(a);
    } else {
      var n := |servedAt| - 1;
      ServedPrefix(a, servedAt);
      DueAfterOneMore(a, servedAt);
      GridKeptIffPrompt(a, servedAt[..n]);
      NotBeforeGrid(a, servedAt[..n]);
      AllPromptOneMore(a, servedAt);
      GridMoves(a, n, servedAt[n], DueAfter(a, servedAt[..n]), DueAfter(a, servedAt));
    }
  }

  lemma NothingServed(a: Ideal)
    ensures DueAfter(a, []) == a.due && AllPrompt(a, [])
  {
  }

  /** One service, on the grid of the task. */
  lemma GridMoves(a: Ideal, n: nat, t: int, d: int, d': int)
    requires a.period != 0 && a.due + n * a.period <= d <= t
    requires d' == if t - d >= a.period then t + 1 else d + a.period
    ensures d' == a.due + (n + 1) * a.period <==> d == a.due + n * a.period && PromptAt(a, n, t)
  {
    hide PromptAt;
    PromptOf(a, n, t);
    OneMorePeriod(n, a.period);
    GridStep(d, a.due + n * a.period, a.period, t, d');
  }

  // ---------------------------------------------------------------- whole runs

  /**
   What can happen to a timer list: a task is added, the task at a position is cancelled, or it is
   polled for an execution queue that holds `front` already.
   */
  datatype TimerOp<I> = Add(x: Item<I, Ideal>) | Cancel(pos: nat) | Poll(now: int, front: seq<Element>)

  function StepIdeal<I>(list: seq<Item<I, Ideal>>, op: TimerOp<I>): Polled<I, Ideal> {
    match op
    case Add(x) => Polled(Insert(CompareIdeal, list, x), [])
    case Cancel(pos) => Polled(if pos < |list| then RemoveAt(list, pos) else list, [])
    case Poll(now, front) =>
      if |front| < MAX_TASKS_PER_EXECUTION then PollIdeal(list, now, front) else Polled(list, front)
  }

  function StepWords<I>(list: seq<Item<I, Schedulable>>, op: TimerOp<I>): Polled<I, Schedulable> {
    match op
    case Add(x) => Polled(Insert(NodeCompare, list, LowerItem(x)), [])
    case Cancel(pos) => Polled(if pos < |list| then RemoveAt(list, pos) else list, [])
    case Poll(now, front) =>
      if |front| < MAX_TASKS_PER_EXECUTION then PollTimed(list, 0, Wrap32(now), front) else Polled(list, front)
  }

  /** The list after a run, and everything that was queued for execution during it. */
  function RunIdeal<I>(list: seq<Item<I, Ideal>>, ops: seq<TimerOp<I>>): Polled<I, Ideal>
    decreases |ops|
  {
    if ops == [] then Polled(list, [])
    else
      var s := StepIdeal(list, ops[0]);
      var r := RunIdeal(s.list, ops[1..]);
      Polled(r.list, s.batch + r.batch)
  }

  function RunWords<I>(list: seq<Item<I, Schedulable>>, ops: seq<TimerOp<I>>): Polled<I, Schedulable>
    decreases |ops|
  {
    if ops == [] then Polled(list, [])
    else
      var s := StepWords(list, ops[0]);
      var r := RunWords(s.list, ops[1..]);
      Polled(r.list, s.batch + r.batch)
  }

  /** At each step the times in play span less than 2^31; the window may move on between steps. */
  ghost predicate StepInWindow<I>(list: seq<Item<I, Ideal>>, op: TimerOp<I>, lo: int) {
    match op
    case Add(x) => forall y | y in list + [x] :: lo <= y.key.due < lo + 0x8000_0000
    case Cancel(_) => true
    case Poll(now, front) => |front| < MAX_TASKS_PER_EXECUTION ==> InWindow(list, now, lo)
  }

  ghost predicate RunInWindow<I>(list: seq<Item<I, Ideal>>, ops: seq<TimerOp<I>>, los: seq<int>)
    requires |ops| == |los|
    decreases |ops|
  {
    ops != [] ==> StepInWindow(list, ops[0], los[0]) && RunInWindow(StepIdeal(list, ops[0]).list, ops[1..], los[1..])
  }

  lemma {:induction false} AddRefines<I>(list: seq<Item<I, Ideal>>, x: Item<I, Ideal>, lo: int)
    requires SortedIdeal(list) && forall y | y in list + [x] :: lo <= y.key.due < lo + 0x8000_0000
    ensures SortedIdeal(Insert(CompareIdeal, list, x))
    ensures Insert(NodeCompare, LowerAll(list), LowerItem(x)) == LowerAll(Insert(CompareIdeal, list, x))
  {
    hide LowerAll, LowerItem, Insert, SortedIdeal;
    assert x in list + [x] && forall y | y in list :: y in list + [x];
    InsertRefines(list, x, lo);
    InsertKeepsSorted(list, x);
  }

  lemma {:induction false} CancelRefines<I>(list: seq<Item<I, Ideal>>, pos: nat)
    requires SortedIdeal(list) && pos < |list|
    ensures SortedIdeal(RemoveAt(list, pos))
    ensures RemoveAt(LowerAll(list), pos) == LowerAll(RemoveAt(list, pos))
  {
    hide LowerAll, LowerItem;
  }

  lemma PollStepRefines<I>(list: seq<Item<I, Ideal>>, now: int, front: seq<Element>, lo: int)
    requires SortedIdeal(list) && |front| < MAX_TASKS_PER_EXECUTION && InWindow(list, now, lo)
    ensures SortedIdeal(PollIdeal(list, now, front).list)
    ensures PollTimed(LowerAll(list), 0, Wrap32(now), front)
         == Polled(LowerAll(PollIdeal(list, now, front).list), PollIdeal(list, now, front).batch)
  {
    hide *;
    PollRefines(list, now, lo, front);
    PollKeepsSorted(list, now, front);
  }

  lemma {:induction false} StepRefines<I>(list: seq<Item<I, Ideal>>, op: TimerOp<I>, lo: int)
    requires SortedIdeal(list) && StepInWindow(list, op, lo)
    ensures SortedIdeal(StepIdeal(list, op).list)
    ensures StepWords(LowerAll(list), op) == Polled(LowerAll(StepIdeal(list, op).list), StepIdeal(list, op).batch)
  {
    hide LowerAll, LowerItem, SortedIdeal, InWindow, PollTimed, PollIdeal, Insert, RemoveAt, Wrap32;
    match op {
      case Add(x) => AddRefines(list, x, lo);
      case Cancel(pos) =>
        if pos < |list| {
          CancelRefines(list, pos);
        }
      case Poll(now, front) =>
        if |front| < MAX_TASKS_PER_EXECUTION {
          PollStepRefines(list, now, front, lo);
        }
    }
  }

  /** Over any run, across any number of counter wraps, the 32-bit scheduler is the unbounded one. */
  lemma {:induction false} RunRefines<I>(list: seq<Item<I, Ideal>>, ops: seq<TimerOp<I>>, los: seq<int>)
    requires SortedIdeal(list) && |ops| == |los| && RunInWindow(list, ops, los)
    ensures SortedIdeal(RunIdeal(list, ops).list)
    ensures RunWords(LowerAll(list), ops) == Polled(LowerAll(RunIdeal(list, ops).list), RunIdeal(list, ops).batch)
    decreases |ops|
  {
    if ops != [] {
      hide StepIdeal, StepWords, StepInWindow, LowerAll, SortedIdeal;
      StepRefines(list, ops[0], los[0]);
      RunRefines(StepIdeal(list, ops[0]).list, ops[1..], los[1..]);
    }
  }

  // ---------------------------------------------------------------- one periodic task over a run

  /** How many items of the list belong to a schedulable. */
  ghost function CountOf<I>(list: seq<Item<I, Ideal>>, id: I): nat {
    if list == [] then 0 else (if list[0].id == id then 1 else 0) + CountOf(list[1..], id)
  }

  /** The list holds this item, and no other one of its schedulable. */
  ghost predicate HoldsOnce<I>(list: seq<Item<I, Ideal>>, x: Item<I, Ideal>) {
    x in list && CountOf(list, x.id) == 1
  }

  lemma {:induction false} CountConcat<I>(s: seq<Item<I, Ideal>>, t: seq<Item<I, Ideal>>, id: I)
    ensures CountOf(s + t, id) == CountOf(s, id) + CountOf(t, id)
  {
    if s == [] {
      assert s + t == t;
    } else {
      assert (s + t)[1..] == s[1..] + t;
      CountConcat(s[1..], t, id);
    }
  }

  lemma {:induction false} CountedIfListed<I>(list: seq<Item<I, Ideal>>, id: I)
    ensures (exists x :: x in list && x.id == id) <==> CountOf(list, id) > 0
  {
    if list != [] {
      CountedIfListed(list[1..], id);
      assert list == [list[0]] + list[1..];
      assert list[0] in list && forall x | x in list[1..] :: x in list;
    }
  }

  lemma {:induction false} InsertCounts<I>(list: seq<Item<I, Ideal>>, y: Item<I, Ideal>, id: I)
    ensures CountOf(Insert(CompareIdeal, list, y), id) == CountOf(list, id) + if y.id == id then 1 else 0
    ensures forall z | z in list || z == y :: z in Insert(CompareIdeal, list, y)
  {
    var p := FrontPos(CompareIdeal, list, y.key);
    assert list == list[..p] + list[p..];
    assert [y][1..] == [];
    CountConcat(list[..p], list[p..], id);
    CountConcat(list[..p], [y], id);
    CountConcat(list[..p] + [y], list[p..], id);
  }

  lemma {:induction false} InsertAllCounts<I>(acc: seq<Item<I, Ideal>>, t: seq<Item<I, Ideal>>, id: I)
    ensures CountOf(InsertAllFromFront(CompareIdeal, acc, t), id) == CountOf(acc, id) + CountOf(t, id)
    ensures forall z | z in acc || z in t :: z in InsertAllFromFront(CompareIdeal, acc, t)
    decreases |t|
  {
    InsertAllFromFrontStep(CompareIdeal, acc, t);
    if t != [] {
      hide InsertAllFromFront, Insert;
      InsertCounts(acc, t[0], id);
      InsertAllCounts(Insert(CompareIdeal, acc, t[0]), t[1..], id);
      assert t == [t[0]] + t[1..];
    }
  }

  lemma {:induction false} RearmsCount<I>(served: seq<Item<I, Ideal>>, now: int, x: Item<I, Ideal>)
    ensures CountOf(Rearms(served, now), x.id) <= CountOf(served, x.id)
    ensures x in served && x.key.period != 0 ==> Item(x.id, RearmedIdeal(x.key, now)) in Rearms(served, now)
  {
    if served != [] {
      var head := if served[0].key.period == 0 then [] else [Item(served[0].id, RearmedIdeal(served[0].key, now))];
      RearmsCount(served[1..], now, x);
      CountConcat(head, Rearms(served[1..], now), x.id);
      assert head != [] ==> head[1..] == [];
      assert served == [served[0]] + served[1..];
    }
  }

  /** The poll queues the schedulable: it is among the first that are due, up to the free room. */
  ghost predicate Queues<I>(list: seq<Item<I, Ideal>>, op: TimerOp<I>, id: I) {
    && op.Poll? && |op.front| < MAX_TASKS_PER_EXECUTION
    && ServiceCount(list, op.now, |op.front|) <= |list|
    && CountOf(list[..ServiceCount(list, op.now, |op.front|)], id) > 0
  }

  /** What the step makes of a periodic task that it neither adds nor cancels. */
  ghost function AfterStep<I>(list: seq<Item<I, Ideal>>, op: TimerOp<I>, x: Item<I, Ideal>): Item<I, Ideal> {
    if Queues(list, op, x.id) then Item(x.id, RearmedIdeal(x.key, op.now)) else x
  }

  /** The step adds no item of this schedulable and does not cancel it. */
  ghost predicate Leaves<I>(list: seq<Item<I, Ideal>>, op: TimerOp<I>, id: I) {
    match op
    case Add(x) => x.id != id
    case Cancel(pos) => pos < |list| ==> list[pos].id != id
    case Poll(_, _) => true
  }

  lemma {:induction false} CancelKeepsTask<I>(list: seq<Item<I, Ideal>>, pos: nat, x: Item<I, Ideal>)
    requires HoldsOnce(list, x) && pos < |list| && list[pos].id != x.id
    ensures HoldsOnce(RemoveAt(list, pos), x)
  {
    var one := [list[pos]];
    assert one[1..] == [];
    assert list == list[..pos] + one + list[pos + 1..];
    CountConcat(list[..pos], one, x.id);
    CountConcat(list[..pos] + one, list[pos + 1..], x.id);
    CountConcat(list[..pos], list[pos + 1..], x.id);
  }

  lemma {:induction false} ServiceCountIsDue<I>(list: seq<Item<I, Ideal>>, now: int, queued: nat)
    requires queued < MAX_TASKS_PER_EXECUTION
    ensures ServiceCount(list, now, queued) <= |list|
    ensures forall x | x in list[..ServiceCount(list, now, queued)] :: x.key.due <= now
  {
  }

  lemma {:induction false} SplitHolds<I>(list: seq<Item<I, Ideal>>, k: nat, x: Item<I, Ideal>)
    requires HoldsOnce(list, x) && k <= |list|
    ensures CountOf(list[..k], x.id) + CountOf(list[k..], x.id) == 1
    ensures if CountOf(list[..k], x.id) > 0 then x in list[..k] else x in list[k..]
  {
    assert list == list[..k] + list[k..];
    CountConcat(list[..k], list[k..], x.id);
    CountedIfListed(list[..k], x.id);
    CountedIfListed(list[k..], x.id);
  }

  /** A poll moves a task that it queues to its next due time, and only such a task; it is due then. */
  lemma {:induction false} PollKeepsTask<I>(list: seq<Item<I, Ideal>>, op: TimerOp<I>, x: Item<I, Ideal>)
    requires SortedIdeal(list) && HoldsOnce(list, x) && x.key.period != 0 && op.Poll?
             && |op.front| < MAX_TASKS_PER_EXECUTION
    ensures HoldsOnce(PollIdeal(list, op.now, op.front).list, AfterStep(list, op, x))
    ensures Queues(list, op, x.id) ==> x.key.due <= op.now
  {
    var now, front := op.now, op.front;
    var k := ServiceCount(list, now, |front|);
    hide SortedIdeal, PollIdeal, ServiceCount, RearmedIdeal, Rearms, InsertAllFromFront, CountOf;
    ServiceCountIsDue(list, now, |front|);
    PollServes(list, now, front);
    SplitHolds(list, k, x);
    var y := Item(x.id, RearmedIdeal(x.key, now));
    RearmsCount(list[..k], now, x);
    CountedIfListed(Rearms(list[..k], now), x.id);
    InsertAllCounts(list[k..], Rearms(list[..k], now), x.id);
  }

  lemma {:induction false} StepKeepsTask<I>(list: seq<Item<I, Ideal>>, op: TimerOp<I>, x: Item<I, Ideal>)
    requires SortedIdeal(list) && HoldsOnce(list, x) && x.key.period != 0 && Leaves(list, op, x.id)
    ensures HoldsOnce(StepIdeal(list, op).list, AfterStep(list, op, x)) && SortedIdeal(StepIdeal(list, op).list)
    ensures Queues(list, op, x.id) ==> x.key.due <= op.now
  {
    hide SortedIdeal, PollIdeal, Insert, RemoveAt, ServiceCount, CountOf;
    match op {
      case Add(y) =>
        InsertCounts(list, y, x.id);
        InsertKeepsSorted(list, y);
      case Cancel(pos) =>
        if pos < |list| {
          CancelKeepsTask(list, pos, x);
          RemoveKeepsSorted(list, pos);
        }
      case Poll(now, front) =>
        if |front| < MAX_TASKS_PER_EXECUTION {
          PollKeepsTask(list, op, x);
          PollKeepsSorted(list, now, front);
        }
    }
  }

  lemma {:induction false} RemoveKeepsSorted<I>(list: seq<Item<I, Ideal>>, pos: nat)
    requires SortedIdeal(list) && pos < |list|
    ensures SortedIdeal(RemoveAt(list, pos))
  {
  }

  /** The times of the polls that queue the schedulable during a run. */
  ghost function QueuedAt<I>(list: seq<Item<I, Ideal>>, ops: seq<TimerOp<I>>, id: I): seq<int>
    decreases |ops|
  {
    if ops == [] then []
    else (if Queues(list, ops[0], id) then [ops[0].now] else []) + QueuedAt(StepIdeal(list, ops[0]).list, ops[1..], id)
  }

  ghost predicate LeftAlone<I>(list: seq<Item<I, Ideal>>, ops: seq<TimerOp<I>>, id: I)
    decreases |ops|
  {
    ops != [] ==> Leaves(list, ops[0], id) && LeftAlone(StepIdeal(list, ops[0]).list, ops[1..], id)
  }

  /** The first of several services may be told apart instead of the last. */
  lemma {:induction false} DueAfterFirst(a: Ideal, t: int, later: seq<int>)
    ensures DueAfter(a, [t] + later) == DueAfter(RearmedIdeal(a, t), later)
    decreases |later|
  {
    var all := [t] + later;
    if later == [] {
      assert all == [t] && all[..0] == [];
    } else {
      var n := |later| - 1;
      assert all[..n + 1] == [t] + later[..n];
      DueAfterFirst(a, t, later[..n]);
    }
  }

  lemma {:induction false} ServedFirst(a: Ideal, t: int, later: seq<int>)
    requires a.due <= t && ServedWhenDue(RearmedIdeal(a, t), later)
    ensures ServedWhenDue(a, [t] + later)
  {
    var all := [t] + later;
    hide RearmedIdeal;
    forall i | 0 <= i < |all|
      ensures all[i] >= DueAfter(a, all[..i])
    {
      if i == 0 {
        assert all[..0] == [];
      } else {
        assert all[..i] == [t] + later[..i - 1];
        DueAfterFirst(a, t, later[..i - 1]);
      }
    }
  }

  /** Over any run that leaves a periodic task alone, its due time follows from the polls that queued it. */
  lemma {:induction false} RunKeepsTask<I>(list: seq<Item<I, Ideal>>, ops: seq<TimerOp<I>>, x: Item<I, Ideal>)
    requires SortedIdeal(list) && HoldsOnce(list, x) && x.key.period != 0 && LeftAlone(list, ops, x.id)
    ensures var times := QueuedAt(list, ops, x.id);
            && ServedWhenDue(x.key, times)
            && HoldsOnce(RunIdeal(list, ops).list, Item(x.id, x.key.(due := DueAfter(x.key, times))))
    decreases |ops|
  {
    if ops == [] {
    } else {
      var list', y := StepIdeal(list, ops[0]).list, AfterStep(list, ops[0], x);
      StepKeepsTask(list, ops[0], x);
      hide StepIdeal, SortedIdeal, HoldsOnce, ServedWhenDue, DueAfter, Queues, Leaves;
      RunKeepsTask(list', ops[1..], y);
      var later := QueuedAt(list', ops[1..], x.id);
      if Queues(list, ops[0], x.id) {
        ServedFirst(x.key, ops[0].now, later);
        DueAfterFirst(x.key, ops[0].now, later);
      } else {
        assert [] + later == later;
      }
    }
  }

  /**
   Over any run of adds, cancels and polls that neither cancels nor adds a listed periodic task, after
   k polls that queued it the task is listed once, due at start + k * period iff each of these polls
   came less than one period after its grid point.
   */
  lemma {:induction false} GridKeptOverRun<I>(list: seq<Item<I, Ideal>>, ops: seq<TimerOp<I>>, x: Item<I, Ideal>)
    requires SortedIdeal(list) && HoldsOnce(list, x) && x.key.period != 0 && LeftAlone(list, ops, x.id)
    ensures var times := QueuedAt(list, ops, x.id);
            HoldsOnce(RunIdeal(list, ops).list, Item(x.id, x.key.(due := x.key.due + |times| * x.key.period)))
            <==> AllPrompt(x.key, times)
  {
    var times := QueuedAt(list, ops, x.id);
    hide *;
    RunKeepsTask(list, ops, x);
    GridKeptIffPrompt(x.key, times);
    OneDue(RunIdeal(list, ops).list, Item(x.id, x.key.(due := DueAfter(x.key, times))),
           Item(x.id, x.key.(due := x.key.due + |times| * x.key.period)));
  }

  lemma {:induction false} OneDue<I>(list: seq<Item<I, Ideal>>, x: Item<I, Ideal>, y: Item<I, Ideal>)
    requires HoldsOnce(list, x) && x.id == y.id
    ensures HoldsOnce(list, y) ==> x == y
  {
    if HoldsOnce(list, y) {
      var i :| 0 <= i < |list| && list[i] == x;
      SplitHolds(list, i, y);
      assert list[i..][0] == x && list[i..][1..] == list[i + 1..];
      CountedIfListed(list[i + 1..], x.id);
      CountedIfListed(list[..i], x.id);
      assert list[i..] == [x] + list[i + 1..];
    }
  }
}
