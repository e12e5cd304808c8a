/**
 When a timer is served. One priority is followed through any run of pushes, adds, cancels and polls,
 on words as the code keeps it and on unbounded time; a due timer waits until a poll finds fewer than
 twelve one-shots, due iteration tasks and earlier timers in front of it.
 */
module TimerService {
  import opened Words
  import opened Ordering
  import opened TimedPoll
  import opened Batch
  import opened Fairness

  datatype PrioOp<I> =
    | PushOneShot(task: Listed<I>)
    | CancelOneShot(pos: nat)
    | AddIteration(item: Item<I, Ideal>)
    | CancelIteration(pos: nat)
    | AddTimer(item: Item<I, Ideal>)
    | CancelTimer(pos: nat)
    | PollAt(now: int)

  function Dropped<T>(s: seq<T>, pos: nat): seq<T> {
    if pos < |s| then RemoveAt(s, pos) else s
  }

  /** The step of the code. */
  function StepWords<I>(s: Prio<I>, op: PrioOp<I>): Prio<I> {
    match op
    case PushOneShot(task) => s.(oneShots := s.oneShots + [task])
    case CancelOneShot(pos) => s.(oneShots := Dropped(s.oneShots, pos))
    case AddIteration(item) => s.(iterations := Insert(NodeCompare, s.iterations, LowerItem(item)))
    case CancelIteration(pos) => s.(iterations := Dropped(s.iterations, pos))
    case AddTimer(item) => s.(timers := Insert(NodeCompare, s.timers, LowerItem(item)))
    case CancelTimer(pos) => s.(timers := Dropped(s.timers, pos))
    case PollAt(now) => AfterPoll(s, Wrap32(now))
  }

  /** A timer list at a poll that may have no room for it, or no turn. */
  function Polls<I>(list: seq<Item<I, Ideal>>, now: int, on: bool, batch: seq<Element>): Polled<I, Ideal> {
    if on && |batch| < MAX_TASKS_PER_EXECUTION then PollIdeal(list, now, batch) else Polled(list, batch)
  }

  function OneShotsPolled<I>(s: IdealPrio<I>): Polled<I, Schedulable> {
    TakeOneShots(s.oneShots, 0, [])
  }

  function IterationsPolled<I>(s: IdealPrio<I>): Polled<I, Ideal> {
    Polls(s.iterations, s.iterationsCounter + 1, s.idle, OneShotsPolled(s).batch)
  }

  function TimersPolled<I>(s: IdealPrio<I>, now: int): Polled<I, Ideal> {
    Polls(s.timers, now, s.lastTimerProcessTime != now, IterationsPolled(s).batch)
  }

  function PolledIdeal<I>(s: IdealPrio<I>, now: int): IdealPrio<I> {
    var polled := |IterationsPolled(s).batch| < MAX_TASKS_PER_EXECUTION && s.timers != []
                  && s.lastTimerProcessTime != now;
    IdealPrio(s.idle, OneShotsPolled(s).list, IterationsPolled(s).list, TimersPolled(s, now).list,
              s.iterationsCounter + 1, if polled then now else s.lastTimerProcessTime)
  }

  function StepPrio<I>(s: IdealPrio<I>, op: PrioOp<I>): IdealPrio<I> {
    match op
    case PushOneShot(task) => s.(oneShots := s.oneShots + [task])
    case CancelOneShot(pos) => s.(oneShots := Dropped(s.oneShots, pos))
    case AddIteration(item) => s.(iterations := Insert(CompareIdeal, s.iterations, item))
    case CancelIteration(pos) => s.(iterations := Dropped(s.iterations, pos))
    case AddTimer(item) => s.(timers := Insert(CompareIdeal, s.timers, item))
    case CancelTimer(pos) => s.(timers := Dropped(s.timers, pos))
    case PollAt(now) => PolledIdeal(s, now)
  }

  function RunPrio<I>(s: IdealPrio<I>, ops: seq<PrioOp<I>>): IdealPrio<I>
    decreases |ops|
  {
    if ops == [] then s else RunPrio(StepPrio(s, ops[0]), ops[1..])
  }

  function RunWords<I>(s: Prio<I>, ops: seq<PrioOp<I>>): Prio<I>
    decreases |ops|
  {
    if ops == [] then s else RunWords(StepWords(s, ops[0]), ops[1..])
  }

  // ---------------------------------------------------------------- words and unbounded time

  ghost predicate Fits<I>(list: seq<Item<I, Ideal>>, item: Item<I, Ideal>, lo: int) {
    forall y | y in list + [item] :: lo <= y.key.due < lo + 0x8000_0000
  }

  /** At each step the times in play span less than 2^31; the windows may move on between steps. */
  ghost predicate StepFits<I>(s: IdealPrio<I>, op: PrioOp<I>, lo: int, loIterations: int) {
    match op
    case AddIteration(item) => Fits(s.iterations, item, loIterations)
    case AddTimer(item) => Fits(s.timers, item, lo)
    case PollAt(now) => PrioInWindow(s, now, lo, loIterations)
    case _ => true
  }

  ghost predicate RunFits<I>(s: IdealPrio<I>, ops: seq<PrioOp<I>>, los: seq<(int, int)>)
    requires |ops| == |los|
    decreases |ops|
  {
    ops != [] ==> StepFits(s, ops[0], los[0].0, los[0].1) && RunFits(StepPrio(s, ops[0]), ops[1..], los[1..])
  }

  ghost predicate InOrder<I>(s: IdealPrio<I>) {
    SortedIdeal(s.iterations) && SortedIdeal(s.timers)
  }

  lemma {:induction false} PollsRefines<I>(list: seq<Item<I, Ideal>>, now: int, lo: int, on: bool, batch: seq<Element>)
    requires SortedIdeal(list) && InWindow(list, now, lo)
    ensures var r := Polls(list, now, on, batch);
            (if on && |batch| < MAX_TASKS_PER_EXECUTION && list != []
             then PollTimed(LowerAll(list), 0, Wrap32(now), batch) else Polled(LowerAll(list), batch))
            == Polled(LowerAll(r.list), r.batch)
  {
    hide LowerAll, LowerItem, PollTimed, PollIdeal, SortedIdeal, InWindow, Wrap32;
    if on && |batch| < MAX_TASKS_PER_EXECUTION {
      if list == [] {
        PollIdealStep(list, now, batch);
      } else {
        PollRefines(list, now, lo, batch);
      }
    }
  }

  lemma {:induction false} PollsKeepsSorted<I>(list: seq<Item<I, Ideal>>, now: int, on: bool, batch: seq<Element>)
    requires SortedIdeal(list)
    ensures SortedIdeal(Polls(list, now, on, batch).list)
  {
    hide PollIdeal, SortedIdeal;
    if on && |batch| < MAX_TASKS_PER_EXECUTION {
      PollKeepsSorted(list, now, batch);
    }
  }

  lemma LoweredFields<I>(s: IdealPrio<I>)
    ensures var w := LowerPrio(s);
            && w.idle == s.idle && w.oneShots == s.oneShots
            && w.iterations == LowerAll(s.iterations) && (w.iterations == [] <==> s.iterations == [])
            && w.timers == LowerAll(s.timers) && (w.timers == [] <==> s.timers == [])
            && w.iterationsCounter == Wrap32(s.iterationsCounter)
            && w.lastTimerProcessTime == Wrap32(s.lastTimerProcessTime)
  {
    hide Wrap32;
  }

  lemma PolledLowered<I>(s: IdealPrio<I>, now: int)
    ensures var b, c := IterationsPolled(s), TimersPolled(s, now);
            var on := |b.batch| < MAX_TASKS_PER_EXECUTION && s.timers != [] && s.lastTimerProcessTime != now;
            LowerPrio(PolledIdeal(s, now)) ==
            Prio(s.idle, OneShotsPolled(s).list, LowerAll(b.list), LowerAll(c.list),
                 Wrap32(s.iterationsCounter + 1), if on then Wrap32(now) else Wrap32(s.lastTimerProcessTime))
    ensures OneShotsPolled(s) == TakeOneShots(s.oneShots, 0, [])
    ensures IterationsPolled(s) == Polls(s.iterations, s.iterationsCounter + 1, s.idle, OneShotsPolled(s).batch)
    ensures TimersPolled(s, now) == Polls(s.timers, now, s.lastTimerProcessTime != now, IterationsPolled(s).batch)
  {
    hide LowerAll, TakeOneShots, Polls, Wrap32;
  }

  lemma WindowParts<I>(s: IdealPrio<I>, now: int, lo: int, loIterations: int)
    requires PrioInWindow(s, now, lo, loIterations)
    ensures SortedIdeal(s.iterations) && InWindow(s.iterations, s.iterationsCounter + 1, loIterations)
    ensures SortedIdeal(s.timers) && InWindow(s.timers, now, lo) && 0 <= now - s.lastTimerProcessTime < 0x1_0000_0000
  {
    hide SortedIdeal, InWindow;
  }

  lemma {:induction false} PollPrioRefines<I>(s: IdealPrio<I>, now: int, lo: int, loIterations: int)
    requires PrioInWindow(s, now, lo, loIterations)
    ensures AfterPoll(LowerPrio(s), Wrap32(now)) == LowerPrio(PolledIdeal(s, now))
    ensures AfterTimers(LowerPrio(s), Wrap32(now)).batch == TimersPolled(s, now).batch
  {
    hide *;
    var a, b, c := OneShotsPolled(s), IterationsPolled(s), TimersPolled(s, now);
    LoweredFields(s);
    PolledLowered(s, now);
    WindowParts(s, now, lo, loIterations);
    MillisecondChanged(s.lastTimerProcessTime, now);
    WrapAddsUp(s.iterationsCounter, 1);
    PollsRefines(s.iterations, s.iterationsCounter + 1, loIterations, s.idle, a.batch);
    PollsRefines(s.timers, now, lo, s.lastTimerProcessTime != now, b.batch);
    PollPhases(LowerPrio(s), Wrap32(now), a, Polled(LowerAll(b.list), b.batch), Polled(LowerAll(c.list), c.batch));
  }

  lemma {:induction false} StepPrioRefines<I>(s: IdealPrio<I>, op: PrioOp<I>, lo: int, loIterations: int)
    requires InOrder(s) && StepFits(s, op, lo, loIterations)
    ensures StepWords(LowerPrio(s), op) == LowerPrio(StepPrio(s, op))
  {
    hide LowerAll, LowerItem, Insert, RemoveAt, AfterPoll, PolledIdeal, SortedIdeal, PrioInWindow;
    match op {
      case AddIteration(item) => AddRefines(s.iterations, item, loIterations);
      case AddTimer(item) => AddRefines(s.timers, item, lo);
      case CancelIteration(pos) => if pos < |s.iterations| { CancelRefines(s.iterations, pos); }
      case CancelTimer(pos) => if pos < |s.timers| { CancelRefines(s.timers, pos); }
      case PollAt(now) => PollPrioRefines(s, now, lo, loIterations);
      case _ =>
    }
  }

  lemma {:induction false} StepKeepsOrder<I>(s: IdealPrio<I>, op: PrioOp<I>)
    requires InOrder(s)
    ensures InOrder(StepPrio(s, op))
  {
    hide Insert, RemoveAt, Polls, TakeOneShots, SortedIdeal;
    match op {
      case AddIteration(item) => InsertKeepsSorted(s.iterations, item);
      case AddTimer(item) => InsertKeepsSorted(s.timers, item);
      case CancelIteration(pos) => if pos < |s.iterations| { RemoveKeepsSorted(s.iterations, pos); }
      case CancelTimer(pos) => if pos < |s.timers| { RemoveKeepsSorted(s.timers, pos); }
      case PollAt(now) =>
        PollsKeepsSorted(s.iterations, s.iterationsCounter + 1, s.idle, OneShotsPolled(s).batch);
        PollsKeepsSorted(s.timers, now, s.lastTimerProcessTime != now, IterationsPolled(s).batch);
      case _ =>
    }
  }

  /** Over any run, one priority of the code, with its three lists, is the one on unbounded time. */
  lemma {:induction false} PrioRunRefines<I>(s: IdealPrio<I>, ops: seq<PrioOp<I>>, los: seq<(int, int)>)
    requires InOrder(s) && |ops| == |los| && RunFits(s, ops, los)
    ensures InOrder(RunPrio(s, ops)) && RunWords(LowerPrio(s), ops) == LowerPrio(RunPrio(s, ops))
    decreases |ops|
  {
    hide InOrder, StepWords, StepPrio, LowerPrio, StepFits;
    if ops != [] {
      StepPrioRefines(s, ops[0], los[0].0, los[0].1);
      StepKeepsOrder(s, ops[0]);
      PrioRunRefines(StepPrio(s, ops[0]), ops[1..], los[1..]);
    }
  }

  // ---------------------------------------------------------------- who is ahead

  function IndexOf<I(==)>(list: seq<Item<I, Ideal>>, x: Item<I, Ideal>): (r: nat)
    ensures r <= |list| && (x in list ==> r < |list| && list[r] == x)
  {
    if list == [] || list[0] == x then 0 else 1 + IndexOf(list[1..], x)
  }

  /**
   What a poll serves before the timer: all one-shots, at idle priority the due iteration tasks, and
   earlier timers.
   */
  function Ahead<I(==)>(s: IdealPrio<I>, x: Item<I, Ideal>): nat {
    |s.oneShots| + (if s.idle then DueCount(s.iterations, s.iterationsCounter + 1) else 0) + IndexOf(s.timers, x)
  }

  /** The timer is due, this millisecond was not polled yet, and fewer than twelve are ahead. */
  predicate OnTurn<I(==)>(s: IdealPrio<I>, now: int, x: Item<I, Ideal>) {
    x.key.due <= now && s.lastTimerProcessTime != now && Ahead(s, x) < MAX_TASKS_PER_EXECUTION
  }

  lemma {:induction false} DueIffCounted<I>(list: seq<Item<I, Ideal>>, now: int, pos: nat)
    requires SortedIdeal(list) && pos < |list|
    ensures pos < DueCount(list, now) <==> list[pos].key.due <= now
  {
    var n := DueCount(list, now);
    if n < pos {
      assert list[n].key.due <= list[pos].key.due;
    }
  }

  lemma BatchLength(s: seq<Element>)
    ensures |FirstTwelve(s)| == if |s| <= MAX_TASKS_PER_EXECUTION then |s| else MAX_TASKS_PER_EXECUTION
  {
  }

  /** How long a batch is after a timer list was polled for it. */
  lemma {:induction false} PollsLength<I>(list: seq<Item<I, Ideal>>, now: int, on: bool, batch: seq<Element>)
    requires SortedIdeal(list) && |batch| <= MAX_TASKS_PER_EXECUTION
    ensures var n := |batch| + if on then DueCount(list, now) else 0;
            |Polls(list, now, on, batch).batch| == if n <= MAX_TASKS_PER_EXECUTION then n else MAX_TASKS_PER_EXECUTION
  {
    hide PollIdeal, SortedIdeal, Elements, InsertAllFromFront, Rearms;
    if on && |batch| < MAX_TASKS_PER_EXECUTION {
      PollServes(list, now, batch);
      ElementsLength(list[..ServiceCount(list, now, |batch|)]);
    }
  }

  lemma {:induction false} AheadOfTimers<I>(s: IdealPrio<I>)
    requires InOrder(s)
    ensures var n := |s.oneShots| + if s.idle then DueCount(s.iterations, s.iterationsCounter + 1) else 0;
            |IterationsPolled(s).batch| == if n <= MAX_TASKS_PER_EXECUTION then n else MAX_TASKS_PER_EXECUTION
  {
    hide TakeOneShots, ElementsOf, FirstTwelve, Polls, DueCount, SortedIdeal;
    OneShotsFill(s.oneShots);
    BatchLength(ElementsOf(s.oneShots));
    PollsLength(s.iterations, s.iterationsCounter + 1, s.idle, OneShotsPolled(s).batch);
  }

  // ---------------------------------------------------------------- one poll

  /** The timers that a poll takes from the front. */
  function TakenTimers<I>(s: IdealPrio<I>, now: int): (k: nat)
    ensures k <= |s.timers|
  {
    var queued := |IterationsPolled(s).batch|;
    if s.lastTimerProcessTime != now && queued < MAX_TASKS_PER_EXECUTION then
      var room := MAX_TASKS_PER_EXECUTION - queued;
      if DueCount(s.timers, now) < room then DueCount(s.timers, now) else room
    else 0
  }

  lemma {:induction false} TakenIffOnTurn<I>(s: IdealPrio<I>, now: int, x: Item<I, Ideal>)
    requires InOrder(s) && x in s.timers
    ensures IndexOf(s.timers, x) < TakenTimers(s, now) <==> OnTurn(s, now, x)
  {
    hide IterationsPolled, DueCount, SortedIdeal;
    AheadOfTimers(s);
    DueIffCounted(s.timers, now, IndexOf(s.timers, x));
  }

  /** The timers that a poll does not take, and those it takes that are periodic, with their next due times. */
  lemma {:induction false} TimersAfterPoll<I>(s: IdealPrio<I>, now: int)
    requires InOrder(s)
    ensures var k := TakenTimers(s, now);
            TimersPolled(s, now).list == InsertAllFromFront(CompareIdeal, s.timers[k..], Rearms(s.timers[..k], now))
  {
    hide PollIdeal, SortedIdeal, Elements, InsertAllFromFront, Rearms, IterationsPolled, DueCount;
    var queued := IterationsPolled(s).batch;
    if s.lastTimerProcessTime != now && |queued| < MAX_TASKS_PER_EXECUTION {
      PollServes(s.timers, now, queued);
    } else {
      ServeNothing(s.timers, now);
      assert s.timers[0..] == s.timers;
    }
  }

  /** The index of an item that is listed once splits the list around it. */
  lemma {:induction false} OnlyAtIndex<I>(list: seq<Item<I, Ideal>>, x: Item<I, Ideal>, k: nat)
    requires HoldsOnce(list, x) && k <= |list|
    ensures CountOf(list[..k], x.id) == if IndexOf(list, x) < k then 1 else 0
    ensures CountOf(list[k..], x.id) == if IndexOf(list, x) < k then 0 else 1
    ensures IndexOf(list, x) >= k ==> x in list[k..]
  {
    var p := IndexOf(list, x);
    hide CountOf, IndexOf;
    SplitHolds(list, k, x);
    CountedIfListed(list[..k], x.id);
    CountedIfListed(list[k..], x.id);
    if p < k {
      assert list[..k][p] == x;
    } else {
      assert list[k..][p - k] == x;
    }
  }

  /** No item of this schedulable is listed with this due time or an earlier one. */
  ghost predicate Past<I>(list: seq<Item<I, Ideal>>, x: Item<I, Ideal>) {
    forall y | y in list && y.id == x.id :: y.key.due > x.key.due
  }

  lemma {:induction false} RearmedMembers<I>(served: seq<Item<I, Ideal>>, now: int)
    ensures forall y | y in Rearms(served, now) ::
              exists x :: x in served && y.id == x.id && x.key.period != 0 && y.key == RearmedIdeal(x.key, now)
  {
    if served != [] {
      hide RearmedIdeal;
      RearmedMembers(served[1..], now);
      assert served[0] in served && forall x | x in served[1..] :: x in served;
    }
  }

  lemma {:induction false} InsertAllMembers<I>(acc: seq<Item<I, Ideal>>, t: seq<Item<I, Ideal>>)
    ensures forall y | y in InsertAllFromFront(CompareIdeal, acc, t) :: y in acc || y in t
    decreases |t|
  {
    hide InsertAllFromFront, Insert;
    InsertAllFromFrontStep(CompareIdeal, acc, t);
    if t != [] {
      InsertMembers(CompareIdeal, acc, t[0]);
      InsertAllMembers(Insert(CompareIdeal, acc, t[0]), t[1..]);
    }
  }

  /** A poll puts every timer that it takes behind its old due time. */
  lemma {:induction false} PollMovesOn<I>(s: IdealPrio<I>, now: int, y: Item<I, Ideal>)
    requires InOrder(s) && y in TimersPolled(s, now).list
    ensures var k := TakenTimers(s, now);
            y in s.timers[k..] || exists x :: x in s.timers[..k] && x.id == y.id && x.key.due < y.key.due
  {
    var k := TakenTimers(s, now);
    var taken := s.timers[..k];
    TimersAfterPoll(s, now);
    TakenAreDue(s, now);
    hide TimersPolled, InsertAllFromFront, Rearms, TakenTimers, SortedIdeal;
    InsertAllMembers(s.timers[k..], Rearms(taken, now));
    RearmedMembers(taken, now);
    if y !in s.timers[k..] {
      var x :| x in taken && y.id == x.id && x.key.period != 0 && y.key == RearmedIdeal(x.key, now);
    }
  }

  lemma TakenAreDue<I>(s: IdealPrio<I>, now: int)
    ensures forall x | x in s.timers[..TakenTimers(s, now)] :: x.key.due <= now
  {
    hide IterationsPolled;
  }

  /** A poll leaves a timer where it is, or moves it past its due time, according to whether it is on turn. */
  lemma {:induction false} PollServesOnTurn<I>(s: IdealPrio<I>, now: int, x: Item<I, Ideal>)
    requires InOrder(s) && HoldsOnce(s.timers, x)
    ensures OnTurn(s, now, x) ==> Past(TimersPolled(s, now).list, x)
    ensures !OnTurn(s, now, x) ==> HoldsOnce(TimersPolled(s, now).list, x)
  {
    var k, list := TakenTimers(s, now), TimersPolled(s, now).list;
    TakenIffOnTurn(s, now, x);
    hide InOrder, OnTurn, TakenTimers, TimersPolled, CountOf, IndexOf, Rearms, InsertAllFromFront;
    OnlyAtIndex(s.timers, x, k);
    CountedIfListed(s.timers[k..], x.id);
    CountedIfListed(s.timers[..k], x.id);
    if OnTurn(s, now, x) {
      forall y | y in list && y.id == x.id
        ensures y.key.due > x.key.due
      {
        PollMovesOn(s, now, y);
        var z :| z in s.timers[..k] && z.id == y.id && z.key.due < y.key.due;
        OnlyOne(s.timers, x, z);
      }
    } else {
      TimersAfterPoll(s, now);
      RearmsCount(s.timers[..k], now, x);
      InsertAllCounts(s.timers[k..], Rearms(s.timers[..k], now), x.id);
    }
  }

  lemma {:induction false} OnlyOne<I>(list: seq<Item<I, Ideal>>, x: Item<I, Ideal>, z: Item<I, Ideal>)
    requires HoldsOnce(list, x) && z in list && z.id == x.id
    ensures z == x
  {
    hide CountOf;
    OneDue(list, x, z);
  }

  /** The element of a timer on turn stands in the batch of the code behind everything that is ahead of it. */
  lemma {:induction false} OnTurnIsQueued<I>(s: IdealPrio<I>, now: int, lo: int, loIterations: int, x: Item<I, Ideal>)
    requires PrioInWindow(s, now, lo, loIterations) && x in s.timers && OnTurn(s, now, x)
    ensures var batch := AfterTimers(LowerPrio(s), Wrap32(now)).batch;
            Ahead(s, x) < |batch| && batch[Ahead(s, x)] == ElementOf(Lower(x.key))
  {
    var p, n := IndexOf(s.timers, x), DueCount(s.timers, now);
    hide AfterTimers, LowerPrio, InWindow, SortedIdeal, ElementsOf, Elements, DueCount, IndexOf, Wrap32, Lower,
         ElementOf;
    BatchIsFirstTwelve(s, now, lo, loIterations);
    DueIffCounted(s.timers, now, p);
    ElementsLength(s.iterations[..DueCount(s.iterations, s.iterationsCounter + 1)]);
    TimerElementAt(s.timers[..n], p);
    var front := ElementsOf(s.oneShots) + if s.idle then DueElements(s.iterations, s.iterationsCounter + 1) else [];
    assert Ready(s, now) == front + DueElements(s.timers, now);
    assert Ready(s, now)[|front| + p] == DueElements(s.timers, now)[p];
  }

  /** What the idle priority serves before an iteration task: all one-shots and earlier iteration tasks. */
  function PollersBefore<I(==)>(s: IdealPrio<I>, x: Item<I, Ideal>): nat {
    |s.oneShots| + IndexOf(s.iterations, x)
  }

  predicate PollerOnTurn<I(==)>(s: IdealPrio<I>, x: Item<I, Ideal>) {
    x.key.due <= s.iterationsCounter + 1 && PollersBefore(s, x) < MAX_TASKS_PER_EXECUTION
  }

  /** The idle priority's next poll executes an iteration task that is on turn, behind what is ahead of it. */
  lemma {:induction false} PollerOnTurnIsQueued<I>(
      s: IdealPrio<I>, now: int, lo: int, loIterations: int, x: Item<I, Ideal>)
    requires PrioInWindow(s, now, lo, loIterations) && s.idle && x in s.iterations && PollerOnTurn(s, x)
    ensures var batch := AfterTimers(LowerPrio(s), Wrap32(now)).batch;
            PollersBefore(s, x) < |batch| && batch[PollersBefore(s, x)] == ElementOf(Lower(x.key))
  {
    var p, n := IndexOf(s.iterations, x), DueCount(s.iterations, s.iterationsCounter + 1);
    hide AfterTimers, LowerPrio, InWindow, SortedIdeal, ElementsOf, Elements, DueCount, IndexOf, Wrap32, Lower,
         ElementOf;
    BatchIsFirstTwelve(s, now, lo, loIterations);
    DueIffCounted(s.iterations, s.iterationsCounter + 1, p);
    TimerElementAt(s.iterations[..n], p);
    var rest := if s.lastTimerProcessTime != now then DueElements(s.timers, now) else [];
    assert Ready(s, now) == ElementsOf(s.oneShots) + DueElements(s.iterations, s.iterationsCounter + 1) + rest;
    assert Ready(s, now)[|s.oneShots| + p] == DueElements(s.iterations, s.iterationsCounter + 1)[p];
  }

  lemma {:induction false} TimerElementAt<I>(list: seq<Item<I, Ideal>>, p: nat)
    requires p < |list|
    ensures |Elements(list)| == |list| && Elements(list)[p] == ElementOf(Lower(list[p].key))
  {
    ElementsLength(list);
    if p > 0 {
      TimerElementAt(list[1..], p - 1);
    }
  }

  // ---------------------------------------------------------------- whole runs

  /** The step adds no timer of this schedulable and cancels none. */
  ghost predicate SparesTimer<I>(s: IdealPrio<I>, op: PrioOp<I>, id: I) {
    match op
    case AddTimer(item) => item.id != id
    case CancelTimer(pos) => pos < |s.timers| ==> s.timers[pos].id != id
    case _ => true
  }

  ghost predicate Spared<I>(s: IdealPrio<I>, ops: seq<PrioOp<I>>, id: I)
    decreases |ops|
  {
    ops != [] ==> SparesTimer(s, ops[0], id) && Spared(StepPrio(s, ops[0]), ops[1..], id)
  }

  /** One of the polls of the run finds the timer on turn. */
  ghost predicate HasTurn<I>(s: IdealPrio<I>, ops: seq<PrioOp<I>>, x: Item<I, Ideal>) {
    exists i ::
      0 <= i < |ops| && ops[i].PollAt? && OnTurn(RunPrio(s, ops[..i]), ops[i].now, x)
        && x in RunPrio(s, ops[..i]).timers
  }

  lemma {:induction false} StepMovesOn<I>(s: IdealPrio<I>, op: PrioOp<I>, x: Item<I, Ideal>)
    requires InOrder(s) && Past(s.timers, x) && SparesTimer(s, op, x.id)
    ensures Past(StepPrio(s, op).timers, x)
  {
    hide InOrder, TimersPolled, IterationsPolled, TakeOneShots, Insert, TakenTimers;
    match op {
      case AddTimer(item) => InsertMembers(CompareIdeal, s.timers, item);
      case PollAt(now) =>
        forall y | y in TimersPolled(s, now).list && y.id == x.id
          ensures y.key.due > x.key.due
        {
          PollMovesOn(s, now, y);
        }
      case _ =>
    }
  }

  lemma {:induction false} StepKeepsTimer<I>(s: IdealPrio<I>, op: PrioOp<I>, x: Item<I, Ideal>)
    requires InOrder(s) && HoldsOnce(s.timers, x) && SparesTimer(s, op, x.id)
    ensures op.PollAt? && OnTurn(s, op.now, x) ==> Past(StepPrio(s, op).timers, x)
    ensures !(op.PollAt? && OnTurn(s, op.now, x)) ==> HoldsOnce(StepPrio(s, op).timers, x)
  {
    hide InOrder, TimersPolled, IterationsPolled, TakeOneShots, Insert, RemoveAt, CountOf, OnTurn;
    match op {
      case AddTimer(item) => InsertCounts(s.timers, item, x.id);
      case CancelTimer(pos) => if pos < |s.timers| { CancelKeepsTask(s.timers, pos, x); }
      case PollAt(now) => PollServesOnTurn(s, now, x);
      case _ =>
    }
  }

  lemma {:induction false} StaysPast<I>(s: IdealPrio<I>, ops: seq<PrioOp<I>>, x: Item<I, Ideal>)
    requires InOrder(s) && Past(s.timers, x) && Spared(s, ops, x.id)
    ensures Past(RunPrio(s, ops).timers, x)
    decreases |ops|
  {
    hide InOrder, StepPrio, Past, SparesTimer;
    if ops != [] {
      StepMovesOn(s, ops[0], x);
      StepKeepsOrder(s, ops[0]);
      StaysPast(StepPrio(s, ops[0]), ops[1..], x);
    }
  }

  lemma HasTurnFirst<I>(s: IdealPrio<I>, ops: seq<PrioOp<I>>, x: Item<I, Ideal>)
    requires ops != []
    ensures HasTurn(s, ops, x) <==>
            (ops[0].PollAt? && OnTurn(s, ops[0].now, x) && x in s.timers) || HasTurn(StepPrio(s, ops[0]), ops[1..], x)
  {
    hide StepPrio, OnTurn;
    var s', rest := StepPrio(s, ops[0]), ops[1..];
    forall i | 0 <= i < |ops|
      ensures i == 0 ==> RunPrio(s, ops[..i]) == s
      ensures i > 0 ==> RunPrio(s, ops[..i]) == RunPrio(s', rest[..i - 1]) && ops[i] == rest[i - 1]
    {
      if i > 0 {
        assert ops[..i][0] == ops[0] && ops[..i][1..] == rest[..i - 1];
      }
    }
    if HasTurn(s', rest, x) {
      var j :| 0 <= j < |rest| && rest[j].PollAt? && OnTurn(RunPrio(s', rest[..j]), rest[j].now, x)
               && x in RunPrio(s', rest[..j]).timers;
      assert RunPrio(s, ops[..j + 1]) == RunPrio(s', rest[..j]) && ops[j + 1] == rest[j];
    }
    if HasTurn(s, ops, x) {
      var i :| 0 <= i < |ops| && ops[i].PollAt? && OnTurn(RunPrio(s, ops[..i]), ops[i].now, x)
               && x in RunPrio(s, ops[..i]).timers;
      assert i > 0 ==> RunPrio(s', rest[..i - 1]) == RunPrio(s, ops[..i]);
    }
  }

  lemma PastIsGone<I>(list: seq<Item<I, Ideal>>, x: Item<I, Ideal>)
    requires Past(list, x)
    ensures x !in list && !HoldsOnce(list, x)
  {
  }

  lemma ListedIsNotPast<I>(list: seq<Item<I, Ideal>>, x: Item<I, Ideal>)
    requires HoldsOnce(list, x)
    ensures x in list
  {
  }

  /**
   Over any run that neither adds nor cancels it, a timer is still listed with its due time iff no poll
   has found it due, in a new millisecond, with fewer than twelve one-shots, due iteration tasks and
   earlier timers ahead of it. The first poll that does serves it.
   */
  lemma {:induction false} TimerWaitsForItsTurn<I>(s: IdealPrio<I>, ops: seq<PrioOp<I>>, x: Item<I, Ideal>)
    requires InOrder(s) && HoldsOnce(s.timers, x) && Spared(s, ops, x.id)
    ensures HoldsOnce(RunPrio(s, ops).timers, x) <==> !HasTurn(s, ops, x)
    ensures HasTurn(s, ops, x) ==> Past(RunPrio(s, ops).timers, x)
    decreases |ops|
  {
    if ops == [] {
      assert !HasTurn(s, ops, x);
    } else {
      HasTurnFirst(s, ops, x);
      hide InOrder, StepPrio, Past, SparesTimer, HoldsOnce, OnTurn, HasTurn;
      ListedIsNotPast(s.timers, x);
      StepKeepsTimer(s, ops[0], x);
      StepKeepsOrder(s, ops[0]);
      if ops[0].PollAt? && OnTurn(s, ops[0].now, x) {
        StaysPast(StepPrio(s, ops[0]), ops[1..], x);
        PastIsGone(RunPrio(s, ops).timers, x);
      } else {
        TimerWaitsForItsTurn(StepPrio(s, ops[0]), ops[1..], x);
      }
    }
  }

  // ---------------------------------------------------------------- twelve pollers

  ghost predicate NoOneShotCancelled<I>(ops: seq<PrioOp<I>>) {
    forall op | op in ops :: !op.CancelOneShot?
  }

  /** A poll of the one-shot list leaves all its pollers listed. */
  lemma {:induction false} PollersStay<I>(list: seq<Listed<I>>)
    ensures |Pollers(TakeOneShots(list, 0, []).list)| == |Pollers(list)|
  {
    OneShotsInOrder(list, 0, []);
    var n := TakeCount(list, 0, 0);
    hide Pollers, TakeOneShots, ElementsOf;
    var front := list[..n];
    assert list[0..n] == front && list[..0] + Pollers(front) == Pollers(front);
    PollersConcat(Pollers(front), list[n..]);
    PollersOfPollers(front);
    PollersConcat(front, list[n..]);
    assert front + list[n..] == list;
  }

  lemma {:induction false} StepKeepsPollers<I>(s: IdealPrio<I>, op: PrioOp<I>)
    requires !op.CancelOneShot?
    ensures |Pollers(StepPrio(s, op).oneShots)| >= |Pollers(s.oneShots)|
  {
    hide Pollers, TakeOneShots, IterationsPolled, TimersPolled, Insert, Dropped;
    match op {
      case PushOneShot(task) => PollersConcat(s.oneShots, [task]);
      case PollAt(_) => PollersStay(s.oneShots);
      case _ =>
    }
  }

  /** With twelve one-shots listed, a poll leaves the other two lists alone. */
  lemma {:induction false} TwelveFillTheBatch<I>(s: IdealPrio<I>, now: int)
    requires |s.oneShots| >= MAX_TASKS_PER_EXECUTION
    ensures PolledIdeal(s, now).iterations == s.iterations && PolledIdeal(s, now).timers == s.timers
  {
    hide TakeOneShots, PollIdeal, ElementsOf, FirstTwelve;
    OneShotsFill(s.oneShots);
    BatchLength(ElementsOf(s.oneShots));
  }

  /** Behind twelve pollers no poll of any run serves an iteration task or a timer. */
  lemma {:induction false} PollersStarveTheRest<I>(s: IdealPrio<I>, ops: seq<PrioOp<I>>, now: int)
    requires |Pollers(s.oneShots)| >= MAX_TASKS_PER_EXECUTION && NoOneShotCancelled(ops)
    ensures var r := RunPrio(s, ops);
            PolledIdeal(r, now).iterations == r.iterations && PolledIdeal(r, now).timers == r.timers
    decreases |ops|
  {
    if ops == [] {
      assert |s.oneShots| >= |Pollers(s.oneShots)|;
      TwelveFillTheBatch(s, now);
    } else {
      assert ops[0] in ops && forall op | op in ops[1..] :: op in ops;
      StepKeepsPollers(s, ops[0]);
      hide StepPrio, Pollers, PolledIdeal;
      PollersStarveTheRest(StepPrio(s, ops[0]), ops[1..], now);
    }
  }

  /** Behind twelve pollers of the one-shot list no timer is ever on turn. */
  lemma {:induction false} PollersStarveTimers<I>(s: IdealPrio<I>, ops: seq<PrioOp<I>>, x: Item<I, Ideal>)
    requires |Pollers(s.oneShots)| >= MAX_TASKS_PER_EXECUTION && NoOneShotCancelled(ops)
    ensures !HasTurn(s, ops, x)
    decreases |ops|
  {
    if ops != [] {
      HasTurnFirst(s, ops, x);
      assert ops[0] in ops && forall op | op in ops[1..] :: op in ops;
      StepKeepsPollers(s, ops[0]);
      assert |s.oneShots| >= |Pollers(s.oneShots)|;
      hide StepPrio, Pollers, HasTurn;
      PollersStarveTimers(StepPrio(s, ops[0]), ops[1..], x);
    }
  }
}
