/**
 What one poll of a priority takes for execution: one-shots in list order, then (idle priority
 only) the iteration tasks that are due, then the timers that are due, at most twelve in all.
 */
module Batch {
  import opened Words
  import opened Ordering
  import opened TimedPoll

  type Listed<I> = Item<I, Schedulable>

  /** The walk over the one-shot list: a schedulable without a period is taken off, a poller stays. */
  function TakeOneShots<I>(list: seq<Listed<I>>, pos: nat, batch: seq<Element>): (r: Polled<I, Schedulable>)
    requires pos <= |list| && |batch| < MAX_TASKS_PER_EXECUTION
    ensures |r.batch| <= MAX_TASKS_PER_EXECUTION
    decreases MAX_TASKS_PER_EXECUTION - |batch|
  {
    if pos == |list| then Polled(list, batch)
    else
      var (list', pos') := OneShotTaken(list, pos);
      var batch' := batch + [ElementOf(list[pos].key)];
      if |batch'| == MAX_TASKS_PER_EXECUTION then Polled(list', batch') else TakeOneShots(list', pos', batch')
  }

  function OneShotTaken<I>(list: seq<Listed<I>>, pos: nat): (r: (seq<Listed<I>>, nat))
    requires pos < |list|
    ensures r.1 <= |r.0|
  {
    if list[pos].key.executionPeriod == 0 then (RemoveAt(list, pos), pos) else (list, pos + 1)
  }

  /** One priority, as a poll sees it. */
  datatype Prio<I> = Prio(
    idle: bool,
    oneShots: seq<Listed<I>>, iterations: seq<Listed<I>>, timers: seq<Listed<I>>,
    iterationsCounter: uint32, lastTimerProcessTime: uint32)

  function AfterOneShots<I>(s: Prio<I>): Polled<I, Schedulable> {
    TakeOneShots(s.oneShots, 0, [])
  }

  function AfterIterations<I>(s: Prio<I>): (r: Polled<I, Schedulable>)
    ensures |r.batch| <= MAX_TASKS_PER_EXECUTION
  {
    var batch := AfterOneShots(s).batch;
    if s.idle && |batch| < MAX_TASKS_PER_EXECUTION && s.iterations != []
    then PollTimed(s.iterations, 0, Wrap32(s.iterationsCounter + 1), batch)
    else Polled(s.iterations, batch)
  }

  predicate PollsTimers<I>(s: Prio<I>, now: uint32) {
    |AfterIterations(s).batch| < MAX_TASKS_PER_EXECUTION && s.timers != [] && s.lastTimerProcessTime != now
  }

  function AfterTimers<I>(s: Prio<I>, now: uint32): Polled<I, Schedulable> {
    var batch := AfterIterations(s).batch;
    if PollsTimers(s, now) then PollTimed(s.timers, 0, now, batch) else Polled(s.timers, batch)
  }

  /** The state a poll leaves behind; its batch is that of `AfterTimers`. */
  function AfterPoll<I>(s: Prio<I>, now: uint32): Prio<I> {
    Prio(s.idle, AfterOneShots(s).list, AfterIterations(s).list, AfterTimers(s, now).list,
         Wrap32(s.iterationsCounter + 1), if PollsTimers(s, now) then now else s.lastTimerProcessTime)
  }

  /** The three phases of a poll, each starting from the batch of the one before. */
  lemma PollPhases<I>(s: Prio<I>, now: uint32,
                       a: Polled<I, Schedulable>, b: Polled<I, Schedulable>, c: Polled<I, Schedulable>)
    requires a == TakeOneShots(s.oneShots, 0, [])
    requires b == if s.idle && |a.batch| < MAX_TASKS_PER_EXECUTION && s.iterations != []
                  then PollTimed(s.iterations, 0, Wrap32(s.iterationsCounter + 1), a.batch)
                  else Polled(s.iterations, a.batch)
    requires c == if |b.batch| < MAX_TASKS_PER_EXECUTION && s.timers != [] && s.lastTimerProcessTime != now
                  then PollTimed(s.timers, 0, now, b.batch) else Polled(s.timers, b.batch)
    ensures var last := if |b.batch| < MAX_TASKS_PER_EXECUTION && s.timers != [] && s.lastTimerProcessTime != now
                        then now else s.lastTimerProcessTime;
            AfterPoll(s, now) == Prio(s.idle, a.list, b.list, c.list, Wrap32(s.iterationsCounter + 1), last)
    ensures AfterTimers(s, now).batch == c.batch
  {
    hide TakeOneShots, PollTimed;
  }

  function TimeToNextRun<I>(s: Prio<I>, now: uint32): int {
    if s.oneShots != [] then 0
    else if s.iterations != [] then 0
    else if s.timers != [] then
      var t := Signed32(s.timers[0].key.nextExecutionTime - now);
      if t > 0 then t else 0
    else -1
  }

  // ---------------------------------------------------------------- one-shots in closed form

  function ElementsOf<I>(list: seq<Listed<I>>): (r: seq<Element>)
    ensures |r| == |list|
  {
    if list == [] then [] else [ElementOf(list[0].key)] + ElementsOf(list[1..])
  }

  /** The members of `list` that stay on the one-shot list when they are taken. */
  function Pollers<I>(list: seq<Listed<I>>): (r: seq<Listed<I>>)
    ensures |r| <= |list|
  {
    if list == [] then []
    else (if list[0].key.executionPeriod == 0 then [] else [list[0]]) + Pollers(list[1..])
  }

  function TakeCount<I>(list: seq<Listed<I>>, pos: nat, queued: nat): (n: nat)
    requires pos <= |list| && queued < MAX_TASKS_PER_EXECUTION
    ensures pos + n <= |list|
  {
    var room := MAX_TASKS_PER_EXECUTION - queued;
    if |list| - pos < room then |list| - pos else room
  }

  /** The first tasks are taken, once each and in order; only pollers among them stay listed. */
  ghost predicate TakenInOrder<I>(list: seq<Listed<I>>, pos: nat, batch: seq<Element>, r: Polled<I, Schedulable>)
    requires pos <= |list| && |batch| < MAX_TASKS_PER_EXECUTION
  {
    var n := TakeCount(list, pos, |batch|);
    && r.batch == batch + ElementsOf(list[pos..pos + n])
    && r.list == list[..pos] + Pollers(list[pos..pos + n]) + list[pos + n..]
  }

  lemma {:induction false} TakesNothing<I>(list: seq<Listed<I>>, batch: seq<Element>)
    requires |batch| < MAX_TASKS_PER_EXECUTION
    ensures TakenInOrder(list, |list|, batch, Polled(list, batch))
  {
    assert list[|list|..] == [] && list[..|list|] == list;
  }

  lemma {:induction false} TakesLast<I>(list: seq<Listed<I>>, pos: nat, batch: seq<Element>)
    requires pos < |list| && |batch| == MAX_TASKS_PER_EXECUTION - 1
    ensures TakenInOrder(list, pos, batch, Polled(OneShotTaken(list, pos).0, batch + [ElementOf(list[pos].key)]))
  {
    var one := list[pos..pos + 1];
    assert one == [list[pos]] && one[1..] == [];
    assert list == list[..pos] + one + list[pos + 1..];
  }

  lemma {:induction false} SpanStep<I>(list: seq<Listed<I>>, pos: nat, n: nat)
    requires 0 < n && pos + n <= |list|
    ensures var (list', pos') := OneShotTaken(list, pos);
            && pos' + (n - 1) <= |list'| && |list'| - pos' == |list| - pos - 1
            && list'[pos'..pos' + (n - 1)] == list[pos..pos + n][1..]
            && list'[pos' + (n - 1)..] == list[pos + n..]
            && list'[..pos'] == list[..pos] + Pollers([list[pos]])
  {
    assert [list[pos]][1..] == [] && list[pos..pos + n][1..] == list[pos + 1..pos + n];
    assert RemoveAt(list, pos)[pos..pos + (n - 1)] == list[pos + 1..pos + n];
    assert RemoveAt(list, pos)[pos + (n - 1)..] == list[pos + n..];
  }

  lemma {:induction false} FirstOf<I>(span: seq<Listed<I>>)
    requires span != []
    ensures ElementsOf(span) == [ElementOf(span[0].key)] + ElementsOf(span[1..])
    ensures Pollers(span) == Pollers([span[0]]) + Pollers(span[1..])
  {
    assert [span[0]][1..] == [];
  }

  lemma {:induction false} TakesMore<I>(list: seq<Listed<I>>, pos: nat, batch: seq<Element>, r: Polled<I, Schedulable>)
    requires pos < |list| && |batch| < MAX_TASKS_PER_EXECUTION - 1
    requires TakenInOrder(OneShotTaken(list, pos).0, OneShotTaken(list, pos).1, batch + [ElementOf(list[pos].key)], r)
    ensures TakenInOrder(list, pos, batch, r)
  {
    var n := TakeCount(list, pos, |batch|);
    var span := list[pos..pos + n];
    hide Pollers, ElementsOf, OneShotTaken;
    SpanStep(list, pos, n);
    FirstOf(span);
    assert span[0] == list[pos];
    ConcatAssociates(batch, ElementOf(span[0].key), ElementsOf(span[1..]));
    GroupsAssociate(list[..pos], Pollers([span[0]]), Pollers(span[1..]));
  }

  lemma GroupsAssociate<T>(a: seq<T>, b: seq<T>, c: seq<T>)
    ensures a + b + c == a + (b + c)
  {
  }

  lemma {:induction false} OneShotsInOrder<I>(list: seq<Listed<I>>, pos: nat, batch: seq<Element>)
    requires pos <= |list| && |batch| < MAX_TASKS_PER_EXECUTION
    ensures TakenInOrder(list, pos, batch, TakeOneShots(list, pos, batch))
    decreases MAX_TASKS_PER_EXECUTION - |batch|
  {
    if pos == |list| {
      TakesNothing(list, batch);
    } else if |batch| == MAX_TASKS_PER_EXECUTION - 1 {
      TakesLast(list, pos, batch);
    } else {
      var (list', pos') := OneShotTaken(list, pos);
      var batch' := batch + [ElementOf(list[pos].key)];
      OneShotsInOrder(list', pos', batch');
      hide TakenInOrder;
      TakesMore(list, pos, batch, TakeOneShots(list', pos', batch'));
    }
  }

  // ---------------------------------------------------------------- the batch of a poll

  /** The same priority on unbounded time; one-shots carry no time. */
  datatype IdealPrio<I> = IdealPrio(
    idle: bool,
    oneShots: seq<Listed<I>>, iterations: seq<Item<I, Ideal>>, timers: seq<Item<I, Ideal>>,
    iterationsCounter: int, lastTimerProcessTime: int)

  function LowerPrio<I>(s: IdealPrio<I>): Prio<I> {
    Prio(s.idle, s.oneShots, LowerAll(s.iterations), LowerAll(s.timers),
         Wrap32(s.iterationsCounter), Wrap32(s.lastTimerProcessTime))
  }

  /** What a timer list contributes to `Ready`. */
  function DueElements<I>(list: seq<Item<I, Ideal>>, now: int): seq<Element> {
    Elements(list[..DueCount(list, now)])
  }

  /** Everything that is ready at a poll at time `now`, in the order in which it is served. */
  function Ready<I>(s: IdealPrio<I>, now: int): seq<Element> {
    ElementsOf(s.oneShots)
    + (if s.idle then DueElements(s.iterations, s.iterationsCounter + 1) else [])
    + (if s.lastTimerProcessTime != now then DueElements(s.timers, now) else [])
  }

  function FirstTwelve(s: seq<Element>): seq<Element> {
    if |s| <= MAX_TASKS_PER_EXECUTION then s else s[..MAX_TASKS_PER_EXECUTION]
  }

  ghost predicate PrioInWindow<I>(s: IdealPrio<I>, now: int, lo: int, loIterations: int) {
    && SortedIdeal(s.iterations) && SortedIdeal(s.timers)
    && InWindow(s.iterations, s.iterationsCounter + 1, loIterations) && InWindow(s.timers, now, lo)
    && 0 <= now - s.lastTimerProcessTime < 0x1_0000_0000
  }

  lemma {:induction false} ElementsLength<I>(list: seq<Item<I, Ideal>>)
    ensures |Elements(list)| == |list|
  {
    if list != [] {
      ElementsLength(list[1..]);
    }
  }

  lemma {:induction false} ElementsPrefix<I>(list: seq<Item<I, Ideal>>, n: nat)
    requires n <= |list|
    ensures |Elements(list)| == |list| && Elements(list)[..n] == Elements(list[..n])
  {
    ElementsLength(list);
    if n > 0 {
      ElementsPrefix(list[1..], n - 1);
      assert list[..n][1..] == list[1..][..n - 1];
    }
  }

  lemma {:induction false} ElementsOfPrefix<I>(list: seq<Listed<I>>, n: nat)
    requires n <= |list|
    ensures ElementsOf(list)[..n] == ElementsOf(list[..n])
  {
    if n > 0 {
      ElementsOfPrefix(list[1..], n - 1);
      assert list[..n][1..] == list[1..][..n - 1];
    }
  }

  lemma {:induction false} OneShotsFill<I>(list: seq<Listed<I>>)
    ensures TakeOneShots(list, 0, []).batch == FirstTwelve(ElementsOf(list))
  {
    OneShotsInOrder(list, 0, []);
    var n := TakeCount(list, 0, 0);
    ElementsOfPrefix(list, n);
    assert list[0..n] == list[..n] && (n == |list| ==> list[..n] == list);
  }

  lemma FirstTwelveAppend(s: seq<Element>, t: seq<Element>)
    ensures |FirstTwelve(s)| == MAX_TASKS_PER_EXECUTION ==> FirstTwelve(s + t) == FirstTwelve(s)
    ensures |FirstTwelve(s)| < MAX_TASKS_PER_EXECUTION ==>
              var room := MAX_TASKS_PER_EXECUTION - |s|;
              FirstTwelve(s) == s && FirstTwelve(s + t) == s + (if |t| <= room then t else t[..room])
  {
  }

  /** The tasks that find room are the first of the due ones. */
  lemma {:induction false} DuePrefix<I>(list: seq<Item<I, Ideal>>, now: int, queued: nat)
    requires queued < MAX_TASKS_PER_EXECUTION
    ensures var k, room := ServiceCount(list, now, queued), MAX_TASKS_PER_EXECUTION - queued;
            var due := DueElements(list, now);
            k <= |list| && Elements(list[..k]) == if |due| <= room then due else due[..room]
  {
    hide Elements, DueCount;
    var due, k := list[..DueCount(list, now)], ServiceCount(list, now, queued);
    ElementsPrefix(due, k);
    assert due[..k] == list[..k];
    assert k == |due| ==> due[..k] == due;
  }

  lemma ServedBatch<I>(list: seq<Item<I, Ideal>>, now: int, batch: seq<Element>, r: Polled<I, Ideal>)
    requires |batch| < MAX_TASKS_PER_EXECUTION && ServesInOrder(list, now, batch, r)
    ensures var k := ServiceCount(list, now, |batch|); k <= |list| && r.batch == batch + Elements(list[..k])
  {
  }

  lemma ShortBatch(s: seq<Element>)
    requires |s| < MAX_TASKS_PER_EXECUTION
    ensures |FirstTwelve(s)| < MAX_TASKS_PER_EXECUTION
  {
  }

  /** A timer list fills the batch up with its due tasks. */
  lemma {:induction false} TimersFill<I>(list: seq<Item<I, Ideal>>, now: int, lo: int, s: seq<Element>)
    requires SortedIdeal(list) && InWindow(list, now, lo) && |s| < MAX_TASKS_PER_EXECUTION
    ensures PollTimed(LowerAll(list), 0, Wrap32(now), s).batch == FirstTwelve(s + DueElements(list, now))
  {
    hide *;
    PollRefines(list, now, lo, s);
    PollServes(list, now, s);
    ServedBatch(list, now, s, PollIdeal(list, now, s));
    DuePrefix(list, now, |s|);
    ShortBatch(s);
    FirstTwelveAppend(s, DueElements(list, now));
  }

  lemma MillisecondChanged(last: int, now: int)
    requires 0 <= now - last < 0x1_0000_0000
    ensures Wrap32(last) == Wrap32(now) <==> last == now
  {
    var p := WrapOf(last);
    var q := WrapOf(now);
    assert now - last == Wrap32(now) - Wrap32(last) + 0x1_0000_0000 * (q - p);
  }

  lemma {:induction false} AfterIterationsIs<I>(s: IdealPrio<I>)
    ensures var a := FirstTwelve(ElementsOf(s.oneShots));
            AfterIterations(LowerPrio(s)).batch ==
            if s.idle && |a| < MAX_TASKS_PER_EXECUTION && s.iterations != []
            then PollTimed(LowerAll(s.iterations), 0, Wrap32(s.iterationsCounter + 1), a).batch else a
  {
    hide PollTimed, TakeOneShots, FirstTwelve, ElementsOf, LowerAll;
    OneShotsFill(s.oneShots);
    WrapAddsUp(s.iterationsCounter, 1);
  }

  lemma {:induction false} AfterTimersIs<I>(s: IdealPrio<I>, now: int)
    requires 0 <= now - s.lastTimerProcessTime < 0x1_0000_0000
    ensures var b := AfterIterations(LowerPrio(s)).batch;
            AfterTimers(LowerPrio(s), Wrap32(now)).batch ==
            if |b| < MAX_TASKS_PER_EXECUTION && s.timers != [] && s.lastTimerProcessTime != now
            then PollTimed(LowerAll(s.timers), 0, Wrap32(now), b).batch else b
  {
    hide PollTimed, AfterIterations, LowerAll;
    MillisecondChanged(s.lastTimerProcessTime, now);
  }

  /** Appending what a timer list has due to a batch that may be full already. */
  lemma {:induction false} TimersAppend<I>(list: seq<Item<I, Ideal>>, now: int, lo: int, s: seq<Element>, on: bool)
    requires SortedIdeal(list) && InWindow(list, now, lo)
    ensures var a := FirstTwelve(s);
            (if on && |a| < MAX_TASKS_PER_EXECUTION && list != []
             then PollTimed(LowerAll(list), 0, Wrap32(now), a).batch else a)
            == FirstTwelve(s + if on then DueElements(list, now) else [])
  {
    hide PollTimed, LowerAll, SortedIdeal, InWindow;
    FirstTwelveAppend(s, if on then DueElements(list, now) else []);
    if on && |FirstTwelve(s)| < MAX_TASKS_PER_EXECUTION && list != [] {
      TimersFill(list, now, lo, s);
    }
  }

  /**
   A poll executes exactly the first twelve (or fewer) of what is ready: one-shots in list order,
   then due iteration tasks, then due timers unless this millisecond was already polled.
   */
  lemma {:induction false} BatchIsFirstTwelve<I>(s: IdealPrio<I>, now: int, lo: int, loIterations: int)
    requires PrioInWindow(s, now, lo, loIterations)
    ensures AfterTimers(LowerPrio(s), Wrap32(now)).batch == FirstTwelve(Ready(s, now))
  {
    hide AfterIterations, AfterTimers, PollTimed, DueElements, ElementsOf, InWindow, SortedIdeal, LowerAll,
         FirstTwelve, Wrap32, LowerPrio;
    var first := ElementsOf(s.oneShots);
    var second := if s.idle then DueElements(s.iterations, s.iterationsCounter + 1) else [];
    AfterIterationsIs(s);
    TimersAppend(s.iterations, s.iterationsCounter + 1, loIterations, first, s.idle);
    AfterTimersIs(s, now);
    TimersAppend(s.timers, now, lo, first + second, s.lastTimerProcessTime != now);
  }

  /** A second poll in the same millisecond leaves the timers alone. */
  lemma TimersOnceAMillisecond<I>(s: Prio<I>, now: uint32)
    requires PollsTimers(s, now)
    ensures var r := AfterPoll(s, now);
            r.lastTimerProcessTime == now && AfterTimers(r, now) == Polled(r.timers, AfterIterations(r).batch)
  {
    hide AfterIterations, AfterOneShots, PollTimed;
  }

  // ---------------------------------------------------------------- what is executed

  /** The tasks that are ready, in the order in which they are served: one-shots, iteration tasks, timers. */
  function ReadyFns<I>(s: IdealPrio<I>, now: int): seq<(nat, nat)> {
    FnsOf(s.oneShots)
    + (if s.idle then DueFns(s.iterations, s.iterationsCounter + 1) else [])
    + (if s.lastTimerProcessTime != now then DueFns(s.timers, now) else [])
  }

  /** The function and the argument of each. */
  function FnsOf<I>(list: seq<Listed<I>>): (r: seq<(nat, nat)>)
    ensures |r| == |list|
  {
    seq(|list|, i requires 0 <= i < |list| => (list[i].key.pTaskFn, list[i].key.pUserData))
  }

  function DueFns<I>(list: seq<Item<I, Ideal>>, now: int): seq<(nat, nat)> {
    seq(DueCount(list, now), i requires 0 <= i < DueCount(list, now) => (list[i].key.pTaskFn, list[i].key.pUserData))
  }

  function Called(e: Element): (nat, nat) {
    (e.pTaskFn, e.pUserData)
  }

  ghost predicate Calls(s: seq<Element>, fns: seq<(nat, nat)>) {
    |s| == |fns| && forall i | 0 <= i < |s| :: Called(s[i]) == fns[i]
  }

  lemma {:induction false} OneShotsCall<I>(list: seq<Listed<I>>)
    ensures Calls(ElementsOf(list), FnsOf(list))
  {
    if list != [] {
      OneShotsCall(list[1..]);
      forall i | 0 <= i < |list|
        ensures Called(ElementsOf(list)[i]) == FnsOf(list)[i]
      {
        if i > 0 {
          assert ElementsOf(list)[i] == ElementsOf(list[1..])[i - 1] && FnsOf(list)[i] == FnsOf(list[1..])[i - 1];
        }
      }
    }
  }

  lemma {:induction false} ElementsCall<I>(list: seq<Item<I, Ideal>>)
    ensures |Elements(list)| == |list|
    ensures forall i | 0 <= i < |list| :: Called(Elements(list)[i]) == (list[i].key.pTaskFn, list[i].key.pUserData)
  {
    if list != [] {
      ElementsCall(list[1..]);
      forall i | 0 <= i < |list|
        ensures Called(Elements(list)[i]) == (list[i].key.pTaskFn, list[i].key.pUserData)
      {
        if i > 0 {
          assert Elements(list)[i] == Elements(list[1..])[i - 1] && list[i] == list[1..][i - 1];
        }
      }
    }
  }

  lemma {:induction false} DueCall<I>(list: seq<Item<I, Ideal>>, now: int)
    ensures Calls(DueElements(list, now), DueFns(list, now))
  {
    hide Elements, Called, DueCount;
    ElementsCall(list[..DueCount(list, now)]);
  }

  lemma CallsConcat(s: seq<Element>, t: seq<Element>, f: seq<(nat, nat)>, g: seq<(nat, nat)>)
    requires Calls(s, f) && Calls(t, g)
    ensures Calls(s + t, f + g)
  {
    hide Called;
  }

  /**
   The i-th task that a poll executes is the i-th of those that are ready: its function is called with
   its own argument, and twelve are executed or all of them.
   */
  lemma {:induction false} PollCallsTheReady<I>(s: IdealPrio<I>, now: int, lo: int, loIterations: int)
    requires PrioInWindow(s, now, lo, loIterations)
    ensures var batch, fns := AfterTimers(LowerPrio(s), Wrap32(now)).batch, ReadyFns(s, now);
            && |batch| == (if |fns| < 12 then |fns| else 12)
            && forall i | 0 <= i < |batch| :: batch[i].pTaskFn == fns[i].0 && batch[i].pUserData == fns[i].1
  {
    hide AfterTimers, LowerPrio, DueElements, DueFns, ElementsOf, FnsOf, InWindow, SortedIdeal, Wrap32;
    BatchIsFirstTwelve(s, now, lo, loIterations);
    var idle := if s.idle then DueElements(s.iterations, s.iterationsCounter + 1) else [];
    var idleFns := if s.idle then DueFns(s.iterations, s.iterationsCounter + 1) else [];
    OneShotsCall(s.oneShots);
    DueCall(s.iterations, s.iterationsCounter + 1);
    DueCall(s.timers, now);
    CallsConcat(ElementsOf(s.oneShots), idle, FnsOf(s.oneShots), idleFns);
    CallsConcat(ElementsOf(s.oneShots) + idle, if s.lastTimerProcessTime != now then DueElements(s.timers, now) else [],
                FnsOf(s.oneShots) + idleFns, if s.lastTimerProcessTime != now then DueFns(s.timers, now) else []);
    assert Calls(Ready(s, now), ReadyFns(s, now));
  }
}
