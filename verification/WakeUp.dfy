/**
 The wake-up protocol of one worker priority, as an interleaving of the worker's steps with adders,
 cancellers, triggers, enables and the clock. Critical sections are single steps; everything that the
 code does outside one is a step of its own. Times are unbounded; decisions are taken on their low
 32 bits.
 */
module WakeUp {
  import opened Words
  import opened Ordering
  import opened TimedPoll
  import opened Batch

  /** Where the worker is in its loop. */
  datatype Worker =
    | Top                                             // about to look at mEnabled
    | Events                                          // about to collect the pending events
    | Firing(events: set<nat>)                        // running event callbacks
    | Polling(now: int)                               // has read the clock, about to fill its queue
    | Running(batch: seq<Element>)                    // running queued tasks
    | Waiting(timeout: int, asOf: int)                // has computed its timeout at time asOf
    | Blocked(timeout: int, asOf: int, start: int)    // inside the semaphore wait since `start`
    | Disabled                                        // inside the endless wait of a disabled priority
    | Taken                                           // has the token, still to decrement the count

  datatype State = State(
    prio: IdealPrio<nat>, mask: set<nat>, mEnabled: bool,
    tokens: nat, mCnt: nat,                           // OS semaphore of maximum 1 and its shadow count
    pendingEnables: nat,                              // enables that have set the flag and not yet signalled
    clock: int, worker: Worker)

  datatype Step =
    | AddOneShot(task: Listed<nat>)
    | AddTimer(timer: Item<nat, Ideal>)
    | CancelOneShot(pos: nat)
    | CancelTimer(pos: nat)
    | Trigger(event: nat)
    | SetEnabled
    | SignalEnabled
    | Disable
    | Tick(ms: nat)
    | Work
    | TimeOut
    | WakeEarly                                       // a wait that would end past a wrap of the clock ends at once

  predicate Initial(s: State) {
    && s.prio.oneShots == [] && s.prio.timers == [] && s.prio.iterations == [] && !s.prio.idle
    && s.mask == {} && s.mEnabled && s.tokens == 0 && s.mCnt == 0 && s.pendingEnables == 0 && s.worker == Top
  }

  /** A signal posts only while the shadow count is below the maximum. */
  function Signal(s: State): State {
    if s.mCnt < 1 then s.(tokens := s.tokens + 1, mCnt := s.mCnt + 1) else s
  }

  function SignalIf(s: State, b: bool): State {
    if b then Signal(s) else s
  }

  /** Where the sorted insert, which compares 32-bit words, puts a timer. */
  function InsertPos(timers: seq<Item<nat, Ideal>>, timer: Item<nat, Ideal>): (p: nat)
    ensures p <= |timers|
  {
    FrontPos(NodeCompare, LowerAll(timers), Lower(timer.key))
  }

  /** The poll's critical section, on unbounded times. */
  function Poll(p: IdealPrio<nat>, now: int): (IdealPrio<nat>, seq<Element>) {
    var a := TakeOneShots(p.oneShots, 0, []);
    if |a.batch| < MAX_TASKS_PER_EXECUTION && p.timers != [] && Wrap32(p.lastTimerProcessTime) != Wrap32(now)
    then
      var c := PollIdeal(p.timers, now, a.batch);
      (IdealPrio(p.idle, a.list, p.iterations, c.list, p.iterationsCounter + 1, now), c.batch)
    else
      (IdealPrio(p.idle, a.list, p.iterations, p.timers, p.iterationsCounter + 1, p.lastTimerProcessTime), a.batch)
  }

  /** One step of the worker; blocked, it moves on only if it gets a token. */
  function WorkerStep(s: State): State {
    match s.worker
    case Top => s.(worker := if s.mEnabled then Events else Disabled)
    case Events => s.(worker := Firing(s.mask), mask := {})
    case Firing(_) => s.(worker := Polling(s.clock))
    case Polling(now) =>
      var (prio, batch) := Poll(s.prio, now);
      s.(prio := prio, worker := Running(batch))
    case Running(_) => s.(worker := Waiting(TimeToNextRun(LowerPrio(s.prio), Wrap32(s.clock)), s.clock))
    case Waiting(timeout, asOf) => s.(worker := Blocked(timeout, asOf, s.clock))
    case Blocked(_, _, _) => if s.tokens > 0 then s.(tokens := s.tokens - 1, worker := Taken) else s
    case Disabled => if s.tokens > 0 then s.(tokens := s.tokens - 1, worker := Taken) else s
    case Taken => s.(mCnt := if s.mCnt > 0 then s.mCnt - 1 else 0, worker := Top)
  }

  function Next(s: State, step: Step): State {
    match step
    case AddOneShot(task) =>
      SignalIf(s.(prio := s.prio.(oneShots := s.prio.oneShots + [task])), s.prio.oneShots == [])
    case AddTimer(timer) =>
      var p := InsertPos(s.prio.timers, timer);
      SignalIf(s.(prio := s.prio.(timers := InsertAt(s.prio.timers, p, timer))), p == 0)
    case CancelOneShot(pos) =>
      if pos < |s.prio.oneShots| then s.(prio := s.prio.(oneShots := RemoveAt(s.prio.oneShots, pos))) else s
    case CancelTimer(pos) =>
      if pos < |s.prio.timers| then s.(prio := s.prio.(timers := RemoveAt(s.prio.timers, pos))) else s
    case Trigger(event) => Signal(s.(mask := s.mask + {event}))
    case SetEnabled => s.(mEnabled := true, pendingEnables := s.pendingEnables + 1)
    case SignalEnabled => if s.pendingEnables > 0 then Signal(s.(pendingEnables := s.pendingEnables - 1)) else s
    case Disable => s.(mEnabled := false)
    case Tick(ms) => s.(clock := s.clock + ms)
    case Work => WorkerStep(s)
    case TimeOut =>
      if s.worker.Blocked? && 0 <= s.worker.timeout <= s.clock - s.worker.start then s.(worker := Top) else s
    case WakeEarly => if s.worker.Blocked? && 0 <= s.worker.timeout then s.(worker := Top) else s
  }

  /** The working range of the 32-bit clock: what a step compares lies within 2^31. */
  ghost predicate InRange(s: State, step: Step, lo: int) {
    match step
    case AddTimer(timer) => forall x | x in s.prio.timers + [timer] :: lo <= x.key.due < lo + 0x8000_0000
    case Work =>
      && (s.worker.Polling? ==> InWindow(s.prio.timers, s.worker.now, lo))
      && (s.worker.Running? && s.prio.timers != [] ==> -0x8000_0000 <= s.prio.timers[0].key.due - s.clock < 0x8000_0000)
    case _ => true
  }

  // ---------------------------------------------------------------- the invariant

  /** The timeout is no longer than the time there was, at `asOf`, to every timer listed now. */
  ghost predicate NotTooLong(timeout: int, asOf: int, timers: seq<Item<nat, Ideal>>) {
    forall x | x in timers :: 0 <= timeout && (timeout <= x.key.due - asOf || timeout == 0)
  }

  /** A worker that computed this timeout may go to sleep without a token. */
  ghost predicate MaySleep(s: State, timeout: int, asOf: int) {
    && s.mask == {}
    && (s.prio.oneShots == [] || timeout == 0)
    && NotTooLong(timeout, asOf, s.prio.timers)
  }

  /** What has to be the case whenever there is no token. */
  ghost predicate Armed(s: State) {
    match s.worker
    case Top => true
    case Events => true
    case Firing(_) => s.mask == {}
    case Polling(_) => s.mask == {}
    case Running(_) => s.mask == {}
    case Waiting(timeout, asOf) => MaySleep(s, timeout, asOf)
    case Blocked(timeout, asOf, _) => MaySleep(s, timeout, asOf)
    case Disabled => s.mEnabled ==> s.pendingEnables > 0
    case Taken => true
  }

  ghost predicate Inv(s: State) {
    && s.mCnt == s.tokens + (if s.worker.Taken? then 1 else 0) && s.mCnt <= 1
    && SortedIdeal(s.prio.timers) && s.prio.iterations == [] && !s.prio.idle
    && (s.worker.Waiting? ==> s.worker.asOf <= s.clock)
    && (s.worker.Blocked? ==> s.worker.asOf <= s.worker.start <= s.clock)
    && (s.tokens == 0 ==> Armed(s))
  }

  lemma FrontIsEarliest(timers: seq<Item<nat, Ideal>>)
    requires SortedIdeal(timers)
    ensures forall x | x in timers :: timers[0].key.due <= x.key.due
  {
  }

  /** The sleep time that the code computes on 32-bit words may be slept. */
  lemma SleepTimeIsRight(p: IdealPrio<nat>, clock: int)
    requires SortedIdeal(p.timers)
    requires p.timers != [] ==> -0x8000_0000 <= p.timers[0].key.due - clock < 0x8000_0000
    ensures var t := TimeToNextRun(LowerPrio(p), Wrap32(clock));
            && (p.oneShots == [] || t == 0) && NotTooLong(t, clock, p.timers) && -1 <= t < 0x8000_0000
            && (t == -1 <==> p.oneShots == [] && p.iterations == [] && p.timers == [])
  {
    FrontIsEarliest(p.timers);
    if p.timers != [] {
      SignedDifferenceExact(p.timers[0].key.due, clock);
      assert LowerAll(p.timers)[0].key.nextExecutionTime == Wrap32(p.timers[0].key.due);
    }
  }

  function PositiveOrZero(x: int): int {
    if x > 0 then x else 0
  }

  /** And it is no shorter than it may be: the time left to the earliest timer, if only timers are listed. */
  lemma SleepTimeIsExact(p: IdealPrio<nat>, clock: int)
    requires SortedIdeal(p.timers)
    requires p.timers != [] ==> -0x8000_0000 <= p.timers[0].key.due - clock < 0x8000_0000
    ensures var t := TimeToNextRun(LowerPrio(p), Wrap32(clock));
            && (p.oneShots != [] || p.iterations != [] ==> t == 0)
            && (p.oneShots == [] && p.iterations == [] ==>
                  if p.timers == [] then t == -1
                  else
                    && t == PositiveOrZero(p.timers[0].key.due - clock)
                    && forall x | x in p.timers :: t <= PositiveOrZero(x.key.due - clock))
  {
    FrontIsEarliest(p.timers);
    if p.timers != [] {
      SignedDifferenceExact(p.timers[0].key.due, clock);
      assert LowerAll(p.timers)[0].key.nextExecutionTime == Wrap32(p.timers[0].key.due);
    }
  }

  /** So a worker that has run its tasks waits just as long as there is nothing to do. */
  lemma WaitIsExact(s: State, lo: int)
    requires Inv(s) && InRange(s, Work, lo) && s.worker.Running?
    ensures var w, p := Next(s, Work).worker, s.prio;
            && w.Waiting? && w.asOf == s.clock && Next(s, Work) == s.(worker := w)
            && (p.oneShots != [] ==> w.timeout == 0)
            && (p.oneShots == [] && p.timers == [] ==> w.timeout == -1)
            && (p.oneShots == [] && p.timers != [] ==> w.timeout == PositiveOrZero(p.timers[0].key.due - s.clock))
  {
    hide TimeToNextRun, LowerPrio, Wrap32, SortedIdeal;
    SleepTimeIsExact(s.prio, s.clock);
  }

  /**
   And a worker at its poll takes the step of the code: its lists and what it is to run are those of the
   code's poll.
   */
  lemma WorkerPolls(s: State, lo: int)
    requires Inv(s) && InRange(s, Work, lo) && s.worker.Polling?
    ensures var r, now := Next(s, Work), Wrap32(s.worker.now);
            && r.worker == Running(AfterTimers(LowerPrio(s.prio), now).batch)
            && LowerPrio(r.prio) == AfterPoll(LowerPrio(s.prio), now) && r == s.(prio := r.prio, worker := r.worker)
  {
    hide TimeToNextRun, LowerPrio, Wrap32, SortedIdeal, AfterTimers, AfterPoll, Poll;
    PollRefinesCode(s.prio, s.worker.now, lo);
  }

  /** The steps that add and cancel are those of the code, on words: they change one list as its methods do. */
  lemma OthersTakeTheCodesSteps(s: State, step: Step, lo: int)
    requires Inv(s) && InRange(s, step, lo) && !step.Work?
    ensures var p, r := LowerPrio(s.prio), LowerPrio(Next(s, step).prio);
            match step
            case AddOneShot(task) => r == p.(oneShots := p.oneShots + [task])
            case AddTimer(timer) => r == p.(timers := Insert(NodeCompare, p.timers, LowerItem(timer)))
            case CancelOneShot(pos) => pos < |p.oneShots| ==> r == p.(oneShots := RemoveAt(p.oneShots, pos))
            case CancelTimer(pos) => pos < |p.timers| ==> r == p.(timers := RemoveAt(p.timers, pos))
            case _ => r == p
  {
    hide InsertPos, InsertAt, SortedIdeal, Wrap32, LowerAll, Insert, RemoveAt, LowerItem;
    match step {
      case AddTimer(timer) =>
        InsertKeepsFront(s.prio.timers, timer, lo);
        InsertRefines(s.prio.timers, timer, lo);
      case CancelTimer(pos) =>
        if pos < |s.prio.timers| {
          CancelRefines(s.prio.timers, pos);
        }
      case _ =>
    }
  }

  /** A timer that is not put in front is no earlier than the front. */
  lemma InsertKeepsFront(timers: seq<Item<nat, Ideal>>, timer: Item<nat, Ideal>, lo: int)
    requires SortedIdeal(timers) && forall x | x in timers + [timer] :: lo <= x.key.due < lo + 0x8000_0000
    ensures var r := InsertAt(timers, InsertPos(timers, timer), timer);
            && SortedIdeal(r) && r == Insert(CompareIdeal, timers, timer)
            && (InsertPos(timers, timer) != 0 ==> timers != [] && r[0] == timers[0])
  {
    assert timer in timers + [timer] && forall x | x in timers :: x in timers + [timer];
    FrontPosRefines(timers, timer.key, lo);
    InsertKeepsSorted(timers, timer);
  }

  /** The poll of the worker is the poll of the code, read on unbounded times. */
  lemma PollRefinesCode(p: IdealPrio<nat>, now: int, lo: int)
    requires SortedIdeal(p.timers) && InWindow(p.timers, now, lo) && !p.idle
    ensures LowerPrio(Poll(p, now).0) == AfterPoll(LowerPrio(p), Wrap32(now))
    ensures Poll(p, now).1 == AfterTimers(LowerPrio(p), Wrap32(now)).batch
  {
    hide TakeOneShots, PollTimed, PollIdeal, LowerAll, InWindow, SortedIdeal;
    var batch := TakeOneShots(p.oneShots, 0, []).batch;
    WrapAddsUp(p.iterationsCounter, 1);
    if |batch| < MAX_TASKS_PER_EXECUTION {
      PollRefines(p.timers, now, lo, batch);
    }
  }

  lemma PollSorted(p: IdealPrio<nat>, now: int)
    requires SortedIdeal(p.timers)
    ensures var r := Poll(p, now).0; SortedIdeal(r.timers) && r.iterations == p.iterations && r.idle == p.idle
  {
    hide PollIdeal, TakeOneShots, SortedIdeal;
    var batch := TakeOneShots(p.oneShots, 0, []).batch;
    if |batch| < MAX_TASKS_PER_EXECUTION {
      PollKeepsSorted(p.timers, now, batch);
    }
  }

  /** A signal leaves a token, unless the worker is just picking one up. */
  lemma SignalArms(s: State)
    requires s.mCnt == s.tokens + (if s.worker.Taken? then 1 else 0) && s.mCnt <= 1
    ensures var r := Signal(s);
            && r.mCnt == r.tokens + (if r.worker.Taken? then 1 else 0) && r.mCnt <= 1
            && (r.tokens == 1 || s.worker.Taken?) && r == s.(tokens := r.tokens, mCnt := r.mCnt)
  {
  }

  lemma KeepAddOneShot(s: State, task: Listed<nat>)
    requires Inv(s)
    ensures Inv(Next(s, AddOneShot(task)))
  {
    hide SortedIdeal, NotTooLong;
    SignalArms(s.(prio := s.prio.(oneShots := s.prio.oneShots + [task])));
  }

  lemma KeepAddTimer(s: State, timer: Item<nat, Ideal>, lo: int)
    requires Inv(s) && InRange(s, AddTimer(timer), lo)
    ensures Inv(Next(s, AddTimer(timer)))
  {
    hide InsertPos, InsertAt;
    var p := InsertPos(s.prio.timers, timer);
    var timers := InsertAt(s.prio.timers, p, timer);
    InsertKeepsFront(s.prio.timers, timer, lo);
    SignalArms(s.(prio := s.prio.(timers := timers)));
    FrontIsEarliest(timers);
  }

  lemma KeepCancel(s: State, step: Step)
    requires Inv(s) && (step.CancelOneShot? || step.CancelTimer?)
    ensures Inv(Next(s, step))
  {
  }

  lemma KeepTrigger(s: State, event: nat)
    requires Inv(s)
    ensures Inv(Next(s, Trigger(event)))
  {
    hide SortedIdeal, NotTooLong;
    SignalArms(s.(mask := s.mask + {event}));
  }

  lemma KeepEnable(s: State, step: Step)
    requires Inv(s)
    requires step in {SetEnabled, SignalEnabled, Disable, TimeOut, WakeEarly} || step.Tick?
    ensures Inv(Next(s, step))
  {
    hide SortedIdeal, NotTooLong;
    if s.pendingEnables > 0 {
      SignalArms(s.(pendingEnables := s.pendingEnables - 1));
    }
  }

  lemma KeepWork(s: State, lo: int)
    requires Inv(s) && InRange(s, Work, lo)
    ensures Inv(Next(s, Work))
  {
    hide SortedIdeal, NotTooLong, Poll, LowerPrio, TimeToNextRun;
    if s.worker.Polling? {
      PollSorted(s.prio, s.worker.now);
    } else if s.worker.Running? {
      SleepTimeIsRight(s.prio, s.clock);
    }
  }

  lemma StepKeepsInv(s: State, step: Step, lo: int)
    requires Inv(s) && InRange(s, step, lo)
    ensures Inv(Next(s, step))
  {
    hide Inv, Next, InRange;
    match step {
      case AddOneShot(task) => KeepAddOneShot(s, task);
      case AddTimer(timer) => KeepAddTimer(s, timer, lo);
      case CancelOneShot(_) => KeepCancel(s, step);
      case CancelTimer(_) => KeepCancel(s, step);
      case Trigger(event) => KeepTrigger(s, event);
      case Work => KeepWork(s, lo);
      case _ => KeepEnable(s, step);
    }
  }

  // ---------------------------------------------------------------- whole runs

  function Run(s: State, steps: seq<Step>): State
    decreases |steps|
  {
    if steps == [] then s else Run(Next(s, steps[0]), steps[1..])
  }

  ghost predicate RunInRange(s: State, steps: seq<Step>, los: seq<int>)
    requires |steps| == |los|
    decreases |steps|
  {
    steps != [] ==> InRange(s, steps[0], los[0]) && RunInRange(Next(s, steps[0]), steps[1..], los[1..])
  }

  lemma {:induction false} RunKeepsInv(s: State, steps: seq<Step>, los: seq<int>)
    requires Inv(s) && |steps| == |los| && RunInRange(s, steps, los)
    ensures Inv(Run(s, steps))
    decreases |steps|
  {
    hide Inv, Next, InRange;
    if steps != [] {
      StepKeepsInv(s, steps[0], los[0]);
      RunKeepsInv(Next(s, steps[0]), steps[1..], los[1..]);
    }
  }

  /**
   No lost wake-up. After any run, a worker asleep without a token has nothing to do: no event is
   pending, no one-shot is listed (or its timeout is 0), its timeout was computed as no more than the
   time left to every timer still listed, and so it oversleeps none of them by more than the time
   that passed between computing the timeout and starting to wait.
   */
  lemma {:induction false} NoLostWakeUp(s0: State, steps: seq<Step>, los: seq<int>)
    requires Initial(s0) && |steps| == |los| && RunInRange(s0, steps, los)
    ensures var s := Run(s0, steps);
            s.worker.Blocked? && s.tokens == 0 ==>
              var w := s.worker;
              && s.mask == {} && (s.prio.oneShots == [] || w.timeout == 0)
              && (forall x | x in s.prio.timers ::
                    0 <= w.timeout && (w.timeout <= x.key.due - w.asOf || w.timeout == 0))
              && (forall x | x in s.prio.timers ::
                    w.start + w.timeout <= (if x.key.due > w.asOf then x.key.due else w.asOf) + (w.start - w.asOf))
    ensures var s := Run(s0, steps);
            s.worker.Disabled? && s.tokens == 0 && s.mEnabled ==> s.pendingEnables > 0
  {
    assert SortedIdeal<nat>([]);
    RunKeepsInv(s0, steps, los);
  }

  // ---------------------------------------------------------------- events

  /** The worker is running the callback of this event. */
  predicate Fires(s: State, event: nat) {
    s.worker.Firing? && event in s.worker.events
  }

  /** A trigger makes its event pending; only a collection takes events away, and what it takes is fired. */
  lemma EventsAreHandedOver(s: State, step: Step)
    ensures var r := Next(s, step);
            && (forall e :: e in r.mask && e !in s.mask ==> step == Trigger(e))
            && (forall e :: step == Trigger(e) ==> e in r.mask)
            && (forall e :: e in s.mask && e !in r.mask ==> Fires(r, e) && !s.worker.Firing?)
            && (forall e :: Fires(r, e) && !s.worker.Firing? ==> e in s.mask && e !in r.mask)
            && (s.worker.Firing? && r.worker.Firing? ==> r.worker == s.worker)
  {
    hide Poll, LowerPrio, TimeToNextRun, InsertPos, InsertAt, RemoveAt, Wrap32;
  }

  lemma RunFirst(s: State, steps: seq<Step>, i: nat)
    requires 0 < i <= |steps|
    ensures Run(s, steps[..i]) == Run(Next(s, steps[0]), steps[1..][..i - 1])
  {
    hide Next;
    assert steps[..i][0] == steps[0] && steps[..i][1..] == steps[1..][..i - 1];
  }

  /** Over any run a pending event stays pending until it is fired. */
  lemma {:induction false} PendingUntilFired(s: State, steps: seq<Step>, event: nat)
    requires event in s.mask
    ensures event in Run(s, steps).mask || exists i :: 0 < i <= |steps| && Fires(Run(s, steps[..i]), event)
    decreases |steps|
  {
    hide Next, Fires;
    if steps != [] {
      var r := Next(s, steps[0]);
      EventsAreHandedOver(s, steps[0]);
      RunFirst(s, steps, 1);
      assert steps[1..][..0] == [] && Run(r, []) == r;
      if event in r.mask {
        PendingUntilFired(r, steps[1..], event);
        if event !in Run(s, steps).mask {
          var i :| 0 < i <= |steps[1..]| && Fires(Run(r, steps[1..][..i]), event);
          RunFirst(s, steps, i + 1);
          assert Fires(Run(s, steps[..i + 1]), event);
        }
      } else {
        assert Fires(Run(s, steps[..1]), event);
      }
    }
  }

  /** No trigger is lost: after any run from it on, its event is pending or was fired since. */
  lemma {:induction false} TriggeredIsFired(s: State, event: nat, steps: seq<Step>)
    ensures var q := Next(s, Trigger(event));
            event in Run(q, steps).mask || exists i :: 0 < i <= |steps| && Fires(Run(q, steps[..i]), event)
  {
    hide Next;
    EventsAreHandedOver(s, Trigger(event));
    PendingUntilFired(Next(s, Trigger(event)), steps, event);
  }

  /** How often the run begins to fire the event, and how often it triggers it. */
  function Firings(s: State, steps: seq<Step>, event: nat): nat
    decreases |steps|
  {
    if steps == [] then 0
    else
      var r := Next(s, steps[0]);
      (if Fires(r, event) && !s.worker.Firing? then 1 else 0) + Firings(r, steps[1..], event)
  }

  function Triggers(steps: seq<Step>, event: nat): nat {
    if steps == [] then 0 else (if steps[0] == Trigger(event) then 1 else 0) + Triggers(steps[1..], event)
  }

  function IsPending(s: State, event: nat): nat {
    if event in s.mask then 1 else 0
  }

  /** And none is made up: over any run an event is fired no more often than it was triggered. */
  lemma {:induction false} FiredNoMoreThanTriggered(s: State, steps: seq<Step>, event: nat)
    ensures Firings(s, steps, event) + IsPending(Run(s, steps), event) <= Triggers(steps, event) + IsPending(s, event)
    decreases |steps|
  {
    hide Next, Fires;
    if steps != [] {
      EventsAreHandedOver(s, steps[0]);
      FiredNoMoreThanTriggered(Next(s, steps[0]), steps[1..], event);
    }
  }

  ghost predicate Increasing(s: seq<nat>) {
    forall i, j | 0 <= i < j < |s| :: s[i] < s[j]
  }

  /** Calls the functions of the collected events, each once, in the order of their registration. */
  method FireEvents(eventsMask: set<nat>, eventsAry: seq<Element>) returns (called: seq<Element>, order: seq<nat>)
    ensures Increasing(order) && |called| == |order|
    ensures forall i :: i in order <==> i < |eventsAry| && i in eventsMask
    ensures forall k | 0 <= k < |order| :: order[k] < |eventsAry| && called[k] == eventsAry[order[k]]
  {
    called, order := [], [];
    for i := 0 to |eventsAry|
      invariant Increasing(order) && |called| == |order|
      invariant forall j :: j in order <==> j < i && j in eventsMask
      invariant forall k | 0 <= k < |order| :: order[k] < i && called[k] == eventsAry[order[k]]
    {
      if i in eventsMask {
        called, order := called + [eventsAry[i]], order + [i];
      }
    }
  }

  // ---------------------------------------------------------------- oversleeping

  /** Some run in the working range leads from `s0` to `s`. */
  ghost predicate Reachable(s0: State, s: State) {
    exists steps: seq<Step>, los: seq<int> :: |steps| == |los| && RunInRange(s0, steps, los) && Run(s0, steps) == s
  }

  lemma ReachableAtStart(s: State)
    ensures Reachable(s, s)
  {
    var steps: seq<Step>, los: seq<int> := [], [];
    assert RunInRange(s, steps, los) && Run(s, steps) == s;
  }

  lemma {:induction false} RunOneMore(s: State, steps: seq<Step>, los: seq<int>, step: Step, lo: int)
    requires |steps| == |los| && RunInRange(s, steps, los) && InRange(Run(s, steps), step, lo)
    ensures RunInRange(s, steps + [step], los + [lo]) && Run(s, steps + [step]) == Next(Run(s, steps), step)
    decreases |steps|
  {
    hide Next, InRange;
    if steps == [] {
      assert [step][1..] == [] && [lo][1..] == [] && steps + [step] == [step] && los + [lo] == [lo];
      assert Run(Next(s, step), []) == Next(s, step);
    } else {
      RunOneMore(Next(s, steps[0]), steps[1..], los[1..], step, lo);
      assert (steps + [step])[1..] == steps[1..] + [step] && (los + [lo])[1..] == los[1..] + [lo];
    }
  }

  lemma ReachStep(s0: State, s: State, step: Step, lo: int) returns (r: State)
    requires Reachable(s0, s) && InRange(s, step, lo)
    ensures r == Next(s, step) && Reachable(s0, r)
  {
    hide Next, InRange, RunInRange, Run;
    var steps: seq<Step>, los: seq<int> :| |steps| == |los| && RunInRange(s0, steps, los) && Run(s0, steps) == s;
    RunOneMore(s0, steps, los, step, lo);
    r := Next(s, step);
    assert RunInRange(s0, steps + [step], los + [lo]) && Run(s0, steps + [step]) == r;
  }

  /** A wait ends with a token, or when its timeout is over; it may end earlier, but for an endless one. */
  lemma WaitEnds(s: State)
    requires s.worker.Blocked?
    ensures var w, top := s.worker, s.(worker := Top);
            && Next(s, TimeOut) == (if 0 <= w.timeout && w.start + w.timeout <= s.clock then top else s)
            && Next(s, WakeEarly) == (if 0 <= w.timeout then top else s)
            && Next(s, Work) == if s.tokens > 0 then s.(tokens := s.tokens - 1, worker := Taken) else s
  {
  }

  /** Nothing but this timer concerns the worker. */
  ghost predicate Only(s: State, x: Item<nat, Ideal>) {
    && s.mEnabled && s.mask == {} && s.prio.oneShots == [] && s.prio.iterations == [] && !s.prio.idle
       && s.prio.timers == [x]
    && x.key.period == 0
  }

  lemma QuietPoll(p: IdealPrio<nat>, x: Item<nat, Ideal>, now: int)
    requires p.oneShots == [] && p.timers == [x] && x.key.due > now
    ensures var (r, batch) := Poll(p, now);
            batch == [] && r.timers == p.timers && r.oneShots == [] && r.iterations == p.iterations && r.idle == p.idle
  {
    PollIdealStep(p.timers, now, []);
  }

  lemma QuietTimeout(s: State, x: Item<nat, Ideal>, timeout: int)
    requires Only(s, x) && 0 < timeout < 0x8000_0000 && x.key.due == s.clock + timeout
    ensures TimeToNextRun(LowerPrio(s.prio), Wrap32(s.clock)) == timeout
  {
    SignedDifferenceExact(x.key.due, s.clock);
    assert LowerAll(s.prio.timers)[0].key.nextExecutionTime == Wrap32(x.key.due);
  }

  lemma InRangeOf(s: State, x: Item<nat, Ideal>, timeout: int)
    requires Only(s, x) && 0 < timeout < 0x8000_0000 && x.key.due == s.clock + timeout
    requires s.worker.Polling? ==> s.worker.now == s.clock
    ensures InRange(s, Work, s.clock)
  {
  }

  /** Five steps of the worker with a single timer that is not due yet. */
  lemma {:induction false} QuietLoop(s0: State, s: State, x: Item<nat, Ideal>, timeout: int) returns (r: State)
    requires Reachable(s0, s) && Only(s, x) && s.worker == Top && 0 < timeout < 0x8000_0000
             && x.key.due == s.clock + timeout
    ensures Reachable(s0, r) && Only(r, x) && r.worker == Waiting(timeout, s.clock)
    ensures r.clock == s.clock && r.tokens == s.tokens && r.mCnt == s.mCnt
  {
    hide InRange, Reachable, Poll, LowerPrio, Wrap32, TimeToNextRun, InsertPos;
    InRangeOf(s, x, timeout);
    var a := ReachStep(s0, s, Work, s.clock);
    InRangeOf(a, x, timeout);
    var b := ReachStep(s0, a, Work, s.clock);
    InRangeOf(b, x, timeout);
    var c := ReachStep(s0, b, Work, s.clock);
    InRangeOf(c, x, timeout);
    QuietPoll(c.prio, x, s.clock);
    var d := ReachStep(s0, c, Work, s.clock);
    InRangeOf(d, x, timeout);
    QuietTimeout(d, x, timeout);
    r := ReachStep(s0, d, Work, s.clock);
  }

  /** A state after one timer was added at the start of everything: it lies in the working range of the clock. */
  lemma FirstTimer(s0: State, x: Item<nat, Ideal>)
    requires Initial(s0) && x.key.period == 0
    ensures InRange(s0, AddTimer(x), x.key.due)
    ensures Only(Next(s0, AddTimer(x)), x)
            && Next(s0, AddTimer(x)) == s0.(prio := s0.prio.(timers := [x]), tokens := 1, mCnt := 1)
  {
    assert InsertAt([], 0, x) == [x];
  }

  /** A run in which the worker sleeps past a timer: it starts to wait later than it computed its timeout. */
  lemma {:induction false} LateSleeper(timeout: int, asOf: int, start: int)
      returns (s0: State, s: State, x: Item<nat, Ideal>)
    requires 0 < timeout < 0x8000_0000 && asOf <= start
    ensures Initial(s0) && Reachable(s0, s) && s.worker == Blocked(timeout, asOf, start) && s.tokens == 0
    ensures s.clock == start && s.mEnabled && s.prio.timers == [x] && x.key.due == asOf + timeout
  {
    hide InRange, Reachable, Poll, LowerPrio, Wrap32, TimeToNextRun, InsertPos;
    x := Item(0, Ideal(asOf + timeout, 0, 0, 0));
    s0 := State(IdealPrio(false, [], [], [], 0, 0), {}, true, 0, 0, 0, asOf, Top);
    ReachableAtStart(s0);
    FirstTimer(s0, x);
    s := ReachStep(s0, s0, AddTimer(x), x.key.due);
    s := QuietLoop(s0, s, x, timeout);
    InRangeOf(s, x, timeout);
    s := ReachStep(s0, s, Work, asOf);
    InRangeOf(s, x, timeout);
    s := ReachStep(s0, s, Work, asOf);
    InRangeOf(s, x, timeout);
    s := ReachStep(s0, s, Work, asOf);
    s := QuietLoop(s0, s, x, timeout);
    TickInRange(s, start - asOf);
    s := ReachStep(s0, s, Tick(start - asOf), 0);
    WaitInRange(s);
    s := ReachStep(s0, s, Work, 0);
  }

  lemma TickInRange(s: State, ms: nat)
    ensures InRange(s, Tick(ms), 0)
  {
  }

  lemma WaitInRange(s: State)
    requires s.worker.Waiting?
    ensures InRange(s, Work, 0)
  {
  }

  /** In this state the worker sleeps without a token until after a listed timer is due. */
  ghost predicate Oversleeps(s: State, x: Item<nat, Ideal>) {
    && s.worker.Blocked? && s.tokens == 0 && x in s.prio.timers && s.worker.start + s.worker.timeout > x.key.due
  }

  ghost predicate CanOversleep(timeout: int, asOf: int, start: int) {
    exists s0: State, s: State, x: Item<nat, Ideal> ::
      Initial(s0) && Reachable(s0, s) && s.worker == Blocked(timeout, asOf, start) && Oversleeps(s, x)
  }

  /** A wait for a positive timeout can outlast a listed timer iff it starts later than its timeout was computed. */
  lemma {:induction false} OversleepsIffLate(timeout: int, asOf: int, start: int)
    requires 0 < timeout < 0x8000_0000 && asOf <= start
    ensures CanOversleep(timeout, asOf, start) <==> start > asOf
  {
    hide Reachable;
    if start > asOf {
      var s0, s, x := LateSleeper(timeout, asOf, start);
      assert Oversleeps(s, x);
    }
    forall s0: State, s: State, x: Item<nat, Ideal>
      | Initial(s0) && Reachable(s0, s) && s.worker == Blocked(timeout, asOf, start) && Oversleeps(s, x)
      ensures start > asOf
    {
      NotTooLongAtReach(s0, s, x);
    }
  }

  lemma NotTooLongAtReach(s0: State, s: State, x: Item<nat, Ideal>)
    requires Initial(s0) && Reachable(s0, s) && Oversleeps(s, x)
    ensures s.worker.timeout > 0 ==> s.worker.timeout <= x.key.due - s.worker.asOf
  {
    hide RunInRange, Run;
    var steps: seq<Step>, los: seq<int> :| |steps| == |los| && RunInRange(s0, steps, los) && Run(s0, steps) == s;
    NoLostWakeUp(s0, steps, los);
  }

  // ---------------------------------------------------------------- progress of the worker alone

  /** The worker alone: a step, or the expiry of its wait when it has no token. */
  function Alone(s: State): State {
    if s.worker.Blocked? && s.tokens == 0 then Next(s, TimeOut) else Next(s, Work)
  }

  function AloneFor(s: State, n: nat): State
    decreases n
  {
    if n == 0 then s else AloneFor(Alone(s), n - 1)
  }

  predicate OnItsWay(w: Worker) {
    w.Top? || w.Events? || w.Firing? || w.Taken?
  }

  /** Steps to the poll from the places before it. */
  function StepsToPoll(w: Worker): nat {
    match w
    case Taken => 4
    case Top => 3
    case Events => 2
    case Firing(_) => 1
    case _ => 0
  }

  lemma {:induction false} ReachesPoll(s: State)
    requires OnItsWay(s.worker) && s.mEnabled
    ensures var r := AloneFor(s, StepsToPoll(s.worker));
            && r.worker == Polling(s.clock) && r.prio == s.prio && r.clock == s.clock
            && (!s.worker.Firing? ==> r.mask == {})
    ensures !s.worker.Firing? ==> AloneFor(s, StepsToPoll(s.worker) - 1).worker == Firing(s.mask)
    decreases StepsToPoll(s.worker)
  {
    hide LowerPrio, Poll, TimeToNextRun, InsertPos;
    if !s.worker.Firing? {
      ReachesPoll(Alone(s));
    }
  }

  lemma AloneForOneMore(s: State, n: nat)
    requires n > 0
    ensures AloneFor(s, n) == AloneFor(Alone(s), n - 1)
  {
  }

  /**
   Whenever work is listed or pending for an enabled, sleeping worker and the worker then runs alone,
   it wakes by itself and within five of its own steps is at its poll, after it fired just the events
   that were pending; for a timer, at the latest when the lag between computing the timeout and
   starting to wait has passed since the timer was due.
   */
  lemma {:induction false} SleeperServesWork(s: State)
    requires Inv(s) && s.worker.Blocked? && s.mEnabled
    requires s.mask != {} || s.prio.oneShots != [] ||
             exists x :: x in s.prio.timers && s.clock - (s.worker.start - s.worker.asOf) >= x.key.due
                         && s.clock - (s.worker.start - s.worker.asOf) >= s.worker.asOf
    ensures var n := if s.tokens > 0 then 5 else 4;
            && AloneFor(s, n - 1).worker == Firing(s.mask)
            && AloneFor(s, n).worker == Polling(s.clock) && AloneFor(s, n).mask == {} && AloneFor(s, n).prio == s.prio
  {
    var w := Alone(s);
    assert w.worker == (if s.tokens > 0 then Taken else Top) && w.prio == s.prio && w.clock == s.clock && w.mEnabled;
    assert w.mask == s.mask;
    AloneForOneMore(s, if s.tokens > 0 then 5 else 4);
    AloneForOneMore(s, if s.tokens > 0 then 4 else 3);
    hide Alone, AloneFor;
    ReachesPoll(w);
  }

  /** A disabled sleeper comes back once an enable has finished. */
  lemma {:induction false} EnabledSleeperPolls(s: State)
    requires Inv(s) && s.worker.Disabled? && s.mEnabled && s.pendingEnables == 0
    ensures AloneFor(s, 4).worker == Firing(s.mask)
    ensures AloneFor(s, 5).worker == Polling(s.clock) && AloneFor(s, 5).mask == {} && AloneFor(s, 5).prio == s.prio
  {
    var w := Alone(s);
    assert w.worker == Taken && w.prio == s.prio && w.clock == s.clock && w.mEnabled && w.mask == s.mask;
    AloneForOneMore(s, 5);
    AloneForOneMore(s, 4);
    hide Alone, AloneFor;
    ReachesPoll(w);
  }

  /** An enable of a disabled priority, once it is finished, has the worker at its poll in five steps. */
  lemma {:induction false} EnableWakes(s: State)
    requires Inv(s) && s.worker.Disabled? && s.pendingEnables == 0
    ensures var q := Next(Next(s, SetEnabled), SignalEnabled);
            AloneFor(q, 4).worker == Firing(s.mask) && AloneFor(q, 5).worker == Polling(s.clock)
  {
    hide SortedIdeal, NotTooLong, AloneFor;
    KeepEnable(s, SetEnabled);
    KeepEnable(Next(s, SetEnabled), SignalEnabled);
    EnabledSleeperPolls(Next(Next(s, SetEnabled), SignalEnabled));
  }

  /** A worker that has not passed its test of the flag, or sleeps. */
  predicate AtRest(w: Worker) {
    w.Top? || w.Waiting? || w.Blocked? || w.Disabled? || w.Taken?
  }

  /** While a priority is disabled its worker, once at rest, fires and runs nothing. */
  lemma {:induction false} DisabledRunsNothing(s: State, steps: seq<Step>)
    requires AtRest(s.worker) && !s.mEnabled && SetEnabled !in steps
    ensures AtRest(Run(s, steps).worker) && !Run(s, steps).mEnabled
    decreases |steps|
  {
    if steps != [] {
      assert steps[0] in steps && forall step | step in steps[1..] :: step in steps;
      DisabledStaysAtRest(s, steps[0]);
      hide Next;
      DisabledRunsNothing(Next(s, steps[0]), steps[1..]);
    }
  }

  lemma DisabledStaysAtRest(s: State, step: Step)
    requires AtRest(s.worker) && !s.mEnabled && step != SetEnabled
    ensures AtRest(Next(s, step).worker) && !Next(s, step).mEnabled
  {
    hide Poll, LowerPrio, TimeToNextRun, InsertPos, InsertAt, RemoveAt, Wrap32;
  }

  /** A disable takes effect when the worker next looks at the flag. */
  lemma DisableStops(s: State)
    ensures !Next(s, Disable).mEnabled && Next(s, Disable).worker == s.worker
    ensures s.worker == Top ==> Next(Next(s, Disable), Work).worker == Disabled
  {
  }

  /** Steps of the worker alone from wherever it is to its next poll, when a one-shot is listed. */
  function StepsToServe(s: State): nat {
    var wake := if s.tokens > 0 then 5 else 4;
    match s.worker
    case Running(_) => 2 + wake
    case Waiting(_, _) => 1 + wake
    case Blocked(_, _, _) => wake
    case Disabled => 5
    case w => StepsToPoll(w)
  }

  /** The worker is not stuck: what it sleeps on, if anything, lets it go. */
  ghost predicate Awake(s: State) {
    match s.worker
    case Waiting(timeout, _) => s.tokens > 0 || timeout == 0
    case Blocked(timeout, _, start) => s.tokens > 0 || (timeout == 0 && start <= s.clock)
    case Disabled => s.tokens > 0
    case _ => true
  }

  lemma {:induction false} AwakeReachesPoll(s: State)
    requires Awake(s) && s.mEnabled && s.prio.oneShots != []
    ensures var r := AloneFor(s, StepsToServe(s));
            r.worker.Polling? && r.prio == s.prio
    decreases if s.worker.Running? then 2 else if s.worker.Waiting? then 1 else 0
  {
    hide Poll, InsertPos, LowerAll, FrontPos;
    if s.worker.Running? || s.worker.Waiting? {
      var w := Alone(s);
      assert w.worker ==
             (if s.worker.Running? then Waiting(0, s.clock) else Blocked(s.worker.timeout, s.worker.asOf, s.clock));
      AwakeReachesPoll(w);
    } else if s.worker.Blocked? || s.worker.Disabled? {
      var w := Alone(s);
      assert w.worker == if s.tokens > 0 then Taken else Top;
      ReachesPoll(w);
    } else if !s.worker.Polling? {
      ReachesPoll(s);
    }
  }

  /** What the poll does with the one-shot list. */
  lemma PollTakesOneShots(p: IdealPrio<nat>, now: int)
    requires SortedIdeal(p.timers) && p.oneShots != []
    ensures var n := TakeCount(p.oneShots, 0, 0);
            && Poll(p, now).0.oneShots == Pollers(p.oneShots[..n]) + p.oneShots[n..]
            && ElementsOf(p.oneShots[..n]) <= Poll(p, now).1
  {
    hide TakeOneShots, PollIdeal, SortedIdeal, Pollers, ElementsOf, Elements, InsertAllFromFront;
    var n := TakeCount(p.oneShots, 0, 0);
    OneShotsInOrder(p.oneShots, 0, []);
    assert p.oneShots[0..n] == p.oneShots[..n] && p.oneShots[..0] == [];
    var batch := TakeOneShots(p.oneShots, 0, []).batch;
    if |batch| < MAX_TASKS_PER_EXECUTION {
      PollServes(p.timers, now, batch);
    }
  }

  lemma AloneForLast(s: State, n: nat)
    ensures AloneFor(s, n + 1) == Alone(AloneFor(s, n))
    decreases n
  {
    hide Alone;
    if n > 0 {
      AloneForLast(Alone(s), n - 1);
    }
  }

  /**
   Wherever the worker of an enabled priority is, if it then runs alone, within eight of its own steps
   it takes the first twelve listed one-shots for execution, in order, and unlists those of them that
   are not pollers.
   */
  lemma {:induction false} OneShotsAreServed(s: State)
    requires Inv(s) && s.mEnabled && s.prio.oneShots != [] && (s.worker.Disabled? ==> s.pendingEnables == 0)
    ensures StepsToServe(s) <= 7
    ensures var r, n := AloneFor(s, StepsToServe(s) + 1), TakeCount(s.prio.oneShots, 0, 0);
            && r.worker.Running? && ElementsOf(s.prio.oneShots[..n]) <= r.worker.batch
            && r.prio.oneShots == Pollers(s.prio.oneShots[..n]) + s.prio.oneShots[n..]
  {
    hide AloneFor, Poll, SortedIdeal, ElementsOf, Pollers, NotTooLong, TimeToNextRun, LowerPrio;
    AwakeReachesPoll(s);
    AloneForLast(s, StepsToServe(s));
    PollTakesOneShots(s.prio, AloneFor(s, StepsToServe(s)).worker.now);
  }
}
