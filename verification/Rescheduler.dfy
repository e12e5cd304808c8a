/**
 A rescheduler and the worker that runs its task. The worker takes the task off its list in one
 critical section and enters the callback in a later one, so every operation of the rescheduler can
 come in between. Each operation is one critical section; the clock may move inside it. Times are
 unbounded and decisions are taken on their low 32 bits.
 */
module Rescheduler {
  import opened Common
  import opened Words

  /** Where the task's list node is. */
  datatype Place = Unlisted | OnOneShots | OnTimers(due: int)

  /** What happens to a request to run the application function. */
  datatype Event =
    | Scheduled(at: int)                    // mIsScheduled becomes true, for time `at`
    | Moved(to: int, forced: bool)          // a pending request is moved to another time
    | Captured(at: int)                     // the callback has taken the application function for its call
    | Withdrawn                             // mIsScheduled becomes false without a call

  datatype State = State(
    mIsEnabled: bool, mIsScheduled: bool, mNextExec: int, hasAppFn: bool,
    place: Place,
    inBatch: bool,                          // the worker holds the task in its execution queue
    clock: int, log: seq<Event>)

  datatype Step =
    | DoReschedule(delay: uint32, lag: nat)     // `lag` passes between the two readings of the clock
    | ForceReschedule(delay: uint32, lag: nat)
    | Disable
    | Enable
    | Cancel
    | Take(now: int)                            // the poll at time `now` queues the task
    | Callback                                  // the queued element's callback decides
    | Tick(ms: nat)

  predicate Initial(s: State) {
    s.mIsEnabled && !s.mIsScheduled && s.place == Unlisted && !s.inBatch && s.log == []
  }

  function Logged(s: State, e: Event): State {
    s.(log := s.log + [e])
  }

  /** Adds the task to its scheduler, which insists that it is in no list. */
  function AddTimer(s: State, delay: uint32): State
    requires s.place == Unlisted
  {
    s.(place := if delay == 0 then OnOneShots else OnTimers(s.clock + delay))
  }

  /** The difference of two times as the code sees it. */
  function TimeDiff(a: int, b: int): int {
    Signed32(Wrap32(a) - Wrap32(b))
  }

  function Reschedule(s: State, delay: uint32, lag: nat, e: Event): State
    requires s.place == Unlisted
  {
    AddTimer(Logged(s, e).(mNextExec := s.clock + delay, mIsScheduled := true, clock := s.clock + lag), delay)
  }

  function Withdraw(s: State): State {
    if s.mIsScheduled then Logged(s, Withdrawn).(mIsScheduled := false, place := Unlisted) else s
  }

  /** A task that is listed though it is not scheduled fails the code's assertion: no run gets there. */
  function DoRescheduled(s: State, delay: uint32, lag: nat): State {
    var nextExec := s.clock + delay;
    if !s.mIsEnabled then s
    else if !s.mIsScheduled && s.place != Unlisted then s
    else if !s.mIsScheduled then Reschedule(s, delay, lag, Scheduled(nextExec))
    else if TimeDiff(nextExec, s.mNextExec) < 0
    then Reschedule(s.(place := Unlisted), delay, lag, Moved(nextExec, false))
    else s.(clock := s.clock + lag)
  }

  function ForceRescheduled(s: State, delay: uint32, lag: nat): State {
    var nextExec := s.clock + delay;
    if !s.mIsEnabled then s
    else
      var e := if s.mIsScheduled then Moved(nextExec, true) else Scheduled(nextExec);
      Reschedule(s.(place := Unlisted), delay, lag, e)
  }

  /** The callback's critical section: it does nothing for a task that was withdrawn or listed again. */
  function CalledBack(s: State): State {
    var r := s.(inBatch := false);
    if s.inBatch && s.mIsScheduled && s.place == Unlisted
    then Logged(r, if s.mIsEnabled && s.hasAppFn then Captured(s.clock) else Withdrawn).(mIsScheduled := false)
    else r
  }

  /** A poll can take the task when the worker has emptied its queue and, for a timer, it is due. */
  predicate CanTake(s: State, now: int) {
    && !s.inBatch && now <= s.clock && s.place != Unlisted
    && (s.place.OnTimers? ==> TimeDiff(s.place.due, now) <= 0)
  }

  function Next(s: State, step: Step): State {
    match step
    case DoReschedule(delay, lag) => DoRescheduled(s, delay, lag)
    case ForceReschedule(delay, lag) => ForceRescheduled(s, delay, lag)
    case Disable => Withdraw(s).(mIsEnabled := false)
    case Enable => s.(mIsEnabled := true)
    case Cancel => Withdraw(s)
    case Take(now) => if CanTake(s, now) then s.(place := Unlisted, inBatch := true) else s
    case Callback => CalledBack(s)
    case Tick(ms) => s.(clock := s.clock + ms)
  }

  /** The working range of the 32-bit clock. */
  ghost predicate InRange(s: State, step: Step) {
    match step
    case DoReschedule(delay, _) => s.mIsScheduled ==> -0x8000_0000 <= s.clock + delay - s.mNextExec < 0x8000_0000
    case Take(now) => s.place.OnTimers? ==> -0x8000_0000 <= s.place.due - now < 0x8000_0000
    case _ => true
  }

  // ---------------------------------------------------------------- the life of a request

  /** The time of the request that is open after `log`, if one is. */
  function Open(log: seq<Event>): Option<int> {
    if log == [] then None
    else
      match log[|log| - 1]
      case Scheduled(at) => Some(at)
      case Moved(to, _) => Some(to)
      case Captured(_) => None
      case Withdrawn => None
  }

  /** An event is in order: only an open request is moved, captured or withdrawn, and not before its time. */
  predicate InOrder(open: Option<int>, e: Event) {
    match e
    case Scheduled(_) => open == None
    case Moved(to, forced) => open.Some? && (forced || to < open.value)
    case Captured(at) => open.Some? && open.value <= at
    case Withdrawn => open.Some?
  }

  ghost predicate Proper(log: seq<Event>) {
    log != [] ==> var last := |log| - 1; Proper(log[..last]) && InOrder(Open(log[..last]), log[last])
  }

  lemma ProperStep(log: seq<Event>, e: Event)
    requires Proper(log) && InOrder(Open(log), e)
    ensures Proper(log + [e])
  {
    assert (log + [e])[..|log|] == log;
  }

  /** Where the node is, whether it is scheduled and what was logged fit together. */
  ghost predicate Inv(s: State) {
    && (!s.mIsScheduled ==> s.place == Unlisted)
    && (s.mIsScheduled ==> s.place != Unlisted || s.inBatch)
    && (!s.mIsEnabled ==> !s.mIsScheduled)
    && Proper(s.log) && Open(s.log) == (if s.mIsScheduled then Some(s.mNextExec) else None)
    && (s.mIsScheduled ==>
          match s.place
          case OnTimers(due) => s.mNextExec <= due
          case _ => s.mNextExec <= s.clock)
  }

  /** Scheduling a task that is in no list, with the event that fits. */
  lemma KeepReschedule(s: State, delay: uint32, lag: nat, e: Event)
    requires s.place == Unlisted && s.mIsEnabled && Proper(s.log) && InOrder(Open(s.log), e)
    requires e == Scheduled(s.clock + delay) || (e.Moved? && e.to == s.clock + delay)
    ensures Inv(Reschedule(s, delay, lag, e))
  {
    hide Proper;
    ProperStep(s.log, e);
  }

  lemma KeepSchedule(s: State, step: Step)
    requires Inv(s) && InRange(s, step) && (step.DoReschedule? || step.ForceReschedule?)
    ensures Inv(Next(s, step))
  {
    hide Proper, Signed32, Wrap32, Reschedule;
    if s.mIsEnabled {
      var nextExec := s.clock + step.delay;
      var q := s.(place := Unlisted);
      if step.ForceReschedule? {
        KeepReschedule(q, step.delay, step.lag, if s.mIsScheduled then Moved(nextExec, true) else Scheduled(nextExec));
      } else if !s.mIsScheduled {
        KeepReschedule(s, step.delay, step.lag, Scheduled(nextExec));
      } else {
        SignedDifferenceExact(nextExec, s.mNextExec);
        if TimeDiff(nextExec, s.mNextExec) < 0 {
          KeepReschedule(q, step.delay, step.lag, Moved(nextExec, false));
        }
      }
    }
  }

  lemma KeepWithdraw(s: State)
    requires Inv(s)
    ensures Inv(Withdraw(s)) && !Withdraw(s).mIsScheduled
  {
    hide Proper;
    if s.mIsScheduled {
      ProperStep(s.log, Withdrawn);
    }
  }

  lemma KeepTake(s: State, now: int)
    requires Inv(s) && InRange(s, Take(now))
    ensures Inv(Next(s, Take(now)))
  {
    hide Proper, Signed32, Wrap32;
    if s.place.OnTimers? {
      SignedDifferenceExact(s.place.due, now);
    }
  }

  lemma KeepCallback(s: State)
    requires Inv(s)
    ensures Inv(CalledBack(s))
  {
    hide Proper;
    if s.mIsScheduled && s.place == Unlisted {
      ProperStep(s.log, if s.hasAppFn then Captured(s.clock) else Withdrawn);
    }
  }

  lemma StepKeepsInv(s: State, step: Step)
    requires Inv(s) && InRange(s, step)
    ensures Inv(Next(s, step))
  {
    hide Proper, InRange;
    match step {
      case DoReschedule(_, _) => KeepSchedule(s, step);
      case ForceReschedule(_, _) => KeepSchedule(s, step);
      case Disable => KeepWithdraw(s);
      case Cancel => KeepWithdraw(s);
      case Take(now) => KeepTake(s, now);
      case Callback => KeepCallback(s);
      case _ =>
    }
  }

  // ---------------------------------------------------------------- whole runs

  ghost predicate Reaches(s: State, steps: seq<Step>, r: State)
    decreases |steps|
  {
    if steps == [] then r == s
    else InRange(s, steps[0]) && Reaches(Next(s, steps[0]), steps[1..], r)
  }

  /**
   In every interleaving: not scheduled means unlisted, scheduled means listed or in the worker's
   batch, disabled means not scheduled, and the log is in order.
   */
  lemma {:induction false} RunKeepsInv(s: State, steps: seq<Step>, r: State)
    requires Inv(s) && Reaches(s, steps, r)
    ensures Inv(r)
    decreases |steps|
  {
    hide Next, InRange, Proper;
    if steps != [] {
      StepKeepsInv(s, steps[0]);
      RunKeepsInv(Next(s, steps[0]), steps[1..], r);
    }
  }

  function Count(log: seq<Event>, p: Event -> bool): nat {
    if log == [] then 0 else Count(log[..|log| - 1], p) + if p(log[|log| - 1]) then 1 else 0
  }

  function Requests(log: seq<Event>): nat { Count(log, (e: Event) => e.Scheduled?) }

  function Captures(log: seq<Event>): nat { Count(log, (e: Event) => e.Captured?) }

  function Withdrawals(log: seq<Event>): nat { Count(log, (e: Event) => e.Withdrawn?) }

  /** Every request is captured once, withdrawn once or still open. */
  lemma {:induction false} RequestsBalance(log: seq<Event>)
    requires Proper(log)
    ensures Requests(log) == Captures(log) + Withdrawals(log) + if Open(log).Some? then 1 else 0
  {
    if log != [] {
      RequestsBalance(log[..|log| - 1]);
    }
  }

  lemma {:induction false} CapturedOncePerRequest(s0: State, steps: seq<Step>, s: State)
    requires Initial(s0) && Reaches(s0, steps, s)
    ensures Requests(s.log) == Captures(s.log) + Withdrawals(s.log) + if s.mIsScheduled then 1 else 0
  {
    RunKeepsInv(s0, steps, s);
    RequestsBalance(s.log);
  }

  /** A step that schedules a task that is not scheduled. */
  predicate StartsRequest(s: State, step: Step) {
    s.mIsEnabled && !s.mIsScheduled && (step.DoReschedule? || step.ForceReschedule?)
  }

  ghost predicate NeverScheduled(s: State, steps: seq<Step>)
    decreases |steps|
  {
    steps != [] ==> !StartsRequest(s, steps[0]) && NeverScheduled(Next(s, steps[0]), steps[1..])
  }

  /** After a cancel or a disable no callback captures anything until the task is scheduled again. */
  lemma {:induction false} NothingAfterWithdrawal(s: State, steps: seq<Step>, r: State)
    requires Inv(s) && Reaches(s, steps, r) && !s.mIsScheduled && NeverScheduled(s, steps)
    ensures r.log == s.log && !r.mIsScheduled
    decreases |steps|
  {
    if steps != [] {
      StepKeepsInv(s, steps[0]);
      assert Next(s, steps[0]).log == s.log && !Next(s, steps[0]).mIsScheduled;
      NothingAfterWithdrawal(Next(s, steps[0]), steps[1..], r);
    }
  }

  lemma WithdrawalIsFinal(s: State, stop: Step, steps: seq<Step>, r: State)
    requires Inv(s) && (stop == Cancel || stop == Disable)
    requires Reaches(Next(s, stop), steps, r) && NeverScheduled(Next(s, stop), steps)
    ensures Captures(r.log) == Captures(s.log) && !r.mIsScheduled
  {
    StepKeepsInv(s, stop);
    NothingAfterWithdrawal(Next(s, stop), steps, r);
    if s.mIsScheduled {
      assert (s.log + [Withdrawn])[..|s.log|] == s.log;
    }
  }

  // ---------------------------------------------------------------- a scheduled task gets its call

  function AfterCallback(s: State): State {
    if s.inBatch then CalledBack(s) else s
  }

  /**
   Left to the worker, a scheduled task is called: by the element in the batch, or else by the one
   that the next poll takes once the task is due. It is called once and never before its time.
   */
  lemma ScheduledGetsCalled(s: State, wait: nat, now: int)
    requires Inv(s) && s.mIsScheduled && s.hasAppFn
    ensures s.place == Unlisted ==>
              s.inBatch && CalledBack(s).log == s.log + [Captured(s.clock)] && s.mNextExec <= s.clock
    ensures Next(AfterCallback(s), Tick(wait)) == AfterCallback(s).(clock := s.clock + wait)
    ensures var q := Next(AfterCallback(s), Tick(wait));
            s.place != Unlisted && now <= q.clock && InRange(q, Take(now))
              && (s.place.OnTimers? ==> s.place.due <= now) ==>
              && q.log == s.log && CanTake(q, now)
              && CalledBack(Next(q, Take(now))).log == s.log + [Captured(q.clock)]
              && !CalledBack(Next(q, Take(now))).mIsScheduled
  {
    hide Proper, Signed32, Wrap32;
    if s.place.OnTimers? {
      SignedDifferenceExact(s.place.due, now);
    }
  }

  /** An unforced reschedule of a scheduled task keeps the earlier of the two times. */
  lemma KeepsEarlierTime(s: State, delay: uint32, lag: nat)
    requires Inv(s) && s.mIsEnabled && InRange(s, DoReschedule(delay, lag))
    ensures var r := DoRescheduled(s, delay, lag);
            r.mIsScheduled &&
            r.mNextExec == if s.mIsScheduled && s.mNextExec <= s.clock + delay then s.mNextExec else s.clock + delay
  {
    SignedDifferenceExact(s.clock + delay, s.mNextExec);
  }

  /** Where a task is listed that is scheduled with this delay. */
  predicate ListedFor(place: Place, delay: uint32, at: int) {
    if delay == 0 then place == OnOneShots else place.OnTimers? && place.due == at + delay
  }

  /** The task is scheduled for `delay` from `s` on, with one more event for that time. */
  predicate ScheduledAnew(s: State, r: State, delay: uint32, lag: nat) {
    && r.mIsEnabled && r.mIsScheduled && r.mNextExec == s.clock + delay && r.clock == s.clock + lag
    && ListedFor(r.place, delay, s.clock + lag)
    && r.hasAppFn == s.hasAppFn && r.inBatch == s.inBatch
    && |r.log| == |s.log| + 1 && r.log[..|s.log|] == s.log && Open(r.log) == Some(s.clock + delay)
  }

  /** A forced reschedule schedules an enabled task for the new time, whatever it was scheduled for before. */
  lemma ForceSchedulesAnew(s: State, delay: uint32, lag: nat)
    requires Inv(s)
    ensures var r := Next(s, ForceReschedule(delay, lag));
            && (s.mIsEnabled ==> ScheduledAnew(s, r, delay, lag))
            && (s.mIsEnabled ==> r.log[|s.log|] == if s.mIsScheduled then Moved(s.clock + delay, true)
                                                    else Scheduled(s.clock + delay))
            && (!s.mIsEnabled ==> r == s)
  {
  }

  /** An unforced one does so iff the task is not scheduled yet or only for later; otherwise it leaves all as it is. */
  lemma SchedulesAnewIffEarlier(s: State, delay: uint32, lag: nat)
    requires Inv(s) && InRange(s, DoReschedule(delay, lag))
    ensures var r := Next(s, DoReschedule(delay, lag));
            var anew := s.mIsEnabled && (!s.mIsScheduled || s.clock + delay < s.mNextExec);
            && (anew ==> ScheduledAnew(s, r, delay, lag))
            && (anew ==> r.log[|s.log|] == if s.mIsScheduled then Moved(s.clock + delay, false)
                                            else Scheduled(s.clock + delay))
            && (!anew ==> r == s.(clock := if s.mIsEnabled then s.clock + lag else s.clock))
  {
    hide Signed32, Wrap32;
    SignedDifferenceExact(s.clock + delay, s.mNextExec);
  }

  /** A cancel or a disable takes the task off its list and out of its request; the worker's element stays. */
  lemma StopsTheTask(s: State)
    requires Inv(s)
    ensures var c, d := Next(s, Cancel), Next(s, Disable);
            && c.place == Unlisted && !c.mIsScheduled && c.mIsEnabled == s.mIsEnabled && c.inBatch == s.inBatch
            && c.mNextExec == s.mNextExec && c.clock == s.clock && c.hasAppFn == s.hasAppFn
            && c.log == s.log + (if s.mIsScheduled then [Withdrawn] else [])
            && d == c.(mIsEnabled := false)
  {
  }

  /** The poll takes a task iff it is listed and due and the worker holds no element of it. */
  lemma TakenIffDue(s: State, now: int)
    requires Inv(s) && InRange(s, Take(now)) && now <= s.clock
    ensures var due := s.place == OnOneShots || (s.place.OnTimers? && s.place.due <= now);
            Next(s, Take(now)) == if due && !s.inBatch then s.(place := Unlisted, inBatch := true) else s
  {
    hide Signed32, Wrap32;
    if s.place.OnTimers? {
      SignedDifferenceExact(s.place.due, now);
    }
  }

  /** The callback ends the request and captures its function iff the task is scheduled and not listed again. */
  lemma CallbackIsExact(s: State)
    requires Inv(s) && s.inBatch
    ensures var r := Next(s, Callback);
            && (s.mIsScheduled && s.place == Unlisted ==>
                  r == s.(inBatch := false, mIsScheduled := false,
                          log := s.log + [if s.hasAppFn then Captured(s.clock) else Withdrawn]))
            && (!(s.mIsScheduled && s.place == Unlisted) ==> r == s.(inBatch := false))
  {
  }

  /** A task that was taken, withdrawn and scheduled again is left to its new listing by the old element. */
  lemma OldElementSkips(s: State, stop: Step, delay: uint32, lag: nat)
    requires Inv(s) && s.mIsEnabled && s.inBatch && (stop == Cancel || stop == Disable)
    ensures var r := Next(Next(Next(s, stop), Enable), DoReschedule(delay, lag));
            Inv(r) && r.place != Unlisted && CalledBack(r) == r.(inBatch := false) && Inv(CalledBack(r))
  {
    var a := Next(s, stop);
    StepKeepsInv(s, stop);
    StepKeepsInv(a, Enable);
    StepKeepsInv(Next(a, Enable), DoReschedule(delay, lag));
    StepKeepsInv(Next(Next(a, Enable), DoReschedule(delay, lag)), Callback);
  }

  // ---------------------------------------------------------------- the object

  /**
   The rescheduler as the code has it, on words. Each method is the body of one critical section;
   `ms` is what it reads off the clock. Ghost fields carry the times that the words stand for.
   */
  class TaskRescheduler {
    var mIsEnabled: bool
    var mIsScheduled: bool
    var mNextExec: uint32
    var listed: bool                         // the node's pNext is not null
    var nextExecutionTime: uint32
    const hasAppFn: bool
    ghost var nextExec: int
    ghost var place: Place
    ghost var inBatch: bool
    ghost var clock: int
    ghost var log: seq<Event>

    ghost predicate Valid()
      reads this
    {
      && mNextExec == Wrap32(nextExec) && listed == (place != Unlisted)
      && (place.OnTimers? ==> nextExecutionTime == Wrap32(place.due))
    }

    ghost function View(): State
      reads this
    {
      State(mIsEnabled, mIsScheduled, nextExec, hasAppFn, place, inBatch, clock, log)
    }

    constructor (hasAppFn: bool, clock: int)
      ensures Valid() && Initial(View()) && Inv(View())
    {
      mIsEnabled, mIsScheduled, mNextExec, listed, nextExecutionTime := true, false, 0, false, 0;
      this.hasAppFn, nextExec, place, inBatch, this.clock, log := hasAppFn, 0, Unlisted, false, clock, [];
    }

    method CancelScheduledTask() returns (r: bool)
      requires Valid()
      modifies `listed, `place
      ensures Valid() && place == Unlisted && r == old(listed)
    {
      r := listed;
      if listed {
        listed, place := false, Unlisted;
      }
    }

    /** The scheduler's own addition, which reads the clock again. */
    method AddTimerFn(delay: uint32, ms: uint32)
      requires Valid() && !listed && ms == Wrap32(clock)
      modifies `listed, `place, `nextExecutionTime
      ensures Valid() && View() == AddTimer(old(View()), delay)
    {
      if delay == 0 {
        listed, place := true, OnOneShots;
      } else {
        WrapAddsUp(clock, delay);
        nextExecutionTime := Wrap32(ms + delay);
        listed, place := true, OnTimers(clock + delay);
      }
    }

    /** Both functions end in this: the new time is noted and the task is added for it. */
    method Relist(delay: uint32, next: uint32, later: uint32, ghost lag: nat, ghost e: Event)
      requires Valid() && !listed && next == Wrap32(clock + delay) && later == Wrap32(clock + lag)
      modifies this
      ensures Valid() && View() == Reschedule(old(View()), delay, lag, e)
    {
      hide Proper, Wrap32, AddTimer;
      mNextExec, nextExec, mIsScheduled, log, clock := next, clock + delay, true, log + [e], clock + lag;
      AddTimerFn(delay, later);
    }

    method DoReschedule(delay: uint32, ms: uint32, later: uint32, ghost lag: nat)
      requires Valid() && (!mIsScheduled ==> !listed) && ms == Wrap32(clock) && later == Wrap32(clock + lag)
      modifies this
      ensures Valid() && View() == Next(old(View()), Step.DoReschedule(delay, lag))
    {
      hide Proper, Signed32, Wrap32, Reschedule, AddTimer;
      if mIsEnabled {
        var doSchedule := false;
        var next := Wrap32(ms + delay);
        ghost var due := clock + delay;
        ghost var event := Scheduled(due);
        WrapAddsUp(clock, delay);
        if !mIsScheduled {
          doSchedule := true;
        } else {
          var timeDiff := Signed32(next - mNextExec);
          doSchedule := timeDiff < 0;
          if doSchedule {
            var _ := CancelScheduledTask();
            event := Moved(due, false);
          }
        }
        if doSchedule {
          Relist(delay, next, later, lag, event);
        } else {
          clock := clock + lag;
        }
      }
    }

    method ForceReschedule(delay: uint32, ms: uint32, later: uint32, ghost lag: nat)
      requires Valid() && ms == Wrap32(clock) && later == Wrap32(clock + lag)
      modifies this
      ensures Valid() && View() == ForceRescheduled(old(View()), delay, lag)
    {
      hide Proper, Signed32, Wrap32, Reschedule, AddTimer;
      if mIsEnabled {
        var next := Wrap32(ms + delay);
        ghost var due := clock + delay;
        ghost var event := if mIsScheduled then Moved(due, true) else Scheduled(due);
        WrapAddsUp(clock, delay);
        if mIsScheduled {
          var _ := CancelScheduledTask();
        } else if listed {
          var _ := CancelScheduledTask();
        }
        Relist(delay, next, later, lag, event);
      }
    }

    method Disable()
      requires Valid()
      modifies this
      ensures Valid() && View() == Next(old(View()), Step.Disable)
    {
      mIsEnabled := false;
      if mIsScheduled {
        mIsScheduled, log := false, log + [Withdrawn];
        var _ := CancelScheduledTask();
      }
    }

    method Cancel()
      requires Valid()
      modifies this
      ensures Valid() && View() == Next(old(View()), Step.Cancel)
    {
      if mIsScheduled {
        mIsScheduled, log := false, log + [Withdrawn];
        var _ := CancelScheduledTask();
      }
    }

    method Enable()
      requires Valid()
      modifies this
      ensures Valid() && View() == Next(old(View()), Step.Enable)
    {
      mIsEnabled := true;
    }

    /** The callback's decision; the application function is called iff it is captured. */
    method OnSchedCallback() returns (captured: bool)
      requires Valid() && inBatch
      modifies this
      ensures Valid() && View() == Next(old(View()), Callback)
      ensures captured <==> log == old(log) + [Captured(clock)]
    {
      captured := false;
      inBatch := false;
      if mIsScheduled && !listed {
        mIsScheduled := false;
        captured := mIsEnabled && hasAppFn;
        log := log + [if captured then Captured(clock) else Withdrawn];
        assert log[|old(log)|] == if captured then Captured(clock) else Withdrawn;
      }
    }
  }
}
