/**
 A counting semaphore with a maximum, kept by a shadow count beside an OS semaphore that has none.
 Waiters take OS tokens outside the critical section in which the shadow count is updated, so they
 interleave with the post loop of a signal. Any number of tasks take steps in any order, and posts
 may fail.
 */
module CntSem {
  import opened Common

  datatype Pc =
    | Idle
    | Trying                    // in sem_wait or between two sem_trywait calls
    | Took                      // has an OS token, still to decrement the count
    | Posting(inc: nat, finalCnt: int, endCnt: int, startCnt: int, posted: nat, ok: bool, counting: bool)
                                // in the post loop; `counting` between a post and its mCnt++
    | Signalled(inc: nat, posted: nat, result: bool)

  datatype State = State(
    mCnt: int, mMaxCnt: int, tokens: int,
    signaller: int,             // the task inside the critical section of a signal, or -1
    failed: nat,                // ghost: failed posts that were counted
    tasks: seq<Pc>)

  datatype Step =
    | StartWait(i: nat) | Acquire(i: nat) | GiveUp(i: nat) | Decrement(i: nat)
    | StartSignal(i: nat, inc: nat) | Post(i: nat, ok: bool) | CountPost(i: nat) | EndSignal(i: nat) | Return(i: nat)

  predicate Initial(s: State) {
    && 0 <= s.mCnt <= s.mMaxCnt && s.tokens == s.mCnt && s.failed == 0 && s.signaller == -1
    && forall i | 0 <= i < |s.tasks| :: s.tasks[i] == Idle
  }

  function At(s: State, i: nat, pc: Pc): State
    requires i < |s.tasks|
  {
    s.(tasks := s.tasks[i := pc])
  }

  /** What a step needs; a step that is not possible changes nothing. */
  predicate Possible(s: State, step: Step)
    requires step.i < |s.tasks|
  {
    var pc := s.tasks[step.i];
    match step
    case StartWait(_) => pc == Idle
    case Acquire(_) => pc == Trying && s.tokens > 0
    case GiveUp(_) => pc == Trying
    case Decrement(_) => pc == Took && s.signaller == -1
    case StartSignal(_, inc) => pc == Idle && s.signaller == -1
    case Post(_, _) => pc.Posting? && !pc.counting && pc.ok && s.mCnt < pc.endCnt
    case CountPost(_) => pc.Posting? && pc.counting
    case EndSignal(_) => pc.Posting? && !pc.counting && !(pc.ok && s.mCnt < pc.endCnt)
    case Return(_) => pc.Signalled?
  }

  function Next(s: State, step: Step): State
    requires step.i < |s.tasks|
  {
    if !Possible(s, step) then s
    else
      var pc := s.tasks[step.i];
      match step
      case StartWait(i) => At(s, i, Trying)
      case Acquire(i) => At(s, i, Took).(tokens := s.tokens - 1)
      case GiveUp(i) => At(s, i, Idle)
      case Decrement(i) => At(s, i, Idle).(mCnt := s.mCnt - 1)
      case StartSignal(i, inc) =>
        At(s, i, Posting(inc, s.mCnt + inc, Min(s.mCnt + inc, s.mMaxCnt), s.mCnt, 0, true, false)).(signaller := i)
      case Post(i, ok) =>
        At(s, i, pc.(ok := ok, counting := true, posted := pc.posted + if ok then 1 else 0))
        .(tokens := s.tokens + if ok then 1 else 0)
      case CountPost(i) =>
        At(s, i, pc.(counting := false)).(mCnt := s.mCnt + 1, failed := s.failed + if pc.ok then 0 else 1)
      case EndSignal(i) =>
        At(s, i, Signalled(pc.inc, pc.posted, pc.endCnt == pc.finalCnt && pc.ok)).(signaller := -1)
      case Return(i) => At(s, i, Idle)
  }

  // ---------------------------------------------------------------- the invariant

  /** Waiters that have taken a token and not yet decremented the count. */
  function TookCount(tasks: seq<Pc>): nat {
    if tasks == [] then 0 else (if tasks[0] == Took then 1 else 0) + TookCount(tasks[1..])
  }

  lemma {:induction false} TookCountUpdate(tasks: seq<Pc>, i: nat, pc: Pc)
    requires i < |tasks|
    ensures TookCount(tasks[i := pc]) ==
            TookCount(tasks) - (if tasks[i] == Took then 1 else 0) + (if pc == Took then 1 else 0)
    ensures tasks[i] == Took ==> TookCount(tasks) > 0
  {
    if i == 0 {
      assert tasks[i := pc][1..] == tasks[1..];
    } else {
      assert tasks[i := pc][1..] == tasks[1..][i - 1 := pc];
      TookCountUpdate(tasks[1..], i - 1, pc);
    }
  }

  /** One inside the loop between a successful post and its mCnt++, else zero. */
  function Ahead(s: State): int {
    if 0 <= s.signaller < |s.tasks| && s.tasks[s.signaller].Posting? && s.tasks[s.signaller].counting
      && s.tasks[s.signaller].ok
    then 1 else 0
  }

  predicate PostingOk(s: State, pc: Pc) {
    pc.Posting? ==>
      && pc.finalCnt == pc.startCnt + pc.inc && pc.endCnt == Min(pc.finalCnt, s.mMaxCnt)
      && s.mCnt <= pc.endCnt && (pc.counting ==> s.mCnt < pc.endCnt)
      && (if pc.ok then s.mCnt + (if pc.counting then 1 else 0) == pc.startCnt + pc.posted
          else s.mCnt == pc.startCnt + pc.posted + (if pc.counting then 0 else 1))
  }

  predicate SignalledOk(pc: Pc) {
    pc.Signalled? ==> pc.posted <= pc.inc && (pc.result <==> pc.posted == pc.inc)
  }

  ghost predicate Inv(s: State) {
    && s.tokens + TookCount(s.tasks) + s.failed == s.mCnt + Ahead(s)
    && 0 <= s.tokens && s.mCnt <= s.mMaxCnt
    && -1 <= s.signaller < |s.tasks|
    && (forall i | 0 <= i < |s.tasks| :: s.tasks[i].Posting? <==> i == s.signaller)
    && (0 <= s.signaller ==> PostingOk(s, s.tasks[s.signaller]))
    && (forall i | 0 <= i < |s.tasks| :: SignalledOk(s.tasks[i]))
  }

  lemma StepKeepsInv(s: State, step: Step)
    requires Inv(s) && step.i < |s.tasks|
    ensures Inv(Next(s, step)) && |Next(s, step).tasks| == |s.tasks| && Next(s, step).mMaxCnt == s.mMaxCnt
  {
    hide TookCount;
    var r := Next(s, step);
    if Possible(s, step) {
      assert r.tasks == s.tasks[step.i := r.tasks[step.i]];
      TookCountUpdate(s.tasks, step.i, r.tasks[step.i]);
    }
  }

  ghost predicate Reaches(s: State, steps: seq<Step>, r: State)
    decreases |steps|
  {
    if steps == [] then r == s
    else steps[0].i < |s.tasks| && Reaches(Next(s, steps[0]), steps[1..], r)
  }

  lemma {:induction false} RunKeepsInv(s: State, steps: seq<Step>, r: State)
    requires Inv(s) && Reaches(s, steps, r)
    ensures Inv(r) && r.mMaxCnt == s.mMaxCnt
    decreases |steps|
  {
    if steps != [] {
      StepKeepsInv(s, steps[0]);
      hide Inv, Next;
      RunKeepsInv(Next(s, steps[0]), steps[1..], r);
    }
  }

  lemma {:induction false} NoneTook(tasks: seq<Pc>)
    requires forall i | 0 <= i < |tasks| :: tasks[i] == Idle
    ensures TookCount(tasks) == 0
  {
    if tasks != [] {
      NoneTook(tasks[1..]);
    }
  }

  /**
   In every interleaving, outside a post loop: tokens, takers that have not decremented yet and
   counted failures add up to the shadow count; tokens never exceed the maximum; the decrement never
   makes the count negative; and a signal returns true exactly when all its increments were posted.
   */
  lemma {:induction false} TokensAreCounted(s0: State, steps: seq<Step>, s: State)
    requires Initial(s0) && Reaches(s0, steps, s)
    ensures s.signaller == -1 ==> s.tokens + TookCount(s.tasks) + s.failed == s.mCnt
    ensures 0 <= s.tokens <= s0.mMaxCnt && s.tokens + TookCount(s.tasks) + s.failed <= s0.mMaxCnt
    ensures forall i | 0 <= i < |s.tasks| :: Possible(s, Decrement(i)) ==> s.mCnt - 1 >= 0
    ensures forall i | 0 <= i < |s.tasks| && s.tasks[i].Signalled? ::
              s.tasks[i].result <==> s.tasks[i].posted == s.tasks[i].inc
  {
    NoneTook(s0.tasks);
    RunKeepsInv(s0, steps, s);
    hide TookCount;
    forall i | 0 <= i < |s.tasks| && Possible(s, Decrement(i))
      ensures s.mCnt - 1 >= 0
    {
      TookCountUpdate(s.tasks, i, Idle);
    }
  }

  /**
   A failed post is counted as if it had been made, and nothing takes it back: once failures fill the
   maximum, no token ever appears again.
   */
  lemma {:induction false} CountedFailuresAreLost(s: State, steps: seq<Step>, r: State)
    requires Inv(s) && s.failed >= s.mMaxCnt && Reaches(s, steps, r)
    ensures r.tokens == 0 && TookCount(r.tasks) == 0 && r.failed == s.failed == s.mMaxCnt
    decreases |steps|
  {
    hide TookCount;
    if steps != [] {
      StepKeepsInv(s, steps[0]);
      assert Next(s, steps[0]).failed >= s.failed;
      CountedFailuresAreLost(Next(s, steps[0]), steps[1..], r);
    }
  }

  /** A post has failed and is still to be counted. */
  function Pending(s: State): nat {
    if 0 <= s.signaller < |s.tasks| && s.tasks[s.signaller].Posting? && s.tasks[s.signaller].counting
      && !s.tasks[s.signaller].ok
    then 1 else 0
  }

  function Fails(s: State, step: Step): nat
    requires step.i < |s.tasks|
  {
    if Possible(s, step) && step.Post? && !step.ok then 1 else 0
  }

  /** How many posts of the run fail. */
  function FailedPosts(s: State, steps: seq<Step>): nat
    decreases |steps|
  {
    if steps == [] || steps[0].i >= |s.tasks| then 0
    else Fails(s, steps[0]) + FailedPosts(Next(s, steps[0]), steps[1..])
  }

  lemma StepCountsFailures(s: State, step: Step)
    requires Inv(s) && step.i < |s.tasks|
    ensures Next(s, step).failed + Pending(Next(s, step)) == s.failed + Pending(s) + Fails(s, step)
  {
    hide TookCount, SignalledOk;
  }

  lemma {:induction false} RunCountsFailures(s: State, steps: seq<Step>, r: State)
    requires Inv(s) && Reaches(s, steps, r)
    ensures r.failed + Pending(r) == s.failed + Pending(s) + FailedPosts(s, steps)
    decreases |steps|
  {
    if steps != [] {
      StepKeepsInv(s, steps[0]);
      StepCountsFailures(s, steps[0]);
      hide Inv, Next, Pending, Fails;
      RunCountsFailures(Next(s, steps[0]), steps[1..], r);
    }
  }

  /** Outside a post loop tokens and takers add up to the shadow count iff no post of the run has failed. */
  lemma {:induction false} CountIsRightIffPostsSucceed(s0: State, steps: seq<Step>, s: State)
    requires Initial(s0) && Reaches(s0, steps, s) && s.signaller == -1
    ensures s.tokens + TookCount(s.tasks) == s.mCnt <==> FailedPosts(s0, steps) == 0
  {
    TokensAreCounted(s0, steps, s);
    NoneTook(s0.tasks);
    RunCountsFailures(s0, steps, s);
  }

  lemma {:induction false} ReachesOn(s: State, steps: seq<Step>, q: State, more: seq<Step>, r: State)
    requires Reaches(s, steps, q) && Reaches(q, more, r)
    ensures Reaches(s, steps + more, r)
    decreases |steps|
  {
    if steps == [] {
      assert steps + more == more;
    } else {
      hide Next;
      ReachesOn(Next(s, steps[0]), steps[1..], q, more, r);
      assert (steps + more)[0] == steps[0] && (steps + more)[1..] == steps[1..] + more;
    }
  }

  /** A semaphore with one task, after `k` signals whose posts have failed. */
  function Spent(max: nat, k: nat): State {
    State(k, max, 0, -1, k, [Idle])
  }

  lemma OneStep(s: State, step: Step, r: State)
    requires step.i < |s.tasks| && r == Next(s, step)
    ensures Reaches(s, [step], r)
  {
    assert Reaches(r, [step][1..], r);
  }

  lemma Prepend(s: State, step: Step, q: State, steps: seq<Step>, r: State)
    requires step.i < |s.tasks| && q == Next(s, step) && Reaches(q, steps, r)
    ensures Reaches(s, [step] + steps, r)
  {
    assert ([step] + steps)[1..] == steps;
  }

  /** A signal whose only post fails. */
  lemma {:induction false} FailOnce(max: nat, k: nat)
    requires k < max
    ensures Reaches(Spent(max, k), [StartSignal(0, 1), Post(0, false), CountPost(0), EndSignal(0), Return(0)],
                    Spent(max, k + 1))
  {
    var s := Spent(max, k);
    var a := Next(s, StartSignal(0, 1));
    var b := Next(a, Post(0, false));
    var c := Next(b, CountPost(0));
    var d := Next(c, EndSignal(0));
    assert a.tasks == [Posting(1, k + 1, k + 1, k, 0, true, false)];
    assert b.tasks == [Posting(1, k + 1, k + 1, k, 0, false, true)];
    assert c.tasks == [Posting(1, k + 1, k + 1, k, 0, false, false)];
    assert d.tasks == [Signalled(1, 0, false)];
    assert Next(d, Return(0)) == Spent(max, k + 1);
    hide Next, Possible;
    OneStep(d, Return(0), Spent(max, k + 1));
    Prepend(c, EndSignal(0), d, [Return(0)], Spent(max, k + 1));
    Prepend(b, CountPost(0), c, [EndSignal(0), Return(0)], Spent(max, k + 1));
    Prepend(a, Post(0, false), b, [CountPost(0), EndSignal(0), Return(0)], Spent(max, k + 1));
    Prepend(s, StartSignal(0, 1), a, [Post(0, false), CountPost(0), EndSignal(0), Return(0)], Spent(max, k + 1));
  }

  /** A run that a semaphore of any maximum does not recover from. */
  lemma {:induction false} FailuresFill(max: nat, k: nat) returns (steps: seq<Step>)
    requires k <= max
    ensures Reaches(Spent(max, k), steps, Spent(max, max))
    decreases max - k
  {
    if k == max {
      steps := [];
    } else {
      FailOnce(max, k);
      var more := FailuresFill(max, k + 1);
      var once := [StartSignal(0, 1), Post(0, false), CountPost(0), EndSignal(0), Return(0)];
      ReachesOn(Spent(max, k), once, Spent(max, k + 1), more, Spent(max, max));
      steps := once + more;
    }
  }

  /** From its start a semaphore can come to count its maximum and never give out a token again. */
  lemma {:induction false} SemaphoreCanDie(max: nat) returns (s0: State, steps: seq<Step>, s: State)
    ensures Initial(s0) && s0.mMaxCnt == max && Reaches(s0, steps, s) && s.signaller == -1 && s.mCnt == max
    ensures forall more, r | Reaches(s, more, r) :: r.tokens == 0
  {
    hide *;
    s0, s := Spent(max, 0), Spent(max, max);
    SpentIs(max, 0);
    SpentIs(max, max);
    steps := FailuresFill(max, 0);
    RunKeepsInv(s0, steps, s);
    forall more, r | Reaches(s, more, r)
      ensures r.tokens == 0
    {
      CountedFailuresAreLost(s, more, r);
    }
  }

  lemma SpentIs(max: nat, k: nat)
    requires k <= max
    ensures var s := Spent(max, k);
            s.mMaxCnt == max && s.signaller == -1 && s.mCnt == k && s.failed == k && Inv(s) && (k == 0 ==> Initial(s))
  {
    NoneTook([Idle]);
  }

  /** How much a signal whose posts all succeed adds: as much as fits below the maximum. */
  lemma SignalPostsWhatFits(s: State, i: nat)
    requires Inv(s) && i < |s.tasks| && Possible(s, EndSignal(i)) && s.tasks[i].ok
    ensures var pc := s.tasks[i];
            pc.posted == Min(pc.inc, s.mMaxCnt - pc.startCnt) && s.mCnt == pc.startCnt + pc.posted
  {
  }

  /** A wait that finds a token, outside a post loop, gets it: token and count go down by one. */
  lemma WaiterGetsToken(s: State, i: nat)
    requires Inv(s) && i < |s.tasks| && s.tasks[i] == Idle && s.tokens > 0 && s.signaller == -1
    ensures var w := Next(s, StartWait(i));
            && w == At(s, i, Trying)
            && Next(Next(w, Acquire(i)), Decrement(i)) == s.(tokens := s.tokens - 1, mCnt := s.mCnt - 1)
  {
    hide Inv;
    assert s.tasks[i := Trying][i := Took][i := Idle] == s.tasks;
  }

  /** A wait that gives up has changed nothing, and without a token it can do nothing else. */
  lemma WaiterGivesUp(s: State, i: nat)
    requires i < |s.tasks| && s.tasks[i] == Idle
    ensures var w := Next(s, StartWait(i));
            && Next(w, GiveUp(i)) == s && (s.tokens == 0 ==> Next(w, Acquire(i)) == w)
  {
    assert s.tasks[i := Trying][i := Idle] == s.tasks;
  }

  /** `n` turns of the post loop of a signal that is left alone and whose posts succeed. */
  function Posted(s: State, i: nat, n: nat): (r: State)
    requires i < |s.tasks|
    ensures |r.tasks| == |s.tasks|
    decreases n
  {
    if n == 0 then s
    else
      var a := Next(s, Post(i, true));
      assert |a.tasks| == |s.tasks| && |Next(a, CountPost(i)).tasks| == |s.tasks|;
      Posted(Next(a, CountPost(i)), i, n - 1)
  }

  lemma {:induction false} PostsCount(s: State, i: nat, inc: nat, endCnt: int, startCnt: int, posted: nat, n: nat)
    requires i < |s.tasks| && s.tasks[i] == Posting(inc, startCnt + inc, endCnt, startCnt, posted, true, false)
    requires s.mCnt + n <= endCnt
    ensures Posted(s, i, n) ==
            s.(mCnt := s.mCnt + n, tokens := s.tokens + n,
               tasks := s.tasks[i := Posting(inc, startCnt + inc, endCnt, startCnt, posted + n, true, false)])
    decreases n
  {
    if n > 0 {
      var b := Next(Next(s, Post(i, true)), CountPost(i));
      assert b.tasks == s.tasks[i := Posting(inc, startCnt + inc, endCnt, startCnt, posted + 1, true, false)];
      hide Next;
      PostsCount(b, i, inc, endCnt, startCnt, posted + 1, n - 1);
    } else {
      assert s.tasks[i := s.tasks[i]] == s.tasks;
    }
  }

  /**
   A signal that is left alone and whose posts succeed adds what fits below the maximum, as tokens and
   to the count.
   */
  lemma {:induction false} SignalAdds(s: State, i: nat, inc: nat)
    requires i < |s.tasks| && s.tasks[i] == Idle && s.signaller == -1 && s.mCnt <= s.mMaxCnt
    ensures var n := Min(inc, s.mMaxCnt - s.mCnt);
            var q := Next(s, StartSignal(i, inc));
            && i < |q.tasks| && n >= 0
            && Next(Posted(q, i, n), EndSignal(i)) ==
               s.(mCnt := s.mCnt + n, tokens := s.tokens + n, tasks := s.tasks[i := Signalled(inc, n, n == inc)])
  {
    var n := Min(inc, s.mMaxCnt - s.mCnt);
    PostsCount(Next(s, StartSignal(i, inc)), i, inc, s.mCnt + n, s.mCnt, 0, n);
    hide Posted;
  }
}
