/**
 A recursive mutex over a binary semaphore. The test whether the caller already owns it reads two
 shared variables without holding anything, so every single access is a step here, and any number of
 tasks take steps in any order.
 */
module RecMutex {
  import opened Common

  /** What a task does next. */
  datatype Pc =
    | Out                       // in no call
    | ReadOwned                 // lock: about to read mIsOwned
    | ReadOwner                 // lock: mIsOwned was true, about to read mCurrentOwner
    | Pend                      // lock: waiting for the semaphore
    | SetOwned | SetOwner       // lock: owning it, about to store
    | ReadCnt | StoreCnt(v: int)
    | TestOwner                 // unlock: about to read mCurrentOwner
    | ReadDec | StoreDec(v: int)
    | ClearOwned | ClearOwner | Post

  /** `depth` is the number of this task's successful locks that are not undone yet. */
  datatype Task = Task(pc: Pc, depth: nat)

  datatype State = State(
    mIsOwned: bool, mCurrentOwner: Option<nat>, mCnt: int, available: bool,
    holder: Option<nat>,        // ghost: who took the semaphore and has not given it back
    tasks: seq<Task>)

  datatype Step = Lock(i: nat) | Unlock(i: nat) | Go(i: nat) | TimeOut(i: nat)

  predicate Initial(s: State) {
    && !s.mIsOwned && s.mCurrentOwner == None && s.mCnt == 0 && s.available && s.holder == None
    && forall i | 0 <= i < |s.tasks| :: s.tasks[i] == Task(Out, 0)
  }

  function At(s: State, i: nat, pc: Pc): (r: State)
    requires i < |s.tasks|
    ensures |r.tasks| == |s.tasks|
  {
    s.(tasks := s.tasks[i := s.tasks[i].(pc := pc)])
  }

  /** One access of task `i`. */
  function Access(s: State, i: nat): (r: State)
    requires i < |s.tasks|
    ensures |r.tasks| == |s.tasks|
  {
    match s.tasks[i].pc
    case Out => s
    case ReadOwned => At(s, i, if s.mIsOwned then ReadOwner else Pend)
    case ReadOwner => At(s, i, if s.mCurrentOwner == Some(i) then SetOwned else Pend)
    case Pend => if s.available then At(s, i, SetOwned).(available := false, holder := Some(i)) else s
    case SetOwned => At(s, i, SetOwner).(mIsOwned := true)
    case SetOwner => At(s, i, ReadCnt).(mCurrentOwner := Some(i))
    case ReadCnt => At(s, i, StoreCnt(s.mCnt))
    case StoreCnt(v) => s.(mCnt := v + 1, tasks := s.tasks[i := Task(Out, s.tasks[i].depth + 1)])
    case TestOwner => At(s, i, if s.mCurrentOwner == Some(i) then ReadDec else Out)
    case ReadDec => At(s, i, StoreDec(s.mCnt))
    case StoreDec(v) =>
      var depth := s.tasks[i].depth;
      s.(mCnt := v - 1,
         tasks := s.tasks[i := Task(if v - 1 == 0 then ClearOwned else Out, if depth > 0 then depth - 1 else 0)])
    case ClearOwned => At(s, i, ClearOwner).(mIsOwned := false)
    case ClearOwner => At(s, i, Post).(mCurrentOwner := None)
    case Post => At(s, i, Out).(available := true, holder := None)
  }

  function Next(s: State, step: Step): State
    requires step.i < |s.tasks|
  {
    var pc := s.tasks[step.i].pc;
    match step
    case Lock(i) => if pc == Out then At(s, i, ReadOwned) else s
    case Unlock(i) => if pc == Out then At(s, i, TestOwner) else s
    case Go(i) => Access(s, i)
    case TimeOut(i) => if pc == Pend && !s.available then At(s, i, Out) else s
  }

  // ---------------------------------------------------------------- the invariant

  /** The shared variables while their holder is between two calls, or has not stored anything yet. */
  predicate Settled(s: State, i: nat, depth: nat) {
    if depth > 0 then s.mIsOwned && s.mCurrentOwner == Some(i) && s.mCnt == depth
    else !s.mIsOwned && s.mCurrentOwner == None && s.mCnt == 0
  }

  predicate HolderOk(s: State, i: nat)
    requires i < |s.tasks|
  {
    var depth := s.tasks[i].depth;
    match s.tasks[i].pc
    case Out => depth > 0 && Settled(s, i, depth)
    case ReadOwned => depth > 0 && Settled(s, i, depth)
    case ReadOwner => depth > 0 && Settled(s, i, depth)
    case Pend => false
    case SetOwned => Settled(s, i, depth)
    case SetOwner => s.mIsOwned && s.mCnt == depth && s.mCurrentOwner == if depth > 0 then Some(i) else None
    case ReadCnt => s.mIsOwned && s.mCnt == depth && s.mCurrentOwner == Some(i)
    case StoreCnt(v) => s.mIsOwned && s.mCnt == depth && s.mCurrentOwner == Some(i) && v == depth
    case TestOwner => depth > 0 && Settled(s, i, depth)
    case ReadDec => depth > 0 && Settled(s, i, depth)
    case StoreDec(v) => depth > 0 && Settled(s, i, depth) && v == depth
    case ClearOwned => depth == 0 && s.mCnt == 0 && s.mIsOwned && s.mCurrentOwner == Some(i)
    case ClearOwner => depth == 0 && s.mCnt == 0 && !s.mIsOwned && s.mCurrentOwner == Some(i)
    case Post => Settled(s, i, depth) && depth == 0
  }

  /** A task that does not hold the semaphore is outside, testing or waiting. */
  predicate BystanderOk(t: Task) {
    t.depth == 0 && (t.pc.Out? || t.pc.ReadOwned? || t.pc.ReadOwner? || t.pc.Pend? || t.pc.TestOwner?)
  }

  ghost predicate Inv(s: State) {
    && s.available == (s.holder == None)
    && (s.holder == None ==> !s.mIsOwned && s.mCurrentOwner == None && s.mCnt == 0)
    && (s.holder.Some? ==> s.holder.value < |s.tasks| && HolderOk(s, s.holder.value))
    && (forall i | 0 <= i < |s.tasks| && s.holder != Some(i) :: BystanderOk(s.tasks[i]))
  }

  /** A step of the holder touches its own task only. */
  lemma HolderStep(s: State, i: nat)
    requires Inv(s) && i < |s.tasks| && s.holder == Some(i)
    ensures Inv(Access(s, i))
  {
    var r := Access(s, i);
    assert forall j | 0 <= j < |s.tasks| && j != i :: r.tasks[j] == s.tasks[j];
    hide At;
  }

  /** A bystander's step touches its own task only, until it gets the semaphore. */
  lemma BystanderStep(s: State, i: nat)
    requires Inv(s) && i < |s.tasks| && s.holder != Some(i)
    ensures Inv(Access(s, i))
  {
    var r := Access(s, i);
    assert BystanderOk(s.tasks[i]);
    assert forall j | 0 <= j < |s.tasks| && j != i :: r.tasks[j] == s.tasks[j];
    hide At;
  }

  lemma StepKeepsInv(s: State, step: Step)
    requires Inv(s) && step.i < |s.tasks|
    ensures Inv(Next(s, step)) && |Next(s, step).tasks| == |s.tasks|
  {
    if step.Go? {
      hide Access, Inv;
      if s.holder == Some(step.i) {
        HolderStep(s, step.i);
      } else {
        BystanderStep(s, step.i);
      }
    }
  }

  function Run(s: State, steps: seq<Step>): State
    requires forall step | step in steps :: step.i < |s.tasks|
    decreases |steps|
  {
    if steps == [] then s
    else
      assert steps[0] in steps;
      var r := Next(s, steps[0]);
      assert |r.tasks| == |s.tasks| && forall step | step in steps[1..] :: step in steps;
      Run(r, steps[1..])
  }

  lemma {:induction false} RunKeepsInv(s: State, steps: seq<Step>)
    requires Inv(s) && forall step | step in steps :: step.i < |s.tasks|
    ensures Inv(Run(s, steps)) && |Run(s, steps).tasks| == |s.tasks|
    decreases |steps|
  {
    if steps != [] {
      assert steps[0] in steps && forall step | step in steps[1..] :: step in steps;
      StepKeepsInv(s, steps[0]);
      hide Inv, Next;
      RunKeepsInv(Next(s, steps[0]), steps[1..]);
    }
  }

  /** Between the acquiring pend and the final post. */
  predicate Inside(t: Task) {
    t.depth > 0 || !(t.pc.Out? || t.pc.ReadOwned? || t.pc.ReadOwner? || t.pc.Pend? || t.pc.TestOwner?)
  }

  /**
   In every interleaving: at most one task is between acquire and final release, the semaphore is
   available exactly when none is, and mCnt is the holder's nesting depth whenever it is in no call.
   */
  lemma {:induction false} MutualExclusion(s0: State, steps: seq<Step>)
    requires Initial(s0) && forall step | step in steps :: step.i < |s0.tasks|
    ensures var s := Run(s0, steps);
            && |s.tasks| == |s0.tasks|
            && (forall i, j | 0 <= i < |s.tasks| && 0 <= j < |s.tasks| ::
                  Inside(s.tasks[i]) && Inside(s.tasks[j]) ==> i == j)
            && (s.available <==> forall i | 0 <= i < |s.tasks| :: !Inside(s.tasks[i]))
            && (forall i | 0 <= i < |s.tasks| && s.tasks[i].pc == Out && s.tasks[i].depth > 0 ::
                  s.mCnt == s.tasks[i].depth && s.mIsOwned && s.mCurrentOwner == Some(i))
  {
    RunKeepsInv(s0, steps);
    var s := Run(s0, steps);
    if s.holder.Some? {
      assert Inside(s.tasks[s.holder.value]);
    }
  }

  // ---------------------------------------------------------------- whole calls

  /** The unlock of a task that does not own the mutex changes nothing. */
  lemma ForeignUnlockChangesNothing(s: State, i: nat)
    requires Inv(s) && i < |s.tasks| && s.tasks[i] == Task(Out, 0)
    ensures Next(Next(s, Unlock(i)), Go(i)) == s
  {
    assert s.tasks[i := Task(TestOwner, 0)][i := Task(Out, 0)] == s.tasks;
  }

  /** Whatever others do in between, the test at the head of `lock` finds out who owns the mutex. */
  lemma OwnerTestIsRight(s: State, i: nat)
    requires Inv(s) && i < |s.tasks|
    ensures s.tasks[i].pc == ReadOwned ==> (s.holder == Some(i) ==> Access(s, i).tasks[i].pc == ReadOwner)
    ensures s.tasks[i].pc == ReadOwner ==> (Access(s, i).tasks[i].pc == SetOwned <==> s.holder == Some(i))
    ensures s.tasks[i].pc == TestOwner ==> (Access(s, i).tasks[i].pc == ReadDec <==> s.holder == Some(i))
  {
  }

  function AccessFor(s: State, i: nat, n: nat): (r: State)
    requires i < |s.tasks|
    ensures |r.tasks| == |s.tasks|
    decreases n
  {
    if n == 0 then s else AccessFor(Access(s, i), i, n - 1)
  }

  function WithTask(s: State, i: nat, t: Task): State
    requires i < |s.tasks|
  {
    s.(tasks := s.tasks[i := t])
  }

  /** A holder locks again without waiting. */
  lemma HolderLocks(s: State, i: nat)
    requires Inv(s) && i < |s.tasks| && s.tasks[i].pc == Out && s.tasks[i].depth > 0
    ensures AccessFor(Next(s, Lock(i)), i, 6) == WithTask(s, i, Task(Out, s.tasks[i].depth + 1)).(mCnt := s.mCnt + 1)
  {
    var depth := s.tasks[i].depth;
    assert s.holder == Some(i);
    var a := WithTask(s, i, Task(ReadOwned, depth));
    var b := WithTask(s, i, Task(SetOwned, depth));
    var c := WithTask(s, i, Task(ReadCnt, depth));
    hide Inv;
    assert Next(s, Lock(i)) == a && Access(Access(a, i), i) == b;
    assert Access(Access(b, i), i) == c;
    assert AccessFor(a, i, 6) == AccessFor(Access(Access(a, i), i), i, 4);
    assert AccessFor(b, i, 4) == AccessFor(Access(Access(b, i), i), i, 2);
    assert AccessFor(c, i, 2) == Access(Access(c, i), i);
  }

  /** The first three accesses of a holder's unlock. */
  lemma HolderDecrements(s: State, i: nat)
    requires Inv(s) && i < |s.tasks| && s.tasks[i].pc == Out && s.tasks[i].depth > 0
    ensures var depth := s.tasks[i].depth;
            var c := WithTask(s, i, Task(if depth == 1 then ClearOwned else Out, depth - 1)).(mCnt := s.mCnt - 1);
            && AccessFor(Next(s, Unlock(i)), i, 3) == c
            && AccessFor(Next(s, Unlock(i)), i, 6) == AccessFor(c, i, 3)
  {
    var depth := s.tasks[i].depth;
    assert s.holder == Some(i) && s.mCnt == depth && s.mCurrentOwner == Some(i);
    var a := WithTask(s, i, Task(TestOwner, depth));
    var b := WithTask(s, i, Task(StoreDec(depth), depth));
    hide Inv;
    assert Next(s, Unlock(i)) == a && Access(Access(a, i), i) == b;
    assert AccessFor(a, i, 3) == AccessFor(Access(Access(a, i), i), i, 1);
    assert AccessFor(a, i, 6) == AccessFor(Access(Access(a, i), i), i, 4);
  }

  /** An inner unlock undoes a lock; the outermost one releases the mutex. */
  lemma HolderUnlocks(s: State, i: nat)
    requires Inv(s) && i < |s.tasks| && s.tasks[i].pc == Out && s.tasks[i].depth > 0
    ensures s.tasks[i].depth > 1 ==>
              AccessFor(Next(s, Unlock(i)), i, 3) ==
              WithTask(s, i, Task(Out, s.tasks[i].depth - 1)).(mCnt := s.mCnt - 1)
    ensures s.tasks[i].depth == 1 ==>
              AccessFor(Next(s, Unlock(i)), i, 6) ==
              WithTask(s, i, Task(Out, 0)).(mCnt := 0, mIsOwned := false, mCurrentOwner := None, available := true,
                                           holder := None)
  {
    assert s.holder == Some(i) && s.mCnt == s.tasks[i].depth;
    HolderDecrements(s, i);
    hide Inv, Next;
    if s.tasks[i].depth == 1 {
      var c := WithTask(s, i, Task(ClearOwned, 0)).(mCnt := 0);
      var d := Access(Access(c, i), i);
      assert d == WithTask(s, i, Task(Post, 0)).(mCnt := 0, mIsOwned := false, mCurrentOwner := None);
      assert AccessFor(c, i, 3) == AccessFor(d, i, 1) == Access(d, i);
    }
  }

  /** A task that locks a free mutex gets it, and holds it once. */
  lemma FreeMutexIsTaken(s: State, i: nat)
    requires Inv(s) && i < |s.tasks| && s.tasks[i] == Task(Out, 0) && s.available
    ensures AccessFor(Next(s, Lock(i)), i, 6) ==
            WithTask(s, i, Task(Out, 1)).(mIsOwned := true, mCurrentOwner := Some(i), mCnt := 1, available := false,
                                          holder := Some(i))
  {
    assert s.holder == None && !s.mIsOwned && s.mCnt == 0;
    var a := WithTask(s, i, Task(ReadOwned, 0));
    var b := WithTask(s, i, Task(SetOwned, 0)).(available := false, holder := Some(i));
    var c := WithTask(b, i, Task(ReadCnt, 0)).(mIsOwned := true, mCurrentOwner := Some(i));
    hide Inv;
    assert Next(s, Lock(i)) == a && Access(Access(a, i), i) == b;
    assert Access(Access(b, i), i) == c;
    assert AccessFor(a, i, 6) == AccessFor(Access(Access(a, i), i), i, 4);
    assert AccessFor(b, i, 4) == AccessFor(Access(Access(b, i), i), i, 2);
    assert AccessFor(c, i, 2) == Access(Access(c, i), i);
  }

  /** A lock that times out leaves the task outside and everything else as it is; it can only while another holds. */
  lemma TimedOutLockChangesNothing(s: State, i: nat)
    requires Inv(s) && i < |s.tasks| && s.tasks[i].pc == Pend
    ensures s.holder.Some? ==> s.holder != Some(i) && Next(s, TimeOut(i)) == WithTask(s, i, Task(Out, 0))
    ensures s.holder.None? ==> Next(s, TimeOut(i)) == s
  {
  }

  /** A task waiting for a mutex that has become free has it after one access, and after four more holds it once. */
  lemma WaiterGetsFreeMutex(s: State, i: nat)
    requires Inv(s) && i < |s.tasks| && s.tasks[i].pc == Pend && s.available
    ensures Access(s, i).holder == Some(i) && !Access(s, i).available
    ensures AccessFor(s, i, 5) ==
            WithTask(s, i, Task(Out, 1)).(mIsOwned := true, mCurrentOwner := Some(i), mCnt := 1, available := false,
                                          holder := Some(i))
  {
    assert s.holder == None && !s.mIsOwned && s.mCnt == 0 && s.tasks[i] == Task(Pend, 0);
    var b := WithTask(s, i, Task(SetOwned, 0)).(available := false, holder := Some(i));
    var c := WithTask(b, i, Task(ReadCnt, 0)).(mIsOwned := true, mCurrentOwner := Some(i));
    hide Inv;
    assert Access(s, i) == b && Access(Access(b, i), i) == c;
    assert AccessFor(s, i, 5) == AccessFor(b, i, 4) == AccessFor(Access(Access(b, i), i), i, 2);
    assert AccessFor(c, i, 2) == Access(Access(c, i), i);
  }
}
