/**
 One priority of the task scheduler over real lists. Time stamps read from the clock are
 parameters; running a callback is recorded by appending its element to `executed`.
 */
module TaskSched {
  import opened Words
  import opened Ordering
  import opened Rings
  import opened DLists
  import opened TimedPoll
  import opened Batch

  /** The fixed-size execution queue. */
  class TaskSchedQueue {
    const arr: array<Element>
    var count: nat

    ghost predicate Valid()
      reads this
    {
      arr.Length == MAX_TASKS_PER_EXECUTION && count <= MAX_TASKS_PER_EXECUTION
    }

    ghost function Contents(): (s: seq<Element>)
      requires Valid()
      reads this, arr
      ensures |s| == count
    {
      arr[..count]
    }

    constructor ()
      ensures Valid() && Contents() == [] && fresh(arr)
    {
      arr := new Element[MAX_TASKS_PER_EXECUTION](_ => Element(0, 0, false));
      count := 0;
    }

    /** A full queue drops the task without a word. */
    method PushBack(s: Schedulable)
      requires Valid()
      modifies `count, arr
      ensures Valid()
      ensures Contents() ==
              old(Contents()) + if |old(Contents())| < MAX_TASKS_PER_EXECUTION then [ElementOf(s)] else []
      ensures |old(Contents())| < MAX_TASKS_PER_EXECUTION ==>
                var e := Contents()[|old(Contents())|];
                e.pTaskFn == s.pTaskFn && e.pUserData == s.pUserData && e.isPeriodic == (s.executionPeriod != 0)
    {
      if count >= MAX_TASKS_PER_EXECUTION {
        return;
      }
      arr[count] := ElementOf(s);
      count := count + 1;
    }

    method Clear()
      requires Valid()
      modifies `count
      ensures Valid() && Contents() == []
    {
      count := 0;
    }
  }

  lemma {:induction false} ItemsOfRemove(nodes: seq<DLLNode<Schedulable>>, k: nat)
    requires k < |nodes|
    ensures ItemsOf(RemoveAt(nodes, k)) == RemoveAt(ItemsOf(nodes), k)
  {
    hide ItemsOf;
  }

  lemma {:induction false} RemoveLosesOne(d: DLLNode<Schedulable>, nodes: seq<DLLNode<Schedulable>>, k: nat)
    requires k < |nodes|
    ensures forall m | m in Members(d, nodes) && m != nodes[k] :: m in Members(d, RemoveAt(nodes, k))
  {
    forall m | m in nodes && m != nodes[k]
      ensures m in RemoveAt(nodes, k)
    {
      var i :| 0 <= i < |nodes| && nodes[i] == m;
      assert RemoveAt(nodes, k)[if i < k then i else i - 1] == m;
    }
  }

  /** Gives a periodic task its next due time and sorts it back in. */
  method PutBack(list: DLL<Schedulable>, n: DLLNode<Schedulable>, compareTimer: uint32)
    requires list.Valid() && n !in list.Linked() && n.pNext == null && n.pPrev == null
    modifies list`nodes, list.Linked()`pNext, list.Linked()`pPrev, n`pNext, n`pPrev, n`data
    ensures list.Valid() && n.data == Rearmed(old(n.data), compareTimer)
    ensures var q := FrontPos(NodeCompare, old(list.Items()), n.data);
            && list.nodes == InsertAt(old(list.nodes), q, n)
            && list.Items() == InsertAt(old(list.Items()), q, Item(n, n.data))
  {
    ghost var items := list.Items();
    hide *;
    n.data := Rearmed(n.data, compareTimer);
    assert list.Items() == items;
    list.SortedInsert(n, NodeCompare);
    InsertIs(items, n);
  }

  lemma InsertIs(items: seq<Item<DLLNode<Schedulable>, Schedulable>>, n: DLLNode<Schedulable>)
    ensures Insert(NodeCompare, items, Item(n, n.data)) ==
            InsertAt(items, FrontPos(NodeCompare, items, n.data), Item(n, n.data))
  {
  }

  lemma InsertAddsOne(d: DLLNode<Schedulable>, nodes: seq<DLLNode<Schedulable>>, p: nat, n: DLLNode<Schedulable>)
    requires p <= |nodes|
    ensures n in Members(d, InsertAt(nodes, p, n))
    ensures forall m | m in Members(d, nodes) :: m in Members(d, InsertAt(nodes, p, n))
  {
    var r := InsertAt(nodes, p, n);
    assert r[p] == n;
    forall m | m in nodes
      ensures m in r
    {
      var i :| 0 <= i < |nodes| && nodes[i] == m;
      assert r[if i < p then i else i + 1] == m;
    }
  }

  lemma RemoveLength<T>(s: seq<T>, k: nat)
    requires k < |s|
    ensures |RemoveAt(s, k)| == |s| - 1 && s[k] in s
  {
  }

  /** Takes the node at `pos` off its list; a cursor at `pos` is then on its successor. */
  method Unlist(list: DLL<Schedulable>, n: DLLNode<Schedulable>, ghost pos: nat)
    requires list.Valid() && pos < |list.nodes| && n == list.nodes[pos]
    modifies list`nodes, list.Linked()`pNext, list.Linked()`pPrev
    ensures list.Valid() && list.Linked() <= old(list.Linked()) && n !in list.Linked()
    ensures n.pNext == null && n.pPrev == null && list.nodes == RemoveAt(old(list.nodes), pos)
    ensures forall m | m in old(list.Linked()) && m != n :: m in list.Linked()
    ensures list.Items() == RemoveAt(old(list.Items()), pos)
    ensures At(list.dummyNode, list.nodes, pos) == old(At(list.dummyNode, list.nodes, pos + 1))
  {
    hide *;
    ghost var nodes, items := list.nodes, ItemsOf(list.nodes);
    list.LinkedAre();
    list.ItemsAre();
    CursorAfter(list.dummyNode, nodes, pos, 0, n);
    NodeUnlist(n, list, pos);
    list.LinkedAre();
    RemoveLosesOne(list.dummyNode, nodes, pos);
    list.ItemsAre();
    assert ItemsOf(nodes) == items;
    ItemsOfRemove(nodes, pos);
  }

  /** Takes the node at `pos` off its list and puts it back if it is periodic. */
  method Reinsert(list: DLL<Schedulable>, n: DLLNode<Schedulable>, ghost pos: nat, compareTimer: uint32)
    returns (ghost pos': nat)
    requires list.Valid() && pos < |list.nodes| && n == list.nodes[pos]
    modifies list`nodes, list.Linked()`pNext, list.Linked()`pPrev, n`data
    ensures list.Valid() && list.Linked() <= old(list.Linked())
    ensures forall m | m in old(list.Linked()) && m != n :: m in list.Linked()
    ensures n in list.Linked() || (n.pNext == null && n.pPrev == null)
    ensures ElementOf(n.data) == ElementOf(old(n.data))
    ensures (list.Items(), pos') == Reinserted(old(list.Items()), pos, compareTimer)
    ensures At(list.dummyNode, list.nodes, pos') == old(At(list.dummyNode, list.nodes, pos + 1))
  {
    hide *;
    ghost var items, nodes := list.Items(), list.nodes;
    RemoveLength(nodes, pos);
    assert items[pos] == Item(n, n.data) && n in list.Linked();
    list.LinkedAre();
    RearmedElement(n.data, compareTimer);
    ReinsertedIs(items, pos, compareTimer);
    pos' := pos;
    Unlist(list, n, pos);
    if n.data.executionPeriod != 0 {
      ghost var q := FrontPos(NodeCompare, list.Items(), Rearmed(n.data, compareTimer));
      CursorAfter(list.dummyNode, nodes, pos, q, n);
      list.LinkedAre();
      InsertAddsOne(list.dummyNode, list.nodes, q, n);
      PutBack(list, n, compareTimer);
      list.LinkedAre();
      pos' := if q <= pos then pos + 1 else pos;
    }
  }

  lemma ReinsertedIs(items: seq<Item<DLLNode<Schedulable>, Schedulable>>, pos: nat, compareTimer: uint32)
    requires pos < |items|
    ensures var x, rest := items[pos], RemoveAt(items, pos);
            && (x.key.executionPeriod == 0 ==> Reinserted(items, pos, compareTimer) == (rest, pos))
            && (x.key.executionPeriod != 0 ==>
                  var y := Item(x.id, Rearmed(x.key, compareTimer));
                  var q := FrontPos(NodeCompare, rest, y.key);
                  Reinserted(items, pos, compareTimer) == (InsertAt(rest, q, y), if q <= pos then pos + 1 else pos))
  {
  }

  /** The scheduler's walk over a timer list, which reinserts tasks into the list it is walking. */
  method PollTimedList(list: DLL<Schedulable>, compareTimer: uint32, qtl: TaskSchedQueue)
    requires list.Valid() && qtl.Valid() && |qtl.Contents()| < MAX_TASKS_PER_EXECUTION
    modifies list`nodes, list.Linked()`pNext, list.Linked()`pPrev, list.Linked()`data, qtl`count, qtl.arr
    ensures list.Valid() && qtl.Valid() && list.Linked() <= old(list.Linked())
    ensures forall m | m in old(list.Linked()) && m !in list.Linked() :: m.pNext == null && m.pPrev == null
    ensures Polled(list.Items(), qtl.Contents()) == PollTimed(old(list.Items()), 0, compareTimer, old(qtl.Contents()))
  {
    hide *;
    ghost var goal := PollTimed(list.Items(), 0, compareTimer, qtl.Contents());
    ghost var mine := list.Linked();
    ghost var pos: nat := 0;
    list.Front();
    var pIter := list.dummyNode.pNext;
    while pIter != list.dummyNode
      invariant list.Valid() && qtl.Valid() && list.Linked() <= mine && pos <= |list.nodes|
      invariant allocated(mine) && forall m | m in mine && m !in list.Linked() :: m.pNext == null && m.pPrev == null
      invariant pIter == At(list.dummyNode, list.nodes, pos)
      invariant |qtl.Contents()| < MAX_TASKS_PER_EXECUTION
      invariant goal == PollTimed(list.Items(), pos, compareTimer, qtl.Contents())
      decreases MAX_TASKS_PER_EXECUTION - qtl.count
    {
      list.Cursor(pos);
      ghost var items, batch := list.Items(), qtl.Contents();
      var timeDiff := TimeDiff(pIter.data, compareTimer);
      if timeDiff > 0 {
        PollTimedStop(items, pos, compareTimer, batch);
        return;
      }
      PollTimedStep(items, pos, compareTimer, batch);
      var pNext := pIter.pNext;
      pos := Reinsert(list, pIter, pos, compareTimer);
      qtl.PushBack(pIter.data);
      if qtl.count == MAX_TASKS_PER_EXECUTION {
        return;
      }
      pIter := pNext;
    }
    list.End(pos);
    PollTimedStop(list.Items(), pos, compareTimer, qtl.Contents());
  }

  lemma OneShotStop(items: seq<Listed<DLLNode<Schedulable>>>, pos: nat, batch: seq<Element>)
    requires pos == |items| && |batch| < MAX_TASKS_PER_EXECUTION
    ensures TakeOneShots(items, pos, batch) == Polled(items, batch)
  {
  }

  lemma OneShotStep(items: seq<Listed<DLLNode<Schedulable>>>, pos: nat, batch: seq<Element>)
    requires pos < |items| && |batch| < MAX_TASKS_PER_EXECUTION
    ensures var list' := if items[pos].key.executionPeriod == 0 then RemoveAt(items, pos) else items;
            var pos' := if items[pos].key.executionPeriod == 0 then pos else pos + 1;
            var batch' := batch + [ElementOf(items[pos].key)];
            pos' <= |list'| && TakeOneShots(items, pos, batch) ==
            if |batch'| == MAX_TASKS_PER_EXECUTION then Polled(list', batch') else TakeOneShots(list', pos', batch')
  {
  }

  /** The scheduler's walk over its one-shot list. */
  method TakeOneShotsList(list: DLL<Schedulable>, qtl: TaskSchedQueue)
    requires list.Valid() && qtl.Valid() && |qtl.Contents()| < MAX_TASKS_PER_EXECUTION
    modifies list`nodes, list.Linked()`pNext, list.Linked()`pPrev, qtl`count, qtl.arr
    ensures list.Valid() && qtl.Valid() && list.Linked() <= old(list.Linked())
    ensures forall m | m in old(list.Linked()) && m !in list.Linked() :: m.pNext == null && m.pPrev == null
    ensures Polled(list.Items(), qtl.Contents()) == TakeOneShots(old(list.Items()), 0, old(qtl.Contents()))
  {
    hide *;
    ghost var goal := TakeOneShots(list.Items(), 0, qtl.Contents());
    ghost var mine := list.Linked();
    ghost var pos: nat := 0;
    list.Front();
    var pIter := list.dummyNode.pNext;
    while pIter != list.dummyNode
      invariant list.Valid() && qtl.Valid() && list.Linked() <= mine && pos <= |list.nodes|
      invariant allocated(mine) && forall m | m in mine && m !in list.Linked() :: m.pNext == null && m.pPrev == null
      invariant pIter == At(list.dummyNode, list.nodes, pos)
      invariant |qtl.Contents()| < MAX_TASKS_PER_EXECUTION
      invariant goal == TakeOneShots(list.Items(), pos, qtl.Contents())
      decreases MAX_TASKS_PER_EXECUTION - qtl.count
    {
      list.Cursor(pos);
      OneShotStep(list.Items(), pos, qtl.Contents());
      var pNext := pIter.pNext;
      if pIter.data.executionPeriod == 0 {
        Unlist(list, pIter, pos);
      } else {
        pos := pos + 1;
      }
      qtl.PushBack(pIter.data);
      if qtl.count == MAX_TASKS_PER_EXECUTION {
        return;
      }
      pIter := pNext;
    }
    list.End(pos);
    OneShotStop(list.Items(), pos, qtl.Contents());
  }

  lemma EmptyHasRoom(s: seq<Element>)
    requires s == []
    ensures |s| < MAX_TASKS_PER_EXECUTION
  {
  }

  /** One priority: three lists, the execution queue and the times of the last poll. */
  class TaskSchedPrio {
    const isIdle: bool
    const mOneShotsList: DLL<Schedulable>
    const mTimerBasedList: DLL<Schedulable>
    const mIterationsBasedList: DLL<Schedulable>
    const mQtl: TaskSchedQueue
    var mIterationsCounter: uint32
    var mLastTimerProcessTime: uint32
    var mCurrentTime: uint32
    ghost var executed: seq<Element>

    ghost function Nodes(): set<DLLNode<Schedulable>>
      reads mOneShotsList, mTimerBasedList, mIterationsBasedList
    {
      mOneShotsList.Linked() + mTimerBasedList.Linked() + mIterationsBasedList.Linked()
    }

    ghost predicate Valid()
      ensures Valid() ==> mQtl.Valid()
      reads this, mOneShotsList, mTimerBasedList, mIterationsBasedList, Nodes(), mQtl
    {
      && mOneShotsList.Valid() && mTimerBasedList.Valid() && mIterationsBasedList.Valid() && mQtl.Valid()
      && mOneShotsList.Linked() !! mTimerBasedList.Linked()
      && mOneShotsList.Linked() !! mIterationsBasedList.Linked()
      && mTimerBasedList.Linked() !! mIterationsBasedList.Linked()
    }

    /** What the poll specification sees of this priority. */
    ghost function State(): Prio<DLLNode<Schedulable>>
      reads this, mOneShotsList, mTimerBasedList, mIterationsBasedList, Nodes()
    {
      Prio(isIdle, mOneShotsList.Items(), mIterationsBasedList.Items(), mTimerBasedList.Items(),
           mIterationsCounter, mLastTimerProcessTime)
    }

    constructor (isIdle: bool)
      ensures Valid() && executed == [] && this.isIdle == isIdle
      ensures fresh(mOneShotsList) && fresh(mTimerBasedList) && fresh(mIterationsBasedList) && fresh(Nodes())
      ensures State() == Prio(isIdle, [], [], [], 0, 0)
    {
      hide *;
      var filler := Schedulable(0, 0, 0, 0);
      var oneShots := new DLL<Schedulable>(filler);
      var timers := new DLL<Schedulable>(filler);
      var iterations := new DLL<Schedulable>(filler);
      var qtl := new TaskSchedQueue();
      this.isIdle := isIdle;
      mOneShotsList, mTimerBasedList, mIterationsBasedList, mQtl := oneShots, timers, iterations, qtl;
      mIterationsCounter, mLastTimerProcessTime, mCurrentTime, executed := 0, 0, 0, [];
      new;
      mOneShotsList.WhenEmpty();
      mTimerBasedList.WhenEmpty();
      mIterationsBasedList.WhenEmpty();
      Whole();
      StateParts();
    }

    lemma Parts()
      requires Valid()
      ensures mOneShotsList.Valid() && mTimerBasedList.Valid() && mIterationsBasedList.Valid() && mQtl.Valid()
      ensures mOneShotsList.Linked() !! mTimerBasedList.Linked()
      ensures mOneShotsList.Linked() !! mIterationsBasedList.Linked()
      ensures mTimerBasedList.Linked() !! mIterationsBasedList.Linked()
      ensures Nodes() == mOneShotsList.Linked() + mTimerBasedList.Linked() + mIterationsBasedList.Linked()
    {
    }

    lemma StateParts()
      ensures State() == Prio(isIdle, mOneShotsList.Items(), mIterationsBasedList.Items(), mTimerBasedList.Items(),
                              mIterationsCounter, mLastTimerProcessTime)
    {
    }

    lemma Whole()
      requires mOneShotsList.Valid() && mTimerBasedList.Valid() && mIterationsBasedList.Valid() && mQtl.Valid()
      requires mOneShotsList.Linked() !! mTimerBasedList.Linked()
      requires mOneShotsList.Linked() !! mIterationsBasedList.Linked()
      requires mTimerBasedList.Linked() !! mIterationsBasedList.Linked()
      ensures Valid()
      ensures Nodes() == mOneShotsList.Linked() + mTimerBasedList.Linked() + mIterationsBasedList.Linked()
    {
    }

    /** One-shots are taken whatever else is due. */
    method PollOneShots()
      requires Valid() && mQtl.Contents() == []
      modifies mQtl`count, mQtl.arr, mOneShotsList`nodes, mOneShotsList.Linked()`pNext, mOneShotsList.Linked()`pPrev
      ensures Valid() && Nodes() <= old(Nodes())
      ensures forall m | m in old(Nodes()) && m !in Nodes() :: m.pNext == null && m.pPrev == null
      ensures mTimerBasedList.Items() == old(mTimerBasedList.Items())
      ensures mIterationsBasedList.Items() == old(mIterationsBasedList.Items())
      ensures Polled(mOneShotsList.Items(), mQtl.Contents()) == TakeOneShots(old(mOneShotsList.Items()), 0, [])
    {
      hide *;
      Parts();
      EmptyHasRoom(mQtl.Contents());
      TakeOneShotsList(mOneShotsList, mQtl);
      Whole();
    }

    /** Iteration tasks are polled at idle priority only, and only into a queue with room. */
    method PollIterations()
      requires Valid()
      modifies mQtl`count, mQtl.arr, mIterationsBasedList`nodes, mIterationsBasedList.Linked()
      ensures Valid() && Nodes() <= old(Nodes())
      ensures forall m | m in old(Nodes()) && m !in Nodes() :: m.pNext == null && m.pPrev == null
      ensures mOneShotsList.Items() == old(mOneShotsList.Items())
      ensures mTimerBasedList.Items() == old(mTimerBasedList.Items())
      ensures Polled(mIterationsBasedList.Items(), mQtl.Contents()) ==
              if isIdle && |old(mQtl.Contents())| < MAX_TASKS_PER_EXECUTION && old(mIterationsBasedList.Items()) != []
              then PollTimed(old(mIterationsBasedList.Items()), 0, mIterationsCounter, old(mQtl.Contents()))
              else Polled(old(mIterationsBasedList.Items()), old(mQtl.Contents()))
    {
      hide *;
      Parts();
      if isIdle && mQtl.count < MAX_TASKS_PER_EXECUTION {
        var empty := mIterationsBasedList.IsEmpty();
        if !empty {
          PollTimedList(mIterationsBasedList, mIterationsCounter, mQtl);
        }
      }
      Whole();
    }

    /** Timers are polled once a millisecond, into a queue with room. */
    method PollTimers()
      requires Valid()
      modifies `mLastTimerProcessTime, mQtl`count, mQtl.arr, mTimerBasedList`nodes, mTimerBasedList.Linked()
      ensures Valid() && Nodes() <= old(Nodes())
      ensures forall m | m in old(Nodes()) && m !in Nodes() :: m.pNext == null && m.pPrev == null
      ensures mOneShotsList.Items() == old(mOneShotsList.Items())
      ensures mIterationsBasedList.Items() == old(mIterationsBasedList.Items())
      ensures var polls := |old(mQtl.Contents())| < MAX_TASKS_PER_EXECUTION && old(mTimerBasedList.Items()) != []
                           && old(mLastTimerProcessTime) != mCurrentTime;
              && mLastTimerProcessTime == (if polls then mCurrentTime else old(mLastTimerProcessTime))
              && Polled(mTimerBasedList.Items(), mQtl.Contents()) ==
                 if polls then PollTimed(old(mTimerBasedList.Items()), 0, mCurrentTime, old(mQtl.Contents()))
                 else Polled(old(mTimerBasedList.Items()), old(mQtl.Contents()))
    {
      hide *;
      Parts();
      if mQtl.count < MAX_TASKS_PER_EXECUTION {
        var empty := mTimerBasedList.IsEmpty();
        if !empty && mLastTimerProcessTime != mCurrentTime {
          mLastTimerProcessTime := mCurrentTime;
          PollTimedList(mTimerBasedList, mCurrentTime, mQtl);
        }
      }
      Whole();
    }

    /** The three polls in a row, with what each leaves in its list and in the queue. */
    method PollLists() returns (ghost a: Polled<DLLNode<Schedulable>, Schedulable>,
                                ghost b: Polled<DLLNode<Schedulable>, Schedulable>,
                                ghost c: Polled<DLLNode<Schedulable>, Schedulable>)
      requires Valid() && mQtl.Contents() == []
      modifies `mLastTimerProcessTime, mQtl`count, mQtl.arr
      modifies mOneShotsList`nodes, mTimerBasedList`nodes, mIterationsBasedList`nodes, Nodes()
      ensures Valid() && Nodes() <= old(Nodes())
      ensures forall m | m in old(Nodes()) && m !in Nodes() :: m.pNext == null && m.pPrev == null
      ensures a == TakeOneShots(old(mOneShotsList.Items()), 0, []) && mOneShotsList.Items() == a.list
      ensures b == (if isIdle && |a.batch| < MAX_TASKS_PER_EXECUTION && old(mIterationsBasedList.Items()) != []
                    then PollTimed(old(mIterationsBasedList.Items()), 0, mIterationsCounter, a.batch)
                    else Polled(old(mIterationsBasedList.Items()), a.batch)) && mIterationsBasedList.Items() == b.list
      ensures var polls := |b.batch| < MAX_TASKS_PER_EXECUTION && old(mTimerBasedList.Items()) != []
                           && old(mLastTimerProcessTime) != mCurrentTime;
              && c == (if polls then PollTimed(old(mTimerBasedList.Items()), 0, mCurrentTime, b.batch)
                       else Polled(old(mTimerBasedList.Items()), b.batch)) && mTimerBasedList.Items() == c.list
              && mQtl.Contents() == c.batch
              && mLastTimerProcessTime == (if polls then mCurrentTime else old(mLastTimerProcessTime))
    {
      hide *;
      ghost var n0 := Nodes();
      assert allocated(n0);
      Parts();
      PollOneShots();
      a := Polled(mOneShotsList.Items(), mQtl.Contents());
      Parts();
      PollIterations();
      b := Polled(mIterationsBasedList.Items(), mQtl.Contents());
      Parts();
      PollTimers();
      c := Polled(mTimerBasedList.Items(), mQtl.Contents());
    }

    /** The first critical section of a poll: fills the execution queue. */
    method TakeBatch(now: uint32)
      requires Valid()
      modifies `mIterationsCounter, `mLastTimerProcessTime, `mCurrentTime, mQtl`count, mQtl.arr
      modifies mOneShotsList`nodes, mTimerBasedList`nodes, mIterationsBasedList`nodes, Nodes()
      ensures Valid() && Nodes() <= old(Nodes()) && mCurrentTime == now
      ensures forall m | m in old(Nodes()) && m !in Nodes() :: m.pNext == null && m.pPrev == null
      ensures State() == AfterPoll(old(State()), now) && mQtl.Contents() == AfterTimers(old(State()), now).batch
    {
      hide *;
      ghost var s := State();
      Parts();
      StateParts();
      mCurrentTime := now;
      mQtl.Clear();
      mIterationsCounter := Wrap32(mIterationsCounter + 1);
      Whole();
      ghost var a, b, c := PollLists();
      PollPhases(s, now, a, b, c);
      StateParts();
    }

    /** Runs one queued task, outside every critical section. */
    method RunTask(t: nat)
      requires Valid() && t < |mQtl.Contents()|
      modifies `executed
      ensures Valid() && executed == old(executed) + [mQtl.Contents()[t]]
      ensures State() == old(State()) && Nodes() == old(Nodes())
    {
      executed := executed + [mQtl.arr[t]];
    }

    /** The second half of a poll: runs what was queued, in order. */
    method Execute()
      requires Valid()
      modifies `executed, mQtl`count
      ensures Valid() && executed == old(executed) + old(mQtl.Contents()) && mQtl.Contents() == []
      ensures State() == old(State()) && Nodes() == old(Nodes())
    {
      hide DLL.Valid, DLL.Items, DLL.Linked, ItemsOf;
      var numTasks := mQtl.count;
      for t := 0 to numTasks
        invariant mQtl.count == numTasks && executed == old(executed) + mQtl.arr[..t]
      {
        executed := executed + [mQtl.arr[t]];
      }
      mQtl.Clear();
    }

    /** How long the worker may sleep: 0 not at all, -1 until it is signalled. */
    method SleepTime(now: uint32) returns (t: int)
      requires Valid()
      ensures Valid() && State() == old(State()) && t == TimeToNextRun(State(), now)
      ensures mOneShotsList.nodes != [] || mIterationsBasedList.nodes != [] ==> t == 0
      ensures mOneShotsList.nodes == [] && mIterationsBasedList.nodes == [] ==>
                if mTimerBasedList.nodes == [] then t == -1
                else
                  var left := Signed32(mTimerBasedList.nodes[0].data.nextExecutionTime - now);
                  t >= 0 && t >= left && (t == 0 || t == left)
    {
      hide DLL.Valid, DLL.Linked, ItemsOf;
      Parts();
      var noOneShots := mOneShotsList.IsEmpty();
      var noIterations := mIterationsBasedList.IsEmpty();
      var front := mTimerBasedList.GetFront();
      if !noOneShots || !noIterations {
        t := 0;
      } else if front != null {
        t := Signed32(front.data.nextExecutionTime - now);
        if t < 0 {
          t := 0;
        }
      } else {
        t := -1;
      }
    }

    /** A whole poll: `now` and `later` are what the clock says at its start and at its end. */
    method DoPoll(now: uint32, later: uint32) returns (t: int)
      requires Valid()
      modifies `mIterationsCounter, `mLastTimerProcessTime, `mCurrentTime, `executed, mQtl`count, mQtl.arr
      modifies mOneShotsList`nodes, mTimerBasedList`nodes, mIterationsBasedList`nodes, Nodes()
      ensures Valid() && State() == AfterPoll(old(State()), now) && Nodes() <= old(Nodes())
      ensures forall m | m in old(Nodes()) && m !in Nodes() :: m.pNext == null && m.pPrev == null
      ensures executed == old(executed) + AfterTimers(old(State()), now).batch
      ensures t == TimeToNextRun(State(), later)
    {
      hide *;
      ghost var n0 := Nodes();
      assert allocated(n0);
      TakeBatch(now);
      Execute();
      t := SleepTime(later);
    }
  }
}
