/**
 The whole scheduler: five priorities of three lists each. A schedulable is on at most one list, and
 the one-pointer test for that agrees with the search through all fifteen.
 */
module Scheduler {
  import opened Common
  import opened Words
  import opened Ordering
  import opened Rings
  import opened DLists
  import opened TimedPoll
  import opened Batch
  import opened TimerService
  import opened TaskSched

  type Node = DLLNode<Schedulable>

  const TS_NUM_PRIORITIES := 5

  /** `s` without its first `x`. */
  function Without(s: seq<Node>, x: Node): seq<Node> {
    if s == [] then [] else if s[0] == x then s[1..] else [s[0]] + Without(s[1..], x)
  }

  lemma {:induction false} WithoutAbsent(s: seq<Node>, x: Node)
    requires x !in s
    ensures Without(s, x) == s
  {
    if s != [] {
      WithoutAbsent(s[1..], x);
    }
  }

  lemma {:induction false} WithoutAt(s: seq<Node>, k: nat)
    requires k < |s| && Distinct(s)
    ensures Without(s, s[k]) == RemoveAt(s, k)
  {
    if k > 0 {
      assert s[1..][k - 1] == s[k] && s[0] != s[k];
      assert Distinct(s[1..]);
      WithoutAt(s[1..], k - 1);
      assert RemoveAt(s, k) == [s[0]] + RemoveAt(s[1..], k - 1);
    }
  }

  class TaskScheduler {
    const prios: seq<TaskSchedPrio>
    const lists: seq<DLL<Schedulable>>          // timers, one-shots and iterations of each priority, as a search goes
    ghost const dummies: set<Node>
    ghost var pool: set<Node>                   // every schedulable that was initialised

    predicate Wired() {
      && |prios| == TS_NUM_PRIORITIES && |lists| == 3 * TS_NUM_PRIORITIES
      && forall p | 0 <= p < TS_NUM_PRIORITIES ::
           && lists[3 * p] == prios[p].mTimerBasedList
           && lists[3 * p + 1] == prios[p].mOneShotsList
           && lists[3 * p + 2] == prios[p].mIterationsBasedList
           && (prios[p].isIdle <==> p == TS_NUM_PRIORITIES - 1)
    }

    ghost predicate Valid()
      reads this, lists, pool, dummies, (set p | p in prios :: p.mQtl)
    {
      && Fixed()
      && (forall p | p in prios :: p.mQtl.Valid())
      && (forall i | 0 <= i < |lists| :: Contained(lists[i]) && lists[i].Valid())
      && (forall n, i, j | n in pool && OnList(n, i) && OnList(n, j) :: i == j)
      && (forall n | n in pool && !On(n) :: n.pNext == null && n.pPrev == null)
    }

    /** What does not change: the lists, and that no dummy is a schedulable. */
    ghost predicate Fixed()
      reads this
    {
      && Wired() && pool !! dummies
      && (forall i | 0 <= i < |lists| :: lists[i].dummyNode in dummies)
      && forall i, j | 0 <= i < j < |lists| :: lists[i].dummyNode != lists[j].dummyNode
    }

    ghost predicate Contained(list: DLL<Schedulable>)
      reads this, list
    {
      list.dummyNode in dummies && forall n | n in list.nodes :: n in pool
    }

    constructor ()
      ensures Valid() && pool == {} && forall j | 0 <= j < |lists| :: lists[j].nodes == []
    {
      var ps, ls, ds := NewPrios(TS_NUM_PRIORITIES);
      prios, lists, dummies, pool := ps, ls, ds, {};
    }

    /** The priorities in order, the last one idle. */
    static method NewPrios(n: nat) returns (ps: seq<TaskSchedPrio>, ls: seq<DLL<Schedulable>>, ghost ds: set<Node>)
      ensures |ps| == n && |ls| == 3 * n
      ensures forall q | 0 <= q < n ::
                && ls[3 * q] == ps[q].mTimerBasedList && ls[3 * q + 1] == ps[q].mOneShotsList
                && ls[3 * q + 2] == ps[q].mIterationsBasedList && ps[q].mQtl.Valid()
                && (ps[q].isIdle <==> q == n - 1)
      ensures forall j | 0 <= j < |ls| :: ls[j].Valid() && ls[j].nodes == [] && ls[j].dummyNode in ds
      ensures forall j, k | 0 <= j < k < |ls| :: ls[j].dummyNode != ls[k].dummyNode
    {
      hide *;
      ps, ls, ds := [], [], {};
      for p := 0 to n
        invariant |ps| == p && |ls| == 3 * p && allocated(ds)
        invariant forall q | 0 <= q < p ::
                    && ls[3 * q] == ps[q].mTimerBasedList && ls[3 * q + 1] == ps[q].mOneShotsList
                    && ls[3 * q + 2] == ps[q].mIterationsBasedList && ps[q].mQtl.Valid()
                    && (ps[q].isIdle <==> q == n - 1)
        invariant forall j | 0 <= j < |ls| :: ls[j].Valid() && ls[j].nodes == [] && ls[j].dummyNode in ds
        invariant forall j, k | 0 <= j < k < |ls| :: ls[j].dummyNode != ls[k].dummyNode
      {
        var q := NewPrio(p == n - 1);
        ps := ps + [q];
        ls := ls + [q.mTimerBasedList, q.mOneShotsList, q.mIterationsBasedList];
        ds := ds + {q.mTimerBasedList.dummyNode, q.mOneShotsList.dummyNode, q.mIterationsBasedList.dummyNode};
      }
    }

    static method NewPrio(isIdle: bool) returns (q: TaskSchedPrio)
      ensures q.isIdle == isIdle
      ensures fresh(q.mOneShotsList.dummyNode) && fresh(q.mTimerBasedList.dummyNode)
              && fresh(q.mIterationsBasedList.dummyNode)
      ensures q.mOneShotsList.Valid() && q.mTimerBasedList.Valid() && q.mIterationsBasedList.Valid() && q.mQtl.Valid()
      ensures q.mOneShotsList.nodes == [] && q.mTimerBasedList.nodes == [] && q.mIterationsBasedList.nodes == []
      ensures q.mOneShotsList.dummyNode != q.mTimerBasedList.dummyNode
      ensures q.mOneShotsList.dummyNode != q.mIterationsBasedList.dummyNode
      ensures q.mTimerBasedList.dummyNode != q.mIterationsBasedList.dummyNode
    {
      q := new TaskSchedPrio(isIdle);
      assert q.State() == Prio(isIdle, [], [], [], 0, 0);
    }

    /** The schedulable is on list `i`. */
    ghost predicate OnList(n: Node, i: int)
      reads lists
    {
      0 <= i < |lists| && n in lists[i].nodes
    }

    ghost predicate On(n: Node)
      reads lists
    {
      exists i :: OnList(n, i)
    }

    /** One pointer tells whether a schedulable is listed, and it is on one list at most. */
    lemma FastCheck(n: Node)
      requires Valid() && n in pool
      ensures On(n) <==> n.pNext != null
      ensures On(n) <==> n.pPrev != null
      ensures forall i, j | OnList(n, i) && OnList(n, j) :: i == j
    {
    }

    /** The fast check. */
    method IsListed(n: Node) returns (isScheduled: bool)
      requires Valid() && n in pool
      ensures isScheduled == On(n)
    {
      FastCheck(n);
      isScheduled := n.pNext != null;
    }

    /** The search through the lists of all priorities. */
    method IsScheduled(n: Node) returns (isScheduled: bool)
      requires Valid() && n in pool
      ensures isScheduled == On(n)
    {
      isScheduled := false;
      var i := 0;
      while !isScheduled && i < TS_NUM_PRIORITIES
        invariant 0 <= i <= TS_NUM_PRIORITIES
        invariant isScheduled ==> On(n)
        invariant !isScheduled ==> forall j | 0 <= j < 3 * i :: !OnList(n, j)
        decreases TS_NUM_PRIORITIES - i, !isScheduled
      {
        isScheduled := SearchPrio(n, i);
        i := i + 1;
      }
    }

    method SearchPrio(n: Node, p: nat) returns (isScheduled: bool)
      requires Valid() && n in pool && p < TS_NUM_PRIORITIES
      ensures isScheduled <==> OnList(n, 3 * p) || OnList(n, 3 * p + 1) || OnList(n, 3 * p + 2)
    {
      assert Contained(lists[3 * p]) && Contained(lists[3 * p + 1]) && Contained(lists[3 * p + 2]);
      hide DLL.Valid;
      isScheduled := prios[p].mTimerBasedList.IsListed(n);
      if !isScheduled {
        isScheduled := prios[p].mOneShotsList.IsListed(n);
      }
      if !isScheduled {
        isScheduled := prios[p].mIterationsBasedList.IsListed(n);
      }
    }

    /** The node is in none of the sequences. */
    ghost predicate Nowhere(n: Node, was: seq<seq<Node>>) {
      forall j | 0 <= j < |was| :: n !in was[j]
    }

    ghost predicate AtMostOne(was: seq<seq<Node>>) {
      forall i, j, n | 0 <= i < |was| && 0 <= j < |was| && n in was[i] && n in was[j] :: i == j
    }

    /** The nodes of all lists, and that whatever is in none of them has no links. */
    lemma Snapshot() returns (was: seq<seq<Node>>)
      requires Valid()
      ensures |was| == |lists| && forall j | 0 <= j < |lists| :: was[j] == lists[j].nodes
      ensures AtMostOne(was) && forall j, m | 0 <= j < |was| && m in was[j] :: m in pool
      ensures forall m | m in pool && Nowhere(m, was) :: m.pNext == null && m.pPrev == null
      ensures forall m, j | m in pool && Nowhere(m, was) && 0 <= j < |was| :: m !in was[j]
    {
      was := seq(|lists|, j requires 0 <= j < |lists| reads lists => lists[j].nodes);
      forall i, j, n | 0 <= i < |was| && 0 <= j < |was| && n in was[i] && n in was[j]
        ensures i == j
      {
        assert OnList(n, i) && OnList(n, j);
      }
      forall m | m in pool && Nowhere(m, was)
        ensures !On(m)
      {
        forall j | 0 <= j < |lists|
          ensures !OnList(m, j)
        {
          assert m !in was[j];
        }
      }
    }

    /** The state is valid again after only list `i` was changed, and `n` put on it or taken off it. */
    lemma OneListChanged(i: nat, n: Node, was: seq<seq<Node>>)
      requires Fixed() && i < |lists| == |was| && AtMostOne(was)
      requires forall j, m | 0 <= j < |was| && m in was[j] :: m in pool
      requires forall j | 0 <= j < |lists| :: lists[j].Valid()
      requires forall j | 0 <= j < |lists| && j != i :: n !in lists[j].nodes && lists[j].nodes == was[j]
      requires n in pool && forall m | m in lists[i].nodes :: m == n || m in was[i]
      requires forall m | m in was[i] :: m == n || m in lists[i].nodes
      requires forall m | m in pool && m != n && Nowhere(m, was) :: m.pNext == null && m.pPrev == null
      requires n in lists[i].nodes || (n.pNext == null && n.pPrev == null)
      requires forall p | p in prios :: p.mQtl.Valid()
      ensures Valid()
    {
      forall j, k, m | OnList(m, j) && OnList(m, k)
        ensures j == k
      {
        assert m == n || (m in was[j] && m in was[k]);
      }
      forall m | m in pool && !On(m)
        ensures m.pNext == null && m.pPrev == null
      {
        assert !OnList(m, i);
        forall j | 0 <= j < |lists|
          ensures m == n || m !in was[j]
        {
          assert !OnList(m, j);
        }
      }
    }

    lemma ListOk(i: nat)
      requires Valid() && i < |lists|
      ensures Fixed() && lists[i].Valid() && lists[i].dummyNode in dummies && lists[i].dummyNode !in pool
      ensures forall m | m in lists[i].nodes :: m in pool
      ensures forall m | m in lists[i].Linked() :: m == lists[i].dummyNode || m in lists[i].nodes
      ensures forall p | p in prios :: p.mQtl.Valid()
    {
    }

    lemma Apart(i: nat, j: nat)
      requires Valid() && i < |lists| && j < |lists| && i != j
      ensures lists[i] != lists[j] && lists[i].Linked() !! lists[j].Linked()
      ensures lists[j].Valid()
    {
      forall m | m in lists[i].Linked()
        ensures m !in lists[j].Linked()
      {
        assert m in pool && OnList(m, i) ==> !OnList(m, j);
      }
    }

    lemma OthersLeftAlone(i: nat, n: Node)
      requires Valid() && n in pool && i < |lists| && (OnList(n, i) || !On(n))
      ensures forall j | 0 <= j < |lists| && j != i ::
                && lists[j] != lists[i] && lists[j].Linked() !! lists[i].Linked() && lists[j].Valid()
                && n !in lists[j].nodes && lists[j].nodes == Without(lists[j].nodes, n)
    {
      forall j | 0 <= j < |lists| && j != i
        ensures lists[j] != lists[i] && lists[j].Linked() !! lists[i].Linked() && lists[j].Valid()
        ensures n !in lists[j].nodes && lists[j].nodes == Without(lists[j].nodes, n)
      {
        Apart(i, j);
        assert !OnList(n, j);
        WithoutAbsent(lists[j].nodes, n);
      }
    }

    lemma OnItsList(n: Node, i: nat) returns (k: nat)
      requires Valid() && n in pool && i < |lists| && OnList(n, i)
      ensures k < |lists[i].nodes| && lists[i].nodes[k] == n && n !in dummies
      ensures Without(lists[i].nodes, n) == RemoveAt(lists[i].nodes, k)
      ensures forall m | m in lists[i].nodes :: m == n || m in RemoveAt(lists[i].nodes, k)
      ensures forall m | m in RemoveAt(lists[i].nodes, k) :: m in lists[i].nodes
    {
      k :| 0 <= k < |lists[i].nodes| && lists[i].nodes[k] == n;
      lists[i].ValidRing();
      WithoutAt(lists[i].nodes, k);
      RemoveLosesOne(lists[i].dummyNode, lists[i].nodes, k);
    }

    /** Taking a schedulable off its list, by its pointers alone. */
    method Unlist(n: Node, ghost i: nat)
      requires Valid() && n in pool && i < |lists| && OnList(n, i)
      modifies lists, pool`pNext, pool`pPrev, dummies`pNext, dummies`pPrev
      ensures Valid() && n.pNext == null
      ensures forall j | 0 <= j < |lists| :: lists[j].nodes == Without(old(lists[j].nodes), n)
    {
      hide *;
      ListOk(i);
      ghost var was := Snapshot();
      ghost var k := OnItsList(n, i);
      OthersLeftAlone(i, n);
      NodeUnlist(n, lists[i], k);
      OneListChanged(i, n, was);
    }

    /** Cancel by way of the search. */
    method Cancel(n: Node) returns (isInAList: bool)
      requires Valid() && n in pool
      modifies lists, pool`pNext, pool`pPrev, dummies`pNext, dummies`pPrev
      ensures Valid() && isInAList == old(On(n)) && n.pNext == null
      ensures forall j | 0 <= j < |lists| :: lists[j].nodes == Without(old(lists[j].nodes), n)
    {
      isInAList := IsScheduled(n);
      if isInAList {
        ghost var i :| OnList(n, i);
        Unlist(n, i);
      } else {
        FastCheck(n);
        NotOnAny(n);
      }
    }

    lemma NotOnAny(n: Node)
      requires !On(n)
      ensures forall j | 0 <= j < |lists| :: lists[j].nodes == Without(lists[j].nodes, n)
    {
      forall j | 0 <= j < |lists|
        ensures lists[j].nodes == Without(lists[j].nodes, n)
      {
        assert !OnList(n, j);
        WithoutAbsent(lists[j].nodes, n);
      }
    }

    /** Cancel by way of the pointers: the same result and the same effect. */
    method CancelScheduledTask(n: Node) returns (rval: bool)
      requires Valid() && n in pool
      modifies lists, pool`pNext, pool`pPrev, dummies`pNext, dummies`pPrev
      ensures Valid() && rval == old(On(n)) && n.pNext == null
      ensures forall j | 0 <= j < |lists| :: lists[j].nodes == Without(old(lists[j].nodes), n)
    {
      rval := false;
      FastCheck(n);
      if n.pPrev != null && n.pNext != null {
        if n.pPrev != null {
          ghost var i :| OnList(n, i);
          Unlist(n, i);
          rval := true;
        }
      } else {
        NotOnAny(n);
      }
    }

    // -------------------------------------------------------------- adding

    lemma FifteenLists()
      requires Valid()
      ensures TS_NUM_PRIORITIES == 5 && |prios| == 5 && |lists| == 15
    {
    }

    lemma NotLinked(n: Node, i: nat)
      requires Valid() && n in pool && !On(n) && i < |lists|
      ensures n !in lists[i].Linked() && n.pNext == null && n.pPrev == null && n !in dummies
      ensures forall j | 0 <= j < |lists| :: n !in lists[j].nodes
    {
      forall j | 0 <= j < |lists|
        ensures n !in lists[j].nodes
      {
        assert !OnList(n, j);
      }
    }

    /** Behind everything on list `i`. */
    method PushBackOnto(i: nat, n: Node)
      requires Valid() && n in pool && i < |lists| && !On(n)
      modifies lists, pool`pNext, pool`pPrev, dummies`pNext, dummies`pPrev
      ensures Valid() && lists[i].nodes == old(lists[i].nodes) + [n]
      ensures forall j | 0 <= j < |lists| && j != i :: lists[j].nodes == old(lists[j].nodes)
    {
      hide *;
      ListOk(i);
      ghost var was := Snapshot();
      NotLinked(n, i);
      OthersLeftAlone(i, n);
      lists[i].PushBack(n);
      OneListChanged(i, n, was);
    }

    /** Into its place on the sorted list `i`. */
    method InsertOnto(i: nat, n: Node)
      requires Valid() && n in pool && i < |lists| && !On(n)
      modifies lists, pool`pNext, pool`pPrev, dummies`pNext, dummies`pPrev
      ensures Valid() && lists[i].Items() == Insert(NodeCompare, old(lists[i].Items()), Item(n, n.data))
      ensures forall j | 0 <= j < |lists| && j != i :: lists[j].nodes == old(lists[j].nodes)
    {
      hide *;
      ListOk(i);
      ghost var was := Snapshot();
      NotLinked(n, i);
      OthersLeftAlone(i, n);
      lists[i].SortedInsert(n, NodeCompare);
      InsertedMembers(was[i], FrontPos(NodeCompare, old(lists[i].Items()), n.data), n);
      OneListChanged(i, n, was);
    }

    /** Setting the times of a schedulable that is on no list. */
    method Retime(n: Node, executionPeriod: uint32, nextExecutionTime: uint32)
      requires Valid() && n in pool && !On(n)
      modifies n`data
      ensures Valid() && !On(n)
      ensures n.data == old(n.data).(executionPeriod := executionPeriod, nextExecutionTime := nextExecutionTime)
      ensures forall j | 0 <= j < |lists| :: lists[j].Items() == old(lists[j].Items())
    {
      hide DLL.Valid, ItemsOf;
      forall j | 0 <= j < |lists|
        ensures n !in lists[j].Linked()
      {
        NotLinked(n, j);
      }
      n.data := n.data.(executionPeriod := executionPeriod, nextExecutionTime := nextExecutionTime);
    }

    /** A task for its scheduler: at once, or at a time, and then perhaps again and again. */
    method AddTimerFn(prio: nat, n: Node, periodMs: uint32, timeOffsetMs: uint32, ms: uint32)
      requires Valid() && n in pool && prio < TS_NUM_PRIORITIES && !On(n)
      modifies lists, pool`pNext, pool`pPrev, dummies`pNext, dummies`pPrev, n`data
      ensures Valid()
      ensures forall j | 0 <= j < |lists| && j != 3 * prio && j != 3 * prio + 1 :: lists[j].nodes == old(lists[j].nodes)
      ensures if periodMs == 0 && timeOffsetMs == 0 then
                && n.data == old(n.data).(executionPeriod := 0)
                && lists[3 * prio + 1].nodes == old(lists[3 * prio + 1].nodes) + [n]
                && lists[3 * prio].nodes == old(lists[3 * prio].nodes)
              else
                && n.data == old(n.data).(executionPeriod := periodMs, nextExecutionTime := Wrap32(ms + timeOffsetMs))
                && lists[3 * prio].Items() == Insert(NodeCompare, old(lists[3 * prio].Items()), Item(n, n.data))
                && lists[3 * prio + 1].nodes == old(lists[3 * prio + 1].nodes)
    {
      hide *;
      FifteenLists();
      if periodMs == 0 && timeOffsetMs == 0 {
        Retime(n, 0, n.data.nextExecutionTime);
        PushBackOnto(3 * prio + 1, n);
      } else {
        Retime(n, periodMs, Wrap32(ms + timeOffsetMs));
        InsertOnto(3 * prio, n);
      }
    }

    /** A poller for the idle priority: on every pass, or on every so many. */
    method AddIdlePollerFn(n: Node, iterationsBetweenPolls: uint32)
      requires Valid() && n in pool && !On(n)
      modifies lists, pool`pNext, pool`pPrev, dummies`pNext, dummies`pPrev, n`data
      ensures Valid()
      ensures var p := TS_NUM_PRIORITIES - 1;
              && (forall j | 0 <= j < |lists| && j != 3 * p + 1 && j != 3 * p + 2 ::
                    lists[j].nodes == old(lists[j].nodes))
              && if iterationsBetweenPolls <= 1 then
                   && n.data == old(n.data).(executionPeriod := 1)
                   && lists[3 * p + 1].nodes == old(lists[3 * p + 1].nodes) + [n]
                   && lists[3 * p + 2].nodes == old(lists[3 * p + 2].nodes)
                 else
                   && n.data == old(n.data).(executionPeriod := iterationsBetweenPolls,
                        nextExecutionTime := Wrap32(prios[p].mIterationsCounter + iterationsBetweenPolls))
                   && lists[3 * p + 2].Items() == Insert(NodeCompare, old(lists[3 * p + 2].Items()), Item(n, n.data))
                   && lists[3 * p + 1].nodes == old(lists[3 * p + 1].nodes)
    {
      hide *;
      FifteenLists();
      var sched := prios[TS_NUM_PRIORITIES - 1];
      if iterationsBetweenPolls <= 1 {
        Retime(n, 1, n.data.nextExecutionTime);
        PushBackOnto(3 * TS_NUM_PRIORITIES - 2, n);
      } else {
        Retime(n, iterationsBetweenPolls, Wrap32(sched.mIterationsCounter + iterationsBetweenPolls));
        InsertOnto(3 * TS_NUM_PRIORITIES - 1, n);
      }
    }

    /** A new schedulable is on no list. */
    method InitSched(data: Schedulable) returns (n: Node)
      requires Valid()
      modifies `pool
      ensures Valid() && fresh(n) && pool == old(pool) + {n} && !On(n) && n.data == data
    {
      hide DLL.Valid, DLL.Linked, Ring, Distinct;
      ghost var was := pool;
      assert forall i | 0 <= i < |lists| :: forall m | m in lists[i].nodes :: m in was;
      n := new DLLNode<Schedulable>(data);
      pool := pool + {n};
    }

    // -------------------------------------------------------------- polling

    lemma PrioOk(p: nat)
      requires Valid() && p < TS_NUM_PRIORITIES
      ensures prios[p].Valid()
    {
      Apart(3 * p, 3 * p + 1);
      Apart(3 * p, 3 * p + 2);
      Apart(3 * p + 1, 3 * p + 2);
      hide DLL.Valid;
      prios[p].Whole();
    }

    lemma ValidWired()
      requires Valid()
      ensures Wired() && |lists| == 3 * TS_NUM_PRIORITIES && |prios| == TS_NUM_PRIORITIES
    {
    }

    lemma PrioParts(p: nat)
      requires Wired() && p < TS_NUM_PRIORITIES
      ensures prios[p].mTimerBasedList == lists[3 * p] && prios[p].mOneShotsList == lists[3 * p + 1]
      ensures prios[p].mIterationsBasedList == lists[3 * p + 2] && prios[p] in prios
      ensures forall m | m in prios[p].Nodes() ::
                m in lists[3 * p].Linked() || m in lists[3 * p + 1].Linked() || m in lists[3 * p + 2].Linked()
      ensures forall m |
                m in lists[3 * p].Linked() || m in lists[3 * p + 1].Linked() || m in lists[3 * p + 2].Linked() ::
                m in prios[p].Nodes()
    {
    }

    /** What a schedulable is linked into, in terms of the snapshot. */
    lemma LinkedIs(i: nat)
      requires i < |lists|
      ensures forall m | m in lists[i].Linked() :: m == lists[i].dummyNode || m in lists[i].nodes
      ensures lists[i].dummyNode in lists[i].Linked() && forall m | m in lists[i].nodes :: m in lists[i].Linked()
    {
    }

    /** The lists of a priority have nothing in common with another list. */
    lemma PrioApart(p: nat, j: nat)
      requires Valid() && p < TS_NUM_PRIORITIES && j < |lists| && j / 3 != p
      ensures lists[j].Valid() && lists[j].Linked() !! prios[p].Nodes()
      ensures lists[j] != lists[3 * p] && lists[j] != lists[3 * p + 1] && lists[j] != lists[3 * p + 2]
    {
      hide *;
      ValidWired();
      Apart(3 * p, j);
      Apart(3 * p + 1, j);
      Apart(3 * p + 2, j);
      PrioParts(p);
    }

    lemma OthersApart(p: nat)
      requires Valid() && p < TS_NUM_PRIORITIES
      ensures forall j | 0 <= j < |lists| && j / 3 != p ::
                && lists[j].Valid() && lists[j].Linked() !! prios[p].Nodes()
                && lists[j] != lists[3 * p] && lists[j] != lists[3 * p + 1] && lists[j] != lists[3 * p + 2]
    {
      forall j | 0 <= j < |lists| && j / 3 != p
        ensures lists[j].Valid() && lists[j].Linked() !! prios[p].Nodes()
        ensures lists[j] != lists[3 * p] && lists[j] != lists[3 * p + 1] && lists[j] != lists[3 * p + 2]
      {
        PrioApart(p, j);
      }
    }

    /** In one of the three sequences of a priority. */
    ghost predicate InPrio(m: Node, was: seq<seq<Node>>, p: nat)
      requires 3 * p + 2 < |was|
    {
      m in was[3 * p] || m in was[3 * p + 1] || m in was[3 * p + 2]
    }

    predicate IsDummyOf(m: Node, p: nat)
      requires 3 * p + 2 < |lists|
    {
      m == lists[3 * p].dummyNode || m == lists[3 * p + 1].dummyNode || m == lists[3 * p + 2].dummyNode
    }

    /** Nothing but this priority was changed, and it has no nodes that it did not have. */
    ghost predicate OnlyPolled(p: nat, was: seq<seq<Node>>)
      reads this, lists, (set q | q in prios :: q.mOneShotsList), (set q | q in prios :: q.mTimerBasedList),
            (set q | q in prios :: q.mIterationsBasedList)
    {
      && Fixed() && p < TS_NUM_PRIORITIES && |was| == |lists|
      && (forall j, m | 0 <= j < |was| && m in was[j] :: m in pool)
      && (forall j | 0 <= j < |lists| && j / 3 != p :: lists[j].nodes == was[j])
      && (forall m | m in prios[p].Nodes() :: IsDummyOf(m, p) || InPrio(m, was, p))
    }

    lemma PrioNodesWere(p: nat, was: seq<seq<Node>>, j: nat, m: Node)
      requires OnlyPolled(p, was) && prios[p].Valid() && j < |lists| && j / 3 == p && m in lists[j].nodes
      ensures InPrio(m, was, p) && m in prios[p].Nodes()
    {
      PrioParts(p);
      prios[p].Parts();
      LinkedIs(3 * p);
      LinkedIs(3 * p + 1);
      LinkedIs(3 * p + 2);
      lists[j].ValidRing();
    }

    lemma PrioStillAtMostOne(p: nat, was: seq<seq<Node>>, j: nat, k: nat, m: Node)
      requires OnlyPolled(p, was) && prios[p].Valid() && AtMostOne(was)
      requires j < |lists| && k < |lists| && m in lists[j].nodes && m in lists[k].nodes
      ensures j == k
    {
      if j / 3 == p {
        PrioNodesWere(p, was, j, m);
      }
      if k / 3 == p {
        PrioNodesWere(p, was, k, m);
      }
      PrioParts(p);
      prios[p].Parts();
      LinkedIs(j);
      LinkedIs(k);
    }

    lemma PrioStillUnlinked(p: nat, was: seq<seq<Node>>, m: Node)
      requires OnlyPolled(p, was) && m in pool && !On(m)
      ensures m !in prios[p].Nodes()
      ensures InPrio(m, was, p) || Nowhere(m, was)
    {
      forall j | 0 <= j < |lists|
        ensures m !in lists[j].nodes
      {
        assert !OnList(m, j);
      }
      PrioParts(p);
      LinkedIs(3 * p);
      LinkedIs(3 * p + 1);
      LinkedIs(3 * p + 2);
    }

    /** The state is valid again after one priority was polled. */
    lemma PrioChanged(p: nat, was: seq<seq<Node>>)
      requires OnlyPolled(p, was) && prios[p].Valid() && AtMostOne(was)
      requires forall j | 0 <= j < |lists| :: lists[j].Valid()
      requires forall m | m in pool && InPrio(m, was, p) && m !in prios[p].Nodes() :: m.pNext == null && m.pPrev == null
      requires forall m | m in pool && Nowhere(m, was) :: m.pNext == null && m.pPrev == null
      requires forall q | q in prios :: q.mQtl.Valid()
      ensures Valid()
    {
      hide DLL.Valid, TaskSchedPrio.Valid, TaskSchedPrio.Nodes;
      forall j, m | 0 <= j < |lists| && m in lists[j].nodes
        ensures m in pool
      {
        if j / 3 == p {
          PrioNodesWere(p, was, j, m);
        }
      }
      forall m, j, k | m in pool && OnList(m, j) && OnList(m, k)
        ensures j == k
      {
        PrioStillAtMostOne(p, was, j, k, m);
      }
      forall m | m in pool && !On(m)
        ensures m.pNext == null && m.pPrev == null
      {
        PrioStillUnlinked(p, was, m);
      }
    }

    /** What a poll may touch, and where it comes from. */
    lemma BeforePoll(p: nat, was: seq<seq<Node>>)
      requires Valid() && p < TS_NUM_PRIORITIES && |was| == |lists|
      requires forall j | 0 <= j < |lists| :: was[j] == lists[j].nodes
      ensures forall m | m in prios[p].Nodes() :: m in pool || m in dummies
      ensures forall m | m in prios[p].Nodes() :: IsDummyOf(m, p) || InPrio(m, was, p)
      ensures forall m | InPrio(m, was, p) :: m in prios[p].Nodes()
      ensures forall m | m in pool && Nowhere(m, was) :: m !in prios[p].Nodes()
      ensures prios[p].mQtl.Valid()
    {
      hide DLL.Valid;
      PrioParts(p);
      LinkedIs(3 * p);
      LinkedIs(3 * p + 1);
      LinkedIs(3 * p + 2);
      assert Contained(lists[3 * p]) && Contained(lists[3 * p + 1]) && Contained(lists[3 * p + 2]);
    }

    lemma AfterPollOnly(p: nat, was: seq<seq<Node>>)
      requires Fixed() && p < TS_NUM_PRIORITIES && |was| == |lists|
      requires forall j, m | 0 <= j < |was| && m in was[j] :: m in pool
      requires forall j | 0 <= j < |lists| && j / 3 != p :: lists[j].nodes == was[j]
      requires forall m | m in prios[p].Nodes() :: IsDummyOf(m, p) || InPrio(m, was, p)
      ensures OnlyPolled(p, was)
    {
    }

    lemma ListsOfPrioValid(p: nat)
      requires Wired() && p < TS_NUM_PRIORITIES && prios[p].Valid()
      ensures forall j | 0 <= j < |lists| && j / 3 == p :: lists[j].Valid()
    {
      PrioParts(p);
      prios[p].Parts();
    }

    /**
     The first critical section of a pass: fills the execution queue. The three parts of a pass are
     methods of their own, so that any other operation may come between them, from a callback too.
     */
    method TakeBatch(p: nat, now: uint32)
      requires Valid() && p < TS_NUM_PRIORITIES
      modifies lists, pool, dummies, prios[p], prios[p].mQtl, prios[p].mQtl.arr
      ensures Valid() && prios[p].Valid()
      ensures prios[p].State() == AfterPoll(old(prios[p].State()), now)
      ensures prios[p].mQtl.Contents() == AfterTimers(old(prios[p].State()), now).batch
      ensures prios[p].executed == old(prios[p].executed)
      ensures forall j | 0 <= j < |lists| && j / 3 != p :: lists[j].nodes == old(lists[j].nodes)
    {
      hide *;
      FifteenLists();
      ListOk(0);
      PrioOk(p);
      FixedIsWired();
      PrioParts(p);
      OthersApart(p);
      ghost var was := Snapshot();
      BeforePoll(p, was);
      prios[p].TakeBatch(now);
      AfterPollOnly(p, was);
      ListsOfPrioValid(p);
      PrioQueue(p);
      PrioChanged(p, was);
    }

    /** The last priority, and no other, polls its iteration tasks: a poller on turn is taken by the next pass. */
    lemma IdlePollerIsTaken(p: nat, s: IdealPrio<Node>, now: int, lo: int, loIterations: int, x: Item<Node, Ideal>)
      requires Valid() && p < TS_NUM_PRIORITIES && prios[p].State() == LowerPrio(s)
      requires PrioInWindow(s, now, lo, loIterations) && x in s.iterations
      ensures s.idle <==> p == TS_NUM_PRIORITIES - 1
      ensures s.idle && PollerOnTurn(s, x) ==>
                var batch := AfterTimers(prios[p].State(), Wrap32(now)).batch;
                PollersBefore(s, x) < |batch| && batch[PollersBefore(s, x)] == ElementOf(Lower(x.key))
      ensures !s.idle ==> AfterPoll(prios[p].State(), Wrap32(now)).iterations == prios[p].State().iterations
    {
      hide *;
      ValidWired();
      IdleIs(p);
      LoweredIs(s);
      if s.idle && PollerOnTurn(s, x) {
        PollerOnTurnIsQueued(s, now, lo, loIterations, x);
      }
      if !s.idle {
        IterationsStay(prios[p].State(), Wrap32(now));
      }
    }

    lemma IdleIs(p: nat)
      requires Wired() && p < TS_NUM_PRIORITIES
      ensures prios[p].State().idle <==> p == TS_NUM_PRIORITIES - 1
    {
    }

    /** Runs one queued task; the lists stay as they are, and what is queued too. */
    method RunTask(p: nat, t: nat)
      requires Valid() && p < TS_NUM_PRIORITIES && t < QueuedTasks(p)
      modifies prios[p]
      ensures Valid() && prios[p].mQtl.Valid() && t < |prios[p].mQtl.Contents()|
      ensures prios[p].executed == old(prios[p].executed) + [prios[p].mQtl.Contents()[t]]
      ensures prios[p].Valid() && prios[p].State() == old(prios[p].State())
    {
      hide *;
      QueuedIs(p);
      PrioOk(p);
      prios[p].RunTask(t);
    }

    ghost function QueuedTasks(p: nat): nat
      requires Valid() && p < TS_NUM_PRIORITIES
      reads this, lists, pool, dummies, (set q | q in prios :: q.mQtl)
    {
      prios[p].mQtl.count
    }

    lemma QueuedIs(p: nat)
      requires Valid() && p < TS_NUM_PRIORITIES
      ensures p < |prios| && prios[p].mQtl.Valid() && QueuedTasks(p) == |prios[p].mQtl.Contents()|
    {
    }

    /** The last critical section of a pass. */
    method SleepTime(p: nat, now: uint32) returns (t: int)
      requires Valid() && p < TS_NUM_PRIORITIES
      ensures t == TimeToNextRun(prios[p].State(), now)
    {
      hide *;
      FifteenLists();
      PrioOk(p);
      t := prios[p].SleepTime(now);
    }

    /** One pass of a priority's worker that nobody disturbs; the other priorities' lists stay as they are. */
    method Poll(p: nat, now: uint32, later: uint32) returns (t: int)
      requires Valid() && p < TS_NUM_PRIORITIES
      modifies lists, pool, dummies, prios[p], prios[p].mQtl, prios[p].mQtl.arr
      ensures Valid()
      ensures prios[p].State() == AfterPoll(old(prios[p].State()), now) && t == TimeToNextRun(prios[p].State(), later)
      ensures prios[p].executed == old(prios[p].executed) + AfterTimers(old(prios[p].State()), now).batch
      ensures forall j | 0 <= j < |lists| && j / 3 != p :: lists[j].nodes == old(lists[j].nodes)
    {
      hide *;
      FifteenLists();
      ListOk(0);
      PrioOk(p);
      FixedIsWired();
      PrioParts(p);
      OthersApart(p);
      ghost var was := Snapshot();
      BeforePoll(p, was);
      t := prios[p].DoPoll(now, later);
      AfterPollOnly(p, was);
      ListsOfPrioValid(p);
      PrioQueue(p);
      PrioChanged(p, was);
    }

    lemma FixedIsWired()
      requires Fixed()
      ensures Wired()
    {
    }

    lemma PrioQueue(p: nat)
      requires p < |prios| && prios[p].Valid()
      ensures prios[p].mQtl.Valid()
    {
    }
  }

  lemma LoweredIs(s: IdealPrio<Node>)
    ensures LowerPrio(s).idle == s.idle
  {
    hide LowerAll;
  }

  lemma IterationsStay(s: Prio<Node>, now: uint32)
    requires !s.idle
    ensures AfterPoll(s, now).iterations == s.iterations
  {
    hide TakeOneShots, PollTimed;
  }

  lemma InsertedMembers(s: seq<Node>, p: nat, n: Node)
    requires p <= |s|
    ensures n in InsertAt(s, p, n)
    ensures forall m | m in InsertAt(s, p, n) :: m == n || m in s
    ensures forall m | m in s :: m in InsertAt(s, p, n)
  {
    InsertAtMembers(s, p, n);
  }
}
