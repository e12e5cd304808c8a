/**
 How long a one-shot can wait. A poll takes at most twelve members of the one-shot list from the
 front; one-shots leave the list, pollers stay where they are. A waiting task is followed by its
 position through any run of pushes, cancels and polls.
 */
module Fairness {
  import opened Ordering
  import opened TimedPoll
  import opened Batch

  type OneShotList = seq<Listed<nat>>

  datatype Op = Push(task: Listed<nat>) | Cancel(pos: nat) | Poll

  predicate IsPoller<I>(x: Listed<I>) {
    x.key.executionPeriod != 0
  }

  /** What a poll runs, and what it leaves listed. */
  function Ran(list: OneShotList): OneShotList {
    list[..TakeCount(list, 0, 0)]
  }

  function Left(list: OneShotList): OneShotList {
    Pollers(Ran(list)) + list[|Ran(list)|..]
  }

  /** The poll of the code runs and leaves just that. */
  lemma {:induction false} PollRunsFront(list: OneShotList)
    ensures TakeOneShots(list, 0, []) == Polled(Left(list), ElementsOf(Ran(list)))
  {
    hide Pollers, ElementsOf, TakeOneShots;
    OneShotsInOrder(list, 0, []);
    assert list[0..|Ran(list)|] == Ran(list) && list[..0] == [];
  }

  /** Pollers and one-shots in front of a position. */
  function PollersAhead(list: OneShotList, pos: nat): (q: nat)
    requires pos <= |list|
    ensures q <= pos
  {
    |Pollers(list[..pos])|
  }

  function OneShotsAhead(list: OneShotList, pos: nat): nat
    requires pos <= |list|
  {
    pos - PollersAhead(list, pos)
  }

  /** Where a task that the poll did not run is afterwards. */
  function PosAfterPoll(list: OneShotList, pos: nat): (r: nat)
    requires |Ran(list)| <= pos < |list|
    ensures r < |Left(list)| && |Ran(list)| == MAX_TASKS_PER_EXECUTION
  {
    PollersAhead(list, |Ran(list)|) + pos - |Ran(list)|
  }

  lemma {:induction false} PollersConcat<I>(s: seq<Listed<I>>, t: seq<Listed<I>>)
    ensures Pollers(s + t) == Pollers(s) + Pollers(t)
  {
    if s == [] {
      assert s + t == t;
    } else {
      assert (s + t)[1..] == s[1..] + t;
      PollersConcat(s[1..], t);
    }
  }

  lemma {:induction false} PollersOfPollers<I>(s: seq<Listed<I>>)
    ensures Pollers(Pollers(s)) == Pollers(s)
    ensures forall x | x in Pollers(s) :: IsPoller(x)
  {
    if s != [] {
      PollersOfPollers(s[1..]);
      PollersConcat(if IsPoller(s[0]) then [s[0]] else [], Pollers(s[1..]));
      assert [s[0]][1..] == [];
    }
  }

  lemma {:induction false} AheadMonotone(list: OneShotList, p: nat, pos: nat)
    requires p <= pos <= |list|
    ensures PollersAhead(list, p) <= PollersAhead(list, pos) <= PollersAhead(list, p) + (pos - p)
  {
    assert list[..pos] == list[..p] + list[p..pos];
    PollersConcat(list[..p], list[p..pos]);
  }

  /** A task that the poll did not run keeps the pollers in front of it and loses one-shots. */
  lemma {:induction false} PollMovesUp(list: OneShotList, pos: nat)
    requires |Ran(list)| <= pos < |list|
    ensures var pos' := PosAfterPoll(list, pos);
            && Left(list)[pos'] == list[pos]
            && PollersAhead(Left(list), pos') == PollersAhead(list, pos)
            && OneShotsAhead(Left(list), pos') ==
               OneShotsAhead(list, pos) - (MAX_TASKS_PER_EXECUTION - PollersAhead(list, MAX_TASKS_PER_EXECUTION))
  {
    hide Pollers;
    var pos' := PosAfterPoll(list, pos);
    var front, mid := list[..MAX_TASKS_PER_EXECUTION], list[MAX_TASKS_PER_EXECUTION..pos];
    assert Ran(list) == front;
    assert Left(list)[..pos'] == Pollers(front) + mid && list[..pos] == front + mid;
    PollersConcat(Pollers(front), mid);
    PollersOfPollers(front);
    PollersConcat(front, mid);
  }

  /** The poll runs the task at `pos`: its element is at `pos` of what is executed. */
  predicate RunsNow(list: OneShotList, pos: nat)
    requires pos < |list|
  {
    pos < |Ran(list)| && ElementsOf(Ran(list))[pos] == ElementOf(list[pos].key)
  }

  /** The first twelve are run, in their places. */
  lemma {:induction false} PollReaches(list: OneShotList, pos: nat)
    requires pos < |list|
    ensures RunsNow(list, pos) <==> pos < MAX_TASKS_PER_EXECUTION
    ensures pos < |Ran(list)| <==> pos < MAX_TASKS_PER_EXECUTION
  {
    if pos < |Ran(list)| {
      ElementAt(Ran(list), pos);
    }
  }

  lemma {:induction false} ElementAt(list: OneShotList, pos: nat)
    requires pos < |list|
    ensures ElementsOf(list)[pos] == ElementOf(list[pos].key)
  {
    if pos > 0 {
      ElementAt(list[1..], pos - 1);
    }
  }

  /** Cancelling another task brings a task no further back. */
  lemma {:induction false} CancelMovesUp(list: OneShotList, pos: nat, c: nat)
    requires pos < |list| && c < |list| && c != pos
    ensures var list', pos' := RemoveAt(list, c), if c < pos then pos - 1 else pos;
            && pos' < |list'| && list'[pos'] == list[pos]
            && PollersAhead(list', pos') <= PollersAhead(list, pos)
            && OneShotsAhead(list', pos') <= OneShotsAhead(list, pos)
  {
    hide Pollers;
    var list' := RemoveAt(list, c);
    if c < pos {
      var a, x, b := list[..c], [list[c]], list[c + 1..pos];
      assert list[..pos] == a + (x + b) && list'[..pos - 1] == a + b;
      PollersConcat(a, x + b);
      PollersConcat(x, b);
      PollersConcat(a, b);
    } else {
      assert list'[..pos] == list[..pos];
    }
  }

  // ---------------------------------------------------------------- the bound

  /** In this run the task at `pos` is cancelled, or sees no more than `n` polls until one of them runs it. */
  ghost predicate RunWithin(list: OneShotList, pos: nat, ops: seq<Op>, n: nat)
    requires pos < |list|
    decreases |ops|
  {
    ops == [] ||
    match ops[0]
    case Push(task) => RunWithin(list + [task], pos, ops[1..], n)
    case Cancel(c) =>
      if c >= |list| then RunWithin(list, pos, ops[1..], n)
      else c == pos || RunWithin(RemoveAt(list, c), if c < pos then pos - 1 else pos, ops[1..], n)
    case Poll =>
      && n > 0
      && (RunsNow(list, pos)
          || (pos >= |Ran(list)| && RunWithin(Left(list), PosAfterPoll(list, pos), ops[1..], n - 1)))
  }

  lemma OneLess(n: nat, d: nat)
    requires n > 0
    ensures (n - 1) * d == n * d - d
  {
  }

  lemma MoreRoom(n: nat, d: nat, d': nat)
    requires d <= d'
    ensures n * d <= n * d'
  {
  }

  lemma QuotientBound(k: nat, d: nat)
    requires d > 0
    ensures k < (k / d + 1) * d && (k / d) * d <= k
  {
  }

  /** With q < 12 pollers ahead every poll serves at least 12 - q of the one-shots ahead. */
  lemma {:induction false} RunWithinBound(list: OneShotList, pos: nat, ops: seq<Op>, n: nat)
    requires pos < |list| && PollersAhead(list, pos) < MAX_TASKS_PER_EXECUTION
    requires OneShotsAhead(list, pos) < n * (MAX_TASKS_PER_EXECUTION - PollersAhead(list, pos))
    ensures RunWithin(list, pos, ops, n)
    decreases |ops|
  {
    if ops == [] {
      return;
    }
    hide Pollers, PollersAhead, OneShotsAhead, Left, Ran, RunsNow;
    PollReaches(list, pos);
    var d := MAX_TASKS_PER_EXECUTION - PollersAhead(list, pos);
    match ops[0] {
      case Push(task) =>
        AheadSame(list, task, pos);
        RunWithinBound(list + [task], pos, ops[1..], n);
      case Cancel(c) =>
        if c >= |list| {
          RunWithinBound(list, pos, ops[1..], n);
        } else if c != pos {
          var list', pos' := RemoveAt(list, c), if c < pos then pos - 1 else pos;
          CancelMovesUp(list, pos, c);
          MoreRoom(n, d, MAX_TASKS_PER_EXECUTION - PollersAhead(list', pos'));
          RunWithinBound(list', pos', ops[1..], n);
        }
      case Poll =>
        if pos >= MAX_TASKS_PER_EXECUTION {
          PollMovesUp(list, pos);
          AheadMonotone(list, MAX_TASKS_PER_EXECUTION, pos);
          OneLess(n, d);
          RunWithinBound(Left(list), PosAfterPoll(list, pos), ops[1..], n - 1);
        }
    }
  }

  lemma AheadSame(list: OneShotList, task: Listed<nat>, pos: nat)
    requires pos < |list|
    ensures PollersAhead(list + [task], pos) == PollersAhead(list, pos)
    ensures OneShotsAhead(list + [task], pos) == OneShotsAhead(list, pos)
  {
    assert (list + [task])[..pos] == list[..pos];
  }

  /**
   Bounded waiting: with q < 12 pollers and k one-shots ahead, a task runs within
   floor(k / (12 - q)) + 1 polls, whatever is pushed and cancelled meanwhile, unless it is cancelled.
   */
  lemma {:induction false} BoundedWaiting(list: OneShotList, pos: nat, ops: seq<Op>)
    requires pos < |list| && PollersAhead(list, pos) < MAX_TASKS_PER_EXECUTION
    ensures RunWithin(list, pos, ops,
                      OneShotsAhead(list, pos) / (MAX_TASKS_PER_EXECUTION - PollersAhead(list, pos)) + 1)
  {
    var d := MAX_TASKS_PER_EXECUTION - PollersAhead(list, pos);
    QuotientBound(OneShotsAhead(list, pos), d);
    RunWithinBound(list, pos, ops, OneShotsAhead(list, pos) / d + 1);
  }

  predicate NoCancels(ops: seq<Op>) {
    forall op | op in ops :: !op.Cancel?
  }

  function PollCount(ops: seq<Op>): nat {
    if ops == [] then 0 else PollCount(ops[1..]) + if ops[0].Poll? then 1 else 0
  }

  /** Twelve pollers ahead, and a task is out of reach for ever. */
  lemma {:induction false} StarvedBehindTwelve(list: OneShotList, pos: nat, ops: seq<Op>, n: nat)
    requires pos < |list| && PollersAhead(list, pos) >= MAX_TASKS_PER_EXECUTION && NoCancels(ops)
    ensures RunWithin(list, pos, ops, n) <==> PollCount(ops) <= n
    decreases |ops|
  {
    if ops != [] {
      assert ops[0] in ops && forall op | op in ops[1..] :: op in ops;
      hide Pollers, PollersAhead, Left, Ran, RunsNow;
      PollReaches(list, pos);
      match ops[0] {
        case Push(task) =>
          AheadSame(list, task, pos);
          StarvedBehindTwelve(list + [task], pos, ops[1..], n);
        case Poll =>
          assert pos >= MAX_TASKS_PER_EXECUTION;
          PollMovesUp(list, pos);
          if n > 0 {
            StarvedBehindTwelve(Left(list), PosAfterPoll(list, pos), ops[1..], n - 1);
          }
      }
    }
  }

  /** Some number of polls is enough, whatever is pushed in between. */
  ghost predicate RunsEventually(list: OneShotList, pos: nat)
    requires pos < |list|
  {
    exists n :: RunsWithin(list, pos, n)
  }

  ghost predicate RunsWithin(list: OneShotList, pos: nat, n: nat)
    requires pos < |list|
  {
    forall ops | NoCancels(ops) :: RunWithin(list, pos, ops, n)
  }

  lemma {:induction false} PollsCounted(n: nat)
    ensures var ops := seq(n, _ => Op.Poll); NoCancels(ops) && PollCount(ops) == n
  {
    var ops := seq(n, _ => Op.Poll);
    if n > 0 {
      PollsCounted(n - 1);
      assert ops[1..] == seq(n - 1, _ => Op.Poll);
    }
  }

  /** A listed task is sure to run iff fewer than twelve pollers are ahead of it. */
  lemma {:induction false} RunsIffFewPollersAhead(list: OneShotList, pos: nat)
    requires pos < |list|
    ensures RunsEventually(list, pos) <==> PollersAhead(list, pos) < MAX_TASKS_PER_EXECUTION
  {
    hide PollersAhead, RunWithin, NoCancels;
    if PollersAhead(list, pos) < MAX_TASKS_PER_EXECUTION {
      var n := OneShotsAhead(list, pos) / (MAX_TASKS_PER_EXECUTION - PollersAhead(list, pos)) + 1;
      forall ops | NoCancels(ops)
        ensures RunWithin(list, pos, ops, n)
      {
        BoundedWaiting(list, pos, ops);
      }
      assert RunsWithin(list, pos, n);
    } else {
      forall n: nat
        ensures !RunsWithin(list, pos, n)
      {
        var ops := seq(n + 1, _ => Op.Poll);
        PollsCounted(n + 1);
        StarvedBehindTwelve(list, pos, ops, n);
      }
    }
  }

  // ---------------------------------------------------------------- the bound is attained

  ghost predicate PollersFirst(list: OneShotList, q: nat, pos: nat)
    requires q <= pos <= |list|
  {
    (forall i | 0 <= i < q :: IsPoller(list[i])) && forall i | q <= i < pos :: !IsPoller(list[i])
  }

  lemma {:induction false} AllPollers(s: OneShotList)
    ensures (forall i | 0 <= i < |s| :: IsPoller(s[i])) ==> Pollers(s) == s
    ensures (forall i | 0 <= i < |s| :: !IsPoller(s[i])) ==> Pollers(s) == []
  {
    if s != [] {
      AllPollers(s[1..]);
    }
  }

  lemma {:induction false} PollersFirstCount(list: OneShotList, q: nat, p: nat, pos: nat)
    requires q <= p <= pos <= |list| && PollersFirst(list, q, pos)
    ensures Pollers(list[..p]) == list[..q]
  {
    assert list[..p] == list[..q] + list[q..p];
    hide Pollers;
    PollersConcat(list[..q], list[q..p]);
    AllPollers(list[..q]);
    AllPollers(list[q..p]);
  }

  /** With the pollers in front, the task is still waiting after floor(k / (12 - q)) polls. */
  lemma {:induction false} BoundAttained(list: OneShotList, q: nat, pos: nat, n: nat)
    requires q <= pos < |list| && q < MAX_TASKS_PER_EXECUTION && PollersFirst(list, q, pos)
    requires n * (MAX_TASKS_PER_EXECUTION - q) <= pos - q
    ensures OneShotsAhead(list, pos) == pos - q
    ensures !RunWithin(list, pos, seq(n + 1, _ => Op.Poll), n)
    decreases n
  {
    var ops := seq(n + 1, _ => Op.Poll);
    PollersFirstCount(list, q, pos, pos);
    assert OneShotsAhead(list, pos) == pos - q;
    PollReaches(list, pos);
    if n > 0 {
      assert ops[1..] == seq(n, _ => Op.Poll);
      OneLess(n, MAX_TASKS_PER_EXECUTION - q);
      MoreRoom(MAX_TASKS_PER_EXECUTION - q, 1, n);
      assert pos >= MAX_TASKS_PER_EXECUTION;
      PollersFirstCount(list, q, MAX_TASKS_PER_EXECUTION, pos);
      assert PosAfterPoll(list, pos) == pos - (MAX_TASKS_PER_EXECUTION - q);
      BoundAttained(Left(list), q, PosAfterPoll(list, pos), n - 1);
    }
  }

  // ---------------------------------------------------------------- first in, first out

  /** In this run the task at `j` is never run before the one at `i`, while both are listed. */
  ghost predicate NeverOvertakes(list: OneShotList, i: nat, j: nat, ops: seq<Op>)
    requires i < |list| && j < |list|
    decreases |ops|
  {
    ops == [] ||
    match ops[0]
    case Push(task) => NeverOvertakes(list + [task], i, j, ops[1..])
    case Cancel(c) =>
      c == i || c == j || c >= |list| ||
      NeverOvertakes(RemoveAt(list, c), if c < i then i - 1 else i, if c < j then j - 1 else j, ops[1..])
    case Poll =>
      && (RunsNow(list, j) ==> RunsNow(list, i) && i < j)
      && (RunsNow(list, i) ||
          (i >= |Ran(list)| && j >= |Ran(list)|
           && NeverOvertakes(Left(list), PosAfterPoll(list, i), PosAfterPoll(list, j), ops[1..])))
  }

  /** One-shots run in the order of the list, which is the order in which they were pushed. */
  lemma {:induction false} RunInOrder(list: OneShotList, i: nat, j: nat, ops: seq<Op>)
    requires i < j < |list|
    ensures NeverOvertakes(list, i, j, ops)
    decreases |ops|
  {
    if ops != [] {
      hide RunsNow, Ran, Pollers, Left;
      PollReaches(list, i);
      PollReaches(list, j);
      match ops[0] {
        case Push(task) => RunInOrder(list + [task], i, j, ops[1..]);
        case Cancel(c) =>
          if c != i && c != j && c < |list| {
            RunInOrder(RemoveAt(list, c), if c < i then i - 1 else i, if c < j then j - 1 else j, ops[1..]);
          }
        case Poll =>
          if i >= MAX_TASKS_PER_EXECUTION {
            PollMovesUp(list, i);
            PollMovesUp(list, j);
            RunInOrder(Left(list), PosAfterPoll(list, i), PosAfterPoll(list, j), ops[1..]);
          }
      }
    }
  }
}
