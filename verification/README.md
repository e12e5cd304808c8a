# A verified model of the run-to-completion task scheduler and the structures beneath it

The repository is a portable run-to-completion task framework: a task scheduler in which each priority
has one worker task, the intrusive lists, byte queue and OS primitives it rests on, a buffered
transaction queue, and a set of checks, cipher modes and calendar conversions. This project models that
code in Dafny and proves what it is relied on for.

`dafny verify dfyconfig.toml` checks the whole project.

## What is modelled

**Lists** (`Common`, `Ordering`, `Rings`, `DList`, `SList`). The doubly and the singly linked circular list are
classes over real nodes; each method is proved to leave a well-formed ring whose nodes are a function of
the old sequence. The laws of sorted insertion and of the two list sorts are proved about those
functions: both inserts put an element into the same place, the sort that drains its temporary list from
the front is stable, and the one that drains from the back reverses equal keys.

**Scheduler** (`Words`, `TimedPoll`, `Batch`, `TaskSched`, `Scheduler`, `Fairness`, `TimerService`). The 32-bit clock
arithmetic, the walk over a timer list that puts tasks back into the list it is walking, and a whole poll
are methods over the linked lists, proved against functions on sequences. These refine a scheduler on
unbounded times over any run whose times in play span less than 2^31 at each step. A poll runs exactly
the first twelve of what is ready; how long a one-shot can wait is bounded, and the bound is attained; a
timer waits until a poll finds it due with fewer than twelve others ahead of it.
`Scheduler` puts five priorities together and shows that the one-pointer test and the search through all
fifteen lists agree, and so do the two ways to cancel.

**Wake-up and rescheduling** (`WakeUp`, `Rescheduler`). State machines over the code's critical sections
and over every access made outside one. No interleaving of a worker with adders, cancellers, triggers and
enables loses a wake-up or an event; no interleaving of a rescheduler with the worker runs its function twice for one
request or after it was withdrawn. The rescheduler's methods are also given as code on words, which takes
the steps of the protocol.

**Synchronisation** (`RecMutex`, `CntSem`). A recursive mutex whose owner test reads shared variables
without a lock, at the grain of single accesses, and a bounded counting semaphore with a shadow count.

**Byte queue** (`Circular`, `ByteQ`, `Q`, `Spsc`). The ring buffer with chunked copies and 32-bit counters
that pass below zero on their way, against a queue of bytes; typed queues over it; and one writer and one
reader interleaved byte by byte. What they exchange is right iff both protections of the count are switched
on, but a read looks at the count twice and can even so return more than it was asked for.

**Transactions** (`BufIOQueue`). One direction of the buffered interface: ownership, order, exactly one
completion, whole payloads unless a flush or an early commit cuts them, and 31-bit deadlines. Critical
sections and callbacks are steps of their own, and so are the two unlocked looks of a purge at the current
transaction.

**Checks, modes, dates** (`Crc`, `CipherModes`, `Calendar`). Fast CRC forms against registers that take
one bit at a time, streaming cipher modes over an arbitrary block function, and the calendar conversion
with its printer and parser.

Critical sections (`OSALEnterTaskCritical`, `OSALEnterCritical`) are single steps. The clock is an
unbounded integer of which the code sees the low 32 bits, or a parameter where code reads it. Running a
callback is recorded by appending to a ghost log. The multi-task build is modelled.

## What turned out not to hold

- Between one writer and one reader of a byte queue the bytes read are a prefix of those written only with
  both `lockOnWrites` and `lockOnReads`: `Spsc.WriterUnprotected` and `Spsc.ReaderUnprotected` give the runs
  that break it.
- Even with both, a read can return more bytes than it was asked for, past the end of its caller's buffer:
  `MIN(pQ->nCount, nLen)` looks at the count twice, as a macro and as a function of references, and a write
  may come in between (`Spsc.ReadOverruns`; a compiler may merge the two looks). A read returns at most what
  was asked for iff its first look finds as much or its second no more (`Spsc.ReadKeepsToItsLengthIff`); a
  caller is sure of it iff its buffer is as large as the queue (`Spsc.ReadContainedIff`).
- The comment at `sop_src/utils/crc.cpp:157` says that the table-driven CRC is not compatible with
  `CRC_32`; with its default arguments it is the same function (`Crc.CRC_32_FAST`).
- A failed post of the counting semaphore is counted as if it had been made. The shadow count is right iff
  no post has failed (`CntSem.CountIsRightIffPostsSucceed`), and a semaphore of any maximum can be brought
  to where it never gives out a token again (`CntSem.SemaphoreCanDie`).
- A transaction's timeout is kept iff it is shorter than 2^30 milliseconds or none
  (`BufIOQueues.TimeoutIsKept`). A longer one is taken for over whenever 2^30 to 2^31 milliseconds of it,
  modulo 2^31, are left (`BufIOQueues.ExpiryIsExact`).
- A purge tests the current transaction without a lock and then flushes whatever is current. It can flush a
  transaction that was not sent and has time left, when the driver finishes the tested one in between
  (`BufIOQueues.FlushTakesAnother`); `BufIOQueues.PurgesAreExact` says exactly when its flush is right.
- The documented formats `YYYYMMDDHH[MM[SS[.fff]]]Z` and `YYMMDDHH[MM[SS[.fff]]]Z` have optional minutes
  and seconds. No date without its seconds is read back: without them every field is read two places off,
  without minutes four (`Calendar.FormReadRightlyIff`). Without seconds a year that ends in 00 is read as
  month 00, that is month -1 of an enumeration that begins at 0, for which the result is undefined.
- Of the years before 1970 the code counts the days rightly only for every fourth
  (`Calendar.CountsBackInCycles`).
- The calendar has a 29 February 2100 (`Calendar.GregorianUntil2100`).
- A wait can outlast a listed timer iff it starts later than its timeout was computed
  (`WakeUp.OversleepsIffLate`), and then by no more than the time in between (`WakeUp.NoLostWakeUp`).
- Twelve pollers at the head of a one-shot list starve everything behind them
  (`Fairness.RunsIffFewPollersAhead`), and twelve anywhere in it every timer and iteration task of the
  priority (`TimerService.PollersStarveTheRest`).
- `DLL_SortList` reverses equal keys where `SLL_SortList` keeps them in order.

## Model

| member | source | states |
|---|---|---|
| `Ordering.FrontPos` | sop_src/utils/dl_list.cpp:191-230 | the walk of a sorted insert stops before the first element that the key is strictly below, and passes every element it is not below |
| `Ordering.BackPos` | sop_src/utils/dl_list.cpp:237-265 | the walk from the back stops behind the last element that is not above the key |
| `Ordering.FrontAndBackAgree` | sop_src/utils/dl_list.cpp:191-265 | for any comparator that is a total preorder, both inserts put an element into the same place of a sorted list |
| `Ordering.InsertSorted` | sop_src/utils/dl_list.cpp:191-230 | an insert keeps a sorted list sorted and adds exactly the new element |
| `Ordering.InsertStable` | sop_src/utils/dl_list.cpp:191-230 | elements of equal keys stay in order of arrival: the new one goes behind its equals |
| `Ordering.SortFromFrontStable` | sop_src/utils/sl_list.cpp:360-378 | sorting by popping from the front is a stable sort: sorted, a permutation, each class of equal keys in its old order |
| `Ordering.SortFromBackReverses` | sop_src/utils/dl_list.cpp:368-386 | sorting by popping from the back is sorted and a permutation, but each class of equal keys comes out in reverse order |
| `Ordering.SortedDetermined` | sop_src/utils/sl_list.cpp:360-378 | sortedness, permutation and the order within classes of equal keys determine a list completely, so the two laws above pin the sorts down |
| `Ordering.InsertAllIsSort` | sop_src/utils/dl_list.cpp:368-386 | draining a temporary list, from either end, into an empty list computes the corresponding sort |
| `Rings.RingInsert` | sop_src/utils/dl_list.cpp:338-364 | in a circular list an insertion changes the links of the new node and of its two neighbours and of no other node |
| `Rings.RingRemove` | sop_src/utils/dl_list.cpp:314-323 | a removal changes the links of the two neighbours only |
| `Rings.RingAppend` | sop_src/utils/dl_list.cpp:56-68 | joining two rings changes the links at the two seams only |
| `DLists.DLL.constructor` | sop_src/utils/dl_list.cpp:12-19 | a new list is a well-formed empty ring |
| `DLists.DLL.IsEmpty` | sop_src/utils/dl_list.cpp:112-116 | one pointer test tells whether there are no nodes |
| `DLists.DLL.GetFront` | sop_src/utils/dl_list.cpp:120-128 | the first node, or null |
| `DLists.DLL.GetBack` | sop_src/utils/dl_list.cpp:132-140 | the last node, or null |
| `DLists.DLL.PushBack` | sop_src/utils/dl_list.cpp:23-34 | a loose node becomes the last one; the ring stays well formed in both directions |
| `DLists.DLL.PushFront` | sop_src/utils/dl_list.cpp:38-50 | a loose node becomes the first one |
| `DLists.DLL.NodeInsertBefore` | sop_src/utils/dl_list.cpp:338-350 | a loose node is put in before a listed one |
| `DLists.DLL.NodeInsertAfter` | sop_src/utils/dl_list.cpp:353-364 | a loose node is put in behind a listed one |
| `DLists.DLL.SortedInsert` | sop_src/utils/dl_list.cpp:191-230 | the pointer code computes the insertion at `FrontPos` on the nodes and their keys |
| `DLists.DLL.SortedInsertFromBack` | sop_src/utils/dl_list.cpp:237-265 | the pointer code computes the insertion at `BackPos` |
| `DLists.DLL.PopFront` | sop_src/utils/dl_list.cpp:278-287 | the first node is returned loose and the others stay in order; null for an empty list |
| `DLists.DLL.PopBack` | sop_src/utils/dl_list.cpp:291-300 | the last node is returned loose and the others stay in order; null for an empty list |
| `DLists.DLL.IsListed` | sop_src/utils/dl_list.cpp:98-108 | the walk finds a node iff it is in the list |
| `DLists.DLL.AppendListToBack` | sop_src/utils/dl_list.cpp:56-68 | all nodes of the other list move behind this one's, in order, and the other list is left empty |
| `DLists.DLL.SortList` | sop_src/utils/dl_list.cpp:368-386 | the list ends up as `SortFromBack` of its old items, whose laws are those of `SortFromBackReverses` |
| `DLists.NodeUnlist` | sop_src/utils/dl_list.cpp:314-323 | by its own pointers alone a node leaves whatever list it is in, ends with null links, and the list stays well formed |
| `SLists.SLL.PushBack` | sop_src/utils/sl_list.cpp:24-35 | a loose node becomes the last one and the last pointer follows |
| `SLists.SLL.PushFront` | sop_src/utils/sl_list.cpp:39-53 | a loose node becomes the first one; the last pointer moves only if the list was empty |
| `SLists.SLL.AppendListToBack` | sop_src/utils/sl_list.cpp:58-76 | all nodes of the other list move behind this one's and the other list is left empty |
| `SLists.SLL.IsListed` | sop_src/utils/sl_list.cpp:100-110 | the walk finds a node iff it is in the list |
| `SLists.SLL.NodeInsertAfter` | sop_src/utils/sl_list.cpp:348-356 | a loose node is put in behind one that is not the last, which keeps the last pointer right |
| `SLists.SLL.SortedInsert` | sop_src/utils/sl_list.cpp:198-236 | the pointer code computes the insertion at `FrontPos`, last pointer included |
| `SLists.SLL.NodeUnlistQuick` | sop_src/utils/sl_list.cpp:240-261 | a node is taken off iff it stands behind the given one; otherwise nothing changes |
| `SLists.SLL.NodeUnlist` | sop_src/utils/sl_list.cpp:265-288 | the search for the predecessor takes a node off iff it is in this list; a node of another list or of none is left alone |
| `SLists.SLL.PopFront` | sop_src/utils/sl_list.cpp:301-318 | the first node is returned pointing at itself, and the last pointer is right even for the only node |
| `SLists.SLL.PopBack` | sop_src/utils/sl_list.cpp:322-336 | the last node is returned pointing at itself, and the last pointer moves to its predecessor |
| `SLists.SLL.SortList` | sop_src/utils/sl_list.cpp:360-378 | the list ends up as `SortFromFront` of its old items: a stable sort |
| `Words.SignedDifferenceExact` | sop_src/task_sched/task_sched.cpp:471-477 | the signed difference of two 32-bit time stamps is the difference of the times iff these are within half the counter's range |
| `TimedPoll.FrontPosRefines` | sop_src/task_sched/task_sched.cpp:471-477 | within a window of 2^31 the sorted insert on words finds the same place as one on unbounded times |
| `TimedPoll.RearmRefines` | sop_src/task_sched/task_sched.cpp:514-534 | within the window the next due time computed on words is that of the unbounded one |
| `TimedPoll.RearmIsFuture` | sop_src/task_sched/task_sched.cpp:517-531 | a periodic task is rearmed strictly in the future |
| `TimedPoll.TurnRefines` | sop_src/task_sched/task_sched.cpp:488-550 | one turn of the walk, which puts a task back into the list it is walking, leaves the list and the cursor where the unbounded service does |
| `TimedPoll.PollRefines` | sop_src/task_sched/task_sched.cpp:481-551 | the whole walk on 32-bit words queues the same tasks and leaves the same list as the service on unbounded times |
| `TimedPoll.RunRefines` | sop_src/task_sched/task_sched.cpp:471-551 | over any run of adds, cancels and polls, across any number of counter wraps, the scheduler on words is the one on unbounded times |
| `TimedPoll.PollServes` | sop_src/task_sched/task_sched.cpp:481-551 | closed form: the first due tasks up to the free room are queued, each once and in due order, never an early one; the rest keep their order and the periodic ones come back sorted in |
| `TimedPoll.PollKeepsSorted` | sop_src/task_sched/task_sched.cpp:481-551 | a poll leaves the list sorted, and with room to spare only tasks of the future |
| `TimedPoll.RunKeepsTask` | sop_src/task_sched/task_sched.cpp:481-551 | over any run of adds, cancels and polls that leaves a listed periodic task alone, it stays listed once, each poll that queues it finds it due, and its due time follows from the times of these polls |
| `TimedPoll.GridKeptOverRun` | sop_src/task_sched/task_sched.cpp:517-531 | after such a run, in which k polls queued the task, it is due at start + k * period iff each of these polls came less than one period after its grid point |
| `TaskSched.PutBack` | sop_src/task_sched/task_sched.cpp:514-534 | rearms a node and sorts it back in |
| `TaskSched.PollTimedList` | sop_src/task_sched/task_sched.cpp:481-551 | the walk over the linked list, which modifies the list it walks, terminates and computes `PollTimed` |
| `TaskSched.TaskSchedQueue.PushBack` | sop_src/task_sched/task_sched.cpp:124-138 | appends the task's function, its argument and whether it is periodic; a full queue drops it |
| `TaskSched.TaskSchedQueue.Clear` | sop_src/task_sched/task_sched.cpp:144-146 | empties the queue |
| `Batch.OneShotsInOrder` | sop_src/task_sched/task_sched.cpp:353-374 | the first one-shots up to the free room are queued once each in list order; those without a period are unlisted, pollers stay in place, the rest is untouched |
| `Batch.BatchIsFirstTwelve` | sop_src/task_sched/task_sched.cpp:341-418 | a poll runs exactly the first twelve or fewer of: one-shots in list order, then due iteration tasks (idle priority), then due timers unless this millisecond was polled already |
| `Batch.PollCallsTheReady` | sop_src/task_sched/task_sched.cpp:341-418 | the i-th task that a poll executes is the i-th of those that are ready: its function is called with its own argument, and twelve are executed or all of them |
| `Batch.TimersOnceAMillisecond` | sop_src/task_sched/task_sched.cpp:382-388 | a poll that polled the timers leaves them to the next millisecond |
| `TaskSched.TakeOneShotsList` | sop_src/task_sched/task_sched.cpp:350-374 | the walk over the linked one-shot list computes `TakeOneShots`; its loop keeps room in the queue at every push, so the dropping branch is not taken |
| `TaskSched.TaskSchedPrio.PollOneShots` | sop_src/task_sched/task_sched.cpp:350-374 | one-shots are taken whatever else is due; the other lists stay |
| `TaskSched.TaskSchedPrio.PollIterations` | sop_src/task_sched/task_sched.cpp:376-380 | iteration tasks are polled at idle priority only and only into a queue with room |
| `TaskSched.TaskSchedPrio.PollTimers` | sop_src/task_sched/task_sched.cpp:382-388 | timers are polled once a millisecond and only into a queue with room |
| `TaskSched.TaskSchedPrio.TakeBatch` | sop_src/task_sched/task_sched.cpp:343-389 | the first critical section of a poll, from any valid state: the lists become those of the poll specification and the execution queue holds its batch |
| `TaskSched.TaskSchedPrio.RunTask` | sop_src/task_sched/task_sched.cpp:394-416 | running a queued task records it and touches neither lists nor queue |
| `TaskSched.TaskSchedPrio.SleepTime` | sop_src/task_sched/task_sched.cpp:420-436 | 0 if one-shots or iteration tasks are listed, -1 if nothing is, and for timers alone the difference between the first one's word and the clock's, or 0 if it is negative |
| `TaskSched.TaskSchedPrio.DoPoll` | sop_src/task_sched/task_sched.cpp:341-437 | the parts of a poll one after the other: the heap code executes the batch of the poll specification in order, leaves its three lists, and gives dropped nodes null links |
| `WakeUp.SleepTimeIsRight` | sop_src/task_sched/task_sched.cpp:420-432 | the sleep time computed on words is no longer than the time left to every listed timer |
| `WakeUp.SleepTimeIsExact` | sop_src/task_sched/task_sched.cpp:420-432 | on unbounded time: with one-shots or iteration tasks listed the sleep time is 0, with nothing listed -1, and with timers alone the time left to the first of them if that is positive and 0 otherwise, which is the least over all |
| `WakeUp.WaitIsExact` | sop_src/task_sched/task_sched.cpp:562-566 | the wait that a worker computes after its tasks is that time, for the lists as they are then |
| `WakeUp.WaitEnds` | sop_src/osal/osal_posix.cpp:382-427 | a wait ends with a token or when its timeout is over; it may end early, but not an endless one |
| `WakeUp.InsertKeepsFront` | sop_src/task_sched/task_sched.cpp:783-814 | a timer that does not become the front is not earlier than the front, so no signal is needed for it |
| `WakeUp.PollRefinesCode` | sop_src/task_sched/task_sched.cpp:341-389 | the poll step of the protocol is the poll of `Batch`, read on unbounded times |
| `WakeUp.WorkerPolls` | sop_src/task_sched/task_sched.cpp:341-389 | the worker at its poll takes the lists and the batch that the code takes |
| `WakeUp.OthersTakeTheCodesSteps` | sop_src/task_sched/task_sched.cpp:741-814 | an added or cancelled task changes one list, on words, as the code does; no other step but those of the worker changes any |
| `WakeUp.StepKeepsInv` | sop_src/task_sched/task_sched.cpp:555-589 | every step of worker, adders, cancellers, triggers, enables and clock keeps the protocol's invariant |
| `WakeUp.EventsAreHandedOver` | sop_src/task_sched/task_sched.cpp:441-447 | a trigger makes its event pending, nothing else does, and an event leaves the mask only into the set that the worker then fires, which holds nothing else |
| `WakeUp.TriggeredIsFired` | sop_src/task_sched/task_sched.cpp:1061-1073 | after any run from a trigger on, its event is still pending or was fired since |
| `WakeUp.FiredNoMoreThanTriggered` | sop_src/task_sched/task_sched.cpp:441-461 | over any run an event is fired no more often than it was triggered |
| `WakeUp.FireEvents` | sop_src/task_sched/task_sched.cpp:449-461 | the functions of exactly the collected events are called, each once, in the order of their registration |
| `WakeUp.NoLostWakeUp` | sop_src/task_sched/task_sched.cpp:555-571 | after any run a worker asleep without a token has no event pending, no one-shot listed (or timeout 0), and a timeout no longer than the time there was to any timer still listed |
| `WakeUp.OversleepsIffLate` | sop_src/task_sched/task_sched.cpp:562-566 | some run from the start leads into a wait of a positive timeout that outlasts a listed timer iff the wait starts later than its timeout was computed |
| `WakeUp.SleeperServesWork` | sop_src/task_sched/task_sched.cpp:555-571 | an enabled sleeper with work listed or pending, left alone, is at its next poll within five of its own steps, and in the step before it fires exactly the events that were pending |
| `WakeUp.EnabledSleeperPolls` | sop_src/task_sched/task_sched.cpp:575-589 | a worker that fell asleep disabled, left alone, comes back once an enable has finished, and first fires exactly the pending events |
| `WakeUp.EnableWakes` | sop_src/task_sched/task_sched.cpp:575-582 | an enable of a sleeping disabled priority has its worker at its poll in five steps |
| `WakeUp.DisabledRunsNothing` | sop_src/task_sched/task_sched.cpp:555-571 | over any run without an enable, the worker of a disabled priority, once at rest, fires and runs nothing |
| `WakeUp.OneShotsAreServed` | sop_src/task_sched/task_sched.cpp:348-374 | wherever the worker of an enabled priority is, left alone it takes the first twelve listed one-shots, in order, within eight of its own steps |
| `Fairness.PollRunsFront` | sop_src/task_sched/task_sched.cpp:348-374 | what a poll runs and leaves of the one-shot list is its first twelve and the rest with the pollers in front |
| `Fairness.BoundedWaiting` | sop_src/task_sched/task_sched.cpp:348-374 | with q < 12 pollers and k one-shots ahead a task runs within floor(k / (12 - q)) + 1 polls, whatever is pushed or cancelled meanwhile |
| `Fairness.BoundAttained` | sop_src/task_sched/task_sched.cpp:348-374 | the bound cannot be lowered: with the pollers in front, floor(k / (12 - q)) polls are not enough |
| `Fairness.RunsIffFewPollersAhead` | sop_src/task_sched/task_sched.cpp:979-983 | a listed task is sure to run iff fewer than twelve pollers are ahead of it |
| `Fairness.StarvedBehindTwelve` | sop_src/task_sched/task_sched.cpp:979-983 | behind twelve pollers a task is never reached |
| `TimerService.PrioRunRefines` | sop_src/task_sched/task_sched.cpp:341-551 | over any run of pushes, adds, cancels and polls whose times fit at each step, one priority of the code, all three lists on words, is the one on unbounded time |
| `TimerService.TimerWaitsForItsTurn` | sop_src/task_sched/task_sched.cpp:341-418 | over any run that neither adds nor cancels it, a timer is still listed with its due time iff no poll of the run, in a new millisecond, found it due with fewer than twelve one-shots, due iteration tasks (idle priority) and earlier timers ahead of it; after such a poll it is off the list or due later |
| `TimerService.OnTurnIsQueued` | sop_src/task_sched/task_sched.cpp:341-418 | the poll that finds a timer on turn executes it right behind everything that is ahead of it |
| `TimerService.PollerOnTurnIsQueued` | sop_src/task_sched/task_sched.cpp:376-380 | the next poll of the idle priority executes an iteration task that is due, right behind the one-shots and the earlier iteration tasks, if they are fewer than twelve |
| `TimerService.PollersStarveTimers` | sop_src/task_sched/task_sched.cpp:348-374 | with twelve pollers on the one-shot list no poll of any run finds a timer on turn |
| `TimerService.PollersStarveTheRest` | sop_src/task_sched/task_sched.cpp:348-374 | with twelve pollers on the one-shot list a poll after any run leaves iteration tasks and timers alone |
| `Fairness.RunInOrder` | sop_src/task_sched/task_sched.cpp:756-762 | one-shots run in the order in which they were pushed, over any run |
| `Scheduler.TaskScheduler.FastCheck` | sop_src/task_sched/task_sched.cpp:1134-1167 | a schedulable is on at most one of the fifteen lists, and its own pointers tell whether it is on one |
| `Scheduler.TaskScheduler.IsListed` | sop_src/task_sched/task_sched.cpp:1161-1167 | the one-pointer test is right |
| `Scheduler.TaskScheduler.IsScheduled` | sop_src/task_sched/task_sched.cpp:1134-1156 | the search through all lists is right, hence equal to the fast test |
| `Scheduler.TaskScheduler.Cancel` | sop_src/task_sched/task_sched.cpp:1100-1110 | returns whether the task was listed and takes it off, leaving every other list and the order of its own as they were |
| `Scheduler.TaskScheduler.CancelScheduledTask` | sop_src/task_sched/task_sched.cpp:1114-1130 | the cancel by pointers has the same result and the same effect |
| `Scheduler.TaskScheduler.AddTimerFn` | sop_src/task_sched/task_sched.cpp:732-822 | without period and offset the task goes behind the one-shots, otherwise with its due time into its place among the timers; nothing else changes |
| `Scheduler.TaskScheduler.AddIdlePollerFn` | sop_src/task_sched/task_sched.cpp:964-1001 | a poller of every pass goes behind the idle one-shots, one of every n passes into its place among the iteration tasks |
| `Scheduler.TaskScheduler.InitSched` | sop_src/task_sched/task_sched.cpp:1171-1179 | a new schedulable is on no list |
| `Scheduler.TaskScheduler.TakeBatch` | sop_src/task_sched/task_sched.cpp:343-389 | the first critical section of a poll keeps the invariant of the whole scheduler and leaves the other priorities' lists alone, so that any other operation may come before the tasks run |
| `Scheduler.TaskScheduler.IdlePollerIsTaken` | sop_src/task_sched/task_sched.cpp:376-380 | exactly the last priority is idle: it takes a poller that is on turn, and no other priority touches its iteration list |
| `Scheduler.TaskScheduler.RunTask` | sop_src/task_sched/task_sched.cpp:394-416 | running a queued task keeps the invariant and what is queued, so that any other operation may come between two tasks |
| `Scheduler.TaskScheduler.SleepTime` | sop_src/task_sched/task_sched.cpp:420-436 | the last critical section of a poll returns the sleep time of the lists as they are then |
| `Scheduler.TaskScheduler.Poll` | sop_src/task_sched/task_sched.cpp:341-437 | an undisturbed poll keeps the invariant and leaves the other priorities' lists alone |
| `Rescheduler.StepKeepsInv` | sop_src/task_sched/task_rescheduler.cpp:67-189 | every critical section of rescheduler, worker and clock keeps the invariant |
| `Rescheduler.RunKeepsInv` | sop_src/task_sched/task_rescheduler.cpp:67-189 | in every interleaving: not scheduled means unlisted, scheduled means listed or in the worker's batch, disabled means not scheduled, and the log of requests is in order |
| `Rescheduler.CapturedOncePerRequest` | sop_src/task_sched/task_rescheduler.cpp:73-80 | each false-to-true change of the scheduled flag is captured at most once: requests are captured, withdrawn or still open |
| `Rescheduler.WithdrawalIsFinal` | sop_src/task_sched/task_rescheduler.cpp:158-189 | after a cancel or disable no callback captures the application function until the task is scheduled again |
| `Rescheduler.ScheduledGetsCalled` | sop_src/task_sched/task_rescheduler.cpp:67-86 | left to the worker, a scheduled task is captured exactly once and not before its time |
| `Rescheduler.KeepsEarlierTime` | sop_src/task_sched/task_rescheduler.cpp:96-125 | an unforced reschedule of a scheduled task keeps the earlier of the two times |
| `Rescheduler.ForceSchedulesAnew` | sop_src/task_sched/task_rescheduler.cpp:131-155 | a forced reschedule of an enabled task, scheduled before or not, schedules it for the new time, lists it for the delay from the second reading of the clock on, and logs one event for that time; of a disabled one it changes nothing |
| `Rescheduler.SchedulesAnewIffEarlier` | sop_src/task_sched/task_rescheduler.cpp:89-128 | an unforced reschedule does the same iff the task is enabled and either not scheduled or only for later; otherwise all stays as it is |
| `Rescheduler.StopsTheTask` | sop_src/task_sched/task_rescheduler.cpp:158-189 | a cancel or disable takes the task off its list and withdraws its request, and nothing else |
| `Rescheduler.TakenIffDue` | sop_src/task_sched/task_sched.cpp:481-551 | the poll takes the task iff it is listed, due, and not in the batch already |
| `Rescheduler.CallbackIsExact` | sop_src/task_sched/task_rescheduler.cpp:67-86 | the callback ends the request, and captures the function if there is one, iff the task is scheduled and not listed again |
| `Rescheduler.OldElementSkips` | sop_src/task_sched/task_rescheduler.cpp:73-80 | an element that was taken before a withdrawal and a new scheduling does nothing |
| `Rescheduler.TaskRescheduler.DoReschedule` | sop_src/task_sched/task_rescheduler.cpp:89-128 | the code on words takes the protocol's step |
| `Rescheduler.TaskRescheduler.ForceReschedule` | sop_src/task_sched/task_rescheduler.cpp:131-155 | the code on words takes the protocol's step, whatever was listed before |
| `Rescheduler.TaskRescheduler.Disable` | sop_src/task_sched/task_rescheduler.cpp:158-168 | the code takes the protocol's step |
| `Rescheduler.TaskRescheduler.Cancel` | sop_src/task_sched/task_rescheduler.cpp:180-189 | the code takes the protocol's step |
| `Rescheduler.TaskRescheduler.OnSchedCallback` | sop_src/task_sched/task_rescheduler.cpp:67-86 | the code takes the protocol's step, and captures the application function iff the log says so |
| `RecMutex.MutualExclusion` | sop_src/osal/osal_tirtos.cpp:144-185 | in every interleaving of single accesses at most one task is between acquire and final release, the semaphore is available exactly when none is, and the count is the holder's nesting depth between its calls |
| `RecMutex.OwnerTestIsRight` | sop_src/osal/osal_tirtos.cpp:147-157 | although its two variables are read without any lock, the owner test finds out whether the caller holds the mutex |
| `RecMutex.ForeignUnlockChangesNothing` | sop_src/osal/osal_tirtos.cpp:168-185 | an unlock by a task that does not hold the mutex changes nothing |
| `RecMutex.HolderLocks` | sop_src/osal/osal_tirtos.cpp:144-164 | a holder locks again without waiting and the count goes up by one |
| `RecMutex.HolderUnlocks` | sop_src/osal/osal_tirtos.cpp:168-185 | an inner unlock takes the count down by one, the outermost one releases the mutex |
| `RecMutex.FreeMutexIsTaken` | sop_src/osal/osal_tirtos.cpp:144-164 | a lock of a free mutex, left alone, ends with the task as its holder, once |
| `RecMutex.WaiterGetsFreeMutex` | sop_src/osal/osal_tirtos.cpp:152-164 | a task that waits when the mutex is free has it after one access and is back from its lock after four more |
| `RecMutex.TimedOutLockChangesNothing` | sop_src/osal/osal_tirtos.cpp:152-157 | a lock can time out only while another task holds the mutex, and then changes nothing |
| `CntSem.TokensAreCounted` | sop_src/osal/osal_posix.cpp:380-447 | in every interleaving, outside a post loop, tokens, takers that have not decremented yet and counted failures add up to the shadow count; tokens never exceed the maximum; the decrement never goes below zero; a signal is true exactly when all its increments were posted |
| `CntSem.CountIsRightIffPostsSucceed` | sop_src/osal/osal_posix.cpp:428-447 | after any run, outside a post loop, tokens and takers add up to the shadow count iff no post of the run has failed |
| `CntSem.SemaphoreCanDie` | sop_src/osal/osal_posix.cpp:440-445 | for every maximum, a run from the start after which the count is at its maximum and no token ever appears again |
| `CntSem.CountedFailuresAreLost` | sop_src/osal/osal_posix.cpp:440-445 | a failed post is counted all the same; once failures fill the maximum no token ever appears again |
| `CntSem.SignalPostsWhatFits` | sop_src/osal/osal_posix.cpp:428-447 | a signal whose posts succeed adds as much as fits below the maximum |
| `CntSem.SignalAdds` | sop_src/osal/osal_posix.cpp:428-447 | a signal that is left alone and whose posts succeed adds as much as fits below the maximum, to the tokens and to the count, and returns whether that is all |
| `CntSem.WaiterGetsToken` | sop_src/osal/osal_posix.cpp:389-427 | a wait that finds a token takes one token and one count |
| `CntSem.WaiterGivesUp` | sop_src/osal/osal_posix.cpp:397-418 | a wait that gives up changes nothing, and without a token it cannot do anything else |
| `Circular.ForceAllHolds` | sop_src/utils/byteq.cpp:438-476 | writing any number of bytes one by one over the oldest ones leaves the last buffer-size bytes of old contents and new data |
| `Circular.ForceAllIs` | sop_src/utils/byteq.cpp:448-473 | making room first and then writing in one go, laps included, is the same as making room byte by byte |
| `Circular.AdvancedIsReduced` | sop_src/utils/byteq.cpp:455-458 | taking the buffer size off an index until it fits computes the wrapped index |
| `ByteQs.IncBufIdx` | sop_src/utils/byteq.cpp:23-29 | one conditional subtraction wraps an index |
| `ByteQs.ByteQ.UnprotectedInsert` | sop_src/utils/byteq.cpp:94-124 | the chunked copy writes all bytes from the write index on, even if it laps the buffer |
| `ByteQs.ByteQ.Write` | sop_src/utils/byteq.cpp:129-172 | appends all of the bytes or, without room for them, none |
| `ByteQs.ByteQ.CommitWrite` | sop_src/utils/byteq.cpp:176-201 | appends the bytes that stand behind the write index |
| `ByteQs.StoreIsWrite` | sop_src/utils/byteq.cpp:176-201 | bytes stored by hand at the write pointer and then committed leave the very state that a write of them leaves |
| `ByteQs.StoreShowsOnCommit` | sop_src/utils/byteq.cpp:176-201 | until the commit nobody sees the bytes stored by hand; the commit then shows just them |
| `ByteQs.ByteQ.Read` | sop_src/utils/byteq.cpp:206-247 | returns and removes the first bytes, as many as there are up to the limit |
| `ByteQs.ByteQ.CommitRead` | sop_src/utils/byteq.cpp:251-275 | removes bytes that were read in place |
| `ByteQs.ByteQ.GetContiguousWriteReady` | sop_src/utils/byteq.cpp:296-305 | the longest free stretch behind the write index that does not wrap |
| `ByteQs.ByteQ.GetContiguousReadReady` | sop_src/utils/byteq.cpp:319-328 | the longest stretch of contents behind the read index that does not wrap, and these are the first bytes of the queue |
| `ByteQs.ByteQ.Flush` | sop_src/utils/byteq.cpp:331-341 | empties the queue |
| `ByteQs.ByteQ.Peek` | sop_src/utils/byteq.cpp:345-374 | returns the first bytes and changes nothing |
| `ByteQs.ByteQ.SetRdIdxFromPointer` | sop_src/utils/byteq.cpp:403-434 | moving the read pointer on by n drops the first n bytes, except that n = 0 empties a full queue; any pointer into the buffer becomes the read index, with the count the distance to the write index modulo the size; one outside changes nothing |
| `ByteQs.ByteQ.ForceWrite` | sop_src/utils/byteq.cpp:438-476 | leaves the last buffer-size bytes of old contents and new data for any length below 2^31, although the count passes below zero on the way |
| `ByteQs.ByteQ.ForceWriteUnprotected` | sop_src/utils/byteq.cpp:479-520 | ends in the same state as the other forced write |
| `ByteQs.ByteQ.ForceCommitWrite` | sop_src/utils/byteq.cpp:523-555 | appends bytes stored by hand, over the oldest ones if they did not fit |
| `ByteQs.ByteQ.PeekRandom` | sop_src/utils/byteq.cpp:560-594 | returns the slice of the contents that begins at a distance from the front, and nothing for a distance beyond them |
| `ByteQs.ByteQ.DoReadFromEnd` | sop_src/utils/byteq.cpp:639-670 | returns the newest bytes of the queue if it holds as many, else the bytes that stand before the write index |
| `Queues.Q.Write` | sop_src/utils/q.hpp:35-37 | appends all elements or none |
| `Queues.Q.Read` | sop_src/utils/q.hpp:53-55 | returns and removes whole elements from the front |
| `Queues.Q.GetReadReady` | sop_src/utils/q.hpp:68-70 | the number of elements |
| `Queues.Q.Get` | sop_src/utils/q.hpp:96-124 | index i from the front or -i from the back finds that element in one piece, and exactly the indices inside the queue are found |
| `Spsc.StepKeepsInv` | sop_src/utils/byteq.cpp:129-247 | with both count updates protected every copy, index store and access to the count by either side, the two unlocked looks of a read included, keeps the queue right |
| `Spsc.ProtectedIsSafe` | sop_src/utils/byteq.cpp:129-247 | with both protections on, the bytes returned to the reader are at any moment a prefix of the bytes accepted from the writer, and those between stand in the buffer |
| `Spsc.NoUnreadByteOverwritten` | sop_src/utils/byteq.cpp:129-172 | no step of the writer touches an unread byte |
| `Spsc.SafeIffBothProtected` | sop_src/utils/byteq.cpp:163-168 | in every run of one writer and one reader the bytes returned are a prefix of those accepted iff both protections are switched on |
| `Spsc.ReadKeepsToItsLengthIff` | sop_src/utils/byteq.cpp:221 | in any run, protected or not, a read returns no more than was asked for iff its first look at the count finds as much, or its second no more than that |
| `Spsc.ReadOverruns` | sop_src/utils/helper_macros.h:34-38 | with both protections on, on any buffer larger than n, a run in which a read of n bytes returns n + 1 |
| `Spsc.ReadContainedIff` | sop_src/utils/byteq.cpp:206-247 | with both protections on, no interleaving makes a read of n bytes return more iff n is at least the size of the queue |
| `Spsc.WriterUnprotected` | sop_src/utils/byteq.cpp:163-168 | a run that breaks an unprotected writer |
| `Spsc.ReaderUnprotected` | sop_src/utils/byteq.cpp:31-41 | a run that breaks an unprotected reader |
| `BufIOQueues.ExpiryEncodes` | sop_src/buf_io/buf_io_queue.cpp:332-335 | the stored word encodes the deadline modulo 2^31, or none |
| `BufIOQueues.ExpiryIsExact` | sop_src/buf_io/buf_io_queue.cpp:121-135 | a deadline, however far away, is judged rightly iff its distance modulo 2^31 lies on the half of the circle that belongs to its side of the current time, as it does for all within 2^30 |
| `BufIOQueues.TimeoutIsKept` | sop_src/buf_io/buf_io_queue.cpp:332-335 | a timeout is judged rightly from the moment it is given until 2^30 after its end iff it is none or shorter than 2^30 |
| `BufIOQueues.PurgeIsExact` | sop_src/buf_io/buf_io_queue.cpp:222-246 | a purge keeps exactly the transactions whose deadline has not passed, in order, iff every deadline lies on its half |
| `BufIOQueues.PurgesAreExact` | sop_src/buf_io/buf_io_queue.cpp:222-284 | a purge after any run, with any operations between its parts: unless it is to purge all, it keeps exactly the queued transactions whose deadline has not passed iff their deadlines lie on their halves; and its flush takes the transaction that it tested if that one is past its deadline, and nothing otherwise, iff that one is judged rightly and, if it is past its deadline, still current at the flush, or else nothing is current there to be flushed by mistake |
| `BufIOQueues.FlushTakesAnother` | sop_src/buf_io/buf_io_queue.cpp:259-268 | a run in which all deadlines lie on their halves and the flush of a purge takes a transaction that is not sent and has time left |
| `BufIOQueues.StepKeepsInv` | sop_src/buf_io/buf_io_queue.cpp:222-434 | every critical section and every callback keeps the invariant of the queue |
| `BufIOQueues.TransactionsConserved` | sop_src/buf_io/buf_io_queue.cpp:222-434 | after any run each accepted transaction is in exactly one place, nobody overtakes, and the wire carries, in the order in which they were accepted, of each started transaction the prefix that it says it has transferred |
| `BufIOQueues.WholeUnlessCut` | sop_src/buf_io/buf_io_queue.cpp:347-403 | after any run a transaction that was taken out of work is sent whole iff it was not current at a flush, that of a purge included, nor at a commit that forced it out early; so the wire carries whole payloads, but for the prefixes that these left |
| `BufIOQueues.RequestsKept` | sop_src/buf_io/buf_io_queue.cpp:326-434 | wherever a transaction is after a run, it carries the payload of its request, and as its deadline the time of the request plus the timeout asked for, or none |
| `BufIOQueues.CommitIsExact` | sop_src/buf_io/buf_io_queue.cpp:347-379 | a commit sends the next bytes of the current transaction and takes it out iff it is complete or forced, to be called back or handed over as asked |
| `BufIOQueues.FlushIsExact` | sop_src/buf_io/buf_io_queue.cpp:382-403 | a flush takes out what is current, to be called back, and nothing else changes |
| `BufIOQueues.Channel.Queue` | sop_src/buf_io/buf_io_queue.cpp:326-344 | accepts a transaction iff it has a payload, and puts it last |
| `BufIOQueues.Channel.LoadNextTransaction` | sop_src/buf_io/buf_io_queue.cpp:407-434 | the current transaction or else the next one from its start, and a remainder that is not empty |
| `BufIOQueues.Channel.CommitSection` | sop_src/buf_io/buf_io_queue.cpp:353-368 | the critical section of a commit takes the protocol's step and returns the transaction that it took out |
| `BufIOQueues.Channel.FlushSection` | sop_src/buf_io/buf_io_queue.cpp:387-393 | the critical section of a flush takes the protocol's step and returns what was current |
| `BufIOQueues.Channel.CommitTransaction` | sop_src/buf_io/buf_io_queue.cpp:347-379 | progress is recorded; a finished or forced transaction leaves with its callback or into the driver's hands |
| `BufIOQueues.Channel.FlushActiveTransaction` | sop_src/buf_io/buf_io_queue.cpp:382-403 | the current transaction leaves with its callback |
| `BufIOQueues.Channel.PurgeOldMessages` | sop_src/buf_io/buf_io_queue.cpp:222-246 | taking the queue apart and putting it together again takes the protocol's step: what is kept stays in order, the rest waits for its callbacks |
| `BufIOQueues.Channel.PurgeOldTxMessages` | sop_src/buf_io/buf_io_queue.cpp:259-268 | an expired current transaction is flushed first, then the purged ones are called back in order |
| `Crc.ByteAtOnce16` | sop_src/utils/crc.cpp:40-45 | the byte step is eight steps of bit-serial division by 0x1021 |
| `Crc.UpperHalfIsIdle` | sop_src/utils/crc.cpp:38-46 | what the 32-bit accumulator shifts out of its lower half never comes back |
| `Crc.CRC_16` | sop_src/utils/crc.cpp:34-48 | the bit-serial division of the message from 0xffff |
| `Crc.CRC_16_CONT` | sop_src/utils/crc.cpp:54-63 | continuing the check of a first piece gives the check of both pieces together |
| `Crc.TableIs` | sop_src/utils/crc.cpp:85-151 | each of the 256 table entries is eight steps of the reflected register |
| `Crc.FeedByteIs` | sop_src/utils/crc.cpp:186-199 | feeding the eight bits of a byte one by one is adding the byte to the register's bottom and shifting eight times |
| `Crc.ByteAtOnce32` | sop_src/utils/crc.cpp:186-199 | only the low byte of the register needs the eight shifts |
| `Crc.CRC_32_FAST` | sop_src/utils/crc.cpp:159-176 | the table-driven form is bit-serial too, and with its default arguments equal to the CRC of section 8 of RFC 1952, as `CRC_32` is |
| `Crc.CRC_32` | sop_src/utils/crc.cpp:181-204 | the CRC of section 8 of RFC 1952, bit by bit |
| `Crc.CRC_32_CONT` | sop_src/utils/crc.cpp:209-238 | pieces fed one after the other and a final complement give the CRC of the whole |
| `Crc.Feed32Concat` | sop_src/utils/crc.cpp:209-230 | a message may be cut anywhere |
| `Crc.BurstDetected` | sop_src/utils/crc.cpp:181-204 | messages of one length that differ only inside four consecutive bytes have different CRCs |
| `CipherModes.CryptCfb128` | sop_src/mbedtls/aes_alt.cpp:198-238 | the loop computes `Cfb128` from any offset below 16, in place or not |
| `CipherModes.CfbDecrypts` | sop_src/mbedtls/aes_alt.cpp:198-238 | for any block function decryption gives the plaintext back and leaves the same state |
| `CipherModes.CfbInPieces` | sop_src/mbedtls/aes_alt.cpp:198-238 | pieces with the carried state give what one call gives |
| `CipherModes.CfbIsStandard` | sop_src/mbedtls/aes_alt.cpp:198-238 | from any offset below 16 the output is CFB with 128-bit segments of section 6.3 of NIST SP 800-38A: the rest of the saved register first, then the encrypted last sixteen bytes of ciphertext |
| `CipherModes.CryptCfb8` | sop_src/mbedtls/aes_alt.cpp:264-290 | the loop computes `Cfb8All`, in place or not |
| `CipherModes.Cfb8Decrypts` | sop_src/mbedtls/aes_alt.cpp:264-290 | decryption gives the plaintext back and leaves the same register |
| `CipherModes.Cfb8InPieces` | sop_src/mbedtls/aes_alt.cpp:264-290 | pieces with the carried register give what one call gives |
| `CipherModes.Cfb8IsStandard` | sop_src/mbedtls/aes_alt.cpp:264-290 | the output is CFB with 8-bit segments of section 6.3 |
| `CipherModes.CryptCtr` | sop_src/mbedtls/aes_alt.cpp:316-345 | the loop computes `CtrAll` from any offset below 16, in place or not |
| `CipherModes.CtrTwice` | sop_src/mbedtls/aes_alt.cpp:316-345 | counter mode is its own inverse |
| `CipherModes.CtrInPieces` | sop_src/mbedtls/aes_alt.cpp:316-345 | pieces with the carried state give what one call gives |
| `CipherModes.CtrIsStandard` | sop_src/mbedtls/aes_alt.cpp:316-345 | from any offset below 16 the output is counter mode of section 6.5: the rest of the saved block first, then the encrypted counters |
| `CipherModes.IncrementedValue` | sop_src/mbedtls/aes_alt.cpp:332-334 | the carry loop adds one to the block as a big-endian number, modulo its size |
| `CipherModes.CounterCountsBlocks` | sop_src/mbedtls/aes_alt.cpp:329-339 | from any offset below 16 the counter goes up once for each block begun, modulo 2^128, and the offset moves on by the length modulo 16 |
| `Calendar.EpochTimestampToDateStruct` | sop_src/utils/convert_utils.cpp:354-433 | a valid date whose timestamp is the argument, with the right weekday |
| `Calendar.EpochDateStructToTimestamp` | sop_src/utils/convert_utils.cpp:521-557 | the seconds to the date in 64 bits, those of its timestamp from 1970 on and by whole leap cycles before; months beyond December are taken modulo a year; for a negative month the result is undefined, which is `None` |
| `Calendar.CountedIsTimestamp` | sop_src/utils/convert_utils.cpp:521-557 | from 1970 on the seconds that the code counts are the timestamp |
| `Calendar.CountsBackInCycles` | sop_src/utils/convert_utils.cpp:525-533 | before 1970 the days are counted rightly, with a leap day every four years, iff the year is a whole number of four-year cycles away |
| `Calendar.RoundTrips` | sop_src/utils/convert_utils.cpp:354-557 | there and back is the identity on timestamps, and on valid dates up to the weekday |
| `Calendar.TimestampsOrdered` | sop_src/utils/convert_utils.cpp:354-557 | dates are ordered as their timestamps are, and a timestamp belongs to one date |
| `Calendar.GregorianUntil2100` | sop_src/utils/convert_utils.cpp:396-411 | the dates are those of the Gregorian calendar iff they lie before 1 March 2100 |
| `Calendar.LeapDay2100` | sop_src/utils/convert_utils.cpp:396-411 | the first timestamp that is taken for 29 February 2100 |
| `Calendar.EpochTimestampToUTCGeneralizedTimeString` | sop_src/utils/convert_utils.cpp:455-493 | fourteen digits and a Z that print the date of the timestamp |
| `Calendar.ParsePrinted` | sop_src/utils/convert_utils.cpp:455-614 | parsing a printed date gives it back, but for the weekday |
| `Calendar.PrintAndParse` | sop_src/utils/convert_utils.cpp:455-614 | printing and parsing returns every 32-bit timestamp |
| `Calendar.UTCTimeStringToTimestamp` | sop_src/utils/convert_utils.cpp:563-614 | for every string, the low word of the seconds to the date whose fields are read from the end, two characters at a time; undefined, which is `None`, for month 00 |
| `Calendar.ParseNumber` | sop_src/utils/convert_utils.cpp:294-305 | the digits of a string read as a decimal number modulo 2^32, every other character skipped |
| `Calendar.FormReadRightlyIff` | sop_src/utils/convert_utils.cpp:559-614 | of the documented forms of a date (four- or two-digit year; up to hours, minutes or seconds; with or without a fraction), with the omitted fields zero, exactly those with their seconds are read back, and with a two-digit year exactly those of 2000 to 2099: no other is, not even by chance |

## Left out

- Thread creation, sleeping, clocks, other platforms' ports, sockets, memory pools, entropy, the AES block cipher: foreign calls or wrappers; the block cipher is an arbitrary function.
- Weak memory: the interleaving models assume sequential consistency.
- Starting and shutting down workers (`Start`, `dtor`, destructors), the single-task build, debug bookkeeping and profiling.
- `LOG_ASSERT` conditions are proved where the model has the values they speak of; the counters kept only inside them (`mContexts`, `mLocks`) are not modelled.
- TaskSched.TaskSchedPrio.DoPoll: its parts follow each other undisturbed, because a method's body has no interference; each part is a method with a contract from any valid state, and `WakeUp` and `Rescheduler` interleave them with everything else. Running a callback is recorded, and what it does to the lists is an operation between two parts.
- Scheduler.TaskScheduler.Poll: undisturbed like it; `TakeBatch`, `RunTask` and `SleepTime` each keep the scheduler's invariant, so that other operations may come between them.
- `WakeUp` models a priority other than idle, for which the iteration list is empty; an idle worker with iteration tasks never sleeps.
- Events are the numbers of the pending 16-bit mask, as a set; registering event functions (`TaskSchedAddEventFn`) and triggers from interrupts on embedded builds are not modelled.
- The branch of `DLL_SortedInsert` that gives up at a node without a link is unreachable on a well-formed ring.
- `DLL_Size`, `SLL_Size` and the limits of their loops, `DLL_ForEachNode` and `SLL_ForEachNode`, `DLL_PopAll` and `SLL_PopAll`, indexed access: easy members over the same rings.
- SLists.SLL.NodeInsertAfter: not behind the last node, because the code does not move the last pointer then.
- DLists.DLL.AppendListToBack: not a list to itself, because the code leaves such a list empty with its nodes unreachable.
- SLists.SLL.AppendListToBack: not a list to itself, for the same reason.
- CntSem.TokensAreCounted: the sum with the shadow count overflowing 32 bits is not modelled; the timed wait's polling of the OS semaphore is one attempt or a failure, and the variant over dispatch semaphores is not modelled.
- ByteQs.ByteQ.CommitRead: no more than is queued, because the code then moves the index and the count by different amounts.
- ByteQs.ByteQ.CommitWrite: no more than is free, because the code then counts more bytes than the buffer holds.
- ByteQs.ByteQ.PeekRandom: no distance more than 2^31 beyond the contents, because the code then computes an index before the queue.
- ByteQs.ByteQ.ForceWrite: no 2^31 bytes or more, because the code computes the shortage in a signed 32-bit `int`.
- ByteQs.ByteQ.DoReadFromEnd: no more than the buffer holds, because the code then repeats bytes or begins before the buffer.
- ByteQs.ByteQ.ForceCommitWrite: no more than the buffer holds, because the code wraps the index only once.
- `ByteQPokeRandom`, which indexes from the write position and is right for a full queue only, and `ByteQGetWriteReady`, a subtraction.
- `memcpy` is a method of the byte queue that copies a stretch; pointers into the buffer are indices.
- BufIOQueues.Channel.Queue: the list node of a transaction is its place in a sequence; that a queued transaction is in no list is the precondition, as for the list itself. Reading is the same code as writing, so there is one channel for a direction.
- BufIOQueues.Channel.CommitSection: no more than is left of the transaction, so that its 16-bit index cannot wrap.
- BufIOQueues.Channel.CommitTransaction: like it; and its critical section and its callback follow each other undisturbed, because a method's body has no interference. The runs of the protocol put anything between them.
- BufIOQueues.Channel.FlushActiveTransaction: undisturbed like it.
- BufIOQueues.Channel.PurgeOldTxMessages: undisturbed like it; `BufIOQueues.PurgesAreExact` has any operations between its parts.
- Spsc.SafeIffBothProtected: that a read stays inside its caller's buffer is not part of it; `Spsc.ReadContainedIff` says when it does.
- Calendar.EpochTimestampToDateStruct: days are unbounded; the code counts them in a 32-bit `int`, which lasts for five million years.
- Calendar.EpochDateStructToTimestamp: days are unbounded as above; what a compiler makes of a negative month, which no value of the enumeration has, has no result here.
- Calendar.RoundTrips: years are those of the code's 32-bit `int`.
- Calendar.EpochTimestampToUTCGeneralizedTimeString: the two-digit form of the year, which drops its leading zero before 2010, is not modelled; nor is the truncation to the caller's buffer.
- The lookup table of the CRC is a function given by rows of sixteen entries.
- Strings (`sstring`), logging, file helpers, plots, UUIDs, endian macros: no hard properties.
