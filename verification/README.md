# Lists, time and task choice of the HCRTOS kernel

This project models the data structures that the real-time kernel of HCRTOS (a FreeRTOS kernel with changes of its own)
schedules with, and the parts of the kernel that live on them, and proves what they are for.

- **The scheduler's list** (`Sequences`, `RoundRobin`, `SortedInsertion`, `KernelList`, `ListTable`, `KernelHeap`). A ring
  of items through an end marker, with a cursor that get-next calls walk round the ring. `RoundRobin` is the ring as a
  value, with the order in which coming get-next calls return the items, and the fairness of whole runs. `KernelList` is
  the linked structure, with the same operations as methods that rewrite `next` and `previous`. `ListTable` and
  `KernelHeap` put any number of lists into one memory.
- **The generic list** (`LinkList`, `LinkPrograms`): links without a cursor, with a constant-time merge and a traversal
  during which the current link may be removed.
- **Time** (`TimerQueue`, `DelayedLists`, `KernelTime`, `TimeOuts`, `ReadyMap`). The kernel counts ticks in 32 bits and
  keeps the sleeping tasks in two lists that change places when the counter wraps around. `TimerQueue` is what this stands
  for: a time line without an end, with the sleepers in the order in which they are due. The class `Scheduler` is what the
  kernel does; its function `Line` is the time line it stands for, and every method is proved to do to the line what it
  should.
- **Tasks** (`TaskOrder`, `Interrupts`, `TaskControl`, `Deferral`, `Delays`, `BrokenWaits`, `KernelLaws`, `Startup`,
  `KernelSteps`, `KernelCalls`, `KernelRuns`). The class `Kernel` adds the suspension of the scheduler (ticks and events
  are put off and made up for), event lists, and the choice of the running task. `Deferral` has the interrupts that come
  while the scheduler is suspended, `Delays` the calls a task sleeps with, `BrokenWaits` how one task ends the wait of
  another. The invariant holds after `Startup.Start`, for any tasks created before the start, and is kept by every call.
  It says, among other things, that event lists have the highest priority first, that the idle task is ready, and that
  two records explain the present state: the history of the events on the time line, and the turns taken on each ready
  list. Every call says exactly how it extends the two. With them the law of the delays and the fairness of the rings
  hold of the tasks, in every reachable state (`KernelLaws`). `KernelSteps` says what each call does to the state of the
  kernel as a whole, as a relation between the states before and after it that pins time line, records, every list, the
  running task and the pending ticks and yields; `KernelCalls` has the calls, each proved to do just this. `KernelRuns`
  starts a kernel and runs any program of calls and interrupts on it: every call does what it should, and no tick of the
  program is lost. In a program a call that its state does not allow to sleep or to wait (the idle task runs, or the
  caller is not ready) does the rest of what it does, and a program with arguments that the kernel does not have is not
  run.
- **The optimised scheduler** (`StarvedSelection`, `SelectorRuns`): the other way of choosing the running task, which
  looks for tasks that have been ready for too long, and what runs of its choices come to.
- **Fixed-point numbers** (`FixedMath`) and **ioctl command words** (`IoctlCodec`).

A call of the kernel that runs in a critical section, or with the scheduler suspended throughout, is one atomic step. The
calls that suspend the scheduler to put a task to sleep (`Delay`, `DelayUntil`) take as a parameter the interrupts that come
before they resume it: any number of ticks and events in any order. Ghost parameters and ghost fields only carry the
abstract value of a structure. A method or lemma that starts with `hide *` relies on the contracts of the steps it calls
and on nothing else.

## Where the code and its documentation differ

- An inserted item is documented to be the last one that get-next returns (`include/hcrtos/freertos/list.h:332-341`).
  With the cursor on an item that item is returned after it: `RoundRobin.InsertedLastIffOnMarker`.
- Merging a generic list with itself loses all its links: `LinkList.Merge`.
- Tasks of the same priority get an equal share of the processor, says a comment at the generic choice of the next task
  (`kernel/source/freertos/tasks.c:150-151`), which the configuration switches off
  (`kernel/source/freertos/include/freertos/FreeRTOSConfig.h:90`). The choice compiled instead without the optimised
  scheduler (`kernel/source/freertos/tasks.c:175-183`) keeps that promise: `RoundRobin.FullRound`, and with tasks coming and
  going `KernelLaws.ReadyTaskRuns`. The optimised scheduler keeps it under these exact conditions only. While nobody above
  the idle priority is starved, a choice from a list above it turns that list twice, and as many choices in a row as there
  are tasks run each of them if and only if their number is odd: `SelectorRuns.RunUnstarved`. With ready tasks of the idle
  priority alone, a choice turns their list once, and they share equally: `SelectorRuns.RunIdle`. While the highest
  priority with a starved task stays the same, being chosen does not reset the time a task has been ready, and as many
  choices as there are tasks run each of them if and only if all have been ready for equally long; one that has been ready
  for longest runs every time: `SelectorRuns.RunStarved`.
- The check for a time-out misses one when the counter has gone once around, shows less than it did on entering, and has
  since passed fewer ticks modulo its width than the wait: `TimeOuts.CheckIsRight` has the exact condition,
  `TimeOuts.CheckCanBeWrong` an example.
- The generic `_IOW` command word is the MIPS `_IOR` word of the same arguments: `IoctlCodec.ReadAndWriteSwap`.

## Model

| member | source | states |
|---|---|---|
| RoundRobin.NextRotates | include/hcrtos/freertos/list.h:281-292 | get-next on a list with items never stops on the marker, returns the first item of the service order and moves it to its end |
| RoundRobin.FullRound | include/hcrtos/freertos/list.h:281-292 | as many calls as there are items return every item exactly once, in service order, and bring a cursor that was on an item back to it |
| RoundRobin.NthGet | include/hcrtos/freertos/list.h:281-292 | any number of calls on an unchanged list goes round and round in service order |
| RoundRobin.AheadIsTurn | include/hcrtos/freertos/list.h:281-292 | the number of turns ahead of an item, counted from the cursor, is its place in the service order |
| RoundRobin.RemoveKeepsTurns | include/hcrtos/freertos/list.h:310-326 | a removal erases the item from the service order and changes no other turn, also when the cursor stands on it |
| RoundRobin.InsertEndTurn | include/hcrtos/freertos/list.h:336-373 | the turn of an inserted item: last with the cursor on the marker, last but one, before the item under the cursor, otherwise |
| RoundRobin.InsertedLastIffOnMarker | include/hcrtos/freertos/list.h:332-341 | the documented promise that the inserted item is returned last holds if and only if the cursor is on the marker |
| RoundRobin.WaitingAccount | include/hcrtos/freertos/list.h:281-373 | exact accounting over any run: turns ahead of a waiting item, get-next calls, insertions that push it back and removals ahead of it balance |
| RoundRobin.BoundedWaiting | include/hcrtos/freertos/list.h:281-373 | with the cursor before an item and d items between, no run of insertions and removals of others can make more than d get-next calls without returning it |
| RoundRobin.NoStarvation | include/hcrtos/freertos/list.h:281-373 | with the cursor at or past an item, a run that does not return it splits at the wrap-around, with a bound on the get-next calls in each part |
| RoundRobin.MeasureShrinks | include/hcrtos/freertos/list.h:281-373 | a lexicographic measure that no step increases and every get-next that returns another item decreases |
| RoundRobin.EventuallyServed | include/hcrtos/freertos/list.h:281-373 | in every endless run with get-next calls again and again, an item that stays in the list is returned again and again |
| SortedInsertion.InsertPositionIs | kernel/source/freertos/list.c:129-172 | the position the search finds is the only one with no greater value before it and a greater value, or the end, at it |
| SortedInsertion.EnterStable | kernel/source/freertos/list.c:129-172 | an inserted item goes behind all items of its own value; the order of the items of any one value is kept |
| SortedInsertion.EnterAllSorts | kernel/source/freertos/list.c:117-185 | any batch of insertions leaves the list sorted, with items of equal value in the order of insertion |
| SortedInsertion.StableSortIsUnique | kernel/source/freertos/list.c:117-185 | these two properties determine the list: no other sequence has them |
| SortedInsertion.HeadIsLeast | include/hcrtos/freertos/list.h:391 | the head of a sorted list has the least value, whatever arrangement of the same items it is compared with |
| KernelList.List.constructor | kernel/source/freertos/list.c:50-72 | an initialised list is the empty ring with the cursor on the marker |
| KernelList.List.RingIsUnique | include/hcrtos/freertos/list.h:146-180 | the links and the cursor describe one ring only: two descriptions of the same memory are equal |
| KernelList.List.IsEmpty | include/hcrtos/freertos/list.h:254 | the count is zero just when the ring has no item |
| KernelList.List.Length | include/hcrtos/freertos/list.h:259 | the count is the number of items of the ring |
| KernelList.List.OwnerOfHeadEntry | include/hcrtos/freertos/list.h:391 | the owner found behind the marker is that of the first item |
| KernelList.List.ValueOfHeadEntry | include/hcrtos/freertos/list.h:221 | the value found behind the marker is that of the first item, and the greatest value for an empty list |
| KernelList.List.OwnerOfNextEntry | include/hcrtos/freertos/list.h:281-292 | the pointer steps refine get-next on the ring |
| KernelList.List.InsertEnd | include/hcrtos/freertos/list.h:350-373 | the pointer assignments refine the insertion before the cursor; the item records this list |
| KernelList.List.FindSpot | kernel/source/freertos/list.c:141-172 | the walk from the marker stops at the node before the sorted position; the greatest value goes to the end without a walk |
| KernelList.List.Insert | kernel/source/freertos/list.c:117-185 | the pointer assignments refine the insertion at the sorted position, behind equal values |
| KernelList.Remove | include/hcrtos/freertos/list.h:310-326 | the pointer assignments refine the removal from the ring; the cursor steps back; the container is cleared; the count returned is that of the items left |
| ListTable.EffectValid | include/hcrtos/freertos/list.h:281-373 | every operation keeps the rings well formed and disjoint and leaves all lists but one as they were |
| ListTable.EffectPlaces | include/hcrtos/freertos/list.h:281-373 | an operation changes in which list its own item is, and no other item's place |
| ListTable.FairAmongLists | include/hcrtos/freertos/list.h:281-373 | bounded waiting in one list while a program works on any number of lists |
| ListTable.FairToCallers | include/hcrtos/freertos/list.h:281-373 | the same in terms of what callers get: with enough get-next calls on a list, one of them returns the waiting item, whatever the program does to other lists |
| ListTable.TotalCounts | include/hcrtos/freertos/list.h:259 | the counts of all lists add up to the number of listed items: none is in two lists |
| ListTable.MigrationConserves | include/hcrtos/freertos/list.h:310-402 | any run of moves between lists keeps the set of listed items and the sum of the counts, and every moved item ends up in its last target alone |
| KernelHeap.ContainerIsMembership | include/hcrtos/freertos/list.h:402 | the container recorded by an item is the one list whose ring has it |
| KernelHeap.CountsAddUp | include/hcrtos/freertos/list.h:259 | in memory, the counts of all lists add up to the number of items with a container |
| KernelHeap.Initialise | kernel/source/freertos/list.c:50-72 | a new list joins the memory empty and changes no other |
| KernelHeap.InitialiseItem | kernel/source/freertos/list.c:75-84 | a new item is in no list |
| KernelHeap.OwnerOfNextEntry | include/hcrtos/freertos/list.h:281-292 | get-next on one of many lists: the rings of all others stay the same |
| KernelHeap.InsertEnd | include/hcrtos/freertos/list.h:350-373 | insertion into one of many lists keeps the memory valid and the rings of all others the same |
| KernelHeap.Insert | kernel/source/freertos/list.c:117-185 | the same for sorted insertion |
| KernelHeap.Remove | kernel/source/freertos/list.c:188-214 | the same for removal from whatever list the item is in |
| KernelHeap.IsContainedWithin | include/hcrtos/freertos/list.h:402 | the recorded container answers whether the item is in the ring of the list |
| KernelHeap.Execute | include/hcrtos/freertos/list.h:281-373 | any program of list operations does to the memory what it does to the table of rings, and its get-next calls return the owners of the items that they return there |
| LinkList.InitHead | include/hcrtos/iot_doubly_linked_list.h:103-107 | the head alone is the empty ring |
| LinkList.Add | include/hcrtos/iot_doubly_linked_list.h:116-125 | the link becomes the first of the sequence |
| LinkList.Remove | include/hcrtos/iot_doubly_linked_list.h:135-147 | a link in a list leaves it, both its ends null; an unlinked one changes nothing else |
| LinkList.IsEmpty | include/hcrtos/iot_doubly_linked_list.h:154 | true just for no head and for an empty sequence |
| LinkList.Pop | include/hcrtos/iot_doubly_linked_list.h:168-188 | hands out the first link, unlinked, and leaves the rest; null for no head or no link |
| LinkList.Merge | include/hcrtos/iot_doubly_linked_list.h:198-212 | the other list's sequence comes in front and the other list is empty, for all combinations of empty lists; a list merged with itself is empty afterwards, and its links point round and round in a ring without a head |
| LinkList.ForEach | include/hcrtos/iot_doubly_linked_list.h:218-221 | visits every link once, in order |
| LinkList.RemoveWhere | include/hcrtos/iot_doubly_linked_list.h:227-230 | with a body that removes the links with a property, the safe traversal visits every link once, in order, and leaves exactly the others, in order |
| LinkPrograms.Execute | include/hcrtos/iot_doubly_linked_list.h:103-212 | any program of additions, removals, pops and merges on any number of lists computes what it computes on plain sequences, with the same links handed out |
| LinkPrograms.AddIs | include/hcrtos/iot_doubly_linked_list.h:116-125 | an added link comes first in its list and no other list changes |
| LinkPrograms.RemoveIs | include/hcrtos/iot_doubly_linked_list.h:135-147 | a removed link is gone from the one list that had it, the others keep their order, and every other list stays |
| LinkPrograms.PopIs | include/hcrtos/iot_doubly_linked_list.h:168-188 | what is popped followed by what is left is what there was; null from an empty list |
| LinkPrograms.MergeIs | include/hcrtos/iot_doubly_linked_list.h:198-212 | the other list comes in front and is empty afterwards, and no third list changes |
| TimerQueue.TickWakesTheDue | kernel/source/freertos/tasks.c:2898-2974 | one tick wakes exactly the sleepers due at the new time, in their order |
| TimerQueue.WokenAreDue | kernel/source/freertos/tasks.c:2864-3025 | over any run nobody is woken too early or too late, and time is the number of ticks |
| TimerQueue.WakesOnTime | kernel/source/freertos/tasks.c:2864-3025 | over any run, an account of time t in which sleepers until t join at the end and cancelled ones leave is exactly what the tick that reaches t wakes, in order, and before that exactly what still sleeps until t |
| TimerQueue.SleeperWakes | kernel/source/freertos/tasks.c:2864-3025 | a sleeper that is never cancelled is woken by the tick that reaches its time, whatever happens to others due at that time |
| DelayedLists.SleepDelayed | kernel/source/freertos/tasks.c:5748-5766 | a sorted insertion into the delayed list is an insertion into the one queue of absolute times, and the cached wake time stays a lower bound |
| DelayedLists.SleepOverflow | kernel/source/freertos/tasks.c:5743-5747 | the same for the overflow list, one run of the counter later |
| DelayedLists.ZeroWait | kernel/source/freertos/tasks.c:5748-5766 | a wait of zero ticks would come first in the delayed list with the current time; the next tick wakes it, one tick late, unless the counter restarts, when it is still there at the exchange of the lists |
| DelayedLists.LeaveSleepers | kernel/source/freertos/tasks.c:3339 | leaving whichever of the two lists has the task is leaving the queue of absolute times |
| DelayedLists.Switch | kernel/source/freertos/tasks.c:277-289 | exchanging the lists at the wrap-around changes nothing in the queue of absolute times |
| DelayedLists.NothingDue | kernel/source/freertos/tasks.c:2900-2937 | if the head of the delayed list is not due then no sleeper of either list is |
| KernelTime.Scheduler.constructor | kernel/source/freertos/tasks.c:3798-3827 | with empty lists the scheduler stands for the time line at the initial tick without sleepers |
| KernelTime.Scheduler.ResetNextTaskUnblockTime | kernel/source/freertos/tasks.c:4138-4156 | the cached time is that of the head of the delayed list, or the greatest |
| KernelTime.Scheduler.SwitchDelayedLists | kernel/source/freertos/tasks.c:277-289 | needs an empty delayed list, which the tick handler is proved to provide |
| KernelTime.Scheduler.MakeReady | kernel/source/freertos/tasks.c:299-303 | the task goes to the end of the ready list of its priority, whose bit is set |
| KernelTime.Scheduler.Wake | kernel/source/freertos/tasks.c:2936-2952 | out of the delayed list, out of the event list if in one, into the ready list; the map of ready priorities stays right |
| KernelTime.Scheduler.WakeExpired | kernel/source/freertos/tasks.c:2898-2974 | the loop wakes exactly the first sleepers up to the current time and leaves a right cached time |
| KernelTime.Scheduler.Tick | kernel/source/freertos/tasks.c:2875-2990 | a tick moves the unbounded time line on by one, whatever the 32-bit counter and the two lists do; those due and no others become ready, in order; the request to switch is exact |
| KernelTime.Scheduler.AddCurrentTaskToDelayedList | kernel/source/freertos/tasks.c:5696-5800 | the running task leaves its ready list and sleeps on the time line until now plus the ticks, also across the wrap-around, or is suspended for ever; no other list changes; it is not marked as broken off |
| KernelTime.Scheduler.AddTaskToReadyList | kernel/source/freertos/tasks.c:299-303 | a task in no list becomes ready, the time line stays |
| KernelTime.Scheduler.AddNewTaskToReadyList | kernel/source/freertos/tasks.c:1173-1233 | before the start a new task becomes ready, and will be the running one if its priority is not below that of the one so far |
| KernelTime.Scheduler.SelectHighestPriorityTask | kernel/source/freertos/tasks.c:175-183 | the task chosen is the next in turn of the highest priority with a ready task |
| KernelTime.Scheduler.WakeEarly | kernel/source/freertos/tasks.c:3337-3340 | a blocked task becomes ready and leaves the time line if it sleeps |
| KernelTime.Scheduler.BreakOff | kernel/source/freertos/tasks.c:2801-2829 | a blocked task leaves its state list, its event list if it is in one, and the time line, and becomes ready |
| ReadyMap.HighestSet | kernel/source/freertos/include/freertos/portable/crit_task.h:129-130 | the bit found is set and no higher one is |
| TaskOrder.FirstIsHighest | kernel/source/freertos/tasks.c:3321-3323 | the first task of an event list has the highest priority of those waiting there |
| TaskOrder.EntersByPriority | kernel/source/freertos/tasks.c:3237-3246 | a newcomer's place is behind all of its own or a higher priority and before all of a lower one |
| TaskOrder.EventsCommand | kernel/source/freertos/tasks.c:3237-3246 | sorted insertions of event items, removals, and all operations on other lists keep every event list in the order of priorities |
| TaskOrder.OrderlyAfterWaking | kernel/source/freertos/tasks.c:2898-2974 | any number of wake-ups keep event lists, turns and the idle task in order, add the woken tasks to the turns one by one, and make no ready list shorter |
| TaskOrder.JoiningTakesNoTurn | kernel/source/freertos/tasks.c:299-303 | tasks that become ready extend the turns of their lists without a get-next call |
| Interrupts.TakenOrLeft | kernel/source/freertos/tasks.c:3315-3363 | over any interrupts, what waited in an event list is what they took out of it, in order, followed by what still waits |
| TaskControl.Kernel.IncrementTick | kernel/source/freertos/tasks.c:2864-3025 | while the scheduler runs a tick moves the time line, wakes those due and no others, and asks for a switch exactly when one of them may preempt, two tasks share the running priority, or a yield is pending; while it is suspended the tick is counted and nothing else changes |
| TaskControl.Kernel.SuspendAll | kernel/source/freertos/tasks.c:2231-2248 | one more suspension is open; the invariant is kept |
| TaskControl.Kernel.MovePending | kernel/source/freertos/tasks.c:2338-2369 | exactly the pending tasks become ready, in their order, and leave the time line; the history has just these cancellations more |
| TaskControl.Kernel.UnwindTicks | kernel/source/freertos/tasks.c:2374-2396 | the ticks put off are made up for one by one; a yield is pending exactly if it was, if a woken task may preempt, or if there were ticks and two tasks share the running priority |
| TaskControl.Kernel.ResumeAll | kernel/source/freertos/tasks.c:2315-2421 | time does not slip: the last resume moves the time line on by exactly the ticks that came in the meantime, after the pending tasks have left it, and wakes those due in order; an inner resume changes nothing; the yield is exact; both records say just this |
| TaskControl.Kernel.RemoveFromEventList | kernel/source/freertos/tasks.c:3315-3375 | the first waiting task, which has the highest priority of those waiting, becomes ready and leaves the time line, or is put off to the pending list while the scheduler is suspended; the answer says whether it has a higher priority than the running one |
| TaskControl.Kernel.AddCurrentTaskToDelayedList | kernel/source/freertos/tasks.c:5696-5800 | the same as for the scheduler, with invariant and history kept |
| TaskControl.Kernel.PlaceOnEventList | kernel/source/freertos/tasks.c:3229-3251 | the running task waits in the event list behind all tasks of its own or a higher priority and before all of a lower one, and on the time line, or without an end; every other list is pinned as well |
| Delays.Delay | kernel/source/freertos/tasks.c:1441-1480 | whatever ticks and events come before the scheduler is resumed: the task sleeps on the time line until now plus the ticks, time goes on by the ticks that came, those whose event came are ready in order, and the next in turn of the highest ready priority runs; a delay of zero only switches |
| Delays.DelayUntil | kernel/source/freertos/tasks.c:1354-1434 | on the unbounded time line: the next wake time is the last one plus the period; the task sleeps until exactly then if and only if it is still to come; the same for interrupts and the switch as in a delay |
| Deferral.ServeAll | kernel/source/freertos/tasks.c:1446-1460 | while the scheduler is suspended, any number of interrupts leave time and the ready lists as they are; ticks are counted, and the first ones of the event lists become pending in the order of the events |
| BrokenWaits.GetState | kernel/source/freertos/tasks.c:1486-1577 | each of the five answers exactly: running just for the running task; of the others blocked just if the task sleeps on the time line or waits for an event or a notification without an end, suspended just if it is in the suspended list and waits for neither, deleted just if it is in no list, and ready otherwise, so in particular if it is in a ready list |
| BrokenWaits.Abort | kernel/source/freertos/tasks.c:2793-2855 | a blocked task, and no other, becomes ready and leaves the time line, its event list or the pending list; it is marked as broken off if it waited for an event |
| BrokenWaits.AbortDelay | kernel/source/freertos/tasks.c:2786-2859 | the same for the whole call, with the invariant kept and the yield exact |
| TaskControl.Kernel.CheckForTimeOut | kernel/source/freertos/tasks.c:3452-3514 | a wait that was broken off counts as timed out, once; otherwise it has timed out if and only if it has passed and the stated coincidence does not hold, and else the deadline stays what it was |
| TaskControl.Kernel.SetTimeOutState | kernel/source/freertos/tasks.c:3432-3441 | what is remembered stands for the current time |
| TaskControl.Kernel.SwitchContext | kernel/source/freertos/tasks.c:3149-3223 | put off while suspended; otherwise the next task in turn of the highest ready priority runs and only its ready list turns |
| KernelLaws.WakeTimes | kernel/source/freertos/tasks.c:2864-3025 | in every reachable state, for every time t: exactly those owed a waking at t were woken by the tick that reached it, in order, or still sleep if it is to come |
| KernelLaws.SleeperWoken | kernel/source/freertos/tasks.c:2864-3025 | in every reachable state: each sleeper at any earlier time that was not woken early since then was woken by the tick that reached its time, or still sleeps if that is to come |
| KernelLaws.ReadyTaskRuns | kernel/source/freertos/tasks.c:175-183 | in every reachable state: a task that has been ready since any earlier turn of its priority and has not been chosen since has seen no more switches to its priority than the bounds of bounded waiting and no starvation, whatever ticks, events and delays came in between |
| KernelSteps.DidTicks | kernel/source/freertos/tasks.c:2864-3025 | no call loses a tick: the ticks recorded and those pended grow by the tick interrupts of the call, those that come while a task goes to sleep included, but for the wrap-around of the counter of pended ticks |
| KernelSteps.DidLater | kernel/source/freertos/tasks.c:1354-3514 | whatever a call does, both records only grow |
| KernelCalls.DoTick | kernel/source/freertos/portable/GCC/MIPS32_HC16xx/port_timer.c:76-87 | the whole state after a tick interrupt: time goes on by one, exactly those due are ready in order, and if the handler asks for it the next in turn of the highest ready priority runs; while the scheduler is suspended one more tick is pended and nothing else changes |
| KernelCalls.DoEvent | kernel/source/freertos/tasks.c:3315-3375 | the whole state after an event: the first waiting task, of the highest priority there, is ready or pending, and a yield is pending if its priority is higher; with nobody waiting nothing changes |
| KernelCalls.DoResume | kernel/source/freertos/tasks.c:2315-2421 | the whole state after a resumption: pending tasks, then ticks, then the switch if one is asked for |
| KernelCalls.DoYield | kernel/source/freertos/tasks.c:3149-3223 | the whole state after a yield: the next in turn of the highest ready priority runs and one list turns by one; with the scheduler suspended it is put off |
| KernelCalls.DoSleep | kernel/source/freertos/tasks.c:1441-1480 | the whole state after a delay, whatever interrupts come in between, for all ticks including none, with the scheduler suspended before or not |
| KernelCalls.DoSleepUntil | kernel/source/freertos/tasks.c:1354-1434 | the same for a delay until one period after the last wake time |
| KernelCalls.DoWait | kernel/source/freertos/tasks.c:3229-3251 | the whole state after a wait for an event begins; the caller still runs until it yields |
| KernelCalls.DoAbort | kernel/source/freertos/tasks.c:2786-2859 | the whole state after a wait is broken off: a waiting task other than the caller is ready, told so if it waited for an event, and a switch follows exactly if one is due |
| KernelRuns.Perform | kernel/source/freertos/tasks.c:1354-3514 | one call of a program, whichever it is, does to the whole state what it should |
| TimeOuts.LastShownIs | kernel/source/freertos/tasks.c:1374-1395 | the only time within one run of the counter up to now at which the counter showed the value |
| TimeOuts.NextWake | kernel/source/freertos/tasks.c:1366-1401 | the comparisons of 32-bit values decide exactly whether the next wake time is still to come, and the 32-bit difference is the time until then |
| TimeOuts.CheckIsRight | kernel/source/freertos/tasks.c:3458-3508 | the exact condition under which the check for a time-out is right |
| TimeOuts.CheckCanBeWrong | kernel/source/freertos/tasks.c:3487-3508 | a time-out that the check misses |
| StarvedSelection.FirstOldest | kernel/source/freertos/tasks.c:233-246 | a greatest age, and the first one of the order of the scan |
| StarvedSelection.Selector.StarvedLaw | kernel/source/freertos/tasks.c:237 | who is starved, with limits that do not wrap around: at the highest priority whoever has been ready for the patience, and at each priority lower whoever has been ready for as many ticks more |
| StarvedSelection.Selector.StarvedWrapped | kernel/source/freertos/tasks.c:237 | a limit that does wrap around counts with its remainder, and at age zero nobody is starved |
| StarvedSelection.Selector.constructor | kernel/source/freertos/tasks.c:207-262 | with empty ready lists the selector is in a valid state |
| StarvedSelection.Selector.ScanList | kernel/source/freertos/tasks.c:229-247 | one scan sees every task of the list once, from the second in turn on, finds its longest ready task if that is starved and nothing otherwise, and turns the list by one |
| StarvedSelection.Selector.FindStarved | kernel/source/freertos/tasks.c:216-249 | finds the highest priority above that of the idle task with a starved task: with limits that do not wrap around, the one found has been ready for the ticks its priority allows, and nobody of a higher priority has; the lists looked at are turned by one, the others not |
| StarvedSelection.Selector.SelectHighestPriorityTask | kernel/source/freertos/tasks.c:207-262 | the longest ready task of that priority runs, and has been ready for that many ticks; if nobody is starved, the next in turn of the highest list, turned once more |
| StarvedSelection.Selector.AddTaskToReadyList | kernel/source/freertos/tasks.c:307-312 | the task goes to the end of its ready list with age zero, and the map stays right |
| SelectorRuns.ChoiceTurnsByTwo | kernel/source/freertos/tasks.c:227-256 | which task each of the choices in a row runs while nobody is starved |
| SelectorRuns.EqualShareIffOdd | kernel/source/freertos/tasks.c:207-258 | then every task runs once in as many choices as there are tasks if and only if their number is odd; for an even number the first in turn never runs |
| SelectorRuns.RunUnstarved | kernel/source/freertos/tasks.c:207-262 | a run of choices of the selector itself, with any ticks before each, makes these choices while nobody becomes starved |
| SelectorRuns.RunIdle | kernel/source/freertos/tasks.c:207-258 | with ready tasks of the idle priority alone, a run of choices of the selector takes them in turn, and as many choices as there are tasks run each once |
| SelectorRuns.EqualShareIffEqualAges | kernel/source/freertos/tasks.c:227-261 | of the choices made in a list with a starved task, as many as there are tasks run each of them if and only if all have been ready for equally long |
| SelectorRuns.TheOldestRunsAlone | kernel/source/freertos/tasks.c:233-261 | the one task that has been ready for longest is chosen every time |
| SelectorRuns.RunStarved | kernel/source/freertos/tasks.c:207-262 | a run of choices of the selector itself, with any ticks before each: while the highest priority with a starved task stays the same and no age wraps around, every choice runs the task of greatest age that the scan sees first and turns the list by one; both results above hold of it |
| Startup.InitialiseLists | kernel/source/freertos/tasks.c:3798-3827 | the lists are empty, distinct and in one valid memory |
| Startup.CreateTask | kernel/source/freertos/tasks.c:1040-1049 | a new task's items are in no list, belong to it, and its event item carries the complement of its priority |
| Startup.CreateTasks | kernel/source/freertos/tasks.c:1040-1049 | the same for any number of tasks, whose items are all different |
| Startup.Start | kernel/source/freertos/tasks.c:2094-2187 | for any tasks created before the start, the idle task among them, a new kernel with new lists and tasks starts in a state that satisfies its invariant: every task is ready, those of one priority in the order of creation, nothing is suspended or pending, the last one created of the highest priority runs, and the caller gets the tasks and the event lists |
| KernelRuns.Run | kernel/source/freertos/tasks.c:1354-3514 | any program of calls and interrupts: every call does what it should, from the state before to the state after it; the kernel stays valid; what the two records have said they go on to say; and the ticks recorded and still to be made up for are those there were and those of the program, less whole turns of the 32-bit counter of pended ticks, of which there are none if there are fewer ticks than it holds |
| KernelRuns.StartAndRun | kernel/source/freertos/tasks.c:2094-3025 | a kernel started with any tasks that then runs any program: every call does what it should; time and the ticks still to be made up for are the initial tick and the tick interrupts of the program, less those whole turns; and for every time exactly those owed a waking then have been woken then, in order, or still sleep |
| FixedMath.WidenNarrow | include/hcrtos/fixedmath.h:90-101 | narrowing undoes widening, for all b8 and b16 numbers |
| FixedMath.NarrowWiden | include/hcrtos/fixedmath.h:90-101 | a narrowed number is off by at most half a unit, if and only as long as it fits |
| FixedMath.UnsignedNarrowWiden | include/hcrtos/fixedmath.h:91-101 | both for the unsigned formats |
| FixedMath.NarrowWraps | include/hcrtos/fixedmath.h:90-101 | for every number, narrowing rounds to the nearest up to a multiple of the range of the narrow type |
| FixedMath.MulIsNearest | include/hcrtos/fixedmath.h:168 | the product is the correctly rounded one if and only if it is in range |
| FixedMath.MulLaws | include/hcrtos/fixedmath.h:168 | commutative, with one as identity |
| FixedMath.MulMonotone | include/hcrtos/fixedmath.h:168 | monotone in one factor if the other is not negative |
| FixedMath.MulOfIntegers | include/hcrtos/fixedmath.h:143 | exact on whole numbers |
| FixedMath.MulOfNegated | include/hcrtos/fixedmath.h:168 | exactly when the product of a negated factor is the negated product |
| FixedMath.MulWraps | include/hcrtos/fixedmath.h:168 | for every two factors, the product is the correctly rounded one up to a multiple of 2 to the power of 32 |
| FixedMath.QuotientIs | include/hcrtos/fixedmath.h:178 | the quotient is the only number that truncates: its product with the divisor is no larger than the dividend and misses it by less than the divisor, for all signs |
| FixedMath.DivTruncates | include/hcrtos/fixedmath.h:178 | division truncates toward zero if and only if the quotient is in range, and is off by a multiple of 2 to the power of 32 otherwise |
| FixedMath.DivOfNegated | include/hcrtos/fixedmath.h:178 | dividing the negated number gives the negated quotient |
| FixedMath.MulThenDiv | include/hcrtos/fixedmath.h:168-178 | multiplying and dividing by the same number misses the original by a bounded amount, for all signs |
| FixedMath.DivThenMul | include/hcrtos/fixedmath.h:168-178 | dividing and multiplying by a number of at most a half gives the original back exactly |
| FixedMath.UnsignedMulIsNearest | include/hcrtos/fixedmath.h:169 | the unsigned product is correctly rounded if it is in range |
| FixedMath.UnsignedDivThenMul | include/hcrtos/fixedmath.h:169-179 | the unsigned round trip is exact for a divisor of at most a half |
| FixedMath.UnsignedDivWraps | include/hcrtos/fixedmath.h:179 | the unsigned quotient is the one rounded down, up to a multiple of 2 to the power of 32 |
| FixedMath.InvUB16Is | include/hcrtos/fixedmath.h:155 | the fast inverse is exact for even numbers, never below the exact one, and within a unit in the divisor |
| FixedMath.InvB16Is | include/hcrtos/fixedmath.h:156 | the signed one is the exact inverse of the number rounded down to a multiple of four |
| FixedMath.TruncAndFrac | include/hcrtos/fixedmath.h:149-151 | the truncation is the largest whole number not above, and the parts rebuild the number |
| FixedMath.RoundIsNearest | include/hcrtos/fixedmath.h:150 | rounding gives the nearest whole number, as long as adding a half stays in the type |
| IoctlCodec.DecodedInRange | include/hcrtos/asm-generic/ioctl.h:94-97 | the fields read from any word are in range |
| IoctlCodec.EncodeDecode | include/hcrtos/asm-generic/ioctl.h:39-97 | re-encoding the four fields read from any word returns the word, for any widths that add up to 32 |
| IoctlCodec.DecodeEncode | include/hcrtos/asm-generic/ioctl.h:39-97 | encoding fields and decoding returns them if and only if they are in range, for any widths that add up to 32 |
| IoctlCodec.EncodeInjective | include/hcrtos/asm-generic/ioctl.h:69-73 | distinct fields in range give distinct commands |
| IoctlCodec.FitsIs | include/hcrtos/asm-generic/ioctl.h:39-42 | a word fits a field if and only if its value is below 2 to the power of the width |
| IoctlCodec.SameValue | include/hcrtos/asm-generic/ioctl.h:69-73 | two words of the same value are the same word, so that commands may be compared as numbers |
| IoctlCodec.ConstantsAre | include/hcrtos/asm-generic/ioctl.h:39-42 | the value of a mask is a power of 2 less one, that of a shifted bit a power of 2 |
| IoctlCodec.EncodedValue | include/hcrtos/asm-generic/ioctl.h:69-73 | the value of a command is the sum of its fields, each times the power of 2 of its place |
| IoctlCodec.BothLayoutsDecode | include/hcrtos/asm/ioctl.h:14-24 | both the generic 14/2 and the MIPS 13/3 layout satisfy all this |
| IoctlCodec.CodesAre | include/hcrtos/asm/ioctl.h:22-24 | the direction codes are 1, 2 and 4 for none, read and write on MIPS, and 0, 2 and 1 in the generic layout |
| IoctlCodec.CommandsDecode | include/hcrtos/asm-generic/ioctl.h:85-88 | each of the four kinds of command decodes to its own direction and its arguments, in both layouts |
| IoctlCodec.CommandsValue | include/hcrtos/asm-generic/ioctl.h:69-88 | the MIPS commands as numbers: number, type and size in their bytes, and 2, 4, 8 or 12 in the highest digit |
| IoctlCodec.ReadAndWriteSwap | include/hcrtos/asm/ioctl.h:22-24 | a generic write command is the MIPS read command of the same arguments |
| IoctlCodec.GenericIoIsNoMipsCommand | include/hcrtos/asm/ioctl.h:22-24 | a generic command without data is no MIPS command |

## Left out

- TaskControl.Kernel.AddCurrentTaskToDelayedList: a wait of zero ticks is excluded. The delay, notification and queue
  calls test for it first; with the counter at its greatest value it leaves a task in the delayed list at the wrap-around,
  against the assertion at `kernel/source/freertos/tasks.c:283` (`DelayedLists.ZeroWait`).
- KernelTime.Scheduler.AddCurrentTaskToDelayedList: the same.
- TaskControl.Kernel.PlaceOnEventList: the same.
- KernelRuns.Run: so in a program a wait for an event and a period have at least one tick, and no interrupts come during a
  delay of none, which does not suspend the scheduler; its tasks and event lists are those of the kernel.
- KernelTime.Scheduler.MakeReady: the configuration in which the time of becoming ready is noted is
  `StarvedSelection.Selector.AddTaskToReadyList`.
- The counts of items, suspensions and wrap-arounds are unbounded; the tick counter, item values and pended ticks wrap
  around at 32 bits.
- Interrupts between two critical sections of one call other than `Delay` and `DelayUntil`, and between the resumption and
  the switch of these; for the others they come between calls. The order in which several processors would see the writes
  is not modelled (`volatile`).
- Creating and deleting tasks at run time, changing priorities, priority inheritance, suspending and resuming single
  tasks, task notifications, queues, semaphores, event groups and software timers.
- Tickless idle, run-time statistics, stack checks, the trace macros and the integrity-check bytes; the tick hook, which is
  not compiled in (`include/hcrtos/freertos/FreeRTOSConfig.h:108`).
- Sorted insertion into the list a cursor walks: the fairness results are about get-next, insertion at the end and
  removal, which is what ready lists see.
- A choice of the optimised scheduler with nobody to choose (no ready task of the idle priority, and nobody above it
  starved): the code would look at priority -1.
- Functions that the public headers only declare.
- `b8mulb8` and `ub8mulub8` (`include/hcrtos/fixedmath.h:127-128`): the parentheses of the macros do not balance.
- `b32tob8` (`include/hcrtos/fixedmath.h:102`): it shifts by 8 where the widening would shift by 24, so no round trip holds.
- Conversions to and from floating point, the b8 forms of operations proved for b16, square roots and trigonometry.
- Pointer arithmetic from a link to the structure that contains it.
