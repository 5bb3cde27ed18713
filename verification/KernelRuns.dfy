/** Whole runs of the kernel, from its start: whatever is called, by whichever task runs and by interrupts, every call does
    what `KernelSteps` says, the invariant holds, no tick is lost, and those who sleep wake on time. */
module KernelRuns {
  import opened Sequences
  import opened RoundRobin
  import opened SortedInsertion
  import opened TimerQueue
  import opened DelayedLists
  import opened TaskOrder
  import opened Interrupts
  import opened TaskControl
  import opened Deferral
  import opened Delays
  import opened KernelSteps
  import opened KernelCalls
  import KernelLaws
  import BrokenWaits
  import KH = KernelHeap
  import KT = KernelTime
  import Startup

  predicate Known(lists: seq<List>, interrupt: Interrupt) {
    interrupt.EventInterrupt? ==> interrupt.list in lists
  }

  /** What the source asks of the arguments: tasks and event lists that there are, no empty wait or period, and no interrupts
      during a delay of no ticks, which does not suspend the scheduler. */
  predicate Sensible(tasks: seq<Task>, lists: seq<List>, c: Call) {
    match c
    case Interrupted(interrupt) => Known(lists, interrupt)
    case Sleep(ticks, between) => (ticks == 0 ==> between == []) && forall i :: i in between ==> Known(lists, i)
    case SleepUntil(_, increment, between) => increment > 0 && forall i :: i in between ==> Known(lists, i)
    case WaitFor(l, limit) => l in lists && limit > 0
    case AbortWait(task) => task in tasks
    case _ => true
  }

  predicate AllSensible(tasks: seq<Task>, lists: seq<List>, calls: seq<Call>) {
    forall c :: c in calls ==> Sensible(tasks, lists, c)
  }

  /** The tasks, the idle task among them, and the event lists of the kernel. */
  ghost predicate PartsOf(k: Kernel, tasks: seq<Task>, lists: seq<List>, idle: Task) {
    k.scheduler.tasks == Startup.TaskSet(tasks) && k.order.events == Members(lists) && k.order.idle == idle
  }

  lemma SensibleIs(k: Kernel, tasks: seq<Task>, lists: seq<List>, idle: Task, c: Call)
    requires PartsOf(k, tasks, lists, idle) && Sensible(tasks, lists, c)
    ensures k.order.idle == idle
    ensures c.Interrupted? && c.interrupt.EventInterrupt? ==> c.interrupt.list in k.order.events
    ensures c.Sleep? || c.SleepUntil? ==> ForEvents(k, c.between)
    ensures c.SleepUntil? ==> c.increment > 0
    ensures c.WaitFor? ==> c.list in k.order.events && c.limit > 0
    ensures c.AbortWait? ==> c.task in k.scheduler.tasks
  {
  }

  lemma NoChoice(k: Kernel, a: State) returns (how: How)
    ensures how == How([], [], a.image, a)
  {
    how := How([], [], a.image, a);
  }

  lemma DidIs(k: Kernel, c: Call, a: State, b: State, how: How)
    requires match c
             case Interrupted(TickInterrupt) => TickDone(k, a, b, how.woken)
             case Interrupted(EventInterrupt(l)) => EventDone(k, a, b, l, how.moved)
             case Suspend => b == a.(suspended := a.suspended + 1)
             case Resume => ResumeDone(k, a, b, how)
             case Yield => Switched(k, a, b)
             case Sleep(ticks, between) => SleepDone(k, a, b, Granted(k, a, ticks), between, how)
             case SleepUntil(last, increment, between) =>
               SleepDone(k, a, b, Granted(k, a, WakeIn(a.line.now, last, increment)), between, how)
             case WaitFor(l, limit) => WaitDone(k, a, b, l, limit)
             case AbortWait(task) => AbortDone(k, a, b, task)
    ensures Did(k, c, a, b, how)
  {
  }

  /** One call does what it is said to do. */
  method Perform(k: Kernel, tasks: seq<Task>, lists: seq<List>, idle: Task, c: Call) returns (ghost how: How)
    requires k.Valid() && PartsOf(k, tasks, lists, idle) && Sensible(tasks, lists, c)
    modifies k, k.scheduler, k.scheduler.heap.lists, k.scheduler.heap.items, k.scheduler.heap.ends
    modifies k.scheduler.tasks`delayAborted
    ensures k.Valid() && Did(k, c, old(Now(k)), Now(k), how)
  {
    hide *;
    CurrentIn(k);
    SensibleIs(k, tasks, lists, idle, c);
    ghost var a := Now(k);
    NowIs(k);
    how := NoChoice(k, a);
    match c {
      case Interrupted(interrupt) =>
        match interrupt {
          case TickInterrupt =>
            ghost var woken := DoTick(k);
            how := How([], woken, a.image, a);
          case EventInterrupt(l) =>
            ghost var moved := DoEvent(k, l);
            how := How(moved, [], a.image, a);
        }
      case Suspend => DoSuspend(k);
      case Resume => how := DoResume(k);
      case Yield => DoYield(k);
      case Sleep(ticks, between) => how := DoSleep(k, ticks, between, idle, a);
      case SleepUntil(last, increment, between) => how := DoSleepUntil(k, last, increment, between, idle, a);
      case WaitFor(l, limit) => DoWait(k, l, limit, idle);
      case AbortWait(task) => DoAbort(k, task);
    }
    CurrentIn(k);
    DidIs(k, c, a, Now(k), how);
  }

  // ---------- Programs ----------

  /** What is known after n calls of a program. */
  ghost predicate Ran(k: Kernel, calls: seq<Call>, n: nat, states: seq<State>, hows: seq<How>, lost: nat)
    reads k, k.scheduler, k.scheduler.delayed, k.scheduler.overflow, k.pendingReady`ring
    reads k.scheduler.heap.lists, k.scheduler.heap.items, k.scheduler.heap.ends
    reads k.scheduler.tasks`delayAborted, k.scheduler.tasks`notifyStates
  {
    && n <= |calls| && k.Valid() && k.scheduler.Lists().Closed() && Trace(k, calls[..n], states, hows)
    && states[n] == Now(k) && Later(states[0], states[n])
    && TicksKept(states[0], states[n], TicksOfAll(calls[..n]), lost)
  }

  lemma NothingRan(k: Kernel, calls: seq<Call>)
    requires k.Valid() && k.scheduler.Lists().Closed()
    ensures Ran(k, calls, 0, [Now(k)], [], 0)
  {
  }

  lemma RanParts(k: Kernel, calls: seq<Call>, n: nat, states: seq<State>, hows: seq<How>, lost: nat)
    requires Ran(k, calls, n, states, hows, lost)
    ensures n <= |calls| && k.Valid() && k.scheduler.Lists().Closed() && |states| == n + 1 && |hows| == n
    ensures states[n] == Now(k)
  {
  }

  lemma TraceMore(k: Kernel, calls: seq<Call>, n: nat, states: seq<State>, hows: seq<How>, b: State, how: How)
    requires n < |calls| && |states| == n + 1 && Trace(k, calls[..n], states, hows) && Did(k, calls[n], states[n], b, how)
    ensures Trace(k, calls[..n + 1], states + [b], hows + [how])
  {
    hide Did;
    var ss, hs := states + [b], hows + [how];
    forall i | 0 <= i < n + 1 ensures Did(k, calls[..n + 1][i], ss[i], ss[i + 1], hs[i]) {
      if i < n {
        assert Did(k, calls[..n][i], states[i], states[i + 1], hows[i]);
      }
    }
  }

  lemma TicksMore(a: State, b: State, c: State, m: nat, n: nat, lost: nat, more: nat)
    requires TicksKept(a, b, m, lost) && TicksKept(b, c, n, more)
    ensures TicksKept(a, c, m + n, lost + more)
  {
    assert WRAP * (lost + more) == WRAP * lost + WRAP * more;
  }

  lemma TicksOfMore(calls: seq<Call>, n: nat)
    requires n < |calls|
    ensures TicksOfAll(calls[..n + 1]) == TicksOfAll(calls[..n]) + TicksOf(calls[n])
  {
    assert calls[..n + 1][..n] == calls[..n];
  }

  lemma OneMoreRan(k: Kernel, calls: seq<Call>, n: nat, states: seq<State>, hows: seq<How>, lost: nat, how: How)
    returns (more: nat)
    requires n < |calls| && |states| == n + 1 && Trace(k, calls[..n], states, hows) && Later(states[0], states[n])
    requires TicksKept(states[0], states[n], TicksOfAll(calls[..n]), lost)
    requires states[n].suspended == 0 ==> states[n].pended == 0
    requires k.Valid() && k.scheduler.Lists().Closed() && Did(k, calls[n], states[n], Now(k), how)
    ensures Ran(k, calls, n + 1, states + [Now(k)], hows + [how], lost + more)
  {
    hide Did, Trace, TicksKept, Later, Kernel.Valid, TicksOf, TicksOfAll;
    more := DidTicks(k, calls[n], states[n], Now(k), how);
    DidLater(k, calls[n], states[n], Now(k), how);
    LaterStates(states[0], states[n], Now(k));
    TraceMore(k, calls, n, states, hows, Now(k), how);
    TicksMore(states[0], states[n], Now(k), TicksOfAll(calls[..n]), TicksOf(calls[n]), lost, more);
    TicksOfMore(calls, n);
    TraceLengths(k, calls[..n], states, hows);
  }

  lemma TraceLengths(k: Kernel, calls: seq<Call>, states: seq<State>, hows: seq<How>)
    requires Trace(k, calls, states, hows)
    ensures |states| == |calls| + 1 && |hows| == |calls|
  {
  }

  lemma RanBefore(k: Kernel, calls: seq<Call>, n: nat, states: seq<State>, hows: seq<How>, lost: nat)
    requires Ran(k, calls, n, states, hows, lost)
    ensures Trace(k, calls[..n], states, hows) && Later(states[0], states[n])
    ensures TicksKept(states[0], states[n], TicksOfAll(calls[..n]), lost)
    ensures states[n].suspended == 0 ==> states[n].pended == 0
  {
    k.ValidParts();
  }

  /** Any program of calls: each does what it is said to do, the kernel stays valid, its records go on from what they were,
      and no tick is lost but by the counter of the ticks to be made up for, when there are as many as it can hold. */
  method Run(k: Kernel, tasks: seq<Task>, lists: seq<List>, idle: Task, calls: seq<Call>)
    returns (ghost states: seq<State>, ghost hows: seq<How>, ghost lost: nat)
    requires k.Valid() && PartsOf(k, tasks, lists, idle) && AllSensible(tasks, lists, calls)
    modifies k, k.scheduler, k.scheduler.heap.lists, k.scheduler.heap.items, k.scheduler.heap.ends
    modifies k.scheduler.tasks`delayAborted
    ensures k.Valid() && Trace(k, calls, states, hows) && states[0] == old(Now(k)) && states[|calls|] == Now(k)
    ensures Later(old(Now(k)), Now(k))
    ensures Ticks(k.history) + k.pendedTicks + WRAP * lost == old(Ticks(k.history) + k.pendedTicks) + TicksOfAll(calls)
    ensures old(k.pendedTicks) + TicksOfAll(calls) < WRAP ==> lost == 0
  {
    hide *;
    CurrentIn(k);
    NowIs(k);
    states, hows, lost := [Now(k)], [], 0;
    NothingRan(k, calls);
    for n := 0 to |calls|
      invariant Ran(k, calls, n, states, hows, lost) && |states| == n + 1 && states[0] == old(Now(k))
    {
      RanParts(k, calls, n, states, hows, lost);
      RanBefore(k, calls, n, states, hows, lost);
      EachSensible(tasks, lists, calls, n);
      ghost var how := Perform(k, tasks, lists, idle, calls[n]);
      CurrentIn(k);
      ghost var more := OneMoreRan(k, calls, n, states, hows, lost, how);
      states, hows, lost := states + [Now(k)], hows + [how], lost + more;
    }
    RanParts(k, calls, |calls|, states, hows, lost);
    RanBefore(k, calls, |calls|, states, hows, lost);
    NowIs(k);
    assert calls[..|calls|] == calls;
    FewLost(states[0], Now(k), lost, TicksOfAll(calls));
  }

  lemma EachSensible(tasks: seq<Task>, lists: seq<List>, calls: seq<Call>, n: nat)
    requires AllSensible(tasks, lists, calls) && n < |calls|
    ensures Sensible(tasks, lists, calls[n])
  {
  }

  lemma FewLost(a: State, b: State, lost: nat, ticks: nat)
    requires Later(a, b) && TicksKept(a, b, ticks, lost)
    ensures Ticks(b.history) + b.pended + WRAP * lost == Ticks(a.history) + a.pended + ticks
    ensures a.pended + ticks < WRAP ==> lost == 0
  {
    var rest := b.history[|a.history|..];
    assert b.history == a.history + rest;
    TicksConcat(a.history, rest);
    if lost > 0 {
      assert WRAP * lost >= WRAP;
    }
  }

  lemma NothingCalled(tasks: seq<Task>, lists: seq<List>)
    ensures AllSensible(tasks, lists, []) && Ticks<ListItem>([]) == 0
  {
  }

  /** From the start on, whatever is called (a program that is not sensible is not run): every call does what it is said to
      do; time is what the ticks of the program have made it, but for those still to be made up for; and for every time
      after the start, exactly those owed a waking at that time have been woken by the tick that reached it, in the order of
      going to sleep, or still sleep if it is to come. */
  method StartAndRun(priorities: nat, given: seq<nat>, idle: nat, events: nat, initialTick: Tick,
                     program: (seq<Task>, seq<List>) -> seq<Call>)
    returns (k: Kernel, tasks: seq<Task>, lists: seq<List>, calls: seq<Call>,
             ghost states: seq<State>, ghost hows: seq<How>, ghost lost: nat)
    requires 0 < priorities <= 32 && idle < |given| && given[idle] == 0
    requires forall i :: 0 <= i < |given| ==> given[i] < priorities
    ensures fresh(k) && k.Valid() && k.start == Clock(initialTick, []) && AllPossible(k.start, k.history)
    ensures |tasks| == |given| && |lists| == events && forall i :: 0 <= i < |given| ==> tasks[i].priority == given[i]
    ensures calls == if AllSensible(tasks, lists, program(tasks, lists)) then program(tasks, lists) else []
    ensures Trace(k, calls, states, hows) && states[|calls|] == Now(k)
    ensures AtStart(k, states[0], tasks, initialTick)
    ensures k.scheduler.Lists().Closed()
    ensures k.scheduler.Line().now + k.pendedTicks + WRAP * lost == initialTick + TicksOfAll(calls)
    ensures TicksOfAll(calls) < WRAP ==> lost == 0
    ensures forall t: nat :: initialTick < t ==>
              (if t <= k.scheduler.Line().now then WokenAt(k.start, k.history, t) else With(k.scheduler.Line().sleepers, t))
              == Owed(k.start, k.history, t, [])
  {
    hide *;
    k, tasks, lists := Startup.Start(priorities, given, idle, events, initialTick);
    PartsAre(k, tasks, lists, tasks[idle]);
    CurrentIn(k);
    k.ValidParts();
    NowIs(k);
    AtStartIs(k, tasks, initialTick);
    calls := if AllSensible(tasks, lists, program(tasks, lists)) then program(tasks, lists) else [];
    NothingCalled(tasks, lists);
    states, hows, lost := Run(k, tasks, lists, tasks[idle], calls);
    TimeIsTicks(k);
    forall t: nat | initialTick < t
      ensures (if t <= k.scheduler.Line().now then WokenAt(k.start, k.history, t) else With(k.scheduler.Line().sleepers, t))
              == Owed(k.start, k.history, t, [])
    {
      OnTime(k, t);
    }
  }

  /** The state at the start: no time has passed, nothing is suspended or pending, and all tasks are ready. */
  ghost predicate AtStart(k: Kernel, a: State, tasks: seq<Task>, initialTick: Tick) {
    && a.line == Clock(initialTick, []) && a.history == [] && a.suspended == 0 && a.pended == 0 && !a.yieldPending
    && a.told == {} && a.awaiting == {} && Startup.LastHighest(tasks, |tasks|, a.current)
    && forall t :: t in tasks ==> t.priority < |k.scheduler.ready| && a.image.Holds(k.scheduler.ready[t.priority], t.stateItem)
  }

  lemma AtStartIs(k: Kernel, tasks: seq<Task>, initialTick: Tick)
    requires k.Valid() && k.scheduler.Lists().Closed() && k.scheduler.Line() == Clock(initialTick, []) && k.history == []
    requires k.schedulerSuspended == 0 && k.pendedTicks == 0 && !k.yieldPending
    requires forall t :: t in k.scheduler.tasks ==> t in tasks
    requires forall t :: t in tasks ==>
               && !t.delayAborted && KT.WaitingForNotification !in t.notifyStates && t in k.scheduler.tasks
               && t.priority < |k.scheduler.ready| && t.stateItem.container == k.scheduler.ready[t.priority]
    requires Startup.LastHighest(tasks, |tasks|, k.scheduler.current)
    ensures AtStart(k, Now(k), tasks, initialTick)
  {
    CurrentIn(k);
    ImageNow(k);
    ReadyListed(k);
    forall t | t in tasks ensures Now(k).image.Holds(k.scheduler.ready[t.priority], t.stateItem) {
      BrokenWaits.PriorityOf(k, t);
      KH.ContainerIsMembership(k.scheduler.heap, k.scheduler.ready[t.priority], t.stateItem);
    }
  }

  lemma PartsAre(k: Kernel, tasks: seq<Task>, lists: seq<List>, idle: Task)
    requires k.scheduler.tasks == Startup.TaskSet(tasks) && k.order.events == Members(lists) && k.order.idle == idle
    ensures PartsOf(k, tasks, lists, idle) && forall t :: t in k.scheduler.tasks <==> t in tasks
  {
  }

  lemma TimeIsTicks(k: Kernel)
    requires k.Valid()
    ensures k.scheduler.Lists().Closed() && AllPossible(k.start, k.history)
    ensures k.scheduler.Line().now == k.start.now + Ticks(k.history)
  {
    hide *;
    k.ValidParts();
    k.SteadyParts();
    k.LogParts();
    WokenAreDue(k.start, k.history, 0);
  }

  lemma OnTime(k: Kernel, t: nat)
    requires k.Valid() && k.scheduler.Lists().Closed() && AllPossible(k.start, k.history)
    requires k.start.now < t && k.start.sleepers == []
    ensures (if t <= k.scheduler.Line().now then WokenAt(k.start, k.history, t) else With(k.scheduler.Line().sleepers, t))
            == Owed(k.start, k.history, t, [])
  {
    hide Kernel.Valid, Kernel.Steady, WokenAt, Owed;
    k.ValidParts();
    KernelLaws.WakeTimes(k, t);
  }
}
