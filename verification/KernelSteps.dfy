/** What every call does to the state of the kernel, as a relation between the states before and after it. */
module KernelSteps {
  import opened Sequences
  import opened RoundRobin
  import opened SortedInsertion
  import opened TimerQueue
  import opened DelayedLists
  import opened TimeOuts
  import opened TaskOrder
  import opened Interrupts
  import opened TaskControl
  import opened Deferral
  import opened Delays
  import KT = KernelTime

  /** An interrupt, or a call of the running task. */
  datatype Call =
    | Interrupted(interrupt: Interrupt)
    | Suspend
    | Resume
    | Yield
    | Sleep(ticks: Tick, between: seq<Interrupt>)
    | SleepUntil(last: Tick, increment: Tick, between: seq<Interrupt>)
    | WaitFor(list: List, limit: Tick)
    | AbortWait(task: Task)

  /** The time line, the two records, the suspension, the running task, the lists, and who has been told that its wait was
      broken off or awaits a notification. */
  datatype State = State(line: Clock<ListItem>, history: Events, turns: Turns, suspended: nat, pended: Tick, yieldPending: bool,
                         current: Task, image: Image, told: set<Task>, awaiting: set<Task>)

  ghost function Told(k: Kernel): set<Task>
    reads k.scheduler.tasks`delayAborted
  {
    set t | t in k.scheduler.tasks && t.delayAborted
  }

  ghost function Awaiting(k: Kernel): set<Task>
    reads k.scheduler.tasks`notifyStates
  {
    set t | t in k.scheduler.tasks && KT.WaitingForNotification in t.notifyStates
  }

  ghost function Now(k: Kernel): State
    requires k.scheduler.Lists().Closed()
    reads k, k.scheduler, k.scheduler.delayed`ring, k.scheduler.overflow`ring, k.scheduler.heap.lists`ring
    reads k.scheduler.heap.items`value, k.scheduler.tasks`delayAborted, k.scheduler.tasks`notifyStates
  {
    State(k.scheduler.Line(), k.history, k.turns, k.schedulerSuspended, k.pendedTicks, k.yieldPending, k.scheduler.current,
          k.scheduler.heap.Image(), Told(k), Awaiting(k))
  }

  /** What a call chose: the tasks it made ready, the lists with the caller asleep, and the state before a switch. */
  datatype How = How(moved: seq<Task>, woken: seq<Task>, asleep: Image, mid: State)

  // ---------- Parts ----------

  predicate Preempts(tasks: seq<Task>, current: Task) {
    exists t :: t in tasks && t.priority >= current.priority
  }

  /** More than one task of the running task's priority is ready. */
  ghost predicate CrowdedIn(k: Kernel, a: State) {
    && a.current.priority < |k.scheduler.ready| && k.scheduler.ready[a.current.priority] in a.image.rings
    && |a.image.rings[k.scheduler.ready[a.current.priority]].items| > 1
  }

  /** The running task is ready and is not the idle task. */
  ghost predicate MayBlockIn(k: Kernel, a: State) {
    && a.current != k.order.idle && a.current.priority < |k.scheduler.ready|
    && a.image.Holds(k.scheduler.ready[a.current.priority], a.current.stateItem)
  }

  /** A task that may not block does not wait at all. */
  ghost function Granted(k: Kernel, a: State, ticks: Tick): Tick {
    if MayBlockIn(k, a) then ticks else 0
  }

  /** A switch: the next in turn of the highest priority with a ready task runs, or it is put off. */
  ghost predicate Switched(k: Kernel, a: State, b: State) {
    if a.suspended > 0 then b == a.(yieldPending := true)
    else
      var p := b.current.priority;
      && p < |a.turns| == |k.scheduler.ready| && k.scheduler.ready[p] in a.image.rings
      && (forall q :: p < q < |k.scheduler.ready| ==>
            k.scheduler.ready[q] in a.image.rings && a.image.rings[k.scheduler.ready[q]].items == [])
      && var l := k.scheduler.ready[p];
      && a.image.rings[l].Valid() && a.image.rings[l].Next().cursor > 0
      && b.current in k.scheduler.tasks && b.current.stateItem == a.image.rings[l].Next().Current()
      && b == a.(turns := Turn(a.turns, p, GetNext), image := a.image.Put(l, a.image.rings[l].Next()),
                 current := b.current, yieldPending := false)
  }

  /** A tick: counted if the scheduler is suspended. Otherwise time goes on by one, those due are ready, and there is a
      switch if one of them may preempt, if two tasks share the running priority, or if a yield is pending. */
  ghost predicate TickDone(k: Kernel, a: State, b: State, woken: seq<Task>) {
    if a.suspended > 0 then b == a.(pended := Shown(a.pended + 1))
    else
      && k.WokenOf(a.line, woken) && |woken| == a.line.Due() && |a.turns| == |k.scheduler.ready|
      && var m := a.(line := a.line.Tick(), history := a.history + [TickEvent], turns := AllJoined(a.turns, woken),
                     image := k.scheduler.AfterWaking(a.image, woken));
         if a.yieldPending || Preempts(woken, a.current) || CrowdedIn(k, m) then Switched(k, m, b) else b == m
  }

  /** An event: the first task of the list, of the highest priority there, is ready or becomes pending; a yield is pending
      if its priority is above that of the running task. */
  ghost predicate EventDone(k: Kernel, a: State, b: State, l: List, moved: seq<Task>) {
    if l !in a.image.rings || a.image.rings[l].items == [] then b == a
    else
      && |moved| == 1
      && var task, items := moved[0], a.image.rings[l].items;
      && task in k.scheduler.tasks && task.eventItem == items[0] && task.priority < |a.turns| == |k.scheduler.ready|
      && (forall u :: u in k.scheduler.tasks && u.eventItem in items ==> u.priority <= task.priority)
      && var yieldPending := a.yieldPending || task.priority > a.current.priority;
         if a.suspended > 0 then b == a.(image := Served(k, a.image, EventInterrupt(l)), yieldPending := yieldPending)
         else b == a.(line := a.line.Leave(task.stateItem), history := a.history + Kernel.LeaveEvents(a.line, task.stateItem),
                      turns := Joined(a.turns, task), image := k.Moving(a.image, task), yieldPending := yieldPending)
  }

  /** The last suspension ends: the pending tasks are ready, then the ticks are made up for. */
  ghost predicate Resumed(k: Kernel, a: State, m: State, moved: seq<Task>, woken: seq<Task>) {
    && a.suspended == 1 && k.pendingReady in a.image.rings && |a.turns| == |k.scheduler.ready|
    && var items := a.image.rings[k.pendingReady].items;
    && |moved| == |items| && k.MovedFrom(items, moved)
    && var d := Kernel.AfterLeaving(a.line, moved);
    && k.WokenOf(d, woken) && Ticked(d, a.pended).sleepers == d.sleepers[|woken|..]
    && m == a.(line := Ticked(d, a.pended),
               history := a.history + Kernel.AllLeaveEvents(a.line, moved) + TickEvents(a.pended),
               turns := AllJoined(AllJoined(a.turns, moved), woken),
               image := k.scheduler.AfterWaking(k.AfterMoving(a.image, moved), woken),
               suspended := 0, pended := 0, yieldPending := m.yieldPending)
  }

  ghost predicate ResumeDone(k: Kernel, a: State, b: State, how: How) {
    if a.suspended == 0 then b == a
    else if a.suspended > 1 then b == a.(suspended := a.suspended - 1)
    else
      && Resumed(k, a, how.mid, how.moved, how.woken)
      && how.mid.yieldPending == (a.yieldPending || Preempts(how.moved + how.woken, a.current)
                                  || (a.pended > 0 && CrowdedIn(k, how.mid)))
      && if how.mid.yieldPending then Switched(k, how.mid, b) else b == how.mid
  }

  /** The running task suspends the scheduler, goes to sleep if it is to wait, interrupts come, the scheduler is resumed,
      and there is a switch. With the scheduler suspended before, it stays so, and only the interrupts come. */
  ghost predicate SleepDone(k: Kernel, a: State, b: State, ticks: Tick, between: seq<Interrupt>, how: How) {
    if a.suspended > 0 then
      b == a.(pended := Shown(a.pended + TicksIn(between)), image := AllServed(k, a.image, between), yieldPending := true)
    else
      && a.current.priority < |a.turns| && LeftIf(k, a.current, ticks, a.image.rings, how.asleep.rings)
      && OnlyValueOf(a.current.stateItem, a.image, how.asleep) && (ticks == 0 ==> how.asleep == a.image)
      && Resumed(k, Asleep(k, a, ticks, between, how.asleep), how.mid, how.moved, how.woken)
      && Switched(k, how.mid, b)
  }

  ghost predicate OnlyValueOf(x: ListItem, t: Image, u: Image) {
    u.values.Keys == t.values.Keys && forall y :: y in t.values && y != x ==> u.values[y] == t.values[y]
  }

  ghost function Asleep(k: Kernel, a: State, ticks: Tick, between: seq<Interrupt>, asleep: Image): State
    requires a.current.priority < |a.turns|
  {
    a.(line := AfterSleep(a.line, a.current, ticks), history := a.history + SleepEvents(a.current, ticks),
       turns := Departed(a.turns, a.current, ticks), suspended := 1, pended := Shown(TicksIn(between)),
       image := AllServed(k, asleep, between), told := if ticks > 0 then a.told - {a.current} else a.told)
  }

  /** In how many ticks the next wake time is, one period after the last one, if it is still to come. */
  function WakeIn(now: nat, last: Tick, increment: Tick): Tick {
    var d := LastShown(now, last) + increment - now;
    if d > 0 then d else 0
  }

  /** The running task waits for an event, in the list of the event and for so many ticks at most. */
  ghost predicate WaitDone(k: Kernel, a: State, b: State, l: List, limit: Tick) {
    if !MayBlockIn(k, a) then b == a
    else
      var x, forever := a.current.stateItem, limit == MAX_DELAY;
      && a.current.priority < |a.turns|
      && k.LeftReady(a.current, k.EventEntered(a.image, a.current, l).rings, b.image.rings)
      && OnlyValueOf(x, a.image, b.image) && (forever ==> b.image.Holds(k.scheduler.suspended, x))
      && b == a.(line := if forever then a.line else a.line.Sleep(x, limit),
                 history := a.history + if forever then [] else [SleepEvent(x, limit)],
                 turns := Turn(a.turns, a.current.priority, Removed(x)), image := b.image, told := a.told - {a.current})
  }

  ghost predicate IsWaitingIn(k: Kernel, a: State, task: Task) {
    || task.stateItem in Items(a.line.sleepers)
    || (a.image.Holds(k.scheduler.suspended, task.stateItem) && (a.image.Listed(task.eventItem) || task in a.awaiting))
  }

  /** A waiting task is made ready, and told so if it waited for an event. */
  ghost predicate AbortDone(k: Kernel, a: State, b: State, task: Task) {
    && task.priority < |a.turns| == |k.scheduler.ready|
    && var m := if task == a.current || !IsWaitingIn(k, a, task) then a
                else a.(line := a.line.Leave(task.stateItem),
                        history := a.history + Kernel.LeaveEvents(a.line, task.stateItem),
                        turns := Joined(a.turns, task), image := k.scheduler.Waking(a.image, task),
                        told := if a.image.Listed(task.eventItem) then a.told + {task} else a.told,
                        yieldPending := a.yieldPending || task.priority > a.current.priority);
       if a.suspended == 0 && m.yieldPending then Switched(k, m, b) else b == m
  }

  /** What a call does. One that the state does not allow to sleep or to wait does all the rest of it. */
  ghost predicate Did(k: Kernel, c: Call, a: State, b: State, how: How) {
    match c
    case Interrupted(TickInterrupt) => TickDone(k, a, b, how.woken)
    case Interrupted(EventInterrupt(l)) => EventDone(k, a, b, l, how.moved)
    case Suspend => b == a.(suspended := a.suspended + 1)
    case Resume => ResumeDone(k, a, b, how)
    case Yield => Switched(k, a, b)
    case Sleep(ticks, between) => SleepDone(k, a, b, Granted(k, a, ticks), between, how)
    case SleepUntil(last, increment, between) =>
      SleepDone(k, a, b, Granted(k, a, WakeIn(a.line.now, last, increment)), between, how)
    case WaitFor(l, limit) => WaitDone(k, a, b, l, limit)
    case AbortWait(task) => AbortDone(k, a, b, task)
  }

  /** A run: the states before, between and after the calls. */
  ghost predicate Trace(k: Kernel, calls: seq<Call>, states: seq<State>, hows: seq<How>) {
    && |states| == |calls| + 1 && |hows| == |calls|
    && forall i :: 0 <= i < |calls| ==> Did(k, calls[i], states[i], states[i + 1], hows[i])
  }

  // ---------- Ticks ----------

  function TicksOf(c: Call): nat {
    match c
    case Interrupted(TickInterrupt) => 1
    case Sleep(_, between) => TicksIn(between)
    case SleepUntil(_, _, between) => TicksIn(between)
    case _ => 0
  }

  /** The tick interrupts in a program, those that come while a task goes to sleep included. */
  function TicksOfAll(calls: seq<Call>): nat {
    if calls == [] then 0 else TicksOfAll(calls[..|calls| - 1]) + TicksOf(calls[|calls| - 1])
  }

  lemma {:induction false} TicksAdd(a: seq<Call>, b: seq<Call>)
    ensures TicksOfAll(a + b) == TicksOfAll(a) + TicksOfAll(b)
    decreases |b|
  {
    if b == [] {
      assert a + b == a;
    } else {
      var n := |b| - 1;
      assert (a + b)[..|a + b| - 1] == a + b[..n];
      TicksAdd(a, b[..n]);
    }
  }

  lemma {:induction false} LeavingTicks(c: Clock<ListItem>, moved: seq<Task>)
    ensures Ticks(Kernel.AllLeaveEvents(c, moved)) == 0
    decreases |moved|
  {
    if moved == [] {
    } else {
      var n := |moved| - 1;
      LeavingTicks(c, moved[..n]);
      TicksConcat(Kernel.AllLeaveEvents(c, moved[..n]), Kernel.LeaveEvents(Kernel.AfterLeaving(c, moved[..n]), moved[n].stateItem));
    }
  }

  lemma ResumedTicks(k: Kernel, a: State, m: State, moved: seq<Task>, woken: seq<Task>)
    requires Resumed(k, a, m, moved, woken)
    ensures Ticks(m.history) == Ticks(a.history) + a.pended && m.pended == 0
  {
    var leaves := Kernel.AllLeaveEvents(a.line, moved);
    LeavingTicks(a.line, moved);
    TicksConcat(a.history, leaves);
    TicksConcat(a.history + leaves, TickEvents(a.pended));
    TicksAlone<ListItem>(a.pended);
  }

  lemma ShownRest(n: nat) returns (lost: nat)
    ensures Shown(n) + WRAP * lost == n
  {
    lost := n / WRAP;
  }

  /** No tick is lost: those in the history and those still to be made up for are those that were, and those of the call;
      but for the counter of the latter, which wraps around. */
  ghost predicate TicksKept(a: State, b: State, ticks: nat, lost: nat) {
    Ticks(b.history) + b.pended + WRAP * lost == Ticks(a.history) + a.pended + ticks
  }

  lemma NoTickLost(a: State, b: State, ticks: nat)
    requires Ticks(b.history) + b.pended == Ticks(a.history) + a.pended + ticks
    ensures TicksKept(a, b, ticks, 0)
  {
  }

  lemma DidTicks(k: Kernel, c: Call, a: State, b: State, how: How) returns (lost: nat)
    requires Did(k, c, a, b, how) && (a.suspended == 0 ==> a.pended == 0)
    ensures TicksKept(a, b, TicksOf(c), lost)
  {
    hide TickDone, EventDone, ResumeDone, SleepDone, WaitDone, AbortDone, Switched, TicksKept, Ticks, Granted, WakeIn;
    lost := 0;
    match c {
      case Interrupted(TickInterrupt) => lost := TickTicks(k, a, b, how.woken);
      case Interrupted(EventInterrupt(l)) => EventTicks(k, a, b, l, how.moved);
      case Suspend => NoTickLost(a, b, 0);
      case Resume => ResumeTicks(k, a, b, how);
      case Yield => SwitchTicks(k, a, b);
      case Sleep(ticks, between) =>
        lost := SleepTicks(k, a, b, Granted(k, a, ticks), between, how);
      case SleepUntil(last, increment, between) =>
        lost := SleepTicks(k, a, b, Granted(k, a, WakeIn(a.line.now, last, increment)), between, how);
      case WaitFor(l, limit) => WaitTicks(k, a, b, l, limit);
      case AbortWait(task) => AbortTicks(k, a, b, task);
    }
  }

  lemma SwitchTicks(k: Kernel, a: State, b: State)
    requires Switched(k, a, b)
    ensures b.history == a.history && b.pended == a.pended && TicksKept(a, b, 0, 0)
  {
  }

  lemma TickTicks(k: Kernel, a: State, b: State, woken: seq<Task>) returns (lost: nat)
    requires TickDone(k, a, b, woken) && (a.suspended == 0 ==> a.pended == 0)
    ensures TicksKept(a, b, 1, lost)
  {
    hide Switched, AllJoined;
    lost := 0;
    if a.suspended > 0 {
      lost := ShownRest(a.pended + 1);
    } else {
      TicksConcat(a.history, [TickEvent]);
      TicksAlone<ListItem>(1);
      assert TickEvents<ListItem>(1) == [TickEvent];
      var m := a.(line := a.line.Tick(), history := a.history + [TickEvent], turns := AllJoined(a.turns, woken),
                  image := k.scheduler.AfterWaking(a.image, woken));
      if b != m {
        SwitchTicks(k, m, b);
      }
    }
  }

  lemma ResumeTicks(k: Kernel, a: State, b: State, how: How)
    requires ResumeDone(k, a, b, how) && (a.suspended == 0 ==> a.pended == 0)
    ensures TicksKept(a, b, 0, 0)
  {
    hide Switched, Resumed;
    if a.suspended == 1 {
      ResumedTicks(k, a, how.mid, how.moved, how.woken);
      if how.mid.yieldPending {
        SwitchTicks(k, how.mid, b);
      }
    }
  }

  lemma EventTicks(k: Kernel, a: State, b: State, l: List, moved: seq<Task>)
    requires EventDone(k, a, b, l, moved)
    ensures TicksKept(a, b, 0, 0)
  {
    hide Served;
    if |moved| == 1 {
      TicksConcat(a.history, Kernel.LeaveEvents(a.line, moved[0].stateItem));
    }
  }

  lemma SleepTicks(k: Kernel, a: State, b: State, ticks: Tick, between: seq<Interrupt>, how: How) returns (lost: nat)
    requires SleepDone(k, a, b, ticks, between, how) && (a.suspended == 0 ==> a.pended == 0)
    ensures TicksKept(a, b, TicksIn(between), lost)
  {
    hide Switched, Resumed, AllServed, LeftIf, OnlyValueOf, Departed, AfterSleep, TicksIn, Shown;
    lost := ShownRest(a.pended + TicksIn(between));
    if a.suspended == 0 {
      var s := Asleep(k, a, ticks, between, how.asleep);
      TicksConcat(a.history, SleepEvents(a.current, ticks));
      ResumedTicks(k, s, how.mid, how.moved, how.woken);
      SwitchTicks(k, how.mid, b);
      assert a.pended + TicksIn(between) == TicksIn(between);
    }
  }

  lemma WaitTicks(k: Kernel, a: State, b: State, l: List, limit: Tick)
    requires WaitDone(k, a, b, l, limit)
    ensures TicksKept(a, b, 0, 0)
  {
    hide MayBlockIn, OnlyValueOf;
    TicksConcat(a.history, if limit == MAX_DELAY then [] else [SleepEvent(a.current.stateItem, limit)]);
  }

  lemma AbortTicks(k: Kernel, a: State, b: State, task: Task)
    requires AbortDone(k, a, b, task)
    ensures TicksKept(a, b, 0, 0)
  {
    hide Switched, IsWaitingIn;
    TicksConcat(a.history, Kernel.LeaveEvents(a.line, task.stateItem));
    var m := if task == a.current || !IsWaitingIn(k, a, task) then a
             else a.(line := a.line.Leave(task.stateItem), history := a.history + Kernel.LeaveEvents(a.line, task.stateItem),
                     turns := Joined(a.turns, task), image := k.scheduler.Waking(a.image, task),
                     told := if a.image.Listed(task.eventItem) then a.told + {task} else a.told,
                     yieldPending := a.yieldPending || task.priority > a.current.priority);
    if b != m {
      SwitchTicks(k, m, b);
    }
  }

  // ---------- The records only grow ----------

  /** Every ready list has taken the turns it had taken before, and perhaps more. */
  ghost predicate LaterTurns(was: Turns, now: Turns) {
    |was| == |now| && forall p :: 0 <= p < |was| ==> was[p] <= now[p]
  }

  lemma TurnLater(log: Turns, p: nat, step: Step<ListItem>)
    requires p < |log|
    ensures LaterTurns(log, Turn(log, p, step))
  {
    TurnGoesOn(log, p, step);
  }

  lemma JoinedLater(log: Turns, woken: seq<Task>)
    requires forall u :: u in woken ==> u.priority < |log|
    ensures LaterTurns(log, AllJoined(log, woken))
  {
    JoiningTakesNoTurn(log, woken);
  }

  lemma LaterStill(a: Turns, b: Turns, c: Turns)
    requires LaterTurns(a, b) && LaterTurns(b, c)
    ensures LaterTurns(a, c)
  {
  }

  ghost predicate Later(a: State, b: State) {
    a.history <= b.history && LaterTurns(a.turns, b.turns)
  }

  lemma LaterStates(a: State, b: State, c: State)
    requires Later(a, b) && Later(b, c)
    ensures Later(a, c)
  {
    LaterStill(a.turns, b.turns, c.turns);
  }

  lemma SwitchedLater(k: Kernel, a: State, b: State)
    requires Switched(k, a, b)
    ensures Later(a, b)
  {
    if a.suspended == 0 {
      TurnLater(a.turns, b.current.priority, GetNext);
    }
  }

  lemma ResumedLater(k: Kernel, a: State, m: State, moved: seq<Task>, woken: seq<Task>)
    requires Resumed(k, a, m, moved, woken)
    ensures Later(a, m)
  {
    JoinedLater(a.turns, moved);
    JoinedLater(AllJoined(a.turns, moved), woken);
    LaterStill(a.turns, AllJoined(a.turns, moved), m.turns);
  }

  /** What the two records have said, they go on to say. */
  lemma DidLater(k: Kernel, c: Call, a: State, b: State, how: How)
    requires Did(k, c, a, b, how)
    ensures Later(a, b)
  {
    match c {
      case Interrupted(TickInterrupt) => TickLater(k, a, b, how.woken);
      case Interrupted(EventInterrupt(l)) =>
        if l in a.image.rings && a.image.rings[l].items != [] && a.suspended == 0 {
          TurnLater(a.turns, how.moved[0].priority, Added(how.moved[0].stateItem));
        }
      case Suspend =>
      case Resume =>
        if a.suspended == 1 {
          ResumedLater(k, a, how.mid, how.moved, how.woken);
          if how.mid.yieldPending {
            SwitchedLater(k, how.mid, b);
            LaterStates(a, how.mid, b);
          }
        }
      case Yield => SwitchedLater(k, a, b);
      case Sleep(ticks, between) => SleepLater(k, a, b, Granted(k, a, ticks), between, how);
      case SleepUntil(last, increment, between) =>
        SleepLater(k, a, b, Granted(k, a, WakeIn(a.line.now, last, increment)), between, how);
      case WaitFor(l, limit) =>
        if MayBlockIn(k, a) {
          TurnLater(a.turns, a.current.priority, Removed(a.current.stateItem));
        }
      case AbortWait(task) => AbortLater(k, a, b, task);
    }
  }

  lemma TickLater(k: Kernel, a: State, b: State, woken: seq<Task>)
    requires TickDone(k, a, b, woken)
    ensures Later(a, b)
  {
    if a.suspended == 0 {
      JoinedLater(a.turns, woken);
      var m := a.(line := a.line.Tick(), history := a.history + [TickEvent], turns := AllJoined(a.turns, woken),
                  image := k.scheduler.AfterWaking(a.image, woken));
      if b != m {
        SwitchedLater(k, m, b);
        LaterStates(a, m, b);
      }
    }
  }

  lemma SleepLater(k: Kernel, a: State, b: State, ticks: Tick, between: seq<Interrupt>, how: How)
    requires SleepDone(k, a, b, ticks, between, how)
    ensures Later(a, b)
  {
    if a.suspended == 0 {
      var s := Asleep(k, a, ticks, between, how.asleep);
      TurnLater(a.turns, a.current.priority, Removed(a.current.stateItem));
      ResumedLater(k, s, how.mid, how.moved, how.woken);
      SwitchedLater(k, how.mid, b);
      LaterStates(a, s, how.mid);
      LaterStates(a, how.mid, b);
    }
  }

  lemma AbortLater(k: Kernel, a: State, b: State, task: Task)
    requires AbortDone(k, a, b, task)
    ensures Later(a, b)
  {
    TurnLater(a.turns, task.priority, Added(task.stateItem));
    if task != a.current && IsWaitingIn(k, a, task) {
      var m := a.(line := a.line.Leave(task.stateItem), history := a.history + Kernel.LeaveEvents(a.line, task.stateItem),
                  turns := Joined(a.turns, task), image := k.scheduler.Waking(a.image, task),
                  told := if a.image.Listed(task.eventItem) then a.told + {task} else a.told,
                  yieldPending := a.yieldPending || task.priority > a.current.priority);
      if b != m {
        SwitchedLater(k, m, b);
        LaterStates(a, m, b);
      }
    } else if b != a {
      SwitchedLater(k, a, b);
    }
  }
}
