/** How one task ends the wait of another. */
module BrokenWaits {
  import opened Sequences
  import opened SortedInsertion
  import opened ListTable
  import opened TimerQueue
  import opened DelayedLists
  import opened TaskOrder
  import opened TaskControl
  import KH = KernelHeap
  import KT = KernelTime

  /** The task sleeps, or waits for an event or a notification without an end. */
  ghost predicate IsWaiting(k: Kernel, task: Task)
    requires k.scheduler.Lists().Closed()
    reads k.scheduler, k.scheduler.delayed`ring, k.scheduler.overflow`ring, k.scheduler.heap.items`value
    reads task.stateItem`container, task.eventItem`container, task`notifyStates
  {
    || task.stateItem in Items(k.scheduler.Line().sleepers)
    || (task.stateItem.container == k.scheduler.suspended
        && (task.eventItem.container != null || KT.WaitingForNotification in task.notifyStates))
  }

  lemma SleepsInLists(k: Kernel, task: Task)
    requires k.Steady() && task in k.scheduler.tasks
    ensures k.scheduler.Lists().Closed()
    ensures task.stateItem in Items(k.scheduler.Line().sleepers) <==>
            task.stateItem.container == k.scheduler.delayed || task.stateItem.container == k.scheduler.overflow
    ensures k.scheduler.delayed !in k.scheduler.ready && k.scheduler.overflow !in k.scheduler.ready
    ensures k.scheduler.suspended !in k.scheduler.ready
  {
    ItemsOf(k.scheduler.Lists(), k.scheduler.Base());
    KH.ContainerIsMembership(k.scheduler.heap, k.scheduler.delayed, task.stateItem);
    KH.ContainerIsMembership(k.scheduler.heap, k.scheduler.overflow, task.stateItem);
  }

  method AwaitsNotification(task: Task) returns (awaits: bool)
    ensures awaits <==> KT.WaitingForNotification in task.notifyStates
  {
    awaits := false;
    for x := 0 to |task.notifyStates|
      invariant !awaits && KT.WaitingForNotification !in task.notifyStates[..x]
    {
      if task.notifyStates[x] == KT.WaitingForNotification {
        awaits := true;
        break;
      }
    }
  }

  method GetState(k: Kernel, task: Task) returns (state: TaskState)
    requires k.Steady() && task in k.scheduler.tasks
    ensures k.scheduler.Lists().Closed()
    ensures state == RunningState <==> task == k.scheduler.current
    ensures state == BlockedState <==> task != k.scheduler.current && IsWaiting(k, task)
    ensures state == SuspendedState <==>
            && task != k.scheduler.current && task.stateItem.container == k.scheduler.suspended
            && task.eventItem.container == null && KT.WaitingForNotification !in task.notifyStates
    ensures state == DeletedState <==> task != k.scheduler.current && task.stateItem.container == null
    ensures state == ReadyState <==>
            && task != k.scheduler.current && task.stateItem.container != null
            && task.stateItem.container !in {k.scheduler.delayed, k.scheduler.overflow, k.scheduler.suspended}
    ensures task != k.scheduler.current && task.stateItem.container in k.scheduler.ready ==> state == ReadyState
    ensures state == BlockedState ==> task.stateItem.container != null && task.stateItem.container !in k.scheduler.ready
  {
    SleepsInLists(k, task);
    var l := task.stateItem.container;
    if task == k.scheduler.current {
      state := RunningState;
    } else if l == k.scheduler.delayed || l == k.scheduler.overflow {
      state := BlockedState;
    } else if l == k.scheduler.suspended {
      if task.eventItem.container == null {
        var awaits := AwaitsNotification(task);
        state := if awaits then BlockedState else SuspendedState;
      } else {
        state := BlockedState;
      }
    } else if l == null {
      state := DeletedState;
    } else {
      state := ReadyState;
    }
  }

  /** Of the pending tasks, a wake-up takes the woken one at most. */
  lemma WakingPending(k: Kernel, t: Image, task: Task)
    requires task in k.scheduler.tasks && KT.TasksPlaced(k.scheduler.tasks, k.scheduler.heap, |k.scheduler.ready|)
    requires Runs(t, k.scheduler.WakeCommands(t, task)) && k.pendingReady in t.rings && k.pendingReady !in k.scheduler.ready
    requires t.rings[k.pendingReady].cursor == 0
    requires forall x :: x in t.rings[k.pendingReady].items ==> k.IsEventItem(x)
    ensures var w, items := k.scheduler.Waking(t, task), t.rings[k.pendingReady].items;
            && k.pendingReady in w.rings && w.rings[k.pendingReady].items == Minus(items, task.eventItem)
            && w.rings[k.pendingReady].cursor == 0
            && forall x :: x in w.rings[k.pendingReady].items ==> k.IsEventItem(x)
  {
    var x, e, l := task.stateItem, task.eventItem, k.pendingReady;
    var r, items := k.scheduler.ready[task.priority], t.rings[k.pendingReady].items;
    var first: seq<Command<List, ListItem>> := [Take(x)];
    var second: seq<Command<List, ListItem>> := if t.Listed(e) then [Take(e)] else [];
    var third: seq<Command<List, ListItem>> := [Append(r, x)];
    RunsConcat(t, first + second, third);
    RunsConcat(t, first, second);
    assert !k.IsEventItem(x);
    OneCommand(t, Take(x), l, e);
    var u := Final(t, first);
    assert u.rings[l] == t.rings[l];
    if second != [] {
      OneCommand(u, Take(e), l, e);
      TakenFrom(k, u, l, e);
    } else {
      NotListedIn(t, e, l);
    }
    OneCommand(Final(t, first + second), Append(r, x), l, e);
  }

  /** Taking an item leaves any list without the item, and a cursor on the marker stays there. */
  lemma TakenFrom(k: Kernel, t: Image, l: List, e: ListItem)
    requires t.Valid() && Permitted(t, Take(e)) && l in t.rings && t.rings[l].cursor == 0
    ensures var u := Effect(t, Take(e));
            && l in u.rings && u.rings[l].items == Minus(t.rings[l].items, e) && u.rings[l].cursor == 0
            && forall y :: y in u.rings[l].items ==> y in t.rings[l].items
  {
    var items := t.rings[l].items;
    EffectRing(t, Take(e));
    if e in items {
      assert t.Holds(l, e);
      HolderIs(t, e, l);
      ErasedMembers(items, IndexOf(items, e));
    } else {
      assert t.Holder(e) != l;
    }
  }

  /** A blocked task becomes ready, out of whatever it waits for. */
  method BreakOff(k: Kernel, task: Task)
    requires k.Steady() && task in k.scheduler.tasks
    requires task.stateItem.container != null && task.stateItem.container !in k.scheduler.ready
    modifies k`history, k`turns, k.scheduler`readyPriorities
    modifies k.scheduler.heap.lists`ring, k.scheduler.heap.lists`repr, k.scheduler.heap.lists`numberOfItems
    modifies k.scheduler.heap.lists`index, k.scheduler.heap.items`container, k.scheduler.heap.items`next
    modifies k.scheduler.heap.items`previous, k.scheduler.heap.ends`next, k.scheduler.heap.ends`previous
    ensures k.Steady() && old(k.scheduler.Lists().Closed()) && k.scheduler.Lists().Closed()
    ensures k.scheduler.Line() == old(k.scheduler.Line()).Leave(task.stateItem)
    ensures task.priority < |k.scheduler.ready| == |old(k.turns)| && k.turns == Joined(old(k.turns), task)
    ensures k.scheduler.heap.Image() == k.scheduler.Waking(old(k.scheduler.heap.Image()), task)
    ensures k.pendingReady.ring.items == Minus(old(k.pendingReady.ring.items), task.eventItem)
    ensures k.history == old(k.history) + Kernel.LeaveEvents(old(k.scheduler.Line()), task.stateItem)
  {
    hide *;
    ReadyToBreakOff(k, task);
    ghost var was, c, t, log := k.history, k.scheduler.Line(), k.scheduler.heap.Image(), k.turns;
    k.scheduler.BreakOff(task);
    k.history := k.history + Kernel.LeaveEvents(c, task.stateItem);
    k.turns := Joined(k.turns, task);
    k.Logs(c, task.stateItem, was);
    BrokenOff(k, t, log, task);
  }

  lemma ReadyToBreakOff(k: Kernel, task: Task)
    requires k.Steady() && task in k.scheduler.tasks
    requires task.stateItem.container != null && task.stateItem.container !in k.scheduler.ready
    ensures k.scheduler.Valid() && k.scheduler.ReadyAgrees() && k.scheduler.Lists().Closed()
    ensures task.priority < |k.scheduler.ready| == |k.turns|
    ensures k.start.Valid() && AllPossible(k.start, k.history) && Last(k.start, k.history) == k.scheduler.Line()
    ensures CanBreakOff(k, k.scheduler.heap.Image(), k.turns, task)
    ensures k.pendingReady in k.scheduler.heap.Image().rings
    ensures k.scheduler.heap.Image().rings[k.pendingReady] == k.pendingReady.ring
  {
    hide *;
    k.SteadyParts();
    k.LogParts();
    k.OrderParts();
    k.PendingParts();
    PriorityOf(k, task);
    k.IsBlockedIn(task);
    BreakOffMeans(k, k.scheduler.heap.Image(), k.turns, task);
  }

  /** What the memory is like when a wait is broken off. */
  ghost predicate CanBreakOff(k: Kernel, t: Image, log: Turns, task: Task)
    reads k.scheduler`delayed, k.scheduler`overflow, k.scheduler.heap.items`owner
  {
    && t.Valid() && BlockedIn(k.scheduler, t) && |log| == |k.scheduler.ready|
    && Orderly(k.scheduler, k.order, t, log) && task in k.scheduler.tasks && IsBlocked(k.scheduler, t, task)
    && k.pendingReady in t.rings && k.pendingReady !in k.scheduler.ready && t.rings[k.pendingReady].cursor == 0
    && (forall x :: x in t.rings[k.pendingReady].items ==> k.IsEventItem(x))
    && k.pendingReady in k.scheduler.heap.lists && k.pendingReady != k.scheduler.delayed
    && k.pendingReady != k.scheduler.overflow && k.pendingReady != k.scheduler.suspended
    && k.pendingReady !in k.order.events && k.scheduler.delayed !in k.order.events && k.scheduler.overflow !in k.order.events
  }

  lemma BreakOffMeans(k: Kernel, t: Image, log: Turns, task: Task)
    ensures CanBreakOff(k, t, log, task) <==>
            && t.Valid() && BlockedIn(k.scheduler, t) && |log| == |k.scheduler.ready|
            && Orderly(k.scheduler, k.order, t, log) && task in k.scheduler.tasks && IsBlocked(k.scheduler, t, task)
            && k.pendingReady in t.rings && k.pendingReady !in k.scheduler.ready && t.rings[k.pendingReady].cursor == 0
            && (forall x :: x in t.rings[k.pendingReady].items ==> k.IsEventItem(x))
            && k.pendingReady in k.scheduler.heap.lists && k.pendingReady != k.scheduler.delayed
            && k.pendingReady != k.scheduler.overflow && k.pendingReady != k.scheduler.suspended
            && k.pendingReady !in k.order.events && k.scheduler.delayed !in k.order.events && k.scheduler.overflow !in k.order.events
  {
  }

  lemma PriorityOf(k: Kernel, task: Task)
    requires k.Steady() && task in k.scheduler.tasks
    ensures task.priority < |k.scheduler.ready| && task.stateItem in k.scheduler.heap.items
    ensures task.eventItem in k.scheduler.heap.items && k.scheduler.current.priority < |k.scheduler.ready|
  {
  }

  lemma BrokenOff(k: Kernel, t: Image, log: Turns, task: Task)
    requires k.scheduler.Valid() && k.scheduler.ReadyAgrees() && k.Logged() && CanBreakOff(k, t, log, task)
    requires task.priority < |k.scheduler.ready| && task.priority < |log| && k.turns == Joined(log, task)
    requires Runs(t, k.scheduler.WakeCommands(t, task)) && k.scheduler.heap.Image() == k.scheduler.Waking(t, task)
    ensures k.Steady() && k.pendingReady in t.rings
    ensures k.pendingReady.ring.items == Minus(t.rings[k.pendingReady].items, task.eventItem)
  {
    hide *;
    BreakOffMeans(k, t, log, task);
    k.scheduler.CountStarts();
    k.scheduler.PlacedParts();
    ApartItems(k);
    WakingBlocked(k.scheduler, t, task);
    k.BlockedMeans();
    OrderlyWaking(k.scheduler, k.order, t, log, task);
    k.SortOrder();
    WakingPending(k, t, task);
    k.PendingIs();
    k.PendingStill();
    k.SteadyIs();
  }

  lemma ApartItems(k: Kernel)
    requires KT.TasksPlaced(k.scheduler.tasks, k.scheduler.heap, |k.scheduler.ready|)
    ensures forall u, v :: u in k.scheduler.tasks && v in k.scheduler.tasks ==> u.stateItem != v.eventItem
  {
  }

  method BreakOffAndTell(k: Kernel, task: Task)
    requires k.Steady() && task in k.scheduler.tasks
    requires task.stateItem.container != null && task.stateItem.container !in k.scheduler.ready
    modifies k`history, k`turns, task`delayAborted, k.scheduler`readyPriorities
    modifies k.scheduler.heap.lists`ring, k.scheduler.heap.lists`repr, k.scheduler.heap.lists`numberOfItems
    modifies k.scheduler.heap.lists`index, k.scheduler.heap.items`container, k.scheduler.heap.items`next
    modifies k.scheduler.heap.items`previous, k.scheduler.heap.ends`next, k.scheduler.heap.ends`previous
    ensures k.Steady() && old(k.scheduler.Lists().Closed()) && k.scheduler.Lists().Closed()
    ensures k.scheduler.Line() == old(k.scheduler.Line()).Leave(task.stateItem)
    ensures task.priority < |k.scheduler.ready| == |old(k.turns)| && k.turns == Joined(old(k.turns), task)
    ensures k.scheduler.heap.Image() == k.scheduler.Waking(old(k.scheduler.heap.Image()), task)
    ensures k.pendingReady.ring.items == Minus(old(k.pendingReady.ring.items), task.eventItem)
    ensures k.history == old(k.history) + Kernel.LeaveEvents(old(k.scheduler.Line()), task.stateItem)
    ensures task.delayAborted == old(task.eventItem.container != null || task.delayAborted)
  {
    hide *;
    var waiting := task.eventItem.container != null;
    BreakOff(k, task);
    if waiting {
      task.delayAborted := true;
    }
  }

  /** With the scheduler suspended, a waiting task is made ready at once, whatever it waits for; it is told so if it
      waits for an event. */
  method Abort(k: Kernel, task: Task) returns (aborted: bool)
    requires k.Valid() && k.schedulerSuspended > 0 && task in k.scheduler.tasks
    modifies k`yieldPending, k`history, k`turns, task`delayAborted, k.scheduler`readyPriorities
    modifies k.scheduler.heap.lists`ring, k.scheduler.heap.lists`repr, k.scheduler.heap.lists`numberOfItems
    modifies k.scheduler.heap.lists`index, k.scheduler.heap.items`container, k.scheduler.heap.items`next
    modifies k.scheduler.heap.items`previous, k.scheduler.heap.ends`next, k.scheduler.heap.ends`previous
    ensures k.Valid() && old(k.scheduler.Lists().Closed()) && k.scheduler.Lists().Closed()
    ensures aborted <==> task != k.scheduler.current && old(IsWaiting(k, task))
    ensures aborted ==>
              && k.scheduler.Line() == old(k.scheduler.Line()).Leave(task.stateItem)
              && k.history == old(k.history) + Kernel.LeaveEvents(old(k.scheduler.Line()), task.stateItem)
              && task.priority < |k.scheduler.ready| == |old(k.turns)| && k.turns == Joined(old(k.turns), task)
              && k.scheduler.heap.Image() == k.scheduler.Waking(old(k.scheduler.heap.Image()), task)
              && k.pendingReady.ring.items == Minus(old(k.pendingReady.ring.items), task.eventItem)
              && task.delayAborted == old(task.eventItem.container != null || task.delayAborted)
              && k.yieldPending == (old(k.yieldPending) || task.priority > k.scheduler.current.priority)
    ensures !aborted ==>
              && k.scheduler.Line() == old(k.scheduler.Line()) && k.history == old(k.history) && k.turns == old(k.turns)
              && k.scheduler.heap.Image() == old(k.scheduler.heap.Image()) && k.pendingReady.ring == old(k.pendingReady.ring)
              && task.delayAborted == old(task.delayAborted) && k.yieldPending == old(k.yieldPending)
  {
    hide *;
    k.ValidParts();
    var state := GetState(k, task);
    aborted := state == BlockedState;
    if aborted {
      BreakOffAndTell(k, task);
      if task.priority > k.scheduler.current.priority {
        k.yieldPending := true;
      }
      k.StillValid();
    }
  }

  /** A task breaks off the wait of another one. */
  method AbortDelay(k: Kernel, task: Task) returns (aborted: bool)
    requires k.Valid() && task in k.scheduler.tasks
    modifies k`schedulerSuspended, k`pendedTicks, k`yieldPending, k`history, k`turns, task`delayAborted
    modifies k.scheduler`tickCount, k.scheduler`delayed, k.scheduler`overflow
    modifies k.scheduler`numOfOverflows, k.scheduler`nextTaskUnblockTime, k.scheduler`readyPriorities
    modifies k.scheduler.heap.lists`ring, k.scheduler.heap.lists`repr, k.scheduler.heap.lists`numberOfItems
    modifies k.scheduler.heap.lists`index, k.scheduler.heap.items`container, k.scheduler.heap.items`next
    modifies k.scheduler.heap.items`previous, k.scheduler.heap.ends`next, k.scheduler.heap.ends`previous
    ensures k.Valid() && k.schedulerSuspended == old(k.schedulerSuspended) && k.pendedTicks == old(k.pendedTicks)
    ensures old(k.scheduler.Lists().Closed()) && k.scheduler.Lists().Closed()
    ensures aborted <==> task != k.scheduler.current && old(IsWaiting(k, task))
    ensures aborted ==>
              && k.scheduler.Line() == old(k.scheduler.Line()).Leave(task.stateItem)
              && k.history == old(k.history) + Kernel.LeaveEvents(old(k.scheduler.Line()), task.stateItem)
              && task.priority < |k.scheduler.ready| == |old(k.turns)| && k.turns == Joined(old(k.turns), task)
              && k.scheduler.heap.Image() == k.scheduler.Waking(old(k.scheduler.heap.Image()), task)
              && task.delayAborted == old(task.eventItem.container != null || task.delayAborted)
    ensures !aborted ==>
              && k.scheduler.Line() == old(k.scheduler.Line()) && k.history == old(k.history) && k.turns == old(k.turns)
              && k.scheduler.heap.Image() == old(k.scheduler.heap.Image()) && task.delayAborted == old(task.delayAborted)
    ensures k.yieldPending == (old(k.yieldPending) || (aborted && task.priority > k.scheduler.current.priority))
  {
    hide *;
    k.ValidParts();
    Kernel.NoneGone(task.eventItem);
    k.SuspendAll();
    aborted := Abort(k, task);
    k.ValidParts();
    k.NobodyMoved(k.scheduler.heap.Image(), k.scheduler.Line(), k.history, k.turns, []);
    ghost var moved, woken;
    var alreadyYielded;
    alreadyYielded, moved, woken := k.ResumeAll();
    k.ValidParts();
  }
}
