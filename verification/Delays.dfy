/** The calls a task sleeps with: it suspends the scheduler, goes to sleep, resumes it, and lets another task run. */
module Delays {
  import opened RoundRobin
  import opened SortedInsertion
  import opened TimerQueue
  import opened DelayedLists
  import opened TimeOuts
  import opened TaskOrder
  import opened Interrupts
  import opened TaskControl
  import opened Deferral

  /** The time line when the task sleeps, if it is to sleep at all. */
  ghost function AfterSleep(c: Clock<ListItem>, task: Task, ticks: Tick): Clock<ListItem> {
    if ticks == 0 then c else c.Sleep(task.stateItem, ticks)
  }

  ghost function SleepEvents(task: Task, ticks: Tick): Events {
    if ticks == 0 then [] else [SleepEvent(task.stateItem, ticks)]
  }

  ghost function Departed(log: Turns, task: Task, ticks: Tick): (r: Turns)
    requires task.priority < |log|
    ensures |r| == |log|
  {
    if ticks == 0 then log else Turn(log, task.priority, Removed(task.stateItem))
  }

  ghost predicate LeftIf(k: Kernel, task: Task, ticks: Tick, was: map<List, Ring<ListItem>>, now: map<List, Ring<ListItem>>) {
    if ticks == 0 then now == was else k.LeftReady(task, was, now)
  }

  lemma GoneToSleep(k: Kernel, ticks: Tick, was: map<List, Ring<ListItem>>, c: Clock<ListItem>, events: Events, log: Turns)
    requires ticks > 0 && k.LeftReady(k.scheduler.current, was, k.scheduler.heap.Rings())
    requires k.scheduler.Lists().Closed() && k.scheduler.Line() == c.Sleep(k.scheduler.current.stateItem, ticks)
    requires k.scheduler.current.priority < |log|
    requires k.turns == Turn(log, k.scheduler.current.priority, Removed(k.scheduler.current.stateItem))
    requires k.history == events + [SleepEvent(k.scheduler.current.stateItem, ticks)]
    ensures LeftIf(k, k.scheduler.current, ticks, was, k.scheduler.heap.Rings())
    ensures k.scheduler.Line() == AfterSleep(c, k.scheduler.current, ticks)
    ensures k.turns == Departed(log, k.scheduler.current, ticks)
    ensures k.history == events + SleepEvents(k.scheduler.current, ticks)
  {
  }

  lemma StayedAwake(k: Kernel)
    requires k.scheduler.Lists().Closed() && k.Steady()
    ensures LeftIf(k, k.scheduler.current, 0, k.scheduler.heap.Rings(), k.scheduler.heap.Rings())
    ensures k.scheduler.Line() == AfterSleep(k.scheduler.Line(), k.scheduler.current, 0)
    ensures k.scheduler.current.priority < |k.turns| && k.turns == Departed(k.turns, k.scheduler.current, 0)
    ensures k.history == k.history + SleepEvents(k.scheduler.current, 0)
  {
    k.OrderParts();
  }

  lemma WaitingKept(k: Kernel, was: map<List, Ring<ListItem>>, w: Waiting)
    requires k.Steady() && k.LeftReady(k.scheduler.current, was, k.scheduler.heap.Rings())
    requires was.Keys == k.scheduler.heap.lists
    requires k.scheduler.current.stateItem.container in {k.scheduler.delayed, k.scheduler.overflow, k.scheduler.suspended}
    requires w == map l | l in k.order.events && l in was :: was[l].items
    ensures WaitingNow(k) == w
  {
    hide *;
    k.SteadyParts();
    CurrentListed(k);
    forall l | l in k.order.events ensures l in was && l.ring == was[l] {
      k.EventListIs(l);
      k.EventListParts(l);
      k.ElsewhereSame(was, l);
    }
    WaitingSame(k, was, w);
  }

  lemma CurrentListed(k: Kernel)
    requires k.Steady()
    ensures k.scheduler.current.stateItem in k.scheduler.heap.items
  {
    k.scheduler.PlacedParts();
  }

  lemma WaitingSame(k: Kernel, was: map<List, Ring<ListItem>>, w: Waiting)
    requires was.Keys == k.scheduler.heap.lists && forall l :: l in k.order.events ==> l in was && l.ring == was[l]
    requires w == map l | l in k.order.events && l in was :: was[l].items
    ensures WaitingNow(k) == w
  {
  }

  lemma WaitingIs(k: Kernel, was: map<List, Ring<ListItem>>)
    requires k.Steady() && was == k.scheduler.heap.Rings()
    ensures was.Keys == k.scheduler.heap.lists
    ensures WaitingNow(k) == map l | l in k.order.events && l in was :: was[l].items
  {
    AllPlaces(k);
    k.RingsAre();
  }

  /** With the scheduler suspended, the running task goes to sleep if it is to wait. */
  method GoToSleep(k: Kernel, ticksToWait: Tick)
    requires k.Valid() && k.schedulerSuspended > 0 && (ticksToWait > 0 ==> k.MayBlock())
    modifies k`history, k`turns, k.scheduler`nextTaskUnblockTime, k.scheduler`readyPriorities
    modifies k.scheduler.current`delayAborted, {k.scheduler.current.stateItem}`value
    modifies k.scheduler.heap.lists`ring, k.scheduler.heap.lists`repr, k.scheduler.heap.lists`numberOfItems
    modifies k.scheduler.heap.lists`index, k.scheduler.heap.items`container, k.scheduler.heap.items`next
    modifies k.scheduler.heap.items`previous, k.scheduler.heap.ends`next, k.scheduler.heap.ends`previous
    ensures k.Valid() && old(k.scheduler.Lists().Closed()) && k.scheduler.Lists().Closed()
    ensures k.scheduler.Line() == AfterSleep(old(k.scheduler.Line()), k.scheduler.current, ticksToWait)
    ensures k.scheduler.current.priority < |old(k.turns)| && k.turns == Departed(old(k.turns), k.scheduler.current, ticksToWait)
    ensures k.history == old(k.history) + SleepEvents(k.scheduler.current, ticksToWait)
    ensures LeftIf(k, k.scheduler.current, ticksToWait, old(k.scheduler.heap.Rings()), k.scheduler.heap.Rings())
    ensures WaitingNow(k) == old(WaitingNow(k)) && k.pendingReady.ring == old(k.pendingReady.ring)
    ensures ticksToWait > 0 ==> !k.scheduler.current.delayAborted
    ensures ticksToWait == 0 ==>
              && k.scheduler.heap.Image() == old(k.scheduler.heap.Image())
              && k.scheduler.current.delayAborted == old(k.scheduler.current.delayAborted)
  {
    hide *;
    k.ValidParts();
    ghost var was, w, c, events, log := k.scheduler.heap.Rings(), WaitingNow(k), k.scheduler.Line(), k.history, k.turns;
    StayedAwake(k);
    WaitingIs(k, was);
    if ticksToWait > 0 {
      k.AddCurrentTaskToDelayedList(ticksToWait, false);
      GoneToSleep(k, ticksToWait, was, c, events, log);
      WaitingKept(k, was, w);
      k.StillValid();
    }
  }

  /** The running task has been chosen from these lists: the next in turn of the highest priority with a ready task. */
  ghost predicate Chosen(k: Kernel, was: map<List, Ring<ListItem>>)
    reads k.scheduler`current, k.scheduler.heap.lists`ring, k.scheduler.current.stateItem`container
  {
    var p := k.scheduler.current.priority;
    && k.Running() && k.scheduler.ready[p] in k.scheduler.heap.lists && was.Keys == k.scheduler.heap.lists
    && (forall q :: p < q < |k.scheduler.ready| ==> k.scheduler.ready[q] in was && was[k.scheduler.ready[q]].items == [])
    && var l := k.scheduler.ready[p];
    && was[l].Valid() && was[l].items != [] && l.ring == was[l].Next() && 0 < l.ring.cursor <= |l.ring.items|
    && k.scheduler.current.stateItem == l.ring.Current()
    && forall m :: m in was && m != l ==> m.ring == was[m]
  }

  lemma ChosenIs(k: Kernel, was: map<List, Ring<ListItem>>)
    requires k.Steady() && k.Running() && was.Keys == k.scheduler.heap.lists
    requires var p := k.scheduler.current.priority;
             && p < |k.scheduler.ready| && k.scheduler.ready[p] in was
             && (forall q :: p < q < |k.scheduler.ready| ==> k.scheduler.ready[q].ring.items == [])
             && var l := k.scheduler.ready[p];
             && was[l].Valid() && l.ring == was[l].Next() && 0 < l.ring.cursor <= |l.ring.items|
             && k.scheduler.current.stateItem == l.ring.Current()
             && forall m :: m in k.scheduler.heap.lists && m != l ==> m.ring == was[m]
    ensures Chosen(k, was)
  {
    k.SteadyParts();
    k.OrderParts();
    k.ReadyApart();
  }

  /** After a suspension: those whose event came in the meantime are ready, the ticks are made up for, and the running
      task has been chosen. */
  ghost predicate GoesOn(k: Kernel, c: Clock<ListItem>, was: Events, log: Turns, arrived: seq<ListItem>, ticks: nat,
                         moved: seq<Task>, woken: seq<Task>)
    reads k`history, k`turns, k.scheduler, k.scheduler.delayed`ring, k.scheduler.overflow`ring, k.scheduler.heap.items`value
  {
    && |moved| == |arrived| && k.MovedFrom(arrived, moved) && |log| == |k.scheduler.ready| && k.scheduler.Lists().Closed()
    && var d := Kernel.AfterLeaving(c, moved);
    && k.scheduler.Line() == Ticked(d, ticks) && k.scheduler.Line().now == c.now + ticks
    && k.WokenOf(d, woken) && k.scheduler.Line().sleepers == d.sleepers[|woken|..]
    && k.scheduler.current.priority < |log|
    && k.turns == Turn(AllJoined(AllJoined(log, moved), woken), k.scheduler.current.priority, GetNext)
    && k.history == was + Kernel.AllLeaveEvents(c, moved) + TickEvents(ticks)
  }

  lemma ReadyListed(k: Kernel)
    requires k.Steady()
    ensures forall p :: 0 <= p < |k.scheduler.ready| ==> k.scheduler.ready[p] in k.scheduler.heap.lists
  {
    k.SteadyParts();
    k.ReadyWithin();
  }

  lemma WentOn(k: Kernel, c: Clock<ListItem>, was: Events, log: Turns, arrived: seq<ListItem>, ticks: nat, before: Turns,
               moved: seq<Task>, woken: seq<Task>)
    requires |moved| == |arrived| && forall t :: t in moved ==> t in k.scheduler.tasks && t.priority < |k.scheduler.ready|
    requires forall i :: 0 <= i < |moved| ==> moved[i].eventItem == arrived[i]
    requires forall t :: t in woken ==> t.priority < |k.scheduler.ready|
    requires |log| == |k.scheduler.ready| && k.scheduler.Lists().Closed()
    requires k.scheduler.Line() == Ticked(Kernel.AfterLeaving(c, moved), ticks) && k.scheduler.Line().now == c.now + ticks
    requires var d := Kernel.AfterLeaving(c, moved);
             k.WokenOf(d, woken) && |woken| <= |d.sleepers| && k.scheduler.Line().sleepers == d.sleepers[|woken|..]
    requires before == AllJoined(AllJoined(log, moved), woken) && k.scheduler.current.priority < |before|
    requires k.turns == Turn(before, k.scheduler.current.priority, GetNext)
    requires k.history == was + Kernel.AllLeaveEvents(c, moved) + TickEvents(ticks)
    ensures GoesOn(k, c, was, log, arrived, ticks, moved, woken)
  {
    MovedFromIs(k, arrived, moved);
  }

  lemma MovedFromIs(k: Kernel, items: seq<ListItem>, moved: seq<Task>)
    requires |moved| == |items| && forall t :: t in moved ==> t in k.scheduler.tasks && t.priority < |k.scheduler.ready|
    requires forall i :: 0 <= i < |moved| ==> moved[i].eventItem == items[i]
    ensures k.MovedFrom(items, moved)
  {
  }

  /** Whose event came, in the pending list of t. */
  ghost predicate Arrived(k: Kernel, t: Image, items: seq<ListItem>) {
    k.pendingReady in t.rings && t.rings[k.pendingReady].items == items
  }

  /** The lists before the choice, made from what they were when the scheduler was resumed; the choice has turned one. */
  ghost predicate CameFrom(k: Kernel, t: Image, moved: seq<Task>, woken: seq<Task>, before: Image)
    reads k.scheduler`current, k.scheduler.heap.lists`ring, k.scheduler.heap.items`value
  {
    && (forall u :: u in moved ==> u.priority < |k.scheduler.ready|) && (forall u :: u in woken ==> u.priority < |k.scheduler.ready|)
    && before == k.scheduler.AfterWaking(k.AfterMoving(t, moved), woken)
    && k.scheduler.current.priority < |k.scheduler.ready|
    && var l := k.scheduler.ready[k.scheduler.current.priority];
    && l in before.rings && before.rings[l].cursor <= |before.rings[l].items|
    && k.scheduler.heap.Image() == before.Put(l, before.rings[l].Next())
  }

  lemma CameFromIs(k: Kernel, t: Image, moved: seq<Task>, woken: seq<Task>, before: Image)
    requires (forall u :: u in moved ==> u.priority < |k.scheduler.ready|) && (forall u :: u in woken ==> u.priority < |k.scheduler.ready|)
    requires before == k.scheduler.AfterWaking(k.AfterMoving(t, moved), woken)
    requires Chosen(k, before.rings) && before.values == k.scheduler.heap.Values()
    ensures CameFrom(k, t, moved, woken, before)
  {
    var l := k.scheduler.ready[k.scheduler.current.priority];
    k.scheduler.heap.ImageParts();
    assert k.scheduler.heap.Image().rings == before.rings[l := before.rings[l].Next()];
  }

  /** The switch, with the scheduler running. */
  method ChooseNext(k: Kernel)
    requires k.Valid() && k.schedulerSuspended == 0
    modifies k`yieldPending, k`turns, k.scheduler`current, k.scheduler.heap.lists`index, k.scheduler.heap.lists`ring
    ensures k.Valid() && k.scheduler.Lists().Closed() && old(k.scheduler.Lists().Closed()) && !k.yieldPending
    ensures k.scheduler.Line() == old(k.scheduler.Line()) && k.scheduler.heap.Values() == old(k.scheduler.heap.Values())
    ensures Chosen(k, old(k.scheduler.heap.Rings())) && k.scheduler.current.priority < |old(k.turns)|
    ensures k.turns == Turn(old(k.turns), k.scheduler.current.priority, GetNext)
  {
    hide *;
    k.ValidParts();
    ReadyListed(k);
    ghost var was := k.scheduler.heap.Rings();
    k.RingsAre();
    k.SwitchContext();
    k.ValidParts();
    ChosenIs(k, was);
  }

  /** The scheduler is resumed, and one switch follows: the resumption asks for it, or else the caller does. */
  method ResumeAndSwitch(k: Kernel)
    returns (ghost moved: seq<Task>, ghost woken: seq<Task>, ghost before: Image)
    requires k.Valid() && k.schedulerSuspended == 1
    modifies k`schedulerSuspended, k`pendedTicks, k`yieldPending, k`history, k`turns, k.scheduler`current
    modifies k.scheduler`tickCount, k.scheduler`delayed, k.scheduler`overflow
    modifies k.scheduler`numOfOverflows, k.scheduler`nextTaskUnblockTime, k.scheduler`readyPriorities
    modifies k.scheduler.heap.lists`ring, k.scheduler.heap.lists`repr, k.scheduler.heap.lists`numberOfItems
    modifies k.scheduler.heap.lists`index, k.scheduler.heap.items`container, k.scheduler.heap.items`next
    modifies k.scheduler.heap.items`previous, k.scheduler.heap.ends`next, k.scheduler.heap.ends`previous
    ensures k.Valid() && k.schedulerSuspended == 0 && !k.yieldPending && k.pendedTicks == 0
    ensures old(k.scheduler.Lists().Closed()) && Chosen(k, before.rings)
    ensures GoesOn(k, old(k.scheduler.Line()), old(k.history), old(k.turns), old(k.pendingReady.ring.items), old(k.pendedTicks), moved, woken)
    ensures CameFrom(k, old(k.scheduler.heap.Image()), moved, woken, before)
    ensures old(k.pendingReady.ring.items == [] && k.pendedTicks == 0) ==> before == old(k.scheduler.heap.Image())
  {
    hide *;
    k.ValidParts();
    k.RingsAre();
    ghost var c, was, log, arrived, ticks := k.scheduler.Line(), k.history, k.turns, k.pendingReady.ring.items, k.pendedTicks;
    ghost var t := k.scheduler.heap.Image();
    k.NobodyMoved(t, c, was, log, []);
    var alreadyYielded;
    alreadyYielded, moved, woken := k.ResumeAll();
    ghost var joined := k.turns;
    before := k.scheduler.heap.Image();
    ImageIs(k);
    ChooseNext(k);
    k.ValidParts();
    ReadyListed(k);
    ImageIs(k);
    WentOn(k, c, was, log, arrived, ticks, joined, moved, woken);
    CameFromIs(k, t, moved, woken, before);
  }

  lemma ArrivedIs(k: Kernel, t: Image, items: seq<ListItem>)
    requires k.Valid() && k.scheduler.heap.Image() == t && k.pendingReady.ring.items == items
    ensures Arrived(k, t, items)
  {
    ImageNow(k);
  }

  lemma ImageIs(k: Kernel)
    ensures k.scheduler.heap.Image().rings == k.scheduler.heap.Rings() && k.scheduler.heap.Image().values == k.scheduler.heap.Values()
  {
  }

  lemma NobodyCame(k: Kernel, t: Image, w: Waiting, between: seq<Interrupt>)
    ensures [] + AllTaken(w, between) == AllTaken(w, between) && 0 + TicksIn(between) == TicksIn(between)
    ensures between == [] ==> AllServed(k, t, between) == t
  {
  }

  lemma NothingPended(between: seq<Interrupt>, w: Waiting)
    ensures between == [] ==> Shown(TicksIn(between)) == 0 && AllTaken(w, between) == []
  {
  }

  /** With the scheduler suspended, the running task goes to sleep if it is to wait, and interrupts come. */
  method SleepAndServe(k: Kernel, ticksToWait: Tick, between: seq<Interrupt>) returns (ghost asleep: Image)
    requires k.Valid() && k.schedulerSuspended == 1 && k.pendedTicks == 0 && k.pendingReady.ring.items == []
    requires (ticksToWait > 0 ==> k.MayBlock()) && ForEvents(k, between)
    modifies k`pendedTicks, k`yieldPending, k`history, k`turns
    modifies k.scheduler.current`delayAborted, {k.scheduler.current.stateItem}`value
    modifies k.scheduler`tickCount, k.scheduler`delayed, k.scheduler`overflow
    modifies k.scheduler`numOfOverflows, k.scheduler`nextTaskUnblockTime, k.scheduler`readyPriorities
    modifies k.scheduler.heap.lists`ring, k.scheduler.heap.lists`repr, k.scheduler.heap.lists`numberOfItems
    modifies k.scheduler.heap.lists`index, k.scheduler.heap.items`container, k.scheduler.heap.items`next
    modifies k.scheduler.heap.items`previous, k.scheduler.heap.ends`next, k.scheduler.heap.ends`previous
    ensures k.Valid() && old(k.scheduler.Lists().Closed()) && k.scheduler.Lists().Closed()
    ensures k.scheduler.Line() == AfterSleep(old(k.scheduler.Line()), k.scheduler.current, ticksToWait)
    ensures k.scheduler.current.priority < |old(k.turns)| && k.turns == Departed(old(k.turns), k.scheduler.current, ticksToWait)
    ensures k.history == old(k.history) + SleepEvents(k.scheduler.current, ticksToWait)
    ensures k.pendedTicks == Shown(TicksIn(between))
    ensures k.pendingReady.ring.items == AllTaken(old(WaitingNow(k)), between)
    ensures LeftIf(k, k.scheduler.current, ticksToWait, old(k.scheduler.heap.Rings()), asleep.rings)
    ensures asleep.values == k.scheduler.heap.Values() && k.scheduler.heap.Image() == AllServed(k, asleep, between)
    ensures Arrived(k, AllServed(k, asleep, between), AllTaken(old(WaitingNow(k)), between))
    ensures between == [] ==> k.scheduler.heap.Image() == asleep
    ensures ticksToWait > 0 ==> !k.scheduler.current.delayAborted
    ensures ticksToWait == 0 ==>
              && asleep == old(k.scheduler.heap.Image())
              && k.scheduler.current.delayAborted == old(k.scheduler.current.delayAborted)
  {
    hide *;
    GoToSleep(k, ticksToWait);
    ImageIs(k);
    asleep := k.scheduler.heap.Image();
    ghost var w := WaitingNow(k);
    NobodyCame(k, asleep, w, between);
    ServeAll(k, between);
    ArrivedIs(k, AllServed(k, asleep, between), AllTaken(w, between));
  }

  /** With the scheduler suspended, the running task goes to sleep if it is to wait; interrupts come; and the scheduler
      is resumed. */
  method SleepAndResume(k: Kernel, ticksToWait: Tick, between: seq<Interrupt>)
    returns (ghost moved: seq<Task>, ghost woken: seq<Task>, ghost asleep: Image, ghost before: Image)
    requires k.Valid() && k.schedulerSuspended == 1 && k.pendedTicks == 0 && k.pendingReady.ring.items == []
    requires (ticksToWait > 0 ==> k.MayBlock()) && ForEvents(k, between)
    modifies k`schedulerSuspended, k`pendedTicks, k`yieldPending, k`history, k`turns
    modifies k.scheduler.current`delayAborted, {k.scheduler.current.stateItem}`value, k.scheduler`current
    modifies k.scheduler`tickCount, k.scheduler`delayed, k.scheduler`overflow
    modifies k.scheduler`numOfOverflows, k.scheduler`nextTaskUnblockTime, k.scheduler`readyPriorities
    modifies k.scheduler.heap.lists`ring, k.scheduler.heap.lists`repr, k.scheduler.heap.lists`numberOfItems
    modifies k.scheduler.heap.lists`index, k.scheduler.heap.items`container, k.scheduler.heap.items`next
    modifies k.scheduler.heap.items`previous, k.scheduler.heap.ends`next, k.scheduler.heap.ends`previous
    ensures k.Valid() && k.schedulerSuspended == 0 && !k.yieldPending
    ensures old(k.scheduler.Lists().Closed()) && old(k.scheduler.current).priority < |old(k.turns)|
    ensures GoesOn(k, AfterSleep(old(k.scheduler.Line()), old(k.scheduler.current), ticksToWait),
                   old(k.history) + SleepEvents(old(k.scheduler.current), ticksToWait),
                   Departed(old(k.turns), old(k.scheduler.current), ticksToWait),
                   AllTaken(old(WaitingNow(k)), between), Shown(TicksIn(between)), moved, woken)
    ensures LeftIf(k, old(k.scheduler.current), ticksToWait, old(k.scheduler.heap.Rings()), asleep.rings)
    ensures asleep.values == k.scheduler.heap.Values()
    ensures CameFrom(k, AllServed(k, asleep, between), moved, woken, before)
    ensures Arrived(k, AllServed(k, asleep, between), AllTaken(old(WaitingNow(k)), between))
    ensures between == [] ==> before == asleep
    ensures Chosen(k, before.rings)
    ensures ticksToWait > 0 ==> !old(k.scheduler.current).delayAborted
    ensures ticksToWait == 0 ==>
              && asleep == old(k.scheduler.heap.Image())
              && old(k.scheduler.current).delayAborted == old(k.scheduler.current.delayAborted)
  {
    hide *;
    NothingPended(between, WaitingNow(k));
    asleep := SleepAndServe(k, ticksToWait, between);
    moved, woken, before := ResumeAndSwitch(k);
  }

  /** A running task waits for so many ticks. Whatever comes while it suspends the scheduler for this is made up for:
      it sleeps until now plus the ticks, time goes on by the ticks that came, and those whose event came are ready. A
      delay of zero ticks only lets the next in turn run. */
  method Delay(k: Kernel, ticksToDelay: Tick, between: seq<Interrupt>)
    returns (ghost moved: seq<Task>, ghost woken: seq<Task>, ghost asleep: Image, ghost before: Image)
    requires k.Valid() && ForEvents(k, between)
    requires ticksToDelay > 0 ==> k.schedulerSuspended == 0 && k.MayBlock()
    modifies k`schedulerSuspended, k`pendedTicks, k`yieldPending, k`history, k`turns
    modifies k.scheduler.current`delayAborted, {k.scheduler.current.stateItem}`value, k.scheduler`current
    modifies k.scheduler`tickCount, k.scheduler`delayed, k.scheduler`overflow
    modifies k.scheduler`numOfOverflows, k.scheduler`nextTaskUnblockTime, k.scheduler`readyPriorities
    modifies k.scheduler.heap.lists`ring, k.scheduler.heap.lists`repr, k.scheduler.heap.lists`numberOfItems
    modifies k.scheduler.heap.lists`index, k.scheduler.heap.items`container, k.scheduler.heap.items`next
    modifies k.scheduler.heap.items`previous, k.scheduler.heap.ends`next, k.scheduler.heap.ends`previous
    ensures k.Valid() && k.schedulerSuspended == old(k.schedulerSuspended) && (k.yieldPending <==> k.schedulerSuspended > 0)
    ensures k.pendedTicks == old(k.pendedTicks)
    ensures old(k.scheduler.Lists().Closed()) && k.scheduler.Lists().Closed() && old(k.scheduler.current).priority < |old(k.turns)|
    ensures ticksToDelay == 0 ==>
              k.scheduler.Line() == old(k.scheduler.Line()) && k.history == old(k.history) && before == old(k.scheduler.heap.Image())
    ensures ticksToDelay == 0 ==>
              && k.scheduler.heap.Values() == before.values
              && old(k.scheduler.current).delayAborted == old(k.scheduler.current.delayAborted)
    ensures ticksToDelay > 0 ==>
              GoesOn(k, AfterSleep(old(k.scheduler.Line()), old(k.scheduler.current), ticksToDelay),
                     old(k.history) + SleepEvents(old(k.scheduler.current), ticksToDelay),
                     Departed(old(k.turns), old(k.scheduler.current), ticksToDelay),
                     AllTaken(old(WaitingNow(k)), between), Shown(TicksIn(between)), moved, woken)
    ensures ticksToDelay > 0 ==>
              && LeftIf(k, old(k.scheduler.current), ticksToDelay, old(k.scheduler.heap.Rings()), asleep.rings)
              && asleep.values == k.scheduler.heap.Values()
              && CameFrom(k, AllServed(k, asleep, between), moved, woken, before) && (between == [] ==> before == asleep)
              && Arrived(k, AllServed(k, asleep, between), AllTaken(old(WaitingNow(k)), between))
              && !old(k.scheduler.current).delayAborted
    ensures k.schedulerSuspended == 0 ==> Chosen(k, before.rings)
    ensures ticksToDelay == 0 && k.schedulerSuspended == 0 ==>
              k.scheduler.current.priority < |old(k.turns)| && k.turns == Turn(old(k.turns), k.scheduler.current.priority, GetNext)
    ensures k.schedulerSuspended > 0 ==>
              && k.scheduler.current == old(k.scheduler.current) && k.turns == old(k.turns)
              && k.scheduler.heap.Image() == old(k.scheduler.heap.Image())
  {
    hide *;
    k.ValidParts();
    if ticksToDelay > 0 {
      k.SuspendAll();
      moved, woken, asleep, before := SleepAndResume(k, ticksToDelay, between);
      k.ValidParts();
    } else {
      moved, woken, asleep, before := [], [], k.scheduler.heap.Image(), k.scheduler.heap.Image();
      ImageNow(k);
      StayedAwake(k);
      k.SwitchContext();
      if k.schedulerSuspended == 0 {
        k.ValidParts();
        ReadyListed(k);
        ChosenIs(k, before.rings);
      }
    }
  }

  /** Is the next wake time, one period after the last one, still to come, and in how many ticks? */
  method NextWakeTime(k: Kernel, previousWakeTime: Tick, timeIncrement: Tick)
    returns (shouldDelay: bool, timeToWake: Tick, ticksToWait: Tick)
    requires k.scheduler.Lists().Closed() && timeIncrement > 0
    ensures timeToWake == Shown(previousWakeTime + timeIncrement)
    ensures var now := k.scheduler.Line().now;
            var wake := LastShown(now, previousWakeTime) + timeIncrement;
            && (shouldDelay <==> wake > now)
            && ticksToWait == (if wake > now then wake - now else 0) < WRAP
  {
    var tickCount := k.scheduler.tickCount;
    k.NowShown();
    NextWake(k.scheduler.Line().now, previousWakeTime, timeIncrement);
    timeToWake := Shown(previousWakeTime + timeIncrement);
    shouldDelay := false;
    if tickCount < previousWakeTime {
      if timeToWake < previousWakeTime && timeToWake > tickCount {
        shouldDelay := true;
      }
    } else {
      if timeToWake < previousWakeTime || timeToWake > tickCount {
        shouldDelay := true;
      }
    }
    ticksToWait := 0;
    if shouldDelay {
      ticksToWait := Since(timeToWake, tickCount);
    }
  }

  /** The periodic wake-up: the caller's next wake time is one period after the last one, and the task sleeps until
      then if that time is still to come, whatever interrupts come while it goes to sleep. */
  method DelayUntil(k: Kernel, previousWakeTime: Tick, timeIncrement: Tick, between: seq<Interrupt>)
    returns (shouldDelay: bool, timeToWake: Tick,
             ghost moved: seq<Task>, ghost woken: seq<Task>, ghost asleep: Image, ghost before: Image)
    requires k.Valid() && k.schedulerSuspended == 0 && timeIncrement > 0 && k.MayBlock() && ForEvents(k, between)
    modifies k`schedulerSuspended, k`pendedTicks, k`yieldPending, k`history, k`turns
    modifies k.scheduler.current`delayAborted, {k.scheduler.current.stateItem}`value, k.scheduler`current
    modifies k.scheduler`tickCount, k.scheduler`delayed, k.scheduler`overflow
    modifies k.scheduler`numOfOverflows, k.scheduler`nextTaskUnblockTime, k.scheduler`readyPriorities
    modifies k.scheduler.heap.lists`ring, k.scheduler.heap.lists`repr, k.scheduler.heap.lists`numberOfItems
    modifies k.scheduler.heap.lists`index, k.scheduler.heap.items`container, k.scheduler.heap.items`next
    modifies k.scheduler.heap.items`previous, k.scheduler.heap.ends`next, k.scheduler.heap.ends`previous
    ensures k.Valid() && k.schedulerSuspended == 0 && !k.yieldPending
    ensures old(k.scheduler.Lists().Closed()) && old(k.scheduler.current).priority < |old(k.turns)|
    ensures timeToWake == Shown(previousWakeTime + timeIncrement)
    ensures var c, task := old(k.scheduler.Line()), old(k.scheduler.current);
            var wake := LastShown(c.now, previousWakeTime) + timeIncrement;
            var ticks := if wake > c.now then wake - c.now else 0;
            && (shouldDelay <==> wake > c.now)
            && ticks < WRAP
            && GoesOn(k, AfterSleep(c, task, ticks), old(k.history) + SleepEvents(task, ticks), Departed(old(k.turns), task, ticks),
                      AllTaken(old(WaitingNow(k)), between), Shown(TicksIn(between)), moved, woken)
            && LeftIf(k, task, ticks, old(k.scheduler.heap.Rings()), asleep.rings)
            && (ticks > 0 ==> !task.delayAborted)
            && (ticks == 0 ==> asleep == old(k.scheduler.heap.Image())
                               && task.delayAborted == old(k.scheduler.current.delayAborted))
    ensures asleep.values == k.scheduler.heap.Values()
    ensures CameFrom(k, AllServed(k, asleep, between), moved, woken, before) && (between == [] ==> before == asleep)
    ensures Arrived(k, AllServed(k, asleep, between), AllTaken(old(WaitingNow(k)), between))
    ensures Chosen(k, before.rings)
  {
    hide *;
    k.ValidParts();
    k.SuspendAll();
    var ticksToWait;
    shouldDelay, timeToWake, ticksToWait := NextWakeTime(k, previousWakeTime, timeIncrement);
    moved, woken, asleep, before := SleepAndResume(k, ticksToWait, between);
  }
}
