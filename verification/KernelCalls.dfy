/** Every call, carried out on the kernel: it does to the state what `KernelSteps` says. */
module KernelCalls {
  import opened Sequences
  import opened RoundRobin
  import opened SortedInsertion
  import opened ListTable
  import opened TimerQueue
  import opened DelayedLists
  import opened TimeOuts
  import opened TaskOrder
  import opened Interrupts
  import opened TaskControl
  import opened Deferral
  import opened Delays
  import opened KernelSteps
  import BrokenWaits
  import KH = KernelHeap
  import KT = KernelTime

  lemma NowIs(k: Kernel)
    requires k.scheduler.Lists().Closed()
    ensures Now(k) == State(k.scheduler.Line(), k.history, k.turns, k.schedulerSuspended, k.pendedTicks, k.yieldPending,
                            k.scheduler.current, k.scheduler.heap.Image(), Told(k), Awaiting(k))
  {
  }

  lemma CurrentIn(k: Kernel)
    requires k.Valid()
    ensures k.Steady() && k.scheduler.Lists().Closed()
    ensures k.scheduler.current in k.scheduler.tasks && k.scheduler.current.stateItem in k.scheduler.heap.items
    ensures k.scheduler.current.priority < |k.scheduler.ready| == |k.turns|
  {
    k.OrderParts();
  }

  lemma PreemptsIs(k: Kernel, woken: seq<Task>)
    ensures k.scheduler.AnyPreempts(woken) <==> Preempts(woken, k.scheduler.current)
  {
  }

  lemma CrowdedNow(k: Kernel)
    requires k.Steady() && k.scheduler.Lists().Closed()
    ensures k.Crowded() <==> CrowdedIn(k, Now(k))
  {
    ImageNow(k);
    k.CrowdedMeans();
  }

  // ---------- Switches ----------

  lemma SwitchedIs(k: Kernel, a: State, b: State)
    requires a.suspended == 0 && b.current.priority < |a.turns| == |k.scheduler.ready|
    requires k.scheduler.ready[b.current.priority] in a.image.rings
    requires forall q :: b.current.priority < q < |k.scheduler.ready| ==>
               k.scheduler.ready[q] in a.image.rings && a.image.rings[k.scheduler.ready[q]].items == []
    requires var l := k.scheduler.ready[b.current.priority];
             && a.image.rings[l].Valid() && a.image.rings[l].Next().cursor > 0
             && b.current in k.scheduler.tasks && b.current.stateItem == a.image.rings[l].Next().Current()
             && b == a.(turns := Turn(a.turns, b.current.priority, GetNext), image := a.image.Put(l, a.image.rings[l].Next()),
                        current := b.current, yieldPending := false)
    ensures Switched(k, a, b)
  {
  }

  lemma SwitchPutOff(k: Kernel, a: State, b: State)
    requires a.suspended > 0 && b == a.(yieldPending := true)
    ensures Switched(k, a, b)
  {
  }

  /** The lists after a choice. */
  lemma ImageTurned(k: Kernel, t: Image)
    requires k.Steady() && Chosen(k, t.rings) && t.values == k.scheduler.heap.Values()
    ensures k.scheduler.current.priority < |k.scheduler.ready|
    ensures var l := k.scheduler.ready[k.scheduler.current.priority];
            && l in t.rings && t.rings[l].Valid() && t.rings[l].Next().cursor > 0
            && k.scheduler.current.stateItem == t.rings[l].Next().Current()
            && k.scheduler.heap.Image() == t.Put(l, t.rings[l].Next())
    ensures forall q :: k.scheduler.current.priority < q < |k.scheduler.ready| ==>
              k.scheduler.ready[q] in t.rings && t.rings[k.scheduler.ready[q]].items == []
  {
    hide Kernel.Steady;
    k.scheduler.heap.ImageParts();
    var l := k.scheduler.ready[k.scheduler.current.priority];
    assert k.scheduler.heap.Image().rings == t.rings[l := t.rings[l].Next()];
  }

  method DoYield(k: Kernel)
    requires k.Valid()
    modifies k, k.scheduler, k.scheduler.heap.lists, k.scheduler.heap.items, k.scheduler.heap.ends
    ensures k.Valid() && Switched(k, old(Now(k)), Now(k))
  {
    hide *;
    CurrentIn(k);
    NowIs(k);
    ImageNow(k);
    ghost var a := Now(k);
    k.SwitchContext();
    CurrentIn(k);
    NowIs(k);
    if k.schedulerSuspended == 0 {
      ReadyListed(k);
      ChosenIs(k, a.image.rings);
      ImageTurned(k, a.image);
      SwitchedIs(k, a, Now(k));
    } else {
      SwitchPutOff(k, a, Now(k));
    }
  }

  // ---------- Interrupts ----------

  lemma TickCounted(k: Kernel, a: State, b: State, woken: seq<Task>)
    requires a.suspended > 0 && b == a.(pended := Shown(a.pended + 1))
    ensures TickDone(k, a, b, woken)
  {
  }

  lemma TickIs(k: Kernel, a: State, m: State, b: State, woken: seq<Task>)
    requires a.suspended == 0 && k.WokenOf(a.line, woken) && |woken| == a.line.Due() && |a.turns| == |k.scheduler.ready|
    requires forall t :: t in woken ==> t.priority < |k.scheduler.ready|
    requires m == a.(line := a.line.Tick(), history := a.history + [TickEvent], turns := AllJoined(a.turns, woken),
                     image := k.scheduler.AfterWaking(a.image, woken))
    requires if a.yieldPending || Preempts(woken, a.current) || CrowdedIn(k, m) then Switched(k, m, b) else b == m
    ensures TickDone(k, a, b, woken)
  {
  }

  /** A tick; the handler asks for a switch if it is told to. */
  method DoTick(k: Kernel) returns (ghost woken: seq<Task>)
    requires k.Valid()
    modifies k, k.scheduler, k.scheduler.heap.lists, k.scheduler.heap.items, k.scheduler.heap.ends
    ensures k.Valid() && TickDone(k, old(Now(k)), Now(k), woken)
  {
    hide *;
    CurrentIn(k);
    k.ValidParts();
    NowIs(k);
    ghost var a := Now(k);
    k.NobodyMoved(a.image, a.line, a.history, a.turns, []);
    var switchRequired;
    switchRequired, woken := k.IncrementTick();
    k.StillValid();
    NowIs(k);
    ghost var m := Now(k);
    PreemptsIs(k, woken);
    CrowdedNow(k);
    if switchRequired {
      DoYield(k);
      CurrentIn(k);
    }
    if a.suspended > 0 {
      TickCounted(k, a, Now(k), woken);
    } else {
      TickIs(k, a, m, Now(k), woken);
    }
  }

  lemma NobodyThere(k: Kernel, a: State, l: List)
    requires l in a.image.rings ==> a.image.rings[l].items == []
    ensures EventDone(k, a, a, l, [])
  {
  }

  lemma EventIs(k: Kernel, a: State, b: State, l: List, task: Task)
    requires l in a.image.rings && a.image.rings[l].items != []
    requires task in k.scheduler.tasks && task.eventItem == a.image.rings[l].items[0]
    requires task.priority < |a.turns| == |k.scheduler.ready|
    requires forall u :: u in k.scheduler.tasks && u.eventItem in a.image.rings[l].items ==> u.priority <= task.priority
    requires var yielding := a.yieldPending || task.priority > a.current.priority;
             if a.suspended > 0 then b == a.(image := Served(k, a.image, EventInterrupt(l)), yieldPending := yielding)
             else b == a.(line := a.line.Leave(task.stateItem), history := a.history + Kernel.LeaveEvents(a.line, task.stateItem),
                          turns := Joined(a.turns, task), image := k.Moving(a.image, task), yieldPending := yielding)
    ensures EventDone(k, a, b, l, [task])
  {
  }

  /** The contract of an event makes it what `EventDone` asks. */
  lemma EventCame(k: Kernel, a: State, l: List, task: Task)
    requires k.Valid() && k.scheduler.Lists().Closed() && l in a.image.rings && l != k.pendingReady && a.image.rings[l].items != []
    requires a.image.rings.Keys == k.scheduler.heap.lists && a.image.values == k.scheduler.heap.Values()
    requires k.pendingReady in a.image.rings && a.image.rings[k.pendingReady].cursor == 0 && |a.turns| == |k.scheduler.ready|
    requires task in k.scheduler.tasks && task.eventItem == a.image.rings[l].items[0] && task.priority < |k.scheduler.ready|
    requires forall u :: u in k.scheduler.tasks && u.eventItem in a.image.rings[l].items ==> u.priority <= task.priority
    requires k.schedulerSuspended == a.suspended && k.pendedTicks == a.pended && k.scheduler.current == a.current
    requires k.yieldPending == (a.yieldPending || task.priority > a.current.priority)
    requires Told(k) == a.told && Awaiting(k) == a.awaiting
    requires if a.suspended == 0 then
               && k.scheduler.Line() == a.line.Leave(task.stateItem) && k.scheduler.heap.Image() == k.Moving(a.image, task)
               && k.turns == Joined(a.turns, task) && k.history == a.history + Kernel.LeaveEvents(a.line, task.stateItem)
             else
               && k.scheduler.Line() == a.line && k.history == a.history && k.turns == a.turns
               && l.ring == a.image.rings[l].Remove(0)
               && k.pendingReady.ring.items == a.image.rings[k.pendingReady].items + [task.eventItem]
               && forall m :: m in k.scheduler.heap.lists && m != l && m != k.pendingReady ==> m.ring == a.image.rings[m]
    ensures EventDone(k, a, Now(k), l, [task])
  {
    hide *;
    CurrentIn(k);
    NowIs(k);
    if k.schedulerSuspended > 0 {
      ServedIs(k, a.image, l);
    }
    EventIs(k, a, Now(k), l, task);
  }

  /** An event, if anybody waits for it. */
  method DoEvent(k: Kernel, l: List) returns (ghost moved: seq<Task>)
    requires k.Valid() && l in k.order.events
    modifies k, k.scheduler, k.scheduler.heap.lists, k.scheduler.heap.items, k.scheduler.heap.ends
    ensures k.Valid() && EventDone(k, old(Now(k)), Now(k), l, moved)
  {
    hide *;
    CurrentIn(k);
    EventListNow(k, l);
    ImageNow(k);
    NowIs(k);
    ghost var a := Now(k);
    if l.numberOfItems > 0 {
      ghost var task;
      var higher;
      higher, task := k.RemoveFromEventList(l);
      moved := [task];
      EventCame(k, a, l, task);
    } else {
      moved := [];
      NobodyThere(k, a, l);
    }
  }

  // ---------- Suspending and resuming ----------

  method DoSuspend(k: Kernel)
    requires k.Valid()
    modifies k, k.scheduler, k.scheduler.heap.lists, k.scheduler.heap.items, k.scheduler.heap.ends
    ensures k.Valid() && Now(k) == old(Now(k)).(suspended := old(k.schedulerSuspended) + 1)
  {
    hide *;
    CurrentIn(k);
    NowIs(k);
    k.SuspendAll();
    CurrentIn(k);
    NowIs(k);
  }

  lemma ResumedIs(k: Kernel, a: State, m: State, moved: seq<Task>, woken: seq<Task>)
    requires a.suspended == 1 && k.pendingReady in a.image.rings && |a.turns| == |k.scheduler.ready|
    requires |moved| == |a.image.rings[k.pendingReady].items|
    requires forall t :: t in moved ==> t in k.scheduler.tasks && t.priority < |k.scheduler.ready|
    requires forall i :: 0 <= i < |moved| ==> moved[i].eventItem == a.image.rings[k.pendingReady].items[i]
    requires forall t :: t in woken ==> t.priority < |k.scheduler.ready|
    requires var d := Kernel.AfterLeaving(a.line, moved);
             && k.WokenOf(d, woken) && |woken| <= |d.sleepers| && Ticked(d, a.pended).sleepers == d.sleepers[|woken|..]
             && m == State(Ticked(d, a.pended), a.history + Kernel.AllLeaveEvents(a.line, moved) + TickEvents(a.pended),
                           AllJoined(AllJoined(a.turns, moved), woken), 0, 0, m.yieldPending, a.current,
                           k.scheduler.AfterWaking(k.AfterMoving(a.image, moved), woken), a.told, a.awaiting)
    ensures Resumed(k, a, m, moved, woken)
  {
    MovedFromIs(k, a.image.rings[k.pendingReady].items, moved);
  }

  lemma ResumeIs(k: Kernel, a: State, b: State, how: How)
    requires a.suspended == 0 ==> b == a
    requires a.suspended > 1 ==> b == a.(suspended := a.suspended - 1)
    requires a.suspended == 1 ==>
               && Resumed(k, a, how.mid, how.moved, how.woken)
               && (how.mid.yieldPending == (a.yieldPending || Preempts(how.moved, a.current) || Preempts(how.woken, a.current)
                                            || (a.pended > 0 && CrowdedIn(k, how.mid))))
               && if how.mid.yieldPending then Switched(k, how.mid, b) else b == how.mid
    ensures ResumeDone(k, a, b, how)
  {
    assert forall t :: t in how.moved + how.woken <==> t in how.moved || t in how.woken;
  }

  /** The end of a suspension, if there is one; the last one ends with a switch if a yield is pending. */
  method DoResume(k: Kernel) returns (ghost how: How)
    requires k.Valid()
    modifies k, k.scheduler, k.scheduler.heap.lists, k.scheduler.heap.items, k.scheduler.heap.ends
    ensures k.Valid() && ResumeDone(k, old(Now(k)), Now(k), how)
  {
    hide *;
    CurrentIn(k);
    ImageNow(k);
    NowIs(k);
    ghost var a := Now(k);
    how := How([], [], a.image, a);
    if k.schedulerSuspended > 0 {
      ghost var moved, woken;
      var alreadyYielded;
      alreadyYielded, moved, woken := k.ResumeAll();
      CurrentIn(k);
      k.ValidParts();
      NowIs(k);
      how := How(moved, woken, a.image, Now(k));
      if k.schedulerSuspended == 0 {
        ResumedIs(k, a, how.mid, moved, woken);
        PreemptsIs(k, moved);
        PreemptsIs(k, woken);
        CrowdedNow(k);
      }
      if alreadyYielded {
        DoYield(k);
      }
    }
    CurrentIn(k);
    ResumeIs(k, a, Now(k), how);
  }

  // ---------- Sleeping ----------

  lemma MayBlockNow(k: Kernel)
    requires k.Valid() && k.scheduler.Lists().Closed()
    ensures k.MayBlock() <==> MayBlockIn(k, Now(k))
  {
    ImageNow(k);
    k.OrderParts();
    KH.ContainerIsMembership(k.scheduler.heap, k.scheduler.ready[k.scheduler.current.priority], k.scheduler.current.stateItem);
  }

  /** A task other than the idle task that is in its ready list may block. */
  method MayBlock(k: Kernel, idle: Task) returns (may: bool)
    requires k.Valid() && idle == k.order.idle
    ensures may <==> k.MayBlock()
  {
    CurrentIn(k);
    var task := k.scheduler.current;
    may := task != idle && task.stateItem.container == k.scheduler.ready[task.priority];
  }

  lemma ToldLess(k: Kernel, was: set<Task>, task: Task)
    requires was <= k.scheduler.tasks && !task.delayAborted
    requires forall t :: t in k.scheduler.tasks && t != task ==> (t.delayAborted <==> t in was)
    ensures Told(k) == was - {task}
  {
  }

  lemma ToldIs(k: Kernel)
    ensures Told(k) <= k.scheduler.tasks && forall t :: t in k.scheduler.tasks ==> (t.delayAborted <==> t in Told(k))
  {
  }

  /** A sleep has been carried out: its contract says what `SleepDone` asks. */
  lemma SleptIs(k: Kernel, a: State, ticks: Tick, between: seq<Interrupt>, arrived: seq<ListItem>,
                moved: seq<Task>, woken: seq<Task>, asleep: Image, before: Image, b: State) returns (how: How)
    requires a.suspended == 0 && a.current.priority < |a.turns| && k.Steady() && k.scheduler.Lists().Closed()
    requires k.scheduler.current in k.scheduler.tasks
    requires GoesOn(k, AfterSleep(a.line, a.current, ticks), a.history + SleepEvents(a.current, ticks),
                    Departed(a.turns, a.current, ticks), arrived, Shown(TicksIn(between)), moved, woken)
    requires CameFrom(k, AllServed(k, asleep, between), moved, woken, before)
    requires Arrived(k, AllServed(k, asleep, between), arrived) && Chosen(k, before.rings)
    requires LeftIf(k, a.current, ticks, a.image.rings, asleep.rings) && OnlyValueOf(a.current.stateItem, a.image, asleep)
    requires ticks == 0 ==> asleep == a.image
    requires b == State(k.scheduler.Line(), k.history, k.turns, 0, 0, false, k.scheduler.current, k.scheduler.heap.Image(),
                        if ticks > 0 then a.told - {a.current} else a.told, a.awaiting)
    ensures SleepDone(k, a, b, ticks, between, how)
  {
    hide Chosen, LeftIf, OnlyValueOf, Kernel.Steady, AllServed, AllTaken, Ticked, AllJoined, Departed, AfterSleep, SleepEvents;
    k.scheduler.heap.ImageParts();
    ImageTurned(k, before);
    var s := Asleep(k, a, ticks, between, asleep);
    var d := Kernel.AfterLeaving(s.line, moved);
    var m := State(Ticked(d, s.pended), s.history + Kernel.AllLeaveEvents(s.line, moved) + TickEvents(s.pended),
                   AllJoined(AllJoined(s.turns, moved), woken), 0, 0, false, s.current, before, s.told, s.awaiting);
    how := How(moved, woken, asleep, m);
    assert Resumed(k, s, m, moved, woken);
    SwitchedIs(k, m, b);
  }

  lemma SleepPutOff(k: Kernel, a: State, b: State, ticks: Tick, between: seq<Interrupt>, how: How)
    requires a.suspended > 0
    requires b == a.(pended := Shown(a.pended + TicksIn(between)), image := AllServed(k, a.image, between), yieldPending := true)
    ensures SleepDone(k, a, b, ticks, between, how)
  {
  }

  lemma ValuesAre(k: Kernel)
    ensures k.scheduler.heap.Values().Keys == k.scheduler.heap.items
    ensures forall y :: y in k.scheduler.heap.items ==> k.scheduler.heap.Values()[y] == y.value
  {
  }

  lemma OnlyValueIs(k: Kernel, x: ListItem, t: Image, u: Image)
    requires t.values.Keys == k.scheduler.heap.items && u.values == k.scheduler.heap.Values()
    requires forall y :: y in k.scheduler.heap.items && y != x ==> y.value == t.values[y]
    ensures OnlyValueOf(x, t, u)
  {
  }

  method NoTicks() returns (ticks: Tick)
    ensures ticks == 0
  {
    ticks := 0;
  }

  /** What is known of the values and of who has been told, to compare with later. */
  lemma Before(k: Kernel)
    requires k.Valid()
    ensures k.scheduler.Lists().Closed() && k.scheduler.current.priority < |k.turns|
    ensures var a := Now(k);
            && a.line == k.scheduler.Line() && a.history == k.history && a.turns == k.turns && a.suspended == k.schedulerSuspended
            && a.pended == k.pendedTicks && a.yieldPending == k.yieldPending
            && a.current == k.scheduler.current && a.image == k.scheduler.heap.Image()
            && a.image.rings == k.scheduler.heap.Rings() && a.image.values.Keys == k.scheduler.heap.items
            && (forall y :: y in k.scheduler.heap.items ==> a.image.values[y] == y.value)
            && a.told <= k.scheduler.tasks && (forall t :: t in k.scheduler.tasks ==> (t.delayAborted <==> t in a.told))
            && a.awaiting == Awaiting(k)
    ensures k.schedulerSuspended == 0 ==> k.pendedTicks == 0 && k.pendingReady.ring.items == []
  {
    hide *;
    CurrentIn(k);
    k.ValidParts();
    ImageNow(k);
    NowIs(k);
    ValuesAre(k);
    ToldIs(k);
  }

  /** The contract of a sleep, and that it changes nothing else, make it what `SleepDone` asks. */
  lemma SleptNow(k: Kernel, a: State, ticks: Tick, between: seq<Interrupt>, arrived: seq<ListItem>,
                 moved: seq<Task>, woken: seq<Task>, asleep: Image, before: Image) returns (how: How)
    requires k.Valid() && k.schedulerSuspended == 0 && !k.yieldPending
    requires a.suspended == 0 && a.current.priority < |a.turns| && a.awaiting == Awaiting(k) && a.told <= k.scheduler.tasks
    requires GoesOn(k, AfterSleep(a.line, a.current, ticks), a.history + SleepEvents(a.current, ticks),
                    Departed(a.turns, a.current, ticks), arrived, Shown(TicksIn(between)), moved, woken)
    requires CameFrom(k, AllServed(k, asleep, between), moved, woken, before) && asleep.values == k.scheduler.heap.Values()
    requires Arrived(k, AllServed(k, asleep, between), arrived) && Chosen(k, before.rings)
    requires LeftIf(k, a.current, ticks, a.image.rings, asleep.rings) && (ticks == 0 ==> asleep == a.image)
    requires a.image.values.Keys == k.scheduler.heap.items
    requires forall y :: y in k.scheduler.heap.items && y != a.current.stateItem ==> y.value == a.image.values[y]
    requires forall t :: t in k.scheduler.tasks && t != a.current ==> (t.delayAborted <==> t in a.told)
    requires if ticks > 0 then !a.current.delayAborted
             else a.current in k.scheduler.tasks ==> (a.current.delayAborted <==> a.current in a.told)
    ensures k.scheduler.Lists().Closed() && SleepDone(k, a, Now(k), ticks, between, how)
  {
    hide *;
    CurrentIn(k);
    k.ValidParts();
    NowIs(k);
    NotNegative(ticks);
    OnlyValueIs(k, a.current.stateItem, a.image, asleep);
    if ticks > 0 {
      ToldLess(k, a.told, a.current);
    } else {
      ToldSame(k, a.told);
    }
    how := SleptIs(k, a, ticks, between, arrived, moved, woken, asleep, before, Now(k));
  }

  lemma NotNegative(ticks: Tick)
    ensures ticks >= 0
  {
  }

  lemma ToldSame(k: Kernel, was: set<Task>)
    requires was <= k.scheduler.tasks && forall t :: t in k.scheduler.tasks ==> (t.delayAborted <==> t in was)
    ensures Told(k) == was
  {
  }

  /** A sleep that the state allows. */
  method FallAsleep(k: Kernel, ticks: Tick, between: seq<Interrupt>) returns (ghost how: How)
    requires k.Valid() && ForEvents(k, between) && k.schedulerSuspended == 0 && ticks > 0 && k.MayBlock()
    modifies k, k.scheduler, k.scheduler.heap.lists, k.scheduler.heap.items, k.scheduler.heap.ends
    modifies k.scheduler.tasks`delayAborted
    ensures k.Valid() && SleepDone(k, old(Now(k)), Now(k), ticks, between, how)
  {
    hide *;
    Before(k);
    CurrentIn(k);
    ghost var a, w := Now(k), WaitingNow(k);
    ghost var moved, woken, asleep, before;
    moved, woken, asleep, before := Delays.Delay(k, ticks, between);
    how := SleptNow(k, a, ticks, between, AllTaken(w, between), moved, woken, asleep, before);
  }

  /** A task that does not sleep suspends the scheduler and resumes it, and gives way to the next in turn. */
  method GiveWay(k: Kernel, between: seq<Interrupt>) returns (ghost how: How)
    requires k.Valid() && ForEvents(k, between) && k.schedulerSuspended == 0
    modifies k, k.scheduler, k.scheduler.heap.lists, k.scheduler.heap.items, k.scheduler.heap.ends
    modifies k.scheduler.tasks`delayAborted
    ensures k.Valid() && SleepDone(k, old(Now(k)), Now(k), 0, between, how)
  {
    hide *;
    Before(k);
    CurrentIn(k);
    ghost var a, w := Now(k), WaitingNow(k);
    k.SuspendAll();
    ghost var moved, woken, asleep, before;
    var ticks := NoTicks();
    moved, woken, asleep, before := SleepAndResume(k, ticks, between);
    how := SleptNow(k, a, ticks, between, AllTaken(w, between), moved, woken, asleep, before);
  }

  /** With the scheduler suspended, the interrupts come, and a yield is pending. */
  method StaySuspended(k: Kernel, ghost ticks: Tick, between: seq<Interrupt>) returns (ghost how: How)
    requires k.Valid() && ForEvents(k, between) && k.schedulerSuspended > 0
    modifies k, k.scheduler, k.scheduler.heap.lists, k.scheduler.heap.items, k.scheduler.heap.ends
    ensures k.Valid() && SleepDone(k, old(Now(k)), Now(k), ticks, between, how)
  {
    hide *;
    CurrentIn(k);
    NowIs(k);
    ghost var a := Now(k);
    ServeNested(k, between);
    CurrentIn(k);
    NowIs(k);
    how := How([], [], a.image, a);
    SleepPutOff(k, a, Now(k), ticks, between, how);
  }

  /** A suspension within another one, and a yield that is put off. */
  method ServeNested(k: Kernel, between: seq<Interrupt>)
    requires k.Valid() && ForEvents(k, between) && k.schedulerSuspended > 0
    modifies k, k.scheduler, k.scheduler.heap.lists, k.scheduler.heap.items, k.scheduler.heap.ends
    ensures k.Valid() && old(k.scheduler.Lists().Closed()) && k.scheduler.Lists().Closed() && k.yieldPending
    ensures k.scheduler.Line() == old(k.scheduler.Line()) && k.history == old(k.history) && k.turns == old(k.turns)
    ensures k.schedulerSuspended == old(k.schedulerSuspended) && k.pendedTicks == Shown(old(k.pendedTicks) + TicksIn(between))
    ensures k.scheduler.heap.Image() == old(AllServed(k, k.scheduler.heap.Image(), between))
    ensures k.scheduler.current == old(k.scheduler.current)
    ensures Awaiting(k) == old(Awaiting(k)) && Told(k) == old(Told(k))
  {
    hide *;
    CurrentIn(k);
    k.SuspendAll();
    ServeAll(k, between);
    ghost var moved, woken;
    var alreadyYielded;
    alreadyYielded, moved, woken := k.ResumeAll();
    k.SwitchContext();
  }

  /** A switch alone is a sleep of no ticks during which nothing comes. */
  lemma GaveWay(k: Kernel, a: State, b: State) returns (how: How)
    requires Switched(k, a, b) && |a.turns| == |k.scheduler.ready| && a.current.priority < |a.turns|
    requires k.pendingReady in a.image.rings
    requires a.suspended == 0 ==> a.pended == 0 && a.image.rings[k.pendingReady].items == []
    ensures SleepDone(k, a, b, 0, [], how)
  {
    how := How([], [], a.image, a);
    k.NobodyMoved(a.image, a.line, a.history, a.turns, []);
    NobodyServed(k, a.image);
    if a.suspended == 0 {
      var s := Asleep(k, a, 0, [], a.image);
      assert s == a.(suspended := 1) by {
        assert a.history + [] == a.history;
      }
      assert Resumed(k, s, a, [], []) by {
        assert a.line.sleepers[0..] == a.line.sleepers;
      }
    }
  }

  /** A delay of no ticks. */
  method DelayNothing(k: Kernel, ticks: Tick) returns (ghost how: How)
    requires k.Valid() && ticks == 0
    modifies k, k.scheduler, k.scheduler.heap.lists, k.scheduler.heap.items, k.scheduler.heap.ends
    modifies k.scheduler.tasks`delayAborted
    ensures k.Valid() && SleepDone(k, old(Now(k)), Now(k), 0, [], how)
  {
    hide *;
    CurrentIn(k);
    k.ValidParts();
    ImageNow(k);
    NowIs(k);
    ToldIs(k);
    ghost var a := Now(k);
    NoEvents(k);
    ghost var moved, woken, asleep, before;
    moved, woken, asleep, before := Delays.Delay(k, ticks, []);
    CurrentIn(k);
    NowIs(k);
    ToldSame(k, a.told);
    if k.schedulerSuspended == 0 {
      ImageTurned(k, before);
      SwitchedIs(k, a, Now(k));
    } else {
      SwitchPutOff(k, a, Now(k));
    }
    how := GaveWay(k, a, Now(k));
  }

  lemma NoEvents(k: Kernel)
    ensures ForEvents(k, [])
  {
  }

  lemma GrantedIs(k: Kernel, a: State, ticks: Tick)
    ensures MayBlockIn(k, a) ==> Granted(k, a, ticks) == ticks
    ensures !MayBlockIn(k, a) ==> Granted(k, a, ticks) == 0
    ensures ticks == 0 ==> Granted(k, a, ticks) == 0
  {
  }

  /** A delay. */
  method DoSleep(k: Kernel, ticks: Tick, between: seq<Interrupt>, idle: Task, ghost a: State) returns (ghost how: How)
    requires k.Valid() && k.scheduler.Lists().Closed() && a == Now(k) && ForEvents(k, between) && idle == k.order.idle
    modifies k, k.scheduler, k.scheduler.heap.lists, k.scheduler.heap.items, k.scheduler.heap.ends
    modifies k.scheduler.tasks`delayAborted
    ensures k.Valid() && k.scheduler.Lists().Closed()
    ensures SleepDone(k, a, Now(k), Granted(k, a, ticks), between, how)
  {
    hide *;
    CurrentIn(k);
    MayBlockNow(k);
    NotNegative(ticks);
    GrantedIs(k, a, ticks);
    var may := MayBlock(k, idle);
    var none := NoTicks();
    var waits := if may then ticks else none;
    if ticks == 0 && between == [] {
      how := DelayNothing(k, ticks);
    } else if k.schedulerSuspended > 0 {
      how := StaySuspended(k, waits, between);
    } else if waits > 0 {
      how := FallAsleep(k, waits, between);
    } else {
      how := GiveWay(k, between);
    }
    CurrentIn(k);
  }

  lemma WakesWithin(now: nat, last: Tick, increment: Tick) returns (ticks: Tick)
    requires increment > 0
    ensures var wake := LastShown(now, last) + increment; ticks == if wake > now then wake - now else 0
    ensures ticks == WakeIn(now, last, increment)
  {
    ticks := WakeIn(now, last, increment);
  }

  method WakeUntil(k: Kernel, last: Tick, increment: Tick, between: seq<Interrupt>) returns (ghost how: How)
    requires k.Valid() && ForEvents(k, between) && k.schedulerSuspended == 0 && increment > 0 && k.MayBlock()
    modifies k, k.scheduler, k.scheduler.heap.lists, k.scheduler.heap.items, k.scheduler.heap.ends
    modifies k.scheduler.tasks`delayAborted
    ensures k.Valid()
    ensures SleepDone(k, old(Now(k)), Now(k), WakeIn(old(Now(k)).line.now, last, increment), between, how)
  {
    hide *;
    Before(k);
    CurrentIn(k);
    ghost var a, w := Now(k), WaitingNow(k);
    ghost var moved, woken, asleep, before;
    var shouldDelay, timeToWake;
    shouldDelay, timeToWake, moved, woken, asleep, before := Delays.DelayUntil(k, last, increment, between);
    ghost var ticks := WakesWithin(a.line.now, last, increment);
    NotNegative(ticks);
    how := SleptNow(k, a, ticks, between, AllTaken(w, between), moved, woken, asleep, before);
  }

  /** A delay until a given time. */
  method DoSleepUntil(k: Kernel, last: Tick, increment: Tick, between: seq<Interrupt>, idle: Task, ghost a: State) returns (ghost how: How)
    requires k.Valid() && k.scheduler.Lists().Closed() && a == Now(k) && ForEvents(k, between) && idle == k.order.idle && increment > 0
    modifies k, k.scheduler, k.scheduler.heap.lists, k.scheduler.heap.items, k.scheduler.heap.ends
    modifies k.scheduler.tasks`delayAborted
    ensures k.Valid() && k.scheduler.Lists().Closed()
    ensures SleepDone(k, a, Now(k),
                      Granted(k, a, WakeIn(a.line.now, last, increment)), between, how)
  {
    hide *;
    CurrentIn(k);
    MayBlockNow(k);
    GrantedIs(k, a, WakeIn(a.line.now, last, increment));
    var may := MayBlock(k, idle);
    if k.schedulerSuspended > 0 {
      how := StaySuspended(k, Granted(k, a, WakeIn(a.line.now, last, increment)), between);
    } else if may {
      how := WakeUntil(k, last, increment, between);
    } else {
      how := GiveWay(k, between);
    }
    CurrentIn(k);
  }

  // ---------- Waiting for events ----------

  lemma WaitRefused(k: Kernel, a: State, l: List, limit: Tick)
    requires !MayBlockIn(k, a)
    ensures WaitDone(k, a, a, l, limit)
  {
  }

  lemma WaitIs(k: Kernel, a: State, b: State, l: List, limit: Tick)
    requires MayBlockIn(k, a) && a.current.priority < |a.turns|
    requires k.LeftReady(a.current, k.EventEntered(a.image, a.current, l).rings, b.image.rings)
    requires OnlyValueOf(a.current.stateItem, a.image, b.image)
    requires limit == MAX_DELAY ==> b.image.Holds(k.scheduler.suspended, a.current.stateItem)
    requires b == State(if limit == MAX_DELAY then a.line else a.line.Sleep(a.current.stateItem, limit),
                        a.history + if limit == MAX_DELAY then [] else [SleepEvent(a.current.stateItem, limit)],
                        Turn(a.turns, a.current.priority, Removed(a.current.stateItem)), a.suspended, a.pended, a.yieldPending,
                        a.current, b.image, a.told - {a.current}, a.awaiting)
    ensures WaitDone(k, a, b, l, limit)
  {
  }

  lemma ContainerIn(k: Kernel, l: List, x: ListItem)
    requires k.Valid() && x in k.scheduler.heap.items && x.container == l && l in k.scheduler.heap.lists
    ensures k.scheduler.heap.Image().Holds(l, x)
  {
    ImageNow(k);
    KH.ContainerIsMembership(k.scheduler.heap, l, x);
  }

  lemma SuspendedListed(k: Kernel)
    requires k.Valid()
    ensures k.scheduler.suspended in k.scheduler.heap.lists
  {
  }

  /** The contract of a wait for an event, and that it changes nothing else, make it what `WaitDone` asks. */
  lemma WaitedNow(k: Kernel, a: State, l: List, limit: Tick)
    requires k.Valid() && MayBlockIn(k, a) && a.current.priority < |a.turns| && a.current in k.scheduler.tasks
    requires k.scheduler.current == a.current && k.schedulerSuspended == a.suspended && k.pendedTicks == a.pended
    requires k.yieldPending == a.yieldPending && a.awaiting == Awaiting(k) && a.told <= k.scheduler.tasks
    requires k.LeftReady(a.current, k.EventEntered(a.image, a.current, l).rings, k.scheduler.heap.Rings())
    requires k.scheduler.Lists().Closed()
    requires if limit == MAX_DELAY then
               k.scheduler.Line() == a.line && a.current.stateItem.container == k.scheduler.suspended
             else k.scheduler.Line() == a.line.Sleep(a.current.stateItem, limit)
    requires k.history == a.history + if limit == MAX_DELAY then [] else [SleepEvent(a.current.stateItem, limit)]
    requires k.turns == Turn(a.turns, a.current.priority, Removed(a.current.stateItem))
    requires a.image.values.Keys == k.scheduler.heap.items && !a.current.delayAborted
    requires forall y :: y in k.scheduler.heap.items && y != a.current.stateItem ==> y.value == a.image.values[y]
    requires forall t :: t in k.scheduler.tasks && t != a.current ==> (t.delayAborted <==> t in a.told)
    ensures WaitDone(k, a, Now(k), l, limit)
  {
    hide *;
    CurrentIn(k);
    NowIs(k);
    ImageNow(k);
    OnlyValueIs(k, a.current.stateItem, a.image, Now(k).image);
    ToldLess(k, a.told, a.current);
    SuspendedListed(k);
    if limit == MAX_DELAY {
      ContainerIn(k, k.scheduler.suspended, a.current.stateItem);
    }
    WaitIs(k, a, Now(k), l, limit);
  }

  method DoWait(k: Kernel, l: List, limit: Tick, idle: Task)
    requires k.Valid() && l in k.order.events && limit > 0 && idle == k.order.idle
    modifies k, k.scheduler, k.scheduler.heap.lists, k.scheduler.heap.items, k.scheduler.heap.ends
    modifies k.scheduler.tasks`delayAborted
    ensures k.Valid() && WaitDone(k, old(Now(k)), Now(k), l, limit)
  {
    hide *;
    Before(k);
    CurrentIn(k);
    MayBlockNow(k);
    ghost var a := Now(k);
    var may := MayBlock(k, idle);
    if may {
      k.PlaceOnEventList(l, limit);
      WaitedNow(k, a, l, limit);
    } else {
      WaitRefused(k, a, l, limit);
    }
  }

  // ---------- Breaking off a wait ----------

  lemma WaitingIn(k: Kernel, task: Task)
    requires k.Valid() && task in k.scheduler.tasks && k.scheduler.Lists().Closed()
    ensures BrokenWaits.IsWaiting(k, task) <==> IsWaitingIn(k, Now(k), task)
    ensures task.eventItem.container != null <==> Now(k).image.Listed(task.eventItem)
    ensures task.priority < |k.scheduler.ready| == |k.turns|
  {
    SuspendedListed(k);
    ImageNow(k);
    k.OrderParts();
    k.ContainerHolds(task.eventItem);
    KH.ContainerIsMembership(k.scheduler.heap, k.scheduler.suspended, task.stateItem);
  }

  lemma AbortIs(k: Kernel, a: State, m: State, b: State, task: Task)
    requires task.priority < |a.turns| == |k.scheduler.ready|
    requires task == a.current || !IsWaitingIn(k, a, task) ==> m == a
    requires task != a.current && IsWaitingIn(k, a, task) ==>
               m == State(a.line.Leave(task.stateItem), a.history + Kernel.LeaveEvents(a.line, task.stateItem),
                          Joined(a.turns, task), a.suspended, a.pended, a.yieldPending || task.priority > a.current.priority,
                          a.current, k.scheduler.Waking(a.image, task),
                          if a.image.Listed(task.eventItem) then a.told + {task} else a.told, a.awaiting)
    requires if a.suspended == 0 && m.yieldPending then Switched(k, m, b) else b == m
    ensures AbortDone(k, a, b, task)
  {
  }

  lemma ToldMore(k: Kernel, was: set<Task>, task: Task, more: bool)
    requires task in k.scheduler.tasks && was <= k.scheduler.tasks && (task.delayAborted <==> more || task in was)
    requires forall t :: t in k.scheduler.tasks && t != task ==> (t.delayAborted <==> t in was)
    ensures Told(k) == if more then was + {task} else was
  {
  }

  /** A task ends the wait of another one; the resumption ends with a switch if a yield is pending. */
  method DoAbort(k: Kernel, task: Task)
    requires k.Valid() && task in k.scheduler.tasks
    modifies k, k.scheduler, k.scheduler.heap.lists, k.scheduler.heap.items, k.scheduler.heap.ends
    modifies k.scheduler.tasks`delayAborted
    ensures k.Valid() && AbortDone(k, old(Now(k)), Now(k), task)
  {
    hide *;
    CurrentIn(k);
    k.ValidParts();
    NowIs(k);
    ToldIs(k);
    WaitingIn(k, task);
    ghost var a := Now(k);
    ghost var listed := task.eventItem.container != null;
    var aborted := BrokenWaits.AbortDelay(k, task);
    CurrentIn(k);
    k.ValidParts();
    NowIs(k);
    ToldMore(k, a.told, task, aborted && listed);
    ghost var m := Now(k);
    if k.schedulerSuspended == 0 && k.yieldPending {
      DoYield(k);
      CurrentIn(k);
    }
    AbortIs(k, a, m, Now(k), task);
  }
}
