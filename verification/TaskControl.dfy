/** The kernel around the tick: suspending and resuming the scheduler, event lists, and the choice of who runs. */
module TaskControl {
  import opened Sequences
  import opened RoundRobin
  import opened SortedInsertion
  import opened ListTable
  import opened TimerQueue
  import opened DelayedLists
  import opened TimeOuts
  import opened TaskOrder
  import KH = KernelHeap
  import KT = KernelTime

  type Events = seq<Event<ListItem>>

  datatype TaskState = RunningState | ReadyState | BlockedState | SuspendedState | DeletedState

  class Kernel {
    const scheduler: KT.Scheduler
    const pendingReady: List      // tasks whose event came while the scheduler was suspended
    var schedulerSuspended: nat   // how many suspensions are open
    var pendedTicks: Tick
    var yieldPending: bool
    ghost const start: Clock<ListItem>
    ghost const order: Order
    ghost var history: seq<Event<ListItem>>  // what has happened on the time line since the start
    ghost var turns: Turns                   // and on the ready lists, by priority

    /** Nobody waits for an event, nobody's event is pending, and the idle task is ready. */
    static ghost predicate Quiet(scheduler: KT.Scheduler, pendingReady: List, events: set<List>, idle: Task)
      reads scheduler, scheduler.delayed, scheduler.overflow, pendingReady
      reads scheduler.heap.lists, scheduler.heap.items, scheduler.heap.ends
    {
      var s := scheduler;
      && s.Valid() && s.ReadyAgrees() && pendingReady in s.heap.lists && pendingReady !in s.ready
      && pendingReady != s.delayed && pendingReady != s.overflow && pendingReady != s.suspended
      && pendingReady.ring == Ring([], 0) && pendingReady !in events
      && (forall l :: l in events ==> l in s.heap.lists && l !in s.ready && l.ring.items == [])
      && s.delayed !in events && s.overflow !in events && s.suspended !in events
      && (forall t :: t in s.tasks ==> t.eventItem in s.heap.items && t.stateItem in s.heap.items)
      && (forall t :: t in s.tasks ==> t.eventItem.container == null && t.priority < |s.ready|)
      && (forall t :: t in s.tasks ==> t.eventItem.value == |s.ready| - t.priority)
      && idle in s.tasks && idle.priority == 0 && |s.ready| > 0 && idle.stateItem.container == s.ready[0]
    }

    constructor (scheduler: KT.Scheduler, pendingReady: List, ghost events: set<List>, ghost idle: Task)
      requires scheduler.Lists().Closed()
      ensures this.scheduler == scheduler && this.pendingReady == pendingReady
      ensures schedulerSuspended == 0 && pendedTicks == 0 && !yieldPending
      ensures start == scheduler.Line() && history == []
      ensures order.events == events && order.idle == idle && |order.first| == |turns| == |scheduler.ready|
      ensures forall p :: 0 <= p < |turns| ==> turns[p] == [] && order.first[p] == scheduler.ready[p].ring
    {
      this.scheduler, this.pendingReady := scheduler, pendingReady;
      schedulerSuspended, pendedTicks, yieldPending := 0, 0, false;
      start, history := scheduler.Line(), [];
      turns := seq(|scheduler.ready|, p => []);
      order := Order(events, idle, FirstRings(scheduler.ready));
    }

    static ghost function FirstRings(lists: seq<List>): (r: seq<Ring<ListItem>>)
      reads lists`ring
      ensures |r| == |lists| && forall p :: 0 <= p < |r| ==> r[p] == lists[p].ring
    {
      if lists == [] then [] else FirstRings(lists[..|lists| - 1]) + [lists[|lists| - 1].ring]
    }

    /** A new kernel is valid. */
    lemma Begins()
      requires Quiet(scheduler, pendingReady, order.events, order.idle) && scheduler.Lists().Closed()
      requires start == scheduler.Line() && history == [] && pendedTicks == 0
      requires |order.first| == |turns| == |scheduler.ready|
      requires forall p :: 0 <= p < |turns| ==> turns[p] == [] && order.first[p] == scheduler.ready[p].ring
      ensures Valid()
    {
      scheduler.LineValid();
      InOrderAtFirst();
    }

    lemma InOrderAtFirst()
      requires Quiet(scheduler, pendingReady, order.events, order.idle)
      requires |order.first| == |turns| == |scheduler.ready|
      requires forall p :: 0 <= p < |turns| ==> turns[p] == [] && order.first[p] == scheduler.ready[p].ring
      ensures InOrder()
    {
      hide Orderly;
      EventsAtFirst();
      TurnsAtFirst();
      OrderlyIs(scheduler, order, scheduler.heap.Image(), turns);
    }

    lemma EventsAtFirst()
      requires Quiet(scheduler, pendingReady, order.events, order.idle)
      ensures EventsIn(scheduler, order, scheduler.heap.Image()) && EventsApart(scheduler, scheduler.heap.Image())
      ensures IdleIn(scheduler, order, scheduler.heap.Image())
    {
      hide KT.Scheduler.Valid, KT.Scheduler.ReadyAgrees;
      var t := scheduler.heap.Image();
      scheduler.CountStarts();
      scheduler.PlacedParts();
      scheduler.heap.ImageValid();
      scheduler.heap.ImageParts();
      ReadyWithin();
      forall u, l | u in scheduler.tasks && l in t.rings ensures !t.Holds(l, u.eventItem) {
        KH.ContainerIsMembership(scheduler.heap, l, u.eventItem);
      }
      KH.ContainerIsMembership(scheduler.heap, scheduler.ready[0], order.idle.stateItem);
    }

    lemma ReadyWithin()
      requires scheduler.Valid() && scheduler.ReadyAgrees()
      ensures |scheduler.ready| <= 32
      ensures forall i, j :: 0 <= i < j < |scheduler.ready| ==> scheduler.ready[i] != scheduler.ready[j]
      ensures forall p :: 0 <= p < |scheduler.ready| ==> scheduler.ready[p] in scheduler.heap.lists
    {
    }

    lemma TurnsAtFirst()
      requires scheduler.Valid() && scheduler.ReadyAgrees() && |order.first| == |turns| == |scheduler.ready|
      requires forall p :: 0 <= p < |turns| ==> turns[p] == [] && order.first[p] == scheduler.ready[p].ring
      ensures TurnsIn(scheduler, order, scheduler.heap.Image().rings, turns)
    {
      hide KT.Scheduler.Valid, KT.Scheduler.ReadyAgrees;
      scheduler.CountStarts();
      scheduler.PlacedParts();
      scheduler.heap.ImageParts();
      ReadyWithin();
      forall p | 0 <= p < |scheduler.ready| ensures scheduler.ready[p].ring.Valid() {
        KH.ListIsValid(scheduler.heap, scheduler.ready[p]);
      }
    }

    // ---------- What holds between any two calls ----------

    /** A task in an event list is blocked: its state item is in a list other than the ready lists. */
    ghost predicate Blocked()
      reads scheduler.heap.items`container
    {
      forall u :: u in scheduler.tasks && u.eventItem in scheduler.heap.items && u.stateItem in scheduler.heap.items ==>
        (u.eventItem.container != null ==> u.stateItem.container != null && u.stateItem.container !in scheduler.ready)
    }

    ghost predicate IsEventItem(x: ListItem)
      reads scheduler.heap.items`owner
    {
      x in scheduler.heap.items && x.owner is Task && x.owner as Task in scheduler.tasks && (x.owner as Task).eventItem == x
    }

    ghost predicate PendingPlaced()
      reads scheduler`delayed, scheduler`overflow, pendingReady`ring, scheduler.heap.items`owner
    {
      var s := scheduler;
      && pendingReady in s.heap.lists && pendingReady !in s.ready
      && pendingReady != s.delayed && pendingReady != s.overflow && pendingReady != s.suspended
      && pendingReady.ring.cursor == 0 && forall x :: x in pendingReady.ring.items ==> IsEventItem(x)
    }

    /** Event lists, turns and the idle task are in order. */
    ghost predicate InOrder()
      reads this`turns, scheduler`delayed, scheduler`overflow, scheduler.heap.lists`ring, scheduler.heap.items`value
    {
      && Orderly(scheduler, order, scheduler.heap.Image(), turns)
      && pendingReady !in order.events && scheduler.delayed !in order.events && scheduler.overflow !in order.events
    }

    /** The history explains the time line. */
    ghost predicate Logged()
      reads this`history, scheduler`tickCount, scheduler`numOfOverflows, scheduler`delayed, scheduler`overflow
      reads scheduler.delayed`ring, scheduler.overflow`ring, scheduler.heap.items`value
    {
      && scheduler.Lists().Closed() && start.Valid()
      && AllPossible(start, history) && Last(start, history) == scheduler.Line()
    }

    ghost predicate Steady()
      reads this`history, this`turns, scheduler, scheduler.delayed, scheduler.overflow, pendingReady`ring
      reads scheduler.heap.lists, scheduler.heap.items, scheduler.heap.ends
    {
      scheduler.Valid() && scheduler.ReadyAgrees() && Blocked() && PendingPlaced() && Logged() && InOrder()
    }

    ghost predicate Valid()
      reads this`schedulerSuspended, this`pendedTicks, this`history, this`turns, scheduler, scheduler.delayed, scheduler.overflow, pendingReady`ring
      reads scheduler.heap.lists, scheduler.heap.items, scheduler.heap.ends
    {
      Steady() && (schedulerSuspended == 0 ==> pendingReady.ring.items == [] && pendedTicks == 0)
    }

    lemma SteadyParts()
      requires Steady()
      ensures scheduler.Valid() && scheduler.ReadyAgrees() && Blocked() && PendingPlaced() && Logged() && InOrder()
      ensures scheduler.Placed() && scheduler.Lists().Closed() && scheduler.heap.Image().Valid()
      ensures pendingReady in scheduler.heap.Image().rings
      ensures scheduler.heap.Image().rings[pendingReady] == pendingReady.ring
      ensures BlockedIn(scheduler, scheduler.heap.Image())
      ensures KT.TasksPlaced(scheduler.tasks, scheduler.heap, |scheduler.ready|)
      ensures pendingReady.numberOfItems == |pendingReady.ring.items|
      ensures pendingReady.ring.cursor <= |pendingReady.ring.items|
    {
      scheduler.heap.ImageValid();
      BlockedMeans();
      assert scheduler.heap.Valid() && pendingReady.Valid();
    }

    lemma SteadyIs()
      requires scheduler.Valid() && scheduler.ReadyAgrees() && Blocked() && PendingPlaced() && Logged() && InOrder()
      ensures Steady()
    {
    }

    lemma BlockedMeans()
      requires scheduler.heap.Valid() && KT.TasksPlaced(scheduler.tasks, scheduler.heap, |scheduler.ready|)
      ensures Blocked() <==> BlockedIn(scheduler, scheduler.heap.Image())
    {
      var t := scheduler.heap.Image();
      forall u | u in scheduler.tasks
        ensures t.Listed(u.eventItem) <==> u.eventItem.container != null
        ensures t.Listed(u.stateItem) <==> u.stateItem.container != null
        ensures forall l :: l in t.rings && t.Holds(l, u.eventItem) ==> u.eventItem.container == l
        ensures forall l :: l in t.rings && t.Holds(l, u.stateItem) ==> u.stateItem.container == l
      {
        ContainerHolds(u.eventItem);
        ContainerHolds(u.stateItem);
      }
    }

    lemma ContainerHolds(x: ListItem)
      requires scheduler.heap.Valid() && x in scheduler.heap.items
      ensures var t := scheduler.heap.Image();
              && (t.Listed(x) <==> x.container != null)
              && (forall l :: l in t.rings && t.Holds(l, x) ==> x.container == l)
    {
      var t := scheduler.heap.Image();
      scheduler.heap.ImageHolds(x);
      forall l | l in t.rings && t.Holds(l, x) ensures x.container == l {
        KH.ContainerIsMembership(scheduler.heap, l, x);
      }
    }

    // ---------- The tick ----------

    lemma LogAppended(c: Clock<ListItem>, e: Event<ListItem>, was: seq<Event<ListItem>>)
      requires start.Valid() && AllPossible(start, was) && Last(start, was) == c && Possible(c, e)
      requires history == was + [e] && scheduler.Lists().Closed() && scheduler.Line() == Next(c, e)
      ensures Logged()
    {
      RunAppended(start, was, e);
    }

    lemma LogParts()
      requires Logged()
      ensures scheduler.Lists().Closed() && start.Valid() && AllPossible(start, history)
      ensures Last(start, history) == scheduler.Line()
    {
    }

    lemma TickKept(t: Image, woken: seq<Task>)
      requires BlockedIn(scheduler, t) && t.Valid() && pendingReady in t.rings && t.rings[pendingReady].items == []
      requires t.rings[pendingReady].cursor == 0
      requires KT.TasksPlaced(scheduler.tasks, scheduler.heap, |scheduler.ready|)
      requires pendingReady in scheduler.heap.lists && pendingReady !in scheduler.ready
      requires forall task :: task in woken ==> task in scheduler.tasks
      requires scheduler.heap.Valid() && scheduler.heap.Image() == scheduler.AfterWaking(t, woken)
      ensures Blocked() && pendingReady.ring.items == [] && pendingReady.ring.cursor == 0
    {
      AfterWakingBlocked(scheduler, t, woken, pendingReady);
      BlockedMeans();
      scheduler.heap.ImageParts();
    }

    lemma PendingEmpty(d: List, o: List)
      requires pendingReady in scheduler.heap.lists && pendingReady !in scheduler.ready
      requires pendingReady != d && pendingReady != o && pendingReady != scheduler.suspended
      requires (scheduler.delayed == d && scheduler.overflow == o) || (scheduler.delayed == o && scheduler.overflow == d)
      requires pendingReady.ring.items == [] && pendingReady.ring.cursor == 0
      ensures PendingPlaced()
    {
    }

    /** The tasks woken are those of the first sleepers of c, in their order. */
    ghost predicate WokenOf(c: Clock<ListItem>, woken: seq<Task>) {
      && |woken| <= |c.sleepers|
      && (forall i :: 0 <= i < |woken| ==> woken[i] in scheduler.tasks && woken[i].stateItem == c.sleepers[i].item)
      && (forall t :: t in woken ==> t.priority < |scheduler.ready|)
    }

    /** More than one task of the running task's priority is ready. */
    ghost predicate Crowded()
      reads scheduler`current, scheduler.ready`ring
    {
      scheduler.current.priority < |scheduler.ready| && |scheduler.ready[scheduler.current.priority].ring.items| > 1
    }

    /** A tick that is not put off, on the time line and in the lists. */
    method TickLists() returns (switchRequired: bool, ghost woken: seq<Task>)
      requires Steady() && pendingReady.ring.items == []
      modifies this`history
      modifies scheduler`tickCount, scheduler`delayed, scheduler`overflow
      modifies scheduler`numOfOverflows, scheduler`nextTaskUnblockTime, scheduler`readyPriorities
      modifies scheduler.heap.lists`ring, scheduler.heap.lists`repr, scheduler.heap.lists`numberOfItems
      modifies scheduler.heap.lists`index, scheduler.heap.items`container, scheduler.heap.items`next
      modifies scheduler.heap.items`previous, scheduler.heap.ends`next, scheduler.heap.ends`previous
      ensures scheduler.Valid() && scheduler.ReadyAgrees() && Blocked() && PendingPlaced() && Logged()
      ensures pendingReady.ring.items == []
      ensures (scheduler.delayed == old(scheduler.delayed) && scheduler.overflow == old(scheduler.overflow))
           || (scheduler.delayed == old(scheduler.overflow) && scheduler.overflow == old(scheduler.delayed))
      ensures old(scheduler.Lists().Closed()) && scheduler.current.priority < |scheduler.ready|
      ensures scheduler.Lists().Closed() && scheduler.Line() == old(scheduler.Line()).Tick()
      ensures history == old(history) + [TickEvent] && |woken| == old(scheduler.Line().Due())
      ensures WokenOf(old(scheduler.Line()), woken) && forall t :: t in woken ==> t.priority < |scheduler.ready|
      ensures scheduler.heap.Image() == scheduler.AfterWaking(old(scheduler.heap.Image()), woken)
      ensures switchRequired <==> scheduler.AnyPreempts(woken) || Crowded()
    {
      hide *;
      SteadyParts();
      ghost var t, was, c := scheduler.heap.Image(), history, scheduler.Line();
      PendingParts();
      LogParts();
      switchRequired, woken := scheduler.Tick();
      WokenIs(c, woken);
      CrowdedIs();
      history := history + [TickEvent];
      scheduler.CountStarts();
      scheduler.PlacedParts();
      TickKept(t, woken);
      PendingEmpty(scheduler.delayed, scheduler.overflow);
      TickIsNext(c);
      LogAppended(c, TickEvent, was);
    }

    /** The sleepers are different tasks, in lists other than the ready lists. */
    ghost predicate Asleep(t: Image, q: seq<ListItem>) {
      && Distinct(q)
      && forall x :: x in q ==> t.Listed(x) && forall p :: 0 <= p < |scheduler.ready| ==> !t.Holds(scheduler.ready[p], x)
    }

    lemma WokenIs(c: Clock<ListItem>, woken: seq<Task>)
      requires |woken| == c.Due() && forall t :: t in woken ==> t.priority < |scheduler.ready|
      requires forall i :: 0 <= i < |woken| ==> woken[i] in scheduler.tasks && woken[i].stateItem == c.sleepers[i].item
      ensures WokenOf(c, woken)
    {
    }

    lemma SleepersBlocked()
      requires Steady()
      ensures scheduler.Lists().Closed() && Asleep(scheduler.heap.Image(), Items(scheduler.Line().sleepers))
    {
      var t, d, o := scheduler.heap.Image(), scheduler.delayed, scheduler.overflow;
      assert d.Valid() && o.Valid();
      ItemsOf(scheduler.Lists(), scheduler.Base());
      var q := d.ring.items + o.ring.items;
      forall i, j | 0 <= i < |q| && 0 <= j < |q| && Apart(i, j) ensures q[i] != q[j] {
        OnePlace(d, o, i, j);
      }
      scheduler.heap.ImageValid();
      forall x | x in q
        ensures t.Listed(x) && forall p :: 0 <= p < |scheduler.ready| ==> !t.Holds(scheduler.ready[p], x)
      {
        var l := if x in d.ring.items then d else o;
        assert t.Holds(l, x);
      }
    }

    lemma OnePlace(d: List, o: List, i: nat, j: nat)
      requires scheduler.heap.Valid() && d in scheduler.heap.lists && o in scheduler.heap.lists && d != o && i != j
      requires i < |d.ring.items + o.ring.items| && j < |d.ring.items + o.ring.items|
      ensures (d.ring.items + o.ring.items)[i] != (d.ring.items + o.ring.items)[j]
    {
      var a, b := d.ring.items, o.ring.items;
      var n := |a|;
      assert d.Valid() && o.Valid();
      if i < n && j < n {
        assert Apart(i, j);
      } else if i >= n && j >= n {
        assert Apart(i - n, j - n);
      } else {
        var x, y := (a + b)[i], (a + b)[j];
        assert (if i < n then x in a && y in b else x in b && y in a);
        KH.ContainerIsMembership(scheduler.heap, d, x);
      }
    }

    /** No ready list has become shorter. */
    ghost predicate ReadyGrown(was: map<List, Ring<ListItem>>, now: map<List, Ring<ListItem>>) {
      forall p :: 0 <= p < |scheduler.ready| ==>
        && scheduler.ready[p] in was && scheduler.ready[p] in now
        && |was[scheduler.ready[p]].items| <= |now[scheduler.ready[p]].items|
    }

    /** What a tick keeps in order; no ready list gets shorter. */
    lemma TickOrder(t: Image, log: Turns, c: Clock<ListItem>, woken: seq<Task>, d: List, e: List)
      requires Orderly(scheduler, order, t, log) && Asleep(t, Items(c.sleepers)) && WokenOf(c, woken)
      requires forall u :: u in woken ==> u.priority < |scheduler.ready|
      requires KT.TasksPlaced(scheduler.tasks, scheduler.heap, |scheduler.ready|)
      requires scheduler.heap.Image() == scheduler.AfterWaking(t, woken)
      requires |log| == |scheduler.ready| && turns == AllJoined(log, woken)
      requires pendingReady !in order.events && d !in order.events && e !in order.events
      requires (scheduler.delayed == d && scheduler.overflow == e) || (scheduler.delayed == e && scheduler.overflow == d)
      ensures InOrder()
      ensures ReadyGrown(t.rings, scheduler.heap.Rings())
    {
      hide Orderly;
      var q := Items(c.sleepers);
      forall u | u in woken ensures u in scheduler.tasks && IsBlocked(scheduler, t, u) {
        var i :| 0 <= i < |woken| && woken[i] == u;
        assert q[i] in q;
      }
      forall i, j | 0 <= i < j < |woken| ensures woken[i].stateItem != woken[j].stateItem {
        assert Apart(i, j);
      }
      OrderlyAfterWaking(scheduler, order, t, log, woken);
      scheduler.heap.ImageParts();
    }

    lemma OrderParts()
      requires InOrder()
      ensures Orderly(scheduler, order, scheduler.heap.Image(), turns) && |turns| == |scheduler.ready|
      ensures pendingReady !in order.events && scheduler.delayed !in order.events && scheduler.overflow !in order.events
      ensures forall p :: 0 <= p < |scheduler.ready| ==>
                scheduler.ready[p] in scheduler.heap.lists && scheduler.ready[p] in scheduler.heap.Image().rings
                && scheduler.heap.Image().rings[scheduler.ready[p]] == scheduler.ready[p].ring
    {
      scheduler.heap.ImageParts();
    }

    /** A tick that is not put off. */
    method CountTick() returns (switchRequired: bool, ghost woken: seq<Task>)
      requires Steady() && pendingReady.ring.items == []
      modifies this`history, this`turns
      modifies scheduler`tickCount, scheduler`delayed, scheduler`overflow
      modifies scheduler`numOfOverflows, scheduler`nextTaskUnblockTime, scheduler`readyPriorities
      modifies scheduler.heap.lists`ring, scheduler.heap.lists`repr, scheduler.heap.lists`numberOfItems
      modifies scheduler.heap.lists`index, scheduler.heap.items`container, scheduler.heap.items`next
      modifies scheduler.heap.items`previous, scheduler.heap.ends`next, scheduler.heap.ends`previous
      ensures Steady() && pendingReady.ring.items == []
      ensures old(scheduler.Lists().Closed()) && scheduler.current.priority < |scheduler.ready|
      ensures scheduler.Lists().Closed() && scheduler.Line() == old(scheduler.Line()).Tick()
      ensures history == old(history) + [TickEvent] && |woken| == old(scheduler.Line().Due())
      ensures WokenOf(old(scheduler.Line()), woken) && forall t :: t in woken ==> t.priority < |scheduler.ready|
      ensures scheduler.heap.Image() == scheduler.AfterWaking(old(scheduler.heap.Image()), woken)
      ensures switchRequired <==> scheduler.AnyPreempts(woken) || Crowded()
      ensures |old(turns)| == |scheduler.ready| && turns == AllJoined(old(turns), woken)
      ensures ReadyGrown(old(scheduler.heap.Rings()), scheduler.heap.Rings())
    {
      hide *;
      BeforeTick();
      ghost var t, log, c, d, o := scheduler.heap.Image(), turns, scheduler.Line(), scheduler.delayed, scheduler.overflow;
      switchRequired, woken := TickLists();
      turns := AllJoined(turns, woken);
      TickDone(t, log, c, woken, d, o);
    }

    lemma TickDone(t: Image, log: Turns, c: Clock<ListItem>, woken: seq<Task>, d: List, e: List)
      requires scheduler.Valid() && scheduler.ReadyAgrees() && Blocked() && PendingPlaced() && Logged()
      requires Orderly(scheduler, order, t, log) && Asleep(t, Items(c.sleepers)) && WokenOf(c, woken)
      requires forall u :: u in woken ==> u.priority < |scheduler.ready|
      requires scheduler.heap.Image() == scheduler.AfterWaking(t, woken)
      requires |log| == |scheduler.ready| && turns == AllJoined(log, woken)
      requires pendingReady !in order.events && d !in order.events && e !in order.events
      requires (scheduler.delayed == d && scheduler.overflow == e) || (scheduler.delayed == e && scheduler.overflow == d)
      ensures Steady() && ReadyGrown(t.rings, scheduler.heap.Rings())
    {
      hide *;
      scheduler.CountStarts();
      scheduler.PlacedParts();
      TickOrder(t, log, c, woken, d, e);
      SteadyIs();
    }

    lemma BeforeTick()
      requires Steady()
      ensures scheduler.Lists().Closed() && Orderly(scheduler, order, scheduler.heap.Image(), turns)
      ensures |turns| == |scheduler.ready| && Asleep(scheduler.heap.Image(), Items(scheduler.Line().sleepers))
      ensures pendingReady !in order.events && scheduler.delayed !in order.events && scheduler.overflow !in order.events
      ensures scheduler.heap.Image().rings == scheduler.heap.Rings()
    {
      hide *;
      SteadyParts();
      SleepersBlocked();
      OrderParts();
      RingsAre();
    }

    /** One tick interrupt: counted, or remembered while the scheduler is suspended. */
    method IncrementTick() returns (switchRequired: bool, ghost woken: seq<Task>)
      requires Steady() && (schedulerSuspended == 0 ==> pendingReady.ring.items == [])
      modifies this`pendedTicks, this`history, this`turns
      modifies scheduler`tickCount, scheduler`delayed, scheduler`overflow
      modifies scheduler`numOfOverflows, scheduler`nextTaskUnblockTime, scheduler`readyPriorities
      modifies scheduler.heap.lists`ring, scheduler.heap.lists`repr, scheduler.heap.lists`numberOfItems
      modifies scheduler.heap.lists`index, scheduler.heap.items`container, scheduler.heap.items`next
      modifies scheduler.heap.items`previous, scheduler.heap.ends`next, scheduler.heap.ends`previous
      ensures Steady() && (schedulerSuspended == 0 ==> pendingReady.ring.items == [])
      ensures old(scheduler.Lists().Closed()) && scheduler.current.priority < |scheduler.ready|
      ensures scheduler.Lists().Closed()
      ensures scheduler.Line() == if schedulerSuspended > 0 then old(scheduler.Line()) else old(scheduler.Line()).Tick()
      ensures forall t :: t in woken ==> t.priority < |scheduler.ready|
      ensures scheduler.heap.Image() == scheduler.AfterWaking(old(scheduler.heap.Image()), woken)
      ensures |old(turns)| == |scheduler.ready| && turns == AllJoined(old(turns), woken)
      ensures ReadyGrown(old(scheduler.heap.Rings()), scheduler.heap.Rings())
      ensures if schedulerSuspended > 0 then
                && pendedTicks == Shown(old(pendedTicks) + 1) && history == old(history)
                && woken == [] && !switchRequired
              else
                && pendedTicks == old(pendedTicks) && history == old(history) + [TickEvent]
                && |woken| == old(scheduler.Line().Due())
                && WokenOf(old(scheduler.Line()), woken)
                && (switchRequired <==> yieldPending || scheduler.AnyPreempts(woken) || Crowded())
    {
      hide *;
      switchRequired, woken := false, [];
      if schedulerSuspended == 0 {
        switchRequired, woken := CountTick();
        if yieldPending {
          switchRequired := true;
        }
      } else {
        NotCounted();
        pendedTicks := Shown(pendedTicks + 1);
      }
    }

    lemma NotCounted()
      requires Steady()
      ensures scheduler.Lists().Closed() && scheduler.current.priority < |scheduler.ready| == |turns|
      ensures scheduler.AfterWaking(scheduler.heap.Image(), []) == scheduler.heap.Image() && AllJoined(turns, []) == turns
      ensures ReadyGrown(scheduler.heap.Rings(), scheduler.heap.Rings())
    {
      SteadyParts();
      scheduler.PlacedParts();
      OrderParts();
      RingsAre();
    }

    static lemma TickIsNext(c: Clock<ListItem>)
      ensures Possible(c, TickEvent) && Next(c, TickEvent) == c.Tick()
    {
    }

    // ---------- Waking for an event ----------

    /** What an event does to the lists: the task out of its event list, out of its state list, and ready. */
    ghost function Moving(t: Image, task: Task): Image
      requires task.priority < |scheduler.ready|
    {
      if t.Valid() && Permitted(t, Take(task.eventItem)) then
        scheduler.Waking(Effect(t, Take(task.eventItem)), task)
      else t
    }

    /** Each step of it finds its item in a list. */
    ghost predicate MoveRuns(t: Image, task: Task)
      requires task.priority < |scheduler.ready|
    {
      && t.Valid() && Permitted(t, Take(task.eventItem))
      && var u := Effect(t, Take(task.eventItem)); Runs(u, scheduler.WakeCommands(u, task))
    }

    ghost function AfterMoving(t: Image, moved: seq<Task>): Image
      requires forall task :: task in moved ==> task.priority < |scheduler.ready|
    {
      if moved == [] then t else
        var n := |moved| - 1;
        Moving(AfterMoving(t, moved[..n]), moved[n])
    }

    ghost predicate InEventList(task: Task)
      reads scheduler`delayed, scheduler`overflow, task.eventItem`container
    {
      var l := task.eventItem.container;
      && task in scheduler.tasks
      && l != null && l != scheduler.delayed && l != scheduler.overflow && l !in scheduler.ready
    }

    lemma MovingParts(task: Task)
      requires Steady() && InEventList(task)
      ensures task.priority < |scheduler.ready| && task.eventItem in scheduler.heap.items
      ensures task.stateItem in scheduler.heap.items && task.eventItem != task.stateItem
      ensures task.stateItem.container != null && task.stateItem.container !in scheduler.ready
      ensures task in scheduler.tasks && task.eventItem.container != null
      ensures task.eventItem.container != scheduler.delayed && task.eventItem.container != scheduler.overflow
      ensures task.eventItem.container !in scheduler.ready
    {
    }

    lemma MovingIs(t: Image, u: Image, task: Task)
      requires task.priority < |scheduler.ready| && t.Valid() && Permitted(t, Take(task.eventItem))
      requires u == Effect(t, Take(task.eventItem)) && Runs(u, scheduler.WakeCommands(u, task))
      ensures Moving(t, task) == scheduler.Waking(u, task) && MoveRuns(t, task)
    {
    }

    /** What a wake-up for an event leaves as it was: who is blocked, and every list without items of the task. */
    lemma MovingKeeps(t: Image, task: Task, u: Image)
      requires t.Valid() && BlockedIn(scheduler, t) && KT.TasksPlaced(scheduler.tasks, scheduler.heap, |scheduler.ready|)
      requires task in scheduler.tasks && Permitted(t, Take(task.eventItem)) && u == Effect(t, Take(task.eventItem))
      requires Runs(u, scheduler.WakeCommands(u, task))
      ensures BlockedIn(scheduler, scheduler.Waking(u, task)) && scheduler.Waking(u, task).Valid()
    {
      var e := task.eventItem;
      RunsOne(t, Take(e));
      forall v, l | v in scheduler.tasks && l in u.rings && u.Holds(l, v.eventItem)
        ensures exists m :: m in u.rings && m !in scheduler.ready && u.Holds(m, v.stateItem)
      {
        OneCommand(t, Take(e), l, v.eventItem);
        var m :| m in t.rings && m !in scheduler.ready && t.Holds(m, v.stateItem);
        OneCommand(t, Take(e), m, v.stateItem);
      }
      WakingBlocked(scheduler, u, task);
    }

    lemma MovingElsewhere(u: Image, task: Task, l: List)
      requires task.priority < |scheduler.ready| && task.stateItem != task.eventItem
      requires Runs(u, scheduler.WakeCommands(u, task)) && l in u.rings && l !in scheduler.ready
      requires task.stateItem !in u.rings[l].items && task.eventItem !in u.rings[l].items
      ensures l in scheduler.Waking(u, task).rings && scheduler.Waking(u, task).rings[l] == u.rings[l]
    {
      WakingPlaces(scheduler, u, task, l, task.stateItem);
    }

    /** How the time line goes on when x stops waiting: it is cancelled if it sleeps. */
    static ghost function LeaveEvents(c: Clock<ListItem>, x: ListItem): Events {
      if x in Items(c.sleepers) then [CancelEvent(IndexOf(Items(c.sleepers), x))] else []
    }

    lemma LogLeft(c: Clock<ListItem>, x: ListItem, was: seq<Event<ListItem>>)
      requires start.Valid() && AllPossible(start, was) && Last(start, was) == c
      requires history == was + LeaveEvents(c, x) && scheduler.Lists().Closed() && scheduler.Line() == c.Leave(x)
      ensures Logged()
    {
      if x in Items(c.sleepers) {
        RunAppended(start, was, CancelEvent(IndexOf(Items(c.sleepers), x)));
      } else {
        assert was + [] == was;
      }
    }

    lemma Logs(c: Clock<ListItem>, x: ListItem, was: seq<Event<ListItem>>)
      requires start.Valid() && AllPossible(start, was) && Last(start, was) == c
      requires history == was + LeaveEvents(c, x) && scheduler.Valid()
      requires scheduler.Lists().Closed() ==> scheduler.Line() == c.Leave(x)
      ensures Logged() && scheduler.Lists().Closed()
    {
      scheduler.CountStarts();
      LogLeft(c, x, was);
    }

    /** A task waiting in an event list is taken out of it and becomes ready. */
    method MoveItems(task: Task)
      requires Steady() && InEventList(task)
      modifies scheduler`readyPriorities
      modifies scheduler.heap.lists`ring, scheduler.heap.lists`repr, scheduler.heap.lists`numberOfItems
      modifies scheduler.heap.lists`index, scheduler.heap.items`container, scheduler.heap.items`next
      modifies scheduler.heap.items`previous, scheduler.heap.ends`next, scheduler.heap.ends`previous
      ensures scheduler.Valid() && scheduler.ReadyAgrees() && Blocked()
      ensures old(scheduler.Lists().Closed()) && scheduler.Lists().Closed()
      ensures scheduler.Line() == old(scheduler.Line()).Leave(task.stateItem)
      ensures task.priority < |scheduler.ready|
      ensures scheduler.heap.Image() == Moving(old(scheduler.heap.Image()), task)
      ensures MoveRuns(old(scheduler.heap.Image()), task)
    {
      hide *;
      SteadyParts();
      MovingParts(task);
      ghost var t := scheduler.heap.Image();
      scheduler.LeaveList(task.eventItem);
      ghost var u := scheduler.heap.Image();
      scheduler.WakeEarly(task);
      MovingIs(t, u, task);
      scheduler.CountStarts();
      scheduler.PlacedParts();
      MovingKeeps(t, task, u);
      BlockedMeans();
    }

    method Move(task: Task)
      requires Steady() && InEventList(task)
      modifies this`history, this`turns
      modifies scheduler`readyPriorities
      modifies scheduler.heap.lists`ring, scheduler.heap.lists`repr, scheduler.heap.lists`numberOfItems
      modifies scheduler.heap.lists`index, scheduler.heap.items`container, scheduler.heap.items`next
      modifies scheduler.heap.items`previous, scheduler.heap.ends`next, scheduler.heap.ends`previous
      ensures scheduler.Valid() && scheduler.ReadyAgrees() && Blocked() && Logged() && InOrder()
      ensures task.priority < |old(turns)| && turns == Joined(old(turns), task)
      ensures old(scheduler.Lists().Closed()) && scheduler.Lists().Closed()
      ensures scheduler.Line() == old(scheduler.Line()).Leave(task.stateItem)
      ensures task.priority < |scheduler.ready|
      ensures scheduler.heap.Image() == Moving(old(scheduler.heap.Image()), task)
      ensures MoveRuns(old(scheduler.heap.Image()), task)
      ensures history == old(history) + LeaveEvents(old(scheduler.Line()), task.stateItem)
    {
      hide *;
      ReadyToMove(task);
      ghost var was, c, t, log := history, scheduler.Line(), scheduler.heap.Image(), turns;
      MoveItems(task);
      history := history + LeaveEvents(c, task.stateItem);
      Logs(c, task.stateItem, was);
      turns := Joined(turns, task);
      MoveOrder(t, log, task);
    }

    lemma ReadyToMove(task: Task)
      requires Steady() && InEventList(task)
      ensures scheduler.Lists().Closed() && task.priority < |scheduler.ready| == |turns|
      ensures start.Valid() && AllPossible(start, history) && Last(start, history) == scheduler.Line()
      ensures Orderly(scheduler, order, scheduler.heap.Image(), turns) && task in scheduler.tasks
      ensures IsBlocked(scheduler, scheduler.heap.Image(), task)
      ensures pendingReady !in order.events && scheduler.delayed !in order.events && scheduler.overflow !in order.events
    {
      hide *;
      SteadyParts();
      LogParts();
      MovingParts(task);
      OrderParts();
      IsBlockedIn(task);
    }

    lemma IsBlockedIn(task: Task)
      requires Steady() && task in scheduler.tasks && task.stateItem in scheduler.heap.items
      requires task.stateItem.container != null && task.stateItem.container !in scheduler.ready
      ensures IsBlocked(scheduler, scheduler.heap.Image(), task)
    {
      ContainerHolds(task.stateItem);
    }

    lemma MoveOrder(t: Image, log: Turns, task: Task)
      requires Orderly(scheduler, order, t, log) && task in scheduler.tasks && IsBlocked(scheduler, t, task)
      requires scheduler.Valid() && task.priority < |scheduler.ready|
      requires scheduler.heap.Image() == Moving(t, task) && MoveRuns(t, task)
      requires |log| == |scheduler.ready| && turns == Joined(log, task)
      requires pendingReady !in order.events && scheduler.delayed !in order.events && scheduler.overflow !in order.events
      ensures InOrder()
    {
      hide Orderly, KT.Scheduler.Valid;
      scheduler.CountStarts();
      scheduler.PlacedParts();
      OrderlyTake(scheduler, order, t, log, task);
      OrderlyWaking(scheduler, order, Effect(t, Take(task.eventItem)), log, task);
    }

    /** Of the pending tasks, a move takes the moved one at most. */
    lemma MovedPending(t: Image, task: Task)
      requires task in scheduler.tasks && KT.TasksPlaced(scheduler.tasks, scheduler.heap, |scheduler.ready|)
      requires MoveRuns(t, task) && pendingReady in t.rings && pendingReady !in scheduler.ready
      requires t.rings[pendingReady].cursor == 0
      requires forall x :: x in t.rings[pendingReady].items ==> IsEventItem(x)
      ensures var w, items := Moving(t, task), t.rings[pendingReady].items;
              && pendingReady in w.rings && w.rings[pendingReady].items == Minus(items, task.eventItem)
              && w.rings[pendingReady].cursor == 0
              && forall x :: x in w.rings[pendingReady].items ==> IsEventItem(x)
    {
      var e, items := task.eventItem, t.rings[pendingReady].items;
      var u := Effect(t, Take(e));
      EffectValid(t, Take(e));
      EffectRing(t, Take(e));
      if e in items {
        assert t.Holds(pendingReady, e);
        HolderIs(t, e, pendingReady);
        ErasedMembers(items, IndexOf(items, e));
      } else {
        assert t.Holder(e) != pendingReady;
      }
      assert u.rings[pendingReady].items == Minus(items, e);
      assert !IsEventItem(task.stateItem);
      MovingElsewhere(u, task, pendingReady);
    }

    lemma HeadPending()
      requires Steady() && pendingReady.ring.items != []
      ensures var x := pendingReady.end.next;
              && x != null && x == pendingReady.ring.items[0] && x.owner is Task
              && (x.owner as Task).eventItem == x && InEventList(x.owner as Task)
              && (x.owner as Task).priority < |scheduler.ready|
    {
      hide *;
      SteadyParts();
      PendingParts();
      scheduler.PlacedParts();
      KH.ListIsValid(scheduler.heap, pendingReady);
      KH.HeadIsFirst(pendingReady);
      var x := pendingReady.ring.items[0];
      assert x in pendingReady.ring.items;
      EventItemIs(x);
      KH.ContainerIsMembership(scheduler.heap, pendingReady, x);
      InEventListIs(x.owner as Task);
    }

    lemma EventItemIs(x: ListItem)
      requires IsEventItem(x) && Steady()
      ensures x in scheduler.heap.items && x.owner is Task && x.owner as Task in scheduler.tasks
      ensures (x.owner as Task).eventItem == x && (x.owner as Task).priority < |scheduler.ready|
    {
    }

    lemma InEventListIs(task: Task)
      requires PendingPlaced() && task in scheduler.tasks && task.eventItem.container == pendingReady
      ensures InEventList(task)
    {
    }

    static lemma FirstGone(items: seq<ListItem>)
      requires items != []
      ensures Minus(items, items[0]) == items[1..]
    {
    }

    lemma PendingIs()
      requires pendingReady in scheduler.heap.Image().rings
      ensures scheduler.heap.Image().rings[pendingReady] == pendingReady.ring
    {
    }

    method MoveFirstPending() returns (task: Task)
      requires Steady() && pendingReady.ring.items != []
      modifies this`history, this`turns
      modifies scheduler`readyPriorities
      modifies scheduler.heap.lists`ring, scheduler.heap.lists`repr, scheduler.heap.lists`numberOfItems
      modifies scheduler.heap.lists`index, scheduler.heap.items`container, scheduler.heap.items`next
      modifies scheduler.heap.items`previous, scheduler.heap.ends`next, scheduler.heap.ends`previous
      ensures Steady() && task in scheduler.tasks && task.eventItem == old(pendingReady.ring.items[0])
      ensures pendingReady.ring.items == old(pendingReady.ring.items[1..])
      ensures old(scheduler.Lists().Closed()) && scheduler.Lists().Closed()
      ensures scheduler.Line() == old(scheduler.Line()).Leave(task.stateItem)
      ensures history == old(history) + LeaveEvents(old(scheduler.Line()), task.stateItem)
      ensures task.priority < |scheduler.ready| == |old(turns)| && turns == Joined(old(turns), task)
      ensures scheduler.heap.Image() == Moving(old(scheduler.heap.Image()), task)
    {
      hide *;
      SteadyParts();
      OrderParts();
      PendingParts();
      HeadPending();
      ghost var t := scheduler.heap.Image();
      task := pendingReady.end.next.owner as Task;
      MovingParts(task);
      FirstGone(pendingReady.ring.items);
      Move(task);
      MovedPending(t, task);
      PendingIs();
      PendingStill();
      SteadyIs();
    }

    lemma PendingStill()
      requires pendingReady in scheduler.heap.lists && pendingReady !in scheduler.ready
      requires pendingReady != scheduler.delayed && pendingReady != scheduler.overflow
      requires pendingReady != scheduler.suspended && pendingReady.ring.cursor == 0
      requires forall x :: x in pendingReady.ring.items ==> IsEventItem(x)
      ensures PendingPlaced()
    {
    }

    // ---------- Suspending and resuming ----------

    /** The time line when the tasks moved have stopped waiting. */
    static ghost function AfterLeaving(c: Clock<ListItem>, moved: seq<Task>): Clock<ListItem> {
      if moved == [] then c else
        var n := |moved| - 1;
        AfterLeaving(c, moved[..n]).Leave(moved[n].stateItem)
    }

    /** How the time line goes on when they do, one after the other. */
    static ghost function AllLeaveEvents(c: Clock<ListItem>, moved: seq<Task>): Events {
      if moved == [] then [] else
        var n := |moved| - 1;
        AllLeaveEvents(c, moved[..n]) + LeaveEvents(AfterLeaving(c, moved[..n]), moved[n].stateItem)
    }

    /** The tasks moved are those of the first event items, in their order. */
    ghost predicate MovedFrom(items: seq<ListItem>, moved: seq<Task>) {
      && |moved| <= |items|
      && (forall i :: 0 <= i < |moved| ==> moved[i] in scheduler.tasks && moved[i].eventItem == items[i])
      && (forall t :: t in moved ==> t.priority < |scheduler.ready|)
    }

    lemma NobodyMoved(t: Image, c: Clock<ListItem>, was: Events, log: Turns, items: seq<ListItem>)
      ensures AfterMoving(t, []) == t && AfterLeaving(c, []) == c && Ticked(c, 0) == c
      ensures MovedFrom(items, []) && items[0..] == items && AllJoined(log, []) == log
      ensures scheduler.AfterWaking(t, []) == t && !scheduler.AnyPreempts([])
      ensures was + AllLeaveEvents(c, []) == was && was + AllLeaveEvents(c, []) + TickEvents(0) == was
    {
    }

    lemma OneMoved(t: Image, c: Clock<ListItem>, was: Events, log: Turns, items: seq<ListItem>, moved: seq<Task>, task: Task)
      requires MovedFrom(items, moved) && |moved| < |items|
      requires task in scheduler.tasks && task.eventItem == items[|moved|] && task.priority < |scheduler.ready|
      ensures MovedFrom(items, moved + [task]) && items[|moved|..][1..] == items[|moved| + 1..]
      ensures forall u :: u in moved ==> u.priority < |scheduler.ready|
      ensures forall u :: u in moved + [task] ==> u in scheduler.tasks && u.priority < |scheduler.ready|
      ensures forall i :: 0 <= i < |moved| + 1 ==> (moved + [task])[i].eventItem == items[i]
      ensures AfterMoving(t, moved + [task]) == Moving(AfterMoving(t, moved), task)
      ensures AfterLeaving(c, moved + [task]) == AfterLeaving(c, moved).Leave(task.stateItem)
      ensures |log| == |scheduler.ready| ==> AllJoined(log, moved + [task]) == Joined(AllJoined(log, moved), task)
      ensures was + AllLeaveEvents(c, moved + [task])
           == was + AllLeaveEvents(c, moved) + LeaveEvents(AfterLeaving(c, moved), task.stateItem)
    {
      assert (moved + [task])[..|moved|] == moved;
    }

    /** Some of the pending tasks have been moved. */
    ghost predicate PartlyMoved(t: Image, c: Clock<ListItem>, was: Events, log: Turns, items: seq<ListItem>, moved: seq<Task>)
      reads this`history, this`turns, scheduler, scheduler.delayed, scheduler.overflow, pendingReady`ring
      reads scheduler.heap.lists, scheduler.heap.items, scheduler.heap.ends
    {
      && Steady() && MovedFrom(items, moved) && pendingReady.ring.items == items[|moved|..]
      && scheduler.Lists().Closed() && scheduler.Line() == AfterLeaving(c, moved)
      && scheduler.heap.Image() == AfterMoving(t, moved) && |log| == |scheduler.ready| && turns == AllJoined(log, moved)
      && history == was + AllLeaveEvents(c, moved)
    }

    lemma PartlyMeans(t: Image, c: Clock<ListItem>, was: Events, log: Turns, items: seq<ListItem>, moved: seq<Task>)
      ensures PartlyMoved(t, c, was, log, items, moved) <==>
              && Steady() && MovedFrom(items, moved) && |moved| <= |items| && pendingReady.ring.items == items[|moved|..]
              && (forall u :: u in moved ==> u in scheduler.tasks && u.priority < |scheduler.ready|)
              && (forall i :: 0 <= i < |moved| ==> moved[i].eventItem == items[i])
              && scheduler.Lists().Closed() && scheduler.Line() == AfterLeaving(c, moved)
              && scheduler.heap.Image() == AfterMoving(t, moved)
              && |log| == |scheduler.ready| && turns == AllJoined(log, moved)
              && history == was + AllLeaveEvents(c, moved)
      ensures PartlyMoved(t, c, was, log, items, moved) ==> pendingReady.numberOfItems == |pendingReady.ring.items|
    {
      if Steady() {
        SteadyParts();
      }
    }

    method MoveNext(ghost t: Image, ghost c: Clock<ListItem>, ghost was: Events, ghost log: Turns, ghost items: seq<ListItem>,
                    ghost moved: seq<Task>)
      returns (task: Task)
      requires PartlyMoved(t, c, was, log, items, moved) && pendingReady.ring.items != []
      modifies this`history, this`turns, scheduler`readyPriorities
      modifies scheduler.heap.lists`ring, scheduler.heap.lists`repr, scheduler.heap.lists`numberOfItems
      modifies scheduler.heap.lists`index, scheduler.heap.items`container, scheduler.heap.items`next
      modifies scheduler.heap.items`previous, scheduler.heap.ends`next, scheduler.heap.ends`previous
      ensures PartlyMoved(t, c, was, log, items, moved + [task])
      ensures |pendingReady.ring.items| == old(|pendingReady.ring.items|) - 1
    {
      hide *;
      PartlyMeans(t, c, was, log, items, moved);
      task := MoveFirstPending();
      OneMoved(t, c, was, log, items, moved, task);
      PartlyMeans(t, c, was, log, items, moved + [task]);
    }

    /** Make the tasks ready whose event came while the scheduler was suspended. */
    method MovePending() returns (ghost moved: seq<Task>)
      requires Steady()
      modifies this`history, this`turns, this`yieldPending, scheduler`readyPriorities, scheduler`nextTaskUnblockTime
      modifies scheduler.heap.lists`ring, scheduler.heap.lists`repr, scheduler.heap.lists`numberOfItems
      modifies scheduler.heap.lists`index, scheduler.heap.items`container, scheduler.heap.items`next
      modifies scheduler.heap.items`previous, scheduler.heap.ends`next, scheduler.heap.ends`previous
      ensures Steady() && pendingReady.ring.items == [] && |moved| == old(|pendingReady.ring.items|)
      ensures forall t :: t in moved ==> t in scheduler.tasks && t.priority < |scheduler.ready|
      ensures forall i :: 0 <= i < |moved| ==> moved[i].eventItem == old(pendingReady.ring.items)[i]
      ensures old(scheduler.Lists().Closed()) && scheduler.Lists().Closed()
      ensures scheduler.Line() == AfterLeaving(old(scheduler.Line()), moved)
      ensures scheduler.heap.Image() == AfterMoving(old(scheduler.heap.Image()), moved)
      ensures yieldPending <==> old(yieldPending) || scheduler.AnyPreempts(moved)
      ensures |old(turns)| == |scheduler.ready| && turns == AllJoined(old(turns), moved)
      ensures history == old(history) + AllLeaveEvents(old(scheduler.Line()), moved)
    {
      hide *;
      SteadyParts();
      OrderParts();
      ghost var t, c, was, log, items := scheduler.heap.Image(), scheduler.Line(), history, turns, pendingReady.ring.items;
      moved := [];
      NobodyMoved(t, c, was, log, items);
      PartlyMeans(t, c, was, log, items, moved);
      var last: KT.Task? := null;
      while pendingReady.numberOfItems > 0
        invariant PartlyMoved(t, c, was, log, items, moved) && pendingReady.numberOfItems == |pendingReady.ring.items|
        invariant yieldPending <==> old(yieldPending) || scheduler.AnyPreempts(moved)
        decreases |pendingReady.ring.items|
      {
        var task := MoveNext(t, c, was, log, items, moved);
        scheduler.OneMorePreempts(moved, task);
        moved := moved + [task];
        if task.priority >= scheduler.current.priority {
          yieldPending := true;
        }
        last := task;
        PartlyMeans(t, c, was, log, items, moved);
      }
      PartlyMeans(t, c, was, log, items, moved);
      if last != null {
        Refresh();
      }
    }

    method Refresh()
      requires Steady()
      modifies scheduler`nextTaskUnblockTime
      ensures Steady() && old(scheduler.Lists().Closed()) && scheduler.Lists().Closed()
      ensures scheduler.Line() == old(scheduler.Line())
    {
      hide *;
      SteadyParts();
      scheduler.RefreshNextTaskUnblockTime();
      scheduler.CountStarts();
      scheduler.PlacedParts();
      SteadyIs();
    }

    /** k ticks have been made up for. */
    ghost predicate Unwound(t: Image, c: Clock<ListItem>, was: Events, log: Turns, k: nat, woken: seq<Task>)
      reads this`history, this`turns, scheduler, scheduler.delayed, scheduler.overflow, pendingReady`ring
      reads scheduler.heap.lists, scheduler.heap.items, scheduler.heap.ends
    {
      && Steady() && pendingReady.ring.items == []
      && scheduler.Lists().Closed() && scheduler.Line() == Ticked(c, k)
      && WokenOf(c, woken) && scheduler.Line().sleepers == c.sleepers[|woken|..]
      && scheduler.heap.Image() == scheduler.AfterWaking(t, woken)
      && |log| == |scheduler.ready| && turns == AllJoined(log, woken)
      && history == was + TickEvents(k)
    }

    lemma LineIsClosed()
      requires Steady()
      ensures scheduler.Lists().Closed()
    {
    }

    lemma NothingUnwound()
      requires Steady() && pendingReady.ring.items == [] && scheduler.Lists().Closed()
      ensures Unwound(scheduler.heap.Image(), scheduler.Line(), history, turns, 0, []) && !scheduler.AnyPreempts([])
    {
      OrderParts();
      assert history + TickEvents(0) == history;
      assert scheduler.Line().sleepers[0..] == scheduler.Line().sleepers;
    }

    lemma UnwoundMeans(t: Image, c: Clock<ListItem>, was: Events, log: Turns, k: nat, woken: seq<Task>)
      ensures Unwound(t, c, was, log, k, woken) <==>
              && Steady() && pendingReady.ring.items == [] && scheduler.Lists().Closed()
              && scheduler.Line() == Ticked(c, k) && WokenOf(c, woken) && |woken| <= |c.sleepers|
              && scheduler.Line().sleepers == c.sleepers[|woken|..]
              && (forall u :: u in woken ==> u in scheduler.tasks && u.priority < |scheduler.ready|)
              && (forall i :: 0 <= i < |woken| ==> woken[i].stateItem == c.sleepers[i].item)
              && scheduler.heap.Image() == scheduler.AfterWaking(t, woken)
              && |log| == |scheduler.ready| && turns == AllJoined(log, woken)
              && history == was + TickEvents(k)
    {
    }

    lemma {:induction false} AfterWakingMore(t: Image, a: seq<Task>, b: seq<Task>)
      requires (forall u :: u in a ==> u.priority < |scheduler.ready|) && (forall u :: u in b ==> u.priority < |scheduler.ready|)
      ensures scheduler.AfterWaking(scheduler.AfterWaking(t, a), b) == scheduler.AfterWaking(t, a + b)
      decreases |b|
    {
      if b == [] {
        assert a + b == a;
      } else {
        var n := |b| - 1;
        AfterWakingMore(t, a, b[..n]);
        assert (a + b)[..|a + b| - 1] == a + b[..n];
      }
    }

    lemma WokenMore(c: Clock<ListItem>, k: nat, woken: seq<Task>, more: seq<Task>)
      requires WokenOf(c, woken) && Ticked(c, k).sleepers == c.sleepers[|woken|..]
      requires |more| == Ticked(c, k).Due() && WokenOf(Ticked(c, k), more)
      ensures WokenOf(c, woken + more) && |woken + more| <= |c.sleepers|
      ensures forall u :: u in woken + more ==> u in scheduler.tasks && u.priority < |scheduler.ready|
      ensures forall i :: 0 <= i < |woken + more| ==> (woken + more)[i].stateItem == c.sleepers[i].item
      ensures Ticked(c, k + 1).sleepers == c.sleepers[|woken + more|..] && Ticked(c, k + 1) == Ticked(c, k).Tick()
    {
      hide Ticked, Clock.Due, Clock.Tick;
      OneTickMore(c, k, |woken|);
      WokenConcat(c, Ticked(c, k), woken, more);
    }

    lemma WokenConcat(c: Clock<ListItem>, d: Clock<ListItem>, woken: seq<Task>, more: seq<Task>)
      requires WokenOf(c, woken) && WokenOf(d, more) && d.sleepers == c.sleepers[|woken|..]
      ensures WokenOf(c, woken + more)
      ensures forall u :: u in woken + more ==> u in scheduler.tasks && u.priority < |scheduler.ready|
    {
      forall i | 0 <= i < |woken + more|
        ensures (woken + more)[i] in scheduler.tasks && (woken + more)[i].stateItem == c.sleepers[i].item
      {
        if i >= |woken| {
          assert (woken + more)[i] == more[i - |woken|] && d.sleepers[i - |woken|] == c.sleepers[i];
        }
      }
    }

    lemma PreemptsMore(woken: seq<Task>, more: seq<Task>)
      ensures scheduler.AnyPreempts(woken + more) <==> scheduler.AnyPreempts(woken) || scheduler.AnyPreempts(more)
    {
      assert forall u :: u in woken + more <==> u in woken || u in more;
    }

    method UnwindOne(ghost t: Image, ghost c: Clock<ListItem>, ghost was: Events, ghost log: Turns, ghost k: nat,
                     ghost woken: seq<Task>, ghost y: bool)
      returns (ghost more: seq<Task>)
      requires Unwound(t, c, was, log, k, woken) && schedulerSuspended == 0
      requires yieldPending <==> y || scheduler.AnyPreempts(woken) || (k > 0 && Crowded())
      modifies this`pendedTicks, this`history, this`turns, this`yieldPending
      modifies scheduler`tickCount, scheduler`delayed, scheduler`overflow
      modifies scheduler`numOfOverflows, scheduler`nextTaskUnblockTime, scheduler`readyPriorities
      modifies scheduler.heap.lists`ring, scheduler.heap.lists`repr, scheduler.heap.lists`numberOfItems
      modifies scheduler.heap.lists`index, scheduler.heap.items`container, scheduler.heap.items`next
      modifies scheduler.heap.items`previous, scheduler.heap.ends`next, scheduler.heap.ends`previous
      ensures Unwound(t, c, was, log, k + 1, woken + more) && pendedTicks == old(pendedTicks)
      ensures yieldPending <==> y || scheduler.AnyPreempts(woken + more) || Crowded()
    {
      hide *;
      UnwoundMeans(t, c, was, log, k, woken);
      ghost var d, crowded, rings := scheduler.Line(), Crowded(), scheduler.heap.Rings();
      CrowdedMeans();
      var switchRequired;
      switchRequired, more := IncrementTick();
      WokenMore(c, k, woken, more);
      AfterWakingMore(t, woken, more);
      AllJoinedMore(log, woken, more);
      PreemptsMore(woken, more);
      OneMoreTick(was, k);
      UnwoundMeans(t, c, was, log, k + 1, woken + more);
      StaysCrowded(rings, crowded);
      if switchRequired {
        yieldPending := true;
      }
    }

    lemma CrowdedMeans()
      requires Steady()
      ensures scheduler.current.priority < |scheduler.ready|
      ensures var l := scheduler.ready[scheduler.current.priority];
              l in scheduler.heap.Rings() && (Crowded() <==> |scheduler.heap.Rings()[l].items| > 1)
    {
    }

    lemma StaysCrowded(was: map<List, Ring<ListItem>>, crowded: bool)
      requires Steady() && scheduler.current.priority < |scheduler.ready|
      requires var l := scheduler.ready[scheduler.current.priority]; l in was && (crowded <==> |was[l].items| > 1)
      requires ReadyGrown(was, scheduler.heap.Rings())
      ensures crowded ==> Crowded()
    {
      CrowdedMeans();
    }

    lemma CrowdedIs()
      requires scheduler.current.priority < |scheduler.ready|
      ensures Crowded() <==> |scheduler.ready[scheduler.current.priority].ring.items| > 1
    {
    }

    method NoPendedTicks()
      modifies this`pendedTicks
      ensures pendedTicks == 0
    {
      pendedTicks := 0;
    }

    /** Make up for the ticks that came while the scheduler was suspended. */
    method UnwindTicks() returns (ghost woken: seq<Task>)
      requires Steady() && pendingReady.ring.items == [] && schedulerSuspended == 0
      modifies this`pendedTicks, this`yieldPending, this`history, this`turns
      modifies scheduler`tickCount, scheduler`delayed, scheduler`overflow
      modifies scheduler`numOfOverflows, scheduler`nextTaskUnblockTime, scheduler`readyPriorities
      modifies scheduler.heap.lists`ring, scheduler.heap.lists`repr, scheduler.heap.lists`numberOfItems
      modifies scheduler.heap.lists`index, scheduler.heap.items`container, scheduler.heap.items`next
      modifies scheduler.heap.items`previous, scheduler.heap.ends`next, scheduler.heap.ends`previous
      ensures Steady() && pendingReady.ring.items == [] && pendedTicks == 0
      ensures old(scheduler.Lists().Closed()) && scheduler.Lists().Closed()
      ensures scheduler.Line() == Ticked(old(scheduler.Line()), old(pendedTicks))
      ensures WokenOf(old(scheduler.Line()), woken) && |woken| <= |old(scheduler.Line()).sleepers|
      ensures scheduler.Line().sleepers == old(scheduler.Line()).sleepers[|woken|..]
      ensures forall u :: u in woken ==> u.priority < |scheduler.ready|
      ensures scheduler.heap.Image() == scheduler.AfterWaking(old(scheduler.heap.Image()), woken)
      ensures yieldPending <==> old(yieldPending) || scheduler.AnyPreempts(woken) || (old(pendedTicks) > 0 && Crowded())
      ensures old(pendedTicks) == 0 ==> woken == []
      ensures |old(turns)| == |scheduler.ready| && turns == AllJoined(old(turns), woken)
      ensures history == old(history) + TickEvents(old(pendedTicks))
    {
      hide *;
      LineIsClosed();
      SteadyParts();
      OrderParts();
      ghost var t, c, was, log := scheduler.heap.Image(), scheduler.Line(), history, turns;
      ghost var k: nat := 0;
      NothingUnwound();
      woken := [];
      var pendedCounts: nat := pendedTicks;
      while pendedCounts > 0
        invariant Unwound(t, c, was, log, k, woken) && k + pendedCounts == old(pendedTicks) == pendedTicks
        invariant yieldPending <==> old(yieldPending) || scheduler.AnyPreempts(woken) || (k > 0 && Crowded())
        invariant k == 0 ==> woken == []
      {
        ghost var more := UnwindOne(t, c, was, log, k, woken, old(yieldPending));
        woken, k := woken + more, k + 1;
        pendedCounts := pendedCounts - 1;
      }
      NoPendedTicks();
      UnwoundMeans(t, c, was, log, k, woken);
    }

    lemma PendingParts()
      requires PendingPlaced()
      ensures pendingReady in scheduler.heap.lists && pendingReady !in scheduler.ready
      ensures pendingReady != scheduler.delayed && pendingReady != scheduler.overflow
      ensures pendingReady != scheduler.suspended && pendingReady.ring.cursor == 0
      ensures forall x :: x in pendingReady.ring.items ==> IsEventItem(x)
    {
    }

    method SuspendAll()
      modifies this`schedulerSuspended
      ensures schedulerSuspended == old(schedulerSuspended) + 1
      ensures old(Valid()) ==> Valid()
    {
      schedulerSuspended := schedulerSuspended + 1;
    }

    /** The last suspension ends: first the tasks whose event came in the meantime, then the ticks. */
    method Resume() returns (ghost moved: seq<Task>, ghost woken: seq<Task>)
      requires Steady() && schedulerSuspended == 0
      modifies this`pendedTicks, this`yieldPending, this`history, this`turns
      modifies scheduler`tickCount, scheduler`delayed, scheduler`overflow
      modifies scheduler`numOfOverflows, scheduler`nextTaskUnblockTime, scheduler`readyPriorities
      modifies scheduler.heap.lists`ring, scheduler.heap.lists`repr, scheduler.heap.lists`numberOfItems
      modifies scheduler.heap.lists`index, scheduler.heap.items`container, scheduler.heap.items`next
      modifies scheduler.heap.items`previous, scheduler.heap.ends`next, scheduler.heap.ends`previous
      ensures Valid() && |moved| == old(|pendingReady.ring.items|)
      ensures forall t :: t in moved ==> t in scheduler.tasks && t.priority < |scheduler.ready|
      ensures forall i :: 0 <= i < |moved| ==> moved[i].eventItem == old(pendingReady.ring.items)[i]
      ensures forall t :: t in woken ==> t.priority < |scheduler.ready|
      ensures old(scheduler.Lists().Closed()) && scheduler.Lists().Closed()
      ensures var c := AfterLeaving(old(scheduler.Line()), moved);
              && scheduler.Line() == Ticked(c, old(pendedTicks))
              && WokenOf(c, woken) && |woken| <= |c.sleepers| && scheduler.Line().sleepers == c.sleepers[|woken|..]
      ensures scheduler.heap.Image() == scheduler.AfterWaking(AfterMoving(old(scheduler.heap.Image()), moved), woken)
      ensures yieldPending <==>
              old(yieldPending) || scheduler.AnyPreempts(moved) || scheduler.AnyPreempts(woken) || (old(pendedTicks) > 0 && Crowded())
      ensures old(pendedTicks) == 0 ==> woken == []
      ensures |old(turns)| == |scheduler.ready| && turns == AllJoined(AllJoined(old(turns), moved), woken)
      ensures history == old(history) + AllLeaveEvents(old(scheduler.Line()), moved) + TickEvents(old(pendedTicks))
    {
      hide *;
      moved := MovePending();
      woken := UnwindTicks();
      StillValid();
    }

    /** The end of a suspension. Time does not slip: when it is the last one, the time line has moved on by exactly the
        ticks that came in the meantime, and every task that is due by then has been woken. */
    method ResumeAll() returns (alreadyYielded: bool, ghost moved: seq<Task>, ghost woken: seq<Task>)
      requires Valid() && schedulerSuspended > 0
      modifies this`schedulerSuspended, this`pendedTicks, this`yieldPending, this`history, this`turns
      modifies scheduler`tickCount, scheduler`delayed, scheduler`overflow
      modifies scheduler`numOfOverflows, scheduler`nextTaskUnblockTime, scheduler`readyPriorities
      modifies scheduler.heap.lists`ring, scheduler.heap.lists`repr, scheduler.heap.lists`numberOfItems
      modifies scheduler.heap.lists`index, scheduler.heap.items`container, scheduler.heap.items`next
      modifies scheduler.heap.items`previous, scheduler.heap.ends`next, scheduler.heap.ends`previous
      ensures Valid() && schedulerSuspended == old(schedulerSuspended) - 1
      ensures old(scheduler.Lists().Closed()) && scheduler.Lists().Closed()
      ensures schedulerSuspended > 0 ==>
                && !alreadyYielded && pendedTicks == old(pendedTicks) && yieldPending == old(yieldPending)
                && history == old(history) && scheduler.Line() == old(scheduler.Line())
                && scheduler.heap.Image() == old(scheduler.heap.Image())
      ensures schedulerSuspended == 0 ==> |moved| == old(|pendingReady.ring.items|) && (old(pendedTicks) == 0 ==> woken == [])
      ensures forall t :: t in moved ==> t in scheduler.tasks && t.priority < |scheduler.ready|
      ensures schedulerSuspended == 0 ==>
                forall i :: 0 <= i < |moved| ==> moved[i].eventItem == old(pendingReady.ring.items)[i]
      ensures forall t :: t in woken ==> t.priority < |scheduler.ready|
      ensures schedulerSuspended == 0 ==>
                var c := AfterLeaving(old(scheduler.Line()), moved);
                && scheduler.Line() == Ticked(c, old(pendedTicks))
                && scheduler.Line().now == old(scheduler.Line().now) + old(pendedTicks)
                && WokenOf(c, woken) && |woken| <= |c.sleepers| && scheduler.Line().sleepers == c.sleepers[|woken|..]
                && scheduler.heap.Image()
                   == scheduler.AfterWaking(AfterMoving(old(scheduler.heap.Image()), moved), woken)
      ensures schedulerSuspended == 0 ==>
                && (alreadyYielded <==> yieldPending)
                && (alreadyYielded <==> old(yieldPending) || scheduler.AnyPreempts(moved) || scheduler.AnyPreempts(woken)
                                        || (old(pendedTicks) > 0 && Crowded()))
      ensures |old(turns)| == |scheduler.ready|
      ensures turns == if schedulerSuspended > 0 then old(turns) else AllJoined(AllJoined(old(turns), moved), woken)
      ensures schedulerSuspended == 0 ==>
                history == old(history) + AllLeaveEvents(old(scheduler.Line()), moved) + TickEvents(old(pendedTicks))
    {
      hide *;
      ValidParts();
      SteadyParts();
      OrderParts();
      schedulerSuspended := schedulerSuspended - 1;
      alreadyYielded, moved, woken := false, [], [];
      if schedulerSuspended == 0 {
        moved, woken := Resume();
        LeavingNow(old(scheduler.Line()), moved);
        TickedNow(AfterLeaving(old(scheduler.Line()), moved), old(pendedTicks));
        if yieldPending {
          alreadyYielded := true;
        }
      } else {
        StillValid();
      }
    }

    lemma ValidParts()
      requires Valid()
      ensures Steady() && scheduler.Lists().Closed()
      ensures schedulerSuspended == 0 ==> pendingReady.ring.items == [] && pendedTicks == 0
    {
    }

    static lemma {:induction false} LeavingNow(c: Clock<ListItem>, moved: seq<Task>)
      ensures AfterLeaving(c, moved).now == c.now
      decreases |moved|
    {
      if moved == [] {
      } else {
        LeavingNow(c, moved[..|moved| - 1]);
      }
    }

    // ---------- Event lists ----------

    /** A list of tasks that wait for one event. */
    ghost predicate IsEventList(l: List)
      reads scheduler`delayed, scheduler`overflow, l`ring, scheduler.heap.items`owner
    {
      && l in order.events
      && l in scheduler.heap.lists && l !in scheduler.ready && l != scheduler.delayed && l != scheduler.overflow
      && l != scheduler.suspended && l != pendingReady
      && forall x :: x in l.ring.items ==> IsEventItem(x)
    }

    lemma EventListIs(l: List)
      requires Steady() && l in order.events
      ensures IsEventList(l)
    {
      scheduler.heap.ImageParts();
      forall x | x in l.ring.items ensures IsEventItem(x) {
        assert OfTask(scheduler, x);
      }
    }

    lemma HeadOfEventList(l: List)
      requires Steady() && IsEventList(l) && l.ring.items != []
      ensures var x := l.end.next;
              && x != null && x == l.ring.items[0] && x.owner is Task && x in scheduler.heap.items
              && (x.owner as Task).eventItem == x && x.container == l && InEventList(x.owner as Task)
              && (x.owner as Task).priority < |scheduler.ready| && x.owner as Task in scheduler.tasks
      ensures IndexOf(l.ring.items, l.ring.items[0]) == 0
      ensures l != pendingReady && l !in scheduler.ready && l != scheduler.delayed && l != scheduler.overflow
      ensures l in scheduler.heap.lists
    {
      hide *;
      EventListParts(l);
      SteadyParts();
      scheduler.CountStarts();
      scheduler.PlacedParts();
      KH.ListIsValid(scheduler.heap, l);
      KH.HeadIsFirst(l);
      assert l.ring.items[0] in l.ring.items;
      HeadIsBlocked(l, l.ring.items[0]);
    }

    lemma HeadIsBlocked(l: List, x: ListItem)
      requires Steady() && IsEventList(l) && x in l.ring.items
      ensures x.owner is Task && x in scheduler.heap.items
      ensures (x.owner as Task).eventItem == x && x.container == l && InEventList(x.owner as Task)
      ensures (x.owner as Task).priority < |scheduler.ready| && x.owner as Task in scheduler.tasks
    {
      KH.ContainerIsMembership(scheduler.heap, l, x);
    }

    lemma LogKept(c: Clock<ListItem>)
      requires start.Valid() && AllPossible(start, history) && Last(start, history) == c
      requires scheduler.Lists().Closed() && scheduler.Line() == c
      ensures Logged()
    {
    }

    /** The event item of a blocked task has moved to the end of the pending list. */
    lemma PutOff(task: Task, was: map<ListItem, KH.KL.List?>)
      requires KT.TasksPlaced(scheduler.tasks, scheduler.heap, |scheduler.ready|) && task in scheduler.tasks
      requires was.Keys == scheduler.heap.items
      requires forall u :: u in scheduler.tasks ==>
                 (was[u.eventItem] != null ==> was[u.stateItem] != null && was[u.stateItem] !in scheduler.ready)
      requires was[task.eventItem] != null
      requires forall y :: y in scheduler.heap.items && y != task.eventItem ==> y.container == was[y]
      ensures Blocked()
    {
    }

    ghost function Containers(): (m: map<ListItem, KH.KL.List?>)
      reads scheduler.heap.items`container
    {
      map x | x in scheduler.heap.items :: x.container
    }

    lemma ContainersAre()
      requires Steady()
      ensures var was := Containers();
              && was.Keys == scheduler.heap.items && (forall x :: x in was ==> was[x] == x.container)
              && (forall u :: u in scheduler.tasks ==> u.eventItem in was && u.stateItem in was)
              && (forall u :: u in scheduler.tasks ==>
                    (was[u.eventItem] != null ==> was[u.stateItem] != null && was[u.stateItem] !in scheduler.ready))
    {
    }

    lemma PendingGrown(r: Ring<ListItem>, x: ListItem)
      requires pendingReady in scheduler.heap.lists && pendingReady !in scheduler.ready
      requires pendingReady != scheduler.delayed && pendingReady != scheduler.overflow
      requires pendingReady != scheduler.suspended
      requires (forall y :: y in r.items ==> IsEventItem(y)) && IsEventItem(x)
      requires r.cursor == 0 && pendingReady.ring == r.InsertEnd(x)
      ensures PendingPlaced() && pendingReady.ring.items == r.items + [x]
    {
    }

    lemma IsOfTask(x: ListItem)
      requires x in scheduler.heap.items && x.owner is Task
      requires x.owner as Task in scheduler.tasks && (x.owner as Task).eventItem == x
      ensures IsEventItem(x)
    {
    }

    lemma PutOffOrder(t: Image, u: Image, task: Task)
      requires Orderly(scheduler, order, t, turns) && task in scheduler.tasks && Permitted(t, Take(task.eventItem)) && t.Valid()
      requires u == Effect(t, Take(task.eventItem)) && scheduler.heap.Valid() && pendingReady !in scheduler.ready
      requires KT.TasksPlaced(scheduler.tasks, scheduler.heap, |scheduler.ready|)
      requires u.rings.Keys == scheduler.heap.lists && u.values.Keys == scheduler.heap.items
      requires forall l :: l in scheduler.heap.lists && l != pendingReady ==> l.ring == u.rings[l]
      requires forall y :: y in scheduler.heap.items ==> y.value == u.values[y]
      requires pendingReady !in order.events && scheduler.delayed !in order.events && scheduler.overflow !in order.events
      ensures InOrder()
    {
      hide Orderly;
      OrderlyTake(scheduler, order, t, turns, task);
      OrderlyParts(scheduler, order, u, turns);
      EventsListed(scheduler, order, u, turns);
      scheduler.heap.ImageValid();
      scheduler.heap.ImageParts();
      OrderlySame(scheduler, order, u, scheduler.heap.Image(), turns);
    }

    /** The first task of the event list is remembered until the scheduler is resumed. */
    method PutOffLists(eventList: List, task: Task) returns (ghost taken: Image)
      requires Steady() && IsEventList(eventList) && eventList.ring.items != [] && schedulerSuspended > 0
      requires task in scheduler.tasks && task.eventItem == eventList.ring.items[0]
      modifies scheduler.heap.lists`ring, scheduler.heap.lists`repr, scheduler.heap.lists`numberOfItems
      modifies scheduler.heap.lists`index, scheduler.heap.items`container, scheduler.heap.items`next
      modifies scheduler.heap.items`previous, scheduler.heap.ends`next, scheduler.heap.ends`previous
      ensures scheduler.Valid() && scheduler.ReadyAgrees() && Blocked() && PendingPlaced() && Logged()
      ensures old(scheduler.Lists().Closed()) && scheduler.Lists().Closed()
      ensures scheduler.Line() == old(scheduler.Line())
      ensures pendingReady.ring.items == old(pendingReady.ring.items) + [task.eventItem]
      ensures IndexOf(old(eventList.ring.items), task.eventItem) == 0
      ensures eventList.ring == old(eventList.ring).Remove(0)
      ensures forall l :: l in scheduler.heap.lists && l != eventList && l != pendingReady ==> l.ring == old(l.ring)
      ensures old(scheduler.heap.Image().Valid() && Permitted(scheduler.heap.Image(), Take(task.eventItem)))
      ensures taken == old(Effect(scheduler.heap.Image(), Take(task.eventItem)))
      ensures taken.rings.Keys == scheduler.heap.lists && taken.values.Keys == scheduler.heap.items
      ensures forall l :: l in scheduler.heap.lists && l != pendingReady ==> l.ring == taken.rings[l]
      ensures forall y :: y in scheduler.heap.items ==> y.value == taken.values[y]
    {
      hide *;
      SteadyParts();
      LogParts();
      PendingParts();
      HeadOfEventList(eventList);
      ContainersAre();
      IsOfTask(task.eventItem);
      ghost var was, c, r := Containers(), scheduler.Line(), pendingReady.ring;
      scheduler.LeaveList(task.eventItem);
      taken := scheduler.heap.Image();
      scheduler.heap.ImageParts();
      scheduler.EnterList(pendingReady, task.eventItem);
      PendingGrown(r, task.eventItem);
      PutOff(task, was);
      scheduler.CountStarts();
      LogKept(c);
    }

    method PutOffFirst(eventList: List, task: Task)
      requires Steady() && IsEventList(eventList) && eventList.ring.items != [] && schedulerSuspended > 0
      requires task in scheduler.tasks && task.eventItem == eventList.ring.items[0]
      modifies scheduler.heap.lists`ring, scheduler.heap.lists`repr, scheduler.heap.lists`numberOfItems
      modifies scheduler.heap.lists`index, scheduler.heap.items`container, scheduler.heap.items`next
      modifies scheduler.heap.items`previous, scheduler.heap.ends`next, scheduler.heap.ends`previous
      ensures Steady() && old(scheduler.Lists().Closed()) && scheduler.Lists().Closed()
      ensures scheduler.Line() == old(scheduler.Line())
      ensures pendingReady.ring.items == old(pendingReady.ring.items) + [task.eventItem]
      ensures IndexOf(old(eventList.ring.items), task.eventItem) == 0
      ensures eventList.ring == old(eventList.ring).Remove(0)
      ensures forall l :: l in scheduler.heap.lists && l != eventList && l != pendingReady ==> l.ring == old(l.ring)
    {
      hide *;
      SteadyParts();
      OrderParts();
      PendingParts();
      ghost var t, u := scheduler.heap.Image(), scheduler.heap.Image();
      u := PutOffLists(eventList, task);
      scheduler.CountStarts();
      scheduler.PlacedParts();
      PutOffOrder(t, u, task);
      SteadyIs();
    }

    /** The first task of the event list is made ready. */
    method MoveFirst(task: Task)
      requires Steady() && InEventList(task) && pendingReady.ring.items == []
      modifies this`history, this`turns, scheduler`readyPriorities
      modifies scheduler.heap.lists`ring, scheduler.heap.lists`repr, scheduler.heap.lists`numberOfItems
      modifies scheduler.heap.lists`index, scheduler.heap.items`container, scheduler.heap.items`next
      modifies scheduler.heap.items`previous, scheduler.heap.ends`next, scheduler.heap.ends`previous
      ensures Steady() && pendingReady.ring.items == []
      ensures old(scheduler.Lists().Closed()) && scheduler.Lists().Closed()
      ensures scheduler.Line() == old(scheduler.Line()).Leave(task.stateItem)
      ensures task.priority < |scheduler.ready| == |old(turns)| && turns == Joined(old(turns), task)
      ensures scheduler.heap.Image() == Moving(old(scheduler.heap.Image()), task)
      ensures MoveRuns(old(scheduler.heap.Image()), task)
      ensures history == old(history) + LeaveEvents(old(scheduler.Line()), task.stateItem)
    {
      hide *;
      SteadyParts();
      OrderParts();
      PendingParts();
      MovingParts(task);
      ghost var t := scheduler.heap.Image();
      NoneGone(task.eventItem);
      Move(task);
      MovedPending(t, task);
      PendingIs();
      PendingStill();
      SteadyIs();
    }

    static lemma NoneGone(x: ListItem)
      ensures Minus([], x) == []
    {
    }

    lemma HeadIsHighest(l: List)
      requires Steady() && l in order.events && l.ring.items != []
      ensures forall t :: t in scheduler.tasks && t.eventItem == l.ring.items[0] ==>
                forall u :: u in scheduler.tasks && u.eventItem in l.ring.items ==> u.priority <= t.priority
    {
      scheduler.heap.ImageParts();
      forall t | t in scheduler.tasks && t.eventItem == l.ring.items[0]
        ensures forall u :: u in scheduler.tasks && u.eventItem in l.ring.items ==> u.priority <= t.priority
      {
        FirstIsHighest(scheduler, order, scheduler.heap.Image(), l, t);
      }
    }

    /** An event has come: the first task of its list becomes ready, or will when the scheduler is resumed. */
    method RemoveFromEventList(eventList: List) returns (higher: bool, ghost task: Task)
      requires Valid() && eventList in order.events && eventList.ring.items != []
      modifies this`yieldPending, this`history, this`turns, scheduler`readyPriorities
      modifies scheduler.heap.lists`ring, scheduler.heap.lists`repr, scheduler.heap.lists`numberOfItems
      modifies scheduler.heap.lists`index, scheduler.heap.items`container, scheduler.heap.items`next
      modifies scheduler.heap.items`previous, scheduler.heap.ends`next, scheduler.heap.ends`previous
      ensures Valid() && old(scheduler.Lists().Closed()) && scheduler.Lists().Closed()
      ensures task in scheduler.tasks && task.eventItem == old(eventList.ring.items[0])
      ensures task.priority < |scheduler.ready|
      ensures if schedulerSuspended == 0 then
                && scheduler.Line() == old(scheduler.Line()).Leave(task.stateItem)
                && scheduler.heap.Image() == Moving(old(scheduler.heap.Image()), task)
                && MoveRuns(old(scheduler.heap.Image()), task)
                && pendingReady.ring.items == [] && task.priority < |old(turns)| && turns == Joined(old(turns), task)
                && history == old(history) + LeaveEvents(old(scheduler.Line()), task.stateItem)
              else
                && scheduler.Line() == old(scheduler.Line()) && history == old(history)
                && eventList.ring == old(eventList.ring).Remove(0)
                && pendingReady.ring.items == old(pendingReady.ring.items) + [task.eventItem] && turns == old(turns)
                && forall l :: l in scheduler.heap.lists && l != eventList && l != pendingReady ==> l.ring == old(l.ring)
      ensures higher <==> task.priority > scheduler.current.priority
      ensures yieldPending == (old(yieldPending) || higher)
      ensures forall u :: u in scheduler.tasks && u.eventItem in old(eventList.ring.items) ==> u.priority <= task.priority
    {
      hide *;
      ValidParts();
      EventListIs(eventList);
      HeadOfEventList(eventList);
      HeadIsHighest(eventList);
      var first := eventList.end.next.owner as Task;
      task := first;
      if schedulerSuspended == 0 {
        MoveFirst(first);
        StillValid();
      } else {
        PutOffFirst(eventList, first);
        StillValid();
      }
      higher := first.priority > scheduler.current.priority;
      if higher {
        yieldPending := true;
      }
    }

    // ---------- The running task ----------

    lemma SleepIsNext(c: Clock<ListItem>, x: ListItem, ticks: nat)
      requires ticks > 0
      ensures Possible(c, SleepEvent(x, ticks)) && Next(c, SleepEvent(x, ticks)) == c.Sleep(x, ticks)
    {
    }

    /** The current task is in its ready list: it has not blocked since it was chosen. */
    ghost predicate Running()
      reads scheduler`current, scheduler.current.stateItem`container
    {
      && scheduler.current.priority < |scheduler.ready|
      && scheduler.current.stateItem.container == scheduler.ready[scheduler.current.priority]
    }

    /** The idle task never blocks. */
    ghost predicate MayBlock()
      reads scheduler`current, scheduler.current.stateItem`container
    {
      Running() && scheduler.current != order.idle
    }

    lemma MayBlockParts()
      requires MayBlock()
      ensures Running() && scheduler.current != order.idle
    {
    }

    /** Only the task's ready list has changed, by losing it, and the list the task is in now. */
    ghost predicate LeftReady(task: Task, was: map<List, Ring<ListItem>>, now: map<List, Ring<ListItem>>) {
      var x, p := task.stateItem, task.priority;
      && p < |scheduler.ready| && now.Keys == was.Keys && scheduler.ready[p] in was
      && var l := scheduler.ready[p];
      && x in was[l].items && now[l] == was[l].Remove(IndexOf(was[l].items, x))
      && forall m :: m in was && m != l ==>
           if x in now[m].items then Minus(now[m].items, x) == was[m].items else now[m] == was[m]
    }

    lemma RingsAre()
      ensures scheduler.heap.Rings().Keys == scheduler.heap.lists
      ensures forall l :: l in scheduler.heap.lists ==> scheduler.heap.Rings()[l] == l.ring
      ensures scheduler.heap.Rings() == scheduler.heap.Image().rings
    {
    }

    lemma LeftReadyIs(was: map<List, Ring<ListItem>>)
      requires scheduler.heap.Valid() && scheduler.current.stateItem in scheduler.heap.items
      requires var x, l := scheduler.current.stateItem, scheduler.current.stateItem.container;
               l != null && (l in was ==> Minus(l.ring.items, x) == was[l].items)
      requires var x, p := scheduler.current.stateItem, scheduler.current.priority;
               && p < |scheduler.ready| && was.Keys == scheduler.heap.lists && scheduler.ready[p] in was
               && x in was[scheduler.ready[p]].items
               && scheduler.ready[p].ring == was[scheduler.ready[p]].Remove(IndexOf(was[scheduler.ready[p]].items, x))
               && forall l :: l in scheduler.heap.lists && l != scheduler.ready[p] && l != x.container ==> l.ring == was[l]
      ensures LeftReady(scheduler.current, was, scheduler.heap.Rings())
    {
      var x := scheduler.current.stateItem;
      forall m | m in scheduler.heap.lists ensures x in m.ring.items <==> x.container == m {
        KH.ContainerIsMembership(scheduler.heap, m, x);
      }
    }

    lemma ElsewhereSame(was: map<List, Ring<ListItem>>, l: List)
      requires LeftReady(scheduler.current, was, scheduler.heap.Rings()) && Steady()
      requires l in scheduler.heap.lists && l !in scheduler.ready && l != scheduler.current.stateItem.container
      requires scheduler.current.stateItem in scheduler.heap.items
      ensures l in was && l.ring == was[l]
    {
      KH.ContainerIsMembership(scheduler.heap, l, scheduler.current.stateItem);
    }

    /** What holds while the running task is on its way into an event list. */
    ghost predicate SteadyBut(task: Task)
      reads this`history, this`turns, scheduler, scheduler.delayed, scheduler.overflow, pendingReady`ring
      reads scheduler.heap.lists, scheduler.heap.items, scheduler.heap.ends
    {
      && scheduler.Valid() && scheduler.ReadyAgrees() && PendingPlaced() && Logged() && InOrder()
      && forall u :: u in scheduler.tasks && u != task
                     && u.eventItem in scheduler.heap.items && u.stateItem in scheduler.heap.items ==>
           (u.eventItem.container != null ==> u.stateItem.container != null && u.stateItem.container !in scheduler.ready)
    }

    /** The state item of a running task has moved to a list of waiting tasks. */
    lemma StillBlocked(task: Task, was: map<ListItem, KH.KL.List?>)
      requires KT.TasksPlaced(scheduler.tasks, scheduler.heap, |scheduler.ready|) && task in scheduler.tasks
      requires was.Keys == scheduler.heap.items
      requires forall u :: u in scheduler.tasks && u != task ==>
                 (was[u.eventItem] != null ==> was[u.stateItem] != null && was[u.stateItem] !in scheduler.ready)
      requires forall y :: y in scheduler.heap.items && y != task.stateItem ==> y.container == was[y]
      requires task.stateItem.container != null && task.stateItem.container !in scheduler.ready
      ensures Blocked()
    {
    }

    lemma SteadyButParts()
      requires SteadyBut(scheduler.current) && Running()
      ensures scheduler.Valid() && scheduler.ReadyAgrees() && PendingPlaced() && Logged() && InOrder()
      ensures scheduler.Lists().Closed()
      ensures scheduler.delayed !in scheduler.ready && scheduler.overflow !in scheduler.ready
      ensures scheduler.suspended !in scheduler.ready && scheduler.current in scheduler.tasks
      ensures scheduler.current.priority < |scheduler.ready|
      ensures scheduler.current.stateItem.container == scheduler.ready[scheduler.current.priority]
      ensures scheduler.ready[scheduler.current.priority] in scheduler.heap.lists
      ensures scheduler.current.stateItem in scheduler.heap.items
      ensures KT.TasksPlaced(scheduler.tasks, scheduler.heap, |scheduler.ready|)
      ensures var was := Containers();
              && was.Keys == scheduler.heap.items && (forall x :: x in was ==> was[x] == x.container)
              && (forall u :: u in scheduler.tasks ==> u.eventItem in was && u.stateItem in was)
              && (forall u :: u in scheduler.tasks && u != scheduler.current ==>
                    (was[u.eventItem] != null ==> was[u.stateItem] != null && was[u.stateItem] !in scheduler.ready))
    {
    }

    lemma SteadyAllBut(task: Task)
      requires Steady()
      ensures SteadyBut(task)
    {
    }

    method BlockItem(ticksToWait: Tick, canBlockIndefinitely: bool)
      requires SteadyBut(scheduler.current) && ticksToWait > 0 && Running()
      modifies scheduler`nextTaskUnblockTime, scheduler`readyPriorities
      modifies scheduler.current`delayAborted, {scheduler.current.stateItem}`value
      modifies scheduler.heap.lists`ring, scheduler.heap.lists`repr, scheduler.heap.lists`numberOfItems
      modifies scheduler.heap.lists`index, scheduler.heap.items`container, scheduler.heap.items`next
      modifies scheduler.heap.items`previous, scheduler.heap.ends`next, scheduler.heap.ends`previous
      ensures scheduler.Valid() && scheduler.ReadyAgrees() && Blocked() && PendingPlaced()
      ensures pendingReady.ring == old(pendingReady.ring)
      ensures !scheduler.current.delayAborted
      ensures old(scheduler.Lists().Closed()) && scheduler.Lists().Closed()
      ensures var x := scheduler.current.stateItem;
              if ticksToWait == MAX_DELAY && canBlockIndefinitely then
                scheduler.Line() == old(scheduler.Line()) && x.container == scheduler.suspended
              else scheduler.Line() == old(scheduler.Line()).Sleep(x, ticksToWait)
      ensures scheduler.current.stateItem.container in {scheduler.delayed, scheduler.overflow, scheduler.suspended}
      ensures LeftReady(scheduler.current, old(scheduler.heap.Rings()), scheduler.heap.Rings())
    {
      hide *;
      SteadyButParts();
      PendingParts();
      RingsAre();
      ghost var was := Containers();
      scheduler.AddCurrentTaskToDelayedList(ticksToWait, canBlockIndefinitely);
      StillBlocked(scheduler.current, was);
      scheduler.CountStarts();
      scheduler.PlacedParts();
      PendingStill();
      LeftReadyIs(old(scheduler.heap.Rings()));
    }

    /** The running task has left its ready list, and everything is still in order. */
    lemma BlockOrder(t: Image, log: Turns)
      requires Orderly(scheduler, order, t, log) && scheduler.Valid() && scheduler.ReadyAgrees()
      requires t.rings.Keys == scheduler.heap.lists && t.values.Keys == scheduler.heap.items
      requires LeftReady(scheduler.current, t.rings, scheduler.heap.Rings()) && scheduler.current.priority < |log|
      requires turns == Turn(log, scheduler.current.priority, Removed(scheduler.current.stateItem))
      requires scheduler.current.stateItem.container in {scheduler.delayed, scheduler.overflow, scheduler.suspended}
      requires forall y :: y in scheduler.heap.items && y != scheduler.current.stateItem ==> y.value == t.values[y]
      requires scheduler.current != order.idle
      requires pendingReady !in order.events && scheduler.delayed !in order.events && scheduler.overflow !in order.events
      ensures InOrder()
    {
      hide *;
      scheduler.CountStarts();
      scheduler.PlacedParts();
      ReadyApart();
      LeftReadyParts(t.rings);
      var x, p, u := scheduler.current.stateItem, scheduler.current.priority, scheduler.heap.Image();
      OrderlyParts(scheduler, order, t, log);
      EventsListed(scheduler, order, t, log);
      WaitingListsNoEvents(t, log);
      scheduler.heap.ImageValid();
      scheduler.heap.ImageParts();
      RingValid(t, scheduler.ready[p]);
      forall l | l in scheduler.heap.lists && l != scheduler.ready[p] && (l in scheduler.ready || l in order.events)
        ensures u.rings[l] == t.rings[l]
      {
        KH.ContainerIsMembership(scheduler.heap, l, x);
      }
      IdleIsNot(t, log, scheduler.current);
      RemovedStep(t.rings[scheduler.ready[p]], x);
      OrderlyStep(scheduler, order, t, u, log, p, Removed(x));
      SortOrder();
    }

    lemma LeftReadyParts(was: map<List, Ring<ListItem>>)
      requires LeftReady(scheduler.current, was, scheduler.heap.Rings()) && was.Keys == scheduler.heap.lists && scheduler.Placed()
      ensures var x, p := scheduler.current.stateItem, scheduler.current.priority;
              && x in scheduler.heap.items && p < |scheduler.ready| && scheduler.ready[p] in was
              && x in was[scheduler.ready[p]].items && scheduler.ready[p] in scheduler.heap.lists
              && scheduler.ready[p].ring == was[scheduler.ready[p]].Remove(IndexOf(was[scheduler.ready[p]].items, x))
              && forall l :: l in was && l != scheduler.ready[p] && x !in l.ring.items ==> l.ring == was[l]
      ensures forall p :: 0 <= p < |scheduler.ready| ==> scheduler.ready[p] in scheduler.heap.lists
      ensures scheduler.heap.Valid() && forall t :: t in scheduler.tasks ==> t.eventItem in scheduler.heap.items
      ensures forall t :: t in scheduler.tasks ==> t.eventItem != scheduler.current.stateItem
    {
    }

    static lemma RemovedStep(r: Ring<ListItem>, x: ListItem)
      requires r.Valid() && x in r.items
      ensures r.cursor <= |r.items| && Allowed(r, Removed(x)) && Removed(x).Removed? && Removed(x).x == x
      ensures Apply(r, Removed(x)) == r.Remove(IndexOf(r.items, x))
    {
    }

    lemma WaitingListsNoEvents(t: Image, log: Turns)
      requires Orderly(scheduler, order, t, log)
      ensures scheduler.suspended !in order.events
    {
    }

    lemma IdleIsNot(t: Image, log: Turns, task: Task)
      requires Orderly(scheduler, order, t, log) && task in scheduler.tasks && task != order.idle
      requires KT.TasksPlaced(scheduler.tasks, scheduler.heap, |scheduler.ready|)
      ensures task.stateItem != order.idle.stateItem
    {
    }

    method BlockInOrder(ticksToWait: Tick, canBlockIndefinitely: bool)
      requires SteadyBut(scheduler.current) && ticksToWait > 0 && Running() && scheduler.current != order.idle
      modifies this`turns, scheduler`nextTaskUnblockTime, scheduler`readyPriorities
      modifies scheduler.current`delayAborted, {scheduler.current.stateItem}`value
      modifies scheduler.heap.lists`ring, scheduler.heap.lists`repr, scheduler.heap.lists`numberOfItems
      modifies scheduler.heap.lists`index, scheduler.heap.items`container, scheduler.heap.items`next
      modifies scheduler.heap.items`previous, scheduler.heap.ends`next, scheduler.heap.ends`previous
      ensures scheduler.Valid() && scheduler.ReadyAgrees() && Blocked() && PendingPlaced() && InOrder()
      ensures scheduler.current.priority < |old(turns)|
      ensures turns == Turn(old(turns), scheduler.current.priority, Removed(scheduler.current.stateItem))
      ensures !scheduler.current.delayAborted
      ensures pendingReady.ring == old(pendingReady.ring)
      ensures old(scheduler.Lists().Closed()) && scheduler.Lists().Closed()
      ensures var x := scheduler.current.stateItem;
              if ticksToWait == MAX_DELAY && canBlockIndefinitely then
                scheduler.Line() == old(scheduler.Line()) && x.container == scheduler.suspended
              else scheduler.Line() == old(scheduler.Line()).Sleep(x, ticksToWait)
      ensures scheduler.current.stateItem.container in {scheduler.delayed, scheduler.overflow, scheduler.suspended}
      ensures LeftReady(scheduler.current, old(scheduler.heap.Rings()), scheduler.heap.Rings())
    {
      hide *;
      SteadyButParts();
      OrderParts();
      scheduler.heap.ImageParts();
      ghost var t, log, x, p := scheduler.heap.Image(), turns, scheduler.current.stateItem, scheduler.current.priority;
      BlockItem(ticksToWait, canBlockIndefinitely);
      turns := Turn(turns, p, Removed(x));
      BlockOrder(t, log);
    }

    lemma ReadyApart()
      requires scheduler.Valid() && scheduler.ReadyAgrees()
      ensures scheduler.delayed !in scheduler.ready && scheduler.overflow !in scheduler.ready
      ensures scheduler.suspended !in scheduler.ready
      ensures forall i, j :: 0 <= i < j < |scheduler.ready| ==> scheduler.ready[i] != scheduler.ready[j]
    {
    }

    method BlockCurrent(ticksToWait: Tick, canBlockIndefinitely: bool)
      requires SteadyBut(scheduler.current) && ticksToWait > 0 && Running() && scheduler.current != order.idle
      modifies this`history, this`turns, scheduler`nextTaskUnblockTime, scheduler`readyPriorities
      modifies scheduler.current`delayAborted, {scheduler.current.stateItem}`value
      modifies scheduler.heap.lists`ring, scheduler.heap.lists`repr, scheduler.heap.lists`numberOfItems
      modifies scheduler.heap.lists`index, scheduler.heap.items`container, scheduler.heap.items`next
      modifies scheduler.heap.items`previous, scheduler.heap.ends`next, scheduler.heap.ends`previous
      ensures Steady()
      ensures scheduler.current.priority < |old(turns)|
      ensures turns == Turn(old(turns), scheduler.current.priority, Removed(scheduler.current.stateItem))
      ensures !scheduler.current.delayAborted
      ensures history == old(history) + if ticksToWait == MAX_DELAY && canBlockIndefinitely then []
                                        else [SleepEvent(scheduler.current.stateItem, ticksToWait)]
      ensures pendingReady.ring == old(pendingReady.ring)
      ensures old(scheduler.Lists().Closed()) && scheduler.Lists().Closed()
      ensures var x := scheduler.current.stateItem;
              if ticksToWait == MAX_DELAY && canBlockIndefinitely then
                scheduler.Line() == old(scheduler.Line()) && x.container == scheduler.suspended
              else scheduler.Line() == old(scheduler.Line()).Sleep(x, ticksToWait)
      ensures scheduler.current.stateItem.container in {scheduler.delayed, scheduler.overflow, scheduler.suspended}
      ensures LeftReady(scheduler.current, old(scheduler.heap.Rings()), scheduler.heap.Rings())
    {
      hide *;
      SteadyButParts();
      LogParts();
      ghost var c, events, x := scheduler.Line(), history, scheduler.current.stateItem;
      BlockInOrder(ticksToWait, canBlockIndefinitely);
      if ticksToWait == MAX_DELAY && canBlockIndefinitely {
        LogKept(c);
      } else {
        SleepIsNext(c, x, ticksToWait);
        history := history + [SleepEvent(x, ticksToWait)];
        LogAppended(c, SleepEvent(x, ticksToWait), events);
      }
      SteadyIs();
    }

    /** The running task blocks for so many ticks, or for ever. */
    method AddCurrentTaskToDelayedList(ticksToWait: Tick, canBlockIndefinitely: bool)
      requires Steady() && ticksToWait > 0
      requires MayBlock()
      modifies this`history, this`turns, scheduler`nextTaskUnblockTime, scheduler`readyPriorities
      modifies scheduler.current`delayAborted, {scheduler.current.stateItem}`value
      modifies scheduler.heap.lists`ring, scheduler.heap.lists`repr, scheduler.heap.lists`numberOfItems
      modifies scheduler.heap.lists`index, scheduler.heap.items`container, scheduler.heap.items`next
      modifies scheduler.heap.items`previous, scheduler.heap.ends`next, scheduler.heap.ends`previous
      ensures Steady() && old(scheduler.Lists().Closed()) && scheduler.Lists().Closed()
      ensures pendingReady.ring == old(pendingReady.ring)
      ensures var x := scheduler.current.stateItem;
              if ticksToWait == MAX_DELAY && canBlockIndefinitely then
                scheduler.Line() == old(scheduler.Line()) && x.container == scheduler.suspended
              else scheduler.Line() == old(scheduler.Line()).Sleep(x, ticksToWait)
      ensures scheduler.current.stateItem.container in {scheduler.delayed, scheduler.overflow, scheduler.suspended}
      ensures scheduler.current.priority < |old(turns)|
      ensures turns == Turn(old(turns), scheduler.current.priority, Removed(scheduler.current.stateItem))
      ensures !scheduler.current.delayAborted
      ensures history == old(history) + if ticksToWait == MAX_DELAY && canBlockIndefinitely then []
                                        else [SleepEvent(scheduler.current.stateItem, ticksToWait)]
      ensures LeftReady(scheduler.current, old(scheduler.heap.Rings()), scheduler.heap.Rings())
    {
      hide *;
      SteadyAllBut(scheduler.current);
      MayBlockParts();
      BlockCurrent(ticksToWait, canBlockIndefinitely);
    }

    lemma CurrentPlaced()
      requires Steady() && Running()
      ensures var t := scheduler.current;
              && t in scheduler.tasks && t.stateItem in scheduler.heap.items && t.eventItem in scheduler.heap.items
              && t.stateItem != t.eventItem && t.eventItem.container == null
    {
    }

    lemma StateItemPlaced()
      requires SteadyBut(scheduler.current)
      ensures scheduler.current.stateItem in scheduler.heap.items
    {
    }

    lemma EventListParts(l: List)
      requires IsEventList(l)
      ensures l in scheduler.heap.lists && l !in scheduler.ready && l != scheduler.delayed && l != scheduler.overflow
      ensures l != scheduler.suspended && l != pendingReady && l in order.events
    {
    }

    /** The running task's event item has been put into an event list. */
    lemma SteadyButOne(task: Task, was: map<ListItem, KH.KL.List?>)
      requires KT.TasksPlaced(scheduler.tasks, scheduler.heap, |scheduler.ready|) && task in scheduler.tasks
      requires scheduler.Valid() && scheduler.ReadyAgrees() && PendingPlaced() && Logged() && InOrder()
      requires was.Keys == scheduler.heap.items
      requires forall u :: u in scheduler.tasks ==>
                 (was[u.eventItem] != null ==> was[u.stateItem] != null && was[u.stateItem] !in scheduler.ready)
      requires forall y :: y in scheduler.heap.items && y != task.eventItem ==> y.container == was[y]
      ensures SteadyBut(task)
    {
    }

    lemma SortOrder()
      requires Orderly(scheduler, order, scheduler.heap.Image(), turns)
      requires pendingReady !in order.events && scheduler.delayed !in order.events && scheduler.overflow !in order.events
      ensures InOrder()
    {
    }

    /** The lists with the event item of a task put into an event list, at its place by value. */
    ghost function EventEntered(t: Image, task: Task, l: List): Image {
      if t.Valid() && Permitted(t, Sort(l, task.eventItem)) then Effect(t, Sort(l, task.eventItem)) else t
    }

    lemma EventEnters(t: Image, task: Task, l: List)
      requires t.Valid() && Permitted(t, Sort(l, task.eventItem))
      ensures EventEntered(t, task, l) == Effect(t, Sort(l, task.eventItem))
    {
    }

    /** Put the running task into an event list, by the value of its event item. */
    method EnterEventList(eventList: List)
      requires Steady() && IsEventList(eventList) && Running()
      modifies scheduler.heap.lists`ring, scheduler.heap.lists`repr, scheduler.heap.lists`numberOfItems
      modifies scheduler.heap.lists`index, scheduler.heap.items`container, scheduler.heap.items`next
      modifies scheduler.heap.items`previous, scheduler.heap.ends`next, scheduler.heap.ends`previous
      ensures SteadyBut(scheduler.current) && Running() && pendingReady.ring == old(pendingReady.ring)
      ensures scheduler.heap.Image() == old(EventEntered(scheduler.heap.Image(), scheduler.current, eventList))
      ensures old(scheduler.Lists().Closed()) && scheduler.Lists().Closed()
      ensures scheduler.Line() == old(scheduler.Line())
      ensures var x := scheduler.current.eventItem;
              && x.container == eventList
              && eventList.ring == old(eventList.ring.Insert(InsertPosition(KH.KL.Values(eventList.ring.items), x.value), x))
    {
      hide *;
      SteadyParts();
      LogParts();
      PendingParts();
      ContainersAre();
      CurrentPlaced();
      EventListParts(eventList);
      OrderParts();
      ghost var was, c, t := Containers(), scheduler.Line(), scheduler.heap.Image();
      scheduler.SortInto(eventList, scheduler.current.eventItem);
      scheduler.CountStarts();
      PendingStill();
      LogKept(c);
      EventEnters(t, scheduler.current, eventList);
      OrderlySort(scheduler, order, t, turns, eventList, scheduler.current);
      SortOrder();
      SteadyButOne(scheduler.current, was);
      assert Running();
    }

    /** Position k is behind all tasks of the task's own or a higher priority, and before all of a lower one. */
    ghost predicate IsPlaceOf(task: Task, items: seq<ListItem>, k: nat) {
      forall u, i :: u in scheduler.tasks && 0 <= i < |items| && items[i] == u.eventItem ==>
        (i < k <==> u.priority >= task.priority)
    }

    lemma HasPlace(l: List, task: Task)
      requires Steady() && l in order.events && task in scheduler.tasks
      ensures IsPlaceOf(task, l.ring.items, InsertPosition(KH.KL.Values(l.ring.items), task.eventItem.value))
    {
      OrderParts();
      var t := scheduler.heap.Image();
      EventsListed(scheduler, order, t, turns);
      scheduler.heap.ImageValid();
      scheduler.heap.ImageParts();
      assert KH.KL.Values(l.ring.items) == t.ValuesOf(l);
      EntersByPriority(scheduler, order, t, l, task);
    }

    /** The running task waits for an event, for so many ticks at most, or without an end: behind the waiting tasks of its
        own or a higher priority, and before those of a lower one. */
    method PlaceOnEventList(eventList: List, ticksToWait: Tick)
      requires Valid() && eventList in order.events && MayBlock() && ticksToWait > 0
      modifies this`history, this`turns, scheduler`nextTaskUnblockTime, scheduler`readyPriorities
      modifies scheduler.current`delayAborted, {scheduler.current.stateItem}`value
      modifies scheduler.heap.lists`ring, scheduler.heap.lists`repr, scheduler.heap.lists`numberOfItems
      modifies scheduler.heap.lists`index, scheduler.heap.items`container, scheduler.heap.items`next
      modifies scheduler.heap.items`previous, scheduler.heap.ends`next, scheduler.heap.ends`previous
      ensures Valid() && old(scheduler.Lists().Closed()) && scheduler.Lists().Closed()
      ensures var x := scheduler.current.eventItem;
              eventList.ring == old(eventList.ring.Insert(InsertPosition(KH.KL.Values(eventList.ring.items), x.value), x))
      ensures var x := scheduler.current.eventItem;
              IsPlaceOf(scheduler.current, old(eventList.ring.items),
                        old(InsertPosition(KH.KL.Values(eventList.ring.items), x.value)))
      ensures var x := scheduler.current.stateItem;
              if ticksToWait == MAX_DELAY then
                scheduler.Line() == old(scheduler.Line()) && x.container == scheduler.suspended
              else scheduler.Line() == old(scheduler.Line()).Sleep(x, ticksToWait)
      ensures scheduler.current.priority < |old(turns)|
      ensures turns == Turn(old(turns), scheduler.current.priority, Removed(scheduler.current.stateItem))
      ensures !scheduler.current.delayAborted
      ensures history == old(history) + if ticksToWait == MAX_DELAY then []
                                        else [SleepEvent(scheduler.current.stateItem, ticksToWait)]
      ensures LeftReady(scheduler.current, old(EventEntered(scheduler.heap.Image(), scheduler.current, eventList)).rings,
                        scheduler.heap.Rings())
    {
      hide *;
      ValidParts();
      MayBlockParts();
      EventListIs(eventList);
      EventListParts(eventList);
      CurrentPlaced();
      HasPlace(eventList, scheduler.current);
      EnterEventList(eventList);
      ghost var rings := scheduler.heap.Rings();
      RingsAre();
      StateItemPlaced();
      BlockCurrent(ticksToWait, true);
      ElsewhereSame(rings, eventList);
      StillValid();
    }

    lemma StillValid()
      requires Steady() && (schedulerSuspended == 0 ==> pendingReady.ring.items == [] && pendedTicks == 0)
      ensures Valid()
    {
    }

    lemma NowShown()
      requires scheduler.Lists().Closed()
      ensures Shown(scheduler.Line().now) == scheduler.tickCount
      ensures scheduler.Line().now == scheduler.numOfOverflows * WRAP + scheduler.tickCount
    {
      CounterShows(scheduler.numOfOverflows, scheduler.tickCount);
    }

    method SetTimeOutState(timeOut: TimeOut)
      requires scheduler.Lists().Closed()
      modifies timeOut
      ensures timeOut.Time() == scheduler.Line().now
    {
      timeOut.overflowCount, timeOut.timeOnEntering := scheduler.numOfOverflows, scheduler.tickCount;
    }

    /** Has the wait timed out, or been broken off? If not, the time-out is moved to now and the rest of the wait is returned: the deadline
        stays what it was. The answer is right unless the counter has gone once around in the meantime, shows less than
        on entering, and has since passed fewer ticks modulo its width than the wait. */
    method CheckForTimeOut(timeOut: TimeOut, ticksToWait: Tick) returns (timedOut: bool, ticksLeft: Tick)
      requires scheduler.Lists().Closed() && timeOut.Time() <= scheduler.Line().now
      modifies timeOut, scheduler.current`delayAborted
      ensures !scheduler.current.delayAborted
      ensures old(scheduler.current.delayAborted) ==>
                timedOut && ticksLeft == ticksToWait && timeOut.Time() == old(timeOut.Time())
      ensures !old(scheduler.current.delayAborted) && ticksToWait == MAX_DELAY ==>
                !timedOut && ticksLeft == ticksToWait && timeOut.Time() == old(timeOut.Time())
      ensures !old(scheduler.current.delayAborted) && ticksToWait != MAX_DELAY ==>
                var now, entered := scheduler.Line().now, old(timeOut.Time());
                var missed := now - entered >= WRAP && scheduler.tickCount < old(timeOut.timeOnEntering)
                              && (now - entered) % WRAP < ticksToWait;
                && (timedOut <==> now - entered >= ticksToWait && !missed)
                && (timedOut ==> ticksLeft == 0 && timeOut.Time() == entered)
                && (!timedOut ==> timeOut.Time() == now && ticksLeft > 0)
                && (!timedOut && !missed ==> timeOut.Time() + ticksLeft == entered + ticksToWait)
    {
      var overflows, tickCount := scheduler.numOfOverflows, scheduler.tickCount;
      var elapsedTime := Since(tickCount, timeOut.timeOnEntering);
      CheckIsRight(overflows, tickCount, timeOut.overflowCount, timeOut.timeOnEntering, ticksToWait);
      if scheduler.current.delayAborted {
        scheduler.current.delayAborted := false;
        timedOut, ticksLeft := true, ticksToWait;
      } else if ticksToWait == MAX_DELAY {
        timedOut, ticksLeft := false, ticksToWait;
      } else if overflows != timeOut.overflowCount && tickCount >= timeOut.timeOnEntering {
        timedOut, ticksLeft := true, 0;
      } else if elapsedTime < ticksToWait {
        ticksLeft := ticksToWait - elapsedTime;
        SetTimeOutState(timeOut);
        timedOut := false;
      } else {
        timedOut, ticksLeft := true, 0;
      }
    }

    lemma SwitchOrder(t: Image, log: Turns, p: nat)
      requires Orderly(scheduler, order, t, log) && scheduler.Valid() && scheduler.ReadyAgrees()
      requires t.rings.Keys == scheduler.heap.lists && t.values.Keys == scheduler.heap.items
      requires p < |scheduler.ready| == |log| && scheduler.ready[p] in t.rings
      requires t.rings[scheduler.ready[p]].cursor <= |t.rings[scheduler.ready[p]].items|
      requires scheduler.ready[p].ring == t.rings[scheduler.ready[p]].Next() && turns == Turn(log, p, GetNext)
      requires forall l :: l in scheduler.heap.lists && l != scheduler.ready[p] ==> l.ring == t.rings[l]
      requires forall y :: y in scheduler.heap.items ==> y.value == t.values[y]
      requires pendingReady !in order.events && scheduler.delayed !in order.events && scheduler.overflow !in order.events
      ensures InOrder()
    {
      hide Orderly, KT.Scheduler.Valid;
      scheduler.CountStarts();
      scheduler.PlacedParts();
      ReadyApart();
      OrderlyParts(scheduler, order, t, log);
      EventsListed(scheduler, order, t, log);
      scheduler.heap.ImageValid();
      scheduler.heap.ImageParts();
      OrderlyStep(scheduler, order, t, scheduler.heap.Image(), log, p, GetNext);
    }

    /** The idle task is ready, so somebody is. */
    lemma SomebodyReady()
      requires InOrder()
      ensures exists p :: 0 <= p < |scheduler.ready| && scheduler.ready[p].ring.items != []
    {
      scheduler.heap.ImageParts();
      assert scheduler.ready[0].ring.items != [];
    }

    /** Choose who runs next. */
    method SwitchLists()
      requires Steady()
      modifies scheduler`current, scheduler.heap.lists`index, scheduler.heap.lists`ring
      ensures scheduler.Valid() && scheduler.ReadyAgrees() && Blocked() && PendingPlaced() && Logged() && Running()
      ensures old(scheduler.Lists().Closed()) && scheduler.Lists().Closed()
      ensures scheduler.Line() == old(scheduler.Line()) && pendingReady.ring == old(pendingReady.ring)
      ensures var p := scheduler.current.priority;
              && p < |scheduler.ready| && (forall q :: p < q < |scheduler.ready| ==> scheduler.ready[q].ring.items == [])
              && var l := scheduler.ready[p];
              && old(l.ring.Valid()) && l.ring == old(l.ring).Next() && 0 < l.ring.cursor <= |l.ring.items|
              && scheduler.current.stateItem == l.ring.Current()
              && forall m :: m in scheduler.heap.lists && m != l ==> m.ring == old(m.ring)
    {
      hide *;
      SteadyParts();
      LogParts();
      PendingParts();
      SomebodyReady();
      ghost var c := scheduler.Line();
      scheduler.SelectHighestPriorityTask();
      scheduler.CountStarts();
      PendingStill();
      LogKept(c);
      RunningIs();
    }

    method Switch()
      requires Steady()
      modifies this`turns, scheduler`current, scheduler.heap.lists`index, scheduler.heap.lists`ring
      ensures Steady() && Running() && old(scheduler.Lists().Closed()) && scheduler.Lists().Closed()
      ensures scheduler.Line() == old(scheduler.Line()) && pendingReady.ring == old(pendingReady.ring)
      ensures var p := scheduler.current.priority;
              && p < |scheduler.ready| == |old(turns)|
              && (forall q :: p < q < |scheduler.ready| ==> scheduler.ready[q].ring.items == [])
              && turns == Turn(old(turns), p, GetNext)
              && var l := scheduler.ready[p];
              && old(l.ring.Valid()) && l.ring == old(l.ring).Next() && 0 < l.ring.cursor <= |l.ring.items|
              && scheduler.current.stateItem == l.ring.Current()
              && forall m :: m in scheduler.heap.lists && m != l ==> m.ring == old(m.ring)
    {
      hide *;
      SteadyParts();
      OrderParts();
      scheduler.heap.ImageParts();
      ghost var t, log := scheduler.heap.Image(), turns;
      SwitchLists();
      turns := Turn(turns, scheduler.current.priority, GetNext);
      CursorWithin(t.rings[scheduler.ready[scheduler.current.priority]]);
      SwitchOrder(t, log, scheduler.current.priority);
      SteadyIs();
    }

    /** Choose who runs next, or remember to do so if the scheduler is suspended. */
    method SwitchContext()
      requires Valid()
      modifies this`yieldPending, this`turns, scheduler`current, scheduler.heap.lists`index, scheduler.heap.lists`ring
      ensures Valid() && old(scheduler.Lists().Closed()) && scheduler.Lists().Closed()
      ensures scheduler.Line() == old(scheduler.Line()) && (yieldPending <==> schedulerSuspended > 0)
      ensures schedulerSuspended > 0 ==>
                && scheduler.current == old(scheduler.current) && turns == old(turns)
                && scheduler.heap.Image() == old(scheduler.heap.Image())
      ensures schedulerSuspended == 0 ==>
                var p := scheduler.current.priority;
                && Running() && p < |old(turns)| == |scheduler.ready|
                && (forall q :: p < q < |scheduler.ready| ==> scheduler.ready[q].ring.items == [])
                && turns == Turn(old(turns), p, GetNext)
                && var l := scheduler.ready[p];
                && old(l.ring.Valid()) && l.ring == old(l.ring).Next() && 0 < l.ring.cursor <= |l.ring.items|
                && scheduler.current.stateItem == l.ring.Current()
                && forall m :: m in scheduler.heap.lists && m != l ==> m.ring == old(m.ring)
    {
      hide *;
      ValidParts();
      if schedulerSuspended > 0 {
        yieldPending := true;
      } else {
        yieldPending := false;
        Switch();
        StillValid();
      }
    }

    lemma RunningIs()
      requires scheduler.current.priority < |scheduler.ready|
      requires scheduler.current.stateItem.container == scheduler.ready[scheduler.current.priority]
      ensures Running()
    {
    }
  }
}
