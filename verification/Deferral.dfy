/** Interrupts that come while the scheduler is suspended: ticks are counted, and those whose event comes are remembered. */
module Deferral {
  import opened RoundRobin
  import opened SortedInsertion
  import opened DelayedLists
  import opened TaskOrder
  import opened Interrupts
  import opened TaskControl
  import KT = KernelTime

  ghost function WaitingNow(k: Kernel): Waiting
    reads k.scheduler.heap.lists`ring
  {
    map l | l in k.order.events && l in k.scheduler.heap.lists :: l.ring.items
  }

  lemma WaitingRest(k: Kernel, w: Waiting, l: List)
    requires w.Keys == k.order.events <= k.scheduler.heap.lists && l in w && w[l] != [] && l.ring.items == w[l][1..]
    requires forall m :: m in k.order.events && m != l ==> m.ring.items == w[m]
    ensures Taken(w, EventInterrupt(l)) == [w[l][0]] && WaitingNow(k) == Left(w, EventInterrupt(l))
  {
  }

  lemma NobodyWaits(k: Kernel, l: List, pending: seq<ListItem>)
    requires l in k.order.events && l in WaitingNow(k) && l.ring.items == []
    ensures Taken(WaitingNow(k), EventInterrupt(l)) == [] && Left(WaitingNow(k), EventInterrupt(l)) == WaitingNow(k)
    ensures pending + [] == pending
  {
  }

  lemma EventListNow(k: Kernel, l: List)
    requires k.Steady() && l in k.order.events
    ensures l.numberOfItems == |l.ring.items| && l in WaitingNow(k) && WaitingNow(k)[l] == l.ring.items
    ensures WaitingNow(k).Keys == k.order.events <= k.scheduler.heap.lists
    ensures l.ring.items != [] ==> l.ring.Remove(0).items == l.ring.items[1..]
    ensures forall m :: m in k.order.events ==>
              m in k.scheduler.heap.lists && m != k.pendingReady && m in WaitingNow(k) && WaitingNow(k)[m] == m.ring.items
  {
    k.OrderParts();
    EventsListed(k.scheduler, k.order, k.scheduler.heap.Image(), k.turns);
    k.scheduler.heap.ImageParts();
  }

  /** What an interrupt does to the lists while the scheduler is suspended: the first one of the list becomes pending. */
  ghost function Served(k: Kernel, t: Image, interrupt: Interrupt): Image {
    match interrupt
    case TickInterrupt => t
    case EventInterrupt(l) =>
      if l !in t.rings || k.pendingReady !in t.rings || t.rings[l].items == [] then t
      else
        var r, q := t.rings[l], t.rings[k.pendingReady];
        t.Put(l, r.Remove(0)).Put(k.pendingReady, Ring(q.items + [r.items[0]], q.cursor))
  }

  ghost function AllServed(k: Kernel, t: Image, interrupts: seq<Interrupt>): Image {
    if interrupts == [] then t else
      var n := |interrupts| - 1;
      Served(k, AllServed(k, t, interrupts[..n]), interrupts[n])
  }

  lemma OneMoreServed(k: Kernel, t: Image, interrupts: seq<Interrupt>, n: nat)
    requires n < |interrupts|
    ensures AllServed(k, t, interrupts[..n + 1]) == Served(k, AllServed(k, t, interrupts[..n]), interrupts[n])
  {
    assert interrupts[..n + 1][..n] == interrupts[..n];
  }

  lemma NobodyServed(k: Kernel, t: Image)
    ensures AllServed(k, t, []) == t
  {
  }

  lemma ServedIs(k: Kernel, t: Image, l: List)
    requires k.Steady() && t.rings.Keys == k.scheduler.heap.lists && t.values == k.scheduler.heap.Values()
    requires l in t.rings && l != k.pendingReady && t.rings[l].items != [] && l.ring == t.rings[l].Remove(0)
    requires k.pendingReady in t.rings && t.rings[k.pendingReady].cursor == 0
    requires k.pendingReady.ring.items == t.rings[k.pendingReady].items + [t.rings[l].items[0]]
    requires forall m :: m in t.rings && m != l && m != k.pendingReady ==> m.ring == t.rings[m]
    ensures k.scheduler.heap.Image() == Served(k, t, EventInterrupt(l))
  {
    hide KT.Scheduler.Valid, KT.Scheduler.ReadyAgrees, Kernel.InOrder, Kernel.Logged;
    var u := Served(k, t, EventInterrupt(l));
    k.scheduler.heap.ImageParts();
    assert k.scheduler.heap.Image().rings == u.rings;
  }

  lemma NothingServed(k: Kernel, t: Image, l: List)
    requires l in t.rings ==> t.rings[l].items == []
    ensures Served(k, t, EventInterrupt(l)) == t
  {
  }

  lemma ImageNow(k: Kernel)
    requires k.Steady()
    ensures var t := k.scheduler.heap.Image();
            && t.rings == k.scheduler.heap.Rings() && t.values == k.scheduler.heap.Values()
            && t.rings.Keys == k.scheduler.heap.lists && k.pendingReady in t.rings
            && t.rings[k.pendingReady] == k.pendingReady.ring && k.pendingReady.ring.cursor == 0
            && forall l :: l in t.rings ==> t.rings[l] == l.ring
  {
    k.SteadyParts();
    k.PendingParts();
    k.RingsAre();
    k.scheduler.heap.ImageParts();
  }

  /** An event, if anybody waits for it. */
  method ServeEvent(k: Kernel, eventList: List)
    requires k.Valid() && k.schedulerSuspended > 0 && eventList in k.order.events
    modifies k`yieldPending, k`history, k`turns, k.scheduler`readyPriorities
    modifies k.scheduler.heap.lists`ring, k.scheduler.heap.lists`repr, k.scheduler.heap.lists`numberOfItems
    modifies k.scheduler.heap.lists`index, k.scheduler.heap.items`container, k.scheduler.heap.items`next
    modifies k.scheduler.heap.items`previous, k.scheduler.heap.ends`next, k.scheduler.heap.ends`previous
    ensures k.Valid() && old(k.scheduler.Lists().Closed()) && k.scheduler.Lists().Closed()
    ensures k.scheduler.Line() == old(k.scheduler.Line()) && k.history == old(k.history) && k.turns == old(k.turns)
    ensures k.pendingReady.ring.items == old(k.pendingReady.ring.items + Taken(WaitingNow(k), EventInterrupt(eventList)))
    ensures WaitingNow(k) == old(Left(WaitingNow(k), EventInterrupt(eventList)))
    ensures k.scheduler.heap.Image() == old(Served(k, k.scheduler.heap.Image(), EventInterrupt(eventList)))
  {
    hide *;
    k.ValidParts();
    EventListNow(k, eventList);
    ImageNow(k);
    ghost var t := k.scheduler.heap.Image();
    if eventList.numberOfItems > 0 {
      ghost var w := WaitingNow(k);
      ghost var task;
      var higher;
      higher, task := k.RemoveFromEventList(eventList);
      WaitingRest(k, w, eventList);
      k.ValidParts();
      ServedIs(k, t, eventList);
    } else {
      NobodyWaits(k, eventList, k.pendingReady.ring.items);
      NothingServed(k, t, eventList);
    }
  }

  /** A tick that is put off. */
  method ServeTick(k: Kernel)
    requires k.Valid() && k.schedulerSuspended > 0
    modifies k`pendedTicks, k`history, k`turns
    modifies k.scheduler`tickCount, k.scheduler`delayed, k.scheduler`overflow
    modifies k.scheduler`numOfOverflows, k.scheduler`nextTaskUnblockTime, k.scheduler`readyPriorities
    modifies k.scheduler.heap.lists`ring, k.scheduler.heap.lists`repr, k.scheduler.heap.lists`numberOfItems
    modifies k.scheduler.heap.lists`index, k.scheduler.heap.items`container, k.scheduler.heap.items`next
    modifies k.scheduler.heap.items`previous, k.scheduler.heap.ends`next, k.scheduler.heap.ends`previous
    ensures k.Valid() && old(k.scheduler.Lists().Closed()) && k.scheduler.Lists().Closed()
    ensures k.scheduler.Line() == old(k.scheduler.Line()) && k.history == old(k.history) && k.turns == old(k.turns)
    ensures k.pendedTicks == Shown(old(k.pendedTicks) + 1) && k.pendingReady.ring == old(k.pendingReady.ring)
    ensures WaitingNow(k) == old(WaitingNow(k)) && k.scheduler.heap.Image() == old(k.scheduler.heap.Image())
  {
    hide *;
    k.ValidParts();
    k.NobodyMoved(k.scheduler.heap.Image(), k.scheduler.Line(), k.history, k.turns, []);
    AllPlaces(k);
    ghost var woken;
    var switchRequired;
    switchRequired, woken := k.IncrementTick();
    k.StillValid();
    AllPlaces(k);
  }

  /** The image of the memory tells who waits and whose event is pending. */
  lemma AllPlaces(k: Kernel)
    requires k.Steady()
    ensures k.pendingReady in k.scheduler.heap.Image().rings
    ensures k.scheduler.heap.Image().rings[k.pendingReady] == k.pendingReady.ring
    ensures forall l :: l in k.order.events ==> l in k.scheduler.heap.Image().rings
    ensures WaitingNow(k) == map l | l in k.order.events :: k.scheduler.heap.Image().rings[l].items
  {
    k.OrderParts();
    EventsListed(k.scheduler, k.order, k.scheduler.heap.Image(), k.turns);
    k.scheduler.heap.ImageParts();
  }

  method Serve(k: Kernel, interrupt: Interrupt)
    requires k.Valid() && k.schedulerSuspended > 0 && (interrupt.EventInterrupt? ==> interrupt.list in k.order.events)
    modifies k`pendedTicks, k`yieldPending, k`history, k`turns
    modifies k.scheduler`tickCount, k.scheduler`delayed, k.scheduler`overflow
    modifies k.scheduler`numOfOverflows, k.scheduler`nextTaskUnblockTime, k.scheduler`readyPriorities
    modifies k.scheduler.heap.lists`ring, k.scheduler.heap.lists`repr, k.scheduler.heap.lists`numberOfItems
    modifies k.scheduler.heap.lists`index, k.scheduler.heap.items`container, k.scheduler.heap.items`next
    modifies k.scheduler.heap.items`previous, k.scheduler.heap.ends`next, k.scheduler.heap.ends`previous
    ensures k.Valid() && old(k.scheduler.Lists().Closed()) && k.scheduler.Lists().Closed()
    ensures k.scheduler.Line() == old(k.scheduler.Line()) && k.history == old(k.history) && k.turns == old(k.turns)
    ensures k.pendedTicks == if interrupt.TickInterrupt? then Shown(old(k.pendedTicks) + 1) else old(k.pendedTicks)
    ensures k.pendingReady.ring.items == old(k.pendingReady.ring.items + Taken(WaitingNow(k), interrupt))
    ensures WaitingNow(k) == old(Left(WaitingNow(k), interrupt))
    ensures k.scheduler.heap.Image() == old(Served(k, k.scheduler.heap.Image(), interrupt))
  {
    hide *;
    match interrupt
    case TickInterrupt =>
      TickServes(k, k.scheduler.heap.Image());
      TickTakesNobody(WaitingNow(k), k.pendingReady.ring.items);
      ServeTick(k);
    case EventInterrupt(l) =>
      ServeEvent(k, l);
  }

  lemma TickServes(k: Kernel, t: Image)
    ensures Served(k, t, TickInterrupt) == t
  {
  }

  lemma TickTakesNobody(w: Waiting, pending: seq<ListItem>)
    ensures Taken(w, TickInterrupt) == [] && Left(w, TickInterrupt) == w && pending + [] == pending
  {
  }

  lemma PendedOnce(ticks: nat, n: nat)
    ensures Shown(Shown(ticks + n) + 1) == Shown(ticks + (n + 1))
  {
  }

  lemma PendedNone(ticks: Tick)
    ensures Shown(ticks + 0) == ticks
  {
  }

  ghost predicate ForEvents(k: Kernel, interrupts: seq<Interrupt>) {
    forall i :: i in interrupts && i.EventInterrupt? ==> i.list in k.order.events
  }

  lemma ForEventsAt(k: Kernel, interrupts: seq<Interrupt>, n: nat)
    requires ForEvents(k, interrupts) && n < |interrupts| && interrupts[n].EventInterrupt?
    ensures interrupts[n].list in k.order.events
  {
  }

  /** Any number of interrupts while the scheduler is suspended: time stands still and no ready list changes; the ticks
      are counted, and those whose event came are remembered in the order in which the events came. */
  method ServeAll(k: Kernel, interrupts: seq<Interrupt>)
    requires k.Valid() && k.schedulerSuspended > 0 && ForEvents(k, interrupts)
    modifies k`pendedTicks, k`yieldPending, k`history, k`turns
    modifies k.scheduler`tickCount, k.scheduler`delayed, k.scheduler`overflow
    modifies k.scheduler`numOfOverflows, k.scheduler`nextTaskUnblockTime, k.scheduler`readyPriorities
    modifies k.scheduler.heap.lists`ring, k.scheduler.heap.lists`repr, k.scheduler.heap.lists`numberOfItems
    modifies k.scheduler.heap.lists`index, k.scheduler.heap.items`container, k.scheduler.heap.items`next
    modifies k.scheduler.heap.items`previous, k.scheduler.heap.ends`next, k.scheduler.heap.ends`previous
    ensures k.Valid() && old(k.scheduler.Lists().Closed()) && k.scheduler.Lists().Closed()
    ensures k.scheduler.Line() == old(k.scheduler.Line()) && k.history == old(k.history) && k.turns == old(k.turns)
    ensures k.pendedTicks == Shown(old(k.pendedTicks) + TicksIn(interrupts))
    ensures k.pendingReady.ring.items == old(k.pendingReady.ring.items + AllTaken(WaitingNow(k), interrupts))
    ensures WaitingNow(k) == old(AllLeft(WaitingNow(k), interrupts))
    ensures interrupts == [] ==> k.scheduler.heap.Rings() == old(k.scheduler.heap.Rings())
    ensures k.scheduler.heap.Image() == old(AllServed(k, k.scheduler.heap.Image(), interrupts))
  {
    hide *;
    k.ValidParts();
    ghost var w, pending, ticks := WaitingNow(k), k.pendingReady.ring.items, k.pendedTicks;
    ghost var t := k.scheduler.heap.Image();
    NoInterrupts(w);
    NobodyServed(k, t);
    PendedNone(k.pendedTicks);
    assert interrupts[..0] == [] && pending + [] == pending;
    for n := 0 to |interrupts|
      invariant k.Valid() && k.scheduler.Lists().Closed()
      invariant k.scheduler.Line() == old(k.scheduler.Line()) && k.history == old(k.history) && k.turns == old(k.turns)
      invariant k.pendedTicks == Shown(ticks + TicksIn(interrupts[..n]))
      invariant k.pendingReady.ring.items == pending + AllTaken(w, interrupts[..n])
      invariant WaitingNow(k) == AllLeft(w, interrupts[..n])
      invariant n == 0 ==> k.scheduler.heap.Rings() == old(k.scheduler.heap.Rings())
      invariant k.scheduler.heap.Image() == AllServed(k, t, interrupts[..n])
    {
      if interrupts[n].EventInterrupt? {
        ForEventsAt(k, interrupts, n);
      }
      OneMoreInterrupt(w, interrupts, n);
      OneMoreServed(k, t, interrupts, n);
      PendedOnce(ticks, TicksIn(interrupts[..n]));
      Serve(k, interrupts[n]);
    }
    assert interrupts[..|interrupts|] == interrupts;
  }
}
