/** Blocking and waking by time: the 32-bit tick counter, the delayed and the overflow list that change places when it
    wraps around, and the cached next wake time. The methods are proved to keep the unbounded time line of
    `TimerQueue`, whatever the counter does. */
module KernelTime {
  import opened Sequences
  import opened RoundRobin
  import opened SortedInsertion
  import opened ListTable
  import opened TimerQueue
  import opened DelayedLists
  import opened ReadyMap
  import KH = KernelHeap

  type List = KH.List
  type ListItem = KH.ListItem
  type Image = Table<List, ListItem>

  datatype NotifyState = NotWaiting | WaitingForNotification | NotificationReceived

  class Task {
    const stateItem: ListItem  // links the task into the list of its state: ready, delayed, suspended
    const eventItem: ListItem  // links it into the list of an event it waits for
    const priority: nat
    var delayAborted: bool      // its last wait for an event has been broken off
    var notifyStates: seq<NotifyState>

    constructor (stateItem: ListItem, eventItem: ListItem, priority: nat, notifications: nat)
      ensures this.stateItem == stateItem && this.eventItem == eventItem && this.priority == priority && !delayAborted
      ensures notifyStates == seq(notifications, i => NotWaiting)
    {
      this.stateItem, this.eventItem, this.priority := stateItem, eventItem, priority;
      delayAborted, notifyStates := false, seq(notifications, i => NotWaiting);
    }
  }

  ghost predicate TasksPlaced(tasks: set<Task>, heap: KH.Heap, priorities: nat)
    reads heap.items`owner
  {
    && (forall t :: t in tasks ==>
          && t.stateItem in heap.items && t.eventItem in heap.items
          && t.stateItem.owner == t && t.eventItem.owner == t && t.priority < priorities)
    && (forall t, u :: t in tasks && u in tasks ==> t.stateItem != u.eventItem)
  }

  class Scheduler {
    var tickCount: Tick
    var numOfOverflows: nat
    var nextTaskUnblockTime: Tick
    var delayed: List
    var overflow: List
    var current: Task
    var readyPriorities: seq<bool>  // the bits of a 32-bit word, the lowest first
    const ready: seq<List>  // by priority
    const suspended: List
    ghost const heap: KH.Heap
    ghost const tasks: set<Task>

    constructor (ready: seq<List>, list1: List, list2: List, suspended: List, current: Task, initialTick: Tick,
                 ghost heap: KH.Heap, ghost tasks: set<Task>)
      requires heap.Valid() && list1 in heap.lists && list2 in heap.lists && suspended in heap.lists
      requires list1 != list2 && suspended != list1 && suspended != list2
      requires forall i :: 0 <= i < |ready| ==>
                 ready[i] in heap.lists && ready[i] != list1 && ready[i] != list2 && ready[i] != suspended
      requires list1.ring.items == [] && list2.ring.items == []
      requires |ready| <= 32 && forall i :: 0 <= i < |ready| ==> ready[i].ring.items == []
      requires forall i, j :: 0 <= i < j < |ready| ==> ready[i] != ready[j]
      requires current in tasks && TasksPlaced(tasks, heap, |ready|)
      ensures Valid() && ReadyAgrees() && Line() == Clock(initialTick, [])
      ensures this.heap == heap && this.tasks == tasks && this.ready == ready && this.current == current
      ensures delayed == list1 && overflow == list2 && this.suspended == suspended && Lists().Closed()
    {
      this.ready, this.suspended, this.heap, this.tasks := ready, suspended, heap, tasks;
      delayed, overflow, this.current := list1, list2, current;
      tickCount, numOfOverflows, nextTaskUnblockTime := initialTick, 0, MAX_DELAY;
      readyPriorities := seq(32, i => false);
      new;
      NobodySleeps();
      NobodyReady();
    }

    lemma NobodySleeps()
      requires Placed() && delayed.ring.items == [] && overflow.ring.items == [] && numOfOverflows == 0
      ensures Valid() && Line() == Clock(tickCount, [])
    {
    }

    lemma NobodyReady()
      requires ListsPlaced() && |ready| <= 32 && readyPriorities == seq(32, i => false)
      requires forall i :: 0 <= i < |ready| ==> ready[i].ring.items == []
      requires forall i, j :: 0 <= i < j < |ready| ==> ready[i] != ready[j]
      ensures ReadyAgrees()
    {
    }

    // ---------- What the variables mean ----------

    /** The lists are in the memory and distinct. */
    ghost predicate ListsPlaced()
      reads this`delayed, this`overflow
    {
      && delayed in heap.lists && overflow in heap.lists && suspended in heap.lists
      && delayed != overflow && suspended != delayed && suspended != overflow
      && (forall i :: 0 <= i < |ready| ==>
            ready[i] in heap.lists && ready[i] != delayed && ready[i] != overflow && ready[i] != suspended)
    }

    ghost predicate StateItemsOnly(items: seq<ListItem>) {
      forall x :: x in items ==> exists t :: t in tasks && t.stateItem == x
    }

    ghost predicate Placed()
      reads this`delayed, this`overflow, this`current, heap.lists, heap.items, heap.ends
    {
      && heap.Valid() && ListsPlaced() && TasksPlaced(tasks, heap, |ready|) && current in tasks
      && StateItemsOnly(delayed.ring.items) && StateItemsOnly(overflow.ring.items)
    }

    /** The time at which the counter was last zero. */
    ghost function Base(): nat
      reads this`numOfOverflows
    {
      numOfOverflows * WRAP
    }

    ghost function Lists(): Pair<ListItem>
      reads this`delayed, this`overflow, delayed`ring, overflow`ring, heap.items`value
    {
      Pair(delayed.ring.items, overflow.ring.items, heap.Values())
    }

    ghost predicate Valid()
      reads this`tickCount, this`nextTaskUnblockTime, this`delayed, this`overflow, this`current, delayed, overflow, heap.lists, heap.items, heap.ends
    {
      && Placed()
      && Lists().Timely(tickCount, nextTaskUnblockTime)
      && (forall x :: x in delayed.ring.items ==> tickCount < x.value)
    }

    /** The item is the state item of a task of priority p. */
    ghost predicate HasPriority(x: ListItem, p: nat)
      reads heap.items`owner
    {
      x in heap.items && x.owner is Task && var t := x.owner as Task; t in tasks && t.stateItem == x && t.priority == p
    }

    /** The ready lists are distinct and hold the state items of tasks of their priority; bit p of the map is set just
        when the list of priority p has an item. */
    ghost predicate Agrees(rings: map<List, Ring<ListItem>>, bits: seq<bool>)
      reads heap.items`owner
    {
      && |bits| == 32 && |ready| <= 32
      && (forall i, j :: 0 <= i < j < |ready| ==> ready[i] != ready[j])
      && (forall p :: 0 <= p < |ready| ==> ready[p] in rings)
      && (forall p :: 0 <= p < 32 ==> (bits[p] <==> p < |ready| && rings[ready[p]].items != []))
      && (forall p, x :: 0 <= p < |ready| && x in rings[ready[p]].items ==> HasPriority(x, p))
    }

    ghost predicate ReadyAgrees()
      reads this`readyPriorities, heap.lists`ring, heap.items`owner
    {
      Agrees(heap.Rings(), readyPriorities)
    }

    /** The unbounded time line: ticks since the start, and the sleepers with the absolute times they are due at. */
    ghost function Line(): Clock<ListItem>
      requires Lists().Closed()
      reads this`tickCount, this`numOfOverflows, this`delayed, this`overflow, delayed`ring, overflow`ring, heap.items`value
    {
      Clock(Base() + tickCount, Lists().Sleepers(Base()))
    }

    lemma LineValid()
      requires Valid()
      ensures Lists().Closed() && Line().Valid()
    {
      var p := Lists();
      if p.delayed != [] {
        assert ValuesOf(p.delayed, p.values)[0] in ValuesOf(p.delayed, p.values);
      }
      SleepersSorted(Lists(), Base(), tickCount, nextTaskUnblockTime);
      NothingDue(Lists(), Base(), tickCount, nextTaskUnblockTime, nextTaskUnblockTime);
    }

    // ---------- The list operations in place ----------

    method Unlink(x: ListItem) returns (remaining: nat)
      requires heap.Valid() && ListsPlaced() && x in heap.items && x.container != null
      modifies heap.lists`ring, heap.lists`repr, heap.lists`numberOfItems, heap.lists`index, heap.items`container
      modifies heap.items`next, heap.items`previous, heap.ends`next, heap.ends`previous
      ensures heap.Valid() && x.container == null && old(heap.Image().Valid() && Permitted(heap.Image(), Take(x)))
      ensures heap.Image() == old(Effect(heap.Image(), Take(x)))
      ensures delayed.ring.items == Minus(old(delayed.ring.items), x)
      ensures overflow.ring.items == Minus(old(overflow.ring.items), x)
    {
      ghost var was, l := heap.Image(), x.container;
      KH.TakeIs(x, heap);
      KH.ContainerIsMembership(heap, delayed, x);
      KH.ContainerIsMembership(heap, overflow, x);
      remaining := KH.Remove(x, heap);
      heap.ImageUpdated(was, l);
    }

    lemma ReadyApart(p: nat)
      requires ListsPlaced() && p < |ready|
      ensures ready[p] in heap.lists && ready[p] != delayed && ready[p] != overflow
    {
    }

    method MakeReady(task: Task)
      requires heap.Valid() && ListsPlaced() && task.priority < |ready|
      requires task.stateItem in heap.items && task.stateItem.container == null
      requires |readyPriorities| == 32 && |ready| <= 32
      modifies this`readyPriorities
      modifies heap.lists`ring, heap.lists`repr, heap.lists`numberOfItems, heap.items`container
      modifies heap.items`next, heap.items`previous, heap.ends`next, heap.ends`previous
      ensures heap.Valid() && delayed.ring == old(delayed.ring) && overflow.ring == old(overflow.ring)
      ensures old(heap.Image().Valid() && Permitted(heap.Image(), Append(ready[task.priority], task.stateItem)))
      ensures heap.Image() == old(Effect(heap.Image(), Append(ready[task.priority], task.stateItem)))
      ensures readyPriorities == old(readyPriorities)[task.priority := true]
    {
      hide *;
      ReadyApart(task.priority);
      ghost var was := heap.Image();
      heap.ImageParts();
      var l := ready[task.priority];
      KH.AppendIs(l, task.stateItem, heap);
      readyPriorities := readyPriorities[task.priority := true];
      KH.InsertEnd(l, task.stateItem, heap);
      heap.ImageUpdated(was, l);
    }

    // ---------- Waking ----------

    /** What waking a task does to the lists: out of its state list, out of the event list if it is in one, to the end
        of the ready list of its priority. */
    ghost function WakeCommands(t: Image, task: Task): seq<Command<List, ListItem>>
      requires task.priority < |ready|
    {
      [Take(task.stateItem)] + (if t.Listed(task.eventItem) then [Take(task.eventItem)] else [])
      + [Append(ready[task.priority], task.stateItem)]
    }

    ghost function Waking(t: Image, task: Task): Image
      requires task.priority < |ready|
    {
      if Runs(t, WakeCommands(t, task)) then Final(t, WakeCommands(t, task)) else t
    }

    lemma WakingIs(t: Image, task: Task, u: Image, v: Image)
      requires task.priority < |ready| && task.stateItem != task.eventItem
      requires t.Valid() && Permitted(t, Take(task.stateItem)) && u == Effect(t, Take(task.stateItem)) && u.Valid()
      requires u.Listed(task.eventItem) ==> v == Effect(u, Take(task.eventItem))
      requires !u.Listed(task.eventItem) ==> v == u
      requires v.Valid() && Permitted(v, Append(ready[task.priority], task.stateItem))
      ensures Runs(t, WakeCommands(t, task))
      ensures Waking(t, task) == Effect(v, Append(ready[task.priority], task.stateItem))
    {
      var first: seq<Command<List, ListItem>> := [Take(task.stateItem)];
      var second: seq<Command<List, ListItem>> := if t.Listed(task.eventItem) then [Take(task.eventItem)] else [];
      var third: seq<Command<List, ListItem>> := [Append(ready[task.priority], task.stateItem)];
      ListedKept(t, Take(task.stateItem), task.eventItem);
      RunsOne(t, first[0]);
      if u.Listed(task.eventItem) {
        RunsOne(u, second[0]);
      }
      RunsConcat(t, first, second);
      RunsOne(v, third[0]);
      RunsConcat(t, first + second, third);
    }

    method WakeItems(task: Task)
      requires heap.Valid() && ListsPlaced() && task.priority < |ready| && task.stateItem != task.eventItem
      requires task.stateItem in heap.items && task.stateItem.container != null && task.eventItem in heap.items
      requires task.eventItem !in delayed.ring.items && task.eventItem !in overflow.ring.items
      requires |readyPriorities| == 32 && |ready| <= 32
      modifies this`readyPriorities
      modifies heap.lists`ring, heap.lists`repr, heap.lists`numberOfItems, heap.lists`index, heap.items`container
      modifies heap.items`next, heap.items`previous, heap.ends`next, heap.ends`previous
      ensures heap.Valid()
      ensures old(Runs(heap.Image(), WakeCommands(heap.Image(), task)))
      ensures heap.Image() == old(Waking(heap.Image(), task))
      ensures delayed.ring.items == Minus(old(delayed.ring.items), task.stateItem)
      ensures overflow.ring.items == Minus(old(overflow.ring.items), task.stateItem)
      ensures readyPriorities == old(readyPriorities)[task.priority := true]
    {
      hide *;
      ghost var t := heap.Image();
      MinusOther(delayed.ring.items, task.stateItem, task.eventItem);
      MinusOther(overflow.ring.items, task.stateItem, task.eventItem);
      var remaining := Unlink(task.stateItem);
      ghost var u := heap.Image();
      heap.ImageValid();
      heap.ImageHolds(task.eventItem);
      heap.ImageHolds(task.stateItem);
      if task.eventItem.container != null {
        remaining := Unlink(task.eventItem);
        heap.ImageValid();
        ListedKept(u, Take(task.eventItem), task.stateItem);
        heap.ImageHolds(task.stateItem);
      }
      ghost var v := heap.Image();
      MakeReady(task);
      WakingIs(t, task, u, v);
    }

    lemma EventItemApart(items: seq<ListItem>, task: Task)
      requires TasksPlaced(tasks, heap, |ready|) && task in tasks && StateItemsOnly(items)
      ensures task.eventItem !in items && task.eventItem != task.stateItem
      ensures StateItemsOnly(Minus(items, task.stateItem))
    {
      MinusMembers(items, task.stateItem);
    }

    /** A command that takes no item from a ready list and puts none into one. */
    lemma AgreesElsewhere(t: Image, c: Command<List, ListItem>, bits: seq<bool>)
      requires t.Valid() && Permitted(t, c) && Agrees(t.rings, bits) && Target(t, c) !in ready
      ensures Agrees(Effect(t, c).rings, bits)
    {
      EffectValid(t, c);
      EffectRing(t, c);
    }

    lemma AgreesAppended(t: Image, task: Task, bits: seq<bool>)
      requires task.priority < |ready| && Agrees(t.rings, bits) && HasPriority(task.stateItem, task.priority)
      requires t.Valid() && Permitted(t, Append(ready[task.priority], task.stateItem))
      ensures Agrees(Effect(t, Append(ready[task.priority], task.stateItem)).rings, bits[task.priority := true])
    {
      var c: Command<List, ListItem> := Append(ready[task.priority], task.stateItem);
      EffectValid(t, c);
      EffectRing(t, c);
      var l := ready[task.priority];
      assert forall x :: x in Effect(t, c).rings[l].items ==> x in Members(Effect(t, c).rings[l].items);
    }

    lemma NotFromReady(t: Image, x: ListItem, bits: seq<bool>)
      requires Agrees(t.rings, bits) && t.Valid() && Permitted(t, Take(x))
      requires forall p :: 0 <= p < |ready| ==> !HasPriority(x, p)
      ensures Target(t, Take(x)) !in ready
    {
      var l := t.Holder(x);
      assert t.Holds(l, x);
    }

    lemma WakingAgrees(t: Image, task: Task, bits: seq<bool>)
      requires task.priority < |ready| && Runs(t, WakeCommands(t, task)) && HasPriority(task.stateItem, task.priority)
      requires Agrees(t.rings, bits) && t.Holder(task.stateItem) !in ready
      requires forall p :: 0 <= p < |ready| ==> !HasPriority(task.eventItem, p)
      ensures Agrees(Waking(t, task).rings, bits[task.priority := true])
    {
      hide Agrees, HasPriority, Permitted, Effect;
      var x, y, l := task.stateItem, task.eventItem, ready[task.priority];
      var first: seq<Command<List, ListItem>> := [Take(x)];
      var second: seq<Command<List, ListItem>> := if t.Listed(y) then [Take(y)] else [];
      var third: seq<Command<List, ListItem>> := [Append(l, x)];
      RunsConcat(t, first + second, third);
      RunsConcat(t, first, second);
      AgreesElsewhere(t, Take(x), bits);
      var u := Final(t, first);
      if second != [] {
        NotFromReady(u, y, bits);
        AgreesElsewhere(u, Take(y), bits);
      }
      AgreesAppended(Final(t, first + second), task, bits);
    }

    method Wake(task: Task)
      requires Placed() && task in tasks && task.stateItem.container != null && task.stateItem.container !in ready
      requires ReadyAgrees()
      modifies this`readyPriorities
      modifies heap.lists`ring, heap.lists`repr, heap.lists`numberOfItems, heap.lists`index, heap.items`container
      modifies heap.items`next, heap.items`previous, heap.ends`next, heap.ends`previous
      ensures Placed()
      ensures old(Runs(heap.Image(), WakeCommands(heap.Image(), task)))
      ensures heap.Image() == old(Waking(heap.Image(), task))
      ensures delayed.ring.items == Minus(old(delayed.ring.items), task.stateItem)
      ensures overflow.ring.items == Minus(old(overflow.ring.items), task.stateItem)
      ensures ReadyAgrees()
    {
      hide *;
      PlacedParts();
      TaskPlaced(task);
      EventItemApart(delayed.ring.items, task);
      EventItemApart(overflow.ring.items, task);
      ghost var t, bits := heap.Image(), readyPriorities;
      WakeItems(task);
      AgreesNow(t, task, bits);
      StillPlaced(delayed, overflow);
    }

    lemma TaskPlaced(task: Task)
      requires Placed() && ReadyAgrees() && task in tasks
      ensures heap.Valid() && ListsPlaced() && task.priority < |ready| <= 32 && |readyPriorities| == 32
      ensures task.stateItem in heap.items && task.eventItem in heap.items && task.stateItem != task.eventItem
      ensures HasPriority(task.stateItem, task.priority)
      ensures forall p :: 0 <= p < |ready| ==> !HasPriority(task.eventItem, p)
      ensures task.stateItem.container != null ==>
                heap.Image().Listed(task.stateItem) && heap.Image().Holder(task.stateItem) == task.stateItem.container
      ensures Agrees(heap.Image().rings, readyPriorities)
    {
      heap.ImageHolds(task.stateItem);
      heap.ImageParts();
    }

    lemma AgreesNow(t: Image, task: Task, bits: seq<bool>)
      requires task.priority < |ready| && Runs(t, WakeCommands(t, task)) && HasPriority(task.stateItem, task.priority)
      requires Agrees(t.rings, bits) && t.Listed(task.stateItem) && t.Holder(task.stateItem) !in ready
      requires forall p :: 0 <= p < |ready| ==> !HasPriority(task.eventItem, p)
      requires |bits| == 32 && |ready| <= 32 && readyPriorities == bits[task.priority := true]
      requires heap.Image() == Waking(t, task)
      ensures ReadyAgrees()
    {
      hide *;
      WakingAgrees(t, task, bits);
      heap.ImageParts();
      AgreeParts();
    }

    lemma AgreeParts()
      ensures ReadyAgrees() <==> Agrees(heap.Rings(), readyPriorities)
    {
    }

    // ---------- The tick ----------

    ghost function AfterWaking(t: Image, woken: seq<Task>): Image
      requires forall task :: task in woken ==> task.priority < |ready|
    {
      if woken == [] then t else
        var n := |woken| - 1;
        Waking(AfterWaking(t, woken[..n]), woken[n])
    }

    /** The next wake time as the head of the delayed list says it. */
    method ResetNextTaskUnblockTime()
      requires delayed.Valid()
      modifies this`nextTaskUnblockTime
      ensures nextTaskUnblockTime == if delayed.ring.items == [] then MAX_DELAY else delayed.ring.items[0].value
    {
      nextTaskUnblockTime := delayed.ValueOfHeadEntry();
    }

    /** When the counter has just wrapped around, nobody may be left in the delayed list; the lists change places. */
    method SwitchDelayedLists()
      requires delayed.ring.items == [] && overflow.Valid()
      modifies this`delayed, this`overflow, this`numOfOverflows, this`nextTaskUnblockTime
      ensures delayed == old(overflow) && overflow == old(delayed) && numOfOverflows == old(numOfOverflows) + 1
      ensures nextTaskUnblockTime == if delayed.ring.items == [] then MAX_DELAY else delayed.ring.items[0].value
    {
      delayed, overflow := overflow, delayed;
      numOfOverflows := numOfOverflows + 1;
      ResetNextTaskUnblockTime();
    }

    /** Count one tick, switching the lists if the counter wraps around to zero. */
    method Count()
      requires overflow.Valid() && Lists().Timely(tickCount, nextTaskUnblockTime)
      requires forall x :: x in Lists().delayed ==> tickCount < Lists().values[x]
      modifies this`tickCount, this`delayed, this`overflow, this`numOfOverflows, this`nextTaskUnblockTime
      ensures (delayed == old(delayed) && overflow == old(overflow)) || (delayed == old(overflow) && overflow == old(delayed))
      ensures Base() + tickCount == old(Base() + tickCount) + 1
      ensures Lists().Timely(tickCount, nextTaskUnblockTime)
      ensures Lists().Sleepers(Base()) == old(Lists().Sleepers(Base()))
    {
      ghost var p, base, tick, next := Lists(), Base(), tickCount, nextTaskUnblockTime;
      tickCount := if tickCount == MAX_DELAY then 0 else tickCount + 1;
      if tickCount == 0 {
        NobodyLeft(p, tick, next);
        SwitchDelayedLists();
        Switch(p, base, tick, next);
        assert Lists() == Pair(p.overflow, p.delayed, p.values) && Base() == base + WRAP;
      } else {
        OneTickOn(p, tick, next);
        assert Lists() == p;
      }
    }

    static lemma NobodyLeft(p: Pair<ListItem>, tick: Tick, next: Tick)
      requires p.Timely(tick, next) && forall x :: x in p.delayed ==> tick < p.values[x]
      ensures tick == MAX_DELAY ==> p.delayed == []
    {
      if p.delayed != [] {
        assert p.delayed[0] in p.delayed;
      }
    }

    static lemma OneTickOn(p: Pair<ListItem>, tick: Tick, next: Tick)
      requires p.Timely(tick, next) && tick < MAX_DELAY && forall x :: x in p.delayed ==> tick < p.values[x]
      ensures p.Timely(tick + 1, next)
    {
    }

    /** What stands at the head of the delayed list: the state item of a task. */
    lemma HeadIsTask()
      requires Placed() && delayed.ring.items != []
      ensures var x := delayed.end.next;
              && x != null && x == delayed.ring.items[0] && x in heap.items && x.container == delayed
              && x.owner is Task && x.owner as Task in tasks && (x.owner as Task).stateItem == x
    {
      assert delayed.Valid() && delayed.end == delayed.Walk()[0];
      assert delayed.ring.items[0] in delayed.ring.items;
    }

    /** Wake the task at the head of the delayed list. */
    method WakeHead() returns (task: Task)
      requires Placed() && ReadyAgrees() && delayed.ring.items != []
      modifies this`readyPriorities
      modifies heap.lists`ring, heap.lists`repr, heap.lists`numberOfItems, heap.lists`index, heap.items`container
      modifies heap.items`next, heap.items`previous, heap.ends`next, heap.ends`previous
      ensures Placed() && ReadyAgrees() && task in tasks && task.stateItem == old(delayed.ring.items[0]) && task.priority < |ready|
      ensures delayed.ring.items == old(delayed.ring.items[1..]) && overflow.ring.items == old(overflow.ring.items)
      ensures heap.Image() == old(Waking(heap.Image(), task))
    {
      HeadIsTask();
      task := delayed.end.next.owner as Task;
      KH.ContainerIsMembership(heap, overflow, task.stateItem);
      assert Minus(delayed.ring.items, delayed.ring.items[0]) == delayed.ring.items[1..];
      Wake(task);
    }

    /** The sleepers that stand first in s have been woken, up to time t: `woken` are their tasks, in order. */
    ghost predicate WokenFrom(s: seq<Entry<ListItem>>, t: nat, woken: seq<Task>) {
      && |woken| <= |s|
      && (forall i :: 0 <= i < |woken| ==> woken[i] in tasks && woken[i].stateItem == s[i].item && s[i].key <= t)
    }

    ghost predicate AnyPreempts(woken: seq<Task>)
      reads this`current
    {
      exists t :: t in woken && t.priority >= current.priority
    }

    /** Some of the sleepers s due by now have been woken; the others still sleep. */
    ghost predicate Waked(s: seq<Entry<ListItem>>, image: Image, woken: seq<Task>)
      reads this`delayed, this`overflow, this`current, this`tickCount, this`numOfOverflows
      reads heap.lists, heap.items, heap.ends
    {
      && Placed() && Lists().Closed()
      && WokenFrom(s, Base() + tickCount, woken)
      && Lists().Sleepers(Base()) == s[|woken|..]
      && (forall t :: t in woken ==> t.priority < |ready|)
      && heap.Image() == AfterWaking(image, woken)
    }

    /** Nobody is left to be woken at this tick. */
    ghost predicate NotDue()
      reads this`delayed, this`overflow, this`tickCount, this`numOfOverflows
      reads delayed`ring, overflow`ring, heap.items`value
    {
      && Lists().Closed()
      && (forall x :: x in Lists().delayed ==> tickCount < Lists().values[x])
      && (forall e :: e in Lists().Sleepers(Base()) ==> e.key > Base() + tickCount)
    }

    lemma NobodyWoken()
      requires Placed() && Lists().Closed()
      ensures Waked(Lists().Sleepers(Base()), heap.Image(), []) && !AnyPreempts([])
    {
      var s := Lists().Sleepers(Base());
      assert s[0..] == s;
    }

    lemma WakedPlaced(s: seq<Entry<ListItem>>, image: Image, woken: seq<Task>)
      requires Waked(s, image, woken)
      ensures Placed() && delayed in heap.lists && delayed.numberOfItems == |delayed.ring.items|
    {
    }

    lemma WakedParts(s: seq<Entry<ListItem>>, image: Image, woken: seq<Task>)
      requires Waked(s, image, woken)
      ensures Placed() && WokenFrom(s, Base() + tickCount, woken) && heap.Image() == AfterWaking(image, woken)
      ensures Lists().Closed() && Lists().Sleepers(Base()) == s[|woken|..]
      ensures forall t :: t in woken ==> t.priority < |ready|
      ensures Lists() == Pair(delayed.ring.items, overflow.ring.items, heap.Values())
      ensures delayed.ring.items != [] ==> heap.Values()[delayed.ring.items[0]] == delayed.ring.items[0].value
    {
    }

    /** If the first sleeper is not due, nobody is, and `next` is the time at which that changes. */
    lemma HeadNotDue(next: Tick)
      requires Lists().Timely(tickCount, nextTaskUnblockTime)
      requires delayed.ring.items == [] ==> next == MAX_DELAY
      requires delayed.ring.items != [] ==>
                 delayed.ring.items[0] in heap.items && tickCount < delayed.ring.items[0].value == next
      ensures Lists().Timely(tickCount, next) && NotDue()
    {
      NothingDue(Lists(), Base(), tickCount, nextTaskUnblockTime, next);
    }

    lemma OneMorePreempts(woken: seq<Task>, task: Task)
      ensures AnyPreempts(woken + [task]) <==> AnyPreempts(woken) || task.priority >= current.priority
    {
      assert task in woken + [task];
      assert forall t :: t in woken ==> t in woken + [task];
    }

    /** Is the first sleeper of the delayed list due? If not, remember when it will be. */
    method CheckHead(ghost s: seq<Entry<ListItem>>, ghost image: Image, ghost woken: seq<Task>) returns (expired: bool)
      requires Waked(s, image, woken) && Lists().Timely(tickCount, nextTaskUnblockTime)
      modifies this`nextTaskUnblockTime
      ensures Waked(s, image, woken) && Lists().Timely(tickCount, nextTaskUnblockTime)
      ensures if expired then delayed.ring.items != [] && delayed.ring.items[0].value <= tickCount else NotDue()
    {
      hide *;
      WakedPlaced(s, image, woken);
      if delayed.numberOfItems == 0 {
        expired := false;
        HeadNotDue(MAX_DELAY);
        nextTaskUnblockTime := MAX_DELAY;
        assert Waked(s, image, woken);
      } else {
        HeadIsTask();
        var task := delayed.end.next.owner as Task;
        var itemValue := task.stateItem.value;
        expired := tickCount >= itemValue;
        if !expired {
          HeadNotDue(itemValue);
          nextTaskUnblockTime := itemValue;
          assert Waked(s, image, woken);
        }
      }
    }

    /** The step of the time line when the head of the delayed list leaves. */
    lemma HeadLeaves(p: Pair<ListItem>, base: nat, tick: Tick, next: Tick, s: seq<Entry<ListItem>>, n: nat)
      requires p.Timely(tick, next) && p.delayed != [] && n <= |s| && p.Sleepers(base) == s[n..]
      ensures n < |s| && s[n] == Entry(base + p.values[p.delayed[0]], p.delayed[0])
      ensures var q := p.(delayed := p.delayed[1..]);
              q.Timely(tick, next) && q.Sleepers(base) == s[n + 1..]
    {
      LeaveDelayed(p, 0, base, tick, next);
      assert p.Sleepers(base)[0] == s[n];
      assert Erase(p.delayed, 0) == p.delayed[1..];
      assert Erase(s[n..], 0) == s[n + 1..];
    }

    lemma AfterOneMore(t: Image, woken: seq<Task>, task: Task)
      requires forall u :: u in woken ==> u.priority < |ready|
      requires task.priority < |ready|
      ensures forall u :: u in woken + [task] ==> u.priority < |ready|
      ensures AfterWaking(t, woken + [task]) == Waking(AfterWaking(t, woken), task)
    {
      assert (woken + [task])[..|woken|] == woken;
    }

    lemma OneMoreWoken(s: seq<Entry<ListItem>>, t: nat, woken: seq<Task>, task: Task)
      requires WokenFrom(s, t, woken) && |woken| < |s|
      requires task in tasks && task.stateItem == s[|woken|].item && s[|woken|].key <= t
      ensures WokenFrom(s, t, woken + [task])
    {
    }

    lemma WakedNext(s: seq<Entry<ListItem>>, image: Image, woken: seq<Task>, task: Task, p: Pair<ListItem>)
      requires Placed() && p.Timely(tickCount, nextTaskUnblockTime) && p.delayed != []
      requires WokenFrom(s, Base() + tickCount, woken) && p.Sleepers(Base()) == s[|woken|..]
      requires task in tasks && task.stateItem == p.delayed[0] && p.values[p.delayed[0]] <= tickCount
      requires delayed.ring.items == p.delayed[1..] && overflow.ring.items == p.overflow && heap.Values() == p.values
      requires forall t :: t in woken ==> t.priority < |ready|
      requires task.priority < |ready| && heap.Image() == Waking(AfterWaking(image, woken), task)
      ensures Waked(s, image, woken + [task]) && Lists().Timely(tickCount, nextTaskUnblockTime)
    {
      HeadLeaves(p, Base(), tickCount, nextTaskUnblockTime, s, |woken|);
      AfterOneMore(image, woken, task);
      OneMoreWoken(s, Base() + tickCount, woken, task);
      assert Lists() == p.(delayed := p.delayed[1..]);
    }

    method WakeNext(ghost s: seq<Entry<ListItem>>, ghost image: Image, ghost woken: seq<Task>) returns (task: Task)
      requires Waked(s, image, woken) && Lists().Timely(tickCount, nextTaskUnblockTime)
      requires delayed.ring.items != [] && delayed.ring.items[0].value <= tickCount && ReadyAgrees()
      modifies this`readyPriorities
      modifies heap.lists`ring, heap.lists`repr, heap.lists`numberOfItems, heap.lists`index, heap.items`container
      modifies heap.items`next, heap.items`previous, heap.ends`next, heap.ends`previous
      ensures Waked(s, image, woken + [task]) && Lists().Timely(tickCount, nextTaskUnblockTime)
      ensures |delayed.ring.items| == old(|delayed.ring.items|) - 1 && ReadyAgrees()
    {
      hide *;
      ghost var p := Lists();
      WakedParts(s, image, woken);
      task := WakeHead();
      WakedNext(s, image, woken, task, p);
    }

    /** Wake the tasks at the head of the delayed list until one is not due, and remember when it will be. */
    method WakeExpired() returns (switchRequired: bool, ghost woken: seq<Task>)
      requires Placed() && Lists().Timely(tickCount, nextTaskUnblockTime) && Lists().Closed() && ReadyAgrees()
      modifies this`nextTaskUnblockTime, this`readyPriorities
      modifies heap.lists`ring, heap.lists`repr, heap.lists`numberOfItems, heap.lists`index, heap.items`container
      modifies heap.items`next, heap.items`previous, heap.ends`next, heap.ends`previous
      ensures Waked(old(Lists().Sleepers(Base())), old(heap.Image()), woken) && NotDue()
      ensures Lists().Timely(tickCount, nextTaskUnblockTime) && ReadyAgrees()
      ensures switchRequired <==> AnyPreempts(woken)
    {
      hide *;
      switchRequired, woken := false, [];
      ghost var s, image := Lists().Sleepers(Base()), heap.Image();
      NobodyWoken();
      while true
        invariant Waked(s, image, woken) && Lists().Timely(tickCount, nextTaskUnblockTime) && ReadyAgrees()
        invariant switchRequired <==> AnyPreempts(woken)
        decreases |delayed.ring.items|
      {
        var expired := CheckHead(s, image, woken);
        if !expired {
          break;
        }
        var task := WakeNext(s, image, woken);
        OneMorePreempts(woken, task);
        woken := woken + [task];
        if task.priority >= current.priority {
          switchRequired := true;
        }
      }
    }

    /** What the waking of the first `woken` sleepers of s means for the time line: one tick. */
    lemma TickDone(s: seq<Entry<ListItem>>, now: nat, image: Image, woken: seq<Task>)
      requires Waked(s, image, woken) && Lists().Timely(tickCount, nextTaskUnblockTime) && NotDue()
      requires Base() + tickCount == now + 1
      ensures Valid() && |woken| == Clock(now, s).Due() && Line() == Clock(now, s).Tick()
      ensures forall i :: 0 <= i < |woken| ==> woken[i] in tasks && woken[i].stateItem == s[i].item
      ensures heap.Image() == AfterWaking(image, woken)
    {
      var n := |woken|;
      assert n < |s| ==> s[n] in s[n..];
      InsertPositionIs(Keys(s), now + 1, n);
      DelayedLater();
    }

    lemma DelayedLater()
      requires NotDue()
      ensures forall x :: x in delayed.ring.items ==> tickCount < x.value
    {
      assert forall x :: x in delayed.ring.items ==> x in Lists().delayed;
    }

    lemma CountStarts()
      requires Valid()
      ensures Placed() && overflow.Valid() && Lists().Timely(tickCount, nextTaskUnblockTime) && Lists().Closed()
      ensures forall x :: x in Lists().delayed ==> tickCount < Lists().values[x]
      ensures Line() == Clock(Base() + tickCount, Lists().Sleepers(Base()))
    {
    }

    /** The lists may have changed places. */
    lemma StillPlaced(d: List, o: List)
      requires heap.Valid() && TasksPlaced(tasks, heap, |ready|) && current in tasks
      requires d in heap.lists && o in heap.lists && suspended in heap.lists && d != o && suspended != d && suspended != o
      requires forall i :: 0 <= i < |ready| ==>
                 ready[i] in heap.lists && ready[i] != d && ready[i] != o && ready[i] != suspended
      requires StateItemsOnly(d.ring.items) && StateItemsOnly(o.ring.items)
      requires (delayed == d && overflow == o) || (delayed == o && overflow == d)
      ensures Placed()
    {
    }

    lemma PlacedParts()
      requires Placed()
      ensures heap.Valid() && TasksPlaced(tasks, heap, |ready|) && current in tasks
      ensures delayed in heap.lists && overflow in heap.lists && suspended in heap.lists
      ensures delayed != overflow && suspended != delayed && suspended != overflow
      ensures forall i :: 0 <= i < |ready| ==>
                ready[i] in heap.lists && ready[i] != delayed && ready[i] != overflow && ready[i] != suspended
      ensures StateItemsOnly(delayed.ring.items) && StateItemsOnly(overflow.ring.items)
      ensures current.priority < |ready| && ready[current.priority].numberOfItems == |ready[current.priority].ring.items|
    {
      assert ready[current.priority].Valid();
    }

    /** Count a tick, and wake the tasks whose time has come. */
    method CountAndWake() returns (switchRequired: bool, ghost woken: seq<Task>)
      requires Valid() && ReadyAgrees()
      modifies this`tickCount, this`delayed, this`overflow, this`numOfOverflows, this`nextTaskUnblockTime
      modifies this`readyPriorities
      modifies heap.lists`ring, heap.lists`repr, heap.lists`numberOfItems, heap.lists`index, heap.items`container
      modifies heap.items`next, heap.items`previous, heap.ends`next, heap.ends`previous
      ensures Valid() && ReadyAgrees() && old(Lists().Closed()) && Line() == old(Line().Tick())
      ensures (delayed == old(delayed) && overflow == old(overflow)) || (delayed == old(overflow) && overflow == old(delayed))
      ensures |woken| == old(Line().Due())
      ensures forall i :: 0 <= i < |woken| ==> woken[i] in tasks && woken[i].stateItem == old(Line()).sleepers[i].item
      ensures (forall t :: t in woken ==> t.priority < |ready|) && heap.Image() == AfterWaking(old(heap.Image()), woken)
      ensures switchRequired <==> AnyPreempts(woken)
    {
      hide *;
      CountStarts();
      ghost var s, now, image, d, o := Lists().Sleepers(Base()), Base() + tickCount, heap.Image(), delayed, overflow;
      PlacedParts();
      Count();
      StillPlaced(d, o);
      if tickCount >= nextTaskUnblockTime {
        switchRequired, woken := WakeExpired();
      } else {
        switchRequired, woken := false, [];
        NobodyWoken();
        NotYet();
      }
      TickDone(s, now, image, woken);
    }

    /** A tick of the running scheduler: the time line moves on by one tick, the tasks whose time has come, and no
        others, are moved to their ready lists in the order in which they are due. */
    method Tick() returns (switchRequired: bool, ghost woken: seq<Task>)
      requires Valid() && ReadyAgrees()
      modifies this`tickCount, this`delayed, this`overflow, this`numOfOverflows, this`nextTaskUnblockTime
      modifies this`readyPriorities
      modifies heap.lists`ring, heap.lists`repr, heap.lists`numberOfItems, heap.lists`index, heap.items`container
      modifies heap.items`next, heap.items`previous, heap.ends`next, heap.ends`previous
      ensures Valid() && ReadyAgrees() && old(Lists().Closed()) && Line() == old(Line().Tick())
      ensures (delayed == old(delayed) && overflow == old(overflow)) || (delayed == old(overflow) && overflow == old(delayed))
      ensures |woken| == old(Line().Due())
      ensures forall i :: 0 <= i < |woken| ==> woken[i] in tasks && woken[i].stateItem == old(Line()).sleepers[i].item
      ensures (forall t :: t in woken ==> t.priority < |ready|) && heap.Image() == AfterWaking(old(heap.Image()), woken)
      ensures current.priority < |ready|
      ensures switchRequired <==> AnyPreempts(woken) || |ready[current.priority].ring.items| > 1
    {
      hide *;
      switchRequired, woken := CountAndWake();
      CountStarts();
      PlacedParts();
      if ready[current.priority].numberOfItems > 1 {
        switchRequired := true;
      }
    }

    /** The cached time lets the tick skip the lists. */
    lemma NotYet()
      requires Lists().Timely(tickCount, nextTaskUnblockTime) && tickCount < nextTaskUnblockTime
      ensures NotDue()
    {
      var p := Lists();
      if p.delayed != [] {
        assert ValuesOf(p.delayed, p.values)[0] in ValuesOf(p.delayed, p.values);
      }
      NothingDue(p, Base(), tickCount, nextTaskUnblockTime, nextTaskUnblockTime);
    }

    // ---------- Going to sleep ----------

    lemma ItemApart(x: ListItem)
      requires Placed() && x in heap.items
      ensures x in heap.Values()
      ensures x in delayed.ring.items ==> x.container == delayed
      ensures x in overflow.ring.items ==> x.container == overflow
    {
      KH.ContainerIsMembership(heap, delayed, x);
      KH.ContainerIsMembership(heap, overflow, x);
    }

    lemma ListValues(l: List)
      requires heap.Valid() && l in heap.lists
      ensures forall y :: y in l.ring.items ==> y in heap.Values()
      ensures KH.KL.Values(l.ring.items) == ValuesOf(l.ring.items, heap.Values())
    {
      assert l.Valid();
    }

    method InsertInto(l: List, x: ListItem)
      requires heap.Valid() && l in heap.lists && x in heap.items && x.container == null
      modifies heap.lists`ring, heap.lists`repr, heap.lists`numberOfItems, heap.items`container
      modifies heap.items`next, heap.items`previous, heap.ends`next, heap.ends`previous
      ensures heap.Valid() && x.container == l && forall m :: m in heap.lists && m != l ==> m.ring == old(m.ring)
      ensures forall y :: y in old(l.ring.items) ==> y in heap.Values()
      ensures x in heap.Values() && l.ring.items == WithSorted(old(l.ring.items), heap.Values(), x)
      ensures l.ring == old(l.ring.Insert(InsertPosition(KH.KL.Values(l.ring.items), x.value), x))
      ensures forall y :: y in heap.items && y != x ==> y.container == old(y.container)
    {
      ListValues(l);
      ghost var items, values := l.ring.items, heap.Values();
      KH.Insert(l, x, heap);
      assert heap.Values() == values;
    }

    lemma SortedStateItems(items: seq<ListItem>, values: map<ListItem, Tick>, x: ListItem)
      requires StateItemsOnly(items) && StateItemsOnly([x])
      requires (forall y :: y in items ==> y in values) && x in values
      ensures StateItemsOnly(WithSorted(items, values, x))
    {
      WithSortedMembers(items, values, x);
      assert x in [x];
    }

    /** The time line after an insertion into the delayed list, and into the overflow list. */
    lemma SleptDelayed(q: Pair<ListItem>, x: ListItem, next: Tick)
      requires Placed() && q.Timely(tickCount, next) && x in q.values && tickCount < q.values[x]
      requires forall y :: y in q.delayed ==> tickCount < q.values[y]
      requires heap.Values() == q.values && overflow.ring.items == q.overflow
      requires delayed.ring.items == WithSorted(q.delayed, q.values, x)
      requires nextTaskUnblockTime == if q.values[x] < next then q.values[x] else next
      ensures Valid()
      ensures Line() == Clock(Base() + tickCount, Enter(q.Sleepers(Base()), Entry(Base() + q.values[x], x)))
    {
      hide Placed, Sorted, InsertPosition, Valid, Line, Base, Pair.Sleepers, WithSorted, Enter;
      SleepDelayed(q, x, Base(), tickCount, next);
      WithSortedMembers(q.delayed, q.values, x);
      SameLine(q.(delayed := WithSorted(q.delayed, q.values, x)));
    }

    lemma SleptOverflow(q: Pair<ListItem>, x: ListItem)
      requires Placed() && q.Timely(tickCount, nextTaskUnblockTime) && x in q.values && q.values[x] < tickCount
      requires forall y :: y in q.delayed ==> tickCount < q.values[y]
      requires heap.Values() == q.values && delayed.ring.items == q.delayed
      requires overflow.ring.items == WithSorted(q.overflow, q.values, x)
      ensures Valid()
      ensures Line() == Clock(Base() + tickCount, Enter(q.Sleepers(Base()), Entry(Base() + WRAP + q.values[x], x)))
    {
      hide Placed, Sorted, InsertPosition, Valid, Line, Base, Pair.Sleepers, WithSorted, Enter;
      SleepOverflow(q, x, Base(), tickCount, nextTaskUnblockTime);
      SameLine(q.(overflow := WithSorted(q.overflow, q.values, x)));
    }

    lemma ListsAre()
      ensures Lists() == Pair(delayed.ring.items, overflow.ring.items, heap.Values())
    {
    }

    lemma StampKeeps(p: Pair<ListItem>, x: ListItem, v: Tick)
      requires p.Timely(tickCount, nextTaskUnblockTime) && x !in p.delayed && x !in p.overflow
      requires forall y :: y in p.delayed ==> tickCount < p.values[y]
      ensures var q := p.(values := p.values[x := v]);
              && q.Timely(tickCount, nextTaskUnblockTime) && q.Sleepers(Base()) == p.Sleepers(Base())
              && (forall y :: y in q.delayed ==> tickCount < q.values[y])
    {
      Stamp(p, x, v, Base(), tickCount, nextTaskUnblockTime);
    }

    lemma MinusSorted(l: List, x: ListItem)
      requires heap.Valid() && l in heap.lists && x in heap.items && x.container == null
      ensures (forall y :: y in l.ring.items ==> y in heap.Values()) && x in heap.Values()
      ensures Minus(WithSorted(l.ring.items, heap.Values(), x), x) == l.ring.items
    {
      ListValues(l);
      KH.ContainerIsMembership(heap, l, x);
      MinusInserted(l.ring.items, InsertPosition(ValuesOf(l.ring.items, heap.Values()), heap.Values()[x]), x);
    }

    lemma MinusAppended(l: List, x: ListItem)
      requires Valid() && l in heap.lists && x in heap.items && x.container == null
      ensures l.ring.cursor <= |l.ring.items| && Minus(l.ring.InsertEnd(x).items, x) == l.ring.items
    {
      KH.ListIsValid(heap, l);
      KH.ContainerIsMembership(heap, l, x);
      MinusInserted(l.ring.items, l.ring.EndPosition(), x);
    }

    method EnterOverflow(x: ListItem, ghost q: Pair<ListItem>)
      requires Placed() && x in heap.items && x.container == null && StateItemsOnly([x])
      requires q == Lists() && q.Timely(tickCount, nextTaskUnblockTime)
      requires forall y :: y in q.delayed ==> tickCount < q.values[y]
      requires x in q.values && q.values[x] < tickCount
      modifies heap.lists`ring, heap.lists`repr, heap.lists`numberOfItems, heap.items`container
      modifies heap.items`next, heap.items`previous, heap.ends`next, heap.ends`previous
      ensures Valid() && x.container == overflow
      ensures Line() == Clock(Base() + tickCount, Enter(q.Sleepers(Base()), Entry(Base() + WRAP + q.values[x], x)))
      ensures forall l :: l in heap.lists && l != x.container ==> l.ring == old(l.ring)
      ensures forall y :: y in heap.items && y != x ==> y.container == old(y.container)
      ensures var l := x.container; l != null && Minus(l.ring.items, x) == old(l.ring.items)
    {
      hide *;
      PlacedParts();
      ListsAre();
      SortedStateItems(q.overflow, q.values, x);
      MinusSorted(overflow, x);
      InsertInto(overflow, x);
      StillPlaced(delayed, overflow);
      SleptOverflow(q, x);
    }

    method EnterDelayed(x: ListItem, ghost q: Pair<ListItem>)
      requires Placed() && x in heap.items && x.container == null && StateItemsOnly([x])
      requires q == Lists() && q.Timely(tickCount, nextTaskUnblockTime)
      requires forall y :: y in q.delayed ==> tickCount < q.values[y]
      requires x in q.values && tickCount < q.values[x] == x.value
      modifies this`nextTaskUnblockTime
      modifies heap.lists`ring, heap.lists`repr, heap.lists`numberOfItems, heap.items`container
      modifies heap.items`next, heap.items`previous, heap.ends`next, heap.ends`previous
      ensures Valid() && x.container == delayed
      ensures Line() == Clock(Base() + tickCount, Enter(q.Sleepers(Base()), Entry(Base() + q.values[x], x)))
      ensures forall l :: l in heap.lists && l != x.container ==> l.ring == old(l.ring)
      ensures forall y :: y in heap.items && y != x ==> y.container == old(y.container)
      ensures var l := x.container; l != null && Minus(l.ring.items, x) == old(l.ring.items)
    {
      hide *;
      ghost var next := nextTaskUnblockTime;
      PlacedParts();
      ListsAre();
      SortedStateItems(q.delayed, q.values, x);
      MinusSorted(delayed, x);
      InsertInto(delayed, x);
      if x.value < nextTaskUnblockTime {
        nextTaskUnblockTime := x.value;
      }
      StillPlaced(delayed, overflow);
      SleptDelayed(q, x, next);
    }

    /** x, which is in no list, goes to sleep until the counter shows `timeToWake`. */
    method SleepUntil(x: ListItem, timeToWake: Tick)
      requires Valid() && x in heap.items && x.container == null && StateItemsOnly([x])
      requires timeToWake != tickCount
      modifies this`nextTaskUnblockTime, {x}`value
      modifies heap.lists`ring, heap.lists`repr, heap.lists`numberOfItems, heap.items`container
      modifies heap.items`next, heap.items`previous, heap.ends`next, heap.ends`previous
      ensures Valid() && old(Lists().Closed())
      ensures Line() == old(Clock(Base() + tickCount, Enter(Lists().Sleepers(Base()), Entry(
                          if timeToWake < tickCount then Base() + WRAP + timeToWake else Base() + timeToWake, x))))
      ensures x.value == timeToWake && x.container == if timeToWake < tickCount then overflow else delayed
      ensures forall l :: l in heap.lists && l != x.container ==> l.ring == old(l.ring)
      ensures forall y :: y in heap.items && y != x ==> y.container == old(y.container)
      ensures var l := x.container; l != null && Minus(l.ring.items, x) == old(l.ring.items)
    {
      hide *;
      CountStarts();
      PlacedParts();
      ItemApart(x);
      ListsAre();
      ghost var p := Lists();
      ghost var q := p.(values := p.values[x := timeToWake]);
      StampKeeps(p, x, timeToWake);
      KH.SetValue(x, timeToWake, heap);
      ListsAre();
      StillPlaced(delayed, overflow);
      if timeToWake < tickCount {
        EnterOverflow(x, q);
      } else {
        EnterDelayed(x, q);
      }
    }

    /** The time line depends on the two lists and the values alone. */
    lemma SameLine(p: Pair<ListItem>)
      requires Placed() && p.Timely(tickCount, nextTaskUnblockTime)
      requires p == Pair(delayed.ring.items, overflow.ring.items, heap.Values())
      requires forall y :: y in p.delayed ==> tickCount < p.values[y]
      ensures Valid() && Line() == Clock(Base() + tickCount, p.Sleepers(Base()))
    {
      hide Placed, Sorted;
      assert Lists() == p;
    }

    /** Take x out of a list other than the two of the sleepers. */
    method LeaveState(x: ListItem) returns (remaining: nat)
      requires Valid() && x in heap.items && x.container != null && x.container != delayed && x.container != overflow
      modifies heap.lists`ring, heap.lists`repr, heap.lists`numberOfItems, heap.lists`index, heap.items`container
      modifies heap.items`next, heap.items`previous, heap.ends`next, heap.ends`previous
      ensures Valid() && Line() == old(Line()) && x.container == null
      ensures old(x in x.container.ring.items) && old(x.container).ring
           == old(x.container.ring.Remove(IndexOf(x.container.ring.items, x)))
      ensures remaining == |old(x.container).ring.items|
      ensures forall l :: l in heap.lists && l != old(x.container) ==> l.ring == old(l.ring)
      ensures forall y :: y in heap.items && y != x ==> y.container == old(y.container)
    {
      hide *;
      CountStarts();
      PlacedParts();
      ListsAre();
      ghost var p := Lists();
      remaining := KH.Remove(x, heap);
      StillPlaced(delayed, overflow);
      SameLine(p);
    }

    /** x, which is in no list, goes to its place by value in a list that holds neither sleepers nor ready tasks. */
    method SortInto(l: List, x: ListItem)
      requires Valid() && ReadyAgrees() && x in heap.items && x.container == null
      requires l in heap.lists && l != delayed && l != overflow && l !in ready
      modifies heap.lists`ring, heap.lists`repr, heap.lists`numberOfItems, heap.items`container
      modifies heap.items`next, heap.items`previous, heap.ends`next, heap.ends`previous
      ensures Valid() && ReadyAgrees() && Line() == old(Line()) && x.container == l
      ensures l.ring == old(l.ring.Insert(InsertPosition(KH.KL.Values(l.ring.items), x.value), x))
      ensures forall m :: m in heap.lists && m != l ==> m.ring == old(m.ring)
      ensures forall y :: y in heap.items && y != x ==> y.container == old(y.container)
      ensures old(heap.Image().Valid() && Permitted(heap.Image(), Sort(l, x)))
      ensures heap.Image() == old(Effect(heap.Image(), Sort(l, x)))
    {
      hide *;
      CountStarts();
      CurrentParts();
      PlacedParts();
      ListsAre();
      heap.ImageParts();
      KH.SortIs(l, x, heap);
      ghost var p, rings, image := Lists(), heap.Rings(), heap.Image();
      KH.Insert(l, x, heap);
      StillPlaced(delayed, overflow);
      SameLine(p);
      PlacedParts();
      ReadyKept(rings);
      heap.ImageUpdated(image, l);
    }

    /** Put x at the end of a list other than the two of the sleepers. */
    method EnterState(l: List, x: ListItem)
      requires Valid() && x in heap.items && x.container == null && l in heap.lists && l != delayed && l != overflow
      modifies heap.lists`ring, heap.lists`repr, heap.lists`numberOfItems, heap.items`container
      modifies heap.items`next, heap.items`previous, heap.ends`next, heap.ends`previous
      ensures Valid() && Line() == old(Line()) && x.container == l
      ensures old(l.ring.Valid()) && l.ring == old(l.ring).InsertEnd(x)
      ensures forall m :: m in heap.lists && m != l ==> m.ring == old(m.ring)
      ensures forall y :: y in heap.items && y != x ==> y.container == old(y.container)
    {
      hide *;
      CountStarts();
      PlacedParts();
      ListsAre();
      ghost var p := Lists();
      KH.InsertEnd(l, x, heap);
      StillPlaced(delayed, overflow);
      SameLine(p);
    }

    /** Lists other than the ready lists may have changed. */
    lemma ReadyKept(was: map<List, Ring<ListItem>>)
      requires Agrees(was, readyPriorities) && ListsPlaced()
      requires forall p :: 0 <= p < |ready| ==> ready[p].ring == was[ready[p]]
      ensures ReadyAgrees()
    {
    }

    lemma AgreesTaken(rings: map<List, Ring<ListItem>>, bits: seq<bool>, p: nat, k: nat)
      requires Agrees(rings, bits) && p < |ready| && k < |rings[ready[p]].items|
      ensures var r := rings[ready[p]].Remove(k);
              Agrees(rings[ready[p] := r], if r.items == [] then bits[p := false] else bits)
    {
    }

    lemma CurrentParts()
      requires Placed() && ReadyAgrees()
      ensures var x, p := current.stateItem, current.priority;
              && x in heap.items && p < |ready| <= 32 && |readyPriorities| == 32 && StateItemsOnly([x])
              && (forall l :: l in heap.lists ==> l in heap.Rings() && heap.Rings()[l] == l.ring)
              && heap.Rings().Keys == heap.lists && Agrees(heap.Rings(), readyPriorities)
              && heap.Valid() && ListsPlaced()
              && ready[p] in heap.lists && ready[p] != delayed && ready[p] != overflow && ready[p] != suspended
              && suspended in heap.lists && suspended != delayed && suspended != overflow && suspended !in ready
    {
      assert heap.Valid();
    }

    /** The running task leaves its ready list, and its priority the map if nobody is left there. */
    method LeaveReady()
      requires Valid() && ReadyAgrees()
      requires current.stateItem.container == ready[current.priority]
      modifies this`readyPriorities
      modifies heap.lists`ring, heap.lists`repr, heap.lists`numberOfItems, heap.lists`index, heap.items`container
      modifies heap.items`next, heap.items`previous, heap.ends`next, heap.ends`previous
      ensures Valid() && ReadyAgrees() && Line() == old(Line()) && current.stateItem.container == null
      ensures current.priority < |ready|
      ensures var x, l := current.stateItem, ready[current.priority];
              old(x in l.ring.items) && l.ring == old(l.ring.Remove(IndexOf(l.ring.items, x)))
      ensures forall l :: l in heap.lists && l != ready[current.priority] ==> l.ring == old(l.ring)
      ensures forall y :: y in heap.items && y != current.stateItem ==> y.container == old(y.container)
    {
      hide *;
      CountStarts();
      CurrentParts();
      ghost var rings, bits := heap.Rings(), readyPriorities;
      var x, l := current.stateItem, ready[current.priority];
      KH.ContainerIsMembership(heap, l, x);
      ghost var k := IndexOf(l.ring.items, x);
      AgreesTaken(rings, bits, current.priority, k);
      var remaining := LeaveState(x);
      if remaining == 0 {
        readyPriorities := readyPriorities[current.priority := false];
      }
      heap.RingsUpdated(rings, l);
      AgreeParts();
    }

    /** The counter shows the wake time modulo its width; it has wrapped around before it just when it shows less. */
    lemma WakeTime(base: nat, tick: Tick, ticks: Tick)
      requires ticks > 0
      ensures var t := Shown(tick + ticks);
              && t != tick
              && base + tick + ticks == if t < tick then base + WRAP + t else base + t
    {
    }

    lemma SleepsUntil(x: ListItem, ticks: Tick)
      requires Lists().Closed() && ticks > 0
      ensures var t := Shown(tickCount + ticks);
              && t != tickCount
              && Line().Sleep(x, ticks) == Clock(Base() + tickCount, Enter(Lists().Sleepers(Base()), Entry(
                   if t < tickCount then Base() + WRAP + t else Base() + t, x)))
    {
      hide *;
      WakeTime(Base(), tickCount, ticks);
      LineIs();
      Slept(Line(), x, ticks);
    }

    lemma LineIs()
      requires Lists().Closed()
      ensures Line() == Clock(Base() + tickCount, Lists().Sleepers(Base()))
    {
    }

    lemma Slept(c: Clock<ListItem>, x: ListItem, ticks: nat)
      ensures c.Sleep(x, ticks) == Clock(c.now, Enter(c.sleepers, Entry(c.now + ticks, x)))
    {
    }

    /** x, which is in no list, waits for so many ticks. */
    method WaitTicks(x: ListItem, ticks: Tick)
      requires Valid() && x in heap.items && x.container == null && StateItemsOnly([x]) && ticks > 0
      modifies this`nextTaskUnblockTime, {x}`value
      modifies heap.lists`ring, heap.lists`repr, heap.lists`numberOfItems, heap.items`container
      modifies heap.items`next, heap.items`previous, heap.ends`next, heap.ends`previous
      ensures Valid() && old(Lists().Closed())
      ensures Line() == old(Line()).Sleep(x, ticks) && x.value == Shown(tickCount + ticks)
      ensures x.container == if x.value < tickCount then overflow else delayed
      ensures forall l :: l in heap.lists && l != x.container ==> l.ring == old(l.ring)
      ensures forall y :: y in heap.items && y != x ==> y.container == old(y.container)
      ensures var l := x.container; l != null && Minus(l.ring.items, x) == old(l.ring.items)
    {
      hide *;
      CountStarts();
      PlacedParts();
      var timeToWake := Shown(tickCount + ticks);
      SleepsUntil(x, ticks);
      SleepUntil(x, timeToWake);
      CountStarts();
    }

    method Wait(x: ListItem, ticks: Tick)
      requires Valid() && ReadyAgrees() && x in heap.items && x.container == null && StateItemsOnly([x]) && ticks > 0
      modifies this`nextTaskUnblockTime, {x}`value
      modifies heap.lists`ring, heap.lists`repr, heap.lists`numberOfItems, heap.items`container
      modifies heap.items`next, heap.items`previous, heap.ends`next, heap.ends`previous
      ensures Valid() && ReadyAgrees() && old(Lists().Closed())
      ensures Line() == old(Line()).Sleep(x, ticks) && x.value == Shown(tickCount + ticks)
      ensures x.container == if x.value < tickCount then overflow else delayed
      ensures forall l :: l in heap.lists && l != x.container ==> l.ring == old(l.ring)
      ensures forall y :: y in heap.items && y != x ==> y.container == old(y.container)
      ensures var l := x.container; l != null && Minus(l.ring.items, x) == old(l.ring.items)
    {
      hide *;
      CountStarts();
      CurrentParts();
      PlacedParts();
      ghost var rings := heap.Rings();
      WaitTicks(x, ticks);
      CountStarts();
      PlacedParts();
      ReadyKept(rings);
    }

    /** x, which is in no list, goes to the end of a list that holds neither sleepers nor ready tasks. */
    method EnterList(l: List, x: ListItem)
      requires Valid() && ReadyAgrees() && x in heap.items && x.container == null
      requires l in heap.lists && l != delayed && l != overflow && l !in ready
      modifies heap.lists`ring, heap.lists`repr, heap.lists`numberOfItems, heap.items`container
      modifies heap.items`next, heap.items`previous, heap.ends`next, heap.ends`previous
      ensures Valid() && ReadyAgrees() && Line() == old(Line()) && x.container == l
      ensures old(l.ring.Valid()) && l.ring == old(l.ring).InsertEnd(x)
      ensures forall m :: m in heap.lists && m != l ==> m.ring == old(m.ring)
      ensures forall y :: y in heap.items && y != x ==> y.container == old(y.container)
    {
      hide *;
      CountStarts();
      CurrentParts();
      PlacedParts();
      ghost var rings := heap.Rings();
      EnterState(l, x);
      CountStarts();
      PlacedParts();
      ReadyKept(rings);
    }

    /** x leaves a list that holds neither sleepers nor ready tasks. */
    method LeaveList(x: ListItem)
      requires Valid() && ReadyAgrees() && x in heap.items && x.container != null
      requires x.container != delayed && x.container != overflow && x.container !in ready
      modifies heap.lists`ring, heap.lists`repr, heap.lists`numberOfItems, heap.lists`index, heap.items`container
      modifies heap.items`next, heap.items`previous, heap.ends`next, heap.ends`previous
      ensures Valid() && ReadyAgrees() && Line() == old(Line()) && x.container == null
      ensures old(x in x.container.ring.items) && old(x.container).ring
           == old(x.container.ring.Remove(IndexOf(x.container.ring.items, x)))
      ensures forall l :: l in heap.lists && l != old(x.container) ==> l.ring == old(l.ring)
      ensures forall y :: y in heap.items && y != x ==> y.container == old(y.container)
      ensures old(heap.Image().Valid() && Permitted(heap.Image(), Take(x)))
      ensures heap.Image() == old(Effect(heap.Image(), Take(x)))
    {
      hide *;
      CountStarts();
      CurrentParts();
      PlacedParts();
      heap.ImageParts();
      KH.TakeIs(x, heap);
      ghost var rings, image, l := heap.Rings(), heap.Image(), x.container;
      var remaining := LeaveState(x);
      CountStarts();
      PlacedParts();
      ReadyKept(rings);
      heap.ImageUpdated(image, l);
    }

    method WaitOrSuspend(x: ListItem, ticks: Tick, forever: bool)
      requires Valid() && ReadyAgrees() && x in heap.items && x.container == null && StateItemsOnly([x]) && ticks > 0
      requires suspended in heap.lists && suspended != delayed && suspended != overflow && suspended !in ready
      modifies this`nextTaskUnblockTime, {x}`value
      modifies heap.lists`ring, heap.lists`repr, heap.lists`numberOfItems, heap.items`container
      modifies heap.items`next, heap.items`previous, heap.ends`next, heap.ends`previous
      ensures Valid() && ReadyAgrees() && old(Lists().Closed())
      ensures if forever then
                && Line() == old(Line()) && x.container == suspended
                && old(suspended.ring.Valid()) && suspended.ring == old(suspended.ring).InsertEnd(x)
              else
                && Line() == old(Line()).Sleep(x, ticks) && x.value == Shown(tickCount + ticks)
                && x.container == if x.value < tickCount then overflow else delayed
      ensures forall l :: l in heap.lists && l != x.container ==> l.ring == old(l.ring)
      ensures forall y :: y in heap.items && y != x ==> y.container == old(y.container)
      ensures var l := x.container; l != null && Minus(l.ring.items, x) == old(l.ring.items)
    {
      hide *;
      CountStarts();
      if forever {
        MinusAppended(suspended, x);
        EnterList(suspended, x);
      } else {
        Wait(x, ticks);
      }
    }

    /** The running task blocks for so many ticks, or for ever. */
    method AddCurrentTaskToDelayedList(ticksToWait: Tick, canBlockIndefinitely: bool)
      requires Valid() && ReadyAgrees() && ticksToWait > 0
      requires current.stateItem.container == ready[current.priority]
      modifies this`nextTaskUnblockTime, this`readyPriorities, {current.stateItem}`value, current`delayAborted
      modifies heap.lists`ring, heap.lists`repr, heap.lists`numberOfItems, heap.lists`index, heap.items`container
      modifies heap.items`next, heap.items`previous, heap.ends`next, heap.ends`previous
      ensures Valid() && ReadyAgrees() && old(Lists().Closed())
      ensures var x := current.stateItem;
              if ticksToWait == MAX_DELAY && canBlockIndefinitely then
                && Line() == old(Line()) && x.container == suspended
                && old(suspended.ring.Valid()) && suspended.ring == old(suspended.ring).InsertEnd(x)
              else
                && Line() == old(Line()).Sleep(x, ticksToWait) && x.value == Shown(tickCount + ticksToWait)
                && x.container == if x.value < tickCount then overflow else delayed
      ensures current.priority < |ready|
      ensures var x, l := current.stateItem, ready[current.priority];
              old(x in l.ring.items) && l.ring == old(l.ring.Remove(IndexOf(l.ring.items, x)))
      ensures forall l :: l in heap.lists && l != ready[current.priority] && l != current.stateItem.container ==>
                l.ring == old(l.ring)
      ensures forall y :: y in heap.items && y != current.stateItem ==> y.container == old(y.container)
      ensures !current.delayAborted
      ensures var x := current.stateItem; var l := x.container; l != null && Minus(l.ring.items, x) == old(l.ring.items)
    {
      hide *;
      current.delayAborted := false;
      BlockCurrent(ticksToWait, canBlockIndefinitely);
    }

    method BlockCurrent(ticksToWait: Tick, canBlockIndefinitely: bool)
      requires Valid() && ReadyAgrees() && ticksToWait > 0
      requires current.stateItem.container == ready[current.priority]
      modifies this`nextTaskUnblockTime, this`readyPriorities, {current.stateItem}`value
      modifies heap.lists`ring, heap.lists`repr, heap.lists`numberOfItems, heap.lists`index, heap.items`container
      modifies heap.items`next, heap.items`previous, heap.ends`next, heap.ends`previous
      ensures Valid() && ReadyAgrees() && old(Lists().Closed())
      ensures var x := current.stateItem;
              if ticksToWait == MAX_DELAY && canBlockIndefinitely then
                && Line() == old(Line()) && x.container == suspended
                && old(suspended.ring.Valid()) && suspended.ring == old(suspended.ring).InsertEnd(x)
              else
                && Line() == old(Line()).Sleep(x, ticksToWait) && x.value == Shown(tickCount + ticksToWait)
                && x.container == if x.value < tickCount then overflow else delayed
      ensures current.priority < |ready|
      ensures var x, l := current.stateItem, ready[current.priority];
              old(x in l.ring.items) && l.ring == old(l.ring.Remove(IndexOf(l.ring.items, x)))
      ensures forall l :: l in heap.lists && l != ready[current.priority] && l != current.stateItem.container ==>
                l.ring == old(l.ring)
      ensures forall y :: y in heap.items && y != current.stateItem ==> y.container == old(y.container)
      ensures var x := current.stateItem; var l := x.container; l != null && Minus(l.ring.items, x) == old(l.ring.items)
    {
      hide *;
      CountStarts();
      CurrentParts();
      LeaveReady();
      CountStarts();
      CurrentParts();
      WaitOrSuspend(current.stateItem, ticksToWait, ticksToWait == MAX_DELAY && canBlockIndefinitely);
    }

    lemma AgreesMore(rings: map<List, Ring<ListItem>>, bits: seq<bool>, task: Task)
      requires Agrees(rings, bits) && task.priority < |ready| && HasPriority(task.stateItem, task.priority)
      requires rings[ready[task.priority]].cursor <= |rings[ready[task.priority]].items|
      ensures var l := ready[task.priority];
              Agrees(rings[l := rings[l].InsertEnd(task.stateItem)], bits[task.priority := true])
    {
    }

    lemma NewTaskParts(task: Task)
      requires Valid() && ReadyAgrees() && task in tasks
      ensures var l := ready[task.priority];
              && task.priority < |ready| <= 32 && l in heap.lists && l != delayed && l != overflow && l.ring.cursor <= |l.ring.items|
              && |readyPriorities| == 32 && task.stateItem in heap.items && HasPriority(task.stateItem, task.priority)
              && heap.Rings().Keys == heap.lists && (forall m :: m in heap.lists ==> heap.Rings()[m] == m.ring)
              && Agrees(heap.Rings(), readyPriorities)
    {
      assert ready[task.priority].Valid();
    }

    /** A task that is in no list becomes ready. */
    method AddTaskToReadyList(task: Task)
      requires Valid() && ReadyAgrees() && task in tasks && task.stateItem.container == null
      modifies this`readyPriorities
      modifies heap.lists`ring, heap.lists`repr, heap.lists`numberOfItems, heap.items`container
      modifies heap.items`next, heap.items`previous, heap.ends`next, heap.ends`previous
      ensures Valid() && ReadyAgrees() && Line() == old(Line())
      ensures task.priority < |ready| && task.stateItem.container == ready[task.priority]
      ensures var l := ready[task.priority]; old(l.ring.Valid()) && l.ring == old(l.ring).InsertEnd(task.stateItem)
      ensures forall l :: l in heap.lists && l != ready[task.priority] ==> l.ring == old(l.ring)
      ensures forall y :: y in heap.items && y != task.stateItem ==> y.container == old(y.container)
    {
      hide *;
      NewTaskParts(task);
      ghost var rings, bits, l := heap.Rings(), readyPriorities, ready[task.priority];
      AgreesMore(rings, bits, task);
      EnterState(ready[task.priority], task.stateItem);
      readyPriorities := readyPriorities[task.priority := true];
      heap.RingsUpdated(rings, l);
      AgreeParts();
    }

    /** A new task becomes ready while the scheduler has not been started; the last of the highest priority will run. */
    method AddNewTaskToReadyList(task: Task)
      requires Valid() && ReadyAgrees() && task in tasks && task.stateItem.container == null
      modifies this`current, this`readyPriorities
      modifies heap.lists`ring, heap.lists`repr, heap.lists`numberOfItems, heap.items`container
      modifies heap.items`next, heap.items`previous, heap.ends`next, heap.ends`previous
      ensures Valid() && ReadyAgrees() && Line() == old(Line())
      ensures task.priority < |ready| && task.stateItem.container == ready[task.priority]
      ensures var l := ready[task.priority]; old(l.ring.Valid()) && l.ring == old(l.ring).InsertEnd(task.stateItem)
      ensures forall l :: l in heap.lists && l != ready[task.priority] ==> l.ring == old(l.ring)
      ensures forall y :: y in heap.items && y != task.stateItem ==> y.container == old(y.container)
      ensures current == if old(current).priority <= task.priority then task else old(current)
    {
      hide *;
      if current.priority <= task.priority {
        RunTask(task);
      }
      AddTaskToReadyList(task);
    }

    // ---------- Waking before the time, and choosing who runs ----------

    lemma LinkedOnce(x: ListItem)
      requires Placed() && x in heap.items
      ensures x in delayed.ring.items ==> x !in overflow.ring.items
    {
      ItemApart(x);
    }

    /** A task that waits in no event list leaves whatever state it blocks in and becomes ready. */
    method Unblock(task: Task)
      requires Placed() && ReadyAgrees() && task in tasks && task.eventItem.container == null
      requires task.stateItem.container != null && task.stateItem.container !in ready
      modifies this`readyPriorities
      modifies heap.lists`ring, heap.lists`repr, heap.lists`numberOfItems, heap.lists`index, heap.items`container
      modifies heap.items`next, heap.items`previous, heap.ends`next, heap.ends`previous
      ensures Placed() && ReadyAgrees()
      ensures old(Runs(heap.Image(), WakeCommands(heap.Image(), task)))
      ensures heap.Image() == old(Waking(heap.Image(), task))
      ensures delayed.ring.items == Minus(old(delayed.ring.items), task.stateItem)
      ensures overflow.ring.items == Minus(old(overflow.ring.items), task.stateItem)
    {
      hide *;
      PlacedParts();
      TaskPlaced(task);
      EventItemApart(delayed.ring.items, task);
      EventItemApart(overflow.ring.items, task);
      ghost var t, bits := heap.Image(), readyPriorities;
      MoveToReady(task);
      AgreesNow(t, task, bits);
      StillPlaced(delayed, overflow);
    }

    method MoveToReady(task: Task)
      requires heap.Valid() && ListsPlaced() && task.priority < |ready| && task.stateItem != task.eventItem
      requires task.stateItem in heap.items && task.stateItem.container != null && task.eventItem in heap.items
      requires task.eventItem.container == null
      requires |readyPriorities| == 32 && |ready| <= 32
      modifies this`readyPriorities
      modifies heap.lists`ring, heap.lists`repr, heap.lists`numberOfItems, heap.lists`index, heap.items`container
      modifies heap.items`next, heap.items`previous, heap.ends`next, heap.ends`previous
      ensures heap.Valid()
      ensures old(Runs(heap.Image(), WakeCommands(heap.Image(), task)))
      ensures heap.Image() == old(Waking(heap.Image(), task))
      ensures delayed.ring.items == Minus(old(delayed.ring.items), task.stateItem)
      ensures overflow.ring.items == Minus(old(overflow.ring.items), task.stateItem)
      ensures readyPriorities == old(readyPriorities)[task.priority := true]
    {
      hide *;
      ghost var t := heap.Image();
      heap.ImageHolds(task.eventItem);
      var remaining := Unlink(task.stateItem);
      ghost var u := heap.Image();
      heap.ImageValid();
      ListedKept(t, Take(task.stateItem), task.eventItem);
      MakeReady(task);
      WakingIs(t, task, u, u);
    }

    /** The time line without a sleeper who was woken early. */
    lemma LeftLine(p: Pair<ListItem>, x: ListItem)
      requires Placed() && p.Timely(tickCount, nextTaskUnblockTime) && (x in p.delayed ==> x !in p.overflow)
      requires forall y :: y in p.delayed ==> tickCount < p.values[y]
      requires heap.Values() == p.values
      requires delayed.ring.items == Minus(p.delayed, x) && overflow.ring.items == Minus(p.overflow, x)
      ensures Valid() && Line() == Clock(Base() + tickCount, p.Sleepers(Base())).Leave(x)
    {
      hide Placed, Sorted, Minus;
      LeaveSleepers(p, x, Base(), tickCount, nextTaskUnblockTime);
      MinusMembers(p.delayed, x);
      ListsAre();
      SameLine(Pair(Minus(p.delayed, x), Minus(p.overflow, x), p.values));
    }

    /** A blocked task is woken before its time. */
    method WakeEarly(task: Task)
      requires Valid() && ReadyAgrees() && task in tasks && task.eventItem.container == null
      requires task.stateItem.container != null && task.stateItem.container !in ready
      modifies this`readyPriorities
      modifies heap.lists`ring, heap.lists`repr, heap.lists`numberOfItems, heap.lists`index, heap.items`container
      modifies heap.items`next, heap.items`previous, heap.ends`next, heap.ends`previous
      ensures Valid() && ReadyAgrees() && Line() == old(Line()).Leave(task.stateItem)
      ensures old(Runs(heap.Image(), WakeCommands(heap.Image(), task)))
      ensures heap.Image() == old(Waking(heap.Image(), task))
    {
      hide *;
      CountStarts();
      PlacedParts();
      TaskPlaced(task);
      LinkedOnce(task.stateItem);
      ListsAre();
      ghost var p := Lists();
      Unblock(task);
      LeftLine(p, task.stateItem);
    }

    /** A blocked task is made ready, out of the list of the event it waits for, if any. */
    method BreakOff(task: Task)
      requires Valid() && ReadyAgrees() && task in tasks
      requires task.stateItem.container != null && task.stateItem.container !in ready
      modifies this`readyPriorities
      modifies heap.lists`ring, heap.lists`repr, heap.lists`numberOfItems, heap.lists`index, heap.items`container
      modifies heap.items`next, heap.items`previous, heap.ends`next, heap.ends`previous
      ensures Valid() && ReadyAgrees() && Line() == old(Line()).Leave(task.stateItem)
      ensures old(Runs(heap.Image(), WakeCommands(heap.Image(), task)))
      ensures heap.Image() == old(Waking(heap.Image(), task))
    {
      hide *;
      CountStarts();
      PlacedParts();
      TaskPlaced(task);
      LinkedOnce(task.stateItem);
      ListsAre();
      ghost var p := Lists();
      Wake(task);
      LeftLine(p, task.stateItem);
    }

    /** The next wake time as it is after tasks have been woken early. */
    method RefreshNextTaskUnblockTime()
      requires Valid()
      modifies this`nextTaskUnblockTime
      ensures Valid() && Line() == old(Line())
      ensures nextTaskUnblockTime == if delayed.ring.items == [] then MAX_DELAY else delayed.ring.items[0].value
    {
      ghost var p, next := Lists(), nextTaskUnblockTime;
      ResetNextTaskUnblockTime();
      if p.delayed != [] {
        assert p.delayed[0] in p.delayed;
      }
      NothingDue(p, Base(), tickCount, next, nextTaskUnblockTime);
    }

    /** The highest bit of the map is the highest priority of a ready task. */
    lemma HighestReady()
      requires Placed() && ReadyAgrees() && exists p :: 0 <= p < |ready| && ready[p].ring.items != []
      ensures |readyPriorities| == 32 && (exists i :: 0 <= i < 32 && readyPriorities[i])
      ensures var p := HighestSet(readyPriorities);
              && p < |ready| && ready[p].ring.items != [] && ready[p] in heap.lists
              && ready[p] != delayed && ready[p] != overflow
              && (forall q :: p < q < |ready| ==> ready[q].ring.items == [])
              && (forall x :: x in ready[p].ring.items ==> HasPriority(x, p) && x.container == ready[p])
    {
      var q :| 0 <= q < |ready| && ready[q].ring.items != [];
      assert readyPriorities[q];
      var p := HighestSet(readyPriorities);
      assert ready[p].Valid();
    }

    lemma AgreesTurned(rings: map<List, Ring<ListItem>>, bits: seq<bool>, p: nat)
      requires Agrees(rings, bits) && p < |ready| && rings[ready[p]].Valid()
      ensures Agrees(rings[ready[p] := rings[ready[p]].Next()], bits)
    {
    }

    lemma CurrentIs(l: List, p: nat)
      requires heap.Valid() && l in heap.lists && l.ring.items != [] && 0 < l.ring.cursor
      requires forall x :: x in l.ring.items ==> HasPriority(x, p) && x.container == l
      ensures 0 < l.ring.cursor <= |l.ring.items|
      ensures var o := l.ring.Current().owner;
              && o is Task && o as Task in tasks && (o as Task).stateItem == l.ring.Current()
              && (o as Task).priority == p && (o as Task).stateItem.container == l
    {
      assert l.Valid() && l.ring.Current() in l.ring.items;
    }

    lemma SameItems(l: List, was: Ring<ListItem>)
      requires was.cursor <= |was.items| && l.ring == was.Next()
      ensures l.ring.items == was.items
    {
    }

    /** The task whose turn it is in the ready list l of priority p. */
    method NextReady(l: List, p: nat) returns (task: Task)
      requires Valid() && ReadyAgrees() && p < |ready| && l == ready[p] && l in heap.lists && l.ring.items != []
      requires l != delayed && l != overflow
      requires forall x :: x in l.ring.items ==> HasPriority(x, p) && x.container == l
      modifies heap.lists`index, heap.lists`ring
      ensures Valid() && ReadyAgrees() && Line() == old(Line())
      ensures task in tasks && task.priority == p && task.stateItem.container == l
      ensures old(l.ring.Valid()) && l.ring == old(l.ring).Next() && 0 < l.ring.cursor <= |l.ring.items|
      ensures task.stateItem == l.ring.Current() && l.ring.items == old(l.ring.items)
      ensures forall m :: m in heap.lists && m != l ==> m.ring == old(m.ring)
    {
      hide *;
      CountStarts();
      CurrentParts();
      PlacedParts();
      ListsAre();
      ghost var lists, rings, was := Lists(), heap.Rings(), l.ring;
      var owner: object? := KH.OwnerOfNextEntry(l, heap);
      SameItems(l, was);
      CurrentIs(l, p);
      task := owner as Task;
      heap.RingsUpdated(rings, l);
      AgreesTurned(rings, readyPriorities, p);
      AgreeParts();
      StillPlaced(delayed, overflow);
      SameLine(lists);
    }

    /** Choose the task whose turn it is among the ready tasks of the highest priority. */
    method SelectHighestPriorityTask()
      requires Valid() && ReadyAgrees() && exists p :: 0 <= p < |ready| && ready[p].ring.items != []
      modifies this`current, heap.lists`index, heap.lists`ring
      ensures Valid() && ReadyAgrees() && Line() == old(Line()) && current.priority < |ready|
      ensures forall q :: current.priority < q < |ready| ==> ready[q].ring.items == []
      ensures var l := ready[current.priority];
              && old(l.ring.Valid()) && l.ring == old(l.ring).Next() && 0 < l.ring.cursor <= |l.ring.items|
              && current.stateItem == l.ring.Current() && current.stateItem.container == l
      ensures forall l :: l in heap.lists && l != ready[current.priority] ==> l.ring == old(l.ring)
    {
      hide *;
      CountStarts();
      HighestReady();
      var topPriority := HighestSet(readyPriorities);
      ReadyListsDiffer(topPriority);
      var task := NextReady(ready[topPriority], topPriority);
      RunTask(task);
    }

    method RunTask(task: Task)
      requires Valid() && task in tasks
      modifies this`current
      ensures Valid() && Line() == old(Line()) && current == task
    {
      current := task;
    }

    lemma ReadyListsDiffer(p: nat)
      requires ReadyAgrees() && ListsPlaced() && p < |ready|
      ensures forall q :: 0 <= q < |ready| && q != p ==> ready[q] != ready[p] && ready[q] in heap.lists
    {
    }
  }

  lemma MinusOther<T>(s: seq<T>, x: T, y: T)
    requires y !in s
    ensures Minus(Minus(s, x), y) == Minus(s, x)
  {
    MinusMembers(s, x);
  }

  lemma MinusMembers<T>(s: seq<T>, x: T)
    ensures forall y :: y in Minus(s, x) ==> y in s
  {
  }
}
