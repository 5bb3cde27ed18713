/** How the kernel comes to be: from nothing to a kernel with any number of tasks and event lists, of which one of the
    highest priority runs, in a state that every call keeps valid. */
module Startup {
  import opened Sequences
  import opened RoundRobin
  import opened SortedInsertion
  import opened ListTable
  import opened TimerQueue
  import KH = KernelHeap
  import KT = KernelTime
  import TC = TaskControl

  type List = KH.List
  type Task = KT.Task

  const NOTIFICATIONS: nat := 4  // those of the kernel's own, three, and as many as are configured

  ghost predicate EmptyLists(h: KH.Heap)
    reads h.lists`ring
  {
    forall l :: l in h.lists ==> l.ring == Ring([], 0)
  }

  ghost predicate Separate(ls: seq<List>) {
    forall i, j :: 0 <= i < j < |ls| ==> ls[i] != ls[j]
  }

  /** Empty lists in one memory, and nothing else. */
  ghost predicate Fresh(lists: seq<List>, h: KH.Heap)
    reads h.lists, h.items, h.ends
  {
    && Separate(lists) && h.Valid() && EmptyLists(h) && h.items == {}
    && (forall i :: 0 <= i < |lists| ==> lists[i] in h.lists)
  }

  lemma OneMoreList(lists: seq<List>, g: KH.Heap, l: List, h: KH.Heap)
    requires Fresh(lists, g) && l !in g.lists && h == KH.Heap(g.lists + {l}, g.items, g.ends + {l.end}) && h.Valid()
    requires h.Image() == g.Image().Put(l, Ring([], 0))
    ensures Fresh(lists + [l], h)
  {
    assert h.Image().rings[l] == l.ring;
  }

  /** n empty lists in one memory. */
  method InitialiseLists(n: nat) returns (lists: seq<List>, ghost h: KH.Heap)
    ensures |lists| == n && Fresh(lists, h) && fresh(h.lists) && fresh(h.ends)
  {
    lists, h := [], KH.Heap({}, {}, {});
    while |lists| < n
      invariant |lists| <= n && Fresh(lists, h) && fresh(h.lists) && fresh(h.ends)
      decreases n - |lists|
    {
      hide *;
      FreshIsValid(lists, h);
      var l;
      ghost var g := h;
      l, h := KH.Initialise(g);
      OneMoreList(lists, g, l, h);
      lists := lists + [l];
    }
  }

  lemma FreshIsValid(lists: seq<List>, h: KH.Heap)
    requires Fresh(lists, h)
    ensures h.Valid() && h.items == {} && EmptyLists(h) && Separate(lists)
    ensures forall i :: 0 <= i < |lists| ==> lists[i] in h.lists
  {
  }

  /** Event lists are in ascending order of value, so the task of the highest priority comes first. */
  function EventValue(priorities: nat, priority: nat): (v: Tick)
    requires priority < priorities <= 32
    ensures v == priorities - priority
  {
    priorities - priority
  }

  /** The part of a task's control block that the lists use. */
  method CreateTask(priority: nat, priorities: nat, ghost h: KH.Heap) returns (task: Task, ghost g: KH.Heap)
    requires h.Valid() && priority < priorities <= 32
    ensures fresh(task) && fresh(task.stateItem) && fresh(task.eventItem) && task.priority == priority
    ensures g == KH.Heap(h.lists, h.items + {task.stateItem, task.eventItem}, h.ends) && g.Valid()
    ensures task.stateItem.container == null && task.eventItem.container == null
    ensures task.stateItem.owner == task && task.eventItem.owner == task && task.stateItem != task.eventItem
    ensures task.eventItem.value == priorities - priority
    ensures !task.delayAborted && task.notifyStates == seq(NOTIFICATIONS, i => KT.NotWaiting)
  {
    hide *;
    var stateItem, eventItem;
    stateItem, g := KH.InitialiseItem(h);
    eventItem, g := KH.InitialiseItem(g);
    task := new KT.Task(stateItem, eventItem, priority, NOTIFICATIONS);
    KH.SetOwner(stateItem, task, g);
    KH.SetValue(eventItem, EventValue(priorities, priority), g);
    KH.SetOwner(eventItem, task, g);
  }

  /** Tasks of the given priorities, with new items that are in no list, and nothing else in the memory. */
  ghost predicate Created(tasks: seq<Task>, given: seq<nat>, priorities: nat, h: KH.Heap)
    reads h.lists, h.items, h.ends
  {
    && |tasks| == |given| && h.Valid() && EmptyLists(h)
    && (forall i :: 0 <= i < |tasks| ==>
          && tasks[i].stateItem in h.items && tasks[i].eventItem in h.items
          && tasks[i].priority == given[i] < priorities <= 32)
    && (forall i :: 0 <= i < |tasks| ==>
          && tasks[i].stateItem.owner == tasks[i] && tasks[i].eventItem.owner == tasks[i]
          && tasks[i].stateItem != tasks[i].eventItem
          && tasks[i].stateItem.container == null && tasks[i].eventItem.container == null
          && tasks[i].eventItem.value == priorities - tasks[i].priority)
    && (forall i, j :: 0 <= i < j < |tasks| ==> tasks[i] != tasks[j])
  }

  lemma NobodyCreated(given: seq<nat>, priorities: nat, h: KH.Heap)
    requires h.Valid() && EmptyLists(h)
    ensures Created([], given[..0], priorities, h)
  {
  }

  lemma OneMoreCreated(tasks: seq<Task>, given: seq<nat>, priorities: nat, h: KH.Heap, task: Task, g: KH.Heap)
    requires |tasks| < |given| && Created(tasks, given[..|tasks|], priorities, h) && g.Valid()
    requires g == KH.Heap(h.lists, h.items + {task.stateItem, task.eventItem}, h.ends) && task !in tasks
    requires task.priority == given[|tasks|] < priorities <= 32
    requires task.stateItem.container == null && task.eventItem.container == null && task.stateItem != task.eventItem
    requires task.stateItem.owner == task && task.eventItem.owner == task
    requires task.eventItem.value == priorities - task.priority
    ensures Created(tasks + [task], given[..|tasks| + 1], priorities, g)
  {
  }

  lemma CreatedParts(tasks: seq<Task>, given: seq<nat>, priorities: nat, h: KH.Heap)
    requires Created(tasks, given, priorities, h)
    ensures h.Valid() && EmptyLists(h)
  {
  }

  /** Create tasks of the given priorities, one after the other. */
  method CreateTasks(given: seq<nat>, priorities: nat, ghost h: KH.Heap) returns (tasks: seq<Task>, ghost g: KH.Heap)
    requires h.Valid() && EmptyLists(h) && h.items == {} && priorities <= 32
    requires forall i :: 0 <= i < |given| ==> given[i] < priorities
    ensures Created(tasks, given, priorities, g) && g.lists == h.lists && g.ends == h.ends && fresh(g.items)
    ensures forall t :: t in tasks ==> fresh(t) && !t.delayAborted && KT.WaitingForNotification !in t.notifyStates
  {
    hide *;
    tasks, g := [], h;
    NobodyCreated(given, priorities, h);
    while |tasks| < |given|
      invariant |tasks| <= |given| && Created(tasks, given[..|tasks|], priorities, g)
      invariant g.lists == h.lists && g.ends == h.ends && fresh(g.items)
      invariant forall t :: t in tasks ==> fresh(t) && !t.delayAborted && KT.WaitingForNotification !in t.notifyStates
      decreases |given| - |tasks|
    {
      CreatedParts(tasks, given[..|tasks|], priorities, g);
      var task;
      ghost var was := g;
      task, g := CreateTask(given[|tasks|], priorities, was);
      OneMoreCreated(tasks, given, priorities, was, task, g);
      tasks := tasks + [task];
    }
    assert given[..|tasks|] == given;
  }

  // ---------- The scheduler ----------

  ghost function TaskSet(tasks: seq<Task>): set<Task> {
    set t | t in tasks
  }

  /** Ready lists by priority, then the two lists of sleepers, the pending and the suspended tasks, and event lists. */
  ghost predicate Listed(lists: seq<List>, priorities: nat, h: KH.Heap) {
    && 0 < priorities <= 32 && |lists| >= priorities + 4 && Separate(lists)
    && (forall i :: 0 <= i < |lists| ==> lists[i] in h.lists)
  }

  method CreateScheduler(lists: seq<List>, priorities: nat, tasks: seq<Task>, given: seq<nat>, initialTick: Tick, ghost h: KH.Heap)
    returns (scheduler: KT.Scheduler)
    requires Listed(lists, priorities, h) && Created(tasks, given, priorities, h) && tasks != []
    ensures fresh(scheduler) && scheduler.Valid() && scheduler.ReadyAgrees() && scheduler.current == tasks[0]
    ensures scheduler.Lists().Closed() && scheduler.Line() == Clock(initialTick, [])
    ensures |lists| >= priorities + 4 && scheduler.heap == h && scheduler.tasks == TaskSet(tasks)
    ensures scheduler.ready == lists[..priorities] && scheduler.delayed == lists[priorities]
    ensures scheduler.overflow == lists[priorities + 1] && scheduler.suspended == lists[priorities + 3]
  {
    hide *;
    BeforeScheduler(lists, priorities, tasks, given, h);
    scheduler := new KT.Scheduler(lists[..priorities], lists[priorities], lists[priorities + 1], lists[priorities + 3],
                                  tasks[0], initialTick, h, TaskSet(tasks));
  }

  lemma BeforeScheduler(lists: seq<List>, priorities: nat, tasks: seq<Task>, given: seq<nat>, h: KH.Heap)
    requires Listed(lists, priorities, h) && Created(tasks, given, priorities, h) && tasks != []
    ensures priorities <= 32 && |lists| >= priorities + 4 && h.Valid() && tasks[0] in TaskSet(tasks)
    ensures forall i :: 0 <= i < |lists| ==> lists[i] in h.lists && lists[i].ring.items == []
    ensures forall i, j :: 0 <= i < j < |lists| ==> lists[i] != lists[j]
    ensures KT.TasksPlaced(TaskSet(tasks), h, priorities)
  {
  }

  // ---------- Making the tasks ready ----------

  /** The first k tasks are ready, the others in no list; of these the last one of the highest priority will run. */
  ghost predicate Entered(s: KT.Scheduler, tasks: seq<Task>, k: nat)
    reads s, s.delayed, s.overflow, s.heap.lists, s.heap.items, s.heap.ends
  {
    && s.Valid() && s.ReadyAgrees() && s.tasks == TaskSet(tasks) && k <= |tasks| && tasks != []
    && (forall l :: l in s.heap.lists && l !in s.ready ==> l.ring == Ring([], 0))
    && (forall i :: 0 <= i < |tasks| ==> tasks[i].stateItem in s.heap.items && tasks[i].eventItem in s.heap.items)
    && (forall i :: 0 <= i < |tasks| ==>
          && tasks[i].priority < |s.ready| && tasks[i].eventItem.container == null
          && tasks[i].eventItem.value == |s.ready| - tasks[i].priority
          && tasks[i].stateItem.container == if i < k then s.ready[tasks[i].priority] else null)
    && (forall i, j :: 0 <= i < |tasks| && 0 <= j < |tasks| ==>
          tasks[i].stateItem != tasks[j].eventItem && (i != j ==> tasks[i].stateItem != tasks[j].stateItem))
    && LastHighest(tasks, if k == 0 then 1 else k, s.current)
  }

  /** The state items of the tasks of priority p, in this order. */
  ghost function OfPriority(tasks: seq<Task>, p: nat): seq<KH.ListItem> {
    if tasks == [] then [] else
      var n := |tasks| - 1;
      OfPriority(tasks[..n], p) + if tasks[n].priority == p then [tasks[n].stateItem] else []
  }

  /** The first k tasks are in the ready lists in the order of their creation. */
  ghost predicate ReadyInOrder(s: KT.Scheduler, tasks: seq<Task>, k: nat)
    reads s.heap.lists`ring
  {
    && k <= |tasks|
    && forall p :: 0 <= p < |s.ready| ==>
         s.ready[p] in s.heap.lists && s.ready[p].ring == Ring(OfPriority(tasks[..k], p), 0)
  }

  lemma OneMoreInOrder(s: KT.Scheduler, tasks: seq<Task>, k: nat, was: map<List, Ring<KH.ListItem>>)
    requires k < |tasks| && tasks[k].priority < |s.ready| && was.Keys == s.heap.lists
    requires forall p :: 0 <= p < |s.ready| ==> s.ready[p] in was && was[s.ready[p]] == Ring(OfPriority(tasks[..k], p), 0)
    requires forall i, j :: 0 <= i < j < |s.ready| ==> s.ready[i] != s.ready[j]
    requires was[s.ready[tasks[k].priority]].Valid()
    requires s.ready[tasks[k].priority].ring == was[s.ready[tasks[k].priority]].InsertEnd(tasks[k].stateItem)
    requires forall l :: l in s.heap.lists && l != s.ready[tasks[k].priority] ==> l.ring == was[l]
    ensures ReadyInOrder(s, tasks, k + 1)
  {
    assert tasks[..k + 1][..k] == tasks[..k];
  }

  lemma InOrderParts(s: KT.Scheduler, tasks: seq<Task>, k: nat)
    requires ReadyInOrder(s, tasks, k) && Entered(s, tasks, k)
    ensures var was := s.heap.Rings();
            was.Keys == s.heap.lists && (forall l :: l in was ==> was[l] == l.ring)
            && forall p :: 0 <= p < |s.ready| ==> s.ready[p] in was && was[s.ready[p]] == Ring(OfPriority(tasks[..k], p), 0)
    ensures forall i, j :: 0 <= i < j < |s.ready| ==> s.ready[i] != s.ready[j]
    ensures forall i :: 0 <= i < |tasks| ==> tasks[i].priority < |s.ready|
  {
  }

  ghost predicate IsLastHighest(tasks: seq<Task>, k: nat, c: nat, task: Task)
    requires k <= |tasks|
  {
    && c < k && tasks[c] == task
    && forall i :: 0 <= i < k ==> if i <= c then tasks[i].priority <= task.priority else tasks[i].priority < task.priority
  }

  ghost predicate LastHighest(tasks: seq<Task>, k: nat, task: Task)
    requires k <= |tasks|
  {
    exists c :: IsLastHighest(tasks, k, c, task)
  }

  lemma NobodyEntered(s: KT.Scheduler, tasks: seq<Task>, given: seq<nat>, priorities: nat)
    requires Created(tasks, given, priorities, s.heap) && tasks != [] && s.Valid() && s.ReadyAgrees()
    requires s.current == tasks[0] && s.tasks == TaskSet(tasks) && |s.ready| == priorities
    ensures Entered(s, tasks, 0)
  {
    assert IsLastHighest(tasks, 1, 0, s.current);
  }

  lemma EnteredParts(s: KT.Scheduler, tasks: seq<Task>, k: nat)
    requires Entered(s, tasks, k)
    ensures s.Valid() && s.ReadyAgrees() && k <= |tasks| && s.Lists().Closed()
    ensures k < |tasks| ==> tasks[k] in s.tasks && tasks[k].stateItem.container == null
    ensures forall l :: l in s.ready ==> l in s.heap.lists
    ensures forall i :: 0 <= i < |tasks| ==> tasks[i].eventItem in s.heap.items && tasks[i].stateItem in s.heap.items
  {
  }

  /** One more task has become ready; containers and rings as they were are given by value. */
  lemma EnteredMore(s: KT.Scheduler, tasks: seq<Task>, k: nat, was: map<KH.ListItem, KH.KL.List?>, c: Task)
    requires s.Valid() && s.ReadyAgrees() && s.tasks == TaskSet(tasks) && k < |tasks|
    requires forall l :: l in s.heap.lists && l !in s.ready ==> l.ring == Ring([], 0)
    requires forall i :: 0 <= i < |tasks| ==> tasks[i].stateItem in s.heap.items && tasks[i].eventItem in s.heap.items
    requires forall i :: 0 <= i < |tasks| ==>
               && tasks[i].priority < |s.ready| && tasks[i].eventItem in was && was[tasks[i].eventItem] == null
               && tasks[i].eventItem.value == |s.ready| - tasks[i].priority
    requires forall i :: 0 <= i < |tasks| ==>
               tasks[i].stateItem in was && was[tasks[i].stateItem] == if i < k then s.ready[tasks[i].priority] else null
    requires forall i, j :: 0 <= i < |tasks| && 0 <= j < |tasks| ==>
               tasks[i].stateItem != tasks[j].eventItem && (i != j ==> tasks[i].stateItem != tasks[j].stateItem)
    requires LastHighest(tasks, if k == 0 then 1 else k, c)
    requires tasks[k].stateItem.container == s.ready[tasks[k].priority]
    requires forall y :: y in s.heap.items && y in was && y != tasks[k].stateItem ==> y.container == was[y]
    requires s.current == if c.priority <= tasks[k].priority then tasks[k] else c
    ensures Entered(s, tasks, k + 1)
  {
    hide LastHighest, KT.Scheduler.Valid, KT.Scheduler.ReadyAgrees;
    HighestMore(tasks, k, c);
  }

  lemma HighestMore(tasks: seq<Task>, k: nat, c: Task)
    requires k < |tasks| && LastHighest(tasks, if k == 0 then 1 else k, c)
    ensures LastHighest(tasks, k + 1, if c.priority <= tasks[k].priority then tasks[k] else c)
  {
    var b :| IsLastHighest(tasks, if k == 0 then 1 else k, b, c);
    assert IsLastHighest(tasks, k + 1, if c.priority <= tasks[k].priority then k else b,
                         if c.priority <= tasks[k].priority then tasks[k] else c);
  }

  lemma EnteredSnapshot(s: KT.Scheduler, tasks: seq<Task>, k: nat)
    requires Entered(s, tasks, k)
    ensures s.tasks == TaskSet(tasks) && LastHighest(tasks, if k == 0 then 1 else k, s.current)
    ensures forall l :: l in s.heap.lists && l !in s.ready ==> l.ring == Ring([], 0)
    ensures forall i :: 0 <= i < |tasks| ==>
              && tasks[i].priority < |s.ready| && tasks[i].eventItem.container == null
              && tasks[i].eventItem.value == |s.ready| - tasks[i].priority
              && tasks[i].stateItem.container == if i < k then s.ready[tasks[i].priority] else null
    ensures forall i, j :: 0 <= i < |tasks| && 0 <= j < |tasks| ==>
              tasks[i].stateItem != tasks[j].eventItem && (i != j ==> tasks[i].stateItem != tasks[j].stateItem)
  {
  }

  ghost function Containers(h: KH.Heap): (m: map<KH.ListItem, KH.KL.List?>)
    reads h.items`container
    ensures m.Keys == h.items && forall x :: x in m ==> m[x] == x.container
  {
    map x | x in h.items :: x.container
  }

  method EnterOne(s: KT.Scheduler, tasks: seq<Task>, k: nat)
    requires Entered(s, tasks, k) && k < |tasks|
    modifies s`current, s`readyPriorities
    modifies s.heap.lists`ring, s.heap.lists`repr, s.heap.lists`numberOfItems, s.heap.items`container
    modifies s.heap.items`next, s.heap.items`previous, s.heap.ends`next, s.heap.ends`previous
    ensures Entered(s, tasks, k + 1) && old(s.Lists().Closed()) && s.Lists().Closed() && s.Line() == old(s.Line())
    ensures old(ReadyInOrder(s, tasks, k)) ==> ReadyInOrder(s, tasks, k + 1)
  {
    hide *;
    EnteredParts(s, tasks, k);
    EnteredSnapshot(s, tasks, k);
    ghost var was, c, rings, ordered := Containers(s.heap), s.current, s.heap.Rings(), ReadyInOrder(s, tasks, k);
    if ordered {
      InOrderParts(s, tasks, k);
    }
    s.AddNewTaskToReadyList(tasks[k]);
    s.CountStarts();
    if ordered {
      OneMoreInOrder(s, tasks, k, rings);
    }
    EnteredMore(s, tasks, k, was, c);
  }

  method EnterAll(s: KT.Scheduler, tasks: seq<Task>)
    requires Entered(s, tasks, 0)
    modifies s`current, s`readyPriorities
    modifies s.heap.lists`ring, s.heap.lists`repr, s.heap.lists`numberOfItems, s.heap.items`container
    modifies s.heap.items`next, s.heap.items`previous, s.heap.ends`next, s.heap.ends`previous
    ensures Entered(s, tasks, |tasks|) && old(s.Lists().Closed()) && s.Lists().Closed() && s.Line() == old(s.Line())
    ensures old(ReadyInOrder(s, tasks, 0)) ==> ReadyInOrder(s, tasks, |tasks|)
  {
    hide *;
    EnteredParts(s, tasks, 0);
    var k := 0;
    while k < |tasks|
      invariant 0 <= k <= |tasks| && Entered(s, tasks, k) && s.Lists().Closed() && s.Line() == old(s.Line())
      invariant old(ReadyInOrder(s, tasks, 0)) ==> ReadyInOrder(s, tasks, k)
    {
      EnterOne(s, tasks, k);
      k := k + 1;
    }
  }

  // ---------- The kernel ----------

  lemma AllEntered(s: KT.Scheduler, tasks: seq<Task>, given: seq<nat>, lists: seq<List>, priorities: nat, idle: nat, events: set<List>)
    requires Entered(s, tasks, |tasks|) && |tasks| == |given| && idle < |tasks| && tasks[idle].priority == 0
    requires Listed(lists, priorities, s.heap) && s.ready == lists[..priorities] && s.delayed == lists[priorities]
    requires s.overflow == lists[priorities + 1] && s.suspended == lists[priorities + 3]
    requires |lists| >= priorities + 4 && events == Members(lists[priorities + 4..])
    ensures TC.Kernel.Quiet(s, lists[priorities + 2], events, tasks[idle]) && s.Lists().Closed()
    ensures s.current.priority < |s.ready| && LastHighest(tasks, |tasks|, s.current)
    ensures s.current.stateItem.container == s.ready[s.current.priority]
  {
    NotReady(lists, priorities);
    var c :| IsLastHighest(tasks, |tasks|, c, s.current);
    EnteredParts(s, tasks, |tasks|);
  }

  lemma NotReady(lists: seq<List>, priorities: nat)
    requires |lists| >= priorities + 4 && Separate(lists)
    ensures forall i :: priorities <= i < |lists| ==> lists[i] !in lists[..priorities]
  {
  }

  lemma EventCount(lists: seq<List>, k: nat)
    requires k <= |lists| && Separate(lists)
    ensures |Members(lists[k..])| == |lists| - k
  {
    DistinctCount(lists[k..]);
  }

  lemma NobodyInOrder(s: KT.Scheduler, tasks: seq<Task>, given: seq<nat>, priorities: nat)
    requires Created(tasks, given, priorities, s.heap) && s.Valid() && s.ReadyAgrees()
    ensures ReadyInOrder(s, tasks, 0)
  {
  }

  lemma NobodyWaits(s: KT.Scheduler, tasks: seq<Task>)
    requires Entered(s, tasks, |tasks|)
    ensures forall t :: t in tasks ==>
              && t.priority < |s.ready| && t.stateItem.container == s.ready[t.priority] && t.eventItem.container == null
  {
  }

  /** The scheduler with its tasks, all of them ready, and the kernel around it. */
  method StartKernel(lists: seq<List>, priorities: nat, tasks: seq<Task>, given: seq<nat>, idle: nat, initialTick: Tick, ghost g: KH.Heap)
    returns (kernel: TC.Kernel)
    requires Listed(lists, priorities, g) && Created(tasks, given, priorities, g) && |tasks| == |given|
    requires idle < |tasks| && tasks[idle].priority == 0
    modifies g.lists`ring, g.lists`repr, g.lists`numberOfItems, g.items`container
    modifies g.items`next, g.items`previous, g.ends`next, g.ends`previous
    ensures fresh(kernel) && fresh(kernel.scheduler) && kernel.scheduler.heap == g
    ensures kernel.Valid() && kernel.Running() && kernel.scheduler.tasks == TaskSet(tasks)
    ensures kernel.schedulerSuspended == 0 && kernel.history == [] && kernel.start == Clock(initialTick, [])
    ensures kernel.pendedTicks == 0 && !kernel.yieldPending && forall p :: 0 <= p < |kernel.turns| ==> kernel.turns[p] == []
    ensures ReadyInOrder(kernel.scheduler, tasks, |tasks|)
    ensures forall t :: t in tasks ==>
              && t.priority < |kernel.scheduler.ready| && t.eventItem.container == null
              && t.stateItem.container == kernel.scheduler.ready[t.priority]
    ensures |lists| >= priorities + 4 && kernel.order.idle == tasks[idle]
    ensures kernel.order.events == Members(lists[priorities + 4..])
    ensures LastHighest(tasks, |tasks|, kernel.scheduler.current)
    ensures kernel.scheduler.Lists().Closed() && kernel.scheduler.Line() == Clock(initialTick, [])
  {
    hide *;
    var scheduler := CreateScheduler(lists, priorities, tasks, given, initialTick, g);
    NobodyEntered(scheduler, tasks, given, priorities);
    NobodyInOrder(scheduler, tasks, given, priorities);
    EnterAll(scheduler, tasks);
    NobodyWaits(scheduler, tasks);
    ghost var events := Members(lists[priorities + 4..]);
    AllEntered(scheduler, tasks, given, lists, priorities, idle, events);
    kernel := new TC.Kernel(scheduler, lists[priorities + 2], events, tasks[idle]);
    kernel.Begins();
    kernel.RunningIs();
  }

  /** Lists and tasks, before there is a kernel. */
  method CreateAll(priorities: nat, given: seq<nat>, idle: nat, events: nat)
    returns (lists: seq<List>, tasks: seq<Task>, ghost g: KH.Heap)
    requires 0 < priorities <= 32 && idle < |given| && given[idle] == 0
    requires forall i :: 0 <= i < |given| ==> given[i] < priorities
    ensures Listed(lists, priorities, g) && Created(tasks, given, priorities, g) && |tasks| == |given|
    ensures fresh(g.lists) && fresh(g.items) && fresh(g.ends)
    ensures forall t :: t in tasks ==> fresh(t) && !t.delayAborted && KT.WaitingForNotification !in t.notifyStates
    ensures forall i :: 0 <= i < |tasks| ==> tasks[i].priority == given[i]
    ensures |lists| >= priorities + 4 && |Members(lists[priorities + 4..])| == |lists[priorities + 4..]| == events
  {
    hide *;
    ghost var h;
    lists, h := InitialiseLists(priorities + 4 + events);
    FreshIsValid(lists, h);
    tasks, g := CreateTasks(given, priorities, h);
    CreatedIs(lists, priorities, tasks, given, g, idle);
    EventCount(lists, priorities + 4);
  }

  /** Tasks of the given priorities are created in this order, among them the idle task, and the scheduler is started:
      of the tasks of the highest priority the last one created runs. */
  method Start(priorities: nat, given: seq<nat>, idle: nat, events: nat, initialTick: Tick)
    returns (kernel: TC.Kernel, tasks: seq<Task>, eventLists: seq<List>)
    requires 0 < priorities <= 32 && idle < |given| && given[idle] == 0
    requires forall i :: 0 <= i < |given| ==> given[i] < priorities
    ensures fresh(kernel) && fresh(kernel.scheduler)
    ensures forall t :: t in tasks ==> fresh(t) && !t.delayAborted && KT.WaitingForNotification !in t.notifyStates
    ensures fresh(kernel.scheduler.heap.lists) && fresh(kernel.scheduler.heap.items) && fresh(kernel.scheduler.heap.ends)
    ensures kernel.Valid() && kernel.Running() && kernel.scheduler.tasks == TaskSet(tasks)
    ensures kernel.schedulerSuspended == 0 && kernel.history == [] && kernel.start == Clock(initialTick, [])
    ensures kernel.pendedTicks == 0 && !kernel.yieldPending && forall p :: 0 <= p < |kernel.turns| ==> kernel.turns[p] == []
    ensures ReadyInOrder(kernel.scheduler, tasks, |tasks|)
    ensures forall t :: t in tasks ==>
              && t.priority < |kernel.scheduler.ready| && t.eventItem.container == null
              && t.stateItem.container == kernel.scheduler.ready[t.priority]
    ensures |tasks| == |given| && kernel.order.idle == tasks[idle]
    ensures |eventLists| == |kernel.order.events| == events && kernel.order.events == Members(eventLists)
    ensures forall i :: 0 <= i < |tasks| ==> tasks[i].priority == given[i]
    ensures LastHighest(tasks, |tasks|, kernel.scheduler.current)
    ensures kernel.scheduler.Lists().Closed() && kernel.scheduler.Line() == Clock(initialTick, [])
  {
    hide *;
    var lists;
    ghost var g;
    lists, tasks, g := CreateAll(priorities, given, idle, events);
    eventLists := lists[priorities + 4..];
    kernel := StartKernel(lists, priorities, tasks, given, idle, initialTick, g);
  }

  lemma CreatedIs(lists: seq<List>, priorities: nat, tasks: seq<Task>, given: seq<nat>, h: KH.Heap, idle: nat)
    requires Created(tasks, given, priorities, h) && 0 < priorities <= 32 && |lists| >= priorities + 4 && Separate(lists)
    requires (forall i :: 0 <= i < |lists| ==> lists[i] in h.lists) && idle < |given|
    ensures Listed(lists, priorities, h) && |tasks| == |given|
    ensures forall i :: 0 <= i < |tasks| ==> tasks[i].priority == given[i]
  {
  }
}
