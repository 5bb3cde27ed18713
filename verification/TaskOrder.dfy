/** What is in order among the tasks: event lists have the highest priority first, every ready list is explained by the
    turns taken on it, and the idle task is ready. Here is what the operations on lists keep of this. */
module TaskOrder {
  import opened Sequences
  import opened RoundRobin
  import opened SortedInsertion
  import opened ListTable
  import KH = KernelHeap
  import KT = KernelTime

  type List = KH.List
  type ListItem = KH.ListItem
  type Scheduler = KT.Scheduler
  type Task = KT.Task
  type Image = KT.Image
  type Turns = seq<seq<Step<ListItem>>>

  /** The event lists, the idle task, and the ready lists at the start. */
  datatype Order = Order(events: set<List>, idle: Task, first: seq<Ring<ListItem>>)

  // ---------- Event lists ----------

  ghost predicate OfTask(s: Scheduler, x: ListItem) {
    exists u :: u in s.tasks && u.eventItem == x
  }

  /** Event lists hold event items in ascending order of value, and the value is the complement of the priority. */
  ghost predicate EventsIn(s: Scheduler, o: Order, t: Image) {
    && t.Valid() && |s.ready| <= 32
    && (forall l :: l in o.events ==> l in t.rings && l !in s.ready && l != s.suspended)
    && (forall l :: l in o.events ==> Sorted(t.ValuesOf(l)) && forall x :: x in t.rings[l].items ==> OfTask(s, x))
    && (forall u :: u in s.tasks ==> u.priority < |s.ready| && u.eventItem in t.values)
    && (forall u :: u in s.tasks ==> t.values[u.eventItem] == |s.ready| - u.priority)
  }

  lemma EventsSame(s: Scheduler, o: Order, t: Image, u: Image)
    requires EventsIn(s, o, t) && u.Valid()
    requires forall l :: l in o.events ==> l in u.rings && u.rings[l] == t.rings[l]
    requires forall v :: v in s.tasks ==> v.eventItem in u.values && u.values[v.eventItem] == t.values[v.eventItem]
    ensures EventsIn(s, o, u)
  {
    forall l | l in o.events ensures u.ValuesOf(l) == t.ValuesOf(l) {
      forall i | 0 <= i < |t.rings[l].items| ensures u.ValuesOf(l)[i] == t.ValuesOf(l)[i] {
        assert OfTask(s, t.rings[l].items[i]);
      }
    }
  }

  /** An event item goes to its place in an event list, any other item into any other list; or an item leaves its list. */
  ghost predicate KeepsEvents(s: Scheduler, o: Order, c: Command<List, ListItem>) {
    match c
    case Advance(l) => l !in o.events
    case Append(l, _) => l !in o.events
    case Sort(l, x) => l in o.events ==> OfTask(s, x)
    case Take(_) => true
  }

  lemma TakenInOrder(t: Image, x: ListItem, l: List)
    requires t.Valid() && Permitted(t, Take(x)) && t.Holder(x) == l && Sorted(t.ValuesOf(l))
    ensures Effect(t, Take(x)).Valid() && l in Effect(t, Take(x)).rings
    ensures Sorted(Effect(t, Take(x)).ValuesOf(l))
    ensures forall y :: y in Effect(t, Take(x)).rings[l].items ==> y in t.rings[l].items
  {
    EffectValid(t, Take(x));
    var k := IndexOf(t.rings[l].items, x);
    assert Effect(t, Take(x)).ValuesOf(l) == Erase(t.ValuesOf(l), k);
    EraseKeepsSorted(t.ValuesOf(l), k);
  }

  lemma SortedInOrder(t: Image, x: ListItem, l: List)
    requires t.Valid() && Permitted(t, Sort(l, x)) && Sorted(t.ValuesOf(l))
    ensures Effect(t, Sort(l, x)).Valid() && l in Effect(t, Sort(l, x)).rings
    ensures Sorted(Effect(t, Sort(l, x)).ValuesOf(l))
    ensures forall y :: y in Effect(t, Sort(l, x)).rings[l].items ==> y in t.rings[l].items || y == x
  {
    hide Sorted, Table.Valid, InsertPosition;
    EffectValid(t, Sort(l, x));
    var vs, v := t.ValuesOf(l), t.values[x];
    SortedValuesAre(t, x, l);
    InsertKeepsSorted(vs, v);
  }

  lemma SortedValuesAre(t: Image, x: ListItem, l: List)
    requires t.Valid() && Permitted(t, Sort(l, x)) && Effect(t, Sort(l, x)).Valid() && l in Effect(t, Sort(l, x)).rings
    ensures var vs, v := t.ValuesOf(l), t.values[x];
            Effect(t, Sort(l, x)).ValuesOf(l) == InsertAt(vs, InsertPosition(vs, v), v)
  {
    hide InsertPosition;
  }

  lemma OtherInOrder(t: Image, c: Command<List, ListItem>, l: List)
    requires t.Valid() && Permitted(t, c) && l in t.rings && l != Target(t, c)
    ensures Effect(t, c).Valid() && l in Effect(t, c).rings && Effect(t, c).rings[l] == t.rings[l]
    ensures Effect(t, c).ValuesOf(l) == t.ValuesOf(l)
  {
    EffectValid(t, c);
    EffectRing(t, c);
  }

  lemma EventsCommand(s: Scheduler, o: Order, t: Image, c: Command<List, ListItem>)
    requires EventsIn(s, o, t) && Permitted(t, c) && KeepsEvents(s, o, c)
    ensures EventsIn(s, o, Effect(t, c))
  {
    hide Effect, Sorted, Permitted, Table.Valid;
    EffectValid(t, c);
    EffectRing(t, c);
    var m := Target(t, c);
    forall l | l in o.events
      ensures l in Effect(t, c).rings && Sorted(Effect(t, c).ValuesOf(l))
      ensures forall x :: x in Effect(t, c).rings[l].items ==> OfTask(s, x)
    {
      if l != m {
        OtherInOrder(t, c, l);
      } else if c.Take? {
        TakenInOrder(t, c.item, l);
      } else {
        SortedInOrder(t, c.item, l);
      }
    }
  }

  /** The first task of an event list has the highest priority of those waiting there. */
  lemma FirstIsHighest(s: Scheduler, o: Order, t: Image, l: List, first: Task)
    requires EventsIn(s, o, t) && l in o.events && t.rings[l].items != []
    requires first in s.tasks && first.eventItem == t.rings[l].items[0]
    ensures forall u :: u in s.tasks && u.eventItem in t.rings[l].items ==> u.priority <= first.priority
  {
    var items := t.rings[l].items;
    forall u | u in s.tasks && u.eventItem in items ensures u.priority <= first.priority {
      var i :| 0 <= i < |items| && items[i] == u.eventItem;
      assert i == 0 || Ordered(0, i);
      assert t.ValuesOf(l)[0] <= t.ValuesOf(l)[i];
    }
  }

  /** A newcomer goes behind those of its own or a higher priority, and before those of a lower one. */
  lemma EntersByPriority(s: Scheduler, o: Order, t: Image, l: List, task: Task)
    requires EventsIn(s, o, t) && l in o.events && task in s.tasks
    ensures var p := InsertPosition(t.ValuesOf(l), t.values[task.eventItem]);
            forall u, i :: u in s.tasks && 0 <= i < |t.rings[l].items| && t.rings[l].items[i] == u.eventItem ==>
              (i < p <==> u.priority >= task.priority)
  {
    var vs, v := t.ValuesOf(l), t.values[task.eventItem];
    var p := InsertPosition(vs, v);
    forall u, i | u in s.tasks && 0 <= i < |t.rings[l].items| && t.rings[l].items[i] == u.eventItem
      ensures i < p <==> u.priority >= task.priority
    {
      assert vs[i] == |s.ready| - u.priority;
      assert i > p ==> Ordered(p, i);
    }
  }

  // ---------- Turns ----------

  /** The ready lists are what the turns taken since the start have made of them. */
  ghost predicate TurnsIn(s: Scheduler, o: Order, rings: map<List, Ring<ListItem>>, turns: Turns) {
    && |turns| == |o.first| == |s.ready|
    && (forall i, j :: 0 <= i < j < |s.ready| ==> s.ready[i] != s.ready[j])
    && (forall p :: 0 <= p < |s.ready| ==> s.ready[p] in rings && o.first[p].Valid() && AllAllowed(o.first[p], turns[p]))
    && (forall p :: 0 <= p < |s.ready| ==> AfterSteps(o.first[p], turns[p]) == rings[s.ready[p]])
  }

  function Turn(turns: Turns, p: nat, step: Step<ListItem>): Turns
    requires p < |turns|
  {
    turns[p := turns[p] + [step]]
  }

  /** One step on the ready list of priority p, and none on the others. */
  lemma TurnsStep(s: Scheduler, o: Order, rings: map<List, Ring<ListItem>>, now: map<List, Ring<ListItem>>, turns: Turns,
                  p: nat, step: Step<ListItem>)
    requires TurnsIn(s, o, rings, turns) && p < |s.ready| && rings[s.ready[p]].Valid() && Allowed(rings[s.ready[p]], step)
    requires s.ready[p] in now && now[s.ready[p]] == Apply(rings[s.ready[p]], step)
    requires forall q :: 0 <= q < |s.ready| && q != p ==> s.ready[q] in now && now[s.ready[q]] == rings[s.ready[q]]
    ensures TurnsIn(s, o, now, Turn(turns, p, step))
  {
    StepAppended(o.first[p], turns[p], step);
  }

  lemma TurnsSame(s: Scheduler, o: Order, rings: map<List, Ring<ListItem>>, now: map<List, Ring<ListItem>>, turns: Turns)
    requires TurnsIn(s, o, rings, turns)
    requires forall q :: 0 <= q < |s.ready| ==> s.ready[q] in now && now[s.ready[q]] == rings[s.ready[q]]
    ensures TurnsIn(s, o, now, turns)
  {
  }

  // ---------- Waking, as a change of places ----------

  ghost predicate BlockedIn(s: Scheduler, t: Image) {
    forall u, l :: u in s.tasks && l in t.rings && t.Holds(l, u.eventItem) ==>
      exists m :: m in t.rings && m !in s.ready && t.Holds(m, u.stateItem)
  }

  /** Waking a task puts its state item into its ready list and its event item nowhere; no other item moves. */
  lemma WakingPlaces(s: Scheduler, t: Image, task: Task, l: List, y: ListItem)
    requires task.priority < |s.ready| && task.stateItem != task.eventItem
    requires Runs(t, s.WakeCommands(t, task))
    ensures s.Waking(t, task).Valid()
    ensures s.Waking(t, task).Holds(l, y) <==>
            if y == task.stateItem then l == s.ready[task.priority] else y != task.eventItem && t.Holds(l, y)
    ensures l in t.rings && l != s.ready[task.priority]
              && !t.Holds(l, task.stateItem) && !t.Holds(l, task.eventItem) ==>
            l in s.Waking(t, task).rings && s.Waking(t, task).rings[l] == t.rings[l]
  {
    var x, e, r := task.stateItem, task.eventItem, s.ready[task.priority];
    var first: seq<Command<List, ListItem>> := [Take(x)];
    var second: seq<Command<List, ListItem>> := if t.Listed(e) then [Take(e)] else [];
    var third: seq<Command<List, ListItem>> := [Append(r, x)];
    RunsConcat(t, first + second, third);
    RunsConcat(t, first, second);
    OneCommand(t, Take(x), l, y);
    if second != [] {
      OneCommand(Final(t, first), Take(e), l, y);
      OneCommand(t, Take(x), l, e);
    }
    OneCommand(Final(t, first + second), Append(r, x), l, y);
  }

  lemma OneCommand(t: Image, c: Command<List, ListItem>, l: List, y: ListItem)
    requires Runs(t, [c])
    ensures Permitted(t, c) && Final(t, [c]) == Effect(t, c)
    ensures Effect(t, c).Holds(l, y) <==>
            if c.Advance? || y != c.item then t.Holds(l, y) else !c.Take? && l == c.list
    ensures l in t.rings && (if c.Take? then !t.Holds(l, c.item) else l != c.list) ==>
            l in Effect(t, c).rings && Effect(t, c).rings[l] == t.rings[l]
  {
    EffectPlaces(t, c, l, y);
    EffectValid(t, c);
    RunsOne(t, c);
    EffectRing(t, c);
  }

  lemma WakingBlocked(s: Scheduler, t: Image, task: Task)
    requires BlockedIn(s, t) && t.Valid() && KT.TasksPlaced(s.tasks, s.heap, |s.ready|)
    requires task in s.tasks
    ensures BlockedIn(s, s.Waking(t, task)) && s.Waking(t, task).Valid()
  {
    var w := s.Waking(t, task);
    if Runs(t, s.WakeCommands(t, task)) {
      forall u, l | u in s.tasks && l in w.rings && w.Holds(l, u.eventItem)
        ensures exists m :: m in w.rings && m !in s.ready && w.Holds(m, u.stateItem)
      {
        WakingPlaces(s, t, task, l, u.eventItem);
        var m :| m in t.rings && m !in s.ready && t.Holds(m, u.stateItem);
        WakingPlaces(s, t, task, m, u.stateItem);
      }
      WakingPlaces(s, t, task, s.suspended, task.stateItem);
    }
  }

  /** After any number of wake-ups, the tasks in event lists are blocked, and an empty list is still empty. */
  lemma {:induction false} AfterWakingBlocked(s: Scheduler, t: Image, woken: seq<Task>, l: List)
    requires BlockedIn(s, t) && t.Valid() && KT.TasksPlaced(s.tasks, s.heap, |s.ready|)
    requires forall task :: task in woken ==> task in s.tasks
    requires l in t.rings && l !in s.ready && t.rings[l].items == []
    ensures var w := s.AfterWaking(t, woken);
            w.Valid() && BlockedIn(s, w) && l in w.rings && w.rings[l] == t.rings[l]
    decreases |woken|
  {
    if woken == [] {
    } else {
      var n := |woken| - 1;
      AfterWakingBlocked(s, t, woken[..n], l);
      var u := s.AfterWaking(t, woken[..n]);
      WakingBlocked(s, u, woken[n]);
      if Runs(u, s.WakeCommands(u, woken[n])) {
        WakingPlaces(s, u, woken[n], l, woken[n].stateItem);
      }
    }
  }

  // ---------- Waking ----------

  /** No event item is in a ready list. */
  ghost predicate EventsApart(s: Scheduler, t: Image) {
    forall u, p :: u in s.tasks && 0 <= p < |s.ready| ==> !t.Holds(s.ready[p], u.eventItem)
  }

  ghost predicate IdleIn(s: Scheduler, o: Order, t: Image) {
    && o.idle in s.tasks && o.idle.priority == 0 && |s.ready| > 0 && s.ready[0] in t.rings
    && t.Holds(s.ready[0], o.idle.stateItem)
  }

  ghost predicate Orderly(s: Scheduler, o: Order, t: Image, turns: Turns) {
    EventsIn(s, o, t) && TurnsIn(s, o, t.rings, turns) && EventsApart(s, t) && IdleIn(s, o, t)
  }

  lemma OrderlyIs(s: Scheduler, o: Order, t: Image, turns: Turns)
    requires EventsIn(s, o, t) && TurnsIn(s, o, t.rings, turns) && EventsApart(s, t) && IdleIn(s, o, t)
    ensures Orderly(s, o, t, turns)
  {
  }

  // ---------- What a wake-up keeps ----------

  /** A blocked task can be woken. */
  lemma WakeRuns(s: Scheduler, t: Image, task: Task)
    requires t.Valid() && task.priority < |s.ready| && s.ready[task.priority] in t.rings
    requires task.stateItem != task.eventItem && t.Listed(task.stateItem)
    ensures Runs(t, s.WakeCommands(t, task))
  {
    var x, e, r := task.stateItem, task.eventItem, s.ready[task.priority];
    var first: seq<Command<List, ListItem>> := [Take(x)];
    var second: seq<Command<List, ListItem>> := if t.Listed(e) then [Take(e)] else [];
    var third: seq<Command<List, ListItem>> := [Append(r, x)];
    HeldIsValued(t, x);
    RunsOne(t, Take(x));
    TakenNowhere(t, x);
    ListedKept(t, Take(x), e);
    var u := Effect(t, Take(x));
    EffectValid(t, Take(x));
    EffectRing(t, Take(x));
    if second != [] {
      RunsOne(u, Take(e));
      ListedKept(u, Take(e), x);
      EffectValid(u, Take(e));
      EffectRing(u, Take(e));
    }
    RunsConcat(t, first, second);
    RunsOne(Final(t, first + second), Append(r, x));
    RunsConcat(t, first + second, third);
  }

  lemma HeldIsValued(t: Image, x: ListItem)
    requires t.Valid() && t.Listed(x)
    ensures x in t.values
  {
    assert x in t.rings[t.Holder(x)].items;
  }

  lemma TakenNowhere(t: Image, x: ListItem)
    requires t.Valid() && t.Listed(x)
    ensures !Effect(t, Take(x)).Listed(x)
  {
    forall l ensures !Effect(t, Take(x)).Holds(l, x) {
      EffectPlaces(t, Take(x), l, x);
    }
  }

  /** What a wake-up does to the ready lists: the task joins its own, the others stay as they are. */
  lemma WakingReady(s: Scheduler, t: Image, task: Task)
    requires task.priority < |s.ready| && task.stateItem != task.eventItem && Runs(t, s.WakeCommands(t, task))
    requires forall i, j :: 0 <= i < j < |s.ready| ==> s.ready[i] != s.ready[j]
    requires forall p :: 0 <= p < |s.ready| ==> s.ready[p] in t.rings
    requires forall p :: 0 <= p < |s.ready| ==> !t.Holds(s.ready[p], task.stateItem) && !t.Holds(s.ready[p], task.eventItem)
    ensures var l, w := s.ready[task.priority], s.Waking(t, task);
            && t.rings[l].cursor <= |t.rings[l].items| && Allowed(t.rings[l], Added(task.stateItem))
            && l in w.rings && w.rings[l] == Apply(t.rings[l], Added(task.stateItem))
            && forall q :: 0 <= q < |s.ready| && q != task.priority ==>
                 s.ready[q] in w.rings && w.rings[s.ready[q]] == t.rings[s.ready[q]]
  {
    var l := s.ready[task.priority];
    var x, e := task.stateItem, task.eventItem;
    var first: seq<Command<List, ListItem>> := [Take(x)];
    var second: seq<Command<List, ListItem>> := if t.Listed(e) then [Take(e)] else [];
    var third: seq<Command<List, ListItem>> := [Append(l, x)];
    RunsConcat(t, first + second, third);
    RunsConcat(t, first, second);
    OneCommand(t, Take(x), l, e);
    if second != [] {
      OneCommand(Final(t, first), Take(e), l, e);
    }
    OneCommand(Final(t, first + second), Append(l, x), l, x);
    forall q | 0 <= q < |s.ready| && q != task.priority
      ensures s.ready[q] in s.Waking(t, task).rings && s.Waking(t, task).rings[s.ready[q]] == t.rings[s.ready[q]]
    {
      WakingPlaces(s, t, task, s.ready[q], x);
    }
  }

  /** The task is blocked: its state item is in a list other than the ready lists. */
  ghost predicate IsBlocked(s: Scheduler, t: Image, task: Task) {
    t.Listed(task.stateItem) && forall p :: 0 <= p < |s.ready| ==> !t.Holds(s.ready[p], task.stateItem)
  }

  lemma WakingEvents(s: Scheduler, o: Order, t: Image, task: Task)
    requires EventsIn(s, o, t) && task.priority < |s.ready| && Runs(t, s.WakeCommands(t, task))
    ensures EventsIn(s, o, s.Waking(t, task))
  {
    hide EventsIn;
    var x, e, r := task.stateItem, task.eventItem, s.ready[task.priority];
    var first: seq<Command<List, ListItem>> := [Take(x)];
    var second: seq<Command<List, ListItem>> := if t.Listed(e) then [Take(e)] else [];
    var third: seq<Command<List, ListItem>> := [Append(r, x)];
    RunsConcat(t, first + second, third);
    RunsConcat(t, first, second);
    EventsCommand(s, o, t, Take(x));
    if second != [] {
      EventsCommand(s, o, Final(t, first), Take(e));
    }
    NotAnEventList(s, o, t, r);
    EventsCommand(s, o, Final(t, first + second), Append(r, x));
  }

  lemma NotAnEventList(s: Scheduler, o: Order, t: Image, l: List)
    requires EventsIn(s, o, t) && l in s.ready
    ensures l !in o.events
  {
  }

  lemma WakingApart(s: Scheduler, o: Order, t: Image, task: Task)
    requires IsBlocked(s, t, task) && task in s.tasks && task.priority < |s.ready| && Runs(t, s.WakeCommands(t, task))
    requires forall u, v :: u in s.tasks && v in s.tasks ==> u.stateItem != v.eventItem
    requires EventsApart(s, t) && IdleIn(s, o, t)
    ensures EventsApart(s, s.Waking(t, task)) && IdleIn(s, o, s.Waking(t, task))
  {
    var w := s.Waking(t, task);
    forall u, p | u in s.tasks && 0 <= p < |s.ready| ensures !w.Holds(s.ready[p], u.eventItem) {
      WakingPlaces(s, t, task, s.ready[p], u.eventItem);
    }
    WakingPlaces(s, t, task, s.ready[0], o.idle.stateItem);
  }

  ghost function Joined(turns: Turns, task: Task): Turns
    requires task.priority < |turns|
  {
    Turn(turns, task.priority, Added(task.stateItem))
  }

  /** A blocked task is woken: everything stays in order, and the turns have one step more. */
  lemma OrderlyWaking(s: Scheduler, o: Order, t: Image, turns: Turns, task: Task)
    requires Orderly(s, o, t, turns) && task in s.tasks && IsBlocked(s, t, task)
    requires forall u, v :: u in s.tasks && v in s.tasks ==> u.stateItem != v.eventItem
    ensures task.priority < |turns| == |s.ready| && Runs(t, s.WakeCommands(t, task))
    ensures Orderly(s, o, s.Waking(t, task), Joined(turns, task))
  {
    hide EventsIn, Runs, Table.Valid;
    OrderlyParts(s, o, t, turns);
    WakeRuns(s, t, task);
    WakingEvents(s, o, t, task);
    WakingApart(s, o, t, task);
    WakingReady(s, t, task);
    RingValid(t, s.ready[task.priority]);
    TurnsStep(s, o, t.rings, s.Waking(t, task).rings, turns, task.priority, Added(task.stateItem));
  }

  lemma RingValid(t: Image, l: List)
    requires t.Valid() && l in t.rings
    ensures t.rings[l].Valid()
  {
  }

  lemma OrderlyParts(s: Scheduler, o: Order, t: Image, turns: Turns)
    requires Orderly(s, o, t, turns)
    ensures t.Valid() && |turns| == |s.ready| && (forall u :: u in s.tasks ==> u.priority < |s.ready|)
    ensures forall p :: 0 <= p < |s.ready| ==> s.ready[p] in t.rings
  {
  }

  lemma TurnsOf(s: Scheduler, o: Order, t: Image, turns: Turns, p: nat)
    requires Orderly(s, o, t, turns) && p < |turns|
    ensures |o.first| == |turns| == |s.ready| && s.ready[p] in t.rings && o.first[p].Valid()
    ensures AllAllowed(o.first[p], turns[p]) && AfterSteps(o.first[p], turns[p]) == t.rings[s.ready[p]]
  {
  }

  /** The turns of each list go on; a choice from the list of priority p is the one get-next call among them. */
  lemma TurnGoesOn(turns: Turns, p: nat, step: Step<ListItem>)
    requires p < |turns|
    ensures forall q :: 0 <= q < |turns| ==> turns[q] <= Turn(turns, p, step)[q]
    ensures forall q :: 0 <= q < |turns| ==>
              Gets(Turn(turns, p, step)[q]) == Gets(turns[q]) + if q == p && step.GetNext? then 1 else 0
  {
    GetsConcat(turns[p], [step]);
  }

  /** Tasks that become ready take no turn. */
  lemma {:induction false} JoiningTakesNoTurn(turns: Turns, woken: seq<Task>)
    requires forall u :: u in woken ==> u.priority < |turns|
    ensures forall q :: 0 <= q < |turns| ==>
              turns[q] <= AllJoined(turns, woken)[q] && Gets(AllJoined(turns, woken)[q]) == Gets(turns[q])
    decreases |woken|
  {
    if woken == [] {
    } else {
      var n := |woken| - 1;
      JoiningTakesNoTurn(turns, woken[..n]);
      TurnGoesOn(AllJoined(turns, woken[..n]), woken[n].priority, Added(woken[n].stateItem));
    }
  }

  // ---------- Many wake-ups ----------

  ghost function AllJoined(turns: Turns, woken: seq<Task>): (r: Turns)
    requires forall u :: u in woken ==> u.priority < |turns|
    ensures |r| == |turns|
  {
    if woken == [] then turns else
      var n := |woken| - 1;
      Joined(AllJoined(turns, woken[..n]), woken[n])
  }

  lemma {:induction false} AllJoinedMore(turns: Turns, a: seq<Task>, b: seq<Task>)
    requires (forall u :: u in a ==> u.priority < |turns|) && (forall u :: u in b ==> u.priority < |turns|)
    ensures AllJoined(AllJoined(turns, a), b) == AllJoined(turns, a + b)
    decreases |b|
  {
    if b == [] {
      assert a + b == a;
    } else {
      var n := |b| - 1;
      AllJoinedMore(turns, a, b[..n]);
      assert (a + b)[..|a + b| - 1] == a + b[..n];
    }
  }

  /** Different blocked tasks. */
  ghost predicate AllBlocked(s: Scheduler, t: Image, woken: seq<Task>) {
    && (forall u :: u in woken ==> u in s.tasks && IsBlocked(s, t, u))
    && (forall i, j :: 0 <= i < j < |woken| ==> woken[i].stateItem != woken[j].stateItem)
  }

  /** Waking one task leaves the others blocked. */
  lemma StillBlocked(s: Scheduler, t: Image, task: Task, u: Task)
    requires task.priority < |s.ready| && Runs(t, s.WakeCommands(t, task)) && task.stateItem != task.eventItem
    requires IsBlocked(s, t, u) && u.stateItem != task.stateItem && u.stateItem != task.eventItem
    ensures IsBlocked(s, s.Waking(t, task), u)
  {
    var l := t.Holder(u.stateItem);
    WakingPlaces(s, t, task, l, u.stateItem);
    assert s.Waking(t, task).Holds(l, u.stateItem);
    KeysStay(s, t, task);
    forall p | 0 <= p < |s.ready| ensures !s.Waking(t, task).Holds(s.ready[p], u.stateItem) {
      WakingPlaces(s, t, task, s.ready[p], u.stateItem);
    }
  }

  lemma KeysStay(s: Scheduler, t: Image, task: Task)
    requires task.priority < |s.ready| && Runs(t, s.WakeCommands(t, task))
    ensures s.Waking(t, task).rings.Keys == t.rings.Keys && s.Waking(t, task).values == t.values
  {
    FinalKeys(t, s.WakeCommands(t, task));
  }

  lemma {:induction false} FinalKeys(t: Image, cs: seq<Command<List, ListItem>>)
    requires Runs(t, cs)
    ensures Final(t, cs).rings.Keys == t.rings.Keys && Final(t, cs).values == t.values
    decreases |cs|
  {
    if cs == [] {
    } else {
      EffectRing(t, cs[0]);
      EffectValid(t, cs[0]);
      FinalKeys(Effect(t, cs[0]), cs[1..]);
    }
  }

  lemma {:induction false} AfterWakingBlocks(s: Scheduler, o: Order, t: Image, turns: Turns, woken: seq<Task>, u: Task)
    requires Orderly(s, o, t, turns) && AllBlocked(s, t, woken)
    requires forall v, w :: v in s.tasks && w in s.tasks ==> v.stateItem != w.eventItem
    requires u in s.tasks && IsBlocked(s, t, u) && forall v :: v in woken ==> v.stateItem != u.stateItem
    ensures forall v :: v in woken ==> v.priority < |s.ready|
    ensures IsBlocked(s, s.AfterWaking(t, woken), u)
    decreases |woken|, 0
  {
    OrderlyParts(s, o, t, turns);
    if woken == [] {
    } else {
      var n := |woken| - 1;
      OrderlyAfterWaking(s, o, t, turns, woken[..n]);
      AfterWakingBlocks(s, o, t, turns, woken[..n], u);
      AfterWakingBlocks(s, o, t, turns, woken[..n], woken[n]);
      OrderlyWaking(s, o, s.AfterWaking(t, woken[..n]), AllJoined(turns, woken[..n]), woken[n]);
      StillBlocked(s, s.AfterWaking(t, woken[..n]), woken[n], u);
    }
  }

  /** Any number of blocked tasks are woken: everything stays in order, and the turns tell in which order they joined. */
  lemma {:induction false} OrderlyAfterWaking(s: Scheduler, o: Order, t: Image, turns: Turns, woken: seq<Task>)
    requires Orderly(s, o, t, turns) && AllBlocked(s, t, woken)
    requires forall v, w :: v in s.tasks && w in s.tasks ==> v.stateItem != w.eventItem
    ensures |turns| == |s.ready| && forall v :: v in woken ==> v.priority < |s.ready|
    ensures Orderly(s, o, s.AfterWaking(t, woken), AllJoined(turns, woken))
    ensures forall p :: 0 <= p < |s.ready| ==>
              && s.ready[p] in t.rings && s.ready[p] in s.AfterWaking(t, woken).rings
              && |s.AfterWaking(t, woken).rings[s.ready[p]].items| >= |t.rings[s.ready[p]].items|
    decreases |woken|, 1
  {
    OrderlyParts(s, o, t, turns);
    if woken == [] {
    } else {
      hide Orderly;
      var n := |woken| - 1;
      OrderlyAfterWaking(s, o, t, turns, woken[..n]);
      AfterWakingBlocks(s, o, t, turns, woken[..n], woken[n]);
      var u := s.AfterWaking(t, woken[..n]);
      OrderlyWaking(s, o, u, AllJoined(turns, woken[..n]), woken[n]);
      WakingGrows(s, o, u, AllJoined(turns, woken[..n]), woken[n]);
    }
  }

  lemma WakingGrows(s: Scheduler, o: Order, t: Image, turns: Turns, task: Task)
    requires Orderly(s, o, t, turns) && task in s.tasks && IsBlocked(s, t, task)
    requires forall u, v :: u in s.tasks && v in s.tasks ==> u.stateItem != v.eventItem
    ensures task.priority < |s.ready|
    ensures forall p :: 0 <= p < |s.ready| ==>
              && s.ready[p] in t.rings && s.ready[p] in s.Waking(t, task).rings
              && |s.Waking(t, task).rings[s.ready[p]].items| >= |t.rings[s.ready[p]].items|
  {
    OrderlyWaking(s, o, t, turns, task);
    OrderlyParts(s, o, t, turns);
    OrderlyParts(s, o, s.Waking(t, task), Joined(turns, task));
    WakingReady(s, t, task);
  }

  // ---------- A wake-up for an event ----------

  lemma ApartAfterTake(s: Scheduler, o: Order, t: Image, e: ListItem)
    requires t.Valid() && EventsApart(s, t) && IdleIn(s, o, t) && Permitted(t, Take(e)) && e != o.idle.stateItem
    ensures EventsApart(s, Effect(t, Take(e))) && IdleIn(s, o, Effect(t, Take(e)))
  {
    var u := Effect(t, Take(e));
    EffectRing(t, Take(e));
    forall v, p | v in s.tasks && 0 <= p < |s.ready| ensures !u.Holds(s.ready[p], v.eventItem) {
      EffectPlaces(t, Take(e), s.ready[p], v.eventItem);
    }
    EffectPlaces(t, Take(e), s.ready[0], o.idle.stateItem);
  }

  /** An event item is taken out of its list. */
  lemma OrderlyTake(s: Scheduler, o: Order, t: Image, turns: Turns, task: Task)
    requires Orderly(s, o, t, turns) && task in s.tasks && Permitted(t, Take(task.eventItem))
    requires forall u, v :: u in s.tasks && v in s.tasks ==> u.stateItem != v.eventItem
    ensures Orderly(s, o, Effect(t, Take(task.eventItem)), turns)
    ensures forall u :: u in s.tasks && IsBlocked(s, t, u) ==> IsBlocked(s, Effect(t, Take(task.eventItem)), u)
  {
    hide EventsIn;
    var c: Command<List, ListItem> := Take(task.eventItem);
    OrderlyParts(s, o, t, turns);
    var u := Effect(t, c);
    EventsCommand(s, o, t, c);
    ApartAfterTake(s, o, t, task.eventItem);
    EffectValid(t, c);
    EffectRing(t, c);
    assert Target(t, c) !in s.ready;
    TurnsSame(s, o, t.rings, u.rings, turns);
    forall v | v in s.tasks && IsBlocked(s, t, v) ensures IsBlocked(s, u, v) {
      ListedKept(t, c, v.stateItem);
      forall p | 0 <= p < |s.ready| ensures !u.Holds(s.ready[p], v.stateItem) {
        EffectPlaces(t, c, s.ready[p], v.stateItem);
      }
    }
  }

  // ---------- Other changes ----------

  /** Nothing that matters for the order has changed. */
  lemma OrderlySame(s: Scheduler, o: Order, t: Image, u: Image, turns: Turns)
    requires Orderly(s, o, t, turns) && u.Valid()
    requires forall l :: l in o.events ==> l in u.rings && u.rings[l] == t.rings[l]
    requires forall p :: 0 <= p < |s.ready| ==> s.ready[p] in u.rings && u.rings[s.ready[p]] == t.rings[s.ready[p]]
    requires forall v :: v in s.tasks ==> v.eventItem in u.values && u.values[v.eventItem] == t.values[v.eventItem]
    ensures Orderly(s, o, u, turns)
  {
    EventsSame(s, o, t, u);
    TurnsSame(s, o, t.rings, u.rings, turns);
    assert forall v, p :: v in s.tasks && 0 <= p < |s.ready| ==> !t.Holds(s.ready[p], v.eventItem);
  }

  /** The ready list of priority p has turned, or lost a task other than the idle task. */
  lemma OrderlyStep(s: Scheduler, o: Order, t: Image, u: Image, turns: Turns, p: nat, step: Step<ListItem>)
    requires Orderly(s, o, t, turns) && u.Valid() && p < |s.ready| && |turns| == |s.ready| && s.ready[p] in t.rings
    requires step == GetNext || (step.Removed? && step.x != o.idle.stateItem)
    requires t.rings[s.ready[p]].cursor <= |t.rings[s.ready[p]].items| && Allowed(t.rings[s.ready[p]], step)
    requires s.ready[p] in u.rings && u.rings[s.ready[p]] == Apply(t.rings[s.ready[p]], step)
    requires forall q :: 0 <= q < |s.ready| && q != p ==>
               s.ready[q] in u.rings && s.ready[q] in t.rings && u.rings[s.ready[q]] == t.rings[s.ready[q]]
    requires forall l :: l in o.events ==> l in u.rings && l in t.rings && u.rings[l] == t.rings[l]
    requires forall v :: v in s.tasks ==>
               v.eventItem in u.values && v.eventItem in t.values && u.values[v.eventItem] == t.values[v.eventItem]
    ensures Orderly(s, o, u, Turn(turns, p, step))
  {
    hide EventsIn, AllAllowed, AfterSteps;
    OrderlyParts(s, o, t, turns);
    EventsSame(s, o, t, u);
    RingValid(t, s.ready[p]);
    TurnsStep(s, o, t.rings, u.rings, turns, p, step);
    StepItems(t.rings[s.ready[p]], step);
    assert forall v, q :: v in s.tasks && 0 <= q < |s.ready| ==> !t.Holds(s.ready[q], v.eventItem);
  }

  lemma StepItems(r: Ring<ListItem>, step: Step<ListItem>)
    requires r.Valid() && Allowed(r, step) && !step.Added?
    ensures forall x :: x in Apply(r, step).items ==> x in r.items
    ensures forall x :: x in r.items && step != Removed(x) ==> x in Apply(r, step).items
  {
    if step.Removed? {
      ErasedMembers(r.items, IndexOf(r.items, step.x));
    }
  }

  lemma EventsListed(s: Scheduler, o: Order, t: Image, turns: Turns)
    requires Orderly(s, o, t, turns)
    ensures forall l :: l in o.events ==> l in t.rings && l !in s.ready
    ensures forall u :: u in s.tasks ==> u.eventItem in t.values
  {
  }

  /** An event item goes to its place in an event list. */
  lemma OrderlySort(s: Scheduler, o: Order, t: Image, turns: Turns, l: List, task: Task)
    requires Orderly(s, o, t, turns) && l in o.events && task in s.tasks && t.Valid() && Permitted(t, Sort(l, task.eventItem))
    ensures Orderly(s, o, Effect(t, Sort(l, task.eventItem)), turns)
  {
    hide EventsIn;
    var c: Command<List, ListItem> := Sort(l, task.eventItem);
    OrderlyParts(s, o, t, turns);
    EventsListed(s, o, t, turns);
    EventsCommand(s, o, t, c);
    EffectValid(t, c);
    EffectRing(t, c);
    TurnsSame(s, o, t.rings, Effect(t, c).rings, turns);
    assert forall v, p :: v in s.tasks && 0 <= p < |s.ready| ==> !t.Holds(s.ready[p], v.eventItem);
  }
}
