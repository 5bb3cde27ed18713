/** The choice of the next task in the configuration with the optimised scheduler: a task that has been ready for too
    long is preferred, the highest priority first, and among several of one priority the one ready for longest. */
module StarvedSelection {
  import opened Sequences
  import opened RoundRobin
  import opened SortedInsertion
  import opened DelayedLists
  import opened TimeOuts
  import opened ReadyMap
  import KH = KernelHeap

  type List = KH.List
  type ListItem = KH.ListItem

  class ReadyTask {
    const stateItem: ListItem
    const priority: nat
    var readyTimeCounter: Tick  // the tick at which it was last made ready

    constructor (stateItem: ListItem, priority: nat)
      ensures this.stateItem == stateItem && this.priority == priority && readyTimeCounter == 0
    {
      this.stateItem, this.priority, readyTimeCounter := stateItem, priority, 0;
    }
  }

  /** The place of the greatest age, the first one if there are several. */
  function FirstOldest(ages: seq<Tick>): (k: nat)
    requires ages != []
    ensures k < |ages| && (forall j :: 0 <= j < |ages| ==> ages[j] <= ages[k])
    ensures forall j :: 0 <= j < k ==> ages[j] < ages[k]
  {
    var n := |ages| - 1;
    if n == 0 then 0 else
      var k := FirstOldest(ages[..n]);
      if ages[n] > ages[k] then n else k
  }

  /** The order in which the scan of a list sees its items: from the second in turn on, and the first at the end. */
  ghost function ScanOrder<T>(r: Ring<T>): (v: seq<T>)
    requires r.Valid() && r.items != []
    ensures |v| == |r.items|
  {
    r.Next().ServiceOrder()
  }

  class Selector {
    var tickCount: Tick
    var readyPriorities: seq<bool>  // the bits of a 32-bit word, the lowest first
    var current: ReadyTask
    const ready: seq<List>          // by priority
    const patience: nat             // ticks a task of the highest priority may wait
    ghost const heap: KH.Heap
    ghost const tasks: set<ReadyTask>

    constructor (ready: seq<List>, patience: nat, current: ReadyTask, ghost heap: KH.Heap, ghost tasks: set<ReadyTask>)
      ensures this.ready == ready && this.patience == patience && this.heap == heap && this.tasks == tasks
      ensures this.current == current && tickCount == 0 && readyPriorities == seq(32, i => false)
      ensures heap.Valid() && |ready| <= 32 && (forall p :: 0 <= p < |ready| ==> ready[p] in heap.lists)
              && (forall i, j :: 0 <= i < j < |ready| ==> ready[i] != ready[j])
              && (forall p :: 0 <= p < |ready| ==> ready[p].ring.items == []) ==>
                Valid()
    {
      this.ready, this.patience, this.heap, this.tasks := ready, patience, heap, tasks;
      this.current, tickCount, readyPriorities := current, 0, seq(32, i => false);
    }

    ghost predicate HasPriority(x: ListItem, p: nat)
      reads heap.items`owner
    {
      x in heap.items && x.owner is ReadyTask && var t := x.owner as ReadyTask; t in tasks && t.stateItem == x && t.priority == p
    }

    /** Bit p of the map is set just when the list of priority p has an item, and that list holds tasks of priority p. */
    ghost predicate Valid()
      reads this`readyPriorities, heap.lists, heap.items, heap.ends
    {
      && heap.Valid() && |readyPriorities| == 32 && |ready| <= 32
      && (forall p :: 0 <= p < |ready| ==> ready[p] in heap.lists)
      && (forall i, j :: 0 <= i < j < |ready| ==> ready[i] != ready[j])
      && (forall p :: 0 <= p < 32 ==> (readyPriorities[p] <==> p < |ready| && ready[p].ring.items != []))
      && (forall p, x :: 0 <= p < |ready| && x in ready[p].ring.items ==> HasPriority(x, p))
    }

    /** For how long the task of x has been ready, by the counter. */
    ghost function Age(x: ListItem): Tick
      reads this`tickCount, tasks`readyTimeCounter, heap.items`owner
    {
      if x in heap.items && x.owner is ReadyTask && x.owner as ReadyTask in tasks then
        Since(tickCount, (x.owner as ReadyTask).readyTimeCounter)
      else 0
    }

    /** Nobody has been ready for no time at all. */
    ghost function FoundAge(task: ReadyTask?): Tick
      reads this`tickCount, tasks`readyTimeCounter, heap.items`owner
    {
      if task == null then 0 else Age(task.stateItem)
    }

    lemma FoundAgeIs(task: ReadyTask)
      ensures FoundAge(task) == Age(task.stateItem)
    {
    }

    ghost function Ages(items: seq<ListItem>): (ages: seq<Tick>)
      reads this`tickCount, tasks`readyTimeCounter, heap.items`owner
      ensures |ages| == |items| && forall i :: 0 <= i < |ages| ==> ages[i] == Age(items[i])
    {
      if items == [] then [] else
        var n := |items| - 1;
        Ages(items[..n]) + [Age(items[n])]
    }

    function Limit(p: nat): Tick
      requires p < |ready|
    {
      patience * (|ready| - p) % WRAP
    }

    predicate Starved(age: nat, p: nat)
      requires p < |ready|
    {
      age >= Limit(p) && age > 0
    }

    /** Nothing about the limits wraps around. */
    predicate LimitsFit() {
      0 < patience && patience * |ready| < WRAP
    }

    /** Who is starved: at the highest priority whoever has been ready for `patience` ticks, and at each lower one only
        after `patience` ticks more. */
    lemma StarvedLaw(age: nat, p: nat)
      requires LimitsFit() && p < |ready|
      ensures Starved(age, |ready| - 1) <==> age >= patience
      ensures p + 1 < |ready| && age > 0 ==> (Starved(age + patience, p) <==> Starved(age, p + 1))
      ensures Starved(age, p) <==> age >= patience * (|ready| - p)
    {
      LimitIs(p);
      LimitIs(|ready| - 1);
      if p + 1 < |ready| {
        LimitIs(p + 1);
        assert patience * (|ready| - p) == patience * (|ready| - (p + 1)) + patience;
      }
    }

    /** Where a limit does wrap around, its remainder counts. */
    lemma StarvedWrapped(age: nat, p: nat, q: nat, r: nat)
      requires p < |ready| && patience * (|ready| - p) == q * WRAP + r && r < WRAP
      ensures Starved(age, p) <==> age >= r && age > 0
    {
    }

    lemma LimitIs(p: nat)
      requires LimitsFit() && p < |ready|
      ensures 0 < Limit(p) == patience * (|ready| - p)
    {
      ProductWithin(patience, |ready| - p, |ready|);
    }

    static lemma ProductWithin(d: nat, m: nat, n: nat)
      requires 0 < m <= n && 0 < d
      ensures 0 < d * m <= d * n
    {
      assert d * n == d * m + d * (n - m);
    }

    /** What the scan has found among the first tasks it has seen. */
    ghost predicate Found(ages: seq<Tick>, v: seq<ListItem>, p: nat, starved: ReadyTask?, diffMax: Tick)
      requires p < |ready| && |ages| <= |v|
    {
      if ages != [] && Starved(ages[FirstOldest(ages)], p) then
        && starved != null && starved in tasks && starved.stateItem == v[FirstOldest(ages)]
        && diffMax == ages[FirstOldest(ages)]
      else starved == null && diffMax == 0
    }

    lemma FoundOneMore(ages: seq<Tick>, v: seq<ListItem>, p: nat, starved: ReadyTask?, diffMax: Tick, task: ReadyTask)
      requires p < |ready| && 0 < |ages| <= |v|
      requires var n := |ages| - 1; Found(ages[..n], v, p, starved, diffMax) && task in tasks && task.stateItem == v[n]
      ensures var age := ages[|ages| - 1];
              if age >= Limit(p) && age > diffMax then Found(ages, v, p, task, age) else Found(ages, v, p, starved, diffMax)
    {
    }

    // ---------- Time ----------

    /** Some ticks pass. */
    method PassTime(ticks: nat)
      requires Valid()
      modifies this`tickCount
      ensures Valid() && forall x :: x in heap.items && IsOfTask(x) ==> Age(x) == Shown(old(Age(x)) + ticks)
    {
      ghost var was := tickCount;
      tickCount := Shown(tickCount + ticks);
      forall x | x in heap.items && IsOfTask(x) ensures Age(x) == Shown(old(Age(x)) + ticks) {
        AgePasses((x.owner as ReadyTask).readyTimeCounter, was, ticks);
      }
    }

    ghost predicate IsOfTask(x: ListItem)
      requires x in heap.items
      reads heap.items`owner
    {
      x.owner is ReadyTask && x.owner as ReadyTask in tasks
    }

    static lemma AgePasses(since: Tick, tick: Tick, ticks: nat)
      ensures Since(Shown(tick + ticks), since) == Shown(Since(tick, since) + ticks)
    {
      var back: int := since;
      RestOfSum(tick + ticks, -back);
      RestOfSum(tick - since, ticks);
    }

    static lemma RestOfSum(a: int, b: int)
      ensures (a % WRAP + b) % WRAP == (a + b) % WRAP
    {
      var q, r := (a % WRAP + b) / WRAP, (a % WRAP + b) % WRAP;
      assert a + b == (a / WRAP + q) * WRAP + r;
    }

    // ---------- One ready list ----------

    lemma TaskOf(l: List, p: nat)
      requires heap.Valid() && l in heap.lists && l.ring.items != [] && 0 < l.ring.cursor
      requires forall x :: x in l.ring.items ==> HasPriority(x, p)
      ensures 0 < l.ring.cursor <= |l.ring.items|
      ensures var o := l.ring.Current().owner;
              && o is ReadyTask && o as ReadyTask in tasks
              && (o as ReadyTask).stateItem == l.ring.Current() && (o as ReadyTask).priority == p
              && l.ring.Current() in heap.items
    {
      assert l.Valid() && l.ring.Current() in l.ring.items;
    }

    lemma ReadyParts(p: nat)
      requires Valid() && p < |ready|
      ensures heap.Valid() && ready[p] in heap.lists && ready[p].ring.Valid()
      ensures |readyPriorities| == 32 && |ready| <= 32
      ensures forall x :: x in ready[p].ring.items ==> HasPriority(x, p)
      ensures ready[p].numberOfItems == |ready[p].ring.items|
    {
      assert ready[p].Valid();
    }

    /** The lists may have been turned. */
    lemma StillValid(rings: map<List, Ring<ListItem>>, p: nat)
      requires heap.Valid() && p < |ready| && |readyPriorities| == 32 && |ready| <= 32
      requires forall q :: 0 <= q < |ready| ==> ready[q] in heap.lists
      requires forall i, j :: 0 <= i < j < |ready| ==> ready[i] != ready[j]
      requires rings.Keys == heap.lists
      requires forall q :: 0 <= q < 32 ==> (readyPriorities[q] <==> q < |ready| && rings[ready[q]].items != [])
      requires forall q, x :: 0 <= q < |ready| && x in rings[ready[q]].items ==> HasPriority(x, q)
      requires forall l :: l in heap.lists && l != ready[p] ==> l.ring == rings[l]
      requires ready[p].ring.items == rings[ready[p]].items
      ensures Valid()
    {
    }

    lemma ValidParts()
      requires Valid()
      ensures heap.Valid() && |readyPriorities| == 32 && |ready| <= 32
      ensures forall q :: 0 <= q < |ready| ==> ready[q] in heap.lists
      ensures forall i, j :: 0 <= i < j < |ready| ==> ready[i] != ready[j]
      ensures var rings := heap.Rings();
              && rings.Keys == heap.lists && (forall l :: l in heap.lists ==> rings[l] == l.ring)
              && (forall q :: 0 <= q < 32 ==> (readyPriorities[q] <==> q < |ready| && rings[ready[q]].items != []))
              && (forall q, x :: 0 <= q < |ready| && x in rings[ready[q]].items ==> HasPriority(x, q))
    {
    }

    static lemma NextItems(r: Ring<ListItem>)
      requires r.Valid()
      ensures r.Next().items == r.items && r.Next().Valid()
    {
    }

    method Next(p: nat) returns (task: ReadyTask)
      requires Valid() && p < |ready| && ready[p].ring.items != []
      modifies heap.lists`index, heap.lists`ring
      ensures Valid() && old(ready[p].ring.Valid()) && ready[p].ring == old(ready[p].ring).Next()
      ensures 0 < ready[p].ring.cursor <= |ready[p].ring.items| && ready[p].ring.items == old(ready[p].ring.items)
      ensures task in tasks && task.priority == p && task.stateItem == ready[p].ring.Current()
      ensures task.stateItem.owner == task && task.stateItem in heap.items
      ensures forall l :: l in heap.lists && l != ready[p] ==> l.ring == old(l.ring)
    {
      hide *;
      ReadyParts(p);
      ValidParts();
      ghost var rings := heap.Rings();
      NextItems(ready[p].ring);
      var owner: object? := KH.OwnerOfNextEntry(ready[p], heap);
      TaskOf(ready[p], p);
      task := owner as ReadyTask;
      StillValid(rings, p);
    }

    lemma ScanStarts(r: Ring<ListItem>)
      requires r.Valid() && r.items != []
      ensures var v := ScanOrder(r);
              && r.Next().Valid() && r.Next().cursor > 0 && v[|v| - 1] == r.Next().Current() && Distinct(v)
              && r.Next().items == r.items && AfterGets(r.Next(), 0) == r.Next()
              && AfterGets(r.Next(), |v|) == r.Next()
    {
      NextRotates(r);
      ServiceOrderDistinct(r.Next());
      FullRound(r.Next());
    }

    lemma ScanStep(r: Ring<ListItem>, k: nat)
      requires r.Valid() && r.items != [] && k < |r.items|
      ensures var now := AfterGets(r.Next(), k);
              && now.cursor <= |now.items| && now.items == r.items
              && now.Next() == AfterGets(r.Next(), k + 1) && now.Next().cursor > 0
              && now.Next().Current() == ScanOrder(r)[k]
    {
      hide Ring.Next, AfterGets, Ring.ServiceOrder;
      NextItems(r);
      NthGet(r.Next(), k);
      OneMoreGet(r.Next(), k);
      GetsKeepItems(r.Next(), k);
      PlaceWithin(k, |r.items|);
    }

    static lemma PlaceWithin(k: nat, n: nat)
      requires k < n
      ensures k % n == k
    {
    }

    static lemma {:induction false} GetsKeepItems(r: Ring<ListItem>, k: nat)
      requires r.cursor <= |r.items|
      ensures AfterGets(r, k).items == r.items
      decreases k
    {
      if k == 0 {
      } else {
        GetsKeepItems(r.Next(), k - 1);
      }
    }

    lemma AgesMore(v: seq<ListItem>, k: nat)
      requires k < |v|
      ensures Ages(v[..k + 1])[..k] == Ages(v[..k]) && |Ages(v[..k + 1])| == k + 1
      ensures Ages(v[..k + 1])[k] == Age(v[k])
    {
    }

    lemma AgeOf(task: ReadyTask)
      requires task in tasks && task.stateItem.owner == task && task.stateItem in heap.items
      ensures Age(task.stateItem) == Since(tickCount, task.readyTimeCounter)
    {
    }

    /** k items of the list have been looked at. */
    ghost predicate Scanned(r: Ring<ListItem>, p: nat, k: nat, starved: ReadyTask?, diffMax: Tick)
      reads this`readyPriorities, this`tickCount, tasks`readyTimeCounter, heap.lists, heap.items, heap.ends
    {
      && Valid() && p < |ready| && r.Valid() && r.items != [] && k <= |r.items|
      && (forall x :: x in r.items ==> HasPriority(x, p))
      && ready[p].ring == AfterGets(r.Next(), k)
      && Found(Ages(ScanOrder(r)[..k]), ScanOrder(r), p, starved, diffMax)
    }

    lemma NothingScanned(r: Ring<ListItem>, p: nat, diffMax: Tick)
      requires Valid() && p < |ready| && r.Valid() && r.items != [] && ready[p].ring == r.Next() && diffMax == 0
      ensures Scanned(r, p, 0, null, diffMax)
    {
      NextItems(r);
    }

    lemma ScannedParts(r: Ring<ListItem>, p: nat, k: nat, starved: ReadyTask?, diffMax: Tick)
      requires Scanned(r, p, k, starved, diffMax) && k < |r.items|
      ensures Valid() && p < |ready| && ready[p].ring.items == r.items && r.Valid() && r.items != []
      ensures ready[p].ring.cursor <= |ready[p].ring.items|
      ensures ready[p].ring.Next() == AfterGets(r.Next(), k + 1) && ready[p].ring.Next().cursor > 0
      ensures |ScanOrder(r)| == |r.items| && ready[p].ring.Next().cursor <= |r.items|
      ensures ready[p].ring.Next().Current() == ScanOrder(r)[k]
      ensures Found(Ages(ScanOrder(r)[..k]), ScanOrder(r), p, starved, diffMax)
      ensures forall x :: x in r.items ==> HasPriority(x, p)
    {
      ScanStep(r, k);
    }

    lemma ScannedOneMore(r: Ring<ListItem>, p: nat, k: nat, starved: ReadyTask?, diffMax: Tick, task: ReadyTask)
      requires Valid() && p < |ready| && r.Valid() && r.items != [] && k < |r.items|
      requires forall x :: x in r.items ==> HasPriority(x, p)
      requires Found(Ages(ScanOrder(r)[..k]), ScanOrder(r), p, starved, diffMax)
      requires ready[p].ring == AfterGets(r.Next(), k + 1)
      requires task in tasks && task.stateItem == ScanOrder(r)[k] && task.stateItem.owner == task
      requires task.stateItem in heap.items
      ensures var age := Since(tickCount, task.readyTimeCounter);
              if age >= Limit(p) && age > diffMax then Scanned(r, p, k + 1, task, age)
              else Scanned(r, p, k + 1, starved, diffMax)
    {
      hide Valid, HasPriority, ScanOrder, Found, Ages, Age, Since, Limit, AfterGets;
      AgesMore(ScanOrder(r), k);
      AgeOf(task);
      FoundOneMore(Ages(ScanOrder(r)[..k + 1]), ScanOrder(r), p, starved, diffMax, task);
    }

    /** The scan comes back to the first task just when it has seen all. */
    lemma ScanEnds(r: Ring<ListItem>, p: nat, k: nat, task: ReadyTask, first: ReadyTask)
      requires r.Valid() && r.items != [] && k < |r.items|
      requires task.stateItem == ScanOrder(r)[k] && task.stateItem.owner == task
      requires first.stateItem == ScanOrder(r)[|r.items| - 1] && first.stateItem.owner == first
      ensures task == first <==> k + 1 == |r.items|
    {
      ScanStarts(r);
      if k + 1 < |r.items| {
        assert Apart(k, |r.items| - 1);
      }
    }

    /** What a scan of the whole list has found: its longest ready task, if that is starved. */
    lemma ScanDone(r: Ring<ListItem>, p: nat, starved: ReadyTask?, diffMax: Tick)
      requires Scanned(r, p, |r.items|, starved, diffMax)
      ensures Valid() && r.Valid() && r.items != [] && ready[p].ring == r.Next()
      ensures Ages(ScanOrder(r)) != [] && Found(Ages(ScanOrder(r)), ScanOrder(r), p, starved, diffMax)
    {
      ScanStarts(r);
      assert ScanOrder(r)[..|r.items|] == ScanOrder(r);
    }

    /** Look for a starved task in the list of priority p, going once around. */
    method ScanList(p: nat, noDiff: Tick) returns (starved: ReadyTask?, ghost diffMax: Tick)
      requires Valid() && p < |ready| && ready[p].ring.items != [] && noDiff == 0
      modifies heap.lists`index, heap.lists`ring
      ensures Valid() && old(ready[p].ring.Valid()) && ready[p].ring == old(ready[p].ring).Next()
      ensures forall l :: l in heap.lists && l != ready[p] ==> l.ring == old(l.ring)
      ensures var v := ScanOrder(old(ready[p].ring));
              Ages(v) != [] && Found(Ages(v), v, p, starved, diffMax)
    {
      hide *;
      ReadyParts(p);
      ghost var r, k := ready[p].ring, 0;
      ScanStarts(r);
      var first := Next(p);
      starved := null;
      var readyTimeDiffMax := noDiff;
      NothingScanned(r, p, noDiff);
      while true
        invariant 0 <= readyTimeDiffMax <= MAX_DELAY
        invariant Scanned(r, p, k, starved, readyTimeDiffMax) && 0 <= k < |r.items|
        invariant forall l :: l in heap.lists && l != ready[p] ==> l.ring == old(l.ring)
        decreases |r.items| - k
      {
        ScannedParts(r, p, k, starved, readyTimeDiffMax);
        var next := Next(p);
        var readyTimeDiff := Since(tickCount, next.readyTimeCounter);
        ScannedOneMore(r, p, k, starved, readyTimeDiffMax, next);
        ScanEnds(r, p, k, next, first);
        k := k + 1;
        if readyTimeDiff >= Limit(p) {
          if readyTimeDiff > readyTimeDiffMax {
            readyTimeDiffMax := readyTimeDiff;
            starved := next;
          }
        }
        if next == first {
          break;
        }
      }
      diffMax := readyTimeDiffMax;
      ScanDone(r, p, starved, readyTimeDiffMax);
    }

    // ---------- All ready lists ----------

    ghost predicate HasStarved(r: Ring<ListItem>, p: nat)
      requires p < |ready|
      reads this`tickCount, tasks`readyTimeCounter, heap.items`owner
    {
      exists x :: x in r.items && Starved(Age(x), p)
    }

    lemma FoundIfAny(r: Ring<ListItem>, p: nat, starved: ReadyTask?, diffMax: Tick)
      requires p < |ready| && r.Valid() && r.items != [] && Ages(ScanOrder(r)) != []
      requires Found(Ages(ScanOrder(r)), ScanOrder(r), p, starved, diffMax)
      ensures starved != null <==> HasStarved(r, p)
      ensures starved != null ==> starved in tasks && starved.stateItem == Oldest(r)
    {
      var v, ages := ScanOrder(r), Ages(ScanOrder(r));
      NextItems(r);
      ServiceOrderDistinct(r.Next());
      assert forall x :: x in v <==> x in multiset(v);
      if starved != null {
        assert v[FirstOldest(ages)] in v;
      }
      if HasStarved(r, p) {
        var x :| x in r.items && Starved(Age(x), p);
        assert x in v;
        var i :| 0 <= i < |v| && v[i] == x;
        assert ages[i] <= ages[FirstOldest(ages)];
      }
    }

    /** The item ready for longest; of several the one the scan sees first. */
    ghost function Oldest(r: Ring<ListItem>): ListItem
      requires r.Valid() && r.items != [] && Ages(ScanOrder(r)) != []
      reads this`tickCount, tasks`readyTimeCounter, heap.items`owner
    {
      ScanOrder(r)[FirstOldest(Ages(ScanOrder(r)))]
    }

    static ghost function Turned(r: Ring<ListItem>): Ring<ListItem>
      requires r.cursor <= |r.items|
    {
      if r.items == [] then r else r.Next()
    }

    /** Of the lists as they were, those of priority m and above have been turned by one task, the others not. */
    ghost predicate TurnedFrom(was: map<List, Ring<ListItem>>, m: nat)
      reads this`readyPriorities, heap.lists, heap.items, heap.ends
    {
      && Valid() && was.Keys == heap.lists
      && (forall l :: l in heap.lists ==> was[l].Valid() && was[l].items == l.ring.items)
      && (forall q :: m <= q < |ready| ==> ready[q].ring == Turned(was[ready[q]]))
      && (forall l :: l in heap.lists && (forall q :: m <= q < |ready| ==> l != ready[q]) ==> l.ring == was[l])
    }

    ghost predicate NoneStarved(was: map<List, Ring<ListItem>>, m: nat)
      requires forall q :: 0 <= q < |ready| ==> ready[q] in was
      reads this`tickCount, tasks`readyTimeCounter, heap.items`owner
    {
      forall q :: m <= q < |ready| ==> !HasStarved(was[ready[q]], q)
    }

    /** The search finds a task: the idle task's list has one, or somebody above it is starved. */
    ghost predicate CanChoose(was: map<List, Ring<ListItem>>)
      reads this`tickCount, tasks`readyTimeCounter, heap.items`owner
    {
      && 0 < |ready| && (forall q :: 0 <= q < |ready| ==> ready[q] in was)
      && (was[ready[0]].items != [] || exists q :: 1 <= q < |ready| && HasStarved(was[ready[q]], q))
    }

    /** The bits of the priorities below m. */
    ghost predicate BitsBelow(bits: seq<bool>, m: nat)
      reads this`readyPriorities
    {
      && 1 <= m <= |bits| == |readyPriorities| == 32
      && (forall i :: 0 <= i < 32 ==> (bits[i] <==> i < m && readyPriorities[i]))
    }

    lemma NothingTurned()
      requires Valid()
      ensures TurnedFrom(heap.Rings(), 32) && BitsBelow(readyPriorities, 32)
      ensures forall q :: 0 <= q < |ready| ==> ready[q] in heap.Rings()
      ensures NoneStarved(heap.Rings(), 32)
    {
      assert forall l :: l in heap.lists ==> l.Valid();
    }

    /** The next list to look at: nobody is ready between it and those looked at already. */
    lemma NextLevel(was: map<List, Ring<ListItem>>, bits: seq<bool>, m: nat)
      requires TurnedFrom(was, m) && BitsBelow(bits, m) && CanChoose(was) && NoneStarved(was, m)
      ensures Valid() && |readyPriorities| == |bits| == 32 && (exists i :: 0 <= i < 32 && bits[i])
      ensures was.Keys == heap.lists && forall q :: 0 <= q < |ready| ==> ready[q] in was
      ensures var p := HighestSet(bits);
              && p < m && p < |ready| && ready[p].ring == was[ready[p]] && was[ready[p]].Valid()
              && ready[p].ring.items != [] && was[ready[p]].items != []
              && ready[p].numberOfItems == |ready[p].ring.items|
              && (p > 0 ==> BitsBelow(bits[p := false], p))
              && TurnedFrom(was, p + 1) && NoneStarved(was, p + 1)
    {
      if was[ready[0]].items != [] {
        assert readyPriorities[0] && bits[0];
      } else {
        var q :| 1 <= q < |ready| && HasStarved(was[ready[q]], q);
        assert readyPriorities[q] && bits[q];
      }
      var p := HighestSet(bits);
      assert ready[p].Valid();
      forall q | p < q < m && q < |ready| ensures was[ready[q]].items == [] {
        assert !bits[q] && !readyPriorities[q];
      }
    }

    lemma TurnedParts(was: map<List, Ring<ListItem>>, p: nat)
      requires TurnedFrom(was, p + 1) && p < |ready|
      ensures Valid() && was.Keys == heap.lists && ready[p].ring == was[ready[p]]
      ensures forall l :: l in heap.lists ==> was[l].Valid() && was[l].items == l.ring.items
      ensures forall q :: 0 <= q < |ready| ==> ready[q] in was && was[ready[q]].cursor <= |was[ready[q]].items|
      ensures forall q :: p < q < |ready| ==> ready[q] != ready[p] && ready[q].ring == Turned(was[ready[q]])
      ensures forall l :: l in heap.lists && (forall q :: p + 1 <= q < |ready| ==> l != ready[q]) ==> l.ring == was[l]
    {
    }

    lemma TurnedOneMore(was: map<List, Ring<ListItem>>, p: nat)
      requires Valid() && was.Keys == heap.lists && p < |ready|
      requires forall l :: l in heap.lists ==> was[l].Valid() && was[l].items == l.ring.items
      requires forall q :: 0 <= q < |ready| ==> ready[q] in was && was[ready[q]].cursor <= |was[ready[q]].items|
      requires forall q :: p < q < |ready| ==> ready[q].ring == Turned(was[ready[q]])
      requires forall l :: l in heap.lists && (forall q :: p + 1 <= q < |ready| ==> l != ready[q]) && l != ready[p] ==>
                 l.ring == was[l]
      requires was[ready[p]].items != [] && ready[p].ring == was[ready[p]].Next()
      ensures TurnedFrom(was, p)
    {
      forall l | l in heap.lists && (forall q :: p <= q < |ready| ==> l != ready[q]) ensures l.ring == was[l] {
        assert l != ready[p];
      }
    }

    lemma StarvedOneMore(was: map<List, Ring<ListItem>>, p: nat)
      requires p < |ready| && (forall q :: 0 <= q < |ready| ==> ready[q] in was)
      ensures NoneStarved(was, p) <==> NoneStarved(was, p + 1) && !HasStarved(was[ready[p]], p)
    {
    }

    /** Look through the list of priority p. */
    method SearchList(ghost was: map<List, Ring<ListItem>>, p: nat) returns (starved: ReadyTask?)
      requires p < |ready| && TurnedFrom(was, p + 1) && ready[p].ring.items != []
      requires ready[p] in was && was[ready[p]].Valid() && was[ready[p]].items != []
      modifies heap.lists`index, heap.lists`ring
      ensures TurnedFrom(was, p) && (starved != null <==> HasStarved(was[ready[p]], p))
      ensures starved != null ==>
                Ages(ScanOrder(was[ready[p]])) != [] && starved in tasks && starved.stateItem == Oldest(was[ready[p]])
    {
      hide Valid, TurnedFrom, HasStarved, Oldest, Ages, ScanOrder;
      TurnedParts(was, p);
      ghost var diffMax;
      starved, diffMax := ScanList(p, 0);
      FoundIfAny(was[ready[p]], p, starved, diffMax);
      NextItems(was[ready[p]]);
      TurnedOneMore(was, p);
    }

    /** The search for a starved task, from the highest priority down to the one above the idle task's. */
    method FindStarved() returns (starved: ReadyTask?, ghost level: nat)
      requires Valid() && CanChoose(heap.Rings())
      modifies heap.lists`index, heap.lists`ring
      ensures Valid() && level < |ready| && ready[level] in old(heap.Rings()) && (starved == null <==> level == 0)
      ensures forall q :: 0 <= q < |ready| ==> ready[q] in old(heap.Rings())
      ensures NoneStarved(old(heap.Rings()), level + 1) && (level == 0 ==> ready[0].ring.items != [])
      ensures HighestOverdue(old(heap.Rings()), level, FoundAge(starved))
      ensures TurnedFrom(old(heap.Rings()), if level == 0 then 1 else level)
      ensures level > 0 ==>
                var r := old(heap.Rings())[ready[level]];
                && r.Valid() && r.items != [] && Ages(ScanOrder(r)) != [] && HasStarved(r, level)
                && starved in tasks && starved.stateItem == Oldest(r)
    {
      hide *;
      NothingTurned();
      ghost var was, m := heap.Rings(), 32;
      var bits := readyPriorities;
      starved := null;
      while true
        invariant starved == null && TurnedFrom(was, m) && BitsBelow(bits, m)
        invariant forall q :: 0 <= q < |ready| ==> ready[q] in was
        invariant CanChoose(was) && NoneStarved(was, m) && 0 <= m
        decreases m
      {
        NextLevel(was, bits, m);
        var p := HighestSet(bits);
        level := p;
        if p == 0 {
          break;
        }
        bits := bits[p := false];
        StarvedOneMore(was, p);
        if ready[p].numberOfItems != 0 {
          starved := SearchList(was, p);
        }
        m := p;
        if starved != null {
          break;
        }
      }
      ReadyStays(was, level);
      if starved != null {
        FoundAgeIs(starved);
      }
      WaitedInTicks(was, level, FoundAge(starved));
    }

    lemma ReadyStays(was: map<List, Ring<ListItem>>, p: nat)
      requires (TurnedFrom(was, p) || TurnedFrom(was, p + 1)) && p < |ready|
      ensures Valid() && (ready[0].ring.items != [] <==> was[ready[0]].items != [])
    {
    }

    /** Choose the task to run: the one ready for longest in the highest list with a starved task, or else the one whose
        turn it is among the ready tasks of the highest priority. */
    method SelectHighestPriorityTask() returns (ghost level: nat)
      requires Valid() && CanChoose(heap.Rings())
      modifies this`current, heap.lists`index, heap.lists`ring
      ensures Valid() && level < |ready| && (forall q :: 0 <= q < |ready| ==> ready[q] in old(heap.Rings()))
      ensures NoneStarved(old(heap.Rings()), level + 1)
      ensures HighestOverdue(old(heap.Rings()), level, Age(current.stateItem))
      ensures level > 0 ==>
                var r := old(heap.Rings())[ready[level]];
                && r.Valid() && r.items != [] && Ages(ScanOrder(r)) != [] && HasStarved(r, level)
                && current.stateItem == Oldest(r) && TurnedFrom(old(heap.Rings()), level)
      ensures level == 0 ==>
                var was, p := old(heap.Rings()), current.priority;
                && p < |ready| && was[ready[p]].Valid() && was[ready[p]].items != []
                && (forall q :: p < q < |ready| ==> ready[q].ring.items == [])
                && ready[p].ring == (if p == 0 then was[ready[p]] else was[ready[p]].Next()).Next()
                && 0 < ready[p].ring.cursor <= |ready[p].ring.items| && current.stateItem == ready[p].ring.Current()
                && (forall q :: 1 <= q < |ready| && q != p ==> was[ready[q]].Valid() && ready[q].ring == Turned(was[ready[q]]))
                && (p > 0 ==> ready[0].ring == was[ready[0]])
    {
      hide *;
      var starved;
      starved, level := FindStarved();
      if starved == null {
        ghost var was := old(heap.Rings());
        HighestIs(was);
        var topPriority := HighestSet(readyPriorities);
        ghost var age := FoundAge(starved);
        current := Next(topPriority);
        NobodyOverdue(was, age, Age(current.stateItem));
      } else {
        FoundAgeIs(starved);
        current := starved;
      }
    }

    /** In ticks: everybody above the level has waited for less than is allowed there, and the one found at it has not. */
    ghost predicate HighestOverdue(was: map<List, Ring<ListItem>>, level: nat, age: Tick)
      requires forall q :: 0 <= q < |ready| ==> ready[q] in was
      reads this`tickCount, tasks`readyTimeCounter, heap.items`owner
    {
      LimitsFit() ==>
        && (forall q, x :: level < q < |ready| && x in was[ready[q]].items ==> Age(x) < patience * (|ready| - q))
        && (0 < level < |ready| ==> age >= patience * (|ready| - level))
    }

    lemma NobodyOverdue(was: map<List, Ring<ListItem>>, age: Tick, other: Tick)
      requires (forall q :: 0 <= q < |ready| ==> ready[q] in was) && HighestOverdue(was, 0, age)
      ensures HighestOverdue(was, 0, other)
    {
    }

    lemma OldestStarved(r: Ring<ListItem>, p: nat)
      requires p < |ready| && r.Valid() && r.items != [] && Ages(ScanOrder(r)) != [] && HasStarved(r, p)
      ensures Starved(Age(Oldest(r)), p)
    {
      var v, ages := ScanOrder(r), Ages(ScanOrder(r));
      NextItems(r);
      ServiceOrderDistinct(r.Next());
      assert forall x :: x in v <==> x in multiset(v);
      var x :| x in r.items && Starved(Age(x), p);
      assert x in v;
      var i :| 0 <= i < |v| && v[i] == x;
      assert ages[i] <= ages[FirstOldest(ages)];
    }

    lemma WaitedInTicks(was: map<List, Ring<ListItem>>, level: nat, age: Tick)
      requires level < |ready| && (forall q :: 0 <= q < |ready| ==> ready[q] in was) && NoneStarved(was, level + 1)
      requires level > 0 ==>
                 var r := was[ready[level]];
                 && r.Valid() && r.items != [] && Ages(ScanOrder(r)) != [] && HasStarved(r, level) && age == Age(Oldest(r))
      ensures HighestOverdue(was, level, age)
    {
      if !LimitsFit() {
        return;
      }
      forall q, x | level < q < |ready| && x in was[ready[q]].items ensures Age(x) < patience * (|ready| - q) {
        assert !HasStarved(was[ready[q]], q);
        StarvedLaw(Age(x), q);
      }
      if level > 0 {
        OldestStarved(was[ready[level]], level);
        StarvedLaw(age, level);
      }
    }

    lemma HighestIs(was: map<List, Ring<ListItem>>)
      requires TurnedFrom(was, 1) && 0 < |ready| && ready[0].ring.items != []
      ensures Valid() && |readyPriorities| == 32 && (exists i :: 0 <= i < 32 && readyPriorities[i])
      ensures var p := HighestSet(readyPriorities);
              && p < |ready| && ready[p].ring.items != [] && ready[p] in was && was[ready[p]].Valid()
              && was[ready[p]].items != []
              && (forall q :: p < q < |ready| ==> ready[q].ring.items == [])
              && ready[p].ring == (if p == 0 then was[ready[p]] else was[ready[p]].Next())
              && (forall q :: 0 <= q < |ready| && q != p ==> ready[q] != ready[p] && ready[q] in heap.lists && ready[q] in was)
              && (forall q :: 1 <= q < |ready| ==> was[ready[q]].Valid() && ready[q].ring == Turned(was[ready[q]]))
              && ready[0].ring == was[ready[0]]
    {
      assert readyPriorities[0];
    }

    lemma MadeReady(task: ReadyTask, was: map<List, Ring<ListItem>>, bits: seq<bool>)
      requires heap.Valid() && |bits| == 32 && |ready| <= 32 && task.priority < |ready| && was.Keys == heap.lists
      requires forall p :: 0 <= p < |ready| ==> ready[p] in heap.lists
      requires forall i, j :: 0 <= i < j < |ready| ==> ready[i] != ready[j]
      requires forall p :: 0 <= p < 32 ==> (bits[p] <==> p < |ready| && was[ready[p]].items != [])
      requires forall p, x :: 0 <= p < |ready| && x in was[ready[p]].items ==> HasPriority(x, p)
      requires var r := was[ready[task.priority]];
               r.cursor <= |r.items| && ready[task.priority].ring == r.InsertEnd(task.stateItem)
      requires forall l :: l in heap.lists && l != ready[task.priority] ==> l.ring == was[l]
      requires readyPriorities == bits[task.priority := true] && HasPriority(task.stateItem, task.priority)
      ensures Valid()
    {
    }

    /** Put a task into the ready list of its priority, and note the time. */
    method AddTaskToReadyList(task: ReadyTask)
      requires Valid() && task in tasks && task.priority < |ready| && HasPriority(task.stateItem, task.priority)
      requires task.stateItem in heap.items && task.stateItem.container == null && task.stateItem.owner == task
      modifies this`readyPriorities, task`readyTimeCounter
      modifies heap.lists`ring, heap.lists`repr, heap.lists`numberOfItems, heap.items`container
      modifies heap.items`next, heap.items`previous, heap.ends`next, heap.ends`previous
      ensures Valid() && Age(task.stateItem) == 0
      ensures var l := ready[task.priority];
              old(l.ring.Valid()) && l.ring == old(l.ring).InsertEnd(task.stateItem)
      ensures forall l :: l in heap.lists && l != ready[task.priority] ==> l.ring == old(l.ring)
      ensures readyPriorities == old(readyPriorities)[task.priority := true]
    {
      hide *;
      ReadyParts(task.priority);
      ValidParts();
      ghost var was, bits := heap.Rings(), readyPriorities;
      readyPriorities := readyPriorities[task.priority := true];
      task.readyTimeCounter := tickCount;
      CursorWithin(ready[task.priority].ring);
      KH.InsertEnd(ready[task.priority], task.stateItem, heap);
      MadeReady(task, was, bits);
      JustReady(task);
    }

    lemma JustReady(task: ReadyTask)
      requires task in tasks && task.stateItem.owner == task && task.readyTimeCounter == tickCount
      requires task.stateItem in heap.items
      ensures Age(task.stateItem) == 0
    {
    }
  }
}
