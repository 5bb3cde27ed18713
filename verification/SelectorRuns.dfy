/** Whole runs of choices of the optimised scheduler, while nobody comes or goes: who gets the processor. */
module SelectorRuns {
  import opened Sequences
  import opened RoundRobin
  import opened SortedInsertion
  import opened DelayedLists
  import opened StarvedSelection

  // ---------- While nobody is starved ----------

  /** What the choices one after the other take from a list that each of them turns by two tasks. */
  function Choice<T>(r: Ring<T>, i: nat): T
    requires r.Valid() && r.items != []
  {
    NthGet(r, 2 * i + 1);
    AfterGets(r, 2 * i + 2).Current()
  }

  lemma ChoiceTurnsByTwo<T>(r: Ring<T>, i: nat)
    requires r.Valid() && r.items != []
    ensures AfterGets(r, 2 * i + 2) == AfterGets(r, 2 * i).Next().Next()
    ensures Choice(r, i) == r.ServiceOrder()[(2 * i + 1) % |r.items|]
  {
    OneMoreGet(r, 2 * i);
    OneMoreGet(r, 2 * i + 1);
    NthGet(r, 2 * i + 1);
  }

  lemma OddPlace(n: nat, j: nat)
    requires j < n && n % 2 == 1
    ensures var i := if j % 2 == 1 then j / 2 else (j + n) / 2;
            i < n && (2 * i + 1) % n == j
  {
    if j % 2 == 1 {
      Remainder(j, n, 0, j);
    } else {
      Remainder(j + n, n, 1, j);
    }
  }

  lemma EvenPlace(n: nat, i: nat)
    requires n > 0 && n % 2 == 0
    ensures (2 * i + 1) % n != 0
  {
    var q, h := (2 * i + 1) / n, n / 2;
    assert 2 * i + 1 == q * n + (2 * i + 1) % n;
    assert q * n == 2 * (q * h);
  }

  lemma ServiceMembers<T>(r: Ring<T>)
    requires r.Valid()
    ensures forall x :: x in r.ServiceOrder() <==> x in r.items
  {
    ServiceOrderDistinct(r);
    assert forall x :: x in multiset(r.ServiceOrder()) <==> x in multiset(r.items);
  }

  /** Each task is chosen once in as many choices as there are tasks just when their number is odd; otherwise the task
      whose turn it is first is never chosen. */
  lemma EqualShareIffOdd<T>(r: Ring<T>)
    requires r.Valid() && r.items != []
    ensures |r.items| % 2 == 1 <==> forall x :: x in r.items ==> exists i: nat :: i < |r.items| && Choice(r, i) == x
    ensures |r.items| % 2 == 0 ==> forall i: nat :: Choice(r, i) != r.ServiceOrder()[0]
  {
    var s, n := r.ServiceOrder(), |r.items|;
    ServiceMembers(r);
    if n % 2 == 1 {
      forall x | x in r.items ensures exists i: nat :: i < n && Choice(r, i) == x {
        assert x in s;
        var j :| 0 <= j < n && s[j] == x;
        var i := if j % 2 == 1 then j / 2 else (j + n) / 2;
        OddPlace(n, j);
        ChoiceTurnsByTwo(r, i);
      }
    } else {
      ServiceOrderDistinct(r);
      forall i: nat ensures Choice(r, i) != s[0] {
        ChoiceTurnsByTwo(r, i);
        EvenPlace(n, i);
        assert Apart(0, (2 * i + 1) % n);
      }
      assert s[0] in s && s[0] in r.items;
    }
  }

  // ---------- While somebody is starved ----------

  ghost function AgesIn<T>(v: seq<T>, age: map<T, Tick>): (ages: seq<Tick>)
    requires forall x :: x in v ==> x in age
    ensures |ages| == |v| && forall i :: 0 <= i < |v| ==> ages[i] == age[v[i]]
  {
    seq(|v|, i requires 0 <= i < |v| => age[v[i]])
  }

  /** The first item of the greatest age. */
  ghost function OldestIn<T>(v: seq<T>, age: map<T, Tick>): T
    requires v != [] && forall x :: x in v ==> x in age
  {
    v[FirstOldest(AgesIn(v, age))]
  }

  lemma ScanMembers<T>(r: Ring<T>)
    requires r.Valid() && r.items != []
    ensures forall x :: x in ScanOrder(r) <==> x in r.items
  {
    NextRotates(r);
    ServiceMembers(r.Next());
  }

  lemma {:induction false} GetsValid<T>(r: Ring<T>, i: nat)
    requires r.Valid()
    ensures AfterGets(r, i).Valid() && AfterGets(r, i).items == r.items
    decreases i
  {
    if i == 0 {
    } else {
      GetsValid(r.Next(), i - 1);
    }
  }

  /** What the choices one after the other take from a list with a starved task. */
  ghost function OldestChoice<T>(r: Ring<T>, age: map<T, Tick>, i: nat): T
    requires r.Valid() && r.items != [] && forall x :: x in r.items ==> x in age
  {
    GetsValid(r, i);
    ScanMembers(AfterGets(r, i));
    OldestIn(ScanOrder(AfterGets(r, i)), age)
  }

  /** Only tasks of the greatest age are chosen. */
  lemma ChoiceIsOldest<T>(r: Ring<T>, age: map<T, Tick>, i: nat)
    requires r.Valid() && r.items != [] && forall x :: x in r.items ==> x in age
    ensures OldestChoice(r, age, i) in r.items
    ensures forall x :: x in r.items ==> age[x] <= age[OldestChoice(r, age, i)]
  {
    GetsValid(r, i);
    ScanMembers(AfterGets(r, i));
    var v := ScanOrder(AfterGets(r, i));
    var k := FirstOldest(AgesIn(v, age));
    assert v[k] in v;
    forall x | x in r.items ensures age[x] <= age[v[k]] {
      assert x in v;
      var j :| 0 <= j < |v| && v[j] == x;
      assert AgesIn(v, age)[j] <= AgesIn(v, age)[k];
    }
  }

  /** Tasks of one age take turns. */
  lemma EqualAgesTakeTurns<T>(r: Ring<T>, age: map<T, Tick>, i: nat)
    requires r.Valid() && r.items != [] && forall x :: x in r.items ==> x in age
    requires forall x, y :: x in r.items && y in r.items ==> age[x] == age[y]
    ensures OldestChoice(r, age, i) == r.ServiceOrder()[(i + 1) % |r.items|]
  {
    hide *;
    CursorWithin(r);
    OldestChoiceIs(r, age, i);
    FirstScanned(r, i);
    var now := AfterGets(r, i);
    ScanMembers(now);
    FirstOfEquals(ScanOrder(now), age);
  }

  lemma FirstOfEquals<T>(v: seq<T>, age: map<T, Tick>)
    requires v != [] && forall x :: x in v ==> x in age
    requires forall x, y :: x in v && y in v ==> age[x] == age[y]
    ensures OldestIn(v, age) == v[0]
  {
    var ages := AgesIn(v, age);
    assert v[0] in v && v[FirstOldest(ages)] in v;
    assert FirstOldest(ages) == 0;
  }

  lemma FirstScanned<T>(r: Ring<T>, i: nat)
    requires r.Valid() && r.items != []
    ensures AfterGets(r, i).Valid() && AfterGets(r, i).items == r.items
    ensures ScanOrder(AfterGets(r, i))[0] == r.ServiceOrder()[(i + 1) % |r.items|]
  {
    hide Ring.Next, Ring.ServiceOrder, AfterGets;
    GetsValid(r, i);
    var now := AfterGets(r, i);
    GetsValid(r, i + 1);
    OneMoreGet(r, i);
    OneMoreGet(r, i + 1);
    NextRotates(now);
    NextRotates(AfterGets(r, i + 1));
    NthGet(r, i + 1);
  }

  /** As many choices as there are tasks run each of them just when all have been ready for equally long. */
  lemma EqualShareIffEqualAges<T>(r: Ring<T>, age: map<T, Tick>)
    requires r.Valid() && r.items != [] && forall x :: x in r.items ==> x in age
    ensures (forall x :: x in r.items ==> exists i: nat :: i < |r.items| && OldestChoice(r, age, i) == x)
       <==> (forall x, y :: x in r.items && y in r.items ==> age[x] == age[y])
  {
    hide *;
    if forall x, y :: x in r.items && y in r.items ==> age[x] == age[y] {
      AllRun(r, age);
    }
    if forall x :: x in r.items ==> exists i: nat :: i < |r.items| && OldestChoice(r, age, i) == x {
      forall x, y | x in r.items && y in r.items ensures age[x] == age[y] {
        var i: nat :| i < |r.items| && OldestChoice(r, age, i) == x;
        var j: nat :| j < |r.items| && OldestChoice(r, age, j) == y;
        ChoiceIsOldest(r, age, i);
        ChoiceIsOldest(r, age, j);
      }
    }
  }

  lemma AllRun<T>(r: Ring<T>, age: map<T, Tick>)
    requires r.Valid() && r.items != [] && forall x :: x in r.items ==> x in age
    requires forall x, y :: x in r.items && y in r.items ==> age[x] == age[y]
    ensures forall x :: x in r.items ==> exists i: nat :: i < |r.items| && OldestChoice(r, age, i) == x
  {
    hide *;
    CursorWithin(r);
    var s, n := r.ServiceOrder(), |r.items|;
    ServiceMembers(r);
    forall x | x in r.items ensures exists i: nat :: i < n && OldestChoice(r, age, i) == x {
      assert x in s;
      var j :| 0 <= j < n && s[j] == x;
      var i := if j == 0 then n - 1 else j - 1;
      Remainder(i + 1, n, if j == 0 then 1 else 0, j);
      EqualAgesTakeTurns(r, age, i);
    }
  }

  /** A task that has been ready for longer than all others is chosen every time: being chosen does not change that. */
  lemma TheOldestRunsAlone<T>(r: Ring<T>, age: map<T, Tick>, x: T, i: nat)
    requires r.Valid() && r.items != [] && forall y :: y in r.items ==> y in age
    requires x in r.items && forall y :: y in r.items && y != x ==> age[y] < age[x]
    ensures OldestChoice(r, age, i) == x
  {
    ChoiceIsOldest(r, age, i);
  }

  // ---------- Runs of the selector ----------

  type ListItem = KH.ListItem
  type List = KH.List
  type Rings = map<List, Ring<ListItem>>

  function Sum(ds: seq<nat>): nat {
    if ds == [] then 0 else ds[0] + Sum(ds[1..])
  }

  /** The ready lists hold these items, and as many ticks have passed since the tasks had these ages. */
  ghost predicate Standing(s: Selector, items: seq<seq<ListItem>>, age: map<ListItem, Tick>, passed: nat)
    reads s`readyPriorities, s`tickCount, s.tasks`readyTimeCounter, s.heap.lists, s.heap.items, s.heap.ends
  {
    && s.Valid() && |items| == |s.ready|
    && (forall q :: 0 <= q < |items| ==> s.ready[q].ring.items == items[q])
    && (forall q, x :: 0 <= q < |items| && x in items[q] ==> x in age && s.Age(x) == Shown(age[x] + passed))
  }

  /** Nobody in the lists from priority `from` on is starved within as many ticks. */
  ghost predicate Calm(s: Selector, items: seq<seq<ListItem>>, age: map<ListItem, Tick>, from: nat, total: nat)
    requires |items| == |s.ready|
  {
    forall q, x :: from <= q < |items| && x in items[q] ==>
      x in age && age[x] + total < WRAP && !s.Starved(age[x] + total, q)
  }

  lemma NobodyStarved(s: Selector, items: seq<seq<ListItem>>, age: map<ListItem, Tick>, passed: nat, from: nat, total: nat, q: nat, r: Ring<ListItem>)
    requires Standing(s, items, age, passed) && |items| == |s.ready| && Calm(s, items, age, from, total) && passed <= total
    requires from <= q < |items| && r.items == items[q]
    ensures !s.HasStarved(r, q)
  {
    hide Shown;
    forall x | x in r.items ensures !s.Starved(s.Age(x), q) {
      ShownSoon(age[x] + passed);
    }
  }

  lemma StandingParts(s: Selector, items: seq<seq<ListItem>>, age: map<ListItem, Tick>, passed: nat)
    requires Standing(s, items, age, passed)
    ensures s.Valid() && |items| == |s.ready| && s.heap.Rings().Keys == s.heap.lists
    ensures forall q :: 0 <= q < |items| ==>
              && s.ready[q] in s.heap.lists && s.ready[q].ring.items == items[q] && s.ready[q].ring.Valid()
              && s.ready[q].ring.cursor <= |items[q]|
              && s.heap.Rings()[s.ready[q]] == s.ready[q].ring
    ensures forall q, x :: 0 <= q < |items| && x in items[q] ==> x in s.heap.items && s.IsOfTask(x)
    ensures forall q, x :: 0 <= q < |items| && x in items[q] ==> x in age && s.Age(x) == Shown(age[x] + passed)
  {
    forall q | 0 <= q < |items| ensures s.ready[q].ring.Valid() {
      assert s.ready[q].Valid();
    }
  }

  lemma ShownLater(t: Tick, a: nat, b: nat)
    ensures Shown(Shown(t + a) + b) == Shown(t + (a + b))
  {
  }

  lemma StandsLater(s: Selector, items: seq<seq<ListItem>>, age: map<ListItem, Tick>, passed: nat, ticks: nat)
    requires s.Valid() && |items| == |s.ready|
    requires forall q :: 0 <= q < |items| ==> s.ready[q].ring.items == items[q]
    requires forall q, x :: 0 <= q < |items| && x in items[q] ==> x in age && s.Age(x) == Shown(Shown(age[x] + passed) + ticks)
    ensures Standing(s, items, age, passed + ticks)
  {
    forall q, x | 0 <= q < |items| && x in items[q] ensures s.Age(x) == Shown(age[x] + (passed + ticks)) {
      ShownLater(age[x], passed, ticks);
    }
  }

  method TicksPass(s: Selector, ticks: nat, ghost items: seq<seq<ListItem>>, ghost age: map<ListItem, Tick>, ghost passed: nat)
    requires Standing(s, items, age, passed)
    modifies s`tickCount
    ensures Standing(s, items, age, passed + ticks)
  {
    hide *;
    StandingParts(s, items, age, passed);
    s.PassTime(ticks);
    StandsLater(s, items, age, passed, ticks);
  }

  /** A choice leaves the items of all ready lists as they are. */
  lemma StillStanding(s: Selector, items: seq<seq<ListItem>>, age: map<ListItem, Tick>, passed: nat)
    requires s.Valid() && |items| == |s.ready|
    requires forall q :: 0 <= q < |items| ==> s.ready[q].ring.items == items[q]
    requires forall q, x :: 0 <= q < |items| && x in items[q] ==> x in age && s.Age(x) == Shown(age[x] + passed)
    ensures Standing(s, items, age, passed)
  {
  }

  /** What a choice does while nobody above the idle task is starved, and p is the highest priority with a ready task. */
  lemma UnstarvedChoice(s: Selector, items: seq<seq<ListItem>>, p: nat, was: Rings, level: nat)
    requires s.Valid() && |items| == |s.ready| && 0 < p < |items| && items[p] != [] && level < |items|
    requires forall q :: 0 <= q < |items| ==> s.ready[q] in was && was[s.ready[q]].items == items[q]
    requires forall q :: 0 <= q < |items| ==> was[s.ready[q]].Valid() && was[s.ready[q]].cursor <= |items[q]|
    requires forall q :: p < q < |items| ==> items[q] == []
    requires forall q :: 1 <= q < |items| ==> !s.HasStarved(was[s.ready[q]], q)
    requires level > 0 ==> s.HasStarved(was[s.ready[level]], level)
    requires level == 0 ==>
               var c := s.current.priority;
               && c < |items| && was[s.ready[c]].items != []
               && (forall q :: c < q < |items| ==> s.ready[q].ring.items == [])
               && s.ready[c].ring == (if c == 0 then was[s.ready[c]] else was[s.ready[c]].Next()).Next()
               && (forall q :: 1 <= q < |items| && q != c ==> s.ready[q].ring == Selector.Turned(was[s.ready[q]]))
               && (c > 0 ==> s.ready[0].ring == was[s.ready[0]])
    ensures s.current.priority == p && level == 0
    ensures s.ready[p].ring == was[s.ready[p]].Next().Next()
    ensures forall q :: 0 <= q < |items| ==> s.ready[q].ring.items == items[q]
  {
  }

  lemma IdleIsReady(s: Selector, was: Rings)
    requires 0 < |s.ready| && (forall q :: 0 <= q < |s.ready| ==> s.ready[q] in was) && was[s.ready[0]].items != []
    ensures s.CanChoose(was)
  {
  }

  lemma SomebodyStarved(s: Selector, was: Rings, p: nat)
    requires 1 <= p < |s.ready| && (forall q :: 0 <= q < |s.ready| ==> s.ready[q] in was) && s.HasStarved(was[s.ready[p]], p)
    ensures s.CanChoose(was)
  {
  }

  method ChooseUnstarved(s: Selector, p: nat, ghost items: seq<seq<ListItem>>, ghost age: map<ListItem, Tick>, ghost passed: nat, ghost total: nat)
    requires Standing(s, items, age, passed) && |items| == |s.ready| && 0 < p < |items| && items[0] != [] && items[p] != []
    requires (forall q :: p < q < |items| ==> items[q] == []) && Calm(s, items, age, 1, total) && passed <= total
    modifies s`current, s.heap.lists`index, s.heap.lists`ring
    ensures Standing(s, items, age, passed) && old(s.ready[p].ring.Valid())
    ensures s.ready[p].ring == old(s.ready[p].ring).Next().Next()
    ensures 0 < s.ready[p].ring.cursor <= |s.ready[p].ring.items| && s.current.stateItem == s.ready[p].ring.Current()
  {
    hide *;
    StandingParts(s, items, age, passed);
    ghost var was := s.heap.Rings();
    forall q | 1 <= q < |items| ensures !s.HasStarved(was[s.ready[q]], q) {
      NobodyStarved(s, items, age, passed, 1, total, q, was[s.ready[q]]);
    }
    IdleIsReady(s, was);
    ghost var level := s.SelectHighestPriorityTask();
    UnstarvedChoice(s, items, p, was, level);
    StillStanding(s, items, age, passed);
  }

  /** A run of choices, some ticks before each, while nobody above the idle task gets starved: which task each of them
      runs, and when the processor is shared equally. */
  method RunUnstarved(s: Selector, p: nat, ticks: seq<nat>, ghost items: seq<seq<ListItem>>, ghost age: map<ListItem, Tick>)
    returns (ran: seq<ListItem>)
    requires Standing(s, items, age, 0) && |items| == |s.ready| && 0 < p < |items| && items[0] != [] && items[p] != []
    requires (forall q :: p < q < |items| ==> items[q] == []) && Calm(s, items, age, 1, Sum(ticks))
    modifies s`current, s`tickCount, s.heap.lists`index, s.heap.lists`ring
    ensures Standing(s, items, age, Sum(ticks)) && old(s.ready[p].ring.Valid()) && old(s.ready[p].ring.items) == items[p]
    ensures |ran| == |ticks| && forall i :: 0 <= i < |ran| ==> ran[i] == Choice(old(s.ready[p].ring), i)
    ensures s.ready[p].ring == AfterGets(old(s.ready[p].ring), 2 * |ticks|)
    ensures |ticks| == |items[p]| ==> ((forall x :: x in items[p] ==> x in ran) <==> |items[p]| % 2 == 1)
    ensures |items[p]| % 2 == 0 ==> old(s.ready[p].ring).ServiceOrder()[0] !in ran
  {
    hide *;
    StandingParts(s, items, age, 0);
    ghost var r := s.ready[p].ring;
    ran := [];
    NothingRun(r, ticks);
    while |ran| < |ticks|
      invariant |ran| <= |ticks| && Standing(s, items, age, Sum(ticks[..|ran|]))
      invariant Sum(ticks[..|ran|]) <= Sum(ticks)
      invariant forall i :: 0 <= i < |ran| ==> ran[i] == Choice(r, i)
      invariant s.ready[p].ring == AfterGets(r, 2 * |ran|)
      decreases |ticks| - |ran|
    {
      SumMore(ticks, |ran|);
      ghost var passed := Sum(ticks[..|ran|]);
      TicksPass(s, ticks[|ran|], items, age, passed);
      ChooseUnstarved(s, p, items, age, passed + ticks[|ran|], Sum(ticks));
      ChoiceTurnsByTwo(r, |ran|);
      ChoiceIsCurrent(r, |ran|);
      ran := ran + [s.current.stateItem];
    }
    assert ticks[..|ran|] == ticks;
    SharedIfOdd(r, ran);
  }

  // ---------- The idle priority ----------

  /** The search does not look at the list of the idle priority, so that a choice there turns it once. */
  method ChooseIdle(s: Selector, ghost items: seq<seq<ListItem>>, ghost age: map<ListItem, Tick>, ghost passed: nat)
    requires Standing(s, items, age, passed) && |items| == |s.ready| > 0 && items[0] != []
    requires forall q :: 0 < q < |items| ==> items[q] == []
    modifies s`current, s.heap.lists`index, s.heap.lists`ring
    ensures Standing(s, items, age, passed) && old(s.ready[0].ring.Valid())
    ensures s.ready[0].ring == old(s.ready[0].ring).Next()
    ensures 0 < s.ready[0].ring.cursor <= |s.ready[0].ring.items| && s.current.stateItem == s.ready[0].ring.Current()
  {
    hide *;
    StandingParts(s, items, age, passed);
    ghost var was := s.heap.Rings();
    NobodyAbove(s, items, was);
    IdleIsReady(s, was);
    ghost var level := s.SelectHighestPriorityTask();
    IdleChoice(s, items, was, level);
    StillStanding(s, items, age, passed);
  }

  lemma NobodyAbove(s: Selector, items: seq<seq<ListItem>>, was: Rings)
    requires |items| == |s.ready| && forall q :: 0 <= q < |items| ==> s.ready[q] in was && was[s.ready[q]].items == items[q]
    requires forall q :: 0 < q < |items| ==> items[q] == []
    ensures forall q :: 0 < q < |items| ==> !s.HasStarved(was[s.ready[q]], q)
  {
  }

  lemma IdleChoice(s: Selector, items: seq<seq<ListItem>>, was: Rings, level: nat)
    requires s.Valid() && |items| == |s.ready| > 0 && items[0] != [] && level < |items|
    requires forall q :: 0 <= q < |items| ==> s.ready[q] in was && was[s.ready[q]].items == items[q]
    requires forall q :: 0 <= q < |items| ==> was[s.ready[q]].Valid() && was[s.ready[q]].cursor <= |items[q]|
    requires forall q :: 0 < q < |items| ==> items[q] == []
    requires level > 0 ==> s.HasStarved(was[s.ready[level]], level)
    requires level == 0 ==>
               var c := s.current.priority;
               && c < |items| && was[s.ready[c]].items != [] && (c == 0 ==> s.ready[0].ring == was[s.ready[0]].Next())
               && (forall q :: 1 <= q < |items| && q != c ==> s.ready[q].ring == Selector.Turned(was[s.ready[q]]))
    ensures s.current.priority == 0 && level == 0 && s.ready[0].ring == was[s.ready[0]].Next()
    ensures forall q :: 0 <= q < |items| ==> s.ready[q].ring.items == items[q]
  {
  }

  /** A run of choices, some ticks before each, while only tasks of the idle priority are ready: they run in turn, and the
      processor is shared equally. */
  method RunIdle(s: Selector, ticks: seq<nat>, ghost items: seq<seq<ListItem>>, ghost age: map<ListItem, Tick>)
    returns (ran: seq<ListItem>)
    requires Standing(s, items, age, 0) && |items| == |s.ready| > 0 && items[0] != []
    requires forall q :: 0 < q < |items| ==> items[q] == []
    modifies s`current, s`tickCount, s.heap.lists`index, s.heap.lists`ring
    ensures Standing(s, items, age, Sum(ticks)) && old(s.ready[0].ring.Valid()) && old(s.ready[0].ring.items) == items[0]
    ensures |ran| == |ticks| && ran == Returned(old(s.ready[0].ring), |ticks|)
    ensures s.ready[0].ring == AfterGets(old(s.ready[0].ring), |ticks|)
    ensures |ticks| == |items[0]| ==> multiset(ran) == multiset(items[0])
  {
    hide *;
    StandingParts(s, items, age, 0);
    ghost var r := s.ready[0].ring;
    ran := [];
    NothingRun(r, ticks);
    NothingReturned(r);
    while |ran| < |ticks|
      invariant |ran| <= |ticks| && Standing(s, items, age, Sum(ticks[..|ran|]))
      invariant s.ready[0].ring == AfterGets(r, |ran|) && ran == Returned(r, |ran|)
      decreases |ticks| - |ran|
    {
      SumMore(ticks, |ran|);
      ghost var passed := Sum(ticks[..|ran|]);
      TicksPass(s, ticks[|ran|], items, age, passed);
      ChooseIdle(s, items, age, passed + ticks[|ran|]);
      OneMoreReturned(r, |ran|);
      ran := ran + [s.current.stateItem];
    }
    assert ticks[..|ran|] == ticks;
    if |ticks| == |items[0]| {
      FullRound(r);
    }
  }

  lemma NothingReturned<T>(r: Ring<T>)
    requires r.Valid() && |r.items| > 0
    ensures AfterGets(r, 0) == r && Returned(r, 0) == []
  {
  }

  lemma {:induction false} OneMoreReturned<T>(r: Ring<T>, k: nat)
    requires r.Valid() && |r.items| > 0
    ensures AfterGets(r, k).Valid() && |AfterGets(r, k).items| > 0 && AfterGets(r, k).Next().cursor > 0
    ensures AfterGets(r, k + 1) == AfterGets(r, k).Next()
    ensures Returned(r, k + 1) == Returned(r, k) + [AfterGets(r, k).Next().Current()]
    decreases k
  {
    if k == 0 {
      assert Returned(r, 1) == [r.Next().Current()] + Returned(r.Next(), 0);
    } else {
      OneMoreReturned(r.Next(), k - 1);
    }
  }

  lemma NothingRun<T>(r: Ring<T>, ticks: seq<nat>)
    requires r.Valid()
    ensures AfterGets(r, 2 * 0) == r && Sum(ticks[..0]) == 0 <= Sum(ticks)
  {
  }

  lemma {:induction false} SumMore(ticks: seq<nat>, k: nat)
    requires k < |ticks|
    ensures Sum(ticks[..k + 1]) == Sum(ticks[..k]) + ticks[k] && Sum(ticks[..k + 1]) <= Sum(ticks)
  {
    if k == 0 {
      assert ticks[..1] == [ticks[0]] && ticks[..1][1..] == [];
    } else {
      SumMore(ticks[1..], k - 1);
      assert ticks[..k + 1][1..] == ticks[1..][..k] && ticks[..k][1..] == ticks[1..][..k - 1];
    }
  }

  lemma ChoiceIsCurrent<T>(r: Ring<T>, i: nat)
    requires r.Valid() && r.items != []
    ensures 0 < AfterGets(r, 2 * i + 2).cursor <= |AfterGets(r, 2 * i + 2).items|
    ensures AfterGets(r, 2 * i + 2).Current() == Choice(r, i) && 2 * i + 2 == 2 * (i + 1)
  {
    NthGet(r, 2 * i + 1);
  }

  lemma SharedIfOdd<T>(r: Ring<T>, ran: seq<T>)
    requires r.Valid() && r.items != [] && forall i :: 0 <= i < |ran| ==> ran[i] == Choice(r, i)
    ensures |ran| == |r.items| ==> ((forall x :: x in r.items ==> x in ran) <==> |r.items| % 2 == 1)
    ensures |r.ServiceOrder()| > 0 && (|r.items| % 2 == 0 ==> r.ServiceOrder()[0] !in ran)
  {
    EqualShareIffOdd(r);
    if |ran| == |r.items| && |r.items| % 2 == 1 {
      forall x | x in r.items ensures x in ran {
        var i: nat :| i < |r.items| && Choice(r, i) == x;
        assert ran[i] == x;
      }
    }
    if |ran| == |r.items| && |r.items| % 2 == 0 {
      ServiceMembers(r);
      assert r.ServiceOrder()[0] in r.ServiceOrder();
    }
  }

  // ---------- The same for a starved list ----------

  /** Somebody of priority p is starved, and no age there wraps around within as many ticks. */
  ghost predicate Starving(s: Selector, items: seq<seq<ListItem>>, age: map<ListItem, Tick>, p: nat, total: nat)
    requires |items| == |s.ready|
  {
    && 0 < p < |items| && (forall x :: x in items[p] ==> x in age && age[x] + total < WRAP)
    && exists x :: x in items[p] && s.Starved(age[x], p)
  }

  lemma {:induction false} SameFirstOldest(a: seq<Tick>, b: seq<Tick>, d: nat)
    requires |a| == |b| > 0 && forall i :: 0 <= i < |a| ==> b[i] == a[i] + d
    ensures FirstOldest(a) == FirstOldest(b)
  {
    var i, j := FirstOldest(a), FirstOldest(b);
    assert a[j] <= a[i] && b[i] <= b[j];
  }

  /** The same task is the oldest one as long as no age wraps around. */
  lemma SameOldest(s: Selector, items: seq<seq<ListItem>>, age: map<ListItem, Tick>, passed: nat, p: nat, r: Ring<ListItem>)
    requires Standing(s, items, age, passed) && p < |items| && r.Valid() && r.items == items[p] && r.items != []
    requires forall x :: x in items[p] ==> x in age && age[x] + passed < WRAP
    ensures forall x :: x in ScanOrder(r) ==> x in age
    ensures s.Ages(ScanOrder(r)) != [] && s.Oldest(r) == OldestIn(ScanOrder(r), age)
  {
    ScanMembers(r);
    var v := ScanOrder(r);
    forall i | 0 <= i < |v| ensures s.Age(v[i]) == age[v[i]] + passed {
      assert v[i] in items[p];
    }
    OldestByAge(s, v, age, passed);
    assert |v| == |r.items|;
  }

  lemma OldestByAge(s: Selector, v: seq<ListItem>, age: map<ListItem, Tick>, passed: nat)
    requires v != [] && (forall x :: x in v ==> x in age) && forall i :: 0 <= i < |v| ==> s.Age(v[i]) == age[v[i]] + passed
    ensures s.Ages(v) != [] && v[FirstOldest(s.Ages(v))] == OldestIn(v, age)
  {
    SameFirstOldest(AgesIn(v, age), s.Ages(v), passed);
  }

  lemma ShownSoon(time: nat)
    requires time < WRAP
    ensures Shown(time) == time
  {
  }

  lemma StillStarved(s: Selector, items: seq<seq<ListItem>>, age: map<ListItem, Tick>, passed: nat, p: nat, total: nat, r: Ring<ListItem>)
    requires Standing(s, items, age, passed) && |items| == |s.ready| && Starving(s, items, age, p, total) && passed <= total
    requires r.items == items[p]
    ensures s.HasStarved(r, p) && items[p] != []
    ensures forall x :: x in items[p] ==> x in age && age[x] + passed < WRAP
  {
    hide Shown;
    var x :| x in items[p] && s.Starved(age[x], p);
    ShownSoon(age[x] + passed);
  }

  /** The choice is made in the highest list with a starved task. */
  lemma StarvedChoice(s: Selector, items: seq<seq<ListItem>>, p: nat, was: Rings, level: nat)
    requires |items| == |s.ready| && 0 < p < |items| && level < |items|
    requires forall q :: 0 <= q < |items| ==> s.ready[q] in was
    requires s.HasStarved(was[s.ready[p]], p)
    requires forall q :: p < q < |items| ==> !s.HasStarved(was[s.ready[q]], q)
    requires level > 0 ==> s.HasStarved(was[s.ready[level]], level)
    requires s.NoneStarved(was, level + 1)
    ensures level == p
  {
  }

  lemma TurnedItems(s: Selector, items: seq<seq<ListItem>>, p: nat, was: Rings)
    requires |items| == |s.ready| && p < |items| && s.TurnedFrom(was, p) && items[p] != []
    requires forall q :: 0 <= q < |items| ==> s.ready[q] in was && was[s.ready[q]].items == items[q]
    ensures s.Valid() && forall q :: 0 <= q < |items| ==> s.ready[q].ring.items == items[q]
    ensures was[s.ready[p]].cursor <= |items[p]| && s.ready[p].ring == was[s.ready[p]].Next()
  {
  }

  method ChooseStarved(s: Selector, p: nat, ghost items: seq<seq<ListItem>>, ghost age: map<ListItem, Tick>, ghost passed: nat, ghost total: nat)
    requires Standing(s, items, age, passed) && |items| == |s.ready| && Starving(s, items, age, p, total)
    requires Calm(s, items, age, p + 1, total) && passed <= total
    modifies s`current, s.heap.lists`index, s.heap.lists`ring
    ensures Standing(s, items, age, passed) && p < |s.ready| && old(s.ready[p].ring.Valid())
    ensures s.ready[p].ring == old(s.ready[p].ring).Next() && old(s.ready[p].ring.items) != []
    ensures forall x :: x in ScanOrder(old(s.ready[p].ring)) ==> x in age
    ensures s.current.stateItem == OldestIn(ScanOrder(old(s.ready[p].ring)), age)
  {
    hide *;
    StandingParts(s, items, age, passed);
    StarvingParts(s, items, age, p, total);
    ghost var was, r := s.heap.Rings(), s.ready[p].ring;
    StillStarved(s, items, age, passed, p, total, r);
    SameOldest(s, items, age, passed, p, r);
    forall q | p < q < |items| ensures !s.HasStarved(was[s.ready[q]], q) {
      NobodyStarved(s, items, age, passed, p + 1, total, q, was[s.ready[q]]);
    }
    SomebodyStarved(s, was, p);
    ghost var level := s.SelectHighestPriorityTask();
    StarvedChoice(s, items, p, was, level);
    TurnedItems(s, items, p, was);
    StillStanding(s, items, age, passed);
  }

  lemma StarvingParts(s: Selector, items: seq<seq<ListItem>>, age: map<ListItem, Tick>, p: nat, total: nat)
    requires |items| == |s.ready| && Starving(s, items, age, p, total)
    ensures 0 < p < |items| && items[p] != [] && forall x :: x in items[p] ==> x in age
  {
  }

  /** A run of choices, some ticks before each, while somebody of priority p is starved and nobody above: every choice
      runs the task of the greatest age that the scan sees first, and the processor is shared equally just when all
      tasks of the list have been ready for equally long. One that has been ready for longest runs every time. */
  method RunStarved(s: Selector, p: nat, ticks: seq<nat>, ghost items: seq<seq<ListItem>>, ghost age: map<ListItem, Tick>)
    returns (ran: seq<ListItem>)
    requires Standing(s, items, age, 0) && |items| == |s.ready| && Starving(s, items, age, p, Sum(ticks))
    requires Calm(s, items, age, p + 1, Sum(ticks))
    modifies s`current, s`tickCount, s.heap.lists`index, s.heap.lists`ring
    ensures Standing(s, items, age, Sum(ticks)) && p < |s.ready| && old(s.ready[p].ring.Valid())
    ensures old(s.ready[p].ring.items) == items[p] && items[p] != [] && forall x :: x in items[p] ==> x in age
    ensures |ran| == |ticks| && forall i :: 0 <= i < |ran| ==> ran[i] == OldestChoice(old(s.ready[p].ring), age, i)
    ensures s.ready[p].ring == AfterGets(old(s.ready[p].ring), |ticks|)
    ensures |ticks| == |items[p]| ==>
              ((forall x :: x in items[p] ==> x in ran) <==> forall x, y :: x in items[p] && y in items[p] ==> age[x] == age[y])
    ensures forall x :: x in items[p] && (forall y :: y in items[p] && y != x ==> age[y] < age[x]) ==>
              forall i :: 0 <= i < |ran| ==> ran[i] == x
  {
    hide *;
    StandingParts(s, items, age, 0);
    StarvingParts(s, items, age, p, Sum(ticks));
    ghost var r := s.ready[p].ring;
    ran := [];
    NothingRun(r, ticks);
    while |ran| < |ticks|
      invariant |ran| <= |ticks| && Standing(s, items, age, Sum(ticks[..|ran|]))
      invariant Sum(ticks[..|ran|]) <= Sum(ticks)
      invariant forall i :: 0 <= i < |ran| ==> ran[i] == OldestChoice(r, age, i)
      invariant s.ready[p].ring == AfterGets(r, |ran|)
      decreases |ticks| - |ran|
    {
      SumMore(ticks, |ran|);
      ghost var passed := Sum(ticks[..|ran|]);
      TicksPass(s, ticks[|ran|], items, age, passed);
      ChooseStarved(s, p, items, age, passed + ticks[|ran|], Sum(ticks));
      OneMoreGet(r, |ran|);
      OldestChoiceIs(r, age, |ran|);
      ran := ran + [s.current.stateItem];
    }
    assert ticks[..|ran|] == ticks;
    SharedIfEqualAges(r, age, ran);
  }

  lemma OldestChoiceIs<T>(r: Ring<T>, age: map<T, Tick>, i: nat)
    requires r.Valid() && r.items != [] && forall x :: x in r.items ==> x in age
    ensures var now := AfterGets(r, i);
            && now.Valid() && now.items == r.items && (forall x :: x in ScanOrder(now) ==> x in age)
            && OldestChoice(r, age, i) == OldestIn(ScanOrder(now), age)
  {
    GetsValid(r, i);
    ScanMembers(AfterGets(r, i));
  }

  lemma SharedIfEqualAges<T>(r: Ring<T>, age: map<T, Tick>, ran: seq<T>)
    requires r.Valid() && r.items != [] && forall x :: x in r.items ==> x in age
    requires forall i :: 0 <= i < |ran| ==> ran[i] == OldestChoice(r, age, i)
    ensures |ran| == |r.items| ==>
              ((forall x :: x in r.items ==> x in ran) <==> forall x, y :: x in r.items && y in r.items ==> age[x] == age[y])
    ensures forall x :: x in r.items && (forall y :: y in r.items && y != x ==> age[y] < age[x]) ==>
              forall i :: 0 <= i < |ran| ==> ran[i] == x
  {
    EqualShareIffEqualAges(r, age);
    if |ran| == |r.items| {
      RanAll(r, age, ran);
    }
    forall x, i | x in r.items && (forall y :: y in r.items && y != x ==> age[y] < age[x]) && 0 <= i < |ran|
      ensures ran[i] == x
    {
      TheOldestRunsAlone(r, age, x, i);
    }
  }

  lemma RanAll<T>(r: Ring<T>, age: map<T, Tick>, ran: seq<T>)
    requires r.Valid() && r.items != [] && forall x :: x in r.items ==> x in age
    requires |ran| == |r.items| && forall i :: 0 <= i < |ran| ==> ran[i] == OldestChoice(r, age, i)
    ensures (forall x :: x in r.items ==> x in ran)
       <==> (forall x :: x in r.items ==> exists i: nat :: i < |r.items| && OldestChoice(r, age, i) == x)
  {
    forall x ensures x in ran <==> exists i: nat :: i < |r.items| && OldestChoice(r, age, i) == x {
      if x in ran {
        var i :| 0 <= i < |ran| && ran[i] == x;
        assert OldestChoice(r, age, i) == x;
      }
      if i: nat :| i < |r.items| && OldestChoice(r, age, i) == x {
        assert ran[i] == x;
      }
    }
  }
}
