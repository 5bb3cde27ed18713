/** The circular list of the scheduler as a value: the items after the end marker, in link order, and the
    position of the round-robin cursor (0 is the end marker, k the k-th item). The list operations are
    functions on that value; `KernelList` proves that the pointer code computes them. The lemmas here are
    the laws of turn taking, for one call and for whole runs. */
module RoundRobin {
  import opened Sequences

  // ---------- The ring and its operations ----------

  datatype Ring<T> = Ring(items: seq<T>, cursor: nat) {

    ghost predicate Valid() {
      cursor <= |items| && Distinct(items)
    }

    /** Step the cursor to the next node, and once more if that is the marker. */
    function Next(): (r: Ring<T>)
      requires cursor <= |items|
    {
      var step := if cursor == |items| then 0 else cursor + 1;
      this.(cursor := if step == 0 && |items| > 0 then 1 else step)
    }

    function Current(): T
      requires 0 < cursor <= |items|
    {
      items[cursor - 1]
    }

    /** Unlink the k-th item; a cursor at or behind it moves back by one node. */
    function Remove(k: nat): Ring<T>
      requires k < |items|
    {
      Ring(Erase(items, k), if cursor > k then cursor - 1 else cursor)
    }

    /** Link x in as the p-th item. */
    function Insert(p: nat, x: T): Ring<T>
      requires p <= |items|
    {
      Ring(InsertAt(items, p, x), if cursor > p then cursor + 1 else cursor)
    }

    /** Just before the node under the cursor. */
    function EndPosition(): (p: nat)
      requires cursor <= |items|
      ensures p <= |items|
    {
      if cursor == 0 then |items| else cursor - 1
    }

    function InsertEnd(x: T): Ring<T>
      requires cursor <= |items|
    {
      Insert(EndPosition(), x)
    }

    /** The items in the order in which the coming get-next calls return them. */
    function ServiceOrder(): (s: seq<T>)
      requires cursor <= |items|
      ensures |s| == |items|
    {
      items[cursor..] + items[..cursor]
    }
  }

  // ---------- One call ----------

  /** Get-next on a list with items is a rotation of the service order, and returns its first item. */
  lemma NextRotates<T>(r: Ring<T>)
    requires r.Valid() && |r.items| > 0
    ensures var s := r.ServiceOrder();
            r.Next().cursor > 0 && r.Next().Current() == s[0] && r.Next().ServiceOrder() == s[1..] + [s[0]]
  {
    var s := r.ServiceOrder();
    if r.cursor == |r.items| {
      assert s == r.items;
      assert r.items[..1] == [s[0]];
    } else {
      assert r.items[..r.cursor + 1] == r.items[..r.cursor] + [s[0]];
      assert s[1..] == r.items[r.cursor + 1..] + r.items[..r.cursor];
    }
  }

  lemma EraseFromRotation<T>(s: seq<T>, c: nat, k: nat)
    requires c <= |s| && k < |s|
    ensures var rotated, at := s[c..] + s[..c], Turns(|s|, c, k);
            rotated[at] == s[k] &&
            Erase(rotated, at) == Ring(s, c).Remove(k).ServiceOrder()
  {
    assert s == s[..c] + s[c..];
    EraseConcat(s[..c], s[c..], k);
    EraseConcat(s[c..], s[..c], Turns(|s|, c, k));
  }

  /** A removal takes the removed item out of the service order and changes no other turn. */
  lemma RemoveKeepsTurns<T>(r: Ring<T>, k: nat)
    requires r.Valid() && k < |r.items|
    ensures r.Remove(k).Valid()
    ensures var s, x := r.ServiceOrder(), r.items[k];
            x in s && r.Remove(k).ServiceOrder() == Erase(s, IndexOf(s, x))
  {
    ErasedMembers(r.items, k);
    EraseFromRotation(r.items, r.cursor, k);
    ServiceOrderDistinct(r);
    IndexOfAt(r.ServiceOrder(), Turns(|r.items|, r.cursor, k));
  }

  /** An item inserted while the cursor is on the marker gets the last turn. While the cursor is on an item,
      that item keeps the last turn and the new one is served just before it. */
  lemma InsertEndTurn<T>(r: Ring<T>, x: T)
    requires r.Valid() && x !in r.items
    ensures r.InsertEnd(x).Valid()
    ensures var s := r.ServiceOrder();
            r.InsertEnd(x).ServiceOrder() ==
            if r.cursor == 0 then s + [x] else s[..|s| - 1] + [x, r.Current()]
  {
    var s, t := r.ServiceOrder(), r.InsertEnd(x);
    InsertedMembers(r.items, r.EndPosition(), x);
    if r.cursor > 0 {
      var c := r.cursor;
      assert t.items[c + 1..] == r.items[c..];
      assert t.items[..c + 1] == r.items[..c - 1] + [x, r.items[c - 1]];
      assert s[..|s| - 1] == r.items[c..] + r.items[..c - 1];
    }
  }

  /** The promise that an inserted item is the last one returned holds exactly when the cursor is on the marker. */
  lemma InsertedLastIffOnMarker<T>(r: Ring<T>, x: T)
    requires r.Valid() && x !in r.items
    ensures var s := r.InsertEnd(x).ServiceOrder();
            s[|s| - 1] == x <==> r.cursor == 0
  {
    InsertEndTurn(r, x);
  }

  lemma ServiceOrderDistinct<T>(r: Ring<T>)
    requires r.Valid()
    ensures Distinct(r.ServiceOrder())
    ensures multiset(r.ServiceOrder()) == multiset(r.items)
  {
    var s, c, n := r.ServiceOrder(), r.cursor, |r.items|;
    assert r.items == r.items[..c] + r.items[c..];
    forall i, j | 0 <= i < n && 0 <= j < n && Apart(i, j) ensures s[i] != s[j] {
      assert Apart(if i < n - c then i + c else i - (n - c), if j < n - c then j + c else j - (n - c));
    }
  }

  // ---------- Consecutive get-next calls ----------

  function AfterGets<T>(r: Ring<T>, k: nat): Ring<T>
    requires r.cursor <= |r.items|
    ensures AfterGets(r, k).cursor <= |AfterGets(r, k).items|
    decreases k
  {
    if k == 0 then r else AfterGets(r.Next(), k - 1)
  }

  /** What k get-next calls in a row return. */
  function Returned<T>(r: Ring<T>, k: nat): (s: seq<T>)
    requires r.cursor <= |r.items| && |r.items| > 0
    ensures |s| == k
    decreases k
  {
    if k == 0 then [] else [r.Next().Current()] + Returned(r.Next(), k - 1)
  }

  lemma {:induction false} OneMoreGet<T>(r: Ring<T>, k: nat)
    requires r.cursor <= |r.items|
    ensures AfterGets(r, k + 1) == AfterGets(r, k).Next()
    decreases k
  {
    if k == 0 {
    } else {
      OneMoreGet(r.Next(), k - 1);
    }
  }

  /** However many calls there are, they go round and round in service order. */
  lemma {:induction false} NthGet<T>(r: Ring<T>, k: nat)
    requires r.Valid() && |r.items| > 0
    ensures AfterGets(r, k + 1).Valid() && AfterGets(r, k + 1).items == r.items && AfterGets(r, k + 1).cursor > 0
    ensures AfterGets(r, k + 1).Current() == r.ServiceOrder()[k % |r.items|]
    decreases k
  {
    hide Ring.ServiceOrder;
    NextRotates(r);
    if k == 0 {
      Remainder(0, |r.items|, 0, 0);
    } else {
      NthGet(r.Next(), k - 1);
      NextPlace(k, |r.items|);
      RotatedAt(r.ServiceOrder(), (k - 1) % |r.items|);
    }
  }

  /** As many calls as there are items return every item exactly once, in service order; a cursor that
      started on an item is back on it, and one that started on the marker ends on the last item. */
  lemma FullRound<T>(r: Ring<T>)
    requires r.Valid() && |r.items| > 0
    ensures Returned(r, |r.items|) == r.ServiceOrder()
    ensures multiset(Returned(r, |r.items|)) == multiset(r.items)
    ensures AfterGets(r, |r.items|) == r.(cursor := if r.cursor == 0 then |r.items| else r.cursor)
  {
    hide *;
    ServiceOrderDistinct(r);
    PartialRound(r, |r.items|);
    assert r.ServiceOrder()[..|r.items|] == r.ServiceOrder();
    CursorWithin(r);
  }

  lemma CursorWithin<T>(r: Ring<T>)
    requires r.Valid()
    ensures r.cursor <= |r.items|
  {
  }

  lemma {:induction false} PartialRound<T>(r: Ring<T>, k: nat)
    requires r.Valid() && k <= |r.items| && |r.items| > 0
    ensures Returned(r, k) == r.ServiceOrder()[..k]
    ensures AfterGets(r, k) == r.(cursor := if r.cursor + k <= |r.items| then r.cursor + k else r.cursor + k - |r.items|)
    decreases k
  {
    if k == 0 {
    } else {
      NextRotates(r);
      PartialRound(r.Next(), k - 1);
      var s := r.ServiceOrder();
      assert (s[1..] + [s[0]])[..k - 1] == s[1..k];
    }
  }

  // ---------- Whole runs of one list ----------

  datatype Step<T> = GetNext | Added(x: T) | Removed(x: T)

  /** What the code asks of its callers: a removed item is in the list, an inserted one is not. */
  predicate Allowed<T(==)>(r: Ring<T>, step: Step<T>) {
    match step
    case GetNext => true
    case Added(x) => x !in r.items
    case Removed(x) => x in r.items
  }

  function Apply<T(==)>(r: Ring<T>, step: Step<T>): Ring<T>
    requires r.cursor <= |r.items| && Allowed(r, step)
  {
    match step
    case GetNext => r.Next()
    case Added(x) => r.InsertEnd(x)
    case Removed(x) => r.Remove(IndexOf(r.items, x))
  }

  lemma ApplyValid<T>(r: Ring<T>, step: Step<T>)
    requires r.Valid() && Allowed(r, step)
    ensures Apply(r, step).Valid()
  {
    match step
    case GetNext =>
    case Added(x) => InsertedMembers(r.items, r.EndPosition(), x);
    case Removed(x) => ErasedMembers(r.items, IndexOf(r.items, x));
  }

  predicate AllAllowed<T(==)>(r: Ring<T>, steps: seq<Step<T>>)
    requires r.cursor <= |r.items|
    decreases |steps|
  {
    steps == [] ||
    (Allowed(r, steps[0]) && Apply(r, steps[0]).cursor <= |Apply(r, steps[0]).items| && AllAllowed(Apply(r, steps[0]), steps[1..]))
  }

  function AfterSteps<T(==)>(r: Ring<T>, steps: seq<Step<T>>): (t: Ring<T>)
    requires r.cursor <= |r.items| && AllAllowed(r, steps)
    ensures t.cursor <= |t.items|
    decreases |steps|
  {
    if steps == [] then r else AfterSteps(Apply(r, steps[0]), steps[1..])
  }

  lemma {:induction false} StepsConcat<T>(r: Ring<T>, a: seq<Step<T>>, b: seq<Step<T>>)
    requires r.Valid() && AllAllowed(r, a)
    ensures AfterSteps(r, a).Valid()
    ensures AllAllowed(r, a + b) <==> AllAllowed(AfterSteps(r, a), b)
    ensures AllAllowed(r, a + b) ==> AfterSteps(r, a + b) == AfterSteps(AfterSteps(r, a), b)
    decreases |a|
  {
    if a == [] {
      assert a + b == b;
    } else {
      ApplyValid(r, a[0]);
      assert (a + b)[1..] == a[1..] + b;
      StepsConcat(Apply(r, a[0]), a[1..], b);
    }
  }

  lemma {:induction false} StepsSplit<T>(r: Ring<T>, a: seq<Step<T>>, b: seq<Step<T>>)
    requires r.Valid() && AllAllowed(r, a + b)
    ensures AllAllowed(r, a) && AfterSteps(r, a).Valid() && AllAllowed(AfterSteps(r, a), b)
    ensures AfterSteps(r, a + b) == AfterSteps(AfterSteps(r, a), b)
    decreases |a|
  {
    if a == [] {
      assert a + b == b;
    } else {
      ApplyValid(r, a[0]);
      assert (a + b)[1..] == a[1..] + b;
      StepsSplit(Apply(r, a[0]), a[1..], b);
    }
  }

  lemma StepAppended<T>(r: Ring<T>, steps: seq<Step<T>>, step: Step<T>)
    requires r.Valid() && AllAllowed(r, steps) && Allowed(AfterSteps(r, steps), step)
    ensures AllAllowed(r, steps + [step]) && AfterSteps(r, steps + [step]) == Apply(AfterSteps(r, steps), step)
  {
    StepsConcat(r, steps, [step]);
    ApplyValid(AfterSteps(r, steps), step);
    assert [step][1..] == [];
  }

  /** p is a waiting item: it is in the list, and the step does not take it out. */
  predicate Waits<T(==)>(r: Ring<T>, step: Step<T>, p: T) {
    p in r.items && Allowed(r, step) && step != Removed(p)
  }

  predicate Serves<T(==)>(r: Ring<T>, step: Step<T>, p: T)
    requires r.cursor <= |r.items| && p in r.items
  {
    step.GetNext? && r.Next().cursor > 0 && r.Next().Current() == p
  }

  /** How many items are served before p. */
  function Ahead<T(==)>(r: Ring<T>, p: T): (d: nat)
    requires r.cursor <= |r.items| && p in r.items
  {
    Turns(|r.items|, r.cursor, IndexOf(r.items, p))
  }

  /** On positions: n items, the cursor at c, and the item with index i. */
  function Turns(n: nat, c: nat, i: nat): nat
    requires c <= n && i < n
  {
    if c <= i then i - c else n - c + i
  }

  lemma AheadIsTurn<T>(r: Ring<T>, p: T)
    requires r.Valid() && p in r.items
    ensures p in r.ServiceOrder()
    ensures Ahead(r, p) == IndexOf(r.ServiceOrder(), p)
  {
    ServiceOrderDistinct(r);
    assert r.ServiceOrder()[Ahead(r, p)] == p;
    IndexOfAt(r.ServiceOrder(), Ahead(r, p));
  }

  /** The cursor stands on p: the one position where an insertion goes in front of p. */
  predicate On<T(==)>(r: Ring<T>, p: T) {
    0 < r.cursor <= |r.items| && r.Current() == p
  }

  /** x would be served before p. */
  predicate Before<T(==)>(r: Ring<T>, x: T, p: T)
    requires r.cursor <= |r.items| && x in r.items && p in r.items
  {
    Ahead(r, x) < Ahead(r, p)
  }

  /** How one step changes the number of turns ahead of p. */
  function Shift<T(==)>(r: Ring<T>, step: Step<T>, p: T): int
    requires r.cursor <= |r.items| && Waits(r, step, p)
  {
    match step
    case GetNext => -1
    case Added(_) => if On(r, p) then 1 else 0
    case Removed(x) => if Before(r, x, p) then -1 else 0
  }

  /** Where a waiting item stands after a step. */
  function Position<T(==)>(r: Ring<T>, step: Step<T>, p: T): int
    requires r.cursor <= |r.items| && Waits(r, step, p)
  {
    var i := IndexOf(r.items, p);
    match step
    case GetNext => i
    case Added(_) => if r.EndPosition() <= i then i + 1 else i
    case Removed(x) => if IndexOf(r.items, x) < i then i - 1 else i
  }

  lemma StepMoves<T>(r: Ring<T>, step: Step<T>, p: T)
    requires r.Valid() && Waits(r, step, p)
    ensures Apply(r, step).Valid() && p in Apply(r, step).items
    ensures IndexOf(Apply(r, step).items, p) == Position(r, step, p)
  {
    ApplyValid(r, step);
    var at, t := Position(r, step, p), Apply(r, step);
    assert t.items[at] == p;
    IndexOfAt(t.items, at);
  }

  lemma StepShifts<T>(r: Ring<T>, step: Step<T>, p: T)
    requires r.Valid() && Waits(r, step, p) && !Serves(r, step, p)
    ensures Apply(r, step).Valid() && p in Apply(r, step).items
    ensures Ahead(Apply(r, step), p) == Ahead(r, p) + Shift(r, step, p)
  {
    StepMoves(r, step, p);
    match step {
      case GetNext => CursorOnOrNot(r, p);
      case Added(x) => AddShifts(r, x, p);
      case Removed(x) => RemoveShifts(r, x, p);
    }
  }

  lemma AddShifts<T>(r: Ring<T>, x: T, p: T)
    requires r.Valid() && x !in r.items && p in r.items && p in r.InsertEnd(x).items
    requires IndexOf(r.InsertEnd(x).items, p) == Position(r, Added(x), p)
    ensures Ahead(r.InsertEnd(x), p) == Ahead(r, p) + if On(r, p) then 1 else 0
  {
    CursorOnOrNot(r, p);
  }

  lemma RemoveShifts<T>(r: Ring<T>, x: T, p: T)
    requires r.Valid() && p in r.items && x in r.items && x != p && p in r.Remove(IndexOf(r.items, x)).items
    requires IndexOf(r.Remove(IndexOf(r.items, x)).items, p) == Position(r, Removed(x), p)
    ensures Ahead(r.Remove(IndexOf(r.items, x)), p) == Ahead(r, p) - if Before(r, x, p) then 1 else 0
  {
  }

  lemma CursorOnOrNot<T>(r: Ring<T>, p: T)
    requires r.Valid() && p in r.items
    ensures On(r, p) <==> r.cursor == IndexOf(r.items, p) + 1
    ensures Serves(r, GetNext, p) <==> r.Next().cursor == IndexOf(r.items, p) + 1
  {
    var i := IndexOf(r.items, p);
    assert r.cursor > 0 ==> r.cursor - 1 == i || Apart(r.cursor - 1, i);
    assert r.Next().cursor - 1 == i || Apart(r.Next().cursor - 1, i);
  }

  /** Every step of the run is allowed and p stays in the list, without being served. */
  predicate WaitsThrough<T(==)>(r: Ring<T>, steps: seq<Step<T>>, p: T)
    requires r.cursor <= |r.items|
    decreases |steps|
  {
    p in r.items &&
    (steps == [] ||
     (Waits(r, steps[0], p) && !Serves(r, steps[0], p) &&
      Apply(r, steps[0]).cursor <= |Apply(r, steps[0]).items| &&
      WaitsThrough(Apply(r, steps[0]), steps[1..], p)))
  }

  function Run<T(==)>(r: Ring<T>, steps: seq<Step<T>>, p: T): (t: Ring<T>)
    requires r.cursor <= |r.items| && WaitsThrough(r, steps, p)
    ensures t.cursor <= |t.items| && p in t.items
    decreases |steps|
  {
    if steps == [] then r else Run(Apply(r, steps[0]), steps[1..], p)
  }

  function Gets<T(==)>(steps: seq<Step<T>>): nat {
    if steps == [] then 0 else (if steps[0].GetNext? then 1 else 0) + Gets(steps[1..])
  }

  lemma {:induction false} GetsConcat<T>(a: seq<Step<T>>, b: seq<Step<T>>)
    ensures Gets(a + b) == Gets(a) + Gets(b)
    decreases |a|
  {
    if a == [] {
      assert a + b == b;
    } else {
      assert (a + b)[1..] == a[1..] + b;
      GetsConcat(a[1..], b);
    }
  }

  /** Insertions made while the cursor stands on p. */
  function PushBacks<T(==)>(r: Ring<T>, steps: seq<Step<T>>, p: T): nat
    requires r.cursor <= |r.items| && WaitsThrough(r, steps, p)
    decreases |steps|
  {
    if steps == [] then 0
    else (if steps[0].Added? && On(r, p) then 1 else 0) + PushBacks(Apply(r, steps[0]), steps[1..], p)
  }

  /** Removals of an item that would have been served before p. */
  function Withdrawals<T(==)>(r: Ring<T>, steps: seq<Step<T>>, p: T): nat
    requires r.cursor <= |r.items| && WaitsThrough(r, steps, p)
    decreases |steps|
  {
    if steps == [] then 0
    else (if steps[0].Removed? && Before(r, steps[0].x, p) then 1 else 0) + Withdrawals(Apply(r, steps[0]), steps[1..], p)
  }

  /** Exact accounting over any run: the turns ahead of a waiting item are the initial ones, plus the insertions
      made while the cursor stood on it, minus the get-next calls and the withdrawals ahead of it. */
  lemma {:induction false} WaitingAccount<T>(r: Ring<T>, steps: seq<Step<T>>, p: T)
    requires r.Valid() && WaitsThrough(r, steps, p)
    ensures Run(r, steps, p).Valid()
    ensures Ahead(Run(r, steps, p), p) + Gets(steps) + Withdrawals(r, steps, p) == Ahead(r, p) + PushBacks(r, steps, p)
    decreases |steps|
  {
    if steps == [] {
    } else {
      StepShifts(r, steps[0], p);
      WaitingAccount(Apply(r, steps[0]), steps[1..], p);
    }
  }

  /** The cursor has not reached p in the current round. */
  predicate Upcoming<T(==)>(r: Ring<T>, p: T)
    requires p in r.items
  {
    r.cursor <= IndexOf(r.items, p)
  }

  lemma UpcomingStays<T>(r: Ring<T>, step: Step<T>, p: T)
    requires r.Valid() && Waits(r, step, p) && !Serves(r, step, p) && Upcoming(r, p)
    ensures p in Apply(r, step).items && Upcoming(Apply(r, step), p) && !On(r, p)
  {
    hide Distinct, Erase, InsertAt;
    StepMoves(r, step, p);
    CursorOnOrNot(r, p);
  }

  /** Bounded waiting: with the cursor before p and d items between them, p is returned by the (d + 1)-th
      get-next at the latest, whatever is inserted and removed meanwhile. */
  lemma {:induction false} BoundedWaiting<T>(r: Ring<T>, steps: seq<Step<T>>, p: T)
    requires r.Valid() && WaitsThrough(r, steps, p) && Upcoming(r, p)
    ensures PushBacks(r, steps, p) == 0
    ensures Gets(steps) <= IndexOf(r.items, p) - r.cursor
    ensures Upcoming(Run(r, steps, p), p)
    decreases |steps|
  {
    if steps == [] {
    } else {
      StepShifts(r, steps[0], p);
      UpcomingStays(r, steps[0], p);
      BoundedWaiting(Apply(r, steps[0]), steps[1..], p);
    }
  }

  /** With the cursor at or past p, any run without serving p splits in two: at most one get-next more than there
      were items behind the cursor until the cursor wraps, then at most as many as there are items before p. */
  lemma {:induction false} NoStarvation<T>(r: Ring<T>, steps: seq<Step<T>>, p: T) returns (k: nat)
    requires r.Valid() && WaitsThrough(r, steps, p) && !Upcoming(r, p)
    ensures k <= |steps| && WaitsThrough(r, steps[..k], p)
    ensures Gets(steps[..k]) <= |r.items| - r.cursor + 1
    ensures k < |steps| ==>
              var t := Run(r, steps[..k], p);
              Upcoming(t, p) && t.cursor == 1 && Gets(steps[k..]) <= IndexOf(t.items, p) - t.cursor
    decreases |steps|
  {
    if steps == [] {
      k := 0;
    } else {
      StepShifts(r, steps[0], p);
      var t := Apply(r, steps[0]);
      RemainderShrinks(r, steps[0], p);
      if Upcoming(t, p) {
        k := 1;
        assert steps[..1] == [steps[0]];
        assert WaitsThrough(t, steps[..1][1..], p);
        assert Gets(steps[..1]) == 1 + Gets(steps[..1][1..]);
        BoundedWaiting(t, steps[1..], p);
      } else {
        var j := NoStarvation(t, steps[1..], p);
        k := j + 1;
        assert steps[..k][1..] == steps[1..][..j];
        assert steps[k..] == steps[1..][j..];
      }
    }
  }

  /** While the cursor is at or past p, the items behind it never grow in number and every get-next uses one up;
      only a get-next can wrap, and it wraps to the first item. */
  lemma RemainderShrinks<T>(r: Ring<T>, step: Step<T>, p: T)
    requires r.Valid() && Waits(r, step, p) && !Serves(r, step, p) && !Upcoming(r, p)
    ensures var t := Apply(r, step);
            p in t.items &&
            if Upcoming(t, p) then step.GetNext? && t.cursor == 1 && r.cursor == |r.items|
            else |t.items| - t.cursor + (if step.GetNext? then 1 else 0) <= |r.items| - r.cursor
  {
    StepMoves(r, step, p);
    CursorOnOrNot(r, p);
  }

  // ---------- Endless runs ----------

  /** The rounds still to go before p's, and the turns ahead of p in that round. */
  function RoundsToGo<T(==)>(r: Ring<T>, p: T): nat
    requires r.cursor <= |r.items| && p in r.items
  {
    if Upcoming(r, p) then 0 else |r.items| - r.cursor + 1
  }

  function TurnsToGo<T(==)>(r: Ring<T>, p: T): nat
    requires r.cursor <= |r.items| && p in r.items
  {
    if Upcoming(r, p) then IndexOf(r.items, p) - r.cursor else 0
  }

  /** The pair never grows lexicographically, and every get-next that serves another item shrinks it. */
  lemma MeasureShrinks<T>(r: Ring<T>, step: Step<T>, p: T)
    requires r.Valid() && Waits(r, step, p) && !Serves(r, step, p)
    ensures Apply(r, step).Valid() && p in Apply(r, step).items
    ensures var t := Apply(r, step);
            || RoundsToGo(t, p) < RoundsToGo(r, p)
            || (RoundsToGo(t, p) == RoundsToGo(r, p) && TurnsToGo(t, p) + (if step.GetNext? then 1 else 0) <= TurnsToGo(r, p))
  {
    StepShifts(r, step, p);
    if Upcoming(r, p) {
      UpcomingStays(r, step, p);
    } else {
      RemainderShrinks(r, step, p);
    }
  }

  /** An endless run: the state at each time, and the step taken there. */
  ghost predicate Endless<T>(state: nat -> Ring<T>, step: nat -> Step<T>, p: T) {
    forall n: nat {:trigger step(n)} ::
      && state(n).Valid() && Waits(state(n), step(n), p) && state(n + 1) == Apply(state(n), step(n))
  }

  ghost predicate GetsForever<T>(step: nat -> Step<T>) {
    forall n: nat :: GetsAfter(step, n)
  }

  ghost predicate GetsAfter<T>(step: nat -> Step<T>, n: nat) {
    exists m: nat :: n <= m && step(m).GetNext?
  }

  /** Liveness: in every endless run with get-next calls again and again, an item that stays in the list
      is served after any given time. */
  lemma {:induction false} EventuallyServed<T>(state: nat -> Ring<T>, step: nat -> Step<T>, p: T, n: nat) returns (m: nat)
    requires Endless(state, step, p) && GetsForever(step)
    ensures n <= m && state(m).Valid() && p in state(m).items && Serves(state(m), step(m), p)
  {
    assert GetsAfter(step, n);
    var w: nat :| n <= w && step(w).GetNext?;
    m := ServedFrom(state, step, p, n, w);
  }

  lemma {:induction false} ServedFrom<T>(state: nat -> Ring<T>, step: nat -> Step<T>, p: T, n: nat, w: nat) returns (m: nat)
    requires Endless(state, step, p) && GetsForever(step)
    requires n <= w && step(w).GetNext?
    requires state(n).Valid() && p in state(n).items
    ensures n <= m && state(m).Valid() && p in state(m).items && Serves(state(m), step(m), p)
    decreases RoundsToGo(state(n), p), TurnsToGo(state(n), p), w - n
  {
    if Serves(state(n), step(n), p) {
      m := n;
    } else {
      MeasureShrinks(state(n), step(n), p);
      assert state(n + 1) == Apply(state(n), step(n));
      if step(n).GetNext? {
        assert GetsAfter(step, n + 1);
        var v: nat :| n + 1 <= v && step(v).GetNext?;
        m := ServedFrom(state, step, p, n + 1, v);
      } else {
        m := ServedFrom(state, step, p, n + 1, w);
      }
    }
  }
}
