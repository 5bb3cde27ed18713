/** How two lists of 32-bit wake times stand for one queue of absolute times: the delayed list for the current run of
    the tick counter, the overflow list for the run after its next wrap-around. */
module DelayedLists {
  import opened Sequences
  import opened SortedInsertion
  import TQ = TimerQueue

  const WRAP := 0x1_0000_0000

  /** What a 32-bit counter of the ticks since the start shows at that time. */
  function Shown(time: nat): Tick {
    time % WRAP
  }

  /** The items of the two lists, and what they carry. */
  datatype Pair<!T> = Pair(delayed: seq<T>, overflow: seq<T>, values: map<T, Tick>) {

    ghost predicate Closed() {
      (forall x :: x in delayed ==> x in values) && (forall x :: x in overflow ==> x in values)
    }

    /** All sleepers with their absolute times, where `base` is the time at which the counter was last zero. */
    ghost function Sleepers(base: nat): seq<Entry<T>>
      requires Closed()
    {
      Stamped(delayed, values, base) + Stamped(overflow, values, base + WRAP)
    }

    /** Both lists are in wake order; nothing in the delayed list is due before `tick`, or before the cached `next`;
        an overflow is due before the counter has gone once around. */
    ghost predicate Timely(tick: Tick, next: Tick) {
      && Closed()
      && Sorted(ValuesOf(delayed, values)) && Sorted(ValuesOf(overflow, values))
      && (forall v :: v in ValuesOf(delayed, values) ==> tick <= v && next <= v)
      && (forall v :: v in ValuesOf(overflow, values) ==> v <= tick)
    }
  }

  ghost function ValuesOf<T>(items: seq<T>, values: map<T, Tick>): (vs: seq<Tick>)
    requires forall x :: x in items ==> x in values
    ensures |vs| == |items| && forall i :: 0 <= i < |vs| ==> vs[i] == values[items[i]]
  {
    seq(|items|, i requires 0 <= i < |items| => values[items[i]])
  }

  ghost function Stamped<T>(items: seq<T>, values: map<T, Tick>, base: nat): (s: seq<Entry<T>>)
    requires forall x :: x in items ==> x in values
    ensures |s| == |items| && forall i :: 0 <= i < |s| ==> s[i] == Entry(base + values[items[i]], items[i])
  {
    seq(|items|, i requires 0 <= i < |items| => Entry(base + values[items[i]], items[i]))
  }

  /** The list after a sorted insertion. */
  ghost function WithSorted<T>(items: seq<T>, values: map<T, Tick>, x: T): seq<T>
    requires (forall y :: y in items ==> y in values) && x in values
  {
    InsertAt(items, InsertPosition(ValuesOf(items, values), values[x]), x)
  }

  // ---------- Positions ----------

  lemma PositionShifts(vs: seq<nat>, us: seq<nat>, base: nat, v: nat)
    requires |us| == |vs| && forall i :: 0 <= i < |vs| ==> us[i] == base + vs[i]
    ensures InsertPosition(us, base + v) == InsertPosition(vs, v)
  {
    InsertPositionIs(us, base + v, InsertPosition(vs, v));
  }

  lemma PositionInFirst(a: seq<nat>, b: seq<nat>, k: nat)
    requires forall x :: x in b ==> x > k
    ensures InsertPosition(a + b, k) == InsertPosition(a, k)
  {
    var p := InsertPosition(a, k);
    if p == |a| < |a + b| {
      assert b[0] in b;
    }
    InsertPositionIs(a + b, k, p);
  }

  lemma PositionInSecond(a: seq<nat>, b: seq<nat>, k: nat)
    requires forall x :: x in a ==> x <= k
    ensures InsertPosition(a + b, k) == |a| + InsertPosition(b, k)
  {
    var p := InsertPosition(b, k);
    forall i | 0 <= i < |a| + p ensures (a + b)[i] <= k {
      if i < |a| {
        assert a[i] in a;
      }
    }
    InsertPositionIs(a + b, k, |a| + p);
  }

  // ---------- One list ----------

  lemma StampedRange<T>(items: seq<T>, values: map<T, Tick>, base: nat)
    requires forall x :: x in items ==> x in values
    ensures forall k :: k in Keys(Stamped(items, values, base)) ==> base <= k < base + WRAP
    ensures Sorted(ValuesOf(items, values)) ==> Sorted(Keys(Stamped(items, values, base)))
  {
    var s, vs := Keys(Stamped(items, values, base)), ValuesOf(items, values);
    assert forall i :: 0 <= i < |s| ==> s[i] == base + vs[i];
    if Sorted(vs) {
      assert forall i, j {:trigger Ordered(i, j)} :: 0 <= i && j < |s| && Ordered(i, j) ==> s[i] <= s[j];
    }
  }

  lemma SortedStamped<T>(items: seq<T>, values: map<T, Tick>, x: T, base: nat)
    requires (forall y :: y in items ==> y in values) && x in values
    ensures forall y :: y in WithSorted(items, values, x) ==> y in values
    ensures Stamped(WithSorted(items, values, x), values, base)
         == Enter(Stamped(items, values, base), Entry(base + values[x], x))
  {
    hide Sorted, InsertPosition;
    PositionShifts(ValuesOf(items, values), Keys(Stamped(items, values, base)), base, values[x]);
    StampedInserted(items, values, x, base, InsertPosition(ValuesOf(items, values), values[x]));
  }

  lemma StampedInserted<T>(items: seq<T>, values: map<T, Tick>, x: T, base: nat, p: nat)
    requires (forall y :: y in items ==> y in values) && x in values && p <= |items|
    ensures forall y :: y in InsertAt(items, p, x) ==> y in values
    ensures Stamped(InsertAt(items, p, x), values, base)
         == InsertAt(Stamped(items, values, base), p, Entry(base + values[x], x))
  {
    var s, t := Stamped(items, values, base), InsertAt(items, p, x);
    assert forall i :: 0 <= i < |t| ==> t[i] == if i < p then items[i] else if i == p then x else items[i - 1];
  }

  lemma SortedValues<T>(items: seq<T>, values: map<T, Tick>, x: T)
    requires (forall y :: y in items ==> y in values) && x in values && Sorted(ValuesOf(items, values))
    ensures forall y :: y in WithSorted(items, values, x) ==> y in values
    ensures Sorted(ValuesOf(WithSorted(items, values, x), values))
    ensures forall v :: v in ValuesOf(WithSorted(items, values, x), values) ==> v == values[x] || v in ValuesOf(items, values)
  {
    var vs, v := ValuesOf(items, values), values[x];
    InsertKeepsSorted(vs, v);
    assert ValuesOf(WithSorted(items, values, x), values) == InsertAt(vs, InsertPosition(vs, v), v);
  }

  lemma WithSortedMembers<T>(items: seq<T>, values: map<T, Tick>, x: T)
    requires (forall y :: y in items ==> y in values) && x in values
    ensures forall y :: y in WithSorted(items, values, x) ==> y == x || y in items
  {
  }

  lemma ErasedValues<T>(items: seq<T>, values: map<T, Tick>, i: nat)
    requires (forall y :: y in items ==> y in values) && i < |items| && Sorted(ValuesOf(items, values))
    ensures forall y :: y in Erase(items, i) ==> y in values
    ensures Sorted(ValuesOf(Erase(items, i), values))
    ensures forall v :: v in ValuesOf(Erase(items, i), values) ==> v in ValuesOf(items, values)
  {
    assert ValuesOf(Erase(items, i), values) == Erase(ValuesOf(items, values), i);
    EraseKeepsSorted(ValuesOf(items, values), i);
  }

  // ---------- The operations of the kernel ----------

  /** A new value for an item outside both lists changes nothing. */
  lemma Stamp<T>(p: Pair<T>, x: T, v: Tick, base: nat, tick: Tick, next: Tick)
    requires p.Timely(tick, next) && x !in p.delayed && x !in p.overflow
    ensures var q := p.(values := p.values[x := v]);
            q.Timely(tick, next) && q.Sleepers(base) == p.Sleepers(base)
  {
    var q := p.(values := p.values[x := v]);
    assert ValuesOf(q.delayed, q.values) == ValuesOf(p.delayed, p.values);
    assert ValuesOf(q.overflow, q.values) == ValuesOf(p.overflow, p.values);
  }

  /** Going to sleep within the current run of the counter. */
  lemma SleepDelayed<T>(p: Pair<T>, x: T, base: nat, tick: Tick, next: Tick)
    requires p.Timely(tick, next) && x in p.values && tick <= p.values[x]
    ensures var q := p.(delayed := WithSorted(p.delayed, p.values, x));
            && q.Timely(tick, if p.values[x] < next then p.values[x] else next)
            && q.Sleepers(base) == Enter(p.Sleepers(base), Entry(base + p.values[x], x))
  {
    SortedValues(p.delayed, p.values, x);
    QueuedDelayed(p, x, base);
  }

  /** What a wait of zero ticks would do: the entry comes first in the delayed list, with the current time. If the counter
      does not restart at the next tick, that tick wakes it, one tick late; if it does, the entry is still in the delayed
      list when the lists change places, where the code asserts that nobody is. */
  lemma ZeroWait<T>(p: Pair<T>, x: T, base: nat, tick: Tick, next: Tick)
    requires p.Timely(tick, next) && x in p.values && p.values[x] == tick
    requires forall y :: y in p.delayed ==> tick < p.values[y]
    ensures var q, e := p.(delayed := WithSorted(p.delayed, p.values, x)), Entry(base + tick, x);
            && q.delayed == [x] + p.delayed && q.Closed() && q.Sleepers(base) == [e] + p.Sleepers(base)
            && (tick < MAX_DELAY ==> DueNext(TQ.Clock(base + tick, q.Sleepers(base)), e))
            && (tick == MAX_DELAY ==> Shown(tick + 1) == 0 && x in q.delayed)
  {
    hide Sorted, Pair.Timely, InsertPosition, Stamped;
    TimelyIsClosed(p, tick, next);
    SortedFirst(p.delayed, p.values, x);
    StampedFirst(p.delayed, p.values, x, base);
    var q, e := p.(delayed := [x] + p.delayed), Entry(base + tick, x);
    assert q.Sleepers(base) == [e] + p.Sleepers(base);
    FirstIsDue(TQ.Clock(base + tick, q.Sleepers(base)), e);
  }

  /** The next tick wakes e first, one tick late. */
  predicate DueNext<T(==)>(c: TQ.Clock<T>, e: Entry<T>) {
    0 < c.Due() <= |c.sleepers| && c.sleepers[0] == e && c.Tick().now == e.key + 1
  }

  lemma FirstIsDue<T>(c: TQ.Clock<T>, e: Entry<T>)
    requires c.sleepers != [] && c.sleepers[0] == e && e.key == c.now
    ensures DueNext(c, e)
  {
    assert Keys(c.sleepers)[0] == c.now;
  }

  lemma SortedFirst<T>(items: seq<T>, values: map<T, Tick>, x: T)
    requires x in values && forall y :: y in items ==> y in values && values[x] < values[y]
    ensures WithSorted(items, values, x) == [x] + items
  {
    InsertPositionIs(ValuesOf(items, values), values[x], 0);
  }

  lemma StampedFirst<T>(items: seq<T>, values: map<T, Tick>, x: T, base: nat)
    requires (forall y :: y in items ==> y in values) && x in values
    ensures forall y :: y in [x] + items ==> y in values
    ensures Stamped([x] + items, values, base) == [Entry(base + values[x], x)] + Stamped(items, values, base)
  {
  }

  lemma QueuedDelayed<T>(p: Pair<T>, x: T, base: nat)
    requires p.Closed() && x in p.values
    ensures var q := p.(delayed := WithSorted(p.delayed, p.values, x));
            q.Closed() && q.Sleepers(base) == Enter(p.Sleepers(base), Entry(base + p.values[x], x))
  {
    hide Enter, InsertPosition, Stamped, WithSorted, Sorted;
    SortedStamped(p.delayed, p.values, x, base);
    StampedRange(p.overflow, p.values, base + WRAP);
    EnterFirst(Stamped(p.delayed, p.values, base), Stamped(p.overflow, p.values, base + WRAP), Entry(base + p.values[x], x));
  }

  lemma EnterFirst<T>(a: seq<Entry<T>>, b: seq<Entry<T>>, e: Entry<T>)
    requires forall k :: k in Keys(b) ==> k > e.key
    ensures Enter(a + b, e) == Enter(a, e) + b
  {
    assert Keys(a + b) == Keys(a) + Keys(b);
    PositionInFirst(Keys(a), Keys(b), e.key);
  }

  /** Going to sleep beyond the wrap-around. */
  lemma SleepOverflow<T>(p: Pair<T>, x: T, base: nat, tick: Tick, next: Tick)
    requires p.Timely(tick, next) && x in p.values && p.values[x] <= tick
    ensures var q := p.(overflow := WithSorted(p.overflow, p.values, x));
            && q.Timely(tick, next)
            && q.Sleepers(base) == Enter(p.Sleepers(base), Entry(base + WRAP + p.values[x], x))
  {
    SortedValues(p.overflow, p.values, x);
    QueuedOverflow(p, x, base);
  }

  lemma QueuedOverflow<T>(p: Pair<T>, x: T, base: nat)
    requires p.Closed() && x in p.values
    ensures var q := p.(overflow := WithSorted(p.overflow, p.values, x));
            q.Closed() && q.Sleepers(base) == Enter(p.Sleepers(base), Entry(base + WRAP + p.values[x], x))
  {
    hide Enter, InsertPosition, Stamped, WithSorted, Sorted;
    SortedStamped(p.overflow, p.values, x, base + WRAP);
    StampedRange(p.delayed, p.values, base);
    EnterSecond(Stamped(p.delayed, p.values, base), Stamped(p.overflow, p.values, base + WRAP),
                Entry(base + WRAP + p.values[x], x));
  }

  lemma EnterSecond<T>(a: seq<Entry<T>>, b: seq<Entry<T>>, e: Entry<T>)
    requires forall k :: k in Keys(a) ==> k <= e.key
    ensures Enter(a + b, e) == a + Enter(b, e)
  {
    hide InsertPosition;
    assert Keys(a + b) == Keys(a) + Keys(b);
    PositionInSecond(Keys(a), Keys(b), e.key);
    InsertSecond(a, b, InsertPosition(Keys(b), e.key), e);
  }

  lemma InsertSecond<T>(a: seq<T>, b: seq<T>, p: nat, x: T)
    requires p <= |b|
    ensures InsertAt(a + b, |a| + p, x) == a + InsertAt(b, p, x)
  {
    assert (a + b)[..|a| + p] == a + b[..p] && (a + b)[|a| + p..] == b[p..];
  }

  /** Leaving the delayed list, or the overflow list. */
  lemma LeaveDelayed<T>(p: Pair<T>, i: nat, base: nat, tick: Tick, next: Tick)
    requires p.Timely(tick, next) && i < |p.delayed|
    ensures var q := p.(delayed := Erase(p.delayed, i));
            q.Timely(tick, next) && q.Sleepers(base) == Erase(p.Sleepers(base), i)
  {
    ErasedValues(p.delayed, p.values, i);
  }

  lemma LeaveOverflow<T>(p: Pair<T>, i: nat, base: nat, tick: Tick, next: Tick)
    requires p.Timely(tick, next) && i < |p.overflow|
    ensures var q := p.(overflow := Erase(p.overflow, i));
            q.Timely(tick, next) && q.Sleepers(base) == Erase(p.Sleepers(base), |p.delayed| + i)
  {
    ErasedValues(p.overflow, p.values, i);
  }

  lemma {:induction false} IndexInConcat<T>(a: seq<T>, b: seq<T>, x: T)
    requires x in a || x in b
    ensures IndexOf(a + b, x) == if x in a then IndexOf(a, x) else |a| + IndexOf(b, x)
  {
    if a == [] {
      assert a + b == b;
    } else if a[0] != x {
      assert (a + b)[1..] == a[1..] + b;
      IndexInConcat(a[1..], b, x);
    }
  }

  lemma ItemsOf<T>(p: Pair<T>, base: nat)
    requires p.Closed()
    ensures Items(p.Sleepers(base)) == p.delayed + p.overflow
  {
  }

  function Minus<T(==)>(s: seq<T>, x: T): seq<T> {
    if x in s then Erase(s, IndexOf(s, x)) else s
  }

  lemma MinusInserted<T>(s: seq<T>, p: nat, x: T)
    requires p <= |s| && x !in s
    ensures Minus(InsertAt(s, p, x), x) == s
  {
    var t := InsertAt(s, p, x);
    assert t[p] == x && forall i :: 0 <= i < |t| && i != p ==> t[i] != x;
    assert IndexOf(t, x) == p;
  }

  /** Leaving whichever list it is that holds the sleeper. */
  lemma LeaveSleepers<T>(p: Pair<T>, x: T, base: nat, tick: Tick, next: Tick)
    requires p.Timely(tick, next) && (x in p.delayed ==> x !in p.overflow)
    ensures var q, s := Pair(Minus(p.delayed, x), Minus(p.overflow, x), p.values), p.Sleepers(base);
            && q.Timely(tick, next)
            && q.Sleepers(base) == if x in Items(s) then Erase(s, IndexOf(Items(s), x)) else s
  {
    hide *;
    TimelyIsClosed(p, tick, next);
    ItemsOf(p, base);
    MinusIs(p.delayed, x);
    MinusIs(p.overflow, x);
    if x in p.delayed {
      IndexInConcat(p.delayed, p.overflow, x);
      LeaveDelayed(p, IndexOf(p.delayed, x), base, tick, next);
    } else if x in p.overflow {
      IndexInConcat(p.delayed, p.overflow, x);
      LeaveOverflow(p, IndexOf(p.overflow, x), base, tick, next);
    }
  }

  lemma TimelyIsClosed<T>(p: Pair<T>, tick: Tick, next: Tick)
    requires p.Timely(tick, next)
    ensures p.Closed()
  {
  }

  lemma MinusIs<T>(s: seq<T>, x: T)
    ensures Minus(s, x) == if x in s then Erase(s, IndexOf(s, x)) else s
  {
  }

  /** The wrap-around: the counter restarts at zero and the lists change places. Nobody is left in the delayed list. */
  lemma Switch<T>(p: Pair<T>, base: nat, tick: Tick, next: Tick)
    requires p.Timely(tick, next) && p.delayed == []
    ensures var q := Pair(p.overflow, p.delayed, p.values);
            && q.Timely(0, if q.delayed == [] then MAX_DELAY else q.values[q.delayed[0]])
            && q.Sleepers(base + WRAP) == p.Sleepers(base)
  {
    FirstIsLeast(ValuesOf(p.overflow, p.values));
    var s := Stamped(p.overflow, p.values, base + WRAP);
    assert s + [] == s == [] + s;
  }

  lemma FirstIsLeast(vs: seq<nat>)
    requires Sorted(vs)
    ensures forall v :: v in vs ==> vs[0] <= v
  {
    forall v | v in vs ensures vs[0] <= v {
      var j :| 0 <= j < |vs| && vs[j] == v;
      assert j == 0 || Ordered(0, j);
    }
  }

  lemma SleepersSorted<T>(p: Pair<T>, base: nat, tick: Tick, next: Tick)
    requires p.Timely(tick, next)
    ensures Sorted(Keys(p.Sleepers(base)))
    ensures forall e :: e in p.Sleepers(base) ==> e.key >= base + tick
  {
    StampedRange(p.delayed, p.values, base);
    StampedRange(p.overflow, p.values, base + WRAP);
    var a, b := Stamped(p.delayed, p.values, base), Stamped(p.overflow, p.values, base + WRAP);
    assert Keys(a + b) == Keys(a) + Keys(b);
    SortedConcat(Keys(a), Keys(b), base + WRAP);
    forall e: Entry<T> | e in a + b ensures e.key >= base + tick {
      var i :| 0 <= i < |a + b| && (a + b)[i] == e;
      assert i < |a| ==> ValuesOf(p.delayed, p.values)[i] in ValuesOf(p.delayed, p.values);
    }
  }

  lemma SortedConcat(a: seq<nat>, b: seq<nat>, m: nat)
    requires Sorted(a) && Sorted(b)
    requires (forall k :: k in a ==> k < m) && (forall k :: k in b ==> k >= m)
    ensures Sorted(a + b)
  {
    forall i, j | 0 <= i && j < |a + b| && Ordered(i, j) ensures (a + b)[i] <= (a + b)[j] {
      if i < |a| <= j {
        assert a[i] in a && b[j - |a|] in b;
      } else if |a| <= i {
        assert Ordered(i - |a|, j - |a|);
      }
    }
  }

  /** Nothing is due at `tick` when the delayed list is empty or its first item has a later value; and then no
      sleeper is due before the next tick. */
  lemma NothingDue<T>(p: Pair<T>, base: nat, tick: Tick, next: Tick, newNext: Tick)
    requires p.Timely(tick, next)
    requires p.delayed != [] ==> tick < p.values[p.delayed[0]] && newNext <= p.values[p.delayed[0]]
    ensures p.Timely(tick, newNext)
    ensures forall e :: e in p.Sleepers(base) ==> e.key > base + tick
    ensures forall x :: x in p.delayed ==> tick < p.values[x]
  {
    var vs := ValuesOf(p.delayed, p.values);
    FirstIsLeast(vs);
    forall x | x in p.delayed ensures tick < p.values[x] {
      var i :| 0 <= i < |p.delayed| && p.delayed[i] == x;
      assert vs[i] in vs;
    }
    StampedRange(p.overflow, p.values, base + WRAP);
    var a, b := Stamped(p.delayed, p.values, base), Stamped(p.overflow, p.values, base + WRAP);
    forall e: Entry<T> | e in a + b ensures e.key > base + tick {
      var i :| 0 <= i < |a + b| && (a + b)[i] == e;
      if i < |a| {
        assert vs[i] in vs;
      } else {
        assert Keys(b)[i - |a|] in Keys(b);
      }
    }
  }
}
