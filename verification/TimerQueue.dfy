/** The time line of the kernel without wrap-around: sleepers ordered by the absolute time at which they are due. The
    tick handler of `KernelTime`, with its 32-bit counter and its two lists, refines this. */
module TimerQueue {
  import opened Sequences
  import opened SortedInsertion

  datatype Clock<T> = Clock(now: nat, sleepers: seq<Entry<T>>) {

    ghost predicate Valid() {
      Sorted(Keys(sleepers)) && forall e :: e in sleepers ==> e.key > now
    }

    function Sleep(x: T, ticks: nat): Clock<T> {
      this.(sleepers := Enter(sleepers, Entry(now + ticks, x)))
    }

    /** How many sleepers the next tick wakes. */
    function Due(): (p: nat)
      ensures p <= |sleepers|
    {
      InsertPosition(Keys(sleepers), now + 1)
    }

    function Tick(): Clock<T> {
      Clock(now + 1, sleepers[Due()..])
    }

    function Cancel(k: nat): Clock<T>
      requires k < |sleepers|
    {
      this.(sleepers := Erase(sleepers, k))
    }

    /** Without x, if it sleeps. */
    ghost function Leave(x: T): Clock<T> {
      if x in Items(sleepers) then Cancel(IndexOf(Items(sleepers), x)) else this
    }
  }

  function Ticked<T>(c: Clock<T>, n: nat): Clock<T> {
    if n == 0 then c else Ticked(c, n - 1).Tick()
  }

  lemma {:induction false} TickedNow<T>(c: Clock<T>, n: nat)
    ensures Ticked(c, n).now == c.now + n
  {
    if n == 0 {
    } else {
      TickedNow(c, n - 1);
    }
  }

  /** One tick more wakes those who are due next, after the first n. */
  lemma OneTickMore<T>(c: Clock<T>, k: nat, n: nat)
    requires n <= |c.sleepers| && Ticked(c, k).sleepers == c.sleepers[n..]
    ensures Ticked(c, k + 1) == Ticked(c, k).Tick() && n + Ticked(c, k).Due() <= |c.sleepers|
    ensures Ticked(c, k + 1).sleepers == c.sleepers[n + Ticked(c, k).Due()..]
  {
  }

  datatype Event<T> =
    | TickEvent
    | SleepEvent(task: T, ticks: nat)
    | CancelEvent(place: nat)  // a sleeper woken for another reason, by its place in the order

  predicate Possible<T>(c: Clock<T>, e: Event<T>) {
    match e
    case TickEvent => true
    case SleepEvent(_, ticks) => ticks > 0
    case CancelEvent(k) => k < |c.sleepers|
  }

  function Next<T>(c: Clock<T>, e: Event<T>): Clock<T>
    requires Possible(c, e)
  {
    match e
    case TickEvent => c.Tick()
    case SleepEvent(x, ticks) => c.Sleep(x, ticks)
    case CancelEvent(k) => c.Cancel(k)
  }

  lemma {:induction false} WithSplit<T>(q: seq<Entry<T>>, p: nat, k: nat)
    requires p <= |q|
    ensures With(q, k) == With(q[..p], k) + With(q[p..], k)
  {
    assert q == q[..p] + q[p..];
    WithConcat(q[..p], q[p..], k);
  }

  lemma {:induction false} WithAll<T>(q: seq<Entry<T>>, k: nat)
    requires forall e :: e in q ==> e.key == k
    ensures With(q, k) == q
  {
    if q == [] {
    } else {
      WithAll(q[1..], k);
    }
  }

  /** A tick wakes exactly the sleepers due at the new time, in their order, and no other. */
  lemma TickWakesTheDue<T>(c: Clock<T>)
    requires c.Valid()
    ensures c.Tick().Valid()
    ensures c.sleepers[..c.Due()] == With(c.sleepers, c.now + 1)
    ensures forall k: nat :: k != c.now + 1 ==> With(c.Tick().sleepers, k) == With(c.sleepers, k)
  {
    var q, p, t := c.sleepers, c.Due(), c.now + 1;
    assert forall i :: 0 <= i < p ==> q[i].key == t by {
      assert forall i :: 0 <= i < p ==> Keys(q)[i] <= t && q[i] in q;
    }
    BehindIsGreater(q, t);
    DropKeepsSorted(Keys(q), p);
    WithAll(q[..p], t);
    WithNone(q[p..], t);
    WithSplit(q, p, t);
    assert Keys(q[p..]) == Keys(q)[p..];
    forall k: nat | k != t ensures With(q[p..], k) == With(q, k) {
      WithSplit(q, p, k);
      WithNone(q[..p], k);
    }
  }

  lemma SleepKeeps<T>(c: Clock<T>, x: T, ticks: nat, k: nat)
    requires c.Valid() && ticks > 0
    ensures c.Sleep(x, ticks).Valid()
    ensures With(c.Sleep(x, ticks).sleepers, k)
         == if c.now + ticks == k then With(c.sleepers, k) + [Entry(c.now + ticks, x)] else With(c.sleepers, k)
  {
    SleepValid(c, x, ticks);
    EnterStable(c.sleepers, Entry(c.now + ticks, x), k);
  }

  lemma SleepValid<T>(c: Clock<T>, x: T, ticks: nat)
    requires c.Valid() && ticks > 0
    ensures c.Sleep(x, ticks).Valid()
  {
    hide Sorted, Enter, InsertPosition;
    EnterSorted(c.sleepers, Entry(c.now + ticks, x));
  }

  lemma CancelKeeps<T>(c: Clock<T>, i: nat, k: nat)
    requires c.Valid() && i < |c.sleepers|
    ensures c.Cancel(i).Valid()
    ensures k != c.sleepers[i].key ==> With(c.Cancel(i).sleepers, k) == With(c.sleepers, k)
  {
    ErasedSorted(c.sleepers, i);
    if k != c.sleepers[i].key {
      ErasedWith(c.sleepers, i, k);
    }
  }

  lemma ErasedWith<T>(q: seq<Entry<T>>, i: nat, k: nat)
    requires i < |q| && k != q[i].key
    ensures With(Erase(q, i), k) == With(q, k)
  {
    WithInserted(q[..i], q[i], q[i + 1..], k);
    assert q == q[..i] + [q[i]] + q[i + 1..];
  }

  lemma ErasedSorted<T>(q: seq<Entry<T>>, i: nat)
    requires Sorted(Keys(q)) && i < |q|
    ensures Sorted(Keys(Erase(q, i)))
  {
    assert Keys(Erase(q, i)) == Erase(Keys(q), i);
    EraseKeepsSorted(Keys(q), i);
  }

  // ---------- Whole runs ----------

  /** So many ticks and nothing else. */
  function TickEvents<T>(n: nat): seq<Event<T>> {
    seq(n, i => TickEvent)
  }

  lemma OneMoreTick<T>(es: seq<Event<T>>, n: nat)
    ensures es + TickEvents(n + 1) == es + TickEvents(n) + [TickEvent]
  {
  }

  predicate AllPossible<T>(c: Clock<T>, es: seq<Event<T>>)
    decreases |es|
  {
    es != [] ==> Possible(c, es[0]) && AllPossible(Next(c, es[0]), es[1..])
  }

  function Last<T>(c: Clock<T>, es: seq<Event<T>>): Clock<T>
    requires AllPossible(c, es)
    decreases |es|
  {
    if es == [] then c else Last(Next(c, es[0]), es[1..])
  }

  lemma {:induction false} RunAppended<T>(c: Clock<T>, es: seq<Event<T>>, e: Event<T>)
    requires AllPossible(c, es) && Possible(Last(c, es), e)
    ensures AllPossible(c, es + [e]) && Last(c, es + [e]) == Next(Last(c, es), e)
    ensures Ticks(es + [e]) == Ticks(es) + if e.TickEvent? then 1 else 0
    decreases |es|
  {
    if es == [] {
      assert [e][1..] == [];
    } else {
      assert (es + [e])[1..] == es[1..] + [e];
      RunAppended(Next(c, es[0]), es[1..], e);
    }
  }

  function Ticks<T>(es: seq<Event<T>>): nat {
    if es == [] then 0 else (if es[0].TickEvent? then 1 else 0) + Ticks(es[1..])
  }

  lemma {:induction false} TicksConcat<T>(a: seq<Event<T>>, b: seq<Event<T>>)
    ensures Ticks(a + b) == Ticks(a) + Ticks(b)
    decreases |a|
  {
    if a == [] {
      assert a + b == b;
    } else {
      assert (a + b)[1..] == a[1..] + b;
      TicksConcat(a[1..], b);
    }
  }

  lemma {:induction false} TicksAlone<T>(n: nat)
    ensures Ticks(TickEvents<T>(n)) == n
  {
    if n == 0 {
    } else {
      TicksAlone<T>(n - 1);
      assert TickEvents<T>(n)[1..] == TickEvents<T>(n - 1);
    }
  }

  /** The sleepers woken by the tick that reaches time t, in the order of waking. */
  function WokenAt<T>(c: Clock<T>, es: seq<Event<T>>, t: nat): seq<Entry<T>>
    requires AllPossible(c, es)
    decreases |es|
  {
    if es == [] then []
    else
      var rest := WokenAt(Next(c, es[0]), es[1..], t);
      if es[0].TickEvent? && c.now + 1 == t then c.sleepers[..c.Due()] + rest else rest
  }

  /** The place of the k-th sleeper among those due at the same time. */
  function Rank<T>(c: Clock<T>, k: nat): nat
    requires k < |c.sleepers|
  {
    |With(c.sleepers[..k], c.sleepers[k].key)|
  }

  /** The account of time t: `due` are owed a waking at time t at the start. Whoever goes to sleep until t joins at the
      end, whoever is cancelled leaves, and nothing else that happens changes it. */
  function Owed<T>(c: Clock<T>, es: seq<Event<T>>, t: nat, due: seq<Entry<T>>): seq<Entry<T>>
    requires AllPossible(c, es)
    decreases |es|
  {
    if es == [] then due else Owed(Next(c, es[0]), es[1..], t, Entered(c, es[0], t, due))
  }

  function Entered<T>(c: Clock<T>, e: Event<T>, t: nat, due: seq<Entry<T>>): seq<Entry<T>>
    requires Possible(c, e)
  {
    match e
    case TickEvent => due
    case SleepEvent(x, ticks) => if c.now + ticks == t then due + [Entry(t, x)] else due
    case CancelEvent(k) => if c.sleepers[k].key == t && Rank(c, k) < |due| then Erase(due, Rank(c, k)) else due
  }

  lemma NextValid<T>(c: Clock<T>, e: Event<T>)
    requires c.Valid() && Possible(c, e)
    ensures Next(c, e).Valid()
  {
    match e {
      case TickEvent => TickWakesTheDue(c);
      case SleepEvent(x, ticks) => SleepKeeps(c, x, ticks, 0);
      case CancelEvent(k) => CancelKeeps(c, k, 0);
    }
  }

  /** Nobody is woken too early or too late. */
  lemma {:induction false} WokenAreDue<T>(c: Clock<T>, es: seq<Event<T>>, t: nat)
    requires c.Valid() && AllPossible(c, es)
    ensures Last(c, es).Valid() && Last(c, es).now == c.now + Ticks(es)
    ensures forall e :: e in WokenAt(c, es, t) ==> e.key == t
    decreases |es|
  {
    if es == [] {
    } else {
      NextValid(c, es[0]);
      if es[0].TickEvent? {
        TickWakesTheDue(c);
      }
      WokenAreDue(Next(c, es[0]), es[1..], t);
    }
  }

  // ---------- The law of the timer ----------

  /** A cancelled sleeper leaves those due at its time, and their order is kept. */
  lemma CancelLeaves<T>(c: Clock<T>, i: nat)
    requires i < |c.sleepers|
    ensures var t := c.sleepers[i].key;
            && Rank(c, i) < |With(c.sleepers, t)| && With(c.sleepers, t)[Rank(c, i)] == c.sleepers[i]
            && With(c.Cancel(i).sleepers, t) == Erase(With(c.sleepers, t), Rank(c, i))
  {
    hide With;
    var q, e := c.sleepers, c.sleepers[i];
    WithInserted(q[..i], e, q[i + 1..], e.key);
    assert q == q[..i] + [e] + q[i + 1..];
  }

  /** Before time t, the account is that of the sleepers due at t. */
  lemma EnteredIsWith<T>(c: Clock<T>, e: Event<T>, t: nat)
    requires c.Valid() && Possible(c, e) && Next(c, e).now < t
    ensures Entered(c, e, t, With(c.sleepers, t)) == With(Next(c, e).sleepers, t)
  {
    hide With, Rank, Sorted, Enter, Erase;
    match e {
      case TickEvent => TickWakesTheDue(c);
      case SleepEvent(x, ticks) => SleepKeeps(c, x, ticks, t);
      case CancelEvent(k) =>
        CancelLeaves(c, k);
        CancelKeeps(c, k, t);
    }
  }

  /** From time t on the account is closed, and nobody is woken for it any more. */
  lemma {:induction false} PastIsPast<T>(c: Clock<T>, es: seq<Event<T>>, t: nat, due: seq<Entry<T>>)
    requires c.Valid() && AllPossible(c, es) && t <= c.now
    ensures WokenAt(c, es, t) == [] && Owed(c, es, t, due) == due
    decreases |es|
  {
    if es == [] {
    } else {
      NextValid(c, es[0]);
      assert Entered(c, es[0], t, due) == due;
      PastIsPast(Next(c, es[0]), es[1..], t, due);
    }
  }

  /** The law of the timer over any run: when the run has reached time t, exactly those owed a waking at t have been
      woken, by the tick that reached it and in their order; before that, exactly these still sleep, in this order. */
  lemma {:induction false} WakesOnTime<T>(c: Clock<T>, es: seq<Event<T>>, t: nat)
    requires c.Valid() && AllPossible(c, es) && c.now < t
    ensures var owed := Owed(c, es, t, With(c.sleepers, t));
            if t <= c.now + Ticks(es) then WokenAt(c, es, t) == owed
            else WokenAt(c, es, t) == [] && With(Last(c, es).sleepers, t) == owed
    decreases |es|
  {
    if es == [] {
    } else {
      hide With, Entered;
      var d := Next(c, es[0]);
      NextValid(c, es[0]);
      if d.now < t {
        EnteredIsWith(c, es[0], t);
        WakesOnTime(d, es[1..], t);
      } else {
        TickIsEntered(c, es[0], t);
        PastIsPast(d, es[1..], t, With(c.sleepers, t));
      }
    }
  }

  /** The tick that reaches time t. */
  lemma TickIsEntered<T>(c: Clock<T>, e: Event<T>, t: nat)
    requires c.Valid() && Possible(c, e) && c.now < t <= Next(c, e).now
    ensures e.TickEvent? && t == c.now + 1 && c.sleepers[..c.Due()] == With(c.sleepers, t)
    ensures Entered(c, e, t, With(c.sleepers, t)) == With(c.sleepers, t)
  {
    TickWakesTheDue(c);
  }

  // ---------- One sleeper ----------

  lemma {:induction false} RunSplits<T>(c: Clock<T>, a: seq<Event<T>>, b: seq<Event<T>>)
    requires AllPossible(c, a + b)
    ensures AllPossible(c, a) && AllPossible(Last(c, a), b)
    ensures Last(c, a + b) == Last(Last(c, a), b) && Ticks(a + b) == Ticks(a) + Ticks(b)
    ensures forall t :: WokenAt(c, a + b, t) == WokenAt(c, a, t) + WokenAt(Last(c, a), b, t)
    decreases |a|
  {
    if a == [] {
      assert a + b == b;
    } else {
      assert (a + b)[1..] == a[1..] + b;
      RunSplits(Next(c, a[0]), a[1..], b);
    }
  }

  /** The sleeper e is never cancelled. */
  predicate NeverCancelled<T(==)>(c: Clock<T>, es: seq<Event<T>>, e: Entry<T>)
    requires AllPossible(c, es)
    decreases |es|
  {
    es != [] ==>
      && (es[0].CancelEvent? ==> c.sleepers[es[0].place] != e)
      && NeverCancelled(Next(c, es[0]), es[1..], e)
  }

  /** One step of a sleeper that is not cancelled: it goes on sleeping until its time is reached. */
  lemma StillSleeps<T>(c: Clock<T>, v: Event<T>, e: Entry<T>)
    requires c.Valid() && Possible(c, v) && e in c.sleepers
    requires v.CancelEvent? ==> c.sleepers[v.place] != e
    ensures Next(c, v).now < e.key ==> e in Next(c, v).sleepers
    ensures Next(c, v).now >= e.key ==> v.TickEvent? && e.key == c.now + 1 && e in c.sleepers[..c.Due()]
  {
    WithMember(c.sleepers, e.key, e);
    match v {
      case TickEvent =>
        TickWakesTheDue(c);
        if c.now + 1 < e.key {
          WithMember(c.Tick().sleepers, e.key, e);
        }
      case SleepEvent(x, ticks) =>
        SleepKeeps(c, x, ticks, e.key);
        WithMember(Next(c, v).sleepers, e.key, e);
      case CancelEvent(k) =>
        assert c.sleepers == c.sleepers[..k] + [c.sleepers[k]] + c.sleepers[k + 1..];
    }
  }

  /** Whoever sleeps and is not cancelled is woken at its time, whatever becomes of the others. */
  lemma {:induction false} SleeperWakes<T>(c: Clock<T>, es: seq<Event<T>>, e: Entry<T>)
    requires c.Valid() && AllPossible(c, es) && e in c.sleepers && NeverCancelled(c, es, e)
    ensures if e.key <= c.now + Ticks(es) then e in WokenAt(c, es, e.key) else e in Last(c, es).sleepers
    decreases |es|
  {
    if es == [] {
    } else {
      hide Clock.Due, Clock.Tick, Clock.Sleep, Clock.Cancel;
      NextValid(c, es[0]);
      StillSleeps(c, es[0], e);
      if Next(c, es[0]).now < e.key {
        SleeperWakes(Next(c, es[0]), es[1..], e);
      }
    }
  }
}
