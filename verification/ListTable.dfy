/** All the lists of the kernel as one value: a ring for every list, and the value every item carries. Programs of
    list operations act on it; the laws here hold for every program over any number of lists. */
module ListTable {
  import opened Sequences
  import opened RoundRobin
  import opened SortedInsertion

  datatype Table<!L, !T> = Table(rings: map<L, Ring<T>>, values: map<T, Tick>) {

    /** Every ring is one, of items that carry a value, and no item is in two of them. */
    ghost predicate Valid() {
      && (forall l :: l in rings ==> rings[l].Valid() && forall x :: x in rings[l].items ==> x in values)
      && (forall l, m, x {:trigger Holds(l, x), Holds(m, x)} ::
            l in rings && m in rings && x in rings[l].items && Holds(l, x) && Holds(m, x) ==> l == m)
    }

    function Put(l: L, r: Ring<T>): Table<L, T> {
      this.(rings := rings[l := r])
    }

    ghost predicate Holds(l: L, x: T) {
      l in rings && x in rings[l].items
    }

    ghost predicate Listed(x: T) {
      exists l {:trigger Holds(l, x)} :: l in rings && Holds(l, x)
    }

    ghost function Holder(x: T): (l: L)
      requires Listed(x)
      ensures Holds(l, x)
    {
      var l :| l in rings && Holds(l, x);
      l
    }

    ghost function ValuesOf(l: L): (vs: seq<Tick>)
      requires Valid() && l in rings
      ensures |vs| == |rings[l].items|
    {
      seq(|rings[l].items|, i requires 0 <= i < |rings[l].items| => values[rings[l].items[i]])
    }
  }

  datatype Command<L, T> =
    | Advance(list: L)          // get-next
    | Append(list: L, item: T)  // insertion before the cursor
    | Sort(list: L, item: T)    // insertion in value order
    | Take(item: T)             // removal from whatever list holds the item

  /** An inserted item is in no list, a removed one is in some list. */
  ghost predicate Permitted<L, T>(t: Table<L, T>, c: Command<L, T>) {
    match c
    case Advance(l) => l in t.rings
    case Append(l, x) => l in t.rings && x in t.values && !t.Listed(x)
    case Sort(l, x) => l in t.rings && x in t.values && !t.Listed(x)
    case Take(x) => t.Listed(x)
  }

  ghost function Effect<L, T>(t: Table<L, T>, c: Command<L, T>): Table<L, T>
    requires t.Valid() && Permitted(t, c)
  {
    match c
    case Advance(l) => t.Put(l, t.rings[l].Next())
    case Append(l, x) => t.Put(l, t.rings[l].InsertEnd(x))
    case Sort(l, x) => t.Put(l, t.rings[l].Insert(InsertPosition(t.ValuesOf(l), t.values[x]), x))
    case Take(x) =>
      var l := t.Holder(x);
      t.Put(l, t.rings[l].Remove(IndexOf(t.rings[l].items, x)))
  }

  /** The only list a command changes. */
  ghost function Target<L, T>(t: Table<L, T>, c: Command<L, T>): L
    requires Permitted(t, c)
  {
    if c.Take? then t.Holder(c.item) else c.list
  }

  lemma HolderIs<L, T>(t: Table<L, T>, x: T, l: L)
    requires t.Valid() && t.Holds(l, x)
    ensures t.Listed(x) && t.Holder(x) == l
  {
  }

  lemma NotListedIn<L, T>(t: Table<L, T>, x: T, l: L)
    requires !t.Listed(x) && l in t.rings
    ensures x !in t.rings[l].items
  {
    assert !t.Holds(l, x);
  }

  lemma EffectRing<L, T>(t: Table<L, T>, c: Command<L, T>)
    requires t.Valid() && Permitted(t, c)
    ensures var l, u := Target(t, c), Effect(t, c);
            && l in t.rings && u.rings.Keys == t.rings.Keys && u.rings[l].Valid()
            && u == t.Put(l, u.rings[l])
            && Members(u.rings[l].items) == Members(t.rings[l].items)
                 + (if c.Append? || c.Sort? then {c.item} else {}) - (if c.Take? then {c.item} else {})
  {
    var l := Target(t, c);
    var r := t.rings[l];
    match c {
      case Advance(_) =>
      case Append(_, x) =>
        NotListedIn(t, x, l);
        InsertedMembers(r.items, r.EndPosition(), x);
      case Sort(_, x) =>
        NotListedIn(t, x, l);
        InsertedMembers(r.items, InsertPosition(t.ValuesOf(l), t.values[x]), x);
      case Take(x) =>
        ErasedMembers(r.items, IndexOf(r.items, x));
    }
  }

  /** A command changes where its own item is, and nothing else. */
  lemma EffectPlaces<L, T>(t: Table<L, T>, c: Command<L, T>, l: L, x: T)
    requires t.Valid() && Permitted(t, c)
    ensures Effect(t, c).Holds(l, x) <==>
            if c.Advance? || x != c.item then t.Holds(l, x)
            else !c.Take? && l == c.list
  {
    EffectRing(t, c);
    assert l in t.rings ==> (x in Members(Effect(t, c).rings[l].items) <==> x in Effect(t, c).rings[l].items);
    assert l in t.rings ==> (x in Members(t.rings[l].items) <==> x in t.rings[l].items);
    if (c.Append? || c.Sort?) && t.Holds(l, c.item) {
      assert t.Listed(c.item);
    }
    if c.Take? && t.Holds(l, c.item) {
      HolderIs(t, c.item, l);
    }
  }

  /** Every command keeps the lists well formed and disjoint. */
  lemma EffectValid<L, T>(t: Table<L, T>, c: Command<L, T>)
    requires t.Valid() && Permitted(t, c)
    ensures Effect(t, c).Valid()
    ensures Effect(t, c).values == t.values
    ensures forall m :: m in t.rings && m != Target(t, c) ==> Effect(t, c).rings[m] == t.rings[m]
  {
    EffectRing(t, c);
    forall l, x ensures Effect(t, c).Holds(l, x) <==>
            if c.Advance? || x != c.item then t.Holds(l, x) else !c.Take? && l == c.list {
      EffectPlaces(t, c, l, x);
    }
    forall l, x | l in t.rings && x in Effect(t, c).rings[l].items ensures x in t.values {
      assert Effect(t, c).Holds(l, x);
    }
  }

  // ---------- Programs ----------

  ghost predicate Runs<L, T>(t: Table<L, T>, cs: seq<Command<L, T>>)
    decreases |cs|
  {
    t.Valid() && (cs != [] ==> Permitted(t, cs[0]) && Runs(Effect(t, cs[0]), cs[1..]))
  }

  ghost function Final<L, T>(t: Table<L, T>, cs: seq<Command<L, T>>): (u: Table<L, T>)
    requires Runs(t, cs)
    ensures u.Valid()
    decreases |cs|
  {
    if cs == [] then t else Final(Effect(t, cs[0]), cs[1..])
  }

  /** A program runs just when its first part does and the rest does after it. */
  lemma {:induction false} RunsConcat<L, T>(t: Table<L, T>, a: seq<Command<L, T>>, b: seq<Command<L, T>>)
    ensures Runs(t, a + b) <==> Runs(t, a) && Runs(Final(t, a), b)
    ensures Runs(t, a + b) ==> Final(t, a + b) == Final(Final(t, a), b)
    decreases |a|
  {
    if a == [] {
      assert a + b == b;
    } else {
      assert (a + b)[1..] == a[1..] + b;
      if t.Valid() && Permitted(t, a[0]) {
        RunsConcat(Effect(t, a[0]), a[1..], b);
      }
    }
  }

  lemma ListedKept<L, T>(t: Table<L, T>, c: Command<L, T>, x: T)
    requires t.Valid() && Permitted(t, c) && (c.Advance? || c.item != x)
    ensures Effect(t, c).Listed(x) <==> t.Listed(x)
  {
    EffectRing(t, c);
    forall l ensures Effect(t, c).Holds(l, x) <==> t.Holds(l, x) {
      EffectPlaces(t, c, l, x);
    }
  }

  lemma RunsOne<L, T>(t: Table<L, T>, c: Command<L, T>)
    requires t.Valid() && Permitted(t, c)
    ensures Runs(t, [c]) && Final(t, [c]) == Effect(t, c)
  {
    EffectValid(t, c);
    assert [c][1..] == [];
  }

  // ---------- Fairness among many lists ----------

  /** What a program does to the one list l, as steps of its ring. */
  ghost function StepsOn<L, T>(t: Table<L, T>, cs: seq<Command<L, T>>, l: L): seq<Step<T>>
    requires Runs(t, cs)
    decreases |cs|
  {
    if cs == [] then [] else
      var rest := StepsOn(Effect(t, cs[0]), cs[1..], l);
      if Target(t, cs[0]) != l then rest
      else match cs[0]
        case Advance(_) => [GetNext] + rest
        case Append(_, x) => [Added(x)] + rest
        case Sort(_, x) => [Added(x)] + rest
        case Take(x) => [Removed(x)] + rest
  }

  function Advances<L(==), T>(cs: seq<Command<L, T>>, l: L): nat {
    if cs == [] then 0 else (if cs[0] == Advance(l) then 1 else 0) + Advances(cs[1..], l)
  }

  /** Throughout the program p stays in l, no get-next on l returns it, and nothing is sorted into l. */
  ghost predicate Unserved<L, T>(t: Table<L, T>, cs: seq<Command<L, T>>, l: L, p: T)
    requires Runs(t, cs)
    decreases |cs|
  {
    && l in t.rings && p in t.rings[l].items
    && (cs != [] ==>
          && cs[0] != Take(p) && !(cs[0].Sort? && cs[0].list == l)
          && (cs[0] == Advance(l) ==> !Serves(t.rings[l], GetNext, p))
          && Unserved(Effect(t, cs[0]), cs[1..], l, p))
  }

  /** The ring of l sees exactly its own steps, whatever the program does to other lists. */
  lemma {:induction false} RingOfProgram<L, T>(t: Table<L, T>, cs: seq<Command<L, T>>, l: L, p: T)
    requires Runs(t, cs) && Unserved(t, cs, l, p)
    ensures WaitsThrough(t.rings[l], StepsOn(t, cs, l), p) && l in Final(t, cs).rings
    ensures Run(t.rings[l], StepsOn(t, cs, l), p) == Final(t, cs).rings[l]
    ensures Gets(StepsOn(t, cs, l)) == Advances(cs, l)
    decreases |cs|
  {
    if cs == [] {
    } else {
      var u, steps := Effect(t, cs[0]), StepsOn(t, cs, l);
      EffectValid(t, cs[0]);
      RingOfProgram(u, cs[1..], l, p);
      if Target(t, cs[0]) == l {
        if cs[0].Append? {
          NotListedIn(t, cs[0].item, l);
        }
        assert steps[1..] == StepsOn(u, cs[1..], l);
        assert Apply(t.rings[l], steps[0]) == u.rings[l];
      }
    }
  }

  /** Bounded waiting on a shared memory: while p waits in l, the get-next calls on l are bounded by the turns ahead
      of p and the insertions made while the cursor of l stood on it, whatever happens to the other lists. */
  lemma FairAmongLists<L, T>(t: Table<L, T>, cs: seq<Command<L, T>>, l: L, p: T)
    requires Runs(t, cs) && Unserved(t, cs, l, p)
    ensures var r, steps := t.rings[l], StepsOn(t, cs, l);
            && r.Valid() && WaitsThrough(r, steps, p)
            && Advances(cs, l) <= Ahead(r, p) + PushBacks(r, steps, p)
            && (Upcoming(r, p) ==> Advances(cs, l) <= IndexOf(r.items, p) - r.cursor)
  {
    RingOfProgram(t, cs, l, p);
    WaitingAccount(t.rings[l], StepsOn(t, cs, l), p);
    if Upcoming(t.rings[l], p) {
      BoundedWaiting(t.rings[l], StepsOn(t, cs, l), p);
    }
  }

  // ---------- What callers get ----------

  /** What a get-next call returns: the item in turn, or nothing to speak of from an empty list. */
  datatype Return<L, T> = FromEmpty(list: L) | Returned(list: L, item: T)

  ghost function ReturnOf<L, T>(t: Table<L, T>, l: L): Return<L, T>
    requires t.Valid() && l in t.rings
  {
    var r := t.rings[l].Next();
    if r.cursor == 0 then FromEmpty(l) else Returned(l, r.Current())
  }

  /** What the get-next calls of a program return, call by call. */
  ghost function Returns<L, T>(t: Table<L, T>, cs: seq<Command<L, T>>): seq<Return<L, T>>
    requires Runs(t, cs)
    decreases |cs|
  {
    if cs == [] then [] else
      (if cs[0].Advance? then [ReturnOf(t, cs[0].list)] else []) + Returns(Effect(t, cs[0]), cs[1..])
  }

  lemma ReturnsOne<L, T>(t: Table<L, T>, cs: seq<Command<L, T>>)
    requires Runs(t, cs) && cs != []
    ensures t.Valid() && Permitted(t, cs[0]) && Runs(Effect(t, cs[0]), cs[1..])
    ensures Final(t, cs) == Final(Effect(t, cs[0]), cs[1..])
    ensures Returns(t, cs)
         == (if cs[0].Advance? then [ReturnOf(t, cs[0].list)] else []) + Returns(Effect(t, cs[0]), cs[1..])
  {
  }

  lemma ReturnIs<L, T>(t: Table<L, T>, l: L)
    requires t.Valid() && l in t.rings
    ensures t.rings[l].items == [] <==> ReturnOf(t, l).FromEmpty?
    ensures forall p :: p in t.rings[l].items ==> (ReturnOf(t, l) == Returned(l, p) <==> Serves(t.rings[l], GetNext, p))
    ensures ReturnOf(t, l).Returned? ==> ReturnOf(t, l).item in t.rings[l].items
  {
    assert t.rings[l].Valid();
  }

  /** Throughout the program p stays in l, and nothing is sorted into l. */
  ghost predicate Stays<L, T>(t: Table<L, T>, cs: seq<Command<L, T>>, l: L, p: T)
    requires Runs(t, cs)
    decreases |cs|
  {
    && l in t.rings && p in t.rings[l].items
    && (cs != [] ==> cs[0] != Take(p) && !(cs[0].Sort? && cs[0].list == l) && Stays(Effect(t, cs[0]), cs[1..], l, p))
  }

  lemma {:induction false} NotReturned<L, T>(t: Table<L, T>, cs: seq<Command<L, T>>, l: L, p: T)
    requires Runs(t, cs) && Stays(t, cs, l, p)
    ensures Unserved(t, cs, l, p) <==> Returned(l, p) !in Returns(t, cs)
    decreases |cs|
  {
    if cs == [] {
    } else {
      NotReturned(Effect(t, cs[0]), cs[1..], l, p);
      if cs[0].Advance? {
        ReturnIs(t, cs[0].list);
      }
    }
  }

  /** Bounded waiting, as callers see it: while p stays in l, more get-next calls on l than there are turns ahead of p
      and insertions made while the cursor of l stood on it return p to one of the callers. */
  lemma FairToCallers<L, T>(t: Table<L, T>, cs: seq<Command<L, T>>, l: L, p: T)
    requires Runs(t, cs) && Stays(t, cs, l, p) && t.rings[l].Valid() && p in t.rings[l].items
    ensures Advances(cs, l) > Ahead(t.rings[l], p) + Additions(cs, l) ==> Returned(l, p) in Returns(t, cs)
    ensures Upcoming(t.rings[l], p) && Advances(cs, l) > IndexOf(t.rings[l].items, p) - t.rings[l].cursor ==>
              Returned(l, p) in Returns(t, cs)
  {
    if Returned(l, p) !in Returns(t, cs) {
      NotReturned(t, cs, l, p);
      FairAmongLists(t, cs, l, p);
      FewPushBacks(t, cs, l, p);
    }
  }

  function Additions<L(==), T>(cs: seq<Command<L, T>>, l: L): nat {
    if cs == [] then 0 else (if cs[0].Append? && cs[0].list == l then 1 else 0) + Additions(cs[1..], l)
  }

  /** Both counts count the calls one by one. */
  lemma {:induction false} CountsAdd<L, T>(a: seq<Command<L, T>>, b: seq<Command<L, T>>, c: Command<L, T>, l: L)
    ensures Additions(a + b, l) == Additions(a, l) + Additions(b, l) && Advances(a + b, l) == Advances(a, l) + Advances(b, l)
    ensures Additions([c], l) == (if c.Append? && c.list == l then 1 else 0) && Advances([c], l) == if c == Advance(l) then 1 else 0
    decreases |a|
  {
    if a == [] {
      assert a + b == b && [c][1..] == [];
    } else {
      assert (a + b)[1..] == a[1..] + b;
      CountsAdd(a[1..], b, c, l);
    }
  }

  lemma {:induction false} FewPushBacks<L, T>(t: Table<L, T>, cs: seq<Command<L, T>>, l: L, p: T)
    requires Runs(t, cs) && Unserved(t, cs, l, p)
    ensures t.rings[l].cursor <= |t.rings[l].items| && WaitsThrough(t.rings[l], StepsOn(t, cs, l), p)
    ensures PushBacks(t.rings[l], StepsOn(t, cs, l), p) <= Additions(cs, l)
    decreases |cs|
  {
    RingOfProgram(t, cs, l, p);
    if cs == [] {
    } else {
      FewPushBacks(Effect(t, cs[0]), cs[1..], l, p);
      if Target(t, cs[0]) == l {
        assert StepsOn(t, cs, l)[1..] == StepsOn(Effect(t, cs[0]), cs[1..], l);
        EffectRing(t, cs[0]);
      }
    }
  }

  // ---------- Conservation under migration ----------

  /** Everything that is in some list. */
  ghost function ListedItems<L, T>(t: Table<L, T>): set<T> {
    set l, x | l in t.rings && x in t.rings[l].items :: x
  }

  function Without<L, T>(rings: map<L, Ring<T>>, l: L): (r: map<L, Ring<T>>)
    ensures r.Keys == rings.Keys - {l}
  {
    map m | m in rings && m != l :: rings[m]
  }

  /** The sum of the counts of all lists. */
  ghost function Total<L, T>(rings: map<L, Ring<T>>): nat
    decreases rings.Keys
  {
    if rings.Keys == {} then 0 else
      var l :| l in rings.Keys;
      |rings[l].items| + Total(Without(rings, l))
  }

  lemma {:induction false} DistinctCount<T>(s: seq<T>)
    requires Distinct(s)
    ensures |Members(s)| == |s|
  {
    if s == [] {
    } else {
      var n := |s| - 1;
      ErasedMembers(s, n);
      assert Erase(s, n) == s[..n];
      DistinctCount(s[..n]);
      assert Members(s) == Members(s[..n]) + {s[n]};
    }
  }

  /** No item is counted twice: the counts of the lists add up to the number of listed items. */
  lemma {:induction false} TotalCounts<L, T>(t: Table<L, T>)
    requires t.Valid()
    ensures Total(t.rings) == |ListedItems(t)|
    decreases |t.rings.Keys|
  {
    if t.rings.Keys != {} {
      var l :| l in t.rings.Keys && Total(t.rings) == |t.rings[l].items| + Total(Without(t.rings, l));
      var u := t.(rings := Without(t.rings, l));
      assert forall m, x :: u.Holds(m, x) <==> t.Holds(m, x) && m != l;
      TotalCounts(u);
      CountApart(t, l, u);
    }
  }

  lemma CountApart<L, T>(t: Table<L, T>, l: L, u: Table<L, T>)
    requires t.Valid() && l in t.rings
    requires forall m, x :: u.Holds(m, x) <==> t.Holds(m, x) && m != l
    ensures |ListedItems(t)| == |t.rings[l].items| + |ListedItems(u)|
  {
    var own := Members(t.rings[l].items);
    DistinctCount(t.rings[l].items);
    forall x ensures x in ListedItems(t) <==> x in own || x in ListedItems(u) {
      ListedIs(t, x);
      ListedIs(u, x);
      assert x in own <==> t.Holds(l, x);
    }
    forall x | x in own ensures x !in ListedItems(u) {
      ListedIs(u, x);
      assert t.Holds(l, x);
    }
    assert ListedItems(t) == own + ListedItems(u);
  }

  lemma ListedIs<L, T>(t: Table<L, T>, x: T)
    ensures x in ListedItems(t) <==> t.Listed(x)
  {
    if t.Listed(x) {
      var l :| l in t.rings && t.Holds(l, x);
      assert l in t.rings && x in t.rings[l].items;
    }
    if x in ListedItems(t) {
      var l :| l in t.rings && x in t.rings[l].items;
      assert t.Holds(l, x);
    }
  }

  datatype Move<L, T> = Move(item: T, to: L)

  /** Take each item out of the list that holds it and insert it at the end of another. */
  function Migration<L, T>(moves: seq<Move<L, T>>): seq<Command<L, T>> {
    if moves == [] then [] else [Take(moves[0].item), Append(moves[0].to, moves[0].item)] + Migration(moves[1..])
  }

  ghost function Moved<L, T>(t: Table<L, T>, m: Move<L, T>): Table<L, T>
    requires t.Valid() && m.to in t.rings && t.Listed(m.item)
    requires Runs(t, [Take(m.item), Append(m.to, m.item)])
  {
    Final(t, [Take(m.item), Append(m.to, m.item)])
  }

  lemma MoveRuns<L, T>(t: Table<L, T>, m: Move<L, T>)
    requires t.Valid() && m.to in t.rings && t.Listed(m.item)
    ensures Runs(t, [Take(m.item), Append(m.to, m.item)])
    ensures Moved(t, m).rings.Keys == t.rings.Keys
    ensures forall l, x :: Moved(t, m).Holds(l, x) <==> if x == m.item then l == m.to else t.Holds(l, x)
  {
    var cs: seq<Command<L, T>> := [Take(m.item), Append(m.to, m.item)];
    var u := Effect(t, cs[0]);
    EffectRing(t, cs[0]);
    EffectValid(t, cs[0]);
    forall l, x ensures u.Holds(l, x) <==> t.Holds(l, x) && x != m.item {
      EffectPlaces(t, cs[0], l, x);
    }
    var v := Effect(u, cs[1]);
    EffectRing(u, cs[1]);
    EffectValid(u, cs[1]);
    forall l, x ensures v.Holds(l, x) <==> if x == m.item then l == m.to else t.Holds(l, x) {
      EffectPlaces(u, cs[1], l, x);
    }
    assert cs[1..] == [cs[1]] && cs[1..][1..] == [];
    assert Final(v, []) == v;
    assert Final(u, cs[1..]) == v;
  }

  lemma MoveKeeps<L, T>(t: Table<L, T>, m: Move<L, T>)
    requires t.Valid() && m.to in t.rings && t.Listed(m.item)
    requires Runs(t, [Take(m.item), Append(m.to, m.item)])
    requires forall l, x :: Moved(t, m).Holds(l, x) <==> if x == m.item then l == m.to else t.Holds(l, x)
    ensures ListedItems(Moved(t, m)) == ListedItems(t)
    ensures forall x :: t.Listed(x) ==>
              Moved(t, m).Listed(x) && Moved(t, m).Holder(x) == if x == m.item then m.to else t.Holder(x)
  {
    var v := Moved(t, m);
    forall x ensures v.Listed(x) <==> t.Listed(x) {
      if x == m.item {
        assert v.Holds(m.to, x);
      } else {
        assert t.Listed(x) ==> v.Holds(t.Holder(x), x);
        assert v.Listed(x) ==> t.Holds(v.Holder(x), x);
      }
    }
    assert ListedItems(v) == ListedItems(t) by {
      forall x ensures x in ListedItems(v) <==> x in ListedItems(t) {
        ListedIs(t, x);
        ListedIs(v, x);
      }
    }
    forall x | t.Listed(x) ensures v.Holder(x) == if x == m.item then m.to else t.Holder(x) {
      HolderIs(v, x, if x == m.item then m.to else t.Holder(x));
    }
  }

  /** The list that holds x after the moves. */
  function LastHome<L, T(==)>(home: L, moves: seq<Move<L, T>>, x: T): L
    decreases |moves|
  {
    if moves == [] then home else LastHome(if moves[0].item == x then moves[0].to else home, moves[1..], x)
  }

  /** Any migration keeps the set of listed items and the sum of the counts, and leaves every item in the one list
      it was last moved to. */
  lemma {:induction false} MigrationConserves<L, T>(t: Table<L, T>, moves: seq<Move<L, T>>)
    requires t.Valid()
    requires forall m :: m in moves ==> m.to in t.rings && t.Listed(m.item)
    ensures Runs(t, Migration(moves))
    ensures var u := Final(t, Migration(moves));
            && ListedItems(u) == ListedItems(t)
            && Total(u.rings) == Total(t.rings)
            && (forall x :: t.Listed(x) ==> u.Listed(x) && u.Holder(x) == LastHome(t.Holder(x), moves, x))
    decreases |moves|
  {
    hide Runs, Final, Table.Holds, Table.Listed, Table.Holder, Table.Valid, Moved, ListedItems, Total;
    if moves == [] {
      NothingMoved(t);
    } else {
      MoveRuns(t, moves[0]);
      MoveKeeps(t, moves[0]);
      assert forall m :: m in moves[1..] ==> m in moves;
      MovesOn(t, moves);
      MigrationConserves(Moved(t, moves[0]), moves[1..]);
    }
    TotalCounts(t);
    TotalCounts(Final(t, Migration(moves)));
  }

  lemma NothingMoved<L, T>(t: Table<L, T>)
    requires t.Valid()
    ensures Runs(t, []) && Final(t, []) == t
  {
  }

  lemma {:induction false} MovesOn<L, T>(t: Table<L, T>, moves: seq<Move<L, T>>)
    requires t.Valid() && moves != [] && moves[0].to in t.rings && t.Listed(moves[0].item)
    requires Runs(t, [Take(moves[0].item), Append(moves[0].to, moves[0].item)])
    ensures Moved(t, moves[0]).Valid()
    ensures Runs(t, Migration(moves)) <==> Runs(Moved(t, moves[0]), Migration(moves[1..]))
    ensures Runs(t, Migration(moves)) ==> Final(t, Migration(moves)) == Final(Moved(t, moves[0]), Migration(moves[1..]))
  {
    RunsConcat(t, [Take(moves[0].item), Append(moves[0].to, moves[0].item)], Migration(moves[1..]));
  }
}
