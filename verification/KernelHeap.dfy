/** Any number of kernel lists and items in one memory. The methods are those of `KernelList`, here proved to
    change one list and to leave every other one alone. */
module KernelHeap {
  import opened Sequences
  import opened RoundRobin
  import opened SortedInsertion
  import opened ListTable
  import KL = KernelList

  type List = KL.List
  type ListItem = KL.ListItem

  datatype Heap = Heap(lists: set<List>, items: set<ListItem>, ends: set<ListItem>) {

    /** The lists are well linked, share no node, and an item's container is the list that links it. */
    ghost predicate Valid()
      reads lists, items, ends
    {
      && items !! ends
      && (forall l :: l in lists ==> l.end in ends && l.repr <= items + {l.end} && l.Valid())
      && (forall l, m :: l in lists && m in lists && l != m ==> l.end != m.end)
      && (forall x :: x in items && x.container != null ==> x.container in lists && x in x.container.repr)
    }

    ghost function Rings(): (m: map<List, Ring<ListItem>>)
      reads lists`ring
      ensures m.Keys == lists
    {
      map l | l in lists :: l.ring
    }

    ghost function Values(): (m: map<ListItem, Tick>)
      reads items`value
      ensures m.Keys == items
    {
      map x | x in items :: x.value
    }

    ghost function Image(): Table<List, ListItem>
      reads lists`ring, items`value
    {
      Table.Table(Rings(), Values())
    }

    /** The memory without the list l and the nodes `mine`: what an operation on l cannot reach. */
    ghost predicate RestValid(l: List, mine: set<ListItem>)
      reads lists - {l}, items + ends - mine
    {
      && (forall m :: m in lists - {l} ==>
            && m.end in ends && m.end !in mine && m.repr <= items + {m.end} && m.repr !! mine
            && m.repr <= items + ends - mine && m.Valid())
      && (forall m, n :: m in lists - {l} && n in lists - {l} && m != n ==> m.end != n.end)
      && (forall x :: x in items - mine && x.container != null ==>
            x.container in lists - {l} && x in x.container.repr)
    }

    lemma Split(l: List, mine: set<ListItem>)
      requires Valid() && l in lists && l.repr <= mine
      requires forall x :: x in mine ==> x == l.end || (x in items && (x.container == null || x.container == l))
      ensures RestValid(l, mine)
    {
      forall m | m in lists - {l} ensures m.repr !! mine && m.repr <= items + ends - mine {
        assert m.Valid();
      }
      forall x | x in items - mine && x.container != null ensures x.container != l {
      }
    }

    lemma Join(l: List, mine: set<ListItem>)
      requires l in lists && items !! ends && l.end in ends && l.end in mine && RestValid(l, mine)
      requires l.repr <= items + {l.end} && l.Valid()
      requires forall x :: x in mine && x in items && x.container != null ==> x.container == l && x in l.repr
      ensures Valid()
    {
    }

    lemma ImageUpdated(was: Table<List, ListItem>, l: List)
      requires l in lists && was.rings.Keys == lists && was.values.Keys == items
      requires forall m :: m in lists && m != l ==> m.ring == was.rings[m]
      requires forall x :: x in items ==> x.value == was.values[x]
      ensures Image() == was.Put(l, l.ring)
    {
    }

    lemma RingsUpdated(was: map<List, Ring<ListItem>>, l: List)
      requires l in lists && was.Keys == lists
      requires forall m :: m in lists && m != l ==> m.ring == was[m]
      ensures Rings() == was[l := l.ring]
    {
    }

    lemma ImageParts()
      ensures Image().rings == Rings() && Image().rings.Keys == lists && Image().values.Keys == items
      ensures forall l :: l in lists ==> Image().rings[l] == l.ring
      ensures forall x :: x in items ==> Image().values[x] == x.value
    {
    }

    lemma ImageValid()
      requires Valid()
      ensures Image().Valid()
    {
    }

    lemma ImageValues(l: List)
      requires Valid() && l in lists
      ensures Image().Valid() && KL.Values(l.ring.items) == Image().ValuesOf(l)
    {
    }

    lemma ImageHolds(x: ListItem)
      requires Valid() && x in items
      ensures Image().Listed(x) <==> x.container != null
      ensures x.container != null ==> Image().Holder(x) == x.container
    {
      var t := Image();
      if x.container != null {
        assert t.Holds(x.container, x);
      }
      if t.Listed(x) {
        var l := t.Holder(x);
        assert x in l.ring.items && l.Valid();
      }
    }
  }

  /** The container an item records is the one list whose ring has it. */
  lemma ContainerIsMembership(h: Heap, l: List, x: ListItem)
    requires h.Valid() && l in h.lists && x in h.items
    ensures x.container == l <==> x in l.ring.items
  {
    assert l.Valid();
  }

  lemma ListIsValid(h: Heap, l: List)
    requires h.Valid() && l in h.lists
    ensures l.Valid() && l.ring.Valid() && l.numberOfItems == |l.ring.items|
  {
  }

  lemma HeadIsFirst(l: List)
    requires l.Valid() && l.ring.items != []
    ensures l.end.next == l.ring.items[0] && IndexOf(l.ring.items, l.ring.items[0]) == 0
  {
    assert l.end == l.Walk()[0];
  }

  /** Every list adds up: the counts of all lists together are the number of items with a container. */
  lemma CountsAddUp(h: Heap)
    requires h.Valid()
    ensures Total(h.Image().rings) == |set x | x in h.items && x.container != null|
    ensures forall l :: l in h.lists ==> l.numberOfItems == |h.Image().rings[l].items|
  {
    var t := h.Image();
    h.ImageValid();
    TotalCounts(t);
    assert ListedItems(t) == set x | x in h.items && x.container != null by {
      forall x | x in ListedItems(t) ensures x in h.items && x.container != null {
        ListedIs(t, x);
        var l := t.Holder(x);
        assert x in l.ring.items && l.Valid();
      }
      forall x | x in h.items && x.container != null ensures x in ListedItems(t) {
        h.ImageHolds(x);
        ListedIs(t, x);
      }
    }
  }

  method Initialise(ghost h: Heap) returns (l: List, ghost g: Heap)
    requires h.Valid()
    ensures fresh(l) && fresh(l.end) && g == Heap(h.lists + {l}, h.items, h.ends + {l.end})
    ensures g.Valid() && g.Image() == h.Image().Put(l, Ring([], 0))
  {
    l := new KL.List();
    g := Heap(h.lists + {l}, h.items, h.ends + {l.end});
    assert h.Valid();
    ListAdded(h, l);
  }

  lemma ListAdded(h: Heap, l: List)
    requires h.Valid() && l !in h.lists && l.end !in h.items + h.ends
    requires l.Valid() && l.repr == {l.end} && l.ring == Ring([], 0)
    ensures var g := Heap(h.lists + {l}, h.items, h.ends + {l.end});
            g.Valid() && g.Image() == h.Image().Put(l, Ring([], 0))
  {
  }

  method InitialiseItem(ghost h: Heap) returns (x: ListItem, ghost g: Heap)
    requires h.Valid()
    ensures fresh(x) && x.container == null && g == Heap(h.lists, h.items + {x}, h.ends)
    ensures g.Valid() && g.Image().rings == h.Image().rings
  {
    x := new KL.ListItem();
    g := Heap(h.lists, h.items + {x}, h.ends);
    assert forall m :: m in h.lists ==> m.Valid();
  }

  method OwnerOfNextEntry(l: List, ghost h: Heap) returns (owner: object?)
    requires h.Valid() && l in h.lists
    modifies h.lists`index, h.lists`ring
    ensures h.Valid() && forall m :: m in h.lists && m != l ==> m.ring == old(m.ring)
    ensures old(l.ring.Valid()) && l.ring == old(l.ring).Next()
    ensures l.ring.items != [] ==> l.ring.cursor > 0 && owner == l.ring.Current().owner
  {
    h.Split(l, l.repr);
    owner := l.OwnerOfNextEntry();
    h.Join(l, l.repr);
  }

  /** Is the item in the list? The recorded container answers. */
  method IsContainedWithin(l: List, x: ListItem, ghost h: Heap) returns (contained: bool)
    requires h.Valid() && l in h.lists && x in h.items
    ensures contained <==> x in l.ring.items
  {
    contained := l.IsContainedWithin(x);
    ContainerIsMembership(h, l, x);
  }

  method InsertEnd(l: List, x: ListItem, ghost h: Heap)
    requires h.Valid() && l in h.lists && x in h.items && x.container == null
    modifies h.lists`ring, h.lists`repr, h.lists`numberOfItems, h.items`container
    modifies h.items`next, h.items`previous, h.ends`next, h.ends`previous
    ensures h.Valid() && x.container == l && forall m :: m in h.lists && m != l ==> m.ring == old(m.ring)
    ensures old(l.ring.Valid()) && l.ring == old(l.ring).InsertEnd(x)
    ensures forall y :: y in h.items && y != x ==> y.container == old(y.container)
  {
    ghost var mine := l.repr + {x};
    h.Split(l, mine);
    l.InsertEnd(x);
    h.Join(l, mine);
  }

  method Insert(l: List, x: ListItem, ghost h: Heap)
    requires h.Valid() && l in h.lists && x in h.items && x.container == null
    modifies h.lists`ring, h.lists`repr, h.lists`numberOfItems, h.items`container
    modifies h.items`next, h.items`previous, h.ends`next, h.ends`previous
    ensures h.Valid() && x.container == l && forall m :: m in h.lists && m != l ==> m.ring == old(m.ring)
    ensures l.ring == old(l.ring.Insert(InsertPosition(KL.Values(l.ring.items), x.value), x))
    ensures forall y :: y in h.items && y != x ==> y.container == old(y.container)
  {
    ghost var mine := l.repr + {x};
    h.Split(l, mine);
    ghost var p := l.Insert(x);
    h.Join(l, mine);
  }

  method Remove(x: ListItem, ghost h: Heap) returns (remaining: nat)
    requires h.Valid() && x in h.items && x.container != null
    modifies h.lists`ring, h.lists`repr, h.lists`numberOfItems, h.lists`index, h.items`container
    modifies h.items`next, h.items`previous, h.ends`next, h.ends`previous
    ensures h.Valid() && x.container == null
    ensures forall m :: m in h.lists && m != old(x.container) ==> m.ring == old(m.ring)
    ensures old(x in x.container.ring.items)
    ensures old(x.container).ring == old(x.container.ring.Remove(IndexOf(x.container.ring.items, x)))
    ensures remaining == |old(x.container).ring.items|
    ensures forall y :: y in h.items && y != x ==> y.container == old(y.container)
  {
    var l := x.container;
    ghost var mine := l.repr;
    h.Split(l, mine);
    remaining := KL.Remove(x);
    h.Join(l, mine);
  }

  method SetValue(x: ListItem, v: Tick, ghost h: Heap)
    requires h.Valid() && x in h.items
    modifies {x}`value
    ensures h.Valid() && x.value == v && h.Values() == old(h.Values())[x := v]
  {
    x.value := v;
    assert forall l :: l in h.lists ==> l.Valid();
  }

  method SetOwner(x: ListItem, owner: object, ghost h: Heap)
    requires h.Valid() && x in h.items
    modifies {x}`owner
    ensures h.Valid() && x.owner == owner
  {
    x.owner := owner;
    assert forall l :: l in h.lists ==> l.Valid();
  }

  /** The commands of the table model, as the methods above state their effects. */
  lemma TakeIs(x: ListItem, h: Heap)
    requires h.Valid() && x in h.items && x.container != null
    ensures h.Image().Valid() && Permitted(h.Image(), Take(x)) && x in x.container.ring.items
    ensures Effect(h.Image(), Take(x)) == h.Image().Put(x.container, x.container.ring.Remove(IndexOf(x.container.ring.items, x)))
  {
    h.ImageValid();
    h.ImageHolds(x);
  }

  lemma AppendIs(l: List, x: ListItem, h: Heap)
    requires h.Valid() && l in h.lists && x in h.items && x.container == null
    ensures h.Image().Valid() && Permitted(h.Image(), Append(l, x)) && l.ring.Valid()
    ensures Effect(h.Image(), Append(l, x)) == h.Image().Put(l, l.ring.InsertEnd(x))
  {
    h.ImageValid();
    h.ImageHolds(x);
  }

  lemma SortIs(l: List, x: ListItem, h: Heap)
    requires h.Valid() && l in h.lists && x in h.items && x.container == null
    ensures h.Image().Valid() && Permitted(h.Image(), Sort(l, x))
    ensures Effect(h.Image(), Sort(l, x))
         == h.Image().Put(l, l.ring.Insert(InsertPosition(KL.Values(l.ring.items), x.value), x))
  {
    h.ImageValues(l);
    h.ImageHolds(x);
  }

  /** An item listed in the image is in the memory, with that list as its container. */
  lemma ListedHasContainer(x: ListItem, h: Heap)
    requires h.Valid() && h.Image().Listed(x)
    ensures x in h.items && x.container == h.Image().Holder(x)
  {
    var l := h.Image().Holder(x);
    assert x in l.ring.items && l.Valid();
  }

  /** The owners of what get-next calls return, as far as they return anything. */
  ghost predicate AreOwners(owners: seq<object?>, gotten: seq<Return<List, ListItem>>, h: Heap)
    reads h.items`owner
  {
    && |owners| == |gotten|
    && forall i :: 0 <= i < |owners| && gotten[i].Returned? ==>
         gotten[i].item in h.items && owners[i] == gotten[i].item.owner
  }

  /** Run a program of list operations on the memory. The get-next calls return the owners of the items in turn. */
  method Execute(cs: seq<Command<List, ListItem>>, ghost h: Heap) returns (owners: seq<object?>)
    requires h.Valid() && h.Image().Valid() && Runs(h.Image(), cs)
    modifies h.lists`ring, h.lists`repr, h.lists`numberOfItems, h.lists`index, h.items`container
    modifies h.items`next, h.items`previous, h.ends`next, h.ends`previous
    ensures h.Valid() && h.Image() == old(Final(h.Image(), cs))
    ensures AreOwners(owners, old(Returns(h.Image(), cs)), h)
    decreases |cs|
  {
    hide *;
    owners := [];
    if cs != [] {
      ReturnsOne(h.Image(), cs);
      var first := ExecuteOne(cs[0], h);
      ghost var later := Returns(h.Image(), cs[1..]);
      var rest := Execute(cs[1..], h);
      MoreOwners(first, if cs[0].Advance? then [old(ReturnOf(h.Image(), cs[0].list))] else [], rest, later, h);
      owners := first + rest;
    } else {
      NothingRun(h);
    }
  }

  lemma NothingRun(h: Heap)
    requires h.Valid() && h.Image().Valid() && Runs(h.Image(), [])
    ensures Final(h.Image(), []) == h.Image() && AreOwners([], Returns(h.Image(), []), h)
  {
  }

  lemma MoreOwners(a: seq<object?>, first: seq<Return<List, ListItem>>, b: seq<object?>,
                   later: seq<Return<List, ListItem>>, h: Heap)
    requires AreOwners(a, first, h) && AreOwners(b, later, h)
    ensures AreOwners(a + b, first + later, h)
  {
  }

  method ExecuteOne(c: Command<List, ListItem>, ghost h: Heap) returns (owners: seq<object?>)
    requires h.Valid() && h.Image().Valid() && Permitted(h.Image(), c)
    modifies h.lists`ring, h.lists`repr, h.lists`numberOfItems, h.lists`index, h.items`container
    modifies h.items`next, h.items`previous, h.ends`next, h.ends`previous
    ensures h.Valid() && h.Image() == old(Effect(h.Image(), c)) && h.Image().Valid()
    ensures AreOwners(owners, if c.Advance? then [old(ReturnOf(h.Image(), c.list))] else [], h)
  {
    hide *;
    ghost var was := h.Image();
    h.ImageParts();
    PermittedIs(c, h);
    NoOwners(h);
    owners := [];
    match c {
      case Advance(l) =>
        ghost var r := ReturnOf(was, l);
        ReturnInRing(l, h);
        var owner := OwnerOfNextEntry(l, h);
        h.ImageUpdated(was, l);
        owners := [owner];
        OneOwner(owner, r, h);
      case Append(l, x) =>
        AppendIs(l, x, h);
        InsertEnd(l, x, h);
        h.ImageUpdated(was, l);
      case Sort(l, x) =>
        SortIs(l, x, h);
        Insert(l, x, h);
        h.ImageUpdated(was, l);
      case Take(x) =>
        TakeIs(x, h);
        ghost var l := x.container;
        var _ := Remove(x, h);
        h.ImageUpdated(was, l);
    }
    h.ImageValid();
  }

  lemma NoOwners(h: Heap)
    ensures AreOwners([], [], h)
  {
  }

  lemma OneOwner(owner: object?, r: Return<List, ListItem>, h: Heap)
    requires r.Returned? ==> r.item in h.items && owner == r.item.owner
    ensures AreOwners([owner], [r], h)
  {
  }

  lemma ReturnInRing(l: List, h: Heap)
    requires h.Valid() && l in h.lists && h.Image().Valid()
    ensures ReturnOf(h.Image(), l).Returned? ==>
              && l.ring.Next().items != [] && l.ring.Next().cursor > 0
              && ReturnOf(h.Image(), l).item == l.ring.Next().Current() && ReturnOf(h.Image(), l).item in h.items
  {
    ReturnIs(h.Image(), l);
    assert l.Valid();
  }

  lemma PermittedIs(c: Command<List, ListItem>, h: Heap)
    requires h.Valid() && h.Image().Valid() && Permitted(h.Image(), c)
    ensures c.Advance? || c.Append? || c.Sort? ==> c.list in h.lists
    ensures c.Append? || c.Sort? ==> c.item in h.items && c.item.container == null
    ensures c.Take? ==> c.item in h.items && c.item.container != null && c.item.container in h.lists
    ensures c.Advance? ==> c.list.ring.Valid() && Effect(h.Image(), c) == h.Image().Put(c.list, c.list.ring.Next())
  {
    match c {
      case Advance(l) => assert l.Valid();
      case Append(_, x) => h.ImageHolds(x);
      case Sort(_, x) => h.ImageHolds(x);
      case Take(x) => ListedHasContainer(x, h);
    }
  }
}
