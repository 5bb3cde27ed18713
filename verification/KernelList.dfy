/** The list of the kernel: items linked into a ring through an end marker, with the cursor the scheduler walks
    the ring with. Every method is proved to compute the operation of `RoundRobin` on the ring it links. */
module KernelList {
  import opened Sequences
  import opened RoundRobin
  import opened SortedInsertion

  class ListItem {
    var value: Tick
    var next: ListItem?
    var previous: ListItem?
    var owner: object?
    var container: List?

    /** An initialised item is in no list; its links are not set. */
    constructor ()
      ensures container == null
    {
      container := null;
      value := 0;
    }
  }

  /** Each node of the walk points to its neighbours. */
  ghost predicate Linked(walk: seq<ListItem>)
    reads walk
  {
    && (forall i {:trigger walk[i].next} :: 0 <= i < |walk| - 1 ==> walk[i].next == walk[i + 1])
    && (forall i {:trigger walk[i].previous} :: 0 < i < |walk| ==> walk[i].previous == walk[i - 1])
  }

  /** The walk is linked everywhere but between its nodes a and b. */
  ghost predicate LinkedExcept(walk: seq<ListItem>, a: int, b: int)
    reads walk
  {
    && (forall i {:trigger walk[i].next} :: 0 <= i < |walk| - 1 && !(a <= i < b) ==> walk[i].next == walk[i + 1])
    && (forall i {:trigger walk[i].previous} :: 0 < i < |walk| && !(a < i <= b) ==> walk[i].previous == walk[i - 1])
  }

  ghost function Values(items: seq<ListItem>): (vs: seq<Tick>)
    reads items
    ensures |vs| == |items|
    ensures forall i :: 0 <= i < |items| ==> vs[i] == items[i].value
  {
    seq(|items|, i requires 0 <= i < |items| reads items => items[i].value)
  }

  class List {
    var numberOfItems: nat
    var index: ListItem
    const end: ListItem
    ghost var ring: Ring<ListItem>
    ghost var repr: set<ListItem>

    ghost function Nodes(): (s: seq<ListItem>)
      reads this
    {
      [end] + ring.items
    }

    /** From the marker once around the ring. */
    ghost function Walk(): (s: seq<ListItem>)
      reads this
      ensures |s| == |ring.items| + 2
    {
      Nodes() + [end]
    }

    /** The p-th and the q-th node of the walk occur nowhere else as a left and a right neighbour. */
    lemma Neighbours(p: nat, q: nat)
      requires Valid() && p < |Walk()| - 1 && 0 < q < |Walk()|
      ensures var w := Walk();
              && (forall i :: 0 <= i < |w| - 1 && i != p ==> w[i] != w[p])
              && (forall i :: 0 < i < |w| && i != q ==> w[i] != w[q])
    {
      var w := Walk();
      forall i | 0 <= i < |w| - 1 && i != p ensures w[i] != w[p] {
        assert Apart(i - 1, p - 1);
      }
      forall i | 0 < i < |w| && i != q ensures w[i] != w[q] {
        assert Apart(i - 1, q - 1);
      }
    }

    lemma UnderCursor(k: nat)
      requires Valid() && k < |ring.items|
      ensures index == Walk()[ring.cursor] && ring.items[k] == Walk()[k + 1]
      ensures index == ring.items[k] <==> ring.cursor == k + 1
    {
      assert ring.cursor == k + 1 || Apart(ring.cursor - 1, k);
    }

    lemma NotOnWalk(x: ListItem)
      requires Valid() && x.container == null && x != end
      ensures x !in ring.items
      ensures forall i :: 0 <= i < |Walk()| ==> Walk()[i] != x
    {
    }

    /** `ring` is what the links and the cursor of this list describe. */
    ghost predicate Valid()
      reads this, repr
    {
      && ring.Valid() && end !in ring.items
      && repr == Members(ring.items) + {end}
      && (forall x :: x in ring.items ==> x in repr && x.container == this)
      && Linked(Walk())
      && index == Nodes()[ring.cursor]
      && numberOfItems == |ring.items|
      && end.value == MAX_DELAY
    }

    /** Everything but the links of `Valid`, for the ring r. */
    ghost predicate Holds(r: Ring<ListItem>, under: ListItem)
      reads this, end, r.items
    {
      && r.Valid() && end !in r.items && end.value == MAX_DELAY
      && under == ([end] + r.items)[r.cursor]
      && (forall x :: x in r.items ==> x.container == this)
    }

    lemma LinkedIn(r: Ring<ListItem>, p: nat, x: ListItem)
      requires Holds(r, index) && p <= |r.items|
      requires x !in r.items && x != end && x.container == this
      requires ring == r.Insert(p, x) && numberOfItems == |ring.items|
      requires repr == Members(r.items) + {end, x}
      requires var w := [end] + r.items + [end];
               LinkedExcept(w, p, p + 1) && w[p].next == x && x.previous == w[p] && x.next == w[p + 1] && w[p + 1].previous == x
      ensures Valid()
    {
      InsertedMembers(r.items, p, x);
      var w := [end] + r.items + [end];
      assert Walk() == InsertAt(w, p + 1, x);
      InsertedLinks(w, p, x);
    }

    lemma LinkedOut(r: Ring<ListItem>, k: nat, w: seq<ListItem>)
      requires k < |r.items| && w == [end] + r.items + [end]
      requires LinkedExcept(w, k, k + 2) && w[k].next == w[k + 2] && w[k + 2].previous == w[k]
      requires r.Valid() && end !in r.items && end.value == MAX_DELAY
      requires index == w[if r.cursor == k + 1 then k else r.cursor]
      requires ring == r.Remove(k) && numberOfItems == |ring.items|
      requires repr == Members(r.items) + {end} - {r.items[k]}
      requires forall x :: x in r.items && x != r.items[k] ==> x.container == this
      ensures Valid()
    {
      ErasedMembers(r.items, k);
      assert Walk() == Erase(w, k + 1);
      ErasedLinks(w, k + 1);
      assert index == Walk()[ring.cursor];
    }

    static lemma ErasedLinks(w: seq<ListItem>, k: nat)
      requires 0 < k < |w| - 1 && LinkedExcept(w, k - 1, k + 1)
      requires w[k - 1].next == w[k + 1] && w[k + 1].previous == w[k - 1]
      ensures Linked(Erase(w, k))
    {
    }

    static lemma InsertedLinks(w: seq<ListItem>, p: nat, x: ListItem)
      requires p < |w| - 1 && LinkedExcept(w, p, p + 1)
      requires w[p].next == x && x.previous == w[p] && x.next == w[p + 1] && w[p + 1].previous == x
      ensures Linked(InsertAt(w, p + 1, x))
    {
    }

    /** The walk from the marker back to the marker determines the items: two descriptions cannot differ. */
    lemma RingIsUnique(other: Ring<ListItem>)
      requires Valid()
      requires other.Valid() && end !in other.items && Linked([end] + other.items + [end])
      requires index == ([end] + other.items)[other.cursor]
      ensures other == ring
    {
      var a, b := Walk(), [end] + other.items + [end];
      SameWalk(a, b, 0);
      SameWalk(b, a, 0);
      assert ring.items == a[1..|a| - 1] && other.items == b[1..|b| - 1];
      if ring.cursor > 0 && other.cursor > 0 {
        SamePlace(ring.items, ring.cursor - 1, other.cursor - 1);
      }
    }

    lemma SameWalk(a: seq<ListItem>, b: seq<ListItem>, k: nat)
      requires Linked(a) && Linked(b) && k < |a| - 1
      requires |b| > 1 && a[0] == end == b[0] == b[|b| - 1]
      requires end !in a[1..|a| - 1]
      requires k < |b| - 1 && a[..k + 1] == b[..k + 1]
      ensures |a| <= |b| && a[..|a| - 1] == b[..|a| - 1]
      decreases |a| - k
    {
      if k + 1 < |a| - 1 {
        assert a[k].next == a[k + 1] && b[k].next == b[k + 1];
        SameWalk(a, b, k + 1);
      }
    }

    constructor ()
      ensures Valid() && repr == {end} && fresh(end)
      ensures ring == Ring([], 0)
    {
      var marker := new ListItem();
      index := marker;
      end := marker;
      numberOfItems := 0;
      ring := Ring([], 0);
      repr := {marker};
      new;
      end.value := MAX_DELAY;
      end.next := end;
      end.previous := end;
    }

    method IsEmpty() returns (empty: bool)
      requires Valid()
      ensures empty <==> ring.items == []
    {
      empty := numberOfItems == 0;
    }

    method Length() returns (n: nat)
      requires Valid()
      ensures n == |ring.items|
    {
      n := numberOfItems;
    }

    method IsContainedWithin(x: ListItem) returns (contained: bool)
      ensures contained <==> x.container == this
    {
      contained := x.container == this;
    }

    method OwnerOfHeadEntry() returns (owner: object?)
      requires Valid()
      ensures ring.items != [] ==> owner == ring.items[0].owner
    {
      assert end == Walk()[0];
      owner := end.next.owner;
    }

    method ValueOfHeadEntry() returns (v: Tick)
      requires Valid()
      ensures v == if ring.items != [] then ring.items[0].value else MAX_DELAY
    {
      assert end == Walk()[0] && end.next == Walk()[1];
      v := end.next.value;
    }

    /** On an empty list the cursor stays on the marker, and the owner read there is unspecified. */
    method OwnerOfNextEntry() returns (owner: object?)
      requires Valid()
      modifies this`index, this`ring
      ensures Valid() && ring == old(ring).Next()
      ensures ring.items != [] ==> ring.cursor > 0 && owner == ring.Current().owner
    {
      ghost var walk := Walk();
      assert index == walk[ring.cursor] && end == walk[0];
      index := index.next;
      if index == end {
        index := index.next;
      }
      ring := ring.Next();
      owner := index.owner;
    }

    method InsertEnd(x: ListItem)
      requires Valid() && x.container == null && x != end
      modifies this`ring, this`repr, this`numberOfItems, x`next, x`previous, x`container, repr`next, repr`previous
      ensures Valid() && ring == old(ring).InsertEnd(x) && repr == old(repr) + {x} && x.container == this
    {
      ghost var r, p, walk := ring, ring.EndPosition(), Walk();
      NotOnWalk(x);
      Neighbours(p, p + 1);
      assert walk[p + 1] == index;
      LinkBefore(index, x, walk, p);
      x.container := this;
      numberOfItems := numberOfItems + 1;
      ring, repr := ring.InsertEnd(x), repr + {x};
      LinkedIn(r, p, x);
    }

    /** The node behind which `Insert` links: the marker's predecessor, or the last one before the first greater value. */
    method FindSpot(v: Tick) returns (spot: ListItem, ghost p: nat)
      requires Valid()
      ensures spot == Walk()[InsertPosition(Values(ring.items), v)]
      ensures p == InsertPosition(Values(ring.items), v)
    {
      p := 0;
      ghost var walk := Walk();
      if v == MAX_DELAY {
        p := |ring.items|;
        assert end == walk[p + 1] && walk[p + 1].previous == walk[p];
        spot := end.previous;
      } else {
        spot := end;
        while spot.next.value <= v
          invariant p <= |ring.items| && spot == walk[p] && spot.next == walk[p + 1]
          invariant forall i :: 0 <= i < p ==> ring.items[i].value <= v
          decreases |ring.items| - p
        {
          assert walk[p + 1].next == walk[p + 2];
          spot := spot.next;
          p := p + 1;
        }
      }
      InsertPositionIs(Values(ring.items), v, p);
    }

    /** Insertion in the order of the item values, behind the items with an equal value. */
    method Insert(x: ListItem) returns (ghost p: nat)
      requires Valid() && x.container == null && x != end
      modifies this`ring, this`repr, this`numberOfItems, x`next, x`previous, x`container, repr`next, repr`previous
      ensures p == old(InsertPosition(Values(ring.items), x.value))
      ensures Valid() && repr == old(repr) + {x} && x.container == this
      ensures p <= old(|ring.items|) && ring == old(ring).Insert(p, x)
    {
      var spot;
      spot, p := FindSpot(x.value);
      LinkBehind(spot, p, x);
    }

    method LinkBehind(spot: ListItem, ghost p: nat, x: ListItem)
      requires Valid() && x.container == null && x != end
      requires p <= |ring.items| && spot == Walk()[p]
      modifies this`ring, this`repr, this`numberOfItems, x`next, x`previous, x`container, repr`next, repr`previous
      ensures Valid() && ring == old(ring).Insert(p, x) && repr == old(repr) + {x} && x.container == this
    {
      ghost var r, walk := ring, Walk();
      NotOnWalk(x);
      Neighbours(p, p + 1);
      LinkAfter(spot, x, walk, p);
      x.container := this;
      numberOfItems := numberOfItems + 1;
      ring, repr := ring.Insert(p, x), repr + {x};
      LinkedIn(r, p, x);
    }
  }

  /** Put x between a node and its successor. */
  method LinkAfter(node: ListItem, x: ListItem, ghost w: seq<ListItem>, ghost p: nat)
    requires p + 1 < |w| && Linked(w) && node == w[p] && forall i :: 0 <= i < |w| ==> w[i] != x
    requires forall i :: 0 <= i < |w| - 1 && i != p ==> w[i] != w[p]
    requires forall i :: 0 < i < |w| && i != p + 1 ==> w[i] != w[p + 1]
    modifies x`next, x`previous, {w[p]}`next, {w[p + 1]}`previous
    ensures LinkedExcept(w, p, p + 1) && w[p].next == x && x.previous == w[p]
    ensures x.next == w[p + 1] && w[p + 1].previous == x
  {
    assert node.next == w[p + 1];
    x.next := node.next;
    x.next.previous := x;
    x.previous := node;
    node.next := x;
  }

  /** Put x between a node and its predecessor. */
  method LinkBefore(node: ListItem, x: ListItem, ghost w: seq<ListItem>, ghost p: nat)
    requires p + 1 < |w| && Linked(w) && node == w[p + 1] && forall i :: 0 <= i < |w| ==> w[i] != x
    requires forall i :: 0 <= i < |w| - 1 && i != p ==> w[i] != w[p]
    requires forall i :: 0 < i < |w| && i != p + 1 ==> w[i] != w[p + 1]
    modifies x`next, x`previous, {w[p]}`next, {w[p + 1]}`previous
    ensures LinkedExcept(w, p, p + 1) && w[p].next == x && x.previous == w[p]
    ensures x.next == w[p + 1] && w[p + 1].previous == x
  {
    assert node.previous == w[p];
    x.next := node;
    x.previous := node.previous;
    node.previous.next := x;
    node.previous := x;
  }

  /** Make the neighbours of x point to each other. */
  method Bypass(x: ListItem, ghost w: seq<ListItem>, ghost k: nat)
    requires k + 2 < |w| && Linked(w) && x == w[k + 1]
    requires forall i :: 0 <= i < |w| - 1 && i != k ==> w[i] != w[k]
    requires forall i :: 0 < i < |w| && i != k + 2 ==> w[i] != w[k + 2]
    modifies {w[k]}`next, {w[k + 2]}`previous
    ensures LinkedExcept(w, k, k + 2) && w[k].next == w[k + 2] && w[k + 2].previous == w[k]
    ensures x.previous == old(x.previous) == w[k]
  {
    assert x.next == w[k + 2] && x.previous == w[k];
    x.next.previous := x.previous;
    x.previous.next := x.next;
  }

  /** Take an item out of the list it is in, stepping a cursor that stands on it back to its predecessor. */
  method Remove(x: ListItem) returns (remaining: nat)
    requires x.container != null && x.container.Valid() && x in x.container.ring.items
    modifies x.container`ring, x.container`repr, x.container`numberOfItems, x.container`index
    modifies x`container, x.container.repr`next, x.container.repr`previous
    ensures x.container == null
    ensures old(x.container).Valid() && old(x.container).repr == old(x.container.repr) - {x}
    ensures remaining == |old(x.container).ring.items|
    ensures old(x.container).ring == old(x.container.ring.Remove(IndexOf(x.container.ring.items, x)))
  {
    hide Linked, LinkedExcept;
    var list := x.container;
    ghost var r, k, walk := list.ring, IndexOf(list.ring.items, x), list.Walk();
    list.Neighbours(k, k + 2);
    list.UnderCursor(k);
    Bypass(x, walk, k);
    if list.index == x {
      list.index := x.previous;
    }
    x.container := null;
    list.numberOfItems := list.numberOfItems - 1;
    list.ring, list.repr := list.ring.Remove(k), list.repr - {x};
    list.LinkedOut(r, k, walk);
    remaining := list.numberOfItems;
  }
}
