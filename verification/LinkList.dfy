/** The generic intrusive list: links in a ring through a head, spliced and walked in place. Every method is proved
    against the sequence of links from the head around. */
module LinkList {
  import opened Sequences

  class Link {
    var prev: Link?
    var next: Link?

    constructor ()
      ensures prev == null && next == null
    {
      prev, next := null, null;
    }
  }

  ghost function Nodes(head: Link, s: seq<Link>): set<Link> {
    Members(s) + {head}
  }

  /** From the head once around the ring. */
  function Walk(head: Link, s: seq<Link>): (w: seq<Link>)
    ensures |w| == |s| + 2
  {
    [head] + s + [head]
  }

  ghost predicate Linked(w: seq<Link>, nodes: set<Link>)
    requires forall x :: x in w ==> x in nodes
    reads nodes
  {
    && (forall i {:trigger w[i].next} :: 0 <= i < |w| - 1 ==> w[i].next == w[i + 1])
    && (forall i {:trigger w[i].prev} :: 0 < i < |w| ==> w[i].prev == w[i - 1])
  }

  /** The links of s, in this order, make up the list with the given head. */
  ghost predicate IsRing(head: Link, s: seq<Link>)
    reads Nodes(head, s)
  {
    Distinct(s) && head !in s && Linked(Walk(head, s), Nodes(head, s))
  }

  /** The neighbours of a place in the ring occur nowhere else as a left and a right neighbour. */
  lemma Neighbours(head: Link, s: seq<Link>, p: nat, q: nat)
    requires Distinct(s) && head !in s && p < |s| + 1 && 0 < q < |s| + 2
    ensures var w := Walk(head, s);
            && w[p] in Nodes(head, s) && w[q] in Nodes(head, s)
            && (forall i :: 0 <= i < |w| - 1 && i != p ==> w[i] != w[p])
            && (forall i :: 0 < i < |w| && i != q ==> w[i] != w[q])
  {
    var w := Walk(head, s);
    forall i | 0 <= i < |w| - 1 && i != p ensures w[i] != w[p] {
      assert Apart(i - 1, p - 1);
    }
    forall i | 0 < i < |w| && i != q ensures w[i] != w[q] {
      assert Apart(i - 1, q - 1);
    }
  }

  /** The walk is linked everywhere but between its nodes a and b. */
  ghost predicate LinkedExcept(w: seq<Link>, nodes: set<Link>, a: int, b: int)
    requires forall x :: x in w ==> x in nodes
    reads nodes
  {
    && (forall i {:trigger w[i].next} :: 0 <= i < |w| - 1 && !(a <= i < b) ==> w[i].next == w[i + 1])
    && (forall i {:trigger w[i].prev} :: 0 < i < |w| && !(a < i <= b) ==> w[i].prev == w[i - 1])
  }

  lemma RingErased(head: Link, s: seq<Link>, k: nat)
    requires Distinct(s) && head !in s && k < |s|
    requires LinkedExcept(Walk(head, s), Nodes(head, s), k, k + 2)
    requires var w := Walk(head, s); w[k].next == w[k + 2] && w[k + 2].prev == w[k]
    ensures IsRing(head, Erase(s, k))
  {
    ErasedMembers(s, k);
    assert Walk(head, Erase(s, k)) == Erase(Walk(head, s), k + 1);
  }

  // ---------- The operations on one ring ----------

  method InitHead(head: Link)
    modifies head
    ensures IsRing(head, [])
  {
    head.prev := head;
    head.next := head;
  }

  method Add(head: Link, x: Link, ghost s: seq<Link>)
    requires IsRing(head, s) && x !in Nodes(head, s)
    modifies Nodes(head, s), x
    ensures IsRing(head, [x] + s)
  {
    ghost var w := Walk(head, s);
    Neighbours(head, s, 0, 1);
    assert head == w[0] && head.next == w[1];
    var prevLink := head;
    var nextLink := head.next;
    x.next := nextLink;
    nextLink.prev := x;
    prevLink.next := x;
    x.prev := prevLink;
    assert LinkedExcept(w, Nodes(head, s), 0, 1);
    RingExtended(head, s, x);
  }

  lemma RingExtended(head: Link, s: seq<Link>, x: Link)
    requires Distinct(s) && head !in s && x !in Nodes(head, s)
    requires LinkedExcept(Walk(head, s), Nodes(head, s), 0, 1)
    requires head.next == x && x.prev == head && x.next == Walk(head, s)[1] && Walk(head, s)[1].prev == x
    ensures IsRing(head, [x] + s)
  {
    InsertedMembers(s, 0, x);
    assert InsertAt(s, 0, x) == [x] + s;
    assert Walk(head, [x] + s) == InsertAt(Walk(head, s), 1, x);
  }

  /** A link in a ring leaves it; a link that is in none, with a null neighbour, only gets both set to null. */
  method Remove(x: Link, ghost head: Link, ghost s: seq<Link>)
    requires x in s ==> IsRing(head, s)
    requires x !in s ==> x.next == null || x.prev == null
    modifies x, if x in s then Nodes(head, s) else {}
    ensures x.prev == null && x.next == null
    ensures x in s ==> IsRing(head, Erase(s, IndexOf(s, x)))
  {
    ghost var w := Walk(head, s);
    if x in s {
      ghost var k := IndexOf(s, x);
      Neighbours(head, s, k, k + 2);
      assert x == w[k + 1] && x.next == w[k + 2] && x.prev == w[k];
    }
    if x.next != null && x.prev != null {
      x.prev.next := x.next;
      x.next.prev := x.prev;
    }
    label Bypassed:
    x.prev := null;
    x.next := null;
    if x in s {
      ghost var k := IndexOf(s, x);
      assert LinkedExcept(w, Nodes(head, s), k, k + 2);
      RingErased(head, s, k);
    }
  }

  method IsEmpty(head: Link?, ghost s: seq<Link>) returns (empty: bool)
    requires head != null ==> IsRing(head, s)
    ensures empty <==> head == null || s == []
  {
    if head != null {
      assert Walk(head, s)[0] == head;
    }
    empty := head == null || head.next == head;
  }

  /** Take out the first link; null if there is no head or no link. */
  method Pop(head: Link?, ghost s: seq<Link>) returns (x: Link?)
    requires head != null ==> IsRing(head, s)
    modifies if head != null && s != [] then Nodes(head, s) else {}
    ensures x == null <==> head == null || s == []
    ensures x != null ==> x == s[0] && x.prev == null && x.next == null && IsRing(head, s[1..])
  {
    var empty := IsEmpty(head, s);
    if empty {
      x := null;
    } else {
      ghost var w := Walk(head, s);
      Neighbours(head, s, 0, 2);
      assert head == w[0] && head.next == w[1] && w[1].next == w[2];
      x := head.next;
      if x.next != null && x.prev != null {
        x.prev.next := x.next;
        x.next.prev := x.prev;
      }
      x.prev := null;
      x.next := null;
      assert LinkedExcept(w, Nodes(head, s), 0, 2);
      RingErased(head, s, 0);
      assert Erase(s, 0) == s[1..];
    }
  }

  /** The links of s point to each other in order. */
  ghost predicate Inner(s: seq<Link>)
    reads s
  {
    && (forall i {:trigger s[i].next} :: 0 <= i < |s| - 1 ==> s[i].next == s[i + 1])
    && (forall i {:trigger s[i].prev} :: 0 < i < |s| ==> s[i].prev == s[i - 1])
  }

  lemma InnerOfRing(head: Link, s: seq<Link>)
    requires IsRing(head, s)
    ensures Inner(s)
    ensures s != [] ==> head.next == s[0] && head.prev == s[|s| - 1]
    ensures s != [] ==> s[0].prev == head && s[|s| - 1].next == head
    ensures s == [] ==> head.next == head && head.prev == head
  {
    var w := Walk(head, s);
    assert w[0] == head && w[|s| + 1] == head;
    assert forall i :: 0 <= i < |s| ==> w[i + 1] == s[i];
    assert w[0].next == w[1] && w[|s| + 1].prev == w[|s|];
    if s != [] {
      assert w[1].prev == w[0] && w[|s|].next == w[|s| + 1];
    }
  }

  lemma RingOfInner(head: Link, s: seq<Link>)
    requires Distinct(s) && head !in s && s != [] && Inner(s)
    requires head.next == s[0] && head.prev == s[|s| - 1] && s[0].prev == head && s[|s| - 1].next == head
    ensures IsRing(head, s)
  {
    var w := Walk(head, s);
    assert forall i :: 0 <= i < |s| ==> w[i + 1] == s[i];
  }

  /** Splice the links of another list in front. Merging a list with itself does not do that: it loses all links. Their
      next links then go round and round without a head, and only the first still knows the head it came from. */
  method Merge(result: Link, ghost r: seq<Link>, other: Link?, ghost s: seq<Link>)
    requires IsRing(result, r)
    requires other != null && other != result ==> IsRing(other, s) && Nodes(result, r) !! Nodes(other, s)
    requires other == result ==> s == r
    modifies Nodes(result, r), if other != null then Nodes(other, s) else {}
    ensures other == null ==> IsRing(result, r)
    ensures other != null && other != result ==> IsRing(result, s + r) && IsRing(other, [])
    ensures other == result ==> IsRing(result, [])
    ensures other == result && s != [] ==> Inner(s) && s[|s| - 1].next == s[0] && s[0].prev == result
  {
    var empty := IsEmpty(other, s);
    if !empty {
      InnerOfRing(result, r);
      InnerOfRing(other, s);
      other.prev.next := result.next;
      result.next.prev := other.prev;
      other.next.prev := result;
      result.next := other.next;
      InitHead(other);
      if other != result {
        forall x | x in s ensures x !in r {
          assert x in Nodes(other, s);
          assert x in r ==> x in Nodes(result, r);
        }
        RingSpliced(result, r, s);
      }
    } else if other != null {
      assert other != result ==> s + r == r;
    }
  }

  lemma RingSpliced(head: Link, r: seq<Link>, s: seq<Link>)
    requires Distinct(r) && Distinct(s) && s != [] && head !in s && head !in r
    requires forall x :: x in s ==> x !in r
    requires Inner(s) && Inner(r)
    requires head.next == s[0] && s[0].prev == head
    requires r == [] ==> s[|s| - 1].next == head && head.prev == s[|s| - 1]
    requires r != [] ==> s[|s| - 1].next == r[0] && r[0].prev == s[|s| - 1] && r[|r| - 1].next == head && head.prev == r[|r| - 1]
    ensures IsRing(head, s + r)
  {
    var t := s + r;
    forall i, j | 0 <= i < |t| && 0 <= j < |t| && Apart(i, j) ensures t[i] != t[j] {
      if i < |s| && j < |s| {
        assert Apart(i, j);
      } else if |s| <= i && |s| <= j {
        assert Apart(i - |s|, j - |s|);
      } else if i < |s| {
        assert t[i] in s && t[j] in r;
      } else {
        assert t[j] in s && t[i] in r;
      }
    }
    RingOfInner(head, t);
  }

  // ---------- Traversals ----------

  /** The plain traversal visits every link once, in order. */
  method ForEach(head: Link, ghost s: seq<Link>) returns (visited: seq<Link>)
    requires IsRing(head, s)
    ensures visited == s
  {
    ghost var w := Walk(head, s);
    visited := [];
    assert w[0] == head;
    var x := head.next;
    while x != head
      invariant |visited| <= |s| && visited == s[..|visited|] && x == w[|visited| + 1]
      decreases |s| - |visited|
    {
      assert w[|visited| + 1].next == w[|visited| + 2];
      visited := visited + [x];
      x := x.next;
    }
  }

  function Filter<T>(s: seq<T>, p: T -> bool): (r: seq<T>)
    ensures forall x :: x in r ==> x in s && p(x)
    ensures forall x :: x in s && p(x) ==> x in r
  {
    if s == [] then [] else
      var n := |s| - 1;
      Filter(s[..n], p) + if p(s[n]) then [s[n]] else []
  }

  /** What follows the k-th link of a ring. */
  lemma Following(head: Link, s: seq<Link>, k: nat)
    requires IsRing(head, s) && k < |s|
    ensures s[k].next == if k + 1 < |s| then s[k + 1] else head
  {
    assert Walk(head, s)[k + 1].next == Walk(head, s)[k + 2];
  }

  function Not<T>(p: T -> bool): T -> bool {
    x => !p(x)
  }

  lemma FilterNext<T>(s: seq<T>, i: nat, p: T -> bool)
    requires i < |s|
    ensures Filter(s[..i + 1], p) == Filter(s[..i], p) + if p(s[i]) then [s[i]] else []
  {
    assert s[..i + 1][..i] == s[..i];
  }

  /** After i visits by a body that removes the links satisfying p: `kept` and the rest are linked, `gone` is unlinked. */
  ghost predicate Progress(head: Link, p: Link -> bool, s: seq<Link>, i: nat, kept: seq<Link>, gone: set<Link>)
    reads Nodes(head, s)
  {
    && i <= |s| && kept == Filter(s[..i], Not(p))
    && gone !! Nodes(head, kept + s[i..]) && Nodes(head, kept + s[i..]) + gone == Nodes(head, s)
    && IsRing(head, kept + s[i..])
    && (forall y :: y in gone ==> y.prev == null && y.next == null)
    && (forall y :: y in gone ==> p(y))
  }

  /** The loop body: it removes the link it is at if that satisfies p. */
  method Visit(x: Link, p: Link -> bool, head: Link, ghost s: seq<Link>, ghost i: nat, ghost kept: seq<Link>, ghost gone: set<Link>)
    returns (ghost kept': seq<Link>, ghost gone': set<Link>)
    requires Progress(head, p, s, i, kept, gone) && i < |s| && s[i] == x
    modifies Nodes(head, kept + s[i..])
    ensures Progress(head, p, s, i + 1, kept', gone')
  {
    ghost var ring := kept + s[i..];
    assert ring[|kept|] == x;
    IndexOfAt(ring, |kept|);
    ErasedMembers(ring, |kept|);
    assert Erase(ring, |kept|) == kept + s[i + 1..];
    FilterNext(s, i, Not(p));
    if p(x) {
      Remove(x, head, ring);
      kept', gone' := kept, gone + {x};
    } else {
      kept', gone' := kept + [x], gone;
      assert kept' + s[i + 1..] == ring;
    }
  }

  /** The traversal that is safe for such a body: it visits every link once, in order, and leaves exactly the links
      that do not satisfy p, in order. */
  method RemoveWhere(head: Link, p: Link -> bool, ghost s: seq<Link>) returns (visited: seq<Link>)
    requires IsRing(head, s)
    modifies Nodes(head, s)
    ensures visited == s
    ensures IsRing(head, Filter(s, Not(p)))
    ensures forall x :: x in s && p(x) ==> x.prev == null && x.next == null
  {
    hide *;
    ghost var i: nat, kept: seq<Link>, gone: set<Link> := 0, [], {};
    visited := [];
    NoneVisited(head, p, s);
    var x := head.next;
    var temp := x.next;
    while x != head
      invariant Progress(head, p, s, i, kept, gone) && i <= |s| && visited == s[..i]
      invariant x == if i < |s| then s[i] else head
      invariant i < |s| ==> temp == if i + 1 < |s| then s[i + 1] else head
      invariant head !in s && Nodes(head, kept + s[i..]) <= Nodes(head, s)
      decreases |s| - i
    {
      visited := visited + [x];
      kept, gone := Visit(x, p, head, s, i, kept, gone);
      i := i + 1;
      x := temp;
      Ahead(head, p, s, i, kept, gone);
      temp := x.next;
    }
    AllVisited(head, p, s, i, kept, gone);
  }

  lemma NoneVisited(head: Link, p: Link -> bool, s: seq<Link>)
    requires IsRing(head, s)
    ensures Progress(head, p, s, 0, [], {}) && head !in s && s[..0] == [] && [] + s[0..] == s
    ensures head.next == (if s != [] then s[0] else head) && head.next.next != null
    ensures s != [] ==> head.next.next == if |s| > 1 then s[1] else head
  {
    assert [] + s[0..] == s;
    InnerOfRing(head, s);
    if s != [] {
      Following(head, s, 0);
    }
  }

  lemma Ahead(head: Link, p: Link -> bool, s: seq<Link>, i: nat, kept: seq<Link>, gone: set<Link>)
    requires Progress(head, p, s, i, kept, gone)
    ensures i <= |s| && (i > 0 ==> s[..i] == s[..i - 1] + [s[i - 1]])
    ensures Nodes(head, kept + s[i..]) <= Nodes(head, s)
    ensures var x := if i < |s| then s[i] else head;
            x.next != null && (i < |s| ==> x.next == if i + 1 < |s| then s[i + 1] else head)
  {
    var ring := kept + s[i..];
    InnerOfRing(head, ring);
    if i < |s| {
      assert ring[|kept|] == s[i];
      Following(head, ring, |kept|);
    }
  }

  lemma AllVisited(head: Link, p: Link -> bool, s: seq<Link>, i: nat, kept: seq<Link>, gone: set<Link>)
    requires Progress(head, p, s, i, kept, gone) && i == |s|
    ensures s[..i] == s && IsRing(head, Filter(s, Not(p)))
    ensures head !in s ==> forall x :: x in s && p(x) ==> x.prev == null && x.next == null
  {
    assert kept + s[i..] == kept && s[..i] == s;
    forall y | y in s && p(y) && y != head ensures y in gone {
      assert y in Nodes(head, s) && y !in kept;
    }
  }
}
