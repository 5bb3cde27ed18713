/** Any number of generic lists in one memory: every program of add, remove, pop and merge computes what it computes
    on plain sequences. */
module LinkPrograms {
  import opened Sequences
  import opened LinkList

  // ---------- The plain sequences ----------

  /** A sequence of links for every head. */
  type Rings = map<Link, seq<Link>>

  datatype Op =
    | AddOp(head: Link, link: Link)
    | RemoveOp(link: Link)
    | PopOp(from: Link?)
    | MergeOp(result: Link, other: Link?)

  ghost predicate Free(rings: Rings, x: Link) {
    forall h :: h in rings ==> x !in Nodes(h, rings[h])
  }

  ghost predicate Legal(nodes: set<Link>, rings: Rings, op: Op) {
    match op
    case AddOp(h, x) => h in rings && x in nodes && Free(rings, x)
    case RemoveOp(x) => x in nodes && x !in rings
    case PopOp(h) => h == null || h in rings
    case MergeOp(h, g) => h in rings && g != h && (g == null || g in rings)
  }

  /** The list a link is in. */
  ghost function Home(rings: Rings, x: Link): (h: Link)
    requires x !in rings && !Free(rings, x)
    ensures h in rings && x in rings[h]
  {
    var h :| h in rings && x in Nodes(h, rings[h]);
    h
  }

  ghost function Apply(nodes: set<Link>, rings: Rings, op: Op): Rings
    requires Legal(nodes, rings, op)
  {
    match op
    case AddOp(h, x) => rings[h := [x] + rings[h]]
    case RemoveOp(x) =>
      if Free(rings, x) then rings
      else var h := Home(rings, x); rings[h := Erase(rings[h], IndexOf(rings[h], x))]
    case PopOp(h) => if h == null || rings[h] == [] then rings else rings[h := rings[h][1..]]
    case MergeOp(h, g) => if g == null then rings else rings[h := rings[g] + rings[h]][g := []]
  }

  /** What a pop hands out. */
  ghost function Output(nodes: set<Link>, rings: Rings, op: Op): seq<Link?>
    requires Legal(nodes, rings, op)
  {
    if !op.PopOp? then [] else if op.from == null || rings[op.from] == [] then [null] else [rings[op.from][0]]
  }

  /** An added link comes first in its list. */
  lemma AddIs(nodes: set<Link>, rings: Rings, h: Link, x: Link)
    requires Legal(nodes, rings, AddOp(h, x))
    ensures var now := Apply(nodes, rings, AddOp(h, x));
            now.Keys == rings.Keys && forall g :: g in rings ==> now[g] == if g == h then [x] + rings[h] else rings[g]
  {
  }

  /** A removed link is gone from the one list that has it, and the order of the others is kept. */
  lemma RemoveIs(nodes: set<Link>, rings: Rings, h: Link, x: Link)
    requires Legal(nodes, rings, RemoveOp(x)) && h in rings
    requires forall f, g :: f in rings && g in rings && x in rings[f] && x in rings[g] ==> f == g
    ensures var now := Apply(nodes, rings, RemoveOp(x));
            && now.Keys == rings.Keys
            && if x in rings[h] then exists i :: 0 <= i <= |now[h]| && rings[h] == InsertAt(now[h], i, x) else now[h] == rings[h]
  {
    if x in rings[h] {
      assert x in Nodes(h, rings[h]);
      Reinserted(rings[h], x);
    }
  }

  lemma Reinserted(s: seq<Link>, x: Link)
    requires x in s
    ensures var i := IndexOf(s, x); i < |s| && s == InsertAt(Erase(s, i), i, x)
  {
  }

  /** A pop hands out the first link, if there is one, and leaves the rest. */
  lemma PopIs(nodes: set<Link>, rings: Rings, h: Link)
    requires Legal(nodes, rings, PopOp(h)) && h in rings
    ensures var now, out := Apply(nodes, rings, PopOp(h)), Output(nodes, rings, PopOp(h));
            && now.Keys == rings.Keys && (forall g :: g in rings && g != h ==> now[g] == rings[g])
            && if rings[h] == [] then out == [null] && now[h] == [] else out + now[h] == rings[h]
  {
  }

  /** A merge puts the other list in front and leaves it empty. */
  lemma MergeIs(nodes: set<Link>, rings: Rings, h: Link, o: Link)
    requires Legal(nodes, rings, MergeOp(h, o))
    ensures var now := Apply(nodes, rings, MergeOp(h, o));
            && now.Keys == rings.Keys && now[h] == rings[o] + rings[h] && now[o] == []
            && forall g :: g in rings && g != h && g != o ==> now[g] == rings[g]
  {
  }

  ghost predicate AllLegal(nodes: set<Link>, rings: Rings, ops: seq<Op>)
    decreases |ops|
  {
    ops != [] ==> Legal(nodes, rings, ops[0]) && AllLegal(nodes, Apply(nodes, rings, ops[0]), ops[1..])
  }

  ghost function ApplyAll(nodes: set<Link>, rings: Rings, ops: seq<Op>): Rings
    requires AllLegal(nodes, rings, ops)
    decreases |ops|
  {
    if ops == [] then rings else ApplyAll(nodes, Apply(nodes, rings, ops[0]), ops[1..])
  }

  ghost function OutputAll(nodes: set<Link>, rings: Rings, ops: seq<Op>): seq<Link?>
    requires AllLegal(nodes, rings, ops)
    decreases |ops|
  {
    if ops == [] then []
    else Output(nodes, rings, ops[0]) + OutputAll(nodes, Apply(nodes, rings, ops[0]), ops[1..])
  }

  // ---------- The memory ----------

  /** Every list is a ring, no two share a node, and a link in no list is unlinked. */
  ghost predicate Valid(nodes: set<Link>, rings: Rings)
    reads nodes
  {
    && (forall h :: h in rings ==> Nodes(h, rings[h]) <= nodes && IsRing(h, rings[h]))
    && (forall h, g :: h in rings && g in rings && h != g ==> Nodes(h, rings[h]) !! Nodes(g, rings[g]))
    && (forall x :: x in nodes && Free(rings, x) ==> x.next == null && x.prev == null)
  }

  /** Memories without a common node can be seen as one. */
  lemma Join(a: set<Link>, r: Rings, b: set<Link>, s: Rings)
    requires Valid(a, r) && Valid(b, s) && a !! b
    ensures r.Keys !! s.Keys && Valid(a + b, r + s)
  {
    assert r.Keys !! s.Keys by {
      assert forall h :: h in r ==> h in Nodes(h, r[h]);
      assert forall h :: h in s ==> h in Nodes(h, s[h]);
    }
    forall x | x in a + b && Free(r + s, x) ensures x.next == null && x.prev == null {
      if x in a {
        assert Free(r, x) by {
          assert forall h :: h in r ==> (r + s)[h] == r[h];
        }
      } else {
        assert Free(s, x) by {
          assert forall h :: h in s ==> (r + s)[h] == s[h];
        }
      }
    }
  }

  /** A list and some free links can be set apart. */
  lemma Split(nodes: set<Link>, rings: Rings, h: Link, free: set<Link>)
    requires Valid(nodes, rings) && h in rings && free <= nodes
    requires forall x :: x in free ==> Free(rings, x)
    ensures Valid(nodes - Nodes(h, rings[h]) - free, rings - {h})
  {
    var a, r := nodes - Nodes(h, rings[h]) - free, rings - {h};
    forall x | x in a && Free(r, x) ensures x.next == null && x.prev == null {
      assert Free(rings, x) by {
        assert forall g :: g in rings ==> g == h || (g in r && r[g] == rings[g]);
      }
    }
  }

  lemma Single(h: Link, s: seq<Link>, free: set<Link>)
    requires IsRing(h, s) && forall x :: x in free && x !in Nodes(h, s) ==> x.next == null && x.prev == null
    ensures Valid(Nodes(h, s) + free, map[h := s])
  {
    var r := map[h := s];
    forall x | x in Nodes(h, s) + free && Free(r, x) ensures x.next == null && x.prev == null {
      assert x !in Nodes(h, r[h]);
    }
  }

  /** After an operation on h and the free links, the memory is whole again. */
  lemma Rejoin(nodes: set<Link>, rings: Rings, h: Link, s: seq<Link>, free: set<Link>)
    requires h in rings && Nodes(h, rings[h]) + free <= nodes
    requires Valid(nodes - Nodes(h, rings[h]) - free, rings - {h})
    requires Nodes(h, s) <= Nodes(h, rings[h]) + free && IsRing(h, s)
    requires forall x :: x in Nodes(h, rings[h]) + free && x !in Nodes(h, s) ==> x.next == null && x.prev == null
    ensures Valid(nodes, rings[h := s])
  {
    var mine := Nodes(h, rings[h]) + free;
    Single(h, s, mine);
    assert Nodes(h, s) + mine == mine;
    Join(nodes - Nodes(h, rings[h]) - free, rings - {h}, mine, map[h := s]);
    assert nodes == nodes - Nodes(h, rings[h]) - free + mine;
    assert rings[h := s] == rings - {h} + map[h := s];
  }

  method DoAdd(h: Link, x: Link, ghost nodes: set<Link>, ghost rings: Rings)
    requires Valid(nodes, rings) && Legal(nodes, rings, AddOp(h, x))
    modifies nodes
    ensures Valid(nodes, Apply(nodes, rings, AddOp(h, x)))
  {
    Split(nodes, rings, h, {x});
    Add(h, x, rings[h]);
    Rejoin(nodes, rings, h, [x] + rings[h], {x});
  }

  method DoRemove(x: Link, ghost nodes: set<Link>, ghost rings: Rings)
    requires Valid(nodes, rings) && Legal(nodes, rings, RemoveOp(x))
    modifies nodes
    ensures Valid(nodes, Apply(nodes, rings, RemoveOp(x)))
  {
    ghost var free := Free(rings, x);
    ghost var h := if free then x else Home(rings, x);
    ghost var s := if free then [] else rings[h];
    if !free {
      Split(nodes, rings, h, {});
      ErasedMembers(s, IndexOf(s, x));
    }
    Remove(x, h, s);
    if free {
      assert forall g :: g in rings ==> IsRing(g, rings[g]);
    } else {
      Rejoin(nodes, rings, h, Erase(s, IndexOf(s, x)), {});
    }
  }

  method DoPop(h: Link?, ghost nodes: set<Link>, ghost rings: Rings) returns (x: Link?)
    requires Valid(nodes, rings) && Legal(nodes, rings, PopOp(h))
    modifies nodes
    ensures Valid(nodes, Apply(nodes, rings, PopOp(h)))
    ensures [x] == Output(nodes, rings, PopOp(h))
  {
    if h == null {
      x := Pop(h, []);
    } else {
      ghost var s := rings[h];
      Split(nodes, rings, h, {});
      x := Pop(h, s);
      if s != [] {
        ErasedMembers(s, 0);
        assert Erase(s, 0) == s[1..];
        Rejoin(nodes, rings, h, s[1..], {});
      }
    }
  }

  method DoMerge(h: Link, g: Link?, ghost nodes: set<Link>, ghost rings: Rings)
    requires Valid(nodes, rings) && Legal(nodes, rings, MergeOp(h, g))
    modifies nodes
    ensures Valid(nodes, Apply(nodes, rings, MergeOp(h, g)))
  {
    ghost var r := rings[h];
    Split(nodes, rings, h, {});
    if g == null {
      Merge(h, r, g, []);
      Rejoin(nodes, rings, h, r, {});
      assert rings[h := r] == rings;
    } else {
      ghost var s := rings[g];
      Split(nodes - Nodes(h, r) - {}, rings - {h}, g, {});
      Merge(h, r, g, s);
      Respliced(nodes, rings, h, g);
    }
  }

  lemma TwoUpdates(rings: Rings, h: Link, a: seq<Link>, g: Link, b: seq<Link>)
    ensures rings[h := a][g := b] == rings - {h} - {g} + map[h := a] + map[g := b]
  {
  }

  lemma Respliced(nodes: set<Link>, rings: Rings, h: Link, g: Link)
    requires h in rings && g in rings && h != g && Nodes(h, rings[h]) + Nodes(g, rings[g]) <= nodes
    requires Nodes(h, rings[h]) !! Nodes(g, rings[g]) && g !in rings[g]
    requires Valid(nodes - Nodes(h, rings[h]) - Nodes(g, rings[g]), rings - {h} - {g})
    requires IsRing(h, rings[g] + rings[h]) && IsRing(g, [])
    ensures Valid(nodes, rings[h := rings[g] + rings[h]][g := []])
  {
    var r, s := rings[h], rings[g];
    var rest := nodes - Nodes(h, r) - Nodes(g, s);
    assert Nodes(h, s + r) == Members(s) + Nodes(h, r);
    assert Nodes(g, []) == {g} && Nodes(g, s) == Members(s) + {g} && g !in Members(s);
    Single(h, s + r, {});
    Single(g, [], {});
    Join(rest, rings - {h} - {g}, Nodes(h, s + r) + {}, map[h := s + r]);
    Join(rest + (Nodes(h, s + r) + {}), rings - {h} - {g} + map[h := s + r], Nodes(g, []) + {}, map[g := []]);
    assert nodes == rest + (Nodes(h, s + r) + {}) + (Nodes(g, []) + {});
    TwoUpdates(rings, h, s + r, g, []);
  }

  /** Run a program of list operations: the lists end up as the plain sequences do, and every pop hands out what it
      hands out there. */
  method Execute(ops: seq<Op>, ghost nodes: set<Link>, ghost rings: Rings) returns (out: seq<Link?>)
    requires Valid(nodes, rings) && AllLegal(nodes, rings, ops)
    modifies nodes
    ensures Valid(nodes, ApplyAll(nodes, rings, ops))
    ensures out == OutputAll(nodes, rings, ops)
    decreases |ops|
  {
    out := [];
    if ops != [] {
      match ops[0] {
        case AddOp(h, x) => DoAdd(h, x, nodes, rings);
        case RemoveOp(x) => DoRemove(x, nodes, rings);
        case PopOp(h) =>
          var x := DoPop(h, nodes, rings);
          out := [x];
        case MergeOp(h, g) => DoMerge(h, g, nodes, rings);
      }
      var rest := Execute(ops[1..], nodes, Apply(nodes, rings, ops[0]));
      out := out + rest;
    }
  }
}
