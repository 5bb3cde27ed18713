/** Where the sorted insertion of the kernel list puts an item, and what repeated sorted insertion amounts to. */
module SortedInsertion {
  import opened Sequences

  /** The largest value of a tick count; the end marker of a list carries it. */
  const MAX_DELAY := 0xFFFF_FFFF
  type Tick = t: nat | t <= MAX_DELAY

  /** Before the first greater value. */
  function InsertPosition(vs: seq<nat>, v: nat): (p: nat)
    ensures p <= |vs|
    ensures forall i :: 0 <= i < p ==> vs[i] <= v
    ensures p < |vs| ==> vs[p] > v
  {
    if vs == [] || vs[0] > v then 0 else 1 + InsertPosition(vs[1..], v)
  }

  /** The position is the only one with no greater value before it and a greater value, or the end, at it. */
  lemma {:induction false} InsertPositionIs(vs: seq<nat>, v: nat, p: nat)
    requires p <= |vs| && (p == |vs| || vs[p] > v)
    requires forall i :: 0 <= i < p ==> vs[i] <= v
    ensures InsertPosition(vs, v) == p
  {
    if p == 0 {
    } else {
      InsertPositionIs(vs[1..], v, p - 1);
    }
  }

  // ---------- A queue of entries in key order ----------

  datatype Entry<T> = Entry(key: nat, item: T)

  function Items<T>(q: seq<Entry<T>>): (xs: seq<T>)
    ensures |xs| == |q| && forall i :: 0 <= i < |q| ==> xs[i] == q[i].item
  {
    seq(|q|, i requires 0 <= i < |q| => q[i].item)
  }

  function Keys<T>(q: seq<Entry<T>>): (ks: seq<nat>)
    ensures |ks| == |q|
    ensures forall i :: 0 <= i < |q| ==> ks[i] == q[i].key
  {
    seq(|q|, i requires 0 <= i < |q| => q[i].key)
  }

  /** The trigger keeps the pairs of positions out of proofs that do not ask for them. */
  ghost predicate Sorted(vs: seq<nat>) {
    forall i, j {:trigger Ordered(i, j)} :: 0 <= i && j < |vs| && Ordered(i, j) ==> vs[i] <= vs[j]
  }

  predicate Ordered(i: int, j: int) {
    i < j
  }

  function Enter<T>(q: seq<Entry<T>>, e: Entry<T>): seq<Entry<T>> {
    InsertAt(q, InsertPosition(Keys(q), e.key), e)
  }

  function EnterAll<T>(q: seq<Entry<T>>, es: seq<Entry<T>>): seq<Entry<T>>
    decreases |es|
  {
    if es == [] then q else EnterAll(Enter(q, es[0]), es[1..])
  }

  /** The entries with key k, in their order. */
  function With<T>(q: seq<Entry<T>>, k: nat): (s: seq<Entry<T>>)
    ensures |s| <= |q|
  {
    if q == [] then [] else if q[0].key == k then [q[0]] + With(q[1..], k) else With(q[1..], k)
  }

  lemma InsertKeepsSorted(vs: seq<nat>, v: nat)
    requires Sorted(vs)
    ensures Sorted(InsertAt(vs, InsertPosition(vs, v), v))
  {
    var p := InsertPosition(vs, v);
    var us := InsertAt(vs, p, v);
    forall j | p <= j < |vs| ensures vs[j] > v {
      assert p == j || Ordered(p, j);
    }
    forall i, j | 0 <= i && j < |us| && Ordered(i, j) ensures us[i] <= us[j] {
      assert i != p && j != p ==> Ordered(if i < p then i else i - 1, if j < p then j else j - 1);
    }
  }

  lemma EraseKeepsSorted(vs: seq<nat>, k: nat)
    requires Sorted(vs) && k < |vs|
    ensures Sorted(Erase(vs, k))
  {
    var us := Erase(vs, k);
    forall i, j | 0 <= i && j < |us| && Ordered(i, j) ensures us[i] <= us[j] {
      assert Ordered(if i < k then i else i + 1, if j < k then j else j + 1);
    }
  }

  lemma DropKeepsSorted(vs: seq<nat>, k: nat)
    requires Sorted(vs) && k <= |vs|
    ensures Sorted(vs[k..])
  {
    forall i, j | 0 <= i && j < |vs[k..]| && Ordered(i, j) ensures vs[k..][i] <= vs[k..][j] {
      assert Ordered(i + k, j + k);
    }
  }

  lemma EnterKeys<T>(q: seq<Entry<T>>, e: Entry<T>)
    ensures Keys(Enter(q, e)) == InsertAt(Keys(q), InsertPosition(Keys(q), e.key), e.key)
  {
  }

  lemma EnterSorted<T>(q: seq<Entry<T>>, e: Entry<T>)
    requires Sorted(Keys(q))
    ensures Sorted(Keys(Enter(q, e)))
    ensures forall d :: d in Enter(q, e) ==> d in q || d == e
  {
    EnterKeys(q, e);
    InsertKeepsSorted(Keys(q), e.key);
  }

  lemma {:induction false} WithConcat<T>(a: seq<Entry<T>>, b: seq<Entry<T>>, k: nat)
    ensures With(a + b, k) == With(a, k) + With(b, k)
  {
    if a == [] {
      assert a + b == b;
    } else {
      assert (a + b)[1..] == a[1..] + b;
      WithConcat(a[1..], b, k);
      assert [a[0]] + (With(a[1..], k) + With(b, k)) == [a[0]] + With(a[1..], k) + With(b, k);
    }
  }

  lemma {:induction false} WithMember<T>(q: seq<Entry<T>>, k: nat, e: Entry<T>)
    ensures e in With(q, k) <==> e in q && e.key == k
  {
    if q == [] {
    } else {
      WithMember(q[1..], k, e);
    }
  }

  lemma {:induction false} WithNone<T>(q: seq<Entry<T>>, k: nat)
    requires forall e :: e in q ==> e.key != k
    ensures With(q, k) == []
  {
    if q == [] {
    } else {
      WithNone(q[1..], k);
    }
  }

  /** Among the entries with its own key an entry goes last; the others keep their order. */
  lemma EnterStable<T>(q: seq<Entry<T>>, e: Entry<T>, k: nat)
    requires Sorted(Keys(q))
    ensures With(Enter(q, e), k) == if e.key == k then With(q, k) + [e] else With(q, k)
  {
    var p := InsertPosition(Keys(q), e.key);
    var a, b := q[..p], q[p..];
    WithInserted(a, e, b, k);
    assert q == a + b && Enter(q, e) == a + [e] + b;
    if e.key == k {
      BehindIsGreater(q, k);
      WithNone(b, k);
    }
  }

  lemma WithInserted<T>(a: seq<Entry<T>>, e: Entry<T>, b: seq<Entry<T>>, k: nat)
    ensures With(a + b, k) == With(a, k) + With(b, k)
    ensures With(a + [e] + b, k) == if e.key == k then With(a, k) + [e] + With(b, k) else With(a, k) + With(b, k)
  {
    WithConcat(a, b, k);
    WithConcat(a + [e], b, k);
    WithConcat(a, [e], k);
    assert With([e], k) == if e.key == k then [e] else [];
    assert With(a, k) + [] == With(a, k);
  }

  lemma BehindIsGreater<T>(q: seq<Entry<T>>, k: nat)
    requires Sorted(Keys(q))
    ensures forall d :: d in q[InsertPosition(Keys(q), k)..] ==> d.key > k
  {
    var p := InsertPosition(Keys(q), k);
    forall j | p <= j < |q| ensures q[j].key > k {
      assert Keys(q)[p] > k && (p == j || Ordered(p, j));
    }
  }

  /** Entering a batch one by one sorts it by key and keeps the order of equal keys. */
  lemma {:induction false} EnterAllSorts<T>(q: seq<Entry<T>>, es: seq<Entry<T>>)
    requires Sorted(Keys(q))
    ensures Sorted(Keys(EnterAll(q, es)))
    ensures forall k: nat :: With(EnterAll(q, es), k) == With(q, k) + With(es, k)
    decreases |es|
  {
    if es == [] {
    } else {
      var r := Enter(q, es[0]);
      EnterSorted(q, es[0]);
      EnterAllSorts(r, es[1..]);
      forall k: nat ensures With(EnterAll(q, es), k) == With(q, k) + With(es, k) {
        EnterStable(q, es[0], k);
        assert With(q, k) + [es[0]] + With(es[1..], k) == With(q, k) + ([es[0]] + With(es[1..], k));
      }
    }
  }

  /** Being sorted and keeping the order of equal keys leaves no choice: this determines the sequence. */
  lemma {:induction false} StableSortIsUnique<T>(a: seq<Entry<T>>, b: seq<Entry<T>>)
    requires Sorted(Keys(a)) && Sorted(Keys(b))
    requires forall k: nat :: With(a, k) == With(b, k)
    ensures a == b
    decreases |a|
  {
    if b == [] {
    } else {
      WithMember(b, b[0].key, b[0]);
      WithMember(a, b[0].key, b[0]);
      assert With(a, b[0].key) == With(b, b[0].key);
    }
    if a != [] {
      WithMember(a, a[0].key, a[0]);
      WithMember(b, a[0].key, a[0]);
      assert With(a, a[0].key) == With(b, a[0].key);
      HeadIsLeast(a, b);
      HeadIsLeast(b, a);
      assert With(a, a[0].key)[0] == a[0] && With(b, a[0].key)[0] == b[0];
      forall k: nat ensures With(a[1..], k) == With(b[1..], k) {
        assert With(a, k) == With(b, k);
        if a[0].key == k {
          assert With(a, k)[1..] == With(a[1..], k) && With(b, k)[1..] == With(b[1..], k);
        }
      }
      TailSorted(a);
      TailSorted(b);
      StableSortIsUnique(a[1..], b[1..]);
    }
  }

  lemma TailSorted<T>(a: seq<Entry<T>>)
    requires a != [] && Sorted(Keys(a))
    ensures Sorted(Keys(a[1..]))
  {
    assert Keys(a[1..]) == Keys(a)[1..];
    DropKeepsSorted(Keys(a), 1);
  }

  lemma HeadIsLeast<T>(a: seq<Entry<T>>, b: seq<Entry<T>>)
    requires a != [] && b != [] && Sorted(Keys(a))
    requires forall k: nat :: With(a, k) == With(b, k)
    ensures a[0].key <= b[0].key
  {
    WithMember(b, b[0].key, b[0]);
    WithMember(a, b[0].key, b[0]);
    assert With(a, b[0].key) == With(b, b[0].key);
    var j :| 0 <= j < |a| && a[j] == b[0];
    assert j == 0 || Ordered(0, j);
  }
}
