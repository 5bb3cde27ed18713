/** Sequences without repetition, erasure and insertion by position, and places counted round and round. */
module Sequences {

  /** No element occurs twice. The trigger keeps the pairs of positions out of proofs that do not ask for them. */
  ghost predicate Distinct<T>(s: seq<T>) {
    forall i, j {:trigger Apart(i, j)} :: 0 <= i < |s| && 0 <= j < |s| && Apart(i, j) ==> s[i] != s[j]
  }

  predicate Apart(i: int, j: int) {
    i != j
  }

  lemma SamePlace<T>(s: seq<T>, i: nat, j: nat)
    requires Distinct(s) && i < |s| && j < |s| && s[i] == s[j]
    ensures i == j
  {
    assert i == j || Apart(i, j);
  }

  function IndexOf<T(==)>(s: seq<T>, x: T): (k: nat)
    requires x in s
    ensures k < |s| && s[k] == x
    ensures x !in s[..k]
  {
    if s[0] == x then 0 else 1 + IndexOf(s[1..], x)
  }

  /** In a sequence without repetition, a position is determined by what stands there. */
  lemma IndexOfAt<T>(s: seq<T>, k: nat)
    requires Distinct(s) && k < |s|
    ensures IndexOf(s, s[k]) == k
  {
    SamePlace(s, IndexOf(s, s[k]), k);
  }

  function Erase<T>(s: seq<T>, k: nat): (r: seq<T>)
    requires k < |s|
    ensures |r| == |s| - 1
  {
    s[..k] + s[k + 1..]
  }

  function InsertAt<T>(s: seq<T>, p: nat, x: T): (r: seq<T>)
    requires p <= |s|
    ensures |r| == |s| + 1
  {
    s[..p] + [x] + s[p..]
  }

  lemma ErasedMembers<T>(s: seq<T>, k: nat)
    requires Distinct(s) && k < |s|
    ensures Distinct(Erase(s, k))
    ensures forall x :: x in Erase(s, k) <==> x in s && x != s[k]
    ensures Members(Erase(s, k)) == Members(s) - {s[k]}
  {
    var t := Erase(s, k);
    assert s == s[..k] + [s[k]] + s[k + 1..];
    forall i, j | 0 <= i < |t| && 0 <= j < |t| && Apart(i, j) ensures t[i] != t[j] {
      assert Apart(if i < k then i else i + 1, if j < k then j else j + 1);
    }
    forall i | 0 <= i < |t| ensures t[i] != s[k] {
      assert Apart(if i < k then i else i + 1, k);
    }
  }

  lemma InsertedMembers<T>(s: seq<T>, p: nat, x: T)
    requires Distinct(s) && p <= |s| && x !in s
    ensures Distinct(InsertAt(s, p, x))
    ensures forall y :: y in InsertAt(s, p, x) <==> y in s || y == x
    ensures Members(InsertAt(s, p, x)) == Members(s) + {x}
  {
    var t := InsertAt(s, p, x);
    assert s == s[..p] + s[p..];
    forall i, j | 0 <= i < |t| && 0 <= j < |t| && Apart(i, j) ensures t[i] != t[j] {
      assert i != p && j != p ==> Apart(if i < p then i else i - 1, if j < p then j else j - 1);
    }
  }

  ghost function Members<T>(s: seq<T>): set<T> {
    set x | x in s
  }

  lemma EraseConcat<T>(a: seq<T>, b: seq<T>, k: nat)
    requires k < |a + b|
    ensures Erase(a + b, k) == if k < |a| then Erase(a, k) + b else a + Erase(b, k - |a|)
  {
  }

  lemma RotatedAt<T>(s: seq<T>, j: nat)
    requires j < |s|
    ensures (s[1..] + [s[0]])[j] == s[if j == |s| - 1 then 0 else j + 1]
  {
  }

  lemma NextPlace(k: nat, n: nat)
    requires k > 0 && n > 0
    ensures var j := (k - 1) % n; 0 <= j < n && k % n == if j == n - 1 then 0 else j + 1
  {
    var q, j := (k - 1) / n, (k - 1) % n;
    if j == n - 1 {
      Remainder(k, n, q + 1, 0);
    } else {
      Remainder(k, n, q, j + 1);
    }
  }

  lemma Remainder(k: nat, n: nat, q: nat, r: nat)
    requires r < n && k == q * n + r
    ensures k % n == r
  {
    SameQuotient(k / n, k % n, q, r, n);
  }

  lemma SameQuotient(a: int, b: nat, q: int, r: nat, n: nat)
    requires b < n && r < n && a * n + b == q * n + r
    ensures b == r
  {
    var d := a - q;
    assert d * n == a * n - q * n;
    Multiple(d, n);
  }

  lemma Multiple(d: int, n: nat)
    ensures d > 0 ==> d * n >= n
    ensures d < 0 ==> d * n + n <= 0
  {
  }
}
