/** Ordering a finite collection by an integer key, as Python's `sorted(…, key=…)`
    and a database `ORDER BY` do. */
module Sorting {

  /** `s` lists its elements in non-decreasing `key` order. */
  predicate SortedBy<T>(s: seq<T>, key: T -> int) {
    forall i, j :: 0 <= i < j < |s| ==> key(s[i]) <= key(s[j])
  }

  /** No element occurs twice in `s`. */
  predicate Distinct<T(==)>(s: seq<T>) {
    forall i, j :: 0 <= i < j < |s| ==> s[i] != s[j]
  }

  /** Where `x` goes in the sorted `s`: after every element whose key is at
      most its own, before every element whose key is larger. */
  function InsertionPoint<T>(s: seq<T>, x: T, key: T -> int): (p: nat)
    requires SortedBy(s, key)
    ensures p <= |s|
    ensures forall i :: 0 <= i < p ==> key(s[i]) <= key(x)
    ensures forall i :: p <= i < |s| ==> key(x) < key(s[i])
  {
    if |s| == 0 || key(x) < key(s[0]) then 0
    else 1 + InsertionPoint(s[1..], x, key)
  }

  /** `s` with `x` inserted at its insertion point. */
  function Insert<T(==)>(s: seq<T>, x: T, key: T -> int): (r: seq<T>)
    requires SortedBy(s, key)
    ensures |r| == |s| + 1
    ensures SortedBy(r, key)
    ensures multiset(r) == multiset(s) + multiset{x}
    ensures Distinct(s) && x !in s ==> Distinct(r)
  {
    var p := InsertionPoint(s, x, key);
    var r := s[..p] + [x] + s[p..];
    assert s == s[..p] + s[p..];
    InsertAtPointSorted(s, x, key, p, r);
    InsertAtPointDistinct(s, x, p, r);
    r
  }

  lemma InsertAtPointSorted<T>(s: seq<T>, x: T, key: T -> int, p: nat, r: seq<T>)
    requires SortedBy(s, key)
    requires p <= |s|
    requires forall i :: 0 <= i < p ==> key(s[i]) <= key(x)
    requires forall i :: p <= i < |s| ==> key(x) < key(s[i])
    requires r == s[..p] + [x] + s[p..]
    ensures SortedBy(r, key)
  {
  }

  lemma InsertAtPointDistinct<T>(s: seq<T>, x: T, p: nat, r: seq<T>)
    requires p <= |s|
    requires r == s[..p] + [x] + s[p..]
    ensures Distinct(s) && x !in s ==> Distinct(r)
  {
  }

  /** Picks an element of a non-empty set. */
  method Pick<T>(xs: set<T>) returns (x: T)
    requires xs != {}
    ensures x in xs
  {
    x :| x in xs;
  }

  /** Lists every element of `xs` exactly once, in non-decreasing `key` order.
      Elements with equal keys come out in an unspecified order. */
  method SortBy<T(==)>(xs: set<T>, key: T -> int) returns (s: seq<T>)
    ensures SortedBy(s, key)
    ensures Distinct(s)
    ensures forall y :: y in s <==> y in xs
    ensures |s| == |xs|
  {
    s := [];
    var rest := xs;
    while rest != {}
      invariant rest <= xs
      invariant SortedBy(s, key)
      invariant Distinct(s)
      invariant forall y :: y in s <==> y in xs && y !in rest
      invariant |s| + |rest| == |xs|
      decreases rest
    {
      var x := Pick(rest);
      s := Insert(s, x, key);
      rest := rest - {x};
    }
  }

  /** `s` is ordered by `key` and, among equal keys, by increasing `rank`. */
  predicate SortedByThenRank<T>(s: seq<T>, key: T -> int, rank: T -> int) {
    forall i, j :: 0 <= i < j < |s| ==>
      key(s[i]) < key(s[j]) || (key(s[i]) == key(s[j]) && rank(s[i]) < rank(s[j]))
  }

  /** With ranks below `n`, comparing `key * n + rank` compares by key and
      then by rank. */
  lemma CombinedKeyOrder(k1: int, r1: int, k2: int, r2: int, n: int)
    requires 0 <= r1 < n && 0 <= r2 < n
    requires k1 * n + r1 <= k2 * n + r2
    requires r1 != r2
    ensures k1 < k2 || (k1 == k2 && r1 < r2)
  {
    if k1 > k2 {
      var d := k1 - k2;
      AtLeastOnce(d, n);
    }
  }

  lemma {:induction false} AtLeastOnce(d: int, n: int)
    requires d >= 1 && n > 0
    ensures d * n >= n
    decreases d
  {
    if d > 1 {
      AtLeastOnce(d - 1, n);
      assert d * n == (d - 1) * n + n;
    }
  }

  /** Lists every element of `xs` exactly once, ordered by `key` and, among
      equal keys, by `rank`: what a stable sort by `key` gives for a list of
      the elements ordered by `rank`. */
  method SortByThenRank<T(==)>(xs: set<T>, key: T -> int, rank: T -> int, n: int) returns (s: seq<T>)
    requires forall x :: x in xs ==> 0 <= rank(x) < n
    requires forall x, y :: x in xs && y in xs && rank(x) == rank(y) ==> x == y
    ensures SortedByThenRank(s, key, rank)
    ensures SortedBy(s, key)
    ensures Distinct(s)
    ensures forall y :: y in s <==> y in xs
    ensures |s| == |xs|
  {
    s := SortBy(xs, x => key(x) * n + rank(x));
    forall i, j | 0 <= i < j < |s|
      ensures key(s[i]) < key(s[j]) || (key(s[i]) == key(s[j]) && rank(s[i]) < rank(s[j]))
    {
      CombinedKeyOrder(key(s[i]), rank(s[i]), key(s[j]), rank(s[j]), n);
    }
  }
}
