/** What sort.Slice promises: a permutation, in order when the comparator is a strict weak order. */
module Sorting {

  type Collation = (string, string) -> bool

  /** The database's collation orders any two distinct texts, one way. */
  ghost predicate TotalOrder(less: Collation) {
    (forall a, b :: less(a, b) ==> !less(b, a) && a != b)
    && (forall a, b :: a != b ==> less(a, b) || less(b, a))
    && (forall a, b, c :: less(a, b) && less(b, c) ==> less(a, c))
  }

  /** No later element is preferred to an earlier one. */
  ghost predicate Ordered<T>(s: seq<T>, less: (T, T) -> bool) {
    forall i, j :: 0 <= i < j < |s| ==> !less(s[j], s[i])
  }

  /** Asymmetric, and indifference carries over. */
  ghost predicate WeakOrder<T>(s: seq<T>, less: (T, T) -> bool) {
    (forall a, b :: a in s && b in s && less(a, b) ==> !less(b, a))
    && forall a, b, c :: a in s && b in s && c in s && !less(a, b) && !less(b, c) ==> !less(a, c)
  }

  ghost predicate Connex<T>(s: seq<T>, less: (T, T) -> bool) {
    forall a, b :: a in s && b in s && a != b ==> less(a, b) || less(b, a)
  }

  method InsertionPoint<T>(r: seq<T>, x: T, less: (T, T) -> bool) returns (at: nat)
    ensures at <= |r| && (at > 0 ==> !less(x, r[at - 1]))
    ensures forall k :: at <= k < |r| ==> less(x, r[k])
  {
    at := |r|;
    while at > 0 && less(x, r[at - 1])
      invariant 0 <= at <= |r|
      invariant forall k :: at <= k < |r| ==> less(x, r[k])
    {
      at := at - 1;
    }
  }

  method SortSlice<T>(s: seq<T>, less: (T, T) -> bool) returns (r: seq<T>)
    ensures multiset(r) == multiset(s)
    ensures WeakOrder(s, less) ==> Ordered(r, less)
  {
    hide WeakOrder, Ordered;
    r := [];
    EmptyOrdered(r, less);
    assert s[..0] == [];
    for n := 0 to |s|
      invariant multiset(r) == multiset(s[..n])
      invariant WeakOrder(s, less) ==> Ordered(r, less)
    {
      var x := s[n];
      var at := InsertionPoint(r, x, less);
      assert s[..n + 1] == s[..n] + [x];
      assert r == r[..at] + r[at..];
      if WeakOrder(s, less) { InsertKeepsOrdered(s, s[..n], r, x, at, less); }
      r := r[..at] + [x] + r[at..];
    }
    assert s[..|s|] == s;
  }

  lemma EmptyOrdered<T>(r: seq<T>, less: (T, T) -> bool)
    requires r == []
    ensures Ordered(r, less)
  {}

  lemma InsertKeepsOrdered<T>(s: seq<T>, done: seq<T>, r: seq<T>, x: T, at: nat, less: (T, T) -> bool)
    requires WeakOrder(s, less) && Ordered(r, less) && multiset(r) == multiset(done) && done <= s && x in s
    requires at <= |r| && (at > 0 ==> !less(x, r[at - 1]))
    requires forall k :: at <= k < |r| ==> less(x, r[k])
    ensures Ordered(r[..at] + [x] + r[at..], less)
  {
    forall k | 0 <= k < |r| ensures r[k] in s {
      assert r[k] in multiset(done);
    }
    forall k | 0 <= k < at ensures !less(x, r[k]) {
      if k < at - 1 { assert !less(r[at - 1], r[k]); }
    }
  }

  lemma HeadsAgree<T>(a: seq<T>, b: seq<T>, less: (T, T) -> bool)
    requires multiset(a) == multiset(b) && |a| > 0 && |b| > 0 && Connex(a, less)
    requires Ordered(a, less) && Ordered(b, less)
    ensures a[0] == b[0]
  {
    assert a[0] in multiset(b) && b[0] in multiset(a);
    var i :| 0 <= i < |b| && b[i] == a[0];
    var j :| 0 <= j < |a| && a[j] == b[0];
  }

  lemma TailCounts<T>(a: seq<T>)
    requires |a| > 0
    ensures multiset(a[1..]) == multiset(a) - multiset{a[0]}
  {
    assert a == [a[0]] + a[1..];
  }

  /** When any two distinct elements are comparable, there is only one order. */
  lemma {:induction false} OrderedUnique<T>(a: seq<T>, b: seq<T>, less: (T, T) -> bool)
    requires multiset(a) == multiset(b) && Connex(a, less)
    requires Ordered(a, less) && Ordered(b, less)
    ensures a == b
  {
    assert |multiset(a)| == |a| && |multiset(b)| == |b|;
    if a != [] {
      HeadsAgree(a, b, less);
      TailCounts(a);
      TailCounts(b);
      OrderedUnique(a[1..], b[1..], less);
      assert a == [a[0]] + a[1..] && b == [b[0]] + b[1..];
    }
  }
}
