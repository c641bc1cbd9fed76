/** The disjoint-set forest of internal/duplicates/similar.go: path halving and union by rank over two
    mutable arrays. */
module UnionFind {
  import opened Jobs

  // ----- forests as sequences -----

  /** Rank strictly grows towards the root. */
  ghost predicate Forest(p: seq<int>, r: seq<int>) {
    |p| == |r|
    && forall x :: 0 <= x < |p| ==> 0 <= p[x] < |p| && 0 <= r[x] && (p[x] != x ==> r[x] < r[p[x]])
  }

  ghost function MaxOf(r: seq<int>): (m: int)
    ensures forall x :: 0 <= x < |r| ==> r[x] <= m
  {
    if r == [] then 0
    else
      var m := MaxOf(r[1..]);
      assert forall x :: 1 <= x < |r| ==> r[x] == r[1..][x - 1];
      if r[0] > m then r[0] else m
  }

  ghost function Root(p: seq<int>, r: seq<int>, x: int): (root: int)
    requires Forest(p, r) && 0 <= x < |p|
    ensures 0 <= root < |p| && p[root] == root && r[x] <= r[root]
    ensures p[x] == x <==> root == x
    decreases MaxOf(r) - r[x]
  {
    if p[x] == x then x else Root(p, r, p[x])
  }

  /** Every element's representative: the partition the forest stands for. */
  ghost function Roots(p: seq<int>, r: seq<int>): (roots: seq<int>)
    requires Forest(p, r)
    ensures |roots| == |p|
  {
    seq(|p|, x requires 0 <= x < |p| => Root(p, r, x))
  }

  /** Path halving: an element may skip to its grandparent without changing any representative. */
  lemma HalvingKeepsForest(p: seq<int>, r: seq<int>, x: int)
    requires Forest(p, r) && 0 <= x < |p|
    ensures Forest(p[x := p[p[x]]], r)
  {}

  lemma {:induction false} HalvingKeepsRoot(p: seq<int>, r: seq<int>, x: int, y: int)
    requires Forest(p, r) && 0 <= x < |p| && 0 <= y < |p|
    requires Forest(p[x := p[p[x]]], r)
    ensures Root(p[x := p[p[x]]], r, y) == Root(p, r, y)
    decreases MaxOf(r) - r[y]
  {
    var q := p[x := p[p[x]]];
    if q[y] != y { HalvingKeepsRoot(p, r, x, q[y]); }
  }

  lemma HalvingKeepsPartition(p: seq<int>, r: seq<int>, x: int, q: seq<int>)
    requires Forest(p, r) && 0 <= x < |p| && q == p[x := p[p[x]]]
    ensures Forest(q, r) && Roots(q, r) == Roots(p, r)
    ensures p[x] != x ==> r[x] < r[q[x]]
    ensures Roots(p, r)[q[x]] == Roots(p, r)[x]
  {
    HalvingKeepsForest(p, r, x);
    forall y | 0 <= y < |p| ensures Root(q, r, y) == Root(p, r, y) {
      HalvingKeepsRoot(p, r, x, y);
    }
    assert Root(p, r, p[p[x]]) == Root(p, r, p[x]) == Root(p, r, x);
  }

  lemma LinkMergesPartition(p: seq<int>, r: seq<int>, a: int, b: int, s: seq<int>, q: seq<int>)
    requires Forest(p, r) && 0 <= a < |p| && 0 <= b < |p|
    requires a != b && p[a] == a && p[b] == b && r[b] <= r[a]
    requires q == p[b := a] && s == if r[a] == r[b] then r[a := r[a] + 1] else r
    ensures Forest(q, s) && Roots(q, s) == Merged(Roots(p, r), a, b)
  {
    forall y | 0 <= y < |p| ensures Root(q, s, y) == Merged(Roots(p, r), a, b)[y] {
      LinkMovesRoot(p, r, a, b, s, y);
    }
  }

  /** Hanging root b under root a moves exactly b's tree. */
  lemma {:induction false} LinkMovesRoot(p: seq<int>, r: seq<int>, a: int, b: int, s: seq<int>, y: int)
    requires Forest(p, r) && 0 <= a < |p| && 0 <= b < |p| && 0 <= y < |p|
    requires a != b && p[a] == a && p[b] == b
    requires Forest(p[b := a], s)
    ensures Root(p[b := a], s, y) == if Root(p, r, y) == b then a else Root(p, r, y)
    decreases MaxOf(r) - r[y]
  {
    if p[y] != y { LinkMovesRoot(p, r, a, b, s, p[y]); }
  }

  // ----- rank and size -----

  ghost function Members(roots: seq<int>, root: int): set<int> {
    set y | 0 <= y < |roots| && roots[y] == root
  }

  /** A root of rank k heads at least 2^k elements. */
  ghost predicate RankPaid(r: seq<int>, roots: seq<int>) {
    |r| == |roots| && forall x :: 0 <= x < |r| && roots[x] == x ==> r[x] >= 0 && Pow2(r[x]) <= |Members(roots, x)|
  }

  /** The partition after joining the classes of roots a and b under `a`. */
  ghost function Merged(roots: seq<int>, a: int, b: int): seq<int> {
    seq(|roots|, y requires 0 <= y < |roots| => if roots[y] == b then a else roots[y])
  }

  lemma MembersMerge(roots: seq<int>, a: int, b: int)
    requires a != b
    ensures Members(Merged(roots, a, b), a) == Members(roots, a) + Members(roots, b)
    ensures |Members(Merged(roots, a, b), a)| == |Members(roots, a)| + |Members(roots, b)|
    ensures forall x :: x != a && x != b ==> Members(Merged(roots, a, b), x) == Members(roots, x)
  {
    assert Members(Merged(roots, a, b), a) == Members(roots, a) + Members(roots, b);
    assert Members(roots, a) !! Members(roots, b);
    forall x | x != a && x != b ensures Members(Merged(roots, a, b), x) == Members(roots, x) {
      assert forall y :: y in Members(Merged(roots, a, b), x) <==> y in Members(roots, x);
    }
  }

  /** Union by rank keeps every root's rank paid for. */
  lemma LinkKeepsRankPaid(r: seq<int>, roots: seq<int>, a: int, b: int, s: seq<int>)
    requires RankPaid(r, roots)
    requires 0 <= a < |r| && 0 <= b < |r| && a != b && roots[a] == a && roots[b] == b
    requires r[b] <= r[a]
    requires s == if r[a] == r[b] then r[a := r[a] + 1] else r
    ensures RankPaid(s, Merged(roots, a, b))
  {
    var merged := Merged(roots, a, b);
    MembersMerge(roots, a, b);
    forall x | 0 <= x < |s| && merged[x] == x
      ensures s[x] >= 0 && Pow2(s[x]) <= |Members(merged, x)|
    {
      if x != a { assert roots[x] == x && x != b; }
    }
  }

  /** So a rank never exceeds the logarithm of the number of elements. */
  lemma RankIsLogarithmic(r: seq<int>, roots: seq<int>, x: int)
    requires RankPaid(r, roots) && 0 <= x < |r| && roots[x] == x
    ensures Pow2(r[x]) <= |r|
  {
    SubsetSize(Members(roots, x), Range(|r|));
  }

  /** 0, ..., n - 1. */
  ghost function Range(n: nat): (all: set<int>)
    ensures |all| == n && forall y :: y in all <==> 0 <= y < n
  {
    if n == 0 then {} else Range(n - 1) + {n - 1}
  }

  lemma SubsetSize<T>(a: set<T>, b: set<T>)
    requires a <= b
    ensures |a| <= |b|
  {
    assert b == a + (b - a);
  }

  // ----- the mutable structure -----

  class DisjointSets {
    const parent: array<int>
    const rank: array<int>

    ghost predicate Valid()
      reads this, parent, rank
    {
      && parent != rank
      && Forest(parent[..], rank[..])
      && RankPaid(rank[..], Roots(parent[..], rank[..]))
    }

    ghost function Partition(): (roots: seq<int>)
      reads this, parent, rank
      requires Valid()
      ensures |roots| == parent.Length
    {
      Roots(parent[..], rank[..])
    }

    constructor (n: nat)
      ensures Valid() && fresh(parent) && fresh(rank) && parent.Length == n
      ensures forall x :: 0 <= x < n ==> Partition()[x] == x
    {
      parent := new int[n](i => i);
      rank := new int[n](_ => 0);
      new;
      forall x | 0 <= x < n ensures Pow2(rank[x]) <= |Members(Roots(parent[..], rank[..]), x)| {
        assert x in Members(Roots(parent[..], rank[..]), x);
        SubsetSize({x}, Members(Roots(parent[..], rank[..]), x));
      }
    }

    /** The representative of x's set. Halves the path on the way, which changes no representative. */
    method Find(x: int) returns (root: int)
      requires Valid() && 0 <= x < parent.Length
      modifies parent
      ensures Valid() && rank[..] == old(rank[..])
      ensures Partition() == old(Partition()) && root == Partition()[x] && Partition()[root] == root
    {
      hide Root, RankPaid;
      root := x;
      while parent[root] != root
        invariant 0 <= root < parent.Length
        invariant Valid() && rank[..] == old(rank[..])
        invariant Partition() == old(Partition())
        invariant Partition()[root] == Partition()[x]
        decreases MaxOf(rank[..]) - rank[root]
      {
        ghost var p, r := parent[..], rank[..];
        HalvingKeepsPartition(p, r, root, p[root := p[p[root]]]);
        parent[root] := parent[parent[root]];
        assert parent[..] == p[root := p[p[root]]];
        root := parent[root];
      }
    }

    /** Joins the sets of a and b: the shallower tree goes under the deeper one. */
    method Union(a: int, b: int)
      requires Valid() && 0 <= a < parent.Length && 0 <= b < parent.Length
      modifies parent, rank
      ensures Valid()
      ensures var roots := old(Partition());
        if roots[a] == roots[b] then Partition() == roots
        else Partition() == Merged(roots, roots[a], roots[b]) || Partition() == Merged(roots, roots[b], roots[a])
    {
      hide Root, RankPaid, Merged;
      var ra := Find(a);
      var rb := Find(b);
      if ra == rb {
        return;
      }
      if rank[ra] < rank[rb] {
        ra, rb := rb, ra;
      }
      ghost var p, r, roots := parent[..], rank[..], Partition();
      parent[rb] := ra;
      if rank[ra] == rank[rb] {
        rank[ra] := rank[ra] + 1;
      }
      assert parent[..] == p[rb := ra];
      assert rank[..] == if r[ra] == r[rb] then r[ra := r[ra] + 1] else r;
      LinkMergesPartition(p, r, ra, rb, rank[..], parent[..]);
      LinkKeepsRankPaid(r, roots, ra, rb, rank[..]);
    }
  }
}
