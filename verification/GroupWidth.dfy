/** How far a near-duplicate group can drift (internal/duplicates/similar.go, MaxDistance): chaining is
    bounded by the number of hops, and visible exactly when some pair needs an intermediate. */
module GroupWidth {
  import opened Chains
  import opened Hamming
  import opened Ranking
  import opened Similar
  import opened UnionFind

  predicate Distinct(q: seq<int>) {
    forall i, j :: 0 <= i < j < |q| ==> q[i] != q[j]
  }

  /** Any path can be shortened to one that visits no position twice. */
  lemma {:induction false} SimplePath(pairs: set<(int, int)>, path: seq<int>) returns (q: seq<int>)
    requires Path(pairs, path)
    ensures PathFrom(pairs, q, path[0], path[|path| - 1]) && Distinct(q)
    ensures forall x :: x in q ==> x in path
  {
    if |path| == 1 {
      q := path;
    } else {
      var rest := SimplePath(pairs, path[1..]);
      forall x | x in rest ensures x in path { assert x in path[1..]; }
      if path[0] in rest {
        var i :| 0 <= i < |rest| && rest[i] == path[0];
        q := rest[i..];
      } else {
        q := [path[0]] + rest;
      }
    }
  }

  /** Near pairs never leave the range of positions. */
  lemma {:induction false} PathInRange(cs: seq<Candidate>, t: nat, path: seq<int>)
    requires Path(Near(cs, t), path) && 0 <= path[0] < |cs|
    ensures InRange(path, cs)
  {
    if |path| > 1 {
      PathInRange(cs, t, path[1..]);
      assert forall k :: 1 <= k < |path| ==> path[k] == path[1..][k - 1];
    }
  }

  lemma StepIsShort(cs: seq<Candidate>, t: nat, x: int, y: int)
    requires 0 <= x < |cs| && 0 <= y < |cs| && Step(Near(cs, t), x, y)
    ensures Distance(cs, x, y) <= t
  {
    hide HammingDistance;
    Metric(cs[x].hash, cs[y].hash, cs[y].hash);
  }

  /** Each hop covers at most the threshold. */
  lemma {:induction false} PathDistance(cs: seq<Candidate>, t: nat, path: seq<int>)
    requires Path(Near(cs, t), path) && InRange(path, cs)
    ensures Distance(cs, path[0], path[|path| - 1]) <= (|path| - 1) * t
  {
    hide HammingDistance, Near;
    var last := path[|path| - 1];
    if |path| == 1 {
      Metric(cs[last].hash, cs[last].hash, cs[last].hash);
    } else {
      assert InRange(path[1..], cs) by {
        assert forall k :: 0 <= k < |path[1..]| ==> path[1..][k] == path[k + 1];
      }
      PathDistance(cs, t, path[1..]);
      StepIsShort(cs, t, path[0], path[1]);
      Metric(cs[path[0]].hash, cs[path[1]].hash, cs[last].hash);
      assert (|path| - 1) * t == t + (|path| - 2) * t;
    }
  }

  lemma PathStaysInComponent(cs: seq<Candidate>, t: nat, order: seq<int>, path: seq<int>)
    requires IsComponent(cs, t, order) && Path(Near(cs, t), path) && path[0] in order && InRange(path, cs)
    ensures forall x :: x in path ==> x in order
  {
    hide Near;
    forall x | x in path ensures x in order {
      var k :| 0 <= k < |path| && path[k] == x;
      assert PathFrom(Near(cs, t), path[..k + 1], path[0], x);
      assert Joined(cs, t, path[0], x);
    }
  }

  /** A repetition-free list drawn from another is no longer than it. */
  lemma {:induction false} DistinctNoLonger(q: seq<int>, order: seq<int>)
    requires Distinct(q) && forall x :: x in q ==> x in order
    ensures |q| <= |order|
  {
    if q != [] {
      var x := q[0];
      assert x in q;
      var i :| 0 <= i < |order| && order[i] == x;
      var fewer := order[..i] + order[i + 1..];
      forall y | y in q[1..] ensures y in fewer {
        assert y in q && y != x;
        var k :| 0 <= k < |order| && order[k] == y;
        if k < i { assert fewer[k] == y; } else { assert fewer[k - 1] == y; }
      }
      DistinctNoLonger(q[1..], fewer);
    }
  }

  lemma MembersApart(cs: seq<Candidate>, t: nat, order: seq<int>, i: int, j: int)
    requires IsComponent(cs, t, order) && i in order && j in order
    ensures 0 <= i < |cs| && 0 <= j < |cs| && Distance(cs, i, j) <= (|order| - 1) * t
  {
    hide HammingDistance, Near;
    assert Joined(cs, t, i, j);
    var path :| PathFrom(Near(cs, t), path, i, j);
    var q := SimplePath(Near(cs, t), path);
    PathInRange(cs, t, q);
    PathDistance(cs, t, q);
    PathStaysInComponent(cs, t, order, q);
    DistinctNoLonger(q, order);
    Hops(|q| - 1, |order| - 1, t);
  }

  lemma Hops(a: nat, b: nat, t: nat)
    requires a <= b
    ensures a * t <= b * t
  {}

  /** A group of k photos is never wider than k - 1 thresholds, nor than the hash. */
  lemma WidthBound(cs: seq<Candidate>, t: nat, r: Ranked)
    requires GoodGroup(cs, t, r)
    ensures r.group.maxDistance <= (|r.order| - 1) * t
    ensures r.group.maxDistance <= 64
  {
    hide Near, IsComponent, IsWidest;
    WidestIsMeasured(cs, t, r.order, r.group.maxDistance);
  }

  lemma WidestIsMeasured(cs: seq<Candidate>, t: nat, order: seq<int>, d: nat)
    requires |order| >= 2 && IsComponent(cs, t, order) && InRange(order, cs) && IsWidest(cs, order, d)
    ensures d <= (|order| - 1) * t && d <= 64
  {
    hide HammingDistance, Near, IsComponent;
    if d == 0 {
      Hops(0, |order| - 1, t);
    } else {
      var a, b :| 0 <= a < |order| && 0 <= b < |order| && a < b && Distance(cs, order[a], order[b]) == d;
      MembersApart(cs, t, order, order[a], order[b]);
      assert HammingDistance(cs[order[a]].hash, cs[order[b]].hash) == d;
    }
  }

  /** Two members that are not near each other, though joined. */
  ghost predicate JoinedOnlyThrough(cs: seq<Candidate>, t: nat, order: seq<int>, i: int, j: int) {
    i in order && j in order && i < j && Joined(cs, t, i, j) && (i, j) !in Near(cs, t)
  }

  lemma FarPairIsThrough(cs: seq<Candidate>, t: nat, order: seq<int>, i: int, j: int)
    requires IsComponent(cs, t, order) && i in order && j in order && i != j
    requires 0 <= i < |cs| && 0 <= j < |cs| && Distance(cs, i, j) > t
    ensures JoinedOnlyThrough(cs, t, order, i, j) || JoinedOnlyThrough(cs, t, order, j, i)
  {
    hide HammingDistance, Chain;
    Metric(cs[i].hash, cs[j].hash, cs[j].hash);
    assert Joined(cs, t, i, j) && Joined(cs, t, j, i);
  }

  lemma ThroughPairIsFar(cs: seq<Candidate>, t: nat, order: seq<int>, i: int, j: int)
    requires InRange(order, cs) && JoinedOnlyThrough(cs, t, order, i, j)
    ensures exists a, b :: 0 <= a < |order| && 0 <= b < |order| && a < b && Distance(cs, order[a], order[b]) > t
  {
    hide HammingDistance, Chain;
    var a :| 0 <= a < |order| && order[a] == i;
    var b :| 0 <= b < |order| && order[b] == j;
    Metric(cs[i].hash, cs[j].hash, cs[j].hash);
    assert Distance(cs, order[a], order[b]) > t && Distance(cs, order[b], order[a]) > t;
  }

  /** MaxDistance exceeds the threshold - the group is reported as chained - exactly when two of its
      members are not near each other and so are joined only through intermediates. */
  lemma ChainedIff(cs: seq<Candidate>, t: nat, r: Ranked)
    requires GoodGroup(cs, t, r)
    ensures r.group.maxDistance > t <==> exists i, j :: JoinedOnlyThrough(cs, t, r.order, i, j)
  {
    hide Distance, Near, Chain, JoinedOnlyThrough;
    var d := r.group.maxDistance;
    if d > t {
      var a, b :| 0 <= a < |r.order| && 0 <= b < |r.order| && a < b && Distance(cs, r.order[a], r.order[b]) == d;
      FarPairIsThrough(cs, t, r.order, r.order[a], r.order[b]);
    }
    if i, j :| JoinedOnlyThrough(cs, t, r.order, i, j) {
      ThroughPairIsFar(cs, t, r.order, i, j);
    }
  }
}
