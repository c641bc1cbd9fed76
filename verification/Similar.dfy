/** Near-duplicate grouping (internal/duplicates/similar.go): all pairs within the threshold are joined
    in a disjoint-set forest, and every component of two or more photos is ranked and measured. */
module Similar {
  import opened Options
  import opened Chains
  import opened Hamming
  import opened Ranking
  import opened Sorting
  import opened UnionFind

  datatype Group = Group(
    photoIds: seq<string>, suggestedKeepId: string, maxDistance: nat, distances: map<string, nat>)

  /** A group together with the candidate positions it ranks, best first. */
  datatype Ranked = Ranked(order: seq<int>, group: Group)

  function Clamp(threshold: int): nat {
    if threshold < 0 then 0 else if threshold > MAX_SIMILARITY_THRESHOLD then MAX_SIMILARITY_THRESHOLD else threshold
  }

  function Distance(cs: seq<Candidate>, i: int, j: int): nat
    requires 0 <= i < |cs| && 0 <= j < |cs|
  {
    HammingDistance(cs[i].hash, cs[j].hash)
  }

  /** All pairs of candidates within the (clamped) threshold. */
  ghost function Near(cs: seq<Candidate>, t: nat): set<(int, int)> {
    set i, j | 0 <= i < |cs| && 0 <= j < |cs| && i < j && Distance(cs, i, j) <= t :: (i, j)
  }

  // ----- joining -----

  /** The forest's classes are the components of `pairs`. */
  ghost predicate Represents(roots: seq<int>, pairs: set<(int, int)>) {
    forall x, y :: 0 <= x < |roots| && 0 <= y < |roots| ==> (roots[x] == roots[y] <==> Chain(pairs, x, y))
  }

  lemma MergeRepresents(roots: seq<int>, pairs: set<(int, int)>, i: int, j: int, after: seq<int>)
    requires 0 <= i < |roots| && 0 <= j < |roots| && Represents(roots, pairs)
    requires if roots[i] == roots[j] then after == roots
      else after == Merged(roots, roots[i], roots[j]) || after == Merged(roots, roots[j], roots[i])
    ensures Represents(after, pairs + {(i, j)})
  {
    forall x, y | 0 <= x < |after| && 0 <= y < |after|
      ensures after[x] == after[y] <==> Chain(pairs + {(i, j)}, x, y)
    {
      AddPair(pairs, i, j, x, y);
    }
  }

  lemma NoPairsNoChains(pairs: set<(int, int)>, x: int, y: int)
    requires pairs == {}
    ensures Chain(pairs, x, y) <==> x == y
  {
    if Chain(pairs, x, y) {
      var p :| PathFrom(pairs, p, x, y);
      ConstantPath(p);
    }
    Reflexive(pairs, x);
  }

  lemma {:induction false} ConstantPath(p: seq<int>)
    requires Path({}, p)
    ensures p[0] == p[|p| - 1]
  {
    if |p| > 1 { ConstantPath(p[1..]); }
  }

  /** The pairs joined once the loops have reached (i, j). */
  ghost predicate JoinedSoFar(pairs: set<(int, int)>, cs: seq<Candidate>, t: nat, i: int, j: int) {
    forall x, y :: (x, y) in pairs <==> (x, y) in Near(cs, t) && (x < i || (x == i && y < j))
  }

  /** The O(n^2) pass. */
  method JoinNear(cs: seq<Candidate>, t: nat) returns (sets: DisjointSets)
    ensures sets.Valid() && fresh(sets) && fresh(sets.parent) && fresh(sets.rank)
    ensures sets.parent.Length == |cs| && Represents(sets.Partition(), Near(cs, t))
  {
    hide Chain, Near, DisjointSets.Valid, DisjointSets.Partition;
    sets := new DisjointSets(|cs|);
    ghost var pairs: set<(int, int)> := {};
    FreshRepresents(sets.Partition());
    JoinedNone(cs, t);
    for i := 0 to |cs|
      invariant sets.Valid() && sets.parent.Length == |cs|
      invariant fresh(sets.parent) && fresh(sets.rank)
      invariant JoinedSoFar(pairs, cs, t, i, 0) && Represents(sets.Partition(), pairs)
    {
      JoinedRowStart(pairs, cs, t, i);
      for j := i + 1 to |cs|
        invariant sets.Valid() && sets.parent.Length == |cs|
        invariant fresh(sets.parent) && fresh(sets.rank)
        invariant JoinedSoFar(pairs, cs, t, i, j) && Represents(sets.Partition(), pairs)
      {
        JoinedStep(pairs, cs, t, i, j);
        if Distance(cs, i, j) <= t {
          ghost var before := sets.Partition();
          sets.Union(i, j);
          MergeRepresents(before, pairs, i, j, sets.Partition());
          pairs := pairs + {(i, j)};
        }
      }
      JoinedRowEnd(pairs, cs, t, i);
    }
    JoinedAll(pairs, cs, t);
  }

  lemma FreshRepresents(roots: seq<int>)
    requires forall x :: 0 <= x < |roots| ==> roots[x] == x
    ensures Represents(roots, {})
  {
    forall x, y | 0 <= x < |roots| && 0 <= y < |roots| ensures roots[x] == roots[y] <==> Chain({}, x, y) {
      NoPairsNoChains({}, x, y);
    }
  }

  lemma JoinedNone(cs: seq<Candidate>, t: nat)
    ensures JoinedSoFar({}, cs, t, 0, 0)
  {}

  lemma JoinedRowStart(pairs: set<(int, int)>, cs: seq<Candidate>, t: nat, i: int)
    requires 0 <= i < |cs| && JoinedSoFar(pairs, cs, t, i, 0)
    ensures JoinedSoFar(pairs, cs, t, i, i + 1)
  {}

  lemma JoinedStep(pairs: set<(int, int)>, cs: seq<Candidate>, t: nat, i: int, j: int)
    requires 0 <= i < j < |cs| && JoinedSoFar(pairs, cs, t, i, j)
    ensures JoinedSoFar(if Distance(cs, i, j) <= t then pairs + {(i, j)} else pairs, cs, t, i, j + 1)
  {}

  lemma JoinedRowEnd(pairs: set<(int, int)>, cs: seq<Candidate>, t: nat, i: int)
    requires 0 <= i < |cs| && JoinedSoFar(pairs, cs, t, i, |cs|)
    ensures JoinedSoFar(pairs, cs, t, i + 1, 0)
  {}

  lemma JoinedAll(pairs: set<(int, int)>, cs: seq<Candidate>, t: nat)
    requires JoinedSoFar(pairs, cs, t, |cs|, 0)
    ensures pairs == Near(cs, t)
  {
    var near := Near(cs, t);
    forall p: (int, int) ensures p in pairs <==> p in near {
      var (x, y) := p;
      assert (x, y) in near ==> x < |cs|;
      assert (x, y) in pairs <==> (x, y) in near;
    }
  }

  // ----- collecting -----

  /** `idxs` lists, in order and once each, the positions below n whose root is `root`. */
  ghost predicate Lists(idxs: seq<int>, roots: seq<int>, root: int, n: int) {
    (forall a, b :: 0 <= a < b < |idxs| ==> idxs[a] < idxs[b])
    && (forall x :: x in idxs <==> 0 <= x < n && x < |roots| && roots[x] == root)
  }

  ghost predicate Collected(members: map<int, seq<int>>, roots: seq<int>, n: int) {
    (forall root :: root in members ==> members[root] != [] && Lists(members[root], roots, root, n))
    && forall x :: 0 <= x < n && x < |roots| ==> roots[x] in members
  }

  method CollectMembers(sets: DisjointSets) returns (members: map<int, seq<int>>)
    requires sets.Valid()
    modifies sets.parent
    ensures sets.Valid() && sets.Partition() == old(sets.Partition())
    ensures Collected(members, sets.Partition(), sets.parent.Length)
  {
    hide DisjointSets.Valid, DisjointSets.Partition;
    members := map[];
    ghost var roots := sets.Partition();
    for i := 0 to sets.parent.Length
      invariant sets.Valid() && sets.Partition() == roots
      invariant Collected(members, roots, i)
    {
      var root := sets.Find(i);
      var sofar := if root in members then members[root] else [];
      CollectOne(members, roots, i);
      members := members[root := sofar + [i]];
    }
  }

  lemma ListsGrows(idxs: seq<int>, roots: seq<int>, root: int, i: int)
    requires 0 <= i < |roots| && Lists(idxs, roots, root, i)
    ensures Lists(if roots[i] == root then idxs + [i] else idxs, roots, root, i + 1)
  {
    assert forall a :: 0 <= a < |idxs| ==> idxs[a] in idxs;
  }

  lemma CollectOne(members: map<int, seq<int>>, roots: seq<int>, i: int)
    requires 0 <= i < |roots| && Collected(members, roots, i)
    ensures Collected(
      members[roots[i] := (if roots[i] in members then members[roots[i]] else []) + [i]], roots, i + 1)
  {
    hide Lists;
    var listed := if roots[i] in members then members[roots[i]] else [];
    if roots[i] !in members { NoneListed(roots, roots[i], i); }
    ListsGrows(listed, roots, roots[i], i);
    forall root | root in members && root != roots[i] ensures Lists(members[root], roots, root, i + 1) {
      ListsGrows(members[root], roots, root, i);
    }
  }

  lemma NoneListed(roots: seq<int>, root: int, i: int)
    requires forall x :: 0 <= x < i && x < |roots| ==> roots[x] != root
    ensures Lists([], roots, root, i)
  {}

  // ----- one group -----

  function Pick(cs: seq<Candidate>, order: seq<int>): seq<Candidate>
    requires forall k :: 0 <= k < |order| ==> 0 <= order[k] < |cs|
  {
    seq(|order|, k requires 0 <= k < |order| => cs[order[k]])
  }

  ghost predicate InRange(order: seq<int>, cs: seq<Candidate>) {
    forall k :: 0 <= k < |order| ==> 0 <= order[k] < |cs|
  }

  /** The widest distance between two members. */
  ghost predicate IsWidest(cs: seq<Candidate>, order: seq<int>, d: nat)
    requires InRange(order, cs)
  {
    (forall a, b :: 0 <= a < |order| && 0 <= b < |order| && a < b ==> Distance(cs, order[a], order[b]) <= d)
    && (d == 0 || exists a, b :: 0 <= a < |order| && 0 <= b < |order| && a < b && Distance(cs, order[a], order[b]) == d)
  }

  predicate At(distances: map<string, nat>, id: string, d: nat) {
    id in distances && distances[id] == d
  }

  /** `g` describes the members `order` lists, ranked. */
  ghost predicate Describes(g: Group, cs: seq<Candidate>, order: seq<int>) {
    && |order| > 0 && InRange(order, cs)
    && |g.photoIds| == |order|
    && (forall k :: 0 <= k < |order| ==> g.photoIds[k] == cs[order[k]].photoId)
    && g.suggestedKeepId == cs[order[0]].photoId
    && IsWidest(cs, order, g.maxDistance)
    && (forall id :: id in g.distances <==> id in g.photoIds)
    && (DistinctIds(Pick(cs, order)) ==>
      forall k :: 0 <= k < |order| ==> At(g.distances, cs[order[k]].photoId, Distance(cs, order[0], order[k])))
  }

  method WidestPair(cs: seq<Candidate>, order: seq<int>) returns (widest: nat)
    requires InRange(order, cs)
    ensures IsWidest(cs, order, widest)
  {
    hide Distance;
    widest := 0;
    ghost var p, q := 0, 0;
    for a := 0 to |order|
      invariant forall x, y :: 0 <= x < a && 0 <= y < |order| && x < y ==> Distance(cs, order[x], order[y]) <= widest
      invariant widest == 0 || (0 <= p < q < |order| && Distance(cs, order[p], order[q]) == widest)
    {
      for b := a + 1 to |order|
        invariant forall x, y :: 0 <= x < a && 0 <= y < |order| && x < y ==> Distance(cs, order[x], order[y]) <= widest
        invariant forall y :: a < y < b ==> Distance(cs, order[a], order[y]) <= widest
        invariant widest == 0 || (0 <= p < q < |order| && Distance(cs, order[p], order[q]) == widest)
      {
        var d := Distance(cs, order[a], order[b]);
        if d > widest {
          widest := d;
          p, q := a, b;
        }
      }
    }
  }

  /** The members' ids in order, and their distances from the first. */
  method MeasureMembers(cs: seq<Candidate>, order: seq<int>) returns (ids: seq<string>, distances: map<string, nat>)
    requires |order| > 0 && InRange(order, cs)
    ensures |ids| == |order| && forall k :: 0 <= k < |order| ==> ids[k] == cs[order[k]].photoId
    ensures forall id :: id in distances <==> id in ids
    ensures DistinctIds(Pick(cs, order)) ==>
      forall k :: 0 <= k < |order| ==> At(distances, cs[order[k]].photoId, Distance(cs, order[0], order[k]))
  {
    hide Distance;
    ids, distances := [], map[];
    for k := 0 to |order|
      invariant |ids| == k && forall x :: 0 <= x < k ==> ids[x] == cs[order[x]].photoId
      invariant forall id :: id in distances <==> id in ids
      invariant DistinctIds(Pick(cs, order)) ==>
        forall x :: 0 <= x < k ==> At(distances, cs[order[x]].photoId, Distance(cs, order[0], order[x]))
    {
      ghost var picked := Pick(cs, order);
      assert forall x :: 0 <= x < k ==> picked[x] == cs[order[x]] && picked[k] == cs[order[k]];
      ids := ids + [cs[order[k]].photoId];
      distances := distances[cs[order[k]].photoId := Distance(cs, order[0], order[k])];
    }
  }

  /** Ranks a component and measures its spread. */
  method BuildGroup(cs: seq<Candidate>, idxs: seq<int>) returns (r: Ranked)
    requires |idxs| > 0 && InRange(idxs, cs)
    ensures multiset(r.order) == multiset(idxs) && Describes(r.group, cs, r.order)
    ensures DistinctIds(Pick(cs, idxs)) && TiesCarryOver(Scores(Pick(cs, idxs))) ==>
      Ordered(Pick(cs, r.order), Prefers) && BestFirst(cs, r)
  {
    hide Prefers, TiesCarryOver, WeakOrder, Ordered, Distance, IsWidest, DistinctIds, Pick;
    var better := (i: int, j: int) => 0 <= i < |cs| && 0 <= j < |cs| && Prefers(cs[i], cs[j]);
    var order := SortSlice(idxs, better);
    SameElements(order, idxs);
    if DistinctIds(Pick(cs, idxs)) && TiesCarryOver(Scores(Pick(cs, idxs))) {
      PickOrders(cs, idxs, order, better);
    }
    var ids, distances := MeasureMembers(cs, order);
    var widest := WidestPair(cs, order);
    r := Ranked(order, Group(ids, cs[order[0]].photoId, widest, distances));
    if Ordered(Pick(cs, order), Prefers) { OrderedIsBestFirst(cs, r); }
  }

  /** The suggested keeper is the best of the members, the next photo the best of the others, and so on. */
  ghost predicate BestFirst(cs: seq<Candidate>, r: Ranked) {
    && InRange(r.order, cs) && r.order != [] && r.group.suggestedKeepId == cs[r.order[0]].photoId
    && BestOf(Pick(cs, r.order), cs[r.order[0]])
    && forall k :: 0 <= k < |r.order| ==> BestOf(Pick(cs, r.order[k..]), cs[r.order[k]])
  }

  lemma OrderedIsBestFirst(cs: seq<Candidate>, r: Ranked)
    requires Describes(r.group, cs, r.order) && Ordered(Pick(cs, r.order), Prefers)
    ensures BestFirst(cs, r)
  {
    hide BestOf, Prefers, Ordered, IsWidest, DistinctIds;
    var ranked := Pick(cs, r.order);
    RankedBestFirst(ranked);
    assert r.order[0..] == r.order && ranked[0..] == ranked;
    forall k | 0 <= k < |r.order| ensures BestOf(Pick(cs, r.order[k..]), cs[r.order[k]]) {
      assert Pick(cs, r.order[k..]) == ranked[k..];
    }
  }

  lemma SameElements(a: seq<int>, b: seq<int>)
    requires multiset(a) == multiset(b)
    ensures |a| == |b| && forall x :: x in a <==> x in b
    ensures forall k :: 0 <= k < |a| ==> a[k] in b
  {
    assert |multiset(a)| == |a| && |multiset(b)| == |b|;
    forall x ensures x in a <==> x in b {
      assert x in a <==> x in multiset(a);
      assert x in b <==> x in multiset(b);
    }
  }

  /** The comparator on positions is a weak order when the ranking is one on the photos. */
  lemma PickOrders(cs: seq<Candidate>, idxs: seq<int>, order: seq<int>, better: (int, int) -> bool)
    requires InRange(idxs, cs) && InRange(order, cs) && multiset(order) == multiset(idxs)
    requires forall i, j :: better(i, j) <==> 0 <= i < |cs| && 0 <= j < |cs| && Prefers(cs[i], cs[j])
    requires DistinctIds(Pick(cs, idxs)) && TiesCarryOver(Scores(Pick(cs, idxs)))
    requires WeakOrder(idxs, better) ==> Ordered(order, better)
    ensures Ordered(Pick(cs, order), Prefers)
  {
    hide Prefers, TiesCarryOver;
    var group := Pick(cs, idxs);
    TiesGiveOrder(group);
    RankingSorts(group);
    assert WeakOrder(idxs, better) by {
      forall i | i in idxs ensures 0 <= i < |cs| && cs[i] in group {
        var k :| 0 <= k < |idxs| && idxs[k] == i;
        assert group[k] == cs[i];
      }
    }
    forall i, j | 0 <= i < j < |order| ensures !Prefers(Pick(cs, order)[j], Pick(cs, order)[i]) {
      assert !better(order[j], order[i]);
    }
  }

  // ----- all groups -----

  /** Two positions are joined by near pairs. */
  ghost predicate Joined(cs: seq<Candidate>, t: nat, i: int, j: int) {
    0 <= i < |cs| && 0 <= j < |cs| && Chain(Near(cs, t), i, j)
  }

  /** The group's members are one whole component. */
  ghost predicate IsComponent(cs: seq<Candidate>, t: nat, order: seq<int>) {
    InRange(order, cs)
    && (forall a, b :: 0 <= a < b < |order| ==> order[a] != order[b])
    && forall i, j :: i in order ==> (j in order <==> Joined(cs, t, i, j))
  }

  predicate LargerFirst(a: Ranked, b: Ranked) {
    if |a.group.photoIds| != |b.group.photoIds| then |a.group.photoIds| > |b.group.photoIds|
    else StrLess(a.group.suggestedKeepId, b.group.suggestedKeepId)
  }

  ghost predicate GoodGroup(cs: seq<Candidate>, t: nat, r: Ranked) {
    && |r.order| >= 2 && IsComponent(cs, t, r.order) && Describes(r.group, cs, r.order)
    && (DistinctIds(cs) && TiesCarryOver(Scores(Pick(cs, r.order))) ==> Ordered(Pick(cs, r.order), Prefers))
  }

  /** Group k was built from the class of root froms[k]. */
  ghost predicate BuiltFrom(out: seq<Ranked>, froms: seq<int>, members: map<int, seq<int>>, todo: set<int>) {
    && |froms| == |out|
    && (forall k :: 0 <= k < |out| ==> froms[k] in members && froms[k] !in todo && |members[froms[k]]| >= 2
                                        && multiset(out[k].order) == multiset(members[froms[k]]))
    && (forall k, l :: 0 <= k < l < |out| ==> froms[k] != froms[l])
    && (forall root :: root in members && root !in todo && |members[root]| >= 2 ==> root in froms)
  }

  ghost predicate Exhaustive(cs: seq<Candidate>, t: nat, out: seq<Ranked>) {
    forall i, j :: i != j && Joined(cs, t, i, j) ==> exists g :: 0 <= g < |out| && i in out[g].order
  }

  ghost predicate Disjoint(out: seq<Ranked>) {
    forall g, h, i :: 0 <= g < h < |out| ==> !(i in out[g].order && i in out[h].order)
  }

  /** The next key of a map iteration: any of those left. */
  method AnyOf<T>(s: set<T>) returns (x: T)
    requires s != {}
    ensures x in s
  {
    x :| x in s;
  }

  /** Go ranges over the map in no particular order; the final sort makes up for it. */
  method BuildAll(cs: seq<Candidate>, t: nat, ghost roots: seq<int>, members: map<int, seq<int>>) returns (out: seq<Ranked>)
    requires |roots| == |cs| && Represents(roots, Near(cs, t)) && Collected(members, roots, |cs|)
    ensures forall g :: 0 <= g < |out| ==> GoodGroup(cs, t, out[g])
    ensures Exhaustive(cs, t, out) && Disjoint(out)
    ensures Ordered(out, LargerFirst)
  {
    hide Near, Chain, Represents, Collected, GoodGroup, Ordered, LargerFirst, TiesCarryOver, DistinctIds;
    var groups: seq<Ranked> := [];
    ghost var froms: seq<int> := [];
    var todo := members.Keys;
    while todo != {}
      invariant todo <= members.Keys
      invariant BuiltFrom(groups, froms, members, todo)
      invariant forall g :: 0 <= g < |groups| ==> GoodGroup(cs, t, groups[g])
      decreases |todo|
    {
      var root := AnyOf(todo);
      todo := todo - {root};
      if |members[root]| >= 2 {
        ClassInRange(cs, roots, members, root);
        var r := BuildGroup(cs, members[root]);
        ClassIsGood(cs, t, roots, members, root, r);
        groups, froms := groups + [r], froms + [root];
      }
    }
    AllBuilt(cs, t, roots, members, groups, froms);
    out := SortSlice(groups, LargerFirst);
    LargerFirstIsWeakOrder(groups);
    SortedStillGood(cs, t, groups, out);
  }

  lemma ClassInRange(cs: seq<Candidate>, roots: seq<int>, members: map<int, seq<int>>, root: int)
    requires |roots| == |cs| && Collected(members, roots, |cs|) && root in members
    ensures members[root] != [] && InRange(members[root], cs)
  {
    assert Lists(members[root], roots, root, |cs|);
    assert forall k :: 0 <= k < |members[root]| ==> members[root][k] in members[root];
  }

  /** A list without repetitions stays one under permutation. */
  lemma DistinctPermuted(a: seq<int>, b: seq<int>)
    requires multiset(a) == multiset(b)
    requires forall x, y :: 0 <= x < y < |b| ==> b[x] != b[y]
    ensures forall x, y :: 0 <= x < y < |a| ==> a[x] != a[y]
  {
    forall x, y | 0 <= x < y < |a| ensures a[x] != a[y] {
      if a[x] == a[y] {
        CountTwice(a, x, y);
        CountOnce(b, a[x]);
        assert false;
      }
    }
  }

  lemma CountTwice<T>(a: seq<T>, x: int, y: int)
    requires 0 <= x < y < |a| && a[x] == a[y]
    ensures multiset(a)[a[x]] >= 2
  {
    assert a == a[..y] + [a[y]] + a[y + 1..];
    assert a[..y][x] in multiset(a[..y]);
  }

  lemma {:induction false} CountOnce<T>(b: seq<T>, v: T)
    requires forall x, y :: 0 <= x < y < |b| ==> b[x] != b[y]
    ensures multiset(b)[v] <= 1
  {
    if b != [] {
      var init := b[..|b| - 1];
      assert b == init + [b[|b| - 1]];
      CountOnce(init, v);
      if v == b[|b| - 1] { assert v !in init; }
    }
  }

  lemma ClassIsGood(cs: seq<Candidate>, t: nat, roots: seq<int>, members: map<int, seq<int>>, root: int, r: Ranked)
    requires |roots| == |cs| && Represents(roots, Near(cs, t)) && Collected(members, roots, |cs|)
    requires root in members && |members[root]| >= 2 && InRange(members[root], cs)
    requires multiset(r.order) == multiset(members[root]) && Describes(r.group, cs, r.order)
    requires DistinctIds(Pick(cs, members[root])) && TiesCarryOver(Scores(Pick(cs, members[root]))) ==>
      Ordered(Pick(cs, r.order), Prefers)
    ensures GoodGroup(cs, t, r)
  {
    hide Near, Chain, Describes, Ordered, Prefers, Tied;
    var idxs := members[root];
    assert Lists(idxs, roots, root, |cs|);
    SameElements(r.order, idxs);
    DistinctPermuted(r.order, idxs);
    forall i, j | i in r.order ensures j in r.order <==> Joined(cs, t, i, j) {}
    if DistinctIds(cs) && TiesCarryOver(Scores(Pick(cs, r.order))) {
      PickedIdsDistinct(cs, idxs);
      TiesPermute(cs, r.order, idxs);
    }
  }

  lemma PickedIdsDistinct(cs: seq<Candidate>, idxs: seq<int>)
    requires DistinctIds(cs) && InRange(idxs, cs)
    requires forall a, b :: 0 <= a < b < |idxs| ==> idxs[a] < idxs[b]
    ensures DistinctIds(Pick(cs, idxs))
  {}

  lemma TiesPermute(cs: seq<Candidate>, a: seq<int>, b: seq<int>)
    requires InRange(a, cs) && InRange(b, cs)
    requires forall k :: 0 <= k < |b| ==> b[k] in a
    requires TiesCarryOver(Scores(Pick(cs, a)))
    ensures TiesCarryOver(Scores(Pick(cs, b)))
  {
    hide Tied;
    var p, q := Scores(Pick(cs, a)), Scores(Pick(cs, b));
    forall k | 0 <= k < |q| ensures exists m :: 0 <= m < |p| && p[m] == q[k] {
      var m :| 0 <= m < |a| && a[m] == b[k];
      assert p[m] == q[k];
    }
    forall i, j, k | 0 <= i < |q| && 0 <= j < |q| && 0 <= k < |q| && Tied(q[i], q[j]) && Tied(q[j], q[k])
      ensures Tied(q[i], q[k])
    {
      var l :| 0 <= l < |p| && p[l] == q[i];
      var m :| 0 <= m < |p| && p[m] == q[j];
      var n :| 0 <= n < |p| && p[n] == q[k];
      assert Tied(p[l], p[m]) && Tied(p[m], p[n]);
    }
  }

  lemma AllBuilt(cs: seq<Candidate>, t: nat, roots: seq<int>, members: map<int, seq<int>>, groups: seq<Ranked>, froms: seq<int>)
    requires |roots| == |cs| && Represents(roots, Near(cs, t)) && Collected(members, roots, |cs|)
    requires BuiltFrom(groups, froms, members, {})
    ensures Exhaustive(cs, t, groups) && Disjoint(groups)
  {
    hide Near, Chain;
    forall i, j | i != j && Joined(cs, t, i, j) ensures exists g :: 0 <= g < |groups| && i in groups[g].order {
      var root := roots[i];
      assert roots[j] == root && Lists(members[root], roots, root, |cs|);
      TwoMembers(members[root], i, j);
      var g :| 0 <= g < |froms| && froms[g] == root;
      SameElements(groups[g].order, members[root]);
    }
    forall g, h, i | 0 <= g < h < |groups| ensures !(i in groups[g].order && i in groups[h].order) {
      SameElements(groups[g].order, members[froms[g]]);
      SameElements(groups[h].order, members[froms[h]]);
      assert Lists(members[froms[g]], roots, froms[g], |cs|) && Lists(members[froms[h]], roots, froms[h], |cs|);
    }
  }

  lemma TwoMembers(idxs: seq<int>, i: int, j: int)
    requires i in idxs && j in idxs && i != j
    ensures |idxs| >= 2
  {}

  lemma LargerFirstIsWeakOrder(groups: seq<Ranked>)
    ensures WeakOrder(groups, LargerFirst)
  {
    forall a, b | a in groups && b in groups && LargerFirst(a, b) ensures !LargerFirst(b, a) {
      StrTrichotomy(a.group.suggestedKeepId, b.group.suggestedKeepId);
    }
    forall a, b, c | a in groups && b in groups && c in groups && !LargerFirst(a, b) && !LargerFirst(b, c)
      ensures !LargerFirst(a, c)
    {
      if |a.group.photoIds| == |b.group.photoIds| == |c.group.photoIds| {
        NotStrLessTransitive(a.group.suggestedKeepId, b.group.suggestedKeepId, c.group.suggestedKeepId);
      }
    }
  }

  lemma SortedStillGood(cs: seq<Candidate>, t: nat, groups: seq<Ranked>, out: seq<Ranked>)
    requires multiset(out) == multiset(groups)
    requires forall g :: 0 <= g < |groups| ==> GoodGroup(cs, t, groups[g])
    requires Exhaustive(cs, t, groups) && Disjoint(groups)
    ensures forall g :: 0 <= g < |out| ==> GoodGroup(cs, t, out[g])
    ensures Exhaustive(cs, t, out) && Disjoint(out)
  {
    hide Joined, IsComponent, Describes, Ordered, TiesCarryOver, DistinctIds;
    forall r ensures r in out <==> r in groups {
      assert r in out <==> r in multiset(out);
      assert r in groups <==> r in multiset(groups);
    }
    forall g, h | 0 <= g < h < |groups| ensures groups[g] != groups[h] {
      var x := groups[g].order[0];
      assert !(x in groups[g].order && x in groups[h].order);
    }
    forall g, h, i | 0 <= g < h < |out| ensures !(i in out[g].order && i in out[h].order) {
      if out[g] == out[h] {
        CountTwice(out, g, h);
        CountOnce(groups, out[g]);
        assert false;
      }
      var k :| 0 <= k < |groups| && groups[k] == out[g];
      var l :| 0 <= l < |groups| && groups[l] == out[h];
    }
    forall g | 0 <= g < |out| ensures GoodGroup(cs, t, out[g]) {
      assert out[g] in groups;
    }
    forall i, j | i != j && Joined(cs, t, i, j) ensures exists g :: 0 <= g < |out| && i in out[g].order {
      var k :| 0 <= k < |groups| && i in groups[k].order;
      assert groups[k] in out;
    }
  }

  /** The groups are exactly the components of two or more photos, each once, each ranked and
      measured, largest first. */
  method GroupSimilar(cs: seq<Candidate>, threshold: int) returns (out: seq<Ranked>)
    ensures forall g :: 0 <= g < |out| ==> GoodGroup(cs, Clamp(threshold), out[g])
    ensures Exhaustive(cs, Clamp(threshold), out) && Disjoint(out)
    ensures Ordered(out, LargerFirst) && SizesFall(out)
    ensures DistinctIds(cs) ==>
      forall g :: 0 <= g < |out| && TiesIn(cs, out[g]) ==> BestFirst(cs, out[g])
  {
    hide GoodGroup, BestFirst, TiesIn, SizesFall, Represents, Near, Collected, Chain, DisjointSets.Valid, DisjointSets.Partition;
    var t := Clamp(threshold);
    if |cs| < 2 {
      LargestFirst([]);
      return [];
    }
    var sets := JoinNear(cs, t);
    var members := CollectMembers(sets);
    ghost var roots := sets.Partition();
    out := BuildAll(cs, t, roots, members);
    LargestFirst(out);
    if DistinctIds(cs) {
      forall g | 0 <= g < |out| && TiesIn(cs, out[g]) ensures BestFirst(cs, out[g]) { GoodIsBestFirst(cs, t, out[g]); }
    }
  }

  /** Ties carry over among the scores of the group. */
  ghost predicate TiesIn(cs: seq<Candidate>, r: Ranked) {
    InRange(r.order, cs) && TiesCarryOver(Scores(Pick(cs, r.order)))
  }

  lemma GoodIsBestFirst(cs: seq<Candidate>, t: nat, r: Ranked)
    requires GoodGroup(cs, t, r) && DistinctIds(cs) && TiesIn(cs, r)
    ensures BestFirst(cs, r)
  {
    hide BestFirst, IsComponent, Ordered, TiesCarryOver, DistinctIds, Prefers, IsWidest;
    OrderedIsBestFirst(cs, r);
  }

  /** Later groups are no larger, and of equal size ordered by keeper id. */
  ghost predicate SizesFall(out: seq<Ranked>) {
    forall g, h :: 0 <= g < h < |out| ==>
      && |out[g].group.photoIds| >= |out[h].group.photoIds|
      && (|out[g].group.photoIds| == |out[h].group.photoIds| ==>
            !StrLess(out[h].group.suggestedKeepId, out[g].group.suggestedKeepId))
  }

  lemma LargestFirst(out: seq<Ranked>)
    requires Ordered(out, LargerFirst)
    ensures SizesFall(out)
  {
    hide StrLess;
    forall g, h | 0 <= g < h < |out|
      ensures |out[g].group.photoIds| >= |out[h].group.photoIds|
      ensures |out[g].group.photoIds| == |out[h].group.photoIds| ==>
        !StrLess(out[h].group.suggestedKeepId, out[g].group.suggestedKeepId)
    {
      assert !LargerFirst(out[h], out[g]);
    }
  }
}
