/** Segment (internal/clustering/clustering.go:196-238): the sorted pass, and what its clusters mean for
    a whole library. */
module Segmentation {
  import opened Options
  import opened Chains
  import opened Ranking
  import opened Sorting
  import opened Clustering

  /** Capture order, ties broken by photo id. */
  predicate Earlier(a: Point, b: Point) {
    if a.Time() == b.Time() then StrLess(a.photoId, b.photoId) else a.Time() < b.Time()
  }

  function Dated(points: seq<Point>): seq<Point> {
    if points == [] then [] else
      var p := points[|points| - 1];
      Dated(points[..|points| - 1]) + if p.capturedAt.Some? then [p] else []
  }

  function UndatedIds(points: seq<Point>): seq<string> {
    if points == [] then [] else
      var p := points[|points| - 1];
      UndatedIds(points[..|points| - 1]) + if p.capturedAt.Some? then [] else [p.photoId]
  }

  /** The dated photos, each once, in the order the pass visits them. */
  ghost predicate IsSorted(sorted: seq<Point>, points: seq<Point>) {
    multiset(sorted) == multiset(Dated(points)) && Ordered(sorted, Earlier)
  }

  ghost predicate OnePerRun(clusters: seq<Cluster>, runs: seq<seq<Point>>, far: Metres) {
    |clusters| == |runs|
    && forall c :: 0 <= c < |runs| ==> runs[c] != [] && clusters[c] == ClusterOf(runs[c], far)
  }

  lemma EarlierIsWeakOrder(points: seq<Point>)
    ensures WeakOrder(points, Earlier)
  {
    forall a, b | a in points && b in points && Earlier(a, b) ensures !Earlier(b, a) {
      StrTrichotomy(a.photoId, b.photoId);
    }
    forall a, b, c | a in points && b in points && c in points && !Earlier(a, b) && !Earlier(b, c)
      ensures !Earlier(a, c)
    {
      if a.Time() == b.Time() == c.Time() { NotStrLessTransitive(a.photoId, b.photoId, c.photoId); }
    }
  }

  method SplitUndated(points: seq<Point>) returns (dated: seq<Point>, undated: seq<string>)
    ensures dated == Dated(points) && undated == UndatedIds(points)
  {
    dated, undated := [], [];
    for i := 0 to |points|
      invariant dated == Dated(points[..i]) && undated == UndatedIds(points[..i])
    {
      assert points[..i + 1][..i] == points[..i];
      if points[i].capturedAt.None? {
        undated := undated + [points[i].photoId];
      } else {
        dated := dated + [points[i]];
      }
    }
    assert points[..|points|] == points;
  }

  /** One cluster for every run of the unique split of the sorted photos, in time order. */
  method Segment(points: seq<Point>, opts: Thresholds, far: Metres)
    returns (clusters: seq<Cluster>, undated: seq<string>, ghost sorted: seq<Point>)
    ensures undated == UndatedIds(points)
    ensures IsSorted(sorted, points)
    ensures OnePerRun(clusters, Runs(sorted, opts.WithDefaults(), far), far)
    ensures InCaptureOrder(sorted)
    ensures EventsBegin(Runs(sorted, opts.WithDefaults(), far), sorted,
      if opts.maxGap > 0 then opts.maxGap else 4 * 60 * 60 * 1_000_000_000,
      if opts.maxRadius > 0.0 then opts.maxRadius else 1500.0, far)
  {
    hide WeakOrder, Ordered, Runs, OnePerRun, AddTo, NewCluster, Breaks, InCaptureOrder, EventsBegin;
    var o := opts.WithDefaults();
    var dated, ids := SplitUndated(points);
    undated := ids;
    EarlierIsWeakOrder(dated);
    var order := SortSlice(dated, Earlier);
    sorted := order;
    SortedMeans(points, order);
    EventsBeginIff(Runs(order, o, far), order, o, far);
    if |order| == 0 {
      NoRuns(order, o, far);
      clusters := [];
      return;
    }
    clusters := [];
    var cur := NewCluster(order[0]);
    FirstRun(order, o, far);
    assert [] + [cur] == [cur];
    for i := 1 to |order|
      invariant OnePerRun(clusters + [cur], Runs(order[..i], o, far), far)
    {
      PassStep(clusters, cur, order, i, o, far);
      if Breaks(cur.anchor, order[i - 1], order[i], o, far) {
        clusters := clusters + [cur];
        cur := NewCluster(order[i]);
      } else {
        cur := AddTo(cur, order[i], far);
      }
    }
    assert order[..|order|] == order;
    clusters := clusters + [cur];
  }

  /** Dated photos only, earliest first, and by id where times are equal. */
  ghost predicate InCaptureOrder(sorted: seq<Point>) {
    && AllDated(sorted)
    && forall i, j :: 0 <= i < j < |sorted| && sorted[i].capturedAt.Some? && sorted[j].capturedAt.Some? ==>
      sorted[i].capturedAt.value < sorted[j].capturedAt.value
      || (sorted[i].capturedAt == sorted[j].capturedAt && !StrLess(sorted[j].photoId, sorted[i].photoId))
  }

  lemma SortedMeans(points: seq<Point>, sorted: seq<Point>)
    requires IsSorted(sorted, points)
    ensures InCaptureOrder(sorted) && AllDated(sorted)
  {
    hide StrLess;
    SortedDated(points, sorted);
    forall i, j | 0 <= i < j < |sorted|
      ensures sorted[i].Time() < sorted[j].Time()
        || (sorted[i].Time() == sorted[j].Time() && !StrLess(sorted[j].photoId, sorted[i].photoId))
    {
      assert !Earlier(sorted[j], sorted[i]);
    }
  }

  lemma NoRuns(order: seq<Point>, o: Thresholds, far: Metres)
    requires |order| == 0
    ensures OnePerRun([], Runs(order, o, far), far)
  {}

  /** One round of the pass keeps the clusters in step with the runs of what was visited. */
  lemma PassStep(clusters: seq<Cluster>, cur: Cluster, order: seq<Point>, i: nat, o: Thresholds, far: Metres)
    requires 1 <= i < |order| && OnePerRun(clusters + [cur], Runs(order[..i], o, far), far)
    ensures Breaks(cur.anchor, order[i - 1], order[i], o, far) ==>
      OnePerRun(clusters + [cur] + [NewCluster(order[i])], Runs(order[..i + 1], o, far), far)
    ensures !Breaks(cur.anchor, order[i - 1], order[i], o, far) ==>
      OnePerRun(clusters + [AddTo(cur, order[i], far)], Runs(order[..i + 1], o, far), far)
  {
    hide Runs, Cuts, ClusterOf, AddTo, NewCluster, Breaks;
    var runs := Runs(order[..i], o, far);
    var last := runs[|runs| - 1];
    NextRun(order, i, o, far);
    CurrentCluster(clusters, cur, order[..i], order[i], o, far);
    SingleCluster(order[i], far);
    GrownCluster(last, order[i], far);
    assert forall c :: 0 <= c < |clusters| ==> clusters[c] == (clusters + [cur])[c];
  }

  lemma FirstRun(order: seq<Point>, o: Thresholds, far: Metres)
    requires |order| > 0
    ensures OnePerRun([NewCluster(order[0])], Runs(order[..1], o, far), far)
  {
    assert order[..1][..0] == [];
    assert order[..1] == [order[0]];
  }

  lemma NextRun(order: seq<Point>, i: nat, o: Thresholds, far: Metres)
    requires 1 <= i < |order|
    ensures var runs := Runs(order[..i], o, far);
      Runs(order[..i + 1], o, far) ==
      if Cuts(runs[|runs| - 1], order[i], o, far) then runs + [[order[i]]]
      else runs[..|runs| - 1] + [runs[|runs| - 1] + [order[i]]]
  {
    assert order[..i + 1][..i] == order[..i];
  }

  lemma CurrentCluster(
    clusters: seq<Cluster>, cur: Cluster, before: seq<Point>, p: Point, o: Thresholds, far: Metres)
    requires before != [] && OnePerRun(clusters + [cur], Runs(before, o, far), far)
    ensures var runs := Runs(before, o, far);
      |runs| == |clusters| + 1 && cur == ClusterOf(runs[|runs| - 1], far)
      && Cuts(runs[|runs| - 1], p, o, far) == Breaks(cur.anchor, before[|before| - 1], p, o, far)
  {
    hide ClusterOf;
    var runs := Runs(before, o, far);
    assert (clusters + [cur])[|clusters|] == cur;
    ClusterDescribesRun(runs[|runs| - 1], far);
  }

  lemma SingleCluster(p: Point, far: Metres)
    ensures ClusterOf([p], far) == NewCluster(p)
  {}

  lemma GrownCluster(run: seq<Point>, p: Point, far: Metres)
    requires run != []
    ensures ClusterOf(run + [p], far) == AddTo(ClusterOf(run, far), p, far)
  {
    assert (run + [p])[..|run|] == run;
  }

  // ----- where events begin -----

  /** The f-th photo has the first fix of the run. */
  predicate FirstFix(run: seq<Point>, f: nat) {
    && f < |run| && run[f].latitude.Some? && run[f].longitude.Some?
    && forall e :: 0 <= e < f ==> run[e].latitude.None? || run[e].longitude.None?
  }

  predicate LongAfter(p: Point, q: Point, gap: int) {
    p.capturedAt.Some? && q.capturedAt.Some? && q.capturedAt.value - p.capturedAt.value > gap
  }

  /** p has a fix, and so has the run, and the first one is further away than the radius. */
  ghost predicate FarFromFirst(run: seq<Point>, p: Point, radius: real, far: Metres) {
    exists f: nat :: FirstFix(run, f) && p.latitude.Some? && p.longitude.Some?
      && far(Fix(run[f].latitude.value, run[f].longitude.value), Fix(p.latitude.value, p.longitude.value)) > radius
  }

  /** A new event begins after this run: too long after its last photo, or too far from its first fix.
      A photo without a fix begins one only by its time. */
  ghost predicate BeginsAfter(run: seq<Point>, p: Point, gap: int, radius: real, far: Metres) {
    run != [] && (LongAfter(run[|run| - 1], p, gap) || FarFromFirst(run, p, radius, far))
  }

  /** The runs make up the photos, and a new one begins exactly where an event does. */
  ghost predicate EventsBegin(runs: seq<seq<Point>>, sorted: seq<Point>, gap: int, radius: real, far: Metres) {
    && Flatten(runs) == sorted && (forall r :: 0 <= r < |runs| ==> runs[r] != [])
    && (forall r, k :: 0 <= r < |runs| && 1 <= k < |runs[r]| ==> !BeginsAfter(runs[r][..k], runs[r][k], gap, radius, far))
    && (forall r :: 0 <= r < |runs| - 1 ==> BeginsAfter(runs[r], runs[r + 1][0], gap, radius, far))
  }

  ghost predicate AllDated(points: seq<Point>) { forall p :: p in points ==> p.capturedAt.Some? }

  lemma {:induction false} AnchorIsFirstFix(run: seq<Point>)
    ensures Anchor(run).Some? <==> exists f: nat :: FirstFix(run, f)
    ensures forall f: nat :: FirstFix(run, f) ==> Anchor(run) == Some(Fix(run[f].latitude.value, run[f].longitude.value))
  {
    if run != [] {
      var init, last := run[..|run| - 1], |run| - 1;
      AnchorIsFirstFix(init);
      forall f: nat ensures FirstFix(run, f) <==> FirstFix(init, f) || (f == last && Anchor(init).None? && run[last].HasLocation()) {
        if FirstFix(run, f) && f == last { forall g: nat ensures !FirstFix(init, g) {} }
        if f == last && Anchor(init).None? { UnfixedUpTo(init, last); }
      }
      if f: nat :| FirstFix(init, f) { assert FirstFix(run, f); }
      if Anchor(init).None? && run[last].HasLocation() { assert FirstFix(run, last); }
    }
  }

  lemma {:induction false} UnfixedUpTo(run: seq<Point>, n: nat)
    requires n <= |run| && forall f: nat :: !FirstFix(run, f)
    ensures forall e :: 0 <= e < n ==> run[e].latitude.None? || run[e].longitude.None?
  {
    if n > 0 {
      UnfixedUpTo(run, n - 1);
      assert !FirstFix(run, n - 1);
    }
  }

  lemma CutsIsBeginsAfter(run: seq<Point>, p: Point, o: Thresholds, far: Metres)
    requires run != [] && run[|run| - 1].capturedAt.Some? && p.capturedAt.Some?
    ensures Cuts(run, p, o, far) <==> BeginsAfter(run, p, o.maxGap, o.maxRadius, far)
  {
    hide Anchor, FirstFix;
    AnchorIsFirstFix(run);
  }

  lemma RunsDated(runs: seq<seq<Point>>, sorted: seq<Point>, r: nat)
    requires Flatten(runs) == sorted && AllDated(sorted) && r < |runs|
    ensures AllDated(runs[r])
  {
    forall p | p in runs[r] ensures p.capturedAt.Some? { FlattenHolds(runs, p); }
  }

  /** The runs are the only way to split dated photos with a boundary exactly where an event begins. */
  lemma EventsBeginIff(runs: seq<seq<Point>>, sorted: seq<Point>, o: Thresholds, far: Metres)
    requires AllDated(sorted)
    ensures runs == Runs(sorted, o, far) <==> EventsBegin(runs, sorted, o.maxGap, o.maxRadius, far)
  {
    hide Runs, Cuts, BeginsAfter, Flatten;
    SplitUnique(runs, sorted, o, far);
    if Flatten(runs) == sorted && forall r :: 0 <= r < |runs| ==> runs[r] != [] {
      forall r | 0 <= r < |runs|
        ensures Unbroken(runs[r], o, far) <==>
          forall k :: 1 <= k < |runs[r]| ==> !BeginsAfter(runs[r][..k], runs[r][k], o.maxGap, o.maxRadius, far)
        ensures r < |runs| - 1 ==>
          (CutBetween(runs[r], runs[r + 1], o, far) <==> BeginsAfter(runs[r], runs[r + 1][0], o.maxGap, o.maxRadius, far))
      {
        RunsDated(runs, sorted, r);
        forall k | 1 <= k < |runs[r]|
          ensures Cuts(runs[r][..k], runs[r][k], o, far) <==> BeginsAfter(runs[r][..k], runs[r][k], o.maxGap, o.maxRadius, far)
        {
          assert runs[r][k - 1] in runs[r] && runs[r][k] in runs[r];
          CutsIsBeginsAfter(runs[r][..k], runs[r][k], o, far);
        }
        if r < |runs| - 1 {
          RunsDated(runs, sorted, r + 1);
          assert runs[r][|runs[r]| - 1] in runs[r] && runs[r + 1][0] in runs[r + 1];
          CutsIsBeginsAfter(runs[r], runs[r + 1][0], o, far);
        }
      }
      EachRun(runs, o, far);
    }
    if IsSplit(runs, sorted, o, far) {
      forall r | 0 <= r < |runs| ensures runs[r] != [] { assert Unbroken(runs[r], o, far); }
    }
  }

  lemma EachRun(runs: seq<seq<Point>>, o: Thresholds, far: Metres)
    requires forall r :: 0 <= r < |runs| ==> runs[r] != []
    requires forall r :: 0 <= r < |runs| ==>
      (Unbroken(runs[r], o, far) <==>
        forall k :: 1 <= k < |runs[r]| ==> !BeginsAfter(runs[r][..k], runs[r][k], o.maxGap, o.maxRadius, far))
    requires forall r :: 0 <= r < |runs| - 1 ==>
      (CutBetween(runs[r], runs[r + 1], o, far) <==> BeginsAfter(runs[r], runs[r + 1][0], o.maxGap, o.maxRadius, far))
    ensures WellCut(runs, o, far) <==> EventsBegin(runs, Flatten(runs), o.maxGap, o.maxRadius, far)
  {
    hide Unbroken, CutBetween, BeginsAfter, Flatten;
  }

  /** Where the k-th photo of the sorted library stands: at m in run r, its predecessor right before it. */
  ghost predicate StandsAt(runs: seq<seq<Point>>, k: nat, r: nat, m: nat) {
    && r < |runs| && m < |runs[r]| && k < |Flatten(runs)| && Flatten(runs)[k] == runs[r][m]
    && (m > 0 ==> k > 0 && Flatten(runs)[k - 1] == runs[r][m - 1])
    && (m == 0 && k > 0 ==> r > 0 && runs[r - 1] != [] && Flatten(runs)[k - 1] == runs[r - 1][|runs[r - 1]| - 1])
  }

  lemma {:induction false} SomewhereStands(runs: seq<seq<Point>>, k: nat) returns (r: nat, m: nat)
    requires k < |Flatten(runs)| && forall r :: 0 <= r < |runs| ==> runs[r] != []
    ensures StandsAt(runs, k, r, m)
  {
    var n := |runs| - 1;
    var head := Flatten(runs[..n]);
    if k < |head| {
      r, m := SomewhereStands(runs[..n], k);
    } else {
      r, m := n, k - |head|;
      if m == 0 && k > 0 {
        assert n > 0;
        assert runs[..n][..n - 1] == runs[..n - 1];
        assert head == Flatten(runs[..n - 1]) + runs[n - 1];
      }
    }
  }

  /** The two photos are next to each other in one cluster. */
  ghost predicate NeighboursIn(clusters: seq<Cluster>, p: string, q: string) {
    exists c, m :: 0 <= c < |clusters| && 1 <= m < |clusters[c].photoIds|
      && clusters[c].photoIds[m - 1] == p && clusters[c].photoIds[m] == q
  }

  /** A photo without a fix, taken within the gap of the one before it, joins that one's cluster. */
  lemma UnlocatedPhotoStays(points: seq<Point>, sorted: seq<Point>, clusters: seq<Cluster>, o: Thresholds, far: Metres, k: nat)
    requires IsSorted(sorted, points) && OnePerRun(clusters, Runs(sorted, o, far), far) && 1 <= k < |sorted|
    requires sorted[k].latitude.None? || sorted[k].longitude.None?
    requires !LongAfter(sorted[k - 1], sorted[k], o.maxGap)
    ensures NeighboursIn(clusters, sorted[k - 1].photoId, sorted[k].photoId)
  {
    hide Runs, Flatten, ClusterOf;
    var runs := Runs(sorted, o, far);
    SortedDated(points, sorted);
    EventsBeginIff(runs, sorted, o, far);
    var r, m := SomewhereStands(runs, k);
    if m == 0 { NoBoundary(runs, sorted, o, far, k, r); }
    ClusterDescribesRun(runs[r], far);
    assert clusters[r].photoIds[m - 1] == sorted[k - 1].photoId && clusters[r].photoIds[m] == sorted[k].photoId;
  }

  lemma NoBoundary(runs: seq<seq<Point>>, sorted: seq<Point>, o: Thresholds, far: Metres, k: nat, r: nat)
    requires EventsBegin(runs, sorted, o.maxGap, o.maxRadius, far) && 1 <= k < |sorted| && StandsAt(runs, k, r, 0)
    ensures BeginsAfter(runs[r - 1], sorted[k], o.maxGap, o.maxRadius, far)
    ensures LongAfter(sorted[k - 1], sorted[k], o.maxGap) || (sorted[k].latitude.Some? && sorted[k].longitude.Some?)
  {
    hide Flatten;
    assert BeginsAfter(runs[r - 1], runs[r - 1 + 1][0], o.maxGap, o.maxRadius, far);
  }

  lemma SortedDated(points: seq<Point>, sorted: seq<Point>)
    requires IsSorted(sorted, points)
    ensures AllDated(sorted)
  {
    forall p | p in sorted ensures p.capturedAt.Some? { SortedHolds(points, sorted, p); }
  }

  // ----- every dated photo lands in exactly one cluster -----

  function Members(clusters: seq<Cluster>): seq<string> {
    if clusters == [] then [] else Members(clusters[..|clusters| - 1]) + clusters[|clusters| - 1].photoIds
  }

  function Ids(points: seq<Point>): seq<string> {
    seq(|points|, i requires 0 <= i < |points| => points[i].photoId)
  }

  lemma {:induction false} MembersFollowRuns(clusters: seq<Cluster>, runs: seq<seq<Point>>, far: Metres)
    requires OnePerRun(clusters, runs, far)
    ensures Members(clusters) == Ids(Flatten(runs))
  {
    hide ClusterOf, Measures, Spans;
    if runs != [] {
      var n := |runs| - 1;
      MembersFollowRuns(clusters[..n], runs[..n], far);
      ClusterDescribesRun(runs[n], far);
      assert clusters[n].photoIds == Ids(runs[n]);
    }
  }

  /** The clusters read one after another list exactly the dated photos in capture order. */
  lemma ClustersListSorted(clusters: seq<Cluster>, sorted: seq<Point>, o: Thresholds, far: Metres)
    requires OnePerRun(clusters, Runs(sorted, o, far), far)
    ensures Members(clusters) == Ids(sorted)
  {
    MembersFollowRuns(clusters, Runs(sorted, o, far), far);
    RunsIsSplit(sorted, o, far);
  }

  lemma WithoutOne(b: seq<Point>, i: nat, rest: seq<Point>)
    requires i < |b| && rest == b[..i] + b[i + 1..]
    ensures multiset(rest) == multiset(b) - multiset{b[i]}
    ensures multiset(Ids(b)) == multiset(Ids(rest)) + multiset{b[i].photoId}
  {
    assert b == b[..i] + ([b[i]] + b[i + 1..]);
    assert Ids(b) == Ids(b[..i]) + ([b[i].photoId] + Ids(b[i + 1..]));
    assert Ids(rest) == Ids(b[..i]) + Ids(b[i + 1..]);
  }

  lemma {:induction false} IdsConserve(a: seq<Point>, b: seq<Point>)
    requires multiset(a) == multiset(b)
    ensures multiset(Ids(a)) == multiset(Ids(b))
  {
    hide Ids;
    assert |multiset(a)| == |a| && |multiset(b)| == |b|;
    if a == [] {
      assert b == [];
    } else {
      assert a[0] in multiset(b);
      var i :| 0 <= i < |b| && b[i] == a[0];
      var rest := b[..i] + b[i + 1..];
      WithoutOne(a, 0, a[1..]);
      WithoutOne(b, i, rest);
      IdsConserve(a[1..], rest);
    }
  }

  lemma {:induction false} NothingLost(points: seq<Point>)
    ensures multiset(Ids(Dated(points))) + multiset(UndatedIds(points)) == multiset(Ids(points))
  {
    if points != [] {
      var init, p := points[..|points| - 1], points[|points| - 1];
      NothingLost(init);
      assert Ids(points) == Ids(init) + [p.photoId];
      assert Ids(Dated(init) + [p]) == Ids(Dated(init)) + [p.photoId];
      if p.capturedAt.None? { assert Dated(points) == Dated(init); }
    }
  }

  /** Conservation: clusters and the undated list together hold every input photo exactly as often. */
  lemma EveryPhotoPlacedOnce(
    points: seq<Point>, sorted: seq<Point>, clusters: seq<Cluster>, o: Thresholds, far: Metres)
    requires IsSorted(sorted, points) && OnePerRun(clusters, Runs(sorted, o, far), far)
    ensures multiset(Members(clusters)) + multiset(UndatedIds(points)) == multiset(Ids(points))
  {
    ClustersListSorted(clusters, sorted, o, far);
    IdsConserve(sorted, Dated(points));
    NothingLost(points);
  }

  // ----- the input order does not matter -----

  lemma {:induction false} DatedCounts(points: seq<Point>, p: Point)
    ensures multiset(Dated(points))[p] == if p.capturedAt.Some? then multiset(points)[p] else 0
  {
    if points != [] {
      var init, last := points[..|points| - 1], points[|points| - 1];
      DatedCounts(init, p);
      assert points == init + [last];
    }
  }

  lemma DistinctIdsComparable(points: seq<Point>)
    requires DistinctPhotos(points)
    ensures Connex(points, Earlier)
  {
    forall a, b | a in points && b in points && a != b ensures Earlier(a, b) || Earlier(b, a) {
      var i :| 0 <= i < |points| && points[i] == a;
      var j :| 0 <= j < |points| && points[j] == b;
      assert points[if i < j then i else j].photoId != points[if i < j then j else i].photoId;
      StrTrichotomy(a.photoId, b.photoId);
    }
  }

  lemma ConnexOfSame(a: seq<Point>, b: seq<Point>)
    requires Connex(a, Earlier) && forall p :: p in b ==> p in a
    ensures Connex(b, Earlier)
  {}

  lemma OneOrderOnly(points: seq<Point>, shuffled: seq<Point>, first: seq<Point>, second: seq<Point>)
    requires multiset(points) == multiset(shuffled) && DistinctPhotos(points)
    requires IsSorted(first, points) && IsSorted(second, shuffled)
    ensures first == second
  {
    forall p ensures multiset(Dated(points))[p] == multiset(Dated(shuffled))[p] {
      DatedCounts(points, p);
      DatedCounts(shuffled, p);
    }
    forall p | p in first ensures p in points {
      assert p in multiset(first);
      DatedCounts(points, p);
    }
    DistinctIdsComparable(points);
    ConnexOfSame(points, first);
    OrderedUnique(first, second, Earlier);
  }

  /** With distinct photo ids, Segment builds the same clusters from the same photos in any order. */
  lemma ClustersIgnoreInputOrder(
    points: seq<Point>, first: seq<Point>, clusters: seq<Cluster>,
    shuffled: seq<Point>, second: seq<Point>, others: seq<Cluster>, o: Thresholds, far: Metres)
    requires multiset(points) == multiset(shuffled) && DistinctPhotos(points)
    requires IsSorted(first, points) && OnePerRun(clusters, Runs(first, o, far), far)
    requires IsSorted(second, shuffled) && OnePerRun(others, Runs(second, o, far), far)
    ensures clusters == others
  {
    hide Runs, ClusterOf;
    OneOrderOnly(points, shuffled, first, second);
    var runs := Runs(first, o, far);
    assert |clusters| == |others| && forall c :: 0 <= c < |runs| ==> clusters[c] == others[c];
  }

  // ----- the radius is bounded by construction -----

  /** No member is recorded, and so none reported, further from the anchor than MaxRadiusMeters. */
  lemma RadiusIsBounded(run: seq<Point>, o: Thresholds, far: Metres)
    requires Unbroken(run, o, far) && o.maxRadius > 0.0
    ensures ClusterOf(run, far).maxDistance <= o.maxRadius
    ensures forall k :: 0 <= k < |run| && run[k].HasLocation() ==> RecordedDistance(run, k, far) <= o.maxRadius
  {
    hide ClusterOf, Measures, Summarises;
    ClusterDescribesRun(run, far);
    forall k | 0 <= k < |run| && run[k].HasLocation() ensures RecordedDistance(run, k, far) <= o.maxRadius {
      if k > 0 && Anchor(run[..k]).Some? { RunIsTight(run, o, far, k); AnchorStays(run, k); }
    }
  }

  // ----- events without GPS -----

  ghost predicate SameEvent(runs: seq<seq<Point>>, a: Point, b: Point) {
    exists r :: 0 <= r < |runs| && a in runs[r] && b in runs[r]
  }

  predicate Within(a: Point, b: Point, gap: int) {
    -gap <= a.Time() - b.Time() <= gap
  }

  /** The pairs of dated photos taken no further apart than the gap. */
  ghost function GapPairs(points: seq<Point>, gap: int): set<(Point, Point)> {
    set a, b | a in points && b in points && Within(a, b, gap) :: (a, b)
  }

  lemma {:induction false} FlattenHolds(runs: seq<seq<Point>>, p: Point)
    ensures p in Flatten(runs) <==> exists r :: 0 <= r < |runs| && p in runs[r]
  {
    if runs != [] {
      var n := |runs| - 1;
      FlattenHolds(runs[..n], p);
      if p in Flatten(runs[..n]) {
        var r :| 0 <= r < |runs[..n]| && p in runs[..n][r];
        assert p in runs[r];
      }
      if r :| 0 <= r < |runs| && p in runs[r] {
        if r < n { assert p in runs[..n][r]; }
      }
    }
  }

  lemma SortedInOrder(sorted: seq<Point>)
    requires Ordered(sorted, Earlier)
    ensures InOrder(sorted)
  {
    forall i, j | 0 <= i < j < |sorted| ensures sorted[i].Time() <= sorted[j].Time() {
      assert !Earlier(sorted[j], sorted[i]);
    }
  }

  lemma {:induction false} NoFixNoAnchor(run: seq<Point>)
    requires forall p :: p in run ==> !p.HasLocation()
    ensures Anchor(run) == None
  {
    if run != [] {
      NoFixNoAnchor(run[..|run| - 1]);
      assert run[|run| - 1] in run;
    }
  }

  ghost predicate NoFix(points: seq<Point>) {
    forall p :: p in points ==> !p.HasLocation()
  }

  /** Without GPS a break is a gap: photos of different runs are further apart than the gap. */
  lemma {:induction false} RunsLieApart(runs: seq<seq<Point>>, o: Thresholds, far: Metres, r: nat, x: Point, y: Point)
    requires WellCut(runs, o, far) && InOrder(Flatten(runs)) && NoFix(Flatten(runs)) && o.maxGap > 0
    requires r < |runs| - 1 && x in runs[r] && y in runs[|runs| - 1]
    ensures y.Time() - x.Time() > o.maxGap
    decreases |runs|
  {
    hide Anchor;
    var n := |runs| - 1;
    var all, head := Flatten(runs), Flatten(runs[..n]);
    assert CutBetween(runs[n - 1], runs[n - 1 + 1], o, far);
    var prev, last := runs[n - 1], runs[n];
    var z := prev[|prev| - 1];
    FlattenHolds(runs[..n], x);
    assert x in runs[..n][r];
    assert Flatten(runs[..n]) == Flatten(runs[..n][..n - 1]) + prev;
    assert head[|head| - 1] == z;
    var i :| 0 <= i < |head| && head[i] == x;
    assert all[i] == x && all[|head| - 1] == z;
    assert x.Time() <= z.Time();
    var j :| 0 <= j < |last| && last[j] == y;
    assert all[|head| + j] == y && all[|head|] == last[0];
    assert last[0].Time() <= y.Time();
    forall p | p in prev ensures !p.HasLocation() {
      assert p in all;
    }
    NoFixNoAnchor(prev);
    assert last[0] in all;
  }

  lemma {:induction false} FlattenPrefix(runs: seq<seq<Point>>, n: nat)
    requires n <= |runs|
    ensures Flatten(runs[..n]) <= Flatten(runs)
  {
    if n == |runs| {
      assert runs[..n] == runs;
    } else {
      assert runs[..|runs| - 1][..n] == runs[..n];
      FlattenPrefix(runs[..|runs| - 1], n);
    }
  }

  lemma PrefixWellCut(runs: seq<seq<Point>>, n: nat, o: Thresholds, far: Metres)
    requires n <= |runs| && WellCut(runs, o, far)
    ensures WellCut(runs[..n], o, far)
  {
    forall r | 0 <= r < n - 1 ensures CutBetween(runs[..n][r], runs[..n][r + 1], o, far) {
      assert CutBetween(runs[r], runs[r + 1], o, far);
    }
  }

  /** A time-ordered library without GPS, split into runs. */
  ghost predicate TimeOnly(runs: seq<seq<Point>>, pts: seq<Point>, o: Thresholds, far: Metres) {
    IsSplit(runs, pts, o, far) && InOrder(pts) && NoFix(pts) && o.maxGap > 0
  }

  lemma CloseIsSameRun(
    runs: seq<seq<Point>>, pts: seq<Point>, o: Thresholds, far: Metres, r: nat, s: nat, x: Point, y: Point)
    requires TimeOnly(runs, pts, o, far)
    requires r < |runs| && s < |runs| && x in runs[r] && y in runs[s] && Within(x, y, o.maxGap)
    ensures r == s
  {
    hide WellCut, Flatten;
    if r != s {
      var lo, hi := if r < s then r else s, if r < s then s else r;
      var a, b := if r < s then x else y, if r < s then y else x;
      FlattenPrefix(runs, hi + 1);
      PrefixWellCut(runs, hi + 1, o, far);
      RunsLieApart(runs[..hi + 1], o, far, lo, a, b);
    }
  }

  lemma {:induction false} PathStaysInRun(
    runs: seq<seq<Point>>, pts: seq<Point>, o: Thresholds, far: Metres, r: nat, path: seq<Point>)
    requires TimeOnly(runs, pts, o, far)
    requires r < |runs| && Path(GapPairs(pts, o.maxGap), path) && path[0] in runs[r]
    ensures path[|path| - 1] in runs[r]
  {
    hide WellCut, Flatten;
    if |path| > 1 {
      var x, y := path[0], path[1];
      assert Step(GapPairs(pts, o.maxGap), x, y);
      if x != y {
        FlattenHolds(runs, y);
        var s :| 0 <= s < |runs| && y in runs[s];
        CloseIsSameRun(runs, pts, o, far, r, s, x, y);
      }
      PathStaysInRun(runs, pts, o, far, r, path[1..]);
    }
  }

  lemma {:induction false} RunIsChained(run: seq<Point>, pts: seq<Point>, o: Thresholds, far: Metres, k: nat)
    requires Unbroken(run, o, far) && InOrder(run) && k < |run|
    requires o.maxGap > 0 && forall p :: p in run ==> p in pts
    ensures Chain(GapPairs(pts, o.maxGap), run[0], run[k])
  {
    hide Chain;
    var pairs := GapPairs(pts, o.maxGap);
    if k == 0 {
      Reflexive(pairs, run[0]);
    } else {
      RunIsChained(run, pts, o, far, k - 1);
      RunIsTight(run, o, far, k);
      assert run[k - 1] in run && run[k] in run;
      OneStep(pairs, run[k - 1], run[k]);
      Transitive(pairs, run[0], run[k - 1], run[k]);
    }
  }

  lemma {:induction false} RunInOrder(runs: seq<seq<Point>>, r: nat)
    requires r < |runs| && InOrder(Flatten(runs))
    ensures InOrder(runs[r])
  {
    var n := |runs| - 1;
    var head, last := Flatten(runs[..n]), runs[n];
    if r == n {
      forall i, j | 0 <= i < j < |last| ensures last[i].Time() <= last[j].Time() {
        assert Flatten(runs)[|head| + i] == last[i] && Flatten(runs)[|head| + j] == last[j];
      }
    } else {
      assert forall i :: 0 <= i < |head| ==> Flatten(runs)[i] == head[i];
      RunInOrder(runs[..n], r);
    }
  }

  lemma RunMembersChained(runs: seq<seq<Point>>, pts: seq<Point>, o: Thresholds, far: Metres, r: nat, x: Point)
    requires TimeOnly(runs, pts, o, far) && r < |runs| && x in runs[r]
    ensures Chain(GapPairs(pts, o.maxGap), runs[r][0], x)
  {
    hide Chain, GapPairs, Flatten;
    var run := runs[r];
    RunInOrder(runs, r);
    assert Unbroken(run, o, far);
    forall p | p in run ensures p in pts { FlattenHolds(runs, p); }
    var k :| 0 <= k < |run| && run[k] == x;
    RunIsChained(run, pts, o, far, k);
  }

  /** Without GPS, two photos share an event exactly when gaps no longer than MaxGap chain them. */
  lemma SameEventIffChained(runs: seq<seq<Point>>, pts: seq<Point>, o: Thresholds, far: Metres, a: Point, b: Point)
    requires TimeOnly(runs, pts, o, far) && a in pts && b in pts
    ensures SameEvent(runs, a, b) <==> Chain(GapPairs(pts, o.maxGap), a, b)
  {
    hide WellCut, Flatten, GapPairs;
    var pairs := GapPairs(pts, o.maxGap);
    if SameEvent(runs, a, b) {
      var r :| 0 <= r < |runs| && a in runs[r] && b in runs[r];
      RunMembersChained(runs, pts, o, far, r, a);
      RunMembersChained(runs, pts, o, far, r, b);
      Symmetric(pairs, runs[r][0], a);
      Transitive(pairs, a, runs[r][0], b);
    }
    if Chain(pairs, a, b) {
      FlattenHolds(runs, a);
      var r :| 0 <= r < |runs| && a in runs[r];
      var path :| PathFrom(pairs, path, a, b);
      PathStaysInRun(runs, pts, o, far, r, path);
    }
  }

  /** The thresholds Segment works with are never zero or negative. */
  lemma DefaultsArePositive(opts: Thresholds)
    ensures opts.WithDefaults().maxGap > 0 && opts.WithDefaults().maxRadius > 0.0
    ensures opts.WithDefaults().WithDefaults() == opts.WithDefaults()
  {}

  lemma {:induction false} DatedHolds(points: seq<Point>, p: Point)
    ensures p in Dated(points) <==> p in points && p.capturedAt.Some?
  {
    if points != [] {
      DatedHolds(points[..|points| - 1], p);
      assert points == points[..|points| - 1] + [points[|points| - 1]];
    }
  }

  lemma SortedHolds(points: seq<Point>, sorted: seq<Point>, p: Point)
    requires IsSorted(sorted, points)
    ensures p in sorted <==> p in points && p.capturedAt.Some?
  {
    DatedHolds(points, p);
    assert p in sorted <==> p in multiset(sorted);
  }

  /** What Segment returns for a library where no photo carries GPS. */
  lemma EventsWithoutGps(points: seq<Point>, sorted: seq<Point>, opts: Thresholds, far: Metres, a: Point, b: Point)
    requires IsSorted(sorted, points) && NoFix(points) && a in sorted && b in sorted
    ensures var o := opts.WithDefaults();
      SameEvent(Runs(sorted, o, far), a, b) <==> Chain(GapPairs(sorted, o.maxGap), a, b)
  {
    hide Runs, Chain;
    var o := opts.WithDefaults();
    RunsIsSplit(sorted, o, far);
    SortedInOrder(sorted);
    forall p | p in sorted ensures !p.HasLocation() { SortedHolds(points, sorted, p); }
    DefaultsArePositive(opts);
    SameEventIffChained(Runs(sorted, o, far), sorted, o, far, a, b);
  }

  /** Adding photos can merge events, never separate two photos that shared one. */
  lemma AddingPhotosOnlyMerges(
    few: seq<Point>, many: seq<Point>, before: seq<Point>, after: seq<Point>,
    opts: Thresholds, far: Metres, a: Point, b: Point)
    requires IsSorted(before, few) && IsSorted(after, many) && NoFix(many)
    requires forall p :: p in few ==> p in many
    requires a in before && b in before && SameEvent(Runs(before, opts.WithDefaults(), far), a, b)
    ensures SameEvent(Runs(after, opts.WithDefaults(), far), a, b)
  {
    hide Runs, Chain, IsSorted;
    var gap := opts.WithDefaults().maxGap;
    forall p | p in before ensures p in after {
      SortedHolds(few, before, p);
      SortedHolds(many, after, p);
    }
    EventsWithoutGps(few, before, opts, far, a, b);
    Monotone(GapPairs(before, gap), GapPairs(after, gap), a, b);
    EventsWithoutGps(many, after, opts, far, a, b);
  }
}
