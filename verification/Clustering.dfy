/** Event segmentation (internal/clustering/clustering.go): one ordered pass that cuts a library's
    photos into runs. Times are integers; distances come from `far`, which stands for Haversine. */
module Clustering {
  import opened Options
  import opened Chains
  import opened Ranking
  import opened Sorting

  datatype Fix = Fix(latitude: real, longitude: real)

  /** A zero CapturedAt is None. */
  datatype Point = Point(
    photoId: string, capturedAt: Option<int>, fromFilesystem: bool,
    latitude: Option<real>, longitude: Option<real>)
  {
    predicate HasLocation() { latitude.Some? && longitude.Some? }

    function Where(): Option<Fix> {
      if HasLocation() then Some(Fix(latitude.value, longitude.value)) else None
    }

    function Time(): int { if capturedAt.Some? then capturedAt.value else 0 }
  }

  type Metres = (Fix, Fix) -> real

  datatype Thresholds = Thresholds(maxGap: int, maxRadius: real)
  {
    function WithDefaults(): Thresholds {
      Thresholds(if maxGap <= 0 then 14_400_000_000_000 else maxGap, if maxRadius <= 0.0 then 1500.0 else maxRadius)
    }
  }

  datatype Cluster = Cluster(
    photoIds: seq<string>, startedAt: int, endedAt: int, anchor: Option<Fix>, maxDistance: real,
    locatedCount: nat, distances: map<string, real>, filesystemDatedCount: nat)

  // ----- the pass -----

  predicate Breaks(anchor: Option<Fix>, prev: Point, p: Point, o: Thresholds, far: Metres) {
    if p.Time() - prev.Time() > o.maxGap then true
    else if anchor.None? || !p.HasLocation() then false
    else far(anchor.value, p.Where().value) > o.maxRadius
  }

  function NewCluster(p: Point): Cluster {
    Cluster([p.photoId], p.Time(), p.Time(), p.Where(), 0.0,
            if p.HasLocation() then 1 else 0,
            if p.HasLocation() then map[p.photoId := 0.0] else map[],
            if p.fromFilesystem then 1 else 0)
  }

  function AddTo(c: Cluster, p: Point, far: Metres): Cluster {
    var d := c.(photoIds := c.photoIds + [p.photoId],
                endedAt := if p.Time() > c.endedAt then p.Time() else c.endedAt,
                filesystemDatedCount := c.filesystemDatedCount + if p.fromFilesystem then 1 else 0);
    if !p.HasLocation() then d
    else if c.anchor.None? then
      d.(locatedCount := c.locatedCount + 1, anchor := p.Where(), distances := c.distances[p.photoId := 0.0])
    else
      var m := far(c.anchor.value, p.Where().value);
      d.(locatedCount := c.locatedCount + 1, distances := c.distances[p.photoId := m],
         maxDistance := if m > c.maxDistance then m else c.maxDistance)
  }

  function ClusterOf(run: seq<Point>, far: Metres): Cluster
    requires run != []
  {
    if |run| == 1 then NewCluster(run[0])
    else AddTo(ClusterOf(run[..|run| - 1], far), run[|run| - 1], far)
  }

  /** The first fix of a run. */
  function Anchor(run: seq<Point>): Option<Fix> {
    if run == [] then None
    else if Anchor(run[..|run| - 1]).Some? then Anchor(run[..|run| - 1])
    else run[|run| - 1].Where()
  }

  /** p would start a new event after this run. */
  predicate Cuts(run: seq<Point>, p: Point, o: Thresholds, far: Metres)
    requires run != []
  {
    Breaks(Anchor(run), run[|run| - 1], p, o, far)
  }

  // ----- the declarative split -----

  function Flatten(runs: seq<seq<Point>>): seq<Point> {
    if runs == [] then [] else Flatten(runs[..|runs| - 1]) + runs[|runs| - 1]
  }

  /** No step inside the run breaks. */
  ghost predicate Unbroken(run: seq<Point>, o: Thresholds, far: Metres) {
    run != [] && forall k :: 1 <= k < |run| ==> !Cuts(run[..k], run[k], o, far)
  }

  /** The next run starts because its first photo breaks this one. */
  ghost predicate CutBetween(run: seq<Point>, next: seq<Point>, o: Thresholds, far: Metres) {
    run != [] && next != [] && Cuts(run, next[0], o, far)
  }

  ghost predicate WellCut(runs: seq<seq<Point>>, o: Thresholds, far: Metres) {
    && (forall r :: 0 <= r < |runs| ==> Unbroken(runs[r], o, far))
    && (forall r :: 0 <= r < |runs| - 1 ==> CutBetween(runs[r], runs[r + 1], o, far))
  }

  /** A split of the points, in order, into unbroken runs with a break at every boundary. */
  ghost predicate IsSplit(runs: seq<seq<Point>>, pts: seq<Point>, o: Thresholds, far: Metres) {
    Flatten(runs) == pts && WellCut(runs, o, far)
  }

  /** The greedy split, one point at a time. */
  function Runs(pts: seq<Point>, o: Thresholds, far: Metres): (runs: seq<seq<Point>>)
    ensures pts != [] ==> runs != [] && runs[|runs| - 1] != []
    ensures pts != [] ==> runs[|runs| - 1][|runs[|runs| - 1]| - 1] == pts[|pts| - 1]
  {
    if pts == [] then []
    else
      var runs, p := Runs(pts[..|pts| - 1], o, far), pts[|pts| - 1];
      if runs == [] || Cuts(runs[|runs| - 1], p, o, far) then runs + [[p]]
      else runs[..|runs| - 1] + [runs[|runs| - 1] + [p]]
  }

  lemma FlattenPush(runs: seq<seq<Point>>, run: seq<Point>)
    ensures Flatten(runs + [run]) == Flatten(runs) + run
  {
    assert (runs + [run])[..|runs|] == runs;
  }

  lemma UnbrokenPush(run: seq<Point>, p: Point, o: Thresholds, far: Metres)
    requires run != []
    ensures Unbroken(run + [p], o, far) <==> Unbroken(run, o, far) && !Cuts(run, p, o, far)
  {
    var longer := run + [p];
    assert longer[..|run|] == run;
    assert forall k :: 1 <= k < |run| ==> longer[..k] == run[..k];
    if Unbroken(longer, o, far) {
      assert !Cuts(longer[..|run|], longer[|run|], o, far);
      forall k | 1 <= k < |run| ensures !Cuts(run[..k], run[k], o, far) {
        assert !Cuts(longer[..k], longer[k], o, far);
      }
    }
  }

  lemma WellCutPush(runs: seq<seq<Point>>, p: Point, o: Thresholds, far: Metres)
    requires WellCut(runs, o, far)
    requires runs != [] ==> CutBetween(runs[|runs| - 1], [p], o, far)
    ensures WellCut(runs + [[p]], o, far)
  {
    hide CutBetween, Cuts;
    var more := runs + [[p]];
    forall r | 0 <= r < |more| - 1 ensures CutBetween(more[r], more[r + 1], o, far) {
      if r + 1 < |runs| { assert CutBetween(runs[r], runs[r + 1], o, far); }
    }
  }

  lemma WellCutGrow(head: seq<seq<Point>>, last: seq<Point>, p: Point, o: Thresholds, far: Metres)
    requires WellCut(head + [last], o, far) && last != [] && !Cuts(last, p, o, far)
    ensures WellCut(head + [last + [p]], o, far)
  {
    hide Cuts;
    var runs, more := head + [last], head + [last + [p]];
    UnbrokenPush(last, p, o, far);
    assert Unbroken(runs[|head|], o, far);
    forall r | 0 <= r < |more| ensures Unbroken(more[r], o, far) {
      if r < |head| { assert more[r] == runs[r]; }
    }
    forall r | 0 <= r < |more| - 1 ensures CutBetween(more[r], more[r + 1], o, far) {
      assert CutBetween(runs[r], runs[r + 1], o, far);
      assert more[r + 1][0] == runs[r + 1][0];
    }
  }

  /** The greedy pass computes a split... */
  lemma {:induction false} RunsIsSplit(pts: seq<Point>, o: Thresholds, far: Metres)
    ensures IsSplit(Runs(pts, o, far), pts, o, far)
  {
    hide Cuts, WellCut, Flatten;
    if pts == [] {
      EmptyFlattens();
      EmptyWellCut(o, far);
    } else {
      var init, p := pts[..|pts| - 1], pts[|pts| - 1];
      RunsIsSplit(init, o, far);
      var runs := Runs(init, o, far);
      assert pts == init + [p];
      if runs == [] || Cuts(runs[|runs| - 1], p, o, far) {
        FlattenPush(runs, [p]);
        WellCutPush(runs, p, o, far);
      } else {
        var head, last := runs[..|runs| - 1], runs[|runs| - 1];
        assert runs == head + [last];
        FlattenPush(head, last);
        FlattenPush(head, last + [p]);
        WellCutGrow(head, last, p, o, far);
        assert Flatten(head) + (last + [p]) == pts;
      }
    }
  }

  lemma EmptyWellCut(o: Thresholds, far: Metres)
    ensures WellCut([], o, far)
  {}

  /** The runs without their very last photo. */
  function DropPhoto(runs: seq<seq<Point>>): seq<seq<Point>>
    requires runs != [] && runs[|runs| - 1] != []
  {
    var head, last := runs[..|runs| - 1], runs[|runs| - 1];
    if |last| == 1 then head else head + [last[..|last| - 1]]
  }

  lemma DropFlattens(runs: seq<seq<Point>>)
    requires runs != [] && runs[|runs| - 1] != []
    ensures var last := runs[|runs| - 1];
      Flatten(runs) == Flatten(DropPhoto(runs)) + [last[|last| - 1]]
  {
    var head, last := runs[..|runs| - 1], runs[|runs| - 1];
    var shorter := last[..|last| - 1];
    assert last == shorter + [last[|last| - 1]];
    FlattenPush(head, shorter);
    assert Flatten(head) + last == (Flatten(head) + shorter) + [last[|last| - 1]];
    if |last| == 1 { assert Flatten(head) + shorter == Flatten(head); }
  }

  lemma DropStaysCut(runs: seq<seq<Point>>, o: Thresholds, far: Metres)
    requires runs != [] && runs[|runs| - 1] != [] && WellCut(runs, o, far)
    ensures WellCut(DropPhoto(runs), o, far)
    ensures var last := runs[|runs| - 1];
      |last| > 1 ==> !Cuts(last[..|last| - 1], last[|last| - 1], o, far)
  {
    hide Cuts;
    var head, last, s := runs[..|runs| - 1], runs[|runs| - 1], DropPhoto(runs);
    var shorter := last[..|last| - 1];
    assert Unbroken(last, o, far);
    if |last| > 1 {
      assert last == shorter + [last[|last| - 1]];
      UnbrokenPush(shorter, last[|last| - 1], o, far);
    }
    forall r | 0 <= r < |s| ensures Unbroken(s[r], o, far) {
      if r < |head| { assert s[r] == runs[r]; }
    }
    forall r | 0 <= r < |s| - 1 ensures CutBetween(s[r], s[r + 1], o, far) {
      assert CutBetween(runs[r], runs[r + 1], o, far);
      if r + 1 == |head| { assert s[r + 1][0] == runs[r + 1][0]; }
    }
  }

  lemma LastCuts(head: seq<seq<Point>>, p: Point, o: Thresholds, far: Metres)
    requires WellCut(head + [[p]], o, far) && head != []
    ensures head[|head| - 1] != [] && Cuts(head[|head| - 1], p, o, far)
  {
    hide Cuts;
    var runs := head + [[p]];
    assert CutBetween(runs[|head| - 1], runs[|head| - 1 + 1], o, far);
  }

  lemma LastNonEmpty(runs: seq<seq<Point>>, o: Thresholds, far: Metres)
    requires WellCut(runs, o, far) && runs != []
    ensures runs[|runs| - 1] != []
  {
    assert Unbroken(runs[|runs| - 1], o, far);
  }

  /** Taking the last photo off a split leaves a split of the points before it. */
  lemma DropIsSplit(runs: seq<seq<Point>>, pts: seq<Point>, o: Thresholds, far: Metres)
    requires IsSplit(runs, pts, o, far) && runs != []
    ensures pts != [] && runs[|runs| - 1] != []
    ensures IsSplit(DropPhoto(runs), pts[..|pts| - 1], o, far)
    ensures var last := runs[|runs| - 1]; last[|last| - 1] == pts[|pts| - 1]
  {
    hide Cuts, WellCut, Flatten;
    LastNonEmpty(runs, o, far);
    DropFlattens(runs);
    DropStaysCut(runs, o, far);
    var last := runs[|runs| - 1];
    assert pts == Flatten(DropPhoto(runs)) + [last[|last| - 1]];
  }

  /** The greedy step on what was left puts the photo back where it was. */
  lemma StepRestores(runs: seq<seq<Point>>, o: Thresholds, far: Metres)
    requires WellCut(runs, o, far) && runs != [] && runs[|runs| - 1] != []
    ensures var last, s := runs[|runs| - 1], DropPhoto(runs);
      var p := last[|last| - 1];
      if |last| == 1 then runs == s + [[p]] && (s != [] ==> s[|s| - 1] != [] && Cuts(s[|s| - 1], p, o, far))
      else s != [] && s[|s| - 1] != [] && !Cuts(s[|s| - 1], p, o, far)
           && runs == s[..|s| - 1] + [s[|s| - 1] + [p]]
  {
    hide Cuts, WellCut;
    DropStaysCut(runs, o, far);
    var head, last := runs[..|runs| - 1], runs[|runs| - 1];
    var p := last[|last| - 1];
    assert runs == head + [last];
    if |last| == 1 {
      assert last == [p];
      if head != [] { LastCuts(head, p, o, far); }
    } else {
      var shorter := last[..|last| - 1];
      assert last == shorter + [p];
      assert (head + [shorter])[..|head|] == head;
    }
  }

  /** ... and it is the only one. */
  lemma {:induction false} SplitIsRuns(runs: seq<seq<Point>>, pts: seq<Point>, o: Thresholds, far: Metres)
    requires IsSplit(runs, pts, o, far)
    ensures runs == Runs(pts, o, far)
    decreases |pts|
  {
    hide Cuts, WellCut, Flatten, DropPhoto;
    if runs == [] {
      EmptyFlattens();
    } else {
      DropIsSplit(runs, pts, o, far);
      SplitIsRuns(DropPhoto(runs), pts[..|pts| - 1], o, far);
      StepRestores(runs, o, far);
    }
  }

  lemma EmptyFlattens()
    ensures Flatten([]) == []
  {}

  /** The split is unique: exactly one list of runs has no break inside and a break at each boundary. */
  lemma SplitUnique(runs: seq<seq<Point>>, pts: seq<Point>, o: Thresholds, far: Metres)
    ensures IsSplit(runs, pts, o, far) <==> runs == Runs(pts, o, far)
  {
    RunsIsSplit(pts, o, far);
    if IsSplit(runs, pts, o, far) { SplitIsRuns(runs, pts, o, far); }
  }

  // ----- what a cluster says about its run -----

  lemma {:induction false} AnchorStays(run: seq<Point>, k: nat)
    requires k <= |run| && Anchor(run[..k]).Some?
    ensures Anchor(run) == Anchor(run[..k])
  {
    if k == |run| {
      assert run[..k] == run;
    } else {
      assert run[..|run| - 1][..k] == run[..k];
      AnchorStays(run[..|run| - 1], k);
    }
  }

  /** Adjacent members are within the gap, and every located member within the radius of the first fix. */
  lemma RunIsTight(run: seq<Point>, o: Thresholds, far: Metres, k: nat)
    requires Unbroken(run, o, far) && 1 <= k < |run|
    ensures run[k].Time() - run[k - 1].Time() <= o.maxGap
    ensures run[k].HasLocation() && Anchor(run[..k]).Some? ==>
      Anchor(run).Some? && far(Anchor(run).value, run[k].Where().value) <= o.maxRadius
  {
    assert !Cuts(run[..k], run[k], o, far);
    if Anchor(run[..k]).Some? { AnchorStays(run, k); }
  }

  function CountLocated(run: seq<Point>): nat {
    if run == [] then 0 else CountLocated(run[..|run| - 1]) + if run[|run| - 1].HasLocation() then 1 else 0
  }

  function CountFilesystem(run: seq<Point>): nat {
    if run == [] then 0 else CountFilesystem(run[..|run| - 1]) + if run[|run| - 1].fromFilesystem then 1 else 0
  }

  ghost predicate InOrder(run: seq<Point>) {
    forall i, j :: 0 <= i < j < |run| ==> run[i].Time() <= run[j].Time()
  }

  predicate DistinctPhotos(run: seq<Point>) {
    forall i, j :: 0 <= i < j < |run| ==> run[i].photoId != run[j].photoId
  }

  /** The distance recorded for the k-th member: zero at the anchor, measured from it afterwards. */
  function RecordedDistance(run: seq<Point>, k: nat, far: Metres): real
    requires k < |run| && run[k].HasLocation()
  {
    if Anchor(run[..k]).None? then 0.0 else far(Anchor(run[..k]).value, run[k].Where().value)
  }

  ghost predicate Records(c: Cluster, run: seq<Point>, k: nat, far: Metres)
    requires k < |run|
  {
    run[k].HasLocation() ==>
      run[k].photoId in c.distances && c.distances[run[k].photoId] == RecordedDistance(run, k, far)
  }

  ghost predicate LocatedIn(run: seq<Point>, id: string) {
    exists k :: 0 <= k < |run| && run[k].HasLocation() && run[k].photoId == id
  }

  /** Members in capture order, times, anchor and counts. */
  ghost predicate Summarises(c: Cluster, run: seq<Point>) {
    && run != [] && |c.photoIds| == |run|
    && (forall k :: 0 <= k < |run| ==> c.photoIds[k] == run[k].photoId)
    && c.startedAt == run[0].Time()
    && (InOrder(run) ==> c.endedAt == run[|run| - 1].Time())
    && c.anchor == Anchor(run)
    && c.locatedCount == CountLocated(run) && c.filesystemDatedCount == CountFilesystem(run)
  }

  /** Exactly the located members carry a distance, and it is the one measured. */
  ghost predicate Measures(c: Cluster, run: seq<Point>, far: Metres) {
    && (forall id :: id in c.distances <==> LocatedIn(run, id))
    && (DistinctPhotos(run) ==> forall k :: 0 <= k < |run| ==> Records(c, run, k, far))
  }

  /** maxDistance is the largest distance recorded. */
  ghost predicate Spans(m: real, run: seq<Point>, far: Metres) {
    && m >= 0.0
    && (forall k :: 0 <= k < |run| && run[k].HasLocation() ==> RecordedDistance(run, k, far) <= m)
    && (m == 0.0 || exists k :: 0 <= k < |run| && run[k].HasLocation() && RecordedDistance(run, k, far) == m)
  }

  ghost predicate Describes(c: Cluster, run: seq<Point>, far: Metres) {
    Summarises(c, run) && Measures(c, run, far) && Spans(c.maxDistance, run, far)
  }

  lemma SummarisesPush(c: Cluster, run: seq<Point>, p: Point, far: Metres)
    requires Summarises(c, run)
    ensures Summarises(AddTo(c, p, far), run + [p])
  {
    hide Anchor;
    var longer := run + [p];
    AnchorPush(run, p);
    assert longer[..|run|] == run;
    if InOrder(longer) {
      PrefixInOrder(run, p);
      assert longer[|run| - 1].Time() <= longer[|run|].Time();
    }
  }

  lemma PrefixInOrder(run: seq<Point>, p: Point)
    ensures InOrder(run + [p]) ==> InOrder(run)
    ensures DistinctPhotos(run + [p]) ==> DistinctPhotos(run)
    ensures DistinctPhotos(run + [p]) ==> forall k :: 0 <= k < |run| ==> run[k].photoId != p.photoId
  {
    var longer := run + [p];
    assert forall i :: 0 <= i < |run| ==> longer[i] == run[i];
    assert longer[|run|] == p;
  }

  lemma DistancePush(run: seq<Point>, p: Point, far: Metres, k: nat)
    requires k < |run| && run[k].HasLocation()
    ensures (run + [p])[k] == run[k] && RecordedDistance(run + [p], k, far) == RecordedDistance(run, k, far)
  {
    assert (run + [p])[..k] == run[..k];
  }

  lemma LastDistance(run: seq<Point>, p: Point, far: Metres)
    requires p.HasLocation()
    ensures (run + [p])[|run|] == p
    ensures RecordedDistance(run + [p], |run|, far) ==
      if Anchor(run).None? then 0.0 else far(Anchor(run).value, p.Where().value)
  {
    assert (run + [p])[..|run|] == run;
  }

  lemma MeasuresPush(c: Cluster, run: seq<Point>, p: Point, far: Metres)
    requires Measures(c, run, far) && c.anchor == Anchor(run)
    ensures Measures(AddTo(c, p, far), run + [p], far)
  {
    hide Anchor, RecordedDistance;
    var longer, d := run + [p], AddTo(c, p, far);
    DistanceKeysPush(c, run, p, far);
    if DistinctPhotos(longer) {
      PrefixInOrder(run, p);
      forall k | 0 <= k < |longer| ensures Records(d, longer, k, far) {
        if k < |run| {
          assert Records(c, run, k, far) && longer[k] == run[k];
          if run[k].HasLocation() { DistancePush(run, p, far, k); }
        } else if p.HasLocation() {
          LastDistance(run, p, far);
        }
      }
    }
  }

  lemma SpansPush(m: real, run: seq<Point>, p: Point, far: Metres, w: real)
    requires Spans(m, run, far)
    requires p.HasLocation() ==> w == if Anchor(run).None? then 0.0 else far(Anchor(run).value, p.Where().value)
    ensures Spans(if p.HasLocation() && w > m then w else m, run + [p], far)
  {
    hide Anchor, RecordedDistance;
    var longer, n := run + [p], if p.HasLocation() && w > m then w else m;
    if p.HasLocation() { LastDistance(run, p, far); }
    forall k | 0 <= k < |longer| && longer[k].HasLocation() ensures RecordedDistance(longer, k, far) <= n {
      if k < |run| { DistancePush(run, p, far, k); }
    }
    if n != 0.0 {
      if n == m {
        var k :| 0 <= k < |run| && run[k].HasLocation() && RecordedDistance(run, k, far) == m;
        DistancePush(run, p, far, k);
      } else {
        assert longer[|run|] == p;
      }
    }
  }

  lemma DescribesPush(c: Cluster, run: seq<Point>, p: Point, far: Metres)
    requires Describes(c, run, far)
    ensures Describes(AddTo(c, p, far), run + [p], far)
  {
    hide Anchor, RecordedDistance, Measures;
    SummarisesPush(c, run, p, far);
    MeasuresPush(c, run, p, far);
    var w := if !p.HasLocation() || c.anchor.None? then 0.0 else far(c.anchor.value, p.Where().value);
    SpansPush(c.maxDistance, run, p, far, w);
    SpanAfter(c, p, far, w);
  }

  lemma SpanAfter(c: Cluster, p: Point, far: Metres, w: real)
    requires c.maxDistance >= 0.0 || c.anchor.Some?
    requires w == if !p.HasLocation() || c.anchor.None? then 0.0 else far(c.anchor.value, p.Where().value)
    ensures AddTo(c, p, far).maxDistance == if p.HasLocation() && w > c.maxDistance then w else c.maxDistance
  {}

  lemma AnchorPush(run: seq<Point>, p: Point)
    ensures Anchor(run + [p]) == if Anchor(run).Some? then Anchor(run) else p.Where()
  {
    assert (run + [p])[..|run|] == run;
  }

  lemma DistanceKeysPush(c: Cluster, run: seq<Point>, p: Point, far: Metres)
    requires forall id :: id in c.distances <==> LocatedIn(run, id)
    ensures forall id :: id in AddTo(c, p, far).distances <==> LocatedIn(run + [p], id)
  {
    var longer := run + [p];
    forall id ensures LocatedIn(longer, id) <==> LocatedIn(run, id) || (p.HasLocation() && p.photoId == id) {
      if LocatedIn(run, id) {
        var k :| 0 <= k < |run| && run[k].HasLocation() && run[k].photoId == id;
        assert longer[k].HasLocation() && longer[k].photoId == id;
      }
      assert longer[|run|] == p;
    }
  }

  lemma {:induction false} ClusterDescribesRun(run: seq<Point>, far: Metres)
    requires run != []
    ensures Describes(ClusterOf(run, far), run, far)
  {
    if |run| == 1 {
      assert run[..0] == [];
      assert run == [run[0]];
    } else {
      ClusterDescribesRun(run[..|run| - 1], far);
      DescribesPush(ClusterOf(run[..|run| - 1], far), run[..|run| - 1], run[|run| - 1], far);
      assert run == run[..|run| - 1] + [run[|run| - 1]];
    }
  }
}
