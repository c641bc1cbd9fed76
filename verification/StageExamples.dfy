/** A near-duplicate rebuild that runs while a photo's dimensions are still unread: every count its
    handler takes is zero, and it recommends keeping the smaller picture. */
module StageExamples {
  import opened Options
  import opened Jobs
  import opened JobQueue
  import opened QueueHistory
  import opened Ranking
  import opened Sorting
  import opened Similar
  import opened Determinism
  import opened Copies
  import opened SimilarRebuild
  import Chains
  import Hamming
  import Gate
  import Paging
  import ReclaimExamples
  import Stages

  // ----- the run -----

  const METADATA := NewPhotoJob(ExtractMetadata, "1", "L")
  const DUPLICATES := NewLibraryJob(BuildDuplicateGroups, "L")
  const SIMILAR := NewLibraryJob(BuildSimilarGroups, "L")
  const CLUSTERS := NewLibraryJob(BuildClusters, "L")

  /** A fan-out finds one photo without metadata; a worker claims its job and the aggregates together. */
  const EARLY: Run := [
    Registered("W", 0),
    Enqueued([METADATA], 0),
    Enqueued(Paging.AggregateBatch("L"), 0),
    Claimed("W", 4, 60 * SECOND, {}, {0, 1, 2, 3}, 0)]

  function Waiting(): map<JobId, Job> {
    map[0 := NewJob(METADATA, 0), 1 := NewJob(DUPLICATES, 0), 2 := NewJob(SIMILAR, 0), 3 := NewJob(CLUSTERS, 0)]
  }

  lemma KeysDiffer()
    ensures forall e, f :: e in [METADATA, DUPLICATES, SIMILAR, CLUSTERS] && f in [METADATA, DUPLICATES, SIMILAR, CLUSTERS] && e != f ==>
      DedupeKey(e.jobType, e.targetId) != DedupeKey(f.jobType, f.targetId)
  {
    hide DedupeKey;
    forall e, f | e in [METADATA, DUPLICATES, SIMILAR, CLUSTERS] && f in [METADATA, DUPLICATES, SIMILAR, CLUSTERS] && e != f
      ensures DedupeKey(e.jobType, e.targetId) != DedupeKey(f.jobType, f.targetId)
    {
      DedupeKeyInjective(e.jobType, e.targetId, f.jobType, f.targetId);
    }
  }

  lemma MetadataEnqueued(s: State)
    requires s.jobs == map[] && s.nextId == 0
    ensures var t := Next(s, EARLY[1]); t.jobs == map[0 := NewJob(METADATA, 0)] && t.nextId == 1 && t.workers == s.workers
  {
    Gate.OneEnqueued(s, METADATA);
  }

  lemma AggregatesEnqueued(s: State)
    requires s.jobs == map[0 := NewJob(METADATA, 0)] && s.nextId == 1
    ensures var t := Next(s, EARLY[2]); t.jobs == Waiting() && t.workers == s.workers
  {
    KeysDiffer();
    Gate.ThreeEnqueued(s, DUPLICATES, SIMILAR, CLUSTERS);
    assert Paging.AggregateBatch("L") == [DUPLICATES, SIMILAR, CLUSTERS];
    hide EnqueueAll, DedupeKey;
    var t1 := EnqueueOne(s, DUPLICATES, 0);
    assert t1.jobs == map[0 := NewJob(METADATA, 0), 1 := NewJob(DUPLICATES, 0)];
    var t2 := EnqueueOne(t1, SIMILAR, 0);
    assert t2.jobs == map[0 := NewJob(METADATA, 0), 1 := NewJob(DUPLICATES, 0), 2 := NewJob(SIMILAR, 0)];
  }

  lemma AllClaimed(s: State)
    requires s.jobs == Waiting() && "W" in s.workers
    ensures Valid(s, EARLY[3])
    ensures var t := Next(s, EARLY[3]);
      t.jobs.Keys == Waiting().Keys && forall id :: id in t.jobs ==> t.jobs[id] == Leased(Waiting()[id], "W", 60 * SECOND, 0)
  {
    assert Claimable(s, {}, 0) == {0, 1, 2, 3};
    assert IsClaimChoice(s, 4, {}, 0, {0, 1, 2, 3});
  }

  lemma EarlyStep(k: nat)
    requires k < |EARLY|
    ensures QueueHistory.At(EARLY, k + 1) == Next(QueueHistory.At(EARLY, k), EARLY[k])
  {}

  lemma WorkerRegistered()
    ensures var s := QueueHistory.At(EARLY, 1); s.jobs == map[] && s.nextId == 0 && "W" in s.workers
  {
    assert QueueHistory.At(EARLY, 1) == Next(EMPTY, EARLY[0]);
  }

  lemma EarlyStates()
    ensures IsRun(EARLY)
    ensures QueueHistory.At(EARLY, 4).jobs.Keys == {0, 1, 2, 3}
    ensures forall id :: id in QueueHistory.At(EARLY, 4).jobs ==>
      QueueHistory.At(EARLY, 4).jobs[id] == Leased(Waiting()[id], "W", 60 * SECOND, 0)
  {
    WorkerRegistered();
    hide QueueHistory.At, Next, Valid, Leased, NewJob, IsRun;
    EarlyStep(1);
    MetadataEnqueued(QueueHistory.At(EARLY, 1));
    EarlyStep(2);
    AggregatesEnqueued(QueueHistory.At(EARLY, 2));
    EarlyStep(3);
    AllClaimed(QueueHistory.At(EARLY, 3));
    EarlyIsRun();
  }

  lemma EarlyIsRun()
    requires Valid(QueueHistory.At(EARLY, 3), EARLY[3])
    ensures IsRun(EARLY)
  {
    hide QueueHistory.At;
    forall k | 0 <= k < |EARLY| ensures Valid(QueueHistory.At(EARLY, k), EARLY[k]) {
      if k != 3 { assert !EARLY[k].Claimed?; }
    }
  }

  /** All three counts are zero, the rebuild runs, and the photo's metadata job is still running. */
  lemma SimilarRebuildMayRunEarly()
    ensures IsRun(EARLY) && Stages.CountsHold(EARLY, [4, 4, 4], 4, "L", BuildSimilarGroups)
    ensures !Gate.NoneLive(QueueHistory.At(EARLY, 4), "L", ExtractMetadata)
    ensures !Stages.NothingPending(QueueHistory.At(EARLY, 4), "L", BuildSimilarGroups)
  {
    EarlyStates();
    hide QueueHistory.At, IsRun, Stages.NothingPending;
    var s := QueueHistory.At(EARLY, 4);
    assert s.jobs[0].status == Running && s.jobs[0].jobType == ExtractMetadata && s.jobs[0].libraryId == "L";
    assert forall id :: id in s.jobs ==> s.jobs[id].jobType in {ExtractMetadata, BuildDuplicateGroups, BuildSimilarGroups, BuildClusters};
    assert Gate.CountedZero(EARLY, [4, 4, 4], 4, "L", BuildSimilarGroups);
    Stages.SimilarHasFinalInputIff(EARLY, [4, 4, 4], 4, "L");
  }

  // ----- what it recommends -----

  /** Two renderings of one picture: the first 3 by 3 on disk, the second 2 by 2 and already read. */
  const LARGE := Stages.OnDisk(Some(Stages.Metadata(Some(3), Some(3), None, false, None, None)), "g", Some(0), None)

  function First(metadata: Stages.Metadata): Stages.PhotoRow {
    Stages.PhotoRow("1", "a", 1, metadata, Stages.Discovered, Some("g"), Some(0), None)
  }

  const SECOND_ROW := Stages.PhotoRow(
    "2", "b", 1, Stages.Metadata(Some(2), Some(2), None, false, None, None), Stages.Processing, Some("h"), Some(0), None)

  /** The library before and after the metadata job of the first photo. */
  function LibraryAt(read: bool): Library {
    var first := First(Stages.NULLS);
    [Stages.AsPhoto(if read then Stages.Handled(ExtractMetadata, LARGE, first) else first), Stages.AsPhoto(SECOND_ROW)]
  }

  function CandidatesAt(read: bool): seq<Candidate> {
    var edge := if read then 3 else 0;
    [Candidate("1", 0, edge, edge, 1, "a", None), Candidate("2", 0, 2, 2, 1, "b", None)]
  }

  function GroupAt(read: bool): Ranked {
    if read then Ranked([0, 1], Group(["1", "2"], "1", 0, map["1" := 0, "2" := 0]))
    else Ranked([1, 0], Group(["2", "1"], "2", 0, map["1" := 0, "2" := 0]))
  }

  lemma LoadedAt(read: bool, cs: seq<Candidate>, rows: seq<nat>)
    ensures Loaded(LibraryAt(read), StrLess, cs, rows) <==> cs == CandidatesAt(read) && rows == [0, 1]
  {
    var lib := LibraryAt(read);
    assert HashedCopiesOf(lib, "g") == {0} && HashedCopiesOf(lib, "h") == {1};
    forall i: nat ensures IsCandidate(lib, StrLess, i) <==> i == 0 || i == 1 {}
    hide IsCandidate;
    if Loaded(lib, StrLess, cs, rows) { BothAscending(rows); }
  }

  lemma BothAscending(rows: seq<nat>)
    requires forall a, b :: 0 <= a < b < |rows| ==> rows[a] < rows[b]
    requires forall i: nat :: i in rows <==> i == 0 || i == 1
    ensures rows == [0, 1]
  {
    assert forall k :: 0 <= k < |rows| ==> rows[k] in rows;
    assert 0 in rows && 1 in rows;
    ReclaimExamples.ThirdIsFurther(rows);
  }

  lemma CandidatesNear(read: bool)
    ensures var cs := CandidatesAt(read);
      Distance(cs, 0, 1) == 0 && Distance(cs, 1, 0) == 0 && Distance(cs, 0, 0) == 0 && Distance(cs, 1, 1) == 0
      && forall i, j :: 0 <= i < 2 && 0 <= j < 2 ==> Joined(cs, ReclaimExamples.THRESHOLD, i, j)
  {
    hide Chains.Chain, Hamming.HammingDistance;
    var cs := CandidatesAt(read);
    Hamming.Identity(0, 0);
    assert (0, 1) in Near(cs, ReclaimExamples.THRESHOLD);
    forall i, j | 0 <= i < 2 && 0 <= j < 2 ensures Joined(cs, ReclaimExamples.THRESHOLD, i, j) {
      Chains.OneStep(Near(cs, ReclaimExamples.THRESHOLD), i, j);
    }
  }

  lemma LargerIsPreferred(read: bool)
    ensures var cs := CandidatesAt(read); var (a, b) := if read then (cs[0], cs[1]) else (cs[1], cs[0]); !Prefers(b, a)
  {}

  lemma ComponentAt(read: bool)
    ensures IsComponent(CandidatesAt(read), ReclaimExamples.THRESHOLD, GroupAt(read).order)
  {
    CandidatesNear(read);
    hide Distance, Chains.Chain, Near;
  }

  lemma DescribedAt(read: bool)
    ensures Describes(GroupAt(read).group, CandidatesAt(read), GroupAt(read).order)
  {
    CandidatesNear(read);
    hide Distance, Chains.Chain, Near;
    assert IsWidest(CandidatesAt(read), GroupAt(read).order, 0);
  }

  lemma GroupIsGood(read: bool)
    ensures GoodGroup(CandidatesAt(read), ReclaimExamples.THRESHOLD, GroupAt(read))
  {
    var cs, r := CandidatesAt(read), GroupAt(read);
    ComponentAt(read);
    DescribedAt(read);
    LargerIsPreferred(read);
    hide Prefers, IsComponent, Describes, TiesCarryOver;
    assert Pick(cs, r.order) == if read then [cs[0], cs[1]] else [cs[1], cs[0]];
  }

  lemma GroupingAt(read: bool)
    ensures IsGrouping(CandidatesAt(read), ReclaimExamples.THRESHOLD, [GroupAt(read)])
    ensures AllTiesCarryOver(CandidatesAt(read), [GroupAt(read)]) && DistinctIds(CandidatesAt(read))
  {
    GroupIsGood(read);
    hide GoodGroup, Chains.Chain, Near;
    var cs, out := CandidatesAt(read), [GroupAt(read)];
    forall i, j | i != j && Joined(cs, ReclaimExamples.THRESHOLD, i, j) ensures exists g :: 0 <= g < |out| && i in out[g].order {
      assert i in out[0].order;
    }
  }

  /** The groups a rebuild over the library stores. */
  ghost predicate Stores(lib: Library, out: seq<Ranked>) {
    exists cs, rows, reclaimable :: Rebuilt(lib, StrLess, ReclaimExamples.THRESHOLD, cs, rows, out, reclaimable)
  }

  lemma StoresAt(read: bool, out: seq<Ranked>)
    ensures Stores(LibraryAt(read), out) <==> out == [GroupAt(read)]
  {
    var lib, good := LibraryAt(read), CandidatesAt(read);
    GroupingAt(read);
    LoadedAt(read, good, [0, 1]);
    hide IsGrouping, Loaded, LibraryAt, CandidatesAt, AllTiesCarryOver, DistinctIds;
    if Stores(lib, out) {
      var cs, rows, r :| Rebuilt(lib, StrLess, ReclaimExamples.THRESHOLD, cs, rows, out, r);
      LoadedAt(read, cs, rows);
      GroupingUnique(good, ReclaimExamples.THRESHOLD, [GroupAt(read)], out);
    }
    RebuildsTo(read);
  }

  lemma RebuildsTo(read: bool)
    ensures Stores(LibraryAt(read), [GroupAt(read)])
  {
    var lib, cs, out := LibraryAt(read), CandidatesAt(read), [GroupAt(read)];
    GroupingAt(read);
    LoadedAt(read, cs, [0, 1]);
    PathsDiffer(read);
    ReclaimExamples.StrLessIsTotal();
    FoundAreReviewed(lib, StrLess, cs, [0, 1], ReclaimExamples.THRESHOLD, out);
    var found := FoundRows(cs, [0, 1], out);
    GroupsHoldOneCopy(lib, StrLess, found);
    SimilarTotalIs(lib, StrLess, found);
    hide IsGrouping, Loaded, LibraryAt, ReviewGroups, AllInLibrary, OneCopyPerGroup, SimilarTotal, Total, Dropped;
    assert Rebuilt(lib, StrLess, ReclaimExamples.THRESHOLD, cs, [0, 1], out, SimilarTotal(lib, found));
  }

  lemma PathsDiffer(read: bool)
    ensures DistinctPaths(LibraryAt(read))
  {
    assert "a"[0] != "b"[0];
  }

  /** Rebuilt before the metadata job ends, the library keeps the smaller picture; rebuilt after it, the
      larger. */
  lemma EarlyRebuildKeepsSmaller(early: seq<Ranked>, late: seq<Ranked>)
    ensures Stores(LibraryAt(false), early) <==> early == [GroupAt(false)]
    ensures Stores(LibraryAt(true), late) <==> late == [GroupAt(true)]
    ensures GroupAt(false).group.suggestedKeepId == "2" && GroupAt(true).group.suggestedKeepId == "1"
  {
    StoresAt(false, early);
    StoresAt(true, late);
  }
}
