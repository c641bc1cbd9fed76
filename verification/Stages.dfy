/** What the per-photo stages write into a photo row and what the aggregate stages read from it
    (internal/ingest, internal/store): running stages again or in another order, and whether waiting for
    the stages a handler names is enough. */
module Stages {
  import opened Options
  import opened Jobs
  import opened JobQueue
  import opened QueueHistory
  import Clustering
  import Copies
  import Gate

  /** What EXTRACT_METADATA writes besides the state; all None is a row of NULLs. */
  datatype Metadata = Metadata(
    width: Option<nat>, height: Option<nat>, capturedAt: Option<int>, fromFilesystem: bool,
    latitude: Option<real>, longitude: Option<real>)

  const NULLS := Metadata(None, None, None, false, None, None)

  /** A file as a stage finds it: what can be read from it, or that it has gone. */
  datatype File = Gone | OnDisk(metadata: Option<Metadata>, sha256: string, phash: Option<bv64>, quality: Option<real>)

  datatype PhotoState = Discovered | Processing | Ready | Missing | Failed

  datatype PhotoRow = PhotoRow(
    id: string, path: string, size: nat, metadata: Metadata, state: PhotoState,
    sha256: Option<string>, phash: Option<bv64>, quality: Option<real>)

  const PHOTO_STAGES: set<JobType> :=
    {ExtractMetadata, ComputeFileHash, ComputePerceptualHash, AnalyzeQuality, GenerateThumbnail}

  // ----- what a stage writes -----

  function MarkedMissing(row: PhotoRow): PhotoRow { row.(metadata := NULLS, state := Missing) }

  /** The row after one run of a stage over the file. */
  function Handled(t: JobType, f: File, row: PhotoRow): PhotoRow {
    match t
    case ExtractMetadata =>
      if f.Gone? then MarkedMissing(row)
      else if f.metadata.None? then row.(metadata := NULLS, state := PhotoState.Failed)
      else row.(metadata := f.metadata.value, state := Processing)
    case ComputeFileHash =>
      if f.Gone? then MarkedMissing(row).(sha256 := None) else row.(sha256 := Some(f.sha256))
    case ComputePerceptualHash =>
      if f.Gone? then MarkedMissing(row).(phash := None) else row.(phash := f.phash)
    case AnalyzeQuality =>
      if f.Gone? then MarkedMissing(row)
      else if f.quality.Some? then row.(quality := f.quality) else row
    case GenerateThumbnail => if f.Gone? then MarkedMissing(row) else row
    case _ => row
  }

  function HandledAll(ts: seq<JobType>, f: File, row: PhotoRow): PhotoRow {
    if ts == [] then row else Handled(ts[|ts| - 1], f, HandledAll(ts[..|ts| - 1], f, row))
  }

  /** Some photo stage is among them. */
  predicate AnyStage(ts: seq<JobType>) { exists t :: t in ts && t in PHOTO_STAGES }

  /** What the columns hold once these stages have run, said without an order. */
  ghost predicate Settled(ts: seq<JobType>, f: File, before: PhotoRow, after: PhotoRow) {
    && after.id == before.id && after.path == before.path && after.size == before.size
    && after.metadata == (
      if f.Gone? then if AnyStage(ts) then NULLS else before.metadata
      else if ExtractMetadata !in ts then before.metadata
      else if f.metadata.Some? then f.metadata.value else NULLS)
    && after.state == (
      if f.Gone? then if AnyStage(ts) then Missing else before.state
      else if ExtractMetadata !in ts then before.state
      else if f.metadata.Some? then Processing else PhotoState.Failed)
    && after.sha256 == (if ComputeFileHash !in ts then before.sha256 else if f.Gone? then None else Some(f.sha256))
    && after.phash == (if ComputePerceptualHash !in ts then before.phash else if f.Gone? then None else f.phash)
    && after.quality == (if AnalyzeQuality in ts && f.OnDisk? && f.quality.Some? then f.quality else before.quality)
  }

  lemma {:induction false} AllSettle(ts: seq<JobType>, f: File, row: PhotoRow)
    ensures Settled(ts, f, row, HandledAll(ts, f, row))
  {
    if ts != [] {
      var init, t := ts[..|ts| - 1], ts[|ts| - 1];
      AllSettle(init, f, row);
      assert ts == init + [t];
      assert AnyStage(ts) <==> AnyStage(init) || t in PHOTO_STAGES by {
        if x :| x in init && x in PHOTO_STAGES { assert x in ts; }
        if t in PHOTO_STAGES { assert t in ts; }
      }
    }
  }

  /** At-least-once delivery is harmless: over one state of the file, the row depends only on which
      stages ran, not on their order or how often each did. */
  lemma RepeatsAndOrderDoNotMatter(a: seq<JobType>, b: seq<JobType>, f: File, row: PhotoRow)
    requires forall t :: t in a <==> t in b
    ensures HandledAll(a, f, row) == HandledAll(b, f, row)
  {
    AllSettle(a, f, row);
    AllSettle(b, f, row);
    assert AnyStage(a) <==> AnyStage(b) by {
      if x :| x in a && x in PHOTO_STAGES { assert x in b; }
      if x :| x in b && x in PHOTO_STAGES { assert x in a; }
    }
  }

  // ----- what a rebuild reads -----

  /** A photo as an aggregate stage sees it. */
  datatype Input = Unseen | Copy(id: string, sha256: string, size: nat, path: string) | Variant(photo: Copies.Photo)
    | Dated(point: Clustering.Point)

  function InputOf(aggregate: JobType, row: PhotoRow): Input {
    match aggregate
    case BuildDuplicateGroups =>
      if row.sha256.None? || row.state == Missing then Unseen else Copy(row.id, row.sha256.value, row.size, row.path)
    case BuildSimilarGroups =>
      if row.phash.None? || row.state == Missing then Unseen else Variant(AsPhoto(row))
    case BuildClusters =>
      if row.state == Missing || row.state == PhotoState.Failed then Unseen
      else
        var m := row.metadata;
        var located := m.latitude.Some? && m.longitude.Some?;
        Dated(Clustering.Point(row.id, m.capturedAt, m.fromFilesystem,
          if located then m.latitude else None, if located then m.longitude else None))
    case _ => Unseen
  }

  function AsPhoto(row: PhotoRow): Copies.Photo {
    Copies.Photo(row.id, row.sha256, row.phash, row.state == Missing, row.size, row.path,
                 row.metadata.width, row.metadata.height, row.quality)
  }

  /** Once every photo stage has run over a file, in any order and however often, the rebuilds read what
      the file holds: its hash; its perceptual hash, size in pixels and score, where it could be decoded;
      its date and, if both coordinates are there, its place. */
  lemma RebuildsReadTheFile(ts: seq<JobType>, f: File, row: PhotoRow)
    requires f.OnDisk? && forall t :: t in PHOTO_STAGES ==> t in ts
    ensures var after, m := HandledAll(ts, f, row), f.metadata;
      && InputOf(BuildDuplicateGroups, after) == Copy(row.id, f.sha256, row.size, row.path)
      && InputOf(BuildSimilarGroups, after) == (if f.phash.None? then Unseen else Variant(Copies.Photo(
           row.id, Some(f.sha256), f.phash, false, row.size, row.path,
           if m.Some? then m.value.width else None, if m.Some? then m.value.height else None,
           if f.quality.Some? then f.quality else row.quality)))
      && InputOf(BuildClusters, after) == (if m.None? then Unseen else Dated(Clustering.Point(
           row.id, m.value.capturedAt, m.value.fromFilesystem,
           if m.value.longitude.Some? then m.value.latitude else None,
           if m.value.latitude.Some? then m.value.longitude else None)))
  {
    AllSettle(ts, f, row);
  }

  /** Running the stage over a file that is there can change what the aggregate reads. */
  ghost predicate Affects(t: JobType, aggregate: JobType) {
    exists f: File, row: PhotoRow ::
      f.OnDisk? && row.state != Missing && InputOf(aggregate, Handled(t, f, row)) != InputOf(aggregate, row)
  }

  const PLAIN := PhotoRow("1", "a", 1, NULLS, Discovered, Some("g"), Some(0), None)
  const PICTURE := OnDisk(Some(Metadata(Some(3), Some(3), Some(0), false, None, None)), "h", Some(1), Some(1.0))

  lemma AffectedByPrerequisites(t: JobType, aggregate: JobType)
    requires aggregate in {BuildDuplicateGroups, BuildSimilarGroups, BuildClusters}
    requires t in Gate.Prerequisites(aggregate) || (t == ExtractMetadata && aggregate == BuildSimilarGroups)
    ensures Affects(t, aggregate)
  {
    assert InputOf(aggregate, Handled(t, PICTURE, PLAIN)) != InputOf(aggregate, PLAIN);
  }

  lemma UnaffectedByOthers(t: JobType, aggregate: JobType, f: File, row: PhotoRow)
    requires aggregate in {BuildDuplicateGroups, BuildSimilarGroups, BuildClusters}
    requires t !in Gate.Prerequisites(aggregate) && !(t == ExtractMetadata && aggregate == BuildSimilarGroups)
    requires f.OnDisk? && row.state != Missing
    ensures InputOf(aggregate, Handled(t, f, row)) == InputOf(aggregate, row) && Handled(t, f, row).state != Missing
  {}

  /** The stages a handler waits for are exactly those that can change what its rebuild reads - but for
      near-duplicates, whose rebuild also reads the width and height that EXTRACT_METADATA writes. */
  lemma PrerequisitesAreWhatMatters(t: JobType, aggregate: JobType)
    requires aggregate in {BuildDuplicateGroups, BuildSimilarGroups, BuildClusters}
    ensures Affects(t, aggregate) <==>
      t in Gate.Prerequisites(aggregate) || (t == ExtractMetadata && aggregate == BuildSimilarGroups)
  {
    if t in Gate.Prerequisites(aggregate) || (t == ExtractMetadata && aggregate == BuildSimilarGroups) {
      AffectedByPrerequisites(t, aggregate);
    } else if Affects(t, aggregate) {
      var f: File, row: PhotoRow :| f.OnDisk? && row.state != Missing && InputOf(aggregate, Handled(t, f, row)) != InputOf(aggregate, row);
      UnaffectedByOthers(t, aggregate, f, row);
    }
  }

  /** Stages one after another, each over the file as it is by then. */
  function HandledOver(steps: seq<(JobType, File)>, row: PhotoRow): PhotoRow {
    if steps == [] then row
    else Handled(steps[|steps| - 1].0, steps[|steps| - 1].1, HandledOver(steps[..|steps| - 1], row))
  }

  /** Once nothing that affects it is left to do, no later stage changes what the rebuild read. */
  lemma {:induction false} InputIsFinal(aggregate: JobType, row: PhotoRow, steps: seq<(JobType, File)>)
    requires row.state != Missing
    requires forall k :: 0 <= k < |steps| ==> steps[k].1.OnDisk? && !Affects(steps[k].0, aggregate)
    ensures InputOf(aggregate, HandledOver(steps, row)) == InputOf(aggregate, row)
    ensures HandledOver(steps, row).state != Missing
  {
    hide InputOf, Affects;
    if steps != [] {
      var init, last := steps[..|steps| - 1], steps[|steps| - 1];
      InputIsFinal(aggregate, row, init);
      StaysSeen(last.0, last.1, HandledOver(init, row));
      UnaffectedOnce(last.0, aggregate, last.1, HandledOver(init, row));
    }
  }

  lemma StaysSeen(t: JobType, f: File, row: PhotoRow)
    requires f.OnDisk? && row.state != Missing
    ensures Handled(t, f, row).state != Missing
  {}

  lemma UnaffectedOnce(t: JobType, aggregate: JobType, f: File, row: PhotoRow)
    requires f.OnDisk? && row.state != Missing && !Affects(t, aggregate)
    ensures InputOf(aggregate, Handled(t, f, row)) == InputOf(aggregate, row)
  {}

  /** A file that has gone leaves every rebuild's input, whichever stage notices. */
  lemma GoneIsUnseen(t: JobType, aggregate: JobType, row: PhotoRow)
    requires t in PHOTO_STAGES
    ensures InputOf(aggregate, Handled(t, Gone, row)) == Unseen
  {}

  // ----- what is left to do at a rebuild -----

  /** No work left for the library can change what the rebuild reads of a file that stays. */
  ghost predicate NothingPending(s: State, libraryId: string, aggregate: JobType) {
    forall id :: id in s.jobs && s.jobs[id].libraryId == libraryId && s.jobs[id].status.IsLive() ==>
      !Affects(s.jobs[id].jobType, aggregate)
  }

  ghost predicate CountsHold(es: Run, counts: seq<nat>, rebuild: nat, libraryId: string, aggregate: JobType) {
    IsRun(es) && Gate.CountedZero(es, counts, rebuild, libraryId, aggregate)
    && forall i, m :: 0 <= i < |counts| && counts[i] <= m < rebuild ==>
      !Gate.Brings(es[m], libraryId, Gate.Prerequisites(aggregate)[i])
  }

  /** Exact duplicates and events are rebuilt when nothing is left to do that could change their input. */
  lemma RebuildHasFinalInput(es: Run, counts: seq<nat>, rebuild: nat, libraryId: string, aggregate: JobType)
    requires CountsHold(es, counts, rebuild, libraryId, aggregate)
    requires aggregate in {BuildDuplicateGroups, BuildClusters}
    ensures NothingPending(At(es, rebuild), libraryId, aggregate)
  {
    hide At, IsRun, Affects;
    Gate.RebuildSeesFinishedWork(es, counts, rebuild, libraryId, aggregate);
    var s := At(es, rebuild);
    forall id | id in s.jobs && s.jobs[id].libraryId == libraryId && s.jobs[id].status.IsLive()
      ensures !Affects(s.jobs[id].jobType, aggregate)
    {
      PrerequisitesAreWhatMatters(s.jobs[id].jobType, aggregate);
      assert Gate.IsWork(QueueHistory.Row(es, rebuild, id), libraryId, s.jobs[id].jobType);
    }
  }

  /** Near-duplicates are, exactly when no EXTRACT_METADATA job of the library is outstanding either. */
  lemma SimilarHasFinalInputIff(es: Run, counts: seq<nat>, rebuild: nat, libraryId: string)
    requires CountsHold(es, counts, rebuild, libraryId, BuildSimilarGroups)
    ensures NothingPending(At(es, rebuild), libraryId, BuildSimilarGroups) <==>
      Gate.NoneLive(At(es, rebuild), libraryId, ExtractMetadata)
  {
    hide At, IsRun, Affects;
    Gate.RebuildSeesFinishedWork(es, counts, rebuild, libraryId, BuildSimilarGroups);
    var s := At(es, rebuild);
    forall id | id in s.jobs && s.jobs[id].libraryId == libraryId && s.jobs[id].status.IsLive()
      ensures Affects(s.jobs[id].jobType, BuildSimilarGroups) <==> s.jobs[id].jobType == ExtractMetadata
    {
      PrerequisitesAreWhatMatters(s.jobs[id].jobType, BuildSimilarGroups);
      assert Gate.IsWork(QueueHistory.Row(es, rebuild, id), libraryId, s.jobs[id].jobType);
    }
  }
}
