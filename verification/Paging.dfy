/** The fan-out (internal/ingest/scanner.go, EnqueuePhotoJobs): keyset paging over sets that workers
    shrink and grow while they are being paged, then the aggregate jobs. */
module Paging {
  import opened Options
  import opened Jobs

  type PhotoId = nat

  /** Photos after the cursor; the empty cursor is before all of them. */
  function Beyond(s: set<PhotoId>, cursor: Option<PhotoId>): set<PhotoId> {
    set id | id in s && (cursor.None? || id > cursor.value)
  }

  predicate Ascending(ids: seq<PhotoId>) {
    forall i, j :: 0 <= i < j < |ids| ==> ids[i] < ids[j]
  }

  /** `page` is SELECT id ... AND id > cursor ORDER BY id LIMIT limit, over the set `s`. */
  ghost predicate IsPage(page: seq<PhotoId>, s: set<PhotoId>, cursor: Option<PhotoId>, limit: nat) {
    var all := Beyond(s, cursor);
    && Ascending(page)
    && (forall id :: id in page ==> id in all)
    && |page| <= limit
    && (|page| < limit ==> forall id :: id in all ==> id in page)
    && (forall id :: id in all && id !in page ==> forall x :: x in page ==> x < id)
  }

  lemma {:induction false} Least(s: set<PhotoId>) returns (m: PhotoId)
    requires s != {}
    ensures m in s && forall y :: y in s ==> m <= y
  {
    m :| m in s;
    var x, rest := m, s - {m};
    assert forall y :: y in s ==> y == x || y in rest;
    if rest != {} {
      var y := Least(rest);
      if y < m { m := y; }
    }
  }

  lemma PageGrows(page: seq<PhotoId>, x: PhotoId)
    requires Ascending(page) && forall y :: y in page ==> y < x
    ensures Ascending(page + [x])
  {
    assert forall i :: 0 <= i < |page| ==> page[i] in page;
  }

  method ListPage(s: set<PhotoId>, cursor: Option<PhotoId>, limit: nat) returns (page: seq<PhotoId>)
    ensures IsPage(page, s, cursor, limit)
  {
    var all := Beyond(s, cursor);
    hide Beyond, Ascending;
    var rest := all;
    page := [];
    assert Ascending(page) by { EmptyAscends(); }
    while rest != {} && |page| < limit
      invariant Ascending(page) && |page| <= limit
      invariant forall id :: id in all <==> id in page || id in rest
      invariant forall id, x :: id in rest && x in page ==> x < id
      decreases |rest|
    {
      ghost var least := Least(rest);
      var x :| x in rest && forall y :: y in rest ==> x <= y;
      PageGrows(page, x);
      rest, page := rest - {x}, page + [x];
    }
  }

  lemma EmptyAscends()
    ensures Ascending([])
  {}

  /** What one type's paging returned: the pages, in order, and whether it ran to the end. */
  datatype Pages = Pages(pages: seq<seq<PhotoId>>, finished: bool)

  ghost predicate InPages(pages: seq<seq<PhotoId>>, id: PhotoId) {
    exists p :: 0 <= p < |pages| && id in pages[p]
  }

  /** Pages follow one another: no id twice, whatever happened to the sets in between. */
  ghost predicate StrictlyLater(pages: seq<seq<PhotoId>>) {
    (forall p :: 0 <= p < |pages| ==> Ascending(pages[p]))
    && forall p, q, x, y :: 0 <= p < q < |pages| && x in pages[p] && y in pages[q] ==> x < y
  }

  /** Everything at or below the cursor that needed work at every read so far has been returned. */
  ghost predicate CoveredUpTo(pages: seq<seq<PhotoId>>, needs: nat -> set<PhotoId>, universe: set<PhotoId>,
                              cursor: Option<PhotoId>) {
    forall id :: id in universe - Beyond(universe, cursor) && (forall p :: 0 <= p < |pages| ==> id in needs(p)) ==>
      InPages(pages, id)
  }

  /** Pages through `needs(p)`, the set as the p-th read finds it. `cancelled(p)` is the context
      check before that read. The sets may change arbitrarily inside the finite `universe`.

      No id is returned twice; every id returned needed work when its page was read; and every id
      that needs work at each read is returned. The loop ends because the cursor only moves up. */
  method PageThrough(needs: nat -> set<PhotoId>, cancelled: nat -> bool, universe: set<PhotoId>, pageSize: nat)
      returns (r: Pages)
    requires pageSize > 0
    requires forall p :: needs(p) <= universe
    ensures StrictlyLater(r.pages)
    ensures forall p, i, q, j :: OnPage(r.pages, p, i) && OnPage(r.pages, q, j) && r.pages[p][i] == r.pages[q][j] ==> p == q && i == j
    ensures forall p, id :: 0 <= p < |r.pages| && id in r.pages[p] ==> id in needs(p)
    ensures forall p :: 0 <= p < |r.pages| ==> 0 < |r.pages[p]| <= pageSize
    ensures r.finished ==>
      forall id :: (forall p :: 0 <= p <= |r.pages| ==> id in needs(p)) ==> InPages(r.pages, id)
    ensures !r.finished ==> cancelled(|r.pages|)
  {
    hide Ascending;
    var pages, cursor := [], None;
    while true
      invariant StrictlyLater(pages)
      invariant forall p, id :: 0 <= p < |pages| && id in pages[p] ==> id in needs(p)
      invariant forall p :: 0 <= p < |pages| ==> 0 < |pages[p]| <= pageSize
      invariant cursor.None? ==> pages == []
      invariant cursor.Some? ==> forall p, x :: 0 <= p < |pages| && x in pages[p] ==> x <= cursor.value
      invariant CoveredUpTo(pages, needs, universe, cursor)
      decreases |Beyond(universe, cursor)|
    {
      LaterRepeatsNothing(pages);
      if cancelled(|pages|) {
        return Pages(pages, false);
      }
      var ids := ListPage(needs(|pages|), cursor, pageSize);
      if |ids| == 0 {
        forall id | forall p :: 0 <= p <= |pages| ==> id in needs(p)
          ensures InPages(pages, id)
        {
          assert id in needs(|pages|);
          assert id !in Beyond(needs(|pages|), cursor);
        }
        return Pages(pages, true);
      }
      ghost var before := pages;
      var last := ids[|ids| - 1];
      LastIsGreatest(ids);
      assert last in ids;
      pages := pages + [ids];
      ExtendedCovers(before, ids, needs, universe, cursor, pageSize);
      if |ids| < pageSize {
        LaterRepeatsNothing(pages);
        assert forall id :: (forall p :: 0 <= p <= |pages| ==> id in needs(p)) ==> id in needs(|before|);
        return Pages(pages, true);
      }
      assert Beyond(universe, Some(last)) < Beyond(universe, cursor) by {
        assert last in Beyond(universe, cursor) && last !in Beyond(universe, Some(last));
      }
      SmallerSet(Beyond(universe, Some(last)), Beyond(universe, cursor));
      cursor := Some(last);
    }
  }

  predicate OnPage(pages: seq<seq<PhotoId>>, p: int, i: int) { 0 <= p < |pages| && 0 <= i < |pages[p]| }

  lemma LaterRepeatsNothing(pages: seq<seq<PhotoId>>)
    requires StrictlyLater(pages)
    ensures forall p, i, q, j :: OnPage(pages, p, i) && OnPage(pages, q, j) && pages[p][i] == pages[q][j] ==> p == q && i == j
  {
    forall p, i, q, j | OnPage(pages, p, i) && OnPage(pages, q, j) && pages[p][i] == pages[q][j]
      ensures p == q && i == j
    {
      assert pages[p][i] in pages[p] && pages[q][j] in pages[q];
    }
  }

  lemma LastIsGreatest(ids: seq<PhotoId>)
    requires Ascending(ids) && |ids| > 0
    ensures forall x :: x in ids ==> x <= ids[|ids| - 1]
  {}

  lemma SmallerSet<T>(a: set<T>, b: set<T>)
    requires a < b
    ensures |a| < |b|
  {
    assert b == a + (b - a);
    assert b - a != {};
  }

  /** One more page keeps the coverage, up to its last id - or to the end when the page is short. */
  lemma ExtendedCovers(before: seq<seq<PhotoId>>, ids: seq<PhotoId>, needs: nat -> set<PhotoId>,
                       universe: set<PhotoId>, cursor: Option<PhotoId>, pageSize: nat)
    requires IsPage(ids, needs(|before|), cursor, pageSize) && |ids| > 0
    requires forall p :: needs(p) <= universe
    requires CoveredUpTo(before, needs, universe, cursor)
    ensures CoveredUpTo(before + [ids], needs, universe, Some(ids[|ids| - 1]))
    ensures |ids| < pageSize ==>
      forall id :: (forall p :: 0 <= p <= |before| ==> id in needs(p)) ==> InPages(before + [ids], id)
  {
    var pages := before + [ids];
    var last := ids[|ids| - 1];
    forall id | (forall p :: 0 <= p <= |before| ==> id in needs(p)) && (id <= last || |ids| < pageSize)
      ensures InPages(pages, id)
    {
      assert id in needs(|before|);
      if id in Beyond(universe, cursor) {
        assert id in Beyond(needs(|before|), cursor);
        assert last in ids;
        assert id in ids;
        assert id in pages[|before|];
      } else {
        assert InPages(before, id);
        var p :| 0 <= p < |before| && id in before[p];
        assert id in pages[p];
      }
    }
  }

  // ----- the fan-out -----

  const PER_PHOTO: seq<JobType> :=
    [ExtractMetadata, ComputeFileHash, ComputePerceptualHash, AnalyzeQuality, GenerateThumbnail]

  const PAGE_SIZE := 1000

  function PhotoBatch(t: JobType, ids: seq<PhotoId>, uuid: PhotoId -> string, libraryId: string): seq<Enqueue> {
    seq(|ids|, i requires 0 <= i < |ids| => NewPhotoJob(t, uuid(ids[i]), libraryId))
  }

  function AggregateBatch(libraryId: string): seq<Enqueue> {
    [NewLibraryJob(BuildDuplicateGroups, libraryId),
     NewLibraryJob(BuildSimilarGroups, libraryId),
     NewLibraryJob(BuildClusters, libraryId)]
  }

  /** Some batch asks for this photo and this kind of work. */
  ghost predicate Requested(batches: seq<seq<Enqueue>>, t: JobType, photo: string, libraryId: string) {
    exists b :: 0 <= b < |batches| && NewPhotoJob(t, photo, libraryId) in batches[b]
  }

  /** The entry asks for work of some type on a photo that a read of that type found needing it. */
  ghost predicate IsNeeded(e: Enqueue, needs: (JobType, nat) -> set<PhotoId>, uuid: PhotoId -> string, libraryId: string) {
    exists t, p, id :: t in PER_PHOTO && id in needs(t, p) && e == NewPhotoJob(t, uuid(id), libraryId)
  }

  /** How many rows the first n batches added; `added(b)` is what EnqueueJobs returned for the b-th. */
  function SumTo(added: nat -> nat, n: nat): nat {
    if n == 0 then 0 else SumTo(added, n - 1) + added(n - 1)
  }

  /** Photo requests only, for this library, each for a photo that needed the work. */
  ghost predicate AllNeeded(batches: seq<seq<Enqueue>>, needs: (JobType, nat) -> set<PhotoId>, uuid: PhotoId -> string,
                            libraryId: string) {
    forall b, e :: 0 <= b < |batches| && e in batches[b] ==>
      e.libraryId == libraryId && e.targetType == TargetPhoto && IsNeeded(e, needs, uuid, libraryId)
  }

  predicate IsPageOf(batch: seq<Enqueue>, t: JobType) { batch != [] && batch[0].jobType == t }

  /** How many of the batches are pages of the type. */
  function PagesOf(batches: seq<seq<Enqueue>>, t: JobType): nat {
    if batches == [] then 0
    else PagesOf(batches[..|batches| - 1], t) + if IsPageOf(batches[|batches| - 1], t) then 1 else 0
  }

  /** Every photo that needed work of the type at the read of each of its pages, and at the one after them
      that finds nothing more, is asked for. */
  ghost predicate Covers(batches: seq<seq<Enqueue>>, t: JobType, needs: (JobType, nat) -> set<PhotoId>,
                         uuid: PhotoId -> string, libraryId: string) {
    forall id :: (forall p :: 0 <= p <= PagesOf(batches, t) ==> id in needs(t, p)) ==>
      Requested(batches, t, uuid(id), libraryId)
  }

  lemma {:induction false} PagesAdd(a: seq<seq<Enqueue>>, b: seq<seq<Enqueue>>, t: JobType)
    ensures PagesOf(a + b, t) == PagesOf(a, t) + PagesOf(b, t)
  {
    if b == [] {
      assert a + b == a;
    } else {
      assert (a + b)[..|a + b| - 1] == a + b[..|b| - 1];
      PagesAdd(a, b[..|b| - 1], t);
    }
  }

  lemma {:induction false} AllPagesOf(batches: seq<seq<Enqueue>>, t: JobType)
    requires forall b :: 0 <= b < |batches| ==> IsPageOf(batches[b], t)
    ensures PagesOf(batches, t) == |batches|
  {
    if batches != [] { AllPagesOf(batches[..|batches| - 1], t); }
  }

  /** No statement inserts more than a thousand rows. */
  ghost predicate BatchesAreSmall(batches: seq<seq<Enqueue>>) { forall b :: 0 <= b < |batches| ==> |batches[b]| <= 1000 }

  /** The batches of one type. */
  method EnqueueType(t: JobType, needs: (JobType, nat) -> set<PhotoId>, cancelled: (JobType, nat) -> bool,
                     universe: set<PhotoId>, uuid: PhotoId -> string, libraryId: string)
      returns (batches: seq<seq<Enqueue>>, finished: bool)
    requires t in PER_PHOTO && forall u, p :: needs(u, p) <= universe
    ensures AllNeeded(batches, needs, uuid, libraryId)
    ensures finished ==> Covers(batches, t, needs, uuid, libraryId)
    ensures !finished ==> exists p :: cancelled(t, p)
    ensures BatchesAreSmall(batches)
  {
    var r := PageThrough((p: nat) => needs(t, p), (p: nat) => cancelled(t, p), universe, PAGE_SIZE);
    batches := seq(|r.pages|, p requires 0 <= p < |r.pages| => PhotoBatch(t, r.pages[p], uuid, libraryId));
    finished := r.finished;
    BatchesAreNeeded(t, r.pages, needs, uuid, libraryId, batches);
    forall b | 0 <= b < |batches| ensures IsPageOf(batches[b], t) { assert |r.pages[b]| > 0; }
    AllPagesOf(batches, t);
    if finished {
      forall id | forall p :: 0 <= p <= PagesOf(batches, t) ==> id in needs(t, p)
        ensures Requested(batches, t, uuid(id), libraryId)
      {
        PageIsRequested(r.pages, t, id, uuid, libraryId, batches);
      }
    }
  }

  /** The batches handed to EnqueueJobs, in order. `needs(t, p)` is the set of photos needing work of
      type t as that type's p-th page read finds it, `added(b)` what EnqueueJobs returned for the b-th
      batch. Unless cancelled, the aggregates come last, after a request for every photo that needed
      work at each read of its type. */
  method EnqueuePhotoJobs(needs: (JobType, nat) -> set<PhotoId>, cancelled: (JobType, nat) -> bool,
                          universe: set<PhotoId>, uuid: PhotoId -> string, libraryId: string, added: nat -> nat)
      returns (batches: seq<seq<Enqueue>>, finished: bool, total: nat)
    requires forall t, p :: needs(t, p) <= universe
    ensures finished ==> |batches| > 0 && batches[|batches| - 1] == AggregateBatch(libraryId)
    ensures AllNeeded(batches[..if finished then |batches| - 1 else |batches|], needs, uuid, libraryId)
    ensures finished ==> forall t :: t in PER_PHOTO ==> Covers(batches, t, needs, uuid, libraryId)
    ensures !finished ==> exists t, p :: t in PER_PHOTO && cancelled(t, p)
    ensures total == SumTo(added, |batches|) && BatchesAreSmall(batches)
    ensures finished ==> batches[|batches| - 1] == [
      NewLibraryJob(BuildDuplicateGroups, libraryId), NewLibraryJob(BuildSimilarGroups, libraryId),
      NewLibraryJob(BuildClusters, libraryId)]
    ensures finished ==>
      forall t :: t in {ExtractMetadata, ComputeFileHash, ComputePerceptualHash, AnalyzeQuality, GenerateThumbnail} ==>
        Covers(batches, t, needs, uuid, libraryId)
  {
    hide Covers, AllNeeded, SumTo;
    batches, total := [], 0;
    NothingYet(needs, uuid, libraryId, added);
    for k := 0 to |PER_PHOTO|
      invariant total == SumTo(added, |batches|) && AllNeeded(batches, needs, uuid, libraryId)
      invariant BatchesAreSmall(batches)
      invariant forall t :: t in PER_PHOTO[..k] ==> Covers(batches, t, needs, uuid, libraryId)
    {
      var more, done := EnqueueType(PER_PHOTO[k], needs, cancelled, universe, uuid, libraryId);
      total := AddUp(total, added, |batches|, |more|);
      BatchesJoin(batches, more, needs, uuid, libraryId);
      batches := batches + more;
      if !done {
        assert batches[..|batches|] == batches;
        return batches, false, total;
      }
      assert PER_PHOTO[..k + 1] == PER_PHOTO[..k] + [PER_PHOTO[k]];
    }
    assert PER_PHOTO[..|PER_PHOTO|] == PER_PHOTO;
    total := AddUp(total, added, |batches|, 1);
    BatchesJoin(batches, [AggregateBatch(libraryId)], needs, uuid, libraryId);
    assert (batches + [AggregateBatch(libraryId)])[..|batches|] == batches;
    batches, finished := batches + [AggregateBatch(libraryId)], true;
  }

  lemma NothingYet(needs: (JobType, nat) -> set<PhotoId>, uuid: PhotoId -> string, libraryId: string, added: nat -> nat)
    ensures AllNeeded([], needs, uuid, libraryId) && SumTo(added, 0) == 0
  {}

  lemma BatchesJoin(a: seq<seq<Enqueue>>, b: seq<seq<Enqueue>>, needs: (JobType, nat) -> set<PhotoId>,
                    uuid: PhotoId -> string, libraryId: string)
    ensures AllNeeded(a, needs, uuid, libraryId) && AllNeeded(b, needs, uuid, libraryId) ==>
      AllNeeded(a + b, needs, uuid, libraryId)
    ensures forall t :: Covers(a, t, needs, uuid, libraryId) || Covers(b, t, needs, uuid, libraryId) ==>
      Covers(a + b, t, needs, uuid, libraryId)
  {
    forall t | Covers(a, t, needs, uuid, libraryId) || Covers(b, t, needs, uuid, libraryId)
      ensures Covers(a + b, t, needs, uuid, libraryId)
    {
      CoversJoin(a, b, t, needs, uuid, libraryId);
    }
  }

  lemma CoversJoin(a: seq<seq<Enqueue>>, b: seq<seq<Enqueue>>, t: JobType, needs: (JobType, nat) -> set<PhotoId>,
                   uuid: PhotoId -> string, libraryId: string)
    requires Covers(a, t, needs, uuid, libraryId) || Covers(b, t, needs, uuid, libraryId)
    ensures Covers(a + b, t, needs, uuid, libraryId)
  {
    hide PagesOf, Requested;
    PagesAdd(a, b, t);
    forall id | forall p :: 0 <= p <= PagesOf(a + b, t) ==> id in needs(t, p)
      ensures Requested(a + b, t, uuid(id), libraryId)
    {
      assert Requested(a, t, uuid(id), libraryId) || Requested(b, t, uuid(id), libraryId);
      RequestedStays(a, b, t, uuid(id), libraryId);
    }
  }

  /** total += n, for each of the next batches. */
  method AddUp(sofar: nat, added: nat -> nat, from: nat, count: nat) returns (total: nat)
    requires sofar == SumTo(added, from)
    ensures total == SumTo(added, from + count)
  {
    total := sofar;
    for b := from to from + count
      invariant total == SumTo(added, b)
    {
      total := total + added(b);
    }
  }

  lemma BatchesAreNeeded(t: JobType, pages: seq<seq<PhotoId>>, needs: (JobType, nat) -> set<PhotoId>,
                         uuid: PhotoId -> string, libraryId: string, more: seq<seq<Enqueue>>)
    requires t in PER_PHOTO && |more| == |pages|
    requires forall p :: 0 <= p < |pages| ==> more[p] == PhotoBatch(t, pages[p], uuid, libraryId)
    requires forall p, id :: 0 <= p < |pages| && id in pages[p] ==> id in needs(t, p)
    ensures AllNeeded(more, needs, uuid, libraryId)
  {
    forall b, e | 0 <= b < |more| && e in more[b]
      ensures e.libraryId == libraryId && e.targetType == TargetPhoto && IsNeeded(e, needs, uuid, libraryId)
    {
      var i :| 0 <= i < |pages[b]| && e == PhotoBatch(t, pages[b], uuid, libraryId)[i];
      assert pages[b][i] in needs(t, b);
    }
  }

  lemma RequestedStays(a: seq<seq<Enqueue>>, b: seq<seq<Enqueue>>, t: JobType, photo: string, libraryId: string)
    requires Requested(a, t, photo, libraryId) || Requested(b, t, photo, libraryId)
    ensures Requested(a + b, t, photo, libraryId)
  {
    if Requested(a, t, photo, libraryId) {
      var i :| 0 <= i < |a| && NewPhotoJob(t, photo, libraryId) in a[i];
      assert (a + b)[i] == a[i];
    } else {
      var i :| 0 <= i < |b| && NewPhotoJob(t, photo, libraryId) in b[i];
      assert (a + b)[|a| + i] == b[i];
    }
  }

  lemma PageIsRequested(pages: seq<seq<PhotoId>>, t: JobType, id: PhotoId, uuid: PhotoId -> string, libraryId: string,
                        batches: seq<seq<Enqueue>>)
    requires InPages(pages, id) && |batches| == |pages|
    requires forall p :: 0 <= p < |pages| ==> batches[p] == PhotoBatch(t, pages[p], uuid, libraryId)
    ensures Requested(batches, t, uuid(id), libraryId)
  {
    var p :| 0 <= p < |pages| && id in pages[p];
    var i :| 0 <= i < |pages[p]| && pages[p][i] == id;
    assert PhotoBatch(t, pages[p], uuid, libraryId)[i] == NewPhotoJob(t, uuid(id), libraryId);
    assert NewPhotoJob(t, uuid(id), libraryId) in batches[p];
  }
}
