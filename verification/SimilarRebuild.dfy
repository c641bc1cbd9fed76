/** RebuildSimilarGroups (internal/store/similar.go:110-258): loading one candidate for each file, grouping
    them, and accounting for the bytes. */
module SimilarRebuild {
  import opened Options
  import opened Ranking
  import opened Sorting
  import opened Similar
  import opened Determinism
  import opened Copies

  ghost predicate PrimaryKey(lib: Library) {
    forall i, j :: 0 <= i < j < |lib| ==> lib[i].id != lib[j].id
  }

  /** COALESCE(width, 0) and the like. */
  function CandidateOf(p: Photo): Candidate
    requires p.phash.Some?
  {
    Candidate(p.id, p.phash.value, if p.width.Some? then p.width.value else 0,
              if p.height.Some? then p.height.value else 0, p.size, p.path, p.qualityScore)
  }

  /** rows[k] is the row the k-th candidate came from: every candidate row once, in id order. */
  ghost predicate Loaded(lib: Library, less: Collation, cs: seq<Candidate>, rows: seq<nat>) {
    && |cs| == |rows| && (forall a, b :: 0 <= a < b < |rows| ==> rows[a] < rows[b])
    && (forall i: nat :: i in rows <==> IsCandidate(lib, less, i))
    && forall k :: 0 <= k < |rows| ==> IsCandidate(lib, less, rows[k]) && cs[k] == CandidateOf(lib[rows[k]])
  }

  method LoadSimilarityCandidates(lib: Library, less: Collation) returns (cs: seq<Candidate>)
    ensures exists rows :: Loaded(lib, less, cs, rows)
  {
    hide RankedFirst;
    cs := [];
    ghost var rows: seq<nat> := [];
    for i := 0 to |lib|
      invariant |cs| == |rows| && (forall a, b :: 0 <= a < b < |rows| ==> rows[a] < rows[b])
      invariant forall j: nat :: j in rows <==> j < i && IsCandidate(lib, less, j)
      invariant forall k :: 0 <= k < |rows| ==> IsCandidate(lib, less, rows[k]) && cs[k] == CandidateOf(lib[rows[k]])
    {
      assert forall a :: 0 <= a < |rows| ==> rows[a] in rows;
      if IsCandidate(lib, less, i) {
        cs, rows := cs + [CandidateOf(lib[i])], rows + [i];
      }
    }
    assert Loaded(lib, less, cs, rows);
  }

  /** The rows of a group's members. */
  ghost function RowsOf(rows: seq<nat>, order: seq<int>): (members: seq<nat>)
    requires forall k :: 0 <= k < |order| ==> 0 <= order[k] < |rows|
    ensures |members| == |order| && forall k :: 0 <= k < |order| ==> members[k] == rows[order[k]]
  {
    seq(|order|, k requires 0 <= k < |order| => rows[order[k]])
  }

  ghost predicate AllInRange(cs: seq<Candidate>, out: seq<Ranked>) {
    forall g :: 0 <= g < |out| ==> InRange(out[g].order, cs)
  }

  /** All groups as lists of rows. */
  ghost function FoundRows(cs: seq<Candidate>, rows: seq<nat>, out: seq<Ranked>): (found: seq<seq<nat>>)
    requires |cs| == |rows| && AllInRange(cs, out)
    ensures |found| == |out| && forall g :: 0 <= g < |out| ==> found[g] == RowsOf(rows, out[g].order)
  {
    seq(|out|, g requires 0 <= g < |out| => RowsOf(rows, out[g].order))
  }

  lemma LoadedDistinct(lib: Library, less: Collation, cs: seq<Candidate>, rows: seq<nat>)
    requires Loaded(lib, less, cs, rows) && PrimaryKey(lib)
    ensures |cs| == |rows| && DistinctIds(cs)
  {
    hide IsCandidate;
    forall i, j | 0 <= i < j < |cs| ensures cs[i].photoId != cs[j].photoId {
      assert rows[i] < rows[j];
      CandidateInLibrary(lib, less, rows[i]);
      CandidateInLibrary(lib, less, rows[j]);
    }
  }

  lemma CandidateInLibrary(lib: Library, less: Collation, i: nat)
    requires IsCandidate(lib, less, i)
    ensures i < |lib| && lib[i].phash.Some?
  {}

  /** The groups found are what the accounting takes them to be: disjoint lists of candidate rows. */
  lemma FoundAreReviewed(lib: Library, less: Collation, cs: seq<Candidate>, rows: seq<nat>, t: nat, out: seq<Ranked>)
    requires Loaded(lib, less, cs, rows) && IsGrouping(cs, t, out)
    ensures AllInRange(cs, out) && ReviewGroups(lib, less, FoundRows(cs, rows, out))
  {
    hide IsCandidate, Joined, Describes, Ordered, TiesCarryOver, LargerFirst;
    forall g | 0 <= g < |out| ensures InRange(out[g].order, cs) { assert GoodGroup(cs, t, out[g]); }
    var found := FoundRows(cs, rows, out);
    forall g, a, b | 0 <= g < |found| && 0 <= a < b < |found[g]| ensures found[g][a] != found[g][b] {
      assert GoodGroup(cs, t, out[g]);
      var x, y := out[g].order[a], out[g].order[b];
      assert x != y;
      assert rows[if x < y then x else y] < rows[if x < y then y else x];
    }
    forall g | 0 <= g < |found| ensures |found[g]| >= 2 { assert GoodGroup(cs, t, out[g]); }
    forall g, f, i: nat | 0 <= g < f < |found| ensures !(i in found[g] && i in found[f]) {
      if i in found[g] && i in found[f] { SharedRow(rows, out[g].order, out[f].order, i); }
    }
  }

  lemma SharedRow(rows: seq<nat>, a: seq<int>, b: seq<int>, i: nat)
    requires forall k :: 0 <= k < |a| ==> 0 <= a[k] < |rows|
    requires forall k :: 0 <= k < |b| ==> 0 <= b[k] < |rows|
    requires forall x, y :: 0 <= x < y < |rows| ==> rows[x] < rows[y]
    requires i in RowsOf(rows, a) && i in RowsOf(rows, b)
    ensures exists x :: x in a && x in b
  {
    var j :| 0 <= j < |a| && RowsOf(rows, a)[j] == i;
    var k :| 0 <= k < |b| && RowsOf(rows, b)[k] == i;
    assert a[j] in a && a[j] in b;
  }

  /** No group holds two copies of one hashed file. */
  ghost predicate OneCopyPerGroup(lib: Library, found: seq<seq<nat>>)
    requires AllInLibrary(lib, found)
  {
    forall g, a, b :: 0 <= g < |found| && 0 <= a < b < |found[g]| ==>
      lib[found[g][a]].sha256.None? || lib[found[g][a]].sha256 != lib[found[g][b]].sha256
  }

  lemma CandidatesOfOneFile(lib: Library, less: Collation, i: nat, k: nat)
    requires TotalOrder(less) && DistinctPaths(lib) && IsCandidate(lib, less, i) && IsCandidate(lib, less, k)
    ensures lib[i].sha256.Some? && lib[i].sha256 == lib[k].sha256 ==> i == k
  {
    if lib[i].sha256.Some? && lib[i].sha256 == lib[k].sha256 {
      OneCandidatePerFile(lib, less, lib[i].sha256.value);
      assert Copies.Represents(lib, less, lib[i].sha256.value, i) && Copies.Represents(lib, less, lib[i].sha256.value, k);
    }
  }

  lemma GroupsHoldOneCopy(lib: Library, less: Collation, found: seq<seq<nat>>)
    requires TotalOrder(less) && DistinctPaths(lib) && ReviewGroups(lib, less, found)
    ensures AllInLibrary(lib, found) && OneCopyPerGroup(lib, found)
  {
    ReviewedInLibrary(lib, less, found);
    hide RankedFirst;
    forall g, a, b | 0 <= g < |found| && 0 <= a < b < |found[g]|
      ensures lib[found[g][a]].sha256.None? || lib[found[g][a]].sha256 != lib[found[g][b]].sha256
    {
      var i, k := found[g][a], found[g][b];
      assert IsCandidate(lib, less, i) && IsCandidate(lib, less, k) && i != k;
      CandidatesOfOneFile(lib, less, i, k);
    }
  }

  /** sizeByID, for the candidates loaded. */
  ghost predicate IsSizeMap(sizeById: map<string, int>, cs: seq<Candidate>) {
    forall k :: 0 <= k < |cs| ==> cs[k].photoId in sizeById && sizeById[cs[k].photoId] == cs[k].fileSizeBytes
  }

  method SizeMap(cs: seq<Candidate>) returns (sizeById: map<string, int>)
    requires DistinctIds(cs)
    ensures IsSizeMap(sizeById, cs)
  {
    sizeById := map[];
    for k := 0 to |cs|
      invariant forall j :: 0 <= j < k ==> cs[j].photoId in sizeById && sizeById[cs[j].photoId] == cs[j].fileSizeBytes
    {
      sizeById := sizeById[cs[k].photoId := cs[k].fileSizeBytes];
    }
  }

  /** The ids name the members, and the map knows their sizes. */
  ghost predicate Sized(lib: Library, members: seq<nat>, sizeById: map<string, int>, ids: seq<string>) {
    |ids| == |members| && InLibrary(lib, members)
    && forall k :: 0 <= k < |ids| ==> ids[k] in sizeById && sizeById[ids[k]] == lib[members[k]].size
  }

  method SumById(ids: seq<string>, sizeById: map<string, int>, ghost lib: Library, ghost members: seq<nat>)
    returns (total: int)
    requires Sized(lib, members, sizeById, ids)
    ensures total == SumSizes(lib, members)
  {
    total := 0;
    assert members[..0] == [];
    for k := 0 to |ids|
      invariant total == SumSizes(lib, members[..k])
    {
      assert members[..k + 1][..k] == members[..k];
      total := total + sizeById[ids[k]];
    }
    assert members[..|members|] == members;
  }

  /** The bytes of one group, looked up by id. */
  method GroupBytes(lib: Library, less: Collation, cs: seq<Candidate>, ghost rows: seq<nat>,
                    sizeById: map<string, int>, r: Ranked)
    returns (reclaim: int)
    requires Loaded(lib, less, cs, rows) && IsSizeMap(sizeById, cs) && Describes(r.group, cs, r.order)
    requires InLibrary(lib, RowsOf(rows, r.order))
    ensures reclaim == SimilarReclaim(lib, RowsOf(rows, r.order))
  {
    forall k | 0 <= k < |r.order|
      ensures r.group.photoIds[k] in sizeById && sizeById[r.group.photoIds[k]] == lib[RowsOf(rows, r.order)[k]].size
    {
      MemberSize(lib, less, cs, rows, sizeById, r, k);
    }
    MemberSize(lib, less, cs, rows, sizeById, r, 0);
    hide IsCandidate, IsWidest, At, DistinctIds, CandidateOf, IsSizeMap;
    var total := SumById(r.group.photoIds, sizeById, lib, RowsOf(rows, r.order));
    reclaim := total - sizeById[r.group.suggestedKeepId];
    if reclaim < 0 { reclaim := 0; }
  }

  lemma MemberSize(lib: Library, less: Collation, cs: seq<Candidate>, rows: seq<nat>,
                   sizeById: map<string, int>, r: Ranked, k: nat)
    requires Loaded(lib, less, cs, rows) && IsSizeMap(sizeById, cs) && Describes(r.group, cs, r.order)
    requires InLibrary(lib, RowsOf(rows, r.order)) && k < |r.order|
    ensures k < |r.group.photoIds| && r.group.photoIds[k] in sizeById
    ensures sizeById[r.group.photoIds[k]] == lib[RowsOf(rows, r.order)[k]].size
    ensures k == 0 ==> r.group.photoIds[k] == r.group.suggestedKeepId
  {}

  /** `out` groups the candidates `cs` loaded from the rows `rows`. Named by row, the groups are disjoint,
      each holds at most one copy of a file, and the total is the size of exactly the photos that are not
      keepers. */
  ghost predicate Rebuilt(lib: Library, less: Collation, t: nat, cs: seq<Candidate>, rows: seq<nat>,
                          out: seq<Ranked>, reclaimable: int) {
    Loaded(lib, less, cs, rows) && IsGrouping(cs, t, out) && AllInRange(cs, out)
    && var found := FoundRows(cs, rows, out);
      ReviewGroups(lib, less, found) && AllInLibrary(lib, found) && OneCopyPerGroup(lib, found)
      && reclaimable == SimilarTotal(lib, found) && reclaimable == Total(lib, Dropped(lib, found))
  }

  /** The rebuild: the groups to store, and the bytes they would free. */
  method RebuildSimilarGroups(lib: Library, less: Collation, threshold: int)
    returns (out: seq<Ranked>, reclaimable: int)
    requires TotalOrder(less) && DistinctPaths(lib) && PrimaryKey(lib)
    ensures exists cs, rows :: Rebuilt(lib, less, Clamp(threshold), cs, rows, out, reclaimable)
  {
    hide Loaded, GoodGroup, Exhaustive, Disjoint, Ordered, OneCopyPerGroup, ReviewGroups, IsSizeMap, SimilarReclaim,
      BestFirst, TiesIn, SizesFall, DistinctIds;
    var cs := LoadSimilarityCandidates(lib, less);
    ghost var rows :| Loaded(lib, less, cs, rows);
    LoadedDistinct(lib, less, cs, rows);
    var sizeById := SizeMap(cs);
    out := GroupSimilar(cs, threshold);
    FoundAreReviewed(lib, less, cs, rows, Clamp(threshold), out);
    ghost var found := FoundRows(cs, rows, out);
    GroupsHoldOneCopy(lib, less, found);
    SimilarTotalIs(lib, less, found);
    reclaimable := 0;
    for g := 0 to |out|
      invariant AllInLibrary(lib, found[..g]) && reclaimable == SimilarTotal(lib, found[..g])
    {
      GoodIsDescribed(cs, Clamp(threshold), out[g]);
      assert InLibrary(lib, found[g]);
      var reclaim := GroupBytes(lib, less, cs, rows, sizeById, out[g]);
      assert found[..g + 1][..g] == found[..g];
      reclaimable := reclaimable + reclaim;
    }
    assert found[..|found|] == found;
    assert Rebuilt(lib, less, Clamp(threshold), cs, rows, out, reclaimable);
  }

  lemma GoodIsDescribed(cs: seq<Candidate>, t: nat, r: Ranked)
    requires GoodGroup(cs, t, r)
    ensures Describes(r.group, cs, r.order)
  {}
}
