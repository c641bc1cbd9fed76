/** The two duplicate pipelines over one library (internal/store/duplicates.go, internal/store/similar.go):
    byte-identical copies are grouped by hash and one copy of each file stands in for the rest in the
    near-duplicate pass. A library is the list of its photo rows, in id order. */
module Copies {
  import opened Options
  import opened Ranking
  import opened Sorting

  datatype Photo = Photo(
    id: string, sha256: Option<string>, phash: Option<bv64>, missing: bool, size: nat, path: string,
    width: Option<nat>, height: Option<nat>, qualityScore: Option<real>)

  type Library = seq<Photo>

  /** The unique index on (library, path). */
  ghost predicate DistinctPaths(lib: Library) {
    forall i, j :: 0 <= i < j < |lib| ==> lib[i].path != lib[j].path
  }

  /** exactKeeperOrder: fewest separators, shortest path, then the collation. */
  predicate KeeperBefore(less: Collation, p: string, q: string) {
    if PathDepth(p) != PathDepth(q) then PathDepth(p) < PathDepth(q)
    else if |p| != |q| then |p| < |q|
    else less(p, q)
  }

  /** The rows of one file the exact pipeline groups. */
  function CopiesOf(lib: Library, h: string): set<nat> {
    set i: nat | i < |lib| && lib[i].sha256 == Some(h) && !lib[i].missing
  }

  /** The rows of one file the near-duplicate pipeline may load. */
  function HashedCopiesOf(lib: Library, h: string): set<nat> {
    set i: nat | i < |lib| && lib[i].sha256 == Some(h) && !lib[i].missing && lib[i].phash.Some?
  }

  /** row_number() OVER (... ORDER BY exactKeeperOrder) = 1. */
  predicate RankedFirst(lib: Library, less: Collation, copies: set<nat>, i: nat)
    requires forall k :: k in copies ==> 0 <= k < |lib|
  {
    i in copies && forall k :: k in copies && k != i ==> KeeperBefore(less, lib[i].path, lib[k].path)
  }

  /** The suggested keeper of an exact-duplicate group. */
  ghost predicate IsKeeper(lib: Library, less: Collation, h: string, i: nat) {
    RankedFirst(lib, less, CopiesOf(lib, h), i)
  }

  /** The row loaded as a similarity candidate: a photo without a file hash stands for itself, a hashed
      file is represented by its first-ranked copy. */
  predicate IsCandidate(lib: Library, less: Collation, i: nat) {
    && 0 <= i < |lib| && lib[i].phash.Some? && !lib[i].missing
    && (lib[i].sha256.Some? ==> RankedFirst(lib, less, HashedCopiesOf(lib, lib[i].sha256.value), i))
  }

  lemma KeeperOrderTotal(less: Collation, p: string, q: string, r: string)
    requires TotalOrder(less)
    ensures KeeperBefore(less, p, q) ==> !KeeperBefore(less, q, p)
    ensures p != q ==> KeeperBefore(less, p, q) || KeeperBefore(less, q, p)
    ensures KeeperBefore(less, p, q) && KeeperBefore(less, q, r) ==> KeeperBefore(less, p, r)
  {}

  /** Of these copies, none has fewer separators in its path; none as few and a shorter path; and none as
      few, as long, and earlier in the collation. */
  ghost predicate KeepsPlainest(lib: Library, less: Collation, copies: set<nat>, keeper: nat)
    requires forall k :: k in copies ==> 0 <= k < |lib|
  {
    keeper in copies && forall k :: k in copies ==>
      var p, q := lib[keeper].path, lib[k].path;
      && |Separators(p)| <= |Separators(q)|
      && (|Separators(p)| == |Separators(q)| ==> |p| <= |q|)
      && (|Separators(p)| == |Separators(q)| && |p| == |q| ==> k == keeper || less(p, q))
  }

  lemma FirstIsPlainest(lib: Library, less: Collation, copies: set<nat>, keeper: nat)
    requires forall k :: k in copies ==> 0 <= k < |lib|
    requires RankedFirst(lib, less, copies, keeper)
    ensures KeepsPlainest(lib, less, copies, keeper)
  {
    hide PathDepth, Separators;
    forall k | k in copies { DepthCountsSeparators(lib[k].path); }
  }

  lemma {:induction false} FirstExists(lib: Library, less: Collation, copies: set<nat>)
    requires TotalOrder(less) && DistinctPaths(lib) && copies != {}
    requires forall k :: k in copies ==> 0 <= k < |lib|
    ensures exists i: nat :: RankedFirst(lib, less, copies, i)
    decreases |copies|
  {
    var x :| x in copies;
    var rest := copies - {x};
    if rest == {} {
      assert copies == {x};
      assert RankedFirst(lib, less, copies, x);
    } else {
      FirstExists(lib, less, rest);
      var y: nat :| RankedFirst(lib, less, rest, y);
      var first := if KeeperBefore(less, lib[x].path, lib[y].path) then x else y;
      forall k | k in copies && k != first ensures KeeperBefore(less, lib[first].path, lib[k].path) {
        KeeperOrderTotal(less, lib[x].path, lib[y].path, lib[k].path);
        if k != x && k != y { assert k in rest; }
      }
      assert RankedFirst(lib, less, copies, first);
    }
  }

  ghost predicate Represents(lib: Library, less: Collation, h: string, i: nat) {
    IsCandidate(lib, less, i) && lib[i].sha256 == Some(h)
  }

  /** No two candidates are copies of one hashed file - so no near-duplicate group can hold two - and
      every file with a perceptual hash has a candidate. */
  lemma OneCandidatePerFile(lib: Library, less: Collation, h: string)
    requires TotalOrder(less) && DistinctPaths(lib)
    ensures forall i: nat, k: nat :: Represents(lib, less, h, i) && Represents(lib, less, h, k) ==> i == k
    ensures HashedCopiesOf(lib, h) != {} ==> exists i: nat :: Represents(lib, less, h, i)
  {
    forall i: nat, k: nat | Represents(lib, less, h, i) && Represents(lib, less, h, k) ensures i == k
    {
      KeeperOrderTotal(less, lib[i].path, lib[k].path, lib[i].path);
    }
    if HashedCopiesOf(lib, h) != {} {
      FirstExists(lib, less, HashedCopiesOf(lib, h));
      var i: nat :| RankedFirst(lib, less, HashedCopiesOf(lib, h), i);
      assert Represents(lib, less, h, i);
    }
  }

  /** The two review tabs recommend the same copy of a file exactly when the copy the exact pipeline
      keeps has a perceptual hash. */
  lemma RepresentativeIsKeeperIff(lib: Library, less: Collation, h: string, keeper: nat, candidate: nat)
    requires TotalOrder(less) && DistinctPaths(lib)
    requires IsKeeper(lib, less, h, keeper)
    requires IsCandidate(lib, less, candidate) && lib[candidate].sha256 == Some(h)
    ensures candidate == keeper <==> lib[keeper].phash.Some?
  {
    KeeperOrderTotal(less, lib[candidate].path, lib[keeper].path, lib[candidate].path);
    assert candidate in HashedCopiesOf(lib, h) && candidate in CopiesOf(lib, h);
  }

  // ----- bytes -----

  /** Total size of the rows of `s` below n. */
  function Bytes(lib: Library, s: set<nat>, n: nat): nat
    requires n <= |lib|
  {
    if n == 0 then 0 else Bytes(lib, s, n - 1) + if n - 1 in s then lib[n - 1].size else 0
  }

  function Total(lib: Library, s: set<nat>): nat { Bytes(lib, s, |lib|) }

  lemma {:induction false} BytesSplit(lib: Library, a: set<nat>, b: set<nat>, n: nat)
    requires n <= |lib| && a !! b
    ensures Bytes(lib, a + b, n) == Bytes(lib, a, n) + Bytes(lib, b, n)
  {
    if n > 0 { BytesSplit(lib, a, b, n - 1); }
  }

  lemma {:induction false} BytesMonotone(lib: Library, a: set<nat>, b: set<nat>, n: nat)
    requires n <= |lib| && a <= b
    ensures Bytes(lib, a, n) <= Bytes(lib, b, n)
  {
    if n > 0 { BytesMonotone(lib, a, b, n - 1); }
  }

  lemma {:induction false} BytesSingleton(lib: Library, i: nat, n: nat)
    requires n <= |lib| && 0 <= i < |lib|
    ensures Bytes(lib, {i}, n) == if i < n then lib[i].size else 0
  {
    if n > 0 { BytesSingleton(lib, i, n - 1); }
  }

  lemma {:induction false} BytesEmpty(lib: Library, n: nat)
    requires n <= |lib|
    ensures Bytes(lib, {}, n) == 0
  {
    if n > 0 { BytesEmpty(lib, n - 1); }
  }

  lemma TotalWithout(lib: Library, s: set<nat>, i: nat)
    requires i in s && 0 <= i < |lib|
    ensures Total(lib, s) == lib[i].size + Total(lib, s - {i})
  {
    assert s == {i} + (s - {i});
    BytesSplit(lib, {i}, s - {i}, |lib|);
    BytesSingleton(lib, i, |lib|);
  }

  // ----- exact duplicates -----

  /** The smallest size among the copies below n. */
  function LeastBelow(lib: Library, copies: set<nat>, n: nat): Option<nat>
    requires n <= |lib|
  {
    if n == 0 then None
    else
      var before := LeastBelow(lib, copies, n - 1);
      if n - 1 !in copies then before
      else if before.None? || lib[n - 1].size < before.value then Some(lib[n - 1].size) else before
  }

  /** min(file_size_bytes) over the copies of a file. */
  function OneCopyBytes(lib: Library, h: string): nat {
    var least := LeastBelow(lib, CopiesOf(lib, h), |lib|);
    if least.None? then 0 else least.value
  }

  /** It is the size of one copy, and no copy is smaller. */
  ghost predicate IsSmallest(lib: Library, copies: set<nat>, least: nat)
    requires forall k :: k in copies ==> 0 <= k < |lib|
  {
    (exists k :: k in copies && lib[k].size == least) && forall k :: k in copies ==> least <= lib[k].size
  }

  lemma {:induction false} LeastBelowIs(lib: Library, copies: set<nat>, n: nat)
    requires n <= |lib| && forall k :: k in copies ==> 0 <= k < |lib|
    ensures var least := LeastBelow(lib, copies, n);
      && (least.Some? ==> exists k :: k in copies && k < n && lib[k].size == least.value)
      && forall k :: k in copies && k < n ==> least.Some? && least.value <= lib[k].size
  {
    if n > 0 { LeastBelowIs(lib, copies, n - 1); }
  }

  lemma OneCopyIsSmallest(lib: Library, h: string)
    requires CopiesOf(lib, h) != {}
    ensures IsSmallest(lib, CopiesOf(lib, h), OneCopyBytes(lib, h))
  {
    LeastBelowIs(lib, CopiesOf(lib, h), |lib|);
    var k :| k in CopiesOf(lib, h);
  }

  /** All copies of a file have the size of that file. */
  predicate SizesAgree(lib: Library) {
    forall i, k :: 0 <= i < |lib| && 0 <= k < |lib| && lib[i].sha256.Some? && lib[i].sha256 == lib[k].sha256 ==>
      lib[i].size == lib[k].size
  }

  /** total_bytes - one_copy_bytes. */
  function ExactReclaim(lib: Library, h: string): int { Total(lib, CopiesOf(lib, h)) - OneCopyBytes(lib, h) }

  /** The reclaimable total of the exact-duplicate rebuild. */
  function ExactTotal(lib: Library, hs: seq<string>): int {
    if hs == [] then 0 else ExactTotal(lib, hs[..|hs| - 1]) + ExactReclaim(lib, hs[|hs| - 1])
  }

  predicate DistinctHashes(hs: seq<string>) {
    forall a, b :: 0 <= a < b < |hs| ==> hs[a] != hs[b]
  }

  ghost predicate Several(lib: Library, h: string) {
    exists i, k :: i in CopiesOf(lib, h) && k in CopiesOf(lib, h) && i != k
  }

  /** HAVING count(*) > 1. */
  lemma SeveralIsCount(lib: Library, h: string)
    ensures Several(lib, h) <==> |CopiesOf(lib, h)| > 1
  {
    var copies := CopiesOf(lib, h);
    if i :| i in copies {
      var rest := copies - {i};
      assert |copies| == |rest| + 1;
      if rest == {} {
        assert copies == {i};
      } else {
        var k :| k in rest;
      }
    }
  }

  /** GROUP BY sha256: every file with several copies, once each, in any order. */
  ghost predicate Duplicated(lib: Library, hs: seq<string>) {
    DistinctHashes(hs) && forall h :: h in hs <==> Several(lib, h)
  }

  datatype DuplicateGroup = DuplicateGroup(
    sha256: string, photoCount: nat, totalBytes: nat, reclaimableBytes: int, suggestedKeep: nat)

  ghost predicate IsGroupRow(lib: Library, less: Collation, row: DuplicateGroup, h: string) {
    && row.sha256 == h && row.photoCount == |CopiesOf(lib, h)| && row.totalBytes == Total(lib, CopiesOf(lib, h))
    && row.reclaimableBytes == ExactReclaim(lib, h) && IsKeeper(lib, less, h, row.suggestedKeep)
  }

  method DuplicatedHashes(lib: Library) returns (hs: seq<string>)
    ensures Duplicated(lib, hs)
  {
    hs := [];
    for i := 0 to |lib|
      invariant DistinctHashes(hs) && forall h :: h in hs ==> Several(lib, h)
      invariant forall k, h :: 0 <= k < i && k in CopiesOf(lib, h) && Several(lib, h) ==> h in hs
    {
      if lib[i].sha256.Some? && !lib[i].missing {
        var h := lib[i].sha256.value;
        SeveralIsCount(lib, h);
        if |CopiesOf(lib, h)| > 1 && h !in hs { hs := hs + [h]; }
      }
    }
    forall h | Several(lib, h) ensures h in hs {
      var k :| k in CopiesOf(lib, h);
    }
  }

  /** row_number() OVER (...) = 1 over the copies of one file. */
  method FirstRanked(lib: Library, less: Collation, copies: set<nat>) returns (first: nat)
    requires TotalOrder(less) && DistinctPaths(lib) && copies != {}
    requires forall k :: k in copies ==> 0 <= k < |lib|
    ensures RankedFirst(lib, less, copies, first)
  {
    hide KeeperBefore;
    var best: Option<nat> := None;
    for i := 0 to |lib|
      invariant best.None? ==> forall k :: k in copies ==> k >= i
      invariant best.Some? ==> best.value < i && best.value in copies
      invariant best.Some? ==>
        forall k :: k in copies && k < i && k != best.value ==> KeeperBefore(less, lib[best.value].path, lib[k].path)
    {
      if i in copies {
        if best.None? {
          best := Some(i);
        } else {
          forall k | k in copies && k < i {
            KeeperOrderTotal(less, lib[i].path, lib[best.value].path, lib[k].path);
          }
          if KeeperBefore(less, lib[i].path, lib[best.value].path) { best := Some(i); }
        }
      }
    }
    var some :| some in copies;
    first := best.value;
  }

  /** The rebuild: a row for every file with several copies, with its keeper and what keeping one copy of
      it would free, and the number and total of them. */
  method RebuildDuplicateGroups(lib: Library, less: Collation) returns (rows: seq<DuplicateGroup>, reclaimable: int, hs: seq<string>)
    requires TotalOrder(less) && DistinctPaths(lib)
    ensures Duplicated(lib, hs) && |rows| == |hs| && forall g :: 0 <= g < |hs| ==> IsGroupRow(lib, less, rows[g], hs[g])
    ensures reclaimable == ExactTotal(lib, hs)
    ensures forall g :: 0 <= g < |hs| ==> KeepsPlainest(lib, less, CopiesOf(lib, hs[g]), rows[g].suggestedKeep)
  {
    hide IsKeeper, ExactReclaim, RankedFirst, KeepsPlainest;
    hs := DuplicatedHashes(lib);
    rows, reclaimable := [], 0;
    for g := 0 to |hs|
      invariant |rows| == g && forall f :: 0 <= f < g ==> IsGroupRow(lib, less, rows[f], hs[f])
      invariant reclaimable == ExactTotal(lib, hs[..g])
      invariant forall f :: 0 <= f < g ==> KeepsPlainest(lib, less, CopiesOf(lib, hs[f]), rows[f].suggestedKeep)
    {
      var h := hs[g];
      var copies := CopiesOf(lib, h);
      assert hs[g] in hs && copies != {};
      var keeper := FirstRanked(lib, less, copies);
      KeeperIs(lib, less, h, keeper);
      FirstIsPlainest(lib, less, copies, keeper);
      var row := DuplicateGroup(h, |copies|, Total(lib, copies), ExactReclaim(lib, h), keeper);
      assert hs[..g + 1][..g] == hs[..g];
      rows, reclaimable := rows + [row], reclaimable + row.reclaimableBytes;
    }
    assert hs[..|hs|] == hs;
  }

  lemma KeeperIs(lib: Library, less: Collation, h: string, keeper: nat)
    requires RankedFirst(lib, less, CopiesOf(lib, h), keeper)
    ensures IsKeeper(lib, less, h, keeper)
  {}

  /** One kept copy for every file. */
  ghost predicate Keeps(lib: Library, hs: seq<string>, kept: string -> nat) {
    forall h :: h in hs ==> kept(h) in CopiesOf(lib, h)
  }

  /** What the exact-duplicate screen suggests dropping: every copy but the kept one. */
  function ExtraCopies(lib: Library, hs: seq<string>, kept: string -> nat): set<nat> {
    set i: nat | i < |lib| && !lib[i].missing && lib[i].sha256.Some? && lib[i].sha256.value in hs && i != kept(lib[i].sha256.value)
  }

  /** When copies agree on size the reported total is, whichever copies are kept, the size of all others. */
  lemma {:induction false} ExactTotalIs(lib: Library, hs: seq<string>, kept: string -> nat)
    requires DistinctHashes(hs) && Keeps(lib, hs, kept) && SizesAgree(lib)
    ensures ExactTotal(lib, hs) == Total(lib, ExtraCopies(lib, hs, kept))
  {
    if hs == [] {
      assert ExtraCopies(lib, hs, kept) == {};
      BytesEmpty(lib, |lib|);
    } else {
      var init, h := hs[..|hs| - 1], hs[|hs| - 1];
      ExactTotalIs(lib, init, kept);
      var copies, k := CopiesOf(lib, h), kept(h);
      assert k in copies;
      OneCopyIsSmallest(lib, h);
      assert lib[k].size == OneCopyBytes(lib, h);
      TotalWithout(lib, copies, k);
      assert hs == init + [h] && h !in init;
      assert ExtraCopies(lib, hs, kept) == ExtraCopies(lib, init, kept) + (copies - {k});
      BytesSplit(lib, ExtraCopies(lib, init, kept), copies - {k}, |lib|);
    }
  }

  // ----- near duplicates -----

  /** Near-duplicate groups over the candidates: disjoint, no member twice, keeper first. */
  ghost predicate ReviewGroups(lib: Library, less: Collation, groups: seq<seq<nat>>) {
    (forall g, k :: 0 <= g < |groups| && 0 <= k < |groups[g]| ==> IsCandidate(lib, less, groups[g][k]))
    && (forall g :: 0 <= g < |groups| ==> |groups[g]| >= 2)
    && (forall g, a, b :: 0 <= g < |groups| && 0 <= a < b < |groups[g]| ==> groups[g][a] != groups[g][b])
    && (forall g, f, i: nat :: 0 <= g < f < |groups| ==> !(i in groups[g] && i in groups[f]))
  }

  predicate IsDropped(groups: seq<seq<nat>>, i: nat) {
    exists g :: 0 <= g < |groups| && i in groups[g] && i != groups[g][0]
  }

  /** Everything except the copy being kept, over all groups. */
  function Dropped(lib: Library, groups: seq<seq<nat>>): set<nat> {
    set i: nat | i < |lib| && IsDropped(groups, i)
  }

  function MembersOf(lib: Library, members: seq<nat>): set<nat> {
    set i: nat | i < |lib| && i in members
  }

  predicate InLibrary(lib: Library, members: seq<nat>) { forall k :: 0 <= k < |members| ==> members[k] < |lib| }

  function SumSizes(lib: Library, members: seq<nat>): nat
    requires InLibrary(lib, members)
  {
    if members == [] then 0 else SumSizes(lib, members[..|members| - 1]) + lib[members[|members| - 1]].size
  }

  /** The members' bytes less the keeper's, and not below zero. */
  function SimilarReclaim(lib: Library, members: seq<nat>): int
    requires InLibrary(lib, members) && |members| > 0
  {
    var reclaim := SumSizes(lib, members) - lib[members[0]].size;
    if reclaim < 0 then 0 else reclaim
  }

  predicate AllInLibrary(lib: Library, found: seq<seq<nat>>) {
    forall g :: 0 <= g < |found| ==> InLibrary(lib, found[g]) && |found[g]| > 0
  }

  /** The reclaimable total of the near-duplicate rebuild. */
  function SimilarTotal(lib: Library, found: seq<seq<nat>>): int
    requires AllInLibrary(lib, found)
  {
    if found == [] then 0
    else SimilarTotal(lib, found[..|found| - 1]) + SimilarReclaim(lib, found[|found| - 1])
  }

  lemma {:induction false} SumIsTotal(lib: Library, members: seq<nat>)
    requires InLibrary(lib, members) && forall a, b :: 0 <= a < b < |members| ==> members[a] != members[b]
    ensures SumSizes(lib, members) == Total(lib, MembersOf(lib, members))
  {
    if members == [] {
      assert MembersOf(lib, members) == {};
      BytesEmpty(lib, |lib|);
    } else {
      var init, last := members[..|members| - 1], members[|members| - 1];
      SumIsTotal(lib, init);
      assert members == init + [last] && last !in init;
      assert MembersOf(lib, members) - {last} == MembersOf(lib, init);
      TotalWithout(lib, MembersOf(lib, members), last);
    }
  }

  lemma ReviewedInLibrary(lib: Library, less: Collation, found: seq<seq<nat>>)
    requires ReviewGroups(lib, less, found)
    ensures AllInLibrary(lib, found)
  {
    forall g | 0 <= g < |found| ensures InLibrary(lib, found[g]) && |found[g]| > 0 {
      forall k | 0 <= k < |found[g]| ensures found[g][k] < |lib| { assert IsCandidate(lib, less, found[g][k]); }
    }
  }

  lemma ReviewedPrefix(lib: Library, less: Collation, found: seq<seq<nat>>)
    requires ReviewGroups(lib, less, found) && found != []
    ensures ReviewGroups(lib, less, found[..|found| - 1])
  {}

  /** The reported total is the size of exactly the photos a user would drop: the clamp never fires. */
  lemma {:induction false} SimilarTotalIs(lib: Library, less: Collation, found: seq<seq<nat>>)
    requires ReviewGroups(lib, less, found)
    ensures AllInLibrary(lib, found) && SimilarTotal(lib, found) == Total(lib, Dropped(lib, found))
  {
    ReviewedInLibrary(lib, less, found);
    if found == [] {
      assert Dropped(lib, found) == {};
      BytesEmpty(lib, |lib|);
    } else {
      var g := |found| - 1;
      ReviewedPrefix(lib, less, found);
      SimilarTotalIs(lib, less, found[..g]);
      LastGroupDrops(lib, less, found);
    }
  }

  lemma LastGroupDrops(lib: Library, less: Collation, found: seq<seq<nat>>)
    requires ReviewGroups(lib, less, found) && AllInLibrary(lib, found) && found != []
    ensures var g := |found| - 1;
      Total(lib, Dropped(lib, found)) == Total(lib, Dropped(lib, found[..g])) + SimilarReclaim(lib, found[g])
  {
    hide IsCandidate;
    var g := |found| - 1;
    var members, keeper := found[g], found[g][0];
    var all := MembersOf(lib, members);
    assert InLibrary(lib, members);
    SumIsTotal(lib, members);
    TotalWithout(lib, all, keeper);
    LastGroupAdds(lib, less, found);
    BytesSplit(lib, Dropped(lib, found[..g]), all - {keeper}, |lib|);
  }

  lemma LastGroupAdds(lib: Library, less: Collation, found: seq<seq<nat>>)
    requires ReviewGroups(lib, less, found) && found != []
    ensures var g := |found| - 1;
      var more := MembersOf(lib, found[g]) - {found[g][0]};
      Dropped(lib, found) == Dropped(lib, found[..g]) + more && Dropped(lib, found[..g]) !! more
  {
    hide IsCandidate;
    var g := |found| - 1;
    var all, keeper := MembersOf(lib, found[g]), found[g][0];
    var before, after := Dropped(lib, found[..g]), Dropped(lib, found);
    forall i: nat ensures i in after <==> i in before || i in all - {keeper} {
      if i in before {
        var f :| 0 <= f < g && i in found[..g][f] && i != found[..g][f][0];
        assert i in found[f];
      }
      if i in after {
        var f :| 0 <= f < g + 1 && i in found[f] && i != found[f][0];
        if f < g { assert i in found[..g][f]; }
      }
    }
    forall i | i in before ensures i !in all {
      var f :| 0 <= f < g && i in found[..g][f];
      assert i in found[f];
    }
  }

  function Present(lib: Library): set<nat> {
    set i: nat | i < |lib| && !lib[i].missing
  }
}
