/** The two review screens over one library: which photos both suggest dropping, and whether the two
    reclaimable totals fit in the library together (internal/store/duplicates.go, internal/store/similar.go). */
module Reclaim {
  import opened Options
  import opened Ranking
  import opened Sorting
  import opened Copies

  /** The exact screen keeps the first-ranked copy of every duplicated file. */
  ghost predicate KeepersKept(lib: Library, less: Collation, hs: seq<string>, kept: string -> nat) {
    Duplicated(lib, hs) && forall h :: h in hs ==> IsKeeper(lib, less, h, kept(h))
  }

  /** A photo is one of several copies of a file. */
  predicate IsCopyOf(lib: Library, hs: seq<string>, i: nat) {
    i < |lib| && lib[i].sha256.Some? && lib[i].sha256.value in hs
  }

  predicate HasHash(lib: Library, i: nat) { i < |lib| && lib[i].phash.Some? }

  lemma DroppedIsCandidate(lib: Library, less: Collation, found: seq<seq<nat>>, i: nat)
    requires ReviewGroups(lib, less, found) && i in Dropped(lib, found)
    ensures IsCandidate(lib, less, i)
  {
    var g :| 0 <= g < |found| && i in found[g];
    var k :| 0 <= k < |found[g]| && found[g][k] == i;
  }

  /** A photo the near-duplicate screen drops is dropped by the exact screen too exactly when it is a copy
      of a file whose keeper has no perceptual hash. */
  lemma DroppedTwiceIff(
    lib: Library, less: Collation, hs: seq<string>, kept: string -> nat, found: seq<seq<nat>>, i: nat)
    requires TotalOrder(less) && DistinctPaths(lib) && ReviewGroups(lib, less, found)
    requires KeepersKept(lib, less, hs, kept) && i in Dropped(lib, found)
    ensures i in ExtraCopies(lib, hs, kept) <==>
      IsCopyOf(lib, hs, i) && !HasHash(lib, kept(lib[i].sha256.value))
  {
    DroppedIsCandidate(lib, less, found, i);
    if IsCopyOf(lib, hs, i) {
      var h := lib[i].sha256.value;
      RepresentativeIsKeeperIff(lib, less, h, kept(h), i);
    }
  }

  /** No photo is dropped twice exactly when every file whose stand-in is dropped has a keeper with a
      perceptual hash. */
  lemma DropsApartIff(lib: Library, less: Collation, hs: seq<string>, kept: string -> nat, found: seq<seq<nat>>)
    requires TotalOrder(less) && DistinctPaths(lib) && ReviewGroups(lib, less, found)
    requires KeepersKept(lib, less, hs, kept)
    ensures ExtraCopies(lib, hs, kept) !! Dropped(lib, found) <==>
      forall i :: i in Dropped(lib, found) && IsCopyOf(lib, hs, i) ==> HasHash(lib, kept(lib[i].sha256.value))
  {
    var extra, dropped := ExtraCopies(lib, hs, kept), Dropped(lib, found);
    hide ExtraCopies, Dropped, ReviewGroups, KeepersKept;
    forall i | i in dropped
      ensures i in extra <==> IsCopyOf(lib, hs, i) && !HasHash(lib, kept(lib[i].sha256.value))
    {
      DroppedTwiceIff(lib, less, hs, kept, found, i);
    }
  }

  // ----- the two totals -----

  /** Whatever stands in for a duplicated file and is dropped is no larger than its smallest copy. */
  ghost predicate DroppedAreSmallest(lib: Library, hs: seq<string>, found: seq<seq<nat>>) {
    forall i :: i in Dropped(lib, found) && IsCopyOf(lib, hs, i) ==> lib[i].size <= OneCopyBytes(lib, lib[i].sha256.value)
  }

  /** All copies of the files of `hs`. */
  function AllCopies(lib: Library, hs: seq<string>): set<nat> {
    set i: nat | i < |lib| && !lib[i].missing && lib[i].sha256.Some? && lib[i].sha256.value in hs
  }

  lemma DroppedIsNotMissing(lib: Library, less: Collation, found: seq<seq<nat>>)
    requires ReviewGroups(lib, less, found)
    ensures Dropped(lib, found) <= Present(lib)
  {
    forall i | i in Dropped(lib, found) ensures i in Present(lib) { DroppedIsCandidate(lib, less, found, i); }
  }

  /** Of one file, the near-duplicate screen drops nothing or one copy. */
  lemma OneDroppedPerFile(lib: Library, less: Collation, found: seq<seq<nat>>, h: string)
    requires TotalOrder(less) && DistinctPaths(lib) && ReviewGroups(lib, less, found) && CopiesOf(lib, h) != {}
    requires forall i :: i in Dropped(lib, found) && i in CopiesOf(lib, h) ==> lib[i].size <= OneCopyBytes(lib, h)
    ensures Total(lib, Dropped(lib, found) * CopiesOf(lib, h)) <= OneCopyBytes(lib, h)
  {
    var both := Dropped(lib, found) * CopiesOf(lib, h);
    if i :| i in both {
      forall k | k in both ensures k == i {
        DroppedIsCandidate(lib, less, found, i);
        DroppedIsCandidate(lib, less, found, k);
        OneCandidatePerFile(lib, less, h);
        assert Represents(lib, less, h, i) && Represents(lib, less, h, k);
      }
      assert both == {i};
      BytesSingleton(lib, i, |lib|);
    } else {
      assert both == {};
      BytesEmpty(lib, |lib|);
    }
  }

  /** One smallest copy of each file: what the exact screen leaves. */
  function OneCopies(lib: Library, hs: seq<string>): nat {
    if hs == [] then 0 else OneCopies(lib, hs[..|hs| - 1]) + OneCopyBytes(lib, hs[|hs| - 1])
  }

  lemma LastFile(lib: Library, hs: seq<string>)
    requires DistinctHashes(hs) && hs != []
    ensures var init, h := hs[..|hs| - 1], hs[|hs| - 1];
      AllCopies(lib, hs) == AllCopies(lib, init) + CopiesOf(lib, h) && AllCopies(lib, init) !! CopiesOf(lib, h)
  {
    var init, h := hs[..|hs| - 1], hs[|hs| - 1];
    assert hs == init + [h] && h !in init;
  }

  lemma {:induction false} ExactSplits(lib: Library, hs: seq<string>)
    requires DistinctHashes(hs)
    ensures ExactTotal(lib, hs) + OneCopies(lib, hs) == Total(lib, AllCopies(lib, hs))
  {
    if hs == [] {
      assert AllCopies(lib, hs) == {};
      BytesEmpty(lib, |lib|);
    } else {
      var init, h := hs[..|hs| - 1], hs[|hs| - 1];
      ExactSplits(lib, init);
      LastFile(lib, hs);
      BytesSplit(lib, AllCopies(lib, init), CopiesOf(lib, h), |lib|);
    }
  }

  /** If no dropped stand-in is larger than the smallest copy of its file, all of them together fit in one
      smallest copy of each file. */
  lemma {:induction false} StandInsFit(lib: Library, less: Collation, hs: seq<string>, found: seq<seq<nat>>)
    requires TotalOrder(less) && DistinctPaths(lib) && ReviewGroups(lib, less, found) && DistinctHashes(hs)
    requires DroppedAreSmallest(lib, hs, found) && forall h :: h in hs ==> CopiesOf(lib, h) != {}
    ensures Total(lib, Dropped(lib, found) * AllCopies(lib, hs)) <= OneCopies(lib, hs)
  {
    var dropped := Dropped(lib, found);
    if hs == [] {
      assert dropped * AllCopies(lib, hs) == {};
      BytesEmpty(lib, |lib|);
    } else {
      var init, h := hs[..|hs| - 1], hs[|hs| - 1];
      assert hs == init + [h];
      StandInsFit(lib, less, init, found);
      OneDroppedPerFile(lib, less, found, h);
      LastFile(lib, hs);
      var before, copies := AllCopies(lib, init), CopiesOf(lib, h);
      assert dropped * AllCopies(lib, hs) == dropped * before + dropped * copies;
      BytesSplit(lib, dropped * before, dropped * copies, |lib|);
    }
  }

  /** Present photos that are neither copies of a duplicated file nor dropped as similar. */
  function Untouched(lib: Library, hs: seq<string>, found: seq<seq<nat>>): set<nat> {
    Present(lib) - AllCopies(lib, hs) - Dropped(lib, found)
  }

  /** The balance of the two screens: what they report, one smallest copy of each file and the untouched
      photos make up the library, except that dropped stand-ins are counted on both sides: the account the two
      conditions below rest on. */
  lemma TotalsBalance(lib: Library, less: Collation, hs: seq<string>, found: seq<seq<nat>>)
    requires ReviewGroups(lib, less, found) && Duplicated(lib, hs)
    ensures AllInLibrary(lib, found)
    ensures var standIns := Total(lib, Dropped(lib, found) * AllCopies(lib, hs));
      var left := OneCopies(lib, hs) + Total(lib, Untouched(lib, hs, found));
      var reported := ExactTotal(lib, hs) + SimilarTotal(lib, found);
      reported + left == Total(lib, Present(lib)) + standIns
      && (reported > Total(lib, Present(lib)) <==> standIns > left)
  {
    var dropped, copies, rest := Dropped(lib, found), AllCopies(lib, hs), Untouched(lib, hs, found);
    SimilarTotalIs(lib, less, found);
    DroppedIsNotMissing(lib, less, found);
    ExactSplits(lib, hs);
    assert dropped == dropped * copies + (dropped - copies);
    BytesSplit(lib, dropped * copies, dropped - copies, |lib|);
    assert Present(lib) == copies + (dropped - copies) + rest;
    BytesSplit(lib, copies, dropped - copies, |lib|);
    BytesSplit(lib, copies + (dropped - copies), rest, |lib|);
  }

  /** The totals the two rebuilds report never exceed the library together, as long as no dropped stand-in
      is larger than the smallest copy of its file. */
  lemma TotalsFitLibrary(lib: Library, less: Collation, hs: seq<string>, found: seq<seq<nat>>)
    requires TotalOrder(less) && DistinctPaths(lib) && ReviewGroups(lib, less, found) && Duplicated(lib, hs)
    requires DroppedAreSmallest(lib, hs, found)
    ensures AllInLibrary(lib, found)
    ensures ExactTotal(lib, hs) + SimilarTotal(lib, found) <= Total(lib, Present(lib))
  {
    forall h | h in hs ensures CopiesOf(lib, h) != {} { assert Several(lib, h); }
    StandInsFit(lib, less, hs, found);
    TotalsBalance(lib, less, hs, found);
  }

  /** Byte-identical copies whose recorded sizes agree always satisfy it. */
  lemma AgreeingTotalsFitLibrary(lib: Library, less: Collation, hs: seq<string>, found: seq<seq<nat>>)
    requires TotalOrder(less) && DistinctPaths(lib) && ReviewGroups(lib, less, found) && Duplicated(lib, hs)
    requires SizesAgree(lib)
    ensures AllInLibrary(lib, found)
    ensures ExactTotal(lib, hs) + SimilarTotal(lib, found) <= Total(lib, Present(lib))
  {
    forall i | i in Dropped(lib, found) && IsCopyOf(lib, hs, i)
      ensures lib[i].size <= OneCopyBytes(lib, lib[i].sha256.value)
    {
      var h := lib[i].sha256.value;
      assert Several(lib, h);
      OneCopyIsSmallest(lib, h);
    }
    TotalsFitLibrary(lib, less, hs, found);
  }
}
