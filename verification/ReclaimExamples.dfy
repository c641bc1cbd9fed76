/** Libraries on which the two duplicate screens get in each other's way: what the rebuilds return there. */
module ReclaimExamples {
  import opened Options
  import opened Chains
  import opened Hamming
  import opened Ranking
  import opened Sorting
  import opened Similar
  import opened Determinism
  import opened Copies
  import opened SimilarRebuild
  import opened Reclaim

  /** Two copies of a file, of which only the worse-placed one has a perceptual hash, and a larger version
      of the same picture. */
  function Uneven(a: nat, b: nat, c: nat): Library {
    [Photo("1", Some("h"), None, false, a, "a", None, None, None),
     Photo("2", Some("h"), Some(0), false, b, "bb", None, None, None),
     Photo("3", Some("g"), Some(0), false, c, "c", Some(2), Some(2), None)]
  }

  /** The default threshold. */
  const THRESHOLD := 12

  /** The larger version stays, the copy goes. */
  const PAIR: seq<seq<nat>> := [[2, 1]]

  lemma StrLessIsTotal()
    ensures TotalOrder(StrLess)
  {
    forall a, b ensures StrLess(a, b) ==> !StrLess(b, a) && a != b
      ensures a != b ==> StrLess(a, b) || StrLess(b, a)
    {
      StrTrichotomy(a, b);
    }
    forall a, b, c | StrLess(a, b) && StrLess(b, c) ensures StrLess(a, c) { StrTransitive(a, b, c); }
  }

  lemma UnevenCopies(a: nat, b: nat, c: nat)
    ensures var lib := Uneven(a, b, c);
      CopiesOf(lib, "h") == {0, 1} && HashedCopiesOf(lib, "h") == {1} && HashedCopiesOf(lib, "g") == {2}
      && (forall h :: Several(lib, h) <==> h == "h")
      && DistinctPaths(lib) && Duplicated(lib, ["h"])
  {
    var lib := Uneven(a, b, c);
    assert CopiesOf(lib, "h") == {0, 1};
    assert HashedCopiesOf(lib, "h") == {1};
    assert HashedCopiesOf(lib, "g") == {2};
    assert 0 in CopiesOf(lib, "h") && 1 in CopiesOf(lib, "h");
    forall h | h != "h" ensures !Several(lib, h) {
      if h == "g" { assert CopiesOf(lib, h) == {2}; } else { assert CopiesOf(lib, h) == {}; }
    }
    assert |"a"| == 1 && |"bb"| == 2 && "a"[0] != "c"[0];
  }

  lemma UnevenGroups(a: nat, b: nat, c: nat)
    ensures var lib := Uneven(a, b, c);
      ReviewGroups(lib, StrLess, PAIR) && IsKeeper(lib, StrLess, "h", 0) && Dropped(lib, PAIR) == {1}
      && IsCandidate(lib, StrLess, 1) && lib[0].phash.None?
  {
    var lib := Uneven(a, b, c);
    UnevenCopies(a, b, c);
    assert PathDepth("a") == 0 && PathDepth("bb") == 0 by {
      assert "a"[1..] == "" && "bb"[1..] == "b" && "b"[1..] == "";
      assert PathDepth("b") == 0;
    }
    assert KeeperBefore(StrLess, lib[0].path, lib[1].path);
    assert IsKeeper(lib, StrLess, "h", 0);
    assert IsCandidate(lib, StrLess, 1) && IsCandidate(lib, StrLess, 2);
    assert PAIR[0] == [2, 1] && IsDropped(PAIR, 1);
    assert forall i: nat :: IsDropped(PAIR, i) ==> i == 1;
  }

  // ----- what the rebuild returns -----

  function UnevenCandidates(b: nat, c: nat): seq<Candidate> {
    [Candidate("2", 0, 0, 0, b, "bb", None), Candidate("3", 0, 2, 2, c, "c", None)]
  }

  function OneGroup(): Ranked {
    Ranked([1, 0], Group(["3", "2"], "3", 0, map["3" := 0, "2" := 0]))
  }

  lemma UnevenLoads(a: nat, b: nat, c: nat, cs: seq<Candidate>, rows: seq<nat>)
    ensures Loaded(Uneven(a, b, c), StrLess, cs, rows) <==> cs == UnevenCandidates(b, c) && rows == [1, 2]
  {
    var lib := Uneven(a, b, c);
    UnevenCopies(a, b, c);
    UnevenGroups(a, b, c);
    forall i: nat ensures IsCandidate(lib, StrLess, i) <==> i == 1 || i == 2 {}
    hide IsCandidate;
    if Loaded(lib, StrLess, cs, rows) { TwoAscending(rows); }
  }

  lemma ThirdIsFurther(rows: seq<nat>)
    requires forall a, b :: 0 <= a < b < |rows| ==> rows[a] < rows[b]
    ensures |rows| > 2 ==> rows[2] >= rows[0] + 2
  {
    if |rows| > 2 { assert rows[0] < rows[1] < rows[2]; }
  }

  lemma TwoAscending(rows: seq<nat>)
    requires forall a, b :: 0 <= a < b < |rows| ==> rows[a] < rows[b]
    requires forall i: nat :: i in rows <==> i == 1 || i == 2
    ensures rows == [1, 2]
  {
    assert forall k :: 0 <= k < |rows| ==> rows[k] in rows;
    assert 1 in rows && 2 in rows;
    ThirdIsFurther(rows);
  }

  lemma CandidatesAreNear(b: nat, c: nat)
    ensures var cs := UnevenCandidates(b, c);
      Distance(cs, 0, 1) == 0 && Distance(cs, 1, 0) == 0 && Distance(cs, 1, 1) == 0
      && forall i, j :: 0 <= i < 2 && 0 <= j < 2 ==> Joined(cs, THRESHOLD, i, j)
  {
    hide Chain, HammingDistance;
    var cs := UnevenCandidates(b, c);
    Identity(0, 0);
    assert (0, 1) in Near(cs, THRESHOLD);
    forall i, j | 0 <= i < 2 && 0 <= j < 2 ensures Joined(cs, THRESHOLD, i, j) {
      OneStep(Near(cs, THRESHOLD), i, j);
    }
  }

  lemma LargerIsPreferred(b: nat, c: nat)
    ensures var cs := UnevenCandidates(b, c); Prefers(cs[1], cs[0]) && !Prefers(cs[0], cs[1])
  {}

  lemma OneGroupIsGood(b: nat, c: nat)
    ensures GoodGroup(UnevenCandidates(b, c), THRESHOLD, OneGroup())
  {
    var cs, r := UnevenCandidates(b, c), OneGroup();
    CandidatesAreNear(b, c);
    LargerIsPreferred(b, c);
    hide Prefers, Distance, Chain, Near, TiesCarryOver;
    assert IsComponent(cs, THRESHOLD, r.order);
    assert IsWidest(cs, r.order, 0);
    assert Pick(cs, r.order) == [cs[1], cs[0]];
    assert Describes(r.group, cs, r.order);
  }

  lemma OneGroupGroups(b: nat, c: nat)
    ensures IsGrouping(UnevenCandidates(b, c), THRESHOLD, [OneGroup()])
    ensures AllTiesCarryOver(UnevenCandidates(b, c), [OneGroup()]) && DistinctIds(UnevenCandidates(b, c))
  {
    OneGroupIsGood(b, c);
    hide GoodGroup, Chain, Near;
    var cs, out := UnevenCandidates(b, c), [OneGroup()];
    forall i, j | i != j && Joined(cs, THRESHOLD, i, j) ensures exists g :: 0 <= g < |out| && i in out[g].order {
      assert i in out[0].order;
    }
  }

  /** The rebuild returns this one grouping and the bytes of the copy. */
  lemma UnevenRebuilds(a: nat, b: nat, c: nat, cs: seq<Candidate>, rows: seq<nat>, out: seq<Ranked>, reclaimable: int)
    ensures Rebuilt(Uneven(a, b, c), StrLess, THRESHOLD, cs, rows, out, reclaimable) <==>
      cs == UnevenCandidates(b, c) && rows == [1, 2] && out == [OneGroup()] && reclaimable == b
  {
    var lib := Uneven(a, b, c);
    UnevenLoads(a, b, c, cs, rows);
    if cs == UnevenCandidates(b, c) && rows == [1, 2] {
      OneGroupGroups(b, c);
      if IsGrouping(cs, THRESHOLD, out) { GroupingUnique(cs, THRESHOLD, [OneGroup()], out); }
      if out == [OneGroup()] { OneGroupRebuilds(a, b, c); }
    }
  }

  lemma PairFound(b: nat, c: nat)
    ensures var cs := UnevenCandidates(b, c);
      AllInRange(cs, [OneGroup()]) && FoundRows(cs, [1, 2], [OneGroup()]) == PAIR
  {
    var cs := UnevenCandidates(b, c);
    assert InRange(OneGroup().order, cs);
    assert RowsOf([1, 2], OneGroup().order) == [2, 1];
  }

  lemma OneGroupRebuilds(a: nat, b: nat, c: nat)
    ensures var lib, cs := Uneven(a, b, c), UnevenCandidates(b, c);
      forall r :: Rebuilt(lib, StrLess, THRESHOLD, cs, [1, 2], [OneGroup()], r) <==> r == b
  {
    var lib, cs := Uneven(a, b, c), UnevenCandidates(b, c);
    UnevenLoads(a, b, c, cs, [1, 2]);
    OneGroupGroups(b, c);
    PairFound(b, c);
    StrLessIsTotal();
    UnevenCopies(a, b, c);
    UnevenGroups(a, b, c);
    GroupsHoldOneCopy(lib, StrLess, PAIR);
    SimilarTotalIs(lib, StrLess, PAIR);
    PairTotal(a, b, c);
    hide Loaded, IsGrouping, ReviewGroups, OneCopyPerGroup, AllInLibrary, Dropped, Total;
  }

  lemma PairTotal(a: nat, b: nat, c: nat)
    requires AllInLibrary(Uneven(a, b, c), PAIR)
    ensures SimilarTotal(Uneven(a, b, c), PAIR) == b
  {
    var lib := Uneven(a, b, c);
    var members: seq<nat>, one: seq<nat> := [2, 1], [2];
    assert PAIR == [members] && PAIR[..0] == [] && members[..1] == one && one[..0] == [];
    assert InLibrary(lib, one) && InLibrary(lib, members);
    assert SumSizes(lib, one) == c;
    assert SumSizes(lib, members) == c + b;
  }

  // ----- the failing inputs -----

  /** The grouping the rebuild stores for the library, named by row, and its total. */
  ghost predicate Returns(lib: Library, found: seq<seq<nat>>, reclaimable: int) {
    exists cs, rows, out :: Rebuilt(lib, StrLess, Clamp(THRESHOLD), cs, rows, out, reclaimable)
      && found == FoundRows(cs, rows, out)
  }

  lemma UnevenReturns(a: nat, b: nat, c: nat, found: seq<seq<nat>>, reclaimable: int)
    ensures Returns(Uneven(a, b, c), found, reclaimable) <==> found == PAIR && reclaimable == b
  {
    hide IsGrouping, ReviewGroups, OneCopyPerGroup, AllInLibrary, Dropped, Total, SimilarTotal, IsCandidate;
    var lib := Uneven(a, b, c);
    PairFound(b, c);
    UnevenRebuilds(a, b, c, UnevenCandidates(b, c), [1, 2], [OneGroup()], reclaimable);
    if Returns(lib, found, reclaimable) {
      var cs, rows, out :| Rebuilt(lib, StrLess, Clamp(THRESHOLD), cs, rows, out, reclaimable)
        && found == FoundRows(cs, rows, out);
      UnevenRebuilds(a, b, c, cs, rows, out, reclaimable);
    }
  }

  lemma FirstTwoDiffer(hs: seq<string>)
    requires DistinctHashes(hs)
    ensures |hs| > 1 ==> hs[0] != hs[1]
  {}

  lemma OnlyH(a: nat, b: nat, c: nat, hs: seq<string>)
    ensures Duplicated(Uneven(a, b, c), hs) <==> hs == ["h"]
  {
    UnevenCopies(a, b, c);
    if Duplicated(Uneven(a, b, c), hs) {
      assert "h" in hs && forall k :: 0 <= k < |hs| ==> hs[k] in hs;
      FirstTwoDiffer(hs);
    }
  }

  lemma UnevenIsLibrary(a: nat, b: nat, c: nat)
    ensures var lib := Uneven(a, b, c); TotalOrder(StrLess) && DistinctPaths(lib) && PrimaryKey(lib)
  {
    StrLessIsTotal();
    UnevenCopies(a, b, c);
    assert "1"[0] != "2"[0] && "1"[0] != "3"[0] && "2"[0] != "3"[0];
  }

  /** The exact screen keeps photo 0 and drops photo 1, which the other screen uses. */
  lemma UnevenKeeper(a: nat, b: nat, c: nat, hs: seq<string>, kept: string -> nat)
    ensures KeepersKept(Uneven(a, b, c), StrLess, hs, kept) <==> hs == ["h"] && kept("h") == 0
    ensures hs == ["h"] && kept("h") == 0 ==> 1 in ExtraCopies(Uneven(a, b, c), hs, kept)
    ensures IsKeeper(Uneven(a, b, c), StrLess, "h", 0) && Copies.Represents(Uneven(a, b, c), StrLess, "h", 1)
  {
    var lib := Uneven(a, b, c);
    UnevenIsLibrary(a, b, c);
    UnevenCopies(a, b, c);
    UnevenGroups(a, b, c);
    OnlyH(a, b, c, hs);
    KeeperOrderTotal(StrLess, lib[0].path, lib[1].path, lib[0].path);
    hide Duplicated;
    if hs == ["h"] { assert forall h :: h in hs <==> h == "h"; }
  }

  /** Whatever the rebuilds return on this library, both screens suggest dropping photo 1, and they
      recommend different copies of its file. */
  lemma OnePhotoDroppedTwice(hs: seq<string>, kept: string -> nat, found: seq<seq<nat>>, reclaimable: int)
    ensures var lib := Uneven(10, 10, 10);
      && TotalOrder(StrLess) && DistinctPaths(lib) && PrimaryKey(lib) && Returns(lib, PAIR, 10)
      && (KeepersKept(lib, StrLess, hs, kept) <==> hs == ["h"] && kept("h") == 0)
      && (Returns(lib, found, reclaimable) && KeepersKept(lib, StrLess, hs, kept) ==>
            1 in ExtraCopies(lib, hs, kept) && 1 in Dropped(lib, found)
            && IsKeeper(lib, StrLess, "h", 0) && Copies.Represents(lib, StrLess, "h", 1))
  {
    UnevenIsLibrary(10, 10, 10);
    UnevenGroups(10, 10, 10);
    UnevenReturns(10, 10, 10, PAIR, 10);
    UnevenReturns(10, 10, 10, found, reclaimable);
    UnevenKeeper(10, 10, 10, hs, kept);
    hide Uneven, ReviewGroups, IsKeeper, IsCandidate, TotalOrder, DistinctPaths, PrimaryKey, ExtraCopies, Returns, KeepersKept;
  }

  /** When copies disagree on size the two totals returned can exceed the library: 100 and 100 of 102
      bytes. */
  lemma TotalsMayExceedLibrary(hs: seq<string>, found: seq<seq<nat>>, reclaimable: int)
    ensures var lib := Uneven(1, 100, 1);
      && TotalOrder(StrLess) && DistinctPaths(lib) && PrimaryKey(lib)
      && Duplicated(lib, ["h"]) && Returns(lib, PAIR, 100)
      && (Duplicated(lib, hs) ==> ExactTotal(lib, hs) == 100) && (Returns(lib, found, reclaimable) ==> reclaimable == 100)
      && Total(lib, Present(lib)) == 102
  {
    hide Uneven, TotalOrder, DistinctPaths, PrimaryKey, Duplicated, Returns, ExactTotal, Total, Present;
    UnevenIsLibrary(1, 100, 1);
    UnevenReturns(1, 100, 1, PAIR, 100);
    UnevenReturns(1, 100, 1, found, reclaimable);
    OnlyH(1, 100, 1, hs);
    OnlyH(1, 100, 1, ["h"]);
    UnevenTotals();
  }

  lemma UnevenTotals()
    ensures var lib := Uneven(1, 100, 1);
      ExactTotal(lib, ["h"]) == 100 && Total(lib, Present(lib)) == 102
  {
    var lib := Uneven(1, 100, 1);
    UnevenCopies(1, 100, 1);
    assert Present(lib) == {0, 1, 2};
    assert Bytes(lib, {0, 1, 2}, 1) == 1 && Bytes(lib, {0, 1, 2}, 2) == 101 && Bytes(lib, {0, 1, 2}, 3) == 102;
    assert Bytes(lib, {0, 1}, 1) == 1 && Bytes(lib, {0, 1}, 2) == 101 && Bytes(lib, {0, 1}, 3) == 101;
    assert LeastBelow(lib, {0, 1}, 1) == Some(1) && LeastBelow(lib, {0, 1}, 2) == Some(1) && LeastBelow(lib, {0, 1}, 3) == Some(1);
    assert ExactReclaim(lib, "h") == 100;
    assert ["h"][..0] == [] && ExactTotal(lib, []) == 0;
  }
}
