/** Which copy of a near-duplicate to suggest keeping (internal/duplicates/similar.go, buildGroup).
    Strings are byte strings: their length is len() and their order is Go's string comparison. */
module Ranking {
  import opened Options
  import opened Sorting

  datatype Candidate = Candidate(
    photoId: string, hash: bv64, width: int, height: int, fileSizeBytes: int, relativePath: string,
    qualityScore: Option<real>)
  {
    function Pixels(): int { width * height }
  }

  const QUALITY_EPSILON := 0.02

  function PathDepth(p: string): nat {
    if p == "" then 0 else (if p[0] == '/' then 1 else 0) + PathDepth(p[1..])
  }

  // ----- string order -----

  predicate StrLess(a: string, b: string) {
    b != "" && (a == "" || a[0] < b[0] || (a[0] == b[0] && StrLess(a[1..], b[1..])))
  }

  lemma {:induction false} StrTrichotomy(a: string, b: string)
    ensures a == b ==> !StrLess(a, b)
    ensures a != b ==> StrLess(a, b) != StrLess(b, a)
  {
    if a != "" && b != "" && a[0] == b[0] {
      assert a == [a[0]] + a[1..] && b == [b[0]] + b[1..];
      StrTrichotomy(a[1..], b[1..]);
    }
  }

  lemma {:induction false} StrTransitive(a: string, b: string, c: string)
    requires StrLess(a, b) && StrLess(b, c)
    ensures StrLess(a, c)
  {
    if a != "" && b != "" && c != "" && a[0] == b[0] && b[0] == c[0] {
      StrTransitive(a[1..], b[1..], c[1..]);
    }
  }

  /** The strings first differ at k, where the first has the smaller byte or has ended. */
  ghost predicate SmallerAt(a: string, b: string, k: nat) {
    k <= |a| && k < |b| && a[..k] == b[..k] && (k == |a| || a[k] < b[k])
  }

  lemma {:induction false} StrLessIsBytewise(a: string, b: string)
    ensures StrLess(a, b) <==> exists k: nat :: SmallerAt(a, b, k)
  {
    if a == "" || b == "" || a[0] != b[0] {
      if b != "" && (a == "" || a[0] < b[0]) { assert SmallerAt(a, b, 0); }
      forall k: nat | SmallerAt(a, b, k) ensures k == 0 { SameFirstByte(a, b, k); }
    } else {
      StrLessIsBytewise(a[1..], b[1..]);
      if k: nat :| SmallerAt(a[1..], b[1..], k) { NextByte(a, b, k); }
      forall k: nat | SmallerAt(a, b, k) ensures k > 0 && SmallerAt(a[1..], b[1..], k - 1) {
        assert k > 0;
        NextByte(a, b, k - 1);
      }
    }
  }

  lemma SameFirstByte(a: string, b: string, k: nat)
    ensures SmallerAt(a, b, k) && k > 0 ==> a != "" && b != "" && a[0] == b[0]
  {
    if SmallerAt(a, b, k) && k > 0 { assert a[..k][0] == b[..k][0]; }
  }

  lemma NextByte(a: string, b: string, k: nat)
    requires a != "" && b != "" && a[0] == b[0]
    ensures SmallerAt(a, b, k + 1) <==> SmallerAt(a[1..], b[1..], k)
  {
    if k < |a| && k < |b| {
      assert a[..k + 1] == [a[0]] + a[1..][..k] && b[..k + 1] == [b[0]] + b[1..][..k];
      assert a[..k + 1][1..] == a[1..][..k] && b[..k + 1][1..] == b[1..][..k];
    }
  }

  lemma NotStrLessTransitive(a: string, b: string, c: string)
    requires !StrLess(a, b) && !StrLess(b, c)
    ensures !StrLess(a, c)
  {
    StrTrichotomy(a, b);
    StrTrichotomy(b, c);
    StrTrichotomy(a, c);
    if StrLess(b, a) && StrLess(c, b) { StrTransitive(c, b, a); }
  }

  // ----- the comparator -----

  /** Quality does not decide: one score is missing, or they are within the tolerance. */
  predicate Tied(p: Option<real>, q: Option<real>) {
    p.None? || q.None? || -QUALITY_EPSILON <= p.value - q.value <= QUALITY_EPSILON
  }

  /** The rest of the comparison: resolution, bytes, path shape, id. */
  predicate KeyLess(a: Candidate, b: Candidate) {
    if a.Pixels() != b.Pixels() then a.Pixels() > b.Pixels()
    else if a.fileSizeBytes != b.fileSizeBytes then a.fileSizeBytes > b.fileSizeBytes
    else if PathDepth(a.relativePath) != PathDepth(b.relativePath) then
      PathDepth(a.relativePath) < PathDepth(b.relativePath)
    else if |a.relativePath| != |b.relativePath| then |a.relativePath| < |b.relativePath|
    else if a.relativePath != b.relativePath then StrLess(a.relativePath, b.relativePath)
    else StrLess(a.photoId, b.photoId)
  }

  predicate Prefers(a: Candidate, b: Candidate) {
    if !Tied(a.qualityScore, b.qualityScore) then a.qualityScore.value > b.qualityScore.value
    else KeyLess(a, b)
  }

  /** Of two photos with distinct ids, the ranking always prefers exactly one. */
  lemma ExactlyOnePreferred(a: Candidate, b: Candidate)
    requires a.photoId != b.photoId
    ensures Prefers(a, b) != Prefers(b, a)
  {
    StrTrichotomy(a.relativePath, b.relativePath);
    StrTrichotomy(a.photoId, b.photoId);
  }

  lemma KeyTransitive(a: Candidate, b: Candidate, c: Candidate)
    requires KeyLess(a, b) && KeyLess(b, c)
    ensures KeyLess(a, c)
  {
    if a.relativePath != b.relativePath && b.relativePath != c.relativePath
      && StrLess(a.relativePath, b.relativePath) && StrLess(b.relativePath, c.relativePath)
    {
      StrTransitive(a.relativePath, b.relativePath, c.relativePath);
      StrTrichotomy(a.relativePath, c.relativePath);
    }
    if StrLess(a.photoId, b.photoId) && StrLess(b.photoId, c.photoId) {
      StrTransitive(a.photoId, b.photoId, c.photoId);
    }
  }

  /** Among these scores, being tied carries over. */
  ghost predicate TiesCarryOver(scores: seq<Option<real>>) {
    forall i, j, k :: 0 <= i < |scores| && 0 <= j < |scores| && 0 <= k < |scores| ==>
      Tied(scores[i], scores[j]) && Tied(scores[j], scores[k]) ==> Tied(scores[i], scores[k])
  }

  function Scores(group: seq<Candidate>): seq<Option<real>> {
    seq(|group|, i requires 0 <= i < |group| => group[i].qualityScore)
  }

  predicate DistinctIds(group: seq<Candidate>) {
    forall i, j :: 0 <= i < j < |group| ==> group[i].photoId != group[j].photoId
  }

  ghost predicate PreferenceTransitive(group: seq<Candidate>) {
    forall a, b, c :: a in group && b in group && c in group && Prefers(a, b) && Prefers(b, c) ==> Prefers(a, c)
  }

  lemma PrefersTransitive(a: Candidate, b: Candidate, c: Candidate)
    requires Prefers(a, b) && Prefers(b, c)
    requires Tied(a.qualityScore, b.qualityScore) && Tied(b.qualityScore, c.qualityScore) ==>
      Tied(a.qualityScore, c.qualityScore)
    requires Tied(b.qualityScore, a.qualityScore) && Tied(a.qualityScore, c.qualityScore) ==>
      Tied(b.qualityScore, c.qualityScore)
    requires Tied(a.qualityScore, c.qualityScore) && Tied(c.qualityScore, b.qualityScore) ==>
      Tied(a.qualityScore, b.qualityScore)
    ensures Prefers(a, c)
  {
    hide KeyLess;
    if Tied(a.qualityScore, b.qualityScore) && Tied(b.qualityScore, c.qualityScore) { KeyTransitive(a, b, c); }
  }

  lemma TiesGiveOrder(group: seq<Candidate>)
    requires TiesCarryOver(Scores(group))
    ensures PreferenceTransitive(group)
  {
    hide KeyLess, Prefers;
    forall a, b, c | a in group && b in group && c in group && Prefers(a, b) && Prefers(b, c)
      ensures Prefers(a, c)
    {
      var i :| 0 <= i < |group| && group[i] == a;
      var j :| 0 <= j < |group| && group[j] == b;
      var k :| 0 <= k < |group| && group[k] == c;
      var q := Scores(group);
      assert q[i] == a.qualityScore && q[j] == b.qualityScore && q[k] == c.qualityScore;
      PrefersTransitive(a, b, c);
    }
  }

  // ----- when scores do not tie transitively -----

  /** A photo of a given score whose resolution, and so its key, is ours to choose. */
  function Probe(score: Option<real>, pixels: int, index: nat): Candidate {
    Candidate(seq(index, _ => 'x'), 0, pixels, 1, 0, "", score)
  }

  /** Photos with the given scores, larger ones where the ranks are larger. */
  function Probes(scores: seq<Option<real>>, pixels: seq<int>): (group: seq<Candidate>)
    requires |pixels| == |scores|
    ensures |group| == |scores|
  {
    seq(|scores|, i requires 0 <= i < |scores| => Probe(scores[i], pixels[i], i))
  }

  lemma ProbesFit(scores: seq<Option<real>>, pixels: seq<int>)
    requires |pixels| == |scores|
    ensures Scores(Probes(scores, pixels)) == scores && DistinctIds(Probes(scores, pixels))
  {
    var group := Probes(scores, pixels);
    forall i, j | 0 <= i < j < |group| ensures group[i].photoId != group[j].photoId {
      assert |group[i].photoId| == i && |group[j].photoId| == j;
    }
  }

  /** i ties with j and j with k, but i beats k on quality: giving k the largest and i the smallest
      resolution closes a cycle k over j, j over i, i over k. */
  lemma BrokenTieGivesCycle(scores: seq<Option<real>>, i: nat, j: nat, k: nat) returns (group: seq<Candidate>)
    requires i < |scores| && j < |scores| && k < |scores|
    requires Tied(scores[i], scores[j]) && Tied(scores[j], scores[k]) && !Tied(scores[i], scores[k])
    requires scores[i].value > scores[k].value
    ensures Scores(group) == scores && DistinctIds(group)
    ensures Prefers(group[k], group[j]) && Prefers(group[j], group[i]) && Prefers(group[i], group[k])
    ensures !PreferenceTransitive(group)
  {
    var pixels := seq(|scores|, n => if n == k then 3 else if n == j then 2 else 1);
    group := Probes(scores, pixels);
    ProbesFit(scores, pixels);
    assert group[k].Pixels() == 3 && group[j].Pixels() == 2 && group[i].Pixels() == 1;
    assert group[k] in group && group[j] in group && group[i] in group;
    ExactlyOnePreferred(group[i], group[k]);
  }

  /** The ranking is a strict total order for every group with these scores, whatever their sizes and
      paths, exactly when ties among the scores carry over. */
  lemma RankingIsOrderIff(scores: seq<Option<real>>)
    ensures TiesCarryOver(scores) <==>
      forall group :: Scores(group) == scores && DistinctIds(group) ==> PreferenceTransitive(group)
  {
    if TiesCarryOver(scores) {
      forall group | Scores(group) == scores && DistinctIds(group) ensures PreferenceTransitive(group) {
        TiesGiveOrder(group);
      }
    } else {
      var i, j, k :| 0 <= i < |scores| && 0 <= j < |scores| && 0 <= k < |scores|
        && Tied(scores[i], scores[j]) && Tied(scores[j], scores[k]) && !Tied(scores[i], scores[k]);
      if scores[i].value > scores[k].value {
        var _ := BrokenTieGivesCycle(scores, i, j, k);
      } else {
        var _ := BrokenTieGivesCycle(scores, k, j, i);
      }
    }
  }

  /** With a photo unscored, ties carry over exactly when no two scores of the group differ by more than
      the tolerance - a group of which none is scored, for one: the unscored photo ties with everything. */
  lemma MissingScoreTiesIff(scores: seq<Option<real>>, m: nat)
    requires m < |scores| && scores[m].None?
    ensures TiesCarryOver(scores) <==>
      forall i, k :: 0 <= i < |scores| && 0 <= k < |scores| ==> Tied(scores[i], scores[k])
  {
    if TiesCarryOver(scores) {
      forall i, k | 0 <= i < |scores| && 0 <= k < |scores| ensures Tied(scores[i], scores[k]) {
        assert Tied(scores[i], scores[m]) && Tied(scores[m], scores[k]);
      }
    }
  }

  /** Three frames, half the tolerance apart or more: each is preferred to the next, in a circle. */
  lemma PreferenceCycle()
    ensures exists a, b, c ::
      Prefers(a, b) && Prefers(b, c) && Prefers(c, a) && DistinctIds([a, b, c])
      && a.qualityScore.Some? && b.qualityScore.Some? && c.qualityScore.Some?
  {
    var scores := [Some(0.53), Some(0.515), Some(0.50)];
    var group := BrokenTieGivesCycle(scores, 0, 1, 2);
    assert group == [group[0], group[1], group[2]];
    assert Scores(group)[0] == Some(0.53) && Scores(group)[1] == Some(0.515) && Scores(group)[2] == Some(0.50);
    assert Prefers(group[0], group[2]) && Prefers(group[2], group[1]) && Prefers(group[1], group[0]);
    assert DistinctIds([group[0], group[2], group[1]]);
  }

  /** On an ordered group of distinct photos, the ranking sorts, and the result does not depend on the
      order the photos arrived in. */
  lemma RankingSorts(group: seq<Candidate>)
    requires DistinctIds(group) && PreferenceTransitive(group)
    ensures WeakOrder(group, Prefers) && Connex(group, Prefers)
  {
    hide KeyLess, Prefers;
    forall a, b | a in group && b in group
      ensures Prefers(a, b) ==> !Prefers(b, a)
      ensures a != b ==> Prefers(a, b) || Prefers(b, a)
    {
      if a != b { ExactlyOnePreferred(a, b); } else { NeverSelfPreferred(a); }
    }
    forall a, b, c | a in group && b in group && c in group && !Prefers(a, b) && !Prefers(b, c)
      ensures !Prefers(a, c)
    {
      if a != b && b != c {
        assert Prefers(b, a) && Prefers(c, b);
        assert Prefers(c, a);
      }
    }
  }

  // ----- what the first place means -----

  /** One of the two is unscored, or their scores differ by at most 0.02. */
  predicate SameQuality(a: Candidate, b: Candidate) {
    a.qualityScore.Some? && b.qualityScore.Some? ==> -0.02 <= a.qualityScore.value - b.qualityScore.value <= 0.02
  }

  /** Positions of the separators in a path. */
  function Separators(path: string): set<nat> { set i: nat | i < |path| && path[i] == '/' }

  lemma {:induction false} DepthCountsSeparators(path: string)
    ensures PathDepth(path) == |Separators(path)|
  {
    if path == "" {
      assert Separators(path) == {};
    } else {
      DepthCountsSeparators(path[1..]);
      var rest, shifted := Separators(path[1..]), set i: nat | i in Separators(path) && i > 0;
      SameSizeShifted(rest, shifted);
      assert Separators(path) == shifted + if path[0] == '/' then {0} else {};
    }
  }

  lemma {:induction false} SameSizeShifted(a: set<nat>, b: set<nat>)
    requires forall i: nat :: i in a <==> i + 1 in b
    requires 0 !in b
    ensures |a| == |b|
  {
    if a == {} {
      NoneShifted(a, b);
    } else {
      var i :| i in a;
      SameSizeShifted(a - {i}, b - {i + 1});
    }
  }

  lemma NoneShifted(a: set<nat>, b: set<nat>)
    requires a == {} && 0 !in b && forall i: nat :: i in a <==> i + 1 in b
    ensures b == {}
  {
    forall i: nat ensures i !in b {
      if i > 0 { assert i - 1 in a <==> i in b; }
    }
  }

  /** No photo of the group scores better than `best` by more than 0.02, and of those it shares its
      quality with, none has more pixels; nor, at equal pixels, more bytes; nor, at equal bytes, fewer
      separators in its path; nor, at equal depth, a shorter path; nor, at equal length, an earlier one. */
  ghost predicate BestOf(group: seq<Candidate>, best: Candidate) {
    forall c :: c in group ==>
      && (c.qualityScore.Some? && best.qualityScore.Some? ==> c.qualityScore.value <= best.qualityScore.value + 0.02)
      && (SameQuality(c, best) ==> NoLesserClaim(best, c))
  }

  /** The rules in turn: each is asked only where all before it leave the two level. */
  ghost predicate NoLesserClaim(a: Candidate, b: Candidate) {
    var p, q := a.width * a.height, b.width * b.height;
    var m, n := |Separators(a.relativePath)|, |Separators(b.relativePath)|;
    var level := p == q && a.fileSizeBytes == b.fileSizeBytes;
    && p >= q
    && (p == q ==> a.fileSizeBytes >= b.fileSizeBytes)
    && (level ==> m <= n)
    && (level && m == n ==> |a.relativePath| <= |b.relativePath|)
    && (level && m == n && |a.relativePath| == |b.relativePath| ==> !StrLess(b.relativePath, a.relativePath))
    && (level && a.relativePath == b.relativePath ==> !StrLess(b.photoId, a.photoId))
  }

  lemma NotPreferredMeans(a: Candidate, b: Candidate)
    requires !Prefers(b, a)
    ensures a.qualityScore.Some? && b.qualityScore.Some? ==> b.qualityScore.value <= a.qualityScore.value + 0.02
    ensures SameQuality(b, a) ==> NoLesserClaim(a, b)
  {
    hide StrLess, PathDepth, Separators;
    DepthCountsSeparators(a.relativePath);
    DepthCountsSeparators(b.relativePath);
    StrTrichotomy(a.relativePath, b.relativePath);
  }

  /** In a ranking every photo is the best of those from its place on; the first is the best of all. */
  lemma RankedBestFirst(ranked: seq<Candidate>)
    requires Ordered(ranked, Prefers)
    ensures forall k :: 0 <= k < |ranked| ==> BestOf(ranked[k..], ranked[k])
  {
    hide Prefers, NoLesserClaim, SameQuality;
    forall k, c | 0 <= k < |ranked| && c in ranked[k..]
      ensures c.qualityScore.Some? && ranked[k].qualityScore.Some? ==> c.qualityScore.value <= ranked[k].qualityScore.value + 0.02
      ensures SameQuality(c, ranked[k]) ==> NoLesserClaim(ranked[k], c)
    {
      var j :| 0 <= j < |ranked[k..]| && ranked[k..][j] == c;
      NeverSelfPreferred(c);
      assert ranked[k + j] == c;
      NotPreferredMeans(ranked[k], c);
    }
  }

  lemma NeverSelfPreferred(a: Candidate)
    ensures !Prefers(a, a)
  {
    StrTrichotomy(a.photoId, a.photoId);
  }

  /** On such a group there is one ranking, whatever order the photos arrived in, and its first photo
      is preferred to every other. */
  lemma RankingUnique(group: seq<Candidate>, a: seq<Candidate>, b: seq<Candidate>)
    requires DistinctIds(group) && TiesCarryOver(Scores(group))
    requires multiset(a) == multiset(group) && multiset(b) == multiset(group)
    requires Ordered(a, Prefers) && Ordered(b, Prefers)
    ensures a == b
    ensures forall k :: 0 < k < |a| ==> a[k] == a[0] || Prefers(a[0], a[k])
  {
    hide Prefers, TiesCarryOver;
    TiesGiveOrder(group);
    RankingSorts(group);
    forall x ensures x in a <==> x in group {
      assert x in a <==> x in multiset(a);
      assert x in group <==> x in multiset(group);
    }
    assert Connex(a, Prefers);
    OrderedUnique(a, b, Prefers);
    forall k | 0 < k < |a| ensures a[k] == a[0] || Prefers(a[0], a[k]) {
      assert a[0] in a && a[k] in a;
    }
  }
}
