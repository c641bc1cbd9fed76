/** The queue's vocabulary (internal/jobs/jobs.go): job types, the status machine, the idempotent
    enqueue key and the retry schedule. Durations and times are integers, in nanoseconds. */
module Jobs {

  datatype JobType =
    | ExtractMetadata
    | ComputeFileHash
    | ComputePerceptualHash
    | AnalyzeQuality
    | GenerateThumbnail
    | BuildDuplicateGroups
    | BuildSimilarGroups
    | BuildClusters
  {
    function Name(): string {
      match this
      case ExtractMetadata => "EXTRACT_METADATA"
      case ComputeFileHash => "COMPUTE_FILE_HASH"
      case ComputePerceptualHash => "COMPUTE_PERCEPTUAL_HASH"
      case AnalyzeQuality => "ANALYZE_QUALITY"
      case GenerateThumbnail => "GENERATE_THUMBNAIL"
      case BuildDuplicateGroups => "BUILD_DUPLICATE_GROUPS"
      case BuildSimilarGroups => "BUILD_SIMILAR_GROUPS"
      case BuildClusters => "BUILD_CLUSTERS"
    }
  }

  datatype TargetType = TargetPhoto | TargetLibrary

  datatype Status = Pending | Running | Succeeded | Dead
  {
    predicate IsLive() { Pending? || Running? }
  }

  const PRIORITY_PER_PHOTO := 100
  const PRIORITY_AGGREGATE := 200
  const DEFAULT_MAX_ATTEMPTS := 5

  /** A request to create a job. */
  datatype Enqueue = Enqueue(
    jobType: JobType, targetType: TargetType, targetId: string, libraryId: string,
    priority: int, maxAttempts: int)

  function NewPhotoJob(t: JobType, photoId: string, libraryId: string): Enqueue {
    Enqueue(t, TargetPhoto, photoId, libraryId, PRIORITY_PER_PHOTO, DEFAULT_MAX_ATTEMPTS)
  }

  function NewLibraryJob(t: JobType, libraryId: string): Enqueue {
    Enqueue(t, TargetLibrary, libraryId, libraryId, PRIORITY_AGGREGATE, DEFAULT_MAX_ATTEMPTS)
  }

  function DedupeKey(t: JobType, targetId: string): string {
    t.Name() + ":" + targetId
  }

  /** No type name contains the separator... */
  lemma NameHasNoColon(t: JobType)
    ensures forall i :: 0 <= i < |t.Name()| ==> t.Name()[i] != ':'
  {}

  /** ... and no two have the same length. */
  lemma NameLengthsDiffer(t: JobType, u: JobType)
    ensures |t.Name()| == |u.Name()| ==> t == u
  {}

  /** One key per (type, target): two requests collide exactly when they name the same work. */
  lemma DedupeKeyInjective(t: JobType, x: string, u: JobType, y: string)
    ensures DedupeKey(t, x) == DedupeKey(u, y) <==> t == u && x == y
  {
    if DedupeKey(t, x) == DedupeKey(u, y) {
      NameHasNoColon(t);
      NameHasNoColon(u);
      NameLengthsDiffer(t, u);
      KeySplit(t.Name(), x, u.Name(), y);
    }
  }

  lemma KeySplit(n: string, x: string, m: string, y: string)
    requires n + ":" + x == m + ":" + y
    requires forall i :: 0 <= i < |n| ==> n[i] != ':'
    requires forall i :: 0 <= i < |m| ==> m[i] != ':'
    ensures |n| == |m| && x == y
  {
    var key := n + ":" + x;
    assert key[|n|] == ':' && key[|m|] == ':';
    assert key[|n| + 1..] == x && key[|m| + 1..] == y;
  }

  // ----- retry schedule -----

  const SECOND := 1_000_000_000
  const BACKOFF_BASE := 2 * SECOND
  const BACKOFF_CAP := 300 * SECOND

  function Pow2(n: nat): (p: nat)
    ensures p > 0
  {
    if n == 0 then 1 else 2 * Pow2(n - 1)
  }

  /** The delay before jitter: doubling from the base, capped. */
  function RawBackoff(attempt: int): int {
    var a := if attempt < 1 then 1 else attempt;
    var exp := if a - 1 > 30 then 30 else a - 1;
    var d := BACKOFF_BASE * Pow2(exp);
    if d > BACKOFF_CAP || d <= 0 then BACKOFF_CAP else d
  }

  /** The +/-25% jitter, truncated to whole nanoseconds and clamped. `u` is the random draw. */
  function Jittered(d: int, u: real): int {
    var wait := (d as real * (1.0 + (u - 0.5) / 2.0)).Floor;
    if wait > BACKOFF_CAP then BACKOFF_CAP
    else if wait < SECOND then SECOND
    else wait
  }

  /** Backoff before the given attempt, for a random draw in [0, 1). The schedule promises a wait of
      at least one second and at most the cap; the jitter in fact never goes below 1.5s. */
  function Backoff(attempt: int, u: real): (wait: int)
    requires 0.0 <= u < 1.0
    ensures 1_500_000_000 <= wait <= BACKOFF_CAP
  {
    RawBackoffRange(attempt);
    JitteredAtLeast(RawBackoff(attempt), u);
    Jittered(RawBackoff(attempt), u)
  }

  lemma RawBackoffRange(attempt: int)
    ensures BACKOFF_BASE <= RawBackoff(attempt) <= BACKOFF_CAP
  {}

  /** Two seconds before the first retry, and twice as long before each further one, up to five minutes. */
  lemma BackoffDoubles(attempt: int)
    ensures attempt <= 1 ==> RawBackoff(attempt) == 2_000_000_000
    ensures var doubled := 2 * RawBackoff(attempt);
      attempt >= 1 ==> RawBackoff(attempt + 1) == if doubled > 300_000_000_000 then 300_000_000_000 else doubled
  {
    assert Pow2(0) == 1;
    if attempt >= 9 { Pow2Monotone(8, if attempt - 1 > 30 then 30 else attempt - 1); }
    assert Pow2(8) == 256 by { assert Pow2(4) == 16; }
  }

  /** The wait is within a quarter of that, up to the nanosecond and the cap, and exactly it for the
      middle draw. */
  lemma JitterIsAQuarter(attempt: int, u: real)
    requires 0.0 <= u < 1.0
    ensures var d, wait := RawBackoff(attempt), Backoff(attempt, u);
      && 4 * wait >= 3 * d - 4 && 4 * wait <= 5 * d
      && (u == 0.5 ==> wait == d)
      && (u < 0.5 ==> wait <= d) && (u >= 0.5 ==> wait >= d)
  {
    hide RawBackoff, Jittered;
    RawBackoffRange(attempt);
    JitteredNear(RawBackoff(attempt), u);
  }

  lemma JitteredNear(d: int, u: real)
    requires BACKOFF_BASE <= d <= BACKOFF_CAP && 0.0 <= u < 1.0
    ensures var wait := Jittered(d, u);
      && 4 * wait >= 3 * d - 4 && 4 * wait <= 5 * d
      && (u == 0.5 ==> wait == d)
      && (u < 0.5 ==> wait <= d) && (u >= 0.5 ==> wait >= d)
  {
    var x := Scaled(d, u);
    JitteredIs(d, u, x);
    ScaledNear(d, u);
    hide Jittered, Scaled;
    RoundedNear(d, x);
  }

  function Scaled(d: int, u: real): real { d as real * (1.0 + (u - 0.5) / 2.0) }

  lemma JitteredIs(d: int, u: real, x: real)
    requires x == Scaled(d, u)
    ensures Jittered(d, u) == if x.Floor > BACKOFF_CAP then BACKOFF_CAP else if x.Floor < SECOND then SECOND else x.Floor
  {}

  lemma RoundedNear(d: int, x: real)
    requires BACKOFF_BASE <= d <= BACKOFF_CAP && 0.75 * d as real <= x <= 1.25 * d as real
    ensures var n := x.Floor;
      var wait := if n > BACKOFF_CAP then BACKOFF_CAP else if n < SECOND then SECOND else n;
      && 4 * wait >= 3 * d - 4 && 4 * wait <= 5 * d
      && (x <= d as real ==> wait <= d) && (x >= d as real ==> wait >= d)
  {
    var n := x.Floor;
    assert n as real <= x < n as real + 1.0;
    assert 4.0 * x >= 3.0 * d as real && 4.0 * x <= 5.0 * d as real;
  }

  lemma ScaledNear(d: int, u: real)
    requires d >= 0 && 0.0 <= u < 1.0
    ensures 0.75 * d as real <= Scaled(d, u) <= 1.25 * d as real
    ensures u <= 0.5 ==> Scaled(d, u) <= d as real
    ensures u >= 0.5 ==> Scaled(d, u) >= d as real
  {
    var jitter := 1.0 + (u - 0.5) / 2.0;
    TimesBetween(d as real, 0.75, jitter);
    TimesBetween(d as real, jitter, 1.25);
    if u <= 0.5 { TimesBetween(d as real, jitter, 1.0); }
    if u >= 0.5 { TimesBetween(d as real, 1.0, jitter); }
  }

  lemma TimesBetween(d: real, a: real, b: real)
    requires d >= 0.0 && a <= b
    ensures d * a <= d * b
  {}

  lemma JitteredAtLeast(d: int, u: real)
    requires d >= BACKOFF_BASE
    requires 0.0 <= u < 1.0
    ensures Jittered(d, u) >= 1_500_000_000
  {
    var jitter := 1.0 + (u - 0.5) / 2.0;
    assert d as real * jitter >= d as real * 0.75;
  }

  lemma JitteredMonotone(d: int, e: int, u: real)
    requires 0 <= d <= e
    requires 0.0 <= u < 1.0
    ensures Jittered(d, u) <= Jittered(e, u)
  {
    var jitter := 1.0 + (u - 0.5) / 2.0;
    var x, y := d as real * jitter, e as real * jitter;
    assert x <= y by {
      assert (e - d) as real * jitter >= 0.0;
      assert y - x == (e - d) as real * jitter;
    }
    assert x.Floor <= y.Floor;
  }

  lemma {:induction false} Pow2Monotone(a: nat, b: nat)
    requires a <= b
    ensures Pow2(a) <= Pow2(b)
  {
    if a < b { Pow2Monotone(a, b - 1); }
  }

  lemma RawBackoffMonotone(a: int, b: int)
    requires a <= b
    ensures RawBackoff(a) <= RawBackoff(b)
  {
    var ea := if a < 1 then 0 else if a - 1 > 30 then 30 else a - 1;
    var eb := if b < 1 then 0 else if b - 1 > 30 then 30 else b - 1;
    Pow2Monotone(ea, eb);
  }

  /** For one random draw, a later attempt never waits less than an earlier one. */
  lemma BackoffGrows(a: int, b: int, u: real)
    requires a <= b
    requires 0.0 <= u < 1.0
    ensures Backoff(a, u) <= Backoff(b, u)
  {
    RawBackoffMonotone(a, b);
    RawBackoffRange(a);
    JitteredMonotone(RawBackoff(a), RawBackoff(b), u);
  }
}
