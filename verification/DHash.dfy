/** The difference hash (internal/hashing/dhash.go:67-117): 64 comparisons of neighbouring grey values
    packed into one word, and what the Hamming distance of two such words counts. */
module DHash {
  import opened Hamming
  import opened Quality

  /** Bit k of the word, the lowest being 0. */
  predicate Bit(h: bv64, k: nat) { LowBit(Shifted(h, k)) }

  // ----- bits under OR, XOR and shifts -----

  function Or(a: bv64, b: bv64): bv64 { a | b }

  function Xor(a: bv64, b: bv64): bv64 { a ^ b }

  lemma OrHalf(a: bv64, b: bv64)
    ensures Half(Or(a, b)) == Or(Half(a), Half(b)) && (LowBit(Or(a, b)) <==> LowBit(a) || LowBit(b))
  {}

  lemma {:induction false} BitOr(a: bv64, b: bv64, k: nat)
    ensures Bit(Or(a, b), k) <==> Bit(a, k) || Bit(b, k)
    decreases k
  {
    hide Half, LowBit, Or;
    OrHalf(a, b);
    if k > 0 { BitOr(Half(a), Half(b), k - 1); }
  }

  lemma XorParts(a: bv64, b: bv64)
    ensures Half(Xor(a, b)) == Xor(Half(a), Half(b)) && (LowBit(Xor(a, b)) <==> LowBit(a) != LowBit(b))
  {}

  lemma {:induction false} BitXor(a: bv64, b: bv64, k: nat)
    ensures Bit(Xor(a, b), k) <==> Bit(a, k) != Bit(b, k)
    decreases k
  {
    hide Half, LowBit, Xor;
    XorParts(a, b);
    if k > 0 { BitXor(Half(a), Half(b), k - 1); }
  }

  lemma {:induction false} NoBits(k: nat)
    ensures !Bit(0, k)
  {
    assert Half(0) == 0 && !LowBit(0);
    if k > 0 { NoBits(k - 1); }
  }

  function Power(n: bv64): bv64
    requires n < 64
  {
    1 << n
  }

  lemma PowerHalf(n: bv64)
    requires 1 <= n < 64
    ensures Half(Power(n)) == Power(n - 1) && !LowBit(Power(n))
  {}

  lemma PowerZero()
    ensures Half(Power(0)) == 0 && LowBit(Power(0))
  {}

  function Value(n: bv64): int { n as int }

  function Following(n: bv64): bv64 { n + 1 }

  /** Counting up and down in the shift's own type does not wrap around. */
  lemma CountsUp(n: bv64)
    requires Value(n) < 64
    ensures n < 64 && Value(Following(n)) == Value(n) + 1
  {}

  lemma ZeroValue()
    ensures Value(0) == 0
  {}

  lemma CountsDown(n: bv64)
    requires 1 <= n < 64
    ensures Value(n - 1) == Value(n) - 1 && Value(n) > 0
  {}

  lemma {:induction false} BitOfPower(n: bv64, k: nat)
    requires n < 64
    ensures Bit(Power(n), k) <==> k == Value(n)
    decreases k
  {
    hide Half, LowBit, Power, Value;
    PowerZero();
    assert Value(0) == 0 by { ZeroValue(); }
    if n > 0 {
      PowerHalf(n);
      CountsDown(n);
    }
    if k > 0 {
      if n > 0 { BitOfPower(n - 1, k - 1); } else { NoBits(k - 1); }
    }
  }

  // ----- the hash -----

  const ROWS := 8
  const COLUMNS := 9

  ghost predicate IsGrid(p: Plane) { IsPlane(p, COLUMNS, ROWS) }

  /** Comparison k, in reading order: the value falls from one column to the next. */
  predicate Falls(p: Plane, k: nat)
    requires IsGrid(p) && k < 64
  {
    p[k / 8][k % 8] > p[k / 8][k % 8 + 1]
  }

  /** The first n bits are the first n comparisons and the others are clear. */
  ghost predicate Packs(h: bv64, p: Plane, n: nat)
    requires IsGrid(p)
  {
    forall k :: 0 <= k < 64 ==> (Bit(h, k) <==> k < n && Falls(p, k))
  }

  lemma PackOne(h: bv64, p: Plane, n: nat, bit: bv64)
    requires IsGrid(p) && n < 64 && Packs(h, p, n) && Value(bit) == n && bit < 64
    ensures Packs(if Falls(p, n) then Or(h, Power(bit)) else h, p, n + 1)
  {
    hide Bit, Power, Falls, Or, Value;
    if Falls(p, n) {
      forall k: nat | k < 64 ensures Bit(Or(h, Power(bit)), k) <==> Bit(h, k) || k == n {
        BitOr(h, Power(bit), k);
        BitOfPower(bit, k);
      }
    }
  }

  lemma PackNothing(p: Plane)
    requires IsGrid(p)
    ensures Packs(0, p, 0)
  {
    forall k: nat | k < 64 ensures !Bit(0, k) { NoBits(k); }
  }

  /** The comparisons of one row. */
  method HashRow(grey: array2<real>, y: nat, hash0: bv64, bit0: bv64) returns (hash: bv64, bit: bv64)
    requires grey.Length0 == ROWS && grey.Length1 == COLUMNS && y < ROWS
    requires Value(bit0) == 8 * y && Packs(hash0, Contents(grey), 8 * y)
    ensures Value(bit) == 8 * (y + 1) && Packs(hash, Contents(grey), 8 * (y + 1))
  {
    hide Packs, Power, Or, Falls, Value, Following, Contents;
    hash, bit := hash0, bit0;
    ghost var p := Contents(grey);
    for x := 0 to COLUMNS - 1
      invariant Value(bit) == 8 * y + x && Packs(hash, p, 8 * y + x)
    {
      CountsUp(bit);
      FallsAt(p, x, y);
      PackOne(hash, p, 8 * y + x, bit);
      if grey[y, x] > grey[y, x + 1] {
        hash := Or(hash, Power(bit));
      }
      bit := Following(bit);
    }
  }

  /** The hash of an image already reduced to the 9x8 grid. */
  method Hash(small: array2<Rgb>) returns (hash: bv64)
    requires Bytes(small) && small.Length0 == ROWS && small.Length1 == COLUMNS
    ensures Packs(hash, Grey(small), 64)
  {
    hide Packs, Luma, Value, Contents, Grey;
    var grey := ToGreyscale(small);
    hash := 0;
    var bit: bv64 := 0;
    PackNothing(Contents(grey));
    ZeroValue();
    for y := 0 to ROWS
      invariant Value(bit) == 8 * y && Packs(hash, Contents(grey), 8 * y) && Contents(grey) == Grey(small)
    {
      hash, bit := HashRow(grey, y, hash, bit);
    }
  }

  lemma FallsAt(p: Plane, x: nat, y: nat)
    requires IsGrid(p) && x < COLUMNS - 1 && y < ROWS
    ensures Falls(p, 8 * y + x) <==> p[y][x] > p[y][x + 1]
  {
    assert (8 * y + x) / 8 == y && (8 * y + x) % 8 == x;
  }

  // ----- what the distance counts -----

  function CountBits(h: bv64, n: nat): nat {
    if n == 0 then 0 else CountBits(h, n - 1) + if Bit(h, n - 1) then 1 else 0
  }

  lemma {:induction false} CountFromLow(h: bv64, n: nat)
    requires n > 0
    ensures CountBits(h, n) == (if LowBit(h) then 1 else 0) + CountBits(Half(h), n - 1)
  {
    hide Half, LowBit;
    if n > 1 { CountFromLow(h, n - 1); }
  }

  lemma {:induction false} OnesAreBits(h: bv64, n: nat)
    ensures OnesLow(h, n) == CountBits(h, n)
    decreases n
  {
    hide Half, LowBit, Bit;
    if n > 0 {
      OnesAreBits(Half(h), n - 1);
      CountFromLow(h, n);
    }
  }

  /** How many of the first n comparisons come out differently. */
  function Disagreements(p: Plane, q: Plane, n: nat): nat
    requires IsGrid(p) && IsGrid(q) && n <= 64
  {
    if n == 0 then 0 else Disagreements(p, q, n - 1) + if Falls(p, n - 1) != Falls(q, n - 1) then 1 else 0
  }

  lemma {:induction false} XorCounts(g: bv64, h: bv64, p: Plane, q: Plane, n: nat)
    requires IsGrid(p) && IsGrid(q) && n <= 64 && Packs(g, p, 64) && Packs(h, q, 64)
    ensures CountBits(Xor(g, h), n) == Disagreements(p, q, n)
  {
    hide Bit, Falls, Xor;
    if n > 0 {
      XorCounts(g, h, p, q, n - 1);
      BitXor(g, h, n - 1);
    }
  }

  /** The Hamming distance of two hashes is the number of comparisons on which the images disagree. */
  lemma DistanceCountsDisagreements(g: bv64, h: bv64, p: Plane, q: Plane)
    requires IsGrid(p) && IsGrid(q) && Packs(g, p, 64) && Packs(h, q, 64)
    ensures HammingDistance(g, h) == Disagreements(p, q, 64)
  {
    hide OnesLow, CountBits, Disagreements, Packs;
    assert HammingDistance(g, h) == OnesLow(Xor(g, h), 64);
    hide Xor, HammingDistance;
    OnesAreBits(Xor(g, h), 64);
    XorCounts(g, h, p, q, 64);
  }

  lemma {:induction false} NoDisagreement(p: Plane, q: Plane, n: nat)
    requires IsGrid(p) && IsGrid(q) && n <= 64
    ensures Disagreements(p, q, n) == 0 <==> forall k :: 0 <= k < n ==> Falls(p, k) == Falls(q, k)
  {
    hide Falls;
    if n > 0 { NoDisagreement(p, q, n - 1); }
  }

  /** Equal hashes mean equal comparisons, and the other way round. */
  lemma SameHashIff(g: bv64, h: bv64, p: Plane, q: Plane)
    requires IsGrid(p) && IsGrid(q) && Packs(g, p, 64) && Packs(h, q, 64)
    ensures g == h <==> forall k :: 0 <= k < 64 ==> Falls(p, k) == Falls(q, k)
  {
    hide Packs, Falls, Disagreements;
    DistanceCountsDisagreements(g, h, p, q);
    NoDisagreement(p, q, 64);
    Identity(g, h);
  }

  ghost predicate Retoned(p: Plane, q: Plane, tone: real -> real)
    requires IsGrid(p) && IsGrid(q)
  {
    (forall a: real, b: real :: a < b <==> tone(a) < tone(b))
    && forall x, y :: 0 <= x < COLUMNS && 0 <= y < ROWS ==> q[y][x] == tone(p[y][x])
  }

  /** Any tone curve that keeps the order of grey values, such as brightening, keeps the hash. */
  lemma ToneCurveKeepsHash(g: bv64, h: bv64, p: Plane, q: Plane, tone: real -> real)
    requires IsGrid(p) && IsGrid(q) && Packs(g, p, 64) && Packs(h, q, 64) && Retoned(p, q, tone)
    ensures g == h
  {
    hide Packs;
    forall k | 0 <= k < 64 ensures Falls(p, k) == Falls(q, k) {
      var y, x := k / 8, k % 8;
      assert q[y][x] == tone(p[y][x]) && q[y][x + 1] == tone(p[y][x + 1]);
    }
    SameHashIff(g, h, p, q);
  }
}
