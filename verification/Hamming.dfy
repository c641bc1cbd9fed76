/** The distance between perceptual hashes (internal/hashing/dhash.go). */
module Hamming {

  const MAX_SIMILARITY_THRESHOLD := 24

  predicate LowBit(h: bv64) { h & 1 == 1 }

  function Half(h: bv64): bv64 { h >> 1 }

  predicate IsXor(a: bv64, b: bv64, x: bv64) { x == a ^ b }

  /** How many of the lowest n bits are set. */
  function OnesLow(h: bv64, n: nat): (ones: nat)
    ensures ones <= n
  {
    if n == 0 then 0 else (if LowBit(h) then 1 else 0) + OnesLow(Half(h), n - 1)
  }

  /** XOR, then bits.OnesCount64. */
  function HammingDistance(a: bv64, b: bv64): (d: nat)
    ensures d <= 64
  {
    OnesLow(a ^ b, 64)
  }

  // ----- bit facts -----

  lemma XorHalf(a: bv64, b: bv64, x: bv64)
    requires IsXor(a, b, x)
    ensures IsXor(Half(a), Half(b), Half(x))
  {}

  lemma XorLow(a: bv64, b: bv64, x: bv64)
    requires IsXor(a, b, x)
    ensures LowBit(x) ==> LowBit(a) || LowBit(b)
  {}

  lemma HalfZero(h: bv64)
    ensures !LowBit(h) && Half(h) == 0 <==> h == 0
  {}

  lemma XorFacts(a: bv64, b: bv64)
    ensures a ^ b == 0 <==> a == b
    ensures a ^ b == b ^ a
  {}

  lemma XorChain(a: bv64, b: bv64, c: bv64, p: bv64, q: bv64)
    requires p == a ^ b && q == b ^ c
    ensures p ^ q == a ^ c
  {}

  // ----- shifting everything out -----

  function Shifted(h: bv64, n: nat): bv64 {
    if n == 0 then h else Shifted(Half(h), n - 1)
  }

  lemma {:induction false} ShiftedSum(h: bv64, m: nat, n: nat)
    ensures Shifted(h, m + n) == Shifted(Shifted(h, m), n)
    decreases m
  {
    hide Half;
    if m > 0 { ShiftedSum(Half(h), m - 1, n); }
  }

  function ByteDown(h: bv64): bv64 { h >> 8 }

  lemma EightHalves(h: bv64)
    ensures Half(Half(Half(Half(Half(Half(Half(Half(h)))))))) == ByteDown(h)
  {}

  lemma EightBytes(h: bv64)
    ensures ByteDown(ByteDown(ByteDown(ByteDown(ByteDown(ByteDown(ByteDown(ByteDown(h)))))))) == 0
  {}

  lemma ShiftedEight(h: bv64)
    ensures Shifted(h, 8) == ByteDown(h)
  {
    hide Half, ByteDown;
    EightHalves(h);
    var h4 := Half(Half(Half(Half(h))));
    assert Shifted(h, 8) == Shifted(Half(h), 7) == Shifted(Half(Half(h)), 6) == Shifted(Half(Half(Half(h))), 5);
    assert Shifted(Half(Half(Half(h))), 5) == Shifted(h4, 4) == Shifted(Half(h4), 3) == Shifted(Half(Half(h4)), 2);
    var h6 := Half(Half(h4));
    assert Shifted(h6, 2) == Shifted(Half(h6), 1) == Shifted(Half(Half(h6)), 0);
  }

  lemma {:induction false} ShiftedBytes(h: bv64, n: nat)
    ensures Shifted(h, 8 * (n + 1)) == Shifted(ByteDown(h), 8 * n)
  {
    hide ByteDown, Shifted;
    ShiftedSum(h, 8, 8 * n);
    ShiftedEight(h);
  }

  lemma ShiftedOut(h: bv64)
    ensures Shifted(h, 64) == 0
  {
    hide ByteDown;
    EightBytes(h);
    var h1 := ByteDown(h);
    var h2 := ByteDown(h1);
    var h3 := ByteDown(h2);
    var h4 := ByteDown(h3);
    var h5 := ByteDown(h4);
    var h6 := ByteDown(h5);
    var h7 := ByteDown(h6);
    ShiftedBytes(h, 7);
    ShiftedBytes(h1, 6);
    ShiftedBytes(h2, 5);
    ShiftedBytes(h3, 4);
    ShiftedBytes(h4, 3);
    ShiftedBytes(h5, 2);
    ShiftedBytes(h6, 1);
    ShiftedBytes(h7, 0);
  }

  // ----- metric -----

  lemma {:induction false} NoOnesIsZero(h: bv64, n: nat)
    requires Shifted(h, n) == 0
    ensures OnesLow(h, n) == 0 <==> h == 0
    decreases n
  {
    hide Half, LowBit;
    HalfZero(h);
    if n > 0 { NoOnesIsZero(Half(h), n - 1); }
  }

  lemma {:induction false} OnesOfXor(a: bv64, b: bv64, x: bv64, n: nat)
    requires IsXor(a, b, x)
    ensures OnesLow(x, n) <= OnesLow(a, n) + OnesLow(b, n)
    decreases n
  {
    hide Half, LowBit, IsXor;
    if n > 0 {
      XorHalf(a, b, x);
      XorLow(a, b, x);
      OnesOfXor(Half(a), Half(b), Half(x), n - 1);
    }
  }

  lemma Identity(a: bv64, b: bv64)
    ensures HammingDistance(a, b) == 0 <==> a == b
  {
    hide OnesLow, Shifted;
    XorFacts(a, b);
    ShiftedOut(a ^ b);
    NoOnesIsZero(a ^ b, 64);
  }

  lemma Symmetry(a: bv64, b: bv64)
    ensures HammingDistance(a, b) == HammingDistance(b, a)
  {
    hide OnesLow;
    XorFacts(a, b);
  }

  lemma TriangleInequality(a: bv64, b: bv64, c: bv64)
    ensures HammingDistance(a, c) <= HammingDistance(a, b) + HammingDistance(b, c)
  {
    hide OnesLow;
    Triangle(a, b, c, a ^ b, b ^ c);
  }

  /** Hamming distance is a metric, bounded by the width of the hash. */
  lemma Metric(a: bv64, b: bv64, c: bv64)
    ensures HammingDistance(a, b) == 0 <==> a == b
    ensures HammingDistance(a, b) == HammingDistance(b, a)
    ensures HammingDistance(a, c) <= HammingDistance(a, b) + HammingDistance(b, c)
  {
    hide HammingDistance;
    Identity(a, b);
    Symmetry(a, b);
    TriangleInequality(a, b, c);
  }

  lemma Triangle(a: bv64, b: bv64, c: bv64, p: bv64, q: bv64)
    requires p == a ^ b && q == b ^ c
    ensures OnesLow(a ^ c, 64) <= OnesLow(p, 64) + OnesLow(q, 64)
  {
    hide OnesLow;
    XorChain(a, b, c, p, q);
    OnesOfXor(p, q, a ^ c, 64);
  }
}
