/** Image quality (internal/quality/quality.go): smoothing, Laplacian variance, luminance statistics and
    the scores built from them. Floating point is modelled by the reals. */
module Quality {

  /** Rows of luminance values, top row first. */
  type Plane = seq<seq<real>>

  ghost predicate IsPlane(p: Plane, w: nat, h: nat) {
    |p| == h && forall y :: 0 <= y < h ==> |p[y]| == w
  }

  ghost function Contents(g: array2<real>): (p: Plane)
    reads g
    ensures IsPlane(p, g.Length1, g.Length0)
    ensures forall x, y :: 0 <= x < g.Length1 && 0 <= y < g.Length0 ==> p[y][x] == g[y, x]
  {
    seq(g.Length0, y requires 0 <= y < g.Length0 reads g =>
      seq(g.Length1, x requires 0 <= x < g.Length1 reads g => g[y, x]))
  }

  lemma SamePlane(p: Plane, q: Plane, w: nat, h: nat)
    requires IsPlane(p, w, h) && IsPlane(q, w, h)
    requires forall x, y :: 0 <= x < w && 0 <= y < h ==> p[y][x] == q[y][x]
    ensures p == q
  {
    forall y | 0 <= y < h ensures p[y] == q[y] {}
  }

  // ----- smoothing -----

  /** No index inside is nearer. */
  lemma ClampIsNearest(i: int, n: nat, j: nat)
    requires j < n
    ensures 0 <= Clamp(i, n) < n
    ensures var a, b := Clamp(i, n) - i, j - i; (if a < 0 then -a else a) <= if b < 0 then -b else b
  {}

  /** The nearest index inside 0..n. */
  function Clamp(i: int, n: nat): int { if i < 0 then 0 else if i > n - 1 then n - 1 else i }

  /** The 3x3 binomial kernel, edges clamped to the nearest pixel. */
  function Binomial(p: Plane, w: nat, h: nat, x: int, y: int): real
    requires IsPlane(p, w, h) && 0 <= x < w && 0 <= y < h
  {
    var (l, r, u, d) := (Clamp(x - 1, w), Clamp(x + 1, w), Clamp(y - 1, h), Clamp(y + 1, h));
    (p[u][l] + 2.0 * p[u][x] + p[u][r]
     + 2.0 * p[y][l] + 4.0 * p[y][x] + 2.0 * p[y][r]
     + p[d][l] + 2.0 * p[d][x] + p[d][r]) / 16.0
  }

  ghost function Smoothed(p: Plane, w: nat, h: nat): (q: Plane)
    requires IsPlane(p, w, h)
    ensures IsPlane(q, w, h)
  {
    if w < 3 || h < 3 then p
    else seq(h, y requires 0 <= y < h => seq(w, x requires 0 <= x < w => Binomial(p, w, h, x, y)))
  }

  /** One horizontal 1-2-1 step. */
  function Across(p: Plane, w: nat, h: nat, x: int, y: int): real
    requires IsPlane(p, w, h) && 0 <= x < w && 0 <= y < h
  {
    (p[y][Clamp(x - 1, w)] + 2.0 * p[y][x] + p[y][Clamp(x + 1, w)]) / 4.0
  }

  method SmoothAcross(g: array2<real>) returns (tmp: array2<real>)
    ensures fresh(tmp) && tmp.Length0 == g.Length0 && tmp.Length1 == g.Length1
    ensures forall x, y :: 0 <= x < g.Length1 && 0 <= y < g.Length0 ==>
      tmp[y, x] == Across(Contents(g), g.Length1, g.Length0, x, y)
  {
    var w, h := g.Length1, g.Length0;
    tmp := new real[h, w];
    for y := 0 to h
      invariant forall i, j :: 0 <= i < w && 0 <= j < y ==> tmp[j, i] == Across(Contents(g), w, h, i, j)
    {
      for x := 0 to w
        invariant forall i, j :: 0 <= i < w && 0 <= j < y ==> tmp[j, i] == Across(Contents(g), w, h, i, j)
        invariant forall i :: 0 <= i < x ==> tmp[y, i] == Across(Contents(g), w, h, i, y)
      {
        tmp[y, x] := (g[y, Clamp(x - 1, w)] + 2.0 * g[y, x] + g[y, Clamp(x + 1, w)]) / 4.0;
      }
    }
  }

  /** Two one-dimensional passes in turn are the two-dimensional kernel. */
  lemma PassesMakeKernel(p: Plane, w: nat, h: nat, x: int, y: int)
    requires IsPlane(p, w, h) && 0 <= x < w && 0 <= y < h
    ensures Binomial(p, w, h, x, y) ==
      (Across(p, w, h, x, Clamp(y - 1, h)) + 2.0 * Across(p, w, h, x, y) + Across(p, w, h, x, Clamp(y + 1, h))) / 4.0
  {}

  /** The smoothed image; an image too small for the kernel is returned as it is. */
  method Smooth(g: array2<real>) returns (out: array2<real>)
    ensures out.Length0 == g.Length0 && out.Length1 == g.Length1
    ensures Contents(out) == Smoothed(Contents(g), g.Length1, g.Length0)
    ensures if g.Length1 < 3 || g.Length0 < 3 then out == g else fresh(out)
  {
    hide Across, Binomial;
    var w, h := g.Length1, g.Length0;
    if w < 3 || h < 3 {
      return g;
    }
    ghost var p := Contents(g);
    var tmp := SmoothAcross(g);
    out := new real[h, w];
    for y := 0 to h
      invariant forall i, j :: 0 <= i < w && 0 <= j < y ==> out[j, i] == Binomial(p, w, h, i, j)
      modifies out
    {
      for x := 0 to w
        invariant forall i, j :: 0 <= i < w && 0 <= j < y ==> out[j, i] == Binomial(p, w, h, i, j)
        invariant forall i :: 0 <= i < x ==> out[y, i] == Binomial(p, w, h, i, y)
        modifies out
      {
        PassesMakeKernel(p, w, h, x, y);
        out[y, x] := (tmp[Clamp(y - 1, h), x] + 2.0 * tmp[y, x] + tmp[Clamp(y + 1, h), x]) / 4.0;
      }
    }
    SamePlane(Contents(out), Smoothed(p, w, h), w, h);
  }

  ghost predicate InRange(p: Plane, low: real, high: real) {
    forall x, y :: 0 <= y < |p| && 0 <= x < |p[y]| ==> low <= p[y][x] <= high
  }

  /** Smoothing stays within the input's range. */
  lemma SmoothingKeepsRange(p: Plane, w: nat, h: nat, low: real, high: real)
    requires IsPlane(p, w, h) && InRange(p, low, high)
    ensures InRange(Smoothed(p, w, h), low, high)
  {
    if w >= 3 && h >= 3 {
      forall x, y | 0 <= y < h && 0 <= x < w ensures low <= Smoothed(p, w, h)[y][x] <= high {
        var (l, r, u, d) := (Clamp(x - 1, w), Clamp(x + 1, w), Clamp(y - 1, h), Clamp(y + 1, h));
        assert 16.0 * low <= 16.0 * Binomial(p, w, h, x, y) <= 16.0 * high;
      }
    }
  }

  ghost function Brighter(p: Plane, w: nat, h: nat, c: real): (q: Plane)
    requires IsPlane(p, w, h)
    ensures IsPlane(q, w, h)
    ensures forall x, y :: 0 <= x < w && 0 <= y < h ==> q[y][x] == p[y][x] + c
  {
    seq(h, y requires 0 <= y < h => seq(w, x requires 0 <= x < w => p[y][x] + c))
  }

  lemma SmoothingCommutesWithBrightness(p: Plane, w: nat, h: nat, c: real)
    requires IsPlane(p, w, h)
    ensures Smoothed(Brighter(p, w, h, c), w, h) == Brighter(Smoothed(p, w, h), w, h, c)
  {
    hide Brighter;
    SamePlane(Smoothed(Brighter(p, w, h, c), w, h), Brighter(Smoothed(p, w, h), w, h, c), w, h);
  }

  // ----- sums -----

  function Sum(s: seq<real>): real {
    if s == [] then 0.0 else Sum(s[..|s| - 1]) + s[|s| - 1]
  }

  function Squared(x: real): real { x * x }

  /** The sum of squared differences from m. */
  function Spread(s: seq<real>, m: real): real {
    if s == [] then 0.0 else Spread(s[..|s| - 1], m) + Squared(s[|s| - 1] - m)
  }

  function Mean(s: seq<real>): real
    requires s != []
  {
    Sum(s) / |s| as real
  }

  /** The population variance. */
  function Variance(s: seq<real>): real
    requires s != []
  {
    Spread(s, Mean(s)) / |s| as real
  }

  const NOISE_FLOOR := 0.000_000_001

  function ClampNoise(v: real): real { if v < NOISE_FLOOR then 0.0 else v }

  lemma SumPush(s: seq<real>, v: real, m: real)
    ensures Sum(s + [v]) == Sum(s) + v && Spread(s + [v], m) == Spread(s, m) + Squared(v - m)
  {
    assert (s + [v])[..|s|] == s;
  }

  method SpreadOf(s: seq<real>, m: real) returns (sum: real)
    ensures sum == Spread(s, m)
  {
    sum := 0.0;
    for i := 0 to |s|
      invariant sum == Spread(s[..i], m)
    {
      var d := s[i] - m;
      sum := sum + d * d;
      assert s[..i + 1] == s[..i] + [s[i]];
      SumPush(s[..i], s[i], m);
      assert Squared(d) == d * d;
    }
    assert s[..|s|] == s;
  }

  // ----- Laplacian variance -----

  function Response(p: Plane, w: nat, h: nat, x: int, y: int): real
    requires IsPlane(p, w, h) && 1 <= x < w - 1 && 1 <= y < h - 1
  {
    p[y - 1][x] + p[y + 1][x] + p[y][x - 1] + p[y][x + 1] - 4.0 * p[y][x]
  }

  /** The first n responses of row y. */
  ghost function RowResponses(p: Plane, w: nat, h: nat, y: int, n: nat): (s: seq<real>)
    requires IsPlane(p, w, h) && 1 <= y < h - 1 && n <= w - 2
    ensures |s| == n
  {
    seq(n, i requires 0 <= i < n => Response(p, w, h, i + 1, y))
  }

  /** The responses of the first rows inside the border, in reading order. */
  ghost function Responses(p: Plane, w: nat, h: nat, rows: nat): (s: seq<real>)
    requires IsPlane(p, w, h) && w >= 3 && rows <= h - 2
    ensures |s| == rows * (w - 2)
  {
    if rows == 0 then [] else Responses(p, w, h, rows - 1) + RowResponses(p, w, h, rows, w - 2)
  }

  ghost function Sharpness(p: Plane, w: nat, h: nat): real
    requires IsPlane(p, w, h)
  {
    if w < 3 || h < 3 then 0.0
    else
      var s := Responses(p, w, h, h - 2);
      if s == [] then 0.0 else ClampNoise(Variance(s))
  }

  lemma RowGrows(p: Plane, w: nat, h: nat, y: int, n: nat)
    requires IsPlane(p, w, h) && 1 <= y < h - 1 && n + 1 <= w - 2
    ensures RowResponses(p, w, h, y, n + 1) == RowResponses(p, w, h, y, n) + [Response(p, w, h, n + 1, y)]
  {}

  method LaplacianVariance(g: array2<real>) returns (v: real)
    ensures v == Sharpness(Contents(g), g.Length1, g.Length0)
  {
    hide Response, RowResponses, Responses, Spread, Sum;
    var w, h := g.Length1, g.Length0;
    if w < 3 || h < 3 {
      return 0.0;
    }
    ghost var p := Contents(g);
    var n, sum, response: seq<real> := 0, 0.0, [];
    NothingYet(p, w, h);
    for y := 1 to h - 1
      invariant response == Responses(p, w, h, y - 1) && n == |response| && sum == Sum(response)
    {
      ghost var before := response;
      NoneInRow(p, w, h, y);
      for x := 1 to w - 1
        invariant response == before + RowResponses(p, w, h, y, x - 1) && n == |response| && sum == Sum(response)
      {
        var r := g[y - 1, x] + g[y + 1, x] + g[y, x - 1] + g[y, x + 1] - 4.0 * g[y, x];
        ResponseIs(p, w, h, x, y);
        RowGrows(p, w, h, y, x - 1);
        SumPush(response, r, 0.0);
        response, sum, n := response + [r], sum + r, n + 1;
        assert response == before + (RowResponses(p, w, h, y, x - 1) + [r]);
      }
      NextRow(p, w, h, y);
    }
    if n == 0 {
      return 0.0;
    }
    var mean := sum / n as real;
    var spread := SpreadOf(response, mean);
    v := ClampNoise(spread / n as real);
  }

  lemma NothingYet(p: Plane, w: nat, h: nat)
    requires IsPlane(p, w, h) && w >= 3 && h >= 3
    ensures Responses(p, w, h, 0) == [] && Sum([]) == 0.0
  {}

  lemma NoneInRow(p: Plane, w: nat, h: nat, y: int)
    requires IsPlane(p, w, h) && 1 <= y < h - 1 && w >= 3
    ensures RowResponses(p, w, h, y, 0) == []
  {}

  lemma ResponseIs(p: Plane, w: nat, h: nat, x: int, y: int)
    requires IsPlane(p, w, h) && 1 <= x < w - 1 && 1 <= y < h - 1
    ensures Response(p, w, h, x, y) == p[y - 1][x] + p[y + 1][x] + p[y][x - 1] + p[y][x + 1] - 4.0 * p[y][x]
  {}

  lemma NextRow(p: Plane, w: nat, h: nat, y: nat)
    requires IsPlane(p, w, h) && 1 <= y < h - 1 && w >= 3
    ensures Responses(p, w, h, y) == Responses(p, w, h, y - 1) + RowResponses(p, w, h, y, w - 2)
  {}

  lemma {:induction false} ResponsesIgnoreBrightness(p: Plane, w: nat, h: nat, c: real, rows: nat)
    requires IsPlane(p, w, h) && w >= 3 && rows <= h - 2
    ensures Responses(Brighter(p, w, h, c), w, h, rows) == Responses(p, w, h, rows)
  {
    hide Brighter;
    if rows > 0 {
      ResponsesIgnoreBrightness(p, w, h, c, rows - 1);
      assert RowResponses(Brighter(p, w, h, c), w, h, rows, w - 2) == RowResponses(p, w, h, rows, w - 2);
    }
  }

  /** The sharpness measured after smoothing does not depend on overall brightness. */
  lemma SharpnessIgnoresBrightness(p: Plane, w: nat, h: nat, c: real)
    requires IsPlane(p, w, h)
    ensures Sharpness(Smoothed(Brighter(p, w, h, c), w, h), w, h) == Sharpness(Smoothed(p, w, h), w, h)
  {
    hide Smoothed, Responses, Brighter, Variance;
    SmoothingCommutesWithBrightness(p, w, h, c);
    if w >= 3 && h >= 3 { ResponsesIgnoreBrightness(Smoothed(p, w, h), w, h, c, h - 2); }
  }

  /** A variance below a billionth is rounding noise and counts as none; any other counts as it is. */
  lemma NoiseDoesNotCount(v: real)
    ensures ClampNoise(v) == if 1_000_000_000.0 * v >= 1.0 then v else 0.0
  {}

  lemma {:induction false} NothingSpreads(s: seq<real>)
    requires forall i :: 0 <= i < |s| ==> s[i] == 0.0
    ensures Sum(s) == 0.0 && Spread(s, 0.0) == 0.0
  {
    if s != [] { NothingSpreads(s[..|s| - 1]); }
  }

  lemma {:induction false} RampResponses(p: Plane, w: nat, h: nat, a: real, b: real, c: real, rows: nat)
    requires IsPlane(p, w, h) && w >= 3 && rows <= h - 2
    requires forall x, y :: 0 <= x < w && 0 <= y < h ==> p[y][x] == a + b * x as real + c * y as real
    ensures forall i :: 0 <= i < |Responses(p, w, h, rows)| ==> Responses(p, w, h, rows)[i] == 0.0
  {
    if rows > 0 {
      RampResponses(p, w, h, a, b, c, rows - 1);
      var row := RowResponses(p, w, h, rows, w - 2);
      forall i | 0 <= i < |row| ensures row[i] == 0.0 {
        RampResponse(p, w, h, a, b, c, i + 1, rows);
      }
    }
  }

  lemma RampResponse(p: Plane, w: nat, h: nat, a: real, b: real, c: real, x: nat, y: nat)
    requires IsPlane(p, w, h) && 1 <= x < w - 1 && 1 <= y < h - 1
    requires forall x, y :: 0 <= x < w && 0 <= y < h ==> p[y][x] == a + b * x as real + c * y as real
    ensures Response(p, w, h, x, y) == 0.0
  {
    var i, j := x as real, y as real;
    assert p[y][x - 1] == a + b * (i - 1.0) + c * j && p[y][x + 1] == a + b * (i + 1.0) + c * j;
    assert p[y - 1][x] == a + b * i + c * (j - 1.0) && p[y + 1][x] == a + b * i + c * (j + 1.0);
  }

  /** An even gradient in any direction, a flat area included, is not sharp at all. */
  lemma RampIsNotSharp(p: Plane, w: nat, h: nat, a: real, b: real, c: real)
    requires IsPlane(p, w, h)
    requires forall x, y :: 0 <= x < w && 0 <= y < h ==> p[y][x] == a + b * x as real + c * y as real
    ensures Sharpness(p, w, h) == 0.0
  {
    hide Responses, Sum, Spread;
    if w >= 3 && h >= 3 {
      RampResponses(p, w, h, a, b, c, h - 2);
      NothingSpreads(Responses(p, w, h, h - 2));
      NoiseDoesNotCount(0.0);
    }
  }

  // ----- luminance -----

  /** Rec. 601 luma of one pixel. */
  function Luma(r: int, g: int, b: int): real {
    0.299 * r as real + 0.587 * g as real + 0.114 * b as real
  }

  /** The weights add up to one: greys keep their value and everything stays in 0..255. */
  lemma LumaIsWeighted(r: int, g: int, b: int)
    requires 0 <= r <= 255 && 0 <= g <= 255 && 0 <= b <= 255
    ensures 0.0 <= Luma(r, g, b) <= 255.0
    ensures r == g == b ==> Luma(r, g, b) == r as real
    ensures 1000.0 * Luma(r, g, b) == (299 * r + 587 * g + 114 * b) as real
  {}

  type Rgb = (int, int, int)

  predicate IsByte(c: int) { 0 <= c <= 255 }

  ghost predicate Bytes(img: array2<Rgb>)
    reads img
  {
    forall x, y :: 0 <= x < img.Length1 && 0 <= y < img.Length0 ==>
      IsByte(img[y, x].0) && IsByte(img[y, x].1) && IsByte(img[y, x].2)
  }

  ghost function Grey(img: array2<Rgb>): (p: Plane)
    reads img
    ensures IsPlane(p, img.Length1, img.Length0)
    ensures forall x, y :: 0 <= x < img.Length1 && 0 <= y < img.Length0 ==>
      p[y][x] == Luma(img[y, x].0, img[y, x].1, img[y, x].2)
  {
    seq(img.Length0, y requires 0 <= y < img.Length0 reads img =>
      seq(img.Length1, x requires 0 <= x < img.Length1 reads img => Luma(img[y, x].0, img[y, x].1, img[y, x].2)))
  }

  method ToGreyscale(img: array2<Rgb>) returns (g: array2<real>)
    requires Bytes(img)
    ensures fresh(g) && g.Length0 == img.Length0 && g.Length1 == img.Length1
    ensures Contents(g) == Grey(img) && InRange(Contents(g), 0.0, 255.0)
  {
    hide Luma;
    var w, h := img.Length1, img.Length0;
    g := new real[h, w];
    for y := 0 to h
      invariant forall i, j :: 0 <= i < w && 0 <= j < y ==> g[j, i] == Luma(img[j, i].0, img[j, i].1, img[j, i].2)
    {
      for x := 0 to w
        invariant forall i, j :: 0 <= i < w && 0 <= j < y ==> g[j, i] == Luma(img[j, i].0, img[j, i].1, img[j, i].2)
        invariant forall i :: 0 <= i < x ==> g[y, i] == Luma(img[y, i].0, img[y, i].1, img[y, i].2)
      {
        var c := img[y, x];
        g[y, x] := Luma(c.0, c.1, c.2);
      }
    }
    forall x, y | 0 <= x < w && 0 <= y < h ensures 0.0 <= g[y, x] <= 255.0 {
      LumaIsWeighted(img[y, x].0, img[y, x].1, img[y, x].2);
    }
    SamePlane(Contents(g), Grey(img), w, h);
  }

  /** The pixels in memory order. */
  ghost function Flat(p: Plane): seq<real> {
    if p == [] then [] else Flat(p[..|p| - 1]) + p[|p| - 1]
  }

  method Pixels(g: array2<real>) returns (px: seq<real>)
    ensures px == Flat(Contents(g))
  {
    px := [];
    ghost var p := Contents(g);
    for y := 0 to g.Length0
      invariant px == Flat(p[..y])
    {
      var row := seq(g.Length1, x requires 0 <= x < g.Length1 reads g => g[y, x]);
      assert row == p[y] && p[..y + 1][..y] == p[..y];
      px := px + row;
    }
    assert p[..g.Length0] == p;
  }

  lemma {:induction false} FlatRange(p: Plane, low: real, high: real)
    requires InRange(p, low, high)
    ensures forall i :: 0 <= i < |Flat(p)| ==> low <= Flat(p)[i] <= high
  {
    if p != [] {
      FlatRange(p[..|p| - 1], low, high);
      var last := p[|p| - 1];
      assert forall x :: 0 <= x < |last| ==> low <= last[x] <= high;
    }
  }

  predicate InByteRange(s: seq<real>) { forall i :: 0 <= i < |s| ==> 0.0 <= s[i] <= 255.0 }

  function SumOfSquares(s: seq<real>): real {
    if s == [] then 0.0 else SumOfSquares(s[..|s| - 1]) + Squared(s[|s| - 1])
  }

  /** A spread around m, from the sum of squares q and the sum t of k values. */
  function Expanded(q: real, t: real, k: real, m: real): real {
    q - 2.0 * m * t + k * Squared(m)
  }

  lemma ExpandStep(q: real, t: real, k: real, m: real, v: real)
    ensures Expanded(q, t, k, m) + Squared(v - m) == Expanded(q + Squared(v), t + v, k + 1.0, m)
  {
    assert Squared(v - m) == v * v - 2.0 * (m * v) + m * m;
    assert 2.0 * m * (t + v) == 2.0 * m * t + 2.0 * (m * v);
  }

  lemma {:induction false} SpreadExpands(s: seq<real>, m: real)
    ensures Spread(s, m) == Expanded(SumOfSquares(s), Sum(s), |s| as real, m)
  {
    hide Squared, Expanded;
    if s == [] {
      assert Expanded(0.0, 0.0, 0.0, m) == 0.0 by { NothingExpands(m); }
    } else {
      var init, v := s[..|s| - 1], s[|s| - 1];
      SpreadExpands(init, m);
      assert |s| as real == |init| as real + 1.0;
      ExpandStep(SumOfSquares(init), Sum(init), |init| as real, m, v);
    }
  }

  lemma NothingExpands(m: real)
    ensures Expanded(0.0, 0.0, 0.0, m) == 0.0
  {}

  lemma {:induction false} SquaresBounded(s: seq<real>)
    requires InByteRange(s)
    ensures SumOfSquares(s) <= 255.0 * Sum(s) && 0.0 <= Sum(s) <= 255.0 * |s| as real
  {
    if s != [] {
      var init, v := s[..|s| - 1], s[|s| - 1];
      SquaresBounded(init);
      assert Squared(v) == v * v <= 255.0 * v;
      assert 255.0 * Sum(s) == 255.0 * Sum(init) + 255.0 * v;
    }
  }

  lemma {:induction false} SpreadNonNegative(s: seq<real>, m: real)
    ensures Spread(s, m) >= 0.0
  {
    if s != [] {
      SpreadNonNegative(s[..|s| - 1], m);
      assert Squared(s[|s| - 1] - m) >= 0.0;
    }
  }

  lemma TimesQuotient(n: real, a: real)
    requires n > 0.0
    ensures n * (a / n) == a
  {}

  lemma MeanTimesCount(s: seq<real>)
    requires s != []
    ensures |s| as real * Mean(s) == Sum(s) && |s| as real * Variance(s) == Spread(s, Mean(s))
  {
    hide Sum, Spread;
    TimesQuotient(|s| as real, Sum(s));
    TimesQuotient(|s| as real, Spread(s, Mean(s)));
  }

  lemma ParabolaPeak(m: real)
    ensures m * (255.0 - m) <= 16256.25
  {
    assert Squared(m - 127.5) >= 0.0;
    assert Squared(m - 127.5) == m * m - 255.0 * m + 16256.25;
  }

  lemma CancelCount(n: real, a: real, b: real)
    requires n > 0.0 && n * a <= n * b
    ensures a <= b
  {}

  /** The luminance variance is never more than 127.5 squared, and the mean stays in 0..255. */
  lemma VarianceBounded(s: seq<real>)
    requires s != [] && InByteRange(s)
    ensures 0.0 <= Variance(s) <= 16256.25 && 0.0 <= Mean(s) <= 255.0
  {
    hide Sum, SumOfSquares, Spread, Variance, Mean;
    var n, m := |s| as real, Mean(s);
    MeanTimesCount(s);
    SquaresBounded(s);
    SpreadNonNegative(s, m);
    CancelCount(n, 0.0, m);
    CancelCount(n, m, 255.0);
    CancelCount(n, 0.0, Variance(s));
    SpreadExpands(s, m);
    assert Squared(m) == m * m;
    assert 2.0 * m * (n * m) == 2.0 * (n * (m * m));
    assert n * Variance(s) <= 255.0 * (n * m) - n * (m * m);
    assert 255.0 * (n * m) - n * (m * m) == n * (m * (255.0 - m));
    CancelCount(n, Variance(s), m * (255.0 - m));
    ParabolaPeak(m);
  }

  /** The bound is reached: one black and one white pixel. */
  lemma VarianceBoundReached()
    ensures Variance([0.0, 255.0]) == 16256.25
  {
    var s := [0.0, 255.0];
    assert s[..1] == [0.0] && s[..1][..0] == [];
    assert Sum(s) == 255.0;
    assert Spread(s, 127.5) == Squared(-127.5) + Squared(127.5);
  }

  type SquareRoot = real -> real

  ghost predicate IsRoot(sqrt: SquareRoot) {
    forall x: real :: x >= 0.0 ==> sqrt(x) >= 0.0 && sqrt(x) * sqrt(x) == x
  }

  datatype LumStats = LumStats(mean: real, stdDev: real, shadowClipped: real, highlightClipped: real)

  function CountDark(s: seq<real>): nat {
    if s == [] then 0 else CountDark(s[..|s| - 1]) + if s[|s| - 1] <= 2.0 then 1 else 0
  }

  function CountBright(s: seq<real>): nat {
    if s == [] then 0 else CountBright(s[..|s| - 1]) + if s[|s| - 1] >= 253.0 then 1 else 0
  }

  lemma {:induction false} ClippedApart(s: seq<real>)
    ensures CountDark(s) + CountBright(s) <= |s|
  {
    if s != [] { ClippedApart(s[..|s| - 1]); }
  }

  lemma RootBelow(sqrt: SquareRoot, x: real, y: real)
    requires IsRoot(sqrt) && 0.0 <= x <= y * y && y >= 0.0
    ensures 0.0 <= sqrt(x) <= y
  {
    SquareGrows(sqrt(x), y);
  }

  lemma SquareGrows(r: real, y: real)
    requires y >= 0.0
    ensures r > y ==> r * r > y * y
  {
    if r > y {
      var d := r - y;
      assert r * r == y * y + 2.0 * (y * d) + d * d;
      assert d * d > 0.0 && y * d >= 0.0;
    }
  }

  /** What the statistics of a plane are. */
  ghost predicate Describes(l: LumStats, s: seq<real>, sqrt: SquareRoot)
    requires s != []
  {
    && l.mean == Mean(s) && l.stdDev == sqrt(ClampNoise(Variance(s)))
    && l.shadowClipped * |s| as real == CountDark(s) as real
    && l.highlightClipped * |s| as real == CountBright(s) as real
  }

  lemma CountPush(s: seq<real>, v: real)
    ensures CountDark(s + [v]) == CountDark(s) + if v <= 2.0 then 1 else 0
    ensures CountBright(s + [v]) == CountBright(s) + if v >= 253.0 then 1 else 0
  {
    assert (s + [v])[..|s|] == s;
  }

  method LuminanceStats(px: seq<real>, sqrt: SquareRoot) returns (l: LumStats)
    ensures if px == [] then l == LumStats(0.0, 0.0, 0.0, 0.0) else Describes(l, px, sqrt)
  {
    hide CountDark, CountBright, Sum, Spread;
    if |px| == 0 {
      return LumStats(0.0, 0.0, 0.0, 0.0);
    }
    var sum, dark, bright := 0.0, 0, 0;
    NothingCounted();
    assert px[..0] == [];
    for i := 0 to |px|
      invariant sum == Sum(px[..i]) && dark == CountDark(px[..i]) && bright == CountBright(px[..i])
    {
      assert px[..i + 1] == px[..i] + [px[i]];
      SumPush(px[..i], px[i], 0.0);
      CountPush(px[..i], px[i]);
      sum := sum + px[i];
      if px[i] <= 2.0 { dark := dark + 1; }
      if px[i] >= 253.0 { bright := bright + 1; }
    }
    assert px[..|px|] == px;
    var n := |px| as real;
    var spread := SpreadOf(px, sum / n);
    l := LumStats(sum / n, sqrt(ClampNoise(spread / n)), dark as real / n, bright as real / n);
  }

  lemma NothingCounted()
    ensures Sum([]) == 0.0 && CountDark([]) == 0 && CountBright([]) == 0
  {}

  /** The bounds every later score relies on. */
  ghost predicate Plausible(l: LumStats) {
    && 0.0 <= l.mean <= 255.0 && 0.0 <= l.stdDev <= 127.5
    && 0.0 <= l.shadowClipped && 0.0 <= l.highlightClipped && l.shadowClipped + l.highlightClipped <= 1.0
  }

  lemma StatsArePlausible(l: LumStats, s: seq<real>, sqrt: SquareRoot)
    requires s != [] && InByteRange(s) && IsRoot(sqrt) && Describes(l, s, sqrt)
    ensures Plausible(l)
  {
    hide Variance, Mean, CountDark, CountBright;
    VarianceBounded(s);
    RootBelow(sqrt, ClampNoise(Variance(s)), 127.5);
    ClippedApart(s);
    var n := |s| as real;
    CancelCount(n, 0.0, l.shadowClipped);
    CancelCount(n, 0.0, l.highlightClipped);
    SharesAddUp(n, l.shadowClipped, l.highlightClipped, CountDark(s) as real, CountBright(s) as real);
  }

  lemma SharesAddUp(n: real, a: real, b: real, x: real, y: real)
    requires n > 0.0 && a * n == x && b * n == y && x + y <= n
    ensures a + b <= 1.0
  {
    assert n * (a + b) == a * n + b * n;
    CancelCount(n, a + b, 1.0);
  }

  // ----- scores -----

  datatype Thresholds = Thresholds(dark: real, bright: real)

  function Unit(x: real): real { if x < 0.0 then 0.0 else if x > 1.0 then 1.0 else x }

  /** The exposure score before its clamp. */
  function RawExposure(l: LumStats, t: Thresholds): (score: real)
    requires Plausible(l)
  {
    1.0
    - (if l.mean < t.dark then (t.dark - l.mean) / t.dark
       else if l.mean > t.bright then (l.mean - t.bright) / (255.0 - t.bright) else 0.0)
    - l.shadowClipped * 0.5 - l.highlightClipped * 0.5
  }

  /** Whatever the thresholds, no division by zero is reached, the upper clamp never fires, and the score
      is full exactly when the mean is inside the band and nothing is clipped. */
  lemma ExposureIsFullIff(l: LumStats, t: Thresholds)
    requires Plausible(l)
    ensures RawExposure(l, t) <= 1.0
    ensures Unit(RawExposure(l, t)) == 1.0 <==>
      !(l.mean < t.dark) && !(l.mean > t.bright) && l.shadowClipped == 0.0 && l.highlightClipped == 0.0
  {
    if l.mean < t.dark {
      PositiveQuotient(t.dark - l.mean, t.dark);
    } else if l.mean > t.bright {
      PositiveQuotient(l.mean - t.bright, 255.0 - t.bright);
    }
  }

  lemma PositiveQuotient(a: real, b: real)
    requires a > 0.0 && b > 0.0
    ensures a / b > 0.0
  {}

  /** Without clipping the score falls from one at the edge of the band to zero at black or white, in
      proportion; clipped shares cost half of themselves. */
  lemma ExposureFallsEvenly(l: LumStats, t: Thresholds)
    requires Plausible(l)
    ensures var whole := RawExposure(l, t) + (l.shadowClipped + l.highlightClipped) / 2.0;
      && (l.mean < t.dark ==> whole * t.dark == l.mean)
      && (l.mean > t.bright && l.mean >= t.dark ==> whole * (255.0 - t.bright) == 255.0 - l.mean)
      && (l.mean >= t.dark && l.mean <= t.bright ==> whole == 1.0)
    ensures Unit(RawExposure(l, t)) == if RawExposure(l, t) > 0.0 then RawExposure(l, t) else 0.0
  {
    ExposureIsFullIff(l, t);
    if l.mean < t.dark {
      TimesQuotient(t.dark, t.dark - l.mean);
    } else if l.mean > t.bright {
      ShareOfRest(l.mean, t.bright);
    }
  }

  lemma ShareOfRest(mean: real, bright: real)
    requires bright < mean <= 255.0
    ensures (1.0 - (mean - bright) / (255.0 - bright)) * (255.0 - bright) == 255.0 - mean
  {
    TimesQuotient(255.0 - bright, mean - bright);
  }

  function ContrastScore(stdDev: real): real { Unit(stdDev / 64.0) }

  function ResolutionScore(pixels: int): real {
    if pixels <= 0 then 0.0 else Unit(pixels as real / 2_000_000.0)
  }

  function SharpnessScore(v: real, sqrt: SquareRoot): real {
    if v <= 0.0 then 0.0 else if sqrt(v / 310.0) > 1.0 then 1.0 else sqrt(v / 310.0)
  }

  /** Contrast, resolution and sharpness grow with what they measure until they are full: at a standard
      deviation of 64, two megapixels, and a Laplacian variance of 310, whose root counts. */
  lemma ScoresFill(stdDev: real, pixels: int, v: real, sqrt: SquareRoot)
    requires stdDev >= 0.0 && pixels >= 0 && v >= 0.0 && IsRoot(sqrt)
    ensures ContrastScore(stdDev) * 64.0 == if stdDev <= 64.0 then stdDev else 64.0
    ensures ResolutionScore(pixels) * 2_000_000.0 == if pixels <= 2_000_000 then pixels as real else 2_000_000.0
    ensures Squared(SharpnessScore(v, sqrt)) * 310.0 == if v <= 310.0 then v else 310.0
    ensures SharpnessScore(v, sqrt) >= 0.0
  {
    if v > 0.0 {
      var r := sqrt(v / 310.0);
      assert r * r == v / 310.0;
      if v <= 310.0 { RootBelow(sqrt, v / 310.0, 1.0); } else { SquareGrows(1.0, r); SquareGrows(r, 1.0); RootAboveOne(r); }
    }
  }

  lemma RootAboveOne(r: real)
    requires r >= 0.0
    ensures r * r > 1.0 ==> r > 1.0
  {
    if r <= 1.0 { assert r * r <= r * 1.0; }
  }

  /** What the scores are worth overall: sharpness counts for 45 in a hundred, exposure for 30, contrast
      for 15 and resolution for 10, each whatever the others are. */
  lemma ScoresCount(a: real, b: real, c: real, d: real)
    ensures Weighted(a, b, c, d) == Weighted(a, 0.0, 0.0, 0.0) + Weighted(0.0, b, 0.0, 0.0) + Weighted(0.0, 0.0, c, 0.0) + Weighted(0.0, 0.0, 0.0, d)
    ensures 100.0 * Weighted(a, 0.0, 0.0, 0.0) == 45.0 * a && 100.0 * Weighted(0.0, b, 0.0, 0.0) == 30.0 * b
    ensures 100.0 * Weighted(0.0, 0.0, c, 0.0) == 15.0 * c && 100.0 * Weighted(0.0, 0.0, 0.0, d) == 10.0 * d
  {}

  /** The weighted mean before its clamp. */
  function Weighted(sharpness: real, exposure: real, contrast: real, resolution: real): real {
    sharpness * 0.45 + exposure * 0.30 + contrast * 0.15 + resolution * 0.10
  }

  predicate IsScore(x: real) { 0.0 <= x <= 1.0 }

  /** A weighted mean of scores lies between the lowest and the highest of them. */
  lemma WeightedIsMean(a: real, b: real, c: real, d: real, low: real, high: real)
    requires low <= a <= high && low <= b <= high && low <= c <= high && low <= d <= high
    ensures low <= Weighted(a, b, c, d) <= high
  {}

  datatype Metrics = Metrics(
    sharpness: real, exposure: real, contrast: real, resolution: real, overall: real, lum: LumStats)

  const NO_METRICS := Metrics(0.0, 0.0, 0.0, 0.0, 0.0, LumStats(0.0, 0.0, 0.0, 0.0))

  /** The whole measurement. `img` is the image scaled to the analysis size, which has at least one pixel;
      width and height are the original's, and an image without pixels has no metrics. The overall score
      is the weighted mean itself: its clamp never fires. */
  method Analyze(img: array2<Rgb>, width: int, height: int, t: Thresholds, sqrt: SquareRoot) returns (m: Metrics)
    requires Bytes(img) && img.Length0 >= 1 && img.Length1 >= 1 && IsRoot(sqrt)
    ensures width <= 0 || height <= 0 ==> m == Metrics(0.0, 0.0, 0.0, 0.0, 0.0, LumStats(0.0, 0.0, 0.0, 0.0))
    ensures width > 0 && height > 0 ==> Measured(img, width, height, t, sqrt, m)
    ensures IsScore(m.sharpness) && IsScore(m.exposure) && IsScore(m.contrast) && IsScore(m.resolution)
    ensures m.overall == Weighted(m.sharpness, m.exposure, m.contrast, m.resolution) && IsScore(m.overall)
  {
    if width <= 0 || height <= 0 {
      return NO_METRICS;
    }
    m := AnalyzePixels(img, width, height, t, sqrt);
  }

  /** Every number is the one the pixels have. */
  ghost predicate Measured(img: array2<Rgb>, width: int, height: int, t: Thresholds, sqrt: SquareRoot, m: Metrics)
    reads img
  {
    var w, h := img.Length1, img.Length0;
    && m.sharpness == SharpnessScore(Sharpness(Smoothed(Grey(img), w, h), w, h), sqrt)
    && Flat(Grey(img)) != [] && Describes(m.lum, Flat(Grey(img)), sqrt) && Plausible(m.lum)
    && m.exposure == Unit(RawExposure(m.lum, t)) && m.contrast == ContrastScore(m.lum.stdDev)
    && m.resolution == ResolutionScore(width * height)
  }

  method AnalyzePixels(img: array2<Rgb>, width: int, height: int, t: Thresholds, sqrt: SquareRoot) returns (m: Metrics)
    requires Bytes(img) && img.Length0 >= 1 && img.Length1 >= 1 && IsRoot(sqrt)
    ensures Measured(img, width, height, t, sqrt, m)
    ensures IsScore(m.sharpness) && IsScore(m.exposure) && IsScore(m.contrast) && IsScore(m.resolution)
    ensures m.overall == Weighted(m.sharpness, m.exposure, m.contrast, m.resolution) && IsScore(m.overall)
  {
    hide Sharpness, Smoothed, Luma, Flat, Describes, Variance, Mean;
    var grey := ToGreyscale(img);
    var soft := Smooth(grey);
    var v := LaplacianVariance(soft);
    var px := Pixels(grey);
    FlatRange(Contents(grey), 0.0, 255.0);
    SomePixels(Contents(grey), img.Length1, img.Length0);
    var lum := LuminanceStats(px, sqrt);
    StatsArePlausible(lum, px, sqrt);
    var a, b := SharpnessScore(v, sqrt), Unit(RawExposure(lum, t));
    var c, d := ContrastScore(lum.stdDev), ResolutionScore(width * height);
    WeightedIsMean(a, b, c, d, 0.0, 1.0);
    m := Metrics(a, b, c, d, Unit(Weighted(a, b, c, d)), lum);
  }

  lemma SomePixels(p: Plane, w: nat, h: nat)
    requires IsPlane(p, w, h) && w >= 1 && h >= 1
    ensures Flat(p) != []
  {
    assert |p[h - 1]| == w;
  }
}
