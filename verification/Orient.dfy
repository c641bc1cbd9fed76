/** EXIF orientation and thumbnail sizing (internal/thumbnail/thumbnail.go:58-77, :124-192): the copy
    loop over byte buffers, and the eight orientations of section 4.6.4 of Exif 2.3 as a group. */
module Orient {

  type Byte = bv8

  /** A coordinate, x first. */
  type Spot = (int, int)

  // ----- the eight maps -----

  /** The orientation the code applies: anything outside 2..8 is upright already. */
  function Effective(orientation: int): (o: int)
    ensures 1 <= o <= 8
  {
    if orientation < 2 || orientation > 8 then 1 else orientation
  }

  /** Where the destination pixel (x, y) is read from; w and h are the source's size. */
  function Source(o: int, w: int, h: int, x: int, y: int): Spot {
    match o
    case 2 => (w - 1 - x, y)
    case 3 => (w - 1 - x, h - 1 - y)
    case 4 => (x, h - 1 - y)
    case 5 => (y, x)
    case 6 => (y, h - 1 - x)
    case 7 => (w - 1 - y, h - 1 - x)
    case 8 => (w - 1 - y, x)
    case _ => (x, y)
  }

  /** The destination's size. */
  function Turned(o: int, w: int, h: int): (int, int) { if 5 <= o <= 8 then (h, w) else (w, h) }

  predicate Inside(w: int, h: int, s: Spot) { 0 <= s.0 < w && 0 <= s.1 < h }

  function Inverse(o: int): int { if o == 6 then 8 else if o == 8 then 6 else o }

  /** Row a, column b: orienting by a and then by b is orienting by this. */
  const COMPOSITION := [
    [1, 2, 3, 4, 5, 6, 7, 8],
    [2, 1, 4, 3, 8, 7, 6, 5],
    [3, 4, 1, 2, 7, 8, 5, 6],
    [4, 3, 2, 1, 6, 5, 8, 7],
    [5, 6, 7, 8, 1, 2, 3, 4],
    [6, 5, 8, 7, 4, 3, 2, 1],
    [7, 8, 5, 6, 3, 4, 1, 2],
    [8, 7, 6, 5, 2, 1, 4, 3]
  ]
  function Compose(a: int, b: int): int
    requires 1 <= a <= 8 && 1 <= b <= 8
  {
    COMPOSITION[a - 1][b - 1]
  }

  /** Reading through two orientations in turn is reading through their composition. */
  lemma SourceComposes(a: int, b: int, w: int, h: int, x: int, y: int)
    requires 1 <= a <= 8 && 1 <= b <= 8
    ensures 1 <= Compose(a, b) <= 8
    ensures var (w', h') := Turned(a, w, h);
      Turned(b, w', h') == Turned(Compose(a, b), w, h)
      && var s := Source(b, w', h', x, y); Source(a, w, h, s.0, s.1) == Source(Compose(a, b), w, h, x, y)
  {
    assert Compose(a, b) == COMPOSITION[a - 1][b - 1];
  }

  /** Every orientation is a bijection of the pixel grids: the inverse orientation undoes it both ways. */
  lemma SourceIsBijection(o: int, w: int, h: int, s: Spot)
    requires 1 <= o <= 8
    ensures var (w', h') := Turned(o, w, h);
      && (Inside(w', h', s) ==> Inside(w, h, Source(o, w, h, s.0, s.1)))
      && (var t := Source(o, w, h, s.0, s.1); Source(Inverse(o), w', h', t.0, t.1) == s)
      && (var t := Source(Inverse(o), w', h', s.0, s.1); Source(o, w, h, t.0, t.1) == s)
      && Turned(Inverse(o), w', h') == (w, h)
  {}

  // ----- whole rasters -----

  type Pixel = seq<Byte>

  datatype Raster = Raster(w: nat, h: nat, rows: seq<seq<Pixel>>)
  {
    predicate Valid() { |rows| == h && forall y :: 0 <= y < h ==> |rows[y]| == w }
  }

  function Oriented(r: Raster, o: int): (t: Raster)
    requires r.Valid() && 1 <= o <= 8
    ensures t.Valid() && (t.w, t.h) == Turned(o, r.w, r.h)
    ensures forall x, y :: 0 <= x < t.w && 0 <= y < t.h ==>
      var s := Source(o, r.w, r.h, x, y); Inside(r.w, r.h, s) && t.rows[y][x] == r.rows[s.1][s.0]
  {
    var (w, h) := Turned(o, r.w, r.h);
    Raster(w, h, seq(h, y requires 0 <= y < h => seq(w, x requires 0 <= x < w =>
      var s := Source(o, r.w, r.h, x, y); r.rows[s.1][s.0])))
  }

  lemma SameRaster(a: Raster, b: Raster)
    requires a.Valid() && b.Valid() && a.w == b.w && a.h == b.h
    requires forall x, y :: 0 <= x < a.w && 0 <= y < a.h ==> a.rows[y][x] == b.rows[y][x]
    ensures a == b
  {
    forall y | 0 <= y < a.h ensures a.rows[y] == b.rows[y] {}
  }

  /** The eight orientations are closed under composition. */
  lemma OrientationsCompose(r: Raster, a: int, b: int)
    requires r.Valid() && 1 <= a <= 8 && 1 <= b <= 8
    ensures 1 <= Compose(a, b) <= 8
    ensures Oriented(Oriented(r, a), b) == Oriented(r, Compose(a, b))
  {
    hide Oriented, Compose, Source, Turned;
    var c := Compose(a, b);
    SourceComposes(a, b, r.w, r.h, 0, 0);
    var mid := Oriented(r, a);
    var one, two := Oriented(mid, b), Oriented(r, c);
    forall x, y | 0 <= x < one.w && 0 <= y < one.h ensures one.rows[y][x] == two.rows[y][x] {
      SourceComposes(a, b, r.w, r.h, x, y);
    }
    SameRaster(one, two);
  }

  /** 6 and 8 undo each other, and every other orientation undoes itself. */
  lemma OrientationUndone(r: Raster, o: int)
    requires r.Valid() && 1 <= o <= 8
    ensures Oriented(Oriented(r, o), Inverse(o)) == r
    ensures Oriented(Oriented(r, Inverse(o)), o) == r
  {
    hide Oriented;
    OrientationsCompose(r, o, Inverse(o));
    OrientationsCompose(r, Inverse(o), o);
    assert Compose(o, Inverse(o)) == 1 && Compose(Inverse(o), o) == 1;
    SameRaster(Oriented(r, 1), r);
  }

  // ----- where the pixels go -----

  /** The place the pixel (x, y) of a w by h image is shown at: 2 flips left and right, 3 is half a turn,
      4 flips top and bottom, 5 flips over the main diagonal, 6 turns clockwise - the top row becomes the
      right column - 7 flips over the other diagonal, 8 turns back, and anything else leaves it alone. */
  function ShownAt(orientation: int, w: int, h: int, x: int, y: int): Spot {
    match orientation
    case 2 => (w - 1 - x, y)
    case 3 => (w - 1 - x, h - 1 - y)
    case 4 => (x, h - 1 - y)
    case 5 => (y, x)
    case 6 => (h - 1 - y, x)
    case 7 => (h - 1 - y, w - 1 - x)
    case 8 => (y, w - 1 - x)
    case _ => (x, y)
  }

  /** Every pixel of `src` is in its place in `dst`, and `dst` has room for no others. */
  ghost predicate Shows(dst: Raster, src: Raster, orientation: int)
    requires src.Valid() && dst.Valid()
  {
    && (if orientation in {5, 6, 7, 8} then dst.w == src.h && dst.h == src.w else dst.w == src.w && dst.h == src.h)
    && forall x, y :: 0 <= x < src.w && 0 <= y < src.h ==>
      var d := ShownAt(orientation, src.w, src.h, x, y);
      Inside(dst.w, dst.h, d) && dst.rows[d.1][d.0] == src.rows[y][x]
  }

  lemma OrientedShows(src: Raster, orientation: int)
    requires src.Valid()
    ensures Shows(Oriented(src, Effective(orientation)), src, orientation)
  {
    var o := Effective(orientation);
    var dst := Oriented(src, o);
    forall x, y | 0 <= x < src.w && 0 <= y < src.h
      ensures var d := ShownAt(orientation, src.w, src.h, x, y);
        Inside(dst.w, dst.h, d) && dst.rows[d.1][d.0] == src.rows[y][x]
    {
      var d := ShownAt(orientation, src.w, src.h, x, y);
      assert Source(o, src.w, src.h, d.0, d.1) == (x, y);
    }
  }

  /** Each row backwards. */
  function Mirrored(r: Raster): (t: Raster)
    requires r.Valid()
    ensures t.Valid()
  {
    Raster(r.w, r.h, seq(r.h, y requires 0 <= y < r.h => seq(r.w, x requires 0 <= x < r.w => r.rows[y][r.w - 1 - x])))
  }

  /** A quarter turn: each row of the result is a column of the image, read from the bottom up. */
  function Clockwise(r: Raster): (t: Raster)
    requires r.Valid()
    ensures t.Valid()
  {
    Raster(r.h, r.w, seq(r.w, y requires 0 <= y < r.w => seq(r.h, x requires 0 <= x < r.h => r.rows[r.h - 1 - x][y])))
  }

  /** What the eight values say: a number of quarter turns clockwise, after a mirroring for 2, 4, 5, 7. */
  lemma OrientationsAreTurns(r: Raster)
    requires r.Valid()
    ensures Oriented(r, 1) == r && Oriented(r, 2) == Mirrored(r)
    ensures Oriented(r, 3) == Clockwise(Clockwise(r)) && Oriented(r, 4) == Clockwise(Clockwise(Mirrored(r)))
    ensures Oriented(r, 5) == Clockwise(Clockwise(Clockwise(Mirrored(r)))) && Oriented(r, 6) == Clockwise(r)
    ensures Oriented(r, 7) == Clockwise(Mirrored(r)) && Oriented(r, 8) == Clockwise(Clockwise(Clockwise(r)))
  {
    hide Oriented, Mirrored, Clockwise;
    UprightIsItself(r);
    TwoMirrors(r);
    forall t: Raster | t.Valid() ensures Oriented(t, 6) == Clockwise(t) { SixTurns(t); }
    OrientationsCompose(r, 6, 6);
    OrientationsCompose(r, 3, 6);
    OrientationsCompose(r, 2, 6);
    OrientationsCompose(r, 7, 6);
    OrientationsCompose(r, 4, 6);
    assert Compose(6, 6) == 3 && Compose(3, 6) == 8 && Compose(2, 6) == 7 && Compose(7, 6) == 4 && Compose(4, 6) == 5;
  }

  lemma TwoMirrors(r: Raster)
    requires r.Valid()
    ensures Oriented(r, 2) == Mirrored(r)
  {
    SameRaster(Oriented(r, 2), Mirrored(r));
  }

  lemma SixTurns(r: Raster)
    requires r.Valid()
    ensures Oriented(r, 6) == Clockwise(r)
  {
    SameRaster(Oriented(r, 6), Clockwise(r));
  }

  // ----- the copy loop -----

  /** An image.RGBA: four bytes a pixel, rows `stride` bytes apart. */
  class Image {
    const width: nat
    const height: nat
    const stride: nat
    const pix: array<Byte>

    constructor (width: nat, height: nat)
      ensures this.width == width && this.height == height && fresh(pix) && Valid()
    {
      this.width, this.height, this.stride := width, height, 4 * width;
      pix := new Byte[4 * width * height](_ => 0);
      new;
      RowsFit(width, height);
    }

    ghost predicate Valid() {
      stride >= 4 * width && (width > 0 && height > 0 ==> pix.Length >= (height - 1) * stride + 4 * width)
    }

    function PixOffset(x: nat, y: nat): nat { y * stride + 4 * x }

    lemma OffsetInside(x: nat, y: nat)
      requires Valid() && x < width && y < height
      ensures PixOffset(x, y) + 4 <= pix.Length
    {
      assert y * stride <= (height - 1) * stride;
    }

    lemma OffsetsApart(x: nat, y: nat, x': nat, y': nat)
      requires Valid() && x < width && y < height && x' < width && y' < height && (x, y) != (x', y')
      ensures PixOffset(x, y) + 4 <= PixOffset(x', y') || PixOffset(x', y') + 4 <= PixOffset(x, y)
    {
      if y < y' {
        assert y * stride + stride == (y + 1) * stride <= y' * stride;
      } else if y > y' {
        assert y' * stride + stride == (y' + 1) * stride <= y * stride;
      }
    }

    function At(x: nat, y: nat): (p: Pixel)
      requires Valid() && x < width && y < height
      reads pix
    {
      OffsetInside(x, y);
      pix[PixOffset(x, y)..PixOffset(x, y) + 4]
    }

    ghost function Contents(): (r: Raster)
      requires Valid()
      reads pix
      ensures r.Valid() && r.w == width && r.h == height
      ensures forall x, y :: 0 <= x < width && 0 <= y < height ==> r.rows[y][x] == At(x, y)
    {
      Raster(width, height, seq(height, y requires 0 <= y < height reads pix =>
        seq(width, x requires 0 <= x < width reads pix => At(x, y))))
    }
  }

  lemma RowsFit(width: nat, height: nat)
    ensures width > 0 && height > 0 ==> 4 * width * height >= (height - 1) * (4 * width) + 4 * width
  {
    if height > 0 { assert 4 * width * height == (height - 1) * (4 * width) + 4 * width; }
  }

  /** copy(dst.Pix[di:di+4], src.Pix[si:si+4]). */
  method CopyBytes(src: array<Byte>, si: nat, dst: array<Byte>, di: nat)
    requires src != dst && si + 4 <= src.Length && di + 4 <= dst.Length
    modifies dst
    ensures dst[di..di + 4] == src[si..si + 4]
    ensures forall m :: 0 <= m < dst.Length && !(di <= m < di + 4) ==> dst[m] == old(dst[m])
  {
    for k := 0 to 4
      invariant dst[di..di + k] == src[si..si + k]
      invariant forall m :: 0 <= m < dst.Length && !(di <= m < di + k) ==> dst[m] == old(dst[m])
    {
      dst[di + k] := src[si + k];
      assert dst[di..di + (k + 1)] == dst[di..di + k] + [dst[di + k]];
      assert src[si..si + (k + 1)] == src[si..si + k] + [src[si + k]];
    }
  }

  /** `after` is `before` with one pixel replaced. */
  ghost predicate Repainted(before: Raster, after: Raster, x: nat, y: nat, p: Pixel)
    requires before.Valid() && after.Valid() && before.w == after.w && before.h == after.h
    requires x < after.w && y < after.h
  {
    after.rows[y][x] == p
    && forall i, j :: 0 <= i < after.w && 0 <= j < after.h && (i, j) != (x, y) ==>
      after.rows[j][i] == before.rows[j][i]
  }

  method CopyPixel(src: Image, dst: Image, sx: nat, sy: nat, x: nat, y: nat)
    requires src.Valid() && dst.Valid() && src.pix != dst.pix
    requires sx < src.width && sy < src.height && x < dst.width && y < dst.height
    modifies dst.pix
    ensures Repainted(old(dst.Contents()), dst.Contents(), x, y, src.Contents().rows[sy][sx])
  {
    src.OffsetInside(sx, sy);
    dst.OffsetInside(x, y);
    ghost var was, before := dst.pix[..], dst.Contents();
    CopyBytes(src.pix, src.PixOffset(sx, sy), dst.pix, dst.PixOffset(x, y));
    forall i: nat, j: nat | i < dst.width && j < dst.height && (i, j) != (x, y)
      ensures dst.Contents().rows[j][i] == before.rows[j][i]
    {
      dst.OffsetInside(i, j);
      dst.OffsetsApart(i, j, x, y);
      var o := dst.PixOffset(i, j);
      assert dst.pix[o..o + 4] == was[o..o + 4];
    }
  }

  /** Rows above y, and in row y the columns before x, hold the pixels they should. */
  ghost predicate Drawn(src: Raster, dst: Raster, o: int, x: int, y: int)
    requires src.Valid() && dst.Valid() && 1 <= o <= 8 && (dst.w, dst.h) == Turned(o, src.w, src.h)
  {
    forall i, j :: 0 <= i < dst.w && 0 <= j < dst.h && (j < y || (j == y && i < x)) ==>
      var s := Source(o, src.w, src.h, i, j); Inside(src.w, src.h, s) && dst.rows[j][i] == src.rows[s.1][s.0]
  }

  lemma PixelDrawn(src: Raster, before: Raster, after: Raster, o: int, x: nat, y: nat)
    requires src.Valid() && before.Valid() && after.Valid() && 1 <= o <= 8
    requires (before.w, before.h) == (after.w, after.h) == Turned(o, src.w, src.h)
    requires x < after.w && y < after.h && Drawn(src, before, o, x, y)
    requires var s := Source(o, src.w, src.h, x, y);
      Inside(src.w, src.h, s) && Repainted(before, after, x, y, src.rows[s.1][s.0])
    ensures Drawn(src, after, o, x + 1, y)
  {
    hide Source, Turned;
  }

  lemma RowDrawn(src: Raster, dst: Raster, o: int, y: int)
    requires src.Valid() && dst.Valid() && 1 <= o <= 8 && (dst.w, dst.h) == Turned(o, src.w, src.h)
    requires Drawn(src, dst, o, dst.w, y)
    ensures Drawn(src, dst, o, 0, y + 1)
  {}

  lemma AllDrawn(src: Raster, dst: Raster, o: int)
    requires src.Valid() && dst.Valid() && 1 <= o <= 8 && (dst.w, dst.h) == Turned(o, src.w, src.h)
    requires Drawn(src, dst, o, 0, dst.h)
    ensures dst == Oriented(src, o)
  {
    hide Oriented, Source, Turned;
    SameRaster(dst, Oriented(src, o));
  }

  method DrawPixel(src: Image, dst: Image, o: int, x: nat, y: nat)
    requires src.Valid() && dst.Valid() && src.pix != dst.pix
    requires 1 <= o <= 8 && (dst.width, dst.height) == Turned(o, src.width, src.height)
    requires x < dst.width && y < dst.height && Drawn(src.Contents(), dst.Contents(), o, x, y)
    modifies dst.pix
    ensures Drawn(src.Contents(), dst.Contents(), o, x + 1, y)
  {
    SourceIsBijection(o, src.width, src.height, (x, y));
    var (sx, sy) := Source(o, src.width, src.height, x, y);
    hide Source, Turned, Drawn, Repainted, Image.Contents;
    CopyPixel(src, dst, sx, sy, x, y);
    PixelDrawn(src.Contents(), old(dst.Contents()), dst.Contents(), o, x, y);
  }

  lemma UprightIsItself(r: Raster)
    requires r.Valid()
    ensures Oriented(r, 1) == r
  {
    SameRaster(Oriented(r, 1), r);
  }

  /** The upright image; the source itself when there is nothing to do, and never written to. */
  method Orient(src: Image, orientation: int) returns (dst: Image)
    requires src.Valid()
    ensures dst.Valid() && dst.Contents() == Oriented(src.Contents(), Effective(orientation))
    ensures Shows(dst.Contents(), old(src.Contents()), orientation)
    ensures if orientation < 2 || orientation > 8 then dst == src else fresh(dst) && fresh(dst.pix)
  {
    hide Oriented, Source, Shows;
    OrientedShows(src.Contents(), orientation);
    if orientation < 2 || orientation > 8 {
      UprightIsItself(src.Contents());
      return src;
    }
    var (dw, dh) := Turned(orientation, src.width, src.height);
    dst := new Image(dw, dh);
    var y := 0;
    assert Drawn(src.Contents(), dst.Contents(), orientation, 0, 0);
    hide Drawn, Turned, Image.Contents;
    while y < dh
      invariant 0 <= y <= dh && dst.Valid() && fresh(dst.pix) && Drawn(src.Contents(), dst.Contents(), orientation, 0, y)
      modifies dst.pix
    {
      var x := 0;
      while x < dw
        invariant 0 <= x <= dw && dst.Valid() && fresh(dst.pix) && Drawn(src.Contents(), dst.Contents(), orientation, x, y)
        modifies dst.pix
      {
        DrawPixel(src, dst, orientation, x, y);
        x := x + 1;
      }
      RowDrawn(src.Contents(), dst.Contents(), orientation, y);
      y := y + 1;
    }
    AllDrawn(src.Contents(), dst.Contents(), orientation);
  }

  // ----- sizing -----

  /** The thumbnail's size before orientation. */
  function ThumbSize(w: int, h: int, maxEdge: int): (int, int) {
    if w <= 0 || h <= 0 then (1, 1)
    else if w <= maxEdge && h <= maxEdge then (w, h)
    else if w >= h then (maxEdge, if h * maxEdge / w < 1 then 1 else h * maxEdge / w)
    else (if w * maxEdge / h < 1 then 1 else w * maxEdge / h, maxEdge)
  }

  lemma Shrinks(short: int, long: int, m: int)
    requires 1 <= short <= long && 1 <= m < long
    ensures short * m / long <= m && short * m / long <= short
  {
    assert short * m <= long * m && short * m <= short * long;
    DivideBelow(short * m, long, m);
    DivideBelow(short * m, long, short);
  }

  lemma DivideBelow(a: int, d: int, q: int)
    requires d > 0 && a <= q * d
    ensures a / d <= q
  {
    assert (a / d) * d <= a;
  }

  /** A thumbnail fits in 1..maxEdge both ways exactly when maxEdge is positive. */
  lemma ThumbFits(w: int, h: int, maxEdge: int)
    ensures var (tw, th) := ThumbSize(w, h, maxEdge);
      1 <= tw <= maxEdge && 1 <= th <= maxEdge <==> maxEdge >= 1
  {
    if w > 0 && h > 0 && maxEdge >= 1 && (w > maxEdge || h > maxEdge) {
      if w >= h { Shrinks(h, w, maxEdge); } else { Shrinks(w, h, maxEdge); }
    }
  }

  /** It is never larger than the image, and its long edge is as long as it may be. */
  lemma ThumbNeverEnlarges(w: int, h: int, maxEdge: int)
    requires w > 0 && h > 0 && maxEdge >= 1
    ensures var (tw, th) := ThumbSize(w, h, maxEdge);
      tw <= w && th <= h && (w <= maxEdge && h <= maxEdge <==> (tw, th) == (w, h))
      && (w > maxEdge || h > maxEdge ==> (if w >= h then tw else th) == maxEdge)
  {
    if w > maxEdge || h > maxEdge {
      if w >= h { Shrinks(h, w, maxEdge); } else { Shrinks(w, h, maxEdge); }
    }
  }

  /** The thumbnail keeps the image's shape: its short edge is the exact one rounded down, unless that
      would leave nothing. */
  lemma ThumbKeepsShape(w: int, h: int, maxEdge: int)
    requires w > 0 && h > 0 && maxEdge >= 1
    ensures var (tw, th) := ThumbSize(w, h, maxEdge);
      && (w >= h ==> th * w <= h * tw < th * w + w || (th == 1 && h * tw < w))
      && (h >= w ==> tw * h <= w * th < tw * h + h || (tw == 1 && w * th < h))
  {
    var (tw, th) := ThumbSize(w, h, maxEdge);
    if w > maxEdge || h > maxEdge {
      if w >= h { DivisionRounds(h * maxEdge, w); } else { DivisionRounds(w * maxEdge, h); }
      if w == h { SquareShrinks(w, maxEdge); }
    }
  }

  lemma DivisionRounds(a: int, d: int)
    requires d > 0 && a >= 0
    ensures (a / d) * d <= a < (a / d) * d + d && (a / d < 1 ==> a < d)
  {}

  lemma DivideAbove(a: int, d: int, q: int)
    requires d > 0 && a >= q * d
    ensures a / d >= q
  {
    var k := a / d;
    assert a == k * d + a % d;
    TimesGrows(k + 1, q, d);
  }

  lemma TimesGrows(a: int, b: int, d: int)
    requires d > 0
    ensures a <= b ==> a * d <= b * d
  {}

  lemma SquareShrinks(w: int, m: int)
    requires w > 0
    ensures w * m / w == m
  {
    DivideBelow(w * m, w, m);
    DivideAbove(w * m, w, m);
  }

  /** Sizing before turning gives the size of sizing after turning. */
  lemma SizingCommutesWithTurning(o: int, w: int, h: int, maxEdge: int)
    requires 1 <= o <= 8 && maxEdge >= 1
    ensures var (tw, th) := ThumbSize(w, h, maxEdge);
      var (w', h') := Turned(o, w, h);
      Turned(o, tw, th) == ThumbSize(w', h', maxEdge)
  {
    if w == h && w > 0 { SquareShrinks(w, maxEdge); }
  }
}
