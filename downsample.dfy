/** Specification of the box-average downsampling: a w×h frame is cut into
    ratio×ratio tiles, and each tile becomes one pixel of the reduced buffer
    holding, per channel, the mean of the tile's pixels that lie inside the
    frame (tiles on the right and bottom edges can be cut short). */
module Downsample {
  import opened Layout
  import Blur

  /** Side of the reduced buffer, (n + ratio - 1) / ratio, which is ceil(n / ratio):
      the fewest tiles of the given side that cover n pixels. */
  function ReducedSize(n: nat, ratio: nat): (m: nat)
    requires ratio >= 1
    ensures n == 0 <==> m == 0
  {
    (n + ratio - 1) / ratio
  }

  /** The reduced size is the least number of tiles of width ratio that
      cover n: the last tile starts inside and ends at or beyond n. */
  lemma ReducedSizeCovers(n: nat, ratio: nat)
    requires ratio >= 1 && n >= 1
    ensures (ReducedSize(n, ratio) - 1) * ratio < n <= ReducedSize(n, ratio) * ratio
  {
    var m := (n + ratio - 1) / ratio;
    assert n + ratio - 1 == m * ratio + (n + ratio - 1) % ratio;
  }

  /** Every tile of the reduced buffer starts inside the frame. */
  lemma TileStartInFrame(n: nat, ratio: nat, t: nat)
    requires ratio >= 1 && t < ReducedSize(n, ratio)
    ensures t * ratio < n
  {
    MulMono(t, ReducedSize(n, ratio) - 1, ratio);
  }

  /** Number of source columns (or rows) tile t covers: the ratio, cut short
      where the frame ends. */
  function Span(n: nat, ratio: nat, t: nat): (k: nat)
    requires ratio >= 1 && t < ReducedSize(n, ratio)
    ensures 1 <= k <= ratio && t * ratio + k <= n
    ensures k == ratio || t * ratio + k == n
  {
    TileStartInFrame(n, ratio, t);
    if t * ratio + ratio <= n then ratio else n - t * ratio
  }

  /** The `count` of tile (x, y): how many frame pixels the tile averages. It
      is never zero, so the division is safe, and never more than ratio². */
  function TileCount(w: nat, h: nat, ratio: nat, x: nat, y: nat): (count: nat)
    requires ratio >= 1 && x < ReducedSize(w, ratio) && y < ReducedSize(h, ratio)
    ensures 1 <= count <= ratio * ratio
  {
    var sx, sy := Span(w, ratio, x), Span(h, ratio, y);
    MulMono(1, sy, sx);
    MulMono(sx, ratio, sy);
    MulMono(sy, ratio, ratio);
    sx * sy
  }

  /** Channel c summed over the n pixels of row y that start at column x0. */
  function RowSum(input: seq<real>, w: nat, h: nat, x0: nat, y: nat, c: nat, n: nat): real
    requires |input| == w * h * 3 && x0 + n <= w && y < h && c < 3
  {
    if n == 0 then 0.0 else RowSum(input, w, h, x0, y, c, n - 1) + input[Idx(w, h, x0 + n - 1, y, c)]
  }

  /** Channel c summed over the first m rows, starting at row y0, of the
      nx-wide block that starts at column x0. */
  function TileSum(input: seq<real>, w: nat, h: nat, x0: nat, y0: nat, c: nat, nx: nat, m: nat): real
    requires |input| == w * h * 3 && x0 + nx <= w && y0 + m <= h && c < 3
  {
    if m == 0 then 0.0 else TileSum(input, w, h, x0, y0, c, nx, m - 1) + RowSum(input, w, h, x0, y0 + m - 1, c, nx)
  }

  /** Channel c of reduced pixel (x, y): the tile's in-frame sum over its count. */
  function DownSampleAt(input: seq<real>, w: nat, h: nat, ratio: nat, x: nat, y: nat, c: nat): real
    requires |input| == w * h * 3 && ratio >= 1 && x < ReducedSize(w, ratio) && y < ReducedSize(h, ratio) && c < 3
  {
    TileSum(input, w, h, x * ratio, y * ratio, c, Span(w, ratio, x), Span(h, ratio, y))
      / (TileCount(w, h, ratio, x, y) as real)
  }

  /** The whole reduced buffer. */
  function DownSampleImage(input: seq<real>, w: nat, h: nat, ratio: nat): (img: seq<real>)
    requires |input| == w * h * 3 && ratio >= 1
    ensures |img| == ReducedSize(w, ratio) * ReducedSize(h, ratio) * 3
  {
    var rw, rh := ReducedSize(w, ratio), ReducedSize(h, ratio);
    seq(rw * rh * 3, j requires 0 <= j < rw * rh * 3 =>
      var p := PixelOf(rw, rh, j); DownSampleAt(input, w, h, ratio, p.0, p.1, j % 3))
  }

  // ----- the reduced pixel is the mean of its in-frame tile -----

  /** v added to itself n times; kept apart from real multiplication so
      that the bounds below are proved by linear steps. */
  function Times(v: real, n: nat): real
  {
    if n == 0 then 0.0 else Times(v, n - 1) + v
  }

  /** Adding v a + b times is adding it a times, then b times. */
  lemma {:induction false} TimesAdd(v: real, a: nat, b: nat)
    ensures Times(v, a + b) == Times(v, a) + Times(v, b)
  {
    if b > 0 {
      TimesAdd(v, a, b - 1);
    }
  }

  /** Repeated addition is multiplication. */
  lemma {:induction false} TimesIsProduct(v: real, n: nat)
    ensures Times(v, n) == v * (n as real)
  {
    if n > 0 {
      TimesIsProduct(v, n - 1);
      assert v * (n as real) == v * ((n - 1) as real) + v;
    }
  }

  /** Number of pixels in the first m rows of an nx-wide block, counted row by
      row as the accumulation loop does. */
  function Area(nx: nat, m: nat): nat
  {
    if m == 0 then 0 else Area(nx, m - 1) + nx
  }

  /** Counting row by row gives the product. */
  lemma {:induction false} AreaIsProduct(nx: nat, m: nat)
    ensures Area(nx, m) == nx * m
  {
    if m > 0 {
      AreaIsProduct(nx, m - 1);
      assert nx * m == nx * (m - 1) + nx;
    }
  }

  /** A row sum of values at least lo is at least lo times its length. */
  lemma {:induction false} RowSumAbove(input: seq<real>, w: nat, h: nat, x0: nat, y: nat, c: nat, n: nat, lo: real)
    requires |input| == w * h * 3 && x0 + n <= w && y < h && c < 3
    requires forall j :: 0 <= j < |input| ==> lo <= input[j]
    ensures Times(lo, n) <= RowSum(input, w, h, x0, y, c, n)
  {
    if n > 0 {
      RowSumAbove(input, w, h, x0, y, c, n - 1, lo);
    }
  }

  /** A row sum of values at most hi is at most hi times its length. */
  lemma {:induction false} RowSumBelow(input: seq<real>, w: nat, h: nat, x0: nat, y: nat, c: nat, n: nat, hi: real)
    requires |input| == w * h * 3 && x0 + n <= w && y < h && c < 3
    requires forall j :: 0 <= j < |input| ==> input[j] <= hi
    ensures RowSum(input, w, h, x0, y, c, n) <= Times(hi, n)
  {
    if n > 0 {
      RowSumBelow(input, w, h, x0, y, c, n - 1, hi);
    }
  }

  /** A block sum of values at least lo is at least lo times its size. */
  lemma {:induction false} TileSumAbove(input: seq<real>, w: nat, h: nat, x0: nat, y0: nat, c: nat, nx: nat, m: nat, lo: real)
    requires |input| == w * h * 3 && x0 + nx <= w && y0 + m <= h && c < 3
    requires forall j :: 0 <= j < |input| ==> lo <= input[j]
    ensures Times(lo, Area(nx, m)) <= TileSum(input, w, h, x0, y0, c, nx, m)
  {
    if m > 0 {
      TileSumAbove(input, w, h, x0, y0, c, nx, m - 1, lo);
      RowSumAbove(input, w, h, x0, y0 + m - 1, c, nx, lo);
      TimesAdd(lo, Area(nx, m - 1), nx);
    }
  }

  /** A block sum of values at most hi is at most hi times its size. */
  lemma {:induction false} TileSumBelow(input: seq<real>, w: nat, h: nat, x0: nat, y0: nat, c: nat, nx: nat, m: nat, hi: real)
    requires |input| == w * h * 3 && x0 + nx <= w && y0 + m <= h && c < 3
    requires forall j :: 0 <= j < |input| ==> input[j] <= hi
    ensures TileSum(input, w, h, x0, y0, c, nx, m) <= Times(hi, Area(nx, m))
  {
    if m > 0 {
      TileSumBelow(input, w, h, x0, y0, c, nx, m - 1, hi);
      RowSumBelow(input, w, h, x0, y0 + m - 1, c, nx, hi);
      TimesAdd(hi, Area(nx, m - 1), nx);
    }
  }

  /** A non-empty block has a positive pixel count. */
  lemma {:induction false} AreaPositive(nx: nat, m: nat)
    requires nx > 0 && m > 0
    ensures Area(nx, m) > 0
  {
  }

  /** The mean of a non-empty block is at least any lower bound of the frame. */
  lemma {:induction false} TileMeanAbove(input: seq<real>, w: nat, h: nat, x0: nat, y0: nat, c: nat, nx: nat, m: nat, lo: real)
    requires |input| == w * h * 3 && x0 + nx <= w && y0 + m <= h && c < 3 && nx > 0 && m > 0
    requires forall j :: 0 <= j < |input| ==> lo <= input[j]
    ensures lo <= TileSum(input, w, h, x0, y0, c, nx, m) / (Area(nx, m) as real)
  {
    AreaPositive(nx, m);
    TileSumAbove(input, w, h, x0, y0, c, nx, m, lo);
    TimesIsProduct(lo, Area(nx, m));
    Blur.DivAbove(TileSum(input, w, h, x0, y0, c, nx, m), Area(nx, m) as real, lo);
  }

  /** The mean of a non-empty block is at most any upper bound of the frame. */
  lemma {:induction false} TileMeanBelow(input: seq<real>, w: nat, h: nat, x0: nat, y0: nat, c: nat, nx: nat, m: nat, hi: real)
    requires |input| == w * h * 3 && x0 + nx <= w && y0 + m <= h && c < 3 && nx > 0 && m > 0
    requires forall j :: 0 <= j < |input| ==> input[j] <= hi
    ensures TileSum(input, w, h, x0, y0, c, nx, m) / (Area(nx, m) as real) <= hi
  {
    AreaPositive(nx, m);
    TileSumBelow(input, w, h, x0, y0, c, nx, m, hi);
    TimesIsProduct(hi, Area(nx, m));
    Blur.DivBelow(TileSum(input, w, h, x0, y0, c, nx, m), Area(nx, m) as real, hi);
  }

  /** A reduced pixel lies within any bounds of the frame: it is the mean of
      its tile's in-frame pixels. */
  lemma {:induction false} DownSampleWithin(input: seq<real>, w: nat, h: nat, ratio: nat, x: nat, y: nat, c: nat, lo: real, hi: real)
    requires |input| == w * h * 3 && ratio >= 1 && x < ReducedSize(w, ratio) && y < ReducedSize(h, ratio) && c < 3
    requires Blur.Within(input, lo, hi)
    ensures lo <= DownSampleAt(input, w, h, ratio, x, y, c) <= hi
  {
    var sx, sy := Span(w, ratio, x), Span(h, ratio, y);
    AreaIsProduct(sx, sy);
    TileMeanAbove(input, w, h, x * ratio, y * ratio, c, sx, sy, lo);
    TileMeanBelow(input, w, h, x * ratio, y * ratio, c, sx, sy, hi);
  }

  /** A frame of one constant value downsamples to that value. */
  lemma {:induction false} DownSampleConstant(input: seq<real>, w: nat, h: nat, ratio: nat, x: nat, y: nat, c: nat, v: real)
    requires |input| == w * h * 3 && ratio >= 1 && x < ReducedSize(w, ratio) && y < ReducedSize(h, ratio) && c < 3
    requires forall j :: 0 <= j < |input| ==> input[j] == v
    ensures DownSampleAt(input, w, h, ratio, x, y, c) == v
  {
    DownSampleWithin(input, w, h, ratio, x, y, c, v, v);
  }

  /** A row sum reads only the pixels of its own run. */
  lemma {:induction false} RowSumLocal(a: seq<real>, b: seq<real>, w: nat, h: nat, x0: nat, y: nat, c: nat, n: nat)
    requires |a| == w * h * 3 && |b| == w * h * 3 && x0 + n <= w && y < h && c < 3
    requires forall xx :: x0 <= xx < x0 + n ==> a[Idx(w, h, xx, y, c)] == b[Idx(w, h, xx, y, c)]
    ensures RowSum(a, w, h, x0, y, c, n) == RowSum(b, w, h, x0, y, c, n)
  {
    if n > 0 {
      RowSumLocal(a, b, w, h, x0, y, c, n - 1);
    }
  }

  /** A block sum reads only the pixels of its own block. */
  lemma {:induction false} TileSumLocal(a: seq<real>, b: seq<real>, w: nat, h: nat, x0: nat, y0: nat, c: nat, nx: nat, m: nat)
    requires |a| == w * h * 3 && |b| == w * h * 3 && x0 + nx <= w && y0 + m <= h && c < 3
    requires forall xx, yy :: x0 <= xx < x0 + nx && y0 <= yy < y0 + m ==> a[Idx(w, h, xx, yy, c)] == b[Idx(w, h, xx, yy, c)]
    ensures TileSum(a, w, h, x0, y0, c, nx, m) == TileSum(b, w, h, x0, y0, c, nx, m)
  {
    if m > 0 {
      TileSumLocal(a, b, w, h, x0, y0, c, nx, m - 1);
      RowSumLocal(a, b, w, h, x0, y0 + m - 1, c, nx);
    }
  }

  /** A reduced pixel depends only on the frame pixels of its own tile, that
      is on columns [x*ratio, x*ratio + ratio) and rows [y*ratio, y*ratio + ratio)
      that also lie inside the frame. */
  lemma {:induction false} DownSampleLocal(a: seq<real>, b: seq<real>, w: nat, h: nat, ratio: nat, x: nat, y: nat, c: nat)
    requires |a| == w * h * 3 && |b| == w * h * 3 && ratio >= 1
    requires x < ReducedSize(w, ratio) && y < ReducedSize(h, ratio) && c < 3
    requires forall xx, yy :: x * ratio <= xx < x * ratio + ratio && xx < w && y * ratio <= yy < y * ratio + ratio && yy < h
               ==> a[Idx(w, h, xx, yy, c)] == b[Idx(w, h, xx, yy, c)]
    ensures DownSampleAt(a, w, h, ratio, x, y, c) == DownSampleAt(b, w, h, ratio, x, y, c)
  {
    TileSumLocal(a, b, w, h, x * ratio, y * ratio, c, Span(w, ratio, x), Span(h, ratio, y));
  }

  /** With ratio 1 every reduced side is the frame's side. */
  lemma {:induction false} ReducedSizeOne(n: nat)
    ensures ReducedSize(n, 1) == n
  {
  }

  /** With ratio 1 every tile is a single pixel. */
  lemma {:induction false} SpanOne(n: nat, t: nat)
    requires t < n
    ensures ReducedSize(n, 1) == n && Span(n, 1, t) == 1
  {
    ReducedSizeOne(n);
  }

  /** With ratio 1 a reduced pixel is the frame pixel at the same place. */
  lemma {:induction false} DownSampleAtOne(input: seq<real>, w: nat, h: nat, x: nat, y: nat, c: nat)
    requires |input| == w * h * 3 && x < w && y < h && c < 3
    ensures ReducedSize(w, 1) == w && ReducedSize(h, 1) == h
    ensures DownSampleAt(input, w, h, 1, x, y, c) == input[Idx(w, h, x, y, c)]
  {
    SpanOne(w, x);
    SpanOne(h, y);
    assert RowSum(input, w, h, x, y, c, 1) == input[Idx(w, h, x, y, c)];
    assert TileSum(input, w, h, x, y, c, 1, 1) == RowSum(input, w, h, x, y, c, 1);
  }

  /** With ratio 1 the reduced buffer is the frame itself. */
  lemma {:induction false} DownSampleIdentity(input: seq<real>, w: nat, h: nat)
    requires |input| == w * h * 3
    ensures DownSampleImage(input, w, h, 1) == input
  {
    var img := DownSampleImage(input, w, h, 1);
    ReducedSizeOne(w);
    ReducedSizeOne(h);
    forall j | 0 <= j < |input|
      ensures img[j] == input[j]
    {
      var p := PixelOf(w, h, j);
      DownSampleAtOne(input, w, h, p.0, p.1, j % 3);
    }
  }

  /** The reduced pixel is its tile's sum over the pixel count the
      accumulation loops arrive at. */
  lemma {:induction false} DownSampleAtArea(input: seq<real>, w: nat, h: nat, ratio: nat, x: nat, y: nat)
    requires |input| == w * h * 3 && ratio >= 1 && x < ReducedSize(w, ratio) && y < ReducedSize(h, ratio)
    ensures forall c :: 0 <= c < 3 ==>
              DownSampleAt(input, w, h, ratio, x, y, c)
                == TileSum(input, w, h, x * ratio, y * ratio, c, Span(w, ratio, x), Span(h, ratio, y))
                   / (Area(Span(w, ratio, x), Span(h, ratio, y)) as real)
  {
    AreaIsProduct(Span(w, ratio, x), Span(h, ratio, y));
  }

  /** Channel c of reduced pixel (x, y) of the reduced buffer, read at its position. */
  lemma {:induction false} DownSampleImageAt(input: seq<real>, w: nat, h: nat, ratio: nat, x: nat, y: nat, c: nat)
    requires |input| == w * h * 3 && ratio >= 1 && x < ReducedSize(w, ratio) && y < ReducedSize(h, ratio) && c < 3
    ensures DownSampleImage(input, w, h, ratio)[Idx(ReducedSize(w, ratio), ReducedSize(h, ratio), x, y, c)]
              == DownSampleAt(input, w, h, ratio, x, y, c)
  {
    var rw, rh := ReducedSize(w, ratio), ReducedSize(h, ratio);
    PixelOfIdx(rw, rh, x, y, c);
    IdxDecode(rw, rh, x, y, c);
  }

  /** A frame whose every value is at most hi downsamples to values at most hi. */
  lemma {:induction false} DownSampleBelow(input: seq<real>, w: nat, h: nat, ratio: nat, hi: real)
    requires |input| == w * h * 3 && ratio >= 1
    requires forall j :: 0 <= j < |input| ==> input[j] <= hi
    ensures forall j :: 0 <= j < |DownSampleImage(input, w, h, ratio)| ==> DownSampleImage(input, w, h, ratio)[j] <= hi
  {
    var rw, rh := ReducedSize(w, ratio), ReducedSize(h, ratio);
    var img := DownSampleImage(input, w, h, ratio);
    forall j | 0 <= j < |img|
      ensures img[j] <= hi
    {
      var p := PixelOf(rw, rh, j);
      var sx, sy := Span(w, ratio, p.0), Span(h, ratio, p.1);
      AreaIsProduct(sx, sy);
      TileMeanBelow(input, w, h, p.0 * ratio, p.1 * ratio, j % 3, sx, sy, hi);
    }
  }
}
