/** Specification of the bilinear upsampling: full-resolution pixel (x, y)
    sits at (x/ratio, y/ratio) in reduced coordinates; it blends the four
    reduced samples around that point, with the upper sample index clamped
    to the last row or column of the reduced buffer. */
module Interpolate {
  import opened Layout
  import Downsample

  /** The two sample indices and the blend weight along one axis. */
  datatype Sample = Sample(lo: nat, hi: nat, t: real)

  function Min(a: int, b: int): int
  {
    if a < b then a else b
  }

  function Max(a: int, b: int): int
  {
    if a < b then b else a
  }

  /** Linear blend of a and b: a at t = 0, moving toward b as t grows. */
  function Lerp(a: real, b: real, t: real): real
  {
    a * (1.0 - t) + b * t
  }

  /** A quotient of naturals splits into its integer quotient and a fraction
      in [0, 1), so truncating it gives the integer quotient. */
  lemma {:induction false} FloorOfQuotient(a: nat, b: nat)
    requires b >= 1
    ensures ((a as real) / (b as real)).Floor == a / b
    ensures (a as real) / (b as real) - ((a / b) as real) == ((a % b) as real) / (b as real)
  {
    var q, r := a / b, a % b;
    var f := (r as real) / (b as real);
    CastProduct(q, b);
    assert (a as real) == (q as real) * (b as real) + (r as real);
    QuotientSplit(q as real, r as real, b as real);
    assert (a as real) / (b as real) == (q as real) + f;
    FractionBelowOne(r, b);
    FloorOfSum(q, f);
  }

  /** An integer plus a fraction in [0, 1) truncates to the integer. */
  lemma {:induction false} FloorOfSum(q: int, f: real)
    requires 0.0 <= f < 1.0
    ensures ((q as real) + f).Floor == q
  {
  }

  /** Converting a product of naturals to a real. */
  lemma {:induction false} CastProduct(q: nat, b: nat)
    ensures ((q * b) as real) == (q as real) * (b as real)
  {
  }

  /** (q·b + r) / b = q + r / b. */
  lemma {:induction false} QuotientSplit(q: real, r: real, b: real)
    requires b > 0.0
    ensures (q * b + r) / b == q + r / b
  {
  }

  /** r / b lies in [0, 1) when 0 <= r < b. */
  lemma {:induction false} FractionBelowOne(r: nat, b: nat)
    requires r < b
    ensures 0.0 <= (r as real) / (b as real) < 1.0
  {
    var f := (r as real) / (b as real);
    assert f * (b as real) == r as real;
  }

  /** r / b is 0 exactly when r is. */
  lemma {:induction false} FractionZero(r: nat, b: nat)
    requires b >= 1
    ensures (r as real) / (b as real) == 0.0 <==> r == 0
  {
    var f := (r as real) / (b as real);
    assert f * (b as real) == r as real;
  }

  /** The samples along one axis for full-resolution position pos, with a
      reduced side of rn: `small` is pos / ratio, `lo` its truncation
      (never below 0), `hi` the truncation of small + 1 capped at rn - 1, and
      `t` the fractional part of small. */
  function SampleAxis(pos: nat, rn: nat, ratio: nat): (s: Sample)
    requires ratio >= 1 && pos / ratio < rn
    ensures s.lo == pos / ratio && s.hi == Min(rn - 1, pos / ratio + 1)
    ensures s.lo <= s.hi < rn
    ensures 0.0 <= s.t < 1.0
    ensures s.t == 0.0 <==> pos % ratio == 0
  {
    var small := (pos as real) / (ratio as real);
    FloorOfQuotient(pos, ratio);
    FractionBelowOne(pos % ratio, ratio);
    FractionZero(pos % ratio, ratio);
    var i := small.Floor;
    var lo := Max(0, i);
    var hi := Min(rn - 1, (small + 1.0).Floor);
    Sample(lo, hi, small - i as real)
  }

  /** Every full-resolution position maps into the reduced buffer. */
  lemma {:induction false} SampleInRange(pos: nat, n: nat, ratio: nat)
    requires ratio >= 1 && pos < n
    ensures pos / ratio < Downsample.ReducedSize(n, ratio)
  {
    var m := Downsample.ReducedSize(n, ratio);
    if pos / ratio >= m {
      MulMono(m, pos / ratio, ratio);
    }
  }

  /** Channel c of full-resolution pixel (x, y), upsampled from the blurred
      reduced buffer of rw×rh pixels. */
  function InterpolateAt(blurred: seq<real>, rw: nat, rh: nat, ratio: nat, x: nat, y: nat, c: nat): real
    requires ratio >= 1 && x / ratio < rw && y / ratio < rh && c < 3 && |blurred| == rw * rh * 3
  {
    var sx, sy := SampleAxis(x, rw, ratio), SampleAxis(y, rh, ratio);
    var hor0 := Lerp(blurred[Idx(rw, rh, sx.lo, sy.lo, c)], blurred[Idx(rw, rh, sx.hi, sy.lo, c)], sx.t);
    var hor1 := Lerp(blurred[Idx(rw, rh, sx.lo, sy.hi, c)], blurred[Idx(rw, rh, sx.hi, sy.hi, c)], sx.t);
    Lerp(hor0, hor1, sy.t)
  }

  /** A blend of two values in [lo, hi] with t in [0, 1] stays in [lo, hi]. */
  lemma {:induction false} LerpWithin(a: real, b: real, t: real, lo: real, hi: real)
    requires lo <= a <= hi && lo <= b <= hi && 0.0 <= t <= 1.0
    ensures lo <= Lerp(a, b, t) <= hi
  {
    assert Lerp(a, b, t) - lo == (a - lo) * (1.0 - t) + (b - lo) * t;
    assert hi - Lerp(a, b, t) == (hi - a) * (1.0 - t) + (hi - b) * t;
    NonNegativeProduct(a - lo, 1.0 - t);
    NonNegativeProduct(b - lo, t);
    NonNegativeProduct(hi - a, 1.0 - t);
    NonNegativeProduct(hi - b, t);
  }

  /** A product of non-negative reals is non-negative. */
  lemma {:induction false} NonNegativeProduct(a: real, b: real)
    requires a >= 0.0 && b >= 0.0
    ensures a * b >= 0.0
  {
  }

  /** An upsampled value is a convex combination of at most four samples:
      it stays within any bounds of the blurred buffer. */
  lemma {:induction false} InterpolateWithin(blurred: seq<real>, rw: nat, rh: nat, ratio: nat, x: nat, y: nat, c: nat, lo: real, hi: real)
    requires ratio >= 1 && x / ratio < rw && y / ratio < rh && c < 3 && |blurred| == rw * rh * 3
    requires forall j :: 0 <= j < |blurred| ==> lo <= blurred[j] <= hi
    ensures lo <= InterpolateAt(blurred, rw, rh, ratio, x, y, c) <= hi
  {
    var sx, sy := SampleAxis(x, rw, ratio), SampleAxis(y, rh, ratio);
    var a, b := blurred[Idx(rw, rh, sx.lo, sy.lo, c)], blurred[Idx(rw, rh, sx.hi, sy.lo, c)];
    var d, e := blurred[Idx(rw, rh, sx.lo, sy.hi, c)], blurred[Idx(rw, rh, sx.hi, sy.hi, c)];
    LerpWithin(a, b, sx.t, lo, hi);
    LerpWithin(d, e, sx.t, lo, hi);
    LerpWithin(Lerp(a, b, sx.t), Lerp(d, e, sx.t), sy.t, lo, hi);
  }

  /** At a tile corner, where x and y are multiples of the ratio, the
      upsampled value is the reduced sample (x/ratio, y/ratio) itself. */
  lemma {:induction false} InterpolateAtTileCorner(blurred: seq<real>, rw: nat, rh: nat, ratio: nat, x: nat, y: nat, c: nat)
    requires ratio >= 1 && x / ratio < rw && y / ratio < rh && c < 3 && |blurred| == rw * rh * 3
    requires x % ratio == 0 && y % ratio == 0
    ensures InterpolateAt(blurred, rw, rh, ratio, x, y, c) == blurred[Idx(rw, rh, x / ratio, y / ratio, c)]
  {
    var sx, sy := SampleAxis(x, rw, ratio), SampleAxis(y, rh, ratio);
    assert sx.t == 0.0 && sy.t == 0.0;
  }

  /** With ratio 1 every pixel is a tile corner: upsampling reads the pixel itself. */
  lemma {:induction false} InterpolateRatioOne(blurred: seq<real>, rw: nat, rh: nat, x: nat, y: nat, c: nat)
    requires x < rw && y < rh && c < 3 && |blurred| == rw * rh * 3
    ensures InterpolateAt(blurred, rw, rh, 1, x, y, c) == blurred[Idx(rw, rh, x, y, c)]
  {
    InterpolateAtTileCorner(blurred, rw, rh, 1, x, y, c);
  }
}
