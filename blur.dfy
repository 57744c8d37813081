/** Specification of the separable blur: each pass is a 1-D convolution along a
    row (horizontal pass) or a column (vertical pass) with a kernel of 2r+1
    taps, where taps that fall outside the buffer are skipped and the result
    is divided by the sum of the weights of the taps that were used. */
module Blur {
  import opened Layout

  /** Every weight of the kernel is strictly positive. */
  predicate PositiveWeights(kernel: seq<real>)
  {
    forall t :: 0 <= t < |kernel| ==> kernel[t] > 0.0
  }

  /** Every value of the line lies in [lo, hi]. */
  predicate Within(line: seq<real>, lo: real, hi: real)
  {
    forall q :: 0 <= q < |line| ==> lo <= line[q] <= hi
  }

  /** Weight tap t contributes to `kernelSum` at position pos of a line of
      length len: its kernel weight when its position pos + t - r lies inside
      [0, len), nothing otherwise. */
  function TapWeightAt(len: nat, pos: int, kernel: seq<real>, r: nat, t: nat): real
    requires t < |kernel|
  {
    if 0 <= pos + t - r < len then kernel[t] else 0.0
  }

  /** Value tap t adds to the weighted sum: weight times the value under it,
      or nothing when it falls outside the line. */
  function TapValueAt(line: seq<real>, pos: int, kernel: seq<real>, r: nat, t: nat): real
    requires t < |kernel|
  {
    var q := pos + t - r;
    if 0 <= q < |line| then kernel[t] * line[q] else 0.0
  }

  /** Sum of the weights of the first n taps that fall inside [0, len): the
      renormalising `kernelSum` after n taps. */
  function TapWeight(len: nat, pos: int, kernel: seq<real>, r: nat, n: nat): (s: real)
    requires n <= |kernel|
    ensures PositiveWeights(kernel) ==> s >= 0.0
    ensures PositiveWeights(kernel) && 0 <= pos < len && r < n ==> s >= kernel[r]
  {
    if n == 0 then 0.0 else TapWeight(len, pos, kernel, r, n - 1) + TapWeightAt(len, pos, kernel, r, n - 1)
  }

  /** Weighted sum of the line over the first n taps that fall inside it. */
  function TapSum(line: seq<real>, pos: int, kernel: seq<real>, r: nat, n: nat): real
    requires n <= |kernel|
  {
    if n == 0 then 0.0 else TapSum(line, pos, kernel, r, n - 1) + TapValueAt(line, pos, kernel, r, n - 1)
  }

  /** Blurred value at position pos of a line: the in-range weighted sum over
      the in-range weight. */
  function Blur1DAt(line: seq<real>, pos: nat, kernel: seq<real>, r: nat): real
    requires |kernel| == 2 * r + 1 && PositiveWeights(kernel) && pos < |line|
  {
    TapSum(line, pos, kernel, r, 2 * r + 1) / TapWeight(|line|, pos, kernel, r, 2 * r + 1)
  }

  /** The renormalising sum is never zero: the centre tap is always in range. */
  lemma {:induction false} CentreTapInRange(line: seq<real>, pos: nat, kernel: seq<real>, r: nat)
    requires |kernel| == 2 * r + 1 && PositiveWeights(kernel) && pos < |line|
    ensures TapWeight(|line|, pos, kernel, r, 2 * r + 1) >= kernel[r] > 0.0
  {
  }

  /** One tap over a value at least lo adds at least lo times its weight. */
  lemma {:induction false} TapAbove(line: seq<real>, pos: int, kernel: seq<real>, r: nat, t: nat, lo: real)
    requires t < |kernel| && PositiveWeights(kernel)
    requires forall q :: 0 <= q < |line| ==> lo <= line[q]
    ensures lo * TapWeightAt(|line|, pos, kernel, r, t) <= TapValueAt(line, pos, kernel, r, t)
  {
    var q := pos + t - r;
    if 0 <= q < |line| {
      ScaleAbove(kernel[t], line[q], lo);
    }
  }

  /** One tap over a value at most hi adds at most hi times its weight. */
  lemma {:induction false} TapBelow(line: seq<real>, pos: int, kernel: seq<real>, r: nat, t: nat, hi: real)
    requires t < |kernel| && PositiveWeights(kernel)
    requires forall q :: 0 <= q < |line| ==> line[q] <= hi
    ensures TapValueAt(line, pos, kernel, r, t) <= hi * TapWeightAt(|line|, pos, kernel, r, t)
  {
    var q := pos + t - r;
    if 0 <= q < |line| {
      ScaleBelow(kernel[t], line[q], hi);
    }
  }

  /** Scaling a value at least lo by a positive weight k. */
  lemma {:induction false} ScaleAbove(k: real, v: real, lo: real)
    requires k > 0.0 && lo <= v
    ensures lo * k <= k * v
  {
    assert k * v - lo * k == k * (v - lo);
  }

  /** Scaling a value at most hi by a positive weight k. */
  lemma {:induction false} ScaleBelow(k: real, v: real, hi: real)
    requires k > 0.0 && v <= hi
    ensures k * v <= hi * k
  {
    assert hi * k - k * v == k * (hi - v);
  }

  /** lo·(w0 + a) = lo·w0 + lo·a, with wn standing for w0 + a. */
  lemma {:induction false} Distribute(lo: real, w0: real, a: real, wn: real)
    requires wn == w0 + a
    ensures lo * wn == lo * w0 + lo * a
  {
  }

  /** A weighted sum of values at least lo is at least lo times the weight. */
  lemma {:induction false} TapSumAbove(line: seq<real>, pos: int, kernel: seq<real>, r: nat, n: nat, lo: real)
    requires n <= |kernel| && PositiveWeights(kernel)
    requires forall q :: 0 <= q < |line| ==> lo <= line[q]
    ensures lo * TapWeight(|line|, pos, kernel, r, n) <= TapSum(line, pos, kernel, r, n)
  {
    if n > 0 {
      TapSumAbove(line, pos, kernel, r, n - 1, lo);
      TapAbove(line, pos, kernel, r, n - 1, lo);
      Distribute(lo, TapWeight(|line|, pos, kernel, r, n - 1), TapWeightAt(|line|, pos, kernel, r, n - 1),
                 TapWeight(|line|, pos, kernel, r, n));
    }
  }

  /** A weighted sum of values at most hi is at most hi times the weight. */
  lemma {:induction false} TapSumBelow(line: seq<real>, pos: int, kernel: seq<real>, r: nat, n: nat, hi: real)
    requires n <= |kernel| && PositiveWeights(kernel)
    requires forall q :: 0 <= q < |line| ==> line[q] <= hi
    ensures TapSum(line, pos, kernel, r, n) <= hi * TapWeight(|line|, pos, kernel, r, n)
  {
    if n > 0 {
      TapSumBelow(line, pos, kernel, r, n - 1, hi);
      TapBelow(line, pos, kernel, r, n - 1, hi);
      Distribute(hi, TapWeight(|line|, pos, kernel, r, n - 1), TapWeightAt(|line|, pos, kernel, r, n - 1),
                 TapWeight(|line|, pos, kernel, r, n));
    }
  }

  /** Dividing lo*c <= s by a positive c. */
  lemma {:induction false} DivAbove(s: real, c: real, lo: real)
    requires c > 0.0 && lo * c <= s
    ensures lo <= s / c
  {
    var v := s / c;
    assert (v - lo) * c == s - lo * c;
    SignOfFactor(v - lo, c);
  }

  /** Dividing s <= hi*c by a positive c. */
  lemma {:induction false} DivBelow(s: real, c: real, hi: real)
    requires c > 0.0 && s <= hi * c
    ensures s / c <= hi
  {
    var v := s / c;
    assert (hi - v) * c == hi * c - s;
    SignOfFactor(hi - v, c);
  }

  /** A product with a positive factor is non-negative only if the other factor is. */
  lemma {:induction false} SignOfFactor(a: real, c: real)
    requires c > 0.0 && a * c >= 0.0
    ensures a >= 0.0
  {
  }

  /** A blurred value is at least any lower bound of the line. */
  lemma {:induction false} Blur1DAbove(line: seq<real>, pos: nat, kernel: seq<real>, r: nat, lo: real)
    requires |kernel| == 2 * r + 1 && PositiveWeights(kernel) && pos < |line|
    requires forall q :: 0 <= q < |line| ==> lo <= line[q]
    ensures lo <= Blur1DAt(line, pos, kernel, r)
  {
    CentreTapInRange(line, pos, kernel, r);
    TapSumAbove(line, pos, kernel, r, 2 * r + 1, lo);
    DivAbove(TapSum(line, pos, kernel, r, 2 * r + 1), TapWeight(|line|, pos, kernel, r, 2 * r + 1), lo);
  }

  /** A blurred value is at most any upper bound of the line. */
  lemma {:induction false} Blur1DBelow(line: seq<real>, pos: nat, kernel: seq<real>, r: nat, hi: real)
    requires |kernel| == 2 * r + 1 && PositiveWeights(kernel) && pos < |line|
    requires forall q :: 0 <= q < |line| ==> line[q] <= hi
    ensures Blur1DAt(line, pos, kernel, r) <= hi
  {
    CentreTapInRange(line, pos, kernel, r);
    TapSumBelow(line, pos, kernel, r, 2 * r + 1, hi);
    DivBelow(TapSum(line, pos, kernel, r, 2 * r + 1), TapWeight(|line|, pos, kernel, r, 2 * r + 1), hi);
  }

  /** A blurred value is a convex combination of the line: it stays within any
      bounds of the line, at borders as well as in the interior. */
  lemma {:induction false} Blur1DWithin(line: seq<real>, pos: nat, kernel: seq<real>, r: nat, lo: real, hi: real)
    requires |kernel| == 2 * r + 1 && PositiveWeights(kernel) && pos < |line|
    requires Within(line, lo, hi)
    ensures lo <= Blur1DAt(line, pos, kernel, r) <= hi
  {
    Blur1DAbove(line, pos, kernel, r, lo);
    Blur1DBelow(line, pos, kernel, r, hi);
  }

  /** A constant line is left unchanged by the renormalised blur. */
  lemma {:induction false} Blur1DUniform(line: seq<real>, pos: nat, kernel: seq<real>, r: nat, v: real)
    requires |kernel| == 2 * r + 1 && PositiveWeights(kernel) && pos < |line|
    requires forall q :: 0 <= q < |line| ==> line[q] == v
    ensures Blur1DAt(line, pos, kernel, r) == v
  {
    Blur1DWithin(line, pos, kernel, r, v, v);
  }

  /** The single-tap kernel [1.0] of radius 0 is the identity. */
  lemma {:induction false} Blur1DIdentity(line: seq<real>, pos: nat)
    requires pos < |line|
    ensures Blur1DAt(line, pos, [1.0], 0) == line[pos]
  {
    assert TapSum(line, pos, [1.0], 0, 1) == line[pos];
    assert TapWeight(|line|, pos, [1.0], 0, 1) == 1.0;
  }

  // ----- the two passes over a w×h RGB buffer -----

  /** Channel c of row y, as a line of w values. */
  function Row(src: seq<real>, w: nat, h: nat, y: nat, c: nat): seq<real>
    requires |src| == w * h * 3 && y < h && c < 3
  {
    seq(w, x requires 0 <= x < w => src[Idx(w, h, x, y, c)])
  }

  /** Channel c of column x, as a line of h values. */
  function Column(src: seq<real>, w: nat, h: nat, x: nat, c: nat): seq<real>
    requires |src| == w * h * 3 && x < w && c < 3
  {
    seq(h, y requires 0 <= y < h => src[Idx(w, h, x, y, c)])
  }

  /** The weighted sum over the first n taps of channel c along row y,
      read straight from the buffer as the horizontal pass reads it. */
  function RowTapSum(src: seq<real>, w: nat, h: nat, y: nat, c: nat, pos: int, kernel: seq<real>, r: nat, n: nat): real
    requires |src| == w * h * 3 && y < h && c < 3 && n <= |kernel|
  {
    if n == 0 then 0.0
    else
      var q := pos + (n - 1) - r;
      RowTapSum(src, w, h, y, c, pos, kernel, r, n - 1) + (if 0 <= q < w then kernel[n - 1] * src[Idx(w, h, q, y, c)] else 0.0)
  }

  /** Reading the buffer along the row is taking the taps of the row's line. */
  lemma {:induction false} RowTapSumIsTapSum(src: seq<real>, w: nat, h: nat, y: nat, c: nat, pos: int, kernel: seq<real>, r: nat, n: nat)
    requires |src| == w * h * 3 && y < h && c < 3 && n <= |kernel|
    ensures RowTapSum(src, w, h, y, c, pos, kernel, r, n) == TapSum(Row(src, w, h, y, c), pos, kernel, r, n)
  {
    if n > 0 {
      RowTapSumIsTapSum(src, w, h, y, c, pos, kernel, r, n - 1);
    }
  }

  /** The weighted sum over the first n taps of channel c down column x,
      read straight from the buffer as the vertical pass reads it. */
  function ColumnTapSum(src: seq<real>, w: nat, h: nat, x: nat, c: nat, pos: int, kernel: seq<real>, r: nat, n: nat): real
    requires |src| == w * h * 3 && x < w && c < 3 && n <= |kernel|
  {
    if n == 0 then 0.0
    else
      var q := pos + (n - 1) - r;
      ColumnTapSum(src, w, h, x, c, pos, kernel, r, n - 1) + (if 0 <= q < h then kernel[n - 1] * src[Idx(w, h, x, q, c)] else 0.0)
  }

  /** Reading the buffer down the column is taking the taps of the column's line. */
  lemma {:induction false} ColumnTapSumIsTapSum(src: seq<real>, w: nat, h: nat, x: nat, c: nat, pos: int, kernel: seq<real>, r: nat, n: nat)
    requires |src| == w * h * 3 && x < w && c < 3 && n <= |kernel|
    ensures ColumnTapSum(src, w, h, x, c, pos, kernel, r, n) == TapSum(Column(src, w, h, x, c), pos, kernel, r, n)
  {
    if n > 0 {
      ColumnTapSumIsTapSum(src, w, h, x, c, pos, kernel, r, n - 1);
    }
  }

  /** The kernel a pass may be run with: 2r+1 strictly positive weights. */
  predicate KernelShape(kernel: seq<real>, r: nat)
  {
    |kernel| == 2 * r + 1 && PositiveWeights(kernel)
  }

  /** Output of the horizontal pass at channel c of pixel (x, y). */
  function HorizontalAt(src: seq<real>, w: nat, h: nat, kernel: seq<real>, r: nat, x: nat, y: nat, c: nat): real
    requires |src| == w * h * 3 && KernelShape(kernel, r) && x < w && y < h && c < 3
  {
    Blur1DAt(Row(src, w, h, y, c), x, kernel, r)
  }

  /** Output of the vertical pass at channel c of pixel (x, y). */
  function VerticalAt(src: seq<real>, w: nat, h: nat, kernel: seq<real>, r: nat, x: nat, y: nat, c: nat): real
    requires |src| == w * h * 3 && KernelShape(kernel, r) && x < w && y < h && c < 3
  {
    Blur1DAt(Column(src, w, h, x, c), y, kernel, r)
  }

  /** The whole buffer the horizontal pass produces. */
  function HorizontalBlurImage(src: seq<real>, w: nat, h: nat, kernel: seq<real>, r: nat): (img: seq<real>)
    requires |src| == w * h * 3 && KernelShape(kernel, r)
    ensures |img| == |src|
  {
    seq(w * h * 3, j requires 0 <= j < w * h * 3 =>
      var p := PixelOf(w, h, j); HorizontalAt(src, w, h, kernel, r, p.0, p.1, j % 3))
  }

  /** The whole buffer the vertical pass produces. */
  function VerticalBlurImage(src: seq<real>, w: nat, h: nat, kernel: seq<real>, r: nat): (img: seq<real>)
    requires |src| == w * h * 3 && KernelShape(kernel, r)
    ensures |img| == |src|
  {
    seq(w * h * 3, j requires 0 <= j < w * h * 3 =>
      var p := PixelOf(w, h, j); VerticalAt(src, w, h, kernel, r, p.0, p.1, j % 3))
  }

  /** Every pixel of the buffer has the same three channel values. */
  predicate Uniform(src: seq<real>)
  {
    forall j :: 3 <= j < |src| ==> src[j] == src[j % 3]
  }

  /** The horizontal pass with kernel [1.0] and radius 0 is the identity. */
  lemma {:induction false} HorizontalIdentity(src: seq<real>, w: nat, h: nat)
    requires |src| == w * h * 3
    ensures HorizontalBlurImage(src, w, h, [1.0], 0) == src
  {
    var img := HorizontalBlurImage(src, w, h, [1.0], 0);
    forall j | 0 <= j < |src|
      ensures img[j] == src[j]
    {
      var p := PixelOf(w, h, j);
      Blur1DIdentity(Row(src, w, h, p.1, j % 3), p.0);
    }
  }

  /** The vertical pass with kernel [1.0] and radius 0 is the identity. */
  lemma {:induction false} VerticalIdentity(src: seq<real>, w: nat, h: nat)
    requires |src| == w * h * 3
    ensures VerticalBlurImage(src, w, h, [1.0], 0) == src
  {
    var img := VerticalBlurImage(src, w, h, [1.0], 0);
    forall j | 0 <= j < |src|
      ensures img[j] == src[j]
    {
      var p := PixelOf(w, h, j);
      Blur1DIdentity(Column(src, w, h, p.0, j % 3), p.1);
    }
  }

  /** Both passes with kernel [1.0] and radius 0 leave the buffer as it was. */
  lemma {:induction false} SeparableIdentity(src: seq<real>, w: nat, h: nat)
    requires |src| == w * h * 3
    ensures VerticalBlurImage(HorizontalBlurImage(src, w, h, [1.0], 0), w, h, [1.0], 0) == src
  {
    HorizontalIdentity(src, w, h);
    VerticalIdentity(src, w, h);
  }

  /** In a uniform buffer channel c of every pixel equals channel c of the first. */
  lemma {:induction false} UniformAt(src: seq<real>, w: nat, h: nat, x: nat, y: nat, c: nat)
    requires |src| == w * h * 3 && Uniform(src) && x < w && y < h && c < 3
    ensures src[Idx(w, h, x, y, c)] == src[c]
  {
    var j := Idx(w, h, x, y, c);
    IdxDecode(w, h, x, y, c);
    assert j % 3 == c;
    if j >= 3 {
      assert src[j] == src[j % 3];
    } else {
      assert j == c;
    }
  }

  /** A uniform buffer comes out of the horizontal pass unchanged. */
  lemma {:induction false} HorizontalUniform(src: seq<real>, w: nat, h: nat, kernel: seq<real>, r: nat)
    requires |src| == w * h * 3 && KernelShape(kernel, r) && Uniform(src)
    ensures HorizontalBlurImage(src, w, h, kernel, r) == src
  {
    var img := HorizontalBlurImage(src, w, h, kernel, r);
    forall j | 0 <= j < |src|
      ensures img[j] == src[j]
    {
      var p := PixelOf(w, h, j);
      var c := j % 3;
      var line := Row(src, w, h, p.1, c);
      forall q | 0 <= q < |line|
        ensures line[q] == src[c]
      {
        UniformAt(src, w, h, q, p.1, c);
      }
      Blur1DUniform(line, p.0, kernel, r, src[c]);
      UniformAt(src, w, h, p.0, p.1, c);
    }
  }

  /** A uniform buffer comes out of the vertical pass unchanged. */
  lemma {:induction false} VerticalUniform(src: seq<real>, w: nat, h: nat, kernel: seq<real>, r: nat)
    requires |src| == w * h * 3 && KernelShape(kernel, r) && Uniform(src)
    ensures VerticalBlurImage(src, w, h, kernel, r) == src
  {
    var img := VerticalBlurImage(src, w, h, kernel, r);
    forall j | 0 <= j < |src|
      ensures img[j] == src[j]
    {
      var p := PixelOf(w, h, j);
      var c := j % 3;
      var line := Column(src, w, h, p.0, c);
      forall q | 0 <= q < |line|
        ensures line[q] == src[c]
      {
        UniformAt(src, w, h, p.0, q, c);
      }
      Blur1DUniform(line, p.1, kernel, r, src[c]);
      UniformAt(src, w, h, p.0, p.1, c);
    }
  }

  /** Channel c of pixel (x, y) of the horizontal pass's output, read at its position. */
  lemma {:induction false} HorizontalImageAt(src: seq<real>, w: nat, h: nat, kernel: seq<real>, r: nat, x: nat, y: nat, c: nat)
    requires |src| == w * h * 3 && KernelShape(kernel, r) && x < w && y < h && c < 3
    ensures HorizontalBlurImage(src, w, h, kernel, r)[Idx(w, h, x, y, c)] == HorizontalAt(src, w, h, kernel, r, x, y, c)
  {
    PixelOfIdx(w, h, x, y, c);
    IdxDecode(w, h, x, y, c);
  }

  /** Channel c of pixel (x, y) of the vertical pass's output, read at its position. */
  lemma {:induction false} VerticalImageAt(src: seq<real>, w: nat, h: nat, kernel: seq<real>, r: nat, x: nat, y: nat, c: nat)
    requires |src| == w * h * 3 && KernelShape(kernel, r) && x < w && y < h && c < 3
    ensures VerticalBlurImage(src, w, h, kernel, r)[Idx(w, h, x, y, c)] == VerticalAt(src, w, h, kernel, r, x, y, c)
  {
    PixelOfIdx(w, h, x, y, c);
    IdxDecode(w, h, x, y, c);
  }

  /** The three channels of pixel (x, y) of the horizontal pass's output,
      read from its first position p on. */
  lemma {:induction false} HorizontalPixelAt(src: seq<real>, w: nat, h: nat, kernel: seq<real>, r: nat, x: nat, y: nat, p: nat)
    requires |src| == w * h * 3 && KernelShape(kernel, r) && x < w && y < h && p == (y * w + x) * 3
    ensures p + 3 <= |src|
    ensures forall j :: p <= j < p + 3 ==> HorizontalBlurImage(src, w, h, kernel, r)[j] == HorizontalAt(src, w, h, kernel, r, x, y, j - p)
  {
    PixelInRange(w, h, x, y);
    forall j | p <= j < p + 3
      ensures HorizontalBlurImage(src, w, h, kernel, r)[j] == HorizontalAt(src, w, h, kernel, r, x, y, j - p)
    {
      HorizontalImageAt(src, w, h, kernel, r, x, y, j - p);
      assert Idx(w, h, x, y, j - p) == j;
    }
  }

  /** The three channels of pixel (x, y) of the vertical pass's output, read
      from its first position p on. */
  lemma {:induction false} VerticalPixelAt(src: seq<real>, w: nat, h: nat, kernel: seq<real>, r: nat, x: nat, y: nat, p: nat)
    requires |src| == w * h * 3 && KernelShape(kernel, r) && x < w && y < h && p == (y * w + x) * 3
    ensures p + 3 <= |src|
    ensures forall j :: p <= j < p + 3 ==> VerticalBlurImage(src, w, h, kernel, r)[j] == VerticalAt(src, w, h, kernel, r, x, y, j - p)
  {
    PixelInRange(w, h, x, y);
    forall j | p <= j < p + 3
      ensures VerticalBlurImage(src, w, h, kernel, r)[j] == VerticalAt(src, w, h, kernel, r, x, y, j - p)
    {
      VerticalImageAt(src, w, h, kernel, r, x, y, j - p);
      assert Idx(w, h, x, y, j - p) == j;
    }
  }
}
