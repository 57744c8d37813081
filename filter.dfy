/** The bloom filter object: its configuration fields, the setters that keep
    the derived kernel in step with the radius, and the frame pass, whose
    stages work in place on flat row-major RGB arrays (channel c of pixel
    (x, y) of a w×h buffer at (y*w + x)*3 + c). Each stage is proved to leave
    its destination equal to the stage's specification applied to its source. */
module Filter {
  import opened Layout
  import Kernel
  import Downsample
  import Select
  import Blur
  import Interpolate
  import Config
  import Pipeline

  /** The destination image, seen as the log of its setPixel calls. */
  class BitmapImage {
    var writes: seq<Pipeline.Write>

    constructor ()
      ensures writes == []
    {
      writes := [];
    }

    method SetPixel(x: nat, y: nat, color: Pipeline.Color)
      modifies this
      ensures writes == old(writes) + [Pipeline.Write(x, y, color)]
    {
      writes := writes + [Pipeline.Write(x, y, color)];
    }
  }

  /** System.arraycopy between two different arrays: length values of src
      from srcPos on are copied to dst from dstPos on; nothing else changes. */
  method ArrayCopy(src: array<real>, srcPos: nat, dst: array<real>, dstPos: nat, length: nat)
    requires src != dst && srcPos + length <= src.Length && dstPos + length <= dst.Length
    modifies dst
    ensures forall j :: 0 <= j < dst.Length ==>
              dst[j] == if dstPos <= j < dstPos + length then src[srcPos + (j - dstPos)] else old(dst[j])
  {
    for k := 0 to length
      invariant forall j :: 0 <= j < dst.Length ==>
                  dst[j] == if dstPos <= j < dstPos + k then src[srcPos + (j - dstPos)] else old(dst[j])
    {
      dst[dstPos + k] := src[srcPos + k];
    }
  }

  class BloomFilter {
    var downSampleRatio: int
    var blurRadius: nat
    var blurKernel: array<real>
    var threshold: real
    var highlightOnly: bool
    /** The exponential the kernel weights are computed with. */
    const exp: real -> real

    /** The kernel is always the normalised Gaussian of the current radius,
        so it has the shape the blur passes need: 2r+1 positive weights. */
    ghost predicate Valid()
      reads this, blurKernel
    {
      Kernel.PositiveExp(exp) && blurKernel[..] == Kernel.GaussianKernel(exp, blurRadius)
      && Blur.KernelShape(blurKernel[..], blurRadius)
    }

    /** The configuration a frame started now would use. */
    ghost function Snapshot(): Pipeline.Settings
      reads this, blurKernel
      requires downSampleRatio >= 1
    {
      Pipeline.Settings(downSampleRatio, blurRadius, blurKernel[..], threshold, highlightOnly)
    }

    /** The ratio is stored as given, unclamped. */
    constructor (downSampleRatio: int, blurRadius: nat, threshold: real, exp: real -> real)
      requires Kernel.PositiveExp(exp)
      ensures Valid() && fresh(blurKernel) && this.exp == exp
      ensures this.downSampleRatio == downSampleRatio && this.blurRadius == blurRadius
      ensures this.threshold == threshold && !highlightOnly
    {
      this.exp := exp;
      this.downSampleRatio := downSampleRatio;
      this.blurRadius := blurRadius;
      var kernel := ComputeBlurKernel(exp, blurRadius);
      Kernel.KernelPositive(exp, blurRadius);
      this.blurKernel := kernel;
      this.threshold := threshold;
      this.highlightOnly := false;
    }

    /** Sets the ratio, raised to 1 when below, and rescales the radius by
        old ratio / new ratio, rounded half up, regenerating the kernel. The
        rescaled radius must not be negative (the kernel array could not be
        allocated). */
    method SetDownSampleRatio(downSampleRatio: int)
      requires Valid()
      requires Config.RescaledRadius(blurRadius, this.downSampleRatio, Config.ClampRatio(downSampleRatio)) >= 0
      modifies this
      ensures Valid() && fresh(blurKernel)
      ensures this.downSampleRatio == Config.ClampRatio(downSampleRatio)
      ensures blurRadius == Config.RescaledRadius(old(blurRadius), old(this.downSampleRatio), this.downSampleRatio)
      ensures threshold == old(threshold) && highlightOnly == old(highlightOnly)
    {
      var ratio := downSampleRatio;
      if ratio < 1 {
        ratio := 1;
      }
      var radius := Config.RescaledRadius(blurRadius, this.downSampleRatio, ratio);
      SetBlurRadius(radius);
      this.downSampleRatio := ratio;
    }

    /** Sets the radius and regenerates the kernel: 2r+1 positive weights,
        symmetric about the centre and summing to 1. */
    method SetBlurRadius(blurRadius: nat)
      requires Valid()
      modifies this
      ensures Valid() && fresh(this.blurKernel) && this.blurRadius == blurRadius
      ensures this.blurKernel.Length == 2 * blurRadius + 1
      ensures forall t :: 0 <= t <= 2 * blurRadius ==> this.blurKernel[t] == this.blurKernel[2 * blurRadius - t]
      ensures Kernel.Total(this.blurKernel[..]) == 1.0
      ensures downSampleRatio == old(downSampleRatio) && threshold == old(threshold) && highlightOnly == old(highlightOnly)
    {
      this.blurRadius := blurRadius;
      this.blurKernel := ComputeBlurKernel(exp, blurRadius);
      Kernel.KernelPositive(exp, blurRadius);
      Kernel.KernelSymmetric(exp, blurRadius);
      Kernel.KernelSumsToOne(exp, blurRadius);
    }

    method SetThreshold(threshold: real)
      modifies this`threshold
      ensures this.threshold == threshold
    {
      this.threshold := threshold;
    }

    method SetHighlightOnly(highlightOnly: bool)
      modifies this`highlightOnly
      ensures this.highlightOnly == highlightOnly
    {
      this.highlightOnly := highlightOnly;
    }

    /** Fills a new array with exp(-i²·factor) for i in [-r, r], then divides
        every entry by their sum. */
    static method ComputeBlurKernel(exp: real -> real, blurRadius: nat) returns (kernel: array<real>)
      requires Kernel.PositiveExp(exp)
      ensures fresh(kernel) && kernel[..] == Kernel.GaussianKernel(exp, blurRadius)
    {
      kernel := new real[2 * blurRadius + 1];
      var sum := FillWeights(exp, blurRadius, kernel);
      DivideAll(kernel, sum);
      ghost var g := Kernel.GaussianKernel(exp, blurRadius);
      forall t | 0 <= t < kernel.Length
        ensures kernel[t] == g[t]
      {
      }
    }

    /** The weighting loop of computeBlurKernel: entry t becomes the
        unnormalised weight of offset t - r, and their sum is returned. The
        factor at radius 0 is taken as 0. */
    static method FillWeights(exp: real -> real, blurRadius: nat, kernel: array<real>) returns (sum: real)
      requires Kernel.PositiveExp(exp) && kernel.Length == 2 * blurRadius + 1
      modifies kernel
      ensures sum == Kernel.WeightSum(exp, blurRadius, 2 * blurRadius + 1) && sum > 0.0
      ensures forall t :: 0 <= t < kernel.Length ==> kernel[t] == Kernel.Weight(exp, blurRadius, t - blurRadius)
    {
      var sigma := blurRadius as real / 3.0;
      var factor := if blurRadius == 0 then 0.0 else 1.0 / (2.0 * sigma * sigma);
      sum := 0.0;
      for i: int := -(blurRadius as int) to blurRadius + 1
        invariant sum == Kernel.WeightSum(exp, blurRadius, i + blurRadius)
        invariant forall t :: 0 <= t < i + blurRadius ==> kernel[t] == Kernel.Weight(exp, blurRadius, t - blurRadius)
      {
        var exponent := (-(i * i)) as real * factor;
        assert exponent == Kernel.Exponent(blurRadius, i);
        kernel[i + blurRadius] := exp(exponent);
        sum := sum + kernel[i + blurRadius];
      }
    }

    /** The normalisation loop of computeBlurKernel: every entry is divided
        by the same non-zero divisor. */
    static method DivideAll(kernel: array<real>, divisor: real)
      requires divisor != 0.0
      modifies kernel
      ensures forall t :: 0 <= t < kernel.Length ==> kernel[t] == old(kernel[t]) / divisor
    {
      for i := 0 to kernel.Length
        invariant forall t :: 0 <= t < i ==> kernel[t] == old(kernel[t]) / divisor
        invariant forall t :: i <= t < kernel.Length ==> kernel[t] == old(kernel[t])
      {
        kernel[i] := kernel[i] / divisor;
      }
    }
  
    // ----- stage 1: downsampling -----

    /** Box-averages the frame into lowres, which must hold zeros: each
        reduced pixel becomes the mean of the in-frame pixels of its tile. */
    method DownSample(width: nat, height: nat, input: array<real>, reducedWidth: nat, reducedHeight: nat, lowres: array<real>)
      requires downSampleRatio >= 1
      requires reducedWidth == Downsample.ReducedSize(width, downSampleRatio)
      requires reducedHeight == Downsample.ReducedSize(height, downSampleRatio)
      requires input.Length == width * height * 3 && lowres.Length == reducedWidth * reducedHeight * 3 && input != lowres
      requires forall j :: 0 <= j < lowres.Length ==> lowres[j] == 0.0
      modifies lowres
      ensures lowres[..] == Downsample.DownSampleImage(input[..], width, height, downSampleRatio)
    {
      ghost var src := input[..];
      ghost var img := Downsample.DownSampleImage(src, width, height, downSampleRatio);
      for y := 0 to reducedHeight
        invariant forall j :: 0 <= j < y * reducedWidth * 3 ==> lowres[j] == img[j]
        invariant forall j :: y * reducedWidth * 3 <= j < lowres.Length ==> lowres[j] == 0.0
      {
        DownSampleRow(width, height, input, reducedWidth, reducedHeight, lowres, y, src, img);
      }
      assert reducedHeight * reducedWidth * 3 == lowres.Length == |img|;
      assert forall j :: 0 <= j < lowres.Length ==> lowres[j] == img[j];
    }

    /** Row y of the downsampling loop: given the rows above it done and the
        rest still zero, the reduced pixels of row y are averaged from left
        to right. */
    method DownSampleRow(width: nat, height: nat, input: array<real>, reducedWidth: nat, reducedHeight: nat, lowres: array<real>,
                         y: nat, ghost src: seq<real>, ghost img: seq<real>)
      requires downSampleRatio >= 1 && y < reducedHeight
      requires reducedWidth == Downsample.ReducedSize(width, downSampleRatio)
      requires reducedHeight == Downsample.ReducedSize(height, downSampleRatio)
      requires input.Length == width * height * 3 && lowres.Length == reducedWidth * reducedHeight * 3 && input != lowres
      requires input[..] == src && img == Downsample.DownSampleImage(src, width, height, downSampleRatio)
      requires forall j :: 0 <= j < y * reducedWidth * 3 && j < |img| ==> lowres[j] == img[j]
      requires forall j :: y * reducedWidth * 3 <= j < lowres.Length ==> lowres[j] == 0.0
      modifies lowres
      ensures (y + 1) * reducedWidth * 3 <= |img|
      ensures forall j :: 0 <= j < (y + 1) * reducedWidth * 3 ==> lowres[j] == img[j]
      ensures forall j :: (y + 1) * reducedWidth * 3 <= j < lowres.Length ==> lowres[j] == 0.0
    {
      ghost var start := y * reducedWidth;
      assert start + reducedWidth <= reducedWidth * reducedHeight by {
        MulMono(y + 1, reducedHeight, reducedWidth);
      }
      for x := 0 to reducedWidth
        invariant start + x <= reducedWidth * reducedHeight
        invariant forall j :: 0 <= j < (start + x) * 3 ==> lowres[j] == img[j]
        invariant forall j :: (start + x) * 3 <= j < lowres.Length ==> lowres[j] == 0.0
      {
        var p := (y * reducedWidth + x) * 3;
        assert p == Idx(reducedWidth, reducedHeight, x, y, 0) && p + 2 == Idx(reducedWidth, reducedHeight, x, y, 2);
        AverageTile(width, height, input, x, y, lowres, p);
        forall j | p <= j < p + 3
          ensures lowres[j] == img[j]
        {
          Downsample.DownSampleImageAt(src, width, height, downSampleRatio, x, y, j - p);
        }
      }
      assert (start + reducedWidth) * 3 == (y + 1) * reducedWidth * 3 <= |img|;
    }

    /** Adds the three channels of one frame pixel into one reduced pixel. */
    static method AddPixel(input: array<real>, highresPixelIndex: nat, lowres: array<real>, lowresPixelIndex: nat)
      requires highresPixelIndex + 3 <= input.Length && lowresPixelIndex + 3 <= lowres.Length && input != lowres
      modifies lowres
      ensures forall j :: 0 <= j < lowres.Length ==>
                lowres[j] == if lowresPixelIndex <= j < lowresPixelIndex + 3
                             then old(lowres[j]) + input[highresPixelIndex + (j - lowresPixelIndex)]
                             else old(lowres[j])
    {
      for i := 0 to 3
        invariant forall j :: 0 <= j < lowres.Length ==>
                    lowres[j] == if lowresPixelIndex <= j < lowresPixelIndex + i
                                 then old(lowres[j]) + input[highresPixelIndex + (j - lowresPixelIndex)]
                                 else old(lowres[j])
      {
        lowres[lowresPixelIndex + i] := lowres[lowresPixelIndex + i] + input[highresPixelIndex + i];
      }
    }

    /** The body of the downsampling loop for reduced pixel (x, y), stored
        from lowresPixelIndex on: adds up every frame pixel of the tile that
        lies inside the frame, counting them, then divides each channel by
        the count. */
    method AverageTile(width: nat, height: nat, input: array<real>, x: nat, y: nat, lowres: array<real>, lowresPixelIndex: nat)
      requires downSampleRatio >= 1
      requires x < Downsample.ReducedSize(width, downSampleRatio) && y < Downsample.ReducedSize(height, downSampleRatio)
      requires input.Length == width * height * 3 && lowresPixelIndex + 3 <= lowres.Length && input != lowres
      requires forall j :: lowresPixelIndex <= j < lowresPixelIndex + 3 ==> lowres[j] == 0.0
      modifies lowres
      ensures forall j :: 0 <= j < lowres.Length ==>
                lowres[j] == if lowresPixelIndex <= j < lowresPixelIndex + 3
                             then Downsample.DownSampleAt(input[..], width, height, downSampleRatio, x, y, j - lowresPixelIndex)
                             else old(lowres[j])
    {
      var ratio := downSampleRatio;
      var count := AccumulateTile(width, height, input, ratio, x, y, lowres, lowresPixelIndex);
      Downsample.AreaPositive(Downsample.Span(width, ratio, x), Downsample.Span(height, ratio, y));
      DividePixel(lowres, lowresPixelIndex, count as real);
      Downsample.DownSampleAtArea(input[..], width, height, ratio, x, y);
    }

    /** The two loops over the tile's rows and columns, cut short at the
        frame's edges: adds the tile's in-frame pixels into the reduced pixel,
        which starts at zero, and counts them. */
    static method AccumulateTile(width: nat, height: nat, input: array<real>, ratio: nat, x: nat, y: nat,
                                 lowres: array<real>, lowresPixelIndex: nat) returns (count: nat)
      requires ratio >= 1 && x < Downsample.ReducedSize(width, ratio) && y < Downsample.ReducedSize(height, ratio)
      requires input.Length == width * height * 3 && lowresPixelIndex + 3 <= lowres.Length && input != lowres
      requires forall j :: lowresPixelIndex <= j < lowresPixelIndex + 3 ==> lowres[j] == 0.0
      modifies lowres
      ensures count == Downsample.Area(Downsample.Span(width, ratio, x), Downsample.Span(height, ratio, y))
      ensures forall j :: 0 <= j < lowres.Length ==>
                lowres[j] == if lowresPixelIndex <= j < lowresPixelIndex + 3
                             then Downsample.TileSum(input[..], width, height, x * ratio, y * ratio, j - lowresPixelIndex,
                                                     Downsample.Span(width, ratio, x), Downsample.Span(height, ratio, y))
                             else old(lowres[j])
    {
      ghost var src := input[..];
      ghost var sx, sy := Downsample.Span(width, ratio, x), Downsample.Span(height, ratio, y);
      var y0 := y * ratio;
      count := 0;
      var realy := y0;
      while realy < y0 + ratio && realy < height
        invariant y0 <= realy <= y0 + sy
        invariant count == Downsample.Area(sx, realy - y0)
        invariant forall j :: 0 <= j < lowres.Length ==>
                    lowres[j] == if lowresPixelIndex <= j < lowresPixelIndex + 3
                                 then Downsample.TileSum(src, width, height, x * ratio, y0, j - lowresPixelIndex, sx, realy - y0)
                                 else old(lowres[j])
        decreases y0 + ratio - realy
      {
        count := AccumulateRow(width, height, input, ratio, x, realy, lowres, lowresPixelIndex, count);
        realy := realy + 1;
      }
    }

    /** The inner loop of the tile sum: adds the pixels of frame row realy
        that belong to tile column x into the reduced pixel, and counts them. */
    static method AccumulateRow(width: nat, height: nat, input: array<real>, ratio: nat, x: nat, realy: nat,
                                lowres: array<real>, lowresPixelIndex: nat, count: nat) returns (newCount: nat)
      requires ratio >= 1 && x < Downsample.ReducedSize(width, ratio) && realy < height
      requires input.Length == width * height * 3 && lowresPixelIndex + 3 <= lowres.Length && input != lowres
      modifies lowres
      ensures newCount == count + Downsample.Span(width, ratio, x)
      ensures forall j :: 0 <= j < lowres.Length ==>
                lowres[j] == if lowresPixelIndex <= j < lowresPixelIndex + 3
                             then old(lowres[j]) + Downsample.RowSum(input[..], width, height, x * ratio, realy, j - lowresPixelIndex, Downsample.Span(width, ratio, x))
                             else old(lowres[j])
    {
      ghost var src := input[..];
      var x0 := x * ratio;
      ghost var sx := Downsample.Span(width, ratio, x);
      newCount := count;
      var realx := x0;
      while realx < x0 + ratio && realx < width
        invariant x0 <= realx <= x0 + sx
        invariant newCount == count + (realx - x0)
        invariant forall j :: 0 <= j < lowres.Length ==>
                    lowres[j] == if lowresPixelIndex <= j < lowresPixelIndex + 3
                                 then old(lowres[j]) + Downsample.RowSum(src, width, height, x0, realy, j - lowresPixelIndex, realx - x0)
                                 else old(lowres[j])
        decreases x0 + ratio - realx
      {
        var highresPixelIndex := (realy * width + realx) * 3;
        assert highresPixelIndex == Idx(width, height, realx, realy, 0) && highresPixelIndex + 2 == Idx(width, height, realx, realy, 2);
        AddPixel(input, highresPixelIndex, lowres, lowresPixelIndex);
        newCount := newCount + 1;
        realx := realx + 1;
      }
    }

    /** Divides the three channels of one pixel by a non-zero divisor: the
        tile's count, or a blur's in-range kernel weight. */
    static method DividePixel(buffer: array<real>, pixelIndex: nat, divisor: real)
      requires pixelIndex + 3 <= buffer.Length && divisor != 0.0
      modifies buffer
      ensures forall j :: 0 <= j < buffer.Length ==>
                buffer[j] == if pixelIndex <= j < pixelIndex + 3 then old(buffer[j]) / divisor else old(buffer[j])
    {
      for i := 0 to 3
        invariant forall j :: 0 <= j < buffer.Length ==>
                    buffer[j] == if pixelIndex <= j < pixelIndex + i then old(buffer[j]) / divisor else old(buffer[j])
      {
        buffer[pixelIndex + i] := buffer[pixelIndex + i] / divisor;
      }
    }

    // ----- stage 2: bright-pixel selection -----

    /** Copies into selected, which must hold zeros, every reduced pixel whose
        brightness is strictly above the threshold; the others stay black. */
    static method SelectBrightPixels(reducedWidth: nat, reducedHeight: nat, lowres: array<real>, threshold: real, selected: array<real>)
      requires lowres.Length == reducedWidth * reducedHeight * 3 && selected.Length == lowres.Length && lowres != selected
      requires forall j :: 0 <= j < selected.Length ==> selected[j] == 0.0
      modifies selected
      ensures selected[..] == Select.SelectImage(lowres[..], reducedWidth, reducedHeight, threshold)
    {
      ghost var src := lowres[..];
      ghost var img := Select.SelectImage(src, reducedWidth, reducedHeight, threshold);
      for y := 0 to reducedHeight
        invariant forall j :: 0 <= j < y * reducedWidth * 3 ==> selected[j] == img[j]
        invariant forall j :: y * reducedWidth * 3 <= j < selected.Length ==> selected[j] == 0.0
      {
        SelectRow(reducedWidth, reducedHeight, lowres, threshold, selected, y, src, img);
      }
      assert reducedHeight * reducedWidth * 3 == selected.Length == |img|;
      assert forall j :: 0 <= j < selected.Length ==> selected[j] == img[j];
    }

    /** Row y of the selection loop: given the rows above it done and the
        rest still zero, the pixels of row y are tested from left to right. */
    static method SelectRow(reducedWidth: nat, reducedHeight: nat, lowres: array<real>, threshold: real, selected: array<real>,
                            y: nat, ghost src: seq<real>, ghost img: seq<real>)
      requires y < reducedHeight
      requires lowres.Length == reducedWidth * reducedHeight * 3 && selected.Length == lowres.Length && lowres != selected
      requires lowres[..] == src && img == Select.SelectImage(src, reducedWidth, reducedHeight, threshold)
      requires forall j :: 0 <= j < y * reducedWidth * 3 && j < |img| ==> selected[j] == img[j]
      requires forall j :: y * reducedWidth * 3 <= j < selected.Length ==> selected[j] == 0.0
      modifies selected
      ensures (y + 1) * reducedWidth * 3 <= |img|
      ensures forall j :: 0 <= j < (y + 1) * reducedWidth * 3 ==> selected[j] == img[j]
      ensures forall j :: (y + 1) * reducedWidth * 3 <= j < selected.Length ==> selected[j] == 0.0
    {
      ghost var start := y * reducedWidth;
      assert start + reducedWidth <= reducedWidth * reducedHeight by {
        MulMono(y + 1, reducedHeight, reducedWidth);
      }
      for x := 0 to reducedWidth
        invariant start + x <= reducedWidth * reducedHeight
        invariant forall j :: 0 <= j < (start + x) * 3 ==> selected[j] == img[j]
        invariant forall j :: (start + x) * 3 <= j < selected.Length ==> selected[j] == 0.0
      {
        var pixelIndex := (y * reducedWidth + x) * 3;
        assert pixelIndex == Idx(reducedWidth, reducedHeight, x, y, 0) && pixelIndex + 2 == Idx(reducedWidth, reducedHeight, x, y, 2);
        SelectPixel(reducedWidth, reducedHeight, lowres, threshold, selected, x, y, pixelIndex);
        Select.SelectPixelAt(src, reducedWidth, reducedHeight, threshold, x, y, pixelIndex);
      }
      assert (start + reducedWidth) * 3 == (y + 1) * reducedWidth * 3 <= |img|;
    }

    /** The body of the selection loop for pixel (x, y), stored from
        pixelIndex on in both buffers: the pixel is copied when its
        brightness is strictly above the threshold and left black otherwise. */
    static method SelectPixel(reducedWidth: nat, reducedHeight: nat, lowres: array<real>, threshold: real, selected: array<real>,
                              x: nat, y: nat, pixelIndex: nat)
      requires x < reducedWidth && y < reducedHeight && pixelIndex == Idx(reducedWidth, reducedHeight, x, y, 0)
      requires lowres.Length == reducedWidth * reducedHeight * 3 && selected.Length == lowres.Length && lowres != selected
      requires forall j :: pixelIndex <= j < pixelIndex + 3 && j < selected.Length ==> selected[j] == 0.0
      modifies selected
      ensures forall j :: 0 <= j < selected.Length ==>
                selected[j] == if pixelIndex <= j < pixelIndex + 3
                               then Select.SelectAt(lowres[..], reducedWidth, reducedHeight, threshold, x, y, j - pixelIndex)
                               else old(selected[j])
    {
      assert pixelIndex + 2 == Idx(reducedWidth, reducedHeight, x, y, 2);
      var brightness := lowres[pixelIndex] * Select.LumaRed
                        + lowres[pixelIndex] * Select.LumaGreen
                        + lowres[pixelIndex] * Select.LumaBlue;
      assert brightness == Select.Brightness(lowres[..], reducedWidth, reducedHeight, x, y);
      if brightness > threshold {
        ArrayCopy(lowres, pixelIndex, selected, pixelIndex, 3);
      }
    }

    // ----- stage 3: separable blur -----

    /** Adds weight times the three channels of one source pixel into one
        destination pixel. */
    static method AddWeightedPixel(src: array<real>, srcIndex: nat, weight: real, dst: array<real>, dstIndex: nat)
      requires srcIndex + 3 <= src.Length && dstIndex + 3 <= dst.Length && src != dst
      modifies dst
      ensures forall j :: 0 <= j < dst.Length ==>
                dst[j] == if dstIndex <= j < dstIndex + 3
                          then old(dst[j]) + weight * src[srcIndex + (j - dstIndex)]
                          else old(dst[j])
    {
      for i := 0 to 3
        invariant forall j :: 0 <= j < dst.Length ==>
                    dst[j] == if dstIndex <= j < dstIndex + i
                              then old(dst[j]) + weight * src[srcIndex + (j - dstIndex)]
                              else old(dst[j])
      {
        dst[dstIndex + i] := dst[dstIndex + i] + weight * src[srcIndex + i];
      }
    }

    /** Sets the three channels of one pixel to zero. */
    static method ClearPixel(buffer: array<real>, pixelIndex: nat)
      requires pixelIndex + 3 <= buffer.Length
      modifies buffer
      ensures forall j :: 0 <= j < buffer.Length ==>
                buffer[j] == if pixelIndex <= j < pixelIndex + 3 then 0.0 else old(buffer[j])
    {
      for i := 0 to 3
        invariant forall j :: 0 <= j < buffer.Length ==>
                    buffer[j] == if pixelIndex <= j < pixelIndex + i then 0.0 else old(buffer[j])
      {
        buffer[pixelIndex + i] := 0.0;
      }
    }

    /** The body of the horizontal pass for pixel (x, y), stored from
        pixelIndex on: the kernel-weighted sum of the row's pixels within the
        radius that lie inside the buffer, divided by the sum of the weights
        actually used. */
    static method HorizontalBlurPixel(reducedWidth: nat, reducedHeight: nat, selected: array<real>, blurRadius: nat, blurKernel: array<real>,
                                      horizontallyBlurred: array<real>, x: nat, y: nat, pixelIndex: nat)
      requires x < reducedWidth && y < reducedHeight && selected.Length == reducedWidth * reducedHeight * 3
      requires Blur.KernelShape(blurKernel[..], blurRadius)
      requires pixelIndex + 3 <= horizontallyBlurred.Length
      requires horizontallyBlurred != selected && horizontallyBlurred != blurKernel
      modifies horizontallyBlurred
      ensures forall j :: 0 <= j < horizontallyBlurred.Length ==>
                horizontallyBlurred[j] == if pixelIndex <= j < pixelIndex + 3
                                          then Blur.HorizontalAt(selected[..], reducedWidth, reducedHeight, blurKernel[..], blurRadius, x, y, j - pixelIndex)
                                          else old(horizontallyBlurred[j])
    {
      ghost var src, kernel := selected[..], blurKernel[..];
      var kernelSum := 0.0;
      ClearPixel(horizontallyBlurred, pixelIndex);
      for kernelIndex: int := -(blurRadius as int) to blurRadius + 1
        invariant kernelSum == Blur.TapWeight(reducedWidth, x, kernel, blurRadius, kernelIndex + blurRadius)
        invariant forall j :: pixelIndex <= j < pixelIndex + 3 ==>
                    horizontallyBlurred[j] == Blur.RowTapSum(src, reducedWidth, reducedHeight, y, j - pixelIndex, x, kernel, blurRadius, kernelIndex + blurRadius)
        invariant forall j :: 0 <= j < horizontallyBlurred.Length && !(pixelIndex <= j < pixelIndex + 3) ==>
                    horizontallyBlurred[j] == old(horizontallyBlurred[j])
      {
        ghost var n := kernelIndex + blurRadius;
        var currentX := x + kernelIndex;
        if currentX < 0 || currentX >= reducedWidth {
          forall c | 0 <= c < 3
            ensures Blur.RowTapSum(src, reducedWidth, reducedHeight, y, c, x, kernel, blurRadius, n + 1)
                    == Blur.RowTapSum(src, reducedWidth, reducedHeight, y, c, x, kernel, blurRadius, n)
          {
          }
          continue;
        }
        var weight := blurKernel[blurRadius + kernelIndex];
        kernelSum := kernelSum + weight;
        HorizontalTap(reducedWidth, reducedHeight, selected, blurRadius, blurKernel, horizontallyBlurred, x, y, pixelIndex, kernelIndex);
      }
      forall j | pixelIndex <= j < pixelIndex + 3
        ensures horizontallyBlurred[j] == Blur.TapSum(Blur.Row(src, reducedWidth, reducedHeight, y, j - pixelIndex), x, kernel, blurRadius, 2 * blurRadius + 1)
      {
        Blur.RowTapSumIsTapSum(src, reducedWidth, reducedHeight, y, j - pixelIndex, x, kernel, blurRadius, 2 * blurRadius + 1);
      }
      Blur.CentreTapInRange(Blur.Row(src, reducedWidth, reducedHeight, y, 0), x, kernel, blurRadius);
      DividePixel(horizontallyBlurred, pixelIndex, kernelSum);
    }

    /** One in-range tap of the horizontal pass: adds the tap's weight times
        pixel (x + kernelIndex, y) into the pixel stored from pixelIndex on. */
    static method HorizontalTap(reducedWidth: nat, reducedHeight: nat, selected: array<real>, blurRadius: nat, blurKernel: array<real>,
                                horizontallyBlurred: array<real>, x: nat, y: nat, pixelIndex: nat, kernelIndex: int)
      requires y < reducedHeight && selected.Length == reducedWidth * reducedHeight * 3
      requires blurKernel.Length == 2 * blurRadius + 1 && -(blurRadius as int) <= kernelIndex <= blurRadius
      requires 0 <= x + kernelIndex < reducedWidth
      requires pixelIndex + 3 <= horizontallyBlurred.Length
      requires horizontallyBlurred != selected && horizontallyBlurred != blurKernel
      requires forall j :: pixelIndex <= j < pixelIndex + 3 ==>
                 horizontallyBlurred[j] == Blur.RowTapSum(selected[..], reducedWidth, reducedHeight, y, j - pixelIndex, x, blurKernel[..], blurRadius, kernelIndex + blurRadius)
      modifies horizontallyBlurred
      ensures forall j :: pixelIndex <= j < pixelIndex + 3 ==>
                horizontallyBlurred[j] == Blur.RowTapSum(selected[..], reducedWidth, reducedHeight, y, j - pixelIndex, x, blurKernel[..], blurRadius, kernelIndex + blurRadius + 1)
      ensures forall j :: 0 <= j < horizontallyBlurred.Length && !(pixelIndex <= j < pixelIndex + 3) ==>
                horizontallyBlurred[j] == old(horizontallyBlurred[j])
    {
      ghost var src, kernel := selected[..], blurKernel[..];
      var currentX := x + kernelIndex;
      var weight := blurKernel[blurRadius + kernelIndex];
      var currentPixelIndex := (y * reducedWidth + currentX) * 3;
      assert currentPixelIndex == Idx(reducedWidth, reducedHeight, currentX, y, 0) && currentPixelIndex + 2 == Idx(reducedWidth, reducedHeight, currentX, y, 2);
      AddWeightedPixel(selected, currentPixelIndex, weight, horizontallyBlurred, pixelIndex);
      forall j | pixelIndex <= j < pixelIndex + 3
        ensures horizontallyBlurred[j] == Blur.RowTapSum(src, reducedWidth, reducedHeight, y, j - pixelIndex, x, kernel, blurRadius, kernelIndex + blurRadius + 1)
      {
        assert selected[currentPixelIndex + (j - pixelIndex)] == src[Idx(reducedWidth, reducedHeight, currentX, y, j - pixelIndex)];
      }
    }

    /** Blurs every row of selected into horizontallyBlurred. */
    static method HorizontalBlur(reducedWidth: nat, reducedHeight: nat, selected: array<real>, blurRadius: nat, blurKernel: array<real>,
                                 horizontallyBlurred: array<real>)
      requires selected.Length == reducedWidth * reducedHeight * 3 && horizontallyBlurred.Length == selected.Length
      requires Blur.KernelShape(blurKernel[..], blurRadius)
      requires horizontallyBlurred != selected && horizontallyBlurred != blurKernel
      modifies horizontallyBlurred
      ensures horizontallyBlurred[..] == Blur.HorizontalBlurImage(selected[..], reducedWidth, reducedHeight, blurKernel[..], blurRadius)
    {
      ghost var src, kernel := selected[..], blurKernel[..];
      ghost var img := Blur.HorizontalBlurImage(src, reducedWidth, reducedHeight, kernel, blurRadius);
      for y := 0 to reducedHeight
        invariant selected[..] == src && blurKernel[..] == kernel
        invariant forall j :: 0 <= j < y * reducedWidth * 3 ==> horizontallyBlurred[j] == img[j]
      {
        HorizontalBlurRow(reducedWidth, reducedHeight, selected, blurRadius, blurKernel, horizontallyBlurred, y, src, kernel, img);
      }
      assert reducedHeight * reducedWidth * 3 == horizontallyBlurred.Length == |img|;
      assert forall j :: 0 <= j < horizontallyBlurred.Length ==> horizontallyBlurred[j] == img[j];
    }

    /** Row y of the pass: given the rows above it done, the pixels of row y
        are computed from left to right. */
    static method HorizontalBlurRow(reducedWidth: nat, reducedHeight: nat, selected: array<real>, blurRadius: nat, blurKernel: array<real>,
                                    horizontallyBlurred: array<real>, y: nat, ghost src: seq<real>, ghost kernel: seq<real>, ghost img: seq<real>)
      requires y < reducedHeight && selected.Length == reducedWidth * reducedHeight * 3 && horizontallyBlurred.Length == selected.Length
      requires Blur.KernelShape(kernel, blurRadius)
      requires horizontallyBlurred != selected && horizontallyBlurred != blurKernel
      requires selected[..] == src && blurKernel[..] == kernel
      requires img == Blur.HorizontalBlurImage(src, reducedWidth, reducedHeight, kernel, blurRadius)
      requires forall j :: 0 <= j < y * reducedWidth * 3 && j < |img| ==> horizontallyBlurred[j] == img[j]
      modifies horizontallyBlurred
      ensures (y + 1) * reducedWidth * 3 <= |img|
      ensures forall j :: 0 <= j < (y + 1) * reducedWidth * 3 ==> horizontallyBlurred[j] == img[j]
    {
      ghost var start := y * reducedWidth;
      assert start + reducedWidth <= reducedWidth * reducedHeight by {
        MulMono(y + 1, reducedHeight, reducedWidth);
      }
      for x := 0 to reducedWidth
        invariant start + x <= reducedWidth * reducedHeight
        invariant selected[..] == src && blurKernel[..] == kernel
        invariant forall j :: 0 <= j < (start + x) * 3 ==> horizontallyBlurred[j] == img[j]
      {
        var pixelIndex := (y * reducedWidth + x) * 3;
        assert pixelIndex == Idx(reducedWidth, reducedHeight, x, y, 0) && pixelIndex + 2 == Idx(reducedWidth, reducedHeight, x, y, 2);
        HorizontalBlurPixel(reducedWidth, reducedHeight, selected, blurRadius, blurKernel, horizontallyBlurred, x, y, pixelIndex);
        Blur.HorizontalPixelAt(src, reducedWidth, reducedHeight, kernel, blurRadius, x, y, pixelIndex);
      }
      assert (start + reducedWidth) * 3 == (y + 1) * reducedWidth * 3 <= |img|;
    }

    /** The body of the vertical pass for pixel (x, y), stored from
        pixelIndex on: the kernel-weighted sum of the column's pixels within
        the radius that lie inside the buffer, divided by the sum of the
        weights actually used. */
    static method VerticalBlurPixel(reducedWidth: nat, reducedHeight: nat, blurRadius: nat, blurKernel: array<real>,
                                    horizontallyBlurred: array<real>, blurred: array<real>, x: nat, y: nat, pixelIndex: nat)
      requires x < reducedWidth && y < reducedHeight && horizontallyBlurred.Length == reducedWidth * reducedHeight * 3
      requires Blur.KernelShape(blurKernel[..], blurRadius)
      requires pixelIndex + 3 <= blurred.Length
      requires blurred != horizontallyBlurred && blurred != blurKernel
      modifies blurred
      ensures forall j :: 0 <= j < blurred.Length ==>
                blurred[j] == if pixelIndex <= j < pixelIndex + 3
                              then Blur.VerticalAt(horizontallyBlurred[..], reducedWidth, reducedHeight, blurKernel[..], blurRadius, x, y, j - pixelIndex)
                              else old(blurred[j])
    {
      ghost var src, kernel := horizontallyBlurred[..], blurKernel[..];
      var kernelSum := 0.0;
      ClearPixel(blurred, pixelIndex);
      for kernelIndex: int := -(blurRadius as int) to blurRadius + 1
        invariant kernelSum == Blur.TapWeight(reducedHeight, y, kernel, blurRadius, kernelIndex + blurRadius)
        invariant forall j :: pixelIndex <= j < pixelIndex + 3 ==>
                    blurred[j] == Blur.ColumnTapSum(src, reducedWidth, reducedHeight, x, j - pixelIndex, y, kernel, blurRadius, kernelIndex + blurRadius)
        invariant forall j :: 0 <= j < blurred.Length && !(pixelIndex <= j < pixelIndex + 3) ==>
                    blurred[j] == old(blurred[j])
      {
        ghost var n := kernelIndex + blurRadius;
        var currentY := y + kernelIndex;
        if currentY < 0 || currentY >= reducedHeight {
          forall c | 0 <= c < 3
            ensures Blur.ColumnTapSum(src, reducedWidth, reducedHeight, x, c, y, kernel, blurRadius, n + 1)
                    == Blur.ColumnTapSum(src, reducedWidth, reducedHeight, x, c, y, kernel, blurRadius, n)
          {
          }
          continue;
        }
        var weight := blurKernel[blurRadius + kernelIndex];
        kernelSum := kernelSum + weight;
        VerticalTap(reducedWidth, reducedHeight, blurRadius, blurKernel, horizontallyBlurred, blurred, x, y, pixelIndex, kernelIndex);
      }
      forall j | pixelIndex <= j < pixelIndex + 3
        ensures blurred[j] == Blur.TapSum(Blur.Column(src, reducedWidth, reducedHeight, x, j - pixelIndex), y, kernel, blurRadius, 2 * blurRadius + 1)
      {
        Blur.ColumnTapSumIsTapSum(src, reducedWidth, reducedHeight, x, j - pixelIndex, y, kernel, blurRadius, 2 * blurRadius + 1);
      }
      Blur.CentreTapInRange(Blur.Column(src, reducedWidth, reducedHeight, x, 0), y, kernel, blurRadius);
      DividePixel(blurred, pixelIndex, kernelSum);
    }

    /** One in-range tap of the vertical pass: adds the tap's weight times
        pixel (x, y + kernelIndex) into the pixel stored from pixelIndex on. */
    static method VerticalTap(reducedWidth: nat, reducedHeight: nat, blurRadius: nat, blurKernel: array<real>,
                              horizontallyBlurred: array<real>, blurred: array<real>, x: nat, y: nat, pixelIndex: nat, kernelIndex: int)
      requires x < reducedWidth && horizontallyBlurred.Length == reducedWidth * reducedHeight * 3
      requires blurKernel.Length == 2 * blurRadius + 1 && -(blurRadius as int) <= kernelIndex <= blurRadius
      requires 0 <= y + kernelIndex < reducedHeight
      requires pixelIndex + 3 <= blurred.Length
      requires blurred != horizontallyBlurred && blurred != blurKernel
      requires forall j :: pixelIndex <= j < pixelIndex + 3 ==>
                 blurred[j] == Blur.ColumnTapSum(horizontallyBlurred[..], reducedWidth, reducedHeight, x, j - pixelIndex, y, blurKernel[..], blurRadius, kernelIndex + blurRadius)
      modifies blurred
      ensures forall j :: pixelIndex <= j < pixelIndex + 3 ==>
                blurred[j] == Blur.ColumnTapSum(horizontallyBlurred[..], reducedWidth, reducedHeight, x, j - pixelIndex, y, blurKernel[..], blurRadius, kernelIndex + blurRadius + 1)
      ensures forall j :: 0 <= j < blurred.Length && !(pixelIndex <= j < pixelIndex + 3) ==>
                blurred[j] == old(blurred[j])
    {
      ghost var src, kernel := horizontallyBlurred[..], blurKernel[..];
      var currentY := y + kernelIndex;
      var weight := blurKernel[blurRadius + kernelIndex];
      var currentPixelIndex := (currentY * reducedWidth + x) * 3;
      assert currentPixelIndex == Idx(reducedWidth, reducedHeight, x, currentY, 0) && currentPixelIndex + 2 == Idx(reducedWidth, reducedHeight, x, currentY, 2);
      AddWeightedPixel(horizontallyBlurred, currentPixelIndex, weight, blurred, pixelIndex);
      forall j | pixelIndex <= j < pixelIndex + 3
        ensures blurred[j] == Blur.ColumnTapSum(src, reducedWidth, reducedHeight, x, j - pixelIndex, y, kernel, blurRadius, kernelIndex + blurRadius + 1)
      {
        assert horizontallyBlurred[currentPixelIndex + (j - pixelIndex)] == src[Idx(reducedWidth, reducedHeight, x, currentY, j - pixelIndex)];
      }
    }

    /** Blurs every column of horizontallyBlurred into blurred. */
    static method VerticalBlur(reducedWidth: nat, reducedHeight: nat, blurRadius: nat, blurKernel: array<real>,
                               horizontallyBlurred: array<real>, blurred: array<real>)
      requires horizontallyBlurred.Length == reducedWidth * reducedHeight * 3 && blurred.Length == horizontallyBlurred.Length
      requires Blur.KernelShape(blurKernel[..], blurRadius)
      requires blurred != horizontallyBlurred && blurred != blurKernel
      modifies blurred
      ensures blurred[..] == Blur.VerticalBlurImage(horizontallyBlurred[..], reducedWidth, reducedHeight, blurKernel[..], blurRadius)
    {
      ghost var src, kernel := horizontallyBlurred[..], blurKernel[..];
      ghost var img := Blur.VerticalBlurImage(src, reducedWidth, reducedHeight, kernel, blurRadius);
      for y := 0 to reducedHeight
        invariant horizontallyBlurred[..] == src && blurKernel[..] == kernel
        invariant forall j :: 0 <= j < y * reducedWidth * 3 ==> blurred[j] == img[j]
      {
        VerticalBlurRow(reducedWidth, reducedHeight, blurRadius, blurKernel, horizontallyBlurred, blurred, y, src, kernel, img);
      }
      assert reducedHeight * reducedWidth * 3 == blurred.Length == |img|;
      assert forall j :: 0 <= j < blurred.Length ==> blurred[j] == img[j];
    }

    /** Row y of the pass: given the rows above it done, the pixels of row y
        are computed from left to right. */
    static method VerticalBlurRow(reducedWidth: nat, reducedHeight: nat, blurRadius: nat, blurKernel: array<real>,
                                  horizontallyBlurred: array<real>, blurred: array<real>, y: nat, ghost src: seq<real>, ghost kernel: seq<real>, ghost img: seq<real>)
      requires y < reducedHeight && horizontallyBlurred.Length == reducedWidth * reducedHeight * 3 && blurred.Length == horizontallyBlurred.Length
      requires Blur.KernelShape(kernel, blurRadius)
      requires blurred != horizontallyBlurred && blurred != blurKernel
      requires horizontallyBlurred[..] == src && blurKernel[..] == kernel
      requires img == Blur.VerticalBlurImage(src, reducedWidth, reducedHeight, kernel, blurRadius)
      requires forall j :: 0 <= j < y * reducedWidth * 3 && j < |img| ==> blurred[j] == img[j]
      modifies blurred
      ensures (y + 1) * reducedWidth * 3 <= |img|
      ensures forall j :: 0 <= j < (y + 1) * reducedWidth * 3 ==> blurred[j] == img[j]
    {
      ghost var start := y * reducedWidth;
      assert start + reducedWidth <= reducedWidth * reducedHeight by {
        MulMono(y + 1, reducedHeight, reducedWidth);
      }
      for x := 0 to reducedWidth
        invariant start + x <= reducedWidth * reducedHeight
        invariant horizontallyBlurred[..] == src && blurKernel[..] == kernel
        invariant forall j :: 0 <= j < (start + x) * 3 ==> blurred[j] == img[j]
      {
        var pixelIndex := (y * reducedWidth + x) * 3;
        assert pixelIndex == Idx(reducedWidth, reducedHeight, x, y, 0) && pixelIndex + 2 == Idx(reducedWidth, reducedHeight, x, y, 2);
        VerticalBlurPixel(reducedWidth, reducedHeight, blurRadius, blurKernel, horizontallyBlurred, blurred, x, y, pixelIndex);
        Blur.VerticalPixelAt(src, reducedWidth, reducedHeight, kernel, blurRadius, x, y, pixelIndex);
      }
      assert (start + reducedWidth) * 3 == (y + 1) * reducedWidth * 3 <= |img|;
    }

    // ----- stage 4: upsampling and compositing -----

    /** Bilinear upsampling of full-resolution pixel (x, y) from the blurred
        reduced buffer into pixelBuffer: the four reduced samples around
        (x/ratio, y/ratio), with the upper indices capped at the last row and
        column. */
    method InterpolatePixel(reducedWidth: nat, reducedHeight: nat, blurred: array<real>, x: nat, y: nat, pixelBuffer: array<real>)
      requires downSampleRatio >= 1 && x / downSampleRatio < reducedWidth && y / downSampleRatio < reducedHeight
      requires blurred.Length == reducedWidth * reducedHeight * 3 && pixelBuffer.Length == 3 && pixelBuffer != blurred
      modifies pixelBuffer
      ensures forall c :: 0 <= c < 3 ==>
                pixelBuffer[c] == Interpolate.InterpolateAt(blurred[..], reducedWidth, reducedHeight, downSampleRatio, x, y, c)
    {
      var smallx := (x as real) / (downSampleRatio as real);
      var smally := (y as real) / (downSampleRatio as real);
      var x0 := Interpolate.Max(0, smallx.Floor);
      var x1 := Interpolate.Min(reducedWidth - 1, (smallx + 1.0).Floor);
      var y0 := Interpolate.Max(0, smally.Floor);
      var y1 := Interpolate.Min(reducedHeight - 1, (smally + 1.0).Floor);
      var tx := smallx - smallx.Floor as real;
      var ty := smally - smally.Floor as real;
      ghost var sx, sy := Interpolate.SampleAxis(x, reducedWidth, downSampleRatio), Interpolate.SampleAxis(y, reducedHeight, downSampleRatio);
      assert x0 == sx.lo && x1 == sx.hi && tx == sx.t;
      assert y0 == sy.lo && y1 == sy.hi && ty == sy.t;
      for i := 0 to 3
        invariant forall c :: 0 <= c < i ==>
                    pixelBuffer[c] == Interpolate.InterpolateAt(blurred[..], reducedWidth, reducedHeight, downSampleRatio, x, y, c)
      {
        assert (y0 * reducedWidth + x0) * 3 + i == Idx(reducedWidth, reducedHeight, x0, y0, i);
        assert (y0 * reducedWidth + x1) * 3 + i == Idx(reducedWidth, reducedHeight, x1, y0, i);
        assert (y1 * reducedWidth + x0) * 3 + i == Idx(reducedWidth, reducedHeight, x0, y1, i);
        assert (y1 * reducedWidth + x1) * 3 + i == Idx(reducedWidth, reducedHeight, x1, y1, i);
        // a * (1 - t) + b * t, blending along x and then along y
        var hor0 := Interpolate.Lerp(blurred[(y0 * reducedWidth + x0) * 3 + i], blurred[(y0 * reducedWidth + x1) * 3 + i], tx);
        var hor1 := Interpolate.Lerp(blurred[(y1 * reducedWidth + x0) * 3 + i], blurred[(y1 * reducedWidth + x1) * 3 + i], tx);
        var value := Interpolate.Lerp(hor0, hor1, ty);
        pixelBuffer[i] := value;
      }
    }

    /** The compositing loop for one full-resolution pixel: each channel of
        the upsampled bloom gets the original value added unless in
        highlight-only mode, is scaled by the exposure, passed through the
        gamma step and capped at 1. */
    method CompositeChannels(input: array<real>, pixelIndex: nat, exposure: real, gammaStep: real -> real, pixelBuffer: array<real>)
      requires pixelIndex + 3 <= input.Length && pixelBuffer.Length == 3 && pixelBuffer != input
      modifies pixelBuffer
      ensures forall c :: 0 <= c < 3 ==>
                pixelBuffer[c] == Pipeline.CompositeChannel(old(pixelBuffer[c]), input[pixelIndex + c], highlightOnly, exposure, gammaStep)
    {
      for i := 0 to 3
        invariant forall c :: 0 <= c < i ==>
                    pixelBuffer[c] == Pipeline.CompositeChannel(old(pixelBuffer[c]), input[pixelIndex + c], highlightOnly, exposure, gammaStep)
        invariant forall c :: i <= c < 3 ==> pixelBuffer[c] == old(pixelBuffer[c])
      {
        ghost var bloom := pixelBuffer[i];
        if !highlightOnly {
          pixelBuffer[i] := pixelBuffer[i] + input[pixelIndex + i];
        }
        assert pixelBuffer[i] == Pipeline.Linear(bloom, input[pixelIndex + i], highlightOnly);
        pixelBuffer[i] := pixelBuffer[i] * exposure;
        assert pixelBuffer[i] == Pipeline.Exposed(bloom, input[pixelIndex + i], highlightOnly, exposure);
        pixelBuffer[i] := gammaStep(pixelBuffer[i]);
        pixelBuffer[i] := Pipeline.Min(1.0, pixelBuffer[i]);
      }
    }

    /** Stages 1 to 3 of a frame: the blurred bright pixels of the reduced
        frame, in a new buffer. */
    method ComputeBloom(width: nat, height: nat, input: array<real>) returns (reducedWidth: nat, reducedHeight: nat, blurred: array<real>)
      requires Blur.KernelShape(blurKernel[..], blurRadius) && downSampleRatio >= 1 && input.Length == width * height * 3
      ensures reducedWidth == Downsample.ReducedSize(width, downSampleRatio)
      ensures reducedHeight == Downsample.ReducedSize(height, downSampleRatio)
      ensures fresh(blurred) && blurred[..] == Pipeline.BloomImage(input[..], width, height, Snapshot())
    {
      reducedWidth := (width + downSampleRatio - 1) / downSampleRatio;
      reducedHeight := (height + downSampleRatio - 1) / downSampleRatio;
      var lowres := new real[reducedWidth * reducedHeight * 3](_ => 0.0);
      DownSample(width, height, input, reducedWidth, reducedHeight, lowres);
      var selected := new real[reducedWidth * reducedHeight * 3](_ => 0.0);
      SelectBrightPixels(reducedWidth, reducedHeight, lowres, threshold, selected);
      // the two buffers are reused: the horizontal pass writes over lowres,
      // the vertical pass over selected
      var horizontallyBlurred := lowres;
      HorizontalBlur(reducedWidth, reducedHeight, selected, blurRadius, blurKernel, horizontallyBlurred);
      blurred := selected;
      VerticalBlur(reducedWidth, reducedHeight, blurRadius, blurKernel, horizontallyBlurred, blurred);
    }

    /** The body of the frame loop for full-resolution pixel (x, y): the
        bloom upsampled there and composited onto the original pixel, as the
        colour to write. */
    method RenderPixel(width: nat, height: nat, input: array<real>, reducedWidth: nat, reducedHeight: nat, blurred: array<real>,
                       x: nat, y: nat, exposure: real, gammaStep: real -> real, pixelBuffer: array<real>) returns (color: Pipeline.Color)
      requires Blur.KernelShape(blurKernel[..], blurRadius) && downSampleRatio >= 1 && input.Length == width * height * 3 && x < width && y < height
      requires reducedWidth == Downsample.ReducedSize(width, downSampleRatio)
      requires reducedHeight == Downsample.ReducedSize(height, downSampleRatio)
      requires blurred.Length == reducedWidth * reducedHeight * 3
      requires pixelBuffer.Length == 3 && pixelBuffer != blurred && pixelBuffer != input && pixelBuffer != blurKernel
      modifies pixelBuffer
      ensures color == Pipeline.PixelColor(input[..], width, height, Snapshot(), blurred[..], x, y, exposure, gammaStep)
    {
      ghost var src, bloom, settings := input[..], blurred[..], Snapshot();
      var pixelIndex := (y * width + x) * 3;
      assert pixelIndex == Idx(width, height, x, y, 0) && pixelIndex + 2 == Idx(width, height, x, y, 2);
      Interpolate.SampleInRange(x, width, downSampleRatio);
      Interpolate.SampleInRange(y, height, downSampleRatio);
      InterpolatePixel(reducedWidth, reducedHeight, blurred, x, y, pixelBuffer);
      CompositeChannels(input, pixelIndex, exposure, gammaStep, pixelBuffer);
      color := Pipeline.Color(pixelBuffer[0], pixelBuffer[1], pixelBuffer[2]);
      assert input[..] == src && blurred[..] == bloom && Snapshot() == settings;
      forall c | 0 <= c < 3
        ensures color.Channel(c) == Pipeline.ChannelAt(src, width, height, settings, bloom, x, y, c, exposure, gammaStep)
      {
        assert color.Channel(c) == pixelBuffer[c];
        assert pixelIndex + c == Idx(width, height, x, y, c);
      }
    }

    /** One row y of the frame loop: the writes for the pixels of row y, from
        left to right, are appended to the output. */
    method RenderRow(width: nat, height: nat, input: array<real>, reducedWidth: nat, reducedHeight: nat, blurred: array<real>,
                     y: nat, exposure: real, gammaStep: real -> real, pixelBuffer: array<real>, output: BitmapImage,
                     ghost src: seq<real>, ghost bloom: seq<real>, ghost settings: Pipeline.Settings)
      requires Blur.KernelShape(blurKernel[..], blurRadius) && downSampleRatio >= 1 && input.Length == width * height * 3 && y < height
      requires reducedWidth == Downsample.ReducedSize(width, downSampleRatio)
      requires reducedHeight == Downsample.ReducedSize(height, downSampleRatio)
      requires blurred.Length == reducedWidth * reducedHeight * 3
      requires input[..] == src && blurred[..] == bloom && Snapshot() == settings
      requires pixelBuffer.Length == 3 && pixelBuffer != blurred && pixelBuffer != input && pixelBuffer != blurKernel
      modifies pixelBuffer, output
      ensures input[..] == src && blurred[..] == bloom && Snapshot() == settings
      ensures output.writes == old(output.writes) + Pipeline.RowWrites(src, width, height, settings, bloom, y, exposure, gammaStep)
    {
      ghost var row := Pipeline.RowWrites(src, width, height, settings, bloom, y, exposure, gammaStep);
      for x := 0 to width
        invariant input[..] == src && blurred[..] == bloom && Snapshot() == settings
        invariant output.writes == old(output.writes) + row[..x]
      {
        var color := RenderPixel(width, height, input, reducedWidth, reducedHeight, blurred, x, y, exposure, gammaStep, pixelBuffer);
        SliceNext(row, x);
        output.SetPixel(x, y, color);
      }
    }

    /** The frame loop: every full-resolution pixel, row by row, is written
        to the output with the bloom `blurred` composited onto it. */
    method RenderFrame(width: nat, height: nat, input: array<real>, reducedWidth: nat, reducedHeight: nat, blurred: array<real>,
                       exposure: real, gammaStep: real -> real, output: BitmapImage,
                       ghost src: seq<real>, ghost bloom: seq<real>, ghost settings: Pipeline.Settings)
      requires Blur.KernelShape(blurKernel[..], blurRadius) && downSampleRatio >= 1 && input.Length == width * height * 3
      requires reducedWidth == Downsample.ReducedSize(width, downSampleRatio)
      requires reducedHeight == Downsample.ReducedSize(height, downSampleRatio)
      requires blurred.Length == reducedWidth * reducedHeight * 3
      requires input[..] == src && blurred[..] == bloom && Snapshot() == settings
      modifies output
      ensures output.writes == old(output.writes) + Pipeline.RowsWrites(src, width, height, settings, bloom, height, exposure, gammaStep)
    {
      var pixelBuffer := new real[3];
      for y := 0 to height
        invariant input[..] == src && blurred[..] == bloom && Snapshot() == settings
        invariant output.writes == old(output.writes) + Pipeline.RowsWrites(src, width, height, settings, bloom, y, exposure, gammaStep)
      {
        RenderRow(width, height, input, reducedWidth, reducedHeight, blurred, y, exposure, gammaStep, pixelBuffer, output, src, bloom, settings);
      }
    }

    /** One frame: the bloom of the frame, upsampled and composited onto the
        original, is written to the output pixel by pixel in row-major order. */
    method ProcessFrame(width: nat, height: nat, input: array<real>, output: BitmapImage, exposure: real, gammaStep: real -> real)
      requires Valid() && downSampleRatio >= 1 && input.Length == width * height * 3
      modifies output
      ensures output.writes == old(output.writes) + Pipeline.FrameWrites(input[..], width, height, Snapshot(), exposure, gammaStep)
    {
      var reducedWidth, reducedHeight, blurred := ComputeBloom(width, height, input);
      ghost var src, bloom, settings := input[..], blurred[..], Snapshot();
      RenderFrame(width, height, input, reducedWidth, reducedHeight, blurred, exposure, gammaStep, output, src, bloom, settings);
      Pipeline.RowsWritesPrefix(src, width, height, settings, bloom, height, exposure, gammaStep);
      assert height * width == width * height;
    }
  }
}
