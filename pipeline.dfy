/** Specification of a whole frame: the four reduced-buffer stages composed,
    then, for every full-resolution pixel in row-major order, the upsampled
    bloom composited onto the original pixel and written to the output. The
    gamma step is a parameter `gammaStep` (the power 1/gamma of the host's
    display constant); the packing of the colour into an int is not modelled,
    so a write carries the three capped channels. */
module Pipeline {
  import opened Layout
  import Downsample
  import Select
  import Blur
  import Interpolate

  /** Three linear channels of one output pixel. */
  datatype Color = Color(r: real, g: real, b: real)
  {
    function Channel(c: nat): real
      requires c < 3
    {
      if c == 0 then r else if c == 1 then g else b
    }
  }

  /** One call to the output image's setPixel. */
  datatype Write = Write(x: nat, y: nat, color: Color)

  /** The configuration a frame is processed with, read once at its start. */
  datatype Settings = Settings(ratio: nat, radius: nat, kernel: seq<real>, threshold: real, highlightOnly: bool)

  /** A configuration a frame can be processed with: a ratio of at least 1 and
      a kernel of 2*radius+1 positive weights. */
  predicate Runnable(s: Settings)
  {
    s.ratio >= 1 && Blur.KernelShape(s.kernel, s.radius)
  }

  /** Stages 1 to 3: the reduced buffer after downsampling, bright-pixel
      selection, horizontal blur and vertical blur. */
  function BloomImage(input: seq<real>, w: nat, h: nat, s: Settings): (img: seq<real>)
    requires |input| == w * h * 3 && Runnable(s)
    ensures |img| == Downsample.ReducedSize(w, s.ratio) * Downsample.ReducedSize(h, s.ratio) * 3
  {
    var rw, rh := Downsample.ReducedSize(w, s.ratio), Downsample.ReducedSize(h, s.ratio);
    var lowres := Downsample.DownSampleImage(input, w, h, s.ratio);
    var selected := Select.SelectImage(lowres, rw, rh, s.threshold);
    var horizontal := Blur.HorizontalBlurImage(selected, rw, rh, s.kernel, s.radius);
    Blur.VerticalBlurImage(horizontal, rw, rh, s.kernel, s.radius)
  }

  function Min(a: real, b: real): real
  {
    if a < b then a else b
  }

  /** The linear value of one channel before exposure: the bloom, plus the
      original value unless in highlight-only mode. */
  function Linear(bloom: real, original: real, highlightOnly: bool): real
  {
    if highlightOnly then bloom else bloom + original
  }

  /** The linear value scaled by the exposure. */
  function Exposed(bloom: real, original: real, highlightOnly: bool, exposure: real): real
  {
    Linear(bloom, original, highlightOnly) * exposure
  }

  /** One output channel: the exposed value passed through the gamma step and
      capped at 1. There is no lower bound. */
  function CompositeChannel(bloom: real, original: real, highlightOnly: bool, exposure: real, gammaStep: real -> real): (v: real)
    ensures v <= 1.0
    ensures v < 1.0 ==> v == gammaStep(Exposed(bloom, original, highlightOnly, exposure))
    ensures v == 1.0 <==> gammaStep(Exposed(bloom, original, highlightOnly, exposure)) >= 1.0
  {
    Min(1.0, gammaStep(Exposed(bloom, original, highlightOnly, exposure)))
  }

  /** In highlight-only mode the original value plays no part. */
  lemma {:induction false} HighlightOnlyIgnoresOriginal(bloom: real, a: real, b: real, exposure: real, gammaStep: real -> real)
    ensures CompositeChannel(bloom, a, true, exposure, gammaStep) == CompositeChannel(bloom, b, true, exposure, gammaStep)
  {
    assert Exposed(bloom, a, true, exposure) == Exposed(bloom, b, true, exposure);
  }

  /** Channel c of the colour written for full-resolution pixel (x, y), given
      the blurred reduced buffer. */
  function ChannelAt(input: seq<real>, w: nat, h: nat, s: Settings, bloom: seq<real>, x: nat, y: nat, c: nat, exposure: real, gammaStep: real -> real): real
    requires |input| == w * h * 3 && Runnable(s) && x < w && y < h && c < 3
    requires |bloom| == Downsample.ReducedSize(w, s.ratio) * Downsample.ReducedSize(h, s.ratio) * 3
  {
    var rw, rh := Downsample.ReducedSize(w, s.ratio), Downsample.ReducedSize(h, s.ratio);
    Interpolate.SampleInRange(x, w, s.ratio);
    Interpolate.SampleInRange(y, h, s.ratio);
    CompositeChannel(Interpolate.InterpolateAt(bloom, rw, rh, s.ratio, x, y, c), input[Idx(w, h, x, y, c)], s.highlightOnly, exposure, gammaStep)
  }

  /** Colour written for full-resolution pixel (x, y). */
  function PixelColor(input: seq<real>, w: nat, h: nat, s: Settings, bloom: seq<real>, x: nat, y: nat, exposure: real, gammaStep: real -> real): (col: Color)
    requires |input| == w * h * 3 && Runnable(s) && x < w && y < h
    requires |bloom| == Downsample.ReducedSize(w, s.ratio) * Downsample.ReducedSize(h, s.ratio) * 3
    ensures forall c :: 0 <= c < 3 ==> col.Channel(c) == ChannelAt(input, w, h, s, bloom, x, y, c, exposure, gammaStep)
  {
    Color(ChannelAt(input, w, h, s, bloom, x, y, 0, exposure, gammaStep),
          ChannelAt(input, w, h, s, bloom, x, y, 1, exposure, gammaStep),
          ChannelAt(input, w, h, s, bloom, x, y, 2, exposure, gammaStep))
  }

  /** The writes a frame makes, in the order they are made: the k-th write is
      for the pixel whose flat number is k. */
  function FrameWrites(input: seq<real>, w: nat, h: nat, s: Settings, exposure: real, gammaStep: real -> real): (ws: seq<Write>)
    requires |input| == w * h * 3 && Runnable(s)
    ensures |ws| == w * h
  {
    WritesOver(input, w, h, s, BloomImage(input, w, h, s), exposure, gammaStep)
  }

  /** The writes of a frame whose blurred reduced buffer is `bloom`. */
  function WritesOver(input: seq<real>, w: nat, h: nat, s: Settings, bloom: seq<real>, exposure: real, gammaStep: real -> real): (ws: seq<Write>)
    requires |input| == w * h * 3 && Runnable(s)
    requires |bloom| == Downsample.ReducedSize(w, s.ratio) * Downsample.ReducedSize(h, s.ratio) * 3
    ensures |ws| == w * h
  {
    seq(w * h, k requires 0 <= k < w * h =>
      var p := PointOf(w, h, k);
      Write(p.0, p.1, PixelColor(input, w, h, s, bloom, p.0, p.1, exposure, gammaStep)))
  }

  /** The writes for row y, from left to right. */
  function RowWrites(input: seq<real>, w: nat, h: nat, s: Settings, bloom: seq<real>, y: nat, exposure: real, gammaStep: real -> real): (ws: seq<Write>)
    requires |input| == w * h * 3 && Runnable(s) && y < h
    requires |bloom| == Downsample.ReducedSize(w, s.ratio) * Downsample.ReducedSize(h, s.ratio) * 3
    ensures |ws| == w
  {
    seq(w, x requires 0 <= x < w => Write(x, y, PixelColor(input, w, h, s, bloom, x, y, exposure, gammaStep)))
  }

  /** Every pixel of the frame is written exactly once, in row-major order:
      the write for (x, y) is the (y*w + x)-th. */
  lemma {:induction false} FrameWritesRowMajor(input: seq<real>, w: nat, h: nat, s: Settings, exposure: real, gammaStep: real -> real, x: nat, y: nat)
    requires |input| == w * h * 3 && Runnable(s) && x < w && y < h
    ensures y * w + x < w * h
    ensures FrameWrites(input, w, h, s, exposure, gammaStep)[y * w + x]
              == Write(x, y, PixelColor(input, w, h, s, BloomImage(input, w, h, s), x, y, exposure, gammaStep))
  {
    WritesOverAt(input, w, h, s, BloomImage(input, w, h, s), exposure, gammaStep, x, y);
  }

  /** The (y*w + x)-th write of a frame with bloom `bloom` is for (x, y). */
  lemma {:induction false} WritesOverAt(input: seq<real>, w: nat, h: nat, s: Settings, bloom: seq<real>, exposure: real, gammaStep: real -> real, x: nat, y: nat)
    requires |input| == w * h * 3 && Runnable(s) && x < w && y < h
    requires |bloom| == Downsample.ReducedSize(w, s.ratio) * Downsample.ReducedSize(h, s.ratio) * 3
    ensures y * w + x < w * h
    ensures WritesOver(input, w, h, s, bloom, exposure, gammaStep)[y * w + x]
              == Write(x, y, PixelColor(input, w, h, s, bloom, x, y, exposure, gammaStep))
  {
    PointOfPixel(w, h, x, y);
  }

  /** The frame's writes are its rows' writes one after the other: the w
      writes from number start = y*w on are those of row y. */
  lemma {:induction false} WritesByRow(input: seq<real>, w: nat, h: nat, s: Settings, bloom: seq<real>, y: nat, start: nat, exposure: real, gammaStep: real -> real)
    requires |input| == w * h * 3 && Runnable(s) && y < h && start == y * w
    requires |bloom| == Downsample.ReducedSize(w, s.ratio) * Downsample.ReducedSize(h, s.ratio) * 3
    ensures start + w <= w * h
    ensures WritesOver(input, w, h, s, bloom, exposure, gammaStep)[start..start + w]
              == RowWrites(input, w, h, s, bloom, y, exposure, gammaStep)
  {
    var ws := WritesOver(input, w, h, s, bloom, exposure, gammaStep);
    var row := RowWrites(input, w, h, s, bloom, y, exposure, gammaStep);
    assert start + w <= |ws| by {
      MulMono(y + 1, h, w);
    }
    forall x | 0 <= x < w
      ensures ws[start + x] == row[x]
    {
      WritesOverAt(input, w, h, s, bloom, exposure, gammaStep, x, y);
    }
    SliceIs(ws, start, row);
  }

  /** The writes for the first n rows, row after row. */
  function RowsWrites(input: seq<real>, w: nat, h: nat, s: Settings, bloom: seq<real>, n: nat, exposure: real, gammaStep: real -> real): seq<Write>
    requires |input| == w * h * 3 && Runnable(s) && n <= h
    requires |bloom| == Downsample.ReducedSize(w, s.ratio) * Downsample.ReducedSize(h, s.ratio) * 3
  {
    if n == 0 then [] else RowsWrites(input, w, h, s, bloom, n - 1, exposure, gammaStep) + RowWrites(input, w, h, s, bloom, n - 1, exposure, gammaStep)
  }

  /** Writing the first n rows one after another makes the first n*w writes
      of the frame; with n = h, all of them. */
  lemma {:induction false} RowsWritesPrefix(input: seq<real>, w: nat, h: nat, s: Settings, bloom: seq<real>, n: nat, exposure: real, gammaStep: real -> real)
    requires |input| == w * h * 3 && Runnable(s) && n <= h
    requires |bloom| == Downsample.ReducedSize(w, s.ratio) * Downsample.ReducedSize(h, s.ratio) * 3
    ensures n * w <= w * h
    ensures RowsWrites(input, w, h, s, bloom, n, exposure, gammaStep) == WritesOver(input, w, h, s, bloom, exposure, gammaStep)[..n * w]
  {
    var ws := WritesOver(input, w, h, s, bloom, exposure, gammaStep);
    if n == 0 {
      assert ws[..0] == [];
    } else {
      RowsWritesPrefix(input, w, h, s, bloom, n - 1, exposure, gammaStep);
      NextRow(n - 1, w);
      var start: nat := (n - 1) * w;
      WritesByRow(input, w, h, s, bloom, n - 1, start, exposure, gammaStep);
      PrefixExtend(ws, start, w, RowsWrites(input, w, h, s, bloom, n - 1, exposure, gammaStep),
                   RowWrites(input, w, h, s, bloom, n - 1, exposure, gammaStep));
    }
  }

  /** Every channel of every written colour is at most 1. */
  lemma {:induction false} FrameWritesCapped(input: seq<real>, w: nat, h: nat, s: Settings, exposure: real, gammaStep: real -> real, k: nat, c: nat)
    requires |input| == w * h * 3 && Runnable(s) && k < w * h && c < 3
    ensures FrameWrites(input, w, h, s, exposure, gammaStep)[k].color.Channel(c) <= 1.0
  {
    var p := PointOf(w, h, k);
    var bloom := BloomImage(input, w, h, s);
    assert FrameWrites(input, w, h, s, exposure, gammaStep)[k].color == PixelColor(input, w, h, s, bloom, p.0, p.1, exposure, gammaStep);
  }

  /** Every value of the buffer is 0. */
  predicate Black(img: seq<real>)
  {
    forall j :: 0 <= j < |img| ==> img[j] == 0.0
  }

  /** When no value of the frame exceeds the threshold, nothing is selected,
      the bloom is black everywhere, and pixel (x, y) is composited from its
      original value alone (or from 0 in highlight-only mode). */
  lemma {:induction false} DarkFrame(input: seq<real>, w: nat, h: nat, s: Settings, exposure: real, gammaStep: real -> real, x: nat, y: nat)
    requires |input| == w * h * 3 && Runnable(s) && x < w && y < h
    requires forall j :: 0 <= j < |input| ==> input[j] <= s.threshold
    ensures forall c :: 0 <= c < 3 ==>
              ChannelAt(input, w, h, s, BloomImage(input, w, h, s), x, y, c, exposure, gammaStep)
                == CompositeChannel(0.0, input[Idx(w, h, x, y, c)], s.highlightOnly, exposure, gammaStep)
  {
    var rw, rh := Downsample.ReducedSize(w, s.ratio), Downsample.ReducedSize(h, s.ratio);
    var bloom := BloomImage(input, w, h, s);
    assert Black(bloom) by { BloomOfDarkFrame(input, w, h, s); }
    Interpolate.SampleInRange(x, w, s.ratio);
    Interpolate.SampleInRange(y, h, s.ratio);
    forall c | 0 <= c < 3
      ensures Interpolate.InterpolateAt(bloom, rw, rh, s.ratio, x, y, c) == 0.0
    {
      Interpolate.InterpolateWithin(bloom, rw, rh, s.ratio, x, y, c, 0.0, 0.0);
    }
  }

  /** When no value of the frame exceeds the threshold, the blurred reduced
      buffer is black. */
  lemma {:induction false} BloomOfDarkFrame(input: seq<real>, w: nat, h: nat, s: Settings)
    requires |input| == w * h * 3 && Runnable(s)
    requires forall j :: 0 <= j < |input| ==> input[j] <= s.threshold
    ensures Black(BloomImage(input, w, h, s))
  {
    var rw, rh := Downsample.ReducedSize(w, s.ratio), Downsample.ReducedSize(h, s.ratio);
    var lowres := Downsample.DownSampleImage(input, w, h, s.ratio);
    Downsample.DownSampleBelow(input, w, h, s.ratio, s.threshold);
    var selected := Select.SelectImage(lowres, rw, rh, s.threshold);
    Select.SelectNothing(lowres, rw, rh, s.threshold);
    BlackUniform(selected);
    Blur.HorizontalUniform(selected, rw, rh, s.kernel, s.radius);
    Blur.VerticalUniform(selected, rw, rh, s.kernel, s.radius);
  }

  /** A black buffer is uniform. */
  lemma {:induction false} BlackUniform(img: seq<real>)
    requires Black(img)
    ensures Blur.Uniform(img)
  {
    forall j | 3 <= j < |img|
      ensures img[j] == img[j % 3]
    {
      assert img[j] == 0.0 && img[j % 3] == 0.0;
    }
  }

  /** The radius-0 identity scenario: with ratio 1, the single-tap kernel [1.0]
      and every pixel's channel 0 above the threshold, downsampling, selection
      and both blur passes leave the frame as it was, so each channel of pixel
      (x, y) is its original value composited with itself. */
  lemma {:induction false} IdentityFrame(input: seq<real>, w: nat, h: nat, threshold: real, highlightOnly: bool, exposure: real, gammaStep: real -> real, x: nat, y: nat)
    requires |input| == w * h * 3 && x < w && y < h
    requires forall j :: 0 <= j < |input| && j % 3 == 0 ==> input[j] > threshold
    ensures Runnable(Settings(1, 0, [1.0], threshold, highlightOnly))
    ensures forall c :: 0 <= c < 3 ==>
              var s := Settings(1, 0, [1.0], threshold, highlightOnly);
              ChannelAt(input, w, h, s, BloomImage(input, w, h, s), x, y, c, exposure, gammaStep)
                == CompositeChannel(input[Idx(w, h, x, y, c)], input[Idx(w, h, x, y, c)], highlightOnly, exposure, gammaStep)
  {
    var s := Settings(1, 0, [1.0], threshold, highlightOnly);
    assert Blur.KernelShape([1.0], 0);
    assert BloomImage(input, w, h, s) == input by {
      Downsample.ReducedSizeOne(w);
      Downsample.ReducedSizeOne(h);
      Downsample.DownSampleIdentity(input, w, h);
      Select.SelectEverything(input, w, h, threshold);
      Blur.SeparableIdentity(input, w, h);
    }
    Downsample.ReducedSizeOne(w);
    Downsample.ReducedSizeOne(h);
    forall c | 0 <= c < 3
      ensures Interpolate.InterpolateAt(input, w, h, 1, x, y, c) == input[Idx(w, h, x, y, c)]
    {
      Interpolate.InterpolateRatioOne(input, w, h, x, y, c);
    }
  }
}
