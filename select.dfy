/** Specification of the bright-pixel selection: a reduced pixel is kept,
    all three channels unchanged, when its brightness is strictly above the
    threshold; otherwise it is black. The brightness applies the three
    luma weights of Rec. 709 to channel 0 of the pixel, three times over,
    not to its red, green and blue channels, so it is channel 0 scaled by
    the sum of the weights, which is exactly 1. */
module Select {
  import opened Layout

  /** The luma weights the brightness is computed with. */
  const LumaRed: real := 0.2126
  const LumaGreen: real := 0.7152
  const LumaBlue: real := 0.0722

  /** Brightness of reduced pixel (x, y), as computed: each weight is applied
      to channel 0 of the pixel. */
  function Brightness(lowres: seq<real>, w: nat, h: nat, x: nat, y: nat): real
    requires |lowres| == w * h * 3 && x < w && y < h
  {
    var p := Idx(w, h, x, y, 0);
    lowres[p] * LumaRed + lowres[p] * LumaGreen + lowres[p] * LumaBlue
  }

  /** The brightness is channel 0 of the pixel: the weights sum to 1, and the
      other two channels play no part in the selection. */
  lemma {:induction false} BrightnessIsChannelZero(lowres: seq<real>, w: nat, h: nat, x: nat, y: nat)
    requires |lowres| == w * h * 3 && x < w && y < h
    ensures Brightness(lowres, w, h, x, y) == lowres[Idx(w, h, x, y, 0)]
  {
    assert LumaRed + LumaGreen + LumaBlue == 1.0;
  }

  /** Channel c of pixel (x, y) after selection. */
  function SelectAt(lowres: seq<real>, w: nat, h: nat, threshold: real, x: nat, y: nat, c: nat): (v: real)
    requires |lowres| == w * h * 3 && x < w && y < h && c < 3
    ensures lowres[Idx(w, h, x, y, 0)] > threshold ==> v == lowres[Idx(w, h, x, y, c)]
    ensures lowres[Idx(w, h, x, y, 0)] <= threshold ==> v == 0.0
  {
    BrightnessIsChannelZero(lowres, w, h, x, y);
    if Brightness(lowres, w, h, x, y) > threshold then lowres[Idx(w, h, x, y, c)] else 0.0
  }

  /** The whole selected buffer. */
  function SelectImage(lowres: seq<real>, w: nat, h: nat, threshold: real): (img: seq<real>)
    requires |lowres| == w * h * 3
    ensures |img| == |lowres|
  {
    seq(w * h * 3, j requires 0 <= j < w * h * 3 =>
      var p := PixelOf(w, h, j); SelectAt(lowres, w, h, threshold, p.0, p.1, j % 3))
  }

  /** Channel c of pixel (x, y) of the selected buffer, read at its position. */
  lemma {:induction false} SelectImageAt(lowres: seq<real>, w: nat, h: nat, threshold: real, x: nat, y: nat, c: nat)
    requires |lowres| == w * h * 3 && x < w && y < h && c < 3
    ensures SelectImage(lowres, w, h, threshold)[Idx(w, h, x, y, c)] == SelectAt(lowres, w, h, threshold, x, y, c)
  {
    PixelOfIdx(w, h, x, y, c);
    IdxDecode(w, h, x, y, c);
  }

  /** The three channels of pixel (x, y) of the selected buffer, read from
      its first position p on. */
  lemma {:induction false} SelectPixelAt(lowres: seq<real>, w: nat, h: nat, threshold: real, x: nat, y: nat, p: nat)
    requires |lowres| == w * h * 3 && x < w && y < h && p == (y * w + x) * 3
    ensures p + 3 <= |lowres|
    ensures forall j :: p <= j < p + 3 ==> SelectImage(lowres, w, h, threshold)[j] == SelectAt(lowres, w, h, threshold, x, y, j - p)
  {
    PixelInRange(w, h, x, y);
    forall j | p <= j < p + 3
      ensures SelectImage(lowres, w, h, threshold)[j] == SelectAt(lowres, w, h, threshold, x, y, j - p)
    {
      SelectImageAt(lowres, w, h, threshold, x, y, j - p);
      assert Idx(w, h, x, y, j - p) == j;
    }
  }

  /** Copy or zero: a pixel whose channel 0 is strictly above the threshold is
      copied channel for channel; any other pixel is black in every channel. */
  lemma {:induction false} SelectCopyOrZero(lowres: seq<real>, w: nat, h: nat, threshold: real, x: nat, y: nat, c: nat)
    requires |lowres| == w * h * 3 && x < w && y < h && c < 3
    ensures lowres[Idx(w, h, x, y, 0)] > threshold ==>
              SelectImage(lowres, w, h, threshold)[Idx(w, h, x, y, c)] == lowres[Idx(w, h, x, y, c)]
    ensures lowres[Idx(w, h, x, y, 0)] <= threshold ==>
              SelectImage(lowres, w, h, threshold)[Idx(w, h, x, y, c)] == 0.0
  {
    SelectImageAt(lowres, w, h, threshold, x, y, c);
    BrightnessIsChannelZero(lowres, w, h, x, y);
  }

  /** A threshold at or above channel 0 of every pixel selects nothing. */
  lemma {:induction false} SelectNothing(lowres: seq<real>, w: nat, h: nat, threshold: real)
    requires |lowres| == w * h * 3
    requires forall j :: 0 <= j < |lowres| && j % 3 == 0 ==> lowres[j] <= threshold
    ensures forall j :: 0 <= j < |lowres| ==> SelectImage(lowres, w, h, threshold)[j] == 0.0
  {
    var img := SelectImage(lowres, w, h, threshold);
    forall j | 0 <= j < |lowres|
      ensures img[j] == 0.0
    {
      var p := PixelOf(w, h, j);
      IdxDecode(w, h, p.0, p.1, 0);
    }
  }

  /** A threshold below channel 0 of every pixel selects the whole buffer. */
  lemma {:induction false} SelectEverything(lowres: seq<real>, w: nat, h: nat, threshold: real)
    requires |lowres| == w * h * 3
    requires forall j :: 0 <= j < |lowres| && j % 3 == 0 ==> lowres[j] > threshold
    ensures SelectImage(lowres, w, h, threshold) == lowres
  {
    var img := SelectImage(lowres, w, h, threshold);
    forall j | 0 <= j < |lowres|
      ensures img[j] == lowres[j]
    {
      var p := PixelOf(w, h, j);
      BrightnessIsChannelZero(lowres, w, h, p.0, p.1);
      IdxDecode(w, h, p.0, p.1, 0);
    }
  }
}
