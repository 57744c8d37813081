/** The configuration rules of the filter: a downsample ratio below 1 is
    raised to 1, and a change of ratio rescales the blur radius so that the
    blur keeps its extent in full-resolution pixels. */
module Config {

  /** The ratio actually stored for a requested one. */
  function ClampRatio(ratio: int): (r: int)
    ensures r >= 1
    ensures ratio >= 1 ==> r == ratio
    ensures ratio < 1 ==> r == 1
  {
    if ratio < 1 then 1 else ratio
  }

  /** Math.round of radius * oldRatio / newRatio: the floor of the quotient
      plus one half, so halves round up. The product is taken on integers
      before the division, as in the source. */
  function RescaledRadius(radius: nat, oldRatio: int, newRatio: int): (r: int)
    requires newRatio >= 1
    ensures (r as real) - 0.5 <= ((radius * oldRatio) as real) / (newRatio as real) < (r as real) + 0.5
  {
    (((radius * oldRatio) as real) / (newRatio as real) + 0.5).Floor
  }

  /** Setting the ratio it already has leaves the radius unchanged. */
  lemma {:induction false} RescaleSameRatio(radius: nat, ratio: int)
    requires ratio >= 1
    ensures RescaledRadius(radius, ratio, ratio) == radius
  {
    Cancel(radius, ratio);
  }

  /** (radius * ratio) / ratio == radius over the reals. */
  lemma {:induction false} Cancel(radius: nat, ratio: int)
    requires ratio >= 1
    ensures ((radius * ratio) as real) / (ratio as real) == radius as real
  {
    assert ((radius * ratio) as real) == (radius as real) * (ratio as real);
  }

  /** From a non-negative ratio the rescaled radius is never negative, so the
      kernel it is given to can always be allocated. */
  lemma {:induction false} RescaleNonNegative(radius: nat, oldRatio: int, newRatio: int)
    requires newRatio >= 1 && oldRatio >= 0
    ensures RescaledRadius(radius, oldRatio, newRatio) >= 0
  {
    var q := ((radius * oldRatio) as real) / (newRatio as real);
    assert radius * oldRatio >= 0;
    assert q * (newRatio as real) == (radius * oldRatio) as real;
    assert q >= 0.0;
  }

  /** Halving the ratio doubles the radius; doubling it halves the radius,
      rounding halves up: radius 4 at ratio 4 becomes 8 at ratio 2 and 2 at
      ratio 8, and radius 3 at ratio 2 becomes 2 at ratio 4. */
  lemma {:induction false} RescaleExamples()
    ensures RescaledRadius(4, 4, 2) == 8
    ensures RescaledRadius(4, 4, 8) == 2
    ensures RescaledRadius(3, 2, 4) == 2
  {
    assert (16 as real) / (2 as real) + 0.5 == 8.5;
    assert (16 as real) / (8 as real) + 0.5 == 2.5;
    assert (6 as real) / (4 as real) + 0.5 == 2.0;
  }
}
