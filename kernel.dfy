/** Specification of the blur kernel: 2r+1 samples of a Gaussian with
    sigma = r/3, exp(-i²/(2·sigma²)) for offsets i in [-r, r], each divided by
    the sum of all samples. The exponential is a parameter `exp` (assumed
    positive); floating-point evaluation is not modelled. */
module Kernel {

  /** The exponential function the kernel is computed with is positive. */
  ghost predicate PositiveExp(exp: real -> real)
  {
    forall t :: exp(t) > 0.0
  }

  /** Standard deviation of the kernel: a third of its radius. */
  function Sigma(r: nat): (s: real)
    ensures s >= 0.0 && (s == 0.0 <==> r == 0)
  {
    r as real / 3.0
  }

  /** The factor 1/(2·sigma²) of the exponent. At radius 0 sigma is 0 and the
      factor is taken to be 0, so the single tap gets exp(0); see
      FactorAsWritten for what the unguarded quotient does. */
  function Factor(r: nat): (f: real)
    ensures f >= 0.0
    ensures r > 0 ==> f > 0.0 && f * (2.0 * Sigma(r) * Sigma(r)) == 1.0
  {
    if r == 0 then 0.0
    else
      SquarePositive(Sigma(r));
      1.0 / (2.0 * Sigma(r) * Sigma(r))
  }

  /** The exponent -(i*i) * factor of the tap at offset i. */
  function Exponent(r: nat, i: int): real
  {
    (-(i * i)) as real * Factor(r)
  }

  /** Unnormalised weight of the tap at offset i: exp of its exponent. */
  function Weight(exp: real -> real, r: nat, i: int): (w: real)
    ensures PositiveExp(exp) ==> w > 0.0
  {
    exp(Exponent(r, i))
  }

  /** Sum of the unnormalised weights of the first n taps (tap t has offset t - r). */
  function WeightSum(exp: real -> real, r: nat, n: nat): (s: real)
    ensures PositiveExp(exp) && n > 0 ==> s > 0.0
  {
    if n == 0 then 0.0 else WeightSum(exp, r, n - 1) + Weight(exp, r, n - 1 - r)
  }

  /** The normalised kernel of radius r. */
  function GaussianKernel(exp: real -> real, r: nat): (k: seq<real>)
    requires PositiveExp(exp)
    ensures |k| == 2 * r + 1
  {
    var sum := WeightSum(exp, r, 2 * r + 1);
    seq(2 * r + 1, t requires 0 <= t < 2 * r + 1 => Weight(exp, r, t - r) / sum)
  }

  /** Sum of a sequence of weights. */
  function Total(s: seq<real>): real
  {
    if s == [] then 0.0 else Total(s[..|s| - 1]) + s[|s| - 1]
  }

  /** Every kernel weight is strictly positive. */
  lemma {:induction false} KernelPositive(exp: real -> real, r: nat)
    requires PositiveExp(exp)
    ensures forall t :: 0 <= t < 2 * r + 1 ==> GaussianKernel(exp, r)[t] > 0.0
  {
    var k, sum := GaussianKernel(exp, r), WeightSum(exp, r, 2 * r + 1);
    forall t | 0 <= t < 2 * r + 1
      ensures k[t] > 0.0
    {
      PositiveQuotient(Weight(exp, r, t - r), sum);
    }
  }

  /** A quotient of positive reals is positive. */
  lemma {:induction false} PositiveQuotient(a: real, b: real)
    requires a > 0.0 && b > 0.0
    ensures a / b > 0.0
  {
  }

  /** The kernel is symmetric about its centre tap. */
  lemma {:induction false} KernelSymmetric(exp: real -> real, r: nat)
    requires PositiveExp(exp)
    ensures forall t :: 0 <= t <= 2 * r ==> GaussianKernel(exp, r)[t] == GaussianKernel(exp, r)[2 * r - t]
  {
    var k := GaussianKernel(exp, r);
    forall t | 0 <= t <= 2 * r
      ensures k[t] == k[2 * r - t]
    {
      WeightEven(exp, r, t - r);
      assert (2 * r - t) - r == -(t - r);
    }
  }

  /** The weight depends on the offset only through its square. */
  lemma {:induction false} WeightEven(exp: real -> real, r: nat, i: int)
    ensures Weight(exp, r, i) == Weight(exp, r, -i)
  {
    ExponentEven(r, i);
  }

  /** The exponent depends on the offset only through its square. */
  lemma {:induction false} ExponentEven(r: nat, i: int)
    ensures Exponent(r, i) == Exponent(r, -i)
  {
    var f := Factor(r);
    assert (-i) * (-i) == i * i;
  }

  /** The first n normalised weights add up to the first n raw weights over the total. */
  lemma {:induction false} KernelPrefixTotal(exp: real -> real, r: nat, n: nat)
    requires PositiveExp(exp) && n <= 2 * r + 1
    ensures Total(GaussianKernel(exp, r)[..n]) == WeightSum(exp, r, n) / WeightSum(exp, r, 2 * r + 1)
  {
    var k, sum := GaussianKernel(exp, r), WeightSum(exp, r, 2 * r + 1);
    if n == 0 {
      assert k[..0] == [];
    } else {
      KernelPrefixTotal(exp, r, n - 1);
      assert k[..n][..n - 1] == k[..n - 1];
      AddQuotients(WeightSum(exp, r, n - 1), Weight(exp, r, n - 1 - r), sum);
    }
  }

  /** a/c + b/c == (a + b)/c. */
  lemma {:induction false} AddQuotients(a: real, b: real, c: real)
    requires c > 0.0
    ensures a / c + b / c == (a + b) / c
  {
  }

  /** The full kernel sums to exactly 1 (over the reals). */
  lemma {:induction false} KernelSumsToOne(exp: real -> real, r: nat)
    requires PositiveExp(exp)
    ensures Total(GaussianKernel(exp, r)) == 1.0
  {
    var k, sum := GaussianKernel(exp, r), WeightSum(exp, r, 2 * r + 1);
    assert Total(k) == sum / sum by {
      KernelPrefixTotal(exp, r, 2 * r + 1);
      assert k[..2 * r + 1] == k;
    }
    SelfQuotient(sum);
  }

  /** A positive real divided by itself is 1. */
  lemma {:induction false} SelfQuotient(x: real)
    requires x > 0.0
    ensures x / x == 1.0
  {
  }

  /** The kernel of radius 0 is the single weight 1.0. */
  lemma {:induction false} KernelRadiusZero(exp: real -> real)
    requires PositiveExp(exp)
    ensures GaussianKernel(exp, 0) == [1.0]
  {
    var k, w := GaussianKernel(exp, 0), Weight(exp, 0, 0);
    assert w > 0.0;
    assert WeightSum(exp, 0, 1) == w;
    assert k[0] == w / w == 1.0;
  }

  // ----- the unguarded quotient, as written -----

  /** The IEEE float values the unguarded computation can take. */
  datatype Float = Num(value: real) | PosInf | NegInf | NaN

  /** The factor as the code writes it: 1 / (2·sigma·sigma) in float
      arithmetic, which is +Infinity when sigma is 0. */
  function FactorAsWritten(r: nat): Float
  {
    var d := 2.0 * Sigma(r) * Sigma(r);
    if d == 0.0 then PosInf else Num(1.0 / d)
  }

  /** The exponent -(i*i) * factor in float arithmetic: 0 * Infinity is NaN. */
  function ExponentAsWritten(r: nat, i: int): Float
  {
    var m := (-(i * i)) as real;
    match FactorAsWritten(r)
    case Num(f) => Num(m * f)
    case PosInf => if m == 0.0 then NaN else NegInf
    case NegInf => if m == 0.0 then NaN else PosInf
    case NaN => NaN
  }

  /** The weight exp(exponent): exp(-Infinity) is 0 and exp(NaN) is NaN. */
  function WeightAsWritten(exp: real -> real, r: nat, i: int): Float
  {
    match ExponentAsWritten(r, i)
    case Num(e) => Num(exp(e))
    case NegInf => Num(0.0)
    case PosInf => PosInf
    case NaN => NaN
  }

  /** At radius 0 the unguarded code gives its only tap the weight NaN, so
      the whole kernel, and every blurred value, is NaN. */
  lemma {:induction false} RadiusZeroWeightIsNaN(exp: real -> real)
    ensures WeightAsWritten(exp, 0, 0) == NaN
  {
  }

  /** For every positive radius the unguarded code computes the same weights
      as the guarded model. */
  lemma {:induction false} WeightAsWrittenAgrees(exp: real -> real, r: nat, i: int)
    requires r > 0
    ensures WeightAsWritten(exp, r, i) == Num(Weight(exp, r, i))
  {
    FactorAsWrittenAgrees(r);
    assert ExponentAsWritten(r, i) == Num(Exponent(r, i));
  }

  /** For every positive radius the unguarded factor is the guarded one. */
  lemma {:induction false} FactorAsWrittenAgrees(r: nat)
    requires r > 0
    ensures FactorAsWritten(r) == Num(Factor(r))
  {
    SquarePositive(Sigma(r));
  }

  /** Twice the square of a positive real is positive. */
  lemma {:induction false} SquarePositive(s: real)
    requires s > 0.0
    ensures 2.0 * s * s > 0.0
  {
  }
}
