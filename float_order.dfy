/** The float helpers of WaveEdit's math layer that only compare and
    select: `clampf` and `chopf`. They do no arithmetic, so their results do
    not depend on rounding and are modelled over the reals; NaN, signed
    zero and the two infinities are outside the model. */
module FloatOrder {
  import opened CInt
  import IntMath

  function AbsReal(x: real): (r: real)
    ensures r >= 0.0 && (r == x || r == -x)
  {
    if x < 0.0 then -x else x
  }

  /** `clampf`: limits `x` to [min, max], testing the upper bound first. */
  function Clampf(x: real, min: real, max: real): (r: real)
    ensures r == x || r == min || r == max
    ensures min <= max ==> min <= r <= max
    ensures min <= max && min <= x <= max ==> r == x
    ensures min > max ==> r != x
    ensures min > max ==> (r == max <==> x > max)
  {
    if x > max then max else if x < min then min else x
  }

  /** Clamping an already clamped value changes nothing. */
  lemma ClampfIdempotent(x: real, min: real, max: real)
    requires min <= max
    ensures Clampf(Clampf(x, min, max), min, max) == Clampf(x, min, max)
  {
  }

  /** Clamping preserves the order of its inputs. */
  lemma ClampfMonotone(x: real, y: real, min: real, max: real)
    requires min <= max && x <= y
    ensures Clampf(x, min, max) <= Clampf(y, min, max)
  {
  }

  /** On whole-number arguments `clampf` and `clampi` agree, whatever the
      order of the bounds. */
  lemma ClampfAgreesWithClampi(x: int32, min: int32, max: int32)
    ensures Clampf(x as real, min as real, max as real) == IntMath.Clampi(x, min, max) as real
  {
  }

  /** `chopf`: values of magnitude below `eps` become 0; every other value
      passes through unchanged. */
  function Chopf(x: real, eps: real): (r: real)
    ensures AbsReal(x) < eps ==> r == 0.0
    ensures AbsReal(x) >= eps ==> r == x
  {
    if -eps < x && x < eps then 0.0 else x
  }

  /** What survives `chopf` is either 0 or at least `eps` in magnitude, so
      chopping twice changes nothing. */
  lemma ChopfOutput(x: real, eps: real)
    ensures Chopf(x, eps) == 0.0 || AbsReal(Chopf(x, eps)) >= eps
    ensures Chopf(Chopf(x, eps), eps) == Chopf(x, eps)
  {
  }

  /** With a positive threshold, zero stays zero; with a threshold that is
      not positive, nothing is chopped. */
  lemma ChopfThreshold(x: real, eps: real)
    ensures eps > 0.0 ==> Chopf(0.0, eps) == 0.0
    ensures eps <= 0.0 ==> Chopf(x, eps) == x
  {
  }
}
