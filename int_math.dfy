/** The integer helpers of WaveEdit's math layer: a modulo that wraps
    negative values into range, a minimum, a maximum and a clamp, all on
    C++ `int`. */
module IntMath {
  import opened CInt

  /** `eucmodi(a, base)` is free of undefined behaviour: the C++ `%` is
      defined, and the correction `mod + base` (taken only when `mod` is
      negative) does not overflow. The overflow can only happen for a
      negative `base`: every dividend is fine for a positive one. */
  predicate EucmodiDefined(a: int32, base: int32)
    ensures EucmodiDefined(a, base) ==> RemDefined(a, base)
    ensures base > 0 ==> EucmodiDefined(a, base)
  {
    RemDefined(a, base)
    && (TruncRem(a as int, base as int) < 0 ==> INT32_MIN <= TruncRem(a as int, base as int) + base as int)
  }

  /** `eucmodi`: the remainder of `a` by `base`, moved into [0, base) when
      `base` is positive. The result always differs from `a` by a multiple
      of `base`; for a negative `base` it is not confined to [0, |base|). */
  function Eucmodi(a: int32, base: int32): (r: int32)
    requires EucmodiDefined(a, base)
    ensures (r as int - a as int) % Abs(base as int) == 0
    ensures base > 0 ==> 0 <= r < base
    ensures base < 0 ==> 2 * (base as int) < r as int < -(base as int)
  {
    var mod := Rem(a, base);
    CongruentRemainder(a as int, base as int);
    if mod < 0 then mod + base else mod
  }

  /** The C++ remainder differs from its dividend, and from itself shifted
      by one divisor, by a multiple of the divisor. */
  lemma CongruentRemainder(a: int, b: int)
    requires b != 0
    ensures (TruncRem(a, b) - a) % Abs(b) == 0
    ensures (TruncRem(a, b) + b - a) % Abs(b) == 0
  {
    var q := TruncDiv(a, b);
    var r := TruncRem(a, b);
    assert r - a == -q * b;
    var k, k1;
    if b > 0 {
      k, k1 := -q, -q + 1;
      assert r + b - a == k1 * b;
    } else {
      k, k1 := q, q - 1;
      assert r - a == k * -b;
      assert r + b - a == k1 * -b;
    }
    assert r - a == 0 + k * Abs(b) && r + b - a == 0 + k1 * Abs(b);
    ModAddMultiple(0, k, Abs(b));
    ModAddMultiple(0, k1, Abs(b));
  }

  /** For a positive base the correction of the C++ remainder yields exactly
      the Euclidean remainder, which is Dafny's own `%`. */
  lemma {:induction false} EucmodiIsEuclidean(a: int32, base: int32)
    requires base > 0
    ensures Eucmodi(a, base) as int == (a as int) % (base as int)
  {
    var x, b := a as int, base as int;
    var q, mod := TruncDiv(x, b), TruncRem(x, b);
    assert q * b + mod == x;
    if mod < 0 {
      assert x == (q - 1) * b + (mod + b);
      EuclideanUnique(x, b, q - 1, mod + b);
    } else {
      EuclideanUnique(x, b, q, mod);
    }
  }

  /** A value already in [0, base) is its own `eucmodi`. */
  lemma {:induction false} EucmodiInRange(a: int32, base: int32)
    requires 0 <= a < base
    ensures Eucmodi(a, base) == a
  {
    EucmodiIsEuclidean(a, base);
    EuclideanUnique(a as int, base as int, 0, a as int);
  }

  /** Wrap-around: shifting the argument by whole periods does not change
      `eucmodi`. */
  lemma {:induction false} EucmodiPeriodic(a: int32, k: int, base: int32)
    requires base > 0
    requires INT32_MIN <= a as int + k * base as int <= INT32_MAX
    ensures Eucmodi((a as int + k * base as int) as int32, base) == Eucmodi(a, base)
  {
    var shifted := (a as int + k * base as int) as int32;
    EucmodiIsEuclidean(shifted, base);
    EucmodiIsEuclidean(a, base);
    ModAddMultiple(a as int, k, base as int);
  }

  /** Applying `eucmodi` twice with the same positive base changes nothing. */
  lemma {:induction false} EucmodiIdempotent(a: int32, base: int32)
    requires base > 0
    ensures Eucmodi(Eucmodi(a, base), base) == Eucmodi(a, base)
  {
    EucmodiInRange(Eucmodi(a, base), base);
  }

  /** `mini`: the smaller of the two arguments. */
  function Mini(a: int32, b: int32): (r: int32)
    ensures r == a || r == b
    ensures r <= a && r <= b
  {
    if a < b then a else b
  }

  /** `maxi`: the larger of the two arguments. */
  function Maxi(a: int32, b: int32): (r: int32)
    ensures r == a || r == b
    ensures r >= a && r >= b
  {
    if a > b then a else b
  }

  /** Neither helper depends on the order of its arguments, and together
      they split a pair into its lower and upper element. */
  lemma MiniMaxiPair(a: int32, b: int32)
    ensures Mini(a, b) == Mini(b, a) && Maxi(a, b) == Maxi(b, a)
    ensures Mini(a, b) as int + Maxi(a, b) as int == a as int + b as int
  {
  }

  /** `clampi`: limits `x` to [min, max]. The upper bound is tested first,
      so when the bounds are crossed the result is one of them. */
  function Clampi(x: int32, min: int32, max: int32): (r: int32)
    ensures r == x || r == min || r == max
    ensures min <= max ==> min <= r <= max
    ensures min <= max && min <= x <= max ==> r == x
    ensures min > max ==> r != x
    ensures min > max ==> (r == max <==> x > max)
  {
    if x > max then max else if x < min then min else x
  }

  /** With ordered bounds, clamping is a max of the lower bound with a min
      against the upper bound. */
  lemma ClampiIsMaxOfMin(x: int32, min: int32, max: int32)
    requires min <= max
    ensures Clampi(x, min, max) == Maxi(min, Mini(x, max))
  {
  }

  /** Clamping an already clamped value changes nothing. */
  lemma ClampiIdempotent(x: int32, min: int32, max: int32)
    requires min <= max
    ensures Clampi(Clampi(x, min, max), min, max) == Clampi(x, min, max)
  {
  }

  /** Clamping preserves the order of its inputs. */
  lemma ClampiMonotone(x: int32, y: int32, min: int32, max: int32)
    requires min <= max && x <= y
    ensures Clampi(x, min, max) <= Clampi(y, min, max)
  {
  }
}
