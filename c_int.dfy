/** The C++ integer semantics the helpers in WaveEdit.hpp rely on.
    `int` is a 32-bit two's-complement integer, and the built-in `/` and `%`
    truncate toward zero (the quotient's fractional part is discarded), which
    differs from Dafny's Euclidean `/` and `%` whenever an operand is negative. */
module CInt {

  const INT32_MIN: int := -0x8000_0000
  const INT32_MAX: int := 0x7fff_ffff

  /** A C++ `int` on the platforms the program targets. */
  newtype int32 = x: int | -0x8000_0000 <= x < 0x8000_0000

  function Abs(x: int): (r: nat)
    ensures r == x || r == -x
  {
    if x < 0 then -x else x
  }

  /** The quotient of C++ `a / b`: the exact quotient with its fractional part
      discarded, so its magnitude is |a| / |b| and its sign is the product of
      the operands' signs. */
  function TruncDiv(a: int, b: int): (q: int)
    requires b != 0
    ensures Abs(q) == Abs(a) / Abs(b)
    ensures q < 0 ==> (a < 0) != (b < 0)
    ensures q > 0 ==> (a < 0) == (b < 0)
  {
    var d := Abs(b);
    assert d > 0;
    var n := Abs(a) / d;
    assert n >= 0;
    if (a < 0) == (b < 0) then n else -n
  }

  /** The remainder of C++ `a % b`. It is whatever makes `(a / b) * b + a % b`
      equal `a` under truncating division: smaller than |b| in magnitude and,
      when not zero, of the same sign as the dividend `a`. */
  function TruncRem(a: int, b: int): (r: int)
    requires b != 0
    ensures TruncDiv(a, b) * b + r == a
    ensures Abs(r) < Abs(b)
    ensures r != 0 ==> (r < 0 <==> a < 0)
  {
    TruncDecomposition(a, b);
    if a < 0 then -(Abs(a) % Abs(b)) else Abs(a) % Abs(b)
  }

  /** Splitting |a| by |b| and giving both parts the signs C++ prescribes
      reassembles `a`. */
  lemma TruncDecomposition(a: int, b: int)
    requires b != 0
    ensures TruncDiv(a, b) * b + (if a < 0 then -(Abs(a) % Abs(b)) else Abs(a) % Abs(b)) == a
  {
    var m := Abs(a) % Abs(b);
    var q := Abs(a) / Abs(b);
    assert Abs(a) == q * Abs(b) + m;
    if (a < 0) == (b < 0) {
      assert TruncDiv(a, b) == q;
      if a < 0 {
        assert q * b == -(q * Abs(b));
      }
    } else {
      assert TruncDiv(a, b) == -q;
      if a < 0 {
        assert -q * b == -(q * Abs(b));
      } else {
        assert -q * b == q * Abs(b);
      }
    }
  }

  /** C++ `a % b` on `int` has a defined value exactly when the divisor is
      non-zero and the quotient `a / b` is itself an `int`; the one pair whose
      quotient is not is INT_MIN / -1. Every dividend is fine for a positive
      divisor. */
  predicate RemDefined(a: int32, b: int32)
    ensures RemDefined(a, b) <==> b != 0 && INT32_MIN <= TruncDiv(a as int, b as int) <= INT32_MAX
    ensures b > 0 ==> RemDefined(a, b)
  {
    QuotientFits(a, b);
    b != 0 && !(a as int == INT32_MIN && b == -1)
  }

  /** The truncated quotient of two `int`s leaves the `int` range only for
      INT_MIN / -1. */
  lemma QuotientFits(a: int32, b: int32)
    ensures b != 0 ==>
      (INT32_MIN <= TruncDiv(a as int, b as int) <= INT32_MAX <==> !(a as int == INT32_MIN && b == -1))
  {
    if b != 0 {
      var x, y := a as int, b as int;
      if Abs(y) == 1 {
        assert Abs(x) / 1 == Abs(x);
      } else {
        HalvedAtLeast(Abs(x), Abs(y));
      }
    }
  }

  /** Dividing by two or more at least halves a natural number. */
  lemma HalvedAtLeast(m: nat, d: nat)
    requires d >= 2
    ensures 2 * (m / d) <= m
  {
    var q := m / d;
    assert m == q * d + m % d;
    assert q * d == q * 2 + q * (d - 2);
    assert q * (d - 2) >= 0;
  }

  /** C++ `a % b` on two `int` operands. */
  function Rem(a: int32, b: int32): (r: int32)
    requires RemDefined(a, b)
    ensures r as int == TruncRem(a as int, b as int)
    ensures Abs(r as int) < Abs(b as int)
  {
    TruncRem(a as int, b as int) as int32
  }

  /** A non-zero multiple of a positive modulus is at least the modulus in size. */
  lemma MultipleMagnitude(d: int, b: int)
    requires b > 0
    ensures d >= 1 ==> d * b >= b
    ensures d <= -1 ==> d * b <= -b
  {
    if d >= 1 {
      assert d * b == (d - 1) * b + b;
    } else if d <= -1 {
      assert d * b == -((-d - 1) * b) - b;
    }
  }

  /** Dafny's `%` is the Euclidean remainder: any decomposition
      a == q * b + r with 0 <= r < b pins r down as a % b. */
  lemma {:induction false} EuclideanUnique(a: int, b: int, q: int, r: int)
    requires b > 0
    requires a == q * b + r && 0 <= r < b
    ensures a % b == r && a / b == q
  {
    var q0, r0 := a / b, a % b;
    assert a == q0 * b + r0 && 0 <= r0 < b;
    assert (q - q0) * b == r0 - r;
    MultipleMagnitude(q - q0, b);
  }

  /** Adding a multiple of the modulus does not change a Euclidean remainder. */
  lemma {:induction false} ModAddMultiple(a: int, k: int, b: int)
    requires b > 0
    ensures (a + k * b) % b == a % b
  {
    var q, r := a / b, a % b;
    assert a + k * b == (q + k) * b + r;
    EuclideanUnique(a + k * b, b, q + k, r);
  }
}
