/** Scalar arithmetic the shading code takes from the C math library, modelled over
    `real`. The library functions are not defined here: a `Libm` value carries them
    as function values chosen by the caller, and `Libm.Valid` states the few range
    facts that the proofs rely on. Floating-point rounding, NaN and infinities are
    not represented. */
module Numerics {

  /** M_PI, and the value glm::pi<float>() stands for. */
  const Pi: real := 3.14159265358979323846

  /** The math library the shaders call. `div` is floating-point division by a value
      that may be zero; a division whose divisor the source floors away from zero
      uses Dafny's `/` instead. */
  datatype Libm = Libm(
    sin: real -> real,
    cos: real -> real,
    asin: real -> real,
    acos: real -> real,
    sqrt: real -> real,
    exp: real -> real,
    pow: (real, real) -> real,
    atan2: (real, real) -> real,
    div: (real, real) -> real)
  {
    /** Range facts of the real functions the library approximates. */
    ghost predicate Valid() {
      && (forall x :: sqrt(x) >= 0.0)
      && (forall x :: x > 0.0 ==> sqrt(x) > 0.0)
      && (forall x :: exp(x) > 0.0)
      && (forall x :: x <= 0.0 ==> exp(x) <= 1.0)
      && (forall x :: -1.0 <= cos(x) <= 1.0)
      && (forall x, y :: x >= 0.0 ==> pow(x, y) >= 0.0)
      && (forall y, x :: -Pi <= atan2(y, x) <= Pi)
      && (forall x :: -1.0 <= x <= 1.0 ==> 0.0 <= acos(x) <= Pi)
      && (forall x, y :: y != 0.0 ==> div(x, y) == x / y)
    }
  }

  /** std::max: the first argument unless it is smaller than the second. */
  function Max(a: real, b: real): real {
    if a < b then b else a
  }

  /** std::min: the first argument unless the second is smaller. */
  function Min(a: real, b: real): real {
    if b < a then b else a
  }

  /** fabs */
  function Abs(x: real): real {
    if x < 0.0 then -x else x
  }

  // Facts about products of reals, stated once so that proofs elsewhere need not
  // search for them.

  lemma MulNonNegative(a: real, b: real)
    requires a >= 0.0 && b >= 0.0
    ensures a * b >= 0.0
  {
  }

  lemma MulPositive(a: real, b: real)
    requires a > 0.0 && b > 0.0
    ensures a * b > 0.0
  {
  }

  lemma MulUnit(a: real, b: real)
    requires 0.0 <= a <= 1.0 && 0.0 <= b <= 1.0
    ensures 0.0 <= a * b <= 1.0
  {
    MulNonNegative(a, b);
    MulNonNegative(1.0 - a, b);
  }

  lemma SquareUnit(c: real)
    requires -1.0 <= c <= 1.0
    ensures 0.0 <= c * c <= 1.0
  {
    if c >= 0.0 {
      MulUnit(c, c);
    } else {
      MulUnit(-c, -c);
    }
  }

  lemma SquareNonNegative(c: real)
    ensures c * c >= 0.0
  {
    if c >= 0.0 {
      MulNonNegative(c, c);
    } else {
      MulNonNegative(-c, -c);
    }
  }

  lemma DivNonNegative(a: real, b: real)
    requires a >= 0.0 && b > 0.0
    ensures a / b >= 0.0
  {
  }
}
