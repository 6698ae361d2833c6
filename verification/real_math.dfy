/** The transcendental functions the pipeline calls, as uninterpreted
    function values, together with the laws each proof is allowed to use.
    Floating-point rounding is not modelled: values are mathematical reals. */
module RealMath {

  /** The float64 value of Go's `math.Pi`, written to 16 significant digits. */
  const Pi: real := 3.141592653589793

  /** The library functions, supplied by the caller. */
  datatype Fns = Fns(
    sqrt: real -> real,
    log: real -> real,
    exp: real -> real,
    sin: real -> real,
    cos: real -> real,
    asin: real -> real,
    atan2: (real, real) -> real)

  /** `math.Pow(x, k)` for a whole exponent k: the k-fold product, so that
      `Pow(x, 0) == 1` for every x, as in Go. */
  function Pow(x: real, k: nat): real
  {
    if k == 0 then 1.0 else x * Pow(x, k - 1)
  }

  /** The principal square root on non-negative arguments. */
  ghost predicate SqrtLaw(sqrt: real -> real)
  {
    forall x: real {:trigger sqrt(x)} :: 0.0 <= x ==> 0.0 <= sqrt(x) && sqrt(x) * sqrt(x) == x
  }

  /** The natural logarithm is strictly increasing on the positive reals and
      turns a square into a doubling. */
  ghost predicate LogLaw(log: real -> real)
  {
    && (forall x: real, y: real {:trigger log(x), log(y)} :: 0.0 < x < y ==> log(x) < log(y))
    && (forall x: real {:trigger Sq(x)} :: 0.0 < x ==> log(Sq(x)) == 2.0 * log(x))
  }

  /** The exponential is strictly increasing and undoes the logarithm. */
  ghost predicate ExpLaw(exp: real -> real, log: real -> real)
  {
    && (forall x: real, y: real {:trigger exp(x), exp(y)} :: x < y ==> exp(x) < exp(y))
    && (forall x: real {:trigger log(x)} :: 0.0 < x ==> exp(log(x)) == x)
  }

  /** Ranges of the inverse trigonometric functions: `atan2` lies in
      (-Pi, Pi] and `asin` maps [0, 1] into [0, Pi/2]. */
  ghost predicate AngleLaw(asin: real -> real, atan2: (real, real) -> real)
  {
    && (forall y: real, x: real {:trigger atan2(y, x)} :: -Pi < atan2(y, x) <= Pi)
    && (forall v: real {:trigger asin(v)} :: 0.0 <= v <= 1.0 ==> 0.0 <= asin(v) <= Pi / 2.0)
  }

  /** Below 1 the square root stays below 1. */
  lemma SqrtAtMostOne(sqrt: real -> real, x: real)
    requires SqrtLaw(sqrt)
    requires 0.0 <= x <= 1.0
    ensures 0.0 <= sqrt(x) <= 1.0
  {
    var s := sqrt(x);
    assert s * s == x;
  }

  /** The square root is the unique non-negative root: it is zero exactly at
      zero and positive elsewhere. */
  lemma SqrtPositive(sqrt: real -> real, x: real)
    requires SqrtLaw(sqrt)
    requires 0.0 < x
    ensures 0.0 < sqrt(x)
  {
  }

  /** x * x, named so that facts about squares chain as plain terms. */
  function Sq(x: real): real
  {
    x * x
  }

  lemma SqNonNegative(x: real)
    ensures 0.0 <= Sq(x)
  {
    if x < 0.0 {
      PositiveProduct(-x, -x);
    }
  }

  /** The square of a non-zero value is positive. */
  lemma SqPositive(x: real)
    requires x != 0.0
    ensures 0.0 < Sq(x)
  {
    calc {
      Sq(x);
    ==
      x * x;
    > { if x < 0.0 { PositiveProduct(-x, -x); assert (-x) * (-x) == x * x; } else { PositiveProduct(x, x); } }
      0.0;
    }
  }

  /** Products of positive factors are positive ... */
  lemma PositiveProduct(x: real, y: real)
    requires 0.0 < x && 0.0 < y
    ensures 0.0 < x * y
  {
  }

  /** ... and of non-negative factors non-negative. */
  lemma NonNegativeProduct(x: real, y: real)
    requires 0.0 <= x && 0.0 <= y
    ensures 0.0 <= x * y
  {
  }
}
