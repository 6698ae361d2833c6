/** Go's integer arithmetic where it differs from Dafny's: integer division
    and remainder truncate toward zero, and `int(x)` of a float truncates
    toward zero. Dafny's `/` and `%` are Euclidean, so they are spelled out. */
module GoNum {

  function Abs(a: int): nat
  {
    if a < 0 then -a else a
  }

  function AbsReal(x: real): real
  {
    if x < 0.0 then -x else x
  }

  /** Go's `a / b` on integers: the quotient rounded toward zero. */
  function Quot(a: int, b: int): (q: int)
    requires b != 0
    ensures 0 <= a && 0 < b ==> q == a / b
    ensures a < 0 && 0 < b ==> q == -((-a) / b)
  {
    var m := Abs(a) / Abs(b);
    if (a < 0) != (b < 0) then -m else m
  }

  /** Go's `a % b` on integers: the remainder takes the sign of `a`. */
  function Rem(a: int, b: int): (r: int)
    requires b != 0
    ensures Abs(r) < Abs(b)
    ensures 0 <= a ==> 0 <= r
    ensures a <= 0 ==> r <= 0
    ensures 0 <= a && 0 < b ==> r == a % b
  {
    var m := Abs(a) % Abs(b);
    if a < 0 then -m else m
  }

  /** Go's `int(x)` for a float x: the integer part, rounded toward zero. */
  function Trunc(x: real): int
  {
    if 0.0 <= x then x.Floor else -((-x).Floor)
  }

  /** Truncation drops the fractional part toward zero: the result has the
      sign of x and is less than one away from it. */
  lemma TruncSpec(x: real)
    ensures AbsReal(Trunc(x) as real) <= AbsReal(x) < AbsReal(Trunc(x) as real) + 1.0
    ensures 0.0 <= x ==> 0 <= Trunc(x)
    ensures x <= 0.0 ==> Trunc(x) <= 0
  {
  }

  /** On a non-negative value truncation is the floor: k <= x exactly when
      k <= Trunc(x), for every integer k. */
  lemma TruncNonnegIsFloor(x: real, k: int)
    requires 0.0 <= x
    ensures k as real <= x ==> k <= Trunc(x)
    ensures x < k as real ==> Trunc(x) < k
  {
  }

  /** `int(phi / d)` whole steps of a positive width d, for a non-negative
      phi: their total is at most phi and less than one step below it. */
  lemma TruncSteps(phi: real, d: real)
    requires 0.0 <= phi && 0.0 < d
    ensures Trunc(phi / d) as real * d <= phi < Trunc(phi / d) as real * d + d
  {
    assert phi / d * d == phi;
    TruncStepsOf(phi / d, d, phi);
  }

  /** `TruncSteps` with the quotient x = phi / d given. */
  lemma TruncStepsOf(x: real, d: real, phi: real)
    requires 0.0 <= x && 0.0 < d
    requires x * d == phi
    ensures Trunc(x) as real * d <= phi < Trunc(x) as real * d + d
  {
    var k := Trunc(x) as real;
    assert k <= x < k + 1.0;
    ScaleBetween(k, x, d);
    calc {
      phi;
    ==
      x * d;
    <
      k * d + d;
    }
  }

  /** Multiplying k <= x < k + 1 by a positive step. */
  lemma ScaleBetween(k: real, x: real, d: real)
    requires 0.0 < d
    requires k <= x < k + 1.0
    ensures k * d <= x * d < k * d + d
  {
    assert 0.0 < (k + 1.0 - x) * d == k * d + d - x * d;
    assert 0.0 <= (x - k) * d == x * d - k * d;
  }
}
