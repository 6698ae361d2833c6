/** Plane geometry of one ring of lines of sight: a line leaves the ring's
    centre in the unit direction u, and a particle sphere cut by the ring's
    plane is a circle with centre c and squared radius rad2. With
    dist2 = |c|^2 and b = c . u (the value `insertToRing` passes as `b`), the
    point t * u of the line lies on the circle exactly when
    t^2 - 2 t b + dist2 == rad2. */
module RingGeometry {
  import opened RealMath
  import opened GoNum

  /** The point at distance t along the line lies on the circle. */
  predicate OnCircle(t: real, dist2: real, rad2: real, b: real)
  {
    t * t - 2.0 * t * b + dist2 == rad2
  }

  /** `halfAngularWidth`: half the angle a circle not containing the centre
      subtends, seen from the centre. */
  function HalfAngularWidth(fns: Fns, dist2: real, r2: real): real
    requires dist2 != 0.0
  {
    fns.asin(fns.sqrt(r2 / dist2))
  }

  /** For a circle that does not contain the centre but is cut by the plane,
      the half width lies in [0, Pi/2]. */
  lemma HalfAngularWidthRange(fns: Fns, dist2: real, r2: real)
    requires SqrtLaw(fns.sqrt) && AngleLaw(fns.asin, fns.atan2)
    requires 0.0 < r2 <= dist2
    ensures 0.0 <= HalfAngularWidth(fns, dist2, r2) <= Pi / 2.0
  {
    assert 0.0 < r2 / dist2 <= 1.0;
    SqrtAtMostOne(fns.sqrt, r2 / dist2);
  }

  /** `twoValIntrDist` as written: the tangent length sqrt(dist2 - rad2)
      plus and minus sqrt(rad2 - b^2). */
  function TwoValIntrDist(sqrt: real -> real, dist2: real, rad2: real, b: real): (real, real)
  {
    var midDist := sqrt(dist2 - rad2);
    var diff := sqrt(rad2 - b * b);
    (midDist - diff, midDist + diff)
  }

  /** The promise of `twoValIntrDist` as written: when both radicands are
      non-negative the two distances are ordered and centred on the tangent
      length. */
  lemma TwoValIntrDistSymmetric(sqrt: real -> real, dist2: real, rad2: real, b: real)
    requires SqrtLaw(sqrt)
    requires rad2 <= dist2
    requires b * b <= rad2
    ensures TwoValIntrDist(sqrt, dist2, rad2, b).0 <= TwoValIntrDist(sqrt, dist2, rad2, b).1
    ensures TwoValIntrDist(sqrt, dist2, rad2, b).0 + TwoValIntrDist(sqrt, dist2, rad2, b).1 == 2.0 * sqrt(dist2 - rad2)
  {
    assert 0.0 <= sqrt(rad2 - b * b);
  }

  /** Circle with centre at distance 2 and radius sqrt 3, crossed by a line
      with b = 1, which touches it at t = 1: `twoValIntrDist` answers
      1 - sqrt 2 and 1 + sqrt 2, and the far value is not on the circle. */
  lemma TwoValIntrDistMissesCircle(sqrt: real -> real)
    requires SqrtLaw(sqrt)
    ensures OnCircle(1.0, 4.0, 3.0, 1.0)
    ensures !OnCircle(TwoValIntrDist(sqrt, 4.0, 3.0, 1.0).1, 4.0, 3.0, 1.0)
  {
    SqrtOfOne(sqrt);
    var s := sqrt(2.0);
    assert s * s == 2.0;
    var hi := TwoValIntrDist(sqrt, 4.0, 3.0, 1.0).1;
    assert hi == 1.0 + s;
    assert hi * hi - 2.0 * hi * 1.0 + 4.0 == s * s + 3.0;
  }

  /** Corrected chord distances: the two roots b -/+ sqrt(rad2 - dist2 + b^2)
      of the line-circle equation. */
  function ChordDists(sqrt: real -> real, dist2: real, rad2: real, b: real): (real, real)
  {
    var half := sqrt(rad2 - dist2 + b * b);
    (b - half, b + half)
  }

  /** When the line meets the circle, the corrected distances are ordered
      and a point of the line is on the circle exactly when it is at one of
      them. */
  lemma ChordDistsAreIntersections(sqrt: real -> real, dist2: real, rad2: real, b: real, t: real)
    requires SqrtLaw(sqrt)
    requires 0.0 <= rad2 - dist2 + b * b
    ensures ChordDists(sqrt, dist2, rad2, b).0 <= ChordDists(sqrt, dist2, rad2, b).1
    ensures OnCircle(t, dist2, rad2, b) <==>
      t == ChordDists(sqrt, dist2, rad2, b).0 || t == ChordDists(sqrt, dist2, rad2, b).1
  {
    var h := sqrt(rad2 - dist2 + b * b);
    assert h * h == rad2 - dist2 + b * b;
    assert t * t - 2.0 * t * b + dist2 - rad2 == (t - b - h) * (t - b + h);
    ZeroProduct(t - b - h, t - b + h);
  }

  /** A product is zero exactly when a factor is. */
  lemma ZeroProduct(x: real, y: real)
    ensures x * y == 0.0 <==> x == 0.0 || y == 0.0
  {
    if x != 0.0 && y != 0.0 {
      if 0.0 < x {
        if 0.0 < y { assert 0.0 < x * y; } else { assert x * y < 0.0; }
      } else {
        if 0.0 < y { assert x * y < 0.0; } else { assert 0.0 < x * y; }
      }
    }
  }

  /** `oneValIntrDist` as written: sqrt(rad2 - dist2) + sqrt(rad2 - b^2). */
  function OneValIntrDist(sqrt: real -> real, dist2: real, rad2: real, b: real): real
  {
    sqrt(rad2 - dist2) + sqrt(rad2 - b * b)
  }

  /** Unit circle centred on the ring's centre: every line leaves it at
      distance 1, but `oneValIntrDist` answers 2. */
  lemma OneValIntrDistMissesCircle(sqrt: real -> real)
    requires SqrtLaw(sqrt)
    ensures OnCircle(1.0, 0.0, 1.0, 0.0)
    ensures OneValIntrDist(sqrt, 0.0, 1.0, 0.0) == 2.0
    ensures !OnCircle(OneValIntrDist(sqrt, 0.0, 1.0, 0.0), 0.0, 1.0, 0.0)
  {
    SqrtOfOne(sqrt);
  }

  lemma SqrtOfOne(sqrt: real -> real)
    requires SqrtLaw(sqrt)
    ensures sqrt(1.0) == 1.0
  {
    var s := sqrt(1.0);
    assert s * s == 1.0;
    if s != 1.0 {
      ZeroProduct(s - 1.0, s + 1.0);
    }
  }

  /** Corrected exit distance from a circle containing the centre: the
      larger root b + sqrt(rad2 - dist2 + b^2). */
  function ExitDist(sqrt: real -> real, dist2: real, rad2: real, b: real): real
  {
    b + sqrt(rad2 - dist2 + b * b)
  }

  /** When the circle contains the centre, the exit distance is positive,
      lies on the circle, and is the only non-negative distance that does. */
  lemma ExitDistIsExit(sqrt: real -> real, dist2: real, rad2: real, b: real, t: real)
    requires SqrtLaw(sqrt)
    requires 0.0 <= dist2 < rad2
    ensures 0.0 < ExitDist(sqrt, dist2, rad2, b)
    ensures OnCircle(ExitDist(sqrt, dist2, rad2, b), dist2, rad2, b)
    ensures 0.0 <= t ==> (OnCircle(t, dist2, rad2, b) <==> t == ExitDist(sqrt, dist2, rad2, b))
  {
    var h := sqrt(rad2 - dist2 + b * b);
    assert h * h == rad2 - dist2 + b * b;
    assert b * b < h * h;
    if b + h <= 0.0 {
      MulMono(h, -b);
    }
    ChordDistsAreIntersections(sqrt, dist2, rad2, b, t);
    if 0.0 <= t && t == b - h {
      MulMono(h, b);
    }
  }

  /** Squaring is monotone on non-negative reals. */
  lemma MulMono(x: real, y: real)
    requires 0.0 <= x <= y
    ensures x * x <= y * y
  {
    assert x * x <= x * y;
    assert x * y <= y * y;
  }
}
