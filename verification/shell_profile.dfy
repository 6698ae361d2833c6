/** The shell driver's spherical profile: particles counted in logarithmic
    radial bins around one halo, after the periodic box has been unwrapped
    around the halo centre, and the bin radii printed with each profile. */
module ShellProfile {
  import opened RealMath
  import opened GoNum
  import opened Periodic
  import opened Lattice
  import opened Results

  /** Why the shell driver stops: an index outside a slice, a negative
      length passed to `make`, or an integer division by zero. */
  datatype ShellError = BinOutOfRange | NegativeLength | DivideByZero | IndexOutOfRange

  /** Counts in `counts.len` logarithmic bins between rMin and rMax around
      `origin`; the squares and logarithms of the radii are cached, and
      `dlr` is the width of one bin in log radius. */
  datatype SphericalProfile = SphericalProfile(
    origin: Vec3,
    counts: seq<real>,
    boxWidth: real,
    countWidth: real,
    rMin: real,
    rMax: real,
    rMin2: real,
    rMax2: real,
    lrMin: real,
    lrMax: real,
    dlr: real)

  /** The shape every profile built from a proper radius range has: the
      cached squares and logarithms of the radii, and bins of width dlr
      that together span [lrMin, lrMax]. */
  predicate Valid(fns: Fns, sp: SphericalProfile)
  {
    && 0.0 < sp.rMin < sp.rMax
    && sp.rMin2 == Sq(sp.rMin)
    && sp.rMax2 == Sq(sp.rMax)
    && sp.lrMin == fns.log(sp.rMin)
    && sp.lrMax == fns.log(sp.rMax)
    && 0 < |sp.counts|
    && Times(|sp.counts|, sp.dlr) == sp.lrMax - sp.lrMin
  }

  /** `newSphericalProfile`: empty bins and the cached squares and logs.
      `make` stops on a negative bin count; with no bins the Go width is a
      division by zero, whose value no later step can use, so 0 stands in. */
  function NewSphericalProfile(fns: Fns, origin: Vec3, rMin: real, rMax: real,
                               boxWidth: real, countWidth: int, rBins: int): (r: Result<SphericalProfile, ShellError>)
    ensures r.Failure? <==> rBins < 0
    ensures r.Success? ==> |r.value.counts| == rBins && Sum(r.value.counts) == 0.0
    ensures r.Success? ==>
      && r.value.origin == origin && r.value.rMin == rMin && r.value.rMax == rMax
      && r.value.boxWidth == boxWidth && r.value.countWidth == countWidth as real
  {
    if rBins < 0 then Failure(NegativeLength)
    else
      var lrMin := fns.log(rMin);
      var lrMax := fns.log(rMax);
      var counts := seq(rBins, _ => 0.0);
      SumOfZeros(rBins);
      Success(SphericalProfile(
        origin, counts, boxWidth, countWidth as real,
        rMin, rMax, Sq(rMin), Sq(rMax), lrMin, lrMax,
        if rBins == 0 then 0.0 else (lrMax - lrMin) / (rBins as real)))
  }

  lemma {:induction false} SumOfZeros(n: nat)
    ensures Sum(seq(n, _ => 0.0)) == 0.0
  {
    if n > 0 {
      assert seq(n, _ => 0.0)[..n - 1] == seq(n - 1, _ => 0.0);
      SumOfZeros(n - 1);
    }
  }

  /** A proper radius range and at least one bin give a valid profile whose
      bins have positive width. */
  lemma NewProfileValid(fns: Fns, origin: Vec3, rMin: real, rMax: real,
                        boxWidth: real, countWidth: int, rBins: int)
    requires LogLaw(fns.log)
    requires 0.0 < rMin < rMax
    requires 0 < rBins
    ensures NewSphericalProfile(fns, origin, rMin, rMax, boxWidth, countWidth, rBins).Success?
    ensures var sp := NewSphericalProfile(fns, origin, rMin, rMax, boxWidth, countWidth, rBins).value;
      Valid(fns, sp) && 0.0 < sp.dlr
  {
    var sp := NewSphericalProfile(fns, origin, rMin, rMax, boxWidth, countWidth, rBins).value;
    assert fns.log(rMin) < fns.log(rMax);
    assert |sp.counts| == rBins;
    PositiveWidth(sp.lrMax - sp.lrMin, rBins);
  }

  /** Splitting a positive length into n > 0 parts gives positive parts
      that add back up to the length. */
  lemma PositiveWidth(len: real, n: nat)
    requires 0.0 < len && 0 < n
    ensures 0.0 < len / (n as real)
    ensures Times(n, len / (n as real)) == len
  {
    TimesIsProduct(n, len / (n as real));
  }

  // ---------------------------------------------------------------------
  // The periodic transform

  /** `transform`: each point moved by at most one box width toward the
      profile's centre, coordinate by coordinate. */
  function Transform(sp: SphericalProfile, vecs: seq<Vec3>): (out: seq<Vec3>)
    ensures |out| == |vecs|
  {
    WrapAll(vecs, sp.origin, sp.boxWidth)
  }

  /** `transform` and `wrapDist` apply the same rule: the transformed point's
      offset from the centre is the folded distance on each axis. Points
      within one and a half boxes of the centre end within half a box. */
  lemma TransformIsWrapDist(sp: SphericalProfile, vecs: seq<Vec3>, i: int)
    requires 0 <= i < |vecs|
    ensures var d := Sub(Transform(sp, vecs)[i], sp.origin);
      && d.x == WrapDist(vecs[i].x, sp.origin.x, sp.boxWidth)
      && d.y == WrapDist(vecs[i].y, sp.origin.y, sp.boxWidth)
      && d.z == WrapDist(vecs[i].z, sp.origin.z, sp.boxWidth)
    ensures 0.0 < sp.boxWidth && InReach(vecs[i], sp.origin, sp.boxWidth) ==>
      var d := Sub(Transform(sp, vecs)[i], sp.origin);
      var h := sp.boxWidth / 2.0;
      -h <= d.x <= h && -h <= d.y <= h && -h <= d.z <= h
  {
    if 0.0 < sp.boxWidth && InReach(vecs[i], sp.origin, sp.boxWidth) {
      WrapIsMinimumImage(vecs[i], sp.origin, sp.boxWidth);
    }
  }

  // ---------------------------------------------------------------------
  // Binning

  /** `r2`: squared distance from the profile's centre. */
  function R2(sp: SphericalProfile, p: Vec3): (r: real)
    ensures 0.0 <= r
    ensures r == Norm2(Sub(p, sp.origin))
  {
    SqNonNegative(p.x - sp.origin.x);
    SqNonNegative(p.y - sp.origin.y);
    SqNonNegative(p.z - sp.origin.z);
    Sq(p.x - sp.origin.x) + Sq(p.y - sp.origin.y) + Sq(p.z - sp.origin.z)
  }

  /** The squared distance vanishes at the profile's origin and nowhere
      else. */
  lemma R2ZeroAtOrigin(sp: SphericalProfile, p: Vec3)
    ensures R2(sp, p) == 0.0 <==> p == sp.origin
  {
    var dx, dy, dz := p.x - sp.origin.x, p.y - sp.origin.y, p.z - sp.origin.z;
    SqNonNegative(dx);
    SqNonNegative(dy);
    SqNonNegative(dz);
    if p != sp.origin {
      if dx != 0.0 { SqPositive(dx); }
      else if dy != 0.0 { SqPositive(dy); }
      else { SqPositive(dz); }
    }
  }

  /** `contains`: strictly inside the shell between rMin and rMax. */
  predicate Contains(sp: SphericalProfile, p: Vec3)
  {
    sp.rMin2 < R2(sp, p) < sp.rMax2
  }

  /** The bin `insert` picks: whole bin widths from lrMin to the log radius,
      rounded toward zero as Go's `int` conversion does. */
  function Bin(fns: Fns, sp: SphericalProfile, p: Vec3): int
    requires sp.dlr != 0.0
  {
    StepOf(fns.log(R2(sp, p)) / 2.0, sp.lrMin, sp.dlr)
  }

  /** Log bin b, [lrMin + b*dlr, lrMin + (b+1)*dlr), holds lr. */
  predicate BinCovers(lrMin: real, dlr: real, b: int, lr: real)
  {
    lrMin + b as real * dlr <= lr < lrMin + b as real * dlr + dlr
  }

  /** Whole steps of width dlr from lo to v, rounded toward zero. */
  function StepOf(v: real, lo: real, dlr: real): int
    requires dlr != 0.0
  {
    Trunc((v - lo) / dlr)
  }

  /** `insert`: a point outside the shell is refused and changes nothing; a
      point inside adds one to exactly one bin. A bin index outside the
      slice stops the program. The model's zero width stands for a profile
      with no bins, where Go's width is infinite, the index is int(0) = 0
      and reading the empty slice stops the program; and for equal log
      radii, which leave no point inside the shell. */
  function Insert(fns: Fns, sp: SphericalProfile, p: Vec3): (r: Result<(SphericalProfile, bool), ShellError>)
    ensures !Contains(sp, p) ==> r == Success((sp, false))
    ensures r.Failure? ==> Contains(sp, p)
    ensures r.Success? ==> (r.value.1 <==> Contains(sp, p))
    ensures r.Success? ==> r.value.0 == sp.(counts := r.value.0.counts) && |r.value.0.counts| == |sp.counts|
    ensures r.Success? && r.value.1 ==>
      && Sum(r.value.0.counts) == Sum(sp.counts) + 1.0
      && exists b :: 0 <= b < |sp.counts| && r.value.0.counts == sp.counts[b := sp.counts[b] + 1.0]
  {
    var r2 := R2(sp, p);
    if r2 <= sp.rMin2 || r2 >= sp.rMax2 then Success((sp, false))
    else if sp.dlr == 0.0 then Failure(BinOutOfRange)
    else
      var ir := Bin(fns, sp, p);
      if 0 <= ir < |sp.counts| then
        SumUpdate(sp.counts, ir, 1.0);
        Success((sp.(counts := sp.counts[ir := sp.counts[ir] + 1.0]), true))
      else Failure(BinOutOfRange)
  }

  /** In a valid profile every point inside the shell is counted, in the bin
      whose log-radius interval [lrMin + b*dlr, lrMin + (b+1)*dlr) holds
      log(r2) / 2, the logarithm of the point's distance from the centre
      (see `LogOfSqrt`). */
  lemma InsertBinsByLogRadius(fns: Fns, sp: SphericalProfile, p: Vec3)
    requires LogLaw(fns.log)
    requires Valid(fns, sp)
    requires Contains(sp, p)
    ensures 0.0 < sp.dlr
    ensures var b := Bin(fns, sp, p);
      && 0 <= b < |sp.counts|
      && Insert(fns, sp, p) == Success((sp.(counts := sp.counts[b := sp.counts[b] + 1.0]), true))
    ensures BinCovers(sp.lrMin, sp.dlr, Bin(fns, sp, p), fns.log(R2(sp, p)) / 2.0)
  {
    BinOfContained(fns, sp, p);
  }

  /** The bin of a point inside the shell of a valid profile. */
  lemma BinOfContained(fns: Fns, sp: SphericalProfile, p: Vec3)
    requires LogLaw(fns.log)
    requires Valid(fns, sp)
    requires Contains(sp, p)
    ensures 0.0 < sp.dlr
    ensures 0 <= Bin(fns, sp, p) < |sp.counts|
    ensures BinCovers(sp.lrMin, sp.dlr, Bin(fns, sp, p), fns.log(R2(sp, p)) / 2.0)
  {
    LogBin(fns.log, sp.rMin, sp.rMax, sp.lrMin, R2(sp, p), |sp.counts|, sp.dlr);
  }

  /** The bin arithmetic of `insert` on plain numbers: a squared radius r2
      strictly between rMin² and rMax², with n bins of width dlr spanning
      [log rMin, log rMax], falls into a bin with a valid index. */
  lemma LogBin(log: real -> real, rMin: real, rMax: real, lrMin: real, r2: real, n: nat, dlr: real)
    requires LogLaw(log)
    requires 0.0 < rMin < rMax
    requires Sq(rMin) < r2 < Sq(rMax)
    requires lrMin == log(rMin)
    requires Times(n, dlr) == log(rMax) - lrMin
    ensures 0.0 < dlr
    ensures var lr := log(r2) / 2.0;
      && 0 <= StepOf(lr, lrMin, dlr) < n
      && BinCovers(lrMin, dlr, StepOf(lr, lrMin, dlr), lr)
  {
    SqPositive(rMin);
    LogOfSq(log, rMin);
    LogOfSq(log, rMax);
    LogLess(log, Sq(rMin), r2);
    LogLess(log, r2, Sq(rMax));
    var a := log(r2) / 2.0 - lrMin;
    assert 0.0 < a < Times(n, dlr);
    StepIndex(a, dlr, n);
  }

  /** The logarithm of a square is twice the logarithm. */
  lemma LogOfSq(log: real -> real, x: real)
    requires LogLaw(log)
    requires 0.0 < x
    ensures log(Sq(x)) == 2.0 * log(x)
  {
  }

  lemma LogLess(log: real -> real, x: real, y: real)
    requires LogLaw(log)
    requires 0.0 < x < y
    ensures log(x) < log(y)
  {
  }

  /** The logarithm of a square root is half the logarithm. */
  lemma LogOfSqrt(fns: Fns, y: real)
    requires LogLaw(fns.log) && SqrtLaw(fns.sqrt)
    requires 0.0 < y
    ensures fns.log(fns.sqrt(y)) == fns.log(y) / 2.0
  {
    var r := fns.sqrt(y);
    SqrtPositive(fns.sqrt, y);
    assert r * r == y;
    LogOfSq(fns.log, r);
  }

  /** The step index int(a / d) of a point a inside n steps of width d: it
      is a valid index, and the step it names contains a. */
  lemma StepIndex(a: real, d: real, n: nat)
    requires 0.0 < a < Times(n, d)
    ensures 0.0 < d
    ensures 0 <= Trunc(a / d) < n
    ensures Trunc(a / d) as real * d <= a < Trunc(a / d) as real * d + d
  {
    TimesIsProduct(n, d);
    assert 0.0 < d by {
      if d <= 0.0 {
        NonNegativeProduct(n as real, -d);
      }
    }
    var x := a / d;
    assert x * d == a;
    assert x < n as real by {
      if n as real <= x {
        NonNegativeProduct(x - n as real, d);
      }
    }
    TruncStepsOf(x, d, a);
    TruncNonnegIsFloor(x, n);
    TruncSpec(x);
  }

  /** The number of points inside the shell. */
  function CountContained(sp: SphericalProfile, ps: seq<Vec3>): nat
  {
    if |ps| == 0 then 0
    else CountContained(sp, ps[..|ps| - 1]) + (if Contains(sp, ps[|ps| - 1]) then 1 else 0)
  }

  /** `insert` applied to each point in order, with the number of points
      it accepted; the first bin index out of range stops the run. */
  function InsertAll(fns: Fns, sp: SphericalProfile, ps: seq<Vec3>): (r: Result<(SphericalProfile, nat), ShellError>)
    ensures r.Success? ==>
      && r.value.0 == sp.(counts := r.value.0.counts)
      && |r.value.0.counts| == |sp.counts|
      && r.value.1 == CountContained(sp, ps)
      && Sum(r.value.0.counts) == Sum(sp.counts) + r.value.1 as real
  {
    if |ps| == 0 then Success((sp, 0))
    else
      match InsertAll(fns, sp, ps[..|ps| - 1])
      case Failure(e) => Failure(e)
      case Success(done) =>
        match Insert(fns, done.0, ps[|ps| - 1])
        case Failure(e) => Failure(e)
        case Success(step) => Success((step.0, done.1 + if step.1 then 1 else 0))
  }

  /** A valid profile never stops: every point in the shell is counted, so
      the bins' total grows by exactly the number of points in the shell. */
  lemma {:induction false} InsertAllCounts(fns: Fns, sp: SphericalProfile, ps: seq<Vec3>)
    requires LogLaw(fns.log)
    requires Valid(fns, sp)
    ensures InsertAll(fns, sp, ps).Success?
    ensures Sum(InsertAll(fns, sp, ps).value.0.counts) == Sum(sp.counts) + CountContained(sp, ps) as real
  {
    if |ps| > 0 {
      InsertAllCounts(fns, sp, ps[..|ps| - 1]);
      var q := InsertAll(fns, sp, ps[..|ps| - 1]).value.0;
      assert Valid(fns, q);
      if Contains(q, ps[|ps| - 1]) {
        InsertBinsByLogRadius(fns, q, ps[|ps| - 1]);
      }
    }
  }

  // ---------------------------------------------------------------------
  // Radii printed with each profile

  /** The radius range of one requested profile. */
  datatype ProfileRange = ProfileRange(rMin: real, rMax: real, v0: Vec3)

  /** Bin centres in log radius: n radii exp(lrMin + (j + 1/2) * dlr). */
  function Radii(fns: Fns, rMin: real, rMax: real, n: nat): (rs: seq<real>)
    ensures |rs| == n
  {
    var lrMin := fns.log(rMin);
    var lrMax := fns.log(rMax);
    var dlr := if n == 0 then 0.0 else (lrMax - lrMin) / (n as real);
    seq(n, j requires 0 <= j < n => fns.exp(CentreExponent(lrMin, dlr, j)))
  }

  /** The middle of log bin j. */
  function CentreExponent(lrMin: real, dlr: real, j: nat): real
  {
    (j as real + 0.5) * dlr + lrMin
  }

  /** `prependRadii`: each profile row preceded by its bin radii. A row
      without a range stops the program at the missing slice element. */
  function PrependRadii(fns: Fns, rhos: seq<seq<real>>, ranges: seq<ProfileRange>): (r: Result<seq<seq<real>>, ShellError>)
    ensures r.Failure? <==> |ranges| < |rhos|
    ensures r.Success? ==> |r.value| == |rhos|
    ensures r.Success? ==> forall i :: 0 <= i < |rhos| ==>
      && |r.value[i]| == 2 * |rhos[i]|
      && r.value[i][|rhos[i]|..] == rhos[i]
      && r.value[i][..|rhos[i]|] == Radii(fns, ranges[i].rMin, ranges[i].rMax, |rhos[i]|)
  {
    if |ranges| < |rhos| then Failure(IndexOutOfRange)
    else
      Success(seq(|rhos|, i requires 0 <= i < |rhos| =>
        Radii(fns, ranges[i].rMin, ranges[i].rMax, |rhos[i]|) + rhos[i]))
  }

  /** For a proper range the radii increase strictly and lie strictly
      between rMin and rMax. */
  lemma RadiiIncreaseWithin(fns: Fns, rMin: real, rMax: real, n: nat)
    requires LogLaw(fns.log) && ExpLaw(fns.exp, fns.log)
    requires 0.0 < rMin < rMax
    ensures forall j :: 0 <= j < n ==> rMin < Radii(fns, rMin, rMax, n)[j] < rMax
    ensures forall j, k :: 0 <= j < k < n ==> Radii(fns, rMin, rMax, n)[j] < Radii(fns, rMin, rMax, n)[k]
  {
    if n > 0 {
      var rs := Radii(fns, rMin, rMax, n);
      var lrMin := fns.log(rMin);
      var lrMax := fns.log(rMax);
      LogLess(fns.log, rMin, rMax);
      var dlr := (lrMax - lrMin) / (n as real);
      PositiveWidth(lrMax - lrMin, n);
      forall j | 0 <= j < n
        ensures rMin < rs[j] < rMax
      {
        CentresInside(lrMin, lrMax, dlr, n, j);
        ExpBetween(fns, rMin, CentreExponent(lrMin, dlr, j), rMax);
      }
      forall j, k | 0 <= j < k < n
        ensures rs[j] < rs[k]
      {
        CentresIncrease(lrMin, dlr, j, k);
        ExpLess(fns.exp, fns.log, CentreExponent(lrMin, dlr, j), CentreExponent(lrMin, dlr, k));
      }
    }
  }

  /** Bin centres lie strictly inside the span of the bins. */
  lemma CentresInside(lrMin: real, lrMax: real, dlr: real, n: nat, j: nat)
    requires 0.0 < dlr && Times(n, dlr) == lrMax - lrMin
    requires j < n
    ensures lrMin < CentreExponent(lrMin, dlr, j) < lrMax
  {
    TimesIsProduct(n, dlr);
    ScaleLess(0.0, j as real + 0.5, dlr);
    ScaleLess(j as real + 0.5, n as real, dlr);
  }

  lemma CentresIncrease(lrMin: real, dlr: real, j: nat, k: nat)
    requires 0.0 < dlr && j < k
    ensures CentreExponent(lrMin, dlr, j) < CentreExponent(lrMin, dlr, k)
  {
    ScaleLess(j as real + 0.5, k as real + 0.5, dlr);
  }

  lemma ExpLess(exp: real -> real, log: real -> real, x: real, y: real)
    requires ExpLaw(exp, log)
    requires x < y
    ensures exp(x) < exp(y)
  {
  }

  /** An exponent strictly between log(lo) and log(hi) gives a value
      strictly between lo and hi. */
  lemma ExpBetween(fns: Fns, lo: real, e: real, hi: real)
    requires ExpLaw(fns.exp, fns.log)
    requires 0.0 < lo && 0.0 < hi
    requires fns.log(lo) < e < fns.log(hi)
    ensures lo < fns.exp(e) < hi
  {
    ExpLess(fns.exp, fns.log, fns.log(lo), e);
    ExpLess(fns.exp, fns.log, e, fns.log(hi));
  }

  /** Multiplying a strict inequality by a positive factor. */
  lemma ScaleLess(a: real, b: real, d: real)
    requires a < b && 0.0 < d
    ensures a * d < b * d
  {
    PositiveProduct(b - a, d);
    assert (b - a) * d == b * d - a * d;
  }
}
