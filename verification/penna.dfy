/** The Penna surface fit of `los/analyze/penna.go`. A closed surface
    r(phi, theta) is a linear combination of the basis functions

      sin(theta)^(i+j) * cos(phi)^i * cos(theta)^k * sin(phi)^j

    for i < I, j < J, k < K. Basis function (i, j, k) is number
    Flat(i, j, k, I, J) = i + I*j + I*J*k, both in the design matrix that
    `PennaCoeffs` fills and in the coefficient vector `PennaFunc` reads. */
module Penna {
  import opened RealMath
  import opened Lattice
  import opened Matrices
  import opened Results

  /** The sines and cosines of a direction's polar angle theta and
      azimuth phi. */
  datatype Trig = Trig(sinth: real, costh: real, sinphi: real, cosphi: real)

  /** Basis function (i, j, k) at a direction, with its factors in the
      order the matrix fill multiplies them. */
  function Basis(t: Trig, i: nat, j: nat, k: nat): real
  {
    Pow(t.sinth, i + j) * Pow(t.cosphi, i) * Pow(t.costh, k) * Pow(t.sinphi, j)
  }

  /** A function of three exponents, numbered in the loops' order: the
      exponents of number m are Unflat(m, I, J). */
  function Renumbered(f: (nat, nat, nat) -> real, I: nat, J: nat): nat -> real
  {
    (m: nat) =>
      if 0 < I && 0 < J then
        var e := Unflat(m, I, J);
        f(e.0, e.1, e.2)
      else 0.0
  }

  /** The basis functions at a direction, by number. */
  function Bases(t: Trig, I: nat, J: nat): nat -> real
  {
    Renumbered((i: nat, j: nat, k: nat) => Basis(t, i, j, k), I, J)
  }

  // ---------------------------------------------------------------------
  // Directions of the sample points

  /** The distance of a sample point from the halo centre. */
  function Radius(fns: Fns, x: real, y: real, z: real): real
  {
    fns.sqrt(Sq(x) + Sq(y) + Sq(z))
  }

  /** The direction of a sample point off the polar axis, as the trig loop
      of `PennaCoeffs` computes it: cos(theta) = z / r, sin(theta) from
      the square root, and phi's sine and cosine by dividing by r sin(theta). */
  function TrigOf(fns: Fns, x: real, y: real, z: real): (t: Trig)
    requires SqrtLaw(fns.sqrt)
    requires 0.0 < Sq(x) + Sq(y)
    ensures 0.0 < t.sinth
  {
    var r := Radius(fns, x, y, z);
    RadiusSquared(fns, x, y, z);
    var costh := z / r;
    CosBelowOne(x, y, z, r, costh);
    var sinth := fns.sqrt(1.0 - Sq(costh));
    SqrtPositive(fns.sqrt, 1.0 - Sq(costh));
    Trig(sinth, costh, y / r / sinth, x / r / sinth)
  }

  /** Off the polar axis the radius is positive and squares back. */
  lemma RadiusSquared(fns: Fns, x: real, y: real, z: real)
    requires SqrtLaw(fns.sqrt)
    requires 0.0 < Sq(x) + Sq(y)
    ensures 0.0 < Radius(fns, x, y, z)
    ensures Sq(Radius(fns, x, y, z)) == Sq(x) + Sq(y) + Sq(z)
  {
    SqNonNegative(z);
    SqrtPositive(fns.sqrt, Sq(x) + Sq(y) + Sq(z));
  }

  /** z / r is strictly inside (-1, 1) off the polar axis, and the rest of
      r's square is the square of the distance from the axis. */
  lemma CosBelowOne(x: real, y: real, z: real, r: real, c: real)
    requires 0.0 < Sq(x) + Sq(y)
    requires 0.0 < r && Sq(r) == Sq(x) + Sq(y) + Sq(z)
    requires c == z / r
    ensures 0.0 < 1.0 - Sq(c)
    ensures (1.0 - Sq(c)) * Sq(r) == Sq(x) + Sq(y)
  {
    assert c * r == z;
    SqProduct(c, r);
    assert (1.0 - Sq(c)) * Sq(r) == Sq(r) - Sq(z);
    if 1.0 - Sq(c) <= 0.0 {
      NonNegativeProduct(Sq(c) - 1.0, Sq(r));
    }
  }

  /** Both angles' sine and cosine lie on the unit circle, and the radius
      and direction reconstruct the point: the precomputation loses nothing. */
  lemma TrigOnUnitCircles(fns: Fns, x: real, y: real, z: real)
    requires SqrtLaw(fns.sqrt)
    requires 0.0 < Sq(x) + Sq(y)
    ensures var t, r := TrigOf(fns, x, y, z), Radius(fns, x, y, z);
      && Sq(t.sinth) + Sq(t.costh) == 1.0
      && Sq(t.sinphi) + Sq(t.cosphi) == 1.0
      && r * t.sinth * t.cosphi == x
      && r * t.sinth * t.sinphi == y
      && r * t.costh == z
  {
    ThetaOnCircle(fns, x, y, z);
    PhiOnCircle(fns, x, y, z);
  }

  /** The polar angle's sine and cosine, and the height they rebuild. */
  lemma ThetaOnCircle(fns: Fns, x: real, y: real, z: real)
    requires SqrtLaw(fns.sqrt)
    requires 0.0 < Sq(x) + Sq(y)
    ensures var t, r := TrigOf(fns, x, y, z), Radius(fns, x, y, z);
      && Sq(t.sinth) + Sq(t.costh) == 1.0
      && r * t.costh == z
  {
    var t, r := TrigOf(fns, x, y, z), Radius(fns, x, y, z);
    RadiusSquared(fns, x, y, z);
    CosBelowOne(x, y, z, r, t.costh);
    SqNonNegative(t.costh);
    assert Sq(t.sinth) == 1.0 - Sq(t.costh);
  }

  /** The azimuth's sine and cosine, and the horizontal position they
      rebuild with the radius and the polar sine. */
  lemma PhiOnCircle(fns: Fns, x: real, y: real, z: real)
    requires SqrtLaw(fns.sqrt)
    requires 0.0 < Sq(x) + Sq(y)
    ensures var t, r := TrigOf(fns, x, y, z), Radius(fns, x, y, z);
      && Sq(t.sinphi) + Sq(t.cosphi) == 1.0
      && r * t.sinth * t.cosphi == x
      && r * t.sinth * t.sinphi == y
  {
    var t, r := TrigOf(fns, x, y, z), Radius(fns, x, y, z);
    RadiusSquared(fns, x, y, z);
    CosBelowOne(x, y, z, r, t.costh);
    ThetaOnCircle(fns, x, y, z);
    var s := t.sinth;
    assert Sq(s) == 1.0 - Sq(t.costh);
    var rs := r * s;
    PositiveProduct(r, s);
    DivTwice(x, r, s);
    DivTwice(y, r, s);
    SqProduct(r, s);
    assert Sq(rs) == Sq(x) + Sq(y);
    UnitFromScaled(x, y, rs, t.cosphi, t.sinphi);
  }

  /** (x / d, y / d) is on the unit circle when d is the length of (x, y). */
  lemma UnitFromScaled(x: real, y: real, d: real, c: real, s: real)
    requires 0.0 < Sq(x) + Sq(y)
    requires 0.0 < d && Sq(d) == Sq(x) + Sq(y)
    requires c == x / d && s == y / d
    ensures Sq(s) + Sq(c) == 1.0
    ensures d * c == x && d * s == y
  {
    assert d * c == x && d * s == y;
    SqProduct(d, c);
    SqProduct(d, s);
    assert Sq(d) * Sq(s) == Sq(y);
    assert Sq(d) * Sq(c) == Sq(x);
    UnitShare(Sq(d), Sq(s), Sq(c), Sq(y), Sq(x));
  }

  /** Shares s and c of a non-zero whole d whose scaled parts add up to d
      add up to one. */
  lemma UnitShare(d: real, s: real, c: real, y: real, x: real)
    requires d != 0.0 && d * s == y && d * c == x && d == x + y
    ensures s + c == 1.0
  {
    calc {
      d * (s + c);
      d * s + d * c;
      y + x;
      d * 1.0;
    }
    CancelFactor(d, s + c, 1.0);
  }

  lemma SqProduct(a: real, b: real)
    ensures Sq(a * b) == Sq(a) * Sq(b)
  {
  }

  lemma DivTwice(x: real, r: real, s: real)
    requires r != 0.0 && s != 0.0
    ensures x / r / s == x / (r * s)
  {
    var q := x / r / s;
    assert q * s == x / r;
    assert q * s * r == x;
    assert q * (r * s) == x;
  }

  lemma CancelFactor(a: real, u: real, v: real)
    requires a != 0.0 && a * u == a * v
    ensures u == v
  {
    assert a * (u - v) == 0.0;
  }

  /** The directions of the first |xs| sample points. */
  function Directions(fns: Fns, xs: seq<real>, ys: seq<real>, zs: seq<real>): (ts: seq<Trig>)
    requires SqrtLaw(fns.sqrt)
    requires |xs| <= |ys| && |xs| <= |zs|
    requires forall n :: 0 <= n < |xs| ==> 0.0 < Sq(xs[n]) + Sq(ys[n])
    ensures |ts| == |xs|
  {
    seq(|xs|, n requires 0 <= n < |xs| => TrigOf(fns, xs[n], ys[n], zs[n]))
  }

  /** The radii of the first |xs| sample points: the values fitted. */
  function Radii(fns: Fns, xs: seq<real>, ys: seq<real>, zs: seq<real>): (rs: seq<real>)
    requires |xs| <= |ys| && |xs| <= |zs|
    ensures |rs| == |xs|
  {
    seq(|xs|, n requires 0 <= n < |xs| => Radius(fns, xs[n], ys[n], zs[n]))
  }

  // ---------------------------------------------------------------------
  // The design matrix

  /** Storage slot p of the design matrix of directions ts: row p / N is
      basis function number p / N, column p % N is sample p % N. */
  function Target(ts: seq<Trig>, I: nat, J: nat, p: int): real
  {
    if 0 <= p && 0 < |ts| then Bases(ts[p % |ts|], I, J)(p / |ts|) else 0.0
  }

  /** The design matrix storage: I*J*K rows (basis functions) of N entries
      (samples), row-major. */
  function Design(ts: seq<Trig>, I: nat, J: nat, K: nat): (d: seq<real>)
    ensures |d| == I * J * K * |ts|
  {
    seq(I * J * K * |ts|, p => Target(ts, I, J, p))
  }

  /** `mat.NewMatrix(MVals, len(rs), I*J*K)`: width N, height I*J*K. */
  function DesignMatrix(ts: seq<Trig>, I: nat, J: nat, K: nat): (m: Matrix)
    ensures Shaped(m) && m.width == |ts| && m.height == I * J * K
  {
    Matrix(Design(ts, I, J, K), |ts|, I * J * K)
  }

  /** Entry (m, n) of the design matrix is basis function number m at
      sample n. */
  lemma DesignGet(ts: seq<Trig>, I: nat, J: nat, K: nat, i: nat, j: nat, k: nat, n: int)
    requires i < I && j < J && k < K && 0 <= n < |ts|
    ensures Get(DesignMatrix(ts, I, J, K), Flat(i, j, k, I, J), n) == Basis(ts[n], i, j, k)
  {
    var m := Flat(i, j, k, I, J);
    FlatBounds(i, j, k, I, J, K);
    UnflatOfFlat(i, j, k, I, J);
    var N := |ts|;
    LowPartBound(n, m, N, I * J * K);
    DivModUnique(n + m * N, N, m, n);
  }

  /** The fill loop has finished the samples before n and, of sample n,
      the basis functions before m. */
  predicate Written(p: int, N: int, n: int, m: int)
  {
    0 < N && (p % N < n || (p % N == n && p / N < m))
  }

  /** Storage after the fill reached (n, m): written slots hold their
      design entry and were written once, the rest still hold zero. */
  ghost predicate FilledUpTo(mvals: seq<real>, writes: seq<nat>, ts: seq<Trig>, I: nat, J: nat, W: nat, n: int, m: int)
  {
    && |mvals| == W * |ts| && |writes| == |mvals|
    && forall p :: 0 <= p < |mvals| ==>
         && mvals[p] == (if Written(p, |ts|, n, m) then Target(ts, I, J, p) else 0.0)
         && writes[p] == (if Written(p, |ts|, n, m) then 1 else 0)
  }

  /** Writing basis function m = Flat(i, j, k) of sample n into slot
      m * N + n extends the filled region by that one slot. */
  lemma FillStep(mvals: seq<real>, writes: seq<nat>, ts: seq<Trig>, I: nat, J: nat, K: nat, n: int, i: nat, j: nat, k: nat)
    requires 0 <= n < |ts| && i < I && j < J && k < K
    requires FilledUpTo(mvals, writes, ts, I, J, I * J * K, n, Flat(i, j, k, I, J))
    ensures var q := Flat(i, j, k, I, J) * |ts| + n;
      && 0 <= q < |mvals|
      && FilledUpTo(mvals[q := Basis(ts[n], i, j, k)], writes[q := 1], ts, I, J, I * J * K, n, Flat(i, j, k, I, J) + 1)
  {
    var N, m := |ts|, Flat(i, j, k, I, J);
    FlatBounds(i, j, k, I, J, K);
    UnflatOfFlat(i, j, k, I, J);
    var q := m * N + n;
    LowPartBound(n, m, N, I * J * K);
    assert q == n + m * N;
    DivModUnique(q, N, m, n);
    assert Target(ts, I, J, q) == Basis(ts[n], i, j, k);
    var mv, wr := mvals[q := Basis(ts[n], i, j, k)], writes[q := 1];
    forall p | 0 <= p < |mv|
      ensures mv[p] == (if Written(p, N, n, m + 1) then Target(ts, I, J, p) else 0.0)
      ensures wr[p] == (if Written(p, N, n, m + 1) then 1 else 0)
    {
      if p != q {
        SlotSplit(p, N, n, m);
      }
    }
  }

  /** A slot other than m * N + n is written after (n, m + 1) exactly when
      it was after (n, m). */
  lemma SlotSplit(p: int, N: int, n: int, m: int)
    requires 0 <= p && 0 < N && 0 <= n < N && p != m * N + n
    ensures Written(p, N, n, m + 1) == Written(p, N, n, m)
  {
    assert p == p / N * N + p % N;
  }

  /** Finishing every basis function of sample n finishes the column. */
  lemma ColumnDone(mvals: seq<real>, writes: seq<nat>, ts: seq<Trig>, I: nat, J: nat, W: nat, n: int)
    requires 0 <= n < |ts|
    requires FilledUpTo(mvals, writes, ts, I, J, W, n, W)
    ensures FilledUpTo(mvals, writes, ts, I, J, W, n + 1, 0)
  {
    forall p | 0 <= p < |mvals|
      ensures Written(p, |ts|, n, W) == Written(p, |ts|, n + 1, 0)
    {
      SlotDecode(p, |ts|, W);
    }
  }

  /** A filled store is the design matrix, every slot written once. */
  lemma FillDone(mvals: seq<real>, writes: seq<nat>, ts: seq<Trig>, I: nat, J: nat, K: nat)
    requires FilledUpTo(mvals, writes, ts, I, J, I * J * K, |ts|, 0)
    ensures mvals == Design(ts, I, J, K)
    ensures forall p :: 0 <= p < |writes| ==> writes[p] == 1
  {
    forall p | 0 <= p < |mvals|
      ensures Written(p, |ts|, |ts|, 0)
    {
    }
  }

  /** `math.Pow(sinths[n], i+j) * cosphi * costh * sinphi`, the fill's
      matrix entry. */
  function Entry(sinIJ: real, cosphi: real, costh: real, sinphi: real): real
  {
    sinIJ * cosphi * costh * sinphi
  }

  /** The entry the fill writes is the basis function once the three
      powers are put in. That the loop's running products are these powers
      is the invariant of `FillRow`, not a fact this lemma proves. */
  lemma EntryIs(t: Trig, i: nat, j: nat, k: nat, cosphi: real, costh: real, sinphi: real)
    requires cosphi == Pow(t.cosphi, i) && costh == Pow(t.costh, k) && sinphi == Pow(t.sinphi, j)
    ensures Entry(Pow(t.sinth, i + j), cosphi, costh, sinphi) == Basis(t, i, j, k)
  {
  }

  /** One more factor x raises the power by one. */
  lemma PowStep(x: real, i: nat)
    ensures Pow(x, i) * x == Pow(x, i + 1)
  {
  }

  /** The fill loop of `PennaCoeffs`: for each sample n, basis functions
      in the order k, j, i with a running number m, writing slot
      m * N + n (N = `M.Width`). The store it leaves is the design matrix,
      every slot written exactly once. */
  method FillDesign(ts: seq<Trig>, I: nat, J: nat, K: nat) returns (mvals: seq<real>, ghost writes: seq<nat>)
    ensures mvals == Design(ts, I, J, K)
    ensures |writes| == |mvals| && forall p :: 0 <= p < |writes| ==> writes[p] == 1
  {
    var N := |ts|;
    var W := I * J * K;
    mvals := seq(W * N, _ => 0.0);
    writes := seq(W * N, _ => 0);
    var n := 0;
    while n < N
      invariant 0 <= n <= N
      invariant FilledUpTo(mvals, writes, ts, I, J, W, n, 0)
    {
      mvals, writes := FillColumn(mvals, writes, ts, I, J, K, n);
      ColumnDone(mvals, writes, ts, I, J, W, n);
      n := n + 1;
    }
    FillDone(mvals, writes, ts, I, J, K);
  }

  /** The k loop of the fill for sample n: every basis function of the
      sample, planes of I*J at a time. */
  method FillColumn(mvals0: seq<real>, ghost writes0: seq<nat>, ts: seq<Trig>, I: nat, J: nat, K: nat, n: int)
    returns (mvals: seq<real>, ghost writes: seq<nat>)
    requires 0 <= n < |ts|
    requires FilledUpTo(mvals0, writes0, ts, I, J, I * J * K, n, 0)
    ensures FilledUpTo(mvals, writes, ts, I, J, I * J * K, n, I * J * K)
  {
    mvals, writes := mvals0, writes0;
    var m := 0;
    var k := 0;
    while k < K
      invariant 0 <= k <= K
      invariant m == Flat(0, 0, k, I, J)
      invariant FilledUpTo(mvals, writes, ts, I, J, I * J * K, n, m)
    {
      var costh := Pow(ts[n].costh, k);
      mvals, writes := FillPlane(mvals, writes, ts, I, J, K, n, k, m, costh);
      PlaneEnd(k, I, J);
      m := Flat(0, 0, k + 1, I, J);
      k := k + 1;
    }
    LastPlane(I, J, K);
  }

  /** The j loop of the fill: the rows of plane k, I basis functions at a
      time. */
  method FillPlane(mvals0: seq<real>, ghost writes0: seq<nat>, ts: seq<Trig>, I: nat, J: nat, K: nat, n: int,
                   k: nat, start: int, costh: real)
    returns (mvals: seq<real>, ghost writes: seq<nat>)
    requires 0 <= n < |ts| && k < K
    requires start == Flat(0, 0, k, I, J)
    requires costh == Pow(ts[n].costh, k)
    requires FilledUpTo(mvals0, writes0, ts, I, J, I * J * K, n, start)
    ensures FilledUpTo(mvals, writes, ts, I, J, I * J * K, n, Flat(0, J, k, I, J))
  {
    mvals, writes := mvals0, writes0;
    var m := start;
    var j := 0;
    while j < J
      invariant 0 <= j <= J
      invariant m == Flat(0, j, k, I, J)
      invariant FilledUpTo(mvals, writes, ts, I, J, I * J * K, n, m)
    {
      var sinphi := Pow(ts[n].sinphi, j);
      mvals, writes := FillRow(mvals, writes, ts, I, J, K, n, j, k, m, costh, sinphi);
      m := m + I;
      RowEnd(j, k, I, J);
      j := j + 1;
    }
  }

  /** The innermost loop of the fill: basis functions (i, j, k) for
      i < I, cos(phi)^i kept as a running product. */
  method FillRow(mvals0: seq<real>, ghost writes0: seq<nat>, ts: seq<Trig>, I: nat, J: nat, K: nat, n: int,
                 j: nat, k: nat, start: int, costh: real, sinphi: real)
    returns (mvals: seq<real>, ghost writes: seq<nat>)
    requires 0 <= n < |ts| && j < J && k < K
    requires start == Flat(0, j, k, I, J)
    requires costh == Pow(ts[n].costh, k) && sinphi == Pow(ts[n].sinphi, j)
    requires FilledUpTo(mvals0, writes0, ts, I, J, I * J * K, n, start)
    ensures FilledUpTo(mvals, writes, ts, I, J, I * J * K, n, start + I)
  {
    mvals, writes := mvals0, writes0;
    var N := |ts|;
    var m := start;
    var cosphi := 1.0;
    var i := 0;
    while i < I
      invariant 0 <= i <= I
      invariant m == start + i
      invariant cosphi == Pow(ts[n].cosphi, i)
      invariant FilledUpTo(mvals, writes, ts, I, J, I * J * K, n, m)
    {
      FillStep(mvals, writes, ts, I, J, K, n, i, j, k);
      EntryIs(ts[n], i, j, k, cosphi, costh, sinphi);
      mvals := mvals[m * N + n := Entry(Pow(ts[n].sinth, i + j), cosphi, costh, sinphi)];
      writes := writes[m * N + n := 1];
      m := m + 1;
      PowStep(ts[n].cosphi, i);
      cosphi := cosphi * ts[n].cosphi;
      i := i + 1;
    }
  }

  // ---------------------------------------------------------------------
  // Evaluation

  /** The first `count` coefficients times their basis functions, added
      up. */
  function PennaSum(cs: seq<real>, t: Trig, I: nat, J: nat, count: nat): real
  {
    WeightedSum(cs, Bases(t, I, J), count)
  }

  /** The sines and cosines of (phi, th), as `math.Sincos` gives them. */
  function AngleTrig(fns: Fns, phi: real, th: real): Trig
  {
    Trig(fns.sin(th), fns.cos(th), fns.sin(phi), fns.cos(phi))
  }

  /** The value of the closure `PennaFunc(cs, I, J, K)` at (phi, th): the
      sum of every coefficient times its basis function. */
  function PennaFunc(fns: Fns, cs: seq<real>, I: nat, J: nat, K: nat, phi: real, th: real): real
    requires I * J * K <= |cs|
  {
    PennaSum(cs, AngleTrig(fns, phi, th), I, J, I * J * K)
  }

  /** Adding the term of number Flat(i, j, k) to a renumbered sum adds
      the coefficient there times f(i, j, k). */
  lemma RenumberedStep(cs: seq<real>, f: (nat, nat, nat) -> real, I: nat, J: nat, K: nat, i: nat, j: nat, k: nat)
    requires i < I && j < J && k < K && I * J * K <= |cs|
    ensures Flat(i, j, k, I, J) < |cs|
    ensures WeightedSum(cs, Renumbered(f, I, J), Flat(i, j, k, I, J) + 1) ==
      WeightedSum(cs, Renumbered(f, I, J), Flat(i, j, k, I, J)) + cs[Flat(i, j, k, I, J)] * f(i, j, k)
  {
    FlatBounds(i, j, k, I, J, K);
    UnflatOfFlat(i, j, k, I, J);
    SumStep(cs, Renumbered(f, I, J), Flat(i, j, k, I, J), f(i, j, k));
  }

  /** Adding the loop's product at (i, j, k) extends the sum by one term. */
  lemma EvalAdd(cs: seq<real>, t: Trig, I: nat, J: nat, K: nat, i: nat, j: nat, k: nat)
    requires i < I && j < J && k < K && I * J * K <= |cs|
    ensures Flat(i, j, k, I, J) < |cs|
    ensures PennaSum(cs, t, I, J, Flat(i, j, k, I, J) + 1) ==
      PennaSum(cs, t, I, J, Flat(i, j, k, I, J)) + cs[Flat(i, j, k, I, J)] * Basis(t, i, j, k)
  {
    RenumberedStep(cs, (i: nat, j: nat, k: nat) => Basis(t, i, j, k), I, J, K, i, j, k);
  }

  /** One more weighted term, the weight being known as v. */
  lemma SumStep(cs: seq<real>, w: nat -> real, m: nat, v: real)
    requires m < |cs| && w(m) == v
    ensures WeightedSum(cs, w, m + 1) == WeightedSum(cs, w, m) + cs[m] * v
  {
  }

  /** `cs[idx] * sinIJ * cosK * sinJ * cosI`, the closure's summand. */
  function Summand(c: real, sinIJ: real, cosK: real, sinJ: real, cosI: real): real
  {
    c * sinIJ * cosK * sinJ * cosI
  }

  /** The loop's product of powers is the coefficient times the basis
      function. */
  lemma SummandIs(c: real, t: Trig, i: nat, j: nat, k: nat, sinIJ: real, cosK: real, sinJ: real, cosI: real)
    requires sinIJ == Pow(t.sinth, i + j) && cosK == Pow(t.costh, k)
    requires sinJ == Pow(t.sinphi, j) && cosI == Pow(t.cosphi, i)
    ensures Summand(c, sinIJ, cosK, sinJ, cosI) == c * Basis(t, i, j, k)
  {
    assert sinIJ * cosK * sinJ * cosI == sinIJ * cosI * cosK * sinJ;
    assert c * sinIJ * cosK * sinJ * cosI == c * (sinIJ * cosK * sinJ * cosI);
  }

  /** The loop's summand at (i, j, k), index idx, extends the sum by one
      term. */
  lemma EvalTerm(cs: seq<real>, t: Trig, I: nat, J: nat, K: nat, i: nat, j: nat, k: nat, idx: int,
                 sinIJ: real, cosK: real, sinJ: real, cosI: real)
    requires i < I && j < J && k < K && I * J * K <= |cs|
    requires idx == Flat(i, j, k, I, J)
    requires sinIJ == Pow(t.sinth, i + j) && cosK == Pow(t.costh, k)
    requires sinJ == Pow(t.sinphi, j) && cosI == Pow(t.cosphi, i)
    ensures 0 <= idx < |cs|
    ensures PennaSum(cs, t, I, J, idx + 1) == PennaSum(cs, t, I, J, idx) + Summand(cs[idx], sinIJ, cosK, sinJ, cosI)
  {
    FlatBounds(i, j, k, I, J, K);
    SummandIs(cs[idx], t, i, j, k, sinIJ, cosK, sinJ, cosI);
    EvalAdd(cs, t, I, J, K, i, j, k);
    AddEqual(PennaSum(cs, t, I, J, idx + 1), PennaSum(cs, t, I, J, idx),
             cs[idx] * Basis(t, i, j, k), Summand(cs[idx], sinIJ, cosK, sinJ, cosI));
  }

  /** Replacing an added term by an equal one. */
  lemma AddEqual(s1: real, s0: real, p: real, q: real)
    requires s1 == s0 + p && p == q
    ensures s1 == s0 + q
  {
  }

  /** Why the fit or its evaluation panics: a slice read past its end, or
      the pseudo-inverse failing. */
  datatype PennaError = IndexOutOfRange | PinvFailed(cause: PinvError)

  /** The evaluation closure: coefficients are consumed in the order
      k, j, i with a running index, as in the fill. With fewer than I*J*K
      coefficients the running index reaches the end of cs and the read
      there panics; the panic ends the call, so the model decides it before
      the loops. */
  method PennaEval(fns: Fns, cs: seq<real>, I: nat, J: nat, K: nat, phi: real, th: real)
    returns (r: Result<real, PennaError>)
    ensures r.Failure? <==> |cs| < I * J * K
    ensures r.Failure? ==> r.error == IndexOutOfRange
    ensures r.Success? ==> r.value == PennaFunc(fns, cs, I, J, K, phi, th)
  {
    if |cs| < I * J * K {
      return Failure(IndexOutOfRange);
    }
    var t := AngleTrig(fns, phi, th);
    var idx := 0;
    var sum := 0.0;
    var k := 0;
    while k < K
      invariant 0 <= k <= K
      invariant idx == Flat(0, 0, k, I, J)
      invariant sum == PennaSum(cs, t, I, J, idx)
    {
      var cosK := Pow(t.costh, k);
      var j := 0;
      while j < J
        invariant 0 <= j <= J
        invariant idx == Flat(0, j, k, I, J)
        invariant sum == PennaSum(cs, t, I, J, idx)
      {
        var sinJ := Pow(t.sinphi, j);
        sum := EvalRow(cs, t, I, J, K, j, k, cosK, sinJ, idx, sum);
        idx := idx + I;
        RowEnd(j, k, I, J);
        j := j + 1;
      }
      PlaneEnd(k, I, J);
      k := k + 1;
    }
    LastPlane(I, J, K);
    return Success(sum);
  }

  /** The innermost loop of the closure: the I terms of row (j, k), from
      index `start` on. */
  method EvalRow(cs: seq<real>, t: Trig, I: nat, J: nat, K: nat, j: nat, k: nat, cosK: real, sinJ: real, start: nat, sum0: real)
    returns (sum: real)
    requires j < J && k < K && I * J * K <= |cs|
    requires start == Flat(0, j, k, I, J)
    requires cosK == Pow(t.costh, k) && sinJ == Pow(t.sinphi, j)
    requires sum0 == PennaSum(cs, t, I, J, start)
    ensures sum == PennaSum(cs, t, I, J, start + I)
  {
    sum := sum0;
    var idx := start;
    var i := 0;
    while i < I
      invariant 0 <= i <= I
      invariant idx == start + i
      invariant sum == PennaSum(cs, t, I, J, idx)
    {
      sum := AddTerm(cs, t, I, J, K, i, j, k, cosK, sinJ, idx, sum);
      idx := idx + 1;
      i := i + 1;
    }
  }

  /** The body of the innermost loop: the powers for (i, j, k) and the sum
      extended by the summand at index idx. */
  method AddTerm(cs: seq<real>, t: Trig, I: nat, J: nat, K: nat, i: nat, j: nat, k: nat, cosK: real, sinJ: real, idx: nat, sum0: real)
    returns (sum: real)
    requires i < I && j < J && k < K && I * J * K <= |cs|
    requires idx == Flat(i, j, k, I, J)
    requires cosK == Pow(t.costh, k) && sinJ == Pow(t.sinphi, j)
    requires sum0 == PennaSum(cs, t, I, J, idx)
    ensures sum == PennaSum(cs, t, I, J, idx + 1)
  {
    var cosI := Pow(t.cosphi, i);
    var sinIJ := Pow(t.sinth, i + j);
    EvalTerm(cs, t, I, J, K, i, j, k, idx, sinIJ, cosK, sinJ, cosI);
    sum := sum0 + Summand(cs[idx], sinIJ, cosK, sinJ, cosI);
  }

  /** With only the first coefficient non-zero the surface is the sphere
      of that radius: basis function 0 is the constant 1. */
  lemma PennaFuncConstant(fns: Fns, cs: seq<real>, I: nat, J: nat, K: nat, phi: real, th: real)
    requires 1 <= I && 1 <= J && 1 <= K && I * J * K <= |cs|
    requires forall m :: 1 <= m < |cs| ==> cs[m] == 0.0
    ensures PennaFunc(fns, cs, I, J, K, phi, th) == cs[0]
  {
    MulLe(1, I * J, K);
    MulLe(1, I, J);
    PennaSumConstant(cs, AngleTrig(fns, phi, th), I, J, I * J * K);
  }

  lemma PennaSumConstant(cs: seq<real>, t: Trig, I: nat, J: nat, count: nat)
    requires 0 < I && 0 < J && 1 <= count <= |cs|
    requires forall m :: 1 <= m < |cs| ==> cs[m] == 0.0
    ensures PennaSum(cs, t, I, J, count) == cs[0]
  {
    WeightedSumOfFirst(cs, Bases(t, I, J), count);
    assert Unflat(0, I, J) == (0, 0, 0);
  }

  /** a * cs + ds, coefficient by coefficient. */
  function Combine(a: real, cs: seq<real>, ds: seq<real>): (es: seq<real>)
    requires |cs| == |ds|
    ensures |es| == |cs|
  {
    seq(|cs|, m requires 0 <= m < |cs| => a * cs[m] + ds[m])
  }

  /** The fitted surface is linear in its coefficients. */
  lemma PennaFuncLinear(fns: Fns, a: real, cs: seq<real>, ds: seq<real>, I: nat, J: nat, K: nat, phi: real, th: real)
    requires |cs| == |ds| && I * J * K <= |cs|
    ensures PennaFunc(fns, Combine(a, cs, ds), I, J, K, phi, th) ==
      a * PennaFunc(fns, cs, I, J, K, phi, th) + PennaFunc(fns, ds, I, J, K, phi, th)
  {
    var t := AngleTrig(fns, phi, th);
    PennaSumLinear(a, cs, ds, t, I, J, I * J * K);
    assert PennaFunc(fns, cs, I, J, K, phi, th) == PennaSum(cs, t, I, J, I * J * K);
    assert PennaFunc(fns, ds, I, J, K, phi, th) == PennaSum(ds, t, I, J, I * J * K);
  }

  lemma PennaSumLinear(a: real, cs: seq<real>, ds: seq<real>, t: Trig, I: nat, J: nat, count: nat)
    requires |cs| == |ds|
    ensures PennaSum(Combine(a, cs, ds), t, I, J, count) == a * PennaSum(cs, t, I, J, count) + PennaSum(ds, t, I, J, count)
  {
    WeightedSumLinear(a, cs, ds, Combine(a, cs, ds), Bases(t, I, J), count);
  }

  /** The fit and the evaluation use the same basis in the same order:
      column n of the design matrix, weighted by the coefficients, is the
      surface the coefficients define, evaluated at sample n's direction. */
  lemma FitMatchesEval(ts: seq<Trig>, I: nat, J: nat, K: nat, cs: seq<real>, n: int)
    requires I * J * K <= |cs| && 0 <= n < |ts|
    ensures Dot(Matrix(cs, |cs|, 1), DesignMatrix(ts, I, J, K), 0, n, I * J * K) == PennaSum(cs, ts[n], I, J, I * J * K)
  {
    ColumnSum(ts, I, J, K, cs, n, I * J * K);
  }

  lemma ColumnSum(ts: seq<Trig>, I: nat, J: nat, K: nat, cs: seq<real>, n: int, count: nat)
    requires count <= I * J * K <= |cs| && 0 <= n < |ts|
    ensures Dot(Matrix(cs, |cs|, 1), DesignMatrix(ts, I, J, K), 0, n, count) == PennaSum(cs, ts[n], I, J, count)
  {
    ColumnTerms(ts, I, J, K, cs, n, count);
    DotAsWeightedSum(Matrix(cs, |cs|, 1), DesignMatrix(ts, I, J, K), 0, n, cs, Bases(ts[n], I, J), count);
  }

  /** The coefficient row holds the coefficients and column n of the design
      matrix holds the basis functions at sample n. */
  lemma ColumnTerms(ts: seq<Trig>, I: nat, J: nat, K: nat, cs: seq<real>, n: int, count: nat)
    requires count <= I * J * K <= |cs| && 0 <= n < |ts|
    ensures forall m: nat :: m < count ==>
      Get(Matrix(cs, |cs|, 1), 0, m) == Coef(cs, m) && Get(DesignMatrix(ts, I, J, K), m, n) == Bases(ts[n], I, J)(m)
  {
    forall m: nat | m < count
      ensures Get(Matrix(cs, |cs|, 1), 0, m) == Coef(cs, m)
      ensures Get(DesignMatrix(ts, I, J, K), m, n) == Bases(ts[n], I, J)(m)
    {
      UnflatBelow(m, I, J, K);
      var e := Unflat(m, I, J);
      DesignGet(ts, I, J, K, e.0, e.1, e.2, n);
    }
  }

  // ---------------------------------------------------------------------
  // The pseudo-inverse and the fit

  /** Why `pinv` panics: a matrix whose storage does not fit its shape, or
      an M * T that gonum's `Inverse` rejects (carrying its message). */
  datatype PinvError = DimensionMismatch | NotInvertible(msg: string)

  /** What gonum's `Inverse` promises when it succeeds: a matrix of the
      transposed shape (the same shape, for the square matrices it is
      given). */
  ghost predicate InverseShape(inverse: Matrix -> Result<Matrix, string>)
  {
    forall a {:trigger inverse(a)} :: inverse(a).Success? ==>
      var v := inverse(a).value;
      Shaped(v) && v.width == a.height && v.height == a.width
  }

  /** ... and that the result is a right inverse. */
  ghost predicate InverseLaw(inverse: Matrix -> Result<Matrix, string>)
  {
    forall a {:trigger inverse(a)} :: inverse(a).Success? ==>
      var v := inverse(a).value;
      Shaped(v) && v.width == a.height && v.height == a.width && IsIdentity(Mul(a, v), a.height)
  }

  /** `mat64.NewDense(r, c, vals)`: r rows of c entries. */
  function NewDense(r: nat, c: nat, vals: seq<real>): Matrix
  {
    Matrix(vals, c, r)
  }

  /** The copy loop of `pinv`: entry (y, x) of a w-row, h-column matrix
      into slot y * h + x. */
  function Relayout(out2: Matrix, w: nat, h: nat): (vals: seq<real>)
    ensures |vals| == w * h
  {
    seq(w * h, p requires 0 <= p < w * h =>
      SlotDecode(p, h, w);
      Get(out2, p / h, p % h))
  }

  /** Copying a w-row, h-column matrix entry by entry reproduces its
      storage. */
  lemma RelayoutIsCopy(a: Matrix, w: nat, h: nat)
    requires Shaped(a) && a.width == h && a.height == w
    ensures Relayout(a, w, h) == a.vals
  {
    forall p | 0 <= p < w * h
      ensures Relayout(a, w, h)[p] == a.vals[p]
    {
      SlotDecode(p, h, w);
      assert p == p % h + p / h * h;
    }
  }

  /** `pinv(m, t)`: T is read with m's shape transposed; M * T is inverted
      by the foreign `Inverse`, and T * (M * T)^-1 is returned as an
      m.width-row, m.height-column matrix. */
  function Pinv(m: Matrix, t: Matrix, inverse: Matrix -> Result<Matrix, string>): (r: Result<Matrix, PinvError>)
    requires InverseShape(inverse)
    ensures r == Failure(DimensionMismatch) <==> !Shaped(m) || |t.vals| != m.width * m.height
    ensures Shaped(m) && |t.vals| == m.width * m.height ==>
      (r.Failure? <==> inverse(Mul(m, NewDense(m.width, m.height, t.vals))).Failure?)
    ensures r.Success? ==> Shaped(r.value) && r.value.width == m.height && r.value.height == m.width
  {
    if |m.vals| != m.height * m.width || |t.vals| != m.width * m.height then Failure(DimensionMismatch)
    else
      var gm := NewDense(m.height, m.width, m.vals);
      var gmt := NewDense(m.width, m.height, t.vals);
      var out1 := Mul(gm, gmt);
      match inverse(out1)
      case Failure(e) => Failure(NotInvertible(e))
      case Success(inv) =>
        var out2 := Mul(gmt, inv);
        Success(Matrix(Relayout(out2, m.width, m.height), m.height, m.width))
  }

  /** When the inverse is exact, `pinv(m, t)` is a right inverse of m:
      m * pinv(m, t) = (m * t) * (m * t)^-1 = identity, whatever t is. */
  lemma PinvIsRightInverse(m: Matrix, t: Matrix, inverse: Matrix -> Result<Matrix, string>)
    requires InverseShape(inverse) && InverseLaw(inverse)
    requires Pinv(m, t, inverse).Success?
    ensures IsIdentity(Mul(m, Pinv(m, t, inverse).value), m.height)
  {
    var gmt := NewDense(m.width, m.height, t.vals);
    var out1 := Mul(m, gmt);
    var inv := inverse(out1).value;
    var out2 := Mul(gmt, inv);
    RelayoutIsCopy(out2, m.width, m.height);
    assert Pinv(m, t, inverse).value == out2;
    forall y, x | 0 <= y < m.height && 0 <= x < m.height
      ensures Get(Mul(m, out2), y, x) == if y == x then 1.0 else 0.0
    {
      MulAssoc(m, gmt, inv, y, x);
    }
  }

  /** `mat.VecMult(v, a, out)` for an out of length n: entry x is v, read
      as a row, times column x of a. */
  function VecMult(v: seq<real>, a: Matrix, n: nat): (out: seq<real>)
    ensures |out| == n
  {
    seq(n, x => Dot(Matrix(v, |v|, 1), a, 0, x, |v|))
  }

  /** `PennaCoeffs`: the directions and radii of the samples, the design
      matrix M, and the coefficients rs * pinv(M, M^T). The trig loop reads
      ys[i] and zs[i] for every i below len(xs), so shorter y or z slices
      panic there. Otherwise it fails exactly when M * M^T cannot be
      inverted, and returns I*J*K coefficients. */
  method PennaCoeffs(fns: Fns, inverse: Matrix -> Result<Matrix, string>, xs: seq<real>, ys: seq<real>, zs: seq<real>, I: nat, J: nat, K: nat)
    returns (res: Result<seq<real>, PennaError>)
    requires SqrtLaw(fns.sqrt) && InverseShape(inverse)
    requires forall n :: 0 <= n < |xs| && n < |ys| ==> 0.0 < Sq(xs[n]) + Sq(ys[n])
    ensures res == Failure(IndexOutOfRange) <==> |ys| < |xs| || |zs| < |xs|
    ensures res.Success? ==> |res.value| == I * J * K
    ensures res.Failure? && res.error != IndexOutOfRange ==> res.error.PinvFailed? && res.error.cause.NotInvertible?
    ensures |xs| <= |ys| && |xs| <= |zs| ==>
      var M := DesignMatrix(Directions(fns, xs, ys, zs), I, J, K);
      (res.Failure? <==> inverse(Mul(M, Transpose(M))).Failure?)
  {
    if |ys| < |xs| || |zs| < |xs| {
      return Failure(IndexOutOfRange);
    }
    var ts := Directions(fns, xs, ys, zs);
    var rs := Radii(fns, xs, ys, zs);
    var mvals, _ := FillDesign(ts, I, J, K);
    var M := Matrix(mvals, |rs|, I * J * K);
    var p := Pinv(M, Transpose(M), inverse);
    assert NewDense(M.width, M.height, Transpose(M).vals) == Transpose(M);
    if p.Failure? {
      return Failure(PinvFailed(p.error));
    }
    return Success(VecMult(rs, p.value, I * J * K));
  }
}
