/** `SphereHalo`: a halo made of rings of lines of sight around an origin.
    Particles are spheres; inserting one records, for each ring whose plane
    cuts it, the radial interval along each affected line. The profile
    rings and rotation matrices are collaborators whose internals are not
    part of this model: they enter as the operation records `ProfileOps`
    and `Geometry`, and insertion is recorded as the list of
    `ProfileRing.Insert` calls it makes. */
module SphereHalo {
  import opened RealMath
  import opened GoNum
  import opened Periodic
  import opened RingGeometry
  import opened Results

  datatype Vec2 = Vec2(x: real, y: real)

  /** One halo, generic in the profile-ring type P and the rotation type R. */
  datatype Halo<P, R> = Halo(
    origin: Vec3,
    rMin: real, rMax: real,
    rings: int, bins: int, n: int,
    ringVecs: seq<Vec2>,
    ringPhis: seq<real>,
    dPhi: real,
    rots: seq<R>,
    norms: seq<Vec3>,
    profs: seq<P>)

  /** `los.ProfileRing`: `Init(lo, hi, bins, n)`, `p.Split(&q)` (new p and
      new q) and `p.Join(&q)` (new p), plus the mass it holds, which is
      only used to state what splitting and joining promise. */
  datatype ProfileOps<!P> = ProfileOps(
    init: (real, real, int, int) -> P,
    split: (P, P) -> (P, P),
    join: (P, P) -> P,
    mass: P -> real)

  /** `geom.EulerMatrixBetweenAt(norm, zAxis)` and `Vec.Rotate`. */
  datatype Geometry<!R> = Geometry(between: Vec3 -> R, rotate: (R, Vec3) -> Vec3)

  /** Splitting a ring moves mass between the two rings without creating
      or destroying any. */
  ghost predicate SplitConserves<P(!new)>(ops: ProfileOps<P>)
  {
    forall p: P, q: P {:trigger ops.split(p, q)} ::
      ops.mass(ops.split(p, q).0) + ops.mass(ops.split(p, q).1) == ops.mass(p)
  }

  /** Joining a ring into another adds their masses. */
  ghost predicate JoinAdds<P(!new)>(ops: ProfileOps<P>)
  {
    forall p: P, q: P {:trigger ops.join(p, q)} :: ops.mass(ops.join(p, q)) == ops.mass(p) + ops.mass(q)
  }

  /** Each ring's rotation carries its normal onto the z axis, so the z
      coordinate of a rotated vector is its component along the normal. */
  ghost predicate RotatesOntoZ<P, R>(h: Halo<P, R>, geo: Geometry<R>)
  {
    forall ring: int, v: Vec3 {:trigger geo.rotate(h.rots[ring], v)} ::
      0 <= ring < |h.rots| && ring < |h.norms| ==> geo.rotate(h.rots[ring], v).z == Dot(h.norms[ring], v)
  }

  /** The shape `Init` establishes: one profile and one rotation per
      normal, n lines per ring and the angular step 2 Pi / n. */
  predicate Valid<P, R>(h: Halo<P, R>)
  {
    && 1 <= h.n
    && h.rings == |h.norms| && |h.profs| == h.rings && |h.rots| == h.rings
    && |h.ringPhis| == h.n && |h.ringVecs| == h.n
    && h.dPhi == 1.0 / h.n as real * (2.0 * Pi)
    && 0.0 < h.dPhi
  }

  /** Angle of line i of n. */
  function LinePhi(i: int, n: int): real
    requires 1 <= n
  {
    i as real / n as real * (2.0 * Pi)
  }

  /** `Init`: one profile ring over [log rMin, log rMax] and one rotation
      per normal, line i at angle 2 Pi i / n with direction (cos, sin). */
  function Init<P, R>(norms: seq<Vec3>, origin: Vec3, rMin: real, rMax: real, bins: int, n: int,
                      fns: Fns, ops: ProfileOps<P>, geo: Geometry<R>): (h: Halo<P, R>)
    requires 1 <= n
    ensures Valid(h)
    ensures h.origin == origin && h.rMin == rMin && h.rMax == rMax && h.norms == norms
    ensures h.rings == |norms| && h.bins == bins && h.n == n
    ensures forall i :: 0 <= i < |norms| ==>
      h.profs[i] == ops.init(fns.log(rMin), fns.log(rMax), bins, n) && h.rots[i] == geo.between(norms[i])
    ensures forall i :: 0 <= i < n ==>
      h.ringPhis[i] == LinePhi(i, n) && h.ringVecs[i] == Vec2(fns.cos(LinePhi(i, n)), fns.sin(LinePhi(i, n)))
  {
    var phis := seq(n, i requires 0 <= i < n => LinePhi(i, n));
    Halo(origin, rMin, rMax, |norms|, bins, n,
         seq(n, i requires 0 <= i < n => Vec2(fns.cos(phis[i]), fns.sin(phis[i]))),
         phis,
         1.0 / n as real * (2.0 * Pi),
         seq(|norms|, i requires 0 <= i < |norms| => geo.between(norms[i])),
         norms,
         seq(|norms|, i requires 0 <= i < |norms| => ops.init(fns.log(rMin), fns.log(rMax), bins, n)))
  }

  /** Line angles start at 0, are dPhi apart and stay below 2 Pi. */
  lemma InitLinesEquallySpaced(n: int, i: int)
    requires 1 <= n
    requires 0 <= i < n
    ensures LinePhi(i, n) == i as real * (1.0 / n as real * (2.0 * Pi))
    ensures 0.0 <= LinePhi(i, n) < 2.0 * Pi
    ensures LinePhi(i + 1, n) == LinePhi(i, n) + 1.0 / n as real * (2.0 * Pi)
    ensures LinePhi(0, n) == 0.0
  {
    var m := n as real;
    var k := i as real;
    assert k / m == k * (1.0 / m);
    assert (k + 1.0) / m == k / m + 1.0 / m;
    assert k / m < 1.0;
  }

  /** The angle of every line of n lies in the line it names: the index
      `int(phi / dPhi)` of an angle in [0, 2 Pi) is a line whose angle is at
      most phi and less than one step below it. */
  lemma LineOfAngle(n: int, phi: real)
    requires 1 <= n
    requires 0.0 <= phi < 2.0 * Pi
    ensures var k := Trunc(phi / (1.0 / n as real * (2.0 * Pi)));
      && 0 <= k < n
      && LinePhi(k, n) <= phi < LinePhi(k, n) + 1.0 / n as real * (2.0 * Pi)
  {
    var dPhi := 1.0 / n as real * (2.0 * Pi);
    LineIndexBound(n, phi);
    InitLinesEquallySpaced(n, Trunc(phi / dPhi));
    TruncSteps(phi, dPhi);
  }

  /** The line index of an angle in [0, 2 Pi) is in [0, n). */
  lemma LineIndexBound(n: int, phi: real)
    requires 1 <= n
    requires 0.0 <= phi < 2.0 * Pi
    ensures 0 <= Trunc(phi / (1.0 / n as real * (2.0 * Pi))) < n
  {
    var dPhi := 1.0 / n as real * (2.0 * Pi);
    var x := phi / dPhi;
    assert n as real * dPhi == 2.0 * Pi;
    assert x * dPhi == phi;
    if n as real <= x {
      assert n as real * dPhi <= x * dPhi;
    }
    TruncNonnegIsFloor(x, n);
    TruncNonnegIsFloor(x, 0);
  }

  /** Halo shapes `Split` and `Join` compare. */
  predicate SizeMismatch<P, R>(h: Halo<P, R>, hi: Halo<P, R>)
  {
    h.rings != hi.rings || h.bins != hi.bins || h.n != hi.n
  }

  /** One copy after the non-profile part of `Split`: re-initialised from
      h when its size differs, otherwise given h's normals, rotations,
      origin and radii. */
  function SplitBase<P, R>(h: Halo<P, R>, hi: Halo<P, R>, fns: Fns, ops: ProfileOps<P>, geo: Geometry<R>): (b: Halo<P, R>)
    requires Valid(h)
    requires |hi.profs| == hi.rings
    ensures |b.profs| == h.rings && !SizeMismatch(h, b)
  {
    if SizeMismatch(h, hi) then Init(h.norms, h.origin, h.rMin, h.rMax, h.bins, h.n, fns, ops, geo)
    else hi.(norms := h.norms, rots := h.rots, origin := h.origin, rMin := h.rMin, rMax := h.rMax)
  }

  /** `h.profs[r].Split(&hi.profs[r])` for every ring r. */
  function SplitOne<P, R>(h: Halo<P, R>, hi: Halo<P, R>, fns: Fns, ops: ProfileOps<P>, geo: Geometry<R>): (res: (Halo<P, R>, Halo<P, R>))
    requires Valid(h)
    requires |hi.profs| == hi.rings
    ensures Valid(res.0) && res.0 == h.(profs := res.0.profs)
    ensures res.1 == SplitBase(h, hi, fns, ops, geo).(profs := res.1.profs) && |res.1.profs| == h.rings
    ensures forall r :: 0 <= r < h.rings ==>
      (res.0.profs[r], res.1.profs[r]) == ops.split(h.profs[r], SplitBase(h, hi, fns, ops, geo).profs[r])
  {
    var base := SplitBase(h, hi, fns, ops, geo);
    var pairs := seq(h.rings, r requires 0 <= r < h.rings => ops.split(h.profs[r], base.profs[r]));
    (h.(profs := seq(h.rings, r requires 0 <= r < h.rings => pairs[r].0)),
     base.(profs := seq(h.rings, r requires 0 <= r < h.rings => pairs[r].1)))
  }

  /** `Split`: for every copy in order, size it like h and split each of
      h's profile rings into it. Returns the new h and the new copies. */
  function Split<P, R>(h: Halo<P, R>, hs: seq<Halo<P, R>>, fns: Fns, ops: ProfileOps<P>, geo: Geometry<R>): (res: (Halo<P, R>, seq<Halo<P, R>>))
    requires Valid(h)
    requires forall i :: 0 <= i < |hs| ==> |hs[i].profs| == hs[i].rings
    ensures Valid(res.0) && res.0 == h.(profs := res.0.profs)
    ensures |res.1| == |hs|
    ensures forall i :: 0 <= i < |hs| ==> SplitCopy(h, hs[i], res.1[i], fns, ops, geo)
    decreases |hs|
  {
    if |hs| == 0 then (h, [])
    else
      var one := SplitOne(h, hs[0], fns, ops, geo);
      var rest := Split(one.0, hs[1..], fns, ops, geo);
      SplitCopiesOf(h, one.0, hs, one.1, rest.1, fns, ops, geo);
      (rest.0, [one.1] + rest.1)
  }

  /** What copy `out` of `hi` is after a split from h: it has h's size,
      normals, origin and radii; a copy of a different size is
      re-initialised from h, and any other keeps its own fields but takes
      h's normals, rotations, origin and radii. */
  ghost predicate SplitCopy<P, R>(h: Halo<P, R>, hi: Halo<P, R>, out: Halo<P, R>, fns: Fns, ops: ProfileOps<P>, geo: Geometry<R>)
    requires Valid(h)
  {
    && !SizeMismatch(h, out) && |out.profs| == h.rings
    && out.norms == h.norms && out.origin == h.origin
    && out.rMin == h.rMin && out.rMax == h.rMax
    && (!SizeMismatch(h, hi) ==> out == hi.(norms := h.norms, rots := h.rots, origin := h.origin, rMin := h.rMin, rMax := h.rMax, profs := out.profs))
    && (SizeMismatch(h, hi) ==> out == Init(h.norms, h.origin, h.rMin, h.rMax, h.bins, h.n, fns, ops, geo).(profs := out.profs))
  }

  /** The copies split from h, with the first split off by `SplitOne` and
      the rest from h1, which differs from h only in its profiles. */
  lemma SplitCopiesOf<P, R>(h: Halo<P, R>, h1: Halo<P, R>, hs: seq<Halo<P, R>>, first: Halo<P, R>, rest: seq<Halo<P, R>>,
                            fns: Fns, ops: ProfileOps<P>, geo: Geometry<R>)
    requires Valid(h) && Valid(h1) && h1 == h.(profs := h1.profs)
    requires |hs| == |rest| + 1 && |hs[0].profs| == hs[0].rings
    requires first == SplitBase(h, hs[0], fns, ops, geo).(profs := first.profs) && |first.profs| == h.rings
    requires forall i :: 0 <= i < |rest| ==> SplitCopy(h1, hs[1..][i], rest[i], fns, ops, geo)
    ensures forall i :: 0 <= i < |hs| ==> SplitCopy(h, hs[i], ([first] + rest)[i], fns, ops, geo)
  {
    forall i | 0 <= i < |hs|
      ensures SplitCopy(h, hs[i], ([first] + rest)[i], fns, ops, geo)
    {
      if i > 0 {
        assert hs[1..][i - 1] == hs[i];
        assert SplitCopy(h1, hs[i], rest[i - 1], fns, ops, geo);
      }
    }
  }

  /** Total mass of ring r over the copies hs; a copy without ring r
      contributes nothing. */
  function CopiesMass<P, R>(ops: ProfileOps<P>, hs: seq<Halo<P, R>>, r: int): real
  {
    if |hs| == 0 then 0.0
    else (if 0 <= r < |hs[0].profs| then ops.mass(hs[0].profs[r]) else 0.0) + CopiesMass(ops, hs[1..], r)
  }

  /** The promise of `Split`: the mass of every ring in h and all the copies
      together equals the mass the ring held in h before. */
  lemma {:induction false} SplitConservesMass<P(!new), R>(h: Halo<P, R>, hs: seq<Halo<P, R>>, fns: Fns, ops: ProfileOps<P>, geo: Geometry<R>, r: int)
    requires Valid(h)
    requires forall i :: 0 <= i < |hs| ==> |hs[i].profs| == hs[i].rings
    requires SplitConserves(ops)
    requires 0 <= r < h.rings
    ensures var res := Split(h, hs, fns, ops, geo);
      ops.mass(res.0.profs[r]) + CopiesMass(ops, res.1, r) == ops.mass(h.profs[r])
    decreases |hs|
  {
    var res := Split(h, hs, fns, ops, geo);
    if |hs| > 0 {
      var one := SplitOne(h, hs[0], fns, ops, geo);
      var rest := Split(one.0, hs[1..], fns, ops, geo);
      SplitConservesMass(one.0, hs[1..], fns, ops, geo, r);
      assert res.1[1..] == rest.1;
      var base := SplitBase(h, hs[0], fns, ops, geo);
      assert (one.0.profs[r], one.1.profs[r]) == ops.split(h.profs[r], base.profs[r]);
    }
  }

  /** `Join` from copy i on, into the current h. */
  function JoinFrom<P, R>(h: Halo<P, R>, hs: seq<Halo<P, R>>, ops: ProfileOps<P>, i: int): (res: Result<Halo<P, R>, int>)
    requires |h.profs| == h.rings
    requires forall j :: 0 <= j < |hs| ==> |hs[j].profs| == hs[j].rings
    requires 0 <= i <= |hs|
    ensures res.Failure? <==> exists j :: i <= j < |hs| && SizeMismatch(h, hs[j])
    ensures res.Failure? ==>
      && i <= res.error < |hs| && SizeMismatch(h, hs[res.error])
      && forall j :: i <= j < res.error ==> !SizeMismatch(h, hs[j])
    ensures res.Success? ==> res.value == h.(profs := res.value.profs) && |res.value.profs| == h.rings
    decreases |hs| - i
  {
    if i == |hs| then Success(h)
    else if SizeMismatch(h, hs[i]) then Failure(i)
    else JoinFrom(h.(profs := seq(h.rings, r requires 0 <= r < h.rings => ops.join(h.profs[r], hs[i].profs[r]))), hs, ops, i + 1)
  }

  /** `Join`: fails with the index of the first copy whose size differs
      from h's (the original panics with that index); otherwise joins every
      copy's rings into h's, in order. */
  function Join<P, R>(h: Halo<P, R>, hs: seq<Halo<P, R>>, ops: ProfileOps<P>): (res: Result<Halo<P, R>, int>)
    requires |h.profs| == h.rings
    requires forall j :: 0 <= j < |hs| ==> |hs[j].profs| == hs[j].rings
    ensures res.Failure? <==> exists j :: 0 <= j < |hs| && SizeMismatch(h, hs[j])
    ensures res.Failure? ==>
      && 0 <= res.error < |hs| && SizeMismatch(h, hs[res.error])
      && forall j :: 0 <= j < res.error ==> !SizeMismatch(h, hs[j])
    ensures res.Success? ==> res.value == h.(profs := res.value.profs) && |res.value.profs| == h.rings
  {
    JoinFrom(h, hs, ops, 0)
  }

  /** The promise of `Join`: after a successful join every ring of h holds
      its own mass plus that ring's mass in every copy. */
  lemma JoinAddsMass<P(!new), R>(h: Halo<P, R>, hs: seq<Halo<P, R>>, ops: ProfileOps<P>, r: int)
    requires |h.profs| == h.rings
    requires forall j :: 0 <= j < |hs| ==> |hs[j].profs| == hs[j].rings
    requires JoinAdds(ops)
    requires 0 <= r < h.rings
    ensures Join(h, hs, ops).Success? ==>
      ops.mass(Join(h, hs, ops).value.profs[r]) == ops.mass(h.profs[r]) + CopiesMass(ops, hs, r)
  {
    if Join(h, hs, ops).Success? {
      JoinFromAddsMass(h, hs, ops, r, 0);
      assert hs[0..] == hs;
    }
  }

  lemma {:induction false} JoinFromAddsMass<P(!new), R>(h: Halo<P, R>, hs: seq<Halo<P, R>>, ops: ProfileOps<P>, r: int, i: int)
    requires |h.profs| == h.rings
    requires forall j :: 0 <= j < |hs| ==> |hs[j].profs| == hs[j].rings
    requires JoinAdds(ops)
    requires 0 <= r < h.rings
    requires 0 <= i <= |hs|
    requires JoinFrom(h, hs, ops, i).Success?
    ensures ops.mass(JoinFrom(h, hs, ops, i).value.profs[r]) == ops.mass(h.profs[r]) + CopiesMass(ops, hs[i..], r)
    decreases |hs| - i
  {
    if i < |hs| {
      var h1 := h.(profs := seq(h.rings, q requires 0 <= q < h.rings => ops.join(h.profs[q], hs[i].profs[q])));
      JoinFromAddsMass(h1, hs, ops, r, i + 1);
      assert hs[i..][1..] == hs[i + 1..];
    }
  }

  /** `Intersect`: every point, taken as a sphere of radius r, is tested
      against the shell [rMin, rMax] widened by r, on squared distances
      from the origin; the squared lower bound is 0 once rMin + r <= 0. The
      original panics when the output buffer length differs. */
  function Intersect<P, R>(h: Halo<P, R>, vecs: seq<Vec3>, r: real, intr: seq<bool>): (res: Result<seq<bool>, string>)
    ensures res.Failure? <==> |intr| != |vecs|
    ensures res.Success? ==> |res.value| == |vecs|
  {
    var rMin, rMax := h.rMin + r, h.rMax + r;
    var rMin2 := if rMin <= 0.0 then 0.0 else rMin * rMin;
    var rMax2 := rMax * rMax;
    if |intr| != |vecs| then Failure("len(intr) != len(vecs)")
    else Success(seq(|vecs|, i requires 0 <= i < |vecs| =>
      var r2 := Norm2(Sub(vecs[i], h.origin));
      r2 > rMin2 && r2 < rMax2))
  }

  function MaxReal(a: real, b: real): real
  {
    if a < b then b else a
  }

  /** In terms of distances: a point is flagged exactly when its distance
      from the origin lies strictly between max(rMin + r, 0) and
      |rMax + r|. */
  lemma IntersectIsShell<P, R>(h: Halo<P, R>, vecs: seq<Vec3>, r: real, intr: seq<bool>, sqrt: real -> real, i: int)
    requires SqrtLaw(sqrt)
    requires |intr| == |vecs|
    requires 0 <= i < |vecs|
    ensures var d := sqrt(Norm2(Sub(vecs[i], h.origin)));
      Intersect(h, vecs, r, intr).value[i] <==>
        MaxReal(h.rMin + r, 0.0) < d < AbsReal(h.rMax + r)
  {
    var v := Sub(vecs[i], h.origin);
    var r2 := Norm2(v);
    assert 0.0 <= r2 by { assert r2 == v.x * v.x + v.y * v.y + v.z * v.z; }
    var d := sqrt(r2);
    assert d * d == r2 && 0.0 <= d;
    var lo := h.rMin + r;
    if 0.0 < lo {
      SquareLess(lo, d);
    } else {
      SquareLess(0.0, d);
    }
    SquareLess(d, AbsReal(h.rMax + r));
    assert AbsReal(h.rMax + r) * AbsReal(h.rMax + r) == (h.rMax + r) * (h.rMax + r);
  }

  /** For non-negative reals, comparing squares compares the values. */
  lemma SquareLess(a: real, b: real)
    requires 0.0 <= a && 0.0 <= b
    ensures a * a < b * b <==> a < b
  {
    assert b * b - a * a == (b - a) * (b + a);
    if a < b {
      PositiveProduct(b - a, b + a);
    } else {
      NonNegativeProduct(a - b, b + a);
    }
  }

  /** `Transform`: every point is moved to its periodic image next to the
      halo's origin, in a box of width totalWidth. */
  function Transform<P, R>(h: Halo<P, R>, vecs: seq<Vec3>, totalWidth: real): (out: seq<Vec3>)
    ensures |out| == |vecs|
  {
    WrapAll(vecs, h.origin, totalWidth)
  }

  /** Points within one and a half boxes of the origin end up within half
      a box of it, each coordinate moved by -w, +w or not at all, and
      transforming them twice changes nothing more. */
  lemma TransformIsMinimumImage<P, R>(h: Halo<P, R>, vecs: seq<Vec3>, w: real)
    requires 0.0 < w
    requires forall i :: 0 <= i < |vecs| ==> InReach(vecs[i], h.origin, w)
    ensures forall i :: 0 <= i < |vecs| ==>
      var d := Sub(Transform(h, vecs, w)[i], h.origin);
      -w / 2.0 <= d.x <= w / 2.0 && -w / 2.0 <= d.y <= w / 2.0 && -w / 2.0 <= d.z <= w / 2.0
    ensures forall i :: 0 <= i < |vecs| ==> Transform(h, vecs, w)[i] == Wrap(vecs[i], h.origin, w)
    ensures Transform(h, Transform(h, vecs, w), w) == Transform(h, vecs, w)
  {
    WrapAllIsMinimumImage(vecs, h.origin, w);
  }

  /** The lower end of a radial interval handed to a profile ring: either
      minus infinity (the line starts inside the particle) or a log radius. */
  datatype Bound = NegInf | Finite(v: real)

  /** One call `profs[ring].Insert(lo, hi, rho, line)`. */
  datatype InsertEvent = InsertEvent(ring: int, line: int, lo: Bound, hi: real, rho: real)

  /** Two half-open index ranges [lo1, hi1) and [lo2, hi2) of lines. */
  datatype Ranges = Ranges(lo1: int, hi1: int, lo2: int, hi2: int)

  predicate InRanges(rg: Ranges, k: int)
  {
    rg.lo1 <= k < rg.hi1 || rg.lo2 <= k < rg.hi2
  }

  /** `sphereIntersectRing`: the sphere's centre v lies strictly less than
      one radius from the ring's plane, measured along its normal. */
  function SphereIntersectRing<P, R>(h: Halo<P, R>, v: Vec3, radius: real, ring: int): bool
    requires 0 <= ring < |h.norms|
  {
    var dot := Dot(h.norms[ring], v);
    dot < radius && dot > -radius
  }

  /** A ring is hit exactly when the radius is positive and the squared
      distance of the centre from the plane is below the squared radius. */
  lemma SphereIntersectRingIsDistance<P, R>(h: Halo<P, R>, v: Vec3, radius: real, ring: int)
    requires 0 <= ring < |h.norms|
    ensures var dot := Dot(h.norms[ring], v);
      SphereIntersectRing(h, v, radius, ring) <==> 0.0 < radius && dot * dot < radius * radius
  {
    var dot := Dot(h.norms[ring], v);
    if 0.0 < radius {
      SquareLess(AbsReal(dot), radius);
      assert AbsReal(dot) * AbsReal(dot) == dot * dot;
    } else {
      NonNegativeProduct(-radius, -radius);
      NonNegativeProduct(AbsReal(dot), AbsReal(dot));
      assert AbsReal(dot) * AbsReal(dot) == dot * dot;
    }
  }

  /** `idxRange(phiHi, phiLo)` as written, with the step dPhi of n lines. */
  function IdxRange(n: int, dPhi: real, phiHi: real, phiLo: real): Ranges
    requires dPhi != 0.0
  {
    if phiHi > 2.0 * Pi then
      Ranges(Trunc(phiLo / dPhi), n, 0, Trunc((phiHi - 2.0 * Pi) / dPhi) + 1)
    else if phiLo < 0.0 then
      Ranges(Trunc((phiLo + 2.0 * Pi) / dPhi), n, 0, Trunc(phiHi / dPhi) + 1)
    else
      Ranges(Trunc(phiLo / dPhi), Trunc(phiLo / dPhi) + 1, 0, 0)
  }

  /** An angle phi on the arc from phiStart to phiEnd, allowing one turn
      either way. */
  predicate OnArc(phi: real, phiStart: real, phiEnd: real)
  {
    || phiStart <= phi <= phiEnd
    || phiStart <= phi + 2.0 * Pi <= phiEnd
    || phiStart <= phi - 2.0 * Pi <= phiEnd
  }

  /** As written, the non-wrapping case covers exactly one line, whatever
      the width of the arc. */
  lemma IdxRangeNonWrapOneLine(n: int, dPhi: real, phiHi: real, phiLo: real)
    requires dPhi != 0.0
    requires phiHi <= 2.0 * Pi && 0.0 <= phiLo
    ensures var rg := IdxRange(n, dPhi, phiHi, phiLo);
      rg.hi1 == rg.lo1 + 1 && rg.lo2 == rg.hi2 == 0
      && forall k :: InRanges(rg, k) <==> k == rg.lo1
  {
  }

  /** With four lines a circle seen over the arc [1.0, 3.2] is crossed by
      line 1 (at Pi/2), but `idxRange(phiStart, phiEnd)` names line 2 only. */
  lemma IdxRangeMissesLine()
    ensures OnArc(LinePhi(1, 4), 1.0, 3.2)
    ensures var rg := IdxRange(4, 1.0 / 4.0 * (2.0 * Pi), 1.0, 3.2);
      rg == Ranges(2, 3, 0, 0) && !InRanges(rg, 1)
  {
    var dPhi := 1.0 / 4.0 * (2.0 * Pi);
    assert 2.0 <= 3.2 / dPhi < 3.0;
    TruncNonnegIsFloor(3.2 / dPhi, 2);
    TruncNonnegIsFloor(3.2 / dPhi, 3);
  }

  /** As called from `insertToRing`, with phiStart as phiHi and phiEnd as
      phiLo, the ranges stay inside the ring's lines for every arc the
      call can produce. */
  lemma IdxRangeInLines(n: int, phiStart: real, phiEnd: real)
    requires 1 <= n
    requires phiStart <= phiEnd
    requires phiStart <= Pi && -Pi < phiEnd <= 3.0 * Pi / 2.0
    ensures var rg := IdxRange(n, 1.0 / n as real * (2.0 * Pi), phiStart, phiEnd);
      0 <= rg.lo1 && rg.hi1 <= n && 0 <= rg.lo2 && rg.hi2 <= n
  {
    var dPhi := 1.0 / n as real * (2.0 * Pi);
    if phiEnd < 0.0 {
      LineIndexBound(n, phiEnd + 2.0 * Pi);
      TruncSpec(phiStart / dPhi);
    } else {
      LineIndexBound(n, phiEnd);
    }
  }

  /** Corrected `idxRange`: the lines whose angular bin, the angles from
      the line up to the next one, meets the arc from phiStart to phiEnd.
      An arc that crosses angle 0 is split into a run up to line n and a
      run from line 0; an arc wholly below angle 0 is moved up by one
      turn. */
  function ArcRange(n: int, dPhi: real, phiStart: real, phiEnd: real): Ranges
    requires dPhi != 0.0
  {
    if phiEnd < 0.0 then
      Ranges(Trunc((phiStart + 2.0 * Pi) / dPhi), Trunc((phiEnd + 2.0 * Pi) / dPhi) + 1, 0, 0)
    else if phiStart < 0.0 then
      Ranges(Trunc((phiStart + 2.0 * Pi) / dPhi), n, 0, Trunc(phiEnd / dPhi) + 1)
    else
      Ranges(Trunc(phiStart / dPhi), Trunc(phiEnd / dPhi) + 1, 0, 0)
  }

  /** The angles from lo up to hi meet the arc from phiStart to phiEnd,
      allowing one turn either way. */
  predicate SpanMeetsArc(lo: real, hi: real, phiStart: real, phiEnd: real)
  {
    || (phiStart < hi && lo <= phiEnd)
    || (phiStart < hi - 2.0 * Pi && lo - 2.0 * Pi <= phiEnd)
    || (phiStart < hi + 2.0 * Pi && lo + 2.0 * Pi <= phiEnd)
  }

  /** Bin k, the angles from k steps of d up to k + 1 steps, meets the
      arc. */
  predicate BinMeetsArc(k: int, d: real, phiStart: real, phiEnd: real)
  {
    SpanMeetsArc(k as real * d, (k + 1) as real * d, phiStart, phiEnd)
  }

  /** For an arc within one turn of angle 0, both corrected runs name lines
      of the ring. */
  lemma ArcRangeInLines(n: int, phiStart: real, phiEnd: real)
    requires 1 <= n
    requires -2.0 * Pi < phiStart <= phiEnd < 2.0 * Pi
    ensures var rg := ArcRange(n, 1.0 / n as real * (2.0 * Pi), phiStart, phiEnd);
      0 <= rg.lo1 && rg.hi1 <= n && 0 <= rg.lo2 && rg.hi2 <= n
  {
    if phiEnd < 0.0 {
      LineIndexBound(n, phiStart + 2.0 * Pi);
      LineIndexBound(n, phiEnd + 2.0 * Pi);
    } else if phiStart < 0.0 {
      LineIndexBound(n, phiStart + 2.0 * Pi);
      LineIndexBound(n, phiEnd);
    } else {
      LineIndexBound(n, phiStart);
      LineIndexBound(n, phiEnd);
    }
  }

  /** A line is in one of the corrected runs exactly when its bin meets
      the arc. */
  lemma ArcRangeExact(n: int, phiStart: real, phiEnd: real, k: int)
    requires 1 <= n
    requires -2.0 * Pi < phiStart <= phiEnd < 2.0 * Pi
    requires 0 <= k < n
    ensures var d := 1.0 / n as real * (2.0 * Pi);
      InRanges(ArcRange(n, d, phiStart, phiEnd), k) <==> BinMeetsArc(k, d, phiStart, phiEnd)
  {
    var d := 1.0 / n as real * (2.0 * Pi);
    assert n as real * d == 2.0 * Pi;
    ArcRangeExactStep(n, d, phiStart, phiEnd, k);
  }

  /** `ArcRangeExact` for any positive step d with n steps in a turn. */
  lemma ArcRangeExactStep(n: int, d: real, phiStart: real, phiEnd: real, k: int)
    requires 0.0 < d && 1 <= n && n as real * d == 2.0 * Pi
    requires -2.0 * Pi < phiStart <= phiEnd < 2.0 * Pi
    requires 0 <= k < n
    ensures InRanges(ArcRange(n, d, phiStart, phiEnd), k) <==> BinMeetsArc(k, d, phiStart, phiEnd)
  {
    var lo := k as real * d;
    var hi := (k + 1) as real * d;
    BinBounds(k, n, d);
    if phiEnd < 0.0 {
      RunsBelowZero(n, d, phiStart, phiEnd, k, lo, hi);
    } else if phiStart < 0.0 {
      RunsAcrossZero(n, d, phiStart, phiEnd, k, lo, hi);
    } else {
      RunsAboveZero(n, d, phiStart, phiEnd, k, lo, hi);
    }
  }

  /** Bin k of n, in steps of d with n steps in a turn, lies within the
      turn. */
  lemma BinBounds(k: int, n: int, d: real)
    requires 0.0 < d && n as real * d == 2.0 * Pi
    requires 0 <= k < n
    ensures 0.0 <= k as real * d < (k + 1) as real * d <= 2.0 * Pi
  {
    StepsOrder(0, k, d);
    StepsOrder(k + 1, n, d);
    StepAfter(k, d);
  }

  /** How the bounds of the single run for an arc wholly below angle 0
      compare with line k, whose bin is [lo, hi). */
  lemma RunsBelowZero(n: int, d: real, phiStart: real, phiEnd: real, k: int, lo: real, hi: real)
    requires 0.0 < d && -2.0 * Pi < phiStart <= phiEnd < 0.0
    requires 0 <= k < n && 0.0 <= lo < hi <= 2.0 * Pi
    requires lo == k as real * d && hi == (k + 1) as real * d
    ensures InRanges(ArcRange(n, d, phiStart, phiEnd), k) <==> SpanMeetsArc(lo, hi, phiStart, phiEnd)
  {
    var t1 := TruncAtMost(phiStart + 2.0 * Pi, k, d);
    var t2 := TruncAtLeast(phiEnd + 2.0 * Pi, k, d);
    RunsMeetSpan(ArcRange(n, d, phiStart, phiEnd), k, n, lo, hi, phiStart, phiEnd);
  }

  /** How the bounds of the two runs for an arc across angle 0 compare
      with line k, whose bin is [lo, hi). */
  lemma RunsAcrossZero(n: int, d: real, phiStart: real, phiEnd: real, k: int, lo: real, hi: real)
    requires 0.0 < d && -2.0 * Pi < phiStart < 0.0 <= phiEnd < 2.0 * Pi
    requires 0 <= k < n && 0.0 <= lo < hi <= 2.0 * Pi
    requires lo == k as real * d && hi == (k + 1) as real * d
    ensures InRanges(ArcRange(n, d, phiStart, phiEnd), k) <==> SpanMeetsArc(lo, hi, phiStart, phiEnd)
  {
    var t1 := TruncAtMost(phiStart + 2.0 * Pi, k, d);
    var t2 := TruncAtLeast(phiEnd, k, d);
    RunsMeetSpan(ArcRange(n, d, phiStart, phiEnd), k, n, lo, hi, phiStart, phiEnd);
  }

  /** How the bounds of the single run for an arc from angle 0 upward
      compare with line k, whose bin is [lo, hi). */
  lemma RunsAboveZero(n: int, d: real, phiStart: real, phiEnd: real, k: int, lo: real, hi: real)
    requires 0.0 < d && 0.0 <= phiStart <= phiEnd < 2.0 * Pi
    requires 0 <= k < n && 0.0 <= lo < hi <= 2.0 * Pi
    requires lo == k as real * d && hi == (k + 1) as real * d
    ensures InRanges(ArcRange(n, d, phiStart, phiEnd), k) <==> SpanMeetsArc(lo, hi, phiStart, phiEnd)
  {
    var t1 := TruncAtMost(phiStart, k, d);
    var t2 := TruncAtLeast(phiEnd, k, d);
    RunsMeetSpan(ArcRange(n, d, phiStart, phiEnd), k, n, lo, hi, phiStart, phiEnd);
  }

  /** The case analysis behind `ArcRangeExactStep`, for the bin [lo, hi)
      of line k given how each bound of the runs compares with k. */
  lemma RunsMeetSpan(rg: Ranges, k: int, n: int, lo: real, hi: real, phiStart: real, phiEnd: real)
    requires 0 <= k < n && 0.0 <= lo < hi <= 2.0 * Pi
    requires -2.0 * Pi < phiStart <= phiEnd < 2.0 * Pi
    requires phiEnd < 0.0 ==>
      && rg.lo2 == 0 && rg.hi2 == 0
      && (rg.lo1 <= k <==> phiStart + 2.0 * Pi < hi) && (k < rg.hi1 <==> lo <= phiEnd + 2.0 * Pi)
    requires phiStart < 0.0 <= phiEnd ==>
      && rg.hi1 == n && rg.lo2 == 0
      && (rg.lo1 <= k <==> phiStart + 2.0 * Pi < hi) && (k < rg.hi2 <==> lo <= phiEnd)
    requires 0.0 <= phiStart ==>
      && rg.lo2 == 0 && rg.hi2 == 0
      && (rg.lo1 <= k <==> phiStart < hi) && (k < rg.hi1 <==> lo <= phiEnd)
    ensures InRanges(rg, k) <==> SpanMeetsArc(lo, hi, phiStart, phiEnd)
  {
  }

  /** Whole steps of a positive width keep the order of their counts. */
  lemma StepsOrder(a: int, b: int, d: real)
    requires 0.0 < d
    ensures a <= b <==> a as real * d <= b as real * d
  {
    assert b as real * d - a as real * d == (b - a) as real * d;
  }

  lemma StepAfter(k: int, d: real)
    ensures (k + 1) as real * d == k as real * d + d
  {
  }

  /** The run starting at `int(x / d)` reaches step k exactly when x lies
      below step k + 1. */
  lemma TruncAtMost(x: real, k: int, d: real) returns (t: int)
    requires 0.0 < d && 0.0 <= x
    ensures t == Trunc(x / d)
    ensures t <= k <==> x < (k + 1) as real * d
  {
    t := Trunc(x / d);
    TruncSteps(x, d);
    StepOfPoint(t, k + 1, x, d);
  }

  /** The run ending after `int(x / d)` reaches step k exactly when step k
      is at most x. */
  lemma TruncAtLeast(x: real, k: int, d: real) returns (t: int)
    requires 0.0 < d && 0.0 <= x
    ensures t == Trunc(x / d)
    ensures k <= t <==> k as real * d <= x
  {
    t := Trunc(x / d);
    TruncSteps(x, d);
    StepOfPoint(t, k, x, d);
  }

  /** For x in step t of width d, step k starts at or below x exactly when
      k is at most t. */
  lemma StepOfPoint(t: int, k: int, x: real, d: real)
    requires 0.0 < d && t as real * d <= x < t as real * d + d
    ensures k <= t <==> k as real * d <= x
  {
    if k <= t {
      StepsOrder(k, t, d);
      assert k as real * d <= t as real * d;
    } else {
      StepsOrder(t + 1, k, d);
      StepAfter(t, d);
      assert t as real * d + d <= k as real * d;
    }
  }

  /** A corrected run starts at the line whose bin holds phiStart, and that
      line can lie below the arc: with four lines the arc [0.7, 1.3] gets
      the run of line 0 alone, at angle 0, off the arc. */
  lemma ArcRangeFirstLineOffArc()
    ensures ArcRange(4, 1.0 / 4.0 * (2.0 * Pi), 0.7, 1.3) == Ranges(0, 1, 0, 0)
    ensures !OnArc(LinePhi(0, 4), 0.7, 1.3)
  {
    var d := 1.0 / 4.0 * (2.0 * Pi);
    assert 0.7 / d < 1.0 && 1.3 / d < 1.0;
    TruncNonnegIsFloor(0.7 / d, 0);
    TruncNonnegIsFloor(0.7 / d, 1);
    TruncNonnegIsFloor(1.3 / d, 0);
    TruncNonnegIsFloor(1.3 / d, 1);
  }

  /** Every line whose angle lies on the arc is in one of the corrected
      runs. */
  lemma ArcRangeCovers(n: int, phiStart: real, phiEnd: real, k: int)
    requires 1 <= n
    requires -2.0 * Pi < phiStart <= phiEnd < 2.0 * Pi
    requires 0 <= k < n
    requires OnArc(LinePhi(k, n), phiStart, phiEnd)
    ensures InRanges(ArcRange(n, 1.0 / n as real * (2.0 * Pi), phiStart, phiEnd), k)
  {
    var d := 1.0 / n as real * (2.0 * Pi);
    InitLinesEquallySpaced(n, k);
    LineOnArcMeetsBin(k, d, LinePhi(k, n), phiStart, phiEnd);
    ArcRangeExact(n, phiStart, phiEnd, k);
  }

  /** A line at angle phi, k steps of d, that lies on the arc has its bin
      meeting the arc. */
  lemma LineOnArcMeetsBin(k: int, d: real, phi: real, phiStart: real, phiEnd: real)
    requires 0.0 < d && phi == k as real * d
    requires OnArc(phi, phiStart, phiEnd)
    ensures BinMeetsArc(k, d, phiStart, phiEnd)
  {
    StepAfter(k, d);
    OnArcMeetsSpan(phi, d, phiStart, phiEnd);
  }

  /** An angle on the arc puts the span of width d starting at it on the
      arc too. */
  lemma OnArcMeetsSpan(phi: real, d: real, phiStart: real, phiEnd: real)
    requires 0.0 < d && OnArc(phi, phiStart, phiEnd)
    ensures SpanMeetsArc(phi, phi + d, phiStart, phiEnd)
  {
  }

  /** Which geometry insertion uses: the source's `oneValIntrDist`,
      `twoValIntrDist` and `idxRange(phiStart, phiEnd)`, or the corrected
      `ExitDist`, `ChordDists` and `ArcRange`. */
  datatype Variant = AsWritten | Corrected

  /** Radius at which a line leaves a circle containing the centre. */
  function ExitRadius(variant: Variant, sqrt: real -> real, dist2: real, rad2: real, b: real): real
  {
    match variant
    case AsWritten => OneValIntrDist(sqrt, dist2, rad2, b)
    case Corrected => ExitDist(sqrt, dist2, rad2, b)
  }

  /** Radii at which a line enters and leaves a circle off the centre. */
  function ChordRadii(variant: Variant, sqrt: real -> real, dist2: real, rad2: real, b: real): (real, real)
  {
    match variant
    case AsWritten => TwoValIntrDist(sqrt, dist2, rad2, b)
    case Corrected => ChordDists(sqrt, dist2, rad2, b)
  }

  /** The runs of lines given the arc from phiStart to phiEnd; as written,
      `idxRange` receives phiStart as its phiHi and phiEnd as its phiLo. */
  function LineRanges(variant: Variant, n: int, dPhi: real, phiStart: real, phiEnd: real): Ranges
    requires dPhi != 0.0
  {
    match variant
    case AsWritten => IdxRange(n, dPhi, phiStart, phiEnd)
    case Corrected => ArcRange(n, dPhi, phiStart, phiEnd)
  }

  /** The particle centre after the ring's rotation: its x and y lie in the
      ring's plane, its z along the normal. */
  function Rotated<P, R>(h: Halo<P, R>, geo: Geometry<R>, v: Vec3, ring: int): Vec3
    requires 0 <= ring < |h.rots|
  {
    geo.rotate(h.rots[ring], v)
  }

  /** Squared distance of the projected circle's centre from the ring's
      centre. */
  function ProjDist2(c: Vec3): real
  {
    c.x * c.x + c.y * c.y
  }

  /** Squared radius of the circle the ring's plane cuts from the sphere. */
  function ProjRad2(c: Vec3, radius: real): real
  {
    radius * radius - c.z * c.z
  }

  /** `b`: the projection of the circle's centre on the direction of a
      line. */
  function LineB(c: Vec3, u: Vec2): real
  {
    c.x * u.x + c.y * u.y
  }

  /** The circle contains the ring's centre: every line gets an interval
      from minus infinity to the log of its exit radius. */
  function CentreEvents<P, R>(h: Halo<P, R>, c: Vec3, radius: real, rho: real, ring: int, fns: Fns, variant: Variant): seq<InsertEvent>
    requires Valid(h)
  {
    seq(h.n, i requires 0 <= i < h.n =>
      InsertEvent(ring, i, NegInf,
        fns.log(ExitRadius(variant, fns.sqrt, ProjDist2(c), ProjRad2(c, radius), LineB(c, h.ringVecs[i]))), rho))
  }

  /** The circle lies off the centre: line i gets the interval between the
      logs of its two chord radii. */
  function ChordEvent<P, R>(h: Halo<P, R>, c: Vec3, radius: real, rho: real, ring: int, fns: Fns, variant: Variant, i: int): InsertEvent
    requires Valid(h)
    requires 0 <= i < h.n
  {
    var d := ChordRadii(variant, fns.sqrt, ProjDist2(c), ProjRad2(c, radius), LineB(c, h.ringVecs[i]));
    InsertEvent(ring, i, Finite(fns.log(d.0)), fns.log(d.1), rho)
  }

  /** The chord events of the lines lo, lo + 1, ..., hi - 1. */
  function RunEvents<P, R>(h: Halo<P, R>, c: Vec3, radius: real, rho: real, ring: int, fns: Fns, variant: Variant, lo: int, hi: int): (evs: seq<InsertEvent>)
    requires Valid(h)
    requires 0 <= lo && hi <= h.n
    ensures |evs| == if lo < hi then hi - lo else 0
    ensures forall j :: 0 <= j < |evs| ==> evs[j] == ChordEvent(h, c, radius, rho, ring, fns, variant, lo + j)
  {
    if hi <= lo then [] else seq(hi - lo, j requires 0 <= j < hi - lo => ChordEvent(h, c, radius, rho, ring, fns, variant, lo + j))
  }

  /** The angular extent [projPhi - alpha, projPhi + alpha] of a circle off
      the centre, seen from the centre: at most half a turn wide, starting
      at most at Pi and ending in (-Pi, 3 Pi / 2]. */
  function ArcOf(fns: Fns, c: Vec3, radius: real): (arc: (real, real))
    requires SqrtLaw(fns.sqrt) && AngleLaw(fns.asin, fns.atan2)
    requires 0.0 < ProjRad2(c, radius) <= ProjDist2(c)
    ensures arc.0 <= arc.1 <= arc.0 + Pi
    ensures -3.0 * Pi / 2.0 <= arc.0 <= Pi && -Pi < arc.1 <= 3.0 * Pi / 2.0
  {
    var alpha := HalfAngularWidth(fns, ProjDist2(c), ProjRad2(c, radius));
    HalfAngularWidthRange(fns, ProjDist2(c), ProjRad2(c, radius));
    var projPhi := fns.atan2(c.y, c.x);
    (projPhi - alpha, projPhi + alpha)
  }

  /** Both variants' runs stay inside the ring's lines for every arc a
      circle off the centre can have. */
  lemma LineRangesInLines(variant: Variant, n: int, arc: (real, real))
    requires 1 <= n
    requires arc.0 <= arc.1 <= arc.0 + Pi
    requires -3.0 * Pi / 2.0 <= arc.0 <= Pi && -Pi < arc.1 <= 3.0 * Pi / 2.0
    ensures var rg := LineRanges(variant, n, 1.0 / n as real * (2.0 * Pi), arc.0, arc.1);
      0 <= rg.lo1 && rg.hi1 <= n && 0 <= rg.lo2 && rg.hi2 <= n
  {
    match variant
    case AsWritten => IdxRangeInLines(n, arc.0, arc.1);
    case Corrected => ArcRangeInLines(n, arc.0, arc.1);
  }

  /** `insertToRing`: the profile-ring insertions one particle makes in one
      ring. The caller guarantees that the ring's plane cuts the sphere. */
  function InsertToRing<P, R>(h: Halo<P, R>, v: Vec3, radius: real, rho: real, ring: int, fns: Fns, geo: Geometry<R>, variant: Variant): (evs: seq<InsertEvent>)
    requires Valid(h) && 0 <= ring < h.rings
    requires SqrtLaw(fns.sqrt) && AngleLaw(fns.asin, fns.atan2)
    requires 0.0 < ProjRad2(Rotated(h, geo, v, ring), radius)
    ensures forall j :: 0 <= j < |evs| ==> evs[j].ring == ring && evs[j].rho == rho && 0 <= evs[j].line < h.n
  {
    var c := Rotated(h, geo, v, ring);
    if ProjRad2(c, radius) > ProjDist2(c) then CentreEvents(h, c, radius, rho, ring, fns, variant)
    else
      var arc := ArcOf(fns, c, radius);
      LineRangesInLines(variant, h.n, arc);
      var rg := LineRanges(variant, h.n, h.dPhi, arc.0, arc.1);
      RunEvents(h, c, radius, rho, ring, fns, variant, rg.lo1, rg.hi1) + RunEvents(h, c, radius, rho, ring, fns, variant, rg.lo2, rg.hi2)
  }

  /** When the circle contains the centre, each line i gets exactly one
      insertion, the i-th, from minus infinity to the log of its exit
      radius. With the corrected radius, that radius is where the line
      leaves the circle, and the only non-negative distance on it. */
  lemma InsertToRingContainsCentre<P, R>(h: Halo<P, R>, v: Vec3, radius: real, rho: real, ring: int, fns: Fns, geo: Geometry<R>, variant: Variant, i: int, t: real)
    requires Valid(h) && 0 <= ring < h.rings
    requires SqrtLaw(fns.sqrt) && AngleLaw(fns.asin, fns.atan2) && ExpLaw(fns.exp, fns.log)
    requires var c := Rotated(h, geo, v, ring); ProjDist2(c) < ProjRad2(c, radius)
    requires 0 <= i < h.n
    ensures var evs := InsertToRing(h, v, radius, rho, ring, fns, geo, variant);
      var c := Rotated(h, geo, v, ring);
      var b := LineB(c, h.ringVecs[i]);
      && |evs| == h.n
      && evs[i] == InsertEvent(ring, i, NegInf, fns.log(ExitRadius(variant, fns.sqrt, ProjDist2(c), ProjRad2(c, radius), b)), rho)
      && (variant == Corrected ==>
            && 0.0 < fns.exp(evs[i].hi)
            && OnCircle(fns.exp(evs[i].hi), ProjDist2(c), ProjRad2(c, radius), b)
            && (0.0 <= t && OnCircle(t, ProjDist2(c), ProjRad2(c, radius), b) ==> t == fns.exp(evs[i].hi)))
  {
    var c := Rotated(h, geo, v, ring);
    var b := LineB(c, h.ringVecs[i]);
    if variant == Corrected {
      assert 0.0 <= ProjDist2(c) by { NonNegativeProduct(AbsReal(c.x), AbsReal(c.x)); NonNegativeProduct(AbsReal(c.y), AbsReal(c.y)); }
      ExitDistIsExit(fns.sqrt, ProjDist2(c), ProjRad2(c, radius), b, t);
    }
  }

  /** Off the centre the insertions are the two runs of chord events, both
      inside the ring's lines. */
  lemma OffCentreRuns<P, R>(h: Halo<P, R>, v: Vec3, radius: real, rho: real, ring: int, fns: Fns, geo: Geometry<R>, variant: Variant)
    requires Valid(h) && 0 <= ring < h.rings
    requires SqrtLaw(fns.sqrt) && AngleLaw(fns.asin, fns.atan2)
    requires var c := Rotated(h, geo, v, ring); 0.0 < ProjRad2(c, radius) <= ProjDist2(c)
    ensures var c := Rotated(h, geo, v, ring);
      var arc := ArcOf(fns, c, radius);
      var rg := LineRanges(variant, h.n, h.dPhi, arc.0, arc.1);
      && 0 <= rg.lo1 && rg.hi1 <= h.n && 0 <= rg.lo2 && rg.hi2 <= h.n
      && InsertToRing(h, v, radius, rho, ring, fns, geo, variant) ==
           RunEvents(h, c, radius, rho, ring, fns, variant, rg.lo1, rg.hi1) + RunEvents(h, c, radius, rho, ring, fns, variant, rg.lo2, rg.hi2)
  {
    LineRangesInLines(variant, h.n, ArcOf(fns, Rotated(h, geo, v, ring), radius));
  }

  /** Off the centre every insertion has a finite lower end, and a line
      receives one exactly when its index lies in one of the two runs. */
  lemma InsertToRingOffCentre<P, R>(h: Halo<P, R>, v: Vec3, radius: real, rho: real, ring: int, fns: Fns, geo: Geometry<R>, variant: Variant, k: int)
    requires Valid(h) && 0 <= ring < h.rings
    requires SqrtLaw(fns.sqrt) && AngleLaw(fns.asin, fns.atan2)
    requires var c := Rotated(h, geo, v, ring); 0.0 < ProjRad2(c, radius) <= ProjDist2(c)
    ensures var evs := InsertToRing(h, v, radius, rho, ring, fns, geo, variant);
      var arc := ArcOf(fns, Rotated(h, geo, v, ring), radius);
      && (forall j :: 0 <= j < |evs| ==> evs[j].lo.Finite?)
      && ((exists j :: 0 <= j < |evs| && evs[j].line == k) <==> InRanges(LineRanges(variant, h.n, h.dPhi, arc.0, arc.1), k))
  {
    var c := Rotated(h, geo, v, ring);
    var arc := ArcOf(fns, c, radius);
    var rg := LineRanges(variant, h.n, h.dPhi, arc.0, arc.1);
    OffCentreRuns(h, v, radius, rho, ring, fns, geo, variant);
    TwoRuns(h, c, radius, rho, ring, fns, variant, rg, k);
    TwoRunsChords(h, c, radius, rho, ring, fns, variant, rg);
  }

  /** In the two runs of chord events line k appears exactly when it lies
      in one of the runs. */
  lemma TwoRuns<P, R>(h: Halo<P, R>, c: Vec3, radius: real, rho: real, ring: int, fns: Fns, variant: Variant, rg: Ranges, k: int)
    requires Valid(h)
    requires 0 <= rg.lo1 && rg.hi1 <= h.n && 0 <= rg.lo2 && rg.hi2 <= h.n
    ensures var evs := RunEvents(h, c, radius, rho, ring, fns, variant, rg.lo1, rg.hi1) + RunEvents(h, c, radius, rho, ring, fns, variant, rg.lo2, rg.hi2);
      (exists j :: 0 <= j < |evs| && evs[j].line == k) <==> InRanges(rg, k)
  {
    var run1 := RunEvents(h, c, radius, rho, ring, fns, variant, rg.lo1, rg.hi1);
    var run2 := RunEvents(h, c, radius, rho, ring, fns, variant, rg.lo2, rg.hi2);
    assert RunOfLines(run1, rg.lo1, rg.hi1);
    assert RunOfLines(run2, rg.lo2, rg.hi2);
    RunsOfLines(run1, run2, rg, k);
  }

  /** The events name the lines lo, lo + 1, ... up to hi, one each. */
  predicate RunOfLines(evs: seq<InsertEvent>, lo: int, hi: int)
  {
    && |evs| == (if lo < hi then hi - lo else 0)
    && forall j :: 0 <= j < |evs| ==> evs[j].line == lo + j
  }

  /** Two runs of events name line k exactly when k is in one of their
      ranges. */
  lemma RunsOfLines(run1: seq<InsertEvent>, run2: seq<InsertEvent>, rg: Ranges, k: int)
    requires RunOfLines(run1, rg.lo1, rg.hi1) && RunOfLines(run2, rg.lo2, rg.hi2)
    ensures var evs := run1 + run2;
      (exists j :: 0 <= j < |evs| && evs[j].line == k) <==> InRanges(rg, k)
  {
    var evs := run1 + run2;
    if InRanges(rg, k) {
      if rg.lo1 <= k < rg.hi1 {
        assert evs[k - rg.lo1].line == k;
      } else {
        assert evs[|run1| + (k - rg.lo2)].line == k;
      }
    }
    forall j | 0 <= j < |evs|
      ensures InRanges(rg, evs[j].line)
    {
      if j < |run1| {
        assert evs[j] == run1[j];
      } else {
        assert evs[j] == run2[j - |run1|];
      }
    }
  }

  /** Every event of the two runs is the chord event of its own line. */
  lemma TwoRunsChords<P, R>(h: Halo<P, R>, c: Vec3, radius: real, rho: real, ring: int, fns: Fns, variant: Variant, rg: Ranges)
    requires Valid(h)
    requires 0 <= rg.lo1 && rg.hi1 <= h.n && 0 <= rg.lo2 && rg.hi2 <= h.n
    ensures var evs := RunEvents(h, c, radius, rho, ring, fns, variant, rg.lo1, rg.hi1) + RunEvents(h, c, radius, rho, ring, fns, variant, rg.lo2, rg.hi2);
      forall j :: 0 <= j < |evs| ==> evs[j] == ChordEvent(h, c, radius, rho, ring, fns, variant, evs[j].line)
  {
    var run1 := RunEvents(h, c, radius, rho, ring, fns, variant, rg.lo1, rg.hi1);
    var run2 := RunEvents(h, c, radius, rho, ring, fns, variant, rg.lo2, rg.hi2);
    var evs: seq<InsertEvent> := run1 + run2;
    forall j | 0 <= j < |evs|
      ensures evs[j] == ChordEvent(h, c, radius, rho, ring, fns, variant, evs[j].line)
    {
      if j < |run1| {
        assert evs[j] == run1[j];
      } else {
        assert evs[j] == run2[j - |run1|];
      }
    }
  }

  /** With the corrected arc, a line receives an insertion exactly when its
      angular bin meets the circle's angular extent; in particular every
      line whose angle lies on that extent receives one. */
  lemma CorrectedInsertCoversArc<P, R>(h: Halo<P, R>, v: Vec3, radius: real, rho: real, ring: int, fns: Fns, geo: Geometry<R>, k: int)
    requires Valid(h) && 0 <= ring < h.rings
    requires SqrtLaw(fns.sqrt) && AngleLaw(fns.asin, fns.atan2)
    requires var c := Rotated(h, geo, v, ring); 0.0 < ProjRad2(c, radius) <= ProjDist2(c)
    requires 0 <= k < h.n
    ensures var evs := InsertToRing(h, v, radius, rho, ring, fns, geo, Corrected);
      var arc := ArcOf(fns, Rotated(h, geo, v, ring), radius);
      && ((exists j :: 0 <= j < |evs| && evs[j].line == k) <==> BinMeetsArc(k, h.dPhi, arc.0, arc.1))
      && (OnArc(LinePhi(k, h.n), arc.0, arc.1) ==> exists j :: 0 <= j < |evs| && evs[j].line == k)
  {
    var arc := ArcOf(fns, Rotated(h, geo, v, ring), radius);
    InsertToRingOffCentre(h, v, radius, rho, ring, fns, geo, Corrected, k);
    ArcRangeExact(h.n, arc.0, arc.1, k);
    if OnArc(LinePhi(k, h.n), arc.0, arc.1) {
      ArcRangeCovers(h.n, arc.0, arc.1, k);
    }
  }

  /** Off the centre, each insertion is the chord event of its own line. */
  lemma InsertToRingChords<P, R>(h: Halo<P, R>, v: Vec3, radius: real, rho: real, ring: int, fns: Fns, geo: Geometry<R>, variant: Variant)
    requires Valid(h) && 0 <= ring < h.rings
    requires SqrtLaw(fns.sqrt) && AngleLaw(fns.asin, fns.atan2)
    requires var c := Rotated(h, geo, v, ring); 0.0 < ProjRad2(c, radius) <= ProjDist2(c)
    ensures var evs := InsertToRing(h, v, radius, rho, ring, fns, geo, variant);
      forall j :: 0 <= j < |evs| ==> evs[j] == ChordEvent(h, Rotated(h, geo, v, ring), radius, rho, ring, fns, variant, evs[j].line)
  {
    var c := Rotated(h, geo, v, ring);
    var arc := ArcOf(fns, c, radius);
    var rg := LineRanges(variant, h.n, h.dPhi, arc.0, arc.1);
    OffCentreRuns(h, v, radius, rho, ring, fns, geo, variant);
    TwoRunsChords(h, c, radius, rho, ring, fns, variant, rg);
  }

  /** A corrected chord event whose line crosses the circle ahead of the
      centre has the logs of the two crossing distances as its ends. */
  lemma ChordEventSpansChord<P, R>(h: Halo<P, R>, c: Vec3, radius: real, rho: real, ring: int, fns: Fns, i: int, t: real)
    requires Valid(h) && 0 <= i < h.n
    requires SqrtLaw(fns.sqrt) && ExpLaw(fns.exp, fns.log)
    ensures var e := ChordEvent(h, c, radius, rho, ring, fns, Corrected, i);
      var b := LineB(c, h.ringVecs[i]);
      var d := ChordDists(fns.sqrt, ProjDist2(c), ProjRad2(c, radius), b);
      0.0 <= ProjRad2(c, radius) - ProjDist2(c) + b * b && 0.0 < d.0 ==>
        && e.lo.Finite? && fns.exp(e.lo.v) == d.0 && fns.exp(e.hi) == d.1
        && (OnCircle(t, ProjDist2(c), ProjRad2(c, radius), b) <==> t == fns.exp(e.lo.v) || t == fns.exp(e.hi))
  {
    var b := LineB(c, h.ringVecs[i]);
    if 0.0 <= ProjRad2(c, radius) - ProjDist2(c) + b * b {
      ChordDistsAreIntersections(fns.sqrt, ProjDist2(c), ProjRad2(c, radius), b, t);
    }
  }

  /** The hit test and the rotation agree: a ring whose plane passes within
      one radius of the centre cuts a circle of positive radius. */
  lemma HitCutsCircle<P, R>(h: Halo<P, R>, v: Vec3, radius: real, ring: int, geo: Geometry<R>)
    requires Valid(h) && 0 <= ring < h.rings
    requires RotatesOntoZ(h, geo)
    requires SphereIntersectRing(h, v, radius, ring)
    ensures 0.0 < ProjRad2(Rotated(h, geo, v, ring), radius)
  {
    SphereIntersectRingIsDistance(h, v, radius, ring);
    assert Rotated(h, geo, v, ring).z == Dot(h.norms[ring], v);
  }

  /** The insertions into one ring: `insertToRing` when the particle
      touches the ring's plane, none otherwise. */
  function RingInsert<P, R>(h: Halo<P, R>, v: Vec3, radius: real, rho: real, fns: Fns, geo: Geometry<R>, variant: Variant, ring: int): (evs: seq<InsertEvent>)
    requires Valid(h) && 0 <= ring < h.rings
    requires SqrtLaw(fns.sqrt) && AngleLaw(fns.asin, fns.atan2) && RotatesOntoZ(h, geo)
    ensures forall j :: 0 <= j < |evs| ==>
      && evs[j].ring == ring && SphereIntersectRing(h, v, radius, ring)
      && 0 <= evs[j].line < h.n && evs[j].rho == rho
  {
    if SphereIntersectRing(h, v, radius, ring) then
      HitCutsCircle(h, v, radius, ring, geo);
      InsertToRing(h, v, radius, rho, ring, fns, geo, variant)
    else []
  }

  /** Blocks of insertions, one after another. */
  function Concat(blocks: seq<seq<InsertEvent>>): seq<InsertEvent>
  {
    if |blocks| == 0 then [] else blocks[0] + Concat(blocks[1..])
  }

  /** The insertion e is one of the blocks' entries. */
  predicate InBlocks(e: InsertEvent, blocks: seq<seq<InsertEvent>>)
  {
    exists q, i :: 0 <= q < |blocks| && 0 <= i < |blocks[q]| && e == blocks[q][i]
  }

  /** Every insertion of a concatenation comes from one of the blocks. */
  lemma {:induction false} ConcatMembers(blocks: seq<seq<InsertEvent>>)
    ensures forall j :: 0 <= j < |Concat(blocks)| ==> InBlocks(Concat(blocks)[j], blocks)
  {
    if |blocks| > 0 {
      var rest := Concat(blocks[1..]);
      assert Concat(blocks) == blocks[0] + rest;
      ConcatMembers(blocks[1..]);
      forall j | 0 <= j < |Concat(blocks)|
        ensures InBlocks(Concat(blocks)[j], blocks)
      {
        if j < |blocks[0]| {
          assert Concat(blocks)[j] == blocks[0][j];
        } else {
          assert InBlocks(rest[j - |blocks[0]|], blocks[1..]);
          var q, i :| 0 <= q < |blocks[1..]| && 0 <= i < |blocks[1..][q]| && rest[j - |blocks[0]|] == blocks[1..][q][i];
          assert blocks[1..][q] == blocks[q + 1];
          assert Concat(blocks)[j] == blocks[q + 1][i];
        }
      }
    }
  }

  /** The insertions of every ring, in ring order. */
  function RingBlocks<P, R>(h: Halo<P, R>, v: Vec3, radius: real, rho: real, fns: Fns, geo: Geometry<R>, variant: Variant): (blocks: seq<seq<InsertEvent>>)
    requires Valid(h)
    requires SqrtLaw(fns.sqrt) && AngleLaw(fns.asin, fns.atan2) && RotatesOntoZ(h, geo)
    ensures |blocks| == h.rings
    ensures forall q :: 0 <= q < h.rings ==> blocks[q] == RingInsert(h, v, radius, rho, fns, geo, variant, q)
    ensures forall q, j :: 0 <= q < h.rings && 0 <= j < |blocks[q]| ==> blocks[q][j].ring == q
  {
    seq(h.rings, q requires 0 <= q < h.rings => RingInsert(h, v, radius, rho, fns, geo, variant, q))
  }

  /** `Insert`: the particle at vec is taken relative to the origin and
      inserted into every ring whose plane it touches, in ring order. */
  function Insert<P, R>(h: Halo<P, R>, vec: Vec3, radius: real, rho: real, fns: Fns, geo: Geometry<R>, variant: Variant): (evs: seq<InsertEvent>)
    requires Valid(h)
    requires SqrtLaw(fns.sqrt) && AngleLaw(fns.asin, fns.atan2) && RotatesOntoZ(h, geo)
    ensures forall j :: 0 <= j < |evs| ==>
      && 0 <= evs[j].ring < h.rings && SphereIntersectRing(h, Sub(vec, h.origin), radius, evs[j].ring)
      && 0 <= evs[j].line < h.n && evs[j].rho == rho
  {
    var blocks := RingBlocks(h, Sub(vec, h.origin), radius, rho, fns, geo, variant);
    ConcatMembers(blocks);
    Concat(blocks)
  }

  /** The insertions addressed to ring r, in order. */
  function RingEvents(evs: seq<InsertEvent>, r: int): seq<InsertEvent>
  {
    if |evs| == 0 then []
    else (if evs[0].ring == r then [evs[0]] else []) + RingEvents(evs[1..], r)
  }

  lemma {:induction false} RingEventsAppend(a: seq<InsertEvent>, b: seq<InsertEvent>, r: int)
    ensures RingEvents(a + b, r) == RingEvents(a, r) + RingEvents(b, r)
  {
    if |a| > 0 {
      assert (a + b)[1..] == a[1..] + b;
      RingEventsAppend(a[1..], b, r);
    } else {
      assert a + b == b;
    }
  }

  /** Filtering a list of insertions that all address one ring. */
  lemma {:induction false} RingEventsUniform(evs: seq<InsertEvent>, q: int, r: int)
    requires forall j :: 0 <= j < |evs| ==> evs[j].ring == q
    ensures RingEvents(evs, r) == if q == r then evs else []
  {
    if |evs| > 0 {
      RingEventsUniform(evs[1..], q, r);
      if q == r {
        assert [evs[0]] + evs[1..] == evs;
      }
    }
  }

  /** Filtering a block of insertions for one ring followed by the rest. */
  lemma RingEventsBlock(here: seq<InsertEvent>, rest: seq<InsertEvent>, q: int, r: int)
    requires forall j :: 0 <= j < |here| ==> here[j].ring == q
    ensures RingEvents(here + rest, r) == (if q == r then here else []) + RingEvents(rest, r)
  {
    RingEventsAppend(here, rest, r);
    RingEventsUniform(here, q, r);
  }

  /** Each ring receives exactly the insertions `insertToRing` makes for it
      when the particle touches its plane, and nothing otherwise. */
  lemma InsertRingEvents<P, R>(h: Halo<P, R>, vec: Vec3, radius: real, rho: real, fns: Fns, geo: Geometry<R>, variant: Variant, r: int)
    requires Valid(h)
    requires SqrtLaw(fns.sqrt) && AngleLaw(fns.asin, fns.atan2) && RotatesOntoZ(h, geo)
    ensures RingEvents(Insert(h, vec, radius, rho, fns, geo, variant), r) ==
      if 0 <= r < h.rings then RingInsert(h, Sub(vec, h.origin), radius, rho, fns, geo, variant, r) else []
  {
    var blocks := RingBlocks(h, Sub(vec, h.origin), radius, rho, fns, geo, variant);
    BlocksRingEvents(blocks, h.rings, r);
  }

  /** Filtering ring-ordered blocks for ring r gives the block of ring r. */
  lemma BlocksRingEvents(blocks: seq<seq<InsertEvent>>, rings: int, r: int)
    requires |blocks| == rings
    requires forall q, j :: 0 <= q < rings && 0 <= j < |blocks[q]| ==> blocks[q][j].ring == q
    ensures RingEvents(Concat(blocks), r) == if 0 <= r < rings then blocks[r] else []
  {
    assert forall q, j :: 0 <= q < |blocks| && 0 <= j < |blocks[q]| ==> blocks[q][j].ring == 0 + q;
    ConcatRingEvents(blocks, 0, r);
  }

  /** Filtering blocks whose q-th block addresses ring base + q picks out
      the block of ring r. */
  lemma {:induction false} ConcatRingEvents(blocks: seq<seq<InsertEvent>>, base: int, r: int)
    requires forall q, j :: 0 <= q < |blocks| && 0 <= j < |blocks[q]| ==> blocks[q][j].ring == base + q
    ensures RingEvents(Concat(blocks), r) == if base <= r < base + |blocks| then blocks[r - base] else []
  {
    if |blocks| > 0 {
      RingEventsBlock(blocks[0], Concat(blocks[1..]), base, r);
      ConcatRingEvents(blocks[1..], base + 1, r);
    }
  }
}
