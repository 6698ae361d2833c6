/** Points in the periodic simulation box and the minimum-image rule that
    moves a coordinate by one box width toward a reference point. Both the
    halo frame (`SphereHalo.Transform`), the spherical profile
    (`sphericalProfile.transform`) and `wrapDist` use this one rule. */
module Periodic {

  datatype Vec3 = Vec3(x: real, y: real, z: real)

  function Sub(a: Vec3, b: Vec3): Vec3
  {
    Vec3(a.x - b.x, a.y - b.y, a.z - b.z)
  }

  function Dot(a: Vec3, b: Vec3): real
  {
    a.x * b.x + a.y * b.y + a.z * b.z
  }

  function Norm2(a: Vec3): real
  {
    Dot(a, a)
  }

  /** One coordinate v, seen from the reference coordinate o in a box of
      width w: moved down by w when it lies more than half a box above o,
      up by w when more than half a box below, untouched otherwise. */
  function WrapCoord(v: real, o: real, w: real): (r: real)
    ensures v - o > w / 2.0 ==> r == v - w
    ensures v - o < -w / 2.0 && !(v - o > w / 2.0) ==> r == v + w
    ensures -w / 2.0 <= v - o <= w / 2.0 ==> r == v
  {
    if v - o > w / 2.0 then v - w
    else if v - o < -w / 2.0 then v + w
    else v
  }

  /** The wrap applied to each coordinate of a point. */
  function Wrap(v: Vec3, o: Vec3, w: real): Vec3
  {
    Vec3(WrapCoord(v.x, o.x, w), WrapCoord(v.y, o.y, w), WrapCoord(v.z, o.z, w))
  }

  /** `wrapDist`: the signed offset x1 - x2 folded by one box width. */
  function WrapDist(x1: real, x2: real, w: real): (d: real)
    ensures d == WrapCoord(x1, x2, w) - x2
  {
    var dist := x1 - x2;
    if dist > w / 2.0 then dist - w
    else if dist < w / -2.0 then dist + w
    else dist
  }

  /** Within one and a half boxes of the reference, the wrapped offset is a
      minimum image: it lies in [-w/2, w/2], and it differs from the
      original by a whole number of box widths. */
  lemma WrapCoordIsMinimumImage(v: real, o: real, w: real)
    requires 0.0 < w
    requires -3.0 * w / 2.0 < v - o < 3.0 * w / 2.0
    ensures -w / 2.0 <= WrapCoord(v, o, w) - o <= w / 2.0
    ensures WrapCoord(v, o, w) - v in {-w, 0.0, w}
  {
  }

  /** Wrapping a coordinate already in its minimum image changes nothing,
      so applying the transform twice is the same as applying it once. */
  lemma WrapCoordIdempotent(v: real, o: real, w: real)
    requires 0.0 < w
    requires -3.0 * w / 2.0 < v - o < 3.0 * w / 2.0
    ensures WrapCoord(WrapCoord(v, o, w), o, w) == WrapCoord(v, o, w)
  {
    WrapCoordIsMinimumImage(v, o, w);
  }

  /** The point-wise wrap, lifted: every coordinate ends in its minimum
      image and the whole transform is idempotent. */
  lemma WrapIsMinimumImage(v: Vec3, o: Vec3, w: real)
    requires 0.0 < w
    requires -3.0 * w / 2.0 < v.x - o.x < 3.0 * w / 2.0
    requires -3.0 * w / 2.0 < v.y - o.y < 3.0 * w / 2.0
    requires -3.0 * w / 2.0 < v.z - o.z < 3.0 * w / 2.0
    ensures var d := Sub(Wrap(v, o, w), o);
      && -w / 2.0 <= d.x <= w / 2.0
      && -w / 2.0 <= d.y <= w / 2.0
      && -w / 2.0 <= d.z <= w / 2.0
    ensures Wrap(Wrap(v, o, w), o, w) == Wrap(v, o, w)
  {
    WrapCoordIdempotent(v.x, o.x, w);
    WrapCoordIdempotent(v.y, o.y, w);
    WrapCoordIdempotent(v.z, o.z, w);
  }

  /** Whether a point lies within one and a half boxes of o on every axis. */
  predicate InReach(v: Vec3, o: Vec3, w: real)
  {
    var d := Sub(v, o);
    && -3.0 * w / 2.0 < d.x < 3.0 * w / 2.0
    && -3.0 * w / 2.0 < d.y < 3.0 * w / 2.0
    && -3.0 * w / 2.0 < d.z < 3.0 * w / 2.0
  }

  /** The wrap applied to every point of a sequence, in place. */
  function WrapAll(vecs: seq<Vec3>, o: Vec3, w: real): (out: seq<Vec3>)
    ensures |out| == |vecs|
  {
    seq(|vecs|, i requires 0 <= i < |vecs| => Wrap(vecs[i], o, w))
  }

  /** Points within one and a half boxes of o end up within half a box of
      it, and wrapping them a second time changes nothing. */
  lemma WrapAllIsMinimumImage(vecs: seq<Vec3>, o: Vec3, w: real)
    requires 0.0 < w
    requires forall i :: 0 <= i < |vecs| ==> InReach(vecs[i], o, w)
    ensures forall i :: 0 <= i < |vecs| ==>
      var d := Sub(WrapAll(vecs, o, w)[i], o);
      -w / 2.0 <= d.x <= w / 2.0 && -w / 2.0 <= d.y <= w / 2.0 && -w / 2.0 <= d.z <= w / 2.0
    ensures WrapAll(WrapAll(vecs, o, w), o, w) == WrapAll(vecs, o, w)
  {
    forall i | 0 <= i < |vecs|
      ensures var d := Sub(Wrap(vecs[i], o, w), o);
        -w / 2.0 <= d.x <= w / 2.0 && -w / 2.0 <= d.y <= w / 2.0 && -w / 2.0 <= d.z <= w / 2.0
      ensures Wrap(Wrap(vecs[i], o, w), o, w) == Wrap(vecs[i], o, w)
    {
      WrapIsMinimumImage(vecs[i], o, w);
    }
  }
}
