/** The loop structure of the shell driver's `xyInterpolate`: for one layer
    of flagged boxes, listed by their x and y cells, every box is sampled
    at pts³ Lagrangian points. The boxes are walked in runs of equal y
    cell, and the y cell of a run's first box is used for the whole run. */
module ShellInterpolate {
  import opened RealMath
  import opened Periodic
  import opened ShellProfile
  import opened Results
  import opened Lattice

  /** One Lagrangian sample: buffer position k, the x and y cells the loop
      used for it, and the sub-cell steps xi, yi, zi. */
  datatype Visit = Visit(k: int, x0: int, y0: int, xi: int, yi: int, zi: int)

  /** The scan for the end of a run: the first index from j on, below n,
      whose y cell differs from y. */
  function ScanEnd(yBuf: seq<int>, n: int, y: int, j: int): (e: int)
    requires 0 <= j <= n <= |yBuf|
    ensures j <= e <= n
    ensures forall i :: j <= i < e ==> yBuf[i] == y
    ensures e < n ==> yBuf[e] != y
    decreases n - j
  {
    if j < n && yBuf[j] == y then ScanEnd(yBuf, n, y, j + 1) else j
  }

  /** The run that starts at `start`: never empty, one y cell throughout,
      and ended by a different y cell or the end of the buffer. */
  function RunEnd(yBuf: seq<int>, n: int, start: int): (e: int)
    requires 0 <= start < n <= |yBuf|
    ensures start < e <= n
    ensures forall j :: start <= j < e ==> yBuf[j] == yBuf[start]
    ensures e < n ==> yBuf[e] != yBuf[start]
  {
    ScanEnd(yBuf, n, yBuf[start], start)
  }

  /** The innermost loop: pts samples across box k. */
  function XVisits(k: int, x0: int, y0: int, yi: int, zi: int, pts: nat): (vs: seq<Visit>)
    ensures |vs| == pts
  {
    seq(pts, xi requires 0 <= xi < pts => Visit(k, x0, y0, xi, yi, zi))
  }

  /** The boxes lo..hi-1 of a run, for one y step. */
  function RowVisits(xBuf: seq<int>, lo: int, hi: int, y0: int, yi: int, zi: int, pts: nat): seq<Visit>
    requires 0 <= lo <= hi <= |xBuf|
    decreases hi - lo
  {
    if lo == hi then []
    else XVisits(lo, xBuf[lo], y0, yi, zi, pts) + RowVisits(xBuf, lo + 1, hi, y0, yi, zi, pts)
  }

  /** The y steps yi..pts-1 over a run lo..hi-1 whose y cell is y0. */
  function RunVisits(xBuf: seq<int>, lo: int, hi: int, y0: int, zi: int, pts: nat, yi: nat): seq<Visit>
    requires 0 <= lo <= hi <= |xBuf|
    decreases pts - yi
  {
    if pts <= yi then []
    else RowVisits(xBuf, lo, hi, y0, yi, zi, pts) + RunVisits(xBuf, lo, hi, y0, zi, pts, yi + 1)
  }

  /** The runs from `start` on, for one z step; each run's y cell is the y
      cell of its first box. */
  function LayerVisits(xBuf: seq<int>, yBuf: seq<int>, zi: int, pts: nat, start: int): seq<Visit>
    requires |xBuf| <= |yBuf|
    requires 0 <= start <= |xBuf|
    decreases |xBuf| - start
  {
    if start == |xBuf| then []
    else
      var e := RunEnd(yBuf, |xBuf|, start);
      RunVisits(xBuf, start, e, yBuf[start], zi, pts, 0) + LayerVisits(xBuf, yBuf, zi, pts, e)
  }

  /** The z steps zi..pts-1 over the whole layer. */
  function Visits(xBuf: seq<int>, yBuf: seq<int>, pts: nat, zi: nat): seq<Visit>
    requires |xBuf| <= |yBuf|
    decreases pts - zi
  {
    if pts <= zi then []
    else LayerVisits(xBuf, yBuf, zi, pts, 0) + Visits(xBuf, yBuf, pts, zi + 1)
  }

  /** The samples `xyInterpolate` takes; a negative pts runs no loop. */
  function Samples(xBuf: seq<int>, yBuf: seq<int>, pts: int): seq<Visit>
    requires |xBuf| <= |yBuf|
  {
    Visits(xBuf, yBuf, if pts < 0 then 0 else pts, 0)
  }

  /** The Lagrangian point of a sample: its cell plus its steps of 1/pts,
      in layer zIdx. */
  function Lagrangian(v: Visit, zIdx: int, pts: int): Vec3
  {
    var dp := if pts == 0 then 0.0 else 1.0 / pts as real;
    Vec3(v.x0 as real + v.xi as real * dp, v.y0 as real + v.yi as real * dp, zIdx as real + v.zi as real * dp)
  }

  /** `xyInterpolate`: each sample's Lagrangian point is mapped to its
      position by the interpolators (`eval`, supplied by the caller) and
      inserted into the profile. */
  function XyInterpolate(fns: Fns, sp: SphericalProfile, xBuf: seq<int>, yBuf: seq<int>, zIdx: int, pts: int,
                         eval: Vec3 -> Vec3): (r: Result<(SphericalProfile, nat), ShellError>)
    requires |xBuf| <= |yBuf|
    ensures r.Success? ==> r.value.1 <= |Samples(xBuf, yBuf, pts)|
  {
    var vs := Samples(xBuf, yBuf, pts);
    var ps := seq(|vs|, i requires 0 <= i < |vs| => eval(Lagrangian(vs[i], zIdx, pts)));
    CountContainedAtMost(sp, ps);
    InsertAll(fns, sp, ps)
  }

  /** With a valid profile, `xyInterpolate` never fails: the profile keeps
      its settings, and its total grows by the number of points counted,
      at most one per sample. */
  lemma XyInterpolateCounts(fns: Fns, sp: SphericalProfile, xBuf: seq<int>, yBuf: seq<int>, zIdx: int, pts: int,
                            eval: Vec3 -> Vec3)
    requires LogLaw(fns.log)
    requires Valid(fns, sp)
    requires |xBuf| <= |yBuf|
    ensures var r := XyInterpolate(fns, sp, xBuf, yBuf, zIdx, pts, eval);
      && r.Success?
      && r.value.0 == sp.(counts := r.value.0.counts)
      && r.value.1 <= |Samples(xBuf, yBuf, pts)|
      && Sum(r.value.0.counts) == Sum(sp.counts) + r.value.1 as real
  {
    var vs := Samples(xBuf, yBuf, pts);
    var ps := seq(|vs|, i requires 0 <= i < |vs| => eval(Lagrangian(vs[i], zIdx, pts)));
    InsertAllCounts(fns, sp, ps);
  }

  lemma {:induction false} CountContainedAtMost(sp: SphericalProfile, ps: seq<Vec3>)
    ensures CountContained(sp, ps) <= |ps|
  {
    if |ps| > 0 {
      CountContainedAtMost(sp, ps[..|ps| - 1]);
    }
  }

  // ---------------------------------------------------------------------
  // How many samples

  /** `xyInterpolate` takes pts³ samples per box. */
  lemma SamplesCount(xBuf: seq<int>, yBuf: seq<int>, pts: int)
    requires |xBuf| <= |yBuf|
    requires 0 <= pts
    ensures |Samples(xBuf, yBuf, pts)| == pts * pts * pts * |xBuf|
  {
    VisitsCount(xBuf, yBuf, pts, 0);
  }

  lemma {:induction false} VisitsCount(xBuf: seq<int>, yBuf: seq<int>, pts: nat, zi: nat)
    requires |xBuf| <= |yBuf|
    requires zi <= pts
    ensures |Visits(xBuf, yBuf, pts, zi)| == (pts - zi) * (pts * pts * |xBuf|)
    decreases pts - zi
  {
    if zi < pts {
      VisitsCount(xBuf, yBuf, pts, zi + 1);
      var layer := LayerVisits(xBuf, yBuf, zi, pts, 0);
      var rest := Visits(xBuf, yBuf, pts, zi + 1);
      assert Visits(xBuf, yBuf, pts, zi) == layer + rest;
      LayerCount(xBuf, yBuf, zi, pts, 0);
      var m := pts * pts * |xBuf|;
      assert |layer + rest| == m + (pts - (zi + 1)) * m;
      MulSucc(pts - (zi + 1), m);
      assert pts - (zi + 1) + 1 == pts - zi;
    }
  }

  lemma {:induction false} LayerCount(xBuf: seq<int>, yBuf: seq<int>, zi: int, pts: nat, start: int)
    requires |xBuf| <= |yBuf|
    requires 0 <= start <= |xBuf|
    ensures |LayerVisits(xBuf, yBuf, zi, pts, start)| == pts * pts * (|xBuf| - start)
    decreases |xBuf| - start
  {
    if start < |xBuf| {
      var e := RunEnd(yBuf, |xBuf|, start);
      var run := RunVisits(xBuf, start, e, yBuf[start], zi, pts, 0);
      var rest := LayerVisits(xBuf, yBuf, zi, pts, e);
      assert LayerVisits(xBuf, yBuf, zi, pts, start) == run + rest;
      LayerCount(xBuf, yBuf, zi, pts, e);
      RunCount(xBuf, start, e, yBuf[start], zi, pts, 0);
      var q := pts * pts;
      assert |run + rest| == q * (e - start) + q * (|xBuf| - e);
      MulAdd(q, e - start, |xBuf| - e);
    }
  }

  lemma {:induction false} RunCount(xBuf: seq<int>, lo: int, hi: int, y0: int, zi: int, pts: nat, yi: nat)
    requires 0 <= lo <= hi <= |xBuf|
    requires yi <= pts
    ensures |RunVisits(xBuf, lo, hi, y0, zi, pts, yi)| == (pts - yi) * ((hi - lo) * pts)
    ensures yi == 0 ==> |RunVisits(xBuf, lo, hi, y0, zi, pts, yi)| == pts * pts * (hi - lo)
    decreases pts - yi
  {
    if yi < pts {
      RunCount(xBuf, lo, hi, y0, zi, pts, yi + 1);
      var row := RowVisits(xBuf, lo, hi, y0, yi, zi, pts);
      var rest := RunVisits(xBuf, lo, hi, y0, zi, pts, yi + 1);
      assert RunVisits(xBuf, lo, hi, y0, zi, pts, yi) == row + rest;
      RowCount(xBuf, lo, hi, y0, yi, zi, pts);
      var m := (hi - lo) * pts;
      assert |row + rest| == m + (pts - (yi + 1)) * m;
      MulSucc(pts - (yi + 1), m);
      assert pts - (yi + 1) + 1 == pts - yi;
    }
    if yi == 0 {
      MulSwap(pts, hi - lo);
    }
  }

  lemma {:induction false} RowCount(xBuf: seq<int>, lo: int, hi: int, y0: int, yi: int, zi: int, pts: nat)
    requires 0 <= lo <= hi <= |xBuf|
    ensures |RowVisits(xBuf, lo, hi, y0, yi, zi, pts)| == (hi - lo) * pts
    decreases hi - lo
  {
    if lo < hi {
      RowCount(xBuf, lo + 1, hi, y0, yi, zi, pts);
      assert (hi - lo) * pts == pts + (hi - (lo + 1)) * pts;
    }
  }

  lemma MulSucc(a: int, m: int)
    ensures (a + 1) * m == m + a * m
  {
  }

  lemma MulSwap(p: int, d: int)
    ensures p * (d * p) == p * p * d
  {
  }

  lemma MulAdd(q: int, a: int, b: int)
    ensures q * (a + b) == q * a + q * b
  {
  }

  // ---------------------------------------------------------------------
  // Which samples

  /** Every box k of the layer is sampled at every step (xi, yi, zi) below
      pts, from its own x and y cell, and nothing else is sampled: the y
      cell the run took from its first box is each box's own. */
  lemma SamplesMembers(xBuf: seq<int>, yBuf: seq<int>, pts: int, v: Visit)
    requires |xBuf| <= |yBuf|
    ensures v in Samples(xBuf, yBuf, pts) <==>
      && 0 <= v.k < |xBuf|
      && v.x0 == xBuf[v.k] && v.y0 == yBuf[v.k]
      && 0 <= v.xi < pts && 0 <= v.yi < pts && 0 <= v.zi < pts
  {
    VisitsMembers(xBuf, yBuf, if pts < 0 then 0 else pts, 0, v);
  }

  lemma {:induction false} VisitsMembers(xBuf: seq<int>, yBuf: seq<int>, pts: nat, zi: nat, v: Visit)
    requires |xBuf| <= |yBuf|
    ensures v in Visits(xBuf, yBuf, pts, zi) <==>
      && 0 <= v.k < |xBuf|
      && v.x0 == xBuf[v.k] && v.y0 == yBuf[v.k]
      && 0 <= v.xi < pts && 0 <= v.yi < pts && zi <= v.zi < pts
    decreases pts - zi
  {
    if zi < pts {
      VisitsMembers(xBuf, yBuf, pts, zi + 1, v);
      LayerMembers(xBuf, yBuf, zi, pts, 0, v);
    }
  }

  lemma {:induction false} LayerMembers(xBuf: seq<int>, yBuf: seq<int>, zi: int, pts: nat, start: int, v: Visit)
    requires |xBuf| <= |yBuf|
    requires 0 <= start <= |xBuf|
    ensures v in LayerVisits(xBuf, yBuf, zi, pts, start) <==>
      && start <= v.k < |xBuf|
      && v.x0 == xBuf[v.k] && v.y0 == yBuf[v.k]
      && 0 <= v.xi < pts && 0 <= v.yi < pts && v.zi == zi
    decreases |xBuf| - start
  {
    if start < |xBuf| {
      var e := RunEnd(yBuf, |xBuf|, start);
      LayerMembers(xBuf, yBuf, zi, pts, e, v);
      RunMembers(xBuf, start, e, yBuf[start], zi, pts, 0, v);
    }
  }

  lemma {:induction false} RunMembers(xBuf: seq<int>, lo: int, hi: int, y0: int, zi: int, pts: nat, yi: nat, v: Visit)
    requires 0 <= lo <= hi <= |xBuf|
    ensures v in RunVisits(xBuf, lo, hi, y0, zi, pts, yi) <==>
      && lo <= v.k < hi
      && v.x0 == xBuf[v.k] && v.y0 == y0
      && 0 <= v.xi < pts && yi <= v.yi < pts && v.zi == zi
    decreases pts - yi
  {
    if yi < pts {
      RunMembers(xBuf, lo, hi, y0, zi, pts, yi + 1, v);
      RowMembers(xBuf, lo, hi, y0, yi, zi, pts, v);
    }
  }

  lemma {:induction false} RowMembers(xBuf: seq<int>, lo: int, hi: int, y0: int, yi: int, zi: int, pts: nat, v: Visit)
    requires 0 <= lo <= hi <= |xBuf|
    ensures v in RowVisits(xBuf, lo, hi, y0, yi, zi, pts) <==>
      && lo <= v.k < hi
      && v.x0 == xBuf[v.k] && v.y0 == y0
      && 0 <= v.xi < pts && v.yi == yi && v.zi == zi
    decreases hi - lo
  {
    if lo < hi {
      RowMembers(xBuf, lo + 1, hi, y0, yi, zi, pts, v);
      var xs := XVisits(lo, xBuf[lo], y0, yi, zi, pts);
      if v.k == lo && v.x0 == xBuf[lo] && v.y0 == y0 && 0 <= v.xi < pts && v.yi == yi && v.zi == zi {
        assert xs[v.xi] == v;
      }
    }
  }
}
