/** The shell driver's intersection buffers: the sheet sampled at every
    skip-th lattice point of a segment, a flag per sample saying whether it
    lies inside the profile's shell, and a flag per lattice box saying
    whether any of its eight corners does. Per-layer counts of flagged boxes
    feed the load balancer. */
module ShellBuffers {
  import opened GoNum
  import opened Lattice
  import opened Periodic
  import opened ShellProfile
  import opened Results

  /** kw samples per side of a segment of width sw taken every skip points
      of a grid of width gw, their coordinates, their shell flags and the
      flags of the (kw-1)³ boxes between them. */
  datatype IntrBuffers = IntrBuffers(
    gw: int,
    sw: int,
    kw: int,
    skip: int,
    xs: seq<real>,
    ys: seq<real>,
    zs: seq<real>,
    vecIntr: seq<bool>,
    boxIntr: seq<bool>)

  function Cube(n: int): int
  {
    n * n * n
  }

  /** The slice lengths `newIntrBuffers` allocates. */
  predicate Shaped(b: IntrBuffers)
  {
    && 1 <= b.kw
    && |b.xs| == Cube(b.kw)
    && |b.ys| == Cube(b.kw)
    && |b.zs| == Cube(b.kw)
    && |b.vecIntr| == Cube(b.kw)
    && |b.boxIntr| == Cube(b.kw - 1)
  }

  /** `newIntrBuffers`: kw = segWidth/skip + 1 samples per side. A zero skip
      is a division by zero, and kw < 1 makes the box buffer's length
      (kw-1)³ negative, which `make` refuses. */
  function NewIntrBuffers(segWidth: int, gridWidth: int, skip: int): (r: Result<IntrBuffers, ShellError>)
    ensures r.Failure? <==> skip == 0 || Quot(segWidth, skip) < 0
    ensures r.Success? ==>
      && Shaped(r.value)
      && r.value.kw == Quot(segWidth, skip) + 1
      && r.value.gw == gridWidth && r.value.sw == segWidth && r.value.skip == skip
      && (forall i :: 0 <= i < |r.value.vecIntr| ==> !r.value.vecIntr[i])
      && (forall i :: 0 <= i < |r.value.boxIntr| ==> !r.value.boxIntr[i])
  {
    if skip == 0 then Failure(DivideByZero)
    else
      var kw := Quot(segWidth, skip) + 1;
      if kw < 1 then Failure(NegativeLength)
      else
        CubeNonNegative(kw - 1);
        Success(IntrBuffers(gridWidth, segWidth, kw, skip,
          seq(Cube(kw), _ => 0.0), seq(Cube(kw), _ => 0.0), seq(Cube(kw), _ => 0.0),
          seq(Cube(kw), _ => false), seq(Cube(kw - 1), _ => false)))
  }

  lemma CubeNonNegative(n: nat)
    ensures 0 <= Cube(n)
  {
  }

  /** For a non-negative segment and a positive stride the samples 0, skip,
      ..., (kw-1)*skip reach as far into the segment as the stride allows:
      the last lies inside it and one more step would leave it. */
  lemma NewBuffersSpanSegment(segWidth: int, gridWidth: int, skip: int)
    requires 0 <= segWidth && 0 < skip
    ensures NewIntrBuffers(segWidth, gridWidth, skip).Success?
    ensures var kw := NewIntrBuffers(segWidth, gridWidth, skip).value.kw;
      (kw - 1) * skip <= segWidth < kw * skip
  {
    var q := segWidth / skip;
    assert Quot(segWidth, skip) == q;
    assert NewIntrBuffers(segWidth, gridWidth, skip).value.kw == q + 1;
    FloorSpan(segWidth, skip);
  }

  /** The floor quotient brackets its dividend. */
  lemma FloorSpan(a: int, d: int)
    requires 0 <= a && 0 < d
    ensures (a / d) * d <= a < (a / d + 1) * d
  {
    var q := a / d;
    assert q * d + a % d == a;
    assert (q + 1) * d == q * d + d;
  }

  // ---------------------------------------------------------------------
  // loadVecs

  /** Grid index of sample ik, samples numbered x fastest, then y, then z,
      as the nested loops of `loadVecs` count them. */
  function SampleIndex(b: IntrBuffers, ik: nat): int
    requires 1 <= b.kw
  {
    var e := Unflat(ik, b.kw, b.kw);
    Flat(e.0 * b.skip, e.1 * b.skip, e.2 * b.skip, b.gw, b.gw)
  }

  /** Every sample names a point of the vector slice. */
  predicate SamplesInGrid(b: IntrBuffers, vecs: seq<Vec3>)
    requires 1 <= b.kw
  {
    forall ik | 0 <= ik < Cube(b.kw) :: 0 <= SampleIndex(b, ik) < |vecs|
  }

  /** Sample (x, y, z)'s flag. */
  function At(v: seq<bool>, kw: nat, x: nat, y: nat, z: nat): bool
    requires x < kw && y < kw && z < kw
    requires |v| == Cube(kw)
  {
    FlatBounds(x, y, z, kw, kw, kw);
    v[Flat(x, y, z, kw, kw)]
  }

  /** The flag of box i, whose low corner is sample Unflat(i): the OR of the
      flags of its eight corners, in the order `loadVecs` lists them. */
  function BoxFlag(v: seq<bool>, kw: nat, i: nat): bool
    requires |v| == Cube(kw)
    requires i < Cube(kw - 1)
  {
    UnflatBelow(i, kw - 1, kw - 1, kw - 1);
    var c := Unflat(i, kw - 1, kw - 1);
    var x0, y0, z0 := c.0, c.1, c.2;
    At(v, kw, x0, y0, z0) || At(v, kw, x0, y0, z0 + 1) ||
    At(v, kw, x0, y0 + 1, z0) || At(v, kw, x0, y0 + 1, z0 + 1) ||
    At(v, kw, x0 + 1, y0, z0) || At(v, kw, x0 + 1, y0, z0 + 1) ||
    At(v, kw, x0 + 1, y0 + 1, z0) || At(v, kw, x0 + 1, y0 + 1, z0 + 1)
  }

  /** `loadVecs`: copy every sample's coordinates, flag the samples inside
      the shell, then flag the boxes. A sample outside the vector slice
      stops the program. */
  function LoadVecs(sp: SphericalProfile, b: IntrBuffers, vecs: seq<Vec3>): (r: Result<IntrBuffers, ShellError>)
    requires Shaped(b)
    ensures r.Failure? <==> !SamplesInGrid(b, vecs)
    ensures r.Success? ==>
      && Shaped(r.value)
      && r.value == b.(xs := r.value.xs, ys := r.value.ys, zs := r.value.zs,
                       vecIntr := r.value.vecIntr, boxIntr := r.value.boxIntr)
  {
    if !SamplesInGrid(b, vecs) then Failure(IndexOutOfRange)
    else
      var n := Cube(b.kw);
      var pts := seq(n, ik requires 0 <= ik < n => vecs[SampleIndex(b, ik)]);
      var v := seq(n, ik requires 0 <= ik < n => Contains(sp, pts[ik]));
      var m := Cube(b.kw - 1);
      Success(b.(
        xs := seq(n, ik requires 0 <= ik < n => pts[ik].x),
        ys := seq(n, ik requires 0 <= ik < n => pts[ik].y),
        zs := seq(n, ik requires 0 <= ik < n => pts[ik].z),
        vecIntr := v,
        boxIntr := seq(m, i requires 0 <= i < m => BoxFlag(v, b.kw, i))))
  }

  /** Sample (xk, yk, zk) is the grid point (xk, yk, zk) * skip: its
      coordinates are copied and its flag says whether it lies in the
      shell. */
  lemma LoadVecsSamples(sp: SphericalProfile, b: IntrBuffers, vecs: seq<Vec3>, xk: nat, yk: nat, zk: nat)
    requires Shaped(b)
    requires LoadVecs(sp, b, vecs).Success?
    requires xk < b.kw && yk < b.kw && zk < b.kw
    ensures var out := LoadVecs(sp, b, vecs).value;
      var ik := Flat(xk, yk, zk, b.kw, b.kw);
      var ig := Flat(xk * b.skip, yk * b.skip, zk * b.skip, b.gw, b.gw);
      && 0 <= ik < Cube(b.kw)
      && 0 <= ig < |vecs|
      && out.xs[ik] == vecs[ig].x && out.ys[ik] == vecs[ig].y && out.zs[ik] == vecs[ig].z
      && (out.vecIntr[ik] <==> Contains(sp, vecs[ig]))
  {
    var ik := Flat(xk, yk, zk, b.kw, b.kw);
    FlatBounds(xk, yk, zk, b.kw, b.kw, b.kw);
    UnflatOfFlat(xk, yk, zk, b.kw, b.kw);
    assert 0 <= SampleIndex(b, ik) < |vecs|;
  }

  /** Box (x0, y0, z0) is flagged exactly when one of the samples at its
      eight corners lies in the shell. */
  lemma LoadVecsBoxes(sp: SphericalProfile, b: IntrBuffers, vecs: seq<Vec3>, x0: nat, y0: nat, z0: nat)
    requires Shaped(b)
    requires LoadVecs(sp, b, vecs).Success?
    requires x0 < b.kw - 1 && y0 < b.kw - 1 && z0 < b.kw - 1
    ensures var out := LoadVecs(sp, b, vecs).value;
      var i := Flat(x0, y0, z0, b.kw - 1, b.kw - 1);
      && 0 <= i < Cube(b.kw - 1)
      && (out.boxIntr[i] <==>
           exists x, y, z :: x0 <= x <= x0 + 1 && y0 <= y <= y0 + 1 && z0 <= z <= z0 + 1 &&
             At(out.vecIntr, b.kw, x, y, z))
  {
    var out := LoadVecs(sp, b, vecs).value;
    var kw := b.kw;
    var i := Flat(x0, y0, z0, kw - 1, kw - 1);
    FlatBounds(x0, y0, z0, kw - 1, kw - 1, kw - 1);
    UnflatOfFlat(x0, y0, z0, kw - 1, kw - 1);
    assert out.boxIntr[i] == BoxFlag(out.vecIntr, kw, i);
    CornersAny(out.vecIntr, kw, x0, y0, z0);
  }

  /** The eight-way OR of `loadVecs` is the existential over the box's
      corners. */
  lemma CornersAny(v: seq<bool>, kw: nat, x0: nat, y0: nat, z0: nat)
    requires |v| == Cube(kw)
    requires x0 + 1 < kw && y0 + 1 < kw && z0 + 1 < kw
    ensures
      (At(v, kw, x0, y0, z0) || At(v, kw, x0, y0, z0 + 1) ||
       At(v, kw, x0, y0 + 1, z0) || At(v, kw, x0, y0 + 1, z0 + 1) ||
       At(v, kw, x0 + 1, y0, z0) || At(v, kw, x0 + 1, y0, z0 + 1) ||
       At(v, kw, x0 + 1, y0 + 1, z0) || At(v, kw, x0 + 1, y0 + 1, z0 + 1))
      <==>
      exists x, y, z :: x0 <= x <= x0 + 1 && y0 <= y <= y0 + 1 && z0 <= z <= z0 + 1 && At(v, kw, x, y, z)
  {
    if exists x, y, z :: x0 <= x <= x0 + 1 && y0 <= y <= y0 + 1 && z0 <= z <= z0 + 1 && At(v, kw, x, y, z) {
      var x, y, z :| x0 <= x <= x0 + 1 && y0 <= y <= y0 + 1 && z0 <= z <= z0 + 1 && At(v, kw, x, y, z);
      assert x == x0 || x == x0 + 1;
      assert y == y0 || y == y0 + 1;
      assert z == z0 || z == z0 + 1;
    }
  }

  // ---------------------------------------------------------------------
  // zCounts

  /** The flags of the boxes in layer z of an m x m x m block of boxes. */
  function Layer(box: seq<bool>, m: nat, z: nat): (layer: seq<bool>)
    requires |box| == Cube(m)
    requires z < m
    ensures |layer| == m * m
  {
    LayerBounds(m, z);
    box[LayerStart(m, z) .. LayerStart(m, z + 1)]
  }

  /** Index of the first box of layer z: the layers before it, m * m boxes
      each. */
  function LayerStart(m: nat, z: nat): nat
  {
    if z == 0 then 0 else LayerStart(m, z - 1) + m * m
  }

  lemma {:induction false} LayerStartIs(m: nat, z: nat)
    ensures LayerStart(m, z) == z * (m * m)
  {
    if z > 0 {
      LayerStartIs(m, z - 1);
      assert z * (m * m) == (z - 1) * (m * m) + m * m;
    }
  }

  lemma LayerBounds(m: nat, z: nat)
    requires z < m
    ensures LayerStart(m, z + 1) == LayerStart(m, z) + m * m <= Cube(m)
  {
    LayerStartIs(m, z + 1);
    MulLe(z + 1, m, m * m);
    assert Cube(m) == m * (m * m);
  }

  /** Box (x, y, z) sits at position (x, y) of layer z. */
  lemma LayerHolds(box: seq<bool>, m: nat, x: nat, y: nat, z: nat)
    requires |box| == Cube(m)
    requires x < m && y < m && z < m
    ensures 0 <= Flat(x, y, 0, m, m) < m * m
    ensures 0 <= Flat(x, y, z, m, m) < |box|
    ensures Layer(box, m, z)[Flat(x, y, 0, m, m)] == box[Flat(x, y, z, m, m)]
  {
    LayerOffset(m, x, y, z);
    LayerBounds(m, z);
    assert Layer(box, m, z) == box[LayerStart(m, z) .. LayerStart(m, z + 1)];
  }

  /** The flat address of box (x, y, z) is its layer's start plus its
      address within the layer. */
  lemma LayerOffset(m: nat, x: nat, y: nat, z: nat)
    requires x < m && y < m && z < m
    ensures 0 <= Flat(x, y, 0, m, m) < m * m
    ensures 0 <= Flat(x, y, z, m, m) < Cube(m)
    ensures Flat(x, y, z, m, m) == LayerStart(m, z) + Flat(x, y, 0, m, m)
  {
    LowPartBound(x, y, m, m);
    LayerStartIs(m, z);
    MulAssoc(z, m, m);
    MulAssoc(m, m, m);
    BelowBlock(z, m, m * m, x + y * m);
  }

  lemma MulAssoc(a: int, b: int, c: int)
    ensures a * b * c == a * (b * c)
  {
  }

  /** An offset inside one block, after z < m whole blocks, stays inside m
      blocks. */
  lemma BelowBlock(z: nat, m: nat, block: nat, lo: nat)
    requires z < m && lo < block
    ensures z * block + lo < m * block
  {
    MulLe(z + 1, m, block);
  }

  /** `zCounts`: the number of flagged boxes in each layer, counted with the
      running box index of the nested loops. */
  method ZCounts(b: IntrBuffers) returns (counts: seq<int>)
    requires Shaped(b)
    ensures |counts| == b.kw - 1
    ensures forall z :: 0 <= z < b.kw - 1 ==> counts[z] == CountTrue(Layer(b.boxIntr, b.kw - 1, z))
    ensures SumInt(counts) == CountTrue(b.boxIntr)
  {
    var m := b.kw - 1;
    var box := b.boxIntr;
    counts := [];
    var i := 0;
    for z := 0 to m
      invariant |counts| == z
      invariant i == LayerStart(m, z) <= |box|
      invariant forall w :: 0 <= w < z ==> counts[w] == CountTrue(Layer(box, m, w))
      invariant SumInt(counts) == CountTrue(box[..i])
    {
      LayerBounds(m, z);
      var c := LayerCount(box, m, i);
      ZCountsStep(box, m, z, counts, c);
      counts := counts + [c];
      i := i + m * m;
    }
    AllLayers(box, m, i);
    assert box[..i] == box;
  }

  /** The layers together are the whole block. */
  lemma AllLayers(box: seq<bool>, m: nat, i: int)
    requires |box| == Cube(m)
    requires i == LayerStart(m, m)
    ensures i == |box|
  {
    LayerStartIs(m, m);
    assert Cube(m) == m * (m * m);
  }

  /** Appending layer z's count keeps the per-layer counts and their
      running sum right. */
  lemma ZCountsStep(box: seq<bool>, m: nat, z: nat, counts: seq<int>, c: int)
    requires |box| == Cube(m) && z < m && |counts| == z
    requires forall w :: 0 <= w < z ==> counts[w] == CountTrue(Layer(box, m, w))
    requires LayerStart(m, z + 1) == LayerStart(m, z) + m * m <= Cube(m)
    requires SumInt(counts) == CountTrue(box[..LayerStart(m, z)])
    requires c == CountTrue(box[LayerStart(m, z) .. LayerStart(m, z) + m * m])
    ensures forall w :: 0 <= w < z + 1 ==> (counts + [c])[w] == CountTrue(Layer(box, m, w))
    ensures SumInt(counts + [c]) == CountTrue(box[..LayerStart(m, z + 1)])
  {
    ZCountsLayers(box, m, z, counts, c);
    ZCountsSum(box, LayerStart(m, z), LayerStart(m, z + 1), counts, c);
  }

  lemma ZCountsLayers(box: seq<bool>, m: nat, z: nat, counts: seq<int>, c: int)
    requires |box| == Cube(m) && z < m && |counts| == z
    requires forall w :: 0 <= w < z ==> counts[w] == CountTrue(Layer(box, m, w))
    requires LayerStart(m, z + 1) == LayerStart(m, z) + m * m <= Cube(m)
    requires c == CountTrue(box[LayerStart(m, z) .. LayerStart(m, z) + m * m])
    ensures forall w :: 0 <= w < z + 1 ==> (counts + [c])[w] == CountTrue(Layer(box, m, w))
  {
    assert Layer(box, m, z) == box[LayerStart(m, z) .. LayerStart(m, z + 1)];
  }

  lemma ZCountsSum(box: seq<bool>, lo: nat, hi: nat, counts: seq<int>, c: int)
    requires lo <= hi <= |box|
    requires SumInt(counts) == CountTrue(box[..lo])
    requires c == CountTrue(box[lo .. hi])
    ensures SumInt(counts + [c]) == CountTrue(box[..hi])
  {
    assert (counts + [c])[..|counts|] == counts;
    CountTrueSplit(box, lo, hi);
  }

  /** The y and x loops over one layer: the flagged boxes among the m * m
      that start at index start. */
  method LayerCount(box: seq<bool>, m: nat, start: nat) returns (c: nat)
    requires start + m * m <= |box|
    ensures c == CountTrue(box[start .. start + m * m])
  {
    c := 0;
    var i := start;
    for y := 0 to m
      invariant i == start + y * m <= start + m * m
      invariant c == CountTrue(box[start .. i])
    {
      NextRow(y, m);
      c := RowCount(box, start, i, m, c);
      i := i + m;
    }
  }

  /** The row after row y < m still ends inside the layer. */
  lemma NextRow(y: nat, m: nat)
    requires y < m
    ensures (y + 1) * m == y * m + m <= m * m
  {
    MulLe(y + 1, m, m);
  }

  /** The x loop over one row of m boxes starting at index i0, adding to
      the count c0 of the flagged boxes from start to i0. */
  method RowCount(box: seq<bool>, start: nat, i0: nat, m: nat, c0: nat) returns (c: nat)
    requires start <= i0 && i0 + m <= |box|
    requires c0 == CountTrue(box[start .. i0])
    ensures c == CountTrue(box[start .. i0 + m])
  {
    c := c0;
    var i := i0;
    for x := 0 to m
      invariant i == i0 + x
      invariant c == CountTrue(box[start .. i])
    {
      CountTrueStep(box, start, i);
      if box[i] {
        c := c + 1;
      }
      i := i + 1;
    }
  }

  lemma CountTrueStep(s: seq<bool>, lo: nat, i: nat)
    requires lo <= i < |s|
    ensures CountTrue(s[lo .. i + 1]) == CountTrue(s[lo .. i]) + (if s[i] then 1 else 0)
  {
    assert s[lo .. i + 1][.. i - lo] == s[lo .. i];
  }

  lemma CountTrueSplit(s: seq<bool>, i: nat, j: nat)
    requires i <= j <= |s|
    ensures CountTrue(s[..j]) == CountTrue(s[..i]) + CountTrue(s[i..j])
  {
    assert s[..j] == s[..i] + s[i..j];
    CountTrueAppend(s[..i], s[i..j]);
  }
}
