/** Deposition of particle mass onto a density lattice: the flat-index
    arithmetic of the lattice, the nearest-grid-point deposit, the per-sample
    weight and call structure of the Monte-Carlo tetrahedron interpolator,
    and the periodic accumulation of a sub-buffer into the global grid. */
module Density {
  import opened GoNum
  import opened Lattice
  import opened Periodic

  /** `geom.CellBounds`: the lattice origin and extent of a buffer. */
  datatype Triple = Triple(x: int, y: int, z: int)
  datatype CellBounds = CellBounds(origin: Triple, width: Triple)

  /** `index`: flat address of (x, y, z) in a cube with `cells` per side. */
  function Index(x: int, y: int, z: int, cells: int): int
  {
    Flat(x, y, z, cells, cells)
  }

  /** `coords`: the inverse of `index`, written with Go's truncating `%`
      and `/`. */
  function Coords(idx: int, cells: int): Triple
    requires cells != 0
  {
    Triple(Rem(idx, cells), Quot(Rem(idx, cells * cells), cells), Quot(idx, cells * cells))
  }

  /** For a non-negative address, x and y land in [0, cells) and z is the
      number of whole planes below the address. */
  lemma CoordsInRange(idx: int, cells: int)
    requires 0 <= idx
    requires 0 < cells
    ensures 0 <= Coords(idx, cells).x < cells
    ensures 0 <= Coords(idx, cells).y < cells
    ensures Coords(idx, cells).z == idx / (cells * cells)
  {
    var cc := cells * cells;
    MulLe(1, cells, cells);
    var t := idx % cc;
    assert Rem(idx, cc) == t;
    QuotBelow(t, cells);
  }

  /** A value below cells^2 has a quotient by cells below cells. */
  lemma QuotBelow(t: int, cells: int)
    requires 0 < cells
    requires 0 <= t < cells * cells
    ensures 0 <= t / cells < cells
  {
    if cells <= t / cells {
      MulLe(cells, t / cells, cells);
    }
  }

  /** Coordinates in range survive a trip through `index` and `coords`. */
  lemma CoordsOfIndex(x: int, y: int, z: int, cells: int)
    requires 0 <= x < cells
    requires 0 <= y < cells
    requires 0 <= z < cells
    ensures Coords(Index(x, y, z, cells), cells) == Triple(x, y, z)
  {
    var n := Index(x, y, z, cells);
    FlatDecode(x, y, z, cells, cells);
    MulLe(0, y, cells);
    MulLe(0, z, cells * cells);
    assert z * cells * cells == z * (cells * cells);
    DivModUnique(x + y * cells, cells, y, x);
  }

  /** Every non-negative address survives a trip through `coords` and
      `index`. */
  lemma IndexOfCoords(idx: int, cells: int)
    requires 0 <= idx
    requires 0 < cells
    ensures var c := Coords(idx, cells); Index(c.x, c.y, c.z, cells) == idx
  {
    var cc := cells * cells;
    var t := idx % cc;
    var y := t / cells;
    var x := t % cells;
    var z := idx / cc;
    assert idx == z * cc + t;
    assert t == y * cells + x;
    assert idx == (z * cells + y) * cells + x by {
      assert z * cc == z * cells * cells;
      assert (z * cells + y) * cells == z * cells * cells + y * cells;
    }
    DivModUnique(idx, cells, z * cells + y, x);
    assert Coords(idx, cells) == Triple(x, y, z);
    assert z * cells * cells == z * cc;
  }

  /** Lattice cell hit by a point under nearest-grid-point assignment: the
      truncated coordinates, flattened with the buffer's widths. */
  function NgpCell(pt: Vec3, cb: CellBounds): int
  {
    Flat(Trunc(pt.x), Trunc(pt.y), Trunc(pt.z), cb.width.x, cb.width.y)
  }

  /** The cell of every point, in order. */
  function NgpCells(xs: seq<Vec3>, cb: CellBounds): (cs: seq<int>)
    ensures |cs| == |xs|
    ensures forall i :: 0 <= i < |xs| ==> cs[i] == NgpCell(xs[i], cb)
  {
    seq(|xs|, i requires 0 <= i < |xs| => NgpCell(xs[i], cb))
  }

  /** Number of entries of cs[low..n) equal to c. */
  function Hits(cs: seq<int>, low: int, n: int, c: int): nat
    requires n <= low || (0 <= low && n <= |cs|)
    decreases n - low
  {
    if n <= low then 0
    else Hits(cs, low, n - 1, c) + (if cs[n - 1] == c then 1 else 0)
  }

  /** Mass deposited on cell c by the points whose cells are cs[low..n),
      each carrying ptRho: the sum, point by point, that the loop
      accumulates. */
  function Deposit(cs: seq<int>, ptRho: real, low: int, n: int, c: int): real
    requires n <= low || (0 <= low && n <= |cs|)
    decreases n - low
  {
    if n <= low then 0.0
    else Deposit(cs, ptRho, low, n - 1, c) + (if cs[n - 1] == c then ptRho else 0.0)
  }

  /** The deposit on a cell is its number of hits times the point mass. */
  lemma {:induction false} DepositIsHitsTimesMass(cs: seq<int>, ptRho: real, low: int, n: int, c: int)
    requires n <= low || (0 <= low && n <= |cs|)
    ensures Deposit(cs, ptRho, low, n, c) == Times(Hits(cs, low, n, c), ptRho)
    decreases n - low
  {
    if low < n {
      DepositIsHitsTimesMass(cs, ptRho, low, n - 1, c);
    }
  }

  /** Number of loop iterations of `for idx := low; idx < high; idx++`. */
  function Span(low: int, high: int): nat
  {
    if low < high then high - low else 0
  }

  lemma ScaleStepInt(n: int, p: int)
    ensures n * p + p == (n + 1) * p
  {
  }

  /** The grid after the points whose cells are cs[low..n) have been
      deposited on rhos: every cell holds its deposit, and the total has
      grown by one ptRho per point. */
  ghost predicate DepositedUpTo(out: seq<real>, rhos: seq<real>, cs: seq<int>, ptRho: real, low: int, n: int)
    requires n <= low || (0 <= low && n <= |cs|)
  {
    && |out| == |rhos|
    && (forall c :: 0 <= c < |rhos| ==> out[c] == rhos[c] + Deposit(cs, ptRho, low, n, c))
    && Sum(out) == Sum(rhos) + Times(Span(low, n), ptRho)
  }

  /** Depositing the next point on its cell extends the deposit by one point. */
  lemma NgpStep(out: seq<real>, rhos: seq<real>, cs: seq<int>, ptRho: real, low: int, n: int)
    requires 0 <= low <= n < |cs|
    requires DepositedUpTo(out, rhos, cs, ptRho, low, n)
    requires 0 <= cs[n] < |rhos|
    ensures DepositedUpTo(out[cs[n] := out[cs[n]] + ptRho], rhos, cs, ptRho, low, n + 1)
  {
    SumUpdate(out, cs[n], ptRho);
  }

  /** A completed deposit, stated with hit counts. */
  lemma NgpTotal(out: seq<real>, rhos: seq<real>, cs: seq<int>, ptRho: real, low: int, n: int)
    requires n <= low || (0 <= low && n <= |cs|)
    requires DepositedUpTo(out, rhos, cs, ptRho, low, n)
    ensures |out| == |rhos|
    ensures forall c :: 0 <= c < |rhos| ==> out[c] == rhos[c] + Times(Hits(cs, low, n, c), ptRho)
    ensures Sum(out) == Sum(rhos) + Times(Span(low, n), ptRho)
  {
    forall c | 0 <= c < |rhos|
      ensures out[c] == rhos[c] + Times(Hits(cs, low, n, c), ptRho)
    {
      DepositIsHitsTimesMass(cs, ptRho, low, n, c);
    }
  }

  /** An empty range deposits nothing. */
  lemma NgpNone(rhos: seq<real>, cs: seq<int>, ptRho: real, low: int, high: int)
    requires high <= low
    ensures DepositedUpTo(rhos, rhos, cs, ptRho, low, high)
  {
  }

  /** `ngp.Interpolate`: each point of xs[low..high) adds ptRho to the one
      cell its truncated coordinates name. Cell c gains ptRho once per
      point that lands in it, so a cell no point lands in is unchanged, and
      the grid total grows by ptRho per point. */
  method NgpInterpolate(rhos: seq<real>, cb: CellBounds, ptRho: real, xs: seq<Vec3>, low: int, high: int)
    returns (out: seq<real>)
    requires low < high ==> 0 <= low && high <= |xs|
    requires forall idx :: low <= idx < high ==> 0 <= NgpCell(xs[idx], cb) < |rhos|
    ensures |out| == |rhos|
    ensures forall c :: 0 <= c < |rhos| ==> out[c] == rhos[c] + Times(Hits(NgpCells(xs, cb), low, high, c), ptRho)
    ensures Sum(out) == Sum(rhos) + Times(Span(low, high), ptRho)
  {
    ghost var cs := NgpCells(xs, cb);
    out := rhos;
    if high <= low {
      NgpNone(rhos, cs, ptRho, low, high);
      NgpTotal(out, rhos, cs, ptRho, low, high);
      return;
    }
    var idx := low;
    while idx < high
      invariant low <= idx <= high
      invariant DepositedUpTo(out, rhos, cs, ptRho, low, idx)
    {
      var pt := xs[idx];
      var i := Trunc(pt.x);
      var j := Trunc(pt.y);
      var k := Trunc(pt.z);
      var cell := Flat(i, j, k, cb.width.x, cb.width.y);
      NgpStep(out, rhos, cs, ptRho, low, idx);
      out := out[cell := out[cell] + ptRho];
      idx := idx + 1;
    }
    NgpTotal(out, rhos, cs, ptRho, low, idx);
  }

  /** One call `subIntr.Interpolate(rhos, cb, ptRho, vecBuf, lo, hi)` made
      by the Monte-Carlo interpolator for tetrahedron `dir` of the lattice
      cell whose corner has flat address `gridIdx`. */
  datatype SubCall = SubCall(gridIdx: int, dir: int, weight: real, lo: int, hi: int)

  /** Flat grid address of the lattice corner for Monte-Carlo cell idx:
      `index(coords(idx, segWidth / skip), segWidth + 1)`. */
  function Corner(idx: int, segWidth: int, skip: int): int
    requires skip != 0 && Quot(segWidth, skip) != 0
  {
    var c := Coords(idx, Quot(segWidth, skip));
    Index(c.x, c.y, c.z, segWidth + 1)
  }

  /** Weight given to each Monte-Carlo sample: the cell mass split over six
      tetrahedra of `points` samples each, scaled by the skip volume. */
  function McWeight(ptRho: real, points: int, skip: int): real
    requires points != 0
  {
    ptRho / points as real / 6.0 * (skip * skip * skip) as real
  }

  /** Mass one Monte-Carlo cell stands for: the particle mass times the
      skip^3 particles the cell replaces. */
  function CellMass(ptRho: real, skip: int): real
  {
    ptRho * (skip * skip * skip) as real
  }

  /** The six tetrahedra of `points` samples deposited for one cell carry
      exactly the cell's mass times the skip volume, for any points >= 1. */
  lemma McWeightConservesMass(ptRho: real, points: int, skip: int)
    requires 1 <= points
    ensures 6.0 * points as real * McWeight(ptRho, points, skip) == CellMass(ptRho, skip)
  {
    var p := points as real;
    var s3 := (skip * skip * skip) as real;
    assert ptRho / p / 6.0 * s3 * 6.0 * p == ptRho * s3;
  }

  /** Mass carried by a list of sub-interpolator calls: each call deposits
      one weight per sample index in [lo, hi), summed over the calls. */
  function CallMass(calls: seq<SubCall>): real
  {
    if |calls| == 0 then 0.0
    else
      var last := calls[|calls| - 1];
      CallMass(calls[..|calls| - 1]) + Times(Span(last.lo, last.hi), last.weight)
  }

  /** The call log of `mcarlo.Interpolate`: for every idx in [low, high),
      in order, the lattice corner `index(coords(idx, idxWidth), gridWidth)`
      and six calls, one per tetrahedron direction 0..5, each over the full
      sample range [0, points). The calls of the whole range carry one cell
      mass per cell. Tetrahedron sampling and the random generator only fill
      the sample buffer and are not modelled. */
  method McInterpolate(segWidth: int, points: int, skip: int, ptRho: real, low: int, high: int)
    returns (calls: seq<SubCall>)
    requires skip != 0
    requires 1 <= points
    requires low < high ==> 0 <= low && Quot(segWidth, skip) != 0
    ensures |calls| == 6 * Span(low, high)
    ensures forall t :: 0 <= t < |calls| ==>
      calls[t] == SubCall(Corner(low + t / 6, segWidth, skip), t % 6, McWeight(ptRho, points, skip), 0, points)
    ensures CallMass(calls) == Times(Span(low, high), CellMass(ptRho, skip))
  {
    var gridWidth := segWidth + 1;
    var idxWidth := Quot(segWidth, skip);
    var w := McWeight(ptRho, points, skip);
    calls := [];
    if high <= low {
      return;
    }
    var idx := low;
    while idx < high
      invariant low <= idx <= high
      invariant |calls| == 6 * (idx - low)
      invariant forall t :: 0 <= t < |calls| ==>
        calls[t] == SubCall(Corner(low + t / 6, segWidth, skip), t % 6, w, 0, points)
      invariant CallMass(calls) == Times(idx - low, CellMass(ptRho, skip))
    {
      var xyz := Coords(idx, idxWidth);
      var gridIdx := Index(xyz.x, xyz.y, xyz.z, gridWidth);
      var block := seq(6, dir requires 0 <= dir < 6 => SubCall(gridIdx, dir, w, 0, points));
      BlockMass(block, gridIdx, ptRho, points, skip);
      CallMassAppend(calls, block);
      McCallsStep(calls, block, low, idx, segWidth, skip, w, points);
      calls := calls + block;
      idx := idx + 1;
    }
  }

  /** Appending the six calls of cell idx keeps the call log in its
      closed form. */
  lemma McCallsStep(calls: seq<SubCall>, block: seq<SubCall>, low: int, idx: int, segWidth: int, skip: int, w: real, points: int)
    requires 0 <= low <= idx
    requires skip != 0 && Quot(segWidth, skip) != 0
    requires |calls| == 6 * (idx - low)
    requires forall t :: 0 <= t < |calls| ==>
      calls[t] == SubCall(Corner(low + t / 6, segWidth, skip), t % 6, w, 0, points)
    requires |block| == 6
    requires forall d :: 0 <= d < 6 ==> block[d] == SubCall(Corner(idx, segWidth, skip), d, w, 0, points)
    ensures forall t :: 0 <= t < |calls + block| ==>
      (calls + block)[t] == SubCall(Corner(low + t / 6, segWidth, skip), t % 6, w, 0, points)
  {
    forall t | 0 <= t < |calls + block|
      ensures (calls + block)[t] == SubCall(Corner(low + t / 6, segWidth, skip), t % 6, w, 0, points)
    {
      if |calls| <= t {
        var d := t - |calls|;
        DivModUnique(t, 6, idx - low, d);
      }
    }
  }

  /** Mass is additive over concatenated call logs. */
  lemma {:induction false} CallMassAppend(a: seq<SubCall>, b: seq<SubCall>)
    ensures CallMass(a + b) == CallMass(a) + CallMass(b)
  {
    if |b| == 0 {
      assert a + b == a;
    } else {
      assert (a + b)[..|a + b| - 1] == a + b[..|b| - 1];
      CallMassAppend(a, b[..|b| - 1]);
    }
  }

  /** The six full-range calls of one lattice cell, at the Monte-Carlo
      weight, carry exactly one cell mass. */
  lemma BlockMass(block: seq<SubCall>, gridIdx: int, ptRho: real, points: int, skip: int)
    requires 1 <= points
    requires |block| == 6
    requires forall d :: 0 <= d < 6 ==> block[d] == SubCall(gridIdx, d, McWeight(ptRho, points, skip), 0, points)
    ensures CallMass(block) == CellMass(ptRho, skip)
  {
    var w := McWeight(ptRho, points, skip);
    var m := Times(points, w);
    assert block[..5][..4][..3][..2][..1][..0] == [];
    assert CallMass(block[..1]) == m;
    assert CallMass(block[..2]) == 2.0 * m by { assert block[..2][..1] == block[..1]; }
    assert CallMass(block[..3]) == 3.0 * m by { assert block[..3][..2] == block[..2]; }
    assert CallMass(block[..4]) == 4.0 * m by { assert block[..4][..3] == block[..3]; }
    assert CallMass(block[..5]) == 5.0 * m by { assert block[..5][..4] == block[..4]; }
    assert block[..6] == block;
    TimesIsProduct(points, w);
    McWeightConservesMass(ptRho, points, skip);
  }

  /** Number of lattice cells a buffer covers. */
  function Volume(cb: CellBounds): int
  {
    cb.width.x * cb.width.y * cb.width.z
  }

  /** Bounds `AddBuffer` relies on: a periodic grid of cells^3 entries, an
      origin inside the grid, non-negative widths with the x extent at most
      one grid, and a buffer long enough for every cell it covers. */
  ghost predicate AddBufferBounds(grid: seq<real>, buf: seq<real>, cb: CellBounds, cells: int)
  {
    && 0 < cells
    && |grid| == cells * cells * cells
    && 0 <= cb.origin.x < cells && 0 <= cb.origin.y < cells && 0 <= cb.origin.z < cells
    && 0 <= cb.width.x <= cells && 0 <= cb.width.y && 0 <= cb.width.z
    && Volume(cb) <= |buf|
  }

  /** The x wrap of `AddBuffer`: one subtraction of the grid size. */
  function WrapX(x: int, cb: CellBounds, cells: int): int
  {
    var xg := x + cb.origin.x;
    if xg >= cells then xg - cells else xg
  }

  /** Grid address `AddBuffer` writes for buffer cell (x, y, z). */
  function GridTarget(x: int, y: int, z: int, cb: CellBounds, cells: int): int
    requires cells != 0
  {
    WrapX(x, cb, cells) + Rem(y + cb.origin.y, cells) * cells + Rem(z + cb.origin.z, cells) * cells * cells
  }

  /** Grid address written for the buffer entry at flat position b. */
  function TargetOf(b: int, cb: CellBounds, cells: int): int
    requires 0 < cells
    requires 0 < cb.width.x && 0 < cb.width.y
  {
    var w0, w1 := cb.width.x, cb.width.y;
    GridTarget(b % w0, b / w0 % w1, b / (w0 * w1), cb, cells)
  }

  /** Under the grid bounds the single-subtraction x wrap agrees with the
      modulo wrap applied to y and z. */
  lemma WrapXIsModulo(x: int, cb: CellBounds, cells: int)
    requires 0 < cells
    requires 0 <= cb.origin.x < cells
    requires 0 <= x < cb.width.x <= cells
    ensures WrapX(x, cb, cells) == (x + cb.origin.x) % cells
    ensures 0 <= WrapX(x, cb, cells) < cells
  {
    var xg := x + cb.origin.x;
    if xg >= cells {
      DivModUnique(xg, cells, 1, xg - cells);
    } else {
      DivModUnique(xg, cells, 0, xg);
    }
  }

  /** Every address `AddBuffer` computes lies inside the grid. */
  lemma GridTargetInRange(x: int, y: int, z: int, cb: CellBounds, cells: int)
    requires 0 < cells
    requires 0 <= cb.origin.x < cells && 0 <= cb.origin.y < cells && 0 <= cb.origin.z < cells
    requires 0 <= x < cb.width.x <= cells
    requires 0 <= y && 0 <= z
    ensures 0 <= GridTarget(x, y, z, cb, cells) < cells * cells * cells
  {
    WrapXIsModulo(x, cb, cells);
    FlatBounds(WrapX(x, cb, cells), Rem(y + cb.origin.y, cells), Rem(z + cb.origin.z, cells), cells, cells, cells);
  }

  /** The flat buffer position of (x, y, z) decodes back to (x, y, z), so the
      flat and the nested enumeration name the same target. */
  lemma TargetOfFlat(x: int, y: int, z: int, cb: CellBounds, cells: int)
    requires 0 < cells
    requires 0 <= x < cb.width.x
    requires 0 <= y < cb.width.y
    requires 0 <= z
    ensures TargetOf(Flat(x, y, z, cb.width.x, cb.width.y), cb, cells) == GridTarget(x, y, z, cb, cells)
  {
    FlatDecode(x, y, z, cb.width.x, cb.width.y);
  }

  /** Decoding a flat buffer position below the volume gives coordinates
      inside the buffer. */
  lemma DecodeInBuffer(b: int, cb: CellBounds)
    requires 0 <= b < Volume(cb)
    requires 0 <= cb.width.x && 0 <= cb.width.y && 0 <= cb.width.z
    ensures 0 < cb.width.x && 0 < cb.width.y
    ensures var w0, w1 := cb.width.x, cb.width.y;
      0 <= b / (w0 * w1) < cb.width.z && 0 <= b % w0 && b / w0 % w1 < w1 && 0 <= b / w0 % w1
      && b % w0 < w0
  {
    var w0, w1, w2 := cb.width.x, cb.width.y, cb.width.z;
    ProductPositive(w0, w1, w2);
    QuotBound(b, w0 * w1, w2);
  }

  /** A positive product of non-negative factors has positive factors. */
  lemma ProductPositive(a: int, b: int, c: int)
    requires 0 <= a && 0 <= b && 0 <= c
    requires 0 < a * b * c
    ensures 0 < a && 0 < b && 0 < c && 0 < a * b
  {
    if a == 0 || b == 0 || c == 0 {
      assert false;
    }
  }

  /** A position below n blocks of d lies in one of those blocks. */
  lemma QuotBound(b: int, d: int, n: int)
    requires 0 < d && 0 <= b < d * n
    ensures 0 <= b / d < n
  {
    var q := b / d;
    assert q * d + b % d == b;
    if n <= q {
      MulLe(n, q, d);
    }
  }

  /** Whether buffer entry b is applied: the buffer has it, its address
      decodes, and its target lies in a grid of `size` cells. Under
      `AddBufferBounds` every entry below the volume is applied. */
  predicate Applied(buf: seq<real>, cb: CellBounds, cells: int, size: int, b: int)
    requires 0 < cells
  {
    && 0 <= b < |buf|
    && 0 < cb.width.x && 0 < cb.width.y
    && 0 <= TargetOf(b, cb, cells) < size
  }

  /** Grid after the first n buffer entries, in flat buffer order, have been
      added to their targets: the reference definition `AddBuffer`'s nested
      loops compute. */
  function AddPrefix(grid: seq<real>, buf: seq<real>, cb: CellBounds, cells: int, n: int): (g: seq<real>)
    requires 0 < cells
    ensures |g| == |grid|
    decreases n
  {
    if n <= 0 then grid
    else
      var g := AddPrefix(grid, buf, cb, cells, n - 1);
      if Applied(buf, cb, cells, |grid|, n - 1) then
        var t := TargetOf(n - 1, cb, cells);
        g[t := g[t] + buf[n - 1]]
      else g
  }

  /** Total of the buffer entries among the first n that land on grid cell c. */
  function Share(buf: seq<real>, cb: CellBounds, cells: int, size: int, n: int, c: int): real
    requires 0 < cells
    decreases n
  {
    if n <= 0 then 0.0
    else
      Share(buf, cb, cells, size, n - 1, c)
      + (if Applied(buf, cb, cells, size, n - 1) && TargetOf(n - 1, cb, cells) == c then buf[n - 1] else 0.0)
  }

  /** Under the bounds every entry below the volume is applied. */
  lemma AppliedInBounds(grid: seq<real>, buf: seq<real>, cb: CellBounds, cells: int, b: int)
    requires AddBufferBounds(grid, buf, cb, cells)
    requires 0 <= b < Volume(cb)
    ensures Applied(buf, cb, cells, |grid|, b)
  {
    DecodeInBuffer(b, cb);
    var w0, w1 := cb.width.x, cb.width.y;
    GridTargetInRange(b % w0, b / w0 % w1, b / (w0 * w1), cb, cells);
  }

  /** What the prefix application does to each cell and to the total: each
      cell gains its share, and the grid total gains the buffer prefix. */
  lemma {:induction false} AddPrefixEffect(grid: seq<real>, buf: seq<real>, cb: CellBounds, cells: int, n: int)
    requires AddBufferBounds(grid, buf, cb, cells)
    requires 0 <= n <= Volume(cb)
    ensures forall c :: 0 <= c < |grid| ==> AddPrefix(grid, buf, cb, cells, n)[c] == grid[c] + Share(buf, cb, cells, |grid|, n, c)
    ensures Sum(AddPrefix(grid, buf, cb, cells, n)) == Sum(grid) + Sum(buf[..n])
  {
    if n > 0 {
      AppliedInBounds(grid, buf, cb, cells, n - 1);
      AddPrefixEffect(grid, buf, cb, cells, n - 1);
      var g := AddPrefix(grid, buf, cb, cells, n - 1);
      var t := TargetOf(n - 1, cb, cells);
      SumUpdate(g, t, buf[n - 1]);
      SumPrefixStep(buf, n - 1);
    }
  }

  /** `AddBuffer`: adds every buffer entry to its periodically wrapped grid
      cell. The nested z/y/x loops visit the buffer in flat order, so the
      result is the full prefix application: every grid cell gains exactly
      the buffer entries that target it, and the grid total gains the
      buffer total. */
  method AddBuffer(grid: seq<real>, buf: seq<real>, cb: CellBounds, cells: int) returns (out: seq<real>)
    requires AddBufferBounds(grid, buf, cb, cells)
    ensures out == AddPrefix(grid, buf, cb, cells, Volume(cb))
    ensures |out| == |grid|
    ensures forall c :: 0 <= c < |grid| ==> out[c] == grid[c] + Share(buf, cb, cells, |grid|, Volume(cb), c)
    ensures Sum(out) == Sum(grid) + Sum(buf[..Volume(cb)])
  {
    var w0, w1, w2 := cb.width.x, cb.width.y, cb.width.z;
    out := grid;
    var z := 0;
    while z < w2
      invariant 0 <= z <= w2
      invariant out == AddPrefix(grid, buf, cb, cells, z * w0 * w1)
    {
      var zBufIdx := z * w0 * w1;
      var zGridIdx := Rem(z + cb.origin.z, cells) * cells * cells;
      out := AddPlane(out, grid, buf, cb, cells, z, zBufIdx, zGridIdx);
      NextPlane(z, w0, w1);
      z := z + 1;
    }
    AddBufferDone(grid, buf, cb, cells, z);
  }

  /** The y loop of `AddBuffer` for plane z, whose buffer and grid offsets
      the z loop has computed: applies the plane's w0 * w1 buffer entries
      in flat order. */
  method AddPlane(out0: seq<real>, grid: seq<real>, buf: seq<real>, cb: CellBounds, cells: int, z: int, zBufIdx: int, zGridIdx: int)
    returns (out: seq<real>)
    requires AddBufferBounds(grid, buf, cb, cells)
    requires 0 <= z < cb.width.z
    requires zBufIdx == z * cb.width.x * cb.width.y
    requires zGridIdx == Rem(z + cb.origin.z, cells) * cells * cells
    requires out0 == AddPrefix(grid, buf, cb, cells, zBufIdx)
    ensures out == AddPrefix(grid, buf, cb, cells, zBufIdx + cb.width.y * cb.width.x)
  {
    var w0, w1 := cb.width.x, cb.width.y;
    out := out0;
    var y := 0;
    while y < w1
      invariant 0 <= y <= w1
      invariant out == AddPrefix(grid, buf, cb, cells, zBufIdx + y * w0)
    {
      out := AddRow(out, grid, buf, cb, cells, y, z, zBufIdx, zGridIdx);
      y := y + 1;
    }
  }

  /** The x loop of `AddBuffer` for row y of plane z. */
  method AddRow(out0: seq<real>, grid: seq<real>, buf: seq<real>, cb: CellBounds, cells: int, y: int, z: int, zBufIdx: int, zGridIdx: int)
    returns (out: seq<real>)
    requires AddBufferBounds(grid, buf, cb, cells)
    requires 0 <= y < cb.width.y && 0 <= z < cb.width.z
    requires zBufIdx == z * cb.width.x * cb.width.y
    requires zGridIdx == Rem(z + cb.origin.z, cells) * cells * cells
    requires out0 == AddPrefix(grid, buf, cb, cells, zBufIdx + y * cb.width.x)
    ensures out == AddPrefix(grid, buf, cb, cells, zBufIdx + (y + 1) * cb.width.x)
  {
    var w0 := cb.width.x;
    out := out0;
    var yBufIdx := y * w0;
    var yGridIdx := Rem(y + cb.origin.y, cells) * cells;
    var x := 0;
    while x < w0
      invariant 0 <= x <= w0
      invariant out == AddPrefix(grid, buf, cb, cells, x + yBufIdx + zBufIdx)
    {
      var xGridIdx := x + cb.origin.x;
      if xGridIdx >= cells { xGridIdx := xGridIdx - cells; }
      var bufIdx := x + yBufIdx + zBufIdx;
      var gridIdx := xGridIdx + yGridIdx + zGridIdx;
      assert xGridIdx == WrapX(x, cb, cells);
      assert bufIdx == Flat(x, y, z, w0, cb.width.y);
      AddPrefixStep(grid, buf, cb, cells, x, y, z, bufIdx, gridIdx);
      out := out[gridIdx := out[gridIdx] + buf[bufIdx]];
      x := x + 1;
    }
    ScaleStepInt(y, w0);
  }

  /** After the last plane the flat position is the buffer volume, and the
      prefix application has its per-cell and total effect. */
  lemma AddBufferDone(grid: seq<real>, buf: seq<real>, cb: CellBounds, cells: int, z: int)
    requires AddBufferBounds(grid, buf, cb, cells)
    requires z == cb.width.z
    ensures z * cb.width.x * cb.width.y == Volume(cb)
    ensures forall c :: 0 <= c < |grid| ==> AddPrefix(grid, buf, cb, cells, Volume(cb))[c] == grid[c] + Share(buf, cb, cells, |grid|, Volume(cb), c)
    ensures Sum(AddPrefix(grid, buf, cb, cells, Volume(cb))) == Sum(grid) + Sum(buf[..Volume(cb)])
  {
    Rotate3(z, cb.width.x, cb.width.y);
    AddPrefixEffect(grid, buf, cb, cells, Volume(cb));
  }

  lemma Rotate3(a: int, b: int, c: int)
    ensures a * b * c == b * c * a
  {
  }

  /** A full plane of the y loop advances the flat position by w0 * w1. */
  lemma NextPlane(z: int, w0: int, w1: int)
    ensures z * w0 * w1 + w1 * w0 == (z + 1) * w0 * w1
  {
  }

  /** One step of the nested loops is one step of the flat prefix
      application: entry Flat(x, y, z) goes to GridTarget(x, y, z). */
  lemma AddPrefixStep(grid: seq<real>, buf: seq<real>, cb: CellBounds, cells: int, x: int, y: int, z: int, n: int, g: int)
    requires AddBufferBounds(grid, buf, cb, cells)
    requires 0 <= x < cb.width.x && 0 <= y < cb.width.y && 0 <= z < cb.width.z
    requires n == Flat(x, y, z, cb.width.x, cb.width.y)
    requires g == GridTarget(x, y, z, cb, cells)
    ensures 0 <= n < |buf|
    ensures 0 <= g < |grid|
    ensures var p := AddPrefix(grid, buf, cb, cells, n);
      AddPrefix(grid, buf, cb, cells, n + 1) == p[g := p[g] + buf[n]]
  {
    FlatBounds(x, y, z, cb.width.x, cb.width.y, cb.width.z);
    GridTargetInRange(x, y, z, cb, cells);
    TargetOfFlat(x, y, z, cb, cells);
    AppliedInBounds(grid, buf, cb, cells, n);
  }

  /** With every width at most the grid size, distinct buffer cells map to
      distinct grid cells. */
  lemma GridTargetInjective(x1: int, y1: int, z1: int, x2: int, y2: int, z2: int, cb: CellBounds, cells: int)
    requires 0 < cells
    requires 0 <= cb.origin.x < cells && 0 <= cb.origin.y < cells && 0 <= cb.origin.z < cells
    requires cb.width.x <= cells && cb.width.y <= cells && cb.width.z <= cells
    requires 0 <= x1 < cb.width.x && 0 <= y1 < cb.width.y && 0 <= z1 < cb.width.z
    requires 0 <= x2 < cb.width.x && 0 <= y2 < cb.width.y && 0 <= z2 < cb.width.z
    requires GridTarget(x1, y1, z1, cb, cells) == GridTarget(x2, y2, z2, cb, cells)
    ensures x1 == x2 && y1 == y2 && z1 == z2
  {
    WrapXIsModulo(x1, cb, cells);
    WrapXIsModulo(x2, cb, cells);
    var a1, b1, c1 := WrapX(x1, cb, cells), Rem(y1 + cb.origin.y, cells), Rem(z1 + cb.origin.z, cells);
    var a2, b2, c2 := WrapX(x2, cb, cells), Rem(y2 + cb.origin.y, cells), Rem(z2 + cb.origin.z, cells);
    assert b1 == (y1 + cb.origin.y) % cells && b2 == (y2 + cb.origin.y) % cells;
    assert c1 == (z1 + cb.origin.z) % cells && c2 == (z2 + cb.origin.z) % cells;
    FlatSame(a1, b1, c1, a2, b2, c2, cells);
    ModInjective(x1 + cb.origin.x, x2 + cb.origin.x, cells);
    ModInjective(y1 + cb.origin.y, y2 + cb.origin.y, cells);
    ModInjective(z1 + cb.origin.z, z2 + cb.origin.z, cells);
  }

  /** Equal flat addresses of in-range triples have equal coordinates. */
  lemma FlatSame(a1: int, b1: int, c1: int, a2: int, b2: int, c2: int, cells: int)
    requires 0 <= a1 < cells && 0 <= b1 < cells && 0 <= c1
    requires 0 <= a2 < cells && 0 <= b2 < cells && 0 <= c2
    requires a1 + b1 * cells + c1 * cells * cells == a2 + b2 * cells + c2 * cells * cells
    ensures a1 == a2 && b1 == b2 && c1 == c2
  {
    FlatDecode(a1, b1, c1, cells, cells);
    FlatDecode(a2, b2, c2, cells, cells);
  }

  /** Two non-negative values less than a period apart with equal residues
      are equal. */
  lemma ModInjective(u: int, v: int, m: int)
    requires 0 < m
    requires 0 <= u && 0 <= v
    requires -m < u - v < m
    requires u % m == v % m
    ensures u == v
  {
    var qu, qv := u / m, v / m;
    assert u - v == (qu - qv) * m;
    if qu > qv {
      MulLe(1, qu - qv, m);
    } else if qu < qv {
      MulLe(1, qv - qu, m);
    }
  }

  /** Under injectivity the share of the grid cell hit by buffer entry b is
      exactly buf[b]: no buffer entry is lost or counted twice. */
  lemma {:induction false} ShareOfTarget(buf: seq<real>, cb: CellBounds, cells: int, size: int, n: int, b: int)
    requires 0 < cells
    requires 0 <= cb.origin.x < cells && 0 <= cb.origin.y < cells && 0 <= cb.origin.z < cells
    requires 0 < cb.width.x <= cells && 0 < cb.width.y <= cells && 0 <= cb.width.z <= cells
    requires 0 <= n <= Volume(cb) && Volume(cb) <= |buf|
    requires 0 <= b < Volume(cb)
    requires forall b' :: 0 <= b' < Volume(cb) ==> Applied(buf, cb, cells, size, b')
    ensures Share(buf, cb, cells, size, n, TargetOf(b, cb, cells)) == if b < n then buf[b] else 0.0
  {
    if n > 0 {
      ShareOfTarget(buf, cb, cells, size, n - 1, b);
      if n - 1 != b {
        var w0, w1 := cb.width.x, cb.width.y;
        DecodeInBuffer(n - 1, cb);
        DecodeInBuffer(b, cb);
        if TargetOf(n - 1, cb, cells) == TargetOf(b, cb, cells) {
          GridTargetInjective((n - 1) % w0, (n - 1) / w0 % w1, (n - 1) / (w0 * w1), b % w0, b / w0 % w1, b / (w0 * w1), cb, cells);
          FlatOfDecode(n - 1, w0, w1);
          FlatOfDecode(b, w0, w1);
        }
      }
    }
  }

  /** A grid cell no buffer entry targets keeps a zero share, so `AddBuffer`
      leaves it unchanged. */
  lemma {:induction false} ShareOfUntargeted(buf: seq<real>, cb: CellBounds, cells: int, size: int, n: int, c: int)
    requires 0 < cells
    requires 0 < cb.width.x && 0 < cb.width.y
    requires forall b :: 0 <= b < n ==> TargetOf(b, cb, cells) != c
    ensures Share(buf, cb, cells, size, n, c) == 0.0
  {
    if n > 0 {
      ShareOfUntargeted(buf, cb, cells, size, n - 1, c);
    }
  }
}
