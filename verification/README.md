# gotetra halo-shell core in Dafny

This project models the sequential core of gotetra's halo-shell pipeline and proves properties of that model. Four groups of code are covered:

- **Density deposition** (`density/density.go`). This covers:
  - the flat lattice index and its inverse (`index`, `coords`);
  - the nearest-grid-point deposit;
  - the per-sample weight and call structure of the Monte-Carlo tetrahedron interpolator;
  - the periodic accumulation of a density sub-buffer into the global grid (`AddBuffer`).
- **The `SphereHalo` ring geometry** (`los/sphere_halo/sphere_halo.go`). This covers:
  - `Init`, `Split`, `Join`, `Intersect` and `Transform`;
  - the slab test `sphereIntersectRing`;
  - the two branches of `insertToRing`, modelled as the list of `ProfileRing.Insert(lo, hi, rho, line)` calls they make;
  - the angular index range `idxRange`;
  - the chord distances `oneValIntrDist` and `twoValIntrDist`.
- **The Penna surface fit** (`los/analyze/penna.go`). This covers the design-matrix fill of `PennaCoeffs`, the evaluation closure `PennaFunc`, and the shape and failure contract of `pinv`.
- **Helpers of the shell driver** (`los/main/gtet_shell.go`). This covers:
  - the spherical profile: `newSphericalProfile`, `transform`, `r2`, `contains` and `insert`;
  - `wrapDist` and `prependRadii`;
  - the intersection buffers: `newIntrBuffers`, `loadVecs` and `zCounts`;
  - the load balancer `zSplit`;
  - the loop structure of `xyInterpolate`;
  - `binBySnap`.

Floating-point numbers are modelled as `real`. Transcendental functions are fields of a `RealMath.Fns` record passed as a parameter. Each proof assumes only the laws it needs, stated as predicates over those fields:

- `SqrtLaw`: square roots are non-negative and square back.
- `LogLaw`: log is strictly increasing and log of a square is twice the log.
- `ExpLaw`: exp is strictly increasing and inverts log.
- `AngleLaw`: ranges of asin and atan2.

Go's truncating integer `/` and `%` are `GoNum.Quot` and `GoNum.Rem`. Go's `int(x)` on a float is `GoNum.Trunc`. Where the Go code panics (an index past a slice, a negative `make`, an integer division by zero, an explicit `panic`), the model returns the `Failure` case of `Results.Result`.

Collaborators whose code is not part of this model are abstract parameters:

- `los.ProfileRing`: a type parameter with an operations record.
- Rotation matrices: a type parameter with `between` and `rotate` functions.
- gonum's `Inverse`: a function that may fail.
- The trilinear interpolators of `xyInterpolate`: an evaluation function.

`SphereHalo.Insert` and `InsertToRing` take a `Variant`:

- `AsWritten` uses `idxRange`, `oneValIntrDist` and `twoValIntrDist` exactly as the source has them. This includes the argument order at the call site of `idxRange`.
- `Corrected` uses the repaired definitions listed under "Findings".

## Model

| member | source | states |
|---|---|---|
| Density.CoordsOfIndex | density/density.go:119-128 | For 0 <= x, y, z < cells, `coords(index(x, y, z))` gives back (x, y, z) |
| Density.IndexOfCoords | density/density.go:119-128 | For every address idx >= 0, `index(coords(idx))` gives back idx |
| Density.CoordsInRange | density/density.go:123-128 | For idx >= 0, x and y lie in [0, cells) and z is idx / cells² |
| Density.NgpInterpolate | density/density.go:65-78 | Each cell gains ptRho once per point of [low, high) whose truncated coordinates address it. A cell no point hits keeps its value. The grid total grows by (high - low) * ptRho |
| Density.DepositIsHitsTimesMass | density/density.go:71-77 | The mass deposited on a cell is its number of hits times the point mass |
| Density.McWeightConservesMass | density/density.go:88-89 | For any points >= 1, the six tetrahedra of `points` samples at weight ptRho/points/6 * skip³ carry exactly ptRho * skip³ |
| Density.McInterpolate | density/density.go:80-117 | Makes exactly 6 sub-interpolator calls per idx in [low, high). Call t uses the lattice corner of cell low + t/6 and direction t%6, over samples [0, points). The whole log carries one cell mass per cell |
| Density.BlockMass | density/density.go:95-115 | The six full-range calls of one cell at the Monte-Carlo weight carry exactly one cell mass |
| Density.WrapXIsModulo | density/density.go:135-144 | With the origin in the grid and the x width at most cells, the single-subtraction x wrap equals the modulo wrap used for y and z, and lands in [0, cells) |
| Density.GridTargetInRange | density/density.go:133-147 | Every grid address the loops compute lies in [0, cells³) |
| Density.GridTargetInjective | density/density.go:133-147 | With every width at most cells, distinct buffer cells are written to distinct grid cells |
| Density.AddBuffer | density/density.go:132-153 | Every grid cell gains exactly the buffer entries that target it. The grid total gains the buffer total |
| Density.ShareOfTarget | density/density.go:146-149 | When every buffer entry targets a cell of the grid, the cell that entry b targets gains exactly buf[b] from the first n entries if b < n, and nothing otherwise |
| Density.ShareOfUntargeted | density/density.go:146-149 | A grid cell that no buffer entry targets gains nothing |
| SphereHalo.Init | los/sphere_halo/sphere_halo.go:63-90 | Creates one profile ring over [log rMin, log rMax] and one rotation per normal. Line i sits at angle 2πi/n with direction (cos, sin). The other fields are stored as given |
| SphereHalo.InitLinesEquallySpaced | los/sphere_halo/sphere_halo.go:83-89 | Line angles start at 0, are dPhi = 2π/n apart, and stay below 2π |
| SphereHalo.Split | los/sphere_halo/sphere_halo.go:97-112 | A copy of a different size is re-initialised from h. Any other copy takes h's normals, rotations, origin and radii. h keeps everything but its profiles |
| SphereHalo.SplitConservesMass | los/sphere_halo/sphere_halo.go:92-111 | If ring splitting conserves mass, each ring's mass over h and all copies is unchanged by `Split` |
| SphereHalo.Join | los/sphere_halo/sphere_halo.go:118-129 | Fails exactly when some copy differs from h in rings, bins or n, and reports the first such copy. Otherwise only h's profiles change |
| SphereHalo.JoinAddsMass | los/sphere_halo/sphere_halo.go:114-128 | If ring joining adds masses, after a successful join each ring of h holds its own mass plus that ring's mass in every copy |
| SphereHalo.Intersect | los/sphere_halo/sphere_halo.go:136-149 | Fails exactly when the flag buffer's length differs from the point count. Otherwise it returns one flag per point |
| SphereHalo.IntersectIsShell | los/sphere_halo/sphere_halo.go:137-147 | A point is flagged iff its distance from the origin is strictly between max(rMin + r, 0) and abs(rMax + r) |
| SphereHalo.TransformIsMinimumImage | los/sphere_halo/sphere_halo.go:153-181 | Each point is the per-coordinate wrap of its input. Points within 1.5 box widths of the origin end within half a width of it. Transforming twice equals transforming once |
| SphereHalo.SphereIntersectRingIsDistance | los/sphere_halo/sphere_halo.go:203-209 | A ring is hit iff the radius is positive and the squared distance of the centre from the ring's plane is below the squared radius |
| SphereHalo.HitCutsCircle | los/sphere_halo/sphere_halo.go:196-219 | If the ring is hit and its rotation maps the normal onto z, the plane cuts the sphere in a circle of positive squared radius |
| SphereHalo.ArcOf | los/sphere_halo/sphere_halo.go:230-232 | The angular extent of a circle off the centre is at most half a turn wide, starts at most at π and ends in (-π, 3π/2] |
| SphereHalo.IdxRangeNonWrapOneLine | los/sphere_halo/sphere_halo.go:275-279 | When neither end wraps, `idxRange` names exactly one line, however wide the arc |
| SphereHalo.IdxRangeInLines | los/sphere_halo/sphere_halo.go:233-281 | Called as `insertToRing` calls it, `idxRange` returns runs inside [0, n) for every arc a circle can have |
| SphereHalo.ArcRangeInLines | los/sphere_halo/sphere_halo.go:255-281 | The corrected runs lie inside [0, n) for every arc within one turn of angle 0 |
| SphereHalo.ArcRangeExact | los/sphere_halo/sphere_halo.go:255-281 | For an arc within one turn of angle 0, line k is in one of the corrected runs exactly when its bin, the angles from line k up to line k + 1, meets the arc, allowing one turn either way |
| SphereHalo.ArcRangeCovers | los/sphere_halo/sphere_halo.go:250-281 | Every line whose angle lies on the arc is in one of the corrected runs |
| SphereHalo.InsertToRingContainsCentre | los/sphere_halo/sphere_halo.go:220-227 | When the circle contains the centre, there are exactly n insertions. The i-th is for line i, from -∞ to the log of its exit radius. With the corrected radius, that is where the line leaves the circle |
| SphereHalo.InsertToRingOffCentre | los/sphere_halo/sphere_halo.go:228-247 | Off the centre, every insertion has a finite lower end. Line k receives an insertion iff it lies in one of the two runs of the line ranges |
| SphereHalo.InsertToRingChords | los/sphere_halo/sphere_halo.go:235-246 | Off the centre, every insertion is the chord insertion of its own line |
| SphereHalo.CorrectedInsertCoversArc | los/sphere_halo/sphere_halo.go:228-247 | With the corrected arc, a line receives an insertion exactly when its bin meets the circle's arc; in particular every line whose angle lies on the arc receives one |
| SphereHalo.ChordEventSpansChord | los/sphere_halo/sphere_halo.go:237-239 | For a line that meets the circle, a corrected chord insertion spans from the log of the entry distance to the log of the exit distance. The two points where the line meets the circle are exactly those distances |
| SphereHalo.ArcRangeFirstLineOffArc | los/sphere_halo/sphere_halo.go:255-281 | With four lines, the corrected run for the arc [0.7, 1.3] is line 0 alone, whose angle lies off the arc |
| SphereHalo.Insert | los/sphere_halo/sphere_halo.go:186-200 | Every insertion addresses a hit ring, a line below n and the given density |
| SphereHalo.InsertRingEvents | los/sphere_halo/sphere_halo.go:186-200 | Each ring receives exactly the insertions `insertToRing` makes for it if it is hit, and none otherwise |
| RingGeometry.HalfAngularWidthRange | los/sphere_halo/sphere_halo.go:286-288 | For a circle off the centre, the half angular width lies in [0, π/2] |
| RingGeometry.TwoValIntrDistSymmetric | los/sphere_halo/sphere_halo.go:296-300 | With rad2 <= dist2 and b² <= rad2, lo <= hi and lo + hi = 2 sqrt(dist2 - rad2) |
| RingGeometry.TwoValIntrDistMissesCircle | los/sphere_halo/sphere_halo.go:296-300 | As written, the far distance need not lie on the circle (see Findings) |
| RingGeometry.ChordDistsAreIntersections | los/sphere_halo/sphere_halo.go:296-300 | The corrected chord distances are ordered, and a point on the line is on the circle iff it is at one of them |
| RingGeometry.OneValIntrDistMissesCircle | los/sphere_halo/sphere_halo.go:307-309 | As written, the exit distance from a circle containing the centre need not lie on the circle (see Findings) |
| RingGeometry.ExitDistIsExit | los/sphere_halo/sphere_halo.go:307-309 | The corrected exit distance is positive, lies on the circle, and is the only non-negative distance on it |
| Penna.TrigOnUnitCircles | los/analyze/penna.go:44-50 | Off the polar axis, both angles' sine and cosine lie on the unit circle. The radius and angles rebuild the point (x, y, z) |
| Penna.DesignGet | los/analyze/penna.go:52-74 | Entry (m, n) of the design matrix is basis function (i, j, k) at sample n, where m = i + I j + I J k |
| Penna.EntryIs | los/analyze/penna.go:62-71 | The running product cosphi = cosphis[n]^i, with the precomputed powers, gives the basis value sinθ^(i+j) cosφ^i cosθ^k sinφ^j |
| Penna.FillDesign | los/analyze/penna.go:55-74 | The fill loops produce the design matrix, and every slot is written exactly once |
| Penna.PennaEval | los/analyze/penna.go:81-100 | The closure stops with an index out of range exactly when cs holds fewer than I J K coefficients; otherwise its loops compute the sum over m of cs[m] times basis function m |
| Penna.FitMatchesEval | los/analyze/penna.go:52-100 | The coefficient row times design column n equals the evaluated surface at sample n's angles: fit and evaluation use the same basis in the same order |
| Penna.PennaFuncConstant | los/analyze/penna.go:87-97 | With only cs[0] non-zero and I, J, K >= 1, the surface is cs[0] at every angle |
| Penna.PennaFuncLinear | los/analyze/penna.go:83-99 | The surface is linear in its coefficient vector |
| Penna.Pinv | los/analyze/penna.go:10-31 | Fails with a dimension error exactly when the storage does not fit the shape. Fails with `NotInvertible` exactly when the inverse fails. Otherwise the result has the transposed shape |
| Penna.RelayoutIsCopy | los/analyze/penna.go:24-30 | The copy loop `vals[y*Height + x] = out2(y, x)` reproduces out2's storage |
| Penna.PinvIsRightInverse | los/analyze/penna.go:10-31 | When the inverse is exact, m times `pinv(m, mᵀ)` is the identity |
| Penna.PennaCoeffs | los/analyze/penna.go:33-79 | It stops with an index out of range exactly when ys or zs is shorter than xs. Otherwise it fails, always with `NotInvertible` from the pseudo-inverse, exactly when the inverse of M Mᵀ fails, for the design matrix M of the samples' directions. On success it returns exactly I J K coefficients |
| Periodic.WrapCoordIsMinimumImage | los/main/gtet_shell.go:820-829 | Within 1.5 box widths of the reference, the wrapped coordinate is within half a width, and moved by -w, 0 or w |
| Periodic.WrapDist | los/main/gtet_shell.go:820-829 | `wrapDist(x1, x2, w)` is the wrapped coordinate of x1 seen from x2, minus x2 |
| Periodic.WrapAllIsMinimumImage | los/sphere_halo/sphere_halo.go:160-181 | Points within 1.5 boxes of the origin end within half a box, and wrapping twice equals wrapping once |
| ShellProfile.NewSphericalProfile | los/main/gtet_shell.go:581-602 | Fails exactly when rBins < 0. Otherwise there are rBins bins, all empty, and the origin, radii, box width and count width are stored as given |
| ShellProfile.NewProfileValid | los/main/gtet_shell.go:581-602 | For 0 < rMin < rMax and rBins > 0, the profile is valid and its bins have positive log width |
| ShellProfile.TransformIsWrapDist | los/main/gtet_shell.go:606-635 | Each offset coordinate of a transformed point is `wrapDist` of the input coordinate. Points within 1.5 boxes end within half a box |
| ShellProfile.R2 | los/main/gtet_shell.go:639-643 | r2 is the non-negative squared norm of the offset from the origin |
| ShellProfile.R2ZeroAtOrigin | los/main/gtet_shell.go:639-643 | r2 is zero exactly at the profile's origin |
| ShellProfile.Insert | los/main/gtet_shell.go:654-662 | A point outside the shell returns false and changes nothing. The result is true iff `contains` holds. An inserted point adds 1 to exactly one bin and to the total |
| ShellProfile.InsertBinsByLogRadius | los/main/gtet_shell.go:654-662 | In a valid profile, a point inside the shell is counted in bin int((lr - lrMin)/dlr), which lies in [0, rBins). That bin's log range holds lr = log(r2)/2 |
| ShellProfile.InsertAllCounts | los/main/gtet_shell.go:654-662 | Inserting a sequence of points into a valid profile never fails. The total grows by the number of points inside the shell |
| ShellProfile.PrependRadii | los/main/gtet_shell.go:831-843 | Fails exactly when there are fewer ranges than rows. Row i has length 2 len(rhos[i]); its second half is rhos[i] and its first half the bin radii |
| ShellProfile.RadiiIncreaseWithin | los/main/gtet_shell.go:836-840 | For 0 < rMin < rMax, the bin radii increase strictly and lie strictly between rMin and rMax |
| ShellBuffers.NewIntrBuffers | los/main/gtet_shell.go:448-463 | Fails exactly when skip is 0 or segWidth/skip < 0. Otherwise kw = segWidth/skip + 1; the slices have lengths kw³ and (kw-1)³ and hold no flags |
| ShellBuffers.NewBuffersSpanSegment | los/main/gtet_shell.go:448-453 | For segWidth >= 0 and skip > 0, the kw samples per side span the segment: (kw-1) skip <= segWidth < kw skip |
| ShellBuffers.LoadVecs | los/main/gtet_shell.go:468-519 | Fails exactly when some sample indexes past the vector slice. Otherwise only the coordinate and flag slices change, with their lengths |
| ShellBuffers.LoadVecsSamples | los/main/gtet_shell.go:472-491 | Sample (xk, yk, zk) holds the coordinates of grid point (xk, yk, zk) * skip. It is flagged iff the profile contains that point |
| ShellBuffers.LoadVecsBoxes | los/main/gtet_shell.go:493-518 | The box with low corner (x0, y0, z0) is flagged iff one of its eight corner samples is flagged |
| ShellBuffers.ZCounts | los/main/gtet_shell.go:522-536 | counts[z] is the number of flagged boxes in layer z, and the counts sum to the number of flagged boxes |
| ShellSplit.ZSplitPoints | los/main/gtet_shell.go:540-558 | The cut points run from 0 to the number of layers without decreasing. The unused tail is set to the number of layers |
| ShellSplit.CursorBelowWorkers | los/main/gtet_shell.go:545-556 | At every write, the split cursor is below `workers`, and the share width is positive |
| ShellSplit.ZSplit | los/main/gtet_shell.go:539-569 | Returns `workers` lists. Every layer with a positive count is in exactly one list, and zero-count layers are in none. The concatenated lists are strictly increasing |
| ShellSplit.PositivesMembers | los/main/gtet_shell.go:562-565 | A worker's list holds a layer iff the layer lies between the worker's cuts and has a positive count |
| ShellInterpolate.RunEnd | los/main/gtet_shell.go:719-727 | Each run of equal y cells is non-empty and has one y cell throughout. It ends at a different y cell or at the end of the buffer |
| ShellInterpolate.SamplesCount | los/main/gtet_shell.go:707-751 | `xyInterpolate` takes pts³ samples per box, pts³ len(xBuf) in all |
| ShellInterpolate.SamplesMembers | los/main/gtet_shell.go:715-747 | A sample is taken iff it is at a box k < len(xBuf), with that box's own x and y cells and steps xi, yi, zi below pts |
| ShellInterpolate.XyInterpolate | los/main/gtet_shell.go:707-751 | The number of points counted is at most the number of samples |
| ShellInterpolate.XyInterpolateCounts | los/main/gtet_shell.go:707-751 | On a valid profile it never fails. Only the bin counts change, and their total grows by the number of points counted |
| ShellSnaps.BinBySnap | los/main/gtet_shell.go:872-881 | Fails exactly when there are fewer ids than snaps. Otherwise there is one group per snapshot that occurs. The group of s lists the positions of s, and its IDs are the IDs at those positions |
| ShellSnaps.BinnedPartition | los/main/gtet_shell.go:872-881 | Position i is in the group of s iff snaps[i] = s, so every position is in exactly one group. Each group is strictly increasing |
| ShellSnaps.IndicesOfMembers | los/main/gtet_shell.go:874-879 | A position is listed for s iff it is a position of the input and its snapshot is s |

## Left out

- Floating point: every float32 and float64 is a `real`. This drops rounding, the float32 conversions in `Transform` and `Intersect`, and the precision concern about computing sinθ by multiplication (los/analyze/penna.go:64-65). The special values are dropped too: a zero bin count or zero sample count, which gives ±Inf or NaN in Go, is a guarded case here.
- Go's `int` width: integers are unbounded, so 64-bit overflow is not modelled.
- `los.ProfileRing`, rotation matrices (`EulerMatrixBetweenAt`, `Vec.Rotate`) and gonum's `Inverse`: their code is not part of this model. They are abstract parameters, and the laws the proofs use are explicit predicates.
- Penna.VecMult: gotetra's own `math/mat` package (`VecMult`, `NewMatrix`, `Transpose` and the row-major `Vals` layout of `mat.Matrix`, used at los/analyze/penna.go:6, 10-12, 53 and 77) is not among the modelled files. It is written out concretely in `Matrices` (`Matrix`, `Get`, `Transpose`, `Mul`) and as `VecMult`, the row vector times the matrix; this is an assumption about that package rather than a reading of its code. Only `mat64` comes from gonum, and its `Inverse` stays an abstract parameter.
- The random generator, `Tetra.Init` and `DistributeTetra` in `mcarlo.Interpolate`: they only fill the sample buffer. The model keeps the call structure and the weights.
- Concurrency around `Split` and `Join`: the calls are modelled sequentially.
- SphereHalo.SplitConservesMass: h and the copies are separate values. The package's documented usage (los/sphere_halo/sphere_halo.go:8-30) takes `h := &hs[0]` and then calls `h.Split(hs)`, so that h is also the first copy and line 109 splits a ring into itself; that aliased call is not covered.
- SphereHalo.JoinAddsMass: likewise h is not one of the copies. When h is hs[0], line 126 joins each ring of h with itself, and what Go leaves there is not stated.
- The orchestration in los/main/gtet_shell.go (`main`, `parseCmd`, `createHalos`, `profile`, `newProfileRanges`, `countsToRhos`, the `*BinParticles` drivers, `binIntersections`, `binRangeIntersections`, `calcCoeffs`, `calcMedian`, `calcMean`), los/main/main.go and the plotting script: file I/O, time-seeded randomness and calls into packages outside this model.
- Density.NgpInterpolate: requires every point's cell to lie inside the density slice, and, for a non-empty range, 0 <= low and high <= len(xs). The source panics on an out-of-range index in both cases (density/density.go:71-72 reads `xs[idx]`).
- Density.McInterpolate: requires skip != 0, points >= 1 and segWidth/skip != 0 for a non-empty range. The source divides by zero there: it panics on the integer divisions and produces an infinite weight for points = 0. It also requires 0 <= low for a non-empty range: with a negative index the source's truncating `/` and `%` give negative corner coordinates, which index outside the grid.
- Density.AddBuffer: requires the origin to lie inside the grid, the x width to be at most one grid, and the buffer to cover its cells. Outside those bounds the source writes wrapped or out-of-range addresses.
- SphereHalo.Init: requires n >= 1. For n = 0 the source computes an infinite dPhi and allocates no lines.
- SphereHalo.InsertToRing: requires the ring's plane to cut the sphere, which `Insert` checks with `sphereIntersectRing` before calling it.
- Penna.PennaCoeffs: requires every sample off the polar axis (x² + y² > 0), where the source divides by zero and produces NaN. The coefficients are `VecMult` of the radii with the pseudo-inverse; their least-squares optimality is not stated.
- Penna.PennaFuncConstant and Penna.PennaFuncLinear: they are stated for the reference sum, which needs at least I J K coefficients. The short case, where the closure panics, is covered by `PennaEval` as an index-out-of-range failure.
- ShellSplit.ZSplit: requires workers >= 1 and non-negative counts. The source divides by zero for zero workers, and with negative counts its inner target loop need not end.
- ShellInterpolate.XyInterpolate: the interpolators' `Eval` calls are one function parameter, and the y buffer must be at least as long as the x buffer, as the caller fills both together.
- SphereHalo.ChordEventSpansChord: stated only for lines whose radicand rad2 - dist2 + b² is non-negative. The first line of each corrected run is the line whose bin holds the arc's start, and its angle can lie below the arc (SphereHalo.ArcRangeFirstLineOffArc), so its ray can miss the circle. `InsertToRing` still emits a chord event for that line; its chord ends are the square roots of a negative number, NaN in Go, and nothing is promised about them.
- ShellProfile.RadiiIncreaseWithin: states the order and range of the bin radii, not that each radius is the geometric centre of its bin, because `ExpLaw` gives exp(log x) = x but not log(exp x) = x.

## Findings

| source | as written | input that shows it | evidently intended | confidence | as-written member | corrected member |
|---|---|---|---|---|---|---|
| los/sphere_halo/sphere_halo.go:296-300 | `twoValIntrDist` returns sqrt(dist2 - rad2) ∓ sqrt(rad2 - b²). It treats b, the projection of the circle's centre on the line, as the perpendicular impact parameter, and the tangent length as the chord midpoint | dist2 = 4, rad2 = 3, b = 1: the line meets the circle at distance 1, but the far value sqrt(1) + sqrt(2) is not on the circle | the two roots b ∓ sqrt(rad2 - dist2 + b²) of the line-circle equation | high; not executed | RingGeometry.TwoValIntrDistMissesCircle | RingGeometry.ChordDistsAreIntersections |
| los/sphere_halo/sphere_halo.go:307-309 | `oneValIntrDist` returns sqrt(rad2 - dist2) + sqrt(rad2 - b²) for a circle containing the centre | unit circle centred on the ring's centre (dist2 = 0, rad2 = 1, b = 0): the result is 2, but every line leaves the circle at 1 | the positive root b + sqrt(rad2 - dist2 + b²) | high; not executed | RingGeometry.OneValIntrDistMissesCircle | RingGeometry.ExitDistIsExit |
| los/sphere_halo/sphere_halo.go:233, 255-281 | `insertToRing` passes phiStart as `idxRange`'s phiHi, and the non-wrapping branch derives both bounds from phiLo, so it names one line only | n = 4 lines, arc [1.0, 3.2]: line 1 (at π/2) lies on the arc, but only line 2 is named | the lines whose bin, from the line's angle up to the next line's, meets the arc: from int(phiStart/dPhi) to int(phiEnd/dPhi), split in two when the arc crosses angle 0 and moved up one turn when it lies wholly below 0. The first line of a run can lie below the arc and miss the circle, and its chord ends are then undefined (NaN in Go); `ChordEventSpansChord` covers only lines that meet the circle | high; not executed | SphereHalo.IdxRangeMissesLine | SphereHalo.ArcRangeExact |

The as-written definitions (`Variant.AsWritten`) are kept alongside the corrected ones. The statements about insertion that depend on the geometry use the corrected ones.
