/** Dense real matrices in row-major storage, the layout both gotetra's
    `mat.Matrix` and gonum's `mat64.Dense` use, with the product gonum's
    `Mul` computes. Products are exact: no floating-point rounding. */
module Matrices {
  import opened Lattice

  /** `height` rows of `width` entries each; entry (y, x) is stored at
      x + y * width. */
  datatype Matrix = Matrix(vals: seq<real>, width: nat, height: nat)

  /** The storage holds exactly width * height entries. */
  predicate Shaped(a: Matrix)
  {
    |a.vals| == a.width * a.height
  }

  /** Entry (y, x): row y, column x; zero outside the stored rectangle. */
  function Get(a: Matrix, y: int, x: int): real
  {
    if 0 <= y < a.height && 0 <= x < a.width && 0 <= x + y * a.width < |a.vals|
    then a.vals[x + y * a.width]
    else 0.0
  }

  /** Row y of a times column x of b, over the first n terms. */
  function Dot(a: Matrix, b: Matrix, y: int, x: int, n: nat): real
  {
    if n == 0 then 0.0 else Dot(a, b, y, x, n - 1) + Get(a, y, n - 1) * Get(b, n - 1, x)
  }

  /** Row and column of a flat position in a row-major rectangle. */
  lemma SlotDecode(p: int, w: int, h: int)
    requires 0 <= h && 0 <= p < h * w
    ensures 0 < w && 0 <= p / w < h && 0 <= p % w < w
  {
    if w <= 0 {
      MulLe(w, 0, h);
    }
    if h <= p / w {
      MulLe(h, p / w, w);
    }
  }

  /** A row-times-column sum whose row entries are the coefficients cs and
      whose column entries are the weights w is their weighted sum. */
  lemma {:induction false} DotAsWeightedSum(a: Matrix, b: Matrix, y: int, x: int, cs: seq<real>, w: nat -> real, n: nat)
    requires forall l: nat :: l < n ==> Get(a, y, l) == Coef(cs, l) && Get(b, l, x) == w(l)
    ensures Dot(a, b, y, x, n) == WeightedSum(cs, w, n)
  {
    if n > 0 {
      DotAsWeightedSum(a, b, y, x, cs, w, n - 1);
    }
  }

  /** The product a * b (gonum's `Dense.Mul`): a.height rows of b.width
      entries, entry (y, x) being row y of a times column x of b. */
  function Mul(a: Matrix, b: Matrix): (c: Matrix)
    requires a.width == b.height
    ensures Shaped(c) && c.width == b.width && c.height == a.height
  {
    Matrix(seq(a.height * b.width, p requires 0 <= p < a.height * b.width =>
      SlotDecode(p, b.width, a.height);
      Dot(a, b, p / b.width, p % b.width, a.width)), b.width, a.height)
  }

  /** In-range entries of a product are row-times-column sums. */
  lemma MulGet(a: Matrix, b: Matrix, y: int, x: int)
    requires a.width == b.height
    requires 0 <= y < a.height && 0 <= x < b.width
    ensures Get(Mul(a, b), y, x) == Dot(a, b, y, x, a.width)
  {
    LowPartBound(x, y, b.width, a.height);
    var p := x + y * b.width;
    DivModUnique(p, b.width, y, x);
  }

  /** The transpose: entry (y, x) of the result is entry (x, y) of a. */
  function Transpose(a: Matrix): (t: Matrix)
    ensures Shaped(t) && t.width == a.height && t.height == a.width
  {
    Matrix(seq(a.width * a.height, p requires 0 <= p < a.width * a.height =>
      SlotDecode(p, a.height, a.width);
      Get(a, p % a.height, p / a.height)), a.height, a.width)
  }

  lemma TransposeGet(a: Matrix, y: int, x: int)
    requires 0 <= y < a.width && 0 <= x < a.height
    ensures Get(Transpose(a), y, x) == Get(a, x, y)
  {
    LowPartBound(x, y, a.height, a.width);
    DivModUnique(x + y * a.height, a.height, y, x);
  }

  /** The n-by-n identity. */
  ghost predicate IsIdentity(a: Matrix, n: nat)
  {
    && a.width == n && a.height == n && Shaped(a)
    && forall y, x :: 0 <= y < n && 0 <= x < n ==> Get(a, y, x) == if y == x then 1.0 else 0.0
  }

  /** f(0, l) + ... + f(K - 1, l): column l of a table of terms. */
  function ColumnSum(f: (nat, nat) -> real, K: nat, l: nat): real
  {
    if K == 0 then 0.0 else ColumnSum(f, K - 1, l) + f(K - 1, l)
  }

  /** f(k, 0) + ... + f(k, L - 1): row k of a table of terms. */
  function RowSum(f: (nat, nat) -> real, k: nat, L: nat): real
  {
    if L == 0 then 0.0 else RowSum(f, k, L - 1) + f(k, L - 1)
  }

  /** The K-by-L table added up column by column. */
  function ByColumns(f: (nat, nat) -> real, K: nat, L: nat): real
  {
    if L == 0 then 0.0 else ByColumns(f, K, L - 1) + ColumnSum(f, K, L - 1)
  }

  /** The K-by-L table added up row by row. */
  function ByRows(f: (nat, nat) -> real, K: nat, L: nat): real
  {
    if K == 0 then 0.0 else ByRows(f, K - 1, L) + RowSum(f, K - 1, L)
  }

  /** One more column adds, row by row, one more term to every row. */
  lemma {:induction false} ByRowsStep(f: (nat, nat) -> real, K: nat, L: nat)
    ensures ByRows(f, K, L + 1) == ByRows(f, K, L) + ColumnSum(f, K, L)
  {
    if K > 0 {
      ByRowsStep(f, K - 1, L);
    }
  }

  /** A finite table has the same total added up either way. */
  lemma {:induction false} TableSwap(f: (nat, nat) -> real, K: nat, L: nat)
    ensures ByColumns(f, K, L) == ByRows(f, K, L)
  {
    if L == 0 {
      ByRowsEmpty(f, K);
    } else {
      TableSwap(f, K, L - 1);
      ByRowsStep(f, K, L - 1);
    }
  }

  lemma {:induction false} ByRowsEmpty(f: (nat, nat) -> real, K: nat)
    ensures ByRows(f, K, 0) == 0.0
  {
    if K > 0 {
      ByRowsEmpty(f, K - 1);
    }
  }

  /** Entry (k, l) of the table behind entry (y, x) of a * b * c. */
  function Triple(a: Matrix, b: Matrix, c: Matrix, y: int, x: int): (nat, nat) -> real
  {
    (k: nat, l: nat) => Get(a, y, k) * Get(b, k, l) * Get(c, l, x)
  }

  /** Term k of row y of a times column l of b. */
  function LeftPair(a: Matrix, b: Matrix, y: int): (nat, nat) -> real
  {
    (k: nat, l: nat) => Get(a, y, k) * Get(b, k, l)
  }

  /** Term l of row k of b times column x of c. */
  function RightPair(b: Matrix, c: Matrix, x: int): (nat, nat) -> real
  {
    (k: nat, l: nat) => Get(b, k, l) * Get(c, l, x)
  }

  /** Row y of a times column l of b is column l of its table. */
  lemma {:induction false} DotAsColumn(a: Matrix, b: Matrix, y: int, K: nat, l: nat)
    ensures Dot(a, b, y, l, K) == ColumnSum(LeftPair(a, b, y), K, l)
  {
    if K > 0 {
      DotAsColumn(a, b, y, K - 1, l);
    }
  }

  /** Row k of b times column x of c is row k of its table. */
  lemma {:induction false} DotAsRow(b: Matrix, c: Matrix, x: int, k: nat, L: nat)
    ensures Dot(b, c, k, x, L) == RowSum(RightPair(b, c, x), k, L)
  {
    if L > 0 {
      DotAsRow(b, c, x, k, L - 1);
    }
  }

  /** A column of a table scaled by w is the column of the scaled table. */
  lemma {:induction false} ColumnScale(f: (nat, nat) -> real, g: (nat, nat) -> real, w: real, K: nat, l: nat)
    requires forall k: nat :: k < K ==> g(k, l) == f(k, l) * w
    ensures ColumnSum(f, K, l) * w == ColumnSum(g, K, l)
  {
    if K > 0 {
      ColumnScale(f, g, w, K - 1, l);
      ScaleRightStep(ColumnSum(f, K - 1, l), f(K - 1, l), w, ColumnSum(g, K - 1, l), g(K - 1, l));
    }
  }

  /** A row of a table scaled by u is the row of the scaled table. */
  lemma {:induction false} RowScale(f: (nat, nat) -> real, g: (nat, nat) -> real, u: real, k: nat, L: nat)
    requires forall l: nat :: l < L ==> g(k, l) == u * f(k, l)
    ensures u * RowSum(f, k, L) == RowSum(g, k, L)
  {
    if L > 0 {
      RowScale(f, g, u, k, L - 1);
      ScaleLeftStep(u, RowSum(f, k, L - 1), f(k, L - 1), RowSum(g, k, L - 1), g(k, L - 1));
    }
  }

  /** (d + p) * w from d * w and p * w. */
  lemma ScaleRightStep(d: real, p: real, w: real, s: real, t: real)
    requires d * w == s && p * w == t
    ensures (d + p) * w == s + t
  {
  }

  /** u * (d + p) from u * d and u * p. */
  lemma ScaleLeftStep(u: real, d: real, p: real, s: real, t: real)
    requires u * d == s && u * p == t
    ensures u * (d + p) == s + t
  {
  }

  lemma RealMulAssoc(u: real, v: real, w: real)
    ensures u * v * w == u * (v * w)
  {
  }

  /** Row y of a times column l of b, scaled by entry (l, x) of c, is
      column l of the table. */
  lemma ScaledColumn(a: Matrix, b: Matrix, c: Matrix, y: int, x: int, K: nat, l: nat)
    ensures Dot(a, b, y, l, K) * Get(c, l, x) == ColumnSum(Triple(a, b, c, y, x), K, l)
  {
    DotAsColumn(a, b, y, K, l);
    TripleByColumn(a, b, c, y, x, K, l);
    ColumnScale(LeftPair(a, b, y), Triple(a, b, c, y, x), Get(c, l, x), K, l);
  }

  /** Column l of the table is row y of a against column l of b, scaled by
      entry (l, x) of c. */
  lemma TripleByColumn(a: Matrix, b: Matrix, c: Matrix, y: int, x: int, K: nat, l: nat)
    ensures forall k: nat :: k < K ==> Triple(a, b, c, y, x)(k, l) == LeftPair(a, b, y)(k, l) * Get(c, l, x)
  {
  }

  /** Entry (y, k) of a times row k of b against column x of c is row k of
      the table. */
  lemma ScaledRow(a: Matrix, b: Matrix, c: Matrix, y: int, x: int, k: nat, L: nat)
    ensures Get(a, y, k) * Dot(b, c, k, x, L) == RowSum(Triple(a, b, c, y, x), k, L)
  {
    DotAsRow(b, c, x, k, L);
    TripleByRow(a, b, c, y, x, k, L);
    RowScale(RightPair(b, c, x), Triple(a, b, c, y, x), Get(a, y, k), k, L);
  }

  /** Row k of the table is row k of b against column x of c, scaled by
      entry (y, k) of a. */
  lemma TripleByRow(a: Matrix, b: Matrix, c: Matrix, y: int, x: int, k: nat, L: nat)
    ensures forall l: nat :: l < L ==> Triple(a, b, c, y, x)(k, l) == Get(a, y, k) * RightPair(b, c, x)(k, l)
  {
    forall l: nat | l < L
      ensures Triple(a, b, c, y, x)(k, l) == Get(a, y, k) * RightPair(b, c, x)(k, l)
    {
      RealMulAssoc(Get(a, y, k), Get(b, k, l), Get(c, l, x));
    }
  }
  /** A row-times-column sum whose l-th term is column l of a table is
      the table added up by columns. */
  lemma {:induction false} DotByColumns(a: Matrix, b: Matrix, y: int, x: int, f: (nat, nat) -> real, K: nat, L: nat)
    requires forall l: nat :: l < L ==> Get(a, y, l) * Get(b, l, x) == ColumnSum(f, K, l)
    ensures Dot(a, b, y, x, L) == ByColumns(f, K, L)
  {
    if L > 0 {
      DotByColumns(a, b, y, x, f, K, L - 1);
    }
  }

  /** A row-times-column sum whose k-th term is row k of a table is the
      table added up by rows. */
  lemma {:induction false} DotByRows(a: Matrix, b: Matrix, y: int, x: int, f: (nat, nat) -> real, K: nat, L: nat)
    requires forall k: nat :: k < K ==> Get(a, y, k) * Get(b, k, x) == RowSum(f, k, L)
    ensures Dot(a, b, y, x, K) == ByRows(f, K, L)
  {
    if K > 0 {
      DotByRows(a, b, y, x, f, K - 1, L);
    }
  }

  /** Row y of a matrix whose entries (y, l) are the products of row y of
      a with column l of b, against column x of c: the table by columns. */
  lemma DotOfLeftProduct(ab: Matrix, a: Matrix, b: Matrix, c: Matrix, y: int, x: int, L: nat)
    requires forall l: nat :: l < L ==> Get(ab, y, l) == Dot(a, b, y, l, a.width)
    ensures Dot(ab, c, y, x, L) == ByColumns(Triple(a, b, c, y, x), a.width, L)
  {
    forall l: nat | l < L
      ensures Get(ab, y, l) * Get(c, l, x) == ColumnSum(Triple(a, b, c, y, x), a.width, l)
    {
      ScaledColumn(a, b, c, y, x, a.width, l);
    }
    DotByColumns(ab, c, y, x, Triple(a, b, c, y, x), a.width, L);
  }

  /** Row y of a against a column x whose entries (k, x) are the products
      of row k of b with column x of c: the table by rows. */
  lemma DotOfRightProduct(a: Matrix, bc: Matrix, b: Matrix, c: Matrix, y: int, x: int, K: nat)
    requires forall k: nat :: k < K ==> Get(bc, k, x) == Dot(b, c, k, x, b.width)
    ensures Dot(a, bc, y, x, K) == ByRows(Triple(a, b, c, y, x), K, b.width)
  {
    forall k: nat | k < K
      ensures Get(a, y, k) * Get(bc, k, x) == RowSum(Triple(a, b, c, y, x), k, b.width)
    {
      ScaledRow(a, b, c, y, x, k, b.width);
    }
    DotByRows(a, bc, y, x, Triple(a, b, c, y, x), K, b.width);
  }

  /** Entry (y, x) of (a * b) * c is the table of a * b * c by columns. */
  lemma LeftProductTable(a: Matrix, b: Matrix, c: Matrix, y: int, x: int)
    requires a.width == b.height && b.width == c.height
    requires 0 <= y < a.height && 0 <= x < c.width
    ensures Get(Mul(Mul(a, b), c), y, x) == ByColumns(Triple(a, b, c, y, x), a.width, b.width)
  {
    var ab := Mul(a, b);
    MulGet(ab, c, y, x);
    forall l: nat | l < b.width
      ensures Get(ab, y, l) == Dot(a, b, y, l, a.width)
    {
      MulGet(a, b, y, l);
    }
    DotOfLeftProduct(ab, a, b, c, y, x, b.width);
  }

  /** Entry (y, x) of a * (b * c) is the table of a * b * c by rows. */
  lemma RightProductTable(a: Matrix, b: Matrix, c: Matrix, y: int, x: int)
    requires a.width == b.height && b.width == c.height
    requires 0 <= y < a.height && 0 <= x < c.width
    ensures Get(Mul(a, Mul(b, c)), y, x) == ByRows(Triple(a, b, c, y, x), a.width, b.width)
  {
    var bc := Mul(b, c);
    MulGet(a, bc, y, x);
    forall k: nat | k < a.width
      ensures Get(bc, k, x) == Dot(b, c, k, x, b.width)
    {
      MulGet(b, c, k, x);
    }
    DotOfRightProduct(a, bc, b, c, y, x, a.width);
  }

  /** Matrix multiplication is associative, entry by entry. */
  lemma MulAssoc(a: Matrix, b: Matrix, c: Matrix, y: int, x: int)
    requires a.width == b.height && b.width == c.height
    requires 0 <= y < a.height && 0 <= x < c.width
    ensures Get(Mul(Mul(a, b), c), y, x) == Get(Mul(a, Mul(b, c)), y, x)
  {
    LeftProductTable(a, b, c, y, x);
    RightProductTable(a, b, c, y, x);
    TableSwap(Triple(a, b, c, y, x), a.width, b.width);
  }
}
