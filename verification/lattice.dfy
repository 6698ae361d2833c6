/** Flat row-major addressing of a three-dimensional lattice, and the sums
    and counts over sequences that the bookkeeping proofs share. */
module Lattice {

  /** Flat address of (x, y, z) in a lattice whose first two extents are a
      and b: x varies fastest, z slowest. */
  function Flat(x: int, y: int, z: int, a: int, b: int): int
  {
    x + y * a + z * a * b
  }

  /** Multiplying by a non-negative factor preserves order. */
  lemma MulLe(a: int, b: int, c: int)
    requires a <= b
    requires 0 <= c
    ensures a * c <= b * c
  {
  }

  /** A quotient and remainder pinned down by their defining equation. */
  lemma DivModUnique(n: int, d: int, q: int, r: int)
    requires 0 < d
    requires 0 <= r < d
    requires n == q * d + r
    ensures n / d == q
    ensures n % d == r
  {
    var q0, r0 := n / d, n % d;
    assert n == q0 * d + r0;
    if q0 < q {
      MulLe(q0 + 1, q, d);
    } else if q < q0 {
      MulLe(q + 1, q0, d);
    }
  }

  /** The low part x + y * a of a flat address stays below a * b. */
  lemma LowPartBound(x: int, y: int, a: int, b: int)
    requires 0 <= x < a
    requires 0 <= y < b
    ensures 0 <= x + y * a < a * b
  {
    MulLe(y, b - 1, a);
    assert (b - 1) * a == b * a - a;
    MulLe(0, y, a);
  }

  /** Decoding a flat address recovers its three coordinates. */
  lemma FlatDecode(x: int, y: int, z: int, a: int, b: int)
    requires 0 <= x < a
    requires 0 <= y < b
    requires 0 <= z
    ensures Flat(x, y, z, a, b) % a == x
    ensures Flat(x, y, z, a, b) / a % b == y
    ensures Flat(x, y, z, a, b) / (a * b) == z
    ensures Flat(x, y, z, a, b) / a / b == z
    ensures Flat(x, y, z, a, b) % (a * b) == x + y * a
  {
    FlatByRow(x, y, z, a, b);
    DivModUnique(y + z * b, b, z, y);
    FlatByPlane(x, y, z, a, b);
  }

  /** Dividing a flat address by the row length a. */
  lemma FlatByRow(x: int, y: int, z: int, a: int, b: int)
    requires 0 <= x < a
    ensures Flat(x, y, z, a, b) % a == x
    ensures Flat(x, y, z, a, b) / a == y + z * b
  {
    var q := y + z * b;
    assert Flat(x, y, z, a, b) == q * a + x by {
      assert q * a == y * a + (z * b) * a;
      assert (z * b) * a == z * a * b;
    }
    DivModUnique(Flat(x, y, z, a, b), a, q, x);
  }

  /** Dividing a flat address by the plane size a * b. */
  lemma FlatByPlane(x: int, y: int, z: int, a: int, b: int)
    requires 0 <= x < a
    requires 0 <= y < b
    ensures Flat(x, y, z, a, b) / (a * b) == z
    ensures Flat(x, y, z, a, b) % (a * b) == x + y * a
  {
    var ab := a * b;
    LowPartBound(x, y, a, b);
    assert Flat(x, y, z, a, b) == z * ab + (x + y * a) by {
      assert z * ab == z * a * b;
    }
    DivModUnique(Flat(x, y, z, a, b), ab, z, x + y * a);
  }

  /** Re-encoding the decoded coordinates of a flat position gives it back. */
  lemma FlatOfDecode(b: int, w0: int, w1: int)
    requires 0 <= b
    requires 0 < w0 && 0 < w1
    ensures Flat(b % w0, b / w0 % w1, b / (w0 * w1), w0, w1) == b
  {
    var r0, q := b % w0, b / w0;
    var r1, q1 := q % w1, q / w1;
    assert b == q * w0 + r0;
    assert q == q1 * w1 + r1;
    assert q * w0 == q1 * w1 * w0 + r1 * w0;
    assert q1 * w1 * w0 == q1 * (w0 * w1);
    LowPartBound(r0, r1, w0, w1);
    DivModUnique(b, w0 * w1, q1, r0 + r1 * w0);
    assert q1 * w0 * w1 == q1 * (w0 * w1);
  }

  /** The same, with the slowest coordinate decoded by two divisions. */
  lemma FlatOfNestedDecode(b: int, w0: int, w1: int)
    requires 0 <= b
    requires 0 < w0 && 0 < w1
    ensures Flat(b % w0, b / w0 % w1, b / w0 / w1, w0, w1) == b
  {
    var r0, q := b % w0, b / w0;
    var r1, q1 := q % w1, q / w1;
    assert b == q * w0 + r0;
    assert q == q1 * w1 + r1;
    assert q * w0 == q1 * w1 * w0 + r1 * w0;
    assert q1 * w1 * w0 == q1 * w0 * w1;
  }

  /** Every in-range coordinate triple has an in-range flat address. */
  lemma FlatBounds(x: int, y: int, z: int, a: int, b: int, c: int)
    requires 0 <= x < a
    requires 0 <= y < b
    requires 0 <= z < c
    ensures 0 <= Flat(x, y, z, a, b) < a * b * c
  {
    var ab := a * b;
    LowPartBound(x, y, a, b);
    MulLe(z, c - 1, ab);
    assert (c - 1) * ab == c * ab - ab;
    assert z * a * b == z * ab;
    assert a * b * c == c * ab;
    assert 0 <= y * a;
    assert 0 <= z * ab;
  }

  /** The last x of a row is followed by the first of the next row. */
  lemma RowEnd(y: nat, z: nat, a: nat, b: nat)
    ensures Flat(a, y, z, a, b) == Flat(0, y + 1, z, a, b)
  {
  }

  /** The end of the last row of a plane is the start of the next plane. */
  lemma PlaneEnd(z: nat, a: nat, b: nat)
    ensures Flat(0, b, z, a, b) == Flat(0, 0, z + 1, a, b)
  {
    assert b * a + z * a * b == (z + 1) * a * b;
  }

  /** After c planes the flat position is the lattice volume. */
  lemma LastPlane(a: nat, b: nat, c: nat)
    ensures Flat(0, 0, c, a, b) == a * b * c
  {
  }

  /** The coordinates of flat position m, counted the way three nested
      loops visit them: x fastest, then y, then z. Built by counting, so
      that no division is involved. */
  function Unflat(m: nat, a: nat, b: nat): (e: (nat, nat, nat))
    requires 0 < a && 0 < b
    ensures e.0 < a && e.1 < b
    ensures Flat(e.0, e.1, e.2, a, b) == m
  {
    if m == 0 then (0, 0, 0)
    else
      var e := Unflat(m - 1, a, b);
      if e.0 + 1 < a then (e.0 + 1, e.1, e.2)
      else if e.1 + 1 < b then RowEnd(e.1, e.2, a, b); (0, e.1 + 1, e.2)
      else RowEnd(e.1, e.2, a, b); PlaneEnd(e.2, a, b); (0, 0, e.2 + 1)
  }

  /** Counting is one-to-one: position Flat(x, y, z) has coordinates
      (x, y, z). */
  lemma UnflatOfFlat(x: nat, y: nat, z: nat, a: nat, b: nat)
    requires x < a && y < b
    ensures Unflat(Flat(x, y, z, a, b), a, b) == (x, y, z)
  {
    var e := Unflat(Flat(x, y, z, a, b), a, b);
    FlatDecode(x, y, z, a, b);
    FlatDecode(e.0, e.1, e.2, a, b);
  }

  /** Positions below a * b * c have their z below c. */
  lemma UnflatBelow(m: nat, a: nat, b: nat, c: nat)
    requires m < a * b * c
    ensures 0 < a && 0 < b && Unflat(m, a, b).2 < c
  {
    assert 0 < a && 0 < b;
    var e := Unflat(m, a, b);
    if c <= e.2 {
      MulLe(c, e.2, a * b);
    }
  }

  /** Sum of a sequence of reals, built from the back so that extending a
      prefix by one element adds that element. */
  function Sum(s: seq<real>): real
  {
    if |s| == 0 then 0.0 else Sum(s[..|s| - 1]) + s[|s| - 1]
  }

  /** Adding v to one cell raises the sum by exactly v. */
  lemma {:induction false} SumUpdate(s: seq<real>, i: int, v: real)
    requires 0 <= i < |s|
    ensures Sum(s[i := s[i] + v]) == Sum(s) + v
  {
    var t := s[i := s[i] + v];
    if i == |s| - 1 {
      assert t[..|t| - 1] == s[..|s| - 1];
    } else {
      assert t[..|t| - 1] == s[..|s| - 1][i := s[i] + v];
      SumUpdate(s[..|s| - 1], i, v);
    }
  }

  /** The sum of a prefix extended by one element. */
  lemma SumPrefixStep(s: seq<real>, n: int)
    requires 0 <= n < |s|
    ensures Sum(s[..n + 1]) == Sum(s[..n]) + s[n]
  {
    assert s[..n + 1][..n] == s[..n];
  }

  /** Entry m of a coefficient sequence; positions past its end weigh
      nothing. */
  function Coef(cs: seq<real>, m: nat): real
  {
    if m < |cs| then cs[m] else 0.0
  }

  /** cs[0] * w(0) + ... + cs[count - 1] * w(count - 1), built from the
      back. */
  function WeightedSum(cs: seq<real>, w: nat -> real, count: nat): real
  {
    if count == 0 then 0.0 else WeightedSum(cs, w, count - 1) + Coef(cs, count - 1) * w(count - 1)
  }

  /** Weights es = a * cs + ds, entry by entry, give a times the sum with
      cs plus the sum with ds. */
  lemma {:induction false} WeightedSumLinear(a: real, cs: seq<real>, ds: seq<real>, es: seq<real>, w: nat -> real, count: nat)
    requires forall m: nat :: m < count ==> Coef(es, m) == a * Coef(cs, m) + Coef(ds, m)
    ensures WeightedSum(es, w, count) == a * WeightedSum(cs, w, count) + WeightedSum(ds, w, count)
  {
    if count > 0 {
      WeightedSumLinear(a, cs, ds, es, w, count - 1);
      var m := count - 1;
      var c, d, v := Coef(cs, m), Coef(ds, m), w(m);
      var sc := WeightedSum(cs, w, m);
      assert (a * c + d) * v == a * (c * v) + d * v;
      assert a * (sc + c * v) == a * sc + a * (c * v);
    }
  }

  /** With every weight after the first zero, the sum is its first term. */
  lemma {:induction false} WeightedSumOfFirst(cs: seq<real>, w: nat -> real, count: nat)
    requires 1 <= count
    requires forall m: nat :: 1 <= m < count ==> Coef(cs, m) == 0.0
    ensures WeightedSum(cs, w, count) == Coef(cs, 0) * w(0)
  {
    if count > 1 {
      WeightedSumOfFirst(cs, w, count - 1);
    }
  }

  /** n copies of p added up: the product n * p written as the repeated
      addition a loop performs, so that loop proofs stay linear. */
  function Times(n: nat, p: real): real
  {
    if n == 0 then 0.0 else Times(n - 1, p) + p
  }

  /** Repeated addition is multiplication. */
  lemma {:induction false} TimesIsProduct(n: nat, p: real)
    ensures Times(n, p) == n as real * p
  {
    if n > 0 {
      TimesIsProduct(n - 1, p);
      assert (n - 1) as real * p + p == n as real * p;
    }
  }

  /** Number of true entries. */
  function CountTrue(s: seq<bool>): nat
  {
    if |s| == 0 then 0 else CountTrue(s[..|s| - 1]) + (if s[|s| - 1] then 1 else 0)
  }

  /** Counting true entries is additive over concatenation. */
  lemma {:induction false} CountTrueAppend(s: seq<bool>, t: seq<bool>)
    ensures CountTrue(s + t) == CountTrue(s) + CountTrue(t)
  {
    if |t| != 0 {
      assert (s + t)[..|s + t| - 1] == s + t[..|t| - 1];
      CountTrueAppend(s, t[..|t| - 1]);
    } else {
      assert s + t == s;
    }
  }

  /** Sum of a sequence of integers, built from the back. */
  function SumInt(s: seq<int>): int
  {
    if |s| == 0 then 0 else SumInt(s[..|s| - 1]) + s[|s| - 1]
  }

  lemma SumIntPrefixStep(s: seq<int>, n: int)
    requires 0 <= n < |s|
    ensures SumInt(s[..n + 1]) == SumInt(s[..n]) + s[n]
  {
    assert s[..n + 1][..n] == s[..n];
  }

  /** A sum of non-negative integers bounds each of its prefixes. */
  lemma {:induction false} SumIntPrefixMono(s: seq<int>, n: int)
    requires forall i :: 0 <= i < |s| ==> 0 <= s[i]
    requires 0 <= n <= |s|
    ensures 0 <= SumInt(s[..n]) <= SumInt(s)
  {
    if n < |s| {
      assert s[..|s|][..|s| - 1] == s[..|s| - 1];
      assert s[..|s|] == s;
      SumIntPrefixMono(s[..|s| - 1], n);
      assert s[..|s| - 1][..n] == s[..n];
    } else {
      assert s[..n] == s;
      if n > 0 {
        SumIntPrefixMono(s[..n - 1], n - 1);
        assert s[..n - 1][..n - 1] == s[..n - 1];
      }
    }
  }
}
