/**
  Lattice geometry of one noise sample: which cell a pixel falls into, the
  four corners of that cell, the offset from the pixel to each corner and the
  fractional position of the pixel inside its cell.

  Pixel coordinates are integers and the cell size `c` is a positive integer;
  every quotient is an exact `real`, so the facts below are about the ideal
  arithmetic the program expresses, not about its floating-point rounding.
*/
module Lattice {

  /** A lattice point (i, j); its pixel position is (c * i, c * j). */
  datatype Corner = Corner(i: int, j: int)

  /** A 2-vector of exact reals: an offset or a gradient vector. */
  datatype Vec2 = Vec2(x: real, y: real)

  /** The cell size, in pixels, of the rendered field. */
  const CellSize: int := 40

  /** `Math.floor(a / n)`: the real quotient rounded down. */
  function FloorQuotient(a: int, n: int): (q: int)
    requires n > 0
    ensures n * q <= a < n * (q + 1)
  {
    var q := ((a as real) / (n as real)).Floor;
    FloorOfQuotient(a, n, q);
    q
  }

  /** The step FloorQuotient needs: scale q <= a/n < q + 1 by n. */
  lemma FloorOfQuotient(a: int, n: int, q: int)
    requires n > 0 && q == ((a as real) / (n as real)).Floor
    ensures q * n <= a < (q + 1) * n
  {
    var nr := n as real;
    var r := (a as real) / nr;
    var lo, hi := q as real, q as real + 1.0;
    BelowScaled(lo, r, hi, nr);
    OrderedCasts(lo * nr, r * nr, hi * nr, q * n, a, q * n + n);
  }

  /** Three ordered reals that are the casts of three integers order them. */
  lemma OrderedCasts(x: real, y: real, z: real, u: int, v: int, w: int)
    requires x <= y < z
    requires x == u as real && y == v as real && z == w as real
    ensures u <= v < w
  {
  }

  /** Multiplying by a positive number keeps lo <= r < hi. */
  lemma BelowScaled(lo: real, r: real, hi: real, n: real)
    requires n > 0.0 && lo <= r < hi
    ensures lo * n <= r * n < hi * n
  {
    assert (r - lo) * n >= 0.0;
    assert (hi - r) * n > 0.0;
  }

  /** Multiplying by a positive number keeps the sign. */
  lemma RealScale(d: real, n: real)
    requires n > 0.0
    ensures d >= 0.0 ==> d * n >= 0.0
    ensures d > 0.0 ==> d * n > 0.0
  {
  }

  /** Multiplying by a positive integer keeps the sign. */
  lemma IntScale(n: int, m: int)
    requires n > 0
    ensures m >= 0 ==> n * m >= 0
  {
  }

  /** A multiple of a positive n below the next multiple n*(q+1) is at most n*q. */
  lemma MulStrict(n: int, k: int, q: int)
    requires n > 0 && n * k < n * (q + 1)
    ensures k <= q
  {
    IntScale(n, k - q - 1);
    assert n * (k - q - 1) == n * k - n * (q + 1);
  }

  /** The cell index is the only k with n*k <= a < n*(k+1), so it is also
      Dafny's (floor) division `a / n`. */
  lemma {:induction false} CellIndexUnique(a: int, n: int, k: int)
    requires n > 0
    requires n * k <= a < n * (k + 1)
    ensures k == FloorQuotient(a, n) == a / n
  {
    var q := FloorQuotient(a, n);
    MulStrict(n, k, q);
    MulStrict(n, q, k);
    var e := a / n;
    assert n * e <= a < n * (e + 1);
    MulStrict(n, k, e);
    MulStrict(n, e, k);
  }

  /** The remainder of -a is the complement of the remainder of a. */
  lemma NegatedRem(a: int, n: int)
    requires n > 0
    ensures a % n == 0 ==> (-a) % n == 0
    ensures a % n != 0 ==> (-a) % n == n - a % n
  {
    var q, p := a / n, a % n;
    assert a == n * q + p;
    if p == 0 {
      CellIndexUnique(-a, n, -q);
    } else {
      assert -a == n * (-q - 1) + (n - p);
      CellIndexUnique(-a, n, -q - 1);
    }
  }

  /** JavaScript's `a % n`: the remainder of the division truncated toward
      zero, which takes the sign of the dividend. It differs from the floor
      remainder `a % n` by n or not at all. */
  function JsRem(a: int, n: int): (r: int)
    requires n > 0
    ensures -n < r < n
    ensures a >= 0 ==> r >= 0
    ensures a <= 0 ==> r <= 0
    ensures r == a % n || r == a % n - n
  {
    NegatedRem(a, n);
    if a >= 0 then a % n else -((-a) % n)
  }

  /** The four corners of the cell holding pixel (x, y), in the order
      A = (i, j), B = (i+1, j), C = (i, j+1), D = (i+1, j+1). */
  function Corners(x: int, y: int, c: int): (r: seq<Corner>)
    requires c > 0
    ensures |r| == 4
    ensures c * r[0].i <= x < c * (r[0].i + 1)
    ensures c * r[0].j <= y < c * (r[0].j + 1)
    ensures r[1] == Corner(r[0].i + 1, r[0].j)
    ensures r[2] == Corner(r[0].i, r[0].j + 1)
    ensures r[3] == Corner(r[0].i + 1, r[0].j + 1)
  {
    var i := FloorQuotient(x, c);
    var j := FloorQuotient(y, c);
    [Corner(i, j), Corner(i + 1, j), Corner(i, j + 1), Corner(i + 1, j + 1)]
  }

  /** The vector from pixel (x, y) to corner k, in cell units. */
  function Offset(k: Corner, x: int, y: int, c: int): (v: Vec2)
    requires c > 0
    ensures (x as real) + (c as real) * v.x == (c * k.i) as real
    ensures (y as real) + (c as real) * v.y == (c * k.j) as real
  {
    Vec2(((c * k.i - x) as real) / (c as real), ((c * k.j - y) as real) / (c as real))
  }

  /** The offset of each corner, in the order of the corners. */
  function OffsetVectors(corners: seq<Corner>, x: int, y: int, c: int): (r: seq<Vec2>)
    requires c > 0
    ensures |r| == |corners|
    ensures forall n :: 0 <= n < |r| ==> r[n] == Offset(corners[n], x, y, c)
  {
    seq(|corners|, n requires 0 <= n < |corners| => Offset(corners[n], x, y, c))
  }

  /** `(a % n) / n`, the fractional position along one axis. */
  function Frac(a: int, n: int): (f: real)
    requires n > 0
    ensures -1.0 < f < 1.0
    ensures a >= 0 ==> f >= 0.0
  {
    var r := JsRem(a, n);
    QuotientRange(r, n);
    (r as real) / (n as real)
  }

  /** An integer in (-n, n) divided by n lies in (-1, 1) and keeps its sign. */
  lemma QuotientRange(r: int, n: int)
    requires n > 0 && -n < r < n
    ensures -1.0 < (r as real) / (n as real) < 1.0
    ensures r >= 0 ==> (r as real) / (n as real) >= 0.0
  {
    var nr := n as real;
    var f := (r as real) / nr;
    assert f * nr == r as real;
    RealScale(-1.0 - f, nr);
    assert (-1.0 - f) * nr == -nr - f * nr;
    RealScale(f - 1.0, nr);
    assert (f - 1.0) * nr == f * nr - nr;
    RealScale(-f, nr);
    assert (-f) * nr == -(f * nr);
  }

  /** How far into its cell the coordinate a lies, in cell units. */
  function CellPosition(a: int, n: int): real
    requires n > 0
  {
    ((a - n * FloorQuotient(a, n)) as real) / (n as real)
  }

  /** For a non-negative coordinate the fraction lies in [0, 1) and is the
      position inside the cell that the corners were chosen for. */
  lemma FracInCell(a: int, n: int)
    requires n > 0 && a >= 0
    ensures 0.0 <= Frac(a, n) < 1.0
    ensures Frac(a, n) == CellPosition(a, n)
  {
    CellIndexUnique(a, n, FloorQuotient(a, n));
    assert JsRem(a, n) == a - n * FloorQuotient(a, n);
  }

  /** The sign of an integer survives division by a positive integer. */
  lemma QuotientSign(p: int, n: int)
    requires n > 0
    ensures p > 0 ==> (p as real) / (n as real) > 0.0
    ensures p < 0 ==> (p as real) / (n as real) < 0.0
  {
    var f := (p as real) / (n as real);
    assert f * (n as real) == p as real;
    RealScale(-f, n as real);
    RealScale(f, n as real);
  }

  /** The fraction agrees with the cell position exactly when the coordinate
      is non-negative or a multiple of the cell size: JavaScript's `%` keeps
      the sign of a negative coordinate while `Math.floor` rounds it down. */
  lemma FracMatchesCellIff(a: int, n: int)
    requires n > 0
    ensures Frac(a, n) == CellPosition(a, n) <==> (a >= 0 || a % n == 0)
  {
    var q := FloorQuotient(a, n);
    CellIndexUnique(a, n, q);
    var p := a - n * q;
    assert p == a % n;
    if a >= 0 {
      FracInCell(a, n);
    } else if p == 0 {
      assert JsRem(a, n) == 0;
    } else {
      assert JsRem(a, n) == p - n;
      QuotientSign(p - n, n);
      QuotientSign(p, n);
    }
  }

  /** The keys the gradient table is filled with for a width x height canvas:
      0 <= i < width/c + 1 and 0 <= j < height/c + 1 (real quotients). */
  predicate InTable(k: Corner, width: int, height: int, c: int)
    requires c > 0
  {
    && 0 <= k.i && (k.i as real) < (width as real) / (c as real) + 1.0
    && 0 <= k.j && (k.j as real) < (height as real) / (c as real) + 1.0
  }

  /** One axis of TableCoversCorners: index i + 1 of a pixel inside the canvas
      is still below extent/c + 1. */
  lemma NextIndexInTable(a: int, extent: int, c: int)
    requires c > 0 && 0 <= a < extent
    ensures 0 <= FloorQuotient(a, c)
    ensures (FloorQuotient(a, c) as real) + 1.0 < (extent as real) / (c as real) + 1.0
  {
    var i := FloorQuotient(a, c);
    if i < 0 {
      MulStrict(c, 0, i);
    }
    assert c * i < extent;
    assert (i as real) * (c as real) < (extent as real);
    assert (i as real) < (extent as real) / (c as real);
  }

  /** Every corner the renderer asks for at a pixel inside the canvas has a
      precomputed gradient, so the table lookup is never undefined there. */
  lemma TableCoversCorners(x: int, y: int, width: int, height: int, c: int)
    requires c > 0 && 0 <= x < width && 0 <= y < height
    ensures forall n :: 0 <= n < 4 ==> InTable(Corners(x, y, c)[n], width, height, c)
  {
    NextIndexInTable(x, width, c);
    NextIndexInTable(y, height, c);
  }
}
