/**
  One sample of 2D gradient noise at a pixel: the dot product of each cell
  corner's gradient with the offset from the pixel to that corner, blended
  bilinearly with smoothstep-eased fractions.

  The gradient table is an abstract total function `grad` from lattice points
  to vectors; how it is filled (random angles, magnitude sqrt 2) is not part
  of this model.
*/
module Noise {
  import opened Lattice
  import opened Interpolation

  /** Dot product of two vectors. */
  function Dot(a: Vec2, b: Vec2): real
  {
    a.x * b.x + a.y * b.y
  }

  /** Squared length of a vector. */
  function NormSq(v: Vec2): real
  {
    v.x * v.x + v.y * v.y
  }

  /** Cauchy-Schwarz in squared form, by Lagrange's identity. */
  lemma DotSquaredBound(a: Vec2, b: Vec2)
    ensures Dot(a, b) * Dot(a, b) <= NormSq(a) * NormSq(b)
  {
    var w := a.x * b.y - a.y * b.x;
    assert NormSq(a) * NormSq(b) - Dot(a, b) * Dot(a, b) == w * w;
  }

  /** `getGradientVectors`: the table's gradient for each corner, in the
      order of the corners. */
  function GradientVectors(corners: seq<Corner>, grad: Corner -> Vec2): (r: seq<Vec2>)
    ensures |r| == |corners|
    ensures forall n :: 0 <= n < |r| ==> r[n] == grad(corners[n])
  {
    seq(|corners|, n requires 0 <= n < |corners| => grad(corners[n]))
  }

  /** The four dot products of the n-th offset with the n-th gradient. */
  function DotProducts(offsets: seq<Vec2>, grads: seq<Vec2>): seq<real>
    requires |offsets| >= 4 && |grads| >= 4
  {
    seq(4, n requires 0 <= n < 4 => Dot(offsets[n], grads[n]))
  }

  /** `calculateDotProducts`: pushes the dot product of the n-th offset and
      the n-th gradient for n = 0 .. 3, keeping the corner order. */
  method CalculateDotProducts(offsets: seq<Vec2>, grads: seq<Vec2>) returns (dots: seq<real>)
    requires |offsets| >= 4 && |grads| >= 4
    ensures |dots| == 4
    ensures forall n :: 0 <= n < 4 ==>
      dots[n] == offsets[n].x * grads[n].x + offsets[n].y * grads[n].y
    ensures dots == DotProducts(offsets, grads)
  {
    dots := [];
    var n := 0;
    while n < 4
      invariant 0 <= n <= 4
      invariant dots == DotProducts(offsets, grads)[..n]
    {
      dots := dots + [Dot(offsets[n], grads[n])];
      n := n + 1;
    }
  }

  /** The corner dot products of the sample at pixel (x, y), in the order
      A, B, C, D. */
  function CornerDots(x: int, y: int, c: int, grad: Corner -> Vec2): seq<real>
    requires c > 0
  {
    var corners := Corners(x, y, c);
    DotProducts(OffsetVectors(corners, x, y, c), GradientVectors(corners, grad))
  }

  /** `perlin(x, y)`: blend A with C and B with D by the eased y fraction,
      then blend the two results by the eased x fraction. For a pixel of the
      canvas the sample lies between the smallest and the largest of its four
      corner dot products. */
  function Perlin(x: int, y: int, c: int, grad: Corner -> Vec2): (v: real)
    requires c > 0
    ensures x >= 0 && y >= 0 ==>
      var d := CornerDots(x, y, c, grad);
      Min4(d[0], d[1], d[2], d[3]) <= v <= Max4(d[0], d[1], d[2], d[3])
  {
    var d := CornerDots(x, y, c, grad);
    var u := [Smooth(Frac(x, c)), Smooth(Frac(y, c))];
    var alpha := Mix(d[0], d[2], u[1]);
    var beta := Mix(d[1], d[3], u[1]);
    Mix(alpha, beta, u[0])
  }

  /** Reference value of the field inside cell (i, j) at fractional position
      (fx, fy): each corner's gradient dotted with the vector from the point
      to that corner, blended bilinearly with smoothstep weights. */
  function CellValue(i: int, j: int, fx: real, fy: real, grad: Corner -> Vec2): real
  {
    Bilinear(
      Dot(Vec2(-fx, -fy), grad(Corner(i, j))),
      Dot(Vec2(1.0 - fx, -fy), grad(Corner(i + 1, j))),
      Dot(Vec2(-fx, 1.0 - fy), grad(Corner(i, j + 1))),
      Dot(Vec2(1.0 - fx, 1.0 - fy), grad(Corner(i + 1, j + 1))),
      Smooth(fx), Smooth(fy))
  }

  /** The offset of the n-th corner in terms of the pixel's fractional
      position: A = (-fx, -fy), B = (1 - fx, -fy), C = (-fx, 1 - fy),
      D = (1 - fx, 1 - fy); every component lies in [-1, 1]. */
  lemma CornerOffsets(x: int, y: int, c: int)
    requires c > 0 && x >= 0 && y >= 0
    ensures var o, fx, fy := OffsetVectors(Corners(x, y, c), x, y, c), Frac(x, c), Frac(y, c);
      && o[0] == Vec2(-fx, -fy)
      && o[1] == Vec2(1.0 - fx, -fy)
      && o[2] == Vec2(-fx, 1.0 - fy)
      && o[3] == Vec2(1.0 - fx, 1.0 - fy)
    ensures forall n :: 0 <= n < 4 ==>
      var v := OffsetVectors(Corners(x, y, c), x, y, c)[n];
      -1.0 <= v.x <= 1.0 && -1.0 <= v.y <= 1.0
  {
    var k := Corners(x, y, c);
    var o := OffsetVectors(k, x, y, c);
    AxisOffsets(x, c, k[0].i);
    AxisOffsets(y, c, k[0].j);
  }

  /** One axis of CornerOffsets: the offsets to the two lattice lines around
      a are -f and 1 - f for the fraction f of a. */
  lemma AxisOffsets(a: int, c: int, i: int)
    requires c > 0 && a >= 0 && c * i <= a < c * (i + 1)
    ensures ((c * i - a) as real) / (c as real) == -Frac(a, c)
    ensures ((c * (i + 1) - a) as real) / (c as real) == 1.0 - Frac(a, c)
  {
    CellIndexUnique(a, c, i);
    FracInCell(a, c);
    var cr := c as real;
    var p := (a - c * i) as real;
    assert Frac(a, c) == p / cr;
    QuotientDifference(0.0, p, cr);
    QuotientDifference(cr, p, cr);
    assert ((c * i - a) as real) == 0.0 - p;
    assert ((c * (i + 1) - a) as real) == cr - p;
    assert cr / cr == 1.0;
  }

  /** Division by a non-zero number distributes over a difference. */
  lemma QuotientDifference(u: real, v: real, n: real)
    requires n > 0.0
    ensures (u - v) / n == u / n - v / n
  {
    assert (u / n - v / n) * n == u - v;
  }

  /** The sample at a pixel is the reference cell value for the pixel's cell
      and fractional position. */
  lemma PerlinIsCellValue(x: int, y: int, c: int, grad: Corner -> Vec2)
    requires c > 0 && x >= 0 && y >= 0
    ensures Perlin(x, y, c, grad)
      == CellValue(Corners(x, y, c)[0].i, Corners(x, y, c)[0].j, Frac(x, c), Frac(y, c), grad)
  {
    var k := Corners(x, y, c);
    var d := CornerDots(x, y, c, grad);
    CornerOffsets(x, y, c);
    ColumnsFirstIsBilinear(d[0], d[1], d[2], d[3], Smooth(Frac(x, c)), Smooth(Frac(y, c)));
  }

  /** At a lattice point the sample is corner A's dot product, which is zero
      because the offset to A is the zero vector. */
  lemma PerlinAtLattice(x: int, y: int, c: int, grad: Corner -> Vec2)
    requires c > 0 && x >= 0 && y >= 0 && x % c == 0 && y % c == 0
    ensures Perlin(x, y, c, grad) == CornerDots(x, y, c, grad)[0] == 0.0
  {
    CornerOffsets(x, y, c);
    assert Frac(x, c) == 0.0 && Frac(y, c) == 0.0;
  }

  /** A value whose square is at most 4 lies in [-2, 2]. */
  lemma SquareAtMostFour(t: real)
    requires t * t <= 4.0
    ensures -2.0 <= t <= 2.0
  {
    PositiveProduct(t - 2.0, t + 2.0);
    assert (t - 2.0) * (t + 2.0) == t * t - 4.0;
  }

  /** The product of two numbers of the same strict sign is positive. */
  lemma PositiveProduct(p: real, q: real)
    ensures (p > 0.0 && q > 0.0) || (p < 0.0 && q < 0.0) ==> p * q > 0.0
  {
  }

  /** A value in [-1, 1] has a square of at most 1. */
  lemma UnitSquare(t: real)
    requires -1.0 <= t <= 1.0
    ensures t * t <= 1.0
  {
    ScaleNonNeg(1.0 - t, 1.0 + t);
    assert (1.0 - t) * (1.0 + t) == 1.0 - t * t;
  }

  /** A corner's dot product is at most 2 in absolute value when its offset
      components lie in [-1, 1] and its gradient's squared length is at most 2. */
  lemma CornerDotBound(o: Vec2, g: Vec2)
    requires -1.0 <= o.x <= 1.0 && -1.0 <= o.y <= 1.0
    requires NormSq(g) <= 2.0
    ensures -2.0 <= Dot(o, g) <= 2.0
  {
    UnitSquare(o.x);
    UnitSquare(o.y);
    DotSquaredBound(o, g);
    assert NormSq(o) * NormSq(g) <= 2.0 * NormSq(g) <= 4.0;
    SquareAtMostFour(Dot(o, g));
  }

  /** With gradients of squared length at most 2 (the table's vectors have
      length sqrt 2), every sample lies in [-2, 2]. */
  lemma PerlinMagnitude(x: int, y: int, c: int, grad: Corner -> Vec2)
    requires c > 0 && x >= 0 && y >= 0
    requires forall n :: 0 <= n < 4 ==> NormSq(grad(Corners(x, y, c)[n])) <= 2.0
    ensures -2.0 <= Perlin(x, y, c, grad) <= 2.0
  {
    var k := Corners(x, y, c);
    var o := OffsetVectors(k, x, y, c);
    var g := GradientVectors(k, grad);
    CornerOffsets(x, y, c);
    CornerDotBound(o[0], g[0]);
    CornerDotBound(o[1], g[1]);
    CornerDotBound(o[2], g[2]);
    CornerDotBound(o[3], g[3]);
  }

  /** Across the edge between cell (i, j) and cell (i + 1, j) the field is
      continuous: the right edge of one cell meets the left edge of the next. */
  lemma CellValueContinuousX(i: int, j: int, fy: real, grad: Corner -> Vec2)
    ensures CellValue(i, j, 1.0, fy, grad) == CellValue(i + 1, j, 0.0, fy, grad)
  {
    assert Vec2(-0.0, -fy) == Vec2(0.0, -fy) == Vec2(1.0 - 1.0, -fy);
  }

  /** Across the edge between cell (i, j) and cell (i, j + 1) the field is
      continuous: the bottom edge of one cell meets the top edge of the next. */
  lemma CellValueContinuousY(i: int, j: int, fx: real, grad: Corner -> Vec2)
    ensures CellValue(i, j, fx, 1.0, grad) == CellValue(i, j + 1, fx, 0.0, grad)
  {
    assert Vec2(-fx, -0.0) == Vec2(-fx, 0.0) == Vec2(-fx, 1.0 - 1.0);
  }

  /** The sample logged for pixel (50, 90) with 40-pixel cells: corners
      (1, 2), (2, 2), (1, 3), (2, 3) and offsets of a quarter cell. */
  lemma LoggedSample()
    ensures Corners(50, 90, CellSize) == [Corner(1, 2), Corner(2, 2), Corner(1, 3), Corner(2, 3)]
    ensures OffsetVectors(Corners(50, 90, CellSize), 50, 90, CellSize)
      == [Vec2(-0.25, -0.25), Vec2(0.75, -0.25), Vec2(-0.25, 0.75), Vec2(0.75, 0.75)]
    ensures Frac(50, CellSize) == 0.25 && Frac(90, CellSize) == 0.25
  {
    CellIndexUnique(50, CellSize, 1);
    CellIndexUnique(90, CellSize, 2);
  }
}
