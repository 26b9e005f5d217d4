/**
  The interpolation step of a noise sample: the linear blend `mix`, the
  cubic Hermite (smoothstep) easing curve, and the bilinear combination of
  four corner values that the two nested blends compute.
*/
module Interpolation {

  function Min(a: real, b: real): real { if a <= b then a else b }

  function Max(a: real, b: real): real { if a <= b then b else a }

  /** Smallest of four values. */
  function Min4(a: real, b: real, c: real, d: real): real { Min(Min(a, b), Min(c, d)) }

  /** Largest of four values. */
  function Max4(a: real, b: real, c: real, d: real): real { Max(Max(a, b), Max(c, d)) }

  /** Multiplying by a non-negative number keeps the sign. */
  lemma ScaleNonNeg(d: real, f: real)
    ensures f >= 0.0 && d >= 0.0 ==> d * f >= 0.0
    ensures f >= 0.0 && d <= 0.0 ==> d * f <= 0.0
  {
  }

  /** `mix(a, b, f)`: moves from a toward b by the fraction f of the way. */
  function Mix(a: real, b: real, f: real): (r: real)
    ensures r - a == f * (b - a)
    ensures f == 0.0 ==> r == a
    ensures f == 1.0 ==> r == b
    ensures 0.0 <= f <= 1.0 ==> Min(a, b) <= r <= Max(a, b)
  {
    var r := b * f + a * (1.0 - f);
    assert r - a == f * (b - a);
    assert r - b == (1.0 - f) * (a - b);
    assert f == 1.0 ==> r == b * 1.0 + a * 0.0;
    ScaleNonNeg(b - a, f);
    ScaleNonNeg(a - b, 1.0 - f);
    r
  }

  /** A blend with a fraction in [0, 1] keeps every bound its ends keep. */
  lemma MixWithin(a: real, b: real, f: real, lo: real, hi: real)
    requires 0.0 <= f <= 1.0
    requires lo <= a <= hi && lo <= b <= hi
    ensures lo <= Mix(a, b, f) <= hi
  {
  }

  /** The cubic Hermite curve u(f) = f*f*(3 - 2f) ("smoothstep"). */
  function Smooth(f: real): (u: real)
    ensures f == 0.0 ==> u == 0.0
    ensures f == 1.0 ==> u == 1.0
    ensures 0.0 <= f <= 1.0 ==> 0.0 <= u <= 1.0
  {
    var u := f * f * (3.0 - 2.0 * f);
    assert 1.0 - u == (1.0 - f) * (1.0 - f) * (1.0 + 2.0 * f);
    ScaleNonNeg(f * f, 3.0 - 2.0 * f);
    ScaleNonNeg((1.0 - f) * (1.0 - f), 1.0 + 2.0 * f);
    u
  }

  /** Smoothstep never decreases on [0, 1]. */
  lemma SmoothMonotone(f: real, g: real)
    requires 0.0 <= f <= g <= 1.0
    ensures Smooth(f) <= Smooth(g)
  {
    // u(g) - u(f) = (g - f) * (3(g + f) - 2(g*g + g*f + f*f)), and on [0, 1]
    // g*g <= g, f*f <= f and g*f <= f, so the second factor is non-negative.
    var k := 3.0 * (g + f) - 2.0 * (g * g + g * f + f * f);
    assert Smooth(g) - Smooth(f) == (g - f) * k;
    ScaleNonNeg(g, 1.0 - g);
    ScaleNonNeg(f, 1.0 - f);
    ScaleNonNeg(f, g);
    ScaleNonNeg(f, 1.0 - g);
    assert k >= 0.0;
    ScaleNonNeg(k, g - f);
  }

  /** Smoothstep is symmetric about the middle of the cell. */
  lemma SmoothSymmetric(f: real)
    ensures Smooth(1.0 - f) == 1.0 - Smooth(f)
  {
    assert (1.0 - f) * (1.0 - f) * (3.0 - 2.0 * (1.0 - f)) == 1.0 - f * f * (3.0 - 2.0 * f);
  }

  /** Reference definition of bilinear interpolation over a cell with corner
      values a (0, 0), b (1, 0), c (0, 1) and d (1, 1) at position (u, v). */
  function Bilinear(a: real, b: real, c: real, d: real, u: real, v: real): real
  {
    a * (1.0 - u) * (1.0 - v) + b * u * (1.0 - v) + c * (1.0 - u) * v + d * u * v
  }

  /** The pairing `perlin` uses, blending A with C and B with D along y by v
      and then the two results along x by u, is bilinear interpolation. */
  lemma ColumnsFirstIsBilinear(a: real, b: real, c: real, d: real, u: real, v: real)
    ensures Mix(Mix(a, c, v), Mix(b, d, v), u) == Bilinear(a, b, c, d, u, v)
  {
    var alpha := Mix(a, c, v);
    var beta := Mix(b, d, v);
    assert alpha == a * (1.0 - v) + c * v;
    assert beta == b * (1.0 - v) + d * v;
    assert Mix(alpha, beta, u) == alpha * (1.0 - u) + beta * u;
  }

  /** The alternative pairing kept as a comment in the source, blending A with
      B and C with D along x by u and then the results along y by v, is the
      same bilinear interpolation: the choice between them does not change
      the field. */
  lemma RowsFirstIsBilinear(a: real, b: real, c: real, d: real, u: real, v: real)
    ensures Mix(Mix(a, b, u), Mix(c, d, u), v) == Bilinear(a, b, c, d, u, v)
  {
    var alpha := Mix(a, b, u);
    var beta := Mix(c, d, u);
    assert alpha == a * (1.0 - u) + b * u;
    assert beta == c * (1.0 - u) + d * u;
    assert Mix(alpha, beta, v) == alpha * (1.0 - v) + beta * v;
  }

  /** With both fractions in [0, 1] the nested blend stays between the
      smallest and the largest of the four corner values. */
  lemma NestedMixWithin(a: real, b: real, c: real, d: real, u: real, v: real)
    requires 0.0 <= u <= 1.0 && 0.0 <= v <= 1.0
    ensures Min4(a, b, c, d) <= Mix(Mix(a, c, v), Mix(b, d, v), u) <= Max4(a, b, c, d)
  {
    var lo, hi := Min4(a, b, c, d), Max4(a, b, c, d);
    MixWithin(a, c, v, lo, hi);
    MixWithin(b, d, v, lo, hi);
    MixWithin(Mix(a, c, v), Mix(b, d, v), u, lo, hi);
  }
}
