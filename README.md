# Perlin noise sample — a Dafny model

This project models the arithmetic behind one sample of the 2D gradient
(Perlin-style) noise that `src/perlin.js` renders pixel by pixel. For a pixel
(x, y) and a cell size c the program:

1. locates the cell: i = floor(x / c), j = floor(y / c), and the corners
   A = (i, j), B = (i+1, j), C = (i, j+1), D = (i+1, j+1) (`getCorners`);
2. takes the vector from the pixel to each corner, in cell units
   (`getOffsetVectors`);
3. looks up each corner's gradient in a table filled at start-up
   (`getGradientVectors`);
4. dots the n-th offset with the n-th gradient (`calculateDotProducts`);
5. eases the fractional position (x % c) / c, (y % c) / c with the cubic
   Hermite curve f·f·(3 − 2f), blends A with C and B with D along y, and
   blends the two results along x (`perlin`, `mix`).

The model is split in three modules:

- `Lattice` (`lattice.dfy`): corners, offsets, fractions, JavaScript's `%`
  and `Math.floor` of a quotient, and the key range of the gradient table.
- `Interpolation` (`interpolation.dfy`): `mix`, smoothstep and bilinear
  interpolation.
- `Noise` (`noise.dfy`): gradients, dot products and the sample itself,
  with a cell-local reference definition of the field.

Coordinates are integers, as the renderer passes them. The cell size is a
positive parameter `c`; the program's own value is kept as `CellSize` (40).
Quotients are exact `real`s. So every fact proved is about the ideal
arithmetic the code expresses, not about IEEE rounding. The gradient table is
an abstract total function `grad: Corner -> Vec2`.

Where the design description of this system and the code differ, the model
follows the code:

- The description defines the fraction with a mathematical `mod` that always
  lies in [0, 1). The code uses JavaScript's `%`, which keeps the sign of a
  negative coordinate. `JsRem` models that operator.
  `Lattice.FracMatchesCellIff` shows the fraction matches the cell that
  `Math.floor` picked exactly when the coordinate is non-negative or a
  multiple of c. The renderer only produces non-negative pixel coordinates,
  so the lemmas about the sample assume x, y ≥ 0.
- The description warns that swapping the corner pairing rotates the field.
  In the code, the commented-out pairing (A–B and C–D along x first, then y)
  also swaps the two fractions. `Interpolation.RowsFirstIsBilinear` and
  `Interpolation.ColumnsFirstIsBilinear` prove that both pairings compute the
  same bilinear value.
- The description asks for a hashed, seeded gradient function, several
  octaves and a normalisation step. The code has none of these: it has one
  octave, and a table of random gradients precomputed for the canvas.

## Model

| member | source | states |
|---|---|---|
| `Lattice.FloorQuotient` | src/perlin.js:92-94 | `Math.floor(a / c)` is the index q with c·q ≤ a < c·(q+1): the pixel lies in its cell |
| `Lattice.CellIndexUnique` | src/perlin.js:92-95 | that index is the only k with c·k ≤ a < c·(k+1), and it equals floor division `a / c` |
| `Lattice.Corners` | src/perlin.js:91-102 | exactly four corners; A = (i, j) has the pixel in its cell (c·i ≤ x < c·(i+1), c·j ≤ y < c·(j+1)); B, C and D are A shifted by (1, 0), (0, 1) and (1, 1), in that order |
| `Lattice.Offset` | src/perlin.js:104-109 | the pixel moved by c times the offset lands on the corner's pixel position, on both axes |
| `Lattice.OffsetVectors` | src/perlin.js:104-109 | one offset per corner, in the corners' order |
| `Lattice.JsRem` | src/perlin.js:72-73 | JavaScript `%`: magnitude below c, sign of the dividend, and equal to the floor remainder or to that remainder minus c |
| `Lattice.Frac` | src/perlin.js:72-73 | the fraction lies in (−1, 1), and in [0, 1) for a non-negative coordinate |
| `Lattice.FracInCell` | src/perlin.js:72-73 | for a ≥ 0 the fraction lies in [0, 1) and equals (a − c·i)/c, the position inside the cell `getCorners` chose |
| `Lattice.FracMatchesCellIff` | src/perlin.js:72-73 | the fraction equals the in-cell position if and only if a ≥ 0 or a is a multiple of c |
| `Lattice.TableCoversCorners` | src/perlin.js:6-13 | for every pixel inside a width × height canvas, all four corners are keys the gradient table was filled with (0 ≤ i < width/c + 1, 0 ≤ j < height/c + 1), so the lookup of line 113 never misses |
| `Interpolation.Mix` | src/perlin.js:87-89 | `mix(a, b, f)` moves from a toward b by f·(b − a): it returns a at f = 0 and b at f = 1, and stays between min(a, b) and max(a, b) for f in [0, 1] |
| `Interpolation.MixWithin` | src/perlin.js:87-89 | a blend with f in [0, 1] keeps any lower and upper bound that both ends keep |
| `Interpolation.Smooth` | src/perlin.js:75 | smoothstep maps 0 to 0, 1 to 1 and [0, 1] into [0, 1] |
| `Interpolation.SmoothMonotone` | src/perlin.js:75 | smoothstep never decreases on [0, 1] |
| `Interpolation.SmoothSymmetric` | src/perlin.js:75 | u(1 − f) = 1 − u(f) |
| `Interpolation.ColumnsFirstIsBilinear` | src/perlin.js:77-79 | the active pairing (A–C and B–D by u_y, then by u_x) equals the bilinear interpolation of the four corner values |
| `Interpolation.RowsFirstIsBilinear` | src/perlin.js:80-82 | the commented-out pairing (A–B and C–D by u_x, then by u_y) equals the same bilinear interpolation |
| `Interpolation.NestedMixWithin` | src/perlin.js:77-79 | with both eased fractions in [0, 1], the nested blend lies between the smallest and largest corner value |
| `Noise.GradientVectors` | src/perlin.js:111-114 | one gradient per corner, namely the table's vector for that corner, in the corners' order |
| `Noise.CalculateDotProducts` | src/perlin.js:116-124 | the loop yields exactly four values; the n-th is offset_n · gradient_n, in corner order |
| `Noise.Perlin` | src/perlin.js:66-85 | for a pixel with x, y ≥ 0 the sample lies between the smallest and largest of its four corner dot products |
| `Noise.CornerOffsets` | src/perlin.js:104-109 | for x, y ≥ 0 the offsets are A = (−fx, −fy), B = (1−fx, −fy), C = (−fx, 1−fy), D = (1−fx, 1−fy), every component in [−1, 1] |
| `Noise.PerlinIsCellValue` | src/perlin.js:66-85 | the sample equals the cell-local reference value (bilinear blend of the corner gradients dotted with the point-to-corner vectors) at the pixel's cell and fraction |
| `Noise.PerlinAtLattice` | src/perlin.js:66-85 | at a lattice point (x, y multiples of c) the sample equals dotA, which is 0 |
| `Noise.PerlinMagnitude` | src/perlin.js:66-85 | when the four gradients have squared length at most 2 (length √2 in the table), the sample lies in [−2, 2] |
| `Noise.DotSquaredBound` | src/perlin.js:121 | a dot product's square is at most the product of the squared lengths (Cauchy–Schwarz) |
| `Noise.CellValueContinuousX` | src/perlin.js:66-85 | the reference field at the right edge of cell (i, j) equals it at the left edge of cell (i+1, j) |
| `Noise.CellValueContinuousY` | src/perlin.js:66-85 | the reference field at the bottom edge of cell (i, j) equals it at the top edge of cell (i, j+1) |
| `Noise.LoggedSample` | src/perlin.js:20-26 | for pixel (50, 90) and 40-pixel cells the corners are (1,2), (2,2), (1,3), (2,3); the offsets are (−¼, −¼), (¾, −¼), (−¼, ¾), (¾, ¾); both fractions are ¼ |

## Left out

- Canvas and context setup, `renderPerlinCanvas`, `drawPerlinNoise` (the
  pixel-index decomposition and the colour write), `drawGradientVectors`,
  `drawPoint`, `drawArrow`, `drawGrid`, `drawHorizontalLine` and
  `drawVerticalLine`: drawing and I/O only.
- The values of the gradient table: `Math.random`, `Math.cos`, `Math.sin`
  and `Math.sqrt` are nondeterministic or transcendental. The table is the
  parameter `grad`. Its key range is modelled by `InTable`.
- The string-keyed lookup returns `undefined` for keys outside the table.
  `grad` is total instead. `TableCoversCorners` shows that every pixel of the
  canvas only asks for keys inside the table.
- `performance.now`, `console.log` and `testLog`: timing and logging only.
  `LoggedSample` states the corners and offsets for the logged pixel, but not
  the random gradients or the printed sample.
- IEEE double rounding: all arithmetic is exact (`int` and `real`).
- Non-integer coordinates: the renderer passes only integer pixels.
- Noise.PerlinMagnitude: proves the band [−2, 2], not the tighter [−1, 1]
  that the colour mapping `(perlin + 1) / 2` assumes. The tighter bound needs
  the exact √2 gradient length and the interplay of the four weights.
- Continuity is stated for the cell-local reference field `CellValue` at
  real fractions 0 and 1. The program only samples integer pixels, whose
  fraction never reaches 1.
- Multiple octaves, seeds and hashed gradients: the code has none of these.
