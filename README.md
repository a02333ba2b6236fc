# Polynomial background normalisation (fasga), modelled in Dafny

The fasga tools flatten uneven illumination in micrographs of plant stems.
A polynomial surface in the pixel coordinates is fitted by least squares to
the image values inside a background mask. The image is then divided by that
surface and the ratio is rescaled to 8-bit grey levels.

This project models the two classes that do this work.

- `PolynomialBackground` is a class holding the maximal order, the
  coefficient array, the two exponent arrays of the monomial basis and the two
  per-axis tables of monomial values. Its methods update these in place:
  - `InitXYPowers` builds the basis;
  - `FitCoefficients` counts the samples, assembles the least-squares system
    and copies the solver's answer;
  - `FillImage` evaluates the surface at every pixel.
- `NormalizeBackground` divides an image by its fitted background and rescales
  the ratio to [0, 255] (`NormalizeBrightBackground`). It does this for one
  grey channel or for each of three colour channels, and dispatches on the
  array class.

Modules:

- `Wrappers`: `Option` and `Result`.
- `Grids`: 8-bit values, and grids as values, with `Cells` giving the contents
  of an array.
- `Monomials`: the exponent table `Basis(d)` and its combinatorics.
- `Surface`: the mathematics of a fit:
  - normalised coordinates;
  - the polynomial value;
  - the sampled positions;
  - the design matrix;
  - the solver as a parameter;
  - the fitted background.
- `Polynomial`: the fitter class and its loops.
- `Normalization`: the per-pixel arithmetic, the normaliser and the dispatch.

Each imperative method is proved against a function that defines its result: the
fill loops of the exponent tables against `Monomials.PowerTable`, the fit and
evaluation loops against the functions of `Surface`, and the normaliser
against `Normalization.NormalizedGrid`. Lemmas about those functions state
what the loops achieve.

Values are exact reals. The least-squares solve is a parameter
`solve: (matrix, values) -> Option<coefficients>`: `None` means the solver
gives up, as Jama's QR solve does with an exception on a rank-deficient
matrix. A zero background keeps its IEEE 754 outcome (an infinite or NaN
ratio), so every pixel has a defined result:

- A positive value over a zero background is +infinity. It gives 255 when
  `upper >= lower` and 0 otherwise.
- A zero value over a zero background is NaN. `Math.max`/`Math.min` pass NaN
  through, and the `(int)` cast turns it into 0. See `ZeroBackground` and
  `SelfNormalization`.
- The rescaled ratio is truncated by the `(int)` cast, not rounded. See
  `ScaleWithinBounds`.

## Model

| member | source | states |
|---|---|---|
| Monomials.GaussRelation | fasga/src/main/java/cs4j/fasga/PolynomialBackground.java:54-56 | Gauss's closed form (m+1)(m+2)/2 equals the number of monomials of total degree at most m, for every order m >= -1 |
| Monomials.GaussCountNonNegative | fasga/src/main/java/cs4j/fasga/PolynomialBackground.java:56 | the coefficient count from Gauss's relation is never negative, whatever the order, so the array allocations succeed |
| Monomials.GaussMirror | fasga/src/main/java/cs4j/fasga/PolynomialBackground.java:56 | below order -1 the closed form counts as many slots as order -m-3 does (0, 0, 1, 3, 6, ... going down) |
| Monomials.Basis | fasga/src/main/java/cs4j/fasga/PolynomialBackground.java:66-75 | the table of order d has one entry per monomial of degree at most d |
| Monomials.BasisAt | fasga/src/main/java/cs4j/fasga/PolynomialBackground.java:67-74 | every exponent pair of total degree at most d occurs in the table, at index CountBelow(degree) + y-exponent |
| Monomials.BasisBlock | fasga/src/main/java/cs4j/fasga/PolynomialBackground.java:69-73 | the monomials of degree k fill the consecutive slots from CountBelow(k), with x-exponent k - n and y-exponent n at slot CountBelow(k) + n |
| Monomials.IndexOfEntry | fasga/src/main/java/cs4j/fasga/PolynomialBackground.java:67-74 | every entry has xPowers + yPowers <= maxOrder, and its index is recovered from its exponents |
| Monomials.BasisConstantTerm | fasga/src/main/java/cs4j/fasga/PolynomialBackground.java:66 | slot 0 holds the constant term (0, 0) |
| Monomials.BasisComplete | fasga/src/main/java/cs4j/fasga/PolynomialBackground.java:67-74 | a pair belongs to the table exactly when its total degree is at most maxOrder (both directions) |
| Monomials.BasisDistinct | fasga/src/main/java/cs4j/fasga/PolynomialBackground.java:67-74 | no exponent pair occurs twice |
| Monomials.IndexOfMonotone | fasga/src/main/java/cs4j/fasga/PolynomialBackground.java:67-74 | a monomial of lower degree, or of equal degree and lower y-exponent, gets a lower slot |
| Monomials.BasisOrdered | fasga/src/main/java/cs4j/fasga/PolynomialBackground.java:67-74 | entries are grouped by ascending total degree and, within a degree, by ascending y-exponent |
| Monomials.PowerTableLength | fasga/src/main/java/cs4j/fasga/PolynomialBackground.java:56-63 | the table built for any order, negative ones included, has exactly (m+1)(m+2)/2 entries |
| Monomials.PowerTableConstantTerm | fasga/src/main/java/cs4j/fasga/PolynomialBackground.java:59-66 | a non-empty table starts with (0, 0) for every order, since slot 0 is never written |
| Surface.NormalizePosition | fasga/src/main/java/cs4j/fasga/PolynomialBackground.java:255-258 | an index of [0, size) maps into [-1.5, 1.5) |
| Surface.NormalizePositionIncreasing | fasga/src/main/java/cs4j/fasga/PolynomialBackground.java:255-258 | the map is strictly increasing, so distinct pixels get distinct coordinates |
| Surface.PartialSumStep | fasga/src/main/java/cs4j/fasga/PolynomialBackground.java:213 | adding coeffs[c] * xMonoms[x][c] * yMonoms[y][c] extends the sum by term c of the polynomial |
| Surface.PartialSumConstant | fasga/src/main/java/cs4j/fasga/PolynomialBackground.java:210-214 | with every non-constant coefficient zero, the running sum is the constant coefficient |
| Surface.ConstantSurface | fasga/src/main/java/cs4j/fasga/PolynomialBackground.java:205-217 | a coefficient vector that is zero except for the constant term gives a flat surface at that height |
| Surface.PartialSumLinear | fasga/src/main/java/cs4j/fasga/PolynomialBackground.java:210-214 | the accumulated sum is linear in the coefficients: the vector f * a + g * b gives f times the sum for a plus g times the sum for b |
| Surface.RowSitesMembers | fasga/src/main/java/cs4j/fasga/PolynomialBackground.java:161-165 | a position is sampled in row y from column x on exactly when it is on that row, at a multiple of the step from x, inside the image and masked |
| Surface.SitesMembers | fasga/src/main/java/cs4j/fasga/PolynomialBackground.java:159-165 | a position is sampled from row y on exactly when both coordinates are on the step grid, it is inside the image and masked |
| Surface.RowSitesOrdered | fasga/src/main/java/cs4j/fasga/PolynomialBackground.java:161 | within a row, the samples are visited left to right, each once |
| Surface.SitesOrdered | fasga/src/main/java/cs4j/fasga/PolynomialBackground.java:159-161 | the samples are visited in strict y-major order |
| Surface.SampleSitesExact | fasga/src/main/java/cs4j/fasga/PolynomialBackground.java:130-138 | the visiting sequence lists exactly the masked positions on the step grid, each once, so its length is their number |
| Surface.FittedCoefficients | fasga/src/main/java/cs4j/fasga/PolynomialBackground.java:181-186 | a fit succeeds exactly when the solver answers with at least one value per monomial, and then yields one coefficient per monomial |
| Surface.BackgroundGrid | fasga/src/main/java/cs4j/fasga/PolynomialBackground.java:205-217 | the evaluated background has the image's size |
| Polynomial.CountSamples | fasga/src/main/java/cs4j/fasga/PolynomialBackground.java:128-138 | the first pass counts exactly the samples the second pass visits, which is the number of masked positions on the step grid |
| Polynomial.TabulatePowers | fasga/src/main/java/cs4j/fasga/PolynomialBackground.java:233-239 | entry (i, c) of an axis table is the normalised coordinate of index i raised to exponent c |
| Polynomial.RowStep | fasga/src/main/java/cs4j/fasga/PolynomialBackground.java:161-176 | at a masked position the next sample is (x, y) and the rest follow; an unmasked position is skipped without consuming a sample |
| Polynomial.SystemComplete | fasga/src/main/java/cs4j/fasga/PolynomialBackground.java:158-178 | once every sampled row is written, the arrays hold the whole design matrix and value vector |
| Polynomial.SampleSitesInBounds | fasga/src/main/java/cs4j/fasga/PolynomialBackground.java:159-161 | every sampled position, taken by its index in the visiting order, lies inside the image, so the reads at lines 164 and 170-174 are in bounds |
| Polynomial.PolynomialBackground.constructor | fasga/src/main/java/cs4j/fasga/PolynomialBackground.java:36-40 | the new fitter has the given order, fresh arrays of (m+1)(m+2)/2 entries, the exponent tables of that order and zero coefficients |
| Polynomial.PolynomialBackground.SertMaxOrder | fasga/src/main/java/cs4j/fasga/PolynomialBackground.java:42-46 | changing the order rebuilds the tables for it and replaces the coefficients by a fresh all-zero array of the new length |
| Polynomial.PolynomialBackground.InitXYPowers | fasga/src/main/java/cs4j/fasga/PolynomialBackground.java:52-76 | allocates the three arrays at Gauss's count and leaves the exponent arrays equal to the basis of the current order |
| Polynomial.PolynomialBackground.FillPowers | fasga/src/main/java/cs4j/fasga/PolynomialBackground.java:66-75 | the nested loops leave both exponent arrays equal to the order's table: slot 0 keeps the constant term and degree k fills the slots from CountBelow(k) on; for a negative order the loops do not run and every slot stays (0, 0) |
| Polynomial.PolynomialBackground.FillDegree | fasga/src/main/java/cs4j/fasga/PolynomialBackground.java:69-74 | one pass of the inner loop writes the order + 1 monomials of that degree at consecutive slots and advances c past them, leaving later slots zero |
| Polynomial.PolynomialBackground.ComputeMonoms | fasga/src/main/java/cs4j/fasga/PolynomialBackground.java:229-248 | both tables are rebuilt at the full image extents, with entry (i, c) the power of monomial c at normalised index i |
| Polynomial.PolynomialBackground.AssembleSystem | fasga/src/main/java/cs4j/fasga/PolynomialBackground.java:156-178 | the second pass writes exactly nValues rows: row i is the design row of the i-th sample and entry i its image value |
| Polynomial.PolynomialBackground.AssembleRows | fasga/src/main/java/cs4j/fasga/PolynomialBackground.java:158-178 | the two nested loops of the second pass, started on an empty prefix, end with every sample assembled: row i and entry i hold the design row and image value of the i-th sample |
| Polynomial.PolynomialBackground.AssembleRow | fasga/src/main/java/cs4j/fasga/PolynomialBackground.java:161-177 | one row of the second pass records its samples in order, leaves the samples of later rows pending, and leaves the matrix rows and value entries from the new i on as they were |
| Polynomial.PolynomialBackground.VisitPosition | fasga/src/main/java/cs4j/fasga/PolynomialBackground.java:163-176 | a masked position fills the next row and advances i by one; an unmasked one keeps i and leaves the matrix and the values unchanged; rows from the new i on are untouched |
| Polynomial.PolynomialBackground.RecordSample | fasga/src/main/java/cs4j/fasga/PolynomialBackground.java:167-176 | the matrix row and value entry written for sample i extend the assembled prefix by one, and every other row and entry keeps its value |
| Polynomial.PolynomialBackground.WriteRow | fasga/src/main/java/cs4j/fasga/PolynomialBackground.java:168-171 | row i receives xMonoms[x][c] * yMonoms[y][c], which is the design row of (x, y); other rows are unchanged |
| Polynomial.PolynomialBackground.FitCoefficients | fasga/src/main/java/cs4j/fasga/PolynomialBackground.java:119-187 | the coefficients become the solver's answer for the system of the masked samples, or the fit reports failure; the tables are left at the image's extents |
| Polynomial.PolynomialBackground.CopyAnswer | fasga/src/main/java/cs4j/fasga/PolynomialBackground.java:185-186 | copies the answer entry by entry; it succeeds exactly when the answer is long enough, and otherwise stops at its end |
| Polynomial.PolynomialBackground.SurfaceAt | fasga/src/main/java/cs4j/fasga/PolynomialBackground.java:210-214 | the accumulated value at (x, y) is the polynomial at the pixel's normalised coordinates |
| Polynomial.PolynomialBackground.FillImage | fasga/src/main/java/cs4j/fasga/PolynomialBackground.java:195-219 | every pixel of the image receives the surface value at its coordinates, and the coefficients are unchanged |
| Polynomial.PolynomialBackground.FillRow | fasga/src/main/java/cs4j/fasga/PolynomialBackground.java:207-217 | one row of pixels receives the surface values, and every other pixel is left alone |
| Polynomial.PolynomialBackground.FitBackground | fasga/src/main/java/cs4j/fasga/PolynomialBackground.java:88-116 | a new image of the input's size holding the fitted surface, present exactly when the fit succeeds; the coefficients become the solver's answer copied over the old ones (kept as they were when the solve fails, the fitted coefficients on success), and the tables are at the image's extents |
| Normalization.TruncateToInt | fasga/src/main/java/cs4j/fasga/NormalizeBackground.java:157 | the int cast truncates toward zero |
| Normalization.Clamp | fasga/src/main/java/cs4j/fasga/NormalizeBackground.java:155 | max(min(r, 255), 0) lies in [0, 255], keeps values inside and saturates values outside |
| Normalization.Saturate | fasga/src/main/java/cs4j/fasga/NormalizeBackground.java:155-157 | clamp-then-cast gives an int in [0, 255]; 255 at or above 255, 0 at or below 0 |
| Normalization.ScaleRatio | fasga/src/main/java/cs4j/fasga/NormalizeBackground.java:154-157 | every rescaled ratio lands in [0, 255] |
| Normalization.PixelValue | fasga/src/main/java/cs4j/fasga/NormalizeBackground.java:150-157 | the output pixel is a valid 8-bit value, given by the rescaled ratio whenever the background is non-zero |
| Normalization.ScaleAtUpper | fasga/src/main/java/cs4j/fasga/NormalizeBackground.java:154-155 | when the bounds differ, a ratio equal to upper maps to 255 (with equal bounds it is 0 / 0, hence 0; see `ScaleDegenerate`) |
| Normalization.ScaleBelowLower | fasga/src/main/java/cs4j/fasga/NormalizeBackground.java:154-155 | with upper > lower, a ratio at or below lower maps to 0 |
| Normalization.ScaleAboveUpper | fasga/src/main/java/cs4j/fasga/NormalizeBackground.java:154-155 | with upper > lower, a ratio at or above upper maps to 255 |
| Normalization.TruncateMonotone | fasga/src/main/java/cs4j/fasga/NormalizeBackground.java:157 | truncation of non-negative values is non-decreasing |
| Normalization.ScaleMonotone | fasga/src/main/java/cs4j/fasga/NormalizeBackground.java:154-157 | with upper > lower, the output is non-decreasing in the ratio |
| Normalization.ScaleAntitone | fasga/src/main/java/cs4j/fasga/NormalizeBackground.java:154-157 | with upper < lower, the output is non-increasing in the ratio |
| Normalization.ScaleWithinBounds | fasga/src/main/java/cs4j/fasga/NormalizeBackground.java:154-157 | between the bounds, the output is the exact rescaled value rounded down (within one grey level below it) |
| Normalization.ScaleDegenerate | fasga/src/main/java/cs4j/fasga/NormalizeBackground.java:142-157 | with equal bounds the extent is zero: ratios above the bound give 255, the rest 0 |
| Normalization.ZeroBackground | fasga/src/main/java/cs4j/fasga/NormalizeBackground.java:154-157 | over a zero background a positive value gives 255 unless the bounds are reversed, and 0 / 0 gives 0 |
| Normalization.BackgroundPixelIsWhite | fasga/src/main/java/cs4j/fasga/NormalizeBackground.java:89-93 | with the fixed bounds 0 and 1, a pixel equal to its non-zero background maps to 255 |
| Normalization.SelfNormalization | fasga/src/main/java/cs4j/fasga/NormalizeBackground.java:146-159 | an image normalised by itself is 255 wherever it is positive and 0 where it is zero |
| Normalization.NormalizedGrid | fasga/src/main/java/cs4j/fasga/NormalizeBackground.java:138-140 | the normalised grid has the image's size |
| Normalization.NormalizeBrightBackground | fasga/src/main/java/cs4j/fasga/NormalizeBackground.java:135-162 | a fresh array of the image's size whose every pixel is the normalised ratio of image to background at that pixel |
| Normalization.NormalizeColumn | fasga/src/main/java/cs4j/fasga/NormalizeBackground.java:148-158 | one column of the result receives its normalised pixels, and every other column is left alone |
| Normalization.FitBackground | fasga/src/main/java/cs4j/fasga/NormalizeBackground.java:112-116 | a fresh fitter of the given degree yields the fitted background, present exactly when the fit succeeds |
| Normalization.NormalizeBackgroundUInt8 | fasga/src/main/java/cs4j/fasga/NormalizeBackground.java:89-93 | the result is the normalisation with degree 2, step 4 and bounds 0 and 1, whatever degree is passed |
| Normalization.Channel | fasga/src/main/java/cs4j/fasga/NormalizeBackground.java:82 | a fresh copy of one channel of the colour image |
| Normalization.SetChannel | fasga/src/main/java/cs4j/fasga/NormalizeBackground.java:84 | one channel is overwritten, and the other channels keep their values |
| Normalization.NormalizeChannel | fasga/src/main/java/cs4j/fasga/NormalizeBackground.java:82-84 | channel c of the result is the one-channel normalisation of channel c of the input, and the other channels are untouched |
| Normalization.NormalizeBackgroundRGB8 | fasga/src/main/java/cs4j/fasga/NormalizeBackground.java:75-87 | each of the three output channels is the one-channel normalisation of the same input channel with the shared mask; present exactly when all three fits succeed |
| Normalization.NormalizeBackground | fasga/src/main/java/cs4j/fasga/NormalizeBackground.java:55-69 | grey and colour arrays are normalised as above; any other class fails with an illegal-argument error naming it |

## Left out

- The least-squares solve (Jama's QR decomposition) is a parameter of the fit. Nothing is claimed about the quality of its answer. As a result, "a constant image fits to a constant surface" and "fitting a sampled polynomial gives it back" are proved only on the evaluation side: `ConstantSurface` covers the constant case and `PartialSumLinear` shows that the evaluation is linear in the coefficients. Neither is proved for the solve.
- `Math.pow`, double-precision rounding and the narrowing of the background to 32-bit floats when it is stored are left out: all values are exact reals, and `Pow` is an exact integer-exponent power.
- Signed zeros are not distinguished. A background of -0.0, or bounds whose difference is -0.0, would flip the sign of an infinite ratio.
- The allocation-failure branches (the `try`/`catch` around creating the background image and the matrices) are JVM memory handling.
- `segmentImage_RGB8` (Otsu thresholding and hole filling in libraries that are not part of this model) and `main` (file I/O, decoding and display) are not modelled.
- 32-bit overflow is not modelled: neither in Gauss's relation for huge orders nor in `x += samplingStep` near the top of the int range.
- Polynomial.PolynomialBackground.FitCoefficients: a failing solve, or an answer shorter than the basis, is an exception in the source. Here it is a `false` result, with the coefficients as far as they were copied.
- Normalization.NormalizeBackgroundRGB8: a channel whose fit fails raises an exception in the source, which has already written the earlier channels into its result. Here the method returns `None` and does not expose the partial result.
- Normalization.NormalizeBackground: the rejected array's class name is a parameter, since Java reflection is not modelled. A failing fit is reported as a `FitFailed` error rather than as a propagated exception.
- A sampling step of 0 or less is excluded by a precondition (`samplingStep >= 1`):
  - With a step of 0, the source's loops never end on an image with at least one row and one column.
  - With a negative step, `x` turns negative after the first column, and the mask is read at a negative index.
- A mask smaller than the image is excluded by a precondition; the source would read it out of bounds.
- The colour and grey array classes of the imaging library are modelled as `array3` (x, y, channel) and `array2`.
