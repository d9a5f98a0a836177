# GoCalculate interpolation and Polish calculator, modelled in Dafny

This project models two parts of GoCalculate:

- The interpolation routines of `numericalMethods/interpolation.go`:
  - Newton's forward divided differences, computed in place;
  - the Newton divided-difference table;
  - Neville's iterated interpolation table;
  - the Hermite coefficients over doubled nodes;
  - the natural cubic spline, a tridiagonal forward sweep followed by back substitution.
- The Polish-notation calculator of `calculators/polish_calculator.go`. It reverses its argument slice in place, then runs a stack machine over the tokens.

The Go code works on `float64` slices. The model works on exact `real` arrays. Each routine is an imperative method whose loops follow the source's loops; where the model groups the writes of one Go loop differently, "Left out" says so. Each method is proved against a specification function defined by the routine's recurrence. Lemmas then prove what the recurrences promise. Four examples:

- Newton's form with the computed coefficients takes the value `f(x(i))` at every sample; with the Hermite coefficients it also has the derivative `f'(x(i))` there.
- Every entry of Neville's table is the value at the point of the polynomial through its window of samples; at a node it is `f(x(k))`.
- Every spline segment ends at the next sample value.
- The spline's pivots stay above twice the segment width, so every division is defined.

Modules:

- `Wrappers`: `Option` and `Result`.
- `Samples`: the error type, distinct and increasing x values, the divided-difference quotient, and a Go slice as an array plus a length.
- `Tables`: jagged triangular tables.
- `NewtonForm`: Newton's form of a polynomial and its derivative, for any table that satisfies the divided-difference recurrence; proves that it interpolates the table's values, and its first-order entries at a repeated node.
- `DividedDifferences`: `NewtonForwardDividedDifference` and `NewtonDividedDifference`.
- `Neville`: `NevilleIterated`.
- `Hermite`: `Hermite`.
- `Spline`: `NaturalCubicSpline`.
- `Polish`: `PolishCalculator`.

Some specification functions stand for one value of a recurrence:

- `DividedDifference(xs, fs, i, j)`: entry `[i][j]` of the divided-difference table.
- `NevilleEntry`: the same for Neville's table.
- `HermiteEntry(z, zf, zd, k, j)`: the Hermite table over the doubled nodes `z = Doubled(xs)`.
- `Eliminate`, `SecondCoeff`, `FirstCoeff` and `ThirdCoeff`: the spline's forward sweep and back substitution.
- `Evaluate`: what the Polish calculator returns for a token list. It is built on `Step` and `Run`.

`NewtonForwardDividedDifference` and `NewtonDividedDifference` are both specified through `DividedDifference`. Entry `k` of the in-place forward result is therefore the diagonal `table[k][k]` of the full table.

Two behaviours of the code that the model keeps:

- `NewtonForwardDividedDifference` overwrites the caller's `functionValues` and returns that same slice. Row A of `NaturalCubicSpline` is the caller's own `functionValues[:n-1]`. In the model the first method `modifies fs`, and the spline returns `Slice(fs, n - 1)` over the same array.
- The code checks no minimum sample count. `Hermite` indexes `xValues[0]` even when there are no samples. `NaturalCubicSpline` calls `make` with length −1 for no samples, and writes `solvingSetB[0]` out of range for one. The model requires those sizes; see "Left out".

## Model

| member | source | states |
|---|---|---|
| DividedDifferences.DividedDifference | numericalMethods/interpolation.go:40-45 | definition: entry `[i][j]` of the table, `f(x(i))` at order 0 and otherwise the difference of entries `[i][j-1]` and `[i-1][j-1]` over `x(i) - x(i-j)` |
| DividedDifferences.DividedDifferenceStep | numericalMethods/interpolation.go:43-47 | proof helper: with distinct x values, the divisor `x(i) - x(i-j)` is nonzero and the quotient of the two lower-order entries is entry `[i][j]` |
| DividedDifferences.ForwardStageStep | numericalMethods/interpolation.go:18-22 | one inner step of the forward pass: before its update entry `j` holds the order `i-1` difference at `j`, and updating it to the order `i` difference gives the next stage |
| DividedDifferences.ForwardStageNextOrder | numericalMethods/interpolation.go:16-17 | when an order's pass ends, the sequence is the start of the next order, and entry `i` is final at `table[i][i]` |
| DividedDifferences.ForwardStageStart | numericalMethods/interpolation.go:13-16 | before the first pass the sequence is the sample values, order 0 everywhere |
| DividedDifferences.ForwardOrder | numericalMethods/interpolation.go:17-22 | one pass of the outer loop turns the order `i-1` stage into the order `i` stage, carrying the pre-update value of entry `j-1` |
| DividedDifferences.NewtonForwardDividedDifference | numericalMethods/interpolation.go:6-26 | a length mismatch is an error and leaves `functionValues` untouched; otherwise the caller's array is overwritten and returned, entry 0 is unchanged, and entry `k` is the `k`-th divided difference `table[k][k]` |
| DividedDifferences.FillDividedDifferenceRow | numericalMethods/interpolation.go:44-46 | the inner loop turns a seeded row `i` into row `i` of the divided-difference table, given the final row `i-1` |
| DividedDifferences.NewtonDividedDifference | numericalMethods/interpolation.go:29-50 | a mismatch is an error; otherwise row `i` has `i+1` entries, `[i][0]` is `f(x(i))`, every `[i][j]` is the divided difference of samples `i-j..i`, and the inputs are not written |
| DividedDifferences.NewtonCoefficients | numericalMethods/interpolation.go:5-26 | definition: the `n` diagonal differences `f[x0..xk]`, the coefficients of Newton's form; what they mean is `NewtonCoefficientsInterpolate` |
| DividedDifferences.DividedDifferenceTable | numericalMethods/interpolation.go:36-47 | definition: the whole triangular table of `DividedDifference` entries, row by row |
| DividedDifferences.DividedDifferenceTableIsDivided | numericalMethods/interpolation.go:43-47 | the table satisfies the recurrence multiplied out: `(x(i) - x(i-j)) * [i][j] == [i][j-1] - [i-1][j-1]` |
| DividedDifferences.NewtonCoefficientsInterpolate | numericalMethods/interpolation.go:5-26 | Newton's form with these coefficients, the polynomial they are "for", takes the value `f(x(m))` at every sample `x(m)` |
| NewtonForm.QuotientAlgebra | numericalMethods/interpolation.go:45 | proof helper: the quotient `Slope` times its nonzero divisor is the dividend |
| NewtonForm.NodeProductShift | numericalMethods/interpolation.go:5-26 | proof helper: a node product peels off its first factor; its derivative follows the product rule |
| NewtonForm.NodeProductVanishes | numericalMethods/interpolation.go:5-26 | the node product over a window vanishes at every node of the window |
| NewtonForm.NodeProductDoubleRoot | numericalMethods/interpolation.go:76-124 | a node repeated in the window is a double root: the product's derivative vanishes there |
| NewtonForm.WindowDifference | numericalMethods/interpolation.go:43-47 | proof helper: dropping a window's first node changes Newton's form by one recurrence-weighted node product, and its derivative likewise |
| NewtonForm.WindowFromStart | numericalMethods/interpolation.go:5-26 | proof helper: Newton's form with the first `e` coefficients is the window form over nodes `0..e-1`, and so is its derivative |
| NewtonForm.WindowAtStart | numericalMethods/interpolation.go:5-26 | proof helper: a window form takes the window's first value at its first node |
| NewtonForm.WindowInterpolates | numericalMethods/interpolation.go:5-26 | a window form takes the tabulated value `t[m][0]` at every node `z[m]` of the window |
| NewtonForm.WindowSlopeAtStart | numericalMethods/interpolation.go:76-124 | proof helper: when the window starts with a repeated node, its derivative there is the first-order entry of the pair |
| NewtonForm.WindowSlopeAtRepeat | numericalMethods/interpolation.go:76-124 | at a repeated node inside the window, the derivative of the window form is the pair's first-order entry |
| NewtonForm.NewtonInterpolates | numericalMethods/interpolation.go:5-50 | for every table satisfying the recurrence, Newton's form with its diagonal takes the value `t[m][0]` at every node `z[m]` |
| NewtonForm.NewtonSlopeAtRepeat | numericalMethods/interpolation.go:76-124 | for every such table, at a node given twice in a row the derivative of Newton's form is the pair's first-order entry |
| NewtonForm.ShiftAlgebra | numericalMethods/interpolation.go:5-26 | proof helper: the ring identities the node-product shift needs |
| NewtonForm.DifferenceAlgebra | numericalMethods/interpolation.go:43-47 | proof helper: the ring identities the window difference needs, given one recurrence step |
| Tables.NewSeededTable | numericalMethods/interpolation.go:36-41 | allocates `n` fresh, separate rows of lengths `1..n` and seeds `[i][0]` with `f(x(i))` |
| Neville.Combine | numericalMethods/interpolation.go:69 | definition: Neville's combination `((x - x(i-j)) upper - (x - x(i)) lower) / (x(i) - x(i-j))` |
| Neville.NevilleEntry | numericalMethods/interpolation.go:62-70 | definition: entry `[i][j]`, `f(x(i))` at order 0 and otherwise the combination of entries `[i][j-1]` and `[i-1][j-1]` |
| Neville.NevilleStep | numericalMethods/interpolation.go:69 | proof helper: with distinct x values, Neville's combination of the two lower-order entries has a nonzero divisor and is entry `[i][j]` |
| Neville.CombineKeepsValue | numericalMethods/interpolation.go:69 | the combination keeps a value both windows share, and a value one window has at the node that is missing from the other window |
| Neville.NevilleReproducesSample | numericalMethods/interpolation.go:62-71 | evaluated at any node `x(m)` of its window, entry `[i][j]` is exactly `f(x(m))` |
| Neville.NevilleAlgebra | numericalMethods/interpolation.go:69 | proof helper: Neville's combination of two window values that differ from `w` by multiples of the top coefficient over matching node products is `w` |
| Neville.NevilleWindowStep | numericalMethods/interpolation.go:69 | proof helper: one inductive step of the window-form identity |
| Neville.NevilleIsWindowFormOf | numericalMethods/interpolation.go:62-71 | for every table satisfying the divided-difference recurrence with the samples at order 0, entry `[i][j]` is Newton's form over samples `i-j..i` evaluated at `x` |
| Neville.NevilleIsWindowForm | numericalMethods/interpolation.go:62-71 | entry `[i][j]` is the value at `x` of the polynomial through samples `i-j..i`, in Newton's form of the divided-difference table |
| Neville.NevilleCorner | numericalMethods/interpolation.go:52-74 | the corner entry `[n-1][n-1]` is the value at `x` of the polynomial through all samples, with the Newton coefficients |
| Neville.FillNevilleRow | numericalMethods/interpolation.go:68-70 | the inner loop turns a seeded row `i` into row `i` of Neville's table, given the final row `i-1` |
| Neville.NevilleIterated | numericalMethods/interpolation.go:53-74 | a mismatch is an error; otherwise the table is triangular, `[i][0]` is `f(x(i))`, `[i][j]` follows Neville's recurrence, when the point is `x(k)` every entry of row `k` is `f(x(k))`, and the corner entry is the interpolating polynomial through all samples evaluated at the point |
| Hermite.Doubled | numericalMethods/interpolation.go:93-102 | the doubled sequence has length `2n` |
| Hermite.DoubledPair | numericalMethods/interpolation.go:93-102 | positions `2i` and `2i+1` of the doubled sequence both hold sample `i` |
| Hermite.HermiteEntry | numericalMethods/interpolation.go:96-113 | definition: entry `[k][j]` over the doubled nodes; `f` at order 0, the supplied derivative at order 1 of an odd row, the divided-difference quotient otherwise |
| Hermite.DoubledAt | numericalMethods/interpolation.go:93-94 | position `k` of the doubled sequence holds sample `k/2` |
| Hermite.DoubledPaired | numericalMethods/interpolation.go:101-102 | for distinct x values, two doubled nodes coincide only as the pair `2i`, `2i+1` |
| Hermite.HermiteDivisorNonzero | numericalMethods/interpolation.go:108-113 | every divisor of the table, on an even row at order 1 or at any order of at least 2, is nonzero |
| Hermite.HermiteStep | numericalMethods/interpolation.go:108-113 | proof helper: the quotient of the two lower-order entries is the table entry `[k][j]`, and its divisor is nonzero |
| Hermite.HermiteSeeds | numericalMethods/interpolation.go:96-108 | both rows of sample `i` start with `f(x(i))`; odd row `2i+1` has the supplied derivative at order 1; even row `2i` has the slope between samples `i-1` and `i` |
| Hermite.HermiteTable | numericalMethods/interpolation.go:86-115 | definition: the whole triangular table of `HermiteEntry` entries over the doubled nodes |
| Hermite.HermiteCoefficients | numericalMethods/interpolation.go:117-121 | definition: the table's diagonal, the `2n` coefficients; what they mean is `HermiteInterpolates` |
| Hermite.HermiteRecurrence | numericalMethods/interpolation.go:106-113 | proof helper: one table entry satisfies the multiplied-out recurrence, the supplied derivative included, because both sides vanish between the copies of a sample |
| Hermite.HermiteTableIsDivided | numericalMethods/interpolation.go:96-115 | over the doubled nodes, the Hermite table satisfies the divided-difference recurrence in multiplied-out form |
| Hermite.HermiteDiagonal | numericalMethods/interpolation.go:117-121 | proof helper: the Hermite coefficients are the diagonal that Newton's form reads |
| Hermite.HermiteInterpolates | numericalMethods/interpolation.go:76-124 | Newton's form over the doubled nodes with the Hermite coefficients takes the value `f(x(i))` at every sample and has the derivative `f'(x(i))` there |
| Hermite.HermiteFirstOrderOnLines | numericalMethods/interpolation.go:98-108 | for samples of a line `a + c x` with derivative `c`, every order-1 entry is `c` |
| Hermite.HigherOrdersVanish | numericalMethods/interpolation.go:111-115 | if all order-1 entries agree, every entry of order 2 or more is 0 |
| Hermite.HermiteExactOnLines | numericalMethods/interpolation.go:111-121 | for a line, every coefficient of order 2 or more is 0 |
| Hermite.DoubleNodes | numericalMethods/interpolation.go:84-102 | `valueDoubleSet` holds every x value twice, in order |
| Hermite.NewHermiteRow | numericalMethods/interpolation.go:89-108 | a fresh row `k` of length `k+1`, seeded with its value and its order-1 entry |
| Hermite.NewHermiteTable | numericalMethods/interpolation.go:86-109 | `2n` fresh, separate rows of lengths `1..2n`, each seeded at orders 0 and 1 |
| Hermite.FillHermiteRow | numericalMethods/interpolation.go:112-114 | orders 2 to `i` of a seeded row `i` are filled by the recurrence; orders 0 and 1, and with them the supplied derivatives, are kept |
| Hermite.FillHermiteTable | numericalMethods/interpolation.go:111-115 | after the order-2-and-up loop every row is the Hermite table row |
| Hermite.Diagonal | numericalMethods/interpolation.go:117-121 | the result holds the table's diagonal |
| Hermite.Hermite | numericalMethods/interpolation.go:77-124 | a mismatch in any of the three lengths is an error; otherwise there are `2n` coefficients, the diagonal of the table over doubled nodes (`HermiteCoefficients`) in a fresh array, the first two are `f(x(0))` and `f'(x(0))`, and one sample gives `[f0, df0]` |
| Spline.AlphaOf | numericalMethods/interpolation.go:144 | definition: the right side `3 (f(i+1) - f(i)) / h(i) - 3 (f(i) - f(i-1)) / h(i-1)` of interior equation `i` |
| Spline.PivotOf | numericalMethods/interpolation.go:156 | definition: the pivot `2 (x(i+1) - x(i-1)) - h(i-1) * ratio(i-1)` |
| Spline.RatioOf | numericalMethods/interpolation.go:157 | definition: the multiplier `h(i) / pivot(i)` |
| Spline.RhsOf | numericalMethods/interpolation.go:158 | definition: the eliminated right side `(alpha(i) - h(i-1) rhs(i-1)) / pivot(i)` |
| Spline.BackOf | numericalMethods/interpolation.go:175 | definition: one back-substitution step `rhs(i) - ratio(i) c(i+1)` |
| Spline.FirstOf | numericalMethods/interpolation.go:176 | definition: the linear coefficient of a segment from its end values and quadratic coefficients |
| Spline.ThirdOf | numericalMethods/interpolation.go:177 | definition: the cubic coefficient `(c(i+1) - c(i)) / (3 h(i))` |
| Spline.SecondCoeff | numericalMethods/interpolation.go:170-175 | definition: the quadratic coefficient `c(i)`, 0 at the last sample and otherwise back-substituted from `c(i+1)` |
| Spline.FirstCoeff | numericalMethods/interpolation.go:176 | definition: the linear coefficient `b(i)` of segment `i` |
| Spline.ThirdCoeff | numericalMethods/interpolation.go:177 | definition: the cubic coefficient `d(i)` of segment `i` |
| Spline.StepLength | numericalMethods/interpolation.go:137 | for increasing x values, every step length is positive |
| Spline.RatioBelowHalf | numericalMethods/interpolation.go:157 | a step length over a pivot above twice that length is a multiplier in `(0, 1/2)` |
| Spline.PivotAboveTwiceWidth | numericalMethods/interpolation.go:156 | with a previous multiplier in `[0, 1/2)`, the pivot exceeds twice the next step length |
| Spline.Eliminate | numericalMethods/interpolation.go:151-159 | every pivot of the sweep is positive, and above `2 h(i)` after the first; every multiplier lies in `[0, 1/2)`, so the divisions at lines 157-158 are defined |
| Spline.SegmentEndAlgebra | numericalMethods/interpolation.go:176-177 | the linear and cubic coefficient formulas make the cubic reach `fNext` at the segment's end |
| Spline.SplineInterpolates | numericalMethods/interpolation.go:170-178 | segment `i` takes the value `f(x(i))` at its start and `f(x(i+1))` at its end, the last segment included |
| Spline.NaturalStart | numericalMethods/interpolation.go:151-153 | the quadratic coefficient of the first sample is 0, the natural boundary at the start |
| Spline.TridiagonalAlgebra | numericalMethods/interpolation.go:155-175 | one row of the forward sweep and back substitution, with the rest of the sweep as parameters, satisfies that row's tridiagonal equation |
| Spline.SplineSystem | numericalMethods/interpolation.go:142-175 | at every interior sample the quadratic coefficients solve the spline's tridiagonal equation, whose right side is `alpha[i]` |
| Spline.SlopeAlgebra | numericalMethods/interpolation.go:176 | under the tridiagonal equation, the slope at the end of one segment is the slope at the start of the next |
| Spline.SlopeContinuous | numericalMethods/interpolation.go:175-177 | adjacent segments have equal first derivatives where they meet |
| Spline.CurvatureAlgebra | numericalMethods/interpolation.go:177 | the cubic coefficient formula makes the second derivative at a segment's end `2 c(i+1)` |
| Spline.CurvatureContinuous | numericalMethods/interpolation.go:170-177 | adjacent segments have equal second derivatives where they meet, and it is 0 at the last sample (natural end) |
| Spline.StepLengths | numericalMethods/interpolation.go:134-138 | `stepLengthSet[i]` is `x(i+1) - x(i)` for every segment |
| Spline.Alphas | numericalMethods/interpolation.go:140-145 | `alpha[0]` stays 0 and every interior `alpha[i]` is the right side of equation `i` |
| Spline.Alpha | numericalMethods/interpolation.go:140-145 | definition: `alpha[0]` is 0, and `alpha[i]` for an interior sample is `AlphaOf` of its neighbours and step lengths |
| Spline.SweepEntry | numericalMethods/interpolation.go:156-158 | from sample `i-1`'s multiplier and right side, the pivot, multiplier and right side of sample `i` |
| Spline.ForwardSweep | numericalMethods/interpolation.go:147-162 | the three work rows hold the sweep's pivots, multipliers and right sides, and the last row is reset to `c(n-1) = 0` |
| Spline.SegmentCoefficients | numericalMethods/interpolation.go:175-177 | one back-substitution step gives the quadratic coefficient of sample `i` and the linear and cubic ones of segment `i` |
| Spline.BackSubstitution | numericalMethods/interpolation.go:164-178 | the reverse loop fills the quadratic coefficients of all samples, `c(n-1)=0`, and the linear and cubic ones of every segment, in three fresh arrays with B and D distinct |
| Spline.NaturalCubicSpline | numericalMethods/interpolation.go:127-190 | a mismatch is an error; otherwise four rows of length `n-1`: row A is the caller's own `functionValues[:n-1]`, rows B, C and D are the solved coefficients in fresh arrays, no two of the four rows share storage, and `C[0]` is 0 |
| Polish.Reversed | calculators/polish_calculator.go:12-14 | the reversal has the same length, with element `i` taken from position `n-1-i` |
| Polish.ReversedInvolution | calculators/polish_calculator.go:12-14 | reversing twice gives the arguments back |
| Polish.Step | calculators/polish_calculator.go:27-46 | definition: one token of the loop; a value is pushed, an operator with two values pops `operand2` then `operand1` and pushes `calculateV(operand1, operand2, op)` or stops with its error, and an operator with fewer values stops with "IndexOutOfBoundsException" |
| Polish.Run | calculators/polish_calculator.go:26-47 | definition: the loop runs `Step` over the tokens in order |
| Polish.Evaluate | calculators/polish_calculator.go:11-56 | definition: the calculator's outcome for the original arguments: "Not Enough Arguments" for fewer than three, the token loop over the reversed arguments, then "Multiple Final Values" unless exactly one value is left |
| Polish.StepHeight | calculators/polish_calculator.go:27-42 | a value token appends its value; an operator that succeeds found at least two values and leaves one fewer |
| Polish.RunHeight | calculators/polish_calculator.go:26-47 | while the machine runs, the stack holds exactly values minus operators, and every operator so far found two operands |
| Polish.RunStopsAtError | calculators/polish_calculator.go:36-46 | once an error stops the machine, no later token changes the outcome |
| Polish.RunNeverShort | calculators/polish_calculator.go:26-47 | the token loop never produces "Not Enough Arguments" or "Multiple Final Values" |
| Polish.NotEnoughArgumentsExactly | calculators/polish_calculator.go:21-24 | "Not Enough Arguments" is returned exactly when there are fewer than three arguments |
| Polish.RunStackNonEmpty | calculators/polish_calculator.go:49-52 | after at least one token the running stack is nonempty, so "Multiple Final Values" means two or more values are left |
| Polish.UnderflowExactly | calculators/polish_calculator.go:32-46 | with an operator that never fails, the machine runs to the end exactly when no operator meets fewer than two values, and otherwise stops with "IndexOutOfBoundsException" |
| Polish.RunStopped | calculators/polish_calculator.go:38-46 | proof helper: a machine that stopped after token `i` is still stopped after the last token |
| Polish.EvaluateStopped | calculators/polish_calculator.go:36-46 | an error met at any token is the calculator's outcome |
| Polish.PrefixOrder | calculators/polish_calculator.go:33-36 | with `dequeue` taking the front, `[op, x, y]` computes `calculateV(x, y, op)`: the first operand taken is `operand2` |
| Polish.ReverseArguments | calculators/polish_calculator.go:12-14 | the two-index swap loop leaves `args` reversed |
| Polish.PolishCalculator | calculators/polish_calculator.go:11-56 | `args` ends up reversed on every path, errors included, and the result is `Evaluate` of the original arguments |

## Left out

- Arithmetic is exact `real`, not `float64`: rounding, overflow, NaN and ±Inf are not modelled. The zero divisors that would give NaN or Inf are excluded by preconditions on the x values instead.
- DividedDifferences.NewtonForwardDividedDifference: requires `xValues` and `functionValues` to be different arrays. The source accepts the same slice for both; the in-place updates would then change the x values while they are read.
- DividedDifferences.NewtonForwardDividedDifference: requires distinct x values when the lengths match; the source divides by zero otherwise.
- DividedDifferences.NewtonDividedDifference: requires distinct x values when the lengths match; the source divides by zero otherwise.
- Neville.NevilleIterated: requires distinct x values when the lengths match; the source divides by zero otherwise.
- Hermite.Hermite: requires at least one sample and distinct x values when the lengths match. For no samples the source indexes `xValues[0]` and panics.
- Hermite.DoubleNodes: fills `valueDoubleSet` in a loop of its own. The source writes the two copies of each x value inside the seeding loop, at lines 93-94 and 101-102; the values written are the same.
- Hermite.Hermite: the source allocates every row first and seeds them in a second loop. The model seeds each row when it is allocated; the entries written are the same.
- Spline.NaturalCubicSpline: requires at least two samples and strictly increasing x values when the lengths match. The source panics on fewer samples: `make` gets length −1 for no samples, and `solvingSetB[0]` is out of range for one.
- Spline.ForwardSweep: computes each pivot, multiplier and right side before storing them. The source reads `solvingSetA[i]` back after storing it; the values are the same.
- Go slices are arrays. The spline's `[][]float64` result is a sequence of four `Slice` values, an array plus a length, because the source's `append` builds a new outer slice.
- Polish.PolishCalculator: `parsers.Value`, `calculateV`, `dequeue` and the `gcv.Value` type are not part of this model. They are the parameters `parse`, `calculate` and `dequeue` and the type parameter `V`. The only assumption on `dequeue` is that on a nonempty stack it returns an element and a stack one shorter. The error texts are the constructors of `PolishError`.
- Polish.PolishCalculator: the `gcv.Values` stack is a sequence, and on an error no value is returned, where the Go code returns the nil `value`.
- `calculators/infix.go` only delegates to an external library, so it is not part of this model; the integration tests of `methods/standard/f32` are not either.
