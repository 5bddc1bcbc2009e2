# Composite quadrature and Gaussian elimination, over exact reals

This project models three small numerical cores and proves properties of
them. All arithmetic is done in Dafny's exact `real` type.

- **One-dimensional composite rules.** `trapezoidal` and `midpoint` have the
  same text in two files: the top-level `numerical_integration.py` and
  `src/gentle-introduction-to-numerical-simulations/numerical_integration.py`.
  Each accumulates samples of the integrand in a loop and scales the total by
  the subinterval width. Module `Quadrature` defines both rules as sums, named
  `TrapezoidalRule` and `MidpointRule`, and proves what they promise: exactness
  for affine and constant integrands, linearity in the integrand, and where the
  samples lie. Module `NumericalIntegration` models the loops as methods and
  proves that each equals its rule.
- **Vectorised, double and triple rules** of the second file, in module
  `SimulationIntegration`.
  - `midpoint_vectorized` and `trapezoidal_vectorized` are modelled through
    the point sets `np.linspace(...)[1:-1]` produce (module `NumpyOps`).
  - `midpoint_double2` is the one-dimensional rule composed with itself.
  - `midpoint_double1` and `midpoint_triple2` are nested loops; each is
    modelled as a method proved equal to a grid sum.
  - Three of these routines do not compute what their names promise. For each
    one, the code as written is modelled, the difference is shown on a
    concrete input, and a corrected definition is proved to do what was meant
    (see "## Findings").
- **Gaussian elimination without pivoting**, `gaussElim` in
  `src/numerical-methods-in-engineering-with-python/2-systems-of-linear-algebraic-equations/gaussianElim.py`,
  in module `GaussianElimination`.
  - The method works in place on an `array2<real>` and an `array<real>`, as the
    source does.
  - Each loop is proved to leave the state that the functions `PartialStep`,
    `Step`, `Elim` and `BackSub` describe for a value `System`.
  - Those functions are proved to keep the solution set of the system.
  - When every divisor is non-zero, the returned vector is therefore the one
    and only solution of the original system.

Where the code does not do what its own docstrings and tests say, the model follows the code:

- The docstrings of `midpoint_vectorized` (line 25) and `trapezoidal_vectorized` (line 32) of the second integration file say each implements the same composite rule as its scalar namesake. The point sets at lines 27 and 35 make them differ (`MidpointVectorizedDiffers`, `TrapezoidalVectorizedDiffers`).
- `test_midpoint_double` (lines 104-110) asserts that `midpoint_double1` returns 9 on its test case for (3, 5), (4, 4) and (5, 3). As written it does so only for (4, 4) (`MidpointDouble1Test`).

The second integration file cannot be imported as written: the repeated parameter name `f` in `midpoint_triple1` (line 60) and `midpoint_triple2` (line 69) is a Python syntax error. Every statement here about what a routine of that file "returns as written" is about the text of that routine, taken on its own.

## Model

Source paths are relative to the repository root.

| member | source | states |
|---|---|---|
| NumericalIntegration.Trapezoidal | numerical_integration.py:5-12 | the loop returns h·(½f(a) + ½f(b) + Σ_{i=1}^{n-1} f(a + i·h)) with h = (b − a)/n, and for n = 1, where the loop is empty, (b − a)·(f(a) + f(b))/2; `trapezoidal` at lines 6-13 of src/gentle-introduction-to-numerical-simulations/numerical_integration.py has the same text, so this method models both |
| NumericalIntegration.Midpoint | numerical_integration.py:14-21 | the loop returns w·Σ_{i=0}^{n-1} f(a + w/2 + i·w) with w = (b − a)/n, and for n = 1 (b − a)·f((a + b)/2); `midpoint` at lines 15-22 of src/gentle-introduction-to-numerical-simulations/numerical_integration.py has the same text, so this method models both |
| Quadrature.MidpointNodesInside | src/gentle-introduction-to-numerical-simulations/numerical_integration.py:18-20 | for a < b every midpoint sample lies strictly inside (a, b) |
| Quadrature.TrapezoidNodesInside | numerical_integration.py:7-10 | for a < b the partition points a + i·h, 0 ≤ i ≤ n, lie in [a, b], with point 0 at a and point n at b |
| Quadrature.MidpointDependsOnlyOnNodes | numerical_integration.py:18-19 | the midpoint rule evaluates the integrand only at the n midpoints: integrands that agree there give the same result |
| Quadrature.TrapezoidalDependsOnlyOnNodes | numerical_integration.py:8-10 | the trapezoidal rule evaluates the integrand only at a, b and the n − 1 interior points |
| Quadrature.MidpointAffine | src/gentle-introduction-to-numerical-simulations/numerical_integration.py:15-22 | for f(x) = αx + β and every n ≥ 1, the midpoint rule returns (b − a)·(α(a + b)/2 + β), the exact integral |
| Quadrature.TrapezoidalAffine | numerical_integration.py:5-12 | for f(x) = αx + β and every n ≥ 1, the trapezoidal rule returns the exact integral (b − a)·(α(a + b)/2 + β) |
| Quadrature.MidpointConstant | numerical_integration.py:14-21 | a constant integrand c gives c·(b − a) for every n ≥ 1 |
| Quadrature.TrapezoidalConstant | numerical_integration.py:5-12 | a constant integrand c gives c·(b − a) for every n ≥ 1 |
| Quadrature.MidpointLinear | numerical_integration.py:14-21 | the rule is linear in the integrand: the result for f + c·g is the result for f plus c times the result for g |
| Quadrature.TrapezoidalLinear | numerical_integration.py:5-12 | the rule is linear in the integrand: the result for f + c·g is the result for f plus c times the result for g |
| NumpyOps.Linspace | src/gentle-introduction-to-numerical-simulations/numerical_integration.py:27 | `np.linspace(lo, hi, num)` has num points, the first lo and the last hi, with point k at lo + k·(hi − lo)/(num − 1) |
| NumpyOps.Interior | src/gentle-introduction-to-numerical-simulations/numerical_integration.py:35 | the slice `[1:-1]` drops the first and last points, and is empty when there are fewer than two |
| NumpyOps.SumSeqIsSum | src/gentle-introduction-to-numerical-simulations/numerical_integration.py:36 | summing an array whose k-th entry is g(lo + k) is the index sum of g over [lo, lo + length) |
| SimulationIntegration.MidpointVectorized | src/gentle-introduction-to-numerical-simulations/numerical_integration.py:24-28 | the routine as written: (b − a)/n times the sum of f over `np.linspace(a, b, n + 2)[1:-1]`, f applied entry by entry; what those samples are is stated by `MidpointVectorizedSamples` |
| SimulationIntegration.MidpointVectorizedSamples | src/gentle-introduction-to-numerical-simulations/numerical_integration.py:24-28 | as written, the routine returns (b − a)/n times Σ_{k=1}^{n} f(a + k(b − a)/(n + 1)); these are not the midpoints |
| SimulationIntegration.MidpointVectorizedAffine | src/gentle-introduction-to-numerical-simulations/numerical_integration.py:24-28 | as written, the routine is still exact for affine integrands acting element by element, so an affine test cannot tell it from `midpoint` |
| SimulationIntegration.MidpointVectorizedDiffers | src/gentle-introduction-to-numerical-simulations/numerical_integration.py:27 | for x², [0, 1] and n = 2 the code as written returns 5/18, where `midpoint` returns 5/16 |
| SimulationIntegration.MidpointVectorizedFixedIsMidpoint | src/gentle-introduction-to-numerical-simulations/numerical_integration.py:24-28 | summing over `np.linspace(a + w/2, b − w/2, n)` gives the midpoint rule for every integrand and every n ≥ 1 |
| SimulationIntegration.TrapezoidalVectorized | src/gentle-introduction-to-numerical-simulations/numerical_integration.py:31-38 | the routine as written: h = (b − a)/n times ½(f(a) + f(b)) plus the sum of f over `np.linspace(a, b, n)[1:-1]`; what those samples are is stated by `TrapezoidalVectorizedSamples` |
| SimulationIntegration.TrapezoidalVectorizedSamples | src/gentle-introduction-to-numerical-simulations/numerical_integration.py:31-38 | as written, the sum before scaling is ½(f(a) + f(b)) plus f at the n − 2 points a + k(b − a)/(n − 1), and there are no interior samples when n ≤ 2 |
| SimulationIntegration.TrapezoidalVectorizedConstantTotal | src/gentle-introduction-to-numerical-simulations/numerical_integration.py:34-36 | for a constant c and n ≥ 2, the sum before scaling is c·(n − 1) |
| SimulationIntegration.TrapezoidalVectorizedConstant | src/gentle-introduction-to-numerical-simulations/numerical_integration.py:31-38 | for a constant c and n ≥ 2, the code as written returns c(b − a) − c·h instead of c(b − a): one sample's weight is missing |
| SimulationIntegration.TrapezoidalVectorizedDiffers | src/gentle-introduction-to-numerical-simulations/numerical_integration.py:35 | for the constant 1 (an integrand acting element by element, such as `lambda x: 0*x + 1`), [0, 1] and n = 2, the code as written returns 1/2, where `trapezoidal` returns 1 |
| SimulationIntegration.TrapezoidalVectorizedFixedIsTrapezoidal | src/gentle-introduction-to-numerical-simulations/numerical_integration.py:31-38 | taking the interior of `np.linspace(a, b, n + 1)` gives the trapezoidal rule for every integrand and every n ≥ 1 |
| SimulationIntegration.MidpointDouble2 | src/gentle-introduction-to-numerical-simulations/numerical_integration.py:54-58 | the routine: the one-dimensional midpoint rule in x over [a, b] with nx cells, applied to x ↦ the midpoint rule in y over [c, d] with ny cells; `MidpointDouble2IsGridSum` states that this is hx·hy times the sum over the nx × ny midpoint grid |
| SimulationIntegration.MidpointDouble2IsGridSum | src/gentle-introduction-to-numerical-simulations/numerical_integration.py:54-58 | the composed rule equals hx·hy·Σ_i Σ_j f(a + hx/2 + i·hx, c + hy/2 + j·hy) |
| SimulationIntegration.MidpointDouble2Affine | src/gentle-introduction-to-numerical-simulations/numerical_integration.py:54-58 | for f(x, y) = αx + βy + γ and every grid, the composed rule returns the exact integral (b − a)(d − c)(α(a + b)/2 + β(c + d)/2 + γ) |
| SimulationIntegration.InnerMidpointAffine | src/gentle-introduction-to-numerical-simulations/numerical_integration.py:56-57 | for an affine integrand, the inner integral `g(x)` is affine in x, with the stated slope and intercept |
| SimulationIntegration.MidpointDouble2Test | src/gentle-introduction-to-numerical-simulations/numerical_integration.py:96-110 | for 2x + y on [0, 2] × [2, 3] the composed rule returns exactly 9 for every grid, in particular (3, 5), (4, 4) and (5, 3) |
| SimulationIntegration.MidpointDouble1 | src/gentle-introduction-to-numerical-simulations/numerical_integration.py:40-52 | the nested loops as written return hx·hy times the sum over i < nx and j < ny of f(x_i, y_i) |
| SimulationIntegration.MidpointDouble1Diagonal | src/gentle-introduction-to-numerical-simulations/numerical_integration.py:46-51 | as written, the result equals hx·hy·ny·Σ_i f(x_i, c + hy/2 + i·hy), with only the diagonal points sampled |
| SimulationIntegration.DiagonalRowsRepeat | src/gentle-introduction-to-numerical-simulations/numerical_integration.py:47-50 | as written, summing the rows counts each diagonal sample ny times |
| SimulationIntegration.MidpointDouble1LeavesRange | src/gentle-introduction-to-numerical-simulations/numerical_integration.py:49 | with nx > ny and c < d, the code as written samples a y coordinate above d |
| SimulationIntegration.MidpointDouble1Affine | src/gentle-introduction-to-numerical-simulations/numerical_integration.py:40-52 | for an affine integrand, the code as written returns (b − a)(d − c)(α(a + b)/2 + β(c + hy·nx/2) + γ); the y mean is right only when nx = ny |
| SimulationIntegration.MidpointDouble1Test | src/gentle-introduction-to-numerical-simulations/numerical_integration.py:104-109 | on the test case, the code as written returns 8 + nx/ny, which is 9 exactly when nx = ny: it fails (3, 5) and (5, 3) and passes (4, 4) |
| SimulationIntegration.MidpointDouble1Fixed | src/gentle-introduction-to-numerical-simulations/numerical_integration.py:40-52 | with y_j computed from j, the nested loops return what `midpoint_double2` returns |
| SimulationIntegration.MidpointTriple2 | src/gentle-introduction-to-numerical-simulations/numerical_integration.py:69-81 | the triple loop returns the sum over all nx·ny·nz cells of hx·hy·hz·f(x_i, y_j, z_k), with the z bound named zmax |
| SimulationIntegration.MidpointTriple2IsIterated | src/gentle-introduction-to-numerical-simulations/numerical_integration.py:69-81 | the per-cell-weighted grid sum equals the one-dimensional midpoint rule applied in x, then y, then z, for every integrand and grid |
| SimulationIntegration.TripleColumnIsInner | src/gentle-introduction-to-numerical-simulations/numerical_integration.py:76-80 | the z column (i, j) sums to hx·hy times the one-dimensional rule in z at (x_i, y_j) |
| SimulationIntegration.MidpointTriple2Affine | src/gentle-introduction-to-numerical-simulations/numerical_integration.py:69-81 | for f = αx + βy + γz + δ and every grid, the routine returns the exact integral over the box |
| SimulationIntegration.MiddleMidpoint3Affine | src/gentle-introduction-to-numerical-simulations/numerical_integration.py:69-81 | for an affine integrand, the double rule in (y, z) at fixed x is affine in x |
| GaussianElimination.PartialStepFrame | src/numerical-methods-in-engineering-with-python/2-systems-of-linear-algebraic-equations/gaussianElim.py:8-13 | step k leaves rows 0..k, rows not yet reached, skipped rows and their b entries unchanged, and it never changes a column ≤ k of any row |
| GaussianElimination.PartialStepNext | src/numerical-methods-in-engineering-with-python/2-systems-of-linear-algebraic-equations/gaussianElim.py:9-13 | advancing the inner loop past row i replaces row i and b[i] by their reduced values and changes nothing else |
| GaussianElimination.ReducedRowEntry | src/numerical-methods-in-engineering-with-python/2-systems-of-linear-algebraic-equations/gaussianElim.py:11-12 | entry j of a reduced row is a[i,j] − λ·a[k,j] for j > k with λ = a[i,k]/a[k,k]; it is the old entry for j ≤ k or a skipped row |
| GaussianElimination.SkipRow | src/numerical-methods-in-engineering-with-python/2-systems-of-linear-algebraic-equations/gaussianElim.py:10 | a row with a[i,k] = 0 is skipped entirely: the system does not change |
| GaussianElimination.RowSettles | src/numerical-methods-in-engineering-with-python/2-systems-of-linear-algebraic-equations/gaussianElim.py:8-13 | once step k − 1 is done, row k of a and b[k] never change again |
| GaussianElimination.PivotIsFinalDiagonal | src/numerical-methods-in-engineering-with-python/2-systems-of-linear-algebraic-equations/gaussianElim.py:11 | the divisor a[k,k] of step k is entry (k, k) of the final matrix, so a non-zero final diagonal covers every divisor at lines 11 and 17 |
| GaussianElimination.StepPivot | src/numerical-methods-in-engineering-with-python/2-systems-of-linear-algebraic-equations/gaussianElim.py:11 | under the precondition, the pivot of every step taken is non-zero |
| GaussianElimination.StepKeepsSolutions | src/numerical-methods-in-engineering-with-python/2-systems-of-linear-algebraic-equations/gaussianElim.py:9-13 | every solution of the system before step k, with unwritten sub-diagonal entries read as zero, solves it after step k |
| GaussianElimination.StepRestoresSolutions | src/numerical-methods-in-engineering-with-python/2-systems-of-linear-algebraic-equations/gaussianElim.py:9-13 | every solution after step k solves the system before it |
| GaussianElimination.ElimKeepsSolutions | src/numerical-methods-in-engineering-with-python/2-systems-of-linear-algebraic-equations/gaussianElim.py:8-13 | with non-zero pivots, x solves the original system if and only if it solves the system after m steps, with the sub-diagonal read as zero |
| GaussianElimination.TriangularSolve | src/numerical-methods-in-engineering-with-python/2-systems-of-linear-algebraic-equations/gaussianElim.py:16-17 | after back-substitution, a[k,k]·x[k] + Σ_{j>k} a[k,j]·x[j] equals the eliminated b[k] for every k |
| GaussianElimination.BackSubUpperOnly | src/numerical-methods-in-engineering-with-python/2-systems-of-linear-algebraic-equations/gaussianElim.py:16-17 | back-substitution reads only the upper triangle: matrices that agree on and above the diagonal give the same result |
| GaussianElimination.BackSubSolves | src/numerical-methods-in-engineering-with-python/2-systems-of-linear-algebraic-equations/gaussianElim.py:16-17 | the back-substituted vector solves the eliminated system with the sub-diagonal read as zero |
| GaussianElimination.BackSubUnique | src/numerical-methods-in-engineering-with-python/2-systems-of-linear-algebraic-equations/gaussianElim.py:16-17 | any solution of the eliminated system equals the back-substituted vector, entry by entry from the bottom up |
| GaussianElimination.GaussElimCorrect | src/numerical-methods-in-engineering-with-python/2-systems-of-linear-algebraic-equations/gaussianElim.py:5-18 | with non-zero divisors, x solves the original a·x = b if and only if x is the vector `gaussElim` returns |
| GaussianElimination.SubtractRow | src/numerical-methods-in-engineering-with-python/2-systems-of-linear-algebraic-equations/gaussianElim.py:12 | writes a[i, k+1:n] − λ·a[k, k+1:n] into row i and leaves every other entry of the matrix as it was |
| GaussianElimination.SubtractRhs | src/numerical-methods-in-engineering-with-python/2-systems-of-linear-algebraic-equations/gaussianElim.py:13 | b[i] becomes b[i] − λ·b[k], its reduced value, and no other entry changes |
| GaussianElimination.ReduceRow | src/numerical-methods-in-engineering-with-python/2-systems-of-linear-algebraic-equations/gaussianElim.py:11-13 | for a row with a non-zero entry in the pivot column, the arrays afterwards hold the previous state with row i and b[i] reduced |
| GaussianElimination.EliminateRow | src/numerical-methods-in-engineering-with-python/2-systems-of-linear-algebraic-equations/gaussianElim.py:10-13 | one iteration of the inner loop moves the arrays from the step state up to row i to the step state up to row i + 1 |
| GaussianElimination.EliminateStep | src/numerical-methods-in-engineering-with-python/2-systems-of-linear-algebraic-equations/gaussianElim.py:9-13 | the inner loop, for pivot k, leaves the arrays holding the system after step k |
| GaussianElimination.Eliminate | src/numerical-methods-in-engineering-with-python/2-systems-of-linear-algebraic-equations/gaussianElim.py:8-13 | the elimination phase leaves the arrays holding the eliminated system |
| GaussianElimination.BackSubEntry | src/numerical-methods-in-engineering-with-python/2-systems-of-linear-algebraic-equations/gaussianElim.py:17 | `b[k] = (b[k] − a[k,k+1:n]·b[k+1:n]) / a[k,k]` extends the finished suffix of the back-substituted vector by entry k |
| GaussianElimination.BackSubstitute | src/numerical-methods-in-engineering-with-python/2-systems-of-linear-algebraic-equations/gaussianElim.py:16-17 | the descending loop overwrites b with the back-substituted solution of the system held by the arrays |
| GaussianElimination.GaussElim | src/numerical-methods-in-engineering-with-python/2-systems-of-linear-algebraic-equations/gaussianElim.py:5-18 | returns b itself, leaves the eliminated matrix in a, and b holds the solution of the original system, the only one there is |
| GaussianElimination.DemoStep0 | src/numerical-methods-in-engineering-with-python/2-systems-of-linear-algebraic-equations/gaussianElim.py:8-13 | the demonstration system after step 0, entry by entry, with the sub-diagonal left unwritten |
| GaussianElimination.DemoStep1 | src/numerical-methods-in-engineering-with-python/2-systems-of-linear-algebraic-equations/gaussianElim.py:8-13 | the demonstration system when elimination ends |
| GaussianElimination.DemoSolution | src/numerical-methods-in-engineering-with-python/2-systems-of-linear-algebraic-equations/gaussianElim.py:20-23 | over exact reals, the demonstration system has non-zero pivots, and `gaussElim` returns [1, −2, 3], which solves it |
| GaussianElimination.SingleEquation | src/numerical-methods-in-engineering-with-python/2-systems-of-linear-algebraic-equations/gaussianElim.py:16-18 | for n = 1 the result is b[0]/a[0,0] |

## Left out

- Floating-point rounding, the convergence rates, and numpy's own summation order and `linspace` endpoint rounding. All arithmetic is exact `real`, integrands are abstract total functions, `np.dot` is the plain sum `Dot`, and `np.sum`/`sum` is `SumSeq`.
- NumpyOps.Apply: does not model integrands of the vectorised rules that do not act element by element. Lines 28 and 36 call `f(x)` once on the whole array; the model takes that call to apply f to each entry, as numpy arithmetic does (`NumpyOps.Apply`). An integrand that ignores its argument, such as `lambda x: 1.0`, returns a scalar there instead: `sum(f(x))` at line 36 then raises `TypeError`, and `np.sum(f(x))` at line 28 adds that scalar just once. `MidpointVectorizedAffine`, `TrapezoidalVectorizedConstant` and `TrapezoidalVectorizedDiffers` hold only for integrands that act element by element.
- `convergence_test` and `convergence_test_double`: they only print.
- `test_midpoint_double`'s sympy oracle, `run_tests`, and the `__main__` blocks: I/O and a foreign library. The integral the oracle computes is stated as a number in `MidpointDouble2Test` and `MidpointDouble1Test`.
- The comment at line 128 of the second integration file blames floating point for the failing test. `MidpointDouble1Test` shows that the cause is the index at line 49.
- `midpoint_triple1`: it repeats the parameter name `f`, calls the integrand with two arguments, and never uses its inner `g`, so it has no behaviour to model. `IteratedMidpoint3` is what it sets out to compute.
- `midpoint_triple2` repeats the parameter name `f` too. The model names the z upper bound `zmax`, which is a repair of the code as written.
- The counts n, nx, ny and nz must be ≥ 1: the source divides by them. Negative counts are outside what the routines are meant for.
- Division by a zero pivot in `gaussElim`: numpy produces `inf`/`nan` with a warning rather than raising. `GaussianElimination.GaussElim` requires instead that every divisor be non-zero (`PivotsNonZero`, the final diagonal, which by `PivotIsFinalDiagonal` holds every divisor of lines 11 and 17).
- `GaussianElimination.Skipped` also treats a row as skipped when the pivot is zero. This is a convenience that keeps the step functions total; it never applies under `GaussElim`'s precondition.
- `gaussElim` on a non-square `a`, where `len(b)` decides n: the model takes a square matrix.
- The integer dtype of the demonstration arrays: with integer numpy arrays every in-place store truncates, and the script prints [1, −1, 5]. `DemoSolution` states the exact-real result [1, −2, 3].
- How many times the integrand is evaluated: integrands are pure functions, so the count of calls is not observable in the model. `MidpointDependsOnlyOnNodes` and `TrapezoidalDependsOnlyOnNodes` state which points are sampled.

## Findings

| source | as written | input that shows it | evidently intended | confidence | as-written member | corrected member |
|---|---|---|---|---|---|---|
| src/gentle-introduction-to-numerical-simulations/numerical_integration.py:49 | `yj = c + hy/2 + i*hy` takes the y index from the row counter i, so only diagonal points are sampled | f(x, y) = 2x + y on [0, 2] × [2, 3] with (nx, ny) = (3, 5) gives 43/5, not 9 | `yj = c + hy/2 + j*hy`, giving the two-dimensional midpoint rule that `midpoint_double2` computes | not executed | SimulationIntegration.MidpointDouble1Test | SimulationIntegration.MidpointDouble1Fixed |
| src/gentle-introduction-to-numerical-simulations/numerical_integration.py:27 | `np.linspace(a, b, n+2)[1:-1]` gives the n points a + k(b − a)/(n + 1), not the midpoints | f(x) = x² on [0, 1] with n = 2 gives 5/18, where `midpoint` gives 5/16 | the n midpoints, e.g. `np.linspace(a + w/2, b - w/2, n)` | not executed | SimulationIntegration.MidpointVectorizedDiffers | SimulationIntegration.MidpointVectorizedFixedIsMidpoint |
| src/gentle-introduction-to-numerical-simulations/numerical_integration.py:35 | `np.linspace(a, b, n)[1:-1]` gives n − 2 points spaced (b − a)/(n − 1), where the rule needs n − 1 points spaced (b − a)/n | the constant integrand `lambda x: 0*x + 1` on [0, 1] with n = 2 gives 1/2, where `trapezoidal` gives 1 | `np.linspace(a, b, n+1)[1:-1]`, the interior partition points | not executed | SimulationIntegration.TrapezoidalVectorizedDiffers | SimulationIntegration.TrapezoidalVectorizedFixedIsTrapezoidal |
