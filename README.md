# mnspline in Dafny

A model of the numerical core of mnspline (`src/mnspline.c`): natural cubic spline
interpolation after section 3.3 of Numerical Recipes in C, with two additions. The
evaluation loop runs in parallel under OpenMP, and each thread caches the last interval it
found so that it can skip the bisection for the next query.

The model has four modules, one file each:

- `Knots` (`knots.dfy`) holds the order of the knot abscissae and the *bracket* of a query
  `x`. The bracket is the index `klo` of the interval `[xs[klo], xs[klo+1]]` whose cubic
  is used for `x`. It is given by a reference function, `Bracket`, which scans down from
  the last interior knot. The module proves that the bracket is unique over strictly
  increasing knots, where queries outside the knot range land, and that the interval in
  the cache is the bracket whenever the cache test accepts it.
- `Bisection` (`bisect.dfy`) holds the in-place bisection `bisect`. The C routine narrows
  the pair `*klo, *khi` through pointers. Here the starting pair is the pair of in-parameters
  `lo, hi` and the narrowed pair is returned.
- `Interpolation` (`splint.dfy`) holds the evaluation `splint`:
  - `Cubic` is the closed-form cubic of one interval.
  - `SplineAt` is the specification: the cubic of the bracket of `x`.
  - `SplintChunk` is one OpenMP thread's share of the loop. It has its own copies of `klo`,
    `khi` and the cache `pklo`, `pkhi`, as the `firstprivate` clause gives it. The cache
    starts from any one-interval bracket: `(0, 1)` as initialised, or what the thread cached
    in an earlier chunk.
  - `Splint` runs the chunks of an arbitrary schedule one after another, each from an
    arbitrary starting cache, and proves that every output slot gets the spline value of
    its own query, whatever the schedule and the caches.
- `SecondDerivatives` (`spline.dfy`) holds the tridiagonal solve `spline`:
  - `Factor`, `Reduced` and `BackSubstituted` are recursive functions. They give the values
    that the forward sweep stores in `py2` and in the scratch buffer `u`, and the values that
    back-substitution leaves in `py2`.
  - The method `Spline` runs the sweep over arrays. Its result is exactly those values.
  - Lemmas prove that these values are the second derivatives of the natural cubic spline.
    They are zero at both ends and satisfy every interior continuity equation. The lemmas
    also prove that no other values do, and that every pivot is above 1, so the sweep never
    divides by zero.
  - The body of the forward loop is the method `EliminateRow`, called once per row. The
    back-substitution loop is the method `BackSubstitute`. Both are statement for statement
    the loops of `spline`. They are kept as separate methods so that each proof stays small.

Arithmetic is over `real`: the model is the algorithm in exact arithmetic, not its IEEE
double rounding.

Two facts about the lookup shape the model:

- The Python binding calls the spline with a boolean that selects a second lookup mode
  (`python/test.py:15,17`). That mode is implemented in the binding's own Cython module,
  which is not part of this model. `src/mnspline.c` has one lookup: test the cached
  interval, and on a miss bisect the full range `[0, n-1]`.
- After every query the C resets `klo, khi` to `(0, n-1)` (`src/mnspline.c:102-103`), so a
  cache miss always bisects the full range.

## Model

| member | source | states |
|---|---|---|
| Knots.StrictlyIncreasingAt | src/mnspline.c:22 | if each knot is below the next, then any earlier knot is below any later one |
| Knots.StrictlyIncreasingIff | src/mnspline.c:22 | the knot-by-knot order `x[1] < x[2] < ... < x[n]` holds exactly when every pair of knots is strictly ordered |
| Knots.ScanDown | src/mnspline.c:109-120 | the reference search returns an index `r <= k`. Either `r = 0` or `xs[r] <= x`, and every knot in `(r, k]` is above `x` |
| Knots.Bracket | src/mnspline.c:85-95 | the reference bracket is a valid bracket of `x`. It is an interval of the knot array, with its left knot at or below `x` (except for the first interval) and its right knot above `x` (except for the last one) |
| Knots.BracketIsUnique | src/mnspline.c:109-120 | over strictly increasing knots, an index is a valid bracket of `x` if and only if it equals `Bracket(xs, x)` |
| Knots.BracketLeftOfDomain | src/mnspline.c:109-120 | a query left of the first knot uses the first interval |
| Knots.BracketRightOfDomain | src/mnspline.c:109-120 | a query at or right of the last knot uses the last interval `(n-2, n-1)` |
| Knots.BracketAtKnot | src/mnspline.c:109-120 | a query equal to knot `k` uses the interval starting at `k`, except at the last knot, which uses the last interval |
| Knots.CachedIntervalIsBracket | src/mnspline.c:85-89 | when the cache test `xa[pklo] <= x < xa[pkhi]` passes, the cached interval is the bracket a fresh search would find |
| Bisection.Bisect | src/mnspline.c:109-120 | bisection from `(lo, hi)` ends on one interval inside `(lo, hi)`. Every end it moved satisfies the bracket condition on its side. From `(0, n-1)` the result is a bracket of `x`. No ordering of the knots is needed for any of this |
| Interpolation.Cubic | src/mnspline.c:96-100 | the cubic of one interval `[xlo, xhi]` at `x`: with `h = xhi - xlo`, `a = (xhi - x) / h` and `b = (x - xlo) / h`, it is `a * ylo + b * yhi + ((a^3 - a) * y2lo + (b^3 - b) * y2hi) * h^2 / 6`; it needs `xlo < xhi` |
| Interpolation.Piece | src/mnspline.c:96-100 | the cubic of interval `klo`, taken with the knots, values and second derivatives at `klo` and `klo + 1` |
| Interpolation.SplineAt | src/mnspline.c:83-100 | the value of the spline at `x`: the piece of the bracket of `x`, a function of `x` alone |
| Interpolation.CubicAtEnds | src/mnspline.c:96-100 | the cubic of an interval takes the left value at the left knot and the right value at the right knot, for any second derivatives |
| Interpolation.PieceAtLeftKnot | src/mnspline.c:96-100 | the piece of interval `klo` equals `ys[klo]` at `xs[klo]` |
| Interpolation.PieceAtRightKnot | src/mnspline.c:96-100 | the piece of interval `klo` equals `ys[klo+1]` at `xs[klo+1]` |
| Interpolation.InterpolatesKnots | src/mnspline.c:83-104 | the evaluated spline passes through every sample: at `xs[k]` it is `ys[k]` |
| Interpolation.PiecesMeetAtKnots | src/mnspline.c:96-100 | the pieces left and right of an interior knot meet there, so the spline is continuous |
| Interpolation.SplintChunk | src/mnspline.c:72-104 | one thread's share, with its private copies of the cache and of `klo, khi`, writes each of its output slots with the spline value (cubic of the bracket) of that slot's query, and changes no other slot |
| Interpolation.Splint | src/mnspline.c:80-106 | for every partition of the queries into chunks, and every starting cache of each chunk, every output slot holds the spline value of its own query, so the result does not depend on the schedule; the status is always 0 |
| SecondDerivatives.InteriorEquation | src/mnspline.c:17-19 | the continuity equation of interior knot `i`: `(x[i]-x[i-1])/6 y2[i-1] + (x[i+1]-x[i-1])/3 y2[i] + (x[i+1]-x[i])/6 y2[i+1]` equals the difference of the slopes right and left of `x[i]`, so the first derivatives of the two pieces agree there |
| SecondDerivatives.IsNaturalSpline | src/mnspline.c:17-19 | second derivatives of the natural spline: one per knot, zero at the first and last knot, and every interior continuity equation holds |
| SecondDerivatives.Sig | src/mnspline.c:42 | the ratio `sig` of an interior row lies strictly between 0 and 1 |
| SecondDerivatives.Rhs | src/mnspline.c:45-47 | the right-hand side of row `i`: the slope difference `(y[i+1]-y[i])/(x[i+1]-x[i]) - (y[i]-y[i-1])/(x[i]-x[i-1])` times `6 / (x[i+1]-x[i-1])` |
| SecondDerivatives.PivotBound | src/mnspline.c:42-44 | with `sig` in `(0, 1)` and the previous factor in `(-1, 0]`, the pivot `p = sig * py2[i-1] + 2` is above 1 and the new factor `(sig - 1) / p` is in `(-1, 0]` again |
| SecondDerivatives.RowPivot | src/mnspline.c:43 | the pivot of a row is above 1 |
| SecondDerivatives.RowFactor | src/mnspline.c:44 | the factor of a row lies in `(-1, 0]` |
| SecondDerivatives.Factor | src/mnspline.c:37-44 | the factor stored in `py2[i]` by the forward sweep lies in `(-1, 0]`, starting from `py2[0] = 0` |
| SecondDerivatives.Pivot | src/mnspline.c:43 | every pivot of the sweep is above 1, so the divisions by `p` never divide by zero |
| SecondDerivatives.RowReduced | src/mnspline.c:47-48 | the reduced right-hand side of a row: `(r - sig * uPrev) / p`, from the row's right-hand side `r`, the previous reduced value `uPrev` and the pivot `p` |
| SecondDerivatives.Reduced | src/mnspline.c:38-48 | the value the forward sweep stores in the scratch buffer at row `i`: 0 for the first row, then the reduced right-hand side of row `i` against row `i-1` |
| SecondDerivatives.BackSubstituted | src/mnspline.c:51-54 | the value back-substitution leaves in `py2[k]`: 0 at the last knot, then `Factor(k) * y2[k+1] + Reduced(k)` from the knot after it |
| SecondDerivatives.EliminationStep | src/mnspline.c:43-48 | dividing by the pivot eliminates the row: `c * p == sig - 1` and `u * p == r - sig * uPrev` |
| SecondDerivatives.FactorRowAt | src/mnspline.c:42-44 | the ratio and pivot that the source computes from `px` and `py2[i-1]` are those of the knots, and the new factor is `Factor(xs, i)` |
| SecondDerivatives.RhsAt | src/mnspline.c:45-47 | the slope difference in `pu[i]`, scaled by `6 / (x[i+1] - x[i-1])`, is the right-hand side of row `i` |
| SecondDerivatives.ReducedRowAt | src/mnspline.c:45-48 | the value the source writes to `pu[i]` is the reduced right-hand side `Reduced(xs, ys, i)` |
| SecondDerivatives.BackRowAt | src/mnspline.c:53-54 | the value the source writes to `py2[k]` during back-substitution is `BackSubstituted(xs, ys, k)` |
| SecondDerivatives.Solution | src/mnspline.c:37-54 | the sweep yields one second derivative per knot |
| SecondDerivatives.RowSolved | src/mnspline.c:40-54 | a row eliminated against the row before it is solved by back-substitution: the normalised row `sig * y2[i-1] + 2 * y2[i] + (1 - sig) * y2[i+1] == r` holds |
| SecondDerivatives.RowScaled | src/mnspline.c:40-48 | an interior continuity equation holds exactly when its normalised form holds |
| SecondDerivatives.SolutionRow | src/mnspline.c:40-54 | the back-substituted values satisfy the normalised equation of every interior row |
| SecondDerivatives.SolutionIsNaturalSpline | src/mnspline.c:17-19 | the result of the sweep is zero at both ends and satisfies the continuity equation of every interior knot: it is the natural cubic spline |
| SecondDerivatives.RowEliminated | src/mnspline.c:42-48 | conversely, take any solution of a normalised row whose previous value follows from the elimination of the row before it. Its value follows from the elimination of this row, with factor `(sig - 1) / p` and reduced value `(r - sig * uPrev) / p` |
| SecondDerivatives.EliminatedRow | src/mnspline.c:42-48 | for second derivatives that satisfy the normalised equation of row `i`, the relation `y2[i-1] = Factor(i-1) * y2[i] + Reduced(i-1)` carries over to row `i` |
| SecondDerivatives.NaturalSplineIsEliminated | src/mnspline.c:40-49 | every natural spline satisfies `y2[i] = Factor(i) * y2[i+1] + Reduced(i)` at each row |
| SecondDerivatives.NaturalSplineIsBackSubstituted | src/mnspline.c:51-54 | every natural spline equals the back-substituted values |
| SecondDerivatives.NaturalSplineIsUnique | src/mnspline.c:17-19 | second derivatives are those of the natural spline if and only if they are the solution of the sweep, so the natural spline is unique |
| SecondDerivatives.EliminateRow | src/mnspline.c:42-48 | the forward-loop body writes `Factor(xs, i)` to `py2[i]` and `Reduced(xs, ys, i)` to `pu[i]`, and changes nothing else |
| SecondDerivatives.BackSubstitute | src/mnspline.c:53-54 | the back-substitution loop leaves exactly the solution of the sweep in `py2` |
| SecondDerivatives.Spline | src/mnspline.c:22-58 | if allocation fails, the result is -1 and `py2` is unchanged. Otherwise the result is 0 and `py2` holds the solution of the sweep, which is the natural cubic spline through the knots |

## Left out

- Floating point: all arithmetic is over `real`. IEEE rounding, overflow, NaN and infinities are not modelled. Exactness holds in real arithmetic only.
- OpenMP concurrency: the threads of the parallel loop are modelled by a schedule parameter of `Splint`. It runs each thread's chunk, with its own `firstprivate` copies, in sequence. Interleavings are not modelled; the chunks write disjoint output slots.
- `malloc` and `free` of the scratch buffer: the outcome of the allocation is the parameter `scratchAvailable`, and release is left to Dafny's memory model.
- The size parameters `n` and `nx`: they are the lengths of the arrays.
- Input validation the C leaves to its callers becomes preconditions:
  - at least two knots, since with fewer the C indexes `pu[n-2]` out of range and `n - 1` wraps around in `size_t`;
  - strictly increasing knots;
  - equal lengths of the arrays;
  - output arrays distinct from the inputs.
- `size_t` arithmetic in `bisect`: `mid = klo + ((khi - klo) >> 1)` is modelled with unbounded naturals as `klo + (khi - klo) / 2`. It cannot overflow, since `klo < khi`.
- The second lookup mode of the Python binding (`python/test.py:15,17`) lives in its Cython module, which is not part of this model.
- The `DEBUG` test `main` of `src/mnspline.c` and the host-language bindings are not part of this model.
