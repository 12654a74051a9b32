# Local-linear Lyapunov spectrum estimator, modelled in Dafny

This project models the core of `JakobianMethod`, the estimator of the Lyapunov
spectrum of a scalar time series by local linear fits in delay coordinates. The
series is embedded with `eDim` coordinates at the fixed delay `tau = 1`. For each
point `act` of the series:

1. The neighbour search grows a radius `epsilon` from `epsmin` by the factor
   `epsstep`, up to the cap `EPSMAX = 1`.
2. At each radius, `Sort` ranks the candidates the box-assisted search returns by
   their max-norm distance to `act`.
3. Sort then decides how many of the nearest neighbours to keep.
4. `make_dynamics` fits the successor of a point on its delay vector by least
   squares over those neighbours. It assembles the averaged moment matrix and
   right-hand side, inverts the matrix column by column with Gaussian elimination
   (`InvertMatrix` and `SolveLe`), reads the intercept and the slopes out of the
   inverse, and adds up the squared forecast error.
5. The slopes define a companion matrix, the Jacobian of the fitted map.
   `MakeIteration` applies it to every tangent vector.
6. `GramSchmidt` re-orthonormalises the tangent vectors and returns their
   stretch factors.

The model uses `real` for the source's `double`, so every statement is about exact
arithmetic. The square root is a parameter `sqrt` with the contract `IsSqrt`: for
`x >= 0`, `sqrt(x) >= 0` and `sqrt(x) * sqrt(x) == x`. The model takes the source's
imperative form:

- `JakobianMethod` is a class whose fields `mat`, `vec`, `abstand`, `indexes` and
  `found` are arrays.
- Its running averages `averr`, `avneig`, `aveps`, `epsmin` and `count` are fields
  its methods update.
- The private routines that only read a few fields become module-level methods.
  These are `Sort`, `SolveLe`, `InvertMatrix`, `MakeIteration`, `GramSchmidt`,
  `MakeIndex` and `Variance`. Each takes those fields as parameters and works in
  place on arrays, with loop invariants.
- Each method is proved against a specification function of the inputs. These are:
  - `Trial` and `Before` for the radius schedule;
  - `Distance` for the max-norm;
  - `Moments` and `Rhs` for the normal equations;
  - `Solves` and `RightInverse` for the solver;
  - `Propagate`, `Shift` and `Companion` for the tangent map;
  - `Correction`, `Residual` and `Orthonormal` for Gram-Schmidt.
- The properties are proved about those functions.

Modules:

| file | module | what it covers |
|---|---|---|
| `embedding.dfy` | `Embedding` | the delay-index table, the constructor guard, the max-norm delay distance |
| `selection.dfy` | `Selection` | `Sort`: distance pass, removal of the query point, partial selection sort, acceptance rule |
| `radius.dfy` | `Radius` | the trial-radius schedule of the retry loop and its termination |
| `regression.dfy` | `Regression` | the moment matrix, the right-hand side, the forecast, the normal equations |
| `linear_algebra.dfy` | `LinearAlgebra` | dot products, row operations, solutions of linear systems |
| `linear_solver.dfy` | `LinearSolver` | `SolveLe` and `InvertMatrix` |
| `tangent.dfy` | `Tangent` | `MakeIteration` and the companion matrix |
| `gram_schmidt.dfy` | `Orthonormal` | `GramSchmidt` |
| `statistics.dfy` | `Statistics` | `Variance` and its zero test |
| `jakobian.dfy` | `Jakobian` | the class: constructor, buffers, `make_dynamics` |

Quirks of the source that the model keeps:

- **`self` slot.** `Sort`'s `self` slot starts at 0. When the query point is not among
  the candidates, the last candidate overwrites slot 0 (`SelfSlot`, `MoveLastInto`).
- **Sorted range.** The selection sort stops before slot `imax - 1`. The last
  candidate stays in that slot, next to its copy in the slot it was moved into.
- **Acceptance tests.** The first acceptance test is `>=` against `epsmin`, and the
  extension test is `>`.
- **Untested slot.** The extension loop never tests slot `imax - 2`.
- **Fallback count.** The fallback returns `nfound = nFound`, one more than the
  candidates that remain, so the fit then also uses slot `imax - 1`. `Accepted`
  states this as `nfound == hi + 1`.
- **When Sort runs.** `Sort` runs only when the search returned more than
  `minNeighbors` candidates. Otherwise the candidates are the result (`TrialOutcome`).
- **Averages before the exit.** `avneig` and `aveps` grow, and `epsmin` is reset
  from the average radius, before the not-enough-neighbours exit.

## Model

| member | source | states |
|---|---|---|
| `Embedding.MakeIndex` | src/MathLib/NumericalMethods/Lyapunov/JakobianMethod.cs:585-595 | a fresh table of length eDim whose entry i is i * delay |
| `Embedding.FeasibleIffEnoughPoints` | src/MathLib/NumericalMethods/Lyapunov/JakobianMethod.cs:46-49 | the constructor's guard holds exactly when minNeighbors is at most the number of points with a full delay vector and a successor |
| `Jakobian.Construct` | src/MathLib/NumericalMethods/Lyapunov/JakobianMethod.cs:33-49 | construction is refused (the ArgumentException) exactly when the guard fails; otherwise the object holds the series, eDim, minNeighbors and epsmin as given |
| `Jakobian.JakobianMethod.constructor` | src/MathLib/NumericalMethods/Lyapunov/JakobianMethod.cs:33-45 | every setting is stored unchanged, epsset holds exactly when scaleMin is non-zero, the averages start at zero, length is the series length |
| `Jakobian.JakobianMethod.Prepare` | src/MathLib/NumericalMethods/Lyapunov/JakobianMethod.cs:107-142 | vec and the eDim + 1 rows of mat are fresh and zero, indexes is the MakeIndex table, abstand has one slot per point, the buffers do not overlap (Valid) and the averages are untouched |
| `Jakobian.ZeroSystem` | src/MathLib/NumericalMethods/Lyapunov/JakobianMethod.cs:111-117 | a fresh zero vector and a fresh square zero matrix of size n |
| `Embedding.DistanceIsMaxNorm` | src/MathLib/NumericalMethods/Lyapunov/JakobianMethod.cs:194-203 | the distance Sort computes bounds every coordinate gap and equals one of them: it is the maximum norm of the difference of the delay vectors |
| `Embedding.DistanceSymmetric` | src/MathLib/NumericalMethods/Lyapunov/JakobianMethod.cs:194-200 | the distance does not depend on which point is the query |
| `Embedding.DistanceZeroIff` | src/MathLib/NumericalMethods/Lyapunov/JakobianMethod.cs:194-203 | distances are non-negative and zero exactly when the two delay vectors coincide |
| `Selection.DelayDistance` | src/MathLib/NumericalMethods/Lyapunov/JakobianMethod.cs:194-201 | the inner loop returns the max-norm distance of the delay vectors of act and hf |
| `Selection.ComputeDistances` | src/MathLib/NumericalMethods/Lyapunov/JakobianMethod.cs:188-209 | every candidate other than the query gets its distance in the same slot, the query's slot and the slots from imax on keep their values, and self is the last slot holding the query (0 when it is absent) |
| `Selection.SelfSlot` | src/MathLib/NumericalMethods/Lyapunov/JakobianMethod.cs:183-208 | the slot is in range, holds the query point and no later slot does; without the query point it is 0 |
| `Selection.SelfRemovalDropsQuery` | src/MathLib/NumericalMethods/Lyapunov/JakobianMethod.cs:205-215 | with the query point present once, the remaining candidates are the original ones, as a multiset, less the query point |
| `Selection.SelfRemovalWithoutQuery` | src/MathLib/NumericalMethods/Lyapunov/JakobianMethod.cs:211-215 | with the query point absent, the first candidate is the one dropped |
| `Selection.SelfRemovalExcludesQuery` | src/MathLib/NumericalMethods/Lyapunov/JakobianMethod.cs:205-215 | when the query occurs at most once, it is not among the remaining candidates |
| `Selection.DropKeepsCoupling` | src/MathLib/NumericalMethods/Lyapunov/JakobianMethod.cs:211-215 | after the move, each of the first imax - 1 slots holds a non-query candidate beside its distance |
| `Selection.DropQuery` | src/MathLib/NumericalMethods/Lyapunov/JakobianMethod.cs:188-215 | the distance pass and the removal leave exactly the candidates MoveLastInto describes in slots 0 .. imax - 2, each coupled to its distance, and change nothing else except the last distance slot |
| `Selection.SwapEntries` | src/MathLib/NumericalMethods/Lyapunov/JakobianMethod.cs:223-228 | the two slots are exchanged in both arrays together, and nothing else changes |
| `Selection.SwapKeepsMultiset` | src/MathLib/NumericalMethods/Lyapunov/JakobianMethod.cs:226-228 | an exchange of two slots is a permutation |
| `Selection.SelectSmallest` | src/MathLib/NumericalMethods/Lyapunov/JakobianMethod.cs:219-230 | one pass moves a smallest distance of slots i .. hi - 1 into slot i, keeps each candidate beside its distance and the candidates a permutation, and leaves the other slots alone |
| `Selection.SortPrefix` | src/MathLib/NumericalMethods/Lyapunov/JakobianMethod.cs:217-231 | after the first phase, each of the first minNeighbors slots holds a distance no larger than any later one before imax - 1, the candidates are permuted in lock-step, and nothing outside the range changes |
| `Selection.ExtendNeighbourhood` | src/MathLib/NumericalMethods/Lyapunov/JakobianMethod.cs:242-264 | the second phase stops at the first slot below imax - 2 whose distance exceeds epsmin, with nfound one past it and every earlier slot at most epsmin; when there is none, nfound is the count before the drop and all tested slots are at most epsmin |
| `Selection.Rank` | src/MathLib/NumericalMethods/Lyapunov/JakobianMethod.cs:217-268 | both phases keep the candidates a permutation coupled to their distances, and the result meets the acceptance rule (Accepted) in all three outcomes |
| `Selection.Sort` | src/MathLib/NumericalMethods/Lyapunov/JakobianMethod.cs:180-269 | Sort's whole effect (Ranked): the first nFound - 1 slots are the candidates without the query point, in some order, each beside its distance; the last slot keeps the last candidate; nfound is between minNeighbors and nFound; the acceptance rule holds; no slot from nFound on changes |
| `Radius.Trial` | src/MathLib/NumericalMethods/Lyapunov/JakobianMethod.cs:280-289 | every trial radius is at most EPSMAX |
| `Radius.FirstTrial` | src/MathLib/NumericalMethods/Lyapunov/JakobianMethod.cs:280-289 | the first trial is epsmin itself, clamped to EPSMAX |
| `Radius.TrialPositive` | src/MathLib/NumericalMethods/Lyapunov/JakobianMethod.cs:280-289 | every trial radius is positive |
| `Radius.TrialGrows` | src/MathLib/NumericalMethods/Lyapunov/JakobianMethod.cs:284-289 | below the cap each trial is strictly larger than the one before |
| `Radius.TrialStaysCapped` | src/MathLib/NumericalMethods/Lyapunov/JakobianMethod.cs:284-289 | once a trial reaches EPSMAX every later one stays there |
| `Radius.TrialAboveRamp` | src/MathLib/NumericalMethods/Lyapunov/JakobianMethod.cs:284-289 | each trial adds at least epsmin * (epsstep - 1) to the radius until it reaches EPSMAX |
| `Radius.TrialLowerBound` | src/MathLib/NumericalMethods/Lyapunov/JakobianMethod.cs:284-289 | trial k is at least min(EPSMAX, epsmin + k * epsmin * (epsstep - 1)) |
| `Radius.TrialReachesCap` | src/MathLib/NumericalMethods/Lyapunov/JakobianMethod.cs:282-300 | after CapIndex trials the radius is EPSMAX, so the retry loop ends |
| `Radius.CapReached` | src/MathLib/NumericalMethods/Lyapunov/JakobianMethod.cs:282-300 | some trial of the schedule is at EPSMAX, which bounds the number of trials |
| `Radius.ZeroRadiusNeverCaps` | src/MathLib/NumericalMethods/Lyapunov/JakobianMethod.cs:280-300 | from epsmin = 0 every trial radius is 0, below EPSMAX, so the loop can only end on an accepted neighbourhood |
| `Jakobian.JakobianMethod.Widen` | src/MathLib/NumericalMethods/Lyapunov/JakobianMethod.cs:284-289 | the radius after one more multiplication and clamp is the next trial of the schedule |
| `Jakobian.JakobianMethod.LoadCandidates` | src/MathLib/NumericalMethods/Lyapunov/JakobianMethod.cs:291-292 | the front of the result buffer holds exactly the candidates the search returned |
| `Jakobian.LoadedSortable` | src/MathLib/NumericalMethods/Lyapunov/JakobianMethod.cs:292-296 | loaded candidates all have a full delay vector, as Sort needs |
| `Jakobian.RankLoaded` | src/MathLib/NumericalMethods/Lyapunov/JakobianMethod.cs:294-296 | Sort on the loaded candidates leaves the Ranked state, and every neighbour kept can be fitted |
| `Jakobian.RankedAreFittable` | src/MathLib/NumericalMethods/Lyapunov/JakobianMethod.cs:294-296 | the neighbours a ranking keeps are all candidates, so they all have a delay vector and a successor |
| `Jakobian.JakobianMethod.Attempt` | src/MathLib/NumericalMethods/Lyapunov/JakobianMethod.cs:284-299 | one trial: the radius becomes trial k of the schedule; with more than minNeighbors candidates Sort ranks them and becomes the latest ranking, otherwise the candidates are the result and the latest ranking and foundeps stay as they were; either way the kept neighbours can be fitted |
| `Jakobian.JakobianMethod.SearchNeighbours` | src/MathLib/NumericalMethods/Lyapunov/JakobianMethod.cs:276-300 | the retry loop ends at trial k: all earlier trials stayed below EPSMAX, the loop stopped because Sort accepted or because trial k reached EPSMAX, the buffers hold the outcome of trial k, and foundeps is the radius Sort returned in the latest trial among 0..k that it ranked (every later trial had at most minNeighbors candidates), or 0.0 when no trial was ranked |
| `Jakobian.LatestRankingNext` | src/MathLib/NumericalMethods/Lyapunov/JakobianMethod.cs:292-299 | a trial with more than minNeighbors candidates replaces foundeps by its ranking's radius; any other trial leaves foundeps as it was |
| `Jakobian.JakobianMethod.RecordNeighbourhood` | src/MathLib/NumericalMethods/Lyapunov/JakobianMethod.cs:302-308 | avneig and aveps grow by nfound and foundeps; epsmin becomes aveps / count when it was not set, which is 0 when every radius recorded so far was 0 |
| `Jakobian.JakobianMethod.ClearSystem` | src/MathLib/NumericalMethods/Lyapunov/JakobianMethod.cs:315-323 | every entry of mat and vec is zero |
| `Jakobian.JakobianMethod.AddFirstRow` | src/MathLib/NumericalMethods/Lyapunov/JakobianMethod.cs:328-333 | row 0 gains 1 and the coordinates of the neighbour, which is row 0 of the neighbour's moment term (`Regression.MomentTermFirstRow`); other rows are unchanged |
| `Jakobian.ProductRow` | src/MathLib/NumericalMethods/Lyapunov/JakobianMethod.cs:335-344 | from column hj on, the row gains the product of coordinate hj - 1 with each later coordinate; the columns before keep their values |
| `Jakobian.JakobianMethod.AddProducts` | src/MathLib/NumericalMethods/Lyapunov/JakobianMethod.cs:335-344 | row hj of mat gains the moment terms from column hj on, each the product of two delay coordinates in the source's operand order (`Regression.MomentTermCoords`); other rows are unchanged |
| `Jakobian.JakobianMethod.AddNeighbourMoments` | src/MathLib/NumericalMethods/Lyapunov/JakobianMethod.cs:327-344 | every upper-triangle entry (a, b) gains the product of the neighbour's regressors a and b |
| `Jakobian.JakobianMethod.AccumulateMoments` | src/MathLib/NumericalMethods/Lyapunov/JakobianMethod.cs:325-345 | the upper triangle of mat holds the moment sums over the first nfound neighbours |
| `Jakobian.JakobianMethod.DivideAndMirror` | src/MathLib/NumericalMethods/Lyapunov/JakobianMethod.cs:351 | entry (i, j) is divided by n and copied into (j, i); nothing else changes |
| `Jakobian.JakobianMethod.NormaliseRow` | src/MathLib/NumericalMethods/Lyapunov/JakobianMethod.cs:349-352 | row i from column i on and column i from row i on hold the averaged moments; other entries are unchanged |
| `Jakobian.JakobianMethod.NormaliseMoments` | src/MathLib/NumericalMethods/Lyapunov/JakobianMethod.cs:347-353 | mat becomes the averaged moment matrix of the neighbours |
| `Regression.MomentSumSnoc` | src/MathLib/NumericalMethods/Lyapunov/JakobianMethod.cs:325-345 | taking in one more neighbour adds the product of its regressors |
| `Regression.MomentsSymmetric` | src/MathLib/NumericalMethods/Lyapunov/JakobianMethod.cs:347-353 | the averaged moment matrix is symmetric |
| `Regression.MomentsCorner` | src/MathLib/NumericalMethods/Lyapunov/JakobianMethod.cs:325-353 | with at least one neighbour, entry (0, 0) of the averaged matrix is 1 |
| `Regression.MomentsFirstRow` | src/MathLib/NumericalMethods/Lyapunov/JakobianMethod.cs:325-353 | entry (0, j + 1) is the mean of delay coordinate j over the neighbours |
| `Jakobian.JakobianMethod.SolveMoments` | src/MathLib/NumericalMethods/Lyapunov/JakobianMethod.cs:315-355 | mat becomes the averaged moment matrix of the kept neighbours; the inversion completes exactly when that matrix is nonsingular, and then yields a right inverse of it |
| `Regression.RhsSumSnoc` | src/MathLib/NumericalMethods/Lyapunov/JakobianMethod.cs:362-373 | taking in one more neighbour adds its successor times each regressor |
| `Jakobian.AddRhsTerms` | src/MathLib/NumericalMethods/Lyapunov/JakobianMethod.cs:364-372 | each entry of the right-hand side gains the neighbour's successor times the regressor: the successor for entry 0, times coordinate i - 1 for entry i (`Regression.RhsTermValue`) |
| `Jakobian.JakobianMethod.AddNeighbourRhs` | src/MathLib/NumericalMethods/Lyapunov/JakobianMethod.cs:364-372 | one neighbour's contribution to vec, in every entry |
| `Jakobian.JakobianMethod.SumRhs` | src/MathLib/NumericalMethods/Lyapunov/JakobianMethod.cs:362-373 | vec holds the right-hand-side sums over the first nfound neighbours |
| `Jakobian.DivideAll` | src/MathLib/NumericalMethods/Lyapunov/JakobianMethod.cs:375-378 | every entry is divided by n |
| `Jakobian.JakobianMethod.AssembleRhs` | src/MathLib/NumericalMethods/Lyapunov/JakobianMethod.cs:357-378 | vec becomes the averaged right-hand side of the normal equations |
| `Jakobian.JakobianMethod.RowTimesRhs` | src/MathLib/NumericalMethods/Lyapunov/JakobianMethod.cs:387-396 | dynamics[i - 1] becomes row i of the inverse times the right-hand side; the other entries are unchanged |
| `Jakobian.JakobianMethod.ApplyInverse` | src/MathLib/NumericalMethods/Lyapunov/JakobianMethod.cs:380-396 | the intercept followed by the slopes is the inverse times the right-hand side |
| `Jakobian.JakobianMethod.AddForecast` | src/MathLib/NumericalMethods/Lyapunov/JakobianMethod.cs:398-401 | the forecast is the intercept plus the slopes times the delay coordinates of t |
| `LinearAlgebra.RightInverseSolvesAll` | src/MathLib/NumericalMethods/Lyapunov/JakobianMethod.cs:380-396 | the inverse times any right-hand side solves the system |
| `Regression.NormalEquationRow` | src/MathLib/NumericalMethods/Lyapunov/JakobianMethod.cs:347-378 | equation i of the averaged system holds exactly when the residuals, weighted by regressor i, add up to zero |
| `Regression.NormalEquations` | src/MathLib/NumericalMethods/Lyapunov/JakobianMethod.cs:315-396 | coefficients solve the averaged moment system exactly when the residuals are orthogonal to every regressor, both directions: the fit is the least-squares fit |
| `Jakobian.JakobianMethod.FitCoefficients` | src/MathLib/NumericalMethods/Lyapunov/JakobianMethod.cs:357-401 | the coefficients read out of the inverse solve the normal equations, their residuals are orthogonal to every regressor, the slopes land in dynamics and the forecast is that of the fit |
| `Jakobian.JakobianMethod.FitNeighbourhood` | src/MathLib/NumericalMethods/Lyapunov/JakobianMethod.cs:315-403 | the fit is Unsolvable exactly when the moment matrix is singular, and then averr is unchanged; otherwise mat and vec hold the normal equations, dynamics the slopes of their solution, and averr grows by the squared forecast error for act |
| `Jakobian.JakobianMethod.MakeDynamics` | src/MathLib/NumericalMethods/Lyapunov/JakobianMethod.cs:271-405 | make_dynamics as a whole: the retry loop's end state with foundeps from the latest ranking, the updated averages (epsmin drops to 0 when it was not set and the radii so far sum to 0), the not-enough-neighbours exit exactly when fewer than minNeighbors were found (with mat, vec, dynamics and averr untouched), and otherwise the fit, Unsolvable exactly for a singular moment matrix |
| `LinearAlgebra.SwapKeepsSolutions` | src/MathLib/NumericalMethods/Lyapunov/JakobianMethod.cs:550-558 | exchanging two equations together with their right-hand sides keeps every solution |
| `LinearAlgebra.CombinationKeepsSolutions` | src/MathLib/NumericalMethods/Lyapunov/JakobianMethod.cs:566-573 | adding multiples of the pivot equation to other equations keeps every solution |
| `LinearAlgebra.SwapKeepsKernel` | src/MathLib/NumericalMethods/Lyapunov/JakobianMethod.cs:550-558 | exchanging two rows leaves the kernel of the matrix unchanged, both inclusions |
| `LinearAlgebra.CombinationKeepsKernel` | src/MathLib/NumericalMethods/Lyapunov/JakobianMethod.cs:566-573 | adding multiples of the pivot row to other rows leaves the kernel unchanged, both inclusions |
| `LinearAlgebra.SameKernelSingular` | src/MathLib/NumericalMethods/Lyapunov/JakobianMethod.cs:529-583 | two matrices with the same kernel are singular together |
| `LinearSolver.PivotRow` | src/MathLib/NumericalMethods/Lyapunov/JakobianMethod.cs:538-548 | the pivot row has the largest absolute value in column i over the rows from i on, and is the first such row on ties |
| `LinearSolver.SwapRows` | src/MathLib/NumericalMethods/Lyapunov/JakobianMethod.cs:550-558 | the two row references and the two vec entries are exchanged together, and nothing else changes |
| `LinearSolver.CombineRow` | src/MathLib/NumericalMethods/Lyapunov/JakobianMethod.cs:568-571 | entry i of row j becomes 0, every later entry gains q times the pivot row, and other rows are unchanged |
| `LinearSolver.CombinedRow` | src/MathLib/NumericalMethods/Lyapunov/JakobianMethod.cs:568-571 | that update is the row operation row + q * pivot row, because the pivot row is zero left of column i and q cancels entry i |
| `LinearSolver.AddMultiple` | src/MathLib/NumericalMethods/Lyapunov/JakobianMethod.cs:572 | vec[j] gains q * vec[i]; nothing else changes |
| `LinearSolver.ColumnEliminated` | src/MathLib/NumericalMethods/Lyapunov/JakobianMethod.cs:566-573 | after step i every entry below the diagonal left of column i + 1 is zero |
| `LinearSolver.EliminatedAll` | src/MathLib/NumericalMethods/Lyapunov/JakobianMethod.cs:566-573 | once every row below the pivot is combined, the matrix is square, zero below the diagonal left of column i + 1, every solution of the new system solves the old one, and the kernel is unchanged |
| `LinearSolver.EliminateColumn` | src/MathLib/NumericalMethods/Lyapunov/JakobianMethod.cs:560-573 | below a nonzero pivot, column i becomes zero under the diagonal, rows up to i are unchanged, every solution of the new system solves the old one, and the kernel is unchanged |
| `LinearSolver.SubtractKnown` | src/MathLib/NumericalMethods/Lyapunov/JakobianMethod.cs:579-580 | v[i] loses the dot product of the row's later entries with the already solved entries; the others are unchanged |
| `LinearSolver.SolvedRow` | src/MathLib/NumericalMethods/Lyapunov/JakobianMethod.cs:579-581 | once x[i] is set from the later entries, row i of the triangular system holds |
| `LinearSolver.BackSubstitute` | src/MathLib/NumericalMethods/Lyapunov/JakobianMethod.cs:575-582 | on an upper-triangular system with nonzero diagonal, v becomes its solution |
| `LinearSolver.SolveLe` | src/MathLib/NumericalMethods/Lyapunov/JakobianMethod.cs:529-583 | the solve completes exactly when the matrix is nonsingular, and then leaves in vec a solution of the original system; a singular pivot (the exception) leaves a column that is zero from the diagonal down; a zero last pivot leaves an upper-triangular system with the same solutions |
| `LinearSolver.KernelVector` | src/MathLib/NumericalMethods/Lyapunov/JakobianMethod.cs:538-564 | a column zero from the diagonal down, with a nonzero diagonal left of it, makes the matrix singular: back substitution with a 1 in that column gives a nonzero kernel vector |
| `LinearSolver.TriangularNonsingular` | src/MathLib/NumericalMethods/Lyapunov/JakobianMethod.cs:575-582 | an upper-triangular matrix with a nonzero diagonal has only the zero vector in its kernel |
| `LinearSolver.LoadSystem` | src/MathLib/NumericalMethods/Lyapunov/JakobianMethod.cs:507-517 | hmat is a copy of mat and vec the unit vector e_i |
| `LinearSolver.StoreColumn` | src/MathLib/NumericalMethods/Lyapunov/JakobianMethod.cs:521-522 | column i of imat becomes vec; the other columns are unchanged |
| `LinearSolver.InvertMatrix` | src/MathLib/NumericalMethods/Lyapunov/JakobianMethod.cs:491-526 | every column solve completes exactly when mat is nonsingular, and then the result is a right inverse of mat |
| `Tangent.ShiftIsCompanion` | src/MathLib/NumericalMethods/Lyapunov/JakobianMethod.cs:467-480 | the new row (the dot product with dynamics, then the old row shifted by one) is the companion matrix of dynamics times the old row |
| `Tangent.FittedStepLinearised` | src/MathLib/NumericalMethods/Lyapunov/JakobianMethod.cs:380-401 | the fitted map moves the difference of two states by exactly that companion matrix: it is the Jacobian of the fitted map |
| `Tangent.ImageRow` | src/MathLib/NumericalMethods/Lyapunov/JakobianMethod.cs:469-479 | row i of dnew becomes the image of row i of delta; the other rows are unchanged |
| `Tangent.CopyMatrix` | src/MathLib/NumericalMethods/Lyapunov/JakobianMethod.cs:482-488 | the destination holds every entry of the source |
| `Tangent.MakeIteration` | src/MathLib/NumericalMethods/Lyapunov/JakobianMethod.cs:460-489 | every row of delta is replaced by its image under the companion matrix; new[i,0] is the dot product with dynamics and new[i,j] is old[i,j-1] |
| `Orthonormal.RowDot` | src/MathLib/NumericalMethods/Lyapunov/JakobianMethod.cs:423-428 | the dot product of row i of delta with row j of dnew |
| `Orthonormal.ClearDiff` | src/MathLib/NumericalMethods/Lyapunov/JakobianMethod.cs:416-419 | diff starts as the correction against no rows |
| `Orthonormal.SubtractMultiple` | src/MathLib/NumericalMethods/Lyapunov/JakobianMethod.cs:430-433 | diff loses norm times row j of dnew |
| `Orthonormal.SubtractProjection` | src/MathLib/NumericalMethods/Lyapunov/JakobianMethod.cs:421-433 | diff takes in the projection of row i of delta onto row j of dnew |
| `Orthonormal.Project` | src/MathLib/NumericalMethods/Lyapunov/JakobianMethod.cs:416-434 | diff becomes the correction of row i against the first i new rows |
| `Orthonormal.SquaredLength` | src/MathLib/NumericalMethods/Lyapunov/JakobianMethod.cs:436-441 | norm is the squared length of row i plus diff |
| `Orthonormal.StoreRow` | src/MathLib/NumericalMethods/Lyapunov/JakobianMethod.cs:445-448 | row i of dnew becomes row i plus diff divided by norm; the other rows are unchanged |
| `Orthonormal.CorrectionAgainst` | src/MathLib/NumericalMethods/Lyapunov/JakobianMethod.cs:421-434 | against orthonormal rows the correction cancels the projection onto each row already used and nothing of the others |
| `Orthonormal.ResidualOrthogonal` | src/MathLib/NumericalMethods/Lyapunov/JakobianMethod.cs:414-441 | the residual is orthogonal to every row it was orthogonalised against |
| `Orthonormal.ExtendOrthonormal` | src/MathLib/NumericalMethods/Lyapunov/JakobianMethod.cs:436-448 | the residual divided by its length extends an orthonormal set |
| `Orthonormal.RowReconstructs` | src/MathLib/NumericalMethods/Lyapunov/JakobianMethod.cs:436-448 | the old row is the stretch times the new row minus the correction: the old rows are a triangular combination of the new ones with the stretch factors on the diagonal |
| `Orthonormal.UnitRow` | src/MathLib/NumericalMethods/Lyapunov/JakobianMethod.cs:436-448 | with a nonzero square root of the squared length, the new row extends the orthonormal set and reconstructs the old row |
| `Orthonormal.DotSelfZero` | src/MathLib/NumericalMethods/Lyapunov/JakobianMethod.cs:436-443 | only the zero vector has zero squared length |
| `Orthonormal.NextRow` | src/MathLib/NumericalMethods/Lyapunov/JakobianMethod.cs:414-449 | one row: stretch[i] is the length of the residual, and either the new row extends the orthonormal set and reconstructs the old row, or the residual is zero |
| `Orthonormal.Orthogonalise` | src/MathLib/NumericalMethods/Lyapunov/JakobianMethod.cs:414-449 | the new rows are orthonormal and each old row is reconstructed from them and its stretch; or the first row of zero residual is reported |
| `Orthonormal.GramSchmidt` | src/MathLib/NumericalMethods/Lyapunov/JakobianMethod.cs:407-458 | delta is replaced by orthonormal rows and stretch holds the lengths that reconstruct the old rows; a row in the span of those before it is reported and delta is left as it was |
| `Statistics.MeanSquareIsDeviation` | src/MathLib/NumericalMethods/Lyapunov/JakobianMethod.cs:603-611 | the mean square less the squared mean is the mean squared deviation from the mean |
| `Statistics.ZeroVarianceIffConstant` | src/MathLib/NumericalMethods/Lyapunov/JakobianMethod.cs:610-616 | the quantity under the square root is zero exactly when all values are equal |
| `Statistics.Variance` | src/MathLib/NumericalMethods/Lyapunov/JakobianMethod.cs:597-617 | av is the mean, var is the square root of the absolute mean square less the squared mean, and the data are rejected exactly when they are constant |

## Left out

- `Calculate` (src/MathLib/NumericalMethods/Lyapunov/JakobianMethod.cs:75-178) is not part of this model. It is the numeric driver: seeding from `System.Random`, the `Math.Log` accumulation of the spectrum, wall-clock reporting through `DateTime` and the `Log` output. `Prepare` models only the buffers it allocates (:107-119, :142).
- The reversal of the series when `inverse` is set (:97-100) and `Ext.RescaleData` (:88) belong to `Calculate` and are not modelled. The series is an immutable sequence.
- `BoxAssistedFnn` (`PutInBoxes`, `FindNeighborsJ`) is not part of this model. The search is a parameter `search` from radius to candidate list. `Candidates` states what the model assumes of its result: every candidate has a full delay vector and a successor, and the query point occurs at most once.
- `ToString`, `GetInfoFull` and `GetResult` format output only and are not modelled.
- `src/ModelledSystems/Routines/LeFractal.cs` is not part of this model. It is parallel rendering, file output and an external solver.
- Floating point is not modelled. `double` becomes exact `real`, so overflow, rounding, Inf and NaN do not arise. `Math.Abs` is `Abs`, `Math.Pow(x, 2)` is `x * x`, and `Math.Sqrt` is the parameter `sqrt`.
- Exceptions become result values:
  - the constructor's `ArgumentException` is `Construction.TooFewPoints`;
  - "Not enough neighbors" is `Outcome.NotEnoughNeighbours`;
  - "Singular matrix" is `SolveStatus.SingularPivot`;
  - the zero-variance `ArgumentException` is `ok == false`.
- Integer widths are not modelled. `int` and `long` indices and the `count` field are unbounded integers; the sizes involved stay far below the limits.
- `LinearSolver.SolveLe`: the unguarded division by the last pivot (:575) is reported as `ZeroFinalPivot` and the solve stops there. The source divides by zero and carries Inf or NaN into the back substitution (:581) and the fit.
- `Jakobian.JakobianMethod.MakeDynamics`: when the inversion does not complete, the model returns `Unsolvable` and leaves `averr` unchanged. The source either throws (a singular pivot) or goes on with Inf/NaN (a zero last pivot).
- `Jakobian.JakobianMethod.MakeDynamics` requires `epsmin > 0` and `epsstep > 1`, so that its retry loop reaches `EPSMAX` and ends. The source checks neither, and its own update at :305-308 can break the first: when `epsmin` was not set and every radius recorded so far is 0 (minNeighbors neighbours that coincide with the query point, or a final trial that accepted exactly minNeighbors neighbours at distance 0), `epsmin` becomes 0, as the `MakeDynamics` and `RecordNeighbourhood` contracts state. From then on every trial radius is 0 (`Radius.ZeroRadiusNeverCaps`), and the next call's loop ends only if some trial is accepted. The model does not cover that next call. It also requires `count >= 1`, which `Calculate` ensures by incrementing `count` before each call.
- `Selection.Sort` (with `Selection.Rank` and `Selection.ExtendNeighbourhood`) requires `minNeighbors >= 1`, which the source never checks: the constructor guard at :46 bounds `minNeighbors` only from above, and `Jakobian.Construct` accepts `minNeigh <= 0` as the source does. As written, the source's `Sort` with `minNeighbors <= 0` reads `abstand[minNeighbors - 1]`, a negative index, at :233 (with epsset) or :237 (without), and so throws `IndexOutOfRangeException` as soon as a trial returns a candidate (`make_dynamics` calls it whenever `nfound > minNeighbors`, :294). When no trial returns any candidate, the check at :310 lets `nfound = 0` through and the averaging at :351 and :377 divides by zero. The model does not cover either path.
- `Jakobian.JakobianMethod.Prepare` (and the object invariant `Valid` it establishes) requires `eDim >= 1` and `minNeighbors >= 1`; the source checks neither. With `minNeighbors <= 0` the source fails in `Sort` as described for `Selection.Sort`. With `eDim == 0` the source would allocate an empty index table and a 1-by-1 moment matrix and fit the intercept alone, while its distance loop (:188-203) still compares coordinate 0; with `eDim < 0` the allocation at :107 throws. None of these cases is modelled.
- `Selection.Sort` requires that the query point occurs at most once among the candidates, as it does in a box index that holds each point once. The quirk when it is absent (slot 0 is overwritten) is modelled.
- `Orthonormal.GramSchmidt`: a row whose residual has length zero makes the source divide by zero and fill the row with NaN. The model stops at that row, reports it, and leaves `delta` unchanged.
- `Jakobian.JakobianMethod.constructor` requires the guard to hold. `Jakobian.Construct` models the guard and the exception.
- The private routines `Sort`, `SolveLe`, `InvertMatrix`, `MakeIteration`, `GramSchmidt`, `MakeIndex` and `Variance` are module-level methods. They take the fields they read (the series, `indexes`, `minNeighbors`, `epsset`, `epsmin`) as parameters, with `indexes` passed as the sequence of its entries.
