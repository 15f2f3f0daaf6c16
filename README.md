# matrixes: exact Gaussian elimination over fractions

`matrixes` reads an augmented matrix, describing a system of linear equations, and
simplifies it by Gaussian elimination. The exact variant stores every cell as a
`fraction {numerator, denominator}`. After every multiplication, subtraction and division
it calls `reduction`, which cancels common factors by trial division over a table of primes
built once by a sieve.

This project models that exact core in Dafny and proves properties of the model:

- `Primes` is the sieve `initialize_prime_numbers`. It builds the prime table: the primes
  up to a bound `n`, in ascending order, ended by the sentinel `0`. It also defines the
  predicates (`ValidTable`, `IsPrimeTable`) that the rest of the model assumes of the table.
  `InitializeProgramTable` is the program's own call, with the bound `MAX_PRIME`.
- `Fractions` holds the `fraction` record and `reduction`:
  - the sign fix;
  - zero becomes `0/1`;
  - the `|n| == d` shortcut;
  - trial division that stops at the first table prime above `min(|n|, d)` or at the
    sentinel.

  It also holds `fraction_mul`, `fraction_sub`, `fraction_div`, `fraction_int2type` and
  `fraction_is_zero`. Both loops of `reduction` are in one method, `Reduction`. Its loop
  invariants tie the outer loop to the recursive function `Sift` and the inner loop to
  `DivideOut`, and it is proved to compute `Reduce`. Each arithmetic operation is a function
  plus a method that calls the looping `Reduction`. `fraction_int2type` and
  `fraction_is_zero` are the one-line `FromInt` and `IsZero`. What they promise is stated by
  `FromIntReduced` (the result is already reduced) and `IsZeroValue` (the test holds exactly
  of the fractions of value 0).
- `Elimination` is `simplify_matrix` instantiated for `fraction`. The grid is an
  `array<array<Fraction>>` of distinct row arrays, so a row exchange swaps row references as the
  program does. Each loop of the program is a method, proved against a specification
  function:
  - The methods that work on the whole grid turn its cells, `Cells(matrix)`, into a function
    of the old cells: `Swap`, `PivotSearch`, `Normalize`, `EliminateRange`, `ForwardStep`,
    `Forward`, `BackStep`, `Back` and `Simplified`. The grid's dimensions and its set of row
    arrays never change.
  - `ScalePivotRow` and `SubtractPivotRow` work on one row array. They turn it into
    `ScaleRow` and `EliminateRow` of the old row.
  - `FindPivotColumn` changes nothing. It returns the column index `LeadingColumn`.

  The forward loop's invariant is that the grid is the current entry of a ghost trace, the
  sequence of grids that `ForwardStep` produces from the start.
- `Echelon` proves what the elimination achieves on a grid without zero denominators:
  - After the forward phase, every column up to `min(rows, columns)` has either a `1/1`
    pivot or a zero diagonal cell, and zeros below it.
  - The back phase keeps that.
  - The back phase also clears, for every row that has a pivot, the pivot's column in every
    row above.
  - The cursor's two coordinates advance together, so the result need not be in reduced
    row-echelon form: a zero row can end up above a nonzero one.
    `Scenarios.ZeroRowAbovePivot` shows `[[0,1],[0,1]]` becoming `[[0,0],[0,1]]`.
- `Idempotence` proves that a grid already in reduced row-echelon form, with every cell
  already reduced, comes out of `simplify_matrix_fraction` unchanged.
- `Scenarios` evaluates worked inputs exactly, for any valid prime table.
- `ScaledBackSubstitution` records the one discrepancy found in the back substitution (see
  "Findings").

The prime table is a parameter `t: seq<int>` constrained by `ValidTable(t)`. It stands for
the global `prime_numbers` at `matrixes.c:40`. Every contract holds for any valid table, and
the value a result stands for does not depend on the table. How far a result is reduced does:
`Reduce([0], 2/4)` is `2/4`, while `Reduce([2, 0], 2/4)` is `1/2`
(`Scenarios.ReductionDependsOnTable`).
`InitializePrimeNumbers(n)` proves that it builds an `IsPrimeTable(t, n)`. The program
itself uses `n = MAX_PRIME = USHRT_MAX = 65535`, which is `InitializeProgramTable`.

## Model

| member | source | states |
|---|---|---|
| Primes.InitializePrimeNumbers | matrixes.c:42-62 | for every bound `n >= 1` the table is exactly the primes up to `n`, strictly ascending, followed by the sentinel 0 |
| Primes.InitializeProgramTable | matrixes.c:33-62 | the program's table, built with the bound `MAX_PRIME = USHRT_MAX`, is exactly the primes up to 65535, ascending, followed by the sentinel 0 |
| Primes.CrossOutMultiples | matrixes.c:51-52 | after the inner loop for `i`, an entry is marked exactly when it was marked before and is not a proper multiple of `i` |
| Primes.CollectPrimes | matrixes.c:55-59 | the table holds the marked indices in ascending order, `number_of_primes` of them, and then the sentinel 0 |
| Primes.PrimeFlagsTable | matrixes.c:49-59 | a sieve marking exactly the primes up to `n` yields a table with every prime up to `n`, only primes, ascending |
| Primes.TrueIndicesSpec | matrixes.c:56-58 | the scan collects exactly the marked indices, in strictly ascending order |
| Fractions.DivideOut | matrixes.c:84-87 | the inner `while` keeps the value and a positive denominator and leaves `p` not dividing both parts; any common divisor of the result was one of the input |
| Fractions.Sift | matrixes.c:83-87 | the trial division keeps the value and a positive denominator, and leaves a zero denominator alone |
| Fractions.Reduce | matrixes.c:71-89 | the result has the input's value; its denominator is positive whenever the input's is nonzero; a zero numerator gives exactly `0/1` |
| Fractions.Reduction | matrixes.c:71-89 | the loops of `reduction` compute `Reduce` |
| Fractions.ReduceUnit | matrixes.c:79-81 | a nonzero fraction with `abs(n) == abs(d)` reduces to `1/1` or `-1/1`, according to the signs |
| Fractions.ReduceSmallPart | matrixes.c:79-87 | a fraction with positive denominator and numerator or denominator 1 is left as it is |
| Fractions.SiftClearsTable | matrixes.c:83-87 | after the walk no table prime up to `min(abs(n), d)` divides both parts |
| Fractions.SiftFixed | matrixes.c:83-87 | when no table prime up to `min(abs(n), d)` divides both parts, the walk changes nothing |
| Fractions.ReduceLowestTerms | matrixes.c:71-89 | no table prime up to `min(abs(n), d)` of the result divides both of its parts |
| Fractions.ReduceLowestTermsUpTo | matrixes.c:71-89 | with the table of all primes up to `n`, no prime up to `n` and up to `min(abs(n), d)` divides both parts of the result |
| Fractions.ReduceIdempotent | matrixes.c:71-89 | reducing a reduced fraction gives it back |
| Fractions.FromIntReduced | matrixes.c:120-124 | `int2type(n)` is already reduced |
| Fractions.IsZeroValue | matrixes.c:131-134 | `is_zero` holds exactly of the fractions whose value is 0 |
| Fractions.Mul | matrixes.c:108-113 | the result stands for `a * b` and has a positive denominator when both inputs have nonzero ones |
| Fractions.Sub | matrixes.c:141-146 | the result stands for `a - b` and has a positive denominator when both inputs have nonzero ones |
| Fractions.Div | matrixes.c:96-101 | the result stands for `a / b` with a positive denominator when `b` is nonzero; with a zero `b` it is `0/1` or `n/0`, since the program does not check |
| Fractions.FractionMul | matrixes.c:108-113 | `fraction_mul` computes `Mul` |
| Fractions.FractionSub | matrixes.c:141-146 | `fraction_sub` computes `Sub` |
| Fractions.FractionDiv | matrixes.c:96-101 | `fraction_div` computes `Div` |
| Fractions.PivotBecomesOne | matrixes.c:187-189 | a nonzero pivot times `int2type(1) / pivot` is exactly `1/1` |
| Fractions.ScaleDividesByPivot | matrixes.c:187-189 | a cell of the pivot row times `int2type(1) / pivot` stands for the cell divided by the pivot |
| Fractions.UnitPivotPredictsZero | matrixes.c:192-196 | under a `1/1` pivot, the `int2type(0)` written into a row below is what the subtraction computes |
| Fractions.PredictedZeroIffUnitPivot | matrixes.c:206-210 | the written `int2type(0)` equals `sub(a, mul(pivot, a))` if and only if the pivot has the value 1 |
| Fractions.ScaledPredictionExact | matrixes.c:206-210 | with the multiplier `a / pivot`, the predicted zero is exact for every nonzero pivot |
| Elimination.Swap | matrixes.c:179-181 | the row exchange: rows `i` and `j` trade places and every other row stays |
| Elimination.ScaleRow | matrixes.c:188-189 | defines the scaled pivot row; its contract keeps the row's length. `ScalePivotRow` is proved to compute it, `Echelon.ForwardStepPivotRow` states its values |
| Elimination.EliminateRow | matrixes.c:192-196 | defines the elimination of one row against the pivot row, shared by both phases; its contract keeps the row's length. `Echelon.EliminateRangeSpec` states the new cells |
| Elimination.EliminateRange | matrixes.c:191-197 | defines `EliminateRow` applied to the rows in a range; its contract keeps the grid `rows x columns`. `Echelon.EliminateRangeSpec` states the frame and the new cells |
| Elimination.PivotSearch | matrixes.c:176-183 | defines the pivot search; its contract keeps the grid `rows x columns`. `Echelon.PivotSearchSpec` states the permutation and when a pivot is found |
| Elimination.Normalize | matrixes.c:187-189 | defines the scaling of row `p` by `div(int2type(1), m[p][p])`; its contract keeps the grid `rows x columns`. `Echelon.ForwardStepPivotRow` states the result |
| Elimination.ForwardStep | matrixes.c:176-197 | defines one iteration of the forward loop; its contract keeps the grid `rows x columns`. The `Echelon.ForwardStep*` lemmas state what it does |
| Elimination.Forward | matrixes.c:174-198 | defines the forward phase from a cursor on; its contract keeps the grid `rows x columns`. `Echelon.ForwardReduces` states what it achieves |
| Elimination.BackStep | matrixes.c:201-211 | defines one iteration of the back loop; its contract keeps the grid `rows x columns`. `Echelon.BackStepSpec` states what it does |
| Elimination.Back | matrixes.c:199-212 | defines the back phase from row `y0` down to row 1; its contract keeps the grid `rows x columns`. `Echelon.BackClears` states what it achieves |
| Elimination.FirstNonzeroRow | matrixes.c:177-183 | the first row at or after `y` that is nonzero in the column, or `rows` if there is none; every row skipped is zero there |
| Elimination.LeadingColumn | matrixes.c:201 | the scan stops at the first nonzero cell before the last column, or at the last column; every cell skipped is zero |
| Elimination.SwapRows | matrixes.c:179-181 | swapping two row references exchanges the two rows of cells and keeps the rows distinct and the same set |
| Elimination.SearchPivot | matrixes.c:176-183 | the pivot search turns the cells into `PivotSearch` of the old cells |
| Elimination.ScalePivotRow | matrixes.c:188-189 | every cell from column `x0` on is multiplied by the multiplier; the cells before it stay |
| Elimination.SubtractPivotRow | matrixes.c:192-196 | a row nonzero in column `x0` gets `0/1` there and loses `pivot[x] * multiplier` at every later column; a row zero there is untouched |
| Elimination.EliminateBelowPivot | matrixes.c:191-197 | every row below the pivot row is eliminated against it; no other row changes |
| Elimination.EliminateAbovePivot | matrixes.c:205-211 | every row above row `y0` is eliminated against it; no other row changes |
| Elimination.FindPivotColumn | matrixes.c:201 | the loop computes `LeadingColumn` of the row |
| Elimination.ForwardIteration | matrixes.c:176-197 | one iteration of the forward elimination computes `ForwardStep` and keeps the rows distinct and the same set |
| Elimination.BackIteration | matrixes.c:201-211 | one iteration of the back substitution computes `BackStep` |
| Elimination.ForwardElimination | matrixes.c:174-198 | the forward loop computes `Forward` and stops with the cursor at `min(rows, columns)` |
| Elimination.BackSubstitution | matrixes.c:199-212 | the back loop computes `Back` from row `y0` down to row 1 |
| Elimination.SimplifyMatrix | matrixes.c:170-214 | `simplify_matrix_fraction` computes `Simplified` of the old cells, keeps the grid `rows x columns` and keeps the same row arrays |
| Elimination.Simplified | matrixes.c:170-214 | the grid keeps its number of rows and its number of columns |
| Echelon.SwapIsPermutation | matrixes.c:179-181 | a row exchange permutes the rows |
| Echelon.PivotSearchSpec | matrixes.c:176-183 | the search permutes the rows and leaves the rows above the cursor alone; it finds a pivot exactly when the column is nonzero at or below the cursor; a row that moves trades places with the cursor row and is the first nonzero one |
| Echelon.EliminateRangeSpec | matrixes.c:191-197 | only rows in the range that are nonzero in the pivot column change; those keep the cells left of it, get `0/1` in it and lose `pivot[x] * row[col]` after it |
| Echelon.ForwardStepFrame | matrixes.c:174-198 | a forward step leaves the rows above the cursor, the columns left of it and the rows already zero in its column unchanged, and with no pivot leaves the searched grid as it is |
| Echelon.ForwardStepWellFormed | matrixes.c:187-196 | a forward step creates no zero denominator |
| Echelon.ForwardStepPivotRow | matrixes.c:187-189 | a found pivot becomes `1/1` and each cell of its row becomes the old cell divided by the old pivot |
| Echelon.ForwardStepBelow | matrixes.c:191-197 | after a forward step every row below the cursor is zero in the cursor's column |
| Echelon.ForwardStepPredictsZero | matrixes.c:194 | every `int2type(0)` written below a pivot is what the subtraction computes |
| Echelon.ForwardStepKeepsReduced | matrixes.c:174-198 | a later forward step leaves a finished column finished |
| Echelon.ForwardWellFormed | matrixes.c:174-198 | the forward phase creates no zero denominator |
| Echelon.ForwardReduces | matrixes.c:174-198 | the forward phase finishes every column up to `min(rows, columns)`: a `1/1` or zero diagonal cell with zeros below |
| Echelon.BackStepSpec | matrixes.c:201-211 | a row has no pivot exactly when it is all zero, and then nothing changes; otherwise only rows above change, only at and right of the pivot column, rows zero there are untouched, and every row above ends zero in the pivot column |
| Echelon.BackStepLastColumn | matrixes.c:201 | a row that is zero except in the last column still clears the last column above it, and changes nothing else in those rows |
| Echelon.ZeroLeftOfDiagonal | matrixes.c:174-198 | after the forward phase every row is zero left of the diagonal |
| Echelon.BackStepKeepsCleared | matrixes.c:199-212 | a back step keeps every lower row's pivot column cleared above it |
| Echelon.BackStepKeepsReduced | matrixes.c:199-212 | a back step keeps the finished columns of the forward phase finished |
| Echelon.BackClears | matrixes.c:199-212 | the back phase clears the pivot column above every row that has a pivot and keeps the forward phase's columns finished |
| Echelon.SimplifiedForm | matrixes.c:170-214 | the result of `simplify_matrix_fraction` has every column up to `min(rows, columns)` finished and every pivot column cleared above its row. It is not always reduced row-echelon form: a zero row can stay above a nonzero one (`Scenarios.ZeroRowAbovePivot`) |
| Idempotence.ForwardFixed | matrixes.c:174-198 | the forward phase leaves a grid in reduced row-echelon form with reduced cells unchanged |
| Idempotence.BackFixed | matrixes.c:199-212 | the back phase leaves such a grid unchanged |
| Idempotence.SimplifiedIdempotent | matrixes.c:170-214 | `simplify_matrix_fraction` leaves a grid unchanged when its leading cells are `1/1`, its leading columns strictly increase down the rows with zero rows last, every other cell of a leading column is zero, and every cell is already reduced |
| Scenarios.MulExample | matrixes.c:108-113 | `1/2 * 2/1` gives `1/1` |
| Scenarios.DivByZeroExample | matrixes.c:96-101 | `1/1 div 0/5` gives `5/0` |
| Scenarios.ReductionDependsOnTable | matrixes.c:83-87 | with the table `0` the fraction `2/4` stays `2/4`; with the table `2, 0` it becomes `1/2` |
| Scenarios.MulWhole | matrixes.c:108-124 | the product of two whole numbers is the whole number of their product |
| Scenarios.SubWhole | matrixes.c:120-146 | the difference of two whole numbers is the whole number of their difference |
| Scenarios.SolvesTwoByTwo | matrixes.c:170-214 | `x + y = 3, x - y = 1` simplifies to `x = 2, y = 1` |
| Scenarios.DependentRows | matrixes.c:170-214 | `x + y = 2, 2x + 2y = 4` simplifies to `x + y = 2` and a zero row |
| Scenarios.SolvedFormIsFixed | matrixes.c:170-214 | the solved system `x = 2, y = 1` comes out unchanged |
| Scenarios.ZeroRowAbovePivot | matrixes.c:170-214 | `[[0,1],[0,1]]` becomes `[[0,0],[0,1]]`: a zero row ends up above a row with a pivot |
| ScaledBackSubstitution.BackStepExactIffUnitPivot | matrixes.c:205-210 | in a back step, the written `int2type(0)` is what the subtraction computes if and only if the pivot has the value 1 |
| ScaledBackSubstitution.OffDiagonalForward | matrixes.c:174-198 | the forward phase leaves `x + y + z = 1, 2z = 2` as it is |
| ScaledBackSubstitution.OffDiagonalPivotAsWritten | matrixes.c:199-212 | as written, `x + y + z = 1, 2z = 2` becomes `x + y = -1, 2z = 2` |
| ScaledBackSubstitution.ScaledBackStep | matrixes.c:201-211 | defines the corrected back step, with the multiplier `matrix[y][x0] / matrix[y0][x0]`; its contract keeps the grid `rows x columns`. `ScaledBackStepExact` states its written zeros |
| ScaledBackSubstitution.ScaledSimplified | matrixes.c:170-214 | defines the whole program with the corrected back step; its contract keeps the grid `rows x columns`. `OffDiagonalPivotScaled` evaluates it |
| ScaledBackSubstitution.ScaledBackStepExact | matrixes.c:205-210 | with the multiplier `matrix[y][x0] / matrix[y0][x0]`, every written `int2type(0)` is what the subtraction computes |
| ScaledBackSubstitution.OffDiagonalPivotScaled | matrixes.c:199-212 | corrected, `x + y + z = 1, 2z = 2` becomes `x + y = 0, 2z = 2` |

## Left out

- The `double` instantiation of `simplify_matrix`, and `double_div`, `double_mul`,
  `double_int2type`, `double_is_zero` and `double_sub`: floating point is not modelled.
- `read_matrix_*`, `write_matrix_*`, `main` and the option parsing: these are I/O.
- `clear_prime_numbers`, `malloc` and `free`: memory management. A table is a value here.
- The bit packing of the sieve into `int` words: the sieve is an `array<bool>` of
  `n + 1` entries.
- C `int` overflow: the products in `fraction_mul`, `fraction_sub` and `fraction_div`, and
  `abs(INT_MIN)` in `reduction`, can overflow in the program. The model computes with
  unbounded integers. Wherever the model divides, the division is exact, so Dafny's
  Euclidean `/` and `%` agree with C's truncating ones.
- Fractions.Div: a zero divisor gives whatever `reduction` makes of `n/0`, as in the
  program. Nothing in the model rejects it. `simplify_matrix` divides only by a nonzero pivot.
- Fractions.ReduceLowestTermsUpTo: claims lowest terms only for primes up to the table's
  bound. A larger common prime factor survives, in the program as in the model.
- Echelon.SimplifiedForm and the lemmas it rests on assume a grid without zero
  denominators (`WellFormed`).
  - The program accepts `p/0` from its input.
  - Where a zero denominator is present, the model says only what `Simplified` computes.
- Echelon.ForwardReduces states the column structure, not equivalence of the linear systems.
  The exact values of the pivot row are stated step by step, by `ForwardStepPivotRow` and
  `Fractions.ScaleDividesByPivot`.

## Findings

| source | as written | input that shows it | evidently intended | confidence | as-written member | corrected member |
|---|---|---|---|---|---|---|
| matrixes.c:205-210 | the back substitution writes `int2type(0)` into the pivot column and subtracts `matrix[y0][x] * matrix[y][x0]`, as if the pivot `matrix[y0][x0]` were 1. The forward phase scales only pivots on the diagonal, so a pivot right of the diagonal keeps its value | `x + y + z = 1, 2z = 2`, i.e. rows `1 1 1 1` and `0 0 2 2`, becomes `x + y = -1, 2z = 2`; the solution `x = y = 0, z = 1` no longer fits | multiplier `matrix[y][x0] / matrix[y0][x0]`, giving `x + y = 0, 2z = 2` | high; not executed | ScaledBackSubstitution.OffDiagonalPivotAsWritten | ScaledBackSubstitution.ScaledBackStepExact |

`ScaledBackSubstitution.BackStepExactIffUnitPivot` states the general condition: the
written zero is right exactly when the pivot is 1. `ScaledBackSubstitution.ScaledSimplified`
is the whole program with that back substitution. `OffDiagonalPivotScaled` evaluates it on
the same input. `Elimination.SimplifyMatrix` models the program as written.
