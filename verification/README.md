# Exact-integer linear equation solver, modelled in Dafny

This project models the core of a small C++ matrix library and of the linear-equation solver built on it.

**The matrix container** (`Matrix<T>`) covers:
- zero-filled, padded and copied construction;
- bounds-checked element access;
- equality;
- element-wise and scalar arithmetic;
- trace, transpose, product and integer powers;
- the compound assignments.

**The solver** (`LinearEquationSystem`) stores an augmented grid: one row per equation, one column per unknown, and a last column for the right-hand side. It transforms the grid in place:
- `SimplifyRow` divides a row by the gcd of its entries, signed so that the first nonzero entry becomes positive.
- `MakeStepwise` runs fraction-free forward elimination to row-echelon form.
- `MakeBetterStepwise` runs backward elimination to reduced form.
- `Solve` chains the three passes.
- `GetSolutions` reads one parametric solution record per pivot row, or an empty list when some equation reads `0 = nonzero`.

Entries are exact integers, the `Large` type of the solver. Six modules hold the model:

- **`IntMath`** covers C++ truncating `/` and `%`, `std::gcd` (as `AbsGcd`), the header's recursive `gcd` and divisibility.
- **`Matrices`** has two parts:
  - the value datatype `Grid` with pure specification functions for every operator;
  - `class Matrix`, whose constructors and methods update `data`, `rows` and `cols` in place and are proved equal to those functions.
- **`Rows`** holds the row-level specification:
  - the leading column;
  - the row gcd and the normalised row `Simplified`;
  - the cross-multiplication step `CrossMultiply`;
  - residuals and solution sets;
  - row-echelon and reduced forms.
- **`Elimination`** specifies each loop of the solver as a function of the grid it starts from. It proves for each:
  - the solutions are kept;
  - echelon or reduced form is reached;
  - normalisation is kept;
  - fixed points.
- **`Solutions`** holds the `ExpressionPart` and `LinearSolution` records and the specification of `GetSolutions`. Its theorem says that a vector solves the system exactly when it satisfies every returned record.
- **`LinearSystem`** holds `class LinearEquationSystem`. Its imperative methods update a `seq<seq<int>>` field loop by loop. Each method's postcondition ties the new grid to the specification function of the loop it models.

The `.cpp` file is written over `double`. It calls `IsZero`, `IsInteger` and `ForRow`, which are defined elsewhere and are not part of this model. The header declares the class over `Large`, and the model reads these helpers as follows:
- `IsZero(x)` is `x == 0`.
- `IsInteger` is always true.
- `ForRow(r, f)` runs `f` on every column of row `r`, the right-hand side included.

## Model

| member | source | states |
|---|---|---|
| IntMath.TruncDiv | Matrix.h:102-106 | C++ `/` on integers: the absolute value of the quotient is the quotient of absolute values, and its sign is negative exactly when the operands' signs differ |
| IntMath.TruncMod | LinearEquationSystem.h:53 | C++ `%`: the remainder is smaller than the divisor in absolute value and takes the sign of the dividend |
| IntMath.TruncDivMod | LinearEquationSystem.h:53 | the two truncating operations satisfy `a == b*(a/b) + a%b` |
| IntMath.TruncDivExact | LinearEquationSystem.cpp:71 | dividing an exact multiple `b*q` by `b` gives `q`, so the solver's divisions lose nothing |
| IntMath.AbsGcd | LinearEquationSystem.cpp:62 | `std::gcd` is 0 exactly when both arguments are 0 |
| IntMath.AbsGcdDivides | LinearEquationSystem.cpp:95 | `std::gcd` divides both arguments |
| IntMath.AbsGcdGreatest | LinearEquationSystem.cpp:95 | every common divisor divides `std::gcd` |
| IntMath.AbsGcdScaled | LinearEquationSystem.cpp:62 | scaling both arguments by `k` scales `std::gcd` by `|k|` |
| IntMath.GcdDivides | LinearEquationSystem.h:49-54 | the header's recursive `gcd` (truncating `%`) divides both of its arguments |
| IntMath.GcdGreatest | LinearEquationSystem.h:49-54 | every common divisor of the arguments divides the header's `gcd` |
| IntMath.GcdAbs | LinearEquationSystem.h:49-54 | the header's `gcd` equals `std::gcd` up to sign (it can be negative, for example `gcd(-4, 0) == -4`) |
| Rows.Lead | LinearEquationSystem.cpp:109-113 | the first coefficient column with a nonzero entry, or `n` when there is none |
| Rows.LeadUnique | LinearEquationSystem.cpp:109-113 | a column preceded only by zeros and holding a nonzero entry is the leading column |
| Rows.RowGcdDivides | LinearEquationSystem.cpp:50-64 | the gcd the scan computes divides every entry of the row |
| Rows.RowGcdGreatest | LinearEquationSystem.cpp:50-64 | every common divisor of the entries divides that gcd |
| Rows.RowGcdZero | LinearEquationSystem.cpp:50-64 | the gcd is 0 exactly on an all-zero row |
| Rows.RowGcdScaled | LinearEquationSystem.cpp:50-64 | scaling a row by `k` scales its gcd by `|k|` |
| Rows.SimplifiedAt | LinearEquationSystem.cpp:65-74 | each entry is divided by the signed gcd unless that divisor is 0 or 1; zero entries stay as they are |
| Rows.SimplifiedQuotient | LinearEquationSystem.cpp:68-73 | every division is exact: each new entry times the signed gcd is the old entry |
| Rows.SimplifiedSpec | LinearEquationSystem.cpp:47-75 | an all-zero row is unchanged; otherwise the zero entries are unchanged, the first nonzero entry becomes positive and the gcd becomes 1 |
| Rows.NormalizedIff | LinearEquationSystem.cpp:47-75 | a row is a fixed point of `SimplifyRow` exactly when it is all zero or has a positive first nonzero entry and gcd 1 |
| Rows.SimplifyIdempotent | LinearEquationSystem.cpp:47-75 | `SimplifyRow` twice is `SimplifyRow` once |
| Rows.SimplifyScaleInvariant | LinearEquationSystem.cpp:47-75 | scaling a row by any nonzero `k` before normalising gives the same result |
| Rows.CrossEntries | LinearEquationSystem.cpp:92-99 | for each entry, `g` times `e*p/g - r*t/g` equals `p*e - t*r` when `g = std::gcd(p, t)` |
| Rows.CrossMultiplyExact | LinearEquationSystem.cpp:92-99 | the step computes `(p*target - t*pivot)/g` exactly, entry by entry |
| Rows.CrossMultiplyZeroes | LinearEquationSystem.cpp:92-99 | the step zeroes the target's entry in the pivot column; where the pivot row is zero, the target's zeros stay put |
| Rows.CrossMultiplyIdle | LinearEquationSystem.cpp:122-125 | when the target's entry in the pivot column is already 0 and the pivot is positive, the step changes nothing |
| Rows.ResidualLinear | LinearEquationSystem.cpp:97-99 | a row that is a linear combination of two rows has the same combination of their residuals |
| Rows.ReplaceByScaled | LinearEquationSystem.cpp:69-73 | replacing a row by a nonzero multiple of itself keeps the solution set |
| Rows.ReplaceByCombination | LinearEquationSystem.cpp:97-99 | replacing a row by a combination with nonzero weight on itself keeps the solution set |
| Rows.SimplifyKeepsSolutions | LinearEquationSystem.cpp:47-75 | `SimplifyRow` keeps the solution set |
| Rows.CrossMultiplyKeepsSolutions | LinearEquationSystem.cpp:92-99 | the cross-multiplication step against a row with a nonzero pivot keeps the solution set |
| Rows.EliminationStepKeepsSolutions | LinearEquationSystem.cpp:92-100 | cross-multiplication followed by `SimplifyRow` keeps the solution set |
| Rows.SwapKeepsSolutions | LinearEquationSystem.cpp:41-45 | exchanging two rows keeps the solution set |
| Rows.SameSolutionsTransitive | LinearEquationSystem.cpp:138-144 | keeping the solution set composes across the passes |
| Rows.EchelonPivots | LinearEquationSystem.cpp:107-115 | on a row-echelon grid the recorded pivot columns are the leading columns of the first rows, strictly increasing, and every later row has no nonzero coefficient |
| Elimination.ForwardStep | LinearEquationSystem.cpp:91-101 | eliminating below a pivot leaves the target row zero up to and including the pivot column |
| Elimination.IdleStep | LinearEquationSystem.cpp:91-101 | eliminating an already-zero, already-normalised row against a positive pivot changes nothing |
| Elimination.BackStep | LinearEquationSystem.cpp:121-133 | a backward step clears the pivot column in the target row and keeps the row's leading column |
| Elimination.SimplifiedUpToKept | LinearEquationSystem.cpp:139-141 | rows not yet visited by `Solve`'s first loop are untouched |
| Elimination.SimplifiedUpToDone | LinearEquationSystem.cpp:139-141 | visited rows are normalised |
| Elimination.SimplifiedUpToSolutions | LinearEquationSystem.cpp:139-141 | the first loop keeps the solution set |
| Elimination.SimplifiedUpToNormalized | LinearEquationSystem.cpp:139-141 | visited rows are normalised, and a grid whose rows are all normalised is a fixed point |
| Elimination.PivotRow | LinearEquationSystem.cpp:80-86 | -1 exactly when no row at or below the cursor has a nonzero entry in the column; otherwise the first such row |
| Elimination.EliminatedUpToKept | LinearEquationSystem.cpp:91-101 | the pivot row, the rows above it and the rows not yet visited are untouched |
| Elimination.EliminatedUpToDone | LinearEquationSystem.cpp:91-101 | every visited row has been cross-multiplied with the pivot row and normalised |
| Elimination.EliminatedUpToRows | LinearEquationSystem.cpp:91-101 | the whole grid after the loop, row by row |
| Elimination.EliminatedUpToSolutions | LinearEquationSystem.cpp:91-101 | eliminating below a nonzero pivot keeps the solution set |
| Elimination.StepColumn | LinearEquationSystem.cpp:79-103 | the cursor advances by one exactly when a pivot exists in the column; without one the grid is unchanged; rows above the cursor are never touched |
| Elimination.StepColumnCases | LinearEquationSystem.cpp:87-102 | the two outcomes of an iteration: skip the column, or swap the pivot row up, eliminate below it and advance |
| Elimination.ForwardAdvance | LinearEquationSystem.cpp:90-102 | swapping the pivot up and eliminating below it extends the staircase by one row and one column |
| Elimination.StepColumnState | LinearEquationSystem.cpp:79-103 | each iteration keeps the loop invariant: strictly increasing leading columns above the cursor, zeros before the column below it |
| Elimination.StepwiseUpToState | LinearEquationSystem.cpp:79-103 | the loop invariant holds after every column (induction on the columns) |
| Elimination.StepColumnSolutions | LinearEquationSystem.cpp:79-103 | each iteration keeps the solution set |
| Elimination.StepColumnNormalized | LinearEquationSystem.cpp:79-103 | each iteration keeps every row normalised |
| Elimination.StepColumnFixed | LinearEquationSystem.cpp:79-103 | on a normalised row-echelon grid an iteration changes nothing |
| Elimination.StepwiseCorrect | LinearEquationSystem.cpp:77-104 | `MakeStepwise` reaches row-echelon form with the same solution set, keeps normalised rows normalised, and leaves a normalised row-echelon grid as it is |
| Elimination.BackInnerShape | LinearEquationSystem.cpp:121-134 | the inner backward loop clears the pivot column in every row it visits and keeps every leading column |
| Elimination.BackInnerPivotKept | LinearEquationSystem.cpp:121-134 | the inner loop never changes the pivot row |
| Elimination.BackInnerSolutions | LinearEquationSystem.cpp:121-134 | with a nonzero pivot the inner loop keeps the solution set |
| Elimination.BackInnerNormalized | LinearEquationSystem.cpp:121-134 | the inner loop keeps every row normalised |
| Elimination.BackInnerFixed | LinearEquationSystem.cpp:121-134 | the inner loop changes nothing when the pivot column is already zero in the rows it visits |
| Elimination.BackUpToShape | LinearEquationSystem.cpp:120-135 | the outer backward loop clears every pivot column after the current index outside its own row |
| Elimination.BackUpToSolutions | LinearEquationSystem.cpp:120-135 | the outer loop keeps the solution set |
| Elimination.BackUpToNormalized | LinearEquationSystem.cpp:120-135 | the outer loop keeps every row normalised |
| Elimination.BackUpToFixed | LinearEquationSystem.cpp:120-135 | the outer loop changes nothing on a grid whose pivot columns are already cleared |
| Elimination.BetterStepwise | LinearEquationSystem.cpp:116-118 | with at most one recorded pivot (in particular none), `MakeBetterStepwise` changes nothing |
| Elimination.BackShapeReduced | LinearEquationSystem.cpp:106-136 | once every pivot column but the first is cleared, the grid is in reduced row-echelon form |
| Elimination.BetterStepwiseCorrect | LinearEquationSystem.cpp:106-136 | on row-echelon input: reduced form, the same leading column in every row, the same solution set, normalised rows stay normalised |
| Elimination.BetterStepwiseFixed | LinearEquationSystem.cpp:106-136 | a reduced grid is a fixed point of `MakeBetterStepwise` |
| Elimination.ReduceCorrect | LinearEquationSystem.cpp:138-144 | `Solve` reaches normalised reduced row-echelon form and keeps the solution set |
| Elimination.ReduceFixed | LinearEquationSystem.cpp:138-144 | a solved grid is a fixed point of `Solve` |
| Elimination.ReduceIdempotent | LinearEquationSystem.cpp:138-144 | running `Solve` a second time changes nothing |
| Solutions.NewSolution | LinearEquationSystem.h:15-20 | the `LinearSolution(coeff, ind)` constructor sets the variable to `(coeff, ind)` and leaves the expression empty |
| Solutions.FreeTermsShape | LinearEquationSystem.cpp:156-160 | every term names a later column as a 1-based index and carries the negated nonzero coefficient, in increasing column order |
| Solutions.PivotSolutionsVariables | LinearEquationSystem.cpp:148-165 | one record per row with a nonzero coefficient, in row order; the `m`-th defines the variable of the `m`-th pivot column |
| Solutions.InconsistentWitness | LinearEquationSystem.cpp:166 | a row reading `0 = nonzero` makes the result empty |
| Solutions.ConsistentWitness | LinearEquationSystem.cpp:146-170 | when no row reads `0 = nonzero`, the result is the pivot rows' records |
| Solutions.EvalFreeTerms | LinearEquationSystem.cpp:156-160 | the free terms evaluate to minus the corresponding part of the row's left-hand side |
| Solutions.RowSolutionHolds | LinearEquationSystem.cpp:154-163 | a pivot row's record holds at `x` exactly when `x` satisfies the row's equation |
| Solutions.ZeroRowResidual | LinearEquationSystem.cpp:166 | a row with no nonzero coefficient is satisfied exactly when its right-hand side is 0 |
| Solutions.PivotSolutionsHold | LinearEquationSystem.cpp:148-167 | with no `0 = nonzero` row among the first `k`, a vector satisfies those rows exactly when it satisfies their records |
| Solutions.ExtractSolutionsCorrect | LinearEquationSystem.cpp:146-170 | `GetSolutions` describes the solution set exactly: empty and unsolvable on an inconsistent row, otherwise solutions are the vectors satisfying every record |
| LinearSystem.AugmentedGrid | LinearEquationSystem.h:24-29 | the intended augmented grid: `ratio.rows()` rows of `ratio.columns() + 1` entries; an `out_of_range` error exactly when `rcol` lacks a row or a column |
| LinearSystem.AugmentedGridSplits | LinearEquationSystem.h:26-28 | the augmented grid splits back into the coefficient matrix and the first column of `rcol` |
| LinearSystem.ConstructedGrid | LinearEquationSystem.h:24-29 | the constructor as written leaves the grid all zero, whatever `ratio` and `rcol` hold |
| LinearSystem.ConstructorLosesCoefficients | LinearEquationSystem.h:24-29 | for the system `x = 2` the constructor as written yields `0 = 0` instead of `1 = 2` |
| LinearSystem.ScanStep | LinearEquationSystem.cpp:50-64 | one step of `SimplifyRow`'s scan updates `gcd_` and `is_minus` as the loop body does |
| LinearSystem.SolutionsDescribeSystem | LinearEquationSystem.cpp:146-170 | the solution set of the grid is exactly the set of vectors satisfying the returned records, and empty when the records are empty because of an inconsistent row |
| LinearSystem.LinearEquationSystem.Create | LinearEquationSystem.h:24-29 | the constructor with the callback applied to the object being built: the augmented grid, or `out_of_range` |
| LinearSystem.LinearEquationSystem.Zeroed | Matrix.h:21-23 | the base-class constructor: a grid of zeros |
| LinearSystem.LinearEquationSystem.SwapRows | LinearEquationSystem.cpp:41-45 | rows `i` and `j` are exchanged and every other row is unchanged |
| LinearSystem.LinearEquationSystem.SimplifyRow | LinearEquationSystem.cpp:47-75 | only row `row` changes, and it becomes its normalised form (see `Rows.SimplifiedSpec`) |
| LinearSystem.LinearEquationSystem.CombineRows | LinearEquationSystem.cpp:97-99 | only the target row changes, and it becomes the cross-multiplication with the pivot row (see `Rows.CrossMultiplyExact`) |
| LinearSystem.LinearEquationSystem.FindPivotRow | LinearEquationSystem.cpp:80-86 | the search returns `Elimination.PivotRow` |
| LinearSystem.LinearEquationSystem.EliminateRow | LinearEquationSystem.cpp:92-100 | one iteration of the elimination loop advances the grid by one row of `Elimination.EliminatedUpTo` |
| LinearSystem.LinearEquationSystem.EliminateBelow | LinearEquationSystem.cpp:91-101 | the elimination loop leaves `Elimination.EliminatedUpTo` of the grid it started from |
| LinearSystem.LinearEquationSystem.StepColumnAt | LinearEquationSystem.cpp:80-102 | one column iteration yields exactly the grid and cursor of `Elimination.StepColumn` |
| LinearSystem.LinearEquationSystem.MakeStepwise | LinearEquationSystem.cpp:77-104 | the grid becomes `Elimination.Stepwise` of the old grid: row-echelon form with the same solutions (see `Elimination.StepwiseCorrect`) |
| LinearSystem.LinearEquationSystem.CollectPivots | LinearEquationSystem.cpp:107-115 | `non_zeros` is the list of leading coefficient columns of the rows that have one, in row order |
| LinearSystem.LinearEquationSystem.EliminateAbove | LinearEquationSystem.cpp:121-134 | the inner backward loop leaves `Elimination.BackInner` of the grid it started from |
| LinearSystem.LinearEquationSystem.MakeBetterStepwise | LinearEquationSystem.cpp:106-136 | the grid becomes `Elimination.BetterStepwise` of the old grid: reduced form on echelon input (see `Elimination.BetterStepwiseCorrect`) |
| LinearSystem.LinearEquationSystem.SimplifyRows | LinearEquationSystem.cpp:139-141 | every row is normalised in turn, giving `Elimination.SimplifiedUpTo` of the old grid |
| LinearSystem.LinearEquationSystem.Solve | LinearEquationSystem.cpp:138-144 | the grid becomes `Elimination.Reduce` of the old grid: normalised, reduced, with the same solutions, and idempotent |
| LinearSystem.LinearEquationSystem.ReadRow | LinearEquationSystem.cpp:150-165 | a record is found exactly when the row has a nonzero coefficient, and it is that row's record |
| LinearSystem.LinearEquationSystem.ReadRowInto | LinearEquationSystem.cpp:148-167 | one row of the loop: reports inconsistency exactly on a `0 = nonzero` row, otherwise appends that row's record |
| LinearSystem.LinearEquationSystem.GetSolutions | LinearEquationSystem.cpp:146-170 | the returned records are `Solutions.ExtractSolutions` of the grid, which describe its solution set (see `Solutions.ExtractSolutionsCorrect`) |
| LinearSystem.LinearEquationSystem.SolutionsOf | LinearEquationSystem.cpp:148-169 | the row loop of `GetSolutions` over a grid computes `Solutions.ExtractSolutions` |
| Matrices.GridExt | Matrix.t.h:20-29 | two grids of the same shape with the same entries are equal |
| Matrices.Zeros | Matrix.h:21-23 | `rows` by `cols`, every entry 0 |
| Matrices.MaxWidth | Matrix.t.h:9-12 | the longest of the first `k` rows: no row is longer, and some row reaches it |
| Matrices.Fit | Matrix.t.h:7-18 | `cols` is the longest row length; every entry is kept and the padding is zero |
| Matrices.FitRows | Matrix.t.h:15-17 | resizing every row to the longest length gives the fitted grid |
| Matrices.FitIdempotent | Matrix.t.h:7-18 | fitting an already fitted grid changes nothing |
| Matrices.At | Matrix.h:63-75 | `out_of_range` exactly when `row >= rows` or `col >= cols`; otherwise the cell |
| Matrices.AtUpdated | Matrix.h:63-68 | a write through the returned reference changes only the cell written |
| Matrices.EqualIff | Matrix.t.h:20-34 | `==` holds exactly when the two matrices are equal values, and `!=` is its negation |
| Matrices.Mapped | Matrix.t.h:65-74 | `ForEach` keeps the shape and stores `func(i, j, elem)` at every cell |
| Matrices.Negated | Matrix.h:85-89 | unary `-`: the same shape, every entry negated |
| Matrices.Scaled | Matrix.h:95-100 | scalar `*`: the same shape, every entry multiplied by the scalar |
| Matrices.DividedBy | Matrix.h:102-106 | scalar `/`: the same shape, every entry divided by the scalar with truncation toward zero |
| Matrices.NegatedTwice | Matrix.h:85-89 | unary `-` applied twice gives the matrix back |
| Matrices.ScaledThenDivided | Matrix.h:95-106 | dividing by the scalar a matrix was multiplied by gives it back |
| Matrices.Sum | Matrix.t.h:81-90 | `length_error` exactly when the shapes differ; otherwise the same shape, and each entry is the sum of the operands' entries |
| Matrices.SumCommutes | Matrix.t.h:81-90 | addition does not depend on the order of the operands |
| Matrices.DifferenceEntries | Matrix.h:110-112 | binary `-` throws `length_error` exactly on a shape mismatch and otherwise subtracts entry by entry |
| Matrices.DifferenceThenSum | Matrix.h:110-112 | adding back what was subtracted gives the first operand |
| Matrices.Transposed | Matrix.t.h:103-109 | the dimensions are swapped, and entry `(i, j)` is entry `(j, i)` of the original |
| Matrices.TransposeTwice | Matrix.t.h:103-109 | transposing twice gives the matrix back |
| Matrices.TraceTransposed | Matrix.t.h:92-109 | transposing keeps the trace |
| Matrices.Product | Matrix.t.h:111-124 | `length_error` exactly when `cols != other.rows`; otherwise `rows` by `other.cols`, and entry `(i, j)` is the sum over `k` of `a[i][k] * b[k][j]` |
| Matrices.ProductIdentity | Matrix.t.h:111-124 | the identity is a unit of the product on both sides |
| Matrices.Pow | Matrix.t.h:126-142 | `length_error` exactly when the matrix is not square; otherwise a square matrix of the same size |
| Matrices.PowZeroOne | Matrix.t.h:131-139 | power 0 is the identity and power 1 is the matrix itself |
| Matrices.PowIdentity | Matrix.t.h:126-142 | every power of the identity is the identity |
| Matrices.Matrix.Rows | Matrix.h:55-57 | the number of rows held |
| Matrices.Matrix.Columns | Matrix.h:59-61 | the length every row has |
| Matrices.Matrix.Empty | Matrix.h:13 | no rows and no columns |
| Matrices.Matrix.Zero | Matrix.h:21-23 | a zero matrix of the given shape |
| Matrices.Matrix.FromVector | Matrix.h:15-19 | the rows are copied and fitted |
| Matrices.Matrix.FromList | Matrix.h:25-32 | the rows are copied one by one and fitted |
| Matrices.Matrix.Copy | Matrix.h:34 | the same value as the original |
| Matrices.Matrix.Move | Matrix.h:47-49 | the new object holds the source's value and the source is left with no rows and no columns |
| Matrices.Matrix.FitMatrix | Matrix.t.h:7-18 | the object becomes `Fit` of its rows: the longest length as column count, with zero padding |
| Matrices.Matrix.Set | Matrix.h:63-68 | a write changes exactly that cell; out of range it fails and nothing changes |
| Matrices.Matrix.Equals | Matrix.t.h:20-29 | the scan returns `Equal`, which is value equality (see `EqualIff`) |
| Matrices.Matrix.NotEquals | Matrix.t.h:31-34 | the negation of `==` |
| Matrices.Matrix.ForEach | Matrix.t.h:65-74 | a fresh copy with the callback applied at every cell; the receiver is unchanged |
| Matrices.Matrix.Negate | Matrix.h:85-89 | a fresh matrix holding `Negated` of the value: every entry negated |
| Matrices.Matrix.Plus | Matrix.h:91-93 | a fresh equal copy |
| Matrices.Matrix.Scale | Matrix.h:95-100 | a fresh matrix holding `Scaled` of the value: every entry multiplied by the scalar |
| Matrices.Matrix.ScalarTimes | Matrix.t.h:76-79 | `scalar * mat` is `mat * scalar` |
| Matrices.Matrix.Divide | Matrix.h:102-106 | a fresh matrix holding `DividedBy` of the value: every entry divided by the scalar with truncation |
| Matrices.Matrix.Add | Matrix.t.h:81-90 | `length_error` exactly when the shapes differ; otherwise a fresh matrix holding `Sum`, the element-wise sum |
| Matrices.Matrix.Subtract | Matrix.h:110-112 | `length_error` exactly when `Difference` fails; otherwise a fresh matrix holding the difference |
| Matrices.Matrix.Trace | Matrix.t.h:92-101 | the sum of the entries with equal row and column index |
| Matrices.Matrix.Transpose | Matrix.t.h:103-109 | a fresh matrix holding `Transposed` of the value: dimensions swapped, entry `(i, j)` from `(j, i)` |
| Matrices.Matrix.DotAt | Matrix.t.h:118-121 | the inner loop of `operator*` computes the dot product of row `i` and column `j` |
| Matrices.Matrix.Multiply | Matrix.t.h:111-124 | `length_error` exactly when `cols != other.rows`; otherwise a fresh matrix holding `Product`, whose entries are the dot products of rows and columns |
| Matrices.Matrix.Swap | Matrix.t.h:36-41 | the two objects exchange their values |
| Matrices.Matrix.MoveAssign | Matrix.h:120-123 | move assignment swaps the two objects |
| Matrices.Matrix.Assign | Matrix.h:116-118 | copy assignment gives the receiver the other's value |
| Matrices.Matrix.AddAssign | Matrix.h:125-127 | `+=` is `+` assigned back, or `length_error` with nothing changed |
| Matrices.Matrix.SubtractAssign | Matrix.h:129-131 | `-=` is `-` assigned back, or `length_error` with nothing changed |
| Matrices.Matrix.MultiplyAssign | Matrix.h:133-135 | `*=` with a matrix is `*` assigned back, or `length_error` with nothing changed |
| Matrices.Matrix.ScaleAssign | Matrix.h:137-139 | `*=` with a scalar is scalar `*` assigned back |
| Matrices.Matrix.DivideAssign | Matrix.h:141-143 | `/=` is scalar `/` assigned back |
| Matrices.IdentityMatrix | Matrix.t.h:131-136 | `pow(m, 0)` builds the identity |
| Matrices.PowMatrix | Matrix.t.h:126-142 | the recursive `pow` returns `Pow` of the matrix, or `length_error` when it is not square |

## Left out

- Printing (`operator<<` of both classes) is output formatting and is not modelled.
- `main.cpp` is not modelled. It is the standard-input front end and the text rendering of solutions.
- `MatrixIterator.h` is not modelled. Its iterator would not compile if instantiated.
- The `double` code paths are not modelled:
  - the `IsZero` and `IsInteger` tolerances;
  - `GetRatio` and `GetColumn`, which convert to `Matrix<double>`.

  `Coefficients` and `RightHandSide` only describe the parts those two functions read.
- The converting constructor `Matrix(const Matrix<U>&)` is not modelled. It changes the element type through `static_cast`, and the model has a single element type.
- The destructor is not modelled. It has no effect on values.
- `Large`, `size_t` and `int32_t` are all modelled as unbounded `int` or `nat`. Overflow of the `int` casts around `std::gcd` is not modelled, and neither is the width of `var_index`.
- Matrices.Matrix.Multiply: the source accumulates each dot product in a `size_t` before storing it. The model uses an exact integer sum, so wrap-around and negative products are not captured.
- Matrices.PowMatrix: the even branch of the source goes through a temporary `Matrix<int>`. The model keeps the element type.
- Matrices.Matrix.Trace: the source runs a capturing callback through `ForEach` on a copy. The model scans the cells directly in the same order.
- Callbacks are pure functions of `(i, j, elem)`. A callback that captures and updates outside state is not expressible as a `ForEach` argument in the model.
- Matrices.Matrix.Divide and Matrices.Matrix.DivideAssign require a nonzero divisor. Division by zero is undefined in the source.
- Matrices.Matrix.FromVector requires a first row with at least one entry, because the source advances an iterator past `other[0].begin()`.
- Exceptions (`out_of_range`, `length_error`) are modelled as `Result` or `Status` values rather than as unwinding.
- The `n` parameters of the solver's methods (the number of unknowns, `cols - 1`) are ghost. They exist only to state the contracts.
- LinearSystem.LinearEquationSystem.MakeBetterStepwise: reduced form is proved only for row-echelon input, which is what `Solve` gives it. On other input the source pairs pivot columns with rows by position, and the model states only the resulting grid.
- `GetSolutions` appends the constant term only when the right-hand side is nonzero, so `x = 0` gives an empty expression. The model follows the code.

## Findings

| source | as written | input that shows it | evidently intended | confidence | as-written member | corrected member |
|---|---|---|---|---|---|---|
| LinearEquationSystem.h:24-29 | the constructor calls the `const` `ForEach`, which fills a copy that is then discarded, so the system keeps the zeros of `Matrix(rows, cols + 1)` | `ratio = [[1]]`, `rcol = [[2]]` (the system `x = 2`) gives the grid `[[0, 0]]` | the grid `[[1, 2]]`: each row of `ratio` followed by `rcol(i, 0)` | high (not executed) | LinearSystem.ConstructorLosesCoefficients | LinearSystem.LinearEquationSystem.Create |
