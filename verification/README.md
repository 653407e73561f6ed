# Matrices — a Dafny model of the matrix programs

The repository is a set of small C++ programs for matrix arithmetic and
numerical linear algebra. This project models their computational core in
Dafny and proves what each program computes.

- **Integer matrix algebra.** This covers `matrix_calculator.cpp`,
  `square_matrix_calculator.cpp` and `matrix_elimination_permutation.cpp`:
  - `+`, `-`, `*` and transpose, where a failed dimension check returns the empty matrix;
  - the identity, elementary-elimination and permutation matrices;
  - `change`, which uses C++ truncating integer division.

  The `+`, `-` and `*` of `matrix_elimination_permutation.cpp` are the same
  code as those of `square_matrix_calculator.cpp`, so `SquareIntMatrix`
  models both.
- **The pivoted Gaussian process.** This is the engine that the determinant,
  inverse, linear-system, least-squares and Seidel programs each carry a copy of:
  - the maximum-magnitude pivot scan and the swap test;
  - forward elimination below each pivot and backward elimination above it;
  - diagonal normalization;
  - the swap and step counters.

  It is modelled once (`Elimination`) over exact `real` arithmetic, with a
  companion block of any width: none, one column, or a matrix. A run also
  records the operations it performed. That lets `GaussTheory` tie every
  result back to the input:
  - the reduced system has the same solutions;
  - the singular check fires exactly when the matrix is singular;
  - the normalized companion is the two-sided inverse or the unique solution.
- **The programs built on the engine:**
  - the signed determinant (`DeterminantCalculator`), proved equal to the
    cofactor-expansion determinant of `Cofactor`;
  - the inverse (`InverseCalculator`);
  - the linear solver with zero-skipping normalization (`LinearSolver`);
  - least squares through the normal equations (`LeastSquares`).
- **The iterative solvers.** These are `jacobi_solver.cpp` and `seidel_solver.cpp`:
  - the diagonal-dominance applicability check, and α, β (`IterativeSetup`);
  - the split of α into the strict-lower part B and strict-upper part C, and (I − B)⁻¹ (`Seidel`);
  - the update step and the stopping loop (`Iteration`, `Jacobi`, `Seidel`).

  Dominance is proved to make A nonsingular. A fixed point of either update
  is proved to be exactly the solution of A·x = b.

`Singular(a)` is the predicate "some nonzero x has a·x = 0". The
`exit(0)` paths ("matrix A is singular", "The method is not applicable")
become `None` or `NotApplicable` results.

**Division by a zero pivot.** The code computes the multiplier `k` before
testing the entry (`determinant_calculator.cpp:63-64`). But that multiplier is only used
when the entry below the pivot is nonzero. After the maximum-magnitude pivot
scan this implies that the pivot is nonzero (`Elimination.PivotStep`,
`Elimination.ClearEntry`). In the inverse and linear-system programs the
backward pass runs only after the singular check, and in the Seidel program
it runs on I − B, whose pivots are 1. The least-squares program runs the
whole process, backward pass included, on AᵀA with no singular check
(`linear_system_solver_with_steps.cpp:365-369`), so only there can a zero
divisor reach a result. The model
follows the code. It computes the quotient only inside the guard, and it
proves the divisor nonzero wherever the quotient is used.

## Model

| member | source | states |
|---|---|---|
| IntMatrix.New | matrix_calculator.cpp:25-30 | the constructor gives an n×m matrix whose every entry is 0 |
| IntMatrix.NewIsNeutral | matrix_calculator.cpp:25-30 | the constructor's n×m matrix is all zeros: adding it to any n×m matrix gives that matrix back |
| IntMatrix.Transposed | matrix_calculator.cpp:43-56 | the transpose of an n×m matrix is m×n with entry (j,i) equal to entry (i,j) of the input |
| IntMatrix.TransposeInvolution | matrix_calculator.cpp:43-56 | transposing twice returns the original matrix, dimensions included |
| IntMatrix.Add | matrix_calculator.cpp:71-95 | when both n and m agree, the result has the same shape and holds the entrywise sums; otherwise it is the empty 0×0 matrix |
| IntMatrix.AddCommutes | matrix_calculator.cpp:71-95 | A + B equals B + A for all shapes, the error case included |
| IntMatrix.Sub | matrix_calculator.cpp:97-121 | entrywise difference when both dimensions agree, the empty matrix otherwise |
| IntMatrix.SubUndoesAdd | matrix_calculator.cpp:71-121 | (A + B) − B = A whenever the shapes agree |
| IntMatrix.Mul | matrix_calculator.cpp:123-150 | when A's column count equals B's row count, the product is n×B.m with entry (i,j) = Σ_{c<m} A[i][c]·B[c][j]; otherwise it is the empty matrix |
| SquareIntMatrix.Transposed | square_matrix_calculator.cpp:36-49 | the transpose keeps the size n and mirrors entries across the diagonal |
| SquareIntMatrix.TransposeInvolution | square_matrix_calculator.cpp:36-49 | transposing twice is the identity |
| SquareIntMatrix.Add | square_matrix_calculator.cpp:64-88 | equal sizes give the entrywise sum; different sizes give the size-0 matrix |
| SquareIntMatrix.TransposeOfSum | square_matrix_calculator.cpp:36-88 | the transpose of A + B is Aᵀ + Bᵀ |
| SquareIntMatrix.Sub | square_matrix_calculator.cpp:90-114 | equal sizes give the entrywise difference; different sizes give the size-0 matrix |
| SquareIntMatrix.SubAntisymmetric | square_matrix_calculator.cpp:90-114 | every entry of B − A is the negation of the same entry of A − B |
| SquareIntMatrix.Mul | square_matrix_calculator.cpp:116-143 | equal sizes give entry (i,j) = Σ_{c<n} A[i][c]·B[c][j]; different sizes give the size-0 matrix |
| SquareIntMatrix.MismatchYieldsEmpty | matrix_elimination_permutation.cpp:49-128 | `+`, `-` and `*` on different sizes all return the size-0 matrix with no cells |
| ElementaryInt.TruncDiv | matrix_elimination_permutation.cpp:186-192 | C++ `/` on int: the remainder is smaller in magnitude than the divisor and is zero or has the dividend's sign, so the quotient truncates toward zero |
| ElementaryInt.Change | matrix_elimination_permutation.cpp:182-193 | the truncated quotient of entry (q−1,w−1) by the diagonal entry of the smaller index, which must be nonzero |
| ElementaryInt.Identity | matrix_elimination_permutation.cpp:150-158 | the n×n matrix with 1 on the diagonal and 0 everywhere else |
| ElementaryInt.MakeElimination | matrix_elimination_permutation.cpp:170-180 | the identity except entry (q−1,w−1), which holds −el |
| ElementaryInt.MakePermutation | matrix_elimination_permutation.cpp:205-210 | rows q−1 and w−1 trade places and every other row is kept |
| ElementaryInt.IdentityLeft | matrix_elimination_permutation.cpp:147-159 | the identity matrix is a left unit: I·A = A |
| ElementaryInt.EliminationRowOp | matrix_elimination_permutation.cpp:170-180 | for q ≠ w, E·A replaces row q−1 by A[q−1] − el·A[w−1] and keeps every other row |
| ElementaryInt.ChangeClearsEntry | matrix_elimination_permutation.cpp:223-228 | with el = change(2,1) and a[0][0] dividing a[1][0], entry (1,0) of E₂₁·A is zero |
| ElementaryInt.PermutationSwapsRows | matrix_elimination_permutation.cpp:231-237 | the permuted identity times A equals A with rows q−1 and w−1 exchanged |
| ElementaryInt.PermutationInvolution | matrix_elimination_permutation.cpp:205-210 | permuting the same two rows twice restores the matrix |
| RealMatrix.VAdd | jacobi_solver.cpp:111-115 | `ColumnVector` `+` keeps the length; its entries are stated through RealMatrix.AddSubCancel |
| RealMatrix.VSub | jacobi_solver.cpp:103-109 | `ColumnVector` `-`: same length, and adding the subtrahend back gives the minuend entry by entry |
| RealMatrix.MSub | seidel_solver.cpp:98-112 | matrix `-`: same shape, and adding B back to A − B gives A entry by entry |
| RealMatrix.AddSubCancel | jacobi_solver.cpp:103-115 | vector `-` undoes vector `+` and `+` undoes `-`: (u + v) − v = u and (u − v) + v = u |
| RealMatrix.MSubMatVec | seidel_solver.cpp:98-112 | (A − B)·x = A·x − B·x |
| RowOps.SwapRows | determinant_calculator.cpp:49-55 | rows q and w trade places and no other row changes; q = w changes nothing |
| RowOps.ApplyCommutes | inverse_matrix_calculator.cpp:122-166 | a swap, elimination or division applied to A·X equals the same operation applied to A, then times X; this is why mirroring every operation onto the companion is sound |
| RowOps.TraceInjective | inverse_matrix_calculator.cpp:122-166 | a sequence of valid row operations can be undone: equal results come from equal inputs |
| Elimination.Scan | determinant_calculator.cpp:84-91 | the scan returns the largest magnitude in rows i..n−1 of the column and the first row that attains it, or keeps (mx, temp) when no entry exceeds mx |
| Elimination.PivotOf | determinant_calculator.cpp:84-91 | the scan started at row c with mx = 0 and temp = 0: the result is at least the diagonal magnitude; when it is nonzero, temp is a row at or below c holding that magnitude; when it is zero, temp stays 0 |
| Elimination.PivotOfMaximal | determinant_calculator.cpp:84-91 | the pivot magnitude bounds every entry of the column from row c down, and every row before the chosen one is strictly smaller |
| Elimination.SwapWanted | determinant_calculator.cpp:93 | the swap test; when it fires, the diagonal magnitude is strictly below the column maximum, so the swap brings a strictly larger pivot |
| Elimination.SwapWantedIff | determinant_calculator.cpp:84-95 | the test `temp > 0 && abs(mx) != abs(diag)` fires exactly when some row at or below the pivot has strictly larger magnitude than the diagonal; the chosen row is then below the pivot and is the first of maximal magnitude |
| Elimination.PivotStep | determinant_calculator.cpp:84-100 | after the pivot step the diagonal dominates the rest of its column, rows above are unchanged, and the swap count grows by one exactly when the swap test fires |
| Elimination.ClearEntry | determinant_calculator.cpp:61-73 | one guarded elimination zeroes entry (i,c), changes only row i, and counts a step only when the entry was nonzero; the divisor is nonzero whenever the quotient is formed |
| Elimination.EliminateBelow | determinant_calculator.cpp:59-76 | every entry below the pivot becomes zero, rows up to the pivot are unchanged, and the step counter grows by the number of rows with a nonzero entry in the column |
| Elimination.EliminateAbove | inverse_matrix_calculator.cpp:150-165 | the backward pass zeroes exactly the entries above the pivot in its column and leaves the other columns alone |
| Elimination.EliminateAboveSteps | inverse_matrix_calculator.cpp:151-162 | the step counter of the backward pass grows by one for each row above the pivot whose entry in the pivot column was nonzero |
| Elimination.Forward | determinant_calculator.cpp:78-104 | the forward pass yields an upper triangular matrix equal to the recorded operations applied to the input, and the returned count is the number of swaps among them |
| Elimination.BackwardFrom | inverse_matrix_calculator.cpp:193-196 | on an upper triangular matrix with nonzero diagonal, the backward pass leaves a diagonal matrix with the same diagonal and no new swaps |
| Elimination.GaussianProcess | inverse_matrix_calculator.cpp:172-198 | forward then backward: a diagonal matrix with nonzero diagonal; working matrix and companion are the same operations applied to their starting values |
| Elimination.Normalize | inverse_matrix_calculator.cpp:214-228 | each row of both matrices is divided by the working matrix's diagonal entry taken before the division; a diagonal working matrix becomes the identity |
| GaussTheory.ProductInvariant | linear_system_solver.cpp:151-177 | at every point of a run, work·x = comp holds exactly when input·x = starting companion: the steps neither lose nor add solutions |
| GaussTheory.CompanionTimesOrigin | inverse_matrix_calculator.cpp:172-198 | with an identity companion, working matrix = companion × original input throughout |
| GaussTheory.ForwardIgnoresCompanion | inverse_matrix_calculator.cpp:257-267 | the triangularized copy used for the singular check reaches the same triangular matrix and counters as the run with a companion |
| GaussTheory.DiagonalProductZero | determinant_calculator.cpp:108-112 | the product of the diagonal is zero exactly when some diagonal entry is zero |
| GaussTheory.ZeroPivotIffSingular | linear_system_solver.cpp:179-191 | the triangular copy has a zero diagonal entry exactly when the input is singular |
| GaussTheory.SingularCheck | inverse_matrix_calculator.cpp:200-212 | the singular error (product of the triangular copy's diagonal is zero) fires exactly when the input is singular |
| GaussTheory.GaussInverse | inverse_matrix_calculator.cpp:261-267 | from the identity companion, the normalized run ends with the identity as working matrix and a companion R with R·A = I and A·R = I |
| GaussTheory.GaussSolves | linear_system_solver.cpp:285-291 | for any companion C, the normalized companion X solves A·X = C and is the only solution |
| DeterminantCalculator.PowMinusOneParity | determinant_calculator.cpp:136-143 | the parity test on the swap count selects the sign (−1)^swaps |
| DeterminantCalculator.Report | determinant_calculator.cpp:106-127 | `findDeterminant` prints the product when the flag holds and its negation otherwise, and prints zero exactly for a zero product |
| Cofactor.DetDifference | determinant_calculator.cpp:66-69 | the determinant is additive in each row: if row r of Z is row r of X minus row r of Y and the rest agree, det Z = det X − det Y |
| Cofactor.DetScaled | determinant_calculator.cpp:66-69 | multiplying one row by k multiplies the determinant by k |
| Cofactor.DetExchange | determinant_calculator.cpp:49-55 | exchanging rows q < w negates the determinant |
| Cofactor.DetRepeatedRow | determinant_calculator.cpp:66-69 | a matrix with two equal rows has determinant zero |
| Cofactor.DetSwapRows | determinant_calculator.cpp:49-55 | the row swap of the pivot step, on distinct rows, negates the determinant |
| Cofactor.DetEliminateRow | determinant_calculator.cpp:66-69 | subtracting k times another row keeps the determinant |
| Cofactor.DetUpperTriangular | determinant_calculator.cpp:106-112 | on an upper triangular matrix the determinant is the product of the diagonal |
| DeterminantCalculator.PivotStepKeepsSign | determinant_calculator.cpp:84-100 | after the pivot step, det(input) is still (−1)^swaps times det(working matrix) |
| DeterminantCalculator.ClearEntryKeepsSign | determinant_calculator.cpp:61-73 | one guarded elimination keeps det(input) = (−1)^swaps · det(working matrix) |
| DeterminantCalculator.ForwardKeepsDet | determinant_calculator.cpp:78-104 | after the whole forward pass, det(input) = (−1)^swaps · det(triangular result) |
| DeterminantCalculator.Determinant | determinant_calculator.cpp:130-145 | the printed value equals the cofactor-expansion determinant Det(A); it is (−1)^swaps times the product of the triangular diagonal, and zero exactly when A is singular |
| InverseCalculator.Inverse | inverse_matrix_calculator.cpp:250-272 | `None` (the singular exit) exactly when the input is singular; otherwise an n×n matrix that is a two-sided inverse |
| InverseCalculator.InverseUnique | inverse_matrix_calculator.cpp:250-272 | whenever some B satisfies B·A = I, the program succeeds and returns exactly B |
| LinearSolver.DivideUnlessZero | linear_system_solver.cpp:200-207 | dividing only nonzero entries by a nonzero k gives the same value as dividing every entry |
| LinearSolver.NormalizeSkipping | linear_system_solver.cpp:193-213 | skipping zero entries gives the same rows as dividing every entry by the diagonal entry |
| LinearSolver.NormalizeSkippingAgrees | linear_system_solver.cpp:193-213 | the zero-skipping normalization agrees with the engine's plain normalization on the matrix and the one-column companion |
| LinearSolver.SolveCorrect | linear_system_solver.cpp:285-291 | when the triangular copy has a nonzero diagonal, the returned vector solves A·x = b and is the only solution |
| LinearSolver.Solve | linear_system_solver.cpp:274-296 | `None` exactly when A is singular; otherwise the unique x with A·x = b |
| IterativeSetup.OffDiagonalSum | jacobi_solver.cpp:149-152 | the sum of abs(a_ij) over j ≠ i is nonnegative |
| IterativeSetup.OffDiagonalEntryBound | jacobi_solver.cpp:149-152 | every off-diagonal magnitude of the row is at most the sum |
| IterativeSetup.OffDiagonalIgnoresDiagonal | jacobi_solver.cpp:149-152 | changing the diagonal entry leaves the sum unchanged |
| IterativeSetup.RowPasses | jacobi_solver.cpp:153 | the negation of the failure test `sum >= abs(a[i][i])`; a passing row has a nonzero diagonal entry |
| IterativeSetup.FirstFailingRow | jacobi_solver.cpp:147-157 | the scan stops at the first row whose off-diagonal magnitude sum reaches the diagonal magnitude; all earlier rows pass |
| IterativeSetup.ApplicableMeansDominant | jacobi_solver.cpp:147-157 | the method is applicable exactly when every row is strictly diagonally dominant, and then every diagonal entry is nonzero |
| IterativeSetup.DominantIsNonsingular | jacobi_solver.cpp:147-157 | a strictly diagonally dominant matrix is not singular |
| IterativeSetup.Alpha | jacobi_solver.cpp:158-164 | α is n×n with a zero diagonal |
| IterativeSetup.AlphaRow | jacobi_solver.cpp:159-164 | row i of α is −1/a_ii times row i of A with its diagonal entry removed, i.e. α_ij = −a_ij/a_ii off the diagonal |
| IterativeSetup.Beta | jacobi_solver.cpp:145-148 | β_i = b_i / a_ii |
| IterativeSetup.Times | jacobi_solver.cpp:117-128 | `ColumnVector * Matrix` computes M·v |
| IterativeSetup.Setup | jacobi_solver.cpp:140-164 | the not-applicable exit happens exactly when dominance fails; otherwise the diagonal is nonzero and the result is (α, β) |
| IterativeSetup.FixedPointIffSolution | jacobi_solver.cpp:147-164 | x = α·x + β holds exactly when A·x = b |
| Iteration.Step | jacobi_solver.cpp:179 | one update `x * alpha + beta` keeps the length of x |
| Iteration.StepEntries | jacobi_solver.cpp:103-128 | the vector `+` and `*` compose to the update x' with x'_i = α_i·x + β_i |
| Iteration.SquaredDistance | jacobi_solver.cpp:130-136 | the sum of squared entry differences, the value `condition` takes the root of, is nonnegative |
| Iteration.SquaredDistanceSelf | jacobi_solver.cpp:130-138 | the residual of a vector against itself is zero |
| Iteration.RootComparison | jacobi_solver.cpp:130-138 | for r = √s, the loop test r > e holds exactly when e < 0 or s > e², so the loop can compare squared distances |
| Iteration.Far | jacobi_solver.cpp:183 | the loop test `ex > e`; two equal iterates keep the loop going only for a negative tolerance |
| Iteration.FarIffRootExceeds | jacobi_solver.cpp:130-138 | for ex the nonnegative square root of the squared distance, as `condition` returns it, `ex > e` holds exactly when Far does |
| Iteration.FirstClose | jacobi_solver.cpp:183-192 | the search returns the first round from k whose iterate is within e of its predecessor, and reports none when no round within the bound is |
| Iteration.Loop | jacobi_solver.cpp:177-195 | the answer is the iterate of the first round whose distance to the previous iterate is at most e; round 1 is reported even without entering the loop; no earlier round settles, and "unfinished" means no round up to the bound settles |
| Iteration.StepError | jacobi_solver.cpp:189-191 | for a fixed point xs, the error after one update is α times the error before it |
| Iteration.StopsAtFixedPoint | jacobi_solver.cpp:183-192 | once an iterate is a fixed point, the next round repeats it and the loop stops there |
| Jacobi.JacobiMethod | jacobi_solver.cpp:140-195 | "not applicable" exactly when dominance fails; otherwise the loop from x = β with α, β from the setup, with its first-settling-round answer |
| Jacobi.FixedPointIsSolution | jacobi_solver.cpp:147-179 | with α, β from the setup, x is a fixed point of the update exactly when A·x = b |
| Jacobi.UniqueFixedPoint | jacobi_solver.cpp:147-191 | for an applicable system the linear solver succeeds, and its solution is the one and only fixed point of the update |
| Jacobi.ErrorPropagation | jacobi_solver.cpp:189-191 | if xs solves A·x = b, the error of each iterate is α times the error of the one before |
| Jacobi.StopsAtSolution | jacobi_solver.cpp:183-192 | an iterate that solves A·x = b is repeated by the next round, which then ends the loop |
| Seidel.StrictLower | seidel_solver.cpp:203-213 | `lowerTriangular` keeps entries with j < i and zeroes the rest |
| Seidel.StrictUpper | seidel_solver.cpp:215-225 | `upperTriangular` keeps entries with j > i and zeroes the rest |
| Seidel.SplitSums | seidel_solver.cpp:377-384 | for α with a zero diagonal, B + C = α |
| Seidel.IdentityMinusLower | seidel_solver.cpp:386-390 | I − B has a unit diagonal and zeros above it |
| Seidel.UnitLowerNonsingular | seidel_solver.cpp:386-393 | a unit lower triangular matrix is not singular, so the unchecked Gaussian process on I − B never meets a zero pivot |
| Seidel.InverseOfIMinusB | seidel_solver.cpp:386-393 | after the Gaussian process and normalization, IB holds R with R·(I − B) = I and (I − B)·R = I |
| Seidel.MatrixTimes | seidel_solver.cpp:227-254 | equal sizes give entry (i,j) = row i · column j; different sizes give the empty matrix |
| Seidel.RoundParts | seidel_solver.cpp:395-398 | the update's matrix is R·C and its constant is R·β |
| Seidel.RoundForm | seidel_solver.cpp:397-398 | one Seidel update equals R·(C·x + β) |
| Seidel.SameFixedPoints | seidel_solver.cpp:377-398 | x is a fixed point of the Seidel update exactly when it is a fixed point of the Jacobi update x = α·x + β |
| Seidel.FixedPointIsSolution | seidel_solver.cpp:340-398 | with α, β from the setup, x is a fixed point of the Seidel update exactly when A·x = b |
| Seidel.SeidelMethod | seidel_solver.cpp:340-415 | "not applicable" exactly when dominance fails; otherwise the loop from x = β with the update (R·C, R·β), with its first-settling-round answer |
| LeastSquares.Fresh | linear_system_solver_with_steps.cpp:25-44 | the constructor's n×n cells hold 1 in column 0 and the empty sentinel everywhere else |
| LeastSquares.WithAbscissae | linear_system_solver_with_steps.cpp:56-65 | reading the points puts t_i into column 1 of row i and changes no other cell |
| LeastSquares.Pow | linear_system_solver_with_steps.cpp:77 | `pow(t, j)` for a whole exponent: every power of 1 is 1, and every positive power of 0 is 0 |
| LeastSquares.PowerCell | linear_system_solver_with_steps.cpp:77 | the written cell is present exactly when column 1 is, and the power 1 reproduces column 1 |
| LeastSquares.FillCells | linear_system_solver_with_steps.cpp:67-81 | columns 2..d receive the powers of the row's column-1 value; other cells are kept |
| LeastSquares.Clear | linear_system_solver_with_steps.cpp:119-135 | the result is n×n: present cells in columns below m are copied, and sentinels and columns from m on become 0 |
| LeastSquares.ClearVector | linear_system_solver_with_steps.cpp:301-314 | present entries are kept and sentinels become 0 |
| LeastSquares.Transposed | linear_system_solver_with_steps.cpp:83-98 | an n×m matrix becomes m×n with entry (j,i) equal to entry (i,j) |
| LeastSquares.TransposedInvolution | linear_system_solver_with_steps.cpp:83-98 | transposing twice restores the matrix |
| LeastSquares.Multiplication | linear_system_solver_with_steps.cpp:137-151 | the n×m2 result is the product of the first m columns of the left matrix with the first m rows (m2 columns) of the right one |
| LeastSquares.VectorMultiplication | linear_system_solver_with_steps.cpp:316-327 | entry i is Σ_{j<m2} v_j·M[i][j], the product of the n2×m2 corner of M with v |
| LeastSquares.DesignMatrix | linear_system_solver_with_steps.cpp:334-345 | after filling and clearing, the design matrix holds t_i^j in columns j ≤ d and 0 beyond; its first d+1 columns are the Vandermonde matrix |
| LeastSquares.NormalEquations | linear_system_solver_with_steps.cpp:347-382 | the program forms V, Vᵀ, VᵀV and Vᵀb from the Vandermonde matrix V of the points |
| LeastSquares.NormalMatrix | linear_system_solver_with_steps.cpp:348-362 | `multiplication` of the transposed cell matrix with the cell matrix is VᵀV for the Vandermonde matrix V of the points |
| LeastSquares.NormalVector | linear_system_solver_with_steps.cpp:376-382 | `vectorMultiplication` of b with the transposed cell matrix is Vᵀb |
| LeastSquares.SquareVectorMultiplication | linear_system_solver_with_steps.cpp:384-387 | the final vector multiplication with n2 = m2 = n is the matrix-vector product |
| LeastSquares.InverseSolves | linear_system_solver_with_steps.cpp:365-387 | multiplying Vᵀb by a two-sided inverse of VᵀV gives the unique solution of the normal equations |
| LeastSquares.SolveNormal | linear_system_solver_with_steps.cpp:365-374 | `None` exactly when VᵀV is singular; otherwise the unique solution of the normal equations |
| LeastSquares.Fit | linear_system_solver_with_steps.cpp:330-389 | the program's answer x̃ is the unique solution of VᵀV·x = Vᵀb, and `None` exactly when VᵀV is singular |
| LeastSquares.ResidualOrthogonal | linear_system_solver_with_steps.cpp:370-389 | any x solving the normal equations VᵀV·x = Vᵀb leaves a residual V·x − b whose dot product with every column of V is zero |
| LeastSquares.FitResidualOrthogonal | linear_system_solver_with_steps.cpp:330-389 | the residual V·x̃ − b of the answer is orthogonal to every column of V |

## Left out

- Input, output and printing (`cin`, `cout`, `setprecision`, the `output` overloads, the step labels) are not modelled. The step and swap counters are kept as returned naturals.
- IEEE-754 doubles are not modelled. All real arithmetic is exact `real`: no rounding, no NaN or infinity from an unguarded division, no negative zero.
- `abs` on a `double` is taken to be the floating-point absolute value, as the `std::abs` overloads give.
- The NaN "empty cell" sentinels of the least-squares program are modelled as `Option<real>` (`None` for NaN). `isnan` tests become `Some?`.
- `exit(0)` after the singular or not-applicable message is modelled as a `None` or `NotApplicable` result.
- C++ `int` overflow in the integer programs is not modelled. Dafny's `int` is unbounded, so sums and products never wrap.
- `operator=` is plain assignment. The model's values are immutable, so it needs no counterpart.
- The hard-coded `IdentityMatrix I(3)` that `main` of `matrix_elimination_permutation.cpp` prints is not modelled. It is output only.
- `predator_prey_solver.cpp` is not part of this model. It is a closed-form trigonometric formula over doubles.
- Iteration.Loop: the `while (ex > e)` loop runs for at most `rounds` rounds. If no round within that bound settles, the result is `Unfinished`. The source loop has no bound, and termination depends on numerical convergence.
- Iteration.Loop: the test on `sqrt` of the squared residual is replaced by the equivalent test on the squared residual itself (`Iteration.RootComparison` proves the two agree).
- Iteration.SquaredDistanceSelf: only one direction is proved, namely that the distance of a vector to itself is zero. The converse (zero distance implies equal vectors) is not proved.
- Elimination.GaussianProcess: it requires the triangular form to have a nonzero diagonal. Every caller guarantees this: the singular check runs first, or the matrix is I − B. Where no caller guarantees it (least squares on a singular VᵀV), the source would divide by zero.
- LeastSquares.Fit: the source has no singular check and would divide by zero when VᵀV is singular (for example, with fewer distinct points than d + 1). The model returns `None` in that case instead.
- LeastSquares.NormalEquations: it requires at least two points and d + 1 ≤ the number of points. Outside that range the source indexes past the end of its rows.
- LinearSolver.Solve: it requires the vector length to equal the matrix size. The source reads the two sizes separately and does not compare them.
- ElementaryInt.Change: it requires a nonzero divisor, and ElementaryInt.ChangeClearsEntry also requires n ≥ 2. The program's `main` reaches `change(2, 1)` on any input (`matrix_elimination_permutation.cpp:225`). There, A[0][0] = 0 is an integer division by zero, and n = 1 reads row 1 out of range. Both are undefined behaviour in C++, so the model gives no result for them.
- LeastSquares.Pow: only these properties are stated: powers of 1 and of 0, and `t^1 = t` (`LeastSquares.PowOne`). The exponent law is not proved, and the result is exact, unlike the floating-point `pow`.
- IterativeSetup.Setup: it requires the vector length to equal the matrix size, and so do Jacobi.JacobiMethod and Seidel.SeidelMethod. The source reads the two sizes separately (`jacobi_solver.cpp:203-206`, `seidel_solver.cpp:421-425`) and indexes `b` up to the matrix size, so a shorter vector is undefined behaviour. A longer vector is undefined behaviour too: `MatrixALPHA(n)` and `xARRAY1(n)` take the vector's length, so `operator*` (`jacobi_solver.cpp:117-128`, `seidel_solver.cpp:317-328`) reads `alpha` and `beta` past their size.
- Iteration.Step: its contract gives only the length. The entry formula is proved in `Iteration.StepEntries`, kept apart so that unfolding an iterate does not unfold every product behind it.
- RealMatrix.VAdd: its contract gives only the length, for the same reason as `Iteration.Step`. Its entries are stated by `RealMatrix.AddSubCancel` and the matrix-vector lemmas.
- Cofactor.Det: the determinant is defined by cofactor expansion along the first column, not by the Leibniz permutation sum. The two are equal in linear algebra, but that equality is not proved here.
- Seidel: `operator-` on matrices has no size check in the source. It is modelled by `MSub`, which requires equal sizes; the only use is I − B, whose sizes are equal.
