# Modified Broyden mixing, modelled in Dafny

Class `Broyden` speeds up a self-consistent iteration with the modified
Broyden method. On every iteration the caller passes in the vector its
iteration produced (`Vnew`). The engine then proceeds in four steps:

1. It records the residual `F = Vnew - V`.
2. On every step after the first since the last reset, it stores the
   normalised secant step in the history tables `DF` and `DV`.
3. It extends the Gram matrix `A` of the `DF` rows and inverts
   `A + omega0^2 I` into `Beta`, by LU decomposition with implicit partial
   pivoting (`ludcmp`, `lubksb`, `InverseMatrix`).
4. It mixes the old vector with the residual, less the Broyden correction
   `sum_{n,k} c[k] Beta[k][n] U[n][i]`.

It reports convergence when no component moved by `Accr` or more.

The project has three modules:

- `ComplexNumbers` (`complex.dfy`): complex numbers as exact pairs of
  reals. Products and quotients are kept behind unfolding lemmas.
- `LuSolver` (`lu.dfy`): `ludcmp`, `lubksb` and `InverseMatrix` as
  imperative methods on 1-indexed `array2` tables. Row and column 0 are
  unused, as in the source. The methods are proved against ghost
  specification functions of the forward and backward passes.
- `BroydenMixing` (`broyden.dfy`): class `Broyden`. Its history tables are
  `const` array fields, and its methods modify them in place.
  `CalculateNew` is split into one method per loop of the source.

`abs` is modelled through its square: every comparison of moduli in the
source becomes a comparison of squared moduli. The row scales of `ludcmp`
are the squares of the source's scales, and they rank pivot candidates the
same way. `CurrentDiff` holds the square of the source's `MaxDiff`. The
complex square root of `add_Ds` is the constructor parameter `Root`. Its
type says it never returns zero.

## Model

| member | source | states |
|---|---|---|
| ComplexNumbers.NormSqSign | source/Broyden.cpp:8-12 | The squared modulus that replaces `abs` is nonnegative, and it is zero exactly for the zero number. |
| ComplexNumbers.Div | source/Broyden.cpp:211-215 | Dividing a by a nonzero b gives the r with b * r == a, and r is zero exactly when a is. |
| ComplexNumbers.Inv | source/Broyden.cpp:338 | The reciprocal of a nonzero z multiplies with z to one. |
| ComplexNumbers.Cancel | source/Broyden.cpp:338-339 | Multiplying by 1 / p and then by p gives back the number; this is the law the pivot division relies on. |
| ComplexNumbers.MulComm | source/Broyden.cpp:261 | Complex multiplication commutes. |
| ComplexNumbers.ConjMulConj | source/Broyden.cpp:279 | The conjugate of x * conj(y) is y * conj(x); this is the symmetry behind the Hermitian Gram matrix. |
| ComplexNumbers.MulConjSelf | source/Broyden.cpp:279 | z * conj(z) is the real number abs(z)^2. |
| ComplexNumbers.SquareCompare | source/Broyden.cpp:113 | For a nonnegative d, d < bound holds exactly when bound is positive and d^2 < bound^2; this justifies comparing squares. |
| BroydenMixing.Broyden.constructor | source/Broyden.cpp:18-33 | A new engine is off and holds the given sizes and parameters; its tables have their sizes. |
| BroydenMixing.Broyden.PrepareArrays | source/Broyden.cpp:126-166 | Every entry of every table becomes zero. |
| BroydenMixing.ClearRow | source/Broyden.cpp:158-168 | Every entry of row r of a table becomes zero, and every other row is kept. |
| BroydenMixing.Broyden.TurnOn | source/Broyden.cpp:36-47 | An engine that is off turns on, with `LastReset` at the given iteration and zeroed tables. An engine already on fails and nothing changes. |
| BroydenMixing.Broyden.TurnOff | source/Broyden.cpp:50-60 | The engine ends off. The call fails exactly when the engine was already off. |
| BroydenMixing.Broyden.Reset | source/Broyden.cpp:63-74 | An engine that is on has its tables zeroed and `LastReset` moved to the given iteration. An engine that is off fails and nothing changes. |
| BroydenMixing.Broyden.CalculateNew | source/Broyden.cpp:77-120 | The full step. `Fold` takes the old residual and `F` becomes `Vnew - V`. A first step returns 0 and adopts `Vnew`, with the history left untouched. A later step at r = it - LastReset first stores the secant step in row r-1 of DF and DV and the Gram column r-1. It returns -1, with V, Vnew, U, c and Beta unchanged, exactly when the regularised Gram matrix has a zero row. Otherwise `V` is the mixed vector and `Vnew` a copy of it, `CurrentDiff` is the largest squared change, and column j of Beta solves L U x = P e_j for j = 1..r-1, with L, U and P the factors and row exchanges `ludcmp` left for the regularised matrix. The result is 1 exactly when every component moved by less than `Accr`. On any later step the other DF and DV rows are kept, A changes only in row and column r-1 (indices 1..r-1), Beta only in rows and columns 1..r-1, and U and c only in rows 1..r-1, so row 0 is never written. `A` stays Hermitian. |
| BroydenMixing.Broyden.Step | source/Broyden.cpp:89-119 | After the residual update, the step at r from the last reset. It dispatches to the first step when r <= 1 and to the later step otherwise, and states CalculateNew's outcome, history frames and Beta property for that r. |
| BroydenMixing.Broyden.LaterStep | source/Broyden.cpp:91-117 | A later step stores the secant step and the Gram column. It returns -1 exactly when the regularised Gram matrix has a zero row, with V, Vnew, U, c and Beta kept. Otherwise it mixes, records the largest squared change and returns 1 exactly when every component moved by less than Accr, with Beta solving L U x = P e_j for the factors left by `ludcmp`. DF, DV, A, Beta, U and c change only in the rows and columns of the step. |
| BroydenMixing.Broyden.Learn | source/Broyden.cpp:91-93 | `add_Ds`, `add_As` and `get_Betas` in sequence. Row it-1 of DF and DV holds the normalised secant step and column it-1 of A the Gram products. The call fails, with Beta kept, exactly when the regularised matrix has a zero row; on success column j of Beta solves L U x = P e_j for j = 1..it-1. Only row it-1 of DF and DV, row and column it-1 of A and rows and columns 1..it-1 of Beta change, and A stays Hermitian. |
| BroydenMixing.Broyden.Apply | source/Broyden.cpp:94-117 | `get_Us`, `get_cs`, the mixing loop and the convergence test. Rows 1..it-1 of U are the directions and c[1..it-1] the residual's products with the DF rows; V is the mixed vector and Vnew its copy; CurrentDiff is the largest squared change; the result is 1 exactly when every component moved by less than Accr. A, DF, DV, F and Fold are kept, and U and c outside 1..it-1. |
| BroydenMixing.Broyden.MixComponent | source/Broyden.cpp:100-103 | Component i: Vold[i] takes V[i], V[i] becomes the mixed value and Vnew[i] its copy; every other component of the three vectors is kept. |
| BroydenMixing.Broyden.UpdateResidual | source/Broyden.cpp:83-87 | `Fold` takes the previous residual and `F` becomes the entrywise difference `Vnew - V`. |
| BroydenMixing.Broyden.AddDs | source/Broyden.cpp:201-216 | Row it-1 of DF and DV holds the residual change and the input change, each divided by the root of the unconjugated square sum of the residual change. Every other row is unchanged. |
| BroydenMixing.Broyden.StoreDifferences | source/Broyden.cpp:203-209 | The differences are stored in row p, and the returned sum is the unconjugated sum of squares of the residual change. |
| BroydenMixing.Broyden.ScaleSecant | source/Broyden.cpp:211-215 | Row p of DF and DV is divided by s, and every other row is kept. |
| BroydenMixing.NormaliseInverts | source/Broyden.cpp:211-215 | Multiplying each entry of the normalised step by the root gives back the difference. An entry vanishes exactly when the difference does. |
| BroydenMixing.Broyden.AddAs | source/Broyden.cpp:218-225 | Column it-1 of A, in rows 1..it-1, holds the products of the DF rows with row it-1, and row it-1 holds their conjugates. A stays Hermitian, and no other entry changes. |
| BroydenMixing.Broyden.SetGramPair | source/Broyden.cpp:222-223 | A[i][p] := z and A[p][i] := conj(z) keep A Hermitian when z is real on the diagonal. |
| BroydenMixing.Broyden.GramRow | source/Broyden.cpp:218-225 | Read along row p, A holds the products of row p with the earlier rows. The diagonal entry is a nonnegative real. |
| BroydenMixing.Broyden.Regularise | source/Broyden.cpp:229-235 | A new table holds A + omega0^2 I of order it-1. |
| BroydenMixing.Broyden.RegulariseRow | source/Broyden.cpp:233-234 | Row i of the table, over columns 1.., holds A + omega0^2 I, and the other rows are kept. |
| BroydenMixing.RegularisedHermitian | source/Broyden.cpp:234 | The regularised matrix is Hermitian when A is. |
| BroydenMixing.RegularisedSingular | source/Broyden.cpp:229-236 | The copied table has a zero row (the failure of `ludcmp`) exactly when the regularised matrix has one. |
| BroydenMixing.Broyden.GetBetas | source/Broyden.cpp:227-241 | Fails, leaving Beta unchanged, exactly when the regularised Gram matrix has a zero row. Otherwise column j of Beta, for j = 1..it-1, solves L U x = P e_j for the factors left in t by `ludcmp` and its row exchanges. Beta changes only in rows and columns 1..it-1. |
| BroydenMixing.Broyden.SetDirection | source/Broyden.cpp:246-247 | Row n of U becomes alpha DF[n] + DV[n], and the other rows are kept. |
| BroydenMixing.Broyden.GetUs | source/Broyden.cpp:243-248 | Rows 1..it-1 of U are the update directions alpha DF[n] + DV[n]. Rows 0 and it.. are untouched. |
| BroydenMixing.Broyden.GetCs | source/Broyden.cpp:250-254 | c[k] is the product of the residual with DF row k for k = 1..it-1. The other entries are untouched. |
| BroydenMixing.Broyden.Multiply | source/Broyden.cpp:275-281 | The result is the conjugate-linear inner product sum a[i] conj(b[i]) over i < n. |
| BroydenMixing.InnerConjSym | source/Broyden.cpp:275-281 | Swapping the arguments of the inner product conjugates it. |
| BroydenMixing.InnerSelf | source/Broyden.cpp:275-281 | The product of a vector with itself is a nonnegative real, and it is zero exactly when the vector is. |
| BroydenMixing.SumNormSqZero | source/Broyden.cpp:275-281 | A sum of squared moduli is nonnegative, and it is zero exactly when every term's number is zero. |
| BroydenMixing.Broyden.KDelta | source/Broyden.cpp:267-270 | The Kronecker delta is 0 or 1, and it is 1 exactly when i equals j. |
| BroydenMixing.Broyden.CorrTerm | source/Broyden.cpp:256-263 | The result is the double sum over n, k in 1..it-1 of c[k] Beta[k][n] U[n][i], and zero when it <= 1. |
| BroydenMixing.CorrectionVanishes | source/Broyden.cpp:256-263 | With every coefficient c[k] zero, the correction is zero. |
| BroydenMixing.Broyden.OrthogonalResidual | source/Broyden.cpp:98-104 | A residual orthogonal to every stored DF row gets no correction, so a later step reduces to linear mixing V + alpha F. |
| BroydenMixing.FirstStepIdentity | source/Broyden.cpp:101-102 | On a first step, V + 1 * (Vnew - V) - 0 is Vnew. |
| BroydenMixing.Broyden.FirstStep | source/Broyden.cpp:98-104 | On a first step V becomes the new input, Vold the previous V, and Vnew a copy of V. |
| BroydenMixing.Broyden.Mix | source/Broyden.cpp:98-104 | Vold takes V, and V becomes V plus the scaled residual less the correction. Vnew is a copy of the result. |
| BroydenMixing.Broyden.LargestChange | source/Broyden.cpp:107-111 | The result is the largest squared change over the components, or zero when there are none. |
| BroydenMixing.ConvergedMeansBelow | source/Broyden.cpp:113 | The test on the squared maximum agrees with `MaxDiff < Accr` on the maximum itself. |
| BroydenMixing.ConvergedIffAllSmall | source/Broyden.cpp:106-117 | With m the largest squared change, the test holds exactly when every component moved by less than Accr. |
| BroydenMixing.Broyden.MixAndTest | source/Broyden.cpp:98-117 | Mixes, records the largest squared change in CurrentDiff, and returns 1 exactly when every component moved by less than Accr. |
| LuSolver.RowMaxSqIsMax | source/Broyden.cpp:299-308 | The row maximum bounds every squared entry and is reached by one of them unless it is zero. It is zero exactly on an all-zero row. |
| LuSolver.RowMax | source/Broyden.cpp:301-304 | The scan returns the largest squared modulus of the row. |
| LuSolver.RowScales | source/Broyden.cpp:299-308 | Succeeds exactly when no row is all zero. Each scale is then the positive reciprocal of its row's maximum. |
| LuSolver.CroutSum | source/Broyden.cpp:310-325 | The Crout sum plus the dot product of the row and column over 1..kmax-1 gives back the original entry. |
| LuSolver.StoreCroutSum | source/Broyden.cpp:311-313 | a[i][j] takes its Crout sum over k < kmax, and the Crout sums of column j that the next passes read are not disturbed by the write. |
| LuSolver.UpperColumn | source/Broyden.cpp:310-314 | For i = 1..j-1, the new a[i][j] plus the sum over k < i of a[i][k] a[k][j], read from the stored factors, gives back the old a[i][j]: row i of U is solved. Only rows 1..j-1 of column j are written. |
| LuSolver.LowerColumnPivot | source/Broyden.cpp:315-325 | For i = j..n, the new a[i][j] plus the sum over k < j of a[i][k] a[k][j] gives back the old a[i][j]. The chosen pivot row lies in j..n, its scaled candidate is the largest and the last of the largest. Only rows j..n of column j are written, and the sums of the rows above are kept. |
| LuSolver.SwapRows | source/Broyden.cpp:326-334 | Rows j and imax trade their entries over columns 1..n, and nothing else changes; so each Crout sum of column j now belongs to the row it moved to. |
| LuSolver.SwapIndex | source/Broyden.cpp:326-334 | The row a row came from under the exchange of rows j and p: p for j, j for p, and itself otherwise. |
| LuSolver.ScaleBelow | source/Broyden.cpp:337-340 | Each entry below a nonzero pivot, multiplied back by the pivot, gives its old value. Nothing else changes. |
| LuSolver.DivideByPivot | source/Broyden.cpp:336-340 | A zero pivot becomes TINY and any other pivot is kept. The entries below are divided by the pivot, and the Crout sums of column j are kept. |
| LuSolver.ExchangeRows | source/Broyden.cpp:326-335 | Each row i of the table, over columns 1..n, holds what row SwapIndex(i, j, imax) held: rows j and imax trade places and the others stay. The scales stay positive, indx[j] records imax and the other entries of indx are kept. |
| LuSolver.PivotColumn | source/Broyden.cpp:326-340 | Rows j and imax trade places in every column other than j, and indx[j] records imax. The pivot is the old a[imax][j], or TINY when that is zero. Each entry below the pivot, times the pivot, is the entry of the row it came from. Rows above j are kept. |
| LuSolver.CroutColumn | source/Broyden.cpp:310-325 | Every entry of column j in rows 1..n, plus its Crout sum, gives back the old entry; the pivot row is in j..n and the largest scaled candidate. Nothing outside column j changes. |
| LuSolver.EliminateColumn | source/Broyden.cpp:309-341 | With p = indx[j], column j solves Crout's equations for the matrix with rows j and p exchanged: above the diagonal a[i][j] plus its sum gives back a[i][j]; the pivot is the remainder of row p, or TINY when that is zero; below it a[i][j] times the pivot plus its sum gives back the entry of the exchanged row. In every other column of rows 1..n, row i holds what row SwapIndex(i, j, p) held, so rows above j are kept and rows j and p trade places. Pivot rows 1..j lie in range and pivots 1..j are nonzero. |
| LuSolver.LuDecompose | source/Broyden.cpp:289-346 | Fails, leaving a and indx unchanged, exactly when the input has an all-zero row. Otherwise every pivot row indx[j] lies in j..n and every pivot is nonzero. Entries outside rows and columns 1..n are untouched. |
| LuSolver.Swap | source/Broyden.cpp:357-359 | The result exchanges positions i and p and keeps every other position. |
| LuSolver.PermutedStable | source/Broyden.cpp:356-364 | Once step i has placed its entry, the later row exchanges leave position i alone. |
| LuSolver.RowSubDot | source/Broyden.cpp:360-368 | Subtracting the terms one by one removes their sum. |
| LuSolver.DotSkipZeros | source/Broyden.cpp:360-362 | Leading zeros of the vector contribute nothing to the row product; this justifies skipping them. |
| LuSolver.ForwardRow | source/Broyden.cpp:356-364 | One pass of the forward loop is exactly one step of the forward-pass specification. |
| LuSolver.ForwardStepRow | source/Broyden.cpp:356-364 | Step i solves row i of L y = P b. |
| LuSolver.ForwardPassSolves | source/Broyden.cpp:356-364 | After steps 1..i, rows 1..i of L y = P b hold, for the row exchanges of those steps. |
| LuSolver.ForwardDoneStep | source/Broyden.cpp:356-364 | One step of the forward loop carries the solved rows, the permuted tail and the leading zeros from i-1 to i. |
| LuSolver.ForwardSubstitute | source/Broyden.cpp:356-364 | The first loop of `lubksb` computes the forward-pass specification. |
| LuSolver.BackStepSolves | source/Broyden.cpp:365-369 | The division by the pivot solves row r of U x = y and keeps the rows below solved. |
| LuSolver.BackPassSolves | source/Broyden.cpp:365-369 | After the last m rows, those rows of U x = y hold and the other positions are untouched. |
| LuSolver.BackSubstitute | source/Broyden.cpp:365-369 | The second loop of `lubksb` computes the backward-pass specification. |
| LuSolver.SubtractRow | source/Broyden.cpp:360-368 | The inner loop subtracts a[i][k] b[k] for k in lo..hi-1 in order. |
| LuSolver.LuBackSubstitute | source/Broyden.cpp:351-370 | With nonzero pivots, b ends as the x with U x = y, where L y = P b for the stored row exchanges. |
| LuSolver.Unit | source/Broyden.cpp:384-385 | The unit vector is one at j and zero elsewhere. |
| LuSolver.SolveUnit | source/Broyden.cpp:384-386 | The column buffer ends holding the solution of L U x = P e_j. |
| LuSolver.StoreColumn | source/Broyden.cpp:387 | Column j of y takes the solution, and the other columns are kept. |
| LuSolver.SolvedBeforeExtend | source/Broyden.cpp:382-388 | Solving column j extends the record of solved columns. |
| LuSolver.SolveColumns | source/Broyden.cpp:382-388 | Each column j of y solves L U x = P e_j, for j = 1..n. |
| LuSolver.InverseMatrix | source/Broyden.cpp:374-392 | Fails, leaving both tables unchanged, exactly when the input has a zero row. Otherwise each column j of y solves L U x = P e_j for the factors left in a. Entries outside 1..n are untouched. |

## Left out

- Console output (`cout`, `printf`) is not modelled.
- `exit(1)` on misuse is not modelled as process exit. `TurnOn`, `TurnOff` and `Reset` return `false` instead. `CalculateNew` requires the engine to be on.
- `SetParameters` is folded into the constructor. Changing the parameters of a live engine is not modelled.
- `ReleaseMemory` and the reallocation in `PrepareArrays` are not modelled. The tables are allocated once, at their sizes, and zeroed on every `PrepareArrays`, which is the state a fresh allocation has in the source. This model does not capture use after free or the leak of `t` when `get_Betas` fails.
- Floating point is not modelled; arithmetic is on exact reals. Rounding and overflow in the sums, and the effect of `TINY` on accuracy, are not captured.
- `sqrt` is not modelled; the square root is the parameter `Root`. Its type rules out a zero root, so the division by zero that a zero square sum would cause in `add_Ds` is not modelled.
- BroydenMixing.Broyden.LargestChange: holds the square of `MaxDiff`, and `CurrentDiff` holds that square, not `MaxDiff`.
- LuSolver.RowScales: the scale is 1 / max|a|^2 rather than 1 / max|a|. Pivot choice is the same.
- LuSolver.LuDecompose: the model proves the pivots are recorded and nonzero. It does not prove that the factors satisfy P A = L U. Its partner, `LuBackSubstitute`, is stated relative to the stored factors.
- LuSolver.LuDecompose: `EliminateColumn` states Crout's equations for column j as pass j leaves it. `LuDecompose` does not carry those equations across the row exchanges of later passes, so it states only the pivots.
- BroydenMixing.Broyden.GetBetas: column j of Beta solves L U x = P e_j for the factors left in t. It is not proved that Beta is the inverse of the regularised Gram matrix, since P A = L U is not proved for t.
- LuSolver.InverseMatrix: proves that each column solves L U x = P e_j for the stored factors. It does not prove that y is the inverse of the input matrix, since P A = L U is not proved.
- The parity `d` of `ludcmp` is not modelled. It is never read.
- BroydenMixing.Broyden.CalculateNew: requires `it - LastReset <= MAX_ITS` on a later step. The source writes past its tables there.
- BroydenMixing.Broyden.CalculateNew: requires `Vnew` to be an array distinct from the engine's own tables.
- Uninitialised entries of the source's work buffers are zero in the model. This covers `t` and `col[0]`, which are never read.
- `add_As` is modelled as the code loops, over i = 1..it-1, so the diagonal entry A[it-1][it-1] is also written. Its value is real, so A stays Hermitian.
