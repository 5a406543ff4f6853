# S21Matrix in Dafny

This project models `S21Matrix`, a dense `rows x cols` matrix of doubles
written in C++. The model proves that each operation computes the formula
the source implements, stated as pure functions over grids. Beyond that it
proves a few algebraic facts, listed below. The class owns a row-pointer
buffer and provides:

- construction, deep copy and move, where a move leaves the source 0 x 0;
- bounds-checked element access;
- resizing that keeps the shared top-left block;
- cell-wise sum, difference and scalar product;
- the matrix product;
- transpose and minor extraction;
- a determinant by cofactor expansion along the first row;
- the cofactor matrix and the inverse through the adjugate;
- operator forms of all of the above.

Files:

- `errors.dfy` (module `MatrixErrors`): the error kinds that stand in for
  the C++ exceptions. `Result<T>` covers operations that return a value and
  `Outcome` covers `void` operations.
- `spec.dfy` (module `MatrixSpec`): what the operations mean, as pure
  functions over grids (`seq<seq<real>>`). Its lemmas cover:
  - inverse pairs: subtraction undoes addition, transposing twice restores
    the matrix, and shrinking back after growing restores it;
  - the identity: the right identity of the product, and `Det(I) = 1` at
    every size;
  - small closed forms: the 2 x 2 and 3 x 3 determinants, the 2 x 2
    cofactor matrix, and `M * Inverse(M) = I` for 1 x 1 and 2 x 2;
  - the as-written forms of two defects (see "## Findings").
- `matrix.dfy` (module `MatrixOop`): class `Matrix` with the source's
  fields:
  - `rows` and `cols`;
  - `data`, an `array2<real>` for the buffer;
  - a ghost `Contents` grid that `Valid()` ties to `data`.

  Every method has the source's loops, with invariants. Its contract gives
  the new state, the result, or both, in terms of the `MatrixSpec`
  functions. It also lists the error cases.
- `scenarios.dfy` (module `MatrixScenarios`): the test suite's worked
  examples, proved over the specification and over the class. They include
  the 4 x 4 determinant of -578, the singular matrices, the 3 x 2 by 2 x 4
  product, the cofactor matrices, and resizing.

## Model

| member | source | states |
|---|---|---|
| MatrixOop.Matrix.Empty | src/s21_matrix_oop.cc:3-6 | The default matrix is 0 x 0, holds no cells, and has a (empty) buffer of its own, so the in-place operations apply to it. |
| MatrixOop.Matrix.Sized | src/s21_matrix_oop.cc:8-12 | A sized matrix has exactly the requested shape, every cell 0, and a buffer of its own. |
| MatrixOop.Matrix.Create | src/s21_matrix_oop.cc:8-12 | Construction fails with InvalidDimension iff a dimension is negative. Otherwise it yields a fresh `r x c` matrix of zeros. |
| MatrixOop.Matrix.CopyCells | src/s21_matrix_oop.cc:16-21 | After the copy loop, every cell of the destination equals the same cell of the source. |
| MatrixOop.Matrix.Copy | src/s21_matrix_oop.cc:14-22 | The copy has the same shape and cells as the original, in a fresh buffer. |
| MatrixOop.Matrix.Take | src/s21_matrix_oop.cc:24-28 | The new matrix takes over the other's shape, cells and buffer. The other is left a valid 0 x 0 matrix with a fresh empty buffer, usable afterwards. |
| MatrixOop.Matrix.Assign | src/s21_matrix_oop.cc:160-173 | After copy assignment this matrix has the other's shape and cells; it gets a fresh buffer unless it is the same object. Self-assignment keeps the shape, cells and buffer. |
| MatrixOop.Matrix.MoveAssign | src/s21_matrix_oop.cc:175-183 | After move assignment this matrix has the other's shape, cells and buffer. A distinct source is left a valid 0 x 0 matrix with a fresh empty buffer. Self-move changes nothing. |
| MatrixOop.Matrix.At | src/s21_matrix_oop.cc:212-217 | Reading fails with IndexOutOfRange iff the index lies outside the shape (negative indices included; see Findings). Otherwise it returns that cell. |
| MatrixOop.Matrix.Set | src/s21_matrix_oop.cc:205-210 | Writing fails iff the index lies outside the shape, and then changes nothing. Otherwise exactly cell (row, col) changes; the shape and buffer stay. |
| MatrixSpec.Zero | src/s21_matrix_oop.cc:279-282 | The cells of a freshly allocated `r x c` buffer: an `r x c` grid (all 0; see Left out). |
| MatrixSpec.UpdateOnlyThatCell | src/s21_matrix_oop.cc:205-210 | A write through element access changes that cell and no other. |
| MatrixOop.Matrix.EqMatrix | src/s21_matrix_oop.cc:32-42 | The result is true iff the shapes agree and every pair of cells differs by at most 1e-7. |
| MatrixSpec.Near | src/s21_matrix_oop.cc:37 | Two cells differ by at most the 1e-7 tolerance. |
| MatrixSpec.Close | src/s21_matrix_oop.cc:35-40 | Every pair of corresponding cells of two same-shaped grids is Near. |
| MatrixSpec.CloseReflexive | src/s21_matrix_oop.cc:32-42 | Every matrix is within tolerance of itself. |
| MatrixSpec.CloseSymmetric | src/s21_matrix_oop.cc:32-42 | Tolerance equality does not depend on the order of the operands. |
| MatrixSpec.Abs | src/s21_matrix_oop.cc:277 | The absolute value is non-negative and equals the value or its negation. |
| MatrixOop.Matrix.SumMatrix | src/s21_matrix_oop.cc:44-52 | On a shape mismatch it fails and leaves the matrix untouched. Otherwise each cell becomes the sum of the two cells, with the shape and buffer kept. |
| MatrixOop.Matrix.SubMatrix | src/s21_matrix_oop.cc:54-62 | On a shape mismatch it fails and leaves the matrix untouched. Otherwise each cell becomes the difference of the two cells, with the shape and buffer kept. |
| MatrixSpec.Add | src/s21_matrix_oop.cc:47-51 | The cell-wise sum; it has the shape of its operands. |
| MatrixSpec.Sub | src/s21_matrix_oop.cc:57-61 | The cell-wise difference; it has the shape of its operands. |
| MatrixSpec.SubUndoesAdd | src/s21_matrix_oop.cc:44-62 | Subtracting what was added gives back the original matrix. |
| MatrixSpec.AddCommutes | src/s21_matrix_oop.cc:44-52 | Cell-wise addition is commutative. |
| MatrixOop.Matrix.MulNumber | src/s21_matrix_oop.cc:64-67 | Every cell is multiplied by the scalar; the shape and buffer are kept. |
| MatrixSpec.Scale | src/s21_matrix_oop.cc:64-67 | Every cell times the scalar; the shape is kept. |
| MatrixSpec.ScaleComposes | src/s21_matrix_oop.cc:64-67 | Scaling by x and then by y is scaling by x * y, and scaling by 1 changes nothing. |
| MatrixOop.Matrix.RowTimesColumn | src/s21_matrix_oop.cc:75-79 | The innermost product loop yields the dot product of row `row` and column `col`. |
| MatrixOop.Matrix.MulMatrix | src/s21_matrix_oop.cc:69-84 | It fails, leaving the matrix untouched, iff `cols != other.rows`. Otherwise the matrix becomes `rows x other.cols` in a fresh buffer, each cell the dot product of a row and a column. |
| MatrixSpec.Dot | src/s21_matrix_oop.cc:77-79 | The sum of the products u[k] * v[k], accumulated from k = 0 upwards as the innermost loop does. |
| MatrixSpec.Mul | src/s21_matrix_oop.cc:69-84 | The product grid: `|a| x p`, cell (i, j) the Dot of row i and column j. |
| MatrixSpec.MulIdentityRight | src/s21_matrix_oop.cc:69-84 | Multiplying by the identity on the right gives the matrix back. |
| MatrixSpec.MulTwo | src/s21_matrix_oop.cc:69-84 | The product of two 2 x 2 matrices, written out cell by cell. |
| MatrixOop.Matrix.Transpose | src/s21_matrix_oop.cc:86-94 | The result is a fresh `cols x rows` matrix with cell (j, i) equal to cell (i, j) of this one (corrected form; see Findings). |
| MatrixSpec.Transposed | src/s21_matrix_oop.cc:86-94 | The transpose has `c` rows of `|m|` cells, with cell (i, j) equal to m[j][i]. |
| MatrixSpec.TransposeInvolutive | src/s21_matrix_oop.cc:86-94 | Transposing twice restores the original matrix. |
| MatrixSpec.TransposeAsWritten | src/s21_matrix_oop.cc:86-94 | The transpose as the source writes it: a `rows x cols` buffer, so any buffer it fills has the input's shape, not the transposed shape; it overruns when some (col, row) falls outside. |
| MatrixSpec.TransposeAsWrittenSquare | src/s21_matrix_oop.cc:86-94 | On square input the transpose as written agrees with the true transpose. |
| MatrixSpec.TransposeAsWrittenOverruns | src/s21_matrix_oop.cc:86-94 | On every non-empty non-square input the transpose as written stores a cell outside its buffer. |
| MatrixSpec.TransposeAsWrittenKeepsShape | src/s21_matrix_oop.cc:86-94 | The transpose as written gives a 0 x 3 matrix the shape 0 x 3, where the transpose is 3 x 0. |
| MatrixOop.Matrix.GetMinor | src/s21_matrix_oop.cc:258-273 | For a square matrix the minor is a fresh (n-1) x (n-1) matrix. Its cell (i, j) is the source cell at (i + [i >= r], j + [j >= c]). |
| MatrixOop.Matrix.CopyMinorRow | src/s21_matrix_oop.cc:260-271 | One pass of the column loop with the source's wrap-around cursor. It fills row `i` of the minor from source row `row` without column `c` and advances the cursor one row; on the deleted row it writes nothing. |
| MatrixSpec.Minor | src/s21_matrix_oop.cc:258-273 | A minor is square, one smaller, and takes cell (i, j) from (Skip(i, r), Skip(j, c)). |
| MatrixSpec.Sign | src/s21_matrix_oop.cc:275 | The sign of an index is +1 or -1. |
| MatrixSpec.Det | src/s21_matrix_oop.cc:242-256 | The determinant as DeterminantHelper computes it: 1 for 0 x 0, the entry for 1 x 1, ad - cb for 2 x 2, and the row-0 expansion above that. Its properties are the lemmas DetTwo, DetThree and DetIdentity. |
| MatrixSpec.Expansion | src/s21_matrix_oop.cc:248-254 | The running sum of the row-0 expansion after `k` passes of the loop. |
| MatrixSpec.ExpansionTerm | src/s21_matrix_oop.cc:253 | One term of the expansion: MatrixPow(col) times the entry times the determinant of its minor. |
| MatrixOop.Matrix.Determinant | src/s21_matrix_oop.cc:111-114 | It fails with NotSquare iff the matrix is not square. Otherwise it returns `Det` of the cells. |
| MatrixOop.Matrix.DeterminantHelper | src/s21_matrix_oop.cc:242-256 | The base cases and the expansion loop over row 0 compute `Det` of the cells. |
| MatrixOop.Matrix.MinorDeterminant | src/s21_matrix_oop.cc:250-253 | Taking a minor and then its determinant yields `Det` of that minor. |
| MatrixSpec.ExpansionStep | src/s21_matrix_oop.cc:248-254 | Unfolding lemma for `Expansion`, used by the loop proof: each pass of the expansion loop adds the signed entry times its minor's determinant. |
| MatrixSpec.ExpansionIsDet | src/s21_matrix_oop.cc:248-255 | Unfolding lemma for `Det`: from size 3 up, the full expansion along row 0 is the determinant. |
| MatrixSpec.DetTwo | src/s21_matrix_oop.cc:246-247 | The determinant of a 2 x 2 matrix is ad - bc. |
| MatrixSpec.DetThree | src/s21_matrix_oop.cc:242-256 | The expansion gives the rule of Sarrus on every 3 x 3 matrix. |
| MatrixSpec.MinorOfIdentity | src/s21_matrix_oop.cc:258-273 | Deleting row 0 and column 0 of the identity leaves the identity. |
| MatrixSpec.ExpansionOfIdentity | src/s21_matrix_oop.cc:248-254 | Along row 0 of the identity, only the first term of the expansion is non-zero. |
| MatrixSpec.DetIdentity | src/s21_matrix_oop.cc:242-256 | The identity has determinant 1 at every size, 0 x 0 included. |
| MatrixOop.Matrix.Complement | src/s21_matrix_oop.cc:101-105 | One pass of the cofactor loop yields entry (row, col) of the cofactor matrix. |
| MatrixSpec.CofactorEntry | src/s21_matrix_oop.cc:101-105 | Unfolding lemma for `Cofactors`: entry (i, j) is the minor's determinant times the sign of i + j. |
| MatrixOop.Matrix.CalcComplements | src/s21_matrix_oop.cc:96-109 | It fails with NotSquare iff the matrix is not square or has size below 2. Otherwise it returns a fresh matrix whose cell (i, j) is the signed determinant of minor (i, j). |
| MatrixSpec.Cofactors | src/s21_matrix_oop.cc:96-109 | The cofactor grid of a square matrix: same size, cell (i, j) the determinant of minor (i, j) times the sign of i + j. |
| MatrixSpec.CofactorsTwo | src/s21_matrix_oop.cc:96-109 | The cofactor matrix of [[a, b], [c, d]] is [[d, -c], [-b, a]]. |
| MatrixOop.Matrix.InverseMatrix | src/s21_matrix_oop.cc:116-130 | A non-square matrix fails with NotSquare. A square matrix succeeds exactly when `Inverse` does, with its value in a fresh matrix that has a buffer of its own; otherwise it fails with `Inverse`'s error. |
| MatrixSpec.Inverse | src/s21_matrix_oop.cc:116-130 | The inverse exists iff the matrix is non-empty with a non-zero determinant; the result is square of the same size. The 0 x 0 matrix fails with NotSquare; a zero determinant fails with SingularMatrix. |
| MatrixSpec.InverseOneByOne | src/s21_matrix_oop.cc:122-125 | The 1 x 1 inverse times the matrix is the identity. |
| MatrixSpec.InverseByCofactors | src/s21_matrix_oop.cc:126-129 | Unfolding lemma for `Inverse`: from size 2 up, the inverse is the transposed cofactor matrix scaled by 1 / Det. |
| MatrixSpec.InverseTwoEntries | src/s21_matrix_oop.cc:116-130 | The 2 x 2 inverse is [[d, -b], [-c, a]] / (ad - bc). |
| MatrixSpec.InverseTwoByTwo | src/s21_matrix_oop.cc:116-130 | Every invertible 2 x 2 matrix times its inverse is the identity. |
| MatrixOop.Matrix.SetSize | src/s21_matrix_oop.cc:227-240 | It fails with InvalidDimension, changing nothing, iff a dimension is not positive. Otherwise the matrix becomes `r x c` in a fresh buffer, keeping the shared top-left block and zeroing new cells. |
| MatrixOop.Matrix.SetRows | src/s21_matrix_oop.cc:225 | It fails iff the new row count is not positive or the matrix has no columns. Otherwise it resizes to `r x cols`. |
| MatrixOop.Matrix.SetCols | src/s21_matrix_oop.cc:223 | It fails iff the new column count is not positive or the matrix has no rows. Otherwise it resizes to `rows x c`. |
| MatrixSpec.Resized | src/s21_matrix_oop.cc:227-240 | The `r2 x c2` grid SetSize leaves: the shared top-left block of the old grid, 0 elsewhere. |
| MatrixSpec.ResizeRoundTrip | src/s21_matrix_oop.cc:227-240 | Growing a matrix and shrinking it back to its old shape restores it. |
| MatrixSpec.ResizeSameShape | src/s21_matrix_oop.cc:227-240 | Resizing to the current shape changes nothing. |
| MatrixOop.Matrix.Plus | src/s21_matrix_oop.cc:132-136 | `+` fails iff the shapes differ. Otherwise it returns a fresh matrix, with a buffer of its own, of cell-wise sums; this matrix is untouched. |
| MatrixOop.Matrix.Minus | src/s21_matrix_oop.cc:138-142 | `-` fails iff the shapes differ. Otherwise it returns a fresh matrix, with a buffer of its own, of cell-wise differences. |
| MatrixOop.Matrix.Times | src/s21_matrix_oop.cc:144-148 | Matrix `*` fails iff `cols != other.rows`. Otherwise it returns a fresh product matrix with a buffer of its own. |
| MatrixOop.Matrix.TimesNumber | src/s21_matrix_oop.cc:150-154 | Scalar `*` returns a fresh matrix, with a buffer of its own, with every cell scaled. |
| MatrixOop.Matrix.Equals | src/s21_matrix_oop.cc:156 | `==` holds iff the shapes agree and all cells are within tolerance. |
| MatrixOop.Matrix.NotEquals | src/s21_matrix_oop.cc:158 | `!=` is the negation of `==`. |
| MatrixOop.Matrix.AddAssign | src/s21_matrix_oop.cc:185-188 | `+=` behaves exactly as SumMatrix. |
| MatrixOop.Matrix.SubAssign | src/s21_matrix_oop.cc:190-193 | `-=` behaves exactly as SubMatrix. |
| MatrixOop.Matrix.MulAssign | src/s21_matrix_oop.cc:195-198 | Matrix `*=` behaves exactly as MulMatrix. |
| MatrixOop.Matrix.MulAssignNumber | src/s21_matrix_oop.cc:200-203 | Scalar `*=` behaves exactly as MulNumber. |
| MatrixSpec.AccessGuardAsWritten | src/s21_matrix_oop.cc:206 | The element-access guard as written: it accepts every cell of the matrix. |
| MatrixSpec.AccessGuardOnNaturals | src/s21_matrix_oop.cc:206 | On non-negative indices, the as-written guard accepts exactly the cells of the matrix. |
| MatrixSpec.AccessGuardAdmitsNegative | src/s21_matrix_oop.cc:206 | Row -1 passes the as-written guard but names no cell. |
| MatrixScenarios.FourByFourMinors | src/s21_matrix_oop_test.cc:154-176 | The minors along row 0 of the test's 4 x 4 matrix have determinants -80, -44, 5 and -11. |
| MatrixScenarios.FourByFourDeterminant | src/s21_matrix_oop_test.cc:154-176 | The test's 4 x 4 matrix has determinant -578. |
| MatrixScenarios.SmallDeterminants | src/s21_matrix_oop_test.cc:178-197 | The 0 x 0 determinant is 1, [[10]] gives 10, and [[1.1, 3.5], [-2, 4]] gives 11.4. |
| MatrixScenarios.SingularMatricesHaveNoInverse | src/s21_matrix_oop_test.cc:265-294 | Both singular test matrices have determinant 0, and inverting them fails with SingularMatrix. |
| MatrixScenarios.InverseOfFive | src/s21_matrix_oop_test.cc:258-263 | The inverse of [[5]] is [[0.2]]. |
| MatrixScenarios.TransposeTwoByTwo | src/s21_matrix_oop_test.cc:301-314 | [[1, 2], [4, 3]] transposes to [[1, 4], [2, 3]]. |
| MatrixScenarios.ComplementsTwoByTwo | src/s21_matrix_oop_test.cc:316-324 | The cofactors of [[50, -2], [0, 35]] are [[35, 0], [2, 50]]. |
| MatrixScenarios.MinorOfThree | src/s21_matrix_oop_test.cc:326-336 | Each 2 x 2 minor of a 3 x 3 matrix has the determinant of the four cells it keeps. |
| MatrixScenarios.ComplementsThreeByThree | src/s21_matrix_oop_test.cc:326-336 | The cofactors of [[1, 2, 3], [0, 4, 2], [5, 2, 1]] are [[0, 10, -20], [4, -14, 8], [-8, -2, 4]]. |
| MatrixScenarios.DotOfPairs | src/s21_matrix_oop.cc:75-79 | The product loop over two cells gives u0 v0 + u1 v1. |
| MatrixScenarios.ProductThreeByFour | src/s21_matrix_oop_test.cc:498-515 | The 3 x 2 by 2 x 4 product of the test is [[4, 5, 6, 7], [12, 17, 22, 27], [20, 29, 38, 47]]. |
| MatrixScenarios.ResizeKeepsWrittenCells | src/s21_matrix_oop_test.cc:48-61 | After growing a 2 x 3 matrix to 4 x 3, the cell written before still reads 2.2 and the new cell reads 1.2. |
| MatrixScenarios.EmptyMatrixRejectsSetRows | src/s21_matrix_oop_test.cc:11-14 | SetRows on a default-constructed matrix fails with InvalidDimension. |
| MatrixScenarios.ScaleOneCell | src/s21_matrix_oop_test.cc:541-546 | A cell holding 1.1, times 2, reads 2.2 in the new matrix. |
| MatrixScenarios.CopyIsEqual | src/s21_matrix_oop.cc:14-42 | Every matrix compares equal to its deep copy. |
| MatrixScenarios.ResultOwnsItsBuffer | src/s21_matrix_oop.cc:150-154 | Writing to the matrix that scalar `*` returns leaves the operand's cell at 1.1. |
| MatrixScenarios.MovedFromIsUsable | src/s21_matrix_oop.cc:24-28 | A moved-from matrix (by construction or by assignment) can be scaled, equals a default matrix, and can be resized again. |
| MatrixScenarios.AddThenSubtract | src/s21_matrix_oop.cc:185-193 | `+=` then `-=` with the same matrix restores the original cells. |

## Left out

- The destructor, `FreeMemory` and `MemoryAllocation` (src/s21_matrix_oop.cc:30, 279-291) are left out. Dafny arrays are garbage collected, and a "released" matrix is modelled as 0 x 0.
- The `delete` versus `delete[]` mismatch in `FreeMemory` is not modelled, for the same reason.
- `GetRows` and `GetCols` (src/s21_matrix_oop.cc:219-221) are not separate members; the model reads the `rows` and `cols` fields directly.
- `MatrixPow` and `Fabs` are modelled as the functions `MatrixSpec.Sign` and `MatrixSpec.Abs`.
- Cells are exact reals, not IEEE doubles. This leaves out:
  - rounding;
  - NaN and infinity;
  - the `EXPECT_DOUBLE_EQ` fractional inverse checks;
  - division by a zero double.

  The 1e-7 tolerance of `EqMatrix` is kept exactly.
- Exception classes and messages become the error kinds of `MatrixErrors.Error`.
- Fresh cells: `new double[cols_]` leaves them indeterminate, but the model starts every fresh buffer at 0, as the tests expect. `MulMatrix` accumulates with `+=` into such a buffer, and `SetSize` leaves new cells as they come. The model's results for both therefore assume zeroed memory.
- `SetSize` copies `*this` into a temporary before it frees the buffer. The model reads the old buffer directly; it is the same data.
- MatrixOop.Matrix.GetMinor: requires a square matrix. The source wraps its write cursor after `rows_ - 1` cells, which is the minor's width only for square input, and every caller passes a square matrix.
- MatrixOop.Matrix.Transpose: models the intended `cols x rows` result rather than the source's out-of-bounds writes. The as-written behaviour is `MatrixSpec.TransposeAsWritten` (see Findings).
- MatrixOop.Matrix.At: rejects negative indices, which the source does not check (see Findings).
- MatrixOop.Matrix.Set: rejects negative indices, which the source does not check (see Findings).
- Aliasing: `Valid()` does not forbid two `Matrix` objects from sharing one buffer. A write through one leaves the other's `Contents` stale, so the other is no longer `Valid()`.
- MatrixSpec.InverseTwoByTwo: `M * Inverse(M) = I` is proved for 1 x 1 and 2 x 2 matrices only. The general case needs the adjugate theorem.
- Loop refactoring: several inner loops are separate methods in the model:
  - the dot product is `RowTimesColumn`;
  - the column loop of `GetMinor` is `CopyMinorRow`;
  - the minor-and-determinant step is `MinorDeterminant`;
  - the cofactor body is `Complement`.

  Each keeps the source's loop structure.

## Findings

| source | as written | input that shows it | evidently intended | confidence | as-written member | corrected member |
|---|---|---|---|---|---|---|
| src/s21_matrix_oop.cc:86-94 | The result is allocated `rows_ x cols_`, and cell (row, col) is stored at [col][row]. | Any non-square matrix, e.g. 2 x 3: cell (0, 2) is stored at row 2 of a 2-row buffer. | A `cols_ x rows_` result. | high; not executed | MatrixSpec.TransposeAsWrittenOverruns | MatrixOop.Matrix.Transpose |
| src/s21_matrix_oop.cc:205-217 | The guard rejects only `row >= rows_` or `col >= cols_`. | `m(-1, 0)` on a 1 x 1 matrix passes the guard and reads before the buffer. | Negative indices also fail with `std::out_of_range`. | high; not executed | MatrixSpec.AccessGuardAdmitsNegative | MatrixOop.Matrix.At, MatrixOop.Matrix.Set |

The model follows the code where its behaviour may be unexpected:

- The 0 x 0 inverse fails with NotSquare. `Determinant` returns 1, and
  `CalcComplements` then rejects the size.
- `SetRows` and `SetCols` fail on a matrix whose other dimension is 0.

The exceptions are the two defects above, which are modelled in both forms,
and fresh cells, which the model zeroes as the test suite expects.
