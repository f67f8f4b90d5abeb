# MatrixTools in Dafny

A verified model of `MatrixTools`, a small Java library of integer matrix operations. The library has five operations:
- `transpose`;
- `add`, which sums a list of matrices;
- `multiply`;
- `det`, the determinant by recursive Laplace expansion along successive top rows, carrying a list of used columns and a row offset;
- `cofactor`, the matrix of signed minors.

`transpose`, `add`, `multiply` and `cofactor` each allocate a fresh two-dimensional array and fill it with nested index loops. `det` allocates no array: it only copies its list of used columns. Here each operation is a `method` over `array2<int>` with the same loops. Each method is proved equal to a pure reference function over `seq<seq<int>>`.

The project has four modules:
- `MatrixSpec` holds the reference definitions (`Transposed`, `Sum`, `Product`, `Minor`, `Det` by first-row expansion, `CofactorMatrix`) and the algebra proved about them.
- `SkipColumns` describes the recursion state of `det`: the columns that survive a skip list, and the submatrix that an expansion at row offset `v` works on.
- `MatrixTools` holds the library's operations as methods. The loop bodies of `add`, `multiply` and `cofactor`, and the body of the column loop of `det`, become methods of their own, mainly to keep the verification small. The other loops stay inside their method.
- `KnownDeterminants` derives, from `Det`, the determinants that the library's tester expects for its samples up to 4 x 4.

Failures the library raises as `MatrixException` become `Failure(e)` values of a `Result` datatype. Integers are mathematical.

## Model

| member | source | states |
|---|---|---|
| MatrixTools.Transpose | src/MatrixTools.java:14-28 | the result is a fresh `m[0].length x m.length` array with `t[j][i] == m[i][j]` for every cell, i.e. the reference `Transposed` of the input |
| MatrixSpec.TransposeInvolution | src/MatrixTools.java:14-28 | transposing twice gives back the original matrix |
| MatrixTools.Add | src/MatrixTools.java:33-52 | fails with EmptyList exactly when the list is empty; otherwise a fresh array shaped like the first matrix whose cells are the cell-wise sums of the whole list, in list order |
| MatrixTools.AddRow | src/MatrixTools.java:44-48 | one pass of the middle loop fills row i with the list's cell sums and leaves every other row alone |
| MatrixTools.AddCell | src/MatrixTools.java:45-47 | the innermost loop adds cell (i, j) of every matrix of the list to temp[i][j] and touches no other cell |
| MatrixSpec.SumOfOne | src/MatrixTools.java:40-49 | adding a one-element list gives a copy of its matrix |
| MatrixSpec.SumOfTwo | src/MatrixTools.java:43-49 | adding two matrices adds them cell by cell |
| MatrixSpec.SumConcat | src/MatrixTools.java:45-47 | the sum of a concatenated list is the cell-wise sum of the two partial sums |
| MatrixTools.Multiply | src/MatrixTools.java:60-87 | fails with Incompatible exactly when `m1[0].length != m2.length`; otherwise a fresh `m1.length x m2[0].length` array equal to the product, whose cell (i, j) is the sum over k of `m1[i][k] * m2[k][j]` |
| MatrixTools.MultiplyRow | src/MatrixTools.java:75-83 | one pass of the middle loop fills row i with row i of m1 times every column of m2 and leaves every other row alone |
| MatrixTools.MultiplyCell | src/MatrixTools.java:78-82 | the innermost loop adds row i of m1 times column j of m2 to temp[i][j] and touches no other cell |
| MatrixSpec.ProductTransposed | src/MatrixTools.java:60-87 | the product satisfies `(A B)^T == B^T A^T` |
| MatrixSpec.ProductIdentity | src/MatrixTools.java:60-87 | multiplying by the identity matrix on the right changes nothing |
| MatrixTools.Determinant | src/MatrixTools.java:94-109 | TooSmall for 0 x 0 and 1 x 1 input; NotSquare when the rows are not as long as the matrix is high; otherwise the determinant of the whole matrix, by starting the recursion with nothing skipped at offset 0 |
| MatrixTools.DetSkipping | src/MatrixTools.java:118-164 | with `skipCols` holding `vOffset` distinct in-range columns, the result is the determinant of the submatrix made of rows `vOffset..` and the columns not in `skipCols`; the sign follows the count of unskipped columns, zero entries are skipped without changing the sum, and the caller's list is left as it was |
| MatrixTools.LastTwoRows | src/MatrixTools.java:120-139 | the base case: with two rows left, it finds the two unskipped columns and returns the 2 x 2 determinant of the remaining submatrix |
| MatrixTools.TopRowTerm | src/MatrixTools.java:148-157 | the term of the unskipped column i, the count-th remaining one, is `sign(count) * m[v][i]` times the determinant of the submatrix one row lower with i skipped too; not recursing on a zero entry gives the same value |
| SkipColumns.BaseCase | src/MatrixTools.java:123-138 | the first two unskipped columns c1 < c2 are all that remain, and `m[v][c1]*m[v+1][c2] - m[v][c2]*m[v+1][c1]` is the determinant of that submatrix |
| MatrixSpec.NonzeroExpansionIsExpansion | src/MatrixTools.java:148-157 | leaving out the zero entries of the first row, without evaluating their minors, gives the same expansion as summing every term |
| SkipColumns.ExpansionStep | src/MatrixTools.java:146-160 | one step of the loop: when the unskipped column i is the count-th remaining column, count + 1 columns remain up to i, and adding `sign(count) * m[v][i] * det(deeper submatrix)` extends the first-row expansion of the submatrix by one term |
| SkipColumns.PushPosition | src/MatrixTools.java:152-156 | pushing an unskipped column onto the skip list deletes exactly its position from the remaining columns |
| SkipColumns.PushBounds | src/MatrixTools.java:152-155 | the pushed list is still a list of distinct in-range columns, and the column's position is in range |
| SkipColumns.UnskippedPush | src/MatrixTools.java:146-156 | skipping one more unskipped column c splits the remaining columns around c and then drops c |
| SkipColumns.UnskippedLength | src/MatrixTools.java:118-139 | skipping v distinct in-range columns of n leaves exactly n - v, so two remain when the base case fires |
| SkipColumns.Remaining | src/MatrixTools.java:146-148 | the columns an expansion still sees are n - \|skipCols\| in-range indices |
| SkipColumns.SubMatrix | src/MatrixTools.java:118-164 | the submatrix of the recursion has one row per row from the offset down and one column per remaining column, and cell (a, b) is `m[v+a][cols[b]]` |
| SkipColumns.SubMatrixMinor | src/MatrixTools.java:152-155 | the minor of a submatrix by its top row and k-th column is the submatrix one row lower with the k-th remaining column skipped |
| SkipColumns.SubMatrixWhole | src/MatrixTools.java:108 | at offset 0 with nothing skipped, the submatrix is the whole matrix |
| MatrixSpec.Det2 | src/MatrixTools.java:138 | the determinant of a 2 x 2 matrix is `a*d - b*c` |
| MatrixSpec.Det3 | src/MatrixTools.java:141-163 | the expansion of a 3 x 3 matrix is the rule of Sarrus |
| MatrixSpec.DetTransposed2 | src/MatrixTools.java:94-109 | a 2 x 2 matrix and its transpose have the same determinant |
| MatrixSpec.DetTransposed3 | src/MatrixTools.java:94-109 | a 3 x 3 matrix and its transpose have the same determinant |
| MatrixSpec.DetProduct2 | src/MatrixTools.java:94-109 | the determinant of a product of 2 x 2 matrices is the product of their determinants |
| MatrixTools.Cofactor | src/MatrixTools.java:169-232 | the same failures as Determinant; otherwise a fresh n x n array whose cell (i, j) is `(-1)^(i+j)` times the determinant of the minor without row i and column j; the input is never written |
| MatrixSpec.Cofactor2 | src/MatrixTools.java:184-189 | for a 2 x 2 matrix `[[a,b],[c,d]]` the cofactor matrix is exactly `[[d,-c],[-b,a]]`, so the explicit shortcut agrees with the general case |
| MatrixSpec.CofactorRowZero | src/MatrixTools.java:169-232 | weighting the first row by its cofactors gives back the determinant (Laplace expansion by cofactors) |
| MatrixTools.CofactorRow | src/MatrixTools.java:195-229 | one pass of the outer loop fills row i with the cofactors of row i and changes no other row; before output column j, the buffer holds the minor without row i and column j |
| MatrixTools.MinorBuffer | src/MatrixTools.java:199-208 | the buffer built for row i is a fresh (n-1) x (n-1) array holding the minor without row i and column 0 |
| MatrixTools.SlideMinor | src/MatrixTools.java:221-227 | overwriting buffer column j with column j of m, row i left out, turns the minor without column j into the minor without column j + 1 |
| MatrixTools.FirstMinor | src/MatrixTools.java:201-207 | a buffer whose cell (a, b) is `m[a + (a >= i ? 1 : 0)][b + 1]` holds the minor without row i and column 0 |
| MatrixTools.SlidBufferHoldsMinor | src/MatrixTools.java:220-227 | a buffer that holds the minor without column j except in column j, where it holds column j of m without row i, holds the minor without column j + 1 |
| MatrixTools.SignedMinorDet | src/MatrixTools.java:213 | the value stored at (i, j) is the cofactor `(-1)^(i+j) * det(Minor(m, i, j))` |
| MatrixTools.BufferCofactor | src/MatrixTools.java:210-213 | a buffer holding the minor without row i and column j has that minor's contents, and its signed determinant is cofactor (i, j) |
| KnownDeterminants.MinorSarrus | src/MatrixToolsTester.java:66-73 | a minor of a 4 x 4 matrix by its first row has the determinant given by the rule of Sarrus on the three other columns |
| KnownDeterminants.Det4 | src/MatrixToolsTester.java:66-73 | a 4 x 4 determinant is the alternating sum of its first-row entries times their minors' determinants |
| KnownDeterminants.KnownDet1 | src/MatrixToolsTester.java:63 | `det [[1,0],[-1,2]] == 2` |
| KnownDeterminants.KnownDet2 | src/MatrixToolsTester.java:64 | `det [[-1,2,5],[1,0,-2],[1,1,3]] == -7` |
| KnownDeterminants.KnownDet3 | src/MatrixToolsTester.java:65 | `det [[1,2,3],[2,3,4],[3,4,5]] == 0` |
| KnownDeterminants.KnownDet4 | src/MatrixToolsTester.java:66 | `det [[5,8,9,0],[-2,4,-1,7],[8,1,0,2],[5,3,6,6]] == -3385` |
| KnownDeterminants.KnownDet5 | src/MatrixToolsTester.java:67 | `det [[-8,5,-4,0],[2,-9,7,-9],[2,0,-9,5],[0,-6,-1,3]] == -4340` |
| KnownDeterminants.KnownDet6 | src/MatrixToolsTester.java:68 | `det [[-1,-5,3,0],[8,4,-7,2],[9,7,1,0],[-4,-7,8,-4]] == -1024` |
| KnownDeterminants.KnownDet7 | src/MatrixToolsTester.java:69 | `det [[1,1,8,-6],[6,0,-1,8],[-3,0,8,8],[8,6,-6,9]] == -5769` |
| KnownDeterminants.KnownDet8 | src/MatrixToolsTester.java:70 | `det [[8,1,8,-6],[3,0,-1,8],[2,0,8,8],[-3,6,-6,9]] == -5274` |
| KnownDeterminants.KnownDet9 | src/MatrixToolsTester.java:71 | `det [[8,1,8,-6],[3,6,-1,8],[2,-3,8,8],[-3,8,-6,9]] == -3464` |
| KnownDeterminants.KnownDet10 | src/MatrixToolsTester.java:72 | `det [[8,1,1,-6],[3,6,0,8],[2,-3,0,8],[-3,8,6,9]] == -4633` |
| KnownDeterminants.KnownDet11 | src/MatrixToolsTester.java:73 | `det [[8,1,1,8],[3,6,0,-1],[2,-3,0,8],[-3,8,6,-6]] == -1213` |

## Left out

- `print` (src/MatrixTools.java:237-265) is console output with padding, so it is presentation only.
- The tester's file reading, random fixture generation, assertion printing and failure counter are not modelled. Neither are the sample and expected-result text files the tester reads, so the expected transpose, sum, product and cofactor matrices are not part of this model.
- The tester's 5 x 5 and larger expected determinants (src/MatrixToolsTester.java:74-80) are not derived. An explicit expansion of that size is beyond what the verifier handles cheaply. `DetSkipping` is proved equal to `Det` for every size.
- Java's 32-bit `int` wrap-around in the sums and products (src/MatrixTools.java:46, 81, 138, 155, 213) is not modelled: arithmetic is over mathematical integers. The library agrees with the model whenever no intermediate value overflows.
- `MatrixException` message texts are not modelled. The four failure cases are `MatrixError` values.
- Ragged arrays are not modelled. Java's `int[][]` can have rows of different lengths, while `array2<int>` is always rectangular. So the per-row length check of `det` and `cofactor` becomes one comparison of the column count with the row count.
- Transpose: requires at least one row. The library reads `m[0].length` and fails with an array index exception on an empty array, an error the library does not report itself.
- Add: requires a first matrix with at least one row and, when it has columns, later matrices at least as large as the first. The library reads only the first matrix's shape and never checks the others; a smaller one fails with an array index exception and a larger one has its extra cells ignored, as in the model. When the first matrix has no columns, no cell is read and the later matrices may have any shape, in the library and in the model alike.
- Multiply: requires m1 to have a row, and m2 to have a row when the shapes agree, for the same reason as Transpose.
- Determinant: the running time of the expansion is not modelled, and neither is the saving of the zero-entry skip or of the sliding buffer. Only their values are.
- DetSkipping: the `ArrayList` skip list is a sequence value. The source copies it into `temp`, pushes the column before each recursive call and pops it after. In the model the recursive call receives `skipCols + [i]`, so the caller's list is unchanged by construction, rather than by the pop restoring a shared list. The body of the column loop is the separate method TopRowTerm.
- DetTransposed2, DetTransposed3 and DetProduct2 state `det(A^T) == det(A)` and `det(AB) == det(A) det(B)` only for 2 x 2 (and 3 x 3 for the transpose), not for every size. The general results need a separate development of `Det` as a multilinear, alternating function of the rows, which the library's algorithm does not use.
- Cofactor: the source's zero-initialisation of the `cofactors` array is not relied on, since every cell is written.
