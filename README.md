# Kotrix core in Dafny

A model of the core of Kotrix, a Kotlin linear-algebra library. It covers
two parts of the library.

- **The dense containers.** `Matrix`, `ComplexMatrix`, the column and row
  vectors, and the N-dimensional `Tensor`/`ComplexTensor`. Each stores its
  entries in one flat row-major array, and the model covers their index
  arithmetic.
- **The elimination algorithms** built on the containers: Gaussian
  elimination (`rowEchelonForm`), the recursive determinant, the recursive
  PLU decomposition and the adjoint-based inverse.

Scalars are exact: `real` for `Double`, and a pair of reals (`ComplexNumbers`)
for `ComplexDouble` with exact `+ − × / conj`. Nothing is claimed about IEEE
rounding.

The model has two layers.

- **Values.** `Dense.Mat<T>` (rows, cols, data) and `Tensors.Tensor<T>`
  (shape, data). They are generic, because the real and complex classes share
  every structural operation. Each operation that builds a fresh array is a
  function on these values, returning `Result` for the exceptions it throws
  (`IllegalArgument` for the library's own checks, `IndexOutOfBounds` for an
  unchecked array access, `EmptyReduce` for `reduce` on an empty array).
- **Objects.** The classes whose methods write in place are classes over an
  `array`: `Storage.Matrix` and `Storage.Vector` (`set`, `setSubmatrix`,
  `setSubvector`), and `TensorStorage.TensorStore` (`set`, and `reshape`,
  which writes into the caller's `newShape`). Each is proved against the value
  function it implements, with a frame.

The loops of the algorithms are methods proved against specification
functions:

- the pivot search and elimination of `rowEchelonForm`, its zero-row test and
  its compaction;
- the pivot search of `determinant` and `plu`;
- the `var sum` loops of `times` and `dotProduct`;
- the `setSubmatrix` fills that build P, L and U.

Where the code and its documentation disagree, the model follows the code.

- `addRow`'s doc comment (real/Matrix.kt:273) describes the reverse direction.
  The code adds `fraction × src` to `dst`, and so does `AddRow`.
- `rowEchelonForm` is documented as the *reduced* echelon form, but pivot rows
  are never divided by their pivot, so the model claims an echelon form whose
  pivot columns are cleared, not leading ones.
- The PLU test and doc speak of `P·L·U = A`. The code's factors satisfy
  `P·A = L·U` instead (see Findings).

## Model

| member | source | states |
|---|---|---|
| `ComplexNumbers.Sub` | src/main/kotlin/complex/ComplexDouble.kt:30 | x − y is the number that, added to y, gives x |
| `ComplexNumbers.Scale` | src/main/kotlin/complex/ComplexDouble.kt:36 | `times(Number)` is the complex product with the real factor made complex |
| `ComplexNumbers.NormSqPositive` | src/main/kotlin/complex/ComplexDouble.kt:46 | the divisor re² + im² of `div` is 0 exactly for 0 and positive otherwise |
| `ComplexNumbers.Div` | src/main/kotlin/complex/ComplexDouble.kt:46 | x·conj(y)/(re² + im²) multiplied by y gives back x, for every y ≠ 0 |
| `ComplexNumbers.AddComm` | src/main/kotlin/complex/ComplexDouble.kt:26 | complex addition is commutative |
| `ComplexNumbers.MulComm` | src/main/kotlin/complex/ComplexDouble.kt:34 | the product (ac − bd, ad + bc) is commutative |
| `ComplexNumbers.MulAssoc` | src/main/kotlin/complex/ComplexDouble.kt:34 | the product is associative |
| `ComplexNumbers.MulAddDistr` | src/main/kotlin/complex/ComplexDouble.kt:26-34 | the product distributes over the sum |
| `ComplexNumbers.ConjInvolutive` | src/main/kotlin/complex/ComplexDouble.kt:61 | conjugating twice gives back the number |
| `ComplexNumbers.ConjMul` | src/main/kotlin/complex/ComplexDouble.kt:61 | the conjugate of a product is the product of the conjugates |
| `ComplexNumbers.MulConjIsNormSq` | src/main/kotlin/complex/ComplexDouble.kt:46 | z·conj(z) is the real number re² + im² |
| `ComplexNumbers.FromRealHom` | src/main/kotlin/complex/ComplexDouble.kt:26-48 | a real made complex (x + 0i) keeps +, −, ×, negation and division |
| `RowMajor.CellOfOffset` | src/main/kotlin/real/Matrix.kt:52 | offset r·cols + c of a cell in range gives back row r and column c |
| `RowMajor.OffsetOfCell` | src/main/kotlin/real/Matrix.kt:43-44 | every offset k < rows·cols is the offset of cell (k / cols, k % cols), which lies in the grid |
| `RowMajor.OffsetInjective` | src/main/kotlin/real/Matrix.kt:52 | distinct cells have distinct offsets |
| `Dense.Cells` | src/main/kotlin/real/Matrix.kt:42-46 | the row-major array of an index function has rows·cols entries |
| `Dense.Build` | src/main/kotlin/real/Matrix.kt:41-46 | the lambda constructor gives a rows×cols matrix whose cell (i, j) is f(i, j) |
| `Dense.Extensionality` | src/main/kotlin/real/Matrix.kt:48-54 | two matrices of one shape that agree at every `get` are equal |
| `Dense.Row` | src/main/kotlin/real/Matrix.kt:182-196 | row i has cols entries, entry j being M[i, j] |
| `Dense.Column` | src/main/kotlin/real/Matrix.kt:182-196 | column j has rows entries, entry i being M[i, j] |
| `Dense.Update` | src/main/kotlin/real/Matrix.kt:56-62 | `set(r, c, x)` succeeds exactly for 0 ≤ r < rows and 0 ≤ c < cols; it then replaces offset r·cols + c by x, and otherwise throws |
| `Dense.UpdateCells` | src/main/kotlin/real/Matrix.kt:56-62 | after `set(r, c, x)` cell (r, c) holds x and every other cell is unchanged |
| `Dense.Transpose` | src/main/kotlin/real/Matrix.kt:147-154 | the transpose is cols×rows with T[i, j] = M[j, i]; ComplexMatrix.kt:155-162 is the same code |
| `Dense.TransposeTwice` | src/main/kotlin/real/Matrix.kt:147-154 | transposing twice gives back the matrix |
| `Dense.GetSubmatrix` | src/main/kotlin/real/Matrix.kt:182-196 | succeeds exactly when 0 ≤ rs < re ≤ rows and 0 ≤ cs < ce ≤ cols, giving the (re−rs)×(ce−cs) block S[i, j] = M[rs+i, cs+j]; otherwise throws; ComplexMatrix.kt:204-228 is the same |
| `Dense.Overwrite` | src/main/kotlin/real/Matrix.kt:208-221 | the block at (rs, cs) holds `other` and every cell outside it keeps its entry |
| `Dense.SetSubmatrix` | src/main/kotlin/real/Matrix.kt:208-221 | `setSubmatrix` succeeds exactly when the block is in range and `other` has its shape, leaving `Overwrite`; otherwise throws |
| `Dense.GetAfterSet` | src/main/kotlin/real/Matrix.kt:182-221 | reading back a block just written gives `other` |
| `Dense.SetAfterGet` | src/main/kotlin/real/Matrix.kt:182-221 | writing back a block just read changes nothing |
| `Dense.MinorMatrix` | src/main/kotlin/real/Matrix.kt:231-244 | succeeds exactly when rows ≥ 2, cols ≥ 2, r < rows and c < cols, giving a (rows−1)×(cols−1) matrix; negative indices are not rejected; ComplexMatrix.kt:253-266 is the same |
| `Dense.MinorKeepsOtherCells` | src/main/kotlin/real/Matrix.kt:231-244 | every cell outside row r and column c reappears, shifted up past r and left past c |
| `Dense.MinorNegativeRow` | src/main/kotlin/real/Matrix.kt:231-244 | a negative row index removes row 0, as index 0 does |
| `Dense.SwitchRow` | src/main/kotlin/real/Matrix.kt:253-270 | succeeds exactly for two row indices in range; the result is the matrix itself when they are equal, otherwise rows r1 and r2 are exchanged and the rest kept; ComplexMatrix.kt:275-292 is the same |
| `Dense.SwitchRowTwice` | src/main/kotlin/real/Matrix.kt:253-270 | switching the same rows twice restores the matrix |
| `Dense.SwitchRowSymmetric` | src/main/kotlin/real/Matrix.kt:253-270 | the order of the two indices does not matter |
| `Dense.Concat` | src/main/kotlin/real/Matrix.kt:305-339 | dim 0 with equal cols stacks `other` below, dim 1 with equal rows places it to the right, anything else throws; ComplexMatrix.kt:327-361 is the same |
| `Dense.ConcatRowsSplits` | src/main/kotlin/real/Matrix.kt:305-321 | slicing a dim-0 concatenation at the seam gives back both operands |
| `Dense.ConcatColumnsSplits` | src/main/kotlin/real/Matrix.kt:322-339 | slicing a dim-1 concatenation at the seam gives back both operands |
| `Dense.ConcatCells` | src/main/kotlin/real/Matrix.kt:305-339 | the top or left part of a concatenation is the first operand, the rest is the second shifted back |
| `Storage.Matrix.Value` | src/main/kotlin/real/Matrix.kt:19 | the object's array and shape form a rows×cols matrix, a valid one whenever it has a row |
| `Storage.Matrix.constructor` | src/main/kotlin/real/Matrix.kt:19 | a fresh array holding the given matrix, for every matrix `Matrix(rows, cols, data)` accepts as written, zero rows included |
| `Storage.Matrix.Get` | src/main/kotlin/real/Matrix.kt:48-54 | `get(r, c)` returns `data[r·cols + c]` exactly when the cell is in range, and throws otherwise |
| `Storage.Matrix.Set` | src/main/kotlin/real/Matrix.kt:56-62 | `set` writes exactly cell (r, c) when it is in range; out of range it throws and the array is unchanged |
| `Storage.Matrix.SetSubmatrix` | src/main/kotlin/real/Matrix.kt:208-221 | on success the new value is `Overwrite` (block = `other`, every other cell kept); on a bad block or shape it throws, leaving the array unchanged |
| `Storage.WrittenAll` | src/main/kotlin/real/Matrix.kt:215-220 | once every block offset has been written, the matrix is the overwritten one |
| `Storage.Vector.constructor` | src/main/kotlin/real/ColumnVector.kt:16-21 | a fresh array holding the given entries, for every vector the constructor accepts as written: any length for a column vector, the empty one included, a positive length for a row vector (RowVector.kt:8-12) |
| `Storage.Vector.Get` | src/main/kotlin/real/ColumnVector.kt:63-69 | `get(i)` returns `data[i]` exactly for 0 ≤ i < length, and throws otherwise |
| `Storage.Vector.Set` | src/main/kotlin/real/ColumnVector.kt:71-77 | `set(i, x)` changes exactly entry i when it is in range; otherwise it throws and nothing changes |
| `Storage.Vector.SetSubvector` | src/main/kotlin/real/ColumnVector.kt:157-166 | on success [s, e) holds `other` and the rest is unchanged; a bad range or length throws and leaves the array unchanged |
| `RealMatrices.Add` | src/main/kotlin/real/Matrix.kt:70-79 | entry-wise sum of two matrices of one shape |
| `RealMatrices.Sub` | src/main/kotlin/real/Matrix.kt:81-90 | entry-wise difference; adding `b` back gives `a` |
| `RealMatrices.Scale` | src/main/kotlin/real/Matrix.kt:124-131 | every entry multiplied by the scalar |
| `RealMatrices.MatMul` | src/main/kotlin/real/Matrix.kt:92-107 | entry (i, j) of the product is row i of `a` against column j of `b` |
| `RealMatrices.RowTimesColumn` | src/main/kotlin/real/Matrix.kt:99-102 | the `var sum` loop returns Σ a[r, t]·b[t, c] |
| `RealMatrices.MatMulOffset` | src/main/kotlin/real/Matrix.kt:96-104 | offset k = r·cols + c of the product holds the sum for cell (r, c) |
| `RealMatrices.Times` | src/main/kotlin/real/Matrix.kt:92-107 | `times` succeeds exactly when a.cols = b.rows, and then equals `MatMul` |
| `RealMatrices.DotComm` | src/main/kotlin/real/ColumnVector.kt:186-194 | Σ a[i]·b[i] does not depend on the order of the factors |
| `RealMatrices.AddRow` | src/main/kotlin/real/Matrix.kt:280-296 | succeeds exactly for two distinct rows in range; row dst becomes dst + f·src and every other row is kept; src = dst throws |
| `RealMatrices.AddRowUndo` | src/main/kotlin/real/Matrix.kt:280-296 | adding −f·src afterwards restores the matrix |
| `RealMatrices.Eye` | src/main/kotlin/real/Matrix.kt:540-546 | the n×n matrix with 1 on the diagonal and 0 elsewhere |
| `RealMatrices.IdentityMatrix` | src/main/kotlin/real/Matrix.kt:540-546 | `identityMatrix(n)` succeeds exactly for n ≥ 1 and is `Eye(n)` |
| `RealMatrices.EyeTimes` | src/main/kotlin/real/Matrix.kt:540-546 | the identity is neutral on the left of a product |
| `RealMatrices.RowSwitchingMatrix` | src/main/kotlin/real/Matrix.kt:650-653 | succeeds exactly for 0 ≤ i, j < n; the identity with rows i and j exchanged; an index ≥ n throws |
| `RealMatrices.RowSwitchingTimes` | src/main/kotlin/real/Matrix.kt:650-653 | multiplying by `rowSwitchingMatrix(n, i, j)` on the left is `switchRow(i, j)` |
| `RealMatrices.PermMatrix` | src/main/kotlin/operations/PLU.kt:39-41 | the 0/1 matrix with its 1 in row i at column σ[i] |
| `RealMatrices.PermTimes` | src/main/kotlin/operations/PLU.kt:39-41 | a permutation matrix times A puts row σ[i] of A into row i |
| `ComplexMatrices.MatMul` | src/main/kotlin/complex/ComplexMatrix.kt:78-93 | entry (i, j) of the complex product is row i against column j |
| `ComplexMatrices.RowTimesColumn` | src/main/kotlin/complex/ComplexMatrix.kt:85-89 | the `var sum` loop returns Σ a[r, t]·b[t, c] |
| `ComplexMatrices.MatMulOffset` | src/main/kotlin/complex/ComplexMatrix.kt:82-90 | offset r·cols + c holds the sum for cell (r, c) |
| `ComplexMatrices.Times` | src/main/kotlin/complex/ComplexMatrix.kt:78-93 | succeeds exactly when a.cols = b.rows, and equals `MatMul` |
| `ComplexMatrices.DotComm` | src/main/kotlin/complex/ComplexColumnVector.kt:169-177 | the unconjugated sum does not depend on the order of the factors |
| `ComplexMatrices.Add` | src/main/kotlin/complex/ComplexMatrix.kt:56-65 | entry-wise sum |
| `ComplexMatrices.Sub` | src/main/kotlin/complex/ComplexMatrix.kt:67-76 | entry-wise difference; adding `b` back gives `a` |
| `ComplexMatrices.Scale` | src/main/kotlin/complex/ComplexMatrix.kt:125-132 | every entry multiplied by the complex scalar |
| `ComplexMatrices.DivideBy` | src/main/kotlin/complex/ComplexMatrix.kt:141-148 | dividing by z ≠ 0 gives the matrix that scaled by z is the original |
| `ComplexMatrices.AddRow` | src/main/kotlin/complex/ComplexMatrix.kt:302-318 | succeeds exactly for two distinct rows in range; row dst becomes dst + f·src with a real f; src = dst throws |
| `ComplexMatrices.AddRowUndo` | src/main/kotlin/complex/ComplexMatrix.kt:302-318 | adding −f·src afterwards restores the matrix |
| `ComplexMatrices.Eye` | src/main/kotlin/complex/ComplexMatrix.kt:553-560 | the complex identity of order n |
| `ComplexMatrices.IdentityMatrix` | src/main/kotlin/complex/ComplexMatrix.kt:553-560 | succeeds exactly for n ≥ 1 and is `Eye(n)` |
| `ComplexMatrices.EyeTimes` | src/main/kotlin/complex/ComplexMatrix.kt:553-560 | the identity is neutral on the left |
| `ComplexMatrices.Embed` | src/main/kotlin/real/Matrix.kt:498-500 | `toComplex()` keeps the shape and makes each entry x into x + 0i |
| `ComplexMatrices.EmbedEye` | src/main/kotlin/operations/PLU.kt:65 | the real identity made complex is the complex identity |
| `ComplexMatrices.EmbedMatMul` | src/main/kotlin/operations/PLU.kt:89 | the complex product of two real matrices is their real product made complex |
| `ComplexMatrices.EmbedDot` | src/main/kotlin/complex/ComplexMatrix.kt:85-89 | the complex sum over real entries is the real sum made complex |
| `ComplexMatrices.Conjugate` | src/main/kotlin/complex/ComplexMatrix.kt:169-176 | every entry conjugated |
| `ComplexMatrices.ConjTrans` | src/main/kotlin/complex/ComplexMatrix.kt:169-176 | `conjTrans()` is cols×rows with H[i, j] = conj(M[j, i]) |
| `ComplexMatrices.ConjTransSplits` | src/main/kotlin/complex/ComplexMatrix.kt:155-176 | the conjugate transpose is the transpose of the conjugate and the conjugate of the transpose |
| `ComplexMatrices.ConjTransTwice` | src/main/kotlin/complex/ComplexMatrix.kt:169-176 | taking it twice gives back the matrix |
| `ComplexMatrices.ConjTransOfReal` | src/main/kotlin/complex/ComplexMatrix.kt:169-176 | on a real matrix made complex it is the plain transpose |
| `Vectors.ColumnMatrix` | src/main/kotlin/real/ColumnVector.kt:16 | a column vector is the length×1 matrix over its data |
| `Vectors.RowMatrix` | src/main/kotlin/real/RowVector.kt:8 | a row vector is the 1×length matrix over its data |
| `Vectors.NewMatrixAsWritten` | src/main/kotlin/real/Matrix.kt:19 | as written: `Matrix(rows, cols, data)` succeeds exactly when rows ≥ 0, cols ≥ 1 and the data has rows·cols entries; a matrix with no rows constructs |
| `Vectors.NewColumnVectorAsWritten` | src/main/kotlin/real/ColumnVector.kt:16-21 | as written: `ColumnVector(length, data)` succeeds exactly when length ≥ 0 and the data has `length` entries |
| `Vectors.EmptyColumnVector` | src/main/kotlin/real/ColumnVector.kt:16-21 | as written, `ColumnVector(0, [])` constructs; corrected, it is rejected |
| `Vectors.ColumnVectorAgrees` | src/main/kotlin/real/ColumnVector.kt:16-21 | the column vector constructor as written and corrected agree on every nonzero length |
| `Vectors.NewVector` | src/main/kotlin/real/RowVector.kt:8-12 | `RowVector(length, data)` as written, and `ColumnVector(length, data)` corrected (ColumnVector.kt:16-21): succeeds exactly when length ≥ 1 and the data has `length` entries, and otherwise throws |
| `Vectors.RowVectorAsWritten` | src/main/kotlin/real/RowVector.kt:8-12 | the row vector constructor as written, the 1×length matrix and then the length check, is `NewVector` |
| `Vectors.NewVectorIsTensor` | src/main/kotlin/real/RowVector.kt:8-12 | a vector is accepted exactly when the tensor of shape [length, 1] or [1, length] over its data is |
| `Vectors.GetSubvector` | src/main/kotlin/real/ColumnVector.kt:137-147 | succeeds exactly when 0 ≤ s < e ≤ length, giving entries s … e−1; otherwise throws; RowVector.kt:99-109 and the complex vectors are the same |
| `Vectors.SubvectorIsSubmatrix` | src/main/kotlin/real/ColumnVector.kt:137-147 | a subvector of a column vector is the block of rows [s, e) of its length×1 matrix |
| `Vectors.Splice` | src/main/kotlin/real/ColumnVector.kt:157-166 | succeeds exactly when the range is valid and `other` has e − s entries; then [s, e) holds `other` and the rest is kept |
| `Vectors.SubvectorAfterSplice` | src/main/kotlin/real/ColumnVector.kt:137-166 | reading back what was just written gives `other` |
| `Vectors.SpliceAfterSubvector` | src/main/kotlin/real/ColumnVector.kt:137-166 | writing back what was just read changes nothing |
| `Vectors.ReplicateColumns` | src/main/kotlin/real/ColumnVector.kt:236-242 | succeeds exactly for n ≥ 1, giving the length×n matrix with offset k holding entry k / n; ComplexColumnVector.kt:219-225 is the same |
| `Vectors.ReplicatedColumns` | src/main/kotlin/real/ColumnVector.kt:236-242 | every column of the replicated matrix is the vector |
| `Vectors.ReplicateRows` | src/main/kotlin/real/RowVector.kt:160-166 | succeeds exactly for n ≥ 1, giving the n×length matrix with offset k holding entry k % length; ComplexRowVector.kt:235-241 is the same |
| `Vectors.ReplicatedRows` | src/main/kotlin/real/RowVector.kt:160-166 | every row of the replicated matrix is the vector |
| `Vectors.ReplicateColumnsConcat` | src/main/kotlin/real/ColumnVector.kt:236-242 | replicating n times is replicating n − 1 times and concatenating one more column |
| `Vectors.TransposeColumn` | src/main/kotlin/real/ColumnVector.kt:126-128 | the transpose of a length×1 matrix is the 1×length matrix over the same data |
| `Vectors.TransposeRow` | src/main/kotlin/real/RowVector.kt:95-97 | the transpose of a row vector is the column vector over the same data |
| `RealVectors.DotProduct` | src/main/kotlin/real/ColumnVector.kt:186-194 | succeeds exactly for equal lengths, returning Σ a[i]·b[i]; RowVector.kt:128-146 is the same |
| `RealVectors.CrossOf` | src/main/kotlin/real/ColumnVector.kt:218-228 | a × b has three components |
| `RealVectors.Cross` | src/main/kotlin/real/ColumnVector.kt:218-228 | succeeds exactly when both operands have length 3, and then gives the three components |
| `RealVectors.CrossSelf` | src/main/kotlin/real/ColumnVector.kt:218-228 | v × v = 0 |
| `RealVectors.CrossAntiCommutes` | src/main/kotlin/real/RowVector.kt:148-158 | b × a = −(a × b) |
| `RealVectors.CrossOrthogonal` | src/main/kotlin/real/ColumnVector.kt:218-228 | a × b is orthogonal to a and to b |
| `RealVectors.VectorTimesMatrix` | src/main/kotlin/real/RowVector.kt:66-79 | entry j of v·M is v against column j of M |
| `RealVectors.VectorTimesIsMatMul` | src/main/kotlin/real/RowVector.kt:66-79 | as a 1×n matrix, v·M is the matrix product |
| `RealVectors.ColumnSum` | src/main/kotlin/real/RowVector.kt:71-75 | the inner `var sum` loop returns v against column c |
| `RealVectors.Times` | src/main/kotlin/real/RowVector.kt:66-79 | `times(Matrix)` succeeds exactly when length = rows, giving a vector of length cols equal to `VectorTimesMatrix` |
| `ComplexVectors.DotProduct` | src/main/kotlin/complex/ComplexColumnVector.kt:169-177 | succeeds exactly for equal lengths, returning the unconjugated Σ a[i]·b[i]; ComplexRowVector.kt:185-199 is the same |
| `ComplexVectors.EmbedVector` | src/main/kotlin/complex/ComplexRowVector.kt:201-209 | a real vector made complex, entry by entry |
| `ComplexVectors.DotProductReal` | src/main/kotlin/complex/ComplexRowVector.kt:201-209 | `dotProduct(ColumnVector)` succeeds exactly for equal lengths and is the complex sum against the real vector made complex |
| `ComplexVectors.DotExample` | src/main/kotlin/complex/ComplexColumnVector.kt:169-177 | [i, 2, 3i, 4] against itself gives 10, so the sum is not conjugated |
| `ComplexVectors.CrossOf` | src/main/kotlin/complex/ComplexColumnVector.kt:201-211 | a × b has three components |
| `ComplexVectors.Cross` | src/main/kotlin/complex/ComplexColumnVector.kt:201-211 | succeeds exactly when both operands have length 3 |
| `ComplexVectors.CrossSelf` | src/main/kotlin/complex/ComplexColumnVector.kt:201-211 | v × v = 0 |
| `ComplexVectors.VectorTimesMatrix` | src/main/kotlin/complex/ComplexRowVector.kt:77-90 | entry j of v·M is v against column j |
| `ComplexVectors.VectorTimesIsMatMul` | src/main/kotlin/complex/ComplexRowVector.kt:77-90 | as a 1×n matrix, v·M is the matrix product |
| `ComplexVectors.ColumnSum` | src/main/kotlin/complex/ComplexRowVector.kt:82-86 | the inner `var sum` loop returns v against column c |
| `ComplexVectors.Times` | src/main/kotlin/complex/ComplexRowVector.kt:77-90 | `times(ComplexMatrix)` succeeds exactly when length = rows, giving a vector of length cols |
| `Tensors.CalculateSizeAsWritten` | src/main/kotlin/real/Tensor.kt:287-293 | as written: succeeds exactly when the shape is non-empty and dimensions 1, 2, … are positive; the first dimension is not checked |
| `Tensors.CalculateSize` | src/main/kotlin/real/Tensor.kt:287-293 | corrected: succeeds exactly when the shape is non-empty and every dimension is positive, giving the product |
| `Tensors.CalculateSizeAgrees` | src/main/kotlin/real/Tensor.kt:287-293 | the two agree whenever the first dimension is positive |
| `Tensors.CalculateSizeAcceptsZeroLeading` | src/main/kotlin/real/Tensor.kt:287-293 | as written, shape [0, 3] is accepted with size 0; corrected, it is rejected |
| `Tensors.NewTensor` | src/main/kotlin/real/Tensor.kt:20-35 | corrected: the constructor succeeds exactly when every dimension is positive and the data length is their product; ComplexTensor.kt:20-33 is the same |
| `Tensors.NewTensorAsWritten` | src/main/kotlin/real/Tensor.kt:20-35 | as written: succeeds exactly when the shape is non-empty, dimensions 1, 2, … are positive, the first is not negative, and the data length is the product; an empty shape makes `reduce` throw |
| `Tensors.LeadingSign` | src/main/kotlin/real/Tensor.kt:287-293 | with every later dimension positive, the size has the sign of the first dimension, so a negative first dimension matches no data length |
| `Tensors.NewTensorAgrees` | src/main/kotlin/real/Tensor.kt:20-35 | the constructor as written and corrected agree unless the first dimension is 0 |
| `Tensors.NewTensorAcceptsZeroLeading` | src/main/kotlin/real/Tensor.kt:20-35 | as written, shape [0, 3] with no data constructs; corrected, it is rejected |
| `Tensors.Offset` | src/main/kotlin/real/Tensor.kt:280-285 | the fold acc·shape[i] + idx[i] of an index in bounds lies in [0, size) |
| `Tensors.Digits` | src/main/kotlin/real/Tensor.kt:271-278 | `dataIndexToTensorIndices` gives one digit per dimension |
| `Tensors.DigitsInBounds` | src/main/kotlin/real/Tensor.kt:271-278 | the digits of an offset in [0, size) are an index in bounds |
| `Tensors.OffsetOfDigits` | src/main/kotlin/real/Tensor.kt:271-285 | mapping the digits of d back gives d |
| `Tensors.DigitsOfOffset` | src/main/kotlin/real/Tensor.kt:271-285 | the digits of the offset of an index in bounds are that index |
| `Tensors.OffsetInjective` | src/main/kotlin/real/Tensor.kt:280-285 | distinct indices in bounds have distinct offsets |
| `Tensors.IndicesToDataIndex` | src/main/kotlin/real/Tensor.kt:280-285 | as written: empty indices make `reduce` throw; it succeeds exactly when idx[i] < shape[i] for every i ≥ 1, with index 0 unchecked, and then is the fold; ComplexTensor.kt:305-310 is the same |
| `Tensors.GetCellAsWritten` | src/main/kotlin/real/Tensor.kt:46-49 | as written: a wrong index count throws; an index in bounds reads its cell |
| `Tensors.NegativeIndexReadsAnotherCell` | src/main/kotlin/real/Tensor.kt:46-49 | on shape [2, 3], index [1, −1] passes the checks and reads cell [0, 2] |
| `Tensors.GetCell` | src/main/kotlin/real/Tensor.kt:46-49 | corrected: succeeds exactly for an index in bounds, reading its cell |
| `Tensors.GetCellAgrees` | src/main/kotlin/real/Tensor.kt:46-49 | the two readings agree on every index in bounds |
| `Tensors.SplitIndex` | src/main/kotlin/real/Tensor.kt:280-285 | an index in bounds splits into its leading entry and the rest, with offset idx[0]·size(shape[1..]) + the rest's offset |
| `Tensors.Slice` | src/main/kotlin/real/Tensor.kt:51-65 | `get(Long)` succeeds exactly when 0 ≤ index < shape[0] and the tensor has 2 or more dimensions; an index ≥ shape[0] throws; the result has shape shape[1..] and data data[index·s ..< (index+1)·s]; ComplexTensor.kt:40-54 is the same |
| `Tensors.SliceCell` | src/main/kotlin/real/Tensor.kt:51-65 | cell idx of slice i is cell [i] ++ idx of the tensor |
| `Tensors.ConcatShape` | src/main/kotlin/real/Tensor.kt:230-236 | the new shape is valid: the sizes along d add up |
| `Tensors.Concat` | src/main/kotlin/real/Tensor.kt:223-249 | succeeds exactly when the dimensions agree, d < dim, and the shapes agree off d; invalid arguments throw; ComplexTensor.kt:236-262 is the same |
| `Tensors.ConcatCells` | src/main/kotlin/real/Tensor.kt:237-247 | the cells with idx[d] < shape[d] come from `this`, the rest from `other` shifted back by shape[d] |
| `Tensors.StackSuppl` | src/main/kotlin/real/Tensor.kt:295-311 | equal shapes give [2] ++ shape; a tensor one dimension lower with matching trailing shape gives [shape[0]+1] ++ other.shape; in both the data is this.data ++ other.data; otherwise throws; ComplexTensor.kt:320-336 is the same |
| `Tensors.StackSupplValid` | src/main/kotlin/real/Tensor.kt:295-311 | stacking valid tensors passes the constructor's check |
| `Tensors.StackSlices` | src/main/kotlin/real/Tensor.kt:297-302 | slices 0 and 1 of two stacked tensors are the two tensors |
| `Tensors.AppendSlices` | src/main/kotlin/real/Tensor.kt:303-308 | appending a lower tensor keeps the old slices and adds it as the last one |
| `Tensors.StackFoldAppends` | src/main/kotlin/real/Tensor.kt:320 | folding tensors of shape s appends each one along the leading dimension |
| `Tensors.StackAsWritten` | src/main/kotlin/real/Tensor.kt:318-321 | as written: the fold starts from the first tensor and visits it again; no tensors throws |
| `Tensors.StackAsWrittenRepeatsFirst` | src/main/kotlin/real/Tensor.kt:318-321 | as written, n tensors of shape s give n + 1 slices, the first tensor twice |
| `Tensors.Stack` | src/main/kotlin/real/Tensor.kt:318-321 | corrected: the first tensor is the first slice and the fold visits the rest |
| `Tensors.StackValid` | src/main/kotlin/real/Tensor.kt:318-321 | stacking valid tensors gives a valid tensor |
| `Tensors.StackShape` | src/main/kotlin/real/Tensor.kt:318-321 | n tensors of one shape s stack into shape [n] ++ s with their data in order |
| `Tensors.Equals` | src/main/kotlin/complex/ComplexTensor.kt:152-158 | `equals` holds exactly when the shapes and the data are equal |
| `Tensors.FirstMismatch` | src/main/kotlin/real/Tensor.kt:149-158 | the `forEachIndexed` walk: the first index below n where the two data arrays differ, or n when they agree up to n |
| `Tensors.RealEquals` | src/main/kotlin/real/Tensor.kt:149-158 | the real `equals` walks `this.data`: it throws exactly when `other.data` is shorter and agrees with it up to its end; it holds exactly when the shapes are equal and `this.data` is a prefix of `other.data`; on equal lengths it is `Equals` |
| `Tensors.RealEqualsOverruns` | src/main/kotlin/real/Tensor.kt:149-158 | [1, 2, 3] against [1, 2] throws; [1, 2] against [1, 2, 3] is false |
| `TensorUpdates.IndexCheck` | src/main/kotlin/real/Tensor.kt:68-70 | passes exactly when there are no more indices than dimensions and each index lies in [0, shape[i]); the first offending index decides the error: a negative one throws `IllegalArgument` before `shape[index]` is read, and only a non-negative index past the last dimension throws `IndexOutOfBounds` |
| `TensorUpdates.ErrorPastShape` | src/main/kotlin/real/Tensor.kt:68 | on shape [2], index [0, −1] throws `IllegalArgument` and index [0, 1] throws `IndexOutOfBounds` |
| `TensorUpdates.SetOffset` | src/main/kotlin/real/Tensor.kt:71 | the offset `set` writes lies in [0, size), also for a prefix of the indices |
| `TensorUpdates.Assign` | src/main/kotlin/real/Tensor.kt:67-72 | `set` on a tensor value: succeeds exactly when the checks pass, with the error they raise otherwise |
| `TensorUpdates.AssignThenGet` | src/main/kotlin/real/Tensor.kt:67-72 | after `set` with a full index, `get` there reads the value written |
| `TensorUpdates.AssignKeepsOthers` | src/main/kotlin/real/Tensor.kt:67-72 | `set` with a full index leaves every other cell as it was |
| `TensorUpdates.AssignChangesOneCell` | src/main/kotlin/real/Tensor.kt:67-72 | `set` changes one data entry and no other, whatever indices it accepts |
| `TensorUpdates.PrefixIndexWritesCell` | src/main/kotlin/real/Tensor.kt:67-72 | on shape [2, 3] the single index [1] is accepted and writes offset 1 |
| `TensorUpdates.KnownProduct` | src/main/kotlin/real/Tensor.kt:206-209 | the product of the positive entries is at least 1 |
| `TensorUpdates.LastWildcard` | src/main/kotlin/real/Tensor.kt:202-205 | the last −1 entry, or −1 exactly when there is none |
| `TensorUpdates.ReshapeScan` | src/main/kotlin/real/Tensor.kt:200-212 | the scan counts −1 entries, keeps the last, multiplies the positive ones and throws on 0, on other negatives or a non-divisor |
| `TensorUpdates.ReshapeScanAccepts` | src/main/kotlin/real/Tensor.kt:200-212 | checking divisibility after every entry is the same as checking it once at the end |
| `TensorUpdates.InferShape` | src/main/kotlin/real/Tensor.kt:213-215 | the new shape with its last −1 entry replaced by size / product of the rest, or the scan's error |
| `TensorUpdates.ShapeAfter` | src/main/kotlin/real/Tensor.kt:213-215 | what the caller's `newShape` array holds afterwards: same length, written only when the scan passes |
| `TensorUpdates.Reshape` | src/main/kotlin/real/Tensor.kt:196-217 | `reshape` keeps the data, with the error of the scan or of the constructor; ComplexTensor.kt:197-218 is the same |
| `TensorUpdates.ReshapeSucceeds` | src/main/kotlin/real/Tensor.kt:196-217 | `reshape` succeeds exactly when every entry is −1 or positive, and either there is no −1 and the entries multiply to the size, or there is exactly one −1 and the rest divide the size |
| `TensorUpdates.ReshapeInfers` | src/main/kotlin/real/Tensor.kt:213-216 | a single −1 becomes size / (product of the others), and the element count is kept |
| `TensorStorage.TensorStore.constructor` | src/main/kotlin/real/Tensor.kt:20-35 | corrected: the object keeps the array and shape it is given, for a tensor whose dimensions are all positive |
| `TensorStorage.TensorStore.Set` | src/main/kotlin/real/Tensor.kt:67-72 | the in-place `set` leaves exactly what `Assign` computes, and nothing on failure; ComplexTensor.kt:56-61 is the same |
| `TensorStorage.TensorStore.Reshape` | src/main/kotlin/real/Tensor.kt:196-217 | the counter loop writes `ShapeAfter` into the caller's array and returns `Reshape` of the old value |
| `Pivoting.FirstNonzero` | src/main/kotlin/operations/Determinant.kt:26-33 | the first index whose entry is not zero, or the length when there is none; every earlier entry is zero |
| `Pivoting.FirstNonzeroUnique` | src/main/kotlin/operations/Determinant.kt:26-33 | those properties single out the index |
| `Pivoting.PivotOnTop` | src/main/kotlin/operations/Determinant.kt:37 | `switchRow(0, s)`: row s on top, row 0 in its place, the rest kept |
| `Pivoting.Below` | src/main/kotlin/operations/Determinant.kt:38 | v is the column below the pivot |
| `Pivoting.Beside` | src/main/kotlin/operations/Determinant.kt:39 | wᵀ is the row beside the pivot |
| `Pivoting.Trailing` | src/main/kotlin/operations/Determinant.kt:41 | A′ is the trailing block |
| `RealPivot.PivotSearch` | src/main/kotlin/operations/Determinant.kt:23-33 | the loop's `switchIndex` is `FirstNonzero` of column 0; a = 0 exactly when there is no nonzero entry; otherwise a is that entry |
| `RealPivot.OuterProductCell` | src/main/kotlin/operations/Determinant.kt:42 | cell (i, j) of v·wᵀ is v[i]·w[j] |
| `RealPivot.Reduced` | src/main/kotlin/operations/Determinant.kt:37-42 | the (n−1)×(n−1) matrix the recursion descends into, cell (i, j) = p[i+1, j+1] − p[i+1, 0]·p[0, j+1]/a |
| `RealPivot.ReducedCells` | src/main/kotlin/operations/Determinant.kt:42 | A′ − (v·wᵀ)·c computed with the library's operations is `Reduced` |
| `RealDeterminant.DetOfOrder2` | src/main/kotlin/operations/Determinant.kt:19 | order 2 is M00·M11 − M01·M10 |
| `RealDeterminant.Determinant` | src/main/kotlin/operations/Determinant.kt:15-46 | succeeds exactly for a square matrix and returns `Det`: order 1 is M[0, 0], order 2 the closed form, a zero column 0 gives 0, otherwise sign·a·det(reduced) with sign −1 when switchIndex ≠ 0 |
| `RealDeterminant.DiagonalFrom` | src/main/kotlin/operations/Determinant.kt:37-42 | the diagonal entries from position k |
| `RealDeterminant.DetUpperTriangular` | src/main/kotlin/operations/Determinant.kt:15-46 | the determinant of an upper triangular matrix is the product of its diagonal |
| `RealDeterminant.DetEye` | src/main/kotlin/operations/Determinant.kt:15-46 | the identity has determinant 1 |
| `RealDeterminant.DetZeroColumn` | src/main/kotlin/operations/Determinant.kt:34 | a zero column 0 gives determinant 0 in every order, including the closed forms |
| `RealDeterminant.ReducedOfEye` | src/main/kotlin/operations/Determinant.kt:37-42 | below the pivot of the identity of order n the identity of order n − 1 remains |
| `RealDeterminant.DetRowSwitching` | src/main/kotlin/operations/Determinant.kt:36 | `rowSwitchingMatrix(n, 0, s)` with s ≠ 0 has determinant −1 |
| `ComplexPivot.AlternatingSignParity` | src/main/kotlin/operations/Determinant.kt:70 | flipping the sign k times gives 1 for even k and −1 for odd k |
| `ComplexPivot.PivotSearch` | src/main/kotlin/operations/Determinant.kt:60-73 | the loop's `switchIndex` is `FirstNonzero` of column 0 and its sign is (−1)^switchIndex; a = 0 exactly when there is no nonzero entry |
| `ComplexPivot.OuterProductCell` | src/main/kotlin/operations/Determinant.kt:81 | cell (i, j) of v·wᵀ is v[i]·w[j] |
| `ComplexPivot.Reciprocal` | src/main/kotlin/operations/Determinant.kt:79 | c = 1/a multiplied by a is 1 |
| `ComplexPivot.Reduced` | src/main/kotlin/operations/Determinant.kt:76-81 | the reduced complex matrix, cell (i, j) = p[i+1, j+1] − p[i+1, 0]·c·p[0, j+1] |
| `ComplexPivot.ReducedCells` | src/main/kotlin/operations/Determinant.kt:81 | A′ − (v·wᵀ)·c computed with the library's operations is `Reduced` |
| `ComplexDeterminant.Determinant` | src/main/kotlin/operations/Determinant.kt:53-84 | succeeds exactly for a square matrix and returns `DetAsWritten`, whose sign is (−1)^switchIndex |
| `ComplexDeterminant.ReducedOfEmbed` | src/main/kotlin/operations/Determinant.kt:76-81 | the complex pivot step of a real matrix made complex is the real pivot step made complex |
| `ComplexDeterminant.PivotOnTopOfEmbed` | src/main/kotlin/operations/Determinant.kt:76 | row switching commutes with making a matrix complex |
| `ComplexDeterminant.DetOfEmbed` | src/main/kotlin/operations/Determinant.kt:53-84 | with the sign rule of the real variant, the complex determinant of a real matrix made complex is its real determinant made complex |
| `ComplexDeterminant.Order2Agree` | src/main/kotlin/operations/Determinant.kt:58 | in order 2 both sign rules give the closed form |
| `ComplexDeterminant.AsWrittenOfEvenPivot` | src/main/kotlin/operations/Determinant.kt:70 | a pivot in an even row s ≥ 2 makes the value as written the negation of the determinant with one switch |
| `ComplexDeterminant.AsWrittenOfRealOrder3` | src/main/kotlin/operations/Determinant.kt:65-81 | for a real matrix of order 3 with its pivot in row 2, the value as written is minus its real determinant |
| `ComplexDeterminant.AsWrittenSignIsWrong` | src/main/kotlin/operations/Determinant.kt:70 | `rowSwitchingMatrix(3, 0, 2)` has real determinant −1, corrected complex determinant −1, and complex determinant 1 as written |
| `RealInverse.PowSign` | src/main/kotlin/real/Matrix.kt:168 | (−1)^k is 1 or −1 |
| `RealInverse.Adjoint` | src/main/kotlin/real/Matrix.kt:161-171 | succeeds exactly for a square matrix of order ≥ 2 (order 1 makes `minorMatrix` throw); entry (i, j) is (−1)^(i+j)·det(minor(j, i)) |
| `RealInverse.Inverse` | src/main/kotlin/operations/Inverse.kt:13-18 | succeeds exactly for a square matrix of order ≥ 2, or of order 1 with determinant 0; a zero determinant gives the identity, otherwise the adjoint times 1/det |
| `RealInverse.InverseOfOrder1` | src/main/kotlin/operations/Inverse.kt:17 | a nonsingular 1×1 matrix throws |
| `RealInverse.InverseCell` | src/main/kotlin/operations/Inverse.kt:17 | past the fallback, entry (i, j) of the inverse is cofactor (j, i) over det |
| `RealInverse.InverseUndoesScale` | src/main/kotlin/operations/Inverse.kt:17 | scaling the inverse back by det gives the adjoint |
| `RealInverse.CofactorsOfOrder2` | src/main/kotlin/real/Matrix.kt:161-171 | the cofactors of order 2 are the entries of the other diagonal, signed |
| `RealInverse.InverseOfOrder2` | src/main/kotlin/operations/Inverse.kt:13-18 | in order 2 with det ≠ 0 the inverse is two-sided: M·M⁻¹ = M⁻¹·M = I |
| `RealInverse.AdjugateInverts` | src/main/kotlin/operations/Inverse.kt:17 | [[a, b], [c, e]] and [[e, −b], [−c, a]]/(ae − bc) are inverse to each other when ae − bc ≠ 0 |
| `RealInverse.Order2Entries` | src/main/kotlin/real/Matrix.kt:161-171 | the four entries of an inverse of order 2 are the adjugate over det |
| `ComplexInverse.Adjoint` | src/main/kotlin/complex/ComplexMatrix.kt:183-193 | succeeds exactly for a square matrix of order ≥ 2; entry (i, j) is (−1)^(i+j)·det(minor(j, i)) |
| `ComplexInverse.Inverse` | src/main/kotlin/operations/Inverse.kt:25-29 | succeeds exactly for a square order ≥ 2, or order 1 with determinant 0; zero determinant gives the identity, otherwise the adjoint divided by det |
| `ComplexInverse.InverseOfOrder1` | src/main/kotlin/operations/Inverse.kt:29 | a nonsingular 1×1 matrix throws |
| `RealPlu.Bordered` | src/main/kotlin/operations/PLU.kt:39-40 | diag(1, x): the identity with x written into the trailing block |
| `RealPlu.Lower` | src/main/kotlin/operations/PLU.kt:43-45 | `matL` has order n with L′ in the trailing block and cv′ below the diagonal in column 0 |
| `RealPlu.Upper` | src/main/kotlin/operations/PLU.kt:47-50 | `matU` has a at (0, 0), wᵀ beside it and U′ in the trailing block |
| `RealPlu.Assemble` | src/main/kotlin/operations/PLU.kt:29-52 | the three factors of order n built from pivot row s and the factors of the reduced matrix are n×n |
| `RealPlu.Plu` | src/main/kotlin/operations/PLU.kt:14-55 | a non-square matrix, or a zero column 0 at any level of the recursion, throws; order 1 gives {I, I, M}; every result is three n×n matrices |
| `RealPlu.Unfold` | src/main/kotlin/operations/PLU.kt:23-52 | at each level the pivot row exists, the pivot is nonzero and the reduced matrix decomposes |
| `RealPlu.Sigma` | src/main/kotlin/operations/PLU.kt:29-41 | the row order that P applies has n entries |
| `RealPlu.SigmaIsPermutation` | src/main/kotlin/operations/PLU.kt:29-41 | `Sigma` is a permutation of [0, n) with inverse `Rho` |
| `RealPlu.AssembledPerm` | src/main/kotlin/operations/PLU.kt:39-41 | diag(1, P′)·P₁ is the permutation matrix of the lifted permutation |
| `RealPlu.PIsPermMatrix` | src/main/kotlin/operations/PLU.kt:39-41 | P is the permutation matrix of `Sigma` |
| `RealPlu.Triangular` | src/main/kotlin/operations/PLU.kt:43-50 | L is unit lower triangular and U is upper triangular, by induction on the order |
| `RealPlu.AssembledTriangular` | src/main/kotlin/operations/PLU.kt:43-50 | bordering keeps the shapes: row 0 of L is e₀ and column 0 of U is a·e₀ |
| `RealPlu.LuIsPermutedInput` | src/main/kotlin/operations/PLU.kt:14-55 | row i of L·U is row Sigma[i] of A, that is L·U = P·A |
| `RealPlu.LuStep` | src/main/kotlin/operations/PLU.kt:34-50 | the induction step: P′·R = L′·U′ for the reduced matrix gives P·A = L·U |
| `RealPluTheorems.PluIsDecomposition` | src/main/kotlin/operations/PLU.kt:14-55 | when `plu` returns, P is a permutation matrix, L is unit lower triangular, U is upper triangular and P·A = L·U |
| `RealPluTheorems.PluZeroColumn` | src/main/kotlin/operations/PLU.kt:23-30 | a zero column 0 of order n ≥ 2 makes `rowSwitchingMatrix(n, 0, n)` throw, so the `c = 0` branch is never reached |
| `RealPluTheorems.PluOfNonsingular` | src/main/kotlin/operations/PLU.kt:14-55 | a matrix with nonzero determinant always decomposes |
| `RealPluTheorems.PluOfOrder1` | src/main/kotlin/operations/PLU.kt:17 | order 1 always decomposes |
| `RealPluTheorems.TransposePerm` | src/main/kotlin/operations/PLU.kt:39-41 | the transpose of a permutation matrix is the permutation matrix of the inverse permutation |
| `RealPluTheorems.PluCorrected` | src/main/kotlin/operations/PLU.kt:52 | corrected: the same L and U with Pᵀ in place of P, and the same errors |
| `RealPluTheorems.CorrectedReproducesInput` | src/main/kotlin/operations/PLU.kt:14-55 | the corrected factors multiply back to the input: A = Pᵀ·L·U |
| `RealPluTheorems.AsWrittenProductIsNotInput` | src/main/kotlin/operations/PLU.kt:14-55 | for the cyclic permutation matrix A = [[0, 0, 1], [1, 0, 0], [0, 1, 0]] the factors decompose, but P·L·U ≠ A |
| `RealPluMethod.PluMethod` | src/main/kotlin/operations/PLU.kt:14-55 | `Matrix.plu()` returns the factors of `Plu`, or its error |
| `RealPluMethod.BuildP` | src/main/kotlin/operations/PLU.kt:39-41 | `matP` is diag(1, P′)·P₁ |
| `RealPluMethod.BuildL` | src/main/kotlin/operations/PLU.kt:43-45 | the two `setSubmatrix` calls leave `Lower(L′, cv′)` |
| `RealPluMethod.BuildU` | src/main/kotlin/operations/PLU.kt:47-50 | `set` and the two `setSubmatrix` calls leave `Upper(a, wᵀ, U′)` |
| `ComplexPlu.Bordered` | src/main/kotlin/operations/PLU.kt:87-88 | diag(1, x) over the complex identity |
| `ComplexPlu.Lower` | src/main/kotlin/operations/PLU.kt:91-93 | complex `matL` of order n |
| `ComplexPlu.Upper` | src/main/kotlin/operations/PLU.kt:95-98 | complex `matU` of order n |
| `ComplexPlu.Assemble` | src/main/kotlin/operations/PLU.kt:77-100 | the three complex factors of order n are n×n |
| `ComplexPlu.Plu` | src/main/kotlin/operations/PLU.kt:62-102 | a non-square matrix, or a zero column 0 at any level, throws; order 1 gives {I, I, M}; results are n×n |
| `ComplexPlu.Unfold` | src/main/kotlin/operations/PLU.kt:67-100 | at each level the pivot row exists, the pivot is nonzero and the reduced matrix decomposes |
| `ComplexPlu.PluZeroColumn` | src/main/kotlin/operations/PLU.kt:71-77 | a zero column 0 of order n ≥ 2 makes `rowSwitchingMatrix(n, 0, n)` throw |
| `ComplexPlu.SigmaIsPermutation` | src/main/kotlin/operations/PLU.kt:77-89 | the row order of P is a permutation of [0, n) |
| `ComplexPlu.PIsPermMatrix` | src/main/kotlin/operations/PLU.kt:87-89 | P is a real permutation matrix made complex |
| `ComplexPlu.Triangular` | src/main/kotlin/operations/PLU.kt:91-98 | L is unit lower triangular and U is upper triangular |
| `ComplexPlu.PluShapes` | src/main/kotlin/operations/PLU.kt:62-102 | when the complex `plu` returns, P is a real permutation matrix made complex, L is unit lower triangular and U upper triangular |
| `ComplexPluMethod.PluMethod` | src/main/kotlin/operations/PLU.kt:62-102 | `ComplexMatrix.plu()` returns the factors of `Plu`, or its error |
| `ComplexPluMethod.BuildP` | src/main/kotlin/operations/PLU.kt:87-89 | `matP` is diag(1, P′)·P₁ |
| `ComplexPluMethod.BuildL` | src/main/kotlin/operations/PLU.kt:91-93 | leaves `Lower(L′, cv′)` |
| `ComplexPluMethod.BuildU` | src/main/kotlin/operations/PLU.kt:95-98 | leaves `Upper(a, wᵀ, U′)` |
| `Echelon.OneTestConsistent` | src/main/kotlin/operations/GE.kt:70 | one test used to skip columns, to snap and to find zero rows is consistent |
| `Echelon.FirstMaxUnique` | src/main/kotlin/operations/GE.kt:20 | the first row of largest magnitude is unique |
| `Echelon.ArgMax` | src/main/kotlin/operations/GE.kt:20 | `maxByOrNull`: the first index in [h, rows) maximising the magnitude in column k |
| `Echelon.MaxRow` | src/main/kotlin/operations/GE.kt:20 | the search loop returns `ArgMax` |
| `Echelon.Eliminated` | src/main/kotlin/operations/GE.kt:24-30 | one pivot step keeps the shape |
| `Echelon.EliminatedClearsColumn` | src/main/kotlin/operations/GE.kt:24-30 | after a pivot step every row but h has zero in column k, row h is unchanged, and so are the columns before k |
| `Echelon.EliminateRow` | src/main/kotlin/operations/GE.kt:25-29 | the row loop writes row i of `Eliminated` and leaves every other row unchanged |
| `Echelon.EliminateColumn` | src/main/kotlin/operations/GE.kt:24-30 | the in-place step on column k leaves `Eliminated` |
| `Echelon.SwitchAndEliminate` | src/main/kotlin/operations/GE.kt:23-30 | `switchRow(h, iMax)` on a fresh matrix, then the step, gives `Eliminated` of the switched matrix |
| `Echelon.Eliminate` | src/main/kotlin/operations/GE.kt:19-34 | the `while` loop from (h, k) keeps the shape |
| `Echelon.UnfoldSkip` | src/main/kotlin/operations/GE.kt:21 | a column whose largest entry passes the column test is skipped: only k advances |
| `Echelon.UnfoldPivot` | src/main/kotlin/operations/GE.kt:22-33 | otherwise the loop goes on from the switched and eliminated matrix at (h + 1, k + 1) |
| `Echelon.SkipKeeps` | src/main/kotlin/operations/GE.kt:21 | a skipped column is negligible from row h down |
| `Echelon.StepKeeps` | src/main/kotlin/operations/GE.kt:23-32 | a pivot step adds row h, at column k, to the pivot rows of the staircase |
| `Echelon.EliminationSettles` | src/main/kotlin/operations/GE.kt:19-34 | the elimination ends with pivots on rows 0, 1, … in strictly increasing columns, every other entry of a pivot column exactly zero, and the rest negligible |
| `Echelon.Snap` | src/main/kotlin/operations/GE.kt:35-37 | each entry passing the snap test becomes exactly zero and the others are kept |
| `Echelon.SnapIdempotent` | src/main/kotlin/operations/GE.kt:35-37 | snapping twice snaps nothing more |
| `Echelon.ZeroFlags` | src/main/kotlin/operations/GE.kt:41-48 | flag i is set exactly when row i is a zero row |
| `Echelon.KeptRows` | src/main/kotlin/operations/GE.kt:41-53 | the rows below n that are not zero rows, in increasing order |
| `Echelon.KeptRowsComplete` | src/main/kotlin/operations/GE.kt:41-53 | every row below n that is not a zero row is kept |
| `Echelon.Gathered` | src/main/kotlin/operations/GE.kt:49-53 | the kept rows gathered at the top keep the shape |
| `Echelon.Compact` | src/main/kotlin/operations/GE.kt:39-55 | the non-zero rows in their order above zero rows keep the shape |
| `Echelon.RowEchelon` | src/main/kotlin/operations/GE.kt:14-56 | elimination, snap and compaction keep the shape |
| `Echelon.SnapSettled` | src/main/kotlin/operations/GE.kt:35-37 | when the snap test is the column test, snapping a settled elimination gives an exact echelon form with its pivots untouched |
| `Echelon.SettledIsEchelon` | src/main/kotlin/operations/GE.kt:19-34 | when zero passes no test, a settled elimination is already an exact echelon form |
| `Echelon.CompactEchelon` | src/main/kotlin/operations/GE.kt:39-55 | compacting an echelon form whose pivots fail the zero-row test moves nothing |
| `Echelon.CompactWithoutZeroRows` | src/main/kotlin/operations/GE.kt:39-55 | a matrix without zero rows is unchanged by the compaction |
| `Echelon.RowEchelonIsEchelon` | src/main/kotlin/operations/GE.kt:14-56 | with consistent tests, the result is the snapped elimination, and it is in echelon form on the pivot columns found |
| `Echelon.Zeros` | src/main/kotlin/operations/GE.kt:39 | `Matrix(rows, cols)` is all zeros |
| `Echelon.IsZeroRow` | src/main/kotlin/operations/GE.kt:42-48 | the `isZeroRowVec` loop returns exactly whether row i is a zero row |
| `Echelon.GatherSkip` | src/main/kotlin/operations/GE.kt:49 | a zero row is passed over |
| `Echelon.GatherCopy` | src/main/kotlin/operations/GE.kt:49-53 | any other row is copied into the next free row |
| `Echelon.SortRows` | src/main/kotlin/operations/GE.kt:39-55 | the `rowPointer` loop returns `Compact` |
| `Echelon.GatherRows` | src/main/kotlin/operations/GE.kt:40-54 | the loop on a zero matrix leaves `Compact` |
| `Echelon.GatherRow` | src/main/kotlin/operations/GE.kt:42-53 | one pass copies row n into row p unless it is a zero row, and advances p accordingly |
| `Echelon.Iteration` | src/main/kotlin/operations/GE.kt:19-34 | one pass of the `while` loop keeps the shape, increments k, increments h or not, and leaves the rest of the work unchanged |
| `Echelon.Finished` | src/main/kotlin/operations/GE.kt:19 | out of rows or columns, nothing is left to do |
| `Echelon.RowEchelonForm` | src/main/kotlin/operations/GE.kt:14-56 | the method works on a copy and returns `RowEchelon` |
| `RealEchelon.Abs` | src/main/kotlin/operations/GE.kt:20 | \|x\| is non-negative and is x or −x |
| `RealEchelon.AsWrittenSound` | src/main/kotlin/operations/GE.kt:20-21 | the exact column test is sound: an entry no larger than 0 is 0 |
| `RealEchelon.CorrectedSound` | src/main/kotlin/utils/Convergence.kt:15-17 | the tolerant column test is sound |
| `RealEchelon.CorrectedConsistent` | src/main/kotlin/operations/GE.kt:35-44 | with the column tested by tolerance, the three tests are consistent |
| `RealEchelon.AsWrittenEliminationIsExact` | src/main/kotlin/operations/GE.kt:19-34 | as written, before the snap the elimination is an exact echelon form |
| `RealEchelon.AsWrittenLosesSmallPivot` | src/main/kotlin/operations/GE.kt:21 | as written, ((10⁻⁵, 0, 5), (0, 1, 3)) becomes ((0, 0, 5), (0, 1, 3)), which is in echelon form for no choice of pivot columns |
| `RealEchelon.CorrectedIsEchelon` | src/main/kotlin/operations/GE.kt:14-56 | corrected, the result is the snapped elimination and it is in echelon form |
| `RealEchelon.RowEchelonFormAsWritten` | src/main/kotlin/operations/GE.kt:14-56 | `Matrix.rowEchelonForm()` as written returns `RowEchelon` with the exact column test |
| `RealEchelon.RowEchelonForm` | src/main/kotlin/operations/GE.kt:14-56 | corrected `Matrix.rowEchelonForm()`: its result is in echelon form on the pivot columns the elimination finds |
| `ComplexEchelon.OpsSound` | src/main/kotlin/operations/GE.kt:69-70 | the tolerant column test is sound for the squared-modulus search |
| `ComplexEchelon.OpsConsistent` | src/main/kotlin/operations/GE.kt:70-93 | the three `pseudoEquals` tests are consistent |
| `ComplexEchelon.RowEchelonIsEchelon` | src/main/kotlin/operations/GE.kt:63-104 | the result is the snapped elimination, in echelon form |
| `ComplexEchelon.RowEchelonForm` | src/main/kotlin/operations/GE.kt:63-104 | `ComplexMatrix.rowEchelonForm()` returns a matrix in echelon form on the pivot columns the elimination finds |

## Left out

- Floating point: every scalar is an exact `real` or a pair of reals, so IEEE rounding, overflow and NaN are not modelled.
- `abs` of a complex number (a square root) is not modelled. The pivot search and the `pseudoEquals` tests use the squared modulus, which picks the same first maximum; |z| < 10⁻⁴ holds exactly when |z|² < 10⁻⁸.
- `arg`, `pow` and `polarForm` of `ComplexDouble` are left out (trigonometry, logarithms).
- EVP, SVD and QR are left out, and so are norms, means, rotation matrices and `normalize`: they are floating-point iterations or need square roots.
- `toString` and the string formatting utilities are left out.
- The element-wise arithmetic `unaryMinus`, `eltwiseMul`, `map`, `sum`, `trace`, `pow`, `copy` and the scalar glue in utils/Number.kt are left out, because they are not part of the core structural and elimination algorithms. Only the operations the algorithms use are modelled: `plus`, `minus`, `times`, scaling and complex `div`.
- Aliasing is modelled for `reshape` on objects only: `TensorStorage.TensorStore.Reshape` returns a tensor over the very array it holds. The value-level `TensorUpdates.Reshape`, `transpose` of a vector, `toRowVector` and `toColVector` share the data array with the original in the library, but the model treats their result as a value.
- Kotlin's 32-bit `Int` wrap-around is not modelled: dimensions, sizes and offsets are unbounded integers, that is, assumed below 2³¹. In the library the products `total * num` of `calculateSize` (real/Tensor.kt:287-293), `rows * cols` (real/Matrix.kt:19) and the offset fold `acc * newShape[index] + tensorIndex` (real/Tensor.kt:280-285) wrap, so for instance `Tensor([65536, 65536], [])` constructs there with size 0, while every constructor of the model rejects it.
- Dense.Valid: states the corrected shape, every dimension positive. A matrix with no rows (`Matrix(0, n, [])`) and an empty column vector (`ColumnVector(0, [])`), which construct as written, are outside it, so the value-level matrix and vector operations are stated only for matrices with at least one row and column. The constructors as written are `Vectors.NewMatrixAsWritten` and `Vectors.NewColumnVectorAsWritten`, and the object classes `Storage.Matrix` and `Storage.Vector` accept their inputs.
- Tensors.NewTensor: is the corrected constructor, rejecting a leading dimension 0; the constructor as written is `Tensors.NewTensorAsWritten`, and `Tensors.NewTensorAgrees` shows the two differ on nothing else. The value-level tensor operations are stated for tensors the corrected constructor accepts.
- Vectors.NewVector: is `RowVector` as written but `ColumnVector` corrected, rejecting length 0; the column vector constructor as written is `Vectors.NewColumnVectorAsWritten`, and `Vectors.EmptyColumnVector` shows the difference.
- TensorStorage.TensorStore.constructor: is stated only for tensors whose dimensions are all positive, the corrected shape; a tensor with leading dimension 0, which constructs as written, has no object.
- TensorStorage.TensorStore.Set: is stated only for such tensors, so `set` on a tensor with leading dimension 0 is not modelled; on the value level `TensorUpdates.IndexCheck` gives the error order for any shape.
- RealDeterminant.Determinant: equality with a Leibniz or Laplace determinant is not proved. Proved instead: upper triangular matrices give the product of the diagonal, the identity gives 1, a row-switching matrix gives −1, and a zero column 0 gives 0.
- RealInverse.InverseOfOrder2: M·M⁻¹ = I is proved for order 2 only. For larger orders only the adjoint formula and the identity fallback are stated.
- ComplexInverse.Inverse: only its shape, its fallback and its errors are stated. No product identity is proved.
- ComplexPlu.PluShapes: P·A = L·U is proved for the real variant only. The complex one is stated only as: P is a real permutation matrix made complex, L is unit lower triangular and U is upper triangular.
- RealEchelon.Quotient and ComplexEchelon.Quotient divide by zero as 0. They are never applied to a zero pivot, because a pivot that reaches the step has failed the column test.
- The 4×4 and 5×5 concrete cases of the library's tests (the echelon form, the determinant −18, the 5×5 inverse) are not evaluated.

## Findings

| source | as written | input that shows it | evidently intended | confidence | as-written member | corrected member |
|---|---|---|---|---|---|---|
| src/main/kotlin/real/Tensor.kt:287-293 | `calculateSize` seeds `reduce` with the first dimension unchecked, so a zero or negative leading dimension passes | shape [0, 3] with empty data is accepted with size 0 | every dimension positive | not executed | `Tensors.CalculateSizeAcceptsZeroLeading` | `Tensors.CalculateSize` |
| src/main/kotlin/real/Tensor.kt:280-285 | `tensorIndicesToDataIndex` checks only the upper bound of later indices and not index 0 at all, and `get` adds no checks of its own | on shape [2, 3], `get([1, -1])` reads cell [0, 2] | every index in [0, shape[i]), as `set` checks | not executed | `Tensors.NegativeIndexReadsAnotherCell` | `Tensors.GetCell` |
| src/main/kotlin/operations/PLU.kt:39-41 | the returned P satisfies P·A = L·U, so P·L·U = P·P·A | A = [[0, 0, 1], [1, 0, 0], [0, 1, 0]], where P·L·U ≠ A | A = P·L·U, as the documentation and the test say | not executed | `RealPluTheorems.AsWrittenProductIsNotInput` | `RealPluTheorems.CorrectedReproducesInput` |
| src/main/kotlin/operations/Determinant.kt:70 | the complex sign is (−1)^switchIndex, but one switch of rows 0 and switchIndex calls for −1 whenever switchIndex ≠ 0 | `rowSwitchingMatrix(3, 0, 2)` made complex gives 1 instead of −1 | the real variant's rule (Determinant.kt:36) | not executed | `ComplexDeterminant.AsWrittenSignIsWrong` | `ComplexDeterminant.DetOfEmbed` |
| src/main/kotlin/real/Tensor.kt:318-321 | `stack` folds from the first tensor over all tensors, the first included | two tensors of shape [2] give shape [3] with the first twice | n tensors give shape [n] ++ shape | not executed | `Tensors.StackAsWrittenRepeatsFirst` | `Tensors.StackShape` |
| src/main/kotlin/operations/GE.kt:21 | the real column test is exact (`== 0.0`), but the snap afterwards zeroes every entry below 10⁻⁴, including small pivots | ((10⁻⁵, 0, 5), (0, 1, 3)) becomes ((0, 0, 5), (0, 1, 3)), which is not in echelon form | test the column with the tolerance of the snap, as the complex variant does (GE.kt:70) | not executed | `RealEchelon.AsWrittenLosesSmallPivot` | `RealEchelon.RowEchelonForm` |
