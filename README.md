# A verified model of `TDynamicVector` and `TDynamicMatrix`

`include/tmatrix.h` is a small C++ header-only linear-algebra library. It defines
`TDynamicVector<T>`, a vector owning a heap buffer of `sz` elements, and
`TDynamicMatrix<T>`, a matrix stored as a vector of row vectors. The operations
are:

- construction with size checks;
- copy and move construction and assignment;
- unchecked (`operator[]`) and checked (`at`) indexing;
- equality;
- element-wise and scalar arithmetic;
- dot product, matrix times vector and matrix times matrix.

Failures are thrown as `std::out_of_range` (only for a zero vector size) or as
a bare `throw 0` (everything else).

This project models the header for `T = int` (the type the repository's tests use):

- `algebra.dfy`, module `Algebra`, is the value-level meaning on sequences:
  - the two error kinds `OutOfRange` and `ThrowZero`, as a `Result`/`Status`
    datatype;
  - the three size checks the constructors run;
  - every operator as a total function that returns either the result or the
    error the C++ code throws;
  - lemmas about these functions.
- `vectors.dfy`, module `Vectors`, is the class `DynamicVector`. Its fields are
  `sz` and `mem: array<int>`, and every member function is a method or
  function over that array. The arithmetic operators and the dot product are
  proved against their `Algebra` functions. The constructors, assignments,
  `swap`, indexing and comparisons are specified directly on `Contents()`
  (the buffer as a sequence) and on the state before the call.
- `matrices.dfy`, module `Matrices`, is the class `DynamicMatrix`. Its fields
  are `sz`, `mem: array<DynamicVector>` and a ghost footprint `Repr`. Each row
  is an object with its own buffer, and no two rows share objects. The
  operators keep the source's structure:
  - allocate the result through the constructor;
  - run the row loop, assigning each row from a temporary vector;
  - for the products, run the nested loops.

  Each operator is proved to produce exactly the `Algebra` value or error.
- `scenarios.dfy`, module `Scenarios`, holds a selection of the
  repository's unit tests: the size checks, the arithmetic, the checked
  index operations, and the copy and move tests. Each has its concrete
  inputs and the outcome the test expects, proved on the model.

Modelling decisions:

- **Sizes are `size_t`.** A negative `int` argument such as `v(-5)` or
  `at(-2)` arrives as `2^64 + x`. `SizeT` models the conversion, and
  `WrappedNegativeIsRejected` shows that every check then throws. The
  `sz < 0` tests in the source are therefore always false and are not
  modelled separately.
- **A moved-from object** holds a null buffer and size 0. It is modelled as
  an empty array with `sz == 0`.
- **Result allocation.** Every operator that builds a vector does it through
  `TDynamicVector(size_t)`. So a scalar operation on a size-0 vector (for
  example a moved-from one) fails with `out_of_range`. The model keeps this.
- **The `std::vector` constructors** check nothing. The matrix one checks
  only the row count, against the vector limits. The rows it stores may be
  empty or of different lengths, and the model allows that.
- **Reads outside a buffer are defined nowhere in the header.** Such reads
  come from unchecked `operator[]`, from the inner loop of matrix times
  vector over `pMem[i].size()`, and from the bounds of matrix times matrix.
  The model turns each into a `requires` clause:
  - `RowsFit`: every row is at most as long as the vector;
  - `MulDefined` and `ProductShape`: the left matrix has at least one row,
    and once the multiplication check passes, every index the loops use is
    in range. This excludes left operands with more rows than columns,
    which the check lets through (see Findings).

Where the code and the written description of the library disagree, the
model follows the code:

- Matrix times vector checks the ROW COUNT against the vector's length, not
  the row length.
- Matrix times matrix sums over `k` below the LEFT ROW count (see Findings).
- Scalar multiplication of a matrix can fail: its result comes from
  `TDynamicMatrix(sz)` and from the vector `*` on each row.
- The column count of the rectangular constructor is bounded, by the row
  vector's own checks (`0` is `out_of_range`, above `MAX_VECTOR_SIZE` is
  `throw 0`).

## Model

| member | source | states |
|---|---|---|
| Algebra.CheckVectorSize | include/tmatrix.h:27-34 | passes exactly for 1..MAX_VECTOR_SIZE; fails with out_of_range exactly for 0, otherwise `throw 0` |
| Algebra.CheckMatrixSize | include/tmatrix.h:221-227 | passes exactly for 1..MAX_MATRIX_SIZE; out_of_range exactly for 0 |
| Algebra.CheckRectSize | include/tmatrix.h:228-234 | passes exactly when 1 <= s <= MAX_MATRIX_SIZE and 1 <= m <= MAX_VECTOR_SIZE; out_of_range exactly when s is 0, or when s is admissible and m is 0 |
| Algebra.SizeT | include/tmatrix.h:27 | the conversion of an `int` argument to `size_t`: a value below 2^64 is kept, a negative one becomes 2^64 + x, and the result is always below 2^64 |
| Algebra.WrappedNegativeIsRejected | include/tmatrix.h:27-32 | a negative int size becomes 2^64 + x, exceeds MAX_VECTOR_SIZE and is rejected with `throw 0` by the vector and the matrix checks |
| Algebra.InnerProduct | include/tmatrix.h:184-186 | the reference sum of a[i] * b[i], accumulated from 0 in index order, against which `Dot` and the product loops are proved |
| Algebra.InnerProductStep | include/tmatrix.h:184-186 | one more loop iteration adds exactly one product to the running sum |
| Algebra.InnerProductCommutes | include/tmatrix.h:178-189 | the dot product is symmetric |
| Algebra.InnerProductAddsLeft | include/tmatrix.h:178-189 | the dot product is additive in its left operand |
| Algebra.InnerProductScalesLeft | include/tmatrix.h:178-189 | scaling the left operand scales the dot product |
| Algebra.SubEachUndoesAddEach | include/tmatrix.h:129-143 | subtracting a scalar undoes adding it |
| Algebra.SubPairwiseUndoesAddPairwise | include/tmatrix.h:153-177 | subtracting a vector undoes adding it |
| Algebra.VecAddScalar | include/tmatrix.h:129-136 | defined exactly for sizes 1..MAX_VECTOR_SIZE (size 0 is out_of_range); element i is a[i] + x |
| Algebra.VecSubScalar | include/tmatrix.h:137-143 | as VecAddScalar with a[i] - x |
| Algebra.VecMulScalar | include/tmatrix.h:144-150 | as VecAddScalar with a[i] * x |
| Algebra.VecAdd | include/tmatrix.h:153-165 | `throw 0` on a size mismatch, out_of_range exactly for two empty vectors, otherwise element-wise sums |
| Algebra.VecSub | include/tmatrix.h:166-177 | as VecAdd with differences |
| Algebra.VecDot | include/tmatrix.h:178-189 | fails exactly on a size mismatch, with `throw 0`; otherwise the inner product |
| Algebra.VecSubUndoesVecAdd | include/tmatrix.h:153-177 | (a + b) - b is a whenever a + b succeeds |
| Algebra.VecSubScalarUndoesVecAddScalar | include/tmatrix.h:129-143 | (a + x) - x is a whenever a + x succeeds |
| Algebra.Collect | include/tmatrix.h:296-298 | a row loop succeeds exactly when every row does, with row i's value; on failure it reports the error of a row before which all rows succeeded |
| Algebra.CollectAllOk | include/tmatrix.h:296-298 | when every row succeeds, the row loop succeeds with the rows' values in order |
| Algebra.CollectFailsWith | include/tmatrix.h:296-298 | the row loop fails with error e exactly when some row fails with e and every earlier row succeeds |
| Algebra.CollectStopsAt | include/tmatrix.h:296-298 | the row loop fails with the error of the first failing row |
| Algebra.MatScale | include/tmatrix.h:294-300 | succeeds exactly when the row count is in 1..MAX_MATRIX_SIZE and every row length in 1..MAX_VECTOR_SIZE; fails with out_of_range exactly when there are no rows or the first inadmissible row is empty, otherwise with `throw 0`; row i is row i times x |
| Algebra.MatAdd | include/tmatrix.h:320-329 | `throw 0` on a row-count mismatch; succeeds exactly when the row counts agree and are admissible and each row pair has one admissible length; fails with out_of_range exactly when there are no rows or the first rejected row pair is two empty rows, otherwise with `throw 0`; row i is the element-wise sum |
| Algebra.MatSub | include/tmatrix.h:330-339 | as MatAdd with differences |
| Algebra.MatSubUndoesMatAdd | include/tmatrix.h:320-339 | (a + b) - b is a whenever a + b succeeds |
| Algebra.MatVecProduct | include/tmatrix.h:310-315 | the reference value of matrix times vector: entry i is row i times the first |row i| entries of v |
| Algebra.MatMulVec | include/tmatrix.h:303-317 | `throw 0` when the row count differs from the vector length, out_of_range exactly for two empty operands; for rectangular input entry i is row i times v |
| Algebra.MatVecScales | include/tmatrix.h:294-317 | (a * k) * v equals (a * v) * k |
| Algebra.TruncatedProduct | include/tmatrix.h:344-353 | an n x p result, n the left row count, whose entry (i, j) is the sum over k < n of l[i][k] * r[k][j] |
| Algebra.MulDefined | include/tmatrix.h:340-351 | the inputs on which matrix times matrix reads only inside its operands: row 0 exists, and after a passed check and allocation there are at least as many right rows as left rows, every left row has at least as many entries as there are left rows, and the first |l| right rows have the length of right row 0 |
| Algebra.MatMul | include/tmatrix.h:340-355 | `throw 0` when the length of left row 0 differs from the right row count; succeeds exactly when they agree and the allocation of an n x p matrix passes; the value is the truncated sum |
| Algebra.Product | include/tmatrix.h:340-355 | the standard matrix product, summing over the full inner dimension |
| Algebra.ProductColumnIsMatVec | include/tmatrix.h:340-355 | every column j of the standard product is the left matrix times column j of the right one |
| Algebra.MatMulIntended | include/tmatrix.h:340-355 | the intended operator: `throw 0` when the length of left row 0 differs from the right row count; success exactly when they agree and the n x p allocation passes; then an n x p result whose every column j is the left matrix times column j of the right one |
| Algebra.InnerProductZerosLeft | include/tmatrix.h:184-186 | the dot product with a zero vector is 0 |
| Algebra.RowProductTimesVector | include/tmatrix.h:340-355 | for one left row, summing (row times r) against v equals the row against r v: the double sum can be reordered |
| Algebra.ProductTimesVector | include/tmatrix.h:340-355 | the standard product composes with matrix times vector: (l r) v == l (r v) |
| Algebra.SquareProductIsStandard | include/tmatrix.h:340-355 | for a square left operand the operator as written equals MatMulIntended, the allocation check followed by the standard product |
| Algebra.TruncatedProductCounterexample | include/tmatrix.h:350 | [[1, 1]] times [[1], [1]] passes the check and gives [[1]], while the standard product is [[2]] |
| Algebra.InnerProductOfPairs | include/tmatrix.h:184-186 | the inner product of two pairs, written out |
| Algebra.TallProductCounterexample | include/tmatrix.h:342-351 | a 3 x 2 left times a 2 x 2 right passes the check and the allocation but lies outside MulDefined, because the loops read a third right row; MatMulIntended gives [[1, 2], [3, 4], [4, 6]] |
| Vectors.DynamicVector.Zeroed | include/tmatrix.h:33 | `n` zero elements in a fresh buffer |
| Vectors.DynamicVector.New | include/tmatrix.h:27-34 | the size check's error, or a fresh vector of `n` zeros; `n` defaults to 1, as `size = 1` does |
| Vectors.DynamicVector.FromSeq | include/tmatrix.h:35-46 | copies the given elements in order, without a size check |
| Vectors.DynamicVector.Copy | include/tmatrix.h:47-52 | a fresh buffer with the same size and elements |
| Vectors.DynamicVector.Move | include/tmatrix.h:53-58 | takes over the source's size and buffer; the source is left empty, with a fresh empty buffer of its own |
| Vectors.DynamicVector.Swap | include/tmatrix.h:191-195 | exchanges sizes and buffers |
| Vectors.DynamicVector.Assign | include/tmatrix.h:63-75 | the contents become those of `v`; self-assignment changes nothing; the buffer is kept when the sizes agree and is fresh when they differ |
| Vectors.DynamicVector.MoveAssign | include/tmatrix.h:76-82 | takes over `v`'s size and buffer and leaves `v` empty, with a fresh empty buffer of its own; a self-move leaves the vector empty |
| Vectors.DynamicVector.Size | include/tmatrix.h:84 | the number of elements |
| Vectors.DynamicVector.Get | include/tmatrix.h:91-94 | element i, for an index in range |
| Vectors.DynamicVector.Set | include/tmatrix.h:87-90 | element i alone changes |
| Vectors.DynamicVector.At | include/tmatrix.h:103-109 | `throw 0` exactly for an index at or above the size, otherwise element i |
| Vectors.DynamicVector.SetAt | include/tmatrix.h:96-102 | fails exactly for an out-of-range index, changing nothing; otherwise element i alone changes |
| Vectors.DynamicVector.Equals | include/tmatrix.h:112-122 | false for different sizes; true exactly when the contents are equal, so the relation is reflexive and symmetric |
| Vectors.DynamicVector.NotEquals | include/tmatrix.h:123-126 | true exactly when the contents differ |
| Vectors.DynamicVector.AddScalar | include/tmatrix.h:129-136 | a fresh vector denoting VecAddScalar, or its error |
| Vectors.DynamicVector.SubScalar | include/tmatrix.h:137-143 | a fresh vector denoting VecSubScalar, or its error |
| Vectors.DynamicVector.MulScalar | include/tmatrix.h:144-150 | a fresh vector denoting VecMulScalar, or its error |
| Vectors.DynamicVector.Add | include/tmatrix.h:153-165 | a fresh vector denoting VecAdd, or its error |
| Vectors.DynamicVector.Sub | include/tmatrix.h:166-177 | a fresh vector denoting VecSub, or its error |
| Vectors.DynamicVector.Dot | include/tmatrix.h:178-189 | exactly VecDot: the inner product, or `throw 0` on a size mismatch |
| Matrices.DynamicMatrix.ZeroRows | include/tmatrix.h:225-226 | `n` fresh, pairwise unshared rows of `cols` zeros |
| Matrices.DynamicMatrix.Own | include/tmatrix.h:221-227 | the end of construction: the matrix takes a prepared row array whose rows share no object, and owns exactly that array and its rows |
| Matrices.DynamicMatrix.New | include/tmatrix.h:221-227 | the matrix size check's error, or a fresh s x s zero matrix; `s` defaults to 1, as `s = 1` does |
| Matrices.DynamicMatrix.NewRect | include/tmatrix.h:228-234 | the rectangular check's error, or a fresh s x m zero matrix |
| Matrices.DynamicMatrix.FromRows | include/tmatrix.h:240-245 | the row-count check's error, or a fresh matrix with exactly the given rows |
| Matrices.DynamicMatrix.CopyRowsFrom | include/tmatrix.h:237-238 | row by row, the contents become those of `m`, which stays unchanged, keeping the row array |
| Matrices.DynamicMatrix.AssignRow | include/tmatrix.h:238 | row i alone takes the contents of `v` |
| Matrices.DynamicMatrix.MoveRow | include/tmatrix.h:226 | row i alone takes the temporary's contents |
| Matrices.DynamicMatrix.CopyOf | include/tmatrix.h:235-239 | out_of_range for a row count of 0, otherwise an independent copy with equal contents |
| Matrices.DynamicMatrix.Move | include/tmatrix.h:251-257 | takes over the rows; the source is left empty, owning only itself and a fresh empty row array |
| Matrices.DynamicMatrix.Assign | include/tmatrix.h:259-271 | the contents become those of `m`; self-assignment changes nothing; the row array is kept when the sizes agree |
| Matrices.DynamicMatrix.MoveAssign | include/tmatrix.h:272-282 | takes over the rows and leaves `m` empty, owning only itself and a fresh empty row array; self-move changes nothing |
| Matrices.DynamicMatrix.Size | include/tmatrix.h:248 | the row count |
| Matrices.DynamicMatrix.Row | include/tmatrix.h:247 | row i, for an index in range |
| Matrices.DynamicMatrix.RowAt | include/tmatrix.h:249 | `throw 0` exactly for an index at or above the row count, otherwise row i |
| Matrices.DynamicMatrix.SetElement | include/tmatrix.h:247 | element (i, j) alone changes |
| Matrices.DynamicMatrix.SetElementAt | include/tmatrix.h:249 | fails exactly when either index is out of range, changing nothing; otherwise only element (i, j) changes |
| Matrices.DynamicMatrix.Equals | include/tmatrix.h:284-287 | false for different row counts; true exactly when all rows are equal, so reflexive and symmetric |
| Matrices.DynamicMatrix.NotEquals | include/tmatrix.h:288-291 | true exactly when the contents differ |
| Matrices.DynamicMatrix.Scale | include/tmatrix.h:294-300 | a fresh matrix denoting MatScale of the old contents, or its error |
| Matrices.DynamicMatrix.ScaleInto | include/tmatrix.h:297-298 | the row loop ends in the result or error of the rows times the scalar |
| Matrices.DynamicMatrix.ScaleRow | include/tmatrix.h:298 | row i becomes u times the scalar, or the row operation's error |
| Matrices.DynamicMatrix.MulVector | include/tmatrix.h:303-317 | a fresh vector denoting MatMulVec of the old operands, or its error |
| Matrices.DynamicMatrix.MulVectorInto | include/tmatrix.h:310-315 | entry i becomes row i times the first |row i| entries of v |
| Matrices.DynamicMatrix.Add | include/tmatrix.h:320-329 | a fresh matrix denoting MatAdd of the old operands, or its error |
| Matrices.DynamicMatrix.AddInto | include/tmatrix.h:326-327 | the row loop ends in the result or error of the row sums |
| Matrices.DynamicMatrix.AddRow | include/tmatrix.h:327 | row i becomes u + v, or the row operation's error |
| Matrices.DynamicMatrix.Sub | include/tmatrix.h:330-339 | a fresh matrix denoting MatSub of the old operands, or its error |
| Matrices.DynamicMatrix.SubInto | include/tmatrix.h:336-337 | the row loop ends in the result or error of the row differences |
| Matrices.DynamicMatrix.SubRow | include/tmatrix.h:337 | row i becomes u - v, or the row operation's error |
| Matrices.DynamicMatrix.Mul | include/tmatrix.h:340-355 | a fresh matrix denoting MatMul of the old operands, or its error |
| Matrices.DynamicMatrix.MulInto | include/tmatrix.h:345-353 | the result holds TruncatedProduct |
| Matrices.DynamicMatrix.MulRowInto | include/tmatrix.h:347-352 | row i alone becomes ProductRow |
| Matrices.DynamicMatrix.FillRow | include/tmatrix.h:347-352 | the j loop fills the row with ProductRow |
| Matrices.DynamicMatrix.Entry | include/tmatrix.h:349-351 | the k loop yields the truncated sum for (i, j) |
| Scenarios.ScalarOpsOfTestVectors | test/test_tvector.cpp:151-176 | {11, 16, 21} + 5 is {16, 21, 26}, {5, 6, 7} - 1 is {4, 5, 6}, {3, 4, 1} * 3 is {9, 12, 3} |
| Scenarios.SumAndDifferenceOfTestVectors | test/test_tvector.cpp:178-204 | {4, 2, 4} + {4, 1, 6} is {8, 3, 10} and {6, 9, 5} - {1, 2, 3} is {5, 7, 2} |
| Scenarios.DotOfTestVectors | test/test_tvector.cpp:214-221 | (2, 1, 1) * (4, 3, 1) is 12 |
| Scenarios.MismatchedVectorsAreRejected | test/test_tvector.cpp:188-229 | with `throw 0`: 4 and 6 by +, 4 and 5 by -, 3 and 4 by the dot product |
| Scenarios.ScaleOfTestMatrix | test/test_tmatrix.cpp:134-142 | {{2, 3}, {5, 7}} * 3 is {{6, 9}, {15, 21}} |
| Scenarios.MatVecOfTestMatrix | test/test_tmatrix.cpp:145-153 | the test matrix times (3, 1, 2) is (7, 9, 7) |
| Scenarios.SumAndDifferenceOfTestMatrices | test/test_tmatrix.cpp:155-185 | 120 + 180 is 300 and 300 - 110 is 190 at (0, 0), zero elsewhere |
| Scenarios.MismatchedMatricesAreRejected | test/test_tmatrix.cpp:167-193 | 4 x 4 + 5 x 5 and 3 x 3 - 4 x 4 are rejected |
| Scenarios.ProductOfTestMatrices | test/test_tmatrix.cpp:195-203 | {{1, 2}, {3, 4}} times {{5, 6, 7}, {8, 9, 10}} is {{21, 24, 27}, {47, 54, 61}} |
| Scenarios.MismatchedProductIsRejected | test/test_tmatrix.cpp:205-211 | rows of length 3 against 2 right rows are rejected |
| Scenarios.TooLargeVectorIsRejected | test/test_tvector.cpp:10-13 | TDynamicVector(MAX_VECTOR_SIZE + 1) fails with `throw 0` |
| Scenarios.NegativeLengthVectorIsRejected | test/test_tvector.cpp:15-18 | TDynamicVector(-5) fails with `throw 0` |
| Scenarios.TooLargeMatrixIsRejected | test/test_tmatrix.cpp:10-13 | TDynamicMatrix(MAX_MATRIX_SIZE + 1) fails with `throw 0` |
| Scenarios.NegativeLengthMatrixIsRejected | test/test_tmatrix.cpp:15-18 | TDynamicMatrix(-5) fails with `throw 0` |
| Scenarios.NegativeVectorIndexIsRejected | test/test_tvector.cpp:74-79 | `v.at(-2) = 10` on a vector of 5 fails with `throw 0` and writes nothing |
| Scenarios.LargeVectorIndexIsRejected | test/test_tvector.cpp:81-86 | `v.at(8) = 1` on a vector of 4 fails with `throw 0` and writes nothing |
| Scenarios.NegativeRowIndexIsRejected | test/test_tmatrix.cpp:60-65 | `at(-1)` on a 5 x 5 matrix fails with `throw 0` before any element is written |
| Scenarios.LargeRowIndexIsRejected | test/test_tmatrix.cpp:67-72 | `at(6)` on a 5 x 5 matrix fails with `throw 0` before any element is written |
| Scenarios.CopiedVectorHasItsOwnMemory | test/test_tvector.cpp:46-57 | after copying and writing element 0 of the copy, the copy differs there alone and the source is unchanged |
| Scenarios.MovedVectorLeavesSourceEmpty | test/test_tvector.cpp:241-250 | after `v2 = std::move(v1)` on a default-sized v2, v2 holds v1's old contents and v1 is empty with a new buffer of its own |
| Scenarios.MovedMatrixLeavesSourceEmpty | test/test_tmatrix.cpp:224-234 | after `m2 = std::move(m1)` on a default-sized m2, m2 holds m1's old rows and m1 is empty, sharing no object with m2 |
| Scenarios.CopiedMatrixHasItsOwnMemory | test/test_tmatrix.cpp:35-43 | after copying and writing element (1, 1) of the source, the source differs there alone and the copy keeps the old contents |

## Left out

- Stream input and output (`operator>>`, `operator<<`, include/tmatrix.h:197-209 and 357-369) are I/O and are not modelled.
- The destructor and `delete[]` are not modelled: Dafny has no explicit deallocation. As a result the model cannot see that the move assignments leak the old buffer or rows.
- The template parameter is fixed to `int`, with unbounded integers. Overflow of the C++ `int` arithmetic is not modelled.
- `operator-(double)` and `operator*(double)` (include/tmatrix.h:137, 144) take a `double`. The model takes an `int`, so the conversion through floating point is not modelled.
- Vectors.DynamicVector.FromSeq: the `assert(arr != nullptr)` of the pointer constructor (include/tmatrix.h:37) has no counterpart, because a Dafny sequence is never null.
- The source builds each matrix row on top of a default row of size 1 and then replaces it. The model builds the rows directly. The only visible difference is which buffers are freshly allocated.
- Matrices.DynamicMatrix.MulVectorInto, Matrices.DynamicMatrix.Entry: the source accumulates directly into the result element. The model accumulates in a local and stores it once. No other access can observe the difference.
- Matrices.DynamicMatrix.Scale, Add, Sub, MulVector, Mul: the results are stated over the operands' contents at entry (`old`). These contracts say nothing about aliasing between the result and the operands beyond freshness.
- Matrices.DynamicMatrix.Assign requires distinct matrices to own no common object. The source has no such requirement, but two C++ matrices cannot share rows except through undefined behaviour.
- The gtest harness itself is not modelled. Its concrete cases appear as the lemmas of `Scenarios`.

## Findings

| source | as written | input that shows it | evidently intended | confidence | as-written member | corrected member |
|---|---|---|---|---|---|---|
| include/tmatrix.h:350 | the innermost loop of matrix times matrix runs `k < sz`, the left operand's ROW count | [[1, 1]] times [[1], [1]]: the check passes (row length 2 equals 2 right rows) and the result is [[1]] | `k` runs over the left operand's column count (`m.sz`), giving [[2]] | high, not executed | Algebra.TruncatedProductCounterexample | Algebra.MatMulIntended (built on Algebra.Product), with Algebra.ProductColumnIsMatVec, Algebra.ProductTimesVector and Algebra.SquareProductIsStandard |
| include/tmatrix.h:347 | with more left rows than columns, the check at :342 passes, but the `j` loop reads `m.pMem[i]` and the `k` loop reads `m.pMem[k]` past the end of the right operand and `pMem[i][k]` past the end of a left row | [[1, 0], [0, 1], [1, 1]] times [[1, 2], [3, 4]]: the check and the 3 x 2 allocation pass, then row 2 of the 2-row right operand is read | the loops stay within the operands and give [[1, 2], [3, 4], [4, 6]] | high, not executed | Algebra.MulDefined, shown by Algebra.TallProductCounterexample | Algebra.MatMulIntended, with Algebra.TallProductCounterexample |
