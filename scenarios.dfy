/** The concrete cases of the repository's unit tests, stated on the value
    specifications: each lemma fixes the inputs of one test and proves the
    outcome that test expects. */
module Scenarios {
  import opened Algebra
  import opened Vectors
  import opened Matrices

  /** The inner product of two triples, written out. */
  lemma InnerProductOfTriples(a: seq<int>, b: seq<int>)
    requires |a| == |b| == 3
    ensures InnerProduct(a, b) == a[0] * b[0] + a[1] * b[1] + a[2] * b[2]
  {
    InnerProductOfPairs(a[..2], b[..2]);
    assert a[..3] == a && b[..3] == b;
    InnerProductStep(a, b, 2);
  }

  /** can_multiply_vectors_with_equal_size: (2, 1, 1) * (4, 3, 1) is 12. */
  lemma DotOfTestVectors()
    ensures VecDot([2, 1, 1], [4, 3, 1]) == Ok(12)
  {
    InnerProductOfTriples([2, 1, 1], [4, 3, 1]);
  }

  /** can_add_scalar_to_vector, can_subtract_scalar_from_vector and
      can_multiply_scalar_by_vector. */
  lemma ScalarOpsOfTestVectors()
    ensures VecAddScalar([11, 16, 21], 5) == Ok([16, 21, 26])
    ensures VecSubScalar([5, 6, 7], 1) == Ok([4, 5, 6])
    ensures VecMulScalar([3, 4, 1], 3) == Ok([9, 12, 3])
  {
    assert AddEach([11, 16, 21], 5) == [16, 21, 26];
    assert SubEach([5, 6, 7], 1) == [4, 5, 6];
    assert MulEach([3, 4, 1], 3) == [9, 12, 3];
  }

  /** can_add_vectors_with_equal_size and can_subtract_vectors_with_equal_size
      (the test computes v2 - v1 with v1 = (1, 2, 3)). */
  lemma SumAndDifferenceOfTestVectors()
    ensures VecAdd([4, 2, 4], [4, 1, 6]) == Ok([8, 3, 10])
    ensures VecSub([6, 9, 5], [1, 2, 3]) == Ok([5, 7, 2])
  {
    assert AddPairwise([4, 2, 4], [4, 1, 6]) == [8, 3, 10];
    assert SubPairwise([6, 9, 5], [1, 2, 3]) == [5, 7, 2];
  }

  /** cant_add_vectors_with_not_equal_size (sizes 4 and 6),
      cant_subtract_vectors_with_not_equal_size (4 and 5) and
      cant_multiply_vectors_with_not_equal_size (3 and 4). */
  lemma MismatchedVectorsAreRejected()
    ensures VecAdd(Zeros(4), Zeros(6)) == Err(ThrowZero)
    ensures VecSub(Zeros(4), Zeros(5)) == Err(ThrowZero)
    ensures VecDot(Zeros(3), Zeros(4)) == Err(ThrowZero)
  {
  }

  /** can_multiply_matrix_and_scalar: {{2, 3}, {5, 7}} * 3. */
  lemma ScaleOfTestMatrix()
    ensures MatScale([[2, 3], [5, 7]], 3) == Ok([[6, 9], [15, 21]])
  {
    var rs := ScaleRows([[2, 3], [5, 7]], 3);
    assert MulEach([2, 3], 3) == [6, 9] && MulEach([5, 7], 3) == [15, 21];
    CollectAllOk(rs, [[6, 9], [15, 21]]);
  }

  /** can_multiply_matrix_and_vector: {{1, 0, 2}, {0, 1, 4}, {2, 1, 0}}
      times (3, 1, 2) is (7, 9, 7). */
  lemma MatVecOfTestMatrix()
    ensures MatMulVec([[1, 0, 2], [0, 1, 4], [2, 1, 0]], [3, 1, 2]) == Ok([7, 9, 7])
  {
    var a: seq<seq<int>> := [[1, 0, 2], [0, 1, 4], [2, 1, 0]];
    var v := [3, 1, 2];
    assert v[..3] == v;
    InnerProductOfTriples(a[0], v);
    InnerProductOfTriples(a[1], v);
    InnerProductOfTriples(a[2], v);
    assert MatVecProduct(a, v) == [7, 9, 7];
  }

  /** can_multiply_matrix: {{1, 2}, {3, 4}} times {{5, 6, 7}, {8, 9, 10}}.
      The left matrix has as many rows as columns, so the sum over the left
      row count is the whole inner product. */
  lemma ProductOfTestMatrices()
    ensures MatMul([[1, 2], [3, 4]], [[5, 6, 7], [8, 9, 10]]) == Ok([[21, 24, 27], [47, 54, 61]])
  {
    var l: seq<seq<int>> := [[1, 2], [3, 4]];
    var r: seq<seq<int>> := [[5, 6, 7], [8, 9, 10]];
    assert ProductShape(l, r);
    forall i, j | 0 <= i < 2 && 0 <= j < 3
      ensures ProductEntry(l, r, i, j) == l[i][0] * r[0][j] + l[i][1] * r[1][j]
    {
      InnerProductOfPairs(l[i][..2], Column(r, j, 2));
    }
    var t := TruncatedProduct(l, r);
    assert t[0] == [21, 24, 27] && t[1] == [47, 54, 61];
    assert t == [[21, 24, 27], [47, 54, 61]];
  }

  /** cant_multiply_matrix_with_not_equal_sizes: rows of length 3 against a
      right matrix of 2 rows. */
  lemma MismatchedProductIsRejected()
    ensures MatMul([[1, 6, 7], [4, 1, 5]], [[10, 9, 7], [1, 1, 2]]) == Err(ThrowZero)
  {
  }

  /** cant_add_matrices_with_not_equal_size (4 x 4 against 5 x 5) and
      cant_subtract_matrixes_with_not_equal_size (3 x 3 against 4 x 4). */
  lemma MismatchedMatricesAreRejected()
    ensures MatAdd(ZeroMatrix(4, 4), ZeroMatrix(5, 5)) == Err(ThrowZero)
    ensures MatSub(ZeroMatrix(3, 3), ZeroMatrix(4, 4)) == Err(ThrowZero)
  {
  }

  /** can_add_matrices_with_equal_size and can_subtract_matrices_with_equal_size:
      3 x 3 zero matrices with only element (0, 0) set. */
  lemma SumAndDifferenceOfTestMatrices()
    ensures MatAdd(WithCorner(120), WithCorner(180)) == Ok(WithCorner(300))
    ensures MatSub(WithCorner(300), WithCorner(110)) == Ok(WithCorner(190))
  {
    var z := Zeros(3);
    assert AddPairwise([120, 0, 0], [180, 0, 0]) == [300, 0, 0];
    assert AddPairwise(z, z) == z;
    assert SubPairwise([300, 0, 0], [110, 0, 0]) == [190, 0, 0];
    assert SubPairwise(z, z) == z;
    CollectAllOk(AddRows(WithCorner(120), WithCorner(180)), WithCorner(300));
    CollectAllOk(SubRows(WithCorner(300), WithCorner(110)), WithCorner(190));
  }

  /** A TDynamicMatrix(3) after `m[0][0] = x`. */
  function WithCorner(x: int): (m: seq<seq<int>>)
    ensures |m| == 3 && IsRect(m, 3)
  {
    [[x, 0, 0], Zeros(3), Zeros(3)]
  }

  /** throws_when_set_element_with_negative_index for vectors: `v.at(-2) = 10`
      on a vector of 5 reaches at() as a huge size_t and fails, writing
      nothing. */
  method NegativeVectorIndexIsRejected(v: DynamicVector) returns (s: Status)
    requires v.Valid() && v.sz == 5
    modifies v.mem
    ensures s == Fail(ThrowZero) && v.Valid() && v.Contents() == old(v.Contents())
  {
    WrappedNegativeIsRejected(-2);
    s := v.SetAt(SizeT(-2), 10);
  }

  /** throws_when_set_element_with_too_large_index for vectors: `v.at(8) = 1`
      on a vector of 4 fails, writing nothing. */
  method LargeVectorIndexIsRejected(v: DynamicVector) returns (s: Status)
    requires v.Valid() && v.sz == 4
    modifies v.mem
    ensures s == Fail(ThrowZero) && v.Valid() && v.Contents() == old(v.Contents())
  {
    s := v.SetAt(8, 1);
  }

  /** throws_when_set_element_with_negative_index for matrices: `m.at(-1)` on
      a 5 x 5 matrix fails before any row is touched. */
  lemma NegativeRowIndexIsRejected(m: DynamicMatrix)
    requires m.Valid() && m.sz == 5
    ensures m.RowAt(SizeT(-1)) == Err(ThrowZero)
  {
    WrappedNegativeIsRejected(-1);
  }

  /** throws_when_set_element_with_too_large_index for matrices: `m.at(6)` on
      a 5 x 5 matrix fails before any element is written. */
  lemma LargeRowIndexIsRejected(m: DynamicMatrix)
    requires m.Valid() && m.sz == 5
    ensures m.RowAt(6) == Err(ThrowZero)
  {
  }

  /** cant_create_too_large_vector: TDynamicVector(MAX_VECTOR_SIZE + 1) throws. */
  method TooLargeVectorIsRejected() returns (r: Result<DynamicVector>)
    ensures r == Err(ThrowZero)
  {
    r := DynamicVector.New(MAX_VECTOR_SIZE + 1);
  }

  /** throws_when_create_vector_with_negative_length: TDynamicVector(-5) gets
      a huge size_t and throws. */
  method NegativeLengthVectorIsRejected() returns (r: Result<DynamicVector>)
    ensures r == Err(ThrowZero)
  {
    WrappedNegativeIsRejected(-5);
    r := DynamicVector.New(SizeT(-5));
  }

  /** cant_create_too_large_matrix: TDynamicMatrix(MAX_MATRIX_SIZE + 1) throws. */
  method TooLargeMatrixIsRejected() returns (r: Result<DynamicMatrix>)
    ensures r == Err(ThrowZero)
  {
    r := DynamicMatrix.New(MAX_MATRIX_SIZE + 1);
  }

  /** throws_when_create_matrix_with_negative_length: TDynamicMatrix(-5) gets
      a huge size_t and throws. */
  method NegativeLengthMatrixIsRejected() returns (r: Result<DynamicMatrix>)
    ensures r == Err(ThrowZero)
  {
    WrappedNegativeIsRejected(-5);
    r := DynamicMatrix.New(SizeT(-5));
  }

  /** copied_vector_has_its_own_memory: writing to a copy leaves the source
      as it was. */
  method CopiedVectorHasItsOwnMemory(v: DynamicVector, x: int) returns (c: DynamicVector)
    requires v.Valid() && v.sz >= 1
    ensures c.Valid() && c.Contents() == v.Contents()[0 := x]
    ensures v.Contents() == old(v.Contents())
  {
    c := new DynamicVector.Copy(v);
    c.Set(0, x);
  }

  /** copied_matrix_has_its_own_memory: after a copy, writing element (1, 1)
      of the source leaves the copy as it was. */
  method CopiedMatrixHasItsOwnMemory(m: DynamicMatrix, x: int) returns (c: DynamicMatrix)
    requires m.Valid() && 2 <= m.sz <= MAX_VECTOR_SIZE && m.mem[1].sz >= 2
    modifies m.mem[1].mem
    ensures m.Valid() && m.Contents() == old(m.Contents())[1 := old(m.Contents())[1][1 := x]]
    ensures c.Valid() && c.Contents() == old(m.Contents())
  {
    var r := DynamicMatrix.CopyOf(m);
    c := r.value;
    m.SetElement(1, 1, x);
  }

  /** can_move_object for vectors: `TDynamicVector<int> v2; v2 = std::move(v1);`
      gives v2 the old contents of v1 and leaves v1 empty, with a new buffer
      of its own. */
  method MovedVectorLeavesSourceEmpty(v1: DynamicVector) returns (v2: DynamicVector)
    requires v1.Valid()
    modifies v1
    ensures v2.Valid() && v2.Contents() == old(v1.Contents())
    ensures v1.Valid() && v1.sz == 0 && fresh(v1.mem) && v1.mem != v2.mem
  {
    var r := DynamicVector.New();
    v2 := r.value;
    v2.MoveAssign(v1);
  }

  /** can_move_object for matrices: `TDynamicMatrix<int> m2; m2 = std::move(m1);`
      gives m2 the old rows of m1 and leaves m1 empty, sharing no object
      with m2. */
  method MovedMatrixLeavesSourceEmpty(m1: DynamicMatrix) returns (m2: DynamicMatrix)
    requires m1.Valid()
    modifies m1
    ensures m2.Valid() && m2.Contents() == old(m1.Contents())
    ensures m1.Valid() && m1.sz == 0 && fresh(m1.mem) && m1.Repr !! m2.Repr
  {
    var r := DynamicMatrix.New();
    m2 := r.value;
    m2.MoveAssign(m1);
  }
}
