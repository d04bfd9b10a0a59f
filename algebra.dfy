/** The value-level meaning of tmatrix.h with T = int: the size checks its
    constructors run, how its operators fail, and what their results are as
    sequences. The classes in vectors.dfy and matrices.dfy are proved against
    these functions. */
module Algebra {

  /** The two ways tmatrix.h signals failure. */
  datatype Error =
    | OutOfRange  // std::out_of_range, thrown only for a zero vector size
    | ThrowZero   // `throw 0`, every other failure

  datatype Status = Pass | Fail(error: Error)

  datatype Result<T> = Ok(value: T) | Err(error: Error)

  const MAX_VECTOR_SIZE: nat := 100000000
  const MAX_MATRIX_SIZE: nat := 10000

  /** 2^64: an `int` argument passed where `size_t` is expected is taken modulo this. */
  const SIZE_T_MODULUS: nat := 0x1_0000_0000_0000_0000

  /** The conversion of an `int` argument (such as `-5` or `-2`) to `size_t`:
      a value in range is kept, a negative one wraps around to 2^64 + x. */
  function SizeT(x: int): (r: nat)
    ensures r < SIZE_T_MODULUS
    ensures 0 <= x < SIZE_T_MODULUS ==> r == x
    ensures -(SIZE_T_MODULUS as int) <= x < 0 ==> r == SIZE_T_MODULUS + x
  {
    x % SIZE_T_MODULUS
  }

  /** A status as a result that carries `v` when the status passed. */
  function Then<T>(s: Status, v: T): Result<T> {
    match s
    case Pass => Ok(v)
    case Fail(e) => Err(e)
  }

  // ---------------------------------------------------------------------------
  // Size checks

  /** The checks of TDynamicVector(size_t): zero is out_of_range, anything above
      MAX_VECTOR_SIZE is `throw 0`. */
  function CheckVectorSize(n: nat): (s: Status)
    ensures s.Pass? <==> 1 <= n <= MAX_VECTOR_SIZE
    ensures s == Fail(OutOfRange) <==> n == 0
  {
    if n == 0 then Fail(OutOfRange)
    else if n > MAX_VECTOR_SIZE then Fail(ThrowZero)
    else Pass
  }

  /** The checks of TDynamicMatrix(size_t s): those of the base vector of rows,
      then the row-count ceiling MAX_MATRIX_SIZE. */
  function CheckMatrixSize(s: nat): (r: Status)
    ensures r.Pass? <==> 1 <= s <= MAX_MATRIX_SIZE
    ensures r == Fail(OutOfRange) <==> s == 0
  {
    if CheckVectorSize(s).Fail? then CheckVectorSize(s)
    else if s > MAX_MATRIX_SIZE then Fail(ThrowZero)
    else Pass
  }

  /** The checks of TDynamicMatrix(size_t s, size_t m): the row count first, then
      the construction of each row of length m. */
  function CheckRectSize(s: nat, m: nat): (r: Status)
    ensures r.Pass? <==> 1 <= s <= MAX_MATRIX_SIZE && 1 <= m <= MAX_VECTOR_SIZE
    ensures r == Fail(OutOfRange) <==> s == 0 || (s <= MAX_MATRIX_SIZE && m == 0)
  {
    if CheckMatrixSize(s).Fail? then CheckMatrixSize(s) else CheckVectorSize(m)
  }

  /** A negative `int` size or index reaches the code as a huge `size_t`: every
      size check rejects it with `throw 0`, and it is at least as large as any
      vector the size checks admit. */
  lemma WrappedNegativeIsRejected(x: int)
    requires -(SIZE_T_MODULUS as int) / 2 <= x < 0
    ensures SizeT(x) == SIZE_T_MODULUS + x
    ensures SizeT(x) > MAX_VECTOR_SIZE
    ensures CheckVectorSize(SizeT(x)) == Fail(ThrowZero)
    ensures CheckMatrixSize(SizeT(x)) == Fail(ThrowZero)
  {
  }

  // ---------------------------------------------------------------------------
  // Element-wise operations and the inner product, on sequences

  function Zeros(n: nat): seq<int> {
    seq(n, _ => 0)
  }

  function AddEach(a: seq<int>, x: int): seq<int> {
    seq(|a|, i requires 0 <= i < |a| => a[i] + x)
  }

  function SubEach(a: seq<int>, x: int): seq<int> {
    seq(|a|, i requires 0 <= i < |a| => a[i] - x)
  }

  function MulEach(a: seq<int>, x: int): seq<int> {
    seq(|a|, i requires 0 <= i < |a| => a[i] * x)
  }

  function AddPairwise(a: seq<int>, b: seq<int>): seq<int>
    requires |a| == |b|
  {
    seq(|a|, i requires 0 <= i < |a| => a[i] + b[i])
  }

  function SubPairwise(a: seq<int>, b: seq<int>): seq<int>
    requires |a| == |b|
  {
    seq(|a|, i requires 0 <= i < |a| => a[i] - b[i])
  }

  /** The sum of a[i] * b[i], accumulated from 0 in index order. */
  function InnerProduct(a: seq<int>, b: seq<int>): int
    requires |a| == |b|
    decreases |a|
  {
    if |a| == 0 then 0
    else InnerProduct(a[..|a| - 1], b[..|a| - 1]) + a[|a| - 1] * b[|a| - 1]
  }

  /** Extending both prefixes by one position adds one product. */
  lemma InnerProductStep(a: seq<int>, b: seq<int>, k: nat)
    requires k < |a| == |b|
    ensures InnerProduct(a[..k + 1], b[..k + 1]) == InnerProduct(a[..k], b[..k]) + a[k] * b[k]
  {
    assert a[..k + 1][..k] == a[..k] && b[..k + 1][..k] == b[..k];
  }

  lemma {:induction false} InnerProductCommutes(a: seq<int>, b: seq<int>)
    requires |a| == |b|
    ensures InnerProduct(a, b) == InnerProduct(b, a)
    decreases |a|
  {
    if |a| > 0 {
      InnerProductCommutes(a[..|a| - 1], b[..|a| - 1]);
    }
  }

  /** The inner product is additive in its left operand. */
  lemma {:induction false} InnerProductAddsLeft(a: seq<int>, b: seq<int>, c: seq<int>)
    requires |a| == |b| == |c|
    ensures InnerProduct(AddPairwise(a, b), c) == InnerProduct(a, c) + InnerProduct(b, c)
    decreases |a|
  {
    if |a| > 0 {
      var n := |a| - 1;
      assert AddPairwise(a, b)[..n] == AddPairwise(a[..n], b[..n]);
      InnerProductAddsLeft(a[..n], b[..n], c[..n]);
    }
  }

  /** Scaling the left operand scales the inner product. */
  lemma {:induction false} InnerProductScalesLeft(a: seq<int>, b: seq<int>, k: int)
    requires |a| == |b|
    ensures InnerProduct(MulEach(a, k), b) == k * InnerProduct(a, b)
    decreases |a|
  {
    if |a| > 0 {
      var n := |a| - 1;
      assert MulEach(a, k)[..n] == MulEach(a[..n], k);
      InnerProductScalesLeft(a[..n], b[..n], k);
      calc {
        InnerProduct(MulEach(a, k), b);
        k * InnerProduct(a[..n], b[..n]) + (a[n] * k) * b[n];
        { assert (a[n] * k) * b[n] == k * (a[n] * b[n]); }
        k * (InnerProduct(a[..n], b[..n]) + a[n] * b[n]);
      }
    }
  }

  lemma SubEachUndoesAddEach(a: seq<int>, x: int)
    ensures SubEach(AddEach(a, x), x) == a
  {
  }

  lemma SubPairwiseUndoesAddPairwise(a: seq<int>, b: seq<int>)
    requires |a| == |b|
    ensures SubPairwise(AddPairwise(a, b), b) == a
  {
  }

  // ---------------------------------------------------------------------------
  // The operators of TDynamicVector<int>, failure included: every operator that
  // builds a new vector allocates it through TDynamicVector(size_t).

  function VecAddScalar(a: seq<int>, x: int): (r: Result<seq<int>>)
    ensures r.Ok? <==> 1 <= |a| <= MAX_VECTOR_SIZE
    ensures r == Err(OutOfRange) <==> |a| == 0
    ensures r.Ok? ==> |r.value| == |a| && forall i :: 0 <= i < |a| ==> r.value[i] == a[i] + x
  {
    Then(CheckVectorSize(|a|), AddEach(a, x))
  }

  function VecSubScalar(a: seq<int>, x: int): (r: Result<seq<int>>)
    ensures r.Ok? <==> 1 <= |a| <= MAX_VECTOR_SIZE
    ensures r == Err(OutOfRange) <==> |a| == 0
    ensures r.Ok? ==> |r.value| == |a| && forall i :: 0 <= i < |a| ==> r.value[i] == a[i] - x
  {
    Then(CheckVectorSize(|a|), SubEach(a, x))
  }

  function VecMulScalar(a: seq<int>, x: int): (r: Result<seq<int>>)
    ensures r.Ok? <==> 1 <= |a| <= MAX_VECTOR_SIZE
    ensures r == Err(OutOfRange) <==> |a| == 0
    ensures r.Ok? ==> |r.value| == |a| && forall i :: 0 <= i < |a| ==> r.value[i] == a[i] * x
  {
    Then(CheckVectorSize(|a|), MulEach(a, x))
  }

  function VecAdd(a: seq<int>, b: seq<int>): (r: Result<seq<int>>)
    ensures |a| != |b| ==> r == Err(ThrowZero)
    ensures r.Ok? <==> |a| == |b| && 1 <= |a| <= MAX_VECTOR_SIZE
    ensures r == Err(OutOfRange) <==> |a| == |b| == 0
    ensures r.Ok? ==> |r.value| == |a| && forall i :: 0 <= i < |a| ==> r.value[i] == a[i] + b[i]
  {
    if |a| != |b| then Err(ThrowZero) else Then(CheckVectorSize(|a|), AddPairwise(a, b))
  }

  function VecSub(a: seq<int>, b: seq<int>): (r: Result<seq<int>>)
    ensures |a| != |b| ==> r == Err(ThrowZero)
    ensures r.Ok? <==> |a| == |b| && 1 <= |a| <= MAX_VECTOR_SIZE
    ensures r == Err(OutOfRange) <==> |a| == |b| == 0
    ensures r.Ok? ==> |r.value| == |a| && forall i :: 0 <= i < |a| ==> r.value[i] == a[i] - b[i]
  {
    if |a| != |b| then Err(ThrowZero) else Then(CheckVectorSize(|a|), SubPairwise(a, b))
  }

  /** The dot product allocates nothing, so it fails only on a size mismatch. */
  function VecDot(a: seq<int>, b: seq<int>): (r: Result<int>)
    ensures r.Err? <==> |a| != |b|
    ensures r.Err? ==> r.error == ThrowZero
    ensures r.Ok? ==> r.value == InnerProduct(a, b)
  {
    if |a| != |b| then Err(ThrowZero) else Ok(InnerProduct(a, b))
  }

  lemma VecSubUndoesVecAdd(a: seq<int>, b: seq<int>)
    requires VecAdd(a, b).Ok?
    ensures VecSub(VecAdd(a, b).value, b) == Ok(a)
  {
    SubPairwiseUndoesAddPairwise(a, b);
  }

  lemma VecSubScalarUndoesVecAddScalar(a: seq<int>, x: int)
    requires VecAddScalar(a, x).Ok?
    ensures VecSubScalar(VecAddScalar(a, x).value, x) == Ok(a)
  {
    SubEachUndoesAddEach(a, x);
  }

  // ---------------------------------------------------------------------------
  // Row-by-row matrix operations

  /** The outcome of a loop that applies an operation to each row in turn and
      stops at the first row whose operation fails. */
  function Collect<T>(rs: seq<Result<T>>): (r: Result<seq<T>>)
    ensures r.Ok? <==> forall i :: 0 <= i < |rs| ==> rs[i].Ok?
    ensures r.Ok? ==> |r.value| == |rs| && forall i :: 0 <= i < |rs| ==> r.value[i] == rs[i].value
    ensures r.Err? ==> exists i :: 0 <= i < |rs| && rs[i] == Err(r.error) && forall k :: 0 <= k < i ==> rs[k].Ok?
    decreases |rs|
  {
    if |rs| == 0 then Ok([])
    else if rs[0].Err? then Err(rs[0].error)
    else
      match Collect(rs[1..])
      case Err(e) =>
        ghost var i :| 0 <= i < |rs[1..]| && rs[1..][i] == Err(e) && forall k :: 0 <= k < i ==> rs[1..][k].Ok?;
        assert rs[i + 1] == Err(e) && forall k :: 0 <= k < i + 1 ==> rs[k].Ok?;
        Err(e)
      case Ok(vs) => Ok([rs[0].value] + vs)
  }

  /** The row loop fails with the error of the first failing row. */
  lemma CollectStopsAt<T>(rs: seq<Result<T>>, i: nat)
    requires i < |rs| && rs[i].Err?
    requires forall k :: 0 <= k < i ==> rs[k].Ok?
    ensures Collect(rs) == Err(rs[i].error)
  {
    var r := Collect(rs);
    assert r.Err?;
    var j :| 0 <= j < |rs| && rs[j] == Err(r.error) && forall k :: 0 <= k < j ==> rs[k].Ok?;
    assert !(j < i) && !(i < j);
  }

  /** `rows` rows of `cols` zeros. */
  function ZeroMatrix(rows: nat, cols: nat): (m: seq<seq<int>>)
    ensures |m| == rows && forall i :: 0 <= i < rows ==> m[i] == Zeros(cols)
  {
    seq(rows, _ => Zeros(cols))
  }

  /** The row loop succeeds when every row does. */
  lemma CollectAllOk<T>(rs: seq<Result<T>>, vs: seq<T>)
    requires |vs| == |rs| && forall k :: 0 <= k < |rs| ==> rs[k] == Ok(vs[k])
    ensures Collect(rs) == Ok(vs)
  {
    assert Collect(rs).value == vs;
  }

  /** The row loop fails with a given error exactly when some row fails with
      it and every row before it succeeds. */
  lemma CollectFailsWith<T>(rs: seq<Result<T>>, e: Error)
    ensures Collect(rs) == Err(e) <==>
              exists i :: 0 <= i < |rs| && rs[i] == Err(e) && forall k :: 0 <= k < i ==> rs[k].Ok?
  {
    if i :| 0 <= i < |rs| && rs[i] == Err(e) && forall k :: 0 <= k < i ==> rs[k].Ok? {
      CollectStopsAt(rs, i);
    }
  }

  /** Rows 0 to n - 1 have lengths the vector size check admits. */
  predicate AdmissibleRowsBefore(a: seq<seq<int>>, n: nat)
    requires n <= |a|
  {
    forall k :: 0 <= k < n ==> 1 <= |a[k]| <= MAX_VECTOR_SIZE
  }

  /** A matrix whose every row has length `cols`. */
  predicate IsRect(m: seq<seq<int>>, cols: nat) {
    forall i :: 0 <= i < |m| ==> |m[i]| == cols
  }

  /** The per-row results of the row loops of the matrix operators. */
  function ScaleRows(a: seq<seq<int>>, x: int): (rs: seq<Result<seq<int>>>)
    ensures |rs| == |a| && forall i :: 0 <= i < |a| ==> rs[i] == VecMulScalar(a[i], x)
  {
    seq(|a|, i requires 0 <= i < |a| => VecMulScalar(a[i], x))
  }

  function AddRows(a: seq<seq<int>>, b: seq<seq<int>>): (rs: seq<Result<seq<int>>>)
    requires |a| == |b|
    ensures |rs| == |a| && forall i :: 0 <= i < |a| ==> rs[i] == VecAdd(a[i], b[i])
  {
    seq(|a|, i requires 0 <= i < |a| => VecAdd(a[i], b[i]))
  }

  function SubRows(a: seq<seq<int>>, b: seq<seq<int>>): (rs: seq<Result<seq<int>>>)
    requires |a| == |b|
    ensures |rs| == |a| && forall i :: 0 <= i < |a| ==> rs[i] == VecSub(a[i], b[i])
  {
    seq(|a|, i requires 0 <= i < |a| => VecSub(a[i], b[i]))
  }

  /** operator*(const T&): the result is allocated as TDynamicMatrix(sz), then
      row i is row i times the scalar. */
  function MatScale(a: seq<seq<int>>, x: int): (r: Result<seq<seq<int>>>)
    ensures r.Ok? <==> 1 <= |a| <= MAX_MATRIX_SIZE && forall i :: 0 <= i < |a| ==> 1 <= |a[i]| <= MAX_VECTOR_SIZE
    ensures r == Err(OutOfRange) <==>
              |a| == 0 || (|a| <= MAX_MATRIX_SIZE && exists i :: 0 <= i < |a| && |a[i]| == 0 && AdmissibleRowsBefore(a, i))
    ensures r.Ok? ==> |r.value| == |a| && forall i :: 0 <= i < |a| ==> r.value[i] == MulEach(a[i], x)
  {
    if CheckMatrixSize(|a|).Fail? then Err(CheckMatrixSize(|a|).error)
    else
      CollectFailsWith(ScaleRows(a, x), OutOfRange);
      Collect(ScaleRows(a, x))
  }

  /** The first row pair that the vector `+` or `-` rejects is a pair of empty
      rows: every earlier pair has one admissible length. */
  predicate FirstBadPairIsEmpty(a: seq<seq<int>>, b: seq<seq<int>>)
    requires |a| == |b|
  {
    exists i :: 0 <= i < |a| && |a[i]| == |b[i]| == 0 && AdmissibleRowsBefore(a, i)
                && forall k :: 0 <= k < i ==> |a[k]| == |b[k]|
  }

  /** operator+(const TDynamicMatrix&): the row counts must agree, then the
      result is allocated as TDynamicMatrix(sz), then each row pair goes
      through the vector `+`. */
  function MatAdd(a: seq<seq<int>>, b: seq<seq<int>>): (r: Result<seq<seq<int>>>)
    ensures |a| != |b| ==> r == Err(ThrowZero)
    ensures r.Ok? <==> |a| == |b| && 1 <= |a| <= MAX_MATRIX_SIZE
                       && forall i :: 0 <= i < |a| ==> |a[i]| == |b[i]| && 1 <= |a[i]| <= MAX_VECTOR_SIZE
    ensures r == Err(OutOfRange) <==> |a| == |b| && (|a| == 0 || (|a| <= MAX_MATRIX_SIZE && FirstBadPairIsEmpty(a, b)))
    ensures r.Ok? ==> |r.value| == |a| && forall i :: 0 <= i < |a| ==> r.value[i] == AddPairwise(a[i], b[i])
  {
    if |a| != |b| then Err(ThrowZero)
    else if CheckMatrixSize(|a|).Fail? then Err(CheckMatrixSize(|a|).error)
    else
      CollectFailsWith(AddRows(a, b), OutOfRange);
      Collect(AddRows(a, b))
  }

  /** operator-(const TDynamicMatrix&), as MatAdd with the vector `-`. */
  function MatSub(a: seq<seq<int>>, b: seq<seq<int>>): (r: Result<seq<seq<int>>>)
    ensures |a| != |b| ==> r == Err(ThrowZero)
    ensures r.Ok? <==> |a| == |b| && 1 <= |a| <= MAX_MATRIX_SIZE
                       && forall i :: 0 <= i < |a| ==> |a[i]| == |b[i]| && 1 <= |a[i]| <= MAX_VECTOR_SIZE
    ensures r == Err(OutOfRange) <==> |a| == |b| && (|a| == 0 || (|a| <= MAX_MATRIX_SIZE && FirstBadPairIsEmpty(a, b)))
    ensures r.Ok? ==> |r.value| == |a| && forall i :: 0 <= i < |a| ==> r.value[i] == SubPairwise(a[i], b[i])
  {
    if |a| != |b| then Err(ThrowZero)
    else if CheckMatrixSize(|a|).Fail? then Err(CheckMatrixSize(|a|).error)
    else
      CollectFailsWith(SubRows(a, b), OutOfRange);
      Collect(SubRows(a, b))
  }

  lemma MatSubUndoesMatAdd(a: seq<seq<int>>, b: seq<seq<int>>)
    requires MatAdd(a, b).Ok?
    ensures MatSub(MatAdd(a, b).value, b) == Ok(a)
  {
    var s := MatAdd(a, b).value;
    forall i | 0 <= i < |a|
      ensures SubPairwise(s[i], b[i]) == a[i]
    {
      SubPairwiseUndoesAddPairwise(a[i], b[i]);
    }
    var d := MatSub(s, b);
    assert d.Ok?;
    assert d.value == a;
  }

  // ---------------------------------------------------------------------------
  // Matrix times vector

  /** Every row is at most n long: the inner loop of operator*(const
      TDynamicVector&) reads v[j] unchecked for every j below the row length. */
  predicate RowsFit(a: seq<seq<int>>, n: nat) {
    forall i :: 0 <= i < |a| ==> |a[i]| <= n
  }

  /** Entry i is row i times the first |row i| entries of v. */
  function MatVecProduct(a: seq<seq<int>>, v: seq<int>): seq<int>
    requires RowsFit(a, |v|)
  {
    seq(|a|, i requires 0 <= i < |a| => InnerProduct(a[i], v[..|a[i]|]))
  }

  /** operator*(const TDynamicVector&): the ROW COUNT must equal the vector's
      length, then the result is allocated as TDynamicVector(sz). */
  function MatMulVec(a: seq<seq<int>>, v: seq<int>): (r: Result<seq<int>>)
    requires |a| == |v| && CheckVectorSize(|a|).Pass? ==> RowsFit(a, |v|)
    ensures |a| != |v| ==> r == Err(ThrowZero)
    ensures r.Ok? <==> |a| == |v| && 1 <= |a| <= MAX_VECTOR_SIZE
    ensures r == Err(OutOfRange) <==> |a| == |v| == 0
    ensures r.Ok? && IsRect(a, |v|) ==>
              |r.value| == |a| && forall i :: 0 <= i < |a| ==> r.value[i] == InnerProduct(a[i], v)
  {
    if |a| != |v| then Err(ThrowZero)
    else if CheckVectorSize(|a|).Fail? then Err(CheckVectorSize(|a|).error)
    else
      assert IsRect(a, |v|) ==> forall i :: 0 <= i < |a| ==> v[..|a[i]|] == v;
      Ok(MatVecProduct(a, v))
  }

  /** Scaling the matrix scales its product with a vector. */
  lemma MatVecScales(a: seq<seq<int>>, v: seq<int>, k: int)
    requires RowsFit(a, |v|)
    requires MatScale(a, k).Ok?
    ensures RowsFit(MatScale(a, k).value, |v|)
    ensures MatVecProduct(MatScale(a, k).value, v) == MulEach(MatVecProduct(a, v), k)
  {
    var s := MatScale(a, k).value;
    forall i | 0 <= i < |a|
      ensures InnerProduct(s[i], v[..|s[i]|]) == InnerProduct(a[i], v[..|a[i]|]) * k
    {
      InnerProductScalesLeft(a[i], v[..|a[i]|], k);
    }
  }

  // ---------------------------------------------------------------------------
  // Matrix times matrix

  /** Column j of the first n rows of r. */
  function Column(r: seq<seq<int>>, j: nat, n: nat): (c: seq<int>)
    requires n <= |r| && forall k :: 0 <= k < n ==> j < |r[k]|
    ensures |c| == n
  {
    seq(n, k requires 0 <= k < n => r[k][j])
  }

  /** The shapes for which the loops of operator*(const TDynamicMatrix&) stay in
      bounds once its check has passed: with n the left row count, every left
      row has at least n entries, the right operand has at least n rows, and
      its first n rows all have the length of its row 0. */
  predicate ProductShape(l: seq<seq<int>>, r: seq<seq<int>>) {
    && 1 <= |l| <= |r|
    && (forall i :: 0 <= i < |l| ==> |l| <= |l[i]|)
    && (forall k :: 0 <= k < |l| ==> |r[k]| == |r[0]|)
  }

  /** The inputs on which operator*(const TDynamicMatrix&) is defined: it reads
      pMem[0] unconditionally, and only a passed check leads into the loops. */
  predicate MulDefined(l: seq<seq<int>>, r: seq<seq<int>>) {
    && |l| >= 1
    && (|l[0]| == |r| ==> |r| >= 1 && (CheckRectSize(|l|, |r[0]|).Pass? ==> ProductShape(l, r)))
  }

  /** What the loops of operator*(const TDynamicMatrix&) compute: an n x p
      matrix, n the left row count and p the length of the right row 0, whose
      entry (i, j) sums l[i][k] * r[k][j] over k < n (the LEFT ROW count). */
  function TruncatedProduct(l: seq<seq<int>>, r: seq<seq<int>>): (m: seq<seq<int>>)
    requires ProductShape(l, r)
    ensures |m| == |l| && IsRect(m, |r[0]|)
    ensures forall i, j :: 0 <= i < |l| && 0 <= j < |r[0]| ==> m[i][j] == ProductEntry(l, r, i, j)
  {
    seq(|l|, i requires 0 <= i < |l| => ProductRow(l, r, i))
  }

  /** Row i of TruncatedProduct. */
  function ProductRow(l: seq<seq<int>>, r: seq<seq<int>>, i: nat): (row: seq<int>)
    requires ProductShape(l, r) && i < |l|
    ensures |row| == |r[0]| && forall j :: 0 <= j < |r[0]| ==> row[j] == ProductEntry(l, r, i, j)
  {
    seq(|r[0]|, j requires 0 <= j < |r[0]| => ProductEntry(l, r, i, j))
  }

  /** Entry (i, j) as the loops compute it: the first n entries of left row i
      times the first n entries of right column j, n the left row count. */
  function ProductEntry(l: seq<seq<int>>, r: seq<seq<int>>, i: nat, j: nat): int
    requires ProductShape(l, r) && i < |l| && j < |r[0]|
  {
    InnerProduct(l[i][..|l|], Column(r, j, |l|))
  }

  /** operator*(const TDynamicMatrix&): fails unless the length of left row 0
      equals the right row count; allocates the result as
      TDynamicMatrix(sz, m.pMem[0].size()). */
  function MatMul(l: seq<seq<int>>, r: seq<seq<int>>): (res: Result<seq<seq<int>>>)
    requires MulDefined(l, r)
    ensures |l[0]| != |r| ==> res == Err(ThrowZero)
    ensures res.Ok? <==> |l[0]| == |r| && 1 <= |l| <= MAX_MATRIX_SIZE && 1 <= |r[0]| <= MAX_VECTOR_SIZE
    ensures res.Ok? ==> res.value == TruncatedProduct(l, r)
  {
    if |l[0]| != |r| then Err(ThrowZero)
    else if CheckRectSize(|l|, |r[0]|).Fail? then Err(CheckRectSize(|l|, |r[0]|).error)
    else Ok(TruncatedProduct(l, r))
  }

  /** The standard product of an n x q matrix and a q x p matrix: entry (i, j)
      sums l[i][k] * r[k][j] over all k < q. */
  function Product(l: seq<seq<int>>, r: seq<seq<int>>): (m: seq<seq<int>>)
    requires |r| >= 1 && IsRect(l, |r|) && IsRect(r, |r[0]|)
    ensures |m| == |l| && IsRect(m, |r[0]|)
  {
    seq(|l|, i requires 0 <= i < |l| =>
      seq(|r[0]|, j requires 0 <= j < |r[0]| => InnerProduct(l[i], Column(r, j, |r|))))
  }

  /** Column j of the standard product is the left operand times column j of
      the right one. */
  lemma ProductColumnIsMatVec(l: seq<seq<int>>, r: seq<seq<int>>)
    requires |r| >= 1 && IsRect(l, |r|) && IsRect(r, |r[0]|)
    ensures RowsFit(l, |r|)
    ensures forall j :: 0 <= j < |r[0]| ==> Column(Product(l, r), j, |l|) == MatVecProduct(l, Column(r, j, |r|))
  {
    forall j | 0 <= j < |r[0]|
      ensures Column(Product(l, r), j, |l|) == MatVecProduct(l, Column(r, j, |r|))
    {
      var c := Column(r, j, |r|);
      assert forall i :: 0 <= i < |l| ==> c[..|l[i]|] == c;
    }
  }

  /** The inner product with a zero vector is 0. */
  lemma {:induction false} InnerProductZerosLeft(n: nat, v: seq<int>)
    requires |v| == n
    ensures InnerProduct(Zeros(n), v) == 0
  {
    if n > 0 {
      assert Zeros(n)[..n - 1] == Zeros(n - 1);
      InnerProductZerosLeft(n - 1, v[..n - 1]);
    }
  }

  /** The entries a * r[k] v summed over k rearrange into (a * r) v, for a row
      `a` of as many entries as `r` has rows. */
  lemma {:induction false} RowProductTimesVector(a: seq<int>, r: seq<seq<int>>, v: seq<int>)
    requires |r| == |a| && IsRect(r, |v|)
    ensures InnerProduct(seq(|v|, j requires 0 <= j < |v| => InnerProduct(a, Column(r, j, |r|))), v)
         == InnerProduct(a, seq(|r|, k requires 0 <= k < |r| => InnerProduct(r[k], v)))
    decreases |a|
  {
    var q := |a|;
    var ar := seq(|v|, j requires 0 <= j < |v| => InnerProduct(a, Column(r, j, q)));
    var rv := seq(q, k requires 0 <= k < q => InnerProduct(r[k], v));
    if q == 0 {
      assert ar == Zeros(|v|);
      InnerProductZerosLeft(|v|, v);
    } else {
      var n := q - 1;
      var a', r' := a[..n], r[..n];
      var ar' := seq(|v|, j requires 0 <= j < |v| => InnerProduct(a', Column(r', j, n)));
      var rv' := seq(n, k requires 0 <= k < n => InnerProduct(r'[k], v));
      forall j | 0 <= j < |v|
        ensures ar[j] == ar'[j] + r[n][j] * a[n]
      {
        assert Column(r, j, q)[..n] == Column(r', j, n);
      }
      assert ar == AddPairwise(ar', MulEach(r[n], a[n]));
      InnerProductAddsLeft(ar', MulEach(r[n], a[n]), v);
      InnerProductScalesLeft(r[n], v, a[n]);
      RowProductTimesVector(a', r', v);
      assert rv[..n] == rv';
    }
  }

  /** Multiplying by the standard product is multiplying by its factors in
      turn: (l r) v == l (r v). */
  lemma ProductTimesVector(l: seq<seq<int>>, r: seq<seq<int>>, v: seq<int>)
    requires |r| >= 1 && IsRect(l, |r|) && IsRect(r, |v|)
    ensures RowsFit(Product(l, r), |v|) && RowsFit(r, |v|) && RowsFit(l, |r|)
    ensures MatVecProduct(Product(l, r), v) == MatVecProduct(l, MatVecProduct(r, v))
  {
    var p, rv := Product(l, r), MatVecProduct(r, v);
    assert v[..|v|] == v;
    forall i | 0 <= i < |l|
      ensures InnerProduct(p[i], v[..|p[i]|]) == InnerProduct(l[i], rv[..|l[i]|])
    {
      assert rv[..|l[i]|] == rv;
      RowProductTimesVector(l[i], r, v);
      assert rv == seq(|r|, k requires 0 <= k < |r| => InnerProduct(r[k], v));
    }
  }

  /** operator*(const TDynamicMatrix&) as evidently intended: the same check
      on the length of left row 0 and the same allocation, then the standard
      product over the full inner dimension. */
  function MatMulIntended(l: seq<seq<int>>, r: seq<seq<int>>): (res: Result<seq<seq<int>>>)
    requires |l| >= 1 && IsRect(l, |l[0]|)
    requires |l[0]| == |r| ==> |r| >= 1 && IsRect(r, |r[0]|)
    ensures |l[0]| != |r| ==> res == Err(ThrowZero)
    ensures res.Ok? <==> |l[0]| == |r| && 1 <= |l| <= MAX_MATRIX_SIZE && 1 <= |r[0]| <= MAX_VECTOR_SIZE
    ensures res.Ok? ==> |res.value| == |l| && IsRect(res.value, |r[0]|)
    ensures res.Ok? ==> forall j :: 0 <= j < |r[0]| ==>
              Column(res.value, j, |l|) == MatVecProduct(l, Column(r, j, |r|))
  {
    if |l[0]| != |r| then Err(ThrowZero)
    else
      ProductColumnIsMatVec(l, r);
      Then(CheckRectSize(|l|, |r[0]|), Product(l, r))
  }

  /** For an n x n left operand and an n x p right one, the loops of
      operator*(const TDynamicMatrix&) compute the standard product. */
  lemma SquareProductIsStandard(l: seq<seq<int>>, r: seq<seq<int>>)
    requires |l| >= 1 && IsRect(l, |l|) && |r| == |l| && IsRect(r, |r[0]|)
    ensures MulDefined(l, r) && ProductShape(l, r)
    ensures MatMul(l, r) == MatMulIntended(l, r) == Then(CheckRectSize(|l|, |r[0]|), Product(l, r))
  {
    var t, s := TruncatedProduct(l, r), Product(l, r);
    forall i | 0 <= i < |l|
      ensures t[i] == s[i]
    {
      assert l[i][..|l|] == l[i];
    }
    assert t == s;
  }

  /** With a left operand that has more columns than rows the loops stop short:
      [[1, 1]] times [[1], [1]] passes the check and yields [[1]], not [[2]]. */
  lemma TruncatedProductCounterexample()
    ensures MulDefined([[1, 1]], [[1], [1]])
    ensures MatMul([[1, 1]], [[1], [1]]) == Ok([[1]])
    ensures Product([[1, 1]], [[1], [1]]) == [[2]]
  {
    var l, r := [[1, 1]], [[1], [1]];
    assert ProductShape(l, r);
    assert Column(r, 0, 1) == [1];
    assert Column(r, 0, 2) == [1, 1];
    assert l[0][..1] == [1];
    assert InnerProduct([1], [1]) == 1 by {
      assert [1][..0] == [];
    }
    assert InnerProduct([1, 1], [1, 1]) == 2 by {
      assert [1, 1][..1] == [1];
      assert [1][..0] == [];
    }
    var t := TruncatedProduct(l, r);
    assert t[0][0] == InnerProduct(l[0][..1], Column(r, 0, 1)) == 1;
    assert |t| == 1 && t[0] == [1];
    assert CheckRectSize(1, 1) == Pass;
    assert t == [[1]];
    var p := Product(l, r);
    assert p[0][0] == InnerProduct(l[0], Column(r, 0, 2)) == 2;
    assert |p| == 1 && p[0] == [2];
    assert p == [[2]];
  }

  /** The inner product of two pairs, written out. */
  lemma InnerProductOfPairs(a: seq<int>, b: seq<int>)
    requires |a| == |b| == 2
    ensures InnerProduct(a, b) == a[0] * b[0] + a[1] * b[1]
  {
    assert a[..2] == a && b[..2] == b;
    InnerProductStep(a, b, 0);
    InnerProductStep(a, b, 1);
  }

  /** With a left operand that has more rows than columns the check passes
      and the allocation succeeds, yet the loops would read right row 2 of a
      2-row operand (and left entries past each row's end): the inputs fall
      outside MulDefined. The intended product is defined there. */
  lemma TallProductCounterexample()
    ensures |[[1, 0], [0, 1], [1, 1]][0]| == |[[1, 2], [3, 4]]|
    ensures CheckRectSize(3, 2) == Pass
    ensures !ProductShape([[1, 0], [0, 1], [1, 1]], [[1, 2], [3, 4]])
    ensures !MulDefined([[1, 0], [0, 1], [1, 1]], [[1, 2], [3, 4]])
    ensures MatMulIntended([[1, 0], [0, 1], [1, 1]], [[1, 2], [3, 4]]) == Ok([[1, 2], [3, 4], [4, 6]])
  {
    var l: seq<seq<int>> := [[1, 0], [0, 1], [1, 1]];
    var r: seq<seq<int>> := [[1, 2], [3, 4]];
    var p := Product(l, r);
    forall i, j | 0 <= i < 3 && 0 <= j < 2
      ensures p[i][j] == l[i][0] * r[0][j] + l[i][1] * r[1][j]
    {
      InnerProductOfPairs(l[i], Column(r, j, 2));
    }
    assert p[0] == [1, 2] && p[1] == [3, 4] && p[2] == [4, 6];
    assert p == [[1, 2], [3, 4], [4, 6]];
  }
}
