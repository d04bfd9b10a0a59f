/** TDynamicMatrix<int>: a square or rectangular matrix stored as a heap array
    of row vectors, each row a DynamicVector that owns its own buffer. */
module Matrices {
  import opened Algebra
  import opened Vectors

  /** Every row of `a` is a valid vector, the rows and their buffers belong to
      `objs`, and no two rows share an object or a buffer. */
  ghost predicate RowsValid(a: array<DynamicVector>, objs: set<object>)
    reads a, objs
  {
    && (forall i :: 0 <= i < a.Length ==> a[i] in objs && a[i].mem in objs && a[i].Valid())
    && (forall i, j :: 0 <= i < j < a.Length ==> a[i] != a[j] && a[i].mem != a[j].mem)
  }

  class DynamicMatrix {
    var sz: nat
    var mem: array<DynamicVector>
    ghost var Repr: set<object>

    ghost predicate Valid()
      reads this, Repr
    {
      this in Repr && mem in Repr && mem.Length == sz && RowsValid(mem, Repr)
    }

    /** The rows, in index order. */
    ghost function Contents(): (c: seq<seq<int>>)
      reads this, Repr
      requires Valid()
      ensures |c| == sz && forall i :: 0 <= i < sz ==> c[i] == mem[i].Contents()
    {
      RowsUpTo(sz)
    }

    /** Rows 0 to n - 1. */
    ghost function RowsUpTo(n: nat): (c: seq<seq<int>>)
      reads this, Repr
      requires Valid() && n <= sz
      ensures |c| == n && forall i :: 0 <= i < n ==> c[i] == mem[i].Contents()
    {
      if n == 0 then [] else RowsUpTo(n - 1) + [mem[n - 1].mem[..]]
    }

    /** `n` fresh rows of `cols` zeros each, in a fresh array. */
    static method ZeroRows(n: nat, cols: nat) returns (a: array<DynamicVector>, ghost objs: set<object>)
      requires CheckVectorSize(cols).Pass?
      ensures fresh(a) && fresh(objs) && a in objs && a.Length == n && RowsValid(a, objs)
      ensures forall i :: 0 <= i < n ==> a[i].Contents() == Zeros(cols)
    {
      var filler := new DynamicVector.Zeroed(cols);
      a := new DynamicVector[n](_ => filler);
      objs := {a};
      for i := 0 to n
        invariant fresh(objs) && a in objs
        invariant forall k :: 0 <= k < i ==> a[k] in objs && a[k].mem in objs && a[k].Valid()
        invariant forall k :: 0 <= k < i ==> a[k].Contents() == Zeros(cols)
        invariant forall k, l :: 0 <= k < l < i ==> a[k] != a[l] && a[k].mem != a[l].mem
      {
        var row := new DynamicVector.Zeroed(cols);
        a[i] := row;
        objs := objs + {row, row.mem};
      }
    }

    /** Takes ownership of a prepared row array. */
    constructor Own(a: array<DynamicVector>, ghost objs: set<object>)
      requires a in objs && RowsValid(a, objs)
      ensures Valid() && sz == a.Length && mem == a && Repr == {this} + objs
    {
      sz, mem := a.Length, a;
      new;
      Repr := {this} + objs;
    }

    /** TDynamicMatrix(size_t s = 1): the base check on s (out_of_range for 0,
        `throw 0` above MAX_VECTOR_SIZE), then `throw 0` above MAX_MATRIX_SIZE;
        otherwise s rows of s zeros. */
    static method New(s: nat := 1) returns (r: Result<DynamicMatrix>)
      ensures DenotesRows(r, Then(CheckMatrixSize(s), ZeroMatrix(s, s)))
      ensures r.Ok? ==> fresh(r.value.Repr) && r.value.sz == s
    {
      if CheckMatrixSize(s).Fail? {
        return Err(CheckMatrixSize(s).error);
      }
      var a, objs := ZeroRows(s, s);
      var m := new DynamicMatrix.Own(a, objs);
      assert m.Contents() == ZeroMatrix(s, s);
      return Ok(m);
    }

    /** TDynamicMatrix(size_t s, size_t m): the checks on s, then each row is
        built as TDynamicVector(m), with its own checks; otherwise s rows of m
        zeros. */
    static method NewRect(s: nat, m: nat) returns (r: Result<DynamicMatrix>)
      ensures DenotesRows(r, Then(CheckRectSize(s, m), ZeroMatrix(s, m)))
      ensures r.Ok? ==> fresh(r.value.Repr) && r.value.sz == s
    {
      if CheckRectSize(s, m).Fail? {
        return Err(CheckRectSize(s, m).error);
      }
      var a, objs := ZeroRows(s, m);
      var res := new DynamicMatrix.Own(a, objs);
      assert res.Contents() == ZeroMatrix(s, m);
      return Ok(res);
    }

    /** TDynamicMatrix(std::vector<vector<T>>): only the base check on the row
        count; the rows are copied as given, of any lengths. */
    static method FromRows(ss: seq<seq<int>>) returns (r: Result<DynamicMatrix>)
      ensures DenotesRows(r, Then(CheckVectorSize(|ss|), ss))
      ensures r.Ok? ==> fresh(r.value.Repr)
    {
      if CheckVectorSize(|ss|).Fail? {
        return Err(CheckVectorSize(|ss|).error);
      }
      var a, objs := ZeroRows(|ss|, 1);
      for i := 0 to |ss|
        invariant fresh(objs) && a in objs && RowsValid(a, objs)
        invariant forall k :: 0 <= k < i ==> a[k].Contents() == ss[k]
      {
        var row := new DynamicVector.FromSeq(ss[i]);
        a[i] := row;
        objs := objs + {row, row.mem};
      }
      var m := new DynamicMatrix.Own(a, objs);
      assert m.Contents() == ss;
      return Ok(m);
    }

    /** The element-wise copy of rows that the copy constructor and the copy
        assignment perform: row i is copy-assigned from row i of `m`. */
    method CopyRowsFrom(m: DynamicMatrix)
      requires Valid() && m.Valid() && sz == m.sz && Repr !! m.Repr
      modifies Repr
      ensures Valid() && fresh(Repr - old(Repr)) && Repr !! m.Repr
      ensures sz == old(sz) && mem == old(mem) && Contents() == m.Contents()
      ensures m.Valid() && m.Contents() == old(m.Contents())
    {
      for i := 0 to sz
        invariant Valid() && sz == m.sz && mem == old(mem) && fresh(Repr - old(Repr)) && Repr !! m.Repr
        invariant m.Valid() && m.Contents() == old(m.Contents())
        invariant forall k :: 0 <= k < i ==> Contents()[k] == m.Contents()[k]
      {
        AssignRow(i, m.mem[i]);
      }
    }

    /** `pMem[i] = v` by the row copy assignment, for a row `v` this matrix
        does not own. */
    method AssignRow(i: nat, v: DynamicVector)
      requires Valid() && i < sz && v.Valid() && v !in Repr && v.mem !in Repr
      modifies this, mem[i], mem[i].mem
      ensures Valid() && sz == old(sz) && mem == old(mem) && fresh(Repr - old(Repr))
      ensures Contents() == old(Contents())[i := v.Contents()]
    {
      mem[i].Assign(v);
      Repr := Repr + {mem[i].mem};
    }

    /** `pMem[i] = temp` by the row move assignment, for a temporary row this
        matrix does not own; the temporary is left empty. */
    method MoveRow(i: nat, temp: DynamicVector)
      requires Valid() && i < sz && temp.Valid() && temp !in Repr && temp.mem !in Repr
      modifies this, mem[i], temp
      ensures Valid() && sz == old(sz) && mem == old(mem) && Repr == old(Repr) + {old(temp.mem)}
      ensures Contents() == old(Contents())[i := old(temp.Contents())]
    {
      mem[i].MoveAssign(temp);
      Repr := Repr + {mem[i].mem};
    }

    /** The copy constructor: the base check on m.sz, so copying a moved-from
        matrix fails with out_of_range; otherwise an independent copy. */
    static method CopyOf(m: DynamicMatrix) returns (r: Result<DynamicMatrix>)
      requires m.Valid()
      ensures DenotesRows(r, Then(CheckVectorSize(m.sz), m.Contents()))
      ensures r.Ok? ==> fresh(r.value.Repr)
    {
      if CheckVectorSize(m.sz).Fail? {
        return Err(CheckVectorSize(m.sz).error);
      }
      var a, objs := ZeroRows(m.sz, 1);
      var res := new DynamicMatrix.Own(a, objs);
      res.CopyRowsFrom(m);
      return Ok(res);
    }

    /** The move constructor: takes the rows of `m` and leaves it empty. */
    constructor Move(m: DynamicMatrix)
      requires m.Valid()
      modifies m
      ensures Valid() && sz == old(m.sz) && mem == old(m.mem)
      ensures Contents() == old(m.Contents())
      ensures Repr == old(m.Repr) - {m} + {this}
      ensures m.Valid() && m.sz == 0 && fresh(m.mem) && m.Repr == {m, m.mem}
    {
      sz, mem := m.sz, m.mem;
      new;
      Repr := m.Repr - {m} + {this};
      m.sz, m.mem := 0, new DynamicVector[0];
      m.Repr := {m, m.mem};
    }

    /** Copy assignment: nothing happens on self-assignment; a size mismatch
        replaces the row array by m.sz default rows of one zero; then the rows
        are copied one by one. */
    method Assign(m: DynamicMatrix)
      requires Valid() && m.Valid()
      requires this != m ==> Repr !! m.Repr
      modifies Repr
      ensures Valid() && fresh(Repr - old(Repr))
      ensures sz == old(m.sz) && Contents() == old(m.Contents())
      ensures m.Valid() && m.Contents() == old(m.Contents())
      ensures this != m ==> Repr !! m.Repr
      ensures old(sz) == old(m.sz) ==> mem == old(mem)
      ensures this == m ==> Repr == old(Repr)
    {
      if this == m {
        return;
      }
      if sz != m.sz {
        var a, objs := ZeroRows(m.sz, 1);
        sz, mem := m.sz, a;
        Repr := Repr + objs;
      }
      CopyRowsFrom(m);
    }

    /** Move assignment: a no-op on self-assignment; otherwise takes the rows
        of `m` and leaves it empty. */
    method MoveAssign(m: DynamicMatrix)
      requires Valid() && m.Valid()
      modifies this, m
      ensures Valid() && m.Valid()
      ensures this != m ==> sz == old(m.sz) && mem == old(m.mem) && Contents() == old(m.Contents())
      ensures this != m ==> Repr == old(m.Repr) - {m} + {this} && m.sz == 0
      ensures this != m ==> fresh(m.mem) && m.Repr == {m, m.mem}
      ensures this == m ==> sz == old(sz) && mem == old(mem) && Repr == old(Repr)
    {
      if this != m {
        mem := m.mem;
        m.mem := new DynamicVector[0];
        sz := m.sz;
        m.sz := 0;
        Repr := m.Repr - {m} + {this};
        m.Repr := {m, m.mem};
      }
    }

    /** size(): the row count. */
    function Size(): (n: nat)
      reads this, Repr
      requires Valid()
      ensures n == |Contents()|
    {
      sz
    }

    /** operator[]: unchecked access to row i, which the caller may then read
        or write through. */
    function Row(i: nat): (row: DynamicVector)
      reads this, Repr
      requires Valid() && i < sz
      ensures row == mem[i] && row.Valid() && row.Contents() == Contents()[i]
    {
      mem[i]
    }

    /** at(): row i, or `throw 0` when i is not below the row count. */
    function RowAt(i: nat): (r: Result<DynamicVector>)
      reads this, Repr
      requires Valid()
      ensures r.Err? <==> i >= |Contents()|
      ensures r.Err? ==> r.error == ThrowZero
      ensures r.Ok? ==> r.value == mem[i] && r.value.Valid() && r.value.Contents() == Contents()[i]
    {
      if i < sz then Ok(mem[i]) else Err(ThrowZero)
    }

    /** `m[i][j] = x`: writes one element through both unchecked accesses. */
    method SetElement(i: nat, j: nat, x: int)
      requires Valid() && i < sz && j < mem[i].sz
      modifies mem[i].mem
      ensures Valid() && Contents() == old(Contents())[i := old(Contents())[i][j := x]]
    {
      mem[i].Set(j, x);
    }

    /** `m.at(i).at(j) = x`: both indices checked, `throw 0` on either. */
    method SetElementAt(i: nat, j: nat, x: int) returns (s: Status)
      requires Valid()
      modifies if i < sz then {mem[i].mem} else {}
      ensures Valid()
      ensures s.Fail? <==> i >= sz || j >= |old(Contents())[i]|
      ensures s.Fail? ==> s.error == ThrowZero && Contents() == old(Contents())
      ensures s.Pass? ==> Contents() == old(Contents())[i := old(Contents())[i][j := x]]
    {
      if i >= sz {
        return Fail(ThrowZero);
      }
      s := mem[i].SetAt(j, x);
    }

    /** operator==: equal row counts and equal rows, compared in order. */
    method Equals(m: DynamicMatrix) returns (eq: bool)
      requires Valid() && m.Valid()
      ensures sz != m.sz ==> !eq
      ensures eq <==> Contents() == m.Contents()
    {
      if sz != m.sz {
        return false;
      }
      for i := 0 to sz
        invariant forall k :: 0 <= k < i ==> Contents()[k] == m.Contents()[k]
      {
        var ne := mem[i].NotEquals(m.mem[i]);
        if ne {
          assert Contents()[i] != m.Contents()[i];
          return false;
        }
      }
      assert Contents() == m.Contents();
      return true;
    }

    /** operator!=: the negation of operator==. */
    method NotEquals(m: DynamicMatrix) returns (ne: bool)
      requires Valid() && m.Valid()
      ensures ne <==> Contents() != m.Contents()
    {
      var eq := Equals(m);
      ne := !eq;
    }

    /** operator*(const T&): a TDynamicMatrix(sz) whose row i becomes row i
        times the scalar. */
    method Scale(val: int) returns (r: Result<DynamicMatrix>)
      requires Valid()
      ensures DenotesRows(r, MatScale(old(Contents()), val))
      ensures r.Ok? ==> fresh(r.value.Repr)
    {
      ghost var a := Contents();
      r := New(sz);
      if r.Err? {
        assert MatScale(a, val) == Err(r.error);
        return;
      }
      var res := r.value;
      var s := ScaleInto(res, val, a);
      if s.Fail? {
        return Err(s.error);
      }
    }

    /** The row loop of operator*(const T&): row i of `res` becomes row i times
        the scalar, until a row fails. */
    method ScaleInto(res: DynamicMatrix, val: int, ghost a: seq<seq<int>>) returns (s: Status)
      requires Valid() && res.Valid() && res.sz == sz
      requires Repr !! res.Repr && a == Contents()
      modifies res.Repr
      ensures res.Valid() && fresh(res.Repr - old(res.Repr))
      ensures s.Fail? ==> Collect(ScaleRows(a, val)) == Err(s.error)
      ensures s.Pass? ==> Collect(ScaleRows(a, val)) == Ok(res.Contents())
    {
      ghost var rs := ScaleRows(a, val);
      for i := 0 to sz
        invariant res.Valid() && res.sz == sz && fresh(res.Repr - old(res.Repr))
        invariant forall k :: 0 <= k < i ==> rs[k] == Ok(res.Contents()[k])
      {
        var t := ScaleRow(mem[i], val, res, i);
        if t.Fail? {
          CollectStopsAt(rs, i);
          return t;
        }
      }
      CollectAllOk(rs, res.Contents());
      return Pass;
    }

    /** One iteration: `res.pMem[i] = u * val`. */
    static method ScaleRow(u: DynamicVector, val: int, res: DynamicMatrix, i: nat) returns (s: Status)
      requires u.Valid() && res.Valid() && i < res.sz && u !in res.Repr
      modifies res, res.mem[i]
      ensures res.Valid() && res.sz == old(res.sz) && fresh(res.Repr - old(res.Repr))
      ensures s.Fail? ==> VecMulScalar(u.Contents(), val) == Err(s.error)
      ensures s.Pass? ==> VecMulScalar(u.Contents(), val).Ok?
      ensures s.Pass? ==> res.Contents() == old(res.Contents())[i := VecMulScalar(u.Contents(), val).value]
    {
      var row := u.MulScalar(val);
      if row.Err? {
        return Fail(row.error);
      }
      res.MoveRow(i, row.value);
      return Pass;
    }

    /** operator*(const TDynamicVector&): `throw 0` unless the ROW COUNT equals
        the vector's length; entry i sums row i times v over the row's length. */
    method MulVector(v: DynamicVector) returns (r: Result<DynamicVector>)
      requires Valid() && v.Valid()
      requires sz == v.sz && CheckVectorSize(sz).Pass? ==> RowsFit(Contents(), v.sz)
      ensures Denotes(r, MatMulVec(old(Contents()), old(v.Contents())))
      ensures r.Ok? ==> fresh(r.value) && fresh(r.value.mem)
    {
      ghost var a, b := Contents(), v.Contents();
      if sz != v.sz {
        return Err(ThrowZero);
      }
      r := DynamicVector.New(sz);
      if r.Err? {
        assert MatMulVec(a, b) == Err(r.error);
        return;
      }
      MulVectorInto(v, r.value, a);
    }

    /** The loops of operator*(const TDynamicVector&): entry i of `res` starts
        at 0 and accumulates row i times v, element by element (the sum is
        kept in a local, which no other access can observe). */
    method MulVectorInto(v: DynamicVector, res: DynamicVector, ghost a: seq<seq<int>>)
      requires Valid() && v.Valid() && res.Valid() && res.sz == sz && a == Contents()
      requires RowsFit(a, v.sz) && res.mem !in Repr && res.mem != v.mem
      modifies res.mem
      ensures res.Contents() == MatVecProduct(a, v.Contents())
    {
      for i := 0 to sz
        invariant forall k :: 0 <= k < i ==> res.mem[k] == InnerProduct(a[k], v.mem[..|a[k]|])
      {
        var row := mem[i];
        assert row.mem[..] == a[i];
        var acc := 0;
        for j := 0 to row.sz
          invariant acc == InnerProduct(row.mem[..j], v.mem[..j])
        {
          assert row.mem[..j + 1][..j] == row.mem[..j] && v.mem[..j + 1][..j] == v.mem[..j];
          acc := acc + row.mem[j] * v.mem[j];
        }
        assert row.mem[..row.sz] == a[i];
        res.mem[i] := acc;
      }
      assert res.Contents() == MatVecProduct(a, v.Contents());
    }

    /** operator+(const TDynamicMatrix&): `throw 0` unless the row counts agree;
        then a TDynamicMatrix(sz) whose row i becomes the vector sum of the
        two rows i. */
    method Add(m: DynamicMatrix) returns (r: Result<DynamicMatrix>)
      requires Valid() && m.Valid()
      ensures DenotesRows(r, MatAdd(old(Contents()), old(m.Contents())))
      ensures r.Ok? ==> fresh(r.value.Repr)
    {
      ghost var a, b := Contents(), m.Contents();
      if sz != m.sz {
        return Err(ThrowZero);
      }
      r := New(sz);
      if r.Err? {
        assert MatAdd(a, b) == Err(r.error);
        return;
      }
      var res := r.value;
      var s := AddInto(m, res, a, b);
      if s.Fail? {
        return Err(s.error);
      }
    }

    /** The row loop of operator+(const TDynamicMatrix&): row i of `res` becomes
        the sum of the two rows i, until a row fails. */
    method AddInto(m: DynamicMatrix, res: DynamicMatrix, ghost a: seq<seq<int>>, ghost b: seq<seq<int>>)
      returns (s: Status)
      requires Valid() && m.Valid() && res.Valid() && sz == m.sz == res.sz
      requires Repr !! res.Repr && m.Repr !! res.Repr && a == Contents() && b == m.Contents()
      modifies res.Repr
      ensures res.Valid() && fresh(res.Repr - old(res.Repr))
      ensures s.Fail? ==> Collect(AddRows(a, b)) == Err(s.error)
      ensures s.Pass? ==> Collect(AddRows(a, b)) == Ok(res.Contents())
    {
      ghost var rs := AddRows(a, b);
      for i := 0 to sz
        invariant res.Valid() && res.sz == sz && fresh(res.Repr - old(res.Repr))
        invariant forall k :: 0 <= k < i ==> rs[k] == Ok(res.Contents()[k])
      {
        var t := AddRow(mem[i], m.mem[i], res, i);
        if t.Fail? {
          CollectStopsAt(rs, i);
          return t;
        }
      }
      CollectAllOk(rs, res.Contents());
      return Pass;
    }

    /** One iteration: `res.pMem[i] = u + v`. */
    static method AddRow(u: DynamicVector, v: DynamicVector, res: DynamicMatrix, i: nat) returns (s: Status)
      requires u.Valid() && v.Valid() && res.Valid() && i < res.sz && u !in res.Repr && v !in res.Repr
      modifies res, res.mem[i]
      ensures res.Valid() && res.sz == old(res.sz) && fresh(res.Repr - old(res.Repr))
      ensures s.Fail? ==> VecAdd(u.Contents(), v.Contents()) == Err(s.error)
      ensures s.Pass? ==> VecAdd(u.Contents(), v.Contents()).Ok?
      ensures s.Pass? ==> res.Contents() == old(res.Contents())[i := VecAdd(u.Contents(), v.Contents()).value]
    {
      var row := u.Add(v);
      if row.Err? {
        return Fail(row.error);
      }
      res.MoveRow(i, row.value);
      return Pass;
    }

    /** operator-(const TDynamicMatrix&), as Add with the vector `-`. */
    method Sub(m: DynamicMatrix) returns (r: Result<DynamicMatrix>)
      requires Valid() && m.Valid()
      ensures DenotesRows(r, MatSub(old(Contents()), old(m.Contents())))
      ensures r.Ok? ==> fresh(r.value.Repr)
    {
      ghost var a, b := Contents(), m.Contents();
      if sz != m.sz {
        return Err(ThrowZero);
      }
      r := New(sz);
      if r.Err? {
        assert MatSub(a, b) == Err(r.error);
        return;
      }
      var res := r.value;
      var s := SubInto(m, res, a, b);
      if s.Fail? {
        return Err(s.error);
      }
    }

    /** The row loop of operator-(const TDynamicMatrix&). */
    method SubInto(m: DynamicMatrix, res: DynamicMatrix, ghost a: seq<seq<int>>, ghost b: seq<seq<int>>)
      returns (s: Status)
      requires Valid() && m.Valid() && res.Valid() && sz == m.sz == res.sz
      requires Repr !! res.Repr && m.Repr !! res.Repr && a == Contents() && b == m.Contents()
      modifies res.Repr
      ensures res.Valid() && fresh(res.Repr - old(res.Repr))
      ensures s.Fail? ==> Collect(SubRows(a, b)) == Err(s.error)
      ensures s.Pass? ==> Collect(SubRows(a, b)) == Ok(res.Contents())
    {
      ghost var rs := SubRows(a, b);
      for i := 0 to sz
        invariant res.Valid() && res.sz == sz && fresh(res.Repr - old(res.Repr))
        invariant forall k :: 0 <= k < i ==> rs[k] == Ok(res.Contents()[k])
      {
        var t := SubRow(mem[i], m.mem[i], res, i);
        if t.Fail? {
          CollectStopsAt(rs, i);
          return t;
        }
      }
      CollectAllOk(rs, res.Contents());
      return Pass;
    }

    /** One iteration: `res.pMem[i] = u - v`. */
    static method SubRow(u: DynamicVector, v: DynamicVector, res: DynamicMatrix, i: nat) returns (s: Status)
      requires u.Valid() && v.Valid() && res.Valid() && i < res.sz && u !in res.Repr && v !in res.Repr
      modifies res, res.mem[i]
      ensures res.Valid() && res.sz == old(res.sz) && fresh(res.Repr - old(res.Repr))
      ensures s.Fail? ==> VecSub(u.Contents(), v.Contents()) == Err(s.error)
      ensures s.Pass? ==> VecSub(u.Contents(), v.Contents()).Ok?
      ensures s.Pass? ==> res.Contents() == old(res.Contents())[i := VecSub(u.Contents(), v.Contents()).value]
    {
      var row := u.Sub(v);
      if row.Err? {
        return Fail(row.error);
      }
      res.MoveRow(i, row.value);
      return Pass;
    }

    /** operator*(const TDynamicMatrix&): `throw 0` unless the length of row 0
        equals the row count of `m`; then a TDynamicMatrix(sz, p), p the length
        of row 0 of `m`, whose entry (i, j) sums row i times column j over
        k < sz, the row count of THIS matrix. */
    method Mul(m: DynamicMatrix) returns (r: Result<DynamicMatrix>)
      requires Valid() && m.Valid()
      requires MulDefined(Contents(), m.Contents())
      ensures DenotesRows(r, MatMul(old(Contents()), old(m.Contents())))
      ensures r.Ok? ==> fresh(r.value.Repr)
    {
      ghost var a, b := Contents(), m.Contents();
      if mem[0].sz != m.sz {
        return Err(ThrowZero);
      }
      r := NewRect(sz, m.mem[0].sz);
      if r.Err? {
        assert MatMul(a, b) == Err(r.error);
        return;
      }
      MulInto(m, r.value, a, b);
    }

    /** The loops of operator*(const TDynamicMatrix&), row by row. */
    method MulInto(m: DynamicMatrix, res: DynamicMatrix, ghost l: seq<seq<int>>, ghost r: seq<seq<int>>)
      requires Valid() && m.Valid() && res.Valid() && l == Contents() && r == m.Contents()
      requires ProductShape(l, r) && res.sz == sz && IsRect(res.Contents(), |r[0]|)
      requires Repr !! res.Repr && m.Repr !! res.Repr
      modifies res.Repr
      ensures res.Valid() && res.Repr == old(res.Repr) && res.Contents() == TruncatedProduct(l, r)
    {
      ghost var t := TruncatedProduct(l, r);
      for i := 0 to sz
        invariant res.Valid() && res.Repr == old(res.Repr) && res.sz == sz && IsRect(res.Contents(), |r[0]|)
        invariant forall i' :: 0 <= i' < i ==> res.Contents()[i'] == t[i']
      {
        MulRowInto(m, res, i, l, r);
      }
      assert res.Contents() == t;
    }

    /** Row i of the loops of operator*(const TDynamicMatrix&), written into
        row i of `res`; the other rows keep their contents. */
    method MulRowInto(m: DynamicMatrix, res: DynamicMatrix, i: nat, ghost l: seq<seq<int>>, ghost r: seq<seq<int>>)
      requires Valid() && m.Valid() && res.Valid() && l == Contents() && r == m.Contents()
      requires ProductShape(l, r) && i < sz == res.sz && res.mem[i].sz == |r[0]|
      requires Repr !! res.Repr && m.Repr !! res.Repr
      modifies res.mem[i].mem
      ensures res.Valid() && res.Contents() == old(res.Contents())[i := ProductRow(l, r, i)]
    {
      FillRow(m, res.mem[i], i, l, r);
    }

    /** The j loop for row i: for each j below the length of row i of `m`,
        entry j of `out` becomes Entry(m, i, j). */
    method FillRow(m: DynamicMatrix, out: DynamicVector, i: nat, ghost l: seq<seq<int>>, ghost r: seq<seq<int>>)
      requires Valid() && m.Valid() && l == Contents() && r == m.Contents()
      requires ProductShape(l, r) && i < sz
      requires out.Valid() && out.sz == |r[0]| && out.mem !in Repr && out.mem !in m.Repr
      modifies out.mem
      ensures out.Contents() == ProductRow(l, r, i)
    {
      assert m.mem[i].sz == out.sz;
      for j := 0 to m.mem[i].sz
        invariant forall j' :: 0 <= j' < j ==> out.mem[j'] == ProductEntry(l, r, i, j')
      {
        var x := Entry(m, i, j, l, r);
        out.mem[j] := x;
      }
      assert out.mem[..] == ProductRow(l, r, i);
    }

    /** The innermost loop of operator*(const TDynamicMatrix&): starting from 0,
        accumulates row i of this matrix times column j of `m` over k < sz, the
        row count of THIS matrix. */
    method Entry(m: DynamicMatrix, i: nat, j: nat, ghost l: seq<seq<int>>, ghost r: seq<seq<int>>) returns (x: int)
      requires Valid() && m.Valid() && l == Contents() && r == m.Contents()
      requires ProductShape(l, r) && i < sz && j < |r[0]|
      ensures x == ProductEntry(l, r, i, j)
    {
      ghost var a, c := l[i][..sz], Column(r, j, sz);
      x := 0;
      for k := 0 to sz
        invariant x == InnerProduct(a[..k], c[..k])
      {
        InnerProductStep(a, c, k);
        assert mem[i].mem[k] == a[k] && m.mem[k].mem[j] == c[k];
        x := x + mem[i].mem[k] * m.mem[k].mem[j];
      }
      assert a[..sz] == a && c[..sz] == c;
    }
  }

  /** `r` is a valid matrix with rows `s.value`, or the same error as `s`. */
  ghost predicate DenotesRows(r: Result<DynamicMatrix>, s: Result<seq<seq<int>>>)
    reads if r.Ok? then {r.value} + r.value.Repr else {}
  {
    match r
    case Err(e) => s == Err(e)
    case Ok(m) => m.Valid() && s == Ok(m.Contents())
  }
}
