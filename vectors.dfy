/** TDynamicVector<int>: a size `sz` and an exclusively owned buffer `mem` of
    `sz` elements. The source's null buffer of a moved-from vector is an empty
    array here, so a moved-from vector has sz == 0 and mem.Length == 0. */
module Vectors {
  import opened Algebra

  class DynamicVector {
    var sz: nat
    var mem: array<int>

    ghost predicate Valid()
      reads this
    {
      mem.Length == sz
    }

    /** The elements, in index order. */
    ghost function Contents(): seq<int>
      reads this, mem
    {
      mem[..]
    }

    /** The allocation `new T[sz]()` that TDynamicVector(size_t) makes once its
        size checks have passed: `n` value-initialised elements. */
    constructor Zeroed(n: nat)
      requires CheckVectorSize(n).Pass?
      ensures Valid() && fresh(mem) && sz == n
      ensures Contents() == Zeros(n)
    {
      sz := n;
      mem := new int[n](_ => 0);
    }

    /** TDynamicVector(size_t size = 1): fails for size 0 (out_of_range) and
        above MAX_VECTOR_SIZE (`throw 0`); otherwise `n` zeros. */
    static method New(n: nat := 1) returns (r: Result<DynamicVector>)
      ensures Denotes(r, Then(CheckVectorSize(n), Zeros(n)))
      ensures r.Ok? ==> fresh(r.value) && fresh(r.value.mem) && r.value.sz == n
    {
      if CheckVectorSize(n).Fail? {
        return Err(CheckVectorSize(n).error);
      }
      var v := new DynamicVector.Zeroed(n);
      return Ok(v);
    }

    /** TDynamicVector(std::vector<T>) and TDynamicVector(T*, size_t): the
        elements are copied in order; neither constructor checks the size, so
        an empty source gives size 0. */
    constructor FromSeq(s: seq<int>)
      ensures Valid() && fresh(mem) && sz == |s|
      ensures Contents() == s
    {
      var a := new int[|s|];
      for i := 0 to |s|
        invariant forall k :: 0 <= k < i ==> a[k] == s[k]
      {
        a[i] := s[i];
      }
      sz, mem := |s|, a;
    }

    /** The copy constructor: a new buffer holding the same elements. */
    constructor Copy(v: DynamicVector)
      requires v.Valid()
      ensures Valid() && fresh(mem) && sz == v.sz
      ensures Contents() == v.Contents()
    {
      var a := new int[v.sz];
      for i := 0 to v.sz
        invariant forall k :: 0 <= k < i ==> a[k] == v.mem[k]
      {
        a[i] := v.mem[i];
      }
      sz, mem := v.sz, a;
    }

    /** The move constructor: start empty, then swap with the source. The new
        vector takes over the source's buffer; the source is left empty. */
    constructor Move(v: DynamicVector)
      requires v.Valid()
      modifies v
      ensures Valid() && sz == old(v.sz) && mem == old(v.mem)
      ensures Contents() == old(v.Contents())
      ensures v.Valid() && v.sz == 0 && fresh(v.mem)
    {
      sz, mem := 0, new int[0];
      new;
      Swap(this, v);
    }

    /** The friend `swap`: exchanges the sizes and the buffers, nothing else. */
    static method Swap(a: DynamicVector, b: DynamicVector)
      modifies a, b
      ensures a.sz == old(b.sz) && a.mem == old(b.mem)
      ensures b.sz == old(a.sz) && b.mem == old(a.mem)
    {
      a.sz, b.sz := b.sz, a.sz;
      a.mem, b.mem := b.mem, a.mem;
    }

    /** Copy assignment. Self-assignment returns at once; otherwise the buffer
        is reallocated only when the sizes differ, then the elements are
        copied. Distinct vectors never share a buffer. */
    method Assign(v: DynamicVector)
      requires Valid() && v.Valid()
      requires this != v ==> mem != v.mem
      modifies this, mem
      ensures Valid() && sz == old(v.sz)
      ensures Contents() == old(v.Contents())
      ensures v.Contents() == old(v.Contents())
      ensures old(sz) == old(v.sz) ==> mem == old(mem)
      ensures old(sz) != old(v.sz) ==> fresh(mem)
      ensures this == v ==> mem == old(mem) && Contents() == old(Contents())
    {
      if this == v {
        return;
      }
      if sz != v.sz {
        sz := v.sz;
        mem := new int[sz];
      }
      for i := 0 to sz
        invariant Valid() && sz == v.sz && mem != v.mem
        invariant old(sz) == old(v.sz) ==> mem == old(mem)
        invariant old(sz) != old(v.sz) ==> fresh(mem)
        invariant v.Contents() == old(v.Contents())
        invariant forall k :: 0 <= k < i ==> mem[k] == v.mem[k]
      {
        mem[i] := v.mem[i];
      }
    }

    /** Move assignment: swap, then empty the source. When both sides are the
        same vector it ends up empty. */
    method MoveAssign(v: DynamicVector)
      requires Valid() && v.Valid()
      modifies this, v
      ensures Valid() && v.Valid() && v.sz == 0 && fresh(v.mem)
      ensures this != v ==> sz == old(v.sz) && mem == old(v.mem) && Contents() == old(v.Contents())
      ensures this == v ==> sz == 0
    {
      Swap(this, v);
      v.mem, v.sz := new int[0], 0;
    }

    function Size(): (n: nat)
      reads this, mem
      requires Valid()
      ensures n == |Contents()|
    {
      sz
    }

    /** operator[] for reading: unchecked, so the index must be in range. */
    function Get(i: nat): (x: int)
      reads this, mem
      requires Valid() && i < sz
      ensures x == Contents()[i]
    {
      mem[i]
    }

    /** A write through operator[]: unchecked; changes element i only. */
    method Set(i: nat, x: int)
      requires Valid() && i < sz
      modifies mem
      ensures Valid() && Contents() == old(Contents())[i := x]
    {
      mem[i] := x;
    }

    /** at() for reading: `throw 0` exactly when the index is not below the size. */
    function At(i: nat): (r: Result<int>)
      reads this, mem
      requires Valid()
      ensures r.Err? <==> i >= |Contents()|
      ensures r.Err? ==> r.error == ThrowZero
      ensures r.Ok? ==> r.value == Contents()[i]
    {
      if i >= sz then Err(ThrowZero) else Ok(mem[i])
    }

    /** A write through at(): fails, changing nothing, exactly when the index is
        out of range; otherwise changes element i only. */
    method SetAt(i: nat, x: int) returns (s: Status)
      requires Valid()
      modifies mem
      ensures Valid()
      ensures s.Fail? <==> i >= sz
      ensures s.Fail? ==> s.error == ThrowZero && Contents() == old(Contents())
      ensures s.Pass? ==> Contents() == old(Contents())[i := x]
    {
      if i >= sz {
        return Fail(ThrowZero);
      }
      mem[i] := x;
      return Pass;
    }

    /** operator==: false at once when the sizes differ, otherwise compares
        position by position and stops at the first difference. */
    method Equals(v: DynamicVector) returns (eq: bool)
      requires Valid() && v.Valid()
      ensures sz != v.sz ==> !eq
      ensures eq <==> sz == v.sz && forall i :: 0 <= i < sz ==> Contents()[i] == v.Contents()[i]
      ensures eq <==> Contents() == v.Contents()
    {
      if sz != v.sz {
        return false;
      }
      for i := 0 to sz
        invariant forall k :: 0 <= k < i ==> mem[k] == v.mem[k]
      {
        if mem[i] != v.mem[i] {
          assert Contents()[i] != v.Contents()[i];
          return false;
        }
      }
      assert Contents() == v.Contents();
      return true;
    }

    /** operator!=: the negation of operator==. */
    method NotEquals(v: DynamicVector) returns (ne: bool)
      requires Valid() && v.Valid()
      ensures ne <==> Contents() != v.Contents()
    {
      var eq := Equals(v);
      ne := !eq;
    }

    /** operator+(T): a new vector, allocated as TDynamicVector(sz), with val
        added to every element. */
    method AddScalar(val: int) returns (r: Result<DynamicVector>)
      requires Valid()
      ensures Denotes(r, VecAddScalar(Contents(), val))
      ensures r.Ok? ==> fresh(r.value) && fresh(r.value.mem)
    {
      r := New(sz);
      if r.Err? {
        return;
      }
      var res := r.value;
      for i := 0 to sz
        invariant fresh(res.mem) && res.Valid() && res.sz == sz
        invariant forall k :: 0 <= k < i ==> res.mem[k] == mem[k] + val
      {
        res.mem[i] := mem[i] + val;
      }
      assert res.Contents() == AddEach(Contents(), val);
    }

    /** operator-(double), with the scalar taken as an int. */
    method SubScalar(val: int) returns (r: Result<DynamicVector>)
      requires Valid()
      ensures Denotes(r, VecSubScalar(Contents(), val))
      ensures r.Ok? ==> fresh(r.value) && fresh(r.value.mem)
    {
      r := New(sz);
      if r.Err? {
        return;
      }
      var res := r.value;
      for i := 0 to sz
        invariant fresh(res.mem) && res.Valid() && res.sz == sz
        invariant forall k :: 0 <= k < i ==> res.mem[k] == mem[k] - val
      {
        res.mem[i] := mem[i] - val;
      }
      assert res.Contents() == SubEach(Contents(), val);
    }

    /** operator*(double), with the scalar taken as an int. */
    method MulScalar(val: int) returns (r: Result<DynamicVector>)
      requires Valid()
      ensures Denotes(r, VecMulScalar(Contents(), val))
      ensures r.Ok? ==> fresh(r.value) && fresh(r.value.mem)
    {
      r := New(sz);
      if r.Err? {
        return;
      }
      var res := r.value;
      for i := 0 to sz
        invariant fresh(res.mem) && res.Valid() && res.sz == sz
        invariant forall k :: 0 <= k < i ==> res.mem[k] == mem[k] * val
      {
        res.mem[i] := mem[i] * val;
      }
      assert res.Contents() == MulEach(Contents(), val);
    }

    /** operator+(const TDynamicVector&): `throw 0` on a size mismatch, then
        element-wise sums in a vector allocated as TDynamicVector(sz). */
    method Add(v: DynamicVector) returns (r: Result<DynamicVector>)
      requires Valid() && v.Valid()
      ensures Denotes(r, VecAdd(Contents(), v.Contents()))
      ensures r.Ok? ==> fresh(r.value) && fresh(r.value.mem)
    {
      if sz != v.sz {
        return Err(ThrowZero);
      }
      r := New(sz);
      if r.Err? {
        return;
      }
      var res := r.value;
      for i := 0 to sz
        invariant fresh(res.mem) && res.Valid() && res.sz == sz
        invariant forall k :: 0 <= k < i ==> res.mem[k] == mem[k] + v.mem[k]
      {
        res.mem[i] := mem[i] + v.mem[i];
      }
      assert res.Contents() == AddPairwise(Contents(), v.Contents());
    }

    /** operator-(const TDynamicVector&), as Add with differences. */
    method Sub(v: DynamicVector) returns (r: Result<DynamicVector>)
      requires Valid() && v.Valid()
      ensures Denotes(r, VecSub(Contents(), v.Contents()))
      ensures r.Ok? ==> fresh(r.value) && fresh(r.value.mem)
    {
      if sz != v.sz {
        return Err(ThrowZero);
      }
      r := New(sz);
      if r.Err? {
        return;
      }
      var res := r.value;
      for i := 0 to sz
        invariant fresh(res.mem) && res.Valid() && res.sz == sz
        invariant forall k :: 0 <= k < i ==> res.mem[k] == mem[k] - v.mem[k]
      {
        res.mem[i] := mem[i] - v.mem[i];
      }
      assert res.Contents() == SubPairwise(Contents(), v.Contents());
    }

    /** operator*(const TDynamicVector&): `throw 0` on a size mismatch,
        otherwise the sum of the products, accumulated from 0. */
    method Dot(v: DynamicVector) returns (r: Result<int>)
      requires Valid() && v.Valid()
      ensures r == VecDot(Contents(), v.Contents())
    {
      if sz != v.sz {
        return Err(ThrowZero);
      }
      var res := 0;
      for i := 0 to sz
        invariant res == InnerProduct(mem[..i], v.mem[..i])
      {
        assert mem[..i + 1][..i] == mem[..i] && v.mem[..i + 1][..i] == v.mem[..i];
        res := res + mem[i] * v.mem[i];
      }
      assert mem[..sz] == mem[..] && v.mem[..sz] == v.mem[..];
      return Ok(res);
    }
  }

  /** The object result `r` of an operator stands for the value result `s`: the
      same error, or a valid vector holding the elements of `s`. */
  ghost predicate Denotes(r: Result<DynamicVector>, s: Result<seq<int>>)
    reads if r.Ok? then {r.value, r.value.mem} else {}
  {
    match r
    case Err(e) => s == Err(e)
    case Ok(v) => v.Valid() && s == Ok(v.Contents())
  }
}
