/**
 * cgraph's `Matrix<T, m, n>` (matrix.h) with T = int: a fixed-shape matrix whose
 * m*n elements sit row-major in one buffer.  Every operation fills or rewrites
 * that buffer through nested row/column loops; each method is proved against
 * the value-level functions of MatrixSpec.
 *
 * The shape checks that C++ performs at compile time (static_assert, enable_if
 * on m == n, vector-only single indexing, matching inner dimensions) are
 * `requires` clauses here.
 */
module Matrices {
  import opened MatrixSpec

  /**
   * The innermost loop of the product: round k, column j, every row i adds
   * A(i, k) * B(k, j) to element (i, j) of the result buffer c.
   */
  method AccumulateColumn(c: array<int>, a: array<int>, b: array<int>, m: nat, n: nat, o: nat,
                          k: nat, j: nat, ghost A: MatrixValue, ghost B: MatrixValue)
    requires A.Valid() && B.Valid() && A.m == m && A.n == n && B.m == n && B.n == o && k < n && j < o
    requires a[..] == A.elems && b[..] == B.elems && c != a && c != b
    requires c.Length == A.m * B.n && c[..] == Stage(A, B, k, j, 0)
    modifies c
    ensures c[..] == Stage(A, B, k, j, A.m)
  {
    for i := 0 to m
      invariant c[..] == Stage(A, B, k, j, i)
    {
      StageStep(A, B, k, j, i);
      RowMajorBound(i, k, m, n);
      RowMajorBound(k, j, n, o);
      var cell, left, right := i * o + j, i * n + k, k * o + j;
      assert a[left] == A.At(i, k);
      assert b[right] == B.At(k, j);
      c[cell] := c[cell] + a[left] * b[right];
    }
  }

  class Matrix {
    const m: nat
    const n: nat
    /** The row-major element buffer; element (i, j) is data[i * n + j]. */
    const data: array<int>

    ghost predicate Valid()
    {
      data.Length == m * n
    }

    /** The matrix as a value: its shape and its elements in row-major order. */
    ghost function Value(): MatrixValue
      reads data
    {
      MatrixValue(m, n, data[..])
    }

    /** The zero-filled m-by-n matrix. */
    constructor Zeros(m: nat, n: nat)
      ensures Valid() && fresh(data) && this.m == m && this.n == n
      ensures Value() == Filled(m, n, 0)
    {
      this.m := m;
      this.n := n;
      data := new int[m * n](_ => 0);
    }

    /** The m-by-n matrix with the given elements, row by row; there must be exactly m*n of them. */
    constructor FromElements(m: nat, n: nat, elems: seq<int>)
      requires |elems| == m * n
      ensures Valid() && fresh(data) && this.m == m && this.n == n
      ensures Value() == MatrixValue(m, n, elems)
    {
      this.m := m;
      this.n := n;
      data := new int[m * n](k requires 0 <= k < m * n => elems[k]);
    }

    /** The n-by-n identity; only square shapes have one. */
    static method Identity(n: nat) returns (mat: Matrix)
      ensures mat.Valid() && fresh(mat.data) && mat.m == n && mat.n == n
      ensures mat.Value() == IdentityOf(n)
    {
      mat := new Matrix.Zeros(n, n);
      for i := 0 to n
        invariant fresh(mat.data)
        invariant forall x :: 0 <= x < n * n ==> mat.data[x] == if x / n == x % n && x / n < i then 1 else 0
      {
        RowMajorBound(i, i, n, n);
        RowMajorSplit(i, i, n);
        mat.data[i * n + i] := 1;
        forall x | 0 <= x < n * n
          ensures mat.data[x] == if x / n == x % n && x / n < i + 1 then 1 else 0
        {
          IndexSplit(x, n, n);
        }
      }
      forall x | 0 <= x < n * n
        ensures mat.data[x] == IdentityOf(n).elems[x]
      {
        IndexSplit(x, n, n);
      }
    }

    /** The m-by-n matrix with every element t. */
    static method Constant(m: nat, n: nat, t: int) returns (res: Matrix)
      ensures res.Valid() && fresh(res.data) && res.m == m && res.n == n
      ensures res.Value() == Filled(m, n, t)
    {
      res := new Matrix.Zeros(m, n);
      for i := 0 to m
        invariant fresh(res.data)
        invariant forall x :: 0 <= x < m * n ==> res.data[x] == if x < i * n then t else 0
      {
        for j := 0 to n
          invariant forall x :: 0 <= x < m * n ==> res.data[x] == if x < i * n + j then t else 0
        {
          RowMajorBound(i, j, m, n);
          res.data[i * n + j] := t;
        }
        assert i * n + n == (i + 1) * n;
      }
    }

    /** Ones() is Constant(1). */
    static method Ones(m: nat, n: nat) returns (res: Matrix)
      ensures res.Valid() && fresh(res.data) && res.m == m && res.n == n
      ensures res.Value() == Filled(m, n, 1)
    {
      res := Constant(m, n, 1);
    }

    /** The number of elements, m*n: the length of the buffer. */
    function Size(): (s: nat)
      requires Valid()
      ensures s == data.Length
    {
      m * n
    }

    /** The row count: the shape's m, and together with Cols() it gives the buffer length. */
    function Rows(): (r: nat)
      requires Valid()
      reads data
      ensures r == Value().m
      ensures r * n == data.Length
    {
      m
    }

    /** The column count: the shape's n, which is also the stride between rows. */
    function Cols(): (c: nat)
      requires Valid()
      reads data
      ensures c == Value().n
      ensures m * c == data.Length
    {
      n
    }

    /** Element (i, j), read from buffer slot i*n + j. */
    function Get(i: nat, j: nat): (x: int)
      requires Valid() && i < m && j < n
      reads data
      ensures x == Value().At(i, j)
    {
      RowMajorBound(i, j, m, n);
      data[i * n + j]
    }

    /** A write through the reference that element access hands out: only (i, j) changes. */
    method Set(i: nat, j: nat, x: int)
      requires Valid() && i < m && j < n
      modifies data
      ensures Value() == Updated(old(Value()), i, j, x)
    {
      RowMajorBound(i, j, m, n);
      data[i * n + j] := x;
    }

    /** Single-index access, for row and column vectors only: element i along the vector. */
    function GetAt(i: nat): (x: int)
      requires Valid() && (m == 1 || n == 1) && i < m * n
      reads data
      ensures if m == 1 then i < n && x == Value().At(0, i) else i < m && x == Value().At(i, 0)
    {
      data[i]
    }

    /** A write through single-index access on a row or column vector. */
    method SetAt(i: nat, x: int)
      requires Valid() && (m == 1 || n == 1) && i < m * n
      modifies data
      ensures if m == 1 then Value() == Updated(old(Value()), 0, i, x)
              else Value() == Updated(old(Value()), i, 0, x)
    {
      data[i] := x;
    }

    /** A 1-by-1 matrix decays to its single element. */
    function ToScalar(): (x: int)
      requires Valid() && n * m == 1
      reads data
      ensures m == 1 && n == 1 && x == Value().At(0, 0)
    {
      UnitShape(m, n);
      data[0]
    }

    /** An element-wise copy (what `static_cast` to the same matrix type does). */
    method Copy() returns (res: Matrix)
      requires Valid()
      ensures res.Valid() && fresh(res.data) && res.m == m && res.n == n
      ensures res.Value() == Value()
    {
      res := new Matrix.FromElements(m, n, data[..]);
    }

    /**
     * The matrix product this * mat of an m-by-n and an n-by-o matrix: a fresh
     * m-by-o zero matrix into which the terms are accumulated with k outermost,
     * then j, then i.
     */
    method Times(mat: Matrix) returns (res: Matrix)
      requires Valid() && mat.Valid() && mat.m == n
      ensures res.Valid() && fresh(res.data) && res.m == m && res.n == mat.n
      ensures res.Value() == Product(Value(), mat.Value())
    {
      var o := mat.n;
      ghost var A, B := Value(), mat.Value();
      res := new Matrix.Zeros(m, o);
      assert res.data[..] == Accumulated(A, B, 0);
      for k := 0 to n
        invariant fresh(res.data) && res.m == m && res.n == o && res.data.Length == m * o
        invariant data[..] == A.elems && mat.data[..] == B.elems
        invariant res.data[..] == Accumulated(A, B, k)
      {
        StageStart(A, B, k);
        for j := 0 to o
          invariant fresh(res.data) && res.data.Length == m * o
          invariant data[..] == A.elems && mat.data[..] == B.elems
          invariant res.data[..] == Stage(A, B, k, j, 0)
        {
          AccumulateColumn(res.data, data, mat.data, m, n, o, k, j, A, B);
          StageColumnDone(A, B, k, j);
        }
        StageRoundDone(A, B, k);
      }
    }

    /**
     * The element-wise loop shared by `+=` and `-=` with a matrix argument:
     * each element of this matrix is rewritten once.  mat may be this very
     * matrix; then each element is combined with its own old value.
     */
    method CombineInPlace(op: Arith, mat: Matrix)
      requires Valid() && mat.Valid() && mat.m == m && mat.n == n && (op.Add? || op.Sub?)
      modifies data
      ensures Value() == Pointwise(op, old(Value()), old(mat.Value()))
    {
      ghost var A, B := Value(), mat.Value();
      for i := 0 to m
        invariant mat.data == data ==> A == B
        invariant mat.data != data ==> mat.data[..] == B.elems
        invariant forall x :: 0 <= x < m * n ==>
          data[x] == if x < i * n then Apply(op, A.elems[x], B.elems[x]) else A.elems[x]
      {
        for j := 0 to n
          invariant mat.data != data ==> mat.data[..] == B.elems
          invariant forall x :: 0 <= x < m * n ==>
            data[x] == if x < i * n + j then Apply(op, A.elems[x], B.elems[x]) else A.elems[x]
        {
          RowMajorBound(i, j, m, n);
          data[i * n + j] := Apply(op, data[i * n + j], mat.data[i * n + j]);
        }
        assert i * n + n == (i + 1) * n;
      }
    }

    /**
     * The element-wise loop shared by the scalar compound operators and the free
     * scalar operators: the first `rows` rows are rewritten, element op val.
     */
    method MapRowsInPlace(op: Arith, val: int, rows: nat)
      requires Valid() && rows <= m && (op.Div? ==> val != 0)
      modifies data
      ensures Value() == ScalarMapRows(op, old(Value()), val, rows)
    {
      ghost var A := Value();
      for i := 0 to rows
        invariant forall x :: 0 <= x < m * n ==>
          data[x] == if x < i * n then Apply(op, A.elems[x], val) else A.elems[x]
      {
        for j := 0 to n
          invariant forall x :: 0 <= x < m * n ==>
            data[x] == if x < i * n + j then Apply(op, A.elems[x], val) else A.elems[x]
        {
          RowMajorBound(i, j, m, n);
          data[i * n + j] := Apply(op, data[i * n + j], val);
        }
        assert i * n + n == (i + 1) * n;
      }
    }

    /** this + mat: a copy of this matrix with mat added element by element. */
    method Plus(mat: Matrix) returns (res: Matrix)
      requires Valid() && mat.Valid() && mat.m == m && mat.n == n
      ensures res.Valid() && fresh(res.data) && res.m == m && res.n == n
      ensures res.Value() == Pointwise(Add, Value(), mat.Value())
    {
      res := Copy();
      res.CombineInPlace(Add, mat);
    }

    /** this - mat: a copy of this matrix with mat subtracted element by element. */
    method Minus(mat: Matrix) returns (res: Matrix)
      requires Valid() && mat.Valid() && mat.m == m && mat.n == n
      ensures res.Valid() && fresh(res.data) && res.m == m && res.n == n
      ensures res.Value() == Pointwise(Sub, Value(), mat.Value())
    {
      res := Copy();
      res.CombineInPlace(Sub, mat);
    }

    /**
     * this *= mat: the product is computed into a fresh matrix first and then
     * copied over this one, so mat may be this very matrix.  The result must
     * keep this matrix's shape, so mat is n-by-n.
     */
    method MulAssign(mat: Matrix)
      requires Valid() && mat.Valid() && mat.m == n && mat.n == n
      modifies data
      ensures Value() == Product(old(Value()), old(mat.Value()))
    {
      var p := Times(mat);
      forall k | 0 <= k < data.Length {
        data[k] := p.data[k];
      }
    }

    /*
     * The compound assignments below update this matrix in place and, like
     * their C++ counterparts, hand back the updated matrix BY VALUE: `res` is a
     * fresh copy, so a further compound assignment applied to it leaves this
     * matrix alone (see ChainedAddAssign).  Only the matrix `*=` above returns
     * this matrix itself.
     */

    /** this += mat, element by element. */
    method AddAssign(mat: Matrix) returns (res: Matrix)
      requires Valid() && mat.Valid() && mat.m == m && mat.n == n
      modifies data
      ensures Value() == Pointwise(Add, old(Value()), old(mat.Value()))
      ensures res.Valid() && fresh(res.data) && res.m == m && res.n == n && res.Value() == Value()
    {
      CombineInPlace(Add, mat);
      res := Copy();
    }

    /** this -= mat, element by element. */
    method SubAssign(mat: Matrix) returns (res: Matrix)
      requires Valid() && mat.Valid() && mat.m == m && mat.n == n
      modifies data
      ensures Value() == Pointwise(Sub, old(Value()), old(mat.Value()))
      ensures res.Valid() && fresh(res.data) && res.m == m && res.n == n && res.Value() == Value()
    {
      CombineInPlace(Sub, mat);
      res := Copy();
    }

    /** this *= val as written: every element is divided by val, not multiplied. */
    method ScaleAssignAsWritten(val: int) returns (res: Matrix)
      requires Valid() && val != 0
      modifies data
      ensures Value() == ScalarMap(Div, old(Value()), val)
      ensures res.Valid() && fresh(res.data) && res.m == m && res.n == n && res.Value() == Value()
    {
      MapRowsInPlace(Div, val, m);
      res := Copy();
    }

    /** this *= val, every element multiplied by val. */
    method ScaleAssign(val: int) returns (res: Matrix)
      requires Valid()
      modifies data
      ensures Value() == ScalarMap(Mul, old(Value()), val)
      ensures res.Valid() && fresh(res.data) && res.m == m && res.n == n && res.Value() == Value()
    {
      MapRowsInPlace(Mul, val, m);
      res := Copy();
    }

    /** this /= val, every element divided by val (C++ integer division). */
    method DivAssign(val: int) returns (res: Matrix)
      requires Valid() && val != 0
      modifies data
      ensures Value() == ScalarMap(Div, old(Value()), val)
      ensures res.Valid() && fresh(res.data) && res.m == m && res.n == n && res.Value() == Value()
    {
      MapRowsInPlace(Div, val, m);
      res := Copy();
    }

    /** this += val, val added to every element. */
    method AddScalarAssign(val: int) returns (res: Matrix)
      requires Valid()
      modifies data
      ensures Value() == ScalarMap(Add, old(Value()), val)
      ensures res.Valid() && fresh(res.data) && res.m == m && res.n == n && res.Value() == Value()
    {
      MapRowsInPlace(Add, val, m);
      res := Copy();
    }

    /** this -= val, val subtracted from every element. */
    method SubScalarAssign(val: int) returns (res: Matrix)
      requires Valid()
      modifies data
      ensures Value() == ScalarMap(Sub, old(Value()), val)
      ensures res.Valid() && fresh(res.data) && res.m == m && res.n == n && res.Value() == Value()
    {
      MapRowsInPlace(Sub, val, m);
      res := Copy();
    }

    /**
     * `(this += b) += c`: the second sum is applied to the copy the first one
     * returns, so this matrix ends as this + b, and only the copy holds
     * this + b + c.
     */
    method ChainedAddAssign(b: Matrix, c: Matrix) returns (res: Matrix)
      requires Valid() && b.Valid() && c.Valid() && b.m == m && b.n == n && c.m == m && c.n == n
      modifies data
      ensures Value() == Pointwise(Add, old(Value()), old(b.Value()))
      ensures res.Valid() && fresh(res.data) && res.m == m && res.n == n
      ensures res.Value() == Pointwise(Add, Value(), c.Value())
    {
      var t := AddAssign(b);
      res := t.AddAssign(c);
    }

    /**
     * Transpose as written: the result is declared m-by-n and element (i, j) is
     * copied to slot j*n + i.  Only for a square matrix is that the transpose.
     */
    method TransposeAsWritten() returns (mat: Matrix)
      requires Valid() && m == n
      ensures mat.Valid() && fresh(mat.data) && mat.m == m && mat.n == n
      ensures mat.Value() == TransposeOf(Value())
    {
      ghost var A := Value();
      mat := new Matrix.Zeros(m, n);
      TransposeStageStart(A);
      for i := 0 to m
        invariant fresh(mat.data)
        invariant mat.data[..] == TransposeStage(A, i, 0)
      {
        for j := 0 to n
          invariant mat.data[..] == TransposeStage(A, i, j)
        {
          TransposeStageStep(A, i, j);
          RowMajorBound(i, j, m, n);
          mat.data[TransposeSlotAsWritten(n, i, j)] := data[i * n + j];
        }
        TransposeStageRowDone(A, i);
      }
      TransposeStageDone(A);
    }

    /** Transpose: the n-by-m matrix with mat(j, i) == this(i, j). */
    method Transpose() returns (mat: Matrix)
      requires Valid()
      ensures mat.Valid() && fresh(mat.data) && mat.m == n && mat.n == m
      ensures mat.Value() == TransposeOf(Value())
    {
      ghost var A := Value();
      mat := new Matrix.Zeros(n, m);
      TransposeStageStart(A);
      for i := 0 to m
        invariant fresh(mat.data)
        invariant mat.data[..] == TransposeStage(A, i, 0)
      {
        for j := 0 to n
          invariant mat.data[..] == TransposeStage(A, i, j)
        {
          TransposeStageStep(A, i, j);
          RowMajorBound(i, j, m, n);
          mat.data[j * m + i] := data[i * n + j];
        }
        TransposeStageRowDone(A, i);
      }
      TransposeStageDone(A);
    }
  }

  /** The buffer slot that the as-written transpose loop writes element (i, j) to. */
  function TransposeSlotAsWritten(n: nat, i: nat, j: nat): nat
  {
    j * n + i
  }

  /**
   * For a non-square shape the as-written transpose is not a transpose: in a
   * 3-by-2 matrix elements (2, 0) and (0, 1) are written to the same slot, and
   * in a 1-by-2 matrix element (0, 1) is written to slot 2 of a 2-element buffer.
   */
  lemma TransposeAsWrittenNonSquare()
    ensures TransposeSlotAsWritten(2, 2, 0) == TransposeSlotAsWritten(2, 0, 1)
    ensures TransposeSlotAsWritten(2, 0, 1) >= 1 * 2
  {
  }

  /** The scalar `*=` as written divides: applied to [4] with 2 it gives [2], not [8]. */
  lemma ScaleAssignAsWrittenDivides()
    ensures ScalarMap(Div, MatrixValue(1, 1, [4]), 2) == MatrixValue(1, 1, [2])
    ensures ScalarMap(Mul, MatrixValue(1, 1, [4]), 2) == MatrixValue(1, 1, [8])
  {
    assert ScalarMap(Div, MatrixValue(1, 1, [4]), 2).elems == [2];
    assert ScalarMap(Mul, MatrixValue(1, 1, [4]), 2).elems == [8];
  }

  /** val * mat: a copy of mat with every element multiplied by val. */
  method ScalarTimes(val: int, mat: Matrix) returns (ret: Matrix)
    requires mat.Valid()
    ensures ret.Valid() && fresh(ret.data) && ret.m == mat.m && ret.n == mat.n
    ensures ret.Value() == ScalarMap(Mul, mat.Value(), val)
  {
    ret := mat.Copy();
    ret.MapRowsInPlace(Mul, val, mat.m);
  }

  /**
   * val * mat as written: both loops run to n, so only the first n rows are
   * scaled.  When n > m the loop would step past the buffer; the model admits
   * only the shapes where it stays inside.
   */
  method ScalarTimesAsWritten(val: int, mat: Matrix) returns (ret: Matrix)
    requires mat.Valid() && mat.n <= mat.m
    ensures ret.Valid() && fresh(ret.data) && ret.m == mat.m && ret.n == mat.n
    ensures ret.Value() == ScalarMapRows(Mul, mat.Value(), val, mat.n)
  {
    ret := mat.Copy();
    ret.MapRowsInPlace(Mul, val, mat.n);
  }

  /** mat * val: the same as val * mat. */
  method TimesScalar(mat: Matrix, val: int) returns (ret: Matrix)
    requires mat.Valid()
    ensures ret.Valid() && fresh(ret.data) && ret.m == mat.m && ret.n == mat.n
    ensures ret.Value() == ScalarMap(Mul, mat.Value(), val)
  {
    ret := ScalarTimes(val, mat);
  }

  /** mat * val as written: it forwards to the as-written val * mat, so it too scales only the first n rows. */
  method TimesScalarAsWritten(mat: Matrix, val: int) returns (ret: Matrix)
    requires mat.Valid() && mat.n <= mat.m
    ensures ret.Valid() && fresh(ret.data) && ret.m == mat.m && ret.n == mat.n
    ensures ret.Value() == ScalarMapRows(Mul, mat.Value(), val, mat.n)
  {
    ret := ScalarTimesAsWritten(val, mat);
  }

  /** mat / val: a copy of mat with every element divided by val. */
  method DivideByScalar(mat: Matrix, val: int) returns (ret: Matrix)
    requires mat.Valid() && val != 0
    ensures ret.Valid() && fresh(ret.data) && ret.m == mat.m && ret.n == mat.n
    ensures ret.Value() == ScalarMap(Div, mat.Value(), val)
  {
    ret := mat.Copy();
    ret.MapRowsInPlace(Div, val, mat.m);
  }

  /** mat / val as written: like val * mat, only the first n rows are divided. */
  method DivideByScalarAsWritten(mat: Matrix, val: int) returns (ret: Matrix)
    requires mat.Valid() && mat.n <= mat.m && val != 0
    ensures ret.Valid() && fresh(ret.data) && ret.m == mat.m && ret.n == mat.n
    ensures ret.Value() == ScalarMapRows(Div, mat.Value(), val, mat.n)
  {
    ret := mat.Copy();
    ret.MapRowsInPlace(Div, val, mat.n);
  }

  /**
   * The as-written free scalar operators: on a 2-by-1 matrix [1, 1] times 2 the
   * second row is left unscaled.
   */
  lemma FreeScalarAsWrittenSkipsRows()
    ensures ScalarMapRows(Mul, MatrixValue(2, 1, [1, 1]), 2, 1) == MatrixValue(2, 1, [1 * 2, 1])
    ensures ScalarMap(Mul, MatrixValue(2, 1, [1, 1]), 2) == MatrixValue(2, 1, [2, 2])
  {
    assert ScalarMapRows(Mul, MatrixValue(2, 1, [1, 1]), 2, 1).elems == [2, 1];
    assert ScalarMap(Mul, MatrixValue(2, 1, [1, 1]), 2).elems == [2, 2];
  }

  /**
   * With fewer rows than columns, the as-written free scalar loops reach slot
   * (n-1)*n + (n-1), which is past the m*n-element buffer.
   */
  lemma {:induction false} FreeScalarAsWrittenLeavesBuffer(m: nat, n: nat)
    requires m < n
    ensures (n - 1) * n + (n - 1) >= m * n
  {
    MulMonotone(m, n - 1, n);
    assert (n - 1) * n + n == n * n;
  }

  /** For square matrices the as-written free scalar operators scale every element. */
  lemma FreeScalarAsWrittenSquare(op: Arith, A: MatrixValue, s: int)
    requires A.Valid() && A.m == A.n && (op.Div? ==> s != 0)
    ensures ScalarMapRows(op, A, s, A.n) == ScalarMap(op, A, s)
  {
  }
}
