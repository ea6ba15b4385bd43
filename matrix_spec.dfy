/**
 * Value-level view of cgraph's fixed-shape matrix (matrix.h).
 *
 * A matrix of shape m-by-n is the flat buffer of its m*n elements in row-major
 * order: element (i, j) lives at index i*n + j.  The element type is fixed to
 * `int`; C++'s integer division (which truncates toward zero) is written out as
 * `TruncDiv`.  The class `Matrices.Matrix` is proved against the functions of
 * this module, and the expression graph computes with these values.
 */
module MatrixSpec {

  // ---------------------------------------------------------------------------
  // Row-major index arithmetic

  lemma {:induction false} MulMonotone(a: nat, b: nat, c: nat)
    requires a <= b
    ensures a * c <= b * c
  {
    if a < b {
      MulMonotone(a, b - 1, c);
      assert b * c == (b - 1) * c + c;
    }
  }

  /** Element (i, j) of an m-by-n buffer is inside the buffer. */
  lemma RowMajorBound(i: nat, j: nat, m: nat, n: nat)
    requires i < m && j < n
    ensures 0 <= i * n + j < m * n
  {
    MulMonotone(i + 1, m, n);
    assert (i + 1) * n == i * n + n;
  }

  /** Row and column are recovered from the flat index. */
  lemma RowMajorSplit(i: nat, j: nat, n: nat)
    requires j < n
    ensures (i * n + j) / n == i && (i * n + j) % n == j
  {
    var k := i * n + j;
    var q, r := k / n, k % n;
    assert q * n + r == k && 0 <= r < n;
    if q < i {
      assert (q + 1) * n == q * n + n;
      MulMonotone(q + 1, i, n);
      assert false;
    } else if q > i {
      assert (i + 1) * n == i * n + n;
      MulMonotone(i + 1, q, n);
      assert false;
    }
  }

  /** Every flat index of an m-by-n buffer is some element (row k / n, column k % n). */
  lemma IndexSplit(k: nat, m: nat, n: nat)
    requires k < m * n
    ensures 0 < n && k / n < m && k % n < n && (k / n) * n + k % n == k
  {
    assert n != 0;
    var q := k / n;
    if q >= m {
      MulMonotone(m, q, n);
    }
  }

  /** Only the 1-by-1 shape has exactly one element. */
  lemma UnitShape(m: nat, n: nat)
    requires m * n == 1
    ensures m == 1 && n == 1
  {
    if m > 1 {
      MulMonotone(2, m, n);
    }
  }

  // ---------------------------------------------------------------------------
  // Scalars

  /** The arithmetic operators the matrix applies element by element. */
  datatype Arith = Add | Sub | Mul | Div

  function Abs(x: int): nat { if x < 0 then -x else x }

  /** C++ integer division: the quotient truncated toward zero. */
  function TruncDiv(a: int, b: int): int
    requires b != 0
  {
    if (a < 0) == (b < 0) then Abs(a) / Abs(b) else -(Abs(a) / Abs(b))
  }

  function Apply(op: Arith, x: int, y: int): int
    requires op.Div? ==> y != 0
  {
    match op
    case Add => x + y
    case Sub => x - y
    case Mul => x * y
    case Div => TruncDiv(x, y)
  }

  /** Multiplying by a nonzero integer and then dividing by it gives the integer back. */
  lemma TruncDivCancel(a: int, s: int)
    requires s != 0
    ensures TruncDiv(a * s, s) == a
  {
    assert Abs(a * s) == Abs(a) * Abs(s) by {
      if a < 0 && s < 0 {
        assert a * s == (-a) * (-s);
      } else if a < 0 {
        assert -(a * s) == (-a) * s;
      } else if s < 0 {
        assert -(a * s) == a * (-s);
      }
    }
    RowMajorSplit(Abs(a), 0, Abs(s));
    if a > 0 {
      assert (a * s < 0) == (s < 0) by {
        if s < 0 { assert a * s == -(a * (-s)); }
      }
    } else if a < 0 {
      assert (a * s < 0) != (s < 0) by {
        if s < 0 { assert a * s == (-a) * (-s); } else { assert a * s == -((-a) * s); }
      }
    }
  }

  // ---------------------------------------------------------------------------
  // Matrix values

  datatype MatrixValue = MatrixValue(m: nat, n: nat, elems: seq<int>)
  {
    /** The buffer holds exactly m*n elements. */
    predicate Valid() { |elems| == m * n }

    /** Element at row i, column j. */
    function At(i: nat, j: nat): int
      requires Valid() && i < m && j < n
    {
      RowMajorBound(i, j, m, n);
      elems[i * n + j]
    }
  }

  predicate SameShape(A: MatrixValue, B: MatrixValue)
  {
    A.Valid() && B.Valid() && A.m == B.m && A.n == B.n
  }

  /** The columns of A match the rows of B. */
  predicate Conformable(A: MatrixValue, B: MatrixValue)
  {
    A.Valid() && B.Valid() && A.n == B.m
  }

  /** Every element equal to t. */
  function Filled(m: nat, n: nat, t: int): (F: MatrixValue)
    ensures F.Valid() && F.m == m && F.n == n
  {
    MatrixValue(m, n, seq(m * n, _ => t))
  }

  lemma FilledAt(m: nat, n: nat, t: int, i: nat, j: nat)
    requires i < m && j < n
    ensures Filled(m, n, t).At(i, j) == t
  {
    RowMajorBound(i, j, m, n);
  }

  /** The n-by-n identity. */
  function IdentityOf(n: nat): (I: MatrixValue)
    ensures I.Valid() && I.m == n && I.n == n
  {
    MatrixValue(n, n, seq(n * n, x requires 0 <= x < n * n =>
      IndexSplit(x, n, n);
      if x / n == x % n then 1 else 0))
  }

  lemma IdentityAt(n: nat, i: nat, j: nat)
    requires i < n && j < n
    ensures IdentityOf(n).At(i, j) == if i == j then 1 else 0
  {
    RowMajorBound(i, j, n, n);
    RowMajorSplit(i, j, n);
  }

  /** A with element (i, j) replaced by x. */
  function Updated(A: MatrixValue, i: nat, j: nat, x: int): (B: MatrixValue)
    requires A.Valid() && i < A.m && j < A.n
    ensures SameShape(B, A)
  {
    RowMajorBound(i, j, A.m, A.n);
    MatrixValue(A.m, A.n, A.elems[i * A.n + j := x])
  }

  /** Writing (i, j) changes that element and no other. */
  lemma UpdatedAt(A: MatrixValue, i: nat, j: nat, x: int, r: nat, c: nat)
    requires A.Valid() && i < A.m && j < A.n && r < A.m && c < A.n
    ensures Updated(A, i, j, x).At(r, c) == if r == i && c == j then x else A.At(r, c)
  {
    RowMajorBound(i, j, A.m, A.n);
    RowMajorBound(r, c, A.m, A.n);
    if r * A.n + c == i * A.n + j {
      RowMajorSplit(r, c, A.n);
      RowMajorSplit(i, j, A.n);
    }
  }

  // ---------------------------------------------------------------------------
  // Element-wise arithmetic

  /** Element-wise sum or difference of two same-shaped matrices. */
  function Pointwise(op: Arith, A: MatrixValue, B: MatrixValue): (C: MatrixValue)
    requires SameShape(A, B) && (op.Add? || op.Sub?)
    ensures SameShape(C, A)
  {
    MatrixValue(A.m, A.n, seq(|A.elems|, k requires 0 <= k < |A.elems| =>
      Apply(op, A.elems[k], B.elems[k])))
  }

  lemma PointwiseAt(op: Arith, A: MatrixValue, B: MatrixValue, i: nat, j: nat)
    requires SameShape(A, B) && (op.Add? || op.Sub?) && i < A.m && j < A.n
    ensures Pointwise(op, A, B).At(i, j) == Apply(op, A.At(i, j), B.At(i, j))
  {
    RowMajorBound(i, j, A.m, A.n);
  }

  /**
   * A with its first `rows` rows combined element by element with the scalar s
   * (element op s); the remaining rows are left as they are.
   */
  function ScalarMapRows(op: Arith, A: MatrixValue, s: int, rows: nat): (C: MatrixValue)
    requires A.Valid() && rows <= A.m && (op.Div? ==> s != 0)
    ensures SameShape(C, A)
  {
    MatrixValue(A.m, A.n, seq(|A.elems|, k requires 0 <= k < |A.elems| =>
      if k < rows * A.n then Apply(op, A.elems[k], s) else A.elems[k]))
  }

  /** Every element combined with the scalar s. */
  function ScalarMap(op: Arith, A: MatrixValue, s: int): (C: MatrixValue)
    requires A.Valid() && (op.Div? ==> s != 0)
    ensures SameShape(C, A)
  {
    ScalarMapRows(op, A, s, A.m)
  }

  lemma ScalarMapRowsAt(op: Arith, A: MatrixValue, s: int, rows: nat, i: nat, j: nat)
    requires A.Valid() && rows <= A.m && (op.Div? ==> s != 0) && i < A.m && j < A.n
    ensures ScalarMapRows(op, A, s, rows).At(i, j) == if i < rows then Apply(op, A.At(i, j), s) else A.At(i, j)
  {
    RowMajorBound(i, j, A.m, A.n);
    if i < rows {
      RowMajorBound(i, j, rows, A.n);
    } else {
      MulMonotone(rows, i, A.n);
    }
  }

  lemma ScalarMapAt(op: Arith, A: MatrixValue, s: int, i: nat, j: nat)
    requires A.Valid() && (op.Div? ==> s != 0) && i < A.m && j < A.n
    ensures ScalarMap(op, A, s).At(i, j) == Apply(op, A.At(i, j), s)
  {
    ScalarMapRowsAt(op, A, s, A.m, i, j);
  }

  // ---------------------------------------------------------------------------
  // Matrix product

  /** The first `len` terms of the sum over k of A(i, k) * B(k, j). */
  function Dot(A: MatrixValue, B: MatrixValue, i: nat, j: nat, len: nat): int
    requires Conformable(A, B) && i < A.m && j < B.n && len <= A.n
    decreases len
  {
    if len == 0 then 0 else Dot(A, B, i, j, len - 1) + A.At(i, len - 1) * B.At(len - 1, j)
  }

  /** The m-by-o buffer after the first `rounds` rounds of the k-outermost accumulation. */
  function Accumulated(A: MatrixValue, B: MatrixValue, rounds: nat): (s: seq<int>)
    requires Conformable(A, B) && rounds <= A.n
    ensures |s| == A.m * B.n
  {
    seq(A.m * B.n, x requires 0 <= x < A.m * B.n =>
      IndexSplit(x, A.m, B.n);
      Dot(A, B, x / B.n, x % B.n, rounds))
  }

  /** The matrix product of an m-by-n and an n-by-o matrix: all n rounds accumulated. */
  function Product(A: MatrixValue, B: MatrixValue): (P: MatrixValue)
    requires Conformable(A, B)
    ensures P.Valid() && P.m == A.m && P.n == B.n
  {
    MatrixValue(A.m, B.n, Accumulated(A, B, A.n))
  }

  /** Product element (i, j) is the sum over k of A(i, k) * B(k, j). */
  lemma ProductAt(A: MatrixValue, B: MatrixValue, i: nat, j: nat)
    requires Conformable(A, B) && i < A.m && j < B.n
    ensures Product(A, B).At(i, j) == Dot(A, B, i, j, A.n)
  {
    RowMajorBound(i, j, A.m, B.n);
    RowMajorSplit(i, j, B.n);
  }

  /** Whether cell (r, c) has received the current round's term when the loops stand at column j, row i. */
  predicate Visited(r: nat, c: nat, j: nat, i: nat)
  {
    c < j || (c == j && r < i)
  }

  /** The buffer inside round k of the accumulation, with the j and i loops at column j, row i. */
  ghost function Stage(A: MatrixValue, B: MatrixValue, k: nat, j: nat, i: nat): (s: seq<int>)
    requires Conformable(A, B) && k < A.n
    ensures |s| == A.m * B.n
  {
    seq(A.m * B.n, x requires 0 <= x < A.m * B.n =>
      IndexSplit(x, A.m, B.n);
      Dot(A, B, x / B.n, x % B.n, if Visited(x / B.n, x % B.n, j, i) then k + 1 else k))
  }

  lemma StageStart(A: MatrixValue, B: MatrixValue, k: nat)
    requires Conformable(A, B) && k < A.n
    ensures Stage(A, B, k, 0, 0) == Accumulated(A, B, k)
  {
    forall x | 0 <= x < A.m * B.n
      ensures Stage(A, B, k, 0, 0)[x] == Accumulated(A, B, k)[x]
    {
      IndexSplit(x, A.m, B.n);
    }
  }

  lemma StageColumnDone(A: MatrixValue, B: MatrixValue, k: nat, j: nat)
    requires Conformable(A, B) && k < A.n && j < B.n
    ensures Stage(A, B, k, j, A.m) == Stage(A, B, k, j + 1, 0)
  {
    forall x | 0 <= x < A.m * B.n
      ensures Stage(A, B, k, j, A.m)[x] == Stage(A, B, k, j + 1, 0)[x]
    {
      StageColumnDoneAt(A, B, k, j, x);
    }
  }

  lemma StageColumnDoneAt(A: MatrixValue, B: MatrixValue, k: nat, j: nat, x: nat)
    requires Conformable(A, B) && k < A.n && j < B.n && x < A.m * B.n
    ensures Stage(A, B, k, j, A.m)[x] == Stage(A, B, k, j + 1, 0)[x]
  {
    IndexSplit(x, A.m, B.n);
    assert Visited(x / B.n, x % B.n, j, A.m) == Visited(x / B.n, x % B.n, j + 1, 0);
  }

  lemma StageRoundDone(A: MatrixValue, B: MatrixValue, k: nat)
    requires Conformable(A, B) && k < A.n
    ensures Stage(A, B, k, B.n, 0) == Accumulated(A, B, k + 1)
  {
    forall x | 0 <= x < A.m * B.n
      ensures Stage(A, B, k, B.n, 0)[x] == Accumulated(A, B, k + 1)[x]
    {
      IndexSplit(x, A.m, B.n);
    }
  }

  /** One step of the innermost loop adds A(i, k) * B(k, j) to cell (i, j) and to no other. */
  lemma StageStep(A: MatrixValue, B: MatrixValue, k: nat, j: nat, i: nat)
    requires Conformable(A, B) && k < A.n && j < B.n && i < A.m
    ensures i * B.n + j < A.m * B.n
    ensures Stage(A, B, k, j, i)[i * B.n + j := Stage(A, B, k, j, i)[i * B.n + j] + A.At(i, k) * B.At(k, j)]
         == Stage(A, B, k, j, i + 1)
  {
    var o := B.n;
    RowMajorBound(i, j, A.m, o);
    RowMajorSplit(i, j, o);
    var before, after := Stage(A, B, k, j, i), Stage(A, B, k, j, i + 1);
    forall x | 0 <= x < A.m * o
      ensures before[i * o + j := before[i * o + j] + A.At(i, k) * B.At(k, j)][x] == after[x]
    {
      IndexSplit(x, A.m, o);
      if x != i * o + j {
        assert x / o != i || x % o != j;
      }
    }
  }

  // ---------------------------------------------------------------------------
  // Transpose

  /** The n-by-m matrix whose element (j, i) is A's element (i, j). */
  function TransposeOf(A: MatrixValue): (T: MatrixValue)
    requires A.Valid()
    ensures T.Valid() && T.m == A.n && T.n == A.m
  {
    MatrixValue(A.n, A.m, seq(A.n * A.m, x requires 0 <= x < A.n * A.m =>
      IndexSplit(x, A.n, A.m);
      A.At(x % A.m, x / A.m)))
  }

  lemma TransposeAt(A: MatrixValue, i: nat, j: nat)
    requires A.Valid() && i < A.m && j < A.n
    ensures TransposeOf(A).At(j, i) == A.At(i, j)
  {
    RowMajorBound(j, i, A.n, A.m);
    RowMajorSplit(j, i, A.m);
  }

  /** Transposing twice gives the matrix back. */
  lemma TransposeInvolution(A: MatrixValue)
    requires A.Valid()
    ensures TransposeOf(TransposeOf(A)) == A
  {
    var T := TransposeOf(A);
    var TT := TransposeOf(T);
    forall x | 0 <= x < A.m * A.n
      ensures TT.elems[x] == A.elems[x]
    {
      IndexSplit(x, A.m, A.n);
      var i, j := x / A.n, x % A.n;
      TransposeAt(T, j, i);
      TransposeAt(A, i, j);
    }
  }

  /**
   * The n-by-m transpose buffer once the copy loop (rows i of A outermost,
   * columns j innermost) has copied rows 0..i-1 and the first j elements of row i.
   */
  ghost function TransposeStage(A: MatrixValue, i: nat, j: nat): (s: seq<int>)
    requires A.Valid()
    ensures |s| == A.n * A.m
  {
    seq(A.n * A.m, x requires 0 <= x < A.n * A.m =>
      IndexSplit(x, A.n, A.m);
      if Visited(x / A.m, x % A.m, i, j) then A.At(x % A.m, x / A.m) else 0)
  }

  lemma TransposeStageStart(A: MatrixValue)
    requires A.Valid()
    ensures TransposeStage(A, 0, 0) == Filled(A.n, A.m, 0).elems
  {
    forall x | 0 <= x < A.n * A.m
      ensures TransposeStage(A, 0, 0)[x] == 0
    {
      IndexSplit(x, A.n, A.m);
    }
  }

  lemma TransposeStageRowDone(A: MatrixValue, i: nat)
    requires A.Valid() && i < A.m
    ensures TransposeStage(A, i, A.n) == TransposeStage(A, i + 1, 0)
  {
    forall x | 0 <= x < A.n * A.m
      ensures TransposeStage(A, i, A.n)[x] == TransposeStage(A, i + 1, 0)[x]
    {
      TransposeStageRowDoneAt(A, i, x);
    }
  }

  lemma TransposeStageRowDoneAt(A: MatrixValue, i: nat, x: nat)
    requires A.Valid() && i < A.m && x < A.n * A.m
    ensures TransposeStage(A, i, A.n)[x] == TransposeStage(A, i + 1, 0)[x]
  {
    IndexSplit(x, A.n, A.m);
    assert Visited(x / A.m, x % A.m, i, A.n) == Visited(x / A.m, x % A.m, i + 1, 0);
  }

  lemma TransposeStageDone(A: MatrixValue)
    requires A.Valid()
    ensures TransposeStage(A, A.m, 0) == TransposeOf(A).elems
  {
    forall x | 0 <= x < A.n * A.m
      ensures TransposeStage(A, A.m, 0)[x] == TransposeOf(A).elems[x]
    {
      IndexSplit(x, A.n, A.m);
    }
  }

  /** Copying A(i, j) to slot j*m + i fills exactly that cell of the transpose. */
  lemma TransposeStageStep(A: MatrixValue, i: nat, j: nat)
    requires A.Valid() && i < A.m && j < A.n
    ensures j * A.m + i < A.n * A.m
    ensures TransposeStage(A, i, j)[j * A.m + i := A.At(i, j)] == TransposeStage(A, i, j + 1)
  {
    RowMajorBound(j, i, A.n, A.m);
    RowMajorSplit(j, i, A.m);
    var before, after := TransposeStage(A, i, j), TransposeStage(A, i, j + 1);
    forall x | 0 <= x < A.n * A.m
      ensures before[j * A.m + i := A.At(i, j)][x] == after[x]
    {
      IndexSplit(x, A.n, A.m);
      if x != j * A.m + i {
        assert x / A.m != j || x % A.m != i;
      }
    }
  }

  // ---------------------------------------------------------------------------
  // Algebraic laws

  lemma {:induction false} DotIdentityRight(A: MatrixValue, i: nat, j: nat, len: nat)
    requires A.Valid() && i < A.m && j < A.n && len <= A.n
    ensures Dot(A, IdentityOf(A.n), i, j, len) == if j < len then A.At(i, j) else 0
  {
    if len > 0 {
      DotIdentityRight(A, i, j, len - 1);
      IdentityAt(A.n, len - 1, j);
    }
  }

  lemma {:induction false} DotIdentityLeft(X: MatrixValue, i: nat, j: nat, len: nat)
    requires X.Valid() && i < X.m && j < X.n && len <= X.m
    ensures Dot(IdentityOf(X.m), X, i, j, len) == if i < len then X.At(i, j) else 0
  {
    if len > 0 {
      DotIdentityLeft(X, i, j, len - 1);
      IdentityAt(X.m, i, len - 1);
    }
  }

  /** A * Identity == A. */
  lemma ProductRightIdentity(A: MatrixValue)
    requires A.Valid()
    ensures Product(A, IdentityOf(A.n)) == A
  {
    var P := Product(A, IdentityOf(A.n));
    forall x | 0 <= x < A.m * A.n
      ensures P.elems[x] == A.elems[x]
    {
      IndexSplit(x, A.m, A.n);
      var i, j := x / A.n, x % A.n;
      ProductAt(A, IdentityOf(A.n), i, j);
      DotIdentityRight(A, i, j, A.n);
    }
  }

  /** Identity * X == X. */
  lemma ProductLeftIdentity(X: MatrixValue)
    requires X.Valid()
    ensures Product(IdentityOf(X.m), X) == X
  {
    var P := Product(IdentityOf(X.m), X);
    forall x | 0 <= x < X.m * X.n
      ensures P.elems[x] == X.elems[x]
    {
      IndexSplit(x, X.m, X.n);
      var i, j := x / X.n, x % X.n;
      ProductAt(IdentityOf(X.m), X, i, j);
      DotIdentityLeft(X, i, j, X.m);
    }
  }

  /** (A + B) - B == A. */
  lemma SumThenDifference(A: MatrixValue, B: MatrixValue)
    requires SameShape(A, B)
    ensures Pointwise(Sub, Pointwise(Add, A, B), B) == A
  {
    var C := Pointwise(Sub, Pointwise(Add, A, B), B);
    assert C.elems == A.elems;
  }

  /** A + A doubles every element. */
  lemma SelfSumDoubles(A: MatrixValue)
    requires A.Valid()
    ensures Pointwise(Add, A, A) == ScalarMap(Mul, A, 2)
  {
    forall k | 0 <= k < |A.elems|
      ensures Pointwise(Add, A, A).elems[k] == ScalarMap(Mul, A, 2).elems[k]
    {
      assert k < A.m * A.n;
    }
  }

  /** A - A is the zero matrix. */
  lemma SelfDifferenceZero(A: MatrixValue)
    requires A.Valid()
    ensures Pointwise(Sub, A, A) == Filled(A.m, A.n, 0)
  {
    assert Pointwise(Sub, A, A).elems == Filled(A.m, A.n, 0).elems;
  }

  /** (A * s) / s == A for a nonzero integer s. */
  lemma ScaleThenDivide(A: MatrixValue, s: int)
    requires A.Valid() && s != 0
    ensures ScalarMap(Div, ScalarMap(Mul, A, s), s) == A
  {
    var C := ScalarMap(Div, ScalarMap(Mul, A, s), s);
    forall k | 0 <= k < |A.elems|
      ensures C.elems[k] == A.elems[k]
    {
      assert k < A.m * A.n;
      TruncDivCancel(A.elems[k], s);
    }
  }

  lemma {:induction false} DotColumnUpdate(A: MatrixValue, B: MatrixValue, r: nat, c: nat, v: int, i: nat, j: nat, len: nat)
    requires Conformable(A, B) && r < B.m && c < B.n && i < A.m && j < B.n && len <= A.n
    ensures Conformable(A, Updated(B, r, c, v))
    ensures Dot(A, Updated(B, r, c, v), i, j, len)
         == Dot(A, B, i, j, len) + (if j == c && r < len then A.At(i, r) * (v - B.At(r, c)) else 0)
  {
    if len > 0 {
      DotColumnUpdate(A, B, r, c, v, i, j, len - 1);
      UpdatedAt(B, r, c, v, len - 1, j);
    }
  }

  /**
   * Writing v into B(r, c) changes column c of A * B, each entry (i, c) by
   * A(i, r) * (v - B(r, c)), and leaves every other column as it was.
   */
  lemma ProductColumnUpdate(A: MatrixValue, B: MatrixValue, r: nat, c: nat, v: int, i: nat, j: nat)
    requires Conformable(A, B) && r < B.m && c < B.n && i < A.m && j < B.n
    ensures Conformable(A, Updated(B, r, c, v))
    ensures Product(A, Updated(B, r, c, v)).At(i, j)
         == Product(A, B).At(i, j) + (if j == c then A.At(i, r) * (v - B.At(r, c)) else 0)
  {
    DotColumnUpdate(A, B, r, c, v, i, j, A.n);
    ProductAt(A, B, i, j);
    ProductAt(A, Updated(B, r, c, v), i, j);
  }
}
