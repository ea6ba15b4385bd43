/**
 * cgraph's lazy expression graph (expression.h).  A `Source` leaf refers to a
 * `Variable` and yields its current value; a composite node holds one of the
 * four binary combinators and its two operand expressions, and re-evaluates
 * both operands on every call.  Nothing is cached.
 *
 * Variables are identified by their position in a store: `Source(id)` reads
 * entry id.  The value-level evaluator `Eval` works on a store of values; the
 * method `Evaluate` works on the live `Variable` cells and is proved equal to
 * `Eval` on their current contents.  Element arithmetic is over `int` and the
 * matrix operations are the MatrixSpec functions that the `Matrix` methods are
 * proved against.
 */
module Expressions {
  import opened MatrixSpec
  import opened Variables

  /** What a node yields: a scalar or a matrix. */
  datatype Value = Scalar(x: int) | Mat(v: MatrixValue)
  {
    predicate Valid() { Mat? ==> v.Valid() }
  }

  /**
   * The static type of a value: scalar, or a matrix of a fixed shape.  In C++
   * this is the template argument `Matrix<T, m, n>`.
   */
  datatype Kind = ScalarKind | MatrixKind(m: nat, n: nat)

  function KindOf(a: Value): Kind
  {
    match a
    case Scalar(_) => ScalarKind
    case Mat(v) => MatrixKind(v.m, v.n)
  }

  datatype Option<T> = None | Some(value: T)

  /**
   * Why an evaluation has no value: operands whose kinds the operator does not
   * accept (a program C++ refuses to compile), or an integer division by zero
   * (undefined behaviour in C++).
   */
  datatype Error = ShapeMismatch | DivisionByZero

  datatype Result<T> = Ok(value: T) | Err(error: Error)

  /** The four binary combinators: `*`, `+`, `-`, `/` applied to the operands' values. */
  datatype Combinator = Multiplier | Adder | Subtracter | Divider

  // ---------------------------------------------------------------------------
  // Kinds

  /**
   * The kind of `a op b` for each operator overload the matrix library
   * provides: scalar with scalar; scalar times matrix either way round; the
   * matrix product with matching inner dimensions; sum and difference of
   * equal shapes; a matrix divided by a scalar.
   */
  function ResultKind(f: Combinator, k1: Kind, k2: Kind): (r: Option<Kind>)
    ensures k1 == k2 == ScalarKind ==> r == Some(ScalarKind)
    ensures f.Multiplier? && k1.MatrixKind? && k2.MatrixKind? ==>
      (r.Some? <==> k1.n == k2.m) && (r.Some? ==> r.value == MatrixKind(k1.m, k2.n))
    ensures f.Multiplier? && (k1 == ScalarKind) != (k2 == ScalarKind) ==> r == Some(if k1 == ScalarKind then k2 else k1)
    ensures (f.Adder? || f.Subtracter?) && (k1.MatrixKind? || k2.MatrixKind?) ==> r == if k1 == k2 then Some(k1) else None
    ensures f.Divider? && k1.MatrixKind? ==> r == if k2 == ScalarKind then Some(k1) else None
    ensures f.Divider? && k1 == ScalarKind ==> r == if k2 == ScalarKind then Some(k1) else None
  {
    match (f, k1, k2)
    case (_, ScalarKind, ScalarKind) => Some(ScalarKind)
    case (Multiplier, ScalarKind, MatrixKind(_, _)) => Some(k2)
    case (Multiplier, MatrixKind(_, _), ScalarKind) => Some(k1)
    case (Multiplier, MatrixKind(a, b), MatrixKind(c, d)) => if b == c then Some(MatrixKind(a, d)) else None
    case (Adder, MatrixKind(_, _), MatrixKind(_, _)) => if k1 == k2 then Some(k1) else None
    case (Subtracter, MatrixKind(_, _), MatrixKind(_, _)) => if k1 == k2 then Some(k1) else None
    case (Divider, MatrixKind(_, _), ScalarKind) => Some(k1)
    case _ => None
  }

  /**
   * The kind the combinators accept as written: each lambda declares its
   * return type as the type of `expr1() * expr2()`, so a call compiles only
   * when the product is defined and the operator's own result has that type.
   */
  function ResultKindAsWritten(f: Combinator, k1: Kind, k2: Kind): (r: Option<Kind>)
    ensures r.Some? ==> r == ResultKind(f, k1, k2) == ResultKind(Multiplier, k1, k2)
  {
    var declared := ResultKind(Multiplier, k1, k2);
    if declared.Some? && ResultKind(f, k1, k2) == declared then declared else None
  }

  /**
   * The declared return type loses exactly the sums and differences of
   * equally shaped non-square matrices: for those the product in the
   * declaration has mismatched inner dimensions.
   */
  lemma AsWrittenDiffersExactlyOnNonSquareSums(f: Combinator, k1: Kind, k2: Kind)
    ensures ResultKindAsWritten(f, k1, k2) != ResultKind(f, k1, k2)
        <==> (f.Adder? || f.Subtracter?) && k1 == k2 && k1.MatrixKind? && k1.m != k1.n
  {
  }

  /** Adding two 2-by-3 matrices is intended, but the declared return type makes it ill-formed. */
  lemma AsWrittenRejectsRectangularSum()
    ensures ResultKind(Adder, MatrixKind(2, 3), MatrixKind(2, 3)) == Some(MatrixKind(2, 3))
    ensures ResultKindAsWritten(Adder, MatrixKind(2, 3), MatrixKind(2, 3)) == None
  {
  }

  // ---------------------------------------------------------------------------
  // Combinators

  /**
   * The value of `a op b`.  Matrix products, sums, differences and scalar
   * scalings are the MatrixSpec functions; integer division truncates.  The
   * result exists exactly when the kinds are accepted and no division by zero
   * occurs, and it has the kind `ResultKind` predicts.
   */
  function Combine(f: Combinator, a: Value, b: Value): (r: Result<Value>)
    requires a.Valid() && b.Valid()
    ensures r.Ok? <==> ResultKind(f, KindOf(a), KindOf(b)).Some? && !(f.Divider? && b == Scalar(0))
    ensures r.Ok? ==> r.value.Valid() && ResultKind(f, KindOf(a), KindOf(b)) == Some(KindOf(r.value))
    ensures r.Err? ==> r.error == if ResultKind(f, KindOf(a), KindOf(b)).None? then ShapeMismatch else DivisionByZero
  {
    match (f, a, b)
    case (Multiplier, Scalar(x), Scalar(y)) => Ok(Scalar(x * y))
    case (Multiplier, Scalar(x), Mat(B)) => Ok(Mat(ScalarMap(Mul, B, x)))
    case (Multiplier, Mat(A), Scalar(y)) => Ok(Mat(ScalarMap(Mul, A, y)))
    case (Multiplier, Mat(A), Mat(B)) => if A.n == B.m then Ok(Mat(Product(A, B))) else Err(ShapeMismatch)
    case (Adder, Scalar(x), Scalar(y)) => Ok(Scalar(x + y))
    case (Adder, Mat(A), Mat(B)) => if A.m == B.m && A.n == B.n then Ok(Mat(Pointwise(Add, A, B))) else Err(ShapeMismatch)
    case (Subtracter, Scalar(x), Scalar(y)) => Ok(Scalar(x - y))
    case (Subtracter, Mat(A), Mat(B)) => if A.m == B.m && A.n == B.n then Ok(Mat(Pointwise(Sub, A, B))) else Err(ShapeMismatch)
    case (Divider, Scalar(x), Scalar(y)) => if y == 0 then Err(DivisionByZero) else Ok(Scalar(TruncDiv(x, y)))
    case (Divider, Mat(A), Scalar(y)) => if y == 0 then Err(DivisionByZero) else Ok(Mat(ScalarMap(Div, A, y)))
    case _ => Err(ShapeMismatch)
  }

  // ---------------------------------------------------------------------------
  // Expressions and their evaluation

  datatype Expr = Source(id: nat) | Composite(f: Combinator, left: Expr, right: Expr)

  /** The variables an expression refers to. */
  function Vars(e: Expr): set<nat>
  {
    match e
    case Source(id) => {id}
    case Composite(_, l, r) => Vars(l) + Vars(r)
  }

  /** Every variable e refers to exists in a store of the given size. */
  predicate Bound(e: Expr, size: nat)
  {
    match e
    case Source(id) => id < size
    case Composite(_, l, r) => Bound(l, size) && Bound(r, size)
  }

  /** Bound says exactly that every mentioned id is below the size. */
  lemma {:induction false} BoundMeansVarsBelow(e: Expr, size: nat)
    ensures Bound(e, size) <==> forall id :: id in Vars(e) ==> id < size
  {
    match e
    case Source(id) =>
      assert id in Vars(e);
    case Composite(_, l, r) =>
      assert Vars(e) == Vars(l) + Vars(r);
      BoundMeansVarsBelow(l, size);
      BoundMeansVarsBelow(r, size);
  }

  /** A store: the current value of each variable, by id. */
  type Store = seq<Value>

  predicate WellFormed(s: Store)
  {
    forall i :: 0 <= i < |s| ==> s[i].Valid()
  }

  /**
   * Evaluation: a source yields its variable's current value; a composite
   * evaluates its two operands and combines them.  The operand calls are
   * unsequenced in C++; the model takes the left one first, so when both fail
   * the left one's error is the result.
   */
  function Eval(e: Expr, s: Store): (r: Result<Value>)
    requires WellFormed(s) && Bound(e, |s|)
    ensures r.Ok? ==> r.value.Valid()
  {
    match e
    case Source(id) => Ok(s[id])
    case Composite(f, l, rt) =>
      var a := Eval(l, s);
      if a.Err? then a
      else
        var b := Eval(rt, s);
        if b.Err? then b else Combine(f, a.value, b.value)
  }

  // ---------------------------------------------------------------------------
  // Builders: `operator* + - /` on two expressions

  function TimesExpr(l: Expr, r: Expr): (e: Expr)
    ensures Vars(e) == Vars(l) + Vars(r)
  {
    Composite(Multiplier, l, r)
  }

  function PlusExpr(l: Expr, r: Expr): (e: Expr)
    ensures Vars(e) == Vars(l) + Vars(r)
  {
    Composite(Adder, l, r)
  }

  function MinusExpr(l: Expr, r: Expr): (e: Expr)
    ensures Vars(e) == Vars(l) + Vars(r)
  {
    Composite(Subtracter, l, r)
  }

  function OverExpr(l: Expr, r: Expr): (e: Expr)
    ensures Vars(e) == Vars(l) + Vars(r)
  {
    Composite(Divider, l, r)
  }

  /**
   * Each built expression, evaluated, applies its own combinator to the
   * values of its operands.  When both operands fail, the error reported is
   * the left one's: C++ leaves the order of the two operand calls unspecified,
   * and this model fixes it left first.
   */
  lemma BuildersApplyTheirCombinator(l: Expr, r: Expr, s: Store)
    requires WellFormed(s) && Bound(l, |s|) && Bound(r, |s|)
    ensures Eval(l, s).Ok? && Eval(r, s).Ok? ==>
      && Eval(TimesExpr(l, r), s) == Combine(Multiplier, Eval(l, s).value, Eval(r, s).value)
      && Eval(PlusExpr(l, r), s) == Combine(Adder, Eval(l, s).value, Eval(r, s).value)
      && Eval(MinusExpr(l, r), s) == Combine(Subtracter, Eval(l, s).value, Eval(r, s).value)
      && Eval(OverExpr(l, r), s) == Combine(Divider, Eval(l, s).value, Eval(r, s).value)
    ensures Eval(l, s).Err? ==>
      Eval(TimesExpr(l, r), s) == Eval(PlusExpr(l, r), s) == Eval(MinusExpr(l, r), s) == Eval(OverExpr(l, r), s) == Eval(l, s)
    ensures Eval(l, s).Ok? && Eval(r, s).Err? ==>
      Eval(TimesExpr(l, r), s) == Eval(PlusExpr(l, r), s) == Eval(MinusExpr(l, r), s) == Eval(OverExpr(l, r), s) == Eval(r, s)
  {
  }

  // ---------------------------------------------------------------------------
  // Typing

  /**
   * The intended static type of an expression, given the kinds of the
   * variables: each node's kind is what its own combinator yields
   * (`ResultKind`), None when the operands do not fit.  The declared types
   * differ for sums and differences of non-square matrices; see
   * TypeOfAsWritten.  An expression over scalar variables only is always
   * accepted and is a scalar.
   */
  function TypeOf(e: Expr, kinds: seq<Kind>): (k: Option<Kind>)
    requires Bound(e, |kinds|)
    ensures (forall id :: id in Vars(e) && id < |kinds| ==> kinds[id] == ScalarKind) ==> k == Some(ScalarKind)
  {
    match e
    case Source(id) => Some(kinds[id])
    case Composite(f, l, r) =>
      assert Vars(e) == Vars(l) + Vars(r);
      var k1, k2 := TypeOf(l, kinds), TypeOf(r, kinds);
      if k1.Some? && k2.Some? then ResultKind(f, k1.value, k2.value) else None
  }

  /**
   * The static type as the headers declare it: each node's `OutputType` is
   * the declared `decltype(expr1() * expr2())`, so a node whose product would
   * be ill-formed has no type, even where its own combinator accepts the
   * operands.
   */
  function TypeOfAsWritten(e: Expr, kinds: seq<Kind>): (k: Option<Kind>)
    requires Bound(e, |kinds|)
    ensures (forall id :: id in Vars(e) && id < |kinds| ==> kinds[id] == ScalarKind) ==> k == Some(ScalarKind)
  {
    match e
    case Source(id) => Some(kinds[id])
    case Composite(f, l, r) =>
      assert Vars(e) == Vars(l) + Vars(r);
      var k1, k2 := TypeOfAsWritten(l, kinds), TypeOfAsWritten(r, kinds);
      if k1.Some? && k2.Some? then ResultKindAsWritten(f, k1.value, k2.value) else None
  }

  /** Whenever the declared types accept an expression, they agree with the intended ones. */
  lemma {:induction false} TypeOfAsWrittenWithinIntended(e: Expr, kinds: seq<Kind>)
    requires Bound(e, |kinds|)
    ensures TypeOfAsWritten(e, kinds).Some? ==> TypeOfAsWritten(e, kinds) == TypeOf(e, kinds)
  {
    match e
    case Source(_) =>
    case Composite(f, l, r) =>
      TypeOfAsWrittenWithinIntended(l, kinds);
      TypeOfAsWrittenWithinIntended(r, kinds);
  }

  /**
   * Over variables that are scalars or square matrices the declared and the
   * intended types coincide, and every node is a scalar or a square matrix.
   */
  lemma {:induction false} TypeOfAsWrittenSquare(e: Expr, kinds: seq<Kind>)
    requires Bound(e, |kinds|)
    requires forall id :: id in Vars(e) && id < |kinds| && kinds[id].MatrixKind? ==> kinds[id].m == kinds[id].n
    ensures TypeOfAsWritten(e, kinds) == TypeOf(e, kinds)
    ensures TypeOf(e, kinds).Some? && TypeOf(e, kinds).value.MatrixKind? ==> TypeOf(e, kinds).value.m == TypeOf(e, kinds).value.n
  {
    match e
    case Source(id) =>
      assert id in Vars(e);
    case Composite(f, l, r) =>
      assert Vars(e) == Vars(l) + Vars(r);
      TypeOfAsWrittenSquare(l, kinds);
      TypeOfAsWrittenSquare(r, kinds);
      var k1, k2 := TypeOf(l, kinds), TypeOf(r, kinds);
      if k1.Some? && k2.Some? {
        AsWrittenDiffersExactlyOnNonSquareSums(f, k1.value, k2.value);
      }
  }

  /** The sum of two 2-by-3 variables is intended to be 2-by-3 but has no declared type. */
  lemma TypeOfAsWrittenRejectsRectangularSum()
    ensures TypeOf(PlusExpr(Source(0), Source(1)), [MatrixKind(2, 3), MatrixKind(2, 3)]) == Some(MatrixKind(2, 3))
    ensures TypeOfAsWritten(PlusExpr(Source(0), Source(1)), [MatrixKind(2, 3), MatrixKind(2, 3)]) == None
  {
  }

  /** The store holds, for each variable, a value of the kind declared for it. */
  predicate Typed(s: Store, kinds: seq<Kind>)
  {
    |s| == |kinds| && forall i :: 0 <= i < |s| ==> KindOf(s[i]) == kinds[i]
  }

  /**
   * Type soundness: an evaluation that succeeds yields a value of the
   * expression's kind; an ill-kinded expression never succeeds; a well-kinded
   * one can fail only by dividing by zero.
   */
  lemma {:induction false} TypeSoundness(e: Expr, s: Store, kinds: seq<Kind>)
    requires WellFormed(s) && Bound(e, |s|) && Typed(s, kinds)
    ensures Eval(e, s).Ok? ==> TypeOf(e, kinds) == Some(KindOf(Eval(e, s).value))
    ensures TypeOf(e, kinds).None? ==> Eval(e, s).Err?
    ensures TypeOf(e, kinds).Some? ==> Eval(e, s) != Err(ShapeMismatch)
  {
    match e
    case Source(id) =>
    case Composite(f, l, r) =>
      TypeSoundness(l, s, kinds);
      TypeSoundness(r, s, kinds);
  }

  // ---------------------------------------------------------------------------
  // Dependence on the store

  /** Evaluation depends on nothing but the current values of the variables the expression mentions. */
  lemma {:induction false} EvalAgrees(e: Expr, s1: Store, s2: Store)
    requires WellFormed(s1) && WellFormed(s2) && Bound(e, |s1|) && Bound(e, |s2|)
    requires forall id :: id in Vars(e) ==> id < |s1| && id < |s2| && s1[id] == s2[id]
    ensures Eval(e, s1) == Eval(e, s2)
  {
    match e
    case Source(id) =>
    case Composite(f, l, r) =>
      assert Vars(e) == Vars(l) + Vars(r);
      EvalAgrees(l, s1, s2);
      EvalAgrees(r, s1, s2);
  }

  /** Writing a variable the expression does not mention leaves its value unchanged. */
  lemma WriteUnmentioned(e: Expr, s: Store, id: nat, v: Value)
    requires WellFormed(s) && Bound(e, |s|) && id < |s| && v.Valid() && id !in Vars(e)
    ensures Eval(e, s[id := v]) == Eval(e, s)
  {
    BoundMeansVarsBelow(e, |s|);
    EvalAgrees(e, s[id := v], s);
  }

  /**
   * The sequence of test.cc:81-88 in general form: for e3 = e1 * e2 over two
   * matrix variables, writing element (r, c) of the right operand's variable
   * changes column c of the next evaluation by A(i, r) times the increment,
   * and no other column.
   */
  lemma ProductSeesWrite(A: MatrixValue, B: MatrixValue, r: nat, c: nat, x: int, i: nat, j: nat)
    requires Conformable(A, B) && r < B.m && c < B.n && i < A.m && j < B.n
    ensures
      var e3, s := TimesExpr(Source(0), Source(1)), [Mat(A), Mat(B)];
      var s' := s[1 := Mat(Updated(B, r, c, x))];
      && Bound(e3, 2) && WellFormed(s) && WellFormed(s')
      && Eval(e3, s) == Ok(Mat(Product(A, B)))
      && Eval(e3, s').Ok? && Eval(e3, s').value.Mat?
      && Eval(e3, s').value.v.Valid() && Eval(e3, s').value.v.m == A.m && Eval(e3, s').value.v.n == B.n
      && Eval(e3, s').value.v.At(i, j)
         == Product(A, B).At(i, j) + (if j == c then A.At(i, r) * (x - B.At(r, c)) else 0)
  {
    assert Bound(Source(0), 2) && Bound(Source(1), 2);
    ProductColumnUpdate(A, B, r, c, x, i, j);
  }

  /**
   * test.cc:77-88 itself, for any size n (3 there): var2 holds twice the
   * identity, and setting its element (0, 0) to 4 adds twice column 0 of var1
   * to column 0 of e3 = e1 * e2.
   */
  lemma DemoWriteThroughSource(A: MatrixValue, n: nat, i: nat)
    requires A.Valid() && A.m == n && A.n == n && i < n
    ensures
      var B := ScalarMap(Mul, IdentityOf(n), 2);
      var e3, s := TimesExpr(Source(0), Source(1)), [Mat(A), Mat(B)];
      var s' := s[1 := Mat(Updated(B, 0, 0, 4))];
      && Bound(e3, 2) && WellFormed(s) && WellFormed(s')
      && Eval(e3, s) == Ok(Mat(Product(A, B)))
      && Eval(e3, s').Ok? && Eval(e3, s').value.Mat? && Eval(e3, s').value.v.Valid()
      && Eval(e3, s').value.v.m == n && Eval(e3, s').value.v.n == n
      && Eval(e3, s').value.v.At(i, 0) == Product(A, B).At(i, 0) + 2 * A.At(i, 0)
  {
    var B := ScalarMap(Mul, IdentityOf(n), 2);
    ScalarMapAt(Mul, IdentityOf(n), 2, 0, 0);
    IdentityAt(n, 0, 0);
    ProductSeesWrite(A, B, 0, 0, 4, i, 0);
  }

  // ---------------------------------------------------------------------------
  // Evaluation over live variables

  /**
   * The current contents of the cells, as a store: a well-formed one exactly
   * when every cell holds a valid value.
   */
  function Snapshot(cells: seq<Variable<Value>>): (s: Store)
    reads cells
    ensures |s| == |cells| && forall i :: 0 <= i < |cells| ==> s[i] == cells[i].data
    ensures WellFormed(s) <==> CellsValid(cells)
  {
    seq(|cells|, i reads cells requires 0 <= i < |cells| => cells[i].data)
  }

  predicate CellsValid(cells: seq<Variable<Value>>)
    reads cells
  {
    forall i :: 0 <= i < |cells| ==> cells[i].data.Valid()
  }

  /**
   * `operator()` of an expression whose sources refer to the given cells:
   * reads each source's cell afresh and combines the operands' values.  It
   * modifies nothing, and its result is the value-level evaluation of the
   * cells' current contents.
   */
  method Evaluate(e: Expr, cells: seq<Variable<Value>>) returns (r: Result<Value>)
    requires CellsValid(cells) && Bound(e, |cells|)
    ensures r == Eval(e, Snapshot(cells))
  {
    match e
    case Source(id) =>
      var x := cells[id].Get();
      r := Ok(x);
    case Composite(f, l, rt) =>
      var a := Evaluate(l, cells);
      if a.Err? {
        return a;
      }
      var b := Evaluate(rt, cells);
      if b.Err? {
        return b;
      }
      r := Combine(f, a.value, b.value);
  }

  /** No caching, no side effects: two evaluations with no write between them agree. */
  method EvaluateTwice(e: Expr, cells: seq<Variable<Value>>) returns (first: Result<Value>, second: Result<Value>)
    requires CellsValid(cells) && Bound(e, |cells|)
    ensures first == second == Eval(e, Snapshot(cells))
  {
    first := Evaluate(e, cells);
    second := Evaluate(e, cells);
  }

  /**
   * The store after v is written into cell w: every id whose source refers to
   * w (several may) now yields v; all others keep their value.
   */
  function Written(s: Store, cells: seq<Variable<Value>>, w: Variable<Value>, v: Value): (s': Store)
    requires |s| == |cells|
    ensures |s'| == |s|
  {
    seq(|s|, i requires 0 <= i < |s| => if cells[i] == w then v else s[i])
  }

  /** A write into a cell no source of e refers to does not change e's value. */
  lemma WrittenUnmentioned(e: Expr, s: Store, cells: seq<Variable<Value>>, w: Variable<Value>, v: Value)
    requires WellFormed(s) && |s| == |cells| && Bound(e, |s|) && v.Valid()
    requires forall id :: id in Vars(e) && id < |cells| ==> cells[id] != w
    ensures WellFormed(Written(s, cells, w, v))
    ensures Eval(e, Written(s, cells, w, v)) == Eval(e, s)
  {
    var s' := Written(s, cells, w, v);
    forall i | 0 <= i < |s'|
      ensures s'[i].Valid()
    {
    }
    BoundMeansVarsBelow(e, |s|);
    EvalAgrees(e, s', s);
  }

  /**
   * `e() = v` on the expression Source(id): the non-const `operator()` of a
   * source hands out a reference to its variable's own value, so assigning
   * through it writes that cell, and every source that shares the cell
   * yields v from then on.
   */
  method AssignThroughSource(id: nat, cells: seq<Variable<Value>>, v: Value)
    requires CellsValid(cells) && id < |cells| && v.Valid()
    modifies cells[id]
    ensures CellsValid(cells) && Snapshot(cells) == Written(old(Snapshot(cells)), cells, cells[id], v)
    ensures Eval(Source(id), Snapshot(cells)) == Ok(v)
  {
    cells[id].Set(v);
  }

  /**
   * Evaluate, write a variable, evaluate again: the second evaluation sees
   * the write wherever a source refers to the written cell.
   */
  method EvaluateAroundWrite(e: Expr, cells: seq<Variable<Value>>, w: Variable<Value>, v: Value)
      returns (before: Result<Value>, after: Result<Value>)
    requires CellsValid(cells) && Bound(e, |cells|) && v.Valid()
    modifies w
    ensures before == Eval(e, old(Snapshot(cells)))
    ensures CellsValid(cells) && Snapshot(cells) == Written(old(Snapshot(cells)), cells, w, v)
    ensures after == Eval(e, Written(old(Snapshot(cells)), cells, w, v))
  {
    before := Evaluate(e, cells);
    w.Set(v);
    after := Evaluate(e, cells);
  }
}
