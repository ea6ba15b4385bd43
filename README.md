# cgraph in Dafny

A model of the core of cgraph, a small C++ header library for computation
graphs over fixed-size matrices:

- `matrix.h` — `Matrix<T, m, n>`, an `m`-by-`n` matrix whose elements sit
  row-major in one buffer, with the constructors, `Identity`, `Constant`,
  `Ones`, element access, the product, sum and difference, the compound
  assignments, the scalar decay, `Transpose` and the free scalar `*` and `/`.
- `expression.h` — the lazy expression graph: `Source` leaves that observe a
  `Variable`, composite nodes built by `operator* + - /` that re-evaluate their
  operands on every call.
- `variable.h` — `Variable<T>`, the mutable cell that sources observe and
  client code writes through.

The project has four modules:

- `MatrixSpec` (matrix_spec.dfy): matrices as values (`MatrixValue`: shape
  plus row-major element sequence) and the functions every matrix operation is
  proved against (`Filled`, `IdentityOf`, `Updated`, `Pointwise`, `ScalarMap`,
  `Product`, `TransposeOf`), with their element-wise characterisations and the
  algebraic laws (identity is neutral for the product, `(A+B)-B == A`,
  `A+A == 2A`, `A-A == 0`, transpose is an involution, scaling then dividing
  restores a matrix, writing one element of B changes one column of A*B).
  It also holds the ghost "stage" functions describing the buffer half way
  through the product and transpose loops.
- `Matrices` (matrix.dfy): `class Matrix` with the element buffer as an
  `array<int>`. The accessors (`Size`, `Rows`, `Cols`, `Get`, `GetAt`,
  `ToScalar`) are functions reading the buffer. Every state-changing
  operation is a method that rewrites the buffer in place, with loops as in
  the C++ code (the copy back in `*=` with a matrix is a `forall` statement).
  Its `ensures` ties the result or the new state to the `MatrixSpec`
  function. The compile-time shape checks of the C++ templates
  (`static_assert`, `enable_if` on `m == n`, vector-only single indexing,
  matching inner dimensions) are `requires` clauses.
- `Variables` (variable.dfy): `class Variable<T>` with its single field.
- `Expressions` (expression.dfy):
  - the value and expression datatypes;
  - the combinators as a function over values, with the static kinds they
    accept;
  - the evaluator `Eval` over a store of values;
  - the method `Evaluate`, which reads live `Variable` cells and is proved
    equal to `Eval` on their current contents.

The element type is the mathematical `int`. C++ integer division truncates
toward zero and is modelled by `MatrixSpec.TruncDiv`. Division by zero is
undefined behaviour in C++: the matrix methods require a non-zero divisor, and
the expression evaluator reports `DivisionByZero`. A program that C++ would
refuse to compile (operands of the wrong shapes) gets a `ShapeMismatch`
result from the evaluator, except a sum or difference of two equally shaped
non-square matrices: the declared return type makes that ill-formed in C++
(see Findings), while the evaluator computes it as intended.

Where the code and its evident intent disagree, the model follows the code in
an `…AsWritten` member. A corrected member, which the rest of the model uses,
sits next to it (see Findings). `Transpose` is declared to return an m-by-n
matrix (matrix.h:293); it is modelled as written and corrected. The only scalar
`+` and `-` on a matrix are the compound forms `+=` and `-=` (matrix.h:256-279),
and so the model has no free scalar `+` or `-`. The divider's declared return type (expression.h:84) is that of `expr1() * expr2()`
as well, but for the operands `/` accepts (scalar by scalar, matrix by scalar)
that is the same type as the quotient, so only `+` and `-` are affected.

## Model

| member | source | states |
|---|---|---|
| Matrices.Matrix.Zeros | matrix.h:36-37 | default construction yields an m-by-n matrix whose m*n elements are all zero |
| Matrices.Matrix.FromElements | matrix.h:39-43 | construction from exactly m*n elements lays them out row by row |
| Matrices.Matrix.Identity | matrix.h:55-63 | only for square shapes; the result is the identity: 1 on the diagonal, 0 elsewhere |
| Matrices.Matrix.Constant | matrix.h:85-95 | every element of the m-by-n result equals t |
| Matrices.Matrix.Ones | matrix.h:100-103 | Ones() is the constant matrix of ones, the same as Constant(1) |
| Matrices.Matrix.Size | matrix.h:105-106 | Size() is the number of stored elements, m*n |
| Matrices.Matrix.Rows | matrix.h:108-109 | Rows() is the row count m of the shape, and Rows() times the column count is the buffer length |
| Matrices.Matrix.Cols | matrix.h:111-112 | Cols() is the column count n of the shape, and the row count times Cols() is the buffer length |
| Matrices.Matrix.Get | matrix.h:114-122 | (i, j) reads buffer slot i*n + j, which is element (i, j) of the row-major matrix |
| Matrices.Matrix.Set | matrix.h:114-117 | a write through (i, j) changes element (i, j) and no other |
| Matrices.Matrix.GetAt | matrix.h:124-134 | single indexing exists only for vectors: on a row vector (i) is element (0, i), on a column vector element (i, 0) |
| Matrices.Matrix.SetAt | matrix.h:124-128 | a write through (i) on a vector changes exactly that one element |
| Matrices.Matrix.ToScalar | matrix.h:284-287 | only a 1-by-1 matrix decays, and it decays to its single element |
| Matrices.Matrix.Copy | matrix.h:161 | a same-type cast copies the shape and all elements into a fresh buffer |
| Matrices.Matrix.Times | matrix.h:140-155 | the product of m-by-n and n-by-o matrices is the m-by-o matrix of row-by-column sums, accumulated k-outermost into a zero matrix |
| Matrices.AccumulateColumn | matrix.h:146-151 | one pass of the innermost loop adds A(i,k)*B(k,j) to element (i, j) for every row i |
| Matrices.Matrix.Plus | matrix.h:157-170 | the sum of equal shapes is element-wise, has that shape, and leaves both operands unchanged |
| Matrices.Matrix.Minus | matrix.h:172-185 | the difference of equal shapes is element-wise, has that shape, and leaves both operands unchanged |
| Matrices.Matrix.MulAssign | matrix.h:187-191 | `*=` with an n-by-n matrix replaces this matrix by the product of its old value and the old argument, also when the argument is this matrix |
| Matrices.Matrix.CombineInPlace | matrix.h:198-222 | the shared `+=`/`-=` loop rewrites each element once with the old values of both operands, also when the argument is this matrix |
| Matrices.Matrix.AddAssign | matrix.h:198-207 | `+=` with a matrix adds element-wise; `rmat += rmat` doubles every element; returns a fresh copy of the updated matrix (by value, not a reference) |
| Matrices.Matrix.SubAssign | matrix.h:213-222 | `-=` with a matrix subtracts element-wise; `rmat -= rmat` zeroes every element; returns a fresh copy of the updated matrix (by value, not a reference) |
| Matrices.Matrix.MapRowsInPlace | matrix.h:228-279 | the shared scalar loop applies the operation with val to each element of the first rows rows and leaves the others unchanged |
| Matrices.Matrix.ScaleAssignAsWritten | matrix.h:228-237 | `*=` with a scalar as written divides every element by val; returns a fresh copy of the updated matrix (by value, not a reference) |
| Matrices.Matrix.ScaleAssign | matrix.h:228-237 | `*=` with a scalar multiplies every element by val; returns a fresh copy of the updated matrix (by value, not a reference) |
| Matrices.Matrix.DivAssign | matrix.h:242-251 | `/=` divides every element by a non-zero val, truncating; returns a fresh copy of the updated matrix (by value, not a reference) |
| Matrices.Matrix.AddScalarAssign | matrix.h:256-265 | `+=` with a scalar adds val to every element; returns a fresh copy of the updated matrix (by value, not a reference) |
| Matrices.Matrix.SubScalarAssign | matrix.h:270-279 | `-=` with a scalar subtracts val from every element; returns a fresh copy of the updated matrix (by value, not a reference) |
| Matrices.Matrix.ChainedAddAssign | matrix.h:198-207 | `(a += b) += c`: because `+=` returns a copy, `a` ends as a + b and only the returned copy holds a + b + c |
| Matrices.Matrix.TransposeAsWritten | matrix.h:292-301 | as written, the result is declared m-by-n and (i, j) is written to slot j*n + i; for a square matrix that is the transpose |
| Matrices.Matrix.Transpose | matrix.h:292-301 | the transpose is the n-by-m matrix with mat(j, i) == this(i, j) |
| Matrices.TransposeAsWrittenNonSquare | matrix.h:293-297 | for a 3-by-2 matrix two elements land in one slot, and for a 1-by-2 matrix the write lands past the buffer |
| Matrices.ScaleAssignAsWrittenDivides | matrix.h:233 | `[4] *= 2` as written gives [2] where [8] is meant |
| Matrices.ScalarTimes | matrix.h:322-332 | val * mat multiplies every element of a copy of mat |
| Matrices.ScalarTimesAsWritten | matrix.h:322-332 | as written, both loops run to n, so only the first n rows are multiplied |
| Matrices.TimesScalar | matrix.h:334-338 | mat * val equals val * mat |
| Matrices.TimesScalarAsWritten | matrix.h:334-338 | as written, mat * val forwards to the as-written val * mat, so only the first n rows are multiplied |
| Matrices.DivideByScalar | matrix.h:340-350 | mat / val divides every element of a copy of mat, truncating |
| Matrices.DivideByScalarAsWritten | matrix.h:340-350 | as written, only the first n rows are divided |
| Matrices.FreeScalarAsWrittenSkipsRows | matrix.h:326-327 | on a 2-by-1 matrix [1, 1], 2 * mat as written gives [2, 1] instead of [2, 2] |
| Matrices.FreeScalarAsWrittenLeavesBuffer | matrix.h:344-345 | with fewer rows than columns the loops reach slot (n-1)*n + (n-1), past the m*n buffer |
| Matrices.FreeScalarAsWrittenSquare | matrix.h:326-327 | for square matrices the as-written loops do scale every element |
| MatrixSpec.TruncDivCancel | matrix.h:346 | truncating division undoes multiplication by the same non-zero integer |
| MatrixSpec.FilledAt | matrix.h:85-95 | every element of the constant matrix is the constant |
| MatrixSpec.IdentityAt | matrix.h:55-63 | element (i, j) of the identity is 1 when i == j and 0 otherwise |
| MatrixSpec.UpdatedAt | matrix.h:114-117 | after a write to (i, j), element (i, j) is the new value and every other element is unchanged |
| MatrixSpec.PointwiseAt | matrix.h:157-185 | element (i, j) of A+B (A-B) is A(i,j)+B(i,j) (A(i,j)-B(i,j)) |
| MatrixSpec.ScalarMapRowsAt | matrix.h:326-327 | scaling the first rows rows changes exactly the elements of those rows |
| MatrixSpec.ScalarMapAt | matrix.h:228-279 | element (i, j) of a scaled matrix is A(i, j) combined with the scalar |
| MatrixSpec.ProductAt | matrix.h:140-155 | element (i, j) of the product is the sum over k < n of A(i,k)*B(k,j) |
| MatrixSpec.StageStep | matrix.h:147-149 | one innermost step adds A(i,k)*B(k,j) to element (i, j) and takes the loop to the next row |
| MatrixSpec.StageColumnDone | matrix.h:146-151 | finishing all rows of column j in round k is the start of column j+1 |
| MatrixSpec.StageRoundDone | matrix.h:145-152 | finishing every column of round k leaves, in every cell, the sum of the first k+1 products |
| MatrixSpec.TransposeAt | matrix.h:297 | element (j, i) of the transpose is element (i, j) of the matrix |
| MatrixSpec.TransposeStageStep | matrix.h:297 | writing (i, j) to slot j*m + i advances the transpose loop by one element |
| MatrixSpec.TransposeInvolution | matrix.h:292-301 | transposing twice gives back the matrix |
| MatrixSpec.ProductRightIdentity | matrix.h:140-155 | A * Identity == A |
| MatrixSpec.ProductLeftIdentity | matrix.h:140-155 | Identity * A == A |
| MatrixSpec.SumThenDifference | matrix.h:157-185 | (A + B) - B == A over integers |
| MatrixSpec.SelfSumDoubles | matrix.h:198-207 | A + A equals 2 * A, the result of `rmat += rmat` |
| MatrixSpec.SelfDifferenceZero | matrix.h:213-222 | A - A is the zero matrix, the result of `rmat -= rmat` |
| MatrixSpec.ScaleThenDivide | matrix.h:340-350 | dividing a matrix scaled by a non-zero s by s restores it |
| MatrixSpec.ProductColumnUpdate | matrix.h:140-155 | changing B(r, c) by d changes column c of A*B by A(i, r)*d in row i, and leaves every other column as it was |
| Variables.Variable.constructor | variable.h:14 | a variable constructed from t holds t |
| Variables.Variable.Get | variable.h:17-33 | reading a variable yields its current value and changes nothing |
| Variables.Variable.Set | variable.h:28-30 | a write through the returned reference replaces the value, and every later read sees it |
| Variables.CreateVariable | variable.h:40-43 | CreateVariable(t) yields a fresh variable holding t |
| Variables.CopyThenWrite | variable.h:17-19 | a copy taken by conversion keeps the old value after the variable is written |
| Expressions.ResultKind | expression.h:70-85 | the kind of `expr1() op expr2()`: scalar with scalar is scalar; a scalar times a matrix keeps the matrix's shape; the product exists exactly when the inner dimensions agree and is outer-by-outer; sum and difference need equal shapes and keep them; only division by a scalar exists |
| Expressions.ResultKindAsWritten | expression.h:68-86 | a combinator call compiles as written only when the declared type of `expr1() * expr2()` exists and equals the operator's own result kind, which is then the intended kind |
| Expressions.AsWrittenDiffersExactlyOnNonSquareSums | expression.h:73-81 | the declared `*` return type rejects exactly sums and differences of equally shaped non-square matrices |
| Expressions.AsWrittenRejectsRectangularSum | expression.h:73-76 | 2-by-3 plus 2-by-3 is meant to be 2-by-3, but the declared return type is ill-formed |
| Expressions.Combine | expression.h:68-86 | a combinator's result exists exactly when the operator accepts the operands' kinds and there is no division by zero, and it has the predicted kind |
| Expressions.Eval | expression.h:39-41 | evaluating any expression over valid values yields a valid value or an error |
| Expressions.BoundMeansVarsBelow | expression.h:55-65 | every source of an expression refers to an existing variable exactly when all its variable ids are in range |
| Expressions.TimesExpr | expression.h:88-95 | `e1 * e2` mentions exactly the variables of both operands |
| Expressions.PlusExpr | expression.h:97-104 | `e1 + e2` mentions exactly the variables of both operands |
| Expressions.MinusExpr | expression.h:106-113 | `e1 - e2` mentions exactly the variables of both operands |
| Expressions.OverExpr | expression.h:115-122 | `e1 / e2` mentions exactly the variables of both operands |
| Expressions.BuildersApplyTheirCombinator | expression.h:88-122 | each built expression applies its own combinator to its operands' values; if the left operand fails its error is the result, else if the right one fails its error is the result. C++ leaves the two operand calls unsequenced, so which error wins when both fail is this model's choice (left first) |
| Expressions.TypeOf | expression.h:88-122 | the intended static kind of an expression, each node typed by what its own combinator yields; an expression over scalar variables only is always accepted and is a scalar |
| Expressions.TypeOfAsWritten | expression.h:68-122 | the declared `RT` of each builder, i.e. the type of `expr1() * expr2()` whatever the combinator; an expression over scalar variables only is still accepted and is a scalar |
| Expressions.TypeOfAsWrittenWithinIntended | expression.h:68-122 | whenever the declared types accept an expression, they equal the intended ones |
| Expressions.TypeOfAsWrittenSquare | expression.h:68-122 | over scalar and square-matrix variables the declared and intended types coincide, and every node is a scalar or a square matrix |
| Expressions.TypeOfAsWrittenRejectsRectangularSum | expression.h:73-76 | the sum of two 2-by-3 sources is intended to be 2-by-3 but has no declared type |
| Expressions.TypeSoundness | expression.h:68-122 | a successful evaluation yields a value of the expression's static kind; an ill-kinded expression never yields a value; a well-kinded one fails only by division by zero |
| Expressions.EvalAgrees | expression.h:39-44 | evaluation depends only on the current values of the variables the expression mentions; nothing is cached |
| Expressions.WriteUnmentioned | expression.h:55-65 | writing a variable that the expression does not mention leaves its value unchanged |
| Expressions.ProductSeesWrite | test.cc:85-88 | after writing element (r, c) of the right operand's variable, the next evaluation of e1 * e2 reflects the write in column c only |
| Expressions.DemoWriteThroughSource | test.cc:77-88 | with var2 = 2*I (3-by-3 in the demo, any size here), setting var2(0, 0) to 4 adds twice column 0 of var1 to column 0 of the next value of e3 = e1 * e2 |
| Expressions.Evaluate | expression.h:39-63 | evaluating over live variables reads each source's variable afresh, modifies nothing, and equals the value-level evaluation of the current contents |
| Expressions.EvaluateTwice | expression.h:39-44 | two evaluations with no write between them give equal results |
| Expressions.WrittenUnmentioned | expression.h:55-65 | a write to a variable that no source of the expression refers to does not change its value |
| Expressions.AssignThroughSource | expression.h:58-60 | assigning through the reference a source's `operator()` returns writes the variable's own cell: afterwards every source sharing that cell yields the new value and every other cell is unchanged |
| Expressions.EvaluateAroundWrite | expression.h:58-65 | after a variable is written, the next evaluation sees the new value through every source that refers to it, including several sources sharing one variable |

## Left out

- `Random` and `static_rng` (matrix.h:21-25, 68-83): random number generation and a process-wide generator. Random matrices appear in the scenarios only as arbitrary values.
- `operator<<` for `Matrix` and `Variable` (matrix.h:307-320, variable.h:45-50): output formatting.
- Element types: the element type is fixed to unbounded `int`. So there is no floating point, no `int8_t` overflow, and no `std::common_type_t` promotion between element types. The cross-type conversion constructor and the `Convertible`/`NotConvertible` overload selection (matrix.h:15-19, 45-53) are not modelled either.
- Matrices.Matrix.Copy: models only the same-type `static_cast` used by `+` and `-`. It does not model conversions between element types.
- `std::function`, `std::tuple` and the `apply` helpers (expression.h:13-24): a composite node is a `Composite(f, left, right)` datatype value.
- n-ary expressions (expression.h:28-45): only the binary composites that `operator* + - /` build are modelled.
- The `decltype` machinery is modelled only as the kinds an operator accepts (`ResultKind`, `ResultKindAsWritten`). The implicit decay of a 1-by-1 matrix to a scalar, which can make further overloads viable in C++, is not part of those kinds.
- Expression results are values (`MatrixValue`), not `Matrix` objects. The `Matrix` methods are proved against the same `MatrixSpec` functions that the evaluator uses.
- The `Source` alias (expression.h:124-125): it is the `Source(id)` constructor.
- The `Constant` alias (variable.h:53-55): a constant is a variable that is never written.
- Lifetimes of references. A source holds a `Variable<T>&` (expression.h:65). A composite's operand types `E1`, `E2` are `decltype` of the `const Expression&` parameters (expression.h:91-94), so its tuple (expression.h:44) stores const references to the operands, not copies. `(e1 * e2) * e1` therefore dangles once the temporary `e1 * e2` is destroyed. The model holds operands by value in `Expr` and refers to variables by position in a sequence of cells. Evaluation agrees with the source while every referenced operand and variable is alive; dangling references are a memory-safety issue outside this model.
- Matrices.TimesScalar: follows the corrected all-rows `val * mat`. The code forwards to the as-written loop (matrix.h:337), which TimesScalarAsWritten models.
- Expressions.TypeOf: follows the intended `ResultKind` of each combinator, not the declared `decltype(expr1() * expr2())` of expression.h:69, 74, 79 and 84. TypeOfAsWritten models the declared types; the two differ only on sums and differences of non-square matrices.
- Expressions.Combine: scalar `*` and `/` on a matrix use the corrected all-rows scaling (`ScalarMap`), not the as-written first-n-rows loops of matrix.h:326-327 and 344-345. Sums and differences of two equally shaped non-square matrices are computed as intended, although the declared return types of expression.h:74 and 79 make them ill-formed in C++ (TypeOfAsWritten gives them no type).
- Expressions.Evaluate: a source's `operator()` returns a reference into its variable (expression.h:58-63), not a copy; the model returns the variable's value. A write through that reference is `Variable.Set` on the same cell, which AssignThroughSource and EvaluateAroundWrite model; a reference kept from a source is modelled as the cell itself, whose later reads see later writes.
- Expressions.WriteUnmentioned: proves only that writing an unmentioned variable leaves the result unchanged. The converse ("writing a mentioned variable changes the result") is false in general, e.g. for `x - x`. ProductSeesWrite and EvaluateAroundWrite state how a write is reflected instead.
- Matrices.Matrix.MulAssign: the temporary product is copied element by element with a `forall` statement rather than a sequential loop. The result is the same.
- Matrices.ScalarTimesAsWritten and Matrices.DivideByScalarAsWritten: require n <= m. When n > m the C++ loops write past the buffer, which is undefined behaviour; FreeScalarAsWrittenLeavesBuffer states the slot that is reached.
- Matrices.Matrix.TransposeAsWritten: requires m == n. For other shapes the C++ code writes to the wrong slots or past the buffer; TransposeAsWrittenNonSquare exhibits both.

## Findings

| source | as written | input that shows it | evidently intended | confidence | as-written member | corrected member |
|---|---|---|---|---|---|---|
| matrix.h:233 | scalar `*=` divides each element by val | a 1-by-1 int matrix [4] `*= 2` gives [2] | multiply each element by val, giving [8] | high; not executed | Matrices.ScaleAssignAsWrittenDivides | Matrices.Matrix.ScaleAssign |
| matrix.h:326-327 | free `val * mat` loops rows up to n instead of m | 2-by-1 [1, 1] times 2 gives [2, 1]; a 1-by-2 matrix reaches slot 3 of a 2-element buffer | scale all m rows | high; not executed | Matrices.FreeScalarAsWrittenSkipsRows | Matrices.ScalarTimes |
| matrix.h:337 | `mat * val` returns `val * mat`, so it inherits the n-bounded loops of lines 326-327 | 2-by-1 [1, 1] times 2 gives [2, 1] | scale all m rows, giving [2, 2] | high; not executed | Matrices.TimesScalarAsWritten | Matrices.TimesScalar |
| matrix.h:344-345 | free `mat / val` loops rows up to n instead of m | a 1-by-2 matrix divided by 1: the loops reach slot 3 of a 2-element buffer | divide all m rows | high; not executed | Matrices.FreeScalarAsWrittenLeavesBuffer | Matrices.DivideByScalar |
| matrix.h:293-297 | `Transpose` returns an m-by-n matrix and writes (i, j) to slot j*n + i | a 3-by-2 matrix: (2, 0) and (0, 1) both go to slot 2 | return the n-by-m transpose, writing slot j*m + i | high; not executed | Matrices.TransposeAsWrittenNonSquare | Matrices.Matrix.Transpose |
| expression.h:74 | the adder declares its return type as the type of `expr1() * expr2()` | adding two 2-by-3 matrix sources: 2-by-3 times 2-by-3 has no product, so the sum is ill-formed | return type of `expr1() + expr2()` | medium; not executed | Expressions.TypeOfAsWrittenRejectsRectangularSum | Expressions.TypeOf |
| expression.h:79 | the subtracter declares its return type as the type of `expr1() * expr2()` | subtracting two 2-by-3 matrix sources | return type of `expr1() - expr2()` | medium; not executed | Expressions.AsWrittenDiffersExactlyOnNonSquareSums | Expressions.ResultKind |
