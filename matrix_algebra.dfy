/**
  * The linear algebra the Matrix class of Matrix.h is specified by: an M x N
  * matrix over a field is a sequence of M rows of N entries.  The field is
  * the real numbers here, standing for the exact arithmetic of Rational.
  */
module MatrixAlgebra {
  type Grid = seq<seq<real>>

  /** a has m rows of n entries each. */
  predicate Shape(a: Grid, m: nat, n: nat)
  {
    |a| == m && forall i :: 0 <= i < m ==> |a[i]| == n
  }

  function Zero(m: nat, n: nat): (z: Grid)
    ensures Shape(z, m, n)
  {
    seq(m, _ => seq(n, _ => 0.0))
  }

  function Identity(n: nat): (e: Grid)
    ensures Shape(e, n, n)
  {
    seq(n, i => seq(n, j => if i == j then 1.0 else 0.0))
  }

  // ---------------------------------------------------------------------
  // Entrywise operations
  // ---------------------------------------------------------------------

  function Add(a: Grid, b: Grid, m: nat, n: nat): (c: Grid)
    requires Shape(a, m, n) && Shape(b, m, n)
    ensures Shape(c, m, n)
  {
    seq(m, i requires 0 <= i < m => seq(n, j requires 0 <= j < n => a[i][j] + b[i][j]))
  }

  function Sub(a: Grid, b: Grid, m: nat, n: nat): (c: Grid)
    requires Shape(a, m, n) && Shape(b, m, n)
    ensures Shape(c, m, n)
  {
    seq(m, i requires 0 <= i < m => seq(n, j requires 0 <= j < n => a[i][j] - b[i][j]))
  }

  function Scale(a: Grid, v: real, m: nat, n: nat): (c: Grid)
    requires Shape(a, m, n)
    ensures Shape(c, m, n)
  {
    seq(m, i requires 0 <= i < m => seq(n, j requires 0 <= j < n => a[i][j] * v))
  }

  function Neg(a: Grid, m: nat, n: nat): (c: Grid)
    requires Shape(a, m, n)
    ensures Shape(c, m, n)
  {
    seq(m, i requires 0 <= i < m => seq(n, j requires 0 <= j < n => -a[i][j]))
  }

  /** Subtracting b undoes adding it. */
  lemma SubUndoesAdd(a: Grid, b: Grid, m: nat, n: nat)
    requires Shape(a, m, n) && Shape(b, m, n)
    ensures Sub(Add(a, b, m, n), b, m, n) == a
  {
    var c := Sub(Add(a, b, m, n), b, m, n);
    forall i | 0 <= i < m
      ensures c[i] == a[i]
    {
      assert forall j :: 0 <= j < n ==> c[i][j] == a[i][j];
    }
  }

  lemma AddCommutes(a: Grid, b: Grid, m: nat, n: nat)
    requires Shape(a, m, n) && Shape(b, m, n)
    ensures Add(a, b, m, n) == Add(b, a, m, n)
  {
    var c, d := Add(a, b, m, n), Add(b, a, m, n);
    forall i | 0 <= i < m
      ensures c[i] == d[i]
    {
      assert forall j :: 0 <= j < n ==> c[i][j] == d[i][j];
    }
  }

  /** Unary minus is scaling by -1. */
  lemma NegIsScaleByMinusOne(a: Grid, m: nat, n: nat)
    requires Shape(a, m, n)
    ensures Neg(a, m, n) == Scale(a, -1.0, m, n)
  {
    var c, d := Neg(a, m, n), Scale(a, -1.0, m, n);
    forall i | 0 <= i < m
      ensures c[i] == d[i]
    {
      assert forall j :: 0 <= j < n ==> c[i][j] == d[i][j];
    }
  }

  // ---------------------------------------------------------------------
  // Transpose, columns, trace
  // ---------------------------------------------------------------------

  function Transpose(a: Grid, m: nat, n: nat): (t: Grid)
    requires Shape(a, m, n)
    ensures Shape(t, n, m)
  {
    seq(n, j requires 0 <= j < n => seq(m, i requires 0 <= i < m => a[i][j]))
  }

  /** Column j of an m-row matrix. */
  function Column(a: Grid, m: nat, j: nat): (c: seq<real>)
    requires |a| == m && forall i :: 0 <= i < m ==> j < |a[i]|
    ensures |c| == m
  {
    seq(m, i requires 0 <= i < m => a[i][j])
  }

  /** Transposing twice gives the matrix back. */
  lemma TransposeTwice(a: Grid, m: nat, n: nat)
    requires Shape(a, m, n)
    ensures Transpose(Transpose(a, m, n), n, m) == a
  {
    var t := Transpose(Transpose(a, m, n), n, m);
    forall i | 0 <= i < m
      ensures t[i] == a[i]
    {
      assert forall j :: 0 <= j < n ==> t[i][j] == a[i][j];
    }
  }

  /** Column j of a is row j of its transpose. */
  lemma ColumnOfTranspose(a: Grid, m: nat, n: nat, j: nat)
    requires Shape(a, m, n) && j < n
    ensures Column(a, m, j) == Transpose(a, m, n)[j]
  {
  }

  /** The sum of the first k diagonal entries. */
  function Trace(a: Grid, n: nat, k: nat): real
    requires Shape(a, n, n) && k <= n
  {
    if k == 0 then 0.0 else Trace(a, n, k - 1) + a[k - 1][k - 1]
  }

  /** The trace of a sum is the sum of the traces. */
  lemma {:induction false} TraceOfSum(a: Grid, b: Grid, n: nat, k: nat)
    requires Shape(a, n, n) && Shape(b, n, n) && k <= n
    ensures Trace(Add(a, b, n, n), n, k) == Trace(a, n, k) + Trace(b, n, k)
    decreases k
  {
    if k > 0 {
      TraceOfSum(a, b, n, k - 1);
    }
  }

  /** Transposing keeps the trace. */
  lemma {:induction false} TraceOfTranspose(a: Grid, n: nat, k: nat)
    requires Shape(a, n, n) && k <= n
    ensures Trace(Transpose(a, n, n), n, k) == Trace(a, n, k)
    decreases k
  {
    if k > 0 {
      TraceOfTranspose(a, n, k - 1);
    }
  }

  /** The product of the first k diagonal entries. */
  function DiagProduct(a: Grid, n: nat, k: nat): real
    requires Shape(a, n, n) && k <= n
  {
    if k == 0 then 1.0 else DiagProduct(a, n, k - 1) * a[k - 1][k - 1]
  }

  // ---------------------------------------------------------------------
  // Products
  // ---------------------------------------------------------------------

  /** The sum of u[q] * v[q], accumulated from q = 0 upwards. */
  function Dot(u: seq<real>, v: seq<real>): real
    requires |u| == |v|
    decreases |u|
  {
    if |u| == 0 then 0.0 else Dot(u[..|u| - 1], v[..|v| - 1]) + u[|u| - 1] * v[|v| - 1]
  }

  function MatMul(a: Grid, b: Grid, m: nat, n: nat, k: nat): (c: Grid)
    requires Shape(a, m, n) && Shape(b, n, k)
    ensures Shape(c, m, k)
  {
    seq(m, i requires 0 <= i < m => seq(k, j requires 0 <= j < k => Dot(a[i], Column(b, n, j))))
  }

  /** The vector u + c * w. */
  function Combine(u: seq<real>, w: seq<real>, c: real): (r: seq<real>)
    requires |u| == |w|
    ensures |r| == |u|
  {
    seq(|u|, q requires 0 <= q < |u| => u[q] + c * w[q])
  }

  /** The vector u with every entry divided by d. */
  function Divided(u: seq<real>, d: real): (r: seq<real>)
    requires d != 0.0
    ensures |r| == |u|
  {
    seq(|u|, q requires 0 <= q < |u| => u[q] / d)
  }

  /** The dot product is linear in its first argument. */
  lemma {:induction false} DotCombine(u: seq<real>, w: seq<real>, c: real, v: seq<real>)
    requires |u| == |w| == |v|
    ensures Dot(Combine(u, w, c), v) == Dot(u, v) + c * Dot(w, v)
    decreases |u|
  {
    if |u| > 0 {
      var k := |u| - 1;
      assert Combine(u, w, c)[..k] == Combine(u[..k], w[..k], c) by {
        assert forall q :: 0 <= q < k ==> Combine(u, w, c)[..k][q] == Combine(u[..k], w[..k], c)[q];
      }
      DotCombine(u[..k], w[..k], c, v[..k]);
    }
  }

  lemma {:induction false} DotDivided(u: seq<real>, d: real, v: seq<real>)
    requires |u| == |v| && d != 0.0
    ensures Dot(Divided(u, d), v) == Dot(u, v) / d
    decreases |u|
  {
    if |u| > 0 {
      var k := |u| - 1;
      assert Divided(u, d)[..k] == Divided(u[..k], d) by {
        assert forall q :: 0 <= q < k ==> Divided(u, d)[..k][q] == Divided(u[..k], d)[q];
      }
      DotDivided(u[..k], d, v[..k]);
      DivideSum(Dot(u[..k], v[..k]), u[k], v[k], d);
    }
  }

  lemma DivideSum(x: real, y: real, z: real, d: real)
    requires d != 0.0
    ensures x / d + (y / d) * z == (x + y * z) / d
  {
    assert (y / d) * z == (y * z) / d;
  }

  /** Dotting with the unit vector e_r picks out entry r. */
  lemma {:induction false} DotUnit(v: seq<real>, r: nat, k: nat)
    requires r < |v| && k <= |v|
    ensures Dot(seq(|v|, q => if q == r then 1.0 else 0.0)[..k], v[..k]) == if r < k then v[r] else 0.0
    decreases k
  {
    if k > 0 {
      var e := seq(|v|, q => if q == r then 1.0 else 0.0);
      assert e[..k][..k - 1] == e[..k - 1] && v[..k][..k - 1] == v[..k - 1];
      DotUnit(v, r, k - 1);
    }
  }

  /** The identity is a left unit of the product. */
  lemma IdentityTimes(a: Grid, m: nat, n: nat)
    requires Shape(a, m, n)
    ensures MatMul(Identity(m), a, m, m, n) == a
  {
    var c := MatMul(Identity(m), a, m, m, n);
    forall i | 0 <= i < m
      ensures c[i] == a[i]
    {
      forall j | 0 <= j < n
        ensures c[i][j] == a[i][j]
      {
        var col := Column(a, m, j);
        var e := seq(m, q => if q == i then 1.0 else 0.0);
        assert Identity(m)[i] == e;
        assert e[..m] == e && col[..m] == col;
        DotUnit(col, i, m);
      }
    }
  }

  // ---------------------------------------------------------------------
  // Row operations
  // ---------------------------------------------------------------------

  /** Row t of a plus c times row s. */
  function AddRow(a: Grid, t: nat, s: nat, c: real, m: nat, n: nat): (r: Grid)
    requires Shape(a, m, n) && t < m && s < m
    ensures Shape(r, m, n)
  {
    a[t := Combine(a[t], a[s], c)]
  }

  /** Row t of a divided by d. */
  function DivideRow(a: Grid, t: nat, d: real, m: nat, n: nat): (r: Grid)
    requires Shape(a, m, n) && t < m && d != 0.0
    ensures Shape(r, m, n)
  {
    a[t := Divided(a[t], d)]
  }

  /** Adding a multiple of one row to another commutes with multiplying on the right. */
  lemma AddRowTimes(b: Grid, a: Grid, t: nat, s: nat, c: real, m: nat, n: nat, k: nat)
    requires Shape(b, m, n) && Shape(a, n, k) && t < m && s < m
    ensures MatMul(AddRow(b, t, s, c, m, n), a, m, n, k) == AddRow(MatMul(b, a, m, n, k), t, s, c, m, k)
  {
    var l, r := MatMul(AddRow(b, t, s, c, m, n), a, m, n, k), AddRow(MatMul(b, a, m, n, k), t, s, c, m, k);
    forall i | 0 <= i < m
      ensures l[i] == r[i]
    {
      if i == t {
        forall j | 0 <= j < k
          ensures l[i][j] == r[i][j]
        {
          DotCombine(b[t], b[s], c, Column(a, n, j));
        }
      }
    }
  }

  /** Dividing a row commutes with multiplying on the right. */
  lemma DivideRowTimes(b: Grid, a: Grid, t: nat, d: real, m: nat, n: nat, k: nat)
    requires Shape(b, m, n) && Shape(a, n, k) && t < m && d != 0.0
    ensures MatMul(DivideRow(b, t, d, m, n), a, m, n, k) == DivideRow(MatMul(b, a, m, n, k), t, d, m, k)
  {
    var l, r := MatMul(DivideRow(b, t, d, m, n), a, m, n, k), DivideRow(MatMul(b, a, m, n, k), t, d, m, k);
    forall i | 0 <= i < m
      ensures l[i] == r[i]
    {
      if i == t {
        forall j | 0 <= j < k
          ensures l[i][j] == r[i][j]
        {
          DotDivided(b[t], d, Column(a, n, j));
        }
      }
    }
  }

  /** An elementary row operation: add factor times row source to row target. */
  datatype RowOp = RowOp(target: nat, source: nat, factor: real)

  /** Every operation names two different rows below m. */
  predicate ValidOps(ops: seq<RowOp>, m: nat)
  {
    forall o :: o in ops ==> o.target < m && o.source < m && o.target != o.source
  }

  /** The matrix after applying ops in order. */
  function Apply(a: Grid, ops: seq<RowOp>, m: nat, n: nat): (r: Grid)
    requires Shape(a, m, n) && ValidOps(ops, m)
    ensures Shape(r, m, n)
    decreases |ops|
  {
    if |ops| == 0 then a
    else
      var o := ops[|ops| - 1];
      AddRow(Apply(a, ops[..|ops| - 1], m, n), o.target, o.source, o.factor, m, n)
  }

  lemma {:induction false} ApplyAppend(a: Grid, ops1: seq<RowOp>, ops2: seq<RowOp>, m: nat, n: nat)
    requires Shape(a, m, n) && ValidOps(ops1, m) && ValidOps(ops2, m)
    ensures ValidOps(ops1 + ops2, m)
    ensures Apply(a, ops1 + ops2, m, n) == Apply(Apply(a, ops1, m, n), ops2, m, n)
    decreases |ops2|
  {
    if |ops2| > 0 {
      var k := |ops2| - 1;
      assert (ops1 + ops2)[..|ops1 + ops2| - 1] == ops1 + ops2[..k];
      ApplyAppend(a, ops1, ops2[..k], m, n);
    } else {
      assert ops1 + ops2 == ops1;
    }
  }

  // ---------------------------------------------------------------------
  // Gauss-Jordan steps and their inverses
  // ---------------------------------------------------------------------

  /** A step of Gauss-Jordan elimination: a row addition, or a row divided by a non-zero number. */
  datatype JordanStep = AddStep(op: RowOp) | DivideStep(row: nat, divisor: real)

  predicate ValidStep(o: JordanStep, m: nat)
  {
    match o
    case AddStep(op) => op.target < m && op.source < m && op.target != op.source
    case DivideStep(t, d) => t < m && d != 0.0
  }

  predicate ValidSteps(steps: seq<JordanStep>, m: nat)
  {
    forall o :: o in steps ==> ValidStep(o, m)
  }

  function ApplyStep(a: Grid, o: JordanStep, m: nat, n: nat): (r: Grid)
    requires Shape(a, m, n) && ValidStep(o, m)
    ensures Shape(r, m, n)
  {
    match o
    case AddStep(op) => AddRow(a, op.target, op.source, op.factor, m, n)
    case DivideStep(t, d) => DivideRow(a, t, d, m, n)
  }

  /** The step that takes back o: subtract the multiple again, or divide by 1 / d. */
  function UndoStep(a: Grid, o: JordanStep, m: nat, n: nat): (r: Grid)
    requires Shape(a, m, n) && ValidStep(o, m)
    ensures Shape(r, m, n)
  {
    match o
    case AddStep(op) => AddRow(a, op.target, op.source, -op.factor, m, n)
    case DivideStep(t, d) => DivideRow(a, t, 1.0 / d, m, n)
  }

  /** The matrix after the steps, in order. */
  function ApplySteps(a: Grid, steps: seq<JordanStep>, m: nat, n: nat): (r: Grid)
    requires Shape(a, m, n) && ValidSteps(steps, m)
    ensures Shape(r, m, n)
    decreases |steps|
  {
    if |steps| == 0 then a
    else
      var k := |steps| - 1;
      assert steps[k] in steps;
      ApplyStep(ApplySteps(a, steps[..k], m, n), steps[k], m, n)
  }

  /** The matrix after undoing the steps, the last one first. */
  function UndoSteps(a: Grid, steps: seq<JordanStep>, m: nat, n: nat): (r: Grid)
    requires Shape(a, m, n) && ValidSteps(steps, m)
    ensures Shape(r, m, n)
    decreases |steps|
  {
    if |steps| == 0 then a
    else
      var k := |steps| - 1;
      assert steps[k] in steps;
      UndoSteps(UndoStep(a, steps[k], m, n), steps[..k], m, n)
  }

  lemma Uncombined(x: real, y: real, c: real)
    ensures x + c * y + -c * y == x
  {
  }

  lemma Undivided(x: real, d: real)
    requires d != 0.0
    ensures x / d / (1.0 / d) == x
  {
    assert x / d / (1.0 / d) == (x / d) * d;
  }

  /** Undoing a step gives the matrix back. */
  lemma StepUndone(a: Grid, o: JordanStep, m: nat, n: nat)
    requires Shape(a, m, n) && ValidStep(o, m)
    ensures UndoStep(ApplyStep(a, o, m, n), o, m, n) == a
  {
    var b := UndoStep(ApplyStep(a, o, m, n), o, m, n);
    match o
    case AddStep(op) =>
      forall q | 0 <= q < n
        ensures b[op.target][q] == a[op.target][q]
      {
        Uncombined(a[op.target][q], a[op.source][q], op.factor);
      }
      assert b[op.target] == a[op.target];
    case DivideStep(t, d) =>
      forall q | 0 <= q < n
        ensures b[t][q] == a[t][q]
      {
        Undivided(a[t][q], d);
      }
      assert b[t] == a[t];
  }

  /** Undoing the steps, last first, gives the matrix back. */
  lemma {:induction false} StepsUndone(a: Grid, steps: seq<JordanStep>, m: nat, n: nat)
    requires Shape(a, m, n) && ValidSteps(steps, m)
    ensures UndoSteps(ApplySteps(a, steps, m, n), steps, m, n) == a
    decreases |steps|
  {
    if |steps| > 0 {
      var k := |steps| - 1;
      assert steps[k] in steps;
      StepUndone(ApplySteps(a, steps[..k], m, n), steps[k], m, n);
      StepsUndone(a, steps[..k], m, n);
    }
  }

  /** Undoing a step commutes with multiplying on the right. */
  lemma UndoStepTimes(b: Grid, a: Grid, o: JordanStep, m: nat, n: nat, k: nat)
    requires Shape(b, m, n) && Shape(a, n, k) && ValidStep(o, m)
    ensures MatMul(UndoStep(b, o, m, n), a, m, n, k) == UndoStep(MatMul(b, a, m, n, k), o, m, k)
  {
    match o
    case AddStep(op) => AddRowTimes(b, a, op.target, op.source, -op.factor, m, n, k);
    case DivideStep(t, d) => DivideRowTimes(b, a, t, 1.0 / d, m, n, k);
  }

  lemma {:induction false} UndoStepsTimes(b: Grid, a: Grid, steps: seq<JordanStep>, m: nat, n: nat, k: nat)
    requires Shape(b, m, n) && Shape(a, n, k) && ValidSteps(steps, m)
    ensures MatMul(UndoSteps(b, steps, m, n), a, m, n, k) == UndoSteps(MatMul(b, a, m, n, k), steps, m, k)
    decreases |steps|
  {
    if |steps| > 0 {
      var j := |steps| - 1;
      assert steps[j] in steps;
      UndoStepTimes(b, a, steps[j], m, n, k);
      UndoStepsTimes(UndoStep(b, steps[j], m, n), a, steps[..j], m, n, k);
    }
  }

  lemma {:induction false} ApplyStepsAppend(a: Grid, steps1: seq<JordanStep>, steps2: seq<JordanStep>, m: nat, n: nat)
    requires Shape(a, m, n) && ValidSteps(steps1, m) && ValidSteps(steps2, m)
    ensures ValidSteps(steps1 + steps2, m)
    ensures ApplySteps(a, steps1 + steps2, m, n) == ApplySteps(ApplySteps(a, steps1, m, n), steps2, m, n)
    decreases |steps2|
  {
    if |steps2| > 0 {
      var k := |steps2| - 1;
      assert (steps1 + steps2)[..|steps1 + steps2| - 1] == steps1 + steps2[..k];
      ApplyStepsAppend(a, steps1, steps2[..k], m, n);
    } else {
      assert steps1 + steps2 == steps1;
    }
  }

  /**
    * A matrix reached from the identity by Gauss-Jordan steps that is a left
    * inverse of a is also its right inverse: undoing the steps turns the
    * identity into a, and undoing them on the product a * b gives the
    * identity back.
    */
  lemma LeftInverseIsRight(a: Grid, b: Grid, steps: seq<JordanStep>, n: nat)
    requires Shape(a, n, n) && ValidSteps(steps, n) && b == ApplySteps(Identity(n), steps, n, n)
    requires MatMul(b, a, n, n, n) == Identity(n)
    ensures MatMul(a, b, n, n, n) == Identity(n)
  {
    var e := Identity(n);
    calc {
      UndoSteps(e, steps, n, n);
      UndoSteps(MatMul(b, a, n, n, n), steps, n, n);
      { UndoStepsTimes(b, a, steps, n, n, n); }
      MatMul(UndoSteps(b, steps, n, n), a, n, n, n);
      { StepsUndone(e, steps, n, n); }
      MatMul(e, a, n, n, n);
      { IdentityTimes(a, n, n); }
      a;
    }
    calc {
      MatMul(a, b, n, n, n);
      MatMul(UndoSteps(e, steps, n, n), b, n, n, n);
      { UndoStepsTimes(e, b, steps, n, n, n); }
      UndoSteps(MatMul(e, b, n, n, n), steps, n, n);
      { IdentityTimes(b, n, n); }
      UndoSteps(b, steps, n, n);
      { StepsUndone(e, steps, n, n); }
      e;
    }
  }

  // ---------------------------------------------------------------------
  // Echelon form
  // ---------------------------------------------------------------------

  /** The column of the first non-zero entry of a row, or its length when it is all zero. */
  function Leading(row: seq<real>): (k: nat)
    ensures k <= |row| && (k < |row| ==> row[k] != 0.0)
    ensures forall c :: 0 <= c < k ==> row[c] == 0.0
  {
    if |row| == 0 then 0 else if row[0] != 0.0 then 0 else 1 + Leading(row[1..])
  }

  /**
    * Row echelon form: below each row, every row starts strictly further
    * right, or is all zero.
    */
  predicate Echelon(a: Grid, m: nat, n: nat)
    requires Shape(a, m, n)
  {
    forall r1, r2 :: 0 <= r1 < r2 < m ==> Leading(a[r1]) < Leading(a[r2]) || Leading(a[r2]) == n
  }

  /** In echelon form, the rows below an all-zero row are all zero. */
  lemma ZeroRowsAtBottom(a: Grid, m: nat, n: nat, r: nat)
    requires Shape(a, m, n) && Echelon(a, m, n) && r < m && Leading(a[r]) == n
    ensures forall r2 :: r <= r2 < m ==> Leading(a[r2]) == n
  {
    forall r2 | r < r2 < m
      ensures Leading(a[r2]) == n
    {
      assert Leading(a[r]) < Leading(a[r2]) || Leading(a[r2]) == n;
    }
  }

  /** A square matrix in echelon form is upper triangular: row r starts at column r or later. */
  lemma {:induction false} EchelonLeadingAtLeast(a: Grid, n: nat, r: nat)
    requires Shape(a, n, n) && Echelon(a, n, n) && r < n
    ensures Leading(a[r]) >= r
    decreases r
  {
    if r > 0 {
      EchelonLeadingAtLeast(a, n, r - 1);
      assert Leading(a[r - 1]) < Leading(a[r]) || Leading(a[r]) == n;
    }
  }

  lemma UpperTriangular(a: Grid, n: nat)
    requires Shape(a, n, n) && Echelon(a, n, n)
    ensures forall r, c :: 0 <= c < r < n ==> a[r][c] == 0.0
  {
    forall r, c | 0 <= c < r < n
      ensures a[r][c] == 0.0
    {
      EchelonLeadingAtLeast(a, n, r);
    }
  }
}
