/**
  * The determinant of a square matrix, defined by cofactor expansion along
  * the first column, and the two facts det() of Matrix.h rests on: adding a
  * multiple of one row to another keeps the determinant, and the
  * determinant of an upper triangular matrix is the product of its diagonal.
  */
module Determinants {
  import opened MatrixAlgebra

  /** a without row i and without column 0. */
  function Minor(a: Grid, n: nat, i: nat): (b: Grid)
    requires Shape(a, n, n) && i < n
    ensures Shape(b, n - 1, n - 1)
  {
    seq(n - 1, r requires 0 <= r < n - 1 => if r < i then a[r][1..] else a[r + 1][1..])
  }

  /** (-1)^i. */
  function Sign(i: nat): real
  {
    if i % 2 == 0 then 1.0 else -1.0
  }

  /** The determinant: 1 for the empty matrix, otherwise the expansion along column 0. */
  function Determinant(a: Grid, n: nat): real
    requires Shape(a, n, n)
    decreases n, 2
  {
    if n == 0 then 1.0 else Expansion(a, n, n)
  }

  /** The sum of the cofactor terms of rows 0 .. k-1. */
  function Expansion(a: Grid, n: nat, k: nat): real
    requires Shape(a, n, n) && k <= n
    decreases n, 1, k
  {
    if k == 0 then 0.0 else Expansion(a, n, k - 1) + Cofactor(a, n, k - 1)
  }

  /** The term of row i: (-1)^i times a[i][0] times the determinant of its minor. */
  function Cofactor(a: Grid, n: nat, i: nat): real
    requires Shape(a, n, n) && i < n
    decreases n, 0
  {
    Sign(i) * a[i][0] * Determinant(Minor(a, n, i), n - 1)
  }

  /** Rows i and j of a exchanged. */
  function SwapRows(a: Grid, i: nat, j: nat, n: nat): (b: Grid)
    requires Shape(a, n, n) && i < n && j < n
    ensures Shape(b, n, n) && b[i] == a[j] && b[j] == a[i]
    ensures forall r :: 0 <= r < n && r != i && r != j ==> b[r] == a[r]
  {
    a[i := a[j]][j := a[i]]
  }

  // ---------------------------------------------------------------------
  // Upper triangular matrices
  // ---------------------------------------------------------------------

  /** With column 0 zero below row 0, only the cofactor of row 0 is left. */
  lemma {:induction false} ExpansionOfColumnZero(a: Grid, n: nat, k: nat)
    requires Shape(a, n, n) && 0 < k <= n
    requires forall r :: 0 < r < n ==> a[r][0] == 0.0
    ensures Expansion(a, n, k) == a[0][0] * Determinant(Minor(a, n, 0), n - 1)
    decreases k
  {
    if k > 1 {
      ExpansionOfColumnZero(a, n, k - 1);
    }
  }

  /** The diagonal of a is a[0][0] followed by the diagonal of its minor of row 0. */
  lemma {:induction false} DiagProductOfMinor(a: Grid, n: nat, k: nat)
    requires Shape(a, n, n) && k < n
    ensures DiagProduct(a, n, k + 1) == a[0][0] * DiagProduct(Minor(a, n, 0), n - 1, k)
    decreases k
  {
    var b := Minor(a, n, 0);
    if k > 0 {
      DiagProductOfMinor(a, n, k - 1);
      assert b[k - 1][k - 1] == a[k][k];
      var p := DiagProduct(b, n - 1, k - 1);
      assert (a[0][0] * p) * a[k][k] == a[0][0] * (p * a[k][k]);
    }
  }

  /** The determinant of an upper triangular matrix is the product of its diagonal. */
  lemma {:induction false} TriangularDeterminant(a: Grid, n: nat)
    requires Shape(a, n, n)
    requires forall r, c :: 0 <= c < r < n ==> a[r][c] == 0.0
    ensures Determinant(a, n) == DiagProduct(a, n, n)
    decreases n
  {
    if n > 0 {
      var b := Minor(a, n, 0);
      MinorTriangular(a, n);
      TriangularDeterminant(b, n - 1);
      ExpansionOfColumnZero(a, n, n);
      DiagProductOfMinor(a, n, n - 1);
      SameProduct(Determinant(a, n), DiagProduct(a, n, n), a[0][0], Determinant(b, n - 1), DiagProduct(b, n - 1, n - 1));
    }
  }

  lemma SameProduct(x: real, y: real, p: real, u: real, v: real)
    requires x == p * u && y == p * v && u == v
    ensures x == y
  {
  }

  /** The minor of row 0 of an upper triangular matrix is upper triangular. */
  lemma MinorTriangular(a: Grid, n: nat)
    requires Shape(a, n, n) && n > 0
    requires forall r, c :: 0 <= c < r < n ==> a[r][c] == 0.0
    ensures forall r, c :: 0 <= c < r < n - 1 ==> Minor(a, n, 0)[r][c] == 0.0
  {
    var b := Minor(a, n, 0);
    forall r, c | 0 <= c < r < n - 1
      ensures b[r][c] == 0.0
    {
      assert b[r] == a[r + 1][1..];
      assert b[r][c] == a[r + 1][c + 1];
    }
  }

  /** The identity has determinant 1. */
  lemma IdentityDeterminant(n: nat)
    ensures Determinant(Identity(n), n) == 1.0
  {
    var e := Identity(n);
    TriangularDeterminant(e, n);
    OnesProduct(e, n, n);
  }

  lemma {:induction false} OnesProduct(e: Grid, n: nat, k: nat)
    requires Shape(e, n, n) && k <= n && forall r :: 0 <= r < n ==> e[r][r] == 1.0
    ensures DiagProduct(e, n, k) == 1.0
    decreases k
  {
    if k > 0 {
      OnesProduct(e, n, k - 1);
    }
  }

  // ---------------------------------------------------------------------
  // Linearity in one row
  // ---------------------------------------------------------------------

  /** d agrees with a and b off row t, and row t of d is row t of a plus c times row t of b. */
  ghost predicate RowCombination(a: Grid, b: Grid, d: Grid, n: nat, t: nat, c: real)
  {
    Shape(a, n, n) && Shape(b, n, n) && Shape(d, n, n) && t < n
    && (forall r :: 0 <= r < n && r != t ==> a[r] == d[r] && b[r] == d[r])
    && d[t] == Combine(a[t], b[t], c)
  }

  /** Row t of a minor: the row below which row t of the whole matrix lands. */
  function MinorRow(t: nat, i: nat): nat
    requires t != i
  {
    if t < i then t else t - 1
  }

  /** The minors of row t coincide; the other minors are again a row combination. */
  lemma MinorOfCombination(a: Grid, b: Grid, d: Grid, n: nat, t: nat, c: real, i: nat)
    requires RowCombination(a, b, d, n, t, c) && i < n
    ensures i == t ==> Minor(a, n, i) == Minor(d, n, i) && Minor(b, n, i) == Minor(d, n, i)
    ensures i != t ==> RowCombination(Minor(a, n, i), Minor(b, n, i), Minor(d, n, i), n - 1, MinorRow(t, i), c)
  {
    var ma, mb, md := Minor(a, n, i), Minor(b, n, i), Minor(d, n, i);
    if i == t {
      assert forall r :: 0 <= r < n - 1 ==> ma[r] == md[r] && mb[r] == md[r];
    } else {
      var t' := MinorRow(t, i);
      assert md[t'] == d[t][1..] && ma[t'] == a[t][1..] && mb[t'] == b[t][1..];
      assert forall q :: 0 <= q < n - 1 ==> md[t'][q] == Combine(ma[t'], mb[t'], c)[q];
    }
  }

  lemma ScaleSum(s: real, x: real, y: real, c: real, e: real)
    ensures s * (x + c * y) * e == s * x * e + c * (s * y * e)
  {
    assert s * (x + c * y) * e == s * x * e + s * (c * y) * e;
    assert s * (c * y) * e == c * (s * y * e);
  }

  /**
    * x is y plus c times z. The linearity lemmas state their results through
    * this predicate, so that equal values met as different terms are
    * matched before any product is taken.
    */
  predicate Combination(x: real, y: real, z: real, c: real)
  {
    x == y + c * z
  }

  lemma ZeroCombination(xd: real, xa: real, xb: real, c: real)
    requires xd == 0.0 && xa == 0.0 && xb == 0.0
    ensures Combination(xd, xa, xb, c)
  {
  }

  /** Sums of combinations with one factor c are a combination with c. */
  lemma SumOfCombinations(xd: real, xa: real, xb: real, ud: real, ua: real, ub: real, c: real, sd: real, sa: real, sb: real)
    requires xd == xa + c * xb && ud == ua + c * ub
    requires sd == xd + ud && sa == xa + ua && sb == xb + ub
    ensures Combination(sd, sa, sb, c)
  {
    assert c * sb == c * xb + c * ub;
  }

  lemma ProductSum(p: real, x: real, y: real, c: real)
    ensures p * (x + c * y) == p * x + c * (p * y)
  {
  }

  /** The determinant is linear in row t. */
  lemma {:induction false} DeterminantLinear(a: Grid, b: Grid, d: Grid, n: nat, t: nat, c: real)
    requires RowCombination(a, b, d, n, t, c)
    ensures Combination(Determinant(d, n), Determinant(a, n), Determinant(b, n), c)
    decreases n, 2
  {
    ExpansionLinear(a, b, d, n, t, c, n);
    assert Determinant(d, n) == Expansion(d, n, n);
    assert Determinant(a, n) == Expansion(a, n, n);
    assert Determinant(b, n) == Expansion(b, n, n);
  }

  lemma {:induction false} ExpansionLinear(a: Grid, b: Grid, d: Grid, n: nat, t: nat, c: real, k: nat)
    requires RowCombination(a, b, d, n, t, c) && k <= n
    ensures Combination(Expansion(d, n, k), Expansion(a, n, k), Expansion(b, n, k), c)
    decreases n, 1, k
  {
    if k > 0 {
      ExpansionLinear(a, b, d, n, t, c, k - 1);
      CofactorLinear(a, b, d, n, t, c, k - 1);
      SumOfCombinations(Expansion(d, n, k - 1), Expansion(a, n, k - 1), Expansion(b, n, k - 1),
                        Cofactor(d, n, k - 1), Cofactor(a, n, k - 1), Cofactor(b, n, k - 1), c,
                        Expansion(d, n, k), Expansion(a, n, k), Expansion(b, n, k));
    } else {
      ZeroCombination(Expansion(d, n, k), Expansion(a, n, k), Expansion(b, n, k), c);
    }
  }

  /** Each cofactor term is linear in row t. */
  lemma {:induction false} CofactorLinear(a: Grid, b: Grid, d: Grid, n: nat, t: nat, c: real, i: nat)
    requires RowCombination(a, b, d, n, t, c) && i < n
    ensures Combination(Cofactor(d, n, i), Cofactor(a, n, i), Cofactor(b, n, i), c)
    decreases n, 0
  {
    MinorOfCombination(a, b, d, n, t, c, i);
    var ma, mb, md := Minor(a, n, i), Minor(b, n, i), Minor(d, n, i);
    if i == t {
      assert d[i][0] == a[i][0] + c * b[i][0];
      ScaleSum(Sign(i), a[i][0], b[i][0], c, Determinant(md, n - 1));
    } else {
      DeterminantLinear(ma, mb, md, n - 1, MinorRow(t, i), c);
      assert a[i] == d[i] && b[i] == d[i];
      ProductSum(Sign(i) * d[i][0], Determinant(ma, n - 1), Determinant(mb, n - 1), c);
    }
  }

  // ---------------------------------------------------------------------
  // Exchanging neighbouring rows
  // ---------------------------------------------------------------------

  lemma SignStep(i: nat)
    ensures Sign(i + 1) == -Sign(i)
  {
  }

  /** Removing a row other than i and i + 1 keeps the two rows neighbours in the minor. */
  lemma MinorOfSwap(a: Grid, n: nat, i: nat, r: nat)
    requires Shape(a, n, n) && i + 1 < n && r < n && r != i && r != i + 1
    ensures MinorRow(i, r) + 1 < n - 1
    ensures Minor(SwapRows(a, i, i + 1, n), n, r) == SwapRows(Minor(a, n, r), MinorRow(i, r), MinorRow(i, r) + 1, n - 1)
  {
    var l := Minor(SwapRows(a, i, i + 1, n), n, r);
    var m := SwapRows(Minor(a, n, r), MinorRow(i, r), MinorRow(i, r) + 1, n - 1);
    assert forall q :: 0 <= q < n - 1 ==> l[q] == m[q];
  }

  /** Removing row i of the exchanged matrix removes row i + 1 of the original, and the other way round. */
  lemma MinorSwapped(a: Grid, n: nat, i: nat)
    requires Shape(a, n, n) && i + 1 < n
    ensures Minor(SwapRows(a, i, i + 1, n), n, i) == Minor(a, n, i + 1)
    ensures Minor(SwapRows(a, i, i + 1, n), n, i + 1) == Minor(a, n, i)
  {
    var b := SwapRows(a, i, i + 1, n);
    var l1, r1 := Minor(b, n, i), Minor(a, n, i + 1);
    assert forall q :: 0 <= q < n - 1 ==> l1[q] == r1[q];
    var l2, r2 := Minor(b, n, i + 1), Minor(a, n, i);
    assert forall q :: 0 <= q < n - 1 ==> l2[q] == r2[q];
  }

  /** Exchanging two neighbouring rows negates the determinant. */
  lemma {:induction false} SwapNegates(a: Grid, n: nat, i: nat)
    requires Shape(a, n, n) && i + 1 < n
    ensures Determinant(SwapRows(a, i, i + 1, n), n) == -Determinant(a, n)
    decreases n, 3
  {
    ExpansionSwapped(a, n, i, n);
  }

  /** The expansions agree up to sign once both or neither of rows i and i + 1 are summed. */
  lemma {:induction false} ExpansionSwapped(a: Grid, n: nat, i: nat, k: nat)
    requires Shape(a, n, n) && i + 1 < n && k <= n && (k <= i || k >= i + 2)
    ensures Expansion(SwapRows(a, i, i + 1, n), n, k) == -Expansion(a, n, k)
    decreases n, 2, k
  {
    if k == i + 2 {
      ExpansionSwapped(a, n, i, i);
      CofactorsExchanged(a, n, i);
    } else if k > 0 {
      ExpansionSwapped(a, n, i, k - 1);
      CofactorSwapped(a, n, i, k - 1);
    }
  }

  /** The cofactor of a row other than i and i + 1 changes sign. */
  lemma {:induction false} CofactorSwapped(a: Grid, n: nat, i: nat, r: nat)
    requires Shape(a, n, n) && i + 1 < n && r < n && r != i && r != i + 1
    ensures Cofactor(SwapRows(a, i, i + 1, n), n, r) == -Cofactor(a, n, r)
    decreases n, 1
  {
    var b := SwapRows(a, i, i + 1, n);
    MinorDeterminantSwapped(a, n, i, r);
    assert b[r][0] == a[r][0];
    Negated(Cofactor(b, n, r), Cofactor(a, n, r), Sign(r) * b[r][0], Sign(r) * a[r][0],
            Determinant(Minor(b, n, r), n - 1), Determinant(Minor(a, n, r), n - 1));
  }

  /** The minor of such a row has its own neighbouring rows exchanged. */
  lemma {:induction false} MinorDeterminantSwapped(a: Grid, n: nat, i: nat, r: nat)
    requires Shape(a, n, n) && i + 1 < n && r < n && r != i && r != i + 1
    ensures Determinant(Minor(SwapRows(a, i, i + 1, n), n, r), n - 1) == -Determinant(Minor(a, n, r), n - 1)
    decreases n, 0
  {
    MinorOfSwap(a, n, i, r);
    SwapNegates(Minor(a, n, r), n - 1, MinorRow(i, r));
  }

  lemma Negated(x: real, y: real, p: real, q: real, u: real, v: real)
    requires x == p * u && y == q * v && p == q && u == -v
    ensures x == -y
  {
  }

  /** The cofactors of rows i and i + 1 trade places and change sign. */
  lemma CofactorsExchanged(a: Grid, n: nat, i: nat)
    requires Shape(a, n, n) && i + 1 < n
    ensures Cofactor(SwapRows(a, i, i + 1, n), n, i) == -Cofactor(a, n, i + 1)
    ensures Cofactor(SwapRows(a, i, i + 1, n), n, i + 1) == -Cofactor(a, n, i)
  {
    var b := SwapRows(a, i, i + 1, n);
    MinorSwapped(a, n, i);
    SignStep(i);
    assert b[i] == a[i + 1] && b[i + 1] == a[i];
  }

  /** A matrix with two equal rows has determinant 0. */
  lemma {:induction false} EqualRowsVanish(a: Grid, n: nat, s: nat, t: nat)
    requires Shape(a, n, n) && s < t < n && a[s] == a[t]
    ensures Determinant(a, n) == 0.0
    decreases t - s
  {
    SwapNegates(a, n, t - 1);
    var b := SwapRows(a, t - 1, t, n);
    if t == s + 1 {
      assert b == a;
    } else {
      EqualRowsVanish(b, n, s, t - 1);
    }
  }

  // ---------------------------------------------------------------------
  // Row additions
  // ---------------------------------------------------------------------

  /** Adding c times row s to a different row t keeps the determinant. */
  lemma AddRowKeepsDeterminant(a: Grid, n: nat, t: nat, s: nat, c: real)
    requires Shape(a, n, n) && t < n && s < n && t != s
    ensures Determinant(AddRow(a, t, s, c, n, n), n) == Determinant(a, n)
  {
    var b := a[t := a[s]];
    var d := AddRow(a, t, s, c, n, n);
    assert RowCombination(a, b, d, n, t, c);
    DeterminantLinear(a, b, d, n, t, c);
    if s < t {
      EqualRowsVanish(b, n, s, t);
    } else {
      EqualRowsVanish(b, n, t, s);
    }
  }

  /** A run of row additions between different rows keeps the determinant. */
  lemma {:induction false} ApplyKeepsDeterminant(a: Grid, ops: seq<RowOp>, n: nat)
    requires Shape(a, n, n) && ValidOps(ops, n)
    ensures Determinant(Apply(a, ops, n, n), n) == Determinant(a, n)
    decreases |ops|
  {
    if |ops| > 0 {
      var k := |ops| - 1;
      var o := ops[k];
      assert o in ops;
      ApplyKeepsDeterminant(a, ops[..k], n);
      AddRowKeepsDeterminant(Apply(a, ops[..k], n, n), n, o.target, o.source, o.factor);
    }
  }
}
