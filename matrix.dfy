/**
  * Matrix<M, N, Field> of Matrix.h.  The std::array of rows is a value, so
  * the class holds it as a sequence of rows that its methods reassign; the
  * template parameters M and N are constant fields.  Field is modelled by
  * the real numbers (exact field arithmetic, as Rational provides).
  */
module MatrixModel {
  import opened MatrixAlgebra
  import opened Determinants

  /**
    * Columns 0 .. i-1 are done: rows s .. m-1 are zero there, and rows
    * 0 .. s-1 start, in strictly increasing columns, before column i.
    */
  ghost predicate EchelonUpTo(a: Grid, m: nat, n: nat, s: nat, i: nat)
    requires Shape(a, m, n) && s <= m && i <= n
  {
    (forall r, c :: s <= r < m && 0 <= c < i ==> a[r][c] == 0.0)
    && (forall r :: 0 <= r < s ==> Leading(a[r]) < i)
    && (forall r1, r2 :: 0 <= r1 < r2 < s ==> Leading(a[r1]) < Leading(a[r2]))
  }

  /** Once every row or every column is done, the matrix is in echelon form. */
  lemma EchelonDone(a: Grid, m: nat, n: nat, s: nat, i: nat)
    requires Shape(a, m, n) && s <= m && i <= n && EchelonUpTo(a, m, n, s, i)
    requires s == m || i == n
    ensures Echelon(a, m, n)
  {
    forall r1, r2 | 0 <= r1 < r2 < m
      ensures Leading(a[r1]) < Leading(a[r2]) || Leading(a[r2]) == n
    {
      if r2 >= s {
        assert forall c :: 0 <= c < n ==> a[r2][c] == 0.0;
        LeadingOfZero(a[r2]);
      }
    }
  }

  lemma LeadingOfZero(row: seq<real>)
    requires forall c :: 0 <= c < |row| ==> row[c] == 0.0
    ensures Leading(row) == |row|
  {
  }

  /** A row that is zero before column i and non-zero at i starts at i. */
  lemma LeadingAt(row: seq<real>, i: nat)
    requires i < |row| && row[i] != 0.0 && forall c :: 0 <= c < i ==> row[c] == 0.0
    ensures Leading(row) == i
  {
  }

  /** Rows that agree up to and including the leading entry of the first start at the same column. */
  lemma LeadingKept(row: seq<real>, row': seq<real>, i: nat)
    requires |row| == |row'| && Leading(row) < i <= |row|
    requires forall c :: 0 <= c < i ==> row'[c] == row[c]
    ensures Leading(row') == Leading(row)
  {
    LeadingAt(row', Leading(row));
  }

  /**
    * One column of elimination: entries before column i are kept, row s
    * gets a non-zero entry in column i and every row below it a zero there.
    */
  lemma EchelonStep(before: Grid, after: Grid, m: nat, n: nat, s: nat, i: nat)
    requires Shape(before, m, n) && Shape(after, m, n) && s < m && i < n
    requires EchelonUpTo(before, m, n, s, i)
    requires forall r, c :: 0 <= r < m && 0 <= c < i ==> after[r][c] == before[r][c]
    requires after[s][i] != 0.0 && forall r :: s < r < m ==> after[r][i] == 0.0
    ensures EchelonUpTo(after, m, n, s + 1, i + 1)
    ensures Leading(after[s]) == i
    ensures forall r :: 0 <= r < s ==> Leading(after[r]) == Leading(before[r])
  {
    LeadingAt(after[s], i);
    forall r | 0 <= r < s
      ensures Leading(after[r]) == Leading(before[r])
    {
      LeadingKept(before[r], after[r], i);
    }
  }

  /** Dividing row r of a grid whose first r rows are already divided by their diagonal entries. */
  lemma DividedStep(a: Grid, d: Grid, r: nat, n: nat)
    requires Shape(a, n, n) && Shape(d, n, n) && r < n && forall k :: 0 <= k <= r ==> a[k][k] != 0.0
    requires forall k :: 0 <= k < n ==> d[k] == if k < r then Divided(a[k], a[k][k]) else a[k]
    ensures var e := DivideRow(d, r, a[r][r], n, n);
            Shape(e, n, n)
            && forall k :: 0 <= k < n ==> e[k] == if k < r + 1 then Divided(a[k], a[k][k]) else a[k]
  {
  }

  /**
    * Adding c times row src to row t, where row src is zero before column i,
    * changes only row t, and leaves its entries before column i alone.
    */
  lemma AddRowKeeps(a: Grid, t: nat, src: nat, c: real, m: nat, n: nat, i: nat)
    requires Shape(a, m, n) && t < m && src < m && t != src && i < n
    requires forall q :: 0 <= q < i ==> a[src][q] == 0.0
    ensures var b := AddRow(a, t, src, c, m, n);
            (forall r :: 0 <= r < m && r != t ==> b[r] == a[r])
            && (forall q :: 0 <= q < i ==> b[t][q] == a[t][q])
            && b[t][i] == a[t][i] + c * a[src][i]
  {
  }

  /**
    * Subtracting row src, scaled by a[t][i] / a[src][i], from row t zeroes
    * a[t][i] and changes nothing else before column i.
    */
  lemma Eliminated(a: Grid, t: nat, src: nat, m: nat, n: nat, i: nat)
    requires Shape(a, m, n) && t < m && src < m && t != src && i < n && a[src][i] != 0.0
    requires forall q :: 0 <= q < i ==> a[src][q] == 0.0
    ensures var b := AddRow(a, t, src, -(a[t][i] / a[src][i]), m, n);
            (forall r :: 0 <= r < m && r != t ==> b[r] == a[r])
            && (forall q :: 0 <= q < i ==> b[t][q] == a[t][q])
            && b[t][i] == 0.0
  {
    AddRowKeeps(a, t, src, -(a[t][i] / a[src][i]), m, n, i);
    Cancel(a[t][i], a[src][i]);
  }

  /** A column with no pivot from row s on is done without a new pivot row. */
  lemma EchelonSkip(a: Grid, m: nat, n: nat, s: nat, i: nat)
    requires Shape(a, m, n) && s <= m && i < n && EchelonUpTo(a, m, n, s, i)
    requires forall r :: s <= r < m ==> a[r][i] == 0.0
    ensures EchelonUpTo(a, m, n, s, i + 1)
  {
  }

  /** x - (x / y) * y is zero: the eliminated entry vanishes. */
  lemma Cancel(x: real, y: real)
    requires y != 0.0
    ensures x + (-(x / y)) * y == 0.0
  {
    assert (x / y) * y == x;
  }

  /**
    * The invariant of invert's elimination: echelon up to row s and column
    * i, and each pivot column of rows 0 .. s-1 is zero in every other row.
    */
  ghost predicate ReducedUpTo(a: Grid, n: nat, s: nat, i: nat)
    requires Shape(a, n, n) && s <= n && i <= n
  {
    EchelonUpTo(a, n, n, s, i)
    && forall r1, r2 :: 0 <= r1 < s && 0 <= r2 < n && r2 != r1 ==> a[r2][Leading(a[r1])] == 0.0
  }

  /** One column of invert's elimination: as EchelonStep, with column i cleared above row s too. */
  lemma ReducedStep(before: Grid, after: Grid, n: nat, s: nat, i: nat)
    requires Shape(before, n, n) && Shape(after, n, n) && s < n && i < n
    requires ReducedUpTo(before, n, s, i)
    requires forall r, c :: 0 <= r < n && 0 <= c < i ==> after[r][c] == before[r][c]
    requires after[s][i] != 0.0 && forall r :: 0 <= r < n && r != s ==> after[r][i] == 0.0
    ensures ReducedUpTo(after, n, s + 1, i + 1)
  {
    EchelonStep(before, after, n, n, s, i);
  }

  /** With a pivot in every row of a square matrix, row r starts at column r. */
  lemma {:induction false} PivotAtLeast(a: Grid, n: nat, r: nat)
    requires Shape(a, n, n) && ReducedUpTo(a, n, n, n) && r < n
    ensures Leading(a[r]) >= r
    decreases r
  {
    if r > 0 {
      PivotAtLeast(a, n, r - 1);
    }
  }

  lemma {:induction false} PivotAtMost(a: Grid, n: nat, r: nat)
    requires Shape(a, n, n) && ReducedUpTo(a, n, n, n) && r < n
    ensures Leading(a[r]) <= r
    decreases n - r
  {
    if r < n - 1 {
      PivotAtMost(a, n, r + 1);
    }
  }

  /** A square matrix reduced with a pivot in every row is diagonal with a non-zero diagonal. */
  lemma Diagonal(a: Grid, n: nat)
    requires Shape(a, n, n) && ReducedUpTo(a, n, n, n)
    ensures forall r :: 0 <= r < n ==> a[r][r] != 0.0
    ensures forall r, c :: 0 <= r < n && 0 <= c < n && r != c ==> a[r][c] == 0.0
  {
    forall r | 0 <= r < n
      ensures Leading(a[r]) == r
    {
      PivotAtLeast(a, n, r);
      PivotAtMost(a, n, r);
    }
    forall r, c | 0 <= r < n && 0 <= c < n && r != c
      ensures a[r][c] == 0.0
    {
      assert a[r][Leading(a[c])] == 0.0;
    }
  }

  /** A non-zero pivot divided by itself is 1, and 0 divided by it is 0. */
  lemma Quotients(x: real)
    requires x != 0.0
    ensures x / x == 1.0 && 0.0 / x == 0.0
  {
  }

  /** Dividing each row of a diagonal matrix by its diagonal entry gives the identity. */
  lemma DividedDiagonal(a: Grid, d: Grid, n: nat)
    requires Shape(a, n, n) && Shape(d, n, n)
    requires forall r :: 0 <= r < n ==> a[r][r] != 0.0
    requires forall r, c :: 0 <= r < n && 0 <= c < n && r != c ==> a[r][c] == 0.0
    requires forall r :: 0 <= r < n ==> d[r] == Divided(a[r], a[r][r])
    ensures d == Identity(n)
  {
    forall r | 0 <= r < n
      ensures d[r] == Identity(n)[r]
    {
      forall c | 0 <= c < n
        ensures d[r][c] == Identity(n)[r][c]
      {
        assert d[r][c] == a[r][c] / a[r][r];
        Quotients(a[r][r]);
      }
    }
  }

  /** Matrix ans; ans[i][i] = Field(1): the identity, built entry by entry. */
  method IdentityGrid(n: nat) returns (g: Grid)
    ensures g == Identity(n)
  {
    g := Zero(n, n);
    var d := 0;
    while d < n
      invariant 0 <= d <= n && Shape(g, n, n)
      invariant forall r, c :: 0 <= r < n && 0 <= c < n ==> g[r][c] == if r == c && r < d then 1.0 else 0.0
    {
      g := g[d := g[d][d := 1.0]];
      d := d + 1;
    }
    assert forall r :: 0 <= r < n ==> g[r] == Identity(n)[r];
  }

  /** ans[i][q] /= d for every q: row t of g divided by d. */
  method DivideRowOf(g: Grid, t: nat, d: real, ghost n: nat) returns (r: Grid)
    requires Shape(g, n, n) && t < n && d != 0.0
    ensures r == DivideRow(g, t, d, n, n)
  {
    var row := g[t];
    var q := 0;
    while q < |row|
      invariant 0 <= q <= |row| && |row| == n
      invariant forall c :: 0 <= c < n ==> row[c] == if c < q then g[t][c] / d else g[t][c]
    {
      row := row[q := row[q] / d];
      q := q + 1;
    }
    assert row == Divided(g[t], d);
    r := g[t := row];
  }

  /** The matrix a list of rows initialises: entries the lists do not reach are 0. */
  function ListGrid(list: seq<seq<real>>, m: nat, n: nat): (g: Grid)
    ensures Shape(g, m, n)
  {
    seq(m, r requires 0 <= r < m => seq(n, c requires 0 <= c < n => if r < |list| && c < |list[r]| then list[r][c] else 0.0))
  }

  /** Lists of exactly m rows of n entries give exactly that matrix. */
  lemma ListGridOfShape(list: seq<seq<real>>, m: nat, n: nat)
    requires Shape(list, m, n)
    ensures ListGrid(list, m, n) == list
  {
    var g := ListGrid(list, m, n);
    forall r | 0 <= r < m
      ensures g[r] == list[r]
    {
      assert forall c :: 0 <= c < n ==> g[r][c] == list[r][c];
    }
  }

  class Matrix {
    const M: nat
    const N: nat
    var arr: Grid

    ghost predicate Valid()
      reads this
    {
      Shape(arr, M, N)
    }

    /**
      * Matrix(): every entry Field(0).  The rows start out as default
      * Rationals, which are already 0, and the loops store 0 again.
      */
    constructor (m: nat, n: nat)
      ensures M == m && N == n && Valid() && arr == Zero(m, n)
    {
      M, N := m, n;
      arr := Zero(m, n);
    }

    /** Matrix(const std::array<...>&): a copy of the given rows. */
    constructor FromArray(m: nat, n: nat, a: Grid)
      requires Shape(a, m, n)
      ensures M == m && N == n && Valid() && arr == a
    {
      M, N := m, n;
      arr := a;
    }

    /** The implicit copy constructor. */
    constructor Copy(other: Matrix)
      requires other.Valid()
      ensures M == other.M && N == other.N && Valid() && arr == other.arr
    {
      M, N := other.M, other.N;
      arr := other.arr;
    }

    /**
      * Matrix(initializer_list<initializer_list<T>>): rows beyond M and
      * entries beyond N are ignored; entries no list reaches stay 0.
      */
    constructor FromLists(m: nat, n: nat, list: seq<seq<real>>)
      ensures M == m && N == n && Valid() && arr == ListGrid(list, m, n)
    {
      M, N := m, n;
      arr := Zero(m, n);
      new;
      var i := 0;
      while i < |list|
        invariant 0 <= i <= |list| && i <= m && Valid()
        invariant forall r :: 0 <= r < m ==> arr[r] == if r < i then ListGrid(list, m, n)[r] else Zero(m, n)[r]
      {
        if i == M {
          break;
        }
        var row := arr[i];
        var j := 0;
        while j < |list[i]|
          invariant 0 <= j <= |list[i]| && j <= n && |row| == n
          invariant forall c :: 0 <= c < n ==> row[c] == if c < j then list[i][c] else 0.0
        {
          if j == N {
            break;
          }
          row := row[j := list[i][j]];
          j := j + 1;
        }
        assert forall c :: 0 <= c < n ==> row[c] == ListGrid(list, m, n)[i][c];
        arr := arr[i := row];
        i := i + 1;
      }
      assert forall r :: 0 <= r < m ==> arr[r] == ListGrid(list, m, n)[r];
    }

    /**
      * operator[] and getRow: row index, N entries; row index of the matrix
      * is column index of its transpose.
      */
    function Row(index: int): (r: seq<real>)
      reads this
      requires Valid() && 0 <= index < M
      ensures |r| == N && forall j :: 0 <= j < N ==> r[j] == Transpose(arr, M, N)[j][index]
    {
      arr[index]
    }

    /** Writing one entry through the reference operator[] returns. */
    method SetEntry(i: int, j: int, v: real)
      requires Valid() && 0 <= i < M && 0 <= j < N
      modifies this
      ensures Valid() && arr == old(arr)[i := old(arr)[i][j := v]]
    {
      arr := arr[i := arr[i][j := v]];
    }

    /** getColumn: the entries of column index, top to bottom. */
    method GetColumn(index: nat) returns (col: seq<real>)
      requires Valid() && index < N
      ensures col == Column(arr, M, index) && col == Transpose(arr, M, N)[index]
    {
      col := [];
      var i := 0;
      while i < M
        invariant 0 <= i <= M && col == Column(arr, M, index)[..i]
      {
        col := col + [arr[i][index]];
        i := i + 1;
      }
      assert Column(arr, M, index)[..M] == Column(arr, M, index);
      ColumnOfTranspose(arr, M, N, index);
    }

    /** Unary minus: a copy with every entry negated. */
    method Negate() returns (copy: Matrix)
      requires Valid()
      ensures fresh(copy) && copy.Valid() && copy.M == M && copy.N == N
      ensures copy.arr == Neg(arr, M, N) && copy.arr == Scale(arr, -1.0, M, N)
    {
      copy := new Matrix.Copy(this);
      var i := 0;
      while i < M
        invariant 0 <= i <= M && copy.Valid() && copy.M == M && copy.N == N
        invariant forall r :: 0 <= r < M ==> copy.arr[r] == if r < i then Neg(arr, M, N)[r] else arr[r]
      {
        var row := copy.arr[i];
        var j := 0;
        while j < N
          invariant 0 <= j <= N && |row| == N
          invariant forall c :: 0 <= c < N ==> row[c] == if c < j then -arr[i][c] else arr[i][c]
        {
          row := row[j := -row[j]];
          j := j + 1;
        }
        assert forall c :: 0 <= c < N ==> row[c] == Neg(arr, M, N)[i][c];
        copy.arr := copy.arr[i := row];
        i := i + 1;
      }
      assert forall r :: 0 <= r < M ==> copy.arr[r] == Neg(arr, M, N)[r];
      NegIsScaleByMinusOne(arr, M, N);
    }

    method AddAssign(other: Matrix)
      requires Valid() && other.Valid() && other.M == M && other.N == N
      modifies this
      ensures Valid() && arr == Add(old(arr), old(other.arr), M, N)
    {
      ghost var A, B := arr, other.arr;
      var i := 0;
      while i < M
        invariant 0 <= i <= M && Valid()
        invariant other == this || other.arr == B
        invariant other == this ==> A == B
        invariant forall r :: 0 <= r < M ==> arr[r] == if r < i then Add(A, B, M, N)[r] else A[r]
      {
        var row := arr[i];
        var j := 0;
        while j < N
          invariant 0 <= j <= N && |row| == N
          invariant forall c :: 0 <= c < N ==> row[c] == if c < j then A[i][c] + B[i][c] else A[i][c]
        {
          row := row[j := row[j] + other.arr[i][j]];
          j := j + 1;
        }
        assert forall c :: 0 <= c < N ==> row[c] == Add(A, B, M, N)[i][c];
        arr := arr[i := row];
        i := i + 1;
      }
      assert forall r :: 0 <= r < M ==> arr[r] == Add(A, B, M, N)[r];
    }

    method SubAssign(other: Matrix)
      requires Valid() && other.Valid() && other.M == M && other.N == N
      modifies this
      ensures Valid() && arr == Sub(old(arr), old(other.arr), M, N)
    {
      ghost var A, B := arr, other.arr;
      var i := 0;
      while i < M
        invariant 0 <= i <= M && Valid()
        invariant other == this || other.arr == B
        invariant other == this ==> A == B
        invariant forall r :: 0 <= r < M ==> arr[r] == if r < i then Sub(A, B, M, N)[r] else A[r]
      {
        var row := arr[i];
        var j := 0;
        while j < N
          invariant 0 <= j <= N && |row| == N
          invariant forall c :: 0 <= c < N ==> row[c] == if c < j then A[i][c] - B[i][c] else A[i][c]
        {
          row := row[j := row[j] - other.arr[i][j]];
          j := j + 1;
        }
        assert forall c :: 0 <= c < N ==> row[c] == Sub(A, B, M, N)[i][c];
        arr := arr[i := row];
        i := i + 1;
      }
      assert forall r :: 0 <= r < M ==> arr[r] == Sub(A, B, M, N)[r];
    }

    /** operator*=(Field): every entry times val. */
    method ScaleAssign(val: real)
      requires Valid()
      modifies this
      ensures Valid() && arr == Scale(old(arr), val, M, N)
    {
      ghost var A := arr;
      var i := 0;
      while i < M
        invariant 0 <= i <= M && Valid()
        invariant forall r :: 0 <= r < M ==> arr[r] == if r < i then Scale(A, val, M, N)[r] else A[r]
      {
        var row := arr[i];
        var j := 0;
        while j < N
          invariant 0 <= j <= N && |row| == N
          invariant forall c :: 0 <= c < N ==> row[c] == if c < j then A[i][c] * val else A[i][c]
        {
          row := row[j := row[j] * val];
          j := j + 1;
        }
        assert forall c :: 0 <= c < N ==> row[c] == Scale(A, val, M, N)[i][c];
        arr := arr[i := row];
        i := i + 1;
      }
      assert forall r :: 0 <= r < M ==> arr[r] == Scale(A, val, M, N)[r];
    }

    /** transposed: the N x M matrix with ans[j][i] == arr[i][j]. */
    method Transposed() returns (ans: Matrix)
      requires Valid()
      ensures fresh(ans) && ans.Valid() && ans.M == N && ans.N == M
      ensures ans.arr == Transpose(arr, M, N)
    {
      var t := Zero(N, M);
      var i := 0;
      while i < M
        invariant 0 <= i <= M && Shape(t, N, M)
        invariant forall r, c {:trigger t[r][c]} :: 0 <= r < N && 0 <= c < M ==> t[r][c] == if c < i then arr[c][r] else 0.0
      {
        var j := 0;
        while j < N
          invariant 0 <= j <= N && Shape(t, N, M)
          invariant forall r, c {:trigger t[r][c]} :: 0 <= r < N && 0 <= c < M && c != i ==> t[r][c] == if c < i then arr[c][r] else 0.0
          invariant forall r {:trigger t[r]} :: 0 <= r < N ==> t[r][i] == if r < j then arr[i][r] else 0.0
        {
          t := t[j := t[j][i := arr[i][j]]];
          j := j + 1;
        }
        i := i + 1;
      }
      var tr := Transpose(arr, M, N);
      forall r | 0 <= r < N
        ensures t[r] == tr[r]
      {
        assert forall c :: 0 <= c < M ==> t[r][c] == tr[r][c];
      }
      ans := new Matrix.FromArray(N, M, t);
    }

    /** trace: the sum of the diagonal. */
    method Trace() returns (ans: real)
      requires Valid() && M == N
      ensures ans == MatrixAlgebra.Trace(arr, N, N)
    {
      ans := 0.0;
      var i := 0;
      while i < N
        invariant 0 <= i <= N && ans == MatrixAlgebra.Trace(arr, N, i)
      {
        ans := ans + arr[i][i];
        i := i + 1;
      }
    }

    /**
      * The pivot search of Gauss_method and invert: the first row from s on
      * with a non-zero entry in column i, or M when there is none.
      */
    method FindPivot(s: nat, i: nat) returns (p: nat)
      requires Valid() && s <= M && i < N
      ensures s <= p <= M && (p < M ==> arr[p][i] != 0.0)
      ensures forall j :: s <= j < p ==> arr[j][i] == 0.0
    {
      p := M;
      var j := s;
      while j < M
        invariant s <= j <= M && p == M
        invariant forall k :: s <= k < j ==> arr[k][i] == 0.0
      {
        if arr[j][i] != 0.0 {
          p := j;
          break;
        }
        j := j + 1;
      }
    }

    /** Gauss_method's pivot step: row t += row src, in columns from .. N-1. */
    method AddRowTail(t: nat, src: nat, from: nat)
      requires Valid() && t < M && src < M && t != src && from <= N
      requires forall q :: 0 <= q < from ==> arr[src][q] == 0.0
      modifies this
      ensures Valid() && arr == AddRow(old(arr), t, src, 1.0, M, N)
    {
      var row := arr[t];
      var q := from;
      while q < N
        invariant from <= q <= N && |row| == N
        invariant forall c :: 0 <= c < N ==> row[c] == if from <= c < q then arr[t][c] + arr[src][c] else arr[t][c]
      {
        row := row[q := row[q] + arr[src][q]];
        q := q + 1;
      }
      assert forall c :: 0 <= c < N ==> row[c] == Combine(arr[t], arr[src], 1.0)[c];
      assert row == Combine(arr[t], arr[src], 1.0);
      arr := arr[t := row];
    }

    /** Gauss_method's elimination step: row t -= row src * coeff, in columns from .. N-1. */
    method SubtractRowTail(t: nat, src: nat, coeff: real, from: nat)
      requires Valid() && t < M && src < M && t != src && from <= N
      requires forall q :: 0 <= q < from ==> arr[src][q] == 0.0
      modifies this
      ensures Valid() && arr == AddRow(old(arr), t, src, -coeff, M, N)
    {
      var row := arr[t];
      var q := from;
      while q < N
        invariant from <= q <= N && |row| == N
        invariant forall c :: 0 <= c < N ==> row[c] == if from <= c < q then arr[t][c] - arr[src][c] * coeff else arr[t][c]
      {
        row := row[q := row[q] - arr[src][q] * coeff];
        q := q + 1;
      }
      assert forall c :: 0 <= c < N ==> row[c] == Combine(arr[t], arr[src], -coeff)[c];
      assert row == Combine(arr[t], arr[src], -coeff);
      arr := arr[t := row];
    }

    /** Clears column i below the pivot row s, one row operation per non-zero entry. */
    method EliminateBelow(s: nat, i: nat) returns (ghost more: seq<RowOp>)
      requires Valid() && s < M && i < N && arr[s][i] != 0.0
      requires forall r, c :: s <= r < M && 0 <= c < i ==> arr[r][c] == 0.0
      modifies this
      ensures Valid() && ValidOps(more, M) && arr == Apply(old(arr), more, M, N)
      ensures forall r :: 0 <= r <= s ==> arr[r] == old(arr)[r]
      ensures forall r, c :: 0 <= r < M && 0 <= c < i ==> arr[r][c] == old(arr)[r][c]
      ensures forall r :: s < r < M ==> arr[r][i] == 0.0
    {
      more := [];
      var j := s + 1;
      while j < M
        invariant s + 1 <= j <= M
        invariant Valid() && ValidOps(more, M) && arr == Apply(old(arr), more, M, N)
        invariant forall r :: 0 <= r <= s ==> arr[r] == old(arr)[r]
        invariant forall r, c :: 0 <= r < M && 0 <= c < i ==> arr[r][c] == old(arr)[r][c]
        invariant forall r :: s < r < j ==> arr[r][i] == 0.0
      {
        if arr[j][i] != 0.0 {
          var coeff := arr[j][i] / arr[s][i];
          ghost var prev := more;
          Eliminated(arr, j, s, M, N, i);
          SubtractRowTail(j, s, coeff, i);
          more := more + [RowOp(j, s, -coeff)];
          assert more[..|more| - 1] == prev;
        }
        j := j + 1;
      }
    }

    /**
      * One column of Gauss_method: if the pivot p lies below row s, row p is
      * added to row s; then column i is cleared below row s.
      */
    method ClearColumn(s: nat, p: nat, i: nat) returns (ghost more: seq<RowOp>)
      requires Valid() && s <= p < M && i < N && arr[p][i] != 0.0 && (p != s ==> arr[s][i] == 0.0)
      requires forall r, c :: s <= r < M && 0 <= c < i ==> arr[r][c] == 0.0
      modifies this
      ensures Valid() && ValidOps(more, M) && arr == Apply(old(arr), more, M, N)
      ensures forall r, c :: 0 <= r < M && 0 <= c < i ==> arr[r][c] == old(arr)[r][c]
      ensures arr[s][i] != 0.0 && forall r :: s < r < M ==> arr[r][i] == 0.0
    {
      more := [];
      if p != s {
        AddRowKeeps(arr, s, p, 1.0, M, N, i);
        AddRowTail(s, p, i);
        more := [RowOp(s, p, 1.0)];
      }
      ghost var rest := EliminateBelow(s, i);
      ApplyAppend(old(arr), more, rest, M, N);
      more := more + rest;
    }

    /**
      * Gauss_method: brings the matrix to row echelon form using only
      * additions of a multiple of one row to another row.
      */
    method Gauss() returns (ghost ops: seq<RowOp>)
      requires Valid()
      modifies this
      ensures Valid() && ValidOps(ops, M) && arr == Apply(old(arr), ops, M, N)
      ensures Echelon(arr, M, N)
    {
      ops := [];
      var s := 0;
      var i := 0;
      while i < N
        invariant 0 <= i <= N && 0 <= s <= M && s <= i
        invariant Valid() && ValidOps(ops, M) && arr == Apply(old(arr), ops, M, N)
        invariant EchelonUpTo(arr, M, N, s, i)
      {
        if s == M {
          break;
        }
        var p := FindPivot(s, i);
        if p == M {
          EchelonSkip(arr, M, N, s, i);
        } else {
          ghost var before := arr;
          ghost var more := ClearColumn(s, p, i);
          ApplyAppend(old(arr), ops, more, M, N);
          ops := ops + more;
          EchelonStep(before, arr, M, N, s, i);
          s := s + 1;
        }
        i := i + 1;
      }
      EchelonDone(arr, M, N, s, i);
    }

    /** rank: the index of the first all-zero row after elimination, or M. */
    method Rank() returns (r: nat, ghost E: Grid, ghost ops: seq<RowOp>)
      requires Valid()
      ensures ValidOps(ops, M) && Shape(E, M, N) && E == Apply(arr, ops, M, N) && Echelon(E, M, N)
      ensures r <= M
      ensures forall k :: 0 <= k < r ==> Leading(E[k]) < N
      ensures forall k :: r <= k < M ==> Leading(E[k]) == N
    {
      var triangle := new Matrix.Copy(this);
      ops := triangle.Gauss();
      E := triangle.arr;
      var i := 0;
      while i < M
        invariant 0 <= i <= M && triangle.arr == E
        invariant forall k :: 0 <= k < i ==> Leading(E[k]) < N
      {
        var zero := true;
        var j := 0;
        while j < N
          invariant 0 <= j <= N
          invariant zero && forall c :: 0 <= c < j ==> E[i][c] == 0.0
        {
          if triangle.arr[i][j] != 0.0 {
            zero := false;
            break;
          }
          j := j + 1;
        }
        if zero {
          LeadingOfZero(E[i]);
          ZeroRowsAtBottom(E, M, N, i);
          return i, E, ops;
        }
        i := i + 1;
      }
      return M, E, ops;
    }

    /**
      * det: the product of the diagonal of the eliminated copy, which is
      * upper triangular and reached from the matrix by row additions.
      */
    method Det() returns (d: real, ghost E: Grid, ghost ops: seq<RowOp>)
      requires Valid() && M == N
      ensures ValidOps(ops, N) && Shape(E, N, N) && E == Apply(arr, ops, N, N) && Echelon(E, N, N)
      ensures forall r, c :: 0 <= c < r < N ==> E[r][c] == 0.0
      ensures d == DiagProduct(E, N, N)
      ensures d == Determinant(arr, N)
    {
      var triangle := new Matrix.Copy(this);
      ops := triangle.Gauss();
      E := triangle.arr;
      UpperTriangular(E, N);
      d := 1.0;
      var i := 0;
      while i < N
        invariant 0 <= i <= N && d == DiagProduct(E, N, i)
      {
        d := d * triangle.arr[i][i];
        i := i + 1;
      }
      TriangularDeterminant(E, N);
      ApplyKeepsDeterminant(arr, ops, N);
    }

    /**
      * invert's row addition: row t += row src, in the matrix and in ans
      * alike, so the matrix stays ans times A.
      */
    method AddRowBoth(t: nat, src: nat, ans: Grid, ghost A: Grid) returns (ans': Grid)
      requires Valid() && M == N && t < N && src < N && t != src
      requires Shape(ans, N, N) && Shape(A, N, N) && arr == MatMul(ans, A, N, N, N)
      modifies this
      ensures Valid() && arr == AddRow(old(arr), t, src, 1.0, N, N)
      ensures ans' == AddRow(ans, t, src, 1.0, N, N) && arr == MatMul(ans', A, N, N, N)
    {
      AddRowTimes(ans, A, t, src, 1.0, N, N, N);
      var row, arow := arr[t], ans[t];
      var q := 0;
      while q < N
        invariant 0 <= q <= N && |row| == N && |arow| == N
        invariant forall c :: 0 <= c < N ==> row[c] == if c < q then arr[t][c] + arr[src][c] else arr[t][c]
        invariant forall c :: 0 <= c < N ==> arow[c] == if c < q then ans[t][c] + ans[src][c] else ans[t][c]
      {
        row := row[q := row[q] + arr[src][q]];
        arow := arow[q := arow[q] + ans[src][q]];
        q := q + 1;
      }
      assert row == Combine(arr[t], arr[src], 1.0);
      assert arow == Combine(ans[t], ans[src], 1.0);
      arr := arr[t := row];
      ans' := ans[t := arow];
    }

    /**
      * invert's elimination: row t -= row src * k, in the matrix and in ans
      * alike, so the matrix stays ans times A.
      */
    method SubtractRowBoth(t: nat, src: nat, k: real, ans: Grid, ghost A: Grid) returns (ans': Grid)
      requires Valid() && M == N && t < N && src < N && t != src
      requires Shape(ans, N, N) && Shape(A, N, N) && arr == MatMul(ans, A, N, N, N)
      modifies this
      ensures Valid() && arr == AddRow(old(arr), t, src, -k, N, N)
      ensures ans' == AddRow(ans, t, src, -k, N, N) && arr == MatMul(ans', A, N, N, N)
    {
      AddRowTimes(ans, A, t, src, -k, N, N, N);
      var row, arow := arr[t], ans[t];
      var q := 0;
      while q < N
        invariant 0 <= q <= N && |row| == N && |arow| == N
        invariant forall c :: 0 <= c < N ==> row[c] == if c < q then arr[t][c] - arr[src][c] * k else arr[t][c]
        invariant forall c :: 0 <= c < N ==> arow[c] == if c < q then ans[t][c] - ans[src][c] * k else ans[t][c]
      {
        row := row[q := row[q] - arr[src][q] * k];
        arow := arow[q := arow[q] - ans[src][q] * k];
        q := q + 1;
      }
      assert forall c :: 0 <= c < N ==> row[c] == Combine(arr[t], arr[src], -k)[c];
      assert forall c :: 0 <= c < N ==> arow[c] == Combine(ans[t], ans[src], -k)[c];
      assert row == Combine(arr[t], arr[src], -k);
      assert arow == Combine(ans[t], ans[src], -k);
      arr := arr[t := row];
      ans' := ans[t := arow];
    }

    /**
      * invert's elimination of column i in every row but the pivot row s,
      * keeping the matrix equal to ans times the original A.
      */
    method EliminateOthers(s: nat, i: nat, ans: Grid, ghost A: Grid) returns (ans': Grid, ghost steps: seq<JordanStep>)
      requires Valid() && M == N && s < N && i < N && arr[s][i] != 0.0
      requires forall c :: 0 <= c < i ==> arr[s][c] == 0.0
      requires Shape(ans, N, N) && Shape(A, N, N) && arr == MatMul(ans, A, N, N, N)
      modifies this
      ensures Valid() && Shape(ans', N, N) && arr == MatMul(ans', A, N, N, N)
      ensures ValidSteps(steps, N) && ans' == ApplySteps(ans, steps, N, N)
      ensures arr[s] == old(arr)[s]
      ensures forall r, c :: 0 <= r < N && 0 <= c < i ==> arr[r][c] == old(arr)[r][c]
      ensures forall r :: 0 <= r < N && r != s ==> arr[r][i] == 0.0
    {
      ans' := ans;
      steps := [];
      var j := 0;
      while j < M
        invariant 0 <= j <= M && Valid() && Shape(ans', N, N) && arr == MatMul(ans', A, N, N, N)
        invariant ValidSteps(steps, N) && ans' == ApplySteps(ans, steps, N, N)
        invariant arr[s] == old(arr)[s]
        invariant forall r, c :: 0 <= r < N && 0 <= c < i ==> arr[r][c] == old(arr)[r][c]
        invariant forall r :: 0 <= r < j && r != s ==> arr[r][i] == 0.0
      {
        ghost var more;
        ans', more := EliminateRow(j, s, i, ans', A);
        ApplyStepsAppend(ans, steps, more, N, N);
        steps := steps + more;
        j := j + 1;
      }
    }

    /** One pass of invert's inner loop: row j (other than s) loses its entry in column i. */
    method EliminateRow(j: nat, s: nat, i: nat, ans: Grid, ghost A: Grid) returns (ans': Grid, ghost steps: seq<JordanStep>)
      requires Valid() && M == N && j < N && s < N && i < N && arr[s][i] != 0.0
      requires forall c :: 0 <= c < i ==> arr[s][c] == 0.0
      requires Shape(ans, N, N) && Shape(A, N, N) && arr == MatMul(ans, A, N, N, N)
      modifies this
      ensures Valid() && Shape(ans', N, N) && arr == MatMul(ans', A, N, N, N)
      ensures forall r :: 0 <= r < N && r != j ==> arr[r] == old(arr)[r]
      ensures forall c :: 0 <= c < i ==> arr[j][c] == old(arr)[j][c]
      ensures j != s ==> arr[j][i] == 0.0
      ensures arr[s] == old(arr)[s]
      ensures ValidSteps(steps, N) && ans' == ApplySteps(ans, steps, N, N)
    {
      ans' := ans;
      steps := [];
      if j != s && arr[j][i] != 0.0 {
        var k := arr[j][i] / arr[s][i];
        Eliminated(arr, j, s, N, N, i);
        ans' := SubtractRowBoth(j, s, k, ans', A);
        steps := [AddStep(RowOp(j, s, -k))];
        assert steps[..0] == [];
      }
    }

    /**
      * One column of invert's elimination: if the pivot p lies below row s,
      * row p is added to row s; then column i is cleared in every other row.
      * Row s becomes the next pivot row of the reduced form.
      */
    method ReduceColumn(s: nat, p: nat, i: nat, ans: Grid, ghost A: Grid) returns (ans': Grid, ghost steps: seq<JordanStep>)
      requires Valid() && M == N && s <= p < N && i < N && arr[p][i] != 0.0
      requires forall j :: s <= j < p ==> arr[j][i] == 0.0
      requires ReducedUpTo(arr, N, s, i)
      requires Shape(ans, N, N) && Shape(A, N, N) && arr == MatMul(ans, A, N, N, N)
      modifies this
      ensures Valid() && Shape(ans', N, N) && arr == MatMul(ans', A, N, N, N)
      ensures ValidSteps(steps, N) && ans' == ApplySteps(ans, steps, N, N)
      ensures ReducedUpTo(arr, N, s + 1, i + 1)
    {
      ans' := ans;
      steps := [];
      if p != s {
        ans' := AddRowBoth(s, p, ans', A);
        steps := [AddStep(RowOp(s, p, 1.0))];
        assert steps[..0] == [];
      }
      ghost var more;
      ans', more := EliminateOthers(s, i, ans', A);
      ApplyStepsAppend(ans, steps, more, N, N);
      steps := steps + more;
      ReducedStep(old(arr), arr, N, s, i);
    }

    /**
      * invert's elimination loop: Gauss-Jordan elimination of every column,
      * applied to the matrix and to ans alike.  It ends with s pivot rows.
      */
    method ReduceWith(ans: Grid, ghost A: Grid) returns (ans': Grid, s: nat, ghost steps: seq<JordanStep>)
      requires Valid() && M == N && Shape(ans, N, N) && Shape(A, N, N) && arr == MatMul(ans, A, N, N, N)
      modifies this
      ensures Valid() && Shape(ans', N, N) && arr == MatMul(ans', A, N, N, N)
      ensures ValidSteps(steps, N) && ans' == ApplySteps(ans, steps, N, N)
      ensures s <= N && ReducedUpTo(arr, N, s, N)
    {
      ans' := ans;
      steps := [];
      s := 0;
      var i := 0;
      while i < N
        invariant 0 <= s <= i <= N && Valid() && Shape(ans', N, N)
        invariant arr == MatMul(ans', A, N, N, N)
        invariant ValidSteps(steps, N) && ans' == ApplySteps(ans, steps, N, N)
        invariant ReducedUpTo(arr, N, s, i)
      {
        if s == M {
          break;
        }
        var p := FindPivot(s, i);
        if p == M {
          EchelonSkip(arr, N, N, s, i);
        } else {
          ghost var more;
          ans', more := ReduceColumn(s, p, i, ans', A);
          ApplyStepsAppend(ans, steps, more, N, N);
          steps := steps + more;
          s := s + 1;
        }
        i := i + 1;
      }
    }

    /**
      * invert's last loop: every row of ans divided by the diagonal entry of
      * the reduced matrix.  A zero diagonal entry is where the source
      * divides a Rational by zero; the model answers false there.
      */
    method DivideByDiagonal(ans: Grid, ghost A: Grid, ghost s: nat) returns (ok: bool, ans': Grid, ghost steps: seq<JordanStep>)
      requires Valid() && M == N && Shape(ans, N, N) && Shape(A, N, N) && arr == MatMul(ans, A, N, N, N)
      requires s <= N && ReducedUpTo(arr, N, s, N)
      ensures Shape(ans', N, N) && ValidSteps(steps, N) && ans' == ApplySteps(ans, steps, N, N)
      ensures ok ==> MatMul(ans', A, N, N, N) == Identity(N)
    {
      ghost var pivots := s == N;
      if pivots {
        Diagonal(arr, N);
      }
      assert N > 0 && !pivots ==> arr[N - 1][N - 1] == 0.0;
      ans' := ans;
      steps := [];
      ghost var D := arr;
      var r := 0;
      while r < N
        invariant 0 <= r <= N && Shape(ans', N, N) && Shape(D, N, N) && D == MatMul(ans', A, N, N, N)
        invariant ValidSteps(steps, N) && ans' == ApplySteps(ans, steps, N, N)
        invariant forall k :: 0 <= k < r ==> arr[k][k] != 0.0
        invariant forall k :: 0 <= k < N ==> D[k] == if k < r then Divided(arr[k], arr[k][k]) else arr[k]
      {
        if arr[r][r] == 0.0 {
          return false, ans', steps;
        }
        DivideRowTimes(ans', A, r, arr[r][r], N, N, N);
        ans' := DivideRowOf(ans', r, arr[r][r], N);
        ghost var done := steps;
        steps := steps + [DivideStep(r, arr[r][r])];
        assert steps[..|steps| - 1] == done;
        DividedStep(arr, D, r, N);
        D := DivideRow(D, r, arr[r][r], N, N);
        r := r + 1;
      }
      DividedDiagonal(arr, D, N);
      return true, ans', steps;
    }

    /**
      * invert: ans starts as the identity and undergoes the same row
      * operations as the matrix; then ans replaces the matrix.  On success
      * the new matrix is the inverse of the old one on both sides: ans is
      * reached from the identity by invertible row steps, so a left inverse
      * is a right inverse as well.
      */
    method Invert() returns (ok: bool)
      requires Valid() && M == N
      modifies this
      ensures Valid()
      ensures ok ==> MatMul(arr, old(arr), N, N, N) == Identity(N)
      ensures ok ==> MatMul(old(arr), arr, N, N, N) == Identity(N)
    {
      ghost var A := arr;
      var ans := IdentityGrid(N);
      IdentityTimes(A, N, N);
      var s;
      ghost var reduce, divide;
      ans, s, reduce := ReduceWith(ans, A);
      ok, ans, divide := DivideByDiagonal(ans, A, s);
      ApplyStepsAppend(Identity(N), reduce, divide, N, N);
      if ok {
        LeftInverseIsRight(A, ans, reduce + divide, N);
        arr := ans;
      }
    }

    /** inverted: an inverted copy; the matrix itself is unchanged. */
    method Inverted() returns (copy: Matrix, ok: bool)
      requires Valid() && M == N
      ensures fresh(copy) && copy.Valid() && copy.M == N && copy.N == N
      ensures ok ==> MatMul(copy.arr, arr, N, N, N) == Identity(N)
      ensures ok ==> MatMul(arr, copy.arr, N, N, N) == Identity(N)
    {
      copy := new Matrix.Copy(this);
      ok := copy.Invert();
    }

    /** operator==: every entry equal. */
    method Equal(other: Matrix) returns (r: bool)
      requires Valid() && other.Valid() && other.M == M && other.N == N
      ensures r <==> arr == other.arr
    {
      var i := 0;
      while i < M
        invariant 0 <= i <= M && forall k :: 0 <= k < i ==> arr[k] == other.arr[k]
      {
        var j := 0;
        while j < N
          invariant 0 <= j <= N && forall c :: 0 <= c < j ==> arr[i][c] == other.arr[i][c]
        {
          if arr[i][j] != other.arr[i][j] {
            return false;
          }
          j := j + 1;
        }
        i := i + 1;
      }
      return true;
    }

    method NotEqual(other: Matrix) returns (r: bool)
      requires Valid() && other.Valid() && other.M == M && other.N == N
      ensures r <==> arr != other.arr
    {
      var same := Equal(other);
      r := !same;
    }
  }

  /** operator*: ans[i][j] accumulates first[i][q] * second[q][j] over q. */
  method Product(first: Matrix, second: Matrix) returns (ans: Matrix)
    requires first.Valid() && second.Valid() && first.N == second.M
    ensures fresh(ans) && ans.Valid() && ans.M == first.M && ans.N == second.N
    ensures ans.arr == MatMul(first.arr, second.arr, first.M, first.N, second.N)
  {
    var m, n, k := first.M, first.N, second.N;
    var a, b := first.arr, second.arr;
    var c := Zero(m, k);
    var i := 0;
    while i < m
      invariant 0 <= i <= m && Shape(c, m, k)
      invariant forall r :: 0 <= r < m ==> c[r] == if r < i then MatMul(a, b, m, n, k)[r] else Zero(m, k)[r]
    {
      var row := c[i];
      var j := 0;
      while j < k
        invariant 0 <= j <= k && |row| == k
        invariant forall q :: 0 <= q < k ==> row[q] == if q < j then MatMul(a, b, m, n, k)[i][q] else 0.0
      {
        var sum := row[j];
        var col := Column(b, n, j);
        var q := 0;
        while q < n
          invariant 0 <= q <= n && sum == Dot(a[i][..q], col[..q])
        {
          assert a[i][..q + 1][..q] == a[i][..q] && col[..q + 1][..q] == col[..q];
          sum := sum + a[i][q] * b[q][j];
          q := q + 1;
        }
        assert a[i][..n] == a[i] && col[..n] == col;
        row := row[j := sum];
        j := j + 1;
      }
      assert forall q :: 0 <= q < k ==> row[q] == MatMul(a, b, m, n, k)[i][q];
      c := c[i := row];
      i := i + 1;
    }
    assert forall r :: 0 <= r < m ==> c[r] == MatMul(a, b, m, n, k)[r];
    ans := new Matrix.FromArray(m, k, c);
  }

  /** operator*=(Matrix): *this = *this * other, for a square right factor. */
  method MulAssign(self: Matrix, other: Matrix)
    requires self.Valid() && other.Valid() && other.M == self.N && other.N == self.N
    modifies self
    ensures self.Valid() && self.arr == MatMul(old(self.arr), old(other.arr), self.M, self.N, self.N)
  {
    var p := Product(self, other);
    self.arr := p.arr;
  }

  method Sum(first: Matrix, second: Matrix) returns (copy: Matrix)
    requires first.Valid() && second.Valid() && first.M == second.M && first.N == second.N
    ensures fresh(copy) && copy.Valid() && copy.M == first.M && copy.N == first.N
    ensures copy.arr == Add(first.arr, second.arr, first.M, first.N)
  {
    copy := new Matrix.Copy(first);
    copy.AddAssign(second);
  }

  method Difference(first: Matrix, second: Matrix) returns (copy: Matrix)
    requires first.Valid() && second.Valid() && first.M == second.M && first.N == second.N
    ensures fresh(copy) && copy.Valid() && copy.M == first.M && copy.N == first.N
    ensures copy.arr == Sub(first.arr, second.arr, first.M, first.N)
  {
    copy := new Matrix.Copy(first);
    copy.SubAssign(second);
  }

  /** matr * value and value * matr: the same scaled copy. */
  method Scaled(matr: Matrix, value: real) returns (copy: Matrix)
    requires matr.Valid()
    ensures fresh(copy) && copy.Valid() && copy.M == matr.M && copy.N == matr.N
    ensures copy.arr == Scale(matr.arr, value, matr.M, matr.N)
  {
    copy := new Matrix.Copy(matr);
    copy.ScaleAssign(value);
  }
}
