/**
 The two Cholesky decompositions: column by column in core/math/YaMatrix.h, row by row in
 core/common/NMatrix.cpp.  The square root is a parameter of which only sqrt(x) * sqrt(x) = x is used.
 A pivot that is negative, or zero with rows below to divide by it, where the programs run on with NaN or
 infinity, is `None` here; a zero pivot in the last row is no obstacle.
 */
module Cholesky {
  import opened Wrappers
  import opened Assignment
  import opened Linear
  import opened Factors
  import opened Definite

  ghost predicate IsSqrt(sqrt: real -> real) {
    forall x {:trigger sqrt(x)} | x >= 0.0 :: sqrt(x) >= 0.0 && sqrt(x) * sqrt(x) == x
  }

  // ----- writing one cell

  ghost function Write(l: Matrix, n: nat, i: nat, j: nat, x: real): (l': Matrix)
    requires Square(l, n) && i < n && j < n
    ensures Square(l', n)
  {
    l[i := l[i][j := x]]
  }

  /** Writing cell (i, j) leaves an equation alone that lies in earlier columns or does not use row `i`. */
  lemma EntryKept(a: Matrix, l: Matrix, n: nat, i: nat, j: nat, x: real, p: nat, q: nat)
    requires Square(a, n) && Square(l, n) && i < n && j < n && q <= p < n
    requires q < j || (p != i && q != i)
    ensures Entry(a, Write(l, n, i, j, x), n, p, q) == Entry(a, l, n, p, q)
  {
    var l' := Write(l, n, i, j, x);
    assert l'[p][..q + 1] == l[p][..q + 1] && l'[q][..q + 1] == l[q][..q + 1];
  }

  /** The value written below the diagonal solves the cell's equation. */
  lemma QuotientSolves(a: Matrix, l: Matrix, n: nat, i: nat, j: nat)
    requires Square(a, n) && Square(l, n) && j < i < n && l[j][j] > 0.0
    ensures Entry(a, Write(l, n, i, j, (a[i][j] - Dot(l[i][..j], l[j][..j])) / l[j][j]), n, i, j)
  {
    var x := (a[i][j] - Dot(l[i][..j], l[j][..j])) / l[j][j];
    var l' := Write(l, n, i, j, x);
    assert l'[i][..j] == l[i][..j] && l'[j] == l[j];
    DotGrows(l'[i], l'[j], j);
    assert x * l[j][j] == a[i][j] - Dot(l[i][..j], l[j][..j]);
  }

  /** The value written on the diagonal solves the cell's equation. */
  lemma RootSolves(a: Matrix, l: Matrix, n: nat, j: nat, x: real)
    requires Square(a, n) && Square(l, n) && j < n && x * x == a[j][j] - Dot(l[j][..j], l[j][..j])
    ensures Entry(a, Write(l, n, j, j, x), n, j, j)
  {
    var l' := Write(l, n, j, j, x);
    assert l'[j][..j] == l[j][..j];
    DotGrows(l'[j], l'[j], j);
  }

  method Inner(x: Row, y: Row, k: nat) returns (sub: real)
    requires k <= |x| == |y|
    ensures sub == Dot(x[..k], y[..k])
  {
    sub := 0.0;
    for l := 0 to k
      invariant sub == Dot(x[..l], y[..l])
    {
      DotGrows(x, y, l);
      sub := sub + x[l] * y[l];
    }
  }

  // ----- YaMatrix::choleskyDecomposition, column by column

  /** Columns before `j` are solved, and the rest is still zero. */
  ghost predicate ColumnsDone(a: Matrix, l: Matrix, n: nat, j: nat) {
    && Square(a, n) && Lower(l, n) && j <= n
    && (forall p, q | 0 <= q <= p < n && q < j :: Entry(a, l, n, p, q))
    && (forall p | 0 <= p < j :: Sound(l[p][p], p, n))
  }

  /** Column `j` is solved from the diagonal down to row `i`. */
  ghost predicate ColumnPart(a: Matrix, l: Matrix, n: nat, j: nat, i: nat)
    requires Square(a, n) && Square(l, n) && j < i <= n
  {
    Sound(l[j][j], j, n) && forall p | j <= p < i :: Entry(a, l, n, p, j)
  }

  lemma ColumnStarted(a: Matrix, l: Matrix, n: nat, j: nat, x: real)
    requires ColumnsDone(a, l, n, j) && j < n && Sound(x, j, n) && x * x == a[j][j] - Dot(l[j][..j], l[j][..j])
    ensures ColumnsDone(a, Write(l, n, j, j, x), n, j) && ColumnPart(a, Write(l, n, j, j, x), n, j, j + 1)
  {
    RootSolves(a, l, n, j, x);
    forall p, q | 0 <= q <= p < n && q < j
      ensures Entry(a, Write(l, n, j, j, x), n, p, q)
    {
      EntryKept(a, l, n, j, j, x, p, q);
    }
  }

  lemma ColumnExtended(a: Matrix, l: Matrix, n: nat, j: nat, i: nat, x: real)
    requires ColumnsDone(a, l, n, j) && j < i < n && ColumnPart(a, l, n, j, i)
    requires x == (a[i][j] - Dot(l[i][..j], l[j][..j])) / l[j][j]
    ensures ColumnsDone(a, Write(l, n, i, j, x), n, j) && ColumnPart(a, Write(l, n, i, j, x), n, j, i + 1)
  {
    QuotientSolves(a, l, n, i, j);
    forall p, q | 0 <= q <= p < n && q < j
      ensures Entry(a, Write(l, n, i, j, x), n, p, q)
    {
      EntryKept(a, l, n, i, j, x, p, q);
    }
    forall p | j <= p < i
      ensures Entry(a, Write(l, n, i, j, x), n, p, j)
    {
      EntryKept(a, l, n, i, j, x, p, j);
    }
  }

  method FillColumn(a: Matrix, n: nat, l: array<Row>, j: nat)
    requires l.Length == n && j < n && ColumnsDone(a, l[..], n, j) && ColumnPart(a, l[..], n, j, j + 1)
    modifies l
    ensures ColumnsDone(a, l[..], n, j + 1)
  {
    for i := j + 1 to n
      invariant ColumnsDone(a, l[..], n, j) && ColumnPart(a, l[..], n, j, i)
    {
      var sub := Inner(l[i], l[j], j);
      var x := (a[i][j] - sub) / l[j][j];
      ColumnExtended(a, l[..], n, j, i, x);
      ghost var l' := Write(l[..], n, i, j, x);
      l[i] := l[i][j := x];
      assert l[..] == l';
    }
  }

  /** Succeeds exactly on the matrices that have a factor, and returns it. */
  method ByColumns(a: Matrix, n: nat, sqrt: real -> real) returns (r: Option<Matrix>)
    requires Symmetric(a, n) && IsSqrt(sqrt)
    ensures r.Some? ==> IsFactor(a, r.value, n)
    ensures r.None? ==> !AlmostDefinite(a, n) && forall l :: !IsFactor(a, l, n)
  {
    var l := new Row[n](_ => Zeros(n));
    for j := 0 to n
      invariant ColumnsDone(a, l[..], n, j)
    {
      var sub := Inner(l[j], l[j], j);
      var pivot := a[j][j] - sub;
      if !Sound(pivot, j, n) {
        UnsoundPivot(a, l[..], n, j);
        forall l0 | IsFactor(a, l0, n)
          ensures false
        {
          PivotSound(a, l[..], l0, n, j);
        }
        return None;
      }
      var x := sqrt(pivot);
      SquareSound(x, j, n);
      ColumnStarted(a, l[..], n, j, x);
      ghost var l' := Write(l[..], n, j, j, x);
      l[j] := l[j][j := x];
      assert l[..] == l';
      FillColumn(a, n, l, j);
    }
    EntriesMakeFactor(a, l[..], n);
    return Some(l[..]);
  }

  function Zeros(n: nat): (z: Row)
    ensures |z| == n && forall k | 0 <= k < n :: z[k] == 0.0
  {
    seq(n, k => 0.0)
  }

  // ----- NMatrix cholesky, row by row

  /** Rows before `i` are solved, and the rest is still zero. */
  ghost predicate RowsDone(a: Matrix, l: Matrix, n: nat, i: nat) {
    && Square(a, n) && Lower(l, n) && i <= n
    && (forall p, q | 0 <= q <= p < i :: Entry(a, l, n, p, q))
    && (forall p | 0 <= p < i :: Sound(l[p][p], p, n))
  }

  /** Row `i` is solved up to column `j`. */
  ghost predicate RowPart(a: Matrix, l: Matrix, n: nat, i: nat, j: nat)
    requires Square(a, n) && Square(l, n) && j <= i < n
  {
    forall q | 0 <= q < j :: Entry(a, l, n, i, q)
  }

  lemma RowExtended(a: Matrix, l: Matrix, n: nat, i: nat, j: nat, x: real)
    requires RowsDone(a, l, n, i) && j < i < n && RowPart(a, l, n, i, j)
    requires x == (a[i][j] - Dot(l[i][..j], l[j][..j])) / l[j][j]
    ensures RowsDone(a, Write(l, n, i, j, x), n, i) && RowPart(a, Write(l, n, i, j, x), n, i, j + 1)
  {
    QuotientSolves(a, l, n, i, j);
    forall p, q | 0 <= q <= p < i
      ensures Entry(a, Write(l, n, i, j, x), n, p, q)
    {
      EntryKept(a, l, n, i, j, x, p, q);
    }
    forall q | 0 <= q < j
      ensures Entry(a, Write(l, n, i, j, x), n, i, q)
    {
      EntryKept(a, l, n, i, j, x, i, q);
    }
  }

  lemma RowFinished(a: Matrix, l: Matrix, n: nat, i: nat, x: real)
    requires RowsDone(a, l, n, i) && i < n && RowPart(a, l, n, i, i)
    requires Sound(x, i, n) && x * x == a[i][i] - Dot(l[i][..i], l[i][..i])
    ensures RowsDone(a, Write(l, n, i, i, x), n, i + 1)
  {
    RootSolves(a, l, n, i, x);
    forall p, q | 0 <= q <= p <= i && q < i
      ensures Entry(a, Write(l, n, i, i, x), n, p, q)
    {
      EntryKept(a, l, n, i, i, x, p, q);
    }
  }

  /** Subtracts the products from `from` one by one. */
  method Subtracted(from: real, x: Row, y: Row, k: nat) returns (a: real)
    requires k <= |x| == |y|
    ensures a == from - Dot(x[..k], y[..k])
  {
    a := from;
    for l := 0 to k
      invariant a == from - Dot(x[..l], y[..l])
    {
      DotGrows(x, y, l);
      a := a - x[l] * y[l];
    }
  }

  method FillRow(p: Matrix, n: nat, l: array<Row>, i: nat)
    requires l.Length == n && i < n && RowsDone(p, l[..], n, i)
    modifies l
    ensures RowsDone(p, l[..], n, i) && RowPart(p, l[..], n, i, i)
  {
    for j := 0 to i
      invariant RowsDone(p, l[..], n, i) && RowPart(p, l[..], n, i, j)
    {
      var a := Subtracted(p[i][j], l[i], l[j], j);
      RowExtended(p, l[..], n, i, j, a / l[j][j]);
      ghost var l' := Write(l[..], n, i, j, a / l[j][j]);
      l[i] := l[i][j := a / l[j][j]];
      assert l[..] == l';
    }
  }

  /** Succeeds exactly on the matrices that have a factor, and returns it. */
  method ByRows(p: Matrix, n: nat, sqrt: real -> real) returns (r: Option<Matrix>)
    requires Symmetric(p, n) && IsSqrt(sqrt)
    ensures r.Some? ==> IsFactor(p, r.value, n)
    ensures r.None? ==> !AlmostDefinite(p, n) && forall l :: !IsFactor(p, l, n)
  {
    var l := new Row[n](_ => Zeros(n));
    for i := 0 to n
      invariant RowsDone(p, l[..], n, i)
    {
      FillRow(p, n, l, i);
      var a := Subtracted(p[i][i], l[i], l[i], i);
      if !Sound(a, i, n) {
        UnsoundPivot(p, l[..], n, i);
        forall l0 | IsFactor(p, l0, n)
          ensures false
        {
          PivotSound(p, l[..], l0, n, i);
        }
        return None;
      }
      var x := sqrt(a);
      SquareSound(x, i, n);
      RowFinished(p, l[..], n, i, x);
      ghost var l' := Write(l[..], n, i, i, x);
      l[i] := l[i][i := x];
      assert l[..] == l';
    }
    EntriesMakeFactor(p, l[..], n);
    return Some(l[..]);
  }

  /** Both loop orders compute the same factor, and fail on the same matrices. */
  method BothOrders(a: Matrix, n: nat, sqrt: real -> real) returns (columns: Option<Matrix>, rows: Option<Matrix>)
    requires Symmetric(a, n) && IsSqrt(sqrt)
    ensures columns == rows
    ensures columns.Some? <==> exists l :: IsFactor(a, l, n)
    ensures columns.Some? <==> AlmostDefinite(a, n)
  {
    columns := ByColumns(a, n, sqrt);
    rows := ByRows(a, n, sqrt);
    if columns.Some? {
      FactorIsDefinite(a, columns.value, n);
    }
    if columns.Some? && rows.Some? {
      FactorUnique(a, columns.value, rows.value, n);
    }
  }
}
