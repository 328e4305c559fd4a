/**
 Gauss-Jordan elimination as `YaMatrix::inverse` of core/math/YaMatrix.h does it: rows are never swapped,
 `ranking` says which row plays which part.  What row operations keep, what a diagonal matrix gives, the
 elimination as a function of the matrix, and what its pivots say about the matrix.
 */
module Elimination {
  import opened Wrappers
  import opened Assignment
  import opened Linear

  datatype MVException = DivByPosZero | DivByNegZero | PosInfValue | NegInfValue

  const MIN_POS: real := 0.000000000000000001
  const MAX_POS: real := 1000000000000000000.0

  predicate IsNearZero(x: real) {
    -MIN_POS < x < MIN_POS
  }

  predicate IsNearNegZero(x: real) {
    -MIN_POS < x <= 0.0
  }

  predicate IsNearInf(x: real) {
    x > MAX_POS || x < -MAX_POS
  }

  // ----- what elimination keeps

  /** `right` transforms `a` into `left`, and `back` undoes `right`. */
  ghost predicate Related(a: Matrix, left: Matrix, right: Matrix, back: Matrix, n: nat) {
    && Square(a, n) && Square(left, n) && Square(right, n) && Square(back, n)
    && Product(right, a, n) == left
    && Product(back, right, n) == Identity(n)
  }

  ghost function BackRow(x: Row, pivot: nat, target: nat, f: real): (r: Row)
    requires pivot < |x| && target < |x|
    ensures |r| == |x|
  {
    x[pivot := x[pivot] + f * x[target]]
  }

  ghost function BackOp(back: Matrix, pivot: nat, target: nat, f: real, n: nat): (b: Matrix)
    requires Square(back, n) && pivot < n && target < n
    ensures Square(b, n) && forall i | 0 <= i < n :: b[i] == BackRow(back[i], pivot, target, f)
  {
    seq(n, i requires 0 <= i < n => BackRow(back[i], pivot, target, f))
  }

  ghost function RowOp(x: Matrix, pivot: nat, target: nat, f: real, n: nat): (r: Matrix)
    requires Square(x, n) && pivot < n && target < n
    ensures Square(r, n)
  {
    x[target := Minus(x[target], f, x[pivot])]
  }

  lemma BackArithmetic(d: real, x1: real, x2: real, y1: real, y2: real, f: real)
    ensures (d + x2 * ((y2 - f * y1) - y2)) + ((x1 + f * x2) - x1) * y1 == d
  {
  }

  lemma BackDot(x: Row, y: Row, pivot: nat, target: nat, f: real)
    requires |x| == |y| && pivot < |x| && target < |x| && pivot != target
    ensures Dot(BackRow(x, pivot, target, f), y[target := Sub(y[target], f, y[pivot])]) == Dot(x, y)
  {
    hide Dot;
    var b := Sub(y[target], f, y[pivot]);
    DotUpdateRight(x, y, target, b);
    DotUpdateLeft(x, y[target := b], pivot, x[pivot] + f * x[target]);
    BackArithmetic(Dot(x, y), x[pivot], x[target], y[pivot], y[target], f);
  }

  lemma ColumnAfter(right: Matrix, pivot: nat, target: nat, f: real, n: nat, j: nat)
    requires Square(right, n) && pivot < n && target < n && j < n
    ensures Column(RowOp(right, pivot, target, f, n), j) ==
        Column(right, j)[target := Sub(Column(right, j)[target], f, Column(right, j)[pivot])]
  {
    assert Minus(right[target], f, right[pivot])[j] == Sub(right[target][j], f, right[pivot][j]);
    assert Column(right, j)[target] == right[target][j] && Column(right, j)[pivot] == right[pivot][j];
  }

  lemma BackKept(right: Matrix, back: Matrix, pivot: nat, target: nat, f: real, n: nat)
    requires Square(right, n) && Square(back, n) && pivot < n && target < n && pivot != target
    ensures Product(BackOp(back, pivot, target, f, n), RowOp(right, pivot, target, f, n), n) == Product(back, right, n)
  {
    var b', r' := BackOp(back, pivot, target, f, n), RowOp(right, pivot, target, f, n);
    forall i | 0 <= i < n
      ensures Product(b', r', n)[i] == Product(back, right, n)[i]
    {
      forall j | 0 <= j < n
        ensures Times(b'[i], r', n)[j] == Times(back[i], right, n)[j]
      {
        ColumnAfter(right, pivot, target, f, n, j);
        BackDot(back[i], Column(right, j), pivot, target, f);
      }
    }
  }

  /** Subtracting a multiple of one row from another, on both sides, keeps the relation. */
  lemma RelatedKept(a: Matrix, left: Matrix, right: Matrix, back: Matrix, pivot: nat, target: nat, f: real, n: nat)
    requires Related(a, left, right, back, n) && pivot < n && target < n && pivot != target
    ensures Related(a, RowOp(left, pivot, target, f, n), RowOp(right, pivot, target, f, n),
        BackOp(back, pivot, target, f, n), n)
  {
    BackKept(right, back, pivot, target, f, n);
    TimesMinus(right[target], f, right[pivot], a, n);
    var l', r' := RowOp(left, pivot, target, f, n), RowOp(right, pivot, target, f, n);
    forall i | 0 <= i < n
      ensures Product(r', a, n)[i] == l'[i]
    {
      assert Product(right, a, n)[i] == left[i] && Product(right, a, n)[pivot] == left[pivot];
    }
  }

  lemma RelatedInitially(a: Matrix, n: nat)
    requires Square(a, n)
    ensures Related(a, a, Identity(n), Identity(n), n)
  {
    IdentityTimes(a, n);
    IdentityTimes(Identity(n), n);
  }

  // ----- the end of elimination

  /** In the order of `ranking`, the matrix is diagonal with non-zero diagonal. */
  ghost predicate Diagonal(left: Matrix, ranking: seq<int>, n: nat)
    requires Square(left, n) && IsAssignment(ranking, n, n)
  {
    && (forall r | 0 <= r < n :: left[ranking[r]][r] != 0.0)
    && (forall r, c | 0 <= r < n && 0 <= c < n && r != c :: left[ranking[r]][c] == 0.0)
  }

  /** The rows of `right`, in order and divided by the diagonal. */
  ghost predicate Scaled(res: Matrix, left: Matrix, right: Matrix, ranking: seq<int>, n: nat)
    requires Square(res, n) && Square(left, n) && Square(right, n) && IsAssignment(ranking, n, n)
        && Diagonal(left, ranking, n)
  {
    forall r | 0 <= r < n :: res[r] == Over(right[ranking[r]], left[ranking[r]][r])
  }

  lemma Quotients(d: real)
    requires d != 0.0
    ensures 0.0 / d == 0.0 && d / d == 1.0
  {
  }

  lemma ScaledToUnit(row: Row, r: nat, n: nat)
    requires |row| == n && r < n && row[r] != 0.0 && forall c | 0 <= c < n && c != r :: row[c] == 0.0
    ensures Over(row, row[r]) == Unit(r, n)
  {
    forall c | 0 <= c < n
      ensures Over(row, row[r])[c] == Unit(r, n)[c]
    {
      Quotients(row[r]);
      assert Over(row, row[r])[c] == row[c] / row[r];
    }
  }

  lemma LeftInverse(a: Matrix, left: Matrix, right: Matrix, back: Matrix, ranking: seq<int>, res: Matrix, n: nat)
    requires Related(a, left, right, back, n) && Square(res, n) && IsAssignment(ranking, n, n)
    requires Diagonal(left, ranking, n) && Scaled(res, left, right, ranking, n)
    ensures Product(res, a, n) == Identity(n)
  {
    forall r | 0 <= r < n
      ensures Product(res, a, n)[r] == Identity(n)[r]
    {
      var k := ranking[r];
      assert Product(right, a, n)[k] == left[k];
      TimesOver(right[k], left[k][r], a, n);
      ScaledToUnit(left[k], r, n);
    }
  }

  /** `back` undoes the elimination. */
  lemma BackTimesLeft(a: Matrix, left: Matrix, right: Matrix, back: Matrix, n: nat)
    requires Related(a, left, right, back, n)
    ensures Product(back, left, n) == a
  {
    ProductAssociates(back, right, a, n);
    IdentityTimes(a, n);
  }

  /** Only one row of the diagonal matrix meets a column. */
  lemma OneRowPerColumn(left: Matrix, ranking: seq<int>, r: nat, l: nat, n: nat)
    requires Square(left, n) && IsAssignment(ranking, n, n) && Diagonal(left, ranking, n) && r < n && l < n
        && l != ranking[r]
    ensures left[l][r] == 0.0
  {
    CoversAll(ranking, n);
    assert l in ranking;
    var s :| 0 <= s < n && ranking[s] == l;
  }

  /** So `back` and the diagonal give the entries of `a`. */
  lemma EntryOf(a: Matrix, left: Matrix, right: Matrix, back: Matrix, ranking: seq<int>, i: nat, r: nat, n: nat)
    requires Related(a, left, right, back, n) && IsAssignment(ranking, n, n) && Diagonal(left, ranking, n)
    requires i < n && r < n
    ensures a[i][r] == back[i][ranking[r]] * left[ranking[r]][r]
  {
    hide Dot, Identity, Related;
    assert Square(left, n) && Square(back, n) by { RelatedIsSquare(a, left, right, back, n); }
    BackTimesLeft(a, left, right, back, n);
    assert Product(back, left, n)[i][r] == Dot(back[i], Column(left, r));
    forall l | 0 <= l < n && l != ranking[r]
      ensures Column(left, r)[l] == 0.0
    {
      OneRowPerColumn(left, ranking, r, l, n);
    }
    DotSingle(back[i], Column(left, r), ranking[r]);
  }

  lemma RelatedIsSquare(a: Matrix, left: Matrix, right: Matrix, back: Matrix, n: nat)
    requires Related(a, left, right, back, n)
    ensures Square(a, n) && Square(left, n) && Square(right, n) && Square(back, n)
  {
  }

  lemma Cancel(x: real, d: real, y: real)
    requires d != 0.0
    ensures (x * d) * (y / d) == x * y
  {
    assert (y / d) * d == y;
  }

  lemma RightInverseEntry(a: Matrix, left: Matrix, right: Matrix, back: Matrix, ranking: seq<int>, res: Matrix, i: nat,
                          j: nat, n: nat)
    requires Related(a, left, right, back, n) && Square(res, n) && IsAssignment(ranking, n, n)
    requires Diagonal(left, ranking, n) && Scaled(res, left, right, ranking, n) && i < n && j < n
    ensures Dot(a[i], Column(res, j)) == Identity(n)[i][j]
  {
    var x, y := back[i], Column(right, j);
    forall r | 0 <= r < n
      ensures a[i][r] * Column(res, j)[r] == Reorder(x, ranking)[r] * Reorder(y, ranking)[r]
    {
      EntryOf(a, left, right, back, ranking, i, r, n);
      Cancel(x[ranking[r]], left[ranking[r]][r], y[ranking[r]]);
    }
    SameDot(a[i], Column(res, j), Reorder(x, ranking), Reorder(y, ranking));
    DotReordered(x, y, ranking);
    assert Product(back, right, n)[i] == Identity(n)[i];
    assert Times(x, right, n)[j] == Dot(x, y);
  }

  lemma {:induction false} SameDot(x: Row, y: Row, x': Row, y': Row)
    requires |x| == |y| == |x'| == |y'| && forall k | 0 <= k < |x| :: x[k] * y[k] == x'[k] * y'[k]
    ensures Dot(x, y) == Dot(x', y')
  {
    if |x| > 0 {
      var k := |x| - 1;
      forall l | 0 <= l < k
        ensures x[..k][l] * y[..k][l] == x'[..k][l] * y'[..k][l]
      {
        assert x[l] * y[l] == x'[l] * y'[l];
      }
      SameDot(x[..k], y[..k], x'[..k], y'[..k]);
    }
  }

  lemma RightInverse(a: Matrix, left: Matrix, right: Matrix, back: Matrix, ranking: seq<int>, res: Matrix, n: nat)
    requires Related(a, left, right, back, n) && Square(res, n) && IsAssignment(ranking, n, n)
    requires Diagonal(left, ranking, n) && Scaled(res, left, right, ranking, n)
    ensures Product(a, res, n) == Identity(n)
  {
    forall i | 0 <= i < n
      ensures Product(a, res, n)[i] == Identity(n)[i]
    {
      forall j | 0 <= j < n
        ensures Product(a, res, n)[i][j] == Identity(n)[i][j]
      {
        RightInverseEntry(a, left, right, back, ranking, res, i, j, n);
      }
    }
  }

  // ----- zeros below and above the diagonal

  /** The first `k` columns are zero below the diagonal. */
  ghost predicate LowerZero(left: Matrix, ranking: seq<int>, n: nat, k: nat)
    requires Square(left, n) && IsAssignment(ranking, n, n)
  {
    forall s, c | 0 <= c < s < n && c < k :: left[ranking[s]][c] == 0.0
  }

  /** The columns from `k` on are zero above the diagonal. */
  ghost predicate UpperZero(left: Matrix, ranking: seq<int>, n: nat, k: nat)
    requires Square(left, n) && IsAssignment(ranking, n, n)
  {
    forall s, c | 0 <= s < c < n && k <= c :: left[ranking[s]][c] == 0.0
  }

  /** Column `c` is zero in the rows ranked `lo` to `hi`. */
  ghost predicate ColumnZero(left: Matrix, ranking: seq<int>, n: nat, c: nat, lo: int, hi: int)
    requires Square(left, n) && IsAssignment(ranking, n, n) && c < n
  {
    forall s | 0 <= lo <= s < hi <= n :: left[ranking[s]][c] == 0.0
  }

  lemma FactorCancels(x: real, y: real)
    requires y != 0.0
    ensures Sub(x, x / y, y) == 0.0
    ensures Abs(x) <= Abs(y) ==> -1.0 <= x / y <= 1.0
  {
    assert (x / y) * y == x;
    if Abs(x) <= Abs(y) {
      FactorBound(x / y, y);
    }
  }

  lemma Grows(f: real, d: real)
    requires f > 1.0 && d > 0.0
    ensures f * d > d
  {
    assert (f - 1.0) * d > 0.0;
  }

  /** A factor beyond one makes a number larger in magnitude. */
  lemma Magnifies(f: real, y: real)
    requires y != 0.0 && Abs(f) > 1.0
    ensures Abs(f * y) > Abs(y)
  {
    AbsOfProduct(f, y);
    Grows(Abs(f), Abs(y));
  }

  lemma AbsOfProduct(f: real, y: real)
    ensures Abs(f * y) == Abs(f) * Abs(y)
  {
    if f < 0.0 && y < 0.0 {
      assert f * y == (-f) * (-y) >= 0.0;
    } else if f < 0.0 {
      assert f * y == -((-f) * y) <= 0.0;
    } else if y < 0.0 {
      assert f * y == -(f * (-y)) <= 0.0;
    } else {
      assert f * y >= 0.0;
    }
  }

  lemma FactorBound(f: real, y: real)
    requires y != 0.0 && Abs(f * y) <= Abs(y)
    ensures -1.0 <= f <= 1.0
  {
    if Abs(f) > 1.0 {
      Magnifies(f, y);
    }
  }

  lemma SubOfZero(x: real, f: real)
    ensures Sub(x, f, 0.0) == x
  {
  }

  /** Clearing column `r` of the row ranked `s` below the pivot disturbs no earlier zero. */
  lemma ForwardStep(left: Matrix, ranking: seq<int>, n: nat, r: nat, s: nat)
    requires Square(left, n) && IsAssignment(ranking, n, n) && r < s < n && left[ranking[r]][r] != 0.0
    requires LowerZero(left, ranking, n, r) && ColumnZero(left, ranking, n, r, r + 1, s)
    ensures
      var left' := RowOp(left, ranking[r], ranking[s], left[ranking[s]][r] / left[ranking[r]][r], n);
      LowerZero(left', ranking, n, r) && ColumnZero(left', ranking, n, r, r + 1, s + 1)
  {
    var f := left[ranking[s]][r] / left[ranking[r]][r];
    var left' := RowOp(left, ranking[r], ranking[s], f, n);
    FactorCancels(left[ranking[s]][r], left[ranking[r]][r]);
    assert left'[ranking[s]][r] == 0.0;
    forall q, c | 0 <= c < q < n && c < r
      ensures left'[ranking[q]][c] == 0.0
    {
      if q == s {
        assert left[ranking[r]][c] == 0.0 && left[ranking[s]][c] == 0.0;
        SubOfZero(left[ranking[s]][c], f);
      }
    }
  }

  /** Clearing column `r` of the row ranked `s` above the pivot disturbs no zero at all. */
  lemma BackwardStep(left: Matrix, ranking: seq<int>, n: nat, r: nat, s: nat)
    requires Square(left, n) && IsAssignment(ranking, n, n) && s < r < n && left[ranking[r]][r] != 0.0
    requires LowerZero(left, ranking, n, n) && UpperZero(left, ranking, n, r + 1)
        && ColumnZero(left, ranking, n, r, s + 1, r)
    ensures
      var left' := RowOp(left, ranking[r], ranking[s], left[ranking[s]][r] / left[ranking[r]][r], n);
      LowerZero(left', ranking, n, n) && UpperZero(left', ranking, n, r + 1) && ColumnZero(left', ranking, n, r, s, r)
  {
    var f := left[ranking[s]][r] / left[ranking[r]][r];
    var left' := RowOp(left, ranking[r], ranking[s], f, n);
    FactorCancels(left[ranking[s]][r], left[ranking[r]][r]);
    forall c | 0 <= c < n && c != r
      ensures left'[ranking[s]][c] == left[ranking[s]][c]
    {
      assert left[ranking[r]][c] == 0.0;
      SubOfZero(left[ranking[s]][c], f);
    }
    assert left'[ranking[s]][r] == 0.0;
  }

  // ----- the elimination as a function of the matrix

  /** The matrix under elimination, and the order in which its rows take part. */
  datatype Stage = Stage(left: Matrix, ranking: seq<int>)

  ghost predicate IsStage(st: Stage, n: nat) {
    Square(st.left, n) && IsAssignment(st.ranking, n, n)
  }

  /** Entry (s, c) in the order of the ranking. */
  ghost function At(st: Stage, n: nat, s: nat, c: nat): real
    requires IsStage(st, n) && s < n && c < n
  {
    st.left[st.ranking[s]][c]
  }

  /** Of the ranks from `r` to `m`, the first whose row is largest in column `r`. */
  ghost function FirstLargest(st: Stage, n: nat, r: nat, m: nat): (q: nat)
    requires IsStage(st, n) && r < m <= n
    ensures r <= q < m
  {
    if m == r + 1 then r
    else
      var q := FirstLargest(st, n, r, m - 1);
      if Abs(At(st, n, m - 1, r)) > Abs(At(st, n, q, r)) then m - 1 else q
  }

  lemma {:induction false} LargestInColumn(st: Stage, n: nat, r: nat, m: nat)
    requires IsStage(st, n) && r < m <= n
    ensures var q := FirstLargest(st, n, r, m);
            && (forall s: nat | r <= s < m :: Abs(At(st, n, s, r)) <= Abs(At(st, n, q, r)))
            && (forall s: nat | r <= s < q :: Abs(At(st, n, s, r)) < Abs(At(st, n, q, r)))
  {
    if m > r + 1 {
      LargestInColumn(st, n, r, m - 1);
    }
  }

  function Quotient(x: real, y: real): real {
    if y == 0.0 then 0.0 else x / y
  }

  ghost function Swapped(p: seq<int>, r: nat, s: nat): seq<int>
    requires r < |p| && s < |p|
  {
    p[r := p[s]][s := p[r]]
  }

  lemma SwappedIsAssignment(p: seq<int>, r: nat, s: nat, n: nat)
    requires IsAssignment(p, n, n) && r < n && s < n
    ensures IsAssignment(Swapped(p, r, s), n, n)
  {
    var p' := Swapped(p, r, s);
    forall i, k | 0 <= i < k < n
      ensures p'[i] != p'[k]
    {
      var i' := if i == r then s else if i == s then r else i;
      var k' := if k == r then s else if k == s then r else k;
      assert p'[i] == p[i'] && p'[k] == p[k'];
    }
  }

  /** The row that is largest in column `r` moves to rank `r`. */
  ghost function Picked(st: Stage, n: nat, r: nat): (st': Stage)
    requires IsStage(st, n) && r < n
    ensures IsStage(st', n)
  {
    SwappedIsAssignment(st.ranking, r, FirstLargest(st, n, r, n), n);
    st.(ranking := Swapped(st.ranking, r, FirstLargest(st, n, r, n)))
  }

  /** Column `r` is cleared in the rows ranked after `r` and before `m`, each by its multiple of the row ranked `r`. */
  ghost function Cleared(st: Stage, n: nat, r: nat, m: nat): (left: Matrix)
    requires IsStage(st, n) && r < m <= n
    ensures Square(left, n)
  {
    var pivot := st.left[st.ranking[r]];
    seq(n, i requires 0 <= i < n =>
      if i in st.ranking[r + 1..m] then Minus(st.left[i], Quotient(st.left[i][r], pivot[r]), pivot) else st.left[i])
  }

  /** One column of the forward pass. */
  ghost function Next(st: Stage, n: nat, r: nat): (st': Stage)
    requires IsStage(st, n) && r < n
    ensures IsStage(st', n)
  {
    var picked := Picked(st, n, r);
    picked.(left := Cleared(picked, n, r, n))
  }

  /** Where the elimination of `a` stands when its first `r` columns are cleared. */
  ghost function StageAt(a: Matrix, n: nat, r: nat): (st: Stage)
    requires Square(a, n) && r <= n
    ensures IsStage(st, n)
  {
    if r == 0 then Stage(a, seq(n, i => i)) else Next(StageAt(a, n, r - 1), n, r - 1)
  }

  /** The pivot that column `r` offers. */
  ghost function Pivot(a: Matrix, n: nat, r: nat): real
    requires Square(a, n) && r < n
  {
    At(Picked(StageAt(a, n, r), n, r), n, r, r)
  }

  /** Entry (s, c) of the triangular matrix that the forward pass arrives at. */
  ghost function Triangle(a: Matrix, n: nat, s: nat, c: nat): real
    requires Square(a, n) && s < n && c < n
  {
    At(StageAt(a, n, n), n, s, c)
  }

  lemma PickedRanks(st: Stage, n: nat, r: nat, s: nat)
    requires IsStage(st, n) && s < r < n
    ensures Picked(st, n, r).ranking[s] == st.ranking[s]
  {
  }

  lemma PickedIsLargest(st: Stage, n: nat, r: nat)
    requires IsStage(st, n) && r < n
    ensures forall s: nat | r <= s < n :: Abs(At(Picked(st, n, r), n, s, r)) <= Abs(At(Picked(st, n, r), n, r, r))
  {
    LargestInColumn(st, n, r, n);
    var q := FirstLargest(st, n, r, n);
    forall s: nat | r <= s < n
      ensures At(Picked(st, n, r), n, s, r) == At(st, n, if s == r then q else if s == q then r else s, r)
    {
    }
  }

  lemma ClearedRow(st: Stage, n: nat, r: nat, m: nat, s: nat)
    requires IsStage(st, n) && r < m <= n && s < n && (s <= r || m <= s)
    ensures Cleared(st, n, r, m)[st.ranking[s]] == st.left[st.ranking[s]]
  {
    assert st.ranking[s] !in st.ranking[r + 1..m];
  }

  /** Clearing one row more is one row operation. */
  lemma ClearedMore(st: Stage, n: nat, r: nat, m: nat)
    requires IsStage(st, n) && r < m < n
    ensures
      var pivot, target := st.ranking[r], st.ranking[m];
      Cleared(st, n, r, m + 1) ==
      RowOp(Cleared(st, n, r, m), pivot, target, Quotient(st.left[target][r], st.left[pivot][r]), n)
  {
    ClearedRow(st, n, r, m, r);
    ClearedRow(st, n, r, m, m);
    assert st.ranking[r + 1..m + 1] == st.ranking[r + 1..m] + [st.ranking[m]];
  }

  lemma ClearedNone(st: Stage, n: nat, r: nat)
    requires IsStage(st, n) && r < n
    ensures Cleared(st, n, r, r + 1) == st.left
  {
    assert st.ranking[r + 1..r + 1] == [];
  }

  /** The row ranked `r` is the same in both stages. */
  ghost predicate SameRow(st: Stage, st': Stage, n: nat, r: nat) {
    && IsStage(st, n) && IsStage(st', n) && r < n
    && st'.ranking[r] == st.ranking[r] && st'.left[st.ranking[r]] == st.left[st.ranking[r]]
  }

  lemma NextKeeps(st: Stage, n: nat, k: nat, r: nat)
    requires IsStage(st, n) && r < k < n
    ensures SameRow(st, Next(st, n, k), n, r)
  {
    hide Cleared;
    PickedRanks(st, n, k, r);
    ClearedRow(Picked(st, n, k), n, k, n, r);
  }

  lemma SameRowReflexive(st: Stage, n: nat, r: nat)
    requires IsStage(st, n) && r < n
    ensures SameRow(st, st, n, r)
  {
  }

  lemma SameRowTransitive(st: Stage, st': Stage, st'': Stage, n: nat, r: nat)
    requires SameRow(st, st', n, r) && SameRow(st', st'', n, r)
    ensures SameRow(st, st'', n, r)
  {
  }

  /** Once a column is cleared, the row that cleared it keeps its rank and its entries. */
  lemma {:induction false} PivotRowStays(a: Matrix, n: nat, r: nat, k: nat)
    requires Square(a, n) && r < k <= n
    ensures SameRow(StageAt(a, n, r + 1), StageAt(a, n, k), n, r)
    decreases k
  {
    hide SameRow, Next, IsStage, StageAt;
    if k == r + 1 {
      SameRowReflexive(StageAt(a, n, k), n, r);
    } else {
      PivotRowStays(a, n, r, k - 1);
      StageStep(a, n, k - 1);
      NextKeeps(StageAt(a, n, k - 1), n, k - 1, r);
      SameRowTransitive(StageAt(a, n, r + 1), StageAt(a, n, k - 1), StageAt(a, n, k), n, r);
    }
  }

  lemma StageStep(a: Matrix, n: nat, k: nat)
    requires Square(a, n) && k < n
    ensures StageAt(a, n, k + 1) == Next(StageAt(a, n, k), n, k)
  {
  }

  /** The diagonal of the triangular matrix holds the pivots. */
  lemma TriangleDiagonal(a: Matrix, n: nat, r: nat)
    requires Square(a, n) && r < n
    ensures Triangle(a, n, r, r) == Pivot(a, n, r)
  {
    hide Cleared, Picked;
    PivotRowStays(a, n, r, n);
    var st := Picked(StageAt(a, n, r), n, r);
    assert StageAt(a, n, r + 1) == st.(left := Cleared(st, n, r, n));
    ClearedRow(st, n, r, n, r);
  }

  /** The last column has nothing to clear. */
  lemma LastStage(a: Matrix, n: nat)
    requires Square(a, n) && n > 0
    ensures StageAt(a, n, n) == StageAt(a, n, n - 1)
  {
    var st := StageAt(a, n, n - 1);
    assert FirstLargest(st, n, n - 1, n) == n - 1;
    assert Picked(st, n, n - 1) == st;
    ClearedNone(st, n, n - 1);
  }

  // ----- when it throws

  function DivisionError(x: real): MVException {
    if IsNearNegZero(x) then DivByNegZero else DivByPosZero
  }

  function InfinityError(x: real): MVException {
    if x > MAX_POS then PosInfValue else NegInfValue
  }

  ghost predicate Stalls(a: Matrix, n: nat, r: nat)
    requires Square(a, n)
  {
    r < n && IsNearZero(Pivot(a, n, r))
  }

  /** No column before `m` stalls. */
  ghost predicate Steady(a: Matrix, n: nat, m: int)
    requires Square(a, n)
  {
    forall r: nat | r < m :: !Stalls(a, n, r)
  }

  /** The multiple of row `r` that clears column `r` in row `s` above it. */
  ghost function Factor(a: Matrix, n: nat, s: nat, r: nat): real
    requires Square(a, n) && s < n && r < n
  {
    Quotient(Triangle(a, n, s, r), Triangle(a, n, r, r))
  }

  ghost predicate Explodes(a: Matrix, n: nat, s: nat, r: nat)
    requires Square(a, n)
  {
    s < r < n && IsNearInf(Factor(a, n, s, r))
  }

  /** Any factor near infinity comes later in the backward pass than (s, r). */
  ghost predicate Calm(a: Matrix, n: nat, s: int, r: int)
    requires Square(a, n)
  {
    forall s': nat, r': nat | Explodes(a, n, s', r') :: r' < r || (r' == r && s' < s)
  }

  /**
   The exception of the first pivot near zero or, without one, of the first factor near infinity of the
   backward pass.
   */
  ghost predicate Throws(a: Matrix, n: nat, e: MVException)
    requires Square(a, n)
  {
    || (exists r: nat | Stalls(a, n, r) :: Steady(a, n, r) && e == DivisionError(Pivot(a, n, r)))
    || (Steady(a, n, n) && exists s: nat, r: nat | Explodes(a, n, s, r) ::
        Calm(a, n, s + 1, r) && e == InfinityError(Factor(a, n, s, r)))
  }

  /** All pivots are away from zero, and no factor of the backward pass is near infinity. */
  ghost predicate Succeeds(a: Matrix, n: nat)
    requires Square(a, n)
  {
    Steady(a, n, n) && forall s: nat, r: nat :: !Explodes(a, n, s, r)
  }

  /** A matrix either succeeds or throws one exception. */
  lemma OneOutcome(a: Matrix, n: nat, e: MVException, e': MVException)
    requires Square(a, n) && Throws(a, n, e)
    ensures !Succeeds(a, n) && (Throws(a, n, e') ==> e == e')
  {
    hide Pivot, Factor;
  }

  // ----- what the two passes have reached

  lemma SwapKeeps(left: Matrix, ranking: seq<int>, r: nat, s: nat, n: nat)
    requires Square(left, n) && IsAssignment(ranking, n, n) && r <= s < n
    ensures IsAssignment(Swapped(ranking, r, s), n, n)
    ensures LowerZero(left, ranking, n, r) ==> LowerZero(left, Swapped(ranking, r, s), n, r)
  {
    SwappedIsAssignment(ranking, r, s, n);
  }

  /** What the forward pass has reached. */
  ghost predicate Forward(a: Matrix, left: Matrix, right: Matrix, back: Matrix, ranking: seq<int>, n: nat, k: nat) {
    Related(a, left, right, back, n) && IsAssignment(ranking, n, n) && LowerZero(left, ranking, n, k)
  }

  /** What the backward pass has reached. */
  ghost predicate Backward(a: Matrix, left: Matrix, right: Matrix, back: Matrix, ranking: seq<int>, n: nat, k: nat) {
    && Related(a, left, right, back, n) && IsAssignment(ranking, n, n)
    && LowerZero(left, ranking, n, n) && UpperZero(left, ranking, n, k)
  }

  lemma ForwardInitially(a: Matrix, ranking: seq<int>, n: nat)
    requires Square(a, n) && |ranking| == n && forall i | 0 <= i < n :: ranking[i] == i
    ensures Forward(a, a, Identity(n), Identity(n), ranking, n, 0) && Stage(a, ranking) == StageAt(a, n, 0)
  {
    hide Related;
    RelatedInitially(a, n);
  }

  lemma BackwardIsInverse(a: Matrix, left: Matrix, right: Matrix, back: Matrix, ranking: seq<int>, res: Matrix, n: nat)
    requires Backward(a, left, right, back, ranking, n, 1) && Square(res, n)
    requires forall r | 0 <= r < n ::
        left[ranking[r]][r] != 0.0 && res[r] == Over(right[ranking[r]], left[ranking[r]][r])
    ensures Product(res, a, n) == Identity(n) && Product(a, res, n) == Identity(n)
  {
    hide Product, Identity;
    assert Diagonal(left, ranking, n);
    LeftInverse(a, left, right, back, ranking, res, n);
    RightInverse(a, left, right, back, ranking, res, n);
  }
}
