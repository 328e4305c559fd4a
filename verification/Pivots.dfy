/**
 What the pivots of the elimination say about the matrix: it has an inverse exactly if none of them is
 zero.  Here elimination is exact, without the thresholds of the program.
 */
module Pivots {
  import opened Wrappers
  import opened Assignment
  import opened Linear
  import opened Elimination

  ghost predicate Invertible(a: Matrix, n: nat)
    requires Square(a, n)
  {
    exists b: Matrix | Square(b, n) :: Product(b, a, n) == Identity(n)
  }

  /** The pivots before column `k` are not zero. */
  ghost predicate NonZeroPivots(a: Matrix, n: nat, k: nat)
    requires Square(a, n) && k <= n
  {
    forall r: nat | r < k :: Pivot(a, n, r) != 0.0
  }

  // ----- the forward pass gets as far as the pivots are not zero

  lemma {:induction false} ClearedRelated(a: Matrix, st: Stage, right: Matrix, back: Matrix, n: nat, r: nat, m: nat)
    returns (right': Matrix, back': Matrix)
    requires IsStage(st, n) && r < m <= n && At(st, n, r, r) != 0.0
    requires Forward(a, st.left, right, back, st.ranking, n, r)
    ensures Forward(a, Cleared(st, n, r, m), right', back', st.ranking, n, r)
    ensures ColumnZero(Cleared(st, n, r, m), st.ranking, n, r, r + 1, m)
    decreases m
  {
    hide Related, Cleared;
    if m == r + 1 {
      ClearedNone(st, n, r);
      right', back' := right, back;
    } else {
      right', back' := ClearedRelated(a, st, right, back, n, r, m - 1);
      var left := Cleared(st, n, r, m - 1);
      var pivot, target := st.ranking[r], st.ranking[m - 1];
      ClearedRow(st, n, r, m - 1, r);
      ClearedRow(st, n, r, m - 1, m - 1);
      ClearedMore(st, n, r, m - 1);
      ForwardStep(left, st.ranking, n, r, m - 1);
      var f := left[target][r] / left[pivot][r];
      RelatedIsSquare(a, left, right', back', n);
      RelatedKept(a, left, right', back', pivot, target, f, n);
      right', back' := RowOp(right', pivot, target, f, n), BackOp(back', pivot, target, f, n);
    }
  }

  lemma ColumnDone(left: Matrix, ranking: seq<int>, n: nat, r: nat)
    requires Square(left, n) && IsAssignment(ranking, n, n) && r < n
    requires LowerZero(left, ranking, n, r) && ColumnZero(left, ranking, n, r, r + 1, n)
    ensures LowerZero(left, ranking, n, r + 1)
  {
  }

  /** The stage of the elimination is the matrix multiplied by an invertible one, with its first columns cleared. */
  lemma {:induction false} StageRelated(a: Matrix, n: nat, k: nat) returns (right: Matrix, back: Matrix)
    requires Square(a, n) && k <= n && NonZeroPivots(a, n, k)
    ensures Forward(a, StageAt(a, n, k).left, right, back, StageAt(a, n, k).ranking, n, k)
    decreases k
  {
    hide Related, LowerZero, Cleared, FirstLargest;
    if k == 0 {
      right, back := Identity(n), Identity(n);
      ForwardInitially(a, StageAt(a, n, 0).ranking, n);
    } else {
      var r := k - 1;
      right, back := StageRelated(a, n, r);
      var st := StageAt(a, n, r);
      SwapKeeps(st.left, st.ranking, r, FirstLargest(st, n, r, n), n);
      var picked := Picked(st, n, r);
      assert At(picked, n, r, r) == Pivot(a, n, r);
      right, back := ClearedRelated(a, picked, right, back, n, r, n);
      ColumnDone(Cleared(picked, n, r, n), picked.ranking, n, r);
    }
  }

  // ----- the backward pass of a triangular matrix without zero pivot

  ghost predicate NonZeroDiagonal(left: Matrix, ranking: seq<int>, n: nat)
    requires Square(left, n) && IsAssignment(ranking, n, n)
  {
    forall r | 0 <= r < n :: left[ranking[r]][r] != 0.0
  }

  lemma DiagonalKept(left: Matrix, ranking: seq<int>, n: nat, r: nat, s: nat, f: real)
    requires Square(left, n) && IsAssignment(ranking, n, n) && s < r < n
    requires LowerZero(left, ranking, n, n) && NonZeroDiagonal(left, ranking, n)
    ensures NonZeroDiagonal(RowOp(left, ranking[r], ranking[s], f, n), ranking, n)
  {
    assert left[ranking[r]][s] == 0.0;
    SubOfZero(left[ranking[s]][s], f);
  }

  /** Clears column `r` above rank `s`, from the diagonal up. */
  lemma {:induction false} ColumnAbove(a: Matrix, left: Matrix, right: Matrix, back: Matrix, ranking: seq<int>, n: nat,
                                       r: nat, s: nat)
    returns (left': Matrix, right': Matrix, back': Matrix)
    requires Square(left, n) && Backward(a, left, right, back, ranking, n, r + 1) && s <= r < n
    requires NonZeroDiagonal(left, ranking, n)
    ensures Square(left', n) && Backward(a, left', right', back', ranking, n, r + 1)
    ensures NonZeroDiagonal(left', ranking, n) && ColumnZero(left', ranking, n, r, s, r)
    decreases r - s
  {
    hide Related, NonZeroDiagonal, LowerZero, UpperZero;
    if s == r {
      left', right', back' := left, right, back;
    } else {
      left', right', back' := ColumnAbove(a, left, right, back, ranking, n, r, s + 1);
      assert left'[ranking[r]][r] != 0.0 by { DiagonalEntry(left', ranking, n, r); }
      var f := left'[ranking[s]][r] / left'[ranking[r]][r];
      RelatedIsSquare(a, left', right', back', n);
      BackwardStep(left', ranking, n, r, s);
      DiagonalKept(left', ranking, n, r, s, f);
      RelatedKept(a, left', right', back', ranking[r], ranking[s], f, n);
      left', right', back' := RowOp(left', ranking[r], ranking[s], f, n), RowOp(right', ranking[r], ranking[s], f, n),
                              BackOp(back', ranking[r], ranking[s], f, n);
    }
  }

  lemma DiagonalEntry(left: Matrix, ranking: seq<int>, n: nat, r: nat)
    requires Square(left, n) && IsAssignment(ranking, n, n) && r < n && NonZeroDiagonal(left, ranking, n)
    ensures left[ranking[r]][r] != 0.0
  {
  }

  lemma AboveDone(left: Matrix, ranking: seq<int>, n: nat, r: nat)
    requires Square(left, n) && IsAssignment(ranking, n, n) && r < n
    requires UpperZero(left, ranking, n, r + 1) && ColumnZero(left, ranking, n, r, 0, r)
    ensures UpperZero(left, ranking, n, r)
  {
  }

  lemma {:induction false} AllAbove(a: Matrix, left: Matrix, right: Matrix, back: Matrix, ranking: seq<int>, n: nat,
      k: nat)
    returns (left': Matrix, right': Matrix, back': Matrix)
    requires Square(left, n) && Backward(a, left, right, back, ranking, n, k) && k <= n
        && NonZeroDiagonal(left, ranking, n)
    ensures Square(left', n) && Backward(a, left', right', back', ranking, n, 0) && NonZeroDiagonal(left', ranking, n)
    decreases k
  {
    hide Related, NonZeroDiagonal, LowerZero, UpperZero;
    if k == 0 {
      left', right', back' := left, right, back;
    } else {
      left', right', back' := ColumnAbove(a, left, right, back, ranking, n, k - 1, 0);
      AboveDone(left', ranking, n, k - 1);
      left', right', back' := AllAbove(a, left', right', back', ranking, n, k - 1);
    }
  }

  /** Without a zero pivot, the matrix has an inverse. */
  lemma PivotsInvert(a: Matrix, n: nat)
    requires Square(a, n) && NonZeroPivots(a, n, n)
    ensures Invertible(a, n)
  {
    hide Related, LowerZero, UpperZero, Pivot, StageAt;
    var right, back := StageRelated(a, n, n);
    var st := StageAt(a, n, n);
    forall r | 0 <= r < n
      ensures st.left[st.ranking[r]][r] != 0.0
    {
      TriangleDiagonal(a, n, r);
    }
    NothingAbove(st.left, st.ranking, n);
    DiagonalInverts(a, st.left, right, back, st.ranking, n);
  }

  lemma DiagonalInverts(a: Matrix, left: Matrix, right: Matrix, back: Matrix, ranking: seq<int>, n: nat)
    requires Square(left, n) && Backward(a, left, right, back, ranking, n, n) && NonZeroDiagonal(left, ranking, n)
    ensures Square(a, n) && Invertible(a, n)
  {
    hide Related, LowerZero, UpperZero, Product, Identity;
    var left', right', back' := AllAbove(a, left, right, back, ranking, n, n);
    RelatedIsSquare(a, left', right', back', n);
    var b := seq(n, r requires 0 <= r < n => Over(right'[ranking[r]], left'[ranking[r]][r]));
    FewerColumns(left', ranking, n);
    BackwardIsInverse(a, left', right', back', ranking, b, n);
  }

  lemma NothingAbove(left: Matrix, ranking: seq<int>, n: nat)
    requires Square(left, n) && IsAssignment(ranking, n, n)
    ensures UpperZero(left, ranking, n, n)
  {
  }

  lemma FewerColumns(left: Matrix, ranking: seq<int>, n: nat)
    requires Square(left, n) && IsAssignment(ranking, n, n) && UpperZero(left, ranking, n, 0)
    ensures UpperZero(left, ranking, n, 1)
  {
  }

  // ----- a zero pivot leaves a vector that the matrix sends to zero

  /** Back substitution: the rows ranked `s` to `r` send the vector to zero. */
  lemma {:induction false} Kernel(left: Matrix, ranking: seq<int>, n: nat, r: nat, s: nat) returns (x: Row)
    requires Square(left, n) && IsAssignment(ranking, n, n) && s <= r < n && LowerZero(left, ranking, n, r)
    requires forall t | 0 <= t < r :: left[ranking[t]][t] != 0.0
    ensures |x| == n && x[r] == 1.0 && (forall c | 0 <= c < n && (c < s || c > r) :: x[c] == 0.0)
    ensures forall t | s <= t < r :: Dot(left[ranking[t]], x) == 0.0
    decreases r - s
  {
    hide Dot;
    if s == r {
      x := Unit(r, n);
    } else {
      var y := Kernel(left, ranking, n, r, s + 1);
      var row := left[ranking[s]];
      var d := Dot(row, y);
      x := y[s := -d / row[s]];
      forall t | s <= t < r
        ensures Dot(left[ranking[t]], x) == 0.0
      {
        DotUpdateRight(left[ranking[t]], y, s, -d / row[s]);
        if t == s {
          Solves(d, row[s]);
        } else {
          assert left[ranking[t]][s] == 0.0;
        }
      }
    }
  }

  lemma Solves(d: real, p: real)
    requires p != 0.0
    ensures d + p * (-d / p - 0.0) == 0.0
  {
    assert p * (-d / p) == -d;
  }

  /** The matrix all of whose columns are `x`. */
  ghost function Columns(x: Row, n: nat): (m: Matrix)
    requires |x| == n
    ensures Square(m, n) && forall j: nat | j < n :: Column(m, j) == x
  {
    var m := seq(n, i requires 0 <= i < n => seq(n, j => x[i]));
    assert forall j: nat | j < n :: Column(m, j) == x;
    m
  }

  ghost predicate Zero(m: Matrix, n: nat) {
    Square(m, n) && forall i, j | 0 <= i < n && 0 <= j < n :: m[i][j] == 0.0
  }

  lemma TimesZero(b: Matrix, m: Matrix, n: nat)
    requires Square(b, n) && Zero(m, n)
    ensures Zero(Product(b, m, n), n)
  {
    forall i, j | 0 <= i < n && 0 <= j < n
      ensures Product(b, m, n)[i][j] == 0.0
    {
      DotZero(b[i], Column(m, j));
    }
  }

  /** A row of the stage at which column `r` offers no pivot sends the vector to zero. */
  lemma KernelOfRow(left: Matrix, ranking: seq<int>, n: nat, r: nat, x: Row, i: nat)
    requires Square(left, n) && IsAssignment(ranking, n, n) && r < n && i < n && LowerZero(left, ranking, n, r)
    requires forall s | r <= s < n :: left[ranking[s]][r] == 0.0
    requires |x| == n && forall c | r < c < n :: x[c] == 0.0
    requires forall t | 0 <= t < r :: Dot(left[ranking[t]], x) == 0.0
    ensures Dot(left[i], x) == 0.0
  {
    CoversAll(ranking, n);
    assert i in ranking;
    var s :| 0 <= s < n && ranking[s] == i;
    if s >= r {
      DotZero(left[i], x);
    }
  }

  lemma SendsToZero(left: Matrix, x: Row, n: nat)
    requires Square(left, n) && |x| == n && forall i | 0 <= i < n :: Dot(left[i], x) == 0.0
    ensures Zero(Product(left, Columns(x, n), n), n)
  {
    hide Dot, Columns;
  }

  /** What `left` sends to zero, so does the matrix it came from. */
  lemma SourceSendsToZero(a: Matrix, left: Matrix, right: Matrix, back: Matrix, m: Matrix, n: nat)
    requires Related(a, left, right, back, n) && Square(m, n) && Zero(Product(left, m, n), n)
    ensures Zero(Product(a, m, n), n)
  {
    hide Product, Zero;
    BackTimesLeft(a, left, right, back, n);
    ProductAssociates(back, left, m, n);
    TimesZero(back, Product(left, m, n), n);
  }

  lemma InverseKeepsNonZero(a: Matrix, b: Matrix, m: Matrix, n: nat)
    requires Square(a, n) && Square(b, n) && Square(m, n) && Product(b, a, n) == Identity(n)
        && Zero(Product(a, m, n), n)
    ensures Zero(m, n)
  {
    hide Product, Zero, Identity;
    ProductAssociates(b, a, m, n);
    TimesZero(b, Product(a, m, n), n);
    IdentityTimes(m, n);
  }

  /** With a vector sent to zero by `left`, the matrix has no inverse. */
  lemma KernelForbids(a: Matrix, left: Matrix, right: Matrix, back: Matrix, x: Row, n: nat, r: nat)
    requires Related(a, left, right, back, n) && |x| == n && r < n && x[r] != 0.0
    requires forall i | 0 <= i < n :: Dot(left[i], x) == 0.0
    ensures !Invertible(a, n)
  {
    hide Dot, Product, Columns, Identity, Related, Zero;
    RelatedIsSquare(a, left, right, back, n);
    var m := Columns(x, n);
    SendsToZero(left, x, n);
    SourceSendsToZero(a, left, right, back, m, n);
    NonZeroColumns(x, n, r);
    if b: Matrix :| Square(b, n) && Product(b, a, n) == Identity(n) {
      InverseKeepsNonZero(a, b, m, n);
    }
  }

  lemma NonZeroColumns(x: Row, n: nat, r: nat)
    requires |x| == n && r < n && x[r] != 0.0
    ensures !Zero(Columns(x, n), n)
  {
    assert Columns(x, n)[r][0] == Column(Columns(x, n), 0)[r];
  }

  /** A zero pivot means that there is no inverse. */
  lemma ZeroPivotForbids(a: Matrix, n: nat, r: nat)
    requires Square(a, n) && r < n && NonZeroPivots(a, n, r) && Pivot(a, n, r) == 0.0
    ensures !Invertible(a, n)
  {
    hide Related, LowerZero, StageAt, FirstLargest;
    var right, back := StageRelated(a, n, r);
    var st := StageAt(a, n, r);
    PickedIsLargest(st, n, r);
    SwapKeeps(st.left, st.ranking, r, FirstLargest(st, n, r, n), n);
    var picked := Picked(st, n, r);
    forall t: nat | t < r
      ensures picked.left[picked.ranking[t]][t] != 0.0
    {
      EarlierPivot(a, n, t, r);
      PickedRanks(st, n, r, t);
    }
    forall s: nat | r <= s < n
      ensures picked.left[picked.ranking[s]][r] == 0.0
    {
      assert Abs(At(picked, n, s, r)) <= Abs(At(picked, n, r, r));
    }
    var x := Kernel(picked.left, picked.ranking, n, r, 0);
    forall i | 0 <= i < n
      ensures Dot(picked.left[i], x) == 0.0
    {
      KernelOfRow(picked.left, picked.ranking, n, r, x, i);
    }
    KernelForbids(a, picked.left, right, back, x, n, r);
  }

  /** Every stage keeps the pivots found before it. */
  lemma EarlierPivot(a: Matrix, n: nat, t: nat, r: nat)
    requires Square(a, n) && t < r <= n
    ensures At(StageAt(a, n, r), n, t, t) == Pivot(a, n, t)
  {
    hide StageAt;
    TriangleDiagonal(a, n, t);
    PivotRowStays(a, n, t, r);
    PivotRowStays(a, n, t, n);
  }

  lemma {:induction false} FirstZeroPivot(a: Matrix, n: nat, k: nat) returns (r: nat)
    requires Square(a, n) && k <= n && !NonZeroPivots(a, n, k)
    ensures r < k && NonZeroPivots(a, n, r) && Pivot(a, n, r) == 0.0
  {
    hide Pivot;
    if k > 0 && !NonZeroPivots(a, n, k - 1) {
      r := FirstZeroPivot(a, n, k - 1);
    } else {
      r := k - 1;
    }
  }

  /** A matrix has an inverse exactly if the elimination meets no zero pivot. */
  lemma InvertibleExactly(a: Matrix, n: nat)
    requires Square(a, n)
    ensures Invertible(a, n) <==> NonZeroPivots(a, n, n)
  {
    hide Pivot;
    if NonZeroPivots(a, n, n) {
      PivotsInvert(a, n);
    } else {
      var r := FirstZeroPivot(a, n, n);
      ZeroPivotForbids(a, n, r);
    }
  }

  /** So a singular matrix always throws, and throws a division by zero. */
  lemma SingularThrows(a: Matrix, n: nat, e: MVException)
    requires Square(a, n) && !Invertible(a, n)
    ensures !Succeeds(a, n)
    ensures Throws(a, n, e) ==> e == DivByPosZero || e == DivByNegZero
  {
    hide Pivot, Factor, Explodes, Calm, Invertible;
    assert !Steady(a, n, n) by { SingularStalls(a, n); }
  }

  lemma SingularStalls(a: Matrix, n: nat)
    requires Square(a, n) && !Invertible(a, n)
    ensures !Steady(a, n, n)
  {
    hide Pivot, Invertible;
    InvertibleExactly(a, n);
    var r: nat :| r < n && Pivot(a, n, r) == 0.0;
    assert Stalls(a, n, r);
  }
}
