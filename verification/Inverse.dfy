/** `YaMatrix::inverse` of core/math/YaMatrix.h, on the arrays it updates. */
module Inverse {
  import opened Wrappers
  import opened Assignment
  import opened Linear
  import opened Elimination

  /** The first rank, from `r` on, whose row has the largest value in column `r`. */
  method FindPivot(left: array<Row>, ranking: array<int>, r: nat, n: nat) returns (maxrow: nat)
    requires left.Length == ranking.Length == n && IsStage(Stage(left[..], ranking[..]), n) && r < n
    ensures maxrow == FirstLargest(Stage(left[..], ranking[..]), n, r, n) && r <= maxrow < n
    ensures var st := Stage(left[..], ranking[..]);
            && (forall s: nat | r <= s < n :: Abs(At(st, n, s, r)) <= Abs(At(st, n, maxrow, r)))
            && (forall s: nat | r <= s < maxrow :: Abs(At(st, n, s, r)) < Abs(At(st, n, maxrow, r)))
  {
    ghost var st := Stage(left[..], ranking[..]);
    var maxval := Abs(left[ranking[r]][r]);
    maxrow := r;
    for r2 := r + 1 to n
      invariant r <= maxrow < r2 && maxval == Abs(At(st, n, maxrow, r)) && maxrow == FirstLargest(st, n, r, r2)
    {
      var val := Abs(left[ranking[r2]][r]);
      if val > maxval {
        maxval := val;
        maxrow := r2;
      }
    }
    LargestInColumn(st, n, r, n);
  }

  /** Clears column `r` of row `target` with row `pivot`, unless the factor is near infinity. */
  method Eliminate(left: array<Row>, right: array<Row>, pivot: nat, target: nat, r: nat, n: nat, ghost a: Matrix,
                   ghost back: Matrix)
    returns (e: Option<MVException>, ghost back': Matrix)
    requires left != right && left.Length == right.Length == n && Related(a, left[..], right[..], back, n)
    requires pivot < n && target < n && pivot != target && r < n && left[pivot][r] != 0.0
    modifies left, right
    ensures e.Some? <==> IsNearInf(old(left[target][r]) / old(left[pivot][r]))
    ensures e.Some? ==> e.value == InfinityError(old(left[target][r]) / old(left[pivot][r]))
    ensures e.None? ==> left[..] == RowOp(old(left[..]), pivot, target, old(left[target][r]) / old(left[pivot][r]), n)
    ensures e.None? ==> Related(a, left[..], right[..], back', n)
  {
    var factor := left[target][r] / left[pivot][r];
    if IsNearInf(factor) {
      return Some(InfinityError(factor)), back;
    }
    RelatedKept(a, left[..], right[..], back, pivot, target, factor, n);
    back' := BackOp(back, pivot, target, factor, n);
    left[target] := Minus(left[target], factor, left[pivot]);
    right[target] := Minus(right[target], factor, right[pivot]);
    e := None;
  }

  method Swap(ranking: array<int>, r: nat, s: nat)
    requires r < ranking.Length && s < ranking.Length
    modifies ranking
    ensures ranking[..] == Swapped(old(ranking[..]), r, s)
  {
    var temp := ranking[r];
    ranking[r] := ranking[s];
    ranking[s] := temp;
  }

  /** Pivoting makes every factor at most one, so clearing below the pivot never reports infinity. */
  method ClearBelow(left: array<Row>, right: array<Row>, ranking: array<int>, r: nat, n: nat, ghost a: Matrix,
                    ghost back: Matrix)
    returns (ghost back': Matrix)
    requires left != right && left.Length == right.Length == ranking.Length == n && r < n
    requires Forward(a, left[..], right[..], back, ranking[..], n, r)
    requires left[ranking[r]][r] != 0.0
    requires var st := Stage(left[..], ranking[..]); forall s: nat | r <= s < n ::
        Abs(At(st, n, s, r)) <= Abs(At(st, n, r, r))
    modifies left, right
    ensures Forward(a, left[..], right[..], back', ranking[..], n, r + 1)
    ensures left[..] == Cleared(Stage(old(left[..]), ranking[..]), n, r, n)
  {
    hide Cleared;
    back' := back;
    ghost var st := Stage(left[..], ranking[..]);
    ClearedNone(st, n, r);
    for r2 := r + 1 to n
      invariant Forward(a, left[..], right[..], back', ranking[..], n, r)
      invariant left[..] == Cleared(st, n, r, r2)
      invariant ColumnZero(left[..], ranking[..], n, r, r + 1, r2)
      invariant left[ranking[r]][r] != 0.0
    {
      ForwardStep(left[..], ranking[..], n, r, r2);
      ClearedMore(st, n, r, r2);
      ClearedRow(st, n, r, r2, r);
      ClearedRow(st, n, r, r2, r2);
      FactorCancels(At(st, n, r2, r), At(st, n, r, r));
      var e;
      e, back' := Eliminate(left, right, ranking[r], ranking[r2], r, n, a, back');
      assert e.None?;
    }
  }

  /** One column of the forward pass: it fails exactly if the column stalls. */
  method ForwardColumn(left: array<Row>, right: array<Row>, ranking: array<int>, r: nat, n: nat, ghost a: Matrix,
                       ghost back: Matrix)
    returns (e: Option<MVException>, ghost back': Matrix)
    requires left != right && left.Length == right.Length == ranking.Length == n && r < n
    requires Forward(a, left[..], right[..], back, ranking[..], n, r)
    requires Square(a, n) && Stage(left[..], ranking[..]) == StageAt(a, n, r)
    modifies left, right, ranking
    ensures e.None? ==> !Stalls(a, n, r) && Forward(a, left[..], right[..], back', ranking[..], n, r + 1)
    ensures e.None? ==> Stage(left[..], ranking[..]) == StageAt(a, n, r + 1)
    ensures e.Some? ==> Stalls(a, n, r) && e.value == DivisionError(Pivot(a, n, r))
  {
    hide Related, FirstLargest, Cleared;
    RelatedIsSquare(a, left[..], right[..], back, n);
    ghost var st := StageAt(a, n, r);
    var maxrow := FindPivot(left, ranking, r, n);
    SwapKeeps(left[..], ranking[..], r, maxrow, n);
    Swap(ranking, r, maxrow);
    assert Stage(left[..], ranking[..]) == Picked(st, n, r);
    PickedIsLargest(st, n, r);
    back' := back;
    var x := left[ranking[r]][r];
    assert x == Pivot(a, n, r);
    if IsNearZero(x) {
      return Some(DivisionError(x)), back;
    }
    back' := ClearBelow(left, right, ranking, r, n, a, back);
    e := None;
  }

  /** The diagonal and the columns before `k` are still those of the triangular matrix. */
  ghost predicate Untouched(a: Matrix, left: Matrix, ranking: seq<int>, n: nat, k: nat)
    requires Square(a, n) && Square(left, n) && IsAssignment(ranking, n, n)
  {
    forall s: nat, c: nat | s < n && c < n && (c < k || s == c) :: left[ranking[s]][c] == Triangle(a, n, s, c)
  }

  lemma UntouchedStep(a: Matrix, left: Matrix, ranking: seq<int>, n: nat, r: nat, s: nat)
    requires Square(a, n) && Square(left, n) && IsAssignment(ranking, n, n) && s < r < n && left[ranking[r]][r] != 0.0
    requires LowerZero(left, ranking, n, n) && Untouched(a, left, ranking, n, r)
    ensures Untouched(a, RowOp(left, ranking[r], ranking[s], left[ranking[s]][r] / left[ranking[r]][r], n), ranking, n,
        r)
  {
    hide Triangle;
    var f := left[ranking[s]][r] / left[ranking[r]][r];
    var left' := RowOp(left, ranking[r], ranking[s], f, n);
    forall c: nat | c < r
      ensures left'[ranking[s]][c] == left[ranking[s]][c]
    {
      assert left[ranking[r]][c] == 0.0;
      SubOfZero(left[ranking[s]][c], f);
    }
  }

  /** One column of the backward pass: it fails exactly if the last pivot stalls or a factor explodes. */
  method BackwardColumn(left: array<Row>, right: array<Row>, ranking: array<int>, r: nat, n: nat, ghost a: Matrix,
                        ghost back: Matrix)
    returns (e: Option<MVException>, ghost back': Matrix)
    requires left != right && left.Length == right.Length == ranking.Length == n && r < n
    requires Square(a, n) && Square(left[..], n) && Backward(a, left[..], right[..], back, ranking[..], n, r + 1)
    requires Untouched(a, left[..], ranking[..], n, r + 1) && Steady(a, n, r) && Calm(a, n, 0, r + 1)
    modifies left, right
    ensures e.None? ==> Square(left[..], n) && Backward(a, left[..], right[..], back', ranking[..], n, r)
    ensures e.None? ==> Untouched(a, left[..], ranking[..], n, r) && !Stalls(a, n, r) && Calm(a, n, 0, r)
    ensures e.Some? && Stalls(a, n, r) ==> e.value == DivisionError(Pivot(a, n, r))
    ensures e.Some? && !Stalls(a, n, r) ==>
              exists s: nat | Explodes(a, n, s, r) ::
                  Calm(a, n, s + 1, r) && e.value == InfinityError(Factor(a, n, s, r))
  {
    hide Related, Pivot, Triangle;
    RelatedIsSquare(a, left[..], right[..], back, n);
    TriangleDiagonal(a, n, r);
    back' := back;
    var x := left[ranking[r]][r];
    if IsNearZero(x) {
      return Some(DivisionError(x)), back;
    }
    for r2 := r downto 0
      invariant Square(left[..], n) && Backward(a, left[..], right[..], back', ranking[..], n, r + 1)
      invariant ColumnZero(left[..], ranking[..], n, r, r2, r)
      invariant left[ranking[r]][r] == x
      invariant Untouched(a, left[..], ranking[..], n, r) && Calm(a, n, r2, r)
      invariant forall s: nat | s < r2 :: left[ranking[s]][r] == Triangle(a, n, s, r)
    {
      BackwardStep(left[..], ranking[..], n, r, r2);
      UntouchedStep(a, left[..], ranking[..], n, r, r2);
      e, back' := Eliminate(left, right, ranking[r], ranking[r2], r, n, a, back');
      if e.Some? {
        assert Explodes(a, n, r2, r);
        return;
      }
      RelatedIsSquare(a, left[..], right[..], back', n);
    }
    e := None;
  }

  /** The rows of `right`, in the order of `ranking`, each divided by its pivot. */
  method Scale(left: array<Row>, right: array<Row>, ranking: array<int>, n: nat) returns (res: Result<Matrix,
      MVException>)
    requires left.Length == right.Length == ranking.Length == n
    requires Square(left[..], n) && Square(right[..], n) && IsAssignment(ranking[..], n, n)
    ensures res.Ok? ==> Square(res.value, n)
    ensures res.Ok? ==> forall r | 0 <= r < n ::
        !IsNearZero(left[ranking[r]][r]) && res.value[r] == Over(right[ranking[r]], left[ranking[r]][r])
    ensures res.Err? ==> exists r: nat | r < n && IsNearZero(left[ranking[r]][r]) ::
              (forall q | 0 <= q < r :: !IsNearZero(left[ranking[q]][q]))
                  && res.error == DivisionError(left[ranking[r]][r])
  {
    var rows: Matrix := [];
    for r := 0 to n
      invariant |rows| == r && forall s | 0 <= s < r :: |rows[s]| == n
      invariant forall s | 0 <= s < r ::
          !IsNearZero(left[ranking[s]][s]) && rows[s] == Over(right[ranking[s]], left[ranking[s]][s])
    {
      var x := left[ranking[r]][r];
      if IsNearZero(x) {
        return Err(DivisionError(x));
      }
      rows := rows + [Over(right[ranking[r]], x)];
    }
    return Ok(rows);
  }

  lemma ForwardIsBackward(a: Matrix, left: Matrix, right: Matrix, back: Matrix, ranking: seq<int>, n: nat)
    requires Square(a, n) && Forward(a, left, right, back, ranking, n, Last(n))
    requires Stage(left, ranking) == StageAt(a, n, Last(n))
    ensures Square(left, n) && Backward(a, left, right, back, ranking, n, n)
    ensures Untouched(a, left, ranking, n, n)
  {
    hide Related, StageAt;
    if n > 0 {
      LastStage(a, n);
    }
  }

  /** The number of columns that the forward pass clears. */
  function Last(n: nat): nat {
    if n == 0 then 0 else n - 1
  }

  /** The forward pass. */
  method Triangulate(left: array<Row>, right: array<Row>, ranking: array<int>, n: nat, ghost a: Matrix)
    returns (e: Option<MVException>, ghost back: Matrix)
    requires left != right && left.Length == right.Length == ranking.Length == n
    requires Forward(a, left[..], right[..], Identity(n), ranking[..], n, 0)
    requires Square(a, n) && Stage(left[..], ranking[..]) == StageAt(a, n, 0)
    modifies left, right, ranking
    ensures e.None? ==> Forward(a, left[..], right[..], back, ranking[..], n, Last(n))
    ensures e.None? ==> Stage(left[..], ranking[..]) == StageAt(a, n, Last(n)) && Steady(a, n, n - 1)
    ensures e.Some? ==> Throws(a, n, e.value)
  {
    hide Related, LowerZero, StageAt, Pivot, Explodes;
    back := Identity(n);
    var r := 0;
    while r < n - 1
      invariant 0 <= r <= Last(n)
      invariant Forward(a, left[..], right[..], back, ranking[..], n, r)
      invariant Stage(left[..], ranking[..]) == StageAt(a, n, r) && Steady(a, n, r)
    {
      e, back := ForwardColumn(left, right, ranking, r, n, a, back);
      if e.Some? {
        return;
      }
      r := r + 1;
    }
    e := None;
  }

  lemma NothingLeft(a: Matrix, left: Matrix, right: Matrix, back: Matrix, ranking: seq<int>)
    requires Square(a, 0) && Square(left, 0) && Backward(a, left, right, back, ranking, 0, 0)
    ensures Backward(a, left, right, back, ranking, 0, 1) && Untouched(a, left, ranking, 0, 1) && Calm(a, 0, 0, 1)
  {
    hide Related;
  }

  /** The backward pass. */
  method Diagonalize(left: array<Row>, right: array<Row>, ranking: array<int>, n: nat, ghost a: Matrix,
      ghost back: Matrix)
    returns (e: Option<MVException>, ghost back': Matrix)
    requires left != right && left.Length == right.Length == ranking.Length == n
    requires Square(a, n) && Square(left[..], n) && Backward(a, left[..], right[..], back, ranking[..], n, n)
    requires Untouched(a, left[..], ranking[..], n, n) && Steady(a, n, n - 1)
    modifies left, right
    ensures e.None? ==> Square(left[..], n) && Backward(a, left[..], right[..], back', ranking[..], n, 1)
    ensures e.None? ==> Untouched(a, left[..], ranking[..], n, 1) && Calm(a, n, 0, 1)
    ensures e.Some? ==> Throws(a, n, e.value)
  {
    hide Related, LowerZero, UpperZero, Pivot, Factor, Untouched;
    back' := back;
    var r := n - 1;
    while r > 0
      invariant -1 <= r < n && (r == -1 ==> n == 0)
      invariant Square(left[..], n) && Backward(a, left[..], right[..], back', ranking[..], n, r + 1)
      invariant Untouched(a, left[..], ranking[..], n, r + 1) && Calm(a, n, 0, r + 1)
      invariant Steady(a, n, if r < n - 1 then n else n - 1)
    {
      e, back' := BackwardColumn(left, right, ranking, r, n, a, back');
      if e.Some? {
        return;
      }
      r := r - 1;
    }
    if n == 0 {
      NothingLeft(a, left[..], right[..], back', ranking[..]);
    }
    e := None;
  }

  /**
   Returns a matrix exactly if every pivot of the elimination is away from zero and no factor of its
   backward pass is near infinity; the matrix is then the inverse, on both sides.  Otherwise the exception
   is that of the first pivot near zero or, without one, of the first factor near infinity.
   */
  method Invert(a: Matrix, n: nat) returns (res: Result<Matrix, MVException>)
    requires Square(a, n)
    ensures res.Ok? <==> Succeeds(a, n)
    ensures res.Ok? ==> Square(res.value, n)
    ensures res.Ok? ==> Product(res.value, a, n) == Identity(n)
    ensures res.Ok? ==> Product(a, res.value, n) == Identity(n)
    ensures res.Err? ==> Throws(a, n, res.error)
  {
    hide Related, LowerZero, UpperZero, Product, Throws, Succeeds, StageAt, Untouched, Steady, Calm;
    var left := new Row[n](i requires 0 <= i < n => a[i]);
    var right := new Row[n](i requires 0 <= i < n => Unit(i, n));
    var ranking := new int[n](i => i);
    assert left[..] == a && right[..] == Identity(n);
    ForwardInitially(a, ranking[..], n);
    var e, back := Triangulate(left, right, ranking, n, a);
    if e.None? {
      ForwardIsBackward(a, left[..], right[..], back, ranking[..], n);
      e, back := Diagonalize(left, right, ranking, n, a, back);
    }
    if e.Some? {
      OneOutcome(a, n, e.value, e.value);
      return Err(e.value);
    }
    RelatedIsSquare(a, left[..], right[..], back, n);
    res := Scale(left, right, ranking, n);
    Verdict(a, left[..], ranking[..], n, res);
    if res.Ok? {
      BackwardIsInverse(a, left[..], right[..], back, ranking[..], res.value, n);
    }
  }

  /** What the diagonal says at the end. */
  lemma Verdict(a: Matrix, left: Matrix, ranking: seq<int>, n: nat, res: Result<Matrix, MVException>)
    requires Square(a, n) && Square(left, n) && IsAssignment(ranking, n, n)
    requires Untouched(a, left, ranking, n, 1) && Calm(a, n, 0, 1)
    requires res.Ok? ==> forall r | 0 <= r < n :: !IsNearZero(left[ranking[r]][r])
    requires res.Err? ==> exists r: nat | r < n && IsNearZero(left[ranking[r]][r]) ::
               (forall q | 0 <= q < r :: !IsNearZero(left[ranking[q]][q]))
                   && res.error == DivisionError(left[ranking[r]][r])
    ensures res.Ok? <==> Succeeds(a, n)
    ensures res.Err? ==> Throws(a, n, res.error)
  {
    hide Pivot, Triangle, Factor;
    forall r: nat | r < n
      ensures left[ranking[r]][r] == Pivot(a, n, r)
    {
      TriangleDiagonal(a, n, r);
    }
    if res.Err? {
      OneOutcome(a, n, res.error, res.error);
    }
  }
}
