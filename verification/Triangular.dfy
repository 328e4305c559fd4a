/**
 The thresholds of core/math/MVTools.cpp, in numbers: which upper triangular matrices `YaMatrix::inverse`
 inverts, and which exception small and large entries raise.
 */
module Triangular {
  import opened Wrappers
  import opened Assignment
  import opened Linear
  import opened Elimination

  ghost predicate UpperTriangular(a: Matrix, n: nat) {
    Square(a, n) && forall i, j | 0 <= j < i < n :: a[i][j] == 0.0
  }

  ghost function InOrder(a: Matrix, n: nat): Stage {
    Stage(a, seq(n, i => i))
  }

  lemma {:induction false} DiagonalIsLargest(a: Matrix, n: nat, r: nat, m: nat)
    requires UpperTriangular(a, n) && r < m <= n
    ensures IsStage(InOrder(a, n), n) && FirstLargest(InOrder(a, n), n, r, m) == r
  {
    if m > r + 1 {
      DiagonalIsLargest(a, n, r, m - 1);
    }
  }

  lemma MinusNothing(x: Row, y: Row)
    requires |x| == |y|
    ensures Minus(x, 0.0, y) == x
  {
    forall k | 0 <= k < |x|
      ensures Minus(x, 0.0, y)[k] == x[k]
    {
      assert Sub(x[k], 0.0, y[k]) == x[k];
    }
  }

  lemma QuotientOfZero(y: real)
    ensures Quotient(0.0, y) == 0.0
  {
  }

  lemma NothingToClear(a: Matrix, n: nat, r: nat)
    requires UpperTriangular(a, n) && r < n
    ensures IsStage(InOrder(a, n), n) && Cleared(InOrder(a, n), n, r, n) == a
  {
    hide Minus, Quotient;
    var st := InOrder(a, n);
    forall i | 0 <= i < n
      ensures Cleared(st, n, r, n)[i] == a[i]
    {
      if i in st.ranking[r + 1..n] {
        assert i > r && a[i][r] == 0.0;
        QuotientOfZero(a[r][r]);
        MinusNothing(a[i], a[r]);
      }
    }
  }

  lemma NothingToDo(a: Matrix, n: nat, r: nat)
    requires UpperTriangular(a, n) && r < n
    ensures IsStage(InOrder(a, n), n) && Picked(InOrder(a, n), n, r) == InOrder(a, n)
    ensures Next(InOrder(a, n), n, r) == InOrder(a, n)
  {
    hide Cleared, FirstLargest;
    DiagonalIsLargest(a, n, r, n);
    NothingToClear(a, n, r);
    assert Picked(InOrder(a, n), n, r).ranking == InOrder(a, n).ranking;
  }

  /** The elimination leaves an upper triangular matrix as it is. */
  lemma {:induction false} StaysTriangular(a: Matrix, n: nat, k: nat)
    requires UpperTriangular(a, n) && k <= n
    ensures IsStage(InOrder(a, n), n) && StageAt(a, n, k) == InOrder(a, n)
    decreases k
  {
    hide Next;
    if k > 0 {
      StaysTriangular(a, n, k - 1);
      NothingToDo(a, n, k - 1);
    }
  }

  lemma TriangularEntries(a: Matrix, n: nat, s: nat, r: nat)
    requires UpperTriangular(a, n) && s < n && r < n
    ensures Pivot(a, n, r) == a[r][r] && Triangle(a, n, s, r) == a[s][r]
        && Factor(a, n, s, r) == Quotient(a[s][r], a[r][r])
  {
    hide StageAt, Quotient, Picked;
    StaysTriangular(a, n, r);
    StaysTriangular(a, n, n);
    NothingToDo(a, n, r);
  }

  lemma RatioBound(x: real, y: real)
    requires y != 0.0
    ensures IsNearInf(x / y) <==> Abs(x) > 1000000000000000000.0 * Abs(y)
  {
    var q := x / y;
    assert q * y == x;
    AbsOfProduct(q, y);
    if Abs(q) > 1000000000000000000.0 {
      Larger(Abs(q), 1000000000000000000.0, Abs(y));
    } else {
      NotLarger(Abs(q), 1000000000000000000.0, Abs(y));
    }
  }

  lemma Larger(x: real, m: real, y: real)
    requires x > m && y > 0.0
    ensures x * y > m * y
  {
    assert (x - m) * y > 0.0;
  }

  lemma NotLarger(x: real, m: real, y: real)
    requires x <= m && y >= 0.0
    ensures x * y <= m * y
  {
    assert (m - x) * y >= 0.0;
  }

  /**
   An upper triangular matrix is inverted exactly if every diagonal entry is at least 1e-18 in magnitude, and no
   entry above one is more than 1e18 times as large.
   */
  lemma TriangularExactly(a: Matrix, n: nat)
    requires UpperTriangular(a, n)
    ensures Succeeds(a, n) <==>
            && (forall r | 0 <= r < n :: a[r][r] <= -0.000000000000000001 || a[r][r] >= 0.000000000000000001)
            && (forall s, r | 0 <= s < r < n :: Abs(a[s][r]) <= 1000000000000000000.0 * Abs(a[r][r]))
  {
    hide Pivot, Factor, Quotient;
    forall r: nat | r < n
      ensures Stalls(a, n, r) <==> -0.000000000000000001 < a[r][r] < 0.000000000000000001
    {
      TriangularEntries(a, n, r, r);
    }
    forall s: nat, r: nat | s < r < n && !Stalls(a, n, r)
      ensures Explodes(a, n, s, r) <==> Abs(a[s][r]) > 1000000000000000000.0 * Abs(a[r][r])
    {
      TriangularEntries(a, n, s, r);
      NonZeroQuotient(a[s][r], a[r][r]);
      RatioBound(a[s][r], a[r][r]);
    }
  }

  lemma NonZeroQuotient(x: real, y: real)
    requires y != 0.0
    ensures Quotient(x, y) == x / y
  {
  }

  /** The exception of a single small entry goes by its sign, and that of zero is the negative one. */
  lemma SmallEntry(a: Matrix, x: real, e: MVException)
    requires a == [[x]]
    ensures Throws(a, 1, e) <==>
            || (0.0 < x < 0.000000000000000001 && e == DivByPosZero)
            || (-0.000000000000000001 < x <= 0.0 && e == DivByNegZero)
  {
    hide Pivot, Factor;
    TriangularEntries(a, 1, 0, 0);
    if Stalls(a, 1, 0) {
      assert Steady(a, 1, 0);
    }
  }

  /** The exception of a single large factor goes by its sign. */
  lemma LargeEntry(a: Matrix, x: real, e: MVException)
    requires a == [[1.0, x], [0.0, 1.0]]
    ensures Throws(a, 2, e) <==>
            (x > 1000000000000000000.0 && e == PosInfValue) || (x < -1000000000000000000.0 && e == NegInfValue)
  {
    hide Pivot, Factor;
    TriangularEntries(a, 2, 0, 0);
    TriangularEntries(a, 2, 0, 1);
    TriangularEntries(a, 2, 1, 1);
    assert Factor(a, 2, 0, 1) == x;
    assert Steady(a, 2, 2);
    if Explodes(a, 2, 0, 1) {
      assert Calm(a, 2, 1, 1);
    }
  }
}
