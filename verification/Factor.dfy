/** Triangular factors of symmetric matrices: what the Cholesky decompositions look for. */
module Factors {
  import opened Assignment
  import opened Linear

  ghost predicate Symmetric(a: Matrix, n: nat) {
    Square(a, n) && forall i, j | 0 <= i < n && 0 <= j < n :: a[i][j] == a[j][i]
  }

  /** A diagonal entry, or a pivot, is positive; in the last row it may be zero. */
  predicate Sound(x: real, i: nat, n: nat) {
    x > 0.0 || (x == 0.0 && i + 1 == n)
  }

  /** Lower triangular with sound diagonal, and L times its transpose is `a`. */
  ghost predicate IsFactor(a: Matrix, l: Matrix, n: nat) {
    && Square(a, n) && Lower(l, n)
    && (forall i | 0 <= i < n :: Sound(l[i][i], i, n))
    && (forall i, j | 0 <= i < n && 0 <= j < n :: Dot(l[i], l[j]) == a[i][j])
  }

  ghost predicate Lower(l: Matrix, n: nat) {
    Square(l, n) && forall i, j | 0 <= i < j < n :: l[i][j] == 0.0
  }

  /** The equation that cell (i, c) of the factor solves: it involves only columns up to `c`. */
  ghost predicate Entry(a: Matrix, l: Matrix, n: nat, i: nat, c: nat)
    requires Square(a, n) && Square(l, n) && c <= i < n
  {
    Dot(l[i][..c + 1], l[c][..c + 1]) == a[i][c]
  }

  lemma {:induction false} DotPrefix(x: Row, y: Row, k: nat)
    requires |x| == |y| && k <= |x| && forall l | k <= l < |x| :: x[l] == 0.0 || y[l] == 0.0
    ensures Dot(x, y) == Dot(x[..k], y[..k])
    decreases |x|
  {
    if k == |x| {
      assert x[..k] == x && y[..k] == y;
    } else {
      var last := |x| - 1;
      DotPrefix(x[..last], y[..last], k);
      assert x[..last][..k] == x[..k] && y[..last][..k] == y[..k];
    }
  }

  lemma DotGrows(x: Row, y: Row, k: nat)
    requires |x| == |y| && k < |x|
    ensures Dot(x[..k + 1], y[..k + 1]) == Dot(x[..k], y[..k]) + x[k] * y[k]
  {
    assert x[..k + 1][..k] == x[..k] && y[..k + 1][..k] == y[..k];
  }

  /** Solving every equation on and below the diagonal is being a factor. */
  lemma EntriesMakeFactor(a: Matrix, l: Matrix, n: nat)
    requires Symmetric(a, n) && Lower(l, n) && forall i | 0 <= i < n :: Sound(l[i][i], i, n)
    requires forall i, c | 0 <= c <= i < n :: Entry(a, l, n, i, c)
    ensures IsFactor(a, l, n)
  {
    forall i, j | 0 <= i < n && 0 <= j < n
      ensures Dot(l[i], l[j]) == a[i][j]
    {
      var hi, lo := if i >= j then i else j, if i >= j then j else i;
      assert Entry(a, l, n, hi, lo);
      DotPrefix(l[hi], l[lo], lo + 1);
      DotCommutes(l[i], l[j]);
    }
  }

  lemma FactorEntry(a: Matrix, l: Matrix, n: nat, i: nat, c: nat)
    requires IsFactor(a, l, n) && c <= i < n
    ensures Entry(a, l, n, i, c)
  {
    DotPrefix(l[i], l[c], c + 1);
  }

  lemma ZeroFactor(p: real, d: real)
    requires d != 0.0 && p * d == 0.0
    ensures p == 0.0
  {
  }

  lemma RootUnique(x: real, y: real)
    requires x >= 0.0 && y >= 0.0 && x * x == y * y
    ensures x == y
  {
    var d, s := x - y, x + y;
    assert d * s == 0.0;
    if s != 0.0 {
      ZeroFactor(d, s);
    }
  }

  lemma QuotientUnique(x: real, y: real, d: real)
    requires d != 0.0 && x * d == y * d
    ensures x == y
  {
    var p := x - y;
    assert p * d == 0.0;
    ZeroFactor(p, d);
  }

  /** The cells that cell (i, c) depends on. */
  ghost predicate Known(a: Matrix, l: Matrix, n: nat, i: nat, c: nat)
    requires Square(a, n) && Square(l, n) && c <= i < n
  {
    && (forall p, q | 0 <= q <= p <= c :: Entry(a, l, n, p, q))
    && (forall q | 0 <= q <= c :: Entry(a, l, n, i, q))
    && (forall p | 0 <= p <= c :: Sound(l[p][p], p, n))
  }

  /** The equations determine the cells: whatever solves them agrees with any factor. */
  lemma {:induction false} Agrees(a: Matrix, l: Matrix, l0: Matrix, n: nat, i: nat, c: nat)
    requires IsFactor(a, l0, n) && Square(l, n) && c <= i < n && Known(a, l, n, i, c)
    ensures l[i][c] == l0[i][c]
    decreases c, i
  {
    PrefixAgrees(a, l, l0, n, i, c);
    FactorEntry(a, l0, n, i, c);
    assert Entry(a, l, n, i, c);
    DotGrows(l[i], l[c], c);
    DotGrows(l0[i], l0[c], c);
    if i == c {
      RootUnique(l[c][c], l0[c][c]);
    } else {
      PrefixAgrees(a, l, l0, n, c, c);
      Agrees(a, l, l0, n, c, c);
      QuotientUnique(l[i][c], l0[i][c], l[c][c]);
    }
  }

  lemma {:induction false} PrefixAgrees(a: Matrix, l: Matrix, l0: Matrix, n: nat, i: nat, c: nat)
    requires IsFactor(a, l0, n) && Square(l, n) && c <= i < n
    requires forall p, q | 0 <= q <= p < c :: Entry(a, l, n, p, q)
    requires forall q | 0 <= q < c :: Entry(a, l, n, i, q)
    requires forall p | 0 <= p < c :: Sound(l[p][p], p, n)
    ensures l[i][..c] == l0[i][..c]
    decreases c, i, 0
  {
    forall q | 0 <= q < c
      ensures l[i][q] == l0[i][q]
    {
      Agrees(a, l, l0, n, i, q);
    }
  }

  /** A matrix has at most one factor. */
  lemma FactorUnique(a: Matrix, l: Matrix, l0: Matrix, n: nat)
    requires IsFactor(a, l, n) && IsFactor(a, l0, n)
    ensures l == l0
  {
    forall i, c | 0 <= i < n && 0 <= c < n
      ensures l[i][c] == l0[i][c]
    {
      if c <= i {
        forall p, q | 0 <= q <= p < n
          ensures Entry(a, l, n, p, q)
        {
          FactorEntry(a, l, n, p, q);
        }
        Agrees(a, l, l0, n, i, c);
      }
    }
    assert forall i | 0 <= i < n :: l[i] == l0[i];
  }

  lemma SquareSound(x: real, i: nat, n: nat)
    requires x >= 0.0
    ensures Sound(x * x, i, n) <==> Sound(x, i, n)
  {
  }

  /** If there is a factor at all, the next pivot is its squared diagonal entry, hence sound. */
  lemma PivotSound(a: Matrix, l: Matrix, l0: Matrix, n: nat, i: nat)
    requires IsFactor(a, l0, n) && Square(l, n) && i < n
    requires forall p, q | 0 <= q <= p < i :: Entry(a, l, n, p, q)
    requires forall q | 0 <= q < i :: Entry(a, l, n, i, q)
    requires forall p | 0 <= p < i :: Sound(l[p][p], p, n)
    ensures Sound(a[i][i] - Dot(l[i][..i], l[i][..i]), i, n)
  {
    PrefixAgrees(a, l, l0, n, i, i);
    FactorEntry(a, l0, n, i, i);
    DotGrows(l0[i], l0[i], i);
    SquareSound(l0[i][i], i, n);
  }
}
