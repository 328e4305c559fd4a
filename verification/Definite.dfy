/**
 Positive definiteness, which core/math/YaMatrix.h asks of the matrices that it decomposes, and its
 relation to triangular factors.
 */
module Definite {
  import opened Assignment
  import opened Linear
  import opened Pivots
  import opened Factors

  /** The quadratic form x A xᵀ. */
  ghost function Form(a: Matrix, x: Row, n: nat): real
    requires Square(a, n) && |x| == n
  {
    Dot(Times(x, a, n), x)
  }

  ghost predicate NonZero(x: Row) {
    exists i | 0 <= i < |x| :: x[i] != 0.0
  }

  ghost predicate SemiDefinite(a: Matrix, n: nat)
    requires Square(a, n)
  {
    forall x: Row | |x| == n :: Form(a, x, n) >= 0.0
  }

  /** Positive semi-definite, and positive definite without the last row and column. */
  ghost predicate AlmostDefinite(a: Matrix, n: nat)
    requires Square(a, n)
  {
    SemiDefinite(a, n) && forall x: Row | |x| == n && NonZero(x) && x[n - 1] == 0.0 :: Form(a, x, n) > 0.0
  }

  ghost function Transposed(m: Matrix, n: nat): (t: Matrix)
    requires Square(m, n)
    ensures Square(t, n) && forall i: nat | i < n :: t[i] == Column(m, i) && Column(t, i) == m[i]
  {
    var t := seq(n, i requires 0 <= i < n => Column(m, i));
    assert forall i: nat | i < n :: Column(t, i) == m[i];
    t
  }

  // ----- the form of a product L Lᵀ is a square

  ghost function Mul(p: real, q: real): real {
    p * q
  }

  lemma SameSign(p: real, q: real)
    requires (p > 0.0 && q > 0.0) || (p < 0.0 && q < 0.0)
    ensures Mul(p, q) > 0.0
  {
  }

  lemma NoSign(p: real, q: real)
    requires p == 0.0
    ensures Mul(p, q) == 0.0
  {
  }

  lemma DotLast(x: Row, y: Row, k: nat)
    requires |x| == |y| == k + 1
    ensures Dot(x, y) == Dot(x[..k], y[..k]) + Mul(x[k], y[k])
  {
  }

  lemma {:induction false} DotSquare(x: Row)
    ensures Dot(x, x) >= 0.0 && (NonZero(x) ==> Dot(x, x) > 0.0)
  {
    if |x| > 0 {
      hide Mul, Dot;
      var k := |x| - 1;
      DotSquare(x[..k]);
      DotLast(x, x, k);
      if x[k] != 0.0 {
        SameSign(x[k], x[k]);
      } else {
        NoSign(x[k], x[k]);
        if NonZero(x) {
          var i :| 0 <= i < k && x[i] != 0.0;
          assert x[..k][i] != 0.0;
        }
      }
    }
  }

  lemma DotOfMinus(x: Row, f: real, y: Row, z: Row)
    requires |x| == |y| == |z|
    ensures Dot(Minus(x, f, y), z) == Sub(Dot(x, z), f, Dot(y, z))
  {
    hide Dot;
    DotMinus(x, f, y, z);
  }

  lemma DotLinear(u: Row, v: Row, f: real, e: Row)
    requires |u| == |v| == |e|
    ensures Dot(u, Minus(v, f, e)) == Sub(Dot(u, v), f, Dot(u, e))
  {
    hide Dot, Sub, Minus;
    DotCommutes(u, Minus(v, f, e));
    DotCommutes(u, v);
    DotCommutes(u, e);
    DotOfMinus(v, f, e, u);
  }

  lemma DotUnit(u: Row, k: nat, n: nat)
    requires |u| == n && k < n
    ensures Dot(u, Unit(k, n)) == u[k]
  {
    DotSingle(u, Unit(k, n), k);
  }

  /** The transpose moves to the other side of a dot product. */
  lemma {:induction false} Adjoint(y: Row, m: Matrix, x: Row, n: nat, k: nat)
    requires Square(m, n) && |x| == |y| == n && k <= n && forall l | k <= l < n :: x[l] == 0.0
    ensures Dot(Times(y, Transposed(m, n), n), x) == Dot(y, Times(x, m, n))
    decreases k
  {
    hide Dot;
    var t := Times(y, Transposed(m, n), n);
    if k == 0 {
      DotZero(t, x);
      forall j | 0 <= j < n
        ensures Times(x, m, n)[j] == 0.0
      {
        DotZero(x, Column(m, j));
      }
      DotZero(y, Times(x, m, n));
    } else {
      var x', e, f := x[k - 1 := 0.0], Unit(k - 1, n), -x[k - 1];
      forall l | 0 <= l < n
        ensures x[l] == Minus(x', f, e)[l]
      {
        assert e[l] == 0.0 || e[l] == 1.0;
      }
      assert x == Minus(x', f, e);
      Adjoint(y, m, x', n, k - 1);
      TimesUnit(k - 1, m, n);
      TimesMinus(x', f, e, m, n);
      DotLinear(t, x', f, e);
      DotLinear(y, Times(x', m, n), f, m[k - 1]);
      DotUnit(t, k - 1, n);
    }
  }

  ghost function Squared(l: Matrix, n: nat): (g: Matrix)
    requires Square(l, n)
    ensures Square(g, n) && forall i, j | 0 <= i < n && 0 <= j < n :: g[i][j] == Dot(l[i], l[j])
  {
    Product(l, Transposed(l, n), n)
  }

  lemma FormIsSquare(l: Matrix, x: Row, n: nat)
    requires Square(l, n) && |x| == n
    ensures Form(Squared(l, n), x, n) == Dot(Times(x, l, n), Times(x, l, n))
  {
    hide Dot, Transposed, Times, Product;
    TimesAssociates(x, l, Transposed(l, n), n, n);
    Adjoint(Times(x, l, n), l, x, n, n);
  }

  // ----- a factor makes the matrix definite

  lemma FactorIsSquared(a: Matrix, l: Matrix, n: nat)
    requires IsFactor(a, l, n)
    ensures a == Squared(l, n)
  {
    hide Dot, Squared;
    var g := Squared(l, n);
    forall i | 0 <= i < n
      ensures a[i] == g[i]
    {
      assert forall j | 0 <= j < n :: a[i][j] == Dot(l[i], l[j]) == g[i][j];
    }
  }

  lemma {:induction false} LastNonZero(x: Row, k: nat) returns (i: nat)
    requires k <= |x| && exists i | 0 <= i < k :: x[i] != 0.0
    ensures i < k && x[i] != 0.0 && forall j | i < j < k :: x[j] == 0.0
  {
    if x[k - 1] != 0.0 {
      i := k - 1;
    } else {
      i := LastNonZero(x, k - 1);
    }
  }

  /** The last non-zero entry of x meets the diagonal of L alone. */
  lemma TriangularTimes(l: Matrix, x: Row, n: nat, i: nat)
    requires Lower(l, n) && |x| == n && i < n && forall j | i < j < n :: x[j] == 0.0
    ensures Times(x, l, n)[i] == x[i] * l[i][i]
  {
    DotSingle(x, Column(l, i), i);
  }

  lemma NotBothZero(p: real, q: real)
    requires p != 0.0 && q > 0.0
    ensures p * q != 0.0
  {
  }

  lemma FactorIsDefinite(a: Matrix, l: Matrix, n: nat)
    requires IsFactor(a, l, n)
    ensures AlmostDefinite(a, n)
  {
    hide Dot, Times, Squared;
    FactorIsSquared(a, l, n);
    forall x: Row | |x| == n
      ensures Form(a, x, n) >= 0.0
      ensures NonZero(x) && x[n - 1] == 0.0 ==> Form(a, x, n) > 0.0
    {
      var y := Times(x, l, n);
      FormIsSquare(l, x, n);
      DotSquare(y);
      if NonZero(x) && x[n - 1] == 0.0 {
        var i := LastNonZero(x, n);
        TriangularTimes(l, x, n, i);
        NotBothZero(x[i], l[i][i]);
        assert y[i] != 0.0;
      }
    }
  }

  // ----- a pivot that is not sound shows that the matrix is not

  /** Rows up to `i`, with a zero in place of row `i`'s diagonal, and zeros below. */
  ghost function Trimmed(l: Matrix, n: nat, i: nat): (t: Matrix)
    requires Square(l, n) && i < n
    ensures Square(t, n)
  {
    seq(n, p requires 0 <= p < n => if p < i then l[p] else if p == i then l[i][i := 0.0] else seq(n, k => 0.0))
  }

  lemma TrimmedLower(l: Matrix, n: nat, i: nat)
    requires Lower(l, n) && i < n
    ensures Lower(Trimmed(l, n, i), n)
    ensures forall p, c | 0 <= p < n && i <= c < n :: Trimmed(l, n, i)[p][c] == 0.0
    ensures forall p | 0 <= p < i :: Trimmed(l, n, i)[p][p] == l[p][p]
  {
  }

  /** The solved rows are rows of a product, but for the pivot. */
  lemma TrimmedEntry(a: Matrix, l: Matrix, n: nat, i: nat, p: nat, q: nat)
    requires Symmetric(a, n) && Lower(l, n) && i < n && q <= p <= i
    requires q < p || p < i ==> Entry(a, l, n, p, q)
    ensures var t := Trimmed(l, n, i);
            Dot(t[p], t[q]) == if p == i && q == i then Dot(l[i][..i], l[i][..i]) else a[p][q]
  {
    hide Dot;
    var t := Trimmed(l, n, i);
    var m := if q == i then i else q + 1;
    DotPrefix(t[p], t[q], m);
    assert t[p][..m] == l[p][..m] && t[q][..m] == l[q][..m];
  }

  ghost predicate SolvedUpTo(a: Matrix, l: Matrix, n: nat, i: nat)
    requires Square(a, n) && Square(l, n) && i < n
  {
    && (forall p, q | 0 <= q <= p < i :: Entry(a, l, n, p, q))
    && (forall q | 0 <= q < i :: Entry(a, l, n, i, q))
    && (forall p | 0 <= p < i :: Sound(l[p][p], p, n))
  }

  /** On the leading rows the matrix is that product plus the pivot in the corner. */
  lemma CornerEntry(a: Matrix, l: Matrix, t: Matrix, n: nat, i: nat, p: nat, q: nat)
    requires Symmetric(a, n) && Square(l, n) && Lower(l, n) && i < n && SolvedUpTo(a, l, n, i)
    requires Square(t, n) && t == Trimmed(l, n, i) && p <= i && q <= i
    ensures Dot(t[p], t[q]) == if p == i && q == i then Dot(l[i][..i], l[i][..i]) else a[p][q]
  {
    hide Dot, Trimmed, Entry, Lower, Sound;
    var hi, lo := if p >= q then p else q, if p >= q then q else p;
    TrimmedEntry(a, l, n, i, hi, lo);
    DotCommutes(t[p], t[q]);
  }

  /** A change of one corner entry, met by a vector with 1 there and 0 beyond. */
  lemma FormWithCorner(a: Matrix, g: Matrix, x: Row, d: real, n: nat, i: nat)
    requires Square(a, n) && Square(g, n) && |x| == n && i < n && x[i] == 1.0 && forall c | i < c < n :: x[c] == 0.0
    requires forall p, q | 0 <= p <= i && 0 <= q <= i :: a[p][q] == if p == i && q == i then g[p][q] + d else g[p][q]
    ensures Form(a, x, n) == Form(g, x, n) + d
  {
    hide Dot;
    var u, v := Times(x, a, n), Times(x, g, n);
    forall q | 0 <= q <= i
      ensures u[q] == if q == i then v[q] + d else v[q]
    {
      ColumnWithCorner(a, g, x, d, n, i, q);
    }
    SameProducts(u, v[i := v[i] + d], x);
    DotUpdateLeft(v, x, i, v[i] + d);
  }

  lemma ColumnWithCorner(a: Matrix, g: Matrix, x: Row, d: real, n: nat, i: nat, q: nat)
    requires Square(a, n) && Square(g, n) && |x| == n && q <= i < n && x[i] == 1.0 && forall c | i < c < n ::
        x[c] == 0.0
    requires forall p | 0 <= p <= i :: a[p][q] == if p == i && q == i then g[p][q] + d else g[p][q]
    ensures Dot(x, Column(a, q)) == if q == i then Dot(x, Column(g, q)) + d else Dot(x, Column(g, q))
  {
    hide Dot;
    var u, v := Column(a, q), Column(g, q);
    var w := if q == i then v[i := v[i] + d] else v;
    DotCommutes(x, u);
    DotCommutes(x, w);
    SameProducts(u, w, x);
    if q == i {
      DotUpdateRight(x, v, i, v[i] + d);
    }
  }

  lemma {:induction false} SameProducts(u: Row, v: Row, x: Row)
    requires |u| == |v| == |x| && forall k | 0 <= k < |x| :: u[k] == v[k] || x[k] == 0.0
    ensures Dot(u, x) == Dot(v, x)
  {
    if |x| > 0 {
      var k := |x| - 1;
      SameProducts(u[..k], v[..k], x[..k]);
      assert u[k] * x[k] == v[k] * x[k];
    }
  }

  /** A vector that the trimmed rows send to zero: 1 at `i`, 0 beyond, the rest by back substitution. */
  lemma TrimmedKernel(l: Matrix, n: nat, i: nat) returns (x: Row)
    requires Lower(l, n) && i < n && forall p | 0 <= p < i :: l[p][p] > 0.0
    ensures |x| == n && x[i] == 1.0 && forall c | i < c < n :: x[c] == 0.0
    ensures forall c | 0 <= c < n :: Times(x, Trimmed(l, n, i), n)[c] == 0.0
  {
    hide Dot, Trimmed, Transposed;
    var t := Trimmed(l, n, i);
    TrimmedLower(l, n, i);
    var order := seq(n, k => k);
    x := Kernel(Transposed(t, n), order, n, i, 0);
    forall c | 0 <= c < n
      ensures Dot(x, Column(t, c)) == 0.0
    {
      if c < i {
        assert Transposed(t, n)[order[c]] == Column(t, c);
        DotCommutes(x, Column(t, c));
      } else {
        DotZero(x, Column(t, c));
      }
    }
  }

  /** A pivot is the value of the form somewhere; if it is not sound, the matrix is not almost definite. */
  lemma UnsoundPivot(a: Matrix, l: Matrix, n: nat, i: nat)
    requires Symmetric(a, n) && Lower(l, n) && i < n && SolvedUpTo(a, l, n, i)
    requires !Sound(a[i][i] - Dot(l[i][..i], l[i][..i]), i, n)
    ensures !AlmostDefinite(a, n)
  {
    hide Dot, Trimmed, Squared, Entry, Times, Form;
    var t, d := Trimmed(l, n, i), a[i][i] - Dot(l[i][..i], l[i][..i]);
    var x := TrimmedKernel(l, n, i);
    forall p, q | 0 <= p <= i && 0 <= q <= i
      ensures a[p][q] == if p == i && q == i then Squared(t, n)[p][q] + d else Squared(t, n)[p][q]
    {
      CornerEntry(a, l, t, n, i, p, q);
    }
    FormWithCorner(a, Squared(t, n), x, d, n, i);
    FormIsSquare(t, x, n);
    DotZero(Times(x, t, n), Times(x, t, n));
    assert Form(a, x, n) == d;
  }

  // ----- semi-definite is not enough

  lemma ExampleForm(a: Matrix, x: Row)
    requires a == [[0.0, 0.0], [0.0, 1.0]] && |x| == 2
    ensures Form(a, x, 2) == x[1] * x[1]
  {
    hide Dot;
    var y := Times(x, a, 2);
    DotZero(x, Column(a, 0));
    DotSingle(x, Column(a, 1), 1);
    assert y[0] == 0.0 && y[1] == x[1];
    DotSingle(y, x, 1);
  }

  /** A positive semi-definite matrix that has no factor with sound diagonal. */
  lemma SemiDefiniteIsNotEnough(a: Matrix)
    requires a == [[0.0, 0.0], [0.0, 1.0]]
    ensures Symmetric(a, 2) && SemiDefinite(a, 2) && !AlmostDefinite(a, 2) && forall l :: !IsFactor(a, l, 2)
  {
    hide Form, Dot;
    forall x: Row | |x| == 2
      ensures Form(a, x, 2) == x[1] * x[1]
    {
      ExampleForm(a, x);
    }
    var e := [1.0, 0.0];
    assert e[0] != 0.0 && NonZero(e) && Form(a, e, 2) == 0.0;
    forall l | IsFactor(a, l, 2)
      ensures false
    {
      FactorIsDefinite(a, l, 2);
    }
  }
}
