/** Row vectors and matrices over the reals, as core/math/YaMatrix.h uses them. */
module Linear {
  import opened Assignment

  type Row = seq<real>

  predicate Square(a: Matrix, n: nat) {
    |a| == n && forall i | 0 <= i < n :: |a[i]| == n
  }

  function Dot(x: Row, y: Row): real
    requires |x| == |y|
  {
    if |x| == 0 then 0.0 else Dot(x[..|x| - 1], y[..|y| - 1]) + x[|x| - 1] * y[|y| - 1]
  }

  function Column(a: Matrix, j: nat): (c: Row)
    requires forall i | 0 <= i < |a| :: j < |a[i]|
    ensures |c| == |a| && forall i | 0 <= i < |a| :: c[i] == a[i][j]
  {
    seq(|a|, i requires 0 <= i < |a| => a[i][j])
  }

  /** The product of a row vector and a square matrix. */
  function Times(x: Row, a: Matrix, n: nat): (r: Row)
    requires |x| == n && Square(a, n)
    ensures |r| == n && forall j | 0 <= j < n :: r[j] == Dot(x, Column(a, j))
  {
    seq(n, j requires 0 <= j < n => Dot(x, Column(a, j)))
  }

  /** The matrix product. */
  function Product(x: Matrix, a: Matrix, n: nat): (r: Matrix)
    requires Square(x, n) && Square(a, n)
    ensures Square(r, n) && forall i | 0 <= i < n :: r[i] == Times(x[i], a, n)
  {
    seq(n, i requires 0 <= i < n => Times(x[i], a, n))
  }

  function Unit(r: nat, n: nat): (e: Row)
    ensures |e| == n && forall j | 0 <= j < n :: e[j] == if j == r then 1.0 else 0.0
  {
    seq(n, j => if j == r then 1.0 else 0.0)
  }

  function Identity(n: nat): (a: Matrix)
    ensures Square(a, n) && forall i | 0 <= i < n :: a[i] == Unit(i, n)
  {
    seq(n, i requires 0 <= i => Unit(i, n))
  }

  function Sub(x: real, f: real, y: real): real {
    x - f * y
  }

  /** x - f * y, the row operation of Gauss-Jordan elimination. */
  function Minus(x: Row, f: real, y: Row): (r: Row)
    requires |x| == |y|
    ensures |r| == |x| && forall k | 0 <= k < |x| :: r[k] == Sub(x[k], f, y[k])
  {
    seq(|x|, k requires 0 <= k < |x| => Sub(x[k], f, y[k]))
  }

  function Over(x: Row, d: real): (r: Row)
    requires d != 0.0
    ensures |r| == |x| && forall k | 0 <= k < |x| :: r[k] == x[k] / d
  {
    seq(|x|, k requires 0 <= k < |x| => x[k] / d)
  }

  lemma MinusStep(a: real, b: real, x: real, y: real, z: real, f: real)
    ensures (a - f * b) + (x - f * y) * z == (a + x * z) - f * (b + y * z)
  {
  }

  lemma OverStep(a: real, x: real, z: real, d: real)
    requires d != 0.0
    ensures a / d + (x / d) * z == (a + x * z) / d
  {
    var q := x / d;
    assert q * d == x;
    assert (q * z) * d == x * z;
    assert (a / d) * d == a;
    assert (a / d + q * z) * d == a + x * z;
  }

  lemma {:induction false} DotMinus(x: Row, f: real, y: Row, z: Row)
    requires |x| == |y| == |z|
    ensures Dot(Minus(x, f, y), z) == Dot(x, z) - f * Dot(y, z)
  {
    if |x| > 0 {
      var k := |x| - 1;
      var m := Minus(x, f, y);
      forall i | 0 <= i < k
        ensures m[..k][i] == Minus(x[..k], f, y[..k])[i]
      {
        assert m[i] == Sub(x[i], f, y[i]);
      }
      assert m[..k] == Minus(x[..k], f, y[..k]);
      DotMinus(x[..k], f, y[..k], z[..k]);
      MinusStep(Dot(x[..k], z[..k]), Dot(y[..k], z[..k]), x[k], y[k], z[k], f);
    }
  }

  lemma {:induction false} DotOver(x: Row, d: real, z: Row)
    requires |x| == |z| && d != 0.0
    ensures Dot(Over(x, d), z) == Dot(x, z) / d
  {
    if |x| > 0 {
      var k := |x| - 1;
      assert Over(x, d)[..k] == Over(x[..k], d);
      DotOver(x[..k], d, z[..k]);
      OverStep(Dot(x[..k], z[..k]), x[k], z[k], d);
    }
  }

  lemma {:induction false} DotZero(x: Row, y: Row)
    requires |x| == |y| && forall k | 0 <= k < |x| :: x[k] == 0.0 || y[k] == 0.0
    ensures Dot(x, y) == 0.0
  {
    if |x| > 0 {
      DotZero(x[..|x| - 1], y[..|y| - 1]);
    }
  }

  /** A dot product in which only position `k` contributes. */
  lemma {:induction false} DotSingle(x: Row, y: Row, k: nat)
    requires |x| == |y| && k < |x| && forall l | 0 <= l < |x| && l != k :: x[l] == 0.0 || y[l] == 0.0
    ensures Dot(x, y) == x[k] * y[k]
  {
    var last := |x| - 1;
    if k == last {
      DotZero(x[..last], y[..last]);
    } else {
      DotSingle(x[..last], y[..last], k);
    }
  }

  lemma TimesMinus(x: Row, f: real, y: Row, a: Matrix, n: nat)
    requires |x| == |y| == n && Square(a, n)
    ensures Times(Minus(x, f, y), a, n) == Minus(Times(x, a, n), f, Times(y, a, n))
  {
    forall j | 0 <= j < n
      ensures Dot(Minus(x, f, y), Column(a, j)) == Sub(Dot(x, Column(a, j)), f, Dot(y, Column(a, j)))
    {
      DotMinus(x, f, y, Column(a, j));
    }
    var l, r := Times(Minus(x, f, y), a, n), Minus(Times(x, a, n), f, Times(y, a, n));
    forall j | 0 <= j < n
      ensures l[j] == r[j]
    {
      assert r[j] == Sub(Times(x, a, n)[j], f, Times(y, a, n)[j]);
    }
  }

  lemma TimesOver(x: Row, d: real, a: Matrix, n: nat)
    requires |x| == n && Square(a, n) && d != 0.0
    ensures Times(Over(x, d), a, n) == Over(Times(x, a, n), d)
  {
    forall j | 0 <= j < n
      ensures Dot(Over(x, d), Column(a, j)) == Dot(x, Column(a, j)) / d
    {
      DotOver(x, d, Column(a, j));
    }
  }

  lemma TimesUnit(r: nat, a: Matrix, n: nat)
    requires r < n && Square(a, n)
    ensures Times(Unit(r, n), a, n) == a[r]
  {
    forall j | 0 <= j < n
      ensures Dot(Unit(r, n), Column(a, j)) == a[r][j]
    {
      DotSingle(Unit(r, n), Column(a, j), r);
    }
  }

  // ----- associativity

  lemma {:induction false} TimesAssociates(x: Row, b: Matrix, a: Matrix, n: nat, k: nat)
    requires |x| == n && Square(b, n) && Square(a, n) && k <= n
    requires forall l | k <= l < n :: x[l] == 0.0
    ensures Times(Times(x, b, n), a, n) == Times(x, Product(b, a, n), n)
    decreases k
  {
    var p := Product(b, a, n);
    if k == 0 {
      forall j | 0 <= j < n
        ensures Times(x, b, n)[j] == 0.0 && Times(x, p, n)[j] == 0.0
      {
        DotZero(x, Column(b, j));
        DotZero(x, Column(p, j));
      }
      forall j | 0 <= j < n
        ensures Times(Times(x, b, n), a, n)[j] == 0.0
      {
        DotZero(Times(x, b, n), Column(a, j));
      }
    } else {
      var x', e, f := x[k - 1 := 0.0], Unit(k - 1, n), -x[k - 1];
      forall l | 0 <= l < n
        ensures x[l] == Minus(x', f, e)[l]
      {
        assert e[l] == 0.0 || e[l] == 1.0;
      }
      assert x == Minus(x', f, e);
      TimesAssociates(x', b, a, n, k - 1);
      TimesUnit(k - 1, b, n);
      TimesUnit(k - 1, p, n);
      TimesMinus(x', f, e, b, n);
      TimesMinus(x', f, e, p, n);
      TimesMinus(Times(x', b, n), f, b[k - 1], a, n);
    }
  }

  lemma ProductAssociates(c: Matrix, b: Matrix, a: Matrix, n: nat)
    requires Square(c, n) && Square(b, n) && Square(a, n)
    ensures Product(Product(c, b, n), a, n) == Product(c, Product(b, a, n), n)
  {
    forall i | 0 <= i < n
      ensures Product(Product(c, b, n), a, n)[i] == Product(c, Product(b, a, n), n)[i]
    {
      TimesAssociates(c[i], b, a, n, n);
    }
  }

  lemma IdentityTimes(a: Matrix, n: nat)
    requires Square(a, n)
    ensures Product(Identity(n), a, n) == a
  {
    forall i | 0 <= i < n
      ensures Product(Identity(n), a, n)[i] == a[i]
    {
      TimesUnit(i, a, n);
    }
  }

  // ----- changing one entry, reordering the entries

  lemma {:induction false} DotUpdateRight(x: Row, y: Row, k: nat, b: real)
    requires |x| == |y| && k < |x|
    ensures Dot(x, y[k := b]) == Dot(x, y) + x[k] * (b - y[k])
  {
    var last := |x| - 1;
    if k == last {
      assert y[k := b][..last] == y[..last];
    } else {
      assert y[k := b][..last] == y[..last][k := b];
      DotUpdateRight(x[..last], y[..last], k, b);
    }
  }

  lemma {:induction false} DotCommutes(x: Row, y: Row)
    requires |x| == |y|
    ensures Dot(x, y) == Dot(y, x)
  {
    if |x| > 0 {
      DotCommutes(x[..|x| - 1], y[..|y| - 1]);
    }
  }

  lemma DotUpdateLeft(x: Row, y: Row, k: nat, b: real)
    requires |x| == |y| && k < |x|
    ensures Dot(x[k := b], y) == Dot(x, y) + (b - x[k]) * y[k]
  {
    hide Dot;
    DotCommutes(x[k := b], y);
    DotCommutes(x, y);
    DotUpdateRight(y, x, k, b);
  }

  function Reorder(x: Row, p: seq<int>): (r: Row)
    requires forall i | 0 <= i < |p| :: 0 <= p[i] < |x|
    ensures |r| == |p| && forall i | 0 <= i < |p| :: r[i] == x[p[i]]
  {
    seq(|p|, i requires 0 <= i < |p| => x[p[i]])
  }

  function Entrywise(x: Row, y: Row): (r: Row)
    requires |x| == |y|
    ensures |r| == |x| && forall k | 0 <= k < |x| :: r[k] == x[k] * y[k]
  {
    seq(|x|, k requires 0 <= k < |x| => x[k] * y[k])
  }

  lemma {:induction false} DotIsSum(x: Row, y: Row)
    requires |x| == |y|
    ensures Dot(x, y) == Sum(Entrywise(x, y))
  {
    if |x| > 0 {
      var k := |x| - 1;
      DotIsSum(x[..k], y[..k]);
      var e := Entrywise(x, y);
      forall i | 0 <= i < k
        ensures e[..k][i] == Entrywise(x[..k], y[..k])[i]
      {
        assert e[i] == x[i] * y[i] && x[..k][i] == x[i] && y[..k][i] == y[i];
      }
      assert e[..k] == Entrywise(x[..k], y[..k]);
    }
  }

  lemma {:induction false} DotReorderedIsSumAt(x: Row, y: Row, p: seq<int>)
    requires |x| == |y| && forall i | 0 <= i < |p| :: 0 <= p[i] < |x|
    ensures Dot(Reorder(x, p), Reorder(y, p)) == SumAt(Entrywise(x, y), p)
  {
    if |p| > 0 {
      var k := |p| - 1;
      DotReorderedIsSumAt(x, y, p[..k]);
      assert Reorder(x, p)[..k] == Reorder(x, p[..k]) && Reorder(y, p)[..k] == Reorder(y, p[..k]);
      assert Entrywise(x, y)[p[k]] == x[p[k]] * y[p[k]];
    }
  }

  /** A permutation of the entries does not change a dot product. */
  lemma DotReordered(x: Row, y: Row, p: seq<int>)
    requires |x| == |y| && IsAssignment(p, |x|, |x|)
    ensures Dot(Reorder(x, p), Reorder(y, p)) == Dot(x, y)
  {
    hide Dot, Sum, SumAt, Entrywise, Reorder;
    CoversAll(p, |x|);
    DotIsSum(x, y);
    DotReorderedIsSumAt(x, y, p);
    SumSplits(Entrywise(x, y), p);
    SumNonPositive(Without(Entrywise(x, y), p));
  }
}
