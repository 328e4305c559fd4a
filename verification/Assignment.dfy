/**
 The assignment problem that core/math/HungarianSolver.cpp solves, stated without the algorithm:
 cost tables, injective row-to-column assignments, their total cost, and the duality argument
 that turns a feasible pair of potentials into a certificate of optimality.
 */
module Assignment {

  type Matrix = seq<seq<real>>

  predicate IsMatrix(c: Matrix, n: nat, m: nat) {
    |c| == n && forall i | 0 <= i < n :: |c[i]| == m
  }

  /** A column for every row, all columns distinct. */
  ghost predicate IsAssignment(a: seq<int>, n: nat, m: nat) {
    && |a| == n
    && (forall i | 0 <= i < n :: 0 <= a[i] < m)
    && (forall i, k | 0 <= i < k < n :: a[i] != a[k])
  }

  /** The total cost of giving rows 0, 1, ... the columns of `a`. */
  function Cost(c: Matrix, a: seq<int>): real
    requires |a| <= |c| && forall i | 0 <= i < |a| :: 0 <= a[i] < |c[i]|
  {
    if |a| == 0 then 0.0 else Cost(c, a[..|a| - 1]) + c[|a| - 1][a[|a| - 1]]
  }

  /** `a` costs no more than any other assignment. */
  ghost predicate IsOptimal(c: Matrix, a: seq<int>, n: nat, m: nat)
    requires IsMatrix(c, n, m)
  {
    && IsAssignment(a, n, m)
    && forall b | IsAssignment(b, n, m) :: Cost(c, a) <= Cost(c, b)
  }

  /** Row potentials `u` and column potentials `v <= 0` that underestimate every cost. */
  ghost predicate Feasible(c: Matrix, u: seq<real>, v: seq<real>, n: nat, m: nat)
    requires IsMatrix(c, n, m)
  {
    && |u| == n && |v| == m
    && (forall j | 0 <= j < m :: v[j] <= 0.0)
    && (forall i, j | 0 <= i < n && 0 <= j < m :: c[i][j] - u[i] - v[j] >= 0.0)
  }

  /** The assignment uses only tight cells, and every column it leaves out has potential zero. */
  ghost predicate Tight(c: Matrix, a: seq<int>, u: seq<real>, v: seq<real>, n: nat, m: nat)
    requires IsMatrix(c, n, m) && IsAssignment(a, n, m) && |u| == n && |v| == m
  {
    && (forall i | 0 <= i < n :: c[i][a[i]] - u[i] - v[a[i]] == 0.0)
    && (forall j | 0 <= j < m && j !in a :: v[j] == 0.0)
  }

  // ----- sums

  function Sum(v: seq<real>): real {
    if |v| == 0 then 0.0 else Sum(v[..|v| - 1]) + v[|v| - 1]
  }

  /** The sum of `v` over the columns listed in `a`. */
  function SumAt(v: seq<real>, a: seq<int>): real
    requires forall i | 0 <= i < |a| :: 0 <= a[i] < |v|
  {
    if |a| == 0 then 0.0 else SumAt(v, a[..|a| - 1]) + v[a[|a| - 1]]
  }

  lemma {:induction false} SumUpdate(v: seq<real>, k: nat, x: real)
    requires k < |v|
    ensures Sum(v[k := x]) == Sum(v) - v[k] + x
  {
    var last := |v| - 1;
    if k == last {
      assert v[k := x][..last] == v[..last];
    } else {
      assert v[k := x][..last] == v[..last][k := x];
      SumUpdate(v[..last], k, x);
    }
  }

  lemma {:induction false} SumNonPositive(v: seq<real>)
    requires forall j | 0 <= j < |v| :: v[j] <= 0.0
    ensures Sum(v) <= 0.0
    ensures (forall j | 0 <= j < |v| :: v[j] == 0.0) ==> Sum(v) == 0.0
  {
    if |v| > 0 {
      SumNonPositive(v[..|v| - 1]);
    }
  }

  lemma {:induction false} SumAtFrame(v: seq<real>, a: seq<int>, k: nat, x: real)
    requires k < |v| && (forall i | 0 <= i < |a| :: 0 <= a[i] < |v|) && k !in a
    ensures SumAt(v[k := x], a) == SumAt(v, a)
  {
    if |a| > 0 {
      SumAtFrame(v, a[..|a| - 1], k, x);
    }
  }

  /** `v` with the columns listed in `a` set to zero. */
  function Without(v: seq<real>, a: seq<int>): (r: seq<real>)
    ensures |r| == |v| && forall j | 0 <= j < |v| :: r[j] == if j in a then 0.0 else v[j]
  {
    seq(|v|, j requires 0 <= j < |v| => if j in a then 0.0 else v[j])
  }

  /** Over distinct columns, the listed and the other columns make up the whole sum. */
  lemma {:induction false} SumSplits(v: seq<real>, a: seq<int>)
    requires IsAssignment(a, |a|, |v|)
    ensures Sum(v) == SumAt(v, a) + Sum(Without(v, a))
    decreases |a|
  {
    if |a| == 0 {
      assert Without(v, a) == v;
    } else {
      var rest, last := a[..|a| - 1], a[|a| - 1];
      assert SumAt(v, a) == SumAt(v, rest) + v[last];
      hide Sum, SumAt;
      assert a == rest + [last];
      SumUpdate(v, last, 0.0);
      SumAtFrame(v, rest, last, 0.0);
      SumSplits(v[last := 0.0], rest);
      assert Without(v[last := 0.0], rest) == Without(v, a);
    }
  }

  /** A sum of non-positive potentials over distinct columns is at least the sum over all columns. */
  lemma DistinctColumns(v: seq<real>, a: seq<int>)
    requires IsAssignment(a, |a|, |v|)
    requires forall j | 0 <= j < |v| :: v[j] <= 0.0
    ensures SumAt(v, a) >= Sum(v)
    ensures (forall j | 0 <= j < |v| && j !in a :: v[j] == 0.0) ==> SumAt(v, a) == Sum(v)
  {
    SumSplits(v, a);
    SumNonPositive(Without(v, a));
  }

  /** Feasible potentials bound the cost of every assignment; a tight one meets the bound. */
  lemma {:induction false} CostBound(c: Matrix, a: seq<int>, u: seq<real>, v: seq<real>)
    requires |a| <= |c| && |a| <= |u| && (forall i | 0 <= i < |a| :: 0 <= a[i] < |c[i]| && a[i] < |v|)
    requires forall i | 0 <= i < |a| :: c[i][a[i]] - u[i] - v[a[i]] >= 0.0
    ensures Cost(c, a) >= Sum(u[..|a|]) + SumAt(v, a)
    ensures (forall i | 0 <= i < |a| :: c[i][a[i]] - u[i] - v[a[i]] == 0.0) ==>
        Cost(c, a) == Sum(u[..|a|]) + SumAt(v, a)
  {
    if |a| > 0 {
      CostBound(c, a[..|a| - 1], u, v);
      assert u[..|a|][..|a| - 1] == u[..|a| - 1];
    }
  }

  /** Weak duality: potentials that are feasible, and tight on `a`, prove `a` optimal. */
  lemma Duality(c: Matrix, a: seq<int>, u: seq<real>, v: seq<real>, n: nat, m: nat)
    requires IsMatrix(c, n, m) && IsAssignment(a, n, m)
    requires Feasible(c, u, v, n, m) && Tight(c, a, u, v, n, m)
    ensures IsOptimal(c, a, n, m)
  {
    CostBound(c, a, u, v);
    DistinctColumns(v, a);
    forall b | IsAssignment(b, n, m)
      ensures Cost(c, a) <= Cost(c, b)
    {
      CostBound(c, b, u, v);
      DistinctColumns(v, b);
    }
  }

  // ----- counting

  /** How many entries are true. */
  function Count(s: seq<bool>): nat {
    if |s| == 0 then 0 else Count(s[..|s| - 1]) + if s[|s| - 1] then 1 else 0
  }

  lemma {:induction false} CountUpdate(s: seq<bool>, k: nat, b: bool)
    requires k < |s|
    ensures Count(s[k := b]) == Count(s) - (if s[k] then 1 else 0) + (if b then 1 else 0)
  {
    var last := |s| - 1;
    if k == last {
      assert s[k := b][..last] == s[..last];
    } else {
      assert s[k := b][..last] == s[..last][k := b];
      CountUpdate(s[..last], k, b);
    }
  }

  lemma {:induction false} CountBounds(s: seq<bool>)
    ensures Count(s) <= |s|
    ensures Count(s) == |s| <==> forall i | 0 <= i < |s| :: s[i]
    ensures Count(s) == 0 <==> forall i | 0 <= i < |s| :: !s[i]
  {
    if |s| > 0 {
      var t := s[..|s| - 1];
      CountBounds(t);
      assert (forall i | 0 <= i < |s| :: s[i]) <==> s[|s| - 1] && forall i | 0 <= i < |t| :: t[i];
      assert (forall i | 0 <= i < |s| :: !s[i]) <==> !s[|s| - 1] && forall i | 0 <= i < |t| :: !t[i];
    }
  }

  /** Which columns an assignment uses. */
  ghost function Used(a: seq<int>, m: nat): (r: seq<bool>)
    ensures |r| == m && forall j | 0 <= j < m :: r[j] == (j in a)
  {
    seq(m, j => j in a)
  }

  lemma {:induction false} UsedCount(a: seq<int>, m: nat)
    requires IsAssignment(a, |a|, m)
    ensures Count(Used(a, m)) == |a|
  {
    if |a| == 0 {
      CountBounds(Used(a, m));
    } else {
      var rest, last := a[..|a| - 1], a[|a| - 1];
      UsedCount(rest, m);
      assert a == rest + [last];
      assert last !in rest;
      assert Used(a, m) == Used(rest, m)[last := true];
      CountUpdate(Used(rest, m), last, true);
    }
  }

  /** As many distinct columns as there are: every column is used. */
  lemma CoversAll(a: seq<int>, m: nat)
    requires IsAssignment(a, m, m)
    ensures forall j | 0 <= j < m :: j in a
  {
    UsedCount(a, m);
    CountBounds(Used(a, m));
    assert forall j | 0 <= j < m :: Used(a, m)[j];
  }
}
