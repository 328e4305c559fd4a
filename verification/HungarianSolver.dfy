/**
 `HungarianSolver` of core/math/HungarianSolver.cpp, with the Augment method: the cost matrix is padded
 with constant rows to a square one, solved, and thresholded.
 */
module Hungarian {
  import opened Assignment
  import opened Kuhn
  import opened KuhnMatch

  // ----- why padding with constant rows changes nothing

  /** An assignment of fewer rows than columns can be extended by one row. */
  lemma FreeColumn(a: seq<int>, m: nat) returns (j: nat)
    requires IsAssignment(a, |a|, m) && |a| < m
    ensures j < m && j !in a && IsAssignment(a + [j], |a| + 1, m)
  {
    UsedCount(a, m);
    CountBounds(Used(a, m));
    j :| 0 <= j < m && !Used(a, m)[j];
  }

  lemma {:induction false} Extend(a: seq<int>, m: nat) returns (e: seq<int>)
    requires IsAssignment(a, |a|, m) && |a| <= m
    ensures IsAssignment(e, m, m) && a <= e
    decreases m - |a|
  {
    if |a| == m {
      e := a;
    } else {
      var j := FreeColumn(a, m);
      e := Extend(a + [j], m);
    }
  }

  /** `p` is `c` with `m - n` rows of the constant `x` below it. */
  ghost predicate Padded(c: Matrix, p: Matrix, n: nat, m: nat, x: real) {
    && n <= m && IsMatrix(c, n, m) && IsMatrix(p, m, m)
    && (forall i | 0 <= i < n :: p[i] == c[i])
    && (forall i, j | n <= i < m && 0 <= j < m :: p[i][j] == x)
  }

  lemma {:induction false} SameRows(c: Matrix, p: Matrix, a: seq<int>)
    requires |a| <= |c| && |a| <= |p| && (forall i | 0 <= i < |a| :: p[i] == c[i] && 0 <= a[i] < |c[i]|)
    ensures Cost(p, a) == Cost(c, a)
  {
    if |a| > 0 {
      SameRows(c, p, a[..|a| - 1]);
    }
  }

  /** What the rows of constant `x` cost. */
  ghost function Filling(k: nat, x: real): real {
    k as real * x
  }

  lemma FillOneMore(k: nat, x: real)
    ensures Filling(k + 1, x) == Filling(k, x) + x
  {
  }

  lemma {:induction false} PaddedCost(c: Matrix, p: Matrix, a: seq<int>, n: nat, m: nat, x: real)
    requires Padded(c, p, n, m, x) && n <= |a| <= m && IsAssignment(a, |a|, m)
    ensures Cost(p, a) == Cost(c, a[..n]) + Filling(|a| - n, x)
  {
    if |a| == n {
      assert a[..n] == a;
      SameRows(c, p, a);
    } else {
      var rest := a[..|a| - 1];
      PaddedCost(c, p, rest, n, m, x);
      assert rest[..n] == a[..n];
      FillOneMore(|rest| - n, x);
    }
  }

  /** The first rows of a best assignment of the padded matrix are a best assignment of the matrix. */
  lemma PaddingIsHarmless(c: Matrix, p: Matrix, a: seq<int>, n: nat, m: nat, x: real)
    requires Padded(c, p, n, m, x) && IsOptimal(p, a, m, m)
    ensures IsOptimal(c, a[..n], n, m)
  {
    hide Filling, Cost;
    PaddedCost(c, p, a, n, m, x);
    forall b | IsAssignment(b, n, m)
      ensures Cost(c, a[..n]) <= Cost(c, b)
    {
      var e := Extend(b, m);
      assert e[..n] == b;
      PaddedCost(c, p, e, n, m, x);
    }
  }

  // ----- the class

  /** A column, or -1 if it costs more than allowed. */
  ghost predicate Thresholded(costs: array2<real>, a: seq<int>, maxCost: real, result: seq<int>)
    reads costs
    requires |a| == costs.Length0 && forall i | 0 <= i < |a| :: 0 <= a[i] < costs.Length1
  {
    |result| == |a| && forall i | 0 <= i < |a| :: result[i] == if costs[i, a[i]] > maxCost then -1 else a[i]
  }

  ghost function Kept(result: seq<int>): (r: seq<bool>)
    ensures |r| == |result| && forall i | 0 <= i < |r| :: r[i] == (result[i] >= 0)
  {
    seq(|result|, i requires 0 <= i < |result| => result[i] >= 0)
  }

  class HungarianSolver {
    const maxCost: real
    var maxValue: real
    var count: int

    constructor (maxCost: real)
      ensures this.maxCost == maxCost
    {
      this.maxCost := maxCost;
      maxValue := 0.0;
      count := 0;
    }

    /** Copies the costs and finds the largest of them, or zero if none is positive. */
    method CopyCosts(costs: array2<real>, augmented: array2<real>)
      requires costs != augmented && costs.Length0 <= augmented.Length0 && augmented.Length1 == costs.Length1
      modifies this`maxValue, augmented
      ensures forall i, j | 0 <= i < costs.Length0 && 0 <= j < costs.Length1 ::
          augmented[i, j] == costs[i, j] <= maxValue
      ensures maxValue >= 0.0
      ensures maxValue == 0.0 || exists i, j | 0 <= i < costs.Length0 && 0 <= j < costs.Length1 ::
          costs[i, j] == maxValue
    {
      maxValue := 0.0;
      for i := 0 to costs.Length0
        invariant maxValue >= 0.0
        invariant forall k, l | 0 <= k < i && 0 <= l < costs.Length1 :: augmented[k, l] == costs[k, l] <= maxValue
        invariant maxValue == 0.0 || exists k, l | 0 <= k < costs.Length0 && 0 <= l < costs.Length1 ::
            costs[k, l] == maxValue
      {
        for j := 0 to costs.Length1
          invariant maxValue >= 0.0
          invariant forall k, l | 0 <= k < i && 0 <= l < costs.Length1 :: augmented[k, l] == costs[k, l] <= maxValue
          invariant forall l | 0 <= l < j :: augmented[i, l] == costs[i, l] <= maxValue
          invariant maxValue == 0.0 || exists k, l | 0 <= k < costs.Length0 && 0 <= l < costs.Length1 ::
              costs[k, l] == maxValue
        {
          if maxValue < costs[i, j] {
            maxValue := costs[i, j];
          }
          augmented[i, j] := costs[i, j];
        }
      }
    }

    /** Fills the rows from `n` on with `maxValue`. */
    method PadRows(augmented: array2<real>, n: nat)
      requires n <= augmented.Length0
      modifies augmented
      ensures forall i, j | 0 <= i < augmented.Length0 && 0 <= j < augmented.Length1 ::
                augmented[i, j] == if i < n then old(augmented[i, j]) else maxValue
    {
      for i := n to augmented.Length0
        invariant forall k, l | 0 <= k < i && 0 <= l < augmented.Length1 ::
                    augmented[k, l] == if k < n then old(augmented[k, l]) else maxValue
      {
        for j := 0 to augmented.Length1
          invariant forall k, l | 0 <= k < i && 0 <= l < augmented.Length1 ::
                      augmented[k, l] == if k < n then old(augmented[k, l]) else maxValue
          invariant forall l | 0 <= l < j :: augmented[i, l] == maxValue
        {
          augmented[i, j] := maxValue;
        }
      }
    }

    /** `augment`: the square matrix with rows of `maxValue` below the costs. */
    method Augment(costs: array2<real>) returns (augmented: array2<real>)
      requires costs.Length0 <= costs.Length1
      modifies this`maxValue
      ensures fresh(augmented) && augmented.Length0 == augmented.Length1 == costs.Length1
      ensures Padded(Contents(costs), Contents(augmented), costs.Length0, costs.Length1, maxValue)
      ensures maxValue >= 0.0 && forall i, j | 0 <= i < costs.Length0 && 0 <= j < costs.Length1 ::
          costs[i, j] <= maxValue
      ensures maxValue == 0.0 || exists i, j | 0 <= i < costs.Length0 && 0 <= j < costs.Length1 ::
          costs[i, j] == maxValue
    {
      augmented := new real[costs.Length1, costs.Length1];
      CopyCosts(costs, augmented);
      PadRows(augmented, costs.Length0);
      assert forall i | 0 <= i < costs.Length0 :: Contents(augmented)[i] == Contents(costs)[i];
    }

    /** Drops the columns that cost too much, and counts the others. */
    method Threshold(costs: array2<real>, result: array<int>, ghost a: seq<int>)
      requires result.Length == costs.Length0 && result[..] == a
      requires forall i | 0 <= i < |a| :: 0 <= a[i] < costs.Length1
      modifies this`count, result
      ensures Thresholded(costs, a, maxCost, result[..])
      ensures count == Count(Kept(result[..]))
    {
      count := 0;
      for i := 0 to result.Length
        invariant forall k | 0 <= k < i :: result[k] == if costs[k, a[k]] > maxCost then -1 else a[k]
        invariant forall k | i <= k < result.Length :: result[k] == a[k]
        invariant count == Count(Kept(result[..i]))
      {
        ghost var before := result[..i];
        if costs[i, result[i]] > maxCost {
          result[i] := -1;
        } else {
          count := count + 1;
        }
        assert result[..i] == before;
        assert Kept(result[..i + 1])[..i] == Kept(result[..i]);
      }
      assert result[..result.Length] == result[..];
    }

    /**
     For rows <= cols: `a`, the assignment before thresholding, is a minimum-cost assignment of the
     original rectangular matrix; the result keeps exactly its affordable entries.
     */
    method Solve(costs: array2<real>) returns (result: array<int>, ghost a: seq<int>)
      requires costs.Length0 <= costs.Length1
      modifies this`maxValue, this`count
      ensures fresh(result) && IsOptimal(Contents(costs), a, costs.Length0, costs.Length1)
      ensures Thresholded(costs, a, maxCost, result[..])
      ensures count == Count(Kept(result[..]))
    {
      hide Cost, Count, Padded, SpreadWithin;
      count := 0;
      var augmented := Augment(costs);
      ghost var padded := Contents(augmented);
      var assignment, _ := KuhnMatch.KuhnMatch(augmented);
      PaddingIsHarmless(Contents(costs), padded, Columns(assignment), costs.Length0, costs.Length1, maxValue);
      a := Columns(assignment)[..costs.Length0];
      result := new int[costs.Length0];
      for i := 0 to result.Length
        invariant forall k | 0 <= k < i :: result[k] == a[k]
        invariant Columns(assignment)[..costs.Length0] == a
      {
        result[i] := assignment[i].1;
      }
      assert result[..] == a;
      Threshold(costs, result, a);
    }
  }

  /** What a thresholded assignment promises its caller: distinct columns, each within the limit. */
  lemma ThresholdedIsAffordable(costs: array2<real>, a: seq<int>, maxCost: real, result: seq<int>)
    requires IsAssignment(a, costs.Length0, costs.Length1) && Thresholded(costs, a, maxCost, result)
    ensures forall i | 0 <= i < |result| ::
        result[i] == -1 || (0 <= result[i] < costs.Length1 && costs[i, result[i]] <= maxCost)
    ensures forall i, k | 0 <= i < k < |result| && result[i] >= 0 && result[k] >= 0 :: result[i] != result[k]
    ensures forall i | 0 <= i < |result| :: result[i] == -1 <==> costs[i, a[i]] > maxCost
  {
  }
}
