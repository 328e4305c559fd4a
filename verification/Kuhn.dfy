/**
 The phases of Kuhn's algorithm in core/math/HungarianSolver.cpp, on the arrays the program uses.
 Each method ties the arrays it leaves behind to the matching and search state of `Matchings`.
 */
module Kuhn {
  import opened Assignment
  import opened Matchings

  datatype Mark = Unmarked | Starred | Primed

  /** The value `kuhn_addAndSubtract` starts its minimum from. */
  const SENTINEL: real := 2147483647.0

  /** The table as a value. */
  ghost function Contents(t: array2<real>): (c: Matrix)
    reads t
    ensures IsMatrix(c, t.Length0, t.Length1)
    ensures forall i, j | 0 <= i < t.Length0 && 0 <= j < t.Length1 :: c[i][j] == t[i, j]
  {
    seq(t.Length0, i requires 0 <= i < t.Length0 reads t =>
      seq(t.Length1, j requires 0 <= j < t.Length1 reads t => t[i, j]))
  }

  /** The mark matrix shows the stars `rs` and the primes `rp`, and nothing else. */
  ghost predicate MarksAre(marks: array2<Mark>, rs: seq<int>, rp: seq<int>)
    reads marks
  {
    && |rs| == marks.Length0 && |rp| == marks.Length0
    && (forall i, j | 0 <= i < marks.Length0 && 0 <= j < marks.Length1 :: marks[i, j] == Starred <==> rs[i] == j)
    && (forall i, j | 0 <= i < marks.Length0 && 0 <= j < marks.Length1 :: marks[i, j] == Primed <==> rp[i] == j)
  }

  /** A row is covered when the phase ranked it; a column when it has a star in an uncovered row. */
  ghost predicate CoversAre(rowCovered: array<bool>, colCovered: array<bool>, g: Phase)
    reads rowCovered, colCovered
    requires PhaseOk(g, rowCovered.Length, colCovered.Length)
  {
    && (forall i | 0 <= i < rowCovered.Length :: rowCovered[i] <==> g.rank[i] >= 0)
    && (forall j | 0 <= j < colCovered.Length :: colCovered[j] <==> !OpenColumn(g, j))
  }

  /** Stars and primes stand on zeros. */
  ghost predicate OnZeros(t: array2<real>, rs: seq<int>, rp: seq<int>)
    reads t
    requires |rs| == |rp| == t.Length0
    requires forall i | 0 <= i < |rs| :: rs[i] < t.Length1 && rp[i] < t.Length1
  {
    && (forall i | 0 <= i < |rs| && rs[i] >= 0 :: t[i, rs[i]] == 0.0)
    && (forall i | 0 <= i < |rp| && rp[i] >= 0 :: t[i, rp[i]] == 0.0)
  }

  ghost function NoPrimes(n: nat): (rp: seq<int>)
    ensures |rp| == n && forall i | 0 <= i < n :: rp[i] == -1
  {
    seq(n, i => -1)
  }

  // ----- kuhn_reduceRows

  method RowMinimum(t: array2<real>, i: nat) returns (min: real, ghost at: nat)
    requires i < t.Length0 && 0 < t.Length1
    ensures at < t.Length1 && t[i, at] == min
    ensures forall j | 0 <= j < t.Length1 :: min <= t[i, j]
  {
    min := t[i, 0];
    at := 0;
    for j := 1 to t.Length1
      invariant at < t.Length1 && t[i, at] == min
      invariant forall k | 0 <= k < j :: min <= t[i, k]
    {
      if min > t[i, j] {
        min := t[i, j];
        at := j;
      }
    }
  }

  method SubtractFromRow(t: array2<real>, i: nat, x: real)
    requires i < t.Length0
    modifies t
    ensures forall k, j | 0 <= k < t.Length0 && 0 <= j < t.Length1 ::
              t[k, j] == if k == i then old(t[k, j]) - x else old(t[k, j])
  {
    for j := 0 to t.Length1
      invariant forall k, l | 0 <= k < t.Length0 && 0 <= l < t.Length1 ::
                  t[k, l] == if k == i && l < j then old(t[k, l]) - x else old(t[k, l])
    {
      t[i, j] := t[i, j] - x;
    }
  }

  /** Subtracts from every row its minimum: the row minima are the first row potentials. */
  method ReduceRows(t: array2<real>) returns (ghost u: seq<real>, ghost at: seq<nat>)
    requires t.Length0 <= t.Length1
    modifies t
    ensures |u| == |at| == t.Length0
    ensures forall i | 0 <= i < t.Length0 :: at[i] < t.Length1 && u[i] == old(t[i, at[i]])
    ensures forall i, j | 0 <= i < t.Length0 && 0 <= j < t.Length1 :: t[i, j] == old(t[i, j]) - u[i] && t[i, j] >= 0.0
    ensures forall i | 0 <= i < t.Length0 :: t[i, at[i]] == 0.0
  {
    u, at := [], [];
    for i := 0 to t.Length0
      invariant |u| == |at| == i
      invariant forall k | 0 <= k < i :: at[k] < t.Length1 && u[k] == old(t[k, at[k]])
      invariant forall k, j | 0 <= k < i && 0 <= j < t.Length1 :: t[k, j] == old(t[k, j]) - u[k] && t[k, j] >= 0.0
      invariant forall k, j | i <= k < t.Length0 && 0 <= j < t.Length1 :: t[k, j] == old(t[k, j])
    {
      var min, k := RowMinimum(t, i);
      SubtractFromRow(t, i, min);
      u, at := u + [min], at + [k];
    }
  }

  // ----- kuhn_mark

  /** Stars so far, with the covers that `kuhn_mark` keeps of them. */
  ghost predicate Marking(t: array2<real>, marks: array2<Mark>, rowCovered: array<bool>, colCovered: array<bool>,
                          rs: seq<int>, cs: seq<int>)
    reads t, marks, rowCovered, colCovered
  {
    var n, m := t.Length0, t.Length1;
    && marks.Length0 == rowCovered.Length == n && marks.Length1 == colCovered.Length == m
    && Matching(rs, cs, n, m)
    && MarksAre(marks, rs, NoPrimes(n)) && OnZeros(t, rs, NoPrimes(n))
    && (forall k | 0 <= k < n :: rowCovered[k] <==> rs[k] >= 0)
    && (forall l | 0 <= l < m :: colCovered[l] <==> cs[l] >= 0)
  }

  method MarkRow(t: array2<real>, marks: array2<Mark>, rowCovered: array<bool>, colCovered: array<bool>, i: nat,
                 ghost rs: seq<int>, ghost cs: seq<int>)
    returns (ghost rs': seq<int>, ghost cs': seq<int>)
    requires rowCovered != colCovered && i < t.Length0
    requires Marking(t, marks, rowCovered, colCovered, rs, cs)
    modifies marks, rowCovered, colCovered
    ensures Marking(t, marks, rowCovered, colCovered, rs', cs')
    ensures forall k | 0 <= k < t.Length0 :: rs[k] >= 0 ==> rs'[k] >= 0
    ensures forall l | 0 <= l < t.Length1 :: cs[l] >= 0 ==> cs'[l] >= 0
    ensures forall l | 0 <= l < t.Length1 && t[i, l] == 0.0 :: rs'[i] >= 0 || cs'[l] >= 0
  {
    rs', cs' := rs, cs;
    for j := 0 to t.Length1
      invariant Marking(t, marks, rowCovered, colCovered, rs', cs')
      invariant forall k | 0 <= k < t.Length0 :: rs[k] >= 0 ==> rs'[k] >= 0
      invariant forall l | 0 <= l < t.Length1 :: cs[l] >= 0 ==> cs'[l] >= 0
      invariant forall l | 0 <= l < j && t[i, l] == 0.0 :: rs'[i] >= 0 || cs'[l] >= 0
    {
      if !rowCovered[i] && !colCovered[j] && t[i, j] == 0.0 {
        marks[i, j] := Starred;
        rowCovered[i] := true;
        colCovered[j] := true;
        rs', cs' := rs'[i := j], cs'[j := i];
      }
    }
  }

  /** Greedy starring of zeros, at most one in each row and column. */
  method MarkZeros(t: array2<real>) returns (marks: array2<Mark>, ghost rs: seq<int>, ghost cs: seq<int>)
    ensures fresh(marks) && marks.Length0 == t.Length0 && marks.Length1 == t.Length1
    ensures Matching(rs, cs, t.Length0, t.Length1)
    ensures MarksAre(marks, rs, NoPrimes(t.Length0))
    ensures OnZeros(t, rs, NoPrimes(t.Length0))
    // greedy: a zero is left unstarred only next to a star
    ensures forall i, j | 0 <= i < t.Length0 && 0 <= j < t.Length1 && t[i, j] == 0.0 :: rs[i] >= 0 || cs[j] >= 0
  {
    var n, m := t.Length0, t.Length1;
    marks := new Mark[n, m]((i, j) => Unmarked);
    var rowCovered := new bool[n](_ => false);
    var colCovered := new bool[m](_ => false);
    rs, cs := NoPrimes(n), NoPrimes(m);
    for i := 0 to n
      invariant Marking(t, marks, rowCovered, colCovered, rs, cs)
      invariant forall k, l | 0 <= k < i && 0 <= l < m && t[k, l] == 0.0 :: rs[k] >= 0 || cs[l] >= 0
    {
      rs, cs := MarkRow(t, marks, rowCovered, colCovered, i, rs, cs);
    }
  }

  // ----- kuhn_isDone

  /** Whether column `j` holds a star: the inner loop of `kuhn_isDone`. */
  method StarInColumn(marks: array2<Mark>, j: nat, ghost rs: seq<int>, ghost cs: seq<int>,
                      ghost rp: seq<int>) returns (found: bool)
    requires j < marks.Length1
    requires Matching(rs, cs, marks.Length0, marks.Length1) && MarksAre(marks, rs, rp)
    ensures found <==> cs[j] >= 0
  {
    for i := 0 to marks.Length0
      invariant forall k | 0 <= k < i :: rs[k] != j
    {
      if marks[i, j] == Starred {
        return true;
      }
    }
    return false;
  }

  /** Covers the starred columns, and says whether every row has its star. */
  method IsDone(marks: array2<Mark>, colCovered: array<bool>, ghost rs: seq<int>, ghost cs: seq<int>,
      ghost rp: seq<int>)
    returns (done: bool)
    requires colCovered.Length == marks.Length1
    requires Matching(rs, cs, marks.Length0, marks.Length1) && MarksAre(marks, rs, rp)
    requires forall j | 0 <= j < colCovered.Length :: !colCovered[j]
    modifies colCovered
    ensures forall j | 0 <= j < colCovered.Length :: colCovered[j] <==> cs[j] >= 0
    ensures done <==> Size(rs) == marks.Length0
  {
    var m := marks.Length1;
    for j := 0 to m
      invariant forall l | 0 <= l < j :: colCovered[l] <==> cs[l] >= 0
      invariant forall l | j <= l < m :: !colCovered[l]
    {
      var found := StarInColumn(marks, j, rs, cs, rp);
      if found {
        colCovered[j] := true;
      }
    }
    var count := 0;
    for j := 0 to m
      invariant count == Count(Taken(cs)[..j])
    {
      assert Taken(cs)[..j + 1][..j] == Taken(cs)[..j];
      if colCovered[j] {
        count := count + 1;
      }
    }
    assert Taken(cs)[..m] == Taken(cs);
    SameSize(rs, cs, marks.Length0, m);
    done := count == marks.Length0;
  }

  // ----- kuhn_assign

  /** The columns of an array of row-column pairs. */
  ghost function Columns(a: array<(int, int)>): (c: seq<int>)
    reads a
    ensures |c| == a.Length && forall i | 0 <= i < a.Length :: c[i] == a[i].1
  {
    seq(a.Length, i requires 0 <= i < a.Length reads a => a[i].1)
  }

  /** Lists the stars; the entries start out uninitialised, so every row must have one. */
  method Assign(marks: array2<Mark>, ghost rs: seq<int>, ghost rp: seq<int>) returns (assignment: array<(int, int)>)
    requires MarksAre(marks, rs, rp)
    requires forall i | 0 <= i < marks.Length0 :: 0 <= rs[i] < marks.Length1
    ensures fresh(assignment) && assignment.Length == marks.Length0
    ensures forall i | 0 <= i < assignment.Length :: assignment[i].0 == i
    ensures Columns(assignment) == rs
  {
    assignment := new (int, int)[marks.Length0];
    for i := 0 to marks.Length0
      invariant forall k | 0 <= k < i :: assignment[k] == (k, rs[k])
    {
      for j := 0 to marks.Length1
        invariant forall k | 0 <= k < i :: assignment[k] == (k, rs[k])
        invariant rs[i] < j ==> assignment[i] == (i, rs[i])
      {
        if marks[i, j] == Starred {
          assignment[i] := (i, j);
        }
      }
    }
  }
}
