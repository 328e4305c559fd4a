/**
 `kuhn_addAndSubtract` and `kuhn_match` of core/math/HungarianSolver.cpp: the table is, at every moment,
 the cost table reduced by potentials, which is what makes the final matching optimal.
 */
module KuhnMatch {
  import opened Assignment
  import opened Matchings
  import opened Kuhn
  import opened KuhnSearch
  import opened KuhnAugment

  // ----- kuhn_addAndSubtract

  method UncoveredMinimum(t: array2<real>, rowCovered: array<bool>, colCovered: array<bool>) returns (min: real)
    requires rowCovered.Length == t.Length0 && colCovered.Length == t.Length1
    ensures min <= SENTINEL
    ensures forall i, j | 0 <= i < t.Length0 && 0 <= j < t.Length1 && !rowCovered[i] && !colCovered[j] :: min <= t[i, j]
    ensures min == SENTINEL || exists i, j | 0 <= i < t.Length0 && 0 <= j < t.Length1 && !rowCovered[i]
        && !colCovered[j] :: min == t[i, j]
  {
    min := SENTINEL;
    ghost var a, b := 0, 0;
    for i := 0 to t.Length0
      invariant min <= SENTINEL
      invariant forall k, l | 0 <= k < i && 0 <= l < t.Length1 && !rowCovered[k] && !colCovered[l] :: min <= t[k, l]
      invariant min == SENTINEL
          || (0 <= a < t.Length0 && 0 <= b < t.Length1 && !rowCovered[a] && !colCovered[b] && min == t[a, b])
    {
      if !rowCovered[i] {
        for j := 0 to t.Length1
          invariant min <= SENTINEL
          invariant forall k, l | 0 <= k < i && 0 <= l < t.Length1 && !rowCovered[k] && !colCovered[l] :: min <= t[k, l]
          invariant forall l | 0 <= l < j && !colCovered[l] :: min <= t[i, l]
          invariant min == SENTINEL
              || (0 <= a < t.Length0 && 0 <= b < t.Length1 && !rowCovered[a] && !colCovered[b] && min == t[a, b])
        {
          if !colCovered[j] && min > t[i, j] {
            min := t[i, j];
            a, b := i, j;
          }
        }
      }
    }
  }

  /** What one cell gains: `delta` for a covered row, minus `delta` for an uncovered column. */
  function Shift(rowCovered: bool, colCovered: bool, delta: real): real {
    (if rowCovered then delta else 0.0) - (if colCovered then 0.0 else delta)
  }

  method AddAndSubtract(t: array2<real>, rowCovered: array<bool>, colCovered: array<bool>) returns (ghost delta: real)
    requires rowCovered.Length == t.Length0 && colCovered.Length == t.Length1
    modifies t
    ensures delta <= SENTINEL
    ensures forall i, j | 0 <= i < t.Length0 && 0 <= j < t.Length1 && !rowCovered[i] && !colCovered[j] ::
        delta <= old(t[i, j])
    ensures delta == SENTINEL || exists i, j | 0 <= i < t.Length0 && 0 <= j < t.Length1 && !rowCovered[i]
        && !colCovered[j] :: delta == old(t[i, j])
    ensures forall i, j | 0 <= i < t.Length0 && 0 <= j < t.Length1 ::
        t[i, j] == old(t[i, j]) + Shift(rowCovered[i], colCovered[j], delta)
  {
    var min := UncoveredMinimum(t, rowCovered, colCovered);
    delta := min;
    for i := 0 to t.Length0
      invariant forall k, l | 0 <= k < t.Length0 && 0 <= l < t.Length1 ::
                  t[k, l] == if k < i then old(t[k, l]) + Shift(rowCovered[k], colCovered[l], min) else old(t[k, l])
    {
      for j := 0 to t.Length1
        invariant forall k, l | 0 <= k < t.Length0 && 0 <= l < t.Length1 ::
                    t[k, l] == if k < i || (k == i && l < j)
                        then old(t[k, l]) + Shift(rowCovered[k], colCovered[l], min) else old(t[k, l])
      {
        if rowCovered[i] {
          t[i, j] := t[i, j] + min;
        }
        if !colCovered[j] {
          t[i, j] := t[i, j] - min;
        }
      }
    }
  }

  // ----- potentials

  /** The table is the cost table reduced by feasible potentials, zero on columns without star. */
  ghost predicate Potentials(t: array2<real>, cost: Matrix, u: seq<real>, v: seq<real>, cs: seq<int>)
    reads t
  {
    var n, m := t.Length0, t.Length1;
    && IsMatrix(cost, n, m) && |u| == n && |v| == m && |cs| == m
    && (forall i, j | 0 <= i < n && 0 <= j < m :: t[i, j] == cost[i][j] - u[i] - v[j] && t[i, j] >= 0.0)
    && (forall j | 0 <= j < m :: v[j] <= 0.0)
    && (forall j | 0 <= j < m && cs[j] < 0 :: v[j] == 0.0)
  }

  /** `delta` more on every uncovered row. */
  ghost function RaiseRows(u: seq<real>, g: Phase, delta: real): (u': seq<real>)
    requires |u| == |g.rank|
    ensures |u'| == |u| && forall i | 0 <= i < |u| :: u'[i] == if g.rank[i] < 0 then u[i] + delta else u[i]
  {
    seq(|u|, i requires 0 <= i < |u| => if g.rank[i] < 0 then u[i] + delta else u[i])
  }

  /** `delta` less on every covered column. */
  ghost function LowerColumns(v: seq<real>, g: Phase, delta: real): (v': seq<real>)
    requires |v| == |g.cs| && forall j | 0 <= j < |g.cs| :: -1 <= g.cs[j] < |g.rank|
    ensures |v'| == |v| && forall j | 0 <= j < |v| :: v'[j] == if OpenColumn(g, j) then v[j] else v[j] - delta
  {
    seq(|v|, j requires 0 <= j < |v| => if OpenColumn(g, j) then v[j] else v[j] - delta)
  }

  /** Every row potential is at least the row's minimum. */
  ghost predicate AboveMinima(cost: Matrix, u: seq<real>) {
    |u| == |cost| && forall i | 0 <= i < |u| :: ReachesDown(cost[i], u[i])
  }

  ghost predicate ReachesDown(row: seq<real>, x: real) {
    exists k | 0 <= k < |row| :: row[k] <= x
  }

  /** No row's costs differ by more than `spread`. */
  ghost predicate SpreadWithin(cost: Matrix, spread: real) {
    forall i, j, k | 0 <= i < |cost| && 0 <= j < |cost[i]| && 0 <= k < |cost[i]| :: cost[i][j] - cost[i][k] <= spread
  }

  lemma AboveMinimaKept(cost: Matrix, u: seq<real>, u': seq<real>)
    requires AboveMinima(cost, u) && |u'| == |u| && forall i | 0 <= i < |u| :: u[i] <= u'[i]
    ensures AboveMinima(cost, u')
  {
    forall i | 0 <= i < |u'|
      ensures ReachesDown(cost[i], u'[i])
    {
      assert ReachesDown(cost[i], u[i]);
      var k :| 0 <= k < |cost[i]| && cost[i][k] <= u[i];
      assert cost[i][k] <= u'[i];
    }
  }

  /**
   On a column without star the table stays within the row's spread: the row potential only ever grew
   from the row minimum, and the column's potential is still zero.
   */
  lemma WithinSpread(t: array2<real>, cost: Matrix, u: seq<real>, v: seq<real>, cs: seq<int>, i: nat, j: nat,
                     spread: real)
    requires Potentials(t, cost, u, v, cs) && AboveMinima(cost, u) && SpreadWithin(cost, spread)
    requires i < t.Length0 && j < t.Length1 && cs[j] < 0
    ensures t[i, j] <= spread
  {
    assert ReachesDown(cost[i], u[i]);
    var k :| 0 <= k < |cost[i]| && cost[i][k] <= u[i];
    assert cost[i][j] - cost[i][k] <= spread;
  }

  /** The adjustment keeps the potentials feasible, and every star and prime on a zero. */
  method ShiftPotentials(t: array2<real>, rowCovered: array<bool>, colCovered: array<bool>, ghost cost: Matrix,
                         ghost u: seq<real>, ghost v: seq<real>, ghost g: Phase)
    returns (ghost u': seq<real>, ghost v': seq<real>, ghost delta: real)
    requires rowCovered.Length == t.Length0 && colCovered.Length == t.Length1
    requires PhaseOk(g, t.Length0, t.Length1) && CoversAre(rowCovered, colCovered, g) && OnZeros(t, g.rs, g.rp)
    requires Potentials(t, cost, u, v, g.cs) && !HasUncoveredZero(t, g)
    modifies t
    ensures Potentials(t, cost, u', v', g.cs) && OnZeros(t, g.rs, g.rp)
    ensures forall i | 0 <= i < t.Length0 :: u[i] <= u'[i]
    ensures 0.0 < delta <= SENTINEL
    ensures forall i, j | 0 <= i < t.Length0 && 0 <= j < t.Length1 && Uncovered(g, i, j) ::
        t[i, j] == old(t[i, j]) - delta && delta <= old(t[i, j])
    ensures HasUncoveredZero(t, g) || delta == SENTINEL
  {
    delta := AddAndSubtract(t, rowCovered, colCovered);
    u', v' := RaiseRows(u, g, delta), LowerColumns(v, g, delta);
    assert forall i, j | 0 <= i < t.Length0 && 0 <= j < t.Length1 :: Uncovered(g, i, j) <==>
        !rowCovered[i] && !colCovered[j];
    forall i | 0 <= i < t.Length0 && g.rp[i] >= 0
      ensures t[i, g.rp[i]] == 0.0
    {
      assert g.rank[i] >= 0 && OpenColumn(g, g.rp[i]);
    }
  }

  /**
   The adjustment either creates an uncovered zero or takes the whole sentinel off every uncovered cell,
   such as the one in the row and column without star; it creates a zero whenever no row's spread
   exceeds the sentinel.
   */
  method Adjust(t: array2<real>, ghost marks: array2<Mark>, rowCovered: array<bool>, colCovered: array<bool>,
                ghost cost: Matrix, ghost u: seq<real>, ghost v: seq<real>, ghost g: Phase, ghost r: nat, ghost c: nat)
    returns (ghost u': seq<real>, ghost v': seq<real>, ghost delta: real)
    requires Searching(t, marks, rowCovered, colCovered, g) && !HasUncoveredZero(t, g)
    requires Potentials(t, cost, u, v, g.cs) && AboveMinima(cost, u)
    requires r < t.Length0 && g.rs[r] < 0 && c < t.Length1 && g.cs[c] < 0
    modifies t
    ensures Searching(t, marks, rowCovered, colCovered, g)
    ensures Potentials(t, cost, u', v', g.cs) && AboveMinima(cost, u')
    ensures 0.0 < delta <= SENTINEL && 0.0 <= t[r, c] == old(t[r, c]) - delta
    ensures HasUncoveredZero(t, g) || delta == SENTINEL
    ensures SpreadWithin(cost, SENTINEL) ==> HasUncoveredZero(t, g)
  {
    hide MarksAre, AboveMinima, SpreadWithin;
    assert Uncovered(g, r, c);
    ghost var before := t[r, c];
    if SpreadWithin(cost, SENTINEL) {
      WithinSpread(t, cost, u, v, g.cs, r, c, SENTINEL);
    }
    u', v', delta := ShiftPotentials(t, rowCovered, colCovered, cost, u, v, g);
    AboveMinimaKept(cost, u, u');
    if before == delta {
      assert t[r, c] == 0.0;
    }
  }

  // ----- one phase: search and adjust until a path can start

  /** Taking the sentinel off a cell that stays non-negative lowers its multiple of the sentinel. */
  lemma FloorDrops(x: real)
    requires x - SENTINEL >= 0.0
    ensures 0 <= ((x - SENTINEL) / SENTINEL).Floor < (x / SENTINEL).Floor
  {
  }

  /**
   The inner loop of `kuhn_match`.  `calls` counts the searches: if no row's spread exceeds the sentinel, every
   search but the first covers a row or ends the loop, so there are at most n + 1.
   */
  method FindPath(t: array2<real>, marks: array2<Mark>, rowCovered: array<bool>, colCovered: array<bool>,
                  ghost cost: Matrix, ghost u: seq<real>, ghost v: seq<real>, ghost g: Phase, ghost r: nat,
                  ghost c: nat)
    returns (prime: (nat, nat), ghost u': seq<real>, ghost v': seq<real>, ghost g': Phase, ghost calls: nat)
    requires rowCovered != colCovered && Searching(t, marks, rowCovered, colCovered, g) && Timed(g)
    requires Potentials(t, cost, u, v, g.cs) && AboveMinima(cost, u)
    requires r < t.Length0 && g.rs[r] < 0 && c < t.Length1 && g.cs[c] < 0
    modifies t, marks, rowCovered, colCovered
    ensures Found(t, marks, prime.0, prime.1, g') && Timed(g')
    ensures g'.rs == g.rs && g'.cs == g.cs
    ensures Potentials(t, cost, u', v', g.cs) && AboveMinima(cost, u')
    ensures SpreadWithin(cost, SENTINEL) ==> calls + g.clock <= t.Length0 + 1
  {
    hide MarksAre, CoversAre, OnZeros, Timed, Potentials, AboveMinima, SpreadWithin, HasUncoveredZero;
    u', v', g', calls := u, v, g, 0;
    while true
      invariant Searching(t, marks, rowCovered, colCovered, g') && Timed(g') && g'.rs == g.rs && g'.cs == g.cs
      invariant Potentials(t, cost, u', v', g.cs) && AboveMinima(cost, u')
      invariant g.clock <= g'.clock && (calls == 0 || !SpreadWithin(cost, SENTINEL) || HasUncoveredZero(t, g'))
      invariant SpreadWithin(cost, SENTINEL) ==> calls + g.clock <= g'.clock + 1
      decreases |g'.rank| - g'.clock, !HasUncoveredZero(t, g'), (t[r, c] / SENTINEL).Floor
    {
      ghost var before := t[r, c];
      ClockWithinRows(g');
      ClockBound(g', r, t.Length0);
      calls := calls + 1;
      var found;
      found, g' := FindPrime(t, marks, rowCovered, colCovered, g');
      if found.Some? {
        prime := found.value;
        return;
      }
      ClockWithinRows(g');
      ghost var delta;
      u', v', delta := Adjust(t, marks, rowCovered, colCovered, cost, u', v', g', r, c);
      if delta == SENTINEL {
        FloorDrops(before);
      }
    }
  }

  // ----- kuhn_match

  method Uncover(rowCovered: array<bool>, colCovered: array<bool>)
    requires rowCovered != colCovered && rowCovered.Length <= colCovered.Length
    modifies rowCovered, colCovered
    ensures forall i | 0 <= i < rowCovered.Length :: !rowCovered[i]
    ensures forall j | 0 <= j < colCovered.Length :: !colCovered[j]
  {
    var n, m := rowCovered.Length, colCovered.Length;
    for i := 0 to n
      invariant forall k | 0 <= k < i :: !rowCovered[k] && !colCovered[k]
    {
      rowCovered[i] := false;
      colCovered[i] := false;
    }
    for i := n to m
      invariant forall k | 0 <= k < n :: !rowCovered[k]
      invariant forall l | 0 <= l < i :: !colCovered[l]
    {
      colCovered[i] := false;
    }
  }

  /** Between phases: a matching on zeros, no primes, and potentials that certify it. */
  ghost predicate Settled(t: array2<real>, marks: array2<Mark>, rs: seq<int>, cs: seq<int>, cost: Matrix, u: seq<real>,
                          v: seq<real>)
    reads t, marks
  {
    var n, m := t.Length0, t.Length1;
    && marks.Length0 == n && marks.Length1 == m
    && Matching(rs, cs, n, m)
    && MarksAre(marks, rs, NoPrimes(n)) && OnZeros(t, rs, NoPrimes(n))
    && Potentials(t, cost, u, v, cs) && AboveMinima(cost, u)
  }

  /** The start of a run: reduced rows, greedily starred. */
  method Prepare(table: array2<real>)
    returns (marks: array2<Mark>, ghost rs: seq<int>, ghost cs: seq<int>, ghost u: seq<real>, ghost v: seq<real>)
    requires table.Length0 <= table.Length1
    modifies table
    ensures fresh(marks) && Settled(table, marks, rs, cs, old(Contents(table)), u, v)
  {
    ghost var cost := Contents(table);
    ghost var at;
    u, at := ReduceRows(table);
    v := seq(table.Length1, j => 0.0);
    assert AboveMinima(cost, u) by {
      forall i | 0 <= i < table.Length0
        ensures ReachesDown(cost[i], u[i])
      {
        assert cost[i][at[i]] <= u[i];
      }
    }
    marks, rs, cs := MarkZeros(table);
  }

  /** The covers `kuhn_isDone` leaves behind start a fresh phase. */
  lemma PhaseBegins(t: array2<real>, marks: array2<Mark>, rowCovered: array<bool>, colCovered: array<bool>,
                    rs: seq<int>, cs: seq<int>)
    requires marks.Length0 == rowCovered.Length == t.Length0 && marks.Length1 == colCovered.Length == t.Length1
    requires Matching(rs, cs, t.Length0, t.Length1)
    requires MarksAre(marks, rs, NoPrimes(t.Length0)) && OnZeros(t, rs, NoPrimes(t.Length0))
    requires forall i | 0 <= i < rowCovered.Length :: !rowCovered[i]
    requires forall j | 0 <= j < colCovered.Length :: colCovered[j] <==> cs[j] >= 0
    ensures Searching(t, marks, rowCovered, colCovered, Fresh(rs, cs)) && Timed(Fresh(rs, cs))
  {
    hide Timed, MarksAre, OnZeros;
    FreshOk(rs, cs, t.Length0, t.Length1);
    assert Fresh(rs, cs).rp == NoPrimes(t.Length0);
  }

  /** The new stars stand where stars or primes stood, on zeros. */
  lemma ZerosAfterFlip(t: array2<real>, rs: seq<int>, rp: seq<int>, rs': seq<int>, cs': seq<int>)
    requires |rs| == |rp| == t.Length0 && (forall i | 0 <= i < |rs| :: rs[i] < t.Length1 && rp[i] < t.Length1)
    requires OnZeros(t, rs, rp) && Matching(rs', cs', t.Length0, t.Length1)
    requires forall i | 0 <= i < t.Length0 :: rs'[i] == rs[i] || rs'[i] == rp[i]
    ensures OnZeros(t, rs', NoPrimes(t.Length0))
  {
  }

  lemma PotentialsAfterFlip(t: array2<real>, cost: Matrix, u: seq<real>, v: seq<real>, cs: seq<int>, cs': seq<int>)
    requires Potentials(t, cost, u, v, cs) && |cs'| == t.Length1
    requires forall j | 0 <= j < t.Length1 :: j < |cs| && (cs[j] >= 0 ==> cs'[j] >= 0)
    ensures Potentials(t, cost, u, v, cs')
  {
  }

  /** One pass of the outer loop: a search, and the augmentation it leads to. */
  method Augment(table: array2<real>, marks: array2<Mark>, rowCovered: array<bool>, colCovered: array<bool>,
                 altRow: array<nat>, altCol: array<nat>, colMarks: array<int>, rowPrimes: array<int>,
                 ghost cost: Matrix, ghost u: seq<real>, ghost v: seq<real>, ghost rs: seq<int>, ghost cs: seq<int>)
    returns (ghost rs': seq<int>, ghost cs': seq<int>, ghost u': seq<real>, ghost v': seq<real>, ghost calls: nat)
    requires table.Length0 <= table.Length1
    requires rowCovered != colCovered && rowCovered.Length == table.Length0 && colCovered.Length == table.Length1
    requires altRow != altCol && altRow.Length == altCol.Length == table.Length0 * table.Length1
    requires rowPrimes != colMarks && rowPrimes.Length == table.Length0 && colMarks.Length == table.Length1
    requires Settled(table, marks, rs, cs, cost, u, v) && Size(rs) != table.Length0
    requires forall i | 0 <= i < rowCovered.Length :: !rowCovered[i]
    requires forall j | 0 <= j < colCovered.Length :: colCovered[j] <==> cs[j] >= 0
    modifies table, marks, rowCovered, colCovered, altRow, altCol, colMarks, rowPrimes
    ensures Settled(table, marks, rs', cs', cost, u', v') && Size(rs') == Size(rs) + 1
    ensures SpreadWithin(cost, SENTINEL) ==> calls <= table.Length0 + 1
    ensures forall i | 0 <= i < rowCovered.Length :: !rowCovered[i]
    ensures forall j | 0 <= j < colCovered.Length :: !colCovered[j]
  {
    hide Timed, AboveMinima, SpreadWithin, Potentials, MarksAre, OnZeros, CoversAre;
    ghost var r, c := Unmatched(rs, cs, table.Length0, table.Length1);
    PhaseBegins(table, marks, rowCovered, colCovered, rs, cs);
    var prime;
    ghost var g;
    prime, u', v', g, calls := FindPath(table, marks, rowCovered, colCovered, cost, u, v, Fresh(rs, cs), r, c);
    rs', cs' := AltMarks(marks, altRow, altCol, colMarks, rowPrimes, prime, g);
    ZerosAfterFlip(table, g.rs, g.rp[prime.0 := prime.1], rs', cs');
    PotentialsAfterFlip(table, cost, u', v', g.cs, cs');
    Uncover(rowCovered, colCovered);
  }

  /** What a settled complete matching proves about the costs. */
  lemma SettledIsOptimal(t: array2<real>, marks: array2<Mark>, rs: seq<int>, cs: seq<int>, cost: Matrix, u: seq<real>,
                         v: seq<real>)
    requires Settled(t, marks, rs, cs, cost, u, v) && Size(rs) == t.Length0
    ensures IsOptimal(cost, rs, t.Length0, t.Length1)
  {
    CompleteIsAssignment(rs, cs, t.Length0, t.Length1);
    assert forall i | 0 <= i < t.Length0 :: t[i, rs[i]] == 0.0;
    Duality(cost, rs, u, v, t.Length0, t.Length1);
  }

  /**
   For every n by m table with n <= m: a minimum-cost assignment of the original costs.  `calls` has the
   number of searches of each phase: there are at most n phases, and at most n + 1 searches in each if no
   row's spread exceeds the sentinel.
   */
  method KuhnMatch(table: array2<real>) returns (assignment: array<(int, int)>, ghost calls: seq<nat>)
    requires table.Length0 <= table.Length1
    modifies table
    ensures fresh(assignment) && assignment.Length == table.Length0
    ensures forall i | 0 <= i < assignment.Length :: assignment[i].0 == i
    ensures IsOptimal(old(Contents(table)), Columns(assignment), table.Length0, table.Length1)
    ensures |calls| <= table.Length0
    ensures SpreadWithin(old(Contents(table)), 2147483647.0) ==> forall k | 0 <= k < |calls| ::
        calls[k] <= table.Length0 + 1
  {
    hide Timed, MarksAre, OnZeros, Potentials, AboveMinima, SpreadWithin;
    calls := [];
    var n, m := table.Length0, table.Length1;
    ghost var cost := Contents(table);
    ghost var rs, cs, u, v;
    var marks;
    marks, rs, cs, u, v := Prepare(table);
    var rowCovered := new bool[n](_ => false);
    var colCovered := new bool[m](_ => false);
    var altRow := new nat[n * m];
    var altCol := new nat[n * m];
    var rowPrimes := new int[n];
    var colMarks := new int[m];
    var done := IsDone(marks, colCovered, rs, cs, NoPrimes(n));
    while !done
      invariant Settled(table, marks, rs, cs, cost, u, v)
      invariant forall i | 0 <= i < n :: !rowCovered[i]
      invariant forall j | 0 <= j < m :: colCovered[j] <==> cs[j] >= 0
      invariant done <==> Size(rs) == n
      invariant |calls| <= Size(rs)
      invariant SpreadWithin(cost, SENTINEL) ==> forall k | 0 <= k < |calls| :: calls[k] <= n + 1
      decreases n - Size(rs)
    {
      SizeBound(rs);
      ghost var searches;
      rs, cs, u, v, searches :=
        Augment(table, marks, rowCovered, colCovered, altRow, altCol, colMarks, rowPrimes, cost, u, v, rs, cs);
      calls := calls + [searches];
      done := IsDone(marks, colCovered, rs, cs, NoPrimes(n));
    }
    SettledIsOptimal(table, marks, rs, cs, cost, u, v);
    assignment := Assign(marks, rs, NoPrimes(n));
  }
}
