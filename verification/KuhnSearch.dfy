/**
 `kuhn_findPrime` of core/math/HungarianSolver.cpp: the search for an uncovered zero in a row without
 star, covering rows and opening columns on the way.
 */
module KuhnSearch {
  import opened Wrappers
  import opened Matchings
  import opened ZeroCells
  import opened Kuhn

  /** An uncovered cell: its row is not covered and its column is open. */
  ghost predicate Uncovered(g: Phase, i: nat, j: nat)
    requires i < |g.rank| && j < |g.cs| && -1 <= g.cs[j] < |g.rank|
  {
    g.rank[i] < 0 && OpenColumn(g, j)
  }

  ghost predicate HasUncoveredZero(t: array2<real>, g: Phase)
    reads t
    requires PhaseOk(g, t.Length0, t.Length1)
  {
    exists i, j | 0 <= i < t.Length0 && 0 <= j < t.Length1 :: Uncovered(g, i, j) && t[i, j] == 0.0
  }

  /** Everything the arrays say about a phase of the search. */
  ghost predicate Searching(t: array2<real>, marks: array2<Mark>, rowCovered: array<bool>, colCovered: array<bool>,
                            g: Phase)
    reads t, marks, rowCovered, colCovered
  {
    var n, m := t.Length0, t.Length1;
    && marks.Length0 == rowCovered.Length == n && marks.Length1 == colCovered.Length == m
    && PhaseOk(g, n, m)
    && MarksAre(marks, g.rs, g.rp)
    && CoversAre(rowCovered, colCovered, g)
    && OnZeros(t, g.rs, g.rp)
  }

  /** Throughout a phase, every star is covered by exactly one of its row and its column. */
  lemma StarCoveredOnce(t: array2<real>, marks: array2<Mark>, rowCovered: array<bool>, colCovered: array<bool>,
                        g: Phase, i: nat, j: nat)
    requires Searching(t, marks, rowCovered, colCovered, g) && i < t.Length0 && j < t.Length1 && marks[i, j] == Starred
    ensures rowCovered[i] != colCovered[j] && t[i, j] == 0.0
  {
    assert g.rs[i] == j && g.cs[j] == i;
  }

  /** The set holds exactly the zeros with row and column uncovered, outside row `row` and column `col`. */
  ghost predicate ZeroesBut(t: array2<real>, rowCovered: array<bool>, colCovered: array<bool>, cells: set<(nat, nat)>,
                            row: int, col: int)
    reads t, rowCovered, colCovered
    requires rowCovered.Length == t.Length0 && colCovered.Length == t.Length1
  {
    && (forall i: nat, j: nat | (i, j) in cells :: i < t.Length0 && j < t.Length1 && t[i, j] == 0.0)
    && (forall i: nat, j: nat | i < t.Length0 && j < t.Length1 && t[i, j] == 0.0 && i != row && j != col ::
          (i, j) in cells <==> !rowCovered[i] && !colCovered[j])
  }

  ghost predicate ZeroesAre(t: array2<real>, rowCovered: array<bool>, colCovered: array<bool>, cells: set<(nat, nat)>)
    reads t, rowCovered, colCovered
    requires rowCovered.Length == t.Length0 && colCovered.Length == t.Length1
  {
    ZeroesBut(t, rowCovered, colCovered, cells, -1, -1)
  }

  method CollectZeroes(t: array2<real>, rowCovered: array<bool>, colCovered: array<bool>) returns (zeroes: CellSet)
    requires rowCovered.Length == t.Length0 && colCovered.Length == t.Length1
    ensures fresh(zeroes.Repr()) && zeroes.Valid() && zeroes.n == t.Length0 && zeroes.m == t.Length1
    ensures ZeroesAre(t, rowCovered, colCovered, zeroes.cells)
  {
    var n, m := t.Length0, t.Length1;
    zeroes := new CellSet(n, m);
    for i := 0 to n
      invariant fresh(zeroes.Repr()) && zeroes.Valid()
      invariant forall a: nat, b: nat :: (a, b) in zeroes.cells <==>
                  a < i && b < m && !rowCovered[a] && !colCovered[b] && t[a, b] == 0.0
    {
      if !rowCovered[i] {
        for j := 0 to m
          invariant fresh(zeroes.Repr()) && zeroes.Valid()
          invariant forall a: nat, b: nat :: (a, b) in zeroes.cells <==>
                      ((a < i && b < m) || (a == i && b < j)) && !rowCovered[a] && !colCovered[b] && t[a, b] == 0.0
        {
          if !colCovered[j] && t[i, j] == 0.0 {
            zeroes.Set(i, j);
          }
        }
      }
    }
  }

  /** Puts cell (i, j) in or out of the set by its covers. */
  method Refresh(rowCovered: array<bool>, colCovered: array<bool>, zeroes: CellSet, i: nat, j: nat)
    requires zeroes.Valid() && i < zeroes.n == rowCovered.Length && j < zeroes.m == colCovered.Length
    requires rowCovered !in zeroes.Repr() && colCovered !in zeroes.Repr()
    modifies zeroes.Repr()
    ensures zeroes.Valid()
    ensures zeroes.cells == if !rowCovered[i] && !colCovered[j] then old(zeroes.cells) + {(i, j)}
        else old(zeroes.cells) - {(i, j)}
  {
    if !rowCovered[i] && !colCovered[j] {
      zeroes.Set(i, j);
    } else {
      zeroes.Unset(i, j);
    }
  }

  method RefreshColumn(t: array2<real>, rowCovered: array<bool>, colCovered: array<bool>, zeroes: CellSet, row: nat,
                       col: nat)
    requires rowCovered.Length == zeroes.n == t.Length0 && colCovered.Length == zeroes.m == t.Length1
    requires row < t.Length0 && col < t.Length1
    requires rowCovered !in zeroes.Repr() && colCovered !in zeroes.Repr() && t !in zeroes.Repr() && zeroes.Valid()
    requires ZeroesBut(t, rowCovered, colCovered, zeroes.cells, row, col)
    modifies zeroes.Repr()
    ensures zeroes.Valid() && ZeroesBut(t, rowCovered, colCovered, zeroes.cells, row, -1)
  {
    for i := 0 to t.Length0
      invariant zeroes.Valid() && ZeroesBut(t, rowCovered, colCovered, zeroes.cells, row, col)
      invariant forall k: nat | k < i && k != row && t[k, col] == 0.0 :: (k, col) in zeroes.cells <==>
          !rowCovered[k] && !colCovered[col]
    {
      if t[i, col] == 0.0 && row != i {
        Refresh(rowCovered, colCovered, zeroes, i, col);
      }
    }
  }

  method RefreshRow(t: array2<real>, rowCovered: array<bool>, colCovered: array<bool>, zeroes: CellSet, row: nat,
                    col: nat)
    requires rowCovered.Length == zeroes.n == t.Length0 && colCovered.Length == zeroes.m == t.Length1
    requires row < t.Length0 && col < t.Length1 && t[row, col] == 0.0
    requires rowCovered !in zeroes.Repr() && colCovered !in zeroes.Repr() && t !in zeroes.Repr() && zeroes.Valid()
    requires ZeroesBut(t, rowCovered, colCovered, zeroes.cells, row, -1)
    modifies zeroes.Repr()
    ensures zeroes.Valid() && ZeroesAre(t, rowCovered, colCovered, zeroes.cells)
  {
    for j := 0 to t.Length1
      invariant zeroes.Valid() && ZeroesBut(t, rowCovered, colCovered, zeroes.cells, row, -1)
      invariant forall l: nat | l < j && l != col && t[row, l] == 0.0 :: (row, l) in zeroes.cells <==>
          !rowCovered[row] && !colCovered[l]
    {
      if t[row, j] == 0.0 && col != j {
        Refresh(rowCovered, colCovered, zeroes, row, j);
      }
    }
    Refresh(rowCovered, colCovered, zeroes, row, col);
  }

  /** The column of the star in a row, or the given column when the row has none. */
  method StarInRow(marks: array2<Mark>, row: nat, col: nat, ghost rs: seq<int>,
                   ghost rp: seq<int>) returns (markInRow: bool, col': nat)
    requires row < marks.Length0 && col < marks.Length1
    requires MarksAre(marks, rs, rp) && -1 <= rs[row] < marks.Length1
    ensures markInRow <==> rs[row] >= 0
    ensures col' == if rs[row] >= 0 then rs[row] else col
  {
    markInRow, col' := false, col;
    for j := 0 to marks.Length1
      invariant markInRow <==> 0 <= rs[row] < j
      invariant col' == if markInRow then rs[row] else col
    {
      if marks[row, j] == Starred {
        markInRow, col' := true, j;
      }
    }
  }

  /** Covers row `row` and opens column `col`, where the row's star stands. */
  method Cover(t: array2<real>, rowCovered: array<bool>, colCovered: array<bool>, row: nat, col: nat,
               ghost g: Phase, ghost prime: nat, ghost cells: set<(nat, nat)>)
    requires rowCovered != colCovered && rowCovered.Length == t.Length0 && colCovered.Length == t.Length1
    requires PhaseOk(g, t.Length0, t.Length1) && row < t.Length0 && col < t.Length1 && prime < t.Length1
    requires g.rank[row] < 0 && g.rs[row] == col && OpenColumn(g, prime)
    requires CoversAre(rowCovered, colCovered, g) && ZeroesAre(t, rowCovered, colCovered, cells)
    modifies rowCovered, colCovered
    ensures PhaseOk(CoverRow(g, row, prime), t.Length0, t.Length1)
    ensures CoversAre(rowCovered, colCovered, CoverRow(g, row, prime))
    ensures ZeroesBut(t, rowCovered, colCovered, cells, row, col)
  {
    CoverRowOk(g, row, prime, t.Length0, t.Length1);
    rowCovered[row] := true;
    colCovered[col] := false;
  }

  /** One round of the search: covers starred row `row`, opens its star's column, refreshes the set. */
  method Advance(t: array2<real>, marks: array2<Mark>, rowCovered: array<bool>, colCovered: array<bool>,
      zeroes: CellSet,
                 row: nat, col: nat, ghost g: Phase, ghost prime: nat)
    requires rowCovered != colCovered && rowCovered !in zeroes.Repr() && colCovered !in zeroes.Repr()
    requires t !in zeroes.Repr() && marks !in zeroes.Repr()
    requires marks.Length0 == rowCovered.Length == zeroes.n == t.Length0
    requires marks.Length1 == colCovered.Length == zeroes.m == t.Length1
    requires PhaseOk(g, t.Length0, t.Length1) && row < t.Length0 && col < t.Length1 && prime < t.Length1
    requires g.rank[row] < 0 && g.rs[row] == col && OpenColumn(g, prime) && t[row, prime] == 0.0
    requires MarksAre(marks, g.rs, g.rp[row := prime]) && CoversAre(rowCovered, colCovered, g) && OnZeros(t, g.rs, g.rp)
    requires zeroes.Valid() && ZeroesAre(t, rowCovered, colCovered, zeroes.cells)
    modifies rowCovered, colCovered, zeroes.Repr()
    ensures Searching(t, marks, rowCovered, colCovered, CoverRow(g, row, prime))
    ensures zeroes.Valid() && ZeroesAre(t, rowCovered, colCovered, zeroes.cells)
  {
    Cover(t, rowCovered, colCovered, row, col, g, prime, zeroes.cells);
    RefreshColumn(t, rowCovered, colCovered, zeroes, row, col);
    RefreshRow(t, rowCovered, colCovered, zeroes, row, col);
  }

  method PutPrime(marks: array2<Mark>, row: nat, col: nat, ghost rs: seq<int>, ghost rp: seq<int>)
    requires row < marks.Length0 && col < marks.Length1
    requires MarksAre(marks, rs, rp) && rs[row] != col && rp[row] < 0
    modifies marks
    ensures MarksAre(marks, rs, rp[row := col])
  {
    marks[row, col] := Primed;
  }

  lemma UncoveredCell(t: array2<real>, rowCovered: array<bool>, colCovered: array<bool>, g: Phase,
                      cells: set<(nat, nat)>, i: nat, j: nat)
    requires rowCovered.Length == t.Length0 && colCovered.Length == t.Length1
    requires PhaseOk(g, t.Length0, t.Length1) && CoversAre(rowCovered, colCovered, g)
    requires ZeroesAre(t, rowCovered, colCovered, cells) && (i, j) in cells
    ensures i < t.Length0 && j < t.Length1 && t[i, j] == 0.0 && Uncovered(g, i, j) && g.rs[i] != j && g.rp[i] < 0
  {
    assert g.rp[i] >= 0 <==> g.rank[i] >= 0;
  }

  lemma NoUncoveredZero(t: array2<real>, rowCovered: array<bool>, colCovered: array<bool>, g: Phase,
                        cells: set<(nat, nat)>)
    requires rowCovered.Length == t.Length0 && colCovered.Length == t.Length1
    requires PhaseOk(g, t.Length0, t.Length1) && CoversAre(rowCovered, colCovered, g)
    requires ZeroesAre(t, rowCovered, colCovered, cells) && cells == {}
    ensures !HasUncoveredZero(t, g)
  {
    forall i, j | 0 <= i < t.Length0 && 0 <= j < t.Length1 && t[i, j] == 0.0
      ensures !Uncovered(g, i, j)
    {
      assert (i, j) !in cells;
    }
  }

  /** The search state together with the set of uncovered zeros, as it stands at every loop head. */
  ghost predicate AtHead(t: array2<real>, marks: array2<Mark>, rowCovered: array<bool>, colCovered: array<bool>,
                         zeroes: CellSet, g: Phase)
    reads t, marks, rowCovered, colCovered, zeroes.Repr()
  {
    && rowCovered != colCovered && rowCovered !in zeroes.Repr() && colCovered !in zeroes.Repr()
    && t !in zeroes.Repr() && marks !in zeroes.Repr()
    && Searching(t, marks, rowCovered, colCovered, g)
    && zeroes.Valid() && zeroes.n == t.Length0 && zeroes.m == t.Length1
    && ZeroesAre(t, rowCovered, colCovered, zeroes.cells)
  }

  /** Primes an uncovered zero, and covers its row if the row has a star. */
  method VisitZero(t: array2<real>, marks: array2<Mark>, rowCovered: array<bool>, colCovered: array<bool>,
                   zeroes: CellSet,
                   row: nat, col: nat, ghost g: Phase)
    returns (markInRow: bool)
    requires AtHead(t, marks, rowCovered, colCovered, zeroes, g) && (row, col) in zeroes.cells
    modifies marks, rowCovered, colCovered, zeroes.Repr()
    ensures row < |g.rp| && row < |g.rank| && g.rank[row] < 0
    ensures markInRow ==> AtHead(t, marks, rowCovered, colCovered, zeroes, CoverRow(g, row, col))
    ensures !markInRow ==> Found(t, marks, row, col, g)
  {
    UncoveredCell(t, rowCovered, colCovered, g, zeroes.cells, row, col);
    PutPrime(marks, row, col, g.rs, g.rp);
    var star;
    markInRow, star := StarInRow(marks, row, col, g.rs, g.rp[row := col]);
    if markInRow {
      Advance(t, marks, rowCovered, colCovered, zeroes, row, star, g, col);
    }
  }

  /** The search loop: it ends with the set empty, or with a prime to start a path from. */
  method SearchLoop(t: array2<real>, marks: array2<Mark>, rowCovered: array<bool>, colCovered: array<bool>,
                    zeroes: CellSet, ghost g: Phase)
    returns (prime: Option<(nat, nat)>, ghost g': Phase)
    requires AtHead(t, marks, rowCovered, colCovered, zeroes, g) && Timed(g)
    modifies marks, rowCovered, colCovered, zeroes.Repr()
    ensures Timed(g')
    ensures g'.rs == g.rs && g'.cs == g.cs && (g' == g || g.clock < g'.clock)
    ensures prime.None? ==> AtHead(t, marks, rowCovered, colCovered, zeroes, g') && zeroes.cells == {}
    ensures prime.Some? ==> Found(t, marks, prime.value.0, prime.value.1, g')
  {
    hide Timed, Searching, ZeroesAre;
    g' := g;
    while true
      invariant AtHead(t, marks, rowCovered, colCovered, zeroes, g') && Timed(g')
      invariant g'.rs == g.rs && g'.cs == g.cs && (g' == g || g.clock < g'.clock)
      decreases |g'.rank| - g'.clock
    {
      var found, row, col := zeroes.Any();
      if !found {
        return None, g';
      }
      ClockWithinRows(g');
      var markInRow := VisitZero(t, marks, rowCovered, colCovered, zeroes, row, col, g');
      if !markInRow {
        return Some((row, col)), g';
      }
      CoverRowTimed(g', row, col);
      g' := CoverRow(g', row, col);
    }
  }

  /**
   Returns `None` exactly when no uncovered zero is left; every zero it passed on the way has covered
   a row.  Otherwise returns a freshly primed zero in a row without star.
   */
  method FindPrime(t: array2<real>, marks: array2<Mark>, rowCovered: array<bool>, colCovered: array<bool>,
      ghost g: Phase)
    returns (prime: Option<(nat, nat)>, ghost g': Phase)
    requires rowCovered != colCovered && Searching(t, marks, rowCovered, colCovered, g) && Timed(g)
    modifies marks, rowCovered, colCovered
    ensures Timed(g')
    ensures g'.rs == g.rs && g'.cs == g.cs && (g' == g || g.clock < g'.clock)
    ensures prime.None? ==> Searching(t, marks, rowCovered, colCovered, g') && !HasUncoveredZero(t, g')
    ensures prime.Some? ==> Found(t, marks, prime.value.0, prime.value.1, g')
  {
    var zeroes := CollectZeroes(t, rowCovered, colCovered);
    prime, g' := SearchLoop(t, marks, rowCovered, colCovered, zeroes, g);
    if prime.None? {
      NoUncoveredZero(t, rowCovered, colCovered, g', zeroes.cells);
    }
  }

  /** The outcome of a successful search: the start of an alternating path, marked as a prime. */
  ghost predicate Found(t: array2<real>, marks: array2<Mark>, row: nat, col: nat, g: Phase)
    reads t, marks
  {
    && marks.Length0 == t.Length0 && marks.Length1 == t.Length1
    && Start(g, row, col, t.Length0, t.Length1)
    && MarksAre(marks, g.rs, g.rp[row := col])
    && OnZeros(t, g.rs, g.rp[row := col])
  }
}
