/**
 `kuhn_altMarks` of core/math/HungarianSolver.cpp: follows the alternating path of primes and stars
 from the last prime, flips the marks on it and clears the primes that are left.
 */
module KuhnAugment {
  import opened Matchings
  import opened Kuhn

  /** Notes the star of every column and the prime of every row. */
  method IndexMarks(marks: array2<Mark>, colMarks: array<int>, rowPrimes: array<int>,
                    ghost rs: seq<int>, ghost cs: seq<int>, ghost rp: seq<int>)
    requires rowPrimes != colMarks && rowPrimes.Length == marks.Length0 && colMarks.Length == marks.Length1
    requires marks.Length0 <= marks.Length1
    requires Matching(rs, cs, marks.Length0, marks.Length1) && MarksAre(marks, rs, rp)
    requires forall i | 0 <= i < marks.Length0 :: -1 <= rp[i] < marks.Length1
    modifies colMarks, rowPrimes
    ensures colMarks[..] == cs && rowPrimes[..] == rp
  {
    var n, m := marks.Length0, marks.Length1;
    for i := 0 to n
      invariant forall k | 0 <= k < i :: rowPrimes[k] == -1 && colMarks[k] == -1
    {
      rowPrimes[i] := -1;
      colMarks[i] := -1;
    }
    for i := n to m
      invariant forall k | 0 <= k < n :: rowPrimes[k] == -1
      invariant forall l | 0 <= l < i :: colMarks[l] == -1
    {
      colMarks[i] := -1;
    }
    for i := 0 to n
      invariant forall k | 0 <= k < n :: rowPrimes[k] == if k < i then rp[k] else -1
      invariant forall l | 0 <= l < m :: colMarks[l] == if cs[l] < i then cs[l] else -1
    {
      for j := 0 to m
        invariant forall k | 0 <= k < n :: rowPrimes[k] == if k < i || (k == i && rp[k] < j) then rp[k] else -1
        invariant forall l | 0 <= l < m :: colMarks[l] == if cs[l] < i || (cs[l] == i && l < j) then cs[l] else -1
      {
        if marks[i, j] == Starred {
          colMarks[j] := i;
        } else if marks[i, j] == Primed {
          rowPrimes[i] := j;
        }
      }
    }
  }

  /** altRow and altCol list the path: each row's prime at 2p, the star it was entered by at 2p - 1. */
  ghost predicate PathCells(altRow: seq<nat>, altCol: seq<nat>, g: Phase, r: nat, c: nat, w: Walk)
    requires |g.rp| == |g.rs|
    requires forall p | 0 <= p < |w.rows| :: w.rows[p] < |g.rp|
  {
    && |altRow| == |altCol| && 0 < |w.rows| && 2 * |w.rows| - 1 <= |altRow|
    && (forall p {:trigger w.rows[p]} | 0 <= p < |w.rows| ::
        altRow[2 * p] == w.rows[p] && altCol[2 * p] == PrimeOf(g, r, c, w.rows[p]))
    && (forall p {:trigger w.rows[p]} | 1 <= p < |w.rows| ::
        altRow[2 * p - 1] == w.rows[p] && altCol[2 * p - 1] == g.rs[w.rows[p]])
  }

  /** The state of the path at the head of the loop; `index` is its last cell so far. */
  ghost predicate Traced(altRow: seq<nat>, altCol: seq<nat>, index: nat, g: Phase, r: nat, c: nat, w: Walk, n: nat,
                         m: nat)
    requires Start(g, r, c, n, m)
  {
    && WalkOk(g, r, c, w, n, m)
    && |altRow| == |altCol| == n * m
    && index == 2 * (|w.rows| - 1) < n * m
    && altCol[index] == w.col
    && PathCells(altRow, altCol, g, r, c, w)
  }

  lemma TraceBounded(altRow: seq<nat>, altCol: seq<nat>, index: nat, g: Phase, r: nat, c: nat, w: Walk, n: nat, m: nat)
    requires Start(g, r, c, n, m) && Traced(altRow, altCol, index, g, r, c, w, n, m)
    ensures index < n * m == |altRow| == |altCol| && altCol[index] == w.col < m && |w.rows| <= g.clock + 1
  {
  }

  /** Follows the path from the prime (r, c) to a column without star. */
  method TracePath(altRow: array<nat>, altCol: array<nat>, colMarks: array<int>, rowPrimes: array<int>,
                   r: nat, c: nat, n: nat, m: nat, ghost g: Phase)
    returns (index: nat, ghost w: Walk)
    requires altRow != altCol && altRow.Length == altCol.Length == n * m && n <= m
    requires Start(g, r, c, n, m) && Timed(g) && colMarks[..] == g.cs && rowPrimes[..] == g.rp[r := c]
    modifies altRow, altCol
    ensures Traced(altRow[..], altCol[..], index, g, r, c, w, n, m) && NextRow(g, w) < 0
  {
    hide Timed, Traced;
    index, w := TraceStart(altRow, altCol, r, c, n, m, g);
    TraceBounded(altRow[..], altCol[..], index, g, r, c, w, n, m);
    while colMarks[altCol[index]] >= 0
      invariant Traced(altRow[..], altCol[..], index, g, r, c, w, n, m)
      invariant index < n * m && altCol[index] == w.col < m && |w.rows| <= g.clock + 1
      decreases g.clock + 1 - |w.rows|
    {
      index, w := TraceStep(altRow, altCol, rowPrimes, index, colMarks[altCol[index]], r, c, n, m, g, w);
      TraceBounded(altRow[..], altCol[..], index, g, r, c, w, n, m);
    }
  }

  method TraceStart(altRow: array<nat>, altCol: array<nat>, r: nat, c: nat, n: nat, m: nat, ghost g: Phase)
    returns (index: nat, ghost w: Walk)
    requires altRow != altCol && altRow.Length == altCol.Length == n * m && n <= m
    requires Start(g, r, c, n, m) && Timed(g)
    modifies altRow, altCol
    ensures Traced(altRow[..], altCol[..], index, g, r, c, w, n, m)
  {
    w := FirstWalk(g, r, c);
    WalkStarts(g, r, c, n, m);
    PathFits(g, r, c, w, n, m);
    index := 0;
    altRow[0] := r;
    altCol[0] := c;
  }

  /** Appends the star in `row`, under the last prime, and the prime of `row`. */
  method WriteCells(altRow: array<nat>, altCol: array<nat>, rowPrimes: array<int>, index: nat,
                    row: nat) returns (index': nat)
    requires altRow != altCol && altRow.Length == altCol.Length && index + 2 < altRow.Length
    requires row < rowPrimes.Length && rowPrimes[row] >= 0
    modifies altRow, altCol
    ensures index' == index + 2
    ensures altRow[..] == old(altRow[..])[index + 1 := row][index + 2 := row]
    ensures altCol[..] == old(altCol[..])[index + 1 := old(altCol[index])][index + 2 := rowPrimes[row]]
  {
    index' := index + 1;
    altRow[index'] := row;
    altCol[index'] := altCol[index' - 1];
    var col := rowPrimes[altRow[index']];
    index' := index' + 1;
    altRow[index'] := altRow[index' - 1];
    altCol[index'] := col;
  }

  /** The arrays have room for the cells of the next row on the path. */
  lemma TraceHasRoom(altRow: seq<nat>, altCol: seq<nat>, index: nat, g: Phase, r: nat, c: nat, w: Walk, n: nat, m: nat)
    requires n <= m && Start(g, r, c, n, m) && Timed(g) && Traced(altRow, altCol, index, g, r, c, w, n, m)
        && NextRow(g, w) >= 0
    ensures NextRow(g, w) < n && 0 <= g.rp[NextRow(g, w)] < m && NextRow(g, w) != r
    ensures |altRow| == |altCol| == n * m && index + 2 < n * m
    ensures WalkOk(g, r, c, NextWalk(g, w), n, m)
  {
    hide Timed, WalkFalls, WalkMatches, PathCells;
    NextHasPrime(g, r, c, w, n, m);
    WalkGoesOn(g, r, c, w, n, m);
    PathFits(g, r, c, NextWalk(g, w), n, m);
  }

  /** The cells of the next row on the path, appended, extend what the arrays list. */
  lemma TracedGrows(altRow: seq<nat>, altCol: seq<nat>, altRow': seq<nat>, altCol': seq<nat>, index: nat, g: Phase,
      r: nat,
                    c: nat, w: Walk, n: nat, m: nat)
    requires n <= m && Start(g, r, c, n, m) && Timed(g) && Traced(altRow, altCol, index, g, r, c, w, n, m)
        && NextRow(g, w) >= 0
    requires index + 2 < |altRow| == |altCol| && NextRow(g, w) < n && 0 <= g.rp[NextRow(g, w)] < m
    requires altRow' == altRow[index + 1 := NextRow(g, w)][index + 2 := NextRow(g, w)]
    requires altCol' == altCol[index + 1 := altCol[index]][index + 2 := g.rp[NextRow(g, w)]]
    ensures Traced(altRow', altCol', index + 2, g, r, c, NextWalk(g, w), n, m)
  {
    hide Timed, WalkFalls, WalkMatches, PathCells;
    TraceHasRoom(altRow, altCol, index, g, r, c, w, n, m);
    NextHasPrime(g, r, c, w, n, m);
    PathCellsGrow(altRow, altCol, altRow', altCol', g, r, c, w);
  }

  /** One pass of the loop: to the star in `row`, then to the prime of that row. */
  method TraceStep(altRow: array<nat>, altCol: array<nat>, rowPrimes: array<int>, index: nat, row: nat,
                   r: nat, c: nat, n: nat, m: nat, ghost g: Phase, ghost w: Walk)
    returns (index': nat, ghost w': Walk)
    requires altRow != altCol && altRow.Length == altCol.Length == n * m && n <= m
    requires Start(g, r, c, n, m) && Timed(g) && rowPrimes[..] == g.rp[r := c]
    requires Traced(altRow[..], altCol[..], index, g, r, c, w, n, m) && NextRow(g, w) == row
    modifies altRow, altCol
    ensures Traced(altRow[..], altCol[..], index', g, r, c, w', n, m)
    ensures |w'.rows| == |w.rows| + 1
  {
    hide Timed, WalkFalls, WalkMatches, PathCells;
    TraceHasRoom(altRow[..], altCol[..], index, g, r, c, w, n, m);
    w' := NextWalk(g, w);
    index' := WriteCells(altRow, altCol, rowPrimes, index, row);
    TracedGrows(old(altRow[..]), old(altCol[..]), altRow[..], altCol[..], index, g, r, c, w, n, m);
  }

  lemma PathCellsGrow(altRow: seq<nat>, altCol: seq<nat>, altRow': seq<nat>, altCol': seq<nat>, g: Phase, r: nat,
                      c: nat, w: Walk)
    requires |g.rp| == |g.rs| && (forall p | 0 <= p < |w.rows| :: w.rows[p] < |g.rp|)
    requires PathCells(altRow, altCol, g, r, c, w)
    requires w.col < |g.cs| && 0 <= NextRow(g, w) < |g.rp| && NextRow(g, w) < |w.pos| && NextRow(g, w) < |w.rs|
    requires 0 <= g.rp[NextRow(g, w)] < |w.cs| && NextRow(g, w) != r && g.rs[NextRow(g, w)] == w.col
    requires |altRow'| == |altCol'| && 2 * |w.rows| + 1 <= |altRow'| == |altRow|
    requires altRow' == altRow[2 * |w.rows| - 1 := NextRow(g, w)][2 * |w.rows| := NextRow(g, w)]
    requires altCol' == altCol[2 * |w.rows| - 1 := w.col][2 * |w.rows| := g.rp[NextRow(g, w)]]
    ensures PathCells(altRow', altCol', g, r, c, NextWalk(g, w))
  {
    var w' := NextWalk(g, w);
    forall p | 0 <= p < |w'.rows|
      ensures altRow'[2 * p] == w'.rows[p] && altCol'[2 * p] == PrimeOf(g, r, c, w'.rows[p])
      ensures p >= 1 ==> altRow'[2 * p - 1] == w'.rows[p] && altCol'[2 * p - 1] == g.rs[w'.rows[p]]
    {
      if p < |w.rows| {
        assert w'.rows[p] == w.rows[p];
      }
    }
  }

  /** The mark a cell shows when the first `k` cells of the path have been flipped. */
  ghost function MarkAfter(g: Phase, r: nat, c: nat, w: Walk, i: nat, j: nat, k: nat): Mark
    requires i < |g.rp| && i < |g.rs| && i < |w.pos|
  {
    if j == PrimeOf(g, r, c, i) then
      if w.pos[i] >= 0 && 2 * w.pos[i] < k then Starred else Primed
    else if j == g.rs[i] then
      if w.pos[i] > 0 && 2 * w.pos[i] - 1 < k then Unmarked else Starred
    else
      Unmarked
  }

  ghost predicate Flipped(marks: array2<Mark>, g: Phase, r: nat, c: nat, w: Walk, k: nat)
    reads marks
    requires |g.rp| == |g.rs| == |w.pos| == marks.Length0
  {
    forall i: nat, j: nat | i < marks.Length0 && j < marks.Length1 :: marks[i, j] == MarkAfter(g, r, c, w, i, j, k)
  }

  method FlipCell(marks: array2<Mark>, i: nat, j: nat)
    requires i < marks.Length0 && j < marks.Length1
    modifies marks
    ensures forall a, b | 0 <= a < marks.Length0 && 0 <= b < marks.Length1 && (a != i || b != j) ::
        marks[a, b] == old(marks[a, b])
    ensures marks[i, j] == if old(marks[i, j]) == Starred then Unmarked else Starred
  {
    if marks[i, j] == Starred {
      marks[i, j] := Unmarked;
    } else {
      marks[i, j] := Starred;
    }
  }

  /** The k-th cell of the path, from its place: even cells are primes, odd cells are stars. */
  lemma PathCell(altRow: seq<nat>, altCol: seq<nat>, g: Phase, r: nat, c: nat, w: Walk, n: nat, m: nat, k: nat)
    requires |g.rs| == |g.rp| == |g.rank| == n && |g.cs| == m && WalkShape(g, r, c, w, n, m)
    requires PathCells(altRow, altCol, g, r, c, w) && k < 2 * |w.rows| - 1
    ensures altRow[k] < n && w.pos[altRow[k]] == (k + 1) / 2
    ensures altCol[k] == if k % 2 == 0 then PrimeOf(g, r, c, altRow[k]) else g.rs[altRow[k]]
  {
    var p := (k + 1) / 2;
    assert w.rows[p] < n && w.pos[w.rows[p]] == p;
    assert k == 2 * p || k == 2 * p - 1;
  }

  /** Flipping cell `k` of the path, and no other cell, is what one more step means. */
  lemma MarkStep(g: Phase, r: nat, c: nat, w: Walk, n: nat, m: nat, k: nat, row: nat, col: nat, i: nat, j: nat)
    requires |g.rs| == |g.rp| == |g.rank| == n && |g.cs| == m && WalkShape(g, r, c, w, n, m)
    requires row < n && w.pos[row] == (k + 1) / 2 && PrimeOf(g, r, c, row) != g.rs[row]
    requires col == if k % 2 == 0 then PrimeOf(g, r, c, row) else g.rs[row]
    requires i < n && j < m
    ensures i != row || j != col ==> MarkAfter(g, r, c, w, i, j, k + 1) == MarkAfter(g, r, c, w, i, j, k)
    ensures i == row && j == col ==>
        MarkAfter(g, r, c, w, i, j, k + 1) == if MarkAfter(g, r, c, w, i, j, k) == Starred then Unmarked else Starred
  {
    if w.pos[i] == (k + 1) / 2 {
      assert w.rows[w.pos[i]] == i && w.rows[w.pos[row]] == row;
    }
  }

  method FlipPath(marks: array2<Mark>, altRow: array<nat>, altCol: array<nat>, index: nat, ghost g: Phase, ghost r: nat,
                  ghost c: nat, ghost w: Walk)
    requires |g.rs| == |g.rp| == |g.rank| == marks.Length0 && |g.cs| == marks.Length1
    requires WalkShape(g, r, c, w, marks.Length0, marks.Length1)
    requires forall i | 0 <= i < marks.Length0 :: PrimeOf(g, r, c, i) < marks.Length1 && g.rs[i] < marks.Length1
    requires forall i | 0 <= i < marks.Length0 && w.pos[i] >= 0 :: PrimeOf(g, r, c, i) != g.rs[i]
    requires index == 2 * (|w.rows| - 1) && PathCells(altRow[..], altCol[..], g, r, c, w)
    requires Flipped(marks, g, r, c, w, 0)
    modifies marks
    ensures Flipped(marks, g, r, c, w, index + 1)
  {
    for k := 0 to index + 1
      invariant Flipped(marks, g, r, c, w, k)
    {
      PathCell(altRow[..], altCol[..], g, r, c, w, marks.Length0, marks.Length1, k);
      FlipOne(marks, altRow[k], altCol[k], g, r, c, w, k);
    }
  }

  method FlipOne(marks: array2<Mark>, row: nat, col: nat, ghost g: Phase, ghost r: nat, ghost c: nat, ghost w: Walk,
                 ghost k: nat)
    requires |g.rs| == |g.rp| == |g.rank| == marks.Length0 && |g.cs| == marks.Length1
    requires WalkShape(g, r, c, w, marks.Length0, marks.Length1)
    requires row < marks.Length0 && col < marks.Length1 && w.pos[row] == (k + 1) / 2
    requires PrimeOf(g, r, c, row) != g.rs[row]
    requires col == if k % 2 == 0 then PrimeOf(g, r, c, row) else g.rs[row]
    requires Flipped(marks, g, r, c, w, k)
    modifies marks
    ensures Flipped(marks, g, r, c, w, k + 1)
  {
    FlipCell(marks, row, col);
    forall i: nat, j: nat | i < marks.Length0 && j < marks.Length1
      ensures marks[i, j] == MarkAfter(g, r, c, w, i, j, k + 1)
    {
      MarkStep(g, r, c, w, marks.Length0, marks.Length1, k, row, col, i, j);
    }
  }

  method ClearPrimes(marks: array2<Mark>)
    modifies marks
    ensures forall i, j | 0 <= i < marks.Length0 && 0 <= j < marks.Length1 ::
              marks[i, j] == if old(marks[i, j]) == Primed then Unmarked else old(marks[i, j])
  {
    for i := 0 to marks.Length0
      invariant forall a, b | 0 <= a < marks.Length0 && 0 <= b < marks.Length1 ::
                  marks[a, b] == if a < i && old(marks[a, b]) == Primed then Unmarked else old(marks[a, b])
    {
      for j := 0 to marks.Length1
        invariant forall a, b | 0 <= a < marks.Length0 && 0 <= b < marks.Length1 ::
                    marks[a, b] == if (a < i || (a == i && b < j)) && old(marks[a, b]) == Primed then Unmarked
                        else old(marks[a, b])
      {
        if marks[i, j] == Primed {
          marks[i, j] := Unmarked;
        }
      }
    }
  }

  /** A prime never stands on the star of its own row. */
  lemma PrimesOffStars(g: Phase, r: nat, c: nat, n: nat, m: nat)
    requires Start(g, r, c, n, m)
    ensures forall i | 0 <= i < n :: -1 <= PrimeOf(g, r, c, i) < m
    ensures forall i | 0 <= i < n && PrimeOf(g, r, c, i) >= 0 :: PrimeOf(g, r, c, i) != g.rs[i]
  {
    forall i | 0 <= i < n && PrimeOf(g, r, c, i) >= 0
      ensures PrimeOf(g, r, c, i) != g.rs[i]
    {
      if i != r {
        assert g.rp[i] >= 0 ==> g.rank[i] >= 0;
      }
    }
  }

  /** Clearing the primes of the flipped matrix leaves the stars of the walk's matching. */
  method ClearPath(marks: array2<Mark>, ghost g: Phase, ghost r: nat, ghost c: nat, ghost w: Walk, ghost k: nat)
    requires |g.rs| == |g.rp| == |g.rank| == marks.Length0 && |g.cs| == marks.Length1
    requires WalkShape(g, r, c, w, marks.Length0, marks.Length1) && k == 2 * |w.rows| - 1
    requires forall i | 0 <= i < marks.Length0 :: g.rs[i] >= 0 ==> PrimeOf(g, r, c, i) != g.rs[i]
    requires r < |g.rs| && g.rs[r] < 0
    requires Flipped(marks, g, r, c, w, k)
    modifies marks
    ensures MarksAre(marks, w.rs, NoPrimes(marks.Length0))
  {
    ClearPrimes(marks);
    forall i: nat, j: nat | i < marks.Length0 && j < marks.Length1
      ensures marks[i, j] == Starred <==> w.rs[i] == j
      ensures marks[i, j] != Primed
    {
      assert old(marks[i, j]) == MarkAfter(g, r, c, w, i, j, k);
      assert w.rs[i] == if w.pos[i] >= 0 then PrimeOf(g, r, c, i) else g.rs[i];
    }
  }

  /** Flips the traced path and clears the primes. */
  method FlipWalk(marks: array2<Mark>, altRow: array<nat>, altCol: array<nat>, index: nat, ghost g: Phase, ghost r: nat,
                  ghost c: nat, ghost w: Walk)
    requires Start(g, r, c, marks.Length0, marks.Length1) && MarksAre(marks, g.rs, g.rp[r := c])
    requires Traced(altRow[..], altCol[..], index, g, r, c, w, marks.Length0, marks.Length1)
    modifies marks
    ensures MarksAre(marks, w.rs, NoPrimes(marks.Length0))
  {
    hide WalkFalls, WalkMatches, PathCells;
    PrimesOffStars(g, r, c, marks.Length0, marks.Length1);
    assert forall i | 0 <= i < marks.Length0 :: g.rp[r := c][i] == PrimeOf(g, r, c, i);
    FlipPath(marks, altRow, altCol, index, g, r, c, w);
    ClearPath(marks, g, r, c, w, index + 1);
  }

  /** One more star, no prime left, and every new star stands where a star or a prime stood. */
  method AltMarks(marks: array2<Mark>, altRow: array<nat>, altCol: array<nat>, colMarks: array<int>,
                  rowPrimes: array<int>,
                  prime: (nat, nat), ghost g: Phase)
    returns (ghost rs: seq<int>, ghost cs: seq<int>)
    requires marks.Length0 <= marks.Length1
    requires altRow != altCol && altRow.Length == altCol.Length == marks.Length0 * marks.Length1
    requires rowPrimes != colMarks && rowPrimes.Length == marks.Length0 && colMarks.Length == marks.Length1
    requires Start(g, prime.0, prime.1, marks.Length0, marks.Length1) && Timed(g)
    requires MarksAre(marks, g.rs, g.rp[prime.0 := prime.1])
    modifies marks, altRow, altCol, colMarks, rowPrimes
    ensures Matching(rs, cs, marks.Length0, marks.Length1) && Size(rs) == Size(g.rs) + 1
    ensures MarksAre(marks, rs, NoPrimes(marks.Length0))
    ensures forall i | 0 <= i < marks.Length0 :: rs[i] == g.rs[i] || rs[i] == g.rp[prime.0 := prime.1][i]
    ensures forall j | 0 <= j < marks.Length1 :: g.cs[j] >= 0 ==> cs[j] >= 0
  {
    hide WalkFalls, WalkMatches, Timed, PathCells, Size, MarksAre;
    var n, m := marks.Length0, marks.Length1;
    ghost var r, c := prime.0, prime.1;
    PrimesOffStars(g, r, c, n, m);
    assert forall i | 0 <= i < n :: g.rp[r := c][i] == PrimeOf(g, r, c, i);
    IndexMarks(marks, colMarks, rowPrimes, g.rs, g.cs, g.rp[r := c]);
    var index, w := TracePath(altRow, altCol, colMarks, rowPrimes, prime.0, prime.1, n, m, g);
    FlipWalk(marks, altRow, altCol, index, g, r, c, w);
    WalkEnds(g, r, c, w, n, m);
    rs, cs := w.rs, w.cs;
  }
}
