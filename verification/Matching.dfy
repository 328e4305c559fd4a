/**
 Partial matchings of rows and columns, and the alternating path by which
 core/math/HungarianSolver.cpp enlarges one: what `kuhn_findPrime` leaves behind, why the path of
 `kuhn_altMarks` ends, why it fits its arrays, and what flipping it yields.
 */
module Matchings {
  import opened Assignment

  /** `rs` gives each row its starred column and `cs` each column its starred row; -1 for none. */
  ghost predicate Matching(rs: seq<int>, cs: seq<int>, n: nat, m: nat) {
    && |rs| == n && |cs| == m
    && (forall i | 0 <= i < n :: -1 <= rs[i] < m)
    && (forall j | 0 <= j < m :: -1 <= cs[j] < n)
    && (forall i | 0 <= i < n :: rs[i] >= 0 ==> cs[rs[i]] == i)
    && (forall j | 0 <= j < m :: cs[j] >= 0 ==> rs[cs[j]] == j)
  }

  ghost function Taken(s: seq<int>): (r: seq<bool>)
    ensures |r| == |s| && forall i | 0 <= i < |s| :: r[i] == (s[i] >= 0)
  {
    seq(|s|, i requires 0 <= i < |s| => s[i] >= 0)
  }

  /** The number of stars. */
  ghost function Size(rs: seq<int>): nat {
    Count(Taken(rs))
  }

  lemma SizeBound(rs: seq<int>)
    ensures Size(rs) <= |rs|
  {
    CountBounds(Taken(rs));
  }

  ghost function TakenBelow(cs: seq<int>, k: nat): (r: seq<bool>)
    ensures |r| == |cs| && forall j | 0 <= j < |cs| :: r[j] == (0 <= cs[j] < k)
  {
    seq(|cs|, j requires 0 <= j < |cs| => 0 <= cs[j] < k)
  }

  lemma {:induction false} RowsBelow(rs: seq<int>, cs: seq<int>, n: nat, m: nat, k: nat)
    requires Matching(rs, cs, n, m) && k <= n
    ensures Count(TakenBelow(cs, k)) == Count(Taken(rs[..k]))
  {
    if k == 0 {
      CountBounds(TakenBelow(cs, 0));
    } else {
      RowsBelow(rs, cs, n, m, k - 1);
      var row, before := rs[k - 1], TakenBelow(cs, k - 1);
      assert Taken(rs[..k])[..k - 1] == Taken(rs[..k - 1]);
      if row >= 0 {
        assert TakenBelow(cs, k) == before[row := true];
        CountUpdate(before, row, true);
      } else {
        assert TakenBelow(cs, k) == before;
      }
    }
  }

  /** As many rows as columns carry a star. */
  lemma SameSize(rs: seq<int>, cs: seq<int>, n: nat, m: nat)
    requires Matching(rs, cs, n, m)
    ensures Size(rs) == Size(cs)
  {
    RowsBelow(rs, cs, n, m, n);
    assert rs[..n] == rs;
    assert TakenBelow(cs, n) == Taken(cs);
  }

  /** An incomplete matching of n <= m rows leaves out a row and a column. */
  lemma Unmatched(rs: seq<int>, cs: seq<int>, n: nat, m: nat) returns (i: nat, j: nat)
    requires Matching(rs, cs, n, m) && n <= m && Size(rs) != n
    ensures i < n && rs[i] < 0 && j < m && cs[j] < 0
  {
    SameSize(rs, cs, n, m);
    CountBounds(Taken(rs));
    CountBounds(Taken(cs));
    i :| 0 <= i < n && !Taken(rs)[i];
    j :| 0 <= j < m && !Taken(cs)[j];
  }

  /** A complete matching is an assignment. */
  lemma CompleteIsAssignment(rs: seq<int>, cs: seq<int>, n: nat, m: nat)
    requires Matching(rs, cs, n, m) && Size(rs) == n
    ensures IsAssignment(rs, n, m)
    ensures forall j | 0 <= j < m :: cs[j] >= 0 <==> j in rs
  {
    CountBounds(Taken(rs));
    assert forall i | 0 <= i < n :: Taken(rs)[i];
    forall i, k | 0 <= i < k < n
      ensures rs[i] != rs[k]
    {
      assert cs[rs[i]] == i && cs[rs[k]] == k;
    }
  }

  // ----- one phase of the search

  /**
   What a phase of the search has done so far: the matching, the primed column `rp` of each covered
   row, and the moment `rank` at which the row was covered (both -1 on an uncovered row).
   */
  datatype Phase = Phase(rs: seq<int>, cs: seq<int>, rp: seq<int>, rank: seq<int>, clock: nat)

  /** A column that is not covered: it has no star, or the row of its star is covered. */
  ghost predicate OpenColumn(g: Phase, j: nat)
    requires j < |g.cs| && -1 <= g.cs[j] < |g.rank|
  {
    g.cs[j] < 0 || g.rank[g.cs[j]] >= 0
  }

  ghost predicate PhaseOk(g: Phase, n: nat, m: nat) {
    && Matching(g.rs, g.cs, n, m)
    && |g.rp| == n && |g.rank| == n
    && (forall i | 0 <= i < n :: -1 <= g.rank[i] < g.clock)
    && (forall i | 0 <= i < n :: -1 <= g.rp[i] < m)
    && (forall i {:trigger g.rp[i]} | 0 <= i < n :: g.rp[i] >= 0 <==> g.rank[i] >= 0)
    // every covered row has a star, and its prime stands in a column opened earlier
    && (forall i | 0 <= i < n && g.rank[i] >= 0 :: g.rs[i] >= 0)
    && (forall i {:trigger g.rp[i]} | 0 <= i < n && g.rank[i] >= 0 ::
        g.cs[g.rp[i]] < 0 || 0 <= g.rank[g.cs[g.rp[i]]] < g.rank[i])
  }

  /** The clock counts the covered rows. */
  ghost predicate Timed(g: Phase) {
    g.clock == Size(g.rank)
  }

  /** The state in which every phase begins. */
  ghost function Fresh(rs: seq<int>, cs: seq<int>): Phase {
    var none := seq(|rs|, i => -1);
    Phase(rs, cs, none, none, 0)
  }

  lemma FreshOk(rs: seq<int>, cs: seq<int>, n: nat, m: nat)
    requires Matching(rs, cs, n, m)
    ensures PhaseOk(Fresh(rs, cs), n, m) && Timed(Fresh(rs, cs))
  {
    CountBounds(Taken(Fresh(rs, cs).rank));
  }

  /** Priming column `c` of a starred, uncovered row `r` and covering the row. */
  ghost function CoverRow(g: Phase, r: nat, c: nat): Phase
    requires r < |g.rp| && r < |g.rank|
  {
    g.(rp := g.rp[r := c], rank := g.rank[r := g.clock], clock := g.clock + 1)
  }

  lemma CoverRowOk(g: Phase, r: nat, c: nat, n: nat, m: nat)
    requires PhaseOk(g, n, m) && r < n && c < m
    requires g.rank[r] < 0 && g.rs[r] >= 0 && OpenColumn(g, c)
    ensures PhaseOk(CoverRow(g, r, c), n, m)
  {
    assert g.cs[c] != r by {
      assert g.cs[c] >= 0 ==> g.rank[g.cs[c]] >= 0;
    }
  }

  lemma CoverRowTimed(g: Phase, r: nat, c: nat)
    requires r < |g.rp| && r < |g.rank| && g.rank[r] < 0 && Timed(g)
    ensures Timed(CoverRow(g, r, c))
  {
    assert Taken(CoverRow(g, r, c).rank) == Taken(g.rank)[r := true];
    CountUpdate(Taken(g.rank), r, true);
  }

  lemma ClockWithinRows(g: Phase)
    requires Timed(g)
    ensures g.clock <= |g.rank|
  {
    CountBounds(Taken(g.rank));
  }

  /** There is always a row left to search from, so a phase covers fewer than n rows. */
  lemma ClockBound(g: Phase, r: nat, n: nat)
    requires |g.rank| == n && r < n && g.rank[r] < 0 && Timed(g)
    ensures g.clock < n
  {
    CountBounds(Taken(g.rank));
    assert !Taken(g.rank)[r];
  }

  // ----- the alternating path

  /** The path so far: its rows, each row's place on it, the matching it leads to and its open end. */
  datatype Walk = Walk(rows: seq<nat>, pos: seq<int>, rs: seq<int>, cs: seq<int>, col: nat)

  /** The starting prime of an augmentation: an uncovered cell in a row without star. */
  ghost predicate Start(g: Phase, r: nat, c: nat, n: nat, m: nat) {
    PhaseOk(g, n, m) && r < n && c < m && g.rs[r] < 0 && OpenColumn(g, c)
  }

  /** The row the path goes to next, which column `col`'s star stands in; -1 at the end of the path. */
  ghost function NextRow(g: Phase, w: Walk): int
    requires w.col < |g.cs|
  {
    g.cs[w.col]
  }

  /** The prime of a row on the path. */
  ghost function PrimeOf(g: Phase, r: nat, c: nat, i: nat): int
    requires i < |g.rp|
  {
    if i == r then c else g.rp[i]
  }

  ghost predicate WalkShape(g: Phase, r: nat, c: nat, w: Walk, n: nat, m: nat)
    requires |g.rs| == |g.rp| == |g.rank| == n && |g.cs| == m
  {
    && |w.pos| == n && |w.rs| == n && |w.cs| == m
    && 0 < |w.rows| && w.rows[0] == r && w.col < m
    && (forall p | 0 <= p < |w.rows| :: w.rows[p] < n && w.pos[w.rows[p]] == p)
    && (forall i | 0 <= i < n && w.pos[i] != -1 :: 0 <= w.pos[i] < |w.rows| && w.rows[w.pos[i]] == i)
    // every later row was entered through its star, and left through its prime
    && (forall p | 1 <= p < |w.rows| :: g.rank[w.rows[p]] >= 0)
    && PrimeOf(g, r, c, w.rows[|w.rows| - 1]) == w.col
    && (forall i | 0 <= i < n :: w.rs[i] == if w.pos[i] >= 0 then PrimeOf(g, r, c, i) else g.rs[i])
  }

  /** Ranks fall along the path, so it cannot return to a row and is no longer than the clock allows. */
  ghost predicate WalkFalls(g: Phase, r: nat, c: nat, w: Walk, n: nat, m: nat)
    requires Start(g, r, c, n, m) && WalkShape(g, r, c, w, n, m)
  {
    var next := NextRow(g, w);
    && |w.rows| <= g.clock + 1
    && (next >= 0 ==> 0 <= g.rank[next] <= g.clock - |w.rows|)
    && (next >= 0 ==> forall i | 0 <= i < n && w.pos[i] > 0 :: g.rank[i] > g.rank[next])
    && (forall j | 0 <= j < m && w.cs[j] != g.cs[j] && j != w.col :: g.cs[j] >= 0 && w.pos[g.cs[j]] > 0)
    && w.cs[w.col] == w.rows[|w.rows| - 1]
  }

  /** The flipped part of the path is a matching, but for the row the path goes to next. */
  ghost predicate WalkMatches(g: Phase, w: Walk, n: nat, m: nat)
    requires |w.rs| == n && |w.cs| == m && w.col < m == |g.cs|
  {
    && (forall i | 0 <= i < n :: -1 <= w.rs[i] < m)
    && (forall j | 0 <= j < m :: -1 <= w.cs[j] < n)
    && (forall j | 0 <= j < m :: w.cs[j] >= 0 ==> w.rs[w.cs[j]] == j)
    && (forall i | 0 <= i < n && i != NextRow(g, w) :: w.rs[i] >= 0 ==> w.cs[w.rs[i]] == i)
    && (forall j | 0 <= j < m :: g.cs[j] >= 0 ==> w.cs[j] >= 0)
  }

  ghost predicate WalkOk(g: Phase, r: nat, c: nat, w: Walk, n: nat, m: nat)
    requires Start(g, r, c, n, m)
  {
    WalkShape(g, r, c, w, n, m) && WalkFalls(g, r, c, w, n, m) && WalkMatches(g, w, n, m)
  }

  ghost function FirstWalk(g: Phase, r: nat, c: nat): Walk
    requires r < |g.rs| && c < |g.cs|
  {
    Walk([r], seq(|g.rs|, i => -1)[r := 0], g.rs[r := c], g.cs[c := r], c)
  }

  lemma WalkStarts(g: Phase, r: nat, c: nat, n: nat, m: nat)
    requires Start(g, r, c, n, m)
    ensures WalkOk(g, r, c, FirstWalk(g, r, c), n, m)
  {
  }

  /** From the current column to the row of its star, and on to that row's prime. */
  ghost function NextWalk(g: Phase, w: Walk): Walk
    requires w.col < |g.cs| && 0 <= NextRow(g, w) < |g.rp| && NextRow(g, w) < |w.pos| && NextRow(g, w) < |w.rs|
    requires 0 <= g.rp[NextRow(g, w)] < |w.cs|
  {
    var row := NextRow(g, w);
    var col := g.rp[row];
    Walk(w.rows + [row], w.pos[row := |w.rows|], w.rs[row := col], w.cs[col := row], col)
  }

  /** The row the path enters always has a prime. */
  lemma NextHasPrime(g: Phase, r: nat, c: nat, w: Walk, n: nat, m: nat)
    requires Start(g, r, c, n, m) && WalkOk(g, r, c, w, n, m) && NextRow(g, w) >= 0
    ensures NextRow(g, w) < n && 0 <= g.rp[NextRow(g, w)] < m && g.rs[NextRow(g, w)] == w.col
    ensures w.pos[NextRow(g, w)] == -1 && NextRow(g, w) != r
  {
  }

  lemma NextShape(g: Phase, r: nat, c: nat, w: Walk, n: nat, m: nat)
    requires |g.rs| == |g.rp| == |g.rank| == n && |g.cs| == m
    requires WalkShape(g, r, c, w, n, m) && 0 <= NextRow(g, w) < n
    requires 0 <= g.rp[NextRow(g, w)] < m && g.rank[NextRow(g, w)] >= 0
    requires w.pos[NextRow(g, w)] == -1 && NextRow(g, w) != r
    ensures WalkShape(g, r, c, NextWalk(g, w), n, m)
  {
  }

  lemma NextFalls(g: Phase, r: nat, c: nat, w: Walk, n: nat, m: nat)
    requires Start(g, r, c, n, m) && WalkOk(g, r, c, w, n, m) && NextRow(g, w) >= 0
    requires NextRow(g, w) < n && 0 <= g.rp[NextRow(g, w)] < m
    requires w.pos[NextRow(g, w)] == -1 && NextRow(g, w) != r
    requires WalkShape(g, r, c, NextWalk(g, w), n, m)
    ensures WalkFalls(g, r, c, NextWalk(g, w), n, m)
  {
  }

  /** The column of the next prime has not been on the path. */
  lemma NextColumn(g: Phase, r: nat, c: nat, w: Walk, n: nat, m: nat)
    requires Start(g, r, c, n, m) && WalkOk(g, r, c, w, n, m) && NextRow(g, w) >= 0
    requires NextRow(g, w) < n && 0 <= g.rp[NextRow(g, w)] < m
    requires w.pos[NextRow(g, w)] == -1
    ensures w.rs[NextRow(g, w)] == w.col && w.cs[w.col] != NextRow(g, w)
    ensures g.rp[NextRow(g, w)] != w.col
    ensures w.cs[g.rp[NextRow(g, w)]] == g.cs[g.rp[NextRow(g, w)]]
  {
  }

  lemma NextMatches(g: Phase, w: Walk, n: nat, m: nat)
    requires |g.rp| == |w.pos| == |w.rs| == n && |w.cs| == |g.cs| == m && w.col < m && 0 <= NextRow(g, w) < n
    requires 0 <= g.rp[NextRow(g, w)] < m
    requires WalkMatches(g, w, n, m)
    requires w.rs[NextRow(g, w)] == w.col && w.cs[w.col] != NextRow(g, w)
    requires g.rp[NextRow(g, w)] != w.col
    requires w.cs[g.rp[NextRow(g, w)]] == g.cs[g.rp[NextRow(g, w)]]
    ensures WalkMatches(g, NextWalk(g, w), n, m)
  {
    var row, col, w' := NextRow(g, w), g.rp[NextRow(g, w)], NextWalk(g, w);
    forall j | 0 <= j < m && w'.cs[j] >= 0
      ensures w'.rs[w'.cs[j]] == j
    {
      assert j != col ==> w.rs[w.cs[j]] == j;
    }
    forall i | 0 <= i < n && i != NextRow(g, w') && w'.rs[i] >= 0
      ensures w'.cs[w'.rs[i]] == i
    {
      assert i != row ==> w.cs[w.rs[i]] == i;
    }
  }

  lemma WalkGoesOn(g: Phase, r: nat, c: nat, w: Walk, n: nat, m: nat)
    requires Start(g, r, c, n, m) && WalkOk(g, r, c, w, n, m) && NextRow(g, w) >= 0
    ensures NextRow(g, w) < n && 0 <= g.rp[NextRow(g, w)] < m && g.rs[NextRow(g, w)] == w.col
    ensures WalkOk(g, r, c, NextWalk(g, w), n, m)
  {
    NextHasPrime(g, r, c, w, n, m);
    NextShape(g, r, c, w, n, m);
    NextFalls(g, r, c, w, n, m);
    NextColumn(g, r, c, w, n, m);
    NextMatches(g, w, n, m);
  }

  /** Flipping the whole path gives a matching with exactly one star more. */
  lemma WalkEnds(g: Phase, r: nat, c: nat, w: Walk, n: nat, m: nat)
    requires Start(g, r, c, n, m) && WalkOk(g, r, c, w, n, m) && NextRow(g, w) < 0
    ensures Matching(w.rs, w.cs, n, m) && Size(w.rs) == Size(g.rs) + 1
    ensures forall j | 0 <= j < m :: g.cs[j] >= 0 ==> w.cs[j] >= 0
  {
    forall i | 0 <= i < n
      ensures Taken(w.rs)[i] == Taken(g.rs)[r := true][i]
    {
    }
    assert Taken(w.rs) == Taken(g.rs)[r := true];
    CountUpdate(Taken(g.rs), r, true);
  }

  /** The 2k - 1 cells of a path through k rows fit the n * m entries of altRow and altCol. */
  lemma PathFits(g: Phase, r: nat, c: nat, w: Walk, n: nat, m: nat)
    requires Start(g, r, c, n, m) && WalkOk(g, r, c, w, n, m) && n <= m && Timed(g)
    ensures 2 * |w.rows| - 1 <= 2 * n - 1 <= n * m
  {
    ClockBound(g, r, n);
    TableSize(n, m);
  }

  lemma TableSize(n: nat, m: nat)
    requires 1 <= n <= m
    ensures 2 * n - 1 <= n * m
  {
    if n >= 2 {
      assert n * m >= n * 2;
    } else {
      assert n * m == m;
    }
  }
}
