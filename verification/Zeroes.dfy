/**
 The bit set as `kuhn_findPrime` uses it: cell (i, j) of an n by m table is bit i * m + j.
 */
module ZeroCells {
  import opened BitSets

  function Cell(i: nat, j: nat, m: nat): nat {
    i * m + j
  }

  lemma MulMonotone(x: int, y: int, m: nat)
    requires x <= y
    ensures x * m <= y * m
  {
  }

  lemma CellInTable(i: nat, j: nat, n: nat, m: nat)
    requires i < n && j < m
    ensures Cell(i, j, m) < n * m
  {
    MulMonotone(i + 1, n, m);
  }

  lemma CellInjective(i: nat, j: nat, a: nat, b: nat, m: nat)
    requires j < m && b < m && Cell(i, j, m) == Cell(a, b, m)
    ensures i == a && j == b
  {
    if i < a {
      MulMonotone(i + 1, a, m);
    } else if a < i {
      MulMonotone(a + 1, i, m);
    }
  }

  lemma IndexRoundTrip(p: nat, n: nat, m: nat)
    requires p < n * m
    ensures m > 0 && p / m < n && p % m < m && Cell(p / m, p % m, m) == p
  {
    assert m > 0;
    assert p == (p / m) * m + p % m;
    if p / m >= n {
      MulMonotone(n, p / m, m);
      assert false;
    }
  }

  method Decode(p: nat, n: nat, m: nat) returns (row: nat, col: nat)
    requires p < n * m
    ensures row < n && col < m && Cell(row, col, m) == p
  {
    IndexRoundTrip(p, n, m);
    row, col := p / m, p % m;
  }

  class CellSet {
    const n: nat
    const m: nat
    const bits: BitSet
    // the cells whose bit is on
    ghost var cells: set<(nat, nat)>

    ghost function Repr(): set<object> {
      {this, bits, bits.limbs, bits.prev, bits.next}
    }

    ghost predicate Valid()
      reads Repr()
    {
      && bits.Valid() && bits.size == n * m
      && (forall i, j | (i, j) in cells :: i < n && j < m)
      && (forall i: nat, j: nat | i < n && j < m :: (i, j) in cells <==> Cell(i, j, m) in bits.Elems())
    }

    constructor (n: nat, m: nat)
      ensures Valid() && fresh(Repr()) && this.n == n && this.m == m && cells == {}
    {
      this.n := n;
      this.m := m;
      bits := new BitSet(n * m);
      cells := {};
    }

    method Set(i: nat, j: nat)
      requires Valid() && i < n && j < m
      modifies Repr()
      ensures Valid() && cells == old(cells) + {(i, j)}
    {
      CellInTable(i, j, n, m);
      bits.Set(i * m + j);
      cells := cells + {(i, j)};
      SameCell(i, j);
    }

    method Unset(i: nat, j: nat)
      requires Valid() && i < n && j < m
      modifies Repr()
      ensures Valid() && cells == old(cells) - {(i, j)}
    {
      CellInTable(i, j, n, m);
      bits.Unset(i * m + j);
      cells := cells - {(i, j)};
      SameCell(i, j);
    }

    lemma SameCell(i: nat, j: nat)
      requires j < m
      ensures forall a: nat, b: nat | b < m :: Cell(a, b, m) == Cell(i, j, m) <==> a == i && b == j
    {
      forall a: nat, b: nat | b < m
        ensures Cell(a, b, m) == Cell(i, j, m) <==> a == i && b == j
      {
        if Cell(a, b, m) == Cell(i, j, m) {
          CellInjective(a, b, i, j, m);
        }
      }
    }

    lemma CellHasBit()
      requires Valid()
      ensures cells != {} ==> bits.Elems() != {}
    {
      if cells != {} {
        var c :| c in cells;
        assert Cell(c.0, c.1, m) in bits.Elems();
      }
    }

    lemma CellOfBit(i: nat, j: nat)
      requires Valid() && i < n && j < m && Cell(i, j, m) in bits.Elems()
      ensures (i, j) in cells
    {
      hide Cell;
    }

    /** Row and column of some cell in the set; `found` is false exactly when there is none. */
    method Any() returns (found: bool, row: nat, col: nat)
      requires Valid()
      ensures found <==> cells != {}
      ensures found ==> row < n && col < m && (row, col) in cells
    {
      hide Cell;
      var p := bits.Any();
      if p < 0 {
        CellHasBit();
        return false, 0, 0;
      }
      found := true;
      row, col := Decode(p, n, m);
      CellOfBit(row, col);
    }
  }
}
