/**
 core/math/Polygon.cpp: point containment by the even-odd rule, behind a bounding-box filter and a cache.
 Coordinates are integers, as in the source; `InRange` keeps every intermediate value within 32 bits, and the
 cache's keys are 32-bit words.
 */
module Polygons {
  import opened Wrappers

  datatype Point = Point(x: int, y: int)

  /** The C++ division: rounds towards zero. */
  function TruncDiv(a: int, b: int): int
    requires b != 0
  {
    var q := Magnitude(a) / Magnitude(b);
    if (a < 0) != (b < 0) then -q else q
  }

  // ----- the raw even-odd test

  /** The edge's ends lie on different sides of the horizontal line through y. */
  predicate Straddles(p: Point, q: Point, y: int) {
    (p.y > y) != (q.y > y)
  }

  /** Where the edge meets that line, rounded as the program rounds it. */
  function CrossingX(p: Point, q: Point, y: int): int
    requires Straddles(p, q, y)
  {
    TruncDiv((q.x - p.x) * (y - p.y), q.y - p.y) + p.x
  }

  predicate Toggles(p: Point, q: Point, x: int, y: int) {
    Straddles(p, q, y) && x < CrossingX(p, q, y)
  }

  function Previous(i: nat, n: nat): nat
    requires i < n
  {
    if i == 0 then n - 1 else i - 1
  }

  /** The flag after the edges that end in the first `k` vertices. */
  function Parity(v: seq<Point>, x: int, y: int, k: nat): bool
    requires k <= |v|
  {
    k > 0 && Parity(v, x, y, k - 1) != Toggles(v[k - 1], v[Previous(k - 1, |v|)], x, y)
  }

  function EvenOdd(v: seq<Point>, x: int, y: int): bool {
    Parity(v, x, y, |v|)
  }

  /** The five-argument `enclosesPoint`. */
  method RawEncloses(xs: array<int>, ys: array<int>, testx: int, testy: int, ghost v: seq<Point>) returns (c: bool)
    requires xs.Length == ys.Length == |v| && forall i | 0 <= i < |v| :: v[i] == Point(xs[i], ys[i])
    ensures c == EvenOdd(v, testx, testy)
  {
    c := false;
    var n := xs.Length;
    var j := n - 1;
    for i := 0 to n
      invariant i < n ==> j == Previous(i, n)
      invariant c == Parity(v, testx, testy, i)
    {
      if (ys[i] > testy) != (ys[j] > testy) {
        if testx < TruncDiv((xs[j] - xs[i]) * (testy - ys[i]), ys[j] - ys[i]) + xs[i] {
          c := !c;
        }
      }
      j := i;
    }
  }

  // ----- where an edge meets the line

  lemma MulMonotone(b: nat, k: int, l: int)
    requires k <= l
    ensures b * k <= b * l
  {
  }

  lemma FloorLaw(n: int, b: int, k: int)
    requires b > 0
    ensures k <= n / b <==> b * k <= n
  {
    var q := n / b;
    assert b * q <= n < b * q + b;
    if k <= q {
      MulMonotone(b, k, q);
    } else {
      MulMonotone(b, q + 1, k);
    }
  }

  lemma QuotientMagnitude(a: int, b: int)
    requires b != 0
    ensures Magnitude(TruncDiv(a, b)) == Magnitude(a) / Magnitude(b)
    ensures TruncDiv(a, b) > 0 ==> (a < 0) == (b < 0)
    ensures TruncDiv(a, b) < 0 ==> (a < 0) != (b < 0)
  {
    FloorLaw(Magnitude(a), Magnitude(b), 0);
  }

  /** The quotient's own law: the largest magnitude that fits, with the sign of the exact quotient. */
  lemma TruncDivLaw(a: int, b: int)
    requires b != 0
    ensures Magnitude(b) * Magnitude(TruncDiv(a, b)) <= Magnitude(a) < Magnitude(b) * (Magnitude(TruncDiv(a, b)) + 1)
    ensures TruncDiv(a, b) > 0 ==> (a < 0) == (b < 0)
    ensures TruncDiv(a, b) < 0 ==> (a < 0) != (b < 0)
  {
    hide TruncDiv;
    var m, d, q := Magnitude(a), Magnitude(b), Magnitude(TruncDiv(a, b));
    QuotientMagnitude(a, b);
    FloorLaw(m, d, q);
    FloorLaw(m, d, q + 1);
  }

  /** Compared with an integer: rounded down if positive and up if negative. */
  lemma BelowQuotient(n: int, b: int, m: int)
    requires b > 0
    ensures m < TruncDiv(n, b) <==> if n >= 0 then b * (m + 1) <= n else b * m < n
    ensures TruncDiv(-n, -b) == TruncDiv(n, b)
  {
    if n >= 0 {
      FloorLaw(n, b, m + 1);
    } else {
      FloorLaw(-n, b, -m);
      assert b * -m == -(b * m);
    }
  }

  /** Twice the area of the triangle a, b, (x, y): positive if the point is to the left of the edge from a to b. */
  function Cross(a: Point, b: Point, x: int, y: int): int {
    (b.x - a.x) * (y - a.y) - (b.y - a.y) * (x - a.x)
  }

  /** The upward edge from `lo` to `hi`, of which the lower end is on or below the line and the upper end above it. */
  ghost predicate Rises(lo: Point, hi: Point, y: int) {
    lo.y <= y < hi.y
  }

  /**
   Exactly when an edge toggles, without a division.  Whether (x, y) is left of the rising edge is whether its
   cross product is positive; where the edge meets the line to the right of its first vertex, x + 1 counts
   instead of x, because the program rounds towards that vertex.
   */
  lemma TogglesExactly(p: Point, q: Point, x: int, y: int)
    requires Straddles(p, q, y)
    ensures
      var lo, hi := if q.y > y then p else q, if q.y > y then q else p;
      && Rises(lo, hi, y)
      && (Toggles(p, q, x, y) <==>
          if Cross(lo, hi, p.x, y) >= 0 then Cross(lo, hi, x + 1, y) >= 0 else Cross(lo, hi, x, y) > 0)
  {
    if q.y > y {
      RisingToggles(p, q, x, y);
    } else {
      FallingToggles(p, q, x, y);
    }
  }

  /** So it toggles at every x that is one left of the edge, and at no x on or right of it. */
  lemma ToggleMargins(p: Point, q: Point, lo: Point, hi: Point, x: int, y: int)
    requires Rises(lo, hi, y) && ((p == lo && q == hi) || (p == hi && q == lo))
    ensures Straddles(p, q, y)
    ensures Cross(lo, hi, x + 1, y) >= 0 ==> Toggles(p, q, x, y)
    ensures Cross(lo, hi, x, y) <= 0 ==> !Toggles(p, q, x, y)
  {
    hide Toggles, Cross;
    TogglesExactly(p, q, x, y);
    CrossStep(lo, hi, x, y);
  }

  lemma CrossStep(a: Point, b: Point, x: int, y: int)
    ensures Cross(a, b, x + 1, y) == Cross(a, b, x, y) - (b.y - a.y)
  {
  }

  lemma RisingToggles(p: Point, q: Point, x: int, y: int)
    requires Rises(p, q, y)
    ensures Toggles(p, q, x, y) <==>
            if Cross(p, q, p.x, y) >= 0 then Cross(p, q, x + 1, y) >= 0 else Cross(p, q, x, y) > 0
  {
    hide TruncDiv;
    BelowQuotient((q.x - p.x) * (y - p.y), q.y - p.y, x - p.x);
    assert x + 1 - p.x == (x - p.x) + 1;
  }

  lemma FallingToggles(p: Point, q: Point, x: int, y: int)
    requires Rises(q, p, y)
    ensures Toggles(p, q, x, y) <==>
            if Cross(q, p, p.x, y) >= 0 then Cross(q, p, x + 1, y) >= 0 else Cross(q, p, x, y) > 0
  {
    hide TruncDiv, Cross;
    var n, b, m := (q.x - p.x) * (y - p.y), q.y - p.y, x - p.x;
    BelowQuotient(-n, -b, m);
    CrossFrom(q, p, x, y);
    CrossFrom(q, p, x + 1, y);
    CrossFrom(q, p, p.x, y);
  }

  /** The cross product, from the second end of the edge. */
  lemma CrossFrom(q: Point, p: Point, x: int, y: int)
    ensures Cross(q, p, x, y) == -((q.x - p.x) * (y - p.y)) - (-(q.y - p.y)) * (x - p.x)
  {
  }

  // ----- nothing outside the bounding box is enclosed

  lemma MulBound(a: nat, t: nat, d: nat)
    requires t <= d
    ensures a * t <= a * d
  {
  }

  lemma DivBound(a: nat, t: nat, d: nat)
    requires t <= d && d > 0
    ensures 0 <= (a * t) / d <= a
  {
    MulBound(a, t, d);
    var q := (a * t) / d;
    assert a * t >= q * d;
    if q > a {
      MulBound(d, a + 1, q);
    }
  }

  lemma ScaledBetween(dx: int, t: int, d: int)
    requires d != 0 && (0 <= t <= d || d <= t <= 0)
    ensures 0 <= TruncDiv(dx * t, d) <= dx || dx <= TruncDiv(dx * t, d) <= 0
  {
    AbsOfProduct(dx, t);
    DivBound(Magnitude(dx), Magnitude(t), Magnitude(d));
    if dx == 0 || t == 0 {
      assert dx * t == 0;
    } else {
      SignOfProduct(dx, t);
    }
  }

  lemma AbsOfProduct(a: int, b: int)
    ensures Magnitude(a * b) == Magnitude(a) * Magnitude(b)
  {
  }

  lemma SignOfProduct(a: int, b: int)
    requires a != 0 && b != 0
    ensures a * b < 0 <==> (a < 0) != (b < 0)
  {
  }

  /** Truncation keeps the crossing between the ends of the edge. */
  lemma CrossingBetween(p: Point, q: Point, y: int)
    requires Straddles(p, q, y)
    ensures p.x <= CrossingX(p, q, y) <= q.x || q.x <= CrossingX(p, q, y) <= p.x
  {
    ScaledBetween(q.x - p.x, y - p.y, q.y - p.y);
  }

  datatype Box = Box(left: int, right: int, bottom: int, top: int)

  ghost predicate Inside(x: int, y: int, b: Box) {
    b.left <= x <= b.right && b.bottom <= y <= b.top
  }

  /** The box contains every vertex. */
  ghost predicate Boxed(v: seq<Point>, b: Box) {
    forall i | 0 <= i < |v| :: Inside(v[i].x, v[i].y, b)
  }

  /** The smallest box around the vertices and the origin. */
  ghost predicate Hull(v: seq<Point>, b: Box) {
    && Boxed(v, b) && b.left <= 0 <= b.right && b.bottom <= 0 <= b.top
    && (b.left == 0 || exists i | 0 <= i < |v| :: v[i].x == b.left)
    && (b.right == 0 || exists i | 0 <= i < |v| :: v[i].x == b.right)
    && (b.bottom == 0 || exists i | 0 <= i < |v| :: v[i].y == b.bottom)
    && (b.top == 0 || exists i | 0 <= i < |v| :: v[i].y == b.top)
  }

  lemma HullIsBox(v: seq<Point>, b: Box)
    requires Hull(v, b)
    ensures Boxed(v, b)
  {
  }

  lemma HullUnique(v: seq<Point>, b: Box, b': Box)
    requires Hull(v, b) && Hull(v, b')
    ensures b == b'
  {
  }

  /** Above, below and to the right of the box, and on its right side, no edge toggles the flag. */
  lemma {:induction false} NoToggles(v: seq<Point>, x: int, y: int, b: Box, k: nat)
    requires Boxed(v, b) && (x >= b.right || y < b.bottom || y > b.top) && k <= |v|
    ensures !Parity(v, x, y, k)
  {
    if k > 0 {
      NoToggles(v, x, y, b, k - 1);
      var p, q := v[k - 1], v[Previous(k - 1, |v|)];
      if Straddles(p, q, y) {
        CrossingBetween(p, q, y);
      }
    }
  }

  /**
   To the left of the box every edge that straddles the line toggles the flag; walking round the closed
   polygon crosses the line an even number of times.
   */
  lemma {:induction false} CrossingsCancel(v: seq<Point>, x: int, y: int, b: Box, k: nat)
    requires Boxed(v, b) && x < b.left && 0 < k <= |v|
    ensures Parity(v, x, y, k) == ((v[k - 1].y > y) != (v[|v| - 1].y > y))
  {
    var p, q := v[k - 1], v[Previous(k - 1, |v|)];
    if Straddles(p, q, y) {
      CrossingBetween(p, q, y);
    }
    if k > 1 {
      CrossingsCancel(v, x, y, b, k - 1);
    } else {
      assert !Parity(v, x, y, 0);
    }
  }

  lemma OutsideIsNotEnclosed(v: seq<Point>, x: int, y: int, b: Box)
    requires Boxed(v, b) && !Inside(x, y, b)
    ensures !EvenOdd(v, x, y)
  {
    if x > b.right || y < b.bottom || y > b.top {
      NoToggles(v, x, y, b, |v|);
    } else if |v| > 0 {
      CrossingsCancel(v, x, y, b, |v|);
    }
  }

  // ----- 32-bit arithmetic

  predicate FitsInt(a: int) {
    -0x8000_0000 <= a < 0x8000_0000
  }

  /** The largest magnitude whose square is an int is 46340. */
  lemma ProductFits(a: int, b: int, m: nat)
    requires Magnitude(a) <= m && Magnitude(b) <= m <= 46340
    ensures FitsInt(a * b)
  {
    MulBound(Magnitude(a), Magnitude(b), m);
    MulBound(m, Magnitude(a), m);
    MulBound(m, m, 46340);
    MulBound(46340, m, 46340);
    AbsOfProduct(a, b);
  }

  predicate Within(p: Point, b: nat) {
    0 <= p.x < b && 0 <= p.y < b
  }

  /** The products of the raw test on this edge stay within an int, whatever the point. */
  ghost predicate EdgeIsSafe(p: Point, q: Point) {
    forall y | Straddles(p, q, y) :: FitsInt((q.x - p.x) * (y - p.y))
  }

  lemma EdgeFits(p: Point, q: Point, b: nat)
    requires Within(p, b) && Within(q, b) && b <= 46341
    ensures EdgeIsSafe(p, q)
  {
    forall y | Straddles(p, q, y)
      ensures FitsInt((q.x - p.x) * (y - p.y))
    {
      ProductFits(q.x - p.x, y - p.y, 46340);
    }
  }

  /** An edge between the corners of a larger square overflows at y = 0. */
  lemma EdgeOverflows(p: Point, q: Point)
    requires p == Point(0, 46341) && q == Point(46341, 0)
    ensures Straddles(p, q, 0) && !FitsInt((q.x - p.x) * (0 - p.y)) && !EdgeIsSafe(p, q)
  {
    assert (q.x - p.x) * (0 - p.y) == -46341 * 46341;
    assert Straddles(p, q, 0);
  }

  /** Every edge with coordinates below a bound is safe exactly if the bound is at most 46341. */
  lemma ProductBound(b: nat)
    ensures (forall p, q | Within(p, b) && Within(q, b) :: EdgeIsSafe(p, q)) <==> b <= 46341
  {
    if b <= 46341 {
      forall p, q | Within(p, b) && Within(q, b)
        ensures EdgeIsSafe(p, q)
      {
        EdgeFits(p, q, b);
      }
    } else {
      var p, q := Point(0, 46341), Point(46341, 0);
      EdgeOverflows(p, q);
      assert Within(p, b) && Within(q, b);
    }
  }

  ghost predicate EdgesAreSafe(v: seq<Point>) {
    forall i | 0 <= i < |v| :: EdgeIsSafe(v[i], v[Previous(i, |v|)])
  }

  /** A box around the origin whose sides are shorter than 2^16. */
  ghost predicate Compact(b: Box) {
    b.left <= 0 <= b.right < b.left + 0x1_0000 && b.bottom <= 0 <= b.top < b.bottom + 0x1_0000
  }

  /** The vertices and the origin are less than 2^16 apart in each direction, and no edge overflows. */
  ghost predicate InRange(v: seq<Point>) {
    EdgesAreSafe(v) && exists b: Box :: Compact(b) && Boxed(v, b)
  }

  /** Then nothing that the raw test computes overflows an int. */
  lemma NoOverflow(v: seq<Point>, i: nat, y: int)
    requires InRange(v) && i < |v| && Straddles(v[i], v[Previous(i, |v|)], y)
    ensures
      var p, q := v[i], v[Previous(i, |v|)];
      && FitsInt(q.x - p.x) && FitsInt(y - p.y) && FitsInt(q.y - p.y)
      && FitsInt((q.x - p.x) * (y - p.y)) && FitsInt(CrossingX(p, q, y) - p.x) && FitsInt(CrossingX(p, q, y))
  {
    var p, q := v[i], v[Previous(i, |v|)];
    CrossingBetween(p, q, y);
    assert EdgeIsSafe(p, q);
    var b: Box :| Compact(b) && Boxed(v, b);
  }

  /** Coordinates below 46341, and not negative, are in range. */
  lemma SmallIsInRange(v: seq<Point>)
    requires forall i | 0 <= i < |v| :: Within(v[i], 46341)
    ensures InRange(v)
  {
    forall i | 0 <= i < |v|
      ensures EdgeIsSafe(v[i], v[Previous(i, |v|)])
    {
      EdgeFits(v[i], v[Previous(i, |v|)], 46341);
    }
    var b := Box(0, 46340, 0, 46340);
    assert Compact(b) && Boxed(v, b);
  }

  // ----- the key of the cache

  /** `(x << 16) | y` on 32-bit words. */
  function Lookup(x: bv32, y: bv32): bv32 {
    (x << 16) | y
  }

  /** The upper half of a y in [0, 2^16) is zero, and that of a y in [-2^16, 0) is all ones. */
  lemma LookupIs(x: bv32, y: bv32)
    ensures y <= 0xFFFF ==> Lookup(x, y) == (x << 16) + y
    ensures y >= 0xFFFF_0000 ==> Lookup(x, y) == y
  {
  }

  /** As the source's comment has it, the words tell all points below 2^16 apart. */
  lemma LookupInjective(x: bv32, y: bv32, x': bv32, y': bv32)
    requires x <= 0xFFFF && y <= 0xFFFF && x' <= 0xFFFF && y' <= 0xFFFF && Lookup(x, y) == Lookup(x', y')
    ensures x == x' && y == y'
  {
  }

  /** The int that a 32-bit word holds. */
  function Wrapped(z: int): int {
    (z + 0x8000_0000) % 0x1_0000_0000 - 0x8000_0000
  }

  /** The key as an int, for y in [-2^16, 2^16): the upper half of a negative y absorbs x. */
  function Key(x: int, y: int): int {
    if y < 0 then y else Wrapped(0x1_0000 * x + y)
  }

  lemma WrappedExactly(z: int, z': int)
    requires -0x1_0000_0000 < z - z' < 0x1_0000_0000
    ensures Wrapped(z) == Wrapped(z') <==> z == z'
  {
  }

  /** In a compact box equal keys mean the same point, or two points at the same negative height. */
  lemma EqualKeys(b: Box, x: int, y: int, x': int, y': int)
    requires Compact(b) && Inside(x, y, b) && Inside(x', y', b)
    ensures Key(x, y) == Key(x', y') <==> y == y' && (x == x' || y < 0)
  {
    hide Key, Wrapped;
    if y >= 0 && y' >= 0 {
      KeysAbove(x, y, x', y');
    } else if y >= 0 {
      NegativeIsApart(x, y, x', y');
    } else if y' >= 0 {
      NegativeIsApart(x', y', x, y);
    } else {
      KeyBelow(x, y);
      KeyBelow(x', y');
    }
  }

  lemma KeyBelow(x: int, y: int)
    requires y < 0
    ensures Key(x, y) == y
  {
  }

  lemma KeysAbove(x: int, y: int, x': int, y': int)
    requires -0x1_0000 < x - x' < 0x1_0000 && 0 <= y < 0x1_0000 && 0 <= y' < 0x1_0000
    ensures Key(x, y) == Key(x', y') <==> x == x' && y == y'
  {
    hide Wrapped;
    WrappedExactly(0x1_0000 * x + y, 0x1_0000 * x' + y');
  }

  lemma NegativeIsApart(x: int, y: int, x': int, y': int)
    requires y' < 0 <= y < y' + 0x1_0000
    ensures Key(x, y) != Key(x', y') == y'
  {
    hide Wrapped;
    LowHalf(x, y);
    if Key(x, y) == y' {
      SameRemainder(y, y');
    }
  }

  lemma SameRemainder(y: int, y': int)
    requires y' < y < y' + 0x1_0000
    ensures y % 0x1_0000 != y' % 0x1_0000
  {
  }

  /** The lower half of the key is y. */
  lemma LowHalf(x: int, y: int)
    ensures Wrapped(0x1_0000 * x + y) % 0x1_0000 == y % 0x1_0000
  {
    var z := 0x1_0000 * x + y;
    var k := (z + 0x8000_0000) / 0x1_0000_0000;
    assert Wrapped(z) == 0x1_0000 * (x - 0x1_0000 * k) + y;
  }

  /** No two points of the box share a key. */
  ghost predicate KeysDiffer(b: Box) {
    forall x, y, x', y' | Inside(x, y, b) && Inside(x', y', b) && Key(x, y) == Key(x', y') :: x == x' && y == y'
  }

  /**
   In a box around the origin, keys tell points apart exactly if it is narrow enough and has no negative y or
   one x.
   */
  lemma KeysDifferExactly(b: Box)
    requires b.left <= 0 <= b.right && b.bottom <= 0 <= b.top < b.bottom + 0x1_0000
    ensures KeysDiffer(b) <==> b.right - b.left < 0x1_0000 && (b.bottom == 0 || b.left == b.right)
  {
    if b.right - b.left >= 0x1_0000 {
      var x := b.left + 0x1_0000;
      assert Key(b.left, 0) == Key(x, 0) && Inside(b.left, 0, b) && Inside(x, 0, b);
    } else if b.bottom < 0 && b.left < b.right {
      assert Key(b.left, b.bottom) == Key(b.right, b.bottom);
      assert Inside(b.left, b.bottom, b) && Inside(b.right, b.bottom, b);
    } else {
      forall x, y, x', y' | Inside(x, y, b) && Inside(x', y', b) && Key(x, y) == Key(x', y')
        ensures x == x' && y == y'
      {
        EqualKeys(b, x, y, x', y');
      }
    }
  }

  // ----- the answers of the cache

  /** The first point asked for inside the box with key `k`: the one whose answer the cache keeps. */
  ghost function FirstWith(b: Box, asked: seq<Point>, k: int): Option<Point> {
    if |asked| == 0 then
      None
    else
      var earlier, last := FirstWith(b, asked[..|asked| - 1], k), asked[|asked| - 1];
      if earlier.Some? then earlier
      else if Inside(last.x, last.y, b) && Key(last.x, last.y) == k then Some(last)
      else None
  }

  lemma {:induction false} FirstWithIs(b: Box, asked: seq<Point>, k: int)
    requires FirstWith(b, asked, k).Some?
    ensures var p := FirstWith(b, asked, k).value; Inside(p.x, p.y, b) && Key(p.x, p.y) == k
  {
    if FirstWith(b, asked[..|asked| - 1], k).Some? {
      FirstWithIs(b, asked[..|asked| - 1], k);
    }
  }

  /** What `enclosesPoint` answers after the points `asked`. */
  ghost predicate Answer(v: seq<Point>, b: Box, asked: seq<Point>, x: int, y: int) {
    var first := FirstWith(b, asked, Key(x, y));
    Inside(x, y, b) && if first.Some? then EvenOdd(v, first.value.x, first.value.y) else EvenOdd(v, x, y)
  }

  /** No enclosed point has a negative y. */
  ghost predicate NothingBelow(v: seq<Point>) {
    forall x, y | EvenOdd(v, x, y) :: y >= 0
  }

  /** For instance, if no vertex has. */
  lemma VerticesAbove(v: seq<Point>)
    requires forall i | 0 <= i < |v| :: v[i].y >= 0
    ensures NothingBelow(v)
  {
    forall x, y | EvenOdd(v, x, y)
      ensures y >= 0
    {
      if y < 0 {
        NoStraddle(v, x, y, |v|);
      }
    }
  }

  lemma {:induction false} NoStraddle(v: seq<Point>, x: int, y: int, k: nat)
    requires (forall i | 0 <= i < |v| :: v[i].y > y) && k <= |v|
    ensures !Parity(v, x, y, k)
  {
    if k > 0 {
      NoStraddle(v, x, y, k - 1);
    }
  }

  lemma AnswerIsRight(v: seq<Point>, b: Box, asked: seq<Point>, x: int, y: int)
    requires Boxed(v, b) && Compact(b) && NothingBelow(v)
    ensures Answer(v, b, asked, x, y) == EvenOdd(v, x, y)
  {
    hide EvenOdd, Key, Compact;
    var first := FirstWith(b, asked, Key(x, y));
    if !Inside(x, y, b) {
      OutsideIsNotEnclosed(v, x, y, b);
    } else if first.Some? {
      FirstWithIs(b, asked, Key(x, y));
      EqualKeys(b, first.value.x, first.value.y, x, y);
    }
  }

  /** The answers for a row of points with negative y are all the same, but only the enclosed ones should be true. */
  lemma AnswerIsWrong(v: seq<Point>, b: Box, asked: seq<Point>, x: int, y: int)
    requires Boxed(v, b) && EvenOdd(v, x, y) && y < 0
    ensures Inside(x, y, b) && Inside(b.right, y, b) && !EvenOdd(v, b.right, y)
    ensures var asked' := asked + [Point(b.right, y)];
            Answer(v, b, asked', x, y) == Answer(v, b, asked', b.right, y)
    ensures Answer(v, b, [Point(b.right, y)], x, y) != EvenOdd(v, x, y)
  {
    if !Inside(x, y, b) {
      OutsideIsNotEnclosed(v, x, y, b);
    }
    NoToggles(v, b.right, y, b, |v|);
    var asked', one := asked + [Point(b.right, y)], [Point(b.right, y)];
    assert asked'[..|asked|] == asked && one[..0] == [];
    assert FirstWith(b, [], y) == None;
    assert FirstWith(b, one, y) == Some(Point(b.right, y));
  }

  /** After every sequence of queries every answer is right, exactly if no enclosed point has a negative y. */
  lemma CacheIsRightExactly(v: seq<Point>, b: Box)
    requires Boxed(v, b) && Compact(b)
    ensures (forall asked, x, y :: Answer(v, b, asked, x, y) == EvenOdd(v, x, y)) <==> NothingBelow(v)
  {
    if NothingBelow(v) {
      forall asked, x, y
        ensures Answer(v, b, asked, x, y) == EvenOdd(v, x, y)
      {
        AnswerIsRight(v, b, asked, x, y);
      }
    } else {
      var x, y :| EvenOdd(v, x, y) && y < 0;
      AnswerIsWrong(v, b, [], x, y);
    }
  }

  lemma EdgeToggles(p: Point, q: Point, x: int, y: int)
    ensures p.y == q.y ==> !Toggles(p, q, x, y)
    ensures p.x == q.x ==> Toggles(p, q, x, y) == (Straddles(p, q, y) && x < p.x)
  {
    if Straddles(p, q, y) {
      CrossingBetween(p, q, y);
    }
  }

  /** The parity of a quadrilateral, edge by edge. */
  lemma QuadParity(v: seq<Point>, x: int, y: int)
    requires |v| == 4
    ensures EvenOdd(v, x, y) ==
            (((Toggles(v[0], v[3], x, y) != Toggles(v[1], v[0], x, y)) != Toggles(v[2], v[1], x, y)) != Toggles(v[3],
                v[2], x, y))
  {
    hide Toggles;
    assert !Parity(v, x, y, 0);
    assert Parity(v, x, y, 2) == (Parity(v, x, y, 1) != Toggles(v[1], v[0], x, y));
    assert Parity(v, x, y, 3) == (Parity(v, x, y, 2) != Toggles(v[2], v[1], x, y));
  }

  /** A square below the axis: two points share a key, but only one of them is enclosed. */
  lemma CollisionMisleads(v: seq<Point>)
    requires v == [Point(0, -2), Point(1, -2), Point(1, 0), Point(0, 0)]
    ensures Key(0, -1) == Key(1, -1) && EvenOdd(v, 0, -1) && !EvenOdd(v, 1, -1)
  {
    hide Toggles, EvenOdd;
    forall x | 0 <= x <= 1
      ensures EvenOdd(v, x, -1) == (x < 1)
    {
      QuadParity(v, x, -1);
      EdgeToggles(v[0], v[3], x, -1);
      EdgeToggles(v[1], v[0], x, -1);
      EdgeToggles(v[2], v[1], x, -1);
      EdgeToggles(v[3], v[2], x, -1);
    }
  }

  // ----- the class

  ghost predicate LexLess(p: Point, q: Point) {
    p.x < q.x || (p.x == q.x && p.y < q.y)
  }

  ghost predicate InLoopOrder(points: seq<Point>) {
    forall i, k | 0 <= i < k < |points| :: LexLess(points[i], points[k])
  }

  /** All enclosed points of the plane, each once, in the order of the two loops. */
  ghost predicate ListsEnclosed(v: seq<Point>, points: seq<Point>) {
    (forall p :: p in points <==> EvenOdd(v, p.x, p.y)) && InLoopOrder(points)
  }

  /** Every point of the box has been asked for, and the list holds those whose answer is true. */
  ghost predicate ListsAnswers(v: seq<Point>, b: Box, asked: seq<Point>, points: seq<Point>) {
    && (forall x, y | Inside(x, y, b) :: FirstWith(b, asked, Key(x, y)).Some?)
    && (forall p :: p in points <==> Answer(v, b, asked, p.x, p.y))
    && InLoopOrder(points)
  }

  /** Once every point has been asked for, more queries change no answer. */
  lemma AnswersStay(v: seq<Point>, b: Box, asked: seq<Point>, p: Point, points: seq<Point>)
    requires ListsAnswers(v, b, asked, points)
    ensures ListsAnswers(v, b, asked + [p], points)
  {
    hide EvenOdd, Key, Inside, InLoopOrder;
    var more := asked + [p];
    assert more[..|asked|] == asked;
    forall k | FirstWith(b, asked, k).Some?
      ensures FirstWith(b, more, k) == FirstWith(b, asked, k)
    {
    }
    forall q: Point
      ensures Answer(v, b, more, q.x, q.y) == Answer(v, b, asked, q.x, q.y)
    {
      if Inside(q.x, q.y, b) {
        assert FirstWith(b, asked, Key(q.x, q.y)).Some?;
      }
    }
  }

  /** The list of answers is the list of enclosed points exactly if no enclosed point has a negative y. */
  lemma ListIsRightExactly(v: seq<Point>, b: Box, asked: seq<Point>, points: seq<Point>)
    requires Boxed(v, b) && Compact(b) && ListsAnswers(v, b, asked, points)
    ensures ListsEnclosed(v, points) <==> NothingBelow(v)
  {
    hide EvenOdd, Key, Compact, InLoopOrder;
    if NothingBelow(v) {
      forall p: Point
        ensures Answer(v, b, asked, p.x, p.y) == EvenOdd(v, p.x, p.y)
      {
        AnswerIsRight(v, b, asked, p.x, p.y);
      }
    } else {
      var x, y :| EvenOdd(v, x, y) && y < 0;
      AnswerIsWrong(v, b, asked, x, y);
      AnswersStay(v, b, asked, Point(b.right, y), points);
      assert Point(x, y) in points <==> Point(b.right, y) in points;
    }
  }

  /** The cache holds, for every key, the answer for the first point asked for with it. */
  ghost predicate CacheHolds(v: seq<Point>, b: Box, asked: seq<Point>, cache: map<int, bool>) {
    forall k ::
      && (k in cache <==> FirstWith(b, asked, k).Some?)
      && (k in cache ==> var p := FirstWith(b, asked, k).value; cache[k] == EvenOdd(v, p.x, p.y))
  }

  class Polygon {
    const vertices: seq<Point>
    const xcoords: array<int>
    const ycoords: array<int>
    var left: int
    var right: int
    var top: int
    var bottom: int
    var pointCache: map<int, bool>
    var enclosed: seq<Point>
    // the points asked for so far, in order
    ghost var asked: seq<Point>

    ghost function Bounds(): Box
      reads this
    {
      Box(left, right, bottom, top)
    }

    /** The coordinates match, the box holds the vertices, and the caches hold the answers given. */
    ghost predicate Valid()
      reads this, xcoords, ycoords
    {
      && xcoords.Length == ycoords.Length == |vertices|
      && (forall i | 0 <= i < |vertices| :: vertices[i] == Point(xcoords[i], ycoords[i]))
      && Hull(vertices, Bounds()) && Compact(Bounds())
      && CacheHolds(vertices, Bounds(), asked, pointCache)
      && (enclosed != [] ==> ListsAnswers(vertices, Bounds(), asked, enclosed))
    }

    constructor (vertices: seq<Point>)
      requires InRange(vertices)
      ensures Valid() && fresh(xcoords) && fresh(ycoords) && this.vertices == vertices && asked == []
    {
      this.vertices := vertices;
      xcoords := new int[|vertices|](i requires 0 <= i < |vertices| => vertices[i].x);
      ycoords := new int[|vertices|](i requires 0 <= i < |vertices| => vertices[i].y);
      pointCache, enclosed, asked := map[], [], [];
      left, right, top, bottom := 0, 0, 0, 0;
      new;
      SetBounds();
      ghost var b: Box :| Compact(b) && Boxed(vertices, b);
    }

    method GetTop() returns (r: int)
      ensures r >= 0 && forall i | 0 <= i < |vertices| :: vertices[i].y <= r
      ensures r == 0 || exists i | 0 <= i < |vertices| :: vertices[i].y == r
    {
      r := 0;
      for i := 0 to |vertices|
        invariant r >= 0 && forall k | 0 <= k < i :: vertices[k].y <= r
        invariant r == 0 || exists k | 0 <= k < |vertices| :: vertices[k].y == r
      {
        if r < vertices[i].y {
          r := vertices[i].y;
        }
      }
    }

    method GetBottom() returns (r: int)
      ensures r <= 0 && forall i | 0 <= i < |vertices| :: r <= vertices[i].y
      ensures r == 0 || exists i | 0 <= i < |vertices| :: vertices[i].y == r
    {
      r := 0;
      for i := 0 to |vertices|
        invariant r <= 0 && forall k | 0 <= k < i :: r <= vertices[k].y
        invariant r == 0 || exists k | 0 <= k < |vertices| :: vertices[k].y == r
      {
        if r > vertices[i].y {
          r := vertices[i].y;
        }
      }
    }

    method GetLeft() returns (r: int)
      ensures r <= 0 && forall i | 0 <= i < |vertices| :: r <= vertices[i].x
      ensures r == 0 || exists i | 0 <= i < |vertices| :: vertices[i].x == r
    {
      r := 0;
      for i := 0 to |vertices|
        invariant r <= 0 && forall k | 0 <= k < i :: r <= vertices[k].x
        invariant r == 0 || exists k | 0 <= k < |vertices| :: vertices[k].x == r
      {
        if r > vertices[i].x {
          r := vertices[i].x;
        }
      }
    }

    method GetRight() returns (r: int)
      ensures r >= 0 && forall i | 0 <= i < |vertices| :: vertices[i].x <= r
      ensures r == 0 || exists i | 0 <= i < |vertices| :: vertices[i].x == r
    {
      r := 0;
      for i := 0 to |vertices|
        invariant r >= 0 && forall k | 0 <= k < i :: vertices[k].x <= r
        invariant r == 0 || exists k | 0 <= k < |vertices| :: vertices[k].x == r
      {
        if r < vertices[i].x {
          r := vertices[i].x;
        }
      }
    }

    /** The smallest box around the vertices and the origin. */
    method SetBounds()
      modifies `left, `right, `top, `bottom
      ensures Hull(vertices, Bounds())
    {
      left := GetLeft();
      top := GetTop();
      right := GetRight();
      bottom := GetBottom();
    }

    /** With filter and cache: the answer of `Answer`, which is the raw test's if no enclosed point has a negative y. */
    method Encloses(x: int, y: int) returns (value: bool)
      requires Valid()
      modifies `pointCache, `asked
      ensures Valid() && asked == old(asked) + [Point(x, y)]
      ensures value == Answer(vertices, Bounds(), old(asked), x, y)
      ensures NothingBelow(vertices) ==> value == EvenOdd(vertices, x, y)
      // what is in the cache stays there, and a point of the box is in it
      ensures forall k | k in old(pointCache) :: k in pointCache && pointCache[k] == old(pointCache)[k]
      ensures Inside(x, y, Bounds()) ==> Key(x, y) in pointCache && pointCache[Key(x, y)] == value
    {
      hide EvenOdd, Boxed, Key, ListsAnswers, NothingBelow, Compact;
      if NothingBelow(vertices) {
        AnswerIsRight(vertices, Bounds(), asked, x, y);
      }
      if enclosed != [] {
        AnswersStay(vertices, Bounds(), asked, Point(x, y), enclosed);
      }
      ghost var before := asked;
      asked := asked + [Point(x, y)];
      assert asked[..|before|] == before;
      if x < left || x > right || y < bottom || y > top {
        return false;
      }
      var lookup := Key(x, y);
      if lookup !in pointCache {
        value := RawEncloses(xcoords, ycoords, x, y, vertices);
        pointCache := pointCache[lookup := value];
      } else {
        value := pointCache[lookup];
      }
    }

    /** From the box alone: every enclosed point of the plane, exactly if none has a negative y. */
    method EnclosedPoints() returns (points: seq<Point>)
      requires Valid()
      modifies `pointCache, `enclosed, `asked
      ensures Valid() && points == enclosed && ListsAnswers(vertices, Bounds(), asked, points)
      ensures ListsEnclosed(vertices, points) <==> NothingBelow(vertices)
    {
      hide ListsEnclosed, ListsAnswers, NothingBelow, EvenOdd, Compact, CacheHolds, Hull, Scanned;
      assert Boxed(vertices, Bounds()) by { HullIsBox(vertices, Bounds()); }
      if |enclosed| > 0 {
        ListIsRightExactly(vertices, Bounds(), asked, enclosed);
        return enclosed;
      }
      var l, r, b, t := Extent();
      HullUnique(vertices, Bounds(), Box(l, r, b, t));
      var found := Scan(l, r, b, t);
      ScanEnds(vertices, found, pointCache, Bounds(), asked);
      ListIsRightExactly(vertices, Bounds(), asked, found);
      enclosed := found;
      points := enclosed;
    }

    method Extent() returns (l: int, r: int, b: int, t: int)
      ensures Hull(vertices, Box(l, r, b, t))
    {
      t := GetTop();
      b := GetBottom();
      l := GetLeft();
      r := GetRight();
    }

    /** The two loops of `enclosedPoints`. */
    method Scan(l: int, r: int, b: int, t: int) returns (found: seq<Point>)
      requires Valid() && l == left && r == right && b == bottom && t == top
      modifies `pointCache, `asked
      ensures Valid() && Scanned(pointCache, found, l, b, t, r + 1, b)
    {
      hide CacheHolds, Hull, ListsAnswers, Scanned, Key, NothingBelow, EvenOdd, Answer;
      found := [];
      ScanStarts(pointCache, l, b, t);
      for i := l to r + 1
        invariant Valid() && Scanned(pointCache, found, l, b, t, i, b)
      {
        for j := b to t + 1
          invariant Valid() && Scanned(pointCache, found, l, b, t, i, j)
        {
          ghost var before := pointCache;
          var inside := Encloses(i, j);
          ScanStep(before, pointCache, found, l, b, t, i, j, inside);
          if inside {
            found := found + [Point(i, j)];
          }
        }
        ScanNext(pointCache, found, l, b, t, i);
      }
    }
  }

  /** The points before (i, j) in loop order are in the cache, and `found` has those whose answer is true. */
  ghost predicate Scanned(cache: map<int, bool>, found: seq<Point>, l: int, b: int, t: int, i: int, j: int) {
    && (forall x, y | Passed(x, y, l, b, t, i, j) :: Key(x, y) in cache && (cache[Key(x, y)] <==> Point(x, y) in found))
    && (forall p | p in found :: Passed(p.x, p.y, l, b, t, i, j))
    && InLoopOrder(found)
  }

  ghost predicate Passed(x: int, y: int, l: int, b: int, t: int, i: int, j: int) {
    (l <= x < i && b <= y <= t) || (x == i && b <= y < j)
  }

  lemma ScanStarts(cache: map<int, bool>, l: int, b: int, t: int)
    ensures Scanned(cache, [], l, b, t, l, b)
  {
  }

  lemma ScanStep(before: map<int, bool>, cache: map<int, bool>, found: seq<Point>, l: int, b: int, t: int, i: int,
      j: int,
                 inside: bool)
    requires Scanned(before, found, l, b, t, i, j) && l <= i && b <= j <= t
    requires forall k | k in before :: k in cache && cache[k] == before[k]
    requires Key(i, j) in cache && cache[Key(i, j)] == inside
    ensures Scanned(cache, if inside then found + [Point(i, j)] else found, l, b, t, i, j + 1)
  {
    hide Key;
    assert forall k | 0 <= k < |found| :: found[k] in found;
    var found' := if inside then found + [Point(i, j)] else found;
    forall x, y | Passed(x, y, l, b, t, i, j + 1)
      ensures Key(x, y) in cache && (cache[Key(x, y)] <==> Point(x, y) in found')
    {
      if !Passed(x, y, l, b, t, i, j) {
        assert x == i && y == j && Point(x, y) !in found;
      }
    }
  }

  lemma ScanNext(cache: map<int, bool>, found: seq<Point>, l: int, b: int, t: int, i: int)
    requires Scanned(cache, found, l, b, t, i, t + 1) && l <= i
    ensures Scanned(cache, found, l, b, t, i + 1, b)
  {
    hide Key;
    var next := i + 1;
    forall x, y | Passed(x, y, l, b, t, next, b)
      ensures Passed(x, y, l, b, t, i, t + 1)
    {
    }
  }

  lemma ScanEnds(v: seq<Point>, found: seq<Point>, cache: map<int, bool>, b: Box, asked: seq<Point>)
    requires Scanned(cache, found, b.left, b.bottom, b.top, b.right + 1, b.bottom)
    requires CacheHolds(v, b, asked, cache)
    ensures ListsAnswers(v, b, asked, found)
  {
    hide Key, EvenOdd, FirstWith, InLoopOrder;
    forall x, y | Inside(x, y, b)
      ensures Key(x, y) in cache && (cache[Key(x, y)] <==> Point(x, y) in found)
    {
      assert Passed(x, y, b.left, b.bottom, b.top, b.right + 1, b.bottom);
    }
  }
}
