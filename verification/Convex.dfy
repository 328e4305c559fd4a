/**
 What the even-odd test of core/math/Polygon.cpp means for convex polygons: the point is enclosed if it is
 inside and its right neighbour too, and not if both are outside of the same edge.
 */
module Convex {
  import opened Polygons

  function Next(i: nat, n: nat): nat
    requires i < n
  {
    if i == n - 1 then 0 else i + 1
  }

  // ----- edges with the polygon to their left

  /** Edge `i` joins vertex `i` and the one before it; a polygon listed clockwise has its edges turned round. */
  ghost function From(v: seq<Point>, ccw: bool, i: nat): Point
    requires i < |v|
  {
    if ccw then v[Previous(i, |v|)] else v[i]
  }

  ghost function To(v: seq<Point>, ccw: bool, i: nat): Point
    requires i < |v|
  {
    if ccw then v[i] else v[Previous(i, |v|)]
  }

  /** Positive if the point is on the inner side of edge `i`, zero if it is on its line. */
  ghost function Side(v: seq<Point>, ccw: bool, i: nat, x: int, y: int): int
    requires i < |v|
  {
    Cross(From(v, ccw, i), To(v, ccw, i), x, y)
  }

  /** Every other vertex is on the inner side of every edge. */
  ghost predicate StrictlyConvex(v: seq<Point>, ccw: bool) {
    |v| >= 3 && forall i: nat, k: nat | i < |v| && k < |v| && k != i && k != Previous(i, |v|) ::
        Side(v, ccw, i, v[k].x, v[k].y) > 0
  }

  lemma EndIsOnLine(a: Point, b: Point)
    ensures Cross(a, b, a.x, a.y) == 0 && Cross(a, b, b.x, b.y) == 0
  {
  }

  lemma VertexSide(v: seq<Point>, ccw: bool, i: nat, k: nat)
    requires StrictlyConvex(v, ccw) && i < |v| && k < |v|
    ensures Side(v, ccw, i, v[k].x, v[k].y) >= 0
  {
    EndIsOnLine(From(v, ccw, i), To(v, ccw, i));
  }

  // ----- one line through the polygon

  lemma AffineArithmetic(dx: int, dy: int, ux: int, uy: int, gx: int, gy: int, wx: int, wy: int)
    ensures gy * (dx * (uy + wy) - dy * (ux + wx)) ==
            (gy - wy) * (dx * uy - dy * ux) + wy * (dx * (uy + gy) - dy * (ux + gx)) + dy * (gx * wy - gy * wx)
  {
  }

  /** What an edge's ends contribute, weighted as where the edge meets the line. */
  ghost function Weighted(a: Point, b: Point, lo: Point, hi: Point, y: int): int {
    (hi.y - y) * Cross(a, b, lo.x, lo.y) + (y - lo.y) * Cross(a, b, hi.x, hi.y)
  }

  /** Two cross products of the same point, related through the point where one edge meets the line. */
  lemma Affine(a: Point, b: Point, lo: Point, hi: Point, x: int, y: int)
    ensures (hi.y - lo.y) * Cross(a, b, x, y) == Weighted(a, b, lo, hi, y) + (b.y - a.y) * Cross(lo, hi, x, y)
  {
    var dx, dy, ux, uy := b.x - a.x, b.y - a.y, lo.x - a.x, lo.y - a.y;
    var gx, gy, wx, wy := hi.x - lo.x, hi.y - lo.y, x - lo.x, y - lo.y;
    AffineArithmetic(dx, dy, ux, uy, gx, gy, wx, wy);
    assert Cross(a, b, x, y) == dx * (uy + wy) - dy * (ux + wx);
    assert Cross(a, b, hi.x, hi.y) == dx * (uy + gy) - dy * (ux + gx);
    assert hi.y - y == gy - wy;
  }

  lemma CrossReversed(a: Point, b: Point, x: int, y: int)
    ensures Cross(b, a, x, y) == -Cross(a, b, x, y)
  {
  }

  /** Each of two edges meets the line to one side of the other. */
  lemma OppositeWeights(a: Point, b: Point, c: Point, d: Point, y: int)
    ensures Weighted(a, b, c, d, y) + Weighted(c, d, a, b, y) == 0
  {
    hide Cross, Weighted;
    Affine(a, b, c, d, 0, y);
    Affine(c, d, a, b, 0, y);
  }

  lemma WeightedReversed(a: Point, b: Point, lo: Point, hi: Point, y: int)
    ensures Weighted(b, a, lo, hi, y) == -Weighted(a, b, lo, hi, y) == Weighted(a, b, hi, lo, y)
  {
    hide Cross;
    CrossReversed(a, b, lo.x, lo.y);
    CrossReversed(a, b, hi.x, hi.y);
    var p, q := Cross(a, b, lo.x, lo.y), Cross(a, b, hi.x, hi.y);
    assert (hi.y - y) * -p == -((hi.y - y) * p) && (y - lo.y) * -q == -((y - lo.y) * q);
    assert (lo.y - y) * q == -((y - lo.y) * q) && (y - hi.y) * p == -((hi.y - y) * p);
  }

  lemma PositiveSum(p: int, q: int, m: int, n: int)
    requires p > 0 && q >= 0 && m >= 0 && n >= 0
    ensures p * m + q * n >= 0 && (m > 0 ==> p * m + q * n > 0)
  {
  }

  /** Where an edge meets the line is on the inner side of every edge, strictly if its lower end is not on that edge. */
  lemma MeetsInside(v: seq<Point>, ccw: bool, i: nat, l: nat, h: nat, y: int)
    requires StrictlyConvex(v, ccw) && i < |v| && l < |v| && h < |v| && Rises(v[l], v[h], y)
    ensures Weighted(From(v, ccw, i), To(v, ccw, i), v[l], v[h], y) >= 0
    ensures l != i && l != Previous(i, |v|) ==> Weighted(From(v, ccw, i), To(v, ccw, i), v[l], v[h], y) > 0
  {
    hide Cross;
    VertexSide(v, ccw, i, l);
    VertexSide(v, ccw, i, h);
    if l != i && l != Previous(i, |v|) {
      assert Side(v, ccw, i, v[l].x, v[l].y) > 0;
    }
    PositiveSum(v[h].y - y, y - v[l].y, Side(v, ccw, i, v[l].x, v[l].y), Side(v, ccw, i, v[h].x, v[h].y));
  }

  /** At most one edge rises through the line, and at most one falls. */
  lemma OneEachWay(v: seq<Point>, ccw: bool, i: nat, k: nat, y: int)
    requires StrictlyConvex(v, ccw) && i < |v| && k < |v| && i != k
    ensures !(Rises(From(v, ccw, i), To(v, ccw, i), y) && Rises(From(v, ccw, k), To(v, ccw, k), y))
    ensures !(Rises(To(v, ccw, i), From(v, ccw, i), y) && Rises(To(v, ccw, k), From(v, ccw, k), y))
  {
    hide Cross, Weighted;
    var n := |v|;
    var a, b, c, d := From(v, ccw, i), To(v, ccw, i), From(v, ccw, k), To(v, ccw, k);
    var fi, ti := if ccw then Previous(i, n) else i, if ccw then i else Previous(i, n);
    var fk, tk := if ccw then Previous(k, n) else k, if ccw then k else Previous(k, n);
    OppositeWeights(a, b, c, d, y);
    if Rises(a, b, y) && Rises(c, d, y) {
      MeetsInside(v, ccw, i, fk, tk, y);
      MeetsInside(v, ccw, k, fi, ti, y);
    }
    if Rises(b, a, y) && Rises(d, c, y) {
      MeetsInside(v, ccw, i, tk, fk, y);
      MeetsInside(v, ccw, k, ti, fi, y);
      WeightedReversed(a, b, c, d, y);
      WeightedReversed(c, d, a, b, y);
    }
  }

  // ----- the line crosses a closed polygon both ways

  lemma {:induction false} ChangeBetween(v: seq<Point>, y: int, lo: nat, hi: nat, above: bool) returns (i: nat)
    requires lo < hi < |v| && (v[lo].y > y) == above && (v[hi].y > y) == !above
    ensures lo < i <= hi && (v[i - 1].y > y) == above && (v[i].y > y) == !above
    decreases hi - lo
  {
    if (v[lo + 1].y > y) == !above {
      i := lo + 1;
    } else {
      i := ChangeBetween(v, y, lo + 1, hi, above);
    }
  }

  /** Going round, the line is crossed in either direction. */
  lemma Change(v: seq<Point>, y: int, lo: nat, hi: nat, above: bool) returns (i: nat)
    requires lo < |v| && hi < |v| && (v[lo].y > y) == above && (v[hi].y > y) == !above
    ensures i < |v| && (v[Previous(i, |v|)].y > y) == above && (v[i].y > y) == !above
  {
    var last := |v| - 1;
    if lo < hi {
      i := ChangeBetween(v, y, lo, hi, above);
    } else if (v[last].y > y) == !above {
      i := ChangeBetween(v, y, lo, last, above);
    } else if (v[0].y > y) == !above {
      i := 0;
    } else {
      i := ChangeBetween(v, y, 0, hi, above);
    }
  }

  /** With vertices on both sides of the line, exactly one edge rises through it and exactly one falls. */
  lemma TwoEdges(v: seq<Point>, ccw: bool, y: int, lo: nat, hi: nat) returns (r: nat, f: nat)
    requires StrictlyConvex(v, ccw) && lo < |v| && hi < |v| && v[lo].y <= y < v[hi].y
    ensures r < |v| && f < |v| && r != f
    ensures Rises(From(v, ccw, r), To(v, ccw, r), y) && Rises(To(v, ccw, f), From(v, ccw, f), y)
    ensures forall i | 0 <= i < |v| && i != r && i != f :: !Straddles(v[i], v[Previous(i, |v|)], y)
  {
    hide StrictlyConvex;
    var up := Change(v, y, lo, hi, false);
    var down := Change(v, y, hi, lo, true);
    r, f := if ccw then up else down, if ccw then down else up;
    assert |v| >= 3 by { AtLeastThree(v, ccw); }
    forall i: nat | i < |v| && i != r && i != f
      ensures !Straddles(v[i], v[Previous(i, |v|)], y)
    {
      OneEachWay(v, ccw, i, r, y);
      OneEachWay(v, ccw, i, f, y);
    }
  }

  lemma AtLeastThree(v: seq<Point>, ccw: bool)
    requires StrictlyConvex(v, ccw)
    ensures |v| >= 3
  {
  }

  lemma {:induction false} ParityOfTwo(v: seq<Point>, x: int, y: int, r: nat, f: nat, k: nat)
    requires r < |v| && f < |v| && r != f && k <= |v|
    requires forall i | 0 <= i < |v| && i != r && i != f :: !Straddles(v[i], v[Previous(i, |v|)], y)
    ensures Parity(v, x, y, k) == ((r < k && Toggles(v[r], v[Previous(r, |v|)], x, y))
                                   != (f < k && Toggles(v[f], v[Previous(f, |v|)], x, y)))
  {
    hide CrossingX;
    if k > 0 {
      ParityOfTwo(v, x, y, r, f, k - 1);
      if k - 1 != r && k - 1 != f {
        assert !Toggles(v[k - 1], v[Previous(k - 1, |v|)], x, y);
      }
    }
  }

  lemma {:induction false} NoParity(v: seq<Point>, x: int, y: int, k: nat)
    requires k <= |v| && (forall i, j | 0 <= i < |v| && 0 <= j < |v| :: v[i].y > y <==> v[j].y > y)
    ensures !Parity(v, x, y, k)
  {
    if k > 0 {
      NoParity(v, x, y, k - 1);
    }
  }

  // ----- inside

  /** The point is on the inner side of every edge. */
  ghost predicate Interior(v: seq<Point>, ccw: bool, x: int, y: int) {
    forall i: nat | i < |v| :: Side(v, ccw, i, x, y) > 0
  }

  ghost predicate Closure(v: seq<Point>, ccw: bool, x: int, y: int) {
    forall i: nat | i < |v| :: Side(v, ccw, i, x, y) >= 0
  }

  lemma CornerArithmetic(ax: int, ay: int, cx: int, cy: int, wx: int, wy: int)
    ensures (ax * wy - ay * wx) * cy - (cx * wy - cy * wx) * ay == wy * (ax * cy - ay * cx)
  {
  }

  /** A point on the inner side of the two edges at a corner, in terms of the corner. */
  lemma Corner(a: Point, c: Point, b: Point, x: int, y: int)
    ensures Cross(a, c, x, y) * (b.y - c.y) - Cross(c, b, x, y) * (c.y - a.y) == (y - c.y) * Cross(a, c, b.x, b.y)
  {
    var ax, ay, cx, cy, wx, wy := c.x - a.x, c.y - a.y, b.x - c.x, b.y - c.y, x - c.x, y - c.y;
    CornerArithmetic(ax, ay, cx, cy, wx, wy);
    assert Cross(a, c, x, y) == ax * (ay + wy) - ay * (ax + wx) == ax * wy - ay * wx;
    assert Cross(a, c, b.x, b.y) == ax * (ay + cy) - ay * (ax + cx) == ax * cy - ay * cx;
  }

  lemma NotBelowLowest(a: Point, c: Point, b: Point, x: int, y: int)
    requires c.y <= a.y && c.y <= b.y && Cross(a, c, b.x, b.y) > 0 && Cross(a, c, x, y) > 0 && Cross(c, b, x, y) > 0
    ensures y >= c.y
  {
    hide Cross;
    Corner(a, c, b, x, y);
    if y < c.y {
      Signs(Cross(a, c, x, y), b.y - c.y);
      Signs(Cross(c, b, x, y), a.y - c.y);
      Negative(c.y - y, Cross(a, c, b.x, b.y));
    }
  }

  lemma NotAboveHighest(a: Point, c: Point, b: Point, x: int, y: int)
    requires a.y <= c.y && b.y <= c.y && Cross(a, c, b.x, b.y) > 0 && Cross(a, c, x, y) > 0 && Cross(c, b, x, y) > 0
    ensures y < c.y
  {
    Corner(a, c, b, x, y);
    if y >= c.y {
      if a.y < c.y || b.y < c.y {
        Highest(Cross(a, c, x, y), Cross(c, b, x, y), c.y - b.y, c.y - a.y, y - c.y, Cross(a, c, b.x, b.y));
      }
    }
  }

  lemma Highest(p: int, q: int, m: int, n: int, w: int, d: int)
    requires p > 0 && q > 0 && m >= 0 && n >= 0 && m + n > 0 && w >= 0 && d > 0
    ensures p * -m - q * n != w * d
  {
    assert p * -m == -(p * m);
    Signs(p, m);
    Signs(q, n);
    Signs(d, w);
    if m > 0 {
      Negative(m, p);
    } else {
      Negative(n, q);
    }
  }

  lemma Signs(p: int, m: int)
    requires p > 0 && m >= 0
    ensures p * m >= 0
  {
  }

  lemma Negative(p: int, m: int)
    requires p > 0 && m > 0
    ensures p * m > 0 && m * p > 0
  {
  }

  lemma {:induction false} Extreme(v: seq<Point>, k: nat) returns (lo: nat, hi: nat)
    requires 0 < k <= |v|
    ensures lo < k && hi < k && forall i | 0 <= i < k :: v[lo].y <= v[i].y <= v[hi].y
  {
    if k == 1 {
      lo, hi := 0, 0;
    } else {
      lo, hi := Extreme(v, k - 1);
      lo, hi := if v[k - 1].y < v[lo].y then k - 1 else lo, if v[k - 1].y > v[hi].y then k - 1 else hi;
    }
  }

  /** The two edges at vertex `i`, in the order that has the polygon to the left. */
  lemma CornerAt(v: seq<Point>, ccw: bool, i: nat, x: int, y: int) returns (a: Point, b: Point)
    requires StrictlyConvex(v, ccw) && i < |v| && Interior(v, ccw, x, y)
    ensures a in v && b in v && Cross(a, v[i], b.x, b.y) > 0 && Cross(a, v[i], x, y) > 0 && Cross(v[i], b, x, y) > 0
  {
    hide Cross;
    var p, n := Previous(i, |v|), Next(i, |v|);
    assert Previous(n, |v|) == i;
    a, b := if ccw then v[p] else v[n], if ccw then v[n] else v[p];
    assert Side(v, ccw, i, x, y) > 0 && Side(v, ccw, n, x, y) > 0;
    if ccw {
      assert Side(v, ccw, i, v[n].x, v[n].y) > 0;
    } else {
      assert Side(v, ccw, n, v[p].x, v[p].y) > 0;
    }
  }

  /** A point inside has vertices on both sides of its line. */
  lemma InteriorIsBetween(v: seq<Point>, ccw: bool, x: int, y: int) returns (lo: nat, hi: nat)
    requires StrictlyConvex(v, ccw) && Interior(v, ccw, x, y)
    ensures lo < |v| && hi < |v| && v[lo].y <= y < v[hi].y
  {
    hide Cross;
    lo, hi := Extreme(v, |v|);
    var a, b := CornerAt(v, ccw, lo, x, y);
    NotBelowLowest(a, v[lo], b, x, y);
    a, b := CornerAt(v, ccw, hi, x, y);
    NotAboveHighest(a, v[hi], b, x, y);
  }

  /** A point inside a convex polygon, with its right neighbour not outside, is enclosed. */
  lemma ConvexInside(v: seq<Point>, ccw: bool, x: int, y: int)
    requires StrictlyConvex(v, ccw) && Interior(v, ccw, x, y) && Closure(v, ccw, x + 1, y)
    ensures EvenOdd(v, x, y)
  {
    hide Cross, Toggles, StrictlyConvex;
    var lo, hi := InteriorIsBetween(v, ccw, x, y);
    var r, f := TwoEdges(v, ccw, y, lo, hi);
    ParityOfTwo(v, x, y, r, f, |v|);
    assert Side(v, ccw, r, x + 1, y) >= 0 && Side(v, ccw, f, x, y) > 0;
    ToggleMargins(v[r], v[Previous(r, |v|)], From(v, ccw, r), To(v, ccw, r), x, y);
    ToggleMargins(v[f], v[Previous(f, |v|)], To(v, ccw, f), From(v, ccw, f), x, y);
    CrossReversed(From(v, ccw, f), To(v, ccw, f), x, y);
  }

  // ----- outside

  /** Outside of edge `i`, all edges that meet the line lie to the same side. */
  lemma OutsideOf(v: seq<Point>, ccw: bool, i: nat, l: nat, h: nat, x: int, y: int)
    requires StrictlyConvex(v, ccw) && i < |v| && l < |v| && h < |v| && Rises(v[l], v[h], y)
    requires Side(v, ccw, i, x, y) < 0
    ensures
      var slope := To(v, ccw, i).y - From(v, ccw, i).y;
      slope != 0 && (slope > 0 ==> Cross(v[l], v[h], x, y) < 0) && (slope < 0 ==> Cross(v[l], v[h], x, y) > 0)
  {
    hide Cross, Weighted;
    var a, b := From(v, ccw, i), To(v, ccw, i);
    MeetsInside(v, ccw, i, l, h, y);
    Affine(a, b, v[l], v[h], x, y);
    Negative(v[h].y - v[l].y, -Side(v, ccw, i, x, y));
    OppositeSigns(v[h].y - v[l].y, Side(v, ccw, i, x, y), b.y - a.y, Cross(v[l], v[h], x, y));
  }

  lemma OppositeSigns(d: int, s: int, slope: int, c: int)
    requires d > 0 && s < 0 && d * s >= slope * c
    ensures slope != 0 && (slope > 0 ==> c < 0) && (slope < 0 ==> c > 0)
  {
    Negative(d, -s);
    assert d * -s == -(d * s);
    if slope > 0 && c >= 0 {
      Signs(slope, c);
    } else if slope < 0 && c <= 0 {
      Signs(-slope, -c);
    }
  }

  /** A point outside an edge of a convex polygon, together with its right neighbour, is not enclosed. */
  lemma ConvexOutside(v: seq<Point>, ccw: bool, i: nat, x: int, y: int)
    requires StrictlyConvex(v, ccw) && i < |v| && Side(v, ccw, i, x, y) < 0 && Side(v, ccw, i, x + 1, y) < 0
    ensures !EvenOdd(v, x, y)
  {
    hide Cross, Toggles, StrictlyConvex;
    if lo, hi :| 0 <= lo < |v| && 0 <= hi < |v| && v[lo].y <= y < v[hi].y {
      var r, f := TwoEdges(v, ccw, y, lo, hi);
      ParityOfTwo(v, x, y, r, f, |v|);
      BothSame(v, ccw, i, r, x, y, if ccw then Previous(r, |v|) else r, if ccw then r else Previous(r, |v|));
      BothSame(v, ccw, i, f, x, y, if ccw then f else Previous(f, |v|), if ccw then Previous(f, |v|) else f);
    } else {
      NoParity(v, x, y, |v|);
    }
  }

  lemma BothSame(v: seq<Point>, ccw: bool, i: nat, k: nat, x: int, y: int, l: nat, h: nat)
    requires StrictlyConvex(v, ccw) && i < |v| && Side(v, ccw, i, x, y) < 0 && Side(v, ccw, i, x + 1, y) < 0
    requires k < |v| && l < |v| && h < |v| && Rises(v[l], v[h], y)
    requires (l == k && h == Previous(k, |v|)) || (h == k && l == Previous(k, |v|))
    ensures Toggles(v[k], v[Previous(k, |v|)], x, y) <==> To(v, ccw, i).y < From(v, ccw, i).y
  {
    hide Cross, Toggles, StrictlyConvex, Side;
    OutsideOf(v, ccw, i, l, h, x, y);
    OutsideOf(v, ccw, i, l, h, x + 1, y);
    ToggleMargins(v[k], v[Previous(k, |v|)], v[l], v[h], x, y);
  }
}
