/**
 Points of a three-dimensional index box, in the order in which nested loops (x innermost) visit them.
 */
module Boxes {
  import opened Arithmetic

  datatype Point = Point(x: nat, y: nat, z: nat)

  const ORIGIN := Point(0, 0, 0)

  predicate Inside(p: Point, b: Point) {
    p.x < b.x && p.y < b.y && p.z < b.z
  }

  /** Point p of a box moved to an origin. */
  function Shifted(origin: Point, p: Point): Point {
    Point(origin.x + p.x, origin.y + p.y, origin.z + p.z)
  }

  predicate InRegion(q: Point, origin: Point, region: Point) {
    && origin.x <= q.x < origin.x + region.x
    && origin.y <= q.y < origin.y + region.y
    && origin.z <= q.z < origin.z + region.z
  }

  function Volume(b: Point): nat {
    b.x * b.y * b.z
  }

  /** The positions the three loop counters can take. */
  predicate Cursor(p: Point, b: Point) {
    || (p.z < b.z && p.y < b.y && p.x <= b.x)
    || (p.z < b.z && p.y == b.y && p.x == 0)
    || (p.z == b.z && p.y == p.x == 0)
  }

  predicate Earlier(q: Point, p: Point) {
    q.z < p.z || (q.z == p.z && (q.y < p.y || (q.y == p.y && q.x < p.x)))
  }

  /** The points visited before the loop counters reach p. */
  function Before(p: Point, b: Point): seq<Point>
    decreases p.z, p.y, p.x
  {
    if p.x > 0 then
      var q := Point(p.x - 1, p.y, p.z);
      Before(q, b) + [q]
    else if p.y > 0 then Before(Point(b.x, p.y - 1, p.z), b)
    else if p.z > 0 then Before(Point(0, b.y, p.z - 1), b)
    else []
  }

  /** All points, in visiting order. */
  function Points(b: Point): seq<Point> {
    Before(Point(0, 0, b.z), b)
  }

  /** The position of p in the visiting order. */
  function Rank(p: Point, b: Point): nat {
    (p.z * b.y + p.y) * b.x + p.x
  }

  predicate Distinct(s: seq<Point>) {
    forall j, k :: 0 <= j < k < |s| ==> s[j] != s[k]
  }

  /** The cursor position before p, and the point visited on the way, if any. */
  function Previous(p: Point, b: Point): Point
    requires p != Point(0, 0, 0)
  {
    if p.x > 0 then Point(p.x - 1, p.y, p.z)
    else if p.y > 0 then Point(b.x, p.y - 1, p.z)
    else Point(0, b.y, p.z - 1)
  }

  lemma PreviousEarlier(p: Point, b: Point, q: Point)
    requires Cursor(p, b) && p != Point(0, 0, 0)
    ensures Cursor(Previous(p, b), b)
    ensures Inside(q, b) && Earlier(q, p) <==>
            (Inside(q, b) && Earlier(q, Previous(p, b))) || (p.x > 0 && q == Previous(p, b))
  {
  }

  lemma {:induction false} BeforeIsEarlier(p: Point, b: Point)
    requires Cursor(p, b)
    ensures forall q :: q in Before(p, b) <==> Inside(q, b) && Earlier(q, p)
    decreases p.z, p.y, p.x
  {
    if p != Point(0, 0, 0) {
      var previous := Previous(p, b);
      PreviousEarlier(p, b, p);
      BeforeIsEarlier(previous, b);
      forall q ensures q in Before(p, b) <==> Inside(q, b) && Earlier(q, p) {
        PreviousEarlier(p, b, q);
        assert q in Before(p, b) <==> q in Before(previous, b) || (p.x > 0 && q == previous);
      }
    }
  }

  lemma {:induction false} BeforeDistinct(p: Point, b: Point)
    requires Cursor(p, b)
    ensures Distinct(Before(p, b))
    decreases p.z, p.y, p.x
  {
    if p != Point(0, 0, 0) {
      var previous := Previous(p, b);
      PreviousEarlier(p, b, p);
      BeforeDistinct(previous, b);
      BeforeIsEarlier(previous, b);
      assert previous !in Before(previous, b);
    }
  }

  /** The loops visit every point of the box exactly once. */
  lemma PointsCoverBox(b: Point)
    ensures forall q :: q in Points(b) <==> Inside(q, b)
    ensures Distinct(Points(b))
  {
    BeforeIsEarlier(Point(0, 0, b.z), b);
    BeforeDistinct(Point(0, 0, b.z), b);
  }

  lemma {:induction false} BeforeLength(p: Point, b: Point)
    ensures |Before(p, b)| == Rank(p, b)
    decreases p.z, p.y, p.x
  {
    if p.x > 0 {
      BeforeLength(Point(p.x - 1, p.y, p.z), b);
    } else if p.y > 0 {
      BeforeLength(Point(b.x, p.y - 1, p.z), b);
      RankOfLine(p.y, p.z, b);
    } else if p.z > 0 {
      BeforeLength(Point(0, b.y, p.z - 1), b);
      RankOfSlice(p.z, b);
    }
  }

  lemma RankOfSlice(z: nat, b: Point)
    requires z > 0
    ensures Rank(Point(0, b.y, z - 1), b) == Rank(Point(0, 0, z), b)
  {
    assert (z - 1) * b.y + b.y == z * b.y by { MulNext(z - 1, b.y); }
  }

  lemma RankOfLine(y: nat, z: nat, b: Point)
    requires y > 0
    ensures Rank(Point(b.x, y - 1, z), b) == Rank(Point(0, y, z), b)
  {
    MulNext(z * b.y + y - 1, b.x);
  }

  lemma {:induction false} BeforePrefix(q: Point, p: Point, b: Point)
    requires Cursor(q, b) && Cursor(p, b) && (Earlier(q, p) || q == p)
    ensures Before(q, b) <= Before(p, b)
    decreases p.z, p.y, p.x
  {
    if q != p {
      if p.x > 0 {
        BeforePrefix(q, Point(p.x - 1, p.y, p.z), b);
      } else if p.y > 0 {
        if !(q.z == p.z && q.y == p.y - 1 && q.x == b.x) {
          BeforePrefix(q, Point(b.x, p.y - 1, p.z), b);
        }
      } else if p.z > 0 {
        BeforePrefix(q, Point(0, b.y, p.z - 1), b);
      }
    }
  }

  /** Point number Rank(q) of the visiting order is q. */
  lemma PointAtRank(q: Point, b: Point)
    requires Inside(q, b)
    ensures Rank(q, b) < |Points(b)| == Volume(b) && Points(b)[Rank(q, b)] == q
  {
    var next := Point(q.x + 1, q.y, q.z);
    BeforeLength(q, b);
    PointsLength(b);
    assert Before(next, b) == Before(q, b) + [q];
    BeforePrefix(next, Point(0, 0, b.z), b);
  }

  lemma {:induction false} BeforeInOrder(p: Point, b: Point, j: nat, k: nat)
    requires Cursor(p, b) && j < k < |Before(p, b)|
    ensures Earlier(Before(p, b)[j], Before(p, b)[k])
    decreases p.z, p.y, p.x
  {
    if p.x > 0 {
      var q := Point(p.x - 1, p.y, p.z);
      if k < |Before(q, b)| {
        BeforeInOrder(q, b, j, k);
      } else {
        BeforeIsEarlier(q, b);
        assert Before(q, b)[j] in Before(q, b);
      }
    } else if p.y > 0 {
      BeforeInOrder(Point(b.x, p.y - 1, p.z), b, j, k);
    } else if p.z > 0 {
      BeforeInOrder(Point(0, b.y, p.z - 1), b, j, k);
    }
  }

  lemma PointsInOrder(b: Point, j: nat, k: nat)
    requires j < k < |Points(b)|
    ensures Earlier(Points(b)[j], Points(b)[k])
  {
    BeforeInOrder(Point(0, 0, b.z), b, j, k);
  }

  /** Earlier points have lower numbers. */
  lemma EarlierRank(q: Point, p: Point, b: Point)
    requires Inside(q, b) && Inside(p, b) && Earlier(q, p)
    ensures Rank(q, b) < Rank(p, b) < |Points(b)|
    ensures Points(b)[Rank(q, b)] == q && Points(b)[Rank(p, b)] == p
  {
    PointAtRank(q, b);
    PointAtRank(p, b);
    if Rank(p, b) < Rank(q, b) {
      PointsInOrder(b, Rank(p, b), Rank(q, b));
    }
  }

  lemma PointsLength(b: Point)
    ensures |Points(b)| == Volume(b)
  {
    BeforeLength(Point(0, 0, b.z), b);
    assert b.z * b.y * b.x == Volume(b);
  }
}
