/**
 The index space of a kernel launch (src/executor.cpp): how work-groups and work-items are counted up, and which
 work-items the launches reach.
 */
module WorkItems {
  import opened Arithmetic
  import opened Boxes

  /** A three-element index array as a point. */
  function At(a: array<nat>): Point
    requires a.Length == 3
    reads a
  {
    Point(a[0], a[1], a[2])
  }

  /** The effect of increment_index. */
  function Next(q: Point, limits: Point, offset: nat): Point {
    if q.x + offset < limits.x then Point(q.x + offset, q.y, q.z)
    else if q.y + 1 == limits.y then Point(q.x + offset - limits.x, 0, q.z + 1)
    else Point(q.x + offset - limits.x, q.y + 1, q.z)
  }

  method IncrementIndex(indices: array<nat>, limits: Point, offset: nat) returns (more: bool)
    requires indices.Length == 3
    modifies indices
    ensures At(indices) == Next(old(At(indices)), limits, offset)
    ensures more == (indices[2] < limits.z) == (At(indices).z < limits.z)
  {
    indices[0] := indices[0] + offset;
    if indices[0] >= limits.x {
      indices[0] := indices[0] - limits.x;
      indices[1] := indices[1] + 1;
      if indices[1] == limits.y {
        indices[1] := 0;
        indices[2] := indices[2] + 1;
      }
    }
    return indices[2] < limits.z;
  }

  /** Coordinate by coordinate. */
  lemma NextExact(q: Point, limits: Point, offset: nat)
    ensures var wraps := q.x + offset >= limits.x;
      var last := wraps && q.y + 1 == limits.y;
      && Next(q, limits, offset).x == (if wraps then q.x + offset - limits.x else q.x + offset)
      && Next(q, limits, offset).y == (if last then 0 else if wraps then q.y + 1 else q.y)
      && Next(q, limits, offset).z == (if last then q.z + 1 else q.z)
  {
  }

  /** Incrementing by one moves to the next point of the visiting order, and reports the end exactly after the last. */
  lemma NextInOrder(k: nat, limits: Point)
    requires k < |Points(limits)|
    ensures var next := Next(Points(limits)[k], limits, 1);
      && (next.z < limits.z <==> k + 1 < |Points(limits)|)
      && (k + 1 < |Points(limits)| ==> next == Points(limits)[k + 1])
  {
    var points := Points(limits);
    var q := points[k];
    PointsCoverBox(limits);
    assert q in points;
    PointAtRank(q, limits);
    assert k == Rank(q, limits);
    var next := Next(q, limits, 1);
    if next.z < limits.z {
      RankNext(q, limits);
      PointAtRank(next, limits);
    } else {
      RankLast(q, limits);
    }
  }

  lemma RankNext(q: Point, limits: Point)
    requires Inside(q, limits) && Next(q, limits, 1).z < limits.z
    ensures Inside(Next(q, limits, 1), limits) && Rank(Next(q, limits, 1), limits) == Rank(q, limits) + 1
  {
    assert (q.z * limits.y + q.y + 1) * limits.x == (q.z * limits.y + q.y) * limits.x + limits.x;
    assert (q.z + 1) * limits.y == q.z * limits.y + limits.y;
  }

  lemma RankLast(q: Point, limits: Point)
    requires Inside(q, limits) && Next(q, limits, 1).z >= limits.z
    ensures Rank(q, limits) + 1 == Volume(limits)
  {
    assert q == Point(limits.x - 1, limits.y - 1, limits.z - 1);
    assert (limits.z - 1) * limits.y + limits.y == limits.z * limits.y;
    assert (limits.z * limits.y - 1) * limits.x + limits.x == limits.z * limits.y * limits.x;
    assert limits.z * limits.y * limits.x == Volume(limits);
  }

  // ---------- how far counting goes ----------

  const FIRST_GROUP := ORIGIN

  /** The indices after n increments by one. */
  function NthGroup(limits: Point, n: nat): Point {
    if n == 0 then FIRST_GROUP else Next(NthGroup(limits, n - 1), limits, 1)
  }

  /** Counting up comes to an end. */
  predicate Ends(limits: Point) {
    limits.y > 0 || limits.z == 0
  }

  /** The points counted until the end is reported, if it ever is; the first one always is. */
  function CountedPoints(limits: Point): nat {
    if limits.z == 0 then 1 else if limits.x == 0 then limits.y * limits.z else Volume(limits)
  }

  /** In a box that is not empty the points are counted in loop order. */
  lemma {:induction false} NthIsPoint(limits: Point, n: nat)
    requires n < |Points(limits)|
    ensures NthGroup(limits, n) == Points(limits)[n]
  {
    if n == 0 {
      PointsCoverBox(limits);
      assert Points(limits)[0] in Points(limits);
      PointAtRank(FIRST_GROUP, limits);
    } else {
      NthIsPoint(limits, n - 1);
      NextInOrder(n - 1, limits);
    }
  }

  /** With an empty first dimension every increment goes to the next line, and the first index runs away. */
  lemma {:induction false} NthOfEmptyLines(limits: Point, n: nat)
    requires limits.x == 0 && limits.y > 0
    ensures var g := NthGroup(limits, n); g.x == n && g.y < limits.y && g.z * limits.y + g.y == n
  {
    if n > 0 {
      NthOfEmptyLines(limits, n - 1);
      MulNext(NthGroup(limits, n - 1).z, limits.y);
    }
  }

  lemma {:induction false} EmptyRowNeverEnds(limits: Point, n: nat)
    requires limits.y == 0
    ensures NthGroup(limits, n).z == 0
  {
    if n > 0 {
      EmptyRowNeverEnds(limits, n - 1);
    }
  }

  function Wrap(i: nat, m: nat): nat {
    if i == m then 0 else i
  }

  /** An increment of indices below m that wrap around, as those of the code do. */
  function NextWrapped(q: Point, limits: Point, m: nat): Point {
    var x, y := Wrap(q.x + 1, m), Wrap(q.y + 1, m);
    if x < limits.x then Point(x, q.y, q.z)
    else if y == limits.y then Point(x - limits.x, 0, Wrap(q.z + 1, m))
    else Point(x - limits.x, y, q.z)
  }

  function NthWrapped(limits: Point, n: nat, m: nat): Point {
    if n == 0 then FIRST_GROUP else NextWrapped(NthWrapped(limits, n - 1, m), limits, m)
  }

  /** How many increments lead to the next line. */
  function LineWidth(limits: Point): nat {
    if limits.x == 0 then 1 else limits.x
  }

  /** Where counting without lines is, before the line number wraps around. */
  predicate InEmptyRow(p: Point, limits: Point, n: nat, m: nat) {
    && p.z == 0 && p.y < m
    && if limits.x == 0 then p.x == p.y == n else p.x < limits.x && p.y * limits.x + p.x == n
  }

  lemma {:induction false} EmptyRowWrapped(limits: Point, n: nat, m: nat)
    requires limits.y == 0 && limits.x < m && n < m * LineWidth(limits)
    ensures InEmptyRow(NthWrapped(limits, n, m), limits, n, m)
  {
    if n > 0 {
      EmptyRowWrapped(limits, n - 1, m);
      EmptyRowStep(NthWrapped(limits, n - 1, m), limits, n - 1, m);
    }
  }

  lemma EmptyRowStep(p: Point, limits: Point, n: nat, m: nat)
    requires limits.y == 0 && limits.x < m && n + 1 < m * LineWidth(limits) && InEmptyRow(p, limits, n, m)
    ensures InEmptyRow(NextWrapped(p, limits, m), limits, n + 1, m)
  {
    if limits.x > 0 && p.x + 1 == limits.x {
      MulNext(p.y, limits.x);
      MulCancel(p.y + 1, m, limits.x);
    }
  }

  /** With indices of a fixed width the loop leaves an empty row, after as many launches as there are line numbers. */
  lemma EmptyRowLeftByWrapping(limits: Point, m: nat)
    requires limits.y == 0 && limits.x < m && m > 1
    ensures forall n: nat | n < m * LineWidth(limits) :: NthWrapped(limits, n, m).z == 0
    ensures NthWrapped(limits, m * LineWidth(limits), m).z == 1
  {
    forall n: nat | n < m * LineWidth(limits) ensures NthWrapped(limits, n, m).z == 0 {
      EmptyRowWrapped(limits, n, m);
    }
    MulNext(m - 1, LineWidth(limits));
    var last := (m - 1) * LineWidth(limits) + LineWidth(limits) - 1;
    EmptyRowWrapped(limits, last, m);
    LastOfEmptyRow(NthWrapped(limits, last, m), limits, last, m);
  }

  lemma LastOfEmptyRow(p: Point, limits: Point, n: nat, m: nat)
    requires limits.y == 0 && limits.x < m && m > 1 && InEmptyRow(p, limits, n, m)
    requires n == (m - 1) * LineWidth(limits) + LineWidth(limits) - 1
    ensures NextWrapped(p, limits, m).z == 1
  {
    if limits.x > 0 {
      DigitsUnique(p.y, m - 1, p.x, limits.x - 1, limits.x);
    }
  }

  /** Up to the last counted point, the end is reported exactly after that one. */
  lemma MoreExact(limits: Point, k: nat)
    requires Ends(limits) && k < CountedPoints(limits)
    ensures NthGroup(limits, k + 1).z < limits.z <==> k + 1 < CountedPoints(limits)
  {
    if limits.z > 0 && limits.x == 0 {
      NthOfEmptyLines(limits, k + 1);
      RowOfCount(NthGroup(limits, k + 1), limits, k + 1);
    } else if limits.z > 0 {
      PointsLength(limits);
      NthIsPoint(limits, k);
      NextInOrder(k, limits);
    }
  }

  lemma RowOfCount(g: Point, limits: Point, n: nat)
    requires g.z * limits.y + g.y == n && g.y < limits.y
    ensures g.z < limits.z <==> n < limits.y * limits.z
  {
    if g.z < limits.z {
      MulGap(g.z, limits.z, limits.y);
    } else {
      MulMonotone(limits.z, g.z, limits.y);
    }
  }

  lemma CountedPointsPositive(limits: Point)
    requires Ends(limits)
    ensures CountedPoints(limits) > 0
  {
    if limits.z > 0 {
      MulMonotone(1, limits.y, limits.z);
      if limits.x > 0 {
        VolumePositive(limits);
      }
    }
  }

  lemma VolumePositive(b: Point)
    requires b.x > 0 && b.y > 0 && b.z > 0
    ensures Volume(b) > 0
  {
    MulMonotone(1, b.x, b.y);
    MulMonotone(1, b.x * b.y, b.z);
  }

  /** The end is ever reported exactly when there is a line to count or no slice. */
  lemma EndsExact(limits: Point)
    ensures (exists n :: NthGroup(limits, n).z >= limits.z) <==> Ends(limits)
  {
    if Ends(limits) {
      CountedPointsPositive(limits);
      var n := CountedPoints(limits);
      MoreExact(limits, n - 1);
      assert NthGroup(limits, n).z >= limits.z;
    } else {
      forall n: nat ensures NthGroup(limits, n).z < limits.z {
        EmptyRowNeverEnds(limits, n);
      }
    }
  }

  /** Without points in a line or without slices: one point per line, or the first one. */
  function OutsidePoint(limits: Point, k: nat): Point
    requires Ends(limits)
  {
    if limits.z == 0 then FIRST_GROUP else Point(k, k % limits.y, k / limits.y)
  }

  /** Of an empty box points are counted nevertheless, none of them inside. */
  lemma EmptyBoxCounted(limits: Point, k: nat)
    requires Ends(limits) && Volume(limits) == 0 && k < CountedPoints(limits)
    ensures CountedPoints(limits) == (if limits.z == 0 then 1 else limits.y * limits.z) > 0
    ensures NthGroup(limits, k) == OutsidePoint(limits, k)
    ensures !Inside(NthGroup(limits, k), limits)
  {
    CountedPointsPositive(limits);
    if limits.x > 0 && limits.z > 0 {
      VolumePositive(limits);
    }
    if limits.z > 0 {
      NthOfEmptyLines(limits, k);
      QuotientAndRest(NthGroup(limits, k), limits.y, k);
    }
  }

  lemma QuotientAndRest(g: Point, d: nat, n: nat)
    requires d > 0 && g.z * d + g.y == n && g.y < d
    ensures g.y == n % d && g.z == n / d
  {
    assert n == n / d * d + n % d;
    DigitsUnique(g.z, n / d, g.y, n % d, d);
  }

  // ---------- which work-items the launches reach ----------

  /** The number of work-groups per dimension. */
  function Groups(global: Point, local: Point): Point
    requires local.x > 0 && local.y > 0 && local.z > 0
  {
    Point(global.x / local.x, global.y / local.y, global.z / local.z)
  }

  /** Global ID of a work-item: group * local_size + local_index in every dimension. */
  function GlobalId(group: Point, item: Point, local: Point): Point {
    Point(group.x * local.x + item.x, group.y * local.y + item.y, group.z * local.z + item.z)
  }

  function Scaled(groups: Point, local: Point): Point {
    Point(groups.x * local.x, groups.y * local.y, groups.z * local.z)
  }

  lemma GlobalIdInside(group: Point, item: Point, groups: Point, local: Point)
    requires Inside(group, groups) && Inside(item, local)
    ensures Inside(GlobalId(group, item, local), Scaled(groups, local))
  {
    MulGap(group.x, groups.x, local.x);
    MulGap(group.y, groups.y, local.y);
    MulGap(group.z, groups.z, local.z);
  }

  lemma GlobalIdInjective(g: Point, i: Point, g': Point, i': Point, local: Point)
    requires Inside(i, local) && Inside(i', local) && GlobalId(g, i, local) == GlobalId(g', i', local)
    ensures g == g' && i == i'
  {
    DigitsUnique(g.x, g'.x, i.x, i'.x, local.x);
    DigitsUnique(g.y, g'.y, i.y, i'.y, local.y);
    DigitsUnique(g.z, g'.z, i.z, i'.z, local.z);
  }

  lemma GlobalIdSurjective(p: Point, groups: Point, local: Point) returns (g: Point, i: Point)
    requires Inside(p, Scaled(groups, local))
    ensures Inside(g, groups) && Inside(i, local) && GlobalId(g, i, local) == p
  {
    assert local.x > 0 && local.y > 0 && local.z > 0;
    g := Point(p.x / local.x, p.y / local.y, p.z / local.z);
    i := Point(p.x % local.x, p.y % local.y, p.z % local.z);
    QuotientBound(p.x, local.x, groups.x);
    QuotientBound(p.y, local.y, groups.y);
    QuotientBound(p.z, local.z, groups.z);
  }

  /** The work-item that QPU number q works on in launch number k. */
  function ItemOf(k: nat, q: nat, groups: Point, local: Point): Point
    requires k < |Points(groups)| && q < |Points(local)|
  {
    GlobalId(Points(groups)[k], Points(local)[q], local)
  }

  predicate Used(k: nat, q: nat, groups: Point, local: Point) {
    k < |Points(groups)| && q < |Points(local)|
  }

  /**
   One launch per work-group and one QPU per work-item reach every point of the global range exactly once and nothing
   else.
   */
  lemma NDRangeCoveredOnce(groups: Point, local: Point)
    ensures |Points(groups)| == Volume(groups) && |Points(local)| == Volume(local)
    ensures forall k: nat, q: nat | Used(k, q, groups, local) ::
      Inside(ItemOf(k, q, groups, local), Scaled(groups, local))
    ensures forall p | Inside(p, Scaled(groups, local)) ::
      exists k: nat, q: nat :: Used(k, q, groups, local) && ItemOf(k, q, groups, local) == p
    ensures forall k: nat, q: nat, k': nat, q': nat | Used(k, q, groups, local) && Used(k', q', groups, local) ::
      ItemOf(k, q, groups, local) == ItemOf(k', q', groups, local) ==> k == k' && q == q'
  {
    PointsLength(groups);
    PointsLength(local);
    PointsCoverBox(groups);
    PointsCoverBox(local);
    forall k: nat, q: nat | Used(k, q, groups, local)
      ensures Inside(Points(groups)[k], groups) && Inside(Points(local)[q], local)
      ensures Inside(ItemOf(k, q, groups, local), Scaled(groups, local))
    {
      assert Points(groups)[k] in Points(groups) && Points(local)[q] in Points(local);
      GlobalIdInside(Points(groups)[k], Points(local)[q], groups, local);
    }
    forall p | Inside(p, Scaled(groups, local))
      ensures exists k: nat, q: nat :: Used(k, q, groups, local) && ItemOf(k, q, groups, local) == p
    {
      var g, i := GlobalIdSurjective(p, groups, local);
      PointAtRank(g, groups);
      PointAtRank(i, local);
      assert Used(Rank(g, groups), Rank(i, local), groups, local);
      assert ItemOf(Rank(g, groups), Rank(i, local), groups, local) == p;
    }
    forall k: nat, q: nat, k': nat, q': nat | Used(k, q, groups, local) && Used(k', q', groups, local) &&
      ItemOf(k, q, groups, local) == ItemOf(k', q', groups, local)
      ensures k == k' && q == q'
    {
      GlobalIdInjective(Points(groups)[k], Points(local)[q], Points(groups)[k'], Points(local)[q'], local);
    }
  }

  // ---------- merged work-items ----------

  /** Sizes are 32-bit on the device's host; products wrap around. */
  function Product(b: Point): nat {
    Volume(b) % WORD_MODULUS
  }

  function CeilDiv(n: nat, d: nat): nat
    requires d > 0
  {
    n / d + if n % d != 0 then 1 else 0
  }

  lemma CeilDivIsLeast(n: nat, d: nat, k: nat)
    requires d > 0
    ensures CeilDiv(n, d) * d >= n
    ensures k * d >= n <==> k >= CeilDiv(n, d)
  {
    var q, r := n / d, n % d;
    assert n == q * d + r;
    MulNext(q, d);
    if k < CeilDiv(n, d) {
      if r == 0 {
        MulGap(k, q, d);
      } else {
        MulMonotone(k, q, d);
      }
    } else {
      MulMonotone(CeilDiv(n, d), k, d);
    }
  }

  /** The number of QPUs used for one work-group. */
  function QpuCount(local: Point, mergeFactor: nat): nat
    requires mergeFactor > 0
  {
    CeilDiv(Product(local), mergeFactor)
  }

  /** QPU number q, whose index is Points(local)[q], works on mergeFactor consecutive items in dimension x. */
  predicate WorksOn(q: nat, item: Point, local: Point, mergeFactor: nat)
    requires q < |Points(local)|
  {
    var index := Points(local)[q];
    && item.y == index.y && item.z == index.z
    && index.x * mergeFactor <= item.x < (index.x + 1) * mergeFactor && item.x < local.x
  }

  /** Every work-item of the group is worked on by some QPU. */
  ghost predicate GroupCovered(local: Point, mergeFactor: nat)
    requires mergeFactor > 0
  {
    forall item :: Inside(item, local) ==>
      exists q: nat :: q < QpuCount(local, mergeFactor) && q < |Points(local)| && WorksOn(q, item, local, mergeFactor)
  }

  lemma QpuCountBound(local: Point, mergeFactor: nat)
    requires mergeFactor > 0
    ensures QpuCount(local, mergeFactor) <= |Points(local)|
  {
    PointsLength(local);
    MulMonotone(1, mergeFactor, Volume(local));
    CeilDivIsLeast(Product(local), mergeFactor, Volume(local));
  }

  /** No work-item is worked on twice. */
  lemma WorkedOnOnce(q: nat, q': nat, item: Point, local: Point, mergeFactor: nat)
    requires q < |Points(local)| && q' < |Points(local)|
    requires WorksOn(q, item, local, mergeFactor) && WorksOn(q', item, local, mergeFactor)
    ensures q == q'
  {
    var i, i' := Points(local)[q], Points(local)[q'];
    MulCancel(i.x, i'.x + 1, mergeFactor);
    MulCancel(i'.x, i.x + 1, mergeFactor);
    PointsCoverBox(local);
  }

  /**
   The QPUs cover the whole group exactly when merging is off and the number of items does not wrap around, or when the
   group has one dimension.
   */
  lemma GroupCoveredExact(local: Point, mergeFactor: nat)
    requires mergeFactor > 0 && local.x > 0 && local.y > 0 && local.z > 0 && local.x < WORD_MODULUS
    ensures GroupCovered(local, mergeFactor) <==>
            (mergeFactor == 1 && Volume(local) < WORD_MODULUS) || (local.y == 1 && local.z == 1)
  {
    if local.y == 1 && local.z == 1 {
      LineCovered(local, mergeFactor);
    } else if mergeFactor == 1 && Volume(local) < WORD_MODULUS {
      UnmergedCovered(local);
    } else {
      LastLineMissed(local, mergeFactor);
    }
  }

  lemma LineCovered(local: Point, m: nat)
    requires m > 0 && local.x < WORD_MODULUS && local.y == 1 && local.z == 1
    ensures GroupCovered(local, m)
  {
    forall item | Inside(item, local)
      ensures exists q: nat :: q < QpuCount(local, m) && q < |Points(local)| && WorksOn(q, item, local, m)
    {
      var q := item.x / m;
      LineQpu(item.x, local.x, m);
      var index := Point(q, 0, 0);
      PointAtRank(index, local);
      assert Rank(index, local) == q && Product(local) == local.x;
      assert WorksOn(q, item, local, m);
    }
  }

  lemma LineQpu(x: nat, width: nat, m: nat)
    requires m > 0 && x < width
    ensures x / m <= x && x / m * m <= x < (x / m + 1) * m && x / m < CeilDiv(width, m)
  {
    var q := x / m;
    assert x == q * m + x % m;
    assert (q + 1) * m == q * m + m;
    MulMonotone(1, m, q);
    CeilDivIsLeast(width, m, q);
  }

  lemma UnmergedCovered(local: Point)
    requires Volume(local) < WORD_MODULUS
    ensures GroupCovered(local, 1)
  {
    forall item | Inside(item, local)
      ensures exists q: nat :: q < QpuCount(local, 1) && q < |Points(local)| && WorksOn(q, item, local, 1)
    {
      PointAtRank(item, local);
      assert WorksOn(Rank(item, local), item, local, 1);
    }
  }

  /** Otherwise the QPUs run out before they come to the last line. */
  lemma LastLineMissed(local: Point, m: nat)
    requires m > 0 && local.x > 0 && local.y > 0 && local.z > 0 && (local.y > 1 || local.z > 1)
    requires m > 1 || Volume(local) >= WORD_MODULUS
    ensures !GroupCovered(local, m)
  {
    var last := Point(if m > 1 then 0 else local.x - 1, local.y - 1, local.z - 1);
    assert Inside(last, local);
    if GroupCovered(local, m) {
      var q: nat :| q < QpuCount(local, m) && q < |Points(local)| && WorksOn(q, last, local, m);
      var index := Points(local)[q];
      assert index == last by {
        if m > 1 { assert index.x * m <= 0; }
      }
      assert Inside(index, local);
      QpuAtRank(q, local);
      if m > 1 {
        LastLineRank(local);
        CeilDivIsLeast(Product(local), m, Rank(last, local));
        MulMonotone(2, m, Rank(last, local));
      } else {
        RankLast(last, local);
      }
    }
  }

  lemma QpuAtRank(q: nat, local: Point)
    requires q < |Points(local)| && Inside(Points(local)[q], local)
    ensures q == Rank(Points(local)[q], local)
  {
    PointAtRank(Points(local)[q], local);
    PointsCoverBox(local);
  }

  /** The last of several lines starts in the second half of the group. */
  lemma LastLineRank(local: Point)
    requires local.x > 0 && local.y > 0 && local.z > 0 && (local.y > 1 || local.z > 1)
    ensures 2 * Rank(Point(0, local.y - 1, local.z - 1), local) >= Volume(local)
  {
    var lines := local.z * local.y;
    assert lines >= 2 by { MulMonotone(1, local.z, local.y); MulMonotone(1, local.y, local.z); }
    assert (local.z - 1) * local.y + local.y - 1 == lines - 1;
    assert lines * local.x == Volume(local);
    MulMonotone(lines, 2 * (lines - 1), local.x);
  }

  // ---------- merged work-items over all work-groups ----------

  /** The local ID QPU number q is given. */
  function FirstItem(q: nat, local: Point, mergeFactor: nat): Point
    requires q < |Points(local)|
  {
    var index := Points(local)[q];
    Point(index.x * mergeFactor, index.y, index.z)
  }

  /** In a line, the QPUs start one merge factor apart. */
  lemma LineFirstItem(q: nat, local: Point, m: nat)
    requires m > 0 && local.x < WORD_MODULUS && local.y == 1 && local.z == 1 && q < QpuCount(local, m)
    ensures q < |Points(local)| && FirstItem(q, local, m) == Point(q * m, 0, 0) && q * m < local.x
  {
    QpuCountBound(local, m);
    PointsCoverBox(local);
    assert Points(local)[q] in Points(local);
    QpuAtRank(q, local);
    assert Product(local) == local.x;
    CeilDivIsLeast(local.x, m, q);
  }

  /** A QPU given this work-group and local ID works on point p of the global range. */
  predicate Reaches(group: Point, first: Point, p: Point, local: Point, mergeFactor: nat) {
    && p.y == group.y * local.y + first.y && p.z == group.z * local.z + first.z
    && group.x * local.x + first.x <= p.x < group.x * local.x + first.x + mergeFactor
    && p.x < group.x * local.x + local.x
  }

  /** The QPU reaches those points of its work-group whose items it works on. */
  lemma ReachesExact(group: Point, q: nat, g: Point, i: Point, local: Point, m: nat)
    requires q < |Points(local)| && Inside(i, local)
    ensures Reaches(group, FirstItem(q, local, m), GlobalId(g, i, local), local, m) <==>
            group == g && WorksOn(q, i, local, m)
  {
    var index := Points(local)[q];
    PointsCoverBox(local);
    assert index in Points(local);
    MulNext(index.x, m);
    if Reaches(group, FirstItem(q, local, m), GlobalId(g, i, local), local, m) {
      DigitsUnique(group.y, g.y, index.y, i.y, local.y);
      DigitsUnique(group.z, g.z, index.z, i.z, local.z);
      DigitsUnique(group.x, g.x, g.x * local.x + i.x - group.x * local.x, i.x, local.x);
    }
  }

  predicate Launched(k: nat, q: nat, groups: Point, local: Point, m: nat)
    requires m > 0
  {
    Used(k, q, groups, local) && q < QpuCount(local, m)
  }

  /** Launch number k works on p with its QPU number q. */
  predicate Hits(k: nat, q: nat, p: Point, groups: Point, local: Point, m: nat)
    requires m > 0
  {
    Launched(k, q, groups, local, m) && Reaches(Points(groups)[k], FirstItem(q, local, m), p, local, m)
  }

  /** Every point of the global range is worked on. */
  ghost predicate RangeCovered(groups: Point, local: Point, m: nat)
    requires m > 0
  {
    forall p | Inside(p, Scaled(groups, local)) :: exists k: nat, q: nat :: Hits(k, q, p, groups, local, m)
  }

  lemma PointHit(k: nat, q: nat, g: Point, i: Point, groups: Point, local: Point, m: nat)
    requires m > 0 && Inside(i, local)
    ensures Hits(k, q, GlobalId(g, i, local), groups, local, m) <==>
            Launched(k, q, groups, local, m) && Points(groups)[k] == g && WorksOn(q, i, local, m)
  {
    if Launched(k, q, groups, local, m) {
      ReachesExact(Points(groups)[k], q, g, i, local, m);
    }
  }

  /** All launches together cover the range exactly when the QPUs of one launch cover their work-group. */
  lemma RangeCoveredExact(groups: Point, local: Point, m: nat)
    requires m > 0 && groups.x > 0 && groups.y > 0 && groups.z > 0
    ensures RangeCovered(groups, local, m) <==> GroupCovered(local, m)
  {
    if RangeCovered(groups, local, m) {
      forall i | Inside(i, local)
        ensures exists q: nat :: q < QpuCount(local, m) && q < |Points(local)| && WorksOn(q, i, local, m)
      {
        GlobalIdInside(FIRST_GROUP, i, groups, local);
        var k: nat, q: nat :| Hits(k, q, GlobalId(FIRST_GROUP, i, local), groups, local, m);
        PointHit(k, q, FIRST_GROUP, i, groups, local, m);
      }
    }
    if GroupCovered(local, m) {
      forall p | Inside(p, Scaled(groups, local))
        ensures exists k: nat, q: nat :: Hits(k, q, p, groups, local, m)
      {
        var g, i := GlobalIdSurjective(p, groups, local);
        var q: nat :| q < QpuCount(local, m) && q < |Points(local)| && WorksOn(q, i, local, m);
        PointAtRank(g, groups);
        PointHit(Rank(g, groups), q, g, i, groups, local, m);
        assert Hits(Rank(g, groups), q, p, groups, local, m);
      }
    }
  }

  /** No point is worked on twice, and none outside the range. */
  lemma RangeHitOnce(k: nat, q: nat, k': nat, q': nat, p: Point, groups: Point, local: Point, m: nat)
    requires m > 0 && Hits(k, q, p, groups, local, m) && Hits(k', q', p, groups, local, m)
    ensures Inside(p, Scaled(groups, local)) && k == k' && q == q'
  {
    var i := HitInside(k, q, p, groups, local, m);
    PointHit(k, q, Points(groups)[k], i, groups, local, m);
    PointHit(k', q', Points(groups)[k], i, groups, local, m);
    WorkedOnOnce(q, q', i, local, m);
    PointsCoverBox(groups);
  }

  lemma HitInside(k: nat, q: nat, p: Point, groups: Point, local: Point, m: nat) returns (i: Point)
    requires m > 0 && Hits(k, q, p, groups, local, m)
    ensures Inside(i, local) && p == GlobalId(Points(groups)[k], i, local) && Inside(p, Scaled(groups, local))
  {
    var g, index := Points(groups)[k], Points(local)[q];
    PointsCoverBox(groups);
    PointsCoverBox(local);
    assert g in Points(groups) && index in Points(local);
    i := Point(p.x - g.x * local.x, index.y, index.z);
    GlobalIdInside(g, i, groups, local);
  }
}
