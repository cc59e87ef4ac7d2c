/**
 Rectangular buffer copies (src/Buffer.cpp): the overlap test of OpenCL 1.2, Appendix E, the checks made before a copy
 is queued, and the row-by-row actions.
 */
module RectCopies {
  import opened Arithmetic
  import opened Boxes
  import opened Rasters
  import opened Transfers
  import opened Wrappers

  /** Byte offset of an origin, OpenCL 1.2 page 82. */
  function CalculateOffset(origin: Point, rowPitch: nat, slicePitch: nat): nat {
    origin.z * slicePitch + origin.y * rowPitch + origin.x
  }

  /** Offset of byte p of a rectangle. */
  function ByteOffset(origin: Point, p: Point, rowPitch: nat, slicePitch: nat): nat {
    CalculateOffset(Point(origin.x + p.x, origin.y + p.y, origin.z + p.z), rowPitch, slicePitch)
  }

  /** The rectangles at src and dst have a byte in common. */
  ghost predicate ShareByte(src: Point, dst: Point, region: Point, rowPitch: nat, slicePitch: nat) {
    exists p, q :: Inside(p, region) && Inside(q, region) &&
      ByteOffset(src, p, rowPitch, slicePitch) == ByteOffset(dst, q, rowPitch, slicePitch)
  }

  /** Pitches the copy accepts for a region, once zero pitches have been replaced by their defaults. */
  predicate ValidPitches(region: Point, rowPitch: nat, slicePitch: nat) {
    && region.x > 0 && region.y > 0 && region.z > 0
    && rowPitch >= region.x && slicePitch >= region.y * rowPitch && slicePitch % rowPitch == 0
  }

  /** The intervals of the given length starting at a and b meet. */
  predicate Meet(a: int, b: int, length: int) {
    a < b + length && b < a + length
  }

  predicate BoxesMeet(src: Point, dst: Point, region: Point) {
    Meet(src.x, dst.x, region.x) && Meet(src.y, dst.y, region.y) && Meet(src.z, dst.z, region.z)
  }

  /** One interval runs over the end of its line and reaches the start of the other one. */
  predicate Wraps(a: nat, b: nat, length: nat, pitch: nat) {
    || (a + length > pitch && a + length - pitch > b)
    || (b + length > pitch && b + length - pitch > a)
  }

  predicate RangesMeet(src: Point, dst: Point, region: Point, rowPitch: nat, slicePitch: nat) {
    var srcStart, dstStart := CalculateOffset(src, rowPitch, slicePitch), CalculateOffset(dst, rowPitch, slicePitch);
    Meet(srcStart, dstStart, CalculateOffset(region, rowPitch, slicePitch))
  }

  /** The verdict of check_copy_overlap. */
  predicate OverlapTest(src: Point, dst: Point, region: Point, rowPitch: nat, slicePitch: nat)
    requires rowPitch > 0
  {
    || BoxesMeet(src, dst, region)
    || (&& RangesMeet(src, dst, region, rowPitch, slicePitch)
        && (|| Wraps(src.x, dst.x, region.x, rowPitch)
            || (region.z > 1 && Wraps(src.y, dst.y, region.y, slicePitch / rowPitch))))
  }

  function Coordinate(p: Point, i: nat): nat
    requires i < 3
  {
    if i == 0 then p.x else if i == 1 then p.y else p.z
  }

  method CheckCopyOverlap(src: Point, dst: Point, region: Point, rowPitch: nat, slicePitch: nat)
    returns (overlap: bool)
    requires rowPitch > 0 && CalculateOffset(region, rowPitch, slicePitch) > 0
    ensures overlap == OverlapTest(src, dst, region, rowPitch, slicePitch)
    ensures var srcStart := src.z * slicePitch + src.y * rowPitch + src.x;
      var dstStart := dst.z * slicePitch + dst.y * rowPitch + dst.x;
      var extent, height := region.z * slicePitch + region.y * rowPitch + region.x, slicePitch / rowPitch;
      overlap <==>
      || (&& src.x < dst.x + region.x && dst.x < src.x + region.x && src.y < dst.y + region.y
          && dst.y < src.y + region.y && src.z < dst.z + region.z && dst.z < src.z + region.z)
      || (&& srcStart < dstStart + extent && dstStart < srcStart + extent
          && (|| rowPitch + dst.x < src.x + region.x || rowPitch + src.x < dst.x + region.x
              || (region.z > 1 && height + dst.y < src.y + region.y)
              || (region.z > 1 && height + src.y < dst.y + region.y)))
  {
    overlap := true;
    for i := 0 to 3
      invariant overlap == forall j :: 0 <= j < i ==>
                             Meet(Coordinate(src, j), Coordinate(dst, j), Coordinate(region, j))
    {
      overlap := overlap && Coordinate(src, i) < Coordinate(dst, i) + Coordinate(region, i)
                 && Coordinate(src, i) + Coordinate(region, i) > Coordinate(dst, i);
    }
    assert overlap == BoxesMeet(src, dst, region) by {
      assert Coordinate(src, 0) == src.x && Coordinate(src, 1) == src.y && Coordinate(src, 2) == src.z;
    }
    var dstStart := CalculateOffset(dst, rowPitch, slicePitch);
    var dstEnd := dstStart + CalculateOffset(region, rowPitch, slicePitch);
    var srcStart := CalculateOffset(src, rowPitch, slicePitch);
    var srcEnd := srcStart + CalculateOffset(region, rowPitch, slicePitch);
    var ranges := (srcStart <= dstStart && dstStart < srcEnd) || (dstStart <= srcStart && srcStart < dstEnd);
    if !overlap {
      var deltaSrcX := if src.x + region.x > rowPitch then src.x + region.x - rowPitch else 0;
      var deltaDstX := if dst.x + region.x > rowPitch then dst.x + region.x - rowPitch else 0;
      if (deltaSrcX > 0 && deltaSrcX > dst.x) || (deltaDstX > 0 && deltaDstX > src.x) {
        if ranges {
          overlap := true;
        }
      }
      if region.z > 1 {
        var height := slicePitch / rowPitch;
        var deltaSrcY := if src.y + region.y > height then src.y + region.y - height else 0;
        var deltaDstY := if dst.y + region.y > height then dst.y + region.y - height else 0;
        if (deltaSrcY > 0 && deltaSrcY > dst.y) || (deltaDstY > 0 && deltaDstY > src.y) {
          if ranges {
            overlap := true;
          }
        }
      }
    }
  }

  // ---------- what the test guarantees ----------

  /** Row number of p when the slices are laid end to end. */
  function Row(p: Point, height: nat): nat {
    p.z * height + p.y
  }

  lemma OffsetByRow(p: Point, rowPitch: nat, height: nat)
    ensures CalculateOffset(p, rowPitch, height * rowPitch) == Row(p, height) * rowPitch + p.x
  {
  }

  /** Two bytes at the same offset are in the same column and row, unless a rectangle runs over the row pitch. */
  lemma SharedByteRow(src: Point, dst: Point, region: Point, rowPitch: nat, height: nat, p: Point, q: Point)
    requires Inside(p, region) && Inside(q, region) && !Wraps(src.x, dst.x, region.x, rowPitch)
    requires ByteOffset(src, p, rowPitch, height * rowPitch) == ByteOffset(dst, q, rowPitch, height * rowPitch)
    ensures src.x + p.x == dst.x + q.x
    ensures Row(src, height) + p.z * height + p.y == Row(dst, height) + q.z * height + q.y
  {
    var a, b := Point(src.x + p.x, src.y + p.y, src.z + p.z), Point(dst.x + q.x, dst.y + q.y, dst.z + q.z);
    OffsetByRow(a, rowPitch, height);
    OffsetByRow(b, rowPitch, height);
    DigitsUnique(Row(a, height), Row(b, height), a.x, b.x, rowPitch);
  }

  lemma SharedByteSlice(src: Point, dst: Point, region: Point, height: nat, p: Point, q: Point)
    requires Inside(p, region) && Inside(q, region) && !Wraps(src.y, dst.y, region.y, height)
    requires Row(src, height) + p.z * height + p.y == Row(dst, height) + q.z * height + q.y
    ensures src.y + p.y == dst.y + q.y && src.z + p.z == dst.z + q.z
  {
    assert Row(src, height) + p.z * height + p.y == (src.z + p.z) * height + (src.y + p.y);
    assert Row(dst, height) + q.z * height + q.y == (dst.z + q.z) * height + (dst.y + q.y);
    DigitsUnique(src.z + p.z, dst.z + q.z, src.y + p.y, dst.y + q.y, height);
  }

  /** Rectangles with a common byte always have meeting address ranges. */
  lemma SharedByteRanges(src: Point, dst: Point, region: Point, rowPitch: nat, slicePitch: nat)
    requires ShareByte(src, dst, region, rowPitch, slicePitch)
    ensures RangesMeet(src, dst, region, rowPitch, slicePitch)
  {
    var p, q :| Inside(p, region) && Inside(q, region) &&
      ByteOffset(src, p, rowPitch, slicePitch) == ByteOffset(dst, q, rowPitch, slicePitch);
    OffsetInside(src, p, region, rowPitch, slicePitch);
    OffsetInside(dst, q, region, rowPitch, slicePitch);
  }

  lemma OffsetInside(origin: Point, p: Point, region: Point, rowPitch: nat, slicePitch: nat)
    requires Inside(p, region)
    ensures 0 <= ByteOffset(origin, p, rowPitch, slicePitch) - CalculateOffset(origin, rowPitch, slicePitch)
            < CalculateOffset(region, rowPitch, slicePitch)
  {
    MulMonotone(p.z, region.z, slicePitch);
    MulMonotone(p.y, region.y, rowPitch);
    assert (origin.z + p.z) * slicePitch == origin.z * slicePitch + p.z * slicePitch;
    assert (origin.y + p.y) * rowPitch == origin.y * rowPitch + p.y * rowPitch;
  }

  /**
   The case the test does not look at: both rectangles are one slice deep, start in different slices, and their rows
   meet because one of them runs over the end of its slice.
   */
  predicate FlatOverrun(src: Point, dst: Point, region: Point, rowPitch: nat, slicePitch: nat)
    requires rowPitch > 0
  {
    var height := slicePitch / rowPitch;
    && region.z == 1 && src.z != dst.z
    && Meet(src.x, dst.x, region.x) && Meet(Row(src, height), Row(dst, height), region.y)
  }

  /** A copy the test lets through shares a byte exactly in the flat overrun case. */
  lemma OverlapTestExact(src: Point, dst: Point, region: Point, rowPitch: nat, slicePitch: nat)
    requires ValidPitches(region, rowPitch, slicePitch)
    requires !OverlapTest(src, dst, region, rowPitch, slicePitch)
    ensures ShareByte(src, dst, region, rowPitch, slicePitch) <==> FlatOverrun(src, dst, region, rowPitch, slicePitch)
  {
    var height := slicePitch / rowPitch;
    assert slicePitch == height * rowPitch;
    if ShareByte(src, dst, region, rowPitch, slicePitch) {
      SharedByteRanges(src, dst, region, rowPitch, slicePitch);
      var p, q :| Inside(p, region) && Inside(q, region) &&
        ByteOffset(src, p, rowPitch, slicePitch) == ByteOffset(dst, q, rowPitch, slicePitch);
      SharedByteRow(src, dst, region, rowPitch, height, p, q);
      if region.z > 1 {
        SharedByteSlice(src, dst, region, height, p, q);
        assert false;
      }
      assert p.z == q.z == 0;
    }
    if FlatOverrun(src, dst, region, rowPitch, slicePitch) {
      FlatOverrunShares(src, dst, region, rowPitch, slicePitch);
    }
  }

  lemma FlatOverrunShares(src: Point, dst: Point, region: Point, rowPitch: nat, slicePitch: nat)
    requires ValidPitches(region, rowPitch, slicePitch) && FlatOverrun(src, dst, region, rowPitch, slicePitch)
    ensures ShareByte(src, dst, region, rowPitch, slicePitch)
  {
    var height := slicePitch / rowPitch;
    var r, r' := Row(src, height), Row(dst, height);
    var p := Point(if src.x < dst.x then dst.x - src.x else 0, if r < r' then r' - r else 0, 0);
    var q := Point(if dst.x < src.x then src.x - dst.x else 0, if r' < r then r - r' else 0, 0);
    assert Inside(p, region) && Inside(q, region);
    FlatOffset(src, p, rowPitch, slicePitch);
    FlatOffset(dst, q, rowPitch, slicePitch);
    hide ByteOffset, Row;
    assert ByteOffset(src, p, rowPitch, slicePitch) == ByteOffset(dst, q, rowPitch, slicePitch);
  }

  lemma FlatOffset(origin: Point, p: Point, rowPitch: nat, slicePitch: nat)
    requires rowPitch > 0 && slicePitch % rowPitch == 0 && p.z == 0
    ensures ByteOffset(origin, p, rowPitch, slicePitch)
            == (Row(origin, slicePitch / rowPitch) + p.y) * rowPitch + (origin.x + p.x)
  {
    var height := slicePitch / rowPitch;
    assert slicePitch == height * rowPitch;
    OffsetByRow(Point(origin.x + p.x, origin.y + p.y, origin.z), rowPitch, height);
  }

  /** For rectangles inside their rows and slices the test is exact. */
  lemma OverlapTestExactUnwrapped(src: Point, dst: Point, region: Point, rowPitch: nat, slicePitch: nat)
    requires ValidPitches(region, rowPitch, slicePitch)
    requires src.x + region.x <= rowPitch && dst.x + region.x <= rowPitch
    requires src.y + region.y <= slicePitch / rowPitch && dst.y + region.y <= slicePitch / rowPitch
    ensures OverlapTest(src, dst, region, rowPitch, slicePitch) <==> ShareByte(src, dst, region, rowPitch, slicePitch)
  {
    var height := slicePitch / rowPitch;
    if BoxesMeet(src, dst, region) {
      var p := Point(if src.x < dst.x then dst.x - src.x else 0, if src.y < dst.y then dst.y - src.y else 0,
                     if src.z < dst.z then dst.z - src.z else 0);
      var q := Point(p.x + src.x - dst.x, p.y + src.y - dst.y, p.z + src.z - dst.z);
      assert Inside(p, region) && Inside(q, region);
    } else {
      OverlapTestExact(src, dst, region, rowPitch, slicePitch);
      if Meet(Row(src, height), Row(dst, height), region.y) {
        FlatRowsApart(src, dst, region, height);
      }
    }
  }

  lemma FlatRowsApart(src: Point, dst: Point, region: Point, height: nat)
    requires src.y + region.y <= height && dst.y + region.y <= height
    requires Meet(Row(src, height), Row(dst, height), region.y)
    ensures src.z == dst.z
  {
    if src.z < dst.z {
      MulGap(src.z, dst.z, height);
    } else if dst.z < src.z {
      MulGap(dst.z, src.z, height);
    }
  }

  // ---------- the checks before a copy is queued ----------

  datatype CopyRequest = CopyRequest(src: Point, dst: Point, region: Point,
                                     srcRow: nat, srcSlice: nat, dstRow: nat, dstSlice: nat)
  {
    /** Zero pitches stand for tightly packed rows and slices. */
    function WithDefaults(): CopyRequest {
      var srcRow' := if srcRow == 0 then region.x else srcRow;
      var dstRow' := if dstRow == 0 then region.x else dstRow;
      CopyRequest(src, dst, region,
                  srcRow', if srcSlice == 0 then region.y * srcRow' else srcSlice,
                  dstRow', if dstSlice == 0 then region.y * dstRow' else dstSlice)
    }
  }

  /** The verdict of enqueueCopyIntoRect: the request with its final pitches, or an error code. */
  function ValidateCopy(r: CopyRequest, srcSize: nat, dstSize: nat, sameBuffer: bool): (c: Result<CopyRequest>)
    ensures c.Success? ==> c.value == r.WithDefaults() && ValidPitches(r.region, c.value.srcRow, c.value.srcSlice)
                           && ValidPitches(r.region, c.value.dstRow, c.value.dstSlice)
  {
    var size, d := Volume(r.region), r.WithDefaults();
    if size == 0 || CalculateOffset(r.src, r.srcRow, r.srcSlice) + size > srcSize
       || CalculateOffset(r.dst, r.dstRow, r.dstSlice) + size > dstSize then Failure(CL_INVALID_VALUE)
    else if !ValidPitches(r.region, d.srcRow, d.srcSlice) then Failure(CL_INVALID_VALUE)
    else if !ValidPitches(r.region, d.dstRow, d.dstSlice) then Failure(CL_INVALID_VALUE)
    else if sameBuffer && (d.srcSlice != d.dstSlice || d.srcRow != d.dstRow) then Failure(CL_INVALID_VALUE)
    else if sameBuffer && OverlapTest(d.src, d.dst, d.region, d.srcRow, d.srcSlice) then Failure(CL_MEM_COPY_OVERLAP)
    else Success(d)
  }

  lemma PitchesPositive(region: Point, rowPitch: nat, slicePitch: nat)
    requires ValidPitches(region, rowPitch, slicePitch)
    ensures rowPitch > 0 && CalculateOffset(region, rowPitch, slicePitch) > 0
  {
  }

  /** The verdict with its error codes and pitches written out. */
  lemma ValidateCopyExact(r: CopyRequest, srcSize: nat, dstSize: nat, sameBuffer: bool)
    ensures var c := ValidateCopy(r, srcSize, dstSize, sameBuffer);
      var srcRow := if r.srcRow != 0 then r.srcRow else r.region.x;
      var srcSlice := if r.srcSlice != 0 then r.srcSlice else r.region.y * srcRow;
      var dstRow := if r.dstRow != 0 then r.dstRow else r.region.x;
      var dstSlice := if r.dstSlice != 0 then r.dstSlice else r.region.y * dstRow;
      var size := r.region.x * r.region.y * r.region.z;
      var valid := && size > 0
                   && r.src.z * r.srcSlice + r.src.y * r.srcRow + r.src.x + size <= srcSize
                   && r.dst.z * r.dstSlice + r.dst.y * r.dstRow + r.dst.x + size <= dstSize
                   && srcRow >= r.region.x && srcSlice >= r.region.y * srcRow && dstRow >= r.region.x
                   && dstSlice >= r.region.y * dstRow && r.region.x > 0
                   && srcSlice % srcRow == 0 && dstSlice % dstRow == 0
                   && (sameBuffer ==> srcRow == dstRow && srcSlice == dstSlice);
      c == if !valid then Failure(CL_INVALID_VALUE)
           else if sameBuffer && OverlapTest(r.src, r.dst, r.region, srcRow, srcSlice) then Failure(CL_MEM_COPY_OVERLAP)
           else Success(CopyRequest(r.src, r.dst, r.region, srcRow, srcSlice, dstRow, dstSlice))
  {
    hide OverlapTest;
    PositiveVolume(r.region);
  }

  lemma PositiveVolume(region: Point)
    ensures Volume(region) > 0 <==> region.x > 0 && region.y > 0 && region.z > 0
  {
    if region.x > 0 && region.y > 0 && region.z > 0 {
      MulMonotone(1, region.x, region.y);
      MulMonotone(1, region.x * region.y, region.z);
    }
  }

  /** The checks of enqueueCopyIntoRect in their order; pitches that are given are kept, others get their defaults. */
  method EnqueueCopyRect(r: CopyRequest, srcSize: nat, dstSize: nat, sameBuffer: bool)
    returns (c: Result<CopyRequest>)
    ensures c == ValidateCopy(r, srcSize, dstSize, sameBuffer)
    ensures c.Success? ==>
      && c.value.src == r.src && c.value.dst == r.dst && c.value.region == r.region
      && c.value.srcRow == (if r.srcRow == 0 then r.region.x else r.srcRow)
      && c.value.srcSlice == (if r.srcSlice == 0 then r.region.y * c.value.srcRow else r.srcSlice)
      && c.value.dstRow == (if r.dstRow == 0 then r.region.x else r.dstRow)
      && c.value.dstSlice == (if r.dstSlice == 0 then r.region.y * c.value.dstRow else r.dstSlice)
  {
    var srcOffset := CalculateOffset(r.src, r.srcRow, r.srcSlice);
    var size := Volume(r.region);
    var dstOffset := CalculateOffset(r.dst, r.dstRow, r.dstSlice);
    if size == 0 || srcOffset + size > srcSize || dstOffset + size > dstSize {
      return Failure(CL_INVALID_VALUE);
    }
    var region, d := r.region, r.WithDefaults();
    if !ValidPitches(region, d.srcRow, d.srcSlice) || !ValidPitches(region, d.dstRow, d.dstSlice) {
      return Failure(CL_INVALID_VALUE);
    }
    if sameBuffer && d.srcSlice != d.dstSlice {
      return Failure(CL_INVALID_VALUE);
    }
    if sameBuffer && d.srcRow != d.dstRow {
      return Failure(CL_INVALID_VALUE);
    }
    if sameBuffer {
      PitchesPositive(region, d.srcRow, d.srcSlice);
      var overlap := CheckCopyOverlap(d.src, d.dst, region, d.srcRow, d.srcSlice);
      if overlap {
        return Failure(CL_MEM_COPY_OVERLAP);
      }
    }
    return Success(d);
  }

  // ---------- the row-by-row actions ----------

  predicate NotEmpty(region: Point) {
    region.x > 0 && region.y > 0 && region.z > 0
  }

  /** A rectangle in a memory; `base` is where the buffer object starts. */
  datatype Rect = Rect(base: nat, origin: Point, rowPitch: nat, slicePitch: nat)
  {
    function At(p: Point): nat {
      base + ByteOffset(origin, p, rowPitch, slicePitch)
    }

    /** Where the loops find a row: its start is counted on from the start of the rectangle. */
    function RowStart(p: Point): nat {
      base + CalculateOffset(origin, rowPitch, slicePitch) + rowPitch * p.y + slicePitch * p.z
    }

    ghost predicate Within(region: Point, length: nat) {
      forall p :: Inside(p, region) ==> At(p) < length
    }

    /** Rows share no byte. */
    predicate RowsApart(region: Point) {
      LinesApart(region, 1, rowPitch, slicePitch)
    }

    /** The rectangle OpenCL means: a pitch of 0 stands for tightly packed rows or slices. */
    function WithDefaults(region: Point): Rect {
      var row := if rowPitch == 0 then region.x else rowPitch;
      Rect(base, origin, row, if slicePitch == 0 then region.y * row else slicePitch)
    }
  }

  lemma AtAddress(r: Rect, p: Point)
    ensures r.At(p) == r.RowStart(ORIGIN) + RasterAddress(p, 1, r.rowPitch, r.slicePitch)
  {
  }

  /** Where a byte of a rectangle is, from coordinates alone. */
  lemma AtExact(r: Rect, p: Point)
    ensures r.At(p) == r.base + (r.origin.x + p.x) + (r.origin.y + p.y) * r.rowPitch
                       + (r.origin.z + p.z) * r.slicePitch
  {
  }

  /** All bytes are in the memory exactly when the last one is. */
  lemma WithinExact(r: Rect, region: Point, length: nat)
    requires NotEmpty(region)
    ensures r.Within(region, length) <==> r.At(Point(region.x - 1, region.y - 1, region.z - 1)) < length
  {
    var last := Point(region.x - 1, region.y - 1, region.z - 1);
    assert Inside(last, region);
    AtAddress(r, last);
    forall p | Inside(p, region) ensures r.At(p) <= r.At(last) {
      AtAddress(r, p);
      MulMonotone(p.y, last.y, r.rowPitch);
      MulMonotone(p.z, last.z, r.slicePitch);
    }
  }

  lemma ValidRowsApart(region: Point, rowPitch: nat, slicePitch: nat)
    requires ValidPitches(region, rowPitch, slicePitch)
    ensures LinesApart(region, 1, rowPitch, slicePitch)
  {
    MulNext(region.y - 1, rowPitch);
    LinesApartExact(region, 1, rowPitch, slicePitch);
  }

  /** Rows share no byte exactly when no two bytes share their place. */
  lemma RowsApartExact(r: Rect, region: Point)
    requires NotEmpty(region)
    ensures (forall p, q | Inside(p, region) && Inside(q, region) && p != q :: r.At(p) != r.At(q))
            <==> r.RowsApart(region)
  {
    RasterSeparatedExact(region, 1, r.rowPitch, r.slicePitch);
    forall p, q
      ensures r.At(p) == r.At(q) <==> !Apart(RasterAddress(p, 1, r.rowPitch, r.slicePitch), 1,
                                             RasterAddress(q, 1, r.rowPitch, r.slicePitch), 1)
    {
      AtAddress(r, p);
      AtAddress(r, q);
    }
  }

  /** The rectangle holds the bytes of the other one, and every other byte is as before. */
  ghost predicate RectCopied(before: seq<byte>, after: seq<byte>, from: seq<byte>, d: Rect, s: Rect, region: Point)
    requires d.Within(region, |before|) && s.Within(region, |from|)
  {
    && |after| == |before|
    && (forall p :: Inside(p, region) ==> after[d.At(p)] == from[s.At(p)])
    && (forall k :: 0 <= k < |after| && (forall p :: Inside(p, region) ==> d.At(p) != k) ==> after[k] == before[k])
  }

  /** One memmove per row. */
  function RowMove(d: Rect, s: Rect, region: Point): Point -> Move {
    (p: Point) => Move(d.RowStart(p), s.RowStart(p), region.x)
  }

  function Rows(region: Point): Point {
    Point(1, region.y, region.z)
  }

  /** The loops over z and y of the rectangle actions; source and destination may be the same memory. */
  method RunRect(dst: array<byte>, d: Rect, src: array<byte>, s: Rect, region: Point)
    requires region.x > 0 && d.Within(region, dst.Length) && s.Within(region, src.Length)
    modifies dst
    ensures AllFit(BoxMoves(Rows(region), RowMove(d, s, region)), dst.Length, src.Length)
    ensures dst[..] == Run(old(dst[..]), if src == dst then Same else Other(old(src[..])),
                           BoxMoves(Rows(region), RowMove(d, s, region)))
  {
    RowsFit(d, s, region, dst.Length, src.Length);
    Execute(Rows(region), RowMove(d, s, region), dst, src);
  }

  /** Byte x of row move (y, z). */
  lemma RowByte(d: Rect, s: Rect, region: Point, p: Point)
    ensures var m := RowMove(d, s, region)(Point(0, p.y, p.z)); d.At(p) == m.d + p.x && s.At(p) == m.s + p.x
  {
  }

  lemma RowsFit(d: Rect, s: Rect, region: Point, dstLength: nat, srcLength: nat)
    requires region.x > 0 && d.Within(region, dstLength) && s.Within(region, srcLength)
    ensures AllFit(BoxMoves(Rows(region), RowMove(d, s, region)), dstLength, srcLength)
  {
    var at := RowMove(d, s, region);
    forall p | Inside(p, Rows(region)) ensures Fits(at(p), dstLength, srcLength) {
      var last := Point(region.x - 1, p.y, p.z);
      RowByte(d, s, region, last);
      assert Inside(last, region);
    }
    BoxFits(Rows(region), at, dstLength, srcLength);
  }

  lemma RowsSeparate(d: Rect, s: Rect, region: Point)
    requires d.RowsApart(region) && region.x > 0
    ensures Separate(BoxMoves(Rows(region), RowMove(d, s, region)))
  {
    var at := RowMove(d, s, region);
    forall p, q | Inside(p, Rows(region)) && Inside(q, Rows(region)) && p != q
      ensures Apart(at(p).d, at(p).n, at(q).d, at(q).n)
    {
      if p.z < q.z || (p.z == q.z && p.y < q.y) {
        LinesFar(region, 1, d.rowPitch, d.slicePitch, p.y, p.z, q.y, q.z);
      } else {
        LinesFar(region, 1, d.rowPitch, d.slicePitch, q.y, q.z, p.y, p.z);
      }
    }
    BoxSeparate(Rows(region), at);
  }

  /** Every byte row move j writes belongs to the rectangle. */
  lemma RowWrites(d: Rect, s: Rect, region: Point, j: nat, k: nat) returns (p: Point)
    requires j < |Points(Rows(region))|
    requires var m := BoxMoves(Rows(region), RowMove(d, s, region))[j]; m.d <= k < m.d + m.n
    ensures Inside(p, region) && d.At(p) == k
    ensures var m := BoxMoves(Rows(region), RowMove(d, s, region))[j]; s.At(p) == m.s + (k - m.d)
  {
    var at, points := RowMove(d, s, region), Points(Rows(region));
    PointsCoverBox(Rows(region));
    assert points[j] in points;
    p := Point(k - at(points[j]).d, points[j].y, points[j].z);
    RowByte(d, s, region, p);
  }

  lemma RowsWrite(d: Rect, s: Rect, region: Point, p: Point)
    requires Inside(p, region)
    ensures Writes(BoxMoves(Rows(region), RowMove(d, s, region)), d.At(p))
  {
    var row := Point(0, p.y, p.z);
    PointAtRank(row, Rows(region));
    RowByte(d, s, region, p);
    assert BoxMoves(Rows(region), RowMove(d, s, region))[Rank(row, Rows(region))] == RowMove(d, s, region)(row);
  }

  // ---------- between two memories ----------

  /** Bytes that share their place in the destination have the same contents in the source. */
  ghost predicate Agree(from: seq<byte>, d: Rect, s: Rect, region: Point)
    requires s.Within(region, |from|)
  {
    forall p, q :: Inside(p, region) && Inside(q, region) && d.At(p) == d.At(q) ==> from[s.At(p)] == from[s.At(q)]
  }

  /** The source repeats itself where the destination does. */
  ghost predicate Follows(d: Rect, s: Rect, region: Point) {
    forall p, q :: Inside(p, region) && Inside(q, region) && d.At(p) == d.At(q) ==> s.At(p) == s.At(q)
  }

  /** The row loops copy a rectangle as if all bytes moved at once exactly when its contents allow that. */
  lemma RectCopyExact(mem: seq<byte>, from: seq<byte>, d: Rect, s: Rect, region: Point)
    requires region.x > 0 && d.Within(region, |mem|) && s.Within(region, |from|)
    ensures AllFit(BoxMoves(Rows(region), RowMove(d, s, region)), |mem|, |from|)
    ensures RectCopied(mem, Run(mem, Other(from), BoxMoves(Rows(region), RowMove(d, s, region))), from, d, s, region)
            <==> Agree(from, d, s, region)
  {
    hide Run;
    var moves := BoxMoves(Rows(region), RowMove(d, s, region));
    RowsFit(d, s, region, |mem|, |from|);
    var after := Run(mem, Other(from), moves);
    forall k: nat | k < |after| && forall p :: Inside(p, region) ==> d.At(p) != k ensures after[k] == mem[k] {
      OtherBytesKept(mem, Other(from), d, s, region, k);
    }
    if Agree(from, d, s, region) {
      forall p | Inside(p, region) ensures after[d.At(p)] == from[s.At(p)] {
        RowsWrite(d, s, region, p);
        var j := LastWriter(mem, from, moves, d.At(p));
        var q := RowWrites(d, s, region, j, d.At(p));
      }
    }
  }

  lemma OtherBytesKept(mem: seq<byte>, from: Source, d: Rect, s: Rect, region: Point, k: nat)
    requires AllFit(BoxMoves(Rows(region), RowMove(d, s, region)), |mem|, |from.Bytes(mem)|) && k < |mem|
    requires forall p :: Inside(p, region) ==> d.At(p) != k
    ensures Run(mem, from, BoxMoves(Rows(region), RowMove(d, s, region)))[k] == mem[k]
  {
    var moves := BoxMoves(Rows(region), RowMove(d, s, region));
    if Writes(moves, k) {
      var j: nat :| j < |moves| && moves[j].d <= k < moves[j].d + moves[j].n;
      var p := RowWrites(d, s, region, j, k);
      assert false;
    }
    NeverWritten(mem, from, moves, k);
  }

  lemma FollowsAgrees(from: seq<byte>, d: Rect, s: Rect, region: Point)
    requires s.Within(region, |from|) && Follows(d, s, region)
    ensures Agree(from, d, s, region)
  {
  }

  lemma DisagreeingContents(length: nat, d: Rect, s: Rect, region: Point) returns (from: seq<byte>)
    requires s.Within(region, length) && !Follows(d, s, region)
    ensures |from| == length && !Agree(from, d, s, region)
  {
    var p, q :| Inside(p, region) && Inside(q, region) && d.At(p) == d.At(q) && s.At(p) != s.At(q);
    from := seq(length, k => if k == s.At(p) then 1 as byte else 0);
    assert from[s.At(p)] == 1 && from[s.At(q)] == 0;
  }

  /** All contents arrive if and only if the source repeats itself where the destination does. */
  lemma EveryRectCopied(mem: seq<byte>, length: nat, d: Rect, s: Rect, region: Point)
    requires region.x > 0 && d.Within(region, |mem|) && s.Within(region, length)
    ensures AllFit(BoxMoves(Rows(region), RowMove(d, s, region)), |mem|, length)
    ensures (forall from: seq<byte> | |from| == length ::
               RectCopied(mem, Run(mem, Other(from), BoxMoves(Rows(region), RowMove(d, s, region))), from, d, s,
                          region))
            <==> Follows(d, s, region)
  {
    hide Run, RectCopied, Agree, Follows;
    RowsFit(d, s, region, |mem|, length);
    forall from: seq<byte> | |from| == length
      ensures RectCopied(mem, Run(mem, Other(from), BoxMoves(Rows(region), RowMove(d, s, region))), from, d, s, region)
              <==> Agree(from, d, s, region)
      ensures Follows(d, s, region) ==> Agree(from, d, s, region)
    {
      RectCopyExact(mem, from, d, s, region);
      if Follows(d, s, region) {
        FollowsAgrees(from, d, s, region);
      }
    }
    if !Follows(d, s, region) {
      var from := DisagreeingContents(length, d, s, region);
      assert |from| == length && !Agree(from, d, s, region);
    }
  }

  /** From a rectangle with room for its rows, that is when the destination has room for its rows. */
  lemma FollowsExact(d: Rect, s: Rect, region: Point)
    requires NotEmpty(region) && s.RowsApart(region)
    ensures Follows(d, s, region) <==> d.RowsApart(region)
  {
    hide LinesApart;
    RowsApartExact(s, region);
    RowsApartExact(d, region);
  }

  // ---------- inside one memory ----------

  lemma RectCopiedOnce(before: seq<byte>, a: seq<byte>, b: seq<byte>, from: seq<byte>, d: Rect, s: Rect, region: Point)
    requires d.Within(region, |before|) && s.Within(region, |from|)
    requires RectCopied(before, a, from, d, s, region) && RectCopied(before, b, from, d, s, region)
    ensures a == b
  {
    forall k | 0 <= k < |a| ensures a[k] == b[k] {
      if p :| Inside(p, region) && d.At(p) == k {
        assert a[d.At(p)] == b[d.At(p)];
      }
    }
  }

  /**
   Inside one memory, and with room for the rows of the destination, the loops copy a rectangle as if all bytes moved at
   once, whatever the memory holds, if and only if no row is read after it has been changed.
   */
  lemma OneMemoryExact(length: nat, d: Rect, s: Rect, region: Point)
    requires region.x > 0 && d.Within(region, length) && s.Within(region, length) && d.RowsApart(region)
    ensures AllFit(BoxMoves(Rows(region), RowMove(d, s, region)), length, length)
    ensures (forall mem: seq<byte> | |mem| == length ::
               RectCopied(mem, Run(mem, Same, BoxMoves(Rows(region), RowMove(d, s, region))), mem, d, s, region))
            <==> ReadsIntact(BoxMoves(Rows(region), RowMove(d, s, region)))
  {
    hide Run, RectCopied, ReadsIntact, LinesApart;
    var moves := BoxMoves(Rows(region), RowMove(d, s, region));
    RowsFit(d, s, region, length, length);
    RowsSeparate(d, s, region);
    RunInPlaceExact(length, moves);
    forall mem: seq<byte> | |mem| == length
      ensures RectCopied(mem, Run(mem, Same, moves), mem, d, s, region)
              <==> Run(mem, Same, moves) == Run(mem, Other(mem), moves)
    {
      ApartRectCopied(mem, mem, d, s, region);
      if RectCopied(mem, Run(mem, Same, moves), mem, d, s, region) {
        RectCopiedOnce(mem, Run(mem, Same, moves), Run(mem, Other(mem), moves), mem, d, s, region);
      }
    }
  }

  lemma ApartRectCopied(mem: seq<byte>, from: seq<byte>, d: Rect, s: Rect, region: Point)
    requires region.x > 0 && d.Within(region, |mem|) && s.Within(region, |from|) && d.RowsApart(region)
    ensures AllFit(BoxMoves(Rows(region), RowMove(d, s, region)), |mem|, |from|)
    ensures RectCopied(mem, Run(mem, Other(from), BoxMoves(Rows(region), RowMove(d, s, region))), from, d, s, region)
  {
    hide Run, RectCopied, LinesApart;
    RectCopyExact(mem, from, d, s, region);
    if NotEmpty(region) {
      RowsApartExact(d, region);
    }
    FollowsAgrees(from, d, s, region);
  }

  /**
   The flat overrun case with the destination rows behind the source rows: the first row move then overwrites a source
   row that is still to be read.
   */
  predicate ForwardOverrun(src: Point, dst: Point, region: Point, rowPitch: nat, slicePitch: nat)
    requires rowPitch > 0
  {
    && FlatOverrun(src, dst, region, rowPitch, slicePitch)
    && Row(src, slicePitch / rowPitch) < Row(dst, slicePitch / rowPitch)
  }

  /** Moving the rows of c in ascending order inside one memory. */
  function MoveInPlace(mem: seq<byte>, base: nat, c: CopyRequest): (r: seq<byte>)
    requires AllFit(BoxMoves(Rows(c.region), RowMove(DstRect(c, base), SrcRect(c, base), c.region)), |mem|, |mem|)
    ensures |r| == |mem|
  {
    Run(mem, Same, BoxMoves(Rows(c.region), RowMove(DstRect(c, base), SrcRect(c, base), c.region)))
  }

  function DstRect(c: CopyRequest, base: nat): Rect {
    Rect(base, c.dst, c.dstRow, c.dstSlice)
  }

  function SrcRect(c: CopyRequest, base: nat): Rect {
    Rect(base, c.src, c.srcRow, c.srcSlice)
  }

  /** Where row move p reads and writes, for rectangles one slice deep. */
  lemma FlatRowStart(c: CopyRequest, base: nat, height: nat, p: Point)
    requires c.srcRow == c.dstRow && c.srcSlice == c.dstSlice == height * c.srcRow && p.x == p.z == 0
    ensures var m := RowMove(DstRect(c, base), SrcRect(c, base), c.region)(p);
      && m.s == base + (Row(c.src, height) + p.y) * c.srcRow + c.src.x
      && m.d == base + (Row(c.dst, height) + p.y) * c.srcRow + c.dst.x
  {
    RowByte(DstRect(c, base), SrcRect(c, base), c.region, p);
    FlatByte(SrcRect(c, base), height, p);
    FlatByte(DstRect(c, base), height, p);
  }

  /** In a flat overrun that is not forward, rows are read before they are written. */
  lemma BackwardRowUntouched(c: CopyRequest, base: nat, p: Point, q: Point)
    requires c.srcRow == c.dstRow && c.srcSlice == c.dstSlice && ValidPitches(c.region, c.srcRow, c.srcSlice)
    requires !Wraps(c.src.x, c.dst.x, c.region.x, c.srcRow) && c.region.z == 1
    requires Row(c.dst, c.srcSlice / c.srcRow) <= Row(c.src, c.srcSlice / c.srcRow)
    requires Inside(p, Rows(c.region)) && Inside(q, Rows(c.region)) && Earlier(q, p)
    ensures var at := RowMove(DstRect(c, base), SrcRect(c, base), c.region);
      Apart(at(p).s, at(p).n, at(q).d, at(q).n)
  {
    var height := c.srcSlice / c.srcRow;
    FlatRowStart(c, base, height, p);
    FlatRowStart(c, base, height, q);
    var r, r' := Row(c.src, height) + p.y, Row(c.dst, height) + q.y;
    MulGap(r', r, c.srcRow);
  }

  lemma UnsharedRowUntouched(c: CopyRequest, base: nat, p: Point, q: Point)
    requires c.srcRow == c.dstRow && c.srcSlice == c.dstSlice
    requires !ShareByte(c.src, c.dst, c.region, c.srcRow, c.srcSlice)
    requires Inside(p, Rows(c.region)) && Inside(q, Rows(c.region))
    ensures var at := RowMove(DstRect(c, base), SrcRect(c, base), c.region);
      Apart(at(p).s, at(p).n, at(q).d, at(q).n)
  {
    var d, s := DstRect(c, base), SrcRect(c, base);
    var at := RowMove(d, s, c.region);
    var a, b := at(p).s, at(q).d;
    if !Apart(a, c.region.x, b, c.region.x) {
      var p' := Point(if a < b then b - a else 0, p.y, p.z);
      var q' := Point(if b < a then a - b else 0, q.y, q.z);
      RowByte(d, s, c.region, p');
      RowByte(d, s, c.region, q');
      assert Inside(p', c.region) && Inside(q', c.region);
      assert false;
    }
  }

  /** A row is not touched before it is read. */
  lemma LaterRowUntouched(c: CopyRequest, base: nat, p: Point, q: Point)
    requires c.srcRow == c.dstRow && c.srcSlice == c.dstSlice && ValidPitches(c.region, c.srcRow, c.srcSlice)
    requires !OverlapTest(c.src, c.dst, c.region, c.srcRow, c.srcSlice)
    requires !ForwardOverrun(c.src, c.dst, c.region, c.srcRow, c.srcSlice)
    requires Inside(p, Rows(c.region)) && Inside(q, Rows(c.region)) && Earlier(q, p)
    ensures var at := RowMove(DstRect(c, base), SrcRect(c, base), c.region);
      Apart(at(p).s, at(p).n, at(q).d, at(q).n)
  {
    OverlapTestExact(c.src, c.dst, c.region, c.srcRow, c.srcSlice);
    if FlatOverrun(c.src, c.dst, c.region, c.srcRow, c.srcSlice) {
      SharedByteRanges(c.src, c.dst, c.region, c.srcRow, c.srcSlice);
      BackwardRowUntouched(c, base, p, q);
    } else {
      UnsharedRowUntouched(c, base, p, q);
    }
  }

  /** Of the requests the checks let through inside one buffer, exactly the forward overruns read changed rows. */
  lemma RowsIntactExact(c: CopyRequest, base: nat)
    requires c.srcRow == c.dstRow && c.srcSlice == c.dstSlice && ValidPitches(c.region, c.srcRow, c.srcSlice)
    requires !OverlapTest(c.src, c.dst, c.region, c.srcRow, c.srcSlice)
    ensures ReadsIntact(BoxMoves(Rows(c.region), RowMove(DstRect(c, base), SrcRect(c, base), c.region)))
            <==> !ForwardOverrun(c.src, c.dst, c.region, c.srcRow, c.srcSlice)
  {
    var d, s := DstRect(c, base), SrcRect(c, base);
    var at, box := RowMove(d, s, c.region), Rows(c.region);
    BoxReadsIntact(box, at);
    if ForwardOverrun(c.src, c.dst, c.region, c.srcRow, c.srcSlice) {
      var t, i, j := FirstRowFeedsLater(c, base);
      var p, q := Point(0, t, 0), Point(0, 0, 0);
      RowByte(d, s, c.region, Point(j, t, 0));
      RowByte(d, s, c.region, Point(i, 0, 0));
      assert Inside(p, box) && Inside(q, box) && Earlier(q, p) && !LeavesIntact(at(q), at(p));
    } else {
      forall p, q | Inside(p, box) && Inside(q, box) && Earlier(q, p) ensures LeavesIntact(at(q), at(p)) {
        LaterRowUntouched(c, base, p, q);
      }
    }
  }

  /** The row moves do on this memory what a simultaneous copy does. */
  ghost predicate Simultaneous(mem: seq<byte>, base: nat, c: CopyRequest)
    requires DstRect(c, base).Within(c.region, |mem|) && SrcRect(c, base).Within(c.region, |mem|) && c.region.x > 0
  {
    RowsFit(DstRect(c, base), SrcRect(c, base), c.region, |mem|, |mem|);
    RectCopied(mem, MoveInPlace(mem, base, c), mem, DstRect(c, base), SrcRect(c, base), c.region)
  }

  /** An accepted copy inside one buffer is simultaneous on every memory exactly when it is no forward overrun. */
  lemma InPlaceCopyExact(length: nat, base: nat, c: CopyRequest)
    requires c.srcRow == c.dstRow && c.srcSlice == c.dstSlice && ValidPitches(c.region, c.srcRow, c.srcSlice)
    requires DstRect(c, base).Within(c.region, length) && SrcRect(c, base).Within(c.region, length)
    requires !OverlapTest(c.src, c.dst, c.region, c.srcRow, c.srcSlice)
    ensures (forall mem: seq<byte> | |mem| == length :: Simultaneous(mem, base, c))
            <==> !ForwardOverrun(c.src, c.dst, c.region, c.srcRow, c.srcSlice)
  {
    hide ForwardOverrun, OverlapTest, ReadsIntact, RectCopied, Run;
    var d, s := DstRect(c, base), SrcRect(c, base);
    ValidRowsApart(c.region, c.srcRow, c.srcSlice);
    OneMemoryExact(length, d, s, c.region);
    RowsIntactExact(c, base);
  }

  /** So in a forward overrun some memory is copied wrongly, and otherwise none. */
  lemma InPlaceCopyIsSimultaneous(mem: seq<byte>, base: nat, c: CopyRequest)
    requires c.srcRow == c.dstRow && c.srcSlice == c.dstSlice && ValidPitches(c.region, c.srcRow, c.srcSlice)
    requires DstRect(c, base).Within(c.region, |mem|) && SrcRect(c, base).Within(c.region, |mem|)
    requires !OverlapTest(c.src, c.dst, c.region, c.srcRow, c.srcSlice)
    requires !ForwardOverrun(c.src, c.dst, c.region, c.srcRow, c.srcSlice)
    ensures AllFit(BoxMoves(Rows(c.region), RowMove(DstRect(c, base), SrcRect(c, base), c.region)), |mem|, |mem|)
    ensures RectCopied(mem, MoveInPlace(mem, base, c), mem, DstRect(c, base), SrcRect(c, base), c.region)
  {
    hide ForwardOverrun, OverlapTest, RectCopied, Run;
    InPlaceCopyExact(|mem|, base, c);
    RowsFit(DstRect(c, base), SrcRect(c, base), c.region, |mem|, |mem|);
    assert Simultaneous(mem, base, c);
  }

  /** In a forward overrun, row 0 is written where a later row is read. */
  lemma FirstRowFeedsLater(c: CopyRequest, base: nat) returns (t: nat, i: nat, j: nat)
    requires c.srcRow == c.dstRow && c.srcSlice == c.dstSlice && ValidPitches(c.region, c.srcRow, c.srcSlice)
    requires ForwardOverrun(c.src, c.dst, c.region, c.srcRow, c.srcSlice)
    ensures 0 < t < c.region.y && i < c.region.x && j < c.region.x
    ensures SrcRect(c, base).At(Point(j, t, 0)) == DstRect(c, base).At(Point(i, 0, 0))
    ensures SrcRect(c, base).At(Point(j, t, 0)) != SrcRect(c, base).At(Point(i, 0, 0))
  {
    var height := c.srcSlice / c.srcRow;
    t := Row(c.dst, height) - Row(c.src, height);
    i, j := if c.src.x < c.dst.x then 0 else c.src.x - c.dst.x, if c.src.x < c.dst.x then c.dst.x - c.src.x else 0;
    FlatByte(SrcRect(c, base), height, Point(j, t, 0));
    FlatByte(SrcRect(c, base), height, Point(i, 0, 0));
    FlatByte(DstRect(c, base), height, Point(i, 0, 0));
    MulGap(Row(c.src, height), Row(c.dst, height), c.srcRow);
  }

  lemma FlatByte(r: Rect, height: nat, p: Point)
    requires r.slicePitch == height * r.rowPitch && p.z == 0
    ensures r.At(p) == r.base + (Row(r.origin, height) + p.y) * r.rowPitch + r.origin.x + p.x
  {
    OffsetByRow(Point(r.origin.x + p.x, r.origin.y + p.y, r.origin.z), r.rowPitch, height);
  }

  /** In a forward overrun some byte ends up with the contents of a wrong source byte. */
  lemma ForwardOverrunCorrupts(length: nat, base: nat, c: CopyRequest) returns (mem: seq<byte>)
    requires c.srcRow == c.dstRow && c.srcSlice == c.dstSlice && ValidPitches(c.region, c.srcRow, c.srcSlice)
    requires DstRect(c, base).Within(c.region, length) && SrcRect(c, base).Within(c.region, length)
    requires !OverlapTest(c.src, c.dst, c.region, c.srcRow, c.srcSlice)
    requires ForwardOverrun(c.src, c.dst, c.region, c.srcRow, c.srcSlice)
    ensures |mem| == length && !Simultaneous(mem, base, c)
  {
    InPlaceCopyExact(length, base, c);
    mem :| |mem| == length && !Simultaneous(mem, base, c);
  }

  /** Row 1 of slice 0 and the row behind it to the two rows of slice 1, with rows of 4 and slices of 8 bytes. */
  const OVERRUN_COPY := CopyRequest(Point(0, 1, 0), Point(0, 0, 1), Point(1, 2, 1), 4, 8, 4, 8)

  lemma OverrunNotSeen()
    ensures ValidPitches(Point(1, 2, 1), 4, 8)
    ensures !OverlapTest(Point(0, 1, 0), Point(0, 0, 1), Point(1, 2, 1), 4, 8)
    ensures ForwardOverrun(Point(0, 1, 0), Point(0, 0, 1), Point(1, 2, 1), 4, 8)
  {
    assert 8 / 4 == 2;
  }

  /** The request is accepted in a buffer of 16 bytes. */
  lemma OverrunAccepted()
    ensures ValidateCopy(OVERRUN_COPY, 16, 16, true) == Success(OVERRUN_COPY)
    ensures ForwardOverrun(OVERRUN_COPY.src, OVERRUN_COPY.dst, OVERRUN_COPY.region,
                           OVERRUN_COPY.srcRow, OVERRUN_COPY.srcSlice)
  {
    hide ValidPitches, OverlapTest, ForwardOverrun;
    OverrunNotSeen();
    AcceptedInPlace(OVERRUN_COPY, 16);
  }

  lemma AcceptedInPlace(c: CopyRequest, size: nat)
    requires c.WithDefaults() == c && c.srcRow == c.dstRow && c.srcSlice == c.dstSlice && Volume(c.region) > 0
    requires CalculateOffset(c.src, c.srcRow, c.srcSlice) + Volume(c.region) <= size
    requires CalculateOffset(c.dst, c.srcRow, c.srcSlice) + Volume(c.region) <= size
    requires ValidPitches(c.region, c.srcRow, c.srcSlice)
    requires !OverlapTest(c.src, c.dst, c.region, c.srcRow, c.srcSlice)
    ensures ValidateCopy(c, size, size, true) == Success(c)
  {
  }

  lemma OverrunWithin()
    ensures SrcRect(OVERRUN_COPY, 0).Within(OVERRUN_COPY.region, 16)
    ensures DstRect(OVERRUN_COPY, 0).Within(OVERRUN_COPY.region, 16)
  {
  }

  /** The row behind row 1 is the first one written: an accepted copy inside the buffer after which a byte is wrong. */
  lemma ForwardOverrunExample() returns (mem: seq<byte>)
    ensures ValidateCopy(OVERRUN_COPY, 16, 16, true) == Success(OVERRUN_COPY) && |mem| == 16
    ensures SrcRect(OVERRUN_COPY, 0).Within(OVERRUN_COPY.region, 16)
    ensures DstRect(OVERRUN_COPY, 0).Within(OVERRUN_COPY.region, 16)
    ensures !Simultaneous(mem, 0, OVERRUN_COPY)
  {
    hide ValidateCopy, ForwardOverrun, OverlapTest, ValidPitches, Simultaneous, SrcRect, DstRect;
    OverrunAccepted();
    OverrunWithin();
    mem := AcceptedOverrunCorrupts(OVERRUN_COPY, 16, 0);
  }

  /** Every accepted forward overrun inside one buffer goes wrong on some contents. */
  lemma AcceptedOverrunCorrupts(c: CopyRequest, length: nat, base: nat) returns (mem: seq<byte>)
    requires ValidateCopy(c, length, length, true) == Success(c)
    requires ForwardOverrun(c.src, c.dst, c.region, c.srcRow, c.srcSlice)
    requires SrcRect(c, base).Within(c.region, length) && DstRect(c, base).Within(c.region, length)
    ensures |mem| == length && !Simultaneous(mem, base, c)
  {
    mem := ForwardOverrunCorrupts(length, base, c);
  }

  // ---------- the checks and the memory ----------

  /** The quick check of given pitches is right for every buffer size exactly for tightly packed rows and slices. */
  lemma QuickCheckExact(origin: Point, region: Point, rowPitch: nat, slicePitch: nat)
    requires ValidPitches(region, rowPitch, slicePitch)
    ensures (forall size: nat | CalculateOffset(origin, rowPitch, slicePitch) + Volume(region) <= size ::
               Rect(0, origin, rowPitch, slicePitch).Within(region, size))
            <==> (region.y == 1 || rowPitch == region.x) && (region.z == 1 || slicePitch == region.x * region.y)
  {
    var r, last := Rect(0, origin, rowPitch, slicePitch), Point(region.x - 1, region.y - 1, region.z - 1);
    var offset := CalculateOffset(origin, rowPitch, slicePitch);
    AtAddress(r, last);
    ExtentExact(region, rowPitch, slicePitch);
    forall size: nat ensures r.Within(region, size) <==> r.At(last) < size {
      WithinExact(r, region, size);
    }
    var least: nat := offset + Volume(region);
    assert r.Within(region, least) <==> r.At(last) < least;
  }

  /** Valid pitches spread a region over at least as many bytes as it has. */
  lemma ExtentExact(region: Point, rowPitch: nat, slicePitch: nat)
    requires ValidPitches(region, rowPitch, slicePitch)
    ensures var extent := region.x + (region.y - 1) * rowPitch + (region.z - 1) * slicePitch;
      && extent >= Volume(region)
      && (extent == Volume(region) <==>
          (region.y == 1 || rowPitch == region.x) && (region.z == 1 || slicePitch == region.x * region.y))
  {
    var x, y, z := region.x, region.y, region.z;
    MulNext(y - 1, x);
    MulNext(z - 1, x * y);
    assert x * y * z == x + (y - 1) * x + (z - 1) * (x * y);
    ProductExact(y - 1, x, rowPitch);
    assert y * rowPitch >= y * x by { ProductExact(y, x, rowPitch); }
    ProductExact(z - 1, x * y, slicePitch);
  }

  lemma ProductExact(n: nat, a: nat, b: nat)
    requires a <= b
    ensures n * a <= n * b && (n * a == n * b <==> n == 0 || a == b)
  {
    assert n * b - n * a == n * (b - a);
  }

  lemma AcceptedBetween(c: CopyRequest, srcSize: nat, dstSize: nat)
    requires c.WithDefaults() == c && Volume(c.region) > 0
    requires CalculateOffset(c.src, c.srcRow, c.srcSlice) + Volume(c.region) <= srcSize
    requires CalculateOffset(c.dst, c.dstRow, c.dstSlice) + Volume(c.region) <= dstSize
    requires ValidPitches(c.region, c.srcRow, c.srcSlice) && ValidPitches(c.region, c.dstRow, c.dstSlice)
    ensures ValidateCopy(c, srcSize, dstSize, false) == Success(c)
  {
  }

  // Examples have two rows that start 0, `row` or more bytes apart.

  /** Two rows in one slice of twice their pitch. */
  lemma TwoRowsValid(x: nat, row: nat)
    requires 0 < x <= row
    ensures ValidPitches(Point(x, 2, 1), row, 2 * row)
  {
    ModOfMultiple(2, row);
  }

  /** Where they start. */
  lemma TwoRowsPlaces(base: nat, row: nat, slice: nat)
    ensures Rect(base, ORIGIN, row, slice).At(ORIGIN) == base
    ensures Rect(base, ORIGIN, row, slice).At(Point(0, 1, 0)) == base + row
    ensures Rect(base, ORIGIN, row, slice).RowStart(ORIGIN) == base
    ensures Rect(base, ORIGIN, row, slice).RowStart(Point(0, 1, 0)) == base + row
  {
  }

  function TwoRowCopy(x: nat, row: nat): CopyRequest {
    CopyRequest(ORIGIN, ORIGIN, Point(x, 2, 1), row, 2 * row, row, 2 * row)
  }

  lemma TwoRowsAccepted(x: nat, row: nat)
    requires 0 < x <= row
    ensures ValidateCopy(TwoRowCopy(x, row), 2 * x, 2 * x, false) == Success(TwoRowCopy(x, row))
  {
    hide ValidateCopy, ValidPitches;
    TwoRowsValid(x, row);
    var c := TwoRowCopy(x, row);
    assert Volume(c.region) == 2 * x;
    OffsetOfOrigin(row, 2 * row);
    AcceptedBetween(c, 2 * x, 2 * x);
  }

  lemma TwoRowsWithin(base: nat, x: nat, row: nat, slice: nat)
    requires x > 0
    ensures Rect(base, ORIGIN, row, slice).Within(Point(x, 2, 1), base + row + x)
  {
    AtAddress(Rect(base, ORIGIN, row, slice), Point(x - 1, 1, 0));
    TwoRowsPlaces(base, row, slice);
    hide ByteOffset, CalculateOffset;
    WithinExact(Rect(base, ORIGIN, row, slice), Point(x, 2, 1), base + row + x);
  }

  /** An accepted copy that reads and writes behind the end of its buffers, as its rows are not adjacent. */
  lemma BoundsExample(x: nat, row: nat)
    requires 0 < x < row
    ensures ValidateCopy(TwoRowCopy(x, row), 2 * x, 2 * x, false) == Success(TwoRowCopy(x, row))
    ensures !SrcRect(TwoRowCopy(x, row), 0).Within(Point(x, 2, 1), 2 * x)
    ensures !DstRect(TwoRowCopy(x, row), 0).Within(Point(x, 2, 1), 2 * x)
  {
    hide ValidateCopy;
    TwoRowsAccepted(x, row);
    var last := Point(x - 1, 1, 0);
    assert Inside(last, Point(x, 2, 1));
    assert Rect(0, ORIGIN, row, 2 * row).At(last) == row + x - 1;
  }

  /** Offsets of sub-buffers are multiples of this. */
  const BUFFER_ALIGNMENT: nat := 64

  /** The second row is where the first one has been written. */
  lemma SharedRowsChanged(d: Rect, s: Rect, region: Point)
    requires region.x > 0 && region.y > 1 && region.z > 0 && s.RowStart(ORIGIN) != d.RowStart(ORIGIN)
    requires s.RowStart(Point(0, 1, 0)) == d.RowStart(ORIGIN)
    ensures !ReadsIntact(BoxMoves(Rows(region), RowMove(d, s, region)))
  {
    var q, p := ORIGIN, Point(0, 1, 0);
    BoxReadsIntact(Rows(region), RowMove(d, s, region));
    assert Inside(p, Rows(region)) && Inside(q, Rows(region)) && Earlier(q, p);
    assert !LeavesIntact(RowMove(d, s, region)(q), RowMove(d, s, region)(p));
  }

  /** What the row loops make of two rectangles in one memory. */
  function RunShared(mem: seq<byte>, d: Rect, s: Rect, region: Point): seq<byte>
    requires AllFit(BoxMoves(Rows(region), RowMove(d, s, region)), |mem|, |mem|)
  {
    Run(mem, Same, BoxMoves(Rows(region), RowMove(d, s, region)))
  }

  lemma SharedCorrupts(length: nat, d: Rect, s: Rect, region: Point) returns (mem: seq<byte>)
    requires region.x > 0 && region.y > 1 && region.z > 0 && s.RowStart(ORIGIN) != d.RowStart(ORIGIN)
    requires s.RowStart(Point(0, 1, 0)) == d.RowStart(ORIGIN) && d.RowsApart(region)
    requires d.Within(region, length) && s.Within(region, length)
    ensures |mem| == length && AllFit(BoxMoves(Rows(region), RowMove(d, s, region)), length, length)
    ensures !RectCopied(mem, RunShared(mem, d, s, region), mem, d, s, region)
  {
    hide Run, RectCopied, ReadsIntact, LinesApart;
    SharedRowsChanged(d, s, region);
    OneMemoryExact(length, d, s, region);
    var moves := BoxMoves(Rows(region), RowMove(d, s, region));
    mem :| |mem| == length && !RectCopied(mem, Run(mem, Same, moves), mem, d, s, region);
  }

  lemma SharedPlaces(row: nat)
    requires row > 0
    ensures var region, d, s := Point(row, 2, 1), Rect(row, ORIGIN, row, 2 * row), Rect(0, ORIGIN, row, 2 * row);
      && d.Within(region, 3 * row) && s.Within(region, 3 * row)
      && s.RowStart(ORIGIN) == 0 && s.RowStart(Point(0, 1, 0)) == d.RowStart(ORIGIN) == row
  {
    hide ByteOffset, CalculateOffset;
    TwoRowsWithin(0, row, row, 2 * row);
    TwoRowsWithin(row, row, row, 2 * row);
    TwoRowsPlaces(0, row, 2 * row);
    TwoRowsPlaces(row, row, 2 * row);
  }

  /**
   The overlap test is made inside one buffer only. Between two sub-buffers of one parent, the second one starting at
   the second row of the first one, a copy is accepted after which a byte is wrong.
   */
  lemma SubBufferExample(row: nat) returns (mem: seq<byte>)
    requires row > 0 && row % BUFFER_ALIGNMENT == 0
    ensures ValidateCopy(TwoRowCopy(row, row), 2 * row, 2 * row, false) == Success(TwoRowCopy(row, row))
    ensures var d, s := DstRect(TwoRowCopy(row, row), row), SrcRect(TwoRowCopy(row, row), 0);
      && |mem| == 3 * row && d.Within(Point(row, 2, 1), |mem|) && s.Within(Point(row, 2, 1), |mem|)
      && AllFit(BoxMoves(Rows(Point(row, 2, 1)), RowMove(d, s, Point(row, 2, 1))), |mem|, |mem|)
      && !RectCopied(mem, RunShared(mem, d, s, Point(row, 2, 1)), mem, d, s, Point(row, 2, 1))
  {
    hide ValidateCopy, RectCopied, RunShared, BoxMoves, RowMove, LinesApart, ValidPitches;
    TwoRowsAccepted(row, row);
    SharedPlaces(row);
    TwoRowsValid(row, row);
    ValidRowsApart(Point(row, 2, 1), row, 2 * row);
    mem := SharedCorrupts(3 * row, Rect(row, ORIGIN, row, 2 * row), Rect(0, ORIGIN, row, 2 * row), Point(row, 2, 1));
  }

  /**
   The queued copy action, between two buffers, inside one, or between sub-buffers of one parent. Whatever request was
   accepted, the rows moved one after the other leave the destination rectangle with the first contents of the source
   rectangle and nothing else changed, unless they read rows they have changed: inside one buffer, in forward overruns.
   */
  method BufferRectCopy(r: CopyRequest, srcSize: nat, dstSize: nat, sameBuffer: bool, src: array<byte>, srcBase: nat,
                        dst: array<byte>, dstBase: nat, c: CopyRequest)
    requires ValidateCopy(r, srcSize, dstSize, sameBuffer) == Success(c)
    requires sameBuffer ==> src == dst && srcBase == dstBase
    requires SrcRect(c, srcBase).Within(c.region, src.Length) && DstRect(c, dstBase).Within(c.region, dst.Length)
    modifies dst
    ensures var moves := BoxMoves(Rows(c.region), RowMove(DstRect(c, dstBase), SrcRect(c, srcBase), c.region));
      && AllFit(moves, dst.Length, src.Length)
      && dst[..] == Run(old(dst[..]), if src == dst then Same else Other(old(src[..])), moves)
      && (src != dst || ReadsIntact(moves) ==>
            RectCopied(old(dst[..]), dst[..], old(src[..]), DstRect(c, dstBase), SrcRect(c, srcBase), c.region))
      && (sameBuffer ==>
            (ReadsIntact(moves) <==> !ForwardOverrun(c.src, c.dst, c.region, c.srcRow, c.srcSlice)))
  {
    hide ForwardOverrun, OverlapTest, RectCopied, ReadsIntact, Run;
    ghost var mem, from := dst[..], src[..];
    RunRect(dst, DstRect(c, dstBase), src, SrcRect(c, srcBase), c.region);
    ValidRowsApart(c.region, c.dstRow, c.dstSlice);
    if src != dst {
      ApartRectCopied(mem, from, DstRect(c, dstBase), SrcRect(c, srcBase), c.region);
    } else {
      OneMemoryExact(dst.Length, DstRect(c, dstBase), SrcRect(c, srcBase), c.region);
    }
    if sameBuffer {
      RowsIntactExact(c, dstBase);
    }
  }

  /**
   Where the bytes of an accepted request come from and go to: rows and slices follow each other at the given pitches,
   and without gaps where a pitch is 0.
   */
  lemma AcceptedBytes(r: CopyRequest, srcSize: nat, dstSize: nat, sameBuffer: bool, c: CopyRequest,
                      srcBase: nat, dstBase: nat, before: seq<byte>, after: seq<byte>, from: seq<byte>, p: Point)
    requires ValidateCopy(r, srcSize, dstSize, sameBuffer) == Success(c) && Inside(p, r.region)
    requires SrcRect(c, srcBase).Within(c.region, |from|) && DstRect(c, dstBase).Within(c.region, |before|)
    requires RectCopied(before, after, from, DstRect(c, dstBase), SrcRect(c, srcBase), c.region)
    ensures var srcRow := if r.srcRow == 0 then r.region.x else r.srcRow;
      var srcSlice := if r.srcSlice == 0 then r.region.y * srcRow else r.srcSlice;
      var dstRow := if r.dstRow == 0 then r.region.x else r.dstRow;
      var dstSlice := if r.dstSlice == 0 then r.region.y * dstRow else r.dstSlice;
      var to := dstBase + (r.dst.x + p.x) + (r.dst.y + p.y) * dstRow + (r.dst.z + p.z) * dstSlice;
      var at := srcBase + (r.src.x + p.x) + (r.src.y + p.y) * srcRow + (r.src.z + p.z) * srcSlice;
      to < |after| && at < |from| && after[to] == from[at]
  {
    ValidateCopyExact(r, srcSize, dstSize, sameBuffer);
    hide ValidateCopy, OverlapTest, ValidPitches;
    assert Inside(p, c.region);
    assert after[DstRect(c, dstBase).At(p)] == from[SrcRect(c, srcBase).At(p)];
  }

  /** With all pitches 0 in particular, both rectangles are tightly packed. */
  lemma PackedBytes(r: CopyRequest, srcSize: nat, dstSize: nat, sameBuffer: bool, c: CopyRequest,
                    srcBase: nat, dstBase: nat, before: seq<byte>, after: seq<byte>, from: seq<byte>, p: Point)
    requires ValidateCopy(r, srcSize, dstSize, sameBuffer) == Success(c) && Inside(p, r.region)
    requires r.srcRow == r.srcSlice == r.dstRow == r.dstSlice == 0
    requires SrcRect(c, srcBase).Within(c.region, |from|) && DstRect(c, dstBase).Within(c.region, |before|)
    requires RectCopied(before, after, from, DstRect(c, dstBase), SrcRect(c, srcBase), c.region)
    ensures var x, xy := r.region.x, r.region.y * r.region.x;
      var to := dstBase + (r.dst.x + p.x) + (r.dst.y + p.y) * x + (r.dst.z + p.z) * xy;
      var at := srcBase + (r.src.x + p.x) + (r.src.y + p.y) * x + (r.src.z + p.z) * xy;
      to < |after| && at < |from| && after[to] == from[at]
  {
    hide ValidateCopy, RectCopied;
    AcceptedBytes(r, srcSize, dstSize, sameBuffer, c, srcBase, dstBase, before, after, from, p);
  }

  // ---------- reading and writing rectangles ----------

  /** The checks of enqueueReadRect and enqueueWriteRect. They neither replace a pitch of 0 nor look at pitches. */
  function ValidateAccess(b: Rect, region: Point, size: nat, permitted: bool): int {
    if Volume(region) == 0 || CalculateOffset(b.origin, b.rowPitch, b.slicePitch) + Volume(region) > size
    then CL_INVALID_VALUE
    else if !permitted then CL_INVALID_OPERATION
    else CL_SUCCESS
  }

  lemma ValidateAccessExact(b: Rect, region: Point, size: nat, permitted: bool)
    ensures ValidateAccess(b, region, size, permitted) ==
            if region.x == 0 || region.y == 0 || region.z == 0
               || b.origin.z * b.slicePitch + b.origin.y * b.rowPitch + b.origin.x
                  + region.x * region.y * region.z > size
            then CL_INVALID_VALUE
            else if permitted then CL_SUCCESS else CL_INVALID_OPERATION
  {
    PositiveVolume(region);
  }

  /** The bytes accessed are those OpenCL means exactly if no pitch that is used is left to its default. */
  lemma SpecifiedBytesExact(r: Rect, region: Point)
    requires NotEmpty(region)
    ensures (forall p | Inside(p, region) :: r.At(p) == r.WithDefaults(region).At(p)) <==>
            && (r.rowPitch != 0 || r.origin.y + region.y == 1)
            && (r.slicePitch != 0 || r.origin.z + region.z == 1)
  {
    hide ByteOffset, CalculateOffset;
    var d := r.WithDefaults(region);
    var last := Point(0, region.y - 1, region.z - 1);
    assert Inside(last, region);
    DefaultPitches(r, region);
    forall p | Inside(p, region)
      ensures d.At(p) == r.At(p) <==> && (r.origin.y + p.y == 0 || r.rowPitch != 0)
                                      && (r.origin.z + p.z == 0 || r.slicePitch != 0)
    {
      DefaultsSame(r, d, p);
    }
  }

  lemma DefaultPitches(r: Rect, region: Point)
    requires NotEmpty(region)
    ensures var d := r.WithDefaults(region);
      && d.rowPitch >= r.rowPitch && (d.rowPitch == r.rowPitch <==> r.rowPitch != 0)
      && d.slicePitch >= r.slicePitch && (d.slicePitch == r.slicePitch <==> r.slicePitch != 0)
  {
    MulMonotone(1, region.y, r.WithDefaults(region).rowPitch);
  }

  lemma DefaultsSame(r: Rect, d: Rect, p: Point)
    requires d.base == r.base && d.origin == r.origin && d.rowPitch >= r.rowPitch && d.slicePitch >= r.slicePitch
    ensures d.At(p) == r.At(p) <==> && (r.origin.y + p.y == 0 || d.rowPitch == r.rowPitch)
                                    && (r.origin.z + p.z == 0 || d.slicePitch == r.slicePitch)
  {
    ProductExact(r.origin.y + p.y, r.rowPitch, d.rowPitch);
    ProductExact(r.origin.z + p.z, r.slicePitch, d.slicePitch);
  }

  /**
   The queued transfer between a buffer and host memory, in either direction. The rectangle arrives, and nothing else
   changes, exactly if bytes that share their place in the destination are the same in the source.
   */
  method BufferRectAccess(buffer: array<byte>, b: Rect, host: array<byte>, h: Rect, region: Point, writeToBuffer: bool)
    requires buffer != host && region.x > 0 && b.Within(region, buffer.Length) && h.Within(region, host.Length)
    modifies if writeToBuffer then {buffer} else {host}
    ensures writeToBuffer ==>
      && AllFit(BoxMoves(Rows(region), RowMove(b, h, region)), buffer.Length, host.Length)
      && buffer[..] == Run(old(buffer[..]), Other(host[..]), BoxMoves(Rows(region), RowMove(b, h, region)))
      && (RectCopied(old(buffer[..]), buffer[..], host[..], b, h, region) <==> Agree(host[..], b, h, region))
    ensures !writeToBuffer ==>
      && AllFit(BoxMoves(Rows(region), RowMove(h, b, region)), host.Length, buffer.Length)
      && host[..] == Run(old(host[..]), Other(buffer[..]), BoxMoves(Rows(region), RowMove(h, b, region)))
      && (RectCopied(old(host[..]), host[..], buffer[..], h, b, region) <==> Agree(buffer[..], h, b, region))
  {
    hide RectCopied, Agree, Run;
    ghost var mem, hostMem := buffer[..], host[..];
    if writeToBuffer {
      RunRect(buffer, b, host, h, region);
      RectCopyExact(mem, hostMem, b, h, region);
    } else {
      RunRect(host, h, buffer, b, region);
      RectCopyExact(hostMem, mem, h, b, region);
    }
  }

  /** With row pitch 0 two rows of different contents cannot both arrive. */
  lemma ZeroPitchLoses(buffer: seq<byte>, after: seq<byte>, host: seq<byte>, b: Rect, h: Rect, region: Point)
    requires b.rowPitch == 0 && region.x > 0 && region.y > 1 && region.z > 0
    requires b.Within(region, |buffer|) && h.Within(region, |host|)
    requires host[h.At(ORIGIN)] != host[h.At(Point(0, 1, 0))]
    ensures !RectCopied(buffer, after, host, b, h, region)
  {
    AtAddress(b, ORIGIN);
    AtAddress(b, Point(0, 1, 0));
    assert Inside(ORIGIN, region) && Inside(Point(0, 1, 0), region);
  }

  /** A byte of the meant rectangle d that is outside the written rectangle b is not written. */
  lemma ByteMissed(buffer: seq<byte>, host: seq<byte>, b: Rect, d: Rect, h: Rect, region: Point, p: Point)
    requires region.x > 0 && b.Within(region, |buffer|) && h.Within(region, |host|) && d.Within(region, |buffer|)
    requires Inside(p, region) && (forall q :: Inside(q, region) ==> b.At(q) != d.At(p))
    requires buffer[d.At(p)] != host[h.At(p)]
    ensures AllFit(BoxMoves(Rows(region), RowMove(b, h, region)), |buffer|, |host|)
    ensures !RectCopied(buffer, Run(buffer, Other(host), BoxMoves(Rows(region), RowMove(b, h, region))), host,
                        d, h, region)
  {
    hide Run;
    RowsFit(b, h, region, |buffer|, |host|);
    OtherBytesKept(buffer, Other(host), b, h, region, d.At(p));
  }

  lemma ZeroPitchAccepted(x: nat)
    requires x > 0
    ensures ValidateAccess(Rect(0, ORIGIN, 0, 0), Point(x, 2, 1), 2 * x, true) == CL_SUCCESS
  {
    hide CalculateOffset;
    OffsetOfOrigin(0, 0);
    assert Volume(Point(x, 2, 1)) == 2 * x;
  }

  lemma ZeroPitchMeant(x: nat)
    requires x > 0
    ensures Rect(0, ORIGIN, 0, 0).WithDefaults(Point(x, 2, 1)) == Rect(0, ORIGIN, x, 2 * x)
  {
  }

  lemma OffsetOfOrigin(rowPitch: nat, slicePitch: nat)
    ensures CalculateOffset(ORIGIN, rowPitch, slicePitch) == 0
  {
  }

  /** An accepted write with row pitch 0, which OpenCL reads as x: both rows arrive at the start of the buffer. */
  lemma ZeroPitchExample(x: nat, buffer: seq<byte>, host: seq<byte>)
    requires x > 0 && |buffer| == |host| == 2 * x && host[0] != host[x] && host[x] != buffer[x]
    ensures var region, b, h := Point(x, 2, 1), Rect(0, ORIGIN, 0, 0), Rect(0, ORIGIN, x, 2 * x);
      && ValidateAccess(b, region, 2 * x, true) == CL_SUCCESS && b.WithDefaults(region) == h
      && b.Within(region, 2 * x) && h.Within(region, 2 * x)
      && AllFit(BoxMoves(Rows(region), RowMove(b, h, region)), 2 * x, 2 * x)
      && var after := Run(buffer, Other(host), BoxMoves(Rows(region), RowMove(b, h, region)));
         !RectCopied(buffer, after, host, b, h, region) && !RectCopied(buffer, after, host, h, h, region)
  {
    hide Run, BoxMoves, RowMove, RectCopied, ValidateAccess, CalculateOffset, ByteOffset;
    var region, b, h := Point(x, 2, 1), Rect(0, ORIGIN, 0, 0), Rect(0, ORIGIN, x, 2 * x);
    ZeroPitchAccepted(x);
    ZeroPitchMeant(x);
    TwoRowsWithin(0, x, x, 2 * x);
    TwoRowsWithin(0, x, 0, 0);
    TwoRowsPlaces(0, x, 2 * x);
    assert Inside(Point(0, 1, 0), region);
    ByteMissed(buffer, host, b, h, h, region, Point(0, 1, 0));
    ZeroPitchLoses(buffer, Run(buffer, Other(host), BoxMoves(Rows(region), RowMove(b, h, region))), host, b, h, region);
  }

  lemma WriteThenRead(buffer: seq<byte>, buffer': seq<byte>, host: seq<byte>, out: seq<byte>, out': seq<byte>,
                      b: Rect, h: Rect, o: Rect, region: Point)
    requires b.Within(region, |buffer|) && h.Within(region, |host|) && o.Within(region, |out|)
    requires RectCopied(buffer, buffer', host, b, h, region) && RectCopied(out, out', buffer', o, b, region)
    ensures RectCopied(out, out', host, o, h, region)
  {
  }

  /** What two runs of the row loops leave in a host rectangle: there and back again. */
  function ThereAndBack(buffer: seq<byte>, host: seq<byte>, out: seq<byte>, b: Rect, h: Rect, o: Rect, region: Point)
    : (r: seq<byte>)
    requires AllFit(BoxMoves(Rows(region), RowMove(b, h, region)), |buffer|, |host|)
    requires AllFit(BoxMoves(Rows(region), RowMove(o, b, region)), |out|, |buffer|)
    ensures |r| == |out|
  {
    Run(out, Other(Run(buffer, Other(host), BoxMoves(Rows(region), RowMove(b, h, region)))),
        BoxMoves(Rows(region), RowMove(o, b, region)))
  }

  /**
   What the row moves write to a buffer rectangle they read back, whatever the host memory holds, if and only if the
   host rectangle repeats itself where the one in the buffer does.
   */
  lemma RectRoundTrip(buffer: seq<byte>, length: nat, out: seq<byte>, b: Rect, h: Rect, o: Rect, region: Point)
    requires b.Within(region, |buffer|) && h.Within(region, length) && o.Within(region, |out|)
    requires region.x > 0 && Follows(o, b, region)
    ensures AllFit(BoxMoves(Rows(region), RowMove(b, h, region)), |buffer|, length)
    ensures AllFit(BoxMoves(Rows(region), RowMove(o, b, region)), |out|, |buffer|)
    ensures (forall host: seq<byte> | |host| == length ::
               RectCopied(out, ThereAndBack(buffer, host, out, b, h, o, region), host, o, h, region))
            <==> Follows(b, h, region)
  {
    hide Run, RectCopied, Agree, Follows;
    RowsFit(b, h, region, |buffer|, length);
    RowsFit(o, b, region, |out|, |buffer|);
    if Follows(b, h, region) {
      forall host: seq<byte> | |host| == length
        ensures RectCopied(out, ThereAndBack(buffer, host, out, b, h, o, region), host, o, h, region)
      {
        FollowsAgrees(host, b, h, region);
        ArrivesBack(buffer, host, out, b, h, o, region);
      }
    } else {
      var host := DisagreeingContents(length, b, h, region);
      LostOnTheWay(buffer, host, out, b, h, o, region);
    }
  }

  lemma ArrivesBack(buffer: seq<byte>, host: seq<byte>, out: seq<byte>, b: Rect, h: Rect, o: Rect, region: Point)
    requires b.Within(region, |buffer|) && h.Within(region, |host|) && o.Within(region, |out|)
    requires region.x > 0 && Follows(o, b, region) && Agree(host, b, h, region)
    ensures AllFit(BoxMoves(Rows(region), RowMove(b, h, region)), |buffer|, |host|)
    ensures AllFit(BoxMoves(Rows(region), RowMove(o, b, region)), |out|, |buffer|)
    ensures RectCopied(out, ThereAndBack(buffer, host, out, b, h, o, region), host, o, h, region)
  {
    hide Run, RectCopied, Agree, Follows;
    RectCopyExact(buffer, host, b, h, region);
    var written := Run(buffer, Other(host), BoxMoves(Rows(region), RowMove(b, h, region)));
    FollowsAgrees(written, o, b, region);
    RectCopyExact(out, written, o, b, region);
    WriteThenRead(buffer, written, host, out, Run(out, Other(written), BoxMoves(Rows(region), RowMove(o, b, region))),
                  b, h, o, region);
  }

  /** Bytes that have shared a place in the buffer come back alike. */
  lemma LostOnTheWay(buffer: seq<byte>, host: seq<byte>, out: seq<byte>, b: Rect, h: Rect, o: Rect, region: Point)
    requires b.Within(region, |buffer|) && h.Within(region, |host|) && o.Within(region, |out|)
    requires region.x > 0 && Follows(o, b, region) && !Agree(host, b, h, region)
    ensures AllFit(BoxMoves(Rows(region), RowMove(b, h, region)), |buffer|, |host|)
    ensures AllFit(BoxMoves(Rows(region), RowMove(o, b, region)), |out|, |buffer|)
    ensures !RectCopied(out, ThereAndBack(buffer, host, out, b, h, o, region), host, o, h, region)
  {
    hide Run, Follows;
    RowsFit(b, h, region, |buffer|, |host|);
    var written := Run(buffer, Other(host), BoxMoves(Rows(region), RowMove(b, h, region)));
    FollowsAgrees(written, o, b, region);
    RectCopyExact(out, written, o, b, region);
    var after := Run(out, Other(written), BoxMoves(Rows(region), RowMove(o, b, region)));
    var p, q :| Inside(p, region) && Inside(q, region) && b.At(p) == b.At(q) && host[h.At(p)] != host[h.At(q)];
    assert after[o.At(p)] == written[b.At(p)] == after[o.At(q)];
  }
}
