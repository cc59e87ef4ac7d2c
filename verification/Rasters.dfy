/**
 Lines and slices of equal length one after the other: host memory, raster images (src/TextureFormat.cpp) and, with
 elements of one byte, rectangles of buffers (src/Buffer.cpp).
 */
module Rasters {
  import opened Arithmetic
  import opened Boxes
  import opened Transfers

  /** Address of a pixel when lines and slices follow each other. */
  function RasterAddress(p: Point, elementSize: nat, rowPitch: nat, slicePitch: nat): nat {
    p.x * elementSize + p.y * rowPitch + p.z * slicePitch
  }

  /** Where a line starts. */
  function LineStart(y: nat, z: nat, rowPitch: nat, slicePitch: nat): nat {
    y * rowPitch + z * slicePitch
  }

  /** Line y of one slice and the first line of the slice that comes z slices later share no byte. */
  predicate FarLines(y: nat, z: nat, length: nat, row: nat, slice: nat) {
    Apart(LineStart(y, 0, row, slice), length, LineStart(0, z, row, slice), length)
  }

  /** A line does not run into the next one, and no line into the first line of another slice; slices may interleave. */
  predicate LinesApart(box: Point, e: nat, row: nat, slice: nat) {
    && (box.y <= 1 || box.x * e <= row)
    && forall y: nat, z: nat :: y < box.y && 0 < z < box.z ==> FarLines(y, z, box.x * e, row, slice)
  }

  lemma LineOfPixel(p: Point, e: nat, row: nat, slice: nat)
    ensures RasterAddress(p, e, row, slice) == LineStart(p.y, p.z, row, slice) + p.x * e
  {
  }

  /** Then any two lines share no byte. */
  lemma LinesFar(box: Point, e: nat, row: nat, slice: nat, y: nat, z: nat, y': nat, z': nat)
    requires LinesApart(box, e, row, slice) && box.x * e > 0
    requires y < box.y && z < box.z && y' < box.y && z' < box.z && (z < z' || (z == z' && y < y'))
    ensures Apart(LineStart(y, z, row, slice), box.x * e, LineStart(y', z', row, slice), box.x * e)
  {
    if z == z' {
      MulGap(y, y', row);
    } else {
      assert FarLines(if y' <= y then y - y' else 0, z' - z, box.x * e, row, slice);
      assert (z' - z) * slice == z' * slice - z * slice;
      if y' <= y {
        assert (y - y') * row == y * row - y' * row;
      } else {
        MulMonotone(y, y', row);
      }
    }
  }

  /** Two lines that meet have pixels that meet. */
  lemma LinesMeet(box: Point, e: nat, row: nat, slice: nat, y: nat, z: nat, y': nat, z': nat)
    returns (p: Point, q: Point)
    requires e > 0 && y < box.y && z < box.z && y' < box.y && z' < box.z && (y != y' || z != z')
    requires LineStart(y, z, row, slice) <= LineStart(y', z', row, slice)
             < LineStart(y, z, row, slice) + box.x * e
    ensures Inside(p, box) && Inside(q, box) && p != q
    ensures !Apart(RasterAddress(p, e, row, slice), e, RasterAddress(q, e, row, slice), e)
  {
    var gap := LineStart(y', z', row, slice) - LineStart(y, z, row, slice);
    p, q := Point(gap / e, y, z), Point(0, y', z');
    QuotientBound(gap, e, box.x);
    assert gap / e * e <= gap < gap / e * e + e;
    LineOfPixel(p, e, row, slice);
    LineOfPixel(q, e, row, slice);
  }

  lemma LinesMeetSomewhere(box: Point, e: nat, row: nat, slice: nat) returns (p: Point, q: Point)
    requires box.x > 0 && box.y > 0 && box.z > 0 && e > 0 && !LinesApart(box, e, row, slice)
    ensures Inside(p, box) && Inside(q, box) && p != q
    ensures !Apart(RasterAddress(p, e, row, slice), e, RasterAddress(q, e, row, slice), e)
  {
    if box.y > 1 && row < box.x * e {
      p, q := LinesMeet(box, e, row, slice, 0, 0, 1, 0);
    } else {
      var y: nat, z: nat :| y < box.y && 0 < z < box.z && !FarLines(y, z, box.x * e, row, slice);
      if LineStart(y, 0, row, slice) <= LineStart(0, z, row, slice) {
        p, q := LinesMeet(box, e, row, slice, y, 0, 0, z);
      } else {
        p, q := LinesMeet(box, e, row, slice, 0, z, y, 0);
      }
    }
  }

  lemma RasterSeparated(box: Point, e: nat, row: nat, slice: nat, p: Point, q: Point)
    requires LinesApart(box, e, row, slice) && Inside(p, box) && Inside(q, box) && Earlier(p, q)
    ensures Apart(RasterAddress(p, e, row, slice), e, RasterAddress(q, e, row, slice), e)
  {
    LineOfPixel(p, e, row, slice);
    LineOfPixel(q, e, row, slice);
    MulGap(p.x, box.x, e);
    MulGap(q.x, box.x, e);
    if p.y == q.y && p.z == q.z {
      MulGap(p.x, q.x, e);
    } else if e > 0 {
      LinesFar(box, e, row, slice, p.y, p.z, q.y, q.z);
    }
  }

  /** All pixels are separate exactly when all lines are. */
  lemma RasterSeparatedExact(box: Point, e: nat, row: nat, slice: nat)
    requires box.x > 0 && box.y > 0 && box.z > 0 && e > 0
    ensures (forall p, q | Inside(p, box) && Inside(q, box) && p != q ::
               Apart(RasterAddress(p, e, row, slice), e, RasterAddress(q, e, row, slice), e))
            <==> LinesApart(box, e, row, slice)
  {
    if LinesApart(box, e, row, slice) {
      forall p, q | Inside(p, box) && Inside(q, box) && p != q
        ensures Apart(RasterAddress(p, e, row, slice), e, RasterAddress(q, e, row, slice), e)
      {
        if Earlier(p, q) {
          RasterSeparated(box, e, row, slice, p, q);
        } else {
          RasterSeparated(box, e, row, slice, q, p);
        }
      }
    } else {
      var p, q := LinesMeetSomewhere(box, e, row, slice);
    }
  }

  /** Unless slices run into each other, that is when a line does not run into the next one. */
  lemma LinesApartExact(box: Point, e: nat, row: nat, slice: nat)
    requires box.y > 0 && (box.z <= 1 || (box.y - 1) * row + box.x * e <= slice)
    ensures LinesApart(box, e, row, slice) <==> box.y == 1 || box.x * e <= row
  {
    forall y: nat, z: nat | y < box.y && 0 < z < box.z ensures FarLines(y, z, box.x * e, row, slice) {
      MulMonotone(y, box.y - 1, row);
      MulMonotone(1, z, slice);
    }
  }

  /** Lines do not run into the next line, nor slices into the next slice, if there is one. */
  predicate RasterSpacious(box: Point, e: nat, row: nat, slice: nat)
    requires box.y > 0
  {
    && (box.y == 1 || box.x * e <= row)
    && (box.z <= 1 || (box.y - 1) * row + box.x * e <= slice)
  }

  /** Raster pixels of a spacious layout are in visiting order. */
  lemma RasterApart(box: Point, e: nat, row: nat, slice: nat, p: Point, q: Point)
    requires box.y > 0 && RasterSpacious(box, e, row, slice) && Inside(p, box) && Inside(q, box) && Earlier(p, q)
    ensures RasterAddress(p, e, row, slice) + e <= RasterAddress(q, e, row, slice)
  {
    MulGap(p.x, box.x, e);
    MulMonotone(p.y, box.y - 1, row);
    DigitsOrdered(p.x, p.y, p.z, q.x, q.y, q.z, e, row, slice);
  }

  /** Three-digit numbers are ordered like their digits. */
  lemma DigitsOrdered(x: nat, y: nat, z: nat, x': nat, y': nat, z': nat, e: nat, row: nat, slice: nat)
    requires z < z' ==> x * e + e + y * row <= slice
    requires z == z' && y < y' ==> x * e + e <= row
    requires z < z' || (z == z' && (y < y' || (y == y' && x < x')))
    ensures x * e + y * row + z * slice + e <= x' * e + y' * row + z' * slice
  {
    if z < z' {
      MulGap(z, z', slice);
    } else if y < y' {
      MulGap(y, y', row);
    } else {
      MulGap(x, x', e);
    }
  }

  /** All pixels are in the memory of the slices exactly when one slice holds its own pixels. */
  lemma RasterInMemoryExact(box: Point, e: nat, row: nat, slice: nat)
    requires box.x > 0 && box.y > 0 && box.z > 0
    ensures (forall p | Inside(p, box) :: RasterAddress(p, e, row, slice) + e <= slice * box.z)
            <==> (box.y - 1) * row + box.x * e <= slice
  {
    if (box.y - 1) * row + box.x * e <= slice {
      forall p | Inside(p, box) ensures RasterAddress(p, e, row, slice) + e <= slice * box.z {
        MulGap(p.x, box.x, e);
        MulMonotone(p.y, box.y - 1, row);
        MulGap(p.z, box.z, slice);
      }
    } else {
      var last := Point(box.x - 1, box.y - 1, box.z - 1);
      assert Inside(last, box);
      MulNext(box.x - 1, e);
      MulNext(box.z - 1, slice);
    }
  }
}
