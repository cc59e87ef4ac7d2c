/**
 Texture layouts (src/TextureFormat.h, src/TextureFormat.cpp): the pitches of an image and the addresses of its pixels
 in linear-tile (LT) and raster order.
 */
module Textures {
  import opened Arithmetic
  import opened Boxes
  import opened Rasters
  import opened Transfers
  import opened Wrappers

  const MICROTILE_BYTES: nat := 64

  datatype Coordinates2D = Coordinates2D(x: nat, y: nat)
  {
    /** Byte offset in raster order. */
    function ToByteOffset(widthInElements: nat, elementSize: nat): nat {
      (y * widthInElements + x) * elementSize
    }
  }

  predicate Supported(elementSize: nat) {
    elementSize == 1 || elementSize == 2 || elementSize == 4 || elementSize == 8
  }

  /** Size of a micro-tile in pixels; other element sizes have no tiles. */
  function TileSize(elementSize: nat): (t: Coordinates2D)
    requires Supported(elementSize)
    ensures t.x > 0 && t.y > 0
  {
    match elementSize
    case 8 => Coordinates2D(2, 4)
    case 4 => Coordinates2D(4, 4)
    case 2 => Coordinates2D(8, 4)
    case 1 => Coordinates2D(8, 8)
  }

  /** The micro-tile a pixel is in, and its place there. */
  function TileIndex(p: Point, tile: Coordinates2D): Coordinates2D
    requires tile.x > 0 && tile.y > 0
  {
    Coordinates2D(p.x / tile.x, p.y / tile.y)
  }

  function PixelIndex(p: Point, tile: Coordinates2D): Coordinates2D
    requires tile.x > 0 && tile.y > 0
  {
    Coordinates2D(p.x % tile.x, p.y % tile.y)
  }

  /** Bytes in one line of a micro-tile. */
  function TileRowBytes(elementSize: nat): (r: nat)
    requires Supported(elementSize)
    ensures r > 0
  {
    var x := TileSize(elementSize).x;
    assert x * elementSize >= x;
    x * elementSize
  }

  /** A micro-tile always has 64 bytes. */
  lemma TileBytes(elementSize: nat)
    requires Supported(elementSize)
    ensures TileSize(elementSize).x * TileSize(elementSize).y * elementSize == MICROTILE_BYTES
  {
  }

  function RoundUp(n: nat, multiple: nat): (r: nat)
    requires multiple > 0
    ensures r >= n
  {
    if n % multiple == 0 then n else n + multiple - n % multiple
  }

  /** The smallest multiple that is not below n. */
  lemma RoundUpIsLeast(n: nat, multiple: nat, k: nat) returns (q: nat)
    requires multiple > 0
    ensures RoundUp(n, multiple) == q * multiple
    ensures k * multiple >= n ==> k >= q
  {
    q := if n % multiple == 0 then n / multiple else n / multiple + 1;
    assert n == n / multiple * multiple + n % multiple;
    if k < q {
      MulGap(k, q, multiple);
    }
  }

  /** The row pitch of an LT image: whole micro-tiles, unless the caller gives one. */
  function LTRowPitch(width: nat, elementSize: nat, srcRow: nat): (r: nat)
    requires Supported(elementSize) && width > 0
    ensures r > 0
  {
    if srcRow != 0 then srcRow
    else
      MulMonotone(1, RoundUp(width, TileSize(elementSize).x), elementSize);
      RoundUp(width, TileSize(elementSize).x) * elementSize
  }

  /** Bytes in one line of micro-tiles. */
  function TileLineBytes(elementSize: nat, row: nat): (r: nat)
    requires Supported(elementSize) && row > 0
    ensures r > 0
  {
    MulMonotone(1, TileSize(elementSize).y, row);
    TileSize(elementSize).y * row
  }

  function LTSlicePitch(height: nat, elementSize: nat, row: nat, srcSlice: nat): nat
    requires Supported(elementSize)
  {
    if srcSlice != 0 then srcSlice else RoundUp(height, TileSize(elementSize).y) * row
  }

  function SliceStart(z: nat, slicePitch: nat): nat {
    z * slicePitch
  }

  /** The size, pixel order and pitches of an image. */
  datatype Shape = Shape(width: nat, height: nat, depth: nat, elementSize: nat, raster: bool,
                         rowPitch: nat, slicePitch: nat)
  {
    predicate Plausible() {
      width > 0 && height > 0 && depth > 0 && elementSize > 0 && (!raster ==> Supported(elementSize))
    }

    function Box(): Point {
      Point(width, height, depth)
    }

    function RowPitchInBytes(): nat {
      if rowPitch != 0 then rowPitch else width * elementSize
    }

    function SlicePitchInBytes(): nat {
      if slicePitch != 0 then slicePitch else RowPitchInBytes() * height
    }

    function TilesPerRow(): nat
      requires Plausible() && !raster
    {
      RowPitchInBytes() / TileRowBytes(elementSize)
    }

    /** Micro-tiles in raster order, pixels in raster order inside a micro-tile. */
    function LTSliceOffset(p: Point): nat
      requires Plausible() && !raster
    {
      var tile := TileSize(elementSize);
      TileIndex(p, tile).ToByteOffset(TilesPerRow(), MICROTILE_BYTES)
      + PixelIndex(p, tile).ToByteOffset(tile.x, elementSize)
    }

    function LTOffset(p: Point): nat
      requires Plausible() && !raster
    {
      LTSliceOffset(p) + SliceStart(p.z, SlicePitchInBytes())
    }

    function PixelOffset(p: Point): nat
      requires Plausible()
    {
      if raster then RasterAddress(p, elementSize, rowPitch, slicePitch) else LTOffset(p)
    }

    /** checkAndApplyPitches: zero pitches are computed, others must fit the pixel order. */
    function ApplyPitches(srcRow: nat, srcSlice: nat): Result<Shape>
      requires Plausible()
    {
      if raster then
        var row := if srcRow == 0 then width * elementSize else srcRow;
        Success(this.(rowPitch := row, slicePitch := if srcSlice == 0 then height * row else srcSlice))
      else
        var row := LTRowPitch(width, elementSize, srcRow);
        if srcRow % TileRowBytes(elementSize) != 0 then Failure(CL_INVALID_VALUE)
        else if srcSlice % TileLineBytes(elementSize, row) != 0 then Failure(CL_INVALID_VALUE)
        else Success(this.(rowPitch := row, slicePitch := LTSlicePitch(height, elementSize, row, srcSlice)))
    }

    /** A row holds a line of pixels, a slice holds all lines. */
    predicate Roomy() {
      rowPitch >= width * elementSize && slicePitch >= height * rowPitch
    }

    /** Pitches that checkAndApplyPitches can produce. */
    predicate Pitched()
      requires Plausible()
    {
      && rowPitch > 0 && slicePitch > 0
      && (!raster ==>
            rowPitch % TileRowBytes(elementSize) == 0 && slicePitch % TileLineBytes(elementSize, rowPitch) == 0)
    }

    lemma ApplyPitchesPitched(srcRow: nat, srcSlice: nat)
      requires Plausible()
      ensures var r := ApplyPitches(srcRow, srcSlice);
        && (r.Success? ==> r.value.Plausible() && r.value.Pitched())
        && (r.Success? && srcRow == 0 && srcSlice == 0 ==> r.value.Roomy())
    {
      MulMonotone(1, width, elementSize);
      if raster {
        MulMonotone(1, height, if srcRow == 0 then width * elementSize else srcRow);
      } else {
        var tile := TileSize(elementSize);
        DefaultPitch(width, tile.x, elementSize);
        DefaultPitch(height, tile.y, LTRowPitch(width, elementSize, srcRow));
      }
    }
  }

  /** Rounding up in one division. */
  lemma RoundUpBy(n: nat, m: nat)
    requires m > 0
    ensures RoundUp(n, m) == (n + m - 1) / m * m
  {
    var k, r := n / m, n % m;
    assert n == k * m + r;
    MulNext(k, m);
    if r == 0 {
      DigitsUnique((n + m - 1) / m, k, (n + m - 1) % m, m - 1, m);
    } else {
      DigitsUnique((n + m - 1) / m, k + 1, (n + m - 1) % m, r - 1, m);
    }
  }

  /** With the sizes of micro-tiles. */
  lemma RoundUpExact(n: nat)
    ensures RoundUp(n, 2) == (n + 1) / 2 * 2 && RoundUp(n, 4) == (n + 3) / 4 * 4 && RoundUp(n, 8) == (n + 7) / 8 * 8
  {
    RoundUpBy(n, 2);
    RoundUpBy(n, 4);
    RoundUpBy(n, 8);
    hide RoundUp;
  }

  /**
   Which pitches an LT image accepts and which it gets for 0: whole micro-tiles of 8 by 8, 8 by 4, 4 by 4 and 2 by 4
   pixels.
   */
  lemma LTPitchesExact(s: Shape, srcRow: nat, srcSlice: nat)
    requires s.Plausible() && !s.raster
    ensures var r, e := s.ApplyPitches(srcRow, srcSlice), s.elementSize;
      var row := if srcRow != 0 then srcRow
                 else if e == 1 then (s.width + 7) / 8 * 8
                 else if e == 2 then (s.width + 7) / 8 * 16
                 else if e == 4 then (s.width + 3) / 4 * 16
                 else (s.width + 1) / 2 * 16;
      var lines := if e == 1 then 8 else 4;
      && (if r.Success? then r.value == s.(rowPitch := r.value.rowPitch, slicePitch := r.value.slicePitch)
          else r.error == CL_INVALID_VALUE)
      && (r.Success? <==> srcRow % (if e == 1 then 8 else 16) == 0 && row > 0 && srcSlice % (lines * row) == 0)
      && (r.Success? ==> && r.value.rowPitch == row
                         && r.value.slicePitch == if srcSlice != 0 then srcSlice
                                                  else if e == 1 then (s.height + 7) / 8 * 8 * row
                                                  else (s.height + 3) / 4 * 4 * row)
  {
    RoundUpExact(s.width);
    RoundUpExact(s.height);
    assert TileRowBytes(s.elementSize) == if s.elementSize == 1 then 8 else 16;
    LTRowExact(s, srcRow);
  }

  lemma LTRowExact(s: Shape, srcRow: nat)
    requires s.Plausible() && !s.raster
    ensures LTRowPitch(s.width, s.elementSize, srcRow)
            == if srcRow != 0 then srcRow
               else if s.elementSize == 1 then (s.width + 7) / 8 * 8
               else if s.elementSize == 2 then (s.width + 7) / 8 * 16
               else if s.elementSize == 4 then (s.width + 3) / 4 * 16
               else (s.width + 1) / 2 * 16
  {
    RoundUpExact(s.width);
  }

  lemma RasterPitchesExact(s: Shape, srcRow: nat, srcSlice: nat)
    requires s.Plausible() && s.raster
    ensures var row := if srcRow != 0 then srcRow else s.width * s.elementSize;
      s.ApplyPitches(srcRow, srcSlice)
      == Success(s.(rowPitch := row, slicePitch := if srcSlice != 0 then srcSlice else s.height * row))
  {
  }

  lemma DefaultPitch(n: nat, multiple: nat, unit: nat)
    requires n > 0 && multiple > 0 && unit > 0
    ensures RoundUp(n, multiple) * unit >= n * unit > 0 && multiple * unit > 0
    ensures (RoundUp(n, multiple) * unit) % (multiple * unit) == 0
  {
    var q := RoundUpIsLeast(n, multiple, 0);
    MulMonotone(n, RoundUp(n, multiple), unit);
    MulMonotone(1, n, unit);
    MulMonotone(1, multiple, unit);
    assert q * multiple * unit == q * (multiple * unit);
    ModOfMultiple(q, multiple * unit);
  }

  // ---------- the address map ----------

  /**
   The address of a pixel, for every element size: micro-tiles of 64 bytes follow each other in rows, and inside a
   micro-tile of 8 by 8, 8 by 4, 4 by 4 or 2 by 4 pixels, the pixels do.
   */
  lemma LTOffsetExact(s: Shape, p: Point)
    requires s.Plausible() && !s.raster && s.Pitched()
    ensures s.elementSize == 1 ==>
      s.LTOffset(p) == (p.y / 8 * (s.rowPitch / 8) + p.x / 8) * 64 + p.y % 8 * 8 + p.x % 8 + p.z * s.slicePitch
    ensures s.elementSize == 2 ==>
      s.LTOffset(p) == (p.y / 4 * (s.rowPitch / 16) + p.x / 8) * 64 + p.y % 4 * 16 + p.x % 8 * 2 + p.z * s.slicePitch
    ensures s.elementSize == 4 ==>
      s.LTOffset(p) == (p.y / 4 * (s.rowPitch / 16) + p.x / 4) * 64 + p.y % 4 * 16 + p.x % 4 * 4 + p.z * s.slicePitch
    ensures s.elementSize == 8 ==>
      s.LTOffset(p) == (p.y / 4 * (s.rowPitch / 16) + p.x / 2) * 64 + p.y % 4 * 16 + p.x % 2 * 8 + p.z * s.slicePitch
  {
    assert TileRowBytes(s.elementSize) == if s.elementSize == 1 then 8 else 16;
    TileOffsetExact(s, p);
  }

  /** In raster order lines and slices follow each other at the pitches. */
  lemma RasterOffsetExact(s: Shape, p: Point)
    requires s.Plausible() && s.raster
    ensures s.PixelOffset(p) == p.x * s.elementSize + p.y * s.rowPitch + p.z * s.slicePitch
  {
  }

  lemma TileOffsetExact(s: Shape, p: Point)
    requires s.Plausible() && !s.raster
    ensures var t, perRow := TileSize(s.elementSize), s.TilesPerRow();
      s.LTSliceOffset(p)
      == (p.y / t.y * perRow + p.x / t.x) * 64 + (p.y % t.y * t.x + p.x % t.x) * s.elementSize
  {
  }

  /** A pixel of an LT image: the slice, the micro-tile and the place inside the micro-tile. */
  datatype Cell = Cell(z: nat, tile: Coordinates2D, inTile: Coordinates2D)

  function CellOf(p: Point, tile: Coordinates2D): Cell
    requires tile.x > 0 && tile.y > 0
  {
    Cell(p.z, TileIndex(p, tile), PixelIndex(p, tile))
  }

  lemma CellOfInjective(p: Point, q: Point, tile: Coordinates2D)
    requires tile.x > 0 && tile.y > 0 && CellOf(p, tile) == CellOf(q, tile)
    ensures p == q
  {
    assert p.x == p.x / tile.x * tile.x + p.x % tile.x && q.x == q.x / tile.x * tile.x + q.x % tile.x;
    assert p.y == p.y / tile.y * tile.y + p.y % tile.y && q.y == q.y / tile.y * tile.y + q.y % tile.y;
  }

  /** An LT image counted in micro-tiles: tiles per row and tile rows per slice. */
  datatype Tiling = Tiling(tile: Coordinates2D, perRow: nat, perSlice: nat)
  {
    function Area(): nat {
      tile.x * tile.y
    }

    function SliceTiles(): nat {
      perSlice * perRow
    }

    function InSlice(c: Cell): nat {
      c.tile.y * perRow + c.tile.x
    }

    function TileNumber(c: Cell): nat {
      c.z * SliceTiles() + InSlice(c)
    }

    function InTile(c: Cell): nat {
      c.inTile.y * tile.x + c.inTile.x
    }

    /** The place of a pixel when all pixels are counted in memory order. */
    function Index(c: Cell): nat {
      TileNumber(c) * Area() + InTile(c)
    }

    predicate Proper(c: Cell) {
      c.inTile.x < tile.x && c.inTile.y < tile.y
    }

    lemma InTileBound(c: Cell)
      requires Proper(c)
      ensures InTile(c) < Area()
    {
      MulGap(c.inTile.y, tile.y, tile.x);
    }

    /** Cells with one place are in the same micro-tile number, at the same position. */
    lemma SamePlace(c: Cell, d: Cell)
      requires Proper(c) && Proper(d) && Index(c) == Index(d)
      ensures TileNumber(c) == TileNumber(d) && c.inTile == d.inTile
    {
      InTileBound(c);
      InTileBound(d);
      DigitsUnique(TileNumber(c), TileNumber(d), InTile(c), InTile(d), Area());
      DigitsUnique(c.inTile.y, d.inTile.y, c.inTile.x, d.inTile.x, tile.x);
    }
  }

  function TilingOf(s: Shape): Tiling
    requires s.Plausible() && !s.raster && s.Pitched()
  {
    Tiling(TileSize(s.elementSize), s.rowPitch / TileRowBytes(s.elementSize),
           s.slicePitch / TileLineBytes(s.elementSize, s.rowPitch))
  }

  /** A slice is a whole number of 64-byte micro-tiles. */
  lemma SliceBytes(s: Shape)
    requires s.Plausible() && !s.raster && s.Pitched()
    ensures var t := TilingOf(s);
      && s.rowPitch == t.perRow * (t.tile.x * s.elementSize)
      && s.slicePitch == t.perSlice * (t.tile.y * s.rowPitch)
      && s.slicePitch == t.perSlice * t.perRow * MICROTILE_BYTES
  {
    var t := TilingOf(s);
    TileBytes(s.elementSize);
    assert s.rowPitch == t.perRow * TileRowBytes(s.elementSize);
    assert s.slicePitch == t.perSlice * TileLineBytes(s.elementSize, s.rowPitch);
    Reassociate(t.perSlice, t.perRow, t.tile.x, t.tile.y, s.elementSize);
  }

  lemma Reassociate(k: nat, t: nat, x: nat, y: nat, e: nat)
    ensures k * (y * (t * (x * e))) == k * t * (x * y * e)
  {
    assert y * (t * (x * e)) == t * (x * y * e);
  }

  lemma LTOffsetIsIndex(s: Shape, p: Point)
    requires s.Plausible() && !s.raster && s.Pitched()
    ensures var t := TilingOf(s); s.LTOffset(p) == t.Index(CellOf(p, t.tile)) * s.elementSize
  {
    SliceBytes(s);
    TileBytes(s.elementSize);
    OffsetOfCell(TilingOf(s), CellOf(p, TilingOf(s).tile), s.elementSize, s.slicePitch);
  }

  lemma OffsetOfCell(t: Tiling, c: Cell, e: nat, slicePitch: nat)
    requires t.tile.x * t.tile.y * e == MICROTILE_BYTES && slicePitch == t.SliceTiles() * MICROTILE_BYTES
    ensures t.Index(c) * e == t.TileNumber(c) * MICROTILE_BYTES + t.InTile(c) * e
    ensures t.Index(c) * e == t.InSlice(c) * MICROTILE_BYTES + t.InTile(c) * e + c.z * slicePitch
  {
    assert t.Index(c) * e == t.TileNumber(c) * (t.Area() * e) + t.InTile(c) * e;
    assert c.z * t.SliceTiles() * 64 == c.z * (t.SliceTiles() * 64);
  }

  /** The last column and row of micro-tiles with pixels of the image. */
  function LastTile(s: Shape): Coordinates2D
    requires s.Plausible() && !s.raster
  {
    var tile := TileSize(s.elementSize);
    Coordinates2D((s.width - 1) / tile.x, (s.height - 1) / tile.y)
  }

  /** The last micro-tile of a slice comes before the next slice. */
  predicate SliceHolds(s: Shape)
    requires s.Plausible() && !s.raster && s.Pitched()
  {
    var t, last := TilingOf(s), LastTile(s);
    last.y * t.perRow + last.x < t.SliceTiles()
  }

  /** The micro-tiles of a row come before those of the next row, if there is one. */
  predicate RowHolds(s: Shape)
    requires s.Plausible() && !s.raster && s.Pitched()
  {
    LastTile(s).x < TilingOf(s).perRow || LastTile(s).y == 0
  }

  lemma QuotientMonotone(a: nat, b: nat, d: nat)
    requires d > 0 && a <= b
    ensures a / d <= b / d
  {
    assert b < b / d * d + d == (b / d + 1) * d;
    QuotientBound(a, d, b / d + 1);
  }

  lemma CellWithin(s: Shape, p: Point)
    requires s.Plausible() && !s.raster && s.Pitched() && Inside(p, s.Box())
    ensures var t, last := TilingOf(s), LastTile(s);
      var c := CellOf(p, t.tile);
      && t.Proper(c) && c.tile.x <= last.x && c.tile.y <= last.y
      && t.InSlice(c) <= last.y * t.perRow + last.x
  {
    var t := TilingOf(s);
    QuotientMonotone(p.x, s.width - 1, t.tile.x);
    QuotientMonotone(p.y, s.height - 1, t.tile.y);
    MulMonotone(p.y / t.tile.y, LastTile(s).y, t.perRow);
  }

  /** The first pixel of a micro-tile that holds pixels of the image. */
  lemma FirstOfTile(s: Shape, tile: Coordinates2D, z: nat) returns (p: Point)
    requires s.Plausible() && !s.raster && s.Pitched() && z < s.depth
    requires tile.x <= LastTile(s).x && tile.y <= LastTile(s).y
    ensures Inside(p, s.Box()) && CellOf(p, TilingOf(s).tile) == Cell(z, tile, Coordinates2D(0, 0))
    ensures s.LTOffset(p)
            == (z * TilingOf(s).SliceTiles() + tile.y * TilingOf(s).perRow + tile.x) * MICROTILE_BYTES
  {
    var t := TilingOf(s);
    p := Point(tile.x * t.tile.x, tile.y * t.tile.y, z);
    TileStart(tile.x, t.tile.x, s.width);
    TileStart(tile.y, t.tile.y, s.height);
    LTOffsetIsIndex(s, p);
    SliceBytes(s);
    TileBytes(s.elementSize);
    OffsetOfCell(t, CellOf(p, t.tile), s.elementSize, s.slicePitch);
  }

  lemma TileStart(n: nat, size: nat, length: nat)
    requires size > 0 && length > 0 && n <= (length - 1) / size
    ensures n * size < length && (n * size) % size == 0 && (n * size) / size == n
  {
    ModOfMultiple(n, size);
    MulMonotone(n, (length - 1) / size, size);
  }

  /** All pixels are in the image memory exactly when the last micro-tile of a slice comes before the next slice. */
  lemma LTInMemoryExact(s: Shape)
    requires s.Plausible() && !s.raster && s.Pitched()
    ensures (forall p | Inside(p, s.Box()) :: s.LTOffset(p) + s.elementSize <= s.slicePitch * s.depth)
            <==> SliceHolds(s)
  {
    if SliceHolds(s) {
      forall p | Inside(p, s.Box()) ensures s.LTOffset(p) + s.elementSize <= s.slicePitch * s.depth {
        LTPixelBound(s, p);
      }
    } else {
      var p := FirstOfTile(s, LastTile(s), s.depth - 1);
      SliceBytes(s);
      PastLastSlice(LastTile(s).y * TilingOf(s).perRow + LastTile(s).x, TilingOf(s).SliceTiles(), s.depth);
    }
  }

  lemma PastLastSlice(tile: nat, tiles: nat, depth: nat)
    requires tile >= tiles && depth > 0
    ensures ((depth - 1) * tiles + tile) * MICROTILE_BYTES >= tiles * MICROTILE_BYTES * depth
  {
    assert (depth - 1) * tiles + tiles == depth * tiles;
    assert depth * tiles * 64 == tiles * 64 * depth;
  }

  lemma LTPixelBound(s: Shape, p: Point)
    requires s.Plausible() && !s.raster && s.Pitched() && SliceHolds(s) && Inside(p, s.Box())
    ensures s.LTOffset(p) + s.elementSize <= s.slicePitch * s.depth
  {
    var t, e := TilingOf(s), s.elementSize;
    var c := CellOf(p, t.tile);
    CellWithin(s, p);
    LTOffsetIsIndex(s, p);
    SliceBytes(s);
    TileBytes(e);
    OffsetOfCell(t, c, e, s.slicePitch);
    t.InTileBound(c);
    MulGap(t.InTile(c), t.Area(), e);
    MulMonotone(c.z + 1, s.depth, s.slicePitch);
  }

  /** A slice that is too short has a micro-tile where the next slice begins. */
  lemma TileAtSliceEnd(s: Shape) returns (tile: Coordinates2D)
    requires s.Plausible() && !s.raster && s.Pitched() && RowHolds(s) && !SliceHolds(s)
    ensures tile.x <= LastTile(s).x && tile.y <= LastTile(s).y
    ensures tile.y * TilingOf(s).perRow + tile.x == TilingOf(s).SliceTiles()
  {
    var t, last := TilingOf(s), LastTile(s);
    if last.x < t.perRow {
      tile := Coordinates2D(0, t.perSlice);
      EnoughRows(last.x, last.y, t.perRow, t.perSlice);
    } else {
      tile := Coordinates2D(t.SliceTiles(), 0);
    }
  }

  lemma EnoughRows(x: nat, y: nat, d: nat, n: nat)
    requires x < d && y * d + x >= n * d
    ensures n <= y
  {
    MulNext(y, d);
    MulCancel(n, y + 1, d);
  }

  lemma SliceRunsOver(s: Shape) returns (p: Point, q: Point)
    requires s.Plausible() && !s.raster && s.Pitched() && RowHolds(s) && !SliceHolds(s) && s.depth > 1
    ensures Inside(p, s.Box()) && Inside(q, s.Box()) && p != q && s.LTOffset(p) == s.LTOffset(q)
  {
    var tile := TileAtSliceEnd(s);
    p := FirstOfTile(s, tile, 0);
    q := FirstOfTile(s, Coordinates2D(0, 0), 1);
  }

  /** A row that is too short has a micro-tile where the next row begins. */
  lemma RowRunsOver(s: Shape) returns (p: Point, q: Point)
    requires s.Plausible() && !s.raster && s.Pitched() && !RowHolds(s)
    ensures Inside(p, s.Box()) && Inside(q, s.Box()) && p != q && s.LTOffset(p) == s.LTOffset(q)
  {
    var t := TilingOf(s);
    SliceBytes(s);
    p := FirstOfTile(s, Coordinates2D(t.perRow, 0), 0);
    q := FirstOfTile(s, Coordinates2D(0, 1), 0);
  }

  predicate LTSpacious(s: Shape)
    requires s.Plausible() && !s.raster && s.Pitched()
  {
    RowHolds(s) && (s.depth == 1 || SliceHolds(s))
  }

  lemma CellsDiffer(s: Shape, p: Point, q: Point)
    requires s.Plausible() && !s.raster && s.Pitched() && LTSpacious(s)
    requires Inside(p, s.Box()) && Inside(q, s.Box()) && p != q
    ensures TilingOf(s).Index(CellOf(p, TilingOf(s).tile)) != TilingOf(s).Index(CellOf(q, TilingOf(s).tile))
  {
    var t := TilingOf(s);
    var c, d := CellOf(p, t.tile), CellOf(q, t.tile);
    CellWithin(s, p);
    CellWithin(s, q);
    if t.Index(c) == t.Index(d) {
      t.SamePlace(c, d);
      if s.depth > 1 {
        DigitsUnique(c.z, d.z, t.InSlice(c), t.InSlice(d), t.SliceTiles());
      }
      if LastTile(s).y > 0 {
        DigitsUnique(c.tile.y, d.tile.y, c.tile.x, d.tile.x, t.perRow);
      }
      CellOfInjective(p, q, t.tile);
    }
  }

  /** Different LT pixels share no byte. */
  lemma LTPixelsApart(s: Shape, p: Point, q: Point)
    requires s.Plausible() && !s.raster && s.Pitched() && LTSpacious(s)
    requires Inside(p, s.Box()) && Inside(q, s.Box()) && p != q
    ensures Apart(s.LTOffset(p), s.elementSize, s.LTOffset(q), s.elementSize)
  {
    var t := TilingOf(s);
    var m, n := t.Index(CellOf(p, t.tile)), t.Index(CellOf(q, t.tile));
    LTOffsetIsIndex(s, p);
    LTOffsetIsIndex(s, q);
    CellsDiffer(s, p, q);
    if m < n {
      MulGap(m, n, s.elementSize);
    } else {
      MulGap(n, m, s.elementSize);
    }
  }

  /** Of all pitches an LT image can have, exactly the spacious ones keep all pixels separate. */
  lemma LTSeparatedExact(s: Shape)
    requires s.Plausible() && !s.raster && s.Pitched()
    ensures (forall p, q | Inside(p, s.Box()) && Inside(q, s.Box()) && p != q ::
               Apart(s.LTOffset(p), s.elementSize, s.LTOffset(q), s.elementSize))
            <==> LTSpacious(s)
  {
    if LTSpacious(s) {
      forall p, q | Inside(p, s.Box()) && Inside(q, s.Box()) && p != q
        ensures Apart(s.LTOffset(p), s.elementSize, s.LTOffset(q), s.elementSize)
      {
        LTPixelsApart(s, p, q);
      }
    } else if RowHolds(s) {
      var p, q := SliceRunsOver(s);
    } else {
      var p, q := RowRunsOver(s);
    }
  }

  /** Pitches with room for all lines are spacious, the computed ones among them. */
  lemma RoomyHolds(s: Shape)
    requires s.Plausible() && !s.raster && s.Pitched() && s.Roomy()
    ensures RowHolds(s) && SliceHolds(s)
  {
    var t, e, last := TilingOf(s), s.elementSize, LastTile(s);
    SliceBytes(s);
    LastTileFits(s.width, t.tile.x, e, t.perRow, s.rowPitch);
    LastTileFits(s.height, t.tile.y, s.rowPitch, t.perSlice, s.slicePitch);
    MulGap(last.y, t.perSlice, t.perRow);
  }

  lemma LastTileFits(length: nat, size: nat, unit: nat, tiles: nat, pitch: nat)
    requires length > 0 && size > 0 && pitch == tiles * (size * unit) && pitch >= length * unit && unit > 0
    ensures (length - 1) / size < tiles
  {
    assert tiles * (size * unit) == tiles * size * unit;
    MulGap(length - 1, length, unit);
    MulCancel(length - 1, tiles * size, unit);
    QuotientBound(length - 1, size, tiles);
  }

  /** Accepted pitches that are too short: half a row, and half a slice. */
  lemma ShortPitchesAccepted()
    ensures var r := Shape(8, 4, 1, 4, false, 0, 0).ApplyPitches(16, 64);
      r.Success? && r.value.slicePitch >= r.value.height * r.value.rowPitch && !SliceHolds(r.value)
    ensures var r := Shape(4, 8, 2, 4, false, 0, 0).ApplyPitches(16, 64);
      r.Success? && !LTSpacious(r.value)
  {
  }

  // ---------- both orders ----------

  /** The pitches, and with them the layout, have room for all pixels. */
  predicate Spacious(s: Shape)
    requires s.Plausible() && s.Pitched()
  {
    if s.raster then
      RasterSpacious(s.Box(), s.elementSize, s.rowPitch, s.slicePitch)
      && (s.height - 1) * s.rowPitch + s.width * s.elementSize <= s.slicePitch
    else RowHolds(s) && SliceHolds(s)
  }

  /** Pitches with room for whole lines do, among them all computed ones. */
  lemma RoomyIsSpacious(s: Shape)
    requires s.Plausible() && s.Pitched() && s.Roomy()
    ensures Spacious(s)
  {
    if s.raster {
      MulNext(s.height - 1, s.rowPitch);
    } else {
      RoomyHolds(s);
    }
  }
}
