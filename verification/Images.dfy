/**
 Images with their pixel memory: the methods of the texture accessors (src/TextureFormat.cpp).
 */
module Images {
  import opened Boxes
  import opened PixelLoops
  import opened Textures
  import opened Transfers
  import opened Wrappers

  // ---------- the checks before a copy is queued ----------

  datatype ImageType = Image1D | Image1DBuffer | Image1DArray | Image2D | Image2DArray | Image3D
  {
    function Dimensions(): nat {
      match this
      case Image2D => 2
      case Image2DArray => 2
      case Image3D => 3
      case _ => 1
    }

    predicate IsArray() {
      Image1DArray? || Image2DArray?
    }

    function Coordinates(): nat {
      Dimensions() + if IsArray() then 1 else 0
    }
  }

  /**
   checkImageAccess, for an image whose box has the array size as its last coordinate. The second pair of tests is meant
   for the region.
   */
  predicate AccessAllowed(t: ImageType, box: Point, yuv: bool, origin: Point, region: Point) {
    && (origin.z == 0 || t.Coordinates() >= 3) && (origin.y == 0 || t.Coordinates() >= 2)
    && region.x != 0 && region.y != 0 && region.z != 0
    && (origin.z == 1 || t.Coordinates() >= 3) && (origin.y == 1 || t.Coordinates() >= 2)
    && 1 <= origin.x + region.x <= box.x
    && 1 <= origin.y + region.y <= box.y
    && (t.Dimensions() > 2 || (t.Dimensions() == 2 && t.IsArray()) ==> 1 <= origin.z + region.z <= box.z)
    && (yuv ==> origin.x % 2 == 0 && region.x % 2 == 0)
  }

  predicate Overlaps(a: nat, b: nat, length: nat) {
    (a <= b && a + length > b) || (b <= a && b + length > a)
  }

  /** The checks of enqueueCopyInto. Both regions are compared with the size of the source image. */
  predicate CopyAllowed(t: ImageType, srcBox: Point, yuv: bool, srcOrigin: Point, dstOrigin: Point, region: Point,
                        same: bool) {
    && AccessAllowed(t, srcBox, yuv, srcOrigin, region) && AccessAllowed(t, srcBox, yuv, dstOrigin, region)
    && (same ==>
          !(&& Overlaps(srcOrigin.x, dstOrigin.x, region.x)
            && (t.Dimensions() > 1 || t.IsArray()) && Overlaps(srcOrigin.y, dstOrigin.y, region.y)
            && (t.Dimensions() > 2 || (t.Dimensions() == 2 && t.IsArray()))
            && Overlaps(srcOrigin.z, dstOrigin.z, region.z)))
  }

  /** Copies are accepted for images with three coordinates only, and inside one image exactly if regions are apart. */
  lemma CopyAllowedExact(t: ImageType, srcBox: Point, yuv: bool, srcOrigin: Point, dstOrigin: Point, region: Point,
                         same: bool)
    ensures CopyAllowed(t, srcBox, yuv, srcOrigin, dstOrigin, region, same) <==>
            && (t.Image2DArray? || t.Image3D?) && region.x > 0 && region.y > 0 && region.z > 0
            && Part(srcOrigin, region, srcBox) && Part(dstOrigin, region, srcBox)
            && (yuv ==> srcOrigin.x % 2 == dstOrigin.x % 2 == region.x % 2 == 0)
            && (same ==> RegionsApart(srcOrigin, dstOrigin, region))
  {
    assert t.Coordinates() >= 3 <==> t.Image2DArray? || t.Image3D?;
  }

  /** So an accepted copy inside one image does what a simultaneous copy does. */
  lemma AllowedCopyInside(t: ImageType, s: Shape, yuv: bool, srcOrigin: Point, dstOrigin: Point, region: Point,
                          mem: seq<byte>)
    requires s.Plausible() && s.Pitched() && Spacious(s) && |mem| == s.slicePitch * s.depth
    requires CopyAllowed(t, s.Box(), yuv, srcOrigin, dstOrigin, region, true)
    ensures var image := ImageLayout(s);
      && Part(srcOrigin, region, image.box) && Part(dstOrigin, region, image.box) && image.Within(|mem|)
      && AllFit(BoxMoves(region, PixelMove(image, dstOrigin, image, srcOrigin)), |mem|, |mem|)
      && RegionCopied(mem, Run(mem, Same, BoxMoves(region, PixelMove(image, dstOrigin, image, srcOrigin))),
                      image, dstOrigin, region, mem, image, srcOrigin)
  {
    hide Run, RegionCopied, Spacious, CopyAllowed, AccessAllowed;
    CopyAllowedExact(t, s.Box(), yuv, srcOrigin, dstOrigin, region, true);
    ImagePixelsSeparated(s);
    CopyInsideExact(|mem|, ImageLayout(s), dstOrigin, srcOrigin, region);
  }

  /** An accepted copy to a destination that is smaller than the region. */
  lemma DestinationNotChecked()
    ensures CopyAllowed(Image3D, Point(2, 1, 1), false, ORIGIN, ORIGIN, Point(2, 1, 1), false)
    ensures !Part(ORIGIN, Point(2, 1, 1), Point(1, 1, 1))
  {
  }

  // ---------- the accessors ----------

  class Image {
    const width: nat
    const height: nat
    const depth: nat
    const elementSize: nat
    const raster: bool
    const data: array<byte>
    var rowPitch: nat
    var slicePitch: nat

    constructor (width: nat, height: nat, depth: nat, elementSize: nat, raster: bool, data: array<byte>)
      ensures View() == Shape(width, height, depth, elementSize, raster, 0, 0) && this.data == data
    {
      this.width, this.height, this.depth := width, height, depth;
      this.elementSize, this.raster, this.data := elementSize, raster, data;
      rowPitch, slicePitch := 0, 0;
    }

    function View(): Shape
      reads this
    {
      Shape(width, height, depth, elementSize, raster, rowPitch, slicePitch)
    }

    /** The region is part of the image and all pixels of the image are in its memory. */
    ghost predicate Accessible(origin: Point, region: Point)
      reads this
    {
      View().Plausible() && Part(origin, region, View().Box()) && ImageLayout(View()).Within(data.Length)
    }

    /** checkAndApplyPitches of the raster accessor. */
    method ApplyRasterPitches(srcRow: nat, srcSlice: nat) returns (err: int)
      requires View().Plausible() && raster
      modifies this`rowPitch, this`slicePitch
      ensures err == CL_SUCCESS && old(View()).ApplyPitches(srcRow, srcSlice) == Success(View())
    {
      rowPitch := if srcRow == 0 then width * elementSize else srcRow;
      slicePitch := if srcSlice == 0 then height * rowPitch else srcSlice;
      return CL_SUCCESS;
    }

    /** checkAndApplyPitches of the LT accessor; a slice pitch that does not fit leaves the new row pitch behind. */
    method ApplyLTPitches(srcRow: nat, srcSlice: nat) returns (err: int)
      requires View().Plausible() && !raster
      modifies this`rowPitch, this`slicePitch
      ensures err == CL_SUCCESS ==> old(View()).ApplyPitches(srcRow, srcSlice) == Success(View())
      ensures err != CL_SUCCESS ==> old(View()).ApplyPitches(srcRow, srcSlice) == Failure(err)
      ensures err != CL_SUCCESS ==> slicePitch == old(slicePitch)
      ensures err != CL_SUCCESS ==> rowPitch == old(rowPitch) || rowPitch == LTRowPitch(width, elementSize, srcRow)
    {
      ghost var s := View();
      if srcRow % TileRowBytes(elementSize) != 0 {
        assert s.ApplyPitches(srcRow, srcSlice) == Failure(CL_INVALID_VALUE);
        return CL_INVALID_VALUE;
      }
      var row := LTRowPitch(width, elementSize, srcRow);
      rowPitch := row;
      if srcSlice % TileLineBytes(elementSize, row) != 0 {
        assert s.ApplyPitches(srcRow, srcSlice) == Failure(CL_INVALID_VALUE);
        return CL_INVALID_VALUE;
      }
      slicePitch := LTSlicePitch(height, elementSize, row, srcSlice);
      assert s.ApplyPitches(srcRow, srcSlice) == Success(s.(rowPitch := rowPitch, slicePitch := slicePitch));
      return CL_SUCCESS;
    }

    /** The pixel loops of the base accessor, from host memory into the image. */
    method WritePixelData(origin: Point, region: Point, host: array<byte>, row: nat, slice: nat)
      requires Accessible(origin, region) && host != data
      requires HostLayout(region, elementSize, row, slice).Within(host.Length)
      modifies data
      ensures var image, from := ImageLayout(View()), HostLayout(region, elementSize, row, slice);
        && AllFit(BoxMoves(region, PixelMove(image, origin, from, ORIGIN)), data.Length, host.Length)
        && data[..] == Run(old(data[..]), Other(host[..]), BoxMoves(region, PixelMove(image, origin, from, ORIGIN)))
        && (image.Separated() ==> RegionCopied(old(data[..]), data[..], image, origin, region, host[..], from, ORIGIN))
    {
      var image, from := ImageLayout(View()), HostLayout(region, elementSize, row, slice);
      ghost var mem := data[..];
      PixelMovesFit(image, origin, region, from, ORIGIN, data.Length, host.Length);
      Execute(region, PixelMove(image, origin, from, ORIGIN), data, host);
      if image.Separated() {
        PixelLoopsCopyRegion(mem, image, origin, region, host[..], from, ORIGIN);
      }
    }

    /** The pixel loops of the base accessor, from the image into host memory. */
    method ReadPixelData(origin: Point, region: Point, host: array<byte>, row: nat, slice: nat)
      requires Accessible(origin, region) && host != data
      requires HostLayout(region, elementSize, row, slice).Within(host.Length)
      modifies host
      ensures var image, out := ImageLayout(View()), HostLayout(region, elementSize, row, slice);
        && AllFit(BoxMoves(region, PixelMove(out, ORIGIN, image, origin)), host.Length, data.Length)
        && host[..] == Run(old(host[..]), Other(data[..]), BoxMoves(region, PixelMove(out, ORIGIN, image, origin)))
        && (out.Separated() ==> RegionCopied(old(host[..]), host[..], out, ORIGIN, region, data[..], image, origin))
    {
      var image, out := ImageLayout(View()), HostLayout(region, elementSize, row, slice);
      ghost var mem := host[..];
      PixelMovesFit(out, ORIGIN, region, image, origin, host.Length, data.Length);
      Execute(region, PixelMove(out, ORIGIN, image, origin), host, data);
      if out.Separated() {
        PixelLoopsCopyRegion(mem, out, ORIGIN, region, data[..], image, origin);
      }
    }

    /** One colour for all pixels of the region. */
    method FillPixelData(origin: Point, region: Point, colour: array<byte>)
      requires Accessible(origin, region) && colour != data && colour.Length >= elementSize
      modifies data
      ensures var image, from := ImageLayout(View()), ColourLayout(region, elementSize);
        && AllFit(BoxMoves(region, PixelMove(image, origin, from, ORIGIN)), data.Length, colour.Length)
        && data[..] == Run(old(data[..]), Other(colour[..]), BoxMoves(region, PixelMove(image, origin, from, ORIGIN)))
        && (image.Separated() ==>
              RegionCopied(old(data[..]), data[..], image, origin, region, colour[..], from, ORIGIN))
        && (image.Aligned() ==> forall p :: Inside(p, region) ==>
              Pixel(data[..], image, Shifted(origin, p)) == colour[..elementSize])
    {
      var image, from := ImageLayout(View()), ColourLayout(region, elementSize);
      ghost var mem := data[..];
      PixelMovesFit(image, origin, region, from, ORIGIN, data.Length, colour.Length);
      Execute(region, PixelMove(image, origin, from, ORIGIN), data, colour);
      if image.Separated() {
        PixelLoopsCopyRegion(mem, image, origin, region, colour[..], from, ORIGIN);
      }
      if image.Aligned() {
        FillsRegion(mem, image, origin, region, colour[..]);
      }
    }

    /** The scan-line version for raster images does exactly what the pixel loops do. */
    method WriteLines(origin: Point, region: Point, host: array<byte>, row: nat, slice: nat)
      requires View().Plausible() && raster && host != data
      requires var image, from := ImageLayout(View()), HostLayout(region, elementSize, row, slice);
        AllFit(BoxMoves(Lines(region), LineMove(region, elementSize, PixelMove(image, origin, from, ORIGIN))),
               data.Length, host.Length)
      modifies data
      ensures var image, from := ImageLayout(View()), HostLayout(region, elementSize, row, slice);
        && AllFit(BoxMoves(region, PixelMove(image, origin, from, ORIGIN)), data.Length, host.Length)
        && data[..] == Run(old(data[..]), Other(host[..]), BoxMoves(region, PixelMove(image, origin, from, ORIGIN)))
    {
      var image, from := ImageLayout(View()), HostLayout(region, elementSize, row, slice);
      ghost var mem := data[..];
      RasterLinesRefine(View(), origin, region, row, slice);
      LinesRefinePixels(mem, host[..], region, elementSize, PixelMove(image, origin, from, ORIGIN));
      Execute(Lines(region), LineMove(region, elementSize, PixelMove(image, origin, from, ORIGIN)), data, host);
    }

    method ReadLines(origin: Point, region: Point, host: array<byte>, row: nat, slice: nat)
      requires View().Plausible() && raster && host != data
      requires var image, out := ImageLayout(View()), HostLayout(region, elementSize, row, slice);
        AllFit(BoxMoves(Lines(region), LineMove(region, elementSize, PixelMove(out, ORIGIN, image, origin))),
               host.Length, data.Length)
      modifies host
      ensures var image, out := ImageLayout(View()), HostLayout(region, elementSize, row, slice);
        && AllFit(BoxMoves(region, PixelMove(out, ORIGIN, image, origin)), host.Length, data.Length)
        && host[..] == Run(old(host[..]), Other(data[..]), BoxMoves(region, PixelMove(out, ORIGIN, image, origin)))
    {
      var image, out := ImageLayout(View()), HostLayout(region, elementSize, row, slice);
      ghost var mem := host[..];
      RasterLinesRefine(View(), origin, region, row, slice);
      LinesRefinePixels(mem, data[..], region, elementSize, PixelMove(out, ORIGIN, image, origin));
      Execute(Lines(region), LineMove(region, elementSize, PixelMove(out, ORIGIN, image, origin)), host, data);
    }

    /** Pixel by pixel from one image to another one of the same format, or inside one image. */
    static method CopyPixelData(src: Image, dst: Image, srcOrigin: Point, dstOrigin: Point, region: Point)
      requires src.Accessible(srcOrigin, region) && dst.Accessible(dstOrigin, region)
      requires src.elementSize == dst.elementSize && (src == dst || src.data != dst.data)
      modifies dst.data
      ensures var d, s := ImageLayout(dst.View()), ImageLayout(src.View());
        && AllFit(BoxMoves(region, PixelMove(d, dstOrigin, s, srcOrigin)), dst.data.Length, src.data.Length)
        && dst.data[..] == Run(old(dst.data[..]), if src == dst then Same else Other(old(src.data[..])),
                               BoxMoves(region, PixelMove(d, dstOrigin, s, srcOrigin)))
        && (d.Separated() && (src != dst || RegionsApart(srcOrigin, dstOrigin, region)
                              || !Earlier(srcOrigin, dstOrigin)) ==>
              RegionCopied(old(dst.data[..]), dst.data[..], d, dstOrigin, region, old(src.data[..]), s, srcOrigin))
    {
      var d, s := ImageLayout(dst.View()), ImageLayout(src.View());
      ghost var mem, from := dst.data[..], src.data[..];
      PixelMovesFit(d, dstOrigin, region, s, srcOrigin, dst.data.Length, src.data.Length);
      Execute(region, PixelMove(d, dstOrigin, s, srcOrigin), dst.data, src.data);
      if d.Separated() && (src != dst || RegionsApart(srcOrigin, dstOrigin, region)
                           || !Earlier(srcOrigin, dstOrigin)) {
        PixelLoopsCopyRegion(mem, d, dstOrigin, region, from, s, srcOrigin);
        if src == dst {
          PixelMovesSeparate(d, dstOrigin, region, s, srcOrigin);
          RegionsReadIntact(d, dstOrigin, srcOrigin, region);
          RunInPlace(mem, BoxMoves(region, PixelMove(d, dstOrigin, s, srcOrigin)));
        }
      }
    }
  }
}
