/**
 The loops that move pixels between images and host memory (src/TextureFormat.cpp), for any pixel order, and the
 scan-line version used for raster images.
 */
module PixelLoops {
  import opened Arithmetic
  import opened Boxes
  import opened Rasters
  import opened Textures
  import opened Transfers

  /** Where the pixels of a box are in a memory. */
  datatype Layout = Layout(box: Point, size: nat, at: Point -> nat)
  {
    ghost predicate Within(length: nat) {
      forall p :: Inside(p, box) ==> at(p) + size <= length
    }

    ghost predicate Separated() {
      forall p, q :: Inside(p, box) && Inside(q, box) && p != q ==> Apart(at(p), size, at(q), size)
    }

    /** Pixels may share their bytes, but then all of them. */
    ghost predicate Aligned() {
      forall p, q :: Inside(p, box) && Inside(q, box) ==> at(p) == at(q) || Apart(at(p), size, at(q), size)
    }
  }

  function ImageLayout(s: Shape): Layout
    requires s.Plausible()
  {
    Layout(s.Box(), s.elementSize, p => s.PixelOffset(p))
  }

  /** Host memory holding a region line by line. */
  function HostLayout(region: Point, elementSize: nat, rowPitch: nat, slicePitch: nat): Layout {
    Layout(region, elementSize, p => RasterAddress(p, elementSize, rowPitch, slicePitch))
  }

  /** A colour used for every pixel of the region. */
  function ColourLayout(region: Point, elementSize: nat): Layout {
    Layout(region, elementSize, _ => 0)
  }

  /** The pixels of an image are separate and inside the image memory exactly when its pitches are spacious. */
  lemma ImagePixelsSeparated(s: Shape)
    requires s.Plausible() && s.Pitched()
    ensures ImageLayout(s).Within(s.slicePitch * s.depth) && ImageLayout(s).Separated() <==> Spacious(s)
  {
    if s.raster {
      RasterImageExact(s);
    } else {
      LTInMemoryExact(s);
      LTSeparatedExact(s);
    }
  }

  lemma RasterImageExact(s: Shape)
    requires s.Plausible() && s.Pitched() && s.raster
    ensures ImageLayout(s).Within(s.slicePitch * s.depth) && ImageLayout(s).Separated() <==> Spacious(s)
  {
    var box, e, row, slice := s.Box(), s.elementSize, s.rowPitch, s.slicePitch;
    RasterInMemoryExact(box, e, row, slice);
    RasterSeparatedExact(box, e, row, slice);
    if (box.y - 1) * row + box.x * e <= slice {
      LinesApartExact(box, e, row, slice);
    }
  }

  /** LT pixels are aligned whatever the pitches are. */
  lemma LTPixelsAligned(s: Shape)
    requires s.Plausible() && s.Pitched() && !s.raster
    ensures ImageLayout(s).Aligned()
  {
    forall p, q | Inside(p, s.Box()) && Inside(q, s.Box())
      ensures
        s.PixelOffset(p) == s.PixelOffset(q) || Apart(s.PixelOffset(p), s.elementSize, s.PixelOffset(q), s.elementSize)
    {
      var t := TilingOf(s);
      var m, n := t.Index(CellOf(p, t.tile)), t.Index(CellOf(q, t.tile));
      LTOffsetIsIndex(s, p);
      LTOffsetIsIndex(s, q);
      if m < n {
        MulGap(m, n, s.elementSize);
      } else if n < m {
        MulGap(n, m, s.elementSize);
      }
    }
  }

  lemma HostPixelsSeparated(region: Point, e: nat, row: nat, slice: nat)
    requires region.x > 0 && region.y > 0 && region.z > 0 && e > 0
    ensures HostLayout(region, e, row, slice).Separated() <==> LinesApart(region, e, row, slice)
  {
    RasterSeparatedExact(region, e, row, slice);
  }

  /** The region at this origin is part of the box. */
  predicate Part(origin: Point, region: Point, box: Point) {
    origin.x + region.x <= box.x && origin.y + region.y <= box.y && origin.z + region.z <= box.z
  }

  function Pixel(mem: seq<byte>, l: Layout, p: Point): seq<byte>
    requires l.at(p) + l.size <= |mem|
  {
    mem[l.at(p)..l.at(p) + l.size]
  }

  /** One pixel of a region, from one layout to another. */
  function PixelMove(d: Layout, dOrigin: Point, s: Layout, sOrigin: Point): Point -> Move {
    (p: Point) => Move(d.at(Shifted(dOrigin, p)), s.at(Shifted(sOrigin, p)), d.size)
  }

  /** Every pixel of the region holds its source pixel, every other byte is as before. */
  ghost predicate RegionCopied(before: seq<byte>, after: seq<byte>, d: Layout, dOrigin: Point, region: Point,
                               from: seq<byte>, s: Layout, sOrigin: Point)
    requires d.Within(|before|) && Part(dOrigin, region, d.box) && s.Within(|from|) && Part(sOrigin, region, s.box)
  {
    && |after| == |before|
    && (forall p :: Inside(p, region) ==>
          Pixel(after, d, Shifted(dOrigin, p)) == Pixel(from, s, Shifted(sOrigin, p)))
    && (forall k :: 0 <= k < |after| && (forall p :: Inside(p, region) ==> !Touches(d, Shifted(dOrigin, p), k)) ==>
          after[k] == before[k])
  }

  predicate Touches(l: Layout, p: Point, k: int) {
    l.at(p) <= k < l.at(p) + l.size
  }

  lemma PixelMovesFit(d: Layout, dOrigin: Point, region: Point, s: Layout, sOrigin: Point, dLength: nat, sLength: nat)
    requires d.Within(dLength) && Part(dOrigin, region, d.box) && s.Within(sLength) && Part(sOrigin, region, s.box)
    requires d.size == s.size
    ensures AllFit(BoxMoves(region, PixelMove(d, dOrigin, s, sOrigin)), dLength, sLength)
  {
    forall p | Inside(p, region) ensures Fits(PixelMove(d, dOrigin, s, sOrigin)(p), dLength, sLength) {
      assert Inside(Shifted(dOrigin, p), d.box) && Inside(Shifted(sOrigin, p), s.box);
    }
    BoxFits(region, PixelMove(d, dOrigin, s, sOrigin), dLength, sLength);
  }

  lemma PixelMovesSeparate(d: Layout, dOrigin: Point, region: Point, s: Layout, sOrigin: Point)
    requires d.Separated() && Part(dOrigin, region, d.box)
    ensures Separate(BoxMoves(region, PixelMove(d, dOrigin, s, sOrigin)))
  {
    var at := PixelMove(d, dOrigin, s, sOrigin);
    forall p, q | Inside(p, region) && Inside(q, region) && p != q ensures Apart(at(p).d, at(p).n, at(q).d, at(q).n) {
      assert Inside(Shifted(dOrigin, p), d.box) && Inside(Shifted(dOrigin, q), d.box);
      assert Shifted(dOrigin, p) != Shifted(dOrigin, q);
    }
    BoxSeparate(region, at);
  }

  /** The pixel loops copy the region as if all pixels moved at once. */
  lemma PixelLoopsCopyRegion(mem: seq<byte>, d: Layout, dOrigin: Point, region: Point,
                             from: seq<byte>, s: Layout, sOrigin: Point)
    requires d.Within(|mem|) && Part(dOrigin, region, d.box) && s.Within(|from|) && Part(sOrigin, region, s.box)
    requires d.size == s.size && d.Separated()
    ensures AllFit(BoxMoves(region, PixelMove(d, dOrigin, s, sOrigin)), |mem|, |from|)
    ensures RegionCopied(mem, Run(mem, Other(from), BoxMoves(region, PixelMove(d, dOrigin, s, sOrigin))),
                         d, dOrigin, region, from, s, sOrigin)
  {
    var moves := BoxMoves(region, PixelMove(d, dOrigin, s, sOrigin));
    PixelMovesFit(d, dOrigin, region, s, sOrigin, |mem|, |from|);
    PixelMovesSeparate(d, dOrigin, region, s, sOrigin);
    RunTransfers(mem, from, moves);
    TransferCopiesRegion(mem, Run(mem, Other(from), moves), d, dOrigin, region, from, s, sOrigin);
  }

  lemma TransferCopiesRegion(mem: seq<byte>, after: seq<byte>, d: Layout, dOrigin: Point, region: Point,
                             from: seq<byte>, s: Layout, sOrigin: Point)
    requires d.Within(|mem|) && Part(dOrigin, region, d.box) && s.Within(|from|) && Part(sOrigin, region, s.box)
    requires d.size == s.size && AllFit(BoxMoves(region, PixelMove(d, dOrigin, s, sOrigin)), |mem|, |from|)
    requires Transferred(mem, after, from, BoxMoves(region, PixelMove(d, dOrigin, s, sOrigin)))
    ensures RegionCopied(mem, after, d, dOrigin, region, from, s, sOrigin)
  {
    forall p | Inside(p, region)
      ensures Pixel(after, d, Shifted(dOrigin, p)) == Pixel(from, s, Shifted(sOrigin, p))
    {
      BoxMoved(region, PixelMove(d, dOrigin, s, sOrigin), mem, after, from, p);
    }
    forall k | 0 <= k < |after| && (forall p :: Inside(p, region) ==> !Touches(d, Shifted(dOrigin, p), k))
      ensures after[k] == mem[k]
    {
      NotWritten(d, dOrigin, region, s, sOrigin, k);
    }
  }

  lemma NotWritten(d: Layout, dOrigin: Point, region: Point, s: Layout, sOrigin: Point, k: int)
    requires forall p :: Inside(p, region) ==> !Touches(d, Shifted(dOrigin, p), k)
    ensures !Writes(BoxMoves(region, PixelMove(d, dOrigin, s, sOrigin)), k)
  {
    PointsCoverBox(region);
    forall j | 0 <= j < |Points(region)| ensures !Touches(d, Shifted(dOrigin, Points(region)[j]), k) {
      assert Points(region)[j] in Points(region);
    }
  }

  /** One colour arrives in every pixel of the region even if pixels share their bytes. */
  lemma FillsRegion(mem: seq<byte>, d: Layout, origin: Point, region: Point, colour: seq<byte>)
    requires d.Within(|mem|) && Part(origin, region, d.box) && d.size <= |colour| && d.Aligned()
    ensures var moves := BoxMoves(region, PixelMove(d, origin, ColourLayout(region, d.size), ORIGIN));
      && AllFit(moves, |mem|, |colour|)
      && forall p :: Inside(p, region) ==>
           Pixel(Run(mem, Other(colour), moves), d, Shifted(origin, p)) == colour[..d.size]
  {
    var c := ColourLayout(region, d.size);
    var at := PixelMove(d, origin, c, ORIGIN);
    var moves := BoxMoves(region, at);
    PixelMovesFit(d, origin, region, c, ORIGIN, |mem|, |colour|);
    PointsCoverBox(region);
    forall j, k | 0 <= j < k < |moves|
      ensures moves[j].d == moves[k].d || Apart(moves[j].d, d.size, moves[k].d, d.size)
    {
      assert Points(region)[j] in Points(region) && Points(region)[k] in Points(region);
      assert Inside(Shifted(origin, Points(region)[j]), d.box) && Inside(Shifted(origin, Points(region)[k]), d.box);
    }
    RunSameBytes(mem, colour, moves, 0, d.size);
    forall p | Inside(p, region)
      ensures Pixel(Run(mem, Other(colour), moves), d, Shifted(origin, p)) == colour[..d.size]
    {
      PointAtRank(p, region);
      assert moves[Rank(p, region)] == at(p);
      assert Moved(Run(mem, Other(colour), moves), colour, moves[Rank(p, region)]);
    }
  }

  /** Pixels outside the region keep their contents. */
  lemma OtherPixelsKept(before: seq<byte>, after: seq<byte>, d: Layout, dOrigin: Point, region: Point,
                        from: seq<byte>, s: Layout, sOrigin: Point, q: Point)
    requires d.Within(|before|) && Part(dOrigin, region, d.box) && s.Within(|from|) && Part(sOrigin, region, s.box)
    requires d.Separated() && RegionCopied(before, after, d, dOrigin, region, from, s, sOrigin)
    requires Inside(q, d.box) && !InRegion(q, dOrigin, region)
    ensures d.at(q) + d.size <= |after| && Pixel(after, d, q) == Pixel(before, d, q)
  {
    forall k | d.at(q) <= k < d.at(q) + d.size ensures after[k] == before[k] {
      forall p | Inside(p, region) ensures !Touches(d, Shifted(dOrigin, p), k) {
        assert Inside(Shifted(dOrigin, p), d.box) && Shifted(dOrigin, p) != q;
      }
    }
  }

  /** A region copied to an image and from there onwards arrives unchanged, whatever the pixel orders are. */
  lemma CopyThroughImage(image: seq<byte>, image': seq<byte>, l: Layout, o: Point, region: Point,
                         from: seq<byte>, s: Layout, sOrigin: Point,
                         out: seq<byte>, out': seq<byte>, d: Layout, dOrigin: Point)
    requires l.Within(|image|) && Part(o, region, l.box) && s.Within(|from|) && Part(sOrigin, region, s.box)
    requires d.Within(|out|) && Part(dOrigin, region, d.box)
    requires RegionCopied(image, image', l, o, region, from, s, sOrigin)
    requires RegionCopied(out, out', d, dOrigin, region, image', l, o)
    ensures RegionCopied(out, out', d, dOrigin, region, from, s, sOrigin)
  {
  }

  /** Writing a region to an image with the pixel loops, in whatever order the image has, changes no other pixel. */
  lemma WriteKeepsOthers(s: Shape, data: seq<byte>, host: seq<byte>, h: Layout, origin: Point, region: Point, q: Point)
    requires s.Plausible() && s.Pitched() && Spacious(s) && |data| == s.slicePitch * s.depth
    requires Part(origin, region, s.Box()) && h.box == region && h.size == s.elementSize && h.Within(|host|)
    requires Inside(q, s.Box()) && !InRegion(q, origin, region)
    ensures var image := ImageLayout(s);
      && AllFit(BoxMoves(region, PixelMove(image, origin, h, ORIGIN)), |data|, |host|)
      && image.at(q) + image.size <= |data|
      && Pixel(Run(data, Other(host), BoxMoves(region, PixelMove(image, origin, h, ORIGIN))), image, q)
         == Pixel(data, image, q)
  {
    var image := ImageLayout(s);
    ImagePixelsSeparated(s);
    PixelLoopsCopyRegion(data, image, origin, region, host, h, ORIGIN);
    OtherPixelsKept(data, Run(data, Other(host), BoxMoves(region, PixelMove(image, origin, h, ORIGIN))),
                    image, origin, region, host, h, ORIGIN, q);
  }

  /** Two runs of the pixel loops, through a memory of any layout whose pixels are separate. */
  lemma RoundTrip(data: seq<byte>, l: Layout, host: seq<byte>, h: Layout, out: seq<byte>, o: Layout,
                  origin: Point, region: Point)
    requires l.Within(|data|) && l.Separated() && Part(origin, region, l.box)
    requires h.Within(|host|) && o.Within(|out|) && o.Separated() && h.box == o.box == region
    requires h.size == o.size == l.size
    ensures var put, get := BoxMoves(region, PixelMove(l, origin, h, ORIGIN)),
                      BoxMoves(region, PixelMove(o, ORIGIN, l, origin));
      && AllFit(put, |data|, |host|) && AllFit(get, |out|, |data|)
      && RegionCopied(out, Run(out, Other(Run(data, Other(host), put)), get), o, ORIGIN, region, host, h, ORIGIN)
  {
    PixelLoopsCopyRegion(data, l, origin, region, host, h, ORIGIN);
    var written := Run(data, Other(host), BoxMoves(region, PixelMove(l, origin, h, ORIGIN)));
    PixelLoopsCopyRegion(out, o, ORIGIN, region, written, l, origin);
    CopyThroughImage(data, written, l, origin, region, host, h, ORIGIN, out,
                     Run(out, Other(written), BoxMoves(region, PixelMove(o, ORIGIN, l, origin))), o, ORIGIN);
  }

  /**
   What the pixel loops write to an image, in LT or raster order, they read back: with spacious pitches, and into host
   memory whose lines do not overlap, every pixel of the region arrives and no other byte of the host memory changes.
   */
  lemma ImageRoundTrip(s: Shape, data: seq<byte>, host: seq<byte>, out: seq<byte>, origin: Point, region: Point,
                       row: nat, slice: nat, outRow: nat, outSlice: nat)
    requires s.Plausible() && s.Pitched() && Spacious(s) && |data| == s.slicePitch * s.depth
    requires Part(origin, region, s.Box())
    requires HostLayout(region, s.elementSize, row, slice).Within(|host|)
    requires HostLayout(region, s.elementSize, outRow, outSlice).Within(|out|)
    requires LinesApart(region, s.elementSize, outRow, outSlice)
    ensures var image := ImageLayout(s);
      var h, o := HostLayout(region, s.elementSize, row, slice), HostLayout(region, s.elementSize, outRow, outSlice);
      var put, get := BoxMoves(region, PixelMove(image, origin, h, ORIGIN)),
                      BoxMoves(region, PixelMove(o, ORIGIN, image, origin));
      && AllFit(put, |data|, |host|) && AllFit(get, |out|, |data|)
      && RegionCopied(out, Run(out, Other(Run(data, Other(host), put)), get), o, ORIGIN, region, host, h, ORIGIN)
  {
    hide Run, RegionCopied, Spacious;
    ImagePixelsSeparated(s);
    if region.x > 0 && region.y > 0 && region.z > 0 {
      HostPixelsSeparated(region, s.elementSize, outRow, outSlice);
    }
    RoundTrip(data, ImageLayout(s), host, HostLayout(region, s.elementSize, row, slice),
              out, HostLayout(region, s.elementSize, outRow, outSlice), origin, region);
  }

  /** Two regions of one image without a common pixel. */
  predicate RegionsApart(a: Point, b: Point, region: Point) {
    || a.x + region.x <= b.x || b.x + region.x <= a.x
    || a.y + region.y <= b.y || b.y + region.y <= a.y
    || a.z + region.z <= b.z || b.z + region.z <= a.z
  }

  /** No pixel is read after it has been changed exactly if the regions are apart or the later one is read. */
  lemma RegionsReadIntact(l: Layout, dOrigin: Point, sOrigin: Point, region: Point)
    requires l.Separated() && l.size > 0 && Part(dOrigin, region, l.box) && Part(sOrigin, region, l.box)
    ensures ReadsIntact(BoxMoves(region, PixelMove(l, dOrigin, l, sOrigin))) <==>
            RegionsApart(sOrigin, dOrigin, region) || !Earlier(sOrigin, dOrigin)
  {
    var at := PixelMove(l, dOrigin, l, sOrigin);
    BoxReadsIntact(region, at);
    if RegionsApart(sOrigin, dOrigin, region) || !Earlier(sOrigin, dOrigin) {
      forall p, q | Inside(p, region) && Inside(q, region) && Earlier(q, p) ensures LeavesIntact(at(q), at(p)) {
        assert Inside(Shifted(sOrigin, p), l.box) && Inside(Shifted(dOrigin, q), l.box);
        assert Shifted(sOrigin, p) != Shifted(dOrigin, q);
      }
    } else {
      var p, q := SharedPixel(dOrigin, sOrigin, region);
      assert Inside(Shifted(sOrigin, q), l.box) && Inside(Shifted(dOrigin, q), l.box);
      assert !LeavesIntact(at(q), at(p));
    }
  }

  lemma SharedPixel(dOrigin: Point, sOrigin: Point, region: Point) returns (p: Point, q: Point)
    requires !RegionsApart(sOrigin, dOrigin, region) && Earlier(sOrigin, dOrigin)
    ensures Inside(p, region) && Inside(q, region) && Earlier(q, p) && Shifted(sOrigin, p) == Shifted(dOrigin, q)
    ensures Shifted(sOrigin, q) != Shifted(dOrigin, q)
  {
    p := Point(Excess(dOrigin.x, sOrigin.x), Excess(dOrigin.y, sOrigin.y), Excess(dOrigin.z, sOrigin.z));
    q := Point(Excess(sOrigin.x, dOrigin.x), Excess(sOrigin.y, dOrigin.y), Excess(sOrigin.z, dOrigin.z));
  }

  function Excess(a: nat, b: nat): nat {
    if a > b then a - b else 0
  }

  /** There is one result with the region copied. */
  lemma RegionCopiedOnce(before: seq<byte>, a: seq<byte>, b: seq<byte>, d: Layout, dOrigin: Point, region: Point,
                         from: seq<byte>, s: Layout, sOrigin: Point)
    requires d.Within(|before|) && Part(dOrigin, region, d.box) && s.Within(|from|) && Part(sOrigin, region, s.box)
    requires RegionCopied(before, a, d, dOrigin, region, from, s, sOrigin)
    requires RegionCopied(before, b, d, dOrigin, region, from, s, sOrigin)
    ensures a == b
  {
    forall k | 0 <= k < |a| ensures a[k] == b[k] {
      if p :| Inside(p, region) && Touches(d, Shifted(dOrigin, p), k) {
        var start := d.at(Shifted(dOrigin, p));
        assert Inside(Shifted(dOrigin, p), d.box);
        assert Pixel(a, d, Shifted(dOrigin, p))[k - start] == Pixel(b, d, Shifted(dOrigin, p))[k - start];
      }
    }
  }

  /**
   Inside one image with separate pixels, the pixel loops copy a region as if all pixels moved at once, whatever the
   image holds, if and only if the regions are apart or the destination does not come after the source in loop order.
   */
  lemma CopyInsideExact(length: nat, l: Layout, dOrigin: Point, sOrigin: Point, region: Point)
    requires l.Within(length) && l.Separated() && l.size > 0
    requires Part(dOrigin, region, l.box) && Part(sOrigin, region, l.box)
    ensures AllFit(BoxMoves(region, PixelMove(l, dOrigin, l, sOrigin)), length, length)
    ensures (forall mem: seq<byte> | |mem| == length ::
               RegionCopied(mem, Run(mem, Same, BoxMoves(region, PixelMove(l, dOrigin, l, sOrigin))),
                            l, dOrigin, region, mem, l, sOrigin))
            <==> RegionsApart(sOrigin, dOrigin, region) || !Earlier(sOrigin, dOrigin)
  {
    hide Run, Separate, ReadsIntact, RegionsApart, Earlier, RegionCopied;
    var moves := BoxMoves(region, PixelMove(l, dOrigin, l, sOrigin));
    PixelMovesFit(l, dOrigin, region, l, sOrigin, length, length);
    PixelMovesSeparate(l, dOrigin, region, l, sOrigin);
    RegionsReadIntact(l, dOrigin, sOrigin, region);
    RunInPlaceExact(length, moves);
    forall mem: seq<byte> | |mem| == length
      ensures RegionCopied(mem, Run(mem, Same, moves), l, dOrigin, region, mem, l, sOrigin)
              <==> Run(mem, Same, moves) == Run(mem, Other(mem), moves)
    {
      PixelLoopsCopyRegion(mem, l, dOrigin, region, mem, l, sOrigin);
      if RegionCopied(mem, Run(mem, Same, moves), l, dOrigin, region, mem, l, sOrigin) {
        RegionCopiedOnce(mem, Run(mem, Same, moves), Run(mem, Other(mem), moves), l, dOrigin, region, mem, l, sOrigin);
      }
    }
  }

  // ---------- the scan-line version ----------

  /** Moving the pixels of a line one by one moves them all at once. */
  lemma {:induction false} LineMerge(mem: seq<byte>, from: seq<byte>, line: seq<Move>, d: nat, s: nat, e: nat)
    requires d + |line| * e <= |mem| && s + |line| * e <= |from|
    requires forall x :: 0 <= x < |line| ==> line[x].d == d + x * e && line[x].s == s + x * e && line[x].n == e
    ensures AllFit(line, |mem|, |from|)
    ensures Run(mem, Other(from), line) == Copy(mem, from, Move(d, s, |line| * e))
  {
    if line != [] {
      var n := |line| - 1;
      assert |line| * e == n * e + e;
      LineMerge(mem, from, line[..n], d, s, e);
      RunSnoc(mem, Other(from), line[..n], line[n]);
      assert line == line[..n] + [line[n]];
    }
  }

  function Line(x: nat, y: nat, z: nat): (r: seq<Point>) {
    seq(x, i requires 0 <= i < x => Point(i, y, z))
  }

  lemma {:induction false} BeforeLine(x: nat, y: nat, z: nat, b: Point)
    ensures Before(Point(x, y, z), b) == Before(Point(0, y, z), b) + Line(x, y, z)
  {
    if x > 0 {
      BeforeLine(x - 1, y, z, b);
      assert Line(x, y, z) == Line(x - 1, y, z) + [Point(x - 1, y, z)];
    }
  }

  function Lines(region: Point): Point {
    Point(1, region.y, region.z)
  }

  /** One memmove for all pixels of a line. */
  function LineMove(region: Point, e: nat, at: Point -> Move): Point -> Move {
    (p: Point) => Move(at(p).d, at(p).s, region.x * e)
  }

  /** The pixels of a line follow each other on both sides. */
  ghost predicate Contiguous(e: nat, at: Point -> Move) {
    forall x: nat, y: nat, z: nat ::
      && at(Point(x, y, z)).d == at(Point(0, y, z)).d + x * e
      && at(Point(x, y, z)).s == at(Point(0, y, z)).s + x * e
      && at(Point(x, y, z)).n == e
  }

  lemma OneLine(mem: seq<byte>, from: seq<byte>, region: Point, e: nat, at: Point -> Move, y: nat, z: nat)
    requires Contiguous(e, at) && Fits(LineMove(region, e, at)(Point(0, y, z)), |mem|, |from|)
    ensures AllFit(Moves(Line(region.x, y, z), at), |mem|, |from|)
    ensures Run(mem, Other(from), Moves(Line(region.x, y, z), at))
            == Copy(mem, from, LineMove(region, e, at)(Point(0, y, z)))
  {
    var first := at(Point(0, y, z));
    LineMerge(mem, from, Moves(Line(region.x, y, z), at), first.d, first.s, e);
  }

  /** All pixels of the lines that start at the given points. */
  function Flatten(starts: seq<Point>, width: nat): seq<Point> {
    if starts == [] then []
    else
      var last := starts[|starts| - 1];
      Flatten(starts[..|starts| - 1], width) + Line(width, last.y, last.z)
  }

  lemma FlattenSnoc(starts: seq<Point>, p: Point, width: nat)
    ensures Flatten(starts + [p], width) == Flatten(starts, width) + Line(width, p.y, p.z)
  {
    assert (starts + [p])[..|starts|] == starts;
  }

  /** The pixels of a region are the pixels of its lines. */
  lemma {:induction false} BeforeFlatten(y: nat, z: nat, region: Point)
    ensures Before(Point(0, y, z), region) == Flatten(Before(Point(0, y, z), Lines(region)), region.x)
    decreases z, y
  {
    if y > 0 {
      BeforeFlatten(y - 1, z, region);
      BeforeLine(region.x, y - 1, z, region);
      FlattenSnoc(Before(Point(0, y - 1, z), Lines(region)), Point(0, y - 1, z), region.x);
    } else if z > 0 {
      BeforeFlatten(region.y, z - 1, region);
    }
  }

  lemma RunPoints(mem: seq<byte>, from: seq<byte>, at: Point -> Move, a: seq<Point>, b: seq<Point>)
    requires AllFit(Moves(a, at), |mem|, |from|) && AllFit(Moves(b, at), |mem|, |from|)
    ensures AllFit(Moves(a + b, at), |mem|, |from|)
    ensures Run(mem, Other(from), Moves(a + b, at))
            == Run(Run(mem, Other(from), Moves(a, at)), Other(from), Moves(b, at))
  {
    MovesAppend(a, b, at);
    RunAppend(mem, Other(from), Moves(a, at), Moves(b, at));
  }

  lemma RunPoint(mem: seq<byte>, from: seq<byte>, at: Point -> Move, a: seq<Point>, p: Point)
    requires AllFit(Moves(a, at), |mem|, |from|) && Fits(at(p), |mem|, |from|)
    ensures AllFit(Moves(a + [p], at), |mem|, |from|)
    ensures Run(mem, Other(from), Moves(a + [p], at)) == Copy(Run(mem, Other(from), Moves(a, at)), from, at(p))
  {
    MovesAppend(a, [p], at);
    assert Moves([p], at) == [at(p)];
    RunSnoc(mem, Other(from), Moves(a, at), at(p));
  }

  lemma MovesAppend(a: seq<Point>, b: seq<Point>, at: Point -> Move)
    ensures Moves(a + b, at) == Moves(a, at) + Moves(b, at)
  {
  }

  lemma {:induction false} RunFlatten(mem: seq<byte>, from: seq<byte>, region: Point, e: nat, at: Point -> Move,
                                      starts: seq<Point>)
    requires Contiguous(e, at) && forall k :: 0 <= k < |starts| ==> starts[k].x == 0
    requires AllFit(Moves(starts, LineMove(region, e, at)), |mem|, |from|)
    ensures AllFit(Moves(Flatten(starts, region.x), at), |mem|, |from|)
    ensures Run(mem, Other(from), Moves(Flatten(starts, region.x), at))
            == Run(mem, Other(from), Moves(starts, LineMove(region, e, at)))
  {
    if starts != [] {
      hide Run, Copy, Contiguous, Moves, AllFit, LineMove;
      var init, last := starts[..|starts| - 1], starts[|starts| - 1];
      assert starts == init + [last] && last.x == 0 && forall k :: 0 <= k < |init| ==> init[k] == starts[k];
      FitsUpTo(|mem|, |from|, LineMove(region, e, at), init, last);
      RunFlatten(mem, from, region, e, at, init);
      FlattenNext(mem, from, region, e, at, init, last);
    } else {
      assert Moves(Flatten(starts, region.x), at) == [] == Moves(starts, LineMove(region, e, at));
    }
  }

  lemma FitsUpTo(length: nat, source: nat, at: Point -> Move, init: seq<Point>, last: Point)
    requires AllFit(Moves(init + [last], at), length, source)
    ensures AllFit(Moves(init, at), length, source) && Fits(at(last), length, source)
  {
    var moves := Moves(init + [last], at);
    assert moves[|init|] == at(last);
    assert forall k :: 0 <= k < |init| ==> Moves(init, at)[k] == moves[k];
  }

  lemma FlattenNext(mem: seq<byte>, from: seq<byte>, region: Point, e: nat, at: Point -> Move, init: seq<Point>,
                    last: Point)
    requires Contiguous(e, at) && last.x == 0
    requires AllFit(Moves(init, LineMove(region, e, at)), |mem|, |from|)
    requires Fits(LineMove(region, e, at)(last), |mem|, |from|)
    requires AllFit(Moves(Flatten(init, region.x), at), |mem|, |from|)
    requires Run(mem, Other(from), Moves(Flatten(init, region.x), at))
             == Run(mem, Other(from), Moves(init, LineMove(region, e, at)))
    ensures var points := Flatten(init, region.x) + Line(region.x, last.y, last.z);
      && AllFit(Moves(points, at), |mem|, |from|)
      && AllFit(Moves(init + [last], LineMove(region, e, at)), |mem|, |from|)
      && Run(mem, Other(from), Moves(points, at))
         == Run(mem, Other(from), Moves(init + [last], LineMove(region, e, at)))
  {
    hide Run, Copy, Contiguous, Moves;
    OneLine(Run(mem, Other(from), Moves(init, LineMove(region, e, at))), from, region, e, at, last.y, last.z);
    RunPoints(mem, from, at, Flatten(init, region.x), Line(region.x, last.y, last.z));
    RunPoint(mem, from, LineMove(region, e, at), init, last);
  }

  /** Moving whole lines has the effect of moving pixels, for every region and pitch, overlapping lines included. */
  lemma LinesRefinePixels(mem: seq<byte>, from: seq<byte>, region: Point, e: nat, at: Point -> Move)
    requires Contiguous(e, at) && AllFit(BoxMoves(Lines(region), LineMove(region, e, at)), |mem|, |from|)
    ensures AllFit(BoxMoves(region, at), |mem|, |from|)
    ensures Run(mem, Other(from), BoxMoves(Lines(region), LineMove(region, e, at)))
            == Run(mem, Other(from), BoxMoves(region, at))
  {
    var starts := Points(Lines(region));
    PointsCoverBox(Lines(region));
    forall k | 0 <= k < |starts| ensures starts[k].x == 0 {
      assert starts[k] in starts;
    }
    BeforeFlatten(0, region.z, region);
    RunFlatten(mem, from, region, e, at, starts);
  }

  /** The pixels of a line follow each other. */
  ghost predicate LinewiseLayout(l: Layout, origin: Point) {
    forall x: nat, y: nat, z: nat ::
      l.at(Shifted(origin, Point(x, y, z))) == l.at(Shifted(origin, Point(0, y, z))) + x * l.size
  }

  lemma RasterShift(origin: Point, p: Point, e: nat, row: nat, slice: nat)
    ensures RasterAddress(Shifted(origin, p), e, row, slice)
            == RasterAddress(Shifted(origin, Point(0, p.y, p.z)), e, row, slice) + p.x * e
  {
  }

  lemma LinewiseMoves(d: Layout, dOrigin: Point, s: Layout, sOrigin: Point)
    requires LinewiseLayout(d, dOrigin) && LinewiseLayout(s, sOrigin) && d.size == s.size
    ensures Contiguous(d.size, PixelMove(d, dOrigin, s, sOrigin))
  {
  }

  lemma RasterLinewise(s: Shape, origin: Point)
    requires s.Plausible() && s.raster
    ensures LinewiseLayout(ImageLayout(s), origin)
  {
    forall x: nat, y: nat, z: nat
      ensures s.PixelOffset(Shifted(origin, Point(x, y, z)))
              == s.PixelOffset(Shifted(origin, Point(0, y, z))) + x * s.elementSize
    {
      RasterShift(origin, Point(x, y, z), s.elementSize, s.rowPitch, s.slicePitch);
    }
  }

  lemma HostLinewise(region: Point, e: nat, row: nat, slice: nat)
    ensures LinewiseLayout(HostLayout(region, e, row, slice), ORIGIN)
  {
    forall x: nat, y: nat, z: nat
      ensures RasterAddress(Shifted(ORIGIN, Point(x, y, z)), e, row, slice)
              == RasterAddress(Shifted(ORIGIN, Point(0, y, z)), e, row, slice) + x * e
    {
      RasterShift(ORIGIN, Point(x, y, z), e, row, slice);
    }
  }

  /** For a raster image and host memory, in both directions. */
  lemma RasterLinesRefine(s: Shape, origin: Point, region: Point, row: nat, slice: nat)
    requires s.Plausible() && s.raster
    ensures var image, host := ImageLayout(s), HostLayout(region, s.elementSize, row, slice);
      && Contiguous(s.elementSize, PixelMove(image, origin, host, ORIGIN))
      && Contiguous(s.elementSize, PixelMove(host, ORIGIN, image, origin))
  {
    var image, host := ImageLayout(s), HostLayout(region, s.elementSize, row, slice);
    RasterLinewise(s, origin);
    HostLinewise(region, s.elementSize, row, slice);
    LinewiseMoves(image, origin, host, ORIGIN);
    LinewiseMoves(host, ORIGIN, image, origin);
  }
}
