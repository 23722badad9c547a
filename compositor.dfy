/**
 Compositing isometric block tiles into the segment view: the alpha-over
 blit of one tile onto the canvas, the fixed voxel-to-canvas coordinate
 mapping, the block-id-to-tile library built from the palette, and the render
 loop that blits every voxel in the order the segment reader supplies.
 */
module Compositor {
  import opened Images

  /** Horizontal extent of a segment, in blocks. */
  const SegSize: nat := 16 * 8
  /** Vertical extent of a chunk, in blocks. */
  const ChunkHeight: nat := 256

  /** Canvas dimensions of one rendered segment. */
  const ViewWidth: nat := 16 * SegSize
  const ViewHeight: nat := 16 * (SegSize + ChunkHeight) / 2

  // ---------------------------------------------------------------------------
  // image_buffer_blit
  // ---------------------------------------------------------------------------

  /**
   The pixel `image_buffer_blit` writes: colour blended "over" the target
   with the source alpha, alpha `255 - (255 - dst_a) * (255 - src_a) / 255`.
   An opaque source pixel replaces the target, a fully transparent one leaves
   it alone, and the result is never more transparent than either input.
   */
  function Blend(dst: Rgba, src: Rgba): (p: Rgba)
    ensures src.a == 255 ==> p == src
    ensures src.a == 0 ==> p == dst
    ensures p.a >= dst.a && p.a >= src.a
  {
    var sa := src.a;
    var clear := (255 - dst.a) * (255 - sa);
    MulMonotone(255 - sa, 255, 255 - dst.a);
    MulMonotone(255 - dst.a, 255, 255 - sa);
    Rgba(OverChannel(dst.r, src.r, sa), OverChannel(dst.g, src.g, sa), OverChannel(dst.b, src.b, sa),
         255 - clear / 255)
  }

  /**
   `get_pixel_mut(x + offset.0, y + offset.1)` panics outside the target, so
   a non-empty source must lie inside it; an empty source touches nothing.
   */
  predicate Fits(source: ImageBuffer, ox: nat, oy: nat, width: nat, height: nat)
  {
    source.width == 0 || source.height == 0 || (ox + source.width <= width && oy + source.height <= height)
  }

  /** Whether row-major index `k` of a `w`-wide raster lies in the `sw` x `sh` window at (ox, oy). */
  predicate InWindow(k: nat, w: nat, ox: nat, oy: nat, sw: nat, sh: nat)
  {
    w > 0 && ox <= k % w < ox + sw && oy <= k / w < oy + sh
  }

  /** The canvas after blitting `source` at (ox, oy). */
  function BlitSpec(view: ImageBuffer, source: ImageBuffer, ox: nat, oy: nat): (r: ImageBuffer)
    requires view.Valid() && source.Valid() && Fits(source, ox, oy, view.width, view.height)
    ensures r.Valid() && r.width == view.width && r.height == view.height
  {
    ImageBuffer(view.width, view.height,
      seq(|view.data|, k requires 0 <= k < |view.data| =>
        if InWindow(k, view.width, ox, oy, source.width, source.height)
        then Blend(view.data[k], source.At(k % view.width - ox, k / view.width - oy))
        else view.data[k]))
  }

  /**
   Blitting changes exactly the pixels (ox + dx, oy + dy) with dx, dy inside
   the source, each blended with source pixel (dx, dy); every other pixel is
   unchanged.
   */
  lemma BlitSpecAt(view: ImageBuffer, source: ImageBuffer, ox: nat, oy: nat, x: nat, y: nat)
    requires view.Valid() && source.Valid() && Fits(source, ox, oy, view.width, view.height)
    requires x < view.width && y < view.height
    ensures BlitSpec(view, source, ox, oy).At(x, y) ==
      if ox <= x < ox + source.width && oy <= y < oy + source.height
      then Blend(view.At(x, y), source.At(x - ox, y - oy))
      else view.At(x, y)
  {
    var k := y * view.width + x;
    RowMajorInBounds(x, y, view.width, view.height);
    RowMajorDivMod(x, y, view.width);
    assert k % view.width == x && k / view.width == y;
    assert BlitSpec(view, source, ox, oy).At(x, y) == BlitSpec(view, source, ox, oy).data[k];
    assert view.At(x, y) == view.data[k];
  }

  /** A fully opaque source the size of the canvas, blitted at (0, 0), leaves exactly the source. */
  lemma BlitOpaqueOverwrites(view: ImageBuffer, source: ImageBuffer)
    requires view.Valid() && source.Valid() && source.width == view.width && source.height == view.height
    requires forall x: nat, y: nat | x < source.width && y < source.height :: source.At(x, y).a == 255
    ensures BlitSpec(view, source, 0, 0) == source
  {
    var r := BlitSpec(view, source, 0, 0);
    forall x: nat, y: nat | x < r.width && y < r.height
      ensures r.At(x, y) == source.At(x, y)
    {
      BlitSpecAt(view, source, 0, 0, x, y);
    }
    ExtensionalEquality(r, source);
  }

  /** A fully transparent source leaves the canvas unchanged, alpha included. */
  lemma BlitTransparentIdentity(view: ImageBuffer, source: ImageBuffer, ox: nat, oy: nat)
    requires view.Valid() && source.Valid() && Fits(source, ox, oy, view.width, view.height)
    requires forall x: nat, y: nat | x < source.width && y < source.height :: source.At(x, y).a == 0
    ensures BlitSpec(view, source, ox, oy) == view
  {
    var r := BlitSpec(view, source, ox, oy);
    forall x: nat, y: nat | x < r.width && y < r.height
      ensures r.At(x, y) == view.At(x, y)
    {
      BlitSpecAt(view, source, ox, oy, x, y);
    }
    ExtensionalEquality(r, view);
  }

  /** The canvas: a row-major RGBA pixel buffer updated in place. */
  class Canvas {
    const width: nat
    const height: nat
    const pixels: array<Rgba>

    ghost predicate Valid()
      reads this
    {
      pixels.Length == width * height
    }

    /** The canvas as an image value. */
    ghost function Contents(): (img: ImageBuffer)
      reads this, pixels
    {
      ImageBuffer(width, height, pixels[..])
    }

    /** `ImageBuffer::new(w, h)`: every pixel starts as (0, 0, 0, 0). */
    constructor (w: nat, h: nat)
      ensures Valid() && width == w && height == h && fresh(pixels)
      ensures Contents() == Blank(w, h)
    {
      width, height := w, h;
      pixels := new Rgba[w * h](_ => Zero);
    }

    /** `image_buffer_blit`: blends `source` onto the canvas at (ox, oy), in place, row by row. */
    method Blit(source: ImageBuffer, ox: nat, oy: nat)
      requires Valid() && source.Valid() && Fits(source, ox, oy, width, height)
      modifies pixels
      ensures Contents() == BlitSpec(old(Contents()), source, ox, oy)
    {
      ghost var before := pixels[..];
      var y := 0;
      while y < source.height
        invariant y <= source.height
        invariant PartlyBlitted(pixels[..], before, width, source, ox, oy, y, 0)
      {
        var x := 0;
        while x < source.width
          invariant x <= source.width
          invariant PartlyBlitted(pixels[..], before, width, source, ox, oy, y, x)
        {
          BlitStep(pixels[..], before, width, height, source, ox, oy, y, x);
          var p := (oy + y) * width + (ox + x);
          pixels[p] := Blend(pixels[p], source.At(x, y));
          x := x + 1;
        }
        RowDone(pixels[..], before, width, source, ox, oy, y);
        y := y + 1;
      }
      assert pixels[..] == BlitSpec(ImageBuffer(width, height, before), source, ox, oy).data;
    }
  }

  /** Index `k` is among the first `rows` full rows of the window, or the first `cols` pixels of the next row. */
  predicate Done(k: nat, w: nat, ox: nat, oy: nat, sw: nat, rows: nat, cols: nat)
  {
    InWindow(k, w, ox, oy, sw, rows) || InWindow(k, w, ox, oy + rows, cols, 1)
  }

  /** The blit loop's invariant: the pixels done so far are blended, every other pixel is as before. */
  ghost predicate PartlyBlitted(s: seq<Rgba>, before: seq<Rgba>, w: nat, source: ImageBuffer, ox: nat, oy: nat, rows: nat, cols: nat)
  {
    && |s| == |before|
    && source.Valid() && rows <= source.height && cols <= source.width && (cols > 0 ==> rows < source.height)
    && forall k | 0 <= k < |s| ::
         s[k] == if Done(k, w, ox, oy, source.width, rows, cols)
                 then Blend(before[k], source.At(k % w - ox, k / w - oy))
                 else before[k]
  }

  /** One iteration of the inner loop: blending pixel (cols, rows) extends the invariant by one pixel. */
  lemma BlitStep(s: seq<Rgba>, before: seq<Rgba>, w: nat, h: nat, source: ImageBuffer, ox: nat, oy: nat, rows: nat, cols: nat)
    requires |s| == w * h && Fits(source, ox, oy, w, h)
    requires PartlyBlitted(s, before, w, source, ox, oy, rows, cols)
    requires rows < source.height && cols < source.width
    ensures (oy + rows) * w + (ox + cols) < |s|
    ensures var p := (oy + rows) * w + (ox + cols);
      PartlyBlitted(s[p := Blend(s[p], source.At(cols, rows))], before, w, source, ox, oy, rows, cols + 1)
  {
    RowMajorInBounds(ox + cols, oy + rows, w, h);
    RowMajorDivMod(ox + cols, oy + rows, w);
    var p := (oy + rows) * w + (ox + cols);
    var s' := s[p := Blend(s[p], source.At(cols, rows))];
    forall k | 0 <= k < |s'| && k != p
      ensures Done(k, w, ox, oy, source.width, rows, cols + 1) == Done(k, w, ox, oy, source.width, rows, cols)
    {
      DoneStep(k, w, ox, oy, source.width, rows, cols);
    }
    assert !Done(p, w, ox, oy, source.width, rows, cols);
    assert Done(p, w, ox, oy, source.width, rows, cols + 1);
  }

  /** Extending the partial row by one column adds exactly the index of that column. */
  lemma DoneStep(k: nat, w: nat, ox: nat, oy: nat, sw: nat, rows: nat, cols: nat)
    requires w > 0 && k != (oy + rows) * w + (ox + cols)
    ensures Done(k, w, ox, oy, sw, rows, cols + 1) == Done(k, w, ox, oy, sw, rows, cols)
  {
    assert k == (k / w) * w + k % w;
    if k / w == oy + rows && k % w == ox + cols {
      assert false;
    }
  }

  /** A finished row of the window is the start of the next. */
  lemma RowDone(s: seq<Rgba>, before: seq<Rgba>, w: nat, source: ImageBuffer, ox: nat, oy: nat, rows: nat)
    requires rows < source.height
    requires PartlyBlitted(s, before, w, source, ox, oy, rows, source.width)
    ensures PartlyBlitted(s, before, w, source, ox, oy, rows + 1, 0)
  {
    forall k | 0 <= k < |s|
      ensures Done(k, w, ox, oy, source.width, rows, source.width) == Done(k, w, ox, oy, source.width, rows + 1, 0)
    {
    }
  }

  /** An all-zero image, the state of a freshly allocated canvas. */
  function Blank(w: nat, h: nat): (img: ImageBuffer)
    ensures img.Valid() && img.width == w && img.height == h
    ensures forall x: nat, y: nat | x < w && y < h :: img.At(x, y) == Zero
  {
    var img := ImageBuffer(w, h, seq(w * h, _ => Zero));
    assert forall x: nat, y: nat | x < w && y < h :: img.At(x, y) == Zero by {
      forall x: nat, y: nat | x < w && y < h
        ensures img.At(x, y) == Zero
      {
        RowMajorInBounds(x, y, w, h);
      }
    }
    img
  }

  // ---------------------------------------------------------------------------
  // isometric_coord_mapping
  // ---------------------------------------------------------------------------

  const BaseX: int := 1016
  const BaseY: int := 2040
  const XDiff: (int, int) := (-8, 4)
  const ZDiff: (int, int) := (8, 4)
  const YDiff: (int, int) := (0, -8)

  /** The canvas offset of voxel (x, y, z) in exact integers, before the cast to `u32`. */
  function IsoOffset(x: int, y: int, z: int): (o: (int, int))
    ensures (o.0 - BaseX) % 8 == 0 && (o.1 - BaseY) % 4 == 0
  {
    (BaseX + (XDiff.0 * x + YDiff.0 * y + ZDiff.0 * z), BaseY + (XDiff.1 * x + YDiff.1 * y + ZDiff.1 * z))
  }

  /**
   `isometric_coord_mapping`: the offset cast to `(u32, u32)`. Wrapping `i32`
   arithmetic followed by `as u32` agrees with the exact offset modulo 2^32,
   which is what this computes.
   */
  function IsoCoord(x: i32, y: i32, z: i32): (c: (u32, u32))
    ensures (IsoOffset(x, y, z).0 - c.0) % 0x1_0000_0000 == 0 && (IsoOffset(x, y, z).1 - c.1) % 0x1_0000_0000 == 0
    ensures InSegment(x, y, z) ==> c == IsoOffset(x, y, z)
  {
    var o := IsoOffset(x, y, z);
    (AsU32(o.0), AsU32(o.1))
  }

  /** The mapping is exactly linear: x adds (-8, +4), z adds (+8, +4), y adds (0, -8), origin (1016, 2040). */
  lemma IsoOffsetLinear(x: int, y: int, z: int)
    ensures IsoOffset(0, 0, 0) == (1016, 2040)
    ensures IsoOffset(x + 1, y, z) == (IsoOffset(x, y, z).0 - 8, IsoOffset(x, y, z).1 + 4)
    ensures IsoOffset(x, y, z + 1) == (IsoOffset(x, y, z).0 + 8, IsoOffset(x, y, z).1 + 4)
    ensures IsoOffset(x, y + 1, z) == (IsoOffset(x, y, z).0, IsoOffset(x, y, z).1 - 8)
  {
  }

  /**
   The mapping is not injective: one step along each of x, y and z together
   cancels out, so voxels on a (1, 1, 1) diagonal share a canvas offset and
   only the draw order decides which one is seen.
   */
  lemma IsoOffsetDiagonal(x: int, y: int, z: int)
    ensures IsoOffset(x + 1, y + 1, z + 1) == IsoOffset(x, y, z)
  {
    IsoOffsetLinear(x, y, z);
    IsoOffsetLinear(x + 1, y, z);
    IsoOffsetLinear(x + 1, y + 1, z);
  }

  /** On the `u32` result the same steps hold modulo 2^32, for all `i32` inputs. */
  lemma IsoCoordSteps(x: i32, y: i32, z: i32)
    ensures x < 0x7FFF_FFFF ==> IsoCoord(x + 1, y, z) == (AsU32(IsoCoord(x, y, z).0 - 8), AsU32(IsoCoord(x, y, z).1 + 4))
    ensures z < 0x7FFF_FFFF ==> IsoCoord(x, y, z + 1) == (AsU32(IsoCoord(x, y, z).0 + 8), AsU32(IsoCoord(x, y, z).1 + 4))
    ensures y < 0x7FFF_FFFF ==> IsoCoord(x, y + 1, z) == (IsoCoord(x, y, z).0, AsU32(IsoCoord(x, y, z).1 - 8))
  {
    var o, m := IsoOffset(x, y, z), 0x1_0000_0000;
    ModAddCongruent(o.0, -8, m);
    ModAddCongruent(o.0, 8, m);
    ModAddCongruent(o.1, 4, m);
    ModAddCongruent(o.1, -8, m);
  }

  /** A voxel inside the segment: 0 <= x, z < SEG_SIZE and 0 <= y < CHUNK_HEIGHT. */
  predicate InSegment(x: int, y: int, z: int)
  {
    0 <= x < SegSize && 0 <= y < ChunkHeight && 0 <= z < SegSize
  }

  /**
   Every in-segment voxel maps without wrap-around to a non-negative offset
   whose 16 x 16 tile lies inside the 2048 x 3072 canvas.
   */
  lemma IsoCoordInCanvas(x: i32, y: i32, z: i32)
    requires InSegment(x, y, z)
    ensures IsoCoord(x, y, z) == IsoOffset(x, y, z)
    ensures 0 <= IsoOffset(x, y, z).0 && IsoOffset(x, y, z).0 + TileSize <= ViewWidth
    ensures 0 <= IsoOffset(x, y, z).1 && IsoOffset(x, y, z).1 + TileSize <= ViewHeight
  {
  }

  /** The canvas is no larger than needed: each of its four edges is touched by some in-segment voxel's tile. */
  lemma IsoCanvasTight()
    ensures IsoOffset(SegSize - 1, 0, 0).0 == 0
    ensures IsoOffset(0, 0, SegSize - 1).0 + TileSize == ViewWidth
    ensures IsoOffset(0, ChunkHeight - 1, 0).1 == 0
    ensures IsoOffset(SegSize - 1, 0, SegSize - 1).1 + TileSize == ViewHeight
  {
  }

  // ---------------------------------------------------------------------------
  // render_segment: texture library and voxel loop
  // ---------------------------------------------------------------------------

  /** One palette entry from the segment reader. */
  datatype PaletteEntry = PaletteEntry(name: string, blockId: u16)

  /** One voxel from the segment reader, coordinates already cast to `i32`. */
  datatype Voxel = Voxel(x: i32, y: i32, z: i32, blockId: u16)

  /** The texture map after inserting every palette entry in order; a repeated id keeps its last tile. */
  function Library(palette: seq<PaletteEntry>, process: string -> ImageBuffer): (textures: map<u16, ImageBuffer>)
    ensures forall i | 0 <= i < |palette| :: palette[i].blockId in textures
  {
    if |palette| == 0 then map[]
    else
      var init, e := palette[..|palette| - 1], palette[|palette| - 1];
      assert forall i | 0 <= i < |init| :: init[i] == palette[i];
      Library(init, process)[e.blockId := process(e.name)]
  }

  /** An id is in the library exactly when some palette entry carries it. */
  lemma {:induction false} LibraryKeys(palette: seq<PaletteEntry>, process: string -> ImageBuffer, id: u16)
    ensures id in Library(palette, process) <==> exists i | 0 <= i < |palette| :: palette[i].blockId == id
  {
    if |palette| > 0 {
      var n := |palette| - 1;
      var init := palette[..n];
      LibraryKeys(init, process, id);
      if id != palette[n].blockId && exists i | 0 <= i < |palette| :: palette[i].blockId == id {
        var i :| 0 <= i < |palette| && palette[i].blockId == id;
        assert init[i] == palette[i];
      }
    }
  }

  /** The last palette entry carrying an id decides its tile; later entries with other ids do not disturb it. */
  lemma {:induction false} LibraryLast(palette: seq<PaletteEntry>, process: string -> ImageBuffer, i: nat)
    requires i < |palette|
    requires forall j | i < j < |palette| :: palette[j].blockId != palette[i].blockId
    ensures palette[i].blockId in Library(palette, process)
    ensures Library(palette, process)[palette[i].blockId] == process(palette[i].name)
  {
    var n := |palette| - 1;
    if i < n {
      var init := palette[..n];
      assert init[i] == palette[i];
      LibraryLast(init, process, i);
    }
  }

  /** The palette loop: one processed texture inserted per palette entry, in order. */
  method BuildTextures(palette: seq<PaletteEntry>, process: string -> ImageBuffer) returns (textures: map<u16, ImageBuffer>)
    ensures textures == Library(palette, process)
  {
    textures := map[];
    for i := 0 to |palette|
      invariant textures == Library(palette[..i], process)
    {
      assert palette[..i + 1][..i] == palette[..i];
      textures := textures[palette[i].blockId := process(palette[i].name)];
    }
    assert palette[..|palette|] == palette;
  }

  /** A voxel the render loop can draw: its id has a texture (or `expect` aborts) and the tile fits the view. */
  predicate Drawable(v: Voxel, textures: map<u16, ImageBuffer>)
  {
    && v.blockId in textures
    && textures[v.blockId].Valid()
    && var c := IsoCoord(v.x, v.y, v.z);
       Fits(textures[v.blockId], c.0, c.1, ViewWidth, ViewHeight)
  }

  /** Every in-segment voxel whose id has a 16 x 16 tile is drawable. */
  lemma InSegmentDrawable(v: Voxel, textures: map<u16, ImageBuffer>)
    requires InSegment(v.x, v.y, v.z) && v.blockId in textures && textures[v.blockId].IsTile()
    ensures Drawable(v, textures)
  {
    IsoCoordInCanvas(v.x, v.y, v.z);
  }

  /** The view dimensions of a rendered segment. */
  predicate IsView(view: ImageBuffer)
  {
    view.Valid() && view.width == ViewWidth && view.height == ViewHeight
  }

  /** One voxel's tile blitted at its mapped offset. */
  function BlitVoxel(view: ImageBuffer, v: Voxel, textures: map<u16, ImageBuffer>): (r: ImageBuffer)
    requires IsView(view) && Drawable(v, textures)
    ensures IsView(r)
    ensures forall x: nat, y: nat | x < ViewWidth && y < ViewHeight && !UnderTile(x, y, v, textures) :: r.At(x, y) == view.At(x, y)
  {
    var c := IsoCoord(v.x, v.y, v.z);
    var r := BlitSpec(view, textures[v.blockId], c.0, c.1);
    assert forall x: nat, y: nat | x < ViewWidth && y < ViewHeight && !UnderTile(x, y, v, textures) :: r.At(x, y) == view.At(x, y) by {
      forall x: nat, y: nat | x < ViewWidth && y < ViewHeight && !UnderTile(x, y, v, textures)
        ensures r.At(x, y) == view.At(x, y)
      {
        BlitSpecAt(view, textures[v.blockId], c.0, c.1, x, y);
      }
    }
    r
  }

  /** The left fold of `BlitVoxel` over the voxels, first voxel first. */
  function Render(view: ImageBuffer, voxels: seq<Voxel>, textures: map<u16, ImageBuffer>): (r: ImageBuffer)
    requires IsView(view)
    requires forall i | 0 <= i < |voxels| :: Drawable(voxels[i], textures)
    ensures IsView(r)
  {
    if |voxels| == 0 then view
    else BlitVoxel(Render(view, voxels[..|voxels| - 1], textures), voxels[|voxels| - 1], textures)
  }

  /** Whether canvas pixel (x, y) lies under voxel `v`'s tile. */
  predicate UnderTile(x: nat, y: nat, v: Voxel, textures: map<u16, ImageBuffer>)
  {
    && v.blockId in textures
    && var c, tile := IsoCoord(v.x, v.y, v.z), textures[v.blockId];
       c.0 <= x < c.0 + tile.width && c.1 <= y < c.1 + tile.height
  }

  /** A pixel under no voxel's tile keeps its initial value: nothing is drawn outside the footprints. */
  lemma {:induction false} RenderOutsideFootprints(view: ImageBuffer, voxels: seq<Voxel>, textures: map<u16, ImageBuffer>, x: nat, y: nat)
    requires IsView(view)
    requires forall i | 0 <= i < |voxels| :: Drawable(voxels[i], textures)
    requires x < ViewWidth && y < ViewHeight
    requires forall i | 0 <= i < |voxels| :: !UnderTile(x, y, voxels[i], textures)
    ensures Render(view, voxels, textures).At(x, y) == view.At(x, y)
  {
    if |voxels| > 0 {
      var n := |voxels| - 1;
      RenderOutsideFootprints(view, voxels[..n], textures, x, y);
      var v := voxels[n];
      var c := IsoCoord(v.x, v.y, v.z);
      BlitSpecAt(Render(view, voxels[..n], textures), textures[v.blockId], c.0, c.1, x, y);
    }
  }

  /**
   Painter's algorithm: where the last voxel's tile is opaque, the final
   pixel is that tile's pixel, whatever was drawn before.
   */
  lemma RenderLastOpaqueWins(view: ImageBuffer, voxels: seq<Voxel>, textures: map<u16, ImageBuffer>, x: nat, y: nat)
    requires IsView(view) && x < ViewWidth && y < ViewHeight
    requires forall i | 0 <= i < |voxels| :: Drawable(voxels[i], textures)
    requires |voxels| > 0 && Drawable(voxels[|voxels| - 1], textures)
    requires var last := voxels[|voxels| - 1];
      UnderTile(x, y, last, textures) &&
      var c := IsoCoord(last.x, last.y, last.z);
      textures[last.blockId].At(x - c.0, y - c.1).a == 255
    ensures var last := voxels[|voxels| - 1];
      var c := IsoCoord(last.x, last.y, last.z);
      Render(view, voxels, textures).At(x, y) == textures[last.blockId].At(x - c.0, y - c.1)
  {
    var n := |voxels| - 1;
    var last := voxels[n];
    var prev := Render(view, voxels[..n], textures);
    var c := IsoCoord(last.x, last.y, last.z);
    BlitSpecAt(prev, textures[last.blockId], c.0, c.1, x, y);
  }

  /** The voxel loop of `render_segment`: each voxel's tile blitted at its mapped offset, in sequence order. */
  method RenderVoxels(view: Canvas, voxels: seq<Voxel>, textures: map<u16, ImageBuffer>)
    requires view.Valid() && view.width == ViewWidth && view.height == ViewHeight
    requires forall i | 0 <= i < |voxels| :: Drawable(voxels[i], textures)
    modifies view.pixels
    ensures view.Contents() == Render(old(view.Contents()), voxels, textures)
  {
    for i := 0 to |voxels|
      invariant view.Contents() == Render(old(view.Contents()), voxels[..i], textures)
    {
      var v := voxels[i];
      var coords := IsoCoord(v.x, v.y, v.z);
      var texture := textures[v.blockId];
      assert voxels[..i + 1][..i] == voxels[..i];
      view.Blit(texture, coords.0, coords.1);
    }
    assert voxels[..|voxels|] == voxels;
  }

  /**
   `render_segment` without the reader and the PNG output: build the texture
   library from the palette, allocate the all-zero view, blit every voxel.
   */
  method RenderSegment(palette: seq<PaletteEntry>, voxels: seq<Voxel>, process: string -> ImageBuffer) returns (view: Canvas)
    requires forall i | 0 <= i < |voxels| :: Drawable(voxels[i], Library(palette, process))
    ensures fresh(view.pixels) && view.Valid() && view.width == ViewWidth && view.height == ViewHeight
    ensures view.Contents() == Render(Blank(ViewWidth, ViewHeight), voxels, Library(palette, process))
  {
    var textures := BuildTextures(palette, process);
    view := new Canvas(ViewWidth, ViewHeight);
    RenderVoxels(view, voxels, textures);
  }
}
