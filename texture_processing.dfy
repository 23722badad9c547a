/**
 Per-pixel texture operations on 16 x 16 RGBA tiles: tinting, cropping, the
 fallback tile and the multi-layer composite used to assemble isometric block
 faces. Each operation allocates a fresh 16 x 16 buffer and fills it pixel by
 pixel in row-major order, as `enumerate_pixels_mut` does.
 */
module TextureProcessing {
  import opened Images

  // ---------------------------------------------------------------------------
  // tint and biome_tint
  // ---------------------------------------------------------------------------

  /** A per-channel tint factor `(u16, u16, u16)`. */
  type Factor = (u16, u16, u16)

  /** The fixed factor of `biome_tint`. */
  const BiomeFactor: Factor := (100, 200, 50)

  /**
   One tinted channel: `(s as u16 * f / 255) as u8`. The product wraps in
   `u16` and the quotient is truncated to eight bits, as a release build does.
   For factors up to 255 neither happens and the channel is `s * f / 255`,
   never brighter than `s`.
   */
  function TintChannel(s: byte, f: u16): (c: byte)
    ensures f <= 255 ==> c == s * f / 255 && c <= s
  {
    assert f <= 255 ==> s * f <= 255 * 255 && s * f / 255 <= s by {
      if f <= 255 {
        MulMonotone(f, 255, s);
        MulMonotone(s, 255, f);
      }
    }
    AsU8(WrapU16(s * f) / 255)
  }

  /** How far the factor may go: up to 257 the `u16` product cannot wrap, and at 256 the `as u8` can already truncate. */
  lemma TintChannelLimits(s: byte, f: u16)
    ensures f <= 257 ==> s * f <= 0xFFFF
    ensures TintChannel(255, 256) == 0
  {
    if f <= 257 {
      MulMonotone(s, 255, f);
      MulMonotone(f, 257, 255);
    }
  }

  /** One tinted pixel: the three colour channels scaled, alpha copied. */
  function TintPixel(p: Rgba, factor: Factor): (t: Rgba)
    ensures t.a == p.a
    ensures factor.0 <= 255 && factor.1 <= 255 && factor.2 <= 255 ==> t.r <= p.r && t.g <= p.g && t.b <= p.b
  {
    Rgba(TintChannel(p.r, factor.0), TintChannel(p.g, factor.1), TintChannel(p.b, factor.2), p.a)
  }

  /** A factor of 255 on every channel changes no pixel. */
  lemma TintPixelFullFactor(p: Rgba)
    ensures TintPixel(p, (255, 255, 255)) == p
  {
    assert TintChannel(p.r, 255) == p.r;
    assert TintChannel(p.g, 255) == p.g;
    assert TintChannel(p.b, 255) == p.b;
  }

  /** `tint`: a fresh 16 x 16 buffer whose pixel (x, y) is the tinted source pixel (x, y). */
  method Tint(source: ImageBuffer, factor: Factor) returns (t: ImageBuffer)
    requires source.CoversTile()
    ensures t.IsTile()
    ensures forall x: nat, y: nat | x < TileSize && y < TileSize :: t.At(x, y) == TintPixel(source.At(x, y), factor)
    ensures source.IsTile() && factor == (255, 255, 255) ==> t == source
  {
    var buf := new Rgba[TileSize * TileSize](_ => Zero);
    for i := 0 to TileSize * TileSize
      invariant forall k | 0 <= k < i :: buf[k] == TintPixel(source.At(k % TileSize, k / TileSize), factor)
    {
      var x, y := i % TileSize, i / TileSize;
      buf[i] := TintPixel(source.At(x, y), factor);
    }
    t := ImageBuffer(TileSize, TileSize, buf[..]);
    forall x: nat, y: nat | x < TileSize && y < TileSize
      ensures t.At(x, y) == TintPixel(source.At(x, y), factor)
    {
      RowMajorDivMod(x, y, TileSize);
    }
    if source.IsTile() && factor == (255, 255, 255) {
      forall x: nat, y: nat | x < TileSize && y < TileSize
        ensures t.At(x, y) == source.At(x, y)
      {
        TintPixelFullFactor(source.At(x, y));
      }
      ExtensionalEquality(t, source);
    }
  }

  /** `biome_tint`: `tint` with the fixed factor (100, 200, 50); opaque white becomes exactly (100, 200, 50, 255). */
  method BiomeTint(source: ImageBuffer) returns (t: ImageBuffer)
    requires source.CoversTile()
    ensures t.IsTile()
    ensures forall x: nat, y: nat | x < TileSize && y < TileSize :: t.At(x, y) == TintPixel(source.At(x, y), BiomeFactor)
    ensures forall x: nat, y: nat | x < TileSize && y < TileSize && source.At(x, y) == Rgba(255, 255, 255, 255) ::
      t.At(x, y) == Rgba(100, 200, 50, 255)
  {
    t := Tint(source, BiomeFactor);
  }

  // ---------------------------------------------------------------------------
  // crop16 and transparent
  // ---------------------------------------------------------------------------

  /** `crop16`: the top-left 16 x 16 pixels of a buffer at least that large; a 16 x 16 buffer comes back unchanged. */
  method Crop16(tex: ImageBuffer) returns (t: ImageBuffer)
    requires tex.CoversTile()
    ensures t.IsTile()
    ensures forall x: nat, y: nat | x < TileSize && y < TileSize :: t.At(x, y) == tex.At(x, y)
    ensures tex.IsTile() ==> t == tex
  {
    var buf := new Rgba[TileSize * TileSize](_ => Zero);
    for i := 0 to TileSize * TileSize
      invariant forall k | 0 <= k < i :: buf[k] == tex.At(k % TileSize, k / TileSize)
    {
      buf[i] := tex.At(i % TileSize, i / TileSize);
    }
    t := ImageBuffer(TileSize, TileSize, buf[..]);
    forall x: nat, y: nat | x < TileSize && y < TileSize
      ensures t.At(x, y) == tex.At(x, y)
    {
      RowMajorDivMod(x, y, TileSize);
    }
    if tex.IsTile() {
      ExtensionalEquality(t, tex);
    }
  }

  /** `transparent`: the fallback tile. Despite the name every pixel is opaque black. */
  method Transparent() returns (t: ImageBuffer)
    ensures t.IsTile()
    ensures forall x: nat, y: nat | x < TileSize && y < TileSize :: t.At(x, y) == Rgba(0, 0, 0, 255)
  {
    var buf := new Rgba[TileSize * TileSize](_ => Zero);
    for i := 0 to TileSize * TileSize
      invariant forall k | 0 <= k < i :: buf[k] == Rgba(0, 0, 0, 255)
    {
      buf[i] := Rgba(0, 0, 0, 255);
    }
    t := ImageBuffer(TileSize, TileSize, buf[..]);
    forall x: nat, y: nat | x < TileSize && y < TileSize
      ensures t.At(x, y) == Rgba(0, 0, 0, 255)
    {
      RowMajorInBounds(x, y, TileSize, TileSize);
    }
  }

  // ---------------------------------------------------------------------------
  // composite_block_faces: the per-pixel fold
  // ---------------------------------------------------------------------------

  /** The fold's `(u16, u16, u16, u16)` accumulator. */
  datatype Acc = Acc(r: u16, g: u16, b: u16, a: u16)

  /**
   One fold step: colour is blended "over" the accumulator with the layer's
   alpha, alpha is added (wrapping in `u16`). The colour accumulator never
   leaves 0..255, and an opaque layer replaces it outright.
   */
  function Step(acc: Acc, v: Rgba): (next: Acc)
    requires acc.r <= 255 && acc.g <= 255 && acc.b <= 255
    ensures next.r <= 255 && next.g <= 255 && next.b <= 255
    ensures v.a == 255 ==> next.r == v.r && next.g == v.g && next.b == v.b
    ensures v.a == 0 ==> next == acc
  {
    Acc(OverChannel(acc.r, v.r, v.a), OverChannel(acc.g, v.g, v.a), OverChannel(acc.b, v.b, v.a),
        WrapU16(acc.a + v.a))
  }

  /** The fold over the layers, bottom layer first, from (0, 0, 0, 0). */
  function Fold(layers: seq<Rgba>): (acc: Acc)
    ensures acc.r <= 255 && acc.g <= 255 && acc.b <= 255
  {
    if |layers| == 0 then Acc(0, 0, 0, 0)
    else Step(Fold(layers[..|layers| - 1]), layers[|layers| - 1])
  }

  /** `x.min(255) as u8`. */
  function Min255(x: nat): (r: byte)
    ensures r <= x && (x <= 255 ==> r == x)
  {
    if x < 255 then x else 255
  }

  /**
   The composite pixel of a stack of layers: the fold, every channel clamped
   to 255. The clamp never changes a colour channel, since the fold keeps
   them within 0..255; only alpha can need it.
   */
  function CompositePixel(layers: seq<Rgba>): (p: Rgba)
    ensures p.r == Fold(layers).r && p.g == Fold(layers).g && p.b == Fold(layers).b
  {
    var acc := Fold(layers);
    Rgba(Min255(acc.r), Min255(acc.g), Min255(acc.b), Min255(acc.a))
  }

  /** Sum of the layers' alphas, as exact integers. */
  function AlphaSum(layers: seq<Rgba>): nat
  {
    if |layers| == 0 then 0 else AlphaSum(layers[..|layers| - 1]) + layers[|layers| - 1].a
  }

  /** The alpha accumulator is the alpha sum modulo 2^16, whatever the number of layers. */
  lemma {:induction false} FoldAlpha(layers: seq<Rgba>)
    ensures Fold(layers).a == AlphaSum(layers) % 0x1_0000
  {
    if |layers| > 0 {
      var init := layers[..|layers| - 1];
      FoldAlpha(init);
      ModAddCongruent(AlphaSum(init), layers[|layers| - 1].a, 0x1_0000);
    }
  }

  /**
   Alpha accumulated with a clamp at every layer, `min(255, acc + layer_a)`,
   the alternative to the single clamp after the sum that the code applies.
   */
  function ClampedAlpha(layers: seq<Rgba>): byte
  {
    if |layers| == 0 then 0 else Min255(ClampedAlpha(layers[..|layers| - 1]) + layers[|layers| - 1].a)
  }

  /** Clamping at every layer gives the clamped sum, for any number of layers. */
  lemma {:induction false} ClampedAlphaSum(layers: seq<Rgba>)
    ensures ClampedAlpha(layers) == Min255(AlphaSum(layers))
  {
    if |layers| > 0 {
      ClampedAlphaSum(layers[..|layers| - 1]);
    }
  }

  /** Up to 257 layers the code's composite alpha equals the per-layer clamp. */
  lemma CompositeAlphaPerLayerClamp(layers: seq<Rgba>)
    requires |layers| <= 257
    ensures CompositePixel(layers).a == ClampedAlpha(layers)
  {
    CompositeAlpha(layers);
    ClampedAlphaSum(layers);
  }

  /** A stack of `n` opaque black layers. */
  function OpaqueStack(n: nat): (s: seq<Rgba>)
    ensures |s| == n
  {
    seq(n, _ => Rgba(0, 0, 0, 255))
  }

  lemma {:induction false} OpaqueStackAlpha(n: nat)
    ensures AlphaSum(OpaqueStack(n)) == 255 * n
  {
    if n > 0 {
      assert OpaqueStack(n)[..n - 1] == OpaqueStack(n - 1);
      OpaqueStackAlpha(n - 1);
    }
  }

  /** A stack of `n` opaque layers: the code's alpha is `255 * n` wrapped to `u16` and clamped; a per-layer clamp is 255. */
  lemma CompositeAlphaOpaqueStack(n: nat)
    requires n > 0
    ensures CompositePixel(OpaqueStack(n)).a == Min255(255 * n % 0x1_0000)
    ensures ClampedAlpha(OpaqueStack(n)) == 255
  {
    OpaqueStackAlpha(n);
    FoldAlpha(OpaqueStack(n));
    ClampedAlphaSum(OpaqueStack(n));
  }

  /**
   From 258 layers on the two can differ: 258 opaque layers sum to 65790,
   which the `u16` accumulator wraps to 254, while a per-layer clamp stays at 255.
   */
  lemma CompositeAlphaWrapsAt258(n: nat)
    requires n == 258
    ensures CompositePixel(OpaqueStack(n)).a == 254
    ensures ClampedAlpha(OpaqueStack(n)) == 255
  {
    CompositeAlphaOpaqueStack(n);
  }

  lemma {:induction false} AlphaSumBound(layers: seq<Rgba>)
    ensures AlphaSum(layers) <= |layers| * 255
  {
    if |layers| > 0 {
      AlphaSumBound(layers[..|layers| - 1]);
    }
  }

  /** With at most 257 layers the `u16` alpha sum cannot wrap: composite alpha is min(255, sum of alphas). */
  lemma CompositeAlpha(layers: seq<Rgba>)
    requires |layers| <= 257
    ensures CompositePixel(layers).a == if AlphaSum(layers) < 255 then AlphaSum(layers) else 255
  {
    FoldAlphaExact(layers);
  }

  /** With at most 257 layers the alpha accumulator is the exact sum. */
  lemma FoldAlphaExact(layers: seq<Rgba>)
    requires |layers| <= 257
    ensures Fold(layers).a == AlphaSum(layers)
  {
    FoldAlpha(layers);
    AlphaSumBound(layers);
    MulMonotone(|layers|, 257, 255);
    DivModUnique(0, AlphaSum(layers), 0x1_0000);
  }

  /** Taking layer `i` out of the stack removes exactly its alpha from the sum. */
  lemma {:induction false} AlphaSumRemove(t: seq<Rgba>, i: nat)
    requires i < |t|
    ensures AlphaSum(t) == AlphaSum(t[..i] + t[i + 1..]) + t[i].a
  {
    var n := |t| - 1;
    var rest := t[..i] + t[i + 1..];
    if i == n {
      assert rest == t[..n];
    } else {
      var init := t[..n];
      AlphaSumRemove(init, i);
      assert rest[..|rest| - 1] == init[..i] + init[i + 1..];
      assert rest[|rest| - 1] == t[n];
    }
  }

  lemma MultisetRemove(s: seq<Rgba>, t: seq<Rgba>, i: nat)
    requires multiset(s) == multiset(t) && |s| > 0 && i < |t| && t[i] == s[|s| - 1]
    ensures multiset(s[..|s| - 1]) == multiset(t[..i] + t[i + 1..])
  {
    var v, init, rest := s[|s| - 1], s[..|s| - 1], t[..i] + t[i + 1..];
    assert s == init + [v];
    assert t == t[..i] + [v] + t[i + 1..];
    assert multiset(s) == multiset(init) + multiset{v};
    assert multiset(t) == multiset(t[..i]) + multiset{v} + multiset(t[i + 1..]);
    assert multiset(rest) == multiset(t[..i]) + multiset(t[i + 1..]);
    assert multiset(init) + multiset{v} == multiset(rest) + multiset{v};
    assert multiset(init) == multiset(init) + multiset{v} - multiset{v};
  }

  /** The alpha sum depends only on the multiset of layers, not on their order. */
  lemma {:induction false} AlphaSumPermutation(s: seq<Rgba>, t: seq<Rgba>)
    requires multiset(s) == multiset(t)
    ensures AlphaSum(s) == AlphaSum(t)
    decreases |s|
  {
    if |s| == 0 {
      assert |t| == |multiset(t)| == 0;
    } else {
      var v := s[|s| - 1];
      assert v in multiset(t) by {
        assert v in multiset(s);
      }
      var i :| 0 <= i < |t| && t[i] == v;
      MultisetRemove(s, t, i);
      AlphaSumPermutation(s[..|s| - 1], t[..i] + t[i + 1..]);
      AlphaSumRemove(t, i);
    }
  }

  /** Composite alpha is independent of the order of the layers, for any number of layers. */
  lemma CompositeAlphaOrderIndependent(s: seq<Rgba>, t: seq<Rgba>)
    requires multiset(s) == multiset(t)
    ensures CompositePixel(s).a == CompositePixel(t).a
  {
    FoldAlpha(s);
    FoldAlpha(t);
    AlphaSumPermutation(s, t);
  }

  /** An opaque top layer (with at most 257 layers in all) is exactly what the composite shows. */
  lemma CompositeOpaqueTop(layers: seq<Rgba>)
    requires 0 < |layers| <= 257 && layers[|layers| - 1].a == 255
    ensures CompositePixel(layers) == layers[|layers| - 1]
  {
    CompositeAlpha(layers);
  }

  /** No layers give the fold's initial value, (0, 0, 0, 0). */
  lemma CompositeNoLayers()
    ensures CompositePixel([]) == Zero
  {
  }

  /** Three layers: alpha is the clamped sum of the three, and an opaque top layer shows through unchanged. */
  lemma CompositeThree(p: Rgba, q: Rgba, v: Rgba)
    ensures var sum := p.a + q.a + v.a;
      CompositePixel([p, q, v]).a == if sum < 255 then sum else 255
    ensures v.a == 255 ==> CompositePixel([p, q, v]) == v
  {
    var col := [p, q, v];
    assert AlphaSum([p]) == p.a by { assert [p][..0] == []; }
    assert AlphaSum([p, q]) == p.a + q.a by { assert [p, q][..1] == [p]; }
    assert AlphaSum(col) == p.a + q.a + v.a by { assert col[..2] == [p, q]; }
    CompositeAlpha(col);
    if v.a == 255 {
      CompositeOpaqueTop(col);
    }
  }

  // ---------------------------------------------------------------------------
  // composite_block_faces: the buffer
  // ---------------------------------------------------------------------------

  /** Every face is at least 16 x 16, as `get_pixel` on each face demands. */
  predicate AllCoverTile(faces: seq<ImageBuffer>) {
    forall i | 0 <= i < |faces| :: faces[i].CoversTile()
  }

  /** The pixels at (x, y) of every face, bottom face first. */
  function Column(faces: seq<ImageBuffer>, x: nat, y: nat): (col: seq<Rgba>)
    requires AllCoverTile(faces)
    requires x < TileSize && y < TileSize
  {
    seq(|faces|, i requires 0 <= i < |faces| => faces[i].At(x, y))
  }

  /**
   `composite_block_faces`: each pixel of the result is the composite of the
   faces' pixels at the same position. No faces give an all-zero tile, and a
   single opaque 16 x 16 face comes back unchanged.
   */
  method CompositeBlockFaces(faces: seq<ImageBuffer>) returns (t: ImageBuffer)
    requires AllCoverTile(faces)
    ensures t.IsTile()
    ensures forall x: nat, y: nat | x < TileSize && y < TileSize :: t.At(x, y) == CompositePixel(Column(faces, x, y))
    ensures faces == [] ==> forall x: nat, y: nat | x < TileSize && y < TileSize :: t.At(x, y) == Zero
    ensures |faces| == 1 && faces[0].IsTile() &&
            (forall x: nat, y: nat | x < TileSize && y < TileSize :: faces[0].At(x, y).a == 255) ==>
            t == faces[0]
  {
    var buf := new Rgba[TileSize * TileSize](_ => Zero);
    for i := 0 to TileSize * TileSize
      invariant forall k | 0 <= k < i :: buf[k] == CompositePixel(Column(faces, k % TileSize, k / TileSize))
    {
      buf[i] := CompositePixel(Column(faces, i % TileSize, i / TileSize));
    }
    t := ImageBuffer(TileSize, TileSize, buf[..]);
    forall x: nat, y: nat | x < TileSize && y < TileSize
      ensures t.At(x, y) == CompositePixel(Column(faces, x, y))
    {
      RowMajorDivMod(x, y, TileSize);
    }
    if faces == [] {
      CompositeNoLayers();
    }
    if |faces| == 1 && faces[0].IsTile() &&
       (forall x: nat, y: nat | x < TileSize && y < TileSize :: faces[0].At(x, y).a == 255) {
      SingleOpaqueFace(t, faces);
    }
  }

  /** A tile composited from one opaque 16 x 16 face is that face. */
  lemma SingleOpaqueFace(t: ImageBuffer, faces: seq<ImageBuffer>)
    requires |faces| == 1 && faces[0].IsTile() && t.IsTile()
    requires forall x: nat, y: nat | x < TileSize && y < TileSize :: faces[0].At(x, y).a == 255
    requires forall x: nat, y: nat | x < TileSize && y < TileSize :: t.At(x, y) == CompositePixel(Column(faces, x, y))
    ensures t == faces[0]
  {
    forall x: nat, y: nat | x < TileSize && y < TileSize
      ensures t.At(x, y) == faces[0].At(x, y)
    {
      CompositeOpaqueTop(Column(faces, x, y));
    }
    ExtensionalEquality(t, faces[0]);
  }

  /**
   The last step of `full_isometric_sides`: the three warped faces composited
   in the order x, y, z. Wherever the z face is opaque the tile shows it, and
   the alpha is the clamped sum of the three faces' alphas.
   */
  method IsometricFromFaces(faceX: ImageBuffer, faceY: ImageBuffer, faceZ: ImageBuffer) returns (t: ImageBuffer)
    requires faceX.CoversTile() && faceY.CoversTile() && faceZ.CoversTile()
    ensures t.IsTile()
    ensures forall x: nat, y: nat | x < TileSize && y < TileSize ::
      t.At(x, y) == CompositePixel([faceX.At(x, y), faceY.At(x, y), faceZ.At(x, y)])
    ensures forall x: nat, y: nat | x < TileSize && y < TileSize && faceZ.At(x, y).a == 255 ::
      t.At(x, y) == faceZ.At(x, y)
    ensures forall x: nat, y: nat | x < TileSize && y < TileSize ::
      var sum := faceX.At(x, y).a + faceY.At(x, y).a + faceZ.At(x, y).a;
      t.At(x, y).a == if sum < 255 then sum else 255
  {
    t := CompositeBlockFaces([faceX, faceY, faceZ]);
    forall x: nat, y: nat | x < TileSize && y < TileSize
      ensures t.At(x, y) == CompositePixel([faceX.At(x, y), faceY.At(x, y), faceZ.At(x, y)])
    {
      assert Column([faceX, faceY, faceZ], x, y) == [faceX.At(x, y), faceY.At(x, y), faceZ.At(x, y)];
    }
    forall x: nat, y: nat | x < TileSize && y < TileSize
      ensures faceZ.At(x, y).a == 255 ==> t.At(x, y) == faceZ.At(x, y)
      ensures var sum := faceX.At(x, y).a + faceY.At(x, y).a + faceZ.At(x, y).a;
        t.At(x, y).a == if sum < 255 then sum else 255
    {
      CompositeThree(faceX.At(x, y), faceY.At(x, y), faceZ.At(x, y));
    }
  }
}
