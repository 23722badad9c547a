# mc-isometric-rend: texture processing and segment compositing in Dafny

mc-isometric-rend pre-renders a region of a Minecraft world as one isometric
PNG. It turns each block's 16 × 16 texture into an isometric tile. Then it
blends every voxel's tile, "over" style, onto a 2048 × 3072 canvas, at an
offset given by a fixed integer coordinate mapping and in the order the
segment reader supplies the voxels (painter's algorithm).

This project models that core and proves properties of it. The model has three modules:

- `Images` (`images.dfy`):
  - `Rgba<u8>` pixels and row-major `ImageBuffer`s;
  - Rust's integer widths (`byte`, `u16`, `u32`, `i32`) as subset types, with the wrapping casts `as u8`, `u16` wrap-around and `as u32`;
  - the truncating "over" colour channel that both blending routines share;
  - the row-major and Euclidean-division lemmas.
- `TextureProcessing` (`texture_processing.dfy`):
  - `tint`, `biome_tint`, `crop16`, `transparent` and `composite_block_faces`;
  - the final face composite of `full_isometric_sides`.

  Each texture operation is a method. It fills a fresh 256-entry pixel array in one loop over the 16 × 16 positions, as `enumerate_pixels_mut` does. Each method is proved against a per-pixel specification function.
- `Compositor` (`compositor.dfy`):
  - `image_buffer_blit` as the in-place method `Canvas.Blit`, proved against the value-level `BlitSpec`;
  - `isometric_coord_mapping`;
  - the palette loop that builds the `HashMap<u16, Texture>`, modelled as a `map` built by `BuildTextures`;
  - the voxel loop of `render_segment` (`RenderVoxels`, `RenderSegment`), specified by the fold `Render`.

Release-build integer semantics are modelled where an overflow can actually happen:
- The `u16` product in `tint` wraps around when the factor is above 257.
- The `u16` alpha sum in `composite_block_faces` wraps around beyond 257 layers.
- The `i32` to `u32` coordinate cast keeps the value modulo 2^32.

Everywhere else, the `byte` result types of the channel functions carry the proof that no `u16` intermediate overflows and that each `as u8` is exact.

Two points of the code's numeric behaviour are worth stating explicitly:

- The composite alpha is added up in a wrapping `u16` and clamped to 255 only once, after the fold (`src/texture_processing.rs:123` and `:130`). A clamp at every layer, `min(255, acc_a + layer_a)`, is modelled as `ClampedAlpha`, and `ClampedAlphaSum` proves that it always gives `min(255, sum of alphas)`. `CompositeAlphaPerLayerClamp` proves that the code agrees with it for up to 257 layers. `CompositeAlphaWrapsAt258` shows where they part: 258 opaque layers give 254 in the code and 255 with the per-layer clamp.
- The canvas starts all zero (transparent black), because `ImageBuffer::new` allocates it zero-filled (`src/compositor.rs:22-25`); `Canvas.constructor` models that.

## Model

| member | source | states |
|---|---|---|
| Images.OverChannel | src/compositor.rs:49-54 | one truncating over-blend colour channel never exceeds the larger of its two inputs (so the `u16` arithmetic cannot overflow and `as u8` is exact); source alpha 0 keeps the target channel and 255 gives the source channel |
| Images.AsU8 | src/texture_processing.rs:16-18 | `as u8` keeps the low eight bits, so it is the identity on values below 256 |
| Images.WrapU16 | src/texture_processing.rs:123 | wrapping `u16` arithmetic keeps the exact value below 2^16 |
| Images.AsU32 | src/compositor.rs:74 | `as u32` of a two's-complement value is congruent to it modulo 2^32, and is the identity on values already in `u32` range |
| TextureProcessing.TintChannel | src/texture_processing.rs:16-18 | for every factor up to 255, a tinted channel is exactly `s * f / 255` (truncating) and never brighter than the source channel |
| TextureProcessing.TintChannelLimits | src/texture_processing.rs:16-18 | the `u16` product cannot overflow for factors up to 257; factor 256 on channel 255 wraps around to 0 |
| TextureProcessing.TintPixel | src/texture_processing.rs:15-20 | a tinted pixel keeps its alpha, and with every factor at most 255 no colour channel gets brighter |
| TextureProcessing.TintPixelFullFactor | src/texture_processing.rs:15-20 | tinting with (255, 255, 255) leaves a pixel unchanged, alpha included |
| TextureProcessing.Tint | src/texture_processing.rs:11-23 | the result is 16 × 16; each pixel is the tinted source pixel at the same (x, y), alpha copied; on a 16 × 16 source the factor (255, 255, 255) returns the source itself |
| TextureProcessing.BiomeTint | src/texture_processing.rs:7-9 | tints with (100, 200, 50): every opaque white pixel becomes exactly (100, 200, 50, 255) |
| TextureProcessing.Crop16 | src/texture_processing.rs:25-32 | the result is the top-left 16 × 16 of the source, pixel for pixel; a 16 × 16 source comes back unchanged |
| TextureProcessing.Transparent | src/texture_processing.rs:34-40 | a 16 × 16 tile in which every pixel is opaque black (0, 0, 0, 255) |
| TextureProcessing.Step | src/texture_processing.rs:118-124 | one fold step keeps every colour accumulator within 0..255; an opaque layer replaces the colour; a transparent layer leaves the accumulator unchanged |
| TextureProcessing.Fold | src/texture_processing.rs:112-125 | the fold from (0, 0, 0, 0), bottom layer first, keeps every colour accumulator within 0..255 whatever the layers |
| TextureProcessing.Min255 | src/texture_processing.rs:127-130 | `min(255)` never increases a value and leaves values up to 255 unchanged |
| TextureProcessing.CompositePixel | src/texture_processing.rs:112-131 | the clamp to 255 never changes a colour channel of the fold; only alpha can be clamped |
| TextureProcessing.FoldAlpha | src/texture_processing.rs:123 | the accumulated alpha is the sum of the layer alphas modulo 2^16 |
| TextureProcessing.AlphaSumBound | src/texture_processing.rs:123 | the alpha sum of n layers is at most 255 · n |
| TextureProcessing.CompositeAlpha | src/texture_processing.rs:123-130 | for up to 257 layers, the composite alpha is `min(255, sum of layer alphas)`, with no wrap-around |
| TextureProcessing.ClampedAlphaSum | src/texture_processing.rs:123-130 | a clamp at every layer would give `min(255, sum of alphas)` for any number of layers |
| TextureProcessing.CompositeAlphaPerLayerClamp | src/texture_processing.rs:123-130 | for up to 257 layers the code's single clamp after the sum equals a clamp at every layer |
| TextureProcessing.CompositeAlphaOpaqueStack | src/texture_processing.rs:123-130 | n opaque layers give alpha `min(255, 255 · n mod 2^16)` in the code |
| TextureProcessing.CompositeAlphaWrapsAt258 | src/texture_processing.rs:123-130 | 258 opaque layers give alpha 254, where a per-layer clamp gives 255: the 257-layer bound is exact |
| TextureProcessing.AlphaSumPermutation | src/texture_processing.rs:123 | the alpha sum is the same for any reordering of the layers |
| TextureProcessing.CompositeAlphaOrderIndependent | src/texture_processing.rs:123-130 | two layer stacks with the same layers in any order give the same composite alpha |
| TextureProcessing.CompositeOpaqueTop | src/texture_processing.rs:118-131 | for 1 to 257 layers whose top layer is opaque, the composite pixel is the top layer's pixel |
| TextureProcessing.CompositeNoLayers | src/texture_processing.rs:118-131 | no layers give the transparent black pixel |
| TextureProcessing.CompositeThree | src/texture_processing.rs:118-131 | over three layers the alpha is `min(255, a1 + a2 + a3)`, and an opaque third layer decides the pixel |
| TextureProcessing.Column | src/texture_processing.rs:112-117 | no contract of its own: the faces' pixels at (x, y), bottom face first, the input of the fold |
| TextureProcessing.CompositeBlockFaces | src/texture_processing.rs:109-134 | the result is 16 × 16; pixel (x, y) composites the faces' pixels at (x, y), in face order; no faces give all-transparent; one opaque 16 × 16 face gives that face back |
| TextureProcessing.IsometricFromFaces | src/texture_processing.rs:95 | compositing (left, top, right): where the right face is opaque its pixel wins, and alpha is the clamped sum of the three |
| Compositor.Blend | src/compositor.rs:47-56 | an opaque source pixel replaces the target, a transparent one leaves it unchanged, and the resulting alpha is at least both input alphas; no channel overflows |
| Compositor.BlitSpec | src/compositor.rs:45-58 | the blit as a value: the result has the target's shape (pixel by pixel, `BlitSpecAt`) |
| Compositor.BlitSpecAt | src/compositor.rs:45-58 | after a blit, pixel (x, y) is the blend of the target with source pixel (x - ox, y - oy) inside the source window and unchanged outside it |
| Compositor.BlitOpaqueOverwrites | src/compositor.rs:45-58 | blitting a fully opaque source of the canvas's size at (0, 0) leaves exactly the source |
| Compositor.BlitTransparentIdentity | src/compositor.rs:45-58 | blitting a fully transparent source leaves the canvas unchanged |
| Compositor.Canvas.constructor | src/compositor.rs:22-25 | a fresh canvas of the requested size, every pixel (0, 0, 0, 0) |
| Compositor.Canvas.Blit | src/compositor.rs:40-59 | the in-place row-by-row blit leaves exactly the canvas that `BlitSpec` describes |
| Compositor.Blank | src/compositor.rs:22-25 | the all-zero image of the given size |
| Compositor.IsoOffset | src/compositor.rs:61-72 | the exact offset lies on the tile grid: x is 1016 plus a multiple of 8, y is 2040 plus a multiple of 4 |
| Compositor.IsoCoord | src/compositor.rs:61-75 | the `u32` result is congruent to the exact offset modulo 2^32, and equals it for every in-segment voxel |
| Compositor.IsoOffsetLinear | src/compositor.rs:61-72 | origin (1016, 2040); a step in x adds (-8, +4), in z (+8, +4), in y (0, -8) |
| Compositor.IsoOffsetDiagonal | src/compositor.rs:61-72 | one step along x, y and z together leaves the offset unchanged, so the mapping is not injective and draw order decides |
| Compositor.IsoCoordSteps | src/compositor.rs:61-75 | the same steps hold on the `u32` result modulo 2^32, for every `i32` input |
| Compositor.IsoCoordInCanvas | src/compositor.rs:7-8 | every voxel with 0 ≤ x, z < 128 and 0 ≤ y < 256 maps without wrap-around to a non-negative offset whose 16 × 16 tile lies inside the 2048 × 3072 canvas (dimensions at src/compositor.rs:22-25) |
| Compositor.IsoCanvasTight | src/compositor.rs:22-25 | each of the canvas's four edges is reached by some in-segment voxel's tile, so the canvas is no larger than needed |
| Compositor.Library | src/compositor.rs:14-20 | every id carried by a palette entry has a texture |
| Compositor.LibraryKeys | src/compositor.rs:17-20 | a block id has a texture exactly when some palette entry carries it |
| Compositor.LibraryLast | src/compositor.rs:17-20 | the last palette entry with a given id decides that id's texture |
| Compositor.BuildTextures | src/compositor.rs:14-20 | the palette loop inserts one processed texture per entry, in palette order |
| Compositor.InSegmentDrawable | src/compositor.rs:27-33 | every in-segment voxel whose id has a 16 × 16 tile can be blitted without leaving the canvas |
| Compositor.BlitVoxel | src/compositor.rs:29-33 | blitting one voxel keeps the view's shape and changes no pixel outside its tile |
| Compositor.Render | src/compositor.rs:27-34 | blitting the voxels in order preserves the view's 2048 × 3072 shape |
| Compositor.RenderOutsideFootprints | src/compositor.rs:27-34 | a canvas pixel under no voxel's tile keeps its initial value |
| Compositor.RenderLastOpaqueWins | src/compositor.rs:27-34 | where the last voxel's tile is opaque, the final pixel is that tile's pixel, whatever was drawn before (painter's algorithm) |
| Compositor.RenderVoxels | src/compositor.rs:27-34 | the in-place voxel loop leaves exactly the canvas `Render` describes |
| Compositor.RenderSegment | src/compositor.rs:10-35 | builds the library from the palette, allocates the zeroed 2048 × 3072 view and blits every voxel in order: the result is `Render` of the blank view |

## Left out

- `block_texture` (src/texture_processing.rs:42-53) opens and decodes a PNG and falls back on a missing file. This is file I/O and is not modelled.
- `full_isometric`, `full_isometric_sides` and `crossed_planes` (src/texture_processing.rs:55-107) use floating-point projective warps from `imageproc`. These are foreign code and are not modelled. Only their final composite of the three warped faces (line 95) is modelled, as `IsometricFromFaces`, and the faces are arbitrary inputs there.
- `processed_block_texture` is not part of this model. It is the parameter `process` of `BuildTextures` and `RenderSegment`.
- `SegmentReader` is not part of this model. The palette and the voxel stream are parameters, and voxel coordinates arrive already cast to `i32`.
- `view.save` (src/compositor.rs:36-37) encodes and writes the PNG. This is file I/O and is not modelled.
- Panics are not modelled. This covers `get_pixel`, `get_pixel_mut` and the `expect` on a missing block id (src/compositor.rs:32). Instead, the members that index require what keeps the source from panicking: `CoversTile`, `Fits` and, for the voxel loop, `Drawable`. `InSegmentDrawable` shows that in-segment voxels with 16 × 16 tiles meet it.
- Debug-build overflow panics are not modelled; release-build wrapping is modelled where it can happen.
- Compositor.Canvas.Blit: the `u32` additions `x + offset` (src/compositor.rs:46) are exact in the model. This is because `Fits` keeps every target index below the canvas size, so no wrapped address occurs.
- Compositor.Canvas.constructor: the zero fill of `ImageBuffer::new` comes from the `image` crate and is stated as the constructor's contract.
- Canvases are stored as pixel sequences, not as the crate's interleaved `Vec<u8>` channel bytes.
