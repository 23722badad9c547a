/**
 Pixels and rasters as the `image` crate lays them out: an `ImageBuffer` of
 `Rgba<u8>` pixels is a width, a height and a row-major pixel sequence, so the
 pixel at column `x` of row `y` sits at index `y * width + x`.

 Rust's fixed-width integers are modelled by subset types. A value of type
 `byte` stands for a `u8`: building an `Rgba` from an integer expression proves
 that the source's `as u8` cast loses nothing at that point.
 */
module Images {

  type byte = x: int | 0 <= x < 0x100
  type u16 = x: int | 0 <= x < 0x1_0000
  type u32 = x: int | 0 <= x < 0x1_0000_0000
  type i32 = x: int | -0x8000_0000 <= x < 0x8000_0000

  /** `x as u8` on a wider unsigned value: keep the low eight bits. */
  function AsU8(x: nat): (r: byte)
    ensures x < 0x100 ==> r == x
  {
    x % 0x100
  }

  /** Wrapping `u16` result of an exact non-negative integer (release build). */
  function WrapU16(x: nat): (r: u16)
    ensures x < 0x1_0000 ==> r == x
  {
    x % 0x1_0000
  }

  /** `v as u32` of a two's-complement integer: the residue modulo 2^32. */
  function AsU32(v: int): (r: u32)
    ensures 0 <= v < 0x1_0000_0000 ==> r == v
    ensures (v - r) % 0x1_0000_0000 == 0
  {
    var m := 0x1_0000_0000;
    DivModUnique(v / m, 0, m);
    v % m
  }

  /**
   One colour channel of non-premultiplied "over" blending with integer
   truncation: `dst * (255 - alpha) / 255 + src * alpha / 255`. The result
   never exceeds the larger input, so the `u16` arithmetic it runs in cannot
   overflow and the final `as u8` is exact.
   */
  function OverChannel(dst: byte, src: byte, alpha: byte): (c: byte)
    ensures c <= if dst < src then src else dst
    ensures alpha == 0 ==> c == dst
    ensures alpha == 255 ==> c == src
  {
    var v := OverValue(dst, src, alpha);
    OverChannelBound(dst, src, alpha);
    v
  }

  /** The over formula in exact integers. */
  function OverValue(dst: byte, src: byte, alpha: byte): int
  {
    dst * (255 - alpha) / 255 + src * alpha / 255
  }

  lemma OverChannelBound(dst: byte, src: byte, alpha: byte)
    ensures 0 <= OverValue(dst, src, alpha) <= if dst < src then src else dst
    ensures alpha == 0 ==> OverValue(dst, src, alpha) == dst
    ensures alpha == 255 ==> OverValue(dst, src, alpha) == src
  {
    var m := if dst < src then src else dst;
    ScaledBound(dst, m, 255 - alpha);
    ScaledBound(src, m, alpha);
    SplitProduct(m, alpha);
    FloorSumBound(dst * (255 - alpha), src * alpha, m);
    if alpha == 0 {
      DivModUnique(dst, 0, 255);
    } else if alpha == 255 {
      DivModUnique(src, 0, 255);
    }
  }

  lemma ScaledBound(c: nat, m: nat, f: nat)
    requires c <= m
    ensures 0 <= c * f <= m * f
  {
    MulMonotone(c, m, f);
  }

  lemma SplitProduct(m: int, alpha: int)
    ensures m * (255 - alpha) + m * alpha == m * 255
  {
  }

  /** Two truncated quotients by 255 add up to no more than `m` when the numerators add up to at most `255 * m`. */
  lemma FloorSumBound(p: nat, q: nat, m: nat)
    requires p + q <= m * 255
    ensures p / 255 + q / 255 <= m
  {
    assert (p / 255 + q / 255) * 255 <= p + q;
  }

  /** One `Rgba<u8>` pixel. */
  datatype Rgba = Rgba(r: byte, g: byte, b: byte, a: byte)

  /** The pixel `ImageBuffer::new` starts from: every byte zero. */
  const Zero: Rgba := Rgba(0, 0, 0, 0)

  /** Side length of every block texture and isometric tile. */
  const TileSize: nat := 16

  /** An `ImageBuffer<Rgba<u8>, Vec<u8>>`, row-major. */
  datatype ImageBuffer = ImageBuffer(width: nat, height: nat, data: seq<Rgba>) {

    /** The pixel vector holds exactly one entry per (x, y). */
    predicate Valid() {
      |data| == width * height
    }

    /** `get_pixel(x, y)`; out-of-range coordinates panic in the source, so they are excluded here. */
    function At(x: nat, y: nat): Rgba
      requires Valid() && x < width && y < height
    {
      RowMajorInBounds(x, y, width, height);
      data[y * width + x]
    }

    /** A valid 16 x 16 buffer, the shape of every texture the core produces. */
    predicate IsTile() {
      Valid() && width == TileSize && height == TileSize
    }

    /** At least 16 x 16, as `get_pixel` on every (x, y) of a 16 x 16 loop demands. */
    predicate CoversTile() {
      Valid() && TileSize <= width && TileSize <= height
    }
  }

  /** The row-major index of an in-range (x, y) lies inside the pixel vector. */
  lemma RowMajorInBounds(x: nat, y: nat, w: nat, h: nat)
    requires x < w && y < h
    ensures y * w + x < w * h
  {
    assert y * w + x < (y + 1) * w;
    MulMonotone(y + 1, h, w);
  }

  /** Row-major indexing is invertible: row and column come back by division and remainder. */
  lemma RowMajorDivMod(x: nat, y: nat, w: nat)
    requires x < w
    ensures (y * w + x) / w == y && (y * w + x) % w == x
  {
    DivModUnique(y, x, w);
  }

  /** Euclidean division is unique: `q * m + r` with `0 <= r < m` has quotient `q` and remainder `r`. */
  lemma DivModUnique(q: int, r: int, m: int)
    requires 0 <= r < m
    ensures (q * m + r) / m == q && (q * m + r) % m == r
  {
    var k := q * m + r;
    var q', r' := k / m, k % m;
    assert k == q' * m + r';
    if q' < q {
      assert (q - q') * m <= r' - r;
      MulMonotone(1, q - q', m);
      assert false;
    } else if q' > q {
      assert (q' - q) * m <= r - r';
      MulMonotone(1, q' - q, m);
      assert false;
    }
  }

  /** Reducing before adding does not change the residue. */
  lemma ModAddCongruent(a: int, d: int, m: int)
    requires 0 < m
    ensures (a % m + d) % m == (a + d) % m
  {
    var q, r := a / m, a % m;
    var q', r' := (r + d) / m, (r + d) % m;
    assert r + d == q' * m + r';
    assert a + d == (q + q') * m + r';
    DivModUnique(q + q', r', m);
    DivModUnique(q', r', m);
  }

  lemma MulMonotone(a: nat, b: nat, c: nat)
    requires a <= b
    ensures a * c <= b * c
  {
  }

  /** Two valid buffers of the same shape that agree at every (x, y) are equal. */
  lemma ExtensionalEquality(s: ImageBuffer, t: ImageBuffer)
    requires s.Valid() && t.Valid() && s.width == t.width && s.height == t.height
    requires forall x: nat, y: nat | x < s.width && y < s.height :: s.At(x, y) == t.At(x, y)
    ensures s == t
  {
    forall k | 0 <= k < |s.data|
      ensures s.data[k] == t.data[k]
    {
      var x, y := k % s.width, k / s.width;
      assert k == y * s.width + x;
      assert s.At(x, y) == t.At(x, y);
    }
  }
}
