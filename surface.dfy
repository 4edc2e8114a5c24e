/** The window surface both framebuffer variants copy to the panel, and the
    arithmetic they share: the clamp to the panel size and the byte offset of
    a pixel. */
module Surfaces {
  import Config

  datatype Option<T> = None | Some(value: T)

  /** What an update returns: 0, or `SDL_SetError`'s -1 with the reason given. */
  datatype UpdateResult = Updated | MissingSurface | StagingTooSmall

  /** The parts of an SDL surface the update routines read: its size in pixels,
      its pixel format's bytes and bits per pixel, and its pixel bytes, rows
      packed one after another (the pitch is taken to be `w * bytesPerPixel`). */
  datatype Surface = Surface(w: nat, h: nat, bytesPerPixel: nat, bitsPerPixel: nat, pixels: seq<bv8>)

  /** A surface as SDL allocates it for these drivers: at least three bytes per
      pixel (both create an RGB888 surface, four bytes of which 24 bits are
      used), and exactly `w * h` pixels of storage. */
  ghost predicate WellFormed(s: Surface) {
    && 3 <= s.bytesPerPixel
    && s.bitsPerPixel <= 8 * s.bytesPerPixel
    && |s.pixels| == s.w * s.h * s.bytesPerPixel
  }

  /** The RGB888 surface of a `w` by `h` window: four bytes per pixel, 24 bits used. */
  function Rgb888(w: nat, h: nat, pixels: seq<bv8>): (s: Surface)
    requires |pixels| == w * h * 4
    ensures WellFormed(s) && s.w == w && s.h == h
  {
    Surface(w, h, 4, 24, pixels)
  }

  /** `v > limit ? limit : v`: the extent the panel can show. */
  function Clamp(v: nat, limit: nat): (r: nat)
    ensures r <= v && r <= limit
    ensures r == v || r == limit
    ensures v <= limit ==> r == v
  {
    if v > limit then limit else v
  }

  /** The columns and lines of the surface that reach the panel. */
  function ShownWidth(s: Surface): (w: nat)
    ensures w <= s.w && w <= Config.DisplayWidth
  {
    Clamp(s.w, Config.DisplayWidth)
  }

  function ShownHeight(s: Surface): (h: nat)
    ensures h <= s.h && h <= Config.DisplayHeight
  {
    Clamp(s.h, Config.DisplayHeight)
  }

  /** Offset of pixel (x, y) in a packed surface: `(y * w + x) * BytesPerPixel`. */
  function PixelOffset(s: Surface, x: nat, y: nat): nat {
    (y * s.w + x) * s.bytesPerPixel
  }

  /** Every pixel of the surface lies wholly inside its storage. */
  lemma OffsetInBounds(s: Surface, x: nat, y: nat)
    requires WellFormed(s) && x < s.w && y < s.h
    ensures PixelOffset(s, x, y) + s.bytesPerPixel <= |s.pixels|
  {
    var i := y * s.w + x;
    assert i + 1 <= s.w * s.h by {
      MulMono(y + 1, s.h, s.w);
      assert (y + 1) * s.w == y * s.w + s.w;
    }
    MulMono(i + 1, s.w * s.h, s.bytesPerPixel);
    assert (i + 1) * s.bytesPerPixel == i * s.bytesPerPixel + s.bytesPerPixel;
  }

  /** Distinct pixels start at offsets at least one pixel apart, so no two of
      them share a byte. */
  lemma OffsetsApart(s: Surface, x1: nat, y1: nat, x2: nat, y2: nat)
    requires x1 < s.w && x2 < s.w && (x1, y1) != (x2, y2)
    ensures PixelOffset(s, x1, y1) + s.bytesPerPixel <= PixelOffset(s, x2, y2)
         || PixelOffset(s, x2, y2) + s.bytesPerPixel <= PixelOffset(s, x1, y1)
  {
    var i1, i2 := y1 * s.w + x1, y2 * s.w + x2;
    IndexInjective(s.w, x1, y1, x2, y2);
    if i1 < i2 {
      MulMono(i1 + 1, i2, s.bytesPerPixel);
      assert (i1 + 1) * s.bytesPerPixel == i1 * s.bytesPerPixel + s.bytesPerPixel;
    } else {
      MulMono(i2 + 1, i1, s.bytesPerPixel);
      assert (i2 + 1) * s.bytesPerPixel == i2 * s.bytesPerPixel + s.bytesPerPixel;
    }
  }

  /** Row-major numbering `y * w + x` of the columns `x < w` is one to one. */
  lemma IndexInjective(w: nat, x1: nat, y1: nat, x2: nat, y2: nat)
    requires x1 < w && x2 < w && (x1, y1) != (x2, y2)
    ensures y1 * w + x1 != y2 * w + x2
  {
    if y1 < y2 {
      MulMono(y1 + 1, y2, w);
      assert (y1 + 1) * w == y1 * w + w;
    } else if y2 < y1 {
      MulMono(y2 + 1, y1, w);
      assert (y2 + 1) * w == y2 * w + w;
    }
  }

  lemma MulMono(a: nat, b: nat, c: nat)
    requires a <= b
    ensures a * c <= b * c
  {}
}
