/** The dummy framebuffer variant (dummy/SDL_nullframebuffer.c): the panel
    bring-up without a backlight pin, the anti-diagonal test pattern drawn at
    the end of it, and the pixel-by-pixel window update. */
module Dummy {
  import opened Spi
  import opened Panel
  import opened Surfaces
  import Config
  import Seqs

  /** `madctl |= MADCTL_ROW_ADDRESS_ORDER_SWAP`, and no backlight pin. */
  const DummyConfig := PanelConfig(RowOrderSwap, false)

  /** The row swap is flipped away again by the 180-degree rotation: MADCTL is
      0x40, so the vertical scroll start is never sent. */
  lemma DummyBringUp()
    ensures Madctl(DummyConfig) == ColumnOrderSwap
    ensures !ScrollsRows(DummyConfig)
    ensures VerticalScrollStart !in Commands(InitOps(DummyConfig))
  {
    ScrollSentIff(DummyConfig);
  }

  // drawStuff.

  /** drawStuff passes 0xFF00FF to drawPixel's `uint16_t` colour, which keeps the low 16 bits. */
  const StuffColor: bv16 := (0xFF00FF as bv32 & 0xFFFF) as bv16

  lemma StuffColorIsBlue()
    ensures StuffColor == 0x00FF && BigEndian(StuffColor) == [0x00, 0xFF]
  {}

  /** `x = DISPLAY_HEIGHT - y - 1`: the column drawStuff lights on line y. */
  function AntiDiagonal(y: nat): (x: nat)
    requires y < Config.DisplayHeight
    ensures x + y + 1 == Config.DisplayHeight
  {
    Config.DisplayHeight - y - 1
  }

  /** The first `n` pixels of drawStuff, three actions each. */
  function StuffOps(n: nat): (r: seq<Op>)
    requires n <= Config.DisplayHeight
    ensures |r| == 3 * n
  {
    seq(3 * n, k requires 0 <= k < 3 * n => StuffStep(k / 3, k % 3))
  }

  /** Action `j` of pixel `y` of drawStuff. */
  function StuffStep(y: nat, j: nat): Op
    requires y < Config.DisplayHeight && j < 3
  {
    PixelOps(AntiDiagonal(y) as bv16, y as bv16, StuffColor)[j]
  }

  /** One more pass of the drawStuff loop appends one pixel's three actions. */
  lemma StuffSnoc(n: nat)
    requires n < Config.DisplayHeight
    ensures StuffOps(n + 1) == StuffOps(n) + PixelOps(AntiDiagonal(n) as bv16, n as bv16, StuffColor)
  {
    var a, b := StuffOps(n + 1), StuffOps(n) + PixelOps(AntiDiagonal(n) as bv16, n as bv16, StuffColor);
    forall k | 0 <= k < |a| ensures a[k] == b[k] {
      if k >= 3 * n {
        assert k / 3 == n && k % 3 == k - 3 * n;
      }
    }
  }

  /** drawStuff draws the anti-diagonal: line y gets the single pixel in column
      239 - y, in colour 0x00FF. */
  lemma StuffIsAntiDiagonal(y: nat)
    requires y < Config.DisplayHeight
    ensures StuffOps(Config.DisplayHeight)[3 * y] == AddrOp(SetCursorX, AntiDiagonal(y) as bv16, AntiDiagonal(y) as bv16)
    ensures StuffOps(Config.DisplayHeight)[3 * y + 1] == AddrOp(SetCursorY, y as bv16, y as bv16)
    ensures StuffOps(Config.DisplayHeight)[3 * y + 2] == Transfer(WritePixels, [0x00, 0xFF])
  {
    StuffAt(y);
    StuffColorIsBlue();
  }

  /** Entries `3y`, `3y + 1`, `3y + 2` of drawStuff's actions are pixel `y`'s. */
  lemma StuffAt(y: nat)
    requires y < Config.DisplayHeight
    ensures StuffOps(Config.DisplayHeight)[3 * y] == StuffStep(y, 0)
    ensures StuffOps(Config.DisplayHeight)[3 * y + 1] == StuffStep(y, 1)
    ensures StuffOps(Config.DisplayHeight)[3 * y + 2] == StuffStep(y, 2)
  {
    var ops := StuffOps(Config.DisplayHeight);
    forall j | 0 <= j < 3
      ensures ops[3 * y + j] == StuffStep(y, j)
    {
      var k := 3 * y + j;
      assert k / 3 == y && k % 3 == j;
      assert ops[k] == StuffStep(k / 3, k % 3);
    }
  }


  /** drawStuff: one pixel per line, on the anti-diagonal. */
  method DrawStuff(p: Peripherals)
    requires p.Valid()
    requires p.mapping == Mapped
    modifies p`cs, p`fifo, p`polled, p`trace, p`ops, p.gpset, p.gpclr
    ensures p.ops == old(p.ops) + StuffOps(Config.DisplayHeight)
    ensures p.clk == old(p.clk)
  {
    var y: nat := 0;
    while y < Config.DisplayHeight
      invariant y <= Config.DisplayHeight && p.clk == old(p.clk)
      invariant p.ops == old(p.ops) + StuffOps(y)
    {
      ghost var o := p.ops;
      var x: int := Config.DisplayHeight - y - 1;
      DrawPixel(p, x as bv16, y as bv16, StuffColor);
      StuffSnoc(y);
      Seqs.Extend(p.ops, o, old(p.ops), StuffOps(y), PixelOps(AntiDiagonal(y) as bv16, y as bv16, StuffColor), StuffOps(y + 1));
      y := y + 1;
    }
  }

  /** InitSPIDisplay: the common bring-up, then drawStuff. */
  method InitSPIDisplay(p: Peripherals)
    requires p.Valid()
    requires p.mapping == Mapped
    modifies p`cs, p`fifo, p`polled, p`trace, p`ops, p`clk, p.gpfsel, p.gpset, p.gpclr
    ensures p.ops == old(p.ops) + InitOps(DummyConfig) + StuffOps(Config.DisplayHeight)
    ensures p.clk == Config.SpiBusClockDivisor
  {
    InitDisplay(p, DummyConfig);
    DrawStuff(p);
  }

  // SDL_DUMMY_UpdateWindowFramebuffer.

  /** The first two bytes stored for pixel (x, y), sent as they are. */
  function PixelBytes(s: Surface, x: nat, y: nat): (b: seq<bv8>)
    requires WellFormed(s) && x < s.w && y < s.h
    ensures |b| == 2
  {
    OffsetInBounds(s, x, y);
    s.pixels[PixelOffset(s, x, y)..PixelOffset(s, x, y) + 2]
  }

  /** Pixel (x, y) of the update. */
  function PixelCopy(s: Surface, x: nat, y: nat): (r: seq<Op>)
    requires WellFormed(s) && x < s.w && y < s.h && x < 0x1_0000 && y < 0x1_0000
  {
    PointOps(x as bv16, y as bv16, PixelBytes(s, x, y))
  }

  /** Lines 0..n-1 of column x. */
  function ColumnCopy(s: Surface, x: nat, n: nat): (r: seq<Op>)
    requires WellFormed(s) && x < s.w && n <= s.h && x < 0x1_0000 && n <= 0x1_0000
    ensures |r| == 3 * n
  {
    if n == 0 then [] else ColumnCopy(s, x, n - 1) + PixelCopy(s, x, n - 1)
  }

  /** Columns 0..m-1, `h` lines each: the outer loop over x, the inner over y. */
  function Copy(s: Surface, h: nat, m: nat): (r: seq<Op>)
    requires WellFormed(s) && m <= s.w && h <= s.h && m <= 0x1_0000 && h <= 0x1_0000
    ensures |r| == 3 * (m * h)
  {
    if m == 0 then [] else
      assert 3 * (m * h) == 3 * ((m - 1) * h) + 3 * h;
      Copy(s, h, m - 1) + ColumnCopy(s, m - 1, h)
  }

  /** Everything one update sends for a surface. */
  function UpdateOps(s: Surface): seq<Op>
    requires WellFormed(s)
  {
    Copy(s, ShownHeight(s), ShownWidth(s))
  }

  /** Line y of a column sits at 3y. */
  lemma {:induction false} ColumnCopyAt(s: Surface, x: nat, n: nat, y: nat)
    requires WellFormed(s) && x < s.w && n <= s.h && x < 0x1_0000 && n <= 0x1_0000 && y < n
    ensures ColumnCopy(s, x, n)[3 * y..3 * y + 3] == PixelCopy(s, x, y)
    decreases n
  {
    var prev, last := ColumnCopy(s, x, n - 1), PixelCopy(s, x, n - 1);
    assert ColumnCopy(s, x, n) == prev + last;
    if y < n - 1 {
      ColumnCopyAt(s, x, n - 1, y);
      Seqs.SliceLeft(prev, last, 3 * y, 3);
    } else {
      Seqs.SliceRight(prev, last, 0, 3);
    }
  }

  /** Pixel (x, y) sits at 3 (x h + y): column after column, line after line. */
  lemma {:induction false} CopyAt(s: Surface, h: nat, m: nat, x: nat, y: nat)
    requires WellFormed(s) && m <= s.w && h <= s.h && m <= 0x1_0000 && h <= 0x1_0000
    requires x < m && y < h
    ensures PixelIndex(x, y, h) + 3 <= |Copy(s, h, m)|
    ensures Copy(s, h, m)[PixelIndex(x, y, h)..PixelIndex(x, y, h) + 3] == PixelCopy(s, x, y)
    decreases m
  {
    PixelIndexBound(x, y, m, h);
    if x < m - 1 {
      var prev, col := Copy(s, h, m - 1), ColumnCopy(s, m - 1, h);
      assert Copy(s, h, m) == prev + col;
      CopyAt(s, h, m - 1, x, y);
      Seqs.SliceLeft(prev, col, PixelIndex(x, y, h), 3);
    } else {
      CopyAtLast(s, h, m, y);
    }
  }

  lemma CopyAtLast(s: Surface, h: nat, m: nat, y: nat)
    requires WellFormed(s) && 0 < m <= s.w && h <= s.h && m <= 0x1_0000 && h <= 0x1_0000 && y < h
    ensures 3 * ((m - 1) * h + y) + 3 <= |Copy(s, h, m)|
    ensures Copy(s, h, m)[3 * ((m - 1) * h + y)..3 * ((m - 1) * h + y) + 3] == PixelCopy(s, m - 1, y)
  {
    var prev, col := Copy(s, h, m - 1), ColumnCopy(s, m - 1, h);
    var c := (m - 1) * h;
    assert Copy(s, h, m) == prev + col;
    assert |prev| == 3 * c && |col| == 3 * h;
    ColumnCopyAt(s, m - 1, h, y);
    Seqs.SliceRight(prev, col, 3 * y, 3);
    assert 3 * (c + y) == |prev| + 3 * y;
  }

  /** Where pixel (x, y) of a copy with `h` lines per column starts. */
  function PixelIndex(x: nat, y: nat, h: nat): nat {
    3 * (x * h + y)
  }

  /** Pixel (x, y) of an m by h copy lies inside it. */
  lemma PixelIndexBound(x: nat, y: nat, m: nat, h: nat)
    requires x < m && y < h
    ensures 3 * (x * h + y) + 3 <= 3 * (m * h)
  {
    MulMono(x + 1, m, h);
    assert (x + 1) * h == x * h + h;
  }

  /** What the update promises: every shown pixel (x, y), as the one-pixel
      window (x, x) by (y, y) followed by the first two bytes stored for it. */
  lemma UpdateCopiesEveryPixel(s: Surface, x: nat, y: nat)
    requires WellFormed(s) && x < ShownWidth(s) && y < ShownHeight(s)
    ensures PixelOffset(s, x, y) + 2 <= |s.pixels|
    ensures var i := PixelIndex(x, y, ShownHeight(s));
      && i + 3 <= |UpdateOps(s)|
      && UpdateOps(s)[i] == AddrOp(SetCursorX, x as bv16, x as bv16)
      && UpdateOps(s)[i + 1] == AddrOp(SetCursorY, y as bv16, y as bv16)
      && UpdateOps(s)[i + 2] == Transfer(WritePixels, s.pixels[PixelOffset(s, x, y)..PixelOffset(s, x, y) + 2])
  {
    OffsetInBounds(s, x, y);
    var i := PixelIndex(x, y, ShownHeight(s));
    CopyAt(s, ShownHeight(s), ShownWidth(s), x, y);
    var t := UpdateOps(s)[i..i + 3];
    assert t == PixelCopy(s, x, y);
    assert UpdateOps(s)[i] == t[0] && UpdateOps(s)[i + 1] == t[1] && UpdateOps(s)[i + 2] == t[2];
  }

  /** Line 224 as written: the stride is the format's bits, not bytes, per pixel.
      Scaled by the bytes per pixel it is the byte offset scaled by the bits, so
      on an RGB888 surface it is six times the offset of the pixel's bytes. */
  function OffsetAsWritten(s: Surface, x: nat, y: nat): (o: nat)
    ensures o * s.bytesPerPixel == PixelOffset(s, x, y) * s.bitsPerPixel
    ensures s.bytesPerPixel == 4 && s.bitsPerPixel == 24 ==> o == 6 * PixelOffset(s, x, y)
  {
    (y * s.w + x) * s.bitsPerPixel
  }

  /** On a 2 by 1 RGB888 surface (eight bytes) the second pixel is read from
      offset 24, past the end of the pixels. */
  lemma OffsetAsWrittenOverruns()
    ensures var s := Rgb888(2, 1, [0, 0, 0, 0, 0, 0, 0, 0]);
      && WellFormed(s) && 1 < ShownWidth(s) && 0 < ShownHeight(s)
      && OffsetAsWritten(s, 1, 0) == 24 && |s.pixels| == 8
  {}

  /** For every RGB888 surface of at least two pixels that fits the panel, the
      last pixel is read from beyond the end of the pixels. */
  lemma LastPixelAsWrittenOverruns(s: Surface)
    requires WellFormed(s) && s.bytesPerPixel == 4 && s.bitsPerPixel == 24
    requires 2 <= s.w * s.h && s.w <= Config.DisplayWidth && s.h <= Config.DisplayHeight
    ensures ShownWidth(s) == s.w && ShownHeight(s) == s.h
    ensures OffsetAsWritten(s, s.w - 1, s.h - 1) >= |s.pixels|
  {
    var n := s.w * s.h;
    assert (s.h - 1) * s.w + (s.w - 1) == n - 1;
    assert OffsetAsWritten(s, s.w - 1, s.h - 1) == (n - 1) * 24;
  }

  /** Pixel (x, y): its offset, then the window and its two bytes. */
  method CopyPixel(p: Peripherals, s: Surface, x: nat, y: nat)
    requires p.Valid() && WellFormed(s) && x < s.w && y < s.h && x < 0x1_0000 && y < 0x1_0000
    requires p.mapping == Mapped
    modifies p`cs, p`fifo, p`polled, p`trace, p`ops, p.gpset, p.gpclr
    ensures p.ops == old(p.ops) + PixelCopy(s, x, y)
  {
    OffsetInBounds(s, x, y);
    var pos := (y * s.w + x) * s.bytesPerPixel;
    SendPoint(p, x as bv16, y as bv16, s.pixels[pos..pos + 2]);
  }

  /** One column of the update: the inner loop over y. */
  method CopyColumn(p: Peripherals, s: Surface, x: nat, h: nat)
    requires p.Valid() && WellFormed(s) && x < s.w && h <= s.h && x < 0x1_0000 && h <= 0x1_0000
    requires p.mapping == Mapped
    modifies p`cs, p`fifo, p`polled, p`trace, p`ops, p.gpset, p.gpclr
    ensures p.ops == old(p.ops) + ColumnCopy(s, x, h)
  {
    var y: nat := 0;
    while y < h
      invariant y <= h
      invariant p.ops == old(p.ops) + ColumnCopy(s, x, y)
    {
      ghost var o := p.ops;
      CopyPixel(p, s, x, y);
      Seqs.Extend(p.ops, o, old(p.ops), ColumnCopy(s, x, y), PixelCopy(s, x, y), ColumnCopy(s, x, y + 1));
      y := y + 1;
    }
  }

  /** SDL_DUMMY_UpdateWindowFramebuffer, with the pixel stride in bytes. */
  method UpdateWindowFramebuffer(p: Peripherals, surface: Option<Surface>) returns (r: UpdateResult)
    requires p.Valid()
    requires surface.Some? ==> WellFormed(surface.value)
    requires p.mapping == Mapped
    modifies p`cs, p`fifo, p`polled, p`trace, p`ops, p.gpset, p.gpclr
    ensures r == if surface.Some? then Updated else MissingSurface
    ensures p.ops == old(p.ops) + (if surface.Some? then UpdateOps(surface.value) else [])
  {
    if surface.None? {
      return MissingSurface;
    }
    var s := surface.value;
    var w := if s.w > Config.DisplayWidth then Config.DisplayWidth else s.w;
    var h := if s.h > Config.DisplayHeight then Config.DisplayHeight else s.h;
    assert w == ShownWidth(s) && h == ShownHeight(s);
    var x: nat := 0;
    while x < w
      invariant x <= w && p.mapping == Mapped
      invariant p.ops == old(p.ops) + Copy(s, h, x)
    {
      ghost var o := p.ops;
      CopyColumn(p, s, x, h);
      Seqs.Extend(p.ops, o, old(p.ops), Copy(s, h, x), ColumnCopy(s, x, h), Copy(s, h, x + 1));
      x := x + 1;
    }
    return Updated;
  }
}
