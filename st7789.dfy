/** The st7789 framebuffer variant (st7789/SDL_st7789framebuffer.c): the panel
    bring-up with BGR order and the backlight pin, the column-by-column window
    update through a 2048-byte staging buffer with RGB565 conversion, and the
    shutdown. */
module St7789 {
  import opened Spi
  import opened Panel
  import opened Surfaces
  import Bus
  import Config
  import Seqs

  /** `madctl |= MADCTL_ROW_ADDRESS_ORDER_SWAP; madctl |= ST7789_MADCTL_BGR`,
      and the backlight pin. */
  const St7789Config := PanelConfig(RowOrderSwap | BgrOrder, true)

  /** The rotation clears the row swap again, leaving MADCTL at 0x48 (column
      swap and BGR order): the vertical scroll start is never sent, and the
      backlight is switched on. */
  lemma St7789BringUp()
    ensures Madctl(St7789Config) == ColumnOrderSwap | BgrOrder
    ensures !ScrollsRows(St7789Config)
    ensures VerticalScrollStart !in Commands(InitOps(St7789Config))
    ensures BacklightOps(St7789Config) == [PinMode(Config.BacklightPin, ModeOutput), PinHigh(Config.BacklightPin)]
  {
    ScrollSentIff(St7789Config);
  }

  /** InitSPIDisplay. */
  method InitSPIDisplay(p: Peripherals)
    requires p.Valid()
    requires p.mapping == Mapped
    modifies p`cs, p`fifo, p`polled, p`trace, p`ops, p`clk, p.gpfsel, p.gpset, p.gpclr
    ensures p.ops == old(p.ops) + InitOps(St7789Config)
    ensures p.clk == Config.SpiBusClockDivisor
  {
    InitDisplay(p, St7789Config);
  }

  // RGB565 conversion.

  /** Line 204 in C's `int` arithmetic: the top five bits of the first byte,
      the top six of the second and the top five of the third, packed. */
  function Wide565(p0: bv8, p1: bv8, p2: bv8): bv32 {
    ((p0 as bv32 & 0xF8) << 8) | ((p1 as bv32 & 0xFC) << 3) | (p2 as bv32 >> 3)
  }

  /** The packed value always fits the `uint16_t rgb` it is stored in. */
  lemma Wide565Fits(p0: bv8, p1: bv8, p2: bv8)
    ensures Wide565(p0, p1, p2) < 0x1_0000
  {}

  /** `rgb`, the 16-bit colour stored for the panel. */
  function Rgb565(p0: bv8, p1: bv8, p2: bv8): (c: bv16)
    ensures c as bv32 == Wide565(p0, p1, p2)
  {
    Wide565Fits(p0, p1, p2);
    Wide565(p0, p1, p2) as bv16
  }

  /** Line 204 computes what the commented-out line 203 computes with shifts. */
  lemma MasksAgreeWithShifts(p0: bv8, p1: bv8, p2: bv8)
    ensures Wide565(p0, p1, p2) == ((p0 as bv32 >> 3) << 11) | ((p1 as bv32 >> 2) << 5) | (p2 as bv32 >> 3)
  {}

  /** The three fields of the colour: the first stored byte in bits 15..11, the
      second in 10..5, the third in 4..0. In the little-endian XRGB8888 surface
      those bytes are blue, green and red, which is why MADCTL selects BGR order. */
  lemma Rgb565Fields(p0: bv8, p1: bv8, p2: bv8)
    ensures Rgb565(p0, p1, p2) >> 11 == (p0 >> 3) as bv16
    ensures (Rgb565(p0, p1, p2) >> 5) & 0x3F == (p1 >> 2) as bv16
    ensures Rgb565(p0, p1, p2) & 0x1F == (p2 >> 3) as bv16
  {}

  /** The three stored bytes a colour stands for, each at full 8-bit weight. */
  function Expand(c: bv16): (bv8, bv8, bv8) {
    (((c >> 8) & 0xF8) as bv8, ((c >> 3) & 0xFC) as bv8, ((c << 3) & 0xF8) as bv8)
  }

  /** Every 16-bit colour is produced by some pixel: the one it expands to. */
  lemma Rgb565Onto(c: bv16)
    ensures Rgb565(Expand(c).0, Expand(c).1, Expand(c).2) == c
  {}

  /** The conversion keeps the top five, six and five bits of the channels and
      drops the rest. */
  lemma Rgb565KeepsHighBits(p0: bv8, p1: bv8, p2: bv8)
    ensures Expand(Rgb565(p0, p1, p2)) == (p0 & 0xF8, p1 & 0xFC, p2 & 0xF8)
  {}

  /** A full first, second or third stored byte fills exactly its own field. */
  lemma Rgb565Primaries()
    ensures Rgb565(0xFF, 0, 0) == 0xF800 && Rgb565(0, 0xFF, 0) == 0x07E0 && Rgb565(0, 0, 0xFF) == 0x001F
    ensures Rgb565(0xFF, 0xFF, 0xFF) == 0xFFFF && Rgb565(0, 0, 0) == 0
  {}

  /** The colour of pixel (x, y), from its first three stored bytes. */
  function PixelColor(s: Surface, x: nat, y: nat): bv16
    requires WellFormed(s) && x < s.w && y < s.h
  {
    OffsetInBounds(s, x, y);
    var o := PixelOffset(s, x, y);
    Rgb565(s.pixels[o], s.pixels[o + 1], s.pixels[o + 2])
  }

  // The staging buffer.

  /** `sizeof(pixelsBuffer)`. */
  const StagingSize: nat := 2048

  /** Lines 0..n-1 of column x, each colour high byte first. */
  function ColumnBytes(s: Surface, x: nat, n: nat): (b: seq<bv8>)
    requires WellFormed(s) && x < s.w && n <= s.h
    ensures |b| == 2 * n
  {
    if n == 0 then [] else ColumnBytes(s, x, n - 1) + BigEndian(PixelColor(s, x, n - 1))
  }

  /** Line y of a column sits at bytes 2y and 2y + 1, and decodes to its colour. */
  lemma {:induction false} ColumnBytesAt(s: Surface, x: nat, n: nat, y: nat)
    requires WellFormed(s) && x < s.w && n <= s.h && y < n
    ensures ColumnBytes(s, x, n)[2 * y..2 * y + 2] == BigEndian(PixelColor(s, x, y))
    ensures Decode16(ColumnBytes(s, x, n)[2 * y..2 * y + 2]) == PixelColor(s, x, y)
    decreases n
  {
    if y < n - 1 {
      ColumnBytesAt(s, x, n - 1, y);
      Seqs.SliceLeft(ColumnBytes(s, x, n - 1), BigEndian(PixelColor(s, x, n - 1)), 2 * y, 2);
    } else {
      Seqs.SliceRight(ColumnBytes(s, x, n - 1), BigEndian(PixelColor(s, x, n - 1)), 0, 2);
    }
    BigEndianRoundTrip(PixelColor(s, x, y));
  }

  /** Every line of the panel fits the staging buffer: the last index written,
      `2 * 239 + 1`, is below 2048. */
  lemma StagingHoldsAColumn(y: nat)
    requires y < Config.DisplayHeight
    ensures 2 * y + 1 < StagingSize
  {}

  /** The inner loop over y: convert each pixel of column x and store it at
      `pixelsBuffer[2y]` and `pixelsBuffer[2y + 1]`, high byte first. The bytes
      past the column are left as they were. */
  method StageColumn(s: Surface, x: nat, h: nat, buf: array<bv8>)
    requires WellFormed(s) && x < s.w && h <= s.h && 2 * h <= buf.Length
    modifies buf
    ensures buf[..] == ColumnBytes(s, x, h) + old(buf[2 * h..])
  {
    ghost var column := ColumnBytes(s, x, h);
    var y: nat := 0;
    while y < h
      invariant y <= h
      invariant forall k :: 0 <= k < 2 * y ==> buf[k] == column[k]
      invariant forall k :: 2 * h <= k < buf.Length ==> buf[k] == old(buf[k])
    {
      StagePixel(s, x, y, buf);
      assert buf[2 * y] == column[2 * y] && buf[2 * y + 1] == column[2 * y + 1] by {
        ColumnBytesAt(s, x, h, y);
        assert buf[2 * y..2 * y + 2] == column[2 * y..2 * y + 2];
        assert buf[2 * y..2 * y + 2][0] == buf[2 * y] && column[2 * y..2 * y + 2][0] == column[2 * y];
        assert buf[2 * y..2 * y + 2][1] == buf[2 * y + 1] && column[2 * y..2 * y + 2][1] == column[2 * y + 1];
      }
      y := y + 1;
    }
    assert buf[..] == column + old(buf[2 * h..]);
  }

  /** Lines 200-206 for one pixel: its colour, converted, at bytes `2y` and `2y + 1`. */
  method StagePixel(s: Surface, x: nat, y: nat, buf: array<bv8>)
    requires WellFormed(s) && x < s.w && y < s.h && 2 * y + 1 < buf.Length
    modifies buf
    ensures buf[2 * y..2 * y + 2] == BigEndian(PixelColor(s, x, y))
    ensures forall k :: 0 <= k < buf.Length && k != 2 * y && k != 2 * y + 1 ==> buf[k] == old(buf[k])
  {
    OffsetInBounds(s, x, y);
    var pos := (y * s.w + x) * s.bytesPerPixel;
    var rgb := Rgb565(s.pixels[pos], s.pixels[pos + 1], s.pixels[pos + 2]);
    assert rgb == PixelColor(s, x, y);
    var bytes := BigEndian(rgb);
    buf[y * 2] := bytes[0];
    buf[y * 2 + 1] := bytes[1];
    assert buf[2 * y..2 * y + 2] == bytes;
  }

  // One column of the update.

  /** `(uint16_t)h - 1`, computed in `int` and passed as a `uint16_t`: the last
      line of the X window, wrapping to 0xFFFF for an empty surface. */
  function LastLine(h: nat): (l: nat)
    requires h < 0x1_0000
    ensures l < 0x1_0000
    ensures h > 0 ==> l == h - 1
    ensures h == 0 ==> l == 0xFFFF
  {
    (h - 1) % 0x1_0000
  }

  /** Lines 210-212 for column x: the Y window (x, x), the X window (0, h - 1),
      then the pixels. */
  function ColumnGroup(x: bv16, h: nat, payload: seq<bv8>): seq<Op>
    requires h < 0x1_0000
  {
    [AddrOp(SetCursorY, x, x), AddrOp(SetCursorX, 0, LastLine(h) as bv16), Transfer(WritePixels, payload)]
  }

  /** Column x with its `h` staged lines as the pixels. */
  function ColumnOps(s: Surface, x: nat, h: nat): seq<Op>
    requires WellFormed(s) && x < s.w && h <= s.h && x < 0x1_0000 && h < 0x1_0000
  {
    ColumnGroup(x as bv16, h, ColumnBytes(s, x, h))
  }

  /** Columns 0..m-1. */
  function Blit(s: Surface, h: nat, m: nat): (r: seq<Op>)
    requires WellFormed(s) && m <= s.w && h <= s.h && m <= 0x1_0000 && h < 0x1_0000
    ensures |r| == 3 * m
  {
    if m == 0 then [] else Blit(s, h, m - 1) + ColumnOps(s, m - 1, h)
  }

  /** Everything one update sends for a surface. */
  function UpdateOps(s: Surface): seq<Op>
    requires WellFormed(s)
  {
    Blit(s, ShownHeight(s), ShownWidth(s))
  }

  /** Column x sits at 3x. */
  lemma {:induction false} BlitAt(s: Surface, h: nat, m: nat, x: nat)
    requires WellFormed(s) && m <= s.w && h <= s.h && m <= 0x1_0000 && h < 0x1_0000 && x < m
    ensures Blit(s, h, m)[3 * x..3 * x + 3] == ColumnOps(s, x, h)
    decreases m
  {
    if x < m - 1 {
      BlitAt(s, h, m - 1, x);
      Seqs.SliceLeft(Blit(s, h, m - 1), ColumnOps(s, m - 1, h), 3 * x, 3);
    } else {
      Seqs.SliceRight(Blit(s, h, m - 1), ColumnOps(s, m - 1, h), 0, 3);
    }
  }

  /** What the update promises: every shown column x of the surface becomes one
      panel line, selected by the Y window (x, x), spanning the X window
      (0, h - 1) of exactly as many pixels as the payload holds, and pixel y of
      that payload is the surface's pixel (x, y) in RGB565. */
  lemma UpdateSendsEveryColumn(s: Surface, x: nat, y: nat)
    requires WellFormed(s) && x < ShownWidth(s) && y < ShownHeight(s)
    ensures var h := ShownHeight(s);
      && 3 * x + 3 <= |UpdateOps(s)|
      && UpdateOps(s)[3 * x] == AddrOp(SetCursorY, x as bv16, x as bv16)
      && UpdateOps(s)[3 * x + 1] == AddrOp(SetCursorX, 0, LastLine(h) as bv16)
      && UpdateOps(s)[3 * x + 2] == Transfer(WritePixels, ColumnBytes(s, x, h))
      && |ColumnBytes(s, x, h)| == 2 * (LastLine(h) + 1)
      && Decode16(ColumnBytes(s, x, h)[2 * y..2 * y + 2]) == PixelColor(s, x, y)
  {
    var h := ShownHeight(s);
    BlitAt(s, h, ShownWidth(s), x);
    var t := UpdateOps(s)[3 * x..3 * x + 3];
    assert t == ColumnOps(s, x, h);
    assert UpdateOps(s)[3 * x] == t[0] && UpdateOps(s)[3 * x + 1] == t[1] && UpdateOps(s)[3 * x + 2] == t[2];
    ColumnBytesAt(s, x, h, y);
  }

  // Line 192 as written.

  /** Line 212 as written: `size` is `w * BYTESPERPIXEL`, so the pixel command
      of a column carries the first 2w bytes of the staging buffer, of which the
      inner loop has filled only the first 2h. `before` is the buffer before the
      column was staged. */
  function PayloadAsWritten(s: Surface, x: nat, w: nat, h: nat, before: seq<bv8>): (b: seq<bv8>)
    requires WellFormed(s) && x < s.w && h <= s.h && |before| == StagingSize
    requires 2 * h <= StagingSize && 2 * w <= StagingSize
    ensures |b| == 2 * w
  {
    (ColumnBytes(s, x, h) + before[2 * h..])[..2 * w]
  }

  /** As written, the payload matches the X window only for a square surface:
      a wider one sends 2 (w - h) bytes of whatever the buffer held before,
      a taller one truncates every column to its first w lines. */
  lemma PayloadAsWrittenMismatch(s: Surface, x: nat, w: nat, h: nat, before: seq<bv8>)
    requires WellFormed(s) && x < s.w && h <= s.h && |before| == StagingSize
    requires 2 * h <= StagingSize && 2 * w <= StagingSize
    ensures w == h ==> PayloadAsWritten(s, x, w, h, before) == ColumnBytes(s, x, h)
    ensures w > h ==> PayloadAsWritten(s, x, w, h, before) == ColumnBytes(s, x, h) + before[2 * h..2 * w]
    ensures w < h ==> PayloadAsWritten(s, x, w, h, before) == ColumnBytes(s, x, h)[..2 * w]
  {
    var c := ColumnBytes(s, x, h);
    if w > h {
      assert (c + before[2 * h..])[..2 * w] == c + before[2 * h..2 * w];
    }
  }

  /** A 2 by 1 surface whose first pixel has stored bytes 0xFF, 0, 0 (pure blue
      in XRGB8888): the X window is one pixel wide, but the pixel command
      carries four bytes, that pixel's 0xF8, 0x00 and then two bytes left over
      in the buffer from before. */
  lemma PayloadAsWrittenCounterexample(before: seq<bv8>)
    requires |before| == StagingSize
    ensures var s := Rgb888(2, 1, [0xFF, 0, 0, 0, 0, 0xFF, 0, 0]);
      && ShownWidth(s) == 2 && ShownHeight(s) == 1 && LastLine(1) == 0
      && PayloadAsWritten(s, 0, 2, 1, before) == [0xF8, 0x00] + before[2..4]
  {
    var s := Rgb888(2, 1, [0xFF, 0, 0, 0, 0, 0xFF, 0, 0]);
    assert ColumnBytes(s, 0, 1) == [0xF8, 0x00] by {
      assert PixelColor(s, 0, 0) == Rgb565(0xFF, 0, 0) == 0xF800;
      assert ColumnBytes(s, 0, 1) == ColumnBytes(s, 0, 0) + BigEndian(0xF800);
    }
    PayloadAsWrittenMismatch(s, 0, 2, 1, before);
  }

  // The update.

  /** The window and pixel commands of one column. */
  method SendColumn(p: Peripherals, x: bv16, h: nat, payload: seq<bv8>)
    requires p.Valid() && h < 0x1_0000 && |payload| < 0x1_0000
    requires p.mapping == Mapped
    modifies p`cs, p`fifo, p`polled, p`trace, p`ops, p.gpset, p.gpclr
    ensures p.ops == old(p.ops) + ColumnGroup(x, h, payload)
  {
    ghost var o0 := p.ops;
    SendAddr(p, SetCursorY, x, x);
    var last := LastLine(h) as bv16;
    SendAddr(p, SetCursorX, 0, last);
    p.SendCmd(WritePixels, payload);
    Seqs.Snoc3(o0, AddrOp(SetCursorY, x, x), AddrOp(SetCursorX, 0, last), Transfer(WritePixels, payload), p.ops);
  }

  /** Lines 192-213 for a `w` by `h` region, with the payload sized by the
      column's h lines: the capacity check before any command, then column
      after column. */
  method SendColumns(p: Peripherals, s: Surface, w: nat, h: nat) returns (r: UpdateResult)
    requires p.Valid() && WellFormed(s) && w <= s.w && h <= s.h && w <= 0x1_0000 && h < 0x8000
    requires p.mapping == Mapped
    modifies p`cs, p`fifo, p`polled, p`trace, p`ops, p.gpset, p.gpclr
    ensures r == if 2 * h > StagingSize then StagingTooSmall else Updated
    ensures p.ops == old(p.ops) + (if r == Updated then Blit(s, h, w) else [])
  {
    var buf := new bv8[StagingSize];
    var size := (h * BytesPerPixel) % 0x1_0000;
    assert size == 2 * h;
    if size > StagingSize {
      return StagingTooSmall;
    }
    var x: nat := 0;
    while x < w
      invariant x <= w
      invariant p.ops == old(p.ops) + Blit(s, h, x)
    {
      ghost var o := p.ops;
      StageColumn(s, x, h, buf);
      assert buf[..size] == ColumnBytes(s, x, h);
      SendColumn(p, x as bv16, h, buf[..size]);
      Seqs.Extend(p.ops, o, old(p.ops), Blit(s, h, x), ColumnOps(s, x, h), Blit(s, h, x + 1));
      x := x + 1;
    }
    return Updated;
  }

  /** SDL_ST7789_UpdateWindowFramebuffer, with `size` taken from h. The
      capacity check never fails: a column of the panel is 480 bytes. */
  method UpdateWindowFramebuffer(p: Peripherals, surface: Option<Surface>) returns (r: UpdateResult)
    requires p.Valid()
    requires surface.Some? ==> WellFormed(surface.value)
    requires p.mapping == Mapped
    modifies p`cs, p`fifo, p`polled, p`trace, p`ops, p.gpset, p.gpclr
    ensures r == if surface.Some? then Updated else MissingSurface
    ensures p.ops == old(p.ops) + (if surface.Some? then UpdateOps(surface.value) else [])
  {
    if surface.None? {
      return MissingSurface;
    }
    var s := surface.value;
    var w := if s.w > Config.DisplayWidth then Config.DisplayWidth else s.w;
    var h := if s.h > Config.DisplayHeight then Config.DisplayHeight else s.h;
    assert w == ShownWidth(s) && h == ShownHeight(s);
    r := SendColumns(p, s, w, h);
  }

  /** The capacity check can never fail once the width is clamped: a panel
      row of 240 pixels needs 480 of the 2048 staging bytes. */
  lemma ClampedWidthFitsStaging(s: Surface)
    ensures 2 * ShownWidth(s) <= 2 * Config.DisplayWidth == 480 <= StagingSize
    ensures 2 * ShownHeight(s) <= StagingSize
  {}

  /** A 640 by 480 window is cropped to the 240 by 240 panel: 240 column
      groups, each a window of lines 0..239 and 480 bytes of pixels. */
  lemma Scenario640x480(s: Surface, x: nat)
    requires WellFormed(s) && s.w == 640 && s.h == 480 && x < 240
    ensures |UpdateOps(s)| == 3 * 240
    ensures UpdateOps(s)[3 * x] == AddrOp(SetCursorY, x as bv16, x as bv16)
    ensures UpdateOps(s)[3 * x + 1] == AddrOp(SetCursorX, 0, 239)
    ensures UpdateOps(s)[3 * x + 2].Transfer? && UpdateOps(s)[3 * x + 2].cmd == WritePixels && |UpdateOps(s)[3 * x + 2].payload| == 480
  {
    UpdateSendsEveryColumn(s, x, 0);
  }

  /** A 100 by 50 window is not cropped: the corrected update sends 100 column
      groups, each a window of lines 0..49 and 100 bytes of pixels. */
  lemma Scenario100x50(s: Surface, x: nat)
    requires WellFormed(s) && s.w == 100 && s.h == 50 && x < 100
    ensures |UpdateOps(s)| == 3 * 100
    ensures UpdateOps(s)[3 * x] == AddrOp(SetCursorY, x as bv16, x as bv16)
    ensures UpdateOps(s)[3 * x + 1] == AddrOp(SetCursorX, 0, 49)
    ensures UpdateOps(s)[3 * x + 2].Transfer? && UpdateOps(s)[3 * x + 2].cmd == WritePixels && |UpdateOps(s)[3 * x + 2].payload| == 100
  {
    UpdateSendsEveryColumn(s, x, 0);
  }

  // The update as written.

  /** Columns 0..m-1 as lines 198-213 send them: the window of column x, then
      the first 2w staging bytes, whose bytes from 2h on still hold `stale`,
      what the buffer held before the update. */
  function BlitAsWritten(s: Surface, w: nat, h: nat, m: nat, stale: seq<bv8>): (r: seq<Op>)
    requires WellFormed(s) && m <= w <= s.w && h <= s.h && |stale| == StagingSize
    requires 2 * h <= StagingSize && 2 * w <= StagingSize
    ensures |r| == 3 * m
  {
    if m == 0 then []
    else BlitAsWritten(s, w, h, m - 1, stale) + ColumnGroup((m - 1) as bv16, h, PayloadAsWritten(s, m - 1, w, h, stale))
  }

  /** For a square region the update as written sends what the corrected one
      sends. */
  lemma {:induction false} AsWrittenAgreesWhenSquare(s: Surface, w: nat, m: nat, stale: seq<bv8>)
    requires WellFormed(s) && m <= w <= s.w && w <= s.h && |stale| == StagingSize && 2 * w <= StagingSize
    ensures BlitAsWritten(s, w, w, m, stale) == Blit(s, w, m)
    decreases m
  {
    if m > 0 {
      AsWrittenAgreesWhenSquare(s, w, m - 1, stale);
      PayloadAsWrittenMismatch(s, m - 1, w, w, stale);
    }
  }

  /** A window at least as large as the panel is cropped to the full 240 by
      240 square, and there the update as written sends exactly what the
      corrected update sends, whatever the staging buffer held. */
  lemma FullScreenAsWrittenIsCorrect(s: Surface, stale: seq<bv8>)
    requires WellFormed(s) && s.w >= Config.DisplayWidth && s.h >= Config.DisplayHeight
    requires |stale| == StagingSize
    ensures ShownWidth(s) == ShownHeight(s) == 240
    ensures BlitAsWritten(s, ShownWidth(s), ShownHeight(s), ShownWidth(s), stale) == UpdateOps(s)
  {
    AsWrittenAgreesWhenSquare(s, 240, 240, stale);
  }

  /** For a region wider than tall, every column group as written carries 2w
      bytes for an X window of h lines. */
  lemma {:induction false} AsWrittenOverfillsWhenWide(s: Surface, w: nat, h: nat, m: nat, stale: seq<bv8>, x: nat)
    requires WellFormed(s) && m <= w <= s.w && 0 < h < w && h <= s.h && |stale| == StagingSize && 2 * w <= StagingSize
    requires x < m
    ensures BlitAsWritten(s, w, h, m, stale)[3 * x + 1] == AddrOp(SetCursorX, 0, (h - 1) as bv16)
    ensures BlitAsWritten(s, w, h, m, stale)[3 * x + 2]
         == Transfer(WritePixels, ColumnBytes(s, x, h) + stale[2 * h..2 * w])
    decreases m
  {
    PayloadAsWrittenMismatch(s, x, w, h, stale);
    var prev := BlitAsWritten(s, w, h, m - 1, stale);
    if x < m - 1 {
      AsWrittenOverfillsWhenWide(s, w, h, m - 1, stale, x);
      assert BlitAsWritten(s, w, h, m, stale)[3 * x + 1] == prev[3 * x + 1];
      assert BlitAsWritten(s, w, h, m, stale)[3 * x + 2] == prev[3 * x + 2];
    } else {
      assert |prev| == 3 * x;
    }
  }

  /** Lines 192-213 as written for a `w` by `h` region: the capacity check on
      `size = w * 2`, then column after column, each pixel command carrying the
      first `size` bytes of a staging buffer that held `stale` before. */
  method SendColumnsAsWritten(p: Peripherals, s: Surface, w: nat, h: nat, stale: seq<bv8>) returns (r: UpdateResult)
    requires p.Valid() && WellFormed(s) && w <= s.w && h <= s.h && w < 0x8000 && 2 * h <= StagingSize
    requires |stale| == StagingSize
    requires p.mapping == Mapped
    modifies p`cs, p`fifo, p`polled, p`trace, p`ops, p.gpset, p.gpclr
    ensures r == if 2 * w > StagingSize then StagingTooSmall else Updated
    ensures p.ops == old(p.ops) + (if r == Updated then BlitAsWritten(s, w, h, w, stale) else [])
  {
    var buf := new bv8[StagingSize](i requires 0 <= i < StagingSize => stale[i]);
    assert buf[2 * h..] == stale[2 * h..];
    var size := (w * BytesPerPixel) % 0x1_0000;
    assert size == 2 * w;
    if size > StagingSize {
      return StagingTooSmall;
    }
    var x: nat := 0;
    while x < w
      invariant x <= w && buf[2 * h..] == stale[2 * h..]
      invariant p.ops == old(p.ops) + BlitAsWritten(s, w, h, x, stale)
    {
      ghost var o := p.ops;
      StageColumn(s, x, h, buf);
      assert buf[..] == ColumnBytes(s, x, h) + stale[2 * h..];
      assert buf[..size] == PayloadAsWritten(s, x, w, h, stale) by {
        assert buf[..size] == buf[..][..size];
      }
      assert buf[2 * h..] == stale[2 * h..] by {
        assert buf[2 * h..] == buf[..][2 * h..];
      }
      SendColumn(p, x as bv16, h, buf[..size]);
      Seqs.Extend(p.ops, o, old(p.ops), BlitAsWritten(s, w, h, x, stale),
                  ColumnGroup(x as bv16, h, PayloadAsWritten(s, x, w, h, stale)), BlitAsWritten(s, w, h, x + 1, stale));
      x := x + 1;
    }
    return Updated;
  }

  /** SDL_ST7789_UpdateWindowFramebuffer exactly as written, given what the
      uninitialised staging buffer holds. */
  method UpdateAsWritten(p: Peripherals, surface: Option<Surface>, stale: seq<bv8>) returns (r: UpdateResult)
    requires p.Valid() && |stale| == StagingSize
    requires surface.Some? ==> WellFormed(surface.value)
    requires p.mapping == Mapped
    modifies p`cs, p`fifo, p`polled, p`trace, p`ops, p.gpset, p.gpclr
    ensures r == if surface.Some? then Updated else MissingSurface
    ensures surface.Some? ==>
      var s := surface.value;
      p.ops == old(p.ops) + BlitAsWritten(s, ShownWidth(s), ShownHeight(s), ShownWidth(s), stale)
    ensures surface.None? ==> p.ops == old(p.ops)
  {
    if surface.None? {
      return MissingSurface;
    }
    var s := surface.value;
    var w := if s.w > Config.DisplayWidth then Config.DisplayWidth else s.w;
    var h := if s.h > Config.DisplayHeight then Config.DisplayHeight else s.h;
    assert w == ShownWidth(s) && h == ShownHeight(s);
    r := SendColumnsAsWritten(p, s, w, h, stale);
  }

  // Shutdown.

  /** SDL_ST7789_VideoQuit: display off, backlight low, then DeinitSPI. */
  method VideoQuit(p: Peripherals)
    requires p.Valid()
    requires p.mapping == Mapped
    modifies p`cs, p`fifo, p`polled, p`trace, p`ops, p`mapping, p`memFd, p.gpfsel, p.gpset, p.gpclr
    ensures p.ops == old(p.ops) + [Transfer(DisplayOff, []), PinLow(Config.BacklightPin)]
                     + Peripherals.DeinitOps(old(p.mapping), old(p.memFd))
    ensures p.mapping == NoMapping && p.memFd < 0 && p.cs == Bus.ResetControl
  {
    ghost var o0, m0, f0 := p.ops, p.mapping, p.memFd;
    p.SendCmdOnly(DisplayOff);
    p.ClearGpio(Config.BacklightPin);
    ghost var o := p.ops;
    Seqs.Snoc2(o0, Transfer(DisplayOff, []), PinLow(Config.BacklightPin), o);
    p.DeinitSPI();
    Seqs.Chain3(o0, [Transfer(DisplayOff, []), PinLow(Config.BacklightPin)], [], Peripherals.DeinitOps(m0, f0), o, o, p.ops);
  }
}
