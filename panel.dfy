/** The ST7789 command protocol spoken by both framebuffer variants: address
    windows, single pixels, solid rectangles and the power-on sequence, each as
    the list of driver actions it produces. */
module Panel {
  import opened Spi
  import Config
  import Seqs

  // ST7789 command bytes.
  const SetCursorX: bv8 := 0x2A
  const SetCursorY: bv8 := 0x2B
  const WritePixels: bv8 := 0x2C
  const SleepOut: bv8 := 0x11
  const PixelFormatSet: bv8 := 0x3A
  const MemoryAccessControl: bv8 := 0x36
  const EnableGamma: bv8 := 0xBA
  const InversionOn: bv8 := 0x21
  const NormalMode: bv8 := 0x13
  const VerticalScrollStart: bv8 := 0x37
  const DisplayOn: bv8 := 0x29
  const DisplayOff: bv8 := 0x28

  // Parameters of the power-on sequence.
  const Colmod16Bpp: bv8 := 0x05
  const GammaOn: bv8 := 0x04
  const ColumnOrderSwap: bv8 := 0x40
  const RowOrderSwap: bv8 := 0x80
  const Rotate180: bv8 := 0xC0
  const BgrOrder: bv8 := 0x08

  /** A pixel on the wire is two bytes (RGB565). */
  const BytesPerPixel: nat := 2

  // Byte layout.

  /** A 16-bit value as it goes on the wire: high byte first. */
  function BigEndian(v: bv16): (r: seq<bv8>)
    ensures |r| == 2
  {
    [(v >> 8) as bv8, (v & 0xFF) as bv8]
  }

  /** Reading two wire bytes back as a 16-bit value. */
  function Decode16(b: seq<bv8>): bv16
    requires |b| == 2
  {
    ((b[0] as bv16) << 8) | (b[1] as bv16)
  }

  /** Decoding what was encoded gives the value back... */
  lemma BigEndianRoundTrip(v: bv16)
    ensures Decode16(BigEndian(v)) == v
  {}

  /** ... every pair of bytes is the encoding of its decoding ... */
  lemma BigEndianOnto(b: seq<bv8>)
    requires |b| == 2
    ensures BigEndian(Decode16(b)) == b
  {
    assert (Decode16(b) >> 8) as bv8 == b[0];
    assert (Decode16(b) & 0xFF) as bv8 == b[1];
  }

  /** The payload of sendAddr: both window bounds, big-endian. */
  function AddrBytes(a0: bv16, a1: bv16): (r: seq<bv8>)
    ensures |r| == 4
  {
    BigEndian(a0) + BigEndian(a1)
  }

  /** The four address bytes decode to the two bounds. */
  lemma AddrRoundTrip(a0: bv16, a1: bv16)
    ensures Decode16(AddrBytes(a0, a1)[..2]) == a0
    ensures Decode16(AddrBytes(a0, a1)[2..]) == a1
  {
    assert AddrBytes(a0, a1)[..2] == BigEndian(a0);
    assert AddrBytes(a0, a1)[2..] == BigEndian(a1);
    BigEndianRoundTrip(a0);
    BigEndianRoundTrip(a1);
  }

  /** The action of sendAddr(cmd, a0, a1). */
  function AddrOp(cmd: bv8, a0: bv16, a1: bv16): Op {
    Transfer(cmd, AddrBytes(a0, a1))
  }

  /** A one-pixel window at (x, y), then `data` as its pixel. */
  function PointOps(x: bv16, y: bv16, data: seq<bv8>): seq<Op> {
    [AddrOp(SetCursorX, x, x), AddrOp(SetCursorY, y, y), Transfer(WritePixels, data)]
  }

  /** drawPixel(x, y, color): a one-pixel window, then the colour. */
  function PixelOps(x: bv16, y: bv16, color: bv16): seq<Op> {
    PointOps(x, y, BigEndian(color))
  }

  // Solid rectangles.

  /** `n` pixels of one colour, laid out as the fill loop of drawFillRect writes them. */
  function Solid(color: bv16, n: nat): (r: seq<bv8>)
    ensures |r| == 2 * n
  {
    seq(2 * n, k => BigEndian(color)[k % 2])
  }

  /** `uint16_t size = w * 2`: the byte count of one row, truncated to 16 bits. */
  function RowSize(w: bv16): (s: nat)
    ensures s < 0x1_0000 && s % 2 == 0
  {
    (w as nat * BytesPerPixel) % 0x1_0000
  }

  /** Below half the 16-bit range the row size is exactly two bytes per pixel;
      from 0x8000 pixels on it wraps. */
  lemma RowSizeWraps(w: bv16)
    ensures w as nat < 0x8000 ==> RowSize(w) == 2 * w as nat
    ensures w as nat >= 0x8000 ==> RowSize(w) == 2 * w as nat - 0x1_0000
  {
    WrapAt(w as nat);
  }

  lemma WrapAt(n: nat)
    requires n < 0x1_0000
    ensures n < 0x8000 ==> (n * 2) % 0x1_0000 == 2 * n
    ensures n >= 0x8000 ==> (n * 2) % 0x1_0000 == 2 * n - 0x1_0000
  {}

  /** One row of drawFillRect: window (x, x + w) by (y + yPos, y + yPos), then the row. */
  function RowOps(x: bv16, y: bv16, w: bv16, yPos: bv16, row: seq<bv8>): seq<Op> {
    [AddrOp(SetCursorX, x, x + w), AddrOp(SetCursorY, y + yPos, y + yPos), Transfer(WritePixels, row)]
  }

  /** The first `n` rows of drawFillRect, three actions per row. */
  function FillRows(x: bv16, y: bv16, w: bv16, row: seq<bv8>, n: nat): (r: seq<Op>)
    requires n <= 0x1_0000
    ensures |r| == 3 * n
  {
    seq(3 * n, k requires 0 <= k < 3 * n => RowStep(x, y, w, row, k / 3, k % 3))
  }

  /** Action `j` of line `i` of a fill. */
  function RowStep(x: bv16, y: bv16, w: bv16, row: seq<bv8>, i: nat, j: nat): Op
    requires i < 0x1_0000 && j < 3
  {
    RowOps(x, y, w, i as bv16, row)[j]
  }

  /** drawFillRect(x, y, w, h, color). */
  function FillOps(x: bv16, y: bv16, w: bv16, h: bv16, color: bv16): seq<Op> {
    FillRows(x, y, w, Solid(color, RowSize(w) / 2), h as nat)
  }

  /** Row `i` of a fill is three actions at 3i, 3i+1, 3i+2: the X window, the
      Y window of line y + i, and the same row of pixels every time. */
  lemma FillRowsShape(x: bv16, y: bv16, w: bv16, row: seq<bv8>, n: nat)
    requires n <= 0x1_0000
    ensures forall i :: 0 <= i < n ==>
      && FillRows(x, y, w, row, n)[3 * i] == AddrOp(SetCursorX, x, x + w)
      && FillRows(x, y, w, row, n)[3 * i + 1] == AddrOp(SetCursorY, y + i as bv16, y + i as bv16)
      && FillRows(x, y, w, row, n)[3 * i + 2] == Transfer(WritePixels, row)
  {
    forall i | 0 <= i < n
      ensures FillRows(x, y, w, row, n)[3 * i] == AddrOp(SetCursorX, x, x + w)
      ensures FillRows(x, y, w, row, n)[3 * i + 1] == AddrOp(SetCursorY, y + i as bv16, y + i as bv16)
      ensures FillRows(x, y, w, row, n)[3 * i + 2] == Transfer(WritePixels, row)
    {
      FillRowAt(x, y, w, row, n, i);
    }
  }

  lemma FillRowAt(x: bv16, y: bv16, w: bv16, row: seq<bv8>, n: nat, i: nat)
    requires n <= 0x1_0000 && i < n
    ensures FillRows(x, y, w, row, n)[3 * i] == RowStep(x, y, w, row, i, 0)
    ensures FillRows(x, y, w, row, n)[3 * i + 1] == RowStep(x, y, w, row, i, 1)
    ensures FillRows(x, y, w, row, n)[3 * i + 2] == RowStep(x, y, w, row, i, 2)
  {
    assert (3 * i) / 3 == i && (3 * i) % 3 == 0;
    assert (3 * i + 1) / 3 == i && (3 * i + 1) % 3 == 1;
    assert (3 * i + 2) / 3 == i && (3 * i + 2) % 3 == 2;
  }

  /** One more line of the fill loop appends that line's three actions. */
  lemma FillRowsSnoc(x: bv16, y: bv16, w: bv16, row: seq<bv8>, n: nat)
    requires n < 0x1_0000
    ensures FillRows(x, y, w, row, n + 1) == FillRows(x, y, w, row, n) + RowOps(x, y, w, n as bv16, row)
  {
    var a, b := FillRows(x, y, w, row, n + 1), FillRows(x, y, w, row, n) + RowOps(x, y, w, n as bv16, row);
    forall k | 0 <= k < |a| ensures a[k] == b[k] {
      if k >= 3 * n {
        assert k / 3 == n && k % 3 == k - 3 * n;
      }
    }
  }

  /** The pixel payload of every row of a fill is `2 * w` bytes (mod 2^16) of
      alternating high and low colour bytes. */
  lemma FillRowPayload(w: bv16, color: bv16)
    ensures |Solid(color, RowSize(w) / 2)| == (2 * w as int) % 0x1_0000
    ensures forall k :: 0 <= k < |Solid(color, RowSize(w) / 2)| ==>
      Solid(color, RowSize(w) / 2)[k] == if k % 2 == 0 then (color >> 8) as bv8 else (color & 0xFF) as bv8
  {}

  // The command bytes of a list of actions.

  /** The command byte of every transfer, in order. */
  function Commands(ops: seq<Op>): seq<bv8>
    decreases |ops|
  {
    if ops == [] then [] else (if ops[0].Transfer? then [ops[0].cmd] else []) + Commands(ops[1..])
  }

  lemma {:induction false} CommandsAppend(a: seq<Op>, b: seq<Op>)
    ensures Commands(a + b) == Commands(a) + Commands(b)
    decreases |a|
  {
    if a == [] {
      assert a + b == b;
    } else {
      var h := if a[0].Transfer? then [a[0].cmd] else [];
      calc {
        Commands(a + b);
        { assert (a + b)[0] == a[0] && (a + b)[1..] == a[1..] + b; }
        h + Commands(a[1..] + b);
        { CommandsAppend(a[1..], b); }
        h + (Commands(a[1..]) + Commands(b));
        (h + Commands(a[1..])) + Commands(b);
      }
    }
  }

  /** The commands of three transfers. */
  lemma CommandsOfThree(a: Op, b: Op, c: Op)
    requires a.Transfer? && b.Transfer? && c.Transfer?
    ensures Commands([a, b, c]) == [a.cmd, b.cmd, c.cmd]
  {
    assert Commands([c]) == [c.cmd] by {
      assert [c][1..] == [];
    }
    assert Commands([b, c]) == [b.cmd, c.cmd] by {
      assert [b, c][1..] == [c];
    }
    assert [a, b, c][1..] == [b, c];
  }

  /** `n` rows of window, window, pixels. */
  function DrawCommands(n: nat): (r: seq<bv8>)
    ensures |r| == 3 * n
  {
    seq(3 * n, k => [SetCursorX, SetCursorY, WritePixels][k % 3])
  }

  lemma {:induction false} FillRowsCommands(x: bv16, y: bv16, w: bv16, row: seq<bv8>, n: nat)
    requires n <= 0x1_0000
    ensures Commands(FillRows(x, y, w, row, n)) == DrawCommands(n)
    decreases n
  {
    if n > 0 {
      var prev, r := FillRows(x, y, w, row, n - 1), RowOps(x, y, w, (n - 1) as bv16, row);
      assert Commands(prev) == DrawCommands(n - 1) by {
        FillRowsCommands(x, y, w, row, n - 1);
      }
      assert FillRows(x, y, w, row, n) == prev + r by {
        FillRowsSnoc(x, y, w, row, n - 1);
      }
      assert Commands(r) == [SetCursorX, SetCursorY, WritePixels] by {
        CommandsOfThree(r[0], r[1], r[2]);
        assert r == [r[0], r[1], r[2]];
      }
      assert DrawCommands(n) == DrawCommands(n - 1) + [SetCursorX, SetCursorY, WritePixels];
      CommandsAppend(prev, r);
    }
  }

  /** Drawing only ever issues the three window and pixel commands. */
  lemma DrawCommandsOnly(n: nat)
    ensures forall i :: 0 <= i < |DrawCommands(n)| ==>
      DrawCommands(n)[i] == SetCursorX || DrawCommands(n)[i] == SetCursorY || DrawCommands(n)[i] == WritePixels
  {}

  // Bring-up.

  /** What a variant ORs into MADCTL before the 180-degree flip, and whether it
      owns a backlight pin. */
  datatype PanelConfig = PanelConfig(orBits: bv8, backlight: bool)

  /** `madctl = 0; madctl |= orBits; madctl ^= MADCTL_ROTATE_180_DEGREES`. */
  function Madctl(cfg: PanelConfig): bv8 {
    (0 | cfg.orBits) ^ Rotate180
  }

  /** The scroll start is sent exactly when the row-order-swap bit of MADCTL ends up set. */
  predicate ScrollsRows(cfg: PanelConfig) {
    Madctl(cfg) & RowOrderSwap != 0
  }

  /** Lines 91-97 (dummy): reset pin to output, then high, low, high, 120 ms apart. */
  function ResetOps(): seq<Op> {
    [PinMode(Config.ResetPin, ModeOutput), PinHigh(Config.ResetPin), Sleep(120_000),
     PinLow(Config.ResetPin), Sleep(120_000), PinHigh(Config.ResetPin), Sleep(120_000)]
  }

  /** The configuration commands sent at the bring-up clock: sleep out and pixel
      format, then MADCTL, then gamma, inversion and normal mode. */
  function SetupOps(cfg: PanelConfig): seq<Op> {
    WakeOps() + [Transfer(MemoryAccessControl, [Madctl(cfg)]), Sleep(10_000)] + TuneOps()
  }

  function WakeOps(): seq<Op> {
    [Barrier,
     Transfer(SleepOut, []), Sleep(120_000),
     Transfer(PixelFormatSet, [Colmod16Bpp]), Sleep(20_000)]
  }

  function TuneOps(): seq<Op> {
    [Transfer(EnableGamma, [GammaOn]),
     Transfer(InversionOn, []),
     Transfer(NormalMode, []), Sleep(10_000)]
  }

  /** VSCSAD with start 0 and a 240-line area, when rows are swapped. */
  function ScrollOps(cfg: PanelConfig): seq<Op> {
    if ScrollsRows(cfg) then [Transfer(VerticalScrollStart, AddrBytes(0, 240))] else []
  }

  /** The panel size as the 16-bit values the drawing routines take. */
  const Columns: bv16 := Config.DisplayWidth as bv16
  const Rows: bv16 := Config.DisplayHeight as bv16

  /** Backlight to output and on, for the variant that has one. */
  function BacklightOps(cfg: PanelConfig): seq<Op> {
    if cfg.backlight then [PinMode(Config.BacklightPin, ModeOutput), PinHigh(Config.BacklightPin)] else []
  }

  function DisplayOnOps(): seq<Op> {
    [Transfer(DisplayOn, []), Sleep(100_000), Sleep(10_000)]
  }

  /** Everything between the two clock-divisor writes; the whole panel is
      cleared to black in the middle. */
  function BringUpOps(cfg: PanelConfig): seq<Op> {
    SetupOps(cfg) + ScrollOps(cfg) + FillOps(0, 0, Columns, Rows, 0) + BacklightOps(cfg) + DisplayOnOps()
  }

  /** InitSPIDisplay: reset, slow clock, bring-up, operating clock. */
  function InitOps(cfg: PanelConfig): seq<Op> {
    ResetOps() + [ClockWrite(Config.InitClockDivisor)] + BringUpOps(cfg) + [ClockWrite(Config.SpiBusClockDivisor)]
  }

  /** The command bytes of the bring-up, in order. */
  function InitCommands(cfg: PanelConfig): seq<bv8> {
    [SleepOut, PixelFormatSet, MemoryAccessControl, EnableGamma, InversionOn, NormalMode]
    + (if ScrollsRows(cfg) then [VerticalScrollStart] else [])
    + DrawCommands(Config.DisplayHeight)
    + [DisplayOn]
  }

  /** A fill of `h` lines issues `h` times the X window, Y window, pixels commands. */
  lemma FillCommands(x: bv16, y: bv16, w: bv16, h: bv16, color: bv16)
    ensures Commands(FillOps(x, y, w, h, color)) == DrawCommands(h as nat)
  {
    FillRowsCommands(x, y, w, Solid(color, RowSize(w) / 2), h as nat);
  }

  lemma BringUpParts(cfg: PanelConfig)
    ensures Commands(SetupOps(cfg)) == [SleepOut, PixelFormatSet, MemoryAccessControl, EnableGamma, InversionOn, NormalMode]
    ensures Commands(ScrollOps(cfg)) == if ScrollsRows(cfg) then [VerticalScrollStart] else []
    ensures Commands(BacklightOps(cfg)) == []
    ensures Commands(DisplayOnOps()) == [DisplayOn]
  {
    var m := [Transfer(MemoryAccessControl, [Madctl(cfg)]), Sleep(10_000)];
    assert Commands(WakeOps()) == [SleepOut, PixelFormatSet];
    assert Commands(TuneOps()) == [EnableGamma, InversionOn, NormalMode];
    assert m[1..] == [Sleep(10_000)];
    assert Commands(m) == [MemoryAccessControl];
    if cfg.backlight {
      var l := BacklightOps(cfg);
      assert l[1..] == [PinHigh(Config.BacklightPin)] && !l[0].Transfer?;
      assert Commands(l[1..]) == [] by {
        assert l[1..][1..] == [];
      }
    }
    CommandsAppend(WakeOps(), m);
    CommandsAppend(WakeOps() + m, TuneOps());
  }

  lemma BringUpCommands(cfg: PanelConfig)
    ensures Commands(BringUpOps(cfg)) == InitCommands(cfg)
  {
    var s, c, f, b, d := SetupOps(cfg), ScrollOps(cfg), FillOps(0, 0, Columns, Rows, 0), BacklightOps(cfg), DisplayOnOps();
    assert Commands(s + c + f + b + d) == Commands(s) + Commands(c) + Commands(f) + Commands(b) + Commands(d) by {
      CommandsAppend(s, c);
      CommandsAppend(s + c, f);
      CommandsAppend(s + c + f, b);
      CommandsAppend(s + c + f + b, d);
    }
    BringUpParts(cfg);
    ClearScreenCommands();
  }

  /** The clear-screen fill of the whole panel issues one command triple per line. */
  lemma ClearScreenCommands()
    ensures Commands(FillOps(0, 0, Columns, Rows, 0)) == DrawCommands(Config.DisplayHeight)
  {
    assert Rows == 240;
    FillCommands(0, 0, Columns, Rows, 0);
  }

  /** The commands of InitSPIDisplay are exactly sleep-out, pixel format, MADCTL,
      gamma, inversion on, normal mode, the scroll start when rows are swapped,
      240 rows of clear-screen drawing, and display on. */
  lemma InitSequence(cfg: PanelConfig)
    ensures Commands(InitOps(cfg)) == InitCommands(cfg)
  {
    var r, c0, m, c1 := ResetOps(), [ClockWrite(Config.InitClockDivisor)], BringUpOps(cfg), [ClockWrite(Config.SpiBusClockDivisor)];
    assert Commands(r + c0 + m + c1) == Commands(r) + Commands(c0) + Commands(m) + Commands(c1) by {
      CommandsAppend(r, c0);
      CommandsAppend(r + c0, m);
      CommandsAppend(r + c0 + m, c1);
    }
    assert Commands(r) == [] && Commands(c0) == [] && Commands(c1) == [];
    BringUpCommands(cfg);
  }

  /** VSCSAD (0x37) is among the commands iff MADCTL has the row-swap bit. */
  lemma ScrollSentIff(cfg: PanelConfig)
    ensures VerticalScrollStart in Commands(InitOps(cfg)) <==> ScrollsRows(cfg)
  {
    InitSequence(cfg);
    DrawCommandsOnly(Config.DisplayHeight);
    var pre := [SleepOut, PixelFormatSet, MemoryAccessControl, EnableGamma, InversionOn, NormalMode];
    var sc := if ScrollsRows(cfg) then [VerticalScrollStart] else [];
    var dr := DrawCommands(Config.DisplayHeight);
    assert InitCommands(cfg) == pre + sc + dr + [DisplayOn];
    assert VerticalScrollStart !in dr;
    if ScrollsRows(cfg) {
      assert InitCommands(cfg)[|pre|] == VerticalScrollStart;
    }
  }

  // Clock divisor in effect.

  /** The divisor in effect after `ops`, starting from `c`: the last clock write. */
  function Divisor(ops: seq<Op>, c: bv32): bv32
    decreases |ops|
  {
    if ops == [] then c
    else if ops[|ops| - 1].ClockWrite? then ops[|ops| - 1].divisor
    else Divisor(ops[..|ops| - 1], c)
  }

  predicate NoClockWrites(ops: seq<Op>) {
    forall i :: 0 <= i < |ops| ==> !ops[i].ClockWrite?
  }

  predicate NoTransfers(ops: seq<Op>) {
    forall i :: 0 <= i < |ops| ==> !ops[i].Transfer?
  }

  /** After a clock write and then only other actions, that write is in effect. */
  lemma {:induction false} DivisorHolds(pre: seq<Op>, d: bv32, mid: seq<Op>, c: bv32)
    requires NoClockWrites(mid)
    ensures Divisor(pre + [ClockWrite(d)] + mid, c) == d
    decreases |mid|
  {
    var ops := pre + [ClockWrite(d)] + mid;
    if mid != [] {
      assert ops[..|ops| - 1] == pre + [ClockWrite(d)] + mid[..|mid| - 1];
      assert !mid[|mid| - 1].ClockWrite?;
      DivisorHolds(pre, d, mid[..|mid| - 1], c);
    } else {
      assert ops[|ops| - 1] == ClockWrite(d);
    }
  }

  lemma FillRowsOnlyTransfers(x: bv16, y: bv16, w: bv16, row: seq<bv8>, n: nat)
    requires n <= 0x1_0000
    ensures forall i :: 0 <= i < |FillRows(x, y, w, row, n)| ==> FillRows(x, y, w, row, n)[i].Transfer?
  {}

  lemma BringUpHasNoClockWrites(cfg: PanelConfig)
    ensures NoClockWrites(BringUpOps(cfg))
  {
    FillRowsOnlyTransfers(0, 0, Columns, Solid(0, RowSize(Columns) / 2), Rows as nat);
    var s, c, f, b, d := SetupOps(cfg), ScrollOps(cfg), FillOps(0, 0, Columns, Rows, 0), BacklightOps(cfg), DisplayOnOps();
    assert NoClockWrites(s) && NoClockWrites(c) && NoClockWrites(b) && NoClockWrites(d);
    forall i | 0 <= i < |s + c + f + b + d| ensures !(s + c + f + b + d)[i].ClockWrite? {
      if i < |s| {
        assert (s + c + f + b + d)[i] == s[i];
      } else if i < |s + c| {
        assert (s + c + f + b + d)[i] == c[i - |s|];
      } else if i < |s + c + f| {
        assert (s + c + f + b + d)[i] == f[i - |s + c|];
      } else if i < |s + c + f + b| {
        assert (s + c + f + b + d)[i] == b[i - |s + c + f|];
      } else {
        assert (s + c + f + b + d)[i] == d[i - |s + c + f + b|];
      }
    }
  }

  /** Every transfer of InitSPIDisplay runs at the bring-up divisor 34, and the
      sequence ends with the operating divisor in effect. */
  lemma InitClocking(cfg: PanelConfig, c: bv32)
    ensures forall i :: 0 <= i < |InitOps(cfg)| && InitOps(cfg)[i].Transfer? ==>
      Divisor(InitOps(cfg)[..i], c) == Config.InitClockDivisor
    ensures Divisor(InitOps(cfg), c) == Config.SpiBusClockDivisor
  {
    var r, m := ResetOps(), BringUpOps(cfg);
    var ops := InitOps(cfg);
    var k := |r| + 1;
    BringUpHasNoClockWrites(cfg);
    assert ops[|ops| - 1] == ClockWrite(Config.SpiBusClockDivisor);
    assert forall i :: 0 <= i < k ==> !ops[i].Transfer? by {
      forall i | 0 <= i < k ensures !ops[i].Transfer? {
        assert ops[i] == (r + [ClockWrite(Config.InitClockDivisor)])[i];
      }
    }
    forall i | k <= i < |ops| - 1
      ensures Divisor(ops[..i], c) == Config.InitClockDivisor
    {
      assert ops[..i] == r + [ClockWrite(Config.InitClockDivisor)] + m[..i - k];
      assert NoClockWrites(m[..i - k]);
      DivisorHolds(r, Config.InitClockDivisor, m[..i - k], c);
    }
  }


  // The driver routines, over the peripherals.

  /** sendAddr: one transfer of the window bounds, high byte first. */
  method SendAddr(p: Peripherals, cmd: bv8, a0: bv16, a1: bv16)
    requires p.Valid()
    requires p.mapping == Mapped
    modifies p`cs, p`fifo, p`polled, p`trace, p`ops, p.gpset, p.gpclr
    ensures p.ops == old(p.ops) + [AddrOp(cmd, a0, a1)]
    ensures p.Sent(old(p.trace), old(p.polled), cmd, AddrBytes(a0, a1))
  {
    var addr := [(a0 >> 8) as bv8, (a0 & 0xFF) as bv8, (a1 >> 8) as bv8, (a1 & 0xFF) as bv8];
    assert addr == AddrBytes(a0, a1);
    p.SendCmd(cmd, addr);
  }

  /** The body of drawPixel: a one-pixel window and the pixel's bytes. */
  method SendPoint(p: Peripherals, x: bv16, y: bv16, data: seq<bv8>)
    requires p.Valid() && |data| == 2
    requires p.mapping == Mapped
    modifies p`cs, p`fifo, p`polled, p`trace, p`ops, p.gpset, p.gpclr
    ensures p.ops == old(p.ops) + PointOps(x, y, data)
  {
    SendAddr(p, SetCursorX, x, x);
    SendAddr(p, SetCursorY, y, y);
    p.SendCmd(WritePixels, data);
    Seqs.Snoc3(old(p.ops), AddrOp(SetCursorX, x, x), AddrOp(SetCursorY, y, y), Transfer(WritePixels, data), p.ops);
  }

  /** drawPixel: a one-pixel window, then the colour high byte first. */
  method DrawPixel(p: Peripherals, x: bv16, y: bv16, color: bv16)
    requires p.Valid()
    requires p.mapping == Mapped
    modifies p`cs, p`fifo, p`polled, p`trace, p`ops, p.gpset, p.gpclr
    ensures p.ops == old(p.ops) + PixelOps(x, y, color)
  {
    var data := [(color >> 8) as bv8, (color & 0xFF) as bv8];
    assert data == BigEndian(color);
    SendPoint(p, x, y, data);
  }

  /** The fill loop of drawFillRect: `size` bytes of alternating high and low colour bytes. */
  method FillRow(color: bv16, size: nat) returns (pixels: array<bv8>)
    requires size < 0x1_0000 && size % 2 == 0
    ensures fresh(pixels) && pixels[..] == Solid(color, size / 2)
  {
    pixels := new bv8[size];
    var pixel := [(color >> 8) as bv8, (color & 0xFF) as bv8];
    var i: nat := 0;
    while i < size
      invariant i % 2 == 0 && i <= size
      invariant forall k :: 0 <= k < i ==> pixels[k] == pixel[k % 2]
    {
      pixels[i] := pixel[0];
      pixels[i + 1] := pixel[1];
      i := i + 2;
    }
    assert pixels[..] == Solid(color, size / 2);
  }

  /** One line of drawFillRect: the X window (x, x + w), the Y window of the line, the row. */
  method DrawRow(p: Peripherals, x: bv16, y: bv16, w: bv16, yPos: bv16, row: seq<bv8>)
    requires p.Valid() && |row| < 0x1_0000
    requires p.mapping == Mapped
    modifies p`cs, p`fifo, p`polled, p`trace, p`ops, p.gpset, p.gpclr
    ensures p.ops == old(p.ops) + RowOps(x, y, w, yPos, row)
  {
    SendAddr(p, SetCursorX, x, x + w);
    SendAddr(p, SetCursorY, y + yPos, y + yPos);
    p.SendCmd(WritePixels, row);
    Seqs.Snoc3(old(p.ops), AddrOp(SetCursorX, x, x + w), AddrOp(SetCursorY, y + yPos, y + yPos), Transfer(WritePixels, row), p.ops);
  }

  /** drawFillRect: fill one row buffer, then send it for each of the `h` lines. */
  method DrawFillRect(p: Peripherals, x: bv16, y: bv16, w: bv16, h: bv16, color: bv16)
    requires p.Valid()
    requires p.mapping == Mapped
    modifies p`cs, p`fifo, p`polled, p`trace, p`ops, p.gpset, p.gpclr
    ensures p.ops == old(p.ops) + FillOps(x, y, w, h, color)
  {
    var size := (w as nat * BytesPerPixel) % 0x1_0000;
    var pixels := FillRow(color, size);
    ghost var row := pixels[..];
    var yPos: nat := 0;
    while yPos < h as nat
      invariant yPos <= h as nat && pixels[..] == row && p.mapping == Mapped
      invariant p.ops == old(p.ops) + FillRows(x, y, w, row, yPos)
    {
      ghost var o := p.ops;
      DrawRow(p, x, y, w, yPos as bv16, pixels[..]);
      FillRowsSnoc(x, y, w, row, yPos);
      Seqs.Extend(p.ops, o, old(p.ops), FillRows(x, y, w, row, yPos), RowOps(x, y, w, yPos as bv16, row), FillRows(x, y, w, row, yPos + 1));
      yPos := yPos + 1;
    }
  }

  /** Lines 91-97 (dummy) / 80-86 (st7789): the reset pulse. */
  method ResetPanel(p: Peripherals)
    requires p.Valid()
    requires p.mapping == Mapped
    modifies p`cs, p`fifo, p`polled, p`trace, p`ops, p.gpfsel, p.gpset, p.gpclr
    ensures p.ops == old(p.ops) + ResetOps()
  {
    p.SetGpioMode(Config.ResetPin, ModeOutput);
    p.SetGpio(Config.ResetPin);
    p.Delay(120_000);
    p.ClearGpio(Config.ResetPin);
    p.Delay(120_000);
    p.SetGpio(Config.ResetPin);
    p.Delay(120_000);
    Seqs.Snoc7(old(p.ops), PinMode(Config.ResetPin, ModeOutput), PinHigh(Config.ResetPin), Sleep(120_000),
      PinLow(Config.ResetPin), Sleep(120_000), PinHigh(Config.ResetPin), Sleep(120_000), p.ops);
  }

  /** Sleep out and 16-bit pixel format, behind a memory barrier. */
  method Wake(p: Peripherals)
    requires p.Valid()
    requires p.mapping == Mapped
    modifies p`cs, p`fifo, p`polled, p`trace, p`ops, p.gpset, p.gpclr
    ensures p.ops == old(p.ops) + WakeOps()
  {
    p.MemoryBarrier();
    p.SendCmdOnly(SleepOut);
    p.Delay(120_000);
    p.SendCmdData(PixelFormatSet, Colmod16Bpp);
    p.Delay(20_000);
    Seqs.Snoc5(old(p.ops), Barrier, Transfer(SleepOut, []), Sleep(120_000), Transfer(PixelFormatSet, [Colmod16Bpp]), Sleep(20_000), p.ops);
  }

  /** Gamma on, inversion on, normal mode. */
  method Tune(p: Peripherals)
    requires p.Valid()
    requires p.mapping == Mapped
    modifies p`cs, p`fifo, p`polled, p`trace, p`ops, p.gpset, p.gpclr
    ensures p.ops == old(p.ops) + TuneOps()
  {
    p.SendCmdData(EnableGamma, GammaOn);
    p.SendCmdOnly(InversionOn);
    p.SendCmdOnly(NormalMode);
    p.Delay(10_000);
    Seqs.Snoc4(old(p.ops), Transfer(EnableGamma, [GammaOn]), Transfer(InversionOn, []), Transfer(NormalMode, []), Sleep(10_000), p.ops);
  }

  /** The configuration commands, MADCTL computed with `|=` and `^=`. */
  method Setup(p: Peripherals, cfg: PanelConfig) returns (madctl: bv8)
    requires p.Valid()
    requires p.mapping == Mapped
    modifies p`cs, p`fifo, p`polled, p`trace, p`ops, p.gpset, p.gpclr
    ensures madctl == Madctl(cfg)
    ensures p.ops == old(p.ops) + SetupOps(cfg)
  {
    Wake(p);
    ghost var o1 := p.ops;
    madctl := 0;
    madctl := madctl | cfg.orBits;
    madctl := madctl ^ Rotate180;
    p.SendCmdData(MemoryAccessControl, madctl);
    p.Delay(10_000);
    Seqs.Snoc2(o1, Transfer(MemoryAccessControl, [madctl]), Sleep(10_000), p.ops);
    ghost var o2 := p.ops;
    Tune(p);
    Seqs.Chain3(old(p.ops), WakeOps(), [Transfer(MemoryAccessControl, [Madctl(cfg)]), Sleep(10_000)], TuneOps(), o1, o2, p.ops);
  }

  /** The vertical scroll start, sent when MADCTL swaps rows. */
  method Scroll(p: Peripherals, cfg: PanelConfig, madctl: bv8)
    requires p.Valid() && madctl == Madctl(cfg)
    requires p.mapping == Mapped
    modifies p`cs, p`fifo, p`polled, p`trace, p`ops, p.gpset, p.gpclr
    ensures p.ops == old(p.ops) + ScrollOps(cfg)
  {
    if madctl & RowOrderSwap != 0 {
      var lines: bv16 := 240;
      var data := [0, 0, (lines >> 8) as bv8, (lines & 0xFF) as bv8];
      assert data == AddrBytes(0, 240);
      p.SendCmd(VerticalScrollStart, data);
    }
  }

  /** Backlight pin to output and high, for the variant that has one. */
  method Backlight(p: Peripherals, cfg: PanelConfig)
    requires p.Valid()
    requires p.mapping == Mapped
    modifies p`cs, p`fifo, p`polled, p`trace, p`ops, p.gpfsel, p.gpset, p.gpclr
    ensures p.ops == old(p.ops) + BacklightOps(cfg)
  {
    if cfg.backlight {
      p.SetGpioMode(Config.BacklightPin, ModeOutput);
      p.SetGpio(Config.BacklightPin);
      Seqs.Snoc2(old(p.ops), PinMode(Config.BacklightPin, ModeOutput), PinHigh(Config.BacklightPin), p.ops);
    }
  }

  /** Display on, then the two settling delays. */
  method SwitchOn(p: Peripherals)
    requires p.Valid()
    requires p.mapping == Mapped
    modifies p`cs, p`fifo, p`polled, p`trace, p`ops, p.gpset, p.gpclr
    ensures p.ops == old(p.ops) + DisplayOnOps()
  {
    p.SendCmdOnly(DisplayOn);
    p.Delay(100_000);
    p.Delay(10_000);
    Seqs.Snoc3(old(p.ops), Transfer(DisplayOn, []), Sleep(100_000), Sleep(10_000), p.ops);
  }

  /** InitSPIDisplay of either variant: reset, bring-up at divisor 34, operating divisor. */
  method InitDisplay(p: Peripherals, cfg: PanelConfig)
    requires p.Valid()
    requires p.mapping == Mapped
    modifies p`cs, p`fifo, p`polled, p`trace, p`ops, p`clk, p.gpfsel, p.gpset, p.gpclr
    ensures p.ops == old(p.ops) + InitOps(cfg)
    ensures p.clk == Config.SpiBusClockDivisor
  {
    ResetPanel(p);
    p.WriteClock(Config.InitClockDivisor);
    ghost var o1 := p.ops;
    var madctl := Setup(p, cfg);
    ghost var o2 := p.ops;
    Scroll(p, cfg, madctl);
    ghost var o3 := p.ops;
    DrawFillRect(p, 0, 0, Columns, Rows, 0);
    ghost var o4 := p.ops;
    Backlight(p, cfg);
    ghost var o5 := p.ops;
    SwitchOn(p);
    Seqs.Chain5(o1, SetupOps(cfg), ScrollOps(cfg), FillOps(0, 0, Columns, Rows, 0), BacklightOps(cfg), DisplayOnOps(), o2, o3, o4, o5, p.ops);
    ghost var o6 := p.ops;
    p.WriteClock(Config.SpiBusClockDivisor);
    Seqs.Chain3(old(p.ops), ResetOps() + [ClockWrite(Config.InitClockDivisor)], BringUpOps(cfg), [ClockWrite(Config.SpiBusClockDivisor)], o1, o6, p.ops);
  }
}
