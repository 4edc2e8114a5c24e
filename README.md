# ST7789 SPI panel driver on the BCM2835 — a Dafny model

This project models the register-level driver that an SDL video back end uses
to stream a window surface to an ST7789 TFT panel. The panel hangs off the
BCM2835's SPI0 controller plus three GPIO lines. The driver comes in two
near-identical variants, "dummy" (`src/video/dummy`) and "st7789"
(`src/video/st7789`). The model covers three layers, leaves first:

- **Registers and GPIO** (`bits.dfy`, `spi.dfy`). The SPI0 register file is the
  fields `cs`, `fifo`, `clk` and `dlen` of the class `Spi.Peripherals`. The GPIO
  register file is its arrays `gpfsel`, `gpset`, `gpclr` and `gplev`. The
  macros `SET_GPIO_MODE`, `GET_GPIO_MODE`, `GET_GPIO`, `SET_GPIO` and
  `CLEAR_GPIO` are methods and functions of that class. The bit arithmetic
  behind them is in the module `Bits`.
- **Polled SPI transfer engine** (`bus.dfy`, `spi.dfy`). `sendCmd` is
  `Spi.Peripherals.SendCmd`. It keeps its three polling loops: the
  acknowledge wait, the prefill plus drain/fill loop, and
  `WaitForPolledSPITransferToFinish`. Reads of the status register come
  from a hardware oracle `status: nat -> bv32`, one value per read. Every
  register access is appended to the ghost `trace` (status reads and writes,
  FIFO writes, set/clear writes). The module `Bus` defines the trace of one
  transfer as a function of the status values read. Its lemmas project the
  trace onto FIFO bytes, pin edges and control writes.
- **Display protocol and blit** (`panel.dfy`, `dummy.dfy`, `st7789.dfy`,
  `surface.dfy`). Each driver routine is a method. Each method appends
  protocol-level actions (`Spi.Op`: one `Transfer(cmd, payload)` per
  `sendCmd`, pin modes and edges, clock and control writes, delays) to the
  ghost `ops`. Its postcondition equates the appended actions with a
  specification function. The lemmas state what those functions promise:
  the init command order, the MADCTL value, the clock divisor in force, the
  RGB565 layout, the byte order and every pixel's place.

Both variants' `InitSPIDisplay` share one method, `Panel.InitDisplay`. It is
parameterised by a `PanelConfig`: the bits ORed into MADCTL and whether there
is a backlight pin. `Dummy.DummyConfig` and `St7789.St7789Config` are the two
instances. The st7789 variant's SPI implementation is not part of this
model, so both variants use the dummy variant's `sendCmd` (its header
declares the same functions). The `setGpioMode`/`setGpio`/`clearGpio` calls
of the st7789 variant are modelled by the macros of `src/video/st7789/spi.h`.

Notes on the code:

- The st7789 blit sends one *column* per group: Y window `(x, x)`, then
  X window `(0, h-1)`, then the column's pixels
  (src/video/st7789/SDL_st7789framebuffer.c:198-213).
- No pin index is checked at run time. "Pin must be (0-31)" is only a comment
  in the source, so it is a precondition of `SetGpio`, `ClearGpio` and
  `GetGpio`.
- Both drivers create `SDL_PIXELFORMAT_RGB888` surfaces, whose pixels are
  stored little-endian as blue, green, red, unused. The RGB565 packing puts the
  first stored byte in the top field, and MADCTL's BGR bit
  (src/video/st7789/SDL_st7789framebuffer.c:107) makes the panel read that field
  as blue. The model names the bytes by position.
- The surface pitch is taken to be `w * BytesPerPixel`, as the st7789 update's
  offset `(y*w + x) * BytesPerPixel` (src/video/st7789/SDL_st7789framebuffer.c:200)
  assumes. The dummy update's offset (src/video/dummy/SDL_nullframebuffer.c:224)
  multiplies by `BitsPerPixel` instead; that is a defect, listed under Findings,
  and the model's dummy update uses the corrected byte stride.

## Model

The methods `Panel.ResetPanel`, `Panel.Wake`, `Panel.Tune`, `Panel.Backlight`
and `Panel.SwitchOn` are consecutive stretches of `InitSPIDisplay`. Each appends
one fixed part of `Panel.InitOps`; what the whole promises is stated by the rows
of `Panel.InitDisplay`, `Panel.InitSequence` and `Panel.InitClocking`.

| member | source | states |
|---|---|---|
| `Bits.FieldShiftIsThreeTimes` | src/video/st7789/spi.h:33 | the field offset of a pin is `3 * (pin % 10)` |
| `Bits.FselWordInRange` | src/video/st7789/spi.h:26 | ten pins per gpfsel word, so a pin below 60 selects one of the six words |
| `Bits.FieldReadBack` | src/video/st7789/spi.h:33-34 | GET_GPIO_MODE after SET_GPIO_MODE with a 3-bit mode returns that mode |
| `Bits.FieldWriteKeepsOthers` | src/video/st7789/spi.h:33 | SET_GPIO_MODE leaves every other pin's field of the word unchanged |
| `Bits.FieldWriteKeepsOtherBits` | src/video/st7789/spi.h:33 | SET_GPIO_MODE changes no bit outside `0x7 << 3*(pin%10)` |
| `Bits.FieldWriteSetsOwnBits` | src/video/st7789/spi.h:33 | inside the field mask the word holds exactly the mode |
| `Bits.PinMaskSingleBit` | src/video/st7789/spi.h:36-37 | `1 << pin` is nonzero, a power of two, and its set bit is the pin's |
| `Bits.MaskedIffBitSet` | src/video/st7789/spi.h:35 | masking with `1 << pin` leaves a nonzero word exactly when the word shifted right by `pin` has 1 in its lowest bit |
| `Bits.FieldInPlace` | src/video/st7789/spi.h:34 | GET_GPIO_MODE's field, shifted back to its offset, equals the word masked with `7 << 3*(pin%10)`: the read keeps every bit of the field |
| `Bits.LevelBit` | src/video/st7789/spi.h:35 | `gplev & (1 << pin)` is 0 or the pin's mask, and nonzero exactly when `(gplev >> pin) & 1 == 1` |
| `Bits.SignExtend` | src/video/dummy/spi.h:107-137 | a byte read through `int8_t *` and stored to the 32-bit FIFO register keeps its low byte, has the same signed value, and fills the top 24 bits with ones exactly when the byte is 0x80 or more |
| `Bus.ControlWords` | src/video/dummy/spi.h:55 | the drive settings are 0x0D; a transfer starts with 0x8D, RX clears write 0xAD, init/deinit write 0x3D; the D/C mask is 0x40 |
| `Bus.StillBusyExactly` | src/video/dummy/spi.h:97 | the wait-loop guard `!((cs ^ TA) & (DONE\|TA))` holds exactly when TA is 1 and DONE is 0 |
| `Bus.PrefillCount` | src/video/dummy/spi.h:129 | the prefill takes `min(payloadSize, 15)` bytes: never more than the payload or 15, and one of the two |
| `Bus.PushesExactly` | src/video/dummy/spi.h:131-132 | the prefill trace is one FIFO write per byte, in order, with nothing between |
| `Bus.DrainBytes` | src/video/dummy/spi.h:133-137 | the drain pushes the next unsent bytes in order, one per TXD read, never past the payload's end |
| `Bus.DrainPaced` | src/video/dummy/spi.h:133-137 | every FIFO write of the drain comes right after a status read that showed TXD |
| `Bus.DrainClears` | src/video/dummy/spi.h:138-139 | the drain writes `cs` only with 0xAD, once per read that showed RXR or RXF |
| `Bus.WaitEffects` | src/video/dummy/spi.h:94-103 | the wait loop pushes nothing, drives no pin, and clears RX once per busy RXR/RXF read plus once if the last read shows RXD |
| `Bus.TransferBytes` | src/video/dummy/spi.h:105-144 | one completed transfer puts exactly `[cmd] + payload` into the FIFO, each byte once, in order |
| `Bus.TransferEdges` | src/video/dummy/spi.h:117-125 | D/C is cleared once, and set once only when the payload is non-empty |
| `Bus.TransferClears` | src/video/dummy/spi.h:114-139 | `cs` is written 0x8D first, and afterwards only 0xAD, once per RX alarm seen by a polling loop |
| `Bus.DataControlEdges` | src/video/dummy/spi.h:114-125 | D/C is cleared before the command byte is pushed, and set right after the acknowledge loop |
| `Bus.DataControlFraming` | src/video/dummy/spi.h:117-137 | the command byte is the only byte pushed before D/C goes high; every payload byte is pushed after |
| `Bus.PrefillUnpolled` | src/video/dummy/spi.h:129-132 | right after D/C goes high, the first `min(n, 15)` payload bytes are pushed with no status read between |
| `Spi.Peripherals.GetGpioMode` | src/video/st7789/spi.h:34 | GET_GPIO_MODE reads word `pin / 10`; its result, shifted back by `3*(pin%10)`, is exactly that word's bits under the pin's field mask |
| `Spi.Peripherals.GetGpio` | src/video/st7789/spi.h:35 | GET_GPIO is 0 or the pin's mask, and nonzero exactly when `(gplev[0] >> pin) & 1 == 1` |
| `Spi.Peripherals.SetGpioMode` | src/video/dummy/spi.h:68 | read-modify-write of one gpfsel word, only while the registers are mapped: the pin reads back its mode, every other pin and word is unchanged |
| `Spi.Peripherals.SetGpio` | src/video/dummy/spi.h:71 | `gpset[0] = 1 << pin`, a single-bit word whose set bit is `pin`, only while mapped; the edge is recorded and no SPI register changes |
| `Spi.Peripherals.ClearGpio` | src/video/dummy/spi.h:72 | `gpclr[0] = 1 << pin`, a single-bit word whose set bit is `pin`, only while mapped; the edge is recorded and no SPI register changes |
| `Spi.Peripherals.AwaitAcknowledge` | src/video/dummy/spi.h:119-121 | polls until the first read showing RXD or DONE; only status reads are recorded |
| `Spi.Peripherals.WriteFifoSigned` | src/video/dummy/spi.h:107-137 | a payload byte reaches `fifo` sign-extended through `int8_t *tStart`; the recorded FIFO byte is its low byte |
| `Spi.Peripherals.Prefill` | src/video/dummy/spi.h:131-132 | pushes the first `m` payload bytes in order without reading `cs`; `fifo` ends holding the last of them sign-extended, or is untouched when `m` is 0 |
| `Spi.Peripherals.Drain` | src/video/dummy/spi.h:133-140 | the drain/fill loop: its trace is the reference drain trace for the status values read, and it stops after the last byte |
| `Spi.Peripherals.WaitForPolledSPITransferToFinish` | src/video/dummy/spi.h:94-103 | polls until TA is 0 or DONE is 1, clearing RX as it goes; its trace is the reference wait trace |
| `Spi.Peripherals.SendCmd` | src/video/dummy/spi.h:105-144 | the register traffic is one completed reference transfer of `cmd` and `payload` for the status values read; requires the registers mapped; `clk`, `dlen`, the mapping and the descriptor are unchanged |
| `Spi.Peripherals.SendCmdOnly` | src/video/dummy/spi.h:146-149 | a transfer with an empty payload; D/C is never set |
| `Spi.Peripherals.SendCmdData` | src/video/dummy/spi.h:151-154 | a transfer with a one-byte payload |
| `Spi.Peripherals.InitSPI` | src/video/dummy/spi.h:156-187 | returns -1 with no register written when open or mmap fails; otherwise D/C is an output, MOSI/CLK are ALT0, `cs = 0x3D`, `clk = 20`, `dlen = 2`, and it returns 0 |
| `Spi.Peripherals.DeinitSPI` | src/video/dummy/spi.h:189-212 | requires the registers mapped, as its unconditional `spi->cs` write does; `cs = 0x3D`, pins 6..11 back to input, the others unchanged; unmaps and closes only what is held, leaving no mapping and no descriptor |
| `Panel.BigEndianRoundTrip` | src/video/dummy/SDL_nullframebuffer.c:42 | decoding a high-byte-first 16-bit value gives it back |
| `Panel.BigEndianOnto` | src/video/dummy/SDL_nullframebuffer.c:42 | every two-byte string is the encoding of its decoding |
| `Panel.AddrRoundTrip` | src/video/dummy/SDL_nullframebuffer.c:40-44 | the four address bytes decode to `a0` and `a1` |
| `Panel.SendAddr` | src/video/dummy/SDL_nullframebuffer.c:40-44 | one transfer of `cmd` with payload `[a0>>8, a0&0xFF, a1>>8, a1&0xFF]` |
| `Panel.SendPoint` | src/video/dummy/SDL_nullframebuffer.c:50-52 | `0x2A [x,x]`, `0x2B [y,y]`, then `0x2C` with the two given bytes, in that order |
| `Panel.DrawPixel` | src/video/dummy/SDL_nullframebuffer.c:46-53 | exactly `0x2A [x,x]`, `0x2B [y,y]`, `0x2C [color>>8, color&0xFF]` |
| `Panel.RowSizeWraps` | src/video/dummy/SDL_nullframebuffer.c:58 | the `uint16_t` row size is `2w` below 0x8000 pixels and wraps above |
| `Panel.FillRow` | src/video/dummy/SDL_nullframebuffer.c:58-65 | the row buffer is `size` bytes of alternating high and low colour bytes |
| `Panel.FillRowPayload` | src/video/dummy/SDL_nullframebuffer.c:58-65 | a fill's row payload has `2w mod 2^16` bytes, high byte at even and low byte at odd indices |
| `Panel.FillRowsShape` | src/video/dummy/SDL_nullframebuffer.c:67-71 | line `i` of a fill is X window `(x, x+w)`, Y window `(y+i, y+i)`, then the same row |
| `Panel.FillCommands` | src/video/dummy/SDL_nullframebuffer.c:67-71 | a fill of `h` lines issues `h` times 0x2A, 0x2B, 0x2C |
| `Panel.DrawRow` | src/video/dummy/SDL_nullframebuffer.c:68-70 | one line of the fill: X window `(x, x+w)`, Y window `(y+yPos, y+yPos)`, then the row buffer |
| `Panel.DrawFillRect` | src/video/dummy/SDL_nullframebuffer.c:55-72 | fills the row buffer, then emits the `h` window/window/pixels groups of the reference fill |
| `Panel.Setup` | src/video/dummy/SDL_nullframebuffer.c:101-124 | returns the MADCTL byte it sends, the one the configuration determines (0x40 for dummy, 0x48 for st7789 by the bring-up lemmas), sent after the pixel format and before gamma |
| `Panel.Scroll` | src/video/dummy/SDL_nullframebuffer.c:130-132 | the run-time test `madctl & 0x80` sends VSCSAD `[0, 0, 0, 240]` exactly when the configuration swaps rows |
| `Panel.InitSequence` | src/video/dummy/SDL_nullframebuffer.c:103-136 | init commands are 0x11, 0x3A, 0x36, 0xBA, 0x21, 0x13, then 0x37 only with rows swapped, then 240 fill groups, then 0x29 |
| `Panel.ScrollSentIff` | src/video/dummy/SDL_nullframebuffer.c:130-132 | 0x37 is sent exactly when the MADCTL byte has the row-swap bit |
| `Panel.InitClocking` | src/video/dummy/SDL_nullframebuffer.c:100-141 | every init transfer runs at divisor 34, and divisor 20 is in force at the end |
| `Panel.InitDisplay` | src/video/dummy/SDL_nullframebuffer.c:85-141 | reset edges, `clk = 34`, the command list, black fill, backlight if any, 0x29, `clk = 20`, in that order |
| `Dummy.DummyBringUp` | src/video/dummy/SDL_nullframebuffer.c:112-113 | MADCTL is 0x40, so the row swap is clear and 0x37 is never sent |
| `Dummy.StuffColorIsBlue` | src/video/dummy/SDL_nullframebuffer.c:79 | 0xFF00FF narrows to 0x00FF as drawPixel's `uint16_t` colour, sent as the bytes 0x00, 0xFF |
| `Dummy.AntiDiagonal` | src/video/dummy/SDL_nullframebuffer.c:78 | drawStuff's column on line y satisfies `x + y + 1 == 240` |
| `Dummy.StuffIsAntiDiagonal` | src/video/dummy/SDL_nullframebuffer.c:77-80 | pixel y of drawStuff is window `(239-y, 239-y)` by `(y, y)` with bytes `[0x00, 0xFF]` |
| `Dummy.DrawStuff` | src/video/dummy/SDL_nullframebuffer.c:74-83 | emits the 240 anti-diagonal pixels and leaves the clock divisor alone |
| `Dummy.InitSPIDisplay` | src/video/dummy/SDL_nullframebuffer.c:85-145 | the shared bring-up with the dummy configuration, then drawStuff; divisor 20 at the end |
| `Dummy.CopyPixel` | src/video/dummy/SDL_nullframebuffer.c:224-232 | pixel (x, y): window `(x,x)` by `(y,y)` and the first two bytes at the pixel's byte offset |
| `Dummy.CopyColumn` | src/video/dummy/SDL_nullframebuffer.c:222-233 | the inner loop: lines 0..h-1 of column x, one pixel copy each, in order |
| `Dummy.UpdateCopiesEveryPixel` | src/video/dummy/SDL_nullframebuffer.c:219-233 | every shown pixel (x, y) is sent, x outer and y inner, as window `(x,x)` by `(y,y)` and its first two stored bytes |
| `Dummy.UpdateWindowFramebuffer` | src/video/dummy/SDL_nullframebuffer.c:181-237 | a missing surface is an error with nothing sent; otherwise the clamped pixel-by-pixel copy |
| `Dummy.OffsetAsWritten` | src/video/dummy/SDL_nullframebuffer.c:224 | as written, the offset times the bytes per pixel is the byte offset times the bits per pixel; on RGB888 it is six times the byte offset |
| `Dummy.OffsetAsWrittenOverruns` | src/video/dummy/SDL_nullframebuffer.c:224 | as written, pixel (1, 0) of a 2×1 RGB888 surface is read at byte 24 of 8 |
| `Dummy.LastPixelAsWrittenOverruns` | src/video/dummy/SDL_nullframebuffer.c:224 | as written, the last pixel of any RGB888 surface of two or more pixels is read past the end |
| `Surfaces.Clamp` | src/video/st7789/SDL_st7789framebuffer.c:189-190 | the clamp is at most both its value and its limit, is one of them, and keeps values already within the limit |
| `Surfaces.ShownWidth` | src/video/st7789/SDL_st7789framebuffer.c:189 | the shown width is at most the surface's and at most 240 |
| `Surfaces.ShownHeight` | src/video/st7789/SDL_st7789framebuffer.c:190 | the shown height is at most the surface's and at most 240 |
| `Surfaces.OffsetInBounds` | src/video/st7789/SDL_st7789framebuffer.c:200-201 | every pixel's bytes lie inside the surface's storage |
| `Surfaces.OffsetsApart` | src/video/st7789/SDL_st7789framebuffer.c:200 | distinct pixels occupy disjoint bytes |
| `St7789.St7789BringUp` | src/video/st7789/SDL_st7789framebuffer.c:106-130 | MADCTL is 0x48 (column swap, BGR): 0x37 is never sent and the backlight goes to output and high |
| `St7789.InitSPIDisplay` | src/video/st7789/SDL_st7789framebuffer.c:74-138 | the shared bring-up with the st7789 configuration; divisor 20 at the end |
| `St7789.Wide565Fits` | src/video/st7789/SDL_st7789framebuffer.c:204 | the packed colour fits in 16 bits |
| `St7789.MasksAgreeWithShifts` | src/video/st7789/SDL_st7789framebuffer.c:203-204 | the mask formula equals the commented-out shift formula |
| `St7789.Rgb565Fields` | src/video/st7789/SDL_st7789framebuffer.c:204 | the top bits of the first, second and third stored bytes (blue, green and red of the little-endian XRGB8888 surface) land in bits 15..11, 10..5 and 4..0 |
| `St7789.Rgb565Onto` | src/video/st7789/SDL_st7789framebuffer.c:204 | every 16-bit colour is packed from its expansion, so repacking an unpacked colour gives it back |
| `St7789.Rgb565KeepsHighBits` | src/video/st7789/SDL_st7789framebuffer.c:204 | unpacking a packed pixel keeps the top 5/6/5 bits of the channels and drops the rest |
| `St7789.Rgb565Primaries` | src/video/st7789/SDL_st7789framebuffer.c:204 | a full first, second or third stored byte packs to 0xF800, 0x07E0, 0x001F; all bytes full and all zero pack to 0xFFFF and 0 |
| `St7789.StagingHoldsAColumn` | src/video/st7789/SDL_st7789framebuffer.c:205-206 | every staging index written, up to `2*239+1`, is below 2048 |
| `St7789.StagePixel` | src/video/st7789/SDL_st7789framebuffer.c:200-206 | the packed colour is stored high byte first at `buf[2y]`, `buf[2y+1]`, nothing else changes |
| `St7789.StageColumn` | src/video/st7789/SDL_st7789framebuffer.c:199-207 | the first `2h` staging bytes are the column's colours, the rest are unchanged |
| `St7789.ColumnBytesAt` | src/video/st7789/SDL_st7789framebuffer.c:205-206 | bytes `2y`, `2y+1` of a staged column decode to pixel (x, y)'s colour |
| `St7789.LastLine` | src/video/st7789/SDL_st7789framebuffer.c:211 | `(uint16_t)h - 1` is `h - 1`, and 0xFFFF for an empty surface |
| `St7789.UpdateSendsEveryColumn` | src/video/st7789/SDL_st7789framebuffer.c:198-213 | column x is `0x2B [x,x]`, `0x2A [0,h-1]`, then `0x2C` with `2h` bytes whose pixel y is (x, y) in RGB565 |
| `St7789.SendColumn` | src/video/st7789/SDL_st7789framebuffer.c:210-212 | Y window `(x, x)`, X window `(0, (uint16_t)h-1)`, then `0x2C` with the given payload |
| `St7789.SendColumns` | src/video/st7789/SDL_st7789framebuffer.c:192-213 | a capacity error sends nothing; otherwise the `w` column groups, in order |
| `St7789.UpdateWindowFramebuffer` | src/video/st7789/SDL_st7789framebuffer.c:174-216 | a missing surface is an error with nothing sent; otherwise the clamped column-by-column blit |
| `St7789.ClampedWidthFitsStaging` | src/video/st7789/SDL_st7789framebuffer.c:192-195 | once clamped, `2w <= 480 <= 2048`, so the capacity error cannot fire |
| `St7789.Scenario640x480` | src/video/st7789/SDL_st7789framebuffer.c:189-213 | a 640×480 surface gives 240 column groups with window `(0, 239)` and 480 bytes each |
| `St7789.Scenario100x50` | src/video/st7789/SDL_st7789framebuffer.c:189-213 | for the corrected update (second Findings row), a 100×50 surface gives 100 column groups with window `(0, 49)` and 100 bytes each |
| `St7789.PayloadAsWrittenMismatch` | src/video/st7789/SDL_st7789framebuffer.c:192-212 | as written, a column's payload is the staged column only when `w == h` |
| `St7789.PayloadAsWrittenCounterexample` | src/video/st7789/SDL_st7789framebuffer.c:192-212 | as written, a 2×1 surface sends 4 bytes for a one-pixel window, two of them stale |
| `St7789.AsWrittenAgreesWhenSquare` | src/video/st7789/SDL_st7789framebuffer.c:192-213 | for a square region the update as written sends what the corrected one sends |
| `St7789.FullScreenAsWrittenIsCorrect` | src/video/st7789/SDL_st7789framebuffer.c:192-213 | on a surface at least as large as the 240×240 panel the region is clamped to 240×240, so the update as written sends exactly what the corrected one sends |
| `St7789.AsWrittenOverfillsWhenWide` | src/video/st7789/SDL_st7789framebuffer.c:192-213 | for a region wider than tall, each column as written carries `2w` bytes for an `h`-line window |
| `St7789.BlitAsWritten` | src/video/st7789/SDL_st7789framebuffer.c:198-213 | the first `m` column groups as written, three actions per column, each column's payload the first `2w` staging bytes |
| `St7789.SendColumnsAsWritten` | src/video/st7789/SDL_st7789framebuffer.c:192-213 | as written: capacity check on `2w`, then `w` column groups each with the first `2w` staging bytes |
| `St7789.UpdateAsWritten` | src/video/st7789/SDL_st7789framebuffer.c:174-216 | the whole update exactly as written, given the staging buffer's prior content |
| `St7789.VideoQuit` | src/video/st7789/SDL_st7789framebuffer.c:228-234 | requires the registers mapped; 0x28, then the backlight cleared, then DeinitSPI's actions; nothing mapped afterwards |

## Findings

| source | as written | input that shows it | evidently intended | confidence | as-written member | corrected member |
|---|---|---|---|---|---|---|
| src/video/dummy/SDL_nullframebuffer.c:224 | the pixel offset is `(y*w + x) * BitsPerPixel`, a bit count used as a byte stride | a 2×1 RGB888 surface (8 bytes): pixel (1, 0) is read at byte 24 | `(y*w + x) * BytesPerPixel` | high; not executed | `Dummy.OffsetAsWritten`, `Dummy.OffsetAsWrittenOverruns` | `Dummy.UpdateWindowFramebuffer` (`Dummy.UpdateCopiesEveryPixel`) |
| src/video/st7789/SDL_st7789framebuffer.c:192 | `size = w * 2` bytes are sent per column, but the inner loop stages `2h` bytes and the X window spans `h` lines | a 2×1 surface: the window `(0, 0)` gets 4 bytes, the last 2 of them stale buffer content | `size = h * 2` | medium; not executed | `St7789.UpdateAsWritten`, `St7789.PayloadAsWrittenCounterexample` | `St7789.UpdateWindowFramebuffer` (`St7789.UpdateSendsEveryColumn`) |

For square regions both halves agree (`St7789.AsWrittenAgreesWhenSquare`). Every surface
at least as large as the 240×240 panel is clamped to such a region, so a
full-screen update is unaffected (`St7789.FullScreenAsWrittenIsCorrect`).

## Left out

- Opening `/dev/mem`, `mmap`, `munmap`, `close` and the `bcm_host_get_*` queries: `InitSPI` takes the open result and the mmap outcome as inputs. The mapping is the abstract `Spi.Mapping`. Unmap and close are recorded as actions.
- `usleep` and `__sync_synchronize`: recorded as `Sleep` and `Barrier` actions, with no timing.
- Volatile access semantics. Also left out is the termination of the polling loops, which end only when the bus answers: `Peripherals.Valid()` requires a responsive status oracle (`Bus.Responsive`).
- The level register `gplev` is fixed when the peripherals are built. No method changes input levels.
- SDL surface and window plumbing: `Create/DestroyWindowFramebuffer`, `SDL_Get/SetWindowData`, `SDL_FreeSurface`. A missing surface is `None`. The `rects`/`numrects` arguments are ignored by the source and are not parameters here.
- `SDL_DUMMY_CreateWindowFramebuffer` ignores `InitSPI`'s result. That caller is window plumbing and is not part of this model. After a failed open or mmap the source would go on to dereference a null or `MAP_FAILED` pointer in `InitSPIDisplay`, `VideoQuit` and `DeinitSPI`; the model does not follow that path: every method that writes a register requires `mapping == Mapped`.
- `Spi.Peripherals.GetGpioMode` and `Spi.Peripherals.GetGpio` read the GPIO arrays whatever the mapping; only the writers require it.
- Trace above the transfer: `Panel`, `Dummy` and `St7789` methods state their effect as protocol actions (`ops`) and keep `clk`, `dlen`, the mapping and the descriptor unchanged where they do not write them, but do not restate the register trace. That trace is stated per transfer by `Spi.Peripherals.SendCmd` (`Bus.TransferBytes`, `Bus.TransferEdges`) and per edge by `SetGpio`/`ClearGpio`.
- `printf` logging, and the commented-out code of SDL_nullframebuffer.c:196-217 and 223-231.
- The st7789 variant's SPI implementation file is not part of this model. The dummy variant's `sendCmd`, `InitSPI` and `DeinitSPI` stand in for it.
- Surface pitch: rows are taken to be `w * BytesPerPixel` bytes apart, with no padding.
- `SDL_st7789video.c` (driver bootstrap, evdev), the waveshare variant (vendor LCD library) and `test/testoffscreen.c` are not part of this model.
- `Spi.Peripherals.SetGpio`: a pin of 32 or more is excluded by the precondition rather than modelled as C's undefined shift, as the source's "Pin must be (0-31)" comment demands.
- `Spi.Peripherals.ClearGpio`: a pin of 32 or more is excluded by the precondition, for the same reason as `SetGpio`.
- `Spi.Peripherals.GetGpio`: a pin of 32 or more is excluded by the precondition; `1 << pin` is undefined in C there.
- `Spi.Peripherals.SetGpioMode`: a pin of 60 or more is excluded by the precondition; its gpfsel word would lie outside the six function-select registers.
