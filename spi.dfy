/** The memory-mapped BCM2835 register files of spi.h (SPI0 and GPIO) and the
    polled transfer engine that drives the display over them. */
module Spi {
  import opened Bits
  import opened Bus
  import Config
  import Seqs

  // SPI0 pins on the GPIO header.
  const Spi0Ce1: nat := 7
  const Spi0Ce0: nat := 8
  const Spi0Miso: nat := 9
  const Spi0Mosi: nat := 10
  const Spi0Clk: nat := 11

  // Function-select modes.
  const ModeInput: bv3 := 0
  const ModeOutput: bv3 := 1
  const ModeAlt0: bv3 := 4

  /** UNLOCK_FAST_8_CLOCKS_SPI: a DLEN other than 0 or 1 drops the idle ninth clock. */
  const FastDataLength: bv32 := 2

  /** What the driver does to the hardware, one entry per protocol-level action. */
  datatype Op =
    | Transfer(cmd: bv8, payload: seq<bv8>)   // one sendCmd
    | PinMode(pin: nat, mode: bv3)            // SET_GPIO_MODE
    | PinHigh(pin: nat)                       // SET_GPIO
    | PinLow(pin: nat)                        // CLEAR_GPIO
    | ControlWrite(value: bv32)               // spi->cs = value, outside a transfer
    | ClockWrite(divisor: bv32)               // spi->clk = divisor
    | DataLengthWrite(value: bv32)            // spi->dlen = value
    | Sleep(micros: nat)                      // usleep
    | Barrier                                 // __sync_synchronize
    | Unmap                                   // munmap of the peripheral window
    | Close(fd: int)                          // close of /dev/mem

  /** The peripheral window `bcm2835`: never mapped (0), mapped, or MAP_FAILED. */
  datatype Mapping = NoMapping | Mapped | MapFailed

  class Peripherals {
    // SPI0 register file; `cs` holds the last value written.
    var cs: bv32
    var fifo: bv32
    var clk: bv32
    var dlen: bv32
    // GPIO register file.
    const gpfsel: array<bv32>
    const gpset: array<bv32>
    const gpclr: array<bv32>
    const gplev: array<bv32>
    /** Value number i that a read of the status register returns. */
    const status: nat -> bv32
    /** Number of status reads so far. */
    var polled: nat
    var memFd: int
    var mapping: Mapping
    /** Every register access of the SPI data path and every pin edge, in order. */
    ghost var trace: seq<Event>
    /** Every protocol-level action, in order. */
    ghost var ops: seq<Op>

    ghost predicate Valid() {
      && gpfsel.Length == 6 && gpset.Length == 2 && gpclr.Length == 2 && gplev.Length == 2
      && gpfsel != gpset && gpfsel != gpclr && gpfsel != gplev
      && gpset != gpclr && gpset != gplev && gpclr != gplev
      && Responsive(status)
    }

    constructor (status: nat -> bv32, levels: bv32)
      requires Responsive(status)
      ensures Valid() && this.status == status && polled == 0
      ensures mapping == NoMapping && memFd == -1
      ensures gplev[0] == levels && trace == [] && ops == []
    {
      gpfsel := new bv32[6](_ => 0);
      gpset := new bv32[2](_ => 0);
      gpclr := new bv32[2](_ => 0);
      gplev := new bv32[2](_ => levels);
      this.status := status;
      polled := 0;
      memFd := -1;
      mapping := NoMapping;
      trace := [];
      ops := [];
    }

    // GPIO macros.

    /** GET_GPIO_MODE: the 3-bit function-select field of `pin`; shifted back to
        the field's offset it is exactly the word's bits under the field mask. */
    function GetGpioMode(pin: nat): (m: bv3)
      requires Valid() && pin < 60
      reads gpfsel
      ensures HoldsField(gpfsel[pin / 10], pin % 10, m)
    {
      FselWordInRange(pin);
      var w, f := pin / PinsPerFselWord, pin % PinsPerFselWord;
      FieldInPlace(gpfsel[w], f);
      FieldOf(gpfsel[w], f)
    }

    /** GET_GPIO: nonzero exactly when the pin's input level is high, and then
        exactly the pin's mask. */
    function GetGpio(pin: nat): (r: bv32)
      requires Valid() && pin < 32
      reads gplev
      ensures r == 0 || r == PinMask(pin)
      ensures r != 0 <==> BitSet(gplev[0], pin)
    {
      LevelBit(gplev[0], pin)
    }

    /** SET_GPIO_MODE: read-modify-write of one 3-bit field of one gpfsel word. */
    method SetGpioMode(pin: nat, mode: bv3)
      requires Valid() && pin < 60
      requires mapping == Mapped
      modifies gpfsel, this`ops
      ensures gpfsel[pin / 10] == WithField(old(gpfsel[pin / 10]), pin % 10, mode)
      ensures forall k :: 0 <= k < 6 && k != pin / 10 ==> gpfsel[k] == old(gpfsel[k])
      ensures GetGpioMode(pin) == mode
      ensures forall q :: 0 <= q < 60 && q != pin ==> GetGpioMode(q) == old(GetGpioMode(q))
      ensures ops == old(ops) + [PinMode(pin, mode)]
    {
      FselWordInRange(pin);
      var w, f := pin / PinsPerFselWord, pin % PinsPerFselWord;
      ghost var before := gpfsel[..];
      gpfsel[w] := WithField(gpfsel[w], f, mode);
      FieldReadBack(before[w], f, mode);
      forall q | 0 <= q < 60 && q != pin
        ensures GetGpioMode(q) == FieldOf(before[q / 10], q % 10)
      {
        FselWordInRange(q);
        if q / 10 == w {
          FieldWriteKeepsOthers(before[w], f, q % 10, mode);
        }
      }
      ops := ops + [PinMode(pin, mode)];
    }

    /** SET_GPIO: gpset[0] = 1 << pin, a word with only the pin's bit set. */
    method SetGpio(pin: nat)
      requires Valid() && pin < 32
      requires mapping == Mapped
      modifies gpset, this`trace, this`ops
      ensures gpset[0] == PinMask(pin) && gpset[1] == old(gpset[1])
      ensures BitSet(gpset[0], pin) && gpset[0] & (gpset[0] - 1) == 0
      ensures trace == old(trace) + [PinSet(PinMask(pin))]
      ensures ops == old(ops) + [PinHigh(pin)]
    {
      PinMaskSingleBit(pin);
      gpset[0] := PinMask(pin);
      trace := trace + [PinSet(PinMask(pin))];
      ops := ops + [PinHigh(pin)];
    }

    /** CLEAR_GPIO: gpclr[0] = 1 << pin, a word with only the pin's bit set. */
    method ClearGpio(pin: nat)
      requires Valid() && pin < 32
      requires mapping == Mapped
      modifies gpclr, this`trace, this`ops
      ensures gpclr[0] == PinMask(pin) && gpclr[1] == old(gpclr[1])
      ensures BitSet(gpclr[0], pin) && gpclr[0] & (gpclr[0] - 1) == 0
      ensures trace == old(trace) + [PinClear(PinMask(pin))]
      ensures ops == old(ops) + [PinLow(pin)]
    {
      PinMaskSingleBit(pin);
      gpclr[0] := PinMask(pin);
      trace := trace + [PinClear(PinMask(pin))];
      ops := ops + [PinLow(pin)];
    }

    // SPI0 register accesses.

    /** A read of the control/status register answers the next status value. */
    method ReadCs() returns (v: bv32)
      requires mapping == Mapped
      modifies this`polled, this`trace
      ensures v == status(old(polled)) && polled == old(polled) + 1
      ensures trace == old(trace) + [CsRead(v)]
    {
      v := status(polled);
      polled := polled + 1;
      trace := trace + [CsRead(v)];
    }

    method WriteCs(v: bv32)
      requires mapping == Mapped
      modifies this`cs, this`trace
      ensures cs == v && trace == old(trace) + [CsWrite(v)]
    {
      cs := v;
      trace := trace + [CsWrite(v)];
    }

    /** spi->fifo = cmd, from a `uint8_t`: the byte is zero-extended. */
    method WriteFifo(b: bv8)
      requires mapping == Mapped
      modifies this`fifo, this`trace
      ensures fifo == b as bv32 && trace == old(trace) + [FifoWrite(b)]
    {
      fifo := b as bv32;
      trace := trace + [FifoWrite(b)];
    }

    /** spi->fifo = *tStart++, through `int8_t *tStart`: the byte is
        sign-extended to the register width. Only its low byte is shifted out. */
    method WriteFifoSigned(b: bv8)
      requires mapping == Mapped
      modifies this`fifo, this`trace
      ensures fifo == SignExtend(b) && trace == old(trace) + [FifoWrite(b)]
    {
      fifo := SignExtend(b);
      trace := trace + [FifoWrite(b)];
    }

    /** spi->clk = divisor. */
    method WriteClock(divisor: bv32)
      requires mapping == Mapped
      modifies this`clk, this`ops
      ensures clk == divisor && ops == old(ops) + [ClockWrite(divisor)]
    {
      clk := divisor;
      ops := ops + [ClockWrite(divisor)];
    }

    /** usleep(micros): only recorded. */
    method Delay(micros: nat)
      modifies this`ops
      ensures ops == old(ops) + [Sleep(micros)]
    {
      ops := ops + [Sleep(micros)];
    }

    /** __sync_synchronize(): only recorded. */
    method MemoryBarrier()
      modifies this`ops
      ensures ops == old(ops) + [Barrier]
    {
      ops := ops + [Barrier];
    }

    // The polled transfer engine.

    /** The loop `while (!(spi->cs & (RXD | DONE)))` after the command byte. */
    method AwaitAcknowledge() returns (ghost acks: seq<bv32>)
      requires Valid()
      requires mapping == Mapped
      modifies this`polled, this`trace
      ensures AckWindow(acks) && ReadFrom(status, old(polled), acks)
      ensures polled == old(polled) + |acks|
      ensures trace == old(trace) + Polls(acks)
    {
      ghost var r0, t0 := polled, trace;
      ghost var j := NextAcknowledge(status, r0);
      ghost var seen: seq<bv32> := [];
      var v := ReadCs();
      while !Acknowledged(v)
        invariant ReadFrom(status, r0, seen) && v == status(r0 + |seen|)
        invariant polled == r0 + |seen| + 1
        invariant forall i :: 0 <= i < |seen| ==> !Acknowledged(seen[i])
        invariant trace == t0 + Polls(seen) + [CsRead(v)]
        invariant polled <= j + 1 && (!Acknowledged(v) ==> polled <= j)
        decreases j + 1 - polled
      {
        var w := PollOnce(v, r0, t0, seen);
        seen, v := seen + [v], w;
      }
      ReadFromSnoc(status, r0, seen, v);
      PollsSnoc(seen, v);
      acks := seen + [v];
      assert Init(acks) == seen;
    }

    /** One iteration of the acknowledge loop after the unacknowledged read `v`,
        which followed the reads `seen` since (t0, r0): read the status again. */
    method PollOnce(v: bv32, ghost r0: nat, ghost t0: seq<Event>, ghost seen: seq<bv32>) returns (w: bv32)
      requires ReadFrom(status, r0, seen) && v == status(r0 + |seen|) && polled == r0 + |seen| + 1
      requires trace == t0 + Polls(seen) + [CsRead(v)]
      requires mapping == Mapped
      modifies this`polled, this`trace
      ensures ReadFrom(status, r0, seen + [v]) && w == status(r0 + |seen| + 1) && polled == r0 + |seen| + 2
      ensures trace == t0 + Polls(seen + [v]) + [CsRead(w)]
    {
      ReadFromSnoc(status, r0, seen, v);
      PollsSnoc(seen, v);
      w := ReadCs();
    }

    /** The prefill loop of sendCmd: the first `m` payload bytes, unpolled. */
    method Prefill(payload: seq<bv8>, m: nat)
      requires m <= |payload|
      requires mapping == Mapped
      modifies this`fifo, this`trace
      ensures trace == old(trace) + Pushes(payload[..m])
      ensures m > 0 ==> fifo == SignExtend(payload[m - 1])
      ensures m == 0 ==> fifo == old(fifo)
    {
      var t := 0;
      while t < m
        invariant 0 <= t <= m
        invariant trace == old(trace) + Pushes(payload[..t])
        invariant t > 0 ==> fifo == SignExtend(payload[t - 1])
        invariant t == 0 ==> fifo == old(fifo)
      {
        WriteFifoSigned(payload[t]);
        PushesPrefix(payload, t);
        t := t + 1;
      }
    }

    /** The drain loop of sendCmd: push the bytes from `m` on, one per status read
        that shows TXD, and clear RX on every read that shows RXR or RXF. */
    method Drain(payload: seq<bv8>, m: nat) returns (ghost drains: seq<bv32>)
      requires Valid() && m <= |payload|
      requires mapping == Mapped
      modifies this`cs, this`fifo, this`polled, this`trace
      ensures DrainWindow(drains, |payload| - m)
      ensures ReadFrom(status, old(polled), drains) && polled == old(polled) + |drains|
      ensures trace == old(trace) + DrainTrace(drains, payload[m..])
      ensures cs == old(cs) || cs == ClearRxActive
    {
      ghost var t1, r1, rest := trace, polled, payload[m..];
      var n, t := |payload|, m;
      drains := [];
      ghost var j := NextTxAccepts(status, polled);
      while t < n
        invariant m <= t <= n && t - m == Pushed(drains)
        invariant drains != [] ==> Pushed(Init(drains)) < n - m
        invariant ReadFrom(status, r1, drains) && polled == r1 + |drains|
        invariant trace == t1 + DrainTrace(drains, rest)
        invariant polled <= j && TxAccepts(status(j))
        invariant cs == old(cs) || cs == ClearRxActive
        decreases n - t, j - polled
      {
        var v;
        v, t := DrainOnce(payload, t, m, r1, t1, drains);
        drains := drains + [v];
        if TxAccepts(v) {
          j := NextTxAccepts(status, polled);
        }
      }
    }

    /** One iteration of the drain loop, at payload index `t`, after the reads
        `drains` since (t1, r1) that pushed the bytes from `m` up to `t`. */
    method DrainOnce(payload: seq<bv8>, t: nat, ghost m: nat, ghost r1: nat, ghost t1: seq<Event>, ghost drains: seq<bv32>)
      returns (v: bv32, next: nat)
      requires m <= t < |payload| && t - m == Pushed(drains)
      requires ReadFrom(status, r1, drains) && polled == r1 + |drains|
      requires trace == t1 + DrainTrace(drains, payload[m..])
      requires mapping == Mapped
      modifies this`cs, this`fifo, this`polled, this`trace
      ensures v == status(old(polled)) && polled == old(polled) + 1
      ensures next == t + Count(TxAccepts(v)) && next - m == Pushed(drains + [v]) && Init(drains + [v]) == drains
      ensures ReadFrom(status, r1, drains + [v])
      ensures trace == t1 + DrainTrace(drains + [v], payload[m..])
      ensures cs == if RxNeedsReading(v) then ClearRxActive else old(cs)
    {
      ghost var before := trace;
      v := ReadCs();
      ghost var read := trace;
      next := t;
      if TxAccepts(v) {
        WriteFifoSigned(payload[t]);
        next := t + 1;
      }
      ghost var pushed := trace;
      if RxNeedsReading(v) {
        WriteCs(ClearRxActive);
      }
      ghost var rest := payload[m..];
      assert trace == before + DrainStep(v, payload[t]) by {
        Seqs.Chain3(before, [CsRead(v)], (if TxAccepts(v) then [FifoWrite(payload[t])] else []),
                    (if RxNeedsReading(v) then [CsWrite(ClearRxActive)] else []), read, pushed, trace);
      }
      assert DrainTrace(drains + [v], rest) == DrainTrace(drains, rest) + DrainStep(v, payload[t])
          && Init(drains + [v]) == drains && Pushed(drains + [v]) == Pushed(drains) + Count(TxAccepts(v)) by {
        DrainSnoc(drains, v, rest);
        assert rest[Pushed(drains)] == payload[t];
      }
      ReadFromSnoc(status, r1, drains, v);
      Seqs.Extend(trace, before, t1, DrainTrace(drains, rest), DrainStep(v, payload[t]), DrainTrace(drains + [v], rest));
    }

    /** Lines 125-140 of sendCmd: raise D/C, prefill up to 15 bytes, then drain. */
    method PushPayload(payload: seq<bv8>) returns (ghost drains: seq<bv32>)
      requires Valid() && payload != []
      requires mapping == Mapped
      modifies this`cs, this`fifo, this`polled, this`trace, this`ops, gpset
      ensures DrainWindow(drains, |payload| - PrefillCount(|payload|))
      ensures ReadFrom(status, old(polled), drains) && polled == old(polled) + |drains|
      ensures trace == old(trace) + DataPhase(payload, drains)
      ensures gpset[0] == DcMask && gpset[1] == old(gpset[1])
      ensures cs == old(cs) || cs == ClearRxActive
      ensures ops == old(ops) + [PinHigh(Config.DataControlPin)]
    {
      SetGpio(Config.DataControlPin);
      var m := PrefillCount(|payload|);
      Prefill(payload, m);
      drains := Drain(payload, m);
    }

    /** One iteration of the wait loop after busy read `v`: clear RX if RXR or RXF
        shows, then read the status again. The ghost arguments carry the reads
        `busy` since (t0, r0) that came before `v`. */
    method BusyOnce(v: bv32, ghost r0: nat, ghost t0: seq<Event>, ghost busy: seq<bv32>) returns (w: bv32)
      requires ReadFrom(status, r0, busy) && v == status(r0 + |busy|) && polled == r0 + |busy| + 1
      requires trace == t0 + BusyPolls(busy) + [CsRead(v)]
      requires mapping == Mapped
      modifies this`cs, this`polled, this`trace
      ensures ReadFrom(status, r0, busy + [v]) && w == status(r0 + |busy| + 1) && polled == r0 + |busy| + 2
      ensures trace == t0 + BusyPolls(busy + [v]) + [CsRead(w)]
      ensures cs == if RxNeedsReading(v) then ClearRxActive else old(cs)
    {
      ghost var before := trace;
      if RxNeedsReading(v) {
        WriteCs(ClearRxActive);
      }
      w := ReadCs();
      ReadFromSnoc(status, r0, busy, v);
      BusyExtend(trace, before, t0, busy, v, w);
    }

    /** WaitForPolledSPITransferToFinish: poll until TA is 0 or DONE is 1, clearing
        RX when RXR/RXF shows, and once more if the final read shows RXD. */
    method WaitForPolledSPITransferToFinish() returns (ghost waits: seq<bv32>)
      requires Valid()
      requires mapping == Mapped
      modifies this`cs, this`polled, this`trace
      ensures WaitWindow(waits) && ReadFrom(status, old(polled), waits)
      ensures polled == old(polled) + |waits|
      ensures trace == old(trace) + WaitTrace(waits)
      ensures cs == old(cs) || cs == ClearRxActive
    {
      ghost var r0, t0 := polled, trace;
      ghost var j := NextIdle(status, r0);
      ghost var busy: seq<bv32> := [];
      var v := ReadCs();
      while StillBusy(v)
        invariant ReadFrom(status, r0, busy) && v == status(r0 + |busy|)
        invariant polled == r0 + |busy| + 1
        invariant forall i :: 0 <= i < |busy| ==> StillBusy(busy[i])
        invariant trace == t0 + BusyPolls(busy) + [CsRead(v)]
        invariant cs == old(cs) || cs == ClearRxActive
        invariant polled <= j + 1 && (StillBusy(v) ==> polled <= j)
        decreases j + 1 - polled
      {
        var w := BusyOnce(v, r0, t0, busy);
        busy, v := busy + [v], w;
      }
      waits := FinishWait(v, r0, t0, busy);
    }

    /** After the wait loop: clear RX once more if the final read `v` shows RXD. */
    method FinishWait(v: bv32, ghost r0: nat, ghost t0: seq<Event>, ghost busy: seq<bv32>) returns (ghost waits: seq<bv32>)
      requires ReadFrom(status, r0, busy) && v == status(r0 + |busy|) && polled == r0 + |busy| + 1
      requires trace == t0 + BusyPolls(busy) + [CsRead(v)]
      requires mapping == Mapped
      modifies this`cs, this`trace
      ensures waits == busy + [v] && ReadFrom(status, r0, waits) && polled == r0 + |waits|
      ensures trace == t0 + WaitTrace(waits)
      ensures cs == if RxHasData(v) then ClearRxActive else old(cs)
    {
      ghost var before := trace;
      if RxHasData(v) {
        WriteCs(ClearRxActive);
      }
      ReadFromSnoc(status, r0, busy, v);
      waits := busy + [v];
      assert Init(waits) == busy && Last(waits) == v;
      assert trace == t0 + BusyPolls(busy) + FinalStep(v);
    }

    /** The start of sendCmd: activate the transfer, pull D/C low, push the command. */
    method StartTransfer(cmd: bv8)
      requires Valid()
      requires mapping == Mapped
      modifies this`cs, this`fifo, this`trace, this`ops, gpclr
      ensures cs == TransferActive && fifo == cmd as bv32
      ensures gpclr[0] == DcMask && gpclr[1] == old(gpclr[1])
      ensures trace == old(trace) + Header(cmd)
      ensures ops == old(ops) + [PinLow(Config.DataControlPin)]
    {
      WriteCs(TransferActive);
      ClearGpio(Config.DataControlPin);
      WriteFifo(cmd);
    }

    /** The register traffic since (t0, r0) is one complete transfer of `cmd` and
        `payload`, driven by the status values the hardware answered. */
    ghost predicate Sent(t0: seq<Event>, r0: nat, cmd: bv8, payload: seq<bv8>)
      reads this`trace, this`polled
    {
      exists acks, drains, waits ::
        && Completed(payload, acks, drains, waits)
        && ReadFrom(status, r0, acks + drains + waits)
        && polled == r0 + |acks| + |drains| + |waits|
        && trace == t0 + TransferTrace(cmd, payload, acks, drains, waits)
    }

    /** sendCmd: one command byte with D/C low, then the payload with D/C high. */
    method SendCmd(cmd: bv8, payload: seq<bv8>)
      requires Valid() && |payload| < 0x1_0000_0000
      requires mapping == Mapped
      modifies this`cs, this`fifo, this`polled, this`trace, this`ops, gpset, gpclr
      ensures Sent(old(trace), old(polled), cmd, payload)
      ensures ops == old(ops) + [Transfer(cmd, payload)]
      ensures gpclr[0] == DcMask && gpclr[1] == old(gpclr[1])
      ensures gpset[0] == (if payload == [] then old(gpset[0]) else DcMask) && gpset[1] == old(gpset[1])
      ensures cs == TransferActive || cs == ClearRxActive
    {
      ghost var t0, r0, o0 := trace, polled, ops;
      StartTransfer(cmd);
      var acks := AwaitAcknowledge();
      assert ReadFrom(status, r0, acks) && polled == r0 + |acks|;
      assert trace == t0 + Header(cmd) + Polls(acks);
      ghost var t1, r1 := trace, polled;
      ghost var drains: seq<bv32> := [];
      if |payload| > 0 {
        drains := PushPayload(payload);
      }
      assert ReadFrom(status, r1, drains) && polled == r1 + |drains|;
      assert DrainWindow(drains, |payload| - PrefillCount(|payload|));
      assert cs == TransferActive || cs == ClearRxActive;
      ghost var t2, r2 := trace, polled;
      var waits := WaitForPolledSPITransferToFinish();
      assert ReadFrom(status, r2, waits) && polled == r2 + |waits|;
      ops := o0 + [Transfer(cmd, payload)];
      TransferAssembled(cmd, payload, acks, drains, waits, t0, t1, t2, trace);
      ReadFromJoin(status, r0, r1, r2, acks, drains, waits);
      assert polled == r0 + |acks| + |drains| + |waits|;
    }

    /** sendCmdOnly: a transfer with an empty payload. */
    method SendCmdOnly(cmd: bv8)
      requires Valid()
      requires mapping == Mapped
      modifies this`cs, this`fifo, this`polled, this`trace, this`ops, gpset, gpclr
      ensures Sent(old(trace), old(polled), cmd, [])
      ensures ops == old(ops) + [Transfer(cmd, [])]
      ensures gpclr[0] == DcMask && gpset[0] == old(gpset[0])
    {
      SendCmd(cmd, []);
    }

    /** sendCmdData: a transfer with a one-byte payload. */
    method SendCmdData(cmd: bv8, data: bv8)
      requires Valid()
      requires mapping == Mapped
      modifies this`cs, this`fifo, this`polled, this`trace, this`ops, gpset, gpclr
      ensures Sent(old(trace), old(polled), cmd, [data])
      ensures ops == old(ops) + [Transfer(cmd, [data])]
      ensures gpclr[0] == DcMask && gpset[0] == DcMask
    {
      SendCmd(cmd, [data]);
    }

    // Setting up and tearing down the peripherals.

    /** spi->cs = value, outside a transfer. */
    method WriteControl(value: bv32)
      requires mapping == Mapped
      modifies this`cs, this`ops
      ensures cs == value && ops == old(ops) + [ControlWrite(value)]
    {
      cs := value;
      ops := ops + [ControlWrite(value)];
    }

    /** spi->dlen = value. */
    method WriteDataLength(value: bv32)
      requires mapping == Mapped
      modifies this`dlen, this`ops
      ensures dlen == value && ops == old(ops) + [DataLengthWrite(value)]
    {
      dlen := value;
      ops := ops + [DataLengthWrite(value)];
    }

    /** InitSPI, given what open("/dev/mem") returned and whether mmap succeeded:
        -1 on either failure, with no register touched; otherwise D/C becomes an
        output, MOSI and CLK take ALT0, the controller is reset, the bus clock is
        set and the fast 8-clock mode is unlocked, and 0 is returned. */
    method InitSPI(openResult: int, mapOk: bool) returns (r: int)
      requires Valid()
      modifies this`memFd, this`mapping, this`cs, this`clk, this`dlen, this`ops, gpfsel
      ensures memFd == openResult
      ensures r == (if openResult >= 0 && mapOk then 0 else -1)
      ensures mapping == if openResult < 0 then old(mapping) else if mapOk then Mapped else MapFailed
      ensures r != 0 ==> ops == old(ops) && cs == old(cs) && clk == old(clk) && dlen == old(dlen)
      ensures r != 0 ==> gpfsel[..] == old(gpfsel[..])
      ensures r == 0 ==> cs == ResetControl && clk == Config.SpiBusClockDivisor && dlen == FastDataLength
      ensures r == 0 ==> GetGpioMode(Config.DataControlPin) == ModeOutput
      ensures r == 0 ==> GetGpioMode(Spi0Mosi) == ModeAlt0 && GetGpioMode(Spi0Clk) == ModeAlt0
      ensures r == 0 ==> forall q :: 0 <= q < 60 && q != Config.DataControlPin && q != Spi0Mosi && q != Spi0Clk ==>
                           GetGpioMode(q) == old(GetGpioMode(q))
      ensures r == 0 ==> ops == old(ops) + [PinMode(Config.DataControlPin, ModeOutput), PinMode(Spi0Mosi, ModeAlt0),
                                            PinMode(Spi0Clk, ModeAlt0), ControlWrite(ResetControl),
                                            ClockWrite(Config.SpiBusClockDivisor), DataLengthWrite(FastDataLength)]
    {
      memFd := openResult;
      if memFd < 0 {
        return -1;
      }
      mapping := if mapOk then Mapped else MapFailed;
      if !mapOk {
        return -1;
      }
      SetGpioMode(Config.DataControlPin, ModeOutput);
      SetGpioMode(Spi0Mosi, ModeAlt0);
      SetGpioMode(Spi0Clk, ModeAlt0);
      WriteControl(ResetControl);
      WriteClock(Config.SpiBusClockDivisor);
      WriteDataLength(FastDataLength);
      return 0;
    }

    /** DeinitSPI: reset the controller, return D/C and the five SPI0 pins (7..11)
        to inputs, unmap the window if it was ever set, close /dev/mem if open. */
    method DeinitSPI()
      requires Valid()
      requires mapping == Mapped
      modifies this`cs, this`ops, this`mapping, this`memFd, gpfsel
      ensures cs == ResetControl
      ensures forall q :: Config.DataControlPin <= q <= Spi0Clk ==> GetGpioMode(q) == ModeInput
      ensures forall q :: 0 <= q < 60 && !(Config.DataControlPin <= q <= Spi0Clk) ==> GetGpioMode(q) == old(GetGpioMode(q))
      ensures mapping == NoMapping
      ensures memFd == if old(memFd) >= 0 then -1 else old(memFd)
      ensures ops == old(ops) + DeinitOps(old(mapping), old(memFd))
    {
      ghost var o0 := ops;
      ReleasePins();
      ghost var o1 := ops;
      ReleaseMemory();
      Seqs.Chain3(o0, [ControlWrite(ResetControl), PinMode(Config.DataControlPin, ModeInput)] + ReleaseOps(), [],
                  MemoryOps(old(mapping), old(memFd)), o1, o1, ops);
    }

    /** What DeinitSPI does, given whether the window was ever set and the descriptor. */
    static function DeinitOps(mapping: Mapping, memFd: int): seq<Op> {
      [ControlWrite(ResetControl), PinMode(Config.DataControlPin, ModeInput)] + ReleaseOps() + MemoryOps(mapping, memFd)
    }

    /** The munmap when the window was set, then the close when the descriptor is open. */
    static function MemoryOps(mapping: Mapping, memFd: int): seq<Op> {
      (if mapping != NoMapping then [Unmap] else []) + (if memFd >= 0 then [Close(memFd)] else [])
    }

    /** Lines 191-199 of DeinitSPI: the controller reset, D/C and SPI0 back to inputs. */
    method ReleasePins()
      requires Valid()
      requires mapping == Mapped
      modifies this`cs, this`ops, gpfsel
      ensures cs == ResetControl
      ensures forall q :: Config.DataControlPin <= q <= Spi0Clk ==> GetGpioMode(q) == ModeInput
      ensures forall q :: 0 <= q < 60 && !(Config.DataControlPin <= q <= Spi0Clk) ==> GetGpioMode(q) == old(GetGpioMode(q))
      ensures ops == old(ops) + [ControlWrite(ResetControl), PinMode(Config.DataControlPin, ModeInput)] + ReleaseOps()
    {
      WriteControl(ResetControl);
      SetGpioMode(Config.DataControlPin, ModeInput);
      ReleaseSpi0Pins();
    }

    /** Lines 201-211 of DeinitSPI: unmap the window and close /dev/mem when held. */
    method ReleaseMemory()
      modifies this`ops, this`mapping, this`memFd
      ensures mapping == NoMapping
      ensures memFd == if old(memFd) >= 0 then -1 else old(memFd)
      ensures ops == old(ops) + MemoryOps(old(mapping), old(memFd))
    {
      if mapping != NoMapping {
        ops := ops + [Unmap];
        mapping := NoMapping;
      }
      if memFd >= 0 {
        ops := ops + [Close(memFd)];
        memFd := -1;
      }
    }

    /** The mode writes of DeinitSPI for the five SPI0 pins CE1, CE0, MISO, MOSI, CLK. */
    static function ReleaseOps(): seq<Op> {
      [PinMode(Spi0Ce1, ModeInput), PinMode(Spi0Ce0, ModeInput), PinMode(Spi0Miso, ModeInput),
       PinMode(Spi0Mosi, ModeInput), PinMode(Spi0Clk, ModeInput)]
    }

    /** Lines 195-199 of DeinitSPI: the SPI0 pins 7..11 back to inputs. */
    method ReleaseSpi0Pins()
      requires Valid()
      requires mapping == Mapped
      modifies gpfsel, this`ops
      ensures forall q :: Spi0Ce1 <= q <= Spi0Clk ==> GetGpioMode(q) == ModeInput
      ensures forall q :: 0 <= q < 60 && !(Spi0Ce1 <= q <= Spi0Clk) ==> GetGpioMode(q) == old(GetGpioMode(q))
      ensures ops == old(ops) + ReleaseOps()
    {
      SetGpioMode(Spi0Ce1, ModeInput);
      SetGpioMode(Spi0Ce0, ModeInput);
      SetGpioMode(Spi0Miso, ModeInput);
      SetGpioMode(Spi0Mosi, ModeInput);
      SetGpioMode(Spi0Clk, ModeInput);
    }
  }
}
