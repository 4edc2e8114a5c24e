/** The BCM2835 SPI0 control/status register bits used by the polled transfer
    engine of spi.h, and reference definitions of the register traffic that one
    `sendCmd` produces, as a function of the status values the hardware answers. */
module Bus {
  import opened Bits
  import Config
  import Seqs

  // Control and status register bits.
  const CsRxf: bv32 := 0x0010_0000
  const CsRxr: bv32 := 0x0008_0000
  const CsTxd: bv32 := 0x0004_0000
  const CsRxd: bv32 := 0x0002_0000
  const CsDone: bv32 := 0x0001_0000
  const CsTa: bv32 := 0x0000_0080
  const CsClear: bv32 := 0x0000_0030
  const CsClearRx: bv32 := 0x0000_0020
  const CsCpol: bv32 := 0x0000_0008
  const CsCpha: bv32 := 0x0000_0004

  /** Chip select 1, clock polarity and clock phase: the display's bus mode. */
  const DriveSettings: bv32 := 1 | CsCpol | CsCpha
  /** Written to start a transfer. */
  const TransferActive: bv32 := CsTa | DriveSettings
  /** Written to throw away received bytes while the transfer stays active. */
  const ClearRxActive: bv32 := CsClearRx | CsTa | DriveSettings
  /** Written by InitSPI and DeinitSPI: both FIFOs cleared, transfer inactive. */
  const ResetControl: bv32 := CsClear | DriveSettings

  /** Set/clear mask of the data/control line. */
  const DcMask: bv32 := PinMask(Config.DataControlPin)

  /** The FIFO is primed with at most this many payload bytes before polling starts. */
  const PrefillLimit: nat := 15

  lemma ControlWords()
    ensures DriveSettings == 0x0D && TransferActive == 0x8D
    ensures ClearRxActive == 0xAD && ResetControl == 0x3D
    ensures DcMask == 0x40
  {}

  // What a status read tells the driver.

  /** `cs & (RXD | DONE)`: the command byte has gone out. */
  predicate Acknowledged(v: bv32) { v & (CsRxd | CsDone) != 0 }
  /** `cs & TXD`: the TX FIFO accepts another byte. */
  predicate TxAccepts(v: bv32) { v & CsTxd != 0 }
  /** `cs & (RXR | RXF)`: the RX FIFO needs emptying. */
  predicate RxNeedsReading(v: bv32) { v & (CsRxr | CsRxf) != 0 }
  /** `cs & RXD`: the RX FIFO holds data. */
  predicate RxHasData(v: bv32) { v & CsRxd != 0 }
  /** The guard of the wait loop, `!((cs ^ TA) & (DONE | TA))`. */
  predicate StillBusy(v: bv32) { (v ^ CsTa) & (CsDone | CsTa) == 0 }

  /** The bit trick in the wait loop's guard means "TA is 1 and DONE is 0". */
  lemma StillBusyExactly(v: bv32)
    ensures StillBusy(v) <==> (v & CsTa != 0 && v & CsDone == 0)
  {}

  // The hardware oracle: status value number i is status(i).

  /** From read number `i` on, every condition a polling loop waits for occurs again. */
  ghost predicate AnswersFrom(status: nat -> bv32, i: nat) {
    && (exists j: nat :: i <= j && Acknowledged(status(j)))
    && (exists j: nat :: i <= j && TxAccepts(status(j)))
    && (exists j: nat :: i <= j && !StillBusy(status(j)))
  }

  /** A bus that never stalls: the polling loops of spi.h all terminate. */
  ghost predicate Responsive(status: nat -> bv32) {
    forall i: nat :: AnswersFrom(status, i)
  }

  /** The next read, from number `i` on, that shows RXD or DONE. */
  lemma NextAcknowledge(status: nat -> bv32, i: nat) returns (j: nat)
    requires Responsive(status)
    ensures i <= j && Acknowledged(status(j))
  {
    assert AnswersFrom(status, i);
    j :| i <= j && Acknowledged(status(j));
  }

  /** The next read, from number `i` on, that shows room in the TX FIFO. */
  lemma NextTxAccepts(status: nat -> bv32, i: nat) returns (j: nat)
    requires Responsive(status)
    ensures i <= j && TxAccepts(status(j))
  {
    assert AnswersFrom(status, i);
    j :| i <= j && TxAccepts(status(j));
  }

  /** The next read, from number `i` on, that shows the transfer finished. */
  lemma NextIdle(status: nat -> bv32, i: nat) returns (j: nat)
    requires Responsive(status)
    ensures i <= j && !StillBusy(status(j))
  {
    assert AnswersFrom(status, i);
    j :| i <= j && !StillBusy(status(j));
  }

  /** `vs` are the status values number `start`, `start + 1`, ... */
  ghost predicate ReadFrom(status: nat -> bv32, start: nat, vs: seq<bv32>) {
    forall i :: 0 <= i < |vs| ==> vs[i] == status(start + i)
  }

  lemma ReadFromAppend(status: nat -> bv32, start: nat, vs: seq<bv32>, ws: seq<bv32>)
    requires ReadFrom(status, start, vs) && ReadFrom(status, start + |vs|, ws)
    ensures ReadFrom(status, start, vs + ws)
  {
    forall i | 0 <= i < |vs + ws| ensures (vs + ws)[i] == status(start + i) {
      if i >= |vs| {
        assert (vs + ws)[i] == ws[i - |vs|];
      }
    }
  }

  // Register traffic.

  datatype Event =
    | CsRead(value: bv32)    // a read of the control/status register
    | CsWrite(value: bv32)   // a write of the control/status register
    | FifoWrite(byte: bv8)   // a byte pushed into the TX FIFO
    | PinSet(mask: bv32)     // a write of gpset[0]
    | PinClear(mask: bv32)   // a write of gpclr[0]

  function Init<T>(s: seq<T>): seq<T>
    requires s != []
  {
    s[..|s| - 1]
  }

  function Last<T>(s: seq<T>): T
    requires s != []
  {
    s[|s| - 1]
  }

  /** Number of payload bytes pushed before the TX FIFO is polled: min(n, 15). */
  function PrefillCount(n: nat): (m: nat)
    ensures m <= n && m <= PrefillLimit
    ensures m == n || m == PrefillLimit
  {
    if n > PrefillLimit then PrefillLimit else n
  }

  /** Start of a transfer: activate, pull D/C low (command), push the command byte. */
  function Header(cmd: bv8): seq<Event> {
    [CsWrite(TransferActive), PinClear(DcMask), FifoWrite(cmd)]
  }

  /** One status read per value: the acknowledge loop. */
  function Polls(vs: seq<bv32>): (r: seq<Event>)
    decreases |vs|
  {
    if vs == [] then [] else Polls(Init(vs)) + [CsRead(Last(vs))]
  }

  /** One FIFO write per byte, with no status read between them: the prefill loop. */
  function Pushes(bs: seq<bv8>): seq<Event>
    decreases |bs|
  {
    if bs == [] then [] else Pushes(Init(bs)) + [FifoWrite(Last(bs))]
  }

  function Count(b: bool): nat { if b then 1 else 0 }

  /** Number of status reads among `vs` that let the drain loop push a byte. */
  function Pushed(vs: seq<bv32>): (k: nat)
    ensures k <= |vs|
    decreases |vs|
  {
    if vs == [] then 0 else Pushed(Init(vs)) + Count(TxAccepts(Last(vs)))
  }

  /** Number of status reads among `vs` that report RXR or RXF. */
  function RxAlarms(vs: seq<bv32>): (k: nat)
    ensures k <= |vs|
    decreases |vs|
  {
    if vs == [] then 0 else RxAlarms(Init(vs)) + Count(RxNeedsReading(Last(vs)))
  }

  /** One iteration of the drain loop after status read `v`: push `next` if TXD
      is set, then clear RX if RXR or RXF is set. */
  function DrainStep(v: bv32, next: bv8): seq<Event> {
    [CsRead(v)]
    + (if TxAccepts(v) then [FifoWrite(next)] else [])
    + (if RxNeedsReading(v) then [CsWrite(ClearRxActive)] else [])
  }

  /** The drain loop over the bytes `bs` left after the prefill, one iteration per
      status value in `vs`. */
  function DrainTrace(vs: seq<bv32>, bs: seq<bv8>): seq<Event>
    requires Pushed(vs) <= |bs|
    decreases |vs|
  {
    if vs == [] then []
    else
      var k := Pushed(Init(vs));
      DrainTrace(Init(vs), bs) + DrainStep(Last(vs), if k < |bs| then bs[k] else 0)
  }

  /** One iteration of the wait loop that still saw a busy bus. */
  function BusyStep(v: bv32): seq<Event> {
    [CsRead(v)] + (if RxNeedsReading(v) then [CsWrite(ClearRxActive)] else [])
  }

  /** Iterations of the wait loop whose status read still showed a busy bus. */
  function BusyPolls(vs: seq<bv32>): seq<Event>
    decreases |vs|
  {
    if vs == [] then [] else BusyPolls(Init(vs)) + BusyStep(Last(vs))
  }

  /** The final read of the wait loop, and a last RX clear if it shows RXD. */
  function FinalStep(v: bv32): seq<Event> {
    [CsRead(v)] + (if RxHasData(v) then [CsWrite(ClearRxActive)] else [])
  }

  /** WaitForPolledSPITransferToFinish, with status values `vs`. */
  function WaitTrace(vs: seq<bv32>): seq<Event> {
    if vs == [] then [] else BusyPolls(Init(vs)) + FinalStep(Last(vs))
  }

  // One more loop iteration, for the loops that build these traces.

  lemma ReadFromJoin(status: nat -> bv32, r0: nat, r1: nat, r2: nat, a: seq<bv32>, b: seq<bv32>, c: seq<bv32>)
    requires ReadFrom(status, r0, a) && r1 == r0 + |a|
    requires ReadFrom(status, r1, b) && r2 == r1 + |b|
    requires ReadFrom(status, r2, c)
    ensures ReadFrom(status, r0, a + b + c)
  {
    ReadFromAppend(status, r0, a, b);
    ReadFromAppend(status, r0, a + b, c);
  }

  /** The four phases of sendCmd, appended one after the other, are one transfer. */
  lemma TransferAssembled(cmd: bv8, payload: seq<bv8>, acks: seq<bv32>, drains: seq<bv32>, waits: seq<bv32>,
                          t0: seq<Event>, t1: seq<Event>, t2: seq<Event>, t3: seq<Event>)
    requires AckWindow(acks) && WaitWindow(waits)
    requires DrainWindow(drains, |payload| - PrefillCount(|payload|))
    requires t1 == t0 + Header(cmd) + Polls(acks)
    requires t2 == t1 + (if payload == [] then [] else DataPhase(payload, drains))
    requires t3 == t2 + WaitTrace(waits)
    ensures Completed(payload, acks, drains, waits)
    ensures t3 == t0 + TransferTrace(cmd, payload, acks, drains, waits)
  {
    Seqs.Chain(t0, Header(cmd), Polls(acks), if payload == [] then [] else DataPhase(payload, drains), WaitTrace(waits), t1, t2, t3);
  }

  lemma ReadFromSnoc(status: nat -> bv32, start: nat, vs: seq<bv32>, v: bv32)
    requires ReadFrom(status, start, vs) && v == status(start + |vs|)
    ensures ReadFrom(status, start, vs + [v])
  {
    forall i | 0 <= i < |vs| + 1 ensures (vs + [v])[i] == status(start + i) {}
  }

  lemma PollsSnoc(vs: seq<bv32>, v: bv32)
    ensures Polls(vs + [v]) == Polls(vs) + [CsRead(v)]
  {
    assert Init(vs + [v]) == vs;
  }

  lemma PushesPrefix(bs: seq<bv8>, t: nat)
    requires t < |bs|
    ensures Pushes(bs[..t + 1]) == Pushes(bs[..t]) + [FifoWrite(bs[t])]
  {
    assert Init(bs[..t + 1]) == bs[..t];
  }

  lemma DrainSnoc(vs: seq<bv32>, v: bv32, bs: seq<bv8>)
    requires Pushed(vs) < |bs|
    ensures Init(vs + [v]) == vs && Last(vs + [v]) == v
    ensures Pushed(vs + [v]) == Pushed(vs) + Count(TxAccepts(v))
    ensures DrainTrace(vs + [v], bs) == DrainTrace(vs, bs) + DrainStep(v, bs[Pushed(vs)])
  {
    assert Init(vs + [v]) == vs;
  }

  lemma BusyPollsSnoc(vs: seq<bv32>, v: bv32)
    ensures BusyPolls(vs + [v]) == BusyPolls(vs) + BusyStep(v)
  {
    assert Init(vs + [v]) == vs;
  }

  /** A busy read `v`, its RX clear if any, then the next read `w`. */
  lemma BusyExtend(tr: seq<Event>, before: seq<Event>, base: seq<Event>, busy: seq<bv32>, v: bv32, w: bv32)
    requires before == base + BusyPolls(busy) + [CsRead(v)]
    requires tr == before + (if RxNeedsReading(v) then [CsWrite(ClearRxActive)] else []) + [CsRead(w)]
    ensures tr == base + BusyPolls(busy + [v]) + [CsRead(w)]
  {
    var clear := if RxNeedsReading(v) then [CsWrite(ClearRxActive)] else [];
    BusyPollsSnoc(busy, v);
    assert BusyStep(v) == [CsRead(v)] + clear;
    Seqs.Nest(base, BusyPolls(busy), [CsRead(v)], clear, [CsRead(w)]);
  }

  /** The acknowledge loop stopped at the first acknowledging read. */
  predicate AckWindow(vs: seq<bv32>) {
    && vs != []
    && Acknowledged(Last(vs))
    && forall i :: 0 <= i < |vs| - 1 ==> !Acknowledged(vs[i])
  }

  /** The drain loop pushed exactly `n` bytes and stopped right after the last one. */
  predicate DrainWindow(vs: seq<bv32>, n: nat) {
    && Pushed(vs) == n
    && (vs != [] ==> Pushed(Init(vs)) < n)
  }

  /** The wait loop stopped at the first read that was not busy. */
  predicate WaitWindow(vs: seq<bv32>) {
    && vs != []
    && !StillBusy(Last(vs))
    && forall i :: 0 <= i < |vs| - 1 ==> StillBusy(vs[i])
  }

  /** The three polling loops of one transfer ran to completion. */
  predicate Completed(payload: seq<bv8>, acks: seq<bv32>, drains: seq<bv32>, waits: seq<bv32>) {
    AckWindow(acks) && DrainWindow(drains, |payload| - PrefillCount(|payload|)) && WaitWindow(waits)
  }

  // Projections of a trace.

  /** The bytes pushed into the TX FIFO, in order. */
  function FifoBytes(tr: seq<Event>): seq<bv8>
    decreases |tr|
  {
    if tr == [] then []
    else (if tr[0].FifoWrite? then [tr[0].byte] else []) + FifoBytes(tr[1..])
  }

  /** The writes to the pin set/clear registers, in order. */
  function PinEdges(tr: seq<Event>): seq<Event>
    decreases |tr|
  {
    if tr == [] then []
    else (if tr[0].PinSet? || tr[0].PinClear? then [tr[0]] else []) + PinEdges(tr[1..])
  }

  /** The values written to the control/status register, in order. */
  function ControlWrites(tr: seq<Event>): seq<bv32>
    decreases |tr|
  {
    if tr == [] then []
    else (if tr[0].CsWrite? then [tr[0].value] else []) + ControlWrites(tr[1..])
  }

  function Repeat(v: bv32, n: nat): (r: seq<bv32>)
    ensures |r| == n && forall i :: 0 <= i < n ==> r[i] == v
  {
    if n == 0 then [] else Repeat(v, n - 1) + [v]
  }

  lemma RepeatAppend(v: bv32, n: nat, k: nat)
    ensures Repeat(v, n) + Repeat(v, k) == Repeat(v, n + k)
  {
    assert |Repeat(v, n) + Repeat(v, k)| == n + k;
  }

  lemma {:induction false} BytesAppend(a: seq<Event>, b: seq<Event>)
    ensures FifoBytes(a + b) == FifoBytes(a) + FifoBytes(b)
    decreases |a|
  {
    if a == [] {
      assert a + b == b;
    } else {
      assert (a + b)[0] == a[0];
      assert (a + b)[1..] == a[1..] + b;
      BytesAppend(a[1..], b);
      calc {
        FifoBytes(a + b);
        (if a[0].FifoWrite? then [a[0].byte] else []) + FifoBytes(a[1..] + b);
        (if a[0].FifoWrite? then [a[0].byte] else []) + (FifoBytes(a[1..]) + FifoBytes(b));
        ((if a[0].FifoWrite? then [a[0].byte] else []) + FifoBytes(a[1..])) + FifoBytes(b);
      }
    }
  }

  lemma {:induction false} EdgesAppend(a: seq<Event>, b: seq<Event>)
    ensures PinEdges(a + b) == PinEdges(a) + PinEdges(b)
    decreases |a|
  {
    if a == [] {
      assert a + b == b;
    } else {
      assert (a + b)[0] == a[0];
      assert (a + b)[1..] == a[1..] + b;
      EdgesAppend(a[1..], b);
      calc {
        PinEdges(a + b);
        (if a[0].PinSet? || a[0].PinClear? then [a[0]] else []) + PinEdges(a[1..] + b);
        (if a[0].PinSet? || a[0].PinClear? then [a[0]] else []) + (PinEdges(a[1..]) + PinEdges(b));
        ((if a[0].PinSet? || a[0].PinClear? then [a[0]] else []) + PinEdges(a[1..])) + PinEdges(b);
      }
    }
  }

  lemma {:induction false} WritesAppend(a: seq<Event>, b: seq<Event>)
    ensures ControlWrites(a + b) == ControlWrites(a) + ControlWrites(b)
    decreases |a|
  {
    if a == [] {
      assert a + b == b;
    } else {
      assert (a + b)[0] == a[0];
      assert (a + b)[1..] == a[1..] + b;
      WritesAppend(a[1..], b);
      calc {
        ControlWrites(a + b);
        (if a[0].CsWrite? then [a[0].value] else []) + ControlWrites(a[1..] + b);
        (if a[0].CsWrite? then [a[0].value] else []) + (ControlWrites(a[1..]) + ControlWrites(b));
        ((if a[0].CsWrite? then [a[0].value] else []) + ControlWrites(a[1..])) + ControlWrites(b);
      }
    }
  }

  /** All three projections distribute over concatenation. */
  lemma ProjectionsAppend(a: seq<Event>, b: seq<Event>)
    ensures FifoBytes(a + b) == FifoBytes(a) + FifoBytes(b)
    ensures PinEdges(a + b) == PinEdges(a) + PinEdges(b)
    ensures ControlWrites(a + b) == ControlWrites(a) + ControlWrites(b)
  {
    BytesAppend(a, b);
    EdgesAppend(a, b);
    WritesAppend(a, b);
  }

  /** Projections of a trace of at most one event that is a status read. */
  lemma ReadIsQuiet(v: bv32)
    ensures FifoBytes([CsRead(v)]) == [] && PinEdges([CsRead(v)]) == [] && ControlWrites([CsRead(v)]) == []
  {
    assert [CsRead(v)][1..] == [];
  }

  lemma ClearIsWrite(b: bool)
    ensures var c: seq<Event> := if b then [CsWrite(ClearRxActive)] else [];
            FifoBytes(c) == [] && PinEdges(c) == [] && ControlWrites(c) == Repeat(ClearRxActive, Count(b))
  {
    if b {
      assert [CsWrite(ClearRxActive)][1..] == [];
    }
  }

  lemma PushIsByte(b: bool, x: bv8)
    ensures var c: seq<Event> := if b then [FifoWrite(x)] else [];
            FifoBytes(c) == (if b then [x] else []) && PinEdges(c) == [] && ControlWrites(c) == []
  {
    if b {
      assert [FifoWrite(x)][1..] == [];
    }
  }

  /** One drain iteration pushes at most its byte, drives no pin, and clears RX
      once exactly when its read reported RXR or RXF. */
  lemma DrainStepEffects(v: bv32, next: bv8)
    ensures FifoBytes(DrainStep(v, next)) == (if TxAccepts(v) then [next] else [])
    ensures PinEdges(DrainStep(v, next)) == []
    ensures ControlWrites(DrainStep(v, next)) == Repeat(ClearRxActive, Count(RxNeedsReading(v)))
  {
    var push: seq<Event> := if TxAccepts(v) then [FifoWrite(next)] else [];
    var clear: seq<Event> := if RxNeedsReading(v) then [CsWrite(ClearRxActive)] else [];
    assert DrainStep(v, next) == [CsRead(v)] + push + clear;
    ReadIsQuiet(v);
    PushIsByte(TxAccepts(v), next);
    ClearIsWrite(RxNeedsReading(v));
    assert FifoBytes([CsRead(v)] + push + clear) == (if TxAccepts(v) then [next] else []) by {
      BytesAppend([CsRead(v)], push);
      BytesAppend([CsRead(v)] + push, clear);
    }
    assert PinEdges([CsRead(v)] + push + clear) == [] by {
      EdgesAppend([CsRead(v)], push);
      EdgesAppend([CsRead(v)] + push, clear);
    }
    assert ControlWrites([CsRead(v)] + push + clear) == Repeat(ClearRxActive, Count(RxNeedsReading(v))) by {
      WritesAppend([CsRead(v)], push);
      WritesAppend([CsRead(v)] + push, clear);
    }
  }

  lemma BusyStepEffects(v: bv32)
    ensures FifoBytes(BusyStep(v)) == [] && PinEdges(BusyStep(v)) == []
    ensures ControlWrites(BusyStep(v)) == Repeat(ClearRxActive, Count(RxNeedsReading(v)))
  {
    ReadIsQuiet(v);
    ClearIsWrite(RxNeedsReading(v));
    ProjectionsAppend([CsRead(v)], if RxNeedsReading(v) then [CsWrite(ClearRxActive)] else []);
  }

  lemma FinalStepEffects(v: bv32)
    ensures FifoBytes(FinalStep(v)) == [] && PinEdges(FinalStep(v)) == []
    ensures ControlWrites(FinalStep(v)) == Repeat(ClearRxActive, Count(RxHasData(v)))
  {
    ReadIsQuiet(v);
    ClearIsWrite(RxHasData(v));
    ProjectionsAppend([CsRead(v)], if RxHasData(v) then [CsWrite(ClearRxActive)] else []);
  }

  /** An acknowledge loop only reads. */
  lemma {:induction false} PollsOnlyRead(vs: seq<bv32>)
    ensures FifoBytes(Polls(vs)) == [] && PinEdges(Polls(vs)) == [] && ControlWrites(Polls(vs)) == []
    ensures |Polls(vs)| == |vs|
    decreases |vs|
  {
    if vs != [] {
      PollsOnlyRead(Init(vs));
      ReadIsQuiet(Last(vs));
      ProjectionsAppend(Polls(Init(vs)), [CsRead(Last(vs))]);
    }
  }

  /** The prefill pushes exactly its bytes, one event per byte, and nothing else. */
  lemma {:induction false} PushesExactly(bs: seq<bv8>)
    ensures FifoBytes(Pushes(bs)) == bs && PinEdges(Pushes(bs)) == [] && ControlWrites(Pushes(bs)) == []
    ensures |Pushes(bs)| == |bs| && forall i :: 0 <= i < |bs| ==> Pushes(bs)[i] == FifoWrite(bs[i])
    decreases |bs|
  {
    if bs != [] {
      var init, last := Init(bs), Last(bs);
      PushesExactly(init);
      assert bs == init + [last];
      assert Pushes(bs) == Pushes(init) + [FifoWrite(last)];
      assert FifoBytes(Pushes(bs)) == bs && PinEdges(Pushes(bs)) == [] && ControlWrites(Pushes(bs)) == [] by {
        PushIsByte(true, last);
        ProjectionsAppend(Pushes(init), [FifoWrite(last)]);
      }
      forall i | 0 <= i < |bs| ensures Pushes(bs)[i] == FifoWrite(bs[i]) {
        if i < |init| {
          assert Pushes(bs)[i] == Pushes(init)[i] && bs[i] == init[i];
        }
      }
    }
  }

  /** The drain pushes the first Pushed(vs) of its bytes, in order, and never
      reads past the end of them. */
  lemma {:induction false} DrainBytes(vs: seq<bv32>, bs: seq<bv8>)
    requires Pushed(vs) <= |bs|
    ensures FifoBytes(DrainTrace(vs, bs)) == bs[..Pushed(vs)]
    decreases |vs|
  {
    if vs != [] {
      var v, k := Last(vs), Pushed(Init(vs));
      var next := if k < |bs| then bs[k] else 0;
      DrainBytes(Init(vs), bs);
      assert DrainTrace(vs, bs) == DrainTrace(Init(vs), bs) + DrainStep(v, next);
      assert FifoBytes(DrainTrace(vs, bs)) == bs[..k] + (if TxAccepts(v) then [next] else []) by {
        DrainStepEffects(v, next);
        BytesAppend(DrainTrace(Init(vs), bs), DrainStep(v, next));
      }
      assert bs[..Pushed(vs)] == bs[..k] + (if TxAccepts(v) then [bs[k]] else []);
    }
  }

  /** The drain never drives a pin. */
  lemma {:induction false} DrainEdges(vs: seq<bv32>, bs: seq<bv8>)
    requires Pushed(vs) <= |bs|
    ensures PinEdges(DrainTrace(vs, bs)) == []
    decreases |vs|
  {
    if vs != [] {
      var k := Pushed(Init(vs));
      var next := if k < |bs| then bs[k] else 0;
      DrainEdges(Init(vs), bs);
      DrainStepEffects(Last(vs), next);
      EdgesAppend(DrainTrace(Init(vs), bs), DrainStep(Last(vs), next));
    }
  }

  /** The drain rewrites the control register with CLEAR_RX|TA|settings once per
      status read that reported RXR or RXF, and writes it at no other time. */
  lemma {:induction false} DrainClears(vs: seq<bv32>, bs: seq<bv8>)
    requires Pushed(vs) <= |bs|
    ensures ControlWrites(DrainTrace(vs, bs)) == Repeat(ClearRxActive, RxAlarms(vs))
    decreases |vs|
  {
    if vs != [] {
      var k := Pushed(Init(vs));
      var next := if k < |bs| then bs[k] else 0;
      DrainClears(Init(vs), bs);
      DrainStepEffects(Last(vs), next);
      WritesAppend(DrainTrace(Init(vs), bs), DrainStep(Last(vs), next));
      RepeatAppend(ClearRxActive, RxAlarms(Init(vs)), Count(RxNeedsReading(Last(vs))));
    }
  }

  /** In the drain, every byte is pushed right after a status read that showed TXD:
      at most one byte per read, and only when the FIFO accepts it. */
  lemma {:induction false} DrainPaced(vs: seq<bv32>, bs: seq<bv8>)
    requires Pushed(vs) <= |bs|
    ensures forall i :: 0 <= i < |DrainTrace(vs, bs)| && DrainTrace(vs, bs)[i].FifoWrite? ==>
              0 < i && DrainTrace(vs, bs)[i - 1].CsRead? && TxAccepts(DrainTrace(vs, bs)[i - 1].value)
    decreases |vs|
  {
    if vs != [] {
      DrainPaced(Init(vs), bs);
      var v, k := Last(vs), Pushed(Init(vs));
      var next := if k < |bs| then bs[k] else 0;
      var pre := DrainTrace(Init(vs), bs);
      var tr := DrainTrace(vs, bs);
      assert tr == pre + DrainStep(v, next);
      forall i | 0 <= i < |tr| && tr[i].FifoWrite?
        ensures 0 < i && tr[i - 1].CsRead? && TxAccepts(tr[i - 1].value)
      {
        if i < |pre| {
          assert tr[i] == pre[i] && tr[i - 1] == pre[i - 1];
        } else {
          assert tr[i] == DrainStep(v, next)[i - |pre|];
          assert i == |pre| + 1 && TxAccepts(v) && tr[i - 1] == CsRead(v);
        }
      }
    }
  }

  /** The busy iterations of the wait loop push nothing and drive no pin. */
  lemma {:induction false} BusyPollsQuiet(vs: seq<bv32>)
    ensures FifoBytes(BusyPolls(vs)) == [] && PinEdges(BusyPolls(vs)) == []
    decreases |vs|
  {
    if vs != [] {
      BusyPollsQuiet(Init(vs));
      BusyStepEffects(Last(vs));
      BytesAppend(BusyPolls(Init(vs)), BusyStep(Last(vs)));
      EdgesAppend(BusyPolls(Init(vs)), BusyStep(Last(vs)));
    }
  }

  /** ... and clear RX once per busy read that reported RXR or RXF. */
  lemma {:induction false} BusyPollsClears(vs: seq<bv32>)
    ensures ControlWrites(BusyPolls(vs)) == Repeat(ClearRxActive, RxAlarms(vs))
    decreases |vs|
  {
    if vs != [] {
      BusyPollsClears(Init(vs));
      BusyStepEffects(Last(vs));
      WritesAppend(BusyPolls(Init(vs)), BusyStep(Last(vs)));
      RepeatAppend(ClearRxActive, RxAlarms(Init(vs)), Count(RxNeedsReading(Last(vs))));
    }
  }

  /** RX clears of the wait loop: one per busy read that reported RXR or RXF,
      and one more if the final read shows RXD. */
  function WaitClears(vs: seq<bv32>): nat
    requires vs != []
  {
    RxAlarms(Init(vs)) + Count(RxHasData(Last(vs)))
  }

  /** The wait pushes nothing, drives no pin, and clears RX once per busy read that
      reported RXR/RXF plus once more if its final read shows RXD. */
  lemma WaitEffects(vs: seq<bv32>)
    requires vs != []
    ensures FifoBytes(WaitTrace(vs)) == [] && PinEdges(WaitTrace(vs)) == []
    ensures ControlWrites(WaitTrace(vs)) == Repeat(ClearRxActive, WaitClears(vs))
  {
    BusyPollsQuiet(Init(vs));
    BusyPollsClears(Init(vs));
    FinalStepEffects(Last(vs));
    ProjectionsAppend(BusyPolls(Init(vs)), FinalStep(Last(vs)));
    RepeatAppend(ClearRxActive, RxAlarms(Init(vs)), Count(RxHasData(Last(vs))));
  }

  /** Projections of a one-event trace. */
  lemma ProjectOne(e: Event)
    ensures FifoBytes([e]) == (if e.FifoWrite? then [e.byte] else [])
    ensures PinEdges([e]) == (if e.PinSet? || e.PinClear? then [e] else [])
    ensures ControlWrites([e]) == (if e.CsWrite? then [e.value] else [])
  {
    assert [e][1..] == [];
  }

  lemma HeaderEffects(cmd: bv8)
    ensures FifoBytes(Header(cmd)) == [cmd]
    ensures PinEdges(Header(cmd)) == [PinClear(DcMask)]
    ensures ControlWrites(Header(cmd)) == [TransferActive]
  {
    var e0, e1, e2 := CsWrite(TransferActive), PinClear(DcMask), FifoWrite(cmd);
    assert Header(cmd) == [e0] + [e1] + [e2];
    ProjectOne(e0);
    ProjectOne(e1);
    ProjectOne(e2);
    ProjectionsAppend([e0], [e1]);
    ProjectionsAppend([e0] + [e1], [e2]);
  }

  /** The payload part of a transfer: raise D/C, prefill, drain. */
  function DataPhase(payload: seq<bv8>, drains: seq<bv32>): seq<Event>
    requires Pushed(drains) <= |payload| - PrefillCount(|payload|)
  {
    var m := PrefillCount(|payload|);
    [PinSet(DcMask)] + Pushes(payload[..m]) + DrainTrace(drains, payload[m..])
  }

  lemma DataPhaseBytes(payload: seq<bv8>, drains: seq<bv32>)
    requires DrainWindow(drains, |payload| - PrefillCount(|payload|))
    ensures FifoBytes(DataPhase(payload, drains)) == payload
  {
    var m := PrefillCount(|payload|);
    var rise: seq<Event> := [PinSet(DcMask)];
    var pre := Pushes(payload[..m]);
    var drain := DrainTrace(drains, payload[m..]);
    assert DataPhase(payload, drains) == rise + pre + drain;
    assert FifoBytes(rise) == [] by { assert rise[1..] == []; }
    assert FifoBytes(pre) == payload[..m] by { PushesExactly(payload[..m]); }
    assert FifoBytes(drain) == payload[m..] by {
      DrainBytes(drains, payload[m..]);
      assert payload[m..][..Pushed(drains)] == payload[m..];
    }
    BytesOfThree(rise, pre, drain, payload[..m], payload[m..]);
    assert payload[..m] + payload[m..] == payload;
  }

  lemma BytesOfThree(a: seq<Event>, b: seq<Event>, c: seq<Event>, x: seq<bv8>, y: seq<bv8>)
    requires FifoBytes(a) == [] && FifoBytes(b) == x && FifoBytes(c) == y
    ensures FifoBytes(a + b + c) == x + y
  {
    BytesAppend(a, b);
    BytesAppend(a + b, c);
  }

  lemma DataPhaseEdges(payload: seq<bv8>, drains: seq<bv32>)
    requires DrainWindow(drains, |payload| - PrefillCount(|payload|))
    ensures PinEdges(DataPhase(payload, drains)) == [PinSet(DcMask)]
  {
    var m := PrefillCount(|payload|);
    assert PinEdges([PinSet(DcMask)]) == [PinSet(DcMask)] by { assert [PinSet(DcMask)][1..] == []; }
    PushesExactly(payload[..m]);
    DrainEdges(drains, payload[m..]);
    EdgesAppend([PinSet(DcMask)], Pushes(payload[..m]));
    EdgesAppend([PinSet(DcMask)] + Pushes(payload[..m]), DrainTrace(drains, payload[m..]));
  }

  lemma DataPhaseClears(payload: seq<bv8>, drains: seq<bv32>)
    requires DrainWindow(drains, |payload| - PrefillCount(|payload|))
    ensures ControlWrites(DataPhase(payload, drains)) == Repeat(ClearRxActive, RxAlarms(drains))
  {
    var m := PrefillCount(|payload|);
    assert ControlWrites([PinSet(DcMask)]) == [] by { assert [PinSet(DcMask)][1..] == []; }
    PushesExactly(payload[..m]);
    DrainClears(drains, payload[m..]);
    WritesAppend([PinSet(DcMask)], Pushes(payload[..m]));
    WritesAppend([PinSet(DcMask)] + Pushes(payload[..m]), DrainTrace(drains, payload[m..]));
  }

  /** The whole register traffic of `sendCmd(cmd, payload, |payload|)` when the three
      polling loops read `acks`, `drains` and `waits`. */
  function TransferTrace(cmd: bv8, payload: seq<bv8>, acks: seq<bv32>, drains: seq<bv32>, waits: seq<bv32>): seq<Event>
    requires Pushed(drains) <= |payload| - PrefillCount(|payload|)
  {
    Header(cmd) + Polls(acks) + (if payload == [] then [] else DataPhase(payload, drains)) + WaitTrace(waits)
  }

  /** The FIFO receives exactly `[cmd] + payload`, each byte once and in order. */
  lemma TransferBytes(cmd: bv8, payload: seq<bv8>, acks: seq<bv32>, drains: seq<bv32>, waits: seq<bv32>)
    requires Completed(payload, acks, drains, waits)
    ensures FifoBytes(TransferTrace(cmd, payload, acks, drains, waits)) == [cmd] + payload
  {
    var data := if payload == [] then [] else DataPhase(payload, drains);
    HeaderEffects(cmd);
    PollsOnlyRead(acks);
    WaitEffects(waits);
    if payload != [] { DataPhaseBytes(payload, drains); }
    var hp := Header(cmd) + Polls(acks);
    BytesAppend(Header(cmd), Polls(acks));
    assert FifoBytes(hp) == [cmd];
    BytesAppend(hp, data);
    assert FifoBytes(hp + data) == [cmd] + payload;
    BytesAppend(hp + data, WaitTrace(waits));
    assert FifoBytes(hp + data + WaitTrace(waits)) == [cmd] + payload;
    assert TransferTrace(cmd, payload, acks, drains, waits) == hp + data + WaitTrace(waits);
  }

  /** D/C is pulled low once and raised once, and raised only for a non-empty payload. */
  lemma TransferEdges(cmd: bv8, payload: seq<bv8>, acks: seq<bv32>, drains: seq<bv32>, waits: seq<bv32>)
    requires Completed(payload, acks, drains, waits)
    ensures PinEdges(TransferTrace(cmd, payload, acks, drains, waits))
         == [PinClear(DcMask)] + (if payload == [] then [] else [PinSet(DcMask)])
  {
    var hp := Header(cmd) + Polls(acks);
    var data := if payload == [] then [] else DataPhase(payload, drains);
    assert PinEdges(hp) == [PinClear(DcMask)] by {
      HeaderEffects(cmd);
      PollsOnlyRead(acks);
      EdgesAppend(Header(cmd), Polls(acks));
    }
    assert PinEdges(data) == (if payload == [] then [] else [PinSet(DcMask)]) by {
      if payload != [] { DataPhaseEdges(payload, drains); }
    }
    assert PinEdges(WaitTrace(waits)) == [] by {
      WaitEffects(waits);
    }
    EdgesAppend(hp, data);
    EdgesAppend(hp + data, WaitTrace(waits));
  }

  /** Number of RX clears a completed transfer performs. */
  function RxClears(payload: seq<bv8>, drains: seq<bv32>, waits: seq<bv32>): nat
    requires waits != []
  {
    (if payload == [] then 0 else RxAlarms(drains)) + WaitClears(waits)
  }

  /** The control register is written TA|settings once, to start, and afterwards
      only with CLEAR_RX|TA|settings: once for each RX alarm a polling loop saw. */
  lemma TransferClears(cmd: bv8, payload: seq<bv8>, acks: seq<bv32>, drains: seq<bv32>, waits: seq<bv32>)
    requires Completed(payload, acks, drains, waits)
    ensures ControlWrites(TransferTrace(cmd, payload, acks, drains, waits))
         == [TransferActive] + Repeat(ClearRxActive, RxClears(payload, drains, waits))
  {
    var tr := TransferTrace(cmd, payload, acks, drains, waits);
    var hp := Header(cmd) + Polls(acks);
    var wt := WaitTrace(waits);
    HeadWrites(cmd, acks);
    WaitEffects(waits);
    if payload == [] {
      assert tr == hp + [] + wt;
      ClearsOfParts(tr, hp, [], wt, 0, WaitClears(waits));
    } else {
      var data := DataPhase(payload, drains);
      DataPhaseClears(payload, drains);
      assert tr == hp + data + wt;
      ClearsOfParts(tr, hp, data, wt, RxAlarms(drains), WaitClears(waits));
    }
  }

  /** Up to the end of the acknowledge loop, `cs` is written once, to start. */
  lemma HeadWrites(cmd: bv8, acks: seq<bv32>)
    ensures ControlWrites(Header(cmd) + Polls(acks)) == [TransferActive]
  {
    HeaderEffects(cmd);
    PollsOnlyRead(acks);
    WritesAppend(Header(cmd), Polls(acks));
  }

  /** Control writes of a header part, a data part and a wait part. */
  lemma ClearsOfParts(tr: seq<Event>, hp: seq<Event>, data: seq<Event>, wt: seq<Event>, n: nat, k: nat)
    requires tr == hp + data + wt
    requires ControlWrites(hp) == [TransferActive]
    requires ControlWrites(data) == Repeat(ClearRxActive, n)
    requires ControlWrites(wt) == Repeat(ClearRxActive, k)
    ensures ControlWrites(tr) == [TransferActive] + Repeat(ClearRxActive, n + k)
  {
    WritesAppend(hp, data);
    WritesAppend(hp + data, wt);
    RepeatAppend(ClearRxActive, n, k);
  }


  /** A transfer with a payload, cut at the D/C rising edge. */
  lemma TransferSplit(cmd: bv8, payload: seq<bv8>, acks: seq<bv32>, drains: seq<bv32>, waits: seq<bv32>)
    requires Completed(payload, acks, drains, waits) && payload != []
    ensures TransferTrace(cmd, payload, acks, drains, waits)
         == (Header(cmd) + Polls(acks)) + [PinSet(DcMask)]
            + (Pushes(payload[..PrefillCount(|payload|)])
               + (DrainTrace(drains, payload[PrefillCount(|payload|)..]) + WaitTrace(waits)))
  {
    var m := PrefillCount(|payload|);
    var hp, pu, dr, wt := Header(cmd) + Polls(acks), Pushes(payload[..m]), DrainTrace(drains, payload[m..]), WaitTrace(waits);
    assert TransferTrace(cmd, payload, acks, drains, waits) == hp + ([PinSet(DcMask)] + pu + dr) + wt;
    Seqs.Regroup(hp, [PinSet(DcMask)], pu, dr, wt);
  }

  /** Index of the D/C rising edge in a transfer whose acknowledge loop read `acks`. */
  function DataStart(acks: seq<bv32>): nat {
    3 + |acks|
  }

  /** Positions in a trace of the form head, one event, tail. */
  lemma CutAt(tr: seq<Event>, head: seq<Event>, e: Event, tail: seq<Event>)
    requires tr == head + [e] + tail
    ensures |tr| == |head| + 1 + |tail| && tr[|head|] == e
    ensures tr[..|head|] == head && tr[|head| + 1..] == tail
  {}

  /** Everything after the D/C rising edge pushes exactly the payload. */
  lemma AfterEdgeBytes(payload: seq<bv8>, drains: seq<bv32>, waits: seq<bv32>)
    requires DrainWindow(drains, |payload| - PrefillCount(|payload|)) && waits != []
    ensures FifoBytes(Pushes(payload[..PrefillCount(|payload|)])
                      + (DrainTrace(drains, payload[PrefillCount(|payload|)..]) + WaitTrace(waits)))
         == payload
  {
    var m := PrefillCount(|payload|);
    var drain, wait := DrainTrace(drains, payload[m..]), WaitTrace(waits);
    assert FifoBytes(drain + wait) == payload[m..] by {
      DrainBytes(drains, payload[m..]);
      WaitEffects(waits);
      BytesAppend(drain, wait);
    }
    assert FifoBytes(Pushes(payload[..m]) + (drain + wait)) == payload[..m] + payload[m..] by {
      PushesExactly(payload[..m]);
      BytesAppend(Pushes(payload[..m]), drain + wait);
    }
    assert payload[..m] + payload[m..] == payload;
  }

  /** Positions in a trace of the form head, one event, a prefix, the rest. */
  lemma PrefixAfter(tr: seq<Event>, head: seq<Event>, e: Event, pre: seq<Event>, rest: seq<Event>)
    requires tr == head + [e] + (pre + rest)
    ensures |tr| == |head| + 1 + |pre| + |rest|
    ensures forall i :: 0 <= i < |pre| ==> tr[|head| + 1 + i] == pre[i]
  {}

  /** The bytes pushed right after one event of a trace, given the pushes' own shape. */
  lemma PushesAfter(tr: seq<Event>, head: seq<Event>, e: Event, pre: seq<Event>, rest: seq<Event>, payload: seq<bv8>, m: nat, start: nat)
    requires tr == head + [e] + (pre + rest) && |head| == start
    requires m <= |payload| && |pre| == |payload[..m]|
    requires forall i :: 0 <= i < |payload[..m]| ==> pre[i] == FifoWrite(payload[..m][i])
    requires |rest| > 0
    ensures start + m < |tr|
    ensures forall i :: 0 <= i < m ==> tr[start + 1 + i] == FifoWrite(payload[i])
  {
    PrefixAfter(tr, head, e, pre, rest);
    forall i | 0 <= i < m
      ensures tr[start + 1 + i] == FifoWrite(payload[i])
    {
      assert payload[..m][i] == payload[i];
    }
  }

  /** D/C goes low before the command byte is pushed, and high at DataStart(acks). */
  lemma DataControlEdges(cmd: bv8, payload: seq<bv8>, acks: seq<bv32>, drains: seq<bv32>, waits: seq<bv32>)
    requires Completed(payload, acks, drains, waits) && payload != []
    ensures DataStart(acks) < |TransferTrace(cmd, payload, acks, drains, waits)|
    ensures TransferTrace(cmd, payload, acks, drains, waits)[1] == PinClear(DcMask)
    ensures TransferTrace(cmd, payload, acks, drains, waits)[2] == FifoWrite(cmd)
    ensures TransferTrace(cmd, payload, acks, drains, waits)[DataStart(acks)] == PinSet(DcMask)
  {
    var m := PrefillCount(|payload|);
    var tr := TransferTrace(cmd, payload, acks, drains, waits);
    var head := Header(cmd) + Polls(acks);
    var tail := Pushes(payload[..m]) + (DrainTrace(drains, payload[m..]) + WaitTrace(waits));
    TransferSplit(cmd, payload, acks, drains, waits);
    CutAt(tr, head, PinSet(DcMask), tail);
    PollsOnlyRead(acks);
    assert tr[1] == head[1] && tr[2] == head[2];
  }

  /** D/C is low for the command byte and high for every payload byte: `cmd` is the
      only byte pushed before the D/C rising edge and all payload bytes come after it. */
  lemma DataControlFraming(cmd: bv8, payload: seq<bv8>, acks: seq<bv32>, drains: seq<bv32>, waits: seq<bv32>)
    requires Completed(payload, acks, drains, waits) && payload != []
    ensures DataStart(acks) < |TransferTrace(cmd, payload, acks, drains, waits)|
    ensures FifoBytes(TransferTrace(cmd, payload, acks, drains, waits)[..DataStart(acks)]) == [cmd]
    ensures FifoBytes(TransferTrace(cmd, payload, acks, drains, waits)[DataStart(acks) + 1..]) == payload
  {
    var m := PrefillCount(|payload|);
    var tr := TransferTrace(cmd, payload, acks, drains, waits);
    var head := Header(cmd) + Polls(acks);
    var tail := Pushes(payload[..m]) + (DrainTrace(drains, payload[m..]) + WaitTrace(waits));
    TransferSplit(cmd, payload, acks, drains, waits);
    CutAt(tr, head, PinSet(DcMask), tail);
    PollsOnlyRead(acks);
    HeaderEffects(cmd);
    BytesAppend(Header(cmd), Polls(acks));
    AfterEdgeBytes(payload, drains, waits);
  }

  /** The prefill pushes min(n, 15) bytes straight after the D/C rising edge, with
      no status read between them. */
  lemma PrefillUnpolled(cmd: bv8, payload: seq<bv8>, acks: seq<bv32>, drains: seq<bv32>, waits: seq<bv32>)
    requires Completed(payload, acks, drains, waits) && payload != []
    ensures DataStart(acks) + PrefillCount(|payload|) < |TransferTrace(cmd, payload, acks, drains, waits)|
    ensures forall i :: 0 <= i < PrefillCount(|payload|) ==>
              TransferTrace(cmd, payload, acks, drains, waits)[DataStart(acks) + 1 + i] == FifoWrite(payload[i])
  {
    var m := PrefillCount(|payload|);
    var tr := TransferTrace(cmd, payload, acks, drains, waits);
    var head := Header(cmd) + Polls(acks);
    var pre := Pushes(payload[..m]);
    var rest := DrainTrace(drains, payload[m..]) + WaitTrace(waits);
    assert tr == head + [PinSet(DcMask)] + (pre + rest) by {
      TransferSplit(cmd, payload, acks, drains, waits);
    }
    assert |head| == DataStart(acks) by { PollsOnlyRead(acks); }
    assert |pre| == |payload[..m]| && forall i :: 0 <= i < |payload[..m]| ==> pre[i] == FifoWrite(payload[..m][i]) by {
      PushesExactly(payload[..m]);
    }
    assert |rest| > 0 by { assert |WaitTrace(waits)| > 0; }
    PushesAfter(tr, head, PinSet(DcMask), pre, rest, payload, m, DataStart(acks));
  }
}
