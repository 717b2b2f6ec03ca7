/**
 The FlexSPI IP-command driver of `src/qspi.c`, as a class over the controller's
 registers. The two `for` loops that fill TFDR, the tail-packing loop, and their
 counterparts for RFDR each appear once as a method of their own.

 The hardware is modelled by what it may do between two driver steps: `AwaitIntr`,
 `AwaitRxWindow` and `AwaitDone` stand for the polling loops and leave the status
 registers (and RFDR) with any values that end the wait. What the driver lets the
 controller observe is recorded in the ghost field `log`.
 */
module Qspi {
  import opened Arithmetic
  import opened Bytes
  import opened Sequences
  import opened FlexSpiWindows
  import opened FlexSpiLog
  import FpgaInterface

  const LUTKEY_VALUE: word := 0x5AF0_5AF0
  const LOCKER_LOCK: word := 0x1
  const LOCKER_UNLOCK: word := 0x2
  const LUT_BYTES := 512
  const MAX_TRANSFER := 32 * 32
  const LUT_INDEX_READ: byte := 0
  const FPGA_LUT_IDX_RD_SAMPLE: byte := FpgaInterface.LutIndex(FpgaInterface.RdSample)
  const PORT_A1 := 0
  const BIT0: word := 0x1
  const SEQUENCE_POINTER_CLEAR: word := 0x8000_0000
  const WTR_MASK: word := 0x1FC  // watermark field of IPTXFCR and IPRXFCR, bits 2..8

  /* The watermark a FIFO control register programs: 1..128 units of 64 bits (TX: a
     window is two words per unit) or of one popped word (RX). */
  function Watermark(fcr: word): (w: nat)
    ensures 1 <= w <= 128
  {
    ((fcr & WTR_MASK) >> 2) as bv7 as nat + 1
  }

  lemma FlushKeepsWatermark(fcr: word)
    ensures Watermark(SetBit(fcr, BIT0)) == Watermark(fcr)
  {
    assert SetBit(fcr, BIT0) & WTR_MASK == fcr & WTR_MASK;
  }

  /* Writing a value into the seven bits of the field programs that value plus one. */
  lemma WatermarkField(fcr: word, field: bv7)
    ensures Watermark((fcr & !0x1FC) | ((field as word) << 2)) == field as nat + 1
  {
    assert ((((fcr & !0x1FC) | ((field as word) << 2)) & WTR_MASK) >> 2) as bv7 == field;
  }

  lemma BitsAreSet(v: word)
    ensures HasBit(SetBit(v, BIT0), BIT0)
    ensures HasBit(SetBit(v, SEQUENCE_POINTER_CLEAR), SEQUENCE_POINTER_CLEAR)
  {
  }

  datatype Transfer = Transfer(deviceAddress: word, port: nat, cmdType: CommandType,
                               seqIndex: byte, seqNumber: byte, data: array<byte>, dataSize: bv16)
  {
    /* What the caller asks for, with the first dataSize bytes the buffer holds. */
    ghost function Job(): (job: Job)
      requires dataSize as nat <= data.Length
      reads data
    {
      FlexSpiLog.Job(deviceAddress, port, cmdType, seqIndex, seqNumber, dataSize, data[..dataSize as nat])
    }

    /* None of the driver's assertions fails. */
    predicate Accepted() {
      !cmdType.Command? && dataSize as nat <= MAX_TRANSFER
    }

    /* The size that goes into IPCR1. */
    function ConfiguredSize(): bv16 {
      if cmdType.Command? then 0 else dataSize
    }
  }

  /* An accepted transfer has a buffer of its size, and its windows stay inside the data
     registers at these watermarks. */
  predicate Fitting(xfer: Transfer, tx: nat, rx: nat) {
    var n := xfer.dataSize as nat;
    xfer.Accepted() ==> n <= xfer.data.Length && if xfer.cmdType.Read? then Fits(n, 4 * rx) else Fits(n, 8 * tx)
  }

  /* A size_t, cut where an assignment to `uint16_t dataSize` cuts it: only `low` is kept. */
  datatype SizeT = SizeT(high: nat, low: bv16) {
    function Value(): nat {
      0x1_0000 * high + low as nat
    }
  }

  /* What a call comes to: the value it returns, or the failure of an assertion in it. */
  datatype Outcome = Returned(result: int) | Aborted

  class FlexSpi {
    var INTR: word
    var STS0: word
    var STS1: word
    var IPCR0: word
    var IPCR1: word
    var IPCMD: word
    var IPTXFCR: word
    var IPRXFCR: word
    var LUTKEY: word
    var LUTCR: word
    const FLSHCR2: array<word>
    const RFDR: array<word>
    const TFDR: array<word>
    const LUT: array<byte>  // the 128 LUT words, byte by byte
    ghost var log: seq<Event>
    var lutLocked: bool       // the device's lock on LUT

    ghost predicate Valid() {
      && FLSHCR2.Length == 4 && RFDR.Length == DATA_REGISTERS && TFDR.Length == DATA_REGISTERS
      && LUT.Length == LUT_BYTES
      && FLSHCR2 != RFDR && FLSHCR2 != TFDR && RFDR != TFDR
    }

    constructor ()
      ensures Valid() && fresh(FLSHCR2) && fresh(RFDR) && fresh(TFDR) && fresh(LUT)
      ensures log == [] && lutLocked
    {
      FLSHCR2 := new word[4];
      RFDR := new word[DATA_REGISTERS];
      TFDR := new word[DATA_REGISTERS];
      LUT := new byte[LUT_BYTES];
      log := [];
      lutLocked := true;
    }

    ////////////////////////////////////////////////////////////////////////////
    // The device's side of the registers
    ////////////////////////////////////////////////////////////////////////////

    /* `INTR |= ones`. What INTR reads as afterwards is up to the device. */
    method WriteIntr(ones: word)
      requires Valid()
      modifies `INTR, `log
      ensures log == old(log) + [Event.WriteIntr(ones, SetBit(old(INTR), ones), TFDR[..], RFDR[..])]
    {
      log := log + [Event.WriteIntr(ones, SetBit(INTR, ones), TFDR[..], RFDR[..])];
      INTR := *;
    }

    /* Setting bit 0 of IPTXFCR or IPRXFCR flushes that FIFO, setting bit 0 of IPCMD starts
       the command that IPCR0 and IPCR1 describe, and setting the top bit of FLSHCR2 clears
       the sequence pointer of the port. */
    method WriteIptxfcr(v: word)
      modifies `IPTXFCR, `log
      ensures IPTXFCR == v
      ensures log == old(log) + if HasBit(v, BIT0) then [FlushTx] else []
    {
      IPTXFCR := v;
      log := log + if HasBit(v, BIT0) then [FlushTx] else [];
    }

    method WriteIprxfcr(v: word)
      modifies `IPRXFCR, `log
      ensures IPRXFCR == v
      ensures log == old(log) + if HasBit(v, BIT0) then [FlushRx] else []
    {
      IPRXFCR := v;
      log := log + if HasBit(v, BIT0) then [FlushRx] else [];
    }

    method WriteIpcmd(v: word)
      modifies `IPCMD, `log
      ensures IPCMD == v
      ensures log == old(log) + if HasBit(v, BIT0) then [Trigger(IPCR0, IPCR1)] else []
    {
      IPCMD := v;
      log := log + if HasBit(v, BIT0) then [Trigger(IPCR0, IPCR1)] else [];
    }

    method WriteFlshcr2(port: nat, v: word)
      requires Valid() && port < FLSHCR2.Length
      modifies `log, FLSHCR2
      ensures FLSHCR2[..] == old(FLSHCR2[..])[port := v]
      ensures log == old(log) + if HasBit(v, SEQUENCE_POINTER_CLEAR) then [ClearSequencePointer(port)] else []
    {
      FLSHCR2[port] := v;
      log := log + if HasBit(v, SEQUENCE_POINTER_CLEAR) then [ClearSequencePointer(port)] else [];
    }

    /* `while (0 == (INTR & bit))`. */
    method AwaitIntr(bit: word)
      requires bit != 0
      modifies `INTR, `STS0, `STS1
      ensures HasBit(INTR, bit)
    {
      assert bit & bit != 0;
      var v: word :| v & bit != 0;
      INTR := v;
      STS0 := *;
      STS1 := *;
    }

    /* The wait for IPRXWA: the device has put its next window into RFDR. */
    method AwaitRxWindow()
      requires Valid()
      modifies `INTR, `STS0, `STS1, RFDR
      ensures HasBit(INTR, IPRXWA)
    {
      AwaitIntr(IPRXWA);
      assert |seq(DATA_REGISTERS, _ => 0 as word)| == DATA_REGISTERS;
      var received: seq<word> :| |received| == DATA_REGISTERS;
      forall i | 0 <= i < RFDR.Length {
        RFDR[i] := received[i];
      }
    }

    /* The wait for IPCMDDONE. */
    method AwaitDone()
      requires Valid()
      modifies `INTR, `STS0, `STS1, `log
      ensures log == old(log) + [CommandDone]
    {
      AwaitIntr(IPCMDDONE);
      log := log + [CommandDone];
    }

    ////////////////////////////////////////////////////////////////////////////
    // The driver
    ////////////////////////////////////////////////////////////////////////////

    method ClearFlags()
      requires Valid()
      modifies `INTR, `STS0, `STS1, `log
      ensures log == old(log) + [Event.WriteIntr(0, old(INTR), TFDR[..], RFDR[..])]
    {
      assert SetBit(INTR, 0) == INTR;
      WriteIntr(0);
      STS0 := *;
      STS1 := *;
    }

    method FlushTxFifo()
      modifies `IPTXFCR, `log
      ensures log == old(log) + [FlushTx]
      ensures Watermark(IPTXFCR) == old(Watermark(IPTXFCR))
    {
      hide HasBit;
      FlushKeepsWatermark(IPTXFCR);
      BitsAreSet(IPTXFCR);
      WriteIptxfcr(SetBit(IPTXFCR, BIT0));
    }

    method FlushRxFifo()
      modifies `IPRXFCR, `log
      ensures log == old(log) + [FlushRx]
      ensures Watermark(IPRXFCR) == old(Watermark(IPRXFCR))
    {
      hide HasBit;
      FlushKeepsWatermark(IPRXFCR);
      BitsAreSet(IPRXFCR);
      WriteIprxfcr(SetBit(IPRXFCR, BIT0));
    }

    /* Words loaded from the buffer go to TFDR[0], TFDR[1], ... */
    method FillTfdr(buffer: array<byte>, from: nat, count: nat)
      requires Valid()
      requires count <= DATA_REGISTERS && from + 4 * count <= buffer.Length
      modifies TFDR
      ensures TFDR[..] == BytesWords(buffer[from..from + 4 * count], count) + old(TFDR[count..])
    {
      hide Load, BytesWords;
      assert buffer[from..from] == [];
      NoWords([]);
      for i := 0 to count
        invariant TFDR[..i] == BytesWords(buffer[from..from + 4 * i], i)
        invariant TFDR[i..] == old(TFDR[i..])
      {
        ghost var before, behind := TFDR[..i], TFDR[i..];
        var p := from + 4 * i;
        TFDR[i] := Load(buffer[p..p + 4]);
        assert TFDR[..i + 1] == before + [TFDR[i]];
        assert TFDR[i + 1..] == behind[1..];
        assert buffer[from..p + 4] == buffer[from..p] + buffer[p..p + 4];
        BytesWordsSnoc(buffer[from..p], buffer[p..p + 4], i);
      }
      assert TFDR[..] == TFDR[..count] + TFDR[count..];
    }

    /* The last one to three bytes, packed with shifts into a zero word. */
    static method PackTail(buffer: array<byte>, from: nat, count: nat) returns (tempVal: word)
      requires count < 4 && from + count <= buffer.Length
      ensures tempVal == Load(ZeroPad(buffer[from..from + count]))
    {
      tempVal := 0;
      hide Load, ShiftUp, ZeroPad;
      LoadZeros();
      assert buffer[from..from] == [];
      for j := 0 to count
        invariant tempVal == Load(ZeroPad(buffer[from..from + j]))
      {
        ghost var before := buffer[from..from + j];
        assert buffer[from..from + j + 1] == before + [buffer[from + j]];
        ShiftUpExtends(before, buffer[from + j]);
        tempVal := tempVal | ShiftUp(buffer[from + j], j);
      }
    }

    /* The last pass: whole words, then the tail word if bytes are left. */
    method StageTail(buffer: array<byte>, from: nat, size: nat) returns (ghost tail: seq<word>)
      requires Valid()
      requires from + size <= buffer.Length && size <= 4 * DATA_REGISTERS
      modifies TFDR
      ensures size / 4 + |tail| <= DATA_REGISTERS
      ensures tail == if size % 4 == 0 then [] else [Load(ZeroPad(buffer[from..from + size][4 * (size / 4)..]))]
      ensures TFDR[..] == BytesWords(buffer[from..from + size][..4 * (size / 4)], size / 4) + tail
                          + old(TFDR[size / 4 + |tail|..])
    {
      hide Load, ZeroPad, BytesWords;
      var i := size / 4;
      FillTfdr(buffer, from, i);
      assert buffer[from..from + size][..4 * i] == buffer[from..from + 4 * i];
      var left := size - 4 * i;
      tail := [];
      if left != 0 {
        var tempVal := PackTail(buffer, from + 4 * i, left);
        TFDR[i] := tempVal;
        assert buffer[from..from + size][4 * i..] == buffer[from + 4 * i..from + 4 * i + left];
        tail := [tempVal];
      }
    }

    /* One pass of the body of write_blocking: fill a window from the buffer, whole or
       partial, and return how many bytes are left to send. */
    method StageWindow(buffer: array<byte>, from: nat, size: nat, watermark: nat) returns (left: nat)
      requires Valid() && watermark > 0
      requires from + size <= buffer.Length
      requires Fits(size, 8 * watermark)
      modifies TFDR
      ensures TFDR[..] == Staged(old(TFDR[..]), watermark, buffer[from..from + size])
      ensures left == |Rest(buffer[from..from + size], watermark)|
    {
      hide Load, ZeroPad, BytesWords, Staged, Rest;
      ghost var data, before := buffer[from..from + size], TFDR[..];
      if size >= 8 * watermark {
        FillTfdr(buffer, from, 2 * watermark);
        left := size - 8 * watermark;
        assert data[..8 * watermark] == buffer[from..from + 8 * watermark];
        StagedWhole(TFDR[..], before, watermark, data);
      } else {
        ghost var tail := StageTail(buffer, from, size);
        StagedPartial(TFDR[..], before, watermark, data, size / 4, tail);
        left := 0;
      }
    }

    /* One whole pass: wait for room, clear the flags, stage a window, and push it. */
    method SendWindow(buffer: array<byte>, from: nat, size: nat, watermark: nat)
        returns (left: nat, ghost clearing: Event, ghost asking: Event)
      requires Valid() && watermark > 0
      requires from + size <= buffer.Length
      requires Fits(size, 8 * watermark)
      modifies `INTR, `STS0, `STS1, `log, TFDR
      ensures log == old(log) + [clearing, asking]
      ensures clearing.WritesBack(IPTXWE) && clearing.tfdr == old(TFDR[..]) && asking.Asks(IPTXWE)
      ensures asking.tfdr == TFDR[..] == Staged(old(TFDR[..]), watermark, buffer[from..from + size])
      ensures left == |Rest(buffer[from..from + size], watermark)|
    {
      hide Staged, Rest, Fits, HasBit, SetBit;
      AwaitIntr(IPTXWE);
      clearing := Event.WriteIntr(0, INTR, TFDR[..], RFDR[..]);
      ClearFlags();
      left := StageWindow(buffer, from, size, watermark);
      asking := Event.WriteIntr(IPTXWE, SetBit(INTR, IPTXWE), TFDR[..], RFDR[..]);
      TxAsks(INTR, TFDR[..], RFDR[..]);
      WriteIntr(IPTXWE);
    }

    /* The loop of write_blocking. */
    method SendWindows(buffer: array<byte>, n: nat) returns (ghost d: seq<Event>)
      requires Valid()
      requires n <= buffer.Length && Fits(n, 8 * Watermark(IPTXFCR))
      modifies `INTR, `STS0, `STS1, `log, TFDR
      ensures log == old(log) + d
      ensures Sent(d, old(TFDR[..]), Watermark(IPTXFCR), buffer[..n])
      ensures TFDR[..] == WrittenOver(old(TFDR[..]), Watermark(IPTXFCR), buffer[..n])
    {
      hide Watermark, Sending, Sent, Staged, Rest, Fits, WrittenOver;
      var watermark := Watermark(IPTXFCR);
      var size: nat := n;
      d := [];
      ghost var before := TFDR[..];
      SendingStart(before, watermark, buffer[..n]);
      while size != 0
        invariant log == old(log) + d
        invariant size <= n
        invariant Sending(d, before, TFDR[..], watermark, buffer[..n], size)
        decreases size
      {
        FitsShorter(n, size, 8 * watermark);
        assert buffer[n - size..n] == buffer[..n][n - size..];
        ghost var regs := TFDR[..];
        ghost var clearing, asking;
        var left;
        left, clearing, asking := SendWindow(buffer, n - size, size, watermark);
        SendingStep(d, before, regs, watermark, buffer[..n], size, left, clearing, asking);
        d := d + [clearing, asking];
        size := left;
      }
      SendingEnd(d, before, TFDR[..], watermark, buffer[..n]);
    }

    /* write_blocking: it starts by asserting that the size is at most 1024. */
    method WriteBlocking(buffer: array<byte>, n: nat) returns (out: Outcome, ghost d: seq<Event>)
      requires Valid()
      requires n <= MAX_TRANSFER ==> n <= buffer.Length && Fits(n, 8 * Watermark(IPTXFCR))
      modifies `INTR, `STS0, `STS1, `log, TFDR
      ensures log == old(log) + d
      ensures out == if n <= MAX_TRANSFER then Returned(0) else Aborted
      ensures out.Aborted? ==> d == [] && TFDR[..] == old(TFDR[..])
      ensures out.Returned? ==>
                && Sent(d, old(TFDR[..]), Watermark(IPTXFCR), buffer[..n])
                && TFDR[..] == WrittenOver(old(TFDR[..]), Watermark(IPTXFCR), buffer[..n])
    {
      hide Watermark, Sent, Fits, WrittenOver;
      d := [];
      if n > MAX_TRANSFER {
        return Aborted, [];
      }
      d := SendWindows(buffer, n);
      out := Returned(0);
    }

    /* Words from RFDR[0], RFDR[1], ... are stored into the buffer. */
    method DrainRfdr(buffer: array<byte>, from: nat, count: nat)
      requires Valid()
      requires count <= DATA_REGISTERS && from + 4 * count <= buffer.Length
      modifies buffer
      ensures buffer[..] == Overlay(old(buffer[..]), from, WordBytes(RFDR[..count]))
    {
      hide WordBytes, Store, Overlay;
      ghost var before := buffer[..];
      NoWords([]);
      assert RFDR[..0] == [];
      OverlayNothing(before, from);
      for i := 0 to count
        invariant buffer[..] == Overlay(before, from, WordBytes(RFDR[..i]))
      {
        StoreWord(buffer, from + 4 * i, RFDR[i]);
        assert RFDR[..i + 1] == RFDR[..i] + [RFDR[i]];
        WordBytesSnoc(RFDR[..i], RFDR[i]);
        OverlayTwice(before, from, WordBytes(RFDR[..i]), Store(RFDR[i]));
      }
    }

    /* `*(uint32_t *)(void *)buffer = w`. */
    static method StoreWord(buffer: array<byte>, from: nat, w: word)
      requires from + 4 <= buffer.Length
      modifies buffer
      ensures buffer[..] == Overlay(old(buffer[..]), from, Store(w))
    {
      hide Byte0, Byte1, Byte2, Byte3;
      buffer[from], buffer[from + 1], buffer[from + 2], buffer[from + 3] := Byte0(w), Byte1(w), Byte2(w), Byte3(w);
    }

    /* The last one to three bytes, shifted out of a word. */
    static method UnpackTail(tempVal: word, buffer: array<byte>, from: nat, count: nat)
      requires count < 4 && from + count <= buffer.Length
      modifies buffer
      ensures buffer[..] == Overlay(old(buffer[..]), from, Store(tempVal)[..count])
    {
      hide ShiftDown, Store, Overlay;
      ghost var before, stored := buffer[..], Store(tempVal);
      assert stored[..0] == [];
      OverlayNothing(before, from);
      for j := 0 to count
        invariant buffer[..] == Overlay(before, from, stored[..j])
      {
        ShiftDownIsStore(tempVal, j);
        buffer[from + j] := ShiftDown(tempVal, j);
        OverlayNext(before, from, stored[..j], stored[j]);
        assert stored[..j + 1] == stored[..j] + [stored[j]];
      }
    }

    /* One pass of the body of read_blocking: empty a window into the buffer, whole or
       partial, and return how many bytes are left to receive. */
    method TakeWindow(buffer: array<byte>, from: nat, size: nat, watermark: nat) returns (left: nat)
      requires Valid() && watermark > 0
      requires from + size <= buffer.Length
      requires Fits(size, 4 * watermark)
      modifies buffer
      ensures left <= size
      ensures Taken(RFDR[..], watermark, buffer[from..from + size - left], size, left)
      ensures buffer[..from] == old(buffer[..from])
      ensures buffer[from + size - left..] == old(buffer[from + size - left..])
    {
      hide WordBytes, Taken, Overlay, Store;
      ghost var before := buffer[..];
      if size >= 4 * watermark {
        DrainRfdr(buffer, from, watermark);
        left := size - 4 * watermark;
        ghost var bytes := WordBytes(RFDR[..watermark]);
        OverlaySlices(before, from, bytes);
        assert RFDR[..][..watermark] == RFDR[..watermark];
        TakenWhole(RFDR[..], watermark, bytes, size);
      } else {
        var i := size / 4;
        DrainRfdr(buffer, from, i);
        left := size - 4 * i;
        ghost var bytes := WordBytes(RFDR[..i]);
        if left != 0 {
          var tempVal := RFDR[i];
          UnpackTail(tempVal, buffer, from + 4 * i, left);
          OverlayTwice(before, from, bytes, Store(tempVal)[..left]);
          bytes := bytes + Store(tempVal)[..left];
        }
        OverlaySlices(before, from, bytes);
        assert RFDR[..][..i] == RFDR[..i];
        TakenPartial(RFDR[..], watermark, i, bytes);
        left := 0;
      }
    }

    /* One whole pass: wait for a window, clear the flags, take the window, and pop it. */
    method ReceiveWindow(buffer: array<byte>, from: nat, size: nat, watermark: nat)
        returns (left: nat, ghost clearing: Event, ghost asking: Event)
      requires Valid() && watermark > 0
      requires from + size <= buffer.Length
      requires Fits(size, 4 * watermark)
      modifies `INTR, `STS0, `STS1, `log, RFDR, buffer
      ensures log == old(log) + [clearing, asking]
      ensures clearing.WritesBack(IPRXWA) && asking.Asks(IPRXWA)
      ensures clearing.tfdr == asking.tfdr == TFDR[..]
      ensures left <= size
      ensures Taken(asking.rfdr, watermark, buffer[from..from + size - left], size, left)
      ensures buffer[..from] == old(buffer[..from])
      ensures buffer[from + size - left..] == old(buffer[from + size - left..])
    {
      hide Taken, Fits, HasBit, SetBit;
      AwaitRxWindow();
      clearing := Event.WriteIntr(0, INTR, TFDR[..], RFDR[..]);
      ClearFlags();
      left := TakeWindow(buffer, from, size, watermark);
      asking := Event.WriteIntr(IPRXWA, SetBit(INTR, IPRXWA), TFDR[..], RFDR[..]);
      RxAsks(INTR, TFDR[..], RFDR[..]);
      WriteIntr(IPRXWA);
    }

    /* The loop of read_blocking. */
    method ReceiveWindows(buffer: array<byte>, n: nat) returns (ghost d: seq<Event>)
      requires Valid()
      requires n <= buffer.Length && Fits(n, 4 * Watermark(IPRXFCR))
      modifies `INTR, `STS0, `STS1, `log, RFDR, buffer
      ensures log == old(log) + d
      ensures Received(d, TFDR[..], Watermark(IPRXFCR), buffer[..n])
      ensures buffer[n..] == old(buffer[n..])
    {
      hide Watermark, Receiving, Received, Taken, Fits;
      var watermark := Watermark(IPRXFCR);
      var size: nat := n;
      d := [];
      ghost var regs := TFDR[..];
      assert buffer[..0] == [];
      ReceivingStart(regs, watermark, n);
      while size != 0
        invariant log == old(log) + d
        invariant size <= n
        invariant Receiving(d, regs, watermark, buffer[..n - size], size)
        invariant buffer[n..] == old(buffer[n..])
        decreases size
      {
        FitsShorter(n, size, 4 * watermark);
        ghost var before := buffer[..n - size];
        ghost var clearing, asking;
        var left;
        left, clearing, asking := ReceiveWindow(buffer, n - size, size, watermark);
        assert buffer[..n - left] == before + buffer[n - size..n - left];
        ReceivingStep(d, regs, watermark, before, size, left, buffer[n - size..n - left], clearing, asking);
        assert buffer[n..] == buffer[n - left..][left..];
        d := d + [clearing, asking];
        size := left;
      }
      ReceivingEnd(d, regs, watermark, buffer[..n]);
    }

    /* read_blocking: it asserts the size, and flushes the RX FIFO before the loop. */
    method ReadBlocking(buffer: array<byte>, n: nat) returns (out: Outcome, ghost d: seq<Event>)
      requires Valid()
      requires n <= MAX_TRANSFER ==> n <= buffer.Length && Fits(n, 4 * Watermark(IPRXFCR))
      modifies `INTR, `STS0, `STS1, `IPRXFCR, `log, RFDR, buffer
      ensures Watermark(IPRXFCR) == old(Watermark(IPRXFCR))
      ensures log == old(log) + d
      ensures out == if n <= MAX_TRANSFER then Returned(0) else Aborted
      ensures out.Aborted? ==> d == [] && buffer[..] == old(buffer[..])
      ensures out.Returned? ==>
                && ReceivedFlushed(d, TFDR[..], Watermark(IPRXFCR), buffer[..n])
                && buffer[n..] == old(buffer[n..])
    {
      hide Watermark, Received, Fits;
      d := [];
      if n > MAX_TRANSFER {
        return Aborted, [];
      }
      FlushRxFifo();
      ghost var b := ReceiveWindows(buffer, n);
      d := [FlushRx] + b;
      assert d[1..] == b;
      out := Returned(0);
    }

    /* Clear the sequence pointer of the port, then the status flags. */
    method ClearFormerState(port: nat) returns (ghost d: seq<Event>)
      requires Valid() && port < FLSHCR2.Length
      modifies `INTR, `STS0, `STS1, `log, FLSHCR2
      ensures FLSHCR2[..] == old(FLSHCR2[..])[port := SetBit(old(FLSHCR2[port]), SEQUENCE_POINTER_CLEAR)]
      ensures log == old(log) + d
      ensures |d| == 2 && d[0] == ClearSequencePointer(port) && d[1].IsWriteBack()
    {
      hide SetBit, HasBit;
      BitsAreSet(FLSHCR2[port]);
      WriteFlshcr2(port, SetBit(FLSHCR2[port], SEQUENCE_POINTER_CLEAR));
      d := [ClearSequencePointer(port), Event.WriteIntr(0, INTR, TFDR[..], RFDR[..])];
      ClearFlags();
    }

    /* Set the address, reset both FIFOs, configure, and trigger. */
    method ConfigureAndTrigger(xfer: Transfer) returns (ghost d: seq<Event>)
      modifies `IPCR0, `IPCR1, `IPCMD, `IPTXFCR, `IPRXFCR, `log
      ensures Watermark(IPTXFCR) == old(Watermark(IPTXFCR))
      ensures Watermark(IPRXFCR) == old(Watermark(IPRXFCR))
      ensures log == old(log) + d
      ensures d == [FlushTx, FlushRx,
                    Trigger(xfer.deviceAddress, ConfigValue(xfer.ConfiguredSize(), xfer.seqIndex, xfer.seqNumber))]
    {
      hide Watermark, SetBit, HasBit, ConfigValue;
      IPCR0 := xfer.deviceAddress;
      FlushTxFifo();
      FlushRxFifo();
      IPCR1 := ConfigValue(xfer.ConfiguredSize(), xfer.seqIndex, xfer.seqNumber);
      BitsAreSet(IPCMD);
      WriteIpcmd(SetBit(IPCMD, BIT0));
      d := [FlushTx, FlushRx, Trigger(IPCR0, IPCR1)];
    }

    /* Everything transfer_blocking does before the data phase. */
    method StartCommand(xfer: Transfer) returns (ghost d: seq<Event>)
      requires Valid() && xfer.port < FLSHCR2.Length
      modifies `INTR, `STS0, `STS1, `IPCR0, `IPCR1, `IPCMD, `IPTXFCR, `IPRXFCR, `log, FLSHCR2
      ensures Watermark(IPTXFCR) == old(Watermark(IPTXFCR))
      ensures Watermark(IPRXFCR) == old(Watermark(IPRXFCR))
      ensures FLSHCR2[..] == old(FLSHCR2[..])[xfer.port := SetBit(old(FLSHCR2[xfer.port]), SEQUENCE_POINTER_CLEAR)]
      ensures log == old(log) + d
      ensures Started(d, xfer)
    {
      hide Watermark, SetBit, Prologue;
      ghost var a := ClearFormerState(xfer.port);
      ghost var b := ConfigureAndTrigger(xfer);
      d := a + b;
      PrologueParts(a, b, xfer.port, xfer.deviceAddress, xfer.ConfiguredSize(), xfer.seqIndex, xfer.seqNumber);
    }

    /* Everything transfer_blocking does after the data phase. */
    method FinishCommand() returns (ghost d: seq<Event>)
      requires Valid()
      modifies `INTR, `STS0, `STS1, `log
      ensures log == old(log) + d
      ensures Epilogue(d, TFDR[..])
    {
      hide HasBit, SetBit;
      AwaitDone();
      TxAsks(INTR, TFDR[..], RFDR[..]);
      d := [CommandDone, Event.WriteIntr(IPTXWE, SetBit(INTR, IPTXWE), TFDR[..], RFDR[..])];
      WriteIntr(IPTXWE);
    }

    /* The data phase of transfer_blocking; a command without data is asserted not to occur. */
    method StreamData(xfer: Transfer) returns (out: Outcome, ghost d: seq<Event>)
      requires Valid() && Fitting(xfer, Watermark(IPTXFCR), Watermark(IPRXFCR))
      modifies `INTR, `STS0, `STS1, `IPRXFCR, `log, TFDR, RFDR, xfer.data
      ensures Watermark(IPRXFCR) == old(Watermark(IPRXFCR))
      ensures log == old(log) + d
      ensures out == if xfer.Accepted() then Returned(0) else Aborted
      ensures out.Aborted? ==> d == [] && TFDR[..] == old(TFDR[..]) && xfer.data[..] == old(xfer.data[..])
      ensures out.Returned? ==>
                && Streamed(d, old(TFDR[..]), xfer.Job(), Watermark(IPTXFCR), Watermark(IPRXFCR))
                && JobFits(xfer.Job(), Watermark(IPTXFCR))
                && TFDR[..] == RegsAfter(old(TFDR[..]), xfer.Job(), Watermark(IPTXFCR))
                && (!xfer.cmdType.Read? ==> xfer.data[..] == old(xfer.data[..]))
                && xfer.data[xfer.dataSize as nat..] == old(xfer.data[xfer.dataSize as nat..])
    {
      hide Watermark, Fits, Sent, Received, WrittenOver;
      d := [];
      if xfer.cmdType.Write? || xfer.cmdType.Config? {
        out, d := WriteBlocking(xfer.data, xfer.dataSize as nat);
      } else if xfer.cmdType.Read? {
        out, d := ReadBlocking(xfer.data, xfer.dataSize as nat);
      } else {
        return Aborted, [];
      }
    }

    method TransferBlocking(xfer: Transfer) returns (out: Outcome, ghost d: seq<Event>)
      requires Valid() && xfer.port < FLSHCR2.Length
      requires Fitting(xfer, Watermark(IPTXFCR), Watermark(IPRXFCR))
      modifies `INTR, `STS0, `STS1, `IPCR0, `IPCR1, `IPCMD, `IPTXFCR, `IPRXFCR, `log
      modifies FLSHCR2, TFDR, RFDR, xfer.data
      ensures out == if xfer.Accepted() then Returned(0) else Aborted
      ensures Watermark(IPTXFCR) == old(Watermark(IPTXFCR)) && Watermark(IPRXFCR) == old(Watermark(IPRXFCR))
      ensures log == old(log) + d
      ensures out.Aborted? ==> Started(d, xfer) && TFDR[..] == old(TFDR[..]) && xfer.data[..] == old(xfer.data[..])
      ensures out.Returned? ==>
                && Served(d, old(TFDR[..]), xfer.Job(), Watermark(IPTXFCR), Watermark(IPRXFCR))
                && JobFits(xfer.Job(), Watermark(IPTXFCR))
                && TFDR[..] == RegsAfter(old(TFDR[..]), xfer.Job(), Watermark(IPTXFCR))
                && (!xfer.cmdType.Read? ==> xfer.data[..] == old(xfer.data[..]))
                && xfer.data[xfer.dataSize as nat..] == old(xfer.data[xfer.dataSize as nat..])
    {
      hide Watermark, Streamed, Started, Epilogue, Served, RegsAfter, Fits, JobFits;
      ghost var a := StartCommand(xfer);
      ghost var regs := TFDR[..];
      ghost var b;
      out, b := StreamData(xfer);
      if out.Aborted? {
        return Aborted, a;
      }
      ghost var c := FinishCommand();
      d := a + b + c;
      ServedParts(a, b, c, regs, xfer, xfer.Job(), Watermark(IPTXFCR), Watermark(IPRXFCR));
    }

    /* QSPI_Write, for a `size_t size`: dataSize keeps its low 16 bits only. */
    method QspiWrite(addr: word, lutIndex: byte, buffer: array<byte>, size: SizeT)
        returns (out: Outcome, ghost d: seq<Event>)
      requires Valid() && Roomy(buffer.Length, size, 8 * Watermark(IPTXFCR))
      modifies `INTR, `STS0, `STS1, `IPCR0, `IPCR1, `IPCMD, `IPTXFCR, `IPRXFCR, `log
      modifies FLSHCR2, TFDR, RFDR, buffer
      ensures log == old(log) + d && buffer[..] == old(buffer[..])
      ensures WriteDone(out, d, old(TFDR[..]), addr, lutIndex, size, buffer[..], Watermark(IPTXFCR))
      ensures Watermark(IPTXFCR) == old(Watermark(IPTXFCR)) && Watermark(IPRXFCR) == old(Watermark(IPRXFCR))
    {
      hide Watermark, Fits, ServedWrite;
      out, d := TransferBlocking(Transfer(addr, PORT_A1, Write, lutIndex, 1, buffer, size.low));
    }

    /* The common body of QSPI_Read and QSPI_ReadSample: the size is asserted not to be 0. */
    method ReadSequence(addr: word, seqIndex: byte, buffer: array<byte>, size: SizeT)
        returns (out: Outcome, ghost d: seq<Event>)
      requires Valid() && Roomy(buffer.Length, size, 4 * Watermark(IPRXFCR))
      modifies `INTR, `STS0, `STS1, `IPCR0, `IPCR1, `IPCMD, `IPTXFCR, `IPRXFCR, `log
      modifies FLSHCR2, TFDR, RFDR, buffer
      ensures log == old(log) + d
      ensures ReadDone(out, d, old(TFDR[..]), addr, seqIndex, size, old(buffer[..]), buffer[..],
                       Watermark(IPRXFCR))
      ensures Watermark(IPTXFCR) == old(Watermark(IPTXFCR)) && Watermark(IPRXFCR) == old(Watermark(IPRXFCR))
    {
      hide Watermark, Fits, ServedRead;
      if size.Value() == 0 {
        return Aborted, [];
      }
      out, d := TransferBlocking(Transfer(addr, PORT_A1, Read, seqIndex, 1, buffer, size.low));
    }

    /* QSPI_Read */
    method QspiRead(addr: word, buffer: array<byte>, size: SizeT)
        returns (out: Outcome, ghost d: seq<Event>)
      requires Valid() && Roomy(buffer.Length, size, 4 * Watermark(IPRXFCR))
      modifies `INTR, `STS0, `STS1, `IPCR0, `IPCR1, `IPCMD, `IPTXFCR, `IPRXFCR, `log
      modifies FLSHCR2, TFDR, RFDR, buffer
      ensures log == old(log) + d
      ensures ReadDone(out, d, old(TFDR[..]), addr, LUT_INDEX_READ, size, old(buffer[..]), buffer[..],
                       Watermark(IPRXFCR))
      ensures Watermark(IPTXFCR) == old(Watermark(IPTXFCR)) && Watermark(IPRXFCR) == old(Watermark(IPRXFCR))
    {
      hide ReadDone, Watermark, Roomy;
      out, d := ReadSequence(addr, LUT_INDEX_READ, buffer, size);
    }

    /* QSPI_ReadSample */
    method QspiReadSample(addr: word, buffer: array<byte>, size: SizeT)
        returns (out: Outcome, ghost d: seq<Event>)
      requires Valid() && Roomy(buffer.Length, size, 4 * Watermark(IPRXFCR))
      modifies `INTR, `STS0, `STS1, `IPCR0, `IPCR1, `IPCMD, `IPTXFCR, `IPRXFCR, `log
      modifies FLSHCR2, TFDR, RFDR, buffer
      ensures log == old(log) + d
      ensures ReadDone(out, d, old(TFDR[..]), addr, FPGA_LUT_IDX_RD_SAMPLE, size, old(buffer[..]), buffer[..],
                       Watermark(IPRXFCR))
      ensures Watermark(IPTXFCR) == old(Watermark(IPTXFCR)) && Watermark(IPRXFCR) == old(Watermark(IPRXFCR))
    {
      hide ReadDone, Watermark, Roomy;
      out, d := ReadSequence(addr, FPGA_LUT_IDX_RD_SAMPLE, buffer, size);
    }

    ////////////////////////////////////////////////////////////////////////////
    // The look-up table
    ////////////////////////////////////////////////////////////////////////////

    /* The device takes a lock or unlock request only right after the key was written. */
    method WriteLutCr(v: word)
      modifies `LUTCR, `LUTKEY, `lutLocked
      ensures LUTCR == v && LUTKEY == 0
      ensures lutLocked == if old(LUTKEY) == LUTKEY_VALUE && v == LOCKER_UNLOCK then false
                           else if old(LUTKEY) == LUTKEY_VALUE && v == LOCKER_LOCK then true
                           else old(lutLocked)
    {
      if LUTKEY == LUTKEY_VALUE && (v == LOCKER_LOCK || v == LOCKER_UNLOCK) {
        lutLocked := v == LOCKER_LOCK;
      }
      LUTCR := v;
      LUTKEY := 0;
    }

    /* The device ignores stores to a locked table. */
    method StoreLut(k: nat, b: byte)
      requires Valid() && k < LUT_BYTES
      modifies LUT
      ensures LUT[..] == if lutLocked then old(LUT[..]) else old(LUT[..])[k := b]
    {
      if !lutLocked {
        LUT[k] := b;
      }
    }

    method LockLut()
      modifies `LUTKEY, `LUTCR, `lutLocked
      ensures lutLocked
    {
      LUTKEY := LUTKEY_VALUE;
      WriteLutCr(LOCKER_LOCK);
    }

    method UnlockLut()
      modifies `LUTKEY, `LUTCR, `lutLocked
      ensures !lutLocked
    {
      LUTKEY := LUTKEY_VALUE;
      WriteLutCr(LOCKER_UNLOCK);
    }

    /* QSPI_SetupLut: unlock, copy len bytes, lock. The length is asserted to be at most that
       of the table. */
    method SetupLut(lut: array<byte>, len: nat) returns (aborts: bool)
      requires Valid() && lut != LUT
      requires len <= LUT_BYTES ==> len <= lut.Length
      modifies `LUTKEY, `LUTCR, `lutLocked, LUT
      ensures aborts <==> len > LUT_BYTES
      ensures aborts ==> LUT[..] == old(LUT[..]) && lutLocked == old(lutLocked)
      ensures !aborts ==> LUT[..] == Overlay(old(LUT[..]), 0, lut[..len]) && lutLocked
    {
      hide Overlay;
      if len > LUT_BYTES {
        return true;
      }
      ghost var before := LUT[..];
      UnlockLut();
      OverlayNothing(before, 0);
      assert lut[..0] == [];
      for k := 0 to len
        invariant !lutLocked
        invariant LUT[..] == Overlay(before, 0, lut[..k])
      {
        StoreLut(k, lut[k]);
        OverlayNext(before, 0, lut[..k], lut[k]);
        assert lut[..k + 1] == lut[..k] + [lut[k]];
      }
      LockLut();
      aborts := false;
    }
  }

  /* If the size that is kept is accepted, the buffer has that many bytes, and the windows
     stay inside the data registers. */
  predicate Roomy(length: nat, size: SizeT, capacity: nat) {
    var n := size.low as nat;
    n <= MAX_TRANSFER ==> n <= length && Fits(n, capacity)
  }

  /* What a call of QSPI_Write does with a buffer: it either sends the bytes that the low 16
     bits of the size count, and returns 0, or aborts after the trigger with nothing sent. */
  ghost predicate WriteDone(out: Outcome, d: seq<Event>, regs: Window, addr: word, lutIndex: byte, size: SizeT,
                            buffer: seq<byte>, w: nat)
  {
    var n := size.low as nat;
    if n <= MAX_TRANSFER then
      && out == Returned(0) && n <= |buffer|
      && ServedWrite(d, regs, Job(addr, PORT_A1, Write, lutIndex, 1, size.low, buffer[..n]), w)
    else out == Aborted && Prologue(d, PORT_A1, addr, size.low, lutIndex, 1)
  }

  /* What a call of QSPI_Read or QSPI_ReadSample does to a buffer. */
  ghost predicate ReadDone(out: Outcome, d: seq<Event>, regs: Window, addr: word, lutIndex: byte, size: SizeT,
                           before: seq<byte>, after: seq<byte>, w: nat)
  {
    var n := size.low as nat;
    if size.Value() == 0 then out == Aborted && d == [] && after == before
    else if n <= MAX_TRANSFER then
      && out == Returned(0) && n <= |after| == |before|
      && ServedRead(d, regs, Job(addr, PORT_A1, Read, lutIndex, 1, size.low, after[..n]), w)
      && after[n..] == before[n..]
    else out == Aborted && Prologue(d, PORT_A1, addr, size.low, lutIndex, 1) && after == before
  }

  /* What a call of QSPI_Write with the whole buffer does: it sends it all. */
  ghost predicate SendsAll(out: Outcome, d: seq<Event>, regs: Window, buffer: seq<byte>, w: nat) {
    out == Returned(0) && |d| >= 7 && Sent(d[5..|d| - 2], regs, w, buffer)
  }

  /* A call of QSPI_Write sends the whole buffer of `size` bytes exactly when these are at
     most 1024: from 1025 to 65535 it aborts, and above it aborts or sends the front only. */
  lemma WholeBufferIff(out: Outcome, d: seq<Event>, regs: Window, addr: word, lutIndex: byte, size: SizeT,
                       buffer: seq<byte>, w: nat)
    requires WriteDone(out, d, regs, addr, lutIndex, size, buffer, w) && |buffer| == size.Value()
    ensures SendsAll(out, d, regs, buffer, w) <==> size.Value() <= 1024
  {
    hide Sent, SizeT.Value, ServedWrite, Prologue;
    SizeRange(size);
    if size.low as nat <= MAX_TRANSFER {
      var kept := buffer[..size.low as nat];
      ServedSends(d, regs, Job(addr, PORT_A1, Write, lutIndex, 1, size.low, kept), w);
      if size.high == 0 {
        assert kept == buffer;
      } else if |d| >= 7 {
        SentOnce(d[5..|d| - 2], regs, w, kept, buffer);
      }
    }
  }

  lemma SizeRange(size: SizeT)
    ensures if size.high == 0 then size.Value() == size.low as nat else size.Value() >= 0x1_0000
    ensures size.low as nat < 0x1_0000 && size.Value() % 0x1_0000 == size.low as nat
  {
    DivModUnique(size.Value(), size.high, size.low as nat, 0x1_0000);
  }

  lemma ServedSends(d: seq<Event>, regs: Window, job: Job, w: nat)
    requires ServedWrite(d, regs, job, w)
    ensures |d| >= 7 && Sent(d[5..|d| - 2], regs, w, job.data)
  {
    hide Sent, Prologue, Epilogue, JobFits, RegsAfter;
  }

  /* The register values and limits that driver and device agree on, by their numbers. */
  lemma ControllerNumbers()
    ensures BIT0 == 1 && SEQUENCE_POINTER_CLEAR == 1 << 31 && WTR_MASK == 0x7F << 2
    ensures LUTKEY_VALUE == 0x5AF0_5AF0 && LOCKER_LOCK == 1 && LOCKER_UNLOCK == 2
    ensures DATA_REGISTERS == 32 && LUT_BYTES == 128 * 4 && MAX_TRANSFER == 1024
    ensures PORT_A1 == 0 && LUT_INDEX_READ == 0
  {
  }

  /* The driver completes a read, a write or a configuration of at most 1024 bytes. */
  lemma AcceptedTransfers(xfer: Transfer)
    ensures xfer.Accepted() <==> xfer.cmdType in [Config, Read, Write] && xfer.dataSize as nat <= 1024
  {
  }

  /* A data phase cannot carry both at most 1024 bytes and 64 KiB. */
  lemma SentOnce(d: seq<Event>, regs: Window, w: nat, short: seq<byte>, long: seq<byte>)
    requires |short| <= MAX_TRANSFER && |long| >= 0x1_0000
    requires Sent(d, regs, w, short)
    ensures !Sent(d, regs, w, long)
  {
    hide Handshakes, Pushes, PushedWindows, Stream, WordPadded;
    ChunksIsCeiling(|short|, 8 * w);
    ChunksIsCeiling(|long|, 8 * w);
    PushedCarry(regs, w, short);
    if Fits(|long|, 8 * w) {
      PushedCarry(regs, w, long);
    }
  }

  /* QSPI_Read and QSPI_ReadSample return 0 exactly if the size is not 0 and what is kept of
     it is at most 1024, and have then filled the buffer exactly if the size itself is at most
     1024; of a multiple of 64 KiB nothing is kept, and they return 0 with nothing stored. */
  lemma ReadFillsIff(out: Outcome, d: seq<Event>, regs: Window, addr: word, lutIndex: byte, size: SizeT,
                     before: seq<byte>, after: seq<byte>, w: nat)
    requires ReadDone(out, d, regs, addr, lutIndex, size, before, after, w)
    ensures out == Returned(0) <==> size.Value() != 0 && size.Value() % 0x1_0000 <= 1024
    ensures out == Returned(0) && size.low as nat == size.Value() <==> 0 < size.Value() <= 1024
    ensures size.Value() % 0x1_0000 == 0 ==> after == before
  {
    hide ServedRead, Prologue, SizeT.Value;
    SizeRange(size);
    if size.high > 0 && size.low as nat == 0 {
      assert after[0..] == after && before[0..] == before;
    }
  }

  /* A write that aborts, one that sends 4 bytes of 65540 and returns 0, and a read that
     stores nothing and returns 0. */
  lemma SizesCutOff(out: Outcome, d: seq<Event>, regs: Window, addr: word, lutIndex: byte,
                    before: seq<byte>, after: seq<byte>, w: nat)
    ensures WriteDone(out, d, regs, addr, lutIndex, SizeT(0, 2000), before, w) ==> out == Aborted
    ensures WriteDone(out, d, regs, addr, lutIndex, SizeT(1, 4), before, w) ==>
              out == Returned(0) && |d| >= 7 && |before| >= 4 && Sent(d[5..|d| - 2], regs, w, before[..4])
    ensures ReadDone(out, d, regs, addr, lutIndex, SizeT(2, 0), before, after, w) ==>
              out == Returned(0) && after == before
  {
    hide Sent, Received, Prologue, Epilogue, JobFits, RegsAfter;
    if ReadDone(out, d, regs, addr, lutIndex, SizeT(2, 0), before, after, w) {
      ReadFillsIff(out, d, regs, addr, lutIndex, SizeT(2, 0), before, after, w);
    }
  }

  lemma PrologueParts(a: seq<Event>, b: seq<Event>, port: nat, address: word, size: bv16, seqIndex: byte,
                      seqNumber: byte)
    requires |a| == 2 && a[0] == ClearSequencePointer(port) && a[1].IsWriteBack()
    requires b == [FlushTx, FlushRx, Trigger(address, ConfigValue(size, seqIndex, seqNumber))]
    ensures Prologue(a + b, port, address, size, seqIndex, seqNumber)
  {
    hide ConfigValue;
  }

  /* The log of a command up to its trigger. */
  ghost predicate Started(d: seq<Event>, xfer: Transfer) {
    Prologue(d, xfer.port, xfer.deviceAddress, xfer.ConfiguredSize(), xfer.seqIndex, xfer.seqNumber)
  }

  ghost predicate ReceivedFlushed(d: seq<Event>, regs: Window, w: nat, data: seq<byte>) {
    d != [] && d[0] == FlushRx && Received(d[1..], regs, w, data)
  }

  /* The data phase of a transfer. */
  ghost predicate Streamed(d: seq<Event>, regs: Window, job: Job, tx: nat, rx: nat) {
    && JobFits(job, tx)
    && if job.cmdType.Read? then ReceivedFlushed(d, regs, rx, job.data) else Sent(d, regs, tx, job.data)
  }

  lemma ServedParts(a: seq<Event>, b: seq<Event>, c: seq<Event>, regs: Window, xfer: Transfer, job: Job,
                    tx: nat, rx: nat)
    requires Started(a, xfer) && xfer.Accepted() && Streamed(b, regs, job, tx, rx)
    requires Epilogue(c, RegsAfter(regs, job, tx))
    requires job == Job(xfer.deviceAddress, xfer.port, xfer.cmdType, xfer.seqIndex, xfer.seqNumber, xfer.dataSize,
                        job.data)
    requires |job.data| == job.size as nat
    ensures Served(a + b + c, regs, job, tx, rx)
  {
    hide Sent, Received, RegsAfter;
    var d := a + b + c;
    assert d[..5] == a && d[5..|d| - 2] == b && d[|d| - 2..] == c;
    if job.cmdType.Read? {
      assert d[5] == b[0] && d[6..|d| - 2] == b[1..];
      ReadLeavesRegs(regs, job, tx);
    }
  }

  lemma ReadLeavesRegs(regs: Window, job: Job, tx: nat)
    requires JobFits(job, tx) && job.cmdType.Read?
    ensures RegsAfter(regs, job, tx) == regs
  {
  }

  /* The bytes of one pass, with `left` of `size` bytes to come: they are the front of the
     registers that the pass reads, and no register less would hold them. */
  ghost predicate Taken(window: Window, watermark: nat, bytes: seq<byte>, size: nat, left: nat) {
    var n := WindowWords(size, 4 * watermark);
    && left == (if size >= 4 * watermark then size - 4 * watermark else 0)
    && |bytes| == size - left
    && n <= DATA_REGISTERS && |bytes| <= 4 * n < |bytes| + 4
    && bytes <= WordBytes(window[..n])
  }

  lemma TakenWhole(regs: Window, watermark: nat, bytes: seq<byte>, size: nat)
    requires 4 * watermark <= size && watermark <= DATA_REGISTERS
    requires bytes == WordBytes(regs[..watermark])
    ensures Taken(regs, watermark, bytes, size, size - 4 * watermark)
  {
    hide WordBytes;
  }

  lemma TakenPartial(regs: Window, watermark: nat, i: nat, bytes: seq<byte>)
    requires |bytes| < 4 * watermark && Fits(|bytes|, 4 * watermark) && i == |bytes| / 4
    requires |bytes| % 4 == 0 ==> bytes == WordBytes(regs[..i])
    requires |bytes| % 4 != 0 ==> i < DATA_REGISTERS && bytes == WordBytes(regs[..i]) + Store(regs[i])[..|bytes| % 4]
    ensures Taken(regs, watermark, bytes, |bytes|, 0)
  {
    hide WordBytes, Store;
    if |bytes| % 4 != 0 {
      WordBytesSnoc(regs[..i], regs[i]);
      assert regs[..i + 1] == regs[..i] + [regs[i]];
    }
  }

  /* What a pass takes is the front of the window that it pops. */
  lemma TakenHeld(window: Window, watermark: nat, bytes: seq<byte>, size: nat, left: nat)
    requires watermark > 0 && Taken(window, watermark, bytes, size, left)
    ensures var held := WordBytes(window[..RxDepth(watermark)]);
            bytes <= held && (left > 0 ==> bytes == held)
  {
    hide WordBytes;
    var n := WindowWords(size, 4 * watermark);
    assert (4 * watermark) / 4 == watermark;
    assert window[..RxDepth(watermark)][..n] == window[..n];
    WordBytesPrefix(window[..RxDepth(watermark)], n);
  }

  /* The loop invariant of read_blocking: the bytes stored so far are exactly what the
     popped windows held. */
  ghost predicate Receiving(d: seq<Event>, regs: Window, watermark: nat, bytes: seq<byte>, size: nat) {
    && watermark > 0
    && Handshakes(d, IPRXWA, regs) && Shows(d, regs)
    && |Pops(d)| + Chunks(size, 4 * watermark) == Chunks(|bytes| + size, 4 * watermark)
    && var held := Stream(Pops(d), RxDepth(watermark));
       if size == 0 then bytes <= held else bytes == held
  }

  lemma ReceivingStart(regs: Window, watermark: nat, n: nat)
    requires watermark > 0
    ensures Receiving([], regs, watermark, [], n)
  {
  }

  lemma ReceivingStep(d: seq<Event>, regs: Window, watermark: nat, bytes: seq<byte>, size: nat, left: nat,
                      next: seq<byte>, clearing: Event, asking: Event)
    requires 0 < size && Receiving(d, regs, watermark, bytes, size)
    requires clearing.WritesBack(IPRXWA) && asking.Asks(IPRXWA) && clearing.tfdr == asking.tfdr == regs
    requires |next| + left == size && Taken(asking.rfdr, watermark, next, size, left)
    ensures left < size && Receiving(d + [clearing, asking], regs, watermark, bytes + next, left)
  {
    hide Handshakes, Pops, Stream, WordBytes, HasBit;
    TakenHeld(asking.rfdr, watermark, next, size, left);
    HandshakesSnoc(d, IPRXWA, regs, clearing, asking);
    StreamSnoc(Pops(d), asking.rfdr, RxDepth(watermark));
  }

  lemma ReceivingEnd(d: seq<Event>, regs: Window, watermark: nat, bytes: seq<byte>)
    requires Receiving(d, regs, watermark, bytes, 0)
    ensures Received(d, regs, watermark, bytes)
  {
  }

  /* The loop invariant of write_blocking: with `size` bytes of `data` still to send and
     `now` in TFDR, the windows pushed so far and those to come are all of them. */
  ghost predicate Sending(d: seq<Event>, regs: Window, now: Window, w: nat, data: seq<byte>, size: nat) {
    && w > 0 && Fits(|data|, 8 * w) && size <= |data|
    && Handshakes(d, IPTXWE, regs) && now == LastTfdr(regs, d) == LastOr(regs, Pushes(d))
    && Pushes(d) + PushedWindows(now, w, data[|data| - size..]) == PushedWindows(regs, w, data)
  }

  lemma SendingStart(regs: Window, w: nat, data: seq<byte>)
    requires w > 0 && Fits(|data|, 8 * w)
    ensures Sending([], regs, regs, w, data, |data|)
  {
    hide PushedWindows, Fits;
    assert data[|data| - |data|..] == data;
  }

  lemma SendingStep(d: seq<Event>, regs: Window, now: Window, w: nat, data: seq<byte>, size: nat, left: nat,
                    clearing: Event, asking: Event)
    requires 0 < size && Sending(d, regs, now, w, data, size) && Fits(size, 8 * w)
    requires clearing.WritesBack(IPTXWE) && clearing.tfdr == now && asking.Asks(IPTXWE)
    requires asking.tfdr == Staged(now, w, data[|data| - size..]) && left == |Rest(data[|data| - size..], w)|
    ensures left < size && Sending(d + [clearing, asking], regs, asking.tfdr, w, data, left)
  {
    hide Staged, Fits, PushedWindows, Handshakes, Pushes, HasBit, LastTfdr;
    var rest := data[|data| - size..];
    assert data[|data| - left..] == Rest(rest, w);
    hide Rest;
    PushedFirst(now, w, rest);
    HandshakesSnoc(d, IPTXWE, regs, clearing, asking);
    var pushed, later := Pushes(d), PushedWindows(asking.tfdr, w, Rest(rest, w));
    assert pushed + [asking.tfdr] + later == pushed + ([asking.tfdr] + later);
  }

  lemma SendingEnd(d: seq<Event>, regs: Window, now: Window, w: nat, data: seq<byte>)
    requires Sending(d, regs, now, w, data, 0)
    ensures Sent(d, regs, w, data) && now == WrittenOver(regs, w, data)
  {
    hide Fits, PushedWindows, Handshakes, Pushes;
    assert data[|data| - 0..] == [];
    PushedNone(now, w);
    assert Pushes(d) + [] == Pushes(d);
  }

  lemma PushedNone(regs: Window, w: nat)
    requires w > 0
    ensures PushedWindows(regs, w, []) == []
  {
  }

  lemma PushedFirst(regs: Window, w: nat, data: seq<byte>)
    requires w > 0 && Fits(|data|, 8 * w) && data != []
    ensures Fits(|Rest(data, w)|, 8 * w)
    ensures PushedWindows(regs, w, data)
         == [Staged(regs, w, data)] + PushedWindows(Staged(regs, w, data), w, Rest(data, w))
  {
    hide Staged, Rest;
  }

  lemma StagedWhole(regs: Window, before: Window, w: nat, data: seq<byte>)
    requires w > 0 && Fits(|data|, 8 * w) && |data| >= 8 * w
    requires 2 * w <= DATA_REGISTERS && regs == BytesWords(data[..8 * w], 2 * w) + before[2 * w..]
    ensures regs == Staged(before, w, data)
    ensures |Rest(data, w)| == |data| - 8 * w
  {
    hide BytesWords;
  }

  lemma StagedPartial(regs: Window, before: Window, w: nat, data: seq<byte>, i: nat, tail: seq<word>)
    requires w > 0 && Fits(|data|, 8 * w) && |data| < 8 * w
    requires i == |data| / 4 && i + |tail| <= DATA_REGISTERS
    requires tail == if |data| % 4 == 0 then [] else [Load(ZeroPad(data[4 * i..]))]
    requires regs == BytesWords(data[..4 * i], i) + tail + before[i + |tail|..]
    ensures regs == Staged(before, w, data)
    ensures Rest(data, w) == []
  {
    hide BytesWords, Load, ZeroPad, WordPadded;
    PaddedWords(data, i, tail);
  }

  /* The words of the padded data are its whole words and, if a tail is left, the tail's. */
  lemma PaddedWords(data: seq<byte>, i: nat, tail: seq<word>)
    requires i == |data| / 4
    requires tail == if |data| % 4 == 0 then [] else [Load(ZeroPad(data[4 * i..]))]
    ensures |WordPadded(data)| == 4 * (i + |tail|)
    ensures BytesWords(WordPadded(data), i + |tail|) == BytesWords(data[..4 * i], i) + tail
  {
    hide Load, ZeroPad, WordPadded, BytesWords;
    PaddedSplit(data, i);
    if tail == [] {
      assert WordPadded(data) == data[..4 * i];
    } else {
      BytesWordsSnoc(data[..4 * i], ZeroPad(data[4 * i..]), i);
    }
  }

  lemma LoadZeros()
    ensures Load(ZeroPad([])) == 0
  {
  }

  lemma TxAsks(v: word, t: Window, r: Window)
    ensures Event.WriteIntr(IPTXWE, SetBit(v, IPTXWE), t, r).Asks(IPTXWE)
  {
  }

  lemma RxAsks(v: word, t: Window, r: Window)
    ensures Event.WriteIntr(IPRXWA, SetBit(v, IPRXWA), t, r).Asks(IPRXWA)
  {
  }

  lemma WordBytesPrefix(ws: seq<word>, k: nat)
    requires k <= |ws|
    ensures WordBytes(ws[..k]) <= WordBytes(ws)
  {
    hide *;
    assert ws == ws[..k] + ws[k..];
    WordBytesConcat(ws[..k], ws[k..]);
  }

  lemma PaddedSplit(data: seq<byte>, i: nat)
    requires i == |data| / 4
    ensures |data[4 * i..]| == |data| % 4
    ensures WordPadded(data) == data[..4 * i] + if |data| % 4 == 0 then [] else ZeroPad(data[4 * i..])
  {
    assert data == data[..4 * i] + data[4 * i..];
  }
}
