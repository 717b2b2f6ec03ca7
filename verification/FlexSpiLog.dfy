/**
 What the FlexSPI controller can observe of the driver, as a log of register writes,
 and two readings of such a log: the windows that it pushes and pops, and the commands
 that a device replaying it would execute.
 */
module FlexSpiLog {
  import opened Bytes
  import opened FlexSpiWindows

  const IPCMDDONE: word := 0x01           // INTR bit 0
  const IPTXWE: word := 0x40              // INTR bit 6: TX FIFO has room / push a window
  const IPRXWA: word := 0x80              // INTR bit 7: RX window available / pop it

  predicate HasBit(v: word, bit: word) {
    v & bit != 0
  }

  function SetBit(v: word, bit: word): word {
    v | bit
  }

  datatype Event =
    | ClearSequencePointer(port: nat)
    | FlushTx
    | FlushRx
    | Trigger(ipcr0: word, ipcr1: word)
    | CommandDone
      // A write of `value` to INTR whose statement asks for the bits in `ones`
      // (`INTR |= ones`; clear_flags asks for none and writes back what it read).
    | WriteIntr(ones: word, value: word, tfdr: Window, rfdr: Window)
  {
    predicate IsWriteBack() {
      WriteIntr? && ones == 0
    }

    predicate WritesBack(bit: word) {
      WriteIntr? && ones == 0 && HasBit(value, bit)
    }

    predicate Asks(bit: word) {
      WriteIntr? && ones == bit && HasBit(value, bit)
    }
  }

  //////////////////////////////////////////////////////////////////////////////
  // Shapes of the driver's log
  //////////////////////////////////////////////////////////////////////////////

  /* The windows of the INTR writes that ask for a push, and those that ask for a pop. */
  function Pushes(d: seq<Event>): seq<Window> {
    if d == [] then []
    else
      var e := d[|d| - 1];
      Pushes(d[..|d| - 1]) + if e.Asks(IPTXWE) then [e.tfdr] else []
  }

  function Pops(d: seq<Event>): seq<Window> {
    if d == [] then []
    else
      var e := d[|d| - 1];
      Pops(d[..|d| - 1]) + if e.Asks(IPRXWA) then [e.rfdr] else []
  }

  /* What TFDR holds after a run of INTR writes, if it held regs before. */
  function LastTfdr(regs: Window, d: seq<Event>): Window {
    if d != [] && d[|d| - 1].WriteIntr? then d[|d| - 1].tfdr else regs
  }

  /* A run of handshakes on one INTR bit, from regs in TFDR: the flags are written back with
     that bit found set and TFDR as it was, then the bit is asked for. */
  ghost predicate Handshakes(d: seq<Event>, bit: word, regs: Window) {
    || d == []
    || (&& |d| >= 2
        && Handshakes(d[..|d| - 2], bit, regs)
        && d[|d| - 2].WritesBack(bit) && d[|d| - 2].tfdr == LastTfdr(regs, d[..|d| - 2])
        && d[|d| - 1].Asks(bit))
  }

  lemma HandshakesSnoc(d: seq<Event>, bit: word, regs: Window, a: Event, b: Event)
    requires Handshakes(d, bit, regs)
    requires a.WritesBack(bit) && a.tfdr == LastTfdr(regs, d) && b.Asks(bit)
    ensures Handshakes(d + [a, b], bit, regs) && LastTfdr(regs, d + [a, b]) == b.tfdr
    ensures bit == IPTXWE ==> Pushes(d + [a, b]) == Pushes(d) + [b.tfdr]
    ensures bit == IPRXWA ==> Pops(d + [a, b]) == Pops(d) + [b.rfdr]
  {
    hide Handshakes, Pushes, Pops, HasBit;
    HandshakesLonger(d, bit, regs, a, b);
    assert d + [a, b] == d + [a] + [b];
    PushesPopsSnoc(d, a);
    PushesPopsSnoc(d + [a], b);
  }

  lemma HandshakesLonger(d: seq<Event>, bit: word, regs: Window, a: Event, b: Event)
    requires Handshakes(d, bit, regs) && a.WritesBack(bit) && a.tfdr == LastTfdr(regs, d) && b.Asks(bit)
    ensures Handshakes(d + [a, b], bit, regs)
  {
    hide HasBit, LastTfdr;
    var e := d + [a, b];
    assert e[..|e| - 2] == d;
  }

  lemma PushesPopsSnoc(d: seq<Event>, e: Event)
    ensures Pushes(d + [e]) == Pushes(d) + if e.Asks(IPTXWE) then [e.tfdr] else []
    ensures Pops(d + [e]) == Pops(d) + if e.Asks(IPRXWA) then [e.rfdr] else []
  {
    hide HasBit;
    assert (d + [e])[..|d|] == d;
  }

  /* TFDR holds regs all along. */
  ghost predicate Shows(d: seq<Event>, regs: Window) {
    forall k :: 0 <= k < |d| ==> d[k].WriteIntr? && d[k].tfdr == regs
  }

  datatype CommandType = Command | Config | Read | Write

  /* One transfer as its caller asked for it, with the bytes sent or received. */
  datatype Job = Job(address: word, port: nat, cmdType: CommandType, seqIndex: byte, seqNumber: byte,
                     size: bv16, data: seq<byte>)

  /* IPCR1: data size, sequence index, and sequence count less one (32-bit wrap-around). */
  function ConfigValue(size: bv16, seqIndex: byte, seqNumber: byte): word {
    (size as word) | ((seqIndex as word << 16) | ((seqNumber as word - 1) << 24))
  }

  /* The fields of IPCR1. */
  function SizeField(ipcr1: word): bv16 {
    (ipcr1 & 0xFFFF) as bv16
  }

  function IndexField(ipcr1: word): byte {
    ((ipcr1 >> 16) & 0xFF) as byte
  }

  function CountField(ipcr1: word): word {
    (ipcr1 >> 24) & 0xFF
  }

  /* The three fields of IPCR1 decode to what was asked for. The count field, read back
     as count + 1, is the requested number exactly when that is not zero. */
  lemma ConfigValueDecodes(size: bv16, seqIndex: byte, seqNumber: byte)
    ensures var c := ConfigValue(size, seqIndex, seqNumber);
            && SizeField(c) == size
            && IndexField(c) == seqIndex
            && (CountField(c) + 1 == seqNumber as word <==> seqNumber != 0)
  {
  }

  /* The fields are 16, 8 and 8 bits wide, from the least significant on. */
  lemma ConfigValueIsSum(size: bv16, seqIndex: byte, seqNumber: byte)
    ensures ConfigValue(size, seqIndex, seqNumber)
         == (size as word) + 0x1_0000 * (seqIndex as word) + 0x100_0000 * (seqNumber as word - 1)
  {
  }

  /* The INTR bits by their numbers. */
  lemma InterruptBits()
    ensures IPCMDDONE == 1 << 0 && IPTXWE == 1 << 6 && IPRXWA == 1 << 7
  {
  }

  /* Everything before the data phase: in particular both FIFOs are flushed before the
     trigger, which captures the address and the configuration. */
  ghost predicate Prologue(d: seq<Event>, port: nat, address: word, size: bv16, seqIndex: byte, seqNumber: byte) {
    && |d| == 5
    && d[0] == ClearSequencePointer(port)
    && d[1].IsWriteBack()
    && d[2] == FlushTx
    && d[3] == FlushRx
    && d[4] == Trigger(address, ConfigValue(size, seqIndex, seqNumber))
  }

  /* Everything after it; the last statement pushes TFDR once more. */
  ghost predicate Epilogue(d: seq<Event>, regs: Window) {
    |d| == 2 && d[0] == CommandDone && d[1].Asks(IPTXWE) && d[1].tfdr == regs
  }

  /* The data phase of a write, from regs in TFDR: every pushed window was waited for, and
     the windows are those that the passes over the data stage. */
  ghost predicate Sent(d: seq<Event>, regs: Window, w: nat, data: seq<byte>) {
    && w > 0 && Fits(|data|, 8 * w)
    && Handshakes(d, IPTXWE, regs)
    && Pushes(d) == PushedWindows(regs, w, data)
  }

  /* The data phase of a read, with regs in TFDR: every popped window was waited for, no
     window more than needed was popped, and the data is the front of what they held. */
  ghost predicate Received(d: seq<Event>, regs: Window, w: nat, data: seq<byte>) {
    && w > 0
    && Handshakes(d, IPRXWA, regs) && Shows(d, regs)
    && |Pops(d)| == Chunks(|data|, 4 * w)
    && data <= Stream(Pops(d), RxDepth(w))
  }

  /* A write's data fits the TFDR windows. */
  predicate JobFits(job: Job, w: nat) {
    w > 0 && (job.cmdType.Read? || Fits(|job.data|, 8 * w))
  }

  /* What a transfer leaves in TFDR. */
  function RegsAfter(regs: Window, job: Job, w: nat): Window
    requires JobFits(job, w)
  {
    if job.cmdType.Read? then regs else WrittenOver(regs, w, job.data)
  }

  /* The log of one complete write (or configuration) transfer at TX watermark w. */
  ghost predicate ServedWrite(d: seq<Event>, regs: Window, job: Job, w: nat) {
    && (job.cmdType.Write? || job.cmdType.Config?)
    && |job.data| == job.size as nat && JobFits(job, w)
    && |d| >= 7
    && Prologue(d[..5], job.port, job.address, job.size, job.seqIndex, job.seqNumber)
    && Sent(d[5..|d| - 2], regs, w, job.data)
    && Epilogue(d[|d| - 2..], RegsAfter(regs, job, w))
  }

  /* The log of one complete read transfer at RX watermark w: the second RX flush comes
     after the trigger, and only windows popped after it reach the caller. */
  ghost predicate ServedRead(d: seq<Event>, regs: Window, job: Job, w: nat) {
    && job.cmdType.Read?
    && |job.data| == job.size as nat
    && |d| >= 8
    && Prologue(d[..5], job.port, job.address, job.size, job.seqIndex, job.seqNumber)
    && d[5] == FlushRx
    && Received(d[6..|d| - 2], regs, w, job.data)
    && Epilogue(d[|d| - 2..], regs)
  }

  ghost predicate Served(d: seq<Event>, regs: Window, job: Job, tx: nat, rx: nat) {
    if job.cmdType.Read? then ServedRead(d, regs, job, rx) else ServedWrite(d, regs, job, tx)
  }

  //////////////////////////////////////////////////////////////////////////////
  // A device that replays the log
  //////////////////////////////////////////////////////////////////////////////

  /* A window that may have entered the TX FIFO: asked for, or offered by a write-back
     of INTR that happened to carry the push bit. */
  datatype Push = Push(asked: bool, words: Window)

  /* A command started by IPCMD, with all windows it found in or received through the FIFO. */
  datatype Executed = Executed(ipcr0: word, ipcr1: word, fed: seq<Push>)

  datatype Device = Device(running: bool, fifo: seq<Push>, done: seq<Executed>) {
    predicate Consistent() {
      running ==> done != []
    }
  }

  /* The device's reaction to one event. Windows pushed while no command runs stay in the
     FIFO, and the next command takes them unless they are flushed first. */
  function React(d: Device, e: Event): (r: Device)
    requires d.Consistent()
    ensures r.Consistent()
  {
    match e
    case ClearSequencePointer(_) => d
    case FlushRx => d
    case FlushTx => d.(fifo := [])
    case Trigger(a, c) => Device(true, [], d.done + [Executed(a, c, d.fifo)])
    case CommandDone => d.(running := false)
    case WriteIntr(ones, value, tfdr, _) =>
      if !HasBit(value, IPTXWE) then d
      else
        var p := Push(HasBit(ones, IPTXWE), tfdr);
        if d.running then
          var last := d.done[|d.done| - 1];
          d.(done := d.done[..|d.done| - 1] + [last.(fed := last.fed + [p])])
        else d.(fifo := d.fifo + [p])
  }

  function Replay(d: Device, log: seq<Event>): (r: Device)
    requires d.Consistent()
    ensures r.Consistent()
  {
    if log == [] then d else React(Replay(d, log[..|log| - 1]), log[|log| - 1])
  }

  /* The windows a command was asked to send. */
  function Asked(fed: seq<Push>): seq<Window> {
    if fed == [] then []
    else
      var p := fed[|fed| - 1];
      Asked(fed[..|fed| - 1]) + if p.asked then [p.words] else []
  }
}
