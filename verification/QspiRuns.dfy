/**
 Whole runs of the driver: what a device that replays the log executes over any sequence
 of transfers, the loopback of a written buffer through windows of another size, and the
 contents of the LUT after any sequence of set-ups.
 */
module QspiRuns {
  import opened Arithmetic
  import opened Bytes
  import opened Sequences
  import opened FlexSpiWindows
  import opened FlexSpiLog
  import opened Qspi

  //////////////////////////////////////////////////////////////////////////////
  // Replaying transfers
  //////////////////////////////////////////////////////////////////////////////

  /* The windows that a run of events may have put into the TX FIFO. */
  function Offered(d: seq<Event>): seq<Push> {
    if d == [] then []
    else
      var e := d[|d| - 1];
      Offered(d[..|d| - 1])
      + if e.WriteIntr? && HasBit(e.value, IPTXWE) then [Push(HasBit(e.ones, IPTXWE), e.tfdr)] else []
  }

  lemma {:induction false} ReplayConcat(dev: Device, a: seq<Event>, b: seq<Event>)
    requires dev.Consistent()
    ensures Replay(dev, a + b) == Replay(Replay(dev, a), b)
    decreases |b|
  {
    hide React;
    if b == [] {
      assert a + b == a;
    } else {
      var m := |b| - 1;
      ReplayConcat(dev, a, b[..m]);
      assert (a + b)[..|a + b| - 1] == a + b[..m];
    }
  }

  ghost predicate OnlyIntrWrites(d: seq<Event>) {
    forall k :: 0 <= k < |d| ==> d[k].WriteIntr?
  }

  lemma {:induction false} HandshakesOnlyWriteIntr(d: seq<Event>, bit: word, regs: Window)
    requires Handshakes(d, bit, regs)
    ensures OnlyIntrWrites(d)
    decreases |d|
  {
    if d != [] {
      HandshakesOnlyWriteIntr(d[..|d| - 2], bit, regs);
    }
  }

  /* The executed command e after it was offered more windows. */
  function Fed(e: Executed, more: seq<Push>): Executed {
    e.(fed := e.fed + more)
  }

  /* While a command runs, whatever is offered goes to that command and to no other. */
  lemma {:induction false} ReplayRunning(dev: Device, d: seq<Event>)
    requires dev.Consistent() && dev.running
    requires OnlyIntrWrites(d)
    ensures var n := |dev.done| - 1;
            Replay(dev, d) == dev.(done := dev.done[..n] + [Fed(dev.done[n], Offered(d))])
    decreases |d|
  {
    hide HasBit;
    var n := |dev.done| - 1;
    if d == [] {
      assert Fed(dev.done[n], []) == dev.done[n];
    } else {
      var init, e := d[..|d| - 1], d[|d| - 1];
      ReplayRunning(dev, init);
      if HasBit(e.value, IPTXWE) {
        FedTwice(dev.done[n], Offered(init), [Push(HasBit(e.ones, IPTXWE), e.tfdr)]);
      } else {
        assert Offered(d) == Offered(init);
      }
    }
  }

  lemma FedTwice(e: Executed, a: seq<Push>, b: seq<Push>)
    ensures Fed(Fed(e, a), b) == Fed(e, a + b)
  {
    assert e.fed + a + b == e.fed + (a + b);
  }

  /* What a data phase offers that pushes the windows ws from regs in TFDR: before each push,
     the write-back of INTR offers what TFDR holds by then, which is the window before. */
  function Interleaved(regs: Window, ws: seq<Window>): seq<Push> {
    if ws == [] then []
    else
      var init := ws[..|ws| - 1];
      Interleaved(regs, init) + [Push(false, LastOr(regs, init)), Push(true, ws[|ws| - 1])]
  }

  /* Of the windows that a write offers, the asked ones are those pushed. If the controller
     acted on every 1 that is written, it would take the window before each of them as well:
     first what TFDR held before the write, and each window but the last a second time. */
  lemma {:induction false} OfferedByWrite(d: seq<Event>, regs: Window)
    requires Handshakes(d, IPTXWE, regs)
    ensures Offered(d) == Interleaved(regs, Pushes(d)) && Asked(Offered(d)) == Pushes(d)
    ensures LastTfdr(regs, d) == LastOr(regs, Pushes(d))
    decreases |d|
  {
    if d != [] {
      hide HasBit, Offered, Asked, Pushes;
      var p, a, b := d[..|d| - 2], d[|d| - 2], d[|d| - 1];
      assert d == p + [a, b];
      OfferedByWrite(p, regs);
      HandshakesSnoc(p, IPTXWE, regs, a, b);
      OfferedPair(p, a, b);
      var ws := Pushes(p);
      assert (ws + [b.tfdr])[..|ws|] == ws;
      AskedPair(Offered(p), Push(false, a.tfdr), Push(true, b.tfdr));
    }
  }

  lemma OfferedPair(p: seq<Event>, a: Event, b: Event)
    requires a.WritesBack(IPTXWE) && b.Asks(IPTXWE)
    ensures Offered(p + [a, b]) == Offered(p) + [Push(false, a.tfdr), Push(true, b.tfdr)]
  {
    hide HasBit, Offered;
    PushBits();
    OfferedSnoc(p, a);
    OfferedSnoc(p + [a], b);
    assert p + [a] + [b] == p + [a, b];
  }

  lemma AskedPair(fed: seq<Push>, a: Push, b: Push)
    requires !a.asked && b.asked
    ensures Asked(fed + [a, b]) == Asked(fed) + [b.words]
  {
    assert (fed + [a, b])[..|fed| + 1] == fed + [a] && (fed + [a])[..|fed|] == fed;
  }

  lemma PushBits()
    ensures !HasBit(0, IPTXWE) && HasBit(IPTXWE, IPTXWE) && !HasBit(IPRXWA, IPTXWE)
  {
  }

  lemma OfferedSnoc(d: seq<Event>, e: Event)
    requires e.WriteIntr?
    ensures Offered(d + [e])
         == Offered(d) + if HasBit(e.value, IPTXWE) then [Push(HasBit(e.ones, IPTXWE), e.tfdr)] else []
  {
    hide HasBit;
    assert (d + [e])[..|d|] == d;
  }

  /* Nothing but unasked offers of the same window. */
  ghost predicate OnlyOld(fed: seq<Push>, regs: Window) {
    forall k :: 0 <= k < |fed| ==> fed[k] == Push(false, regs)
  }

  /* A read asks for no push; what its write-backs offer is what TFDR holds all along. */
  lemma {:induction false} OfferedByRead(d: seq<Event>, regs: Window)
    requires Handshakes(d, IPRXWA, regs) && Shows(d, regs)
    ensures OnlyOld(Offered(d), regs) && Asked(Offered(d)) == []
    decreases |d|
  {
    if d != [] {
      hide HasBit, Offered, Asked;
      var p, a, b := d[..|d| - 2], d[|d| - 2], d[|d| - 1];
      assert d == p + [a] + [b];
      assert Shows(p, regs);
      OfferedByRead(p, regs);
      PushBits();
      OfferedSnoc(p, a);
      OfferedSnoc(p + [a], b);
    }
    NoneAsked(Offered(d), regs);
  }

  lemma {:induction false} NoneAsked(fed: seq<Push>, regs: Window)
    requires OnlyOld(fed, regs)
    ensures Asked(fed) == []
    decreases |fed|
  {
    if fed != [] {
      NoneAsked(fed[..|fed| - 1], regs);
    }
  }

  /* The command e is the one the job asked for, of a transfer that started with regs in TFDR:
     its registers decode to the job's address, size, sequence index and count; a write was
     offered exactly the windows that its own passes stage, each behind the window before,
     and a read nothing but unasked offers of what TFDR held. */
  ghost predicate Executes(e: Executed, regs: Window, job: Job, tx: nat) {
    && JobFits(job, tx)
    && e.ipcr0 == job.address
    && SizeField(e.ipcr1) == job.size
    && IndexField(e.ipcr1) == job.seqIndex
    && (CountField(e.ipcr1) + 1 == job.seqNumber as word <==> job.seqNumber != 0)
    && (if job.cmdType.Read? then OnlyOld(e.fed, regs)
        else
          var ws := PushedWindows(regs, tx, job.data);
          e.fed == Interleaved(regs, ws) && Asked(e.fed) == ws)
  }

  ghost predicate AllFit(jobs: seq<Job>, tx: nat) {
    forall k :: 0 <= k < |jobs| ==> JobFits(jobs[k], tx)
  }

  /* What a run of transfers leaves in TFDR. */
  function RegsAfterAll(regs: Window, jobs: seq<Job>, tx: nat): Window
    requires AllFit(jobs, tx)
    decreases |jobs|
  {
    if jobs == [] then regs
    else
      var m := |jobs| - 1;
      assert AllFit(jobs[..m], tx);
      RegsAfter(RegsAfterAll(regs, jobs[..m], tx), jobs[m], tx)
  }

  /* Every transfer is served from what the ones before it left in TFDR. */
  ghost predicate ServedAll(ds: seq<seq<Event>>, regs: Window, jobs: seq<Job>, tx: nat, rx: nat)
    decreases |ds|
  {
    && |ds| == |jobs| && AllFit(jobs, tx)
    && (ds != [] ==>
          var m := |ds| - 1;
          assert AllFit(jobs[..m], tx);
          && ServedAll(ds[..m], regs, jobs[..m], tx, rx)
          && Served(ds[m], RegsAfterAll(regs, jobs[..m], tx), jobs[m], tx, rx))
  }

  /* The k-th executed command is the k-th job's, from what the jobs before it left. */
  ghost predicate ExecutesAll(es: seq<Executed>, regs: Window, jobs: seq<Job>, tx: nat) {
    && |es| == |jobs| && AllFit(jobs, tx)
    && forall k :: 0 <= k < |jobs| ==> ExecutesAt(es, regs, jobs, tx, k)
  }

  ghost predicate ExecutesAt(es: seq<Executed>, regs: Window, jobs: seq<Job>, tx: nat, k: nat)
    requires |es| == |jobs| && AllFit(jobs, tx) && k < |jobs|
  {
    assert AllFit(jobs[..k], tx);
    Executes(es[k], RegsAfterAll(regs, jobs[..k], tx), jobs[k], tx)
  }

  /* The state of the device between transfers: idle, with exactly one leftover window in
     the FIFO, pushed by the last statement of the previous transfer. */
  ghost predicate Leftover(dev: Device, regs: Window) {
    !dev.running && dev.fifo == [Push(true, regs)]
  }

  lemma ReplayPrologue(dev: Device, p: seq<Event>, job: Job)
    requires dev.Consistent() && !dev.running
    requires Prologue(p, job.port, job.address, job.size, job.seqIndex, job.seqNumber)
    ensures Replay(dev, p) == Device(true, [], dev.done + [Command(job, [])])
  {
    hide ConfigValue, HasBit;
    var p4, p3, p2, p1 := p[..4], p[..3], p[..2], p[..1];
    assert p4[..3] == p3 && p3[..2] == p2 && p2[..1] == p1 && p1[..0] == [];
    assert Replay(dev, p1) == dev;
    assert Replay(dev, p2).done == dev.done && !Replay(dev, p2).running;
    assert Replay(dev, p3) == Device(false, [], dev.done);
    assert Replay(dev, p4) == Device(false, [], dev.done);
    assert p[..|p| - 1] == p4;
  }

  lemma ReplayEpilogue(dev: Device, p: seq<Event>, regs: Window)
    requires dev.Consistent() && dev.fifo == []
    requires Epilogue(p, regs)
    ensures Replay(dev, p) == Device(false, [Push(true, regs)], dev.done)
  {
    assert p[..1][..0] == [];
    assert Replay(dev, p[..1]) == dev.(running := false);
    assert p[..|p| - 1] == p[..1];
  }

  lemma ReplayFlushRx(dev: Device, flush: seq<Event>)
    requires dev.Consistent()
    requires flush == [] || flush == [FlushRx]
    ensures Replay(dev, flush) == dev
  {
    if flush != [] {
      assert flush[..0] == [];
    }
  }

  /* A data phase between prologue and epilogue, seen by the device. */
  lemma ReplayTransfer(dev: Device, p: seq<Event>, flush: seq<Event>, hs: seq<Event>, q: seq<Event>, regs: Window,
                       job: Job)
    requires dev.Consistent() && !dev.running
    requires Prologue(p, job.port, job.address, job.size, job.seqIndex, job.seqNumber)
    requires flush == [] || flush == [FlushRx]
    requires OnlyIntrWrites(hs) && Epilogue(q, regs)
    ensures var r := Replay(dev, p + flush + hs + q);
            Leftover(r, regs) && r.done == dev.done + [Command(job, Offered(hs))]
  {
    hide ConfigValue, HasBit, Offered, Prologue, Epilogue, Replay, OnlyIntrWrites;
    ReplayConcat(dev, p + flush + hs, q);
    ReplayConcat(dev, p + flush, hs);
    ReplayConcat(dev, p, flush);
    ReplayPrologue(dev, p, job);
    var started := Replay(dev, p);
    ReplayFlushRx(started, flush);
    ReplayRunning(started, hs);
    assert [] + Offered(hs) == Offered(hs);
    assert started.done[..|dev.done|] == dev.done;
    ReplayEpilogue(Replay(started, hs), q, regs);
  }

  /* The command that a transfer triggers, with what it is fed. */
  function Command(job: Job, fed: seq<Push>): Executed {
    Executed(job.address, ConfigValue(job.size, job.seqIndex, job.seqNumber), fed)
  }

  /* One transfer, from regs in TFDR: the device executes exactly one more command, and it is
     the job's, whatever the FIFO held before. */
  lemma OneTransfer(dev: Device, d: seq<Event>, regs: Window, job: Job, tx: nat, rx: nat)
    requires dev.Consistent() && !dev.running
    requires JobFits(job, tx) && Served(d, regs, job, tx, rx)
    ensures var r := Replay(dev, d);
            && Leftover(r, RegsAfter(regs, job, tx))
            && |r.done| == |dev.done| + 1 && r.done[..|dev.done|] == dev.done
            && Executes(r.done[|dev.done|], regs, job, tx)
  {
    hide ServedWrite, ServedRead, Replay, Executes, JobFits;
    if job.cmdType.Read? {
      OneRead(dev, d, regs, job, tx, rx);
    } else {
      OneWrite(dev, d, regs, job, tx);
    }
  }

  lemma OneWrite(dev: Device, d: seq<Event>, regs: Window, job: Job, tx: nat)
    requires dev.Consistent() && !dev.running
    requires JobFits(job, tx) && ServedWrite(d, regs, job, tx)
    ensures var r := Replay(dev, d);
            && Leftover(r, RegsAfter(regs, job, tx))
            && |r.done| == |dev.done| + 1 && r.done[..|dev.done|] == dev.done
            && Executes(r.done[|dev.done|], regs, job, tx)
  {
    hide Command, Prologue, Epilogue, Offered, OnlyIntrWrites, Replay, Sent, Executes, Leftover, RegsAfter;
    var hs := d[5..|d| - 2];
    SentHandshakes(hs, regs, tx, job.data);
    HandshakesOnlyWriteIntr(hs, IPTXWE, regs);
    ExecutesWrite(hs, regs, job, tx);
    assert d == d[..5] + [] + hs + d[|d| - 2..];
    ReplayTransfer(dev, d[..5], [], hs, d[|d| - 2..], RegsAfter(regs, job, tx), job);
  }

  lemma OneRead(dev: Device, d: seq<Event>, regs: Window, job: Job, tx: nat, rx: nat)
    requires dev.Consistent() && !dev.running
    requires JobFits(job, tx) && ServedRead(d, regs, job, rx)
    ensures var r := Replay(dev, d);
            && Leftover(r, RegsAfter(regs, job, tx))
            && |r.done| == |dev.done| + 1 && r.done[..|dev.done|] == dev.done
            && Executes(r.done[|dev.done|], regs, job, tx)
  {
    hide Command, Prologue, Epilogue, Offered, OnlyIntrWrites, Replay, Received, Executes, Leftover;
    var hs := d[6..|d| - 2];
    ReceivedHandshakes(hs, regs, rx, job.data);
    HandshakesOnlyWriteIntr(hs, IPRXWA, regs);
    ExecutesRead(hs, regs, job, tx, rx);
    assert d == d[..5] + [FlushRx] + hs + d[|d| - 2..];
    ReplayTransfer(dev, d[..5], [FlushRx], hs, d[|d| - 2..], regs, job);
  }

  /* In the log of a transfer there is one trigger. The sequence pointer of its port is cleared
     and both FIFOs are flushed before it, the TX FIFO only there and the RX FIFO once more
     after it for a read; the flags are written back first; the command is waited for once,
     after the data phase, and TFDR is pushed once more at the end. */
  lemma ServedOrder(d: seq<Event>, regs: Window, job: Job, tx: nat, rx: nat, k: nat)
    requires Served(d, regs, job, tx, rx) && k < |d|
    ensures d[k].Trigger? <==> k == 4
    ensures d[k].FlushTx? <==> k == 2
    ensures d[k].CommandDone? <==> k == |d| - 2
    ensures d[k].ClearSequencePointer? <==> k == 0
    ensures |d| > 6 && d[0] == ClearSequencePointer(job.port) && d[3] == FlushRx
    ensures d[1].WriteIntr? && d[1].ones == 0
    ensures job.cmdType.Read? ==> d[5] == FlushRx
    ensures d[|d| - 1].WriteIntr? && d[|d| - 1].ones == 1 << 6
  {
    hide Sent, Received, RegsAfter, HasBit, JobFits, ConfigValue, Handshakes;
    var from := if job.cmdType.Read? then 6 else 5;
    var hs := d[from..|d| - 2];
    if job.cmdType.Read? {
      ReceivedHandshakes(hs, regs, rx, job.data);
      HandshakesOnlyWriteIntr(hs, IPRXWA, regs);
    } else {
      SentHandshakes(hs, regs, tx, job.data);
      HandshakesOnlyWriteIntr(hs, IPTXWE, regs);
    }
    if from <= k < |d| - 2 {
      assert hs[k - from].WriteIntr?;
    } else if k < 5 {
      assert d[..5][k] == d[k];
    } else if k >= |d| - 2 {
      assert d[|d| - 2..][k - (|d| - 2)] == d[k];
    }
    assert d[..5][0] == d[0] && d[..5][1] == d[1] && d[..5][3] == d[3];
    assert d[|d| - 2..][1] == d[|d| - 1];
  }

  lemma SentHandshakes(hs: seq<Event>, regs: Window, tx: nat, data: seq<byte>)
    requires Sent(hs, regs, tx, data)
    ensures Handshakes(hs, IPTXWE, regs)
  {
  }

  lemma ReceivedHandshakes(hs: seq<Event>, regs: Window, rx: nat, data: seq<byte>)
    requires Received(hs, regs, rx, data)
    ensures Handshakes(hs, IPRXWA, regs)
  {
  }

  lemma ExecutesWrite(hs: seq<Event>, regs: Window, job: Job, tx: nat)
    requires JobFits(job, tx) && !job.cmdType.Read? && Sent(hs, regs, tx, job.data)
    ensures Executes(Command(job, Offered(hs)), regs, job, tx)
  {
    hide ConfigValue, SizeField, IndexField, CountField, Offered, Asked, Pushes, PushedWindows, Interleaved, Handshakes;
    ConfigValueDecodes(job.size, job.seqIndex, job.seqNumber);
    OfferedByWrite(hs, regs);
  }

  lemma ExecutesRead(hs: seq<Event>, regs: Window, job: Job, tx: nat, rx: nat)
    requires JobFits(job, tx) && job.cmdType.Read? && Received(hs, regs, rx, job.data)
    ensures Executes(Command(job, Offered(hs)), regs, job, tx)
  {
    hide ConfigValue, SizeField, IndexField, CountField, Offered, OnlyOld, Shows, Handshakes;
    ConfigValueDecodes(job.size, job.seqIndex, job.seqNumber);
    OfferedByRead(hs, regs);
  }

  function Flatten(ds: seq<seq<Event>>): seq<Event> {
    if ds == [] then [] else Flatten(ds[..|ds| - 1]) + ds[|ds| - 1]
  }

  /* Any run of transfers, from regs in TFDR: the device executes one command per transfer, in
     order. The k-th has the k-th job's registers and is offered exactly the windows of its
     own data phase, as they come about from what the transfers before it left in TFDR. */
  lemma {:induction false} EveryTransfer(dev: Device, ds: seq<seq<Event>>, regs: Window, jobs: seq<Job>,
                                         tx: nat, rx: nat)
    requires dev.Consistent() && !dev.running
    requires ServedAll(ds, regs, jobs, tx, rx)
    ensures var r := Replay(dev, Flatten(ds));
            && !r.running && AllFit(jobs, tx) && (ds != [] ==> Leftover(r, RegsAfterAll(regs, jobs, tx)))
            && |r.done| >= |dev.done| && r.done[..|dev.done|] == dev.done
            && ExecutesAll(r.done[|dev.done|..], regs, jobs, tx)
    decreases |ds|
  {
    hide Served, Executes, ExecutesAll, Replay, RegsAfter, JobFits;
    var n := |dev.done|;
    if ds == [] {
      NothingServed(dev, regs, jobs, tx);
    } else {
      var m := |ds| - 1;
      EveryTransfer(dev, ds[..m], regs, jobs[..m], tx, rx);
      var before := Replay(dev, Flatten(ds[..m]));
      ReplayConcat(dev, Flatten(ds[..m]), ds[m]);
      OneTransfer(before, ds[m], RegsAfterAll(regs, jobs[..m], tx), jobs[m], tx, rx);
      var after := Replay(before, ds[m]);
      ExecutesSnoc(before.done[n..], regs, jobs[..m], after.done[|before.done|], jobs[m], tx);
      LongerByOne(before.done, after.done, n);
      assert jobs == jobs[..m] + [jobs[m]];
    }
  }

  /* What the device makes of a write that it executed: the windows it was asked to send, cut
     at the size in IPCR1, are the job's bytes. Whatever an earlier transfer left in TFDR is
     behind them. */
  lemma ExecutedBytes(e: Executed, regs: Window, job: Job, tx: nat)
    requires Executes(e, regs, job, tx) && !job.cmdType.Read? && |job.data| == job.size as nat
    ensures Cut(Stream(Asked(e.fed), TxDepth(tx)), SizeField(e.ipcr1) as nat) == job.data
  {
    hide *;
    ExecutedFacts(e, regs, job, tx);
    PushedPadded(regs, job, tx);
    CutPadded(Stream(Asked(e.fed), TxDepth(tx)), job.data);
  }

  lemma ExecutedFacts(e: Executed, regs: Window, job: Job, tx: nat)
    requires Executes(e, regs, job, tx) && !job.cmdType.Read?
    ensures JobFits(job, tx) && tx > 0 && Fits(|job.data|, 8 * tx)
    ensures SizeField(e.ipcr1) == job.size && Asked(e.fed) == PushedWindows(regs, tx, job.data)
  {
    hide SizeField, IndexField, CountField, PushedWindows, Asked, Interleaved, Fits;
  }

  lemma PushedPadded(regs: Window, job: Job, tx: nat)
    requires tx > 0 && Fits(|job.data|, 8 * tx)
    ensures WordPadded(job.data) <= Stream(PushedWindows(regs, tx, job.data), TxDepth(tx))
  {
    hide PushedWindows, Stream, WordPadded, Chunks;
    PushedCarry(regs, tx, job.data);
  }

  /* Words of an earlier transfer, in any run: if transfer k is a write of a single partial
     window, and j is the last write before it that sent anything, then the window that k was
     asked to send holds, behind the words of k, the words that the last window of j had
     there. */
  lemma EarlierWords(es: seq<Executed>, regs: Window, jobs: seq<Job>, tx: nat, j: nat, k: nat)
    requires ExecutesAll(es, regs, jobs, tx)
    requires j < k < |jobs|
    requires !jobs[k].cmdType.Read? && 0 < |jobs[k].data| < 8 * tx
    requires !jobs[j].cmdType.Read? && jobs[j].data != []
    requires forall i :: j < i < k ==> LeavesTfdr(jobs[i])
    ensures var ps, qs := Asked(es[j].fed), Asked(es[k].fed);
            var n := WindowWords(|jobs[k].data|, 8 * tx);
            |ps| > 0 && |qs| == 1 && n <= DATA_REGISTERS && qs[0][n..] == ps[|ps| - 1][n..]
  {
    hide Executes, PushedWindows, WordPadded, WordBytes, WindowWords;
    assert ExecutesAt(es, regs, jobs, tx, j) && ExecutesAt(es, regs, jobs, tx, k);
    assert AllFit(jobs[..j], tx) && AllFit(jobs[..j + 1], tx) && AllFit(jobs[..k], tx);
    var r, s := RegsAfterAll(regs, jobs[..j], tx), RegsAfterAll(regs, jobs[..k], tx);
    ExecutedFacts(es[j], r, jobs[j], tx);
    ExecutedFacts(es[k], s, jobs[k], tx);
    LastPass(s, tx, jobs[k].data);
    assert jobs[..j + 1][..j] == jobs[..j];
    SomethingPushed(r, tx, jobs[j].data);
    RegsKept(regs, jobs, tx, j + 1, k);
  }

  /* A read, or a write of nothing. */
  predicate LeavesTfdr(job: Job) {
    job.cmdType.Read? || job.data == []
  }

  lemma SomethingPushed(regs: Window, tx: nat, data: seq<byte>)
    requires tx > 0 && Fits(|data|, 8 * tx) && data != []
    ensures PushedWindows(regs, tx, data) != []
  {
  }

  lemma {:induction false} RegsKept(regs: Window, jobs: seq<Job>, tx: nat, j: nat, k: nat)
    requires j <= k <= |jobs| && AllFit(jobs, tx)
    requires forall i :: j <= i < k ==> LeavesTfdr(jobs[i])
    ensures AllFit(jobs[..j], tx) && AllFit(jobs[..k], tx)
    ensures RegsAfterAll(regs, jobs[..k], tx) == RegsAfterAll(regs, jobs[..j], tx)
    decreases k
  {
    hide JobFits;
    if j < k {
      RegsKept(regs, jobs, tx, j, k - 1);
      assert jobs[..k][..k - 1] == jobs[..k - 1];
      NothingWritten(RegsAfterAll(regs, jobs[..k - 1], tx), jobs[k - 1], tx);
    }
  }

  lemma NothingWritten(regs: Window, job: Job, tx: nat)
    requires JobFits(job, tx) && LeavesTfdr(job)
    ensures RegsAfter(regs, job, tx) == regs
  {
  }

  lemma CutPadded(wire: seq<byte>, data: seq<byte>)
    requires WordPadded(data) <= wire
    ensures Cut(wire, |data|) == data
  {
    assert data <= WordPadded(data);
  }

  lemma LongerByOne(s: seq<Executed>, t: seq<Executed>, n: nat)
    requires n <= |s| && |t| == |s| + 1 && t[..|s|] == s
    ensures t[..n] == s[..n] && t[n..] == s[n..] + [t[|s|]]
  {
    assert t == s + [t[|s|]];
  }

  lemma NothingServed(dev: Device, regs: Window, jobs: seq<Job>, tx: nat)
    requires dev.Consistent() && jobs == []
    ensures Replay(dev, Flatten([])) == dev
    ensures ExecutesAll(dev.done[|dev.done|..], regs, jobs, tx)
  {
  }

  lemma ExecutesSnoc(es: seq<Executed>, regs: Window, jobs: seq<Job>, e: Executed, job: Job, tx: nat)
    requires ExecutesAll(es, regs, jobs, tx) && JobFits(job, tx)
    requires Executes(e, RegsAfterAll(regs, jobs, tx), job, tx)
    ensures ExecutesAll(es + [e], regs, jobs + [job], tx)
  {
    hide Executes, RegsAfterAll, JobFits;
    var fs, ks := es + [e], jobs + [job];
    assert ks[..|jobs|] == jobs;
    forall k | 0 <= k < |ks|
      ensures ExecutesAt(fs, regs, ks, tx, k)
    {
      if k < |jobs| {
        assert ExecutesAt(es, regs, jobs, tx, k);
        assert ks[..k] == jobs[..k];
      }
    }
  }

  //////////////////////////////////////////////////////////////////////////////
  // Loopback
  //////////////////////////////////////////////////////////////////////////////

  /* The bytes of k windows. */
  function Extent(k: nat, depth: nat): nat {
    k * (4 * depth)
  }

  lemma ExtentNext(k: nat, depth: nat)
    ensures Extent(k + 1, depth) == Extent(k, depth) + 4 * depth
  {
    Distribute(k, 1, 4 * depth);
  }

  lemma {:induction false} ExtentOrder(k: nat, m: nat, depth: nat)
    requires k <= m
    ensures Extent(k, depth) <= Extent(m, depth)
    decreases m
  {
    if k < m {
      hide Extent;
      ExtentNext(m - 1, depth);
      ExtentOrder(k, m - 1, depth);
    }
  }

  /* The k-th window's share of the bytes s. */
  function Share(s: seq<byte>, k: nat, depth: nat): seq<byte> {
    ExtentNext(k, depth);
    if Extent(k + 1, depth) <= |s| then s[Extent(k, depth)..Extent(k + 1, depth)] else []
  }

  /* The front words of these windows hold the bytes s, one window's share after another.
     The registers behind them may hold anything. */
  ghost predicate Presents(ws: seq<Window>, depth: nat, s: seq<byte>)
    requires depth <= DATA_REGISTERS
  {
    && |s| == Extent(|ws|, depth)
    && forall k :: 0 <= k < |ws| ==> WordBytes(ws[k][..depth]) == Share(s, k, depth)
  }

  lemma {:induction false} PresentedStream(ws: seq<Window>, depth: nat, s: seq<byte>)
    requires depth <= DATA_REGISTERS && Presents(ws, depth, s)
    ensures Stream(ws, depth) == s
    decreases |ws|
  {
    hide Presents, WordBytes, Stream, Extent;
    if ws == [] {
      NothingPresented(depth, s);
    } else {
      var m := |ws| - 1;
      PresentsPop(ws, depth, s);
      PresentedStream(ws[..m], depth, s[..Extent(m, depth)]);
      assert ws == ws[..m] + [ws[m]];
      StreamSnoc(ws[..m], ws[m], depth);
    }
  }

  lemma NothingPresented(depth: nat, s: seq<byte>)
    requires depth <= DATA_REGISTERS && Presents([], depth, s)
    ensures s == [] && Stream([], depth) == []
  {
  }

  /* The last window holds what is behind the shares of the others. */
  lemma PresentsPop(ws: seq<Window>, depth: nat, s: seq<byte>)
    requires depth <= DATA_REGISTERS && ws != [] && Presents(ws, depth, s)
    ensures Extent(|ws| - 1, depth) <= |s|
    ensures Presents(ws[..|ws| - 1], depth, s[..Extent(|ws| - 1, depth)])
    ensures s == s[..Extent(|ws| - 1, depth)] + WordBytes(ws[|ws| - 1][..depth])
  {
    hide WordBytes, Extent;
    var m := |ws| - 1;
    ExtentNext(m, depth);
    forall k | 0 <= k < m
      ensures WordBytes(ws[..m][k][..depth]) == Share(s[..Extent(m, depth)], k, depth)
    {
      ExtentNext(k, depth);
      ExtentOrder(k + 1, m, depth);
    }
  }

  /* Windows hold their shares of the stream that they carry. */
  lemma {:induction false} StreamShares(ws: seq<Window>, depth: nat)
    requires depth <= DATA_REGISTERS
    ensures Presents(ws, depth, Stream(ws, depth))
    decreases |ws|
  {
    hide WordBytes, Extent, Stream, Presents;
    if ws == [] {
      NoShares(depth);
    } else {
      var m := |ws| - 1;
      StreamShares(ws[..m], depth);
      assert ws == ws[..m] + [ws[m]];
      StreamSnoc(ws[..m], ws[m], depth);
      PresentsPush(ws[..m], depth, Stream(ws[..m], depth), ws[m]);
    }
  }

  lemma NoShares(depth: nat)
    requires depth <= DATA_REGISTERS
    ensures Presents([], depth, Stream([], depth))
  {
  }

  lemma PresentsPush(ws: seq<Window>, depth: nat, s: seq<byte>, w: Window)
    requires depth <= DATA_REGISTERS && Presents(ws, depth, s)
    ensures Presents(ws + [w], depth, s + WordBytes(w[..depth]))
  {
    hide WordBytes, Extent;
    var vs, t := ws + [w], s + WordBytes(w[..depth]);
    ExtentNext(|ws|, depth);
    forall k | 0 <= k < |vs|
      ensures WordBytes(vs[k][..depth]) == Share(t, k, depth)
    {
      ExtentNext(k, depth);
      if k < |ws| {
        ExtentOrder(k + 1, |ws|, depth);
      }
    }
  }

  /* A window whose share lies in the data holds just that share of it. */
  lemma WindowOfData(ws: seq<Window>, depth: nat, data: seq<byte>, k: nat)
    requires depth <= DATA_REGISTERS && data <= Stream(ws, depth)
    requires k < |ws| && Extent(k + 1, depth) <= |data|
    ensures WordBytes(ws[k][..depth]) == Share(data, k, depth)
  {
    hide Extent, Stream, WordBytes;
    StreamShares(ws, depth);
    ExtentNext(k, depth);
  }

  /* So many windows of c bytes reach the k-th run of c bytes. */
  lemma WindowReached(windows: nat, c: nat, n: nat, k: nat)
    requires n <= windows * c && k * c + c <= n && c > 0
    ensures k < windows
  {
    MulOrder(windows, k + 1, c);
    Distribute(k, 1, c);
  }

  /* The windows are the fewest of c bytes that cover the data, and the k-th of them holds the
     k-th run of c bytes, if the data has so many. */
  ghost predicate CutInto(ws: seq<Window>, c: nat, data: seq<byte>, k: nat) {
    && |data| <= |ws| * c < |data| + c
    && (c <= 128 && k * c + c <= |data| ==>
          k < |ws| && WordBytes(ws[k][..c / 4]) == data[k * c..k * c + c])
  }

  lemma WindowIsRun(ws: seq<Window>, depth: nat, data: seq<byte>, k: nat)
    requires depth > 0 && |data| <= |ws| * (4 * depth) < |data| + 4 * depth
    requires depth <= DATA_REGISTERS ==> data <= Stream(ws, depth)
    ensures CutInto(ws, 4 * depth, data, k)
  {
    hide Stream, WordBytes;
    if depth <= DATA_REGISTERS && k * (4 * depth) + 4 * depth <= |data| {
      ExtentNext(k, depth);
      WindowReached(|ws|, 4 * depth, |data|, k);
      WindowOfData(ws, depth, data, k);
      assert (4 * depth) / 4 == depth;
    }
  }

  /* The sizes that the watermark fields stand for. With the value `field` in IPTXFCR, a write
     pushes windows of 8 * (field + 1) bytes, ... */
  lemma PushedSizes(fcr: word, field: bv7, d: seq<Event>, regs: Window, data: seq<byte>, k: nat)
    requires Sent(d, regs, Watermark((fcr & !0x1FC) | ((field as word) << 2)), data)
    ensures CutInto(Pushes(d), 8 * (field as nat + 1), data, k)
  {
    hide CutInto, Watermark, Sent, Pushes;
    WatermarkField(fcr, field);
    PushedRuns(d, regs, field as nat + 1, data, k);
  }

  lemma PushedRuns(d: seq<Event>, regs: Window, w: nat, data: seq<byte>, k: nat)
    requires Sent(d, regs, w, data)
    ensures CutInto(Pushes(d), 8 * w, data, k)
  {
    hide Handshakes, Pushes, PushedWindows, Stream, WordPadded, CutInto;
    PushedCarry(regs, w, data);
    ChunksIsCeiling(|data|, 8 * w);
    WindowIsRun(Pushes(d), 2 * w, data, k);
  }

  /* ... and with it in IPRXFCR a read pops windows of 4 * (field + 1) bytes. */
  lemma PoppedSizes(fcr: word, field: bv7, d: seq<Event>, regs: Window, data: seq<byte>, k: nat)
    requires Received(d, regs, Watermark((fcr & !0x1FC) | ((field as word) << 2)), data)
    ensures CutInto(Pops(d), 4 * (field as nat + 1), data, k)
  {
    hide CutInto, Watermark, Received, Pops;
    WatermarkField(fcr, field);
    PoppedRuns(d, regs, field as nat + 1, data, k);
  }

  lemma PoppedRuns(d: seq<Event>, regs: Window, w: nat, data: seq<byte>, k: nat)
    requires Received(d, regs, w, data)
    ensures CutInto(Pops(d), 4 * w, data, k)
  {
    hide Handshakes, Pops, Shows, Stream, CutInto;
    ChunksIsCeiling(|data|, 4 * w);
    WindowIsRun(Pops(d), w, data, k);
  }

  function Cut(s: seq<byte>, n: nat): seq<byte> {
    if n <= |s| then s[..n] else s
  }

  /* A buffer written with any TX watermark, whose bytes the device takes up to the size that
     it was told and presents again in windows of any RX watermark, with anything behind them
     in the last window and in the registers that a window does not use, is read back as it
     was. */
  lemma Loopback(sent: seq<Event>, r: Window, tx: nat, data: seq<byte>, received: seq<Event>, s: Window, rx: nat,
                 read: seq<byte>, presented: seq<byte>)
    requires Sent(sent, r, tx, data)
    requires Received(received, s, rx, read) && |read| == |data|
    requires Presents(Pops(received), RxDepth(rx), presented)
    requires Cut(Stream(Pushes(sent), TxDepth(tx)), |data|) <= presented
    ensures read == data
  {
    hide Stream, Pushes, Pops, Handshakes, Chunks, Presents, PushedWindows, Shows;
    PresentedStream(Pops(received), RxDepth(rx), presented);
    var wire := Stream(Pushes(sent), TxDepth(tx));
    PushedCarry(r, tx, data);
    CutPadded(wire, data);
    assert read == presented[..|read|];
  }

  //////////////////////////////////////////////////////////////////////////////
  // Runs of LUT set-ups
  //////////////////////////////////////////////////////////////////////////////

  /* The LUT after a run of QSPI_SetupLut calls with the given tables. */
  function LutAfter(lut: seq<byte>, tables: seq<seq<byte>>): (r: seq<byte>)
    requires forall i :: 0 <= i < |tables| ==> |tables[i]| <= |lut|
    ensures |r| == |lut|
  {
    if tables == [] then lut else Overlay(LutAfter(lut, tables[..|tables| - 1]), 0, tables[|tables| - 1])
  }

  /* The last table that reaches byte k, or None. */
  datatype Source = Initial | Table(index: nat)

  ghost predicate LastToReach(tables: seq<seq<byte>>, k: nat, src: Source) {
    match src
    case Initial => forall i :: 0 <= i < |tables| ==> |tables[i]| <= k
    case Table(n) => n < |tables| && k < |tables[n]| && forall i :: n < i < |tables| ==> |tables[i]| <= k
  }

  /* What that table, or the table before the run, has there. */
  function SourceByte(lut: seq<byte>, tables: seq<seq<byte>>, k: nat, src: Source): byte
    requires k < |lut|
    requires src.Table? ==> src.index < |tables| && k < |tables[src.index]|
  {
    if src.Table? then tables[src.index][k] else lut[k]
  }

  /* Every byte holds what the last table long enough to reach it put there, and a byte
     that no table reached is as it was. */
  lemma {:induction false} LutHoldsLast(lut: seq<byte>, tables: seq<seq<byte>>, k: nat, src: Source)
    requires forall i :: 0 <= i < |tables| ==> |tables[i]| <= |lut|
    requires k < |lut| && LastToReach(tables, k, src)
    ensures LutAfter(lut, tables)[k] == SourceByte(lut, tables, k, src)
    decreases |tables|
  {
    hide Overlay;
    if tables != [] {
      var m := |tables| - 1;
      var init := tables[..m];
      OverlayAt(LutAfter(lut, init), tables[m], k);
      if |tables[m]| <= k {
        assert LastToReach(init, k, src);
        LutHoldsLast(lut, init, k, src);
      }
    }
  }
}
