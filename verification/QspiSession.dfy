/**
 A caller of the driver: any number of transfers, and any number of LUT set-ups, one after
 another on one controller. The runs of QspiRuns are the logs that these leave.
 */
module QspiSession {
  import opened Bytes
  import opened Sequences
  import opened FlexSpiWindows
  import opened FlexSpiLog
  import opened Qspi
  import opened QspiRuns

  const IDLE := Device(false, [], [])

  /* A transfer that transfer_blocking completes, at these watermarks. */
  ghost predicate Servable(xfer: Transfer, tx: nat, rx: nat) {
    xfer.port < 4 && xfer.Accepted() && Fitting(xfer, tx, rx)
  }

  ghost predicate AllServable(xfers: seq<Transfer>, tx: nat, rx: nat) {
    forall k :: 0 <= k < |xfers| ==> Servable(xfers[k], tx, rx)
  }

  /* The job is the transfer, up to the bytes in its buffer. */
  ghost predicate SameRequest(job: Job, xfer: Transfer) {
    && job.address == xfer.deviceAddress && job.port == xfer.port && job.cmdType == xfer.cmdType
    && job.seqIndex == xfer.seqIndex && job.seqNumber == xfer.seqNumber && job.size == xfer.dataSize
    && |job.data| == xfer.dataSize as nat
  }

  ghost predicate SameRequests(jobs: seq<Job>, xfers: seq<Transfer>) {
    |jobs| <= |xfers| && forall k :: 0 <= k < |jobs| ==> SameRequest(jobs[k], xfers[k])
  }

  ghost predicate ReadInto(xfers: seq<Transfer>, from: nat, buffer: array<byte>) {
    exists k :: from <= k < |xfers| && xfers[k].cmdType.Read? && xfers[k].data == buffer
  }

  lemma ReadNow(xfers: seq<Transfer>, i: nat)
    requires i < |xfers|
    ensures xfers[i].cmdType.Read? ==> forall from: nat :: from <= i ==> ReadInto(xfers, from, xfers[i].data)
  {
  }

  /* The transfers are made in order. The device, replaying the log that they leave, executes
     the jobs, each from what the ones before it left in TFDR; a buffer into which no transfer
     reads is sent as it was, and one into which no later transfer reads holds what was
     received. */
  method ServeAll(f: FlexSpi, xfers: seq<Transfer>) returns (ghost d: seq<Event>, ghost jobs: seq<Job>)
    requires f.Valid() && AllServable(xfers, Watermark(f.IPTXFCR), Watermark(f.IPRXFCR))
    modifies f`INTR, f`STS0, f`STS1, f`IPCR0, f`IPCR1, f`IPCMD, f`IPTXFCR, f`IPRXFCR, f`log
    modifies f.FLSHCR2, f.TFDR, f.RFDR, set k | 0 <= k < |xfers| :: xfers[k].data
    ensures f.log == old(f.log) + d
    ensures |jobs| == |xfers| && SameRequests(jobs, xfers)
    ensures ExecutesAll(Replay(IDLE, d).done, old(f.TFDR[..]), jobs, old(Watermark(f.IPTXFCR)))
    ensures f.TFDR[..] == RegsAfterAll(old(f.TFDR[..]), jobs, old(Watermark(f.IPTXFCR)))
    ensures forall k :: 0 <= k < |xfers| && !ReadInto(xfers, 0, xfers[k].data) ==>
              jobs[k].data <= old(xfers[k].data[..])
    ensures forall k :: 0 <= k < |xfers| && xfers[k].cmdType.Read? && !ReadInto(xfers, k + 1, xfers[k].data) ==>
              jobs[k].data <= xfers[k].data[..]
  {
    hide Watermark, Servable, Served, ExecutesAll, Replay, SameRequest, SameRequests, Progress, ReadInto;
    hide RegsAfter, RegsAfterAll, JobFits, AllFit;
    ghost var tx, rx := Watermark(f.IPTXFCR), Watermark(f.IPRXFCR);
    ghost var ds: seq<seq<Event>>, regs := [], f.TFDR[..];
    d, jobs := [], [];
    NothingDone(xfers, regs, tx, rx);
    for i := 0 to |xfers|
      invariant Watermark(f.IPTXFCR) == tx && Watermark(f.IPRXFCR) == rx
      invariant |jobs| == i && f.log == old(f.log) + d
      invariant Progress(d, ds, regs, f.TFDR[..], jobs, xfers, tx, rx)
      invariant forall k :: 0 <= k < |xfers| && !ReadInto(xfers, 0, xfers[k].data) ==>
                  xfers[k].data[..] == old(xfers[k].data[..])
      invariant forall k :: 0 <= k < i && !ReadInto(xfers, 0, xfers[k].data) ==>
                  jobs[k].data <= old(xfers[k].data[..])
      invariant forall k :: 0 <= k < i && xfers[k].cmdType.Read? && !ReadInto(xfers, k + 1, xfers[k].data) ==>
                  jobs[k].data <= xfers[k].data[..]
    {
      ReadNow(xfers, i);
      ghost var now := f.TFDR[..];
      ghost var e, job := ServeOne(f, xfers[i]);
      ProgressSnoc(d, ds, regs, now, jobs, xfers, e, job, tx, rx);
      jobs := jobs + [job];
      ds := ds + [e];
      d := d + e;
    }
    ProgressEnd(d, ds, regs, f.TFDR[..], jobs, xfers, tx, rx);
  }

  method ServeOne(f: FlexSpi, xfer: Transfer) returns (ghost d: seq<Event>, ghost job: Job)
    requires f.Valid() && Servable(xfer, Watermark(f.IPTXFCR), Watermark(f.IPRXFCR))
    modifies f`INTR, f`STS0, f`STS1, f`IPCR0, f`IPCR1, f`IPCMD, f`IPTXFCR, f`IPRXFCR, f`log
    modifies f.FLSHCR2, f.TFDR, f.RFDR, xfer.data
    ensures f.log == old(f.log) + d
    ensures Watermark(f.IPTXFCR) == old(Watermark(f.IPTXFCR)) && Watermark(f.IPRXFCR) == old(Watermark(f.IPRXFCR))
    ensures Served(d, old(f.TFDR[..]), job, Watermark(f.IPTXFCR), Watermark(f.IPRXFCR)) && SameRequest(job, xfer)
    ensures JobFits(job, Watermark(f.IPTXFCR))
    ensures f.TFDR[..] == RegsAfter(old(f.TFDR[..]), job, Watermark(f.IPTXFCR))
    ensures job.data <= xfer.data[..]
    ensures !xfer.cmdType.Read? ==> xfer.data[..] == old(xfer.data[..])
  {
    hide Watermark, Fits, Served, RegsAfter, JobFits;
    var out;
    out, d := f.TransferBlocking(xfer);
    job := xfer.Job();
  }

  /* The log d of the first |ds| transfers, one part for each, with `now` in TFDR after them. */
  ghost predicate Progress(d: seq<Event>, ds: seq<seq<Event>>, regs: Window, now: Window, jobs: seq<Job>,
                           xfers: seq<Transfer>, tx: nat, rx: nat)
  {
    && d == Flatten(ds) && ServedAll(ds, regs, jobs, tx, rx) && SameRequests(jobs, xfers)
    && now == RegsAfterAll(regs, jobs, tx)
  }

  lemma NothingDone(xfers: seq<Transfer>, regs: Window, tx: nat, rx: nat)
    ensures Progress([], [], regs, regs, [], xfers, tx, rx)
  {
  }

  lemma ProgressSnoc(d: seq<Event>, ds: seq<seq<Event>>, regs: Window, now: Window, jobs: seq<Job>,
                     xfers: seq<Transfer>, e: seq<Event>, job: Job, tx: nat, rx: nat)
    requires Progress(d, ds, regs, now, jobs, xfers, tx, rx)
    requires JobFits(job, tx) && Served(e, now, job, tx, rx)
    requires |jobs| < |xfers| && SameRequest(job, xfers[|jobs|])
    ensures Progress(d + e, ds + [e], regs, RegsAfter(now, job, tx), jobs + [job], xfers, tx, rx)
  {
    hide Served, SameRequest, JobFits, RegsAfter;
    assert (ds + [e])[..|ds|] == ds && (jobs + [job])[..|jobs|] == jobs;
  }

  lemma ProgressEnd(d: seq<Event>, ds: seq<seq<Event>>, regs: Window, now: Window, jobs: seq<Job>,
                    xfers: seq<Transfer>, tx: nat, rx: nat)
    requires Progress(d, ds, regs, now, jobs, xfers, tx, rx)
    ensures SameRequests(jobs, xfers) && ExecutesAll(Replay(IDLE, d).done, regs, jobs, tx)
    ensures AllFit(jobs, tx) && now == RegsAfterAll(regs, jobs, tx)
  {
    hide ServedAll, ExecutesAll, Flatten, Replay, SameRequest, RegsAfterAll, AllFit;
    EveryTransfer(IDLE, ds, regs, jobs, tx, rx);
  }

  //////////////////////////////////////////////////////////////////////////////
  // LUT set-ups
  //////////////////////////////////////////////////////////////////////////////

  /* One part of a table for every call of QSPI_SetupLut. */
  datatype Setup = Setup(table: array<byte>, len: nat) {
    ghost predicate Valid() {
      len <= LUT_BYTES && len <= table.Length
    }

    ghost function Bytes(): (b: seq<byte>)
      requires Valid()
      reads table
      ensures |b| == len
    {
      table[..len]
    }
  }

  /* The table ends up as the run of set-ups says, for which LutHoldsLast names the source of
     every byte. */
  method SetupAll(f: FlexSpi, setups: seq<Setup>) returns (ghost tables: seq<seq<byte>>)
    requires f.Valid() && forall k :: 0 <= k < |setups| ==> setups[k].Valid() && setups[k].table != f.LUT
    modifies f`LUTKEY, f`LUTCR, f`lutLocked, f.LUT
    ensures |tables| == |setups|
    ensures forall k :: 0 <= k < |tables| ==> tables[k] == setups[k].Bytes() && |tables[k]| <= LUT_BYTES
    ensures f.LUT[..] == LutAfter(old(f.LUT[..]), tables)
    ensures setups != [] ==> f.lutLocked
  {
    hide Overlay;
    tables := [];
    for i := 0 to |setups|
      invariant |tables| == i
      invariant forall k :: 0 <= k < |tables| ==> tables[k] == setups[k].Bytes() && |tables[k]| <= LUT_BYTES
      invariant f.LUT[..] == LutAfter(old(f.LUT[..]), tables)
      invariant i > 0 ==> f.lutLocked
    {
      var aborts := f.SetupLut(setups[i].table, setups[i].len);
      ghost var before := tables;
      tables := tables + [setups[i].Bytes()];
      assert tables[..i] == before;
    }
  }
}
