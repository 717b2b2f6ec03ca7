/**
 What each function of the allocator does to the ledger of blocks, and what it leaves alone.
 */
module UnityHeapSteps {
  import opened Octets
  import opened Sequences
  import opened Wrappers
  import opened UnityHeap
  import opened UnityHeapLayout

  //////////////////////////////////////////////////////////////////////////////
  // What one operation does to the ledger
  //////////////////////////////////////////////////////////////////////////////

  /* All bytes of a block: guard, user region, trailer and padding. */
  function BlockBytes(c: Config, s: seq<octet>, b: Block): seq<octet>
    requires c.align > 0 && 0 <= Start(c, b) && Start(c, b) + Total(c, b) <= |s|
  {
    s[Start(c, b)..Start(c, b) + Total(c, b)]
  }

  /* Blocks below an unchanged prefix of the heap are unchanged. */
  lemma KeptBelow(c: Config, s: seq<octet>, t: seq<octet>, blocks: Ledger, index: nat, i: nat)
    requires c.Valid() && Tiled(c, blocks, index) && i < |blocks|
    requires |s| == |t| && index <= |s| && s[..index] == t[..index]
    ensures 0 <= Start(c, blocks[i]) && Start(c, blocks[i]) + Total(c, blocks[i]) <= |s|
    ensures BlockBytes(c, s, blocks[i]) == BlockBytes(c, t, blocks[i])
    ensures SizeKept(c, s, blocks[i]) <==> SizeKept(c, t, blocks[i])
    ensures Intact(c, s, blocks[i]) <==> Intact(c, t, blocks[i])
  {
    hide Total, SizeKept, Intact, Tiled;
    BlockInHeap(c, blocks, index, i);
    var lo, hi := Start(c, blocks[i]), Start(c, blocks[i]) + Total(c, blocks[i]);
    SubRange(s, t, 0, index, lo, hi);
    GuardsDependOnBlock(c, s, t, blocks[i]);
  }

  lemma TiledSnoc(c: Config, blocks: Ledger, b: Block, index: int)
    requires c.Valid() && Tiled(c, blocks, Start(c, b)) && b.size > 0
    requires Start(c, b) + Total(c, b) == index
    ensures Tiled(c, blocks + [b], index)
  {
    assert (blocks + [b])[..|blocks|] == blocks;
  }

  /* A successful unity_malloc appends one intact block and leaves everything below it;
     it succeeds exactly when no failure is due, the size is not 0 and there is room. */
  lemma MallocEffect(c: Config, h: Heap, blocks: Ledger, size: nat)
    requires LaidOut(c, h, blocks)
    ensures var (h1, p) := Malloc(c, h, size);
            && (p.Some? <==> h.countdown != 0 && size > 0 && HasRoom(c, h, size))
            && h1.countdown == (if h.countdown == 0 then 0 else Tick(h.countdown))
            && (p.None? ==> h1.(countdown := h.countdown) == h)
            && (p.Some? ==>
                  var b := Block(p.value, size, true);
                  && LaidOut(c, h1, blocks + [b])
                  && Start(c, b) == h.index && h1.index == h.index + Total(c, b)
                  && Intact(c, h1.bytes, b)
                  && h1.bytes[..h.index] == h.bytes[..h.index]
                  && h1.bytes[b.mem..b.mem + size] == h.bytes[b.mem..b.mem + size]
                  && h1.count == h.count + 1)
  {
    hide RoundUp, Intact, SizeKept, PutBlock, Overlay;
    var (h1, p) := Malloc(c, h, size);
    if p.Some? {
      var b := Block(p.value, size, true);
      RoundUpAtLeast(c, size + |END|);
      PutBlockIntact(c, h.bytes, h.index, size);
      IntactKeepsSize(c, h1.bytes, b);
      TiledSnoc(c, blocks, b, h1.index);
      forall i | 0 <= i < |blocks| && blocks[i].live
        ensures SizeKept(c, h1.bytes, blocks[i])
      {
        KeptBelow(c, h.bytes, h1.bytes, blocks, h.index, i);
      }
    }
  }

  lemma IntactKeepsSize(c: Config, bytes: seq<octet>, b: Block)
    requires Intact(c, bytes, b)
    ensures SizeKept(c, bytes, b)
  {
  }

  /* The ledger after releasing block i: popped from the top, stranded anywhere else. */
  function Released(blocks: Ledger, i: nat): Ledger
    requires i < |blocks|
  {
    if i == |blocks| - 1 then blocks[..i] else blocks[i := blocks[i].(live := false)]
  }

  lemma {:induction false} TiledMark(c: Config, blocks: Ledger, index: int, i: nat)
    requires c.Valid() && Tiled(c, blocks, index) && i < |blocks|
    ensures Tiled(c, blocks[i := blocks[i].(live := false)], index)
    decreases |blocks|
  {
    var m := |blocks| - 1;
    var marked := blocks[i := blocks[i].(live := false)];
    if i == m {
      assert marked[..m] == blocks[..m];
    } else {
      TiledMark(c, blocks[..m], Start(c, blocks[m]), i);
      assert marked[..m] == blocks[..m][i := blocks[i].(live := false)];
    }
  }

  /* release_memory changes no byte. It moves the index, down to the start of the block,
     exactly when the block is on top. */
  lemma ReleaseEffect(c: Config, h: Heap, blocks: Ledger, i: nat)
    requires LaidOut(c, h, blocks) && i < |blocks| && blocks[i].live
    ensures var h1 := Release(c, h, blocks[i].mem);
            && LaidOut(c, h1, Released(blocks, i))
            && h1.bytes == h.bytes && h1.count == h.count - 1 && h1.countdown == h.countdown
            && h1.index == if i == |blocks| - 1 then Start(c, blocks[i]) else h.index
  {
    hide RoundUp;
    TopTestIsExact(c, h, blocks, i);
    BlockInHeap(c, blocks, h.index, i);
    if i < |blocks| - 1 {
      TiledMark(c, blocks, h.index, i);
    }
  }

  lemma {:induction false} LiveCountMark(blocks: Ledger, i: nat)
    requires i < |blocks| && blocks[i].live
    ensures LiveCount(blocks[i := blocks[i].(live := false)]) == LiveCount(blocks) - 1
    decreases |blocks|
  {
    var m := |blocks| - 1;
    var marked := blocks[i := blocks[i].(live := false)];
    if i == m {
      assert marked[..m] == blocks[..m];
    } else {
      LiveCountMark(blocks[..m], i);
      assert marked[..m] == blocks[..m][i := blocks[i].(live := false)];
    }
  }

  lemma LiveCountReleased(blocks: Ledger, i: nat)
    requires i < |blocks| && blocks[i].live
    ensures LiveCount(Released(blocks, i)) == LiveCount(blocks) - 1
  {
    if i < |blocks| - 1 {
      LiveCountMark(blocks, i);
    }
  }

  lemma LiveCountSnoc(blocks: Ledger, b: Block)
    ensures LiveCount(blocks + [b]) == LiveCount(blocks) + if b.live then 1 else 0
  {
    assert (blocks + [b])[..|blocks|] == blocks;
  }

  //////////////////////////////////////////////////////////////////////////////
  // unity_realloc
  //////////////////////////////////////////////////////////////////////////////

  /* The ledger after reallocating the intact block i. */
  function Reallocated(c: Config, h: Heap, blocks: Ledger, i: nat, size: nat): Ledger
    requires LaidOut(c, h, blocks) && i < |blocks| && blocks[i].live
  {
    var b := blocks[i];
    if size == 0 then Released(blocks, i)
    else if size <= b.size then blocks
    else if FitsInPlace(c, h, b.mem, size) then
      if h.countdown == 0 then blocks[..i] else blocks[..i] + [Block(b.mem, size, true)]
    else if h.countdown == 0 || !HasRoom(c, h, size) then blocks
    else Released(blocks + [Block(h.index + c.Guard(), size, true)], i)
  }

  /* Growing the top block in place. */
  lemma GrowInPlace(c: Config, h: Heap, blocks: Ledger, i: nat, size: nat)
    requires LaidOut(c, h, blocks) && i < |blocks| && Intact(c, h.bytes, blocks[i]) && blocks[i].live
    requires size > blocks[i].size && FitsInPlace(c, h, blocks[i].mem, size)
    ensures i == |blocks| - 1
    ensures var (h1, p) := Malloc(c, Release(c, h, blocks[i].mem), size);
            && LaidOut(c, h1, Reallocated(c, h, blocks, i, size))
            && p == (if h.countdown == 0 then None else Some(blocks[i].mem))
            && h1.bytes[..Start(c, blocks[i])] == h.bytes[..Start(c, blocks[i])]
            && KeepsFront(h.bytes, blocks[i].mem, h1.bytes, blocks[i].mem, blocks[i].size)
            && (p.Some? ==> Intact(c, h1.bytes, Block(blocks[i].mem, size, true)))
            && h1.count == h.count - if h.countdown == 0 then 1 else 0
  {
    hide RoundUp, Intact, Malloc, SizeKept, Release;
    var b := blocks[i];
    IntactKeepsSize(c, h.bytes, b);
    SizeKeptFacts(c, h.bytes, b);
    TopTestIsExact(c, h, blocks, i);
    ReleaseEffect(c, h, blocks, i);
    BlockInHeap(c, blocks, h.index, i);
    var h0 := Release(c, h, b.mem);
    MallocEffect(c, h0, blocks[..i], size);
    var (h1, p) := Malloc(c, h0, size);
    if p.Some? {
      SubRange(h1.bytes, h.bytes, b.mem, b.mem + size, b.mem, b.mem + b.size);
    }
  }

  /* The n bytes at p before are the n bytes at q afterwards. */
  ghost predicate KeepsFront(s: seq<octet>, p: nat, t: seq<octet>, q: nat, n: nat) {
    p + n <= |s| && q + n <= |t| && t[q..q + n] == s[p..p + n]
  }

  /* The heap after a new block was carved and the old block's bytes were copied into it. */
  function Copied(c: Config, h: Heap, b: Block, size: nat): (r: Heap)
    requires c.Valid() && |h.bytes| == c.capacity
    requires b.mem + b.size <= |h.bytes| && b.size < size && Malloc(c, h, size).1.Some?
  {
    var (h1, p) := Malloc(c, h, size);
    h1.(bytes := Overlay(h1.bytes, p.value, h.bytes[b.mem..b.mem + b.size]))
  }

  lemma CopiedEffect(c: Config, h: Heap, blocks: Ledger, i: nat, size: nat)
    requires LaidOut(c, h, blocks) && i < |blocks| && SizeKept(c, h.bytes, blocks[i])
    requires size > blocks[i].size && h.countdown != 0 && HasRoom(c, h, size)
    ensures Malloc(c, h, size).1.Some?
    ensures var h2 := Copied(c, h, blocks[i], size);
            var b := Block(h.index + c.Guard(), size, true);
            && LaidOut(c, h2, blocks + [b]) && Intact(c, h2.bytes, b)
            && h2.bytes[..h.index] == h.bytes[..h.index]
            && KeepsFront(h.bytes, blocks[i].mem, h2.bytes, b.mem, blocks[i].size)
            && SizeKept(c, h2.bytes, blocks[i])
            && h2.count == h.count + 1 && h2.countdown == Tick(h.countdown)
  {
    hide RoundUp, Intact, SizeKept, Malloc, Overlay, Total, Tiled, HasRoom;
    var b := Block(h.index + c.Guard(), size, true);
    MallocEffect(c, h, blocks, size);
    var (h1, p) := Malloc(c, h, size);
    SizeKeptFacts(c, h.bytes, blocks[i]);
    var data := h.bytes[blocks[i].mem..blocks[i].mem + blocks[i].size];
    OverlaySlices(h1.bytes, b.mem, data);
    CopyKeeps(c, h1, blocks + [b], data);
    SubRange(Copied(c, h, blocks[i], size).bytes, h1.bytes, 0, b.mem, 0, h.index);
    CopiedKeepsOld(c, h, blocks, i, Copied(c, h, blocks[i], size).bytes);
  }

  lemma CopiedKeepsOld(c: Config, h: Heap, blocks: Ledger, i: nat, t: seq<octet>)
    requires LaidOut(c, h, blocks) && i < |blocks| && SizeKept(c, h.bytes, blocks[i])
    requires |t| == |h.bytes| && t[..h.index] == h.bytes[..h.index]
    ensures SizeKept(c, t, blocks[i])
  {
    hide SizeKept, Intact, Tiled;
    KeptBelow(c, h.bytes, t, blocks, h.index, i);
  }

  /* Moving a block to the top. */
  lemma GrowByMove(c: Config, h: Heap, blocks: Ledger, i: nat, size: nat)
    requires LaidOut(c, h, blocks) && i < |blocks| && Intact(c, h.bytes, blocks[i]) && blocks[i].live
    requires size > blocks[i].size && !FitsInPlace(c, h, blocks[i].mem, size)
    requires h.countdown != 0 && HasRoom(c, h, size)
    ensures var (h1, out) := Move(c, h, blocks[i].mem, size);
            var q := h.index + c.Guard();
            && out == Returned(Some(q))
            && LaidOut(c, h1, Reallocated(c, h, blocks, i, size))
            && h1.bytes[..h.index] == h.bytes[..h.index]
            && KeepsFront(h.bytes, blocks[i].mem, h1.bytes, q, blocks[i].size)
            && Intact(c, h1.bytes, Block(q, size, true))
            && h1.count == h.count && h1.countdown == Tick(h.countdown)
  {
    hide RoundUp, Intact, SizeKept, Malloc, Overlay, Total, Tiled, HasRoom, FitsInPlace, KeepsFront, Release;
    var b := blocks[i];
    IntactKeepsSize(c, h.bytes, b);
    SizeKeptFacts(c, h.bytes, b);
    CopiedEffect(c, h, blocks, i, size);
    var h2 := Copied(c, h, b, size);
    var wider := blocks + [Block(h.index + c.Guard(), size, true)];
    assert wider[i] == b;
    ReleaseEffect(c, h2, wider, i);
    assert Move(c, h, b.mem, size).0 == Release(c, h2, b.mem);
  }

  lemma SizeKeptFacts(c: Config, bytes: seq<octet>, b: Block)
    requires SizeKept(c, bytes, b) || Intact(c, bytes, b)
    ensures c.Guard() <= b.mem && b.mem + b.size + |END| <= |bytes| && SizeField(c, bytes, b.mem) == b.size
  {
  }

  /* Copying no more bytes into the user region of the top block than it holds. */
  lemma CopyKeeps(c: Config, h: Heap, blocks: Ledger, data: seq<octet>)
    requires LaidOut(c, h, blocks) && blocks != [] && blocks[|blocks| - 1].live
    requires |data| <= blocks[|blocks| - 1].size
    requires blocks[|blocks| - 1].mem + |data| <= |h.bytes|
    ensures var b := blocks[|blocks| - 1];
            var h1 := h.(bytes := Overlay(h.bytes, b.mem, data));
            && LaidOut(c, h1, blocks)
            && (Intact(c, h.bytes, b) ==> Intact(c, h1.bytes, b))
            && (AllIntact(c, h, blocks) ==> AllIntact(c, h1, blocks))
  {
    hide Decode, Overlay, RoundUp;
    var m := |blocks| - 1;
    var b := blocks[m];
    var t := Overlay(h.bytes, b.mem, data);
    OverlayElsewhere(h.bytes, b.mem, data, b.mem - c.Guard(), b.mem - c.align);
    OverlayElsewhere(h.bytes, b.mem, data, b.mem - c.align, b.mem);
    OverlayElsewhere(h.bytes, b.mem, data, b.mem + b.size, b.mem + b.size + |END|);
    OverlayElsewhere(h.bytes, b.mem, data, 0, Start(c, b));
    forall i | 0 <= i < m
      ensures SizeKept(c, h.bytes, blocks[i]) <==> SizeKept(c, t, blocks[i])
      ensures Intact(c, h.bytes, blocks[i]) <==> Intact(c, t, blocks[i])
    {
      KeptBelow(c, h.bytes, t, blocks[..m], Start(c, b), i);
    }
  }

  /* The contract of unity_realloc on the intact live block i, leading to h1 and out: which
     outcome and pointer, what the ledger becomes, and what is kept. */
  ghost predicate Reallocates(c: Config, h: Heap, blocks: Ledger, i: nat, size: nat, h1: Heap, out: Outcome)
    requires LaidOut(c, h, blocks) && i < |blocks| && blocks[i].live
  {
    var b := blocks[i];
    var after := Reallocated(c, h, blocks, i, size);
    && LaidOut(c, h1, after)
    && out.Returned?
    // it fails only for want of room or by a simulated failure, and never when not growing
    && (out.mem == None <==>
          || size == 0
          || (size > b.size && (h.countdown == 0 || !(FitsInPlace(c, h, b.mem, size) || HasRoom(c, h, size)))))
    // the pointer is kept on the shrinking and the in-place path
    && (out.mem.Some? ==> out.mem.value == if size <= b.size || FitsInPlace(c, h, b.mem, size) then b.mem
                                           else h.index + c.Guard())
    // shrinking changes nothing at all
    && (0 < size <= b.size ==> h1 == h)
    // the first min(old, new) bytes are kept
    && (out.mem.Some? ==> KeepsFront(h.bytes, b.mem, h1.bytes, out.mem.value, if size < b.size then size else b.size))
    // the grown block is intact
    && (size > b.size && out.mem.Some? ==> Intact(c, h1.bytes, Block(out.mem.value, size, true)))
    // no byte before the block changes and, except on the in-place path, no byte in use at all
    && h1.bytes[..Start(c, b)] == h.bytes[..Start(c, b)]
    && (size <= b.size || !FitsInPlace(c, h, b.mem, size) ==> h1.bytes[..h.index] == h.bytes[..h.index])
    // the live count
    && h1.count == h.count - if size == 0 || LosesBlock(c, h, b, size) then 1 else 0
  }

  lemma ReallocEffect(c: Config, h: Heap, blocks: Ledger, i: nat, size: nat)
    requires LaidOut(c, h, blocks) && i < |blocks| && blocks[i].live && Intact(c, h.bytes, blocks[i])
    ensures TrailerInHeap(c, h.bytes, blocks[i].mem)
    ensures var (h1, out) := Realloc(c, h, Some(blocks[i].mem), size);
            Reallocates(c, h, blocks, i, size, h1, out)
  {
    hide RoundUp, Intact, Malloc, Tiled, Move, Release, SizeKept, IsOverrun, Reallocates, FitsInPlace;
    var b := blocks[i];
    IntactKeepsSize(c, h.bytes, b);
    SizeKeptFacts(c, h.bytes, b);
    OverrunIsExact(c, h.bytes, b);
    if size <= b.size {
      ReallocNoGrowth(c, h, blocks, i, size);
    } else if FitsInPlace(c, h, b.mem, size) {
      ReallocInPlace(c, h, blocks, i, size);
    } else {
      ReallocMove(c, h, blocks, i, size);
    }
  }

  lemma ReallocNoGrowth(c: Config, h: Heap, blocks: Ledger, i: nat, size: nat)
    requires LaidOut(c, h, blocks) && i < |blocks| && blocks[i].live && Intact(c, h.bytes, blocks[i])
    requires size <= blocks[i].size
    ensures if size == 0 then Reallocates(c, h, blocks, i, size, Release(c, h, blocks[i].mem), Returned(None))
            else Reallocates(c, h, blocks, i, size, h, Returned(Some(blocks[i].mem)))
  {
    hide RoundUp, Intact, Tiled, Release, SizeKept, FitsInPlace;
    SizeKeptFacts(c, h.bytes, blocks[i]);
    BlockInHeap(c, blocks, h.index, i);
    ReleaseEffect(c, h, blocks, i);
  }

  lemma ReallocInPlace(c: Config, h: Heap, blocks: Ledger, i: nat, size: nat)
    requires LaidOut(c, h, blocks) && i < |blocks| && blocks[i].live && Intact(c, h.bytes, blocks[i])
    requires size > blocks[i].size && FitsInPlace(c, h, blocks[i].mem, size)
    ensures var (h1, p) := Malloc(c, Release(c, h, blocks[i].mem), size);
            Reallocates(c, h, blocks, i, size, h1, Returned(p))
  {
    hide RoundUp, Intact, Tiled, Release, SizeKept, FitsInPlace, Malloc;
    SizeKeptFacts(c, h.bytes, blocks[i]);
    BlockInHeap(c, blocks, h.index, i);
    GrowInPlace(c, h, blocks, i, size);
  }

  lemma ReallocMove(c: Config, h: Heap, blocks: Ledger, i: nat, size: nat)
    requires LaidOut(c, h, blocks) && i < |blocks| && blocks[i].live && Intact(c, h.bytes, blocks[i])
    requires size > blocks[i].size && !FitsInPlace(c, h, blocks[i].mem, size)
    ensures var (h1, out) := Move(c, h, blocks[i].mem, size);
            Reallocates(c, h, blocks, i, size, h1, out)
  {
    hide RoundUp, Intact, Tiled, Release, SizeKept, FitsInPlace, Malloc, Move, KeepsFront, HasRoom;
    var b := blocks[i];
    SizeKeptFacts(c, h.bytes, b);
    BlockInHeap(c, blocks, h.index, i);
    if h.countdown != 0 && HasRoom(c, h, size) {
      GrowByMove(c, h, blocks, i, size);
      var h1 := Move(c, h, b.mem, size).0;
      SubRange(h1.bytes, h.bytes, 0, h.index, 0, Start(c, b));
    } else {
      MallocEffect(c, h, blocks, size);
      MoveFails(c, h, b.mem, size);
    }
  }

  lemma MoveFails(c: Config, h: Heap, p: nat, size: nat)
    requires c.Valid() && |h.bytes| == c.capacity
    requires c.Guard() <= p <= |h.bytes| && p + SizeField(c, h.bytes, p) <= |h.bytes|
    requires SizeField(c, h.bytes, p) < size && Malloc(c, h, size).1.None?
    ensures Move(c, h, p, size) == (Malloc(c, h, size).0, Returned(None))
  {
  }

  /* The one case in which growing a block loses it: the simulated failure falls due on the
     in-place path, after the old block has been released. */
  predicate LosesBlock(c: Config, h: Heap, b: Block, size: nat)
    requires c.align > 0 && c.Guard() <= b.mem <= |h.bytes|
  {
    size > b.size && FitsInPlace(c, h, b.mem, size) && h.countdown == 0
  }

  /* A failed growth keeps the old block live if and only if it was not to grow in place;
     in particular whenever no failure was simulated. */
  lemma FailedGrowth(c: Config, h: Heap, blocks: Ledger, i: nat, size: nat)
    requires LaidOut(c, h, blocks) && i < |blocks| && blocks[i].live && Intact(c, h.bytes, blocks[i])
    requires size > blocks[i].size
    requires TrailerInHeap(c, h.bytes, blocks[i].mem)
    requires Realloc(c, h, Some(blocks[i].mem), size).1 == Returned(None)
    ensures (i < |Reallocated(c, h, blocks, i, size)| && Reallocated(c, h, blocks, i, size)[i] == blocks[i])
       <==> !FitsInPlace(c, h, blocks[i].mem, size)
    ensures h.countdown != 0 ==> Reallocated(c, h, blocks, i, size) == blocks
  {
    hide Realloc, Intact, SizeKept, Tiled;
    ReallocEffect(c, h, blocks, i, size);
    SizeKeptFacts(c, h.bytes, blocks[i]);
    TopTestIsExact(c, h, blocks, i);
  }

  /* unity_free of any live block whose size field is kept: it reports exactly whether the
     guards were damaged at entry, and releases the block either way. */
  lemma FreeReportsAndReleases(c: Config, h: Heap, blocks: Ledger, i: nat)
    requires LaidOut(c, h, blocks) && i < |blocks| && blocks[i].live
    ensures TrailerInHeap(c, h.bytes, blocks[i].mem)
    ensures var (h1, failed) := Free(c, h, Some(blocks[i].mem));
            && (failed <==> !Intact(c, h.bytes, blocks[i]))
            && LaidOut(c, h1, Released(blocks, i)) && h1.bytes == h.bytes && h1.count == h.count - 1
  {
    hide Intact, Tiled, IsOverrun, Release;
    OverrunIsExact(c, h.bytes, blocks[i]);
    ReleaseEffect(c, h, blocks, i);
  }

  /* unity_realloc of a damaged block fails the test, and has released the block by then. */
  lemma ReallocOfDamaged(c: Config, h: Heap, blocks: Ledger, i: nat, size: nat)
    requires LaidOut(c, h, blocks) && i < |blocks| && blocks[i].live && !Intact(c, h.bytes, blocks[i])
    ensures TrailerInHeap(c, h.bytes, blocks[i].mem)
    ensures var (h1, out) := Realloc(c, h, Some(blocks[i].mem), size);
            out == TestFailed && LaidOut(c, h1, Released(blocks, i)) && h1.bytes == h.bytes
  {
    hide Intact, Tiled, IsOverrun, Release, Malloc, Move;
    OverrunIsExact(c, h.bytes, blocks[i]);
    ReleaseEffect(c, h, blocks, i);
  }
}
