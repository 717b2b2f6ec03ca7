/**
 When an allocation succeeds, without naming how its sizes are computed: when an aligned end
 of the new block lies in the heap, and when no simulated failure is due. And which calls of
 a run a simulated failure hits.
 */
module UnityHeapRoom {
  import opened Octets
  import opened Wrappers
  import opened UnityHeap
  import opened UnityHeapLayout
  import opened UnityHeapSteps
  import opened UnityHeapRuns

  /* A block of this size that starts at an aligned offset ends at the least aligned offset
     that leaves room for two words, the user region and four trailer bytes. */
  lemma LeastEnd(c: Config, start: nat, size: nat, m: nat)
    requires c.Valid() && start % c.align == 0
    ensures var end := start + c.Guard() + BlockSize(c, size);
            && end % c.align == 0 && start + 2 * c.align + size + 4 <= end
            && (m % c.align == 0 && start + 2 * c.align + size + 4 <= m ==> end <= m)
  {
    hide RoundUp;
    var g, n := start + c.Guard(), size + |END|;
    AlignedGuard(c);
    AlignedSum(c, start, c.Guard());
    RoundUpAtLeast(c, n);
    RoundUpAligned(c, n);
    AlignedSum(c, g, RoundUp(c, n));
    if m % c.align == 0 && g + n <= m {
      AlignedSum(c, g, m - g);
      RoundUpIsLeast(c, n, m - g);
    }
  }

  /* unity_malloc succeeds exactly if no simulated failure is due, the size is not 0, and some
     aligned offset of the heap is far enough from heap_index; heap_index then moves to the
     least of these. The new block has its size in front, then a word of zeros, and "END"
     with its terminator behind. */
  lemma MallocRoom(c: Config, h: Heap, blocks: Ledger, size: nat, m: nat)
    requires LaidOut(c, h, blocks)
    ensures var (h1, p) := Malloc(c, h, size);
            && (p.Some? ==>
                  && h.countdown != 0 && size > 0 && p.value == h.index + 2 * c.align
                  && h1.index % c.align == 0 && p.value + size + 4 <= h1.index <= c.capacity == |h1.bytes|
                  && Decode(h1.bytes[h.index..h.index + c.align]) == size
                  && Decode(h1.bytes[h.index + c.align..p.value]) == 0
                  && h1.bytes[p.value + size..p.value + size + 4] == [69, 78, 68, 0])
            && (h.countdown != 0 && size > 0
                && m % c.align == 0 && h.index + 2 * c.align + size + 4 <= m <= c.capacity ==>
                  p.Some? && h1.index <= m)
            && (p.None? ==> h1.(countdown := h.countdown) == h)
  {
    hide RoundUp, Tiled, PutBlock, Decode;
    MallocEffect(c, h, blocks, size);
    TiledAligned(c, blocks, h.index);
    LeastEnd(c, h.index, size, m);
  }

  lemma TopEnd(c: Config, h: Heap, blocks: Ledger)
    requires LaidOut(c, h, blocks) && blocks != []
    ensures h.index == blocks[|blocks| - 1].mem + BlockSize(c, blocks[|blocks| - 1].size)
  {
    hide RoundUp, SizeKept;
  }

  /* unity_free(NULL) does nothing and reports nothing. */
  lemma FreeOfNull(c: Config, h: Heap)
    requires c.Valid()
    ensures Free(c, h, None) == (h, false)
  {
  }

  /* The in-place test of unity_realloc holds exactly for the last block, and if some aligned
     offset of the heap, such as `end`, is far enough from its pointer. */
  lemma InPlaceRoom(c: Config, h: Heap, blocks: Ledger, i: nat, size: nat, m: nat) returns (end: nat)
    requires LaidOut(c, h, blocks) && i < |blocks| && blocks[i].live
    requires c.Guard() <= blocks[i].mem <= |h.bytes|
    ensures var mem := blocks[i].mem;
            && (FitsInPlace(c, h, mem, size) ==>
                  i == |blocks| - 1 && end % c.align == 0 && mem + size + 4 <= end <= c.capacity)
            && (i == |blocks| - 1 && m % c.align == 0 && mem + size + 4 <= m <= c.capacity ==>
                  FitsInPlace(c, h, mem, size))
  {
    hide RoundUp, Tiled, SizeKept;
    TopTestIsExact(c, h, blocks, i);
    BlockInHeap(c, blocks, h.index, i);
    LeastEnd(c, Start(c, blocks[i]), size, m);
    end := blocks[i].mem + BlockSize(c, size);
  }

  /* Growing an intact block. The last block keeps its pointer and any other one never does;
     it succeeds exactly if no simulated failure is due and some aligned offset of the heap is
     far enough from the old pointer, or, for a block that is not last, from heap_index.
     heap_index then is the least of these. */
  lemma ReallocRoom(c: Config, h: Heap, blocks: Ledger, i: nat, size: nat, m: nat)
    requires LaidOut(c, h, blocks) && i < |blocks| && blocks[i].live && Intact(c, h.bytes, blocks[i])
    requires size > blocks[i].size
    ensures TrailerInHeap(c, h.bytes, blocks[i].mem)
    ensures var (h1, out) := Realloc(c, h, Some(blocks[i].mem), size);
            var p := if i == |blocks| - 1 then blocks[i].mem else h.index + 2 * c.align;
            && (out == Returned(None) || out == Returned(Some(p)))
            && (out == Returned(Some(p)) ==>
                  h.countdown != 0 && h1.index % c.align == 0 && p + size + 4 <= h1.index <= c.capacity)
            && (h.countdown != 0 && m % c.align == 0 && p + size + 4 <= m <= c.capacity ==>
                  out == Returned(Some(p)) && h1.index <= m)
  {
    hide RoundUp, Tiled, Intact, SizeKept, Realloc, KeepsFront;
    var b := blocks[i];
    ReallocEffect(c, h, blocks, i, size);
    var (h1, out) := Realloc(c, h, Some(b.mem), size);
    SizeKeptFacts(c, h.bytes, b);
    TopTestIsExact(c, h, blocks, i);
    BlockInHeap(c, blocks, h.index, i);
    if i == |blocks| - 1 {
      LeastEnd(c, Start(c, b), size, m);
    } else {
      LeastEnd(c, h.index, size, m);
      BlockInHeap(c, blocks, h.index, |blocks| - 1);
    }
    if out.mem.Some? {
      TopEnd(c, h1, Reallocated(c, h, blocks, i, size));
    }
  }

  //////////////////////////////////////////////////////////////////////////////
  // Simulated failures
  //////////////////////////////////////////////////////////////////////////////

  /* The operation calls unity_malloc: a reallocation does so only to grow. */
  predicate Allocates(w: World, op: Op) {
    match op
    case DoMalloc(_) => true
    case DoCalloc(_, _) => true
    case DoReallocNull(_) => true
    case DoRealloc(i, size) => i < |w.blocks| && size > w.blocks[i].size
    case _ => false
  }

  predicate SetsCountdown(op: Op) {
    op.DoStartTest? || op.DoEndTest? || op.DoFailAfter?
  }

  /* How many calls of unity_malloc a run makes. */
  ghost function AllocationCount(c: Config, w: World, ops: seq<Op>): nat
    requires WorldOk(c, w) && LegalRun(c, w, ops)
    decreases |ops|
  {
    hide WorldOk, Step, Legal;
    if ops == [] then 0
    else
      StepKeeps(c, w, ops[0]);
      (if Allocates(w, ops[0]) then 1 else 0) + AllocationCount(c, Step(c, w, ops[0]), ops[1..])
  }

  /* What n calls make of a countdown: it stops at 0, and below 0 it never gets there. */
  function CountedDown(countdown: int, n: nat): int {
    if countdown == -1 || 0 <= countdown < n then (if countdown == -1 then -1 else 0) else countdown - n
  }

  lemma MallocCountdown(c: Config, h: Heap, size: nat)
    requires c.Valid() && |h.bytes| == c.capacity
    ensures Malloc(c, h, size).0.countdown == CountedDown(h.countdown, 1)
  {
    hide RoundUp, PutBlock, HasRoom;
  }

  lemma ReallocCountdown(c: Config, h: Heap, b: Block, size: nat)
    requires c.Valid() && |h.bytes| == c.capacity && Intact(c, h.bytes, b)
    ensures TrailerInHeap(c, h.bytes, b.mem)
    ensures Realloc(c, h, Some(b.mem), size).0.countdown == CountedDown(h.countdown, if size > b.size then 1 else 0)
  {
    hide RoundUp, Malloc, IsOverrun, Intact;
    SizeKeptFacts(c, h.bytes, b);
    IntactKeepsSize(c, h.bytes, b);
    OverrunIsExact(c, h.bytes, b);
    MallocCountdown(c, h, size);
    MallocCountdown(c, Release(c, h, b.mem), size);
  }

  lemma StepCountdown(c: Config, w: World, op: Op)
    requires WorldOk(c, w) && Legal(c, w, op)
    ensures !SetsCountdown(op) ==>
              Step(c, w, op).heap.countdown == CountedDown(w.heap.countdown, if Allocates(w, op) then 1 else 0)
    ensures op.DoFailAfter? ==> Step(c, w, op).heap.countdown == op.n
    ensures op.DoStartTest? || op.DoEndTest? ==> Step(c, w, op).heap.countdown == -1
  {
    hide WorldOk, LaidOut, Malloc, Realloc, Reallocated, IsOverrun, Intact;
    OrderlyHeap(c, w);
    match op
    case DoMalloc(size) => MallocCountdown(c, w.heap, size);
    case DoCalloc(num, size) => MallocCountdown(c, w.heap, num * size);
    case DoReallocNull(size) =>
      ReallocNull(c, w.heap, size);
      MallocCountdown(c, w.heap, size);
    case DoFree(i) => LiveBlock(c, w, i);
    case DoRealloc(i, size) =>
      IntactBlock(c, w, i);
      ReallocCountdown(c, w.heap, w.blocks[i], size);
    case DoStore(i, k, x) => LiveBlock(c, w, i);
    case DoFreeNull =>
    case DoStartTest =>
    case DoEndTest =>
    case DoFailAfter(n) =>
  }

  lemma IntactBlock(c: Config, w: World, i: nat)
    requires WorldOk(c, w) && LiveAt(w, i)
    ensures Intact(c, w.heap.bytes, w.blocks[i])
  {
    hide Intact, LaidOut;
  }

  lemma CountedFurther(countdown: int, m: nat, n: nat)
    ensures CountedDown(CountedDown(countdown, m), n) == CountedDown(countdown, m + n)
  {
  }

  lemma {:induction false} RunCountdown(c: Config, w: World, ops: seq<Op>)
    requires WorldOk(c, w) && LegalRun(c, w, ops)
    requires forall k :: 0 <= k < |ops| ==> !SetsCountdown(ops[k])
    ensures Run(c, w, ops).heap.countdown == CountedDown(w.heap.countdown, AllocationCount(c, w, ops))
    decreases |ops|
  {
    hide WorldOk, Step, Legal, Allocates, CountedDown;
    if ops == [] {
      NothingCounted(w.heap.countdown);
    } else {
      StepKeeps(c, w, ops[0]);
      StepCountdown(c, w, ops[0]);
      RunCountdown(c, Step(c, w, ops[0]), ops[1..]);
      CountedFurther(w.heap.countdown, if Allocates(w, ops[0]) then 1 else 0,
                     AllocationCount(c, Step(c, w, ops[0]), ops[1..]));
    }
  }

  lemma NothingCounted(countdown: int)
    ensures CountedDown(countdown, 0) == countdown
  {
  }

  /* After UnityMalloc_MakeMallocFailAfterCount(n), over every legal run that does not set it
     anew: the next call of unity_malloc fails for the simulated reason exactly if at least n
     calls went before it, and n is not negative; it then changes nothing. */
  lemma FailsAfterCount(c: Config, w: World, n: int, ops: seq<Op>, size: nat)
    requires WorldOk(c, w)
    requires WorldOk(c, Step(c, w, DoFailAfter(n))) ==> LegalRun(c, Step(c, w, DoFailAfter(n)), ops)
    requires forall k :: 0 <= k < |ops| ==> !SetsCountdown(ops[k])
    ensures WorldOk(c, Step(c, w, DoFailAfter(n)))
    ensures var w1 := Step(c, w, DoFailAfter(n));
            var w2 := Run(c, w1, ops);
            && (w2.heap.countdown == 0 <==> 0 <= n <= AllocationCount(c, w1, ops))
            && WorldOk(c, w2) && c.Valid() && |w2.heap.bytes| == c.capacity
            && (0 <= n <= AllocationCount(c, w1, ops) ==> Malloc(c, w2.heap, size) == (w2.heap, None))
  {
    hide WorldOk, Step, Run, LegalRun, AllocationCount;
    StepKeeps(c, w, DoFailAfter(n));
    StepCountdown(c, w, DoFailAfter(n));
    var w1 := Step(c, w, DoFailAfter(n));
    RunCountdown(c, w1, ops);
    RunKeeps(c, w1, ops);
    OrderlyHeap(c, Run(c, w1, ops));
  }
}
