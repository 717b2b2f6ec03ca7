/**
 What the allocator keeps over whole runs: the layout and the guards, the live count, and
 the bytes of the callers' blocks.
 */
module UnityHeapRuns {
  import opened Octets
  import opened Sequences
  import opened Wrappers
  import opened UnityHeap
  import opened UnityHeapLayout
  import opened UnityHeapSteps

  /* base: the number of blocks that were live when the current test started. */
  datatype World = World(heap: Heap, blocks: Ledger, base: int)

  datatype Op =
    | DoMalloc(size: nat)
    | DoCalloc(num: nat, size: nat)
    | DoFree(i: nat)
    | DoFreeNull
    | DoRealloc(i: nat, size: nat)
    | DoReallocNull(size: nat)
    | DoStore(i: nat, k: nat, x: octet)  // the caller writes into its block
    | DoStartTest
    | DoEndTest
    | DoFailAfter(n: int)

  ghost predicate WorldOk(c: Config, w: World) {
    && LaidOut(c, w.heap, w.blocks)
    && AllIntact(c, w.heap, w.blocks)
    && w.heap.count == LiveCount(w.blocks) - w.base
  }

  predicate LiveAt(w: World, i: nat) {
    i < |w.blocks| && w.blocks[i].live
  }

  /* What callers owe: pointers that are live, writes inside their blocks, and sizes whose
     rounding does not wrap around. */
  predicate Legal(c: Config, w: World, op: Op) {
    match op
    case DoMalloc(size) => c.NoWrap(size)
    case DoCalloc(num, size) => c.NoWrap(num * size)
    case DoFree(i) => LiveAt(w, i)
    case DoRealloc(i, size) => LiveAt(w, i) && c.NoWrap(size)
    case DoReallocNull(size) => c.NoWrap(size)
    case DoStore(i, k, _) => LiveAt(w, i) && k < w.blocks[i].size
    case _ => true
  }

  /* The ledger after a carving call that returned p. */
  function Carved(blocks: Ledger, p: Option<nat>, size: nat): Ledger {
    if p.Some? then blocks + [Block(p.value, size, true)] else blocks
  }

  /* A live block of an orderly world is where the operations may look at it. */
  lemma LiveBlock(c: Config, w: World, i: nat)
    requires WorldOk(c, w) && LiveAt(w, i)
    ensures c.Valid() && |w.heap.bytes| == c.capacity
    ensures TrailerInHeap(c, w.heap.bytes, w.blocks[i].mem)
    ensures w.blocks[i].mem + w.blocks[i].size <= |w.heap.bytes|
  {
    hide Tiled, IsOverrun, LiveCount;
    IntactKeepsSize(c, w.heap.bytes, w.blocks[i]);
    OverrunIsExact(c, w.heap.bytes, w.blocks[i]);
  }

  lemma OrderlyHeap(c: Config, w: World)
    requires WorldOk(c, w)
    ensures c.Valid() && w.heap.index <= c.capacity == |w.heap.bytes| && LaidOut(c, w.heap, w.blocks)
  {
  }

  function Step(c: Config, w: World, op: Op): World
    requires WorldOk(c, w) && Legal(c, w, op)
  {
    hide WorldOk, LaidOut, IsOverrun, RoundUp, PutBlock;
    OrderlyHeap(c, w);
    var h := w.heap;
    match op
    case DoMalloc(size) =>
      var (h1, p) := Malloc(c, h, size);
      w.(heap := h1, blocks := Carved(w.blocks, p, size))
    case DoCalloc(num, size) =>
      var (h1, p) := Calloc(c, h, num, size);
      w.(heap := h1, blocks := Carved(w.blocks, p, num * size))
    case DoFree(i) =>
      LiveBlock(c, w, i);
      w.(heap := Free(c, h, Some(w.blocks[i].mem)).0, blocks := Released(w.blocks, i))
    case DoFreeNull => w.(heap := Free(c, h, None).0)
    case DoRealloc(i, size) =>
      LiveBlock(c, w, i);
      w.(heap := Realloc(c, h, Some(w.blocks[i].mem), size).0, blocks := Reallocated(c, h, w.blocks, i, size))
    case DoReallocNull(size) =>
      var (h1, out) := Realloc(c, h, None, size);
      w.(heap := h1, blocks := Carved(w.blocks, out.mem, size))
    case DoStore(i, k, x) =>
      LiveBlock(c, w, i);
      w.(heap := h.(bytes := h.bytes[w.blocks[i].mem + k := x]))
    case DoStartTest => w.(heap := StartTest(h), base := LiveCount(w.blocks))
    case DoEndTest => w.(heap := EndTest(h).0)
    case DoFailAfter(n) => w.(heap := h.(countdown := n))
  }

  /* UnityMalloc_StartTest and UnityMalloc_EndTest; the flag says that the test is failed. */
  function StartTest(h: Heap): Heap {
    h.(count := 0, countdown := MALLOC_DONT_FAIL)
  }

  function EndTest(h: Heap): (Heap, bool) {
    (h.(countdown := MALLOC_DONT_FAIL), h.count != 0)
  }

  //////////////////////////////////////////////////////////////////////////////
  // Every step keeps the world in order
  //////////////////////////////////////////////////////////////////////////////

  lemma IntactBelow(c: Config, h: Heap, h1: Heap, blocks: Ledger, index: nat)
    requires c.Valid() && Tiled(c, blocks, index) && AllIntact(c, h, blocks)
    requires |h1.bytes| == |h.bytes| && index <= |h.bytes| && h1.bytes[..index] == h.bytes[..index]
    ensures AllIntact(c, h1, blocks)
  {
    hide Intact;
    forall i | 0 <= i < |blocks| && blocks[i].live
      ensures Intact(c, h1.bytes, blocks[i])
    {
      KeptBelow(c, h.bytes, h1.bytes, blocks, index, i);
    }
  }

  lemma CarveKeeps(c: Config, w: World, size: nat)
    requires WorldOk(c, w)
    ensures var (h1, p) := Malloc(c, w.heap, size);
            WorldOk(c, w.(heap := h1, blocks := Carved(w.blocks, p, size)))
  {
    hide Malloc, Intact, Tiled, HasRoom, SizeKept, Total;
    MallocEffect(c, w.heap, w.blocks, size);
    var (h1, p) := Malloc(c, w.heap, size);
    if p.Some? {
      IntactBelow(c, w.heap, h1, w.blocks, w.heap.index);
      LiveCountSnoc(w.blocks, Block(p.value, size, true));
    }
  }

  lemma CallocKeeps(c: Config, w: World, num: nat, size: nat)
    requires WorldOk(c, w)
    ensures var (h1, p) := Calloc(c, w.heap, num, size);
            && WorldOk(c, w.(heap := h1, blocks := Carved(w.blocks, p, num * size)))
            && p == Malloc(c, w.heap, num * size).1
            && (p.Some? ==> h1.bytes[p.value..p.value + num * size] == Repeat<octet>(0, num * size))
            && h1.bytes[..w.heap.index] == w.heap.bytes[..w.heap.index]
  {
    hide Malloc, MallocZeroed, WorldOk, Repeat;
    OrderlyHeap(c, w);
    ZeroedKeeps(c, w, num * size);
  }

  lemma ZeroedKeeps(c: Config, w: World, n: nat)
    requires WorldOk(c, w)
    ensures var (h1, p) := MallocZeroed(c, w.heap, n);
            && WorldOk(c, w.(heap := h1, blocks := Carved(w.blocks, p, n)))
            && p == Malloc(c, w.heap, n).1
            && (p.Some? ==> h1.bytes[p.value..p.value + n] == Repeat<octet>(0, n))
            && h1.bytes[..w.heap.index] == w.heap.bytes[..w.heap.index]
  {
    hide Malloc, Intact, Tiled, HasRoom, SizeKept, Overlay, Repeat;
    CarveKeeps(c, w, n);
    MallocEffect(c, w.heap, w.blocks, n);
    var (h1, p) := Malloc(c, w.heap, n);
    if p.Some? {
      CopyKeeps(c, h1, Carved(w.blocks, p, n), Repeat<octet>(0, n));
      OverlaySlices(h1.bytes, p.value, Repeat<octet>(0, n));
      SubRange(Overlay(h1.bytes, p.value, Repeat<octet>(0, n)), h1.bytes, 0, p.value, 0, w.heap.index);
    }
  }

  lemma FreeKeeps(c: Config, w: World, i: nat)
    requires WorldOk(c, w) && LiveAt(w, i)
    ensures WorldOk(c, w.(heap := Release(c, w.heap, w.blocks[i].mem), blocks := Released(w.blocks, i)))
  {
    hide Intact, Tiled, Release, SizeKept;
    ReleaseEffect(c, w.heap, w.blocks, i);
    LiveCountReleased(w.blocks, i);
  }

  lemma ReallocKeeps(c: Config, w: World, i: nat, size: nat)
    requires WorldOk(c, w) && LiveAt(w, i)
    ensures TrailerInHeap(c, w.heap.bytes, w.blocks[i].mem)
    ensures WorldOk(c, w.(heap := Realloc(c, w.heap, Some(w.blocks[i].mem), size).0,
                          blocks := Reallocated(c, w.heap, w.blocks, i, size)))
  {
    hide Intact, Tiled, SizeKept, Realloc, FitsInPlace, HasRoom, KeepsFront, Total;
    var h, b := w.heap, w.blocks[i];
    ReallocEffect(c, h, w.blocks, i, size);
    var (h1, out) := Realloc(c, h, Some(b.mem), size);
    ReallocatedIntact(c, h, w.blocks, i, size, h1, out);
    ReallocatedCount(c, h, w.blocks, i, size);
  }

  lemma ReallocatedCount(c: Config, h: Heap, blocks: Ledger, i: nat, size: nat)
    requires LaidOut(c, h, blocks) && i < |blocks| && blocks[i].live
    requires c.Guard() <= blocks[i].mem <= |h.bytes|
    ensures LiveCount(Reallocated(c, h, blocks, i, size))
         == LiveCount(blocks) - if size == 0 || LosesBlock(c, h, blocks[i], size) then 1 else 0
  {
    hide HasRoom, Tiled, SizeKept, LiveCount, RoundUp;
    TopTestIsExact(c, h, blocks, i);
    LiveCountReleased(blocks, i);
    if FitsInPlace(c, h, blocks[i].mem, size) {
      LiveCountSnoc(blocks[..i], Block(blocks[i].mem, size, true));
    } else {
      var moved := Block(h.index + c.Guard(), size, true);
      LiveCountSnoc(blocks, moved);
      assert (blocks + [moved])[i] == blocks[i];
      LiveCountReleased(blocks + [moved], i);
    }
  }

  lemma ReallocatedIntact(c: Config, h: Heap, blocks: Ledger, i: nat, size: nat, h1: Heap, out: Outcome)
    requires LaidOut(c, h, blocks) && AllIntact(c, h, blocks) && i < |blocks| && blocks[i].live
    requires Reallocates(c, h, blocks, i, size, h1, out)
    ensures AllIntact(c, h1, Reallocated(c, h, blocks, i, size))
  {
    hide Intact, Tiled, SizeKept, HasRoom, KeepsFront, RoundUp;
    var after := Reallocated(c, h, blocks, i, size);
    BlockInHeap(c, blocks, h.index, i);
    SizeKeptFacts(c, h.bytes, blocks[i]);
    TopTestIsExact(c, h, blocks, i);
    if size > blocks[i].size {
      if FitsInPlace(c, h, blocks[i].mem, size) {
        TiledPop(c, blocks, h.index);
        IntactBelow(c, h, h1, blocks[..i], Start(c, blocks[i]));
      } else {
        IntactBelow(c, h, h1, blocks, h.index);
      }
    } else {
      IntactBelow(c, h, h1, blocks, h.index);
    }
  }

  /* A caller's write into its own block disturbs no guard and no other block. */
  lemma StoreKeeps(c: Config, w: World, i: nat, k: nat, x: octet)
    requires WorldOk(c, w) && LiveAt(w, i) && k < w.blocks[i].size
    requires w.blocks[i].mem + k < |w.heap.bytes|
    ensures WorldOk(c, w.(heap := w.heap.(bytes := w.heap.bytes[w.blocks[i].mem + k := x])))
    ensures forall j :: 0 <= j < |w.blocks| && j != i ==>
              OtherBlockKept(c, w.heap.bytes, w.heap.bytes[w.blocks[i].mem + k := x], w.blocks[j])
  {
    hide Tiled, Intact, SizeKept, Total;
    var s, t := w.heap.bytes, w.heap.bytes[w.blocks[i].mem + k := x];
    forall j | 0 <= j < |w.blocks| && j != i
      ensures OtherBlockKept(c, s, t, w.blocks[j])
      ensures SizeKept(c, s, w.blocks[j]) <==> SizeKept(c, t, w.blocks[j])
      ensures Intact(c, s, w.blocks[j]) <==> Intact(c, t, w.blocks[j])
    {
      StoreElsewhere(c, w, i, j, k, x);
    }
    UserWriteKeepsGuards(c, s, w.blocks[i], k, x);
  }

  ghost predicate OtherBlockKept(c: Config, s: seq<octet>, t: seq<octet>, b: Block)
    requires c.align > 0
  {
    && |s| == |t| && 0 <= Start(c, b) && Start(c, b) + Total(c, b) <= |s|
    && BlockBytes(c, s, b) == BlockBytes(c, t, b)
  }

  lemma StoreElsewhere(c: Config, w: World, i: nat, j: nat, k: nat, x: octet)
    requires LaidOut(c, w.heap, w.blocks)
    requires i < |w.blocks| && j < |w.blocks| && i != j && k < w.blocks[i].size
    requires w.blocks[i].mem + k < |w.heap.bytes|
    ensures var s, t := w.heap.bytes, w.heap.bytes[w.blocks[i].mem + k := x];
            && OtherBlockKept(c, s, t, w.blocks[j])
            && (SizeKept(c, s, w.blocks[j]) <==> SizeKept(c, t, w.blocks[j]))
            && (Intact(c, s, w.blocks[j]) <==> Intact(c, t, w.blocks[j]))
  {
    hide Tiled, Intact, SizeKept, RoundUp;
    var s, t := w.heap.bytes, w.heap.bytes[w.blocks[i].mem + k := x];
    UserRegionInBlock(c, w.blocks[i]);
    BlockInHeap(c, w.blocks, w.heap.index, i);
    BlockInHeap(c, w.blocks, w.heap.index, j);
    if i < j {
      BlocksDisjoint(c, w.blocks, w.heap.index, i, j);
    } else {
      BlocksDisjoint(c, w.blocks, w.heap.index, j, i);
    }
    GuardsDependOnBlock(c, s, t, w.blocks[j]);
  }

  lemma StepKeeps(c: Config, w: World, op: Op)
    requires WorldOk(c, w) && Legal(c, w, op)
    ensures WorldOk(c, Step(c, w, op))
  {
    hide Tiled, Intact, SizeKept, Malloc, Calloc, Realloc, Release;
    match op
    case DoMalloc(size) => CarveKeeps(c, w, size);
    case DoCalloc(num, size) => CallocKeeps(c, w, num, size);
    case DoFree(i) => FreeKeeps(c, w, i);
    case DoFreeNull =>
    case DoRealloc(i, size) => ReallocKeeps(c, w, i, size);
    case DoReallocNull(size) => ReallocNull(c, w.heap, size); CarveKeeps(c, w, size);
    case DoStore(i, k, x) =>
      SizeKeptFacts(c, w.heap.bytes, w.blocks[i]);
      StoreKeeps(c, w, i, k, x);
    case DoStartTest =>
    case DoEndTest =>
    case DoFailAfter(n) =>
  }

  lemma ReallocNull(c: Config, h: Heap, size: nat)
    requires c.Valid() && |h.bytes| == c.capacity
    ensures Realloc(c, h, None, size) == (Malloc(c, h, size).0, Returned(Malloc(c, h, size).1))
  {
  }

  //////////////////////////////////////////////////////////////////////////////
  // Runs
  //////////////////////////////////////////////////////////////////////////////

  ghost predicate LegalRun(c: Config, w: World, ops: seq<Op>)
    requires WorldOk(c, w)
    decreases |ops|
  {
    ops != [] ==>
      && Legal(c, w, ops[0])
      && (StepKeeps(c, w, ops[0]); LegalRun(c, Step(c, w, ops[0]), ops[1..]))
  }

  ghost function Run(c: Config, w: World, ops: seq<Op>): (r: World)
    requires WorldOk(c, w) && LegalRun(c, w, ops)
    decreases |ops|
  {
    if ops == [] then w
    else
      StepKeeps(c, w, ops[0]);
      Run(c, Step(c, w, ops[0]), ops[1..])
  }

  function EmptyWorld(c: Config, bytes: seq<octet>): World {
    World(Heap(bytes, 0, 0, MALLOC_DONT_FAIL), [], 0)
  }

  lemma {:induction false} RunKeeps(c: Config, w: World, ops: seq<Op>)
    requires WorldOk(c, w) && LegalRun(c, w, ops)
    ensures WorldOk(c, Run(c, w, ops))
    decreases |ops|
  {
    hide WorldOk, Step;
    if ops != [] {
      StepKeeps(c, w, ops[0]);
      RunKeeps(c, Step(c, w, ops[0]), ops[1..]);
    }
  }

  lemma EmptyWorldOk(c: Config, bytes: seq<octet>)
    requires c.Valid() && |bytes| == c.capacity
    ensures WorldOk(c, EmptyWorld(c, bytes))
  {
  }

  /* No two blocks overlap, and together with their guards they are all of the used heap. */
  ghost predicate Partitioned(c: Config, w: World)
    requires c.align > 0
  {
    && w.heap.index == TotalSize(c, w.blocks) <= c.capacity
    && forall i, j :: 0 <= i < j < |w.blocks| ==>
         0 <= Start(c, w.blocks[i]) && Start(c, w.blocks[i]) + Total(c, w.blocks[i]) <= Start(c, w.blocks[j])
  }

  /* Every legal run from the empty heap, whatever its bytes are, leaves the blocks tiling the
     used part of the heap, the guards of the live ones intact, and the count equal to the
     live blocks less those that were live at the last StartTest. */
  lemma EveryRun(c: Config, bytes: seq<octet>, ops: seq<Op>)
    requires c.Valid() && |bytes| == c.capacity
    requires WorldOk(c, EmptyWorld(c, bytes)) ==> LegalRun(c, EmptyWorld(c, bytes), ops)
    ensures WorldOk(c, EmptyWorld(c, bytes))
    ensures var w := Run(c, EmptyWorld(c, bytes), ops);
            && Partitioned(c, w)
            && AllIntact(c, w.heap, w.blocks)
            && w.heap.count == LiveCount(w.blocks) - w.base
  {
    hide Intact, SizeKept, Total, LiveCount;
    EmptyWorldOk(c, bytes);
    RunKeeps(c, EmptyWorld(c, bytes), ops);
    var w := Run(c, EmptyWorld(c, bytes), ops);
    IndexIsTotalSize(c, w.blocks, w.heap.index);
    forall i, j | 0 <= i < j < |w.blocks|
      ensures 0 <= Start(c, w.blocks[i]) && Start(c, w.blocks[i]) + Total(c, w.blocks[i]) <= Start(c, w.blocks[j])
    {
      BlockInHeap(c, w.blocks, w.heap.index, i);
      BlocksDisjoint(c, w.blocks, w.heap.index, i, j);
    }
  }

  /* Two blocks that are live at once share no byte, and lie in the heap, aligned. */
  lemma LiveRegionsDisjoint(c: Config, w: World, i: nat, j: nat, p: nat)
    requires WorldOk(c, w) && LiveAt(w, i) && LiveAt(w, j) && i != j
    requires w.blocks[i].mem <= p < w.blocks[i].mem + w.blocks[i].size
    ensures !(w.blocks[j].mem <= p < w.blocks[j].mem + w.blocks[j].size)
    ensures p < w.heap.index <= c.capacity
    ensures Aligned(c, w.blocks[i].mem)
    ensures w.heap.index == TotalSize(c, w.blocks)
  {
    hide RoundUp;
    IndexIsTotalSize(c, w.blocks, w.heap.index);
    BlockInHeap(c, w.blocks, w.heap.index, i);
    UserRegionInBlock(c, w.blocks[i]);
    UserRegionInBlock(c, w.blocks[j]);
    if i < j {
      BlocksDisjoint(c, w.blocks, w.heap.index, i, j);
    } else {
      BlocksDisjoint(c, w.blocks, w.heap.index, j, i);
    }
  }

  /* No legal free or realloc is ever reported as an overrun. */
  lemma NoFalseAlarm(c: Config, w: World, i: nat, size: nat)
    requires WorldOk(c, w) && LiveAt(w, i)
    ensures TrailerInHeap(c, w.heap.bytes, w.blocks[i].mem)
    ensures Free(c, w.heap, Some(w.blocks[i].mem)).1 == false
    ensures Realloc(c, w.heap, Some(w.blocks[i].mem), size).1 != TestFailed
  {
    hide IsOverrun, Malloc, Release, RoundUp, Overlay;
    IntactKeepsSize(c, w.heap.bytes, w.blocks[i]);
    OverrunIsExact(c, w.heap.bytes, w.blocks[i]);
  }

  /* A growth that fails and loses the block, from every orderly heap in which the top block
     could grow in place: a simulated failure that is due strikes after the release. */
  lemma GrowthLosesTopBlock(c: Config, w: World, size: nat)
    requires WorldOk(c, w) && w.blocks != [] && LiveAt(w, |w.blocks| - 1)
    requires c.NoWrap(size) && size > w.blocks[|w.blocks| - 1].size
    requires c.Guard() <= w.blocks[|w.blocks| - 1].mem <= |w.heap.bytes|
    requires FitsInPlace(c, w.heap, w.blocks[|w.blocks| - 1].mem, size)
    ensures WorldOk(c, Step(c, w, DoFailAfter(0)))
    ensures var i := |w.blocks| - 1;
            var w1 := Step(c, w, DoFailAfter(0));
            && TrailerInHeap(c, w1.heap.bytes, w1.blocks[i].mem)
            && Realloc(c, w1.heap, Some(w1.blocks[i].mem), size).1 == Returned(None)
            && Step(c, w1, DoRealloc(i, size)).blocks == w.blocks[..i]
  {
    hide Tiled, Intact, SizeKept, Realloc, RoundUp, HasRoom, KeepsFront, LiveCount, Malloc;
    var i := |w.blocks| - 1;
    StepKeeps(c, w, DoFailAfter(0));
    var w1 := Step(c, w, DoFailAfter(0));
    ReallocEffect(c, w1.heap, w1.blocks, i, size);
    StepKeeps(c, w1, DoRealloc(i, size));
  }

  //////////////////////////////////////////////////////////////////////////////
  // The contents of a block
  //////////////////////////////////////////////////////////////////////////////

  predicate Reclaims(op: Op, j: nat) {
    op == DoFree(j) || (op.DoRealloc? && op.i == j)
  }

  function UserBytes(w: World, j: nat): seq<octet>
    requires j < |w.blocks| && w.blocks[j].mem + w.blocks[j].size <= |w.heap.bytes|
  {
    w.heap.bytes[w.blocks[j].mem..w.blocks[j].mem + w.blocks[j].size]
  }

  /* What the caller's own writes to block j make of its contents. */
  function Written(u: seq<octet>, ops: seq<Op>, j: nat): seq<octet>
    decreases |ops|
  {
    if ops == [] then u
    else
      var v := match ops[0]
               case DoStore(i, k, x) => if i == j && k < |u| then u[k := x] else u
               case _ => u;
      Written(v, ops[1..], j)
  }

  lemma WrittenByOther(u: seq<octet>, op: Op, j: nat)
    requires !(op.DoStore? && op.i == j)
    ensures Written(u, [op], j) == u
  {
    assert [op][1..] == [];
  }

  lemma PrefixContents(c: Config, w: World, t: seq<octet>, j: nat)
    requires LaidOut(c, w.heap, w.blocks) && j < |w.blocks|
    requires |t| == |w.heap.bytes| && t[..w.heap.index] == w.heap.bytes[..w.heap.index]
    ensures w.blocks[j].mem + w.blocks[j].size <= |t|
    ensures t[w.blocks[j].mem..w.blocks[j].mem + w.blocks[j].size] == UserBytes(w, j)
  {
    hide Tiled, SizeKept, RoundUp;
    BlockInHeap(c, w.blocks, w.heap.index, j);
    UserRegionInBlock(c, w.blocks[j]);
    SubRange(t, w.heap.bytes, 0, w.heap.index, w.blocks[j].mem, w.blocks[j].mem + w.blocks[j].size);
  }

  /* Block j of w is block j of w1, with the contents u. */
  ghost predicate KeepsBlock(w: World, w1: World, j: nat, u: seq<octet>)
    requires j < |w.blocks|
  {
    && j < |w1.blocks| && w1.blocks[j] == w.blocks[j]
    && |w1.heap.bytes| == |w.heap.bytes|
    && w.blocks[j].mem + w.blocks[j].size <= |w.heap.bytes|
    && UserBytes(w1, j) == u
  }

  lemma CarvedContents(c: Config, w: World, h: Heap, p: Option<nat>, size: nat, j: nat)
    requires WorldOk(c, w) && j < |w.blocks|
    requires |h.bytes| == |w.heap.bytes| && h.bytes[..w.heap.index] == w.heap.bytes[..w.heap.index]
    ensures w.blocks[j].mem + w.blocks[j].size <= |w.heap.bytes|
    ensures KeepsBlock(w, w.(heap := h, blocks := Carved(w.blocks, p, size)), j, UserBytes(w, j))
  {
    hide Tiled, Intact, SizeKept, LiveCount;
    PrefixContents(c, w, h.bytes, j);
  }

  lemma FreeContents(c: Config, w: World, i: nat, j: nat)
    requires WorldOk(c, w) && LiveAt(w, i) && LiveAt(w, j) && i != j
    ensures w.blocks[j].mem + w.blocks[j].size <= |w.heap.bytes|
    ensures KeepsBlock(w, Step(c, w, DoFree(i)), j, UserBytes(w, j))
  {
    hide Tiled, Intact, SizeKept, LiveCount, Release, RoundUp;
    PrefixContents(c, w, w.heap.bytes, j);
    ReleaseEffect(c, w.heap, w.blocks, i);
  }

  lemma MallocContents(c: Config, w: World, size: nat, j: nat)
    requires WorldOk(c, w) && j < |w.blocks|
    ensures w.blocks[j].mem + w.blocks[j].size <= |w.heap.bytes|
    ensures var (h1, p) := Malloc(c, w.heap, size);
            KeepsBlock(w, w.(heap := h1, blocks := Carved(w.blocks, p, size)), j, UserBytes(w, j))
  {
    hide Intact, SizeKept, Malloc, HasRoom, LiveCount, KeepsBlock, Total, Tiled;
    MallocEffect(c, w.heap, w.blocks, size);
    var (h1, p) := Malloc(c, w.heap, size);
    CarvedContents(c, w, h1, p, size, j);
  }

  /* One step that does not free or reallocate block j keeps it, and its contents change by
     the caller's own write only. */
  lemma StepContents(c: Config, w: World, op: Op, j: nat)
    requires WorldOk(c, w) && Legal(c, w, op) && LiveAt(w, j) && !Reclaims(op, j)
    ensures w.blocks[j].mem + w.blocks[j].size <= |w.heap.bytes|
    ensures KeepsBlock(w, Step(c, w, op), j, Written(UserBytes(w, j), [op], j))
  {
    hide WorldOk, LaidOut, Malloc, Calloc, Realloc, Release, Written;
    OrderlyHeap(c, w);
    LiveBlock(c, w, j);
    if !(op.DoStore? && op.i == j) {
      WrittenByOther(UserBytes(w, j), op, j);
    }
    match op
    case DoMalloc(size) => MallocContents(c, w, size, j);
    case DoCalloc(num, size) =>
      CallocKeeps(c, w, num, size);
      CarvedContents(c, w, Calloc(c, w.heap, num, size).0, Calloc(c, w.heap, num, size).1, num * size, j);
    case DoFree(i) => FreeContents(c, w, i, j);
    case DoFreeNull =>
    case DoRealloc(i, size) => ReallocContents(c, w, i, size, j);
    case DoReallocNull(size) =>
      ReallocNull(c, w.heap, size);
      MallocContents(c, w, size, j);
    case DoStore(i, k, x) => StepStore(c, w, i, k, x); StoreContents(c, w, i, k, x, j);
    case DoStartTest =>
    case DoEndTest =>
    case DoFailAfter(n) =>
  }

  lemma StoreContents(c: Config, w: World, i: nat, k: nat, x: octet, j: nat)
    requires WorldOk(c, w) && LiveAt(w, i) && LiveAt(w, j) && k < w.blocks[i].size
    requires w.blocks[j].mem + w.blocks[j].size <= |w.heap.bytes| && w.blocks[i].mem + k < |w.heap.bytes|
    ensures KeepsBlock(w, w.(heap := w.heap.(bytes := w.heap.bytes[w.blocks[i].mem + k := x])), j,
                       Written(UserBytes(w, j), [DoStore(i, k, x)], j))
  {
    hide WorldOk, Written;
    if i == j {
      WrittenByStore(UserBytes(w, j), j, k, x);
      UpdateInside(w.heap.bytes, w.blocks[j].mem, w.blocks[j].size, k, x);
    } else {
      WrittenByOther(UserBytes(w, j), DoStore(i, k, x), j);
      StoreLeavesOther(c, w, i, k, x, j);
    }
  }

  lemma StoreLeavesOther(c: Config, w: World, i: nat, k: nat, x: octet, j: nat)
    requires WorldOk(c, w) && i != j && i < |w.blocks| && j < |w.blocks| && k < w.blocks[i].size
    requires w.blocks[j].mem + w.blocks[j].size <= |w.heap.bytes| && w.blocks[i].mem + k < |w.heap.bytes|
    ensures w.heap.bytes[w.blocks[i].mem + k := x][w.blocks[j].mem..w.blocks[j].mem + w.blocks[j].size]
         == UserBytes(w, j)
  {
    hide Tiled, Intact, SizeKept, RoundUp, LiveCount;
    var b, s, t := w.blocks[j], w.heap.bytes, w.heap.bytes[w.blocks[i].mem + k := x];
    UserRegionInBlock(c, b);
    StoreElsewhere(c, w, i, j, k, x);
    SubRange(t, s, Start(c, b), Start(c, b) + Total(c, b), b.mem, b.mem + b.size);
  }

  lemma StepStore(c: Config, w: World, i: nat, k: nat, x: octet)
    requires WorldOk(c, w) && LiveAt(w, i) && k < w.blocks[i].size
    ensures w.blocks[i].mem + k < |w.heap.bytes|
    ensures Step(c, w, DoStore(i, k, x)) == w.(heap := w.heap.(bytes := w.heap.bytes[w.blocks[i].mem + k := x]))
  {
    hide Tiled, Intact, SizeKept, RoundUp;
    SizeKeptFacts(c, w.heap.bytes, w.blocks[i]);
  }

  lemma WrittenByStore(u: seq<octet>, j: nat, k: nat, x: octet)
    requires k < |u|
    ensures Written(u, [DoStore(j, k, x)], j) == u[k := x]
  {
    assert [DoStore(j, k, x)][1..] == [];
  }

  lemma UpdateInside(s: seq<octet>, at: nat, n: nat, k: nat, x: octet)
    requires at + n <= |s| && k < n
    ensures s[at + k := x][at..at + n] == s[at..at + n][k := x]
  {
  }

  lemma ReallocatedOthers(c: Config, h: Heap, blocks: Ledger, i: nat, size: nat, j: nat)
    requires LaidOut(c, h, blocks) && i < |blocks| && blocks[i].live && j < |blocks| && i != j
    ensures j < |Reallocated(c, h, blocks, i, size)| && Reallocated(c, h, blocks, i, size)[j] == blocks[j]
    ensures FitsInPlace(c, h, blocks[i].mem, size) ==> j < i
  {
    hide Tiled, SizeKept, RoundUp, HasRoom;
    SizeKeptFacts(c, h.bytes, blocks[i]);
    TopTestIsExact(c, h, blocks, i);
  }

  lemma ReallocContents(c: Config, w: World, i: nat, size: nat, j: nat)
    requires WorldOk(c, w) && LiveAt(w, i) && LiveAt(w, j) && i != j && c.NoWrap(size)
    requires w.blocks[j].mem + w.blocks[j].size <= |w.heap.bytes|
    ensures KeepsBlock(w, Step(c, w, DoRealloc(i, size)), j, UserBytes(w, j))
  {
    hide Tiled, Intact, SizeKept, Realloc, RoundUp, HasRoom, KeepsFront, Reallocated, FitsInPlace;
    hide LiveCount, LosesBlock;
    ReallocEffect(c, w.heap, w.blocks, i, size);
    ReallocatedOthers(c, w.heap, w.blocks, i, size, j);
    var t := Step(c, w, DoRealloc(i, size)).heap.bytes;
    if size <= w.blocks[i].size || !FitsInPlace(c, w.heap, w.blocks[i].mem, size) {
      PrefixContents(c, w, t, j);
    } else {
      BelowContents(c, w, t, i, j);
    }
  }

  lemma BelowContents(c: Config, w: World, t: seq<octet>, i: nat, j: nat)
    requires LaidOut(c, w.heap, w.blocks) && j < i < |w.blocks|
    requires |t| == |w.heap.bytes| && 0 <= Start(c, w.blocks[i]) <= |t|
    requires t[..Start(c, w.blocks[i])] == w.heap.bytes[..Start(c, w.blocks[i])]
    ensures w.blocks[j].mem + w.blocks[j].size <= |t|
    ensures t[w.blocks[j].mem..w.blocks[j].mem + w.blocks[j].size] == UserBytes(w, j)
  {
    hide Tiled, SizeKept, RoundUp;
    BlockInHeap(c, w.blocks, w.heap.index, j);
    UserRegionInBlock(c, w.blocks[j]);
    BlocksDisjoint(c, w.blocks, w.heap.index, j, i);
    SubRange(t, w.heap.bytes, 0, Start(c, w.blocks[i]), w.blocks[j].mem, w.blocks[j].mem + w.blocks[j].size);
  }

  /* Memory safety over runs: as long as a block is not freed or reallocated, it stays where
     it is and holds exactly what its owner wrote, whatever else is allocated, released,
     moved or written in between. */
  lemma {:induction false} RunContents(c: Config, w: World, ops: seq<Op>, j: nat)
    requires WorldOk(c, w) && LegalRun(c, w, ops) && LiveAt(w, j)
    requires forall k :: 0 <= k < |ops| ==> !Reclaims(ops[k], j)
    ensures w.blocks[j].mem + w.blocks[j].size <= |w.heap.bytes|
    ensures KeepsBlock(w, Run(c, w, ops), j, Written(UserBytes(w, j), ops, j))
    decreases |ops|
  {
    if ops == [] {
      PrefixContents(c, w, w.heap.bytes, j);
    } else {
      hide WorldOk, Step, Legal;
      StepKeeps(c, w, ops[0]);
      StepContents(c, w, ops[0], j);
      WrittenFirst(UserBytes(w, j), ops, j);
      RunContents(c, Step(c, w, ops[0]), ops[1..], j);
    }
  }

  lemma WrittenFirst(u: seq<octet>, ops: seq<Op>, j: nat)
    requires ops != []
    ensures Written(u, ops, j) == Written(Written(u, [ops[0]], j), ops[1..], j)
  {
    assert [ops[0]][1..] == [];
  }
}
