/**
 The allocator as `libs/unity/unity_memory.c` runs it: static variables that its functions
 update in place. Each method is proved to take the state where the function of the same
 name in UnityHeap takes it; UnityHeapRuns says what that keeps over whole runs.
 */
module UnityMemory {
  import opened Octets
  import opened Sequences
  import opened Wrappers
  import opened UnityHeap
  import opened UnityHeapLayout
  import opened UnityHeapSteps
  import opened UnityHeapRuns

  class Memory {
    const c: Config
    const unityHeap: array<octet>
    var heapIndex: nat
    var mallocCount: int
    var mallocFailCountdown: int

    ghost predicate Valid() {
      c.Valid() && unityHeap.Length == c.capacity
    }

    ghost function State(): Heap
      reads this, unityHeap
    {
      Heap(unityHeap[..], heapIndex, mallocCount, mallocFailCountdown)
    }

    constructor (c: Config)
      requires c.Valid()
      ensures Valid() && this.c == c && fresh(unityHeap)
      ensures State() == Heap(seq(c.capacity, _ => 0), 0, 0, MALLOC_DONT_FAIL)
    {
      this.c := c;
      unityHeap := new octet[c.capacity](_ => 0);
      heapIndex, mallocCount, mallocFailCountdown := 0, 0, MALLOC_DONT_FAIL;
    }

    method StartTest()
      modifies `mallocCount, `mallocFailCountdown
      ensures mallocCount == 0 && mallocFailCountdown == MALLOC_DONT_FAIL
    {
      mallocCount := 0;
      mallocFailCountdown := MALLOC_DONT_FAIL;
    }

    /* leaks: the test is failed. */
    method EndTest() returns (leaks: bool)
      modifies `mallocFailCountdown
      ensures mallocFailCountdown == MALLOC_DONT_FAIL
      ensures leaks == (mallocCount != 0)
    {
      mallocFailCountdown := MALLOC_DONT_FAIL;
      leaks := mallocCount != 0;
    }

    method MakeMallocFailAfterCount(countdown: int)
      modifies `mallocFailCountdown
      ensures mallocFailCountdown == countdown
    {
      mallocFailCountdown := countdown;
    }

    /* A store, memcpy or memset of the bytes b at offset `at`. */
    method StoreBytes(at: nat, b: seq<octet>)
      requires at + |b| <= unityHeap.Length
      modifies unityHeap
      ensures unityHeap[..] == Overlay(old(unityHeap[..]), at, b)
    {
      forall k | 0 <= k < |b| {
        unityHeap[at + k] := b[k];
      }
    }

    method UnityMalloc(size: nat) returns (mem: Option<nat>)
      requires Valid() && c.NoWrap(size)
      modifies this, unityHeap
      ensures (State(), mem) == Malloc(c, old(State()), size)
    {
      hide Overlay, Encode, RoundUp;
      RoundUpAtLeast(c, size + |END|);
      var totalSize := c.Guard() + BlockSize(c, size);
      if mallocFailCountdown != MALLOC_DONT_FAIL {
        if mallocFailCountdown == 0 {
          return None;
        }
        mallocFailCountdown := mallocFailCountdown - 1;
      }
      if size == 0 {
        return None;
      }
      if heapIndex + totalSize > c.capacity {
        return None;
      }
      var guard := heapIndex;
      heapIndex := heapIndex + totalSize;
      mallocCount := mallocCount + 1;
      StoreBytes(guard, Encode(size, c.align));
      StoreBytes(guard + c.align, Encode(0, c.align));
      var m := guard + c.Guard();
      StoreBytes(m + size, END);
      mem := Some(m);
    }

    method ReleaseMemory(mem: nat)
      requires Valid() && c.Guard() <= mem <= unityHeap.Length
      modifies `mallocCount, `heapIndex
      ensures State() == Release(c, old(State()), mem)
    {
      hide Decode, RoundUp;
      mallocCount := mallocCount - 1;
      var blockSize := BlockSize(c, SizeField(c, unityHeap[..], mem));
      if mem == heapIndex - blockSize {
        heapIndex := heapIndex - (c.Guard() + blockSize);
      }
    }

    /* failed: the overrun is reported. The block is released all the same. */
    method UnityFree(mem: Option<nat>) returns (failed: bool)
      requires Valid() && (mem.Some? ==> TrailerInHeap(c, unityHeap[..], mem.value))
      modifies `mallocCount, `heapIndex
      ensures (State(), failed) == Free(c, old(State()), mem)
    {
      hide Decode, RoundUp, StrcmpEnd;
      if mem.None? {
        return false;
      }
      failed := IsOverrun(c, unityHeap[..], mem.value);
      ReleaseMemory(mem.value);
    }

    method UnityCalloc(num: nat, size: nat) returns (mem: Option<nat>)
      requires Valid() && c.NoWrap(num * size)
      modifies this, unityHeap
      ensures (State(), mem) == Calloc(c, old(State()), num, size)
    {
      hide Overlay, Malloc, Repeat;
      mem := UnityMalloc(num * size);
      if mem.None? {
        return;
      }
      StoreBytes(mem.value, Repeat<octet>(0, num * size));
    }

    method UnityRealloc(oldMem: Option<nat>, size: nat) returns (out: Outcome)
      requires Valid() && c.NoWrap(size)
      requires heapIndex <= c.capacity
      requires oldMem.Some? ==> InUse(c, State(), oldMem.value)
      modifies this, unityHeap
      ensures (State(), out) == Realloc(c, old(State()), oldMem, size)
    {
      hide Overlay, Malloc, Release, Decode, IsOverrun, RoundUp;
      if oldMem.None? {
        var mem := UnityMalloc(size);
        return Returned(mem);
      }
      var p := oldMem.value;
      if IsOverrun(c, unityHeap[..], p) {
        ReleaseMemory(p);
        return TestFailed;
      }
      if size == 0 {
        ReleaseMemory(p);
        return Returned(None);
      }
      var oldSize := SizeField(c, unityHeap[..], p);
      if oldSize >= size {
        return Returned(oldMem);
      }
      var oldTotalSize := BlockSize(c, oldSize);
      if p == heapIndex - oldTotalSize && heapIndex - oldTotalSize + BlockSize(c, size) <= c.capacity {
        ReleaseMemory(p);
        var mem := UnityMalloc(size);
        return Returned(mem);
      }
      var newMem := UnityMalloc(size);
      if newMem.None? {
        return Returned(None);
      }
      MallocBelow(c, old(State()), size);
      SubRange(unityHeap[..], old(unityHeap[..]), 0, old(heapIndex), p, p + oldSize);
      CopyBlock(p, newMem.value, oldSize);
      out := Returned(newMem);
    }

    /* The last two statements of unity_realloc: copy, and release the old block. */
    method CopyBlock(p: nat, q: nat, oldSize: nat)
      requires Valid() && c.Guard() <= p && p + oldSize <= unityHeap.Length && q + oldSize <= unityHeap.Length
      modifies unityHeap, `mallocCount, `heapIndex
      ensures var copied := Overlay(old(unityHeap[..]), q, old(unityHeap[p..p + oldSize]));
              State() == Release(c, old(State()).(bytes := copied), p)
    {
      hide Overlay, Release, Decode;
      StoreBytes(q, unityHeap[p..p + oldSize]);
      ReleaseMemory(p);
    }
  }

  /* The pointer is to a block, size and trailer included, in the used part of the heap. */
  predicate InUse(c: Config, h: Heap, mem: nat) {
    && c.Guard() <= mem <= |h.bytes|
    && mem + SizeField(c, h.bytes, mem) + |END| <= h.index <= |h.bytes|
  }

  /* Every live block of a well laid-out heap is. */
  lemma LiveBlocksInUse(c: Config, h: Heap, blocks: Ledger, i: nat)
    requires LaidOut(c, h, blocks) && i < |blocks| && blocks[i].live
    ensures InUse(c, h, blocks[i].mem)
  {
    hide RoundUp, Tiled;
    BlockInHeap(c, blocks, h.index, i);
    UserRegionInBlock(c, blocks[i]);
  }

  /* The pointer that the caller of an operation on a block has. */
  predicate IsPointerOf(w: World, op: Op, mem: nat) {
    match op
    case DoFree(i) => i < |w.blocks| && mem == w.blocks[i].mem
    case DoRealloc(i, _) => i < |w.blocks| && mem == w.blocks[i].mem
    case DoStore(i, _, _) => i < |w.blocks| && mem == w.blocks[i].mem
    case _ => true
  }

  /* Any legal operation, on the static variables: they go where Step says. In particular
     every legal call meets what the methods demand. */
  method Perform(m: Memory, ghost w: World, op: Op, mem: nat)
    requires m.Valid() && m.State() == w.heap
    requires WorldOk(m.c, w) && Legal(m.c, w, op) && IsPointerOf(w, op, mem)
    modifies m, m.unityHeap
    ensures m.State() == Step(m.c, w, op).heap
    ensures WorldOk(m.c, Step(m.c, w, op))
  {
    hide WorldOk, LaidOut, Malloc, Calloc, Free, Realloc, Reallocated, InUse, TrailerInHeap;
    OrderlyHeap(m.c, w);
    StepKeeps(m.c, w, op);
    match op
    case DoMalloc(size) => var p := m.UnityMalloc(size);
    case DoCalloc(num, size) => var p := m.UnityCalloc(num, size);
    case DoFree(i) =>
      LiveBlock(m.c, w, i);
      var failed := m.UnityFree(Some(mem));
    case DoFreeNull => var failed := m.UnityFree(None);
    case DoRealloc(i, size) =>
      LiveBlocksInUse(m.c, w.heap, w.blocks, i);
      var out := m.UnityRealloc(Some(mem), size);
    case DoReallocNull(size) => var out := m.UnityRealloc(None, size);
    case DoStore(i, k, x) =>
      LiveBlock(m.c, w, i);
      m.unityHeap[mem + k] := x;
    case DoStartTest => m.StartTest();
    case DoEndTest => var leaks := m.EndTest();
    case DoFailAfter(n) => m.MakeMallocFailAfterCount(n);
  }

  lemma MallocBelow(c: Config, h: Heap, size: nat)
    requires c.Valid() && |h.bytes| == c.capacity && h.index <= c.capacity
    ensures Malloc(c, h, size).0.bytes[..h.index] == h.bytes[..h.index]
  {
    hide RoundUp, PutBlock;
    if Malloc(c, h, size).1.Some? {
      RoundUpAtLeast(c, size + |END|);
      PutBlockIntact(c, h.bytes, h.index, size);
    }
  }
}
