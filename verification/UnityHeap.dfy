/**
 The guarded bump allocator of `libs/unity/unity_memory.c` in its static-heap variant
 (UNITY_EXCLUDE_STDLIB_MALLOC), as functions on the four variables it keeps: the heap
 bytes, `heap_index`, `malloc_count` and `malloc_fail_countdown`. A pointer is the offset
 of the user region in the heap. Heap size and pointer width are parameters.
 */
module UnityHeap {
  import opened Octets
  import opened Sequences
  import opened Wrappers

  /* align: UNITY_POINTER_WIDTH / 8, taken to be sizeof(size_t) as well. */
  datatype Config = Config(align: nat, capacity: nat) {
    /* SIZE_MAX is one less than Limit(align). */
    ghost predicate Valid() {
      && (align == 2 || align == 4 || align == 8)
      && capacity <= Limit(align)
    }

    /* sizeof(Guard) */
    function Guard(): nat { 2 * align }

    /* The size computations for a request of this size stay below SIZE_MAX. */
    predicate NoWrap(size: nat) {
      capacity + Guard() + size + 4 + align <= Limit(align)
    }
  }

  const MALLOC_DONT_FAIL := -1
  const END: seq<octet> := [69, 78, 68, 0]  // "END" with its terminator

  datatype Heap = Heap(bytes: seq<octet>, index: nat, count: int, countdown: int)

  //////////////////////////////////////////////////////////////////////////////
  // The functions of unity_memory.c
  //////////////////////////////////////////////////////////////////////////////

  /* unity_size_round_up */
  function RoundUp(c: Config, size: nat): nat
    requires c.align > 0
  {
    ((size + c.align - 1) / c.align) * c.align
  }

  /* Bytes of a block between its user pointer and its end. */
  function BlockSize(c: Config, size: nat): nat
    requires c.align > 0
  {
    RoundUp(c, size + |END|)
  }

  function SizeField(c: Config, bytes: seq<octet>, mem: nat): nat
    requires c.Guard() <= mem <= |bytes|
  {
    Decode(bytes[mem - c.Guard()..mem - c.align])
  }

  function GuardSpace(c: Config, bytes: seq<octet>, mem: nat): nat
    requires c.Guard() <= mem <= |bytes|
  {
    Decode(bytes[mem - c.align..mem])
  }

  /* strcmp(&bytes[at], "END") != 0, comparing from the k-th character on and stopping at
     the first difference or at the terminator. */
  predicate StrcmpEnd(bytes: seq<octet>, at: nat, k: nat)
    requires k < |END|
    requires at + |END| <= |bytes|
    decreases |END| - k
  {
    if bytes[at + k] != END[k] then true
    else if END[k] == 0 then false
    else assert k != 3; StrcmpEnd(bytes, at, k + 1)
  }

  /* Where isOverrun looks for the trailer is inside the heap. */
  predicate TrailerInHeap(c: Config, bytes: seq<octet>, mem: nat) {
    c.Guard() <= mem <= |bytes| && mem + SizeField(c, bytes, mem) + |END| <= |bytes|
  }

  predicate IsOverrun(c: Config, bytes: seq<octet>, mem: nat)
    requires TrailerInHeap(c, bytes, mem)
  {
    GuardSpace(c, bytes, mem) != 0 || StrcmpEnd(bytes, mem + SizeField(c, bytes, mem), 0)
  }

  /* The header and trailer stores of a new block whose guard starts at g. */
  function PutBlock(c: Config, bytes: seq<octet>, g: nat, size: nat): (r: seq<octet>)
    requires g + c.Guard() + size + |END| <= |bytes|
    ensures |r| == |bytes|
  {
    var b1 := Overlay(bytes, g, Encode(size, c.align));
    var b2 := Overlay(b1, g + c.align, Encode(0, c.align));
    Overlay(b2, g + c.Guard() + size, END)
  }

  function Tick(countdown: int): int {
    if countdown == MALLOC_DONT_FAIL then countdown else countdown - 1
  }

  /* Whether the bump pointer has room for a block of this size. */
  predicate HasRoom(c: Config, h: Heap, size: nat)
    requires c.align > 0
  {
    h.index + c.Guard() + BlockSize(c, size) <= c.capacity
  }

  lemma RoundUpAtLeast(c: Config, n: nat)
    requires c.align > 0
    ensures n <= RoundUp(c, n) < n + c.align
  {
    var a, q := c.align, (n + c.align - 1) / c.align;
    assert n + a - 1 == q * a + (n + a - 1) % a;
  }

  function Malloc(c: Config, h: Heap, size: nat): (r: (Heap, Option<nat>))
    requires c.Valid() && |h.bytes| == c.capacity
    ensures |r.0.bytes| == c.capacity
    ensures r.1.Some? ==> r.1.value == h.index + c.Guard() && r.1.value + size + |END| <= c.capacity
  {
    if h.countdown == 0 then (h, None)
    else
      var h := h.(countdown := Tick(h.countdown));
      if size == 0 || !HasRoom(c, h, size) then (h, None)
      else
        RoundUpAtLeast(c, size + |END|);
        var g := h.index;
        (Heap(PutBlock(c, h.bytes, g, size), g + c.Guard() + BlockSize(c, size), h.count + 1, h.countdown),
         Some(g + c.Guard()))
  }

  /* release_memory's test that the block is the last one in the heap. */
  predicate OnTop(c: Config, h: Heap, mem: nat)
    requires c.align > 0 && c.Guard() <= mem <= |h.bytes|
  {
    mem == h.index - BlockSize(c, SizeField(c, h.bytes, mem))
  }

  function Release(c: Config, h: Heap, mem: nat): Heap
    requires c.align > 0 && c.Guard() <= mem <= |h.bytes|
  {
    var block := BlockSize(c, SizeField(c, h.bytes, mem));
    if OnTop(c, h, mem) then h.(count := h.count - 1, index := h.index - (c.Guard() + block))
    else h.(count := h.count - 1)
  }

  /* unity_free: the flag says that the test is failed for an overrun. */
  function Free(c: Config, h: Heap, mem: Option<nat>): (Heap, bool)
    requires c.Valid() && (mem.Some? ==> TrailerInHeap(c, h.bytes, mem.value))
  {
    if mem.None? then (h, false)
    else (Release(c, h, mem.value), IsOverrun(c, h.bytes, mem.value))
  }

  function Calloc(c: Config, h: Heap, num: nat, size: nat): (r: (Heap, Option<nat>))
    requires c.Valid() && |h.bytes| == c.capacity
    ensures |r.0.bytes| == c.capacity
  {
    MallocZeroed(c, h, num * size)
  }

  function MallocZeroed(c: Config, h: Heap, n: nat): (r: (Heap, Option<nat>))
    requires c.Valid() && |h.bytes| == c.capacity
    ensures |r.0.bytes| == c.capacity
  {
    var (h1, mem) := Malloc(c, h, n);
    if mem.None? then (h1, None)
    else (h1.(bytes := Overlay(h1.bytes, mem.value, Repeat<octet>(0, n))), mem)
  }

  datatype Outcome = Returned(mem: Option<nat>) | TestFailed

  /* The in-place growth test of unity_realloc. */
  predicate FitsInPlace(c: Config, h: Heap, mem: nat, size: nat)
    requires c.align > 0 && c.Guard() <= mem <= |h.bytes|
  {
    && OnTop(c, h, mem)
    && h.index - BlockSize(c, SizeField(c, h.bytes, mem)) + BlockSize(c, size) <= c.capacity
  }

  function Realloc(c: Config, h: Heap, oldMem: Option<nat>, size: nat): (Heap, Outcome)
    requires c.Valid() && |h.bytes| == c.capacity
    requires oldMem.Some? ==> TrailerInHeap(c, h.bytes, oldMem.value)
  {
    if oldMem.None? then
      var (h1, mem) := Malloc(c, h, size);
      (h1, Returned(mem))
    else
      var p := oldMem.value;
      if IsOverrun(c, h.bytes, p) then (Release(c, h, p), TestFailed)
      else if size == 0 then (Release(c, h, p), Returned(None))
      else if SizeField(c, h.bytes, p) >= size then (h, Returned(oldMem))
      else if FitsInPlace(c, h, p, size) then
        var (h1, mem) := Malloc(c, Release(c, h, p), size);
        (h1, Returned(mem))
      else Move(c, h, p, size)
  }

  /* The copying path of unity_realloc: the old block is released only if there is a new one. */
  function Move(c: Config, h: Heap, p: nat, size: nat): (Heap, Outcome)
    requires c.Valid() && |h.bytes| == c.capacity
    requires c.Guard() <= p <= |h.bytes| && p + SizeField(c, h.bytes, p) <= |h.bytes|
    requires SizeField(c, h.bytes, p) < size
  {
    var (h1, mem) := Malloc(c, h, size);
    if mem.None? then (h1, Returned(None))
    else
      var copied := h1.(bytes := Overlay(h1.bytes, mem.value, h.bytes[p..p + SizeField(c, h.bytes, p)]));
      (Release(c, copied, p), Returned(mem))
  }
}
