/**
 How the heap of UnityHeap is laid out: a ledger of all blocks that were carved from it and
 not given back, what every operation does to the ledger, and what it leaves alone.
 */
module UnityHeapLayout {
  import opened Arithmetic
  import opened Octets
  import opened Sequences
  import opened UnityHeap

  /* A block of the heap: live until it is released, stranded afterwards if it was not on top. */
  datatype Block = Block(mem: nat, size: nat, live: bool)

  type Ledger = seq<Block>

  function Total(c: Config, b: Block): nat
    requires c.align > 0
  {
    c.Guard() + BlockSize(c, b.size)
  }

  function Start(c: Config, b: Block): int {
    b.mem - c.Guard()
  }

  /* The blocks follow one another from offset 0 to `index` without gap or overlap. */
  ghost predicate Tiled(c: Config, blocks: Ledger, index: int)
    requires c.align > 0
    decreases |blocks|
  {
    if blocks == [] then index == 0
    else
      var b := blocks[|blocks| - 1];
      && b.size > 0
      && Start(c, b) + Total(c, b) == index
      && Tiled(c, blocks[..|blocks| - 1], Start(c, b))
  }

  function LiveCount(blocks: Ledger): nat {
    if blocks == [] then 0
    else LiveCount(blocks[..|blocks| - 1]) + if blocks[|blocks| - 1].live then 1 else 0
  }

  function TotalSize(c: Config, blocks: Ledger): nat
    requires c.align > 0
  {
    if blocks == [] then 0 else TotalSize(c, blocks[..|blocks| - 1]) + Total(c, blocks[|blocks| - 1])
  }

  /* The size field of a block is what was stored there. */
  ghost predicate SizeKept(c: Config, bytes: seq<octet>, b: Block) {
    && c.Guard() <= b.mem && b.mem + b.size + |END| <= |bytes|
    && SizeField(c, bytes, b.mem) == b.size
  }

  /* The guards of a block are untouched. */
  ghost predicate Intact(c: Config, bytes: seq<octet>, b: Block) {
    && SizeKept(c, bytes, b)
    && GuardSpace(c, bytes, b.mem) == 0
    && bytes[b.mem + b.size..b.mem + b.size + |END|] == END
  }

  /* The heap and its ledger fit together. */
  ghost predicate LaidOut(c: Config, h: Heap, blocks: Ledger) {
    && c.Valid() && |h.bytes| == c.capacity && h.index <= c.capacity
    && Tiled(c, blocks, h.index)
    && forall i :: 0 <= i < |blocks| && blocks[i].live ==> SizeKept(c, h.bytes, blocks[i])
  }

  ghost predicate AllIntact(c: Config, h: Heap, blocks: Ledger) {
    forall i :: 0 <= i < |blocks| && blocks[i].live ==> Intact(c, h.bytes, blocks[i])
  }

  //////////////////////////////////////////////////////////////////////////////
  // Arithmetic of the layout
  //////////////////////////////////////////////////////////////////////////////

  predicate Aligned(c: Config, n: int)
    requires c.align > 0
  {
    n % c.align == 0
  }

  lemma AlignedSum(c: Config, m: nat, n: nat)
    requires c.Valid() && Aligned(c, m)
    ensures Aligned(c, m + n) == Aligned(c, n)
  {
    ModOfSum(m, n, c.align);
  }

  lemma RoundUpAligned(c: Config, n: nat)
    requires c.Valid()
    ensures Aligned(c, RoundUp(c, n))
  {
    var q := (n + c.align - 1) / c.align;
    DivModUnique(q * c.align, q, 0, c.align);
  }

  lemma RoundUpMonotone(c: Config, m: nat, n: nat)
    requires c.Valid() && m <= n
    ensures RoundUp(c, m) <= RoundUp(c, n)
  {
    hide RoundUp;
    RoundUpQuotient(c, m);
    RoundUpQuotient(c, n);
    RoundUpAtLeast(c, m);
    RoundUpAtLeast(c, n);
    var p, q := (m + c.align - 1) / c.align, (n + c.align - 1) / c.align;
    MulOrder(q, p, c.align);
    MulOrder(p, q, c.align);
  }

  lemma RoundUpQuotient(c: Config, n: nat)
    requires c.Valid()
    ensures RoundUp(c, n) == ((n + c.align - 1) / c.align) * c.align
  {
  }

  /* Rounding up gives the least aligned number that is not smaller. */
  lemma RoundUpIsLeast(c: Config, n: nat, m: nat)
    requires c.Valid() && n <= m && Aligned(c, m)
    ensures RoundUp(c, n) <= m
  {
    RoundUpMonotone(c, n, m);
    RoundUpFixed(c, m);
  }

  lemma RoundUpFixed(c: Config, m: nat)
    requires c.Valid() && Aligned(c, m)
    ensures RoundUp(c, m) == m
  {
    var a, q := c.align, m / c.align;
    assert m + a - 1 == q * a + (a - 1);
    DivModUnique(m + a - 1, q, a - 1, a);
  }

  /* heap_index is the summed size of all blocks, live and stranded. */
  lemma {:induction false} IndexIsTotalSize(c: Config, blocks: Ledger, index: int)
    requires c.Valid() && Tiled(c, blocks, index)
    ensures index == TotalSize(c, blocks)
    decreases |blocks|
  {
    if blocks != [] {
      var m := |blocks| - 1;
      IndexIsTotalSize(c, blocks[..m], Start(c, blocks[m]));
    }
  }

  /* Every block starts and ends on an aligned offset below the index. */
  lemma {:induction false} BlockInHeap(c: Config, blocks: Ledger, index: int, i: nat)
    requires c.Valid() && Tiled(c, blocks, index) && i < |blocks|
    ensures 0 <= Start(c, blocks[i]) && blocks[i].size > 0
    ensures Start(c, blocks[i]) + Total(c, blocks[i]) <= index
    ensures Aligned(c, Start(c, blocks[i])) && Aligned(c, blocks[i].mem) && Aligned(c, index)
    ensures i == |blocks| - 1 <==> Start(c, blocks[i]) + Total(c, blocks[i]) == index
    decreases |blocks|
  {
    hide RoundUp;
    var m := |blocks| - 1;
    var b := blocks[m];
    TiledAligned(c, blocks[..m], Start(c, b));
    RoundUpAligned(c, b.size + |END|);
    AlignedSum(c, Start(c, b), c.Guard());
    AlignedSum(c, b.mem, BlockSize(c, b.size));
    AlignedGuard(c);
    RoundUpAtLeast(c, b.size + |END|);
    if i < m {
      BlockInHeap(c, blocks[..m], Start(c, b), i);
    }
  }

  lemma TiledPop(c: Config, blocks: Ledger, index: int)
    requires c.Valid() && Tiled(c, blocks, index) && blocks != []
    ensures Tiled(c, blocks[..|blocks| - 1], Start(c, blocks[|blocks| - 1]))
  {
  }

  lemma AlignedGuard(c: Config)
    requires c.Valid()
    ensures Aligned(c, c.Guard())
  {
  }

  lemma {:induction false} TiledAligned(c: Config, blocks: Ledger, index: int)
    requires c.Valid() && Tiled(c, blocks, index)
    ensures Aligned(c, index) && index >= 0
    decreases |blocks|
  {
    hide RoundUp;
    if blocks != [] {
      var m := |blocks| - 1;
      var b := blocks[m];
      TiledAligned(c, blocks[..m], Start(c, b));
      RoundUpAligned(c, b.size + |END|);
      AlignedGuard(c);
      AlignedSum(c, Start(c, b), Total(c, b));
      AlignedSum(c, c.Guard(), BlockSize(c, b.size));
    }
  }

  /* Blocks do not overlap: an earlier one ends before a later one starts. */
  lemma {:induction false} BlocksDisjoint(c: Config, blocks: Ledger, index: int, i: nat, j: nat)
    requires c.Valid() && Tiled(c, blocks, index) && i < j < |blocks|
    ensures Start(c, blocks[i]) + Total(c, blocks[i]) <= Start(c, blocks[j])
    decreases |blocks|
  {
    var m := |blocks| - 1;
    if j == m {
      BlockInHeap(c, blocks[..m], Start(c, blocks[m]), i);
    } else {
      BlocksDisjoint(c, blocks[..m], Start(c, blocks[m]), i, j);
    }
  }

  /* The user region and the trailer of a block lie inside it. */
  lemma UserRegionInBlock(c: Config, b: Block)
    requires c.Valid()
    ensures b.mem + b.size + |END| <= Start(c, b) + Total(c, b)
  {
    RoundUpAtLeast(c, b.size + |END|);
  }

  /* The test of release_memory, on a live block whose size field is kept, says exactly
     whether the block is on top. */
  lemma TopTestIsExact(c: Config, h: Heap, blocks: Ledger, i: nat)
    requires LaidOut(c, h, blocks) && i < |blocks| && blocks[i].live
    ensures OnTop(c, h, blocks[i].mem) <==> i == |blocks| - 1
  {
    BlockInHeap(c, blocks, h.index, i);
  }

  //////////////////////////////////////////////////////////////////////////////
  // Overrun detection
  //////////////////////////////////////////////////////////////////////////////

  /* strcmp against "END" is zero exactly on those four characters. */
  lemma StrcmpEndExact(bytes: seq<octet>, at: nat)
    requires at + |END| <= |bytes|
    ensures StrcmpEnd(bytes, at, 0) <==> bytes[at..at + |END|] != END
  {
    var four := bytes[at..at + |END|];
    assert four[0] == bytes[at] && four[1] == bytes[at + 1] && four[2] == bytes[at + 2] && four[3] == bytes[at + 3];
    assert StrcmpEnd(bytes, at, 3) <==> four[3] != END[3];
    assert StrcmpEnd(bytes, at, 2) <==> four[2..] != END[2..];
    assert StrcmpEnd(bytes, at, 1) <==> four[1..] != END[1..];
    assert four == END <==> four[0] == END[0] && four[1..] == END[1..];
  }

  /* For a block whose size field is kept, isOverrun is false exactly when the guards are intact. */
  lemma OverrunIsExact(c: Config, bytes: seq<octet>, b: Block)
    requires SizeKept(c, bytes, b)
    ensures TrailerInHeap(c, bytes, b.mem)
    ensures IsOverrun(c, bytes, b.mem) <==> !Intact(c, bytes, b)
  {
    StrcmpEndExact(bytes, b.mem + b.size);
  }

  /* Guards are read only from the block's own bytes. */
  lemma GuardsDependOnBlock(c: Config, s: seq<octet>, t: seq<octet>, b: Block)
    requires c.Valid() && |s| == |t| && 0 <= Start(c, b)
    requires Start(c, b) + Total(c, b) <= |s|
    requires s[Start(c, b)..Start(c, b) + Total(c, b)] == t[Start(c, b)..Start(c, b) + Total(c, b)]
    ensures SizeKept(c, s, b) <==> SizeKept(c, t, b)
    ensures Intact(c, s, b) <==> Intact(c, t, b)
    ensures b.mem + b.size <= |s| && s[b.mem..b.mem + b.size] == t[b.mem..b.mem + b.size]
  {
    hide Decode, RoundUp;
    UserRegionInBlock(c, b);
    var lo, hi := Start(c, b), Start(c, b) + Total(c, b);
    SubRange(s, t, lo, hi, b.mem - c.Guard(), b.mem - c.align);
    SubRange(s, t, lo, hi, b.mem - c.align, b.mem);
    SubRange(s, t, lo, hi, b.mem, b.mem + b.size);
    SubRange(s, t, lo, hi, b.mem + b.size, b.mem + b.size + |END|);
  }

  /* A write inside the user region of a block leaves its guards alone. */
  lemma UserWriteKeepsGuards(c: Config, bytes: seq<octet>, b: Block, k: nat, x: octet)
    requires c.Valid() && SizeKept(c, bytes, b) && k < b.size
    ensures SizeKept(c, bytes[b.mem + k := x], b)
    ensures Intact(c, bytes, b) ==> Intact(c, bytes[b.mem + k := x], b)
  {
    hide Decode;
    var t := bytes[b.mem + k := x];
    assert t[b.mem - c.Guard()..b.mem - c.align] == bytes[b.mem - c.Guard()..b.mem - c.align];
    assert t[b.mem - c.align..b.mem] == bytes[b.mem - c.align..b.mem];
    assert t[b.mem + b.size..b.mem + b.size + |END|] == bytes[b.mem + b.size..b.mem + b.size + |END|];
  }

  /* The stores of a new block make it intact and touch nothing before it. */
  lemma PutBlockIntact(c: Config, bytes: seq<octet>, g: nat, size: nat)
    requires c.Valid() && g + c.Guard() + size + |END| <= |bytes| && |bytes| <= Limit(c.align)
    ensures Intact(c, PutBlock(c, bytes, g, size), Block(g + c.Guard(), size, true))
    ensures PutBlock(c, bytes, g, size)[..g] == bytes[..g]
    ensures PutBlock(c, bytes, g, size)[g + c.Guard()..g + c.Guard() + size]
         == bytes[g + c.Guard()..g + c.Guard() + size]
  {
    hide Decode, Encode, Overlay;
    var b2 := Overlay(Overlay(bytes, g, Encode(size, c.align)), g + c.align, Encode(0, c.align));
    HeaderStored(c, bytes, g, size);
    TrailerStored(c, b2, g, size);
  }

  /* The trailer store, over a header that is there. */
  lemma TrailerStored(c: Config, bytes: seq<octet>, g: nat, size: nat)
    requires c.Valid() && g + c.Guard() + size + |END| <= |bytes|
    requires Decode(bytes[g..g + c.align]) == size && Decode(bytes[g + c.align..g + c.Guard()]) == 0
    ensures var r := Overlay(bytes, g + c.Guard() + size, END);
            && Intact(c, r, Block(g + c.Guard(), size, true))
            && r[..g] == bytes[..g]
            && r[g + c.Guard()..g + c.Guard() + size] == bytes[g + c.Guard()..g + c.Guard() + size]
  {
    hide Decode, Overlay;
    var a, mem := c.align, g + c.Guard();
    OverlaySlices(bytes, mem + size, END);
    OverlayElsewhere(bytes, mem + size, END, g, g + a);
    OverlayElsewhere(bytes, mem + size, END, g + a, mem);
    OverlayElsewhere(bytes, mem + size, END, 0, g);
    OverlayElsewhere(bytes, mem + size, END, mem, mem + size);
    var r := Overlay(bytes, mem + size, END);
    assert SizeField(c, r, mem) == size && GuardSpace(c, r, mem) == 0;
  }

  /* The two header stores. */
  lemma HeaderStored(c: Config, bytes: seq<octet>, g: nat, size: nat)
    requires c.Valid() && g + c.Guard() + size <= |bytes| && size < Limit(c.align)
    ensures var b2 := Overlay(Overlay(bytes, g, Encode(size, c.align)), g + c.align, Encode(0, c.align));
            && Decode(b2[g..g + c.align]) == size && Decode(b2[g + c.align..g + c.Guard()]) == 0
            && b2[..g] == bytes[..g]
            && b2[g + c.Guard()..g + c.Guard() + size] == bytes[g + c.Guard()..g + c.Guard() + size]
  {
    hide Decode, Encode, Overlay;
    var a, mem := c.align, g + c.Guard();
    var e, z := Encode(size, a), Encode(0, a);
    var b1 := Overlay(bytes, g, e);
    OverlaySlices(bytes, g, e);
    OverlaySlices(b1, g + a, z);
    OverlayElsewhere(b1, g + a, z, g, g + a);
    OverlayElsewhere(b1, g + a, z, 0, g);
    OverlayElsewhere(bytes, g, e, mem, mem + size);
    OverlayElsewhere(b1, g + a, z, mem, mem + size);
    DecodeEncode(size, a);
    DecodeEncode(0, a);
  }
}
