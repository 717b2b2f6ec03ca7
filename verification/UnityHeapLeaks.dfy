/**
 The leak check of UnityMalloc_StartTest and UnityMalloc_EndTest: which runs of a test it
 judges rightly, and what it says about all others.
 */
module UnityHeapLeaks {
  import opened Sequences
  import opened Wrappers
  import opened UnityHeap
  import opened UnityHeapLayout
  import opened UnityHeapSteps
  import opened UnityHeapRuns

  /* The leak check after a run counts blocks: it fails exactly when the number of live blocks
     differs from that at UnityMalloc_StartTest. */
  lemma LeakCheckCounts(c: Config, w: World)
    requires WorldOk(c, w)
    ensures EndTest(w.heap).1 <==> LiveCount(w.blocks) != w.base
  {
  }

  predicate StaysInTest(ops: seq<Op>) {
    forall k :: 0 <= k < |ops| ==> !ops[k].DoStartTest?
  }

  /* No operation frees or reallocates one of the first n blocks. */
  predicate Spares(ops: seq<Op>, n: nat) {
    forall k :: 0 <= k < |ops| ==> !(ops[k].DoFree? && ops[k].i < n) && !(ops[k].DoRealloc? && ops[k].i < n)
  }

  lemma StepSpares(c: Config, w: World, op: Op, n: nat)
    requires WorldOk(c, w) && Legal(c, w, op) && n <= |w.blocks|
    requires StaysInTest([op]) && Spares([op], n)
    ensures var w1 := Step(c, w, op);
            n <= |w1.blocks| && w1.blocks[..n] == w.blocks[..n] && w1.base == w.base
  {
    hide WorldOk, LaidOut, Malloc, Calloc, Realloc, Free, Reallocated;
    OrderlyHeap(c, w);
    assert [op][0] == op;
    if op.DoFree? {
      LiveBlock(c, w, op.i);
    } else if op.DoRealloc? {
      LiveBlock(c, w, op.i);
      ReallocatedSpares(c, w.heap, w.blocks, op.i, op.size, n);
    }
  }

  lemma ReallocatedSpares(c: Config, h: Heap, blocks: Ledger, i: nat, size: nat, n: nat)
    requires LaidOut(c, h, blocks) && n <= i < |blocks| && blocks[i].live
    requires c.Guard() <= blocks[i].mem <= |h.bytes|
    ensures n <= |Reallocated(c, h, blocks, i, size)| && Reallocated(c, h, blocks, i, size)[..n] == blocks[..n]
  {
    hide Tiled, SizeKept, RoundUp, HasRoom;
    TopTestIsExact(c, h, blocks, i);
  }

  lemma {:induction false} RunSpares(c: Config, w: World, ops: seq<Op>, n: nat)
    requires WorldOk(c, w) && LegalRun(c, w, ops) && n <= |w.blocks|
    requires StaysInTest(ops) && Spares(ops, n)
    ensures var w1 := Run(c, w, ops);
            n <= |w1.blocks| && w1.blocks[..n] == w.blocks[..n] && w1.base == w.base
    decreases |ops|
  {
    hide WorldOk, Step, Legal;
    if ops != [] {
      assert [ops[0]][0] == ops[0];
      StepKeeps(c, w, ops[0]);
      StepSpares(c, w, ops[0], n);
      RunSpares(c, Step(c, w, ops[0]), ops[1..], n);
    }
  }

  lemma {:induction false} LiveCountSplit(blocks: Ledger, n: nat)
    requires n <= |blocks|
    ensures LiveCount(blocks) == LiveCount(blocks[..n]) + LiveCount(blocks[n..])
    decreases |blocks|
  {
    var m := |blocks| - 1;
    if n <= m {
      LiveCountSplit(blocks[..m], n);
      assert blocks[n..][..m - n] == blocks[..m][n..] && blocks[..m][..n] == blocks[..n];
    } else {
      assert blocks[..n] == blocks && blocks[n..] == [];
    }
  }

  lemma {:induction false} LiveCountZero(blocks: Ledger)
    ensures LiveCount(blocks) == 0 <==> forall i :: 0 <= i < |blocks| ==> !blocks[i].live
    decreases |blocks|
  {
    if blocks != [] {
      var m := |blocks| - 1;
      LiveCountZero(blocks[..m]);
      assert forall i :: 0 <= i < m ==> blocks[..m][i] == blocks[i];
    }
  }

  /* A test that frees and reallocates only blocks of its own is judged rightly: from its
     start, over every legal run, the leak check fails exactly when one of its blocks is live. */
  lemma LeakCheckIsExact(c: Config, w: World, ops: seq<Op>)
    requires WorldOk(c, w) && LegalRun(c, w, ops) && w.base == LiveCount(w.blocks)
    requires StaysInTest(ops) && Spares(ops, |w.blocks|)
    ensures var w1 := Run(c, w, ops);
            EndTest(w1.heap).1 <==> exists i :: |w.blocks| <= i < |w1.blocks| && w1.blocks[i].live
  {
    hide LaidOut, AllIntact, Step, Legal;
    var n, w1 := |w.blocks|, Run(c, w, ops);
    RunKeeps(c, w, ops);
    RunSpares(c, w, ops, n);
    LeakCheckCounts(c, w1);
    LiveCountSplit(w1.blocks, n);
    assert w.blocks[..n] == w.blocks;
    LiveCountZero(w1.blocks[n..]);
    assert forall i :: n <= i < |w1.blocks| ==> w1.blocks[i] == w1.blocks[n..][i - n];
  }

  //////////////////////////////////////////////////////////////////////////////
  // Whose blocks they are
  //////////////////////////////////////////////////////////////////////////////

  /* For every block of the ledger, whether the test made it: new blocks are its own, but a
     block that was moved by realloc remains whose it was. Blocks leave from the end only. */
  function OwnAfter(own: seq<bool>, op: Op, after: nat): (r: seq<bool>)
    requires after <= |own| + 1
    ensures |r| == after
  {
    if after <= |own| then own[..after]
    else own + [if op.DoRealloc? && op.i < |own| then own[op.i] else true]
  }

  lemma LedgerGrowsByOne(c: Config, w: World, op: Op)
    requires WorldOk(c, w) && Legal(c, w, op)
    ensures |Step(c, w, op).blocks| <= |w.blocks| + 1
  {
    hide WorldOk, LaidOut, Malloc, Calloc, Realloc, Free, FitsInPlace, HasRoom;
    OrderlyHeap(c, w);
    if op.DoRealloc? {
      LiveBlock(c, w, op.i);
    }
  }

  ghost function Owners(c: Config, w: World, ops: seq<Op>, own: seq<bool>): (r: seq<bool>)
    requires WorldOk(c, w) && LegalRun(c, w, ops) && |own| == |w.blocks|
    ensures |r| == |Run(c, w, ops).blocks|
    decreases |ops|
  {
    hide WorldOk, Step, Legal;
    if ops == [] then own
    else
      StepKeeps(c, w, ops[0]);
      LedgerGrowsByOne(c, w, ops[0]);
      var w1 := Step(c, w, ops[0]);
      Owners(c, w1, ops[1..], OwnAfter(own, ops[0], |w1.blocks|))
  }

  /* The live blocks that are the test's own, or inherited. */
  function LiveOf(blocks: Ledger, own: seq<bool>, mine: bool): nat
    requires |own| == |blocks|
    decreases |blocks|
  {
    if blocks == [] then 0
    else
      var m := |blocks| - 1;
      LiveOf(blocks[..m], own[..m], mine) + if blocks[m].live && own[m] == mine then 1 else 0
  }

  lemma {:induction false} LiveOfBoth(blocks: Ledger, own: seq<bool>)
    requires |own| == |blocks|
    ensures LiveOf(blocks, own, true) + LiveOf(blocks, own, false) == LiveCount(blocks)
    decreases |blocks|
  {
    if blocks != [] {
      LiveOfBoth(blocks[..|blocks| - 1], own[..|blocks| - 1]);
    }
  }

  lemma {:induction false} LiveOfFront(blocks: Ledger, own: seq<bool>, mine: bool, k: nat)
    requires |own| == |blocks| && k <= |blocks|
    ensures LiveOf(blocks[..k], own[..k], mine) <= LiveOf(blocks, own, mine)
    decreases |blocks|
  {
    if k < |blocks| {
      var m := |blocks| - 1;
      LiveOfFront(blocks[..m], own[..m], mine, k);
      assert blocks[..m][..k] == blocks[..k] && own[..m][..k] == own[..k];
    } else {
      assert blocks[..k] == blocks && own[..k] == own;
    }
  }

  lemma LiveOfSnoc(blocks: Ledger, own: seq<bool>, mine: bool, b: Block, x: bool)
    requires |own| == |blocks|
    ensures LiveOf(blocks + [b], own + [x], mine) == LiveOf(blocks, own, mine) + if b.live && x == mine then 1 else 0
  {
    assert (blocks + [b])[..|blocks|] == blocks && (own + [x])[..|own|] == own;
  }

  lemma {:induction false} LiveOfMark(blocks: Ledger, own: seq<bool>, mine: bool, i: nat)
    requires |own| == |blocks| && i < |blocks| && blocks[i].live
    ensures LiveOf(blocks[i := blocks[i].(live := false)], own, mine)
         == LiveOf(blocks, own, mine) - if own[i] == mine then 1 else 0
    decreases |blocks|
  {
    var m := |blocks| - 1;
    var marked := blocks[i := blocks[i].(live := false)];
    if i == m {
      assert marked[..m] == blocks[..m];
    } else {
      LiveOfMark(blocks[..m], own[..m], mine, i);
      assert marked[..m] == blocks[..m][i := blocks[i].(live := false)];
    }
  }

  lemma LiveOfReleased(blocks: Ledger, own: seq<bool>, mine: bool, i: nat)
    requires |own| == |blocks| && i < |blocks| && blocks[i].live
    ensures |Released(blocks, i)| <= |own|
    ensures LiveOf(Released(blocks, i), own[..|Released(blocks, i)|], mine)
         == LiveOf(blocks, own, mine) - if own[i] == mine then 1 else 0
  {
    if i < |blocks| - 1 {
      LiveOfMark(blocks, own, mine, i);
      assert own[..|blocks|] == own;
    }
  }

  /* Reallocating never makes more live blocks of either kind. */
  lemma LiveOfReallocated(c: Config, h: Heap, blocks: Ledger, own: seq<bool>, mine: bool, i: nat, size: nat)
    requires LaidOut(c, h, blocks) && i < |blocks| && blocks[i].live && |own| == |blocks|
    requires c.Guard() <= blocks[i].mem <= |h.bytes|
    ensures var after := Reallocated(c, h, blocks, i, size);
            && |after| <= |own| + 1
            && LiveOf(after, OwnAfter(own, DoRealloc(i, size), |after|), mine) <= LiveOf(blocks, own, mine)
  {
    hide HasRoom, Tiled, SizeKept, RoundUp, LiveOf;
    assert own[..|blocks|] == own;
    if size == 0 {
      LiveOfReleased(blocks, own, mine, i);
    } else if size > blocks[i].size {
      TopTestIsExact(c, h, blocks, i);
      if FitsInPlace(c, h, blocks[i].mem, size) {
        LiveOfFront(blocks, own, mine, i);
        GrownTop(blocks, own, mine, Block(blocks[i].mem, size, true));
      } else {
        LiveOfMoved(blocks, own, mine, i, Block(h.index + c.Guard(), size, true));
      }
    }
  }

  lemma LiveOfMoved(blocks: Ledger, own: seq<bool>, mine: bool, i: nat, moved: Block)
    requires |own| == |blocks| && i < |blocks| && blocks[i].live && moved.live
    ensures |Released(blocks + [moved], i)| == |own| + 1
    ensures LiveOf(Released(blocks + [moved], i), own + [own[i]], mine) == LiveOf(blocks, own, mine)
  {
    hide LiveOf;
    LiveOfSnoc(blocks, own, mine, moved, own[i]);
    assert (blocks + [moved])[i] == blocks[i];
    LiveOfReleased(blocks + [moved], own + [own[i]], mine, i);
    assert (own + [own[i]])[..|own| + 1] == own + [own[i]];
  }

  lemma GrownTop(blocks: Ledger, own: seq<bool>, mine: bool, b: Block)
    requires |own| == |blocks| && blocks != [] && blocks[|blocks| - 1].live == b.live
    ensures LiveOf(blocks[..|blocks| - 1] + [b], own, mine) == LiveOf(blocks, own, mine)
  {
    assert (blocks[..|blocks| - 1] + [b])[..|blocks| - 1] == blocks[..|blocks| - 1];
  }

  /* Inherited blocks can be given back but not made. */
  lemma StepInherits(c: Config, w: World, op: Op, own: seq<bool>)
    requires WorldOk(c, w) && Legal(c, w, op) && |own| == |w.blocks|
    ensures var after := Step(c, w, op).blocks;
            && |after| <= |own| + 1
            && LiveOf(after, OwnAfter(own, op, |after|), false) <= LiveOf(w.blocks, own, false)
  {
    hide WorldOk, LaidOut, Malloc, Calloc, Realloc, Free, Reallocated, LiveOf, Released;
    OrderlyHeap(c, w);
    assert own[..|w.blocks|] == own;
    match op
    case DoMalloc(size) => CarvedInherits(w.blocks, own, Malloc(c, w.heap, size).1, size);
    case DoCalloc(num, size) => CarvedInherits(w.blocks, own, Calloc(c, w.heap, num, size).1, num * size);
    case DoReallocNull(size) =>
      ReallocNull(c, w.heap, size);
      CarvedInherits(w.blocks, own, Malloc(c, w.heap, size).1, size);
    case DoFree(i) =>
      LiveBlock(c, w, i);
      LiveOfReleased(w.blocks, own, false, i);
    case DoRealloc(i, size) =>
      LiveBlock(c, w, i);
      LiveOfReallocated(c, w.heap, w.blocks, own, false, i, size);
    case DoFreeNull =>
    case DoStore(i, k, x) =>
      LiveBlock(c, w, i);
    case DoStartTest =>
    case DoEndTest =>
    case DoFailAfter(n) =>
  }

  lemma CarvedInherits(blocks: Ledger, own: seq<bool>, p: Option<nat>, size: nat)
    requires |own| == |blocks|
    ensures |Carved(blocks, p, size)| <= |own| + 1
    ensures var after := Carved(blocks, p, size);
            LiveOf(after, if |after| <= |own| then own[..|after|] else own + [true], false)
            == LiveOf(blocks, own, false)
  {
    hide LiveOf;
    if p.Some? {
      LiveOfSnoc(blocks, own, false, Block(p.value, size, true), true);
    } else {
      assert own[..|blocks|] == own;
    }
  }

  lemma {:induction false} RunInherits(c: Config, w: World, ops: seq<Op>, own: seq<bool>)
    requires WorldOk(c, w) && LegalRun(c, w, ops) && |own| == |w.blocks|
    ensures LiveOf(Run(c, w, ops).blocks, Owners(c, w, ops, own), false) <= LiveOf(w.blocks, own, false)
    decreases |ops|
  {
    hide WorldOk, Step, Legal, LiveOf, OwnAfter;
    if ops != [] {
      StepKeeps(c, w, ops[0]);
      LedgerGrowsByOne(c, w, ops[0]);
      StepInherits(c, w, ops[0], own);
      var w1 := Step(c, w, ops[0]);
      RunInherits(c, w1, ops[1..], OwnAfter(own, ops[0], |w1.blocks|));
    }
  }

  lemma {:induction false} RunKeepsBase(c: Config, w: World, ops: seq<Op>)
    requires WorldOk(c, w) && LegalRun(c, w, ops) && StaysInTest(ops)
    ensures Run(c, w, ops).base == w.base
    decreases |ops|
  {
    hide WorldOk, Legal;
    if ops != [] {
      StepKeeps(c, w, ops[0]);
      RunKeepsBase(c, Step(c, w, ops[0]), ops[1..]);
    }
  }

  /* What the leak check says after any legal run of a test: it fails exactly when the number
     of live blocks of the test's own is not the number of inherited blocks it gave back. So
     it is right about leaks exactly when none was given back, or when there is a leak and not
     of just as many blocks. */
  lemma LeakCheckBalance(c: Config, w: World, ops: seq<Op>)
    requires WorldOk(c, w) && LegalRun(c, w, ops) && w.base == LiveCount(w.blocks) && StaysInTest(ops)
    ensures var w1 := Run(c, w, ops);
            var own := Owners(c, w, ops, Repeat(false, |w.blocks|));
            var leaked, returned := LiveOf(w1.blocks, own, true), w.base - LiveOf(w1.blocks, own, false);
            && 0 <= returned <= w.base
            && (EndTest(w1.heap).1 <==> leaked != returned)
            && ((EndTest(w1.heap).1 <==> leaked > 0) <==> returned == 0 || (leaked > 0 && leaked != returned))
  {
    hide LaidOut, AllIntact, Step, Legal, Owners;
    var w1, own := Run(c, w, ops), Owners(c, w, ops, Repeat(false, |w.blocks|));
    RunKeeps(c, w, ops);
    RunKeepsBase(c, w, ops);
    LeakCheckCounts(c, w1);
    LiveOfBoth(w1.blocks, own);
    LiveOfBoth(w.blocks, Repeat(false, |w.blocks|));
    RunInherits(c, w, ops, Repeat(false, |w.blocks|));
  }

  /* So a test that leaks one block of its own and frees one it inherited goes unnoticed. */
  lemma LeakHiddenByInheritedFree(c: Config, w: World, i: nat, size: nat)
    requires WorldOk(c, w) && LiveAt(w, i) && c.NoWrap(size)
    requires size > 0 && HasRoom(c, w.heap, size)
    ensures WorldOk(c, Step(c, w, DoStartTest))
    ensures var w1 := Step(c, w, DoStartTest);
            && WorldOk(c, Step(c, w1, DoMalloc(size)))
            && var w2 := Step(c, w1, DoMalloc(size));
               LiveAt(w2, i) && LiveAt(Step(c, w2, DoFree(i)), |w.blocks|) && !EndTest(Step(c, w2, DoFree(i)).heap).1
  {
    hide Tiled, Intact, SizeKept, Malloc, Release, LiveCount, HasRoom, AllIntact;
    StepKeeps(c, w, DoStartTest);
    var w1 := Step(c, w, DoStartTest);
    RoomSame(c, w.heap, w1.heap, size);
    MallocEffect(c, w1.heap, w1.blocks, size);
    StepKeeps(c, w1, DoMalloc(size));
    var w2 := Step(c, w1, DoMalloc(size));
    LiveCountSnoc(w1.blocks, w2.blocks[|w.blocks|]);
    StepKeeps(c, w2, DoFree(i));
    LiveCountReleased(w2.blocks, i);
  }

  lemma RoomSame(c: Config, h: Heap, h1: Heap, size: nat)
    requires c.align > 0 && h.index == h1.index
    ensures HasRoom(c, h, size) == HasRoom(c, h1, size)
  {
  }
}
