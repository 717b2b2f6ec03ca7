/**
 Well-bracketed use of the allocator: every block is freed before any older one. This is the
 discipline under which `unity_memory.h` promises that memory is not stranded.
 */
module UnityHeapBrackets {
  import opened Octets
  import opened UnityHeap
  import opened UnityHeapLayout
  import opened UnityHeapSteps
  import opened UnityHeapRuns

  /* A bracketed program: allocate, run the inner program, free what was allocated (NULL
     included), go on; or write into any live block on the way. */
  datatype Script =
    | Done
    | Bracket(size: nat, inner: Script, rest: Script)
    | Touch(i: nat, k: nat, x: octet, rest: Script)

  predicate SizesOk(c: Config, s: Script) {
    match s
    case Done => true
    case Bracket(size, inner, rest) => c.NoWrap(size) && SizesOk(c, inner) && SizesOk(c, rest)
    case Touch(_, _, _, rest) => SizesOk(c, rest)
  }

  /* Nothing but the failure countdown and the bytes of blocks may differ. */
  ghost predicate SameLayout(w: World, r: World) {
    && r.blocks == w.blocks && r.base == w.base
    && r.heap.index == w.heap.index && r.heap.count == w.heap.count
  }

  /* Running a script. The block of a bracket is the one at the end of the ledger when the
     bracket opens, and is freed there when it closes. */
  ghost function RunScript(c: Config, w: World, s: Script): (r: World)
    requires WorldOk(c, w) && SizesOk(c, s)
    ensures WorldOk(c, r) && SameLayout(w, r)
    decreases s
  {
    match s
    case Done => w
    case Touch(i, k, x, rest) =>
      if LiveAt(w, i) && k < w.blocks[i].size then
        TouchKeeps(c, w, i, k, x);
        RunScript(c, Step(c, w, DoStore(i, k, x)), rest)
      else RunScript(c, w, rest)
    case Bracket(size, inner, rest) =>
      OpenBracket(c, w, size);
      var opening := Step(c, w, DoMalloc(size));
      var inside := RunScript(c, opening, inner);
      if |opening.blocks| == |w.blocks| then RunScript(c, inside, rest)
      else
        CloseBracket(c, w, inside, opening.blocks[|w.blocks|]);
        RunScript(c, Step(c, inside, DoFree(|w.blocks|)), rest)
  }

  lemma TouchKeeps(c: Config, w: World, i: nat, k: nat, x: octet)
    requires WorldOk(c, w) && LiveAt(w, i) && k < w.blocks[i].size
    ensures WorldOk(c, Step(c, w, DoStore(i, k, x))) && SameLayout(w, Step(c, w, DoStore(i, k, x)))
  {
    hide WorldOk, Step;
    StepKeeps(c, w, DoStore(i, k, x));
    StepStore(c, w, i, k, x);
  }

  /* Opening a bracket carves one block, or leaves all but the countdown as it was. */
  lemma OpenBracket(c: Config, w: World, size: nat)
    requires WorldOk(c, w) && c.NoWrap(size)
    ensures var r := Step(c, w, DoMalloc(size));
            && WorldOk(c, r)
            && (SameLayout(w, r)
                || (&& |r.blocks| == |w.blocks| + 1 && r.base == w.base
                    && var b := r.blocks[|w.blocks|];
                       && b.live && r.blocks == w.blocks + [b] && Start(c, b) == w.heap.index
                       && r.heap.count == w.heap.count + 1))
  {
    hide Tiled, Intact, SizeKept, Malloc, HasRoom, LiveCount;
    StepKeeps(c, w, DoMalloc(size));
    MallocEffect(c, w.heap, w.blocks, size);
  }

  /* Closing it, with the layout as it was when it opened, restores the layout before it. */
  lemma CloseBracket(c: Config, w: World, inside: World, b: Block)
    requires WorldOk(c, w) && WorldOk(c, inside)
    requires inside.blocks == w.blocks + [b] && b.live && inside.base == w.base
    requires Start(c, b) == w.heap.index && inside.heap.count == w.heap.count + 1
    ensures WorldOk(c, Step(c, inside, DoFree(|w.blocks|)))
    ensures SameLayout(w, Step(c, inside, DoFree(|w.blocks|)))
  {
    hide Tiled, Intact, SizeKept, Release, LiveCount, AllIntact;
    StepKeeps(c, inside, DoFree(|w.blocks|));
    ReleaseEffect(c, inside.heap, inside.blocks, |w.blocks|);
  }

  /* Freeing any block that is not on top leaves heap_index where it is, so the bytes stay
     stranded; freeing the top block lowers it by exactly that block. */
  lemma FreeMovesIndexOnlyFromTop(c: Config, w: World, i: nat)
    requires WorldOk(c, w) && LiveAt(w, i)
    ensures Step(c, w, DoFree(i)).heap.index
         == w.heap.index - if i == |w.blocks| - 1 then Total(c, w.blocks[i]) else 0
  {
    hide Intact, SizeKept, Release, RoundUp;
    ReleaseEffect(c, w.heap, w.blocks, i);
  }
}
