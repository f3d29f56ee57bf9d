/** The bucket allocator and the paging code on one machine: any interleaving of kmalloc, kfree,
    writes to blocks and the paging steps. */
module KernelMemory {
  import opened Frames
  import opened BucketHeap
  import opened Kmalloc
  import opened CowAside
  import opened Wrappers
  import Paging
  import CowRuns
  import AddressSpaces

  /** RAM, mem_map and the roles of frames, and the allocator's own variables. */
  datatype Kernel = Kernel(s: Paging.Sys, heads: seq<int>, freeDesc: int, desc: map<int, Desc>, shape: Shape)

  ghost function HeapOf(k: Kernel): Heap {
    Heap(k.s.ram, k.s.pages, k.heads, k.freeDesc, k.desc)
  }

  /** Both invariants, and no frame the allocator holds has a paging role. */
  ghost predicate Ok(k: Kernel, strict: bool) {
    && Paging.Inv(k.s, strict) && Inv(HeapOf(k), k.shape) && AllInUse(HeapOf(k), k.shape)
    && forall f :: f in HeldBy(k.shape) ==> NoRole(k.s, f)
  }

  // ----- what each side may do to the other

  /** Nothing the allocator holds changed. */
  ghost predicate HeldSame(h: Heap, h': Heap, shape: Shape) {
    && |h'.ram| == |h.ram| && |h'.pages| == |h.pages|
    && h'.heads == h.heads && h'.freeDesc == h.freeDesc && h'.desc == h.desc
    && (forall f :: f in HeldBy(shape) && f < |h.ram| ==> h'.ram[f] == h.ram[f])
    && (forall f :: f in HeldBy(shape) && f < |h.pages| ==> h'.pages[f] == h.pages[f])
  }

  /** The allocator's invariant survives any change outside the frames it holds. */
  lemma HeapUndisturbed(h: Heap, h': Heap, shape: Shape)
    requires Inv(h, shape) && AllInUse(h, shape) && HeldSame(h, h', shape)
    ensures Inv(h', shape) && AllInUse(h', shape)
  {
    forall b | 0 <= b <= BUCKETS ensures ListOk(h', shape, b) { assert ListOk(h, shape, b); }
    forall a | a in shape.home ensures HomeOk(h', shape, a) { assert HomeOk(h, shape, a); }
    forall g | g in shape.descPages ensures DescPageOk(h', shape, g) { assert DescPageOk(h, shape, g); }
    forall a | a in shape.home && shape.home[a] < BUCKETS ensures BucketOk(h', shape, a) { assert BucketOk(h, shape, a); }
    forall f | f in shape.owner ensures OwnerOk(h', shape, f) { assert OwnerOk(h, shape, f); }
  }

  // ----- steps

  datatype Step =
    | PagingStep(step: CowRuns.Step)
    | Alloc(len: nat, p: int)
    | Free(obj: int, size: nat)
    | BlockWrite(x: int, w: nat, v: Word)
    | FrameWrite(f: nat, w: nat, v: Word)

  /** The allocator's variables and shape are as before. */
  ghost predicate SameHeap(k: Kernel, k': Kernel) {
    k'.heads == k.heads && k'.freeDesc == k.freeDesc && k'.desc == k.desc && k'.shape == k.shape
  }

  /** RAM and mem_map apart, the paging state is as before. */
  ghost predicate SameRoles(k: Kernel, k': Kernel) {
    k'.s.dirs == k.s.dirs && k'.s.owner == k.s.owner
  }

  ghost predicate InBlock(k: Kernel, x: int, w: nat) {
    x in k.shape.blocks && WordAt(x) <= w && 4 * (w - WordAt(x)) < k.shape.blocks[x]
  }

  /** One step of the kernel. Pages are returned by the allocator or by whoever took them; a block
      is written by its owner, and any other frame in kernel hands by whoever holds it. */
  ghost predicate Next(k: Kernel, step: Step, k': Kernel) {
    match step
    case PagingStep(st) =>
      && CowRuns.Enabled(k.s, st) && CowRuns.Apply(k.s, st) == Some(k'.s) && SameHeap(k, k')
      && (st.ReturnFrame? ==> st.f !in HeldBy(k.shape))
    case Alloc(len, p) => SameRoles(k, k') && MallocStep(HeapOf(k), k.shape, HeapOf(k'), k'.shape, len, p)
    case Free(obj, size) => SameRoles(k, k') && FreeStep(HeapOf(k), k.shape, HeapOf(k'), k'.shape, obj, size)
    case BlockWrite(x, w, v) =>
      && InBlock(k, x, w) && FrameAt(x) >= 0
      && SameHeap(k, k') && k'.s == k.s.(ram := Paging.Poke(k.s.ram, FrameAt(x), w, v))
    case FrameWrite(f, w, v) =>
      && NoRole(k.s, f) && f !in HeldBy(k.shape)
      && SameHeap(k, k') && k'.s == k.s.(ram := Paging.Poke(k.s.ram, f, w, v))
  }

  lemma HeldAside(k: Kernel, f: nat, strict: bool)
    requires Ok(k, strict) && f in HeldBy(k.shape)
    ensures Aside(k.s, f)
  {
    BucketPages.HeldFrameUsed(HeapOf(k), k.shape, f);
  }

  lemma UnusedNoRole(s: Paging.Sys, f: nat, strict: bool)
    requires Paging.Inv(s, strict) && f < |s.pages| && !s.pages[f].Used()
    ensures NoRole(s, f)
  {
    forall t, j | t in s.owner && 0 <= j < Paging.ENTRIES ensures !Paging.Names(s, t, j, f) {
      assert Paging.EntryOk(s, t, j, strict);
    }
  }

  /** The views that a step of the kernel gives. */
  function EagerStep(e: CowRuns.Spaces, step: Step): CowRuns.Spaces {
    if step.PagingStep? then CowRuns.EagerApply(e, step.step) else e
  }

  /** No store through a page table that changes a slot of another. */
  ghost predicate Harmless(k: Kernel, step: Step) {
    step.PagingStep? ==> CowRuns.Harmless(k.s, step.step)
  }

  ghost predicate Keeps(k: Kernel, step: Step, k': Kernel, strict: bool) {
    Ok(k', strict) && (Harmless(k, step) ==> Paging.Abs(k'.s) == EagerStep(Paging.Abs(k.s), step))
  }

  lemma PageKeeps(k: Kernel, st: CowRuns.Step, k': Kernel, strict: bool)
    requires Ok(k, strict) && Next(k, PagingStep(st), k')
    ensures Keeps(k, PagingStep(st), k', strict)
    ensures forall f :: f in HeldBy(k.shape) ==> Kept(k.s, k'.s, f)
    ensures |k'.s.ram| == |k.s.ram|
  {
    CowRuns.StepRefines(k.s, st, strict);
    forall f | f in HeldBy(k.shape) ensures Kept(k.s, k'.s, f) {
      HeldAside(k, f, strict);
      StepKeeps(k.s, st, f, strict);
    }
    SizesKept(k.s, st, strict);
    HeapUndisturbed(HeapOf(k), HeapOf(k'), k.shape);
  }

  lemma PageDone(k: Kernel, st: CowRuns.Step, k': Kernel, strict: bool)
    requires Ok(k, strict) && SameHeap(k, k') && !st.ReturnFrame?
    requires CowRuns.Enabled(k.s, st) && CowRuns.Apply(k.s, st) == Some(k'.s)
    ensures Ok(k', strict) && Next(k, PagingStep(st), k')
  {
    PageKeeps(k, st, k', strict);
  }

  ghost predicate SameSize(s: Paging.Sys, s': Paging.Sys) {
    |s'.ram| == |s.ram| && |s'.pages| == |s.pages|
  }

  lemma SizesKept(s: Paging.Sys, st: CowRuns.Step, strict: bool)
    requires Paging.Inv(s, strict) && CowRuns.Enabled(s, st) && CowRuns.Apply(s, st).Some?
    ensures SameSize(s, CowRuns.Apply(s, st).value)
  {
    if st.Fork? {
      CopySizes(s, st.src, st.dst, Paging.USER_DIRS);
      KernelSizes(Paging.CopySlots(s, st.src, st.dst, Paging.USER_DIRS).value, st.dst, Paging.ENTRIES);
    }
  }

  lemma EntrySize(s: Paging.Sys, src: nat, dst: nat, i: nat, j: nat)
    ensures SameSize(s, Paging.ShareEntry(s, src, dst, i, j))
  {
  }

  lemma {:induction false} RowSizes(s: Paging.Sys, src: nat, dst: nat, i: nat, n: nat, s': Paging.Sys)
    requires s' == Paging.ShareEntries(s, src, dst, i, n)
    ensures SameSize(s, s')
    decreases n
  {
    if n > 0 {
      var s1 := Paging.ShareEntries(s, src, dst, i, n - 1);
      RowSizes(s, src, dst, i, n - 1, s1);
      assert s' == Paging.ShareEntry(s1, src, dst, i, n - 1);
      EntrySize(s1, src, dst, i, n - 1);
    }
  }

  lemma SlotSize(s: Paging.Sys, src: nat, dst: nat, i: nat)
    requires Paging.CopySlot(s, src, dst, i).Some?
    ensures SameSize(s, Paging.CopySlot(s, src, dst, i).value)
  {
    if Paging.Pde(s, src, i) != 0 {
      var s1 := Paging.InstallTable(s, dst, i, Paging.USER_RW).value;
      RowSizes(s1, src, dst, i, Paging.ENTRIES, Paging.CopySlot(s, src, dst, i).value);
    }
  }

  lemma {:induction false} CopySizes(s: Paging.Sys, src: nat, dst: nat, n: nat)
    requires Paging.CopySlots(s, src, dst, n).Some?
    ensures SameSize(s, Paging.CopySlots(s, src, dst, n).value)
  {
    if n > 0 {
      CopySizes(s, src, dst, n - 1);
      SlotSize(Paging.CopySlots(s, src, dst, n - 1).value, src, dst, n - 1);
    }
  }

  lemma {:induction false} KernelSizes(s: Paging.Sys, dst: nat, n: nat)
    requires Paging.USER_DIRS <= n
    ensures SameSize(s, Paging.CopyKernelSlots(s, dst, n))
  {
    if n > Paging.USER_DIRS { KernelSizes(s, dst, n - 1); }
  }

  /** The allocator's own changes are to frames without a paging role. */
  lemma HeapKeeps(k: Kernel, k': Kernel, changed: set<nat>, strict: bool)
    requires Ok(k, strict) && SameRoles(k, k') && ChangedOnly(k.s, k'.s, changed)
    requires Inv(HeapOf(k'), k'.shape) && AllInUse(HeapOf(k'), k'.shape)
    requires forall f :: f in changed ==> NoRole(k.s, f)
    requires forall f :: f in HeldBy(k'.shape) ==> f in HeldBy(k.shape) || f in changed
    ensures Ok(k', strict) && Paging.Abs(k'.s) == Paging.Abs(k.s)
  {
    OutsideChange(k.s, k'.s, changed, strict);
  }

  lemma AllocKeepsOk(k: Kernel, len: nat, p: int, k': Kernel, strict: bool)
    requires Ok(k, strict) && Next(k, Alloc(len, p), k')
    ensures Keeps(k, Alloc(len, p), k', strict)
  {
    MallocKeeps(HeapOf(k), k.shape, HeapOf(k'), k'.shape, len, p);
    var changed := HeldBy(k'.shape) - HeldBy(k.shape);
    forall f | f in changed ensures NoRole(k.s, f) { UnusedNoRole(k.s, f, strict); }
    HeapKeeps(k, k', changed, strict);
  }

  lemma FreedKeepsOk(k: Kernel, obj: int, size: nat, k': Kernel, strict: bool)
    requires Ok(k, strict) && SameRoles(k, k') && Freed(HeapOf(k), k.shape, HeapOf(k'), k'.shape, obj, size)
    requires Inv(HeapOf(k'), k'.shape) && AllInUse(HeapOf(k'), k'.shape)
    ensures Ok(k', strict) && Paging.Abs(k'.s) == Paging.Abs(k.s)
  {
    BucketSteps.BlockOwner(HeapOf(k), k.shape, obj);
    FreedOutside(k, obj, size, k');
    HeapKeeps(k, k', {FrameAt(obj)}, strict);
  }

  lemma FreedOutside(k: Kernel, obj: int, size: nat, k': Kernel)
    requires SameRoles(k, k') && Freed(HeapOf(k), k.shape, HeapOf(k'), k'.shape, obj, size) && FrameAt(obj) >= 0
    ensures ChangedOnly(k.s, k'.s, {FrameAt(obj)}) && HeldBy(k'.shape) <= HeldBy(k.shape)
  {
  }

  lemma FreeKeepsOk(k: Kernel, obj: int, size: nat, k': Kernel, strict: bool)
    requires Ok(k, strict) && Next(k, Free(obj, size), k')
    ensures Keeps(k, Free(obj, size), k', strict)
  {
    FreeKeeps(HeapOf(k), k.shape, HeapOf(k'), k'.shape, obj, size);
    FreedKeepsOk(k, obj, size, k', strict);
  }

  lemma AllocDone(k: Kernel, h: Heap, k': Kernel, h': Heap, len: nat, p: int, strict: bool)
    requires Ok(k, strict) && SameRoles(k, k') && h == HeapOf(k) && h' == HeapOf(k')
    requires MallocStep(h, k.shape, h', k'.shape, len, p)
    ensures Ok(k', strict) && Next(k, Alloc(len, p), k')
  {
    AllocKeepsOk(k, len, p, k', strict);
  }

  lemma FreeDone(k: Kernel, h: Heap, k': Kernel, h': Heap, obj: int, size: nat, strict: bool)
    requires Ok(k, strict) && SameRoles(k, k') && h == HeapOf(k) && h' == HeapOf(k')
    requires FreeStep(h, k.shape, h', k'.shape, obj, size)
    ensures Ok(k', strict) && Next(k, Free(obj, size), k')
  {
    FreeKeepsOk(k, obj, size, k', strict);
  }

  lemma BlockWriteKeepsOk(k: Kernel, x: int, w: nat, v: Word, k': Kernel, strict: bool)
    requires Ok(k, strict) && Next(k, BlockWrite(x, w, v), k')
    ensures Keeps(k, BlockWrite(x, w, v), k', strict)
  {
    BucketSteps.BlockOwner(HeapOf(k), k.shape, x);
    BucketPages.WriteInv(HeapOf(k), k.shape, x, w, v);
    HeapKeeps(k, k', {FrameAt(x)}, strict);
  }

  lemma PokedOutside(k: Kernel, f: nat, w: nat, v: Word, k': Kernel)
    requires f !in HeldBy(k.shape) && SameHeap(k, k') && k'.s == k.s.(ram := Paging.Poke(k.s.ram, f, w, v))
    ensures HeldSame(HeapOf(k), HeapOf(k'), k.shape) && ChangedOnly(k.s, k'.s, {f})
  {
  }

  lemma FrameWriteKeepsOk(k: Kernel, f: nat, w: nat, v: Word, k': Kernel, strict: bool)
    requires Ok(k, strict) && Next(k, FrameWrite(f, w, v), k')
    ensures Keeps(k, FrameWrite(f, w, v), k', strict)
  {
    PokedOutside(k, f, w, v, k');
    HeapUndisturbed(HeapOf(k), HeapOf(k'), k.shape);
    HeapKeeps(k, k', {f}, strict);
  }

  /** Every step keeps both invariants and the allocator's frames out of the paging code's, and
      if harmless does to the views what the eager machine does. */
  lemma StepKeepsOk(k: Kernel, step: Step, k': Kernel, strict: bool)
    requires Ok(k, strict) && Next(k, step, k')
    ensures Keeps(k, step, k', strict)
  {
    match step
    case PagingStep(st) => PageKeeps(k, st, k', strict);
    case Alloc(len, p) => AllocKeepsOk(k, len, p, k', strict);
    case Free(obj, size) => FreeKeepsOk(k, obj, size, k', strict);
    case BlockWrite(x, w, v) => BlockWriteKeepsOk(k, x, w, v, k', strict);
    case FrameWrite(f, w, v) => FrameWriteKeepsOk(k, f, w, v, k', strict);
  }

  // ----- what blocks hold

  /** Word w of the frame of block x. */
  function WordOf(k: Kernel, x: int, w: nat): Word {
    if FrameAt(x) >= 0 then Paging.Peek(k.s.ram, FrameAt(x), w) else 0
  }

  /** The words of block x change at most as its owner's write says. */
  ghost predicate BlockAfter(k: Kernel, step: Step, k': Kernel, x: int) {
    forall w {:trigger WordOf(k', x, w)} :: 0 <= w && InBlock(k, x, w) ==>
      WordOf(k', x, w) == if step.BlockWrite? && step.x == x && step.w == w then step.v else WordOf(k, x, w)
  }

  lemma HeldWordsSame(k: Kernel, k': Kernel, x: int, f: nat)
    requires FrameAt(x) == f && f < |k.s.ram| == |k'.s.ram| && k'.s.ram[f] == k.s.ram[f]
    ensures forall w: nat :: WordOf(k', x, w) == WordOf(k, x, w)
  {
  }

  /** Words of different live blocks are different words. */
  lemma WordsApart(k: Kernel, x: int, y: int, w: nat, strict: bool)
    requires Ok(k, strict) && x != y && InBlock(k, x, w) && y in k.shape.blocks && FrameAt(x) == FrameAt(y)
    ensures !InBlock(k, y, w) && w != WordAt(y)
  {
    BucketSteps.BlockOwner(HeapOf(k), k.shape, x);
    BucketSteps.BlockOwner(HeapOf(k), k.shape, y);
    BlockFits(HeapOf(k), k.shape, x);
    BlockFits(HeapOf(k), k.shape, y);
    if x < y { BlocksDisjoint(HeapOf(k), k.shape, x, y); } else { BlocksDisjoint(HeapOf(k), k.shape, y, x); }
  }

  lemma WriteToBlock(k: Kernel, x: int, y: int, w: nat, v: Word, k': Kernel, strict: bool)
    requires Ok(k, strict) && x in k.shape.blocks && Next(k, BlockWrite(y, w, v), k')
    ensures BlockAfter(k, BlockWrite(y, w, v), k', x)
  {
    BucketSteps.BlockOwner(HeapOf(k), k.shape, x);
    BucketSteps.BlockOwner(HeapOf(k), k.shape, y);
    BucketPages.WriteInv(HeapOf(k), k.shape, y, w, v);
    if x != y && FrameAt(x) == FrameAt(y) { WordsApart(k, y, x, w, strict); }
  }

  lemma FreedBesideBlock(k: Kernel, x: int, obj: int, size: nat, k': Kernel, strict: bool)
    requires Ok(k, strict) && x in k.shape.blocks && x != obj
    requires Freed(HeapOf(k), k.shape, HeapOf(k'), k'.shape, obj, size)
    ensures x in k'.shape.blocks && k'.shape.blocks[x] == k.shape.blocks[x] && BlockAfter(k, Free(obj, size), k', x)
  {
    BucketSteps.BlockOwner(HeapOf(k), k.shape, x);
    BucketSteps.BlockOwner(HeapOf(k), k.shape, obj);
    forall w | 0 <= w && InBlock(k, x, w) ensures WordOf(k', x, w) == WordOf(k, x, w) {
      if FrameAt(x) == FrameAt(obj) { WordsApart(k, x, obj, w, strict); }
    }
  }

  lemma FreeBesideBlock(k: Kernel, x: int, obj: int, size: nat, k': Kernel, strict: bool)
    requires Ok(k, strict) && x in k.shape.blocks && x != obj && Next(k, Free(obj, size), k')
    ensures x in k'.shape.blocks && k'.shape.blocks[x] == k.shape.blocks[x] && BlockAfter(k, Free(obj, size), k', x)
  {
    FreeKeeps(HeapOf(k), k.shape, HeapOf(k'), k'.shape, obj, size);
    FreedBesideBlock(k, x, obj, size, k', strict);
  }

  /** The frame of a block stays as it is. */
  lemma FrameOfBlockSame(k: Kernel, step: Step, k': Kernel, x: int)
    requires !step.BlockWrite? && 0 <= FrameAt(x) < |k.s.ram| && |k'.s.ram| == |k.s.ram|
    requires k'.s.ram[FrameAt(x)] == k.s.ram[FrameAt(x)]
    ensures BlockAfter(k, step, k', x)
  {
    HeldWordsSame(k, k', x, FrameAt(x));
  }

  lemma PagingBesideBlock(k: Kernel, x: int, st: CowRuns.Step, k': Kernel, strict: bool)
    requires Ok(k, strict) && x in k.shape.blocks && Next(k, PagingStep(st), k')
    ensures BlockAfter(k, PagingStep(st), k', x)
  {
    BucketSteps.BlockOwner(HeapOf(k), k.shape, x);
    PageKeeps(k, st, k', strict);
    assert Kept(k.s, k'.s, FrameAt(x));
    FrameOfBlockSame(k, PagingStep(st), k', x);
  }

  lemma AllocBesideBlock(k: Kernel, x: int, len: nat, p: int, k': Kernel, strict: bool)
    requires Ok(k, strict) && x in k.shape.blocks && Next(k, Alloc(len, p), k')
    ensures x in k'.shape.blocks && k'.shape.blocks[x] == k.shape.blocks[x] && BlockAfter(k, Alloc(len, p), k', x)
  {
    MallocKeeps(HeapOf(k), k.shape, HeapOf(k'), k'.shape, len, p);
    BucketSteps.BlockOwner(HeapOf(k), k.shape, x);
    assert FrameAt(x) in HeldBy(k.shape);
    FrameOfBlockSame(k, Alloc(len, p), k', x);
  }

  lemma FrameWriteBesideBlock(k: Kernel, x: int, f: nat, w: nat, v: Word, k': Kernel, strict: bool)
    requires Ok(k, strict) && x in k.shape.blocks && Next(k, FrameWrite(f, w, v), k')
    ensures BlockAfter(k, FrameWrite(f, w, v), k', x)
  {
    BucketSteps.BlockOwner(HeapOf(k), k.shape, x);
    assert FrameAt(x) in HeldBy(k.shape);
    FrameOfBlockSame(k, FrameWrite(f, w, v), k', x);
  }

  /** A live block stays live under every step but its own kfree, and only its owner's writes
      change its words. */
  lemma BlockKept(k: Kernel, step: Step, k': Kernel, x: int, strict: bool)
    requires Ok(k, strict) && Next(k, step, k') && x in k.shape.blocks && !(step.Free? && step.obj == x)
    ensures x in k'.shape.blocks && k'.shape.blocks[x] == k.shape.blocks[x] && BlockAfter(k, step, k', x)
  {
    match step
    case PagingStep(st) => PagingBesideBlock(k, x, st, k', strict);
    case Alloc(len, p) => AllocBesideBlock(k, x, len, p, k', strict);
    case Free(obj, size) => FreeBesideBlock(k, x, obj, size, k', strict);
    case BlockWrite(y, w, v) => WriteToBlock(k, x, y, w, v, k', strict);
    case FrameWrite(g, w, v) => FrameWriteBesideBlock(k, x, g, w, v, k', strict);
  }

  // ----- runs

  /** The run from k takes the steps and passes through the states ks. */
  ghost predicate Runs(k: Kernel, steps: seq<Step>, ks: seq<Kernel>)
    decreases |steps|
  {
    |ks| == |steps| && (steps == [] || (Next(k, steps[0], ks[0]) && Runs(ks[0], steps[1..], ks[1..])))
  }

  ghost predicate AllHarmless(k: Kernel, steps: seq<Step>, ks: seq<Kernel>)
    requires |ks| == |steps|
    decreases |steps|
  {
    steps == [] || (Harmless(k, steps[0]) && AllHarmless(ks[0], steps[1..], ks[1..]))
  }

  function Last(k: Kernel, ks: seq<Kernel>): Kernel {
    if ks == [] then k else ks[|ks| - 1]
  }

  function PagingSteps(steps: seq<Step>): seq<CowRuns.Step> {
    if steps == [] then []
    else if steps[0].PagingStep? then [steps[0].step] + PagingSteps(steps[1..])
    else PagingSteps(steps[1..])
  }

  /** What the owner's writes make of word w of block x. */
  function Written(steps: seq<Step>, x: int, w: nat, was: Word): Word
    decreases |steps|
  {
    if steps == [] then was
    else if steps[0].BlockWrite? && steps[0].x == x && steps[0].w == w then Written(steps[1..], x, w, steps[0].v)
    else Written(steps[1..], x, w, was)
  }

  ghost predicate NeverFreed(steps: seq<Step>, x: int) {
    forall i :: 0 <= i < |steps| && steps[i].Free? ==> steps[i].obj != x
  }

  lemma {:induction false} OkThroughout(k: Kernel, steps: seq<Step>, ks: seq<Kernel>, i: nat, strict: bool)
    requires Ok(k, strict) && Runs(k, steps, ks) && i < |ks|
    ensures Ok(ks[i], strict)
    decreases |steps|
  {
    StepKeepsOk(k, steps[0], ks[0], strict);
    if i > 0 { OkThroughout(ks[0], steps[1..], ks[1..], i - 1, strict); }
  }

  lemma {:induction false} ViewsFollow(k: Kernel, steps: seq<Step>, ks: seq<Kernel>, strict: bool)
    requires Ok(k, strict) && Runs(k, steps, ks) && AllHarmless(k, steps, ks)
    ensures Paging.Abs(Last(k, ks).s) == CowRuns.EagerRun(Paging.Abs(k.s), PagingSteps(steps))
    decreases |steps|
  {
    if steps != [] {
      StepKeepsOk(k, steps[0], ks[0], strict);
      ViewsFollow(ks[0], steps[1..], ks[1..], strict);
      LastOfRest(k, ks);
      EagerPrefix(Paging.Abs(k.s), steps);
    }
  }

  /** Over any interleaving of kmalloc, kfree, writes to blocks and other kernel frames, and the
      paging steps: no frame the allocator holds is ever a directory, a table or named by an entry,
      both invariants hold throughout, and each address space reads as its own steps alone make it
      on the eager machine, as long as the stores are harmless. */
  lemma KernelRun(k: Kernel, steps: seq<Step>, ks: seq<Kernel>, strict: bool)
    requires Ok(k, strict) && Runs(k, steps, ks)
    ensures forall i :: 0 <= i < |ks| ==> Ok(ks[i], strict)
    ensures AllHarmless(k, steps, ks) ==> Paging.Abs(Last(k, ks).s) == CowRuns.EagerRun(Paging.Abs(k.s), PagingSteps(steps))
  {
    forall i | 0 <= i < |ks| ensures Ok(ks[i], strict) { OkThroughout(k, steps, ks, i, strict); }
    if AllHarmless(k, steps, ks) { ViewsFollow(k, steps, ks, strict); }
  }

  lemma EagerPrefix(e: CowRuns.Spaces, steps: seq<Step>)
    requires steps != []
    ensures CowRuns.EagerRun(e, PagingSteps(steps)) == CowRuns.EagerRun(EagerStep(e, steps[0]), PagingSteps(steps[1..]))
  {
    if steps[0].PagingStep? { assert PagingSteps(steps)[1..] == PagingSteps(steps[1..]); }
  }

  /** And a block that is not freed in the run is live at its end, with the size it had, and holds
      exactly what its owner's writes made of it. */
  lemma {:induction false} BlocksBelongToOwners(k: Kernel, steps: seq<Step>, ks: seq<Kernel>, x: int, strict: bool)
    requires Ok(k, strict) && Runs(k, steps, ks) && x in k.shape.blocks && NeverFreed(steps, x)
    ensures x in Last(k, ks).shape.blocks && Last(k, ks).shape.blocks[x] == k.shape.blocks[x]
    ensures forall w {:trigger InBlock(k, x, w)} :: 0 <= w && InBlock(k, x, w) ==>
      WordOf(Last(k, ks), x, w) == Written(steps, x, w, WordOf(k, x, w))
    decreases |steps|
  {
    if steps != [] {
      var last := Last(ks[0], ks[1..]);
      LastOfRest(k, ks);
      BlockKept(k, steps[0], ks[0], x, strict);
      assert Ok(ks[0], strict) by { StepKeepsOk(k, steps[0], ks[0], strict); }
      assert NeverFreed(steps[1..], x);
      BlocksBelongToOwners(ks[0], steps[1..], ks[1..], x, strict);
      assert x in last.shape.blocks && last.shape.blocks[x] == k.shape.blocks[x];
      forall w | 0 <= w && InBlock(k, x, w)
        ensures WordOf(Last(k, ks), x, w) == Written(steps, x, w, WordOf(k, x, w))
      {
        FirstWritten(k, steps, ks[0], x, w);
      }
    }
  }

  lemma LastOfRest(k: Kernel, ks: seq<Kernel>)
    requires ks != []
    ensures Last(k, ks) == Last(ks[0], ks[1..])
  {
  }

  lemma FirstWritten(k: Kernel, steps: seq<Step>, k': Kernel, x: int, w: nat)
    requires steps != [] && InBlock(k, x, w) && BlockAfter(k, steps[0], k', x)
    requires x in k'.shape.blocks && k'.shape.blocks[x] == k.shape.blocks[x]
    ensures InBlock(k', x, w) && Written(steps, x, w, WordOf(k, x, w)) == Written(steps[1..], x, w, WordOf(k', x, w))
  {
    assert WordOf(k', x, w) ==
      if steps[0].BlockWrite? && steps[0].x == x && steps[0].w == w then steps[0].v else WordOf(k, x, w);
  }

  /** The allocator before its first call. */
  function Fresh(s: Paging.Sys): Kernel {
    Kernel(s, seq(BUCKETS, _ => 0), 0, map[], Shape(seq(BUCKETS + 1, _ => []), map[], map[], map[], {}, map[]))
  }

  /** The state after boot is one these runs start from. */
  lemma BootOk(s: Paging.Sys)
    requires CowRuns.Booted(s) && |s.ram| <= KERNEL_FRAMES
    ensures Ok(Fresh(s), true)
  {
    assert Paging.Inv(s, true);
    var k := Fresh(s);
    forall b | 0 <= b <= BUCKETS ensures ListOk(HeapOf(k), k.shape, b) {}
  }

  // ----- the code on one machine

  class Memory {
    const m: Machine
    const tables: AddressSpaces.PageTables
    const heap: Allocator

    ghost function Now(): Kernel
      reads tables, heap, heap.heads, m.ram, m.memMap
    {
      Kernel(Paging.Sys(m.ram[..], m.memMap[..], tables.dirs, tables.owner), heap.heads[..], heap.freeDesc, heap.desc, heap.shape)
    }

    ghost predicate Valid()
      reads tables, heap, heap.heads, m.ram, m.memMap
    {
      && tables.m == m && heap.m == m && m.Valid() && m.ram.Length <= KERNEL_FRAMES
      && heap.heads.Length == BUCKETS && Ok(Now(), false)
    }

    constructor (m: Machine)
      requires m.Valid() && KERNEL_DIR < m.ram.Length <= KERNEL_FRAMES
      ensures Valid() && this.m == m && fresh(tables) && fresh(heap)
      ensures Now().shape.blocks == map[] && Now().s == Paging.Sys(m.ram[..], m.memMap[..], {}, map[])
    {
      this.m := m;
      tables := new AddressSpaces.PageTables(m);
      heap := new Allocator(m);
      new;
      assert Paging.Inv(Now().s, false);
    }

    method Kmalloc(len: nat) returns (p: int, ok: bool)
      requires Valid()
      modifies heap`freeDesc, heap`desc, heap`shape, heap.heads, m.ram, m.memMap
      ensures ok == CanServe(HeapOf(old(Now())), old(Now()).shape, len)
      ensures ok ==> Valid() && Next(old(Now()), Alloc(len, p), Now())
    {
      ghost var k, h := Now(), heap.Now();
      p, ok := heap.Kmalloc(len);
      if ok { AllocDone(k, h, Now(), heap.Now(), len, p, false); }
    }

    method Kfree(obj: int, size: nat) returns (ok: bool)
      requires Valid() && obj in heap.shape.blocks
      modifies heap`freeDesc, heap`desc, heap`shape, heap.heads, m.ram, m.memMap
      ensures ok == (size <= old(heap.shape.blocks)[obj]) && Valid()
      ensures if ok then Next(old(Now()), Free(obj, size), Now()) else Now() == old(Now())
    {
      ghost var k, h := Now(), heap.Now();
      ok := heap.Kfree(obj, size);
      if ok { FreeDone(k, h, Now(), heap.Now(), obj, size, false); }
    }

    method WriteBlock(x: int, w: nat, v: Word)
      requires Valid() && InBlock(Now(), x, w)
      modifies m.ram
      ensures Valid() && Next(old(Now()), BlockWrite(x, w, v), Now())
    {
      ghost var k := Now();
      heap.WriteWord(x, w, v);
      BlockWriteKeepsOk(k, x, w, v, Now(), false);
    }

    method CreateDir() returns (dir: int, ok: bool)
      requires Valid()
      modifies tables`dirs, m.ram, m.memMap
      ensures ok ==> dir >= 0 && Valid() && Next(old(Now()), PagingStep(CowRuns.NewDir(dir)), Now())
    {
      ghost var k := Now();
      dir, ok := tables.CreateDir();
      if ok { PageDone(k, CowRuns.NewDir(dir), Now(), false); }
    }

    method CopyPage(src: nat, dst: nat) returns (ok: bool)
      requires Valid() && src in tables.dirs && dst in tables.dirs && src != dst
      modifies tables`owner, m.ram, m.memMap
      ensures ok ==> Valid() && Next(old(Now()), PagingStep(CowRuns.Fork(src, dst)), Now())
    {
      ghost var k := Now();
      ok := tables.CopyPage(src, dst);
      if ok { PageDone(k, CowRuns.Fork(src, dst), Now(), false); }
    }

    method DoWpPage(d: nat, address: nat) returns (ok: bool)
      requires Valid() && d in tables.dirs && address < 0xC000_0000
      requires Paging.Pte(Now().s, d, address / 0x40_0000, address / 4096 % 1024) != 0
      modifies m.ram, m.memMap
      ensures ok ==> Valid()
      ensures ok ==> Next(old(Now()), PagingStep(CowRuns.WriteFault(d, address / 0x40_0000, address / 4096 % 1024)), Now())
    {
      ghost var k := Now();
      ok := tables.DoWpPage(d, address);
      if ok { PageDone(k, CowRuns.WriteFault(d, address / 0x40_0000, address / 4096 % 1024), Now(), false); }
    }

    method DoNoPage(d: nat, address: nat, kernel: bool) returns (ok: bool)
      requires Valid() && d in tables.dirs && address < 0x1_0000_0000
      modifies tables`owner, m.ram, m.memMap
      ensures ok ==> Valid()
      ensures ok ==>
        Next(old(Now()), PagingStep(CowRuns.MissingFault(d, address / 0x40_0000, address / 4096 % 1024, kernel)), Now())
    {
      ghost var k := Now();
      ok := tables.DoNoPage(d, address, kernel);
      if ok { PageDone(k, CowRuns.MissingFault(d, address / 0x40_0000, address / 4096 % 1024, kernel), Now(), false); }
    }
  }
}
