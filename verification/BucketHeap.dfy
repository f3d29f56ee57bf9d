/** The bucket allocator's data structures (mm/kmalloc.c) and their invariant.  Pointers are
    kernel virtual addresses, 0 is NULL; a free block's first word holds the next free block,
    in the RAM of the page it lies in. */
module BucketHeap {
  import opened Frames
  import opened Sets

  const KERNEL_FRAMES := 0x3_8000      // HIGH_MEMORY / FRAME_SIZE
  const BUCKETS := 9
  const SPARE := 9                     // list index of the unused descriptors
  const DESCS_PER_PAGE := 256          // PAGE_SIZE / sizeof(struct bucket_desc)

  datatype Desc = Desc(page: int, next: int, freeptr: int, refcnt: nat, bucketSize: nat)

  // ----- addresses

  function Addr(f: nat, w: nat): int {
    PAGE_OFFSET + 4096 * f + 4 * w
  }

  function FrameAt(a: int): int {
    (a - PAGE_OFFSET) / 4096
  }

  function WordAt(a: int): nat {
    (a - PAGE_OFFSET) % 4096 / 4
  }

  lemma AddrParts(f: nat, w: nat)
    requires f < KERNEL_FRAMES && w < 1024
    ensures FrameAt(Addr(f, w)) == f && WordAt(Addr(f, w)) == w
    ensures PAGE_OFFSET <= Addr(f, w) < 0x1_0000_0000
    ensures Addr(f, w) - Addr(f, w) % 4096 == Addr(f, 0)
  {
  }

  // ----- buckets

  /** The block size of bucket b, in words. */
  function Stride(b: nat): (s: nat)
    ensures 4 <= s <= 1024
  {
    match b
    case 0 => 4 case 1 => 8 case 2 => 16 case 3 => 32 case 4 => 64
    case 5 => 128 case 6 => 256 case 7 => 512 case _ => 1024
  }

  /** The block size of bucket b, in bytes. */
  function Size(b: nat): (s: nat)
    ensures 16 <= s <= 4096
  {
    4 * Stride(b)
  }

  /** How many blocks of bucket b fill a page. */
  function PerPage(b: nat): (n: nat)
    ensures 1 <= n <= 256
  {
    match b
    case 0 => 256 case 1 => 128 case 2 => 64 case 3 => 32 case 4 => 16
    case 5 => 8 case 6 => 4 case 7 => 2 case _ => 1
  }

  lemma PerPageIs(b: nat)
    ensures 4096 / Size(b) == PerPage(b) && 1024 / Stride(b) == PerPage(b) && PerPage(b) * Stride(b) == 1024
  {
    match b case 0 => case 1 => case 2 => case 3 => case 4 => case 5 => case 6 => case 7 => case _ =>
  }

  /** Word w of a page starts a block of bucket b. */
  predicate IsSlot(b: nat, w: int) {
    0 <= w < 1024 && w % Stride(b) == 0
  }

  lemma SlotStep(b: nat, w: int)
    requires IsSlot(b, w)
    ensures w + Stride(b) <= 1024
    ensures w + Stride(b) < 1024 ==> IsSlot(b, w + Stride(b))
    ensures forall v :: IsSlot(b, v) && v < w ==> v + Stride(b) <= w
  {
    forall v | IsSlot(b, v) && v < w ensures v + Stride(b) <= w {
      SlotGap(b, v, w);
    }
    SlotLast(b, w);
  }

  lemma SlotGap(b: nat, v: int, w: int)
    requires IsSlot(b, v) && IsSlot(b, w) && v < w
    ensures v + Stride(b) <= w
  {
    match b case 0 => case 1 => case 2 => case 3 => case 4 => case 5 => case 6 => case 7 => case _ =>
  }

  lemma SlotLast(b: nat, w: int)
    requires IsSlot(b, w)
    ensures w + Stride(b) <= 1024
    ensures w + Stride(b) < 1024 ==> IsSlot(b, w + Stride(b))
  {
    match b case 0 => case 1 => case 2 => case 3 => case 4 => case 5 => case 6 => case 7 => case _ =>
  }

  /** The block starts from word w on, in address order. */
  function SlotsFrom(b: nat, w: nat): seq<nat>
    decreases 1024 - w
  {
    if w < 1024 then [w] + SlotsFrom(b, w + Stride(b)) else []
  }

  lemma {:induction false} SlotsFromAre(b: nat, w: nat)
    requires IsSlot(b, w) || w == 1024
    ensures forall v :: v in SlotsFrom(b, w) <==> IsSlot(b, v) && w <= v
    ensures NoDup(SlotsFrom(b, w))
    ensures |SlotsFrom(b, w)| == (1024 - w) / Stride(b)
    decreases 1024 - w
  {
    if w < 1024 {
      SlotStep(b, w);
      var rest := SlotsFrom(b, w + Stride(b));
      SlotsFromAre(b, w + Stride(b));
      forall v | IsSlot(b, v) && w < v ensures w + Stride(b) <= v { SlotGap(b, w, v); }
      forall v ensures v in SlotsFrom(b, w) <==> v == w || v in rest {}
      StepsLeft(b, w);
    } else {
      forall v | IsSlot(b, v) ensures v < w {}
    }
  }

  lemma StepsLeft(b: nat, w: nat)
    requires IsSlot(b, w)
    ensures w + Stride(b) <= 1024 && (1024 - w) / Stride(b) == 1 + (1024 - (w + Stride(b))) / Stride(b)
  {
    match b case 0 => case 1 => case 2 => case 3 => case 4 => case 5 => case 6 => case 7 => case _ =>
  }

  // ----- lists

  function At(l: seq<int>, k: nat): int {
    if k < |l| then l[k] else 0
  }

  /** From `head` the next fields run through l and end in NULL. */
  ghost predicate Linked(desc: map<int, Desc>, head: int, l: seq<int>) {
    && head == At(l, 0)
    && forall k :: 0 <= k < |l| ==> LinkAt(desc, l, k)
  }

  ghost predicate LinkAt(desc: map<int, Desc>, l: seq<int>, k: nat)
    requires k < |l|
  {
    l[k] != 0 && l[k] in desc && desc[l[k]].next == At(l, k + 1)
  }

  /** From pointer p the first words of the blocks ws of frame f chain to NULL. */
  ghost predicate Threads(page: Frame, f: nat, p: int, ws: seq<nat>)
    decreases |ws|
  {
    if ws == [] then p == 0
    else ws[0] < 1024 && p == Addr(f, ws[0]) && Threads(page, f, page[ws[0]], ws[1..])
  }

  lemma {:induction false} ThreadsFrame(page: Frame, page': Frame, f: nat, p: int, ws: seq<nat>)
    requires Threads(page, f, p, ws)
    requires forall w :: w in ws && w < 1024 ==> page'[w] == page[w]
    ensures Threads(page', f, p, ws)
    decreases |ws|
  {
    if ws != [] {
      assert ws[0] in ws;
      ThreadsFrame(page, page', f, page[ws[0]], ws[1..]);
    }
  }

  // ----- state

  datatype Heap = Heap(ram: seq<Frame>, pages: seq<Page>, heads: seq<int>, freeDesc: int, desc: map<int, Desc>)

  /** The lists and ownership the pointers spell out: descriptor lists per bucket (and the
      spare ones), the list each descriptor is on, free block words per descriptor, the
      descriptor of each bucket page, the descriptor pages, and the live blocks. */
  datatype Shape = Shape(
    lists: seq<seq<int>>, home: map<int, nat>, free: map<int, seq<nat>>,
    owner: map<nat, int>, descPages: set<nat>, blocks: map<int, nat>)

  function Head(h: Heap, b: nat): int {
    if b < |h.heads| then h.heads[b] else h.freeDesc
  }

  ghost predicate ListOk(h: Heap, s: Shape, b: nat)
    requires b < |s.lists|
  {
    && Linked(h.desc, Head(h, b), s.lists[b])
    && NoDup(s.lists[b])
    && (forall k :: 0 <= k < |s.lists[b]| ==> s.lists[b][k] in s.home && s.home[s.lists[b][k]] == b)
  }

  ghost predicate HomeOk(h: Heap, s: Shape, a: int)
    requires a in s.home
  {
    && s.home[a] < |s.lists| && a in s.lists[s.home[a]]
    && a != 0 && FrameAt(a) >= 0 && FrameAt(a) in s.descPages
  }

  ghost predicate DescPageOk(h: Heap, s: Shape, g: nat) {
    g < |h.pages| && h.pages[g].Used() && g !in s.owner
  }

  /** A descriptor on a bucket list: its page, its free blocks and its reference count. */
  ghost predicate BucketOk(h: Heap, s: Shape, a: int)
    requires a in s.home && a in h.desc
  {
    var b, d, f := s.home[a], h.desc[a], FrameAt(h.desc[a].page);
    && 0 <= f < |h.ram| && f < |h.pages| && d.page == Addr(f, 0) && d.bucketSize == Size(b)
    && f in s.owner && s.owner[f] == a && h.pages[f].Used() && h.pages[f].count == 1
    && a in s.free && Threads(h.ram[f], f, d.freeptr, s.free[a]) && NoDup(s.free[a])
    && (forall w :: w in s.free[a] ==> IsSlot(b, w))
    && d.refcnt + |s.free[a]| == PerPage(b)
  }

  ghost predicate OwnerOk(h: Heap, s: Shape, f: nat)
    requires f in s.owner
  {
    var a := s.owner[f];
    a in s.home && a in h.desc && s.home[a] < BUCKETS && a in s.free && FrameAt(h.desc[a].page) == f
  }

  /** Address x is the start of a block of a bucket page. */
  ghost predicate BlockStart(s: Shape, x: int) {
    && FrameAt(x) >= 0 && FrameAt(x) in s.owner && x == Addr(FrameAt(x), WordAt(x))
    && var a := s.owner[FrameAt(x)];
       a in s.home && a in s.free && IsSlot(s.home[a], WordAt(x))
  }

  /** The live blocks are the block starts that are not on a free list. */
  ghost predicate BlockOk(s: Shape, x: int) {
    && (x in s.blocks <==>
          BlockStart(s, x) && WordAt(x) !in s.free[s.owner[FrameAt(x)]])
    && (x in s.blocks ==> s.blocks[x] == Size(s.home[s.owner[FrameAt(x)]]))
  }

  ghost predicate Inv(h: Heap, s: Shape) {
    && |h.ram| == |h.pages| <= KERNEL_FRAMES && |h.heads| == BUCKETS && |s.lists| == BUCKETS + 1
    && s.home.Keys == h.desc.Keys && |h.desc| == DESCS_PER_PAGE * |s.descPages|
    && (forall b {:trigger ListOk(h, s, b)} :: 0 <= b <= BUCKETS ==> ListOk(h, s, b))
    && (forall a {:trigger HomeOk(h, s, a)} :: a in s.home ==> HomeOk(h, s, a))
    && (forall g {:trigger DescPageOk(h, s, g)} :: g in s.descPages ==> DescPageOk(h, s, g))
    && (forall a {:trigger BucketOk(h, s, a)} :: a in s.home && s.home[a] < BUCKETS ==> BucketOk(h, s, a))
    && (forall f {:trigger OwnerOk(h, s, f)} :: f in s.owner ==> OwnerOk(h, s, f))
    && (forall x :: BlockOk(s, x))
  }

  /** No bucket page is kept for nothing. */
  ghost predicate AllInUse(h: Heap, s: Shape) {
    forall a :: a in s.home && a in h.desc && s.home[a] < BUCKETS ==> h.desc[a].refcnt > 0
  }
}
