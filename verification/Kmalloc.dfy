/** The allocator (mm/kmalloc.c): kmalloc, kfree, kzmalloc over RAM, mem_map and the
    descriptor lists. */
module Kmalloc {
  import opened Frames
  import opened BucketHeap
  import opened BucketSteps
  import opened BucketPages
  import opened Sets

  /** From slot w on, every block's first word names the next block. */
  ghost predicate Chained(page: Frame, f: nat, b: nat, w: nat) {
    forall v :: IsSlot(b, v) && v < w ==> page[v] == Addr(f, v + Stride(b))
  }

  lemma {:induction false} ChainThreads(page: Frame, f: nat, b: nat, v: nat, last: nat)
    requires f < KERNEL_FRAMES && IsSlot(b, v) && v <= last && IsSlot(b, last) && last + Stride(b) == 1024
    requires Chained(page, f, b, last) && page[last] == 0
    ensures Threads(page, f, Addr(f, v), SlotsFrom(b, v))
    decreases 1024 - v
  {
    SlotLast(b, v);
    assert SlotsFrom(b, v)[1..] == SlotsFrom(b, v + Stride(b));
    if v < last {
      SlotGap(b, v, last);
      ChainThreads(page, f, b, v + Stride(b), last);
    }
  }

  /** A free list shorter than the page leaves a live block. */
  lemma SomeSlotLive(h: Heap, s: Shape, a: int)
    requires Inv(h, s) && a in s.home && a in h.desc && s.home[a] < BUCKETS && h.desc[a].refcnt > 0
    ensures exists x :: x in s.blocks && FrameAt(x) == FrameAt(h.desc[a].page)
  {
    assert BucketOk(h, s, a);
    var b, f, ws := s.home[a], FrameAt(h.desc[a].page), s.free[a];
    AllSlots(b);
    NoDupSet(ws);
    NoDupSet(SlotsFrom(b, 0));
    if SetOf(SlotsFrom(b, 0)) <= SetOf(ws) {
      SubsetSize(SetOf(SlotsFrom(b, 0)), SetOf(ws));
    }
    var w :| w in SlotsFrom(b, 0) && w !in ws;
    AddrParts(f, w);
    assert BlockOk(s, Addr(f, w));
  }

  /** The first bucket whose blocks hold len bytes; BUCKETS if there is none. */
  function BucketFor(len: nat, from: nat): (b: nat)
    requires from <= BUCKETS
    ensures from <= b <= BUCKETS && (b < BUCKETS ==> len <= Size(b))
    ensures forall c :: from <= c < b ==> Size(c) < len
    ensures b == BUCKETS && from < BUCKETS ==> len > 4096
    decreases BUCKETS - from
  {
    if from < BUCKETS && Size(from) < len then BucketFor(len, from + 1) else from
  }

  /** Descriptor k of the list has a free block. */
  predicate Ready(desc: map<int, Desc>, l: seq<int>, k: nat)
    requires k < |l|
  {
    l[k] in desc && desc[l[k]].freeptr != 0
  }

  /** The place of the first descriptor of the list with a free block, or |l|. */
  function FirstReady(desc: map<int, Desc>, l: seq<int>, from: nat): (k: nat)
    requires from <= |l|
    ensures from <= k <= |l| && (k < |l| ==> Ready(desc, l, k))
    ensures forall j :: from <= j < k ==> !Ready(desc, l, j)
    decreases |l| - from
  {
    if from < |l| && !Ready(desc, l, from) then FirstReady(desc, l, from + 1) else from
  }

  /** A page of bucket b has a free block. */
  ghost predicate HasBlock(h: Heap, s: Shape, b: nat) {
    b < |s.lists| && FirstReady(h.desc, s.lists[b], 0) < |s.lists[b]|
  }

  /** A frame for a bucket page is left, and one more for descriptors if none is spare. */
  predicate Room(pages: seq<Page>, freeDesc: int) {
    HasFree(pages) && (freeDesc == 0 ==> HasFree(Taken(pages, FirstFree(pages, 0))))
  }

  /** A NULL link is the end of the list. */
  lemma ChainEnd(desc: map<int, Desc>, head: int, l: seq<int>, k: nat)
    requires Linked(desc, head, l) && k <= |l| && At(l, k) == 0
    ensures k == |l|
  {
    forall i | 0 <= i < |l| ensures l[i] != 0 { assert LinkAt(desc, l, i); }
  }

  /** None of the first n descriptors of l has the page. */
  ghost predicate NoneHasPage(desc: map<int, Desc>, l: seq<int>, n: nat, page: int)
    requires n <= |l|
  {
    forall k :: 0 <= k < n ==> l[k] in desc && desc[l[k]].page != page
  }

  /** RAM changed at most in word w of frame f. */
  ghost predicate WroteOnly(h: Heap, h': Heap, f: int, w: nat) {
    && |h'.ram| == |h.ram| && |h'.pages| == |h.pages|
    && (forall g :: 0 <= g < |h.ram| && g != f ==> h'.ram[g] == h.ram[g])
    && (forall g :: 0 <= g < |h.pages| && g != f ==> h'.pages[g] == h.pages[g])
    && (0 <= f < |h.ram| ==> forall v :: 0 <= v < 1024 && v != w ==> h'.ram[f][v] == h.ram[f][v])
  }

  /** 256 to the number of bytes. */
  function BytesOf(n: nat): (m: nat)
    ensures m > 0
  {
    match n case 1 => 0x100 case 2 => 0x1_0000 case 3 => 0x100_0000 case _ => 1
  }

  /** The first `size` bytes from word w of frame f are zero; everything else is as before. */
  ghost predicate ZeroedOnly(ram: seq<Frame>, ram': seq<Frame>, f: int, w: nat, size: nat) {
    && |ram'| == |ram| && 0 <= f < |ram| && w + (size + 3) / 4 <= 1024
    && (forall g :: 0 <= g < |ram| && g != f ==> ram'[g] == ram[g])
    && (forall v :: w <= v < w + size / 4 ==> ram'[f][v] == 0)
    && (forall v :: 0 <= v < 1024 && (v < w || w + (size + 3) / 4 <= v) ==> ram'[f][v] == ram[f][v])
    && (size % 4 != 0 ==>
          var last, n := w + size / 4, BytesOf(size % 4);
          ram'[f][last] % n == 0 && ram'[f][last] / n == ram[f][last] / n)
  }

  lemma WholeMultiple(v: Word, n: nat)
    ensures (v / BytesOf(n) * BytesOf(n)) % BytesOf(n) == 0 && 0 <= v / BytesOf(n) * BytesOf(n) <= v
  {
    match n case 1 => case 2 => case 3 => case _ =>
  }

  lemma WholeQuotient(v: Word, n: nat)
    ensures v / BytesOf(n) * BytesOf(n) / BytesOf(n) == v / BytesOf(n)
  {
    match n case 1 => case 2 => case 3 => case _ =>
  }

  lemma LowBytesCleared(v: Word, n: nat)
    ensures var r := v / BytesOf(n) * BytesOf(n); 0 <= r <= v && r % BytesOf(n) == 0 && r / BytesOf(n) == v / BytesOf(n)
  {
    WholeMultiple(v, n);
    WholeQuotient(v, n);
  }

  class Allocator {
    const m: Machine
    const heads: array<int>       // bucket_dir[].chain
    var freeDesc: int             // free_bucket_desc
    var desc: map<int, Desc>      // the descriptors in the descriptor pages
    ghost var shape: Shape

    ghost function Now(): Heap
      reads this, heads, m.ram, m.memMap
    {
      Heap(m.ram[..], m.memMap[..], heads[..], freeDesc, desc)
    }

    ghost predicate Consistent()
      reads this, heads, m.ram, m.memMap
    {
      m.Valid() && m.ram.Length <= KERNEL_FRAMES && heads.Length == BUCKETS && Inv(Now(), shape)
    }

    ghost predicate Valid()
      reads this, heads, m.ram, m.memMap
    {
      Consistent() && AllInUse(Now(), shape)
    }

    /** The frames the allocator holds. */
    ghost function Held(): set<nat>
      reads this
    {
      HeldBy(shape)
    }

    constructor (m: Machine)
      requires m.Valid() && m.ram.Length <= KERNEL_FRAMES
      ensures Valid() && this.m == m && shape.blocks == map[] && Held() == {} && fresh(heads)
    {
      this.m := m;
      this.heads := new int[BUCKETS](_ => 0);
      this.freeDesc := 0;
      this.desc := map[];
      this.shape := Shape(seq(BUCKETS + 1, _ => []), map[], map[], map[], {}, map[]);
    }

    /** Links the 256 descriptors of frame g in address order, in front of the spare ones. */
    method LinkDescs(ghost g: nat, first: int)
      requires first == Addr(g, 0) && forall a :: a in desc ==> FrameAt(a) != g
      modifies this`freeDesc, this`desc
      ensures freeDesc == first && DescsAdded(old(desc), desc, g, DESCS_PER_PAGE, old(freeDesc))
    {
      var bdesc := first;
      var i := DESCS_PER_PAGE;
      while i > 1
        invariant 1 <= i <= DESCS_PER_PAGE && bdesc == DescAt(g, DESCS_PER_PAGE - i)
        invariant desc == LinkedFirst(old(desc), g, DESCS_PER_PAGE - i) && freeDesc == old(freeDesc)
      {
        desc := desc[bdesc := Desc(0, bdesc + 16, 0, 0, 0)];
        bdesc := bdesc + 16;
        i := i - 1;
      }
      LinkedFirstAdds(old(desc), g, DESCS_PER_PAGE - 1, desc);
      DescsOfPage(g, DESCS_PER_PAGE - 1);
      ghost var d := desc;
      desc := desc[bdesc := Desc(0, freeDesc, 0, 0, 0)];
      AddDesc(old(desc), d, desc, g, DESCS_PER_PAGE - 1, DESCS_PER_PAGE, freeDesc);
      freeDesc := first;
    }

    /** Fills the spare list with a page of descriptors. */
    method InitBucketDesc() returns (ok: bool)
      requires Consistent()
      modifies this`freeDesc, this`desc, this`shape, m.ram, m.memMap
      ensures ok == HasFree(old(m.memMap[..]))
      ensures !ok ==> Now() == old(Now()) && shape == old(shape)
      ensures ok ==>
        var g := FirstFree(old(m.memMap[..]), 0);
        && Consistent() && Refilled(old(Now()), old(shape), Now(), g) && shape == RefilledShape(old(shape), g)
    {
      ghost var h := Now();
      var addr;
      addr, ok := m.GetFreePage();
      if !ok { return; }
      ghost var g := addr / 4096;
      FreshFrame(h, shape, g);
      forall a | a in desc ensures FrameAt(a) != g { assert HomeOk(h, shape, a); }
      LinkDescs(g, PAGE_OFFSET + addr);
      RefillInv(h, shape, Now(), g);
      shape := RefilledShape(shape, g);
    }

    /** Splits frame f into bucket b's blocks and chains them. */
    method ThreadPage(f: nat, b: nat)
      requires m.ram.Length <= KERNEL_FRAMES && f < m.ram.Length && b < BUCKETS
      modifies m.ram
      ensures Threads(m.ram[f], f, Addr(f, 0), SlotsFrom(b, 0))
      ensures forall g :: 0 <= g < m.ram.Length && g != f ==> m.ram[g] == old(m.ram[g])
    {
      PerPageIs(b);
      SlotZero(b);
      var w, i := 0, 4096 / Size(b);
      while i > 1
        invariant 1 <= i && w + i * Stride(b) == 1024 && IsSlot(b, w)
        invariant Chained(m.ram[f], f, b, w)
        invariant forall g :: 0 <= g < m.ram.Length && g != f ==> m.ram[g] == old(m.ram[g])
      {
        StepDown(i, Stride(b));
        SlotLast(b, w);
        AddrParts(f, w + Stride(b));
        forall v | IsSlot(b, v) && v < w + Stride(b) ensures v <= w {
          if w < v { SlotGap(b, w, v); }
        }
        m.ram[f] := m.ram[f][w := Addr(f, w + Stride(b))];
        w := w + Stride(b);
        i := i - 1;
      }
      m.ram[f] := m.ram[f][w := 0];
      ChainThreads(m.ram[f], f, b, 0, w);
    }

    /** Puts the first spare descriptor in charge of frame f, at the front of bucket b's chain. */
    method FillSpare(b: nat, f: nat)
      requires m.ram.Length <= KERNEL_FRAMES && f < m.ram.Length && b < BUCKETS == heads.Length && freeDesc in desc
      modifies this`freeDesc, this`desc, heads, m.ram
      ensures m.ram[..] == old(m.ram[..])[f := m.ram[f]] && Threads(m.ram[f], f, Addr(f, 0), SlotsFrom(b, 0))
      ensures heads[..] == old(heads[..])[b := old(freeDesc)] && freeDesc == old(desc)[old(freeDesc)].next
      ensures desc == old(desc)[old(freeDesc) := Desc(Addr(f, 0), old(heads[b]), Addr(f, 0), 0, Size(b))]
    {
      var bdesc := freeDesc;
      freeDesc := desc[bdesc].next;
      ThreadPage(f, b);
      desc := desc[bdesc := Desc(PAGE_OFFSET + 4096 * f, heads[b], PAGE_OFFSET + 4096 * f, 0, Size(b))];
      heads[b] := bdesc;
    }

    /** A fresh page of free blocks for bucket b, if a descriptor is spare. */
    method StockFromSpare(b: nat) returns (ok: bool)
      requires Consistent() && b < BUCKETS && freeDesc != 0
      modifies this`freeDesc, this`desc, this`shape, heads, m.ram, m.memMap
      ensures ok == HasFree(old(m.memMap[..]))
      ensures ok ==> Consistent() && Restocked(old(Now()), old(shape), Now(), shape, b)
    {
      ghost var h, s := Now(), shape;
      SpareHead(h, s);
      var addr;
      addr, ok := m.GetFreePage();
      if !ok { return; }
      var f := addr / 4096;
      FillSpare(b, f);
      shape := StockedShape(s, b, f);
      StockDone(h, s, b, f, m.ram[f], Now(), shape, h.freeDesc);
    }

    /** Makes sure a spare descriptor exists. */
    method EnsureSpare() returns (ok: bool)
      requires Consistent()
      modifies this`freeDesc, this`desc, this`shape, m.ram, m.memMap
      ensures ok == (old(freeDesc) != 0 || HasFree(old(m.memMap[..])))
      ensures ok ==> Consistent() && freeDesc != 0 && Readied(old(Now()), old(shape), Now(), shape)
    {
      ok := true;
      if freeDesc == 0 { ok := InitBucketDesc(); }
    }

    /** A page of free blocks for bucket b, its descriptor at the front of the chain. */
    method StockBucket(b: nat) returns (ok: bool, ghost h1: Heap, ghost s1: Shape)
      requires Consistent() && b < BUCKETS
      modifies this`freeDesc, this`desc, this`shape, heads, m.ram, m.memMap
      ensures ok == Room(old(m.memMap[..]), old(freeDesc))
      ensures ok ==> Consistent() && Supplied(old(Now()), old(shape), h1, s1, Now(), shape, b)
    {
      ok := EnsureSpare();
      h1, s1 := Now(), shape;
      if ok { ok := StockFromSpare(b); }
    }

    /** The first descriptor of bucket b's chain with a free block, or 0. */
    method FindFree(b: nat) returns (bdesc: int)
      requires Consistent() && b < BUCKETS
      ensures bdesc == At(shape.lists[b], FirstReady(desc, shape.lists[b], 0))
      ensures bdesc != 0 <==> HasBlock(Now(), shape, b)
    {
      ghost var l, k := shape.lists[b], 0;
      assert ListOk(Now(), shape, b);
      bdesc := heads[b];
      while bdesc != 0
        invariant 0 <= k <= |l| && bdesc == At(l, k)
        invariant FirstReady(desc, l, 0) == FirstReady(desc, l, k)
        decreases |l| - k
      {
        assert LinkAt(desc, l, k);
        OnOneList(Now(), shape, l[k], b);
        if desc[bdesc].freeptr != 0 { return; }
        bdesc := desc[bdesc].next;
        k := k + 1;
      }
      ChainEnd(desc, heads[b], l, k);
    }

    /** Takes the first free block off its page's free list and counts it as live. */
    method TakeBlock(bdesc: int) returns (retval: int)
      requires Consistent() && bdesc in shape.home && shape.home[bdesc] < BUCKETS && desc[bdesc].freeptr != 0
      modifies this`desc, this`shape
      ensures Consistent() && Took(old(Now()), old(shape), Now(), shape, bdesc, retval)
    {
      ghost var h := Now();
      TakeFacts(h, shape, bdesc);
      retval := desc[bdesc].freeptr;
      var link := m.ram[(retval - PAGE_OFFSET) / 4096][(retval - PAGE_OFFSET) % 4096 / 4];
      shape := PoppedShape(shape, bdesc, retval);
      desc := desc[bdesc := desc[bdesc].(freeptr := link, refcnt := desc[bdesc].refcnt + 1)];
      assert Now() == Popped(h, bdesc);
      PopInv(h, old(shape), bdesc);
    }

    /** False is a panic: the request is over a page, or no block and not enough frames are left. */
    method Kmalloc(len: nat) returns (p: int, ok: bool)
      requires Valid()
      modifies this`freeDesc, this`desc, this`shape, heads, m.ram, m.memMap
      ensures ok == CanServe(old(Now()), old(shape), len)
      ensures ok ==> Valid() && MallocStep(old(Now()), old(shape), Now(), shape, len, p)
      ensures ok ==> Served(old(Now()), old(shape), Now(), shape, len, p)
    {
      ghost var h, s := Now(), shape;
      var b := 0;
      while b < BUCKETS && Size(b) < len
        invariant 0 <= b <= BUCKETS && BucketFor(len, 0) == BucketFor(len, b)
      {
        b := b + 1;
      }
      if b == BUCKETS { return 0, false; }
      var bdesc := FindFree(b);
      ghost var h1, s1 := h, s;
      if bdesc == 0 {
        ok, h1, s1 := StockBucket(b);
        if !ok { return 0, false; }
        StockedHead(h, s, h1, s1, Now(), shape, b);
        bdesc := heads[b];
      } else {
        ReadyHead(h, s, b);
      }
      ghost var h2, s2 := Now(), shape;
      p := TakeBlock(bdesc);
      ok := true;
      MallocIs(h, s, h1, s1, h2, s2, Now(), shape, len, p, bdesc);
      MallocKeeps(h, s, Now(), shape, len, p);
    }

    /** Looks for the descriptor of `page` in the buckets of at least `size` bytes. */
    method FindPage(page: int, size: nat) returns (found: bool, b: nat, bdesc: int, prev: int, ghost k: nat)
      requires Consistent()
      ensures found ==> b < BUCKETS && size <= Size(b) && k < |shape.lists[b]| && shape.lists[b][k] == bdesc
      ensures found ==> bdesc in desc && desc[bdesc].page == page && prev == if k == 0 then 0 else shape.lists[b][k - 1]
      ensures !found ==> forall c :: 0 <= c < BUCKETS && size <= Size(c) ==> NoneHasPage(desc, shape.lists[c], |shape.lists[c]|, page)
    {
      b, bdesc, prev, k := 0, 0, 0, 0;
      while b < BUCKETS
        invariant 0 <= b <= BUCKETS
        invariant forall c :: 0 <= c < b && size <= Size(c) ==> NoneHasPage(desc, shape.lists[c], |shape.lists[c]|, page)
      {
        prev := 0;
        if Size(b) >= size {
          found, bdesc, prev, k := FindInChain(b, page);
          if found { return; }
        }
        b := b + 1;
      }
      found := false;
    }

    method FindInChain(b: nat, page: int) returns (found: bool, bdesc: int, prev: int, ghost k: nat)
      requires Consistent() && b < BUCKETS
      ensures found ==> k < |shape.lists[b]| && shape.lists[b][k] == bdesc && bdesc in desc && desc[bdesc].page == page
      ensures found ==> prev == if k == 0 then 0 else shape.lists[b][k - 1]
      ensures !found ==> NoneHasPage(desc, shape.lists[b], |shape.lists[b]|, page)
    {
      ghost var l := shape.lists[b];
      assert ListOk(Now(), shape, b);
      k := 0;
      prev := 0;
      bdesc := heads[b];
      while bdesc != 0
        invariant 0 <= k <= |l| && bdesc == At(l, k) && prev == (if k == 0 then 0 else l[k - 1])
        invariant NoneHasPage(desc, l, k, page)
        decreases |l| - k
      {
        assert LinkAt(desc, l, k);
        if desc[bdesc].page == page { return true, bdesc, prev, k; }
        prev := bdesc;
        bdesc := desc[bdesc].next;
        k := k + 1;
      }
      ChainEnd(desc, heads[b], l, k);
      found := false;
    }

    /** Puts the block at obj at the head of its page's free list. */
    method PutBlock(obj: int, bdesc: int)
      requires Consistent() && obj in shape.blocks && BlockStart(shape, obj) && bdesc == shape.owner[FrameAt(obj)]
      modifies this`desc, this`shape, m.ram
      ensures Consistent() && Puts(old(Now()), old(shape), bdesc, obj)
      ensures Now() == Pushed(old(Now()), bdesc, obj) && shape == PushedShape(old(shape), bdesc, obj)
    {
      ghost var h, s := Now(), shape;
      PutFacts(h, s, obj);
      var f, w := (obj - PAGE_OFFSET) / 4096, (obj - PAGE_OFFSET) % 4096 / 4;
      m.ram[f] := m.ram[f][w := desc[bdesc].freeptr];
      desc := desc[bdesc := desc[bdesc].(freeptr := obj, refcnt := desc[bdesc].refcnt - 1)];
      shape := PushedShape(shape, bdesc, obj);
      assert Now() == Pushed(h, bdesc, obj);
      PushInv(h, s, obj);
    }

    /** Unlinks descriptor k of bucket b, whose page has no live block, and frees the page. */
    method ReleasePage(b: nat, bdesc: int, prev: int, ghost k: nat)
      requires Consistent() && EmptyAt(Now(), shape, b, k, prev, bdesc)
      modifies this`freeDesc, this`desc, this`shape, heads, m.memMap
      ensures Now() == Unlinked(old(Now()), b, prev, bdesc) && Consistent()
      ensures shape == UnlinkedShape(old(shape), b, k, FrameAt(old(desc)[bdesc].page))
    {
      ghost var h, s := Now(), shape;
      ReleaseFacts(h, s, b, k, prev, bdesc);
      var page := desc[bdesc].page;
      if prev != 0 {
        desc := desc[prev := desc[prev].(next := desc[bdesc].next)];
      } else {
        assert heads[b] == bdesc;  // "malloc bucket chains corrupted" cannot happen
        heads[b] := desc[bdesc].next;
      }
      m.FreePage(page - PAGE_OFFSET);
      desc := desc[bdesc := desc[bdesc].(next := freeDesc)];
      freeDesc := bdesc;
      shape := UnlinkedShape(shape, b, k, FrameAt(page));
      assert Now() == Unlinked(h, b, prev, bdesc);
      ReleaseState(h, s, b, k, prev, bdesc, Now(), shape);
    }

    /** Gives live block obj back.  False is the panic: it is reached exactly when the size
        hint exceeds the block's bucket size, and then nothing has changed. */
    method Kfree(obj: int, size: nat) returns (ok: bool)
      requires Valid() && obj in shape.blocks
      modifies this`freeDesc, this`desc, this`shape, heads, m.ram, m.memMap
      ensures ok == (size <= old(shape.blocks)[obj])
      ensures !ok ==> Now() == old(Now()) && shape == old(shape)
      ensures ok ==> Valid() && FreeStep(old(Now()), old(shape), Now(), shape, obj, size)
      ensures ok ==> Freed(old(Now()), old(shape), Now(), shape, obj, size)
    {
      ghost var h0, s0 := Now(), shape;
      BlockOwner(h0, s0, obj);
      var found, b, bdesc, prev;
      ghost var k;
      found, b, bdesc, prev, k := FindPage(obj - obj % 4096, size);
      if !found {
        MissedPage(h0, s0, obj, size);
        return false;
      }
      FoundPage(h0, s0, obj, b, k, bdesc);
      PutBlock(obj, bdesc);
      ghost var h1, s1 := Now(), shape;
      if desc[bdesc].refcnt == 0 {
        // the chain has not changed since the search, so prev needs no second look
        ReleaseReady(h1, s1, b, k, prev, bdesc);
        ReleasePage(b, bdesc, prev, k);
        assert PageGone(h1, s1, Now(), shape, k, bdesc);
      }
      ok := true;
      FreeKeeps(h0, s0, Now(), shape, obj, size);
    }

    /** A store by the owner of live block x, w words into the frame. */
    method WriteWord(x: int, w: nat, v: Word)
      requires Valid() && x in shape.blocks && WordAt(x) <= w && 4 * (w - WordAt(x)) < shape.blocks[x]
      modifies m.ram
      ensures Valid() && 0 <= FrameAt(x) < m.ram.Length && w < 1024
      ensures m.ram[..] == old(m.ram[..])[FrameAt(x) := old(m.ram[FrameAt(x)])[w := v]]
    {
      ghost var h := Now();
      WriteInv(h, shape, x, w, v);
      var f := (x - PAGE_OFFSET) / 4096;
      m.ram[f] := m.ram[f][w := v];
      assert Now() == h.(ram := h.ram[f := h.ram[f][w := v]]);
    }

    /** memset(p, 0, size) on live block p: whole words, then the low bytes of the last one. */
    method ZeroBlock(p: int, size: nat)
      requires Valid() && p in shape.blocks && size <= shape.blocks[p]
      modifies m.ram
      ensures Valid() && ZeroedOnly(old(m.ram[..]), m.ram[..], FrameAt(p), WordAt(p), size)
    {
      PutFacts(Now(), shape, p);
      BlockFits(Now(), shape, p);
      var f, w := (p - PAGE_OFFSET) / 4096, (p - PAGE_OFFSET) % 4096 / 4;
      for i := 0 to size / 4
        invariant Valid() && ZeroedOnly(old(m.ram[..]), m.ram[..], f, w, 4 * i)
      {
        WriteWord(p, w + i, 0);
      }
      if size % 4 != 0 {
        var last := m.ram[f][w + size / 4];
        LowBytesCleared(last, size % 4);
        WriteWord(p, w + size / 4, last / BytesOf(size % 4) * BytesOf(size % 4));
      }
    }

    /** A fresh block whose first `size` bytes are zero. */
    method Kzmalloc(size: nat) returns (p: int, ok: bool)
      requires Valid()
      modifies this`freeDesc, this`desc, this`shape, heads, m.ram, m.memMap
      ensures ok == CanServe(old(Now()), old(shape), size)
      ensures ok ==> Valid() && p !in old(shape.blocks) && shape.blocks == old(shape.blocks)[p := Size(BucketFor(size, 0))]
      ensures ok ==> old(Held()) <= Held() && exists ram: seq<Frame> ::
        && SameOutside(old(Now()), Now().(ram := ram), Held() - old(Held()))
        && ZeroedOnly(ram, m.ram[..], FrameAt(p), WordAt(p), size)
    {
      p, ok := Kmalloc(size);
      if ok {
        ghost var ram := m.ram[..];
        ZeroBlock(p, size);
        assert SameOutside(old(Now()), Now().(ram := ram), Held() - old(Held()));
      }
    }
  }

  /** Frames outside d, and their mem_map entries, are unchanged. */
  ghost predicate SameOutside(h: Heap, h': Heap, d: set<nat>) {
    && |h'.ram| == |h.ram| && |h'.pages| == |h.pages|
    && (forall f :: 0 <= f < |h.ram| && f !in d ==> h'.ram[f] == h.ram[f])
    && (forall f :: 0 <= f < |h.pages| && f !in d ==> h'.pages[f] == h.pages[f])
  }

  ghost function HeldBy(s: Shape): set<nat> {
    s.owner.Keys + s.descPages
  }

  /** The allocator took frames that were unused, and no other frame changed. */
  ghost predicate TookFrames(h: Heap, s: Shape, h': Heap, s': Shape) {
    && HeldBy(s) <= HeldBy(s') && SameOutside(h, h', HeldBy(s') - HeldBy(s))
    && forall f :: f in HeldBy(s') && f !in HeldBy(s) ==> f < |h.pages| && !h.pages[f].Used()
  }

  /** No block came or went, and only frames that newly belong to the allocator changed. */
  ghost predicate Grown(h: Heap, s: Shape, h': Heap, s': Shape) {
    s'.blocks == s.blocks && TookFrames(h, s, h', s')
  }

  /** What kmalloc(len) = p means to its callers. */
  ghost predicate Served(h: Heap, s: Shape, h': Heap, s': Shape, len: nat, p: int) {
    && len <= 4096
    && p !in s.blocks && s'.blocks == s.blocks[p := Size(BucketFor(len, 0))]
    && TookFrames(h, s, h', s')
  }

  /** What a successful kfree(obj, size) means to its callers. */
  ghost predicate Freed(h: Heap, s: Shape, h': Heap, s': Shape, obj: int, size: nat) {
    && obj in s.blocks && size <= s.blocks[obj] && s'.blocks == s.blocks - {obj}
    && WroteOnly(h, h', FrameAt(obj), WordAt(obj))
    && var f := FrameAt(obj);
       var last := !exists x :: x in s'.blocks && FrameAt(x) == f;
       && 0 <= f < |h'.pages| && h'.pages[f].Used() == !last
       && HeldBy(s') == if last then HeldBy(s) - {f} else HeldBy(s)
  }

  // ----- kmalloc and kfree as steps

  /** Of at most a page, and there is a block, or frames enough for one. */
  ghost predicate CanServe(h: Heap, s: Shape, len: nat) {
    len <= 4096 && (HasBlock(h, s, BucketFor(len, 0)) || Room(h.pages, h.freeDesc))
  }

  /** If no descriptor was spare, the lowest unused frame holds new ones. */
  ghost predicate Readied(h: Heap, s: Shape, h1: Heap, s1: Shape) {
    if h.freeDesc != 0 then h1 == h && s1 == s
    else
      var g := FirstFree(h.pages, 0);
      Refilled(h, s, h1, g) && |s.lists| == BUCKETS + 1 && s1 == RefilledShape(s, g)
  }

  /** Bucket b has the lowest unused frame as a page of free blocks. */
  ghost predicate Restocked(h: Heap, s: Shape, h': Heap, s': Shape, b: nat) {
    var f := FirstFree(h.pages, 0);
    && f < |h'.ram| && StockAt(h, s, b, f, h'.ram[f])
    && h' == Stocked(h, b, f, h'.ram[f]) && s' == StockedShape(s, b, f)
  }

  ghost predicate Supplied(h: Heap, s: Shape, h1: Heap, s1: Shape, h2: Heap, s2: Shape, b: nat) {
    Readied(h, s, h1, s1) && Restocked(h1, s1, h2, s2, b)
  }

  /** The first free block of descriptor a is taken. */
  ghost predicate Took(h: Heap, s: Shape, h': Heap, s': Shape, a: int, p: int) {
    && a in h.desc && 0 <= FrameAt(h.desc[a].page) < |h.ram| && h.desc[a].freeptr == p != 0 && h' == Popped(h, a)
    && a in s.free && s.free[a] != [] && a in s.home && s' == PoppedShape(s, a, p)
  }

  /** kmalloc(len) = p: the block comes from the first descriptor of the bucket that has one, or
      from a page fetched for it. */
  ghost predicate MallocStep(h: Heap, s: Shape, h': Heap, s': Shape, len: nat, p: int) {
    var b := BucketFor(len, 0);
    && len <= 4096
    && if HasBlock(h, s, b) then Took(h, s, h', s', s.lists[b][FirstReady(h.desc, s.lists[b], 0)], p)
       else exists h1, s1, h2, s2 :: Supplied(h, s, h1, s1, h2, s2, b) && b < |h2.heads| && Took(h2, s2, h', s', h2.heads[b], p)
  }

  /** What it takes to push block x on the free list of descriptor a. */
  ghost predicate Puts(h: Heap, s: Shape, a: int, x: int) {
    && x in s.blocks && 0 <= FrameAt(x) < |h.ram| && FrameAt(x) in s.owner && a == s.owner[FrameAt(x)]
    && a in h.desc && a in s.home && a in s.free && h.desc[a].refcnt > 0 && 0 <= h.desc[a].freeptr < 0x1_0000_0000
  }

  /** Descriptor a leaves the chain and becomes spare, and its page is freed. */
  ghost predicate PageGone(h: Heap, s: Shape, h': Heap, s': Shape, k: nat, a: int) {
    && a in s.home
    && var b := s.home[a];
       && b < |s.lists| && k < |s.lists[b]|
       && var prev := if k == 0 then 0 else s.lists[b][k - 1];
          && IdleAt(h, s, b, k, prev, a)
          && h' == Unlinked(h, b, prev, a) && s' == UnlinkedShape(s, b, k, FrameAt(h.desc[a].page))
  }

  /** kfree(obj, size): the block goes back to its page, and the page goes if no block of it is live. */
  ghost predicate FreeStep(h: Heap, s: Shape, h': Heap, s': Shape, obj: int, size: nat) {
    && obj in s.blocks && size <= s.blocks[obj] && FrameAt(obj) >= 0 && FrameAt(obj) in s.owner
    && var a := s.owner[FrameAt(obj)];
       && Puts(h, s, a, obj)
       && var h1, s1 := Pushed(h, a, obj), PushedShape(s, a, obj);
          if h1.desc[a].refcnt > 0 then h' == h1 && s' == s1 else exists k :: PageGone(h1, s1, h', s', k, a)
  }

  ghost predicate InUseExcept(h: Heap, s: Shape, a: int) {
    forall c :: c in s.home && c in h.desc && s.home[c] < BUCKETS && c != a ==> h.desc[c].refcnt > 0
  }

  /** The first descriptor of bucket b has a free block; all others have a live one. */
  ghost predicate HeadReady(h: Heap, s: Shape, b: nat) {
    && b < |h.heads| && h.heads[b] in s.home && s.home[h.heads[b]] == b
    && h.heads[b] in h.desc && h.desc[h.heads[b]].freeptr != 0 && InUseExcept(h, s, h.heads[b])
  }

  lemma RefillAllInUse(h: Heap, s: Shape, h': Heap, g: nat)
    requires Inv(h, s) && AllInUse(h, s) && Refilled(h, s, h', g)
    ensures AllInUse(h', RefilledShape(s, g)) && h'.freeDesc != 0
  {
    assert forall a :: a in s.home ==> a in h.desc && h'.desc[a] == h.desc[a];
  }

  lemma RefillHeld(h: Heap, s: Shape, h': Heap, g: nat)
    requires |s.lists| == BUCKETS + 1 && Refilled(h, s, h', g)
    ensures HeldBy(RefilledShape(s, g)) == HeldBy(s) + {g} && SameOutside(h, h', {g})
  {
  }

  lemma TakeFacts(h: Heap, s: Shape, a: int)
    requires Inv(h, s) && a in s.home && s.home[a] < BUCKETS && a in h.desc && h.desc[a].freeptr != 0
    ensures var x := h.desc[a].freeptr;
      && 0 <= FrameAt(x) < |h.ram| && FrameAt(x) == FrameAt(h.desc[a].page) && WordAt(x) < 1024 && x !in s.blocks
      && a in s.free && s.free[a] != []
  {
    PopInv(h, s, a);
    PopBucket(h, s, a);
    AddrParts(FrameAt(h.desc[a].page), s.free[a][0]);
  }

  /** Taking a block from a descriptor of a bucket, the only one that may have no live block. */
  lemma TookKeeps(h: Heap, s: Shape, h': Heap, s': Shape, a: int, p: int)
    requires Inv(h, s) && InUseExcept(h, s, a) && Took(h, s, h', s', a, p) && s.home[a] < BUCKETS
    ensures Inv(h', s') && AllInUse(h', s') && p !in s.blocks
    ensures HeldBy(s') == HeldBy(s) && s'.blocks == s.blocks[p := Size(s.home[a])] && h'.ram == h.ram && h'.pages == h.pages
  {
    PopInv(h, s, a);
  }

  lemma StockHeld(h: Heap, s: Shape, b: nat, f: nat, page: Frame)
    requires b < BUCKETS && |s.lists| == BUCKETS + 1 && s.lists[SPARE] != []
    requires b < |h.heads| && h.freeDesc in h.desc && f < |h.ram| && f < |h.pages|
    ensures HeldBy(StockedShape(s, b, f)) == HeldBy(s) + {f} && SameOutside(h, Stocked(h, b, f, page), {f})
  {
  }

  lemma RefillGrows(h: Heap, s: Shape, h': Heap, g: nat)
    requires Inv(h, s) && AllInUse(h, s) && Refilled(h, s, h', g)
    ensures var s' := RefilledShape(s, g); AllInUse(h', s') && h'.freeDesc != 0 && Grown(h, s, h', s')
  {
    RefillAllInUse(h, s, h', g);
    FreshFrame(h, s, g);
    RefillHeld(h, s, h', g);
    GrownByOne(h, s, h, s, h', RefilledShape(s, g), g);
  }

  lemma GrownByOne(h0: Heap, s0: Shape, h: Heap, s: Shape, h': Heap, s': Shape, f: nat)
    requires Grown(h0, s0, h, s) && f !in HeldBy(s) && HeldBy(s') == HeldBy(s) + {f}
    requires s'.blocks == s.blocks && SameOutside(h, h', {f}) && f < |h.pages| && !h.pages[f].Used()
    ensures Grown(h0, s0, h', s')
  {
  }

  lemma StockDone(h: Heap, s: Shape, b: nat, f: nat, page: Frame, h': Heap, s': Shape, a: int)
    requires CanStock(h, s, b, f, page) && f == FirstFree(h.pages, 0) && a == h.freeDesc && s' == StockedShape(s, b, f)
    requires h'.ram == h.ram[f := page] && h'.pages == Taken(h.pages, f) && h'.heads == h.heads[b := a]
    requires h'.freeDesc == h.desc[a].next && h'.desc == h.desc[a := Desc(Addr(f, 0), h.heads[b], Addr(f, 0), 0, Size(b))]
    ensures Inv(h', s') && Restocked(h, s, h', s', b)
  {
    StockInv(h, s, b, f, page);
  }

  lemma StockReady(h: Heap, s: Shape, b: nat, f: nat, page: Frame)
    requires CanStock(h, s, b, f, page) && AllInUse(h, s)
    ensures HeadReady(Stocked(h, b, f, page), StockedShape(s, b, f), b)
  {
    OnOneList(h, s, h.freeDesc, SPARE);
  }

  lemma StockGrows(h0: Heap, s0: Shape, h: Heap, s: Shape, b: nat, f: nat, page: Frame)
    requires Grown(h0, s0, h, s) && CanStock(h, s, b, f, page) && AllInUse(h, s)
    ensures var h', s' := Stocked(h, b, f, page), StockedShape(s, b, f);
      HeadReady(h', s', b) && Grown(h0, s0, h', s')
  {
    StockReady(h, s, b, f, page);
    FreshFrame(h, s, f);
    StockHeld(h, s, b, f, page);
    GrownByOne(h0, s0, h, s, Stocked(h, b, f, page), StockedShape(s, b, f), f);
  }

  /** So many unused frames it takes to stock a bucket. */
  lemma RoomCounts(pages: seq<Page>, freeDesc: int)
    ensures Room(pages, freeDesc) <==> |Unused(pages)| >= if freeDesc == 0 then 2 else 1
  {
    TakenUsesUp(pages);
    if HasFree(pages) { TakenUsesUp(Taken(pages, FirstFree(pages, 0))); }
  }

  /** The first descriptor with a free block. */
  lemma ReadyHead(h: Heap, s: Shape, b: nat)
    requires Inv(h, s) && b < BUCKETS && HasBlock(h, s, b)
    ensures var a := s.lists[b][FirstReady(h.desc, s.lists[b], 0)];
      a in s.home && s.home[a] == b && a in h.desc && h.desc[a].freeptr != 0
  {
    var l := s.lists[b];
    assert l[FirstReady(h.desc, l, 0)] in l;
    OnOneList(h, s, l[FirstReady(h.desc, l, 0)], b);
  }

  lemma ReadiedGrows(h: Heap, s: Shape, h1: Heap, s1: Shape)
    requires Inv(h, s) && AllInUse(h, s) && Readied(h, s, h1, s1)
    ensures Inv(h1, s1) && AllInUse(h1, s1) && Grown(h, s, h1, s1)
  {
    if h.freeDesc == 0 {
      var g := FirstFree(h.pages, 0);
      RefillInv(h, s, h1, g);
      RefillGrows(h, s, h1, g);
    }
  }

  lemma SuppliedGrows(h: Heap, s: Shape, h1: Heap, s1: Shape, h2: Heap, s2: Shape, b: nat)
    requires Inv(h, s) && AllInUse(h, s) && Supplied(h, s, h1, s1, h2, s2, b)
    ensures Inv(h2, s2) && HeadReady(h2, s2, b) && Grown(h, s, h2, s2)
  {
    ReadiedGrows(h, s, h1, s1);
    var f := FirstFree(h1.pages, 0);
    StockInv(h1, s1, b, f, h2.ram[f]);
    StockGrows(h, s, h1, s1, b, f, h2.ram[f]);
  }

  lemma StockedHead(h: Heap, s: Shape, h1: Heap, s1: Shape, h2: Heap, s2: Shape, b: nat)
    requires Inv(h, s) && AllInUse(h, s) && Supplied(h, s, h1, s1, h2, s2, b)
    ensures HeadReady(h2, s2, b)
  {
    SuppliedGrows(h, s, h1, s1, h2, s2, b);
  }

  lemma MallocIs(h: Heap, s: Shape, h1: Heap, s1: Shape, h2: Heap, s2: Shape, h': Heap, s': Shape, len: nat, p: int, a: int)
    requires len <= 4096 && Took(h2, s2, h', s', a, p)
    requires var b := BucketFor(len, 0);
      if HasBlock(h, s, b) then h2 == h && s2 == s && a == s.lists[b][FirstReady(h.desc, s.lists[b], 0)]
      else Supplied(h, s, h1, s1, h2, s2, b) && b < |h2.heads| && a == h2.heads[b]
    ensures MallocStep(h, s, h', s', len, p)
  {
  }

  lemma MallocFromChain(h: Heap, s: Shape, h': Heap, s': Shape, len: nat, p: int, a: int)
    requires Inv(h, s) && AllInUse(h, s) && len <= 4096 && HasBlock(h, s, BucketFor(len, 0))
    requires a == s.lists[BucketFor(len, 0)][FirstReady(h.desc, s.lists[BucketFor(len, 0)], 0)] && Took(h, s, h', s', a, p)
    ensures Inv(h', s') && AllInUse(h', s') && Served(h, s, h', s', len, p)
  {
    ReadyHead(h, s, BucketFor(len, 0));
    TookKeeps(h, s, h', s', a, p);
  }

  lemma MallocFromPage(h: Heap, s: Shape, h1: Heap, s1: Shape, h2: Heap, s2: Shape, h': Heap, s': Shape, len: nat, p: int)
    requires Inv(h, s) && AllInUse(h, s) && len <= 4096 && Supplied(h, s, h1, s1, h2, s2, BucketFor(len, 0))
    requires BucketFor(len, 0) < |h2.heads| && Took(h2, s2, h', s', h2.heads[BucketFor(len, 0)], p)
    ensures Inv(h', s') && AllInUse(h', s') && Served(h, s, h', s', len, p)
  {
    SuppliedGrows(h, s, h1, s1, h2, s2, BucketFor(len, 0));
    TookKeeps(h2, s2, h', s', h2.heads[BucketFor(len, 0)], p);
  }

  /** kmalloc keeps the invariant, and gives its caller a fresh block. */
  lemma MallocKeeps(h: Heap, s: Shape, h': Heap, s': Shape, len: nat, p: int)
    requires Inv(h, s) && AllInUse(h, s) && MallocStep(h, s, h', s', len, p)
    ensures Inv(h', s') && AllInUse(h', s') && Served(h, s, h', s', len, p)
  {
    var b := BucketFor(len, 0);
    if HasBlock(h, s, b) {
      MallocFromChain(h, s, h', s', len, p, s.lists[b][FirstReady(h.desc, s.lists[b], 0)]);
    } else {
      var h1, s1, h2, s2 :| Supplied(h, s, h1, s1, h2, s2, b) && b < |h2.heads| && Took(h2, s2, h', s', h2.heads[b], p);
      MallocFromPage(h, s, h1, s1, h2, s2, h', s', len, p);
    }
  }

  /** The frames kmalloc takes: none if the bucket has a block, otherwise the lowest unused one
      for the page, and the one before it for descriptors if none is spare. */
  lemma MallocFrames(h: Heap, s: Shape, h': Heap, s': Shape, len: nat, p: int)
    requires Inv(h, s) && AllInUse(h, s) && MallocStep(h, s, h', s', len, p)
    ensures
      var f := FirstFree(h.pages, 0);
      if HasBlock(h, s, BucketFor(len, 0)) then HeldBy(s') == HeldBy(s) && h'.ram == h.ram && h'.pages == h.pages
      else if h.freeDesc != 0 then f < |h.pages| && HeldBy(s') == HeldBy(s) + {f}
      else f < |h.pages| && HeldBy(s') == HeldBy(s) + {f, FirstFree(Taken(h.pages, f), 0)}
  {
    var b := BucketFor(len, 0);
    if HasBlock(h, s, b) {
      ReadyHead(h, s, b);
      TookKeeps(h, s, h', s', s.lists[b][FirstReady(h.desc, s.lists[b], 0)], p);
    } else {
      var h1, s1, h2, s2 :| Supplied(h, s, h1, s1, h2, s2, b) && b < |h2.heads| && Took(h2, s2, h', s', h2.heads[b], p);
      assert HeldBy(s') == HeldBy(s2) by {
        SuppliedGrows(h, s, h1, s1, h2, s2, b);
        TookKeeps(h2, s2, h', s', h2.heads[b], p);
      }
      ReadiedFrames(h, s, h1, s1);
      RestockedFrames(h1, s1, h2, s2, b);
      FramesTaken(h.pages, h.freeDesc, h1.pages, HeldBy(s), HeldBy(s1), HeldBy(s2));
    }
  }

  lemma ReadiedFrames(h: Heap, s: Shape, h1: Heap, s1: Shape)
    requires Readied(h, s, h1, s1)
    ensures var f := FirstFree(h.pages, 0);
      if h.freeDesc != 0 then h1 == h && s1 == s
      else f < |h.pages| && h1.pages == Taken(h.pages, f) && HeldBy(s1) == HeldBy(s) + {f}
  {
    if h.freeDesc == 0 { RefillHeld(h, s, h1, FirstFree(h.pages, 0)); }
  }

  lemma RestockedFrames(h: Heap, s: Shape, h': Heap, s': Shape, b: nat)
    requires Restocked(h, s, h', s', b)
    ensures FirstFree(h.pages, 0) < |h.pages| && HeldBy(s') == HeldBy(s) + {FirstFree(h.pages, 0)}
  {
    StockHeld(h, s, b, FirstFree(h.pages, 0), h'.ram[FirstFree(h.pages, 0)]);
  }

  lemma FramesTaken(pages: seq<Page>, freeDesc: int, pages1: seq<Page>, held: set<nat>, held1: set<nat>, held2: set<nat>)
    requires if freeDesc != 0 then pages1 == pages && held1 == held
             else HasFree(pages) && pages1 == Taken(pages, FirstFree(pages, 0)) && held1 == held + {FirstFree(pages, 0)}
    requires HasFree(pages1) && held2 == held1 + {FirstFree(pages1, 0)}
    ensures var f := FirstFree(pages, 0);
      f < |pages| && held2 == held + if freeDesc != 0 then {f} else {f, FirstFree(Taken(pages, f), 0)}
  {
  }

  // ----- kfree's steps

  lemma PutFacts(h: Heap, s: Shape, x: int)
    requires Inv(h, s) && x in s.blocks
    ensures BlockStart(s, x) && 0 <= FrameAt(x) < |h.ram| && WordAt(x) < 1024
    ensures var a := s.owner[FrameAt(x)];
      && a in h.desc && a in s.home && s.home[a] < BUCKETS && a in s.free
      && h.desc[a].refcnt > 0 && 0 <= h.desc[a].freeptr < 0x1_0000_0000
  {
    PushInv(h, s, x);
    BlockOwner(h, s, x);
  }

  lemma MissedPage(h: Heap, s: Shape, x: int, size: nat)
    requires Inv(h, s) && x in s.blocks
    requires forall c :: 0 <= c < BUCKETS && size <= Size(c) ==> NoneHasPage(h.desc, s.lists[c], |s.lists[c]|, x - x % 4096)
    ensures size > s.blocks[x]
  {
    BlockOwner(h, s, x);
    var a := s.owner[FrameAt(x)];
    assert HomeOk(h, s, a);
    var k :| 0 <= k < |s.lists[s.home[a]]| && s.lists[s.home[a]][k] == a;
  }

  lemma FoundPage(h: Heap, s: Shape, x: int, b: nat, k: nat, a: int)
    requires Inv(h, s) && x in s.blocks && b < BUCKETS && k < |s.lists[b]| && s.lists[b][k] == a
    requires a in h.desc && h.desc[a].page == x - x % 4096
    ensures BlockStart(s, x) && a == s.owner[FrameAt(x)] && s.blocks[x] == Size(b) && a in s.home && s.home[a] == b
  {
    BlockOwner(h, s, x);
    assert BlockOk(s, x);
    OnOneList(h, s, a, b);
    assert BucketOk(h, s, a);
  }

  lemma ReleaseFacts(h: Heap, s: Shape, b: nat, k: nat, prev: int, a: int)
    requires EmptyAt(h, s, b, k, prev, a)
    ensures prev != a && (prev == 0 ==> h.heads[b] == a)
    ensures var p := h.desc[a].page;
      0 <= p - PAGE_OFFSET && FrameAt(p) == (p - PAGE_OFFSET) / 4096 < |h.pages|
  {
    UnlinkHomes(h, s, b, k, prev, a);
    assert ListOk(h, s, b);
    assert BucketOk(h, s, a);
    if k > 0 { OnOneList(h, s, s.lists[b][k - 1], b); }
  }

  lemma ReleaseState(h: Heap, s: Shape, b: nat, k: nat, prev: int, a: int, h': Heap, s': Shape)
    requires EmptyAt(h, s, b, k, prev, a) && h' == Unlinked(h, b, prev, a)
    requires s' == UnlinkedShape(s, b, k, FrameAt(h.desc[a].page))
    ensures Inv(h', s')
  {
    UnlinkInv(h, s, b, k, prev, a);
  }

  lemma ReleaseReady(h: Heap, s: Shape, b: nat, k: nat, prev: int, a: int)
    requires Inv(h, s) && b < BUCKETS && k < |s.lists[b]| && s.lists[b][k] == a
    requires a in h.desc && h.desc[a].refcnt == 0 && prev == if k == 0 then 0 else s.lists[b][k - 1]
    ensures EmptyAt(h, s, b, k, prev, a)
  {
    OnOneList(h, s, a, b);
    assert BucketOk(h, s, a);
    if k > 0 { OnOneList(h, s, prev, b); }
  }

  lemma ReleaseDone(h: Heap, s: Shape, b: nat, k: nat, prev: int, a: int, f: int)
    requires EmptyAt(h, s, b, k, prev, a) && InUseExcept(h, s, a) && f == FrameAt(h.desc[a].page)
    ensures var h', s' := Unlinked(h, b, prev, a), UnlinkedShape(s, b, k, f);
      && AllInUse(h', s') && s'.blocks == s.blocks && !h'.pages[f].Used()
      && HeldBy(s') == HeldBy(s) - {f} && h'.ram == h.ram
      && |h'.pages| == |h.pages| && (forall g :: 0 <= g < |h.pages| && g != f ==> h'.pages[g] == h.pages[g])
    ensures forall x :: x in s.blocks ==> FrameAt(x) != f
  {
    UnlinkNexts(h, s, b, k, prev, a);
    assert BucketOk(h, s, a);
    assert forall g :: g in s.descPages ==> g !in s.owner by {
      forall g | g in s.descPages ensures g !in s.owner { assert DescPageOk(h, s, g); }
    }
    forall x | x in s.blocks ensures FrameAt(x) != f {
      if FrameAt(x) == f { EmptyPageHasNoBlocks(h, s, b, k, prev, a, x); }
    }
  }

  lemma KeptDone(h: Heap, s: Shape, a: int)
    requires Inv(h, s) && InUseExcept(h, s, a) && a in s.home && s.home[a] < BUCKETS && a in h.desc && h.desc[a].refcnt > 0
    ensures AllInUse(h, s) && 0 <= FrameAt(h.desc[a].page) < |h.pages| && h.pages[FrameAt(h.desc[a].page)].Used()
  {
    assert BucketOk(h, s, a);
  }

  /** The page keeps a live block. */
  lemma FreedKept(h0: Heap, s0: Shape, h: Heap, s: Shape, obj: int, size: nat)
    requires obj in s0.blocks && size <= s0.blocks[obj] && s.blocks == s0.blocks - {obj}
    requires WroteOnly(h0, h, FrameAt(obj), WordAt(obj)) && HeldBy(s) == HeldBy(s0)
    requires 0 <= FrameAt(obj) < |h.pages| && h.pages[FrameAt(obj)].Used()
    requires exists x :: x in s.blocks && FrameAt(x) == FrameAt(obj)
    ensures Freed(h0, s0, h, s, obj, size)
  {
  }

  /** The page had no other live block, and went. */
  lemma FreedReleased(h0: Heap, s0: Shape, h1: Heap, s1: Shape, h: Heap, s: Shape, obj: int, size: nat)
    requires obj in s0.blocks && size <= s0.blocks[obj] && s.blocks == s1.blocks == s0.blocks - {obj}
    requires WroteOnly(h0, h1, FrameAt(obj), WordAt(obj)) && HeldBy(s1) == HeldBy(s0)
    requires HeldBy(s) == HeldBy(s1) - {FrameAt(obj)} && h.ram == h1.ram
    requires |h.pages| == |h1.pages| && 0 <= FrameAt(obj) < |h.pages| && !h.pages[FrameAt(obj)].Used()
    requires forall g :: 0 <= g < |h.pages| && g != FrameAt(obj) ==> h.pages[g] == h1.pages[g]
    requires forall x :: x in s.blocks ==> FrameAt(x) != FrameAt(obj)
    ensures Freed(h0, s0, h, s, obj, size)
  {
  }

  lemma Pushes(h: Heap, s: Shape, x: int, a: int)
    requires Inv(h, s) && AllInUse(h, s) && Puts(h, s, a, x)
    ensures var h', s' := Pushed(h, a, x), PushedShape(s, a, x);
      && Inv(h', s') && InUseExcept(h', s', a) && WroteOnly(h, h', FrameAt(x), WordAt(x))
      && s'.blocks == s.blocks - {x} && HeldBy(s') == HeldBy(s) && s'.home == s.home
      && s.home[a] < BUCKETS && FrameAt(h'.desc[a].page) == FrameAt(x)
  {
    PushInv(h, s, x);
    BlockOwner(h, s, x);
  }

  /** kfree keeps the invariant, and takes the block away from its caller. */
  lemma FreeKeeps(h: Heap, s: Shape, h': Heap, s': Shape, obj: int, size: nat)
    requires Inv(h, s) && AllInUse(h, s) && FreeStep(h, s, h', s', obj, size)
    ensures Inv(h', s') && AllInUse(h', s') && Freed(h, s, h', s', obj, size)
  {
    var a := s.owner[FrameAt(obj)];
    var h1, s1 := Pushed(h, a, obj), PushedShape(s, a, obj);
    Pushes(h, s, obj, a);
    if h1.desc[a].refcnt > 0 {
      SomeSlotLive(h1, s1, a);
      KeptDone(h1, s1, a);
      FreedKept(h, s, h1, s1, obj, size);
    } else {
      var k :| PageGone(h1, s1, h', s', k, a);
      var b := s1.home[a];
      var prev := if k == 0 then 0 else s1.lists[b][k - 1];
      UnlinkInv(h1, s1, b, k, prev, a);
      ReleaseDone(h1, s1, b, k, prev, a, FrameAt(obj));
      FreedReleased(h, s, h1, s1, h', s', obj, size);
    }
  }

  lemma StepDown(i: nat, n: nat)
    requires i >= 1
    ensures i * n == (i - 1) * n + n
  {
  }

  lemma SpareHead(h: Heap, s: Shape)
    requires Inv(h, s)
    ensures h.freeDesc == At(s.lists[SPARE], 0)
    ensures h.freeDesc == 0 <==> s.lists[SPARE] == []
    ensures h.freeDesc != 0 ==> h.freeDesc in h.desc && h.freeDesc in s.home && s.home[h.freeDesc] == SPARE
  {
    assert ListOk(h, s, SPARE);
    if s.lists[SPARE] != [] {
      assert LinkAt(h.desc, s.lists[SPARE], 0);
      OnOneList(h, s, s.lists[SPARE][0], SPARE);
    }
  }

  // ----- what the invariant means

  lemma BlockFits(h: Heap, s: Shape, x: int)
    requires Inv(h, s) && x in s.blocks
    ensures WordAt(x) + s.blocks[x] / 4 <= 1024 && s.blocks[x] % 4 == 0
  {
    BlockOwner(h, s, x);
    SlotLast(s.home[s.owner[FrameAt(x)]], WordAt(x));
  }

  /** Live blocks are whole slots of their pages and never overlap. */
  lemma BlocksDisjoint(h: Heap, s: Shape, x: int, y: int)
    requires Inv(h, s) && x in s.blocks && y in s.blocks && x < y
    ensures x + s.blocks[x] <= y
  {
    BlockOwner(h, s, x);
    BlockOwner(h, s, y);
    BlockFits(h, s, x);
    var b := s.home[s.owner[FrameAt(x)]];
    if FrameAt(x) == FrameAt(y) {
      SlotGap(b, WordAt(x), WordAt(y));
    }
  }

  /** A descriptor's refcnt is the number of live blocks of its page. */
  lemma RefcntCountsBlocks(h: Heap, s: Shape, a: int)
    requires Inv(h, s) && a in s.home && a in h.desc && s.home[a] < BUCKETS
    ensures a in s.free
    ensures var f, live := FrameAt(h.desc[a].page), SetOf(SlotsFrom(s.home[a], 0)) - SetOf(s.free[a]);
      |live| == h.desc[a].refcnt && f >= 0 && forall w :: 0 <= w < 1024 ==> (w in live <==> Addr(f, w) in s.blocks)
  {
    assert BucketOk(h, s, a);
    var b, f, ws := s.home[a], FrameAt(h.desc[a].page), s.free[a];
    AllSlots(b);
    NoDupSet(ws);
    NoDupSet(SlotsFrom(b, 0));
    var all := SetOf(SlotsFrom(b, 0));
    assert SetOf(ws) <= all;
    assert |all - SetOf(ws)| == |all| - |SetOf(ws)|;
    forall w: nat | w < 1024 ensures w in all - SetOf(ws) <==> Addr(f, w) in s.blocks {
      AddrParts(f, w);
      assert BlockOk(s, Addr(f, w));
    }
  }

  ghost function ChainedDescs(s: Shape): set<int> {
    set a | a in s.home && s.home[a] < BUCKETS
  }

  /** Chained plus spare descriptors are 256 per descriptor page, and the frames held are the
      descriptor pages plus one per chained descriptor. */
  lemma Conservation(h: Heap, s: Shape)
    requires Inv(h, s)
    ensures |ChainedDescs(s)| + |s.lists[SPARE]| == DESCS_PER_PAGE * |s.descPages|
    ensures |HeldBy(s)| == |ChainedDescs(s)| + |s.descPages|
    ensures forall f :: f in HeldBy(s) ==> f < |h.pages| && h.pages[f].Used()
  {
    SparesCounted(h, s);
    PagesCounted(h, s);
    assert s.owner.Keys !! s.descPages by {
      forall g | g in s.descPages ensures g !in s.owner { assert DescPageOk(h, s, g); }
    }
    forall f | f in HeldBy(s) ensures f < |h.pages| && h.pages[f].Used() { HeldFrameUsed(h, s, f); }
  }

  lemma SparesCounted(h: Heap, s: Shape)
    requires Inv(h, s)
    ensures |ChainedDescs(s)| + |s.lists[SPARE]| == |h.desc|
  {
    var spare := SetOf(s.lists[SPARE]);
    assert ListOk(h, s, SPARE);
    forall a ensures a in s.home.Keys <==> a in ChainedDescs(s) || a in spare {
      if a in s.home { assert HomeOk(h, s, a); }
      if a in spare { OnOneList(h, s, a, SPARE); }
    }
    forall a | a in spare ensures a !in ChainedDescs(s) { OnOneList(h, s, a, SPARE); }
    NoDupSet(s.lists[SPARE]);
    SplitCount(s.home.Keys, ChainedDescs(s), spare);
    assert |h.desc| == |h.desc.Keys|;
  }

  lemma SplitCount(all: set<int>, chained: set<int>, spare: set<int>)
    requires forall a :: a in all <==> a in chained || a in spare
    requires forall a :: a in spare ==> a !in chained
    ensures |chained| + |spare| == |all|
  {
    forall a: int ensures a !in chained * spare && (a in all <==> a in chained + spare) {}
    assert chained * spare == {};
    assert all == chained + spare;
  }

  lemma PagesCounted(h: Heap, s: Shape)
    requires Inv(h, s)
    ensures |s.owner.Keys| == |ChainedDescs(s)|
  {
    forall f | f in s.owner ensures s.owner[f] in ChainedDescs(s) { assert OwnerOk(h, s, f); }
    forall f, g | f in s.owner && g in s.owner && s.owner[f] == s.owner[g] ensures f == g {
      assert OwnerOk(h, s, f) && OwnerOk(h, s, g);
    }
    forall a | a in ChainedDescs(s) ensures exists f :: f in s.owner && s.owner[f] == a { assert BucketOk(h, s, a); }
    Bijection(s.owner, ChainedDescs(s));
  }

  lemma {:induction false} Bijection(m: map<nat, int>, image: set<int>)
    requires forall f :: f in m ==> m[f] in image
    requires forall f, g :: f in m && g in m && m[f] == m[g] ==> f == g
    requires forall a :: a in image ==> exists f :: f in m && m[f] == a
    ensures |m.Keys| == |image|
    decreases |m|
  {
    if f :| f in m {
      var m' := m - {f};
      assert m.Keys == m'.Keys + {f};
      assert |m'| == |m'.Keys| < |m.Keys| == |m|;
      forall a | a in image - {m[f]} ensures exists g :: g in m' && m'[g] == a {
        var g :| g in m && m[g] == a;
        assert g in m' && m'[g] == a;
      }
      Bijection(m', image - {m[f]});
    } else {
      assert forall a :: a !in image;
      assert image == {};
    }
  }
}
