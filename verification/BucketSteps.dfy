/** Each change the allocator makes to the heap keeps `BucketHeap.Inv`. */
module BucketSteps {
  import opened Frames
  import opened BucketHeap
  import opened Sets

  // ----- linked lists

  lemma LinkedFrame(desc: map<int, Desc>, desc': map<int, Desc>, head: int, l: seq<int>)
    requires Linked(desc, head, l)
    requires forall a :: a in l && a in desc ==> a in desc' && desc'[a].next == desc[a].next
    ensures Linked(desc', head, l)
  {
    forall k | 0 <= k < |l| ensures LinkAt(desc', l, k) {
      assert LinkAt(desc, l, k) && l[k] in l;
    }
  }

  lemma LinkedCons(desc: map<int, Desc>, head: int, l: seq<int>, a: int)
    requires Linked(desc, head, l) && a in desc && a != 0 && desc[a].next == head
    ensures Linked(desc, a, [a] + l)
  {
    forall k | 0 <= k < |l| + 1 ensures LinkAt(desc, [a] + l, k) {
      if k > 0 { assert LinkAt(desc, l, k - 1); }
    }
  }

  lemma LinkedTail(desc: map<int, Desc>, head: int, l: seq<int>)
    requires Linked(desc, head, l) && l != []
    ensures head == l[0] && head in desc && Linked(desc, desc[head].next, l[1..])
  {
    assert LinkAt(desc, l, 0);
    forall k | 0 <= k < |l| - 1 ensures LinkAt(desc, l[1..], k) {
      assert LinkAt(desc, l, k + 1);
    }
  }

  function Without(l: seq<int>, k: nat): seq<int>
    requires k < |l|
  {
    l[..k] + l[k + 1..]
  }

  lemma WithoutMembers(l: seq<int>, k: nat)
    requires k < |l| && NoDup(l)
    ensures NoDup(Without(l, k))
    ensures forall x :: x in Without(l, k) <==> x in l && x != l[k]
  {
    var l' := Without(l, k);
    forall i | 0 <= i < |l'| ensures l'[i] == if i < k then l[i] else l[i + 1] {}
    forall x | x in l && x != l[k] ensures x in l' {
      var i :| 0 <= i < |l| && l[i] == x;
      assert if i < k then l'[i] == x else l'[i - 1] == x;
    }
  }

  /** Unlinking element k by redirecting the pointer in front of it. */
  lemma LinkedRemove(desc: map<int, Desc>, desc': map<int, Desc>, head: int, head': int, l: seq<int>, k: nat)
    requires Linked(desc, head, l) && NoDup(l) && k < |l| && l[k] in desc
    requires if k == 0 then head' == desc[l[0]].next else head' == head && l[k - 1] in desc && l[k - 1] in desc' && desc'[l[k - 1]].next == desc[l[k]].next
    requires forall i :: 0 <= i < |l| && i != k && i != k - 1 && l[i] in desc ==> l[i] in desc' && desc'[l[i]].next == desc[l[i]].next
    ensures Linked(desc', head', Without(l, k))
  {
    var l' := Without(l, k);
    assert LinkAt(desc, l, k);
    forall i | 0 <= i < |l'| ensures LinkAt(desc', l', i) {
      if i < k {
        assert LinkAt(desc, l, i);
        assert l'[i] == l[i];
      } else {
        assert LinkAt(desc, l, i + 1);
        assert l'[i] == l[i + 1];
      }
    }
  }

  /** A descriptor is on no list but its own. */
  lemma OnOneList(h: Heap, s: Shape, a: int, b: nat)
    requires Inv(h, s) && b <= BUCKETS && a in s.lists[b]
    ensures a in s.home && s.home[a] == b && a in h.desc && a != 0
  {
    assert ListOk(h, s, b);
    var k :| 0 <= k < |s.lists[b]| && s.lists[b][k] == a;
    assert HomeOk(h, s, a);
  }

  // ----- taking and returning a block

  function Popped(h: Heap, a: int): Heap
    requires a in h.desc && 0 <= FrameAt(h.desc[a].page) < |h.ram|
  {
    var d := h.desc[a];
    var w := WordAt(d.freeptr);
    var link := if w < 1024 then h.ram[FrameAt(d.page)][w] else 0;
    h.(desc := h.desc[a := d.(freeptr := link, refcnt := d.refcnt + 1)])
  }

  /** A change that touches only descriptor a, its page and its free list keeps every other
      bucket as it was. */
  lemma OtherBuckets(h: Heap, h': Heap, s: Shape, s': Shape, a: int, c: int)
    requires Inv(h, s) && a in h.desc && c in s.home && s.home[c] < BUCKETS && c != a
    requires |h'.ram| == |h.ram| && h'.pages == h.pages && c in h'.desc && h'.desc[c] == h.desc[c]
    requires s'.home == s.home && s'.owner == s.owner && c in s'.free && (c in s.free ==> s'.free[c] == s.free[c])
    requires forall f :: 0 <= f < |h.ram| && f in s.owner && s.owner[f] != a ==> h'.ram[f] == h.ram[f]
    ensures BucketOk(h', s', c)
  {
    assert BucketOk(h, s, c);
  }

  ghost function PoppedShape(s: Shape, a: int, x: int): Shape
    requires a in s.free && s.free[a] != [] && a in s.home
  {
    s.(free := s.free[a := s.free[a][1..]], blocks := s.blocks[x := Size(s.home[a])])
  }

  lemma PopBlocks(h: Heap, s: Shape, a: int, y: int)
    requires Inv(h, s) && a in s.home && s.home[a] < BUCKETS && BucketOk(h, s, a) && s.free[a] != []
    ensures h.desc[a].freeptr !in s.blocks && BlockOk(PoppedShape(s, a, h.desc[a].freeptr), y)
  {
    var ws, f, x := s.free[a], FrameAt(h.desc[a].page), h.desc[a].freeptr;
    assert ws[0] in ws;
    AddrParts(f, ws[0]);
    assert BlockOk(s, x) && BlockOk(s, y);
    if BlockStart(s, y) && s.owner[FrameAt(y)] == a {
      assert OwnerOk(h, s, FrameAt(y));
      assert FrameAt(y) == f;
      assert WordAt(y) in ws <==> WordAt(y) == ws[0] || WordAt(y) in ws[1..];
      assert ws[0] !in ws[1..];
    }
  }

  lemma PopBucket(h: Heap, s: Shape, a: int)
    requires Inv(h, s) && a in s.home && a in h.desc && BucketOk(h, s, a) && h.desc[a].freeptr != 0
    ensures s.free[a] != [] && IsSlot(s.home[a], s.free[a][0])
    ensures h.desc[a].freeptr == Addr(FrameAt(h.desc[a].page), s.free[a][0])
    ensures BucketOk(Popped(h, a), PoppedShape(s, a, h.desc[a].freeptr), a)
  {
    var f, ws := FrameAt(h.desc[a].page), s.free[a];
    assert ws[0] in ws;
    AddrParts(f, ws[0]);
    assert forall w :: w in ws[1..] ==> w in ws;
  }

  /** Taking the first free block of descriptor a. */
  lemma PopInv(h: Heap, s: Shape, a: int)
    requires Inv(h, s) && a in s.home && s.home[a] < BUCKETS && h.desc[a].freeptr != 0
    ensures BucketOk(h, s, a) && s.free[a] != [] && h.desc[a].freeptr == Addr(FrameAt(h.desc[a].page), s.free[a][0])
    ensures h.desc[a].freeptr !in s.blocks && 0 <= FrameAt(h.desc[a].page) < |h.ram|
    ensures Inv(Popped(h, a), PoppedShape(s, a, h.desc[a].freeptr))
  {
    assert BucketOk(h, s, a);
    PopBucket(h, s, a);
    PopBlocks(h, s, a, 0);
    var h', s' := Popped(h, a), PoppedShape(s, a, h.desc[a].freeptr);
    DescChangeLists(h, h', s, s', a);
    forall c | c in s'.home && s'.home[c] < BUCKETS ensures BucketOk(h', s', c) {
      assert BucketOk(h, s, c);
      if c != a { OtherBuckets(h, h', s, s', a, c); }
    }
    forall f' | f' in s'.owner ensures OwnerOk(h', s', f') { assert OwnerOk(h, s, f'); }
    forall y ensures BlockOk(s', y) { PopBlocks(h, s, a, y); }
  }

  /** A change to one descriptor that keeps its next field leaves lists, homes and pages alone. */
  lemma DescChangeLists(h: Heap, h': Heap, s: Shape, s': Shape, a: int)
    requires Inv(h, s) && a in h.desc && h'.desc.Keys == h.desc.Keys && h'.desc[a].next == h.desc[a].next
    requires forall c :: c in h.desc && c != a ==> h'.desc[c] == h.desc[c]
    requires h'.heads == h.heads && h'.freeDesc == h.freeDesc && h'.pages == h.pages
    requires s'.lists == s.lists && s'.home == s.home && s'.descPages == s.descPages && s'.owner == s.owner
    ensures |h'.desc| == |h.desc|
    ensures forall b :: 0 <= b <= BUCKETS ==> ListOk(h', s', b)
    ensures forall c :: c in s'.home ==> HomeOk(h', s', c)
    ensures forall g :: g in s'.descPages ==> DescPageOk(h', s', g)
  {
    assert |h'.desc.Keys| == |h.desc.Keys|;
    forall b | 0 <= b <= BUCKETS ensures ListOk(h', s', b) {
      assert ListOk(h, s, b);
      LinkedFrame(h.desc, h'.desc, Head(h, b), s.lists[b]);
    }
    forall c | c in s'.home ensures HomeOk(h', s', c) { assert HomeOk(h, s, c); }
    forall g | g in s'.descPages ensures DescPageOk(h', s', g) { assert DescPageOk(h, s, g); }
  }

  /** Block x becomes the head of its page's free list: its first word links to the old head. */
  function Pushed(h: Heap, a: int, x: int): Heap
    requires a in h.desc && 0 <= FrameAt(x) < |h.ram| && h.desc[a].refcnt > 0 && 0 <= h.desc[a].freeptr < 0x1_0000_0000
  {
    var d, f, w := h.desc[a], FrameAt(x), WordAt(x);
    h.(ram := if w < 1024 then h.ram[f := h.ram[f][w := d.freeptr]] else h.ram,
       desc := h.desc[a := d.(freeptr := x, refcnt := d.refcnt - 1)])
  }

  lemma FreeptrIsWord(h: Heap, s: Shape, a: int)
    requires Inv(h, s) && a in s.home && s.home[a] < BUCKETS
    ensures 0 <= h.desc[a].freeptr < 0x1_0000_0000
  {
    assert BucketOk(h, s, a);
    if s.free[a] != [] { AddrParts(FrameAt(h.desc[a].page), s.free[a][0]); }
  }

  /** The descriptor that owns a live block, and why its count is positive. */
  lemma BlockOwner(h: Heap, s: Shape, x: int)
    requires Inv(h, s) && x in s.blocks
    ensures FrameAt(x) in s.owner && 0 <= FrameAt(x) < |h.ram|
    ensures var a := s.owner[FrameAt(x)];
      && a in s.home && a in h.desc && s.home[a] < BUCKETS && BucketOk(h, s, a) && a in s.free
      && h.desc[a].page == x - x % 4096 && FrameAt(h.desc[a].page) == FrameAt(x)
      && x == Addr(FrameAt(x), WordAt(x)) && IsSlot(s.home[a], WordAt(x)) && WordAt(x) !in s.free[a]
      && s.blocks[x] == Size(s.home[a]) && h.desc[a].refcnt > 0
  {
    assert BlockOk(s, x);
    var f, w := FrameAt(x), WordAt(x);
    assert OwnerOk(h, s, f);
    var a := s.owner[f];
    assert BucketOk(h, s, a);
    AddrParts(f, w);
    NotAllFree(s.home[a], s.free[a], w);
  }

  /** Distinct block starts of a bucket number at most PerPage, fewer if one is missing. */
  lemma NotAllFree(b: nat, ws: seq<nat>, w: nat)
    requires NoDup(ws) && (forall v :: v in ws ==> IsSlot(b, v)) && IsSlot(b, w) && w !in ws
    ensures |ws| < PerPage(b)
  {
    AllSlots(b);
    DistinctBound(ws, SlotsFrom(b, 0), w);
  }

  lemma AllSlots(b: nat)
    ensures forall v :: v in SlotsFrom(b, 0) <==> IsSlot(b, v)
    ensures NoDup(SlotsFrom(b, 0)) && |SlotsFrom(b, 0)| == PerPage(b)
  {
    SlotZero(b);
    SlotsFromAre(b, 0);
    PerPageIs(b);
  }

  lemma SlotZero(b: nat)
    ensures IsSlot(b, 0)
  {
    match b case 0 => case 1 => case 2 => case 3 => case 4 => case 5 => case 6 => case 7 => case _ =>
  }

  lemma DistinctBound(ws: seq<nat>, all: seq<nat>, w: nat)
    requires NoDup(ws) && NoDup(all) && (forall v :: v in ws ==> v in all) && w in all && w !in ws
    ensures |ws| < |all|
  {
    NoDupSet(ws);
    NoDupSet(all);
    assert w in SetOf(all);
    assert |SetOf(all) - {w}| == |SetOf(all)| - 1;
    assert SetOf(ws) <= SetOf(all) - {w};
    SubsetSize(SetOf(ws), SetOf(all) - {w});
  }

  ghost function PushedShape(s: Shape, a: int, x: int): Shape
    requires a in s.free
  {
    s.(free := s.free[a := [WordAt(x)] + s.free[a]], blocks := s.blocks - {x})
  }

  lemma PushBlocks(h: Heap, s: Shape, x: int, y: int)
    requires Inv(h, s) && x in s.blocks && BlockStart(s, x)
    ensures BlockOk(PushedShape(s, s.owner[FrameAt(x)], x), y)
  {
    var a := s.owner[FrameAt(x)];
    var ws := s.free[a];
    assert BlockOk(s, x) && BlockOk(s, y);
    if BlockStart(s, y) && s.owner[FrameAt(y)] == a {
      assert OwnerOk(h, s, FrameAt(y)) && OwnerOk(h, s, FrameAt(x));
      assert WordAt(y) in [WordAt(x)] + ws <==> WordAt(y) == WordAt(x) || WordAt(y) in ws;
    }
  }

  /** The new head of the free list. */
  lemma PushBucket(h: Heap, s: Shape, x: int)
    requires Inv(h, s) && x in s.blocks && BlockStart(s, x) && 0 <= FrameAt(x) < |h.ram|
    requires var a := s.owner[FrameAt(x)];
      a in h.desc && BucketOk(h, s, a) && h.desc[a].refcnt > 0 && 0 <= h.desc[a].freeptr < 0x1_0000_0000
      && FrameAt(h.desc[a].page) == FrameAt(x) && WordAt(x) !in s.free[a]
    ensures var a := s.owner[FrameAt(x)]; BucketOk(Pushed(h, a, x), PushedShape(s, a, x), a)
  {
    var a, f, w := s.owner[FrameAt(x)], FrameAt(x), WordAt(x);
    var h', ws := Pushed(h, a, x), s.free[a];
    ThreadsFrame(h.ram[f], h'.ram[f], f, h.desc[a].freeptr, ws);
    assert ([w] + ws)[1..] == ws;
    assert Threads(h'.ram[f], f, x, [w] + ws);
  }

  /** Returning live block x to the descriptor of its page. */
  lemma PushInv(h: Heap, s: Shape, x: int)
    requires Inv(h, s) && x in s.blocks
    ensures BlockStart(s, x) && 0 <= FrameAt(x) < |h.ram|
    ensures var a := s.owner[FrameAt(x)];
      && a in h.desc && h.desc[a].refcnt > 0 && 0 <= h.desc[a].freeptr < 0x1_0000_0000
      && Inv(Pushed(h, a, x), PushedShape(s, a, x))
  {
    assert BlockOk(s, x);
    BlockOwner(h, s, x);
    var a := s.owner[FrameAt(x)];
    FreeptrIsWord(h, s, a);
    var h', s' := Pushed(h, a, x), PushedShape(s, a, x);
    DescChangeLists(h, h', s, s', a);
    forall c | c in s'.home && s'.home[c] < BUCKETS ensures BucketOk(h', s', c) {
      assert BucketOk(h, s, c);
      if c != a { OtherBuckets(h, h', s, s', a, c); } else { PushBucket(h, s, x); }
    }
    forall f' | f' in s'.owner ensures OwnerOk(h', s', f') { assert OwnerOk(h, s, f'); }
    forall y ensures BlockOk(s', y) { PushBlocks(h, s, x, y); }
  }
}
