/** Pages entering and leaving the allocator, and stores by the owners of live blocks. */
module BucketPages {
  import opened Frames
  import opened BucketHeap
  import opened BucketSteps
  import opened Sets

  // ----- giving an empty bucket page back

  /** The tail of kfree once refcnt has reached 0; prev is 0 for the head of the chain. */
  function Unlinked(h: Heap, b: nat, prev: int, a: int): Heap
    requires b < |h.heads| && a in h.desc && 0 <= FrameAt(h.desc[a].page) < |h.pages| && (prev != 0 ==> prev in h.desc)
  {
    var next := h.desc[a].next;
    var desc1 := if prev != 0 then h.desc[prev := h.desc[prev].(next := next)] else h.desc;
    h.(heads := if prev == 0 then h.heads[b := next] else h.heads,
       desc := desc1[a := desc1[a].(next := h.freeDesc)],
       freeDesc := a,
       pages := Released(h.pages, FrameAt(h.desc[a].page)))
  }

  ghost function UnlinkedShape(s: Shape, b: nat, k: nat, f: nat): Shape
    requires b < BUCKETS && |s.lists| == BUCKETS + 1 && k < |s.lists[b]|
  {
    var a := s.lists[b][k];
    s.(lists := s.lists[b := Without(s.lists[b], k)][SPARE := [a] + s.lists[SPARE]],
       home := s.home[a := SPARE],
       owner := s.owner - {f})
  }

  /** a is the k-th descriptor of bucket b, prev the one before, and a has no live block. */
  ghost predicate IdleAt(h: Heap, s: Shape, b: nat, k: nat, prev: int, a: int) {
    && b < BUCKETS && b < |h.heads| && |s.lists| == BUCKETS + 1 && k < |s.lists[b]| && s.lists[b][k] == a
    && prev == (if k == 0 then 0 else s.lists[b][k - 1])
    && a in h.desc && h.desc[a].refcnt == 0 && (prev != 0 ==> prev in h.desc)
    && 0 <= FrameAt(h.desc[a].page) < |h.pages|
  }

  ghost predicate EmptyAt(h: Heap, s: Shape, b: nat, k: nat, prev: int, a: int) {
    Inv(h, s) && IdleAt(h, s, b, k, prev, a)
  }

  lemma UnlinkHomes(h: Heap, s: Shape, b: nat, k: nat, prev: int, a: int)
    requires EmptyAt(h, s, b, k, prev, a)
    ensures a in s.home && s.home[a] == b && a != prev && a != 0 && (prev != 0 ==> prev in s.home && s.home[prev] == b)
  {
    assert ListOk(h, s, b);
    assert s.lists[b][k] in s.lists[b];
    OnOneList(h, s, a, b);
    assert HomeOk(h, s, a);
    if k > 0 {
      assert s.lists[b][k - 1] in s.lists[b];
      OnOneList(h, s, prev, b);
    }
  }

  lemma UnlinkNexts(h: Heap, s: Shape, b: nat, k: nat, prev: int, a: int)
    requires EmptyAt(h, s, b, k, prev, a)
    ensures var h' := Unlinked(h, b, prev, a);
      && a in s.home && s.home[a] == b && a != prev && (prev != 0 ==> prev in s.home && s.home[prev] == b)
      && h'.desc.Keys == h.desc.Keys && h'.desc[a].next == h.freeDesc
      && (prev != 0 ==> h'.desc[prev].next == h.desc[a].next)
      && (forall x :: x in h.desc && x != a && x != prev ==> h'.desc[x] == h.desc[x])
  {
    UnlinkHomes(h, s, b, k, prev, a);
  }

  lemma UnlinkOwnLinks(h: Heap, s: Shape, b: nat, k: nat, prev: int, a: int)
    requires EmptyAt(h, s, b, k, prev, a)
    ensures var h' := Unlinked(h, b, prev, a); Linked(h'.desc, Head(h', b), Without(s.lists[b], k))
  {
    var h', l := Unlinked(h, b, prev, a), s.lists[b];
    assert ListOk(h, s, b);
    UnlinkNexts(h, s, b, k, prev, a);
    assert k > 0 ==> LinkAt(h.desc, l, k - 1);
    forall i | 0 <= i < |l| && i != k && i != k - 1 ensures l[i] in h'.desc && h'.desc[l[i]].next == h.desc[l[i]].next {
      assert LinkAt(h.desc, l, i);
      assert l[i] != l[k] && (k > 0 ==> l[i] != l[k - 1]);
    }
    LinkedRemove(h.desc, h'.desc, Head(h, b), Head(h', b), l, k);
  }

  lemma UnlinkOwnList(h: Heap, s: Shape, b: nat, k: nat, prev: int, a: int)
    requires EmptyAt(h, s, b, k, prev, a)
    ensures ListOk(Unlinked(h, b, prev, a), UnlinkedShape(s, b, k, FrameAt(h.desc[a].page)), b)
  {
    var s', l := UnlinkedShape(s, b, k, FrameAt(h.desc[a].page)), s.lists[b];
    UnlinkOwnLinks(h, s, b, k, prev, a);
    assert ListOk(h, s, b);
    WithoutMembers(l, k);
    assert s'.lists[b] == Without(l, k);
    forall i | 0 <= i < |Without(l, k)| ensures Without(l, k)[i] in s'.home && s'.home[Without(l, k)[i]] == b {
      assert Without(l, k)[i] in Without(l, k);
      OnOneList(h, s, Without(l, k)[i], b);
    }
  }

  lemma UnlinkSpareList(h: Heap, s: Shape, b: nat, k: nat, prev: int, a: int)
    requires EmptyAt(h, s, b, k, prev, a)
    ensures ListOk(Unlinked(h, b, prev, a), UnlinkedShape(s, b, k, FrameAt(h.desc[a].page)), SPARE)
  {
    var h' := Unlinked(h, b, prev, a);
    assert ListOk(h, s, SPARE) && HomeOk(h, s, a);
    UnlinkNexts(h, s, b, k, prev, a);
    forall x | x in s.lists[SPARE] ensures x != a && x != prev { OnOneList(h, s, x, SPARE); }
    LinkedFrame(h.desc, h'.desc, h.freeDesc, s.lists[SPARE]);
    LinkedCons(h'.desc, h.freeDesc, s.lists[SPARE], a);
  }

  lemma UnlinkList(h: Heap, s: Shape, b: nat, k: nat, prev: int, a: int, c: nat)
    requires EmptyAt(h, s, b, k, prev, a) && c <= BUCKETS
    ensures ListOk(Unlinked(h, b, prev, a), UnlinkedShape(s, b, k, FrameAt(h.desc[a].page)), c)
  {
    if c == b {
      UnlinkOwnList(h, s, b, k, prev, a);
    } else if c == SPARE {
      UnlinkSpareList(h, s, b, k, prev, a);
    } else {
      assert ListOk(h, s, c);
      UnlinkNexts(h, s, b, k, prev, a);
      forall x | x in s.lists[c] ensures x != a && x != prev { OnOneList(h, s, x, c); }
      LinkedFrame(h.desc, Unlinked(h, b, prev, a).desc, Head(h, c), s.lists[c]);
    }
  }

  lemma UnlinkHome(h: Heap, s: Shape, b: nat, k: nat, prev: int, a: int, c: int)
    requires EmptyAt(h, s, b, k, prev, a) && c in s.home
    ensures HomeOk(Unlinked(h, b, prev, a), UnlinkedShape(s, b, k, FrameAt(h.desc[a].page)), c)
  {
    assert HomeOk(h, s, c);
    OnOneList(h, s, a, b);
    assert ListOk(h, s, b);
    WithoutMembers(s.lists[b], k);
  }

  /** No block of the page is live. */
  lemma EmptyPageHasNoBlocks(h: Heap, s: Shape, b: nat, k: nat, prev: int, a: int, x: int)
    requires EmptyAt(h, s, b, k, prev, a) && FrameAt(x) == FrameAt(h.desc[a].page)
    ensures x !in s.blocks
  {
    OnOneList(h, s, a, b);
    assert BucketOk(h, s, a);
    assert BlockOk(s, x);
    if x in s.blocks {
      BlockOwner(h, s, x);
    }
  }

  lemma UnlinkBlocks(h: Heap, s: Shape, b: nat, k: nat, prev: int, a: int, x: int)
    requires EmptyAt(h, s, b, k, prev, a)
    ensures BlockOk(UnlinkedShape(s, b, k, FrameAt(h.desc[a].page)), x)
  {
    assert BlockOk(s, x);
    if FrameAt(x) == FrameAt(h.desc[a].page) {
      EmptyPageHasNoBlocks(h, s, b, k, prev, a, x);
    } else if FrameAt(x) >= 0 && FrameAt(x) in s.owner {
      assert OwnerOk(h, s, FrameAt(x));
    }
  }

  lemma UnlinkBuckets(h: Heap, s: Shape, b: nat, k: nat, prev: int, a: int, c: int)
    requires EmptyAt(h, s, b, k, prev, a) && c in s.home && s.home[c] < BUCKETS && c != a
    ensures c in Unlinked(h, b, prev, a).desc
    ensures BucketOk(Unlinked(h, b, prev, a), UnlinkedShape(s, b, k, FrameAt(h.desc[a].page)), c)
  {
    UnlinkNexts(h, s, b, k, prev, a);
    assert BucketOk(h, s, a);
    assert BucketOk(h, s, c);
  }

  lemma UnlinkPages(h: Heap, s: Shape, b: nat, k: nat, prev: int, a: int)
    requires EmptyAt(h, s, b, k, prev, a)
    ensures var h', s' := Unlinked(h, b, prev, a), UnlinkedShape(s, b, k, FrameAt(h.desc[a].page));
      && (forall g :: g in s'.descPages ==> DescPageOk(h', s', g))
      && (forall g :: g in s'.owner ==> OwnerOk(h', s', g))
  {
    var h', s' := Unlinked(h, b, prev, a), UnlinkedShape(s, b, k, FrameAt(h.desc[a].page));
    UnlinkNexts(h, s, b, k, prev, a);
    assert BucketOk(h, s, a);
    forall g | g in s'.descPages ensures DescPageOk(h', s', g) { assert DescPageOk(h, s, g); }
    forall g | g in s'.owner ensures OwnerOk(h', s', g) { assert OwnerOk(h, s, g); }
  }

  lemma UnlinkInv(h: Heap, s: Shape, b: nat, k: nat, prev: int, a: int)
    requires EmptyAt(h, s, b, k, prev, a)
    ensures Inv(Unlinked(h, b, prev, a), UnlinkedShape(s, b, k, FrameAt(h.desc[a].page)))
  {
    var h', s' := Unlinked(h, b, prev, a), UnlinkedShape(s, b, k, FrameAt(h.desc[a].page));
    UnlinkNexts(h, s, b, k, prev, a);
    assert |h'.desc.Keys| == |h.desc.Keys|;
    assert s'.home.Keys == s.home.Keys;
    forall c | 0 <= c <= BUCKETS ensures ListOk(h', s', c) { UnlinkList(h, s, b, k, prev, a, c); }
    forall c | c in s'.home ensures HomeOk(h', s', c) { UnlinkHome(h, s, b, k, prev, a, c); }
    forall c | c in s'.home && s'.home[c] < BUCKETS ensures BucketOk(h', s', c) { UnlinkBuckets(h, s, b, k, prev, a, c); }
    UnlinkPages(h, s, b, k, prev, a);
    forall x ensures BlockOk(s', x) { UnlinkBlocks(h, s, b, k, prev, a, x); }
  }

  // ----- a fresh page for a bucket

  /** The spare descriptor takes charge of frame f, all of whose blocks are free. */
  function Stocked(h: Heap, b: nat, f: nat, page: Frame): Heap
    requires b < |h.heads| && h.freeDesc in h.desc && f < |h.ram| && f < |h.pages|
  {
    var a := h.freeDesc;
    h.(ram := h.ram[f := page], pages := Taken(h.pages, f),
       heads := h.heads[b := a], freeDesc := h.desc[a].next,
       desc := h.desc[a := Desc(Addr(f, 0), h.heads[b], Addr(f, 0), 0, Size(b))])
  }

  ghost function StockedShape(s: Shape, b: nat, f: nat): Shape
    requires b < BUCKETS && |s.lists| == BUCKETS + 1 && s.lists[SPARE] != []
  {
    var a := s.lists[SPARE][0];
    s.(lists := s.lists[SPARE := s.lists[SPARE][1..]][b := [a] + s.lists[b]],
       home := s.home[a := b], free := s.free[a := SlotsFrom(b, 0)], owner := s.owner[f := a])
  }

  /** The first spare descriptor and frame f are free for bucket b, and page chains the blocks. */
  ghost predicate StockAt(h: Heap, s: Shape, b: nat, f: nat, page: Frame) {
    && b < BUCKETS && |h.heads| == BUCKETS && |s.lists| == BUCKETS + 1
    && s.lists[SPARE] != [] && h.freeDesc == s.lists[SPARE][0] && h.freeDesc in h.desc
    && f < |h.ram| && f < |h.pages| && !h.pages[f].Used() && Threads(page, f, Addr(f, 0), SlotsFrom(b, 0))
  }

  ghost predicate CanStock(h: Heap, s: Shape, b: nat, f: nat, page: Frame) {
    Inv(h, s) && StockAt(h, s, b, f, page)
  }

  lemma StockList(h: Heap, s: Shape, b: nat, f: nat, page: Frame, c: nat)
    requires CanStock(h, s, b, f, page) && c <= BUCKETS
    ensures ListOk(Stocked(h, b, f, page), StockedShape(s, b, f), c)
  {
    var h', s', a := Stocked(h, b, f, page), StockedShape(s, b, f), h.freeDesc;
    assert ListOk(h, s, c) && ListOk(h, s, SPARE) && ListOk(h, s, b);
    assert LinkAt(h.desc, s.lists[SPARE], 0);
    OnOneList(h, s, a, SPARE);
    if c == SPARE {
      LinkedTail(h.desc, a, s.lists[SPARE]);
      var l := s.lists[SPARE][1..];
      assert forall x :: x in l ==> x != a;
      LinkedFrame(h.desc, h'.desc, h.desc[a].next, l);
    } else {
      forall x | x in s.lists[c] ensures x != a { OnOneList(h, s, x, c); }
      LinkedFrame(h.desc, h'.desc, Head(h, c), s.lists[c]);
      if c == b { LinkedCons(h'.desc, h.heads[b], s.lists[b], a); }
    }
  }

  lemma StockHome(h: Heap, s: Shape, b: nat, f: nat, page: Frame, c: int)
    requires CanStock(h, s, b, f, page) && c in s.home
    ensures HomeOk(Stocked(h, b, f, page), StockedShape(s, b, f), c)
  {
    assert HomeOk(h, s, c);
    OnOneList(h, s, h.freeDesc, SPARE);
    if c != h.freeDesc && s.home[c] == SPARE {
      assert s.lists[SPARE] == [h.freeDesc] + s.lists[SPARE][1..];
    }
  }

  lemma HeldFrameUsed(h: Heap, s: Shape, f: nat)
    requires Inv(h, s) && (f in s.owner || f in s.descPages)
    ensures f < |h.pages| && h.pages[f].Used()
  {
    if f in s.descPages {
      assert DescPageOk(h, s, f);
    } else {
      assert OwnerOk(h, s, f);
      assert BucketOk(h, s, s.owner[f]);
    }
  }

  lemma FreshFrame(h: Heap, s: Shape, f: nat)
    requires Inv(h, s) && f < |h.pages| && !h.pages[f].Used()
    ensures f !in s.owner && f !in s.descPages
  {
    if f in s.owner || f in s.descPages { HeldFrameUsed(h, s, f); }
  }

  lemma StockBuckets(h: Heap, s: Shape, b: nat, f: nat, page: Frame, c: int)
    requires CanStock(h, s, b, f, page) && c in s.home && (c == h.freeDesc || s.home[c] < BUCKETS)
    ensures c in Stocked(h, b, f, page).desc && BucketOk(Stocked(h, b, f, page), StockedShape(s, b, f), c)
  {
    FreshFrame(h, s, f);
    OnOneList(h, s, h.freeDesc, SPARE);
    if c == h.freeDesc {
      AddrParts(f, 0);
      AllSlots(b);
    } else {
      assert BucketOk(h, s, c);
    }
  }

  lemma StockBlocks(h: Heap, s: Shape, b: nat, f: nat, page: Frame, x: int)
    requires CanStock(h, s, b, f, page)
    ensures BlockOk(StockedShape(s, b, f), x)
  {
    FreshFrame(h, s, f);
    OnOneList(h, s, h.freeDesc, SPARE);
    assert BlockOk(s, x);
    if FrameAt(x) == f {
      AllSlots(b);
    } else if FrameAt(x) >= 0 && FrameAt(x) in s.owner {
      assert OwnerOk(h, s, FrameAt(x));
    }
  }

  lemma StockPages(h: Heap, s: Shape, b: nat, f: nat, page: Frame)
    requires CanStock(h, s, b, f, page)
    ensures var h', s' := Stocked(h, b, f, page), StockedShape(s, b, f);
      && (forall g :: g in s'.descPages ==> DescPageOk(h', s', g))
      && (forall g :: g in s'.owner ==> OwnerOk(h', s', g))
  {
    var h', s' := Stocked(h, b, f, page), StockedShape(s, b, f);
    FreshFrame(h, s, f);
    OnOneList(h, s, h.freeDesc, SPARE);
    AddrParts(f, 0);
    forall g | g in s'.descPages ensures DescPageOk(h', s', g) { assert DescPageOk(h, s, g); }
    forall g | g in s'.owner ensures OwnerOk(h', s', g) {
      if g != f { assert OwnerOk(h, s, g); }
    }
  }

  lemma StockInv(h: Heap, s: Shape, b: nat, f: nat, page: Frame)
    requires CanStock(h, s, b, f, page)
    ensures Inv(Stocked(h, b, f, page), StockedShape(s, b, f))
  {
    var h', s' := Stocked(h, b, f, page), StockedShape(s, b, f);
    OnOneList(h, s, h.freeDesc, SPARE);
    assert h'.desc.Keys == h.desc.Keys && s'.home.Keys == s.home.Keys;
    assert |h'.desc.Keys| == |h.desc.Keys|;
    forall c | 0 <= c <= BUCKETS ensures ListOk(h', s', c) { StockList(h, s, b, f, page, c); }
    forall c | c in s'.home ensures HomeOk(h', s', c) { StockHome(h, s, b, f, page, c); }
    forall c | c in s'.home && s'.home[c] < BUCKETS ensures BucketOk(h', s', c) { StockBuckets(h, s, b, f, page, c); }
    StockPages(h, s, b, f, page);
    forall x ensures BlockOk(s', x) { StockBlocks(h, s, b, f, page, x); }
  }

  // ----- a fresh page of descriptors

  function DescAt(g: nat, k: nat): int {
    Addr(g, 0) + 16 * k
  }

  /** The 256 descriptor addresses of frame g. */
  function DescsOf(g: nat): seq<int> {
    seq(DESCS_PER_PAGE, k requires 0 <= k => DescAt(g, k))
  }

  lemma DescsOfPage(g: nat, k: nat)
    requires k < DESCS_PER_PAGE
    ensures DescsOf(g)[k] == DescAt(g, k) > 0 && FrameAt(DescAt(g, k)) == g
  {
  }

  /** a is one of the first n descriptor addresses of frame g. */
  predicate IsDescOf(g: nat, n: nat, a: int) {
    Addr(g, 0) <= a < DescAt(g, n) && (a - Addr(g, 0)) % 16 == 0
  }

  /** d is d0 with the first n descriptors of frame g, the last of them leading to `tail`. */
  ghost predicate DescsAdded(d0: map<int, Desc>, d: map<int, Desc>, g: nat, n: nat, tail: int) {
    && |d| == |d0| + n
    && (forall a :: a in d <==> a in d0 || IsDescOf(g, n, a))
    && (forall a :: a in d0 ==> a in d && d[a] == d0[a])
    && (forall k :: 0 <= k < n ==> NextAt(d, g, n, tail, k))
  }

  /** Descriptor k of frame g leads to descriptor k + 1, or to `tail` if it is the last of n. */
  ghost predicate NextAt(d: map<int, Desc>, g: nat, n: nat, tail: int, k: nat) {
    DescAt(g, k) in d && d[DescAt(g, k)].next == if k + 1 < n then DescAt(g, k + 1) else tail
  }

  lemma IsDescNext(g: nat, n: nat, c: int)
    ensures IsDescOf(g, n + 1, c) <==> IsDescOf(g, n, c) || c == DescAt(g, n)
  {
  }

  lemma AddNexts(d: map<int, Desc>, d': map<int, Desc>, g: nat, n: nat, n': nat, tail: int)
    requires n' == n + 1
    requires forall k :: 0 <= k < n ==> NextAt(d, g, n, DescAt(g, n), k)
    requires d' == d[DescAt(g, n) := Desc(0, tail, 0, 0, 0)]
    ensures forall k :: 0 <= k < n' ==> NextAt(d', g, n', tail, k)
  {
    forall k | 0 <= k < n' ensures NextAt(d', g, n', tail, k) {
      if k < n { assert NextAt(d, g, n, DescAt(g, n), k); }
    }
  }

  lemma AddKeys(d0: map<int, Desc>, d: map<int, Desc>, g: nat, n: nat, v: Desc)
    requires forall a :: a in d <==> a in d0 || IsDescOf(g, n, a)
    ensures forall c :: c in d[DescAt(g, n) := v] <==> c in d0 || IsDescOf(g, n + 1, c)
  {
    forall c ensures c in d[DescAt(g, n) := v] <==> c in d0 || IsDescOf(g, n + 1, c) { IsDescNext(g, n, c); }
  }

  lemma AddSize(d: map<int, Desc>, a: int, v: Desc)
    requires a !in d
    ensures |d[a := v]| == |d| + 1
  {
    assert d[a := v].Keys == d.Keys + {a};
    assert |d[a := v].Keys| == |d.Keys| + 1;
  }

  lemma NextDescNew(d0: map<int, Desc>, d: map<int, Desc>, g: nat, n: nat)
    requires DescsAdded(d0, d, g, n, DescAt(g, n)) && DescAt(g, n) !in d0
    ensures DescAt(g, n) !in d
  {
    assert !IsDescOf(g, n, DescAt(g, n));
  }

  /** d' has one descriptor more than d. */
  lemma AddDesc(d0: map<int, Desc>, d: map<int, Desc>, d': map<int, Desc>, g: nat, n: nat, n': nat, tail: int)
    requires DescsAdded(d0, d, g, n, DescAt(g, n)) && DescAt(g, n) !in d0
    requires n' == n + 1 && d' == d[DescAt(g, n) := Desc(0, tail, 0, 0, 0)]
    ensures DescsAdded(d0, d', g, n', tail)
  {
    var a, v := DescAt(g, n), Desc(0, tail, 0, 0, 0);
    NextDescNew(d0, d, g, n);
    AddSize(d, a, v);
    AddKeys(d0, d, g, n, v);
    AddNexts(d, d', g, n, n', tail);
  }

  /** The first n iterations of init_bucket_desc's loop. */
  function LinkedFirst(d: map<int, Desc>, g: nat, n: nat): map<int, Desc> {
    if n == 0 then d else LinkedFirst(d, g, n - 1)[DescAt(g, n - 1) := Desc(0, DescAt(g, n), 0, 0, 0)]
  }

  lemma {:induction false} LinkedFirstAdds(d: map<int, Desc>, g: nat, n: nat, e: map<int, Desc>)
    requires n < DESCS_PER_PAGE && (forall a :: a in d ==> FrameAt(a) != g) && e == LinkedFirst(d, g, n)
    ensures DescsAdded(d, e, g, n, DescAt(g, n))
    decreases n
  {
    if n > 0 {
      var e1 := LinkedFirst(d, g, n - 1);
      assert DescsAdded(d, e1, g, n - 1, DescAt(g, n - 1)) by { LinkedFirstAdds(d, g, n - 1, e1); }
      assert DescAt(g, n - 1) !in d by { DescsOfPage(g, n - 1); }
      AddDesc(d, e1, e, g, n - 1, n, DescAt(g, n));
    }
  }

  /** init_bucket_desc's result: h' has frame g's descriptors chained in front of the spares. */
  ghost predicate Refilled(h: Heap, s: Shape, h': Heap, g: nat) {
    && g < |h.pages| && !h.pages[g].Used() && |h'.ram| == |h.ram| && (forall f :: 0 <= f < |h.ram| && f != g ==> h'.ram[f] == h.ram[f])
    && h'.pages == Taken(h.pages, g) && h'.heads == h.heads && h'.freeDesc == Addr(g, 0)
    && DescsAdded(h.desc, h'.desc, g, DESCS_PER_PAGE, h.freeDesc)
  }

  ghost function RefilledShape(s: Shape, g: nat): Shape
    requires |s.lists| == BUCKETS + 1
  {
    s.(lists := s.lists[SPARE := DescsOf(g) + s.lists[SPARE]],
       home := map a | a in s.home.Keys + SetOf(DescsOf(g)) :: if a in s.home then s.home[a] else SPARE,
       descPages := s.descPages + {g})
  }

  lemma RefillSpares(h: Heap, s: Shape, h': Heap, g: nat)
    requires Inv(h, s) && Refilled(h, s, h', g)
    ensures Linked(h'.desc, h'.freeDesc, DescsOf(g) + s.lists[SPARE])
  {
    assert ListOk(h, s, SPARE);
    LinkedFrame(h.desc, h'.desc, h.freeDesc, s.lists[SPARE]);
    var block, l := DescsOf(g), DescsOf(g) + s.lists[SPARE];
    forall k | 0 <= k < |l| ensures LinkAt(h'.desc, l, k) {
      if k < |block| {
        DescsOfPage(g, k);
        assert NextAt(h'.desc, g, DESCS_PER_PAGE, h.freeDesc, k);
        if k + 1 < |block| { DescsOfPage(g, k + 1); }
      } else {
        assert LinkAt(h'.desc, s.lists[SPARE], k - |block|);
      }
    }
  }

  lemma RefilledKeys(h: Heap, s: Shape, h': Heap, g: nat)
    requires Inv(h, s) && Refilled(h, s, h', g)
    ensures h'.desc.Keys == RefilledShape(s, g).home.Keys && |h'.desc| == |h.desc| + DESCS_PER_PAGE
    ensures forall a :: a in h.desc ==> a in h'.desc && h'.desc[a] == h.desc[a]
  {
    forall a ensures a in h'.desc <==> a in RefilledShape(s, g).home { DescsOfMembers(g, a); }
  }

  lemma DescsOfMembers(g: nat, a: int)
    ensures IsDescOf(g, DESCS_PER_PAGE, a) <==> a in DescsOf(g)
  {
    if IsDescOf(g, DESCS_PER_PAGE, a) { assert DescsOf(g)[(a - Addr(g, 0)) / 16] == a; }
    if a in DescsOf(g) {
      var k :| 0 <= k < DESCS_PER_PAGE && DescsOf(g)[k] == a;
      DescsOfPage(g, k);
    }
  }

  lemma NewDescsAreNew(h: Heap, s: Shape, g: nat, k: nat)
    requires Inv(h, s) && g !in s.descPages && k < DESCS_PER_PAGE
    ensures DescsOf(g)[k] !in s.home
  {
    DescsOfPage(g, k);
    forall a | a in s.home ensures FrameAt(a) in s.descPages { assert HomeOk(h, s, a); }
  }

  lemma RefillDistinct(h: Heap, s: Shape, g: nat)
    requires Inv(h, s) && g !in s.descPages
    ensures NoDup(DescsOf(g) + s.lists[SPARE])
  {
    assert ListOk(h, s, SPARE);
    var block, l := DescsOf(g), DescsOf(g) + s.lists[SPARE];
    forall i, j | 0 <= i < j < |l| ensures l[i] != l[j] {
      if i < |block| <= j {
        NewDescsAreNew(h, s, g, i);
        assert l[j] == s.lists[SPARE][j - |block|];
      } else if j < |block| {
        DescsOfPage(g, i);
        DescsOfPage(g, j);
      } else {
        assert l[i] == s.lists[SPARE][i - |block|] && l[j] == s.lists[SPARE][j - |block|];
      }
    }
  }

  lemma RefillList(h: Heap, s: Shape, h': Heap, g: nat, c: nat)
    requires Inv(h, s) && Refilled(h, s, h', g) && g !in s.descPages && c <= BUCKETS
    ensures ListOk(h', RefilledShape(s, g), c)
  {
    var s' := RefilledShape(s, g);
    assert ListOk(h, s, c);
    if c == SPARE {
      RefillSpares(h, s, h', g);
      RefillDistinct(h, s, g);
      var block, l := DescsOf(g), DescsOf(g) + s.lists[SPARE];
      forall k | 0 <= k < |l| ensures l[k] in s'.home && s'.home[l[k]] == SPARE {
        if k < |block| {
          NewDescsAreNew(h, s, g, k);
          assert l[k] in block;
        } else {
          assert s.lists[SPARE][k - |block|] in s.home;
        }
      }
    } else {
      LinkedFrame(h.desc, h'.desc, Head(h, c), s.lists[c]);
    }
  }

  lemma RefillRest(h: Heap, s: Shape, h': Heap, g: nat)
    requires Inv(h, s) && Refilled(h, s, h', g) && g !in s.descPages && g !in s.owner
    ensures var s' := RefilledShape(s, g);
      && (forall p :: p in s'.descPages ==> DescPageOk(h', s', p))
      && (forall a :: a in s'.home && s'.home[a] < BUCKETS ==> a in h'.desc && BucketOk(h', s', a))
      && (forall f :: f in s'.owner ==> OwnerOk(h', s', f))
      && (forall x :: BlockOk(s', x))
  {
    var s' := RefilledShape(s, g);
    forall p | p in s'.descPages ensures DescPageOk(h', s', p) {
      if p != g { assert DescPageOk(h, s, p); }
    }
    forall a | a in s'.home && s'.home[a] < BUCKETS ensures a in h'.desc && BucketOk(h', s', a) {
      assert BucketOk(h, s, a);
    }
    forall f | f in s'.owner ensures OwnerOk(h', s', f) { assert OwnerOk(h, s, f); }
    forall x ensures BlockOk(s', x) {
      assert BlockOk(s, x);
      if FrameAt(x) >= 0 && FrameAt(x) in s.owner { assert OwnerOk(h, s, FrameAt(x)); }
    }
  }

  lemma RefillInv(h: Heap, s: Shape, h': Heap, g: nat)
    requires Inv(h, s) && Refilled(h, s, h', g)
    ensures Inv(h', RefilledShape(s, g))
  {
    var s' := RefilledShape(s, g);
    FreshFrame(h, s, g);
    RefilledKeys(h, s, h', g);
    assert |s'.descPages| == |s.descPages| + 1;
    forall c | 0 <= c <= BUCKETS ensures ListOk(h', s', c) { RefillList(h, s, h', g, c); }
    forall a | a in s'.home ensures HomeOk(h', s', a) {
      if a in s.home {
        assert HomeOk(h, s, a);
      } else {
        var k :| 0 <= k < DESCS_PER_PAGE && DescsOf(g)[k] == a;
        DescsOfPage(g, k);
      }
    }
    RefillRest(h, s, h', g);
  }

  // ----- stores by the owner of a block

  /** Whatever the owner of live block x writes inside it, the allocator's state survives. */
  lemma WriteInv(h: Heap, s: Shape, x: int, w: nat, v: Word)
    requires Inv(h, s) && x in s.blocks && WordAt(x) <= w && 4 * (w - WordAt(x)) < s.blocks[x]
    ensures 0 <= FrameAt(x) < |h.ram| && w < 1024
    ensures Inv(h.(ram := h.ram[FrameAt(x) := h.ram[FrameAt(x)][w := v]]), s)
  {
    BlockOwner(h, s, x);
    var f, a := FrameAt(x), s.owner[FrameAt(x)];
    var b := s.home[a];
    SlotLast(b, WordAt(x));
    var h' := h.(ram := h.ram[f := h.ram[f][w := v]]);
    forall u | u in s.free[a] ensures u != w {
      if WordAt(x) < u { SlotGap(b, WordAt(x), u); }
    }
    ThreadsFrame(h.ram[f], h'.ram[f], f, h.desc[a].freeptr, s.free[a]);
    forall c | 0 <= c <= BUCKETS ensures ListOk(h', s, c) { assert ListOk(h, s, c); }
    forall c | c in s.home ensures HomeOk(h', s, c) { assert HomeOk(h, s, c); }
    forall g | g in s.descPages ensures DescPageOk(h', s, g) { assert DescPageOk(h, s, g); }
    forall c | c in s.home && s.home[c] < BUCKETS ensures BucketOk(h', s, c) { assert BucketOk(h, s, c); }
    forall g | g in s.owner ensures OwnerOk(h', s, g) { assert OwnerOk(h, s, g); }
  }
}
