/** Physical frames and the frame allocator (mm/page.c). */
module Frames {
  import opened Words

  const FRAME_SIZE := 4096
  const FRAME_WORDS := 1024
  const MAX_FRAMES := 0x10_0000   // 4 GB / FRAME_SIZE
  const PAGE_OFFSET := 0xC000_0000
  const KERNEL_DIR := 511         // PAGE_DIR_BASE >> PAGE_SHIFT

  type Word = Word32
  type Frame = f: seq<Word> | |f| == 1024 witness seq(1024, _ => 0)

  function ZeroFrame(): (z: Frame)
    ensures forall w :: 0 <= w < FRAME_WORDS ==> z[w] == 0
  {
    seq(FRAME_WORDS, _ => 0)
  }

  const MP_USE: bv32 := 1
  const MP_COW: bv32 := 2

  /** One `mem_map` entry. */
  datatype Page = Page(count: Word, flags: bv32) {
    predicate Used() {
      flags & MP_USE != 0
    }

    predicate Cow() {
      flags & MP_COW != 0
    }

    /** The record of a frame now in use. */
    function MarkUsed(): (p: Page)
      ensures p.Used() && p.count == count && p.Cow() == Cow()
    {
      this.(flags := flags | MP_USE)
    }

    /** The record of a frame shared for copying on write. */
    function MarkCow(): (p: Page)
      ensures p.Used() == Used() && p.count == count && p.Cow()
    {
      this.(flags := flags | MP_COW)
    }

    /** One reference more, on an unsigned 32-bit counter. */
    function Inc(): Page {
      this.(count := (count + 1) % 0x1_0000_0000)
    }

    /** One reference less, on an unsigned 32-bit counter. */
    function Dec(): Page {
      this.(count := (count + 0xFFFF_FFFF) % 0x1_0000_0000)
    }
  }

  /** The frame the linear scan stops at: the lowest unused one, or |pages|. */
  function FirstFree(pages: seq<Page>, from: nat): (i: nat)
    requires from <= |pages|
    ensures from <= i <= |pages|
    ensures forall k :: from <= k < i ==> pages[k].Used()
    ensures i < |pages| ==> !pages[i].Used()
    decreases |pages| - from
  {
    if from < |pages| && pages[from].Used() then FirstFree(pages, from + 1) else from
  }

  predicate HasFree(pages: seq<Page>) {
    FirstFree(pages, 0) < |pages|
  }

  ghost function Unused(pages: seq<Page>): set<nat> {
    set f: nat | f < |pages| && !pages[f].Used()
  }

  function Taken(pages: seq<Page>, f: nat): seq<Page>
    requires f < |pages|
  {
    pages[f := Page(1, pages[f].MarkUsed().flags)]
  }

  /** free_page stores ~MP_USE, i.e. every flag except MP_USE. */
  function Released(pages: seq<Page>, f: nat): seq<Page>
    requires f < |pages|
  {
    pages[f := Page(pages[f].Dec().count, !MP_USE)]
  }

  /** The kernel's view of physical memory: `mem_map` and the frames it describes. */
  class Machine {
    const memMap: array<Page>
    const ram: array<Frame>

    constructor (memMap: array<Page>, ram: array<Frame>)
      ensures this.memMap == memMap && this.ram == ram
    {
      this.memMap := memMap;
      this.ram := ram;
    }

    /** mem_map describes every frame, within the 4 GB an address can name. */
    predicate Valid() {
      memMap.Length == ram.Length <= MAX_FRAMES
    }

    /** Returns the physical address of a zeroed frame; None is the panic. */
    method GetFreePage() returns (addr: int, ok: bool)
      requires Valid()
      modifies memMap, ram
      ensures ok == HasFree(old(memMap[..]))
      ensures !ok ==> memMap[..] == old(memMap[..]) && ram[..] == old(ram[..])
      ensures ok ==>
        var f := FirstFree(old(memMap[..]), 0);
        && addr == f * FRAME_SIZE
        && memMap[..] == Taken(old(memMap[..]), f)
        && ram[..] == old(ram[..])[f := ZeroFrame()]
    {
      for i := 0 to memMap.Length
        invariant memMap[..] == old(memMap[..]) && ram[..] == old(ram[..])
        invariant FirstFree(memMap[..], 0) == FirstFree(memMap[..], i)
      {
        if !memMap[i].Used() {
          memMap[i] := memMap[i].MarkUsed();
          memMap[i] := memMap[i].(count := 1);
          ram[i] := ZeroFrame();
          return i * FRAME_SIZE, true;
        }
      }
      return -1, false;
    }

    method FreePage(addr: int)
      requires Valid() && 0 <= addr && addr / FRAME_SIZE < memMap.Length
      modifies memMap
      ensures memMap[..] == Released(old(memMap[..]), addr / FRAME_SIZE)
    {
      var f := addr / FRAME_SIZE;
      memMap[f] := memMap[f].(flags := !MP_USE);
      memMap[f] := memMap[f].Dec();
    }
  }

  /** An allocation marks one frame that was unmarked and nothing else. */
  lemma TakenIsFresh(pages: seq<Page>)
    requires HasFree(pages)
    ensures var f := FirstFree(pages, 0); var p := Taken(pages, f);
      && !pages[f].Used() && p[f].Used() && p[f].count == 1
      && |p| == |pages| && forall g :: 0 <= g < |pages| && g != f ==> p[g] == pages[g]
  {
  }

  /** The allocator can serve exactly while an unused frame is left, and then uses up one. */
  lemma TakenUsesUp(pages: seq<Page>)
    ensures HasFree(pages) <==> Unused(pages) != {}
    ensures HasFree(pages) ==> |Unused(Taken(pages, FirstFree(pages, 0)))| == |Unused(pages)| - 1
  {
    var f := FirstFree(pages, 0);
    if f < |pages| {
      assert f in Unused(pages);
      assert Unused(Taken(pages, f)) == Unused(pages) - {f};
    }
  }

  /** Giving back the frame just taken: it is unused again with count 0, and no other record
      changed on the way. */
  lemma ReleaseUndoesTake(pages: seq<Page>)
    requires HasFree(pages)
    ensures var f := FirstFree(pages, 0); var p := Released(Taken(pages, f), f);
      && |p| == |pages| && !p[f].Used() && p[f].count == 0 && FirstFree(p, 0) == f
      && forall g :: 0 <= g < |pages| && g != f ==> p[g] == pages[g]
  {
    var f := FirstFree(pages, 0);
    var p := Released(Taken(pages, f), f);
    assert !MP_USE & MP_USE == 0;
    assert forall g :: 0 <= g < f ==> p[g].Used();
  }
}
