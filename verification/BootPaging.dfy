/** The kernel map and the first mem_map (arch/i386/init.c, reset_paging). */
module BootPaging {
  import opened Frames
  import Paging
  import CowRuns
  import opened Words
  import opened Wrappers
  import opened Mmu

  const HIGH_MEMORY := 0x3800_0000
  const KERNEL_ATTR := Paging.KERNEL_RW
  const TABLE_FRAME := 512         // PAGE_TABLE_BASE >> PAGE_SHIFT, 0x20_0000 >> 12
  const MEM_MAP_FRAME := 768       // (PAGE_TABLE_BASE + 0x10_0000) >> PAGE_SHIFT
  const MAX_TABLES := 224          // HIGH_MEMORY / 4 MB

  /** C division truncates toward zero. */
  function CDiv(a: int, b: int): int
    requires b > 0
  {
    if a >= 0 then a / b else -((-a) / b)
  }

  /** page_table_count: a signed quotient stored in an unsigned int. */
  function PageTableCount(memSize: Int32): nat {
    if HIGH_MEMORY > memSize then CDiv(memSize + 0x3F_FFFF, 0x40_0000) % 0x1_0000_0000
    else CDiv(HIGH_MEMORY + 0x3F_FFFF, 0x40_0000)
  }

  /** 2 GB or more of RAM makes mem_size negative, and (below the last 8 MB of that range)
      the table count then wraps to a huge number; otherwise at most 224 tables are built. */
  lemma PageTableCountBounded(memSize: Int32)
    ensures PageTableCount(memSize) <= MAX_TABLES <==> -0x7F_FFFF < memSize
    ensures 0 < memSize < HIGH_MEMORY ==>
      var c := PageTableCount(memSize); (c - 1) * 0x40_0000 < memSize <= c * 0x40_0000
  {
    var n := memSize + 0x3F_FFFF;
    if n < 0 {
      assert -((-n) / 0x40_0000) % 0x1_0000_0000 == if n > -0x40_0000 then 0 else 0x1_0000_0000 - (-n) / 0x40_0000;
    }
  }

  // ----- what the loops establish

  /** The first n entries of page table j map its 4 MB in order. */
  ghost predicate TableFilled(ram: seq<Frame>, j: nat, n: nat) {
    TABLE_FRAME + j < |ram| && Ascends(ram[TABLE_FRAME + j], j, n)
  }

  ghost predicate Ascends(table: Frame, j: nat, n: nat) {
    forall i :: 0 <= i < n && i < 1024 ==> table[i] == (1024 * j + i) * 4096 + KERNEL_ATTR
  }

  /** Directory slot 768 + j names page table j. */
  ghost predicate TableLinked(ram: seq<Frame>, j: nat) {
    KERNEL_DIR < |ram| && j < 256 && ram[KERNEL_DIR][768 + j] == (TABLE_FRAME + j) * 4096 + KERNEL_ATTR
  }

  ghost predicate MapBuilt(ram: seq<Frame>, n: nat) {
    forall j :: 0 <= j < n ==> TableFilled(ram, j, 1024) && TableLinked(ram, j)
  }

  /** The first mem_map for c page tables. */
  ghost predicate MemMapBuilt(pages: seq<Page>, c: nat, n: nat) {
    && n <= |pages| == 1024 * c
    && (forall i :: 0 <= i < n && i < 1024 + 2 * c ==> pages[i].Used() && pages[i].count == 1)
    && (forall i :: 0 <= i < n && 1024 + 2 * c <= i ==> pages[i] == Page(0, 0))
  }

  /** `ram` is all the memory the new tables map; mem_map starts as whatever lies at 3 MB. */
  method ResetPaging(ram: array<Frame>, memSize: Int32) returns (memMap: array<Page>)
    requires PageTableCount(memSize) <= MAX_TABLES && ram.Length == 1024 * PageTableCount(memSize)
    modifies ram
    ensures var c := PageTableCount(memSize);
      && MapBuilt(ram[..], c)
      && MemMapBuilt(memMap[..], c, 1024 * c)
    ensures forall f :: 0 <= f < ram.Length && !(KERNEL_DIR <= f < TABLE_FRAME + PageTableCount(memSize))
              ==> ram[f] == old(ram[f])
  {
    var pageTableCount := PageTableCount(memSize);
    var a := 0;
    for j := 0 to pageTableCount
      invariant a == j * 0x40_0000
      invariant MapBuilt(ram[..], j)
      invariant forall f :: 0 <= f < ram.Length && !(KERNEL_DIR <= f < TABLE_FRAME + j) ==> ram[f] == old(ram[f])
    {
      ghost var before := ram[..];
      for i := 0 to 1024
        invariant a == j * 0x40_0000 + i * 4096
        invariant TableFilled(ram[..], j, i)
        invariant forall f :: 0 <= f < ram.Length && f != TABLE_FRAME + j ==> ram[f] == before[f]
      {
        ram[TABLE_FRAME + j] := ram[TABLE_FRAME + j][i := a + KERNEL_ATTR];
        a := a + 4096;
      }
      ram[KERNEL_DIR] := ram[KERNEL_DIR][j + 768 := (TABLE_FRAME + j) * 4096 + KERNEL_ATTR];
      forall k | 0 <= k < j + 1 ensures TableFilled(ram[..], k, 1024) && TableLinked(ram[..], k) {
        assert k < j ==> TableFilled(before, k, 1024) && TableLinked(before, k);
      }
    }
    var memMapSize := 8 * 1024 * pageTableCount / 4096;
    ghost var built := ram[..];
    memMap := new Page[1024 * pageTableCount];
    for i := 0 to memMap.Length
      invariant MemMapBuilt(memMap[..], pageTableCount, i)
      invariant ram[..] == built
      modifies memMap
    {
      if i < 1024 + memMapSize {
        memMap[i] := memMap[i].(count := 1);
        memMap[i] := memMap[i].MarkUsed();
      } else {
        memMap[i] := Page(0, 0);
      }
    }
  }

  // ----- what it means

  /** With the directory words of the kernel half in directory d, every physical address below
      the mapped limit is seen at PAGE_OFFSET + itself, and by the supervisor only. */
  lemma KernelMapSeen(ram: seq<Frame>, d: nat, c: nat, a: nat, acc: Access)
    requires 0 < c <= MAX_TABLES && MapBuilt(ram, c) && a < c * 0x40_0000
    requires forall w :: 768 <= w < 1024 ==> Paging.Peek(ram, d, w) == Paging.Peek(ram, KERNEL_DIR, w)
    ensures PAGE_OFFSET + a < 0x1_0000_0000
    ensures Translate(ram, d, PAGE_OFFSET + a, acc) == if acc.user then None else Some(a)
  {
    var j, i := a / 0x40_0000, a / 4096 % 1024;
    AddressParts(a);
    assert TableLinked(ram, j) && TableFilled(ram, j, 1024);
    var pde, pte := (TABLE_FRAME + j) * 4096 + KERNEL_ATTR, (1024 * j + i) * 4096 + KERNEL_ATTR;
    assert Paging.Peek(ram, d, 768 + j) == pde && Paging.Peek(ram, TABLE_FRAME + j, i) == pte;
    EntryBits(TABLE_FRAME + j, KERNEL_ATTR, pde);
    EntryBits(1024 * j + i, KERNEL_ATTR, pte);
  }

  lemma KernelMapIsLinear(ram: seq<Frame>, c: nat, a: nat, acc: Access)
    requires 0 < c <= MAX_TABLES && MapBuilt(ram, c) && a < c * 0x40_0000
    ensures PAGE_OFFSET + a < 0x1_0000_0000
    ensures Translate(ram, KERNEL_DIR, PAGE_OFFSET + a, acc) == if acc.user then None else Some(a)
  {
    KernelMapSeen(ram, KERNEL_DIR, c, a, acc);
  }

  lemma AddressParts(a: nat)
    requires a < MAX_TABLES * 0x40_0000
    ensures var va := PAGE_OFFSET + a;
      && va < 0x1_0000_0000 && va / 0x40_0000 == 768 + a / 0x40_0000
      && va / 4096 % 1024 == a / 4096 % 1024 && va % 4096 == a % 4096
      && a / 4096 == 1024 * (a / 0x40_0000) + a / 4096 % 1024
  {
  }

  /** The frames the directory, the tables and mem_map occupy. */
  predicate Reserved(f: nat, c: nat) {
    KERNEL_DIR <= f < TABLE_FRAME + c || MEM_MAP_FRAME <= f < MEM_MAP_FRAME + 2 * c
  }

  /** mem_map (8 bytes per frame) ends within its reserved frames, the tables end below it,
      and all of these frames are marked used from the start. */
  lemma ReservedFramesMarked(pages: seq<Page>, c: nat, f: nat)
    requires 0 < c <= MAX_TABLES && MemMapBuilt(pages, c, 1024 * c) && Reserved(f, c)
    ensures TABLE_FRAME + c <= MEM_MAP_FRAME && 8 * |pages| == 2 * c * 4096
    ensures f < |pages| ==> pages[f].Used()
    ensures c > 1 ==> f < |pages|
  {
  }

  /** A run of the allocator: each step takes a frame or gives back one that was taken. */
  datatype Step = Take | Give(f: nat)

  ghost predicate Serves(pages: seq<Page>, held: set<nat>, steps: seq<Step>, given: seq<nat>)
    decreases |steps|
  {
    if steps == [] then given == [] else
      match steps[0]
      case Take =>
        var f := FirstFree(pages, 0);
        f < |pages| && given != [] && given[0] == f && Serves(Taken(pages, f), held + {f}, steps[1..], given[1..])
      case Give(f) =>
        f in held && f < |pages| && Serves(Released(pages, f), held - {f}, steps[1..], given)
  }

  /** No run of get_free_page and free_page ever hands out a frame that was marked used at
      the start and not held. */
  lemma {:induction false} UsedFramesStay(pages: seq<Page>, held: set<nat>, steps: seq<Step>, given: seq<nat>, f: nat)
    requires f < |pages| && pages[f].Used() && f !in held && Serves(pages, held, steps, given)
    ensures f !in given
    decreases |steps|
  {
    if steps != [] {
      match steps[0]
      case Take =>
        var g := FirstFree(pages, 0);
        UsedFramesStay(Taken(pages, g), held + {g}, steps[1..], given[1..], f);
        assert given == [given[0]] + given[1..];
      case Give(g) =>
        UsedFramesStay(Released(pages, g), held - {g}, steps[1..], given, f);
    }
  }

  lemma BootFramesNeverHandedOut(pages: seq<Page>, c: nat, steps: seq<Step>, given: seq<nat>, f: nat)
    requires 0 < c <= MAX_TABLES && MemMapBuilt(pages, c, 1024 * c)
    requires Serves(pages, {}, steps, given) && f in given
    ensures !Reserved(f, c)
  {
    if Reserved(f, c) && f < |pages| {
      ReservedFramesMarked(pages, c, f);
      UsedFramesStay(pages, {}, steps, given, f);
    } else if Reserved(f, c) {
      GivenInRange(pages, {}, steps, given, f);
    }
  }

  lemma {:induction false} GivenInRange(pages: seq<Page>, held: set<nat>, steps: seq<Step>, given: seq<nat>, f: nat)
    requires Serves(pages, held, steps, given) && f in given
    ensures f < |pages|
    decreases |steps|
  {
    if steps != [] {
      match steps[0]
      case Take =>
        var g := FirstFree(pages, 0);
        if f != g { GivenInRange(Taken(pages, g), held + {g}, steps[1..], given[1..], f); }
      case Give(g) => GivenInRange(Released(pages, g), held - {g}, steps[1..], given, f);
    }
  }

  /** mem_map is rounded up to whole 4 MB regions, and ends at HIGH_MEMORY: it offers a frame
      that ends past the end of memory exactly when memory exceeds 4 MB, is below HIGH_MEMORY
      and is not a multiple of 4 MB. */
  lemma FreeFramesAreRam(memSize: Int32, pages: seq<Page>)
    requires PageTableCount(memSize) <= MAX_TABLES
    requires var c := PageTableCount(memSize); MemMapBuilt(pages, c, 1024 * c)
    ensures (exists f :: 0 <= f < |pages| && !pages[f].Used() && (f + 1) * 4096 > memSize)
        <==> 0x40_0000 < memSize < HIGH_MEMORY && memSize % 0x40_0000 != 0
  {
    PageTableCountBounded(memSize);
    var c := PageTableCount(memSize);
    if 0x40_0000 < memSize < HIGH_MEMORY && memSize % 0x40_0000 != 0 {
      var last := 1024 * c - 1;
      assert !pages[last].Used() && (last + 1) * 4096 > memSize;
    }
  }

  /** The state reset_paging leaves is one the paging runs start from. */
  lemma ResetPagingBoots(ram: seq<Frame>, pages: seq<Page>, c: nat)
    requires 0 < c <= MAX_TABLES && MemMapBuilt(pages, c, 1024 * c) && |ram| == 1024 * c
    ensures CowRuns.Booted(Paging.Sys(ram, pages, {}, map[]))
  {
  }
}
