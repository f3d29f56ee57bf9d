/** Copy-on-write address spaces (arch/i386/page.c): the state, its invariant, and the
    operations as functions on the state. */
module Paging {
  import opened Frames
  import opened Wrappers

  const USER_DIRS := 768        // directory slots below PAGE_OFFSET
  const ENTRIES := 1024
  const PG_RWW := 2
  const USER_RW := 7            // PG_P | PG_RWW | PG_USU
  const KERNEL_RW := 3          // PG_P | PG_RWW | PG_USS

  /** RAM and mem_map, with the frames handed out as directories (`dirs`) and as page
      tables.  `owner` records for which directory slot a table was created; a table
      that has since been replaced in that slot keeps its record. */
  datatype Sys = Sys(ram: seq<Frame>, pages: seq<Page>, dirs: set<nat>, owner: map<nat, (nat, nat)>)

  // ----- words of physical memory

  function Peek(ram: seq<Frame>, f: nat, w: nat): Word {
    if f < |ram| && w < 1024 then ram[f][w] else 0
  }

  function Poke(ram: seq<Frame>, f: nat, w: nat, v: Word): (r: seq<Frame>)
    ensures |r| == |ram|
  {
    if f < |ram| && w < 1024 then ram[f := ram[f][w := v]] else ram
  }

  /** The frame number in an entry. */
  function FrameOf(entry: Word): (f: nat)
    ensures f < MAX_FRAMES
  {
    entry / 4096
  }

  /** Bit PG_RWW of an entry. */
  predicate Writable(pte: Word) {
    (pte / 2) % 2 == 1
  }

  /** The entry with its write permission taken away. */
  function Protect(pte: Word): Word {
    if Writable(pte) then pte - PG_RWW else pte
  }

  /** The directory entry and the page-table entry for slot j of directory slot i. */
  function Pde(s: Sys, d: nat, i: nat): Word {
    Peek(s.ram, d, i)
  }

  function Pte(s: Sys, d: nat, i: nat, j: nat): Word {
    if Pde(s, d, i) == 0 then 0 else Peek(s.ram, FrameOf(Pde(s, d, i)), j)
  }

  function PageOf(s: Sys, f: nat): Page {
    if f < |s.pages| then s.pages[f] else Page(0, 0)
  }

  function SetPage(s: Sys, f: nat, p: Page): Sys {
    if f < |s.pages| then s.(pages := s.pages[f := p]) else s
  }

  // ----- operations; None is the panic of get_free_page

  function Alloc(s: Sys): Option<(nat, Sys)> {
    var f := FirstFree(s.pages, 0);
    if f < |s.pages| && f < |s.ram| && f < MAX_FRAMES then
      Some((f, s.(ram := s.ram[f := ZeroFrame()], pages := Taken(s.pages, f))))
    else None
  }

  function CreateDir(s: Sys): Option<(nat, Sys)> {
    var (f, s1) :- Alloc(s);
    Some((f, s1.(dirs := s1.dirs + {f})))
  }

  /** Hangs a fresh empty table with the attributes attr into slot i of directory d. */
  function InstallTable(s: Sys, d: nat, i: nat, attr: nat): Option<Sys>
    requires attr < FRAME_SIZE
  {
    var (t, s1) :- Alloc(s);
    if t < MAX_FRAMES then
      Some(s1.(ram := Poke(s1.ram, d, i, t * 4096 + attr), owner := s1.owner[t := (d, i)]))
    else None
  }

  function SetPte(s: Sys, t: nat, j: nat, pte: Word): Sys {
    s.(ram := Poke(s.ram, t, j, pte))
  }

  /** One iteration of copy_page's inner loop. */
  function ShareEntry(s: Sys, src: nat, dst: nat, i: nat, j: nat): Sys {
    var t, u := FrameOf(Pde(s, src, i)), FrameOf(Pde(s, dst, i));
    var pte := Peek(s.ram, t, j);
    if pte != 0 then
      var p := Protect(pte);
      var s1 := SetPte(SetPte(s, t, j, p), u, j, p);
      SetPage(s1, FrameOf(p), PageOf(s1, FrameOf(p)).Inc().MarkCow())
    else
      SetPte(s, u, j, 0)
  }

  /** The first n iterations of the inner loop. */
  function ShareEntries(s: Sys, src: nat, dst: nat, i: nat, n: nat): Sys {
    if n == 0 then s else ShareEntry(ShareEntries(s, src, dst, i, n - 1), src, dst, i, n - 1)
  }

  /** One iteration of copy_page's outer loop. */
  function CopySlot(s: Sys, src: nat, dst: nat, i: nat): Option<Sys> {
    if Pde(s, src, i) != 0 then
      var s1 :- InstallTable(s, dst, i, USER_RW);
      Some(ShareEntries(s1, src, dst, i, ENTRIES))
    else
      Some(SetPte(s, dst, i, 0))
  }

  /** The first n iterations of the outer loop. */
  function CopySlots(s: Sys, src: nat, dst: nat, n: nat): Option<Sys> {
    if n == 0 then Some(s) else
      var s1 :- CopySlots(s, src, dst, n - 1);
      CopySlot(s1, src, dst, n - 1)
  }

  /** The kernel half of the directory, up to slot n. */
  function CopyKernelSlots(s: Sys, dst: nat, n: nat): Sys
    requires USER_DIRS <= n
  {
    if n == USER_DIRS then s else
      var s1 := CopyKernelSlots(s, dst, n - 1);
      SetPte(s1, dst, n - 1, Pde(s1, KERNEL_DIR, n - 1))
  }

  function CopyPage(s: Sys, src: nat, dst: nat): Option<Sys> {
    var s1 :- CopySlots(s, src, dst, USER_DIRS);
    Some(CopyKernelSlots(s1, dst, ENTRIES))
  }

  /** The copying branch of do_wp_page, once frame f has been allocated for shared frame x. */
  function CopyFrame(s: Sys, t: nat, j: nat, x: nat, f: nat): Sys
    requires f < MAX_FRAMES && f < |s.ram| && x < |s.ram|
  {
    var s2 := SetPte(s, t, j, f * 4096 + USER_RW);
    var s3 := s2.(ram := s2.ram[f := s2.ram[x]]);
    var s4 := SetPage(s3, f, PageOf(s3, f).Inc());
    SetPage(s4, x, PageOf(s4, x).Dec())
  }

  function WpFault(s: Sys, d: nat, i: nat, j: nat): Option<Sys> {
    var t, was := FrameOf(Pde(s, d, i)), FrameOf(Pte(s, d, i, j));
    if PageOf(s, was).count == 1 then
      var s1 := SetPte(s, t, j, was * 4096 + USER_RW);
      Some(SetPage(s1, was, PageOf(s1, was).MarkUsed()))
    else
      var (f, s1) :- Alloc(s);
      if f < |s1.ram| && was < |s1.ram| && f < MAX_FRAMES then Some(CopyFrame(s1, t, j, was, f)) else None
  }

  /** Points entry (t, j) at the frame f just allocated and counts the reference. */
  function MapFresh(s: Sys, t: nat, j: nat, f: nat, attr: nat): Sys
    requires attr < FRAME_SIZE && f < MAX_FRAMES
  {
    var s1 := SetPte(s, t, j, f * 4096 + attr);
    SetPage(s1, f, PageOf(s1, f).Inc())
  }

  function NoPage(s: Sys, d: nat, i: nat, j: nat, kernel: bool): Option<Sys> {
    var attr := if kernel then KERNEL_RW else USER_RW;
    var (f, s1) :- Alloc(s);
    var s2 :- InstallTable(s1, d, i, attr);
    if f < MAX_FRAMES then Some(MapFresh(s2, FrameOf(Pde(s2, d, i)), j, f, attr)) else None
  }

  /** A user store that the MMU lets through. */
  function Store(s: Sys, d: nat, i: nat, j: nat, w: nat, v: Word): Sys {
    s.(ram := Poke(s.ram, FrameOf(Pte(s, d, i, j)), w, v))
  }

  // ----- invariant

  predicate Live(s: Sys, f: nat) {
    f < |s.pages| && s.pages[f].Used()
  }

  /** The page-table words that name frame u, over every table ever created. */
  ghost function Refs(s: Sys, u: nat): set<(nat, nat)> {
    set t: nat, j: nat | t in s.owner && j < ENTRIES && Names(s, t, j, u) :: (t, j)
  }

  /** How many references to u the word p makes. */
  function Hit(p: Word, u: nat): nat {
    if p != 0 && FrameOf(p) == u then 1 else 0
  }

  predicate Names(s: Sys, t: nat, j: nat, u: nat) {
    Hit(Peek(s.ram, t, j), u) == 1
  }

  /** A directory word names the table created for it, so no table is shared. */
  ghost predicate SlotOk(s: Sys, d: nat, i: nat) {
    Pde(s, d, i) != 0 ==>
      var t := FrameOf(Pde(s, d, i));
      t in s.owner && s.owner[t] == (d, i)
  }

  /** The frame an entry names is a plain user page whose count covers its references;
      a writable entry is the only one that names it.  The count is never more than one
      above the references, and with `strict` it is always exactly one above. */
  ghost predicate EntryOk(s: Sys, t: nat, j: nat, strict: bool) {
    var pte := Peek(s.ram, t, j);
    var u := FrameOf(pte);
    pte != 0 ==>
      && pte != PG_RWW  // PG_P is set too, so write-protecting leaves the entry nonzero
      && Live(s, u) && u !in s.dirs && u !in s.owner
      && (PageOf(s, u).count == |Refs(s, u)| + 1 || (!strict && PageOf(s, u).count == |Refs(s, u)|))
      && (Writable(pte) ==> Refs(s, u) == {(t, j)})
  }

  ghost predicate Inv(s: Sys, strict: bool) {
    && |s.ram| == |s.pages| && KERNEL_DIR < |s.ram| <= MAX_FRAMES
    && s.dirs !! s.owner.Keys
    && (forall f :: f in s.dirs ==> Live(s, f))
    && (forall f :: f in s.owner ==> Live(s, f))
    && (forall d, i {:trigger SlotOk(s, d, i)} :: d in s.dirs && 0 <= i < USER_DIRS ==> SlotOk(s, d, i))
    && (forall t, j {:trigger EntryOk(s, t, j, strict)} :: t in s.owner && 0 <= j < ENTRIES ==> EntryOk(s, t, j, strict))
  }

  // ----- views

  /** What address space d maps: (directory slot, table slot) to the page's words. */
  ghost function View(s: Sys, d: nat): map<(nat, nat), Frame> {
    map i: nat, j: nat | i < USER_DIRS && j < ENTRIES && Mapped(s, d, i, j)
      :: (i, j) := s.ram[FrameOf(Pte(s, d, i, j))]
  }

  predicate Mapped(s: Sys, d: nat, i: nat, j: nat) {
    Pte(s, d, i, j) != 0 && FrameOf(Pte(s, d, i, j)) < |s.ram|
  }

  ghost function Abs(s: Sys): map<nat, map<(nat, nat), Frame>> {
    map d | d in s.dirs :: View(s, d)
  }
}
