/** The paging code itself (arch/i386/page.c), updating RAM and mem_map in place.  Each
    method is proved against the function of the same name in `Paging`. */
module AddressSpaces {
  import opened Frames
  import opened CowInvariant
  import opened CowRefinement
  import Paging
  import Mmu
  import opened Wrappers
  import opened CowRuns
  import opened AccessRights

  const USER_DIRS := Paging.USER_DIRS
  const ENTRIES := Paging.ENTRIES

  /** Once an iteration has panicked the copy never completes. */
  lemma {:induction false} CopySlotsFails(s: Paging.Sys, src: nat, dst: nat, m: nat, n: nat)
    requires m <= n && Paging.CopySlots(s, src, dst, m).None?
    ensures Paging.CopySlots(s, src, dst, n).None?
    decreases n - m
  {
    if m < n {
      CopySlotsFails(s, src, dst, m + 1, n);
    }
  }

  class PageTables {
    const m: Machine
    ghost var dirs: set<nat>
    ghost var owner: map<nat, (nat, nat)>

    constructor (m: Machine)
      ensures this.m == m && State() == Paging.Sys(m.ram[..], m.memMap[..], {}, map[])
    {
      this.m := m;
      this.dirs := {};
      this.owner := map[];
    }

    ghost function State(): Paging.Sys
      reads this, m.ram, m.memMap
    {
      Paging.Sys(m.ram[..], m.memMap[..], dirs, owner)
    }

    ghost predicate Valid()
      reads this, m.ram, m.memMap
    {
      m.Valid() && Paging.Inv(State(), false)
    }

    method CreateDir() returns (dir: int, ok: bool)
      requires Valid()
      modifies this`dirs, m.ram, m.memMap
      ensures ok == Paging.CreateDir(old(State())).Some?
      ensures ok ==> Valid() && dir >= 0 && Paging.CreateDir(old(State())).value == (dir, State())
      ensures ok ==> Paging.Abs(State()) == old(Paging.Abs(State()))[dir := map[]] && dir !in old(dirs)
    {
      ghost var s := State();
      var addr;
      addr, ok := m.GetFreePage();
      if ok {
        dir := addr / 4096;
        dirs := dirs + {dir};
        CreateDirInv(s, false);
        NewDirRefines(s, dir, false);
        AllocFresh(s, false);
        assert State() == Paging.CreateDir(s).value.1;
      } else {
        dir := -1;
      }
    }

    /** Hangs a fresh empty table into slot i of directory d, in place. */
    method InstallTable(d: nat, i: nat, attr: nat) returns (ok: bool)
      requires Valid() && d < m.ram.Length && i < ENTRIES && attr < FRAME_SIZE
      modifies this`owner, m.ram, m.memMap
      ensures ok == Paging.InstallTable(old(State()), d, i, attr).Some?
      ensures ok ==> State() == Paging.InstallTable(old(State()), d, i, attr).value
    {
      var addr;
      addr, ok := m.GetFreePage();
      if ok {
        m.ram[d] := m.ram[d][i := addr + attr];
        owner := owner[addr / 4096 := (d, i)];
      }
    }

    /** One iteration of copy_page's inner loop. */
    method ShareEntry(src: nat, dst: nat, i: nat, j: nat)
      requires Valid() && src in dirs && dst in dirs && src != dst && i < USER_DIRS && j < ENTRIES
      requires Paging.Pde(State(), src, i) != 0 && Paging.Pde(State(), dst, i) != 0
      modifies m.ram, m.memMap
      ensures State() == Paging.ShareEntry(old(State()), src, dst, i, j)
    {
      SlotPath(State(), src, i, j, false);
      SlotPath(State(), dst, i, j, false);
      var from, to := m.ram[src][i] / 4096, m.ram[dst][i] / 4096;
      if m.ram[from][j] != 0 {
        assert Paging.EntryOk(State(), from, j, false);
        Mmu.ProtectBits(m.ram[from][j]);
        m.ram[from] := m.ram[from][j := Paging.Protect(m.ram[from][j])];
        m.ram[to] := m.ram[to][j := m.ram[from][j]];
        var page := m.ram[from][j] / 4096;
        m.memMap[page] := m.memMap[page].Inc();
        m.memMap[page] := m.memMap[page].MarkCow();
      } else {
        m.ram[to] := m.ram[to][j := 0];
      }
    }

    /** copy_page's inner loop for directory slot i. */
    method ShareTable(src: nat, dst: nat, i: nat)
      requires Valid() && src in dirs && dst in dirs && src != dst && i < USER_DIRS
      requires Paging.Pde(State(), src, i) != 0 && Paging.Pde(State(), dst, i) != 0
      requires EmptyRow(State(), dst, i)
      modifies m.ram, m.memMap
      ensures State() == Paging.ShareEntries(old(State()), src, dst, i, ENTRIES)
    {
      ghost var s := State();
      for j := 0 to ENTRIES
        invariant State() == Paging.ShareEntries(s, src, dst, i, j)
      {
        ShareEntriesRow(s, src, dst, i, j, false, State());
        ShareEntry(src, dst, i, j);
      }
    }

    /** One iteration of copy_page's outer loop. */
    method CopySlot(src: nat, dst: nat, i: nat) returns (ok: bool)
      requires Valid() && src in dirs && dst in dirs && src != dst && i < USER_DIRS
      modifies this`owner, m.ram, m.memMap
      ensures ok == Paging.CopySlot(old(State()), src, dst, i).Some?
      ensures ok ==> State() == Paging.CopySlot(old(State()), src, dst, i).value
    {
      ghost var s := State();
      if m.ram[src][i] != 0 {
        ok := InstallTable(dst, i, Paging.USER_RW);
        if ok {
          InstallTableInv(s, dst, i, Paging.USER_RW, false);
          SlotPath(s, src, i, 0, false);
          ShareTable(src, dst, i);
        }
      } else {
        m.ram[dst] := m.ram[dst][i := 0];
        ok := true;
      }
    }

    /** Fork: dst sees what src sees; false is the panic for lack of frames. */
    method CopyPage(src: nat, dst: nat) returns (ok: bool)
      requires Valid() && src in dirs && dst in dirs && src != dst
      modifies this`owner, m.ram, m.memMap
      ensures ok == Paging.CopyPage(old(State()), src, dst).Some?
      ensures ok ==> Valid() && State() == Paging.CopyPage(old(State()), src, dst).value
      ensures ok ==> Paging.Abs(State()) == old(Paging.Abs(State()))[dst := old(Paging.View(State(), src))]
    {
      ghost var s := State();
      for i := 0 to USER_DIRS
        invariant Paging.CopySlots(s, src, dst, i) == Some(State())
      {
        CopySlotsCopies(s, src, dst, i, false);
        ok := CopySlot(src, dst, i);
        if !ok {
          CopySlotsFails(s, src, dst, i + 1, USER_DIRS);
          return;
        }
      }
      ghost var s2 := State();
      CopySlotsCopies(s, src, dst, USER_DIRS, false);
      for i := USER_DIRS to ENTRIES
        invariant State() == Paging.CopyKernelSlots(s2, dst, i)
      {
        CopyKernelSlotsAgrees(s2, dst, i, false);
        m.ram[dst] := m.ram[dst][i := m.ram[KERNEL_DIR][i]];
      }
      ok := true;
      CopyPageCopies(s, src, dst, false);
      AbsUpdate(s, State(), dst, Paging.View(s, src));
    }

    lemma AllocFacts(s: Paging.Sys)
      requires Paging.Inv(s, false) && |s.ram| <= MAX_FRAMES
      ensures Paging.Alloc(s).Some? == HasFree(s.pages)
      ensures Paging.Alloc(s).Some? ==>
        var f := Paging.Alloc(s).value.0; f !in s.dirs && f !in s.owner && f < |s.ram| && !s.pages[f].Used()
    {
      if Paging.Alloc(s).Some? { AllocFresh(s, false); }
    }

    /** do_wp_page's copying branch for entry index2 of `table`, which names `page`. */
    method UnsharePage(table: nat, index2: nat, page: nat) returns (ok: bool)
      requires Valid() && table in owner && index2 < ENTRIES && page < m.ram.Length && m.memMap[page].Used()
      modifies m.ram, m.memMap
      ensures ok == Paging.Alloc(old(State())).Some?
      ensures ok ==>
        var (f, s1) := Paging.Alloc(old(State())).value;
        f < |s1.ram| && State() == Paging.CopyFrame(s1, table, index2, page, f)
    {
      AllocFacts(State());
      var addr;
      addr, ok := m.GetFreePage();
      if ok {
        var copy := addr / 4096;
        EntryWord(copy, Paging.USER_RW);
        m.ram[table] := m.ram[table][index2 := addr + Paging.USER_RW];
        m.ram[copy] := m.ram[page];
        m.memMap[copy] := m.memMap[copy].Inc();
        m.memMap[page] := m.memMap[page].Dec();
      }
    }

    /** do_wp_page for directory slot i, table slot j of a present user page. */
    method WpPage(d: nat, i: nat, j: nat) returns (ok: bool)
      requires Valid() && d in dirs && i < USER_DIRS && j < ENTRIES && Paging.Pte(State(), d, i, j) != 0
      modifies m.ram, m.memMap
      ensures ok == Paging.WpFault(old(State()), d, i, j).Some?
      ensures ok ==> State() == Paging.WpFault(old(State()), d, i, j).value
    {
      SlotPath(State(), d, i, j, false);
      assert m.memMap[Paging.FrameOf(Paging.Pte(State(), d, i, j))].Used();
      var table := m.ram[d][i] / 4096;
      var page := m.ram[table][j] / 4096;
      if m.memMap[page].count == 1 {
        EntryWord(page, Paging.USER_RW);
        m.ram[table] := m.ram[table][j := page * 4096 + Paging.USER_RW];
        m.memMap[page] := m.memMap[page].MarkUsed();
        ok := true;
      } else {
        ok := UnsharePage(table, j, page);
      }
    }

    /** Write-protection fault: the page becomes writable and no view changes. */
    method DoWpPage(d: nat, address: nat) returns (ok: bool)
      requires Valid() && d in dirs && address < 0xC000_0000
      requires Paging.Pte(State(), d, address / 0x40_0000, address / 4096 % 1024) != 0
      modifies m.ram, m.memMap
      ensures var i, j := address / 0x40_0000, address / 4096 % 1024;
        && ok == Paging.WpFault(old(State()), d, i, j).Some?
        && (ok ==> Valid() && State() == Paging.WpFault(old(State()), d, i, j).value)
        && (ok ==> Paging.Writable(Paging.Pte(State(), d, i, j)))
      ensures ok ==> Paging.Abs(State()) == old(Paging.Abs(State()))
      ensures ok && old(Rights(State()) && Mmu.User(Paging.Pde(State(), d, address / 0x40_0000))) ==>
        Mmu.Translate(m.ram[..], d, address, USER_WRITE).Some?
    {
      var index1, index2 := address / 0x40_0000, address / 4096 % 1024;
      ghost var s := State();
      ok := WpPage(d, index1, index2);
      if ok {
        WriteFaultRefines(s, d, index1, index2, false);
        WpFaultWritable(s, d, index1, index2, false);
        if Rights(s) { WpFaultAccess(s, d, address, USER_WRITE, false); }
      }
    }

    /** do_no_page for directory slot i, table slot j. */
    method NoPage(d: nat, i: nat, j: nat, kernel: bool) returns (ok: bool)
      requires Valid() && d in dirs && i < ENTRIES && j < ENTRIES
      modifies this`owner, m.ram, m.memMap
      ensures ok == Paging.NoPage(old(State()), d, i, j, kernel).Some?
      ensures ok ==> State() == Paging.NoPage(old(State()), d, i, j, kernel).value
    {
      ghost var s := State();
      AllocFacts(s);
      var addr;
      addr, ok := m.GetFreePage();
      if !ok { return; }
      AllocInv(s, false);
      ghost var s1 := State();
      var attr := if kernel then Paging.KERNEL_RW else Paging.USER_RW;
      ok := InstallTable(d, i, attr);
      if !ok { return; }
      InstallTableInv(s1, d, i, attr, false);
      ghost var s2 := State();
      MapPage(m.ram[d][i] / 4096, j, addr / 4096, attr);
      NoPageIs(s, d, i, j, kernel, addr / 4096, s1, s2);
    }

    lemma NoPageIs(s: Paging.Sys, d: nat, i: nat, j: nat, kernel: bool, f: nat, s1: Paging.Sys, s2: Paging.Sys)
      requires Paging.Alloc(s) == Some((f, s1)) && f < MAX_FRAMES
      requires Paging.InstallTable(s1, d, i, if kernel then Paging.KERNEL_RW else Paging.USER_RW) == Some(s2)
      ensures Paging.NoPage(s, d, i, j, kernel)
        == Some(Paging.MapFresh(s2, Paging.FrameOf(Paging.Pde(s2, d, i)), j, f, if kernel then Paging.KERNEL_RW else Paging.USER_RW))
    {
    }

    method MapPage(table: nat, j: nat, page: nat, attr: nat)
      requires Valid() && table in owner && j < ENTRIES && page < m.ram.Length
      requires attr in {Paging.USER_RW, Paging.KERNEL_RW}
      modifies m.ram, m.memMap
      ensures State() == Paging.MapFresh(old(State()), table, j, page, attr)
    {
      EntryWord(page, attr);
      m.ram[table] := m.ram[table][j := page * 4096 + attr];
      m.memMap[page] := m.memMap[page].Inc();
    }

    /** Fault on a page that is not present. */
    method DoNoPage(d: nat, address: nat, kernel: bool) returns (ok: bool)
      requires Valid() && d in dirs && address < 0x1_0000_0000
      modifies this`owner, m.ram, m.memMap
      ensures var i, j := address / 0x40_0000, address / 4096 % 1024;
        && ok == Paging.NoPage(old(State()), d, i, j, kernel).Some?
        && (ok ==> Valid() && State() == Paging.NoPage(old(State()), d, i, j, kernel).value)
        && (ok ==> Paging.Abs(State()) == EagerApply(old(Paging.Abs(State())), MissingFault(d, i, j, kernel)))
      ensures ok ==> Reached(m.ram[..], d, address, kernel, FirstFree(old(m.memMap[..]), 0))
    {
      var index1, index2 := address / 0x40_0000, address / 4096 % 1024;
      ghost var s := State();
      ok := NoPage(d, index1, index2, kernel);
      if ok {
        MissingFaultRefines(s, d, index1, index2, kernel, false);
        NoPageReached(s, d, address, index1, index2, kernel, false, State());
      }
    }
  }
}
