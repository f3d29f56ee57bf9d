/** Who may use a page: what the fault handlers and copy_page open to user programs. */
module AccessRights {
  import opened Frames
  import opened Paging
  import opened Mmu
  import opened Wrappers
  import opened CowInvariant
  import opened CowRefinement
  import opened CowRuns
  import opened ForkWords

  const USER_WRITE := Access(true, true)

  // ----- the words the fault handlers write

  /** The frame do_wp_page leaves in the entry. */
  function FaultFrame(s: Sys, d: nat, i: nat, j: nat): nat {
    var x := FrameOf(Pte(s, d, i, j));
    if PageOf(s, x).count == 1 then x else FirstFree(s.pages, 0)
  }

  lemma WpFaultWords(s: Sys, d0: nat, i0: nat, j0: nat, d: nat, i: nat, j: nat, strict: bool)
    requires Inv(s, strict) && d0 in s.dirs && i0 < USER_DIRS && j0 < ENTRIES && Pte(s, d0, i0, j0) != 0
    requires WpFault(s, d0, i0, j0).Some? && d in s.dirs && i < USER_DIRS && j < ENTRIES
    ensures var s' := WpFault(s, d0, i0, j0).value;
      && s'.dirs == s.dirs && Pde(s', d, i) == Pde(s, d, i) && FaultFrame(s, d0, i0, j0) < MAX_FRAMES
      && Pte(s', d, i, j) == if (d, i, j) == (d0, i0, j0) then FaultFrame(s, d0, i0, j0) * 4096 + USER_RW else Pte(s, d, i, j)
  {
    SlotPath(s, d0, i0, j0, strict);
    SlotPath(s, d, i, j, strict);
    EntryWord(FrameOf(Pte(s, d0, i0, j0)), USER_RW);
    if PageOf(s, FrameOf(Pte(s, d0, i0, j0))).count != 1 {
      AllocFresh(s, strict);
      EntryWord(Alloc(s).value.0, USER_RW);
    }
  }

  /** do_no_page: a fresh table, with one entry. */
  lemma NoPageWords(s: Sys, d: nat, i: nat, j0: nat, kernel: bool, j: nat, strict: bool)
    requires Inv(s, strict) && d in s.dirs && i < ENTRIES && j0 < ENTRIES && NoPage(s, d, i, j0, kernel).Some? && j < ENTRIES
    ensures var s', attr := NoPage(s, d, i, j0, kernel).value, if kernel then KERNEL_RW else USER_RW;
      && FirstFree(s.pages, 0) < MAX_FRAMES && Pde(s', d, i) != 0
      && Pde(s', d, i) == FrameOf(Pde(s', d, i)) * 4096 + attr
      && Pte(s', d, i, j) == if j == j0 then FirstFree(s.pages, 0) * 4096 + attr else 0
  {
    var attr := if kernel then KERNEL_RW else USER_RW;
    AllocInv(s, strict);
    AllocFresh(s, strict);
    var (f, s1) := Alloc(s).value;
    InstallTableInv(s1, d, i, attr, strict);
    AllocFresh(s1, strict);
    var t := Alloc(s1).value.0;
    EntryBits(t, attr, t * 4096 + attr);
    EntryBits(f, attr, f * 4096 + attr);
    TableWords(s1, d, i, attr, d, i, strict);
  }

  /** Every other slot is as before. */
  lemma NoPageElsewhere(s: Sys, d0: nat, i0: nat, j0: nat, kernel: bool, d: nat, i: nat, j: nat, strict: bool)
    requires Inv(s, strict) && d0 in s.dirs && i0 < ENTRIES && j0 < ENTRIES && NoPage(s, d0, i0, j0, kernel).Some?
    requires d in s.dirs && i < USER_DIRS && j < ENTRIES && (d, i) != (d0, i0)
    ensures var s' := NoPage(s, d0, i0, j0, kernel).value;
      s'.dirs == s.dirs && Pde(s', d, i) == Pde(s, d, i) && Pte(s', d, i, j) == Pte(s, d, i, j)
  {
    var attr := if kernel then KERNEL_RW else USER_RW;
    AllocInv(s, strict);
    AllocFresh(s, strict);
    var s1 := Alloc(s).value.1;
    InstallTableInv(s1, d0, i0, attr, strict);
    TableWords(s1, d0, i0, attr, d, i, strict);
    TableEntries(s1, d0, i0, attr, d, i, j, strict);
    SlotPath(s, d, i, j, strict);
  }

  // ----- what holds in every reachable state

  /** An entry that is not zero is present. */
  ghost predicate EntryPresent(s: Sys, d: nat, i: nat, j: nat) {
    Pte(s, d, i, j) != 0 ==> Present(Pte(s, d, i, j))
  }

  /** A directory word that is not zero is present and lets writes through. */
  ghost predicate TableOpen(s: Sys, d: nat, i: nat) {
    Pde(s, d, i) != 0 ==> Present(Pde(s, d, i)) && Writable(Pde(s, d, i))
  }

  /** Where the kernel tests a word for zero the processor tests its present bit. */
  ghost predicate Rights(s: Sys) {
    && (forall d, i {:trigger TableOpen(s, d, i)} :: d in s.dirs && 0 <= i < USER_DIRS ==> TableOpen(s, d, i))
    && (forall d, i, j {:trigger EntryPresent(s, d, i, j)} ::
          d in s.dirs && 0 <= i < USER_DIRS && 0 <= j < ENTRIES ==> EntryPresent(s, d, i, j))
  }

  lemma ForkRights(s: Sys, src: nat, dst: nat, strict: bool)
    requires Inv(s, strict) && Rights(s) && src in s.dirs && dst in s.dirs && src != dst && CopyPage(s, src, dst).Some?
    ensures Rights(CopyPage(s, src, dst).value)
  {
    var s' := CopyPage(s, src, dst).value;
    ForkWords.ForkWords(s, src, dst, strict);
    forall d, i | d in s'.dirs && 0 <= i < USER_DIRS ensures TableOpen(s', d, i) {
      if d == dst { assert UserTable(s, s', src, dst, i); } else { assert SameDirWord(s, s', d, i) && TableOpen(s, d, i); }
    }
    forall d, i, j | d in s'.dirs && 0 <= i < USER_DIRS && 0 <= j < ENTRIES ensures EntryPresent(s', d, i, j) {
      if d == src || d == dst {
        assert Protected(s, s', src, d, i, j) && EntryPresent(s, src, i, j);
        SharedBits(s, src, i, j, strict);
      } else {
        assert SameEntry(s, s', d, i, j) && EntryPresent(s, d, i, j);
      }
    }
  }

  lemma SharedBits(s: Sys, d: nat, i: nat, j: nat, strict: bool)
    requires Inv(s, strict) && d in s.dirs && i < USER_DIRS && j < ENTRIES
    ensures var p := Pte(s, d, i, j);
      && FrameOf(Protect(p)) == FrameOf(p) && !Writable(Protect(p)) && (Protect(p) == 0 <==> p == 0)
      && (Present(Protect(p)) <==> Present(p)) && (User(Protect(p)) <==> User(p))
  {
    SlotPath(s, d, i, j, strict);
    if Pte(s, d, i, j) != 0 { assert EntryOk(s, FrameOf(Pde(s, d, i)), j, strict); }
    ProtectBits(Pte(s, d, i, j));
  }

  lemma WpFaultRights(s: Sys, d0: nat, i0: nat, j0: nat, strict: bool)
    requires Inv(s, strict) && Rights(s) && Enabled(s, WriteFault(d0, i0, j0)) && WpFault(s, d0, i0, j0).Some?
    ensures Rights(WpFault(s, d0, i0, j0).value)
  {
    var s' := WpFault(s, d0, i0, j0).value;
    WpFaultWords(s, d0, i0, j0, d0, i0, j0, strict);
    EntryBits(FaultFrame(s, d0, i0, j0), USER_RW, FaultFrame(s, d0, i0, j0) * 4096 + USER_RW);
    forall d, i | d in s'.dirs && 0 <= i < USER_DIRS ensures TableOpen(s', d, i) {
      WpFaultWords(s, d0, i0, j0, d, i, 0, strict);
      assert TableOpen(s, d, i);
    }
    forall d, i, j | d in s'.dirs && 0 <= i < USER_DIRS && 0 <= j < ENTRIES ensures EntryPresent(s', d, i, j) {
      WpFaultWords(s, d0, i0, j0, d, i, j, strict);
      assert EntryPresent(s, d, i, j);
    }
  }

  lemma NoPageBits(s: Sys, d: nat, i: nat, j: nat, kernel: bool, strict: bool)
    requires Inv(s, strict) && Enabled(s, MissingFault(d, i, j, kernel)) && NoPage(s, d, i, j, kernel).Some?
    ensures var s' := NoPage(s, d, i, j, kernel).value;
      && Present(Pde(s', d, i)) && Writable(Pde(s', d, i)) && (User(Pde(s', d, i)) <==> !kernel)
      && Present(Pte(s', d, i, j)) && Writable(Pte(s', d, i, j)) && (User(Pte(s', d, i, j)) <==> !kernel)
      && FrameOf(Pte(s', d, i, j)) == FirstFree(s.pages, 0)
  {
    var s', attr := NoPage(s, d, i, j, kernel).value, if kernel then KERNEL_RW else USER_RW;
    NoPageWords(s, d, i, j, kernel, j, strict);
    EntryBits(FrameOf(Pde(s', d, i)), attr, Pde(s', d, i));
    EntryBits(FirstFree(s.pages, 0), attr, Pte(s', d, i, j));
  }

  lemma NoPageRights(s: Sys, d0: nat, i0: nat, j0: nat, kernel: bool, strict: bool)
    requires Inv(s, strict) && Rights(s) && Enabled(s, MissingFault(d0, i0, j0, kernel)) && NoPage(s, d0, i0, j0, kernel).Some?
    ensures Rights(NoPage(s, d0, i0, j0, kernel).value)
  {
    var s' := NoPage(s, d0, i0, j0, kernel).value;
    NoPageBits(s, d0, i0, j0, kernel, strict);
    NoPageKeepsDirs(s, d0, i0, j0, kernel);
    forall d, i | d in s'.dirs && 0 <= i < USER_DIRS ensures TableOpen(s', d, i) {
      if (d, i) != (d0, i0) {
        NoPageElsewhere(s, d0, i0, j0, kernel, d, i, 0, strict);
        assert TableOpen(s, d, i);
      }
    }
    forall d, i, j | d in s'.dirs && 0 <= i < USER_DIRS && 0 <= j < ENTRIES ensures EntryPresent(s', d, i, j) {
      if (d, i) == (d0, i0) {
        NoPageWords(s, d0, i0, j0, kernel, j, strict);
      } else {
        NoPageElsewhere(s, d0, i0, j0, kernel, d, i, j, strict);
        assert EntryPresent(s, d, i, j);
      }
    }
  }

  /** Steps that write no table or directory word. */
  lemma PlainRights(s: Sys, step: Step, strict: bool)
    requires Inv(s, strict) && Rights(s) && Enabled(s, step) && Apply(s, step).Some?
    requires step.NewDir? || step.Write? || step.TakeFrame? || step.ReturnFrame?
    ensures Rights(Apply(s, step).value)
  {
    var s' := Apply(s, step).value;
    if step.NewDir? || step.TakeFrame? { AllocFresh(s, strict); }
    if step.Write? { SlotPath(s, step.d, step.i, step.j, strict); }
    forall d, i | d in s'.dirs && 0 <= i < USER_DIRS ensures TableOpen(s', d, i) {
      if d in s.dirs { assert TableOpen(s, d, i); }
    }
    forall d, i, j | d in s'.dirs && 0 <= i < USER_DIRS && 0 <= j < ENTRIES ensures EntryPresent(s', d, i, j) {
      if d in s.dirs {
        SlotPath(s, d, i, j, strict);
        assert EntryPresent(s, d, i, j);
      }
    }
  }

  lemma StepRights(s: Sys, step: Step, strict: bool)
    requires Inv(s, strict) && Rights(s) && Enabled(s, step) && Apply(s, step).Some?
    ensures Rights(Apply(s, step).value)
  {
    match step
    case Fork(src, dst) => ForkRights(s, src, dst, strict);
    case WriteFault(d, i, j) => WpFaultRights(s, d, i, j, strict);
    case MissingFault(d, i, j, kernel) => NoPageRights(s, d, i, j, kernel, strict);
    case _ => PlainRights(s, step, strict);
  }

  lemma {:induction false} RunRights(s: Sys, steps: seq<Step>, strict: bool)
    requires Inv(s, strict) && Rights(s) && Legal(s, steps) && Run(s, steps).Some?
    ensures Inv(Run(s, steps).value, strict) && Rights(Run(s, steps).value)
    decreases |steps|
  {
    if steps != [] {
      StepRefines(s, steps[0], strict);
      StepRights(s, steps[0], strict);
      RunRights(Apply(s, steps[0]).value, steps[1..], strict);
    }
  }

  /** In every state reachable from boot a user program's access to a slot is let through
      exactly if a table and an entry are there, both are open to users, and for a write the
      entry is writable. */
  lemma ReachableAccess(s: Sys, steps: seq<Step>, d: nat, va: nat, acc: Access)
    requires Booted(s) && Legal(s, steps) && Run(s, steps).Some? && d in Run(s, steps).value.dirs && va < 0xC000_0000
    ensures var s', i, j := Run(s, steps).value, va / 0x40_0000, va / 4096 % 1024;
      Translate(s'.ram, d, va, acc) ==
        if Pte(s', d, i, j) != 0 && (acc.user ==> User(Pde(s', d, i)) && User(Pte(s', d, i, j)) && (acc.write ==> Writable(Pte(s', d, i, j))))
        then Some(4096 * FrameOf(Pte(s', d, i, j)) + va % 4096) else None
  {
    RunRights(s, steps, true);
    SlotAccess(Run(s, steps).value, d, va, acc);
  }

  lemma SlotAccess(s: Sys, d: nat, va: nat, acc: Access)
    requires Rights(s) && d in s.dirs && va < 0xC000_0000
    ensures var i, j := va / 0x40_0000, va / 4096 % 1024;
      Translate(s.ram, d, va, acc) ==
        if Pte(s, d, i, j) != 0 && (acc.user ==> User(Pde(s, d, i)) && User(Pte(s, d, i, j)) && (acc.write ==> Writable(Pte(s, d, i, j))))
        then Some(4096 * FrameOf(Pte(s, d, i, j)) + va % 4096) else None
  {
    var i, j := va / 0x40_0000, va / 4096 % 1024;
    assert TableOpen(s, d, i) && EntryPresent(s, d, i, j);
    assert !Present(0);
  }

  // ----- what a fault gives

  /** After do_no_page the supervisor has the fresh page at the address, and a user program has
      it exactly if the faulting thread is none of the kernel's. */
  lemma NoPageAccess(s: Sys, d: nat, va: nat, i: nat, j: nat, kernel: bool, acc: Access, strict: bool, s': Sys)
    requires va < 0x1_0000_0000 && i == va / 0x40_0000 && j == va / 4096 % 1024
    requires Inv(s, strict) && Enabled(s, MissingFault(d, i, j, kernel)) && NoPage(s, d, i, j, kernel) == Some(s')
    ensures Translate(s'.ram, d, va, acc) == if acc.user && kernel then None else Some(4096 * FirstFree(s.pages, 0) + va % 4096)
  {
    NoPageBits(s, d, i, j, kernel, strict);
    assert Pde(s', d, i) != 0;
    SlotLets(s', d, va, i, j, acc);
  }

  lemma SlotLets(s: Sys, d: nat, va: nat, i: nat, j: nat, acc: Access)
    requires va < 0x1_0000_0000 && i == va / 0x40_0000 && j == va / 4096 % 1024 && Pde(s, d, i) != 0
    ensures Translate(s.ram, d, va, acc)
         == if Lets(Pde(s, d, i), acc) && Lets(Pte(s, d, i, j), acc) then Some(4096 * FrameOf(Pte(s, d, i, j)) + va % 4096) else None
  {
  }

  /** The address leads into frame f, for user programs too unless it is the kernel's alone. */
  ghost predicate Reached(ram: seq<Frame>, d: nat, va: nat, kernel: bool, f: nat)
    requires va < 0x1_0000_0000
  {
    forall acc :: Translate(ram, d, va, acc) == if acc.user && kernel then None else Some(4096 * f + va % 4096)
  }

  lemma NoPageReached(s: Sys, d: nat, va: nat, i: nat, j: nat, kernel: bool, strict: bool, s': Sys)
    requires va < 0x1_0000_0000 && i == va / 0x40_0000 && j == va / 4096 % 1024
    requires Inv(s, strict) && Enabled(s, MissingFault(d, i, j, kernel)) && NoPage(s, d, i, j, kernel) == Some(s')
    ensures Reached(s'.ram, d, va, kernel, FirstFree(s.pages, 0))
  {
    forall acc ensures Translate(s'.ram, d, va, acc)
                    == if acc.user && kernel then None else Some(4096 * FirstFree(s.pages, 0) + va % 4096)
    {
      NoPageAccess(s, d, va, i, j, kernel, acc, strict, s');
    }
  }

  /** After do_wp_page the page at the address can be written by the supervisor, and by a user
      program exactly if the table is open to users. */
  lemma WpFaultAccess(s: Sys, d: nat, va: nat, acc: Access, strict: bool)
    requires Rights(s) && va < 0xC000_0000
    requires var i, j := va / 0x40_0000, va / 4096 % 1024;
      Inv(s, strict) && Enabled(s, WriteFault(d, i, j)) && WpFault(s, d, i, j).Some?
    ensures var i, j := va / 0x40_0000, va / 4096 % 1024; var s' := WpFault(s, d, i, j).value;
      Translate(s'.ram, d, va, acc) ==
        if acc.user && !User(Pde(s, d, i)) then None else Some(4096 * FaultFrame(s, d, i, j) + va % 4096)
  {
    var i, j := va / 0x40_0000, va / 4096 % 1024;
    var s' := WpFault(s, d, i, j).value;
    WpFaultRights(s, d, i, j, strict);
    WpFaultWords(s, d, i, j, d, i, j, strict);
    EntryBits(FaultFrame(s, d, i, j), USER_RW, Pte(s', d, i, j));
    SlotAccess(s', d, va, acc);
  }

  /** After a fork the child reads what the parent's entry opens to users, and neither of the two
      writes anything: every first write is a fault. */
  lemma ForkAccess(s: Sys, src: nat, dst: nat, va: nat, acc: Access, strict: bool)
    requires Inv(s, strict) && Rights(s) && Enabled(s, Fork(src, dst)) && CopyPage(s, src, dst).Some? && va < 0xC000_0000
    ensures var s', pte := CopyPage(s, src, dst).value, Pte(s, src, va / 0x40_0000, va / 4096 % 1024);
      && (acc.user && acc.write ==> Translate(s'.ram, src, va, acc) == None)
      && Translate(s'.ram, dst, va, acc) ==
           if pte == 0 || (acc.user && (acc.write || !User(pte))) then None else Some(4096 * FrameOf(pte) + va % 4096)
  {
    var s', i, j := CopyPage(s, src, dst).value, va / 0x40_0000, va / 4096 % 1024;
    ForkRights(s, src, dst, strict);
    ForkWords.ForkWords(s, src, dst, strict);
    SharedBits(s, src, i, j, strict);
    assert Protected(s, s', src, src, i, j) && Protected(s, s', src, dst, i, j) && UserTable(s, s', src, dst, i);
    SlotAccess(s', src, va, acc);
    SlotAccess(s', dst, va, acc);
  }

  /** And after its write fault the child may write, whatever the parent's table was open to. */
  lemma ChildMayWrite(s: Sys, src: nat, dst: nat, va: nat, strict: bool)
    requires Inv(s, strict) && Rights(s) && Enabled(s, Fork(src, dst)) && CopyPage(s, src, dst).Some? && va < 0xC000_0000
    requires var i, j := va / 0x40_0000, va / 4096 % 1024;
      Pte(s, src, i, j) != 0 && WpFault(CopyPage(s, src, dst).value, dst, i, j).Some?
    ensures var s' := WpFault(CopyPage(s, src, dst).value, dst, va / 0x40_0000, va / 4096 % 1024).value;
      Translate(s'.ram, dst, va, USER_WRITE).Some?
  {
    var s1, i, j := CopyPage(s, src, dst).value, va / 0x40_0000, va / 4096 % 1024;
    CopyPageCopies(s, src, dst, strict);
    ForkRights(s, src, dst, strict);
    ForkWords.ForkWords(s, src, dst, strict);
    SharedBits(s, src, i, j, strict);
    assert Protected(s, s1, src, dst, i, j) && UserTable(s, s1, src, dst, i);
    WpFaultAccess(s1, dst, va, USER_WRITE, strict);
  }
}
