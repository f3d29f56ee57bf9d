/** The kernel map in every address space: what reset_paging builds is what a fork passes on, and
    it stays in the child. */
module KernelMap {
  import opened Frames
  import opened Paging
  import opened Mmu
  import opened Wrappers
  import opened CowInvariant
  import opened CowRefinement
  import opened CowRuns
  import opened CowAside
  import opened ForkWords
  import BootPaging

  /** The boot directory and its c tables. */
  predicate MapFrame(f: nat, c: nat) {
    KERNEL_DIR <= f < BootPaging.TABLE_FRAME + c
  }

  /** They hold the kernel map, are in use and have no other role. */
  ghost predicate MapSafe(s: Sys, c: nat) {
    && 0 < c <= BootPaging.MAX_TABLES && BootPaging.MapBuilt(s.ram, c)
    && forall f {:trigger Aside(s, f)} :: 0 <= f && MapFrame(f, c) ==> Aside(s, f)
  }

  /** Directory d has the boot directory's words in the kernel half. */
  ghost predicate SeesKernel(s: Sys, d: nat) {
    forall w :: USER_DIRS <= w < ENTRIES ==> Pde(s, d, w) == Pde(s, KERNEL_DIR, w)
  }

  lemma MapIs(s: Sys, d: nat, c: nat, a: nat, acc: Access)
    requires MapSafe(s, c) && SeesKernel(s, d) && a < c * 0x40_0000
    ensures PAGE_OFFSET + a < 0x1_0000_0000
    ensures Translate(s.ram, d, PAGE_OFFSET + a, acc) == if acc.user then None else Some(a)
  {
    forall w | 768 <= w < 1024 ensures Peek(s.ram, d, w) == Peek(s.ram, KERNEL_DIR, w) {
      assert Pde(s, d, w) == Pde(s, KERNEL_DIR, w);
    }
    BootPaging.KernelMapSeen(s.ram, d, c, a, acc);
  }

  /** What reset_paging leaves is safe. */
  lemma BootIsSafe(ram: seq<Frame>, pages: seq<Page>, c: nat)
    requires 0 < c <= BootPaging.MAX_TABLES && |ram| == 1024 * c
    requires BootPaging.MapBuilt(ram, c) && BootPaging.MemMapBuilt(pages, c, 1024 * c)
    ensures Booted(Sys(ram, pages, {}, map[])) && MapSafe(Sys(ram, pages, {}, map[]), c)
  {
    var s := Sys(ram, pages, {}, map[]);
    forall f | 0 <= f && MapFrame(f, c) ensures Aside(s, f) { assert Refs(s, f) == {}; }
  }

  // ----- the map stays

  lemma MapFramesSame(s: Sys, s': Sys, c: nat)
    requires MapSafe(s, c) && forall f {:trigger Aside(s, f)} :: 0 <= f && MapFrame(f, c) ==> Kept(s, s', f)
    ensures MapSafe(s', c) && forall w :: Pde(s', KERNEL_DIR, w) == Pde(s, KERNEL_DIR, w)
  {
    forall f | 0 <= f && MapFrame(f, c) ensures Aside(s', f) && f < |s.ram| && f < |s'.ram| && s'.ram[f] == s.ram[f] {
      assert Aside(s, f);
    }
    forall j | 0 <= j < c ensures BootPaging.TableFilled(s'.ram, j, 1024) && BootPaging.TableLinked(s'.ram, j) {
      assert BootPaging.TableFilled(s.ram, j, 1024) && BootPaging.TableLinked(s.ram, j);
      assert MapFrame(BootPaging.TABLE_FRAME + j, c) && MapFrame(KERNEL_DIR, c);
    }
    assert MapFrame(KERNEL_DIR, c);
  }

  /** No frame of the map is given back. */
  predicate Spares(step: Step, c: nat) {
    step.ReturnFrame? ==> !MapFrame(step.f, c)
  }

  lemma StepKeepsMap(s: Sys, step: Step, c: nat, strict: bool)
    requires Inv(s, strict) && Enabled(s, step) && Apply(s, step).Some? && MapSafe(s, c) && Spares(step, c)
    ensures MapSafe(Apply(s, step).value, c)
    ensures forall w :: Pde(Apply(s, step).value, KERNEL_DIR, w) == Pde(s, KERNEL_DIR, w)
  {
    forall f | 0 <= f && MapFrame(f, c) ensures Kept(s, Apply(s, step).value, f) {
      assert Aside(s, f);
      StepKeeps(s, step, f, strict);
    }
    MapFramesSame(s, Apply(s, step).value, c);
  }

  // ----- the kernel half of a directory stays

  /** The step is no fork into d, and no missing page in d's kernel half. */
  predicate LeavesHalf(step: Step, d: nat) {
    match step
    case Fork(_, dst) => dst != d
    case MissingFault(d', i, _, _) => d' != d || i < USER_DIRS
    case _ => true
  }

  lemma NoPageHalf(s: Sys, d0: nat, i0: nat, j0: nat, kernel: bool, d: nat, w: nat, strict: bool)
    requires Inv(s, strict) && d0 in s.dirs && i0 < ENTRIES && j0 < ENTRIES && NoPage(s, d0, i0, j0, kernel).Some?
    requires d in s.dirs && USER_DIRS <= w < ENTRIES && (d0 != d || i0 < USER_DIRS)
    ensures Pde(NoPage(s, d0, i0, j0, kernel).value, d, w) == Pde(s, d, w)
  {
    var attr := if kernel then KERNEL_RW else USER_RW;
    AllocInv(s, strict);
    AllocFresh(s, strict);
    var (f, s1) := Alloc(s).value;
    TableWords(s1, d0, i0, attr, d, w, strict);
    InstallTableInv(s1, d0, i0, attr, strict);
  }

  lemma WpFaultHalf(s: Sys, d0: nat, i0: nat, j0: nat, d: nat, w: nat, strict: bool)
    requires Inv(s, strict) && d0 in s.dirs && i0 < USER_DIRS && j0 < ENTRIES && Pte(s, d0, i0, j0) != 0
    requires WpFault(s, d0, i0, j0).Some? && d in s.dirs && w < ENTRIES
    ensures Pde(WpFault(s, d0, i0, j0).value, d, w) == Pde(s, d, w)
  {
    SlotPath(s, d0, i0, j0, strict);
    if PageOf(s, FrameOf(Pte(s, d0, i0, j0))).count != 1 { AllocFresh(s, strict); }
  }

  lemma StepKeepsHalf(s: Sys, step: Step, d: nat, w: nat, strict: bool)
    requires Inv(s, strict) && Enabled(s, step) && Apply(s, step).Some? && LeavesHalf(step, d)
    requires d in s.dirs && USER_DIRS <= w < ENTRIES
    ensures d in Apply(s, step).value.dirs && Pde(Apply(s, step).value, d, w) == Pde(s, d, w)
  {
    match step
    case NewDir(_) => AllocFresh(s, strict);
    case Fork(src, dst) =>
      ForkWords.ForkWords(s, src, dst, strict);
      assert SameDirWord(s, Apply(s, step).value, d, w);
    case WriteFault(d0, i, j) => WpFaultHalf(s, d0, i, j, d, w, strict);
    case MissingFault(d0, i, j, kernel) =>
      NoPageHalf(s, d0, i, j, kernel, d, w, strict);
      NoPageKeepsDirs(s, d0, i, j, kernel);
    case Write(d0, i, j, _, _) => SlotPath(s, d0, i, j, strict);
    case TakeFrame => AllocFresh(s, strict);
    case ReturnFrame(_) =>
  }

  // ----- runs

  /** A fork gives the child the kernel map. */
  lemma ForkSeesKernel(s: Sys, src: nat, dst: nat, c: nat, strict: bool)
    requires Inv(s, strict) && Enabled(s, Fork(src, dst)) && CopyPage(s, src, dst).Some? && MapSafe(s, c)
    ensures SeesKernel(CopyPage(s, src, dst).value, dst) && MapSafe(CopyPage(s, src, dst).value, c)
  {
    var s' := CopyPage(s, src, dst).value;
    StepKeepsMap(s, Fork(src, dst), c, strict);
    assert MapFrame(KERNEL_DIR, c) && Aside(s, KERNEL_DIR);
    forall w | USER_DIRS <= w < ENTRIES ensures Pde(s', dst, w) == Pde(s', KERNEL_DIR, w) {
      ForkKernelHalf(s, src, dst, w, strict);
    }
  }

  lemma StepSeesKernel(s: Sys, step: Step, d: nat, c: nat, strict: bool)
    requires Inv(s, strict) && Enabled(s, step) && Apply(s, step).Some? && MapSafe(s, c) && Spares(step, c)
    requires d in s.dirs && SeesKernel(s, d) && (LeavesHalf(step, d) || step.Fork?)
    ensures var s' := Apply(s, step).value; MapSafe(s', c) && d in s'.dirs && SeesKernel(s', d)
  {
    var s' := Apply(s, step).value;
    StepKeepsMap(s, step, c, strict);
    if step.Fork? && step.dst == d {
      ForkSeesKernel(s, step.src, d, c, strict);
      CopyPageCopies(s, step.src, d, strict);
    } else {
      forall w | USER_DIRS <= w < ENTRIES ensures d in s'.dirs && Pde(s', d, w) == Pde(s', KERNEL_DIR, w) {
        StepKeepsHalf(s, step, d, w, strict);
        assert Pde(s, d, w) == Pde(s, KERNEL_DIR, w);
      }
      assert d in s'.dirs by { StepKeepsHalf(s, step, d, USER_DIRS, strict); }
    }
  }

  /** From boot on the map itself is never touched. */
  lemma {:induction false} RunKeepsMap(s: Sys, steps: seq<Step>, c: nat, strict: bool)
    requires Inv(s, strict) && Legal(s, steps) && Run(s, steps).Some? && MapSafe(s, c)
    requires forall k :: 0 <= k < |steps| ==> Spares(steps[k], c)
    ensures MapSafe(Run(s, steps).value, c)
    decreases |steps|
  {
    if steps != [] {
      StepKeepsMap(s, steps[0], c, strict);
      StepRefines(s, steps[0], strict);
      RunKeepsMap(Apply(s, steps[0]).value, steps[1..], c, strict);
    }
  }

  /** No step of the run gives a frame of the map back, or answers a missing page in the kernel
      half of d. */
  predicate KeepsMap(steps: seq<Step>, d: nat, c: nat) {
    forall k :: 0 <= k < |steps| ==> Spares(steps[k], c) && (LeavesHalf(steps[k], d) || steps[k].Fork?)
  }

  lemma {:induction false} RunSeesKernel(s: Sys, steps: seq<Step>, d: nat, c: nat, strict: bool)
    requires Inv(s, strict) && Legal(s, steps) && Run(s, steps).Some? && KeepsMap(steps, d, c)
    requires MapSafe(s, c) && d in s.dirs && SeesKernel(s, d)
    ensures MapSafe(Run(s, steps).value, c) && SeesKernel(Run(s, steps).value, d)
    decreases |steps|
  {
    if steps != [] {
      StepSeesKernel(s, steps[0], d, c, strict);
      StepRefines(s, steps[0], strict);
      RunSeesKernel(Apply(s, steps[0]).value, steps[1..], d, c, strict);
    }
  }

  /** After a fork, and in every state of every run from there, the child sees each physical
      address below the mapped limit at PAGE_OFFSET + itself, from supervisor mode only, until
      a page of its kernel half is missing. */
  lemma ChildSeesKernel(s: Sys, src: nat, dst: nat, steps: seq<Step>, c: nat, a: nat, acc: Access, strict: bool)
    requires Inv(s, strict) && Enabled(s, Fork(src, dst)) && CopyPage(s, src, dst).Some? && MapSafe(s, c)
    requires var s1 := CopyPage(s, src, dst).value; Legal(s1, steps) && Run(s1, steps).Some?
    requires KeepsMap(steps, dst, c) && a < c * 0x40_0000
    ensures PAGE_OFFSET + a < 0x1_0000_0000
    ensures var s' := Run(CopyPage(s, src, dst).value, steps).value;
      Translate(s'.ram, dst, PAGE_OFFSET + a, acc) == if acc.user then None else Some(a)
  {
    var s1 := CopyPage(s, src, dst).value;
    ForkSeesKernel(s, src, dst, c, strict);
    CopyPageCopies(s, src, dst, strict);
    RunSeesKernel(s1, steps, dst, c, strict);
    MapIs(Run(s1, steps).value, dst, c, a, acc);
  }
}
