/** Frames without a paging role: no paging step touches one that is in use, and no write to one
    is seen by the paging code. */
module CowAside {
  import opened Frames
  import opened Paging
  import opened Wrappers
  import opened CowInvariant
  import opened CowRefinement
  import opened CowRuns

  /** Frame f is no directory and no table, and no entry names it. */
  ghost predicate NoRole(s: Sys, f: nat) {
    f !in s.dirs && f !in s.owner && Refs(s, f) == {}
  }

  ghost predicate Aside(s: Sys, f: nat) {
    f < |s.ram| && Live(s, f) && NoRole(s, f)
  }

  /** Frame f keeps its contents and its record, and gets no role. */
  ghost predicate Kept(s: Sys, s': Sys, f: nat) {
    Aside(s', f) && f < |s.ram| && f < |s.pages| && s'.ram[f] == s.ram[f] && s'.pages[f] == s.pages[f]
  }

  lemma KeptTwice(s: Sys, s1: Sys, s': Sys, f: nat)
    requires Kept(s, s1, f) && Kept(s1, s', f)
    ensures Kept(s, s', f)
  {
  }

  // ----- no paging step touches a used frame without a role

  lemma AllocKeeps(s: Sys, f: nat, strict: bool)
    requires Inv(s, strict) && Aside(s, f) && Alloc(s).Some?
    ensures Kept(s, Alloc(s).value.1, f)
  {
    AllocInv(s, strict);
    AllocFresh(s, strict);
  }

  lemma CreateDirKeeps(s: Sys, f: nat, strict: bool)
    requires Inv(s, strict) && Aside(s, f) && CreateDir(s).Some?
    ensures Kept(s, CreateDir(s).value.1, f)
  {
    AllocKeeps(s, f, strict);
    AllocFresh(s, strict);
    RefsSame(Alloc(s).value.1, CreateDir(s).value.1, f);
  }

  lemma InstallTableKeeps(s: Sys, d: nat, i: nat, attr: nat, f: nat, strict: bool)
    requires Inv(s, strict) && Aside(s, f) && d in s.dirs && i < ENTRIES && 0 < attr < FRAME_SIZE
    requires InstallTable(s, d, i, attr).Some?
    ensures Kept(s, InstallTable(s, d, i, attr).value, f)
  {
    AllocKeeps(s, f, strict);
    AllocFresh(s, strict);
    InstallTableInv(s, d, i, attr, strict);
  }

  /** No word of a table names f. */
  lemma NotNamed(s: Sys, t: nat, j: nat, f: nat)
    requires NoRole(s, f) && t in s.owner && j < ENTRIES
    ensures Peek(s.ram, t, j) != 0 ==> FrameOf(Peek(s.ram, t, j)) != f
  {
    assert Names(s, t, j, f) ==> (t, j) in Refs(s, f);
  }

  /** The table words changed at most to words that do not name f. */
  lemma StaysUnnamed(s: Sys, s': Sys, f: nat)
    requires NoRole(s, f) && s'.owner.Keys == s.owner.Keys
    requires forall t, j :: t in s.owner && 0 <= j < ENTRIES ==>
      Peek(s'.ram, t, j) == Peek(s.ram, t, j) || Peek(s'.ram, t, j) == 0 || FrameOf(Peek(s'.ram, t, j)) != f
    ensures Refs(s', f) == {}
  {
    forall t, j | t in s'.owner && 0 <= j < ENTRIES ensures !Names(s', t, j, f) { NotNamed(s, t, j, f); }
  }

  lemma ShareEntryKeeps(s: Sys, src: nat, dst: nat, i: nat, j: nat, f: nat, strict: bool)
    requires Inv(s, strict) && Aside(s, f) && src in s.dirs && dst in s.dirs && src != dst && i < USER_DIRS && j < ENTRIES
    requires Pde(s, src, i) != 0 && Pde(s, dst, i) != 0
    ensures Kept(s, ShareEntry(s, src, dst, i, j), f)
  {
    var s', t, u := ShareEntry(s, src, dst, i, j), FrameOf(Pde(s, src, i)), FrameOf(Pde(s, dst, i));
    SlotPath(s, src, i, j, strict);
    SlotPath(s, dst, i, j, strict);
    ShareEntryWords(s, src, dst, i, j, strict);
    NotNamed(s, t, j, f);
    StaysUnnamed(s, s', f);
  }

  lemma {:induction false} ShareEntriesKeep(ss: seq<Sys>, src: nat, dst: nat, i: nat, n: nat, f: nat, strict: bool)
    requires n < |ss| && Aside(ss[0], f)
    requires forall k :: 0 <= k < n ==> RowStep(ss, src, dst, i, k, strict)
    ensures Kept(ss[0], ss[n], f)
    decreases n
  {
    if n > 0 {
      ShareEntriesKeep(ss, src, dst, i, n - 1, f, strict);
      assert RowStep(ss, src, dst, i, n - 1, strict);
      ShareEntryKeeps(ss[n - 1], src, dst, i, n - 1, f, strict);
      KeptTwice(ss[0], ss[n - 1], ss[n], f);
    }
  }

  lemma DirWordKeeps(s: Sys, d: nat, i: nat, v: Word, f: nat, strict: bool)
    requires Inv(s, strict) && Aside(s, f) && d in s.dirs && (v == 0 || USER_DIRS <= i)
    ensures Kept(s, SetPte(s, d, i, v), f)
  {
    SetDirWordInv(s, d, i, v, strict);
  }

  lemma CopySlotKeeps(s: Sys, src: nat, dst: nat, i: nat, f: nat, strict: bool)
    requires Inv(s, strict) && Aside(s, f) && src in s.dirs && dst in s.dirs && src != dst && i < USER_DIRS
    requires CopySlot(s, src, dst, i).Some?
    ensures Kept(s, CopySlot(s, src, dst, i).value, f)
  {
    if Pde(s, src, i) != 0 {
      var s1 := InstallTable(s, dst, i, USER_RW).value;
      InstallTableKeeps(s, dst, i, USER_RW, f, strict);
      InstallTableInv(s, dst, i, USER_RW, strict);
      AllocFresh(s, strict);
      assert Pde(s1, src, i) == Pde(s, src, i);
      var ss := RowTrace(s1, src, dst, i, strict);
      ShareEntriesKeep(ss, src, dst, i, ENTRIES, f, strict);
    } else {
      DirWordKeeps(s, dst, i, 0, f, strict);
    }
  }

  lemma {:induction false} CopySlotsKeep(s: Sys, src: nat, dst: nat, n: nat, f: nat, strict: bool)
    requires Inv(s, strict) && Aside(s, f) && src in s.dirs && dst in s.dirs && src != dst && n <= USER_DIRS
    requires CopySlots(s, src, dst, n).Some?
    ensures Kept(s, CopySlots(s, src, dst, n).value, f)
  {
    if n > 0 {
      var s1 := CopySlots(s, src, dst, n - 1).value;
      CopySlotsKeep(s, src, dst, n - 1, f, strict);
      SlotsSofar(s, src, dst, n - 1, strict);
      CopySlotKeeps(s1, src, dst, n - 1, f, strict);
      KeptTwice(s, s1, CopySlots(s, src, dst, n).value, f);
    }
  }

  lemma SlotsSofar(s: Sys, src: nat, dst: nat, n: nat, strict: bool)
    requires Inv(s, strict) && src in s.dirs && dst in s.dirs && src != dst && n <= USER_DIRS
    requires CopySlots(s, src, dst, n).Some?
    ensures Inv(CopySlots(s, src, dst, n).value, strict) && CopySlots(s, src, dst, n).value.dirs == s.dirs
  {
    CopySlotsCopies(s, src, dst, n, strict);
  }

  lemma {:induction false} KernelSlotsKeep(s: Sys, dst: nat, n: nat, f: nat, strict: bool)
    requires Inv(s, strict) && Aside(s, f) && dst in s.dirs && USER_DIRS <= n <= ENTRIES
    ensures var s' := CopyKernelSlots(s, dst, n); Kept(s, s', f) && Inv(s', strict) && s'.dirs == s.dirs
  {
    if n > USER_DIRS {
      KernelSlotsKeep(s, dst, n - 1, f, strict);
      var s1 := CopyKernelSlots(s, dst, n - 1);
      SetDirWordInv(s1, dst, n - 1, Pde(s1, KERNEL_DIR, n - 1), strict);
      DirWordKeeps(s1, dst, n - 1, Pde(s1, KERNEL_DIR, n - 1), f, strict);
      KeptTwice(s, s1, CopyKernelSlots(s, dst, n), f);
    }
  }

  lemma CopyPageKeeps(s: Sys, src: nat, dst: nat, f: nat, strict: bool)
    requires Inv(s, strict) && Aside(s, f) && src in s.dirs && dst in s.dirs && src != dst && CopyPage(s, src, dst).Some?
    ensures Kept(s, CopyPage(s, src, dst).value, f)
  {
    var s1 := CopySlots(s, src, dst, USER_DIRS).value;
    CopySlotsKeep(s, src, dst, USER_DIRS, f, strict);
    SlotsSofar(s, src, dst, USER_DIRS, strict);
    KernelSlotsKeep(s1, dst, ENTRIES, f, strict);
    KeptTwice(s, s1, CopyPage(s, src, dst).value, f);
  }

  lemma WpFaultKeeps(s: Sys, d: nat, i: nat, j: nat, f: nat, strict: bool)
    requires Inv(s, strict) && Aside(s, f) && d in s.dirs && i < USER_DIRS && j < ENTRIES && Pte(s, d, i, j) != 0
    requires WpFault(s, d, i, j).Some?
    ensures Kept(s, WpFault(s, d, i, j).value, f)
  {
    var t, x, s' := FrameOf(Pde(s, d, i)), FrameOf(Pte(s, d, i, j)), WpFault(s, d, i, j).value;
    SlotPath(s, d, i, j, strict);
    NotNamed(s, t, j, f);
    EntryWord(x, USER_RW);
    if PageOf(s, x).count != 1 {
      AllocFresh(s, strict);
      EntryWord(Alloc(s).value.0, USER_RW);
    }
    StaysUnnamed(s, s', f);
  }

  lemma MapFreshKeeps(s: Sys, t: nat, j: nat, x: nat, attr: nat, f: nat)
    requires Aside(s, f) && t in s.owner && j < ENTRIES && x != f && x < MAX_FRAMES && attr in {USER_RW, KERNEL_RW}
    ensures Kept(s, MapFresh(s, t, j, x, attr), f)
  {
    EntryWord(x, attr);
    StaysUnnamed(s, MapFresh(s, t, j, x, attr), f);
  }

  lemma NoPageKeeps(s: Sys, d: nat, i: nat, j: nat, kernel: bool, f: nat, strict: bool)
    requires Inv(s, strict) && Aside(s, f) && d in s.dirs && i < ENTRIES && j < ENTRIES
    requires NoPage(s, d, i, j, kernel).Some?
    ensures Kept(s, NoPage(s, d, i, j, kernel).value, f)
  {
    var attr := if kernel then KERNEL_RW else USER_RW;
    AllocInv(s, strict);
    AllocFresh(s, strict);
    AllocKeeps(s, f, strict);
    var (x, s1) := Alloc(s).value;
    InstallTableInv(s1, d, i, attr, strict);
    InstallTableKeeps(s1, d, i, attr, f, strict);
    var s2 := InstallTable(s1, d, i, attr).value;
    MapFreshKeeps(s2, FrameOf(Pde(s2, d, i)), j, x, attr, f);
    KeptTwice(s, s1, s2, f);
    KeptTwice(s, s2, NoPage(s, d, i, j, kernel).value, f);
  }

  lemma StoreKeeps(s: Sys, d: nat, i: nat, j: nat, w: nat, v: Word, f: nat, strict: bool)
    requires Inv(s, strict) && Aside(s, f) && d in s.dirs && i < USER_DIRS && j < ENTRIES && Pte(s, d, i, j) != 0
    ensures Kept(s, Store(s, d, i, j, w, v), f)
  {
    SlotPath(s, d, i, j, strict);
    NotNamed(s, FrameOf(Pde(s, d, i)), j, f);
    RefsSame(s, Store(s, d, i, j, w, v), f);
  }

  /** No step but its own return touches a frame in use that has no paging role, or gives it one. */
  lemma StepKeeps(s: Sys, step: Step, f: nat, strict: bool)
    requires Inv(s, strict) && Enabled(s, step) && Apply(s, step).Some? && Aside(s, f) && step != ReturnFrame(f)
    ensures Kept(s, Apply(s, step).value, f)
  {
    match step
    case NewDir(_) => CreateDirKeeps(s, f, strict);
    case Fork(src, dst) => CopyPageKeeps(s, src, dst, f, strict);
    case WriteFault(d, i, j) => WpFaultKeeps(s, d, i, j, f, strict);
    case MissingFault(d, i, j, kernel) => NoPageKeeps(s, d, i, j, kernel, f, strict);
    case Write(d, i, j, w, v) => StoreKeeps(s, d, i, j, w, v, f, strict);
    case TakeFrame => AllocKeeps(s, f, strict);
    case ReturnFrame(g) => RefsSame(s, Apply(s, step).value, f);
  }

  // ----- no write to frames without a role is seen

  /** s' differs from s in frames of `changed` only, and in their records. */
  ghost predicate ChangedOnly(s: Sys, s': Sys, changed: set<nat>) {
    && s'.dirs == s.dirs && s'.owner == s.owner && |s'.ram| == |s.ram| && |s'.pages| == |s.pages|
    && (forall f :: 0 <= f < |s.ram| && f !in changed ==> s'.ram[f] == s.ram[f])
    && (forall f :: 0 <= f < |s.pages| && f !in changed ==> s'.pages[f] == s.pages[f])
  }

  /** Changes to frames without a paging role keep the invariant and every view. */
  lemma OutsideChange(s: Sys, s': Sys, changed: set<nat>, strict: bool)
    requires Inv(s, strict) && ChangedOnly(s, s', changed) && forall f :: f in changed ==> NoRole(s, f)
    ensures Inv(s', strict) && Abs(s') == Abs(s)
    ensures forall f :: NoRole(s, f) ==> NoRole(s', f)
  {
    forall u ensures Refs(s', u) == Refs(s, u) { RefsSame(s, s', u); }
    forall d, i | d in s'.dirs && 0 <= i < USER_DIRS ensures SlotOk(s', d, i) {
      assert SlotOk(s, d, i);
    }
    forall t, j | t in s'.owner && 0 <= j < ENTRIES ensures EntryOk(s', t, j, strict) {
      assert EntryOk(s, t, j, strict);
      NamedHasRole(s, t, j, changed);
    }
    forall d, i, j | d in s.dirs && 0 <= i < USER_DIRS && 0 <= j < ENTRIES ensures Agree(s, s', d, i, j) {
      SlotUnchanged(s, s', changed, d, i, j, strict);
    }
    AbsSame(s, s');
  }

  lemma NamedHasRole(s: Sys, t: nat, j: nat, changed: set<nat>)
    requires t in s.owner && j < ENTRIES && forall f :: f in changed ==> NoRole(s, f)
    ensures Peek(s.ram, t, j) != 0 ==> FrameOf(Peek(s.ram, t, j)) !in changed
  {
    if FrameOf(Peek(s.ram, t, j)) in changed { NotNamed(s, t, j, FrameOf(Peek(s.ram, t, j))); }
  }

  lemma SlotUnchanged(s: Sys, s': Sys, changed: set<nat>, d: nat, i: nat, j: nat, strict: bool)
    requires Inv(s, strict) && ChangedOnly(s, s', changed) && forall f :: f in changed ==> NoRole(s, f)
    requires d in s.dirs && i < USER_DIRS && j < ENTRIES
    ensures Agree(s, s', d, i, j)
  {
    SlotPath(s, d, i, j, strict);
    if Pde(s, d, i) != 0 { NamedHasRole(s, FrameOf(Pde(s, d, i)), j, changed); }
  }
}
