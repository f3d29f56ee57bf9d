/** Copy-on-write refines eager copying: over every run of the paging operations the views
    of all address spaces are those of a machine that copies pages outright. */
module CowRefinement {
  import opened Frames
  import opened Paging
  import Mmu
  import opened Wrappers
  import opened CowInvariant

  // ----- slots

  /** What address space d sees in slot (i, j). */
  ghost function Slot(s: Sys, d: nat, i: nat, j: nat): Option<Frame> {
    if Mapped(s, d, i, j) then Some(s.ram[FrameOf(Pte(s, d, i, j))]) else None
  }

  /** Two states show the same page (or none) in two slots. */
  ghost predicate Agree(s: Sys, s': Sys, d: nat, i: nat, j: nat) {
    Slot(s', d, i, j) == Slot(s, d, i, j)
  }

  lemma ViewsAgree(s: Sys, s': Sys, d: nat)
    requires forall i, j :: 0 <= i < USER_DIRS && 0 <= j < ENTRIES ==> Agree(s, s', d, i, j)
    ensures View(s', d) == View(s, d)
  {
    forall i, j | 0 <= i < USER_DIRS && 0 <= j < ENTRIES
      ensures Mapped(s', d, i, j) == Mapped(s, d, i, j)
      ensures Mapped(s, d, i, j) ==> s'.ram[FrameOf(Pte(s', d, i, j))] == s.ram[FrameOf(Pte(s, d, i, j))]
    {
      assert Agree(s, s', d, i, j);
    }
  }

  /** A slot's path in a valid state: directory word, table, user page. */
  lemma SlotPath(s: Sys, d: nat, i: nat, j: nat, strict: bool)
    requires Inv(s, strict) && d in s.dirs && i < USER_DIRS && j < ENTRIES
    ensures Pde(s, d, i) != 0 ==>
      var t := FrameOf(Pde(s, d, i));
      && t in s.owner && s.owner[t] == (d, i) && t < |s.ram|
      && (Pte(s, d, i, j) != 0 ==>
            var x := FrameOf(Pte(s, d, i, j));
            x < |s.ram| && x !in s.dirs && x !in s.owner && (t, j) in Refs(s, x) && Live(s, x))
  {
    assert SlotOk(s, d, i);
    if Pde(s, d, i) != 0 && Pte(s, d, i, j) != 0 {
      assert EntryOk(s, FrameOf(Pde(s, d, i)), j, strict);
      assert Names(s, FrameOf(Pde(s, d, i)), j, FrameOf(Pte(s, d, i, j)));
    }
  }

  // ----- one operation at a time

  lemma AllocAgrees(s: Sys, d: nat, i: nat, j: nat, strict: bool)
    requires Inv(s, strict) && Alloc(s).Some? && d in s.dirs && i < USER_DIRS && j < ENTRIES
    ensures Agree(s, Alloc(s).value.1, d, i, j)
  {
    AllocFresh(s, strict);
    SlotPath(s, d, i, j, strict);
  }

  lemma InstallTableAgrees(s: Sys, d0: nat, i0: nat, attr: nat, d: nat, i: nat, j: nat, strict: bool)
    requires Inv(s, strict) && d0 in s.dirs && i0 < ENTRIES && 0 < attr < FRAME_SIZE
    requires InstallTable(s, d0, i0, attr).Some? && d in s.dirs && i < USER_DIRS && j < ENTRIES
    ensures var s' := InstallTable(s, d0, i0, attr).value;
      if (d, i) == (d0, i0) then Pte(s', d, i, j) == 0 && Slot(s', d, i, j) == None else Agree(s, s', d, i, j)
  {
    AllocFresh(s, strict);
    SlotPath(s, d, i, j, strict);
    InstallTableInv(s, d0, i0, attr, strict);
  }

  /** RAM after sharing: the two table words hold the write-protected entry, all else is as before. */
  lemma ShareEntryWords(s: Sys, src: nat, dst: nat, i: nat, j: nat, strict: bool)
    requires Inv(s, strict) && src in s.dirs && dst in s.dirs && src != dst && i < USER_DIRS && j < ENTRIES
    requires Pde(s, src, i) != 0 && Pde(s, dst, i) != 0
    ensures var s' := ShareEntry(s, src, dst, i, j);
      var t, u := FrameOf(Pde(s, src, i)), FrameOf(Pde(s, dst, i));
      var p := Protect(Peek(s.ram, t, j));
      && s'.dirs == s.dirs && |s'.ram| == |s.ram|
      && FrameOf(p) == FrameOf(Peek(s.ram, t, j)) && (p == 0 <==> Peek(s.ram, t, j) == 0)
      && Peek(s'.ram, t, j) == p && Peek(s'.ram, u, j) == p
      && (forall f, w :: 0 <= f && 0 <= w && (f, w) != (t, j) && (f, w) != (u, j) ==> Peek(s'.ram, f, w) == Peek(s.ram, f, w))
      && (forall f :: 0 <= f < |s.ram| && f != t && f != u ==> s'.ram[f] == s.ram[f])
  {
    SlotPath(s, src, i, j, strict);
    SlotPath(s, dst, i, j, strict);
    assert EntryOk(s, FrameOf(Pde(s, src, i)), j, strict);
    Mmu.ProtectBits(Peek(s.ram, FrameOf(Pde(s, src, i)), j));
  }

  lemma ShareEntryAgrees(s: Sys, src: nat, dst: nat, i0: nat, j0: nat, d: nat, i: nat, j: nat, strict: bool)
    requires Inv(s, strict) && src in s.dirs && dst in s.dirs && src != dst && i0 < USER_DIRS && j0 < ENTRIES
    requires Pde(s, src, i0) != 0 && Pde(s, dst, i0) != 0 && d in s.dirs && i < USER_DIRS && j < ENTRIES
    ensures var s' := ShareEntry(s, src, dst, i0, j0);
      if (d, i, j) == (dst, i0, j0) then Slot(s', d, i, j) == Slot(s, src, i0, j0) else Agree(s, s', d, i, j)
  {
    ShareEntryWords(s, src, dst, i0, j0, strict);
    SlotPath(s, src, i0, j0, strict);
    SlotPath(s, dst, i0, j0, strict);
    SlotPath(s, d, i, j, strict);
  }

  lemma WpCopyAgrees(s: Sys, d0: nat, i0: nat, j0: nat, d: nat, i: nat, j: nat, strict: bool)
    requires Inv(s, strict) && d0 in s.dirs && i0 < USER_DIRS && j0 < ENTRIES && Pte(s, d0, i0, j0) != 0
    requires PageOf(s, FrameOf(Pte(s, d0, i0, j0))).count != 1
    requires WpFault(s, d0, i0, j0).Some? && d in s.dirs && i < USER_DIRS && j < ENTRIES
    ensures Agree(s, WpFault(s, d0, i0, j0).value, d, i, j)
  {
    SlotPath(s, d0, i0, j0, strict);
    SlotPath(s, d, i, j, strict);
    AllocFresh(s, strict);
    EntryWord(Alloc(s).value.0, USER_RW);
  }

  lemma WpFaultAgrees(s: Sys, d0: nat, i0: nat, j0: nat, d: nat, i: nat, j: nat, strict: bool)
    requires Inv(s, strict) && d0 in s.dirs && i0 < USER_DIRS && j0 < ENTRIES && Pte(s, d0, i0, j0) != 0
    requires WpFault(s, d0, i0, j0).Some? && d in s.dirs && i < USER_DIRS && j < ENTRIES
    ensures Agree(s, WpFault(s, d0, i0, j0).value, d, i, j)
  {
    if PageOf(s, FrameOf(Pte(s, d0, i0, j0))).count != 1 {
      WpCopyAgrees(s, d0, i0, j0, d, i, j, strict);
    } else {
      SlotPath(s, d0, i0, j0, strict);
      SlotPath(s, d, i, j, strict);
      EntryWord(FrameOf(Pte(s, d0, i0, j0)), USER_RW);
    }
  }

  /** Two slots show the same frame. */
  predicate SameFrame(s: Sys, d: nat, i: nat, j: nat, d': nat, i': nat, j': nat) {
    Pte(s, d', i', j') != 0 && FrameOf(Pte(s, d', i', j')) == FrameOf(Pte(s, d, i, j))
  }

  /** A store through an entry reaches every slot that shows its frame, and no other. */
  lemma StoreReaches(s: Sys, d0: nat, i0: nat, j0: nat, w: nat, v: Word, d: nat, i: nat, j: nat, strict: bool)
    requires Inv(s, strict) && d0 in s.dirs && i0 < USER_DIRS && j0 < ENTRIES && w < FRAME_WORDS
    requires Pte(s, d0, i0, j0) != 0 && d in s.dirs && i < USER_DIRS && j < ENTRIES
    ensures var s' := Store(s, d0, i0, j0, w, v);
      if SameFrame(s, d0, i0, j0, d, i, j)
      then Slot(s, d, i, j).Some? && Slot(s', d, i, j) == Some(Slot(s, d, i, j).value[w := v])
      else Agree(s, s', d, i, j)
  {
    SlotPath(s, d0, i0, j0, strict);
    SlotPath(s, d, i, j, strict);
  }

  /** The word is as the store leaves it, or no other slot shows the frame. */
  ghost predicate StoreHarmless(s: Sys, d0: nat, i0: nat, j0: nat, w: nat, v: Word) {
    Peek(s.ram, FrameOf(Pte(s, d0, i0, j0)), w) == v ||
    forall d, i, j :: d in s.dirs && 0 <= i < USER_DIRS && 0 <= j < ENTRIES && (d, i, j) != (d0, i0, j0)
      ==> !SameFrame(s, d0, i0, j0, d, i, j)
  }

  /** A harmless store changes the one slot. */
  lemma StoreAgrees(s: Sys, d0: nat, i0: nat, j0: nat, w: nat, v: Word, d: nat, i: nat, j: nat, strict: bool)
    requires Inv(s, strict) && d0 in s.dirs && i0 < USER_DIRS && j0 < ENTRIES && w < FRAME_WORDS
    requires Pte(s, d0, i0, j0) != 0 && StoreHarmless(s, d0, i0, j0, w, v)
    requires d in s.dirs && i < USER_DIRS && j < ENTRIES
    ensures var s' := Store(s, d0, i0, j0, w, v);
      if (d, i, j) == (d0, i0, j0)
      then Slot(s, d, i, j).Some? && Slot(s', d, i, j) == Some(Slot(s, d, i, j).value[w := v])
      else Agree(s, s', d, i, j)
  {
    StoreReaches(s, d0, i0, j0, w, v, d, i, j, strict);
    SlotPath(s, d0, i0, j0, strict);
    SlotPath(s, d, i, j, strict);
    if SameFrame(s, d0, i0, j0, d, i, j) && (d, i, j) != (d0, i0, j0) {
      assert Slot(s, d, i, j).value[w := v] == Slot(s, d, i, j).value;
    }
  }

  /** A store through a writable entry is harmless: no other entry names the frame. */
  lemma WritableIsHarmless(s: Sys, d0: nat, i0: nat, j0: nat, w: nat, v: Word, strict: bool)
    requires Inv(s, strict) && d0 in s.dirs && i0 < USER_DIRS && j0 < ENTRIES
    requires Pte(s, d0, i0, j0) != 0 && Writable(Pte(s, d0, i0, j0))
    ensures StoreHarmless(s, d0, i0, j0, w, v)
  {
    SlotPath(s, d0, i0, j0, strict);
    var t := FrameOf(Pde(s, d0, i0));
    assert EntryOk(s, t, j0, strict);
    forall d, i, j | d in s.dirs && 0 <= i < USER_DIRS && 0 <= j < ENTRIES && (d, i, j) != (d0, i0, j0)
      ensures !SameFrame(s, d0, i0, j0, d, i, j)
    {
      SlotPath(s, d, i, j, strict);
    }
  }

  /** The processor lets supervisor stores through write-protected entries. Any store changes no
      other slot of any address space exactly when it is harmless. */
  lemma SupervisorStoreIsPrivate(s: Sys, d0: nat, i0: nat, j0: nat, w: nat, v: Word, strict: bool)
    requires Inv(s, strict) && d0 in s.dirs && i0 < USER_DIRS && j0 < ENTRIES && w < FRAME_WORDS
    requires Pte(s, d0, i0, j0) != 0
    ensures (forall d, i, j :: d in s.dirs && 0 <= i < USER_DIRS && 0 <= j < ENTRIES && (d, i, j) != (d0, i0, j0)
               ==> Agree(s, Store(s, d0, i0, j0, w, v), d, i, j))
        <==> StoreHarmless(s, d0, i0, j0, w, v)
  {
    var s' := Store(s, d0, i0, j0, w, v);
    SlotPath(s, d0, i0, j0, strict);
    forall d, i, j | d in s.dirs && 0 <= i < USER_DIRS && 0 <= j < ENTRIES && (d, i, j) != (d0, i0, j0)
      ensures Agree(s, s', d, i, j) <==>
        Peek(s.ram, FrameOf(Pte(s, d0, i0, j0)), w) == v || !SameFrame(s, d0, i0, j0, d, i, j)
    {
      StoreReaches(s, d0, i0, j0, w, v, d, i, j, strict);
      if SameFrame(s, d0, i0, j0, d, i, j) {
        var f := Slot(s, d, i, j).value;
        assert f[w := v] == f <==> f[w] == v;
      }
    }
  }

  lemma MapFreshAgrees(s: Sys, d0: nat, i0: nat, j0: nat, f: nat, attr: nat, d: nat, i: nat, j: nat, strict: bool)
    requires Inv(s, strict) && d0 in s.dirs && i0 < ENTRIES && j0 < ENTRIES && attr in {USER_RW, KERNEL_RW}
    requires Pde(s, d0, i0) != 0 && FrameOf(Pde(s, d0, i0)) in s.owner && s.owner[FrameOf(Pde(s, d0, i0))] == (d0, i0)
    requires f < |s.ram| && f !in s.dirs && f !in s.owner && s.ram[f] == ZeroFrame()
    requires d in s.dirs && i < USER_DIRS && j < ENTRIES
    ensures var s' := MapFresh(s, FrameOf(Pde(s, d0, i0)), j0, f, attr);
      if (d, i, j) == (d0, i0, j0) then Slot(s', d, i, j) == Some(ZeroFrame()) else Agree(s, s', d, i, j)
  {
    SlotPath(s, d, i, j, strict);
    EntryWord(f, attr);
  }

  lemma NoPageAgrees(s: Sys, d0: nat, i0: nat, j0: nat, kernel: bool, d: nat, i: nat, j: nat, strict: bool)
    requires Inv(s, strict) && d0 in s.dirs && i0 < ENTRIES && j0 < ENTRIES
    requires NoPage(s, d0, i0, j0, kernel).Some? && d in s.dirs && i < USER_DIRS && j < ENTRIES
    ensures var s' := NoPage(s, d0, i0, j0, kernel).value;
      if (d, i) != (d0, i0) then Agree(s, s', d, i, j)
      else Slot(s', d, i, j) == if j == j0 then Some(ZeroFrame()) else None
  {
    var attr := if kernel then KERNEL_RW else USER_RW;
    AllocInv(s, strict);
    AllocAgrees(s, d, i, j, strict);
    var (f, s1) := Alloc(s).value;
    AllocFresh(s1, strict);
    InstallTableInv(s1, d0, i0, attr, strict);
    InstallTableAgrees(s1, d0, i0, attr, d, i, j, strict);
    MapFreshAgrees(InstallTable(s1, d0, i0, attr).value, d0, i0, j0, f, attr, d, i, j, strict);
  }

  lemma SetDirWordAgrees(s: Sys, d0: nat, i0: nat, v: Word, d: nat, i: nat, j: nat, strict: bool)
    requires Inv(s, strict) && d0 in s.dirs && i0 < ENTRIES && (v == 0 || USER_DIRS <= i0)
    requires d in s.dirs && i < USER_DIRS && j < ENTRIES
    ensures var s' := SetPte(s, d0, i0, v);
      if (d, i) == (d0, i0) then Slot(s', d, i, j) == None else Agree(s, s', d, i, j)
  {
    SlotPath(s, d, i, j, strict);
  }

  // ----- copy_page

  /** The table of directory slot i has no entry. */
  ghost predicate EmptyRow(s: Sys, d: nat, i: nat) {
    forall j :: 0 <= j < ENTRIES ==> Pte(s, d, i, j) == 0
  }

  /** After n iterations of the inner loop for directory slot i. */
  ghost predicate RowShared(s: Sys, s': Sys, src: nat, dst: nat, i: nat, n: nat) {
    && s'.dirs == s.dirs && Pde(s', src, i) == Pde(s, src, i) && Pde(s', dst, i) == Pde(s, dst, i)
    && (forall j :: n <= j < ENTRIES ==> Pte(s', dst, i, j) == 0)
    && (forall j :: 0 <= j < n ==> Slot(s', dst, i, j) == Slot(s, src, i, j))
    && (forall d, i', j :: d in s.dirs && 0 <= i' < USER_DIRS && 0 <= j < ENTRIES && (d, i') != (dst, i)
          ==> Agree(s, s', d, i', j))
  }

  lemma RowSharedNext(s: Sys, s1: Sys, s': Sys, src: nat, dst: nat, i: nat, n: nat, n': nat, strict: bool)
    requires Inv(s1, strict) && src in s.dirs && dst in s.dirs && src != dst && i < USER_DIRS && n' == n + 1 <= ENTRIES
    requires s' == ShareEntry(s1, src, dst, i, n)
    requires Pde(s, src, i) != 0 && Pde(s, dst, i) != 0 && RowShared(s, s1, src, dst, i, n)
    ensures RowShared(s, s', src, dst, i, n')
  {
    ShareEntryKeepsDirs(s1, src, dst, i, n, strict);
    forall d, i', j | d in s.dirs && 0 <= i' < USER_DIRS && 0 <= j < ENTRIES && (d, i') != (dst, i)
      ensures Agree(s, s', d, i', j)
    {
      assert Agree(s, s1, d, i', j);
      ShareEntryAgrees(s1, src, dst, i, n, d, i', j, strict);
    }
    forall j | 0 <= j < n + 1 ensures Slot(s', dst, i, j) == Slot(s, src, i, j) {
      assert Agree(s, s1, src, i, n);
      ShareEntryAgrees(s1, src, dst, i, n, dst, i, j, strict);
    }
  }

  ghost predicate RowNext(ss: seq<Sys>, src: nat, dst: nat, i: nat, k: nat) {
    k + 1 < |ss| && ss[k + 1] == ShareEntry(ss[k], src, dst, i, k)
  }

  lemma {:induction false} RowAlong(ss: seq<Sys>, src: nat, dst: nat, i: nat, n: nat, strict: bool)
    requires n < |ss| && n <= ENTRIES && Inv(ss[0], strict) && src in ss[0].dirs && dst in ss[0].dirs && src != dst && i < USER_DIRS
    requires Pde(ss[0], src, i) != 0 && Pde(ss[0], dst, i) != 0 && EmptyRow(ss[0], dst, i)
    requires forall k :: 0 <= k < n ==> RowNext(ss, src, dst, i, k)
    ensures Inv(ss[n], strict) && RowShared(ss[0], ss[n], src, dst, i, n)
    decreases n
  {
    if n > 0 {
      RowAlong(ss, src, dst, i, n - 1, strict);
      assert RowNext(ss, src, dst, i, n - 1);
      ShareEntryInv(ss[n - 1], src, dst, i, n - 1, strict);
      RowSharedNext(ss[0], ss[n - 1], ss[n], src, dst, i, n - 1, n, strict);
    } else {
      RowSharedNone(ss[0], src, dst, i);
    }
  }

  lemma ShareEntriesRow(s: Sys, src: nat, dst: nat, i: nat, n: nat, strict: bool, s': Sys)
    requires Inv(s, strict) && src in s.dirs && dst in s.dirs && src != dst && i < USER_DIRS && n <= ENTRIES
    requires Pde(s, src, i) != 0 && Pde(s, dst, i) != 0 && EmptyRow(s, dst, i)
    requires s' == ShareEntries(s, src, dst, i, n)
    ensures Inv(s', strict) && RowShared(s, s', src, dst, i, n)
  {
    var ss := RowStates(s, src, dst, i, n);
    RowAlong(ss, src, dst, i, n, strict);
  }

  lemma StateAfter(s: Sys, src: nat, dst: nat, i: nat, k: nat, s1: Sys, s': Sys)
    requires s1 == ShareEntries(s, src, dst, i, k) && s' == ShareEntries(s, src, dst, i, k + 1)
    ensures s' == ShareEntry(s1, src, dst, i, k)
  {
  }

  ghost predicate StateIs(ss: seq<Sys>, s: Sys, src: nat, dst: nat, i: nat, k: nat) {
    k < |ss| && ss[k] == ShareEntries(s, src, dst, i, k)
  }

  function StatesOf(s: Sys, src: nat, dst: nat, i: nat, n: nat): (ss: seq<Sys>)
    ensures |ss| == n + 1 && forall k :: 0 <= k <= n ==> StateIs(ss, s, src, dst, i, k)
  {
    seq(n + 1, k requires 0 <= k => ShareEntries(s, src, dst, i, k))
  }

  lemma RowStates(s: Sys, src: nat, dst: nat, i: nat, n: nat) returns (ss: seq<Sys>)
    ensures |ss| == n + 1 && ss[0] == s && ss[n] == ShareEntries(s, src, dst, i, n)
    ensures forall k :: 0 <= k < n ==> RowNext(ss, src, dst, i, k)
  {
    ss := StatesOf(s, src, dst, i, n);
    assert StateIs(ss, s, src, dst, i, 0) && StateIs(ss, s, src, dst, i, n);
    forall k | 0 <= k < n ensures RowNext(ss, src, dst, i, k) {
      assert StateIs(ss, s, src, dst, i, k) && StateIs(ss, s, src, dst, i, k + 1);
      StateAfter(s, src, dst, i, k, ss[k], ss[k + 1]);
    }
  }

  /** Iteration k of the inner loop, in the states ss it passes through. */
  ghost predicate RowStep(ss: seq<Sys>, src: nat, dst: nat, i: nat, k: nat, strict: bool) {
    && k + 1 < |ss| && src != dst && i < USER_DIRS && k < ENTRIES
    && Inv(ss[k], strict) && src in ss[k].dirs && dst in ss[k].dirs && Pde(ss[k], src, i) != 0 && Pde(ss[k], dst, i) != 0
    && ss[k + 1] == ShareEntry(ss[k], src, dst, i, k)
  }

  lemma RowTrace(s: Sys, src: nat, dst: nat, i: nat, strict: bool) returns (ss: seq<Sys>)
    requires Inv(s, strict) && src in s.dirs && dst in s.dirs && src != dst && i < USER_DIRS
    requires Pde(s, src, i) != 0 && Pde(s, dst, i) != 0 && EmptyRow(s, dst, i)
    ensures |ss| == ENTRIES + 1 && ss[0] == s && ss[ENTRIES] == ShareEntries(s, src, dst, i, ENTRIES)
    ensures forall k :: 0 <= k < ENTRIES ==> RowStep(ss, src, dst, i, k, strict)
  {
    ss := RowStates(s, src, dst, i, ENTRIES);
    forall k | 0 <= k < ENTRIES ensures RowStep(ss, src, dst, i, k, strict) {
      RowAlong(ss, src, dst, i, k, strict);
      assert RowNext(ss, src, dst, i, k);
    }
  }

  lemma RowSharedNone(s: Sys, src: nat, dst: nat, i: nat)
    requires EmptyRow(s, dst, i)
    ensures RowShared(s, s, src, dst, i, 0)
  {
  }

  lemma ShareEntryKeepsDirs(s: Sys, src: nat, dst: nat, i: nat, j: nat, strict: bool)
    requires Inv(s, strict) && src in s.dirs && dst in s.dirs && src != dst && i < USER_DIRS && j < ENTRIES
    requires Pde(s, src, i) != 0 && Pde(s, dst, i) != 0
    ensures var s' := ShareEntry(s, src, dst, i, j);
      && s'.dirs == s.dirs
      && (forall d, w :: d in s.dirs && 0 <= w < ENTRIES ==> Pde(s', d, w) == Pde(s, d, w))
      && (forall j' :: 0 <= j' < ENTRIES && j' != j ==> Pte(s', dst, i, j') == Pte(s, dst, i, j'))
  {
    SlotPath(s, src, i, j, strict);
    SlotPath(s, dst, i, j, strict);
  }

  /** After n iterations of the outer loop: dst shows src's first n directory slots, and
      every other directory is as before. */
  ghost predicate SlotsCopied(s: Sys, s': Sys, src: nat, dst: nat, n: nat) {
    && s'.dirs == s.dirs
    && (forall i, j :: 0 <= i < n && i < USER_DIRS && 0 <= j < ENTRIES ==> Slot(s', dst, i, j) == Slot(s, src, i, j))
    && (forall d, i, j :: d in s.dirs && d != dst && 0 <= i < USER_DIRS && 0 <= j < ENTRIES ==> Agree(s, s', d, i, j))
  }

  lemma CopySlotCopies(s: Sys, src: nat, dst: nat, i: nat, strict: bool)
    requires Inv(s, strict) && src in s.dirs && dst in s.dirs && src != dst && i < USER_DIRS
    requires CopySlot(s, src, dst, i).Some?
    ensures var s' := CopySlot(s, src, dst, i).value;
      && Inv(s', strict) && s'.dirs == s.dirs
      && (forall d, i', j :: d in s.dirs && 0 <= i' < USER_DIRS && 0 <= j < ENTRIES
            ==> if (d, i') == (dst, i) then Slot(s', d, i', j) == Slot(s, src, i, j) else Agree(s, s', d, i', j))
  {
    var s' := CopySlot(s, src, dst, i).value;
    if Pde(s, src, i) != 0 {
      var s1 := InstallTable(s, dst, i, USER_RW).value;
      InstallTableInv(s, dst, i, USER_RW, strict);
      AllocFresh(s, strict);
      assert Pde(s1, src, i) == Pde(s, src, i);
      ShareEntriesRow(s1, src, dst, i, ENTRIES, strict, s');
      forall d, i', j | d in s.dirs && 0 <= i' < USER_DIRS && 0 <= j < ENTRIES
        ensures if (d, i') == (dst, i) then Slot(s', d, i', j) == Slot(s, src, i, j) else Agree(s, s', d, i', j)
      {
        InstallTableAgrees(s, dst, i, USER_RW, d, i', j, strict);
        InstallTableAgrees(s, dst, i, USER_RW, src, i, j, strict);
        assert (d, i') != (dst, i) ==> Agree(s1, s', d, i', j);
      }
    } else {
      SetDirWordInv(s, dst, i, 0, strict);
      forall d, i', j | d in s.dirs && 0 <= i' < USER_DIRS && 0 <= j < ENTRIES
        ensures if (d, i') == (dst, i) then Slot(s', d, i', j) == Slot(s, src, i, j) else Agree(s, s', d, i', j)
      {
        SetDirWordAgrees(s, dst, i, 0, d, i', j, strict);
      }
    }
  }

  lemma {:induction false} CopySlotsCopies(s: Sys, src: nat, dst: nat, n: nat, strict: bool)
    requires Inv(s, strict) && src in s.dirs && dst in s.dirs && src != dst && n <= USER_DIRS
    requires CopySlots(s, src, dst, n).Some?
    ensures Inv(CopySlots(s, src, dst, n).value, strict)
    ensures SlotsCopied(s, CopySlots(s, src, dst, n).value, src, dst, n)
  {
    var s' := CopySlots(s, src, dst, n).value;
    if n > 0 {
      var s1 := CopySlots(s, src, dst, n - 1).value;
      CopySlotsCopies(s, src, dst, n - 1, strict);
      CopySlotCopies(s1, src, dst, n - 1, strict);
      forall d, i, j | d in s.dirs && d != dst && 0 <= i < USER_DIRS && 0 <= j < ENTRIES ensures Agree(s, s', d, i, j) {
        assert Agree(s, s1, d, i, j);
        assert Agree(s1, s', d, i, j);
      }
      forall i, j | 0 <= i < n && 0 <= j < ENTRIES ensures Slot(s', dst, i, j) == Slot(s, src, i, j) {
        if i == n - 1 {
          assert Agree(s, s1, src, i, j);
        } else {
          assert Agree(s1, s', dst, i, j);
        }
      }
    } else {
      forall d, i, j | d in s.dirs && d != dst && 0 <= i < USER_DIRS && 0 <= j < ENTRIES ensures Agree(s, s', d, i, j) {}
    }
  }

  lemma SetKernelSlotAgrees(s: Sys, s1: Sys, dst: nat, w: nat, v: Word, strict: bool)
    requires Inv(s1, strict) && s1.dirs == s.dirs && dst in s.dirs && USER_DIRS <= w < ENTRIES
    requires forall d, i, j :: d in s.dirs && 0 <= i < USER_DIRS && 0 <= j < ENTRIES ==> Agree(s, s1, d, i, j)
    ensures Inv(SetPte(s1, dst, w, v), strict)
    ensures forall d, i, j :: d in s.dirs && 0 <= i < USER_DIRS && 0 <= j < ENTRIES
              ==> Agree(s, SetPte(s1, dst, w, v), d, i, j)
  {
    SetDirWordInv(s1, dst, w, v, strict);
    forall d, i, j | d in s.dirs && 0 <= i < USER_DIRS && 0 <= j < ENTRIES
      ensures Agree(s, SetPte(s1, dst, w, v), d, i, j)
    {
      assert Agree(s, s1, d, i, j);
      SetDirWordAgrees(s1, dst, w, v, d, i, j, strict);
    }
  }

  lemma {:induction false} CopyKernelSlotsAgrees(s: Sys, dst: nat, n: nat, strict: bool)
    requires Inv(s, strict) && dst in s.dirs && USER_DIRS <= n <= ENTRIES
    ensures var s' := CopyKernelSlots(s, dst, n);
      && Inv(s', strict) && s'.dirs == s.dirs
      && (forall d, i, j :: d in s.dirs && 0 <= i < USER_DIRS && 0 <= j < ENTRIES ==> Agree(s, s', d, i, j))
  {
    if n > USER_DIRS {
      CopyKernelSlotsAgrees(s, dst, n - 1, strict);
      var s1 := CopyKernelSlots(s, dst, n - 1);
      SetKernelSlotAgrees(s, s1, dst, n - 1, Pde(s1, KERNEL_DIR, n - 1), strict);
    } else {
      forall d, i, j | d in s.dirs && 0 <= i < USER_DIRS && 0 <= j < ENTRIES ensures Agree(s, s, d, i, j) {}
    }
  }

  /** copy_page gives dst the view of src and changes no other view, src's included. */
  lemma CopyPageCopies(s: Sys, src: nat, dst: nat, strict: bool)
    requires Inv(s, strict) && src in s.dirs && dst in s.dirs && src != dst && CopyPage(s, src, dst).Some?
    ensures var s' := CopyPage(s, src, dst).value;
      && Inv(s', strict) && s'.dirs == s.dirs && View(s', dst) == View(s, src)
      && (forall d :: d in s.dirs && d != dst ==> View(s', d) == View(s, d))
  {
    var s1 := CopySlots(s, src, dst, USER_DIRS).value;
    var s' := CopyPage(s, src, dst).value;
    CopySlotsCopies(s, src, dst, USER_DIRS, strict);
    CopyKernelSlotsAgrees(s1, dst, ENTRIES, strict);
    forall d | d in s.dirs && d != dst ensures View(s', d) == View(s, d) {
      ViewsAgree(s, s1, d);
      ViewsAgree(s1, s', d);
    }
    ViewsAgree(s1, s', dst);
    CopiedView(s, s1, src, dst);
  }

  lemma CopiedView(s: Sys, s': Sys, src: nat, dst: nat)
    requires SlotsCopied(s, s', src, dst, USER_DIRS)
    ensures View(s', dst) == View(s, src)
  {
    forall i, j | 0 <= i < USER_DIRS && 0 <= j < ENTRIES
      ensures Mapped(s', dst, i, j) == Mapped(s, src, i, j)
      ensures Mapped(s, src, i, j) ==> s'.ram[FrameOf(Pte(s', dst, i, j))] == s.ram[FrameOf(Pte(s, src, i, j))]
    {
      assert Slot(s', dst, i, j) == Slot(s, src, i, j);
    }
  }
}
