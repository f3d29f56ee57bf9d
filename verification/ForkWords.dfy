/** What copy_page writes: every word of the directories and tables afterwards. */
module ForkWords {
  import opened Frames
  import opened Paging
  import opened Mmu
  import opened Wrappers
  import opened CowInvariant
  import opened CowRefinement
  import opened CowAside

  ghost predicate SameDirWord(s: Sys, s': Sys, d: nat, w: nat) {
    Pde(s', d, w) == Pde(s, d, w)
  }

  ghost predicate SameEntry(s: Sys, s': Sys, d: nat, i: nat, j: nat) {
    Pte(s', d, i, j) == Pte(s, d, i, j)
  }

  /** Slot (i, j) of directory d has the entry that src had there, without write permission. */
  ghost predicate Protected(s: Sys, s': Sys, src: nat, d: nat, i: nat, j: nat) {
    Pte(s', d, i, j) == Protect(Pte(s, src, i, j))
  }

  /** Directory slot i has a table open to users exactly if src has a table there. */
  ghost predicate UserTable(s: Sys, s': Sys, src: nat, dst: nat, i: nat) {
    if Pde(s, src, i) == 0 then Pde(s', dst, i) == 0
    else Pde(s', dst, i) != 0 && Lets(Pde(s', dst, i), Access(true, true))
  }

  // ----- the inner loop

  /** After n iterations of the inner loop for directory slot i. */
  ghost predicate RowWords(s: Sys, s': Sys, src: nat, dst: nat, i: nat, n: nat) {
    && s'.dirs == s.dirs
    && (forall d, w {:trigger SameDirWord(s, s', d, w)} :: d in s.dirs && 0 <= w < ENTRIES ==> SameDirWord(s, s', d, w))
    && (forall j {:trigger Protected(s, s', src, src, i, j)} :: 0 <= j < n ==> Protected(s, s', src, src, i, j))
    && (forall j {:trigger Protected(s, s', src, dst, i, j)} :: 0 <= j < n ==> Protected(s, s', src, dst, i, j))
    && (forall d, i', j {:trigger SameEntry(s, s', d, i', j)} ::
          d in s.dirs && 0 <= i' < USER_DIRS && 0 <= j < ENTRIES && ((d, i') != (src, i) || n <= j) && (d, i') != (dst, i)
          ==> SameEntry(s, s', d, i', j))
  }

  lemma EntryWords(s: Sys, src: nat, dst: nat, i: nat, j: nat, d: nat, i': nat, j': nat, strict: bool)
    requires Inv(s, strict) && src in s.dirs && dst in s.dirs && src != dst && i < USER_DIRS && j < ENTRIES
    requires Pde(s, src, i) != 0 && Pde(s, dst, i) != 0 && d in s.dirs && i' < USER_DIRS && j' < ENTRIES
    ensures Pte(ShareEntry(s, src, dst, i, j), d, i', j') ==
      if j' == j && ((d, i') == (src, i) || (d, i') == (dst, i)) then Protect(Pte(s, src, i, j)) else Pte(s, d, i', j')
  {
    ShareEntryWords(s, src, dst, i, j, strict);
    ShareEntryKeepsDirs(s, src, dst, i, j, strict);
    SlotPath(s, src, i, j, strict);
    SlotPath(s, dst, i, j, strict);
    SlotPath(s, d, i', j', strict);
  }

  lemma RowWordsNext(s: Sys, s1: Sys, s': Sys, src: nat, dst: nat, i: nat, n: nat, n': nat, strict: bool)
    requires Inv(s1, strict) && src in s.dirs && dst in s.dirs && src != dst && i < USER_DIRS && n' == n + 1 <= ENTRIES
    requires Pde(s, src, i) != 0 && Pde(s, dst, i) != 0 && RowWords(s, s1, src, dst, i, n)
    requires s' == ShareEntry(s1, src, dst, i, n)
    ensures RowWords(s, s', src, dst, i, n')
  {
    assert SameDirWord(s, s1, src, i) && SameDirWord(s, s1, dst, i);
    ShareEntryKeepsDirs(s1, src, dst, i, n, strict);
    forall d, w | d in s.dirs && 0 <= w < ENTRIES ensures SameDirWord(s, s', d, w) { assert SameDirWord(s, s1, d, w); }
    forall j | 0 <= j < n + 1 ensures Protected(s, s', src, src, i, j) && Protected(s, s', src, dst, i, j) {
      EntryWords(s1, src, dst, i, n, src, i, j, strict);
      EntryWords(s1, src, dst, i, n, dst, i, j, strict);
      if j < n {
        assert Protected(s, s1, src, src, i, j) && Protected(s, s1, src, dst, i, j);
      } else {
        assert SameEntry(s, s1, src, i, n);
      }
    }
    forall d, i', j | d in s.dirs && 0 <= i' < USER_DIRS && 0 <= j < ENTRIES
                      && ((d, i') != (src, i) || n + 1 <= j) && (d, i') != (dst, i)
      ensures SameEntry(s, s', d, i', j)
    {
      assert SameEntry(s, s1, d, i', j);
      EntryWords(s1, src, dst, i, n, d, i', j, strict);
    }
  }

  lemma {:induction false} ShareEntriesWords(ss: seq<Sys>, src: nat, dst: nat, i: nat, n: nat, strict: bool)
    requires n < |ss| && n <= ENTRIES && src in ss[0].dirs && dst in ss[0].dirs && src != dst && i < USER_DIRS
    requires Pde(ss[0], src, i) != 0 && Pde(ss[0], dst, i) != 0
    requires forall k :: 0 <= k < n ==> RowStep(ss, src, dst, i, k, strict)
    ensures RowWords(ss[0], ss[n], src, dst, i, n)
    decreases n
  {
    if n > 0 {
      ShareEntriesWords(ss, src, dst, i, n - 1, strict);
      assert RowStep(ss, src, dst, i, n - 1, strict);
      RowWordsNext(ss[0], ss[n - 1], ss[n], src, dst, i, n - 1, n, strict);
    }
  }

  // ----- the outer loop

  /** One iteration of the outer loop. */
  ghost predicate SlotWords(s: Sys, s': Sys, src: nat, dst: nat, i: nat) {
    && s'.dirs == s.dirs && UserTable(s, s', src, dst, i)
    && (forall d, w {:trigger SameDirWord(s, s', d, w)} ::
          d in s.dirs && 0 <= w < ENTRIES && (d, w) != (dst, i) ==> SameDirWord(s, s', d, w))
    && (forall j {:trigger Protected(s, s', src, src, i, j)} :: 0 <= j < ENTRIES ==> Protected(s, s', src, src, i, j))
    && (forall j {:trigger Protected(s, s', src, dst, i, j)} :: 0 <= j < ENTRIES ==> Protected(s, s', src, dst, i, j))
    && (forall d, i', j {:trigger SameEntry(s, s', d, i', j)} ::
          d in s.dirs && 0 <= i' < USER_DIRS && 0 <= j < ENTRIES && (d, i') != (src, i) && (d, i') != (dst, i)
          ==> SameEntry(s, s', d, i', j))
  }

  /** A fresh table in a directory slot. */
  lemma TableWords(s: Sys, d0: nat, i0: nat, attr: nat, d: nat, w: nat, strict: bool)
    requires Inv(s, strict) && d0 in s.dirs && i0 < ENTRIES && (attr == USER_RW || attr == KERNEL_RW)
    requires InstallTable(s, d0, i0, attr).Some? && d in s.dirs && w < ENTRIES
    ensures var s', t := InstallTable(s, d0, i0, attr).value, Alloc(s).value.0;
      && s'.dirs == s.dirs && t < MAX_FRAMES
      && Pde(s', d, w) == if (d, w) == (d0, i0) then t * 4096 + attr else Pde(s, d, w)
  {
    AllocFresh(s, strict);
  }

  lemma TableEntries(s: Sys, d0: nat, i0: nat, attr: nat, d: nat, i: nat, j: nat, strict: bool)
    requires Inv(s, strict) && d0 in s.dirs && i0 < ENTRIES && (attr == USER_RW || attr == KERNEL_RW)
    requires InstallTable(s, d0, i0, attr).Some? && d in s.dirs && i < USER_DIRS && j < ENTRIES
    ensures Pte(InstallTable(s, d0, i0, attr).value, d, i, j) == if (d, i) == (d0, i0) then 0 else Pte(s, d, i, j)
  {
    AllocFresh(s, strict);
    InstallTableInv(s, d0, i0, attr, strict);
    SlotPath(s, d, i, j, strict);
  }

  lemma FullSlotWords(s: Sys, src: nat, dst: nat, i: nat, strict: bool, s1: Sys, s': Sys)
    requires Inv(s, strict) && src in s.dirs && dst in s.dirs && src != dst && i < USER_DIRS && Pde(s, src, i) != 0
    requires InstallTable(s, dst, i, USER_RW) == Some(s1) && RowWords(s1, s', src, dst, i, ENTRIES)
    ensures SlotWords(s, s', src, dst, i)
  {
    TableWords(s, dst, i, USER_RW, dst, i, strict);
    EntryBits(Alloc(s).value.0, USER_RW, Pde(s1, dst, i));
    assert SameDirWord(s1, s', dst, i);
    forall d, w | d in s.dirs && 0 <= w < ENTRIES && (d, w) != (dst, i) ensures SameDirWord(s, s', d, w) {
      TableWords(s, dst, i, USER_RW, d, w, strict);
      assert SameDirWord(s1, s', d, w);
    }
    forall j | 0 <= j < ENTRIES ensures Protected(s, s', src, src, i, j) && Protected(s, s', src, dst, i, j) {
      TableEntries(s, dst, i, USER_RW, src, i, j, strict);
      assert Protected(s1, s', src, src, i, j) && Protected(s1, s', src, dst, i, j);
    }
    forall d, i', j | d in s.dirs && 0 <= i' < USER_DIRS && 0 <= j < ENTRIES && (d, i') != (src, i) && (d, i') != (dst, i)
      ensures SameEntry(s, s', d, i', j)
    {
      TableEntries(s, dst, i, USER_RW, d, i', j, strict);
      assert SameEntry(s1, s', d, i', j);
    }
  }

  /** Clearing or replacing a directory word. */
  lemma SetDirEntries(s: Sys, d0: nat, w0: nat, v: Word, d: nat, i: nat, j: nat, strict: bool)
    requires Inv(s, strict) && d0 in s.dirs && w0 < ENTRIES && d in s.dirs && i < USER_DIRS && j < ENTRIES
    requires v == 0 || USER_DIRS <= w0
    ensures Pte(SetPte(s, d0, w0, v), d, i, j) == if (d, i) == (d0, w0) then 0 else Pte(s, d, i, j)
  {
    SlotPath(s, d, i, j, strict);
  }

  lemma EmptySlotWords(s: Sys, src: nat, dst: nat, i: nat, strict: bool)
    requires Inv(s, strict) && src in s.dirs && dst in s.dirs && src != dst && i < USER_DIRS && Pde(s, src, i) == 0
    ensures SlotWords(s, SetPte(s, dst, i, 0), src, dst, i)
  {
    var s' := SetPte(s, dst, i, 0);
    assert dst < |s.ram|;
    forall j | 0 <= j < ENTRIES ensures Protected(s, s', src, src, i, j) && Protected(s, s', src, dst, i, j) {
      SetDirEntries(s, dst, i, 0, src, i, j, strict);
    }
    forall d, i', j | d in s.dirs && 0 <= i' < USER_DIRS && 0 <= j < ENTRIES && (d, i') != (src, i) && (d, i') != (dst, i)
      ensures SameEntry(s, s', d, i', j)
    {
      SetDirEntries(s, dst, i, 0, d, i', j, strict);
    }
  }

  lemma CopySlotWords(s: Sys, src: nat, dst: nat, i: nat, strict: bool, s': Sys)
    requires Inv(s, strict) && src in s.dirs && dst in s.dirs && src != dst && i < USER_DIRS
    requires CopySlot(s, src, dst, i) == Some(s')
    ensures SlotWords(s, s', src, dst, i)
  {
    if Pde(s, src, i) != 0 {
      var s1 := InstallTable(s, dst, i, USER_RW).value;
      InstallTableInv(s, dst, i, USER_RW, strict);
      TableWords(s, dst, i, USER_RW, src, i, strict);
      assert RowWords(s1, s', src, dst, i, ENTRIES) by {
        var ss := RowTrace(s1, src, dst, i, strict);
        ShareEntriesWords(ss, src, dst, i, ENTRIES, strict);
      }
      FullSlotWords(s, src, dst, i, strict, s1, s');
    } else {
      EmptySlotWords(s, src, dst, i, strict);
    }
  }

  /** After n iterations of the outer loop. */
  ghost predicate SlotsWords(s: Sys, s': Sys, src: nat, dst: nat, n: nat) {
    && s'.dirs == s.dirs
    && (forall i {:trigger UserTable(s, s', src, dst, i)} :: 0 <= i < n ==> UserTable(s, s', src, dst, i))
    && (forall d, w {:trigger SameDirWord(s, s', d, w)} ::
          d in s.dirs && 0 <= w < ENTRIES && (d != dst || n <= w) ==> SameDirWord(s, s', d, w))
    && (forall i, j {:trigger Protected(s, s', src, src, i, j)} :: 0 <= i < n && 0 <= j < ENTRIES ==> Protected(s, s', src, src, i, j))
    && (forall i, j {:trigger Protected(s, s', src, dst, i, j)} :: 0 <= i < n && 0 <= j < ENTRIES ==> Protected(s, s', src, dst, i, j))
    && (forall d, i, j {:trigger SameEntry(s, s', d, i, j)} ::
          d in s.dirs && 0 <= i < USER_DIRS && 0 <= j < ENTRIES && ((d != src && d != dst) || n <= i)
          ==> SameEntry(s, s', d, i, j))
  }

  lemma SlotsWordsNext(s: Sys, s1: Sys, s': Sys, src: nat, dst: nat, n: nat)
    requires src in s.dirs && dst in s.dirs && src != dst && n < USER_DIRS
    requires SlotsWords(s, s1, src, dst, n) && SlotWords(s1, s', src, dst, n)
    ensures SlotsWords(s, s', src, dst, n + 1)
  {
    assert SameDirWord(s, s1, src, n);
    forall i | 0 <= i < n + 1 ensures UserTable(s, s', src, dst, i) {
      if i < n { assert UserTable(s, s1, src, dst, i) && SameDirWord(s1, s', dst, i); }
    }
    forall d, w | d in s.dirs && 0 <= w < ENTRIES && (d != dst || n + 1 <= w) ensures SameDirWord(s, s', d, w) {
      assert SameDirWord(s, s1, d, w) && SameDirWord(s1, s', d, w);
    }
    forall i, j | 0 <= i < n + 1 && 0 <= j < ENTRIES ensures Protected(s, s', src, src, i, j) && Protected(s, s', src, dst, i, j) {
      SlotsWordsAt(s, s1, s', src, dst, n, i, j);
    }
    forall d, i, j | d in s.dirs && 0 <= i < USER_DIRS && 0 <= j < ENTRIES && ((d != src && d != dst) || n + 1 <= i)
      ensures SameEntry(s, s', d, i, j)
    {
      assert SameEntry(s, s1, d, i, j) && SameEntry(s1, s', d, i, j);
    }
  }

  lemma SlotsWordsAt(s: Sys, s1: Sys, s': Sys, src: nat, dst: nat, n: nat, i: nat, j: nat)
    requires src in s.dirs && dst in s.dirs && src != dst && n < USER_DIRS && i <= n && j < ENTRIES
    requires SlotsWords(s, s1, src, dst, n) && SlotWords(s1, s', src, dst, n)
    ensures Protected(s, s', src, src, i, j) && Protected(s, s', src, dst, i, j)
  {
    if i < n {
      assert Protected(s, s1, src, src, i, j) && SameEntry(s1, s', src, i, j);
      assert Protected(s, s1, src, dst, i, j) && SameEntry(s1, s', dst, i, j);
    } else {
      assert SameEntry(s, s1, src, n, j);
      assert Protected(s1, s', src, src, n, j) && Protected(s1, s', src, dst, n, j);
    }
  }

  lemma {:induction false} CopySlotsWords(s: Sys, src: nat, dst: nat, n: nat, strict: bool, s': Sys)
    requires Inv(s, strict) && src in s.dirs && dst in s.dirs && src != dst && n <= USER_DIRS
    requires CopySlots(s, src, dst, n) == Some(s')
    ensures SlotsWords(s, s', src, dst, n)
    decreases n
  {
    if n > 0 {
      var s1 := CopySlots(s, src, dst, n - 1).value;
      assert SlotsWords(s, s1, src, dst, n - 1) by { CopySlotsWords(s, src, dst, n - 1, strict, s1); }
      assert Inv(s1, strict) by { CopySlotsCopies(s, src, dst, n - 1, strict); }
      CopySlotWords(s1, src, dst, n - 1, strict, s');
      SlotsWordsNext(s, s1, s', src, dst, n - 1);
    }
  }

  // ----- the kernel half

  /** The user half stays as it is, and dst has the boot directory's words below n. */
  ghost predicate HalfWords(s: Sys, s': Sys, dst: nat, n: nat) {
    && s'.dirs == s.dirs && |s'.ram| == |s.ram|
    && (dst != KERNEL_DIR < |s.ram| ==> s'.ram[KERNEL_DIR] == s.ram[KERNEL_DIR])
    && (dst != KERNEL_DIR ==> forall w :: USER_DIRS <= w < n ==> Pde(s', dst, w) == Pde(s, KERNEL_DIR, w))
    && (forall d, w {:trigger SameDirWord(s, s', d, w)} ::
          d in s.dirs && 0 <= w < ENTRIES && (d != dst || w < USER_DIRS || n <= w) ==> SameDirWord(s, s', d, w))
    && (forall d, i, j {:trigger SameEntry(s, s', d, i, j)} ::
          d in s.dirs && 0 <= i < USER_DIRS && 0 <= j < ENTRIES ==> SameEntry(s, s', d, i, j))
  }

  lemma HalfWordsNext(s: Sys, s1: Sys, s': Sys, dst: nat, n: nat, strict: bool)
    requires Inv(s1, strict) && dst in s.dirs && USER_DIRS <= n < ENTRIES && HalfWords(s, s1, dst, n)
    requires s' == SetPte(s1, dst, n, Pde(s1, KERNEL_DIR, n))
    ensures HalfWords(s, s', dst, n + 1)
  {
    assert dst < |s1.ram|;
    forall d, w | d in s.dirs && 0 <= w < ENTRIES && (d != dst || w < USER_DIRS || n + 1 <= w) ensures SameDirWord(s, s', d, w) {
      assert SameDirWord(s, s1, d, w);
    }
    forall d, i, j | d in s.dirs && 0 <= i < USER_DIRS && 0 <= j < ENTRIES ensures SameEntry(s, s', d, i, j) {
      assert SameEntry(s, s1, d, i, j);
      SetDirEntries(s1, dst, n, Pde(s1, KERNEL_DIR, n), d, i, j, strict);
    }
  }

  lemma {:induction false} KernelSlotsWords(s: Sys, dst: nat, n: nat, strict: bool, s': Sys)
    requires Inv(s, strict) && dst in s.dirs && USER_DIRS <= n <= ENTRIES && s' == CopyKernelSlots(s, dst, n)
    ensures HalfWords(s, s', dst, n)
    decreases n
  {
    if n > USER_DIRS {
      var s1 := CopyKernelSlots(s, dst, n - 1);
      assert HalfWords(s, s1, dst, n - 1) by { KernelSlotsWords(s, dst, n - 1, strict, s1); }
      assert Inv(s1, strict) by { CopyKernelSlotsAgrees(s, dst, n - 1, strict); }
      HalfWordsNext(s, s1, s', dst, n - 1, strict);
    }
  }

  // ----- the whole

  lemma ForkHalves(s: Sys, src: nat, dst: nat, strict: bool, s1: Sys, s': Sys)
    requires Inv(s, strict) && src in s.dirs && dst in s.dirs && src != dst
    requires CopySlots(s, src, dst, USER_DIRS) == Some(s1) && CopyPage(s, src, dst) == Some(s')
    ensures SlotsWords(s, s1, src, dst, USER_DIRS) && HalfWords(s1, s', dst, ENTRIES)
  {
    CopySlotsWords(s, src, dst, USER_DIRS, strict, s1);
    CopySlotsCopies(s, src, dst, USER_DIRS, strict);
    KernelSlotsWords(s1, dst, ENTRIES, strict, s');
  }

  /** What the user half holds after copy_page: the child has a table, open to users, where the
      parent has one, and every entry of the parent is in both spaces, without write permission;
      all other words are as before. */
  ghost predicate Forked(s: Sys, s': Sys, src: nat, dst: nat) {
    && s'.dirs == s.dirs
    && (forall i {:trigger UserTable(s, s', src, dst, i)} :: 0 <= i < USER_DIRS ==> UserTable(s, s', src, dst, i))
    && (forall i, j {:trigger Protected(s, s', src, src, i, j)} ::
          0 <= i < USER_DIRS && 0 <= j < ENTRIES ==> Protected(s, s', src, src, i, j))
    && (forall i, j {:trigger Protected(s, s', src, dst, i, j)} ::
          0 <= i < USER_DIRS && 0 <= j < ENTRIES ==> Protected(s, s', src, dst, i, j))
    && (forall d, w {:trigger SameDirWord(s, s', d, w)} ::
          d in s.dirs && 0 <= w < ENTRIES && d != dst ==> SameDirWord(s, s', d, w))
    && (forall d, i, j {:trigger SameEntry(s, s', d, i, j)} ::
          d in s.dirs && 0 <= i < USER_DIRS && 0 <= j < ENTRIES && d != src && d != dst ==> SameEntry(s, s', d, i, j))
  }

  lemma ForkWords(s: Sys, src: nat, dst: nat, strict: bool)
    requires Inv(s, strict) && src in s.dirs && dst in s.dirs && src != dst && CopyPage(s, src, dst).Some?
    ensures Forked(s, CopyPage(s, src, dst).value, src, dst)
  {
    var s1, s' := CopySlots(s, src, dst, USER_DIRS).value, CopyPage(s, src, dst).value;
    ForkHalves(s, src, dst, strict, s1, s');
    WholeWords(s, s1, s', src, dst);
  }

  lemma WholeWords(s: Sys, s1: Sys, s': Sys, src: nat, dst: nat)
    requires src in s.dirs && dst in s.dirs && src != dst
    requires SlotsWords(s, s1, src, dst, USER_DIRS) && HalfWords(s1, s', dst, ENTRIES)
    ensures Forked(s, s', src, dst)
  {
    forall i | 0 <= i < USER_DIRS ensures UserTable(s, s', src, dst, i) {
      assert UserTable(s, s1, src, dst, i) && SameDirWord(s1, s', dst, i);
    }
    forall i, j | 0 <= i < USER_DIRS && 0 <= j < ENTRIES
      ensures Protected(s, s', src, src, i, j) && Protected(s, s', src, dst, i, j)
    {
      assert Protected(s, s1, src, src, i, j) && SameEntry(s1, s', src, i, j);
      assert Protected(s, s1, src, dst, i, j) && SameEntry(s1, s', dst, i, j);
    }
    forall d, w | d in s.dirs && 0 <= w < ENTRIES && d != dst ensures SameDirWord(s, s', d, w) {
      assert SameDirWord(s, s1, d, w) && SameDirWord(s1, s', d, w);
    }
    forall d, i, j | d in s.dirs && 0 <= i < USER_DIRS && 0 <= j < ENTRIES && d != src && d != dst
      ensures SameEntry(s, s', d, i, j)
    {
      assert SameEntry(s, s1, d, i, j) && SameEntry(s1, s', d, i, j);
    }
  }

  /** If the boot directory is in use and has no other role, copy_page gives the child its words
      in the kernel half. */
  lemma ForkKernelHalf(s: Sys, src: nat, dst: nat, w: nat, strict: bool)
    requires Inv(s, strict) && src in s.dirs && dst in s.dirs && src != dst && CopyPage(s, src, dst).Some?
    requires Aside(s, KERNEL_DIR) && USER_DIRS <= w < ENTRIES
    ensures Pde(CopyPage(s, src, dst).value, dst, w) == Pde(s, KERNEL_DIR, w)
  {
    var s1, s' := CopySlots(s, src, dst, USER_DIRS).value, CopyPage(s, src, dst).value;
    ForkHalves(s, src, dst, strict, s1, s');
    assert Kept(s, s1, KERNEL_DIR) by { CopySlotsKeep(s, src, dst, USER_DIRS, KERNEL_DIR, strict); }
  }

  // ----- mem_map

  ghost predicate Marked(s: Sys, f: nat) {
    PageOf(s, f).Cow()
  }

  /** Frames marked for copying on write stay so. */
  ghost predicate KeepsMarks(s: Sys, s': Sys) {
    |s'.pages| == |s.pages| && forall f :: Marked(s, f) ==> Marked(s', f)
  }

  lemma ShareEntryMarks(s: Sys, src: nat, dst: nat, i: nat, j: nat, strict: bool)
    requires Inv(s, strict) && src in s.dirs && i < USER_DIRS && j < ENTRIES && Pde(s, src, i) != 0
    ensures var s' := ShareEntry(s, src, dst, i, j);
      KeepsMarks(s, s') && (Pte(s, src, i, j) != 0 ==> Marked(s', FrameOf(Pte(s, src, i, j))))
  {
    SlotPath(s, src, i, j, strict);
    SharedFrame(s, src, i, j, strict);
  }

  lemma SharedFrame(s: Sys, d: nat, i: nat, j: nat, strict: bool)
    requires Inv(s, strict) && d in s.dirs && i < USER_DIRS && j < ENTRIES
    ensures FrameOf(Protect(Pte(s, d, i, j))) == FrameOf(Pte(s, d, i, j))
  {
    SlotPath(s, d, i, j, strict);
    if Pte(s, d, i, j) != 0 { assert EntryOk(s, FrameOf(Pde(s, d, i)), j, strict); }
    ProtectBits(Pte(s, d, i, j));
  }

  ghost predicate RowMarked(s: Sys, s': Sys, src: nat, i: nat, n: nat) {
    KeepsMarks(s, s') && forall j :: 0 <= j < n && Pte(s, src, i, j) != 0 ==> Marked(s', FrameOf(Pte(s, src, i, j)))
  }

  lemma {:induction false} ShareEntriesMark(ss: seq<Sys>, src: nat, dst: nat, i: nat, n: nat, strict: bool)
    requires n < |ss| && n <= ENTRIES && src in ss[0].dirs && dst in ss[0].dirs && src != dst && i < USER_DIRS
    requires Pde(ss[0], src, i) != 0 && Pde(ss[0], dst, i) != 0
    requires forall k :: 0 <= k < n ==> RowStep(ss, src, dst, i, k, strict)
    ensures RowMarked(ss[0], ss[n], src, i, n)
    decreases n
  {
    if n > 0 {
      ShareEntriesMark(ss, src, dst, i, n - 1, strict);
      assert RowStep(ss, src, dst, i, n - 1, strict);
      assert Pte(ss[n - 1], src, i, n - 1) == Pte(ss[0], src, i, n - 1) by {
        ShareEntriesWords(ss, src, dst, i, n - 1, strict);
        assert SameEntry(ss[0], ss[n - 1], src, i, n - 1);
      }
      RowMarksNext(ss[0], ss[n - 1], ss[n], src, dst, i, n - 1, n, strict);
    }
  }

  lemma RowMarksNext(s: Sys, s1: Sys, s': Sys, src: nat, dst: nat, i: nat, n: nat, n': nat, strict: bool)
    requires Inv(s1, strict) && src in s1.dirs && i < USER_DIRS && n' == n + 1 <= ENTRIES && Pde(s1, src, i) != 0
    requires RowMarked(s, s1, src, i, n) && Pte(s1, src, i, n) == Pte(s, src, i, n)
    requires s' == ShareEntry(s1, src, dst, i, n)
    ensures RowMarked(s, s', src, i, n')
  {
    ShareEntryMarks(s1, src, dst, i, n, strict);
  }

  lemma CopySlotMarks(s: Sys, src: nat, dst: nat, i: nat, strict: bool, s': Sys)
    requires Inv(s, strict) && src in s.dirs && dst in s.dirs && src != dst && i < USER_DIRS
    requires CopySlot(s, src, dst, i) == Some(s')
    ensures RowMarked(s, s', src, i, ENTRIES)
  {
    if Pde(s, src, i) != 0 {
      var s1 := InstallTable(s, dst, i, USER_RW).value;
      InstallTableInv(s, dst, i, USER_RW, strict);
      TableWords(s, dst, i, USER_RW, src, i, strict);
      assert RowMarked(s1, s', src, i, ENTRIES) by {
        var ss := RowTrace(s1, src, dst, i, strict);
        ShareEntriesMark(ss, src, dst, i, ENTRIES, strict);
      }
      forall j | 0 <= j < ENTRIES ensures Pte(s1, src, i, j) == Pte(s, src, i, j) {
        TableEntries(s, dst, i, USER_RW, src, i, j, strict);
      }
      assert KeepsMarks(s, s1);
    }
  }

  ghost predicate SlotsMarked(s: Sys, s': Sys, src: nat, n: nat) {
    && KeepsMarks(s, s')
    && forall i, j :: 0 <= i < n && 0 <= j < ENTRIES && Pte(s, src, i, j) != 0 ==> Marked(s', FrameOf(Pte(s, src, i, j)))
  }

  lemma {:induction false} CopySlotsMark(s: Sys, src: nat, dst: nat, n: nat, strict: bool, s': Sys)
    requires Inv(s, strict) && src in s.dirs && dst in s.dirs && src != dst && n <= USER_DIRS
    requires CopySlots(s, src, dst, n) == Some(s')
    ensures SlotsMarked(s, s', src, n)
    decreases n
  {
    if n > 0 {
      var s1 := CopySlots(s, src, dst, n - 1).value;
      assert SlotsMarked(s, s1, src, n - 1) by { CopySlotsMark(s, src, dst, n - 1, strict, s1); }
      assert Inv(s1, strict) && s1.dirs == s.dirs by { CopySlotsCopies(s, src, dst, n - 1, strict); }
      assert RowMarked(s1, s', src, n - 1, ENTRIES) by { CopySlotMarks(s1, src, dst, n - 1, strict, s'); }
      assert SlotsWords(s, s1, src, dst, n - 1) by { CopySlotsWords(s, src, dst, n - 1, strict, s1); }
      forall i, j | 0 <= i < n && 0 <= j < ENTRIES && Pte(s, src, i, j) != 0 ensures Marked(s', FrameOf(Pte(s, src, i, j))) {
        if i < n - 1 { assert Marked(s1, FrameOf(Pte(s, src, i, j))); } else { assert SameEntry(s, s1, src, i, j); }
      }
    }
  }

  lemma {:induction false} KernelSlotsPages(s: Sys, dst: nat, n: nat)
    requires USER_DIRS <= n
    ensures CopyKernelSlots(s, dst, n).pages == s.pages
  {
    if n > USER_DIRS { KernelSlotsPages(s, dst, n - 1); }
  }

  /** Every frame that the two spaces share after copy_page is marked so. */
  lemma SharedFramesMarked(s: Sys, src: nat, dst: nat, i: nat, j: nat, strict: bool)
    requires Inv(s, strict) && src in s.dirs && dst in s.dirs && src != dst && CopyPage(s, src, dst).Some?
    requires i < USER_DIRS && j < ENTRIES && Pte(s, src, i, j) != 0
    ensures var s' := CopyPage(s, src, dst).value;
      FrameOf(Pte(s', dst, i, j)) == FrameOf(Pte(s, src, i, j)) && Marked(s', FrameOf(Pte(s', dst, i, j)))
  {
    var s1, s' := CopySlots(s, src, dst, USER_DIRS).value, CopyPage(s, src, dst).value;
    CopySlotsMark(s, src, dst, USER_DIRS, strict, s1);
    KernelSlotsPages(s1, dst, ENTRIES);
    ForkWords(s, src, dst, strict);
    assert Protected(s, s', src, dst, i, j);
    SharedFrame(s, src, i, j, strict);
  }
}
