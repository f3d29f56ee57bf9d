/** Runs from boot on which the paging code fails: do_wp_page leaks a frame that both sharers
    write to, a supervisor store shows in another space, and a second missing page drops the
    first. */
module CowFailures {
  import opened Frames
  import opened Paging
  import opened Wrappers
  import opened CowInvariant
  import opened CowRefinement
  import opened CowRuns
  import ForkWords

  ghost predicate Zero(s: Sys, f: nat, w: nat) {
    Peek(s.ram, f, w) == 0
  }

  /** Of its first n words frame f uses the first at most. */
  ghost predicate Bare(s: Sys, f: nat, n: nat) {
    forall w {:trigger Zero(s, f, w)} :: 1 <= w < n ==> Zero(s, f, w)
  }

  lemma StaysBare(s: Sys, s': Sys, f: nat, n: nat)
    requires Bare(s, f, n)
    requires forall w :: 1 <= w < n ==> Peek(s'.ram, f, w) == Peek(s.ram, f, w) || Peek(s'.ram, f, w) == 0
    ensures Bare(s', f, n)
  {
    forall w | 1 <= w < n ensures Zero(s', f, w) { assert Zero(s, f, w); }
  }

  /** Directory a has one table t, whose only word names frame x, and all references to x are
      in refs. */
  ghost predicate OnePage(s: Sys, a: nat, t: nat, x: nat, refs: set<(nat, nat)>) {
    && Inv(s, true) && a in s.dirs && t in s.owner
    && Pde(s, a, 0) != 0 && FrameOf(Pde(s, a, 0)) == t && Bare(s, a, USER_DIRS)
    && Peek(s.ram, t, 0) != 0 && FrameOf(Peek(s.ram, t, 0)) == x && Bare(s, t, ENTRIES)
    && Refs(s, x) == refs
  }

  /** Directory b's first table is u, and its first word names x too. */
  ghost predicate Shares(s: Sys, b: nat, u: nat, x: nat) {
    && b in s.dirs && u in s.owner && Pde(s, b, 0) != 0 && FrameOf(Pde(s, b, 0)) == u
    && Peek(s.ram, u, 0) != 0 && FrameOf(Peek(s.ram, u, 0)) == x
  }

  /** The fresh frame f goes into the fresh, empty table t. */
  lemma MapsOnly(s: Sys, a: nat, t: nat, f: nat, s': Sys)
    requires Inv(s, true) && a in s.dirs && t in s.owner && Pde(s, a, 0) != 0 && FrameOf(Pde(s, a, 0)) == t
    requires Bare(s, a, USER_DIRS) && (forall j :: 0 <= j < ENTRIES ==> Peek(s.ram, t, j) == 0)
    requires f < MAX_FRAMES && Refs(s, f) == {} && s' == MapFresh(s, t, 0, f, USER_RW) && Inv(s', true)
    ensures OnePage(s', a, t, f, {(t, 0)})
  {
    EntryWord(f, USER_RW);
    RefsAfter(s, s', t, 0, f);
    assert Refs(s', f) == {(t, 0)};
    StaysBare(s, s', a, USER_DIRS);
    forall w | 1 <= w < ENTRIES ensures Zero(s', t, w) {}
  }

  /** The first fault of a fresh directory. */
  lemma FirstFault(s: Sys, a: nat) returns (t: nat, x: nat)
    requires Inv(s, true) && a in s.dirs && NoPage(s, a, 0, 0, false).Some?
    requires Pde(s, a, 0) == 0 && Bare(s, a, USER_DIRS)
    ensures OnePage(NoPage(s, a, 0, 0, false).value, a, t, x, {(t, 0)})
  {
    AllocInv(s, true);
    AllocFresh(s, true);
    var (f, s1) := Alloc(s).value;
    AllocFresh(s1, true);
    InstallTableInv(s1, a, 0, USER_RW, true);
    var s2 := InstallTable(s1, a, 0, USER_RW).value;
    t, x := FrameOf(Pde(s2, a, 0)), f;
    assert Refs(s2, f) == {};
    StaysBare(s, s2, a, USER_DIRS);
    NoPageInv(s, a, 0, 0, false, true);
    MapsOnly(s2, a, t, f, NoPage(s, a, 0, 0, false).value);
  }

  /** A new directory elsewhere. */
  lemma SecondDir(s: Sys, a: nat, t: nat, x: nat, refs: set<(nat, nat)>)
    requires OnePage(s, a, t, x, refs) && CreateDir(s).Some?
    ensures var (b, s') := CreateDir(s).value; b != a && b in s'.dirs && OnePage(s', a, t, x, refs)
  {
    CreateDirInv(s, true);
    AllocFresh(s, true);
    var s' := CreateDir(s).value.1;
    RefsSame(s, s', x);
    StaysBare(s, s', a, USER_DIRS);
    StaysBare(s, s', t, ENTRIES);
  }

  lemma FirstShare(s: Sys, a: nat, b: nat, t: nat, u: nat, x: nat)
    requires OnePage(s, a, t, x, {(t, 0)}) && a != b && b in s.dirs && u in s.owner
    requires Pde(s, b, 0) != 0 && FrameOf(Pde(s, b, 0)) == u && Pte(s, b, 0, 0) == 0
    ensures var s' := ShareEntry(s, a, b, 0, 0); OnePage(s', a, t, x, {(t, 0), (u, 0)}) && Shares(s', b, u, x)
  {
    var s' := ShareEntry(s, a, b, 0, 0);
    SlotPath(s, a, 0, 0, true);
    SlotPath(s, b, 0, 0, true);
    ShareEntryWords(s, a, b, 0, 0, true);
    ShareEntryInv(s, a, b, 0, 0, true);
    ShareEntryKeepsDirs(s, a, b, 0, 0, true);
    assert s'.owner == s.owner;
    StaysBare(s, s', a, USER_DIRS);
    StaysBare(s, s', t, ENTRIES);
    forall r: (nat, nat) ensures r in Refs(s', x) <==> r in {(t, 0), (u, 0)} {
      assert r in Refs(s, x) <==> r == (t, 0);
      if r.0 in s.owner && r.1 < ENTRIES {
        assert Names(s', r.0, r.1, x) <==> r in Refs(s', x);
        assert Names(s, r.0, r.1, x) <==> r in Refs(s, x);
      }
    }
  }

  lemma EmptyShare(s: Sys, a: nat, b: nat, j: nat, t: nat, u: nat, x: nat, refs: set<(nat, nat)>, s': Sys)
    requires OnePage(s, a, t, x, refs) && Shares(s, b, u, x) && a != b && 1 <= j < ENTRIES && Pte(s, b, 0, j) == 0
    requires s' == ShareEntry(s, a, b, 0, j)
    ensures OnePage(s', a, t, x, refs) && Shares(s', b, u, x)
  {
    assert Zero(s, t, j);
    SlotPath(s, a, 0, j, true);
    SlotPath(s, b, 0, j, true);
    ShareEntryWords(s, a, b, 0, j, true);
    ShareEntryInv(s, a, b, 0, j, true);
    ShareEntryKeepsDirs(s, a, b, 0, j, true);
    assert forall t', j' :: t' in s.owner && 0 <= j' < ENTRIES ==> Peek(s'.ram, t', j') == Peek(s.ram, t', j');
    RefsSame(s, s', x);
    StaysBare(s, s', a, USER_DIRS);
    StaysBare(s, s', t, ENTRIES);
  }

  lemma {:induction false} RowShares(ss: seq<Sys>, a: nat, b: nat, t: nat, u: nat, x: nat, refs: set<(nat, nat)>, n: nat)
    requires 1 <= n < |ss| && n <= ENTRIES && refs == {(t, 0), (u, 0)}
    requires OnePage(ss[0], a, t, x, {(t, 0)}) && a != b && b in ss[0].dirs && u in ss[0].owner
    requires Pde(ss[0], b, 0) != 0 && FrameOf(Pde(ss[0], b, 0)) == u && EmptyRow(ss[0], b, 0)
    requires forall k :: 0 <= k < n ==> RowNext(ss, a, b, 0, k)
    ensures OnePage(ss[n], a, t, x, refs) && Shares(ss[n], b, u, x)
    decreases n
  {
    assert RowNext(ss, a, b, 0, n - 1);
    if n == 1 {
      FirstShare(ss[0], a, b, t, u, x);
    } else {
      RowShares(ss, a, b, t, u, x, refs, n - 1);
      RowAlong(ss, a, b, 0, n - 1, true);
      EmptyShare(ss[n - 1], a, b, n - 1, t, u, x, refs, ss[n]);
    }
  }

  lemma FirstSlotShares(s: Sys, a: nat, b: nat, t: nat, x: nat) returns (u: nat)
    requires OnePage(s, a, t, x, {(t, 0)}) && a != b && b in s.dirs && CopySlot(s, a, b, 0).Some?
    ensures var s' := CopySlot(s, a, b, 0).value; OnePage(s', a, t, x, {(t, 0), (u, 0)}) && Shares(s', b, u, x) && u != t
  {
    AllocFresh(s, true);
    InstallTableInv(s, b, 0, USER_RW, true);
    var s1 := InstallTable(s, b, 0, USER_RW).value;
    u := FrameOf(Pde(s1, b, 0));
    StaysBare(s, s1, a, USER_DIRS);
    StaysBare(s, s1, t, ENTRIES);
    var ss := RowStates(s1, a, b, 0, ENTRIES);
    RowShares(ss, a, b, t, u, x, {(t, 0), (u, 0)}, ENTRIES);
  }

  /** Writing a directory word of b other than the first table's changes none of this. */
  lemma DirWordKeeps(s: Sys, a: nat, b: nat, i: nat, v: Word, t: nat, u: nat, x: nat, refs: set<(nat, nat)>)
    requires OnePage(s, a, t, x, refs) && Shares(s, b, u, x) && a != b && 1 <= i && (v == 0 || USER_DIRS <= i)
    ensures var s' := SetPte(s, b, i, v); OnePage(s', a, t, x, refs) && Shares(s', b, u, x)
  {
    var s' := SetPte(s, b, i, v);
    SetDirWordInv(s, b, i, v, true);
    StaysBare(s, s', a, USER_DIRS);
    StaysBare(s, s', t, ENTRIES);
  }

  lemma {:induction false} SlotsShare(s: Sys, a: nat, b: nat, t: nat, x: nat, n: nat) returns (u: nat)
    requires OnePage(s, a, t, x, {(t, 0)}) && a != b && b in s.dirs && 1 <= n <= USER_DIRS && CopySlots(s, a, b, n).Some?
    ensures var s' := CopySlots(s, a, b, n).value; OnePage(s', a, t, x, {(t, 0), (u, 0)}) && Shares(s', b, u, x) && u != t
  {
    if n == 1 {
      assert CopySlots(s, a, b, 0) == Some(s);
      u := FirstSlotShares(s, a, b, t, x);
    } else {
      u := SlotsShare(s, a, b, t, x, n - 1);
      var s1 := CopySlots(s, a, b, n - 1).value;
      assert Zero(s1, a, n - 1);
      DirWordKeeps(s1, a, b, n - 1, 0, t, u, x, {(t, 0), (u, 0)});
    }
  }

  lemma {:induction false} KernelSlotsShare(s: Sys, a: nat, b: nat, n: nat, t: nat, u: nat, x: nat, refs: set<(nat, nat)>, s': Sys)
    requires OnePage(s, a, t, x, refs) && Shares(s, b, u, x) && a != b && USER_DIRS <= n <= ENTRIES
    requires s' == CopyKernelSlots(s, b, n)
    ensures OnePage(s', a, t, x, refs) && Shares(s', b, u, x)
    decreases n
  {
    if n > USER_DIRS {
      var s1 := CopyKernelSlots(s, b, n - 1);
      assert OnePage(s1, a, t, x, refs) && Shares(s1, b, u, x) by { KernelSlotsShare(s, a, b, n - 1, t, u, x, refs, s1); }
      assert s' == SetPte(s1, b, n - 1, Pde(s1, KERNEL_DIR, n - 1));
      DirWordKeeps(s1, a, b, n - 1, Pde(s1, KERNEL_DIR, n - 1), t, u, x, refs);
    }
  }

  /** After the fork both spaces name x, and both entries are write-protected. */
  lemma ForkShares(s: Sys, a: nat, b: nat, t: nat, x: nat) returns (u: nat)
    requires OnePage(s, a, t, x, {(t, 0)}) && a != b && b in s.dirs && CopyPage(s, a, b).Some?
    ensures var s' := CopyPage(s, a, b).value;
      && OnePage(s', a, t, x, {(t, 0), (u, 0)}) && Shares(s', b, u, x) && u != t
      && !Writable(Pte(s', a, 0, 0)) && !Writable(Pte(s', b, 0, 0))
  {
    u := SlotsShare(s, a, b, t, x, USER_DIRS);
    KernelSlotsShare(CopySlots(s, a, b, USER_DIRS).value, a, b, ENTRIES, t, u, x, {(t, 0), (u, 0)}, CopyPage(s, a, b).value);
    SharersProtected(CopyPage(s, a, b).value, t, 0, true);
  }

  /** Copying for entry (u, 0) takes it off x and leaves every other word outside the copy. */
  lemma CopyMoves(s: Sys, u: nat, x: nat, f: nat)
    requires Inv(s, true) && u in s.owner && x != f && x !in s.dirs && x !in s.owner && x < |s.ram|
    requires f < |s.ram| && f < MAX_FRAMES && f !in s.dirs && f !in s.owner
    ensures var s' := CopyFrame(s, u, 0, x, f);
      && s'.dirs == s.dirs && s'.owner == s.owner && Refs(s', x) == Refs(s, x) - {(u, 0)}
      && forall g, w :: g != f && 0 <= g && 0 <= w && (g, w) != (u, 0) ==> Peek(s'.ram, g, w) == Peek(s.ram, g, w)
  {
    var s' := CopyFrame(s, u, 0, x, f);
    EntryWord(f, USER_RW);
    var ram := Poke(s.ram, u, 0, f * 4096 + USER_RW);
    assert s'.ram == ram[f := ram[x]];
    forall g, w | g != f && 0 <= g && 0 <= w && (g, w) != (u, 0) ensures Peek(s'.ram, g, w) == Peek(s.ram, g, w) {
      assert Peek(s'.ram, g, w) == Peek(ram, g, w);
    }
    CopyFrameShape(s, u, 0, x, f, true);
    RefsAfter(s, s', u, 0, x);
    assert (u, 0) !in Refs(s', x);
    assert Refs(s', x) == Refs(s', x) - {(u, 0)};
  }

  lemma FaultMoves(s: Sys, b: nat, u: nat, x: nat) returns (f: nat)
    requires Inv(s, true) && Shares(s, b, u, x) && WpFault(s, b, 0, 0).Some?
    ensures f < MAX_FRAMES && f !in s.dirs && f !in s.owner
    ensures var s' := WpFault(s, b, 0, 0).value;
      && Inv(s', true) && s'.dirs == s.dirs && s'.owner == s.owner
      && Refs(s', x) == Refs(s, x) - {(u, 0)}
      && forall g, w :: g != f && 0 <= g && 0 <= w && (g, w) != (u, 0) ==> Peek(s'.ram, g, w) == Peek(s.ram, g, w)
  {
    assert Inv(WpFault(s, b, 0, 0).value, true) && PageOf(s, x).count >= 2 by { WpFaultInv(s, b, 0, 0, true); }
    assert x < |s.ram| && x !in s.dirs && x !in s.owner && Live(s, x) by { SlotPath(s, b, 0, 0, true); }
    AllocFresh(s, true);
    AllocInv(s, true);
    var s1 := Alloc(s).value.1;
    f := Alloc(s).value.0;
    assert WpFault(s, b, 0, 0).value == CopyFrame(s1, u, 0, x, f);
    CopyMoves(s1, u, x, f);
  }

  /** The child's write fault leaves the parent's entry as the only one that names x. */
  lemma ChildFault(s: Sys, a: nat, b: nat, t: nat, u: nat, x: nat)
    requires OnePage(s, a, t, x, {(t, 0), (u, 0)}) && Shares(s, b, u, x) && a != b && u != t
    requires !Writable(Pte(s, a, 0, 0)) && WpFault(s, b, 0, 0).Some?
    ensures var s' := WpFault(s, b, 0, 0).value;
      Inv(s', true) && a in s'.dirs && Pte(s', a, 0, 0) != 0 && !Writable(Pte(s', a, 0, 0))
      && FrameOf(Pte(s', a, 0, 0)) == x && Refs(s', x) == {(t, 0)}
  {
    var f := FaultMoves(s, b, u, x);
    SlotPath(s, a, 0, 0, true);
    var s' := WpFault(s, b, 0, 0).value;
    assert Peek(s'.ram, a, 0) == Peek(s.ram, a, 0);
    assert Peek(s'.ram, t, 0) == Peek(s.ram, t, 0);
    assert {(t, 0), (u, 0)} - {(u, 0)} == {(t, 0)};
  }

  function LeakSteps(a: nat, b: nat): seq<Step> {
    [NewDir(a), MissingFault(a, 0, 0, false), NewDir(b), Fork(a, b), WriteFault(b, 0, 0), WriteFault(a, 0, 0)]
  }

  /** A frame is in use with count 1 that is no directory and no table, and that no entry names. */
  ghost predicate Leaked(s: Sys, x: nat) {
    Live(s, x) && PageOf(s, x).count == 1 && x !in s.dirs && x !in s.owner && Refs(s, x) == {}
  }

  lemma LeakTail(s: Sys, a: nat, b: nat, t: nat, x: nat)
    requires OnePage(s, a, t, x, {(t, 0)}) && a != b && b in s.dirs
    requires Run(s, [Fork(a, b), WriteFault(b, 0, 0), WriteFault(a, 0, 0)]).Some?
    ensures Leaked(Run(s, [Fork(a, b), WriteFault(b, 0, 0), WriteFault(a, 0, 0)]).value, x)
  {
    var steps := [Fork(a, b), WriteFault(b, 0, 0), WriteFault(a, 0, 0)];
    assert steps[1..] == [WriteFault(b, 0, 0), WriteFault(a, 0, 0)];
    assert steps[1..][1..] == [WriteFault(a, 0, 0)] && steps[1..][1..][1..] == [];
    var u := ForkShares(s, a, b, t, x);
    var s1 := CopyPage(s, a, b).value;
    assert Run(s, steps) == Run(s1, steps[1..]);
    ChildFault(s1, a, b, t, u, x);
    var s2 := WpFault(s1, b, 0, 0).value;
    assert Run(s1, steps[1..]) == Run(s2, steps[1..][1..]);
    LastFault(s2, a, x);
    assert Run(s2, steps[1..][1..]) == Run(WpFault(s2, a, 0, 0).value, []);
  }

  lemma LastFault(s: Sys, a: nat, x: nat)
    requires Inv(s, true) && a in s.dirs && Pte(s, a, 0, 0) != 0 && FrameOf(Pte(s, a, 0, 0)) == x && |Refs(s, x)| == 1
    requires WpFault(s, a, 0, 0).Some?
    ensures Leaked(WpFault(s, a, 0, 0).value, x)
  {
    SlotPath(s, a, 0, 0, true);
    assert EntryOk(s, FrameOf(Pde(s, a, 0)), 0, true);
    LastSharerLeaks(s, a, 0, 0);
  }

  /** Fork, then both the child and the parent write: from boot this ends with a leaked frame. */
  lemma BothWritersLeak(s: Sys, a: nat, b: nat) returns (x: nat)
    requires Booted(s) && Legal(s, LeakSteps(a, b)) && Run(s, LeakSteps(a, b)).Some?
    ensures Leaked(Run(s, LeakSteps(a, b)).value, x)
  {
    var steps := LeakSteps(a, b);
    var t;
    var s1 := CreateDir(s).value.1;
    FirstDirIs(s);
    assert Run(s, steps) == Run(s1, steps[1..]);
    t, x := FirstFault(s1, a);
    var s2 := NoPage(s1, a, 0, 0, false).value;
    assert steps[1..][1..] == steps[2..] && Run(s1, steps[1..]) == Run(s2, steps[2..]);
    SecondDir(s2, a, t, x, {(t, 0)});
    var s3 := CreateDir(s2).value.1;
    assert steps[2..][1..] == steps[3..] && Run(s2, steps[2..]) == Run(s3, steps[3..]);
    assert steps[3..] == [Fork(a, b), WriteFault(b, 0, 0), WriteFault(a, 0, 0)];
    assert Legal(s2, steps[2..]);
    LeakTail(s3, a, b, t, x);
  }

  // ----- the run exists

  /** At most n frames came into use. */
  ghost predicate Costs(s: Sys, s': Sys, n: nat) {
    |Unused(s'.pages)| + n >= |Unused(s.pages)|
  }

  /** The same frames are in use. */
  ghost predicate SameUse(s: Sys, s': Sys) {
    |s'.pages| == |s.pages| && forall f :: 0 <= f < |s.pages| ==> s'.pages[f].Used() == s.pages[f].Used()
  }

  lemma SameUnused(s: Sys, s': Sys)
    requires SameUse(s, s')
    ensures Costs(s, s', 0)
  {
    assert Unused(s'.pages) == Unused(s.pages);
  }

  lemma AllocCosts(s: Sys)
    requires |s.ram| == |s.pages| <= MAX_FRAMES && Unused(s.pages) != {}
    ensures Alloc(s).Some? && Costs(s, Alloc(s).value.1, 1)
  {
    TakenUsesUp(s.pages);
  }

  lemma EntryUse(s: Sys, a: nat, b: nat, i: nat, j: nat)
    ensures SameUse(s, ShareEntry(s, a, b, i, j))
  {
  }

  lemma {:induction false} RowUse(ss: seq<Sys>, a: nat, b: nat, i: nat, n: nat)
    requires n < |ss| && forall k :: 0 <= k < n ==> RowNext(ss, a, b, i, k)
    ensures SameUse(ss[0], ss[n])
    decreases n
  {
    if n > 0 {
      RowUse(ss, a, b, i, n - 1);
      assert RowNext(ss, a, b, i, n - 1);
      EntryUse(ss[n - 1], a, b, i, n - 1);
    }
  }

  lemma FirstSlotCosts(s: Sys, a: nat, b: nat)
    requires Inv(s, true) && Unused(s.pages) != {}
    ensures CopySlot(s, a, b, 0).Some? && Costs(s, CopySlot(s, a, b, 0).value, 1)
  {
    AllocCosts(s);
    if Pde(s, a, 0) != 0 {
      var s1 := InstallTable(s, b, 0, USER_RW).value;
      var s' := ShareEntries(s1, a, b, 0, ENTRIES);
      var ss := RowStates(s1, a, b, 0, ENTRIES);
      RowUse(ss, a, b, 0, ENTRIES);
      SameUnused(s1, s');
    }
  }

  /** The only table that the fork makes is for slot 0. */
  lemma {:induction false} SlotsCost(s: Sys, a: nat, b: nat, t: nat, x: nat, n: nat)
    requires OnePage(s, a, t, x, {(t, 0)}) && a != b && b in s.dirs && 1 <= n <= USER_DIRS && Unused(s.pages) != {}
    ensures CopySlots(s, a, b, n).Some? && Costs(s, CopySlots(s, a, b, n).value, 1)
  {
    if n == 1 {
      assert CopySlots(s, a, b, 0) == Some(s);
      FirstSlotCosts(s, a, b);
    } else {
      SlotsCost(s, a, b, t, x, n - 1);
      var u := SlotsShare(s, a, b, t, x, n - 1);
      var s1 := CopySlots(s, a, b, n - 1).value;
      assert Zero(s1, a, n - 1);
      SameUnused(s1, CopySlots(s, a, b, n).value);
    }
  }

  lemma ForkCosts(s: Sys, a: nat, b: nat, t: nat, x: nat)
    requires OnePage(s, a, t, x, {(t, 0)}) && a != b && b in s.dirs && Unused(s.pages) != {}
    ensures CopyPage(s, a, b).Some? && Costs(s, CopyPage(s, a, b).value, 1)
  {
    SlotsCost(s, a, b, t, x, USER_DIRS);
    var s1 := CopySlots(s, a, b, USER_DIRS).value;
    ForkWords.KernelSlotsPages(s1, b, ENTRIES);
    SameUnused(s1, CopyPage(s, a, b).value);
  }

  lemma FaultCosts(s: Sys, d: nat)
    requires Inv(s, true) && d in s.dirs && Pte(s, d, 0, 0) != 0 && Unused(s.pages) != {}
    ensures WpFault(s, d, 0, 0).Some? && Costs(s, WpFault(s, d, 0, 0).value, 1)
  {
    WpFaultInv(s, d, 0, 0, true);
    SlotPath(s, d, 0, 0, true);
    AllocCosts(s);
    SameUnused(Alloc(s).value.1, WpFault(s, d, 0, 0).value);
  }

  lemma NoPageCosts(s: Sys, d: nat, j: nat)
    requires Inv(s, true) && |Unused(s.pages)| >= 2
    ensures NoPage(s, d, 0, j, false).Some? && Costs(s, NoPage(s, d, 0, j, false).value, 2)
  {
    AllocCosts(s);
    var (f, s1) := Alloc(s).value;
    AllocCosts(s1);
    SameUnused(InstallTable(s1, d, 0, USER_RW).value, NoPage(s, d, 0, j, false).value);
  }

  lemma DirCosts(s: Sys)
    requires |s.ram| == |s.pages| <= MAX_FRAMES && Unused(s.pages) != {}
    ensures CreateDir(s).Some? && Costs(s, CreateDir(s).value.1, 1)
  {
    AllocCosts(s);
    SameUnused(Alloc(s).value.1, CreateDir(s).value.1);
  }

  /** The three steps of LeakTail, legal and with frames enough. */
  lemma TailRuns(s: Sys, a: nat, b: nat, t: nat, x: nat)
    requires OnePage(s, a, t, x, {(t, 0)}) && a != b && b in s.dirs && |Unused(s.pages)| >= 3
    ensures Legal(s, [Fork(a, b), WriteFault(b, 0, 0), WriteFault(a, 0, 0)])
    ensures Run(s, [Fork(a, b), WriteFault(b, 0, 0), WriteFault(a, 0, 0)]).Some?
  {
    ForkCosts(s, a, b, t, x);
    var u := ForkShares(s, a, b, t, x);
    var s1 := CopyPage(s, a, b).value;
    FaultCosts(s1, b);
    ChildFault(s1, a, b, t, u, x);
    var s2 := WpFault(s1, b, 0, 0).value;
    FaultCosts(s2, a);
    TailUnfolds(s, s1, s2, a, b);
  }

  lemma TailUnfolds(s: Sys, s1: Sys, s2: Sys, a: nat, b: nat)
    requires Enabled(s, Fork(a, b)) && CopyPage(s, a, b) == Some(s1)
    requires Enabled(s1, WriteFault(b, 0, 0)) && WpFault(s1, b, 0, 0) == Some(s2)
    requires Enabled(s2, WriteFault(a, 0, 0)) && WpFault(s2, a, 0, 0).Some?
    ensures Legal(s, [Fork(a, b), WriteFault(b, 0, 0), WriteFault(a, 0, 0)])
    ensures Run(s, [Fork(a, b), WriteFault(b, 0, 0), WriteFault(a, 0, 0)]).Some?
  {
    var f1, f2 := WriteFault(b, 0, 0), WriteFault(a, 0, 0);
    FirstStep(s2, f2, WpFault(s2, a, 0, 0).value, [], [f2]);
    FirstStep(s1, f1, s2, [f2], [f1, f2]);
    FirstStep(s, Fork(a, b), s1, [f1, f2], [Fork(a, b), f1, f2]);
  }

  lemma FirstDirIs(s: Sys)
    requires Booted(s) && CreateDir(s).Some?
    ensures var (a, s1) := CreateDir(s).value;
      Inv(s1, true) && a in s1.dirs && Pde(s1, a, 0) == 0 && Bare(s1, a, USER_DIRS)
  {
    CreateDirInv(s, true);
    var (a, s1) := CreateDir(s).value;
    forall w | 1 <= w < USER_DIRS ensures Zero(s1, a, w) {}
  }

  /** Two address spaces, the first with one page. */
  function Front(a: nat, b: nat): seq<Step> {
    [NewDir(a), MissingFault(a, 0, 0, false), NewDir(b)]
  }

  lemma FrontIs(a: nat, b: nat, rest: seq<Step>)
    ensures Front(a, b) + rest == [NewDir(a)] + ([MissingFault(a, 0, 0, false)] + ([NewDir(b)] + rest))
  {
  }

  lemma FrontUnfolds(s: Sys, s1: Sys, s2: Sys, s3: Sys, a: nat, b: nat, rest: seq<Step>)
    requires CreateDir(s) == Some((a, s1)) && CreateDir(s2) == Some((b, s3))
    requires Enabled(s1, MissingFault(a, 0, 0, false)) && NoPage(s1, a, 0, 0, false) == Some(s2)
    requires Legal(s3, rest)
    ensures Legal(s, Front(a, b) + rest) && Run(s, Front(a, b) + rest) == Run(s3, rest)
  {
    var f := MissingFault(a, 0, 0, false);
    var tail := [NewDir(b)] + rest;
    var more := [f] + tail;
    FirstStep(s2, NewDir(b), s3, rest, tail);
    FirstStep(s1, f, s2, tail, more);
    FrontIs(a, b, rest);
    FirstStep(s, NewDir(a), s1, more, Front(a, b) + rest);
  }

  /** Those steps from boot, at the cost of four frames. */
  lemma TwoSpaces(s: Sys) returns (a: nat, b: nat, t: nat, x: nat, s1: Sys, s2: Sys, s3: Sys)
    requires Booted(s) && |Unused(s.pages)| >= 4
    ensures CreateDir(s) == Some((a, s1)) && CreateDir(s2) == Some((b, s3))
    ensures Enabled(s1, MissingFault(a, 0, 0, false)) && NoPage(s1, a, 0, 0, false) == Some(s2)
    ensures OnePage(s3, a, t, x, {(t, 0)}) && a != b && b in s3.dirs && Costs(s, s3, 4)
  {
    DirCosts(s);
    s1 := CreateDir(s).value.1;
    a := CreateDir(s).value.0;
    FirstDirIs(s);
    NoPageCosts(s1, a, 0);
    t, x := FirstFault(s1, a);
    s2 := NoPage(s1, a, 0, 0, false).value;
    DirCosts(s2);
    SecondDir(s2, a, t, x, {(t, 0)});
    s3 := CreateDir(s2).value.1;
    b := CreateDir(s2).value.0;
  }

  lemma LeakStepsAre(a: nat, b: nat)
    ensures LeakSteps(a, b) == Front(a, b) + [Fork(a, b), WriteFault(b, 0, 0), WriteFault(a, 0, 0)]
  {
  }

  /** From boot with seven unused frames the run exists, whatever frames it is given. */
  lemma BothWritersRun(s: Sys) returns (a: nat, b: nat)
    requires Booted(s) && |Unused(s.pages)| >= 7
    ensures Legal(s, LeakSteps(a, b)) && Run(s, LeakSteps(a, b)).Some?
  {
    var t, x, s1, s2, s3;
    a, b, t, x, s1, s2, s3 := TwoSpaces(s);
    var rest := [Fork(a, b), WriteFault(b, 0, 0), WriteFault(a, 0, 0)];
    TailRuns(s3, a, b, t, x);
    FrontUnfolds(s, s1, s2, s3, a, b, rest);
    LeakStepsAre(a, b);
  }

  // ----- stores of the supervisor

  /** After the fork, a store of another value through the parent's entry, which the processor
      lets the supervisor make, shows in the child. */
  lemma SupervisorStoreShows(s: Sys) returns (a: nat, b: nat, s': Sys)
    requires Booted(s) && |Unused(s.pages)| >= 5
    ensures Legal(s, Front(a, b) + [Fork(a, b)]) && Run(s, Front(a, b) + [Fork(a, b)]) == Some(s')
    ensures a != b && a in s'.dirs && b in s'.dirs && Pte(s', a, 0, 0) != 0
    ensures forall w: nat, v: Word :: w < FRAME_WORDS && v != Peek(s'.ram, FrameOf(Pte(s', a, 0, 0)), w) ==>
      Slot(Store(s', a, 0, 0, w, v), b, 0, 0) != Slot(s', b, 0, 0)
  {
    var t, x, s1, s2, s3;
    a, b, t, x, s1, s2, s3 := TwoSpaces(s);
    ForkCosts(s3, a, b, t, x);
    var u := ForkShares(s3, a, b, t, x);
    s' := CopyPage(s3, a, b).value;
    OneFork(s3, a, b, s');
    FrontUnfolds(s, s1, s2, s3, a, b, [Fork(a, b)]);
    forall w: nat, v: Word | w < FRAME_WORDS && v != Peek(s'.ram, FrameOf(Pte(s', a, 0, 0)), w)
      ensures Slot(Store(s', a, 0, 0, w, v), b, 0, 0) != Slot(s', b, 0, 0)
    {
      StoreShows(s', a, b, t, u, x, w, v);
    }
  }

  lemma OneFork(s: Sys, a: nat, b: nat, s': Sys)
    requires Enabled(s, Fork(a, b)) && CopyPage(s, a, b) == Some(s')
    ensures Legal(s, [Fork(a, b)]) && Run(s, [Fork(a, b)]) == Some(s')
  {
    FirstStep(s, Fork(a, b), s', [], [Fork(a, b)]);
  }

  lemma StoreShows(s: Sys, a: nat, b: nat, t: nat, u: nat, x: nat, w: nat, v: Word)
    requires OnePage(s, a, t, x, {(t, 0), (u, 0)}) && Shares(s, b, u, x) && a != b
    requires w < FRAME_WORDS && v != Peek(s.ram, x, w)
    ensures Slot(Store(s, a, 0, 0, w, v), b, 0, 0) != Slot(s, b, 0, 0)
  {
    SlotPath(s, a, 0, 0, true);
    SlotPath(s, b, 0, 0, true);
    StoreReaches(s, a, 0, 0, w, v, b, 0, 0, true);
  }

  // ----- two missing pages of one region

  /** From boot with five unused frames the run of SecondFaultDropsFirst exists. */
  lemma SecondFaultRun(s: Sys) returns (id: nat)
    requires Booted(s) && |Unused(s.pages)| >= 5
    ensures Legal(s, TwoFaults(id)) && Run(s, TwoFaults(id)).Some?
  {
    DirCosts(s);
    var s1 := CreateDir(s).value.1;
    id := CreateDir(s).value.0;
    FirstDirIs(s);
    NoPageCosts(s1, id, 0);
    var s2 := NoPage(s1, id, 0, 0, false).value;
    NoPageInv(s1, id, 0, 0, false, true);
    NoPageCosts(s2, id, 1);
    FaultsUnfold(s, s1, s2, id);
  }

  lemma FaultsUnfold(s: Sys, s1: Sys, s2: Sys, id: nat)
    requires CreateDir(s) == Some((id, s1)) && id in s1.dirs && s2.dirs == s1.dirs
    requires NoPage(s1, id, 0, 0, false) == Some(s2) && NoPage(s2, id, 0, 1, false).Some?
    ensures Legal(s, TwoFaults(id)) && Run(s, TwoFaults(id)).Some?
  {
    var f1, f2 := MissingFault(id, 0, 0, false), MissingFault(id, 0, 1, false);
    FirstStep(s2, f2, NoPage(s2, id, 0, 1, false).value, [], [f2]);
    FirstStep(s1, f1, s2, [f2], [f1, f2]);
    FirstStep(s, NewDir(id), s1, [f1, f2], TwoFaults(id));
  }
}
