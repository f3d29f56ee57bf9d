/** Every paging operation keeps `Paging.Inv`. */
module CowInvariant {
  import opened Frames
  import opened Paging
  import opened Mmu
  import opened Sets

  // ----- how one page-table word changes the reference sets

  /** s' differs from s in at most the table word (t, j), frame contents and page counts. */
  ghost predicate OnlyEntry(s: Sys, s': Sys, t: nat, j: nat) {
    && s'.dirs == s.dirs && s'.owner == s.owner && |s'.ram| == |s.ram| && |s'.pages| == |s.pages|
    && (forall d, i :: d in s.dirs && 0 <= i < USER_DIRS ==> Pde(s', d, i) == Pde(s, d, i))
    && (forall t', j' :: t' in s.owner && 0 <= j' < ENTRIES && (t', j') != (t, j)
          ==> Peek(s'.ram, t', j') == Peek(s.ram, t', j'))
    && (forall f :: Live(s, f) ==> Live(s', f))
  }

  lemma RefsOthers(s: Sys, s': Sys, t: nat, j: nat, u: nat)
    requires t in s.owner && j < ENTRIES && OnlyEntry(s, s', t, j)
    ensures Refs(s', u) - {(t, j)} == Refs(s, u) - {(t, j)}
  {
    forall r | r in Refs(s, u) - {(t, j)} ensures r in Refs(s', u) {
      assert Names(s', r.0, r.1, u);
    }
    forall r | r in Refs(s', u) - {(t, j)} ensures r in Refs(s, u) {
      assert Names(s, r.0, r.1, u);
    }
  }

  lemma CardWithout<T>(a: set<T>, x: T)
    ensures |a| == |a - {x}| + if x in a then 1 else 0
  {
    if x in a {
      assert a == (a - {x}) + {x};
    } else {
      assert a == a - {x};
    }
  }

  lemma RefsAfter(s: Sys, s': Sys, t: nat, j: nat, u: nat)
    requires t in s.owner && j < ENTRIES && OnlyEntry(s, s', t, j)
    ensures Refs(s', u) - {(t, j)} == Refs(s, u) - {(t, j)}
    ensures (t, j) in Refs(s', u) <==> Hit(Peek(s'.ram, t, j), u) == 1
    ensures |Refs(s', u)| == |Refs(s, u)| - Hit(Peek(s.ram, t, j), u) + Hit(Peek(s'.ram, t, j), u)
  {
    RefsOthers(s, s', t, j, u);
    CardWithout(Refs(s, u), (t, j));
    CardWithout(Refs(s', u), (t, j));
    assert Names(s, t, j, u) <==> (t, j) in Refs(s, u);
  }

  /** The reference sets depend only on the words of the tables. */
  lemma RefsSame(s: Sys, s': Sys, u: nat)
    requires s'.owner.Keys == s.owner.Keys
    requires forall t, j :: t in s.owner && 0 <= j < ENTRIES ==> Peek(s'.ram, t, j) == Peek(s.ram, t, j)
    ensures Refs(s', u) == Refs(s, u)
  {
  }

  lemma {:induction false} RowBound(s: Sys, t: nat, u: nat, n: nat)
    requires n <= ENTRIES
    ensures |set j: nat | j < n && Names(s, t, j, u) :: (t, j)| <= n
  {
    var row := set j: nat | j < n && Names(s, t, j, u) :: (t, j);
    if n > 0 {
      RowBound(s, t, u, n - 1);
      var rest := set j: nat | j < n - 1 && Names(s, t, j, u) :: (t, j);
      assert row <= rest + {(t, n - 1)};
      SubsetSize(row, rest + {(t, n - 1)});
    }
  }

  lemma {:induction false} BoundedSetCard(a: set<nat>, n: nat)
    requires forall x :: x in a ==> x < n
    ensures |a| <= n
  {
    if n > 0 {
      BoundedSetCard(a - {n - 1}, n - 1);
      assert a <= (a - {n - 1}) + {n - 1};
      SubsetSize(a, (a - {n - 1}) + {n - 1});
    }
  }

  lemma {:induction false} RefsBoundOver(s: Sys, tables: set<nat>, u: nat)
    ensures |set t: nat, j: nat | t in tables && j < ENTRIES && Names(s, t, j, u) :: (t, j)| <= ENTRIES * |tables|
  {
    var all := set t: nat, j: nat | t in tables && j < ENTRIES && Names(s, t, j, u) :: (t, j);
    if t :| t in tables {
      RefsBoundOver(s, tables - {t}, u);
      RowBound(s, t, u, ENTRIES);
      var rest := set t': nat, j: nat | t' in tables - {t} && j < ENTRIES && Names(s, t', j, u) :: (t', j);
      var row := set j: nat | j < ENTRIES && Names(s, t, j, u) :: (t, j);
      assert all == rest + row;
    }
  }

  /** A frame has at most 2^30 references, so its 32-bit counter cannot wrap. */
  lemma RefsBound(s: Sys, u: nat, strict: bool)
    requires Inv(s, strict)
    ensures |Refs(s, u)| <= 0x4000_0000
  {
    RefsBoundOver(s, s.owner.Keys, u);
    assert Refs(s, u) == set t: nat, j: nat | t in s.owner.Keys && j < ENTRIES && Names(s, t, j, u) :: (t, j);
    BoundedSetCard(s.owner.Keys, |s.ram|);
  }

  // ----- allocation

  /** What get_free_page hands out is not a directory, not a table and not named. */
  lemma AllocFresh(s: Sys, strict: bool)
    requires Inv(s, strict) && Alloc(s).Some?
    ensures var f := Alloc(s).value.0;
      && f < |s.ram| && !s.pages[f].Used() && f !in s.dirs && f !in s.owner && Refs(s, f) == {}
  {
    var f := Alloc(s).value.0;
    forall t, j | t in s.owner && 0 <= j < ENTRIES ensures !Names(s, t, j, f) {
      assert EntryOk(s, t, j, strict);
    }
  }

  lemma AllocInv(s: Sys, strict: bool)
    requires Inv(s, strict) && Alloc(s).Some?
    ensures var (f, s1) := Alloc(s).value;
      && Inv(s1, strict) && Live(s1, f) && PageOf(s1, f).count == 1
      && f !in s1.dirs && f !in s1.owner && Refs(s1, f) == {}
      && s1.dirs == s.dirs && s1.owner == s.owner
      && (forall u :: Refs(s1, u) == Refs(s, u))
  {
    var (f, s1) := Alloc(s).value;
    AllocFresh(s, strict);
    forall u ensures Refs(s1, u) == Refs(s, u) { RefsSame(s, s1, u); }
    forall d, i | d in s1.dirs && 0 <= i < USER_DIRS ensures SlotOk(s1, d, i) {
      assert SlotOk(s, d, i);
    }
    forall t, j | t in s1.owner && 0 <= j < ENTRIES ensures EntryOk(s1, t, j, strict) {
      assert EntryOk(s, t, j, strict);
    }
  }

  lemma CreateDirInv(s: Sys, strict: bool)
    requires Inv(s, strict) && CreateDir(s).Some?
    ensures Inv(CreateDir(s).value.1, strict)
  {
    AllocInv(s, strict);
    var (f, s1) := Alloc(s).value;
    var s2 := s1.(dirs := s1.dirs + {f});
    forall t, j | t in s2.owner && 0 <= j < ENTRIES ensures EntryOk(s2, t, j, strict) {
      assert EntryOk(s1, t, j, strict);
      assert (t, j) !in Refs(s1, f);
      RefsSame(s1, s2, FrameOf(Peek(s1.ram, t, j)));
    }
    forall d, i | d in s2.dirs && 0 <= i < USER_DIRS ensures SlotOk(s2, d, i) {
      if d == f { assert Pde(s2, d, i) == 0; } else { assert SlotOk(s1, d, i); }
    }
  }

  /** Clearing a directory word, or writing one of the kernel half. */
  lemma SetDirWordInv(s: Sys, d: nat, i: nat, v: Word, strict: bool)
    requires Inv(s, strict) && d in s.dirs && (v == 0 || USER_DIRS <= i)
    ensures Inv(SetPte(s, d, i, v), strict)
    ensures forall u :: Refs(SetPte(s, d, i, v), u) == Refs(s, u)
  {
    var s' := SetPte(s, d, i, v);
    forall u ensures Refs(s', u) == Refs(s, u) { RefsSame(s, s', u); }
    forall d', i' | d' in s'.dirs && 0 <= i' < USER_DIRS ensures SlotOk(s', d', i') {
      assert SlotOk(s, d', i');
    }
    forall t, j | t in s'.owner && 0 <= j < ENTRIES ensures EntryOk(s', t, j, strict) {
      assert EntryOk(s, t, j, strict);
    }
  }

  lemma InstallTableInv(s: Sys, d: nat, i: nat, attr: nat, strict: bool)
    requires Inv(s, strict) && d in s.dirs && i < ENTRIES && 0 < attr < FRAME_SIZE && InstallTable(s, d, i, attr).Some?
    ensures var s' := InstallTable(s, d, i, attr).value; var t := Alloc(s).value.0;
      && Inv(s', strict) && s'.dirs == s.dirs && s'.owner == s.owner[t := (d, i)]
      && (Pde(s', d, i) > 0 && FrameOf(Pde(s', d, i)) == t && t !in s.owner && t !in s.dirs)
      && (forall j :: 0 <= j < ENTRIES ==> Peek(s'.ram, t, j) == 0)
      && (forall u :: Refs(s', u) == Refs(s, u))
  {
    AllocInv(s, strict);
    AllocFresh(s, strict);
    var (t, s1) := Alloc(s).value;
    var s' := InstallTable(s, d, i, attr).value;
    assert forall j :: 0 <= j < ENTRIES ==> Peek(s'.ram, t, j) == 0;
    forall u ensures Refs(s', u) == Refs(s1, u) {
      assert forall t', j :: t' in s1.owner && 0 <= j < ENTRIES ==> Peek(s'.ram, t', j) == Peek(s1.ram, t', j);
    }
    forall d', i' | d' in s'.dirs && 0 <= i' < USER_DIRS ensures SlotOk(s', d', i') {
      assert SlotOk(s1, d', i');
    }
    forall t', j | t' in s'.owner && 0 <= j < ENTRIES ensures EntryOk(s', t', j, strict) {
      if t' != t {
        assert EntryOk(s1, t', j, strict);
        assert (t', j) !in Refs(s1, t);
      }
    }
  }

  // ----- page-table entries

  /** The frame u may be named by the new word q in place (t, j). */
  ghost predicate Nameable(s: Sys, s': Sys, t: nat, j: nat, q: Word, u: nat, strict: bool) {
    && q != PG_RWW && Live(s', u) && u !in s.dirs && u !in s.owner
    && (PageOf(s, u).count == |Refs(s, u)| + 1 || (!strict && PageOf(s, u).count == |Refs(s, u)|))
    && (forall r :: r in Refs(s, u) && r != (t, j) ==> !Writable(Peek(s.ram, r.0, r.1)) && !Writable(q))
  }

  /** Every page-table update is an instance of this: one word changes, and the count of
      each frame moves by the references that word dropped and made. */
  lemma ChangeEntry(s: Sys, s': Sys, t: nat, j: nat, strict: bool)
    requires Inv(s, strict) && t in s.owner && j < ENTRIES && OnlyEntry(s, s', t, j)
    requires forall u :: 0 <= u < |s.pages| ==>
      PageOf(s', u).count == PageOf(s, u).count - Hit(Peek(s.ram, t, j), u) + Hit(Peek(s'.ram, t, j), u)
    requires var q := Peek(s'.ram, t, j); q != 0 ==> Nameable(s, s', t, j, q, FrameOf(q), strict)
    ensures Inv(s', strict)
  {
    forall d, i | d in s'.dirs && 0 <= i < USER_DIRS ensures SlotOk(s', d, i) {
      assert SlotOk(s, d, i);
    }
    forall t', j' | t' in s'.owner && 0 <= j' < ENTRIES ensures EntryOk(s', t', j', strict) {
      var u := FrameOf(Peek(s'.ram, t', j'));
      RefsAfter(s, s', t, j, u);
      assert EntryOk(s, t', j', strict);
      assert Names(s, t', j', u) ==> (t', j') in Refs(s, u);
    }
  }

  /** Two entries that name the same frame are both write-protected. */
  lemma SharersProtected(s: Sys, t: nat, j: nat, strict: bool)
    requires Inv(s, strict) && t in s.owner && j < ENTRIES && Peek(s.ram, t, j) != 0
    ensures var u := FrameOf(Peek(s.ram, t, j));
      && (t, j) in Refs(s, u) && 1 <= |Refs(s, u)| && (|Refs(s, u)| == 1 ==> Refs(s, u) == {(t, j)})
      && forall r :: r in Refs(s, u) && r != (t, j) ==> !Writable(Peek(s.ram, r.0, r.1)) && !Writable(Peek(s.ram, t, j))
  {
    var u := FrameOf(Peek(s.ram, t, j));
    assert Names(s, t, j, u);
    SingletonRefs(Refs(s, u), (t, j));
    assert EntryOk(s, t, j, strict);
    forall r | r in Refs(s, u) && r != (t, j)
      ensures !Writable(Peek(s.ram, r.0, r.1)) && !Writable(Peek(s.ram, t, j))
    {
      assert EntryOk(s, r.0, r.1, strict);
    }
  }

  lemma EntryWord(f: nat, attr: nat)
    requires attr in {USER_RW, KERNEL_RW} && f < MAX_FRAMES
    ensures var p := f * 4096 + attr; PG_RWW < p < 0x1_0000_0000 && FrameOf(p) == f && Writable(p)
  {
    EntryBits(f, attr, f * 4096 + attr);
  }

  lemma MapFreshInv(s: Sys, t: nat, j: nat, f: nat, attr: nat, strict: bool)
    requires Inv(s, strict) && t in s.owner && j < ENTRIES && attr in {USER_RW, KERNEL_RW} && Peek(s.ram, t, j) == 0
    requires Live(s, f) && PageOf(s, f).count == 1 && f !in s.dirs && f !in s.owner && Refs(s, f) == {}
    requires f < MAX_FRAMES
    ensures Inv(MapFresh(s, t, j, f, attr), strict)
  {
    EntryWord(f, attr);
    ChangeEntry(s, MapFresh(s, t, j, f, attr), t, j, strict);
  }

  /** Write-protecting an entry. */
  lemma ProtectInv(s: Sys, t: nat, j: nat, strict: bool)
    requires Inv(s, strict) && t in s.owner && j < ENTRIES && Peek(s.ram, t, j) != 0
    ensures var p := Protect(Peek(s.ram, t, j)); Inv(SetPte(s, t, j, p), strict)
  {
    assert EntryOk(s, t, j, strict);
    ProtectBits(Peek(s.ram, t, j));
    SharersProtected(s, t, j, strict);
    ChangeEntry(s, SetPte(s, t, j, Protect(Peek(s.ram, t, j))), t, j, strict);
  }

  /** Copying a write-protected entry of (t, j) into the empty place (u, j). */
  lemma DuplicateInv(s: Sys, t: nat, u: nat, j: nat, strict: bool)
    requires Inv(s, strict) && t in s.owner && u in s.owner && t != u && j < ENTRIES
    requires Peek(s.ram, t, j) != 0 && !Writable(Peek(s.ram, t, j)) && Peek(s.ram, u, j) == 0
    ensures var p := Peek(s.ram, t, j); var s1 := SetPte(s, u, j, p);
      Inv(SetPage(s1, FrameOf(p), PageOf(s1, FrameOf(p)).Inc().MarkCow()), strict)
  {
    var p := Peek(s.ram, t, j);
    var s1 := SetPte(s, u, j, p);
    var s' := SetPage(s1, FrameOf(p), PageOf(s1, FrameOf(p)).Inc().MarkCow());
    assert EntryOk(s, t, j, strict);
    RefsBound(s, FrameOf(p), strict);
    SharersProtected(s, t, j, strict);
    ChangeEntry(s, s', u, j, strict);
  }

  lemma ShareEntryInv(s: Sys, src: nat, dst: nat, i: nat, j: nat, strict: bool)
    requires Inv(s, strict) && src in s.dirs && dst in s.dirs && src != dst && i < USER_DIRS && j < ENTRIES
    requires Pde(s, src, i) != 0 && Pde(s, dst, i) != 0 && Pte(s, dst, i, j) == 0
    ensures Inv(ShareEntry(s, src, dst, i, j), strict)
  {
    assert SlotOk(s, src, i) && SlotOk(s, dst, i);
    var t, u := FrameOf(Pde(s, src, i)), FrameOf(Pde(s, dst, i));
    var pte := Peek(s.ram, t, j);
    if pte != 0 {
      assert EntryOk(s, t, j, strict);
      ProtectBits(pte);
      ProtectInv(s, t, j, strict);
      DuplicateInv(SetPte(s, t, j, Protect(pte)), t, u, j, strict);
    } else {
      ChangeEntry(s, ShareEntry(s, src, dst, i, j), u, j, strict);
    }
  }

  lemma SingletonRefs<T>(a: set<T>, x: T)
    requires x in a
    ensures 1 <= |a| && (|a| == 1 ==> a == {x})
  {
    CardWithout(a, x);
  }

  lemma CopyFrameShape(s: Sys, t: nat, j: nat, x: nat, f: nat, strict: bool)
    requires Inv(s, strict) && t in s.owner && j < ENTRIES && x != f && x !in s.dirs && x !in s.owner
    requires f < |s.ram| && x < |s.ram| && f !in s.dirs && f !in s.owner
    ensures var s' := CopyFrame(s, t, j, x, f);
      && OnlyEntry(s, s', t, j) && Peek(s'.ram, t, j) == f * 4096 + USER_RW
      && PageOf(s', f).count == PageOf(s, f).Inc().count && PageOf(s', x).count == PageOf(s, x).Dec().count
      && forall u :: 0 <= u < |s.pages| && u != f && u != x ==> PageOf(s', u).count == PageOf(s, u).count
  {
  }

  lemma CopyFrameCounts(s: Sys, t: nat, j: nat, x: nat, f: nat, strict: bool, u: nat)
    requires Inv(s, strict) && t in s.owner && j < ENTRIES && Names(s, t, j, x) && u < |s.pages|
    requires Live(s, f) && PageOf(s, f).count == 1 && f !in s.dirs && f !in s.owner && x != f
    requires x < |s.ram| && f < MAX_FRAMES && x !in s.dirs && x !in s.owner && 0 < PageOf(s, x).count
    ensures var s' := CopyFrame(s, t, j, x, f);
      PageOf(s', u).count == PageOf(s, u).count - Hit(Peek(s.ram, t, j), u) + Hit(Peek(s'.ram, t, j), u)
  {
    var s' := CopyFrame(s, t, j, x, f);
    EntryWord(f, USER_RW);
    assert EntryOk(s, t, j, strict);
    CopyFrameShape(s, t, j, x, f, strict);
    assert Hit(Peek(s.ram, t, j), u) == (if u == x then 1 else 0);
    assert Hit(Peek(s'.ram, t, j), u) == (if u == f then 1 else 0);
  }

  lemma CopyFrameInv(s: Sys, t: nat, j: nat, x: nat, f: nat, strict: bool)
    requires Inv(s, strict) && t in s.owner && j < ENTRIES && Names(s, t, j, x)
    requires Live(s, f) && PageOf(s, f).count == 1 && f !in s.dirs && f !in s.owner && Refs(s, f) == {}
    requires x < |s.ram| && f < MAX_FRAMES
    ensures Inv(CopyFrame(s, t, j, x, f), strict)
  {
    EntryWord(f, USER_RW);
    assert EntryOk(s, t, j, strict);
    assert (t, j) in Refs(s, x) && (t, j) !in Refs(s, f);
    SingletonRefs(Refs(s, x), (t, j));
    CopyFrameShape(s, t, j, x, f, strict);
    var s' := CopyFrame(s, t, j, x, f);
    forall u | 0 <= u < |s.pages|
      ensures PageOf(s', u).count == PageOf(s, u).count - Hit(Peek(s.ram, t, j), u) + Hit(Peek(s'.ram, t, j), u)
    {
      CopyFrameCounts(s, t, j, x, f, strict, u);
    }
    assert Nameable(s, s', t, j, Peek(s'.ram, t, j), f, strict);
    ChangeEntry(s, s', t, j, strict);
  }

  lemma WpFaultCopies(s: Sys, t: nat, j: nat, x: nat, strict: bool)
    requires Inv(s, strict) && t in s.owner && j < ENTRIES && Names(s, t, j, x) && x < |s.ram| && Alloc(s).Some?
    ensures var (f, s1) := Alloc(s).value; f < MAX_FRAMES && x < |s1.ram| && f < |s1.ram| && Inv(CopyFrame(s1, t, j, x, f), strict)
  {
    AllocInv(s, strict);
    AllocFresh(s, strict);
    var (f, s1) := Alloc(s).value;
    assert Peek(s1.ram, t, j) == Peek(s.ram, t, j);
    CopyFrameInv(s1, t, j, x, f, strict);
  }

  /** do_wp_page keeps the invariant in both branches; when every count is one above the
      references, the in-place branch is never the one taken. */
  lemma WpFaultInv(s: Sys, d: nat, i: nat, j: nat, strict: bool)
    requires Inv(s, strict) && d in s.dirs && i < USER_DIRS && j < ENTRIES && Pte(s, d, i, j) != 0
    ensures strict ==> PageOf(s, FrameOf(Pte(s, d, i, j))).count >= 2
    ensures WpFault(s, d, i, j).Some? ==> Inv(WpFault(s, d, i, j).value, strict)
  {
    var t, x := FrameOf(Pde(s, d, i)), FrameOf(Pte(s, d, i, j));
    assert SlotOk(s, d, i);
    assert EntryOk(s, t, j, strict);
    SharersProtected(s, t, j, strict);
    if PageOf(s, x).count == 1 {
      EntryWord(x, USER_RW);
      ChangeEntry(s, WpFault(s, d, i, j).value, t, j, strict);
    } else if Alloc(s).Some? {
      WpFaultCopies(s, t, j, x, strict);
    }
  }

  lemma NoPageInv(s: Sys, d: nat, i: nat, j: nat, kernel: bool, strict: bool)
    requires Inv(s, strict) && d in s.dirs && i < ENTRIES && j < ENTRIES
    requires NoPage(s, d, i, j, kernel).Some?
    ensures Inv(NoPage(s, d, i, j, kernel).value, strict)
  {
    var attr := if kernel then KERNEL_RW else USER_RW;
    AllocInv(s, strict);
    var (f, s1) := Alloc(s).value;
    InstallTableInv(s1, d, i, attr, strict);
    AllocFresh(s1, strict);
    var s2 := InstallTable(s1, d, i, attr).value;
    MapFreshInv(s2, FrameOf(Pde(s2, d, i)), j, f, attr, strict);
  }

  /** A store through a user entry. */
  lemma StoreInv(s: Sys, d: nat, i: nat, j: nat, w: nat, v: Word, strict: bool)
    requires Inv(s, strict) && d in s.dirs && i < USER_DIRS && j < ENTRIES && Pte(s, d, i, j) != 0
    ensures Inv(Store(s, d, i, j, w, v), strict)
  {
    var t := FrameOf(Pde(s, d, i));
    assert SlotOk(s, d, i);
    assert EntryOk(s, t, j, strict);
    SharersProtected(s, t, j, strict);
    ChangeEntry(s, Store(s, d, i, j, w, v), t, j, strict);
  }
}
