/** Whole runs of the paging code against a machine that copies address spaces outright. */
module CowRuns {
  import opened Frames
  import opened Paging
  import opened Wrappers
  import opened CowInvariant
  import opened CowRefinement

  /** One step of the kernel.  NewDir names the frame it is given; TakeFrame and ReturnFrame
      are the other users of the frame allocator (kernel stacks, kmalloc). */
  datatype Step =
    | NewDir(id: nat)
    | Fork(src: nat, dst: nat)
    | WriteFault(d: nat, i: nat, j: nat)
    | MissingFault(d: nat, i: nat, j: nat, kernel: bool)
    | Write(d: nat, i: nat, j: nat, w: nat, v: Word)
    | TakeFrame
    | ReturnFrame(f: nat)

  /** What the caller or the hardware guarantees: faults and stores are on user slots of
      existing directories, a store needs an entry (which for the supervisor may be
      write-protected), and only a frame without a paging role is given back. */
  ghost predicate Enabled(s: Sys, step: Step) {
    match step
    case NewDir(id) => CreateDir(s).Some? ==> CreateDir(s).value.0 == id
    case Fork(src, dst) => src in s.dirs && dst in s.dirs && src != dst
    case WriteFault(d, i, j) => d in s.dirs && i < USER_DIRS && j < ENTRIES && Pte(s, d, i, j) != 0
    case MissingFault(d, i, j, _) => d in s.dirs && i < ENTRIES && j < ENTRIES
    case Write(d, i, j, w, _) =>
      && d in s.dirs && i < USER_DIRS && j < ENTRIES && w < FRAME_WORDS
      && Pte(s, d, i, j) != 0
    case TakeFrame => true
    case ReturnFrame(f) => Live(s, f) && f !in s.dirs && f !in s.owner && Refs(s, f) == {}
  }

  function Apply(s: Sys, step: Step): Option<Sys> {
    match step
    case NewDir(_) => var r :- CreateDir(s); Some(r.1)
    case Fork(src, dst) => CopyPage(s, src, dst)
    case WriteFault(d, i, j) => WpFault(s, d, i, j)
    case MissingFault(d, i, j, kernel) => NoPage(s, d, i, j, kernel)
    case Write(d, i, j, w, v) => Some(Store(s, d, i, j, w, v))
    case TakeFrame => var r :- Alloc(s); Some(r.1)
    case ReturnFrame(f) => Some(if f < |s.pages| then s.(pages := Released(s.pages, f)) else s)
  }

  /** The eager machine: one private page map per address space, and no faults on writes. */
  type Spaces = map<nat, map<(nat, nat), Frame>>

  /** A page map without the pages of directory slot i. */
  function WithoutSlot(v: map<(nat, nat), Frame>, i: nat): map<(nat, nat), Frame> {
    map k | k in v && k.0 != i :: v[k]
  }

  function EagerApply(e: Spaces, step: Step): Spaces {
    match step
    case NewDir(id) => e[id := map[]]
    case Fork(src, dst) => if src in e then e[dst := e[src]] else e
    case MissingFault(d, i, j, _) =>
      if d in e && i < USER_DIRS then
        e[d := WithoutSlot(e[d], i)[(i, j) := ZeroFrame()]]
      else e
    case Write(d, i, j, w, v) =>
      if d in e && (i, j) in e[d] && w < FRAME_WORDS then
        e[d := e[d][(i, j) := e[d][(i, j)][w := v]]]
      else e
    case _ => e
  }

  // ----- one step

  ghost predicate Refines(s: Sys, step: Step, s': Sys, strict: bool) {
    Inv(s', strict) && Abs(s') == EagerApply(Abs(s), step)
  }

  /** The step replaced the view of d by v and touched no other. */
  lemma AbsUpdate(s: Sys, s': Sys, d: nat, v: map<(nat, nat), Frame>)
    requires d in s.dirs && s'.dirs == s.dirs && View(s', d) == v
    requires forall d' :: d' in s.dirs && d' != d ==> View(s', d') == View(s, d')
    ensures d in Abs(s) && Abs(s)[d] == View(s, d) && Abs(s') == Abs(s)[d := v]
  {
  }

  lemma AbsSame(s: Sys, s': Sys)
    requires s'.dirs == s.dirs
    requires forall d, i, j :: d in s.dirs && 0 <= i < USER_DIRS && 0 <= j < ENTRIES ==> Agree(s, s', d, i, j)
    ensures Abs(s') == Abs(s)
  {
    forall d | d in s.dirs ensures View(s', d) == View(s, d) { ViewsAgree(s, s', d); }
  }

  lemma NewDirRefines(s: Sys, id: nat, strict: bool)
    requires Inv(s, strict) && Enabled(s, NewDir(id)) && CreateDir(s).Some?
    ensures Refines(s, NewDir(id), CreateDir(s).value.1, strict)
  {
    CreateDirInv(s, strict);
    AllocFresh(s, strict);
    var s' := CreateDir(s).value.1;
    forall d | d in s.dirs ensures View(s', d) == View(s, d) {
      forall i, j | 0 <= i < USER_DIRS && 0 <= j < ENTRIES ensures Agree(s, s', d, i, j) {
        AllocAgrees(s, d, i, j, strict);
      }
      ViewsAgree(s, s', d);
    }
    assert View(s', id) == map[];
  }

  lemma AllocRefines(s: Sys, strict: bool)
    requires Inv(s, strict) && Alloc(s).Some?
    ensures Refines(s, TakeFrame, Alloc(s).value.1, strict)
  {
    AllocInv(s, strict);
    var s' := Alloc(s).value.1;
    forall d, i, j | d in s.dirs && 0 <= i < USER_DIRS && 0 <= j < ENTRIES ensures Agree(s, s', d, i, j) {
      AllocAgrees(s, d, i, j, strict);
    }
    AbsSame(s, s');
  }

  lemma ReturnFrameRefines(s: Sys, f: nat, strict: bool)
    requires Inv(s, strict) && Enabled(s, ReturnFrame(f))
    ensures Refines(s, ReturnFrame(f), Apply(s, ReturnFrame(f)).value, strict)
  {
    var s' := Apply(s, ReturnFrame(f)).value;
    forall d, i | d in s'.dirs && 0 <= i < USER_DIRS ensures SlotOk(s', d, i) {
      assert SlotOk(s, d, i);
    }
    forall t, j | t in s'.owner && 0 <= j < ENTRIES ensures EntryOk(s', t, j, strict) {
      assert EntryOk(s, t, j, strict);
      assert (t, j) !in Refs(s, f);
      RefsSame(s, s', FrameOf(Peek(s.ram, t, j)));
    }
    forall d, i, j | d in s.dirs && 0 <= i < USER_DIRS && 0 <= j < ENTRIES ensures Agree(s, s', d, i, j) {}
    AbsSame(s, s');
  }

  lemma WriteFaultRefines(s: Sys, d: nat, i: nat, j: nat, strict: bool)
    requires Inv(s, strict) && Enabled(s, WriteFault(d, i, j)) && WpFault(s, d, i, j).Some?
    ensures Refines(s, WriteFault(d, i, j), WpFault(s, d, i, j).value, strict)
  {
    WpFaultInv(s, d, i, j, strict);
    var s' := WpFault(s, d, i, j).value;
    forall d', i', j' | d' in s.dirs && 0 <= i' < USER_DIRS && 0 <= j' < ENTRIES ensures Agree(s, s', d', i', j') {
      WpFaultAgrees(s, d, i, j, d', i', j', strict);
    }
    AbsSame(s, s');
  }

  lemma ViewAt(s: Sys, d: nat, i: nat, j: nat)
    requires i < USER_DIRS && j < ENTRIES
    ensures (i, j) in View(s, d) <==> Slot(s, d, i, j).Some?
    ensures (i, j) in View(s, d) ==> View(s, d)[(i, j)] == Slot(s, d, i, j).value
  {
  }

  ghost predicate ShowsAt(s: Sys, d: nat, e: map<(nat, nat), Frame>, i: nat, j: nat) {
    Slot(s, d, i, j) == if (i, j) in e then Some(e[(i, j)]) else None
  }

  lemma ViewIs(s: Sys, d: nat, e: map<(nat, nat), Frame>)
    requires forall k :: k in e ==> k.0 < USER_DIRS && k.1 < ENTRIES
    requires forall i, j :: 0 <= i < USER_DIRS && 0 <= j < ENTRIES ==> ShowsAt(s, d, e, i, j)
    ensures View(s, d) == e
  {
    forall k: (nat, nat) ensures k in View(s, d) <==> k in e {
      if k.0 < USER_DIRS && k.1 < ENTRIES {
        assert ShowsAt(s, d, e, k.0, k.1);
        ViewAt(s, d, k.0, k.1);
      }
    }
    forall k: (nat, nat) | k in e ensures View(s, d)[k] == e[k] {
      assert ShowsAt(s, d, e, k.0, k.1);
      ViewAt(s, d, k.0, k.1);
    }
  }

  lemma MissingFaultView(s: Sys, d: nat, i: nat, j: nat, kernel: bool, strict: bool)
    requires Inv(s, strict) && d in s.dirs && i < ENTRIES && j < ENTRIES && NoPage(s, d, i, j, kernel).Some?
    ensures var s' := NoPage(s, d, i, j, kernel).value;
      && (forall d' :: d' in s.dirs && d' != d ==> View(s', d') == View(s, d'))
      && View(s', d) ==
           if i < USER_DIRS
           then WithoutSlot(View(s, d), i)[(i, j) := ZeroFrame()]
           else View(s, d)
  {
    var s' := NoPage(s, d, i, j, kernel).value;
    forall d' | d' in s.dirs && (d' != d || USER_DIRS <= i) ensures View(s', d') == View(s, d') {
      forall i', j' | 0 <= i' < USER_DIRS && 0 <= j' < ENTRIES ensures Agree(s, s', d', i', j') {
        NoPageAgrees(s, d, i, j, kernel, d', i', j', strict);
      }
      ViewsAgree(s, s', d');
    }
    if i < USER_DIRS {
      var e := WithoutSlot(View(s, d), i)[(i, j) := ZeroFrame()];
      forall i': nat, j': nat | i' < USER_DIRS && j' < ENTRIES ensures ShowsAt(s', d, e, i', j') {
        NoPageAgrees(s, d, i, j, kernel, d, i', j', strict);
        ViewAt(s, d, i', j');
      }
      ViewIs(s', d, e);
    }
  }

  lemma NoPageKeepsDirs(s: Sys, d: nat, i: nat, j: nat, kernel: bool)
    requires NoPage(s, d, i, j, kernel).Some?
    ensures NoPage(s, d, i, j, kernel).value.dirs == s.dirs
  {
  }

  lemma MissingFaultRefines(s: Sys, d: nat, i: nat, j: nat, kernel: bool, strict: bool)
    requires Inv(s, strict) && Enabled(s, MissingFault(d, i, j, kernel)) && NoPage(s, d, i, j, kernel).Some?
    ensures Refines(s, MissingFault(d, i, j, kernel), NoPage(s, d, i, j, kernel).value, strict)
  {
    var s' := NoPage(s, d, i, j, kernel).value;
    NoPageInv(s, d, i, j, kernel, strict);
    MissingFaultView(s, d, i, j, kernel, strict);
    NoPageKeepsDirs(s, d, i, j, kernel);
    AbsUpdate(s, s', d, View(s', d));
  }

  lemma WriteView(s: Sys, d: nat, i: nat, j: nat, w: nat, v: Word, strict: bool)
    requires Inv(s, strict) && Enabled(s, Write(d, i, j, w, v)) && StoreHarmless(s, d, i, j, w, v)
    ensures var s' := Store(s, d, i, j, w, v);
      && (forall d' :: d' in s.dirs && d' != d ==> View(s', d') == View(s, d'))
      && (i, j) in View(s, d)
      && View(s', d) == View(s, d)[(i, j) := View(s, d)[(i, j)][w := v]]
  {
    var s' := Store(s, d, i, j, w, v);
    forall d' | d' in s.dirs && d' != d ensures View(s', d') == View(s, d') {
      forall i', j' | 0 <= i' < USER_DIRS && 0 <= j' < ENTRIES ensures Agree(s, s', d', i', j') {
        StoreAgrees(s, d, i, j, w, v, d', i', j', strict);
      }
      ViewsAgree(s, s', d');
    }
    StoreAgrees(s, d, i, j, w, v, d, i, j, strict);
    ViewAt(s, d, i, j);
    var e := View(s, d)[(i, j) := View(s, d)[(i, j)][w := v]];
    forall i': nat, j': nat | i' < USER_DIRS && j' < ENTRIES ensures ShowsAt(s', d, e, i', j') {
      StoreAgrees(s, d, i, j, w, v, d, i', j', strict);
      ViewAt(s, d, i', j');
    }
    ViewIs(s', d, e);
  }

  /** On the eager machine a store leaves every other slot as it is. */
  lemma OtherKeySame(e: Spaces, e': Spaces, d: nat, i: nat, j: nat, w: nat, v: Word, d': nat, k: (nat, nat))
    requires e' == EagerApply(e, Write(d, i, j, w, v)) && d in e && d' in e && (d', k) != (d, (i, j))
    ensures d' in e' && (k in e'[d'] <==> k in e[d']) && (k in e[d'] ==> e'[d'][k] == e[d'][k])
  {
  }

  lemma OtherSlotSame(s: Sys, s': Sys, e: Spaces, e': Spaces, d: nat, i: nat, j: nat, w: nat, v: Word, d': nat, i': nat, j': nat)
    requires s'.dirs == s.dirs && d in s.dirs && d' in s.dirs && i' < USER_DIRS && j' < ENTRIES && (d', i', j') != (d, i, j)
    requires e == Abs(s) && e' == Abs(s') && e' == EagerApply(e, Write(d, i, j, w, v))
    ensures Agree(s, s', d', i', j')
  {
    assert d in e && d' in e && e[d'] == View(s, d') && e'[d'] == View(s', d');
    OtherKeySame(e, e', d, i, j, w, v, d', (i', j'));
    ViewAt(s, d', i', j');
    ViewAt(s', d', i', j');
  }

  lemma WriteShowsElsewhere(s: Sys, d: nat, i: nat, j: nat, w: nat, v: Word, strict: bool)
    requires Inv(s, strict) && Enabled(s, Write(d, i, j, w, v))
    requires Abs(Store(s, d, i, j, w, v)) == EagerApply(Abs(s), Write(d, i, j, w, v))
    ensures StoreHarmless(s, d, i, j, w, v)
  {
    var s' := Store(s, d, i, j, w, v);
    forall d', i', j' | d' in s.dirs && 0 <= i' < USER_DIRS && 0 <= j' < ENTRIES && (d', i', j') != (d, i, j)
      ensures Agree(s, s', d', i', j')
    {
      OtherSlotSame(s, s', Abs(s), Abs(s'), d, i, j, w, v, d', i', j');
    }
    SupervisorStoreIsPrivate(s, d, i, j, w, v, strict);
  }

  lemma WriteRefines(s: Sys, d: nat, i: nat, j: nat, w: nat, v: Word, strict: bool)
    requires Inv(s, strict) && Enabled(s, Write(d, i, j, w, v))
    ensures Inv(Store(s, d, i, j, w, v), strict)
    ensures Refines(s, Write(d, i, j, w, v), Store(s, d, i, j, w, v), strict) <==> StoreHarmless(s, d, i, j, w, v)
  {
    StoreInv(s, d, i, j, w, v, strict);
    if StoreHarmless(s, d, i, j, w, v) {
      WriteView(s, d, i, j, w, v, strict);
      AbsUpdate(s, Store(s, d, i, j, w, v), d, View(s, d)[(i, j) := View(s, d)[(i, j)][w := v]]);
    } else if Refines(s, Write(d, i, j, w, v), Store(s, d, i, j, w, v), strict) {
      WriteShowsElsewhere(s, d, i, j, w, v, strict);
    }
  }

  lemma ForkRefines(s: Sys, src: nat, dst: nat, strict: bool)
    requires Inv(s, strict) && Enabled(s, Fork(src, dst)) && CopyPage(s, src, dst).Some?
    ensures Refines(s, Fork(src, dst), CopyPage(s, src, dst).value, strict)
  {
    CopyPageCopies(s, src, dst, strict);
    AbsUpdate(s, CopyPage(s, src, dst).value, dst, View(s, src));
  }

  /** The store changes no slot but its own. */
  ghost predicate Harmless(s: Sys, step: Step) {
    match step
    case Write(d, i, j, w, v) => StoreHarmless(s, d, i, j, w, v)
    case _ => true
  }

  /** Every step keeps the invariant, and does to the views what the eager machine does exactly
      if it is harmless: all steps are but supervisor stores of a new value into a frame that
      another slot shows. */
  lemma StepRefines(s: Sys, step: Step, strict: bool)
    requires Inv(s, strict) && Enabled(s, step) && Apply(s, step).Some?
    ensures Inv(Apply(s, step).value, strict)
    ensures Refines(s, step, Apply(s, step).value, strict) <==> Harmless(s, step)
  {
    match step
    case NewDir(id) => NewDirRefines(s, id, strict);
    case Fork(src, dst) => ForkRefines(s, src, dst, strict);
    case WriteFault(d, i, j) => WriteFaultRefines(s, d, i, j, strict);
    case MissingFault(d, i, j, kernel) => MissingFaultRefines(s, d, i, j, kernel, strict);
    case Write(d, i, j, w, v) => WriteRefines(s, d, i, j, w, v, strict);
    case TakeFrame => AllocRefines(s, strict);
    case ReturnFrame(f) => ReturnFrameRefines(s, f, strict);
  }

  // ----- whole runs

  ghost predicate Legal(s: Sys, steps: seq<Step>)
    decreases |steps|
  {
    steps == [] ||
    (Enabled(s, steps[0]) && (Apply(s, steps[0]).Some? ==> Legal(Apply(s, steps[0]).value, steps[1..])))
  }

  function Run(s: Sys, steps: seq<Step>): Option<Sys>
    decreases |steps|
  {
    if steps == [] then Some(s) else
      var s1 :- Apply(s, steps[0]);
      Run(s1, steps[1..])
  }

  lemma FirstStep(s: Sys, step: Step, s1: Sys, rest: seq<Step>, steps: seq<Step>)
    requires steps == [step] + rest && Enabled(s, step) && Apply(s, step) == Some(s1) && Legal(s1, rest)
    ensures Legal(s, steps) && Run(s, steps) == Run(s1, rest)
  {
    assert steps[1..] == rest;
  }

  function EagerRun(e: Spaces, steps: seq<Step>): Spaces
    decreases |steps|
  {
    if steps == [] then e else EagerRun(EagerApply(e, steps[0]), steps[1..])
  }

  /** Every store of the run is harmless when it is made. */
  ghost predicate AllHarmless(s: Sys, steps: seq<Step>)
    decreases |steps|
  {
    steps == [] ||
    (Harmless(s, steps[0]) && (Apply(s, steps[0]).Some? ==> AllHarmless(Apply(s, steps[0]).value, steps[1..])))
  }

  /** The invariant holds throughout, and copy-on-write is invisible: however the steps
      interleave, each address space reads as if every fork had copied every page, as long as
      the stores are harmless. */
  lemma {:induction false} RunRefines(s: Sys, steps: seq<Step>, strict: bool)
    requires Inv(s, strict) && Legal(s, steps) && Run(s, steps).Some?
    ensures Inv(Run(s, steps).value, strict)
    ensures AllHarmless(s, steps) ==> Abs(Run(s, steps).value) == EagerRun(Abs(s), steps)
    decreases |steps|
  {
    if steps != [] {
      StepRefines(s, steps[0], strict);
      RunRefines(Apply(s, steps[0]).value, steps[1..], strict);
    }
  }

  /** Every store of the run is through a writable entry, as user stores are. */
  ghost predicate UserStores(s: Sys, steps: seq<Step>)
    decreases |steps|
  {
    steps == [] ||
    (&& (steps[0].Write? ==> Writable(Pte(s, steps[0].d, steps[0].i, steps[0].j)))
     && (Apply(s, steps[0]).Some? ==> UserStores(Apply(s, steps[0]).value, steps[1..])))
  }

  /** The stores of user programs always are. */
  lemma {:induction false} UserStoresHarmless(s: Sys, steps: seq<Step>, strict: bool)
    requires Inv(s, strict) && Legal(s, steps) && UserStores(s, steps)
    ensures AllHarmless(s, steps)
    decreases |steps|
  {
    if steps != [] {
      match steps[0] {
        case Write(d, i, j, w, v) => WritableIsHarmless(s, d, i, j, w, v, strict);
        case _ =>
      }
      if Apply(s, steps[0]).Some? {
        StepRefines(s, steps[0], strict);
        UserStoresHarmless(Apply(s, steps[0]).value, steps[1..], strict);
      }
    }
  }

  /** Before the first directory exists nothing is mapped. */
  ghost predicate Booted(s: Sys) {
    |s.ram| == |s.pages| && KERNEL_DIR < |s.ram| <= MAX_FRAMES && s.dirs == {} && s.owner == map[]
  }

  /** In every reachable state the count of a mapped frame is exactly one more than the
      number of entries naming it, and a writable entry is the only one naming its frame. */
  lemma ReachableCounts(s: Sys, steps: seq<Step>, t: nat, j: nat)
    requires Booted(s) && Legal(s, steps) && Run(s, steps).Some?
    requires var s' := Run(s, steps).value; t in s'.owner && j < ENTRIES && Peek(s'.ram, t, j) != 0
    ensures var s' := Run(s, steps).value; var u := FrameOf(Peek(s'.ram, t, j));
      && PageOf(s', u).count == |Refs(s', u)| + 1 >= 2
      && (Writable(Peek(s'.ram, t, j)) ==> Refs(s', u) == {(t, j)})
  {
    RunRefines(s, steps, true);
    var s' := Run(s, steps).value;
    assert EntryOk(s', t, j, true);
    SharersProtected(s', t, j, true);
  }

  /** After do_wp_page the faulting entry is writable, so the store can be retried; in the
      copying branch it names the frame that was free. */
  lemma WpFaultWritable(s: Sys, d: nat, i: nat, j: nat, strict: bool)
    requires Inv(s, strict) && Enabled(s, WriteFault(d, i, j)) && WpFault(s, d, i, j).Some?
    ensures var s' := WpFault(s, d, i, j).value; var x := FrameOf(Pte(s, d, i, j));
      && Writable(Pte(s', d, i, j))
      && FrameOf(Pte(s', d, i, j)) == if PageOf(s, x).count == 1 then x else FirstFree(s.pages, 0)
  {
    SlotPath(s, d, i, j, strict);
    EntryWord(FrameOf(Pte(s, d, i, j)), USER_RW);
    if Alloc(s).Some? {
      AllocFresh(s, strict);
      EntryWord(Alloc(s).value.0, USER_RW);
    }
  }

  /** So do_wp_page never upgrades in place: it always copies, even for the last sharer. */
  lemma ReachableWriteFaultCopies(s: Sys, steps: seq<Step>, d: nat, i: nat, j: nat)
    requires Booted(s) && Legal(s, steps) && Run(s, steps).Some?
    requires Enabled(Run(s, steps).value, WriteFault(d, i, j))
    ensures var s' := Run(s, steps).value;
      && PageOf(s', FrameOf(Pte(s', d, i, j))).count != 1
      && (WpFault(s', d, i, j).Some? ==>
            FrameOf(Pte(WpFault(s', d, i, j).value, d, i, j)) == FirstFree(s'.pages, 0))
  {
    RunRefines(s, steps, true);
    var s' := Run(s, steps).value;
    WpFaultInv(s', d, i, j, true);
    if WpFault(s', d, i, j).Some? {
      WpFaultWritable(s', d, i, j, true);
    }
  }

  /** A write fault leaves a frame in use with count 1 that no entry names any more exactly when
      the frame's count was 2: nothing will ever give that frame back. */
  lemma LastSharerLeaks(s: Sys, d: nat, i: nat, j: nat)
    requires Inv(s, true) && Enabled(s, WriteFault(d, i, j)) && WpFault(s, d, i, j).Some?
    ensures var x := FrameOf(Pte(s, d, i, j)); var s' := WpFault(s, d, i, j).value;
      && Live(s', x)
      && (Refs(s', x) == {} <==> PageOf(s, x).count == 2)
      && (Refs(s', x) == {} ==> PageOf(s', x).count == 1)
  {
    WpFaultInv(s, d, i, j, true);
    assert EntryOk(s, FrameOf(Pde(s, d, i)), j, true) by { SlotPath(s, d, i, j, true); }
    var t, x := FrameOf(Pde(s, d, i)), FrameOf(Pte(s, d, i, j));
    SlotPath(s, d, i, j, true);
    assert EntryOk(s, t, j, true);
    AllocInv(s, true);
    AllocFresh(s, true);
    var (f, s1) := Alloc(s).value;
    EntryWord(f, USER_RW);
    CopyFrameShape(s1, t, j, x, f, true);
    assert Peek(s1.ram, t, j) == Peek(s.ram, t, j);
    RefsAfter(s1, CopyFrame(s1, t, j, x, f), t, j, x);
  }

  /** do_no_page leaves the rest of the space's view alone exactly when the slot has no
      table yet or its table maps nothing else: it installs a fresh table every time. */
  lemma MissingFaultKeepsRest(s: Sys, d: nat, i: nat, j: nat, kernel: bool, strict: bool)
    requires Inv(s, strict) && d in s.dirs && i < USER_DIRS && j < ENTRIES && NoPage(s, d, i, j, kernel).Some?
    ensures View(NoPage(s, d, i, j, kernel).value, d) == View(s, d)[(i, j) := ZeroFrame()]
      <==> (Pde(s, d, i) == 0 || forall j' :: 0 <= j' < ENTRIES && j' != j ==> Pte(s, d, i, j') == 0)
  {
    MissingFaultView(s, d, i, j, kernel, strict);
    var v := View(s, d);
    forall j': nat | j' < ENTRIES ensures (i, j') in v <==> Pte(s, d, i, j') != 0 {
      SlotPath(s, d, i, j', strict);
      ViewAt(s, d, i, j');
    }
    OnlyPageOfSlot(v, i, j);
  }

  lemma OnlyPageOfSlot(v: map<(nat, nat), Frame>, i: nat, j: nat)
    requires forall k :: k in v ==> k.1 < ENTRIES
    ensures WithoutSlot(v, i)[(i, j) := ZeroFrame()] == v[(i, j) := ZeroFrame()]
      <==> forall j' :: 0 <= j' < ENTRIES && j' != j ==> (i, j') !in v
  {
    var lhs, rhs := WithoutSlot(v, i)[(i, j) := ZeroFrame()], v[(i, j) := ZeroFrame()];
    if j' :| 0 <= j' < ENTRIES && j' != j && (i, j') in v {
      assert (i, j') in rhs && (i, j') !in lhs;
    } else {
      forall k | k in v && k.0 == i ensures k == (i, j) { assert k == (i, k.1); }
      assert lhs == rhs;
    }
  }

  /** A new directory, and two faults in one 4 MB region. */
  function TwoFaults(id: nat): seq<Step> {
    [NewDir(id), MissingFault(id, 0, 0, false), MissingFault(id, 0, 1, false)]
  }

  lemma FaultsRun(s: Sys, id: nat) returns (s1: Sys, s2: Sys)
    requires Legal(s, TwoFaults(id)) && Run(s, TwoFaults(id)).Some?
    ensures Enabled(s, NewDir(id)) && Apply(s, NewDir(id)) == Some(s1)
    ensures Enabled(s1, MissingFault(id, 0, 0, false)) && Apply(s1, MissingFault(id, 0, 0, false)) == Some(s2)
    ensures Enabled(s2, MissingFault(id, 0, 1, false)) && Run(s, TwoFaults(id)) == Apply(s2, MissingFault(id, 0, 1, false))
  {
    var f1, f2 := MissingFault(id, 0, 0, false), MissingFault(id, 0, 1, false);
    assert TwoFaults(id)[1..] == [f1, f2] && [f1, f2][1..] == [f2] && [f2][1..] == [];
    s1 := Apply(s, NewDir(id)).value;
    assert Legal(s1, [f1, f2]) && Run(s, TwoFaults(id)) == Run(s1, [f1, f2]);
    s2 := Apply(s1, f1).value;
    assert Legal(s2, [f2]) && Run(s1, [f1, f2]) == Run(s2, [f2]);
    assert Run(s2, [f2]) == Run(Apply(s2, f2).value, []) == Apply(s2, f2);
  }

  lemma SecondPageOnly(m: map<(nat, nat), Frame>, n: map<(nat, nat), Frame>)
    requires m == WithoutSlot(map[], 0)[(0, 0) := ZeroFrame()] && n == WithoutSlot(m, 0)[(0, 1) := ZeroFrame()]
    ensures n == map[(0, 1) := ZeroFrame()]
  {
  }

  /** The second drops the page the first one mapped. */
  lemma SecondFaultDropsFirst(s: Sys, id: nat)
    requires Booted(s) && Legal(s, TwoFaults(id)) && Run(s, TwoFaults(id)).Some?
    ensures View(Run(s, TwoFaults(id)).value, id) == map[(0, 1) := ZeroFrame()]
  {
    var s1, s2 := FaultsRun(s, id);
    StepRefines(s, NewDir(id), true);
    assert View(s1, id) == map[];
    StepRefines(s1, MissingFault(id, 0, 0, false), true);
    MissingFaultView(s1, id, 0, 0, false, true);
    MissingFaultView(s2, id, 0, 1, false, true);
    SecondPageOnly(View(s2, id), View(Run(s, TwoFaults(id)).value, id));
  }
}
