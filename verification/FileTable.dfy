/** Open files (fs/file_op.c:21-67, fs/file_op.c:93-100, fs/file_op.c:653-674): the file
    table of a thread, the shared descriptor table and the use counts in inodes. */
module FileTable {
  import Dentries
  import Vfs
  import PathWalk

  const PROC_FILES_MAX_COUNT := 1024
  const FILE_DESC_TABLE_MAX_COUNT := 2048
  const NULL := -1

  /** inode is an index into the inode table, or NULL. */
  datatype Desc = Desc(pos: int, inode: int, used: int)

  /** How often the inode is open. */
  datatype Inode = Inode(used: int)

  /** files[fd] is an index into descs, or NULL. */
  datatype State = State(files: seq<int>, descs: seq<Desc>, inodes: seq<Inode>)

  /** NullRead and WildRead are reads through a null and through an uninitialised pointer. */
  datatype Outcome = Success(fd: nat) | Failure | NullRead | WildRead {
    predicate Stops() { NullRead? || WildRead? }
  }

  // ----- What the calls do -----

  function FirstNull(files: seq<int>): (k: nat)
    ensures k <= |files| && (k < |files| ==> files[k] == NULL)
    ensures forall j :: 0 <= j < k ==> files[j] != NULL
  {
    if files == [] || files[0] == NULL then 0 else 1 + FirstNull(files[1..])
  }

  function FirstFree(descs: seq<Desc>): (k: nat)
    ensures k <= |descs| && (k < |descs| ==> descs[k].inode == NULL)
    ensures forall j :: 0 <= j < k ==> descs[j].inode != NULL
  {
    if descs == [] || descs[0].inode == NULL then 0 else 1 + FirstFree(descs[1..])
  }

  function Used(inodes: seq<Inode>, i: int, diff: int): (r: seq<Inode>)
    ensures |r| == |inodes|
  {
    if 0 <= i < |inodes| then inodes[i := inodes[i].(used := inodes[i].used + diff)] else inodes
  }

  function Touched(descs: seq<Desc>, d: nat, diff: int): (r: seq<Desc>)
    ensures |r| == |descs|
  {
    if d < |descs| then descs[d := descs[d].(used := descs[d].used + diff)] else descs
  }

  /** File number fd gets descriptor d for the inode, which may lack file operations. */
  function Opened(s: State, fd: nat, d: nat, inode: nat, hasOps: bool): (State, Outcome)
    requires fd < |s.files| && d < |s.descs| && inode < |s.inodes|
  {
    var r := s.(files := s.files[fd := d], descs := s.descs[d := Desc(0, inode, 1)]);
    if hasOps then (r.(inodes := Used(s.inodes, inode, 1)), Success(fd)) else (r, NullRead)
  }

  /** Entry numbers of the directory tree are inode numbers. A path that namei does not resolve
      is no failure: namei succeeds with a NULL entry, or runs into a bad pointer itself. */
  function Open(s: State, v: Dentries.State, path: string): (State, Outcome)
    requires Dentries.Sound(v) && |v.t| <= |s.inodes|
  {
    var fd, d := FirstNull(s.files), FirstFree(s.descs);
    if fd == |s.files| || d == |s.descs| then (s, Failure)
    else match Dentries.Namei(v.t, v.root, v.pwd, path)
      case NullEntry => (s, NullRead)
      case Crash(why) => (s, if why.WildRead? then WildRead else NullRead)
      case Entry(inode) => Opened(s, fd, d, inode, v.t[inode].hasOps)
  }

  function Dup(s: State, oldfd: nat): (State, Outcome)
    requires oldfd < |s.files| && s.files[oldfd] < |s.descs|
  {
    var fd := FirstNull(s.files);
    if fd == |s.files| then (s, Failure)
    else if s.files[oldfd] < 0 then (s, NullRead)
    else
      var d := s.files[oldfd];
      (State(s.files[fd := d], Touched(s.descs, d, 1), Used(s.inodes, s.descs[d].inode, 1)), Success(fd))
  }

  function Close(s: State, fd: nat): (State, Outcome)
    requires fd < |s.files| && s.files[fd] < |s.descs|
  {
    if s.files[fd] < 0 then (s, NullRead)
    else
      var d := s.files[fd];
      (State(s.files[fd := NULL], Touched(s.descs, d, -1), Used(s.inodes, s.descs[d].inode, -1)), Success(fd))
  }

  // ----- The counts -----

  function Share(d: Desc, i: int): int {
    if d.inode == i then d.used else 0
  }

  /** The uses of inode i, summed over the descriptors. */
  function TotalUsed(descs: seq<Desc>, i: int): int {
    if descs == [] then 0 else Share(descs[0], i) + TotalUsed(descs[1..], i)
  }

  ghost predicate FileOk(s: State, fd: nat)
    requires fd < |s.files|
  {
    s.files[fd] == NULL || (0 <= s.files[fd] < |s.descs| && s.descs[s.files[fd]].inode != NULL)
  }

  ghost predicate DescOk(s: State, d: nat)
    requires d < |s.descs|
  {
    NULL <= s.descs[d].inode < |s.inodes| && s.descs[d].used == multiset(s.files)[d]
  }

  ghost predicate InodeOk(s: State, i: nat)
    requires i < |s.inodes|
  {
    s.inodes[i].used == TotalUsed(s.descs, i)
  }

  /** Every descriptor's use count is the number of file table slots that name it, every
      inode's is the sum over its descriptors, and no slot names a descriptor without an
      inode. The first m descriptors are the ones that have one. */
  ghost predicate Balanced(s: State, m: nat) {
    && m <= |s.descs|
    && (forall fd {:trigger FileOk(s, fd)} :: 0 <= fd < |s.files| ==> FileOk(s, fd))
    && (forall d {:trigger DescOk(s, d)} :: 0 <= d < |s.descs| ==> DescOk(s, d))
    && (forall i {:trigger InodeOk(s, i)} :: 0 <= i < |s.inodes| ==> InodeOk(s, i))
    && (forall d {:trigger s.descs[d]} :: 0 <= d < |s.descs| ==> (s.descs[d].inode == NULL <==> m <= d))
  }

  lemma {:induction false} TotalChanges(descs: seq<Desc>, d: nat, x: Desc, i: int)
    requires d < |descs|
    ensures TotalUsed(descs[d := x], i) == TotalUsed(descs, i) - Share(descs[d], i) + Share(x, i)
  {
    var r := descs[d := x];
    if d == 0 {
      assert r[1..] == descs[1..];
    } else {
      assert r[1..] == descs[1..][d - 1 := x];
      TotalChanges(descs[1..], d - 1, x, i);
    }
  }

  /** Descriptor d of inode i gets x and one file table slot moves to or from d; everything
      stays in balance when the counts of d and i follow. */
  lemma ChangeBalanced(s: State, m: nat, r: State, m': nat, fd: nat, d: nat, i: nat, diff: int)
    requires Balanced(s, m) && fd < |s.files| && d < |s.descs| && i < |s.inodes|
    requires
      || (diff == 1 && s.files[fd] == NULL && r.files == s.files[fd := d])
      || (diff == -1 && s.files[fd] == d && r.files == s.files[fd := NULL])
    requires |r.descs| == |s.descs| && r.descs == s.descs[d := r.descs[d]]
    requires r.descs[d].inode == i && r.descs[d].used == s.descs[d].used + diff
    requires s.descs[d].inode == NULL || s.descs[d].inode == i
    requires s.descs[d].inode == NULL ==> diff == 1 && d == m
    requires m' == if s.descs[d].inode == NULL then m + 1 else m
    requires r.inodes == Used(s.inodes, i, diff)
    ensures Balanced(r, m')
  {
    assert DescOk(s, d);
    if s.descs[d].inode == NULL { NoneNames(s, m, d); }
    forall f | 0 <= f < |r.files| ensures FileOk(r, f) { assert FileOk(s, f); }
    forall e | 0 <= e < |r.descs| ensures DescOk(r, e) { assert DescOk(s, e); }
    forall k | 0 <= k < |r.inodes| ensures InodeOk(r, k) {
      assert InodeOk(s, k);
      TotalChanges(s.descs, d, r.descs[d], k);
    }
  }

  /** A descriptor without an inode is in nobody's file table. */
  lemma NoneNames(s: State, m: nat, d: nat)
    requires Balanced(s, m) && d < |s.descs| && s.descs[d].inode == NULL
    ensures d !in s.files && s.descs[d].used == 0
  {
    assert DescOk(s, d);
    forall f | 0 <= f < |s.files| ensures s.files[f] != d { assert FileOk(s, f); }
  }

  /** sys_open fails exactly when a table is full, and otherwise succeeds exactly when the path
      leads to the root of a file system: a directory that sys_mkdir made has no file
      operations. A success keeps the balance, takes the lowest free file number and a
      descriptor never used before, at position 0 of the inode found; a path that does not
      resolve changes nothing; an inode without file operations leaves the counts out of
      balance. */
  lemma OpenBalances(s: State, m: nat, v: Dentries.State, path: string)
    requires Balanced(s, m) && Dentries.Sound(v) && |v.t| <= |s.inodes|
    ensures
      var found, (r, out) := Dentries.Namei(v.t, v.root, v.pwd, path), Open(s, v, path);
      && (out.Failure? <==> NULL !in s.files || m == |s.descs|)
      && (out.Success? <==> !out.Failure? && found.Entry? && Dentries.IsRoot(v.t, found.d))
      && (out.Success? ==> Balanced(r, m + 1) && m < |s.descs| && r.files == s.files[out.fd := m])
      && (out.Success? ==> r.descs == s.descs[m := Desc(0, found.d, 1)])
      && (out.Failure? || !found.Entry? ==> r == s)
      && (out.Stops() && found.Entry? ==> forall k: nat :: !Balanced(r, k))
  {
    var found := Dentries.Namei(v.t, v.root, v.pwd, path);
    var fd, d := FirstNull(s.files), FirstFree(s.descs);
    assert m < |s.descs| ==> s.descs[m].inode == NULL;
    assert d < |s.descs| ==> s.descs[d].inode == NULL;
    assert d == m;
    assert fd < |s.files| <==> NULL in s.files;
    if fd < |s.files| && d < |s.descs| && found.Entry? {
      assert Dentries.ParentOk(v.t, found.d);
      OpenedBalances(s, m, fd, d, found.d, v.t[found.d].hasOps);
    }
  }

  lemma OpenedBalances(s: State, m: nat, fd: nat, d: nat, inode: nat, hasOps: bool)
    requires Balanced(s, m) && fd < |s.files| && s.files[fd] == NULL && d == m < |s.descs| && inode < |s.inodes|
    ensures
      var (r, out) := Opened(s, fd, d, inode, hasOps);
      if hasOps then Balanced(r, m + 1) else forall k: nat :: !Balanced(r, k)
  {
    assert s.descs[d].inode == NULL;
    NoneNames(s, m, d);
    var (r, out) := Opened(s, fd, d, inode, hasOps);
    if hasOps {
      ChangeBalanced(s, m, r, m + 1, fd, d, inode, 1);
    } else {
      assert InodeOk(s, inode);
      TotalChanges(s.descs, d, r.descs[d], inode);
      assert !InodeOk(r, inode);
    }
  }

  lemma DupBalances(s: State, m: nat, oldfd: nat)
    requires Balanced(s, m) && oldfd < |s.files|
    ensures FileOk(s, oldfd)
    ensures
      var (r, out) := Dup(s, oldfd);
      && (out.Success? ==> Balanced(r, m) && r.files == s.files[out.fd := s.files[oldfd]])
      && (!out.Success? ==> r == s)
      && (out.NullRead? <==> NULL in s.files && s.files[oldfd] == NULL)
  {
    assert FileOk(s, oldfd);
    var (r, out) := Dup(s, oldfd);
    if out.Success? {
      var d := s.files[oldfd];
      assert DescOk(s, d);
      ChangeBalanced(s, m, r, m, out.fd, d, s.descs[d].inode, 1);
    }
  }

  lemma CloseBalances(s: State, m: nat, fd: nat)
    requires Balanced(s, m) && fd < |s.files|
    ensures FileOk(s, fd)
    ensures
      var (r, out) := Close(s, fd);
      && (out.Success? ==> Balanced(r, m) && r.files == s.files[fd := NULL])
      && (out.NullRead? <==> s.files[fd] == NULL) && (out.NullRead? ==> r == s)
  {
    assert FileOk(s, fd);
    var (r, out) := Close(s, fd);
    if out.Success? {
      var d := s.files[fd];
      assert DescOk(s, d);
      ChangeBalanced(s, m, r, m, fd, d, s.descs[d].inode, -1);
    }
  }

  // ----- Runs of one thread -----

  datatype Call = OpenCall(v: Dentries.State, path: string) | DupCall(oldfd: nat) | CloseCall(fd: nat)

  /** Arguments within the tables, which the calls do not check; an open finds the directory
      tree in any sound state. */
  ghost predicate InRange(s: State, c: Call) {
    match c
    case OpenCall(v, _) => Dentries.Sound(v) && |v.t| <= |s.inodes|
    case DupCall(oldfd) => oldfd < |s.files|
    case CloseCall(fd) => fd < |s.files|
  }

  ghost function Apply(s: State, c: Call): (State, Outcome) {
    match c
    case OpenCall(v, path) => if InRange(s, c) then Open(s, v, path) else (s, NullRead)
    case DupCall(oldfd) => if InRange(s, c) && s.files[oldfd] < |s.descs| then Dup(s, oldfd) else (s, NullRead)
    case CloseCall(fd) => if InRange(s, c) && s.files[fd] < |s.descs| then Close(s, fd) else (s, NullRead)
  }

  /** The run stops at the first bad read or argument outside the tables. */
  ghost function Run(s: State, calls: seq<Call>): State
    decreases |calls|
  {
    if calls == [] || Apply(s, calls[0]).1.Stops() then s else Run(Apply(s, calls[0]).0, calls[1..])
  }

  /** How many opens succeed in the run. */
  ghost function Opens(s: State, calls: seq<Call>): nat
    decreases |calls|
  {
    if calls == [] || Apply(s, calls[0]).1.Stops() then 0
    else (if calls[0].OpenCall? && Apply(s, calls[0]).1.Success? then 1 else 0) + Opens(Apply(s, calls[0]).0, calls[1..])
  }

  lemma ApplyBalances(s: State, m: nat, c: Call)
    requires Balanced(s, m) && !Apply(s, c).1.Stops()
    ensures Balanced(Apply(s, c).0, if c.OpenCall? && Apply(s, c).1.Success? then m + 1 else m)
  {
    match c
    case OpenCall(v, path) => OpenBalances(s, m, v, path);
    case DupCall(oldfd) => DupBalances(s, m, oldfd);
    case CloseCall(fd) => CloseBalances(s, m, fd);
  }

  /** Over any run of opens, dups and closes the counts stay in balance, and every successful
      open has used up one more descriptor for good: closing frees none. */
  lemma {:induction false} RunBalances(s: State, m: nat, calls: seq<Call>)
    requires Balanced(s, m)
    ensures Balanced(Run(s, calls), m + Opens(s, calls))
    ensures |Run(s, calls).descs| == |s.descs| && |Run(s, calls).inodes| == |s.inodes|
    decreases |calls|
  {
    if calls != [] && !Apply(s, calls[0]).1.Stops() {
      ApplyBalances(s, m, calls[0]);
      RunBalances(Apply(s, calls[0]).0, if calls[0].OpenCall? && Apply(s, calls[0]).1.Success? then m + 1 else m, calls[1..]);
    }
  }

  /** Nothing is open. */
  ghost predicate Booted(s: State) {
    && |s.files| == PROC_FILES_MAX_COUNT && |s.descs| == FILE_DESC_TABLE_MAX_COUNT
    && (forall fd :: 0 <= fd < |s.files| ==> s.files[fd] == NULL)
    && (forall d :: 0 <= d < |s.descs| ==> s.descs[d].inode == NULL && s.descs[d].used == 0)
    && (forall i :: 0 <= i < |s.inodes| ==> s.inodes[i].used == 0)
  }

  lemma BootBalanced(s: State)
    requires Booted(s)
    ensures Balanced(s, 0) && NULL in s.files && FirstNull(s.files) == 0
  {
    assert s.files[0] == NULL;
    forall d | 0 <= d < |s.descs| ensures DescOk(s, d) { assert d !in s.files; }
    forall fd | 0 <= fd < |s.files| ensures FileOk(s, fd) {}
    forall i | 0 <= i < |s.inodes| ensures InodeOk(s, i) { NothingUsed(s.descs, i); }
  }

  /** From boot at most 2048 opens ever succeed; after that every open fails, whatever was
      closed. */
  lemma DescriptorsRunOut(s: State, calls: seq<Call>, v: Dentries.State, path: string)
    requires Booted(s) && Dentries.Sound(v) && |v.t| <= |s.inodes|
    ensures Opens(s, calls) <= FILE_DESC_TABLE_MAX_COUNT && |Run(s, calls).inodes| == |s.inodes|
    ensures Opens(s, calls) == FILE_DESC_TABLE_MAX_COUNT ==> Open(Run(s, calls), v, path).1 == Failure
  {
    BootBalanced(s);
    RunBalances(s, 0, calls);
    OpenBalances(Run(s, calls), Opens(s, calls), v, path);
  }

  /** One path opened and closed, n times over. */
  function Pairs(v: Dentries.State, path: string, fd: nat, n: nat): seq<Call> {
    if n == 0 then [] else [OpenCall(v, path), CloseCall(fd)] + Pairs(v, path, fd, n - 1)
  }

  /** The path leads to the root of a file system. */
  ghost predicate ToRoot(v: Dentries.State, path: string) {
    && Dentries.Sound(v)
    && var found := Dentries.Namei(v.t, v.root, v.pwd, path); found.Entry? && Dentries.IsRoot(v.t, found.d)
  }

  lemma OnePair(s: State, m: nat, v: Dentries.State, path: string, fd: nat) returns (r: State, u: State)
    requires Balanced(s, m) && NULL in s.files && m < |s.descs| && ToRoot(v, path) && |v.t| <= |s.inodes|
    requires fd == FirstNull(s.files)
    ensures Apply(s, OpenCall(v, path)) == (r, Success(fd)) && Apply(r, CloseCall(fd)) == (u, Success(fd))
    ensures Balanced(u, m + 1) && u.files == s.files && |u.descs| == |s.descs| && |u.inodes| == |s.inodes|
  {
    OpenBalances(s, m, v, path);
    r := Open(s, v, path).0;
    CloseBalances(r, m + 1, fd);
    u := Close(r, fd).0;
  }

  lemma PairUnfolds(s: State, r: State, u: State, c: Call, fd: nat, calls: seq<Call>, rest: seq<Call>)
    requires Apply(s, c) == (r, Success(fd)) && Apply(r, CloseCall(fd)) == (u, Success(fd)) && c.OpenCall?
    requires calls == [c, CloseCall(fd)] + rest
    ensures Opens(s, calls) == 1 + Opens(u, rest) && Run(s, calls) == Run(u, rest)
  {
    assert calls[1..] == [CloseCall(fd)] + rest;
    assert calls[1..][1..] == rest;
  }

  /** Opening and closing one file n times uses up n descriptors, and leaves the file table as
      it was. */
  lemma {:induction false} PairsUseUp(s: State, m: nat, v: Dentries.State, path: string, n: nat, calls: seq<Call>)
    requires Balanced(s, m) && NULL in s.files && m + n <= |s.descs| && ToRoot(v, path) && |v.t| <= |s.inodes|
    requires calls == Pairs(v, path, FirstNull(s.files), n)
    ensures Opens(s, calls) == n && Run(s, calls).files == s.files
    decreases n
  {
    if n > 0 {
      var fd := FirstNull(s.files);
      var r, u := OnePair(s, m, v, path, fd);
      var rest := Pairs(v, path, fd, n - 1);
      assert Opens(u, rest) == n - 1 && Run(u, rest).files == u.files by { PairsUseUp(u, m + 1, v, path, n - 1, rest); }
      PairUnfolds(s, r, u, OpenCall(v, path), fd, calls, rest);
    }
  }

  /** So 2048 opens of a root from boot, each closed at once, end all opening. */
  lemma PairsRunOut(s: State, v: Dentries.State, path: string, w: Dentries.State, other: string)
    requires Booted(s) && ToRoot(v, path) && |v.t| <= |s.inodes| && Dentries.Sound(w) && |w.t| <= |s.inodes|
    ensures
      var r := Run(s, Pairs(v, path, 0, FILE_DESC_TABLE_MAX_COUNT));
      r.files == s.files && |r.inodes| == |s.inodes| && Open(r, w, other).1 == Failure
  {
    BootBalanced(s);
    PairsUseUp(s, 0, v, path, FILE_DESC_TABLE_MAX_COUNT, Pairs(v, path, 0, FILE_DESC_TABLE_MAX_COUNT));
    DescriptorsRunOut(s, Pairs(v, path, 0, FILE_DESC_TABLE_MAX_COUNT), w, other);
  }

  /** In the tree after boot / can be opened, and after mkdir /a the new directory cannot: the
      open reads through NULL with a descriptor taken that the inode does not count. */
  lemma MadeDirectoryStops(s: State)
    requires Booted(s) && |s.inodes| >= 2
    ensures Dentries.Ok(Dentries.RootOnly()) && Dentries.Mkdir(Dentries.RootOnly(), 0, "/a").1 == Dentries.Done
    ensures
      var v := Dentries.State(Dentries.Mkdir(Dentries.RootOnly(), 0, "/a").0, 0, 0);
      && ToRoot(Dentries.State(Dentries.RootOnly(), 0, 0), "/") && Dentries.Sound(v)
      && Open(s, v, "/a").1 == NullRead && forall k: nat :: !Balanced(Open(s, v, "/a").0, k)
  {
    var t, s0 := Dentries.RootOnly(), Dentries.Start("/a", 0, 0);
    Dentries.MountedRootOk();
    assert Dentries.Relative("/") == "" && Dentries.Split("") == [""];
    assert Dentries.Relative("/a") == "a" && Dentries.Split("a") == [] + ["a"];
    PathWalk.MkdirThenNamei(t, 0, 0, "/a", [], "a", s0, 0);
    var v := Dentries.State(Dentries.Mkdir(t, 0, "/a").0, 0, 0);
    BootBalanced(s);
    OpenBalances(s, 0, v, "/a");
  }

  lemma {:induction false} NothingUsed(descs: seq<Desc>, i: int)
    requires forall d :: 0 <= d < |descs| ==> descs[d].used == 0
    ensures TotalUsed(descs, i) == 0
  {
    if descs != [] { NothingUsed(descs[1..], i); }
  }

  /** With every file closed, no count is left over. */
  lemma AllClosed(s: State, m: nat)
    requires Balanced(s, m) && forall fd :: 0 <= fd < |s.files| ==> s.files[fd] == NULL
    ensures forall d :: 0 <= d < |s.descs| ==> s.descs[d].used == 0
    ensures forall i :: 0 <= i < |s.inodes| ==> s.inodes[i].used == 0
  {
    forall d | 0 <= d < |s.descs| ensures s.descs[d].used == 0 { assert DescOk(s, d) && d !in s.files; }
    forall i | 0 <= i < |s.inodes| ensures s.inodes[i].used == 0 {
      assert InodeOk(s, i);
      NothingUsed(s.descs, i);
    }
  }

  /** Closing a duplicate restores the state before the dup. */
  lemma CloseUndoesDup(s: State, m: nat, oldfd: nat)
    requires Balanced(s, m) && oldfd < |s.files| && s.files[oldfd] != NULL && NULL in s.files
    ensures FileOk(s, oldfd)
    ensures
      var (r, out) := Dup(s, oldfd);
      out.Success? && out.fd < |r.files| && 0 <= r.files[out.fd] < |r.descs| && Close(r, out.fd) == (s, Success(out.fd))
  {
    DupBalances(s, m, oldfd);
    var (r, out) := Dup(s, oldfd);
    var d := s.files[oldfd];
    assert DescOk(s, d);
    var u := Close(r, out.fd).0;
    assert u.files == s.files && u.descs == s.descs && u.inodes == s.inodes;
  }

  // ----- The calls in place -----

  class Files {
    const fileTable: array<int>
    const fDescTable: array<Desc>
    const inodeTable: array<Inode>

    ghost function Value(): State
      reads this, fileTable, fDescTable, inodeTable
    {
      State(fileTable[..], fDescTable[..], inodeTable[..])
    }

    constructor (fileTable: array<int>, fDescTable: array<Desc>, inodeTable: array<Inode>)
      ensures this.fileTable == fileTable && this.fDescTable == fDescTable && this.inodeTable == inodeTable
    {
      this.fileTable, this.fDescTable, this.inodeTable := fileTable, fDescTable, inodeTable;
    }

    /** The loop over the file table in sys_open and sys_dup. */
    method FreeFile() returns (fd: nat)
      ensures fd == FirstNull(fileTable[..])
    {
      fd := 0;
      while fd < fileTable.Length && fileTable[fd] != NULL
        invariant fd <= fileTable.Length
        invariant forall j :: 0 <= j < fd ==> fileTable[j] != NULL
      {
        fd := fd + 1;
      }
      assert fd < fileTable.Length ==> fileTable[..][fd] == NULL;
      assert forall j :: 0 <= j < fd ==> fileTable[..][j] != NULL;
    }

    /** The loop over the descriptor table in sys_open. */
    method FreeDesc() returns (d: nat)
      ensures d == FirstFree(fDescTable[..])
    {
      d := 0;
      while d < fDescTable.Length && fDescTable[d].inode != NULL
        invariant d <= fDescTable.Length
        invariant forall j :: 0 <= j < d ==> fDescTable[j].inode != NULL
      {
        d := d + 1;
      }
      assert d < fDescTable.Length ==> fDescTable[..][d].inode == NULL;
      assert forall j :: 0 <= j < d ==> fDescTable[..][j].inode != NULL;
    }

    /** sys_open */
    method SysOpen(fs: Vfs.FileSystem, path: string) returns (out: Outcome)
      requires fs.Valid() && |fs.entries| <= inodeTable.Length
      modifies fileTable, fDescTable, inodeTable
      ensures Dentries.Sound(fs.Value()) && (Value(), out) == Open(old(Value()), fs.Value(), path)
    {
      fs.Numbered(fs.root);
      fs.Numbered(fs.pwd);
      var fd := FreeFile();
      if fd >= fileTable.Length { return Failure; }
      var i := FreeDesc();
      if i >= fDescTable.Length { return Failure; }
      var r, hasOps := GetInodeByFilename(fs, path);
      match r {
        case NullEntry => return NullRead;
        case Crash(why) => return if why.WildRead? then WildRead else NullRead;
        case Entry(inode) => out := Install(fd, i, inode, hasOps);
      }
    }

    /** The inode that a path leads to, and whether it has file operations. */
    method GetInodeByFilename(fs: Vfs.FileSystem, path: string) returns (r: Dentries.Result, hasOps: bool)
      requires fs.Valid()
      ensures Dentries.Sound(fs.Value())
      ensures var v := fs.Value();
        && r == Dentries.Namei(v.t, v.root, v.pwd, path)
        && (r.Entry? ==> hasOps == v.t[r.d].hasOps)
    {
      var entry;
      r, entry := fs.NameI(path);
      hasOps := false;
      if r.Entry? {
        fs.Numbered(entry);
        hasOps := entry.hasOps;
      }
    }

    /** sys_open, once everything is found. */
    method Install(fd: nat, i: nat, inode: nat, hasOps: bool) returns (out: Outcome)
      requires fd < fileTable.Length && i < fDescTable.Length && inode < inodeTable.Length
      modifies fileTable, fDescTable, inodeTable
      ensures (Value(), out) == Opened(old(Value()), fd, i, inode, hasOps)
    {
      fileTable[fd] := i;
      fDescTable[i] := Desc(0, inode, 1);
      if !hasOps { return NullRead; }
      inodeTable[inode] := inodeTable[inode].(used := inodeTable[inode].used + 1);
      return Success(fd);
    }

    /** sys_dup */
    method SysDup(oldfd: nat, ghost m: nat) returns (out: Outcome)
      requires Balanced(Value(), m) && oldfd < fileTable.Length
      modifies fileTable, fDescTable, inodeTable
      ensures old(FileOk(Value(), oldfd)) && (Value(), out) == Dup(old(Value()), oldfd)
      ensures Balanced(Value(), m)
    {
      DupBalances(Value(), m, oldfd);
      var fd := FreeFile();
      if fd >= fileTable.Length { return Failure; }
      fileTable[fd] := fileTable[oldfd];
      var d := fileTable[oldfd];
      if d == NULL {
        assert fileTable[..] == old(fileTable[..]);
        return NullRead;
      }
      assert old(DescOk(Value(), d));
      var i := fDescTable[d].inode;
      inodeTable[i] := inodeTable[i].(used := inodeTable[i].used + 1);
      fDescTable[d] := fDescTable[d].(used := fDescTable[d].used + 1);
      return Success(fd);
    }

    /** sys_close */
    method SysClose(fd: nat, ghost m: nat) returns (out: Outcome)
      requires Balanced(Value(), m) && fd < fileTable.Length
      modifies fileTable, fDescTable, inodeTable
      ensures old(FileOk(Value(), fd)) && (Value(), out) == Close(old(Value()), fd)
      ensures Balanced(Value(), m)
    {
      CloseBalances(Value(), m, fd);
      var d := fileTable[fd];
      if d == NULL { return NullRead; }
      assert old(DescOk(Value(), d));
      fDescTable[d] := fDescTable[d].(used := fDescTable[d].used - 1);
      var i := fDescTable[d].inode;
      inodeTable[i] := inodeTable[i].(used := inodeTable[i].used - 1);
      fileTable[fd] := NULL;
      return Success(fd);
    }
  }
}
