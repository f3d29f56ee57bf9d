/** The directory tree (fs/file_op.c, fs/rootfs/super.c): entries with their children, mounts
    and path resolution. Entries are numbered in the order of their creation, as their
    inodes are. */
module Dentries {
  const NONE := -1
  const NAME_MAX := 255

  datatype Mode = Directory | Block | Other

  /** children: the most recently made first. mounted: the root mounted here, or NONE.
      hasOps: whether the inode has its tables of operations; then a miss goes to a callback that
      reports success without an answer, and the file can be opened. */
  datatype Dentry = Dentry(name: string, parent: nat, children: seq<nat>, mounted: int, mode: Mode, hasOps: bool)

  type Tree = seq<Dentry>

  // ----- Well-formed trees -----

  /** Only roots are their own parents; any other entry is a child of its older parent. Only
      roots get operations. */
  ghost predicate ParentOk(t: Tree, d: nat)
    requires d < |t|
  {
    && t[d].parent <= d && (t[d].parent < d ==> d in t[t[d].parent].children)
    && (t[d].hasOps <==> t[d].parent == d)
  }

  /** Children are younger than their parent, know it, and stand youngest first. */
  ghost predicate ChildrenOk(t: Tree, d: nat)
    requires d < |t|
  {
    && (forall k :: 0 <= k < |t[d].children| ==> d < t[d].children[k] < |t| && t[t[d].children[k]].parent == d)
    && (forall j, k :: 0 <= j < k < |t[d].children| ==> t[d].children[j] > t[d].children[k])
  }

  /** A mount leads to a younger root. */
  ghost predicate MountOk(t: Tree, d: nat)
    requires d < |t|
  {
    t[d].mounted == NONE || (d < t[d].mounted < |t| && t[t[d].mounted].parent == t[d].mounted)
  }

  /** No root is mounted twice. */
  ghost predicate MountsApart(t: Tree, d: nat, e: nat)
    requires d < |t| && e < |t|
  {
    t[d].mounted == NONE || t[d].mounted != t[e].mounted
  }

  ghost predicate Ok(t: Tree) {
    && (forall d {:trigger ParentOk(t, d)} :: 0 <= d < |t| ==> ParentOk(t, d))
    && (forall d {:trigger ChildrenOk(t, d)} :: 0 <= d < |t| ==> ChildrenOk(t, d))
    && (forall d {:trigger MountOk(t, d)} :: 0 <= d < |t| ==> MountOk(t, d))
    && (forall d, e {:trigger MountsApart(t, d, e)} :: 0 <= d < |t| && 0 <= e < |t| && d != e ==> MountsApart(t, d, e))
  }

  predicate IsRoot(t: Tree, d: nat)
    requires d < |t|
  {
    t[d].parent == d
  }

  // ----- One component -----

  datatype Found = Hit(d: nat) | Unwritten | NullCall

  /** The loop over mount points. It ends because every mount leads to a younger entry. */
  function Follow(t: Tree, d: nat): (r: nat)
    requires Ok(t) && d < |t|
    ensures d <= r < |t| && t[r].mounted == NONE
    ensures t[d].mounted == NONE ==> r == d
    ensures r != d ==> t[r].parent == r
    decreases |t| - d
  {
    assert MountOk(t, d);
    if t[d].mounted == NONE then d else Follow(t, t[d].mounted)
  }

  /** The place of the first entry of l with this name, or |l|. */
  function FindName(t: Tree, l: seq<nat>, name: string): (k: nat)
    requires forall j :: 0 <= j < |l| ==> l[j] < |t|
    ensures k <= |l| && (k < |l| ==> t[l[k]].name == name)
    ensures forall j :: 0 <= j < k ==> t[l[j]].name != name
  {
    if l == [] || t[l[0]].name == name then 0 else 1 + FindName(t, l[1..], name)
  }

  /** Names that lookup does not search for. */
  predicate Special(name: string) {
    name == "." || name == ".." || name == ""
  }

  function Child(t: Tree, dir: nat, name: string): (c: int)
    requires Ok(t) && dir < |t|
    ensures c == NONE || (0 <= c < |t| && c in t[dir].children && t[c].name == name)
  {
    assert ChildrenOk(t, dir);
    var k := FindName(t, t[dir].children, name);
    if k < |t[dir].children| then t[dir].children[k] else NONE
  }

  function Lookup(t: Tree, dir: nat, name: string): (r: Found)
    requires Ok(t) && dir < |t|
    ensures r.Hit? ==> r.d < |t|
  {
    assert ParentOk(t, dir);
    if name == "." then Hit(dir)
    else if name == ".." then Hit(t[dir].parent)
    else if name == "" then Hit(dir)
    else if Child(t, dir, name) != NONE then Hit(Follow(t, Child(t, dir, name)))
    else if t[dir].hasOps then Unwritten
    else NullCall
  }

  /** Of several children of one name the youngest is found. */
  lemma YoungestWins(t: Tree, dir: nat, name: string, c: nat)
    requires Ok(t) && dir < |t| && c < |t| && c in t[dir].children && t[c].name == name
    ensures Child(t, dir, name) >= c
  {
    assert ChildrenOk(t, dir);
    var k :| 0 <= k < |t[dir].children| && t[dir].children[k] == c;
  }

  // ----- Whole paths -----

  function SlashAt(p: string): (k: nat)
    ensures k <= |p| && (k < |p| ==> p[k] == '/')
    ensures forall j :: 0 <= j < k ==> p[j] != '/'
  {
    if p == "" || p[0] == '/' then 0 else 1 + SlashAt(p[1..])
  }

  function Split(p: string): (r: seq<string>)
    ensures r != []
    decreases |p|
  {
    if SlashAt(p) == |p| then [p] else [p[..SlashAt(p)]] + Split(p[SlashAt(p) + 1..])
  }

  /** How far a walk got. known: some lookup has written the result variable of the loop, so
      that it holds dir. WildRead and NullRead are reads through an uninitialised and through a
      null pointer. */
  datatype Place = At(dir: nat, known: bool) | WildRead | NullRead

  predicate Inside(t: Tree, s: Place) {
    s.At? ==> s.dir < |t|
  }

  /** One round of the loop of get_parent_dir_entry. A miss that the callback leaves unwritten
      goes wherever the result variable already pointed. */
  function Step(t: Tree, s: Place, name: string): (r: Place)
    requires Ok(t) && Inside(t, s)
    ensures Inside(t, r) && (r.At? ==> r.known)
  {
    if !s.At? then s
    else match Lookup(t, s.dir, name)
      case Hit(d) => At(d, true)
      case Unwritten => if s.known then s else WildRead
      case NullCall => NullRead
  }

  function Fold(t: Tree, s: Place, names: seq<string>): (r: Place)
    requires Ok(t) && Inside(t, s)
    ensures Inside(t, r)
    decreases |names|
  {
    if names == [] then s else Fold(t, Step(t, s, names[0]), names[1..])
  }

  datatype Result = Entry(d: nat) | NullEntry | Crash(why: Place)

  /** The last component, looked up by _namei into a variable it has set to NULL. */
  function Final(t: Tree, s: Place, name: string): (r: Result)
    requires Ok(t) && Inside(t, s)
    ensures r.Entry? ==> r.d < |t|
  {
    if !s.At? then Crash(s)
    else match Lookup(t, s.dir, name)
      case Hit(d) => Entry(d)
      case Unwritten => NullEntry
      case NullCall => Crash(NullRead)
  }

  function Resolve(t: Tree, s: Place, names: seq<string>): (r: Result)
    requires Ok(t) && Inside(t, s) && names != []
    ensures r.Entry? ==> r.d < |t|
  {
    Final(t, Fold(t, s, names[..|names| - 1]), names[|names| - 1])
  }

  /** Where a path starts, and the path without its leading slash. */
  function Start(path: string, root: nat, base: nat): Place {
    At(if path != "" && path[0] == '/' then root else base, false)
  }

  function Relative(path: string): string {
    if path != "" && path[0] == '/' then path[1..] else path
  }

  function Namei(t: Tree, root: nat, base: nat, path: string): (r: Result)
    requires Ok(t) && root < |t| && base < |t|
    ensures r.Entry? ==> r.d < |t|
  {
    Resolve(t, Start(path, root, base), Split(Relative(path)))
  }

  // ----- mkdir and mount -----

  datatype Outcome = Done | Failed | Overrun | Broke(why: Place)

  function AddChild(t: Tree, dir: nat, name: string): Tree
    requires dir < |t|
  {
    t[dir := t[dir].(children := [|t|] + t[dir].children)] + [Dentry(name, dir, [], NONE, Directory, false)]
  }

  /** sys_mkdir: relative paths start from the root of the thread. A name that does not fit
      its 256 bytes with the terminator overruns them; what that does is not described. */
  function Mkdir(t: Tree, root: nat, path: string): (r: (Tree, Outcome))
    requires Ok(t) && root < |t|
  {
    var names := Split(Relative(path));
    var s, name := Fold(t, Start(path, root, root), names[..|names| - 1]), names[|names| - 1];
    if !s.At? then (t, Broke(s))
    else if t[s.dir].mode != Directory then (t, Failed)
    else if |name| > NAME_MAX then (t, Overrun)
    else (AddChild(t, s.dir, name), Done)
  }

  function AddMount(t: Tree, dir: nat): Tree
    requires dir < |t|
  {
    t[dir := t[dir].(mounted := |t|)] + [Dentry("/", |t|, [], NONE, Directory, true)]
  }

  /** sys_mount; a NULL entry is read through. */
  function Mount(t: Tree, root: nat, pwd: nat, knownFs: bool, dev: string, path: string): (r: (Tree, Outcome))
    requires Ok(t) && root < |t| && pwd < |t|
  {
    if !knownFs then (t, Failed)
    else match Namei(t, root, pwd, dev)
      case Crash(why) => (t, Broke(why))
      case NullEntry => (t, Broke(NullRead))
      case Entry(e) =>
        if t[e].mode == Other then (t, Failed)
        else match Namei(t, root, pwd, path)
          case Crash(why) => (t, Broke(why))
          case NullEntry => (t, Broke(NullRead))
          case Entry(d) =>
            if t[d].mode != Directory || t[d].mounted != NONE then (t, Failed) else (AddMount(t, d), Done)
  }

  lemma AddChildOk(t: Tree, dir: nat, name: string)
    requires Ok(t) && dir < |t|
    ensures Ok(AddChild(t, dir, name))
  {
    var u := AddChild(t, dir, name);
    assert u[dir].children == [|t|] + t[dir].children && u[dir].children[0] == |t|;
    forall d | 0 <= d < |u| ensures ParentOk(u, d) {
      if d < |t| {
        assert ParentOk(t, d);
        if t[d].parent < d && t[d].parent == dir {
          var k :| 0 <= k < |t[dir].children| && t[dir].children[k] == d;
          assert u[dir].children[k + 1] == d;
        }
      }
    }
    forall d | 0 <= d < |u| ensures ChildrenOk(u, d) {
      if d < |t| { assert ChildrenOk(t, d); }
    }
    forall d | 0 <= d < |u| ensures MountOk(u, d) {
      if d < |t| { assert MountOk(t, d); }
    }
    forall d, e | 0 <= d < |u| && 0 <= e < |u| && d != e ensures MountsApart(u, d, e) {
      if d < |t| && e < |t| { assert MountsApart(t, d, e); }
    }
  }

  lemma AddMountOk(t: Tree, dir: nat)
    requires Ok(t) && dir < |t| && t[dir].mounted == NONE
    ensures Ok(AddMount(t, dir))
  {
    var u := AddMount(t, dir);
    forall d | 0 <= d < |u| ensures ParentOk(u, d) { if d < |t| { assert ParentOk(t, d); } }
    forall d | 0 <= d < |u| ensures ChildrenOk(u, d) { if d < |t| { assert ChildrenOk(t, d); } }
    forall d | 0 <= d < |u| ensures MountOk(u, d) { if d < |t| { assert MountOk(t, d); } }
    forall d, e | 0 <= d < |u| && 0 <= e < |u| && d != e ensures MountsApart(u, d, e) {
      if d < |t| { assert MountOk(t, d); }
      if e < |t| { assert MountOk(t, e); }
      if d < |t| && e < |t| { assert MountsApart(t, d, e); }
    }
  }

  /** sys_chdir and sys_chroot: the directory that a path leads to. */
  function Enter(t: Tree, root: nat, pwd: nat, path: string): (r: (nat, Outcome))
    requires Ok(t) && root < |t| && pwd < |t|
    ensures r.1.Done? ==> r.0 < |t|
  {
    match Namei(t, root, pwd, path)
    case Crash(why) => (0, Broke(why))
    case NullEntry => (0, Broke(NullRead))
    case Entry(d) => if t[d].mode != Directory then (0, Failed) else (d, Done)
  }

  // ----- Runs -----

  /** The tree, and the root and working directory of the thread. */
  datatype State = State(t: Tree, root: nat, pwd: nat)

  ghost predicate Sound(s: State) {
    Ok(s.t) && s.root < |s.t| && s.pwd < |s.t|
  }

  datatype Call = MkdirCall(path: string)
                | MountCall(knownFs: bool, dev: string, path: string)
                | ChdirCall(path: string)
                | ChrootCall(path: string)

  function Apply(s: State, c: Call): State
    requires Sound(s)
  {
    match c
    case MkdirCall(path) => s.(t := Mkdir(s.t, s.root, path).0)
    case MountCall(knownFs, dev, path) => s.(t := Mount(s.t, s.root, s.pwd, knownFs, dev, path).0)
    case ChdirCall(path) => if Enter(s.t, s.root, s.pwd, path).1.Done? then s.(pwd := Enter(s.t, s.root, s.pwd, path).0) else s
    case ChrootCall(path) => if Enter(s.t, s.root, s.pwd, path).1.Done? then s.(root := Enter(s.t, s.root, s.pwd, path).0) else s
  }

  /** Every call leaves a well-formed tree with at most one entry more. */
  lemma ApplySound(s: State, c: Call)
    requires Sound(s)
    ensures Sound(Apply(s, c)) && |s.t| <= |Apply(s, c).t| <= |s.t| + 1
  {
    match c
    case MkdirCall(path) =>
      var names := Split(Relative(path));
      var p := Fold(s.t, Start(path, s.root, s.root), names[..|names| - 1]);
      if Mkdir(s.t, s.root, path).1.Done? { AddChildOk(s.t, p.dir, names[|names| - 1]); }
    case MountCall(knownFs, dev, path) =>
      if Mount(s.t, s.root, s.pwd, knownFs, dev, path).1.Done? { AddMountOk(s.t, Namei(s.t, s.root, s.pwd, path).d); }
    case ChdirCall(_) =>
    case ChrootCall(_) =>
  }

  /** Over any run the tree stays well formed: every entry but a root is once a child of its
      parent, parents and mounts are acyclic, and no root is mounted twice. */
  function Run(s: State, calls: seq<Call>): (r: State)
    requires Sound(s)
    ensures Sound(r) && |s.t| <= |r.t|
    decreases |calls|
  {
    if calls == [] then s
    else
      ApplySound(s, calls[0]);
      Run(Apply(s, calls[0]), calls[1..])
  }

  /** The first root file system. */
  function RootOnly(): Tree {
    [Dentry("/", 0, [], NONE, Directory, true)]
  }

  lemma MountedRootOk()
    ensures Ok(RootOnly())
  {
    var t := RootOnly();
    assert ParentOk(t, 0) && ChildrenOk(t, 0) && MountOk(t, 0);
  }
}
