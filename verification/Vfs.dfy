/** Path resolution, mkdir and mount in place (fs/file_op.c:332-596): entries that point at
    each other. */
module Vfs {
  import opened Dentries
  import PathWalk

  class DirEntry {
    const ino: nat
    const mode: Mode
    const hasOps: bool
    const name: string
    const parent: DirEntry
    var children: seq<DirEntry>
    var mountedDir: DirEntry?

    /** rootfs_mount */
    constructor Root(ino: nat)
      ensures this.ino == ino && mode == Directory && hasOps && name == "/" && parent == this
      ensures children == [] && mountedDir == null
    {
      this.ino, mode, hasOps, name := ino, Directory, true, "/";
      parent := this;
      children, mountedDir := [], null;
    }

    constructor Made(ino: nat, name: string, parent: DirEntry)
      ensures this.ino == ino && mode == Directory && !hasOps && this.name == name && this.parent == parent
      ensures children == [] && mountedDir == null
    {
      this.ino, mode, hasOps, this.name, this.parent := ino, Directory, false, name, parent;
      children, mountedDir := [], null;
    }
  }

  function Inos(l: seq<DirEntry>): (r: seq<nat>)
    ensures |r| == |l|
  {
    seq(|l|, k requires 0 <= k < |l| => l[k].ino)
  }

  ghost function ValueOf(e: DirEntry): Dentry
    reads e
  {
    Dentry(e.name, e.parent.ino, Inos(e.children), if e.mountedDir == null then NONE else e.mountedDir.ino, e.mode, e.hasOps)
  }

  ghost function Values(entries: seq<DirEntry>): (t: Tree)
    reads entries
    ensures |t| == |entries|
  {
    seq(|entries|, k requires 0 <= k < |entries| reads entries => ValueOf(entries[k]))
  }

  /** Entry k carries number k and points at numbered entries only. */
  ghost predicate Closed(entries: seq<DirEntry>, k: nat)
    requires k < |entries|
    reads entries
  {
    && entries[k].ino == k
    && entries[k].parent in entries
    && (forall c :: c in entries[k].children ==> c in entries)
    && (entries[k].mountedDir != null ==> entries[k].mountedDir in entries)
  }

  /** Where the walk of a relative path ends, before its last component. */
  ghost function Ends(t: Tree, s: Place, rest: string): Place
    requires Ok(t) && Inside(t, s)
  {
    Fold(t, s, Split(rest)[..|Split(rest)| - 1])
  }

  ghost function LastName(rest: string): string {
    Split(rest)[|Split(rest)| - 1]
  }

  lemma InitFirst(name: string, b: seq<string>)
    requires b != []
    ensures ([name] + b)[..|[name] + b| - 1] == [name] + b[..|b| - 1] && ([name] + b)[|[name] + b| - 1] == b[|b| - 1]
  {
  }

  lemma FoldFirst(t: Tree, s: Place, name: string, names: seq<string>)
    requires Ok(t) && Inside(t, s)
    ensures Fold(t, s, [name] + names) == Fold(t, Step(t, s, name), names)
  {
    assert ([name] + names)[1..] == names;
  }

  /** One round of the loop of get_parent_dir_entry takes one component off the path. */
  lemma EndsRest(t: Tree, s: Place, rest: string, name: string, tail: string)
    requires Ok(t) && Inside(t, s) && SlashAt(rest) < |rest|
    requires name == rest[..SlashAt(rest)] && tail == rest[SlashAt(rest) + 1..]
    ensures Ends(t, s, rest) == Ends(t, Step(t, s, name), tail) && LastName(rest) == LastName(tail)
  {
    var b := Split(tail);
    assert Split(rest) == [name] + b;
    InitFirst(name, b);
    FoldFirst(t, s, name, b[..|b| - 1]);
  }

  lemma EndsHere(t: Tree, s: Place, rest: string)
    requires Ok(t) && Inside(t, s) && SlashAt(rest) == |rest|
    ensures Ends(t, s, rest) == s && LastName(rest) == rest
  {
  }

  lemma EndsStuck(t: Tree, s: Place, rest: string)
    requires Ok(t) && !s.At?
    ensures Ends(t, s, rest) == s
  {
    PathWalk.FoldStuck(t, s, Split(rest)[..|Split(rest)| - 1]);
  }

  class FileSystem {
    var root: DirEntry
    var pwd: DirEntry
    var inodeNum: nat
    ghost var entries: seq<DirEntry>

    ghost predicate Valid()
      reads this, entries
    {
      && |entries| == inodeNum
      && (forall k {:trigger Closed(entries, k)} :: 0 <= k < |entries| ==> Closed(entries, k))
      && root in entries && pwd in entries
      && Ok(Values(entries))
    }

    ghost function Value(): State
      reads this, entries
    {
      State(Values(entries), root.ino, pwd.ino)
    }

    lemma Numbered(e: DirEntry)
      requires Valid() && e in entries
      ensures e.ino < |entries| && entries[e.ino] == e && Closed(entries, e.ino) && Values(entries)[e.ino] == ValueOf(e)
    {
      var k :| 0 <= k < |entries| && entries[k] == e;
      assert Closed(entries, k);
    }

    constructor ()
      ensures Valid() && fresh(entries)
      ensures Value() == State(RootOnly(), 0, 0)
    {
      var r := new DirEntry.Root(0);
      root, pwd, inodeNum, entries := r, r, 1, [r];
      new;
      MountedRootOk();
      assert Closed(entries, 0);
      assert Values(entries) == [Dentry("/", 0, [], NONE, Directory, true)];
    }

    /** Follows mounts from d to an entry that nothing is mounted over. */
    method FollowMounts(d: DirEntry) returns (tmp: DirEntry)
      requires Valid() && d in entries
      ensures tmp in entries && d.ino < |entries| && tmp.ino == Follow(Values(entries), d.ino)
    {
      Numbered(d);
      tmp := d;
      while tmp.mountedDir != null
        invariant tmp in entries && tmp.ino < |entries|
        invariant Follow(Values(entries), tmp.ino) == Follow(Values(entries), d.ino)
        decreases |entries| - tmp.ino
      {
        Numbered(tmp);
        assert MountOk(Values(entries), tmp.ino);
        tmp := tmp.mountedDir;
        Numbered(tmp);
      }
      Numbered(tmp);
    }

    /** The search of lookup among the children. */
    method FindChild(dir: DirEntry, name: string) returns (c: DirEntry?)
      requires Valid() && dir in entries
      ensures dir.ino < |entries|
      ensures c == null ==> Child(Values(entries), dir.ino, name) == NONE
      ensures c != null ==> c in entries && Child(Values(entries), dir.ino, name) == c.ino
    {
      Numbered(dir);
      ghost var t := Values(entries);
      ghost var l := t[dir.ino].children;
      assert ChildrenOk(t, dir.ino);
      var i := 0;
      while i < |dir.children|
        invariant i <= |dir.children|
        invariant forall j :: 0 <= j < i ==> t[l[j]].name != name
      {
        var tmp := dir.children[i];
        assert tmp in entries;
        Numbered(tmp);
        if tmp.name == name {
          assert l[i] == tmp.ino && t[l[i]].name == name;
          assert FindName(t, l, name) == i;
          return tmp;
        }
        i := i + 1;
      }
      return null;
    }

    /** lookup: on Hit, res is what it writes; otherwise it writes nothing. */
    method LookUp(dir: DirEntry, name: string) returns (found: Found, res: DirEntry?)
      requires Valid() && dir in entries
      ensures dir.ino < |entries| && found == Lookup(Values(entries), dir.ino, name)
      ensures found.Hit? ==> res != null && res in entries && res.ino == found.d
    {
      Numbered(dir);
      if |name| == 1 && name[0] == '.' {
        return Hit(dir.ino), dir;
      }
      if |name| == 2 && name[0] == '.' && name[1] == '.' {
        Numbered(dir.parent);
        return Hit(dir.parent.ino), dir.parent;
      }
      if |name| == 0 {
        return Hit(dir.ino), dir;
      }
      var c := FindChild(dir, name);
      if c != null {
        var tmp := FollowMounts(c);
        return Hit(tmp.ino), tmp;
      }
      return if dir.hasOps then Unwritten else NullCall, null;
    }

    /** Scans one component: its name, and where the path goes on if a slash ended it. */
    method NextName(pathname: string, at: nat) returns (name: string, from: nat, more: bool)
      requires at <= |pathname|
      ensures name == pathname[at..][..SlashAt(pathname[at..])]
      ensures more <==> SlashAt(pathname[at..]) < |pathname[at..]|
      ensures if more then at < from <= |pathname| && pathname[from..] == pathname[at..][SlashAt(pathname[at..]) + 1..]
              else from == at && name == pathname[at..]
    {
      var len := 0;
      while at + len < |pathname| && pathname[at + len] != '/'
        invariant at + len <= |pathname|
        invariant forall j :: 0 <= j < len ==> pathname[at..][j] != '/'
      {
        len := len + 1;
      }
      assert at + len < |pathname| ==> pathname[at..][len] == '/';
      more := at + len < |pathname|;
      name, from := pathname[at..at + len], if more then at + len + 1 else at;
    }

    /** One round of the loop of get_parent_dir_entry; midDir is null until first written. */
    method Advance(dir: DirEntry, midDir: DirEntry?, name: string) returns (place: Place, next: DirEntry?)
      requires Valid() && dir in entries && (midDir == null || midDir == dir)
      ensures dir.ino < |entries| && place == Step(Values(entries), At(dir.ino, midDir != null), name)
      ensures place.At? ==> next != null && next in entries && next.ino == place.dir
    {
      Numbered(dir);
      var found, res := LookUp(dir, name);
      match found {
        case Hit(d) => return At(d, true), res;
        case Unwritten => return if midDir == null then WildRead else At(dir.ino, true), midDir;
        case NullCall => return NullRead, null;
      }
    }

    /** get_parent_dir_entry */
    method GetParentDirEntry(pathname: string, base: DirEntry?) returns (place: Place, dir: DirEntry?, last: string)
      requires Valid() && (base != null ==> base in entries)
      ensures root.ino < |entries| && pwd.ino < |entries| && (base != null ==> base.ino < |entries|)
      ensures place == Ends(Values(entries), Start(pathname, root.ino, if base == null then pwd.ino else base.ino), Relative(pathname))
      ensures place.At? ==> dir != null && dir in entries && dir.ino == place.dir && last == LastName(Relative(pathname))
    {
      Numbered(root);
      Numbered(pwd);
      if base != null { Numbered(base); }
      var from := 0;
      var start := base;
      if base == null {
        start := pwd;
      }
      if pathname != "" && pathname[0] == '/' {
        start := root;
        from := 1;
      }
      Numbered(start);
      assert pathname[from..] == Relative(pathname);
      place, dir, last := WalkOn(pathname, from, start);
    }

    /** The body of the loop of get_parent_dir_entry: midDir is null until first written. */
    method Component(pathname: string, at: nat, place: Place, dir: DirEntry, midDir: DirEntry?)
      returns (done: bool, place': Place, dir': DirEntry?, last: string, from: nat)
      requires Valid() && dir in entries && at <= |pathname| && place.At? && dir.ino == place.dir < |entries|
      requires midDir == if place.known then dir else null
      ensures from <= |pathname|
      ensures if done then place' == Ends(Values(entries), place, pathname[at..])
              else Inside(Values(entries), place') && Ends(Values(entries), place', pathname[from..]) == Ends(Values(entries), place, pathname[at..])
      ensures place'.At? ==> dir' != null && dir' in entries && dir'.ino == place'.dir
      ensures done && place'.At? ==> last == LastName(pathname[at..])
      ensures !done ==> place'.At? && place'.known && at < from && LastName(pathname[from..]) == LastName(pathname[at..])
    {
      ghost var t := Values(entries);
      var more;
      last, from, more := NextName(pathname, at);
      if !more {
        EndsHere(t, place, last);
        return true, place, dir, last, at;
      }
      EndsRest(t, place, pathname[at..], last, pathname[from..]);
      place', dir' := Advance(dir, midDir, last);
      done := !place'.At?;
      if done { EndsStuck(t, place', pathname[from..]); }
    }

    /** The loop of get_parent_dir_entry. */
    method WalkOn(pathname: string, at: nat, start: DirEntry) returns (place: Place, dir: DirEntry?, last: string)
      requires Valid() && start in entries && at <= |pathname|
      ensures start.ino < |entries| && place == Ends(Values(entries), At(start.ino, false), pathname[at..])
      ensures place.At? ==> dir != null && dir in entries && dir.ino == place.dir && last == LastName(pathname[at..])
    {
      Numbered(start);
      var from, done := at, false;
      var midDir: DirEntry? := null;
      dir, last, place := start, "", At(start.ino, false);
      ghost var goal := Ends(Values(entries), place, pathname[at..]);
      while !done
        invariant 0 <= from <= |pathname|
        invariant place.At? ==> dir != null && dir in entries && dir.ino == place.dir < |entries|
        invariant !done && place.At? ==> midDir == if place.known then dir else null
        invariant done ==> place == goal && (place.At? ==> last == LastName(pathname[at..]))
        invariant !done ==> place.At? && Ends(Values(entries), place, pathname[from..]) == goal
        invariant !done ==> LastName(pathname[from..]) == LastName(pathname[at..])
        decreases !done, |pathname| - from
      {
        done, place, dir, last, from := Component(pathname, from, place, dir, midDir);
        midDir := dir;
      }
    }

    /** namei */
    method NameI(pathname: string) returns (r: Result, d: DirEntry?)
      requires Valid()
      ensures root.ino < |entries| && pwd.ino < |entries|
      ensures r == Namei(Values(entries), root.ino, pwd.ino, pathname)
      ensures r.Entry? ==> d != null && d in entries && d.ino == r.d
    {
      var place, dir, last := GetParentDirEntry(pathname, null);
      if !place.At? {
        return Crash(place), null;
      }
      var found, res := LookUp(dir, last);
      match found {
        case Hit(e) => return Entry(e), res;
        case Unwritten => return NullEntry, null;
        case NullCall => return Crash(NullRead), null;
      }
    }

    /** sys_mkdir */
    method SysMkdir(dirname: string) returns (out: Outcome)
      requires Valid()
      modifies this, entries
      ensures Valid() && old(entries) <= entries && fresh(entries[|old(entries)|..]) && root == old(root) && pwd == old(pwd)
      ensures old(Sound(Value()))
      ensures Values(entries) == old(Mkdir(Values(entries), root.ino, dirname)).0
      ensures out == old(Mkdir(Values(entries), root.ino, dirname)).1
    {
      Numbered(root);
      Numbered(pwd);
      ghost var t := Values(entries);
      var place, dir, last := GetParentDirEntry(dirname, root);
      if !place.At? {
        return Broke(place);
      }
      Numbered(dir);
      if dir.mode != Directory {
        return Failed;
      }
      if |last| > NAME_MAX {
        return Overrun;
      }
      MakeChild(dir, last);
      return Done;
    }

    /** sys_mkdir, once the directory is found: the new entry goes first among the children. */
    method MakeChild(dir: DirEntry, name: string)
      requires Valid() && dir in entries
      modifies this, entries
      ensures Valid() && old(entries) <= entries && fresh(entries[|old(entries)|..]) && root == old(root) && pwd == old(pwd)
      ensures dir.ino < |old(entries)| && Values(entries) == AddChild(old(Values(entries)), dir.ino, name)
    {
      ghost var t := Values(entries);
      Numbered(dir);
      ghost var before := Inos(dir.children);
      var devDir := new DirEntry.Made(inodeNum, name, dir);
      inodeNum := inodeNum + 1;
      dir.children := [devDir] + dir.children;
      entries := entries + [devDir];
      AddChildOk(t, dir.ino, name);
      assert Inos(dir.children) == [|t|] + before;
      Grown(AddChild(t, dir.ino, name), dir);
    }

    /** Entry k of the old ones, not being e, is untouched. */
    twostate lemma KeptAt(e: DirEntry, new k: nat)
      requires old(Valid()) && k < |old(entries)| && old(entries) <= entries && k != e.ino
      requires forall x :: x in old(entries) && x != e ==> unchanged(x)
      ensures Closed(entries, k) && ValueOf(entries[k]) == old(Values(entries))[k]
    {
      assert old(Closed(entries, k));
      assert entries[k] == old(entries)[k] && entries[k] in old(entries);
      assert forall x :: x in old(entries) ==> x in entries;
    }

    /** Entries grew by one and of the old ones only e changed: Values follows. */
    twostate lemma ValuesGrown(new u: Tree, e: DirEntry)
      requires old(Valid()) && old(entries) <= entries && |entries| == |old(entries)| + 1
      requires forall x :: x in old(entries) && x != e ==> unchanged(x)
      requires |u| == |entries| && e.ino < |old(entries)|
      requires Closed(entries, |entries| - 1) && Closed(entries, e.ino)
      requires u[e.ino] == ValueOf(entries[e.ino]) && u[|u| - 1] == ValueOf(entries[|u| - 1])
      requires forall k :: 0 <= k < |u| - 1 && k != e.ino ==> u[k] == old(Values(entries))[k]
      ensures Values(entries) == u
      ensures forall k {:trigger Closed(entries, k)} :: 0 <= k < |entries| ==> Closed(entries, k)
    {
      forall k | 0 <= k < |entries| ensures Closed(entries, k) && Values(entries)[k] == u[k] {
        if k < |u| - 1 && k != e.ino { KeptAt(e, k); }
      }
    }

    twostate lemma Grown(new u: Tree, e: DirEntry)
      requires old(Valid()) && old(entries) <= entries && |entries| == |old(entries)| + 1 == inodeNum && e in old(entries)
      requires root == old(root) && pwd == old(pwd)
      requires forall x :: x in old(entries) && x != e ==> unchanged(x)
      requires |u| == |entries| && e.ino < |old(entries)| && Ok(u)
      requires Closed(entries, |entries| - 1) && Closed(entries, e.ino)
      requires u[e.ino] == ValueOf(entries[e.ino]) && u[|u| - 1] == ValueOf(entries[|u| - 1])
      requires forall k :: 0 <= k < |u| - 1 && k != e.ino ==> u[k] == old(Values(entries))[k]
      ensures Valid() && Values(entries) == u
    {
      ValuesGrown(u, e);
    }

    /** sys_mount, with the outcome of lookup_fs. */
    method SysMount(knownFs: bool, devName: string, dirName: string) returns (out: Outcome)
      requires Valid()
      modifies this, entries
      ensures Valid() && old(entries) <= entries && fresh(entries[|old(entries)|..]) && root == old(root) && pwd == old(pwd)
      ensures old(Sound(Value())) && (Values(entries), out) == old(Mount(Values(entries), root.ino, pwd.ino, knownFs, devName, dirName))
    {
      Numbered(root);
      Numbered(pwd);
      ghost var t := Values(entries);
      if !knownFs {
        return Failed;
      }
      var r, devDir := NameI(devName);
      if !r.Entry? {
        return Broke(if r.NullEntry? then NullRead else r.why);
      }
      Numbered(devDir);
      if devDir.mode != Directory && devDir.mode != Block {
        return Failed;
      }
      var r', dirDir := NameI(dirName);
      if !r'.Entry? {
        return Broke(if r'.NullEntry? then NullRead else r'.why);
      }
      Numbered(dirDir);
      if dirDir.mode != Directory || dirDir.mountedDir != null {
        return Failed;
      }
      Attach(dirDir);
      return Done;
    }

    /** sys_mount, once the directory is found: a fresh root covers it. */
    method Attach(dirDir: DirEntry)
      requires Valid() && dirDir in entries && dirDir.mountedDir == null
      modifies this, entries
      ensures Valid() && old(entries) <= entries && fresh(entries[|old(entries)|..]) && root == old(root) && pwd == old(pwd)
      ensures dirDir.ino < |old(entries)| && Values(entries) == AddMount(old(Values(entries)), dirDir.ino)
    {
      ghost var t := Values(entries);
      Numbered(dirDir);
      var newDir := new DirEntry.Root(inodeNum);
      inodeNum := inodeNum + 1;
      dirDir.mountedDir := newDir;
      entries := entries + [newDir];
      AddMountOk(t, dirDir.ino);
      Grown(AddMount(t, dirDir.ino), dirDir);
    }

    /** sys_chdir */
    method SysChdir(dirname: string) returns (out: Outcome)
      requires Valid()
      modifies `pwd
      ensures Valid() && old(Sound(Value())) && out == old(Enter(Values(entries), root.ino, pwd.ino, dirname)).1
      ensures Value() == old(Dentries.Apply(Value(), ChdirCall(dirname)))
    {
      Numbered(root);
      Numbered(pwd);
      var r, dir := NameI(dirname);
      if !r.Entry? {
        return Broke(if r.NullEntry? then NullRead else r.why);
      }
      Numbered(dir);
      if dir.mode != Directory {
        return Failed;
      }
      pwd := dir;
      return Done;
    }

    /** sys_chroot */
    method SysChroot(dirname: string) returns (out: Outcome)
      requires Valid()
      modifies `root
      ensures Valid() && old(Sound(Value())) && out == old(Enter(Values(entries), root.ino, pwd.ino, dirname)).1
      ensures Value() == old(Dentries.Apply(Value(), ChrootCall(dirname)))
    {
      Numbered(root);
      Numbered(pwd);
      var r, dir := NameI(dirname);
      if !r.Entry? {
        return Broke(if r.NullEntry? then NullRead else r.why);
      }
      Numbered(dir);
      if dir.mode != Directory {
        return Failed;
      }
      root := dir;
      return Done;
    }
  }
}
