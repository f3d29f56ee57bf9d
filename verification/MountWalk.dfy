/** What sys_mount, sys_chdir and sys_chroot do to path resolution. */
module MountWalk {
  import opened Dentries
  import opened PathWalk

  // ----- The walk after a mount -----

  /** Inside the new root "", "." and ".." stay there, and every other name is missed. */
  lemma LookupInMount(t: Tree, d: nat, n: string)
    requires Ok(t) && d < |t| && Ok(AddMount(t, d))
    ensures Lookup(AddMount(t, d), |t|, n) == if Special(n) then Hit(|t|) else Unwritten
  {
    assert AddMount(t, d)[|t|].children == [];
  }

  /** A step in the old tree with a new root, numbered |t|, over directory d. */
  function StepMounted(t: Tree, d: nat, s: Place, n: string): (r: Place)
    requires Ok(t) && d < |t| && (s.At? ==> s.dir <= |t|)
    ensures r.At? ==> r.dir <= |t|
  {
    if s.At? && s.dir == |t| then
      if Special(n) then At(|t|, true) else if s.known then s else WildRead
    else if s.At? && !Special(n) && Lookup(t, s.dir, n) == Hit(d) then At(|t|, true)
    else Step(t, s, n)
  }

  function FoldMounted(t: Tree, d: nat, s: Place, names: seq<string>): (r: Place)
    requires Ok(t) && d < |t| && (s.At? ==> s.dir <= |t|)
    ensures r.At? ==> r.dir <= |t|
    decreases |names|
  {
    if names == [] then s else FoldMounted(t, d, StepMounted(t, d, s, names[0]), names[1..])
  }

  lemma {:induction false} FoldAfterMount(t: Tree, d: nat, s: Place, names: seq<string>)
    requires Ok(t) && d < |t| && t[d].mounted == NONE && (s.At? ==> s.dir <= |t|)
    ensures Ok(AddMount(t, d)) && Fold(AddMount(t, d), s, names) == FoldMounted(t, d, s, names)
    decreases |names|
  {
    AddMountOk(t, d);
    if names != [] {
      if s.At? && s.dir == |t| { LookupInMount(t, d, names[0]); }
      if s.At? && s.dir < |t| { MountDiverts(t, d, s.dir, names[0]); }
      FoldAfterMount(t, d, StepMounted(t, d, s, names[0]), names[1..]);
    }
  }

  /** Whether an ordinary component of the walk leads to d. */
  predicate Enters(t: Tree, d: nat, s: Place, names: seq<string>)
    requires Ok(t) && Inside(t, s)
    decreases |names|
  {
    names != [] &&
    ((s.At? && !Special(names[0]) && Lookup(t, s.dir, names[0]) == Hit(d)) || Enters(t, d, Step(t, s, names[0]), names[1..]))
  }

  lemma {:induction false} FoldMountedAside(t: Tree, d: nat, s: Place, names: seq<string>)
    requires Ok(t) && d < |t| && Inside(t, s) && !Enters(t, d, s, names)
    ensures FoldMounted(t, d, s, names) == Fold(t, s, names)
    decreases |names|
  {
    if names != [] { FoldMountedAside(t, d, Step(t, s, names[0]), names[1..]); }
  }

  lemma {:induction false} EntersJoin(t: Tree, d: nat, s: Place, a: seq<string>, b: seq<string>)
    requires Ok(t) && Inside(t, s)
    ensures Enters(t, d, s, a + b) <==> Enters(t, d, s, a) || Enters(t, d, Fold(t, s, a), b)
    decreases |a|
  {
    if a == [] {
      assert a + b == b;
    } else {
      assert (a + b)[0] == a[0] && (a + b)[1..] == a[1..] + b;
      EntersJoin(t, d, Step(t, s, a[0]), a[1..], b);
    }
  }

  /** A path resolves to the new root exactly when the walk to its last component, taken in the
      old tree with the new root over d, arrives where that component led to d. */
  lemma MountResolves(t: Tree, d: nat, init: seq<string>, name: string, s: Place)
    requires Ok(t) && d < |t| && t[d].mounted == NONE && Inside(t, s) && !Special(name)
    ensures
      var u, p := AddMount(t, d), FoldMounted(t, d, s, init);
      && Ok(u)
      && (Resolve(u, s, init + [name]) == Entry(|t|) <==> p.At? && p.dir < |t| && Lookup(t, p.dir, name) == Hit(d))
  {
    AddMountOk(t, d);
    FoldAfterMount(t, d, s, init);
    ResolveLast(AddMount(t, d), s, init, name);
    var p := FoldMounted(t, d, s, init);
    if p.At? && p.dir == |t| { LookupInMount(t, d, name); }
    if p.At? && p.dir < |t| { MountDiverts(t, d, p.dir, name); }
  }

  /** Paths none of whose ordinary components lead to d resolve as before. */
  lemma OtherPathsMounted(t: Tree, d: nat, s: Place, names: seq<string>)
    requires Ok(t) && d < |t| && t[d].mounted == NONE && Inside(t, s) && names != [] && !Enters(t, d, s, names)
    ensures Ok(AddMount(t, d)) && Resolve(AddMount(t, d), s, names) == Resolve(t, s, names)
  {
    var init, last := names[..|names| - 1], names[|names| - 1];
    AddMountOk(t, d);
    assert names == init + [last];
    EntersJoin(t, d, s, init, [last]);
    FoldAfterMount(t, d, s, init);
    FoldMountedAside(t, d, s, init);
    var p := Fold(t, s, init);
    if p.At? { MountDiverts(t, d, p.dir, last); }
  }

  // ----- sys_mount -----

  lemma LastIsUncovered(t: Tree, s: Place, last: string)
    requires Ok(t) && Inside(t, s) && !Special(last) && Final(t, s, last).Entry?
    ensures t[Final(t, s, last).d].mounted == NONE
  {
  }

  /** sys_mount succeeds exactly for a known file system, a device path that resolves to a
      directory or block device, and a path that resolves to a directory that nothing covers
      yet, which an ordinary last component always gives. */
  lemma MountDone(t: Tree, root: nat, pwd: nat, knownFs: bool, dev: string, path: string)
    requires Ok(t) && root < |t| && pwd < |t|
    ensures
      var e, d := Namei(t, root, pwd, dev), Namei(t, root, pwd, path);
      var last := Split(Relative(path))[|Split(Relative(path))| - 1];
      && (Mount(t, root, pwd, knownFs, dev, path).1.Done? <==>
            && knownFs && e.Entry? && t[e.d].mode != Other && d.Entry? && t[d.d].mode == Directory
            && (Special(last) ==> t[d.d].mounted == NONE))
      && (d.Entry? && !Special(last) ==> t[d.d].mounted == NONE)
  {
    var names := Split(Relative(path));
    var last := names[|names| - 1];
    if !Special(last) && Namei(t, root, pwd, path).Entry? {
      LastIsUncovered(t, Fold(t, Start(path, root, pwd), names[..|names| - 1]), last);
    }
  }

  /** What it leaves: the directory is covered by a root of its own, made as the youngest entry,
      and nothing else changed; without success nothing changed at all. */
  lemma MountLeaves(t: Tree, root: nat, pwd: nat, knownFs: bool, dev: string, path: string)
    requires Ok(t) && root < |t| && pwd < |t|
    ensures
      var (u, out), d := Mount(t, root, pwd, knownFs, dev, path), Namei(t, root, pwd, path);
      if out.Done? then
        && d.Entry? && |u| == |t| + 1 && IsRoot(u, |t|) && u[|t|].hasOps && u[|t|].children == [] && u[|t|].mounted == NONE
        && u[d.d] == t[d.d].(mounted := |t|) && forall k :: 0 <= k < |t| && k != d.d ==> u[k] == t[k]
      else u == t
  {
  }

  /** After a successful sys_mount on a path with an ordinary last component the path resolves to
      the new root exactly when the walk there, in the tree with the new root, arrives where the
      component led to the covered directory; a way that does not enter that directory itself
      gives it. All other paths that do not enter it resolve as before. */
  lemma MountThenNamei(t: Tree, root: nat, pwd: nat, dev: string, path: string, init: seq<string>, name: string, s: Place, d: nat)
    requires Ok(t) && root < |t| && pwd < |t| && Mount(t, root, pwd, true, dev, path).1.Done?
    requires Split(Relative(path)) == init + [name] && !Special(name) && s == Start(path, root, pwd)
    requires Namei(t, root, pwd, path) == Entry(d)
    ensures
      var u, p := Mount(t, root, pwd, true, dev, path).0, FoldMounted(t, d, s, init);
      && Ok(u)
      && (Namei(u, root, pwd, path) == Entry(|t|) <==> p.At? && p.dir < |t| && Lookup(t, p.dir, name) == Hit(d))
      && (!Enters(t, d, s, init) ==> Namei(u, root, pwd, path) == Entry(|t|))
  {
    MountResolves(t, d, init, name, s);
    ResolveLast(t, s, init, name);
    if !Enters(t, d, s, init) { FoldMountedAside(t, d, s, init); }
  }

  lemma OtherPathsAfterMount(t: Tree, root: nat, pwd: nat, dev: string, path: string, other: string, d: nat)
    requires Ok(t) && root < |t| && pwd < |t| && Mount(t, root, pwd, true, dev, path).1.Done?
    requires Namei(t, root, pwd, path) == Entry(d)
    requires !Enters(t, d, Start(other, root, pwd), Split(Relative(other)))
    ensures
      var u := Mount(t, root, pwd, true, dev, path).0;
      Ok(u) && Namei(u, root, pwd, other) == Namei(t, root, pwd, other)
  {
    OtherPathsMounted(t, d, Start(other, root, pwd), Split(Relative(other)));
  }

  lemma FoldTwo(t: Tree, s: Place, a: string, b: string)
    requires Ok(t) && Inside(t, s)
    ensures Fold(t, s, [a, b]) == Step(t, Step(t, s, a), b)
  {
    assert [a, b][1..] == [b] && [b][1..] == [];
    assert Fold(t, s, [a, b]) == Fold(t, Step(t, s, a), [b]) == Fold(t, Step(t, Step(t, s, a), b), []);
  }

  /** Why the way must not enter the directory: a mount on name/../name succeeds, and the path
      then resolves to nothing, since the new root is its own parent. */
  lemma OwnMountOnTheWay(t: Tree, dir: nat, d: nat, name: string)
    requires Ok(t) && dir < |t| && d < |t| && !Special(name)
    requires Lookup(t, dir, name) == Hit(d) && t[d].parent == dir && t[d].mounted == NONE
    ensures
      var names := [name, "..", name];
      && Resolve(t, At(dir, false), names) == Entry(d)
      && Ok(AddMount(t, d)) && Resolve(AddMount(t, d), At(dir, false), names) == NullEntry
  {
    var u, names := AddMount(t, d), [name, "..", name];
    AddMountOk(t, d);
    assert names == [name, ".."] + [name];
    ResolveLast(t, At(dir, false), [name, ".."], name);
    ResolveLast(u, At(dir, false), [name, ".."], name);
    FoldTwo(t, At(dir, false), name, "..");
    FoldTwo(u, At(dir, false), name, "..");
    MountDiverts(t, d, dir, name);
    LookupInMount(t, d, "..");
    LookupInMount(t, d, name);
  }

  // ----- sys_chdir and sys_chroot -----

  lemma EntryIsReached(t: Tree, s: Place, names: seq<string>, d: nat)
    requires Ok(t) && Inside(t, s) && names != [] && Resolve(t, s, names) == Entry(d)
    ensures Fold(t, s, names) == At(d, true)
  {
    var init, last := names[..|names| - 1], names[|names| - 1];
    assert names == init + [last];
    FoldJoin(t, s, init, [last]);
    assert Fold(t, Fold(t, s, init), [last]) == Step(t, Fold(t, s, init), last);
  }

  lemma BehindEntry(t: Tree, root: nat, pwd: nat, path: string, q: string, d: nat)
    requires Ok(t) && root < |t| && pwd < |t| && path != "" && Namei(t, root, pwd, path) == Entry(d)
    ensures Namei(t, root, pwd, path + "/" + q) == Resolve(t, At(d, true), Split(q))
  {
    var names := Split(Relative(path));
    RelativeJoin(t, root, pwd, path, q);
    EntryIsReached(t, Start(path, root, pwd), names, d);
    ResolveJoin(t, Start(path, root, pwd), names, Split(q));
  }

  lemma BehindDot(t: Tree, d: nat, q: string)
    requires Ok(t) && d < |t|
    ensures Split("./" + q) == ["."] + Split(q) && Resolve(t, At(d, false), ["."] + Split(q)) == Resolve(t, At(d, true), Split(q))
  {
    assert Split(".") == ["."];
    SplitJoin(".", q, "./" + q);
    ResolveJoin(t, At(d, false), ["."], Split(q));
    assert Fold(t, At(d, false), ["."]) == Step(t, At(d, false), ".") == At(d, true);
  }

  /** sys_chdir succeeds exactly for a path to a directory. Afterwards "." is that directory, and
      ./q is what path/q was before. */
  lemma ChdirThenRelative(t: Tree, root: nat, pwd: nat, path: string, q: string)
    requires Ok(t) && root < |t| && pwd < |t| && path != ""
    ensures
      var (d, out), found := Enter(t, root, pwd, path), Namei(t, root, pwd, path);
      && (out.Done? <==> found.Entry? && t[found.d].mode == Directory)
      && (out.Done? ==> Namei(t, root, d, ".") == found == Entry(d)
                        && Namei(t, root, d, "./" + q) == Namei(t, root, pwd, path + "/" + q))
  {
    var (d, out) := Enter(t, root, pwd, path);
    if out.Done? {
      BehindEntry(t, root, pwd, path, q, d);
      BehindDot(t, d, q);
      assert Relative("./" + q) == "./" + q;
      assert Split(".") == ["."];
    }
  }

  lemma FromSlash(t: Tree, d: nat, base: nat, q: string)
    requires Ok(t) && d < |t| && base < |t|
    ensures Namei(t, d, base, "/") == Entry(d)
    ensures Namei(t, d, base, "/./" + q) == Resolve(t, At(d, false), Split("./" + q))
  {
    assert Relative("/") == "" && Split("") == [""];
    ResolveLast(t, At(d, false), [], "");
    var p := "/./" + q;
    assert p[0] == '/' && p[1..] == "./" + q;
  }

  /** After sys_chroot "/" is that directory, and /./q is what path/q was before. */
  lemma ChrootThenAbsolute(t: Tree, root: nat, pwd: nat, path: string, q: string)
    requires Ok(t) && root < |t| && pwd < |t| && path != "" && Enter(t, root, pwd, path).1.Done?
    ensures
      var d := Enter(t, root, pwd, path).0;
      && Namei(t, d, pwd, "/") == Namei(t, root, pwd, path) == Entry(d)
      && Namei(t, d, pwd, "/./" + q) == Namei(t, root, pwd, path + "/" + q)
  {
    var d := Enter(t, root, pwd, path).0;
    BehindEntry(t, root, pwd, path, q, d);
    BehindDot(t, d, q);
    FromSlash(t, d, pwd, q);
  }
}
