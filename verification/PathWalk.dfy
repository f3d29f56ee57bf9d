/** What path resolution means: slashes and dots, misses, and what mkdir and mount change. */
module PathWalk {
  import opened Dentries

  // ----- Splitting -----

  lemma SlashAfter(p: string, q: string)
    ensures SlashAt(p + "/" + q) == SlashAt(p)
  {
    var r := p + "/" + q;
    assert r[|p|] == '/';
    assert forall j :: 0 <= j < |p| ==> r[j] == p[j];
  }

  lemma SplitHead(r: string, head: string, tail: string)
    requires r == head + "/" + tail && SlashAt(head) == |head|
    ensures Split(r) == [head] + Split(tail)
  {
    SlashAfter(head, tail);
    assert r[..|head|] == head && r[|head| + 1..] == tail;
  }

  lemma CutAtSlash(p: string)
    requires SlashAt(p) < |p|
    ensures
      var head, tail := p[..SlashAt(p)], p[SlashAt(p) + 1..];
      p == head + "/" + tail && SlashAt(head) == |head|
  {
  }

  lemma JoinAssoc(a: string, b: string, c: string)
    ensures (a + "/" + b) + "/" + c == a + "/" + (b + "/" + c)
  {
  }

  lemma {:induction false} SplitJoin(p: string, q: string, r: string)
    requires r == p + "/" + q
    ensures Split(r) == Split(p) + Split(q)
    decreases |p|
  {
    var k := SlashAt(p);
    if k == |p| {
      SplitHead(r, p, q);
    } else {
      var head, tail := p[..k], p[k + 1..];
      CutAtSlash(p);
      JoinAssoc(head, tail, q);
      SplitHead(r, head, tail + "/" + q);
      SplitJoin(tail, q, tail + "/" + q);
      SplitMore([head], Split(tail), Split(q));
    }
  }

  lemma SplitMore(a: seq<string>, b: seq<string>, c: seq<string>)
    ensures a + (b + c) == (a + b) + c
  {
  }

  // ----- Folding -----

  lemma {:induction false} FoldJoin(t: Tree, s: Place, a: seq<string>, b: seq<string>)
    requires Ok(t) && Inside(t, s)
    ensures Fold(t, s, a + b) == Fold(t, Fold(t, s, a), b)
    decreases |a|
  {
    if a == [] {
      assert a + b == b;
    } else {
      assert (a + b)[0] == a[0] && (a + b)[1..] == a[1..] + b;
      FoldJoin(t, Step(t, s, a[0]), a[1..], b);
    }
  }

  lemma ResolveLast(t: Tree, s: Place, a: seq<string>, last: string)
    requires Ok(t) && Inside(t, s)
    ensures Resolve(t, s, a + [last]) == Final(t, Fold(t, s, a), last)
  {
    assert (a + [last])[..|a|] == a;
  }

  lemma ResolveJoin(t: Tree, s: Place, a: seq<string>, b: seq<string>)
    requires Ok(t) && Inside(t, s) && b != []
    ensures Resolve(t, s, a + b) == Resolve(t, Fold(t, s, a), b)
  {
    var c, last := b[..|b| - 1], b[|b| - 1];
    assert b == c + [last];
    ResolveLast(t, s, a + c, last);
    ResolveLast(t, Fold(t, s, a), c, last);
    FoldJoin(t, s, a, c);
    assert a + (c + [last]) == (a + c) + [last];
  }

  lemma {:induction false} FoldKnown(t: Tree, s: Place, names: seq<string>)
    requires Ok(t) && Inside(t, s) && names != []
    ensures Fold(t, s, names).At? ==> Fold(t, s, names).known
    decreases |names|
  {
    if |names| > 1 { FoldKnown(t, Step(t, s, names[0]), names[1..]); }
  }

  /** An empty or "." component after another one changes nothing. */
  lemma DotAfter(t: Tree, s: Place, a: seq<string>, dot: string, b: seq<string>)
    requires Ok(t) && Inside(t, s) && a != [] && b != [] && (dot == "" || dot == ".")
    ensures Resolve(t, s, a + [dot] + b) == Resolve(t, s, a + b)
  {
    var p := Fold(t, s, a);
    FoldKnown(t, s, a);
    assert Fold(t, p, [dot]) == Step(t, p, dot) == p;
    FoldJoin(t, s, a, [dot]);
    ResolveJoin(t, s, a + [dot], b);
    ResolveJoin(t, s, a, b);
  }

  /** A walk whose result variable has been written never reads it uninitialised. */
  lemma {:induction false} KnownNeverWild(t: Tree, s: Place, names: seq<string>)
    requires Ok(t) && Inside(t, s) && s != WildRead && (s.At? ==> s.known)
    ensures Fold(t, s, names) != WildRead
    decreases |names|
  {
    if names != [] { KnownNeverWild(t, Step(t, s, names[0]), names[1..]); }
  }

  lemma ResolveFirst(t: Tree, s: Place, b: seq<string>)
    requires Ok(t) && Inside(t, s) && |b| > 1
    ensures Resolve(t, s, b) == Resolve(t, Step(t, s, b[0]), b[1..])
  {
    ResolveJoin(t, s, [b[0]], b[1..]);
    assert [b[0]] + b[1..] == b;
    assert Fold(t, s, [b[0]]) == Step(t, s, b[0]);
  }

  lemma FirstMissed(t: Tree, d: nat, b: seq<string>)
    requires Ok(t) && d < |t| && b != []
    ensures Resolve(t, WildRead, b) == Crash(WildRead) && Resolve(t, At(d, true), b) != Crash(WildRead)
  {
    FoldStuck(t, WildRead, b[..|b| - 1]);
    KnownNeverWild(t, At(d, true), b[..|b| - 1]);
  }

  /** In front of the first component it changes the result exactly when that component,
      not being the last, is missed by a root's callback: then the walk goes on in the root
      where it would have followed an uninitialised pointer. */
  lemma DotBefore(t: Tree, d: nat, dot: string, b: seq<string>)
    requires Ok(t) && d < |t| && b != [] && (dot == "" || dot == ".")
    ensures Resolve(t, At(d, false), [dot] + b) != Resolve(t, At(d, false), b) <==>
      |b| > 1 && Lookup(t, d, b[0]).Unwritten?
    ensures |b| > 1 && Lookup(t, d, b[0]).Unwritten? ==>
      && Resolve(t, At(d, false), b) == Crash(WildRead)
      && Resolve(t, At(d, false), [dot] + b) == Resolve(t, At(d, true), b[1..])
  {
    ResolveFirst(t, At(d, false), [dot] + b);
    assert ([dot] + b)[1..] == b;
    if |b| > 1 {
      ResolveFirst(t, At(d, false), b);
      ResolveFirst(t, At(d, true), b);
      FirstMissed(t, d, b[1..]);
    }
  }

  lemma {:induction false} FoldStuck(t: Tree, s: Place, names: seq<string>)
    requires Ok(t) && !s.At?
    ensures Fold(t, s, names) == s
    decreases |names|
  {
    if names != [] { FoldStuck(t, s, names[1..]); }
  }

  /** Resolution of a joined path is resolution of the joined components. */
  lemma RelativeJoin(t: Tree, root: nat, base: nat, p: string, q: string)
    requires Ok(t) && root < |t| && base < |t| && p != ""
    ensures Namei(t, root, base, p + "/" + q) == Resolve(t, Start(p, root, base), Split(Relative(p)) + Split(q))
  {
    var r := p + "/" + q;
    assert r[0] == p[0];
    assert Relative(r) == Relative(p) + "/" + q;
    SplitJoin(Relative(p), q, Relative(r));
  }

  lemma JoinThree(t: Tree, root: nat, base: nat, p: string, dot: string, q: string)
    requires Ok(t) && root < |t| && base < |t| && p != "" && (dot == "" || dot == ".")
    ensures Namei(t, root, base, p + "/" + (dot + "/" + q)) == Resolve(t, Start(p, root, base), Split(Relative(p)) + [dot] + Split(q))
  {
    RelativeJoin(t, root, base, p, dot + "/" + q);
    SplitJoin(dot, q, dot + "/" + q);
    assert Split(dot) == [dot];
    assert Split(Relative(p)) + ([dot] + Split(q)) == Split(Relative(p)) + [dot] + Split(q);
  }

  /** As strings: after a non-empty path, "//" and "/./" do what "/" does. */
  lemma ExtraSlashes(t: Tree, root: nat, base: nat, p: string, q: string, dot: string)
    requires Ok(t) && root < |t| && base < |t| && p != "" && (dot == "" || dot == ".")
    ensures Namei(t, root, base, p + "/" + (dot + "/" + q)) == Namei(t, root, base, p + "/" + q)
  {
    JoinThree(t, root, base, p, dot, q);
    RelativeJoin(t, root, base, p, q);
    DotAfter(t, Start(p, root, base), Split(Relative(p)), dot, Split(q));
  }

  // ----- Misses -----

  /** Resolution that reports every missing component: the intended meaning of a path. */
  function Intended(t: Tree, d: nat, names: seq<string>): (r: int)
    requires Ok(t) && d < |t|
    ensures NONE <= r < |t|
    decreases |names|
  {
    if names == [] then d
    else match Lookup(t, d, names[0])
      case Hit(e) => Intended(t, e, names[1..])
      case _ => NONE
  }

  lemma {:induction false} IntendedLast(t: Tree, d: nat, known: bool, a: seq<string>, last: string)
    requires Ok(t) && d < |t| && Intended(t, d, a + [last]) != NONE
    ensures Fold(t, At(d, known), a).At? && Lookup(t, Fold(t, At(d, known), a).dir, last) == Hit(Intended(t, d, a + [last]))
    decreases |a|
  {
    if a == [] {
      assert a + [last] == [last];
    } else {
      assert (a + [last])[0] == a[0] && (a + [last])[1..] == a[1..] + [last];
      IntendedLast(t, Lookup(t, d, a[0]).d, true, a[1..], last);
    }
  }

  /** A path all of whose components exist resolves as intended. */
  lemma ExistingPathsResolve(t: Tree, d: nat, known: bool, names: seq<string>)
    requires Ok(t) && d < |t| && names != [] && Intended(t, d, names) != NONE
    ensures Resolve(t, At(d, known), names) == Entry(Intended(t, d, names))
  {
    var a, last := names[..|names| - 1], names[|names| - 1];
    assert names == a + [last];
    IntendedLast(t, d, known, a, last);
  }

  /** A component that a root's callback misses, between others, is passed over: the path
      resolves as if it were not there. */
  lemma MissIsSkipped(t: Tree, s: Place, a: seq<string>, n: string, b: seq<string>)
    requires Ok(t) && Inside(t, s) && a != [] && b != []
    requires Fold(t, s, a).At? && Lookup(t, Fold(t, s, a).dir, n).Unwritten?
    ensures Resolve(t, s, a + [n] + b) == Resolve(t, s, a + b)
  {
    var p := Fold(t, s, a);
    FoldKnown(t, s, a);
    assert Fold(t, p, [n]) == Step(t, p, n) == p;
    FoldJoin(t, s, a, [n]);
    ResolveJoin(t, s, a + [n], b);
    ResolveJoin(t, s, a, b);
  }

  lemma MissingSplits()
    ensures Split("x") == ["x"] && Split("x/.") == ["x", "."] && Split("./x/.") == [".", "x", "."]
  {
    assert Split("x") == ["x"] && Split(".") == ["."];
    SplitJoin("x", ".", "x/.");
    SplitJoin(".", "x/.", "./x/.");
  }

  lemma MissingFolds(t: Tree)
    requires t == RootOnly() && Ok(t)
    ensures Resolve(t, At(0, false), ["x"]) == NullEntry && Resolve(t, At(0, false), ["x", "."]) == Crash(WildRead)
    ensures Resolve(t, At(0, false), [".", "x", "."]) == Entry(0)
  {
    assert Lookup(t, 0, "x").Unwritten?;
    assert [".", "x", "."] == ["."] + ["x", "."] && ["x", "."][1..] == ["."];
    DotBefore(t, 0, ".", ["x", "."]);
    ResolveLast(t, At(0, false), [], "x");
    ResolveLast(t, At(0, true), [], ".");
  }

  /** Where only a root exists the missing name x alone gives NULL, in front of a component it is
      read through an uninitialised pointer, and between two it is passed over. */
  lemma MissingNames(t: Tree)
    requires t == RootOnly()
    ensures Ok(t) && Namei(t, 0, 0, "x") == NullEntry
    ensures Namei(t, 0, 0, "x/.") == Crash(WildRead) && Namei(t, 0, 0, "./x/.") == Entry(0)
  {
    MountedRootOk();
    MissingSplits();
    MissingFolds(t);
  }

  // ----- What mkdir changes -----

  lemma {:induction false} FollowAfterMkdir(t: Tree, dir: nat, name: string, d: nat)
    requires Ok(t) && dir < |t| && Ok(AddChild(t, dir, name)) && d < |t|
    ensures Follow(AddChild(t, dir, name), d) == Follow(t, d)
    decreases |t| - d
  {
    assert MountOk(t, d);
    if t[d].mounted != NONE { FollowAfterMkdir(t, dir, name, t[d].mounted); }
  }

  lemma {:induction false} FindNameSame(t: Tree, u: Tree, l: seq<nat>, name: string)
    requires |t| <= |u|
    requires forall j :: 0 <= j < |l| ==> l[j] < |t| && u[l[j]].name == t[l[j]].name
    ensures FindName(u, l, name) == FindName(t, l, name)
  {
  }

  /** In the directory of a new entry its name finds it, whatever it shadows; every other
      lookup among the older entries is as before. */
  lemma LookupAfterMkdir(t: Tree, dir: nat, name: string, d: nat, n: string)
    requires Ok(t) && dir < |t| && Ok(AddChild(t, dir, name)) && d < |t|
    ensures Lookup(AddChild(t, dir, name), d, n) == if d == dir && n == name && !Special(n) then Hit(|t|) else Lookup(t, d, n)
  {
    var u := AddChild(t, dir, name);
    assert ChildrenOk(t, d);
    if !Special(n) {
      var l := t[d].children;
      FindNameSame(t, u, l, n);
      if d == dir {
        assert u[d].children == [|t|] + l;
        assert u[d].children[1..] == l;
        FindNameCons(u, |t|, l, n);
      }
      if FindName(t, l, n) < |l| { FollowAfterMkdir(t, dir, name, l[FindName(t, l, n)]); }
    }
  }

  lemma FindNameCons(t: Tree, c: nat, l: seq<nat>, name: string)
    requires c < |t| && forall j :: 0 <= j < |l| ==> l[j] < |t|
    ensures FindName(t, [c] + l, name) == if t[c].name == name then 0 else 1 + FindName(t, l, name)
  {
    assert ([c] + l)[1..] == l;
  }

  /** Inside the new entry only "", "." and ".." lead anywhere. */
  lemma LookupInNew(t: Tree, dir: nat, name: string, n: string)
    requires Ok(t) && dir < |t| && Ok(AddChild(t, dir, name))
    ensures Lookup(AddChild(t, dir, name), |t|, n) ==
      if n == "" || n == "." then Hit(|t|) else if n == ".." then Hit(dir) else NullCall
  {
  }

  /** A step in the old tree with an extra entry, numbered |t|, of this name in dir. */
  function StepWith(t: Tree, dir: nat, name: string, s: Place, n: string): (r: Place)
    requires Ok(t) && dir < |t| && (s.At? ==> s.dir <= |t|)
    ensures r.At? ==> r.dir <= |t|
  {
    if s.At? && s.dir == |t| then
      if n == "" || n == "." then At(|t|, true) else if n == ".." then At(dir, true) else NullRead
    else if s.At? && s.dir == dir && n == name && !Special(n) then At(|t|, true)
    else Step(t, s, n)
  }

  function FoldWith(t: Tree, dir: nat, name: string, s: Place, names: seq<string>): (r: Place)
    requires Ok(t) && dir < |t| && (s.At? ==> s.dir <= |t|)
    ensures r.At? ==> r.dir <= |t|
    decreases |names|
  {
    if names == [] then s else FoldWith(t, dir, name, StepWith(t, dir, name, s, names[0]), names[1..])
  }

  lemma {:induction false} FoldAfterMkdir(t: Tree, dir: nat, name: string, s: Place, names: seq<string>)
    requires Ok(t) && dir < |t| && Ok(AddChild(t, dir, name)) && (s.At? ==> s.dir <= |t|)
    ensures Fold(AddChild(t, dir, name), s, names) == FoldWith(t, dir, name, s, names)
    decreases |names|
  {
    if names != [] {
      if s.At? && s.dir == |t| { LookupInNew(t, dir, name, names[0]); }
      if s.At? && s.dir < |t| { LookupAfterMkdir(t, dir, name, s.dir, names[0]); }
      FoldAfterMkdir(t, dir, name, StepWith(t, dir, name, s, names[0]), names[1..]);
    }
  }

  /** Whether the walk looks this name up in dir. */
  predicate Passes(t: Tree, dir: nat, name: string, s: Place, names: seq<string>)
    requires Ok(t) && Inside(t, s)
    decreases |names|
  {
    names != [] && ((s.At? && s.dir == dir && names[0] == name) || Passes(t, dir, name, Step(t, s, names[0]), names[1..]))
  }

  lemma {:induction false} FoldWithAside(t: Tree, dir: nat, name: string, s: Place, names: seq<string>)
    requires Ok(t) && dir < |t| && Inside(t, s) && !Passes(t, dir, name, s, names)
    ensures FoldWith(t, dir, name, s, names) == Fold(t, s, names)
    decreases |names|
  {
    if names != [] { FoldWithAside(t, dir, name, Step(t, s, names[0]), names[1..]); }
  }

  /** A path resolves to an entry just made exactly when the walk to its last component,
      taken in the old tree with the extra entry, still arrives in its directory. */
  lemma MkdirResolves(t: Tree, dir: nat, names: seq<string>, s: Place)
    requires Ok(t) && dir < |t| && Inside(t, s) && names != [] && !Special(names[|names| - 1])
    ensures
      var init, name := names[..|names| - 1], names[|names| - 1];
      var u := AddChild(t, dir, name);
      && Ok(u)
      && (Resolve(u, s, names) == Entry(|t|) <==>
          FoldWith(t, dir, name, s, init).At? && FoldWith(t, dir, name, s, init).dir == dir)
      && (!Passes(t, dir, name, s, init) && Fold(t, s, init).At? && Fold(t, s, init).dir == dir ==>
          Resolve(u, s, names) == Entry(|t|))
  {
    var init, name := names[..|names| - 1], names[|names| - 1];
    AddChildOk(t, dir, name);
    FoldAfterMkdir(t, dir, name, s, init);
    var p := FoldWith(t, dir, name, s, init);
    if p.At? && p.dir == |t| { LookupInNew(t, dir, name, name); }
    if p.At? && p.dir < |t| { LookupAfterMkdir(t, dir, name, p.dir, name); }
    if !Passes(t, dir, name, s, init) { FoldWithAside(t, dir, name, s, init); }
  }

  /** After a successful sys_mkdir, for every path and every thread, the path resolves to the
      new entry exactly when the walk of namei, taken in the old tree with the extra entry,
      arrives in the directory that mkdir walked to. An absolute path, or a thread whose working
      directory is its root, gives it unless the way goes through the new name in that
      directory. */
  lemma MkdirThenNamei(t: Tree, root: nat, pwd: nat, path: string, init: seq<string>, name: string, s: Place, dir: nat)
    requires Ok(t) && root < |t| && pwd < |t| && Mkdir(t, root, path).1.Done?
    requires Split(Relative(path)) == init + [name] && !Special(name) && s == Start(path, root, pwd)
    requires dir == Fold(t, Start(path, root, root), init).dir
    ensures Ok(Mkdir(t, root, path).0) && dir < |t|
    ensures Namei(Mkdir(t, root, path).0, root, pwd, path) == Entry(|t|) <==>
      FoldWith(t, dir, name, s, init).At? && FoldWith(t, dir, name, s, init).dir == dir
    ensures ((path != "" && path[0] == '/') || pwd == root) && !Passes(t, dir, name, s, init) ==>
      Namei(Mkdir(t, root, path).0, root, pwd, path) == Entry(|t|)
  {
    var names := init + [name];
    assert names[..|names| - 1] == init;
    MkdirResolves(t, dir, names, s);
  }

  /** sys_mkdir succeeds exactly if its walk arrives in a directory and the name has at most 255
      characters; then there is one directory more, the youngest child there, and nothing else
      changed, and otherwise nothing changed at all. */
  lemma MkdirDone(t: Tree, root: nat, path: string, init: seq<string>, name: string)
    requires Ok(t) && root < |t| && Split(Relative(path)) == init + [name]
    ensures
      var (u, out), s := Mkdir(t, root, path), Fold(t, Start(path, root, root), init);
      && (out.Done? <==> s.At? && t[s.dir].mode == Directory && |name| <= NAME_MAX)
      && if out.Done? then
           && |u| == |t| + 1 && u[|t|] == Dentry(name, s.dir, [], NONE, Directory, false)
           && u[s.dir] == t[s.dir].(children := [|t|] + t[s.dir].children)
           && forall k :: 0 <= k < |t| && k != s.dir ==> u[k] == t[k]
         else u == t
  {
    var names := init + [name];
    assert names[..|names| - 1] == init;
  }

  /** A name alone, made by a thread whose working directory is not its root, never resolves to
      the entry just made: mkdir starts in the root and namei in the working directory. */
  lemma RelativeMkdirElsewhere(t: Tree, root: nat, pwd: nat, name: string)
    requires Ok(t) && root < |t| && pwd < |t| && pwd != root && t[root].mode == Directory
    requires SlashAt(name) == |name| && !Special(name) && |name| <= NAME_MAX
    ensures Mkdir(t, root, name).1 == Done && Ok(Mkdir(t, root, name).0)
    ensures Namei(Mkdir(t, root, name).0, root, pwd, name) != Entry(|t|)
  {
    assert Split(Relative(name)) == [] + [name];
    MkdirThenNamei(t, root, pwd, name, [], name, Start(name, root, pwd), root);
  }

  lemma FoldFour(t: Tree, s: Place, a: string, b: string, c: string, d: string)
    requires Ok(t) && Inside(t, s)
    ensures Fold(t, s, [a, b, c, d]) == Step(t, Step(t, Step(t, Step(t, s, a), b), c), d)
  {
    var p, q := Step(t, s, a), Step(t, Step(t, s, a), b);
    assert [a, b, c, d][1..] == [b, c, d] && [b, c, d][1..] == [c, d] && [c, d][1..] == [d] && [d][1..] == [];
    assert Fold(t, s, [a, b, c, d]) == Fold(t, p, [b, c, d]) == Fold(t, q, [c, d]);
    assert Fold(t, q, [c, d]) == Fold(t, Step(t, q, c), [d]) == Fold(t, Step(t, Step(t, q, c), d), []);
  }

  lemma FoldWithFour(t: Tree, dir: nat, name: string, s: Place, a: string, b: string, c: string, d: string)
    requires Ok(t) && dir < |t| && Inside(t, s)
    ensures FoldWith(t, dir, name, s, [a, b, c, d]) ==
      StepWith(t, dir, name, StepWith(t, dir, name, StepWith(t, dir, name, StepWith(t, dir, name, s, a), b), c), d)
  {
    var p, q := StepWith(t, dir, name, s, a), StepWith(t, dir, name, StepWith(t, dir, name, s, a), b);
    assert [a, b, c, d][1..] == [b, c, d] && [b, c, d][1..] == [c, d] && [c, d][1..] == [d] && [d][1..] == [];
    assert FoldWith(t, dir, name, s, [a, b, c, d]) == FoldWith(t, dir, name, p, [b, c, d]) == FoldWith(t, dir, name, q, [c, d]);
    var r := StepWith(t, dir, name, q, c);
    assert FoldWith(t, dir, name, q, [c, d]) == FoldWith(t, dir, name, r, [d]);
    assert FoldWith(t, dir, name, r, [d]) == FoldWith(t, dir, name, StepWith(t, dir, name, r, d), []);
  }

  /** Why the way must not use the name: where name/n exists, mkdir of name/n/../../name
      succeeds, and the path then no longer resolves at all. */
  lemma OwnNameOnTheWay(t: Tree, dir: nat, a: nat, b: nat, name: string, n: string)
    requires Ok(t) && dir < |t| && a < |t| && b < |t| && !Special(name) && !Special(n)
    requires Lookup(t, dir, name) == Hit(a) && t[a].parent == dir
    requires Lookup(t, a, n) == Hit(b) && t[b].parent == a
    ensures
      var names := [name, n, "..", "..", name];
      && Fold(t, At(dir, false), names[..4]) == At(dir, true)
      && Ok(AddChild(t, dir, name))
      && Resolve(AddChild(t, dir, name), At(dir, false), names) == Crash(NullRead)
  {
    var names := [name, n, "..", "..", name];
    AddChildOk(t, dir, name);
    assert names[..4] == [name, n, "..", ".."];
    FoldFour(t, At(dir, false), name, n, "..", "..");
    FoldWithFour(t, dir, name, At(dir, false), name, n, "..", "..");
    FoldAfterMkdir(t, dir, name, At(dir, false), names[..4]);
  }

  /** Paths that do not go through the new name in its directory resolve as before. */
  lemma OtherPathsKept(t: Tree, dir: nat, name: string, s: Place, names: seq<string>)
    requires Ok(t) && dir < |t| && Inside(t, s) && names != [] && !Passes(t, dir, name, s, names)
    ensures Ok(AddChild(t, dir, name)) && Resolve(AddChild(t, dir, name), s, names) == Resolve(t, s, names)
  {
    var init, last := names[..|names| - 1], names[|names| - 1];
    AddChildOk(t, dir, name);
    assert names == init + [last];
    PassesJoin(t, dir, name, s, init, [last]);
    FoldAfterMkdir(t, dir, name, s, init);
    FoldWithAside(t, dir, name, s, init);
    var p := Fold(t, s, init);
    if p.At? { LookupAfterMkdir(t, dir, name, p.dir, last); }
  }

  lemma {:induction false} PassesJoin(t: Tree, dir: nat, name: string, s: Place, a: seq<string>, b: seq<string>)
    requires Ok(t) && Inside(t, s)
    ensures Passes(t, dir, name, s, a + b) <==> Passes(t, dir, name, s, a) || Passes(t, dir, name, Fold(t, s, a), b)
    decreases |a|
  {
    if a == [] {
      assert a + b == b;
    } else {
      assert (a + b)[0] == a[0] && (a + b)[1..] == a[1..] + b;
      PassesJoin(t, dir, name, Step(t, s, a[0]), a[1..], b);
    }
  }

  // ----- What mount changes -----

  lemma {:induction false} FollowAfterMount(t: Tree, dir: nat, d: nat)
    requires Ok(t) && dir < |t| && d < |t| && t[dir].mounted == NONE && Ok(AddMount(t, dir))
    ensures Follow(AddMount(t, dir), d) == if Follow(t, d) == dir then |t| else Follow(t, d)
    decreases |t| - d
  {
    assert MountOk(t, d);
    if t[d].mounted != NONE {
      FollowAfterMount(t, dir, t[d].mounted);
    } else if d == dir {
      assert Follow(AddMount(t, dir), |t|) == |t|;
    }
  }

  /** A mount diverts exactly the name lookups that led to the directory it covers; "", "."
      and ".." still see what is below. */
  lemma MountDiverts(t: Tree, dir: nat, d: nat, n: string)
    requires Ok(t) && dir < |t| && d < |t| && t[dir].mounted == NONE
    ensures Ok(AddMount(t, dir))
    ensures Lookup(AddMount(t, dir), d, n) ==
      if !Special(n) && Lookup(t, d, n) == Hit(dir) then Hit(|t|) else Lookup(t, d, n)
  {
    AddMountOk(t, dir);
    var u := AddMount(t, dir);
    assert ChildrenOk(t, d);
    if !Special(n) {
      var l := t[d].children;
      FindNameSame(t, u, l, n);
      if FindName(t, l, n) < |l| { FollowAfterMount(t, dir, l[FindName(t, l, n)]); }
    }
  }
}
