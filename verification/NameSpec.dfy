/** What creating and unlinking a name does to the meaning of every path. */
module NameSpec {
  import opened Basics
  import opened RamfsSpec
  import opened PathSpec
  import opened TreeSpec

  /** The directory and the name that vfs_lookup_parent extracts from a path. */
  ghost function ParentOf(d: Disk, path: string): Option<(nat, string)>
    requires Shape(d)
  {
    match Normalize(path, Some("/"), VFS_MAX_PATH)
    case None => None
    case Some(p) =>
      if Dirname(p, VFS_MAX_PATH).None? || |Basename(p)| >= MAX_FILENAME then None
      else
        match Resolve(d, Dirname(p, VFS_MAX_PATH).value)
        case None => None
        case Some(i) => Some((i, Basename(p)))
  }

  /**
   * Paths with the normal form of `path` now lead to `target`; all others, and those of the root, lead where they did.
   */
  ghost predicate NamesAfter(d: Disk, d': Disk, path: string, target: Option<nat>)
    requires Shape(d) && Shape(d')
  {
    forall q {:trigger Resolve(d', q)} :: Resolve(d', q) == if SamePath(q, path) then target else Resolve(d, q)
  }

  /** Both paths normalise to the same path below the root. */
  predicate SamePath(q: string, path: string) {
    var n := Normalize(q, Some("/"), VFS_MAX_PATH);
    n == Normalize(path, Some("/"), VFS_MAX_PATH) && n.Some? && n.value != "/"
  }

  // ---------------------------------------------------------------- one path per inode

  /** The last component names an entry of the directory the others lead to. */
  lemma LastStep(d: Disk, a: seq<string>)
    requires Tree(d) && AllRegular(a) && a != [] && Walk(d, ROOT, a).Some?
    ensures var u, c := Walk(d, ROOT, a[..|a| - 1]), Walk(d, ROOT, a).value;
            && u.Some? && u.value < MAX_FILES && d.inodes[u.value].kind.Dir?
                && Lookup(d, u.value, a[|a| - 1]) == Some(c)
            && 0 < c < MAX_FILES && d.inodes[c].parent == u.value
  {
    var last := a[|a| - 1];
    WalkInit(d, a);
    var u := Walk(d, ROOT, a[..|a| - 1]).value;
    var es := Entries(d, d.inodes[u]);
    assert ChildOk(d.inodes, u, es[FindName(es, last, 0)]);
  }

  /** Two names of one directory lead to different inodes. */
  lemma OneName(d: Disk, i: nat, x: string, y: string)
    requires Tree(d) && i < MAX_FILES && Regular(x) && Regular(y)
    requires Lookup(d, i, x).Some? && Lookup(d, i, x) == Lookup(d, i, y)
    ensures x == y
  {
    var es := Entries(d, d.inodes[i]);
    assert DirOk(d.inodes, i, es);
    var p, q := FindName(es, x, 0), FindName(es, y, 0);
    assert InUse(es[p]) && InUse(es[q]) && es[p].inode == es[q].inode;
  }

  lemma SameEnd(d: Disk, a: seq<string>, b: seq<string>)
    requires Tree(d) && AllRegular(a) && AllRegular(b) && a != [] && b != []
    requires Walk(d, ROOT, a).Some? && Walk(d, ROOT, a) == Walk(d, ROOT, b)
    ensures Walk(d, ROOT, a[..|a| - 1]).Some? && Walk(d, ROOT, a[..|a| - 1]) == Walk(d, ROOT, b[..|b| - 1])
    ensures a[|a| - 1] == b[|b| - 1]
  {
    LastStep(d, a);
    LastStep(d, b);
    OneName(d, Walk(d, ROOT, a[..|a| - 1]).value, a[|a| - 1], b[|b| - 1]);
  }

  lemma SplitLast(a: seq<string>)
    requires a != []
    ensures a == a[..|a| - 1] + [a[|a| - 1]]
  {
  }

  /** At most one canonical path leads to an inode. */
  lemma {:induction false} OnePath(d: Disk, a: seq<string>, b: seq<string>)
    requires Tree(d) && AllRegular(a) && AllRegular(b)
    requires Walk(d, ROOT, a).Some? && Walk(d, ROOT, a) == Walk(d, ROOT, b)
    ensures a == b
    decreases |a|
  {
    if a == [] {
      if b != [] { LastStep(d, b); }
    } else if b == [] {
      LastStep(d, a);
    } else {
      SameEnd(d, a, b);
      OnePath(d, a[..|a| - 1], b[..|b| - 1]);
      SplitLast(a);
      SplitLast(b);
    }
  }

  // ---------------------------------------------------------------- one entry more

  /** What a name leads to among directory entries. */
  function Named(es: seq<Dirent>, x: string): Option<nat> {
    var p := FindName(es, x, 0);
    if p < |es| then Some(es[p].inode) else None
  }

  lemma NamedAfterAdd(es: seq<Dirent>, p: nat, e: Dirent, x: string)
    requires UniqueNames(es) && p < |es| && !InUse(es[p]) && InUse(e) && e.name !in DirMap(es)
    requires forall q :: 0 <= q < |es| && InUse(es[q]) ==> es[q].inode != e.inode
    ensures Named(es[p := e], x) == if x == e.name then Some(e.inode) else Named(es, x)
  {
    AddToMap(es, p, e);
    FindNameIsLookup(es, x);
    FindNameIsLookup(es[p := e], x);
  }

  lemma NamedAfterRemove(es: seq<Dirent>, p: nat, x: string)
    requires UniqueNames(es) && p < |es| && InUse(es[p])
    ensures Named(es[p := EMPTY], x) == if x == es[p].name then None else Named(es, x)
  {
    RemoveFromMap(es, p);
    FindNameIsLookup(es, x);
    FindNameIsLookup(es[p := EMPTY], x);
  }

  lemma ChildIsLive(d: Disk, i: nat, x: string)
    requires Tree(d) && i < MAX_FILES && Regular(x) && Lookup(d, i, x).Some?
    ensures var c := Lookup(d, i, x).value; 0 < c < MAX_FILES && !d.inodes[c].kind.Unused?
  {
    var es := Entries(d, d.inodes[i]);
    assert ChildOk(d.inodes, i, es[FindName(es, x, 0)]);
  }

  /** `d'` has one name more than `d`: in `dir`, for an inode `c` that nothing else leads to or is found in. */
  ghost predicate Gains(d: Disk, d': Disk, dir: nat, name: string, c: nat) {
    && Shape(d) && Shape(d') && dir < MAX_FILES && c < MAX_FILES && c != dir
    && (forall i: nat, x: string {:trigger Lookup(d', i, x)} :: i < MAX_FILES && i != c && Regular(x) ==>
          Lookup(d', i, x) == if i == dir && x == name then Some(c) else Lookup(d, i, x))
    && (forall x: string :: Regular(x) ==> Lookup(d', c, x) == None)
    && (Regular(name) ==> Lookup(d, dir, name) == None)
    && (forall i: nat, x: string {:trigger Lookup(d, i, x)} ::
        i < MAX_FILES && i != c && Regular(x) && Lookup(d, i, x).Some? ==>
          Lookup(d, i, x).value < MAX_FILES && Lookup(d, i, x).value != c)
  }

  lemma LookupAfterCreate(d: Disk, d': Disk, dir: nat, p: nat, name: string, c: nat, kind: Kind, i: nat, x: string)
    requires Tree(d) && CreatedAt(d, d', dir, p, name, c, kind) && i < MAX_FILES && i != c && Regular(x)
    ensures Lookup(d', i, x) == if i == dir && x == name then Some(c) else Lookup(d, i, x)
  {
    if i == dir {
      var es := Entries(d, d.inodes[dir]);
      assert DirOk(d.inodes, dir, es);
      forall q | 0 <= q < |es| && InUse(es[q]) ensures es[q].inode != c { assert ChildOk(d.inodes, dir, es[q]); }
      NamedAfterAdd(es, p, Dirent(c, name, kind), x);
    }
  }

  lemma CreateGains(d: Disk, d': Disk, dir: nat, p: nat, name: string, c: nat, kind: Kind)
    requires Tree(d) && CreatedAt(d, d', dir, p, name, c, kind)
    ensures Gains(d, d', dir, name, c)
  {
    forall i: nat, x: string | i < MAX_FILES && i != c && Regular(x)
      ensures Lookup(d', i, x) == if i == dir && x == name then Some(c) else Lookup(d, i, x)
    {
      LookupAfterCreate(d, d', dir, p, name, c, kind, i, x);
    }
    EmptyInodeHasNoEntries(d', d'.inodes[c]);
    FindNameIsLookup(Entries(d, d.inodes[dir]), name);
    forall i: nat, x: string | i < MAX_FILES && i != c && Regular(x) && Lookup(d, i, x).Some?
      ensures Lookup(d, i, x).value < MAX_FILES && Lookup(d, i, x).value != c
    {
      ChildIsLive(d, i, x);
    }
  }

  lemma LookupAfterUnlink(d: Disk, d': Disk, dir: nat, p: nat, c: nat, i: nat, x: string)
    requires Tree(d) && UnlinkedAt(d, d', dir, p, c) && i < MAX_FILES && i != c && Regular(x)
    ensures Lookup(d', i, x) == if i == dir && x == Entries(d, d.inodes[dir])[p].name then None else Lookup(d, i, x)
  {
    if i == dir {
      assert DirOk(d.inodes, dir, Entries(d, d.inodes[dir]));
      NamedAfterRemove(Entries(d, d.inodes[dir]), p, x);
    }
  }

  /** What is unlinked has no entries. */
  lemma UnlinkedIsEmpty(d: Disk, d': Disk, dir: nat, p: nat, c: nat, x: string)
    requires Tree(d) && UnlinkedAt(d, d', dir, p, c) && Regular(x)
    ensures Lookup(d, c, x) == None
  {
    var es := Entries(d, d.inodes[c]);
    assert ChildOk(d.inodes, dir, Entries(d, d.inodes[dir])[p]);
    var q := FindName(es, x, 0);
    if d.inodes[c].kind.Dir? && q < |es| { TallyPositive(es, q, false); }
  }

  /** Only its own entry leads to the unlinked inode. */
  lemma OnlyWayTo(d: Disk, d': Disk, dir: nat, p: nat, c: nat, i: nat, x: string)
    requires Tree(d) && UnlinkedAt(d, d', dir, p, c) && i < MAX_FILES && Regular(x) && Lookup(d, i, x) == Some(c)
    ensures i == dir && x == Entries(d, d.inodes[dir])[p].name
  {
    OnlyParentNames(d, dir, p, i, FindName(Entries(d, d.inodes[i]), x, 0));
  }

  /** Seen backwards, unlinking adds a name. */
  lemma UnlinkGains(d: Disk, d': Disk, dir: nat, p: nat, c: nat)
    requires Tree(d) && UnlinkedAt(d, d', dir, p, c)
    ensures Gains(d', d, dir, Entries(d, d.inodes[dir])[p].name, c)
  {
    var name := Entries(d, d.inodes[dir])[p].name;
    forall i: nat, x: string | i < MAX_FILES && i != c && Regular(x)
      ensures Lookup(d, i, x) == if i == dir && x == name then Some(c) else Lookup(d', i, x)
      ensures i == dir && x == name ==> Lookup(d', i, x) == None
      ensures Lookup(d', i, x).Some? ==> Lookup(d', i, x).value < MAX_FILES && Lookup(d', i, x).value != c
    {
      UnlinkStep(d, d', dir, p, c, i, x);
    }
    forall x: string | Regular(x) ensures Lookup(d, c, x) == None { UnlinkedIsEmpty(d, d', dir, p, c, x); }
  }

  lemma UnlinkStep(d: Disk, d': Disk, dir: nat, p: nat, c: nat, i: nat, x: string)
    requires Tree(d) && UnlinkedAt(d, d', dir, p, c) && i < MAX_FILES && i != c && Regular(x)
    ensures var name := Entries(d, d.inodes[dir])[p].name;
            && Lookup(d, i, x) == (if i == dir && x == name then Some(c) else Lookup(d', i, x))
            && (i == dir && x == name ==> Lookup(d', i, x) == None)
            && (Lookup(d', i, x).Some? ==> Lookup(d', i, x).value < MAX_FILES && Lookup(d', i, x).value != c)
  {
    var es := Entries(d, d.inodes[dir]);
    LookupAfterUnlink(d, d', dir, p, c, i, x);
    if i == dir && x == es[p].name {
      assert DirOk(d.inodes, dir, es);
      DirMapAt(es, p);
      FindNameIsLookup(es, x);
    }
    if Lookup(d, i, x).Some? {
      ChildIsLive(d, i, x);
      if Lookup(d, i, x) == Some(c) { OnlyWayTo(d, d', dir, p, c, i, x); }
    }
  }

  // ---------------------------------------------------------------- walks

  /** The components lead to `dir` and then take `name`. */
  ghost predicate Takes(d: Disk, i: nat, cs: seq<string>, dir: nat, name: string)
    requires Shape(d)
  {
    cs != [] && cs[|cs| - 1] == name && |name| < MAX_FILENAME && Walk(d, i, cs[..|cs| - 1]) == Some(dir)
  }

  lemma TakesStep(d: Disk, i: nat, cs: seq<string>, dir: nat, name: string)
    requires Shape(d) && |cs| > 1 && i < MAX_FILES && |cs[0]| < MAX_FILENAME
    ensures Takes(d, i, cs, dir, name) <==>
            Lookup(d, i, cs[0]).Some? && Takes(d, Lookup(d, i, cs[0]).value, cs[1..], dir, name)
  {
    assert cs[..|cs| - 1][1..] == cs[1..][..|cs| - 2];
  }

  lemma {:induction false} WalkGains(d: Disk, d': Disk, dir: nat, name: string, c: nat, i: nat, cs: seq<string>)
    requires Gains(d, d', dir, name, c) && AllRegular(cs) && i < MAX_FILES && i != c
    ensures Walk(d', i, cs) == if Takes(d, i, cs, dir, name) then Some(c) else Walk(d, i, cs)
    ensures Takes(d, i, cs, dir, name) ==> Walk(d, i, cs) == None
    decreases |cs|
  {
    if cs != [] && |cs[0]| < MAX_FILENAME {
      var x := cs[0];
      if |cs| > 1 { TakesStep(d, i, cs, dir, name); }
      if !(i == dir && x == name) && Lookup(d, i, x).Some? {
        WalkGains(d, d', dir, name, c, Lookup(d, i, x).value, cs[1..]);
      }
    }
  }

  /** It does not matter on which of the two disks the directory is reached. */
  lemma TakesSame(d: Disk, d': Disk, dir: nat, name: string, c: nat, cs: seq<string>)
    requires Gains(d, d', dir, name, c) && AllRegular(cs) && c != ROOT
    ensures Takes(d, ROOT, cs, dir, name) <==> Takes(d', ROOT, cs, dir, name)
  {
    if cs != [] { WalkGains(d, d', dir, name, c, ROOT, cs[..|cs| - 1]); }
  }

  // ---------------------------------------------------------------- paths after a change

  /** A path takes the parent's directory and name exactly when it normalises to the same path, below the root. */
  lemma TakesIsSamePath(d: Disk, path: string, q: string)
    requires Tree(d) && ParentOf(d, path).Some? && Normalize(q, Some("/"), VFS_MAX_PATH).Some?
    ensures var (dir, name) := ParentOf(d, path).value;
            Takes(d, ROOT, Comps(Normalize(q, Some("/"), VFS_MAX_PATH).value, 0), dir, name) <==> SamePath(q, path)
  {
    var p, n := Normalize(path, Some("/"), VFS_MAX_PATH).value, Normalize(q, Some("/"), VFS_MAX_PATH).value;
    RootIsCanonical();
    NormalizeIsCanonical(path, Some("/"), VFS_MAX_PATH);
    NormalizeIsCanonical(q, Some("/"), VFS_MAX_PATH);
    if p == "/" {
      var b := Comps(n, 0);
      assert Basename("/") == "/";
      assert b != [] ==> NoSlash(b[|b| - 1]) && b[|b| - 1] != "/";
    } else {
      ParentWalk(d, path);
      TakesOnePath(d, Comps(p, 0), Comps(n, 0), ParentOf(d, path).value.0);
      assert p == Render(Comps(p, 0)) && n == Render(Comps(n, 0));
    }
  }

  lemma TakesOnePath(d: Disk, a: seq<string>, b: seq<string>, dir: nat)
    requires Tree(d) && AllRegular(a) && AllRegular(b) && a != [] && Walk(d, ROOT, a[..|a| - 1]) == Some(dir)
    requires |a[|a| - 1]| < MAX_FILENAME
    ensures Takes(d, ROOT, b, dir, a[|a| - 1]) <==> a == b
  {
    if Takes(d, ROOT, b, dir, a[|a| - 1]) {
      OnePath(d, a[..|a| - 1], b[..|b| - 1]);
      SplitLast(a);
      SplitLast(b);
    }
  }

  /** The parent directory is where all components but the last lead, and the name is the last. */
  lemma ParentWalk(d: Disk, path: string)
    requires Shape(d) && ParentOf(d, path).Some?
    requires var p := Normalize(path, Some("/"), VFS_MAX_PATH).value; Canonical(p) && |p| < VFS_MAX_PATH && p != "/"
    ensures var a := Comps(Normalize(path, Some("/"), VFS_MAX_PATH).value, 0);
            && AllRegular(a) && a != [] && ParentOf(d, path).value.1 == a[|a| - 1]
            && Walk(d, ROOT, a[..|a| - 1]) == Some(ParentOf(d, path).value.0)
  {
    var p := Normalize(path, Some("/"), VFS_MAX_PATH).value;
    var a := Comps(p, 0);
    var init, last := a[..|a| - 1], a[|a| - 1];
    assert a == init + [last];
    SplitOfJoin(init, last, VFS_MAX_PATH);
    RenderIsCanonical(init);
    CompsOfRender(init);
    ChainGrows(init, [last]);
    NormalizeKeepsCanonical(Render(init), Some("/"), VFS_MAX_PATH);
  }

  /** After a successful create exactly the paths with the same normal form lead to the new inode. */
  lemma CreateNames(d: Disk, d': Disk, path: string, p: nat, c: nat, kind: Kind)
    requires Tree(d) && ParentOf(d, path).Some?
    requires CreatedAt(d, d', ParentOf(d, path).value.0, p, ParentOf(d, path).value.1, c, kind)
    ensures NamesAfter(d, d', path, Some(c))
  {
    var (dir, name) := ParentOf(d, path).value;
    RootIsCanonical();
    CreateGains(d, d', dir, p, name, c, kind);
    forall q
      ensures Resolve(d', q) == if SamePath(q, path) then Some(c) else Resolve(d, q)
    {
      if Normalize(q, Some("/"), VFS_MAX_PATH).Some? {
        NormalizeIsCanonical(q, Some("/"), VFS_MAX_PATH);
        TakesIsSamePath(d, path, q);
        WalkGains(d, d', dir, name, c, ROOT, Comps(Normalize(q, Some("/"), VFS_MAX_PATH).value, 0));
      }
    }
  }

  /** After a successful unlink exactly the paths with the same normal form lead nowhere any more. */
  lemma UnlinkNames(d: Disk, d': Disk, path: string, p: nat, c: nat)
    requires Tree(d) && ParentOf(d, path).Some?
    requires UnlinkedAt(d, d', ParentOf(d, path).value.0, p, c)
    requires Entries(d, d.inodes[ParentOf(d, path).value.0])[p].name == ParentOf(d, path).value.1
    ensures NamesAfter(d, d', path, None)
  {
    var (dir, name) := ParentOf(d, path).value;
    RootIsCanonical();
    UnlinkGains(d, d', dir, p, c);
    forall q
      ensures Resolve(d', q) == if SamePath(q, path) then None else Resolve(d, q)
    {
      if Normalize(q, Some("/"), VFS_MAX_PATH).Some? {
        NormalizeIsCanonical(q, Some("/"), VFS_MAX_PATH);
        TakesIsSamePath(d, path, q);
        var cs := Comps(Normalize(q, Some("/"), VFS_MAX_PATH).value, 0);
        TakesSame(d', d, dir, name, c, cs);
        WalkGains(d', d, dir, name, c, ROOT, cs);
      }
    }
  }

  // ---------------------------------------------------------------- relative paths

  /**
   * A relative path, made absolute with the working directory, names what walking from there finds, "." staying
   * where it is.
   */
  lemma RelativeKeepsMeaning(d: Disk, path: string, cwd: string, i: nat)
    requires Tree(d) && Canonical(cwd) && Walk(d, ROOT, Comps(cwd, 0)) == Some(i)
    requires (path == "" || path[0] != '/') && WalkWithDots(d, i, Comps(path, 0)).Some?
    requires Normalize(path, Some(cwd), VFS_MAX_PATH).Some?
    ensures Resolve(d, Normalize(path, Some(cwd), VFS_MAX_PATH).value) == WalkWithDots(d, i, Comps(path, 0))
    ensures Walk(d, i, Comps(path, 0)).Some? ==>
            Resolve(d, Normalize(path, Some(cwd), VFS_MAX_PATH).value) == Walk(d, i, Comps(path, 0))
  {
    var stack, cs := Comps(cwd, 0), Comps(path, 0);
    if Walk(d, i, cs).Some? { RawWalkHasNoDots(d, i, cs); }
    assert Reached(d, ROOT);
    WalkReaches(d, ROOT, stack);
    CompsAreComponents(path, 0);
    NormalizeRefinesStack(path, Some(cwd), VFS_MAX_PATH);
    if stack != [] { ChainShape(stack); }
    assert UsesCwd(path, Some(cwd));
    WalkAgrees(d, stack, i, cs);
    StackFoldRegular(stack, cs);
    CompsOfRender(StackFold(stack, cs).value);
    NormalizeIsCanonical(path, Some(cwd), VFS_MAX_PATH);
    NormalizeKeepsCanonical(Normalize(path, Some(cwd), VFS_MAX_PATH).value, Some("/"), VFS_MAX_PATH);
  }
}
