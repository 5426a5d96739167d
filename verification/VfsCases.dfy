/** A run in which a directory ends up open for writing: its inode number had been that of an open, unlinked file. */
module VfsCases {
  import opened Basics
  import opened Counting
  import opened RamfsSpec
  import opened TreeSpec
  import opened PathSpec
  import opened NameSpec
  import opened HandleSpec
  import opened Ramfs
  import opened Vfs

  const READ_WRITE := Flags(ReadWrite, true, false, false)

  /** A path of one short component, as text. */
  lemma TopText(n: string)
    requires Regular(n) && |n| == 1
    ensures var p := "/" + n;
            && Canonical(p) && Comps(p, 0) == [n] && Dirname(p, VFS_MAX_PATH) == Some("/") && Basename(p) == n
            && Normalize(p, Some("/"), VFS_MAX_PATH) == Some(p) && Normalize("/", Some("/"), VFS_MAX_PATH) == Some("/")
  {
    var p := "/" + n;
    RenderPush([], n);
    assert Chain([]) + "/" + n == p && [] + [n] == [n];
    RenderIsCanonical([n]);
    CompsOfRender([n]);
    NormalizeKeepsCanonical(p, Some("/"), VFS_MAX_PATH);
    RootIsCanonical();
    NormalizeKeepsCanonical("/", Some("/"), VFS_MAX_PATH);
    SplitOfText("", n, VFS_MAX_PATH);
    assert "" + "/" + n == p;
  }

  lemma TopName(d: Disk, n: string)
    requires Tree(d) && Regular(n) && |n| == 1
    ensures NameFits("/" + n) && SamePath("/" + n, "/" + n) && ParentOf(d, "/" + n) == Some((ROOT, n))
            && Resolve(d, "/" + n) == Lookup(d, ROOT, n)
  {
    TopText(n);
    assert Comps("/", 0) == [] && Walk(d, ROOT, []) == Some(ROOT);
    WalkOne(d, [], ROOT, n);
    assert [] + [n] == [n];
  }

  /** The root directory and its first block; inode one has kind `kind`. */
  ghost predicate Small(d: Disk, kind: Kind, names: map<string, nat>) {
    && Shape(d) && d.inodes[ROOT].kind.Dir? && d.inodes[1].kind == kind
    && DirMap(Entries(d, d.inodes[ROOT])) == names && d.inodes[ROOT].blocks[0] != 0
  }

  lemma UsedBlock(d: Disk, x: Inode)
    requires |x.blocks| == DIRECT && InUse(Entries(d, x)[0])
    ensures x.blocks[0] != 0
  {
    assert Entries(d, x)[0] == EntryAt(d, x, 0);
  }

  /** The root has no entry, and inode one and a block are free. */
  ghost predicate EmptyRoot(d: Disk, n: string) {
    && Shape(d) && FindFree(Entries(d, d.inodes[ROOT]), 0) == 0 && !AddFails(d, ROOT, n) && Lookup(d, ROOT, n) == None
    && FirstClear(d.inodeMap, 0, MAX_FILES) == 1 && DirMap(Entries(d, d.inodes[ROOT])) == map[]
  }

  lemma FreshRoot()
    ensures EmptyRoot(Formatted(), "a") && !FilesFull(InitialCache().files)
  {
    var d := Formatted();
    FormattedOk();
    FindNameIsLookup(Entries(d, d.inodes[ROOT]), "a");
    EmptyInodeHasNoEntries(d, d.inodes[ROOT]);
    assert !d.blockMap[DATA_START];
    assert FirstClear(d.inodeMap, 1, MAX_FILES) == 1;
    assert InitialCache().files[0].ref == 0;
  }

  /** Where there is room, opening a missing name with O_CREAT creates it and opens it. */
  lemma OpensNew(c: Cache, d: Disk, c': Cache, d': Disk, path: string, n: string, p: FilePtr) returns (i: nat)
    requires NewOutcome(c, d, c', d', path, READ_WRITE, p) && !FilesFull(c.files)
    requires ParentOf(d, path) == Some((ROOT, n)) && !AddFails(d, ROOT, n) && !d.inodeMap[1]
    ensures !p.Null? && InodeOf(c', p) == i && CreateResult(d, d', ROOT, n, File, i)
  {
    assert !CreatePathResult(d, d', path, File, -1);
    i :| CreatedBy(d, d', path, i) && CreatedOutcome(c, c', d', i, READ_WRITE, p);
  }

  lemma FirstFile(d: Disk, d': Disk, n: string, c: int)
    requires CreateResult(d, d', ROOT, n, File, c) && c != -1 && FirstClear(d.inodeMap, 0, MAX_FILES) == 1
    requires DirMap(Entries(d, d.inodes[ROOT])) == map[] && FindFree(Entries(d, d.inodes[ROOT]), 0) == 0
    ensures c == 1 && Small(d', File, map[n := 1])
  {
    UsedBlock(d', d'.inodes[ROOT]);
  }

  /** open("/a", O_CREAT | O_RDWR) on a fresh disk. */
  method OpenFirst() returns (f: FileLayer, p: FilePtr)
    ensures fresh(f) && fresh(f.fs) && f.Valid() && Small(f.fs.disk, File, map["a" := 1])
    ensures p in f.Ptrs() && Stale(f.cache, p)
  {
    f := new FileLayer();
    ghost var c, d := f.cache, f.fs.disk;
    FreshRoot();
    p := OpenOnEmpty(f, "a");
    FileVnode(f.cache, f.fs.disk, f.Ptrs(), p);
  }

  method OpenOnEmpty(f: FileLayer, n: string) returns (p: FilePtr)
    requires f.Valid() && f.handles == multiset{} && Regular(n) && |n| == 1 && !FilesFull(f.cache.files)
    requires EmptyRoot(f.fs.disk, n)
    modifies f`cache, f`handles, f.fs
    ensures f.Valid() && (old(f.KindsRight()) ==> f.KindsRight()) && Small(f.fs.disk, File, map[n := 1])
    ensures p in f.Ptrs() && p.Entry? && InodeOf(f.cache, p) == 1 && OnlyFile(old(f.cache).files, f.cache.files, p.slot)
  {
    ghost var c, d := f.cache, f.fs.disk;
    TopName(d, n);
    p := f.Open("/" + n, READ_WRITE);
    ghost var i := OpensNew(c, d, f.cache, f.fs.disk, "/" + n, n, p);
    FirstFile(d, f.fs.disk, n, i);
  }

  lemma FileGone(d: Disk, d': Disk, n: string, r: int)
    requires Tree(d) && Regular(n) && Small(d, File, map[n := 1]) && UnlinkResult(d, d', ROOT, n, r)
    ensures r == 0 && Small(d', Unused, map[])
  {
    FindNameIsLookup(Entries(d, d.inodes[ROOT]), n);
    assert Lookup(d, ROOT, n) == Some(1);
    UnlinkedKinds(d, d', ROOT, n);
    assert map[n := 1] - {n} == map[];
  }

  lemma NumberReused(d: Disk, own: Owner, d': Disk, path: string, n: string, r: int)
    requires Core(d, own) && Tree(d) && Small(d, Unused, map[]) && CreatePathResult(d, d', path, Dir, r)
    requires ParentOf(d, path) == Some((ROOT, n)) && Regular(n) && |n| == 1 && SamePath(path, path)
    ensures r == 0 && Shape(d') && d'.inodes[1].kind.Dir? && Resolve(d', path) == Some(1)
  {
    RoomForName(d, own, n);
    var c :| c != -1 && CreateResult(d, d', ROOT, n, Dir, c);
    ResultNames(d, d', path, Dir, c);
  }

  lemma RoomForName(d: Disk, own: Owner, n: string)
    requires Core(d, own) && Tree(d) && Small(d, Unused, map[]) && Regular(n) && |n| == 1
    ensures !AddFails(d, ROOT, n) && !d.inodeMap[1] && FirstClear(d.inodeMap, 0, MAX_FILES) == 1
  {
    var es := Entries(d, d.inodes[ROOT]);
    FindNameIsLookup(es, n);
    if InUse(es[0]) { DirMapAt(es, 0); }
    assert d.inodeMap[ROOT] && FirstClear(d.inodeMap, 1, MAX_FILES) == 1;
  }

  /** The vnode of the unlinked file still says regular file, so the directory is not refused. */
  lemma StaleKind(c: Cache, d: Disk, ptrs: multiset<FilePtr>, p: FilePtr)
    requires Conserved(c, ptrs, multiset{}) && p in ptrs && Stale(c, p)
    ensures KindSeen(c, d, 1) == File
  {
    OpenIsBacked(c, ptrs, multiset{}, p.slot);
    var v, w := c.files[p.slot].vnode, FindVnode(c.vnodes, 1, 0);
    assert c.vnodes[v].ref > 0 && c.vnodes[v].inode == 1;
    assert w == v;
  }

  /** open("/a", O_CREAT | O_RDWR), unlink("/a"), mkdir("/b"), open("/b", O_RDWR). */
  method DirectoryOpenForWriting() returns (f: FileLayer, q: FilePtr)
    ensures f.Valid() && q in f.Ptrs() && q.Entry? && f.cache.files[q.slot].flags.mode.ReadWrite?
    ensures InodeOf(f.cache, q) == 1 && f.fs.disk.inodes[1].kind.Dir?
  {
    var p;
    f, p := OpenFirst();
    ReplaceOpen(f, p);
    q := OpenStale(f, p, "/b");
  }

  /** Opening the directory while `p` is open. */
  method OpenStale(f: FileLayer, p: FilePtr, path: string) returns (q: FilePtr)
    requires f.Valid() && p in f.Ptrs() && Stale(f.cache, p) && NameFits(path)
    requires Resolve(f.fs.disk, path) == Some(1) && f.fs.disk.inodes[1].kind.Dir?
    modifies f`cache, f`handles, f.fs
    ensures f.Valid() && q in f.Ptrs() && q.Entry? && f.cache.files[q.slot].flags.mode.ReadWrite?
    ensures InodeOf(f.cache, q) == 1 && f.fs.disk.inodes[1].kind.Dir?
  {
    StaleKind(f.cache, f.fs.disk, f.Ptrs(), p);
    FileSlotLeft(f.cache.files, p.slot);
    q := f.Open(path, READ_WRITE);
  }

  lemma FileVnode(c: Cache, d: Disk, ptrs: multiset<FilePtr>, p: FilePtr)
    requires Conserved(c, ptrs, multiset{}) && RightKinds(c.vnodes, d) && p in ptrs && p.Entry? && InodeOf(c, p) == 1
    requires |d.inodes| > 1 && d.inodes[1].kind.File?
    ensures c.vnodes[c.files[p.slot].vnode].kind.File? && c.vnodes[c.files[p.slot].vnode].ref > 0
  {
    OpenIsBacked(c, ptrs, multiset{}, p.slot);
    assert RightKind(c.vnodes[c.files[p.slot].vnode], d);
  }

  /** `p` is open on inode one, through a vnode that says regular file; file slots are left. */
  ghost predicate Stale(c: Cache, p: FilePtr) {
    && p.Entry? && InodeOf(c, p) == 1 && OnlyFile(InitialCache().files, c.files, p.slot)
    && c.vnodes[c.files[p.slot].vnode].kind.File? && c.vnodes[c.files[p.slot].vnode].ref > 0
  }

  lemma StaysStale(c: Cache, c': Cache, p: FilePtr)
    requires Stale(c, p) && Steady(c, c') && c'.files == c.files
    ensures Stale(c', p)
  {
    var v := c.files[p.slot].vnode;
    assert StaysLive(c.vnodes[v], c'.vnodes[v]);
  }

  /** unlink("/a") while `p` is open. */
  method UnlinkOpen(f: FileLayer, p: FilePtr, n: string)
    requires f.Valid() && Regular(n) && |n| == 1 && Small(f.fs.disk, File, map[n := 1]) && Stale(f.cache, p)
    modifies f`cache, f.fs
    ensures f.Valid() && Small(f.fs.disk, Unused, map[]) && Stale(f.cache, p)
  {
    ghost var c, d := f.cache, f.fs.disk;
    TopName(d, n);
    var r := f.UnlinkPath("/" + n);
    FileGone(d, f.fs.disk, n, r);
    StaysStale(c, f.cache, p);
  }

  /** mkdir("/b") takes the freed inode number. */
  method MakeDirectory(f: FileLayer, p: FilePtr, n: string)
    requires f.Valid() && Regular(n) && |n| == 1 && Small(f.fs.disk, Unused, map[]) && Stale(f.cache, p)
    modifies f`cache, f.fs
    ensures f.Valid() && Stale(f.cache, p) && NameFits("/" + n)
    ensures f.fs.disk.inodes[1].kind.Dir? && Resolve(f.fs.disk, "/" + n) == Some(1)
  {
    ghost var c, d, own := f.cache, f.fs.disk, f.fs.own;
    TopName(d, n);
    var r := f.CreatePath("/" + n, Dir);
    NumberReused(d, own, f.fs.disk, "/" + n, n, r);
    StaysStale(c, f.cache, p);
  }

  method ReplaceOpen(f: FileLayer, p: FilePtr)
    requires f.Valid() && Small(f.fs.disk, File, map["a" := 1]) && p in f.Ptrs() && Stale(f.cache, p)
    modifies f`cache, f.fs
    ensures f.Valid() && p in f.Ptrs() && Stale(f.cache, p) && NameFits("/b")
    ensures f.fs.disk.inodes[1].kind.Dir? && Resolve(f.fs.disk, "/b") == Some(1)
  {
    UnlinkOpen(f, p, "a");
    MakeDirectory(f, p, "b");
    assert "/" + "b" == "/b";
  }

  lemma FileSlotLeft(files: seq<OpenFile>, f: nat)
    requires OnlyFile(InitialCache().files, files, f)
    ensures !FilesFull(files)
  {
    var k := if f == 0 then 1 else 0;
    assert files[k] == InitialCache().files[k] == CLOSED;
  }
}
