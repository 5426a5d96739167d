/**
 kernel/fs/vfs.c and kernel/fs/file.c: path operations over the RAM file system
 with the reference-counted vnode cache, the open-file table and the per-process
 descriptor tables. Conservation of references holds after every operation.
 */
module Vfs {
  import opened Basics
  import opened RamfsSpec
  import opened FileSpec
  import opened TreeSpec
  import opened PathSpec
  import opened HandleSpec
  import opened NameSpec
  import opened Ramfs
  import Path

  ghost predicate SameNames(d: Disk, d': Disk) { Shape(d) && Shape(d') && forall q :: Resolve(d', q) == Resolve(d, q) }

  /** The last component is not one of the lengths that overrun a directory entry. */
  ghost predicate NameFits(path: string) {
    var p := Normalize(path, Some("/"), VFS_MAX_PATH);
    p.None? || |Basename(p.value)| <= NAME_ROOM || |Basename(p.value)| >= MAX_FILENAME
  }

  lemma RootParent()
    ensures var d := Formatted();
            && Tree(d) && NameFits("/") && Normalize("/", Some("/"), VFS_MAX_PATH) == Some("/")
            && ParentOf(d, "/") == Some((ROOT, "/")) && !d.inodeMap[1] && !AddFails(d, ROOT, "/")
  {
    var d := Formatted();
    FormattedOk();
    RootIsCanonical();
    NormalizeKeepsCanonical("/", Some("/"), VFS_MAX_PATH);
    FindNameIsLookup(Entries(d, d.inodes[ROOT]), "/");
    EmptyInodeHasNoEntries(d, d.inodes[ROOT]);
    assert !d.blockMap[DATA_START];
  }

  datatype Whence = Set | Current | End

  /** The open file `p` stands at `offset`. */
  function Moved(c: Cache, p: FilePtr, offset: nat): Cache {
    if p.Entry? && p.slot < |c.files| then SetFile(c, p.slot, c.files[p.slot].(offset := offset)) else c
  }

  /** The offset moves by what was transferred, and not on an error. */
  function Advanced(offset: nat, n: int): nat { if n > 0 then offset + n else offset }

  function SeekBase(offset: nat, size: nat, whence: Whence): nat {
    match whence
    case Set => 0
    case Current => offset
    case End => size
  }

  /** Where a seek leads; negative when it is refused. */
  function SeekTarget(c: Cache, d: Disk, p: FilePtr, offset: int, whence: Option<Whence>): int {
    if whence.None? || !p.Entry? || p.slot >= |c.files| then -1
    else SeekBase(c.files[p.slot].offset, if 0 <= InodeOf(c, p) < |d.inodes| then d.inodes[InodeOf(c, p)].size
         else 0, whence.value) + offset
  }

  /** A read through an open file: refused for write-only files and directories, else the slice at the offset. */
  ghost predicate ReadOutcome(c: Cache, d: Disk, p: FilePtr, count: nat, n: int, out: seq<Byte>) {
    && Shape(d) && p.Entry? && p.slot < |c.files| && 0 <= InodeOf(c, p) < MAX_FILES
    && var f, x := c.files[p.slot], d.inodes[InodeOf(c, p)];
    if f.flags.mode.WriteOnly? || !x.kind.File? then n == -1
    else
      && n == |out| && x.size <= MAX_SIZE && out == ReadSpec(Image(d, x), x.size, f.offset, count)
      && (out == Slice(Contents(d, x), f.offset, count) <==>
          f.offset >= x.size || f.offset + count < TWO_64 || x.size == MAX_SIZE)
  }

  ghost predicate WriteOutcome(c: Cache, d: Disk, c': Cache, d': Disk, p: FilePtr, src: seq<Byte>, n: int) {
    && Shape(d) && p.Entry? && p.slot < |c.files| && 0 <= InodeOf(c, p) < MAX_FILES
    && var f, i := c.files[p.slot], InodeOf(c, p);
    var at := if f.flags.append then d.inodes[i].size else f.offset;
    if f.flags.mode.ReadOnly? then n == -1 && d' == d && c' == c
    else WriteResult(d, d', i, src, at, n) && c' == Moved(c, p, Advanced(at, n))
  }

  /** Reading at the place of a write gives back what was written. */
  lemma ReadBack(c: seq<Byte>, at: nat, data: seq<Byte>)
    requires data != []
    ensures Slice(Written(c, at, data), at, |data|) == data
  {
  }

  /** Write, seek back, read: the bytes that were written come back. */
  lemma WriteReadBack(c: Cache, d: Disk, c1: Cache, d1: Disk, p: FilePtr, src: seq<Byte>, n: int, m: int,
      out: seq<Byte>)
    requires WriteOutcome(c, d, c1, d1, p, src, n) && n > 0 && c.files[p.slot].flags.mode.ReadWrite?
    requires ReadOutcome(Moved(c1, p, OffsetOf(c1, p) - n), d1, p, n, m, out)
    ensures m == n && out == src[..n]
  {
    var at := OffsetOf(c1, p) - n;
    ReadBack(Contents(d, d.inodes[InodeOf(c, p)]), at, src[..n]);
  }

  ghost predicate NoFreeFd(row: seq<FilePtr>) { forall k :: 0 <= k < |row| ==> !row[k].Null? }

  /** A directory may only be opened for reading. */
  predicate Refused(kind: Kind, flags: Flags) { kind == Dir && !flags.mode.ReadOnly? }

  /** The file starts at its beginning, or at its end when appending. */
  ghost predicate FreshFile(c: Cache, d: Disk, p: FilePtr, i: nat, flags: Flags) {
    && p.Entry? && p.slot < |c.files| && i < |d.inodes|
    && c.files[p.slot].flags == flags && c.files[p.slot].offset == if flags.append then d.inodes[i].size else 0
  }

  /** O_TRUNC empties an existing regular file, and nothing else changes the disk. */
  ghost predicate TruncatedOrSame(d: Disk, d': Disk, i: nat, kind: Kind, flags: Flags) {
    if flags.trunc && kind == File && Shape(d) && i < MAX_FILES
        && d.inodes[i].kind.File? then TruncateResult(d, d', i, 0) else d' == d
  }

  ghost predicate HeldOutcome(c: Cache, d: Disk, c': Cache, d': Disk, v: nat, flags: Flags, created: bool, p: FilePtr) {
    && v < |c.vnodes|
    && (p.Null? || p.Entry?)
    && (p.Null? <==> Refused(c.vnodes[v].kind, flags) || FilesFull(c.files))
    && (p.Entry? ==>
        p.slot < |c'.files| && c'.files[p.slot].vnode == v && FreshFile(c', d', p, c.vnodes[v].inode, flags))
    && (if created || Refused(c.vnodes[v].kind, flags) then d' == d
        else TruncatedOrSame(d, d', c.vnodes[v].inode, c.vnodes[v].kind, flags))
  }

  /** Opening an existing file fails exactly when a directory is to be written or no file slot is left. */
  ghost predicate ExistingOutcome(c: Cache, d: Disk, c': Cache, d': Disk, i: nat, flags: Flags, p: FilePtr) {
    var kind := KindSeen(c, d, i);
    && (p.Null? <==> Refused(kind, flags) || FilesFull(c.files))
    && (!p.Null? ==> InodeOf(c', p) == i && FreshFile(c', d', p, i, flags))
    && (if Refused(kind, flags) then d' == d else TruncatedOrSame(d, d', i, kind, flags))
  }

  ghost predicate CreatedOutcome(c: Cache, c': Cache, d': Disk, i: nat, flags: Flags, p: FilePtr) {
    && (p.Null? <==> FilesFull(c.files))
    && (!p.Null? ==> InodeOf(c', p) == i && FreshFile(c', d', p, i, flags))
  }

  ghost predicate CreatePathResult(d: Disk, d': Disk, path: string, kind: Kind, r: int) {
    && Shape(d)
    && match ParentOf(d, path)
       case None => r == -1 && d' == d
       case Some((dir, name)) =>
         (r == -1 && CreateResult(d, d', dir, name, kind, -1))
         || (r == 0 && exists c :: c != -1 && CreateResult(d, d', dir, name, kind, c))
  }

  /** The path's name was entered in its parent directory with inode `c`. */
  ghost predicate CreatedBy(d: Disk, d': Disk, path: string, c: nat) {
    && Shape(d) && ParentOf(d, path).Some?
    && CreateResult(d, d', ParentOf(d, path).value.0, ParentOf(d, path).value.1, File, c)
    && NamesAfter(d, d', path, Some(c))
  }

  /** Opening with creation: all or nothing on the disk; a created file stays even if no file slot is left. */
  ghost predicate NewOutcome(c: Cache, d: Disk, c': Cache, d': Disk, path: string, flags: Flags, p: FilePtr) {
    || (p.Null? && CreatePathResult(d, d', path, File, -1))
    || (exists i :: CreatedBy(d, d', path, i) && CreatedOutcome(c, c', d', i, flags, p))
  }

  /** What vfs_open does, in all cases. */
  ghost predicate OpenOutcome(c: Cache, d: Disk, c': Cache, d': Disk, path: string, flags: Flags, p: FilePtr) {
    && Shape(d)
    && match Resolve(d, path)
       case Some(i) => ExistingOutcome(c, d, c', d', i, flags, p)
       case None => if flags.creat then NewOutcome(c, d, c', d', path, flags, p) else p.Null? && d' == d
  }

  lemma HeldIsNew(c: Cache, d: Disk, c1: Cache, d1: Disk, c2: Cache, d2: Disk, path: string, v: nat, flags: Flags,
      p: FilePtr)
    requires c1.files == c.files && v < |c1.vnodes| && c1.vnodes[v].kind != Dir
             && CreatedBy(d, d1, path, c1.vnodes[v].inode)
    requires HeldOutcome(c1, d1, c2, d2, v, flags, true, p) && (!p.Null? ==> c2.vnodes == c1.vnodes)
    ensures NewOutcome(c, d, c2, d2, path, flags, p)
  {
  }

  lemma MissingIsOpen(c: Cache, d: Disk, c': Cache, d': Disk, path: string, flags: Flags, p: FilePtr)
    requires Shape(d) && Resolve(d, path).None?
    requires if flags.creat then NewOutcome(c, d, c', d', path, flags, p) else p.Null? && d' == d
    ensures OpenOutcome(c, d, c', d', path, flags, p)
  {
  }

  lemma ExistingIsOpen(c: Cache, d: Disk, c': Cache, d': Disk, path: string, i: nat, flags: Flags, p: FilePtr)
    requires Shape(d) && Resolve(d, path) == Some(i) && ExistingOutcome(c, d, c', d', i, flags, p)
    ensures OpenOutcome(c, d, c', d', path, flags, p)
  {
  }

  lemma AllowedIsHeld(c: Cache, d: Disk, c': Cache, d': Disk, v: nat, flags: Flags, created: bool, p: FilePtr)
    requires v < |c.vnodes| && c.vnodes[v].inode < |d'.inodes| && !Refused(c.vnodes[v].kind, flags)
    requires if created then d' == d else TruncatedOrSame(d, d', c.vnodes[v].inode, c.vnodes[v].kind, flags)
    requires (p.Null? || p.Entry?) && (p.Null? <==> FilesFull(c.files))
    requires p.Entry? ==>
             p.slot < |c.files| && c' == SetFile(c, p.slot,
             OpenFile(1, v, flags, if flags.append then d'.inodes[c.vnodes[v].inode].size else 0))
    ensures HeldOutcome(c, d, c', d', v, flags, created, p)
  {
  }

  /**
   With the kinds right, opening an existing path fails exactly when its inode is a directory to be
   written or no file slot is left.
   */
  lemma RefusalWhenRight(c: Cache, d: Disk, c': Cache, d': Disk, path: string, flags: Flags, p: FilePtr)
    requires OpenOutcome(c, d, c', d', path, flags, p) && RightKinds(c.vnodes, d) && Tree(d) && Resolve(d, path).Some?
    ensures var i := Resolve(d, path).value;
            i < MAX_FILES && (p.Null? <==> Refused(d.inodes[i].kind, flags) || FilesFull(c.files))
  {
    ResolveReaches(d, path);
    RightKindSeen(c, d, Resolve(d, path).value);
  }

  /** The refusal follows the inode exactly unless a directory is to be written whose live vnode has another kind. */
  lemma RefusalIff(c: Cache, d: Disk, i: nat, flags: Flags)
    requires DirsBacked(c.vnodes, d) && i < |d.inodes|
    ensures (Refused(KindSeen(c, d, i), flags) <==> Refused(d.inodes[i].kind, flags))
            <==>
            !(Refused(d.inodes[i].kind, flags) && HasVnode(c, i) && c.vnodes[FindVnode(c.vnodes, i, 0)].kind != Dir)
  {
    if HasVnode(c, i) { assert Backed(c.vnodes[FindVnode(c.vnodes, i, 0)], d); }
  }

  lemma HeldIsExisting(c: Cache, c1: Cache, d: Disk, c': Cache, d': Disk, v: nat, i: nat, flags: Flags, p: FilePtr)
    requires HeldOutcome(c1, d, c', d', v, flags, false, p) && c1.files == c.files && c1.vnodes[v].inode == i
    requires c1.vnodes[v].kind == KindSeen(c, d, i)
    requires !p.Null? ==> c'.vnodes == c1.vnodes
    ensures ExistingOutcome(c, d, c', d', i, flags, p)
  {
  }

  /** Console files for the three standard descriptors, the others unused. */
  function StdioRow(): (r: seq<FilePtr>)
    ensures |r| == MAX_FD && forall k :: 0 <= k < MAX_FD ==> r[k] == if k < 3 then Console(k) else Null
  {
    seq(MAX_FD, k requires 0 <= k => if k < 3 then Console(k) else Null)
  }

  /** The first `n` descriptors of `src`, the others unused. */
  function CloneRow(src: seq<FilePtr>, n: nat): (r: seq<FilePtr>)
    requires n <= |src| && n <= MAX_FD
    ensures |r| == MAX_FD
  {
    src[..n] + seq(MAX_FD - n, _ => Null)
  }

  lemma CloneRowStep(src: seq<FilePtr>, n: nat)
    requires n < |src| && n < MAX_FD
    ensures CloneRow(src, n)[n].Null? && CloneRow(src, n)[n := src[n]] == CloneRow(src, n + 1)
  {
  }

  /** A fresh inode of the given kind is what the path, and no other, now names. */
  ghost predicate EnteredPath(d: Disk, d': Disk, path: string, kind: Kind) {
    && Shape(d) && Shape(d')
    && exists c: nat ::
        c < MAX_FILES && d.inodes[c].kind.Unused? && d'.inodes[c].kind == kind && NamesAfter(d, d', path, Some(c))
  }

  lemma ResultNames(d: Disk, d': Disk, path: string, kind: Kind, c: nat)
    requires Tree(d) && ParentOf(d, path).Some?
    requires CreateResult(d, d', ParentOf(d, path).value.0, ParentOf(d, path).value.1, kind, c)
    ensures c < MAX_FILES && d.inodes[c].kind.Unused? && d'.inodes[c].kind == kind && NamesAfter(d, d', path, Some(c))
  {
    var (dir, name) := ParentOf(d, path).value;
    CreateNames(d, d', path, FindFree(Entries(d, d.inodes[dir]), 0), c, kind);
  }

  lemma CreateMeaning(d: Disk, d': Disk, path: string, kind: Kind, r: int)
    requires Tree(d) && CreatePathResult(d, d', path, kind, r)
    ensures if r == 0 then EnteredPath(d, d', path, kind) else d' == d
  {
    if r == 0 {
      var (dir, name) := ParentOf(d, path).value;
      var c :| c != -1 && CreateResult(d, d', dir, name, kind, c);
      ResultNames(d, d', path, kind, c);
    }
  }

  lemma UnlinkedIsGone(d: Disk, d': Disk, path: string, r: int)
    requires Tree(d) && ParentOf(d, path).Some? && r == 0
    requires UnlinkResult(d, d', ParentOf(d, path).value.0, ParentOf(d, path).value.1, r)
    ensures NamesAfter(d, d', path, None)
  {
    var (dir, name) := ParentOf(d, path).value;
    var p := FindName(Entries(d, d.inodes[dir]), name, 0);
    UnlinkNames(d, d', path, p, Lookup(d, dir, name).value);
  }

  lemma CreateKeepsDirs(d: Disk, d': Disk, dir: nat, name: string, kind: Kind, c: int)
    requires CreateResult(d, d', dir, name, kind, c)
    ensures DirsStay(d, d') && UsedStay(d, d') && (c != -1 ==> 0 < c < MAX_FILES && d'.inodes[c].kind == kind)
  {
  }

  lemma UnlinkKeepsDirs(d: Disk, d': Disk, dir: nat, name: string, r: int)
    requires UnlinkResult(d, d', dir, name, r)
    ensures DirsStay(d, d')
  {
    forall i: nat | IsDir(d, i)
      ensures IsDir(d', i)
    {
      if r == 0 && i == Lookup(d, dir, name).value { assert !d'.inodes[i].kind.Unused?; }
    }
  }

  /** The path names a regular file that has a live vnode, as it has while the file is open. */
  ghost predicate FreesOpen(c: Cache, d: Disk, path: string)
    requires Shape(d)
  {
    match ParentOf(d, path)
    case None => false
    case Some((dir, name)) =>
      && dir < MAX_FILES
      && match Lookup(d, dir, name)
         case None => false
         case Some(t) => t < MAX_FILES && d.inodes[t].kind.File? && HasVnode(c, t)
  }

  /** What unlinking does to the kinds of inodes. */
  lemma UnlinkedKinds(d: Disk, d': Disk, dir: nat, name: string)
    requires UnlinkResult(d, d', dir, name, 0)
    ensures |d.inodes| == |d'.inodes| == MAX_FILES && Lookup(d, dir, name).Some?
    ensures var t := Lookup(d, dir, name).value;
            && t < MAX_FILES && d'.inodes[t].kind == (if d.inodes[t].kind.File? then Unused else d.inodes[t].kind)
            && (forall i: nat :: i < MAX_FILES && i != t ==> d'.inodes[i].kind == d.inodes[i].kind)
  {
    assert !UnlinkFails(d, dir, name);
  }

  lemma TargetInUse(d: Disk, dir: nat, name: string)
    requires Tree(d) && dir < MAX_FILES && !UnlinkFails(d, dir, name)
    ensures !d.inodes[Lookup(d, dir, name).value].kind.Unused?
  {
    UnlinkTarget(d, dir, name);
  }

  lemma UnlinkKindsIff(c: Cache, c': Cache, d: Disk, d': Disk, dir: nat, name: string)
    requires RightKinds(c.vnodes, d) && SameLive(c, c') && Tree(d) && UnlinkResult(d, d', dir, name, 0)
    ensures Lookup(d, dir, name).Some? && Lookup(d, dir, name).value < MAX_FILES
    ensures var t := Lookup(d, dir, name).value;
            RightKinds(c'.vnodes, d') <==> !(d.inodes[t].kind.File? && HasVnode(c, t))
  {
    UnlinkedKinds(d, d', dir, name);
    TargetInUse(d, dir, name);
    FreedKindsIff(c, c', d, d', Lookup(d, dir, name).value);
  }

  lemma UnlinkMeaning(c: Cache, c': Cache, d: Disk, d': Disk, path: string, r: int)
    requires SameLive(c, c') && Tree(d) && ParentOf(d, path).Some?
    requires UnlinkResult(d, d', ParentOf(d, path).value.0, ParentOf(d, path).value.1, r)
    ensures Shape(d') && if r == 0 then NamesAfter(d, d', path, None) else r == -1 && d' == d
    ensures RightKinds(c.vnodes, d) ==> (RightKinds(c'.vnodes, d') <==> r == -1 || !FreesOpen(c, d, path))
  {
    var (dir, name) := ParentOf(d, path).value;
    if r == 0 {
      UnlinkedIsGone(d, d', path, r);
      if RightKinds(c.vnodes, d) { UnlinkKindsIff(c, c', d, d', dir, name); }
    } else {
      SameLiveRight(c, c', d);
    }
  }

  lemma RootBasename()
    ensures Basename("/") == "/"
  {
  }

  /** The last component of a normalised path is a proper name, or "/" for the root. */
  lemma NamesAreShort(d: Disk, path: string)
    requires Shape(d) && ParentOf(d, path).Some? && NameFits(path)
    ensures ParentOf(d, path).value.1 != "." && |ParentOf(d, path).value.1| <= NAME_ROOM
  {
    RootIsCanonical();
    NormalizeIsCanonical(path, Some("/"), VFS_MAX_PATH);
    var p := Normalize(path, Some("/"), VFS_MAX_PATH).value;
    if p != "/" { JoinOfSplit(p, VFS_MAX_PATH); } else { RootBasename(); }
  }

  lemma CanonicalIsAbsolute(p: string)
    requires Canonical(p)
    ensures p != "" && p[0] == '/'
  {
    if Comps(p, 0) != [] { ChainShape(Comps(p, 0)); }
  }

  lemma HandleLess(entries: multiset<FilePtr>, handles: multiset<FilePtr>, p: FilePtr)
    requires p in handles
    ensures entries + (handles - multiset{p}) == entries + handles - multiset{p}
  {
  }

  class FileLayer {
    const fs: Filesystem
    var cache: Cache
    var tables: seq<seq<FilePtr>>
    ghost var handles: multiset<FilePtr>   // file pointers held outside the descriptor tables

    ghost function Ptrs(): multiset<FilePtr>
      reads this`tables, this`handles
    {
      TablePtrs(tables) + handles
    }

    ghost predicate TablesOk()
      reads this`tables
    {
      forall t :: 0 <= t < |tables| ==> |tables[t]| == MAX_FD
    }

    /** The invariant while the vnode pointers `vh` are in local variables. */
    ghost predicate Holding(vh: multiset<int>)
      reads this`cache, this`tables, this`handles, fs
    {
      fs.Valid() && TablesOk() && Conserved(cache, Ptrs(), vh) && DirsBacked(cache.vnodes, fs.disk)
    }

    ghost predicate Valid()
      reads this, fs
    {
      Holding(multiset{})
    }

    /** Every live vnode has the kind of its inode. Only unlinking an open file breaks this. */
    ghost predicate KindsRight()
      reads this`cache, fs
    {
      RightKinds(cache.vnodes, fs.disk)
    }

    /** vfs_init. */
    constructor ()
      ensures Valid() && KindsRight() && fresh(fs) && fs.disk == Formatted()
      ensures tables == [] && handles == multiset{} && cache == InitialCache()
    {
      fs := new Filesystem();
      cache := InitialCache();
      tables := [];
      handles := multiset{};
      new;
      InitialConserved();
      assert Ptrs() == multiset{};
    }

    // ------------------------------------------------------------ vnodes

    method FindLiveVnode(inode: nat) returns (v: nat)
      ensures v == FindVnode(cache.vnodes, inode, 0)
    {
      v := 0;
      while v < |cache.vnodes|
        invariant v <= |cache.vnodes| && FindVnode(cache.vnodes, inode, 0) == FindVnode(cache.vnodes, inode, v)
      {
        if cache.vnodes[v].ref > 0 && cache.vnodes[v].inode == inode { return; }
        v := v + 1;
      }
    }

    method FindFreeVnode() returns (v: nat)
      ensures v == FreeVnode(cache.vnodes, 0)
    {
      v := 0;
      while v < |cache.vnodes|
        invariant v <= |cache.vnodes| && FreeVnode(cache.vnodes, 0) == FreeVnode(cache.vnodes, v)
      {
        if cache.vnodes[v].ref == 0 { return; }
        v := v + 1;
      }
    }

    /** vnode_get_or_create: cannot fail for an inode number in range. */
    method GetOrCreate(inode: nat, ghost vh: multiset<int>) returns (v: nat)
      requires Holding(vh) && inode < MAX_FILES
      modifies this`cache
      ensures Holding(vh + multiset{v})
      ensures v < MAX_VNODES && cache.vnodes[v].inode == inode && cache.vnodes[v].ref > 0
      ensures cache.vnodes[v].kind == KindSeen(old(cache), fs.disk, inode)
      ensures cache.vnodes[v].kind.Dir? ==> IsDir(fs.disk, inode)
      ensures cache.files == old(cache).files && Steady(old(cache), cache)
      ensures old(KindsRight()) && !fs.disk.inodes[inode].kind.Unused? ==> KindsRight()
    {
      AcquireConserves(cache, Ptrs(), vh, inode, fs.disk.inodes[inode].kind);
      AcquireBacked(cache, inode, fs.disk);
      AcquireSteady(cache, inode, fs.disk.inodes[inode].kind);
      AcquireRight(cache, inode, fs.disk);
      v := FindLiveVnode(inode);
      if v < |cache.vnodes| {
        cache := cache.(vnodes := cache.vnodes[v := cache.vnodes[v].(ref := cache.vnodes[v].ref + 1)]);
        return;
      }
      v := FindFreeVnode();
      cache := cache.(vnodes := cache.vnodes[v := Vnode(1, inode, fs.disk.inodes[inode].kind)]);
    }

    /** vnode_unref. */
    method VnodeUnref(v: nat, ghost vh: multiset<int>)
      requires Holding(vh) && v < MAX_VNODES && v in vh
      modifies this`cache
      ensures cache == Release(old(cache), v)
      ensures Holding(vh - multiset{v})
      ensures KeepsInodes(old(cache), cache) && (old(KindsRight()) ==> KindsRight())
    {
      ReleaseConserves(cache, Ptrs(), vh, v);
      ReleaseBacked(cache, v, fs.disk);
      ReleaseKeeps(cache, v);
      ReleaseRight(cache, v, fs.disk);
      if v == ROOT_VNODE { return; }
      if cache.vnodes[v].ref > 0 {
        cache := cache.(vnodes := cache.vnodes[v := cache.vnodes[v].(ref := cache.vnodes[v].ref - 1)]);
      }
    }

    /** Give back the only vnode pointer held. */
    method GiveBack(v: nat)
      requires v < MAX_VNODES && Holding(multiset{v})
      modifies this`cache
      ensures Valid() && cache.files == old(cache).files
      ensures KeepsInodes(old(cache), cache) && (old(KindsRight()) ==> KindsRight())
    {
      VnodeUnref(v, multiset{v});
      assert multiset{v} - multiset{v} == multiset{};
    }

    /** Give back one of two vnode pointers held. */
    method GiveBackOne(w: nat, ghost v: nat, ghost both: multiset<int>)
      requires Holding(both) && w < MAX_VNODES && w in both && v < MAX_VNODES
      modifies this`cache
      ensures Holding(both - multiset{w}) && cache.files == old(cache).files
      ensures KeepsInodes(old(cache), cache) && (old(KindsRight()) ==> KindsRight())
      ensures cache.vnodes[v].inode == old(cache).vnodes[v].inode && cache.vnodes[v].kind == old(cache).vnodes[v].kind
    {
      VnodeUnref(w, both);
    }

    /** Get a vnode and give it straight back, as vfs_create does with its result. */
    method Touch(inode: nat, ghost v: nat)
      requires Holding(multiset{v}) && inode < MAX_FILES
      modifies this`cache
      ensures Holding(multiset{v}) && cache.files == old(cache).files && SameLive(old(cache), cache)
      ensures old(KindsRight()) && !fs.disk.inodes[inode].kind.Unused? ==> KindsRight()
    {
      ghost var right := KindsRight() && !fs.disk.inodes[inode].kind.Unused?;
      var w := GetOrCreate(inode, multiset{v});
      assert right ==> KindsRight();
      ghost var c, both := cache, multiset{v} + multiset{w};
      assert both - multiset{w} == multiset{v} && w in both;
      GiveBackOne(w, w, both);
      assert right ==> KindsRight();
      TakenAndGiven(old(cache), c, cache, Ptrs(), multiset{v});
    }

    // ------------------------------------------------------------ path resolution

    /** vfs_lookup: the vnode of the inode the path resolves to, or -1. */
    method Lookup(path: string, ghost vh: multiset<int>) returns (v: int)
      requires Holding(vh)
      modifies this`cache
      ensures v == -1 ==> Holding(vh) && cache == old(cache) && Resolve(fs.disk, path).None?
      ensures v != -1 ==> 0 <= v < MAX_VNODES && Holding(vh + multiset{v}) && Reached(fs.disk, cache.vnodes[v].inode)
      ensures v != -1 ==> Resolve(fs.disk, path) == Some(cache.vnodes[v].inode)
      ensures v != -1 ==> cache.vnodes[v].kind == KindSeen(old(cache), fs.disk, cache.vnodes[v].inode)
      ensures cache.files == old(cache).files && Steady(old(cache), cache) && (old(KindsRight()) ==> KindsRight())
    {
      var normalized := Path.PathNormalize(path, Some("/"), VFS_MAX_PATH);
      if normalized.None? { return -1; }
      RootIsCanonical();
      NormalizeIsCanonical(path, Some("/"), VFS_MAX_PATH);
      CanonicalIsAbsolute(normalized.value);
      var inode := fs.LookupPath(normalized.value);
      if inode.None? { return -1; }
      ResolveReaches(fs.disk, path);
      v := GetOrCreate(inode.value, vh);
    }

    /** vfs_lookup_parent: the vnode of the parent directory and the last component; -1 on error. */
    method LookupParent(path: string, ghost vh: multiset<int>) returns (v: int, name: string)
      requires Holding(vh)
      modifies this`cache
      ensures v == -1 ==> Holding(vh) && cache == old(cache) && ParentOf(fs.disk, path).None?
      ensures v != -1 ==> 0 <= v < MAX_VNODES && Holding(vh + multiset{v}) && Reached(fs.disk, cache.vnodes[v].inode)
      ensures v != -1 ==> ParentOf(fs.disk, path) == Some((cache.vnodes[v].inode, name))
      ensures cache.files == old(cache).files && Steady(old(cache), cache) && (old(KindsRight()) ==> KindsRight())
    {
      v, name := -1, "";
      var normalized := Path.PathNormalize(path, Some("/"), VFS_MAX_PATH);
      if normalized.None? { return; }
      var parentPath := Path.PathDirname(normalized.value, VFS_MAX_PATH);
      if parentPath.None? { return; }
      name := Path.PathBasename(normalized.value);
      if |name| >= MAX_FILENAME { return; }
      v := Lookup(parentPath.value, vh);
    }

    // ------------------------------------------------------------ names

    /** vfs_stat: takes a vnode and gives it back. */
    method Stat(path: string) returns (r: int)
      requires Valid()
      modifies this`cache
      ensures Valid() && cache.files == old(cache).files
      ensures r == if Resolve(fs.disk, path).Some? then 0 else -1
      ensures SameLive(old(cache), cache) && StillOpen(old(cache), cache, Ptrs())
              && (old(KindsRight()) ==> KindsRight())
    {
      var v := Lookup(path, multiset{});
      if v == -1 {
        NothingIsOpenFrame(cache, Ptrs());
        return -1;
      }
      assert multiset{} + multiset{v} == multiset{v};
      ghost var c := cache;
      GiveBack(v);
      NetZero(old(cache), c, cache, Ptrs());
      r := 0;
    }

    /** vfs_create and vfs_mkdir: enter a name in the parent directory, or change nothing. */
    method CreatePath(path: string, kind: Kind) returns (r: int)
      requires Valid() && (kind.File? || kind.Dir?) && NameFits(path)
      modifies this`cache, fs
      ensures Valid() && cache.files == old(cache).files
      ensures CreatePathResult(old(fs.disk), fs.disk, path, kind, r)
      ensures if r == 0 then EnteredPath(old(fs.disk), fs.disk, path, kind) else fs.disk == old(fs.disk)
      ensures SameLive(old(cache), cache) && StillOpen(old(cache), cache, Ptrs())
              && (old(KindsRight()) ==> KindsRight())
    {
      var v, name := LookupParent(path, multiset{});
      if v == -1 {
        NothingIsOpenFrame(cache, Ptrs());
        return -1;
      }
      assert multiset{} + multiset{v} == multiset{v};
      r := CreateUnder(v, name, kind, path, old(cache));
    }

    /** vfs_create below vnode `v`, `c` being the cache before the parent was looked up. */
    method CreateUnder(v: nat, name: string, kind: Kind, ghost path: string, ghost c: Cache) returns (r: int)
      requires v < MAX_VNODES && Holding(multiset{v}) && (kind.File? || kind.Dir?) && NameFits(path)
      requires Reached(fs.disk, cache.vnodes[v].inode) && ParentOf(fs.disk, path) == Some((cache.vnodes[v].inode, name))
      requires Conserved(c, Ptrs(), multiset{}) && Steady(c, cache) && cache.files == c.files
      modifies this`cache, fs
      ensures Valid() && cache.files == old(cache).files
      ensures CreatePathResult(old(fs.disk), fs.disk, path, kind, r)
      ensures if r == 0 then EnteredPath(old(fs.disk), fs.disk, path, kind) else fs.disk == old(fs.disk)
      ensures SameLive(c, cache) && StillOpen(c, cache, Ptrs()) && (old(KindsRight()) ==> KindsRight())
    {
      ghost var c1 := cache;
      r := CreateIn(v, name, kind, path);
      NetZero(c, c1, cache, Ptrs());
      CreateMeaning(old(fs.disk), fs.disk, path, kind, r);
    }

    /** The rest of vfs_create once the parent vnode is held. */
    method CreateIn(v: nat, name: string, kind: Kind, ghost path: string) returns (r: int)
      requires v < MAX_VNODES && Holding(multiset{v}) && (kind.File? || kind.Dir?) && NameFits(path)
      requires Reached(fs.disk, cache.vnodes[v].inode) && ParentOf(fs.disk, path) == Some((cache.vnodes[v].inode, name))
      modifies this`cache, fs
      ensures Valid() && cache.files == old(cache).files
      ensures CreatePathResult(old(fs.disk), fs.disk, path, kind, r)
      ensures KeepsInodes(old(cache), cache) && (old(KindsRight()) ==> KindsRight())
    {
      NamesAreShort(fs.disk, path);
      var c := fs.Create(cache.vnodes[v].inode, name, kind);
      CreateKeepsDirs(old(fs.disk), fs.disk, cache.vnodes[v].inode, name, kind, c);
      StillBacked(cache.vnodes, old(fs.disk), fs.disk);
      StillRight(cache.vnodes, old(fs.disk), fs.disk);
      r := -1;
      if c != -1 {
        Touch(c, v);
        r := 0;
      }
      ghost var c1 := cache;
      GiveBack(v);
      if c != -1 { KeepsTrans(old(cache), c1, cache); }
    }

    /** vfs_unlink. */
    method UnlinkPath(path: string) returns (r: int)
      requires Valid()
      modifies this`cache, fs
      ensures Valid() && cache.files == old(cache).files
      ensures match ParentOf(old(fs.disk), path)
              case None => r == -1 && fs.disk == old(fs.disk)
              case Some((dir, name)) => UnlinkResult(old(fs.disk), fs.disk, dir, name, r)
      ensures if r == 0 then NamesAfter(old(fs.disk), fs.disk, path, None) else fs.disk == old(fs.disk)
      ensures SameLive(old(cache), cache) && StillOpen(old(cache), cache, Ptrs())
      ensures old(KindsRight()) ==> (KindsRight() <==> r == -1 || !FreesOpen(old(cache), old(fs.disk), path))
    {
      var v, name := LookupParent(path, multiset{});
      if v == -1 {
        NothingIsOpenFrame(cache, Ptrs());
        return -1;
      }
      assert multiset{} + multiset{v} == multiset{v};
      ghost var c := cache;
      r := UnlinkIn(v, name);
      NetZero(old(cache), c, cache, Ptrs());
      UnlinkMeaning(old(cache), cache, old(fs.disk), fs.disk, path, r);
    }

    /** The rest of vfs_unlink once the parent vnode is held. */
    method UnlinkIn(v: nat, name: string) returns (r: int)
      requires v < MAX_VNODES && Holding(multiset{v}) && cache.vnodes[v].inode < MAX_FILES
      modifies this`cache, fs
      ensures Valid() && cache.files == old(cache).files && KeepsInodes(old(cache), cache)
      ensures UnlinkResult(old(fs.disk), fs.disk, old(cache).vnodes[v].inode, name, r)
    {
      r := fs.Unlink(cache.vnodes[v].inode, name);
      UnlinkKeepsDirs(old(fs.disk), fs.disk, cache.vnodes[v].inode, name, r);
      StillBacked(cache.vnodes, old(fs.disk), fs.disk);
      GiveBack(v);
    }

    // ------------------------------------------------------------ open files

    /** file_alloc: the lowest slot that nothing points to; -1 when all 256 are open. */
    method FindFreeFile() returns (f: nat)
      ensures f == FreeFile(cache.files, 0)
    {
      f := 0;
      while f < |cache.files|
        invariant f <= |cache.files| && FreeFile(cache.files, 0) == FreeFile(cache.files, f)
      {
        if cache.files[f].ref == 0 { return; }
        f := f + 1;
      }
    }

    /** The tail of vfs_open: turn the held vnode into an open file, or give it back. */
    method OpenVnode(v: nat, flags: Flags, offset: nat) returns (p: FilePtr)
      requires v < MAX_VNODES && Holding(multiset{v})
      modifies this`cache, this`handles
      ensures Valid()
      ensures p.Null? || p.Entry?
      ensures p.Null? <==> FilesFull(old(cache).files)
      ensures p.Null? ==> handles == old(handles) && cache.files == old(cache).files
      ensures p.Entry? ==> p.slot < MAX_OPEN_FILES && old(p !in Ptrs()) && handles == old(handles) + multiset{p}
                           && cache == SetFile(old(cache), p.slot, OpenFile(1, v, flags, offset))
      ensures HeldFrame(old(cache), cache, p) && (old(KindsRight()) ==> KindsRight())
    {
      var f := FindFreeFile();
      if f == |cache.files| {
        GiveBack(v);
        return Null;
      }
      OpenConserves(cache, Ptrs(), multiset{v}, f, OpenFile(1, v, flags, offset));
      assert multiset{v} - multiset{v} == multiset{};
      cache := cache.(files := cache.files[f := OpenFile(1, v, flags, offset)]);
      handles := handles + multiset{Entry(f)};
      assert TablePtrs(tables) + handles == TablePtrs(tables) + old(handles) + multiset{Entry(f)};
      return Entry(f);
    }

    /** file_unref of a pointer held outside the tables (vfs_close). */
    method Close(p: FilePtr)
      requires Valid() && p in handles
      modifies this`cache, this`handles
      ensures Valid() && handles == old(handles) - multiset{p}
      ensures cache == UnrefFile(old(cache), p)
      ensures StillOpen(old(cache), cache, Ptrs()) && (old(KindsRight()) ==> KindsRight())
    {
      UnrefKeeps(cache, Ptrs(), p, fs.disk);
      HandleLess(TablePtrs(tables), handles, p);
      handles := handles - multiset{p};
      FileUnref(p);
    }

    /** file_unref with file_free. */
    method FileUnref(p: FilePtr)
      requires |cache.vnodes| == MAX_VNODES
      modifies this`cache
      ensures cache == UnrefFile(old(cache), p)
    {
      if !p.Entry? || p.slot >= |cache.files| { return; }
      var x := cache.files[p.slot];
      if x.ref > 0 {
        if x.ref == 1 {
          if 0 <= x.vnode < |cache.vnodes| { cache := Release(cache, x.vnode); }
          cache := SetFile(cache, p.slot, CLOSED);
        } else {
          cache := SetFile(cache, p.slot, x.(ref := x.ref - 1));
        }
      }
    }

    /** The O_CREAT branch of vfs_open: a held vnode for the new file, or -1 with the disk unchanged. */
    method CreateForOpen(path: string) returns (v: int)
      requires Valid() && NameFits(path)
      modifies this`cache, fs
      ensures cache.files == old(cache).files && (old(KindsRight()) ==> KindsRight())
      ensures Steady(old(cache), cache) && (v == -1 ==> OpenFrame(old(cache), cache, Ptrs(), Null))
      ensures v == -1 ==> Valid() && CreatePathResult(old(fs.disk), fs.disk, path, File, -1)
      ensures v != -1 ==> 0 <= v < MAX_VNODES && Holding(multiset{v}) && cache.vnodes[v].kind != Dir
      ensures v != -1 ==>
              cache.vnodes[v].inode < MAX_FILES && CreatedBy(old(fs.disk), fs.disk, path, cache.vnodes[v].inode)
    {
      var w, name := LookupParent(path, multiset{});
      if w == -1 {
        NothingIsOpenFrame(cache, Ptrs());
        return -1;
      }
      assert multiset{} + multiset{w} == multiset{w};
      ghost var c1 := cache;
      v := CreateHeld(w, name, path);
      HeldIsSteady(old(cache), c1, cache, Ptrs(), v);
    }

    /** The rest of the O_CREAT branch once the parent vnode is held. */
    method CreateHeld(w: nat, name: string, ghost path: string) returns (v: int)
      requires w < MAX_VNODES && Holding(multiset{w}) && NameFits(path)
      requires Reached(fs.disk, cache.vnodes[w].inode) && ParentOf(fs.disk, path) == Some((cache.vnodes[w].inode, name))
      modifies this`cache, fs
      ensures cache.files == old(cache).files && KeepsInodes(old(cache), cache) && (old(KindsRight()) ==> KindsRight())
      ensures v == -1 ==> Valid() && CreatePathResult(old(fs.disk), fs.disk, path, File, -1)
      ensures v != -1 ==> 0 <= v < MAX_VNODES && Holding(multiset{v}) && cache.vnodes[v].kind != Dir
      ensures v != -1 ==>
              cache.vnodes[v].inode < MAX_FILES && CreatedBy(old(fs.disk), fs.disk, path, cache.vnodes[v].inode)
    {
      NamesAreShort(fs.disk, path);
      var c := fs.Create(cache.vnodes[w].inode, name, File);
      CreateKeepsDirs(old(fs.disk), fs.disk, cache.vnodes[w].inode, name, File, c);
      StillBacked(cache.vnodes, old(fs.disk), fs.disk);
      StillRight(cache.vnodes, old(fs.disk), fs.disk);
      if c == -1 {
        GiveBack(w);
        return -1;
      }
      ResultNames(old(fs.disk), fs.disk, path, File, c);
      v := TakeAndGive(w, c);
    }

    /** Get the vnode of inode `c` and give vnode `w` back. */
    method TakeAndGive(w: nat, c: nat) returns (v: nat)
      requires w < MAX_VNODES && c < MAX_FILES && Holding(multiset{w})
      modifies this`cache
      ensures v < MAX_VNODES && Holding(multiset{v}) && cache.vnodes[v].inode == c
      ensures cache.vnodes[v].kind == Dir ==> IsDir(fs.disk, c)
      ensures cache.files == old(cache).files && KeepsInodes(old(cache), cache)
      ensures old(KindsRight()) && !fs.disk.inodes[c].kind.Unused? ==> KindsRight()
    {
      v := GetOrCreate(c, multiset{w});
      ghost var c1 := cache;
      ghost var both := multiset{w} + multiset{v};
      assert both - multiset{w} == multiset{v} && w in both;
      GiveBackOne(w, v, both);
      KeepsTrans(old(cache), c1, cache);
    }

    /** O_TRUNC of a regular file: it becomes empty, and growing it again gives zeros. */
    method TruncateToZero(inode: nat)
      requires fs.Valid() && inode < MAX_FILES
      modifies fs
      ensures fs.Valid()
      ensures if old(fs.disk).inodes[inode].kind.File? then TruncateResult(old(fs.disk), fs.disk, inode, 0)
              else fs.disk == old(fs.disk)
    {
      AlignedCutIsClean(Contents(fs.disk, fs.disk.inodes[inode]), 0);
      var r := fs.Truncate(inode, 0);
    }

    /** vfs_open once the vnode is held. */
    method OpenHeld(v: nat, flags: Flags, created: bool) returns (p: FilePtr)
      requires v < MAX_VNODES && Holding(multiset{v}) && cache.vnodes[v].inode < MAX_FILES
      modifies this`cache, this`handles, fs
      ensures Valid()
      ensures p.Null? ==> handles == old(handles) && cache.files == old(cache).files
      ensures !p.Null? ==> Opened(old(Ptrs()), old(handles), p) && cache.vnodes == old(cache).vnodes
      ensures HeldFrame(old(cache), cache, p) && (old(KindsRight()) ==> KindsRight())
      ensures HeldOutcome(old(cache), old(fs.disk), cache, fs.disk, v, flags, created, p)
    {
      if cache.vnodes[v].kind == Dir && !flags.mode.ReadOnly? {
        GiveBack(v);
        return Null;
      }
      p := OpenAllowed(v, flags, created);
    }

    method OpenAllowed(v: nat, flags: Flags, created: bool) returns (p: FilePtr)
      requires v < MAX_VNODES && Holding(multiset{v}) && cache.vnodes[v].inode < MAX_FILES
      requires !Refused(cache.vnodes[v].kind, flags)
      modifies this`cache, this`handles, fs
      ensures Valid()
      ensures p.Null? ==> handles == old(handles) && cache.files == old(cache).files
      ensures !p.Null? ==> Opened(old(Ptrs()), old(handles), p) && cache.vnodes == old(cache).vnodes
      ensures HeldFrame(old(cache), cache, p) && (old(KindsRight()) ==> KindsRight())
      ensures HeldOutcome(old(cache), old(fs.disk), cache, fs.disk, v, flags, created, p)
    {
      var inode := cache.vnodes[v].inode;
      TruncateForOpen(inode, cache.vnodes[v].kind, flags, created);
      StillBacked(cache.vnodes, old(fs.disk), fs.disk);
      StillRight(cache.vnodes, old(fs.disk), fs.disk);
      var offset := if flags.append then fs.disk.inodes[inode].size else 0;
      ghost var c, d := cache, fs.disk;
      p := OpenVnode(v, flags, offset);
      AllowedIsHeld(c, old(fs.disk), cache, d, v, flags, created, p);
    }

    method TruncateForOpen(inode: nat, kind: Kind, flags: Flags, created: bool)
      requires fs.Valid() && inode < MAX_FILES
      modifies fs
      ensures fs.Valid() && DirsStay(old(fs.disk), fs.disk) && UsedStay(old(fs.disk), fs.disk)
      ensures if created then fs.disk == old(fs.disk) else TruncatedOrSame(old(fs.disk), fs.disk, inode, kind, flags)
    {
      if flags.trunc && kind == File && !created { TruncateToZero(inode); }
    }

    /** vfs_open of a name that does not exist, with O_CREAT. */
    method OpenNew(path: string, flags: Flags) returns (p: FilePtr)
      requires Valid() && NameFits(path)
      modifies this`cache, this`handles, fs
      ensures Valid()
      ensures p.Null? ==> handles == old(handles) && cache.files == old(cache).files
      ensures !p.Null? ==> Opened(old(Ptrs()), old(handles), p)
      ensures NewOutcome(old(cache), old(fs.disk), cache, fs.disk, path, flags, p)
      ensures OpenFrame(old(cache), cache, old(Ptrs()), p) && (old(KindsRight()) ==> KindsRight())
    {
      var v := CreateForOpen(path);
      if v == -1 { return Null; }
      ghost var c1, d1 := cache, fs.disk;
      p := OpenHeld(v, flags, true);
      HeldIsOpenFrame(old(cache), c1, cache, old(Ptrs()), p);
      HeldIsNew(old(cache), old(fs.disk), c1, d1, cache, fs.disk, path, v, flags, p);
    }

    /** `p` is a new pointer to a file that nothing referred to before. */
    ghost predicate Opened(ptrs: multiset<FilePtr>, held: multiset<FilePtr>, p: FilePtr)
      reads this`cache, this`handles
    {
      && p.Entry? && p.slot < MAX_OPEN_FILES && p !in ptrs && handles == held + multiset{p}
      && |cache.files| == MAX_OPEN_FILES && |cache.vnodes| == MAX_VNODES
      && cache.files[p.slot].ref == 1 && 0 <= cache.files[p.slot].vnode < MAX_VNODES
    }

    /** vfs_lookup as vfs_open uses it: the vnode is the only one held. */
    method LookupForOpen(path: string) returns (v: int)
      requires Valid()
      modifies this`cache
      ensures Conserved(old(cache), Ptrs(), multiset{}) && (old(KindsRight()) ==> KindsRight())
      ensures v == -1 ==> cache == old(cache) && Resolve(fs.disk, path).None?
      ensures v != -1 ==>
              && 0 <= v < MAX_VNODES && Holding(multiset{v}) && Resolve(fs.disk, path) == Some(cache.vnodes[v].inode)
              && Steady(old(cache), cache) && cache.files == old(cache).files && cache.vnodes[v].inode < MAX_FILES
              && cache.vnodes[v].kind == KindSeen(old(cache), fs.disk, cache.vnodes[v].inode)
    {
      v := Lookup(path, multiset{});
      if v != -1 { assert multiset{} + multiset{v} == multiset{v}; }
    }

    /** vfs_open: an open file on the inode the path names, created first if asked and needed. */
    method Open(path: string, flags: Flags) returns (p: FilePtr)
      requires Valid() && NameFits(path)
      modifies this`cache, this`handles, fs
      ensures Valid()
      ensures p.Null? ==> handles == old(handles) && cache.files == old(cache).files
      ensures !p.Null? ==> Opened(old(Ptrs()), old(handles), p)
      ensures OpenOutcome(old(cache), old(fs.disk), cache, fs.disk, path, flags, p)
      ensures OpenFrame(old(cache), cache, old(Ptrs()), p) && (old(KindsRight()) ==> KindsRight())
    {
      var v := LookupForOpen(path);
      if v == -1 {
        p := OpenMissing(path, flags);
      } else {
        p := OpenFound(v, path, flags, old(cache));
      }
    }

    /** vfs_open of a path that led to vnode `v`, `c` being the cache before the lookup. */
    method OpenFound(v: nat, ghost path: string, flags: Flags, ghost c: Cache) returns (p: FilePtr)
      requires v < MAX_VNODES && Holding(multiset{v}) && Resolve(fs.disk, path) == Some(cache.vnodes[v].inode)
      requires Conserved(c, Ptrs(), multiset{}) && Steady(c, cache) && cache.files == c.files
      requires cache.vnodes[v].inode < MAX_FILES && cache.vnodes[v].kind == KindSeen(c, fs.disk, cache.vnodes[v].inode)
      modifies this`cache, this`handles, fs
      ensures Valid()
      ensures p.Null? ==> handles == old(handles)
      ensures !p.Null? ==> Opened(old(Ptrs()), old(handles), p)
      ensures OpenOutcome(c, old(fs.disk), cache, fs.disk, path, flags, p)
      ensures OpenFrame(c, cache, old(Ptrs()), p) && (old(KindsRight()) ==> KindsRight())
    {
      p := OpenExisting(v, flags, c);
      HeldIsOpenFrame(c, old(cache), cache, old(Ptrs()), p);
      ExistingIsOpen(c, old(fs.disk), cache, fs.disk, path, old(cache).vnodes[v].inode, flags, p);
    }

    /** vfs_open of a path that led nowhere. */
    method OpenMissing(path: string, flags: Flags) returns (p: FilePtr)
      requires Valid() && NameFits(path) && Resolve(fs.disk, path).None?
      modifies this`cache, this`handles, fs
      ensures Valid()
      ensures p.Null? ==> handles == old(handles) && cache.files == old(cache).files
      ensures !p.Null? ==> Opened(old(Ptrs()), old(handles), p)
      ensures OpenOutcome(old(cache), old(fs.disk), cache, fs.disk, path, flags, p)
      ensures OpenFrame(old(cache), cache, old(Ptrs()), p) && (old(KindsRight()) ==> KindsRight())
    {
      if !flags.creat {
        NothingIsOpenFrame(cache, Ptrs());
        MissingIsOpen(cache, fs.disk, cache, fs.disk, path, flags, Null);
        return Null;
      }
      p := OpenNew(path, flags);
      MissingIsOpen(old(cache), old(fs.disk), cache, fs.disk, path, flags, p);
    }

    method OpenExisting(v: nat, flags: Flags, ghost c: Cache) returns (p: FilePtr)
      requires v < MAX_VNODES && Holding(multiset{v}) && cache.vnodes[v].inode < MAX_FILES
      requires cache.files == c.files && cache.vnodes[v].kind == KindSeen(c, fs.disk, cache.vnodes[v].inode)
      modifies this`cache, this`handles, fs
      ensures Valid()
      ensures p.Null? ==> handles == old(handles) && cache.files == old(cache).files
      ensures !p.Null? ==> Opened(old(Ptrs()), old(handles), p)
      ensures ExistingOutcome(c, old(fs.disk), cache, fs.disk, old(cache).vnodes[v].inode, flags, p)
      ensures HeldFrame(old(cache), cache, p) && (old(KindsRight()) ==> KindsRight())
    {
      p := OpenHeld(v, flags, false);
      HeldIsExisting(c, old(cache), old(fs.disk), cache, fs.disk, v, old(cache).vnodes[v].inode, flags, p);
    }

    // ------------------------------------------------------------ offsets

    method MoveTo(p: FilePtr, offset: nat)
      requires Valid() && p.Entry? && p in Ptrs()
      modifies this`cache
      ensures Valid() && cache == Moved(old(cache), p, offset)
    {
      MoveConserves(cache, Ptrs(), multiset{}, p.slot, offset);
      cache := SetFile(cache, p.slot, cache.files[p.slot].(offset := offset));
    }

    /** vfs_read: the bytes at the offset, which moves by as many. A console file has no vnode to read from. */
    method FileRead(p: FilePtr, count: nat) returns (n: int, out: seq<Byte>)
      requires Valid() && (p.Entry? ==> p in Ptrs()) && count < TWO_64
      modifies this`cache
      ensures Valid() && cache == Moved(old(cache), p, Advanced(OffsetOf(old(cache), p), n))
      ensures if p.Entry? then ReadOutcome(old(cache), fs.disk, p, count, n, out) else n == -1
      ensures old(KindsRight()) ==> KindsRight()
    {
      if !p.Entry? { return -1, []; }
      n, out := ReadThrough(p, count);
      MoveTo(p, Advanced(OffsetOf(cache, p), n));
    }

    method ReadThrough(p: FilePtr, count: nat) returns (n: int, out: seq<Byte>)
      requires Valid() && p.Entry? && p in Ptrs() && count < TWO_64
      ensures p.slot < MAX_OPEN_FILES && ReadOutcome(cache, fs.disk, p, count, n, out)
    {
      OpenIsBacked(cache, Ptrs(), multiset{}, p.slot);
      var x := cache.files[p.slot];
      if x.flags.mode.WriteOnly? { return -1, []; }
      n, out := fs.Read(cache.vnodes[x.vnode].inode, count, x.offset);
    }

    /** vfs_write: at the offset, or at the end when appending; the offset moves behind what was written. */
    method FileWrite(p: FilePtr, src: seq<Byte>) returns (n: int)
      requires Valid() && (p.Entry? ==> p in Ptrs()) && |src| < TWO_64
      modifies this`cache, fs
      ensures Valid()
      ensures if p.Entry? then WriteOutcome(old(cache), old(fs.disk), cache, fs.disk, p, src, n)
              else n == -1 && cache == old(cache) && fs.disk == old(fs.disk)
      ensures old(KindsRight()) ==> KindsRight()
    {
      if !p.Entry? { return -1; }
      OpenIsBacked(cache, Ptrs(), multiset{}, p.slot);
      var x := cache.files[p.slot];
      if x.flags.mode.ReadOnly? { return -1; }
      var inode := cache.vnodes[x.vnode].inode;
      var at := if x.flags.append then fs.disk.inodes[inode].size else x.offset;
      n := WriteThrough(inode, src, at);
      MoveTo(p, Advanced(at, n));
    }

    method WriteThrough(inode: nat, src: seq<Byte>, at: nat) returns (n: int)
      requires Valid() && inode < MAX_FILES && |src| < TWO_64
      modifies fs
      ensures Valid() && WriteResult(old(fs.disk), fs.disk, inode, src, at, n) && (old(KindsRight()) ==> KindsRight())
    {
      n := fs.Write(inode, src, at);
      StillBacked(cache.vnodes, old(fs.disk), fs.disk);
      StillRight(cache.vnodes, old(fs.disk), fs.disk);
    }

    /** vfs_lseek; an unknown origin is `None`. */
    method FileSeek(p: FilePtr, offset: int, whence: Option<Whence>) returns (r: int)
      requires Valid() && (p.Entry? ==> p in Ptrs())
      modifies this`cache
      ensures Valid()
      ensures var target := SeekTarget(old(cache), fs.disk, p, offset, whence);
              if target < 0 then r == -1 && cache == old(cache)
              else r == target && cache == Moved(old(cache), p, target)
      ensures old(KindsRight()) ==> KindsRight()
    {
      if !p.Entry? { return -1; }
      OpenIsBacked(cache, Ptrs(), multiset{}, p.slot);
      var x := cache.files[p.slot];
      if whence.None? { return -1; }
      var base := SeekBase(x.offset, fs.disk.inodes[cache.vnodes[x.vnode].inode].size, whence.value);
      if base + offset < 0 { return -1; }
      MoveTo(p, base + offset);
      r := base + offset;
    }

    // ------------------------------------------------------------ descriptor tables

    /** fd_table_create followed by fd_init_stdio; -1 when the heap has no `room` for the table. */
    method TableCreate(room: bool) returns (t: int)
      requires Valid()
      modifies this`tables
      ensures Valid() && t == if room then |old(tables)| else -1
      ensures tables == old(tables) + if room then [StdioRow()] else []
    {
      if !room { return -1; }
      NewTableConserves(cache, tables, handles, StdioRow());
      t := |tables|;
      tables := tables + [StdioRow()];
    }

    /** fd_alloc: the lowest unused descriptor, or -1. */
    method FdAlloc(t: nat) returns (fd: int)
      requires t < |tables| && TablesOk()
      ensures -1 <= fd < MAX_FD
      ensures fd >= 0 ==> tables[t][fd].Null? && forall k :: 0 <= k < fd ==> !tables[t][k].Null?
      ensures fd == -1 ==> forall k :: 0 <= k < MAX_FD ==> !tables[t][k].Null?
    {
      for i := 0 to MAX_FD
        invariant forall k :: 0 <= k < i ==> !tables[t][k].Null?
      {
        if tables[t][i].Null? { return i; }
      }
      return -1;
    }

    /** Move a held file pointer into a free descriptor. */
    method Install(t: nat, fd: nat, p: FilePtr)
      requires Valid() && t < |tables| && fd < MAX_FD && tables[t][fd].Null? && p in handles
      modifies this`tables, this`handles
      ensures Valid() && tables == old(tables)[t := old(tables)[t][fd := p]] && handles == old(handles) - multiset{p}
    {
      InstallConserves(cache, tables, handles, t, fd, p);
      tables := tables[t := tables[t][fd := p]];
      handles := handles - multiset{p};
    }

    /** Close one descriptor. */
    method CloseEntry(t: nat, fd: nat)
      requires Valid() && t < |tables| && fd < MAX_FD
      modifies this`cache, this`tables
      ensures Valid() && tables == old(tables)[t := old(tables)[t][fd := Null]]
      ensures cache == UnrefFile(old(cache), old(tables)[t][fd])
      ensures StillOpen(old(cache), cache, Ptrs()) && (old(KindsRight()) ==> KindsRight())
      ensures forall q :: q in Ptrs() && q.Entry? ==> q in old(Ptrs())
    {
      CloseEntryConserves(cache, tables, handles, t, fd);
      UnrefBacked(cache, tables[t][fd], fs.disk);
      UnrefRight(cache, tables[t][fd], fs.disk);
      CloseEntryStillOpen(cache, tables, handles, t, fd);
      FileUnref(tables[t][fd]);
      tables := tables[t := tables[t][fd := Null]];
    }

    /**
     sys_open in a process whose working directory is `cwd`: open and install in the
     lowest free descriptor, or -1 with no new pointer.
     */
    method SysOpen(t: nat, path: string, cwd: string, flags: Flags) returns (fd: int)
      requires Valid() && t < |tables|
      requires var p := Normalize(path, Some(cwd), VFS_MAX_PATH); p.Some? ==> NameFits(p.value)
      modifies this, fs
      ensures Valid() && handles == old(handles)
      ensures if fd == -1 then tables == old(tables) else Installed(old(tables), tables, t, fd)
      ensures var p := Normalize(path, Some(cwd), VFS_MAX_PATH);
              if p.None? || NoFreeFd(old(tables)[t]) then fd == -1 && cache == old(cache) && fs.disk == old(fs.disk)
              else OpenOutcome(old(cache), old(fs.disk), cache, fs.disk, p.value, flags, if fd == -1 then Null
                   else tables[t][fd])
      ensures OpenFrame(old(cache), cache, old(Ptrs()), if fd == -1 then Null else tables[t][fd])
              && (old(KindsRight()) ==> KindsRight())
    {
      NothingIsOpenFrame(cache, Ptrs());
      var p := Path.PathNormalize(path, Some(cwd), VFS_MAX_PATH);
      if p.None? { return -1; }
      fd := FdAlloc(t);
      if fd < 0 { return -1; }
      var ok := OpenAt(t, fd, p.value, flags);
      if !ok { return -1; }
    }

    method OpenAt(t: nat, fd: nat, path: string, flags: Flags) returns (ok: bool)
      requires Valid() && t < |tables| && NameFits(path) && fd < MAX_FD && tables[t][fd].Null? && forall k ::
               0 <= k < fd ==> !tables[t][k].Null?
      modifies this, fs
      ensures Valid() && handles == old(handles)
      ensures if ok then Installed(old(tables), tables, t, fd) else tables == old(tables)
      ensures OpenOutcome(old(cache), old(fs.disk), cache, fs.disk, path, flags, if ok then tables[t][fd] else Null)
      ensures OpenFrame(old(cache), cache, old(Ptrs()), if ok then tables[t][fd] else Null)
              && (old(KindsRight()) ==> KindsRight())
    {
      var p := Open(path, flags);
      ok := !p.Null?;
      if ok { InstallOpened(t, fd, p, old(handles)); }
    }

    method InstallOpened(t: nat, fd: nat, p: FilePtr, ghost held: multiset<FilePtr>)
      requires Valid() && t < |tables| && fd < MAX_FD && tables[t][fd].Null? && handles == held + multiset{p}
      requires p.Entry?
      requires forall k :: 0 <= k < fd ==> !tables[t][k].Null?
      modifies this`tables, this`handles
      ensures Valid() && handles == held && Installed(old(tables), tables, t, fd) && tables[t][fd] == p
    {
      Install(t, fd, p);
      assert held + multiset{p} - multiset{p} == held;
    }

    /** sys_close: descriptors 0 to 2 and unused ones are refused. */
    method SysClose(t: nat, fd: int) returns (r: int)
      requires Valid() && t < |tables|
      modifies this`cache, this`tables
      ensures Valid()
      ensures r == -1 <==> !(3 <= fd < MAX_FD && !old(tables)[t][fd].Null?)
      ensures r == -1 ==> tables == old(tables) && cache == old(cache)
      ensures r != -1 ==> r == 0 && tables == old(tables)[t := old(tables)[t][fd := Null]]
                          && cache == UnrefFile(old(cache), old(tables)[t][fd])
      ensures StillOpen(old(cache), cache, Ptrs()) && (old(KindsRight()) ==> KindsRight())
    {
      NothingIsOpenFrame(cache, Ptrs());
      if fd < 0 || fd >= MAX_FD { return -1; }
      if tables[t][fd].Null? { return -1; }
      if fd < 3 { return -1; }
      CloseEntry(t, fd);
      r := 0;
    }

    /** fd_table_destroy: every descriptor of the table is closed. */
    method TableDestroy(t: nat)
      requires Valid() && t < |tables|
      modifies this`cache, this`tables
      ensures Valid() && |tables| == |old(tables)|
      ensures forall k :: 0 <= k < MAX_FD ==> tables[t][k].Null?
      ensures forall u :: 0 <= u < |tables| && u != t ==> tables[u] == old(tables)[u]
      ensures StillOpen(old(cache), cache, Ptrs()) && (old(KindsRight()) ==> KindsRight())
    {
      NothingIsOpenFrame(cache, Ptrs());
      for i := 0 to MAX_FD
        invariant Valid() && |tables| == |old(tables)|
        invariant forall k :: 0 <= k < i ==> tables[t][k].Null?
        invariant forall u :: 0 <= u < |tables| && u != t ==> tables[u] == old(tables)[u]
        invariant StillOpen(old(cache), cache, Ptrs()) && (old(KindsRight()) ==> KindsRight())
      {
        CloseNext(t, i, old(cache));
      }
    }

    /** Close one more descriptor; whoever still holds a file sees it as in `c`. */
    method CloseNext(t: nat, fd: nat, ghost c: Cache)
      requires Valid() && t < |tables| && fd < MAX_FD && StillOpen(c, cache, Ptrs())
      modifies this`cache, this`tables
      ensures Valid() && tables == old(tables)[t := old(tables)[t][fd := Null]]
      ensures StillOpen(c, cache, Ptrs()) && (old(KindsRight()) ==> KindsRight())
    {
      CloseEntry(t, fd);
      StillOpenTrans(c, old(cache), cache, old(Ptrs()), Ptrs());
    }

    /** One descriptor of fd_table_clone. */
    method CopyEntry(t: nat, fd: nat, u: nat)
      requires Valid() && t < |tables| && u < |tables| && fd < MAX_FD && tables[u][fd].Null? && t != u
      modifies this`cache, this`tables
      ensures Valid() && tables == old(tables)[u := old(tables)[u][fd := old(tables)[t][fd]]]
      ensures cache.vnodes == old(cache).vnodes && SameButRefs(old(cache).files, cache.files)
    {
      EntriesInRange(t, fd);
      CopyEntryConserves(cache, tables, handles, t, fd, u);
      cache := RefFile(cache, tables[t][fd]);
      tables := tables[u := tables[u][fd := tables[t][fd]]];
    }

    /** A descriptor never points outside the open-file table. */
    lemma EntriesInRange(t: nat, fd: nat)
      requires Valid() && t < |tables| && fd < MAX_FD
      ensures tables[t][fd].Entry? ==> tables[t][fd].slot < MAX_OPEN_FILES
    {
      EntryUpdate(tables, t, fd, Null);
      var p := tables[t][fd];
      assert p in Ptrs();
      if p.Entry? { assert Entry(p.slot) in Ptrs(); }
    }

    /** fd_table_create. */
    method EmptyTable(room: bool) returns (u: int)
      requires Valid()
      modifies this`tables
      ensures Valid() && u == (if room then |old(tables)| else -1)
              && tables == old(tables) + if room then [CloneRow([], 0)] else []
    {
      if !room { return -1; }
      u := |tables|;
      NewTableConserves(cache, tables, handles, CloneRow([], 0));
      tables := tables + [CloneRow([], 0)];
    }

    /** fd_table_clone: the same descriptors, each with one more reference. */
    method TableClone(t: nat, room: bool) returns (u: int)
      requires Valid() && t < |tables|
      modifies this`cache, this`tables
      ensures Valid() && u == (if room then |old(tables)| else -1)
              && tables == old(tables) + if room then [old(tables)[t]] else []
      ensures cache.vnodes == old(cache).vnodes && StillOpen(old(cache), cache, old(Ptrs()))
      ensures if room then Rereferenced(old(cache).files, cache.files, old(tables)[t]) else cache == old(cache)
    {
      NothingIsOpenFrame(cache, Ptrs());
      ghost var base := tables;
      u := EmptyTable(room);
      if u == -1 { return; }
      assert CloneRow(base[t], 0) == CloneRow([], 0) && CloneRow(base[t], MAX_FD) == base[t];
      CloneEntries(base, t, u);
      NewTablePtrs(base, base[t]);
      CloneReferences(old(cache), cache, old(Ptrs()), Ptrs(), base[t]);
    }

    method CloneEntries(ghost base: seq<seq<FilePtr>>, t: nat, u: nat)
      requires Valid() && t < u == |base| && |base[t]| == MAX_FD && tables == base + [CloneRow(base[t], 0)]
      modifies this`cache, this`tables
      ensures Valid() && tables == base + [CloneRow(base[t], MAX_FD)]
      ensures cache.vnodes == old(cache).vnodes && SameButRefs(old(cache).files, cache.files)
    {
      ghost var c := cache;
      for i := 0 to MAX_FD
        invariant Valid() && tables == base + [CloneRow(base[t], i)]
        invariant cache.vnodes == c.vnodes && SameButRefs(c.files, cache.files)
      {
        CloneStep(base, t, i, u, c);
      }
    }

    /** One descriptor more, `c` being the cache before the first. */
    method CloneStep(ghost base: seq<seq<FilePtr>>, t: nat, i: nat, u: nat, ghost c: Cache)
      requires Valid() && t < u == |base| && |base[t]| == MAX_FD && i < MAX_FD
      requires tables == base + [CloneRow(base[t], i)]
      requires cache.vnodes == c.vnodes && SameButRefs(c.files, cache.files)
      modifies this`cache, this`tables
      ensures Valid() && tables == base + [CloneRow(base[t], i + 1)]
      ensures cache.vnodes == c.vnodes && SameButRefs(c.files, cache.files)
    {
      CloneRowStep(base[t], i);
      CopyEntry(t, i, u);
    }
  }

  /** vfs_mkdir("/") on a fresh disk succeeds: the root gets an entry named "/", which no path leads to. */
  method EnterRoot() returns (f: FileLayer, r: int)
    ensures f.Valid() && r == 0 && "/" in DirMap(Entries(f.fs.disk, f.fs.disk.inodes[ROOT]))
    ensures SameNames(Formatted(), f.fs.disk)
  {
    f := new FileLayer();
    RootParent();
    r := f.CreatePath("/", Dir);
    assert forall q :: !SamePath(q, "/");
  }
}
