/**
 What a user of the file interface sees: laws that join open, read, write and
 seek, each stated by the bytes that come back.
 */
module VfsLaws {
  import opened Basics
  import opened RamfsSpec
  import opened FileSpec
  import opened TreeSpec
  import opened PathSpec
  import opened HandleSpec
  import opened NameSpec
  import opened Ramfs
  import opened Vfs

  /** `p` is an open file on the regular inode `i`. */
  ghost predicate OnFile(c: Cache, d: Disk, p: FilePtr, i: nat) {
    && Shape(d) && i < MAX_FILES && p.Entry? && p.slot < |c.files| && InodeOf(c, p) == i
    && d.inodes[i].kind.File? && FileOk(d, d.inodes[i])
  }

  ghost function Bytes(d: Disk, i: nat): (r: seq<Byte>)
    requires Shape(d) && i < MAX_FILES
  {
    Contents(d, d.inodes[i])
  }

  /** The first `n` elements, or all. */
  function Prefix(s: seq<Byte>, n: nat): seq<Byte> { if n < |s| then s[..n] else s }

  // ---------------------------------------------------------------- seek

  /** The three origins: the beginning, the place where the file stands, and the end of the file. */
  lemma SeekOrigins(c: Cache, d: Disk, p: FilePtr, i: nat, k: int)
    requires OnFile(c, d, p, i)
    ensures SeekTarget(c, d, p, k, Some(Set)) == k
    ensures SeekTarget(c, d, p, k, Some(Current)) == OffsetOf(c, p) + k
    ensures SeekTarget(c, d, p, k, Some(End)) == |Bytes(d, i)| + k
    ensures SeekTarget(c, d, p, k, None) < 0
  {
  }

  /** A read after a seek to `at` gives the bytes from `at` on, as far as the file goes. */
  lemma SeekThenRead(c: Cache, d: Disk, p: FilePtr, i: nat, at: nat, count: nat, n: int, out: seq<Byte>)
    requires OnFile(c, d, p, i) && !c.files[p.slot].flags.mode.WriteOnly? && at + count < TWO_64
    requires ReadOutcome(Moved(c, p, SeekTarget(c, d, p, at, Some(Set))), d, p, count, n, out)
    ensures n == |out| && out == if at >= |Bytes(d, i)| then [] else Prefix(Bytes(d, i)[at..], count)
  {
  }

  /** A seek to the end by zero leads to the size of the file, where a read of any length returns nothing. */
  lemma SeekToEnd(c: Cache, d: Disk, p: FilePtr, i: nat, count: nat, n: int, out: seq<Byte>)
    requires OnFile(c, d, p, i) && !c.files[p.slot].flags.mode.WriteOnly?
    requires ReadOutcome(Moved(c, p, SeekTarget(c, d, p, 0, Some(End))), d, p, count, n, out)
    ensures SeekTarget(c, d, p, 0, Some(End)) == |Bytes(d, i)| && n == 0 && out == []
  {
  }

  /** Seeking back by what was read restores the state before the read. */
  lemma SeekBack(c: Cache, d: Disk, p: FilePtr, i: nat, count: nat, n: int, out: seq<Byte>)
    requires OnFile(c, d, p, i) && !c.files[p.slot].flags.mode.WriteOnly? && ReadOutcome(c, d, p, count, n, out)
    ensures var c1 := Moved(c, p, Advanced(OffsetOf(c, p), n));
            var to := SeekTarget(c1, d, p, -n, Some(Current));
            to == OffsetOf(c, p) && Moved(c1, p, to) == c
  {
    assert Moved(Moved(c, p, OffsetOf(c, p) + n), p, OffsetOf(c, p)).files == c.files;
  }

  // ---------------------------------------------------------------- several reads, several writes

  lemma SlicesAdd(s: seq<Byte>, at: nat, a: nat, b: nat)
    ensures Slice(s, at, a) + Slice(s, at + |Slice(s, at, a)|, b) == Slice(s, at, a + b)
  {
  }

  /** Two reads in a row return what one read of both lengths would. */
  lemma ReadsAdd(c: Cache, d: Disk, p: FilePtr, i: nat, a: nat, b: nat, n: int, out: seq<Byte>, m: int, more: seq<Byte>)
    requires OnFile(c, d, p, i) && !c.files[p.slot].flags.mode.WriteOnly? && OffsetOf(c, p) + a + b < TWO_64
    requires ReadOutcome(c, d, p, a, n, out)
    requires ReadOutcome(Moved(c, p, Advanced(OffsetOf(c, p), n)), d, p, b, m, more)
    ensures out + more == Slice(Bytes(d, i), OffsetOf(c, p), a + b)
  {
    SlicesAdd(Bytes(d, i), OffsetOf(c, p), a, b);
    assert out == Slice(Bytes(d, i), OffsetOf(c, p), a);
    assert more == Slice(Bytes(d, i), OffsetOf(c, p) + |out|, b);
  }

  lemma WrittenTwice(s: seq<Byte>, at: nat, a: seq<Byte>, b: seq<Byte>)
    ensures Written(Written(s, at, a), at + |a|, b) == Written(s, at, a + b)
  {
  }

  /** Two complete writes in a row are one write of both texts. */
  lemma WritesAdd(c: Cache, d: Disk, c1: Cache, d1: Disk, c2: Cache, d2: Disk, p: FilePtr, i: nat, a: seq<Byte>,
      b: seq<Byte>)
    requires OnFile(c, d, p, i) && !c.files[p.slot].flags.mode.ReadOnly? && !c.files[p.slot].flags.append
    requires WriteOutcome(c, d, c1, d1, p, a, |a|) && WriteOutcome(c1, d1, c2, d2, p, b, |b|)
    ensures Shape(d2) && Bytes(d2, i) == Written(Bytes(d, i), OffsetOf(c, p), a + b)
    ensures OffsetOf(c2, p) == OffsetOf(c, p) + |a| + |b|
  {
    assert a[..|a|] == a && b[..|b|] == b;
    WrittenTwice(Bytes(d, i), OffsetOf(c, p), a, b);
  }

  lemma WrittenAtEnd(s: seq<Byte>, data: seq<Byte>)
    ensures Written(s, |s|, data) == s + data
  {
  }

  /** A file opened for appending grows at its end, wherever it stands. */
  lemma AppendsAtEnd(c: Cache, d: Disk, c1: Cache, d1: Disk, p: FilePtr, i: nat, src: seq<Byte>, n: int)
    requires OnFile(c, d, p, i) && !c.files[p.slot].flags.mode.ReadOnly? && c.files[p.slot].flags.append
    requires WriteOutcome(c, d, c1, d1, p, src, n)
    ensures 0 <= n <= |src| && Shape(d1) && Bytes(d1, i) == Bytes(d, i) + src[..n]
    ensures OffsetOf(c1, p) == if n > 0 then |Bytes(d1, i)| else |Bytes(d, i)|
  {
    WrittenAtEnd(Bytes(d, i), src[..n]);
  }

  // ---------------------------------------------------------------- open

  /**
   Opening an existing regular file while the kinds are right and a file slot is
   free: it succeeds whatever the access mode, O_TRUNC empties the file and
   nothing else is touched, and without O_TRUNC the disk is as before.
   */
  lemma OpenRegular(c: Cache, d: Disk, c1: Cache, d1: Disk, path: string, flags: Flags, p: FilePtr, i: nat)
    requires OpenOutcome(c, d, c1, d1, path, flags, p) && Tree(d) && Files(d) && RightKinds(c.vnodes, d)
    requires Resolve(d, path) == Some(i) && i < MAX_FILES && d.inodes[i].kind.File? && !FilesFull(c.files)
    ensures !p.Null? && InodeOf(c1, p) == i && p.slot < |c1.files| && c1.files[p.slot].flags == flags
    ensures !flags.trunc ==> d1 == d
    ensures flags.trunc ==> Shape(d1) && Bytes(d1, i) == [] && OthersSame(d, d1, i)
    ensures OffsetOf(c1, p) == if flags.append && !flags.trunc then |Bytes(d, i)| else 0
  {
    RightKindSeen(c, d, i);
  }

  /** A directory opens for reading only. */
  lemma OpenDirectory(c: Cache, d: Disk, c1: Cache, d1: Disk, path: string, flags: Flags, p: FilePtr, i: nat)
    requires OpenOutcome(c, d, c1, d1, path, flags, p) && Tree(d) && RightKinds(c.vnodes, d)
    requires Resolve(d, path) == Some(i) && i < MAX_FILES && d.inodes[i].kind.Dir? && !FilesFull(c.files)
    ensures d1 == d && (p.Null? <==> flags.mode.WriteOnly? || flags.mode.ReadWrite?)
    ensures !p.Null? ==> InodeOf(c1, p) == i && OffsetOf(c1, p) == if flags.append then d.inodes[i].size else 0
  {
    RightKindSeen(c, d, i);
  }

  /** Open, then read: the first bytes of the file. */
  lemma OpenThenRead(c: Cache, d: Disk, c1: Cache, d1: Disk, path: string, flags: Flags, p: FilePtr, i: nat,
      count: nat, n: int, out: seq<Byte>)
    requires OpenOutcome(c, d, c1, d1, path, flags, p) && Tree(d) && Files(d) && RightKinds(c.vnodes, d)
    requires Resolve(d, path) == Some(i) && i < MAX_FILES && d.inodes[i].kind.File? && !FilesFull(c.files)
    requires !flags.trunc && !flags.append && !flags.mode.WriteOnly? && count < TWO_64
    requires ReadOutcome(c1, d1, p, count, n, out)
    ensures n == |out| && out == Prefix(Bytes(d, i), count)
  {
    OpenRegular(c, d, c1, d1, path, flags, p, i);
  }

  /** A write at the start of an empty file. */
  lemma WriteToEmpty(c: Cache, d: Disk, c1: Cache, d1: Disk, p: FilePtr, i: nat, src: seq<Byte>, n: int)
    requires WriteOutcome(c, d, c1, d1, p, src, n) && p.Entry? && p.slot < |c.files| && InodeOf(c, p) == i < MAX_FILES
    requires !c.files[p.slot].flags.mode.ReadOnly? && OffsetOf(c, p) == 0 && Bytes(d, i) == []
    requires d.inodes[i].kind.File?
    ensures 0 <= n <= |src| && Shape(d1) && Bytes(d1, i) == src[..n] && OthersSame(d, d1, i)
    ensures n < |src| ==> n == MAX_SIZE || Full(d1)
  {
    WrittenAtEnd([], src[..n]);
    assert [] + src[..n] == src[..n];
  }

  /** Open with O_TRUNC, then write: the file is what was written, and no other file changed. */
  lemma OpenThenOverwrite(c: Cache, d: Disk, c1: Cache, d1: Disk, c2: Cache, d2: Disk, path: string, flags: Flags,
      p: FilePtr, i: nat, src: seq<Byte>, n: int)
    requires OpenOutcome(c, d, c1, d1, path, flags, p) && Tree(d) && Files(d) && RightKinds(c.vnodes, d)
    requires Resolve(d, path) == Some(i) && i < MAX_FILES && d.inodes[i].kind.File? && !FilesFull(c.files)
    requires flags.trunc && !flags.mode.ReadOnly? && WriteOutcome(c1, d1, c2, d2, p, src, n)
    ensures 0 <= n <= |src| && Shape(d2) && Bytes(d2, i) == src[..n] && OthersSame(d, d2, i)
    ensures n < |src| ==> n == MAX_SIZE || Full(d2)
  {
    OpenRegular(c, d, c1, d1, path, flags, p, i);
    WriteToEmpty(c1, d1, c2, d2, p, i, src, n);
  }

  /** Open with O_CREAT where nothing is: the path now names a new, empty regular file, which is open at its start. */
  lemma CreateOpens(c: Cache, d: Disk, c1: Cache, d1: Disk, path: string, flags: Flags, p: FilePtr)
    requires OpenOutcome(c, d, c1, d1, path, flags, p) && Tree(d) && Resolve(d, path) == None && flags.creat
    requires !p.Null?
    ensures Shape(d1) && Resolve(d1, path).Some? && Resolve(d1, path).value < MAX_FILES
    ensures var i := Resolve(d1, path).value;
            && d.inodes[i].kind.Unused? && d1.inodes[i].kind.File? && Bytes(d1, i) == [] && OthersSame(d, d1, i)
            && p.Entry? && p.slot < |c1.files| && InodeOf(c1, p) == i && c1.files[p.slot].flags == flags
            && OffsetOf(c1, p) == 0
  {
    var i :| CreatedBy(d, d1, path, i) && CreatedOutcome(c, c1, d1, i, flags, p);
    ResultNames(d, d1, path, File, i);
    CreatedHere(d, d1, path, i);
  }

  /** Open with O_CREAT where nothing is, then write: the path names a regular file that is what was written. */
  lemma CreateThenWrite(c: Cache, d: Disk, c1: Cache, d1: Disk, c2: Cache, d2: Disk, path: string, flags: Flags,
      p: FilePtr, src: seq<Byte>, n: int)
    requires OpenOutcome(c, d, c1, d1, path, flags, p) && Tree(d) && Resolve(d, path) == None && flags.creat
    requires !p.Null? && !flags.mode.ReadOnly? && WriteOutcome(c1, d1, c2, d2, p, src, n)
    ensures Shape(d1) && Resolve(d1, path).Some? && Resolve(d1, path).value < MAX_FILES
    ensures var i := Resolve(d1, path).value;
            && d.inodes[i].kind.Unused? && d1.inodes[i].kind.File? && Shape(d2)
            && 0 <= n <= |src| && Bytes(d2, i) == src[..n] && OthersSame(d, d1, i) && OthersSame(d1, d2, i)
  {
    CreateOpens(c, d, c1, d1, path, flags, p);
    WriteToEmpty(c1, d1, c2, d2, p, Resolve(d1, path).value, src, n);
  }

  lemma CreatedHere(d: Disk, d1: Disk, path: string, i: nat)
    requires Tree(d) && CreatedBy(d, d1, path, i) && Resolve(d, path) == None
    ensures Shape(d1) && Resolve(d1, path) == Some(i)
  {
    RootIsCanonical();
    assert Normalize(path, Some("/"), VFS_MAX_PATH).Some?;
    assert Comps("/", 0) == [] by { assert Comps("/", 1) == []; }
  }

  // ---------------------------------------------------------------- names

  /** The normal form of `path` is below the root. */
  predicate BelowRoot(path: string) {
    var p := Normalize(path, Some("/"), VFS_MAX_PATH);
    p.Some? && p.value != "/"
  }

  /** A path leads where its name leads in the directory that its parent path leads to. */
  lemma ResolveByParent(d: Disk, path: string)
    requires Tree(d) && BelowRoot(path)
    ensures match ParentOf(d, path)
            case None => Resolve(d, path) == None
            case Some((dir, name)) => dir < MAX_FILES && Resolve(d, path) == Lookup(d, dir, name) && Regular(name)
  {
    var p := Normalize(path, Some("/"), VFS_MAX_PATH).value;
    RootIsCanonical();
    NormalizeIsCanonical(path, Some("/"), VFS_MAX_PATH);
    ParentParts(p);
    ParentDecides(d, p);
  }

  lemma ParentDecides(d: Disk, p: string)
    requires Tree(d) && Canonical(p) && |p| < VFS_MAX_PATH && p != "/" && Dirname(p, VFS_MAX_PATH).Some?
    ensures var u := Resolve(d, Dirname(p, VFS_MAX_PATH).value);
            && (u.Some? ==> u.value < MAX_FILES)
            && Walk(d, ROOT, Comps(p, 0)) == if u.None? || |Basename(p)| >= MAX_FILENAME then None
                                             else Lookup(d, u.value, Basename(p))
  {
    ParentParts(p);
    WalkInit(d, Comps(p, 0));
    if Resolve(d, Dirname(p, VFS_MAX_PATH).value).Some? { ResolveReaches(d, Dirname(p, VFS_MAX_PATH).value); }
  }

  lemma ParentParts(p: string)
    requires Canonical(p) && |p| < VFS_MAX_PATH && p != "/"
    ensures var a := Comps(p, 0);
            && a != [] && Basename(p) == a[|a| - 1] && Regular(Basename(p))
            && Dirname(p, VFS_MAX_PATH) == Some(Render(a[..|a| - 1])) && AllRegular(a[..|a| - 1])
            && Normalize(Render(a[..|a| - 1]), Some("/"), VFS_MAX_PATH) == Some(Render(a[..|a| - 1]))
            && Comps(Render(a[..|a| - 1]), 0) == a[..|a| - 1]
  {
    var a := Comps(p, 0);
    var init, last := a[..|a| - 1], a[|a| - 1];
    assert a == init + [last];
    SplitOfJoin(init, last, VFS_MAX_PATH);
    RenderIsCanonical(init);
    CompsOfRender(init);
    ChainGrows(init, [last]);
    NormalizeKeepsCanonical(Render(init), Some("/"), VFS_MAX_PATH);
  }

  /** Nothing but the way up can be looked up in inode `i`. */
  ghost predicate Barren(d: Disk, i: nat)
    requires Shape(d) && i < MAX_FILES
  {
    forall x: string :: x != ".." ==> Lookup(d, i, x) == None
  }

  lemma {:induction false} SomeUsed(es: seq<Dirent>)
    requires Tally(es, false) > 0
    ensures exists p :: 0 <= p < |es| && InUse(es[p])
  {
    var n := |es| - 1;
    if !InUse(es[n]) {
      SomeUsed(es[..n]);
      var p :| 0 <= p < |es[..n]| && InUse(es[..n][p]);
      assert InUse(es[p]);
    }
  }

  /** The size of a directory says whether anything is in it. */
  lemma SizeOfEmpty(d: Disk, i: nat)
    requires Tree(d) && i < MAX_FILES && d.inodes[i].kind.Dir?
    ensures d.inodes[i].size == 0 <==> Barren(d, i)
  {
    var es := Entries(d, d.inodes[i]);
    assert DirOk(d.inodes, i, es);
    if Tally(es, false) > 0 {
      SomeUsed(es);
      var p :| 0 <= p < |es| && InUse(es[p]);
      assert ChildOk(d.inodes, i, es[p]);
      assert Lookup(d, i, es[p].name).Some? && es[p].name != "..";
    } else {
      forall x: string | x != ".." ensures Lookup(d, i, x) == None {
        var q := FindName(es, x, 0);
        if q < |es| { TallyPositive(es, q, false); }
      }
    }
  }

  /** vfs_unlink succeeds exactly for a path that leads somewhere, unless it leads to a directory with a name in it. */
  lemma UnlinkIff(d: Disk, d': Disk, path: string, r: int)
    requires Tree(d) && BelowRoot(path)
    requires match ParentOf(d, path)
             case None => r == -1
             case Some((dir, name)) => UnlinkResult(d, d', dir, name, r)
    ensures r == 0 <==>
            && Resolve(d, path).Some? && Resolve(d, path).value < MAX_FILES
            && (d.inodes[Resolve(d, path).value].kind.Dir? ==> Barren(d, Resolve(d, path).value))
  {
    ResolveByParent(d, path);
    if ParentOf(d, path).Some? && Resolve(d, path).Some? && Resolve(d, path).value < MAX_FILES {
      if d.inodes[Resolve(d, path).value].kind.Dir? { SizeOfEmpty(d, Resolve(d, path).value); }
    }
  }

  /** Nothing is created over a path that leads somewhere. */
  lemma NoOverwrite(d: Disk, d': Disk, path: string, kind: Kind, r: int)
    requires Tree(d) && BelowRoot(path) && Resolve(d, path).Some? && CreatePathResult(d, d', path, kind, r)
    ensures r == -1
  {
    ResolveByParent(d, path);
  }

  /** Creating a name and unlinking it again leaves every path leading where it led. */
  lemma UnlinkUndoesCreate(d: Disk, d1: Disk, d2: Disk, path: string, c: nat)
    requires Shape(d) && Shape(d1) && Shape(d2) && Resolve(d, path) == None
    requires NamesAfter(d, d1, path, Some(c)) && NamesAfter(d1, d2, path, None)
    ensures SameNames(d, d2)
  {
    forall q ensures Resolve(d2, q) == Resolve(d, q) {
      assert Resolve(d1, q) == if SamePath(q, path) then Some(c) else Resolve(d, q);
    }
  }
}
