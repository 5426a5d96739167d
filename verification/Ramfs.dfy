/**
 kernel/fs/ramfs.c and the RAMFS half of kernel/fs/vfs.c, operating in place on the RAM disk.
 Inode pointers are inode numbers; -1 is the source's error return.
 */
module Ramfs {
  import opened Basics
  import opened RamfsSpec
  import opened FileSpec
  import opened TreeSpec
  import opened PathSpec
  import opened Counting

  /** Only inode `i` changed, and not in kind, links or parent. */
  ghost predicate OnlyInode(d: Disk, d': Disk, i: nat) {
    && Shape(d) && Shape(d') && i < MAX_FILES
    && d'.inodeMap == d.inodeMap && d'.freeInodes == d.freeInodes
    && (forall j :: 0 <= j < MAX_FILES && j != i ==> d'.inodes[j] == d.inodes[j])
    && (forall j :: 0 <= j < MAX_FILES && j != i ==> SameImages(d, d', j))
    && d'.inodes[i].kind == d.inodes[i].kind && d'.inodes[i].links == d.inodes[i].links
        && d'.inodes[i].parent == d.inodes[i].parent
  }

  /** Inode `i` may have more blocks than before, but looks the same. */
  ghost predicate Grown(d: Disk, d': Disk, i: nat) {
    && OnlyInode(d, d', i) && SameImages(d, d', i)
    && d'.inodes[i] == d.inodes[i].(blocks := d'.inodes[i].blocks, blockCount := d'.inodes[i].blockCount)
  }

  /** The bytes of inode `i` at `at` became `data`; its record kept all but its blocks. */
  ghost predicate WroteAt(d: Disk, d': Disk, i: nat, at: nat, data: seq<Byte>) {
    && OnlyInode(d, d', i)
    && d'.inodes[i] == d.inodes[i].(blocks := d'.inodes[i].blocks, blockCount := d'.inodes[i].blockCount)
    && at + |data| <= MAX_SIZE
    && Image(d', d'.inodes[i]) == Splice(Image(d, d.inodes[i]), at, data)
  }

  lemma WroteNothing(d: Disk, i: nat, at: nat)
    requires Shape(d) && i < MAX_FILES && at <= MAX_SIZE
    ensures WroteAt(d, d, i, at, [])
  {
  }

  lemma WroteTwice(d: Disk, d1: Disk, d2: Disk, i: nat, at: nat, a: seq<Byte>, b: seq<Byte>)
    requires WroteAt(d, d1, i, at, a) && WroteAt(d1, d2, i, at + |a|, b)
    ensures WroteAt(d, d2, i, at, a + b)
  {
    SpliceTwice(Image(d, d.inodes[i]), at, a, b);
    forall j | 0 <= j < MAX_FILES && j != i ensures SameImages(d, d2, j) {
      assert SameImages(d, d1, j) && SameImages(d1, d2, j);
    }
  }

  lemma WroteMore(d: Disk, d1: Disk, d2: Disk, i: nat, at: nat, src: seq<Byte>, n: nat, m: nat)
    requires n <= m <= |src| && WroteAt(d, d1, i, at, src[..n]) && WroteAt(d1, d2, i, at + n, src[n..m])
    ensures WroteAt(d, d2, i, at, src[..m])
  {
    WroteTwice(d, d1, d2, i, at, src[..n], src[n..m]);
    assert src[..n] + src[n..m] == src[..m];
  }

  ghost predicate Full(d: Disk) {
    forall b :: DATA_START <= b < |d.blockMap| ==> d.blockMap[b]
  }

  lemma FileOpKeepsTree(d: Disk, d': Disk, i: nat)
    requires Tree(d) && OnlyInode(d, d', i) && d.inodes[i].kind.File?
    ensures Tree(d')
  {
    forall j | 0 <= j < MAX_FILES && d'.inodes[j].kind.Dir? ensures DirOk(d'.inodes, j, Entries(d', d'.inodes[j])) {
      var es := Entries(d, d.inodes[j]);
      assert DirOk(d.inodes, j, es) && SameImages(d, d', j);
      forall p | 0 <= p < |es| && InUse(es[p]) ensures ChildOk(d'.inodes, j, es[p]) {
        assert ChildOk(d.inodes, j, es[p]);
      }
    }
  }

  lemma FileOpKeepsFiles(d: Disk, d': Disk, i: nat)
    requires Shape(d) && Files(d) && OnlyInode(d, d', i) && FileOk(d', d'.inodes[i])
    ensures Files(d')
  {
    forall j | 0 <= j < MAX_FILES && j != i && d'.inodes[j].kind.File? ensures FileOk(d', d'.inodes[j]) {
      SameContents(d, d', j);
    }
  }

  /** Every file but `i` has the bytes it had. */
  ghost predicate OthersSame(d: Disk, d': Disk, i: nat) {
    && Shape(d) && Shape(d')
    && forall j :: 0 <= j < MAX_FILES && j != i && d.inodes[j].kind.File? ==>
         Contents(d', d'.inodes[j]) == Contents(d, d.inodes[j])
  }

  lemma OnlyInodeKeepsOthers(d: Disk, d': Disk, i: nat)
    requires Shape(d) && Files(d) && OnlyInode(d, d', i)
    ensures OthersSame(d, d', i)
  {
    forall j | 0 <= j < MAX_FILES && j != i && d.inodes[j].kind.File?
      ensures Contents(d', d'.inodes[j]) == Contents(d, d.inodes[j])
    {
      SameContents(d, d', j);
    }
  }

  /** A record edit after a write is still a change of one inode only. */
  lemma OnlyInodeEdit(d: Disk, d1: Disk, own1: Owner, i: nat, x: Inode)
    requires OnlyInode(d, d1, i) && Core(d1, own1) && !d1.inodes[i].kind.Unused?
    requires x == d1.inodes[i].(size := x.size)
    ensures Core(SetInode(d1, i, x), own1) && OnlyInode(d, SetInode(d1, i, x), i)
    ensures Image(SetInode(d1, i, x), x) == Image(d1, d1.inodes[i])
  {
    EditCore(d1, own1, i, x);
    var d2 := SetInode(d1, i, x);
    forall j | 0 <= j < MAX_FILES && j != i ensures SameImages(d, d2, j) {
      assert SameImages(d, d1, j) && SameImages(d1, d2, j);
    }
    assert SameImages(d1, d2, i);
  }

  /** Writing and then recording the new size keeps every invariant. */
  lemma FinishWrite(d: Disk, d1: Disk, own1: Owner, i: nat, at: nat, data: seq<Byte>, x: Inode)
    requires Files(d) && Tree(d) && Core(d1, own1)
    requires WroteAt(d, d1, i, at, data) && d.inodes[i].kind.File?
    requires x == d1.inodes[i].(size := Max(d1.inodes[i].size, at + |data|))
    ensures var d2 := SetInode(d1, i, x);
            && Core(d2, own1) && Files(d2) && Tree(d2) && OnlyInode(d, d2, i) && OthersSame(d, d2, i)
            && Contents(d2, x) == Written(Contents(d, d.inodes[i]), at, data)
  {
    var d2 := SetInode(d1, i, x);
    OnlyInodeEdit(d, d1, own1, i, x);
    SpliceIsWrite(d, d.inodes[i], d2, x, at, data);
    FileOpKeepsTree(d, d2, i);
    FileOpKeepsFiles(d, d2, i);
    OnlyInodeKeepsOthers(d, d2, i);
  }

  /** What ramfs_write does to the disk and returns. */
  ghost predicate WriteResult(d: Disk, d': Disk, i: nat, src: seq<Byte>, offset: nat, n: int) {
    && Shape(d) && Shape(d') && i < MAX_FILES
    && if !d.inodes[i].kind.File? || offset > MAX_SIZE then n == -1 && d' == d
       else
         && 0 <= n <= Min(|src|, MAX_SIZE - offset)
         && OnlyInode(d, d', i) && OthersSame(d, d', i)
         && Contents(d', d'.inodes[i]) == Written(Contents(d, d.inodes[i]), offset, src[..n])
         && (n < Min(|src|, MAX_SIZE - offset) ==> Full(d') && d'.inodes[i].blocks[(offset + n) / BLOCK_SIZE] == 0)
  }

  /** Clamping the request to the largest file size changes nothing. */
  lemma ClampedWrite(d: Disk, d': Disk, i: nat, src: seq<Byte>, offset: nat, n: int, count: nat)
    requires offset <= MAX_SIZE && (count == |src| || count == Min(|src|, MAX_SIZE - offset))
    requires WriteResult(d, d', i, src[..count], offset, n) && d.inodes[i].kind.File?
    ensures WriteResult(d, d', i, src, offset, n)
  {
  }

  /** Truncation of file `i` to `n` bytes: contents resized, other files and the tree untouched. */
  ghost predicate TruncateResult(d: Disk, d': Disk, i: nat, n: nat) {
    && OnlyInode(d, d', i) && OthersSame(d, d', i)
    && d'.inodes[i].size == n
    && Contents(d', d'.inodes[i]) == Resized(Contents(d, d.inodes[i]), n)
  }

  /** Everything ramfs_truncate promises, and when the zero tail survives it. */
  ghost predicate TruncateOutcome(d: Disk, d': Disk, own': Owner, i: nat, n: nat) {
    && Core(d', own') && Tree(d') && TruncateResult(d, d', i, n)
    && (Files(d') <==> CleanCut(Contents(d, d.inodes[i]), n))
    && Regrows(d', d'.inodes[i], Contents(d, d.inodes[i]), n)
  }

  lemma CutIsOnlyInode(d: Disk, own: Owner, d': Disk, own': Owner, i: nat, s: nat)
    requires Core(d, own) && Core(d', own') && i < MAX_FILES && CutAt(d, d', i, s)
    ensures OnlyInode(d, d', i)
  {
  }

  lemma FinishShrink(d: Disk, own: Owner, d1: Disk, own1: Owner, i: nat, n: nat, x: Inode)
    requires Core(d, own) && Files(d) && Tree(d) && Core(d1, own1) && i < MAX_FILES && d.inodes[i].kind.File?
    requires n < d.inodes[i].size && CutAt(d, d1, i, BlocksFor(n)) && x == d1.inodes[i].(size := n)
    ensures TruncateOutcome(d, SetInode(d1, i, x), own1, i, n)
  {
    var d2 := SetInode(d1, i, x);
    CutIsOnlyInode(d, own, d1, own1, i, BlocksFor(n));
    OnlyInodeEdit(d, d1, own1, i, x);
    CutImages(d, d1, i, BlocksFor(n));
    forall k | 0 <= k < MAX_SIZE ensures ByteAt(d2, x, k) == ByteAt(d1, d1.inodes[i], k) {
      assert Image(d2, x)[k] == Image(d1, d1.inodes[i])[k];
    }
    ShrinkResult(d, d.inodes[i], d2, x, n);
    FileOpKeepsTree(d, d2, i);
    OnlyInodeKeepsOthers(d, d2, i);
    if TailZero(d2, x) { FileOpKeepsFiles(d, d2, i); }
  }

  lemma FinishGrow(d: Disk, own: Owner, i: nat, n: nat, x: Inode)
    requires Core(d, own) && Files(d) && Tree(d) && i < MAX_FILES && d.inodes[i].kind.File?
    requires d.inodes[i].size <= n <= MAX_SIZE && x == d.inodes[i].(size := n)
    ensures TruncateOutcome(d, SetInode(d, i, x), own, i, n)
  {
    var d2 := SetInode(d, i, x);
    OnlyInodeEdit(d, d, own, i, x);
    GrowResult(d, d.inodes[i], n);
    assert FileOk(d2, x) && Contents(d2, x) == Contents(d, x) by {
      assert Image(d2, x) == Image(d, x);
      forall k | 0 <= k < MAX_SIZE ensures ByteAt(d2, x, k) == ByteAt(d, x, k) {
        assert Image(d2, x)[k] == Image(d, x)[k];
      }
    }
    FileOpKeepsTree(d, d2, i);
    FileOpKeepsFiles(d, d2, i);
    OnlyInodeKeepsOthers(d, d2, i);
  }

  /** Search one directory block for a name. */
  method ScanForName(block: seq<Dirent>, name: string) returns (j: nat)
    ensures j == FindName(block, name, 0)
  {
    j := 0;
    while j < |block|
      invariant j <= |block| && FindName(block, name, 0) == FindName(block, name, j)
    {
      if block[j].inode != 0 && block[j].name == name { return; }
      j := j + 1;
    }
  }

  /** Search one directory block for an unused entry. */
  method ScanForFree(block: seq<Dirent>) returns (j: nat)
    ensures j == FindFree(block, 0)
  {
    j := 0;
    while j < |block|
      invariant j <= |block| && FindFree(block, 0) == FindFree(block, j)
    {
      if block[j].inode == 0 { return; }
      j := j + 1;
    }
  }

  /** Length of the path component at `p`; -1 when it does not fit the 60-byte component buffer. */
  method ComponentLength(path: string, p: nat) returns (len: int)
    requires p < |path|
    ensures len == if CompEnd(path, p) - p >= MAX_FILENAME then -1 else CompEnd(path, p) - p
  {
    len := 0;
    while p + len < |path| && path[p + len] != '/'
      invariant 0 <= len < MAX_FILENAME && p + len <= |path|
      invariant CompEnd(path, p + len) == CompEnd(path, p)
    {
      if len >= MAX_FILENAME - 1 { return -1; }
      len := len + 1;
    }
  }

  /** Slot `p` of directory `i` became `e` and its size `size`; nothing else is visible. */
  ghost predicate EntryPut(d: Disk, d': Disk, i: nat, p: nat, e: Dirent, size: int) {
    && OnlyInode(d, d', i) && p < MAX_ENTRIES
    && d'.inodes[i].size == size
    && Entries(d', d'.inodes[i]) == Entries(d, d.inodes[i])[p := e]
  }

  lemma EntryPutAfterGrowth(d: Disk, d1: Disk, d2: Disk, i: nat, p: nat, e: Dirent, size: int)
    requires Grown(d, d1, i) && EntryPut(d1, d2, i, p, e, size)
    ensures EntryPut(d, d2, i, p, e, size)
  {
    forall j | 0 <= j < MAX_FILES && j != i ensures SameImages(d, d2, j) {
      assert SameImages(d, d1, j) && SameImages(d1, d2, j);
    }
    assert SameImages(d, d1, i);
  }

  /** Why a name cannot be added to a directory. */
  ghost predicate AddFails(d: Disk, i: nat, name: string)
    requires Shape(d) && i < MAX_FILES
  {
    var p := FindFree(Entries(d, d.inodes[i]), 0);
    || !d.inodes[i].kind.Dir?
    || name == "" || |name| >= MAX_FILENAME
    || Lookup(d, i, name).Some?
    || p == MAX_ENTRIES
    || (d.inodes[i].blocks[p / PER_BLOCK] == 0 && Full(d))
  }

  // ---------------------------------------------------------------- create

  /** Inode `c` has been allocated and knows its directory. */
  ghost function Placed(d: Disk, dir: nat, c: nat, kind: Kind): Disk
    requires Shape(d) && dir < MAX_FILES && c < MAX_FILES && d.freeInodes > 0
  {
    var d1 := NewInode(d, c, kind);
    SetInode(d1, c, d1.inodes[c].(parent := dir, links := if kind.Dir? then 2 else 1))
  }

  /** The disk after a new inode `c` has been set up for directory `dir`, before its name is entered. */
  ghost function Prepared(d: Disk, dir: nat, c: nat, kind: Kind): Disk
    requires Shape(d) && dir < MAX_FILES && c < MAX_FILES && d.freeInodes > 0
  {
    var d2 := Placed(d, dir, c, kind);
    if kind.Dir? then SetInode(d2, dir, d2.inodes[dir].(links := d2.inodes[dir].links + 1)) else d2
  }

  lemma PreparedRecords(d: Disk, dir: nat, c: nat, kind: Kind)
    requires Shape(d) && dir < MAX_FILES && c < MAX_FILES && dir != c && d.freeInodes > 0
    ensures var d3 := Prepared(d, dir, c, kind);
            && Shape(d3)
            && d3.inodes[c] == ZeroInode().(kind := kind, links := if kind.Dir? then 2 else 1, parent := dir)
            && d3.inodes[dir] == d.inodes[dir].(links := d.inodes[dir].links + if kind.Dir? then 1 else 0)
            && (forall j :: 0 <= j < MAX_FILES && j != dir && j != c ==> d3.inodes[j] == d.inodes[j])
            && d3.blockMap == d.blockMap
  {
  }

  lemma PlacedCore(d: Disk, own: Owner, dir: nat, c: nat, kind: Kind)
    requires Core(d, own) && dir < MAX_FILES && c < MAX_FILES && !d.inodeMap[c] && !kind.Unused?
    ensures d.freeInodes > 0 && Core(Placed(d, dir, c, kind), own)
  {
    NewInodeCore(d, own, c, kind);
    var d1 := NewInode(d, c, kind);
    EditCore(d1, own, c, d1.inodes[c].(parent := dir, links := if kind.Dir? then 2 else 1));
  }

  lemma PreparedCore(d: Disk, own: Owner, dir: nat, c: nat, kind: Kind)
    requires Core(d, own) && dir < MAX_FILES && c < MAX_FILES && !d.inodeMap[c] && !d.inodes[dir].kind.Unused?
             && dir != c
    requires !kind.Unused?
    ensures d.freeInodes > 0 && Core(Prepared(d, dir, c, kind), own)
  {
    PlacedCore(d, own, dir, c, kind);
    var d2 := Placed(d, dir, c, kind);
    if kind.Dir? { EditCore(d2, own, dir, d2.inodes[dir].(links := d2.inodes[dir].links + 1)); }
  }

  lemma PreparedImages(d: Disk, dir: nat, c: nat, kind: Kind)
    requires Shape(d) && dir < MAX_FILES && c < MAX_FILES && dir != c && d.freeInodes > 0 && d.inodes[c] == ZeroInode()
    ensures Shape(Prepared(d, dir, c, kind))
    ensures forall j :: 0 <= j < MAX_FILES ==> SameImages(d, Prepared(d, dir, c, kind), j)
  {
    PreparedRecords(d, dir, c, kind);
    forall j | 0 <= j < MAX_FILES ensures SameImages(d, Prepared(d, dir, c, kind), j) {
      RecordOnly(d, Prepared(d, dir, c, kind), j);
    }
  }

  lemma PreparedOk(d: Disk, own: Owner, dir: nat, c: nat, kind: Kind)
    requires Core(d, own) && dir < MAX_FILES && c < MAX_FILES && !d.inodeMap[c] && !d.inodes[dir].kind.Unused?
    requires !kind.Unused?
    ensures d.freeInodes > 0 && dir != c && d.inodes[c] == ZeroInode()
    ensures Core(Prepared(d, dir, c, kind), own)
    ensures forall j :: 0 <= j < MAX_FILES ==> SameImages(d, Prepared(d, dir, c, kind), j)
  {
    FreeInodeIsBlank(d, own, dir, c);
    PreparedCore(d, own, dir, c, kind);
    PreparedImages(d, dir, c, kind);
  }

  lemma FreeInodeIsBlank(d: Disk, own: Owner, dir: nat, c: nat)
    requires Core(d, own) && dir < MAX_FILES && c < MAX_FILES && !d.inodeMap[c] && !d.inodes[dir].kind.Unused?
    ensures dir != c && d.inodes[c] == ZeroInode()
  {
  }

  lemma {:induction false} NothingToDetach(d: Disk, i: nat, s: nat)
    requires i < |d.inodes| && d.inodes[i].blocks == Zeros() && s <= DIRECT
    ensures DetachFrom(d, i, s) == d
    decreases DIRECT - s
  {
    if s < DIRECT { NothingToDetach(d, i, s + 1); }
  }

  /** Taking back the parent's link and freeing the new inode restores the disk exactly. */
  lemma PreparedUndone(d: Disk, dir: nat, c: nat, kind: Kind)
    requires Shape(d) && dir < MAX_FILES && c < MAX_FILES && dir != c && !d.inodeMap[c] && d.inodes[c] == ZeroInode()
    requires d.freeInodes > 0
    ensures var d3 := Prepared(d, dir, c, kind);
            var x := d3.inodes[dir];
            && (kind.Dir? ==> x.links > 0)
            && var d4 := (if kind.Dir? then SetInode(d3, dir, x.(links := x.links - 1)) else d3);
            && Shape(d4) && Freed(d4, c) == d
  {
    var d3 := Prepared(d, dir, c, kind);
    var x := d3.inodes[dir];
    var d4 := if kind.Dir? then SetInode(d3, dir, x.(links := x.links - 1)) else d3;
    NothingToDetach(d4, c, 0);
    assert d4.inodes[c := ZeroInode()] == d.inodes;
    assert d4.inodeMap[c := false] == d.inodeMap;
  }

  /** The outcome of creating `name` in `dir`; -1 means nothing changed. */
  ghost predicate CreateResult(d: Disk, d': Disk, dir: nat, name: string, kind: Kind, c: int) {
    && Shape(d) && Shape(d') && dir < MAX_FILES
    && (c == -1 <==> (forall k :: 0 <= k < MAX_FILES ==> d.inodeMap[k]) || AddFails(d, dir, name))
    && if c == -1 then d' == d
       else
         && 0 < c < MAX_FILES && c == FirstClear(d.inodeMap, 0, MAX_FILES)
         && CreatedAt(d, d', dir, FindFree(Entries(d, d.inodes[dir]), 0), name, c, kind)
         && DirMap(Entries(d', d'.inodes[dir])) == DirMap(Entries(d, d.inodes[dir]))[name := c]
         && OthersSame(d, d', c)
         && (kind.File? ==> Contents(d', d'.inodes[c]) == [])
  }

  /** What a set-up inode plus an entered name amount to. */
  lemma CreateDelta(d: Disk, own: Owner, d': Disk, dir: nat, name: string, kind: Kind, c: nat)
    requires Core(d, own) && dir < MAX_FILES && 0 < c < MAX_FILES && !d.inodeMap[c]
    requires d.inodes[dir].kind.Dir? && d.inodes[dir].links >= 2 && (kind.File? || kind.Dir?) && |name| <= NAME_ROOM
    requires name != "."
    requires d.freeInodes > 0 && !AddFails(d, dir, name) && name !in DirMap(Entries(d, d.inodes[dir]))
    requires EntryPut(Prepared(d, dir, c, kind), d', dir, FindFree(Entries(d, d.inodes[dir]), 0), Dirent(c, name, kind),
                      d.inodes[dir].size + DIRENT_SIZE)
    ensures CreatedAt(d, d', dir, FindFree(Entries(d, d.inodes[dir]), 0), name, c, kind)
    ensures forall j :: 0 <= j < MAX_FILES && j != dir ==> SameImages(d, d', j)
  {
    PreparedOk(d, own, dir, c, kind);
    PreparedRecords(d, dir, c, kind);
    ImagesChain(d, Prepared(d, dir, c, kind), d', dir);
  }

  lemma ImagesChain(d: Disk, d1: Disk, d2: Disk, i: nat)
    requires Shape(d) && Shape(d1) && Shape(d2) && i < MAX_FILES
    requires forall j :: 0 <= j < MAX_FILES ==> SameImages(d, d1, j)
    requires forall j :: 0 <= j < MAX_FILES && j != i ==> SameImages(d1, d2, j)
    ensures forall j :: 0 <= j < MAX_FILES && j != i ==> SameImages(d, d2, j)
    ensures forall j :: 0 <= j < MAX_FILES && j != i ==> Entries(d2, d2.inodes[j]) == Entries(d, d.inodes[j])
    ensures Entries(d1, d1.inodes[i]) == Entries(d, d.inodes[i])
  {
    assert SameImages(d, d1, i);
    forall j | 0 <= j < MAX_FILES && j != i
      ensures SameImages(d, d2, j) && Entries(d2, d2.inodes[j]) == Entries(d, d.inodes[j])
    {
      assert SameImages(d, d1, j) && SameImages(d1, d2, j);
    }
  }

  lemma FinishCreate(d: Disk, own: Owner, d': Disk, dir: nat, name: string, kind: Kind, c: nat)
    requires Core(d, own) && Files(d) && Tree(d) && dir < MAX_FILES && c < MAX_FILES && !d.inodeMap[c]
    requires d.inodes[dir].kind.Dir? && d.inodes[dir].links >= 2 && (kind.File? || kind.Dir?) && |name| <= NAME_ROOM
    requires name != "."
    requires d.freeInodes > 0 && !AddFails(d, dir, name) && c == FirstClear(d.inodeMap, 0, MAX_FILES)
    requires EntryPut(Prepared(d, dir, c, kind), d', dir, FindFree(Entries(d, d.inodes[dir]), 0), Dirent(c, name, kind),
                      d.inodes[dir].size + DIRENT_SIZE)
    ensures Files(d') && Tree(d') && CreateResult(d, d', dir, name, kind, c)
  {
    var es := Entries(d, d.inodes[dir]);
    assert d.inodeMap[ROOT];
    assert DirOk(d.inodes, dir, es);
    FindNameIsLookup(es, name);
    CreateDelta(d, own, d', dir, name, kind, c);
    CreateKeepsTree(d, d', dir, FindFree(es, 0), name, c, kind);
    CreateKeepsFiles(d, d', dir, c, kind);
  }

  lemma CreateKeepsFiles(d: Disk, d': Disk, dir: nat, c: nat, kind: Kind)
    requires Files(d) && Shape(d') && dir < MAX_FILES && c < MAX_FILES && d.inodes[dir].kind.Dir?
    requires d'.inodes[dir].kind.Dir?
    requires forall j :: 0 <= j < MAX_FILES && j != dir && j != c ==> d'.inodes[j] == d.inodes[j]
    requires forall j :: 0 <= j < MAX_FILES && j != dir ==> SameImages(d, d', j)
    requires d'.inodes[c].blocks == Zeros() && d'.inodes[c].size == 0
    ensures Files(d') && OthersSame(d, d', c) && Contents(d', d'.inodes[c]) == []
  {
    forall j | 0 <= j < MAX_FILES && j != c && d'.inodes[j].kind.File?
      ensures FileOk(d', d'.inodes[j]) && Contents(d', d'.inodes[j]) == Contents(d, d.inodes[j])
    {
      SameContents(d, d', j);
    }
  }

  // ---------------------------------------------------------------- unlink

  /** Why a name cannot be unlinked. */
  ghost predicate UnlinkFails(d: Disk, dir: nat, name: string)
    requires Shape(d) && dir < MAX_FILES
  {
    || Lookup(d, dir, name).None? || name == ".."
    || Lookup(d, dir, name).value >= MAX_FILES
    || (d.inodes[Lookup(d, dir, name).value].kind.Dir? && d.inodes[Lookup(d, dir, name).value].size > 0)
  }

  /** The outcome of unlinking `name` from `dir`; -1 means nothing changed. */
  ghost predicate UnlinkResult(d: Disk, d': Disk, dir: nat, name: string, r: int) {
    && Shape(d) && Shape(d') && dir < MAX_FILES
    && if UnlinkFails(d, dir, name) then r == -1 && d' == d
       else
         var c := Lookup(d, dir, name).value;
         && r == 0
         && UnlinkedAt(d, d', dir, FindName(Entries(d, d.inodes[dir]), name, 0), c)
         && DirMap(Entries(d', d'.inodes[dir])) == DirMap(Entries(d, d.inodes[dir])) - {name}
         && (d'.inodes[c].kind.Unused? <==> d.inodes[c].kind.File?)
         && d'.inodes[dir].blocks == d.inodes[dir].blocks
         && OthersSame(d, d', c)
  }

  /** The entry about to go, and the inode it names. */
  lemma UnlinkTarget(d: Disk, dir: nat, name: string)
    requires Tree(d) && dir < MAX_FILES && !UnlinkFails(d, dir, name)
    ensures var c := Lookup(d, dir, name).value;
            var p := FindName(Entries(d, d.inodes[dir]), name, 0);
            && d.inodes[dir].kind.Dir? && p < MAX_ENTRIES && 0 < c < MAX_FILES && c != dir
            && ChildOk(d.inodes, dir, Entries(d, d.inodes[dir])[p]) && Entries(d, d.inodes[dir])[p].inode == c
            && (d.inodes[c].kind.Dir? ==> Tally(Entries(d, d.inodes[c]), false) == 0)
            && (d.inodes[c].kind.Dir? ==> d.inodes[dir].links >= 3)
  {
    var es := Entries(d, d.inodes[dir]);
    var p := FindName(es, name, 0);
    assert DirOk(d.inodes, dir, es) && ChildOk(d.inodes, dir, es[p]);
    TallyPositive(es, p, false);
    var c := es[p].inode;
    if es[p].kind.Dir? {
      TallyPositive(es, p, true);
      assert DirOk(d.inodes, c, Entries(d, d.inodes[c]));
    }
  }

  /** ".." is never an entry, so trying to unlink it fails without effect. */
  lemma DotDotIsNoEntry(d: Disk, dir: nat)
    requires Tree(d) && dir < MAX_FILES && d.inodes[dir].kind.Dir?
    ensures FindName(Entries(d, d.inodes[dir]), "..", 0) == MAX_ENTRIES
  {
  }

  /** The first checks of ramfs_vfs_unlink leave only the name "..". */
  lemma UnlinkEntry(d: Disk, dir: nat, name: string)
    requires Tree(d) && dir < MAX_FILES && Lookup(d, dir, name).Some? && Lookup(d, dir, name).value < MAX_FILES
    requires var x := d.inodes[Lookup(d, dir, name).value]; !(x.kind.Dir? && x.size > 0)
    ensures d.inodes[dir].kind.Dir? && (UnlinkFails(d, dir, name) <==> name == "..")
    ensures FindName(Entries(d, d.inodes[dir]), name, 0) < MAX_ENTRIES <==> name != ".."
  {
    if name == ".." { DotDotIsNoEntry(d, dir); }
  }

  lemma FinishUnlink(d: Disk, d1: Disk, d': Disk, dir: nat, name: string)
    requires Files(d) && Tree(d) && dir < MAX_FILES && !UnlinkFails(d, dir, name) && Shape(d')
    requires EntryPut(d, d1, dir, FindName(Entries(d, d.inodes[dir]), name, 0), EMPTY, d.inodes[dir].size - DIRENT_SIZE)
    requires var c := Lookup(d, dir, name).value;
             && c < MAX_FILES && c != dir
             && d.inodes[dir].links >= (if d.inodes[c].kind.Dir? then 1 else 0) && d.inodes[c].links > 0
             && d1.inodes[dir].blocks == d.inodes[dir].blocks
             && d'.inodes[dir] == d1.inodes[dir].(links := d.inodes[dir].links - if d.inodes[c].kind.Dir? then 1 else 0)
             && d'.inodes[c] == (if d.inodes[c].kind.Dir? then d.inodes[c].(links := d.inodes[c].links - 1)
                 else ZeroInode())
             && (forall j :: 0 <= j < MAX_FILES && j != dir && j != c ==> d'.inodes[j] == d1.inodes[j])
             && (forall j :: 0 <= j < MAX_FILES && (j != c || d.inodes[c].kind.Dir?) ==> SameImages(d1, d', j))
    ensures Files(d') && Tree(d') && UnlinkResult(d, d', dir, name, 0)
  {
    UnlinkTarget(d, dir, name);
    var c := Lookup(d, dir, name).value;
    var p := FindName(Entries(d, d.inodes[dir]), name, 0);
    forall j | 0 <= j < MAX_FILES && j != dir && (j != c || d.inodes[c].kind.Dir?)
      ensures SameImages(d, d', j) && Entries(d', d'.inodes[j]) == Entries(d, d.inodes[j])
    {
      assert SameImages(d, d1, j) && SameImages(d1, d', j);
    }
    assert SameImages(d1, d', dir);
    assert UnlinkedAt(d, d', dir, p, c);
    UnlinkKeepsTree(d, d', dir, p, c);
    UnlinkKeepsFiles(d, d', dir, c);
  }

  lemma UnlinkKeepsFiles(d: Disk, d': Disk, dir: nat, c: nat)
    requires Files(d) && Shape(d') && dir < MAX_FILES && c < MAX_FILES && d.inodes[dir].kind.Dir?
    requires d'.inodes[dir].kind.Dir?
    requires !d'.inodes[c].kind.File?
    requires forall j :: 0 <= j < MAX_FILES && j != dir && j != c ==> d'.inodes[j] == d.inodes[j]
    requires forall j :: 0 <= j < MAX_FILES && j != dir && j != c ==> SameImages(d, d', j)
    ensures Files(d') && OthersSame(d, d', c)
  {
    forall j | 0 <= j < MAX_FILES && j != c && j != dir && d'.inodes[j].kind.File?
      ensures FileOk(d', d'.inodes[j]) && Contents(d', d'.inodes[j]) == Contents(d, d.inodes[j])
    {
      SameContents(d, d', j);
    }
  }

  // ---------------------------------------------------------------- format

  /** The disk written by ramfs_format. */
  function Formatted(): Disk {
    Disk([ZeroInode().(kind := Dir, links := 2)] + seq(MAX_FILES - 1, _ => ZeroInode()),
         seq(MAX_FILES, i => i < 1),
         seq(BLOCK_COUNT, i => i < DATA_START),
         MAX_FILES - 1,
         BLOCK_COUNT - DATA_START,
         seq(BLOCK_COUNT, _ => ZeroBytes()),
         seq(BLOCK_COUNT, _ => NoEntries()))
  }

  lemma FormattedCore()
    ensures Core(Formatted(), map[])
  {
    var d := Formatted();
    ClearOfFormatted(d.blockMap, DATA_START);
    ClearOfFormatted(d.inodeMap, 1);
    NonZeroOfZeros(Zeros());
    assert d.inodes[ROOT] == ZeroInode().(kind := Dir, links := 2);
    assert forall i :: 0 < i < MAX_FILES ==> d.inodes[i] == ZeroInode();
  }

  lemma FormattedOk()
    ensures Core(Formatted(), map[]) && Files(Formatted()) && Tree(Formatted())
    ensures DirMap(Entries(Formatted(), Formatted().inodes[ROOT])) == map[]
  {
    FormattedCore();
    var d := Formatted();
    EmptyInodeHasNoEntries(d, d.inodes[ROOT]);
    assert Names(Entries(d, d.inodes[ROOT])) == {};
  }

  lemma AddFailsSame(d: Disk, d': Disk, i: nat, name: string)
    requires Shape(d) && Shape(d') && i < MAX_FILES && SameImages(d, d', i)
    requires d'.inodes[i].kind == d.inodes[i].kind && d'.inodes[i].parent == d.inodes[i].parent
    requires d'.inodes[i].blocks == d.inodes[i].blocks && d'.blockMap == d.blockMap
    ensures AddFails(d, i, name) <==> AddFails(d', i, name)
  {
  }

  lemma {:induction false} NoneFree(bits: seq<bool>)
    requires Clear(bits) == 0
    ensures forall i :: 0 <= i < |bits| ==> bits[i]
  {
    forall i | 0 <= i < |bits| ensures bits[i] {
      if !bits[i] { ClearPositive(bits, i); }
    }
  }

  class Filesystem {
    var disk: Disk
    ghost var own: Owner

    ghost predicate Valid()
      reads this
    {
      Core(disk, own) && Files(disk) && Tree(disk)
    }

    /** ramfs_init: a formatted disk with an empty root directory. */
    constructor ()
      ensures Valid() && disk == Formatted()
      ensures DirMap(Entries(disk, disk.inodes[ROOT])) == map[]
      ensures disk.freeBlocks == BLOCK_COUNT - DATA_START && disk.freeInodes == MAX_FILES - 1
    {
      disk := Formatted();
      own := map[];
      new;
      FormattedOk();
    }

    // ------------------------------------------------------------ blocks

    /** ramfs_alloc_block: lowest free data block, cleared; -1 when there is none. */
    method AllocBlock() returns (b: int)
      requires Core(disk, own)
      modifies this`disk
      ensures b == -1 ==> disk == old(disk) && Full(disk)
      ensures b != -1 ==> DATA_START <= b < BLOCK_COUNT && !old(disk).blockMap[b] && old(disk).freeBlocks > 0
      ensures b != -1 ==>
              b == FirstClear(old(disk).blockMap, DATA_START, BLOCK_COUNT) && disk == TakeBlock(old(disk), b)
    {
      if disk.freeBlocks == 0 {
        NoneFree(disk.blockMap);
        return -1;
      }
      for i := DATA_START to BLOCK_COUNT
        invariant disk == old(disk)
        invariant FirstClear(disk.blockMap, DATA_START, BLOCK_COUNT) == FirstClear(disk.blockMap, i, BLOCK_COUNT)
        invariant forall k :: DATA_START <= k < i ==> disk.blockMap[k]
      {
        if !disk.blockMap[i] {
          disk := TakeBlock(disk, i);
          return i;
        }
      }
      return -1;
    }

    /** ramfs_free_block ignores blocks outside the data area and blocks already free. */
    method FreeBlock(b: nat)
      requires Shape(disk)
      modifies this`disk
      ensures disk == if DATA_START <= b < BLOCK_COUNT && old(disk).blockMap[b]
                      then old(disk).(blockMap := old(disk).blockMap[b := false],
                           freeBlocks := old(disk).freeBlocks + 1)
                      else old(disk)
    {
      if b < DATA_START || b >= BLOCK_COUNT { return; }
      if !disk.blockMap[b] { return; }
      disk := disk.(blockMap := disk.blockMap[b := false], freeBlocks := disk.freeBlocks + 1);
    }

    /** Make sure slot `s` of inode `i` has a block. */
    method EnsureBlock(i: nat, s: nat) returns (ok: bool)
      requires Core(disk, own) && i < MAX_FILES && s < DIRECT && !disk.inodes[i].kind.Unused?
      modifies this
      ensures Core(disk, own) && Grown(old(disk), disk, i)
      ensures ok ==> disk.inodes[i].blocks[s] != 0
      ensures !ok ==> disk == old(disk) && disk.inodes[i].blocks[s] == 0 && Full(disk)
      ensures ok == (old(disk).inodes[i].blocks[s] != 0 || !Full(old(disk)))
      ensures old(disk).inodes[i].blocks[s] != 0 ==> disk == old(disk)
      ensures forall t :: 0 <= t < DIRECT && t != s ==> disk.inodes[i].blocks[t] == old(disk).inodes[i].blocks[t]
    {
      if disk.inodes[i].blocks[s] != 0 { return true; }
      var b := AllocBlock();
      if b == -1 { return false; }
      AttachCore(old(disk), own, i, s, b);
      AttachImages(old(disk), own, i, s, b);
      var x := disk.inodes[i];
      disk := SetInode(disk, i, x.(blocks := x.blocks[s := b], blockCount := x.blockCount + 1));
      own := own[b := (i, s)];
      assert disk == Attach(old(disk), i, s, b);
      return true;
    }

    // ------------------------------------------------------------ file contents

    /** The piece of a file inside one block; a missing block reads as zeros. */
    method ReadChunk(i: nat, at: nat, len: nat) returns (chunk: seq<Byte>)
      requires Core(disk, own) && i < MAX_FILES && at < MAX_SIZE && at % BLOCK_SIZE + len <= BLOCK_SIZE
      ensures at + len <= MAX_SIZE && chunk == Image(disk, disk.inodes[i])[at..at + len]
    {
      ChunkOfImage(disk, disk.inodes[i], at, len);
      var block, blockOffset := disk.inodes[i].blocks[at / BLOCK_SIZE], at % BLOCK_SIZE;
      if block == 0 {
        chunk := ZeroBytes()[blockOffset..blockOffset + len];
      } else {
        HasBlock(i, at / BLOCK_SIZE);
        chunk := disk.bytes[block][blockOffset..blockOffset + len];
      }
    }

    /** The copy loop of ramfs_read. */
    method ReadLoop(i: nat, count: nat, offset: nat) returns (out: seq<Byte>)
      requires Core(disk, own) && i < MAX_FILES && offset <= MAX_SIZE
      ensures out == Image(disk, disk.inodes[i])[offset..Min(offset + count, MAX_SIZE)]
    {
      out := [];
      ghost var image := Image(disk, disk.inodes[i]);
      while |out| < count
        invariant |out| <= count && offset + |out| <= MAX_SIZE
        invariant out == image[offset..offset + |out|]
        decreases count - |out|
      {
        var blockIndex := (offset + |out|) / BLOCK_SIZE;
        var blockOffset := (offset + |out|) % BLOCK_SIZE;
        if blockIndex >= DIRECT { break; }
        var toRead := Min(count - |out|, BLOCK_SIZE - blockOffset);
        var chunk := ReadChunk(i, offset + |out|, toRead);
        out := out + chunk;
      }
    }

    /** The bounds check of ramfs_read, in 64-bit arithmetic. */
    method ClampCount(size: nat, offset: nat, count: nat) returns (left: nat)
      requires offset < size <= MAX_SIZE && count < TWO_64
      ensures left == if offset + count < TWO_64 then Min(count, size - offset) else count
      ensures offset + count >= TWO_64 ==> offset + left >= MAX_SIZE
    {
      left := count;
      if (offset + count) % TWO_64 > size { left := size - offset; }
    }

    /** ramfs_read of a regular file. */
    method ReadFile(i: nat, count: nat, offset: nat) returns (out: seq<Byte>)
      requires Core(disk, own) && i < MAX_FILES && disk.inodes[i].size <= MAX_SIZE && count < TWO_64
      ensures out == ReadSpec(Image(disk, disk.inodes[i]), disk.inodes[i].size, offset, count)
    {
      var size := disk.inodes[i].size;
      if offset >= size { return []; }
      var left := ClampCount(size, offset, count);
      out := ReadLoop(i, left, offset);
    }

    /** ramfs_read; the copied bytes are returned. */
    method Read(i: nat, count: nat, offset: nat) returns (n: int, out: seq<Byte>)
      requires Valid() && i < MAX_FILES && count < TWO_64
      ensures !disk.inodes[i].kind.File? ==> n == -1
      ensures disk.inodes[i].kind.File? ==> n == |out| && disk.inodes[i].size <= MAX_SIZE
      ensures disk.inodes[i].kind.File? ==>
              out == ReadSpec(Image(disk, disk.inodes[i]), disk.inodes[i].size, offset, count)
      ensures disk.inodes[i].kind.File? ==>
                (out == Slice(Contents(disk, disk.inodes[i]), offset, count)
                 <==> offset >= disk.inodes[i].size || offset + count < TWO_64 || disk.inodes[i].size == MAX_SIZE)
    {
      if disk.inodes[i].kind != File { return -1, []; }
      assert FileOk(disk, disk.inodes[i]);
      out := ReadFile(i, count, offset);
      n := |out|;
    }

    lemma HasBlock(i: nat, s: nat)
      requires Core(disk, own) && i < MAX_FILES && s < DIRECT && disk.inodes[i].blocks[s] != 0
      ensures disk.inodes[i].blocks[s] < BLOCK_COUNT
      ensures SlotBytes(disk, disk.inodes[i], s) == disk.bytes[disk.inodes[i].blocks[s]]
      ensures SlotEntries(disk, disk.inodes[i], s) == disk.dirents[disk.inodes[i].blocks[s]]
    {
      OwnerIsUsed(disk, own, i, s);
    }

    /** Copy `chunk` into the block behind file position `at`. */
    method WriteChunk(i: nat, at: nat, chunk: seq<Byte>)
      requires Core(disk, own) && i < MAX_FILES && at < MAX_SIZE && at % BLOCK_SIZE + |chunk| <= BLOCK_SIZE
      requires disk.inodes[i].blocks[at / BLOCK_SIZE] != 0
      modifies this`disk
      ensures Core(disk, own) && OnlyInode(old(disk), disk, i) && disk.inodes == old(disk).inodes
      ensures at + |chunk| <= MAX_SIZE
      ensures Image(disk, disk.inodes[i]) == Splice(old(Image(disk, disk.inodes[i])), at, chunk)
    {
      var s := at / BLOCK_SIZE;
      PutBytesImages(disk, own, i, s, at % BLOCK_SIZE, chunk);
      PutBytesCore(disk, own, i, s, at % BLOCK_SIZE, chunk);
      disk := PutBytes(disk, disk.inodes[i].blocks[s], at % BLOCK_SIZE, chunk);
    }

    /** Allocate the block behind position `at` if need be and copy `chunk` into it. */
    method WriteBlock(i: nat, at: nat, chunk: seq<Byte>) returns (ok: bool)
      requires Core(disk, own) && i < MAX_FILES && !disk.inodes[i].kind.Unused?
      requires at < MAX_SIZE && at % BLOCK_SIZE + |chunk| <= BLOCK_SIZE
      modifies this
      ensures Core(disk, own)
      ensures ok ==> WroteAt(old(disk), disk, i, at, chunk)
      ensures !ok ==> disk == old(disk) && Full(disk) && disk.inodes[i].blocks[at / BLOCK_SIZE] == 0
    {
      ok := EnsureBlock(i, at / BLOCK_SIZE);
      if ok {
        ghost var d1 := disk;
        WriteChunk(i, at, chunk);
        forall j | 0 <= j < MAX_FILES && j != i ensures SameImages(old(disk), disk, j) {
          assert SameImages(old(disk), d1, j) && SameImages(d1, disk, j);
        }
      }
    }

    /** One round of the copy loop: up to the end of a block; `n` comes back unchanged when the loop must stop. */
    method WriteStep(ghost d0: Disk, i: nat, src: seq<Byte>, offset: nat, n: nat) returns (n': nat)
      requires Core(disk, own) && i < MAX_FILES && !disk.inodes[i].kind.Unused?
      requires n < |src| && WroteAt(d0, disk, i, offset, src[..n])
      modifies this
      ensures Core(disk, own) && disk.inodes[i].kind == old(disk).inodes[i].kind
      ensures n <= n' <= |src| && WroteAt(d0, disk, i, offset, src[..n'])
      ensures n' == n ==>
              offset + n == MAX_SIZE || (Full(disk) && disk.inodes[i].blocks[(offset + n) / BLOCK_SIZE] == 0)
    {
      var blockIndex := (offset + n) / BLOCK_SIZE;
      var blockOffset := (offset + n) % BLOCK_SIZE;
      if blockIndex >= DIRECT { return n; }
      var toWrite := Min(|src| - n, BLOCK_SIZE - blockOffset);
      ghost var d1 := disk;
      var ok := WriteBlock(i, offset + n, src[n..n + toWrite]);
      if !ok { return n; }
      n' := n + toWrite;
      WroteMore(d0, d1, disk, i, offset, src, n, n');
    }

    /** The copy loop of ramfs_write: stops early only when no block can be allocated. */
    method WriteLoop(i: nat, src: seq<Byte>, offset: nat) returns (n: nat)
      requires Core(disk, own) && i < MAX_FILES && !disk.inodes[i].kind.Unused? && offset <= MAX_SIZE
      modifies this
      ensures Core(disk, own)
      ensures n <= |src| && WroteAt(old(disk), disk, i, offset, src[..n])
      ensures n < Min(|src|, MAX_SIZE - offset) ==> Full(disk) && disk.inodes[i].blocks[(offset + n) / BLOCK_SIZE] == 0
    {
      n := 0;
      WroteNothing(disk, i, offset);
      while n < |src|
        invariant n <= |src| && Core(disk, own) && !disk.inodes[i].kind.Unused?
        invariant WroteAt(old(disk), disk, i, offset, src[..n])
        decreases |src| - n
      {
        var n' := WriteStep(old(disk), i, src, offset, n);
        if n' == n { break; }
        n := n';
      }
    }

    /** ramfs_write to a regular file at a permitted offset. */
    method WriteFile(i: nat, src: seq<Byte>, offset: nat) returns (n: nat)
      requires Valid() && i < MAX_FILES && disk.inodes[i].kind.File? && offset <= MAX_SIZE
      modifies this
      ensures Valid() && WriteResult(old(disk), disk, i, src, offset, n)
    {
      n := WriteLoop(i, src, offset);
      var x := disk.inodes[i];
      var x' := x.(size := Max(x.size, offset + n));
      FinishWrite(old(disk), disk, own, i, offset, src[..n], x');
      disk := SetInode(disk, i, x');
    }

    /** ramfs_write: -1 on a non-file or past the largest offset, else the number of bytes written. */
    method Write(i: nat, src: seq<Byte>, offset: nat) returns (n: int)
      requires Valid() && i < MAX_FILES && |src| < TWO_64
      modifies this
      ensures Valid() && WriteResult(old(disk), disk, i, src, offset, n)
    {
      if disk.inodes[i].kind != File { return -1; }
      if offset > MAX_SIZE { return -1; }
      var count := |src|;
      if (offset + count) % TWO_64 > MAX_SIZE { count := Min(count, MAX_SIZE - offset); }
      n := WriteFile(i, src[..count], offset);
      ClampedWrite(old(disk), disk, i, src, offset, n, count);
    }

    /** The block-freeing loop of ramfs_truncate. */
    method DropBlocks(i: nat, first: nat)
      requires Core(disk, own) && i < MAX_FILES && first <= DIRECT
      modifies this
      ensures Core(disk, own) && CutAt(old(disk), disk, i, first)
    {
      ghost var own' := DetachFromCore(disk, own, i, first);
      for s := first to DIRECT
        invariant Core(disk, own)
        invariant DetachFrom(disk, i, s) == DetachFrom(old(disk), i, first)
      {
        DropSlot(i, s);
      }
    }

    /** Free one block and clear its pointer. */
    method DropSlot(i: nat, s: nat)
      requires Core(disk, own) && i < MAX_FILES && s < DIRECT
      modifies this
      ensures disk == Detach(old(disk), i, s)
      ensures Core(disk, own)
    {
      var b := disk.inodes[i].blocks[s];
      if b != 0 {
        DetachCore(disk, own, i, s);
        FreeBlock(b);
        var x := disk.inodes[i];
        disk := SetInode(disk, i, x.(blocks := x.blocks[s := 0], blockCount := x.blockCount - 1));
        own := own - {b};
        assert disk == Detach(old(disk), i, s);
      }
    }

    method Shrink(i: nat, n: nat)
      requires Valid() && i < MAX_FILES && disk.inodes[i].kind.File? && n < disk.inodes[i].size
      modifies this
      ensures TruncateOutcome(old(disk), disk, own, i, n)
    {
      ghost var own0 := own;
      DropBlocks(i, (n + BLOCK_SIZE - 1) / BLOCK_SIZE);
      var x := disk.inodes[i].(size := n);
      FinishShrink(old(disk), own0, disk, own, i, n, x);
      disk := SetInode(disk, i, x);
    }

    /**
     ramfs_truncate. The bytes are always right; the zero tail that later growth
     relies on survives exactly when the cut is clean, as it is for a block multiple.
     */
    method Truncate(i: nat, newSize: nat) returns (r: int)
      requires Valid() && i < MAX_FILES
      modifies this
      ensures r == if old(disk).inodes[i].kind.File? then 0 else -1
      ensures r == -1 ==> Valid() && disk == old(disk)
      ensures r == 0 ==> TruncateOutcome(old(disk), disk, own, i, Min(newSize, MAX_SIZE))
    {
      if disk.inodes[i].kind != File { return -1; }
      var n := Min(newSize, MAX_SIZE);
      if n < disk.inodes[i].size {
        Shrink(i, n);
      } else {
        FinishGrow(disk, own, i, n, disk.inodes[i].(size := n));
        Grow(i, n);
      }
      r := 0;
    }

    /** The growing branch of ramfs_truncate, which only sets the size. */
    method Grow(i: nat, n: nat)
      requires Core(disk, own) && i < MAX_FILES && disk.inodes[i].kind.File? && disk.inodes[i].size <= n <= MAX_SIZE
      modifies this`disk
      ensures Core(disk, own) && disk == SetInode(old(disk), i, old(disk).inodes[i].(size := n))
      ensures Contents(disk, disk.inodes[i]) == Contents(old(disk), old(disk).inodes[i].(size := n))
    {
      var x := disk.inodes[i].(size := n);
      EditCore(disk, own, i, x);
      disk := SetInode(disk, i, x);
    }

    /**
     * Truncating to `n` and growing to `m`: the file is its resized contents for every `m` exactly if the cut was
     * clean.
     */
    method CutAndGrow(i: nat, n: nat, m: nat) returns (ghost c: seq<Byte>)
      requires Valid() && i < MAX_FILES && disk.inodes[i].kind.File? && n <= disk.inodes[i].size && n <= m <= MAX_SIZE
      modifies this
      ensures Core(disk, own) && c == old(Contents(disk, disk.inodes[i]))
      ensures Contents(disk, disk.inodes[i]) == Resized(KeptBytes(c, n), m)
      ensures CleanCut(c, n) <==> forall k: nat ::
              n <= k <= MAX_SIZE ==> Resized(KeptBytes(c, n), k) == Resized(Resized(c, n), k)
    {
      c := Contents(disk, disk.inodes[i]);
      assert FileOk(disk, disk.inodes[i]);
      RegrowthIff(c, n);
      var r := Truncate(i, n);
      Grow(i, m);
    }

    // ------------------------------------------------------------ inodes

    /** ramfs_alloc_inode: lowest free inode, or -1. */
    method AllocInode(kind: Kind) returns (i: int)
      requires Core(disk, own) && !kind.Unused?
      modifies this`disk
      ensures Core(disk, own)
      ensures i == -1 ==> disk == old(disk) && forall k :: 0 <= k < MAX_FILES ==> disk.inodeMap[k]
      ensures i != -1 ==> 0 <= i < MAX_FILES && !old(disk).inodeMap[i] && old(disk).freeInodes > 0
      ensures i != -1 ==> i == FirstClear(old(disk).inodeMap, 0, MAX_FILES)
      ensures i != -1 ==> disk == NewInode(old(disk), i, kind)
    {
      if disk.freeInodes == 0 {
        NoneFree(disk.inodeMap);
        return -1;
      }
      for k := 0 to MAX_FILES
        invariant disk == old(disk)
        invariant forall j :: 0 <= j < k ==> disk.inodeMap[j]
      {
        if !disk.inodeMap[k] {
          NewInodeCore(disk, own, k, kind);
          disk := NewInode(disk, k, kind);
          return k;
        }
      }
      return -1;
    }

    /** One round of the block loop of ramfs_free_inode; `e` is the disk with the pointers cleared as well. */
    method ReleaseSlot(i: nat, s: nat, ghost e: Disk, ghost eo: Owner) returns (ghost e': Disk, ghost eo': Owner)
      requires Core(e, eo) && i < MAX_FILES && s < DIRECT
      requires disk == e.(inodes := disk.inodes) && Shape(disk)
      requires e.inodes[i].blocks[s] == disk.inodes[i].blocks[s]
      modifies this`disk
      ensures Core(e', eo') && e' == Detach(e, i, s) && Shape(disk)
      ensures disk == e'.(inodes := old(disk).inodes)
    {
      e', eo' := e, eo;
      var b := disk.inodes[i].blocks[s];
      if b != 0 {
        DetachCore(e, eo, i, s);
        e', eo' := Detach(e, i, s), eo - {b};
        FreeBlock(b);
      }
    }

    /** The block loop of ramfs_free_inode. */
    method ReleaseBlocks(i: nat)
      requires Core(disk, own) && i < MAX_FILES
      modifies this`disk
      ensures disk == DetachFrom(old(disk), i, 0).(inodes := old(disk).inodes)
    {
      ghost var e, eo := disk, own;
      for s := 0 to DIRECT
        invariant Core(e, eo) && disk == e.(inodes := old(disk).inodes) && Shape(disk)
        invariant DetachFrom(e, i, s) == DetachFrom(old(disk), i, 0)
        invariant forall t :: s <= t < DIRECT ==> e.inodes[i].blocks[t] == old(disk).inodes[i].blocks[t]
      {
        e, eo := ReleaseSlot(i, s, e, eo);
      }
    }

    /** ramfs_free_inode: all blocks and the inode go back to the free pools. */
    method FreeInode(i: nat)
      requires Core(disk, own)
      modifies this
      ensures Core(disk, own)
      ensures disk == if i >= MAX_FILES || i == ROOT
              || old(disk).inodes[i].kind.Unused? then old(disk) else Freed(old(disk), i)
    {
      if i >= MAX_FILES { return; }
      if i == ROOT { return; }
      if disk.inodes[i].kind == Unused { return; }
      ghost var own' := FreedCore(disk, own, i);
      ReleaseBlocks(i);
      disk := DropInode(disk, i);
      own := own';
      assert disk == Freed(old(disk), i);
    }

    // ------------------------------------------------------------ directories

    method FindInBlock(i: nat, s: nat, name: string) returns (j: nat)
      requires Core(disk, own) && i < MAX_FILES && s < DIRECT
      ensures j == FindName(SlotEntries(disk, disk.inodes[i], s), name, 0)
      ensures j < PER_BLOCK ==> disk.inodes[i].blocks[s] != 0
    {
      if disk.inodes[i].blocks[s] == 0 { return PER_BLOCK; }
      HasBlock(i, s);
      j := ScanForName(disk.dirents[disk.inodes[i].blocks[s]], name);
    }

    /** Position of a name among the directory slots, MAX_ENTRIES when absent. */
    method FindSlot(i: nat, name: string) returns (p: nat)
      requires Core(disk, own) && i < MAX_FILES
      ensures p == FindName(Entries(disk, disk.inodes[i]), name, 0)
      ensures p < MAX_ENTRIES ==> disk.inodes[i].blocks[p / PER_BLOCK] != 0
    {
      for s := 0 to DIRECT
        invariant FindName(Entries(disk, disk.inodes[i]), name, 0) == FindName(Entries(disk, disk.inodes[i]), name,
                  s * PER_BLOCK)
      {
        NameSearchStep(disk, disk.inodes[i], s, name);
        var j := FindInBlock(i, s, name);
        if j < PER_BLOCK { return s * PER_BLOCK + j; }
      }
      return MAX_ENTRIES;
    }

    /** ramfs_dir_lookup. */
    method DirLookup(i: nat, name: string) returns (c: Option<nat>)
      requires Core(disk, own) && i < MAX_FILES
      ensures c == Lookup(disk, i, name)
    {
      if disk.inodes[i].kind != Dir { return None; }
      if name == "." { return None; }
      if name == ".." { return Some(disk.inodes[i].parent); }
      var p := FindSlot(i, name);
      if p < MAX_ENTRIES {
        HasBlock(i, p / PER_BLOCK);
        return Some(disk.dirents[disk.inodes[i].blocks[p / PER_BLOCK]][p % PER_BLOCK].inode);
      }
      return None;
    }

    /** ramfs_lookup_path: walk the components of an absolute path from the root. */
    method LookupPath(path: string) returns (c: Option<nat>)
      requires Core(disk, own)
      ensures c == if path == "" || path[0] != '/' then None else Walk(disk, ROOT, Comps(path, 0))
    {
      if path == "" || path[0] != '/' { return None; }
      if path == "/" {
        assert Comps("/", 1) == [];
        return Some(ROOT);
      }
      var current: nat, p := ROOT, 1;
      while p < |path|
        invariant 1 <= p <= |path|
        invariant Walk(disk, current, Comps(path, p)) == Walk(disk, ROOT, Comps(path, 0))
        decreases |path| - p
      {
        var len := ComponentLength(path, p);
        if len == 0 {
          p := p + 1;
          continue;
        }
        if len == -1 { return None; }
        var component := path[p..p + len];
        assert Comps(path, p) == [component] + Comps(path, p + len);
        if current >= MAX_FILES { return None; }
        var next := DirLookup(current, component);
        if next.None? { return None; }
        current := next.value;
        p := p + len;
        if p < |path| && path[p] == '/' { p := p + 1; }
      }
      assert Comps(path, p) == [];
      return Some(current);
    }

    /** Write one directory entry and the directory's new size. */
    method InstallEntry(i: nat, p: nat, e: Dirent, size: nat)
      requires Core(disk, own) && i < MAX_FILES && p < MAX_ENTRIES && disk.inodes[i].blocks[p / PER_BLOCK] != 0
      modifies this`disk
      ensures Core(disk, own) && EntryPut(old(disk), disk, i, p, e, size)
              && disk.inodes[i].blocks == old(disk).inodes[i].blocks
    {
      var s, j := p / PER_BLOCK, p % PER_BLOCK;
      OwnerIsUsed(disk, own, i, s);
      PutEntryImages(disk, own, i, s, j, e);
      disk := PutEntry(disk, disk.inodes[i].blocks[s], j, e);
      ghost var d1 := disk;
      EditCore(disk, own, i, disk.inodes[i].(size := size));
      disk := SetInode(disk, i, disk.inodes[i].(size := size));
      forall k | 0 <= k < MAX_FILES && k != i ensures SameImages(old(disk), disk, k) {
        assert SameImages(old(disk), d1, k) && SameImages(d1, disk, k);
      }
      assert SameImages(d1, disk, i);
    }

    /** First unused entry of block `s`, PER_BLOCK if there is none; an unallocated block is all unused. */
    method FreeInBlock(i: nat, s: nat) returns (j: nat)
      requires Core(disk, own) && i < MAX_FILES && s < DIRECT
      ensures j == FindFree(SlotEntries(disk, disk.inodes[i], s), 0)
    {
      if disk.inodes[i].blocks[s] == 0 { return 0; }
      HasBlock(i, s);
      j := ScanForFree(disk.dirents[disk.inodes[i].blocks[s]]);
    }

    /** First unused slot of a directory, MAX_ENTRIES if all 768 are used. */
    method FindFreeSlot(i: nat) returns (p: nat)
      requires Core(disk, own) && i < MAX_FILES
      ensures p == FindFree(Entries(disk, disk.inodes[i]), 0)
    {
      for s := 0 to DIRECT
        invariant FindFree(Entries(disk, disk.inodes[i]), 0) == FindFree(Entries(disk, disk.inodes[i]), s * PER_BLOCK)
      {
        FreeSearchStep(disk, disk.inodes[i], s);
        var j := FreeInBlock(i, s);
        if j < PER_BLOCK { return s * PER_BLOCK + j; }
      }
      return MAX_ENTRIES;
    }

    /** Put `e` into unused slot `p`, allocating its block if need be. */
    method FillSlot(i: nat, p: nat, e: Dirent) returns (ok: bool)
      requires Core(disk, own) && i < MAX_FILES && p < MAX_ENTRIES && !disk.inodes[i].kind.Unused?
      modifies this
      ensures Core(disk, own)
      ensures !ok ==> disk == old(disk)
      ensures ok ==> EntryPut(old(disk), disk, i, p, e, old(disk).inodes[i].size + DIRENT_SIZE)
      ensures ok <==> !(old(disk).inodes[i].blocks[p / PER_BLOCK] == 0 && Full(old(disk)))
    {
      ok := EnsureBlock(i, p / PER_BLOCK);
      if ok {
        ghost var d1 := disk;
        InstallEntry(i, p, e, disk.inodes[i].size + DIRENT_SIZE);
        EntryPutAfterGrowth(old(disk), d1, disk, i, p, e, old(disk).inodes[i].size + DIRENT_SIZE);
      }
    }

    /**
     ramfs_dir_add_entry. The source allocates a missing block when its scan
     reaches it; that block is then empty, so the slot used is the first unused one.
     Names of 56 to 59 bytes pass the source's guard but overrun the entry.
     */
    method AddEntry(i: nat, name: string, c: nat, kind: Kind) returns (r: int)
      requires Core(disk, own) && i < MAX_FILES
      requires |name| <= NAME_ROOM || |name| >= MAX_FILENAME
      modifies this
      ensures Core(disk, own)
      ensures r == if AddFails(old(disk), i, name) then -1 else 0
      ensures r == -1 ==> disk == old(disk)
      ensures r == 0 ==>
              EntryPut(old(disk), disk, i, FindFree(old(Entries(disk, disk.inodes[i])), 0), Dirent(c, name, kind),
                                  old(disk).inodes[i].size + DIRENT_SIZE)
    {
      if disk.inodes[i].kind != Dir { return -1; }
      if |name| == 0 || |name| >= MAX_FILENAME { return -1; }
      var existing := DirLookup(i, name);
      if existing.Some? { return -1; }
      var p := FindFreeSlot(i);
      if p == MAX_ENTRIES { return -1; }
      var ok := FillSlot(i, p, Dirent(c, name, kind));
      r := if ok then 0 else -1;
    }

    /** ramfs_dir_remove_entry. */
    method RemoveEntry(i: nat, name: string) returns (r: int)
      requires Core(disk, own) && i < MAX_FILES
      requires disk.inodes[i].kind.Dir? ==> DirOk(disk.inodes, i, Entries(disk, disk.inodes[i]))
      modifies this
      ensures Core(disk, own)
      ensures var p := FindName(old(Entries(disk, disk.inodes[i])), name, 0);
              if old(disk).inodes[i].kind.Dir? && p < MAX_ENTRIES
              then r == 0 && EntryPut(old(disk), disk, i, p, EMPTY, old(disk).inodes[i].size - DIRENT_SIZE)
              else r == -1 && disk == old(disk)
      ensures disk.inodes[i].blocks == old(disk).inodes[i].blocks
    {
      if disk.inodes[i].kind != Dir { return -1; }
      var p := FindSlot(i, name);
      if p == MAX_ENTRIES { return -1; }
      TallyPositive(Entries(disk, disk.inodes[i]), p, false);
      InstallEntry(i, p, EMPTY, disk.inodes[i].size - DIRENT_SIZE);
      r := 0;
    }

    // ------------------------------------------------------------ create and unlink (ramfs_vfs_create,
    // ramfs_vfs_unlink)

    /** Allocate an inode, set its parent and count the new subdirectory. */
    method PrepareInode(dir: nat, kind: Kind) returns (c: int)
      requires Core(disk, own) && dir < MAX_FILES && !disk.inodes[dir].kind.Unused? && (kind.File? || kind.Dir?)
      modifies this`disk
      ensures Core(disk, own)
      ensures c == -1 ==> disk == old(disk) && forall k :: 0 <= k < MAX_FILES ==> disk.inodeMap[k]
      ensures c != -1 ==> 0 <= c < MAX_FILES && !old(disk).inodeMap[c] && old(disk).freeInodes > 0
      ensures c != -1 ==> c == FirstClear(old(disk).inodeMap, 0, MAX_FILES)
      ensures c != -1 ==> disk == Prepared(old(disk), dir, c, kind)
    {
      c := AllocInode(kind);
      if c == -1 { return; }
      PreparedOk(old(disk), own, dir, c, kind);
      var x := disk.inodes[c];
      disk := SetInode(disk, c, x.(parent := dir, links := if kind.Dir? then 2 else 1));
      if kind.Dir? {
        disk := SetInode(disk, dir, disk.inodes[dir].(links := disk.inodes[dir].links + 1));
      }
    }

    /** The error path of ramfs_vfs_create. */
    method UndoPrepare(dir: nat, kind: Kind, c: nat, ghost d: Disk)
      requires Core(d, own) && dir < MAX_FILES && c < MAX_FILES && !d.inodeMap[c] && c != ROOT
      requires !d.inodes[dir].kind.Unused? && (kind.File? || kind.Dir?) && d.freeInodes > 0
      requires disk == Prepared(d, dir, c, kind) && Core(disk, own) && dir != c && d.inodes[c] == ZeroInode()
      modifies this
      ensures disk == d && Core(disk, own)
    {
      PreparedUndone(d, dir, c, kind);
      ghost var own0 := own;
      if kind.Dir? { DropLink(dir); }
      FreeInode(c);
      own := own0;
    }

    method DropLink(dir: nat)
      requires Core(disk, own) && dir < MAX_FILES && !disk.inodes[dir].kind.Unused? && disk.inodes[dir].links > 0
      modifies this`disk
      ensures Core(disk, own)
      ensures disk == SetInode(old(disk), dir, old(disk).inodes[dir].(links := old(disk).inodes[dir].links - 1))
    {
      var x := disk.inodes[dir];
      EditCore(disk, own, dir, x.(links := x.links - 1));
      disk := SetInode(disk, dir, x.(links := x.links - 1));
    }

    /**
     ramfs_vfs_create of a file or directory in a linked directory: either one
     binding appears, or nothing on the disk changes. The name is the last component of
     a normalised path, so it is never ".".
     */
    method Create(dir: nat, name: string, kind: Kind) returns (c: int)
      requires name != "."
      requires Valid() && dir < MAX_FILES && !disk.inodes[dir].kind.Unused? && (kind.File? || kind.Dir?)
      requires disk.inodes[dir].kind.Dir? ==> disk.inodes[dir].links >= 2
      requires |name| <= NAME_ROOM || |name| >= MAX_FILENAME
      modifies this
      ensures Valid() && CreateResult(old(disk), disk, dir, name, kind, c)
    {
      ghost var d := disk;
      c := PrepareInode(dir, kind);
      if c != -1 {
        PreparedOk(d, own, dir, c, kind);
        c := EnterName(dir, name, kind, c, d);
      }
    }

    /** The second half of ramfs_vfs_create, `d` being the disk it started from. */
    method EnterName(dir: nat, name: string, kind: Kind, c: nat, ghost d: Disk) returns (r: int)
      requires Core(d, own) && Files(d) && Tree(d) && dir < MAX_FILES && c < MAX_FILES && !d.inodeMap[c]
      requires d.freeInodes > 0 && c == FirstClear(d.inodeMap, 0, MAX_FILES)
      requires !d.inodes[dir].kind.Unused? && (d.inodes[dir].kind.Dir? ==> d.inodes[dir].links >= 2)
      requires (kind.File? || kind.Dir?) && name != "." && (|name| <= NAME_ROOM || |name| >= MAX_FILENAME)
      requires disk == Prepared(d, dir, c, kind) && Core(disk, own) && dir != c && d.inodes[c] == ZeroInode()
      requires SameImages(d, disk, dir)
      modifies this
      ensures Valid() && CreateResult(d, disk, dir, name, kind, r)
    {
      ghost var own0 := own;
      PreparedRecords(d, dir, c, kind);
      AddFailsSame(d, disk, dir, name);
      var added := AddEntry(dir, name, c, kind);
      if added < 0 {
        assert d.inodeMap[ROOT];
        own := own0;
        UndoPrepare(dir, kind, c, d);
        return -1;
      }
      FinishCreate(d, own0, disk, dir, name, kind, c);
      r := c;
    }

    /** The second half of ramfs_vfs_unlink: drop the links and, at zero, the inode. */
    method ReleaseLinks(dir: nat, c: nat)
      requires Core(disk, own) && dir < MAX_FILES && 0 < c < MAX_FILES && c != dir
      requires disk.inodes[dir].kind.Dir? && !disk.inodes[c].kind.Unused? && disk.inodes[c].links > 0
      requires disk.inodes[c].kind.Dir? ==> disk.inodes[dir].links > 0
      modifies this
      ensures Core(disk, own)
      ensures var d := old(disk);
              var x, y := d.inodes[dir], d.inodes[c];
              && disk.inodes[dir] == x.(links := x.links - if y.kind.Dir? then 1 else 0)
              && disk.inodes[c] == (if y.links == 1 then ZeroInode() else y.(links := y.links - 1))
              && (forall j :: 0 <= j < MAX_FILES && j != dir && j != c ==> disk.inodes[j] == d.inodes[j])
              && (forall j :: 0 <= j < MAX_FILES && (j != c || y.links > 1) ==> SameImages(d, disk, j))
    {
      ghost var d := disk;
      if disk.inodes[c].kind == Dir { DropLink(dir); }
      DropLink(c);
      ghost var d1 := disk;
      forall j | 0 <= j < MAX_FILES ensures SameImages(d, d1, j) { RecordOnly(d, d1, j); }
      if disk.inodes[c].links == 0 {
        ghost var own' := FreedCore(disk, own, c);
        FreeInode(c);
        forall j | 0 <= j < MAX_FILES && j != c ensures SameImages(d, disk, j) {
          assert SameImages(d, d1, j) && SameImages(d1, disk, j);
        }
      }
    }

    /** ramfs_vfs_unlink: fails on a missing name and on a directory with entries. */
    method Unlink(dir: nat, name: string) returns (r: int)
      requires Valid() && dir < MAX_FILES
      modifies this
      ensures Valid() && UnlinkResult(old(disk), disk, dir, name, r)
    {
      var target := DirLookup(dir, name);
      if target.None? { return -1; }
      var c := target.value;
      if c >= MAX_FILES { return -1; }
      if disk.inodes[c].kind == Dir && disk.inodes[c].size > 0 { return -1; }
      UnlinkEntry(disk, dir, name);
      r := RemoveEntry(dir, name);
      if r < 0 { return; }
      DropTarget(dir, name, c, old(disk));
    }

    /** What follows the removal of the entry, `d` being the disk before it. */
    method DropTarget(dir: nat, name: string, c: nat, ghost d: Disk)
      requires Core(disk, own) && Files(d) && Tree(d) && dir < MAX_FILES && !UnlinkFails(d, dir, name)
               && c == Lookup(d, dir, name).value
      requires EntryPut(d, disk, dir, FindName(Entries(d, d.inodes[dir]), name, 0), EMPTY,
               d.inodes[dir].size - DIRENT_SIZE)
      requires disk.inodes[dir].blocks == d.inodes[dir].blocks
      modifies this
      ensures Valid() && UnlinkResult(d, disk, dir, name, 0)
    {
      UnlinkTarget(d, dir, name);
      ghost var d1 := disk;
      ReleaseLinks(dir, c);
      FinishUnlink(d, d1, disk, dir, name);
    }
  }
}
