/**
 Reference counting of kernel/fs/vfs.c and kernel/fs/file.c: the vnode cache
 and the open-file table, against the multiset of pointers that exist.
 */
module HandleSpec {
  import opened Counting
  import opened RamfsSpec

  const MAX_VNODES := 256
  const MAX_OPEN_FILES := 256

  /** vfs_init puts the root vnode into slot 0; vnode_unref and vnode_free ignore it. */
  const ROOT_VNODE := 0

  const NO_VNODE := -1

  datatype Vnode = Vnode(ref: nat, inode: nat, kind: Kind)

  /** The open flags the VFS looks at. */
  datatype Flags = Flags(mode: Access, creat: bool, trunc: bool, append: bool)

  datatype Access = ReadOnly | WriteOnly | ReadWrite

  datatype OpenFile = OpenFile(ref: nat, vnode: int, flags: Flags, offset: nat)

  /** A file_t pointer as found in a descriptor table or a local variable. */
  datatype FilePtr = Null | Console(fd: nat) | Entry(slot: nat)

  datatype Cache = Cache(vnodes: seq<Vnode>, files: seq<OpenFile>)

  const CLOSED := OpenFile(0, NO_VNODE, Flags(ReadOnly, false, false, false), 0)

  // ---------------------------------------------------------------- conservation

  function Holds(x: OpenFile, v: int): nat {
    if x.ref > 0 && x.vnode == v then 1 else 0
  }

  /** The number of live open files that hold vnode `v`. */
  function Holders(files: seq<OpenFile>, v: int): nat {
    if files == [] then 0 else Holders(files[..|files| - 1], v) + Holds(files[|files| - 1], v)
  }

  lemma {:induction false} HoldersUpdate(files: seq<OpenFile>, f: nat, x: OpenFile, v: int)
    requires f < |files|
    ensures Holders(files[f := x], v) + Holds(files[f], v) == Holders(files, v) + Holds(x, v)
  {
    var n := |files| - 1;
    if f == n {
      assert files[f := x][..n] == files[..n];
    } else {
      HoldersUpdate(files[..n], f, x, v);
      assert files[f := x][..n] == files[..n][f := x];
    }
  }

  lemma {:induction false} NoHolders(files: seq<OpenFile>, v: int)
    requires forall f :: 0 <= f < |files| ==> files[f].ref == 0
    ensures Holders(files, v) == 0
  {
    if files != [] { NoHolders(files[..|files| - 1], v); }
  }

  /** Live vnodes stand for different inodes. */
  ghost predicate OnePerInode(vnodes: seq<Vnode>) {
    && (forall v :: 0 <= v < |vnodes| && vnodes[v].ref > 0 ==> vnodes[v].inode < MAX_FILES)
    && (forall v, w ::
        0 <= v < w < |vnodes| && vnodes[v].ref > 0 && vnodes[w].ref > 0 ==> vnodes[v].inode != vnodes[w].inode)
  }

  /**
   Conservation: with `ptrs` the file pointers and `vh` the vnode pointers held outside
   the tables, every file count equals the pointers to it, and every vnode count but
   the root's equals the live files and pointers that hold it.
   */
  ghost predicate Conserved(c: Cache, ptrs: multiset<FilePtr>, vh: multiset<int>) {
    && |c.vnodes| == MAX_VNODES && |c.files| == MAX_OPEN_FILES
    && (forall f {:trigger c.files[f]} :: 0 <= f < MAX_OPEN_FILES ==> c.files[f].ref == ptrs[Entry(f)])
    && (forall f: nat :: Entry(f) in ptrs ==> f < MAX_OPEN_FILES)
    && (forall f :: 0 <= f < MAX_OPEN_FILES ==> c.files[f].ref > 0 ==> 0 <= c.files[f].vnode < MAX_VNODES)
    && (forall v {:trigger c.vnodes[v]} ::
        0 <= v < MAX_VNODES && v != ROOT_VNODE ==> c.vnodes[v].ref == Holders(c.files, v) + vh[v])
    && c.vnodes[ROOT_VNODE].ref > 0 && c.vnodes[ROOT_VNODE].inode == ROOT
    && OnePerInode(c.vnodes)
  }

  ghost predicate IsDir(d: Disk, i: nat) { i < |d.inodes| && d.inodes[i].kind.Dir? }

  ghost predicate Backed(x: Vnode, d: Disk) { x.ref > 0 && x.kind.Dir? ==> IsDir(d, x.inode) }

  /** A live vnode that says directory stands for a directory on the disk. */
  ghost predicate DirsBacked(vnodes: seq<Vnode>, d: Disk) {
    forall v {:trigger Backed(vnodes[v], d)} :: 0 <= v < |vnodes| ==> Backed(vnodes[v], d)
  }

  /** No directory inode is given another use. */
  ghost predicate DirsStay(d: Disk, d': Disk) { forall i: nat :: IsDir(d, i) ==> IsDir(d', i) }

  lemma StillBacked(vnodes: seq<Vnode>, d: Disk, d': Disk)
    requires DirsBacked(vnodes, d) && DirsStay(d, d')
    ensures DirsBacked(vnodes, d')
  {
    forall v | 0 <= v < |vnodes| ensures Backed(vnodes[v], d') { assert Backed(vnodes[v], d); }
  }

  /** The tables that vfs_init and init_file_table set up. */
  function InitialCache(): Cache {
    Cache([Vnode(1, ROOT, Dir)] + seq(MAX_VNODES - 1, _ => Vnode(0, 0, Unused)), seq(MAX_OPEN_FILES, _ => CLOSED))
  }

  lemma InitialConserved()
    ensures Conserved(InitialCache(), multiset{}, multiset{})
    ensures forall d :: IsDir(d, ROOT) ==> DirsBacked(InitialCache().vnodes, d) && RightKinds(InitialCache().vnodes, d)
  {
    forall v ensures Holders(InitialCache().files, v) == 0 { NoHolders(InitialCache().files, v); }
  }

  // ---------------------------------------------------------------- vnodes

  /** First live vnode of `inode` at or after `i`, or |vnodes|. */
  function FindVnode(vnodes: seq<Vnode>, inode: nat, i: nat): (v: nat)
    requires i <= |vnodes|
    ensures i <= v <= |vnodes|
    ensures v < |vnodes| ==> vnodes[v].ref > 0 && vnodes[v].inode == inode
    ensures forall k :: i <= k < v ==> !(vnodes[k].ref > 0 && vnodes[k].inode == inode)
    decreases |vnodes| - i
  {
    if i == |vnodes| || (vnodes[i].ref > 0 && vnodes[i].inode == inode) then i else FindVnode(vnodes, inode, i + 1)
  }

  /** First unreferenced vnode at or after `i`, or |vnodes|. */
  function FreeVnode(vnodes: seq<Vnode>, i: nat): (v: nat)
    requires i <= |vnodes|
    ensures i <= v <= |vnodes|
    ensures v < |vnodes| ==> vnodes[v].ref == 0
    ensures forall k :: i <= k < v ==> vnodes[k].ref > 0
    decreases |vnodes| - i
  {
    if i == |vnodes| || vnodes[i].ref == 0 then i else FreeVnode(vnodes, i + 1)
  }

  /** The slot vnode_get_or_create returns; |vnodes| when it fails. */
  function VnodeSlot(vnodes: seq<Vnode>, inode: nat): nat {
    var v := FindVnode(vnodes, inode, 0);
    if v < |vnodes| then v else FreeVnode(vnodes, 0)
  }

  function Acquire(c: Cache, inode: nat, kind: Kind): Cache
    requires VnodeSlot(c.vnodes, inode) < |c.vnodes|
  {
    var v := VnodeSlot(c.vnodes, inode);
    var x := if FindVnode(c.vnodes, inode, 0) < |c.vnodes| then c.vnodes[v].(ref := c.vnodes[v].ref + 1)
             else Vnode(1, inode, kind);
    c.(vnodes := c.vnodes[v := x])
  }

  /** The type vfs_open sees: that of the live vnode, which was copied from the inode when the vnode was made. */
  function KindSeen(c: Cache, d: Disk, inode: nat): Kind {
    var v := FindVnode(c.vnodes, inode, 0);
    if v < |c.vnodes| then c.vnodes[v].kind else if inode < |d.inodes| then d.inodes[inode].kind else Unused
  }

  /** With as many vnodes as inodes, a slot is always found. */
  lemma VnodeAlwaysAvailable(vnodes: seq<Vnode>, inode: nat)
    requires |vnodes| == MAX_VNODES && OnePerInode(vnodes) && inode < MAX_FILES
    ensures VnodeSlot(vnodes, inode) < MAX_VNODES
  {
    if VnodeSlot(vnodes, inode) == MAX_VNODES {
      var nums := seq(MAX_VNODES, v requires 0 <= v < MAX_VNODES => vnodes[v].inode);
      Pigeonhole([inode] + nums, MAX_FILES);
    }
  }

  /** vnode_get_or_create hands out one more pointer to the inode's only vnode. */
  lemma AcquireConserves(c: Cache, ptrs: multiset<FilePtr>, vh: multiset<int>, inode: nat, kind: Kind)
    requires Conserved(c, ptrs, vh) && inode < MAX_FILES
    ensures VnodeSlot(c.vnodes, inode) < MAX_VNODES
    ensures var v := VnodeSlot(c.vnodes, inode);
            && Conserved(Acquire(c, inode, kind), ptrs, vh + multiset{v})
            && Acquire(c, inode, kind).vnodes[v].inode == inode && Acquire(c, inode, kind).vnodes[v].ref > 0
  {
    VnodeAlwaysAvailable(c.vnodes, inode);
  }

  /** A vnode is made with the type of its inode. */
  lemma AcquireBacked(c: Cache, inode: nat, d: Disk)
    requires DirsBacked(c.vnodes, d) && inode < |d.inodes| && VnodeSlot(c.vnodes, inode) < |c.vnodes|
    ensures DirsBacked(Acquire(c, inode, d.inodes[inode].kind).vnodes, d)
    ensures KindSeen(c, d, inode).Dir? ==> IsDir(d, inode)
  {
    var c' := Acquire(c, inode, d.inodes[inode].kind);
    forall v | 0 <= v < |c.vnodes| ensures Backed(c'.vnodes[v], d) { assert Backed(c.vnodes[v], d); }
    var v := FindVnode(c.vnodes, inode, 0);
    if v < |c.vnodes| { assert Backed(c.vnodes[v], d); }
  }

  lemma AcquireSteady(c: Cache, inode: nat, kind: Kind)
    requires VnodeSlot(c.vnodes, inode) < |c.vnodes|
    ensures Steady(c, Acquire(c, inode, kind))
  {
    var c' := Acquire(c, inode, kind);
    forall v | 0 <= v < |c.vnodes| ensures StaysLive(c.vnodes[v], c'.vnodes[v]) {}
  }

  function Release(c: Cache, v: nat): Cache
    requires v < |c.vnodes|
  {
    if v == ROOT_VNODE || c.vnodes[v].ref == 0 then c
    else c.(vnodes := c.vnodes[v := c.vnodes[v].(ref := c.vnodes[v].ref - 1)])
  }

  /** vnode_unref gives a pointer back; a vnode is free exactly when nothing holds it. */
  lemma ReleaseConserves(c: Cache, ptrs: multiset<FilePtr>, vh: multiset<int>, v: nat)
    requires Conserved(c, ptrs, vh) && v < MAX_VNODES && v in vh
    ensures Conserved(Release(c, v), ptrs, vh - multiset{v})
  {
  }

  lemma ReleaseKeeps(c: Cache, v: nat)
    requires v < |c.vnodes|
    ensures KeepsInodes(c, Release(c, v))
  {
    forall w | 0 <= w < |c.vnodes| ensures StaysPut(c.vnodes[w], Release(c, v).vnodes[w]) {}
  }

  lemma ReleaseBacked(c: Cache, v: nat, d: Disk)
    requires DirsBacked(c.vnodes, d) && v < |c.vnodes|
    ensures DirsBacked(Release(c, v).vnodes, d)
  {
    forall w | 0 <= w < |c.vnodes| ensures Backed(Release(c, v).vnodes[w], d) { assert Backed(c.vnodes[w], d); }
  }

  /** The inode behind an open file. */
  function InodeOf(c: Cache, p: FilePtr): int {
    if p.Entry? && p.slot < |c.files|
        && 0 <= c.files[p.slot].vnode < |c.vnodes| then c.vnodes[c.files[p.slot].vnode].inode else -1
  }

  function OffsetOf(c: Cache, p: FilePtr): nat { if p.Entry? && p.slot < |c.files| then c.files[p.slot].offset else 0 }

  // ---------------------------------------------------------------- what stays

  ghost predicate StaysLive(x: Vnode, x': Vnode)
  {
    x.ref > 0 ==> x'.ref > 0 && x'.inode == x.inode && x'.kind == x.kind
  }

  /** Every live vnode stays live and keeps its inode. */
  ghost predicate Steady(c: Cache, c': Cache) {
    && |c'.vnodes| == |c.vnodes|
    && forall v {:trigger StaysLive(c.vnodes[v], c'.vnodes[v])} ::
        0 <= v < |c.vnodes| ==> StaysLive(c.vnodes[v], c'.vnodes[v])
  }

  ghost predicate StaysPut(x: Vnode, x': Vnode) { x.ref > 0 ==> x'.inode == x.inode && x'.kind == x.kind }

  /** Every live vnode keeps its inode, though it may have lost its last holder. */
  ghost predicate KeepsInodes(c: Cache, c': Cache) {
    && |c'.vnodes| == |c.vnodes|
    && forall v {:trigger StaysPut(c.vnodes[v], c'.vnodes[v])} ::
        0 <= v < |c.vnodes| ==> StaysPut(c.vnodes[v], c'.vnodes[v])
  }

  /** The same vnodes are live, with the same inodes. */
  ghost predicate SameLive(c: Cache, c': Cache) {
    Steady(c, c') && forall v {:trigger c'.vnodes[v].ref} ::
        0 <= v < |c.vnodes| && c'.vnodes[v].ref > 0 ==> c.vnodes[v].ref > 0
  }

  ghost predicate SameFile(c: Cache, c': Cache, p: FilePtr) {
    && p.Entry? && p.slot < |c.files| == |c'.files|
    && c'.files[p.slot].(ref := 0) == c.files[p.slot].(ref := 0) && InodeOf(c', p) == InodeOf(c, p) >= 0
  }

  /** Every pointer to an open file still leads to the same file, with the same flags and offset. */
  ghost predicate StillOpen(c: Cache, c': Cache, ptrs: multiset<FilePtr>) {
    forall p {:trigger SameFile(c, c', p)} :: p in ptrs && p.Entry? ==> SameFile(c, c', p)
  }

  lemma KeepsTrans(c: Cache, c1: Cache, c2: Cache)
    requires Steady(c, c1) && KeepsInodes(c1, c2)
    ensures KeepsInodes(c, c2)
  {
    forall v | 0 <= v < |c.vnodes| ensures StaysPut(c.vnodes[v], c2.vnodes[v]) {
      assert StaysLive(c.vnodes[v], c1.vnodes[v]) && StaysPut(c1.vnodes[v], c2.vnodes[v]);
    }
  }

  /** When the same files and pointers exist as before, the same vnodes are live. */
  lemma BackAgain(c: Cache, c': Cache, ptrs: multiset<FilePtr>, vh: multiset<int>)
    requires Conserved(c, ptrs, vh) && Conserved(c', ptrs, vh) && c'.files == c.files && KeepsInodes(c, c')
    ensures SameLive(c, c')
  {
    forall v | 0 <= v < |c.vnodes|
      ensures StaysLive(c.vnodes[v], c'.vnodes[v]) && (c'.vnodes[v].ref > 0 ==> c.vnodes[v].ref > 0)
    {
      assert StaysPut(c.vnodes[v], c'.vnodes[v]);
    }
  }

  lemma TakenAndGiven(c: Cache, c1: Cache, c2: Cache, ptrs: multiset<FilePtr>, vh: multiset<int>)
    requires Conserved(c, ptrs, vh) && Conserved(c2, ptrs, vh) && Steady(c, c1) && KeepsInodes(c1, c2)
    requires c2.files == c.files
    ensures SameLive(c, c2)
  {
    KeepsTrans(c, c1, c2);
    BackAgain(c, c2, ptrs, vh);
  }

  /** When no fewer vnode pointers are held than before, live vnodes stay live. */
  lemma MoreHeld(c: Cache, c': Cache, ptrs: multiset<FilePtr>, vh: multiset<int>, vh': multiset<int>)
    requires Conserved(c, ptrs, vh) && Conserved(c', ptrs, vh') && vh <= vh' && c'.files == c.files
             && KeepsInodes(c, c')
    ensures Steady(c, c')
  {
    forall v | 0 <= v < |c.vnodes|
      ensures StaysLive(c.vnodes[v], c'.vnodes[v])
    {
      assert StaysPut(c.vnodes[v], c'.vnodes[v]);
    }
  }

  /** Vnodes taken and given back: nothing is left of it. */
  lemma NetZero(c: Cache, c1: Cache, c2: Cache, ptrs: multiset<FilePtr>)
    requires Conserved(c, ptrs, multiset{}) && Conserved(c2, ptrs, multiset{}) && c2.files == c.files
    requires Steady(c, c1) && KeepsInodes(c1, c2)
    ensures SameLive(c, c2) && StillOpen(c, c2, ptrs)
  {
    KeepsTrans(c, c1, c2);
    BackAgain(c, c2, ptrs, multiset{});
    StaysOpen(c, c2, ptrs, multiset{});
  }

  lemma StaysOpen(c: Cache, c': Cache, ptrs: multiset<FilePtr>, vh: multiset<int>)
    requires Conserved(c, ptrs, vh) && Steady(c, c') && |c'.files| == |c.files|
    requires forall f {:trigger c'.files[f]} ::
             0 <= f < |c.files| && c.files[f].ref > 0 ==> c'.files[f].(ref := 0) == c.files[f].(ref := 0)
    ensures StillOpen(c, c', ptrs)
  {
    forall p | p in ptrs && p.Entry? ensures SameFile(c, c', p) {
      OpenIsBacked(c, ptrs, vh, p.slot);
      assert StaysLive(c.vnodes[c.files[p.slot].vnode], c'.vnodes[c.files[p.slot].vnode]);
      assert c.files[p.slot].ref == ptrs[p];
    }
  }

  // ---------------------------------------------------------------- open files

  predicate FilesFull(files: seq<OpenFile>) { forall f :: 0 <= f < |files| ==> files[f].ref > 0 }

  function FreeFile(files: seq<OpenFile>, i: nat): (f: nat)
    requires i <= |files|
    ensures i <= f <= |files|
    ensures f < |files| ==> files[f].ref == 0
    ensures forall k :: i <= k < f ==> files[k].ref > 0
    decreases |files| - i
  {
    if i == |files| || files[i].ref == 0 then i else FreeFile(files, i + 1)
  }

  function SetFile(c: Cache, f: nat, x: OpenFile): Cache
    requires f < |c.files|
  {
    c.(files := c.files[f := x])
  }

  /** Opening turns a vnode pointer into a file pointer; the slot was referenced by nothing. */
  lemma OpenConserves(c: Cache, ptrs: multiset<FilePtr>, vh: multiset<int>, f: nat, x: OpenFile)
    requires Conserved(c, ptrs, vh) && f < MAX_OPEN_FILES && c.files[f].ref == 0
    requires x.ref == 1 && 0 <= x.vnode < MAX_VNODES && x.vnode in vh
    ensures Entry(f) !in ptrs
    ensures Conserved(SetFile(c, f, x), ptrs + multiset{Entry(f)}, vh - multiset{x.vnode})
  {
    var c' := SetFile(c, f, x);
    assert c.files[f].ref == ptrs[Entry(f)];
    forall v | 0 <= v < MAX_VNODES && v != ROOT_VNODE
      ensures c'.vnodes[v].ref == Holders(c'.files, v) + (vh - multiset{x.vnode})[v]
    {
      HoldersUpdate(c.files, f, x, v);
    }
  }

  function RefFile(c: Cache, p: FilePtr): Cache {
    if p.Entry? && p.slot < |c.files| then SetFile(c, p.slot, c.files[p.slot].(ref := c.files[p.slot].ref + 1)) else c
  }

  /** The vnode of an open file is live, so its inode number is in range. */
  lemma OpenIsBacked(c: Cache, ptrs: multiset<FilePtr>, vh: multiset<int>, f: nat)
    requires Conserved(c, ptrs, vh) && Entry(f) in ptrs
    ensures f < MAX_OPEN_FILES && 0 <= c.files[f].vnode < MAX_VNODES
    ensures c.vnodes[c.files[f].vnode].ref > 0 && c.vnodes[c.files[f].vnode].inode < MAX_FILES
  {
    assert c.files[f].ref == ptrs[Entry(f)];
    HoldersUpdate(c.files, f, CLOSED, c.files[f].vnode);
    assert c.vnodes[c.files[f].vnode].ref > 0;
  }

  /** Moving the offset of an open file changes no count. */
  lemma MoveConserves(c: Cache, ptrs: multiset<FilePtr>, vh: multiset<int>, f: nat, offset: nat)
    requires Conserved(c, ptrs, vh) && f < MAX_OPEN_FILES
    ensures Conserved(SetFile(c, f, c.files[f].(offset := offset)), ptrs, vh)
  {
    var x := c.files[f].(offset := offset);
    forall v ensures Holders(c.files[f := x], v) == Holders(c.files, v) { HoldersUpdate(c.files, f, x, v); }
  }

  /** file_ref: one more pointer to a file that is already open. */
  lemma RefConserves(c: Cache, ptrs: multiset<FilePtr>, vh: multiset<int>, p: FilePtr)
    requires Conserved(c, ptrs, vh) && (p.Entry? ==> p.slot < MAX_OPEN_FILES && p in ptrs)
    ensures Conserved(RefFile(c, p), ptrs + multiset{p}, vh)
  {
    if p.Entry? {
      var x := c.files[p.slot].(ref := c.files[p.slot].ref + 1);
      assert c.files[p.slot].ref == ptrs[p];
      forall v | 0 <= v < MAX_VNODES && v != ROOT_VNODE ensures Holders(RefFile(c, p).files, v) == Holders(c.files, v) {
        HoldersUpdate(c.files, p.slot, x, v);
      }
    }
  }

  /** file_unref, including file_free and the vnode_unref it makes. */
  function UnrefFile(c: Cache, p: FilePtr): Cache {
    if !p.Entry? || p.slot >= |c.files| || c.files[p.slot].ref == 0 then c
    else
      var x := c.files[p.slot];
      if x.ref > 1 then SetFile(c, p.slot, x.(ref := x.ref - 1))
      else if 0 <= x.vnode < |c.vnodes| then SetFile(Release(c, x.vnode), p.slot, CLOSED)
      else SetFile(c, p.slot, CLOSED)
  }

  /** file_unref: one pointer less; with the last one the file and its hold on the vnode go. */
  lemma UnrefConserves(c: Cache, ptrs: multiset<FilePtr>, vh: multiset<int>, p: FilePtr)
    requires Conserved(c, ptrs, vh) && p in ptrs
    ensures Conserved(UnrefFile(c, p), ptrs - multiset{p}, vh)
  {
    if p.Entry? && p.slot < MAX_OPEN_FILES {
      var x := c.files[p.slot];
      assert x.ref == ptrs[p];
      if x.ref > 1 {
        ShrinkConserves(c, ptrs, vh, p.slot);
      } else {
        CloseConserves(c, ptrs, vh, p.slot);
      }
    }
  }

  lemma UnrefBacked(c: Cache, p: FilePtr, d: Disk)
    requires DirsBacked(c.vnodes, d)
    ensures DirsBacked(UnrefFile(c, p).vnodes, d)
  {
    if p.Entry? && p.slot < |c.files| && 0 <= c.files[p.slot].vnode < |c.vnodes| {
      ReleaseBacked(c, c.files[p.slot].vnode, d);
    }
  }

  lemma ShrinkConserves(c: Cache, ptrs: multiset<FilePtr>, vh: multiset<int>, f: nat)
    requires Conserved(c, ptrs, vh) && f < MAX_OPEN_FILES && c.files[f].ref > 1
    ensures Conserved(SetFile(c, f, c.files[f].(ref := c.files[f].ref - 1)), ptrs - multiset{Entry(f)}, vh)
  {
    var x := c.files[f].(ref := c.files[f].ref - 1);
    forall v | 0 <= v < MAX_VNODES
        && v != ROOT_VNODE ensures Holders(SetFile(c, f, x).files, v) == Holders(c.files, v) {
      HoldersUpdate(c.files, f, x, v);
    }
  }

  lemma CloseConserves(c: Cache, ptrs: multiset<FilePtr>, vh: multiset<int>, f: nat)
    requires Conserved(c, ptrs, vh) && f < MAX_OPEN_FILES && c.files[f].ref == 1
    ensures 0 <= c.files[f].vnode < MAX_VNODES
    ensures Conserved(SetFile(Release(c, c.files[f].vnode), f, CLOSED), ptrs - multiset{Entry(f)}, vh)
  {
    var w := c.files[f].vnode;
    var c' := SetFile(Release(c, w), f, CLOSED);
    forall v | 0 <= v < MAX_VNODES && v != ROOT_VNODE ensures c'.vnodes[v].ref == Holders(c'.files, v) + vh[v] {
      HoldersUpdate(c.files, f, CLOSED, v);
    }
  }

  // ---------------------------------------------------------------- kinds

  ghost predicate RightKind(x: Vnode, d: Disk) {
    x.ref > 0 ==> !x.kind.Unused? && x.inode < |d.inodes| && d.inodes[x.inode].kind == x.kind
  }

  /** Every live vnode has the kind of its inode, which is in use. */
  ghost predicate RightKinds(vnodes: seq<Vnode>, d: Disk) {
    forall v {:trigger RightKind(vnodes[v], d)} :: 0 <= v < |vnodes| ==> RightKind(vnodes[v], d)
  }

  /** Inodes in use keep their kind. */
  ghost predicate UsedStay(d: Disk, d': Disk) {
    |d'.inodes| == |d.inodes| && forall i: nat ::
        i < |d.inodes| && !d.inodes[i].kind.Unused? ==> d'.inodes[i].kind == d.inodes[i].kind
  }

  lemma StillRight(vnodes: seq<Vnode>, d: Disk, d': Disk)
    requires UsedStay(d, d')
    ensures RightKinds(vnodes, d) ==> RightKinds(vnodes, d')
  {
    if RightKinds(vnodes, d) {
      forall v | 0 <= v < |vnodes| ensures RightKind(vnodes[v], d') { assert RightKind(vnodes[v], d); }
    }
  }

  lemma AcquireRight(c: Cache, inode: nat, d: Disk)
    requires inode < |d.inodes| && VnodeSlot(c.vnodes, inode) < |c.vnodes|
    ensures RightKinds(c.vnodes, d) && !d.inodes[inode].kind.Unused? ==>
            RightKinds(Acquire(c, inode, d.inodes[inode].kind).vnodes, d)
  {
    if RightKinds(c.vnodes, d) && !d.inodes[inode].kind.Unused? {
      var c' := Acquire(c, inode, d.inodes[inode].kind);
      forall v | 0 <= v < |c.vnodes| ensures RightKind(c'.vnodes[v], d) { assert RightKind(c.vnodes[v], d); }
    }
  }

  lemma ReleaseRight(c: Cache, v: nat, d: Disk)
    requires v < |c.vnodes|
    ensures RightKinds(c.vnodes, d) ==> RightKinds(Release(c, v).vnodes, d)
  {
    if RightKinds(c.vnodes, d) {
      forall w | 0 <= w < |c.vnodes| ensures RightKind(Release(c, v).vnodes[w], d) { assert RightKind(c.vnodes[w], d); }
    }
  }

  lemma UnrefRight(c: Cache, p: FilePtr, d: Disk)
    ensures RightKinds(c.vnodes, d) ==> RightKinds(UnrefFile(c, p).vnodes, d)
  {
    if p.Entry? && p.slot < |c.files| && 0 <= c.files[p.slot].vnode < |c.vnodes| {
      ReleaseRight(c, c.files[p.slot].vnode, d);
    }
  }

  lemma SameLiveRight(c: Cache, c': Cache, d: Disk)
    requires SameLive(c, c')
    ensures RightKinds(c.vnodes, d) ==> RightKinds(c'.vnodes, d)
  {
    if RightKinds(c.vnodes, d) {
      forall v | 0 <= v < |c'.vnodes| ensures RightKind(c'.vnodes[v], d) {
        assert RightKind(c.vnodes[v], d) && StaysLive(c.vnodes[v], c'.vnodes[v]);
      }
    }
  }

  /** With the kinds right, vfs_open sees the kind of the inode. */
  lemma RightKindSeen(c: Cache, d: Disk, inode: nat)
    requires RightKinds(c.vnodes, d) && inode < |d.inodes|
    ensures KindSeen(c, d, inode) == d.inodes[inode].kind
  {
    var v := FindVnode(c.vnodes, inode, 0);
    if v < |c.vnodes| { assert RightKind(c.vnodes[v], d); }
  }

  ghost predicate HasVnode(c: Cache, inode: nat) { FindVnode(c.vnodes, inode, 0) < |c.vnodes| }

  /** Freeing inode `t` leaves the kinds right exactly when no live vnode stands for it. */
  lemma FreedKindsIff(c: Cache, c': Cache, d: Disk, d': Disk, t: nat)
    requires RightKinds(c.vnodes, d) && SameLive(c, c') && t < |d.inodes| == |d'.inodes|
    requires forall i: nat ::
             i < |d.inodes| && i != t && !d.inodes[i].kind.Unused? ==> d'.inodes[i].kind == d.inodes[i].kind
    requires !d.inodes[t].kind.Unused? && (d'.inodes[t].kind == d.inodes[t].kind || d'.inodes[t].kind.Unused?)
    ensures RightKinds(c'.vnodes, d') <==> d'.inodes[t].kind == d.inodes[t].kind || !HasVnode(c, t)
  {
    SameLiveRight(c, c', d);
    var v := FindVnode(c.vnodes, t, 0);
    if HasVnode(c, t) && d'.inodes[t].kind.Unused? {
      assert StaysLive(c.vnodes[v], c'.vnodes[v]);
      assert !RightKind(c'.vnodes[v], d');
    } else {
      forall w | 0 <= w < |c'.vnodes| ensures RightKind(c'.vnodes[w], d') {
        assert RightKind(c'.vnodes[w], d) && StaysLive(c.vnodes[w], c'.vnodes[w]);
      }
    }
  }

  // ---------------------------------------------------------------- opening, seen by the others

  /** The unreferenced slot `f`, and no other, changed. */
  ghost predicate OnlyFile(files: seq<OpenFile>, files': seq<OpenFile>, f: nat) {
    f < |files| == |files'| && files[f].ref == 0 && files' == files[f := files'[f]]
  }

  /** A held vnode became the open file `p`, or was given back. */
  ghost predicate HeldFrame(c: Cache, c': Cache, p: FilePtr) {
    if p.Null? then KeepsInodes(c, c') && c'.files == c.files
    else p.Entry? && c'.vnodes == c.vnodes && OnlyFile(c.files, c'.files, p.slot)
  }

  /** What opening `p`, or failing to, leaves as it was. */
  ghost predicate OpenFrame(c: Cache, c': Cache, ptrs: multiset<FilePtr>, p: FilePtr) {
    && Steady(c, c') && StillOpen(c, c', ptrs)
    && if p.Null? then SameLive(c, c') && c'.files == c.files else p.Entry? && OnlyFile(c.files, c'.files, p.slot)
  }

  lemma HeldIsOpenFrame(c: Cache, c1: Cache, c2: Cache, ptrs: multiset<FilePtr>, p: FilePtr)
    requires Conserved(c, ptrs, multiset{}) && Steady(c, c1) && c1.files == c.files && HeldFrame(c1, c2, p)
    requires p.Null? ==> Conserved(c2, ptrs, multiset{})
    ensures OpenFrame(c, c2, ptrs, p)
  {
    if p.Null? {
      NetZero(c, c1, c2, ptrs);
    } else {
      forall v | 0 <= v < |c.vnodes|
        ensures StaysLive(c.vnodes[v], c2.vnodes[v])
      {
        assert StaysLive(c.vnodes[v], c1.vnodes[v]);
      }
      StaysOpen(c, c2, ptrs, multiset{});
    }
  }

  /** The same for a vnode `v` that is still held, or -1 when there is none. */
  lemma HeldIsSteady(c: Cache, c1: Cache, c2: Cache, ptrs: multiset<FilePtr>, v: int)
    requires Conserved(c, ptrs, multiset{}) && Steady(c, c1) && KeepsInodes(c1, c2) && c2.files == c.files
    requires if v == -1 then Conserved(c2, ptrs, multiset{}) else Conserved(c2, ptrs, multiset{v})
    ensures Steady(c, c2) && (v == -1 ==> OpenFrame(c, c2, ptrs, Null))
  {
    if v == -1 {
      NetZero(c, c1, c2, ptrs);
    } else {
      KeepsTrans(c, c1, c2);
      MoreHeld(c, c2, ptrs, multiset{}, multiset{v});
    }
  }

  lemma NothingIsOpenFrame(c: Cache, ptrs: multiset<FilePtr>)
    requires Conserved(c, ptrs, multiset{})
    ensures OpenFrame(c, c, ptrs, Null)
  {
    StaysOpen(c, c, ptrs, multiset{});
  }

  // ---------------------------------------------------------------- closing and copying, seen by the others

  /** Whoever still holds a file after one pointer to it is given back sees no change. */
  lemma UnrefStillOpen(c: Cache, ptrs: multiset<FilePtr>, vh: multiset<int>, p: FilePtr)
    requires Conserved(c, ptrs, vh) && p in ptrs
    ensures StillOpen(c, UnrefFile(c, p), ptrs - multiset{p})
  {
    var c' := UnrefFile(c, p);
    forall q | q in ptrs - multiset{p} && q.Entry? ensures SameFile(c, c', q) {
      OpenIsBacked(c, ptrs, vh, q.slot);
      assert c.files[q.slot].ref == ptrs[q];
      if q == p { assert ptrs[p] > 1; }
    }
  }

  /** What giving back a file pointer keeps. */
  lemma UnrefKeeps(c: Cache, ptrs: multiset<FilePtr>, p: FilePtr, d: Disk)
    requires Conserved(c, ptrs, multiset{}) && p in ptrs && DirsBacked(c.vnodes, d)
    ensures Conserved(UnrefFile(c, p), ptrs - multiset{p}, multiset{}) && DirsBacked(UnrefFile(c, p).vnodes, d)
    ensures StillOpen(c, UnrefFile(c, p), ptrs - multiset{p})
    ensures RightKinds(c.vnodes, d) ==> RightKinds(UnrefFile(c, p).vnodes, d)
  {
    UnrefConserves(c, ptrs, multiset{}, p);
    UnrefBacked(c, p, d);
    UnrefStillOpen(c, ptrs, multiset{}, p);
    UnrefRight(c, p, d);
  }

  lemma StillOpenTrans(c: Cache, c1: Cache, c2: Cache, ptrs: multiset<FilePtr>, ptrs': multiset<FilePtr>)
    requires StillOpen(c, c1, ptrs) && StillOpen(c1, c2, ptrs') && forall q :: q in ptrs' && q.Entry? ==> q in ptrs
    ensures StillOpen(c, c2, ptrs')
  {
    forall q | q in ptrs' && q.Entry? ensures SameFile(c, c2, q) { assert SameFile(c, c1, q) && SameFile(c1, c2, q); }
  }

  // ---------------------------------------------------------------- descriptor tables

  const MAX_FD := 16

  /** All pointers found in the descriptor tables. */
  function TablePtrs(tables: seq<seq<FilePtr>>): multiset<FilePtr> {
    if tables == [] then multiset{} else TablePtrs(tables[..|tables| - 1]) + multiset(tables[|tables| - 1])
  }

  lemma {:induction false} TableUpdate(tables: seq<seq<FilePtr>>, t: nat, table: seq<FilePtr>)
    requires t < |tables|
    ensures TablePtrs(tables[t := table]) == TablePtrs(tables) - multiset(tables[t]) + multiset(table)
    ensures multiset(tables[t]) <= TablePtrs(tables)
  {
    var n := |tables| - 1;
    if t == n {
      assert tables[t := table][..n] == tables[..n];
    } else {
      TableUpdate(tables[..n], t, table);
      assert tables[t := table][..n] == tables[..n][t := table];
    }
  }

  /** Changing one descriptor changes one pointer. */
  lemma EntryUpdate(tables: seq<seq<FilePtr>>, t: nat, fd: nat, p: FilePtr)
    requires t < |tables| && fd < |tables[t]|
    ensures TablePtrs(tables[t := tables[t][fd := p]]) == TablePtrs(tables) - multiset{tables[t][fd]} + multiset{p}
    ensures tables[t][fd] in TablePtrs(tables)
  {
    TableUpdate(tables, t, tables[t][fd := p]);
    assert multiset(tables[t][fd := p]) == multiset(tables[t]) - multiset{tables[t][fd]} + multiset{p};
    assert tables[t][fd] in multiset(tables[t]);
  }

  /** Null and console pointers do not count. */
  lemma SameEntries(c: Cache, a: multiset<FilePtr>, b: multiset<FilePtr>)
    requires Conserved(c, a, multiset{}) && forall f :: a[Entry(f)] == b[Entry(f)]
    ensures Conserved(c, b, multiset{})
  {
  }

  lemma InstallConserves(c: Cache, tables: seq<seq<FilePtr>>, handles: multiset<FilePtr>, t: nat, fd: nat, p: FilePtr)
    requires Conserved(c, TablePtrs(tables) + handles, multiset{})
    requires t < |tables| && fd < |tables[t]| && tables[t][fd].Null? && p in handles
    ensures Conserved(c, TablePtrs(tables[t := tables[t][fd := p]]) + (handles - multiset{p}), multiset{})
  {
    EntryUpdate(tables, t, fd, p);
    SameEntries(c, TablePtrs(tables) + handles, TablePtrs(tables[t := tables[t][fd := p]]) + (handles - multiset{p}));
  }

  lemma CloseEntryConserves(c: Cache, tables: seq<seq<FilePtr>>, handles: multiset<FilePtr>, t: nat, fd: nat)
    requires Conserved(c, TablePtrs(tables) + handles, multiset{})
    requires t < |tables| && fd < |tables[t]|
    ensures Conserved(UnrefFile(c, tables[t][fd]), TablePtrs(tables[t := tables[t][fd := Null]]) + handles, multiset{})
  {
    var p := tables[t][fd];
    EntryUpdate(tables, t, fd, Null);
    UnrefConserves(c, TablePtrs(tables) + handles, multiset{}, p);
    SameEntries(UnrefFile(c, p), TablePtrs(tables) + handles - multiset{p},
        TablePtrs(tables[t := tables[t][fd := Null]]) + handles);
  }

  lemma CloseEntryStillOpen(c: Cache, tables: seq<seq<FilePtr>>, handles: multiset<FilePtr>, t: nat, fd: nat)
    requires Conserved(c, TablePtrs(tables) + handles, multiset{}) && t < |tables| && fd < |tables[t]|
    ensures var ptrs := TablePtrs(tables[t := tables[t][fd := Null]]) + handles;
            && StillOpen(c, UnrefFile(c, tables[t][fd]), ptrs)
            && forall q :: q in ptrs && q.Entry? ==> q in TablePtrs(tables) + handles
  {
    var p, ptrs := tables[t][fd], TablePtrs(tables) + handles;
    EntryUpdate(tables, t, fd, Null);
    UnrefStillOpen(c, ptrs, multiset{}, p);
    forall q | q in TablePtrs(tables[t := tables[t][fd := Null]]) + handles && q.Entry?
      ensures SameFile(c, UnrefFile(c, p), q) && q in ptrs
    {
      assert q in ptrs - multiset{p};
    }
  }

  lemma NewTablePtrs(tables: seq<seq<FilePtr>>, row: seq<FilePtr>)
    ensures TablePtrs(tables + [row]) == TablePtrs(tables) + multiset(row)
  {
    assert (tables + [row])[..|tables|] == tables;
  }

  /** Copying a descriptor into another table, with one more reference. */
  lemma CopyEntryConserves(c: Cache, tables: seq<seq<FilePtr>>, handles: multiset<FilePtr>, t: nat, fd: nat, u: nat)
    requires Conserved(c, TablePtrs(tables) + handles, multiset{})
    requires t < |tables| && u < |tables| && fd < |tables[t]| && fd < |tables[u]| && tables[u][fd].Null?
    requires tables[t][fd].Entry? ==> tables[t][fd].slot < MAX_OPEN_FILES
    ensures Conserved(RefFile(c, tables[t][fd]), TablePtrs(tables[u := tables[u][fd := tables[t][fd]]]) + handles,
            multiset{})
  {
    var p := tables[t][fd];
    assert p in TablePtrs(tables) + handles by { EntryUpdate(tables, t, fd, p); }
    RefConserves(c, TablePtrs(tables) + handles, multiset{}, p);
    FilledSlot(tables, u, fd, p, handles);
    SameEntries(RefFile(c, p), TablePtrs(tables) + handles + multiset{p},
        TablePtrs(tables[u := tables[u][fd := p]]) + handles);
  }

  /** Filling an unused descriptor adds one pointer. */
  lemma FilledSlot(tables: seq<seq<FilePtr>>, u: nat, fd: nat, p: FilePtr, handles: multiset<FilePtr>)
    requires u < |tables| && fd < |tables[u]| && tables[u][fd].Null?
    ensures forall f ::
            (TablePtrs(tables[u := tables[u][fd := p]]) + handles)[Entry(f)] ==
            (TablePtrs(tables) + handles + multiset{p})[Entry(f)]
  {
    EntryUpdate(tables, u, fd, p);
  }

  /** Every file has one more reference for each descriptor of `row` that points to it. */
  ghost predicate Rereferenced(files: seq<OpenFile>, files': seq<OpenFile>, row: seq<FilePtr>) {
    && |files'| == |files|
    && forall f {:trigger files'[f]} ::
        0 <= f < |files| ==> files'[f] == files[f].(ref := files[f].ref + multiset(row)[Entry(f)])
  }

  /** Two file tables that differ in reference counts only. */
  ghost predicate SameButRefs(files: seq<OpenFile>, files': seq<OpenFile>) {
    |files'| == |files| && forall f {:trigger files'[f]} ::
        0 <= f < |files| ==> files'[f] == files[f].(ref := files'[f].ref)
  }

  lemma CloneReferences(c: Cache, c': Cache, ptrs: multiset<FilePtr>, ptrs': multiset<FilePtr>, row: seq<FilePtr>)
    requires Conserved(c, ptrs, multiset{}) && Conserved(c', ptrs', multiset{}) && ptrs' == ptrs + multiset(row)
    requires c'.vnodes == c.vnodes && SameButRefs(c.files, c'.files)
    ensures Rereferenced(c.files, c'.files, row) && StillOpen(c, c', ptrs)
  {
    forall f | 0 <= f < |c.files| ensures c'.files[f] == c.files[f].(ref := c.files[f].ref + multiset(row)[Entry(f)]) {
      assert c.files[f].ref == ptrs[Entry(f)] && c'.files[f].ref == ptrs'[Entry(f)];
    }
    StaysOpen(c, c', ptrs, multiset{});
  }

  lemma NewTableConserves(c: Cache, tables: seq<seq<FilePtr>>, handles: multiset<FilePtr>, table: seq<FilePtr>)
    requires Conserved(c, TablePtrs(tables) + handles, multiset{})
    requires forall k :: 0 <= k < |table| ==> !table[k].Entry?
    ensures Conserved(c, TablePtrs(tables + [table]) + handles, multiset{})
  {
  }

  /** One table gained an open file in its lowest free descriptor, and nothing else changed. */
  ghost predicate Installed(tables: seq<seq<FilePtr>>, tables': seq<seq<FilePtr>>, t: nat, fd: int) {
    && t < |tables| && |tables| == |tables'| && 0 <= fd < |tables[t]| && |tables[t]| == |tables'[t]|
    && tables[t][fd].Null? && (forall k :: 0 <= k < fd ==> !tables[t][k].Null?)
    && tables'[t][fd].Entry?
    && tables' == tables[t := tables[t][fd := tables'[t][fd]]]
  }
}
