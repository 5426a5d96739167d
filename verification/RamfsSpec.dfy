/**
 The RAM disk of kernel/fs/ramfs.c as a value: inode table, bitmaps, free
 counts and data blocks. A data block is kept in two views, bytes for the
 files that own it and directory entries for the directories that own it; a
 freshly allocated block is zero in both.
 */
module RamfsSpec {
  import opened Basics
  import opened Counting

  const MAX_FILES := 256
  const BLOCK_COUNT := 1024
  const DATA_START := 9
  const DIRECT := 12
  const BLOCK_SIZE := 4096
  const MAX_SIZE := 49152
  const PER_BLOCK := 64
  const MAX_ENTRIES := 768
  const DIRENT_SIZE := 64
  const MAX_FILENAME := 60
  const ROOT := 0

  type Byte = b: int | 0 <= b < 256

  datatype Kind = Unused | File | Dir | Special

  datatype Inode = Inode(kind: Kind, size: nat, links: nat, blockCount: nat, blocks: seq<nat>, parent: nat)

  datatype Dirent = Dirent(inode: nat, name: string, kind: Kind)

  datatype Disk = Disk(
    inodes: seq<Inode>,
    inodeMap: seq<bool>,
    blockMap: seq<bool>,
    freeInodes: nat,
    freeBlocks: nat,
    bytes: seq<seq<Byte>>,
    dirents: seq<seq<Dirent>>)

  const EMPTY := Dirent(0, "", Unused)

  function Zeros(): (r: seq<nat>)
    ensures |r| == DIRECT && forall i :: 0 <= i < DIRECT ==> r[i] == 0
  {
    seq(DIRECT, _ => 0)
  }

  function ZeroInode(): Inode {
    Inode(Unused, 0, 0, 0, Zeros(), 0)
  }

  function ZeroBytes(): (r: seq<Byte>)
    ensures |r| == BLOCK_SIZE && forall i :: 0 <= i < BLOCK_SIZE ==> r[i] == 0
  {
    seq(BLOCK_SIZE, _ => 0)
  }

  function NoEntries(): (r: seq<Dirent>)
    ensures |r| == PER_BLOCK && forall i :: 0 <= i < PER_BLOCK ==> r[i] == EMPTY
  {
    seq(PER_BLOCK, _ => EMPTY)
  }

  // ---------------------------------------------------------------- block ownership

  ghost predicate Shape(d: Disk) {
    && |d.inodes| == MAX_FILES && |d.inodeMap| == MAX_FILES
    && |d.blockMap| == BLOCK_COUNT && |d.bytes| == BLOCK_COUNT && |d.dirents| == BLOCK_COUNT
    && (forall b :: 0 <= b < BLOCK_COUNT ==> |d.bytes[b]| == BLOCK_SIZE)
    && (forall b :: 0 <= b < BLOCK_COUNT ==> |d.dirents[b]| == PER_BLOCK)
    && (forall i :: 0 <= i < MAX_FILES ==> |d.inodes[i].blocks| == DIRECT)
  }

  /** Block pointer `s` of inode `i` is in use. */
  predicate Owns(inodes: seq<Inode>, i: nat, s: nat) {
    i < |inodes| && s < |inodes[i].blocks| && inodes[i].blocks[s] != 0
  }

  /** Block -> (inode, slot). */
  type Owner = map<nat, (nat, nat)>

  /** `own` is exactly the inverse of the block pointers. */
  ghost predicate Owned(inodes: seq<Inode>, own: Owner) {
    && (forall i: nat, s: nat {:trigger Owns(inodes, i, s)} ::
        Owns(inodes, i, s) ==> inodes[i].blocks[s] in own && own[inodes[i].blocks[s]] == (i, s))
    && (forall b: nat {:trigger b in own} :: b in own ==>
          DATA_START <= b < BLOCK_COUNT && Owns(inodes, own[b].0, own[b].1) && inodes[own[b].0].blocks[own[b].1] == b)
  }

  /** The block bitmap marks the reserved and the owned blocks, and the free count is right. */
  ghost predicate BlockBits(blockMap: seq<bool>, freeBlocks: nat, own: Owner) {
    && |blockMap| == BLOCK_COUNT
    && (forall b :: 0 <= b < BLOCK_COUNT ==> (blockMap[b] <==> b < DATA_START || b in own))
    && freeBlocks == Clear(blockMap)
  }

  /** The inode bitmap marks the used inodes; unused inodes are all zero. */
  ghost predicate InodeBits(inodes: seq<Inode>, inodeMap: seq<bool>, freeInodes: nat) {
    && |inodes| == |inodeMap| == MAX_FILES
    && (forall i {:trigger inodeMap[i]} {:trigger inodes[i].kind} ::
        0 <= i < MAX_FILES ==> (inodeMap[i] <==> !inodes[i].kind.Unused?))
    && (forall i {:trigger inodes[i].kind} ::
        0 <= i < MAX_FILES ==> inodes[i].kind.Unused? ==> inodes[i] == ZeroInode())
    && (forall i {:trigger inodes[i].blockCount} ::
        0 <= i < MAX_FILES ==> inodes[i].blockCount == NonZero(inodes[i].blocks))
    && freeInodes == Clear(inodeMap)
  }

  /**
   Every used data block has exactly one owner, `own` says which; the bitmaps and
   free counts describe exactly the used blocks and inodes.
   */
  ghost predicate Core(d: Disk, own: Owner) {
    && Shape(d)
    && Owned(d.inodes, own)
    && BlockBits(d.blockMap, d.freeBlocks, own)
    && InodeBits(d.inodes, d.inodeMap, d.freeInodes)
  }

  // ---------------------------------------------------------------- the two images of an inode

  function SlotBytes(d: Disk, x: Inode, s: nat): (r: seq<Byte>)
    requires |x.blocks| == DIRECT && s < DIRECT
    ensures |r| == BLOCK_SIZE
  {
    var b := x.blocks[s];
    if b == 0 || b >= |d.bytes| || |d.bytes[b]| != BLOCK_SIZE then ZeroBytes() else d.bytes[b]
  }

  function SlotEntries(d: Disk, x: Inode, s: nat): (r: seq<Dirent>)
    requires |x.blocks| == DIRECT && s < DIRECT
    ensures |r| == PER_BLOCK
  {
    var b := x.blocks[s];
    if b == 0 || b >= |d.dirents| || |d.dirents[b]| != PER_BLOCK then NoEntries() else d.dirents[b]
  }

  function ByteAt(d: Disk, x: Inode, k: nat): Byte
    requires |x.blocks| == DIRECT && k < MAX_SIZE
  {
    SlotBytes(d, x, k / BLOCK_SIZE)[k % BLOCK_SIZE]
  }

  function EntryAt(d: Disk, x: Inode, p: nat): Dirent
    requires |x.blocks| == DIRECT && p < MAX_ENTRIES
  {
    SlotEntries(d, x, p / PER_BLOCK)[p % PER_BLOCK]
  }

  /** All 48 KB an inode can address, holes reading as zero. */
  function Image(d: Disk, x: Inode): (r: seq<Byte>)
    requires |x.blocks| == DIRECT
    ensures |r| == MAX_SIZE
    ensures forall k :: 0 <= k < MAX_SIZE ==> r[k] == ByteAt(d, x, k)
  {
    seq(MAX_SIZE, k requires 0 <= k < MAX_SIZE => ByteAt(d, x, k))
  }

  /** The 768 directory slots an inode can address. */
  function Entries(d: Disk, x: Inode): (r: seq<Dirent>)
    requires |x.blocks| == DIRECT
    ensures |r| == MAX_ENTRIES
    ensures forall p :: 0 <= p < MAX_ENTRIES ==> r[p] == EntryAt(d, x, p)
  {
    seq(MAX_ENTRIES, p requires 0 <= p < MAX_ENTRIES => EntryAt(d, x, p))
  }

  ghost predicate SameImages(d: Disk, d': Disk, i: nat)
    requires Shape(d) && Shape(d') && i < MAX_FILES
  {
    Image(d', d'.inodes[i]) == Image(d, d.inodes[i]) && Entries(d', d'.inodes[i]) == Entries(d, d.inodes[i])
  }

  lemma ImageFromSlots(d: Disk, x: Inode, d': Disk, x': Inode)
    requires |x.blocks| == DIRECT && |x'.blocks| == DIRECT
    requires forall s :: 0 <= s < DIRECT ==> SlotBytes(d', x', s) == SlotBytes(d, x, s)
    ensures Image(d', x') == Image(d, x)
  {
  }

  lemma EntriesFromSlots(d: Disk, x: Inode, d': Disk, x': Inode)
    requires |x.blocks| == DIRECT && |x'.blocks| == DIRECT
    requires forall s :: 0 <= s < DIRECT ==> SlotEntries(d', x', s) == SlotEntries(d, x, s)
    ensures Entries(d', x') == Entries(d, x)
  {
  }

  /** An inode whose blocks are not among those that change keeps its images. */
  lemma ImagesUntouched(d: Disk, d': Disk, j: nat, b: nat)
    requires Shape(d) && Shape(d') && j < MAX_FILES
    requires d'.inodes[j].blocks == d.inodes[j].blocks
    requires forall s :: 0 <= s < DIRECT ==> d.inodes[j].blocks[s] != b
    requires forall c :: 0 <= c < BLOCK_COUNT && c != b ==> d'.bytes[c] == d.bytes[c] && d'.dirents[c] == d.dirents[c]
    ensures SameImages(d, d', j)
  {
  }

  /** Data blocks and pointers unchanged: nothing to see. */
  lemma RecordOnly(d: Disk, d': Disk, j: nat)
    requires Shape(d) && Shape(d') && j < MAX_FILES
    requires d'.inodes[j].blocks == d.inodes[j].blocks && d'.bytes == d.bytes && d'.dirents == d.dirents
    ensures SameImages(d, d', j)
  {
  }

  // ---------------------------------------------------------------- primitive steps

  /** ramfs_alloc_block: take the lowest free data block `b` and clear it. */
  function TakeBlock(d: Disk, b: nat): Disk
    requires b < |d.blockMap| && b < |d.bytes| && b < |d.dirents| && d.freeBlocks > 0
  {
    d.(blockMap := d.blockMap[b := true], freeBlocks := d.freeBlocks - 1,
       bytes := d.bytes[b := ZeroBytes()], dirents := d.dirents[b := NoEntries()])
  }

  function SetInode(d: Disk, i: nat, x: Inode): Disk
    requires i < |d.inodes|
  {
    d.(inodes := d.inodes[i := x])
  }

  /** Allocate block `b` and make it block `s` of inode `i`. */
  function Attach(d: Disk, i: nat, s: nat, b: nat): Disk
    requires Shape(d) && i < MAX_FILES && s < DIRECT && b < BLOCK_COUNT && d.freeBlocks > 0
  {
    var x := d.inodes[i];
    SetInode(TakeBlock(d, b), i, x.(blocks := x.blocks[s := b], blockCount := x.blockCount + 1))
  }

  lemma OwnMore(inodes: seq<Inode>, own: Owner, i: nat, s: nat, b: nat, x: Inode)
    requires Owned(inodes, own) && i < |inodes| && s < |inodes[i].blocks| && inodes[i].blocks[s] == 0
    requires DATA_START <= b < BLOCK_COUNT && b !in own && x.blocks == inodes[i].blocks[s := b]
    ensures Owned(inodes[i := x], own[b := (i, s)])
  {
    var inodes' := inodes[i := x];
    assert forall j: nat, t: nat :: Owns(inodes', j, t) <==> Owns(inodes, j, t) || (j == i && t == s);
  }

  lemma OwnLess(inodes: seq<Inode>, own: Owner, i: nat, s: nat, x: Inode)
    requires Owned(inodes, own) && Owns(inodes, i, s) && x.blocks == inodes[i].blocks[s := 0]
    ensures Owned(inodes[i := x], own - {inodes[i].blocks[s]})
  {
    var inodes', b := inodes[i := x], inodes[i].blocks[s];
    assert forall j: nat, t: nat :: Owns(inodes', j, t) <==> Owns(inodes, j, t) && (j != i || t != s);
    assert forall j: nat, t: nat :: Owns(inodes', j, t) ==> inodes'[j].blocks[t] == inodes[j].blocks[t];
  }

  lemma OwnSame(inodes: seq<Inode>, own: Owner, i: nat, x: Inode)
    requires Owned(inodes, own) && i < |inodes| && x.blocks == inodes[i].blocks
    ensures Owned(inodes[i := x], own)
  {
    var inodes' := inodes[i := x];
    assert forall j: nat, t: nat :: Owns(inodes', j, t) <==> Owns(inodes, j, t);
    assert forall j: nat, t: nat :: Owns(inodes', j, t) ==> inodes'[j].blocks[t] == inodes[j].blocks[t];
  }

  /** A used inode may change its record as long as it stays used and counts its blocks. */
  lemma EditInodeBits(inodes: seq<Inode>, inodeMap: seq<bool>, freeInodes: nat, i: nat, x: Inode)
    requires InodeBits(inodes, inodeMap, freeInodes) && i < MAX_FILES
    requires !inodes[i].kind.Unused? && !x.kind.Unused? && x.blockCount == NonZero(x.blocks)
    ensures InodeBits(inodes[i := x], inodeMap, freeInodes)
  {
  }

  lemma OwnerIsUsed(d: Disk, own: Owner, i: nat, s: nat)
    requires Core(d, own) && Owns(d.inodes, i, s)
    ensures i < MAX_FILES && !d.inodes[i].kind.Unused?
    ensures var b := d.inodes[i].blocks[s];
            DATA_START <= b < BLOCK_COUNT && d.blockMap[b] && b in own && own[b] == (i, s)
  {
  }

  lemma AttachCore(d: Disk, own: Owner, i: nat, s: nat, b: nat)
    requires Core(d, own) && i < MAX_FILES && s < DIRECT && !d.inodes[i].kind.Unused?
    requires d.inodes[i].blocks[s] == 0 && DATA_START <= b < BLOCK_COUNT && !d.blockMap[b]
    ensures d.freeBlocks > 0
    ensures Core(Attach(d, i, s, b), own[b := (i, s)])
  {
    ClearPositive(d.blockMap, b);
    ClearUpdate(d.blockMap, b, true);
    NonZeroUpdate(d.inodes[i].blocks, s, b);
    var x := Attach(d, i, s, b).inodes[i];
    OwnMore(d.inodes, own, i, s, b, x);
    EditInodeBits(d.inodes, d.inodeMap, d.freeInodes, i, x);
  }

  /** A new block is a hole as far as the images are concerned. */
  lemma AttachImages(d: Disk, own: Owner, i: nat, s: nat, b: nat)
    requires Core(d, own) && i < MAX_FILES && s < DIRECT && !d.inodes[i].kind.Unused?
    requires d.inodes[i].blocks[s] == 0 && DATA_START <= b < BLOCK_COUNT && !d.blockMap[b]
    ensures d.freeBlocks > 0 && Shape(Attach(d, i, s, b))
    ensures forall j :: 0 <= j < MAX_FILES ==> SameImages(d, Attach(d, i, s, b), j)
  {
    AttachCore(d, own, i, s, b);
    var d' := Attach(d, i, s, b);
    forall j | 0 <= j < MAX_FILES ensures SameImages(d, d', j) {
      forall t | 0 <= t < DIRECT ensures d.inodes[j].blocks[t] != b {
        if d.inodes[j].blocks[t] == b { assert Owns(d.inodes, j, t); }
      }
      if j == i {
        ImageFromSlots(d, d.inodes[j], d', d'.inodes[j]);
        EntriesFromSlots(d, d.inodes[j], d', d'.inodes[j]);
      } else {
        ImagesUntouched(d, d', j, b);
      }
    }
  }

  // ---------------------------------------------------------------- releasing a block

  /** Free block `s` of inode `i` and forget it. */
  function Detach(d: Disk, i: nat, s: nat): (r: Disk)
    requires i < |d.inodes| && s < |d.inodes[i].blocks|
    ensures |r.inodes| == |d.inodes| && r.inodeMap == d.inodeMap && |r.inodes[i].blocks| == |d.inodes[i].blocks|
  {
    var x := d.inodes[i];
    if x.blocks[s] == 0 || x.blocks[s] >= |d.blockMap| || x.blockCount == 0 then d
    else
      SetInode(d.(blockMap := d.blockMap[x.blocks[s] := false], freeBlocks := d.freeBlocks + 1),
               i, x.(blocks := x.blocks[s := 0], blockCount := x.blockCount - 1))
  }

  lemma DetachCore(d: Disk, own: Owner, i: nat, s: nat)
    requires Core(d, own) && Owns(d.inodes, i, s)
    ensures DATA_START <= d.inodes[i].blocks[s] < BLOCK_COUNT && d.inodes[i].blockCount > 0
    ensures d.blockMap[d.inodes[i].blocks[s]]
    ensures Core(Detach(d, i, s), own - {d.inodes[i].blocks[s]})
  {
    OwnerIsUsed(d, own, i, s);
    ClearUpdate(d.blockMap, d.inodes[i].blocks[s], false);
    NonZeroUpdate(d.inodes[i].blocks, s, 0);
    var x := Detach(d, i, s).inodes[i];
    OwnLess(d.inodes, own, i, s, x);
    EditInodeBits(d.inodes, d.inodeMap, d.freeInodes, i, x);
  }

  // ---------------------------------------------------------------- writing into a block

  function PutBytes(d: Disk, b: nat, at: nat, chunk: seq<Byte>): Disk
    requires b < |d.bytes| && at + |chunk| <= |d.bytes[b]|
  {
    d.(bytes := d.bytes[b := Splice(d.bytes[b], at, chunk)])
  }

  lemma PutBytesCore(d: Disk, own: Owner, i: nat, s: nat, at: nat, chunk: seq<Byte>)
    requires Core(d, own) && Owns(d.inodes, i, s) && at + |chunk| <= BLOCK_SIZE
    ensures d.inodes[i].blocks[s] < BLOCK_COUNT
    ensures Core(PutBytes(d, d.inodes[i].blocks[s], at, chunk), own)
  {
  }

  lemma PutBytesImages(d: Disk, own: Owner, i: nat, s: nat, at: nat, chunk: seq<Byte>)
    requires Core(d, own) && Owns(d.inodes, i, s) && at + |chunk| <= BLOCK_SIZE
    ensures d.inodes[i].blocks[s] < BLOCK_COUNT
    ensures var d' := PutBytes(d, d.inodes[i].blocks[s], at, chunk);
            && Shape(d')
            && (forall j :: 0 <= j < MAX_FILES && j != i ==> SameImages(d, d', j))
            && Image(d', d'.inodes[i]) == Splice(Image(d, d.inodes[i]), s * BLOCK_SIZE + at, chunk)
            && Entries(d', d'.inodes[i]) == Entries(d, d.inodes[i])
  {
    PutBytesCore(d, own, i, s, at, chunk);
    var b := d.inodes[i].blocks[s];
    var d' := PutBytes(d, b, at, chunk);
    forall j, t | 0 <= j < MAX_FILES && 0 <= t < DIRECT && (j != i || t != s) ensures d.inodes[j].blocks[t] != b {
      if d.inodes[j].blocks[t] == b { assert Owns(d.inodes, j, t); }
    }
    forall j | 0 <= j < MAX_FILES && j != i ensures SameImages(d, d', j) {
      ImagesUntouched(d, d', j, b);
    }
    EntriesFromSlots(d, d.inodes[i], d', d'.inodes[i]);
    SpliceImage(d, d.inodes[i], d', s, at, chunk);
  }

  lemma SpliceImage(d: Disk, x: Inode, d': Disk, s: nat, at: nat, chunk: seq<Byte>)
    requires |x.blocks| == DIRECT && s < DIRECT && at + |chunk| <= BLOCK_SIZE
    requires forall t :: 0 <= t < DIRECT && t != s ==> SlotBytes(d', x, t) == SlotBytes(d, x, t)
    requires SlotBytes(d', x, s) == Splice(SlotBytes(d, x, s), at, chunk)
    ensures s * BLOCK_SIZE + at + |chunk| <= MAX_SIZE
    ensures Image(d', x) == Splice(Image(d, x), s * BLOCK_SIZE + at, chunk)
  {
    var image := Splice(Image(d, x), s * BLOCK_SIZE + at, chunk);
    forall k | 0 <= k < MAX_SIZE ensures Image(d', x)[k] == image[k] {
      var t, o := k / BLOCK_SIZE, k % BLOCK_SIZE;
      assert k == t * BLOCK_SIZE + o && t < DIRECT;
      assert ByteAt(d', x, k) == SlotBytes(d', x, t)[o] && ByteAt(d, x, k) == SlotBytes(d, x, t)[o];
    }
  }

  function PutEntry(d: Disk, b: nat, j: nat, e: Dirent): Disk
    requires b < |d.dirents| && j < |d.dirents[b]|
  {
    d.(dirents := d.dirents[b := d.dirents[b][j := e]])
  }

  lemma PutEntryImages(d: Disk, own: Owner, i: nat, s: nat, j: nat, e: Dirent)
    requires Core(d, own) && Owns(d.inodes, i, s) && j < PER_BLOCK
    ensures d.inodes[i].blocks[s] < BLOCK_COUNT
    ensures var d' := PutEntry(d, d.inodes[i].blocks[s], j, e);
            && Core(d', own)
            && (forall k :: 0 <= k < MAX_FILES && k != i ==> SameImages(d, d', k))
            && Image(d', d'.inodes[i]) == Image(d, d.inodes[i])
            && Entries(d', d'.inodes[i]) == Entries(d, d.inodes[i])[s * PER_BLOCK + j := e]
  {
    var b := d.inodes[i].blocks[s];
    OwnerIsUsed(d, own, i, s);
    var d' := PutEntry(d, b, j, e);
    forall k, t | 0 <= k < MAX_FILES && 0 <= t < DIRECT && (k != i || t != s) ensures d.inodes[k].blocks[t] != b {
      if d.inodes[k].blocks[t] == b { assert Owns(d.inodes, k, t); }
    }
    forall k | 0 <= k < MAX_FILES && k != i ensures SameImages(d, d', k) {
      ImagesUntouched(d, d', k, b);
    }
    ImageFromSlots(d, d.inodes[i], d', d'.inodes[i]);
    var x := d.inodes[i];
    forall p | 0 <= p < MAX_ENTRIES
      ensures EntryAt(d', x, p) == Entries(d, x)[s * PER_BLOCK + j := e][p]
    {
      if p / PER_BLOCK == s { assert p == s * PER_BLOCK + p % PER_BLOCK; }
    }
  }

  // ---------------------------------------------------------------- inodes

  /** A record edit that leaves the block pointers alone. */
  lemma EditCore(d: Disk, own: Owner, i: nat, x: Inode)
    requires Core(d, own) && i < MAX_FILES && !d.inodes[i].kind.Unused? && !x.kind.Unused?
    requires x.blocks == d.inodes[i].blocks && x.blockCount == d.inodes[i].blockCount
    ensures Core(SetInode(d, i, x), own)
    ensures forall j :: 0 <= j < MAX_FILES ==> SameImages(d, SetInode(d, i, x), j)
  {
    OwnSame(d.inodes, own, i, x);
    EditInodeBits(d.inodes, d.inodeMap, d.freeInodes, i, x);
    var d' := SetInode(d, i, x);
    forall j | 0 <= j < MAX_FILES ensures SameImages(d, d', j) {
      RecordOnly(d, d', j);
    }
  }

  /** The inode table entry and bitmap bit of a new inode. */
  function NewInode(d: Disk, i: nat, kind: Kind): Disk
    requires i < |d.inodes| && i < |d.inodeMap| && d.freeInodes > 0
  {
    d.(inodes := d.inodes[i := ZeroInode().(kind := kind, links := 1)],
       inodeMap := d.inodeMap[i := true], freeInodes := d.freeInodes - 1)
  }

  /** Return a blockless inode to the free pool. */
  function DropInode(d: Disk, i: nat): Disk
    requires i < |d.inodes| && i < |d.inodeMap|
  {
    d.(inodes := d.inodes[i := ZeroInode()], inodeMap := d.inodeMap[i := false], freeInodes := d.freeInodes + 1)
  }

  lemma NewInodeCore(d: Disk, own: Owner, i: nat, kind: Kind)
    requires Core(d, own) && i < MAX_FILES && !d.inodeMap[i] && !kind.Unused?
    ensures d.freeInodes > 0 && Core(NewInode(d, i, kind), own)
    ensures forall j :: 0 <= j < MAX_FILES ==> SameImages(d, NewInode(d, i, kind), j)
  {
    ClearPositive(d.inodeMap, i);
    ClearUpdate(d.inodeMap, i, true);
    NonZeroOfZeros(Zeros());
    var d' := NewInode(d, i, kind);
    assert d.inodes[i] == ZeroInode();
    OwnSame(d.inodes, own, i, d'.inodes[i]);
    forall j | 0 <= j < MAX_FILES ensures SameImages(d, d', j) {
      RecordOnly(d, d', j);
    }
  }

  lemma DropInodeCore(d: Disk, own: Owner, i: nat)
    requires Core(d, own) && i < MAX_FILES && !d.inodes[i].kind.Unused?
    requires d.inodes[i].blocks == Zeros()
    ensures Core(DropInode(d, i), own)
    ensures forall j :: 0 <= j < MAX_FILES ==> SameImages(d, DropInode(d, i), j)
  {
    ClearUpdate(d.inodeMap, i, false);
    NonZeroOfZeros(Zeros());
    var d' := DropInode(d, i);
    OwnSame(d.inodes, own, i, d'.inodes[i]);
    forall j | 0 <= j < MAX_FILES ensures SameImages(d, d', j) {
      RecordOnly(d, d', j);
    }
  }

  /** Detach the blocks of inode `i` from slot `s` on. */
  function DetachFrom(d: Disk, i: nat, s: nat): (r: Disk)
    requires i < |d.inodes| && |d.inodes[i].blocks| == DIRECT && s <= DIRECT
    ensures |r.inodes| == |d.inodes| && r.inodeMap == d.inodeMap && |r.inodes[i].blocks| == DIRECT
    decreases DIRECT - s
  {
    if s == DIRECT then d else DetachFrom(Detach(d, i, s), i, s + 1)
  }

  /** `d'` is `d` after inode `i` has lost its blocks from slot `s` on. */
  ghost predicate CutAt(d: Disk, d': Disk, i: nat, s: nat) {
    && |d.inodes| == |d'.inodes| && i < |d.inodes|
    && d' == d.(inodes := d'.inodes, blockMap := d'.blockMap, freeBlocks := d'.freeBlocks)
    && (forall j :: 0 <= j < |d.inodes| && j != i ==> d'.inodes[j] == d.inodes[j])
    && d'.inodes[i] == d.inodes[i].(blocks := d'.inodes[i].blocks, blockCount := d'.inodes[i].blockCount)
    && |d.inodes[i].blocks| == |d'.inodes[i].blocks| == DIRECT
    && (forall t :: 0 <= t < DIRECT ==> d'.inodes[i].blocks[t] == if t < s then d.inodes[i].blocks[t] else 0)
  }

  lemma CutOneMore(d: Disk, own: Owner, i: nat, s: nat, d': Disk)
    requires Core(d, own) && i < MAX_FILES && s < DIRECT
    requires CutAt(Detach(d, i, s), d', i, s + 1)
    ensures CutAt(d, d', i, s)
  {
    if d.inodes[i].blocks[s] != 0 { DetachCore(d, own, i, s); }
  }

  lemma {:induction false} DetachFromCore(d: Disk, own: Owner, i: nat, s: nat) returns (own': Owner)
    requires Core(d, own) && i < MAX_FILES && s <= DIRECT
    ensures Core(DetachFrom(d, i, s), own')
    ensures CutAt(d, DetachFrom(d, i, s), i, s)
    decreases DIRECT - s
  {
    own' := own;
    if s < DIRECT {
      if d.inodes[i].blocks[s] != 0 {
        DetachCore(d, own, i, s);
        own' := own - {d.inodes[i].blocks[s]};
      }
      own' := DetachFromCore(Detach(d, i, s), own', i, s + 1);
      CutOneMore(d, own, i, s, DetachFrom(d, i, s));
    }
  }

  /** An inode and its blocks returned to the free pools. */
  function Freed(d: Disk, i: nat): Disk
    requires Shape(d) && i < MAX_FILES
  {
    DropInode(DetachFrom(d, i, 0), i)
  }

  lemma FreedCore(d: Disk, own: Owner, i: nat) returns (own': Owner)
    requires Core(d, own) && i < MAX_FILES && !d.inodes[i].kind.Unused?
    ensures Core(DetachFrom(d, i, 0), own') && Core(Freed(d, i), own')
    ensures Freed(d, i).inodes == d.inodes[i := ZeroInode()]
    ensures forall j :: 0 <= j < MAX_FILES && j != i ==> SameImages(d, Freed(d, i), j)
  {
    own' := DetachFromCore(d, own, i, 0);
    var e := DetachFrom(d, i, 0);
    assert e.inodes[i].blocks == Zeros();
    DropInodeCore(e, own', i);
    CutImages(d, e, i, 0);
    forall j | 0 <= j < MAX_FILES && j != i ensures SameImages(d, Freed(d, i), j) {
      assert SameImages(d, e, j) && SameImages(e, Freed(d, i), j);
    }
  }

  lemma CutImages(d: Disk, d': Disk, i: nat, s: nat)
    requires Shape(d) && Shape(d') && i < MAX_FILES && CutAt(d, d', i, s)
    ensures forall j :: 0 <= j < MAX_FILES && j != i ==> SameImages(d, d', j)
    ensures forall k :: 0 <= k < MAX_SIZE ==>
              ByteAt(d', d'.inodes[i], k) == if k / BLOCK_SIZE >= s then 0 else ByteAt(d, d.inodes[i], k)
  {
  }
}
