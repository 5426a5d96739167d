/**
 Directories of the RAM disk: each is a finite map from names to inodes, and
 together they form a tree whose edges agree with the parent pointers.
 */
module TreeSpec {
  import opened Basics
  import opened RamfsSpec
  import opened PathSpec

  /** The name field of a directory entry holds 55 bytes and a terminator. */
  const NAME_ROOM := 55

  predicate InUse(e: Dirent) {
    e.inode != 0
  }

  /** Used slots, or only those that name directories. */
  function Tally(es: seq<Dirent>, dirsOnly: bool): nat {
    if es == [] then 0
    else Tally(es[..|es| - 1], dirsOnly) + Weigh(es[|es| - 1], dirsOnly)
  }

  function Weigh(e: Dirent, dirsOnly: bool): nat {
    if InUse(e) && (dirsOnly ==> e.kind.Dir?) then 1 else 0
  }

  lemma {:induction false} TallyUpdate(es: seq<Dirent>, p: nat, e: Dirent, dirsOnly: bool)
    requires p < |es|
    ensures Tally(es[p := e], dirsOnly) == Tally(es, dirsOnly) - Weigh(es[p], dirsOnly) + Weigh(e, dirsOnly)
  {
    var n := |es| - 1;
    if p == n {
      assert es[p := e][..n] == es[..n];
    } else {
      TallyUpdate(es[..n], p, e, dirsOnly);
      assert es[p := e][..n] == es[..n][p := e];
    }
  }

  lemma {:induction false} TallyOfEmpty(es: seq<Dirent>, dirsOnly: bool)
    requires forall p :: 0 <= p < |es| ==> !InUse(es[p])
    ensures Tally(es, dirsOnly) == 0
  {
    if es != [] { TallyOfEmpty(es[..|es| - 1], dirsOnly); }
  }

  lemma TallyPositive(es: seq<Dirent>, p: nat, dirsOnly: bool)
    requires p < |es| && Weigh(es[p], dirsOnly) == 1
    ensures Tally(es, dirsOnly) > 0
  {
  }

  /** First used slot at or after `p` with this name, or |es|. */
  function FindName(es: seq<Dirent>, name: string, p: nat): (q: nat)
    requires p <= |es|
    ensures p <= q <= |es|
    ensures q < |es| ==> InUse(es[q]) && es[q].name == name
    ensures forall k :: p <= k < q ==> !(InUse(es[k]) && es[k].name == name)
    decreases |es| - p
  {
    if p == |es| || (InUse(es[p]) && es[p].name == name) then p else FindName(es, name, p + 1)
  }

  /** First unused slot at or after `p`, or |es|. */
  function FindFree(es: seq<Dirent>, p: nat): (q: nat)
    requires p <= |es|
    ensures p <= q <= |es|
    ensures q < |es| ==> !InUse(es[q])
    ensures forall k :: p <= k < q ==> InUse(es[k])
    decreases |es| - p
  {
    if p == |es| || !InUse(es[p]) then p else FindFree(es, p + 1)
  }

  /** Searching slot by slot is searching block by block. */
  lemma FindNameByBlock(es: seq<Dirent>, at: nat, block: seq<Dirent>, name: string)
    requires at + |block| <= |es| && es[at..at + |block|] == block
    ensures FindName(es, name, at) == var j := FindName(block, name, 0);
                                      if j < |block| then at + j else FindName(es, name, at + |block|)
  {
  }

  lemma FindFreeByBlock(es: seq<Dirent>, at: nat, block: seq<Dirent>)
    requires at + |block| <= |es| && es[at..at + |block|] == block
    ensures FindFree(es, at) == var j := FindFree(block, 0);
                                if j < |block| then at + j else FindFree(es, at + |block|)
  {
  }

  lemma BlockOfEntries(d: Disk, x: Inode, s: nat)
    requires |x.blocks| == DIRECT && s < DIRECT
    ensures Entries(d, x)[s * PER_BLOCK..s * PER_BLOCK + PER_BLOCK] == SlotEntries(d, x, s)
  {
  }

  lemma NameSearchStep(d: Disk, x: Inode, s: nat, name: string)
    requires |x.blocks| == DIRECT && s < DIRECT
    ensures FindName(Entries(d, x), name, s * PER_BLOCK) ==
              var j := FindName(SlotEntries(d, x, s), name, 0);
              if j < PER_BLOCK then s * PER_BLOCK + j else FindName(Entries(d, x), name, (s + 1) * PER_BLOCK)
  {
    BlockOfEntries(d, x, s);
    FindNameByBlock(Entries(d, x), s * PER_BLOCK, SlotEntries(d, x, s), name);
  }

  lemma FreeSearchStep(d: Disk, x: Inode, s: nat)
    requires |x.blocks| == DIRECT && s < DIRECT
    ensures FindFree(Entries(d, x), s * PER_BLOCK) ==
              var j := FindFree(SlotEntries(d, x, s), 0);
              if j < PER_BLOCK then s * PER_BLOCK + j else FindFree(Entries(d, x), (s + 1) * PER_BLOCK)
  {
    BlockOfEntries(d, x, s);
    FindFreeByBlock(Entries(d, x), s * PER_BLOCK, SlotEntries(d, x, s));
  }

  ghost predicate UniqueNames(es: seq<Dirent>) {
    forall p, q ::
        0 <= p < q < |es| && InUse(es[p]) && InUse(es[q]) ==> es[p].name != es[q].name && es[p].inode != es[q].inode
  }

  // ---------------------------------------------------------------- a directory is a finite map

  ghost function Names(es: seq<Dirent>): set<string> {
    set p | 0 <= p < |es| && InUse(es[p]) :: es[p].name
  }

  ghost function DirMap(es: seq<Dirent>): map<string, nat> {
    map n | n in Names(es) :: TargetOf(es, n)
  }

  ghost function TargetOf(es: seq<Dirent>, n: string): nat
    requires n in Names(es)
  {
    assert FindName(es, n, 0) < |es|;
    es[FindName(es, n, 0)].inode
  }

  lemma DirMapAt(es: seq<Dirent>, p: nat)
    requires UniqueNames(es) && p < |es| && InUse(es[p])
    ensures es[p].name in DirMap(es) && DirMap(es)[es[p].name] == es[p].inode
  {
  }

  /** Looking up a name in the slots is looking it up in the map. */
  lemma FindNameIsLookup(es: seq<Dirent>, name: string)
    requires UniqueNames(es)
    ensures FindName(es, name, 0) < |es| <==> name in DirMap(es)
    ensures name in DirMap(es) ==> DirMap(es)[name] == es[FindName(es, name, 0)].inode
  {
  }

  lemma AddToMap(es: seq<Dirent>, p: nat, e: Dirent)
    requires UniqueNames(es) && p < |es| && !InUse(es[p]) && InUse(e)
    requires e.name !in DirMap(es)
    requires forall q :: 0 <= q < |es| && InUse(es[q]) ==> es[q].inode != e.inode
    ensures UniqueNames(es[p := e])
    ensures DirMap(es[p := e]) == DirMap(es)[e.name := e.inode]
  {
    var es' := es[p := e];
    forall q | 0 <= q < |es| && InUse(es[q]) ensures es[q].name != e.name { DirMapAt(es, q); }
    assert UniqueNames(es');
    forall n ensures n in DirMap(es') <==> n in DirMap(es)[e.name := e.inode] {
      NamesAfterUpdate(es, p, e, n);
    }
    forall n | n in DirMap(es') ensures DirMap(es')[n] == DirMap(es)[e.name := e.inode][n] {
      var q := FindName(es', n, 0);
      DirMapAt(es', q);
      if q != p { DirMapAt(es, q); }
    }
  }

  lemma NamesAfterUpdate(es: seq<Dirent>, p: nat, e: Dirent, n: string)
    requires p < |es| && UniqueNames(es) && UniqueNames(es[p := e])
    ensures n in Names(es[p := e]) <==>
            (InUse(e) && n == e.name) || (n in Names(es) && !(InUse(es[p]) && es[p].name == n))
  {
    var es' := es[p := e];
    if n in Names(es') {
      var q :| 0 <= q < |es'| && InUse(es'[q]) && es'[q].name == n;
      if q != p { assert es[q].name in Names(es); }
    }
    if InUse(e) && n == e.name { assert es'[p].name in Names(es'); }
    if n in Names(es) && !(InUse(es[p]) && es[p].name == n) {
      var q :| 0 <= q < |es| && InUse(es[q]) && es[q].name == n;
      assert es'[q].name in Names(es');
    }
  }

  lemma StillUnique(es: seq<Dirent>, p: nat)
    requires UniqueNames(es) && p < |es|
    ensures UniqueNames(es[p := EMPTY])
  {
  }

  lemma RemoveFromMap(es: seq<Dirent>, p: nat)
    requires UniqueNames(es) && p < |es| && InUse(es[p])
    ensures UniqueNames(es[p := EMPTY])
    ensures DirMap(es[p := EMPTY]) == DirMap(es) - {es[p].name}
  {
    var es' := es[p := EMPTY];
    StillUnique(es, p);
    forall n ensures n in DirMap(es') <==> n in DirMap(es) - {es[p].name} {
      NamesAfterUpdate(es, p, EMPTY, n);
    }
    forall n | n in DirMap(es') ensures n in DirMap(es) && DirMap(es')[n] == DirMap(es)[n] {
      RemainingName(es, p, n);
    }
  }

  lemma RemainingName(es: seq<Dirent>, p: nat, n: string)
    requires UniqueNames(es) && p < |es| && UniqueNames(es[p := EMPTY]) && n in DirMap(es[p := EMPTY])
    ensures n in DirMap(es) && DirMap(es[p := EMPTY])[n] == DirMap(es)[n]
  {
    var es' := es[p := EMPTY];
    var q := FindName(es', n, 0);
    DirMapAt(es', q);
    DirMapAt(es, q);
  }

  // ---------------------------------------------------------------- the tree

  /** Entry `e` of directory `i` names a live inode that points back to `i`. */
  ghost predicate ChildOk(inodes: seq<Inode>, i: nat, e: Dirent) {
    && 0 < e.inode < |inodes|
    && (e.kind.File? || e.kind.Dir?)
    && inodes[e.inode].kind == e.kind
    && inodes[e.inode].parent == i
    && 0 < |e.name| <= NAME_ROOM && e.name != "." && e.name != ".."
    && (if e.kind.File? then inodes[e.inode].links == 1 else inodes[e.inode].links >= 2)
  }

  /** Size, link count and entries of a directory agree; an unlinked directory is empty. */
  ghost predicate DirOk(inodes: seq<Inode>, i: nat, es: seq<Dirent>) {
    && i < |inodes|
    && UniqueNames(es)
    && inodes[i].size == DIRENT_SIZE * Tally(es, false)
    && (inodes[i].links == 2 + Tally(es, true) || (inodes[i].links == 1 && Tally(es, false) == 0))
    && (forall p :: 0 <= p < |es| ==> InUse(es[p]) ==> ChildOk(inodes, i, es[p]))
  }

  ghost predicate Tree(d: Disk) {
    && Shape(d)
    && d.inodes[ROOT].kind.Dir? && d.inodes[ROOT].parent == ROOT && d.inodes[ROOT].links >= 2
    && (forall i :: 0 <= i < MAX_FILES ==> d.inodes[i].kind.Dir? ==> DirOk(d.inodes, i, Entries(d, d.inodes[i])))
  }

  /** The change made by creating `name` -> `c` in slot `p` of directory `dir`. */
  ghost predicate CreatedAt(d: Disk, d': Disk, dir: nat, p: nat, name: string, c: nat, kind: Kind) {
    && Shape(d) && Shape(d')
    && dir < MAX_FILES && 0 < c < MAX_FILES && p < MAX_ENTRIES
    && (kind.File? || kind.Dir?) && 0 < |name| <= NAME_ROOM && name != "." && name != ".."
    && d.inodes[dir].kind.Dir? && d.inodes[dir].links >= 2 && d.inodes[c] == ZeroInode()
    && d'.inodes[c] == ZeroInode().(kind := kind, links := if kind.Dir? then 2 else 1, parent := dir)
    && d'.inodes[dir].kind.Dir? && d'.inodes[dir].parent == d.inodes[dir].parent
    && d'.inodes[dir].size == d.inodes[dir].size + DIRENT_SIZE
    && d'.inodes[dir].links == d.inodes[dir].links + (if kind.Dir? then 1 else 0)
    && (forall j :: 0 <= j < MAX_FILES && j != dir && j != c ==> d'.inodes[j] == d.inodes[j])
    && !InUse(Entries(d, d.inodes[dir])[p]) && name !in DirMap(Entries(d, d.inodes[dir]))
    && Entries(d', d'.inodes[dir]) == Entries(d, d.inodes[dir])[p := Dirent(c, name, kind)]
    && (forall j :: 0 <= j < MAX_FILES && j != dir ==> Entries(d', d'.inodes[j]) == Entries(d, d.inodes[j]))
  }

  lemma EmptyInodeHasNoEntries(d: Disk, x: Inode)
    requires x.blocks == Zeros()
    ensures forall p :: 0 <= p < MAX_ENTRIES ==> !InUse(Entries(d, x)[p])
    ensures Tally(Entries(d, x), false) == 0 && Tally(Entries(d, x), true) == 0
    ensures UniqueNames(Entries(d, x))
  {
    TallyOfEmpty(Entries(d, x), false);
    TallyOfEmpty(Entries(d, x), true);
  }

  /** Creating a name keeps the tree, and adds exactly one binding to one directory. */
  lemma CreateKeepsTree(d: Disk, d': Disk, dir: nat, p: nat, name: string, c: nat, kind: Kind)
    requires Tree(d) && CreatedAt(d, d', dir, p, name, c, kind)
    ensures Tree(d')
    ensures DirMap(Entries(d', d'.inodes[dir])) == DirMap(Entries(d, d.inodes[dir]))[name := c]
  {
    var es, e := Entries(d, d.inodes[dir]), Dirent(c, name, kind);
    forall q | 0 <= q < |es| && InUse(es[q]) ensures es[q].inode != c {
      assert ChildOk(d.inodes, dir, es[q]);
    }
    AddToMap(es, p, e);
    TallyUpdate(es, p, e, false);
    TallyUpdate(es, p, e, true);
    EmptyInodeHasNoEntries(d', d'.inodes[c]);
    forall i | 0 <= i < MAX_FILES && d'.inodes[i].kind.Dir?
      ensures DirOk(d'.inodes, i, Entries(d', d'.inodes[i]))
    {
      if i == dir {
        DirOkAfterAdd(d, d', dir, p, name, c, kind);
      } else if i != c {
        ChildrenStay(d, d', i, dir, c);
      }
    }
  }

  /** Children of another directory are not affected by the new inode. */
  lemma ChildrenStay(d: Disk, d': Disk, i: nat, dir: nat, c: nat)
    requires Tree(d) && Shape(d') && i < MAX_FILES && dir < MAX_FILES && c < MAX_FILES && i != dir && i != c
    requires d.inodes[i].kind.Dir? && d'.inodes[i] == d.inodes[i] && d.inodes[c].kind.Unused?
    requires d'.inodes[dir].kind == d.inodes[dir].kind && d'.inodes[dir].parent == d.inodes[dir].parent
    requires d.inodes[dir].kind.Dir? && d'.inodes[dir].links >= 2
    requires forall j :: 0 <= j < MAX_FILES && j != dir && j != c ==> d'.inodes[j] == d.inodes[j]
    requires Entries(d', d'.inodes[i]) == Entries(d, d.inodes[i])
    ensures DirOk(d'.inodes, i, Entries(d', d'.inodes[i]))
  {
  }

  lemma DirOkAfterAdd(d: Disk, d': Disk, dir: nat, p: nat, name: string, c: nat, kind: Kind)
    requires Tree(d) && CreatedAt(d, d', dir, p, name, c, kind)
    requires UniqueNames(Entries(d', d'.inodes[dir]))
    ensures DirOk(d'.inodes, dir, Entries(d', d'.inodes[dir]))
  {
    var es, e := Entries(d, d.inodes[dir]), Dirent(c, name, kind);
    assert DirOk(d.inodes, dir, es);
    TallyUpdate(es, p, e, false);
    TallyUpdate(es, p, e, true);
    var es' := es[p := e];
    forall q | 0 <= q < |es'| && InUse(es'[q]) ensures ChildOk(d'.inodes, dir, es'[q]) {
      if q != p { assert ChildOk(d.inodes, dir, es[q]); }
    }
  }

  // ---------------------------------------------------------------- removing a name

  /** The change made by unlinking the entry in slot `p` of directory `dir`, which names `c`. */
  ghost predicate UnlinkedAt(d: Disk, d': Disk, dir: nat, p: nat, c: nat) {
    && Shape(d) && Shape(d')
    && dir < MAX_FILES && 0 < c < MAX_FILES && p < MAX_ENTRIES && c != dir
    && d.inodes[dir].kind.Dir?
    && var e := Entries(d, d.inodes[dir])[p];
    && InUse(e) && e.inode == c
    && (e.kind.Dir? ==> Tally(Entries(d, d.inodes[c]), false) == 0)
    && d'.inodes[dir].kind.Dir? && d'.inodes[dir].parent == d.inodes[dir].parent
    && d'.inodes[dir].size == d.inodes[dir].size - DIRENT_SIZE
    && d'.inodes[dir].links == d.inodes[dir].links - (if e.kind.Dir? then 1 else 0)
    && d.inodes[c].links > 0
    && d'.inodes[c] == (if e.kind.Dir? then d.inodes[c].(links := d.inodes[c].links - 1) else ZeroInode())
    && (forall j :: 0 <= j < MAX_FILES && j != dir && j != c ==> d'.inodes[j] == d.inodes[j])
    && Entries(d', d'.inodes[dir]) == Entries(d, d.inodes[dir])[p := EMPTY]
    && (forall j :: 0 <= j < MAX_FILES && j != dir && j != c ==> Entries(d', d'.inodes[j]) == Entries(d, d.inodes[j]))
    && (e.kind.Dir? ==> Entries(d', d'.inodes[c]) == Entries(d, d.inodes[c]))
  }

  /** An inode has one name. */
  lemma OnlyParentNames(d: Disk, dir: nat, p: nat, i: nat, q: nat)
    requires Tree(d) && dir < MAX_FILES && i < MAX_FILES && p < MAX_ENTRIES && q < MAX_ENTRIES
    requires d.inodes[dir].kind.Dir? && d.inodes[i].kind.Dir?
    requires InUse(Entries(d, d.inodes[dir])[p]) && InUse(Entries(d, d.inodes[i])[q])
    ensures Entries(d, d.inodes[dir])[p].inode == Entries(d, d.inodes[i])[q].inode ==> i == dir && p == q
  {
  }

  lemma {:induction false} TallyMono(es: seq<Dirent>)
    ensures Tally(es, true) <= Tally(es, false)
  {
    if es != [] { TallyMono(es[..|es| - 1]); }
  }

  /** What the removed entry says about both ends of the edge. */
  lemma EdgeFacts(d: Disk, d': Disk, dir: nat, p: nat, c: nat)
    requires Tree(d) && UnlinkedAt(d, d', dir, p, c)
    ensures ChildOk(d.inodes, dir, Entries(d, d.inodes[dir])[p])
    ensures d.inodes[dir].links == 2 + Tally(Entries(d, d.inodes[dir]), true)
    ensures d'.inodes[dir].links >= 2
  {
    var es := Entries(d, d.inodes[dir]);
    assert DirOk(d.inodes, dir, es);
    TallyPositive(es, p, false);
    if es[p].kind.Dir? { TallyPositive(es, p, true); }
  }

  lemma SiblingsStay(d: Disk, d': Disk, dir: nat, p: nat, c: nat, q: nat)
    requires Tree(d) && UnlinkedAt(d, d', dir, p, c) && q < MAX_ENTRIES && q != p
    requires InUse(Entries(d, d.inodes[dir])[q])
    ensures ChildOk(d'.inodes, dir, Entries(d, d.inodes[dir])[q])
  {
    EdgeFacts(d, d', dir, p, c);
    OnlyParentNames(d, dir, p, dir, q);
    assert ChildOk(d.inodes, dir, Entries(d, d.inodes[dir])[q]);
  }

  lemma DirOkAfterRemove(d: Disk, d': Disk, dir: nat, p: nat, c: nat)
    requires Tree(d) && UnlinkedAt(d, d', dir, p, c)
    ensures DirOk(d'.inodes, dir, Entries(d', d'.inodes[dir]))
  {
    var es := Entries(d, d.inodes[dir]);
    var es' := es[p := EMPTY];
    forall q | 0 <= q < |es'| && InUse(es'[q]) ensures ChildOk(d'.inodes, dir, es'[q]) {
      SiblingsStay(d, d', dir, p, c, q);
    }
    assert UniqueNames(es') by { RemoveFromMap(es, p); }
    EdgeFacts(d, d', dir, p, c);
    TallyUpdate(es, p, EMPTY, false);
    TallyUpdate(es, p, EMPTY, true);
  }

  lemma OthersAfterRemove(d: Disk, d': Disk, dir: nat, p: nat, c: nat, i: nat)
    requires Tree(d) && UnlinkedAt(d, d', dir, p, c) && i < MAX_FILES && i != dir && d'.inodes[i].kind.Dir?
    ensures DirOk(d'.inodes, i, Entries(d', d'.inodes[i]))
  {
    EdgeFacts(d, d', dir, p, c);
    var es := Entries(d, d.inodes[i]);
    assert DirOk(d.inodes, i, es);
    if i == c { TallyMono(es); }
    forall q | 0 <= q < |es| && InUse(es[q]) ensures ChildOk(d'.inodes, i, es[q]) {
      assert ChildOk(d.inodes, i, es[q]);
      OnlyParentNames(d, dir, p, i, q);
    }
  }

  /**
   Unlinking keeps the tree and removes exactly one binding. A file's inode
   becomes free; a directory's inode stays allocated with one link.
   */
  lemma UnlinkKeepsTree(d: Disk, d': Disk, dir: nat, p: nat, c: nat)
    requires Tree(d) && UnlinkedAt(d, d', dir, p, c)
    ensures Tree(d')
    ensures DirMap(Entries(d', d'.inodes[dir])) == DirMap(Entries(d, d.inodes[dir])) - {Entries(d,
            d.inodes[dir])[p].name}
    ensures d'.inodes[c].kind.Unused? <==> d.inodes[c].kind.File?
  {
    EdgeFacts(d, d', dir, p, c);
    RemoveFromMap(Entries(d, d.inodes[dir]), p);
    forall i | 0 <= i < MAX_FILES && d'.inodes[i].kind.Dir?
      ensures DirOk(d'.inodes, i, Entries(d', d'.inodes[i]))
    {
      if i == dir { DirOkAfterRemove(d, d', dir, p, c); } else { OthersAfterRemove(d, d', dir, p, c, i); }
    }
  }

  // ---------------------------------------------------------------- path lookup

  /** ramfs_dir_lookup: "." is not found, ".." is the parent pointer. */
  function Lookup(d: Disk, i: nat, name: string): Option<nat>
    requires i < |d.inodes| && |d.inodes[i].blocks| == DIRECT
  {
    var x := d.inodes[i];
    if !x.kind.Dir? || name == "." then None
    else if name == ".." then Some(x.parent)
    else
      var es := Entries(d, x);
      var p := FindName(es, name, 0);
      if p < |es| then Some(es[p].inode) else None
  }

  /** ramfs_lookup_path on the components of a path, starting at inode `i`. */
  ghost function Walk(d: Disk, i: nat, cs: seq<string>): Option<nat>
    requires Shape(d)
    decreases |cs|
  {
    if cs == [] then Some(i)
    else if i >= MAX_FILES || |cs[0]| >= MAX_FILENAME then None
    else match Lookup(d, i, cs[0])
      case None => None
      case Some(c) => Walk(d, c, cs[1..])
  }

  lemma {:induction false} WalkSplit(d: Disk, i: nat, a: seq<string>, b: seq<string>)
    requires Shape(d)
    ensures Walk(d, i, a + b) == match Walk(d, i, a) case None => None case Some(c) => Walk(d, c, b)
    decreases |a|
  {
    if a == [] {
      assert a + b == b;
    } else {
      assert (a + b)[1..] == a[1..] + b && (a + b)[0] == a[0];
      if i < MAX_FILES && |a[0]| < MAX_FILENAME && Lookup(d, i, a[0]).Some? {
        WalkSplit(d, Lookup(d, i, a[0]).value, a[1..], b);
      }
    }
  }

  /** In the tree, going to a named child and back up is staying put. */
  lemma ParentOfChild(d: Disk, i: nat, name: string)
    requires Tree(d) && i < MAX_FILES && name != "." && name != ".." && Lookup(d, i, name).Some?
    ensures Lookup(d, i, name).value < MAX_FILES && d.inodes[Lookup(d, i, name).value].parent == i
  {
  }

  lemma WalkOne(d: Disk, stack: seq<string>, i: nat, c: string)
    requires Shape(d) && Walk(d, ROOT, stack) == Some(i) && i < MAX_FILES && |c| < MAX_FILENAME
    ensures Walk(d, ROOT, stack + [c]) == Lookup(d, i, c)
  {
    WalkSplit(d, ROOT, stack, [c]);
    assert [c][1..] == [];
  }

  /** The last component is looked up where the others lead. */
  lemma WalkInit(d: Disk, a: seq<string>)
    requires Shape(d) && a != []
    ensures var u := Walk(d, ROOT, a[..|a| - 1]);
            Walk(d, ROOT, a) == if u.None? || u.value >= MAX_FILES || |a[|a| - 1]| >= MAX_FILENAME then None
                                else Lookup(d, u.value, a[|a| - 1])
  {
    var init, last := a[..|a| - 1], a[|a| - 1];
    assert a == init + [last];
    WalkSplit(d, ROOT, init, [last]);
    assert [last][1..] == [];
  }

  /** ".." undoes the last component of the stack. */
  lemma StepUp(d: Disk, stack: seq<string>, i: nat)
    requires Tree(d) && AllRegular(stack) && Walk(d, ROOT, stack) == Some(i) && i < MAX_FILES
    requires Lookup(d, i, "..").Some?
    ensures Walk(d, ROOT, StackStep(stack, "..")) == Lookup(d, i, "..")
    ensures Lookup(d, i, "..").value < MAX_FILES
  {
    if stack != [] {
      WalkInit(d, stack);
      ParentOfChild(d, Walk(d, ROOT, stack[..|stack| - 1]).value, stack[|stack| - 1]);
    }
  }

  /** One component: the inode moves as the component stack does. */
  lemma StepAgrees(d: Disk, stack: seq<string>, i: nat, c: string)
    requires Tree(d) && AllRegular(stack) && Walk(d, ROOT, stack) == Some(i) && i < MAX_FILES
    requires Component(c) && |c| < MAX_FILENAME && Lookup(d, i, c).Some?
    ensures Walk(d, ROOT, StackStep(stack, c)) == Lookup(d, i, c)
    ensures AllRegular(StackStep(stack, c)) && Lookup(d, i, c).value < MAX_FILES
  {
    if c == ".." {
      StepUp(d, stack, i);
    } else {
      WalkOne(d, stack, i, c);
      ParentOfChild(d, i, c);
    }
  }

  /** The walk in which "." stays where it is; ramfs_dir_lookup alone does not find it. */
  ghost function WalkWithDots(d: Disk, i: nat, cs: seq<string>): Option<nat>
    requires Shape(d)
    decreases |cs|
  {
    if cs == [] then Some(i)
    else if cs[0] == "." then WalkWithDots(d, i, cs[1..])
    else if i >= MAX_FILES || |cs[0]| >= MAX_FILENAME then None
    else match Lookup(d, i, cs[0])
      case None => None
      case Some(c) => WalkWithDots(d, c, cs[1..])
  }

  /** It is the walk along the other components. */
  lemma {:induction false} DotsStayPut(d: Disk, i: nat, cs: seq<string>)
    requires Shape(d)
    ensures WalkWithDots(d, i, cs) == Walk(d, i, NoDots(cs))
    decreases |cs|
  {
    if cs != [] {
      var rest := NoDots(cs[1..]);
      assert ([cs[0]] + rest)[1..] == rest;
      if cs[0] == "." {
        DotsStayPut(d, i, cs[1..]);
      } else if i < MAX_FILES && |cs[0]| < MAX_FILENAME && Lookup(d, i, cs[0]).Some? {
        DotsStayPut(d, Lookup(d, i, cs[0]).value, cs[1..]);
      }
    }
  }

  /** Where the raw lookup succeeds, there are no dots and the two walks agree. */
  lemma {:induction false} RawWalkHasNoDots(d: Disk, i: nat, cs: seq<string>)
    requires Shape(d) && Walk(d, i, cs).Some?
    ensures WalkWithDots(d, i, cs) == Walk(d, i, cs)
    decreases |cs|
  {
    if cs != [] { RawWalkHasNoDots(d, Lookup(d, i, cs[0]).value, cs[1..]); }
  }

  lemma {:induction false} WalkAgrees(d: Disk, stack: seq<string>, i: nat, cs: seq<string>)
    requires Tree(d) && AllRegular(stack) && Walk(d, ROOT, stack) == Some(i) && i < MAX_FILES
    requires forall k :: 0 <= k < |cs| ==> Component(cs[k])
    requires WalkWithDots(d, i, cs).Some? && StackFold(stack, cs).Some?
    ensures Walk(d, ROOT, StackFold(stack, cs).value) == WalkWithDots(d, i, cs)
    decreases |cs|
  {
    if cs != [] {
      if cs[0] == "." {
        WalkAgrees(d, stack, i, cs[1..]);
      } else {
        StepAgrees(d, stack, i, cs[0]);
        WalkAgrees(d, StackStep(stack, cs[0]), Lookup(d, i, cs[0]).value, cs[1..]);
      }
    }
  }

  /**
   Lexical normalisation agrees with the directory tree: whenever the lookup
   of an absolute path of at most 255 bytes succeeds component by component,
   "." staying where it is, so does normalising the path, and looking up the
   normalised path finds the same inode.
   */
  lemma NormalizeKeepsMeaning(d: Disk, path: string, cwd: Option<string>)
    requires Tree(d) && path != "" && path[0] == '/' && |path| < VFS_MAX_PATH
    requires WalkWithDots(d, ROOT, Comps(path, 0)).Some?
    ensures Normalize(path, cwd, VFS_MAX_PATH).Some?
    ensures Walk(d, ROOT, Comps(Normalize(path, cwd, VFS_MAX_PATH).value, 0)) == WalkWithDots(d, ROOT, Comps(path, 0))
    ensures Walk(d, ROOT, Comps(path, 0)).Some? ==>
            Walk(d, ROOT, Comps(Normalize(path, cwd, VFS_MAX_PATH).value, 0)) == Walk(d, ROOT, Comps(path, 0))
  {
    var cs := Comps(path, 0);
    if Walk(d, ROOT, cs).Some? { RawWalkHasNoDots(d, ROOT, cs); }
    ShortPathsNormalize(path, cwd);
    CompsAreComponents(path, 0);
    WalkAgrees(d, [], ROOT, cs);
    StackFoldRegular([], cs);
    CompsOfRender(StackFold([], cs).value);
  }

  // ---------------------------------------------------------------- where canonical paths lead

  /** An inode that a name or the root leads to: live, and if a directory then linked. */
  ghost predicate Reached(d: Disk, i: nat) {
    && Shape(d) && i < MAX_FILES && !d.inodes[i].kind.Unused?
    && (d.inodes[i].kind.Dir? ==> d.inodes[i].links >= 2)
  }

  lemma {:induction false} WalkReaches(d: Disk, i: nat, cs: seq<string>)
    requires Tree(d) && Reached(d, i) && AllRegular(cs) && Walk(d, i, cs).Some?
    ensures Reached(d, Walk(d, i, cs).value)
    decreases |cs|
  {
    if cs != [] {
      var es := Entries(d, d.inodes[i]);
      assert ChildOk(d.inodes, i, es[FindName(es, cs[0], 0)]);
      WalkReaches(d, Lookup(d, i, cs[0]).value, cs[1..]);
    }
  }

  /** What vfs_lookup finds: the walk along the normalised path. */
  ghost function Resolve(d: Disk, path: string): Option<nat>
    requires Shape(d)
  {
    match Normalize(path, Some("/"), VFS_MAX_PATH)
    case None => None
    case Some(p) => Walk(d, ROOT, Comps(p, 0))
  }

  lemma RootIsCanonical()
    ensures Canonical("/")
  {
  }

  lemma ResolveReaches(d: Disk, path: string)
    requires Tree(d) && Resolve(d, path).Some?
    ensures Reached(d, Resolve(d, path).value)
  {
    RootIsCanonical();
    NormalizeIsCanonical(path, Some("/"), VFS_MAX_PATH);
    WalkReaches(d, ROOT, Comps(Normalize(path, Some("/"), VFS_MAX_PATH).value, 0));
  }
}
