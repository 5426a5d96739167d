/**
 * Kernel heap, specification side (kernel/mm/heap.c).
 *
 * Memory is one map from 8-byte word addresses to word values, so block headers and the bytes handed
 * out by kmalloc live in the same store and a header write lands on whatever is at its address.
 * A block list `bs` describes a memory when every header of the list is found there (`Laid`).
 */
module HeapSpec {
  import opened Basics

  const HEAP_START := 0xFFFFFFFF81000000
  const HEADER := 32
  const MIN_BLOCK := 32
  const ALIGNMENT := 16
  const INITIAL_SIZE := 4 * 1024 * 1024
  const MAX_SIZE := 240 * 1024 * 1024
  const EXPAND_SIZE := 1024 * 1024
  const MAGIC := 0xDEADBEEF
  const TWO_32 := 0x1_0000_0000
  const TWO_63 := 0x8000_0000_0000_0000
  type Mem = map<int, int>

  /** Size of the data area, without the header. */
  datatype Block = Block(addr: int, size: int, used: bool)

  function Word(m: Mem, a: int): int { if a in m then m[a] else 0 }

  // The header: magic and flags share the first word, then size, next, prev.
  function Tag(used: bool): int { if used then MAGIC + TWO_32 else MAGIC }
  function MagicAt(m: Mem, a: int): int { Word(m, a) % TWO_32 }
  function FlagsAt(m: Mem, a: int): int { Word(m, a) / TWO_32 }
  function SizeAt(m: Mem, a: int): int { Word(m, a + 8) }
  function NextAt(m: Mem, a: int): int { Word(m, a + 16) }
  function PrevAt(m: Mem, a: int): int { Word(m, a + 24) }

  function Rounded(n: int): int {
    var r := (n + 15) % TWO_64 / 16 * 16;
    if r < MIN_BLOCK then MIN_BLOCK else r
  }

  function NextAddr(bs: seq<Block>, i: int): int {
    if 0 <= i && i + 1 < |bs| then bs[i + 1].addr else 0
  }

  function PrevAddr(bs: seq<Block>, i: int): int {
    if 0 < i <= |bs| then bs[i - 1].addr else 0
  }

  function EndAddr(bs: seq<Block>, brk: int, i: int): int {
    if 0 <= i && i + 1 < |bs| then bs[i + 1].addr else brk
  }

  /** Block `i` is well sized and ends where the next one begins. */
  predicate Tile(bs: seq<Block>, brk: int, i: int)
    requires 0 <= i < |bs|
  {
    var b := bs[i];
    && b.addr % 16 == 0 && HEAP_START <= b.addr
    && b.size % 16 == 0 && MIN_BLOCK <= b.size
    && b.addr + HEADER + b.size == EndAddr(bs, brk, i) <= brk
  }

  /** The header of block `i` is in memory. */
  predicate At(m: Mem, bs: seq<Block>, i: int)
    requires 0 <= i < |bs|
  {
    var a := bs[i].addr;
    && Word(m, a) == Tag(bs[i].used)
    && SizeAt(m, a) == bs[i].size
    && NextAt(m, a) == NextAddr(bs, i)
    && PrevAt(m, a) == PrevAddr(bs, i)
  }

  ghost predicate Tiled(bs: seq<Block>, brk: int) {
    && |bs| > 0 && bs[0].addr == HEAP_START
    && forall i {:trigger Tile(bs, brk, i)} :: 0 <= i < |bs| ==> Tile(bs, brk, i)
  }

  ghost predicate Laid(m: Mem, bs: seq<Block>, brk: int) {
    && Tiled(bs, brk)
    && forall i {:trigger At(m, bs, i)} :: 0 <= i < |bs| ==> At(m, bs, i)
  }

  ghost predicate Coalesced(bs: seq<Block>) {
    forall i {:trigger bs[i].used} :: 0 <= i && i + 1 < |bs| ==> bs[i].used || bs[i + 1].used
  }

  /** The heap invariant. */
  ghost predicate Inv(m: Mem, bs: seq<Block>, brk: int) {
    Laid(m, bs, brk) && Coalesced(bs) && brk <= HEAP_START + MAX_SIZE
  }

  // ----- the live allocations -----

  ghost function Used(bs: seq<Block>): set<Block> { set b | b in bs && b.used }

  predicate Inside(b: Block, x: int) { b.addr + HEADER <= x < b.addr + HEADER + b.size }

  /** Nothing in the data areas of `live` changed. */
  ghost predicate Kept(m: Mem, m': Mem, live: set<Block>) {
    forall b, x {:trigger b in live, Word(m', x)} :: b in live && Inside(b, x) ==> Word(m', x) == Word(m, x)
  }

  lemma {:induction false} Order(bs: seq<Block>, brk: int, i: int, j: int)
    requires Tiled(bs, brk) && 0 <= i < j < |bs|
    ensures bs[i].addr + HEADER + bs[i].size <= bs[j].addr
    decreases j - i
  {
    assert Tile(bs, brk, i);
    if i + 1 < j {
      Order(bs, brk, i + 1, j);
      assert Tile(bs, brk, i + 1);
    }
  }

  /** Two different blocks of the list, headers included, do not overlap. */
  lemma Apart(bs: seq<Block>, brk: int, i: int, j: int)
    requires Tiled(bs, brk) && 0 <= i < |bs| && 0 <= j < |bs| && i != j
    ensures bs[i].addr + HEADER + bs[i].size <= bs[j].addr || bs[j].addr + HEADER + bs[j].size <= bs[i].addr
    ensures MIN_BLOCK <= bs[i].size && MIN_BLOCK <= bs[j].size && bs[i] != bs[j]
  {
    assert Tile(bs, brk, i) && Tile(bs, brk, j);
    if i < j { Order(bs, brk, i, j); } else { Order(bs, brk, j, i); }
  }

  // ----- split -----

  /** Cut block `i` after `size` bytes; the tail becomes a free block. */
  function Cut(bs: seq<Block>, i: nat, size: int): seq<Block>
    requires i < |bs|
  {
    bs[..i] + [bs[i].(size := size), Block(bs[i].addr + HEADER + size, bs[i].size - size - HEADER, false)] + bs[i + 1..]
  }

  function Split(bs: seq<Block>, i: nat, size: int): seq<Block>
    requires i < |bs|
  {
    if bs[i].size - size - HEADER < MIN_BLOCK then bs else Cut(bs, i, size)
  }

  /** The stores of block_split, in order, for a tail of `remaining` bytes. */
  function SplitStores(m: Mem, a: int, size: int, remaining: int): Mem {
    var n := a + HEADER + size;
    var next := NextAt(m, a);
    var m1 := m[n := Tag(false)][n + 8 := remaining][n + 24 := a][n + 16 := next];
    var m2 := if next != 0 then m1[next + 24 := n] else m1;
    m2[a + 16 := n][a + 8 := size]
  }

  lemma CutTiled(bs: seq<Block>, brk: int, i: nat, size: int)
    requires Tiled(bs, brk) && i < |bs| && size % 16 == 0 && MIN_BLOCK <= size
    requires size + HEADER + MIN_BLOCK <= bs[i].size
    ensures Tiled(Cut(bs, i, size), brk)
  {
    var c := Cut(bs, i, size);
    assert Tile(bs, brk, i);
    forall k | 0 <= k < |c|
      ensures Tile(c, brk, k)
    {
      if k < i { assert Tile(bs, brk, k); } else if k > i + 1 { assert Tile(bs, brk, k - 1); }
    }
    assert Tile(bs, brk, 0);
  }

  /** Where block_split leaves memory alone. */
  lemma SplitElsewhere(m: Mem, a: int, size: int, remaining: int, x: int)
    requires x < a + HEADER + size || a + 2 * HEADER + size <= x
    requires x != a + 8 && x != a + 16 && (NextAt(m, a) == 0 || x != NextAt(m, a) + 24)
    ensures Word(SplitStores(m, a, size, remaining), x) == Word(m, x)
  {
  }

  /** What block_split writes, when the next header is not hit by the new one. */
  lemma SplitHere(m: Mem, a: int, size: int, remaining: int)
    requires MIN_BLOCK <= size && (NextAt(m, a) == 0 || a + 2 * HEADER + size <= NextAt(m, a))
    ensures var m' := SplitStores(m, a, size, remaining); var n := a + HEADER + size;
            && Word(m', a) == Word(m, a) && SizeAt(m', a) == size && NextAt(m', a) == n && PrevAt(m', a) == PrevAt(m, a)
            && Word(m', n) == Tag(false) && SizeAt(m', n) == remaining && NextAt(m', n) == NextAt(m, a)
                && PrevAt(m', n) == a
            && (NextAt(m, a) != 0 ==> PrevAt(m', NextAt(m, a)) == n)
  {
  }

  ghost predicate CanCut(m: Mem, bs: seq<Block>, brk: int, i: nat, size: int) {
    && Laid(m, bs, brk) && i < |bs| && size % 16 == 0 && MIN_BLOCK <= size
    && size + HEADER + MIN_BLOCK <= bs[i].size && At(m, bs, i) && Tile(bs, brk, i)
  }

  lemma CutAtOthers(m: Mem, bs: seq<Block>, brk: int, i: nat, size: int, j: nat)
    requires CanCut(m, bs, brk, i, size) && j < |bs| && j != i && j != i + 1
    ensures At(SplitStores(m, bs[i].addr, size, bs[i].size - size - HEADER), Cut(bs, i, size), if j < i then j
            else j + 1)
  {
    var a, r, b := bs[i].addr, bs[i].size - size - HEADER, bs[j].addr;
    assert At(m, bs, j) && Tile(bs, brk, j);
    Apart(bs, brk, i, j);
    if i + 1 < |bs| { Apart(bs, brk, i + 1, j); }
    SplitElsewhere(m, a, size, r, b);
    SplitElsewhere(m, a, size, r, b + 8);
    SplitElsewhere(m, a, size, r, b + 16);
    SplitElsewhere(m, a, size, r, b + 24);
  }

  lemma CutAtHere(m: Mem, bs: seq<Block>, brk: int, i: nat, size: int)
    requires CanCut(m, bs, brk, i, size)
    ensures var m' := SplitStores(m, bs[i].addr, size, bs[i].size - size - HEADER); var c := Cut(bs, i, size);
            At(m', c, i) && At(m', c, i + 1)
  {
    SplitHere(m, bs[i].addr, size, bs[i].size - size - HEADER);
  }

  /** The header after the cut: only its back link changes. */
  lemma HeaderAfterCut(m: Mem, m': Mem, bs: seq<Block>, i: nat, size: int)
    requires i + 1 < |bs| && At(m, bs, i + 1)
    requires var b := bs[i + 1].addr;
             && Word(m', b) == Word(m, b) && Word(m', b + 8) == Word(m, b + 8) && Word(m', b + 16) == Word(m, b + 16)
             && PrevAt(m', b) == bs[i].addr + HEADER + size
    ensures At(m', Cut(bs, i, size), i + 2)
  {
    var c := Cut(bs, i, size);
    assert c[i + 2] == bs[i + 1] && c[i + 1].addr == bs[i].addr + HEADER + size;
    assert i + 2 < |bs| ==> c[i + 3] == bs[i + 2];
  }

  lemma CutAtNext(m: Mem, bs: seq<Block>, brk: int, i: nat, size: int)
    requires CanCut(m, bs, brk, i, size) && i + 1 < |bs|
    ensures At(SplitStores(m, bs[i].addr, size, bs[i].size - size - HEADER), Cut(bs, i, size), i + 2)
  {
    var a, r, b := bs[i].addr, bs[i].size - size - HEADER, bs[i + 1].addr;
    assert At(m, bs, i + 1) && Tile(bs, brk, i + 1);
    SplitHere(m, a, size, r);
    SplitElsewhere(m, a, size, r, b);
    SplitElsewhere(m, a, size, r, b + 8);
    SplitElsewhere(m, a, size, r, b + 16);
    HeaderAfterCut(m, SplitStores(m, a, size, r), bs, i, size);
  }

  lemma CutLaid(m: Mem, bs: seq<Block>, brk: int, i: nat, size: int)
    requires Laid(m, bs, brk) && i < |bs| && size % 16 == 0 && MIN_BLOCK <= size
    requires size + HEADER + MIN_BLOCK <= bs[i].size
    ensures Laid(SplitStores(m, bs[i].addr, size, bs[i].size - size - HEADER), Cut(bs, i, size), brk)
  {
    var c := Cut(bs, i, size);
    var m' := SplitStores(m, bs[i].addr, size, bs[i].size - size - HEADER);
    CutTiled(bs, brk, i, size);
    assert CanCut(m, bs, brk, i, size);
    CutAtHere(m, bs, brk, i, size);
    if i + 1 < |bs| { CutAtNext(m, bs, brk, i, size); }
    forall k | 0 <= k < |c|
      ensures At(m', c, k)
    {
      if k < i {
        CutAtOthers(m, bs, brk, i, size, k);
      } else if k > i + 2 {
        CutAtOthers(m, bs, brk, i, size, k - 1);
      }
    }
  }

  lemma CutKeeps(m: Mem, bs: seq<Block>, brk: int, i: nat, size: int)
    requires Laid(m, bs, brk) && i < |bs| && size % 16 == 0 && MIN_BLOCK <= size
    requires size + HEADER + MIN_BLOCK <= bs[i].size
    ensures Kept(m, SplitStores(m, bs[i].addr, size, bs[i].size - size - HEADER),
            Used(bs) - {bs[i]} + {bs[i].(size := size)})
  {
    assert At(m, bs, i) && Tile(bs, brk, i);
    var m' := SplitStores(m, bs[i].addr, size, bs[i].size - size - HEADER);
    forall b, x | b in Used(bs) - {bs[i]} + {bs[i].(size := size)} && Inside(b, x)
      ensures Word(m', x) == Word(m, x)
    {
      if b == bs[i].(size := size) {
        if i + 1 < |bs| { Apart(bs, brk, i, i + 1); }
      } else {
        var j :| 0 <= j < |bs| && bs[j] == b;
        Apart(bs, brk, i, j);
        if i + 1 < |bs| && j != i + 1 { Apart(bs, brk, i + 1, j); }
      }
    }
  }

  // ----- merge -----

  function Joined(bs: seq<Block>, i: nat): seq<Block>
    requires i + 1 < |bs|
  {
    bs[..i] + [bs[i].(size := bs[i].size + HEADER + bs[i + 1].size)] + bs[i + 2..]
  }

  function Merge(bs: seq<Block>, i: nat): seq<Block>
    requires i < |bs|
  {
    if i + 1 < |bs| && !bs[i + 1].used then Joined(bs, i) else bs
  }

  function MergeStores(m: Mem, a: int): Mem {
    var next := NextAt(m, a);
    var after := NextAt(m, next);
    var m1 := m[a + 8 := SizeAt(m, a) + HEADER + SizeAt(m, next)][a + 16 := after];
    var m2 := if after != 0 then m1[after + 24 := a] else m1;
    m2[next := Word(m, next) - MagicAt(m, next)]
  }

  lemma JoinedTiled(bs: seq<Block>, brk: int, i: nat)
    requires Tiled(bs, brk) && i + 1 < |bs|
    ensures Tiled(Joined(bs, i), brk)
  {
    var c := Joined(bs, i);
    assert Tile(bs, brk, i) && Tile(bs, brk, i + 1);
    forall k | 0 <= k < |c|
      ensures Tile(c, brk, k)
    {
      if k < i { assert Tile(bs, brk, k); } else if k > i { assert Tile(bs, brk, k + 1); }
    }
  }

  lemma MergeElsewhere(m: Mem, a: int, x: int)
    requires x != a + 8 && x != a + 16 && x != NextAt(m, a)
    requires NextAt(m, NextAt(m, a)) == 0 || x != NextAt(m, NextAt(m, a)) + 24
    ensures Word(MergeStores(m, a), x) == Word(m, x)
  {
  }

  lemma JoinedAtOthers(m: Mem, bs: seq<Block>, brk: int, i: nat, j: nat)
    requires Laid(m, bs, brk) && i + 1 < |bs| && j < |bs| && j != i && j != i + 1 && j != i + 2
    ensures At(MergeStores(m, bs[i].addr), Joined(bs, i), if j < i then j else j - 1)
  {
    var a, b := bs[i].addr, bs[j].addr;
    assert At(m, bs, i) && At(m, bs, i + 1);
    assert At(m, bs, j) && Tile(bs, brk, j);
    Apart(bs, brk, i, j);
    Apart(bs, brk, i + 1, j);
    if i + 2 < |bs| { Apart(bs, brk, i + 2, j); }
    MergeElsewhere(m, a, b);
    MergeElsewhere(m, a, b + 8);
    MergeElsewhere(m, a, b + 16);
    MergeElsewhere(m, a, b + 24);
  }

  lemma JoinedAtHere(m: Mem, bs: seq<Block>, brk: int, i: nat)
    requires Laid(m, bs, brk) && i + 1 < |bs|
    ensures var m' := MergeStores(m, bs[i].addr); var c := Joined(bs, i);
            At(m', c, i) && (i + 2 < |bs| ==> At(m', c, i + 1))
  {
    var a := bs[i].addr;
    assert At(m, bs, i) && At(m, bs, i + 1) && Tile(bs, brk, i) && Tile(bs, brk, i + 1);
    if i + 2 < |bs| {
      var b := bs[i + 2].addr;
      assert At(m, bs, i + 2) && Tile(bs, brk, i + 2);
      MergeElsewhere(m, a, b);
      MergeElsewhere(m, a, b + 8);
      MergeElsewhere(m, a, b + 16);
    }
    MergeElsewhere(m, a, a);
    MergeElsewhere(m, a, a + 24);
  }

  lemma JoinedLaid(m: Mem, bs: seq<Block>, brk: int, i: nat)
    requires Laid(m, bs, brk) && i + 1 < |bs|
    ensures Laid(MergeStores(m, bs[i].addr), Joined(bs, i), brk)
  {
    var c := Joined(bs, i);
    var m' := MergeStores(m, bs[i].addr);
    JoinedTiled(bs, brk, i);
    JoinedAtHere(m, bs, brk, i);
    forall k | 0 <= k < |c|
      ensures At(m', c, k)
    {
      if k < i {
        JoinedAtOthers(m, bs, brk, i, k);
      } else if k > i + 1 {
        JoinedAtOthers(m, bs, brk, i, k + 1);
      }
    }
  }

  /** A merge keeps every live data area, and the data area of the block that grows. */
  lemma JoinedKeeps(m: Mem, bs: seq<Block>, brk: int, i: nat)
    requires Laid(m, bs, brk) && i + 1 < |bs| && !bs[i + 1].used
    ensures Kept(m, MergeStores(m, bs[i].addr), Used(bs) + {bs[i]})
  {
    assert At(m, bs, i) && Tile(bs, brk, i) && At(m, bs, i + 1);
    var m' := MergeStores(m, bs[i].addr);
    forall b, x | b in Used(bs) + {bs[i]} && Inside(b, x)
      ensures Word(m', x) == Word(m, x)
    {
      var j :| 0 <= j < |bs| && bs[j] == b;
      if j != i { Apart(bs, brk, i, j); }
      Apart(bs, brk, i + 1, j);
      if i + 2 < |bs| && j != i + 2 { Apart(bs, brk, i + 2, j); }
    }
  }

  // ----- marking -----

  function Marked(bs: seq<Block>, i: nat, used: bool): seq<Block>
    requires i < |bs|
  {
    bs[i := bs[i].(used := used)]
  }

  lemma MarkedLaid(m: Mem, bs: seq<Block>, brk: int, i: nat, used: bool)
    requires Laid(m, bs, brk) && i < |bs|
    ensures Laid(m[bs[i].addr := Tag(used)], Marked(bs, i, used), brk)
    ensures Kept(m, m[bs[i].addr := Tag(used)], Used(bs) + {bs[i]})
  {
    var c := Marked(bs, i, used);
    var m' := m[bs[i].addr := Tag(used)];
    forall k | 0 <= k < |c|
      ensures Tile(c, brk, k) && At(m', c, k)
    {
      assert Tile(bs, brk, k) && At(m, bs, k);
      if k != i { Apart(bs, brk, k, i); }
    }
    forall b, x | b in Used(bs) + {bs[i]} && Inside(b, x)
      ensures Word(m', x) == Word(m, x)
    {
      var j :| 0 <= j < |bs| && bs[j] == b;
      if j != i { Apart(bs, brk, i, j); }
    }
  }

  // ----- what the block operations do to the set of live allocations -----

  lemma CutUsed(bs: seq<Block>, brk: int, i: nat, size: int)
    requires Tiled(bs, brk) && i < |bs|
    ensures Used(Cut(bs, i, size)) == Used(bs) - {bs[i]} + (if bs[i].used then {bs[i].(size := size)} else {})
  {
    var c := Cut(bs, i, size);
    forall j | 0 <= j < |bs| && j != i
      ensures bs[j] in c && bs[j] != bs[i]
    {
      Apart(bs, brk, i, j);
      assert bs[j] == c[if j < i then j else j + 1];
    }
    assert c[i] == bs[i].(size := size) && !c[i + 1].used;
    forall k | 0 <= k < |c| && k != i && k != i + 1
      ensures c[k] in bs
    {
      assert c[k] == bs[if k < i then k else k - 1];
    }
  }

  lemma JoinedUsed(bs: seq<Block>, brk: int, i: nat)
    requires Tiled(bs, brk) && i + 1 < |bs| && !bs[i + 1].used
    ensures Used(Joined(bs, i)) == Used(bs) - {bs[i]} + (if bs[i].used then {Joined(bs, i)[i]} else {})
  {
    var c := Joined(bs, i);
    forall j | 0 <= j < |bs| && j != i && j != i + 1
      ensures bs[j] in c && bs[j] != bs[i]
    {
      Apart(bs, brk, i, j);
      assert bs[j] == c[if j < i then j else j - 1];
    }
    forall k | 0 <= k < |c| && k != i
      ensures c[k] in bs
    {
      assert c[k] == bs[if k < i then k else k + 1];
    }
  }

  lemma MarkedUsed(bs: seq<Block>, brk: int, i: nat, used: bool)
    requires Tiled(bs, brk) && i < |bs|
    ensures Used(Marked(bs, i, used)) == Used(bs) - {bs[i]} + (if used then {Marked(bs, i, used)[i]} else {})
  {
    var c := Marked(bs, i, used);
    forall j | 0 <= j < |bs| && j != i
      ensures bs[j] in c && bs[j] != bs[i]
    {
      Apart(bs, brk, i, j);
      assert bs[j] == c[j];
    }
    forall k | 0 <= k < |c| && k != i
      ensures c[k] in bs
    {
      assert c[k] == bs[k];
    }
  }

  lemma MergeUsed(bs: seq<Block>, brk: int, i: nat)
    requires Tiled(bs, brk) && i < |bs| && !bs[i].used
    ensures Used(Merge(bs, i)) == Used(bs)
  {
  }

  // ----- taking a block -----

  /** Index of the first free block of at least `size` bytes, or the length of the list. */
  function FirstFit(bs: seq<Block>, size: int): (i: nat)
    ensures i <= |bs| && (i < |bs| ==> !bs[i].used && bs[i].size >= size)
    ensures forall j :: 0 <= j < i ==> bs[j].used || bs[j].size < size
  {
    if bs == [] || (!bs[0].used && bs[0].size >= size) then 0 else 1 + FirstFit(bs[1..], size)
  }

  function Taken(bs: seq<Block>, i: nat, size: int): seq<Block>
    requires i < |bs|
  {
    Marked(Split(bs, i, size), i, true)
  }

  lemma TakenCoalesced(bs: seq<Block>, i: nat, size: int)
    requires Coalesced(bs) && i < |bs| && !bs[i].used
    ensures Coalesced(Taken(bs, i, size))
  {
  }

  /** A live block, and what the rest of the heap sees of it. */
  lemma TakenUsed(bs: seq<Block>, brk: int, i: nat, size: int)
    requires Tiled(bs, brk) && i < |bs| && !bs[i].used && size % 16 == 0 && MIN_BLOCK <= size <= bs[i].size
    ensures var b := Taken(bs, i, size)[i];
            && b.addr == bs[i].addr && b.used && size <= b.size < size + HEADER + MIN_BLOCK
            && b !in Used(bs) && Used(Taken(bs, i, size)) == Used(bs) + {b}
  {
    var s := Split(bs, i, size);
    if s != bs {
      CutTiled(bs, brk, i, size);
      CutUsed(bs, brk, i, size);
    }
    MarkedUsed(s, brk, i, true);
    if Taken(bs, i, size)[i] in Used(bs) {
      var j :| 0 <= j < |bs| && bs[j] == Taken(bs, i, size)[i];
      Apart(bs, brk, i, j);
      assert false;
    }
  }

  // ----- freeing a block -----

  function Freed(bs: seq<Block>, i: nat): seq<Block>
    requires i < |bs|
  {
    var c := Merge(Marked(bs, i, false), i);
    if i > 0 && !c[i - 1].used then Merge(c, i - 1) else c
  }

  /** Freeing block `i` and merging it forward leaves at most one adjacent free pair, just before `i`. */
  lemma MergedForward(bs: seq<Block>, i: nat)
    requires Coalesced(bs) && i < |bs|
    ensures var c := Merge(Marked(bs, i, false), i);
            forall k :: 0 <= k && k + 1 < |c| && k != i - 1 ==> c[k].used || c[k + 1].used
  {
  }

  lemma FreedCoalesced(bs: seq<Block>, i: nat)
    requires Coalesced(bs) && i < |bs|
    ensures Coalesced(Freed(bs, i))
  {
    var c, e := Merge(Marked(bs, i, false), i), Freed(bs, i);
    MergedForward(bs, i);
    forall k | 0 <= k && k + 1 < |e|
      ensures e[k].used || e[k + 1].used
    {
      if i > 0 && !c[i - 1].used {
        if k < i - 1 { assert c[k].used || c[k + 1].used; } else { assert c[k + 1].used || c[k + 2].used; }
      }
    }
  }

  // ----- growing the heap -----

  function Grown(bs: seq<Block>, brk: int, extra: int): seq<Block>
    requires |bs| > 0
  {
    var c := bs + [Block(brk, extra - HEADER, false)];
    if bs[|bs| - 1].used then c else Joined(c, |bs| - 1)
  }

  function LinkStores(m: Mem, last: int, brk: int, extra: int): Mem {
    m[brk := Tag(false)][brk + 8 := extra - HEADER][brk + 16 := 0][brk + 24 := 0][last + 16 := brk][brk + 24 := last]
  }

  lemma PageMultiple(n: int)
    requires n % PAGE == 0 && n > 0
    ensures n % 16 == 0 && n >= PAGE
  {
  }

  lemma LinkTiled(bs: seq<Block>, brk: int, extra: int)
    requires Tiled(bs, brk) && extra % PAGE == 0 && extra > 0
    ensures Tiled(bs + [Block(brk, extra - HEADER, false)], brk + extra)
  {
    PageMultiple(extra);
    assert Tile(bs, brk, |bs| - 1);
    EndTile(bs[|bs| - 1], brk, extra);
    TileAppended(bs, brk, Block(brk, extra - HEADER, false));
  }

  lemma EndTile(last: Block, brk: int, extra: int)
    requires last.addr % 16 == 0 && last.size % 16 == 0 && last.addr + HEADER + last.size == brk && extra % 16 == 0
             && extra >= PAGE
    ensures brk % 16 == 0 && (extra - HEADER) % 16 == 0 && MIN_BLOCK <= extra - HEADER
  {
  }

  lemma TileAppended(bs: seq<Block>, brk: int, b: Block)
    requires Tiled(bs, brk) && b.addr == brk && HEAP_START <= brk && brk % 16 == 0 && b.size % 16 == 0
             && MIN_BLOCK <= b.size
    ensures Tiled(bs + [b], brk + HEADER + b.size)
  {
    var c, end := bs + [b], brk + HEADER + b.size;
    forall k | 0 <= k < |c|
      ensures Tile(c, end, k)
    {
      if k < |bs| { assert Tile(bs, brk, k); }
    }
    assert c[0] == bs[0];
  }

  lemma LinkLaid(m: Mem, bs: seq<Block>, brk: int, extra: int)
    requires Laid(m, bs, brk) && extra % PAGE == 0 && extra > 0
    ensures Laid(LinkStores(m, bs[|bs| - 1].addr, brk, extra), bs + [Block(brk, extra - HEADER, false)], brk + extra)
  {
    var l := |bs| - 1;
    var m' := LinkStores(m, bs[l].addr, brk, extra);
    var c := bs + [Block(brk, extra - HEADER, false)];
    LinkTiled(bs, brk, extra);
    assert Tile(bs, brk, l) && At(m, bs, l);
    forall k | 0 <= k < |c|
      ensures At(m', c, k)
    {
      if k < l {
        assert Tile(bs, brk, k) && At(m, bs, k);
        Apart(bs, brk, k, l);
      }
    }
  }

  lemma LinkKeeps(m: Mem, bs: seq<Block>, brk: int, extra: int)
    requires Tiled(bs, brk)
    ensures Kept(m, LinkStores(m, bs[|bs| - 1].addr, brk, extra), Used(bs) + {bs[|bs| - 1]})
  {
    var l := |bs| - 1;
    var m' := LinkStores(m, bs[l].addr, brk, extra);
    forall b, x | b in Used(bs) + {bs[l]} && Inside(b, x)
      ensures Word(m', x) == Word(m, x)
    {
      var j :| 0 <= j < |bs| && bs[j] == b;
      assert Tile(bs, brk, j);
      if j != l { Apart(bs, brk, j, l); }
    }
  }

  lemma GrownCoalesced(bs: seq<Block>, brk: int, extra: int)
    requires Coalesced(bs) && |bs| > 0
    ensures Coalesced(Grown(bs, brk, extra))
  {
  }

  lemma GrownUsed(bs: seq<Block>, brk: int, extra: int)
    requires |bs| > 0
    ensures Used(Grown(bs, brk, extra)) == Used(bs)
  {
  }

  /** A successful expansion for `size` bytes always leaves a fitting block. */
  lemma GrownFits(bs: seq<Block>, brk: int, extra: int, size: int)
    requires |bs| > 0 && bs[|bs| - 1].size >= 0 && extra >= size + HEADER
    ensures FirstFit(Grown(bs, brk, extra), size) < |Grown(bs, brk, extra)|
  {
    var e := Grown(bs, brk, extra);
    var l := |e| - 1;
    assert !e[l].used && e[l].size >= size;
  }

  // ----- accounting -----

  function UsedBytes(bs: seq<Block>): int {
    if bs == [] then 0 else UsedBytes(bs[..|bs| - 1]) + (if bs[|bs| - 1].used then bs[|bs| - 1].size else 0)
  }

  function FreeBytes(bs: seq<Block>): int {
    if bs == [] then 0 else FreeBytes(bs[..|bs| - 1]) + (if bs[|bs| - 1].used then 0 else bs[|bs| - 1].size)
  }

  function FreeCount(bs: seq<Block>): int {
    if bs == [] then 0 else FreeCount(bs[..|bs| - 1]) + (if bs[|bs| - 1].used then 0 else 1)
  }

  /** Every byte of the heap is in a header, in a live block or in a free block. */
  lemma {:induction false} Conservation(bs: seq<Block>, brk: int, n: nat)
    requires Tiled(bs, brk) && 0 < n <= |bs|
    ensures UsedBytes(bs[..n]) + FreeBytes(bs[..n]) + HEADER * n == EndAddr(bs, brk, n - 1) - HEAP_START
  {
    assert Tile(bs, brk, n - 1);
    assert bs[..n][..n - 1] == bs[..n - 1];
    if n > 1 {
      Conservation(bs, brk, n - 1);
    } else {
      assert UsedBytes(bs[..0]) == 0 && FreeBytes(bs[..0]) == 0;
    }
  }

  // ----- kmalloc -----

  function ExpandFor(size: int): int {
    var want := if size + HEADER > EXPAND_SIZE then size + HEADER else EXPAND_SIZE;
    PagesUp(want)
  }

  function PagesUp(n: int): int { (n + PAGE - 1) / PAGE * PAGE }

  /** Room below the size limit, and enough pages to map. */
  predicate CanExpand(brk: int, extra: int, pages: nat) {
    brk - HEAP_START + extra <= MAX_SIZE && extra <= pages * PAGE
  }

  /** The first fitting block of `bs` is now live and `p` points at its data. */
  ghost predicate TakenFirst(bs: seq<Block>, bs': seq<Block>, size: int, p: int) {
    var i := FirstFit(bs, size);
    i < |bs| && bs' == Taken(bs, i, size) && p == bs[i].addr + HEADER
  }

  ghost predicate MallocOutcome(n: int, pages: nat, bs: seq<Block>, brk: int, bs': seq<Block>, brk': int, p: int)
    requires |bs| > 0
  {
    var size := Rounded(n);
    if n == 0 then p == 0 && bs' == bs && brk' == brk
    else if FirstFit(bs, size) < |bs| then TakenFirst(bs, bs', size, p) && brk' == brk
    else if CanExpand(brk, ExpandFor(size), pages) then
      TakenFirst(Grown(bs, brk, ExpandFor(size)), bs', size, p) && brk' == brk + ExpandFor(size)
    else p == 0 && bs' == bs && brk' == brk
  }

  /** Requests up to 2^64 - 16 are rounded to at least what was asked for; the last fifteen are not. */
  lemma RoundingCoversIff(n: int)
    requires 0 < n < TWO_64
    ensures Rounded(n) >= n <==> n <= TWO_64 - 16
    ensures n <= TWO_64 - 16 ==> Rounded(n) % 16 == 0 && (n > MIN_BLOCK ==> Rounded(n) < n + 16)
    ensures n > TWO_64 - 16 ==> Rounded(n) == MIN_BLOCK
  {
  }

  lemma TakenMeaning(bs: seq<Block>, brk: int, bs': seq<Block>, size: int, p: int)
    requires Tiled(bs, brk) && TakenFirst(bs, bs', size, p) && size % 16 == 0 && MIN_BLOCK <= size
    ensures exists b: Block ::
            b !in Used(bs) && Used(bs') == Used(bs) + {b} && b.addr + HEADER == p
            && size <= b.size < size + HEADER + MIN_BLOCK
    ensures forall b :: b in bs && !b.used && b.size >= size ==> p <= b.addr + HEADER
  {
    var i := FirstFit(bs, size);
    TakenUsed(bs, brk, i, size);
    var nb := bs'[i];
    assert nb !in Used(bs) && Used(bs') == Used(bs) + {nb} && nb.addr + HEADER == p
           && size <= nb.size < size + HEADER + MIN_BLOCK;
    forall b | b in bs && !b.used && b.size >= size
      ensures p <= b.addr + HEADER
    {
      var j :| 0 <= j < |bs| && bs[j] == b;
      if i < j { Order(bs, brk, i, j); assert Tile(bs, brk, i); }
    }
  }

  /** Some free block covers the request. */
  ghost predicate Fits(bs: seq<Block>, n: int) { exists b :: b in bs && !b.used && b.size >= n && b.size >= MIN_BLOCK }

  /** Block sizes are multiples of 16, so covering the request is covering the rounded request. */
  lemma CoversRounded(size: int, n: int)
    requires size % 16 == 0 && 0 < n <= TWO_63
    ensures size >= Rounded(n) <==> size >= n && size >= MIN_BLOCK
  {
    RoundingCoversIff(n);
  }

  lemma FitIff(bs: seq<Block>, brk: int, n: int)
    requires Tiled(bs, brk) && 0 < n <= TWO_63
    ensures FirstFit(bs, Rounded(n)) < |bs| <==> Fits(bs, n)
  {
    var i := FirstFit(bs, Rounded(n));
    if i < |bs| {
      assert Tile(bs, brk, i) && bs[i] in bs;
      CoversRounded(bs[i].size, n);
    }
    forall j | 0 <= j < i
      ensures bs[j].used || bs[j].size < n || bs[j].size < MIN_BLOCK
    {
      assert Tile(bs, brk, j);
      CoversRounded(bs[j].size, n);
    }
  }

  /** No free block covers the request and the heap cannot grow for it. */
  ghost predicate Exhausted(bs: seq<Block>, brk: int, n: int, pages: nat) {
    !Fits(bs, n) && !CanExpand(brk, ExpandFor(Rounded(n)), pages)
  }

  /** kmalloc fails only for size zero, or when nothing fits and the heap cannot grow; then nothing changed. */
  lemma MallocFailsIff(n: int, pages: nat, bs: seq<Block>, brk: int, bs': seq<Block>, brk': int, p: int)
    requires Tiled(bs, brk) && 0 <= n <= TWO_63 && MallocOutcome(n, pages, bs, brk, bs', brk', p)
    ensures p == 0 <==> n == 0 || Exhausted(bs, brk, n, pages)
    ensures p == 0 ==> bs' == bs && brk' == brk
  {
    if n > 0 {
      FitIff(bs, brk, n);
      var size := Rounded(n);
      if FirstFit(bs, size) < |bs| {
        TakenNonNull(bs, brk, bs', size, p);
      } else if CanExpand(brk, ExpandFor(size), pages) {
        ExpandForFits(n);
        GrownTiled(bs, brk, ExpandFor(size));
        TakenNonNull(Grown(bs, brk, ExpandFor(size)), brk', bs', size, p);
      }
    }
  }

  lemma TakenNonNull(bs: seq<Block>, brk: int, bs': seq<Block>, size: int, p: int)
    requires Tiled(bs, brk) && TakenFirst(bs, bs', size, p)
    ensures p > 0
  {
    assert Tile(bs, brk, FirstFit(bs, size));
  }

  lemma ExpandForFits(n: int)
    requires 0 < n <= TWO_63
    ensures ExpandFor(Rounded(n)) % PAGE == 0 && ExpandFor(Rounded(n)) >= Rounded(n) + HEADER && Rounded(n) >= n
    ensures Rounded(n) % 16 == 0
  {
  }

  /** An expansion is at least 1 MB; beyond that it is the block and its header in whole pages, and no page more. */
  lemma ExpandIs(size: int)
    requires size >= 0
    ensures var e := ExpandFor(size);
            e % PAGE == 0 && e >= size + HEADER && e >= EXPAND_SIZE && (e == EXPAND_SIZE || e < size + HEADER + PAGE)
  {
  }

  lemma RoundedTwice(n: int)
    requires 0 < n <= TWO_63
    ensures MIN_BLOCK <= Rounded(n) <= TWO_63 && Rounded(n) % 16 == 0 && Rounded(Rounded(n)) == Rounded(n)
  {
  }

  lemma ExpansionFacts(n: int, bs: seq<Block>, brk: int)
    requires 0 < n <= TWO_63 && Tiled(bs, brk)
    ensures MIN_BLOCK <= Rounded(n) <= TWO_63 && Rounded(Rounded(n)) == Rounded(n)
    ensures var bs1 := Grown(bs, brk, ExpandFor(Rounded(n))); FirstFit(bs1, Rounded(n)) < |bs1| && Used(bs1) == Used(bs)
  {
    RoundedTwice(n);
    ExpandForFits(n);
    assert Tile(bs, brk, |bs| - 1);
    GrownFits(bs, brk, ExpandFor(Rounded(n)), Rounded(n));
    GrownUsed(bs, brk, ExpandFor(Rounded(n)));
  }

  lemma AddrsInHeap(bs: seq<Block>, brk: int)
    requires Tiled(bs, brk)
    ensures forall j :: 0 <= j < |bs| ==> HEAP_START <= bs[j].addr
  {
    forall j | 0 <= j < |bs|
      ensures HEAP_START <= bs[j].addr
    {
      assert Tile(bs, brk, j);
    }
  }

  /** The list kmalloc takes its block from. */
  function Searched(n: int, bs: seq<Block>, brk: int): seq<Block>
    requires |bs| > 0
  {
    if FirstFit(bs, Rounded(n)) < |bs| then bs else Grown(bs, brk, ExpandFor(Rounded(n)))
  }

  /**
   * A successful kmalloc adds exactly one live block; it covers the request and is less than a header and a smallest
   * block too large, the others are untouched, and no fitting free block had a lower address.
   */
  lemma MallocAdds(n: int, pages: nat, bs: seq<Block>, brk: int, bs': seq<Block>, brk': int, p: int)
    requires Tiled(bs, brk) && 0 <= n <= TWO_63 && MallocOutcome(n, pages, bs, brk, bs', brk', p) && p != 0
    ensures exists b: Block ::
            b !in Used(bs) && Used(bs') == Used(bs) + {b} && b.addr + HEADER == p
            && n <= Rounded(n) <= b.size < Rounded(n) + HEADER + MIN_BLOCK
    ensures forall b :: b in Searched(n, bs, brk) && !b.used && b.size >= Rounded(n) ==> p <= b.addr + HEADER
  {
    ExpandForFits(n);
    if FirstFit(bs, Rounded(n)) < |bs| {
      TakenMeaning(bs, brk, bs', Rounded(n), p);
    } else {
      GrownTiled(bs, brk, ExpandFor(Rounded(n)));
      GrownUsed(bs, brk, ExpandFor(Rounded(n)));
      TakenMeaning(Grown(bs, brk, ExpandFor(Rounded(n))), brk', bs', Rounded(n), p);
    }
  }

  lemma GrownTiled(bs: seq<Block>, brk: int, extra: int)
    requires Tiled(bs, brk) && extra % PAGE == 0 && extra > 0
    ensures Tiled(Grown(bs, brk, extra), brk + extra)
  {
    LinkTiled(bs, brk, extra);
    if !bs[|bs| - 1].used { JoinedTiled(bs + [Block(brk, extra - HEADER, false)], brk + extra, |bs| - 1); }
  }

  // ----- krealloc -----

  lemma KeptTrans(m: Mem, m1: Mem, m2: Mem, live: set<Block>, live1: set<Block>, live2: set<Block>)
    requires Kept(m, m1, live1) && Kept(m1, m2, live2) && live <= live1 && live <= live2
    ensures Kept(m, m2, live)
  {
  }

  /** A store into the data area of a block leaves every header alone. */
  lemma PokeLaid(m: Mem, bs: seq<Block>, brk: int, i: nat, x: int, v: int)
    requires Laid(m, bs, brk) && i < |bs| && Inside(bs[i], x)
    ensures Laid(m[x := v], bs, brk) && Kept(m, m[x := v], Used(bs) - {bs[i]})
  {
    var m' := m[x := v];
    forall k | 0 <= k < |bs|
      ensures At(m', bs, k)
    {
      assert At(m, bs, k) && Tile(bs, brk, k);
      if k != i { Apart(bs, brk, k, i); }
    }
    forall b, y | b in Used(bs) - {bs[i]} && Inside(b, y)
      ensures Word(m[x := v], y) == Word(m, y)
    {
      var j :| 0 <= j < |bs| && bs[j] == b;
      Apart(bs, brk, i, j);
    }
  }

  ghost function IndexOf(bs: seq<Block>, a: int): (i: nat)
    ensures i <= |bs| && (i < |bs| ==> bs[i].addr == a)
    ensures i == |bs| ==> forall j :: 0 <= j < |bs| ==> bs[j].addr != a
  {
    if bs == [] || bs[0].addr == a then 0 else 1 + IndexOf(bs[1..], a)
  }

  lemma IndexUnique(bs: seq<Block>, brk: int, i: nat)
    requires Tiled(bs, brk) && i < |bs|
    ensures IndexOf(bs, bs[i].addr) == i
  {
    var j := IndexOf(bs, bs[i].addr);
    if j != i && j < |bs| { Apart(bs, brk, i, j); }
  }

  /** Block `i` swallows its free neighbour and gives back what it does not need. */
  function Stretched(bs: seq<Block>, i: nat, size: int): seq<Block>
    requires i + 1 < |bs|
  {
    Split(Joined(bs, i), i, size)
  }

  lemma StretchedMeaning(bs: seq<Block>, brk: int, i: nat, size: int)
    requires Tiled(bs, brk) && Coalesced(bs) && i + 1 < |bs| && bs[i].used && !bs[i + 1].used
    requires size % 16 == 0 && MIN_BLOCK <= size <= bs[i].size + HEADER + bs[i + 1].size
    ensures var b := Stretched(bs, i, size)[i];
            && b.addr == bs[i].addr && b.used && size <= b.size < size + HEADER + MIN_BLOCK
            && Used(Stretched(bs, i, size)) == Used(bs) - {bs[i]} + {b}
    ensures Coalesced(Stretched(bs, i, size))
  {
    var d := Joined(bs, i);
    JoinedTiled(bs, brk, i);
    JoinedUsed(bs, brk, i);
    var c := Split(d, i, size);
    if c != d { CutUsed(d, brk, i, size); }
    forall k | 0 <= k && k + 1 < |c|
      ensures c[k].used || c[k + 1].used
    {
      var o := k + |bs| - |c|;
      if k > i { assert bs[o].used || bs[o + 1].used; } else if k < i { assert bs[k].used || bs[k + 1].used; }
    }
    assert Tile(bs, brk, i + 1);
    NotAmong(bs, brk, i, d[i]);
  }

  lemma NotAmong(bs: seq<Block>, brk: int, i: nat, b: Block)
    requires Tiled(bs, brk) && i < |bs| && b.addr == bs[i].addr && b != bs[i]
    ensures b !in Used(bs)
  {
    if b in Used(bs) {
      var j :| 0 <= j < |bs| && bs[j] == b;
      Apart(bs, brk, i, j);
    }
  }

  lemma FreedUsed(bs: seq<Block>, brk: int, i: nat)
    requires Tiled(bs, brk) && i < |bs|
    ensures Tiled(Freed(bs, i), brk) && Used(Freed(bs, i)) == Used(bs) - {bs[i]}
  {
    var d := Marked(bs, i, false);
    MarkedTiled(bs, brk, i, false);
    MarkedUsed(bs, brk, i, false);
    var c := Merge(d, i);
    if c != d { JoinedTiled(d, brk, i); JoinedUsed(d, brk, i); }
    if i > 0 && !c[i - 1].used { JoinedTiled(c, brk, i - 1); JoinedUsed(c, brk, i - 1); }
  }

  lemma MarkedTiled(bs: seq<Block>, brk: int, i: nat, used: bool)
    requires Tiled(bs, brk) && i < |bs|
    ensures Tiled(Marked(bs, i, used), brk)
  {
    var c := Marked(bs, i, used);
    forall k | 0 <= k < |c|
      ensures Tile(c, brk, k)
    {
      assert Tile(bs, brk, k);
    }
  }

  /** Both data areas hold the same words, as far as `old` reaches. */
  ghost predicate SameData(m: Mem, p: int, m': Mem, p': int, size: int) {
    forall k {:trigger Data(m', p', k)} :: 0 <= k < size && k % 8 == 0 ==> Data(m', p', k) == Data(m, p, k)
  }

  /** The word `k` bytes into the data at `p`. */
  function Data(m: Mem, p: int, k: int): int { Word(m, p + k) }

  function Up16(n: int): int { (n + 15) / 16 * 16 }

  lemma RoundedUp16(n: int)
    requires 0 < n <= TWO_63 && Up16(n) >= MIN_BLOCK
    ensures Rounded(Up16(n)) == Up16(n)
  {
  }

  /** Different live blocks have their data at different addresses. */
  lemma LiveApart(bs: seq<Block>, brk: int, b: Block, c: Block)
    requires Tiled(bs, brk) && b in Used(bs) && c in Used(bs) && b != c
    ensures b.addr != c.addr
  {
    var i :| 0 <= i < |bs| && bs[i] == b;
    var j :| 0 <= j < |bs| && bs[j] == c;
    Apart(bs, brk, i, j);
    assert Tile(bs, brk, i) && Tile(bs, brk, j);
  }

  /** Block `i` can hold `n` bytes where it is, alone or with its free neighbour. */
  predicate InPlace(bs: seq<Block>, i: nat, n: int)
    requires i < |bs|
  {
    bs[i].size >= n || (i + 1 < |bs| && !bs[i + 1].used && bs[i].size + HEADER + bs[i + 1].size >= n)
  }

  /** Sizes are multiples of 16, so that holding the request is holding the rounded request. */
  lemma InPlaceRounded(bs: seq<Block>, brk: int, i: nat, n: int)
    requires Tiled(bs, brk) && i < |bs| && n > 0
    ensures InPlace(bs, i, n) <==> InPlace(bs, i, Up16(n))
    ensures bs[i].size >= n <==> bs[i].size >= Up16(n)
  {
    assert Tile(bs, brk, i) && (i + 1 < |bs| ==> Tile(bs, brk, i + 1));
  }

  /**
   * The live block at `p` became the live block at `r`, with its data and at least `n` bytes; if it is another one,
   * it is less than a header and a smallest block larger than the rounded request.
   */
  ghost predicate Moved(m: Mem, bs: seq<Block>, p: int, n: int, m': Mem, bs': seq<Block>, r: int) {
    var i := IndexOf(bs, p - HEADER);
    && i < |bs|
    && SameData(m, p, m', r, bs[i].size)
    && (exists b: Block ::
        b.addr + HEADER == r && n <= b.size && bs[i].size <= b.size && Used(bs') == Used(bs) - {bs[i]} + {b}
        && (b == bs[i] || b.size < Up16(n) + HEADER + MIN_BLOCK))
  }

  lemma KeptStretch(m: Mem, m1: Mem, m2: Mem, bs: seq<Block>, brk: int, i: nat, size: int)
    requires Tiled(bs, brk) && i + 1 < |bs| && bs[i].used && !bs[i + 1].used && bs[i].size <= size
    requires Kept(m, m1, Used(bs) + {bs[i]}) && size <= Stretched(bs, i, size)[i].size
    requires Kept(m1, m2, Used(Joined(bs, i)) - {Joined(bs, i)[i]} + {Stretched(bs, i, size)[i]})
    ensures Kept(m, m2, Used(bs))
  {
    var d, c := Joined(bs, i), Stretched(bs, i, size);
    JoinedUsed(bs, brk, i);
    assert Tile(bs, brk, i + 1);
    NotAmong(bs, brk, i, d[i]);
    forall b, x | b in Used(bs) && Inside(b, x)
      ensures Word(m2, x) == Word(m, x)
    {
      assert Word(m1, x) == Word(m, x);
      if b == bs[i] {
        assert c[i] in Used(d) - {d[i]} + {c[i]} && Inside(c[i], x);
      } else {
        assert b in Used(d) - {d[i]} + {c[i]};
      }
    }
  }

  /**
   * krealloc of the live block at `p` to `n` bytes, `n` not zero: the block stays where it is exactly when it can, a
   * large enough one is left alone, and the call fails exactly when it cannot stay and no other block can be had.
   */
  ghost predicate ReallocOutcome(m: Mem, bs: seq<Block>, brk: int, p: int, n: int, pages: nat, m': Mem,
      bs': seq<Block>, brk': int, r: int)
  {
    var i := IndexOf(bs, p - HEADER);
    && i < |bs|
    && Kept(m, m', Used(bs) - {bs[i]})
    && (r == p <==> InPlace(bs, i, n)) && (bs[i].size >= n ==> m' == m && bs' == bs && brk' == brk)
    && (r == 0 <==> !InPlace(bs, i, n) && Exhausted(bs, brk, Up16(n), pages))
    && (if r != 0 then Moved(m, bs, p, n, m', bs', r)
        else bs' == bs && brk' == brk && Kept(m, m', Used(bs)) && bs[i].size < n && Exhausted(bs, brk, Up16(n), pages))
  }

  lemma KeptData(m: Mem, m': Mem, b: Block, live: set<Block>)
    requires Kept(m, m', live) && b in live
    ensures SameData(m, b.addr + HEADER, m', b.addr + HEADER, b.size)
  {
  }

  /** The data survives the move: copied from `b` to `nb`, then `b` is freed. */
  lemma MoveOutcome(m: Mem, m1: Mem, m2: Mem, bs: seq<Block>, bs': seq<Block>, brk: int, i: nat, nb: Block, n: int)
    requires Tiled(bs, brk) && i < |bs| && bs[i].used && n <= nb.size && bs[i].size <= nb.size
    requires nb.size < Up16(n) + HEADER + MIN_BLOCK
    requires Kept(m, m1, Used(bs)) && Kept(m1, m2, Used(bs) - {bs[i]})
    requires Used(bs') == Used(bs) - {bs[i]} + {nb}
    requires SameData(m1, bs[i].addr + HEADER, m2, nb.addr + HEADER, bs[i].size)
    ensures Moved(m, bs, bs[i].addr + HEADER, n, m2, bs', nb.addr + HEADER) && Kept(m, m2, Used(bs) - {bs[i]})
  {
    var p, r := bs[i].addr + HEADER, nb.addr + HEADER;
    IndexUnique(bs, brk, i);
    KeptData(m, m1, bs[i], Used(bs));
    forall k | 0 <= k < bs[i].size && k % 8 == 0
      ensures Data(m2, r, k) == Data(m, p, k)
    {
      assert Data(m1, p, k) == Data(m, p, k);
    }
    KeptTrans(m, m1, m2, Used(bs) - {bs[i]}, Used(bs), Used(bs) - {bs[i]});
    assert nb.addr + HEADER == r && n <= nb.size && bs[i].size <= nb.size && Used(bs') == Used(bs) - {bs[i]} + {nb};
  }

  // ----- kmalloc_aligned -----

  predicate PowerOfTwo(n: int)
    decreases if n < 0 then 0 else n
  {
    n == 1 || (n > 1 && n % 2 == 0 && PowerOfTwo(n / 2))
  }

  function AlignUp(x: int, alignment: int): int
    requires alignment > 0
  {
    (x + alignment - 1) / alignment * alignment
  }

  lemma AlignUpFacts(x: int, alignment: int)
    requires alignment > 0
    ensures x <= AlignUp(x, alignment) < x + alignment && AlignUp(x, alignment) % alignment == 0
  {
    var q := (x + alignment - 1) / alignment;
    MultipleMod(q, alignment);
  }

  lemma MultipleMod(q: int, d: int)
    requires d > 0
    ensures q * d % d == 0
  {
    var x := q * d;
    MulBounds(q - x / d, d);
    assert (q - x / d) * d == x - x / d * d == x % d;
  }

  lemma MulBounds(a: int, d: int)
    requires d > 0
    ensures a >= 1 ==> a * d >= d
    ensures a <= -1 ==> a * d <= -d
  {
  }

  lemma {:induction false} SmallPowers(n: int)
    requires PowerOfTwo(n) && n <= ALIGNMENT
    ensures n == 1 || n == 2 || n == 4 || n == 8 || n == 16
  {
    if n > 1 { SmallPowers(n / 2); }
  }

  /** Data areas are 16-byte aligned, so every smaller power of two is met for free. */
  lemma SmallAlignment(bs: seq<Block>, brk: int, b: Block, alignment: int)
    requires Tiled(bs, brk) && b in bs && PowerOfTwo(alignment) && alignment <= ALIGNMENT
    ensures (b.addr + HEADER) % alignment == 0
  {
    var j :| 0 <= j < |bs| && bs[j] == b;
    assert Tile(bs, brk, j);
    SmallPowers(alignment);
    Divides16(b.addr + HEADER, alignment);
  }

  /** A pointer into a used block is what kfree looks for exactly when it is the start of the data. */
  lemma LiveIffStart(bs: seq<Block>, brk: int, b: Block, p: int)
    requires Tiled(bs, brk) && b in bs && b.used && b.addr + HEADER <= p <= b.addr + HEADER + b.size
    ensures var i := IndexOf(bs, p - HEADER); i < |bs| && bs[i].used <==> p == b.addr + HEADER
  {
    var j :| 0 <= j < |bs| && bs[j] == b;
    IndexUnique(bs, brk, j);
    var i := IndexOf(bs, p - HEADER);
    if i < |bs| && i != j { Apart(bs, brk, i, j); }
  }

  lemma Divides16(x: int, d: int)
    requires x % 16 == 0 && (d == 1 || d == 2 || d == 4 || d == 8 || d == 16)
    ensures x % d == 0
  {
    if d == 1 {} else if d == 2 {} else if d == 4 {} else if d == 8 {}
  }

  // ----- block_split as coded -----

  /** The remainder as the code computes it: 64-bit unsigned, so it wraps below zero. */
  function CodedRemaining(blockSize: int, size: int): int { (blockSize - size - HEADER) % TWO_64 }

  function CodedSplit(m: Mem, a: int, size: int): Mem {
    var remaining := CodedRemaining(SizeAt(m, a), size);
    if remaining < MIN_BLOCK then m else SplitStores(m, a, size, remaining)
  }

  function GuardedSplit(m: Mem, a: int, size: int): Mem {
    if SizeAt(m, a) - size - HEADER < MIN_BLOCK then m else SplitStores(m, a, size, SizeAt(m, a) - size - HEADER)
  }

  /** Memory holds some tiled block list. */
  ghost predicate Tileable(m: Mem, brk: int) { exists bs :: Laid(m, bs, brk) }

  /** Any block list found in memory starts with the blocks whose sizes and next links are intact. */
  lemma {:induction false} Follow(m: Mem, bs: seq<Block>, bs': seq<Block>, brk: int, k: nat)
    requires Tiled(bs, brk) && Laid(m, bs', brk) && k < |bs|
    requires forall j :: 0 <= j < k ==> SizeAt(m, bs[j].addr) == bs[j].size && NextAt(m, bs[j].addr) != 0
    ensures k < |bs'| && bs'[k].addr == bs[k].addr
    ensures NextAt(m, bs[k].addr) == NextAddr(bs', k)
  {
    if k > 0 {
      Follow(m, bs, bs', brk, k - 1);
      assert Tile(bs, brk, k - 1) && Tile(bs', brk, k - 1) && At(m, bs', k - 1);
    }
    assert At(m, bs', k);
  }

  lemma SizeBound(m: Mem, bs: seq<Block>, brk: int, k: nat)
    requires Laid(m, bs, brk) && k < |bs|
    ensures SizeAt(m, bs[k].addr) <= brk - HEAP_START
  {
    assert At(m, bs, k) && Tile(bs, brk, k);
  }

  /** A reachable header with an impossible size. */
  lemma OversizeNotTileable(m: Mem, bs: seq<Block>, brk: int, i: nat)
    requires Tiled(bs, brk) && i < |bs|
    requires forall j :: 0 <= j < i ==> SizeAt(m, bs[j].addr) == bs[j].size && NextAt(m, bs[j].addr) != 0
    requires NextAt(m, bs[i].addr) != 0 && SizeAt(m, NextAt(m, bs[i].addr)) > brk - HEAP_START
    ensures !Tileable(m, brk)
  {
    forall bs' | Laid(m, bs', brk)
      ensures false
    {
      Follow(m, bs, bs', brk, i);
      SizeBound(m, bs', brk, i + 1);
    }
  }

  /** The memory after the coded split, with the block then marked live. */
  function CodedTake(m: Mem, a: int, size: int): Mem { CodedSplit(m, a, size)[a := Tag(true)] }

  lemma TightSplitBreaks(m: Mem, bs: seq<Block>, brk: int, i: nat, size: int)
    requires Laid(m, bs, brk) && brk <= HEAP_START + MAX_SIZE && i < |bs| && size % 16 == 0
    requires MIN_BLOCK <= size <= bs[i].size < size + HEADER
    ensures !Tileable(CodedTake(m, bs[i].addr, size), brk)
  {
    var a := bs[i].addr;
    var m' := CodedTake(m, a, size);
    assert At(m, bs, i) && Tile(bs, brk, i);
    assert NextAt(m', a) == a + HEADER + size && SizeAt(m', a + HEADER + size) > MAX_SIZE;
    forall j | 0 <= j < i
      ensures SizeAt(m', bs[j].addr) == bs[j].size && NextAt(m', bs[j].addr) != 0
    {
      TightSplitBefore(m, bs, brk, i, size, j);
    }
    OversizeNotTileable(m', bs, brk, i);
  }

  lemma TightSplitBefore(m: Mem, bs: seq<Block>, brk: int, i: nat, size: int, j: nat)
    requires Laid(m, bs, brk) && j < i < |bs| && MIN_BLOCK <= size <= bs[i].size
    ensures var m' := CodedTake(m, bs[i].addr, size);
            SizeAt(m', bs[j].addr) == bs[j].size && NextAt(m', bs[j].addr) != 0
  {
    assert At(m, bs, i) && Tile(bs, brk, i) && At(m, bs, j) && Tile(bs, brk, j);
    Order(bs, brk, j, i);
    if i + 1 < |bs| { Order(bs, brk, i, i + 1); }
    if j + 1 < i { assert Tile(bs, brk, j + 1); }
  }

  /**
   * kernel/mm/heap.c:55 subtracts unsigned. Once the block is marked live, memory still holds a tiled block
   * list exactly when the block has room for a second header; then the coded and the intended split agree.
   */
  lemma CodedSplitIff(m: Mem, bs: seq<Block>, brk: int, i: nat, size: int)
    requires Laid(m, bs, brk) && brk <= HEAP_START + MAX_SIZE && i < |bs| && size % 16 == 0
    requires MIN_BLOCK <= size <= bs[i].size
    ensures bs[i].size >= size + HEADER ==> CodedSplit(m, bs[i].addr, size) == GuardedSplit(m, bs[i].addr, size)
    ensures Tileable(CodedTake(m, bs[i].addr, size), brk) <==> bs[i].size >= size + HEADER
  {
    var a := bs[i].addr;
    assert At(m, bs, i) && Tile(bs, brk, i);
    if bs[i].size >= size + HEADER {
      assert CodedRemaining(bs[i].size, size) == bs[i].size - size - HEADER;
      var c := Split(bs, i, size);
      if bs[i].size - size - HEADER >= MIN_BLOCK { CutLaid(m, bs, brk, i, size); }
      MarkedLaid(CodedSplit(m, a, size), c, brk, i, true);
      assert Laid(CodedTake(m, a, size), Marked(c, i, true), brk);
    } else {
      TightSplitBreaks(m, bs, brk, i, size);
    }
  }

  /** kmalloc with the coded split keeps the heap tileable exactly when the first fit has room for a second header. */
  lemma CodedMallocIff(m: Mem, bs: seq<Block>, brk: int, n: int)
    requires Inv(m, bs, brk) && 0 < n <= TWO_63 && FirstFit(bs, Rounded(n)) < |bs|
    ensures var b := bs[FirstFit(bs, Rounded(n))];
            Tileable(CodedTake(m, b.addr, Rounded(n)), brk) <==> b.size >= Rounded(n) + HEADER
  {
    RoundedTwice(n);
    CodedSplitIff(m, bs, brk, FirstFit(bs, Rounded(n)), Rounded(n));
  }

  /** So does krealloc when it grows into the next block: exactly when the joined block has room for a second header. */
  lemma CodedReallocIff(m: Mem, bs: seq<Block>, brk: int, i: nat, size: int)
    requires Inv(m, bs, brk) && i + 1 < |bs| && bs[i].used && !bs[i + 1].used
    requires size % 16 == 0 && MIN_BLOCK <= size <= bs[i].size + HEADER + bs[i + 1].size
    ensures Tileable(CodedTake(MergeStores(m, bs[i].addr), bs[i].addr, size), brk) <==>
            bs[i].size + bs[i + 1].size >= size
  {
    JoinedLaid(m, bs, brk, i);
    CodedSplitIff(MergeStores(m, bs[i].addr), Joined(bs, i), brk, i, size);
  }

  const FRESH_BLOCKS := [Block(HEAP_START, INITIAL_SIZE - HEADER, false)]
  const FRESH_MEM: Mem := map[HEAP_START := MAGIC, HEAP_START + 8 := INITIAL_SIZE - HEADER, HEAP_START + 16 := 0,
      HEAP_START + 24 := 0]

  lemma FreshInv()
    ensures Inv(FRESH_MEM, FRESH_BLOCKS, HEAP_START + INITIAL_SIZE)
  {
  }

  /** Asking the fresh heap for all it has: an exact fit, which the coded split does not survive. */
  lemma ExactFitBreaks()
    ensures !Tileable(CodedTake(FRESH_MEM, HEAP_START, INITIAL_SIZE - HEADER), HEAP_START + INITIAL_SIZE)
  {
    FreshInv();
    CodedSplitIff(FRESH_MEM, FRESH_BLOCKS, HEAP_START + INITIAL_SIZE, 0, INITIAL_SIZE - HEADER);
  }
}
