/** The kernel heap (kernel/mm/heap.c): block headers in memory, walked and rewritten in place. */
module Heap {
  import opened Basics
  import opened HeapSpec

  datatype Stats = Stats(total: int, usedSize: int, freeSize: int, largest: int, blockCount: nat, freeCount: nat)

  /** What heap_validate looks for at each header of `chain`. */
  predicate Checked(m: Mem, chain: seq<int>, i: int)
    requires 0 <= i < |chain|
  {
    && MagicAt(m, chain[i]) == MAGIC
    && PrevAt(m, chain[i]) == (if i == 0 then 0 else chain[i - 1])
    && (FlagsAt(m, chain[i]) == 0 || FlagsAt(m, chain[i]) == 1)
  }

  /** Following the next links from `first` visits `chain` and ends. */
  ghost predicate Chain(m: Mem, first: int, chain: seq<int>) {
    && first == (if chain == [] then 0 else chain[0])
    && (forall i :: 0 <= i < |chain| ==> chain[i] != 0)
    && (forall i {:trigger NextAt(m, chain[i])} ::
        0 <= i < |chain| ==> NextAt(m, chain[i]) == (if i + 1 < |chain| then chain[i + 1] else 0))
  }

  ghost function Addrs(bs: seq<Block>): seq<int> { seq(|bs|, i requires 0 <= i < |bs| => bs[i].addr) }

  class Heap {
    var mem: Mem
    var first: int
    var brk: int
    var size: int
    ghost var blocks: seq<Block>

    ghost predicate Loose()
      reads this
    {
      Laid(mem, blocks, brk) && brk <= HEAP_START + MAX_SIZE && first == HEAP_START && size == brk - HEAP_START
    }

    ghost predicate Valid()
      reads this
    {
      Loose() && Coalesced(blocks)
    }

    constructor ()
      ensures Valid() && blocks == FRESH_BLOCKS && brk == HEAP_START + INITIAL_SIZE
    {
      mem := FRESH_MEM;
      first, brk, size := HEAP_START, HEAP_START + INITIAL_SIZE, INITIAL_SIZE;
      blocks := FRESH_BLOCKS;
      FreshInv();
    }

    /** block_split, with the guard its comment describes. */
    method BlockSplit(a: int, sz: int, ghost i: nat)
      requires Loose() && i < |blocks| && blocks[i].addr == a && sz % 16 == 0 && MIN_BLOCK <= sz <= blocks[i].size
      modifies this`mem, this`blocks
      ensures Loose() && blocks == Split(old(blocks), i, sz)
      ensures mem == GuardedSplit(old(mem), a, sz)
      ensures Kept(old(mem), mem, Used(old(blocks)) - {old(blocks[i])} + {blocks[i]})
    {
      assert At(mem, blocks, i);
      var remaining := SizeAt(mem, a) - sz - HEADER;
      if remaining < MIN_BLOCK {
        return;
      }
      CutLaid(mem, blocks, brk, i, sz);
      CutKeeps(mem, blocks, brk, i, sz);
      blocks := Cut(blocks, i, sz);
      var n, next := a + HEADER + sz, NextAt(mem, a);
      mem := mem[n := Tag(false)][n + 8 := remaining][n + 24 := a][n + 16 := next];
      if next != 0 {
        mem := mem[next + 24 := n];
      }
      mem := mem[a + 16 := n][a + 8 := sz];
    }

    method BlockMergeNext(a: int, ghost i: nat)
      requires Loose() && i < |blocks| && blocks[i].addr == a
      modifies this`mem, this`blocks
      ensures Loose() && blocks == Merge(old(blocks), i)
      ensures Kept(old(mem), mem, Used(old(blocks)) + {old(blocks[i])})
    {
      assert At(mem, blocks, i) && (i + 1 < |blocks| ==> At(mem, blocks, i + 1) && Tile(blocks, brk, i + 1));
      var next := NextAt(mem, a);
      if next == 0 || FlagsAt(mem, next) != 0 || MagicAt(mem, next) != MAGIC {
        return;
      }
      JoinedLaid(mem, blocks, brk, i);
      JoinedKeeps(mem, blocks, brk, i);
      blocks := Joined(blocks, i);
      ghost var m := mem;
      var after := NextAt(mem, next);
      mem := mem[a + 8 := SizeAt(mem, a) + HEADER + SizeAt(mem, next)][a + 16 := after];
      if after != 0 {
        mem := mem[after + 24 := a];
      }
      mem := mem[next := Word(mem, next) - MagicAt(mem, next)];
      assert mem == MergeStores(m, a);
    }
  
    // ----- kmalloc -----

    method FindFit(sz: int) returns (a: int, ghost i: nat)
      requires Loose()
      ensures i == FirstFit(blocks, sz)
      ensures a == if FirstFit(blocks, sz) < |blocks| then blocks[FirstFit(blocks, sz)].addr else 0
    {
      a, i := first, 0;
      AddrsInHeap(blocks, brk);
      while a != 0
        invariant i <= |blocks| && a == (if i < |blocks| then blocks[i].addr else 0)
        invariant forall j :: 0 <= j < i ==> blocks[j].used || blocks[j].size < sz
        decreases |blocks| - i
      {
        assert At(mem, blocks, i);
        assert MagicAt(mem, a) == MAGIC;  // the corrupted-block exit is never taken
        if FlagsAt(mem, a) == 0 && SizeAt(mem, a) >= sz {
          return;
        }
        a, i := NextAt(mem, a), i + 1;
      }
    }

    method Take(a: int, sz: int, ghost i: nat)
      requires Valid() && i < |blocks| && blocks[i].addr == a && !blocks[i].used && sz % 16 == 0
      requires MIN_BLOCK <= sz <= blocks[i].size
      modifies this`mem, this`blocks
      ensures Valid() && blocks == Taken(old(blocks), i, sz)
      ensures Kept(old(mem), mem, Used(old(blocks)))
    {
      TakenCoalesced(blocks, i, sz);
      ghost var m, bs := mem, blocks;
      BlockSplit(a, sz, i);
      MarkedLaid(mem, blocks, brk, i, true);
      if blocks != bs { CutUsed(bs, brk, i, sz); }
      KeptTrans(m, mem, mem[a := Tag(true)], Used(bs), Used(bs) - {bs[i]} + {blocks[i]}, Used(blocks) + {blocks[i]});
      assert At(mem, blocks, i);
      mem := mem[a := Word(mem, a) % TWO_32 + TWO_32];
      blocks := Marked(blocks, i, true);
    }

    /** Map the pages of an expansion; `pages` is how many the machine can still supply. */
    method MapPages(extra: int, pages: nat) returns (ok: bool)
      requires 0 <= extra && extra % PAGE == 0
      ensures ok <==> extra <= pages * PAGE
    {
      var offset, left := 0, pages;
      while offset < extra
        invariant 0 <= offset <= extra && offset % PAGE == 0 && offset == (pages - left) * PAGE
      {
        if left == 0 {
          return false;
        }
        offset, left := offset + PAGE, left - 1;
      }
      ok := true;
    }

    method LastBlock() returns (a: int)
      requires Loose()
      ensures a == blocks[|blocks| - 1].addr
    {
      a := first;
      ghost var i := 0;
      assert At(mem, blocks, 0);
      AddrsInHeap(blocks, brk);
      while NextAt(mem, a) != 0
        invariant 0 <= i < |blocks| && a == blocks[i].addr && At(mem, blocks, i)
        decreases |blocks| - i
      {
        a, i := NextAt(mem, a), i + 1;
        assert At(mem, blocks, i);
      }
    }

    method HeapExpand(min: int, pages: nat) returns (ok: bool)
      requires Valid() && 0 < min <= TWO_63 + HEADER
      modifies this`mem, this`blocks, this`brk, this`size
      ensures Valid() && ok == CanExpand(old(brk), PagesUp(min), pages)
      ensures !ok ==> blocks == old(blocks) && brk == old(brk) && mem == old(mem)
      ensures ok ==> blocks == Grown(old(blocks), old(brk), PagesUp(min)) && brk == old(brk) + PagesUp(min)
      ensures Kept(old(mem), mem, Used(old(blocks)))
    {
      var extra := PagesUp(min);
      if size + extra > MAX_SIZE {
        return false;
      }
      ok := MapPages(extra, pages);
      if ok {
        GrownCoalesced(blocks, brk, extra);
        Append(extra);
      }
    }

    method Append(extra: int)
      requires Valid() && Coalesced(Grown(blocks, brk, extra)) && extra > 0 && extra % PAGE == 0
      requires size + extra <= MAX_SIZE
      modifies this`mem, this`blocks, this`brk, this`size
      ensures Valid() && blocks == Grown(old(blocks), old(brk), extra) && brk == old(brk) + extra
      ensures Kept(old(mem), mem, Used(old(blocks)))
    {
      ghost var l, m, bs := |blocks| - 1, mem, blocks;
      var last := LastBlock();
      LinkLaid(mem, blocks, brk, extra);
      LinkKeeps(mem, blocks, brk, extra);
      assert At(mem, blocks, l);
      mem := LinkStores(mem, last, brk, extra);
      blocks := blocks + [Block(brk, extra - HEADER, false)];
      brk, size := brk + extra, size + extra;
      assert At(mem, blocks, l);
      if FlagsAt(mem, last) == 0 {
        ghost var m1, bs1 := mem, blocks;
        BlockMergeNext(last, l);
        AppendUsed(bs, bs1);
        KeptTrans(m, m1, mem, Used(bs), Used(bs) + {bs[l]}, Used(bs1) + {bs1[l]});
      }
    }

    lemma AppendUsed(bs: seq<Block>, c: seq<Block>)
      requires |bs| + 1 == |c| && c[..|bs|] == bs
      ensures Used(bs) <= Used(c)
    {
    }

    method Kmalloc(n: int, pages: nat) returns (p: int)
      requires Valid() && 0 <= n <= TWO_63
      modifies this`mem, this`blocks, this`brk, this`size
      ensures Valid() && MallocOutcome(n, pages, old(blocks), old(brk), blocks, brk, p)
      ensures Kept(old(mem), mem, Used(old(blocks)))
      decreases if FirstFit(blocks, Rounded(n)) < |blocks| then 0 else 2, 0
    {
      if n == 0 {
        return 0;
      }
      RoundedTwice(n);
      var sz := Rounded(n);
      var a, i := FindFit(sz);
      AddrsInHeap(blocks, brk);
      if a != 0 {
        Take(a, sz, i);
        return a + HEADER;
      }
      p := ExpandAndRetry(n, sz, pages);
    }

    method ExpandAndRetry(ghost n: int, sz: int, pages: nat) returns (p: int)
      requires Valid() && 0 < n <= TWO_63 && sz == Rounded(n) && FirstFit(blocks, sz) == |blocks|
      modifies this`mem, this`blocks, this`brk, this`size
      ensures Valid() && Kept(old(mem), mem, Used(old(blocks)))
      ensures if CanExpand(old(brk), ExpandFor(sz), pages)
              then TakenFirst(Grown(old(blocks), old(brk), ExpandFor(sz)), blocks, sz, p)
                   && brk == old(brk) + ExpandFor(sz)
              else p == 0 && blocks == old(blocks) && brk == old(brk)
      decreases 1
    {
      ExpansionFacts(n, blocks, brk);
      ghost var m, bs := mem, blocks;
      var want := if sz + HEADER > EXPAND_SIZE then sz + HEADER else EXPAND_SIZE;
      var ok := HeapExpand(want, pages);
      if !ok {
        return 0;
      }
      ghost var m1 := mem;
      p := Retry(sz);
      KeptTrans(m, m1, mem, Used(bs), Used(bs), Used(bs));
    }

    /** The recursive call: one block fits now, so it does not expand again. */
    method Retry(sz: int) returns (p: int)
      requires Valid() && 0 < sz <= TWO_63 && sz == Rounded(sz) && FirstFit(blocks, sz) < |blocks|
      modifies this`mem, this`blocks, this`brk, this`size
      ensures Valid() && Kept(old(mem), mem, Used(old(blocks)))
      ensures TakenFirst(old(blocks), blocks, sz, p) && brk == old(brk)
      decreases 0, 1
    {
      p := Kmalloc(sz, 0);
    }

    // ----- kfree -----

    /** What a caller may pass: a null pointer, no header at all, or the data of a block of the heap. */
    ghost predicate Genuine(p: int)
      reads this
    {
      p == 0 || MagicAt(mem, p - HEADER) != MAGIC || IndexOf(blocks, p - HEADER) < |blocks|
    }

    /** A live block has its data at `p`. */
    ghost predicate Live(p: int)
      reads this
    {
      var i := IndexOf(blocks, p - HEADER);
      i < |blocks| && blocks[i].used
    }

    method Kfree(p: int)
      requires Valid() && Genuine(p)
      modifies this`mem, this`blocks
      ensures Valid()
      ensures !old(Live(p)) ==> mem == old(mem) && blocks == old(blocks)
      ensures old(Live(p)) ==> blocks == Freed(old(blocks), IndexOf(old(blocks), p - HEADER))
      ensures Kept(old(mem), mem, Used(blocks)) && Used(blocks) <= Used(old(blocks))
    {
      ghost var i := IndexOf(blocks, p - HEADER);
      if i < |blocks| { assert At(mem, blocks, i); }
      AddrsInHeap(blocks, brk);
      if p == 0 {
        return;
      }
      var a := p - HEADER;
      if MagicAt(mem, a) != MAGIC || FlagsAt(mem, a) != 1 {
        return;
      }
      ReleaseBlock(a, i);
    }

    method ReleaseBlock(a: int, ghost i: nat)
      requires Valid() && i < |blocks| && blocks[i].addr == a && blocks[i].used
      modifies this`mem, this`blocks
      ensures Valid() && blocks == Freed(old(blocks), i)
      ensures Used(blocks) == Used(old(blocks)) - {old(blocks[i])} && Kept(old(mem), mem, Used(blocks))
    {
      FreedCoalesced(blocks, i);
      ghost var m, bs := mem, blocks;
      MarkedLaid(mem, blocks, brk, i, false);
      MarkedUsed(blocks, brk, i, false);
      assert At(mem, blocks, i);
      mem := mem[a := Word(mem, a) % TWO_32];
      blocks := Marked(blocks, i, false);
      ghost var m1 := mem;
      CoalesceAround(a, i);
      FreedUsed(bs, brk, i);
      KeptTrans(m, m1, mem, Used(blocks), Used(bs) + {bs[i]}, Used(blocks));
    }

    /** Merge with the next block, then with the previous one. */
    method CoalesceAround(a: int, ghost i: nat)
      requires Loose() && i < |blocks| && blocks[i].addr == a && !blocks[i].used
      modifies this`mem, this`blocks
      ensures Loose()
      ensures blocks == (var c := Merge(old(blocks), i); if i > 0 && !c[i - 1].used then Merge(c, i - 1) else c)
      ensures Kept(old(mem), mem, Used(old(blocks)))
    {
      ghost var m, bs := mem, blocks;
      BlockMergeNext(a, i);
      MergeUsed(bs, brk, i);
      ghost var m1 := mem;
      assert At(mem, blocks, i) && (i > 0 ==> At(mem, blocks, i - 1) && Tile(blocks, brk, i - 1));
      var prev := PrevAt(mem, a);
      if prev != 0 && FlagsAt(mem, prev) == 0 {
        ghost var p := blocks[i - 1];
        BlockMergeNext(prev, i - 1);
        KeptTrans(m, m1, mem, Used(bs), Used(bs) + {bs[i]}, Used(bs) + {p});
      }
    }
  
    // ----- krealloc -----

    method Krealloc(p: int, n: int, pages: nat) returns (r: int)
      requires Valid() && 0 <= n <= TWO_63 && (p == 0 || Live(p) || MagicAt(mem, p - HEADER) != MAGIC)
      modifies this`mem, this`blocks, this`brk, this`size
      ensures Valid()
      ensures p == 0 ==>
              MallocOutcome(n, pages, old(blocks), old(brk), blocks, brk, r) && Kept(old(mem), mem, Used(old(blocks)))
      ensures p != 0 && !old(Live(p)) ==> r == 0 && mem == old(mem) && blocks == old(blocks) && brk == old(brk)
      ensures old(Live(p)) && n == 0 ==>
              r == 0 && blocks == Freed(old(blocks), IndexOf(old(blocks), p - HEADER))
              && Kept(old(mem), mem, Used(blocks))
      ensures old(Live(p)) && n > 0 ==>
              ReallocOutcome(old(mem), old(blocks), old(brk), p, n, pages, mem, blocks, brk, r)
    {
      ghost var i := IndexOf(blocks, p - HEADER);
      AddrsInHeap(blocks, brk);
      if i < |blocks| { assert At(mem, blocks, i); }
      if p == 0 {
        r := Kmalloc(n, pages);
        return;
      }
      if n == 0 {
        Kfree(p);
        return 0;
      }
      if MagicAt(mem, p - HEADER) != MAGIC {
        return 0;
      }
      r := Resize(p, n, pages, i);
    }

    method Resize(p: int, n: int, pages: nat, ghost i: nat) returns (r: int)
      requires Valid() && 0 < n <= TWO_63 && i == IndexOf(blocks, p - HEADER) < |blocks| && blocks[i].used
      modifies this`mem, this`blocks, this`brk, this`size
      ensures Valid() && ReallocOutcome(old(mem), old(blocks), old(brk), p, n, pages, mem, blocks, brk, r)
    {
      var a, want := p - HEADER, Up16(n);
      assert At(mem, blocks, i) && Tile(blocks, brk, i);
      InPlaceRounded(blocks, brk, i, n);
      AddrsInHeap(blocks, brk);
      if want <= SizeAt(mem, a) {
        assert Used(blocks) == Used(blocks) - {blocks[i]} + {blocks[i]};
        return p;
      }
      var next := NextAt(mem, a);
      if i + 1 < |blocks| { assert At(mem, blocks, i + 1) && Tile(blocks, brk, i + 1); }
      if next != 0 && FlagsAt(mem, next) == 0 && SizeAt(mem, a) + HEADER + SizeAt(mem, next) >= want {
        Stretch(p, want, n, i);
        return p;
      }
      r := MoveBlock(p, want, n, pages, i);
    }

    method Stretch(p: int, want: int, ghost n: int, ghost i: nat)
      requires Valid() && i == IndexOf(blocks, p - HEADER) && i + 1 < |blocks| && blocks[i].used && !blocks[i + 1].used
      requires 0 < n && want == Up16(n) && blocks[i].size < want <= blocks[i].size + HEADER + blocks[i + 1].size
      modifies this`mem, this`blocks
      ensures Valid() && Kept(old(mem), mem, Used(old(blocks)))
      ensures Moved(old(mem), old(blocks), p, n, mem, blocks, p)
    {
      ghost var m, bs := mem, blocks;
      assert Tile(blocks, brk, i);
      StretchedMeaning(blocks, brk, i, want);
      BlockMergeNext(p - HEADER, i);
      ghost var m1 := mem;
      BlockSplit(p - HEADER, want, i);
      KeptStretch(m, m1, mem, bs, brk, i, want);
      KeptData(m, mem, bs[i], Used(bs));
    }

    method MoveBlock(p: int, want: int, ghost n: int, pages: nat, ghost i: nat) returns (r: int)
      requires Valid() && 0 < n <= TWO_63 && want == Up16(n) && i == IndexOf(blocks, p - HEADER) < |blocks|
      requires blocks[i].used
      requires blocks[i].size < want && !InPlace(blocks, i, n)
      modifies this`mem, this`blocks, this`brk, this`size
      ensures Valid() && ReallocOutcome(old(mem), old(blocks), old(brk), p, n, pages, mem, blocks, brk, r)
    {
      ghost var m, bs, b := mem, blocks, brk;
      ghost var nb;
      assert bs[i].size < n && MIN_BLOCK < want by { assert Tile(bs, b, i); }
      RoundedUp16(n);
      AddrsInHeap(bs, b);
      r, nb := Allocate(want, pages);
      if r != 0 {
        LiveApart(blocks, brk, bs[i], nb);
        ghost var m1 := mem;
        CopyAndFree(p, r, bs[i], nb);
        assert Used(blocks) - {nb} == Used(bs) - {bs[i]};
        MoveOutcome(m, m1, mem, bs, blocks, b, i, nb, n);
      }
    }

    /** kmalloc, seen as adding one live block. */
    method Allocate(n: int, pages: nat) returns (p: int, ghost nb: Block)
      requires Valid() && 0 < n <= TWO_63
      modifies this`mem, this`blocks, this`brk, this`size
      ensures Valid() && Kept(old(mem), mem, Used(old(blocks)))
      ensures p == 0 <==> Exhausted(old(blocks), old(brk), n, pages)
      ensures p == 0 ==> blocks == old(blocks) && brk == old(brk)
      ensures p != 0 ==>
              nb !in Used(old(blocks)) && Used(blocks) == Used(old(blocks)) + {nb} && nb.addr + HEADER == p
              && n <= nb.size && Rounded(n) <= nb.size < Rounded(n) + HEADER + MIN_BLOCK
    {
      ghost var bs, b := blocks, brk;
      p := Kmalloc(n, pages);
      MallocFailsIff(n, pages, bs, b, blocks, brk, p);
      nb := Block(0, 0, false);
      if p != 0 {
        MallocAdds(n, pages, bs, b, blocks, brk, p);
        nb :| nb !in Used(bs) && Used(blocks) == Used(bs) + {nb} && nb.addr + HEADER == p
              && n <= Rounded(n) <= nb.size < Rounded(n) + HEADER + MIN_BLOCK;
      }
    }

    method CopyAndFree(p: int, r: int, ghost b: Block, ghost nb: Block)
      requires Valid() && b in Used(blocks) && nb in Used(blocks) && b != nb && b.addr + HEADER == p
      requires nb.addr + HEADER == r && b.size <= nb.size
      modifies this`mem, this`blocks
      ensures Valid() && Used(blocks) == Used(old(blocks)) - {b}
      ensures SameData(old(mem), p, mem, r, b.size) && Kept(old(mem), mem, Used(blocks) - {nb})
    {
      ghost var m, bs := mem, blocks;
      ghost var i :| 0 <= i < |blocks| && blocks[i] == b;
      IndexUnique(blocks, brk, i);
      assert At(mem, blocks, i) && Tile(blocks, brk, i);
      CopyWords(r, p, SizeAt(mem, p - HEADER), b, nb);
      FreedUsed(blocks, brk, i);
      ghost var m1 := mem;
      Kfree(p);
      KeptData(m1, mem, nb, Used(blocks));
      KeptTrans(m, m1, mem, Used(blocks) - {nb}, Used(bs) - {nb}, Used(blocks));
    }

    /** memcpy between two live blocks, a word at a time. */
    method CopyWords(dst: int, src: int, count: int, ghost b: Block, ghost nb: Block)
      requires Valid() && b in Used(blocks) && nb in Used(blocks) && b != nb && b.addr + HEADER == src
      requires nb.addr + HEADER == dst
      requires 0 <= count == b.size <= nb.size && count % 8 == 0
      modifies this`mem
      ensures Valid() && SameData(old(mem), src, mem, dst, count) && Kept(old(mem), mem, Used(blocks) - {nb})
    {
      ghost var m := mem;
      ghost var j :| 0 <= j < |blocks| && blocks[j] == nb;
      var k := 0;
      while k < count
        invariant 0 <= k <= count && k % 8 == 0 && Valid()
        invariant SameData(m, src, mem, dst, k) && Kept(m, mem, Used(blocks) - {nb})
      {
        CopyStep(m, mem, blocks, brk, j, b, k);
        mem := mem[dst + k := Word(mem, src + k)];
        k := k + 8;
      }
    }

    static lemma CopyStep(m: Mem, m1: Mem, bs: seq<Block>, end: int, j: nat, b: Block, k: int)
      requires Laid(m1, bs, end) && j < |bs| && b in Used(bs) - {bs[j]} && 0 <= k < b.size <= bs[j].size && k % 8 == 0
      requires SameData(m, b.addr + HEADER, m1, bs[j].addr + HEADER, k) && Kept(m, m1, Used(bs) - {bs[j]})
      ensures var m2 := m1[bs[j].addr + HEADER + k := Word(m1, b.addr + HEADER + k)];
              Laid(m2, bs, end) && SameData(m, b.addr + HEADER, m2, bs[j].addr + HEADER, k + 8)
                  && Kept(m, m2, Used(bs) - {bs[j]})
    {
      var x, live := bs[j].addr + HEADER + k, Used(bs) - {bs[j]};
      var v := Word(m1, b.addr + HEADER + k);
      PokeLaid(m1, bs, end, j, x, v);
      KeptTrans(m, m1, m1[x := v], live, live, live);
      assert v == Word(m, b.addr + HEADER + k) by { assert Inside(b, b.addr + HEADER + k); }
      var m2 := m1[x := v];
      forall q | 0 <= q < k + 8 && q % 8 == 0
        ensures Data(m2, bs[j].addr + HEADER, q) == Data(m, b.addr + HEADER, q)
      {
        if q < k { assert Data(m1, bs[j].addr + HEADER, q) == Data(m, b.addr + HEADER, q); }
      }
    }
  
    // ----- kmalloc_aligned -----

    /**
     * Over-allocate, align, and store the original pointer in the word before the result. Nothing reads that
     * word: kfree takes back the result only when no adjustment was made.
     */
    method KmallocAligned(n: int, alignment: int, pages: nat) returns (r: int, ghost nb: Block)
      requires Valid() && 0 <= n && PowerOfTwo(alignment) && n + alignment + 8 <= TWO_63
      modifies this`mem, this`blocks, this`brk, this`size
      ensures Valid() && Kept(old(mem), mem, Used(old(blocks)))
      ensures r == 0 ==> blocks == old(blocks) && brk == old(brk)
      ensures r != 0 ==> nb !in Used(old(blocks)) && Used(blocks) == Used(old(blocks)) + {nb}
      ensures r != 0 ==> r % alignment == 0 && nb.addr + HEADER <= r && r + n <= nb.addr + HEADER + nb.size
      ensures r != 0 && alignment > ALIGNMENT ==> Inside(nb, r - 8) && Word(mem, r - 8) == nb.addr + HEADER
      ensures r != 0 ==> (Live(r) <==> alignment <= ALIGNMENT)
      ensures r == 0 <==> if alignment <= ALIGNMENT then n == 0 || Exhausted(old(blocks), old(brk), n, pages)
                          else Exhausted(old(blocks), old(brk), n + alignment + 8, pages)
    {
      if alignment <= ALIGNMENT {
        if n == 0 {
          r := Kmalloc(0, pages);
          nb := Block(0, 0, false);
          return;
        }
        r, nb := Allocate(n, pages);
        if r != 0 {
          SmallAlignment(blocks, brk, nb, alignment);
          LiveIffStart(blocks, brk, nb, r);
        }
        return;
      }
      var p;
      p, nb := Allocate(n + alignment + 8, pages);
      if p == 0 {
        return 0, nb;
      }
      AddrsInHeap(blocks, brk);
      r := AlignUp(p + 8, alignment);
      AlignUpFacts(p + 8, alignment);
      StorePointer(r - 8, p, nb);
      LiveIffStart(blocks, brk, nb, r);
    }

    method StorePointer(x: int, p: int, ghost nb: Block)
      requires Valid() && nb in Used(blocks) && Inside(nb, x)
      modifies this`mem
      ensures Valid() && Word(mem, x) == p && Kept(old(mem), mem, Used(blocks) - {nb})
    {
      ghost var j :| 0 <= j < |blocks| && blocks[j] == nb;
      PokeLaid(mem, blocks, brk, j, x, p);
      mem := mem[x := p];
    }

    // ----- statistics and validation -----

    method GetStats() returns (s: Stats)
      requires Valid()
      ensures s.total == size && s.usedSize == UsedBytes(blocks) && s.freeSize == FreeBytes(blocks)
      ensures s.blockCount == |blocks| && s.freeCount == FreeCount(blocks)
      ensures s.usedSize + s.freeSize + HEADER * s.blockCount == s.total
      ensures forall b :: b in blocks && !b.used ==> b.size <= s.largest
      ensures s.largest == 0 || exists b :: b in blocks && !b.used && b.size == s.largest
    {
      AddrsInHeap(blocks, brk);
      Conservation(blocks, brk, |blocks|);
      assert blocks[..|blocks|] == blocks;
      s := Stats(size, 0, 0, 0, 0, 0);
      var a := first;
      while a != 0 && MagicAt(mem, a) == MAGIC
        invariant s.blockCount <= |blocks| && s.total == size
        invariant a == (if s.blockCount < |blocks| then blocks[s.blockCount].addr else 0)
        invariant a != 0 ==> At(mem, blocks, s.blockCount)
        invariant s.usedSize == UsedBytes(blocks[..s.blockCount]) && s.freeSize == FreeBytes(blocks[..s.blockCount])
        invariant s.freeCount == FreeCount(blocks[..s.blockCount])
        invariant forall i :: 0 <= i < s.blockCount && !blocks[i].used ==> blocks[i].size <= s.largest
        invariant s.largest == 0 || exists b :: b in blocks && !b.used && b.size == s.largest
        decreases |blocks| - s.blockCount
      {
        ghost var i := s.blockCount;
        assert blocks[..i + 1][..i] == blocks[..i];
        assert blocks[i] in blocks;
        var z := SizeAt(mem, a);
        if FlagsAt(mem, a) == 0 {
          s := s.(freeSize := s.freeSize + z, freeCount := s.freeCount + 1, largest := if z > s.largest then z
              else s.largest);
        } else {
          s := s.(usedSize := s.usedSize + z);
        }
        s := s.(blockCount := s.blockCount + 1);
        a := NextAt(mem, a);
        if i + 1 < |blocks| { assert At(mem, blocks, i + 1); }
      }
    }

    /** heap_validate, for any memory whose next links end: it accepts exactly the well-formed chains. */
    method HeapValidate(ghost chain: seq<int>) returns (ok: bool)
      requires Chain(mem, first, chain)
      ensures ok <==> forall i :: 0 <= i < |chain| ==> Checked(mem, chain, i)
    {
      var a, prev := first, 0;
      ghost var i := 0;
      while a != 0
        invariant 0 <= i <= |chain| && a == (if i < |chain| then chain[i] else 0) && (a == 0 ==> i == |chain|)
        invariant prev == (if i == 0 then 0 else chain[i - 1])
        invariant forall j :: 0 <= j < i ==> Checked(mem, chain, j)
        decreases |chain| - i
      {
        if MagicAt(mem, a) != MAGIC || PrevAt(mem, a) != prev || (FlagsAt(mem, a) != 0 && FlagsAt(mem, a) != 1) {
          assert !Checked(mem, chain, i);
          return false;
        }
        assert Checked(mem, chain, i);
        assert NextAt(mem, chain[i]) == (if i + 1 < |chain| then chain[i + 1] else 0);
        prev, a, i := a, NextAt(mem, a), i + 1;
      }
      ok := true;
    }

    /** A heap that satisfies the invariant always validates. */
    method ValidateValid() returns (ok: bool)
      requires Valid()
      ensures ok
    {
      ghost var chain := Addrs(blocks);
      AddrsInHeap(blocks, brk);
      forall i | 0 <= i < |chain|
        ensures chain[i] != 0 && NextAt(mem, chain[i]) == (if i + 1 < |chain| then chain[i + 1] else 0)
        ensures Checked(mem, chain, i)
      {
        assert At(mem, blocks, i);
      }
      ok := HeapValidate(chain);
    }
  }
}
