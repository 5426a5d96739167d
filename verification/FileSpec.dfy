/**
 A regular file of the RAM disk as a byte sequence. The bytes beyond the
 end of file are kept zero, which is what makes a write past the end fill
 the gap with zeros.
 */
module FileSpec {
  import opened Basics
  import opened RamfsSpec

  function Max(a: int, b: int): int { if a > b then a else b }

  function Min(a: int, b: int): int { if a < b then a else b }

  /** No byte after the end of the file is set. */
  ghost predicate TailZero(d: Disk, x: Inode) {
    |x.blocks| == DIRECT && forall k :: x.size <= k < MAX_SIZE ==> ByteAt(d, x, k) == 0
  }

  ghost predicate FileOk(d: Disk, x: Inode) {
    |x.blocks| == DIRECT && x.size <= MAX_SIZE && TailZero(d, x)
  }

  ghost predicate Files(d: Disk) {
    Shape(d) &&
    forall i :: 0 <= i < MAX_FILES ==> d.inodes[i].kind.File? ==> FileOk(d, d.inodes[i])
  }

  ghost function Contents(d: Disk, x: Inode): (r: seq<Byte>)
    requires |x.blocks| == DIRECT
    ensures |r| == Min(x.size, MAX_SIZE)
  {
    Image(d, x)[..Min(x.size, MAX_SIZE)]
  }

  /** `c` zero-extended as needed, with `data` at `at`. */
  function Written(c: seq<Byte>, at: nat, data: seq<Byte>): (r: seq<Byte>)
    ensures |r| == Max(|c|, at + |data|)
    ensures forall k ::
            0 <= k < |r| ==> r[k] == if at <= k < at + |data| then data[k - at] else if k < |c| then c[k] else 0
  {
    seq(Max(|c|, at + |data|), k requires 0 <= k => if at <= k < at + |data| then data[k - at] else if k < |c|
        then c[k] else 0)
  }

  /** `c` cut or zero-extended to `n` bytes. */
  function Resized(c: seq<Byte>, n: nat): (r: seq<Byte>)
    ensures |r| == n
    ensures forall k :: 0 <= k < n ==> r[k] == if k < |c| then c[k] else 0
  {
    seq(n, k requires 0 <= k => if k < |c| then c[k] else 0)
  }

  /** The part of `c` that a read of `count` bytes at `at` may return. */
  function Slice(c: seq<Byte>, at: nat, count: nat): (r: seq<Byte>) {
    if at >= |c| then [] else c[at..Min(at + count, |c|)]
  }

  /** Splicing the image and growing the size is a write to the contents. */
  lemma SpliceIsWrite(d: Disk, x: Inode, d': Disk, x': Inode, at: nat, data: seq<Byte>)
    requires FileOk(d, x) && |x'.blocks| == DIRECT && at + |data| <= MAX_SIZE
    requires Image(d', x') == Splice(Image(d, x), at, data)
    requires x'.size == Max(x.size, at + |data|)
    ensures FileOk(d', x')
    ensures Contents(d', x') == Written(Contents(d, x), at, data)
  {
  }

  lemma SameContents(d: Disk, d': Disk, i: nat)
    requires Shape(d) && Shape(d') && i < MAX_FILES
    requires SameImages(d, d', i) && d'.inodes[i].size == d.inodes[i].size
    ensures FileOk(d, d.inodes[i]) <==> FileOk(d', d'.inodes[i])
    ensures FileOk(d, d.inodes[i]) ==> Contents(d', d'.inodes[i]) == Contents(d, d.inodes[i])
  {
  }

  /** A piece of one block is the corresponding piece of the image. */
  lemma ChunkOfImage(d: Disk, x: Inode, at: nat, len: nat)
    requires |x.blocks| == DIRECT && at < MAX_SIZE && at % BLOCK_SIZE + len <= BLOCK_SIZE
    ensures at + len <= MAX_SIZE
    ensures SlotBytes(d, x, at / BLOCK_SIZE)[at % BLOCK_SIZE..at % BLOCK_SIZE + len] == Image(d, x)[at..at + len]
  {
    var s, o := at / BLOCK_SIZE, at % BLOCK_SIZE;
    assert at == s * BLOCK_SIZE + o && s < DIRECT;
    var piece := Image(d, x)[at..at + len];
    forall k | 0 <= k < len ensures piece[k] == SlotBytes(d, x, s)[o..o + len][k] {
      SamePlace(s, o + k);
    }
  }

  lemma SamePlace(s: nat, o: nat)
    requires o < BLOCK_SIZE
    ensures (s * BLOCK_SIZE + o) / BLOCK_SIZE == s && (s * BLOCK_SIZE + o) % BLOCK_SIZE == o
  {
  }

  lemma SpliceTwice(s: seq<Byte>, at: nat, a: seq<Byte>, b: seq<Byte>)
    requires at + |a| + |b| <= |s|
    ensures Splice(Splice(s, at, a), at + |a|, b) == Splice(s, at, a + b)
  {
  }

  /**
   Reading at `at` before the end of file: the code clamps `count` only when the 64-bit
   sum `at + count` exceeds the size, so a wrapping sum reads to the end of
   the image instead.
   */
  function ReadSpec(image: seq<Byte>, size: nat, at: nat, count: nat): (r: seq<Byte>)
    requires |image| == MAX_SIZE && size <= MAX_SIZE
    ensures r == Slice(image[..size], at, count) <==> at >= size || at + count < TWO_64 || size == MAX_SIZE
  {
    if at >= size then []
    else if at + count < TWO_64 then image[at..Min(at + count, size)]
    else image[at..]
  }

  /** First block that a file of `n` bytes does not need. */
  function BlocksFor(n: nat): nat {
    (n + BLOCK_SIZE - 1) / BLOCK_SIZE
  }

  /** Cutting `c` to `n` bytes leaves nothing but zeros in the last kept block. */
  ghost predicate CleanCut(c: seq<Byte>, n: nat) {
    forall k :: n <= k < Min(|c|, BLOCK_SIZE * BlocksFor(n)) ==> c[k] == 0
  }

  /** What a cut to `n` bytes leaves in the blocks it keeps. */
  function KeptBytes(c: seq<Byte>, n: nat): seq<Byte> { c[..Min(|c|, BLOCK_SIZE * BlocksFor(n))] }

  /** Growing the cut file to any `m` bytes brings back the kept bytes, followed by zeros. */
  ghost predicate Regrows(d: Disk, x: Inode, c: seq<Byte>, n: nat) {
    && |x.blocks| == DIRECT
    && forall m: nat {:trigger x.(size := m)} ::
        n <= m <= MAX_SIZE ==> Contents(d, x.(size := m)) == Resized(KeptBytes(c, n), m)
  }

  /** Cut and grown again, a file is its resized contents whatever the new size, exactly after a clean cut. */
  lemma RegrowthIff(c: seq<Byte>, n: nat)
    requires n <= |c| <= MAX_SIZE
    ensures (forall m: nat :: n <= m <= MAX_SIZE ==> Resized(KeptBytes(c, n), m) == Resized(Resized(c, n), m)) <==>
            CleanCut(c, n)
  {
    var k := KeptBytes(c, n);
    if forall m: nat :: n <= m <= MAX_SIZE ==> Resized(k, m) == Resized(Resized(c, n), m) {
      forall j | n <= j < |k| ensures c[j] == 0 {
        assert Resized(k, |k|)[j] == Resized(Resized(c, n), |k|)[j];
      }
    }
  }

  /** Two ones cut to one and grown to two are two ones again. */
  lemma OldByteReturns()
    ensures KeptBytes([1, 1], 1) == [1, 1] && Resized(KeptBytes([1, 1], 1), 2) == [1, 1]
    ensures Resized(Resized([1, 1], 1), 2) == [1, 0] && !CleanCut([1, 1], 1)
  {
    var c: seq<Byte> := [1, 1];
    assert BlocksFor(1) == 1 && c[..2] == c;
    assert c[1] != 0;
  }

  /** Reading the second byte of a two-byte file with a count that wraps returns the whole rest of the image. */
  lemma WrappedRead(image: seq<Byte>)
    requires |image| == MAX_SIZE
    ensures |ReadSpec(image, 2, 1, TWO_64 - 1)| == MAX_SIZE - 1 && |Slice(image[..2], 1, TWO_64 - 1)| == 1
  {
  }

  lemma AlignedCutIsClean(c: seq<Byte>, n: nat)
    requires n % BLOCK_SIZE == 0 || n >= |c|
    ensures CleanCut(c, n)
  {
  }

  /** Shrinking keeps the leading bytes; the file is fit for later growth exactly after a clean cut. */
  lemma ShrinkResult(d: Disk, x: Inode, d': Disk, x': Inode, n: nat)
    requires FileOk(d, x) && n < x.size && |x'.blocks| == DIRECT && x'.size == n
    requires forall k ::
             0 <= k < MAX_SIZE ==> ByteAt(d', x', k) == if k / BLOCK_SIZE >= BlocksFor(n) then 0 else ByteAt(d, x, k)
    ensures Contents(d', x') == Resized(Contents(d, x), n)
    ensures TailZero(d', x') <==> CleanCut(Contents(d, x), n)
    ensures Regrows(d', x', Contents(d, x), n)
  {
    var c := Contents(d, x);
    forall m: nat | n <= m <= MAX_SIZE
      ensures Contents(d', x'.(size := m)) == Resized(KeptBytes(c, n), m)
    {
      forall k | 0 <= k < m ensures Contents(d', x'.(size := m))[k] == Resized(KeptBytes(c, n), m)[k] {
        assert Image(d', x'.(size := m))[k] == ByteAt(d', x', k);
      }
    }
  }

  lemma GrowResult(d: Disk, x: Inode, n: nat)
    requires FileOk(d, x) && x.size <= n <= MAX_SIZE
    ensures FileOk(d, x.(size := n)) && Contents(d, x.(size := n)) == Resized(Contents(d, x), n)
    ensures CleanCut(Contents(d, x), n) && Regrows(d, x.(size := n), Contents(d, x), n)
  {
    assert forall k :: 0 <= k < MAX_SIZE ==> ByteAt(d, x.(size := n), k) == ByteAt(d, x, k);
    forall m: nat | n <= m <= MAX_SIZE
      ensures Contents(d, x.(size := n).(size := m)) == Resized(KeptBytes(Contents(d, x), n), m)
    {
      forall k | 0 <= k < m ensures Contents(d, x.(size := m))[k] == Resized(Contents(d, x), m)[k] {
        assert Image(d, x.(size := m))[k] == ByteAt(d, x, k);
      }
      assert KeptBytes(Contents(d, x), n) == Contents(d, x);
    }
  }
}
