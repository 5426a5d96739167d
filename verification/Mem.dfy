/**
 * memset, memcpy and memmove (kernel/lib/string.c): word-wise loops over one byte array whose indices are the
 * addresses, against byte-wise and snapshot definitions.
 */
module Mem {
  import opened Basics

  function Fill(n: nat, b: nat): seq<nat> { seq(n, _ => b) }

  /** One byte after the other, lowest address first. */
  function ForwardCopy(m: seq<nat>, d: nat, s: nat, n: nat): (r: seq<nat>)
    requires d + n <= |m| && s + n <= |m|
    ensures |r| == |m|
  {
    if n == 0 then m
    else
      var r := ForwardCopy(m, d, s, n - 1);
      r[d + n - 1 := r[s + n - 1]]
  }

  /** All source bytes as they were before the copy. */
  function Snapshot(m: seq<nat>, d: nat, s: nat, n: nat): seq<nat>
    requires d + n <= |m| && s + n <= |m|
  {
    Splice(m, d, m[s..s + n])
  }

  /** What a forward copy leaves at address `q`. */
  lemma {:induction false} ForwardAt(m: seq<nat>, d: nat, s: nat, n: nat, q: nat)
    requires d + n <= |m| && s + n <= |m| && q < |m|
    ensures var r := ForwardCopy(m, d, s, n);
            r[q] == if !(d <= q < d + n) then m[q]
                    else if s < d && d <= s + (q - d) then r[s + (q - d)]
                    else m[s + (q - d)]
  {
    if n > 0 {
      ForwardAt(m, d, s, n - 1, q);
      if d <= q < d + n { ForwardAt(m, d, s, n - 1, s + (q - d)); }
    }
  }

  /** The forward copy is a snapshot copy unless the target starts inside the source. */
  lemma ForwardIsSnapshot(m: seq<nat>, d: nat, s: nat, n: nat)
    requires d + n <= |m| && s + n <= |m| && !(s < d < s + n)
    ensures ForwardCopy(m, d, s, n) == Snapshot(m, d, s, n)
  {
  }

  lemma {:induction false} Continue(m: seq<nat>, d: nat, s: nat, n: nat, k: nat)
    requires d + n + k <= |m| && s + n + k <= |m|
    ensures ForwardCopy(m, d, s, n + k) == ForwardCopy(ForwardCopy(m, d, s, n), d + n, s + n, k)
  {
    if k > 0 { Continue(m, d, s, n, k - 1); }
  }

  /** Eight bytes at once, when source and target are not closer than a word. */
  lemma WordStep(m: seq<nat>, d: nat, s: nat, n: nat)
    requires d + n + 8 <= |m| && s + n + 8 <= |m| && (d == s || d >= s + 8 || s >= d + 8)
    ensures var r := ForwardCopy(m, d, s, n);
            ForwardCopy(m, d, s, n + 8) == Splice(r, d + n, r[s + n..s + n + 8])
  {
    Continue(m, d, s, n, 8);
    ForwardIsSnapshot(ForwardCopy(m, d, s, n), d + n, s + n, 8);
  }

  /** Memory in which the forward copy shows: a one at the start of the source, zeros elsewhere. */
  lemma OverlapShows(size: nat, d: nat, s: nat, n: nat)
    requires d + n <= size && s + n <= size && s < d < s + n
    ensures var m := Fill(size, 0)[s := 1]; ForwardCopy(m, d, s, n) != Snapshot(m, d, s, n)
  {
    var m := Fill(size, 0)[s := 1];
    ForwardAt(m, d, s, n, d);
    ForwardAt(m, d, s, n, d + (d - s));
    assert Snapshot(m, d, s, n)[d + (d - s)] == m[d];
  }

  predicate SnapshotOf(m: seq<nat>, d: nat, s: nat, n: nat) {
    d + n <= |m| && s + n <= |m| ==> ForwardCopy(m, d, s, n) == Snapshot(m, d, s, n)
  }

  /** The forward copy is a snapshot copy, whatever the memory holds. */
  ghost predicate AlwaysSnapshot(size: nat, d: nat, s: nat, n: nat) {
    forall m: seq<nat> {:trigger SnapshotOf(m, d, s, n)} :: |m| == size ==> SnapshotOf(m, d, s, n)
  }

  lemma AlwaysApart(size: nat, d: nat, s: nat, n: nat)
    requires d + n <= size && s + n <= size && !(s < d < s + n)
    ensures AlwaysSnapshot(size, d, s, n)
  {
    forall m: seq<nat> | |m| == size
      ensures SnapshotOf(m, d, s, n)
    {
      ForwardIsSnapshot(m, d, s, n);
    }
  }

  /** It is one for every memory exactly when the target does not start inside the source. */
  lemma ForwardIsSnapshotIff(size: nat, d: nat, s: nat, n: nat)
    requires d + n <= size && s + n <= size
    ensures AlwaysSnapshot(size, d, s, n) <==> !(s < d < s + n)
  {
    if s < d < s + n {
      OverlapShows(size, d, s, n);
      var m := Fill(size, 0)[s := 1];
      assert |m| == size && !SnapshotOf(m, d, s, n);
    } else {
      AlwaysApart(size, d, s, n);
    }
  }

  /** The 64-bit fill pattern holds the byte eight times. */
  lemma PatternBytes(b: bv64)
    requires b < 256
    ensures var p1 := b | (b << 8); var p2 := p1 | (p1 << 16); var p := p2 | (p2 << 32);
            && p & 0xFF == b && (p >> 8) & 0xFF == b && (p >> 16) & 0xFF == b && (p >> 24) & 0xFF == b
            && (p >> 32) & 0xFF == b && (p >> 40) & 0xFF == b && (p >> 48) & 0xFF == b && (p >> 56) & 0xFF == b
  {
  }

  /** A 64-bit store. */
  method StoreWord(mem: array<nat>, a: nat, w: seq<nat>)
    requires |w| == 8 && a + 8 <= mem.Length
    modifies mem
    ensures mem[..] == Splice(old(mem[..]), a, w)
  {
    for k := 0 to 8
      invariant mem[..] == Splice(old(mem[..]), a, w[..k])
    {
      mem[a + k] := w[k];
    }
  }

  method Memset(mem: array<nat>, dest: nat, val: nat, count: nat)
    requires dest + count <= mem.Length
    modifies mem
    ensures mem[..] == Splice(old(mem[..]), dest, Fill(count, val % 256))
  {
    var b, n := val % 256, 0;
    ghost var m := mem[..];
    if count >= 8 {
      while (dest + n) % 8 != 0 && n < count
        invariant n <= count && mem[..] == Splice(m, dest, Fill(n, b))
        decreases count - n
      {
        mem[dest + n] := b;
        n := n + 1;
      }
      while count - n >= 8
        invariant n <= count && mem[..] == Splice(m, dest, Fill(n, b))
      {
        StoreWord(mem, dest + n, [b, b, b, b, b, b, b, b]);
        n := n + 8;
      }
    }
    while n < count
      invariant n <= count && mem[..] == Splice(m, dest, Fill(n, b))
    {
      mem[dest + n] := b;
      n := n + 1;
    }
  }

  method CopyByte(mem: array<nat>, dest: nat, src: nat, n: nat, ghost m: seq<nat>)
    requires dest + n < mem.Length == |m| && src + n < mem.Length && mem[..] == ForwardCopy(m, dest, src, n)
    modifies mem
    ensures mem[..] == ForwardCopy(m, dest, src, n + 1)
  {
    mem[dest + n] := mem[src + n];
  }

  method CopyWord(mem: array<nat>, dest: nat, src: nat, n: nat, ghost m: seq<nat>)
    requires dest + n + 8 <= mem.Length == |m| && src + n + 8 <= mem.Length && mem[..] == ForwardCopy(m, dest, src, n)
    requires dest % 8 == src % 8
    modifies mem
    ensures mem[..] == ForwardCopy(m, dest, src, n + 8)
  {
    WordStep(m, dest, src, n);
    assert mem[..][src + n..src + n + 8] == mem[src + n..src + n + 8];
    StoreWord(mem, dest + n, mem[src + n..src + n + 8]);
  }

  /** memcpy is the byte-wise forward copy for all arguments, overlapping ones included. */
  method Memcpy(mem: array<nat>, dest: nat, src: nat, count: nat)
    requires dest + count <= mem.Length && src + count <= mem.Length
    modifies mem
    ensures mem[..] == ForwardCopy(old(mem[..]), dest, src, count)
  {
    var n := 0;
    ghost var m := mem[..];
    if count >= 8 && dest % 8 == src % 8 {
      while (dest + n) % 8 != 0 && n < count
        invariant n <= count && mem[..] == ForwardCopy(m, dest, src, n)
        decreases count - n
      {
        CopyByte(mem, dest, src, n, m);
        n := n + 1;
      }
      while count - n >= 8
        invariant n <= count && mem[..] == ForwardCopy(m, dest, src, n)
      {
        CopyWord(mem, dest, src, n, m);
        n := n + 8;
      }
    }
    while n < count
      invariant n <= count && mem[..] == ForwardCopy(m, dest, src, n)
    {
      CopyByte(mem, dest, src, n, m);
      n := n + 1;
    }
  }

  /** memmove is a snapshot copy for all arguments. */
  method Memmove(mem: array<nat>, dest: nat, src: nat, count: nat)
    requires dest + count <= mem.Length && src + count <= mem.Length
    modifies mem
    ensures mem[..] == Snapshot(old(mem[..]), dest, src, count)
  {
    if dest == src || count == 0 {
      return;
    }
    if dest < src || dest >= src + count {
      ForwardIsSnapshot(mem[..], dest, src, count);
      Memcpy(mem, dest, src, count);
      return;
    }
    var left := count;
    ghost var m := mem[..];
    while left > 0
      invariant 0 <= left <= count && mem[..] == Splice(m, dest + left, m[src + left..src + count])
    {
      left := left - 1;
      mem[dest + left] := mem[src + left];
    }
  }
}
