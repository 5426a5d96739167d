/**
 * Directory entries as bytes (kernel/include/fs/ramfs.h, kernel/fs/ramfs.c): 64 bytes each, an 8-byte header
 * followed by a 56-byte name field. The length check lets names of up to 59 bytes through.
 */
module DirentBytes {
  import opened Basics
  import opened Mem
  import RamfsSpec

  const ENTRY := 64

  datatype Entry = Entry(inode: nat, kind: nat, name: seq<nat>)

  /** What ramfs_dir_add_entry accepts. */
  predicate Accepted(e: Entry) {
    && 0 < |e.name| < RamfsSpec.MAX_FILENAME && e.inode < 0x1_0000_0000 && e.kind < 256
    && forall k :: 0 <= k < |e.name| ==> 0 < e.name[k] < 256
  }

  function Little(x: nat, n: nat): (r: seq<nat>)
    ensures |r| == n
  {
    if n == 0 then [] else [x % 256] + Little(x / 256, n - 1)
  }

  function FromLittle(bs: seq<nat>): nat { if bs == [] then 0 else bs[0] + 256 * FromLittle(bs[1..]) }

  /** The bytes written for an entry: inode, record length, name length, kind, name, terminator. */
  function Encode(e: Entry): (r: seq<nat>)
    ensures |r| == 8 + |e.name| + 1
  {
    Little(e.inode, 4) + Little(ENTRY, 2) + [|e.name| % 256, e.kind % 256] + e.name + [0]
  }

  /** Slot `j` of an entry array is filled. */
  function WriteSlot(m: seq<nat>, j: nat, e: Entry): seq<nat>
    requires Accepted(e) && (j + 2) * ENTRY <= |m|
  {
    Splice(m, j * ENTRY, Encode(e))
  }

  /** How a lookup reads slot `j`: as many name bytes as the length byte says. */
  function Decode(m: seq<nat>, j: nat): Entry
    requires (j + 1) * ENTRY <= |m|
  {
    var a := j * ENTRY;
    var end := if a + 8 + m[a + 6] <= |m| then a + 8 + m[a + 6] else |m|;
    Entry(FromLittle(m[a..a + 4]), m[a + 7], m[a + 8..end])
  }

  function Raw(m: seq<nat>, k: nat): seq<nat>
    requires (k + 1) * ENTRY <= |m|
  {
    m[k * ENTRY..(k + 1) * ENTRY]
  }

  function Bound(n: nat): nat { if n == 0 then 1 else 256 * Bound(n - 1) }

  lemma {:induction false} LittleRoundTrip(x: nat, n: nat)
    requires x < Bound(n)
    ensures FromLittle(Little(x, n)) == x
  {
    if n > 0 {
      LittleRoundTrip(x / 256, n - 1);
      assert Little(x, n)[1..] == Little(x / 256, n - 1);
    }
  }

  /** Every accepted entry is read back as it was written, long names included. */
  lemma SlotRoundTrip(m: seq<nat>, j: nat, e: Entry)
    requires Accepted(e) && (j + 2) * ENTRY <= |m|
    ensures Decode(WriteSlot(m, j, e), j) == e
  {
    var m', a, c := WriteSlot(m, j, e), j * ENTRY, Encode(e);
    assert Bound(4) == 256 * (256 * (256 * 256));
    LittleRoundTrip(e.inode, 4);
    assert m'[a..a + 4] == c[..4] == Little(e.inode, 4);
    assert m'[a + 6] == c[6] == |e.name| && m'[a + 7] == c[7] == e.kind;
    assert m'[a + 8..a + 8 + |e.name|] == c[8..8 + |e.name|] == e.name;
  }

  /** No other entry of the array is touched. */
  ghost predicate Contained(m: seq<nat>, j: nat, e: Entry) {
    Accepted(e) && (j + 2) * ENTRY <= |m| ==>
      forall k: nat {:trigger Raw(m, k)} :: k != j && (k + 1) * ENTRY <= |m| ==> Raw(WriteSlot(m, j, e), k) == Raw(m, k)
  }

  /** Whatever the other entries hold. */
  ghost predicate AlwaysContained(size: nat, j: nat, e: Entry) {
    forall m: seq<nat> {:trigger Contained(m, j, e)} :: |m| == size ==> Contained(m, j, e)
  }

  /** Filling a slot leaves the others alone exactly for names of at most 55 bytes. */
  lemma ContainedIff(size: nat, j: nat, e: Entry)
    requires Accepted(e) && (j + 2) * ENTRY <= size
    ensures AlwaysContained(size, j, e) <==> |e.name| <= 55
  {
    if |e.name| <= 55 {
      forall m: seq<nat> | |m| == size
        ensures Contained(m, j, e)
      {
        ShortContained(m, j, e);
      }
    } else {
      LongSpills(size, j, e);
    }
  }

  lemma ShortContained(m: seq<nat>, j: nat, e: Entry)
    requires Accepted(e) && (j + 2) * ENTRY <= |m| && |e.name| <= 55
    ensures Contained(m, j, e)
  {
  }

  /** A name of 56 to 59 bytes reaches into the next entry: its terminator shows there. */
  lemma LongSpills(size: nat, j: nat, e: Entry)
    requires Accepted(e) && (j + 2) * ENTRY <= size && |e.name| > 55
    ensures !AlwaysContained(size, j, e)
  {
    var m := seq(size, _ => 255);
    var m' := WriteSlot(m, j, e);
    var q := 8 + |e.name| - ENTRY;
    assert Raw(m', j + 1)[q] == m'[j * ENTRY + 8 + |e.name|] == Encode(e)[8 + |e.name|] == 0;
    assert Raw(m, j + 1)[q] == 255;
    assert |m| == size && !Contained(m, j, e);
  }
}
