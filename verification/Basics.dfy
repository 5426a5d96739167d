/** Notions used throughout. */
module Basics {
  const PAGE := 4096
  const TWO_64 := 0x1_0000_0000_0000_0000

  datatype Option<T> = None | Some(value: T)

  /** `s` with `chunk` written over it at `at`. */
  function Splice<T>(s: seq<T>, at: nat, chunk: seq<T>): (r: seq<T>)
    requires at + |chunk| <= |s|
    ensures |r| == |s|
    ensures forall k :: 0 <= k < |s| ==> r[k] == if at <= k < at + |chunk| then chunk[k - at] else s[k]
  {
    seq(|s|, k requires 0 <= k < |s| => if at <= k < at + |chunk| then chunk[k - at] else s[k])
  }
}
