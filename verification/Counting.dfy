/** Counting: sequences without repetition, and the clear bits of a bitmap. */
module Counting {

  ghost predicate Distinct(s: seq<nat>) {
    forall i, j :: 0 <= i < j < |s| ==> s[i] != s[j]
  }

  /** A sequence of different numbers below `n` has at most `n` of them. */
  lemma {:induction false} Pigeonhole(s: seq<nat>, n: nat)
    requires Distinct(s)
    requires forall i :: 0 <= i < |s| ==> s[i] < n
    ensures |s| <= n
    decreases n
  {
    if s != [] {
      assert s[0] < n;
      if k :| 0 <= k < |s| && s[k] == n - 1 {
        Pigeonhole(s[..k] + s[k + 1..], n - 1);
      } else {
        Pigeonhole(s, n - 1);
      }
    }
  }

  /** Number of clear bits of a bitmap. */
  function Clear(bits: seq<bool>): nat {
    if bits == [] then 0 else Clear(bits[..|bits| - 1]) + if bits[|bits| - 1] then 0 else 1
  }

  lemma {:induction false} ClearUpdate(bits: seq<bool>, i: nat, v: bool)
    requires i < |bits|
    ensures Clear(bits[i := v]) == Clear(bits) + (if bits[i] then 1 else 0) - (if v then 1 else 0)
  {
    var n := |bits| - 1;
    if i == n {
      assert bits[i := v][..n] == bits[..n];
    } else {
      ClearUpdate(bits[..n], i, v);
      assert bits[i := v][..n] == bits[..n][i := v];
    }
  }

  lemma {:induction false} ClearPositive(bits: seq<bool>, i: nat)
    requires i < |bits| && !bits[i]
    ensures Clear(bits) > 0
  {
    ClearUpdate(bits, i, true);
  }

  lemma {:induction false} ClearZero(bits: seq<bool>)
    requires forall i :: 0 <= i < |bits| ==> bits[i]
    ensures Clear(bits) == 0
  {
    if bits != [] { ClearZero(bits[..|bits| - 1]); }
  }

  /** Number of non-zero block pointers of an inode. */
  function NonZero(s: seq<nat>): nat {
    if s == [] then 0 else NonZero(s[..|s| - 1]) + if s[|s| - 1] == 0 then 0 else 1
  }

  lemma {:induction false} NonZeroUpdate(s: seq<nat>, i: nat, v: nat)
    requires i < |s|
    ensures NonZero(s[i := v]) == NonZero(s) - (if s[i] == 0 then 0 else 1) + (if v == 0 then 0 else 1)
  {
    var n := |s| - 1;
    if i == n {
      assert s[i := v][..n] == s[..n];
    } else {
      NonZeroUpdate(s[..n], i, v);
      assert s[i := v][..n] == s[..n][i := v];
    }
  }

  lemma {:induction false} NonZeroOfZeros(s: seq<nat>)
    requires forall i :: 0 <= i < |s| ==> s[i] == 0
    ensures NonZero(s) == 0
  {
    if s != [] { NonZeroOfZeros(s[..|s| - 1]); }
  }

  lemma {:induction false} ClearOfFormatted(bits: seq<bool>, k: nat)
    requires k <= |bits| && forall i :: 0 <= i < |bits| ==> (bits[i] <==> i < k)
    ensures Clear(bits) == |bits| - k
  {
    if k < |bits| {
      ClearOfFormatted(bits[..|bits| - 1], k);
    } else {
      ClearZero(bits);
    }
  }

  /** The first clear bit in [from, end), or `end`. */
  function FirstClear(bits: seq<bool>, from: nat, end: nat): (i: nat)
    requires from <= end <= |bits|
    ensures from <= i <= end && (i < end ==> !bits[i])
    ensures forall j :: from <= j < i ==> bits[j]
    decreases end - from
  {
    if from == end || !bits[from] then from else FirstClear(bits, from + 1, end)
  }
}
