/**
 * Runs of user mappings, specification side: what each vmm_map_user_page call needs and does, and the loops of
 * kernel/user/user_process.c that fill a new address space with fresh frames.
 */
module VmmRuns {
  import opened Basics
  import opened VmmSpec
  import opened VmmPaths

  ghost predicate FreshPool(pool: seq<nat>, info: map<nat, Info>) {
    && (forall i :: 0 <= i < |pool| ==> pool[i] !in info && pool[i] != 0)
    && (forall i, j :: 0 <= i < j < |pool| ==> pool[i] != pool[j])
  }

  /** The frames left after vmm_map_user_page: a call that runs out of them has used them all. */
  function PoolAfter(t: Tables, frames: nat, s: nat, virt: nat): nat {
    var n := UserPlan(t, 4, s, VaOf(virt)).tables;
    if virt >= USER_SPACE_END then frames else if n <= frames then frames - n else 0
  }

  const USER_CODE_BASE := 0x40_0000
  const USER_STACK_BASE := 0x7FFF_FFFF_E000 - 16 * PAGE
  const STACK_PAGES := 16

  /** All successful calls are for space `s`. */
  ghost predicate AllFor(calls: seq<Option<Call>>, s: nat) {
    forall k :: 0 <= k < |calls| && calls[k].Some? ==> calls[k].value.space == s
  }

  // ----- where the frames go -----

  /** The frames taken from the front of the pool became tables. */
  ghost predicate Drawn(pool: seq<nat>, pool': seq<nat>, info: map<nat, Info>, info': map<nat, Info>) {
    && |pool'| <= |pool| && pool' == pool[|pool| - |pool'|..]
    && forall g: nat :: g in info' <==> g in info || g in pool[..|pool| - |pool'|]
  }

  lemma DrawnOne(pool: seq<nat>, info: map<nat, Info>, i: Info)
    requires |pool| > 0
    ensures Drawn(pool, pool[1..], info, info[pool[0] := i])
  {
    assert pool[..1] == [pool[0]];
  }

  lemma DrawnTrans(pool: seq<nat>, pool1: seq<nat>, pool2: seq<nat>, info: map<nat, Info>, info1: map<nat, Info>,
      info2: map<nat, Info>)
    requires Drawn(pool, pool1, info, info1) && Drawn(pool1, pool2, info1, info2)
    ensures Drawn(pool, pool2, info, info2)
  {
    var k, n := |pool| - |pool1|, |pool| - |pool2|;
    assert pool[..n] == pool[..k] + pool1[..n - k];
  }

  /**
   * Every frame of the old pool is in the pool still, or is one of the pages `frames`, or holds a new table, and no
   * frame is two of these.
   */
  ghost predicate Accounted(pool0: seq<nat>, info0: map<nat, Info>, pool: seq<nat>, info: map<nat, Info>,
      frames: seq<nat>) {
    && (forall x: nat {:trigger x in pool0} ::
        x in pool0 <==> x in pool || x in frames || (x in info && x !in info0))
    && (forall k {:trigger frames[k]} :: 0 <= k < |frames| ==> frames[k] !in pool && frames[k] !in info)
    && (forall j, k :: 0 <= j < k < |frames| ==> frames[j] != frames[k])
    && FreshPool(pool, info)
  }

  /** The first frame of the pool becomes a page, and the next ones tables. */
  lemma AccountedPage(pool0: seq<nat>, info0: map<nat, Info>, pool: seq<nat>, info: map<nat, Info>, frames: seq<nat>,
      pool': seq<nat>, info': map<nat, Info>)
    requires FreshPool(pool0, info0) && Accounted(pool0, info0, pool, info, frames) && Extends(info0, info)
    requires |pool| > 0 && Drawn(pool[1..], pool', info, info') && FreshPool(pool', info')
    ensures Accounted(pool0, info0, pool', info', frames + [pool[0]])
  {
    PoolParts(pool, pool');
    forall x: nat
      ensures x in pool0 <==> x in pool' || x in frames + [pool[0]] || (x in info' && x !in info0)
    {
      assert x in pool0 <==> x in pool || x in frames || (x in info && x !in info0);
      if x in pool { assert x in pool0 && x !in info0; }
    }
    assert pool[0] in pool && pool[0] !in pool' && pool[0] !in info';
    forall k | 0 <= k < |frames| ensures frames[k] !in pool' && frames[k] !in info' && frames[k] != pool[0] {}
  }

  /** The page's frame is given back, the tables made for it are kept. */
  lemma AccountedBack(pool0: seq<nat>, info0: map<nat, Info>, pool: seq<nat>, info: map<nat, Info>, frames: seq<nat>,
      pool': seq<nat>, info': map<nat, Info>)
    requires FreshPool(pool0, info0) && Accounted(pool0, info0, pool, info, frames) && Extends(info0, info)
    requires |pool| > 0 && Drawn(pool[1..], pool', info, info') && FreshPool(pool', info')
    ensures Accounted(pool0, info0, [pool[0]] + pool', info', frames)
  {
    PoolParts(pool, pool');
    forall x: nat
      ensures x in pool0 <==> x in [pool[0]] + pool' || x in frames || (x in info' && x !in info0)
    {
      assert x in pool0 <==> x in pool || x in frames || (x in info && x !in info0);
      if x in pool { assert x in pool0 && x !in info0; }
    }
    assert pool[0] in pool && pool[0] !in pool' && pool[0] !in info';
    forall k | 0 <= k < |frames| ensures frames[k] !in [pool[0]] + pool' && frames[k] !in info' {}
  }

  /** What loading a page does to the pool: its first frame becomes the page, or is put back. */
  ghost predicate Took(pool: seq<nat>, pool': seq<nat>, info: map<nat, Info>, info': map<nat, Info>, ok: bool) {
    if pool == [] then !ok && pool' == [] && info' == info
    else if ok then Drawn(pool[1..], pool', info, info')
    else pool' != [] && pool'[0] == pool[0] && Drawn(pool[1..], pool'[1..], info, info')
  }

  lemma PutBack(pool: seq<nat>, pool': seq<nat>, info: map<nat, Info>, info': map<nat, Info>)
    requires FreshPool(pool, info) && |pool| > 0 && Drawn(pool[1..], pool', info, info') && FreshPool(pool', info')
    ensures FreshPool([pool[0]] + pool', info') && Took(pool, [pool[0]] + pool', info, info', false)
  {
    PoolParts(pool, pool');
    assert ([pool[0]] + pool')[1..] == pool';
    assert forall k :: 0 <= k < |pool'| ==> pool'[k] == pool[|pool| - |pool'| + k];
  }

  lemma AccountedNext(pool0: seq<nat>, info0: map<nat, Info>, pool: seq<nat>, info: map<nat, Info>, frames: seq<nat>,
      pool': seq<nat>, info': map<nat, Info>, ok: bool)
    requires FreshPool(pool0, info0) && Accounted(pool0, info0, pool, info, frames) && Extends(info0, info)
    requires Took(pool, pool', info, info', ok) && FreshPool(pool', info')
    ensures ok ==> pool != [] && Accounted(pool0, info0, pool', info', frames + [pool[0]])
    ensures !ok ==> Accounted(pool0, info0, pool', info', frames)
  {
    if ok {
      AccountedPage(pool0, info0, pool, info, frames, pool', info');
    } else if pool != [] {
      AccountedBack(pool0, info0, pool, info, frames, pool'[1..], info');
      assert pool' == [pool[0]] + pool'[1..];
    }
  }

  /** A pool, its first frame, the frames drawn after it and the rest. */
  lemma PoolParts(pool: seq<nat>, pool': seq<nat>)
    requires |pool| > 0 && |pool'| < |pool| && pool' == pool[1..][|pool| - 1 - |pool'|..]
    ensures forall x: nat :: x in pool <==> x == pool[0] || x in pool[1..][..|pool| - 1 - |pool'|] || x in pool'
  {
    assert pool == [pool[0]] + pool[1..][..|pool| - 1 - |pool'|] + pool';
  }

  /** The root of a new space is the first table. */
  lemma RootAccounted(pool: seq<nat>, info: map<nat, Info>, root: nat)
    requires FreshPool(pool, info) && |pool| > 0 && root == pool[0]
    ensures Accounted(pool, info, pool[1..], info[root := Info(4, root)], [])
  {
    assert pool == [root] + pool[1..];
  }

  lemma AccountedJoin(pool0: seq<nat>, info0: map<nat, Info>, pool1: seq<nat>, info1: map<nat, Info>,
      pool2: seq<nat>, info2: map<nat, Info>, a: seq<nat>, b: seq<nat>)
    requires FreshPool(pool0, info0) && Extends(info0, info1) && Extends(info1, info2)
    requires Accounted(pool0, info0, pool1, info1, a) && Accounted(pool1, info1, pool2, info2, b)
    ensures Accounted(pool0, info0, pool2, info2, a + b)
  {
    forall x: nat
      ensures x in pool0 <==> x in pool2 || x in a + b || (x in info2 && x !in info0)
    {
      assert x in pool0 <==> x in pool1 || x in a || (x in info1 && x !in info0);
      assert x in pool1 <==> x in pool2 || x in b || (x in info2 && x !in info1);
      if x in pool1 { assert x in pool0 && x !in info0; }
    }
    forall k | 0 <= k < |a + b| ensures (a + b)[k] !in pool2 && (a + b)[k] !in info2 {
      if k < |a| { assert a[k] !in pool1 && a[k] !in info1; } else { assert (a + b)[k] == b[k - |a|]; }
    }
    forall j, k | 0 <= j < k < |a + b| ensures (a + b)[j] != (a + b)[k] {
      if j < |a| <= k {
        assert a[j] !in pool1 && (a + b)[k] == b[k - |a|] && b[k - |a|] in pool1;
      } else if j >= |a| {
        assert b[j - |a|] != b[k - |a|];
      }
    }
  }

  // ----- leaf entries -----

  /** The leaf entry on the way of `v`. */
  function LeafEntry(t: Tables, s: nat, v: Va): Option<Pte> {
    match LeafTable(t, 4, s, v)
    case None => None
    case Some(p) => Some(Entry(t, p, v.i1))
  }

  /** Page `v` of space `s` has leaf entry `e`, in a table of its own. */
  ghost predicate Owns(t: Tables, info: map<nat, Info>, s: nat, v: Va, e: Pte) {
    && LeafEntry(t, s, v) == Some(e)
    && var p := LeafTable(t, 4, s, v).value; p in info && info[p] == Info(1, s)
  }

  /** No old level-1 table changed, except in slot `i` of `p`. */
  ghost predicate OnlyLeaf(t: Tables, t': Tables, info: map<nat, Info>, p: nat, i: nat) {
    forall g: nat, j: nat {:trigger Entry(t', g, j)} ::
        g in info && info[g].level == 1 && !(g == p && j == i) ==> Entry(t', g, j) == Entry(t, g, j)
  }

  ghost predicate SameLeaves(t: Tables, t': Tables, info: map<nat, Info>) {
    forall g: nat, j: nat {:trigger Entry(t', g, j)} ::
        g in info && info[g].level == 1 ==> Entry(t', g, j) == Entry(t, g, j)
  }

  lemma LeafOnly(t: Tables, t1: Tables, info: map<nat, Info>, p: nat, i: nat, e: Pte)
    requires SameLeaves(t, t1, info)
    ensures OnlyLeaf(t, Set(t1, p, i, e), info, p, i)
  {
    var t' := Set(t1, p, i, e);
    forall g: nat, j: nat | g in info && info[g].level == 1 && !(g == p && j == i)
      ensures Entry(t', g, j) == Entry(t, g, j)
    {
      assert Entry(t', g, j) == Entry(t1, g, j);
    }
  }

  lemma InstallLeaves(t: Tables, info: map<nat, Info>, f: nat, i: nat, c: nat, es: seq<Pte>, e: Pte)
    requires f in info && info[f].level >= 2 && c !in info
    ensures SameLeaves(t, Install(t, f, i, c, es, e), info)
  {
  }

  /** The leaf entries space `s` owned are as before, except that of page `v`, if any. */
  ghost predicate KeptBut(t: Tables, t': Tables, info: map<nat, Info>, info': map<nat, Info>, s: nat, v: Option<Va>) {
    forall w: Va, e: Pte {:trigger Owns(t', info', s, w, e)} ::
        Cut(w) && w.i4 != RECURSIVE && Owns(t, info, s, w, e) && !(v.Some? && SamePage(v.value, w)) ==>
        Owns(t', info', s, w, e)
  }

  lemma OwnsKept(t: Tables, t': Tables, info: map<nat, Info>, info': map<nat, Info>, s: nat, w: Va, e: Pte)
    requires Owns(t, info, s, w, e) && Addressable(info, s, w) && Extends(info, info')
    requires SameLeafTables(t, t', info)
    requires var p := LeafTable(t, 4, s, w).value; Entry(t', p, w.i1) == Entry(t, p, w.i1)
    ensures Owns(t', info', s, w, e)
  {
    var p := LeafTable(t, 4, s, w).value;
    assert EndsAt(t, s, w, p, w.i1) && EndsAt(t', s, w, p, w.i1);
  }

  /** A leaf written in a table of `s` touches no other page of `s`. */
  lemma WriteKeeps(t: Tables, t': Tables, info: map<nat, Info>, info': map<nat, Info>, kernel: nat, s: nat, v: Va,
      pt: nat)
    requires Stratified(t', info', kernel) && Trees(t', info') && Extends(info, info') && Addressable(info, s, v)
    requires s != kernel && SameLeafTables(t, t', info) && OnlyLeaf(t, t', info, pt, v.i1)
    requires EndsAt(t', s, v, pt, v.i1) && pt in info' && info'[pt].owner != kernel
    ensures KeptBut(t, t', info, info', s, Some(v))
  {
    forall w: Va, e: Pte | Cut(w) && w.i4 != RECURSIVE && Owns(t, info, s, w, e) && !SamePage(v, w)
      ensures Owns(t', info', s, w, e)
    {
      var p := LeafTable(t, 4, s, w).value;
      assert EndsAt(t, s, w, p, w.i1) && EndsAt(t', s, w, p, w.i1);
      PrivateSlot(t', info', kernel, s, v, pt, s, w);
    }
  }

  lemma NoWriteKeeps(t: Tables, t': Tables, info: map<nat, Info>, info': map<nat, Info>, s: nat)
    requires Extends(info, info') && s in info && info[s].level == 4
    requires SameLeafTables(t, t', info) && SameLeaves(t, t', info)
    ensures KeptBut(t, t', info, info', s, None)
  {
    forall w: Va, e: Pte | Cut(w) && w.i4 != RECURSIVE && Owns(t, info, s, w, e)
      ensures Owns(t', info', s, w, e)
    {
      OwnsKept(t, t', info, info', s, w, e);
    }
  }

  function NthPage(base: nat, i: nat): Va { VaOf(base + i * PAGE) }

  /** `w` is in none of the `n` pages from `base` on. */
  ghost predicate Outside(base: nat, n: nat, w: Va) { forall i: nat :: i < n ==> !SamePage(NthPage(base, i), w) }

  /** The leaf entries space `s` owned are as before, except those of the range. */
  ghost predicate KeptOutside(t: Tables, t': Tables, info: map<nat, Info>, info': map<nat, Info>, s: nat, base: nat,
      n: nat) {
    forall w: Va, e: Pte {:trigger Owns(t', info', s, w, e)} ::
        Cut(w) && w.i4 != RECURSIVE && Owns(t, info, s, w, e) && Outside(base, n, w) ==> Owns(t', info', s, w, e)
  }

  lemma KeptOutsideStep(t0: Tables, t: Tables, t': Tables, info0: map<nat, Info>, info: map<nat, Info>,
      info': map<nat, Info>, s: nat, base: nat, n: nat, i: nat, ok: bool)
    requires KeptOutside(t0, t, info0, info, s, base, n) && i < n
    requires KeptBut(t, t', info, info', s, if ok then Some(VaOf(base + i * PAGE)) else None)
    ensures KeptOutside(t0, t', info0, info', s, base, n)
  {
    forall w: Va, e: Pte | Cut(w) && w.i4 != RECURSIVE && Owns(t0, info0, s, w, e) && Outside(base, n, w)
      ensures Owns(t', info', s, w, e)
    {
      assert Owns(t, info, s, w, e) && !SamePage(NthPage(base, i), w);
    }
  }

  // ----- loaded pages -----

  /** A frame's entry: exactly the given flags, and the user flag. */
  function FrameEntry(f: nat, flags: Pte): (e: Pte)
    ensures e == UserPage(f * PAGE, flags)
  {
    flags.(frame := f % 0x100_0000_0000, user := true)
  }

  ghost predicate OwnsAll(t: Tables, info: map<nat, Info>, s: nat, base: nat, frames: seq<nat>, flags: Pte) {
    forall k: nat {:trigger frames[k]} :: k < |frames| ==>
      base + k * PAGE < USER_SPACE_END && Owns(t, info, s, VaOf(base + k * PAGE), FrameEntry(frames[k], flags))
  }

  lemma UserAddress(x: nat)
    requires x < USER_SPACE_END
    ensures AddressOf(VaOf(x)) == x && VaOf(x).off == x % PAGE
  {
    VaIsAddress(x);
  }

  lemma SameAddress(v: Va, w: Va)
    requires SamePage(v, w) && v.off == w.off
    ensures AddressOf(v) == AddressOf(w)
  {
  }

  lemma PageOffset(base: nat, i: nat)
    ensures (base + i * PAGE) % PAGE == base % PAGE
  {
  }

  lemma AddressesDiffer(x: nat, y: nat)
    requires x != y && x % PAGE == y % PAGE && x < USER_SPACE_END && y < USER_SPACE_END
    ensures !SamePage(VaOf(x), VaOf(y))
  {
    UserAddress(x);
    UserAddress(y);
    var v, w := VaOf(x), VaOf(y);
    if SamePage(v, w) { SameAddress(v, w); }
  }

  /** Pages of user space at different numbers are different pages. */
  lemma PagesDiffer(base: nat, i: nat, k: nat)
    requires i != k && base + i * PAGE < USER_SPACE_END && base + k * PAGE < USER_SPACE_END
    ensures !SamePage(VaOf(base + i * PAGE), VaOf(base + k * PAGE))
  {
    PageOffset(base, i);
    PageOffset(base, k);
    AddressesDiffer(base + i * PAGE, base + k * PAGE);
  }

  lemma UserRoot(virt: nat)
    requires virt < USER_SPACE_END
    ensures Cut(VaOf(virt)) && VaOf(virt).i4 < 256
  {
  }

  lemma OwnsAllKept(t: Tables, t': Tables, info: map<nat, Info>, info': map<nat, Info>, s: nat, base: nat,
      frames: seq<nat>, flags: Pte)
    requires OwnsAll(t, info, s, base, frames, flags) && KeptBut(t, t', info, info', s, None)
    ensures OwnsAll(t', info', s, base, frames, flags)
  {
    forall k: nat | k < |frames|
      ensures base + k * PAGE < USER_SPACE_END
      ensures Owns(t', info', s, VaOf(base + k * PAGE), FrameEntry(frames[k], flags))
    {
      assert Owns(t, info, s, VaOf(base + k * PAGE), FrameEntry(frames[k], flags));
      UserRoot(base + k * PAGE);
    }
  }

  lemma OwnsAllStep(t: Tables, t': Tables, info: map<nat, Info>, info': map<nat, Info>, s: nat, base: nat,
      frames: seq<nat>, flags: Pte, f: nat)
    requires OwnsAll(t, info, s, base, frames, flags)
    requires KeptBut(t, t', info, info', s, Some(VaOf(base + |frames| * PAGE)))
    requires base + |frames| * PAGE < USER_SPACE_END
    requires Owns(t', info', s, VaOf(base + |frames| * PAGE), FrameEntry(f, flags))
    ensures OwnsAll(t', info', s, base, frames + [f], flags)
  {
    forall k: nat | k < |frames| + 1
      ensures base + k * PAGE < USER_SPACE_END
      ensures Owns(t', info', s, VaOf(base + k * PAGE), FrameEntry((frames + [f])[k], flags))
    {
      if k < |frames| {
        assert Owns(t, info, s, VaOf(base + k * PAGE), FrameEntry(frames[k], flags));
        PagesDiffer(base, |frames|, k);
        UserRoot(base + k * PAGE);
      }
    }
  }

  /** The page of `v` is frame `f`, byte by byte, with exactly the given flags and the user flag. */
  ghost predicate PageIs(t: Tables, s: nat, v: Va, f: nat, flags: Pte) {
    && LeafEntry(t, s, v) == Some(flags.(frame := f % 0x100_0000_0000, user := true))
    && (flags.present && f < 0x100_0000_0000 ==>
        forall w: Va :: Cut(w) && SamePage(v, w) ==> Translate(t, s, w) == Some(f * PAGE + w.off))
  }

  /** The pages from `base` on are the given frames. */
  ghost predicate LoadedAt(t: Tables, s: nat, base: nat, frames: seq<nat>, flags: Pte) {
    forall k: nat {:trigger frames[k]} :: k < |frames| ==> PageIs(t, s, VaOf(base + k * PAGE), frames[k], flags)
  }

  lemma LeafShows(t: Tables, s: nat, v: Va, e: Pte, w: Va)
    requires LeafEntry(t, s, v) == Some(e) && SamePage(v, w)
    ensures Translate(t, s, w) == PageAt(e, w)
  {
    SamePath(t, 4, s, v, w);
    SlotSays(t, 4, s, w, LeafTable(t, 4, s, v).value);
  }

  lemma OwnedIs(t: Tables, info: map<nat, Info>, s: nat, v: Va, f: nat, flags: Pte)
    requires Owns(t, info, s, v, FrameEntry(f, flags))
    ensures PageIs(t, s, v, f, flags)
  {
    forall w: Va | Cut(w) && SamePage(v, w) ensures Translate(t, s, w) == PageAt(FrameEntry(f, flags), w) {
      LeafShows(t, s, v, FrameEntry(f, flags), w);
    }
  }

  lemma OwnedAreLoaded(t: Tables, info: map<nat, Info>, s: nat, base: nat, frames: seq<nat>, flags: Pte)
    requires OwnsAll(t, info, s, base, frames, flags)
    ensures LoadedAt(t, s, base, frames, flags)
  {
    forall k: nat | k < |frames| ensures PageIs(t, s, VaOf(base + k * PAGE), frames[k], flags) {
      OwnedIs(t, info, s, VaOf(base + k * PAGE), frames[k], flags);
    }
  }

  /** The call for page `k` of a load mapped frame `frames[k]` there. */
  ghost predicate MappedAs(calls: seq<Option<Call>>, s: nat, base: nat, frames: seq<nat>, flags: Pte) {
    |frames| <= |calls| && forall k: nat {:trigger frames[k]} ::
        k < |frames| ==> calls[k] == Some(Call(s, VaOf(base + k * PAGE), FrameEntry(frames[k], flags)))
  }

  lemma FilledSpace(t0: Tables, t1: Tables, t2: Tables, info0: map<nat, Info>, info1: map<nat, Info>, root: nat,
      calls: seq<Option<Call>>)
    requires SameMaps(t0, t1, info0) && RanTo(t1, t2, info1, calls) && Extends(info0, info1)
             && AllFor(calls, root) && root !in info0
    ensures SameMaps(t0, t2, info0)
  {
    forall r: nat, w: Va | Addressable(info0, r, w)
      ensures Translate(t2, r, w) == Translate(t0, r, w)
    {
      assert Addressable(info1, r, w);
      Untouched(t1, t2, info1, calls, r, w);
    }
  }

  const CODE_FLAGS := Pte(0, true, false, true, false, 0)
  /** No-execute is bit 63. */
  const STACK_FLAGS := Pte(0, true, true, true, false, 0x8000_0000_0000_0000)

  /** One vmm_map_user_page call. */
  datatype Request = Request(space: nat, virt: nat, phys: nat, flags: Pte)

  function PageRequest(s: nat, base: nat, i: nat, page: nat, flags: Pte): Request
  {
    Request(s, base + i * PAGE, page * PAGE, flags)
  }

  /** The call is for a user space, and its page can be mapped there without touching the kernel's tables. */
  ghost predicate Grantable(t: Tables, info: map<nat, Info>, kernel: nat, q: Request) {
    && q.space != kernel && q.space in info && info[q.space].level == 4
    && (q.virt < USER_SPACE_END ==> Mappable(t, q.space, VaOf(q.virt)))
  }

  /** In a new space the stack pages can be mapped, and the code pages if they can in the kernel's tables. */
  lemma NewSpaceGrants(t: Tables, info: map<nat, Info>, kernel: nat, root: nat, codePages: nat)
    requires Stratified(t, info, kernel) && root !in info && kernel in t && |t[kernel]| == ENTRIES
    requires codePages * PAGE <= USER_SPACE_END - USER_CODE_BASE
    requires forall i: nat :: i < codePages ==> Mappable(t, kernel, VaOf(USER_CODE_BASE + i * PAGE))
    ensures var t', info' := t[root := RootEntries(t[kernel])], info[root := Info(4, root)];
            && (forall i: nat ::
                i < codePages ==> Grantable(t', info', kernel, PageRequest(root, USER_CODE_BASE, i, 0, CODE_FLAGS)))
            && (forall i: nat ::
                i < STACK_PAGES ==> Grantable(t', info', kernel, PageRequest(root, USER_STACK_BASE, i, 0, STACK_FLAGS)))
  {
    var t', info' := t[root := RootEntries(t[kernel])], info[root := Info(4, root)];
    forall i: nat | i < codePages
      ensures Grantable(t', info', kernel, PageRequest(root, USER_CODE_BASE, i, 0, CODE_FLAGS))
    {
      RootMappable(t, info, kernel, root, VaOf(USER_CODE_BASE + i * PAGE));
    }
    forall i: nat | i < STACK_PAGES
      ensures Grantable(t', info', kernel, PageRequest(root, USER_STACK_BASE, i, 0, STACK_FLAGS))
    {
      StackIndex(i);
      RootMappable(t, info, kernel, root, VaOf(USER_STACK_BASE + i * PAGE));
    }
  }

  function CallOf(q: Request): Call { Call(q.space, VaOf(q.virt), UserPage(q.phys, q.flags)) }

  lemma GrantKept(t: Tables, t': Tables, info: map<nat, Info>, info': map<nat, Info>, kernel: nat, q: Request)
    requires Grantable(t, info, kernel, q) && MappableKept(t, t', info) && Extends(info, info')
    ensures Grantable(t', info', kernel, q)
  {
    if q.virt < USER_SPACE_END { assert Addressable(info, q.space, VaOf(q.virt)); }
  }

  lemma OwnedSlot(t: Tables, t': Tables, info: map<nat, Info>, info': map<nat, Info>, kernel: nat, s: nat, v: Va,
      p: nat, e: Pte)
    requires Stratified(t', info', kernel) && Trees(t', info') && Extends(info, info') && Addressable(info, s, v)
    requires Remapped(t, t', info, p, v.i1, e) && EndsAt(t', s, v, p, v.i1) && p in info' && info'[p].owner != kernel
    ensures OnePage(t, t', info, s, v, e)
  {
    forall r: nat, w: Va | Addressable(info, r, w)
      ensures Translate(t', r, w) == if r == s && SamePage(v, w) then PageAt(e, w) else Translate(t, r, w)
    {
      PrivateSlot(t', info', kernel, s, v, p, r, w);
    }
  }

  lemma RemappedAfter(t: Tables, t1: Tables, t2: Tables, info: map<nat, Info>, info1: map<nat, Info>, p: nat, i: nat,
      e: Pte)
    requires SameMaps(t, t1, info) && Remapped(t1, t2, info1, p, i, e) && Extends(info, info1)
    ensures Remapped(t, t2, info, p, i, e)
  {
  }

  /** The tables and the number of frames left at some moment of a run. */
  datatype Moment = Moment(tables: Tables, frames: nat)

  /** The translations changed as call `c` says. */
  ghost predicate Changed(t: Tables, t': Tables, info: map<nat, Info>, c: Option<Call>) {
    match c
    case None => SameMaps(t, t', info)
    case Some(x) => OnePage(t, t', info, x.space, x.page, x.entry)
  }

  lemma StepWithin(t: Tables, t': Tables, info0: map<nat, Info>, info1: map<nat, Info>, c: Option<Call>)
    requires Extends(info0, info1) && Changed(t, t', info1, c)
    ensures Changed(t, t', info0, c)
  {
    forall r: nat, w: Va | Addressable(info0, r, w) ensures Addressable(info1, r, w) {}
  }

  lemma LoadedOne(t0: Tables, t: Tables, t': Tables, info0: map<nat, Info>, info: map<nat, Info>,
      calls: seq<Option<Call>>, c: Option<Call>)
    requires RanTo(t0, t, info0, calls) && Changed(t, t', info, c) && Extends(info0, info)
    requires MappableKept(t0, t, info0) && MappableKept(t, t', info)
    ensures RanTo(t0, t', info0, calls + [c]) && Changed(t, t', info0, c) && MappableKept(t0, t', info0)
  {
    RunStep(t0, t, t', info0, info, calls, c);
    StepWithin(t, t', info0, info, c);
    MappableTrans(t0, t, t', info0, info);
  }

  /** One call of a run: it succeeds exactly when the tables it needs can be made. */
  ghost predicate Granted(m: Moment, q: Request, c: Option<Call>, m': Moment, info: map<nat, Info>) {
    && (c.Some? <==> q.virt < USER_SPACE_END && UserPlan(m.tables, 4, q.space, VaOf(q.virt)).tables <= m.frames)
    && (c.Some? ==> c.value == CallOf(q))
    && m'.frames == PoolAfter(m.tables, m.frames, q.space, q.virt) && Changed(m.tables, m'.tables, info, c)
  }

  /** `trace` runs from `m` to `m'`, one step for every request. */
  ghost predicate Traced(m: Moment, reqs: seq<Request>, calls: seq<Option<Call>>, trace: seq<Moment>, m': Moment,
      info: map<nat, Info>) {
    && |calls| == |reqs| && |trace| == |reqs| + 1 && trace[0] == m && trace[|reqs|] == m'
    && forall k {:trigger calls[k]} :: 0 <= k < |reqs| ==> Granted(trace[k], reqs[k], calls[k], trace[k + 1], info)
  }

  lemma TraceStep(m: Moment, reqs: seq<Request>, calls: seq<Option<Call>>, trace: seq<Moment>, info: map<nat, Info>,
      q: Request, c: Option<Call>, m': Moment)
    requires |trace| > 0 && Traced(m, reqs, calls, trace, trace[|trace| - 1], info)
             && Granted(trace[|trace| - 1], q, c, m', info)
    ensures Traced(m, reqs + [q], calls + [c], trace + [m'], m', info)
  {
  }

  // ----- loading pages -----

  /**
   * One page of a load: a frame for the page, and the tables it needs; without the tables the frame is given back.
   */
  ghost predicate LoadStep(m: Moment, s: nat, virt: nat, c: Option<Call>, m': Moment, info: map<nat, Info>) {
    && (c.Some? <==> virt < USER_SPACE_END && 1 + UserPlan(m.tables, 4, s, VaOf(virt)).tables <= m.frames)
    && m'.frames == FramesLeft(m, s, virt) && Changed(m.tables, m'.tables, info, c)
  }

  function FramesLeft(m: Moment, s: nat, virt: nat): nat {
    if m.frames == 0 then 0
    else
      var left := PoolAfter(m.tables, m.frames - 1, s, virt);
      if virt < USER_SPACE_END && UserPlan(m.tables, 4, s, VaOf(virt)).tables < m.frames then left else left + 1
  }

  ghost predicate LoadTraced(m: Moment, s: nat, base: nat, calls: seq<Option<Call>>, trace: seq<Moment>, m': Moment,
      info: map<nat, Info>) {
    && |trace| == |calls| + 1 && trace[0] == m && trace[|calls|] == m'
    && forall k: nat {:trigger calls[k]} ::
        k < |calls| ==> LoadStep(trace[k], s, base + k * PAGE, calls[k], trace[k + 1], info)
  }

  lemma LoadTraceStep(m: Moment, s: nat, base: nat, calls: seq<Option<Call>>, trace: seq<Moment>, info: map<nat, Info>,
      c: Option<Call>, m': Moment)
    requires |trace| > 0 && LoadTraced(m, s, base, calls, trace, trace[|trace| - 1], info)
    requires LoadStep(trace[|trace| - 1], s, base + |calls| * PAGE, c, m', info)
    ensures LoadTraced(m, s, base, calls + [c], trace + [m'], m', info)
  {
  }

  /** All `n` calls succeeded, or the last one made is the first that did not. */
  ghost predicate Stopped(calls: seq<Option<Call>>, n: nat, ok: bool) {
    && (forall k :: 0 <= k < |calls| && (ok || k < |calls| - 1) ==> calls[k].Some?)
    && if ok then |calls| == n else 0 < |calls| <= n && calls[|calls| - 1].None?
  }

  /** Root entries that no page of the range uses are as before. */
  ghost predicate OtherRoots(t: Tables, t': Tables, s: nat, base: nat, n: nat) {
    forall j: nat {:trigger Entry(t', s, j)} ::
        (forall i: nat :: i < n ==> VaOf(base + i * PAGE).i4 != j) ==> Entry(t', s, j) == Entry(t, s, j)
  }

  /** The pages lie in one 2 MB region of user space. */
  ghost predicate OneRegion(base: nat, n: nat) {
    base + n * PAGE <= USER_SPACE_END && forall i: nat :: i < n ==> SameRegion(VaOf(base), VaOf(base + i * PAGE))
  }

  /** The frames it takes to load `n` pages of one region. */
  function LoadCost(t: Tables, s: nat, base: nat, n: nat): nat {
    if n == 0 then 0 else n + UserPlan(t, 4, s, VaOf(base)).tables
  }

  lemma {:induction false} PlanOfRegion(t: Tables, level: nat, f: nat, v: Va, w: Va)
    requires SameRegion(v, w) && 2 <= level <= 4
    ensures UserPlan(t, level, f, v) == UserPlan(t, level, f, w)
    decreases level
  {
    if level > 2 { PlanOfRegion(t, level - 1, Entry(t, f, Index(v, level)).frame, v, w); }
  }

  /** The load of one region after `i` pages: only the first one needed tables. */
  ghost predicate InRegion(t0: Tables, t: Tables, frames0: nat, frames: nat, s: nat, base: nat, i: nat) {
    frames0 == frames + LoadCost(t0, s, base, i)
        && if i == 0 then t == t0 else UserPlan(t, 4, s, VaOf(base)).tables == 0
  }

  lemma RegionStep(t0: Tables, m: Moment, m': Moment, frames0: nat, s: nat, base: nat, n: nat, i: nat, ok: bool)
    requires OneRegion(base, n) && i < n && InRegion(t0, m.tables, frames0, m.frames, s, base, i)
    requires ok <==>
             base + i * PAGE < USER_SPACE_END && 1 + UserPlan(m.tables, 4, s, VaOf(base + i * PAGE)).tables <= m.frames
    requires m'.frames == FramesLeft(m, s, base + i * PAGE)
    requires ok ==> UserPlan(m'.tables, 4, s, VaOf(base + i * PAGE)).tables == 0
    ensures if ok then InRegion(t0, m'.tables, frames0, m'.frames, s, base, i + 1)
            else LoadCost(t0, s, base, n) > frames0
  {
    assert SameRegion(VaOf(base), VaOf(base + i * PAGE));
    PlanOfRegion(m.tables, 4, s, VaOf(base), VaOf(base + i * PAGE));
    PlanOfRegion(m'.tables, 4, s, VaOf(base), VaOf(base + i * PAGE));
    assert base + i * PAGE < base + n * PAGE;
  }

  /** The load of `n` pages after `i` of them. */
  ghost predicate LoadedSoFar(m0: Moment, m: Moment, info: map<nat, Info>, s: nat, base: nat, n: nat,
                              calls: seq<Option<Call>>, trace: seq<Moment>, i: nat) {
    && LoadTraced(m0, s, base, calls, trace, m, info) && Stopped(calls, i, true)
    && OtherRoots(m0.tables, m.tables, s, base, n)
    && (OneRegion(base, n) ==> InRegion(m0.tables, m.tables, m0.frames, m.frames, s, base, i))
  }

  lemma LoadedNext(m0: Moment, m: Moment, m': Moment, info: map<nat, Info>, s: nat, base: nat, n: nat,
                   calls: seq<Option<Call>>, trace: seq<Moment>, i: nat, c: Option<Call>)
    requires LoadedSoFar(m0, m, info, s, base, n, calls, trace, i) && i < n
    requires LoadStep(m, s, base + i * PAGE, c, m', info)
    requires c.Some? ==> UserPlan(m'.tables, 4, s, VaOf(base + i * PAGE)).tables == 0
    requires forall j: nat :: j != VaOf(base + i * PAGE).i4 ==> Entry(m'.tables, s, j) == Entry(m.tables, s, j)
    ensures LoadTraced(m0, s, base, calls + [c], trace + [m'], m', info)
    ensures OtherRoots(m0.tables, m'.tables, s, base, n)
    ensures if c.Some? then LoadedSoFar(m0, m', info, s, base, n, calls + [c], trace + [m'], i + 1)
            else Stopped(calls + [c], n, false) && (OneRegion(base, n) ==> LoadCost(m0.tables, s, base, n) > m0.frames)
  {
    if OneRegion(base, n) { RegionStep(m0.tables, m, m', m0.frames, s, base, n, i, c.Some?); }
    LoadTraceStep(m0, s, base, calls, trace, info, c, m');
    RootsKept(m0.tables, m.tables, m'.tables, s, base, n, i);
  }

  lemma RootsKept(t0: Tables, t: Tables, t': Tables, s: nat, base: nat, n: nat, i: nat)
    requires OtherRoots(t0, t, s, base, n) && i < n
    requires forall j: nat :: j != VaOf(base + i * PAGE).i4 ==> Entry(t', s, j) == Entry(t, s, j)
    ensures OtherRoots(t0, t', s, base, n)
  {
    forall j: nat | forall k: nat :: k < n ==> VaOf(base + k * PAGE).i4 != j
      ensures Entry(t', s, j) == Entry(t0, s, j)
    {
      assert Entry(t, s, j) == Entry(t0, s, j);
    }
  }

  /** The pages loaded so far: where they are, and where their frames come from. */
  ghost predicate PagesSoFar(t0: Tables, t: Tables, info0: map<nat, Info>, info: map<nat, Info>, pool0: seq<nat>,
      pool: seq<nat>, s: nat, base: nat, n: nat, calls: seq<Option<Call>>, frames: seq<nat>, flags: Pte) {
    && Extends(info0, info) && FreshPool(pool0, info0) && Accounted(pool0, info0, pool, info, frames)
    && OwnsAll(t, info, s, base, frames, flags) && KeptOutside(t0, t, info0, info, s, base, n)
    && MappedAs(calls, s, base, frames, flags) && AllFor(calls, s)
  }

  /** What one call says about the frame `f` it took. */
  ghost predicate LoadedPage(t': Tables, info': map<nat, Info>, s: nat, virt: nat, c: Option<Call>, f: nat,
      flags: Pte) {
    c.Some? ==> && virt < USER_SPACE_END && c.value == Call(s, VaOf(virt), FrameEntry(f, flags))
                && Owns(t', info', s, VaOf(virt), FrameEntry(f, flags))
  }

  function FirstOf(pool: seq<nat>): nat { if pool == [] then 0 else pool[0] }

  lemma MappedNext(calls: seq<Option<Call>>, s: nat, base: nat, frames: seq<nat>, flags: Pte, c: Option<Call>, f: nat)
    requires MappedAs(calls, s, base, frames, flags) && AllFor(calls, s) && |frames| == |calls|
    requires c.Some? ==> c.value == Call(s, VaOf(base + |frames| * PAGE), FrameEntry(f, flags))
    ensures MappedAs(calls + [c], s, base, if c.Some? then frames + [f] else frames, flags) && AllFor(calls + [c], s)
  {
  }

  lemma PagesNext(t0: Tables, t: Tables, t': Tables, info0: map<nat, Info>, info: map<nat, Info>, info': map<nat, Info>,
      pool0: seq<nat>, pool: seq<nat>, pool': seq<nat>, s: nat, base: nat, n: nat, calls: seq<Option<Call>>,
      frames: seq<nat>, flags: Pte, c: Option<Call>)
    requires PagesSoFar(t0, t, info0, info, pool0, pool, s, base, n, calls, frames, flags)
    requires |frames| == |calls| < n && Extends(info, info') && FreshPool(pool', info')
    requires Took(pool, pool', info, info', c.Some?)
    requires LoadedPage(t', info', s, base + |frames| * PAGE, c, FirstOf(pool), flags)
    requires KeptBut(t, t', info, info', s, if c.Some? then Some(VaOf(base + |frames| * PAGE)) else None)
    ensures PagesSoFar(t0, t', info0, info', pool0, pool', s, base, n, calls + [c],
                       if c.Some? then frames + [FirstOf(pool)] else frames, flags)
  {
    AccountedNext(pool0, info0, pool, info, frames, pool', info', c.Some?);
    MappedNext(calls, s, base, frames, flags, c, FirstOf(pool));
    KeptOutsideStep(t0, t, t', info0, info, info', s, base, n, |frames|, c.Some?);
    if c.Some? {
      OwnsAllStep(t, t', info, info', s, base, frames, flags, pool[0]);
    } else {
      OwnsAllKept(t, t', info, info', s, base, frames, flags);
    }
  }

  lemma PagesStart(t: Tables, info: map<nat, Info>, pool: seq<nat>, s: nat, base: nat, n: nat, flags: Pte)
    requires FreshPool(pool, info)
    ensures PagesSoFar(t, t, info, info, pool, pool, s, base, n, [], [], flags)
  {
  }

  // ----- a process's pages -----

  predicate InStack(x: nat) { USER_STACK_BASE <= x < USER_STACK_BASE + STACK_PAGES * PAGE }

  /** The code pages are the given frames, unless the stack lies over them. */
  ghost predicate CodeLoaded(t: Tables, s: nat, code: seq<nat>) {
    forall k: nat {:trigger code[k]} :: k < |code| && !InStack(USER_CODE_BASE + k * PAGE) ==>
      PageIs(t, s, VaOf(USER_CODE_BASE + k * PAGE), code[k], CODE_FLAGS)
  }

  lemma CodeOutside(k: nat)
    requires USER_CODE_BASE + k * PAGE < USER_SPACE_END && !InStack(USER_CODE_BASE + k * PAGE)
    ensures Outside(USER_STACK_BASE, STACK_PAGES, VaOf(USER_CODE_BASE + k * PAGE))
  {
    forall i: nat | i < STACK_PAGES
      ensures !SamePage(NthPage(USER_STACK_BASE, i), VaOf(USER_CODE_BASE + k * PAGE))
    {
      PageOffset(USER_STACK_BASE, i);
      PageOffset(USER_CODE_BASE, k);
      AddressesDiffer(USER_STACK_BASE + i * PAGE, USER_CODE_BASE + k * PAGE);
    }
  }

  /** Loading the stack leaves the code where it does not cover it. */
  lemma CodeStays(t: Tables, t': Tables, info: map<nat, Info>, info': map<nat, Info>, s: nat, code: seq<nat>)
    requires OwnsAll(t, info, s, USER_CODE_BASE, code, CODE_FLAGS)
    requires KeptOutside(t, t', info, info', s, USER_STACK_BASE, STACK_PAGES)
    ensures CodeLoaded(t', s, code)
  {
    forall k: nat | k < |code| && !InStack(USER_CODE_BASE + k * PAGE)
      ensures PageIs(t', s, VaOf(USER_CODE_BASE + k * PAGE), code[k], CODE_FLAGS)
    {
      assert Owns(t, info, s, VaOf(USER_CODE_BASE + k * PAGE), FrameEntry(code[k], CODE_FLAGS));
      UserRoot(USER_CODE_BASE + k * PAGE);
      CodeOutside(k);
      assert Owns(t', info', s, VaOf(USER_CODE_BASE + k * PAGE), FrameEntry(code[k], CODE_FLAGS));
      OwnedIs(t', info', s, VaOf(USER_CODE_BASE + k * PAGE), code[k], CODE_FLAGS);
    }
  }

  /** The `n` pages from `base` on are mapped. */
  ghost predicate Loaded(t: Tables, root: nat, base: nat, n: nat) {
    forall i: nat :: i < n ==> Translate(t, root, VaOf(base + i * PAGE)).Some?
  }

  lemma PageShows(t: Tables, s: nat, v: Va, f: nat, flags: Pte)
    requires PageIs(t, s, v, f, flags) && flags.present
    ensures Translate(t, s, v).Some?
  {
    LeafShows(t, s, v, LeafEntry(t, s, v).value, v);
  }

  lemma StackLoaded(t: Tables, s: nat, stack: seq<nat>, i: nat)
    requires LoadedAt(t, s, USER_STACK_BASE, stack, STACK_FLAGS) && i < |stack|
    ensures Translate(t, s, VaOf(USER_STACK_BASE + i * PAGE)).Some?
  {
    PageShows(t, s, VaOf(USER_STACK_BASE + i * PAGE), stack[i], STACK_FLAGS);
  }

  lemma CodeShown(t: Tables, s: nat, code: seq<nat>, stack: seq<nat>, k: nat)
    requires CodeLoaded(t, s, code) && LoadedAt(t, s, USER_STACK_BASE, stack, STACK_FLAGS) && |stack| == STACK_PAGES
    requires k < |code|
    ensures Translate(t, s, VaOf(USER_CODE_BASE + k * PAGE)).Some?
  {
    var x := USER_CODE_BASE + k * PAGE;
    if InStack(x) {
      StackNumber(x, k);
      StackLoaded(t, s, stack, (x - USER_STACK_BASE) / PAGE);
    } else {
      PageShows(t, s, VaOf(x), code[k], CODE_FLAGS);
    }
  }

  lemma StackNumber(x: nat, k: nat)
    requires x == USER_CODE_BASE + k * PAGE && InStack(x)
    ensures var i := (x - USER_STACK_BASE) / PAGE; i < STACK_PAGES && x == USER_STACK_BASE + i * PAGE
  {
  }

  /** Every code page is mapped, those under the stack as well. */
  lemma AllLoaded(t: Tables, s: nat, code: seq<nat>, stack: seq<nat>)
    requires CodeLoaded(t, s, code) && LoadedAt(t, s, USER_STACK_BASE, stack, STACK_FLAGS) && |stack| == STACK_PAGES
    ensures Loaded(t, s, USER_CODE_BASE, |code|) && Loaded(t, s, USER_STACK_BASE, STACK_PAGES)
  {
    forall i: nat | i < STACK_PAGES ensures Translate(t, s, VaOf(USER_STACK_BASE + i * PAGE)).Some? {
      StackLoaded(t, s, stack, i);
    }
    forall k: nat | k < |code| ensures Translate(t, s, VaOf(USER_CODE_BASE + k * PAGE)).Some? {
      CodeShown(t, s, code, stack, k);
    }
  }

  lemma CodePage(i: nat)
    requires i < 512
    ensures VaOf(USER_CODE_BASE + i * PAGE) == Va(0, 0, 2, i, 0)
  {
  }

  lemma CodeRegion(n: nat)
    requires n <= 512
    ensures OneRegion(USER_CODE_BASE, n)
  {
    CodePage(0);
    forall i: nat | i < n ensures SameRegion(VaOf(USER_CODE_BASE), VaOf(USER_CODE_BASE + i * PAGE)) { CodePage(i); }
  }

  lemma StackPage(i: nat)
    requires i < STACK_PAGES
    ensures VaOf(USER_STACK_BASE + i * PAGE) == Va(255, 511, 511, 494 + i, 0)
  {
  }

  /** The stack lies in one region, whose tables are all missing in a space that only has code. */
  lemma StackRegion(t: Tables, t': Tables, root: nat, codePages: nat)
    requires !Entry(t, root, 255).present && OtherRoots(t, t', root, USER_CODE_BASE, codePages)
    requires codePages * PAGE <= USER_SPACE_END - USER_CODE_BASE
    ensures OneRegion(USER_STACK_BASE, STACK_PAGES)
    ensures codePages <= 512 ==> LoadCost(t', root, USER_STACK_BASE, STACK_PAGES) == STACK_PAGES + 3
  {
    StackPage(0);
    forall i: nat | i < STACK_PAGES
      ensures SameRegion(VaOf(USER_STACK_BASE), VaOf(USER_STACK_BASE + i * PAGE))
    {
      StackPage(i);
    }
    if codePages <= 512 {
      forall i: nat | i < codePages ensures VaOf(USER_CODE_BASE + i * PAGE).i4 != 255 { CodePage(i); }
      assert Entry(t', root, 255) == Entry(t, root, 255);
    }
  }

  /** The frames user_process_create takes: the root, the code and its tables, the stack and its three tables. */
  function SpaceCost(t: Tables, kernel: nat, root: nat, codePages: nat): nat
    requires kernel in t && |t[kernel]| == ENTRIES
  {
    1 + LoadCost(t[root := RootEntries(t[kernel])], root, USER_CODE_BASE, codePages) + STACK_PAGES + 3
  }
}
