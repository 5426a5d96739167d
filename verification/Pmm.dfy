/** The physical page allocator (kernel/mm/pmm.c): a bitmap, a counter and a search hint. */
module Pmm {
  import opened Basics
  import opened Counting

  const MAX_PAGES := 8388608

  /** An E820 entry. */
  datatype Region = Region(base: nat, length: nat, usable: bool)

  // The bounds are 64-bit sums, which may wrap.
  function FirstPage(r: Region): nat { (r.base + PAGE - 1) % TWO_64 / PAGE }
  function EndPage(r: Region): nat { (r.base + r.length) % TWO_64 / PAGE }

  // ----- searching -----

  predicate AllClear(bits: seq<bool>, s: nat, n: nat) { s + n <= |bits| && forall j :: s <= j < s + n ==> !bits[j] }

  /** `n` clear bits in a row somewhere in [from, end). */
  ghost predicate HasRun(bits: seq<bool>, from: nat, end: nat, n: nat) {
    exists s: nat :: from <= s && s + n <= end && AllClear(bits, s, n)
  }

  /** The bit pmm_alloc_page takes. */
  function Chosen(bits: seq<bool>, hint: nat): nat
    requires hint <= |bits|
  {
    var i := FirstClear(bits, hint, |bits|);
    if i < |bits| then i else FirstClear(bits, 0, hint)
  }

  /** It takes none only when none is clear, whatever the hint. */
  lemma ChosenIsFree(bits: seq<bool>, hint: nat)
    requires hint <= |bits|
    ensures Clear(bits) > 0 <==> Chosen(bits, hint) < |bits| && !bits[Chosen(bits, hint)]
    ensures Clear(bits) == 0 <==> forall j :: 0 <= j < |bits| ==> bits[j]
  {
    var i := Chosen(bits, hint);
    if i < |bits| && !bits[i] {
      ClearPositive(bits, i);
    } else {
      ClearZero(bits);
    }
  }

  /** The lowest clear bit at or above the hint; the lowest one of all only if there is none. */
  lemma ChosenIsNext(bits: seq<bool>, hint: nat, j: nat)
    requires hint <= |bits| && j < |bits| && !bits[j]
    ensures j >= hint ==> hint <= Chosen(bits, hint) <= j
    ensures (forall k :: hint <= k < |bits| ==> bits[k]) ==> Chosen(bits, hint) <= j
  {
  }

  /** Page zero is free, and the search comes to it before any other free page. */
  predicate ZeroNext(bits: seq<bool>, hint: nat)
  {
    |bits| > 0 && !bits[0] && (hint == 0 || forall j :: hint <= j < |bits| ==> bits[j])
  }

  lemma ZeroChosenIff(bits: seq<bool>, hint: nat)
    requires hint <= |bits| && Clear(bits) > 0
    ensures Chosen(bits, hint) == 0 <==> ZeroNext(bits, hint)
  {
    ChosenIsFree(bits, hint);
  }

  // ----- the memory map -----

  /** The pages of the usable regions below the limit, in the order they are visited. */
  function Visited(regions: seq<Region>): seq<nat> {
    if regions == [] then []
    else Visited(regions[..|regions| - 1]) + PagesOf(regions[|regions| - 1])
  }

  function PagesOf(r: Region): seq<nat> {
    if r.usable && FirstPage(r) < EndPage(r) then Pages(FirstPage(r), EndPage(r)) else []
  }

  function Pages(from: nat, end: nat): seq<nat>
    requires from <= end
    decreases end - from
  {
    if from == end then [] else Pages(from, end - 1) + (if end - 1 < MAX_PAGES then [end - 1] else [])
  }

  /** Page `q` lies wholly inside the region. */
  predicate Whole(r: Region, q: nat) { r.base <= q * PAGE && (q + 1) * PAGE <= r.base + r.length }

  /** Neither sum the bounds are computed from wraps. */
  predicate NoWrap(r: Region) { r.base + PAGE - 1 < TWO_64 && r.base + r.length < TWO_64 }

  /** A wrapped start frees pages below a region at the top of memory; a wrapped end alone frees none. */
  predicate Misread(r: Region) {
    if r.base + PAGE - 1 >= TWO_64 then (r.base + r.length) % TWO_64 >= PAGE
    else r.base + r.length >= TWO_64 && r.base <= (MAX_PAGES - 1) * PAGE
  }

  lemma {:induction false} PagesAre(from: nat, end: nat, q: nat)
    requires from <= end
    ensures q in Pages(from, end) <==> from <= q < end && q < MAX_PAGES
    decreases end - from
  {
    if from < end { PagesAre(from, end - 1, q); }
  }

  lemma BoundsAre(r: Region, q: nat)
    requires NoWrap(r)
    ensures FirstPage(r) <= q < EndPage(r) <==> Whole(r, q)
  {
  }

  /** The pages freed for a usable region are the whole pages inside it, as far as the bitmap goes. */
  lemma PagesOfRegion(r: Region, q: nat)
    requires r.usable && NoWrap(r) && q < MAX_PAGES
    ensures q in PagesOf(r) <==> Whole(r, q)
  {
    BoundsAre(r, q);
    if FirstPage(r) < EndPage(r) { PagesAre(FirstPage(r), EndPage(r), q); }
  }

  /** With 64-bit bounds, that is so exactly when no sum wraps in a way that matters. */
  lemma WholePagesIff(r: Region)
    requires r.usable && r.base < TWO_64 && r.length < TWO_64
    ensures (forall q: nat :: q < MAX_PAGES ==> (q in PagesOf(r) <==> Whole(r, q))) <==> !Misread(r)
  {
    if NoWrap(r) {
      forall q: nat | q < MAX_PAGES ensures q in PagesOf(r) <==> Whole(r, q) { PagesOfRegion(r, q); }
    } else if r.base + PAGE - 1 >= TWO_64 {
      WrappedStart(r);
    } else {
      WrappedEnd(r);
    }
  }

  lemma WrappedStart(r: Region)
    requires r.usable && r.base < TWO_64 && r.length < TWO_64 && r.base + PAGE - 1 >= TWO_64
    ensures (forall q: nat :: q < MAX_PAGES ==> (q in PagesOf(r) <==> Whole(r, q))) <==> !Misread(r)
  {
    assert FirstPage(r) == 0;
    if Misread(r) {
      PagesAre(0, EndPage(r), 0);
      assert 0 in PagesOf(r) && !Whole(r, 0);
    } else {
      assert PagesOf(r) == [];
    }
  }

  lemma WrappedEnd(r: Region)
    requires r.usable && r.base + PAGE - 1 < TWO_64 && r.length < TWO_64 && r.base + r.length >= TWO_64
    ensures (forall q: nat :: q < MAX_PAGES ==> (q in PagesOf(r) <==> Whole(r, q))) <==> !Misread(r)
  {
    assert EndPage(r) <= FirstPage(r) && PagesOf(r) == [];
    if Misread(r) { assert MAX_PAGES - 1 !in PagesOf(r) && Whole(r, MAX_PAGES - 1); }
  }

  /** Some usable region holds all of page `q`. */
  ghost predicate UsablePage(regions: seq<Region>, q: nat) {
    exists i :: 0 <= i < |regions| && regions[i].usable && Whole(regions[i], q)
  }

  lemma {:induction false} VisitedAre(regions: seq<Region>, q: nat)
    requires q < MAX_PAGES && forall i :: 0 <= i < |regions| && regions[i].usable ==> NoWrap(regions[i])
    ensures q in Visited(regions) <==> UsablePage(regions, q)
  {
    if regions != [] {
      var n := |regions| - 1;
      VisitedAre(regions[..n], q);
      if regions[n].usable { PagesOfRegion(regions[n], q); }
      assert UsablePage(regions, q) <==>
             UsablePage(regions[..n], q) || (regions[n].usable && Whole(regions[n], q));
    }
  }

  /** The bitmap after clearing the visited pages of a full one. */
  ghost predicate Cleared(bits: seq<bool>, visited: seq<nat>) {
    |bits| == MAX_PAGES && forall q :: 0 <= q < MAX_PAGES ==> (bits[q] <==> q !in visited)
  }

  /** Clearing page by page: the counter runs ahead of the bitmap by one for every page met twice. */
  lemma {:induction false} VisitCounts(bits: seq<bool>, visited: seq<nat>)
    requires Cleared(bits, visited) && forall k :: 0 <= k < |visited| ==> visited[k] < MAX_PAGES
    ensures Clear(bits) <= |visited|
    ensures Clear(bits) == |visited| <==> Distinct(visited)
    decreases |visited|
  {
    if visited == [] {
      ClearZero(bits);
    } else {
      var n := |visited| - 1;
      var p, rest := visited[n], visited[..n];
      var before := if p in rest then bits else bits[p := true];
      forall q | 0 <= q < MAX_PAGES
        ensures before[q] <==> q !in rest
      {
        assert q in visited <==> q in rest || q == p;
      }
      VisitCounts(before, rest);
      if p in rest {
        var k :| 0 <= k < n && visited[k] == p;
        assert !Distinct(visited);
      } else {
        ClearUpdate(bits, p, true);
        assert Distinct(rest) ==> Distinct(visited) by {
          forall i, j | 0 <= i < j < |visited| && Distinct(rest)
            ensures visited[i] != visited[j]
          {
            if j < n { assert rest[i] != rest[j]; } else { assert rest[i] == visited[i]; }
          }
        }
        assert Distinct(visited) ==> Distinct(rest);
      }
    }
  }

  const PAGE_ZERO := Region(0, PAGE, true)

  lemma VisitedTwice()
    ensures Visited([PAGE_ZERO, PAGE_ZERO]) == [0, 0]
  {
    var r := PAGE_ZERO;
    assert FirstPage(r) == 0 && EndPage(r) == 1 && Pages(0, 1) == Pages(0, 0) + [0];
    assert [r, r][..1] == [r] && [r][..0] == [];
    assert Visited([r]) == Visited([]) + PagesOf(r);
  }

  /** What the next allocation depends on. */
  datatype Snapshot = Snapshot(bits: seq<bool>, hint: nat)

  ghost predicate TookOne(s: Snapshot, addr: nat, s': Snapshot)
    requires s.hint <= |s.bits|
  {
    if Clear(s.bits) == 0 then addr == 0 && s' == s
    else
      var pfn := Chosen(s.bits, s.hint);
      pfn < |s.bits| && !s.bits[pfn] && addr == pfn * PAGE && s' == Snapshot(s.bits[pfn := true], pfn + 1)
  }

  /** The bitmap with pages [s, s + n) taken, as far as they exist. */
  function Reserved(bits: seq<bool>, s: nat, n: nat): seq<bool> {
    seq(|bits|, q requires 0 <= q < |bits| => bits[q] || s <= q < s + n)
  }

  ghost predicate FirstRun(s: Snapshot, from: nat, end: nat, n: nat, addr: nat, s': Snapshot)
    requires from <= end <= |s.bits| && n > 0
  {
    && addr % PAGE == 0
    && var start := addr / PAGE;
    && from <= start && start + n <= end && AllClear(s.bits, start, n) && !HasRun(s.bits, from, start + n - 1, n)
    && s' == Snapshot(Reserved(s.bits, start, n), start + n)
  }

  /** The first run at or above the hint, or else the first below it. */
  ghost predicate TookRun(s: Snapshot, n: nat, addr: nat, s': Snapshot)
    requires s.hint <= |s.bits| && n > 0
  {
    if HasRun(s.bits, s.hint, |s.bits|, n) then FirstRun(s, s.hint, |s.bits|, n, addr, s')
    else if HasRun(s.bits, 0, s.hint, n) then FirstRun(s, 0, s.hint, n, addr, s')
    else addr == 0 && s' == s
  }

  /** A call of the allocator. */
  datatype Call = Alloc | AllocRun(count: nat) | Free(addr: nat) | FreeRun(addr: nat,
      count: nat) | Reserve(addr: nat) | Unreserve(addr: nat)

  /** The bitmap with pages [s, s + n) free, as far as they exist. */
  function Released(bits: seq<bool>, s: nat, n: nat): seq<bool> {
    seq(|bits|, q requires 0 <= q < |bits| => bits[q] && !(s <= q < s + n))
  }

  /** The hint moves down to the lowest page that became free, if that is below it. */
  ghost predicate HintAfterFree(s: Snapshot, s': Snapshot)
    requires |s'.bits| == |s.bits|
  {
    && s'.hint <= s.hint && (forall q :: 0 <= q < |s.bits| && s'.bits[q] != s.bits[q] ==> s'.hint <= q)
    && (s'.hint < s.hint ==> s'.hint < |s.bits| && s'.bits[s'.hint] != s.bits[s'.hint])
  }

  /** The bitmap after pmm_free_pages has freed `n` pages from `addr` on; address zero is never freed. */
  function Freed(bits: seq<bool>, addr: nat, n: nat): seq<bool> {
    if addr == 0 && n > 0 then Released(bits, 1, n - 1) else Released(bits, addr / PAGE, n)
  }

  lemma FreedStep(s: Snapshot, t: Snapshot, t': Snapshot, addr: nat, n: nat)
    requires t.bits == Freed(s.bits, addr, n) && HintAfterFree(s, t)
    requires t'.bits == Released(t.bits, addr / PAGE + n, if addr + n * PAGE == 0 then 0 else 1)
    requires t'.hint == if t'.bits != t.bits && addr / PAGE + n < t.hint then addr / PAGE + n else t.hint
    ensures t'.bits == Freed(s.bits, addr, n + 1) && HintAfterFree(s, t')
  {
    assert t'.bits != t.bits ==> addr / PAGE + n < |t.bits| && t'.bits[addr / PAGE + n] != t.bits[addr / PAGE + n];
  }

  /** One call answered with `addr`. */
  ghost predicate Stepped(s: Snapshot, c: Call, addr: nat, s': Snapshot) {
    && s.hint <= |s.bits|
    && match c
       case Alloc => TookOne(s, addr, s')
       case AllocRun(n) => if n == 0 then addr == 0
           && s' == s else if n == 1 then TookOne(s, addr, s') else TookRun(s, n, addr, s')
       case Free(a) =>
         && s'.bits == Released(s.bits, a / PAGE, if a == 0 then 0 else 1)
         && s'.hint == if s'.bits != s.bits && a / PAGE < s.hint then a / PAGE else s.hint
       case FreeRun(a, n) =>
         && s'.bits == Freed(s.bits, a, n)
         && HintAfterFree(s, s')
       case Reserve(a) => s' == Snapshot(Reserved(s.bits, a / PAGE, 1), s.hint)
       case Unreserve(a) => s' == Snapshot(Released(s.bits, a / PAGE, 1), s.hint)
  }

  /** `trace` runs from `s` to `s'`, one step for every call and its answer. */
  ghost predicate Served(s: Snapshot, calls: seq<Call>, addrs: seq<nat>, trace: seq<Snapshot>, s': Snapshot) {
    && |addrs| == |calls| && |trace| == |calls| + 1 && trace[0] == s && trace[|calls|] == s'
    && forall k {:trigger calls[k]} :: 0 <= k < |calls| ==> Stepped(trace[k], calls[k], addrs[k], trace[k + 1])
  }

  lemma ServedStep(s: Snapshot, calls: seq<Call>, addrs: seq<nat>, trace: seq<Snapshot>, c: Call, a: nat, s': Snapshot)
    requires |trace| > 0 && Served(s, calls, addrs, trace, trace[|trace| - 1])
    requires Stepped(trace[|trace| - 1], c, a, s')
    ensures Served(s, calls + [c], addrs + [a], trace + [s'], s')
  {
  }

  /** The call does not clear the bit of page zero; freeing address zero is ignored, freeing 1 to 4095 is not. */
  predicate SparesZero(c: Call) {
    match c
    case Free(addr) => addr == 0 || addr >= PAGE
    case FreeRun(addr, count) => addr == 0 || addr >= PAGE || count == 0
    case Unreserve(addr) => addr >= PAGE
    case _ => true
  }

  lemma ReserveJoin(bits: seq<bool>, s: nat, n: nat, k: nat)
    ensures Reserved(Reserved(bits, s, n), s + n, k) == Reserved(bits, s, n + k)
  {
  }

  /** Freeing what was allocated gives the bitmap back. */
  lemma FreeUndoesAlloc(bits: seq<bool>, s: nat, n: nat)
    requires AllClear(bits, s, n)
    ensures Released(Reserved(bits, s, n), s, n) == bits
  {
  }

  /** While page zero is reserved, a zero result means that nothing was free. */
  lemma ZeroMeansFull(bits: seq<bool>, hint: nat)
    requires hint <= |bits| && |bits| > 0 && bits[0]
    ensures Clear(bits) == 0 || Chosen(bits, hint) == 0 <==> Clear(bits) == 0
  {
  }

  /** With page zero free and the hint at zero, it is handed out as address zero, as if memory were full. */
  lemma PageZeroLooksFull(bits: seq<bool>)
    requires |bits| > 0 && !bits[0]
    ensures Clear(bits) > 0 && Chosen(bits, 0) == 0
  {
  }

  lemma {:induction false} PagesBelow(from: nat, end: nat)
    requires from <= end
    ensures forall k :: 0 <= k < |Pages(from, end)| ==> Pages(from, end)[k] < MAX_PAGES
    decreases end - from
  {
    if from < end { PagesBelow(from, end - 1); }
  }

  lemma {:induction false} VisitedBelow(regions: seq<Region>)
    ensures forall k :: 0 <= k < |Visited(regions)| ==> Visited(regions)[k] < MAX_PAGES
  {
    if regions != [] {
      VisitedBelow(regions[..|regions| - 1]);
      var r := regions[|regions| - 1];
      if r.usable && FirstPage(r) < EndPage(r) { PagesBelow(FirstPage(r), EndPage(r)); }
    }
  }

  class PageAllocator {
    var bits: seq<bool>
    var freeCount: int
    var hint: nat
    var reserved: nat
    /** How far the counter is ahead of the bitmap; settled when the memory map is read. */
    ghost var surplus: nat

    ghost predicate Valid()
      reads this
    {
      |bits| == MAX_PAGES && hint <= MAX_PAGES && freeCount == Clear(bits) + surplus
    }

    method ClearRegion(r: Region, ghost visited: seq<nat>) returns (ghost visited': seq<nat>)
      requires Cleared(bits, visited) && freeCount == |visited| && r.usable && FirstPage(r) < EndPage(r)
      modifies this`bits, this`freeCount
      ensures visited' == visited + PagesOf(r) && Cleared(bits, visited') && freeCount == |visited'|
    {
      var pfn := FirstPage(r);
      visited' := visited;
      while pfn < EndPage(r)
        invariant FirstPage(r) <= pfn <= EndPage(r)
        invariant visited' == visited + Pages(FirstPage(r), pfn) && Cleared(bits, visited') && freeCount == |visited'|
      {
        if pfn < MAX_PAGES {
          bits := bits[pfn := false];
          freeCount := freeCount + 1;
          visited' := visited' + [pfn];
        }
        pfn := pfn + 1;
      }
    }

    /** pmm_init reads the memory map: the counter is exact exactly when no page is in two usable regions. */
    constructor (regions: seq<Region>)
      ensures Valid() && Cleared(bits, Visited(regions)) && freeCount == |Visited(regions)| && reserved == 0
      ensures hint == 0
      ensures surplus == 0 <==> Distinct(Visited(regions))
      ensures (forall i :: 0 <= i < |regions| && regions[i].usable ==> NoWrap(regions[i])) ==>
                forall q: nat :: q < MAX_PAGES ==> (!bits[q] <==> UsablePage(regions, q))
    {
      bits := seq(MAX_PAGES, i => true);
      freeCount, hint, reserved := 0, 0, 0;
      new;
      ghost var visited := [];
      for i := 0 to |regions|
        invariant visited == Visited(regions[..i]) && Cleared(bits, visited) && freeCount == |visited|
        invariant reserved == 0 && hint == 0
      {
        assert regions[..i + 1][..i] == regions[..i];
        if regions[i].usable && FirstPage(regions[i]) < EndPage(regions[i]) {
          visited := ClearRegion(regions[i], visited);
        }
      }
      assert regions[..|regions|] == regions;
      VisitedBelow(regions);
      VisitCounts(bits, visited);
      surplus := |visited| - Clear(bits);
      if forall i :: 0 <= i < |regions| && regions[i].usable ==> NoWrap(regions[i]) {
        forall q: nat | q < MAX_PAGES ensures !bits[q] <==> UsablePage(regions, q) { VisitedAre(regions, q); }
      }
    }

    /** The rest of pmm_init: reserve the first four megabytes and set the hint. */
    method ReserveSystem()
      requires Valid()
      modifies this`bits, this`freeCount, this`hint, this`reserved
      ensures Valid() && bits == Reserved(old(bits), 0, 1024)
      ensures reserved - old(reserved) == old(freeCount) - freeCount
      ensures hint < MAX_PAGES && (Clear(bits) > 0 ==> hint == FirstClear(bits, 0, MAX_PAGES))
    {
      ghost var b := bits;
      assert Reserved(b, 0, 0) == b;
      ReserveMegabyte(0, b);
      ReserveMegabyte(1, b);
      ReserveMegabyte(2, b);
      ReserveMegabyte(3, b);
      hint := 0;
      var pfn := Scan(0, MAX_PAGES);
      if pfn < MAX_PAGES {
        hint := pfn;
      } else {
        ClearZero(bits);
      }
    }

    method ReserveMegabyte(k: nat, ghost b: seq<bool>)
      requires Valid() && bits == Reserved(b, 0, 256 * k)
      modifies this`bits, this`freeCount, this`reserved
      ensures Valid() && bits == Reserved(b, 0, 256 * (k + 1))
      ensures reserved - old(reserved) == old(freeCount) - freeCount
    {
      ReserveJoin(b, 0, 256 * k, 256);
      ReservePages(k * 0x10_0000, 256);
    }

    method Scan(from: nat, end: nat) returns (pfn: nat)
      requires Valid() && from <= end <= MAX_PAGES
      ensures pfn == FirstClear(bits, from, end)
    {
      pfn := from;
      while pfn < end && bits[pfn]
        invariant from <= pfn <= FirstClear(bits, from, end)
      {
        pfn := pfn + 1;
      }
    }

    // ----- allocation -----

    method Take(pfn: nat)
      requires Valid() && pfn < MAX_PAGES && !bits[pfn]
      modifies this`bits, this`freeCount, this`hint
      ensures Valid() && bits == old(bits)[pfn := true] && hint == pfn + 1 && freeCount == old(freeCount) - 1
    {
      ClearUpdate(bits, pfn, true);
      bits := bits[pfn := true];
      freeCount := freeCount - 1;
      hint := pfn + 1;
    }

    /** The address of the page, or zero. */
    method AllocPage() returns (addr: nat)
      requires Valid()
      modifies this`bits, this`freeCount, this`hint
      ensures Valid()
      ensures addr == 0 <==> Clear(old(bits)) == 0 || ZeroNext(old(bits), old(hint))
      ensures Clear(old(bits)) == 0 ==> bits == old(bits) && freeCount == old(freeCount) && hint == old(hint)
      ensures Clear(old(bits)) > 0 ==>
                var pfn := Chosen(old(bits), old(hint));
                pfn < MAX_PAGES && !old(bits)[pfn] && addr == pfn * PAGE && bits == old(bits)[pfn := true]
                    && freeCount == old(freeCount) - 1 && hint == pfn + 1
    {
      ChosenIsFree(bits, hint);
      if Clear(bits) > 0 { ZeroChosenIff(bits, hint); }
      var pfn := Scan(hint, MAX_PAGES);
      if pfn == MAX_PAGES {
        pfn := Scan(0, hint);
        if pfn == hint {
          return 0;
        }
      }
      Take(pfn);
      addr := pfn * PAGE;
    }

    /** The first run of `n` clear bits in [from, end). */
    method FindRun(from: nat, end: nat, n: nat) returns (ok: bool, start: nat)
      requires Valid() && from <= end <= MAX_PAGES && n > 0
      ensures ok <==> HasRun(bits, from, end, n)
      ensures ok ==>
              from <= start && start + n <= end && AllClear(bits, start, n) && !HasRun(bits, from, start + n - 1, n)
    {
      var pfn, found := from, 0;
      start := 0;
      while pfn < end && found < n
        invariant from + found <= pfn <= end && found <= n
        invariant found > 0 ==> start == pfn - found
        invariant forall j :: pfn - found <= j < pfn ==> !bits[j]
        invariant forall s: nat :: from <= s < pfn - found && s + n <= end ==> !AllClear(bits, s, n)
      {
        if !bits[pfn] {
          if found == 0 {
            start := pfn;
          }
          found := found + 1;
        } else {
          forall s: nat | pfn - found <= s <= pfn && s + n <= end
            ensures !AllClear(bits, s, n)
          {
            assert s <= pfn < s + n;
          }
          found := 0;
        }
        pfn := pfn + 1;
      }
      ok := found == n;
      assert ok ==> AllClear(bits, pfn - n, n);
    }

    method MarkRun(start: nat, n: nat)
      requires Valid() && AllClear(bits, start, n)
      modifies this`bits, this`freeCount, this`hint
      ensures Valid() && bits == Reserved(old(bits), start, n) && freeCount == old(freeCount) - n && hint == start + n
    {
      ghost var b := bits;
      for i := 0 to n
        invariant freeCount == old(freeCount) && bits == Reserved(b, start, i) && Clear(bits) == Clear(b) - i
      {
        ClearUpdate(bits, start + i, true);
        bits := bits[start + i := true];
      }
      freeCount := freeCount - n;
      hint := start + n;
    }

    /** pmm_alloc_pages: a run wholly at or above the hint, or else wholly below it. */
    method AllocPages(count: nat) returns (addr: nat)
      requires Valid()
      modifies this`bits, this`freeCount, this`hint
      ensures Valid() && Stepped(old(State()), AllocRun(count), addr, State())
    {
      if count == 0 {
        return 0;
      }
      if count == 1 {
        addr := AllocPage();
        return;
      }
      var ok, start := FindRun(hint, MAX_PAGES, count);
      if !ok {
        ok, start := FindRun(0, hint, count);
      }
      if !ok {
        return 0;
      }
      MarkRun(start, count);
      addr := start * PAGE;
    }

    // ----- release -----

    method FreePage(addr: nat)
      requires Valid()
      modifies this`bits, this`freeCount, this`hint
      ensures Valid() && bits == Released(old(bits), addr / PAGE, if addr == 0 then 0 else 1)
      ensures freeCount - old(freeCount) == Clear(bits) - Clear(old(bits))
      ensures hint == if bits != old(bits) && addr / PAGE < old(hint) then addr / PAGE else old(hint)
    {
      if addr == 0 {
        return;
      }
      var pfn := addr / PAGE;
      if pfn >= MAX_PAGES || !bits[pfn] {
        return;
      }
      ClearUpdate(bits, pfn, false);
      bits := bits[pfn := false];
      freeCount := freeCount + 1;
      if pfn < hint {
        hint := pfn;
      }
    }

    /** Every page of the range is free afterwards, except that address zero is never freed. */
    method FreePages(addr: nat, count: nat)
      requires Valid()
      modifies this`bits, this`freeCount, this`hint
      ensures Valid()
      ensures bits == Freed(old(bits), addr, count) && HintAfterFree(old(State()), State())
    {
      for i := 0 to count
        invariant Valid() && bits == Freed(old(bits), addr, i) && HintAfterFree(old(State()), State())
      {
        ghost var t := State();
        FreePage(addr + i * PAGE);
        FreedStep(old(State()), t, State(), addr, i);
      }
    }

    // ----- reservation -----

    method ReservePage(addr: nat)
      requires Valid()
      modifies this`bits, this`freeCount, this`reserved
      ensures Valid() && bits == Reserved(old(bits), addr / PAGE, 1)
      ensures reserved - old(reserved) == old(freeCount) - freeCount
    {
      var pfn := addr / PAGE;
      if pfn >= MAX_PAGES {
        return;
      }
      if !bits[pfn] {
        ClearUpdate(bits, pfn, true);
        bits := bits[pfn := true];
        freeCount := freeCount - 1;
        reserved := reserved + 1;
      }
    }

    method ReservePages(addr: nat, count: nat)
      requires Valid()
      modifies this`bits, this`freeCount, this`reserved
      ensures Valid() && bits == Reserved(old(bits), addr / PAGE, count)
      ensures reserved - old(reserved) == old(freeCount) - freeCount
    {
      ghost var b := bits;
      for i := 0 to count
        invariant Valid() && bits == Reserved(b, addr / PAGE, i)
        invariant reserved - old(reserved) == old(freeCount) - freeCount
      {
        ReservePage(addr + i * PAGE);
      }
    }

    method UnreservePage(addr: nat)
      requires Valid()
      modifies this`bits, this`freeCount, this`reserved
      ensures Valid() && bits == Released(old(bits), addr / PAGE, 1)
      ensures reserved == if bits != old(bits) && old(reserved) > 0 then old(reserved) - 1 else old(reserved)
    {
      var pfn := addr / PAGE;
      if pfn >= MAX_PAGES {
        return;
      }
      if bits[pfn] {
        ClearUpdate(bits, pfn, false);
        bits := bits[pfn := false];
        freeCount := freeCount + 1;
        if reserved > 0 {
          reserved := reserved - 1;
        }
      }
    }

    // ----- runs -----

    ghost function State(): Snapshot
      reads this`bits, this`hint
    {
      Snapshot(bits, hint)
    }

    method Do(c: Call) returns (addr: nat)
      requires Valid()
      modifies this`bits, this`freeCount, this`hint, this`reserved
      ensures Valid() && Stepped(old(State()), c, addr, State())
      ensures old(bits)[0] ==> (bits[0] <==> SparesZero(c))
      ensures c.Alloc? ==> (addr == 0 <==> Clear(old(bits)) == 0 || ZeroNext(old(bits), old(hint)))
    {
      addr := 0;
      match c
      case Alloc => addr := AllocPage();
      case AllocRun(count) => addr := AllocPages(count);
      case Free(a) => FreePage(a);
      case FreeRun(a, count) => FreePages(a, count);
      case Reserve(a) => ReservePage(a);
      case Unreserve(a) => UnreservePage(a);
    }

    /**
     * Any run of calls that spares page zero, starting with page zero reserved: an allocation answers zero
     * exactly when no page is free at that moment, and the counter stays as far ahead of the bitmap as it was.
     * `trace` has the state before every call, and the last one.
     */
    method Serve(calls: seq<Call>) returns (addrs: seq<nat>, ghost trace: seq<Snapshot>)
      requires Valid() && bits[0] && forall k :: 0 <= k < |calls| ==> SparesZero(calls[k])
      modifies this`bits, this`freeCount, this`hint, this`reserved
      ensures Valid() && bits[0] && freeCount - Clear(bits) == old(freeCount - Clear(bits))
      ensures Served(old(State()), calls, addrs, trace, State())
      ensures forall k :: 0 <= k < |calls| && calls[k].Alloc? ==> (addrs[k] == 0 <==> Clear(trace[k].bits) == 0)
    {
      addrs, trace := [], [State()];
      for i := 0 to |calls|
        invariant Valid() && bits[0] && Served(old(State()), calls[..i], addrs, trace, State())
        invariant forall k :: 0 <= k < i && calls[k].Alloc? ==> (addrs[k] == 0 <==> Clear(trace[k].bits) == 0)
      {
        assert calls[..i + 1] == calls[..i] + [calls[i]];
        var a := Do(calls[i]);
        ServedStep(old(State()), calls[..i], addrs, trace, calls[i], a, State());
        addrs, trace := addrs + [a], trace + [State()];
      }
      assert calls[..|calls|] == calls;
    }
  }

  /** One page in two usable regions: it is counted twice. */
  method PageCountedTwice() returns (a: PageAllocator)
    ensures a.Valid() && a.freeCount == 2 && Clear(a.bits) == 1
  {
    VisitedTwice();
    a := new PageAllocator([PAGE_ZERO, PAGE_ZERO]);
    ClearPositive(a.bits, 0);
    VisitCounts(a.bits, [0, 0]);
    assert [0, 0][0] == [0, 0][1];
  }
}
