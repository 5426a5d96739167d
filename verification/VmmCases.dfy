/**
 * Three runs from the boot loader's tables: a user process is created, a failed vmm_map_range loses a mapping,
 * and a user page lands in the kernel's heap.
 */
module VmmCases {
  import opened Basics
  import HeapSpec
  import opened VmmSpec
  import opened VmmPaths
  import opened VmmRuns
  import opened Vmm

  const HEAP_START: nat := HeapSpec.HEAP_START
  /** The last page of the 2 MB around the heap's first page. */
  const LAST_SPLIT: nat := 0xFFFF_FFFF_811F_F000

  // The walks of HEAP_START, LAST_SPLIT, the page after it, and of 16 MB.
  const HEAP_VA := Va(511, 510, 8, 0, 0)
  const LAST_VA := Va(511, 510, 8, 511, 0)
  const NEXT_VA := Va(511, 510, 9, 0, 0)
  const USER_VA := Va(0, 0, 8, 0, 0)

  lemma Addresses()
    ensures VaOf(HEAP_START) == HEAP_VA && VaOf(LAST_SPLIT) == LAST_VA && VaOf(0x100_0000) == USER_VA
    ensures PageOf(LAST_SPLIT, 0) == LAST_VA && PageOf(LAST_SPLIT, 1) == NEXT_VA
  {
  }

  const RW := Pte(0, true, true, false, false, 0)

  /** The kernel's root, the first frame the allocator hands out. */
  const ROOT: nat := 16

  /** Root 16 over the boot tables; the page directory may since have lost its page `split`. */
  ghost predicate Booted(t: Tables, split: nat) {
    && Entry(t, ROOT, 0) == KernelLink(BOOT_PDPT) && Entry(t, ROOT, 511) == KernelLink(BOOT_PDPT)
    && Entry(t, BOOT_PDPT, 0) == KernelLink(BOOT_PD) && Entry(t, BOOT_PDPT, 510) == KernelLink(BOOT_PD)
    && (forall i: nat {:trigger Entry(t, BOOT_PD, i)} ::
        i < 32 && i != split ==> Entry(t, BOOT_PD, i) == Pte(i * 512, true, true, false, true, 0))
  }

  /** The two places at which the first 64 MB appear. */
  predicate Window(v: Va) { Cut(v) && v.i2 < 32 && ((v.i4 == 0 && v.i3 == 0) || (v.i4 == 511 && v.i3 == 510)) }

  lemma WindowWays(t: Tables, split: nat, v: Va)
    requires Booted(t, split) && Window(v)
    ensures TableAt(t, 4, ROOT, v, 3) == Some(BOOT_PDPT) && TableAt(t, 4, ROOT, v, 2) == Some(BOOT_PD)
    ensures LeafTable(t, 4, ROOT, v) == LeafTable(t, 2, BOOT_PD, v) && Needed(t, 4, ROOT, v) == Needed(t, 2, BOOT_PD, v)
    ensures !Giant(t, ROOT, v) && PdEntry(t, ROOT, v) == Entry(t, BOOT_PD, v.i2)
    ensures v.i2 != split ==> Translate(t, ROOT, v) == Some(v.i2 * 0x20_0000 + v.i1 * PAGE + v.off)
  {
    assert WalkFrom(t, 4, ROOT, v) == WalkFrom(t, 3, BOOT_PDPT, v) == WalkFrom(t, 2, BOOT_PD, v);
    if v.i2 != split {
      assert Entry(t, BOOT_PD, v.i2) == Pte(v.i2 * 512, true, true, false, true, 0);
      assert v.i2 * 512 * PAGE == v.i2 * 0x20_0000;
    }
  }

  lemma BootedTables()
    ensures BOOT_ROOT in BOOT_TABLES && |BOOT_TABLES[BOOT_ROOT]| == ENTRIES
    ensures Booted(BOOT_TABLES[ROOT := KernelRoot(BOOT_TABLES[BOOT_ROOT], ROOT)], 32)
  {
    BootStratified();
    assert TableOk(BOOT_TABLES, BOOT_INFO, BOOT_ROOT);
    var t := BOOT_TABLES[ROOT := KernelRoot(BOOT_TABLES[BOOT_ROOT], ROOT)];
    BootEntry(BOOT_ROOT, 0);
    BootEntry(BOOT_ROOT, 511);
    BootEntry(BOOT_PDPT, 0);
    BootEntry(BOOT_PDPT, 510);
    forall i: nat | i < 32
      ensures Entry(t, BOOT_PD, i) == Pte(i * 512, true, true, false, true, 0)
    {
      BootEntry(BOOT_PD, i);
    }
  }

  method Boot(frames: seq<nat>) returns (m: AddressSpaces)
    requires |frames| > 0 && frames[0] == ROOT && FreshPool(frames, BOOT_INFO)
    ensures fresh(m) && m.Valid() && m.kernel == ROOT && m.pool == frames[1..]
    ensures m.info == Adopted(BOOT_INFO, ROOT) && Booted(m.tables, 32)
  {
    BootStratified();
    BootedTables();
    m := new AddressSpaces(BOOT_TABLES, BOOT_ROOT, frames, BOOT_INFO);
  }

  ghost predicate ShowsWindows(t: Tables) {
    forall v: Va {:trigger Translate(t, ROOT, v)} ::
        Window(v) ==> Translate(t, ROOT, v) == Some(v.i2 * 0x20_0000 + v.i1 * PAGE + v.off)
  }

  lemma BootedShows(t: Tables, t': Tables, info: map<nat, Info>)
    requires Booted(t, 32) && SameMaps(t, t', info) && ROOT in info && info[ROOT].level == 4
    ensures ShowsWindows(t')
  {
    forall v: Va | Window(v)
      ensures Translate(t', ROOT, v) == Some(v.i2 * 0x20_0000 + v.i1 * PAGE + v.off)
    {
      assert Addressable(info, ROOT, v);
      WindowWays(t, 32, v);
    }
  }

  /** A page of code needs a page directory pointer table, a page directory and a split page directory entry. */
  lemma FirstSpaceCost(t: Tables, root: nat)
    requires Booted(t, 32) && ROOT in t && |t[ROOT]| == ENTRIES && root != BOOT_PDPT && root != BOOT_PD
    ensures SpaceCost(t, ROOT, root, 1) == 24
  {
    var t', v := t[root := RootEntries(t[ROOT])], VaOf(USER_CODE_BASE);
    CodePage(0);
    assert v == Va(0, 0, 2, 0, 0);
    assert Entry(t', root, 0) == Entry(t, ROOT, 0) && Entry(t', BOOT_PDPT, 0) == Entry(t, BOOT_PDPT, 0);
    assert Entry(t', BOOT_PD, 2) == Entry(t, BOOT_PD, 2);
    assert UserPlan(t', 2, BOOT_PD, v).tables == 1;
    assert UserPlan(t', 3, BOOT_PDPT, v).tables == 2;
  }

  /**
   * user_process_create with one page of code, straight after boot: it succeeds exactly when there are 25 frames,
   * the kernel's root included. The page of code and the sixteen stack pages are then different frames that hold no
   * table and are out of the pool, and the kernel sees no difference.
   */
  method CreateFirstProcess(frames: seq<nat>)
    returns (m: AddressSpaces, root: nat, ok: bool, ghost code: seq<nat>, ghost stack: seq<nat>)
    requires |frames| > 0 && frames[0] == ROOT && FreshPool(frames, BOOT_INFO)
    ensures m.Valid() && m.kernel == ROOT && ShowsWindows(m.tables)
    ensures ok <==> |frames| >= 25
    ensures ok ==> Loaded(m.tables, root, USER_CODE_BASE, 1) && Loaded(m.tables, root, USER_STACK_BASE, STACK_PAGES)
    ensures ok ==> |code| == 1 && LoadedAt(m.tables, root, USER_CODE_BASE, code, CODE_FLAGS)
    ensures ok ==> |stack| == STACK_PAGES && LoadedAt(m.tables, root, USER_STACK_BASE, stack, STACK_FLAGS)
    ensures Accounted(frames[1..], Adopted(BOOT_INFO, ROOT), m.pool, m.info, code + stack)
  {
    m := Boot(frames);
    ghost var t, info := m.tables, m.info;
    WindowWays(t, 32, VaOf(USER_CODE_BASE));
    assert TableOk(t, info, ROOT);
    if |frames| > 1 { FirstSpaceCost(t, frames[1]); }
    root, ok, code, stack := m.CreateUserSpace(1);
    BootedShows(t, m.tables, info);
  }

  /** The heap's first page is mapped, which splits the 2 MB page around it. */
  method BootWithHeapPage(frames: seq<nat>, phys: nat) returns (m: AddressSpaces, ghost pt: nat)
    requires |frames| > 1 && frames[0] == ROOT && FreshPool(frames, BOOT_INFO) && phys % PAGE == 0
    ensures fresh(m) && m.Valid() && m.kernel == ROOT && |m.pool| == |frames| - 2
    ensures Extends(Adopted(BOOT_INFO, ROOT), m.info) && Booted(m.tables, 8) && pt in m.info
    ensures EndsAt(m.tables, ROOT, HEAP_VA, pt, 0) && Translate(m.tables, ROOT, HEAP_VA) == Some(phys)
    ensures Translate(m.tables, ROOT, LAST_VA) == Some(0x11F_F000)
  {
    m := Boot(frames);
    ghost var t, info := m.tables, m.info;
    WindowWays(t, 32, HEAP_VA);
    WindowWays(t, 32, LAST_VA);
    Addresses();
    var ok;
    ghost var was;
    ok, pt, was := m.MapPage(HEAP_START, phys, RW);
    HeapSplit(t, m.tables, info, HEAP_VA);
    assert Addressable(info, ROOT, LAST_VA);
  }

  lemma EntryKept(t: Tables, t': Tables, info: map<nat, Info>, v: Va, g: nat, j: nat)
    requires AlongWay(t, t', info, v) && g in info
             && (j != Index(v, info[g].level) || (info[g].level > 1 && Links(t, info, g, j)))
    ensures Entry(t', g, j) == Entry(t, g, j)
  {
  }

  lemma HeapSplit(t: Tables, t': Tables, info: map<nat, Info>, v: Va)
    requires Booted(t, 32) && AlongWay(t, t', info, v) && v == Va(511, 510, 8, 0, 0)
    requires info == Adopted(BOOT_INFO, ROOT)
    ensures Booted(t', 8)
  {
    EntryKept(t, t', info, v, ROOT, 0);
    EntryKept(t, t', info, v, ROOT, 511);
    EntryKept(t, t', info, v, BOOT_PDPT, 0);
    EntryKept(t, t', info, v, BOOT_PDPT, 510);
    forall i: nat | i < 32 && i != 8
      ensures Entry(t', BOOT_PD, i) == Pte(i * 512, true, true, false, true, 0)
    {
      EntryKept(t, t', info, v, BOOT_PD, i);
    }
  }

  /** After the heap page, its page directory entry leads to a small-page table. */
  lemma HeapTable(t: Tables, pt: nat)
    requires Booted(t, 8) && EndsAt(t, ROOT, HEAP_VA, pt, 0)
    ensures var e := Entry(t, BOOT_PD, 8); e.present && !e.huge && e.frame == pt
  {
    WindowWays(t, 8, HEAP_VA);
  }

  // ----- vmm_map_range -----

  /**
   * The last page behind the split table and the first page of the next 2 MB, with no frame left to split that:
   * the call fails, and the first page, mapped before, is unmapped.
   */
  method RollbackLosesMapping() returns (before: nat, ok: bool, after: nat)
    ensures before == 0x11F_F000 && !ok && after == 0
  {
    var m, pt := BootWithHeapPage([ROOT, 17], 0x200_0000);
    Addresses();
    before := m.GetPhysical(LAST_SPLIT);
    ok := MapOverLast(m, pt);
    after := m.GetPhysical(LAST_SPLIT);
  }

  method MapOverLast(m: AddressSpaces, ghost pt: nat) returns (ok: bool)
    requires m.Valid() && m.kernel == ROOT && |m.pool| == 0 && Booted(m.tables, 8)
             && EndsAt(m.tables, ROOT, HEAP_VA, pt, 0)
    modifies m
    ensures m.Valid() && !ok && Translate(m.tables, ROOT, LAST_VA) == None
  {
    ghost var t, info := m.tables, m.info;
    ghost var slots;
    Addresses();
    ok, slots := m.MapRange(LAST_SPLIT, 0x300_0000, 2 * PAGE, RW);
    FirstPageLost(t, m.tables, info, pt, slots, ok, m.pool);
  }

  lemma FirstPageLost(t: Tables, t': Tables, info: map<nat, Info>, pt: nat, slots: seq<(nat, nat)>, ok: bool,
      pool: seq<nat>)
    requires Booted(t, 8) && EndsAt(t, ROOT, HEAP_VA, pt, 0) && Stratified(t, info, ROOT) && SameAbove(t, t', info, 1)
    requires SlotsOf(t', info, ROOT, LAST_SPLIT, slots) && (ok ==> |slots| == 2)
    requires !ok ==>
             RolledBack(t, t', info, slots, |slots|, RW, 0x300_0000)
             && Stuck(t', pool, ROOT, PageOf(LAST_SPLIT, |slots|))
    ensures !ok && Translate(t', ROOT, LAST_VA) == None
  {
    Addresses();
    NextUnreached(t, t', info);
    FirstPageFits(t, t', info, pt);
    forall k: nat | k < |slots|
      ensures LeafTable(t', 4, ROOT, PageOf(LAST_SPLIT, k)).Some?
              && EndsAt(t', ROOT, PageOf(LAST_SPLIT, k), slots[k].0, slots[k].1)
    {
      assert slots[k].0 in info;
    }
    assert Addressable(info, ROOT, LAST_VA) && slots[..1] == slots;
  }

  lemma NextUnreached(t: Tables, t': Tables, info: map<nat, Info>)
    requires Booted(t, 8) && Stratified(t, info, ROOT) && SameAbove(t, t', info, 1)
    ensures LeafTable(t', 4, ROOT, NEXT_VA) == None
  {
    WindowWays(t, 8, NEXT_VA);
    AboveDecides(t, t', info, ROOT, 4, ROOT, NEXT_VA, 1);
    LeafIsTableAt(t, 4, ROOT, NEXT_VA);
    LeafIsTableAt(t', 4, ROOT, NEXT_VA);
  }

  lemma FirstPageFits(t: Tables, t': Tables, info: map<nat, Info>, pt: nat)
    requires Booted(t, 8) && EndsAt(t, ROOT, HEAP_VA, pt, 0) && Stratified(t, info, ROOT) && SameAbove(t, t', info, 1)
    ensures Needed(t', 4, ROOT, LAST_VA) == 0
  {
    WindowWays(t, 8, LAST_VA);
    HeapTable(t, pt);
    NeededAbove(t, t', info, ROOT, 4, ROOT, LAST_VA);
  }

  // ----- vmm_map_user_page -----

  /** The user page at 16 MB shares its page directory entry with the heap: the kernel's heap page is replaced. */
  method UserPageInHeap() returns (before: nat, ok: bool, after: nat)
    ensures before == 0x200_0000 && ok && after == 0x300_0000
  {
    var m, pt := BootWithHeapPage([ROOT, 17, 18, 19, 20], 0x200_0000);
    Addresses();
    before := m.GetPhysical(HEAP_START);
    var s := SpaceBesideHeap(m, pt);
    ok := MapOverHeap(m, s, pt);
    after := m.GetPhysical(HEAP_START);
  }

  method SpaceBesideHeap(m: AddressSpaces, ghost pt: nat) returns (s: nat)
    requires m.Valid() && m.kernel == ROOT && |m.pool| == 3 && BOOT_PD in m.info && m.info[BOOT_PD] == Info(2, ROOT)
    requires Booted(m.tables, 8) && EndsAt(m.tables, ROOT, HEAP_VA, pt, 0)
    modifies m
    ensures m.Valid() && |m.pool| == 2 && s in m.info && m.info[s].level == 4 && s != ROOT
    ensures SharesHeap(m.tables, s, pt) && EndsAt(m.tables, ROOT, HEAP_VA, pt, 0)
  {
    ghost var t, info := m.tables, m.info;
    s := m.CreateAddressSpace();
    SharedHeapTable(t, m.tables, info, s, pt);
  }

  method MapOverHeap(m: AddressSpaces, s: nat, ghost pt: nat) returns (ok: bool)
    requires m.Valid() && m.kernel == ROOT && |m.pool| == 2 && s in m.info && m.info[s].level == 4 && s != ROOT
    requires SharesHeap(m.tables, s, pt) && EndsAt(m.tables, ROOT, HEAP_VA, pt, 0)
    modifies m
    ensures m.Valid() && ok && Translate(m.tables, ROOT, HEAP_VA) == Some(0x300_0000)
  {
    ghost var t, info := m.tables, m.info;
    ghost var slot;
    Addresses();
    ok, slot := m.MapUserPage(s, 0x100_0000, 0x300_0000, RW);
    NewPage();
    PageReplaced(t, m.tables, info, ROOT, HEAP_VA, pt, UserPage(0x300_0000, RW));
  }

  lemma PageReplaced(t: Tables, t': Tables, info: map<nat, Info>, r: nat, v: Va, pt: nat, e: Pte)
    requires Remapped(t, t', info, pt, v.i1, e) && SameLeafTables(t, t', info)
    requires EndsAt(t, r, v, pt, v.i1) && Addressable(info, r, v) && pt in info
    ensures Translate(t', r, v) == PageAt(e, v)
  {
    assert EndsAt(t', r, v, pt, v.i1);
  }

  lemma NewPage()
    ensures PageAt(UserPage(0x300_0000, RW), HEAP_VA) == Some(0x300_0000)
  {
  }

  /**
   * The page directory entry of 16 MB in space `s` leads to the kernel's table `pt`; two tables on the way are missing.
   */
  ghost predicate SharesHeap(t: Tables, s: nat, pt: nat) {
    var v := USER_VA;
    && !Giant(t, s, v) && !Private(PdEntry(t, s, v)) && PdEntry(t, s, v).frame == pt
    && UserPlan(t, 4, s, v).tables == 2
  }

  lemma SharedHeapTable(t: Tables, t': Tables, info: map<nat, Info>, s: nat, pt: nat)
    requires Booted(t, 8) && EndsAt(t, ROOT, HEAP_VA, pt, 0) && Stratified(t, info, ROOT)
    requires BOOT_PD in info && info[BOOT_PD] == Info(2, ROOT) && s !in info && ROOT in t && |t[ROOT]| == ENTRIES
    requires t' == t[s := RootEntries(t[ROOT])]
    ensures SharesHeap(t', s, pt) && EndsAt(t', ROOT, HEAP_VA, pt, 0)
  {
    var v, h := USER_VA, HEAP_VA;
    WindowWays(t, 8, v);
    HeapTable(t, pt);
    assert TableOk(t, info, BOOT_PD) && LinkOk(t, info, ROOT, BOOT_PD, 8);
    RootWays(t, info, ROOT, s, v, 2);
    RootWays(t, info, ROOT, s, v, 3);
    RootWays(t, info, ROOT, s, h, 1);
    LeafIsTableAt(t, 4, ROOT, h);
    LeafIsTableAt(t', 4, ROOT, h);
  }
}
