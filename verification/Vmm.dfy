/** The virtual memory manager (kernel/mm/vmm.c): page tables changed in place. */
module Vmm {
  import opened Basics
  import opened VmmSpec
  import opened VmmPaths
  import opened VmmRuns

  /** All entries but one are as before. */
  ghost predicate OnlySlot(t: Tables, t': Tables, info: map<nat, Info>, f: nat, i: nat) {
    forall g: nat, j: nat {:trigger Entry(t', g, j)} ::
        g in info && !(g == f && j == i) ==> Entry(t', g, j) == Entry(t, g, j)
  }

  /** `v` cannot be mapped: too few frames are left, or a 1 GB page is in the way. */
  ghost predicate Stuck(t: Tables, pool: seq<nat>, kernel: nat, v: Va) { !(0 <= Needed(t, 4, kernel, v) <= |pool|) }

  lemma {:induction false} NeededAbove(t: Tables, t': Tables, info: map<nat, Info>, kernel: nat, level: nat, g: nat,
      v: Va)
    requires Stratified(t, info, kernel) && SameAbove(t, t', info, 1) && Cut(v)
    requires g in info && info[g].level == level && (level == 4 ==> v.i4 != RECURSIVE)
    ensures Needed(t', level, g, v) == Needed(t, level, g, v)
    decreases level
  {
    assert TableOk(t, info, g) && LinkOk(t, info, kernel, g, Index(v, level));
    if level > 1 {
      var x := Entry(t, g, Index(v, level));
      assert Entry(t', g, Index(v, level)) == x;
      if x.present && !Leaf(level, x) { NeededAbove(t, t', info, kernel, level - 1, x.frame, v); }
    }
  }

  /** Where the walk reaches a level-1 table, none has to be made. */
  lemma {:induction false} ReachedNeedsNone(t: Tables, level: nat, f: nat, v: Va)
    requires LeafTable(t, level, f, v).Some?
    ensures Needed(t, level, f, v) == 0
    decreases level
  {
    if level > 1 { ReachedNeedsNone(t, level - 1, Entry(t, f, Index(v, level)).frame, v); }
  }

  lemma {:induction false} NeededOfRegion(t: Tables, level: nat, f: nat, v: Va, w: Va)
    requires SameRegion(v, w) && level <= 4
    ensures Needed(t, level, f, v) == Needed(t, level, f, w)
    decreases level
  {
    if level > 1 { NeededOfRegion(t, level - 1, Entry(t, f, Index(v, level)).frame, v, w); }
  }

  /** The first `n` pages of the range lie in one 2 MB region. */
  ghost predicate RangeInRegion(virt: nat, n: nat) {
    forall k: nat {:trigger PageOf(virt, k)} :: k < n ==> SameRegion(PageOf(virt, 0), PageOf(virt, k))
  }

  lemma IndicesDiffer(a: nat, j: nat, k: nat)
    requires k < j < k + 512
    ensures (a + j) % 512 != (a + k) % 512
  {
  }

  lemma RegionNumber(x: nat)
    ensures VaOf(x).i2 != VaOf(x + 0x20_0000).i2
  {
    var q := x / 0x20_0000;
    assert (x + 0x20_0000) / 0x20_0000 == q + 1;
    IndicesDiffer(q, 1, 0);
  }

  lemma RegionEnds(virt: nat)
    ensures PageOf(virt, 0).i2 != PageOf(virt, 512).i2
  {
    RegionNumber(virt / PAGE * PAGE);
  }

  lemma RegionShort(virt: nat, n: nat)
    requires RangeInRegion(virt, n)
    ensures n <= 512
  {
    RegionEnds(virt);
  }

  lemma PageIndex(virt: nat, k: nat)
    ensures PageOf(virt, k).i1 == (virt / PAGE + k) % 512
  {
    RangeFrame(virt, k);
  }

  /** Pages of one region have slots of their own. */
  lemma RegionSlots(t: Tables, info: map<nat, Info>, kernel: nat, virt: nat, slots: seq<(nat, nat)>, k: nat)
    requires SlotsOf(t, info, kernel, virt, slots) && RangeInRegion(virt, |slots|) && k < |slots|
    ensures NoLater(slots, k)
  {
    RegionShort(virt, |slots|);
    forall j | k < j < |slots| ensures slots[j] != slots[k] {
      PageIndex(virt, j);
      PageIndex(virt, k);
      IndicesDiffer(virt / PAGE, j, k);
    }
  }

  lemma RangeBytes(t0: Tables, t: Tables, info0: map<nat, Info>, info: map<nat, Info>, kernel: nat, virt: nat,
      slots: seq<(nat, nat)>, flags: Pte, phys: nat, size: nat)
    requires Layered(t0, t, info0, slots, flags, phys) && SlotsOf(t, info, kernel, virt, slots) && flags.present
    requires |slots| == PageCount(size) && kernel in info0 && info0[kernel].level == 4
    requires forall k: nat :: k < |slots| ==> PageOf(virt, k).i4 != RECURSIVE
    ensures AllBytes(t, kernel, virt, phys, size, slots)
  {
    forall o: nat | o < size
      ensures o / PAGE < |slots|
      ensures Translate(t, kernel, VaOf(virt / PAGE * PAGE + o)) == Some(phys / PAGE * PAGE + o) <==>
              NoLater(slots, o / PAGE)
    {
      assert PageOf(virt, o / PAGE).i4 != RECURSIVE;
      RangeByte(t0, t, info0, info, kernel, virt, slots, flags, phys, o);
    }
  }

  /** Mapping a range inside one region: only the first page can need tables. */
  ghost predicate RegionSoFar(t0: Tables, t: Tables, pool0: seq<nat>, pool: seq<nat>, kernel: nat, virt: nat, i: nat) {
    if i == 0 then t == t0 && pool == pool0
    else !Stuck(t0, pool0, kernel, PageOf(virt, 0)) && Needed(t, 4, kernel, PageOf(virt, 0)) == 0
  }

  lemma {:induction false} PlanAbove(t: Tables, t': Tables, info: map<nat, Info>, kernel: nat, level: nat, g: nat,
      v: Va)
    requires Stratified(t, info, kernel) && SameAbove(t, t', info, 1) && Cut(v) && level >= 2
    requires g in info && info[g].level == level && (level == 4 ==> v.i4 != RECURSIVE)
    ensures UserPlan(t', level, g, v) == UserPlan(t, level, g, v)
    decreases level
  {
    assert TableOk(t, info, g) && LinkOk(t, info, kernel, g, Index(v, level));
    var x := Entry(t, g, Index(v, level));
    assert Entry(t', g, Index(v, level)) == x;
    if level > 2 && x.present && !Leaf(level, x) { PlanAbove(t, t', info, kernel, level - 1, x.frame, v); }
  }

  lemma SameTrans(t: Tables, t1: Tables, t2: Tables, info: map<nat, Info>, info1: map<nat, Info>)
    requires SameMaps(t, t1, info) && SameMaps(t1, t2, info1) && Extends(info, info1)
    ensures SameMaps(t, t2, info)
  {
  }

  lemma SameLeafTrans(t: Tables, t1: Tables, t2: Tables, info: map<nat, Info>, info1: map<nat, Info>)
    requires SameLeafTables(t, t1, info) && SameLeafTables(t1, t2, info1) && Extends(info, info1)
    ensures SameLeafTables(t, t2, info)
  {
  }

  /** Only entries on the way of `v` changed, and no entry that was a link. */
  ghost predicate AlongWay(t: Tables, t': Tables, info: map<nat, Info>, v: Va) {
    forall g: nat, j: nat {:trigger Entry(t', g, j)} :: g in info && Entry(t', g, j) != Entry(t, g, j) ==>
      j == Index(v, info[g].level) && (info[g].level == 1 || !Links(t, info, g, j))
  }

  lemma AlongLeaf(t: Tables, t1: Tables, info: map<nat, Info>, v: Va, p: nat, e: Pte)
    requires AlongWay(t, t1, info, v) && (p in info ==> info[p].level == 1)
    ensures AlongWay(t, Set(t1, p, v.i1, e), info, v)
  {
    var t' := Set(t1, p, v.i1, e);
    forall g: nat, j: nat | g in info && Entry(t', g, j) != Entry(t, g, j)
      ensures j == Index(v, info[g].level) && (info[g].level == 1 || !Links(t, info, g, j))
    {
      if !(g == p && j == v.i1) { assert Entry(t', g, j) == Entry(t1, g, j); }
    }
  }

  /** Overwriting an entry of the kernel's table is seen by the kernel, unless it held the same page. */
  lemma SharedWrite(t: Tables, t': Tables, info: map<nat, Info>, kernel: nat, s: nat, v: Va, p: nat, e: Pte, x: Pte)
    requires Remapped(t, t', info, p, v.i1, e) && Was(t, t', info, p, v.i1, x) && s != kernel
    requires Addressable(info, s, v) && Addressable(info, kernel, v)
    requires EndsAt(t', s, v, p, v.i1) && EndsAt(t', kernel, v, p, v.i1)
    ensures Translate(t', kernel, v) == PageAt(e, v)
    ensures OnePage(t, t', info, s, v, e) <==> Translate(t, kernel, v) == PageAt(e, v)
  {
    if Translate(t, kernel, v) == PageAt(e, v) {
      forall r: nat, w: Va | Addressable(info, r, w)
        ensures Translate(t', r, w) == if r == s && SamePage(v, w) then PageAt(e, w) else Translate(t, r, w)
      {
        SamePath(t', 4, s, v, w);
        if EndsAt(t', r, w, p, v.i1) { assert Translate(t, r, w) == PageAt(x, w); }
      }
    }
  }

  lemma WasAfter(t: Tables, t1: Tables, t2: Tables, info: map<nat, Info>, info1: map<nat, Info>, p: nat, i: nat, x: Pte)
    requires SameMaps(t, t1, info) && Was(t1, t2, info1, p, i, x) && Extends(info, info1)
    ensures Was(t, t2, info, p, i, x)
  {
    forall r: nat, w: Va | Addressable(info, r, w) && EndsAt(t2, r, w, p, i)
      ensures Translate(t, r, w) == PageAt(x, w)
    {
      assert Addressable(info1, r, w);
      assert Translate(t1, r, w) == Translate(t, r, w);
    }
  }

  /** What making tables for a user space leaves alone. */
  ghost predicate Changes(t: Tables, t': Tables, info: map<nat, Info>) {
    SameMaps(t, t', info) && SameLeafTables(t, t', info) && MappableKept(t, t', info) && SameLeaves(t, t', info)
  }

  lemma ChangesTrans(t: Tables, t1: Tables, t2: Tables, info: map<nat, Info>, info1: map<nat, Info>)
    requires Changes(t, t1, info) && Changes(t1, t2, info1) && Extends(info, info1)
    ensures Changes(t, t2, info)
  {
    SameTrans(t, t1, t2, info, info1);
    SameLeafTrans(t, t1, t2, info, info1);
    MappableTrans(t, t1, t2, info, info1);
  }

  /** Giving a user space its own copy of a kernel table. */
  lemma CopyOk(t: Tables, info: map<nat, Info>, kernel: nat, f: nat, i: nat, c: nat, k: nat)
    requires Copies(t, info, kernel, f, i, c, UserLink(c), k) && Trees(t, info) && Mirror(t, info, kernel)
    requires info[f].owner != kernel && !Entry(t, f, i).user
    ensures var t' := Install(t, f, i, c, t[k], UserLink(c));
            var info' := info[c := Info(info[f].level - 1, info[f].owner)];
            Stratified(t', info', kernel) && Trees(t', info') && Mirror(t', info', kernel) && Changes(t, t', info)
  {
    var es, l := t[k], info[f].level;
    assert TableOk(t, info, f) && LinkOk(t, info, kernel, f, i) && TableOk(t, info, k);
    forall w | Cut(w) ensures Agrees(t, info, f, i, es, w) { CopyAgrees(t, info, kernel, f, i, w); }
    forall j: nat | j < ENTRIES && es[j].present && !Leaf(l - 1, es[j])
      ensures !es[j].user && es[j].frame in info && info[es[j].frame] == Info(l - 2, kernel)
    {
      assert LinkOk(t, info, kernel, k, j);
    }
    InstallStratified(t, info, kernel, f, i, c, es, UserLink(c));
    InstallTrees(t, info, kernel, f, i, c, es, UserLink(c));
    InstallSame(t, info, kernel, f, i, c, es, UserLink(c));
    InstallLeaves(t, info, f, i, c, es, UserLink(c));
    MirrorCopy(t, info, kernel, f, i, c, UserLink(c), k);
    CopyLeafTables(t, info, kernel, f, i, c, UserLink(c), k);
    CopyMappable(t, info, kernel, f, i, c, UserLink(c), k);
  }

  /** The way of `v` from table `f` of space `s` down to level-1 table `pt` is ready for user code. */
  ghost predicate WayMade(t: Tables, t': Tables, info': map<nat, Info>, kernel: nat, s: nat, level: nat, f: nat, v: Va,
      pt: nat) {
    var pd := UserPlan(t, level, f, v).pd;
    && UserPlan(t', level, f, v).tables == 0 && UserLinks(t', level, f, v) && LeafTable(t', level, f, v) == Some(pt)
    && Prepared(t, t', pd, PdFrom(t', level, f, v), pt)
    && pt in info' && info'[pt] == Info(1, if Private(pd) then s else kernel) && (!Private(pd) ==> pt == pd.frame)
  }

  /** One level up. */
  lemma WayStep(t: Tables, t1: Tables, t2: Tables, info: map<nat, Info>, info2: map<nat, Info>, kernel: nat, s: nat,
      level: nat, f: nat, v: Va, c: nat, pt: nat)
    requires Stratified(t, info, kernel) && f in info && info[f].level == level && 3 <= level <= 4 && Cut(v)
    requires (level == 4 ==> v.i4 != RECURSIVE) && OnlySlot(t, t1, info, f, Index(v, level))
    requires UserPlan(t1, level - 1, c, v).pd == UserPlan(t, level, f, v).pd
    requires var e := Entry(t2, f, Index(v, level)); e.frame == c && e.present && e.user && !Leaf(level, e)
    requires WayMade(t1, t2, info2, kernel, s, level - 1, c, v, pt)
    ensures WayMade(t, t2, info2, kernel, s, level, f, v, pt)
  {
    PlanPdKnown(t, info, kernel, level, f, v);
    var pd := UserPlan(t, level, f, v).pd;
    forall i: nat | i < ENTRIES ensures LeafMade(t1, pd, pt, i) == LeafMade(t, pd, pt, i) {
      if pd.present && !pd.huge { assert Entry(t1, pt, i) == Entry(t, pt, i); }
    }
  }

  /** The state of vmm_map_range between two pages. */
  ghost predicate Progress(t0: Tables, t: Tables, info0: map<nat, Info>, info: map<nat, Info>, kernel: nat, virt: nat,
      slots: seq<(nat, nat)>, was: seq<Pte>, flags: Pte, phys: nat) {
    && SlotsOf(t, info, kernel, virt, slots) && Layered(t0, t, info0, slots, flags, phys)
    && Originals(t0, t, info0, slots, was)
  }

  lemma ProgressStep(t0: Tables, t: Tables, t': Tables, info0: map<nat, Info>, info: map<nat, Info>, info': map<nat,
      Info>, kernel: nat, virt: nat,
                     slots: seq<(nat, nat)>, was: seq<Pte>, p: nat, x: Pte, flags: Pte, phys: nat)
    requires Progress(t0, t, info0, info, kernel, virt, slots, was, flags, phys) && Extends(info0, info)
             && Extends(info, info')
    requires kernel in info && info[kernel].level == 4 && forall k: nat ::
             k <= |slots| ==> PageOf(virt, k).i4 != RECURSIVE
    requires SameLeafTables(t, t', info) && p in info'
             && EndsAt(t', kernel, PageOf(virt, |slots|), p, PageOf(virt, |slots|).i1)
    requires Remapped(t, t', info, p, PageOf(virt, |slots|).i1, RangeEntry(flags, phys, |slots|))
    requires Was(t, t', info, p, PageOf(virt, |slots|).i1, x)
    ensures var s := (p, PageOf(virt, |slots|).i1);
            Progress(t0, t', info0, info', kernel, virt, slots + [s], was + [Earliest(slots, was, s, x)], flags, phys)
  {
    SlotsSame(t, t', info, info', kernel, virt, slots);
    LayerStep(t0, t, t', info0, info, slots, p, PageOf(virt, |slots|).i1, flags, phys);
    OriginalsStep(t0, t, t', info0, info, slots, was, p, PageOf(virt, |slots|).i1, x, flags, phys);
  }

  lemma ProgressSame(t0: Tables, t: Tables, t': Tables, info0: map<nat, Info>, info: map<nat, Info>, info': map<nat,
      Info>, kernel: nat, virt: nat,
                     slots: seq<(nat, nat)>, was: seq<Pte>, flags: Pte, phys: nat)
    requires Progress(t0, t, info0, info, kernel, virt, slots, was, flags, phys) && Extends(info0, info)
             && Extends(info, info')
    requires kernel in info && info[kernel].level == 4 && forall k: nat ::
             k < |slots| ==> PageOf(virt, k).i4 != RECURSIVE
    requires SameLeafTables(t, t', info) && SameMaps(t, t', info)
    ensures Progress(t0, t', info0, info', kernel, virt, slots, was, flags, phys)
  {
    SlotsSame(t, t', info, info', kernel, virt, slots);
    LayerSame(t0, t, t', info0, info, slots, flags, phys);
    OriginalsSame(t0, t, t', info0, info, slots, was);
  }

  lemma RestoresIff(t0: Tables, t: Tables, info0: map<nat, Info>, info: map<nat, Info>, kernel: nat, virt: nat,
      slots: seq<(nat, nat)>, was: seq<Pte>, flags: Pte, phys: nat)
    requires RolledBack(t0, t, info0, slots, |slots|, flags, phys) && Originals(t0, t, info0, slots, was)
    requires SlotsOf(t, info, kernel, virt, slots) && kernel in info0 && info0[kernel].level == 4
    requires forall k: nat :: k < |slots| ==> PageOf(virt, k).i4 != RECURSIVE
    ensures SameMaps(t0, t, info0) <==> forall k: nat :: k < |slots| ==> Translate(t0, kernel, PageOf(virt, k)) == None
  {
    forall k: nat | k < |slots|
      ensures Addressable(info0, kernel, PageOf(virt, k)) && EndsAt(t, kernel, PageOf(virt, k), slots[k].0, slots[k].1)
    {
      assert slots[k].0 in info && PageOf(virt, k).i4 != RECURSIVE;
    }
    RollbackRestoresIff(t0, t, info0, kernel, virt, slots, was, flags, phys);
  }

  class AddressSpaces {
    const kernel: nat
    var tables: Tables
    /** The frames the physical allocator will hand out, in order; it fails when they are used up. */
    var pool: seq<nat>
    ghost var info: map<nat, Info>

    ghost predicate Valid()
      reads this
    {
      && Stratified(tables, info, kernel) && Trees(tables, info) && Mirror(tables, info, kernel)
      && FreshPool(pool, info)
    }

    /** vmm_init: a new root over the boot loader's tables `boot`, whose root is `b`. */
    constructor (boot: Tables, b: nat, frames: seq<nat>, ghost bootInfo: map<nat, Info>)
      requires Stratified(boot, bootInfo, b) && (forall f :: f in bootInfo ==> bootInfo[f].owner == b) && |frames| > 0
      requires FreshPool(frames, bootInfo)
      ensures Valid() && kernel == frames[0] && pool == frames[1..]
      ensures b in boot && |boot[b]| == ENTRIES && tables == boot[kernel := KernelRoot(boot[b], kernel)]
      ensures info == Adopted(bootInfo, kernel)
      ensures forall v: Va :: Cut(v) && v.i4 != RECURSIVE ==>
                Translate(tables, kernel, v) == if v.i4 >= 256 || v.i4 == 0 then Translate(boot, b, v) else None
    {
      var c := frames[0];
      assert TableOk(boot, bootInfo, b);
      AdoptedOk(boot, bootInfo, b, c);
      MirrorAlone(boot[c := KernelRoot(boot[b], c)], Adopted(bootInfo, c), c);
      forall v: Va | Cut(v) && v.i4 != RECURSIVE
        ensures Translate(boot[c := KernelRoot(boot[b], c)], c, v) == if v.i4 >= 256
                || v.i4 == 0 then Translate(boot, b, v) else None
      {
        AdoptedShows(boot, bootInfo, b, c, v);
      }
      kernel, pool, info := c, frames[1..], Adopted(bootInfo, c);
      tables := boot[c := KernelRoot(boot[b], c)];
    }

    /** Links a fresh frame with contents `es` into entry `i` of table `f`, which led nowhere. */
    method OpenTable(f: nat, i: nat, es: seq<Pte>, user: bool) returns (c: nat)
      requires Valid() && |pool| > 0 && f in info && i < ENTRIES && 2 <= info[f].level
      requires !(info[f].level == 4 && i == RECURSIVE) && !Links(tables, info, f, i)
      requires |es| == ENTRIES && (user <==> info[f].owner != kernel) && (info[f].level == 2 || Blank(es))
      requires forall v :: Cut(v) ==> Agrees(tables, info, f, i, es, v)
      modifies this`tables, this`pool, this`info
      ensures Valid() && c == old(pool)[0] && pool == old(pool)[1..] && c !in old(info)
      ensures info == old(info)[c := Info(old(info)[f].level - 1, old(info)[f].owner)]
      ensures tables == Install(old(tables), f, i, c, es, if user then UserLink(c) else KernelLink(c))
      ensures SameMaps(old(tables), tables, old(info)) && SameLeafTables(old(tables), tables, old(info))
      ensures user ==> MappableKept(old(tables), tables, old(info))
      ensures SameLeaves(old(tables), tables, old(info)) && Drawn(old(pool), pool, old(info), info)
    {
      c := pool[0];
      var e := if user then UserLink(c) else KernelLink(c);
      InstallStratified(tables, info, kernel, f, i, c, es, e);
      InstallTrees(tables, info, kernel, f, i, c, es, e);
      InstallSame(tables, info, kernel, f, i, c, es, e);
      MirrorOpen(tables, info, kernel, f, i, c, es, e);
      OpenLeafTables(tables, info, kernel, f, i, c, es, e);
      if user { OpenMappable(tables, info, kernel, f, i, c, es, e); }
      InstallLeaves(tables, info, f, i, c, es, e);
      DrawnOne(pool, info, Info(info[f].level - 1, info[f].owner));
      info := info[c := Info(info[f].level - 1, info[f].owner)];
      tables := tables[c := es];
      tables := Set(tables, f, i, e);
      pool := pool[1..];
    }

    /** vmm_split_huge_page's loop. */
    method SplitTable(e: Pte) returns (es: seq<Pte>)
      ensures es == SplitEntries(e)
    {
      es := [];
      for i := 0 to ENTRIES
        invariant |es| == i && forall j :: 0 <= j < i ==> es[j] == e.(frame := e.frame + j, huge := false)
      {
        es := es + [e.(frame := e.frame + i, huge := false)];
      }
    }

    /** Get or create the table below entry `i` of kernel table `f`; a 2 MB page is split. */
    method NextTable(level: nat, f: nat, i: nat) returns (ok: bool, c: nat)
      requires Valid() && f in info && info[f] == Info(level, kernel) && level >= 2 && i < ENTRIES
      requires !(level == 4 && i == RECURSIVE)
      modifies this`tables, this`pool, this`info
      ensures Valid() && SameMaps(old(tables), tables, old(info)) && OnlySlot(old(tables), tables, old(info), f, i)
      ensures SameLeafTables(old(tables), tables, old(info))
      ensures Extends(old(info), info)
      ensures var e := Entry(old(tables), f, i);
              ok <==>
                  if !e.present then |old(pool)| > 0 else if Leaf(level, e) then level == 2 && |old(pool)| > 0 else true
      ensures ok ==>
              c in info && info[c] == Info(level - 1, kernel) && Entry(tables, f, i).frame == c
              && Entry(tables, f, i).present && !Leaf(level, Entry(tables, f, i))
      ensures |pool| == |old(pool)| - (if ok
              && (!Entry(old(tables), f, i).present || Leaf(level, Entry(old(tables), f, i))) then 1 else 0)
      ensures ok && !Entry(old(tables), f, i).present ==> Entry(tables, f, i) == KernelLink(c) && forall j: nat ::
              !Entry(tables, c, j).present
      ensures ok && Entry(old(tables), f, i).present && Leaf(level, Entry(old(tables), f, i)) ==>
                Entry(tables, f, i) == KernelLink(c) && c in tables
                    && tables[c] == SplitEntries(Entry(old(tables), f, i))
      ensures !ok || (Entry(old(tables), f, i).present && !Leaf(level, Entry(old(tables), f, i))) ==>
              tables == old(tables) && info == old(info)
    {
      var e := Entry(tables, f, i);
      assert TableOk(tables, info, f) && LinkOk(tables, info, kernel, f, i);
      if !e.present {
        if |pool| == 0 {
          return false, 0;
        }
        forall v | Cut(v) ensures Agrees(tables, info, f, i, ZEROS, v) { EmptyAgrees(tables, info, f, i, v); }
        c := OpenTable(f, i, ZEROS, false);
        return true, c;
      }
      if Leaf(level, e) {
        if level == 3 || |pool| == 0 {
          return false, 0;
        }
        var es := SplitTable(e);
        forall v | Cut(v) ensures Agrees(tables, info, f, i, es, v) { SplitAgrees(tables, info, f, i, e, v); }
        c := OpenTable(f, i, es, false);
        return true, c;
      }
      return true, e.frame;
    }
  
    /** The way down to the level-1 table for `v`, making the missing tables. */
    method Descend(level: nat, f: nat, v: Va) returns (ok: bool, pt: nat)
      requires Valid() && f in info && info[f] == Info(level, kernel) && level <= 4 && Cut(v)
      requires (level == 4 ==> v.i4 != RECURSIVE)
      modifies this`tables, this`pool, this`info
      ensures Valid() && SameMaps(old(tables), tables, old(info)) && SameAbove(old(tables), tables, old(info), level)
      ensures Extends(old(info), info)
      ensures SameLeafTables(old(tables), tables, old(info))
      ensures ok <==> 0 <= Needed(old(tables), level, f, v) <= |old(pool)|
      ensures ok ==> |pool| == |old(pool)| - Needed(old(tables), level, f, v)
      ensures |pool| <= |old(pool)| && (|old(pool)| == 0 ==> tables == old(tables) && info == old(info))
      ensures AlongWay(old(tables), tables, old(info), v)
      ensures !ok ==> !(0 <= Needed(tables, level, f, v) <= |pool|)
      ensures ok ==> LeafTable(tables, level, f, v) == Some(pt) && pt in info && info[pt] == Info(1, kernel)
      decreases level
    {
      assert TableOk(tables, info, f);
      if level == 1 {
        return true, f;
      }
      ghost var t, info0 := tables, info;
      var c;
      ok, c := NextTable(level, f, Index(v, level));
      if !ok {
        return false, 0;
      }
      ghost var t1, info1 := tables, info;
      ok, pt := Descend(level - 1, c, v);
      SameTrans(t, t1, tables, info0, info1);
      SameLeafTrans(t, t1, tables, info0, info1);
    }
  
    /** Stores `e` in slot `i` of level-1 table `pt`. */
    method WriteLeaf(pt: nat, i: nat, e: Pte)
      requires Valid() && pt in info && info[pt].level == 1 && i < ENTRIES
      modifies this`tables
      ensures Valid() && Remapped(old(tables), tables, info, pt, i, e) && tables == Set(old(tables), pt, i, e)
      ensures Entry(tables, pt, i) == e
      ensures SameLeafTables(old(tables), tables, info) && SameAbove(old(tables), tables, info, 1)
      ensures MappableKept(old(tables), tables, info)
      ensures Was(old(tables), tables, info, pt, i, Entry(old(tables), pt, i))
      ensures forall r: nat, v: Va ::
              Addressable(info, r, v) ==> LeafTable(tables, 4, r, v) == LeafTable(old(tables), 4, r, v)
    {
      assert TableOk(tables, info, pt);
      LeafWriteRemaps(tables, info, kernel, pt, i, e);
      LeafWriteStratified(tables, info, kernel, pt, i, e);
      LeafWriteTrees(tables, info, pt, i, e);
      ghost var t, t' := tables, Set(tables, pt, i, e);
      assert SameAbove(t, t', info, 1);
      MirrorAbove(t, t', info, kernel);
      AboveMappable(t, t', info, kernel);
      forall r: nat, v: Va | Addressable(info, r, v)
        ensures LeafTable(t', 4, r, v) == LeafTable(t, 4, r, v)
        ensures EndsAt(t', r, v, pt, i) ==> Translate(t, r, v) == PageAt(Entry(t, pt, i), v)
      {
        LeafWrite(t, info, kernel, pt, i, e, 4, r, v);
        if LeafTable(t, 4, r, v) == Some(pt) { SlotSays(t, 4, r, v, pt); }
      }
      tables := Set(tables, pt, i, e);
    }

    /**
     * vmm_map_page; the flags are those of `flags`. The page is now in table `pt`, and the addresses that end in
     * its slot translated through `was` before.
     */
    method MapPage(virt: nat, phys: nat, flags: Pte) returns (ok: bool, ghost pt: nat, ghost was: Pte)
      requires Valid() && VaOf(virt).i4 != RECURSIVE
      modifies this`tables, this`pool, this`info
      ensures Valid() && Extends(old(info), info)
      ensures SameLeafTables(old(tables), tables, old(info)) && AlongWay(old(tables), tables, old(info), VaOf(virt))
      ensures |pool| <= |old(pool)|
      ensures |old(pool)| == 0 ==> info == old(info) && SameAbove(old(tables), tables, info, 1)
      ensures ok <==>
              virt % PAGE == 0 && phys % PAGE == 0 && 0 <= Needed(old(tables), 4, kernel, VaOf(virt)) <= |old(pool)|
      ensures !ok ==> SameMaps(old(tables), tables, old(info))
      ensures !ok && virt % PAGE == 0 && phys % PAGE == 0 ==> Stuck(tables, pool, kernel, VaOf(virt))
      ensures ok ==> |pool| == |old(pool)| - Needed(old(tables), 4, kernel, VaOf(virt))
      ensures ok ==> EndsAt(tables, kernel, VaOf(virt), pt, VaOf(virt).i1) && pt in info && info[pt] == Info(1, kernel)
      ensures ok ==> Remapped(old(tables), tables, old(info), pt, VaOf(virt).i1, flags.(frame := phys / PAGE))
      ensures ok ==> Was(old(tables), tables, old(info), pt, VaOf(virt).i1, was)
      ensures ok ==> Entry(tables, pt, VaOf(virt).i1) == flags.(frame := phys / PAGE)
      ensures ok && flags.present ==> forall w: Va ::
              Cut(w) && SamePage(VaOf(virt), w) ==> Translate(tables, kernel, w) == Some(phys + w.off)
    {
      pt, was := 0, NIL;
      if virt % PAGE != 0 || phys % PAGE != 0 {
        return false, pt, was;
      }
      var v := VaOf(virt);
      ghost var t, info0 := tables, info;
      var p;
      assert TableOk(tables, info, kernel);
      ok, p := Descend(4, kernel, v);
      if ok {
        pt, was := p, Entry(tables, p, v.i1);
        PlacePage(p, v, flags.(frame := phys / PAGE), t, info0);
      }
    }

    /** The store at the end of vmm_map_page, `t` being the tables before the call. */
    method PlacePage(p: nat, v: Va, e: Pte, ghost t: Tables, ghost info0: map<nat, Info>)
      requires Valid() && Extends(info0, info) && Cut(v) && v.i4 != RECURSIVE && p in info && info[p].level == 1
      requires LeafTable(tables, 4, kernel, v) == Some(p)
      requires SameMaps(t, tables, info0) && SameLeafTables(t, tables, info0) && AlongWay(t, tables, info0, v)
      modifies this`tables
      ensures Valid() && SameLeafTables(t, tables, info0) && AlongWay(t, tables, info0, v)
              && Entry(tables, p, v.i1) == e
      ensures SameAbove(old(tables), tables, info, 1)
      ensures Remapped(t, tables, info0, p, v.i1, e) && Was(t, tables, info0, p, v.i1, Entry(old(tables), p, v.i1))
      ensures forall w: Va :: Cut(w) && SamePage(v, w) ==> EndsAt(tables, kernel, w, p, v.i1)
      ensures forall w: Va :: Cut(w) && SamePage(v, w) ==> Translate(tables, kernel, w) == PageAt(e, w)
    {
      ghost var t1 := tables;
      WriteLeaf(p, v.i1, e);
      RemappedAfter(t, t1, tables, info0, info, p, v.i1, e);
      WasAfter(t, t1, tables, info0, info, p, v.i1, Entry(t1, p, v.i1));
      SameLeafTrans(t, t1, tables, info0, info);
      AlongLeaf(t, t1, info0, v, p, e);
      forall w: Va | Cut(w) && SamePage(v, w)
        ensures EndsAt(tables, kernel, w, p, v.i1) && Translate(tables, kernel, w) == PageAt(e, w)
      {
        assert Addressable(info, kernel, v) && Addressable(info, kernel, w);
        SamePath(tables, 4, kernel, v, w);
        SlotSays(tables, 4, kernel, w, p);
      }
    }

    /** The level-1 table an address leads to in the kernel's tables, if there is one. */
    method FindTable(v: Va) returns (r: Option<nat>)
      requires Valid() && Cut(v) && v.i4 != RECURSIVE
      ensures r == LeafTable(tables, 4, kernel, v) && (r.Some? ==> r.value in info && info[r.value] == Info(1, kernel))
    {
      var level, f := 4, kernel;
      assert TableOk(tables, info, kernel);
      while level > 1
        invariant 1 <= level <= 4 && f in info && info[f] == Info(level, kernel)
        invariant LeafTable(tables, 4, kernel, v) == LeafTable(tables, level, f, v)
      {
        assert LinkOk(tables, info, kernel, f, Index(v, level));
        var e := Entry(tables, f, Index(v, level));
        if !e.present || Leaf(level, e) {
          return None;
        }
        level, f := level - 1, e.frame;
      }
      r := Some(f);
    }

    method UnmapPage(virt: nat) returns (ok: bool, ghost pt: nat)
      requires Valid() && VaOf(virt).i4 != RECURSIVE
      modifies this`tables
      ensures Valid()
      ensures var w := WalkFrom(old(tables), 4, kernel, VaOf(virt)); ok <==> w.Mapped? && w.level == 1
      ensures !ok ==> tables == old(tables)
      ensures SameLeafTables(old(tables), tables, info) && SameAbove(old(tables), tables, info, 1)
      ensures ok ==>
              EndsAt(tables, kernel, VaOf(virt), pt, VaOf(virt).i1)
              && Remapped(old(tables), tables, info, pt, VaOf(virt).i1, NIL)
      ensures ok ==> Translate(tables, kernel, VaOf(virt)) == None
    {
      var v := VaOf(virt);
      pt := 0;
      WalkEnd(tables, 4, kernel, v);
      var p := FindTable(v);
      if p == None || !Entry(tables, p.value, v.i1).present {
        return false, pt;
      }
      assert Addressable(info, kernel, v);
      WriteLeaf(p.value, v.i1, NIL);
      return true, p.value;
    }

    method GetPhysical(virt: nat) returns (phys: nat)
      requires Valid() && VaOf(virt).i4 != RECURSIVE
      ensures phys == match Translate(tables, kernel, VaOf(virt)) case Some(x) => x case None => 0
    {
      var level, f, v := 4, kernel, VaOf(virt);
      assert TableOk(tables, info, kernel);
      while level >= 1
        invariant level <= 4 && (level >= 1 ==> f in info && info[f] == Info(level, kernel))
        invariant level >= 1 && PhysFrom(tables, 4, kernel, v) == PhysFrom(tables, level, f, v)
      {
        assert LinkOk(tables, info, kernel, f, Index(v, level));
        var e := Entry(tables, f, Index(v, level));
        if !e.present {
          return 0;
        }
        if Leaf(level, e) {
          return e.frame * PAGE + Offset(v, level);
        }
        level, f := level - 1, e.frame;
      }
    }

    method IsMapped(virt: nat) returns (ok: bool)
      requires Valid() && VaOf(virt).i4 != RECURSIVE
      ensures ok <==> Translate(tables, kernel, VaOf(virt)).Some? && Translate(tables, kernel, VaOf(virt)) != Some(0)
    {
      var phys := GetPhysical(virt);
      ok := phys != 0;
    }

    // ----- ranges -----

    /**
     * vmm_map_range, with its rollback; `slots` are the leaf slots of the pages it mapped. A failed call leaves
     * every translation as it was exactly when none of those pages was mapped before.
     */
    method MapRange(virt: nat, phys: nat, size: nat, flags: Pte) returns (ok: bool, ghost slots: seq<(nat, nat)>)
      requires Valid() && forall k: nat :: k < PageCount(size) ==> PageOf(virt, k).i4 != RECURSIVE
      modifies this`tables, this`pool, this`info
      ensures Valid() && Extends(old(info), info) && |slots| <= PageCount(size)
      ensures SlotsOf(tables, info, kernel, virt, slots)
      ensures |old(pool)| == 0 ==> info == old(info) && SameAbove(old(tables), tables, info, 1)
      ensures ok ==> |slots| == PageCount(size) && Layered(old(tables), tables, old(info), slots, flags, phys)
      ensures !ok ==>
              |slots| < PageCount(size) && RolledBack(old(tables), tables, old(info), slots, |slots|, flags, phys)
      ensures !ok ==> Stuck(tables, pool, kernel, PageOf(virt, |slots|))
      ensures ok && flags.present ==> AllBytes(tables, kernel, virt, phys, size, slots)
      ensures ok && RangeInRegion(virt, PageCount(size)) ==> forall k: nat :: k < |slots| ==> NoLater(slots, k)
      ensures RangeInRegion(virt, PageCount(size)) ==>
              (ok <==> PageCount(size) == 0 || !Stuck(old(tables), old(pool), kernel, PageOf(virt, 0)))
      ensures !ok ==> (SameMaps(old(tables), tables, old(info)) <==>
                       forall k: nat :: k < |slots| ==> Translate(old(tables), kernel, PageOf(virt, k)) == None)
    {
      slots := [];
      var i := 0;
      ghost var t0, info0, was := tables, info, [];
      while i < PageCount(size)
        invariant i == |slots| <= PageCount(size) && Valid() && Extends(info0, info)
        invariant |old(pool)| == 0 ==> |pool| == 0 && info == info0 && SameAbove(t0, tables, info, 1)
        invariant Progress(t0, tables, info0, info, kernel, virt, slots, was, flags, phys)
        invariant RangeInRegion(virt, PageCount(size)) ==> RegionSoFar(t0, tables, old(pool), pool, kernel, virt, i)
      {
        if RangeInRegion(virt, PageCount(size)) { NeededOfRegion(tables, 4, kernel, PageOf(virt, 0), PageOf(virt, i)); }
        ok, slots, was := RangeStep(virt, phys, i, flags, t0, info0, slots, was);
        if !ok {
          ghost var t := tables;
          Rollback(virt, i, t0, info0, slots, was, flags, phys);
          NeededAbove(t, tables, info, kernel, 4, kernel, PageOf(virt, i));
          RestoresIff(t0, tables, info0, info, kernel, virt, slots, was, flags, phys);
          return;
        }
        if RangeInRegion(virt, PageCount(size)) { NeededOfRegion(tables, 4, kernel, PageOf(virt, 0), PageOf(virt, i)); }
        i := i + 1;
      }
      ok := true;
      if flags.present { RangeBytes(t0, tables, info0, info, kernel, virt, slots, flags, phys, size); }
      if RangeInRegion(virt, PageCount(size)) {
        forall k: nat | k < |slots| ensures NoLater(slots, k) { RegionSlots(tables, info, kernel, virt, slots, k); }
      }
    }

    method MapRangePage(virt: nat, phys: nat, i: nat, flags: Pte) returns (ok: bool, ghost pt: nat, ghost was: Pte)
      requires Valid() && PageOf(virt, i).i4 != RECURSIVE
      modifies this`tables, this`pool, this`info
      ensures Valid() && Extends(old(info), info) && SameLeafTables(old(tables), tables, old(info))
      ensures |old(pool)| == 0 ==> |pool| == 0 && info == old(info) && SameAbove(old(tables), tables, info, 1)
      ensures !ok ==> SameMaps(old(tables), tables, old(info)) && Stuck(tables, pool, kernel, PageOf(virt, i))
      ensures ok <==> !Stuck(old(tables), old(pool), kernel, PageOf(virt, i))
      ensures ok ==> Needed(tables, 4, kernel, PageOf(virt, i)) == 0
      ensures ok ==> pt in info && EndsAt(tables, kernel, PageOf(virt, i), pt, PageOf(virt, i).i1)
      ensures ok ==> Remapped(old(tables), tables, old(info), pt, PageOf(virt, i).i1, RangeEntry(flags, phys, i))
      ensures ok ==> Was(old(tables), tables, old(info), pt, PageOf(virt, i).i1, was)
    {
      RangeFrame(virt, i);
      RangeFrame(phys, i);
      ok, pt, was := MapPage(PageStart(virt, i), PageStart(phys, i), flags);
      if ok { ReachedNeedsNone(tables, 4, kernel, PageOf(virt, i)); }
    }

    method RangeStep(virt: nat, phys: nat, i: nat, flags: Pte, ghost t0: Tables, ghost info0: map<nat, Info>,
        ghost slots: seq<(nat, nat)>, ghost was: seq<Pte>)
      returns (ok: bool, ghost slots': seq<(nat, nat)>, ghost was': seq<Pte>)
      requires Valid() && |slots| == i && Extends(info0, info) && forall k: nat ::
               k <= i ==> PageOf(virt, k).i4 != RECURSIVE
      requires Progress(t0, tables, info0, info, kernel, virt, slots, was, flags, phys)
      modifies this`tables, this`pool, this`info
      ensures Valid() && Extends(info0, info) && |slots'| == if ok then i + 1 else i
      ensures |old(pool)| == 0 ==> |pool| == 0 && info == old(info) && SameAbove(old(tables), tables, info, 1)
      ensures !ok ==> Stuck(tables, pool, kernel, PageOf(virt, i))
      ensures ok <==> !Stuck(old(tables), old(pool), kernel, PageOf(virt, i))
      ensures ok ==> Needed(tables, 4, kernel, PageOf(virt, i)) == 0
      ensures Progress(t0, tables, info0, info, kernel, virt, slots', was', flags, phys)
    {
      ghost var t, info1 := tables, info;
      ghost var pt, x;
      assert PageOf(virt, i).i4 != RECURSIVE;
      ok, pt, x := MapRangePage(virt, phys, i, flags);
      slots', was' := slots, was;
      if ok {
        ProgressStep(t0, t, tables, info0, info1, info, kernel, virt, slots, was, pt, x, flags, phys);
        slots', was' := slots + [(pt, PageOf(virt, i).i1)], was + [Earliest(slots, was, (pt, PageOf(virt, i).i1), x)];
      } else {
        ProgressSame(t0, t, tables, info0, info1, info, kernel, virt, slots, was, flags, phys);
      }
    }

    method Rollback(virt: nat, n: nat, ghost t0: Tables, ghost info0: map<nat, Info>, ghost slots: seq<(nat, nat)>,
        ghost was: seq<Pte>, ghost flags: Pte, ghost phys: nat)
      requires Valid() && |slots| == n && Extends(info0, info) && forall k: nat ::
               k < n ==> PageOf(virt, k).i4 != RECURSIVE
      requires Progress(t0, tables, info0, info, kernel, virt, slots, was, flags, phys)
      modifies this`tables
      ensures Valid() && SlotsOf(tables, info, kernel, virt, slots) && Originals(t0, tables, info0, slots, was)
      ensures RolledBack(t0, tables, info0, slots, n, flags, phys)
      ensures Stratified(old(tables), info, kernel) && SameAbove(old(tables), tables, info, 1)
    {
      ghost var t := tables;
      for j := 0 to n
        invariant SameAbove(t, tables, info, 1)
        invariant Valid() && SlotsOf(tables, info, kernel, virt, slots) && Originals(t0, tables, info0, slots, was)
        invariant RolledBack(t0, tables, info0, slots, j, flags, phys)
      {
        RollbackOne(virt, j, t0, info0, slots, was, flags, phys);
      }
    }

    method RollbackOne(virt: nat, j: nat, ghost t0: Tables, ghost info0: map<nat, Info>, ghost slots: seq<(nat, nat)>,
        ghost was: seq<Pte>, ghost flags: Pte, ghost phys: nat)
      requires Valid() && j < |slots| && Extends(info0, info) && forall k: nat ::
               k < |slots| ==> PageOf(virt, k).i4 != RECURSIVE
      requires SlotsOf(tables, info, kernel, virt, slots) && RolledBack(t0, tables, info0, slots, j, flags, phys)
      requires Originals(t0, tables, info0, slots, was)
      modifies this`tables
      ensures Valid() && SlotsOf(tables, info, kernel, virt, slots) && Originals(t0, tables, info0, slots, was)
      ensures RolledBack(t0, tables, info0, slots, j + 1, flags, phys)
      ensures SameAbove(old(tables), tables, info, 1)
    {
      ghost var t := tables;
      assert PageOf(virt, j).i4 != RECURSIVE && Addressable(info, kernel, PageOf(virt, j)) && slots[j].0 in info;
      WalkEnd(tables, 4, kernel, PageOf(virt, j));
      var ok, _ := UnmapPage(PageStart(virt, j));
      if !ok { AbsentRemapped(tables, info, slots[j].0, slots[j].1); }
      SlotsSame(t, tables, info, info, kernel, virt, slots);
      OriginalsSame(t0, t, tables, info0, info, slots, was);
      RollbackStep(t0, t, tables, info0, info, slots, j, flags, phys);
    }

    // ----- user address spaces -----

    method CopyRoot() returns (es: seq<Pte>)
      requires Valid()
      ensures kernel in tables && |tables[kernel]| == ENTRIES && es == RootEntries(tables[kernel])
    {
      assert TableOk(tables, info, kernel);
      es := ZEROS;
      for i := 256 to ENTRIES
        invariant |es| == ENTRIES && forall j ::
                  0 <= j < ENTRIES ==> es[j] == if 256 <= j < i then tables[kernel][j] else NIL
      {
        es := es[i := tables[kernel][i]];
      }
      es := es[0 := tables[kernel][0]];
    }

    /** vmm_create_address_space; zero means failure. */
    method CreateAddressSpace() returns (root: nat)
      requires Valid()
      modifies this`tables, this`pool, this`info
      ensures Valid() && Extends(old(info), info) && SameMaps(old(tables), tables, old(info))
      ensures root == 0 <==> |old(pool)| == 0
      ensures root == 0 ==> tables == old(tables) && info == old(info) && pool == old(pool)
      ensures kernel in old(tables) && |old(tables)[kernel]| == ENTRIES
      ensures root != 0 ==> root == old(pool)[0] && pool == old(pool)[1..] && root !in old(info) && root != kernel
      ensures root != 0 ==>
              info == old(info)[root := Info(4, root)]
              && tables == old(tables)[root := RootEntries(old(tables)[kernel])]
      ensures root != 0 ==> ShowsKernel(tables, kernel, root)
    {
      var es := CopyRoot();
      if |pool| == 0 {
        return 0;
      }
      root := pool[0];
      NewRoot(tables, info, kernel, root);
      NewRootOk(tables, info, kernel, root);
      MirrorRoot(tables, info, kernel, root);
      tables := tables[root := es];
      info := info[root := Info(4, root)];
      pool := pool[1..];
    }

    method CopyTable(k: nat) returns (es: seq<Pte>)
      requires k in tables && |tables[k]| == ENTRIES
      ensures es == tables[k]
    {
      es := [];
      for i := 0 to ENTRIES
        invariant es == tables[k][..i]
      {
        es := es + [tables[k][i]];
      }
    }

    /** Walk or create one level for space `s`; a table shared with the kernel is copied first. */
    method UserTable(s: nat, level: nat, f: nat, v: Va) returns (ok: bool, c: nat)
      requires Valid() && s != kernel && f in info && info[f] == Info(level, s) && 3 <= level
      requires Cut(v) && (level == 4 ==> v.i4 != RECURSIVE) && Passable(tables, level, f, v)
      modifies this`tables, this`pool, this`info
      ensures Valid() && Extends(old(info), info) && Changes(old(tables), tables, old(info))
      ensures Drawn(old(pool), pool, old(info), info)
      ensures OnlySlot(old(tables), tables, old(info), f, Index(v, level))
      ensures ok ==> var e := Entry(tables, f, Index(v, level));
              c in info && info[c] == Info(level - 1, s) && e.frame == c && e.present && e.user && !Leaf(level, e)
      ensures ok ==> var e := Entry(old(tables), f, Index(v, level));
              Entry(tables, f, Index(v, level)) == if e.present && e.user then e else UserLink(c)
      ensures ok ==> Passable(tables, level - 1, c, v)
      ensures var p := UserPlan(old(tables), level, f, v);
              if ok then UserPlan(tables, level - 1, c, v).tables + |old(pool)| - |pool| == p.tables
                  && UserPlan(tables, level - 1, c, v).pd == p.pd && |pool| <= |old(pool)|
              else p.tables > |old(pool)| && |pool| == 0
    {
      var i := Index(v, level);
      var e := Entry(tables, f, i);
      assert TableOk(tables, info, f) && LinkOk(tables, info, kernel, f, i);
      if e.present && e.user {
        return true, e.frame;
      }
      if |pool| == 0 {
        return false, 0;
      }
      if !e.present {
        forall w | Cut(w) ensures Agrees(tables, info, f, i, ZEROS, w) { EmptyAgrees(tables, info, f, i, w); }
        c := OpenTable(f, i, ZEROS, true);
        return true, c;
      }
      c := CopyShared(s, level, f, v);
      return true, c;
    }

    method CopyShared(s: nat, level: nat, f: nat, v: Va) returns (c: nat)
      requires Valid() && s != kernel && f in info && info[f] == Info(level, s)
      requires 3 <= level <= 4 && |pool| > 0 && Passable(tables, level, f, v)
      requires Cut(v) && (level == 4 ==> v.i4 != RECURSIVE)
      requires Entry(tables, f, Index(v, level)).present && !Entry(tables, f, Index(v, level)).user
      modifies this`tables, this`pool, this`info
      ensures Valid() && Extends(old(info), info) && Changes(old(tables), tables, old(info))
      ensures Drawn(old(pool), pool, old(info), info)
      ensures OnlySlot(old(tables), tables, old(info), f, Index(v, level))
      ensures c in info && info[c] == Info(level - 1, s) && Entry(tables, f, Index(v, level)) == UserLink(c)
      ensures Passable(tables, level - 1, c, v)
      ensures var p := UserPlan(old(tables), level, f, v);
              UserPlan(tables, level - 1, c, v).tables + 1 == p.tables && UserPlan(tables, level - 1, c, v).pd == p.pd
                  && |pool| == |old(pool)| - 1
    {
      var i := Index(v, level);
      var k := Entry(tables, f, i).frame;
      assert TableOk(tables, info, f) && LinkOk(tables, info, kernel, f, i) && TableOk(tables, info, k);
      var es := CopyTable(k);
      c := pool[0];
      CopyOk(tables, info, kernel, f, i, c, k);
      PlanOfCopy(tables, info, kernel, f, i, c, UserLink(c), k, v);
      DrawnOne(pool, info, Info(level - 1, s));
      info := info[c := Info(level - 1, s)];
      tables := tables[c := es];
      tables := Set(tables, f, i, UserLink(c));
      pool := pool[1..];
    }

    /** The level-1 table below entry `i` of page directory `f`: split, created, or used as it is. */
    method UserLeafTable(s: nat, f: nat, i: nat) returns (ok: bool, pt: nat)
      requires Valid() && s != kernel && f in info && info[f] == Info(2, s) && i < ENTRIES
      modifies this`tables, this`pool, this`info
      ensures Valid() && Extends(old(info), info) && Changes(old(tables), tables, old(info))
      ensures Drawn(old(pool), pool, old(info), info)
      ensures OnlySlot(old(tables), tables, old(info), f, i)
      ensures var e := Entry(old(tables), f, i); ok <==> (e.present && !e.huge) || |old(pool)| > 0
      ensures ok ==> pt in info && info[pt] == Info(1, if Private(Entry(old(tables), f, i)) then s else kernel)
      ensures ok ==> var e := Entry(tables, f, i); e.frame == pt && e.present && !e.huge
      ensures var e := Entry(old(tables), f, i); |pool| == |old(pool)| - if !ok || (e.present && !e.huge) then 0 else 1
      ensures ok ==> var e := Entry(old(tables), f, i);
              if e.present && !e.huge then tables == old(tables) && info == old(info)
              else Entry(tables, f, i) == UserLink(pt) && pt in tables
                   && tables[pt] == if e.present then SplitEntries(Pte(e.frame, true, true, true, false, 0)) else ZEROS
    {
      var e := Entry(tables, f, i);
      assert TableOk(tables, info, f) && LinkOk(tables, info, kernel, f, i);
      if e.present && !e.huge {
        return true, e.frame;
      }
      if |pool| == 0 {
        return false, 0;
      }
      var es := ZEROS;
      if e.present {
        var page := Pte(e.frame, true, true, true, false, 0);
        es := SplitTable(page);
        forall w | Cut(w) ensures Agrees(tables, info, f, i, es, w) { SplitAgrees(tables, info, f, i, page, w); }
      } else {
        forall w | Cut(w) ensures Agrees(tables, info, f, i, es, w) { EmptyAgrees(tables, info, f, i, w); }
      }
      pt := OpenTable(f, i, es, true);
      ok := true;
    }

    /** The last step of the way down. */
    method DescendLast(s: nat, f: nat, v: Va) returns (ok: bool, pt: nat)
      requires Valid() && s != kernel && f in info && info[f] == Info(2, s) && Cut(v)
      modifies this`tables, this`pool, this`info
      ensures Valid() && Extends(old(info), info) && Changes(old(tables), tables, old(info))
      ensures Drawn(old(pool), pool, old(info), info)
      ensures SameAbove(old(tables), tables, old(info), 2)
      ensures ok <==> UserPlan(old(tables), 2, f, v).tables <= |old(pool)|
      ensures |pool| == if ok then |old(pool)| - UserPlan(old(tables), 2, f, v).tables else 0
      ensures forall j: nat :: j != v.i2 ==> Entry(tables, f, j) == Entry(old(tables), f, j)
      ensures ok ==> WayMade(old(tables), tables, info, kernel, s, 2, f, v, pt)
    {
      assert TableOk(tables, info, f) && LinkOk(tables, info, kernel, f, v.i2);
      ok, pt := UserLeafTable(s, f, v.i2);
    }

    method DescendUser(s: nat, level: nat, f: nat, v: Va) returns (ok: bool, pt: nat)
      requires Valid() && s != kernel && f in info && info[f] == Info(level, s) && 2 <= level
      requires Cut(v) && (level == 4 ==> v.i4 != RECURSIVE) && Passable(tables, level, f, v)
      modifies this`tables, this`pool, this`info
      ensures Valid() && Extends(old(info), info) && Changes(old(tables), tables, old(info))
      ensures Drawn(old(pool), pool, old(info), info)
      ensures SameAbove(old(tables), tables, old(info), level)
      ensures ok <==> UserPlan(old(tables), level, f, v).tables <= |old(pool)|
      ensures |pool| == if ok then |old(pool)| - UserPlan(old(tables), level, f, v).tables else 0
      ensures forall j: nat :: j != Index(v, level) ==> Entry(tables, f, j) == Entry(old(tables), f, j)
      ensures ok ==> WayMade(old(tables), tables, info, kernel, s, level, f, v, pt)
      decreases level
    {
      assert TableOk(tables, info, f);
      if level == 2 {
        ok, pt := DescendLast(s, f, v);
        return;
      }
      ghost var t, info0, pool0 := tables, info, pool;
      var c;
      ok, c := UserTable(s, level, f, v);
      if !ok {
        return false, 0;
      }
      ghost var t1, info1, pool1 := tables, info, pool;
      ok, pt := DescendUser(s, level - 1, c, v);
      if ok { WayStep(t, t1, tables, info0, info, kernel, s, level, f, v, c, pt); }
      ChangesTrans(t, t1, tables, info0, info1);
      DrawnTrans(pool0, pool1, pool, info0, info1, info);
    }

    /**
     * vmm_map_user_page into space `s`. Only the given page of `s` changes exactly when the page-directory entry
     * on its way leads to no table of the kernel, or the kernel already has that page there; otherwise an entry
     * of the kernel's table is overwritten and every address that ends there changes with it.
     */
    method MapUserPage(s: nat, virt: nat, phys: nat, flags: Pte) returns (ok: bool, ghost pt: nat)
      requires Valid() && s != kernel && s in info && info[s].level == 4
      requires virt < USER_SPACE_END ==> !Giant(tables, s, VaOf(virt))
      modifies this`tables, this`pool, this`info
      ensures Valid() && Extends(old(info), info)
      ensures SameLeafTables(old(tables), tables, old(info)) && MappableKept(old(tables), tables, old(info))
      ensures ok <==> virt < USER_SPACE_END && UserPlan(old(tables), 4, s, VaOf(virt)).tables <= |old(pool)|
      ensures |pool| == PoolAfter(old(tables), |old(pool)|, s, virt) && Drawn(old(pool), pool, old(info), info)
      ensures if ok then OnlyLeaf(old(tables), tables, old(info), pt, VaOf(virt).i1)
              else SameLeaves(old(tables), tables, old(info))
      ensures ok ==> UserPlan(tables, 4, s, VaOf(virt)).tables == 0
      ensures forall j: nat :: j != VaOf(virt).i4 ==> Entry(tables, s, j) == Entry(old(tables), s, j)
      ensures !ok ==> SameMaps(old(tables), tables, old(info))
      ensures ok ==> pt in info && EndsAt(tables, s, VaOf(virt), pt, VaOf(virt).i1)
      ensures ok ==> Remapped(old(tables), tables, old(info), pt, VaOf(virt).i1, UserPage(phys, flags))
      ensures ok ==> Entry(tables, pt, VaOf(virt).i1) == UserPage(phys, flags)
      ensures ok ==> LeafEntry(tables, s, VaOf(virt)) == Some(UserPage(phys, flags))
      ensures ok && flags.present ==> ShowsPage(tables, s, VaOf(virt), phys / PAGE * PAGE % 0x10_0000_0000_0000)
      ensures ok && flags.present && phys % PAGE == 0 && phys < 0x10_0000_0000_0000 ==>
              ShowsPage(tables, s, VaOf(virt), phys)
      ensures ok ==> forall w: Va :: Cut(w) && SameRegion(VaOf(virt), w) ==>
                (UserAccess(tables, s, w) <==> AccessAfter(old(tables), s, VaOf(virt), w, flags.present))
      ensures ok ==> info[pt] == Info(1, if Private(PdEntry(old(tables), s, VaOf(virt))) then s else kernel)
      ensures ok && !Private(PdEntry(old(tables), s, VaOf(virt))) ==>
                pt == PdEntry(old(tables), s, VaOf(virt)).frame && pt in old(info)
                && Translate(tables, kernel, VaOf(virt)) == PageAt(UserPage(phys, flags), VaOf(virt))
      ensures ok ==> (OnePage(old(tables), tables, old(info), s, VaOf(virt), UserPage(phys, flags)) <==>
                      || Private(PdEntry(old(tables), s, VaOf(virt)))
                      || Translate(old(tables), kernel, VaOf(virt)) == PageAt(UserPage(phys, flags), VaOf(virt)))
    {
      pt := 0;
      if virt >= USER_SPACE_END {
        return false, pt;
      }
      var v := VaOf(virt);
      ghost var t, info0 := tables, info;
      assert TableOk(tables, info, s) && TableOk(tables, info, kernel);
      NoGiantPasses(tables, s, v);
      PlanFindsPd(tables, 4, s, v);
      var p;
      ok, p := DescendUser(s, 4, s, v);
      if ok {
        pt := p;
        ghost var t1 := tables;
        PlaceUserPage(s, p, v, UserPage(phys, flags), t, info0);
        UserPageShows(tables, s, v, phys, flags);
        PlanAbove(t1, tables, info, kernel, 4, s, v);
        forall w: Va | Cut(w) && SameRegion(v, w)
          ensures UserAccess(tables, s, w) <==> AccessAfter(t, s, v, w, flags.present)
        {
          AccessMade(t, t1, tables, info0, info, kernel, s, v, w, p, UserPage(phys, flags));
        }
      }
    }

    /** The store at the end of vmm_map_user_page, `t` being the tables before the call. */
    method PlaceUserPage(s: nat, p: nat, v: Va, e: Pte, ghost t: Tables, ghost info0: map<nat, Info>)
      requires Valid() && Extends(info0, info) && s != kernel && Addressable(info0, s, v)
               && Addressable(info0, kernel, v)
      requires Stratified(t, info0, kernel) && Mirror(t, info0, kernel) && Changes(t, tables, info0)
      requires LeafTable(tables, 4, s, v) == Some(p) && p in info
      requires info[p] == Info(1, if Private(PdEntry(t, s, v)) then s else kernel)
      requires !Private(PdEntry(t, s, v)) ==> p == PdEntry(t, s, v).frame
      modifies this`tables
      ensures Valid() && SameLeafTables(t, tables, info0) && MappableKept(t, tables, info0)
      ensures EndsAt(tables, s, v, p, v.i1) && Entry(tables, p, v.i1) == e && Remapped(t, tables, info0, p, v.i1, e)
      ensures OnlyLeaf(t, tables, info0, p, v.i1)
      ensures forall w: Va :: Cut(w) && SamePage(v, w) ==> Translate(tables, s, w) == PageAt(e, w)
      ensures Stratified(old(tables), info, kernel) && SameAbove(old(tables), tables, info, 1)
      ensures forall i: nat :: i != v.i1 ==> Entry(tables, p, i) == Entry(old(tables), p, i)
      ensures !Private(PdEntry(t, s, v)) ==> p in info0 && Translate(tables, kernel, v) == PageAt(e, v)
      ensures OnePage(t, tables, info0, s, v, e) <==>
              Private(PdEntry(t, s, v)) || Translate(t, kernel, v) == PageAt(e, v)
    {
      ghost var t1, x := tables, Entry(tables, p, v.i1);
      WriteLeaf(p, v.i1, e);
      RemappedAfter(t, t1, tables, info0, info, p, v.i1, e);
      WasAfter(t, t1, tables, info0, info, p, v.i1, x);
      SameLeafTrans(t, t1, tables, info0, info);
      MappableTrans(t, t1, tables, info0, info);
      assert Addressable(info, s, v);
      LeafOnly(t, t1, info0, p, v.i1, e);
      forall w: Va | Cut(w) && SamePage(v, w) ensures Translate(tables, s, w) == PageAt(e, w) {
        LeafShows(tables, s, v, e, w);
      }
      if Private(PdEntry(t, s, v)) {
        OwnedSlot(t, tables, info0, info, kernel, s, v, p, e);
      } else {
        SharedPd(t, info0, kernel, s, v);
        assert EndsAt(t, kernel, v, p, v.i1) && EndsAt(tables, kernel, v, p, v.i1);
        SharedWrite(t, tables, info0, kernel, s, v, p, e, x);
      }
    }

    // ----- runs of user mappings -----

    ghost function Now(): Moment
      reads this`tables, this`pool
    {
      Moment(tables, |pool|)
    }

    /**
     * Any run of vmm_map_user_page calls whose pages are mappable when it starts: a call succeeds exactly when
     * the tables it needs at that moment can be made, every address of every space translates as the last
     * successful call for it says, and all others, the kernel's among them, as before.
     */
    method MapUserPages(reqs: seq<Request>) returns (ghost calls: seq<Option<Call>>, ghost trace: seq<Moment>)
      requires Valid() && forall k :: 0 <= k < |reqs| ==> Grantable(tables, info, kernel, reqs[k])
      modifies this`tables, this`pool, this`info
      ensures Valid() && Extends(old(info), info)
      ensures Traced(old(Now()), reqs, calls, trace, Now(), old(info))
      ensures RanTo(old(tables), tables, old(info), calls)
      ensures forall r: nat, w: Va {:trigger Translate(tables, r, w)} ::
                Addressable(old(info), r, w) && (forall k :: 0 <= k < |reqs| ==> reqs[k].space != r) ==>
                Translate(tables, r, w) == Translate(old(tables), r, w)
      ensures forall w: Va ::
              Addressable(old(info), kernel, w) ==> Translate(tables, kernel, w) == Translate(old(tables), kernel, w)
    {
      calls, trace := [], [Now()];
      ghost var t0, info0 := tables, info;
      for k := 0 to |reqs|
        invariant Valid() && Extends(info0, info) && RanTo(t0, tables, info0, calls)
        invariant Traced(old(Now()), reqs[..k], calls, trace, Now(), info0)
        invariant forall j :: 0 <= j < |reqs| ==> Grantable(tables, info, kernel, reqs[j])
      {
        assert reqs[..k + 1] == reqs[..k] + [reqs[k]];
        ghost var c := RunOne(reqs[k], t0, info0, calls, reqs);
        TraceStep(old(Now()), reqs[..k], calls, trace, info0, reqs[k], c, Now());
        calls, trace := calls + [c], trace + [Now()];
      }
      assert reqs[..|reqs|] == reqs;
      forall r: nat, w: Va | Addressable(info0, r, w) && (forall k :: 0 <= k < |reqs| ==> reqs[k].space != r)
        ensures Translate(tables, r, w) == Translate(t0, r, w)
      {
        Untouched(t0, tables, info0, calls, r, w);
      }
      assert forall k :: 0 <= k < |reqs| ==> Grantable(tables, info, kernel, reqs[k]) && reqs[k].space != kernel;
    }

    method RunOne(q: Request, ghost t0: Tables, ghost info0: map<nat, Info>, ghost calls: seq<Option<Call>>,
        ghost reqs: seq<Request>)
      returns (ghost c: Option<Call>)
      requires Valid() && Extends(info0, info) && RanTo(t0, tables, info0, calls) && q in reqs
      requires forall j :: 0 <= j < |reqs| ==> Grantable(tables, info, kernel, reqs[j])
      modifies this`tables, this`pool, this`info
      ensures Valid() && Extends(info0, info) && Granted(old(Now()), q, c, Now(), info0)
      ensures RanTo(t0, tables, info0, calls + [c])
      ensures forall j :: 0 <= j < |reqs| ==> Grantable(tables, info, kernel, reqs[j])
    {
      ghost var t, info1 := tables, info;
      assert Grantable(tables, info, kernel, q);
      var ok, _ := MapUserPage(q.space, q.virt, q.phys, q.flags);
      c := if ok then Some(CallOf(q)) else None;
      RunStep(t0, t, tables, info0, info1, calls, c);
      StepWithin(t, tables, info0, info1, c);
      forall j | 0 <= j < |reqs|
        ensures Grantable(tables, info, kernel, reqs[j])
      {
        GrantKept(t, tables, info1, info, kernel, reqs[j]);
      }
    }

    /**
     * The loop of user_load_code and user_stack_alloc: every page of [base, base + n pages) gets a frame of its own
     * from the pool, with exactly the given flags and the user flag, and no frame of the pool is lost. It stops at
     * the first page for which the frames left do not suffice for the page and the tables it needs; inside one 2 MB
     * region that is known beforehand.
     */
    method LoadPages(s: nat, base: nat, n: nat, flags: Pte)
      returns (ok: bool, ghost calls: seq<Option<Call>>, ghost trace: seq<Moment>, ghost frames: seq<nat>)
      requires Valid() && s != kernel && s in info && info[s].level == 4
      requires forall i: nat :: i < n ==> Grantable(tables, info, kernel, PageRequest(s, base, i, 0, flags))
      modifies this`tables, this`pool, this`info
      ensures Valid() && Extends(old(info), info) && RanTo(old(tables), tables, old(info), calls)
      ensures MappableKept(old(tables), tables, old(info))
      ensures |frames| == if ok then n else |calls| - 1
      ensures LoadedAt(tables, s, base, frames, flags) && Accounted(old(pool), old(info), pool, info, frames)
      ensures PagesSoFar(old(tables), tables, old(info), info, old(pool), pool, s, base, n, calls, frames, flags)
      ensures LoadTraced(old(Now()), s, base, calls, trace, Now(), old(info)) && Stopped(calls, n, ok)
      ensures OneRegion(base, n) ==> (ok <==> LoadCost(old(tables), s, base, n) <= |old(pool)|)
      ensures OneRegion(base, n) && ok ==> |pool| == |old(pool)| - LoadCost(old(tables), s, base, n)
      ensures OtherRoots(old(tables), tables, s, base, n)
    {
      calls, trace, frames, ok := [], [Now()], [], true;
      ghost var t0, info0, pool0 := tables, info, pool;
      PagesStart(tables, info, pool, s, base, n, flags);
      for i := 0 to n
        invariant Valid() && Extends(info0, info) && RanTo(t0, tables, info0, calls) && MappableKept(t0, tables, info0)
        invariant LoadedSoFar(old(Now()), Now(), info0, s, base, n, calls, trace, i) && |frames| == |calls| == i
        invariant PagesSoFar(t0, tables, info0, info, pool0, pool, s, base, n, calls, frames, flags)
      {
        assert Grantable(t0, info0, kernel, PageRequest(s, base, i, 0, flags));
        ok, calls, trace, frames := LoadNext(s, base, i, n, flags, t0, info0, pool0, old(Now()), calls, trace, frames);
        if !ok {
          break;
        }
      }
      OwnedAreLoaded(tables, info, s, base, frames, flags);
    }

    /** One round of the loop, `m0` being the moment it started. */
    method LoadNext(s: nat, base: nat, i: nat, n: nat, flags: Pte, ghost t0: Tables, ghost info0: map<nat, Info>,
        ghost pool0: seq<nat>, ghost m0: Moment, ghost calls: seq<Option<Call>>, ghost trace: seq<Moment>,
        ghost frames: seq<nat>)
      returns (ok: bool, ghost calls': seq<Option<Call>>, ghost trace': seq<Moment>, ghost frames': seq<nat>)
      requires Valid() && Extends(info0, info) && RanTo(t0, tables, info0, calls) && MappableKept(t0, tables, info0)
      requires Grantable(t0, info0, kernel, PageRequest(s, base, i, 0, flags)) && i < n && |frames| == |calls| == i
      requires m0.tables == t0 && LoadedSoFar(m0, Now(), info0, s, base, n, calls, trace, i)
      requires PagesSoFar(t0, tables, info0, info, pool0, pool, s, base, n, calls, frames, flags)
      modifies this`tables, this`pool, this`info
      ensures Valid() && Extends(info0, info) && RanTo(t0, tables, info0, calls') && MappableKept(t0, tables, info0)
      ensures |calls'| == i + 1 && |frames'| == if ok then i + 1 else i
      ensures PagesSoFar(t0, tables, info0, info, pool0, pool, s, base, n, calls', frames', flags)
      ensures LoadTraced(m0, s, base, calls', trace', Now(), info0) && OtherRoots(t0, tables, s, base, n)
      ensures if ok then LoadedSoFar(m0, Now(), info0, s, base, n, calls', trace', i + 1)
              else Stopped(calls', n, false) && (OneRegion(base, n) ==> LoadCost(t0, s, base, n) > m0.frames)
    {
      ghost var t, info1, pool1, m := tables, info, pool, Now();
      ghost var c;
      ok, c := LoadOne(s, base, i, flags, t0, info0, calls);
      LoadedNext(m0, m, Now(), info0, s, base, n, calls, trace, i, c);
      PagesNext(t0, t, tables, info0, info1, info, pool0, pool1, pool, s, base, n, calls, frames, flags, c);
      calls', trace' := calls + [c], trace + [Now()];
      frames' := if ok then frames + [FirstOf(pool1)] else frames;
    }

    /** One page: a frame for it, then the mapping; if that fails the frame goes back. */
    method LoadOne(s: nat, base: nat, i: nat, flags: Pte, ghost t0: Tables, ghost info0: map<nat, Info>,
        ghost calls: seq<Option<Call>>)
      returns (ok: bool, ghost c: Option<Call>)
      requires Valid() && Extends(info0, info) && RanTo(t0, tables, info0, calls) && MappableKept(t0, tables, info0)
      requires Grantable(t0, info0, kernel, PageRequest(s, base, i, 0, flags))
      modifies this`tables, this`pool, this`info
      ensures Valid() && Extends(info0, info) && Extends(old(info), info) && MappableKept(t0, tables, info0)
      ensures RanTo(t0, tables, info0, calls + [c]) && LoadStep(old(Now()), s, base + i * PAGE, c, Now(), info0)
      ensures (ok <==> c.Some?) && Took(old(pool), pool, old(info), info, ok)
      ensures LoadedPage(tables, info, s, base + i * PAGE, c, FirstOf(old(pool)), flags)
      ensures KeptBut(old(tables), tables, old(info), info, s, if ok then Some(VaOf(base + i * PAGE)) else None)
      ensures ok ==> UserPlan(tables, 4, s, VaOf(base + i * PAGE)).tables == 0
      ensures forall j: nat :: j != VaOf(base + i * PAGE).i4 ==> Entry(tables, s, j) == Entry(old(tables), s, j)
    {
      ghost var t, info1 := tables, info;
      c := None;
      if |pool| == 0 {
        LoadedOne(t0, t, tables, info0, info1, calls, None);
        return false, None;
      }
      GrantKept(t0, tables, info0, info, kernel, PageRequest(s, base, i, 0, flags));
      ok := MapFirst(s, base + i * PAGE, flags);
      if ok { c := Some(Call(s, VaOf(base + i * PAGE), FrameEntry(old(pool)[0], flags))); }
      LoadedOne(t0, t, tables, info0, info1, calls, c);
    }

    /** The first frame of the pool becomes the page at `virt`, or goes back if it cannot be mapped. */
    method MapFirst(s: nat, virt: nat, flags: Pte) returns (ok: bool)
      requires Valid() && |pool| > 0 && Grantable(tables, info, kernel, Request(s, virt, 0, flags))
      modifies this`tables, this`pool, this`info
      ensures Valid() && Extends(old(info), info) && MappableKept(old(tables), tables, old(info))
      ensures ok <==> virt < USER_SPACE_END && 1 + UserPlan(old(tables), 4, s, VaOf(virt)).tables <= |old(pool)|
      ensures |pool| == FramesLeft(old(Now()), s, virt) && Took(old(pool), pool, old(info), info, ok)
      ensures Changed(old(tables), tables, old(info),
                      if ok then Some(Call(s, VaOf(virt), FrameEntry(old(pool)[0], flags))) else None)
      ensures ok ==> Owns(tables, info, s, VaOf(virt), FrameEntry(old(pool)[0], flags))
      ensures KeptBut(old(tables), tables, old(info), info, s, if ok then Some(VaOf(virt)) else None)
      ensures ok ==> UserPlan(tables, 4, s, VaOf(virt)).tables == 0
      ensures forall j: nat :: j != VaOf(virt).i4 ==> Entry(tables, s, j) == Entry(old(tables), s, j)
    {
      var page := pool[0];
      pool := pool[1..];
      ok := MapOwn(s, virt, page, flags);
      if !ok {
        PutBack(old(pool), pool, old(info), info);
        pool := [page] + pool;
      }
    }

    /** vmm_map_user_page where it does not touch the kernel's tables. */
    method MapOwn(s: nat, virt: nat, page: nat, flags: Pte) returns (ok: bool)
      requires Valid() && Grantable(tables, info, kernel, Request(s, virt, page * PAGE, flags))
      modifies this`tables, this`pool, this`info
      ensures Valid() && Extends(old(info), info) && MappableKept(old(tables), tables, old(info))
      ensures ok <==> virt < USER_SPACE_END && UserPlan(old(tables), 4, s, VaOf(virt)).tables <= |old(pool)|
      ensures |pool| == PoolAfter(old(tables), |old(pool)|, s, virt) && Drawn(old(pool), pool, old(info), info)
      ensures Changed(old(tables), tables, old(info),
                      if ok then Some(Call(s, VaOf(virt), FrameEntry(page, flags))) else None)
      ensures ok ==> Owns(tables, info, s, VaOf(virt), FrameEntry(page, flags))
      ensures KeptBut(old(tables), tables, old(info), info, s, if ok then Some(VaOf(virt)) else None)
      ensures ok ==> UserPlan(tables, 4, s, VaOf(virt)).tables == 0
      ensures forall j: nat :: j != VaOf(virt).i4 ==> Entry(tables, s, j) == Entry(old(tables), s, j)
    {
      ghost var t, info0 := tables, info;
      ghost var pt;
      ok, pt := MapUserPage(s, virt, page * PAGE, flags);
      if ok {
        UserRoot(virt);
        WriteKeeps(t, tables, info0, info, kernel, s, VaOf(virt), pt);
      } else {
        NoWriteKeeps(t, tables, info0, info, s);
      }
    }

    /**
     * The address space of user_process_create: the code pages, then the stack, every page in a frame of its own.
     * Nothing the kernel or another process sees changes, provided the code pages are mappable in the kernel's own
     * tables. Up to 2 MB of code, it succeeds exactly when the frames suffice.
     */
    method CreateUserSpace(codePages: nat)
      returns (root: nat, ok: bool, ghost code: seq<nat>, ghost stack: seq<nat>)
      requires Valid() && codePages * PAGE <= USER_SPACE_END - USER_CODE_BASE
      requires forall i: nat :: i < codePages ==> Mappable(tables, kernel, VaOf(USER_CODE_BASE + i * PAGE))
      modifies this`tables, this`pool, this`info
      ensures Valid() && Extends(old(info), info) && (ok ==> root != 0)
      ensures root != 0 ==> root !in old(info) && root in info && info[root].level == 4
      ensures SameMaps(old(tables), tables, old(info))
      ensures ok ==> |code| == codePages && |stack| == STACK_PAGES && CodeLoaded(tables, root, code)
                     && LoadedAt(tables, root, USER_STACK_BASE, stack, STACK_FLAGS)
      ensures Accounted(old(pool), old(info), pool, info, code + stack)
      ensures ok ==>
              Loaded(tables, root, USER_CODE_BASE, codePages) && Loaded(tables, root, USER_STACK_BASE, STACK_PAGES)
      ensures kernel in old(tables) && |old(tables)[kernel]| == ENTRIES
      ensures codePages <= 512 ==>
              (ok <==> |old(pool)| > 0 && SpaceCost(old(tables), kernel, old(pool)[0], codePages) <= |old(pool)|)
    {
      ghost var t0, info0, pool0 := tables, info, pool;
      code, stack := [], [];
      root := CreateAddressSpace();
      if root == 0 {
        assert code + stack == [];
        return 0, false, [], [];
      }
      NewSpaceGrants(t0, info0, kernel, root, codePages);
      ghost var t1, info1, pool1, calls := tables, info, pool, [];
      RootAccounted(pool0, info0, root);
      ok, calls, code, stack := FillSpace(root, codePages);
      FilledSpace(t0, t1, tables, info0, info1, root, calls);
      AccountedJoin(pool0, info0, pool1, info1, pool, info, [], code + stack);
      assert [] + (code + stack) == code + stack;
      if ok { AllLoaded(tables, root, code, stack); }
    }

    method FillSpace(root: nat, codePages: nat)
      returns (ok: bool, ghost calls: seq<Option<Call>>, ghost code: seq<nat>, ghost stack: seq<nat>)
      requires Valid() && root != kernel && root in info && info[root].level == 4 && !Entry(tables, root, 255).present
      requires codePages * PAGE <= USER_SPACE_END - USER_CODE_BASE
      requires forall i: nat ::
               i < codePages ==> Grantable(tables, info, kernel, PageRequest(root, USER_CODE_BASE, i, 0, CODE_FLAGS))
      requires forall i: nat ::
               i < STACK_PAGES ==>
               Grantable(tables, info, kernel, PageRequest(root, USER_STACK_BASE, i, 0, STACK_FLAGS))
      modifies this`tables, this`pool, this`info
      ensures Valid() && Extends(old(info), info) && RanTo(old(tables), tables, old(info), calls)
      ensures AllFor(calls, root)
      ensures ok ==> |code| == codePages && |stack| == STACK_PAGES && CodeLoaded(tables, root, code)
                     && LoadedAt(tables, root, USER_STACK_BASE, stack, STACK_FLAGS)
      ensures Accounted(old(pool), old(info), pool, info, code + stack)
      ensures codePages <= 512 ==>
              (ok <==> LoadCost(old(tables), root, USER_CODE_BASE, codePages) + STACK_PAGES + 3 <= |old(pool)|)
    {
      ghost var t0, info0, pool0 := tables, info, pool;
      ghost var trace;
      stack := [];
      if codePages <= 512 { CodeRegion(codePages); }
      ok, calls, trace, code := LoadPages(root, USER_CODE_BASE, codePages, CODE_FLAGS);
      assert code + [] == code;
      if ok {
        ghost var t1, info1, pool1, more := tables, info, pool, [];
        forall i: nat | i < STACK_PAGES
          ensures Grantable(tables, info, kernel, PageRequest(root, USER_STACK_BASE, i, 0, STACK_FLAGS))
        {
          GrantKept(t0, tables, info0, info, kernel, PageRequest(root, USER_STACK_BASE, i, 0, STACK_FLAGS));
        }
        StackRegion(t0, t1, root, codePages);
        ok, more, trace, stack := LoadPages(root, USER_STACK_BASE, STACK_PAGES, STACK_FLAGS);
        RunsJoin(t0, t1, tables, info0, info1, calls, more);
        AccountedJoin(pool0, info0, pool1, info1, pool, info, code, stack);
        CodeStays(t1, tables, info1, info, root, code);
        calls := calls + more;
      }
    }
  }
}
