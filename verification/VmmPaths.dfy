/**
 * The tables an address passes on its way down, and what installing a table does to those ways: which entry
 * decides a translation, who meets which table, and that every space sees the kernel's tables where the
 * kernel itself does.
 */
module VmmPaths {
  import opened Basics
  import opened VmmSpec

  /** The level-`l` table on the way of `v` from table `f`. */
  function TableAt(t: Tables, level: nat, f: nat, v: Va, l: nat): Option<nat>
    decreases level
  {
    if level <= l then Some(f)
    else
      var e := Entry(t, f, Index(v, level));
      if !e.present || Leaf(level, e) then None else TableAt(t, level - 1, e.frame, v, l)
  }

  lemma {:induction false} LeafIsTableAt(t: Tables, level: nat, f: nat, v: Va)
    ensures LeafTable(t, level, f, v) == TableAt(t, level, f, v, 1)
    decreases level
  {
    if level > 1 { LeafIsTableAt(t, level - 1, Entry(t, f, Index(v, level)).frame, v); }
  }

  /** A table met on the way belongs to the space the way starts in, or to the kernel. */
  lemma {:induction false} OwnerAt(t: Tables, info: map<nat, Info>, kernel: nat, level: nat, g: nat, v: Va, l: nat)
    requires Stratified(t, info, kernel) && Cut(v) && g in info && info[g].level == level
             && (level == 4 ==> v.i4 != RECURSIVE)
    requires 1 <= l <= level && TableAt(t, level, g, v, l).Some?
    ensures var x := TableAt(t, level, g, v, l).value;
            x in info && info[x].level == l && (info[x].owner == info[g].owner || info[x].owner == kernel)
    decreases level
  {
    assert TableOk(t, info, g) && LinkOk(t, info, kernel, g, Index(v, level));
    if level > l { OwnerAt(t, info, kernel, level - 1, Entry(t, g, Index(v, level)).frame, v, l); }
  }

  /** Entries above level 1 decide every way. */
  lemma {:induction false} AboveDecides(t: Tables, t': Tables, info: map<nat, Info>, kernel: nat, level: nat, g: nat,
      v: Va, l: nat)
    requires Stratified(t, info, kernel) && SameAbove(t, t', info, 1) && Cut(v) && l >= 1
    requires g in info && info[g].level == level && (level == 4 ==> v.i4 != RECURSIVE)
    ensures TableAt(t', level, g, v, l) == TableAt(t, level, g, v, l)
    decreases level
  {
    assert TableOk(t, info, g) && LinkOk(t, info, kernel, g, Index(v, level));
    if level > l {
      var x := Entry(t, g, Index(v, level));
      assert Entry(t', g, Index(v, level)) == x;
      if x.present && !Leaf(level, x) { AboveDecides(t, t', info, kernel, level - 1, x.frame, v, l); }
    }
  }

  /** The entry of the slot decides the translation of every address that ends in it. */
  lemma {:induction false} SlotSays(t: Tables, level: nat, f: nat, v: Va, p: nat)
    requires 1 <= level <= 4 && LeafTable(t, level, f, v) == Some(p)
    ensures PhysFrom(t, level, f, v) == PageAt(Entry(t, p, v.i1), v)
  {
    if level > 1 { SlotSays(t, level - 1, Entry(t, f, Index(v, level)).frame, v, p); }
  }

  // ----- a table behind an entry that led nowhere -----

  ghost predicate Opens(t: Tables, info: map<nat, Info>, kernel: nat, f: nat, i: nat, c: nat, es: seq<Pte>, e: Pte) {
    && CanInstall(t, info, kernel, f, i, c, es, e) && !Links(t, info, f, i)
    && (info[f].level == 2 || Blank(es))
  }

  lemma {:induction false} OpenKeeps(t: Tables, info: map<nat, Info>, kernel: nat, f: nat, i: nat, c: nat,
      es: seq<Pte>, e: Pte, level: nat, g: nat, v: Va, l: nat)
    requires Opens(t, info, kernel, f, i, c, es, e) && Cut(v) && l >= 1
    requires g in info && info[g].level == level && (level == 4 ==> v.i4 != RECURSIVE)
    ensures TableAt(t, level, g, v, l).Some? ==>
            TableAt(Install(t, f, i, c, es, e), level, g, v, l) == TableAt(t, level, g, v, l)
    decreases level
  {
    assert TableOk(t, info, g) && LinkOk(t, info, kernel, g, Index(v, level)) && TableOk(t, info, f);
    var x := Entry(t, g, Index(v, level));
    if level > l && x.present && !Leaf(level, x) {
      OpenKeeps(t, info, kernel, f, i, c, es, e, level - 1, x.frame, v, l);
    }
  }

  /** A table that was not met before is the new one, met through the new entry. */
  lemma {:induction false} OpenShape(t: Tables, info: map<nat, Info>, kernel: nat, f: nat, i: nat, c: nat,
      es: seq<Pte>, e: Pte, level: nat, g: nat, v: Va, l: nat)
    requires Opens(t, info, kernel, f, i, c, es, e) && Cut(v) && l >= 1
    requires g in info && info[g].level == level && (level == 4 ==> v.i4 != RECURSIVE)
    ensures var now := TableAt(Install(t, f, i, c, es, e), level, g, v, l);
            now != TableAt(t, level, g, v, l) ==>
              now == Some(c) && l + 1 == info[f].level && Index(v, l + 1) == i
                  && TableAt(t, level, g, v, l + 1) == Some(f)
    decreases level
  {
    assert TableOk(t, info, g) && LinkOk(t, info, kernel, g, Index(v, level)) && TableOk(t, info, f);
    var x := Entry(t, g, Index(v, level));
    if level > l && x.present && !Leaf(level, x) {
      OpenShape(t, info, kernel, f, i, c, es, e, level - 1, x.frame, v, l);
    }
  }

  lemma {:induction false} OpenReaches(t: Tables, info: map<nat, Info>, kernel: nat, f: nat, i: nat, c: nat,
      es: seq<Pte>, e: Pte, level: nat, g: nat, v: Va)
    requires Opens(t, info, kernel, f, i, c, es, e) && Cut(v)
    requires g in info && info[g].level == level && (level == 4 ==> v.i4 != RECURSIVE) && level >= info[f].level
    requires TableAt(t, level, g, v, info[f].level) == Some(f) && Index(v, info[f].level) == i
    ensures TableAt(Install(t, f, i, c, es, e), level, g, v, info[f].level - 1) == Some(c)
    decreases level
  {
    assert TableOk(t, info, g) && LinkOk(t, info, kernel, g, Index(v, level)) && TableOk(t, info, f);
    if level > info[f].level {
      OpenReaches(t, info, kernel, f, i, c, es, e, level - 1, Entry(t, g, Index(v, level)).frame, v);
    }
  }

  // ----- a copy in place of a shared table -----

  ghost predicate Copies(t: Tables, info: map<nat, Info>, kernel: nat, f: nat, i: nat, c: nat, e: Pte, k: nat) {
    && k in t && CanInstall(t, info, kernel, f, i, c, t[k], e) && info[f].level >= 3
    && Links(t, info, f, i) && Entry(t, f, i).frame == k
  }

  lemma {:induction false} WayBelow(t: Tables, info: map<nat, Info>, kernel: nat, f: nat, i: nat, c: nat, es: seq<Pte>,
      e: Pte, level: nat, g: nat, v: Va, l: nat)
    requires CanInstall(t, info, kernel, f, i, c, es, e) && Cut(v)
    requires g in info && info[g].level == level < info[f].level
    ensures TableAt(Install(t, f, i, c, es, e), level, g, v, l) == TableAt(t, level, g, v, l)
    decreases level
  {
    assert TableOk(t, info, f) && TableOk(t, info, g) && LinkOk(t, info, kernel, g, Index(v, level));
    var x := Entry(t, g, Index(v, level));
    if level > l && x.present && !Leaf(level, x) {
      WayBelow(t, info, kernel, f, i, c, es, e, level - 1, x.frame, v, l);
    }
  }

  /** A way through the copy meets the copy where it met the original, and the same tables below. */
  lemma {:induction false} CopyShape(t: Tables, info: map<nat, Info>, kernel: nat, f: nat, i: nat, c: nat, e: Pte,
      k: nat, level: nat, g: nat, v: Va, l: nat)
    requires Copies(t, info, kernel, f, i, c, e, k) && Cut(v) && l >= 1
    requires g in info && info[g].level == level && (level == 4 ==> v.i4 != RECURSIVE)
    ensures var now := TableAt(Install(t, f, i, c, t[k], e), level, g, v, l);
            now != TableAt(t, level, g, v, l) ==>
                now == Some(c) && TableAt(t, level, g, v, l) == Some(k) && l + 1 == info[f].level
    decreases level
  {
    assert TableOk(t, info, g) && LinkOk(t, info, kernel, g, Index(v, level)) && TableOk(t, info, f);
    var x := Entry(t, g, Index(v, level));
    if level > l && x.present && !Leaf(level, x) {
      if g == f && Index(v, level) == i {
        CopyBelow(t, info, kernel, f, i, c, e, k, v, l);
      } else {
        CopyShape(t, info, kernel, f, i, c, e, k, level - 1, x.frame, v, l);
      }
    }
  }

  lemma CopyBelow(t: Tables, info: map<nat, Info>, kernel: nat, f: nat, i: nat, c: nat, e: Pte, k: nat, v: Va, l: nat)
    requires Copies(t, info, kernel, f, i, c, e, k) && Cut(v) && 1 <= l < info[f].level
    ensures l + 1 < info[f].level ==>
            TableAt(Install(t, f, i, c, t[k], e), info[f].level - 1, c, v, l) == TableAt(t, info[f].level - 1, k, v, l)
  {
    assert TableOk(t, info, f) && LinkOk(t, info, kernel, f, i) && TableOk(t, info, k);
    var m := info[f].level - 1;
    assert LinkOk(t, info, kernel, k, Index(v, m));
    var x := Entry(t, k, Index(v, m));
    if l < m && x.present && !Leaf(m, x) { WayBelow(t, info, kernel, f, i, c, t[k], e, m - 1, x.frame, v, l); }
  }

  // ----- what the kernel meets -----

  /** Where space `s` meets a table of the kernel, the kernel meets it at the same address. */
  predicate MirrorAt(t: Tables, info: map<nat, Info>, kernel: nat, s: nat, v: Va, l: nat) {
    match TableAt(t, 4, s, v, l)
    case None => true
    case Some(f) => f in info && info[f].owner == kernel ==> TableAt(t, 4, kernel, v, l) == Some(f)
  }

  ghost predicate Mirror(t: Tables, info: map<nat, Info>, kernel: nat) {
    forall s: nat, v: Va, l: nat {:trigger MirrorAt(t, info, kernel, s, v, l)} ::
      Addressable(info, s, v) && 1 <= l <= 3 ==> MirrorAt(t, info, kernel, s, v, l)
  }

  lemma MirrorOpen(t: Tables, info: map<nat, Info>, kernel: nat, f: nat, i: nat, c: nat, es: seq<Pte>, e: Pte)
    requires Opens(t, info, kernel, f, i, c, es, e) && Mirror(t, info, kernel)
    ensures Mirror(Install(t, f, i, c, es, e), info[c := Info(info[f].level - 1, info[f].owner)], kernel)
  {
    var t', info' := Install(t, f, i, c, es, e), info[c := Info(info[f].level - 1, info[f].owner)];
    assert TableOk(t, info, f) && TableOk(t, info, kernel);
    forall s: nat, v: Va, l: nat | Addressable(info', s, v) && 1 <= l <= 3
      ensures MirrorAt(t', info', kernel, s, v, l)
    {
      assert Addressable(info, s, v) && MirrorAt(t, info, kernel, s, v, l);
      OpenShape(t, info, kernel, f, i, c, es, e, 4, s, v, l);
      OpenKeeps(t, info, kernel, f, i, c, es, e, 4, kernel, v, l);
      if TableAt(t', 4, s, v, l) == TableAt(t, 4, s, v, l) {
        if TableAt(t, 4, s, v, l).Some? { OwnerAt(t, info, kernel, 4, s, v, l); }
      } else if info[f].owner == kernel {
        if l < 3 { assert MirrorAt(t, info, kernel, s, v, l + 1); }
        OpenReaches(t, info, kernel, f, i, c, es, e, 4, kernel, v);
      }
    }
  }

  lemma MirrorCopy(t: Tables, info: map<nat, Info>, kernel: nat, f: nat, i: nat, c: nat, e: Pte, k: nat)
    requires Copies(t, info, kernel, f, i, c, e, k) && Mirror(t, info, kernel) && info[f].owner != kernel
    requires Stratified(Install(t, f, i, c, t[k], e), info[c := Info(info[f].level - 1, info[f].owner)], kernel)
    ensures Mirror(Install(t, f, i, c, t[k], e), info[c := Info(info[f].level - 1, info[f].owner)], kernel)
  {
    var t', info' := Install(t, f, i, c, t[k], e), info[c := Info(info[f].level - 1, info[f].owner)];
    assert TableOk(t, info, f) && TableOk(t, info, kernel);
    forall s: nat, v: Va, l: nat | Addressable(info', s, v) && 1 <= l <= 3
      ensures MirrorAt(t', info', kernel, s, v, l)
    {
      assert Addressable(info, s, v) && MirrorAt(t, info, kernel, s, v, l);
      CopyShape(t, info, kernel, f, i, c, e, k, 4, s, v, l);
      CopyShape(t, info, kernel, f, i, c, e, k, 4, kernel, v, l);
      if TableAt(t', 4, kernel, v, l).Some? { OwnerAt(t', info', kernel, 4, kernel, v, l); }
      if TableAt(t, 4, s, v, l).Some? { OwnerAt(t, info, kernel, 4, s, v, l); }
    }
  }

  lemma MirrorAbove(t: Tables, t': Tables, info: map<nat, Info>, kernel: nat)
    requires Stratified(t, info, kernel) && Mirror(t, info, kernel) && SameAbove(t, t', info, 1)
    ensures Mirror(t', info, kernel)
  {
    forall s: nat, v: Va, l: nat | Addressable(info, s, v) && 1 <= l <= 3
      ensures MirrorAt(t', info, kernel, s, v, l)
    {
      assert MirrorAt(t, info, kernel, s, v, l);
      AboveDecides(t, t', info, kernel, 4, s, v, l);
      AboveDecides(t, t', info, kernel, 4, kernel, v, l);
    }
  }

  lemma MirrorRoot(t: Tables, info: map<nat, Info>, kernel: nat, c: nat)
    requires Stratified(t, info, kernel) && Mirror(t, info, kernel) && c !in info && kernel in t
             && |t[kernel]| == ENTRIES
    ensures Mirror(t[c := RootEntries(t[kernel])], info[c := Info(4, c)], kernel)
  {
    var t', info' := t[c := RootEntries(t[kernel])], info[c := Info(4, c)];
    forall s: nat, v: Va, l: nat | Addressable(info', s, v) && 1 <= l <= 3
      ensures MirrorAt(t', info', kernel, s, v, l)
    {
      RootWays(t, info, kernel, c, v, l);
      if s != c {
        assert Addressable(info, s, v) && MirrorAt(t, info, kernel, s, v, l);
        AddWays(t, info, kernel, c, RootEntries(t[kernel]), 4, s, v, l);
        if TableAt(t, 4, s, v, l).Some? { OwnerAt(t, info, kernel, 4, s, v, l); }
      }
    }
  }

  lemma {:induction false} AddWays(t: Tables, info: map<nat, Info>, kernel: nat, c: nat, es: seq<Pte>, level: nat,
      g: nat, v: Va, l: nat)
    requires Stratified(t, info, kernel) && c !in info && Cut(v)
    requires g in info && info[g].level == level && (level == 4 ==> v.i4 != RECURSIVE)
    ensures TableAt(t[c := es], level, g, v, l) == TableAt(t, level, g, v, l)
    decreases level
  {
    assert TableOk(t, info, g) && LinkOk(t, info, kernel, g, Index(v, level));
    var x := Entry(t, g, Index(v, level));
    if x.present && !Leaf(level, x) && level > l { AddWays(t, info, kernel, c, es, level - 1, x.frame, v, l); }
  }

  /** A new space meets the kernel's tables where it shows them, and none elsewhere. */
  lemma RootWays(t: Tables, info: map<nat, Info>, kernel: nat, c: nat, v: Va, l: nat)
    requires Stratified(t, info, kernel) && c !in info && kernel in t && |t[kernel]| == ENTRIES
    requires Cut(v) && v.i4 != RECURSIVE && 1 <= l <= 3
    ensures var t' := t[c := RootEntries(t[kernel])];
            && TableAt(t', 4, kernel, v, l) == TableAt(t, 4, kernel, v, l)
            && TableAt(t', 4, c, v, l) == if v.i4 >= 256 || v.i4 == 0 then TableAt(t, 4, kernel, v, l) else None
  {
    var es := RootEntries(t[kernel]);
    AddWays(t, info, kernel, c, es, 4, kernel, v, l);
    assert Entry(t[c := es], c, v.i4) == if v.i4 >= 256 || v.i4 == 0 then Entry(t[c := es], kernel, v.i4) else NIL;
  }

  lemma MirrorAlone(t: Tables, info: map<nat, Info>, kernel: nat)
    requires forall s :: s in info && info[s].level == 4 ==> s == kernel
    ensures Mirror(t, info, kernel)
  {
  }

  // ----- leaf tables -----

  lemma OpenLeafTables(t: Tables, info: map<nat, Info>, kernel: nat, f: nat, i: nat, c: nat, es: seq<Pte>, e: Pte)
    requires Opens(t, info, kernel, f, i, c, es, e)
    ensures SameLeafTables(t, Install(t, f, i, c, es, e), info)
  {
    var t' := Install(t, f, i, c, es, e);
    forall r: nat, v: Va, p: nat, j: nat | Addressable(info, r, v) && p in info
      ensures EndsAt(t', r, v, p, j) <==> EndsAt(t, r, v, p, j)
    {
      OpenShape(t, info, kernel, f, i, c, es, e, 4, r, v, 1);
      OpenKeeps(t, info, kernel, f, i, c, es, e, 4, r, v, 1);
      LeafIsTableAt(t, 4, r, v);
      LeafIsTableAt(t', 4, r, v);
    }
  }

  lemma CopyLeafTables(t: Tables, info: map<nat, Info>, kernel: nat, f: nat, i: nat, c: nat, e: Pte, k: nat)
    requires Copies(t, info, kernel, f, i, c, e, k)
    ensures SameLeafTables(t, Install(t, f, i, c, t[k], e), info)
  {
    var t' := Install(t, f, i, c, t[k], e);
    forall r: nat, v: Va, p: nat, j: nat | Addressable(info, r, v) && p in info
      ensures EndsAt(t', r, v, p, j) <==> EndsAt(t, r, v, p, j)
    {
      CopyShape(t, info, kernel, f, i, c, e, k, 4, r, v, 1);
      LeafIsTableAt(t, 4, r, v);
      LeafIsTableAt(t', 4, r, v);
    }
  }

  // ----- what vmm_map_user_page will find -----

  function PdFrom(t: Tables, level: nat, f: nat, v: Va): Pte {
    match TableAt(t, level, f, v, 2)
    case None => NIL
    case Some(x) => Entry(t, x, v.i2)
  }

  /** The page-directory entry on the way of `v`, absent if there is none. */
  function PdEntry(t: Tables, s: nat, v: Va): Pte { PdFrom(t, 4, s, v) }

  /** A 1 GB page is on the way. */
  predicate Giant(t: Tables, s: nat, v: Va) {
    match TableAt(t, 4, s, v, 3)
    case None => false
    case Some(x) => Entry(t, x, v.i3).present && Entry(t, x, v.i3).huge
  }

  predicate Passable(t: Tables, level: nat, f: nat, v: Va)
    decreases level
  {
    var e := Entry(t, f, Index(v, level));
    level <= 2 || !e.present || (!Leaf(level, e) && Passable(t, level - 1, e.frame, v))
  }

  lemma NoGiantPasses(t: Tables, s: nat, v: Va)
    ensures Passable(t, 4, s, v) <==> !Giant(t, s, v)
  {
    var e := Entry(t, s, v.i4);
    if e.present { assert TableAt(t, 4, s, v, 3) == Some(e.frame); }
  }

  /** `v` can be mapped in `s` without touching a table of the kernel. */
  predicate Mappable(t: Tables, s: nat, v: Va) { !Giant(t, s, v) && Private(PdEntry(t, s, v)) }

  ghost predicate MappableKept(t: Tables, t': Tables, info: map<nat, Info>) {
    forall s: nat, v: Va {:trigger Mappable(t', s, v)} ::
        Addressable(info, s, v) && Mappable(t, s, v) ==> Mappable(t', s, v)
  }

  lemma {:induction false} PlanFindsPd(t: Tables, level: nat, f: nat, v: Va)
    requires level >= 2
    ensures UserPlan(t, level, f, v).pd == PdFrom(t, level, f, v)
    decreases level
  {
    if level > 2 { PlanFindsPd(t, level - 1, Entry(t, f, Index(v, level)).frame, v); }
  }

  /** A table made for a user space takes no address from the mappable ones, of any space. */
  lemma OpenMappable(t: Tables, info: map<nat, Info>, kernel: nat, f: nat, i: nat, c: nat, es: seq<Pte>, e: Pte)
    requires Opens(t, info, kernel, f, i, c, es, e) && e.user
    ensures MappableKept(t, Install(t, f, i, c, es, e), info)
  {
    var t' := Install(t, f, i, c, es, e);
    assert TableOk(t, info, f);
    forall s: nat, v: Va | Addressable(info, s, v) && Mappable(t, s, v)
      ensures Mappable(t', s, v)
    {
      OpenShape(t, info, kernel, f, i, c, es, e, 4, s, v, 2);
      OpenShape(t, info, kernel, f, i, c, es, e, 4, s, v, 3);
      if TableAt(t, 4, s, v, 2).Some? { OwnerAt(t, info, kernel, 4, s, v, 2); }
      if TableAt(t, 4, s, v, 3).Some? { OwnerAt(t, info, kernel, 4, s, v, 3); }
    }
  }

  lemma CopyMappable(t: Tables, info: map<nat, Info>, kernel: nat, f: nat, i: nat, c: nat, e: Pte, k: nat)
    requires Copies(t, info, kernel, f, i, c, e, k)
    ensures MappableKept(t, Install(t, f, i, c, t[k], e), info)
  {
    var t' := Install(t, f, i, c, t[k], e);
    assert TableOk(t, info, f);
    forall s: nat, v: Va | Addressable(info, s, v) && Mappable(t, s, v)
      ensures Mappable(t', s, v)
    {
      CopyShape(t, info, kernel, f, i, c, e, k, 4, s, v, 2);
      CopyShape(t, info, kernel, f, i, c, e, k, 4, s, v, 3);
      if TableAt(t, 4, s, v, 2).Some? { OwnerAt(t, info, kernel, 4, s, v, 2); }
      if TableAt(t, 4, s, v, 3).Some? { OwnerAt(t, info, kernel, 4, s, v, 3); }
    }
  }

  lemma AboveMappable(t: Tables, t': Tables, info: map<nat, Info>, kernel: nat)
    requires Stratified(t, info, kernel) && SameAbove(t, t', info, 1)
    ensures MappableKept(t, t', info)
  {
    forall s: nat, v: Va | Addressable(info, s, v) && Mappable(t, s, v)
      ensures Mappable(t', s, v)
    {
      AboveDecides(t, t', info, kernel, 4, s, v, 2);
      AboveDecides(t, t', info, kernel, 4, s, v, 3);
      if TableAt(t, 4, s, v, 2).Some? { OwnerAt(t, info, kernel, 4, s, v, 2); }
      if TableAt(t, 4, s, v, 3).Some? { OwnerAt(t, info, kernel, 4, s, v, 3); }
    }
  }

  lemma MappableTrans(t: Tables, t1: Tables, t2: Tables, info: map<nat, Info>, info1: map<nat, Info>)
    requires MappableKept(t, t1, info) && MappableKept(t1, t2, info1) && Extends(info, info1)
    ensures MappableKept(t, t2, info)
  {
    forall s: nat, v: Va | Addressable(info, s, v) && Mappable(t, s, v)
      ensures Mappable(t2, s, v)
    {
      assert Addressable(info1, s, v) && Mappable(t1, s, v);
    }
  }

  /** A new space can map what the kernel's tables leave mappable, and everything it does not show. */
  lemma RootMappable(t: Tables, info: map<nat, Info>, kernel: nat, c: nat, v: Va)
    requires Stratified(t, info, kernel) && c !in info && kernel in t && |t[kernel]| == ENTRIES
    requires Cut(v) && v.i4 != RECURSIVE
    ensures var t' := t[c := RootEntries(t[kernel])];
            Mappable(t', c, v) <==> !(v.i4 >= 256 || v.i4 == 0) || Mappable(t, kernel, v)
  {
    RootWays(t, info, kernel, c, v, 2);
    RootWays(t, info, kernel, c, v, 3);
    if TableAt(t, 4, kernel, v, 2).Some? { OwnerAt(t, info, kernel, 4, kernel, v, 2); }
    if TableAt(t, 4, kernel, v, 3).Some? { OwnerAt(t, info, kernel, 4, kernel, v, 3); }
  }

  /** An entry that is not private leads to a level-1 table of the kernel, which the kernel meets as well. */
  lemma SharedPd(t: Tables, info: map<nat, Info>, kernel: nat, s: nat, v: Va)
    requires Stratified(t, info, kernel) && Mirror(t, info, kernel) && Addressable(info, s, v)
             && !Private(PdEntry(t, s, v))
    ensures var p := PdEntry(t, s, v).frame;
            && p in info && info[p] == Info(1, kernel)
            && LeafTable(t, 4, s, v) == Some(p) && LeafTable(t, 4, kernel, v) == Some(p)
  {
    var f := TableAt(t, 4, s, v, 2).value;
    OwnerAt(t, info, kernel, 4, s, v, 2);
    assert LinkOk(t, info, kernel, f, v.i2);
    OneFurther(t, 4, s, v);
    assert MirrorAt(t, info, kernel, s, v, 1) && TableOk(t, info, kernel);
    LeafIsTableAt(t, 4, s, v);
    LeafIsTableAt(t, 4, kernel, v);
  }

  lemma {:induction false} OneFurther(t: Tables, level: nat, f: nat, v: Va)
    requires level >= 2 && TableAt(t, level, f, v, 2).Some?
    ensures var e := Entry(t, TableAt(t, level, f, v, 2).value, v.i2);
            e.present && !e.huge ==> TableAt(t, level, f, v, 1) == Some(e.frame)
    decreases level
  {
    if level > 2 { OneFurther(t, level - 1, Entry(t, f, Index(v, level)).frame, v); }
  }

  // ----- user access -----

  predicate SameRegion(v: Va, w: Va) { v.i4 == w.i4 && v.i3 == w.i3 && v.i2 == w.i2 }

  /** The processor lets user code use `v`: every entry on the way is present and user-flagged. */
  predicate UserFrom(t: Tables, level: nat, f: nat, v: Va)
    decreases level
  {
    var e := Entry(t, f, Index(v, level));
    e.present && e.user && (level <= 1 || Leaf(level, e) || UserFrom(t, level - 1, e.frame, v))
  }

  predicate UserAccess(t: Tables, s: nat, v: Va) { UserFrom(t, 4, s, v) }

  /** The way down to the page directory consists of user links. */
  predicate UserLinks(t: Tables, level: nat, f: nat, v: Va)
    decreases level
  {
    var e := Entry(t, f, Index(v, level));
    level <= 2 || (e.present && e.user && !Leaf(level, e) && UserLinks(t, level - 1, e.frame, v))
  }

  /** In the region of `v`, access is decided by the page-directory entry and the leaf. */
  lemma {:induction false} RegionAccess(t: Tables, level: nat, f: nat, v: Va, w: Va)
    requires UserLinks(t, level, f, v) && 2 <= level <= 4 && SameRegion(v, w)
    requires var e := PdFrom(t, level, f, v); e.present && !e.huge
    ensures var e := PdFrom(t, level, f, v); var x := Entry(t, e.frame, w.i1);
            UserFrom(t, level, f, w) <==> e.user && x.present && x.user
    decreases level
  {
    if level > 2 { RegionAccess(t, level - 1, Entry(t, f, Index(v, level)).frame, v, w); }
  }

  /** Links of kernel tables are not user-flagged. */
  lemma {:induction false} KernelPd(t: Tables, info: map<nat, Info>, kernel: nat, level: nat, g: nat, v: Va)
    requires Stratified(t, info, kernel) && Cut(v) && g in info && info[g] == Info(level, kernel) && 2 <= level < 4
    ensures var e := PdFrom(t, level, g, v); e.present && !e.huge ==> !e.user
    decreases level
  {
    assert LinkOk(t, info, kernel, g, Index(v, level));
    var x := Entry(t, g, Index(v, level));
    if level > 2 && x.present && !Leaf(level, x) { KernelPd(t, info, kernel, level - 1, x.frame, v); }
  }

  /** A user-flagged link in the page directory is reached through user links only. */
  lemma {:induction false} UserPd(t: Tables, info: map<nat, Info>, kernel: nat, level: nat, f: nat, v: Va)
    requires Stratified(t, info, kernel) && Cut(v) && f in info && info[f].level == level && 2 <= level
             && (level == 4 ==> v.i4 != RECURSIVE)
    requires var e := PdFrom(t, level, f, v); e.present && !e.huge && e.user
    ensures UserLinks(t, level, f, v)
    decreases level
  {
    assert LinkOk(t, info, kernel, f, Index(v, level)) && TableOk(t, info, f);
    var x := Entry(t, f, Index(v, level));
    if level > 2 {
      if !x.user { KernelPd(t, info, kernel, level - 1, x.frame, v); }
      UserPd(t, info, kernel, level - 1, x.frame, v);
    }
  }

  lemma {:induction false} LinksAbove(t: Tables, t': Tables, info: map<nat, Info>, kernel: nat, level: nat, g: nat,
      v: Va)
    requires Stratified(t, info, kernel) && SameAbove(t, t', info, 1) && Cut(v) && level >= 2
    requires g in info && info[g].level == level && (level == 4 ==> v.i4 != RECURSIVE)
    ensures UserLinks(t, level, g, v) ==> UserLinks(t', level, g, v)
    ensures PdFrom(t', level, g, v) == PdFrom(t, level, g, v)
    decreases level
  {
    assert TableOk(t, info, g) && LinkOk(t, info, kernel, g, Index(v, level));
    var x := Entry(t, g, Index(v, level));
    assert Entry(t', g, Index(v, level)) == x;
    if level > 2 && x.present && !Leaf(level, x) { LinksAbove(t, t', info, kernel, level - 1, x.frame, v); }
  }

  /** A link found in the page directory leads to a known level-1 table. */
  lemma {:induction false} PlanPdKnown(t: Tables, info: map<nat, Info>, kernel: nat, level: nat, f: nat, v: Va)
    requires Stratified(t, info, kernel) && Cut(v) && f in info && info[f].level == level && 2 <= level
             && (level == 4 ==> v.i4 != RECURSIVE)
    ensures var e := UserPlan(t, level, f, v).pd; e.present && !e.huge ==> e.frame in info && info[e.frame].level == 1
    decreases level
  {
    assert LinkOk(t, info, kernel, f, Index(v, level)) && TableOk(t, info, f);
    var x := Entry(t, f, Index(v, level));
    if level > 2 && x.present && !Leaf(level, x) { PlanPdKnown(t, info, kernel, level - 1, x.frame, v); }
  }

  /** The leaf behind page-directory entry `pd` once vmm_map_user_page has split or created its table `pt`. */
  function LeafMade(t: Tables, pd: Pte, pt: nat, i: nat): Pte {
    if pd.present && pd.huge then Pte(pd.frame + i, true, true, true, false, 0) else if !pd.present then NIL
        else Entry(t, pt, i)
  }

  /** What vmm_map_user_page leaves of page-directory entry `pd`. */
  ghost predicate Prepared(t: Tables, t': Tables, pd: Pte, pd': Pte, pt: nat) {
    && pd'.present && !pd'.huge && pd'.frame == pt && (pd'.user <==> Private(pd))
    && (pd.present && !pd.huge ==> pt == pd.frame)
    && forall i: nat {:trigger Entry(t', pt, i)} :: i < ENTRIES ==> Entry(t', pt, i) == LeafMade(t, pd, pt, i)
  }

  /**
   * User access to `w`, in the region of `v`, after vmm_map_user_page of `v`: none through a table of the kernel;
   * otherwise the new page, all pages of a 2 MB page that was split, and what was accessible before.
   */
  predicate AccessAfter(t: Tables, s: nat, v: Va, w: Va, present: bool) {
    var pd := PdEntry(t, s, v);
    && Private(pd)
    && if SamePage(v, w) then present else if pd.present && pd.huge then true else UserAccess(t, s, w)
  }

  lemma {:induction false} NoPdNoAccess(t: Tables, level: nat, f: nat, v: Va, w: Va)
    requires SameRegion(v, w) && 2 <= level <= 4 && !PdFrom(t, level, f, v).present && Passable(t, level, f, v)
    ensures !UserFrom(t, level, f, w)
    decreases level
  {
    var x := Entry(t, f, Index(v, level));
    if level > 2 && x.present { NoPdNoAccess(t, level - 1, x.frame, v, w); }
  }

  lemma AccessMade(t: Tables, t1: Tables, t': Tables, info: map<nat, Info>, info1: map<nat, Info>, kernel: nat, s: nat,
      v: Va, w: Va, pt: nat, e: Pte)
    requires Stratified(t, info, kernel) && Stratified(t1, info1, kernel) && Extends(info, info1)
             && Addressable(info, s, v) && Cut(w)
    requires SameRegion(v, w) && Passable(t, 4, s, v) && UserLinks(t1, 4, s, v)
             && Prepared(t, t1, PdEntry(t, s, v), PdEntry(t1, s, v), pt)
    requires SameAbove(t1, t', info1, 1) && e.user && Entry(t', pt, v.i1) == e
    requires forall i: nat :: i != v.i1 ==> Entry(t', pt, i) == Entry(t1, pt, i)
    ensures UserAccess(t', s, w) <==> AccessAfter(t, s, v, w, e.present)
  {
    var pd := PdEntry(t, s, v);
    LinksAbove(t1, t', info1, kernel, 4, s, v);
    RegionAccess(t', 4, s, v, w);
    assert w.i1 != v.i1 ==> Entry(t', pt, w.i1) == LeafMade(t, pd, pt, w.i1);
    if !pd.present {
      NoPdNoAccess(t, 4, s, v, w);
    } else if !pd.huge && pd.user {
      UserPd(t, info, kernel, 4, s, v);
      RegionAccess(t, 4, s, v, w);
    }
  }

  /** Inside its 2 MB region exactly the page itself becomes accessible, unless a 2 MB page was split there. */
  lemma OnlyPageAccessible(t: Tables, s: nat, v: Va)
    requires Private(PdEntry(t, s, v)) && Cut(v)
    ensures (forall w: Va ::
            Cut(w) && SameRegion(v, w) && !SamePage(v, w) ==> (AccessAfter(t, s, v, w, true) <==> UserAccess(t, s, w)))
            <==> !(PdEntry(t, s, v).present && PdEntry(t, s, v).huge)
                 || forall w: Va :: Cut(w) && SameRegion(v, w) && !SamePage(v, w) ==> UserAccess(t, s, w)
  {
  }
}
