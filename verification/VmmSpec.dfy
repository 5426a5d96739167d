/**
 * Four-level paging, specification side (kernel/mm/vmm.c; section 4.5 of the Intel SDM, volume 3A).
 *
 * Physical memory is seen as page tables: a map from frame number to 512 entries. `Walk` is what the
 * processor does. A ghost map `info` gives every table its level and the address space that owns it; tables
 * may be shared, so statements about change speak of leaf slots, not only of virtual addresses.
 */
module VmmSpec {
  import opened Basics

  const ENTRIES := 512
  const RECURSIVE := 510
  const USER_SPACE_END := 0x8000_0000_0000

  /** A page-table entry; `frame` is its address field divided by the page size. */
  datatype Pte = Pte(frame: nat, present: bool, writable: bool, user: bool, huge: bool, rest: nat)

  const NIL := Pte(0, false, false, false, false, 0)

  function KernelLink(frame: nat): Pte { Pte(frame, true, true, false, false, 0) }
  function UserLink(frame: nat): Pte { Pte(frame, true, true, true, false, 0) }

  /** The leaf vmm_map_user_page writes: address bits of `phys`, the caller's flags, and the user flag. */
  function UserPage(phys: nat, flags: Pte): Pte { flags.(frame := phys / PAGE % 0x100_0000_0000, user := true) }

  type Tables = map<nat, seq<Pte>>

  function Entry(t: Tables, f: nat, i: nat): Pte { if f in t && i < |t[f]| then t[f][i] else NIL }

  function Set(t: Tables, f: nat, i: nat, e: Pte): Tables { if f in t && i < |t[f]| then t[f := t[f][i := e]] else t }

  /** A virtual address, cut into its table indices and page offset. */
  datatype Va = Va(i4: nat, i3: nat, i2: nat, i1: nat, off: nat)

  function VaOf(v: nat): Va {
    Va(v / 0x80_0000_0000 % 512, v / 0x4000_0000 % 512, v / 0x20_0000 % 512, v / 0x1000 % 512, v % 0x1000)
  }

  /** The address a cut stands for. */
  function AddressOf(v: Va): nat {
    v.i4 * 0x80_0000_0000 + v.i3 * 0x4000_0000 + v.i2 * 0x20_0000 + v.i1 * 0x1000 + v.off
  }

  /** The five parts are the low 48 bits of the address. */
  lemma VaIsAddress(x: nat)
    ensures Cut(VaOf(x)) && AddressOf(VaOf(x)) == x % 0x1_0000_0000_0000
  {
    var a, b, c, d := x / 0x1000, x / 0x20_0000, x / 0x4000_0000, x / 0x80_0000_0000;
    assert a / 512 == b && b / 512 == c && c / 512 == d && d / 512 == x / 0x1_0000_0000_0000;
    assert a == b * 512 + a % 512 && b == c * 512 + b % 512 && c == d * 512 + c % 512;
  }

  /** The part of an address below a leaf is what the size of the leaf leaves over. */
  lemma OffsetIs(x: nat)
    ensures Offset(VaOf(x), 1) == x % 0x1000 && Offset(VaOf(x), 2) == x % 0x20_0000
            && Offset(VaOf(x), 3) == x % 0x4000_0000
  {
  }

  predicate Cut(v: Va) { v.i4 < 512 && v.i3 < 512 && v.i2 < 512 && v.i1 < 512 && v.off < PAGE }

  predicate SamePage(v: Va, w: Va) { v.i4 == w.i4 && v.i3 == w.i3 && v.i2 == w.i2 && v.i1 == w.i1 }

  function Index(v: Va, level: nat): nat {
    if level == 4 then v.i4 else if level == 3 then v.i3 else if level == 2 then v.i2 else v.i1
  }

  /** The part of the address below a leaf at `level`. */
  function Offset(v: Va, level: nat): nat {
    if level == 3 then (v.i2 * 512 + v.i1) * PAGE + v.off else if level == 2 then v.i1 * PAGE + v.off else v.off
  }

  predicate Leaf(level: nat, e: Pte) { level <= 1 || (level <= 3 && e.huge) }

  // ----- the walk -----

  datatype Walk = Unmapped | Mapped(table: nat, index: nat, level: nat, phys: nat)

  function WalkFrom(t: Tables, level: nat, f: nat, v: Va): Walk
    decreases level
  {
    var e := Entry(t, f, Index(v, level));
    if !e.present then Unmapped
    else if Leaf(level, e) then Mapped(f, Index(v, level), level, e.frame * PAGE + Offset(v, level))
    else WalkFrom(t, level - 1, e.frame, v)
  }

  /** The physical address, if any. */
  function PhysFrom(t: Tables, level: nat, f: nat, v: Va): Option<nat> {
    var w := WalkFrom(t, level, f, v);
    if w.Mapped? then Some(w.phys) else None
  }

  function Translate(t: Tables, root: nat, v: Va): Option<nat> { PhysFrom(t, 4, root, v) }

  /** The translation of an address whose level-`level` entry is `e`. */
  function PhysOf(t: Tables, level: nat, e: Pte, v: Va): Option<nat> {
    if !e.present then None
    else if Leaf(level, e) then Some(e.frame * PAGE + Offset(v, level))
    else PhysFrom(t, level - 1, e.frame, v)
  }

  /** The level-1 table the address leads to, whether or not its page is mapped there. */
  function LeafTable(t: Tables, level: nat, f: nat, v: Va): Option<nat>
    decreases level
  {
    if level <= 1 then Some(f)
    else
      var e := Entry(t, f, Index(v, level));
      if !e.present || Leaf(level, e) then None else LeafTable(t, level - 1, e.frame, v)
  }

  // ----- levels and owners -----

  datatype Info = Info(level: nat, owner: nat)

  /** Entry `i` of table `f` leads to another table. The recursive slot does not count. */
  predicate Links(t: Tables, info: map<nat, Info>, f: nat, i: nat)
    requires f in info
  {
    var e := Entry(t, f, i);
    e.present && !Leaf(info[f].level, e) && !(info[f].level == 4 && i == RECURSIVE)
  }

  /**
   * A link goes one level down. With the user flag it stays inside its address space, without it it leads to
   * a table of the kernel; the kernel's own links carry no user flag.
   */
  predicate LinkOk(t: Tables, info: map<nat, Info>, kernel: nat, f: nat, i: nat)
    requires f in info
  {
    var e := Entry(t, f, i);
    Links(t, info, f, i) ==>
      && e.frame in info && info[e.frame].level == info[f].level - 1
      && info[e.frame].owner == (if e.user then info[f].owner else kernel)
      && (e.user ==> info[f].owner != kernel)
  }

  predicate TableOk(t: Tables, info: map<nat, Info>, f: nat)
    requires f in info
  {
    && f in t && |t[f]| == ENTRIES && 1 <= info[f].level <= 4
    && (info[f].level == 4 ==> info[f].owner == f)
  }

  ghost predicate Stratified(t: Tables, info: map<nat, Info>, kernel: nat) {
    && kernel in info && info[kernel].level == 4
    && (forall f: nat {:trigger TableOk(t, info, f)} :: f in info ==> TableOk(t, info, f))
    && (forall f: nat, i: nat {:trigger LinkOk(t, info, kernel, f, i)} ::
        f in info && i < ENTRIES ==> LinkOk(t, info, kernel, f, i))
  }

  /** Only one slot leads to a given table of a user address space. */
  predicate SoleParent(t: Tables, info: map<nat, Info>, f: nat, i: nat, g: nat, j: nat)
    requires f in info && g in info
  {
    Links(t, info, f, i) && Links(t, info, g, j) && Entry(t, f, i).user && Entry(t, g, j).user
        && Entry(t, f, i).frame == Entry(t, g, j).frame ==>
      f == g && i == j
  }

  ghost predicate Trees(t: Tables, info: map<nat, Info>) {
    forall f: nat, i: nat, g: nat, j: nat {:trigger SoleParent(t, info, f, i, g, j)} ::
        f in info && g in info && i < ENTRIES && j < ENTRIES ==> SoleParent(t, info, f, i, g, j)
  }

  // ----- installing a table -----

  /** Fill frame `c` with `es` and let entry `i` of table `f` point at it. */
  function Install(t: Tables, f: nat, i: nat, c: nat, es: seq<Pte>, e: Pte): Tables { Set(t[c := es], f, i, e) }

  ghost predicate CanInstall(t: Tables, info: map<nat, Info>, kernel: nat, f: nat, i: nat, c: nat, es: seq<Pte>,
      e: Pte) {
    && Stratified(t, info, kernel)
    && f in info && i < ENTRIES && 2 <= info[f].level && !(info[f].level == 4 && i == RECURSIVE)
    && c !in info && |es| == ENTRIES
    && e.present && !e.huge && e.frame == c
  }

  /** Tables below the changed slot are walked as before. */
  lemma {:induction false} InstallBelow(t: Tables, info: map<nat, Info>, kernel: nat, f: nat, i: nat, c: nat,
      es: seq<Pte>, e: Pte, level: nat, g: nat, v: Va)
    requires CanInstall(t, info, kernel, f, i, c, es, e) && Cut(v)
    requires g in info && info[g].level == level < info[f].level
    ensures WalkFrom(Install(t, f, i, c, es, e), level, g, v) == WalkFrom(t, level, g, v)
    decreases level
  {
    assert TableOk(t, info, f) && TableOk(t, info, g) && LinkOk(t, info, kernel, g, Index(v, level));
    var x := Entry(t, g, Index(v, level));
    if x.present && !Leaf(level, x) {
      InstallBelow(t, info, kernel, f, i, c, es, e, level - 1, x.frame, v);
    }
  }

  /** An entry of the new table that is no link, or leads below, is read as before. */
  lemma InstallEntry(t: Tables, info: map<nat, Info>, kernel: nat, f: nat, i: nat, c: nat, es: seq<Pte>, e: Pte, v: Va)
    requires CanInstall(t, info, kernel, f, i, c, es, e) && Cut(v)
    requires var l := info[f].level - 1; var x := es[Index(v, l)];
             x.present && !Leaf(l, x) ==> x.frame in info && info[x.frame].level == l - 1
    ensures var l := info[f].level - 1;
            PhysFrom(Install(t, f, i, c, es, e), l, c, v) == PhysOf(t, l, es[Index(v, l)], v)
  {
    var l := info[f].level - 1;
    var x := es[Index(v, l)];
    if x.present && !Leaf(l, x) {
      InstallBelow(t, info, kernel, f, i, c, es, e, l - 1, x.frame, v);
    }
  }

  /** The new table says about `v` what the replaced entry said. */
  ghost predicate Agrees(t: Tables, info: map<nat, Info>, f: nat, i: nat, es: seq<Pte>, v: Va)
    requires f in info && |es| == ENTRIES && Cut(v) && info[f].level >= 2
  {
    var l := info[f].level - 1;
    var x := es[Index(v, l)];
    && (x.present && !Leaf(l, x) ==> x.frame in info && info[x.frame].level == l - 1)
    && PhysOf(t, l, x, v) == PhysOf(t, l + 1, Entry(t, f, i), v)
  }

  lemma {:induction false} InstallKeeps(t: Tables, info: map<nat, Info>, kernel: nat, f: nat, i: nat, c: nat,
      es: seq<Pte>, e: Pte, level: nat, g: nat, v: Va)
    requires CanInstall(t, info, kernel, f, i, c, es, e) && Cut(v)
    requires Index(v, info[f].level) == i ==> Agrees(t, info, f, i, es, v)
    requires g in info && info[g].level == level && (level == 4 ==> v.i4 != RECURSIVE)
    ensures PhysFrom(Install(t, f, i, c, es, e), level, g, v) == PhysFrom(t, level, g, v)
    decreases level
  {
    assert TableOk(t, info, g) && LinkOk(t, info, kernel, g, Index(v, level)) && TableOk(t, info, f);
    var x := Entry(t, g, Index(v, level));
    if g == f && Index(v, level) == i {
      InstallEntry(t, info, kernel, f, i, c, es, e, v);
    } else if x.present && !Leaf(level, x) {
      InstallKeeps(t, info, kernel, f, i, c, es, e, level - 1, x.frame, v);
    }
  }

  /** The levels and owners survive, if the new table's links are in order. */
  lemma InstallStratified(t: Tables, info: map<nat, Info>, kernel: nat, f: nat, i: nat, c: nat, es: seq<Pte>, e: Pte)
    requires CanInstall(t, info, kernel, f, i, c, es, e)
    requires e.user <==> info[f].owner != kernel
    requires forall j: nat :: j < ENTRIES && es[j].present && !Leaf(info[f].level - 1, es[j]) ==>
               !es[j].user && es[j].frame in info && info[es[j].frame] == Info(info[f].level - 2, kernel)
    ensures Stratified(Install(t, f, i, c, es, e), info[c := Info(info[f].level - 1, info[f].owner)], kernel)
  {
    var t', info' := Install(t, f, i, c, es, e), info[c := Info(info[f].level - 1, info[f].owner)];
    assert TableOk(t, info, f);
    forall g: nat | g in info'
      ensures TableOk(t', info', g)
    {
      if g != c { assert TableOk(t, info, g); }
    }
    forall g: nat, j: nat | g in info' && j < ENTRIES
      ensures LinkOk(t', info', kernel, g, j)
    {
      if g != c { assert TableOk(t, info, g) && LinkOk(t, info, kernel, g, j); }
    }
  }

  lemma InstallTrees(t: Tables, info: map<nat, Info>, kernel: nat, f: nat, i: nat, c: nat, es: seq<Pte>, e: Pte)
    requires CanInstall(t, info, kernel, f, i, c, es, e) && Trees(t, info)
    requires forall j: nat :: j < ENTRIES && es[j].present && !Leaf(info[f].level - 1, es[j]) ==> !es[j].user
    ensures Trees(Install(t, f, i, c, es, e), info[c := Info(info[f].level - 1, info[f].owner)])
  {
    var t', info' := Install(t, f, i, c, es, e), info[c := Info(info[f].level - 1, info[f].owner)];
    forall g: nat, j: nat, h: nat, k: nat | g in info' && h in info' && j < ENTRIES && k < ENTRIES
      ensures SoleParent(t', info', g, j, h, k)
    {
      if g in info && h in info {
        assert SoleParent(t, info, g, j, h, k) && TableOk(t, info, g) && TableOk(t, info, h);
        assert LinkOk(t, info, kernel, g, j) && LinkOk(t, info, kernel, h, k);
      }
    }
  }

  // ----- the three kinds of new table -----

  const ZEROS := seq(ENTRIES, i => NIL)

  ghost predicate Blank(es: seq<Pte>) { forall j :: 0 <= j < |es| ==> es[j] == NIL }

  /** The 512 small pages a 2 MB page consists of, with flags as in `e`. */
  function SplitEntries(e: Pte): seq<Pte> {
    seq(ENTRIES, i requires i >= 0 => e.(frame := e.frame + i, huge := false))
  }

  lemma EmptyAgrees(t: Tables, info: map<nat, Info>, f: nat, i: nat, v: Va)
    requires f in info && info[f].level >= 2 && !Entry(t, f, i).present && Cut(v)
    ensures Agrees(t, info, f, i, ZEROS, v)
  {
  }

  /** Splitting keeps the translation, whatever the flags of the small pages (`s` carries them). */
  lemma SplitAgrees(t: Tables, info: map<nat, Info>, f: nat, i: nat, s: Pte, v: Va)
    requires f in info && info[f].level == 2 && Entry(t, f, i).present && Entry(t, f, i).huge && Cut(v)
    requires s.present && s.frame == Entry(t, f, i).frame
    ensures Agrees(t, info, f, i, SplitEntries(s), v)
  {
  }

  lemma CopyAgrees(t: Tables, info: map<nat, Info>, kernel: nat, f: nat, i: nat, v: Va)
    requires Stratified(t, info, kernel) && f in info && i < ENTRIES && 3 <= info[f].level && Links(t, info, f, i)
    requires Cut(v)
    ensures Entry(t, f, i).frame in t && |t[Entry(t, f, i).frame]| == ENTRIES
    ensures Agrees(t, info, f, i, t[Entry(t, f, i).frame], v)
  {
    var k := Entry(t, f, i).frame;
    var l := info[f].level - 1;
    assert LinkOk(t, info, kernel, f, i) && TableOk(t, info, k) && LinkOk(t, info, kernel, k, Index(v, l))
           && TableOk(t, info, f);
  }

  // ----- writing a leaf -----

  lemma {:induction false} LeafWrite(t: Tables, info: map<nat, Info>, kernel: nat, p: nat, i: nat, e: Pte, level: nat,
      g: nat, v: Va)
    requires Stratified(t, info, kernel) && p in info && info[p].level == 1 && i < ENTRIES && Cut(v)
    requires g in info && info[g].level == level && (level == 4 ==> v.i4 != RECURSIVE)
    ensures LeafTable(Set(t, p, i, e), level, g, v) == LeafTable(t, level, g, v)
    ensures WalkFrom(Set(t, p, i, e), level, g, v) ==
            if LeafTable(t, level, g, v) == Some(p) && v.i1 == i
            then (if e.present then Mapped(p, i, 1, e.frame * PAGE + v.off) else Unmapped)
            else WalkFrom(t, level, g, v)
    decreases level
  {
    assert TableOk(t, info, g) && TableOk(t, info, p) && LinkOk(t, info, kernel, g, Index(v, level));
    var x := Entry(t, g, Index(v, level));
    if x.present && !Leaf(level, x) {
      LeafWrite(t, info, kernel, p, i, e, level - 1, x.frame, v);
    }
  }

  lemma LeafWritePhys(t: Tables, info: map<nat, Info>, kernel: nat, p: nat, i: nat, e: Pte, level: nat, g: nat, v: Va)
    requires Stratified(t, info, kernel) && p in info && info[p].level == 1 && i < ENTRIES && Cut(v)
    requires g in info && info[g].level == level && (level == 4 ==> v.i4 != RECURSIVE)
    ensures PhysFrom(Set(t, p, i, e), level, g, v) ==
            if LeafTable(Set(t, p, i, e), level, g, v) == Some(p)
                && v.i1 == i then PageAt(e, v) else PhysFrom(t, level, g, v)
  {
    LeafWrite(t, info, kernel, p, i, e, level, g, v);
  }

  lemma LeafWriteStratified(t: Tables, info: map<nat, Info>, kernel: nat, p: nat, i: nat, e: Pte)
    requires Stratified(t, info, kernel) && p in info && info[p].level == 1 && i < ENTRIES
    ensures Stratified(Set(t, p, i, e), info, kernel)
  {
    var t' := Set(t, p, i, e);
    forall g: nat | g in info
      ensures TableOk(t', info, g)
    {
      assert TableOk(t, info, g);
    }
    forall g: nat, j: nat | g in info && j < ENTRIES
      ensures LinkOk(t', info, kernel, g, j)
    {
      assert LinkOk(t, info, kernel, g, j);
    }
  }

  lemma LeafWriteTrees(t: Tables, info: map<nat, Info>, p: nat, i: nat, e: Pte)
    requires Trees(t, info) && p in info && info[p].level == 1
    ensures Trees(Set(t, p, i, e), info)
  {
    var t' := Set(t, p, i, e);
    forall g: nat, j: nat, h: nat, k: nat | g in info && h in info && j < ENTRIES && k < ENTRIES
      ensures SoleParent(t', info, g, j, h, k)
    {
      assert SoleParent(t, info, g, j, h, k);
    }
  }

  // ----- who can reach a table -----

  /** A table of a user address space is reached from that space only. */
  lemma {:induction false} ReachedByOwner(t: Tables, info: map<nat, Info>, kernel: nat, level: nat, g: nat, v: Va)
    requires Stratified(t, info, kernel) && Cut(v) && g in info && info[g].level == level
    requires (level == 4 ==> v.i4 != RECURSIVE)
    requires LeafTable(t, level, g, v).Some?
    ensures var p := LeafTable(t, level, g, v).value;
            p in info && info[p].level == 1 && (info[p].owner == info[g].owner || info[p].owner == kernel)
    decreases level
  {
    assert TableOk(t, info, g) && LinkOk(t, info, kernel, g, Index(v, level));
    if level > 1 {
      ReachedByOwner(t, info, kernel, level - 1, Entry(t, g, Index(v, level)).frame, v);
    }
  }

  /** Two addresses that reach the same table of a user address space took the same way there. */
  lemma {:induction false} SolePath(t: Tables, info: map<nat, Info>, kernel: nat, level: nat, g: nat, h: nat, v: Va,
      w: Va)
    requires Stratified(t, info, kernel) && Trees(t, info) && Cut(v) && Cut(w)
    requires (level == 4 ==> v.i4 != RECURSIVE && w.i4 != RECURSIVE)
    requires g in info && h in info && info[g].level == level && info[h].level == level
    requires LeafTable(t, level, g, v).Some? && LeafTable(t, level, h, w) == LeafTable(t, level, g, v)
    requires LeafTable(t, level, g, v).value in info && info[LeafTable(t, level, g, v).value].owner != kernel
    ensures g == h && forall l :: 2 <= l <= level ==> Index(v, l) == Index(w, l)
    decreases level
  {
    assert TableOk(t, info, g);
    if level > 1 {
      var i, j := Index(v, level), Index(w, level);
      assert LinkOk(t, info, kernel, g, i) && LinkOk(t, info, kernel, h, j) && SoleParent(t, info, g, i, h, j);
      var x, y := Entry(t, g, i).frame, Entry(t, h, j).frame;
      SolePath(t, info, kernel, level - 1, x, y, v, w);
      ReachedByOwner(t, info, kernel, level - 1, x, v);
    }
  }

  // ----- statements about every address space -----

  ghost predicate Addressable(info: map<nat, Info>, root: nat, v: Va) {
    root in info && info[root].level == 4 && Cut(v) && v.i4 != RECURSIVE
  }

  /** Every address of every address space translates as before. */
  ghost predicate SameMaps(t: Tables, t': Tables, info: map<nat, Info>) {
    forall r: nat, v: Va {:trigger Translate(t', r, v)} ::
        Addressable(info, r, v) ==> Translate(t', r, v) == Translate(t, r, v)
  }

  predicate EndsAt(t: Tables, root: nat, v: Va, p: nat, i: nat) { LeafTable(t, 4, root, v) == Some(p) && v.i1 == i }

  function PageAt(e: Pte, v: Va): Option<nat> { if e.present then Some(e.frame * PAGE + v.off) else None }

  /** Exactly the addresses that end in slot `i` of table `p` changed, and they now translate through `e`. */
  ghost predicate Remapped(t: Tables, t': Tables, info: map<nat, Info>, p: nat, i: nat, e: Pte) {
    forall r: nat, v: Va {:trigger Translate(t', r, v)} :: Addressable(info, r, v) ==>
      Translate(t', r, v) == if EndsAt(t', r, v, p, i) then PageAt(e, v) else Translate(t, r, v)
  }

  /** Every byte of the page of `v` is the byte with the same offset from physical address `x`. */
  ghost predicate ShowsPage(t: Tables, s: nat, v: Va, x: nat) {
    forall w: Va {:trigger Translate(t, s, w)} :: Cut(w) && SamePage(v, w) ==> Translate(t, s, w) == Some(x + w.off)
  }

  lemma AddressBits(phys: nat)
    ensures phys / PAGE % 0x100_0000_0000 * PAGE == phys / PAGE * PAGE % 0x10_0000_0000_0000
    ensures phys % PAGE == 0 && phys < 0x10_0000_0000_0000 ==> phys / PAGE * PAGE % 0x10_0000_0000_0000 == phys
  {
  }

  /** A user page is at the address bits of `phys`, which are `phys` itself if it is a 52-bit page address. */
  lemma UserPageShows(t: Tables, s: nat, v: Va, phys: nat, flags: Pte)
    requires forall w: Va :: Cut(w) && SamePage(v, w) ==> Translate(t, s, w) == PageAt(UserPage(phys, flags), w)
    ensures flags.present ==> ShowsPage(t, s, v, phys / PAGE * PAGE % 0x10_0000_0000_0000)
    ensures phys % PAGE == 0 && phys < 0x10_0000_0000_0000 ==> phys / PAGE * PAGE % 0x10_0000_0000_0000 == phys
  {
    AddressBits(phys);
  }

  lemma InstallSame(t: Tables, info: map<nat, Info>, kernel: nat, f: nat, i: nat, c: nat, es: seq<Pte>, e: Pte)
    requires CanInstall(t, info, kernel, f, i, c, es, e)
    requires forall v :: Cut(v) ==> Agrees(t, info, f, i, es, v)
    ensures SameMaps(t, Install(t, f, i, c, es, e), info)
  {
    forall r: nat, v: Va | Addressable(info, r, v)
      ensures Translate(Install(t, f, i, c, es, e), r, v) == Translate(t, r, v)
    {
      InstallKeeps(t, info, kernel, f, i, c, es, e, 4, r, v);
    }
  }

  lemma LeafWriteRemaps(t: Tables, info: map<nat, Info>, kernel: nat, p: nat, i: nat, e: Pte)
    requires Stratified(t, info, kernel) && p in info && info[p].level == 1 && i < ENTRIES
    ensures Remapped(t, Set(t, p, i, e), info, p, i, e)
  {
    var t' := Set(t, p, i, e);
    forall r: nat, v: Va | Addressable(info, r, v)
      ensures Translate(t', r, v) == if EndsAt(t', r, v, p, i) then PageAt(e, v) else Translate(t, r, v)
    {
      LeafWritePhys(t, info, kernel, p, i, e, 4, r, v);
    }
  }

  /** A slot in a table of one user address space is a slot of one page of that space. */
  lemma PrivateSlot(t: Tables, info: map<nat, Info>, kernel: nat, s: nat, v: Va, p: nat, r: nat, w: Va)
    requires Stratified(t, info, kernel) && Trees(t, info) && Addressable(info, s, v) && Addressable(info, r, w)
    requires EndsAt(t, s, v, p, v.i1) && p in info && info[p].owner != kernel
    ensures EndsAt(t, r, w, p, v.i1) <==> r == s && SamePage(v, w)
  {
    if EndsAt(t, r, w, p, v.i1) {
      SolePath(t, info, kernel, 4, s, r, v, w);
      assert Index(v, 4) == Index(w, 4) && Index(v, 3) == Index(w, 3) && Index(v, 2) == Index(w, 2);
    }
    SamePath(t, 4, s, v, w);
  }

  lemma {:induction false} SamePath(t: Tables, level: nat, g: nat, v: Va, w: Va)
    requires level <= 4
    ensures SamePage(v, w) ==> LeafTable(t, level, g, v) == LeafTable(t, level, g, w)
  {
  }

  /** Tables above `level` are as before. */
  ghost predicate SameAbove(t: Tables, t': Tables, info: map<nat, Info>, level: nat) {
    forall g: nat, j: nat {:trigger Entry(t', g, j)} ::
        g in info && info[g].level > level ==> Entry(t', g, j) == Entry(t, g, j)
  }

  // ----- how many tables a mapping needs -----

  /** New tables vmm_map_page has to make for `v`, or -1 if a 1 GB page is in the way. */
  function Needed(t: Tables, level: nat, f: nat, v: Va): int
    decreases level
  {
    var e := Entry(t, f, Index(v, level));
    if level <= 1 then 0
    else if !e.present then level - 1
    else if Leaf(level, e) then (if level == 2 then 1 else -1)
    else Needed(t, level - 1, e.frame, v)
  }

  /** The tables vmm_map_user_page has to make for `v`, and the page-directory entry it will find. */
  datatype Plan = Plan(tables: nat, pd: Pte)

  function UserPlan(t: Tables, level: nat, f: nat, v: Va): Plan
    decreases level
  {
    var e := Entry(t, f, Index(v, level));
    if level <= 2 then Plan(if !e.present || e.huge then 1 else 0, e)
    else if !e.present then Plan(level - 1, NIL)
    else if Leaf(level, e) then Plan(0, NIL)
    else
      var below := UserPlan(t, level - 1, e.frame, v);
      if e.user then below else Plan(below.tables + 1, below.pd)
  }

  /** The entry leads to no table of the kernel. */
  predicate Private(pd: Pte) { !pd.present || pd.huge || pd.user }

  lemma {:induction false} PlanBelow(t: Tables, info: map<nat, Info>, kernel: nat, f: nat, i: nat, c: nat,
      es: seq<Pte>, e: Pte, level: nat, g: nat, v: Va)
    requires CanInstall(t, info, kernel, f, i, c, es, e) && Cut(v)
    requires g in info && info[g].level == level < info[f].level
    ensures UserPlan(Install(t, f, i, c, es, e), level, g, v) == UserPlan(t, level, g, v)
    decreases level
  {
    assert TableOk(t, info, f) && TableOk(t, info, g) && LinkOk(t, info, kernel, g, Index(v, level));
    var x := Entry(t, g, Index(v, level));
    if x.present && level > 2 && !Leaf(level, x) {
      PlanBelow(t, info, kernel, f, i, c, es, e, level - 1, x.frame, v);
    }
  }

  /** A copied table is planned for as the original was. */
  lemma PlanOfCopy(t: Tables, info: map<nat, Info>, kernel: nat, f: nat, i: nat, c: nat, e: Pte, k: nat, v: Va)
    requires k in info && k in t && CanInstall(t, info, kernel, f, i, c, t[k], e) && Cut(v)
    requires info[f].level >= 3 && info[k].level == info[f].level - 1
    ensures UserPlan(Install(t, f, i, c, t[k], e), info[f].level - 1, c, v) == UserPlan(t, info[f].level - 1, k, v)
  {
    var l := info[f].level - 1;
    assert TableOk(t, info, f) && LinkOk(t, info, kernel, k, Index(v, l));
    var x := Entry(t, k, Index(v, l));
    if x.present && l > 2 && !Leaf(l, x) {
      PlanBelow(t, info, kernel, f, i, c, t[k], e, l - 1, x.frame, v);
    }
  }

  // ----- a new address space -----

  /** The root of a new space: the kernel's upper half and its first entry. */
  function RootEntries(kernelRoot: seq<Pte>): seq<Pte>
    requires |kernelRoot| == ENTRIES
  {
    seq(ENTRIES, i requires 0 <= i < ENTRIES => if i >= 256 || i == 0 then kernelRoot[i] else NIL)
  }

  lemma {:induction false} AddKeeps(t: Tables, info: map<nat, Info>, kernel: nat, c: nat, es: seq<Pte>, level: nat,
      g: nat, v: Va)
    requires Stratified(t, info, kernel) && c !in info && Cut(v)
    requires g in info && info[g].level == level && (level == 4 ==> v.i4 != RECURSIVE)
    ensures WalkFrom(t[c := es], level, g, v) == WalkFrom(t, level, g, v)
    decreases level
  {
    assert TableOk(t, info, g) && LinkOk(t, info, kernel, g, Index(v, level));
    var x := Entry(t, g, Index(v, level));
    if x.present && !Leaf(level, x) {
      AddKeeps(t, info, kernel, c, es, level - 1, x.frame, v);
    }
  }

  /** A new space shows the kernel's upper half and first entry, and nothing else. */
  ghost predicate ShowsKernel(t: Tables, kernel: nat, c: nat) {
    forall v: Va {:trigger Translate(t, c, v)} :: Cut(v) && v.i4 != RECURSIVE ==>
      Translate(t, c, v) == if v.i4 >= 256 || v.i4 == 0 then Translate(t, kernel, v) else None
  }

  lemma NewRoot(t: Tables, info: map<nat, Info>, kernel: nat, c: nat)
    requires Stratified(t, info, kernel) && Trees(t, info) && c !in info
    ensures kernel in t && |t[kernel]| == ENTRIES
    ensures var t' := t[c := RootEntries(t[kernel])]; SameMaps(t, t', info) && ShowsKernel(t', kernel, c)
  {
    assert TableOk(t, info, kernel);
    var es := RootEntries(t[kernel]);
    var t' := t[c := es];
    forall r: nat, v: Va | Addressable(info, r, v)
      ensures Translate(t', r, v) == Translate(t, r, v)
    {
      AddKeeps(t, info, kernel, c, es, 4, r, v);
    }
    forall v: Va | Cut(v) && v.i4 != RECURSIVE
      ensures Translate(t', c, v) == if v.i4 >= 256 || v.i4 == 0 then Translate(t', kernel, v) else None
    {
      SameEntry(t', 4, c, kernel, v);
    }
  }

  lemma SameEntry(t: Tables, level: nat, f: nat, g: nat, v: Va)
    ensures !Entry(t, f, Index(v, level)).present ==> PhysFrom(t, level, f, v) == None
    ensures Entry(t, f, Index(v, level)) == Entry(t, g, Index(v, level)) ==>
            PhysFrom(t, level, f, v) == PhysFrom(t, level, g, v)
  {
  }

  lemma NewRootOk(t: Tables, info: map<nat, Info>, kernel: nat, c: nat)
    requires Stratified(t, info, kernel) && Trees(t, info) && c !in info && kernel in t && |t[kernel]| == ENTRIES
    ensures var t' := t[c := RootEntries(t[kernel])]; var info' := info[c := Info(4, c)];
            Stratified(t', info', kernel) && Trees(t', info')
  {
    var t', info' := t[c := RootEntries(t[kernel])], info[c := Info(4, c)];
    assert TableOk(t, info, kernel);
    forall g: nat | g in info'
      ensures TableOk(t', info', g)
    {
      if g != c { assert TableOk(t, info, g); }
    }
    forall g: nat, j: nat | g in info' && j < ENTRIES
      ensures LinkOk(t', info', kernel, g, j) && (g == c && Links(t', info', c, j) ==> !Entry(t', c, j).user)
    {
      assert LinkOk(t, info, kernel, if g == c then kernel else g, j);
    }
    forall g: nat, j: nat, h: nat, k: nat | g in info' && h in info' && j < ENTRIES && k < ENTRIES
      ensures SoleParent(t', info', g, j, h, k)
    {
      assert LinkOk(t', info', kernel, g, j) && LinkOk(t', info', kernel, h, k);
      if g != c && h != c { assert SoleParent(t, info, g, j, h, k); }
    }
  }

  // ----- runs -----

  /** Page `v` of space `s` translates through `e`; every other page of every space as before. */
  ghost predicate OnePage(t: Tables, t': Tables, info: map<nat, Info>, s: nat, v: Va, e: Pte) {
    forall r: nat, w: Va {:trigger Translate(t', r, w)} :: Addressable(info, r, w) ==>
      Translate(t', r, w) == if r == s && SamePage(v, w) then PageAt(e, w) else Translate(t, r, w)
  }

  datatype Call = Call(space: nat, page: Va, entry: Pte)

  /** What the last call for that page of that space asked for, or the translation before the run. */
  function After(calls: seq<Option<Call>>, r: nat, w: Va, before: Option<nat>): Option<nat> {
    if calls == [] then before
    else
      var c := calls[|calls| - 1];
      if c.Some? && c.value.space == r && SamePage(c.value.page, w) then PageAt(c.value.entry, w)
      else After(calls[..|calls| - 1], r, w, before)
  }

  /** Every address of every space translates as the calls say. */
  ghost predicate RanTo(t0: Tables, t: Tables, info: map<nat, Info>, calls: seq<Option<Call>>) {
    forall r: nat, w: Va {:trigger Translate(t, r, w)} :: Addressable(info, r, w) ==>
      Translate(t, r, w) == After(calls, r, w, Translate(t0, r, w))
  }

  lemma RunStep(t0: Tables, t: Tables, t': Tables, info: map<nat, Info>, info1: map<nat, Info>,
      calls: seq<Option<Call>>, c: Option<Call>)
    requires RanTo(t0, t, info, calls) && Extends(info, info1)
    requires match c case None => SameMaps(t, t', info1) case Some(x) => OnePage(t, t', info1, x.space, x.page, x.entry)
    ensures RanTo(t0, t', info, calls + [c])
  {
    var calls' := calls + [c];
    assert calls'[..|calls|] == calls;
    forall r: nat, w: Va | Addressable(info, r, w)
      ensures Translate(t', r, w) == After(calls', r, w, Translate(t0, r, w))
    {
      assert Addressable(info1, r, w);
      assert Translate(t, r, w) == After(calls, r, w, Translate(t0, r, w));
    }
  }

  /** No run of user mappings changes any address of the kernel, or of a space it was not made for. */
  lemma {:induction false} OthersUntouched(calls: seq<Option<Call>>, r: nat, w: Va, before: Option<nat>)
    requires forall i :: 0 <= i < |calls| && calls[i].Some? ==> calls[i].value.space != r
    ensures After(calls, r, w, before) == before
  {
    if calls != [] { OthersUntouched(calls[..|calls| - 1], r, w, before); }
  }

  lemma {:induction false} AfterJoin(calls: seq<Option<Call>>, more: seq<Option<Call>>, r: nat, w: Va,
      before: Option<nat>)
    ensures After(calls + more, r, w, before) == After(more, r, w, After(calls, r, w, before))
  {
    if more == [] {
      assert calls + more == calls;
    } else {
      var n := |more| - 1;
      AfterJoin(calls, more[..n], r, w, before);
      assert (calls + more)[..|calls| + n] == calls + more[..n] && (calls + more)[|calls| + n] == more[n];
    }
  }

  /** Two runs, one after the other. */
  lemma RunsJoin(t0: Tables, t1: Tables, t2: Tables, info: map<nat, Info>, info1: map<nat, Info>,
      calls: seq<Option<Call>>, more: seq<Option<Call>>)
    requires RanTo(t0, t1, info, calls) && RanTo(t1, t2, info1, more) && Extends(info, info1)
    ensures RanTo(t0, t2, info, calls + more)
  {
    forall r: nat, w: Va | Addressable(info, r, w)
      ensures Translate(t2, r, w) == After(calls + more, r, w, Translate(t0, r, w))
    {
      assert Addressable(info1, r, w);
      assert Translate(t1, r, w) == After(calls, r, w, Translate(t0, r, w));
      AfterJoin(calls, more, r, w, Translate(t0, r, w));
    }
  }

  lemma StackIndex(i: nat)
    requires i < 16
    ensures VaOf(0x7FFF_FFFF_E000 - 16 * PAGE + i * PAGE).i4 == 255
  {
  }

  /** Every address of every space the calls were not made for translates as before. */
  lemma Untouched(t0: Tables, t: Tables, info: map<nat, Info>, calls: seq<Option<Call>>, r: nat, w: Va)
    requires RanTo(t0, t, info, calls) && Addressable(info, r, w)
    requires forall i :: 0 <= i < |calls| && calls[i].Some? ==> calls[i].value.space != r
    ensures Translate(t, r, w) == Translate(t0, r, w)
  {
    OthersUntouched(calls, r, w, Translate(t0, r, w));
  }

  // ----- ranges -----

  /** The addresses that end in an old level-1 table end there still, and no others do. */
  ghost predicate SameLeafTables(t: Tables, t': Tables, info: map<nat, Info>) {
    forall r: nat, v: Va, p: nat, i: nat {:trigger EndsAt(t', r, v, p, i)} ::
        Addressable(info, r, v) && p in info ==> (EndsAt(t', r, v, p, i) <==> EndsAt(t, r, v, p, i))
  }

  /** The last of the first `n` slots that `w` ends in, or -1. */
  function Hit(t: Tables, r: nat, w: Va, slots: seq<(nat, nat)>): (h: int)
    ensures -1 <= h < |slots|
  {
    if slots == [] then -1
    else if EndsAt(t, r, w, slots[|slots| - 1].0, slots[|slots| - 1].1) then |slots| - 1
    else Hit(t, r, w, slots[..|slots| - 1])
  }

  lemma {:induction false} HitSame(t: Tables, t': Tables, info: map<nat, Info>, r: nat, w: Va, slots: seq<(nat, nat)>)
    requires SameLeafTables(t, t', info) && Addressable(info, r, w) && forall k ::
             0 <= k < |slots| ==> slots[k].0 in info
    ensures Hit(t', r, w, slots) == Hit(t, r, w, slots)
  {
    if slots != [] {
      var k := |slots| - 1;
      HitSame(t, t', info, r, w, slots[..k]);
      assert EndsAt(t', r, w, slots[k].0, slots[k].1) <==> EndsAt(t, r, w, slots[k].0, slots[k].1);
    }
  }

  /** The address of page `k` of the range that starts with the page of `x`. */
  function PageStart(x: nat, k: nat): nat { x / PAGE * PAGE + k * PAGE }

  function PageOf(virt: nat, k: nat): Va { VaOf(PageStart(virt, k)) }

  function PageCount(size: nat): nat { (size + PAGE - 1) / PAGE }

  /** The slots are where the first pages of the range end. */
  ghost predicate SlotsOf(t: Tables, info: map<nat, Info>, kernel: nat, virt: nat, slots: seq<(nat, nat)>) {
    forall k: nat {:trigger slots[k]} :: k < |slots| ==>
      slots[k].0 in info && slots[k].1 == PageOf(virt, k).i1
          && EndsAt(t, kernel, PageOf(virt, k), slots[k].0, slots[k].1)
  }

  lemma SlotsSame(t: Tables, t': Tables, info: map<nat, Info>, info': map<nat, Info>, kernel: nat, virt: nat,
      slots: seq<(nat, nat)>)
    requires SlotsOf(t, info, kernel, virt, slots) && SameLeafTables(t, t', info) && Extends(info, info')
    requires kernel in info && info[kernel].level == 4 && forall k: nat ::
             k < |slots| ==> PageOf(virt, k).i4 != RECURSIVE
    ensures SlotsOf(t', info', kernel, virt, slots)
  {
  }

  function RangeEntry(flags: Pte, phys: nat, k: nat): Pte { flags.(frame := phys / PAGE + k) }

  lemma RangeFrame(phys: nat, k: nat)
    ensures PageStart(phys, k) % PAGE == 0 && PageStart(phys, k) / PAGE == phys / PAGE + k
  {
  }

  /** The pages behind `slots` were mapped one after the other; everything else is as in `t0`. */
  ghost predicate Layered(t0: Tables, t: Tables, info: map<nat, Info>, slots: seq<(nat, nat)>, flags: Pte, phys: nat) {
    forall r: nat, w: Va {:trigger Translate(t, r, w)} :: Addressable(info, r, w) ==>
      Translate(t, r, w) == var h := Hit(t, r, w, slots);
          if h >= 0 then PageAt(RangeEntry(flags, phys, h), w) else Translate(t0, r, w)
  }

  lemma LayerStep(t0: Tables, t: Tables, t': Tables, info0: map<nat, Info>, info: map<nat, Info>,
      slots: seq<(nat, nat)>, p: nat, i: nat, flags: Pte, phys: nat)
    requires Layered(t0, t, info0, slots, flags, phys) && Extends(info0, info)
    requires (forall k :: 0 <= k < |slots| ==> slots[k].0 in info)
    requires Remapped(t, t', info, p, i, RangeEntry(flags, phys, |slots|)) && SameLeafTables(t, t', info)
    ensures Layered(t0, t', info0, slots + [(p, i)], flags, phys)
  {
    var slots' := slots + [(p, i)];
    assert slots'[..|slots|] == slots;
    forall r: nat, w: Va | Addressable(info0, r, w)
      ensures Translate(t', r, w) == var h := Hit(t', r, w, slots');
              if h >= 0 then PageAt(RangeEntry(flags, phys, h), w) else Translate(t0, r, w)
    {
      assert Addressable(info, r, w);
      HitSame(t, t', info, r, w, slots);
      assert Translate(t, r, w) == Translate(t, r, w);
    }
  }

  lemma LayerSame(t0: Tables, t: Tables, t': Tables, info0: map<nat, Info>, info: map<nat, Info>,
      slots: seq<(nat, nat)>, flags: Pte, phys: nat)
    requires Layered(t0, t, info0, slots, flags, phys) && Extends(info0, info)
    requires (forall k :: 0 <= k < |slots| ==> slots[k].0 in info)
    requires SameMaps(t, t', info) && SameLeafTables(t, t', info)
    ensures Layered(t0, t', info0, slots, flags, phys)
  {
    forall r: nat, w: Va | Addressable(info0, r, w)
      ensures Translate(t', r, w) == var h := Hit(t', r, w, slots);
              if h >= 0 then PageAt(RangeEntry(flags, phys, h), w) else Translate(t0, r, w)
    {
      assert Addressable(info, r, w);
      HitSame(t, t', info, r, w, slots);
      assert Translate(t, r, w) == Translate(t, r, w);
    }
  }

  ghost predicate Extends(info: map<nat, Info>, info': map<nat, Info>) {
    info.Keys <= info'.Keys && forall g :: g in info ==> info'[g] == info[g]
  }

  /** The first `j` of the slots have been unmapped again. */
  ghost predicate RolledBack(t0: Tables, t: Tables, info: map<nat, Info>, slots: seq<(nat, nat)>, j: nat, flags: Pte,
      phys: nat)
    requires j <= |slots|
  {
    forall r: nat, w: Va {:trigger Translate(t, r, w)} :: Addressable(info, r, w) ==>
      Translate(t, r, w) ==
        if Hit(t, r, w, slots[..j]) >= 0 then None
        else var h := Hit(t, r, w, slots); if h >= 0 then PageAt(RangeEntry(flags, phys, h), w) else Translate(t0, r, w)
  }

  lemma RollbackStep(t0: Tables, t: Tables, t': Tables, info0: map<nat, Info>, info: map<nat, Info>,
      slots: seq<(nat, nat)>, j: nat, flags: Pte, phys: nat)
    requires j < |slots| && RolledBack(t0, t, info0, slots, j, flags, phys) && Extends(info0, info)
    requires (forall k :: 0 <= k < |slots| ==> slots[k].0 in info)
    requires Remapped(t, t', info, slots[j].0, slots[j].1, NIL) && SameLeafTables(t, t', info)
    ensures RolledBack(t0, t', info0, slots, j + 1, flags, phys)
  {
    assert slots[..j + 1][..j] == slots[..j] && slots[..j + 1][j] == slots[j];
    forall r: nat, w: Va | Addressable(info0, r, w)
      ensures Translate(t', r, w) ==
        if Hit(t', r, w, slots[..j + 1]) >= 0 then None
        else var h := Hit(t', r, w, slots);
             if h >= 0 then PageAt(RangeEntry(flags, phys, h), w) else Translate(t0, r, w)
    {
      assert Addressable(info, r, w);
      HitSame(t, t', info, r, w, slots);
      HitSame(t, t', info, r, w, slots[..j]);
      assert Translate(t, r, w) == Translate(t, r, w);
    }
  }

  /** An absent entry is already what unmapping would make of it. */
  lemma AbsentRemapped(t: Tables, info: map<nat, Info>, p: nat, i: nat)
    requires !Entry(t, p, i).present
    ensures Remapped(t, t, info, p, i, NIL)
  {
  }

  /** The walk of an address that leads to a level-1 table is decided by its entry there. */
  lemma {:induction false} WalkEnd(t: Tables, level: nat, f: nat, v: Va)
    requires level <= 4
    ensures var w := WalkFrom(t, level, f, v); var p := LeafTable(t, level, f, v);
            && ((w.Mapped? && w.level <= 1) <==> (p.Some? && Entry(t, p.value, v.i1).present))
            && (p.Some? && !Entry(t, p.value, v.i1).present ==> w == Unmapped)
  {
  }

  // What the slots held before the call.

  /** Before, the addresses now ending in slot `i` of `p` translated through `x`. */
  ghost predicate Was(t: Tables, t': Tables, info: map<nat, Info>, p: nat, i: nat, x: Pte) {
    forall r: nat, w: Va {:trigger EndsAt(t', r, w, p, i)} ::
      Addressable(info, r, w) && EndsAt(t', r, w, p, i) ==> Translate(t, r, w) == PageAt(x, w)
  }

  ghost predicate Originals(t0: Tables, t: Tables, info: map<nat, Info>, slots: seq<(nat, nat)>, was: seq<Pte>) {
    |was| == |slots| && forall k :: 0 <= k < |slots| ==> Was(t0, t, info, slots[k].0, slots[k].1, was[k])
  }

  /** What slot `s` held before the first of the recorded calls that wrote it, or `x`. */
  function Earliest(slots: seq<(nat, nat)>, was: seq<Pte>, s: (nat, nat), x: Pte): Pte
    requires |was| == |slots|
  {
    if slots == [] then x
    else if slots[0] == s then was[0]
    else Earliest(slots[1..], was[1..], s, x)
  }

  lemma {:induction false} EarliestIs(slots: seq<(nat, nat)>, was: seq<Pte>, s: (nat, nat), x: Pte)
    requires |was| == |slots|
    ensures (s !in slots && Earliest(slots, was, s, x) == x)
            || exists k :: 0 <= k < |slots| && slots[k] == s && Earliest(slots, was, s, x) == was[k]
  {
    if slots != [] && slots[0] != s {
      EarliestIs(slots[1..], was[1..], s, x);
      if k :| 0 <= k < |slots[1..]| && slots[1..][k] == s && Earliest(slots[1..], was[1..], s, x) == was[1..][k] {
        assert slots[k + 1] == s && was[k + 1] == was[1..][k];
      }
    }
  }

  lemma {:induction false} HitIs(t: Tables, r: nat, w: Va, slots: seq<(nat, nat)>)
    ensures var h := Hit(t, r, w, slots);
            if h >= 0 then EndsAt(t, r, w, slots[h].0, slots[h].1)
            else forall k :: 0 <= k < |slots| ==> !EndsAt(t, r, w, slots[k].0, slots[k].1)
  {
    if slots != [] { HitIs(t, r, w, slots[..|slots| - 1]); }
  }

  lemma OriginalsSame(t0: Tables, t: Tables, t': Tables, info0: map<nat, Info>, info: map<nat, Info>,
      slots: seq<(nat, nat)>, was: seq<Pte>)
    requires Originals(t0, t, info0, slots, was) && SameLeafTables(t, t', info) && Extends(info0, info)
    requires forall k :: 0 <= k < |slots| ==> slots[k].0 in info
    ensures Originals(t0, t', info0, slots, was)
  {
    forall k | 0 <= k < |slots|
      ensures Was(t0, t', info0, slots[k].0, slots[k].1, was[k])
    {
      assert Was(t0, t, info0, slots[k].0, slots[k].1, was[k]);
      forall r: nat, w: Va | Addressable(info0, r, w) && EndsAt(t', r, w, slots[k].0, slots[k].1)
        ensures Translate(t0, r, w) == PageAt(was[k], w)
      {
        assert Addressable(info, r, w);
        assert EndsAt(t, r, w, slots[k].0, slots[k].1);
      }
    }
  }

  lemma OriginalsStep(t0: Tables, t: Tables, t': Tables, info0: map<nat, Info>, info: map<nat, Info>,
      slots: seq<(nat, nat)>, was: seq<Pte>,
                      p: nat, i: nat, x: Pte, flags: Pte, phys: nat)
    requires Originals(t0, t, info0, slots, was) && SameLeafTables(t, t', info) && Extends(info0, info)
    requires Layered(t0, t, info0, slots, flags, phys) && Was(t, t', info, p, i, x)
    requires forall k :: 0 <= k < |slots| ==> slots[k].0 in info
    ensures Originals(t0, t', info0, slots + [(p, i)], was + [Earliest(slots, was, (p, i), x)])
  {
    OriginalsSame(t0, t, t', info0, info, slots, was);
    var y := Earliest(slots, was, (p, i), x);
    EarliestIs(slots, was, (p, i), x);
    forall r: nat, w: Va | Addressable(info0, r, w) && EndsAt(t', r, w, p, i)
      ensures Translate(t0, r, w) == PageAt(y, w)
    {
      assert Addressable(info, r, w);
      HitIs(t', r, w, slots);
      HitSame(t, t', info, r, w, slots);
      if (p, i) in slots {
        var k :| 0 <= k < |slots| && slots[k] == (p, i) && y == was[k];
        assert Was(t0, t', info0, slots[k].0, slots[k].1, was[k]);
      } else {
        assert Translate(t, r, w) == PageAt(x, w);
      }
    }
  }

  /**
   * The rollback of vmm_map_range undoes the call exactly when none of the pages it had mapped was mapped
   * before the call.
   */
  lemma RollbackRestoresIff(t0: Tables, t: Tables, info: map<nat, Info>, kernel: nat, virt: nat,
      slots: seq<(nat, nat)>, was: seq<Pte>, flags: Pte, phys: nat)
    requires RolledBack(t0, t, info, slots, |slots|, flags, phys) && Originals(t0, t, info, slots, was)
    requires forall k: nat ::
             k < |slots| ==>
             Addressable(info, kernel, PageOf(virt, k)) && EndsAt(t, kernel, PageOf(virt, k), slots[k].0, slots[k].1)
    ensures SameMaps(t0, t, info) <==> forall k: nat :: k < |slots| ==> Translate(t0, kernel, PageOf(virt, k)) == None
  {
    assert slots[..|slots|] == slots;
    forall k: nat | k < |slots|
      ensures Translate(t, kernel, PageOf(virt, k)) == None
      ensures Translate(t0, kernel, PageOf(virt, k)) == PageAt(was[k], PageOf(virt, k))
    {
      HitIs(t, kernel, PageOf(virt, k), slots);
      assert Was(t0, t, info, slots[k].0, slots[k].1, was[k]);
    }
    forall r: nat, w: Va | Addressable(info, r, w) && forall k: nat ::
        k < |slots| ==> Translate(t0, kernel, PageOf(virt, k)) == None
      ensures Translate(t, r, w) == Translate(t0, r, w)
    {
      HitIs(t, r, w, slots);
      var h := Hit(t, r, w, slots);
      if h >= 0 {
        assert Was(t0, t, info, slots[h].0, slots[h].1, was[h]);
        assert Translate(t0, kernel, PageOf(virt, h)) == None;
      }
    }
  }

  // ----- a range, byte by byte -----

  /** The byte at offset `r` of page number `p`. */
  lemma ByteOfPage(p: nat, r: nat)
    requires r < 0x1000
    ensures SamePage(VaOf(p * 0x1000), VaOf(p * 0x1000 + r)) && VaOf(p * 0x1000 + r).off == r
  {
    var x, y := p * 0x1000, p * 0x1000 + r;
    assert x / 0x1000 == p == y / 0x1000 && x / 0x20_0000 == p / 512 == y / 0x20_0000;
    assert x / 0x4000_0000 == p / 512 / 512 == y / 0x4000_0000;
    assert x / 0x80_0000_0000 == p / 512 / 512 / 512 == y / 0x80_0000_0000;
  }

  lemma RangeByteOf(virt: nat, o: nat)
    ensures SamePage(PageOf(virt, o / PAGE), VaOf(virt / PAGE * PAGE + o))
            && VaOf(virt / PAGE * PAGE + o).off == o % PAGE
  {
    ByteOfPage(virt / PAGE + o / PAGE, o % PAGE);
  }

  /** No later page of the range is mapped through the slot of page `k`. */
  ghost predicate NoLater(slots: seq<(nat, nat)>, k: nat)
    requires k < |slots|
  {
    forall j :: k < j < |slots| ==> slots[j] != slots[k]
  }

  lemma {:induction false} HitLast(t: Tables, r: nat, w: Va, slots: seq<(nat, nat)>, k: nat)
    requires k < |slots| && EndsAt(t, r, w, slots[k].0, slots[k].1)
    ensures k <= Hit(t, r, w, slots) && (Hit(t, r, w, slots) == k <==> NoLater(slots, k))
  {
    var n := |slots| - 1;
    assert EndsAt(t, r, w, slots[n].0, slots[n].1) <==> slots[n] == slots[k];
    if slots[n] != slots[k] {
      HitLast(t, r, w, slots[..n], k);
      assert NoLater(slots[..n], k) <==> NoLater(slots, k);
    }
  }

  /** Byte `o` of a mapped range is byte `o` of the physical range, unless its page was overlaid by a later one. */
  lemma RangeByte(t0: Tables, t: Tables, info0: map<nat, Info>, info: map<nat, Info>, kernel: nat, virt: nat,
      slots: seq<(nat, nat)>, flags: Pte, phys: nat, o: nat)
    requires Layered(t0, t, info0, slots, flags, phys) && SlotsOf(t, info, kernel, virt, slots) && flags.present
    requires o / PAGE < |slots| && Addressable(info0, kernel, PageOf(virt, o / PAGE))
    ensures Translate(t, kernel, VaOf(virt / PAGE * PAGE + o)) == Some(phys / PAGE * PAGE + o) <==>
            NoLater(slots, o / PAGE)
  {
    var k, w := o / PAGE, VaOf(virt / PAGE * PAGE + o);
    RangeByteOf(virt, o);
    SamePath(t, 4, kernel, PageOf(virt, k), w);
    assert EndsAt(t, kernel, w, slots[k].0, slots[k].1) && Cut(w);
    HitLast(t, kernel, w, slots, k);
    assert Addressable(info0, kernel, w);
  }

  /**
   * The range holds `size` bytes and no page more, and byte for byte they are those of the physical range, except
   * exactly where a later page went through the same slot.
   */
  ghost predicate AllBytes(t: Tables, kernel: nat, virt: nat, phys: nat, size: nat, slots: seq<(nat, nat)>) {
    && size <= |slots| * PAGE < size + PAGE
    && forall o: nat {:trigger Translate(t, kernel, VaOf(virt / PAGE * PAGE + o))} :: o < size ==>
      o / PAGE < |slots| &&
      (Translate(t, kernel, VaOf(virt / PAGE * PAGE + o)) == Some(phys / PAGE * PAGE + o) <==>
       NoLater(slots, o / PAGE))
  }

  // ----- start-up -----

  /** The kernel's own root: the boot loader's upper half and first entry, and the recursive slot. */
  function KernelRoot(bootRoot: seq<Pte>, c: nat): seq<Pte>
    requires |bootRoot| == ENTRIES
  {
    RootEntries(bootRoot)[RECURSIVE := KernelLink(c)]
  }

  /** The boot loader's tables below the root now belong to the kernel's root `c`. */
  function Adopted(boot: map<nat, Info>, c: nat): map<nat, Info> {
    (map f | f in boot && boot[f].level != 4 :: Info(boot[f].level, c))[c := Info(4, c)]
  }

  lemma AdoptedOk(t: Tables, boot: map<nat, Info>, b: nat, c: nat)
    requires Stratified(t, boot, b) && c !in boot && (forall f :: f in boot ==> boot[f].owner == b) && b in t
    requires |t[b]| == ENTRIES
    ensures var t' := t[c := KernelRoot(t[b], c)]; var info := Adopted(boot, c);
            Stratified(t', info, c) && Trees(t', info)
  {
    var t', info := t[c := KernelRoot(t[b], c)], Adopted(boot, c);
    forall g: nat | g in info
      ensures TableOk(t', info, g)
    {
      if g != c { assert TableOk(t, boot, g); }
    }
    forall g: nat, j: nat | g in info && j < ENTRIES
      ensures LinkOk(t', info, c, g, j) && (Links(t', info, g, j) ==> !Entry(t', g, j).user)
    {
      assert LinkOk(t, boot, b, if g == c then b else g, j) && TableOk(t, boot, if g == c then b else g);
      assert TableOk(t, boot, b);
    }
    forall g: nat, j: nat, h: nat, k: nat | g in info && h in info && j < ENTRIES && k < ENTRIES
      ensures SoleParent(t', info, g, j, h, k)
    {
      assert LinkOk(t', info, c, g, j) && LinkOk(t', info, c, h, k);
    }
  }

  lemma AdoptedShows(t: Tables, boot: map<nat, Info>, b: nat, c: nat, v: Va)
    requires Stratified(t, boot, b) && c !in boot && b in t && |t[b]| == ENTRIES && Cut(v) && v.i4 != RECURSIVE
    ensures Translate(t[c := KernelRoot(t[b], c)], c, v) == if v.i4 >= 256
            || v.i4 == 0 then Translate(t, b, v) else None
  {
    var es := KernelRoot(t[b], c);
    AddKeeps(t, boot, b, c, es, 4, b, v);
    SameEntry(t[c := es], 4, c, b, v);
  }

  // The boot loader's tables: one page-directory-pointer table behind two root entries, one page directory
  // behind two of its entries, and thirty-two 2 MB pages.
  const BOOT_ROOT: nat := 1
  const BOOT_PDPT: nat := 2
  const BOOT_PD: nat := 3

  function WithTable(t: Tables, f: nat, es: seq<Pte>): Tables { t[f := es] }

  function BootRootEntries(): seq<Pte> { seq(ENTRIES, i => if i == 0 || i == 511 then KernelLink(BOOT_PDPT) else NIL) }
  function BootPdptEntries(): seq<Pte> { seq(ENTRIES, i => if i == 0 || i == 510 then KernelLink(BOOT_PD) else NIL) }
  function BootPdEntries(): seq<Pte>
  {
    seq(ENTRIES, i requires i >= 0 => if i < 32 then Pte(i * 512, true, true, false, true, 0) else NIL)
  }

  const BOOT_TABLES: Tables :=
    WithTable(WithTable(WithTable(map[], BOOT_ROOT, BootRootEntries()), BOOT_PDPT, BootPdptEntries()), BOOT_PD,
        BootPdEntries())

  const NO_INFO: map<nat, Info> := map[]

  const BOOT_INFO: map<nat,
      Info> := NO_INFO[BOOT_ROOT := Info(4, BOOT_ROOT)][BOOT_PDPT := Info(3, BOOT_ROOT)][BOOT_PD := Info(2, BOOT_ROOT)]

  /** Entries of the boot tables, one by one. */
  lemma BootEntry(f: nat, i: nat)
    requires i < ENTRIES
    ensures Entry(BOOT_TABLES, f, i) ==
            if f == BOOT_ROOT && (i == 0 || i == 511) then KernelLink(BOOT_PDPT)
            else if f == BOOT_PDPT && (i == 0 || i == 510) then KernelLink(BOOT_PD)
            else if f == BOOT_PD && i < 32 then Pte(i * 512, true, true, false, true, 0)
            else NIL
  {
  }

  lemma BootStratified()
    ensures Stratified(BOOT_TABLES, BOOT_INFO, BOOT_ROOT)
  {
    var t, info := BOOT_TABLES, BOOT_INFO;
    forall f: nat, i: nat | f in info && i < ENTRIES
      ensures LinkOk(t, info, BOOT_ROOT, f, i)
    {
      BootEntry(f, i);
    }
  }

  /** The first 64 MB of physical memory appear at address zero and again 2 GB below the top. */
  lemma BootTranslates(v: Va)
    requires Cut(v) && v.i2 < 32 && ((v.i4 == 0 && v.i3 == 0) || (v.i4 == 511 && v.i3 == 510))
    ensures Translate(BOOT_TABLES, BOOT_ROOT, v) == Some(v.i2 * 0x20_0000 + v.i1 * PAGE + v.off)
  {
    BootEntry(BOOT_ROOT, v.i4);
    BootEntry(BOOT_PDPT, v.i3);
    BootEntry(BOOT_PD, v.i2);
    assert v.i2 * 512 * PAGE == v.i2 * 0x20_0000;
  }
}
