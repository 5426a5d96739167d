/**
 * The 64-bit words behind the typed page-table entries (kernel/include/mm/vmm.h, kernel/mm/vmm.c).
 * Bits 12 to 51 hold the address (mask 0x000F_FFFF_FFFF_F000), the others are flags; bit 7 is the size flag.
 */
module PteBits {
  import opened Basics
  import VmmSpec

  /** `phys | flags` gives the address back exactly when neither operand strays into the other's bits. */
  lemma StoredAddressIff(phys: bv64, flags: bv64)
    ensures (phys | flags) & 0x000F_FFFF_FFFF_F000 == phys <==>
            phys & 0xFFF0_0000_0000_0FFF == 0 && flags & 0x000F_FFFF_FFFF_F000 & !phys == 0
    ensures phys & 0xFFF0_0000_0000_0FFF == 0 ==>
            (phys | flags) & 0xFFF0_0000_0000_0FFF == flags & 0xFFF0_0000_0000_0FFF
  {
  }

  /** The i-th small page of a 2 MB page: address moved by i pages, all flags but the size bit kept. */
  lemma SplitEntry(e: bv64, i: bv64)
    requires i < 512 && e & 0x1F_F000 == 0
    ensures var base := e & 0x000F_FFFF_FFFF_F000; var flags := e & 0xFFF0_0000_0000_0F7F;
            var s := (base + (i << 12)) | flags;
            s & 0x000F_FFFF_FFFF_F000 == base + (i << 12) && s & 0xFFF0_0000_0000_0FFF == flags
  {
  }

  // ----- words as numbers -----

  /** The number in the low `n` bits of `w`; with 64 bits, the number `w` stands for. */
  function Bits(w: bv64, n: nat): nat {
    if n == 0 then 0 else Bits(w >> 1, n - 1) * 2 + if w & 1 == 1 then 1 else 0
  }

  function Two(n: nat): nat { if n == 0 then 1 else 2 * Two(n - 1) }

  lemma {:induction false} TwoSum(a: nat, b: nat)
    ensures Two(a + b) == Two(a) * Two(b)
  {
    if a > 0 { TwoSum(a - 1, b); }
  }

  lemma Twos()
    ensures Two(12) == 0x1000 && Two(40) == 0x100_0000_0000
  {
    assert Two(4) == 16;
    TwoSum(4, 4);
    TwoSum(4, 8);
    TwoSum(12, 8);
    TwoSum(20, 20);
  }

  function Shr(w: bv64, n: nat): bv64 { if n == 0 then w else Shr(w >> 1, n - 1) }

  lemma ShrTwelve(w: bv64)
    ensures Shr(w, 12) == w >> 12
  {
    assert Shr(w >> 11, 1) == w >> 12;
    assert Shr(w >> 10, 2) == w >> 12;
    assert Shr(w >> 8, 4) == w >> 12;
    assert Shr(w >> 6, 6) == w >> 12;
    assert Shr(w >> 4, 8) == w >> 12;
    assert Shr(w >> 2, 10) == w >> 12;
  }

  lemma OneBitMore(a: nat, p: nat, b: nat, c: nat)
    ensures (a * p + b) * 2 + c == a * (2 * p) + (b * 2 + c)
  {
  }

  /** The number in `k + n` bits, from its two halves. */
  lemma {:induction false} BitsSplit(w: bv64, k: nat, n: nat)
    ensures Bits(w, k + n) == Bits(Shr(w, k), n) * Two(k) + Bits(w, k)
    decreases k
  {
    if k > 0 {
      BitsSplit(w >> 1, k - 1, n);
      OneBitMore(Bits(Shr(w, k), n), Two(k - 1), Bits(w >> 1, k - 1), if w & 1 == 1 then 1 else 0);
    }
  }

  lemma {:induction false} BitsBelow(w: bv64, n: nat)
    ensures Bits(w, n) < Two(n)
    decreases n
  {
    if n > 0 { BitsBelow(w >> 1, n - 1); }
  }

  lemma {:induction false} BitsOfZero(n: nat)
    ensures Bits(0, n) == 0
  {
    if n > 0 { BitsOfZero(n - 1); }
  }

  /** The low `n` bits of a mask are set. */
  predicate Ones(m: bv64, n: nat) { n == 0 || (m & 1 == 1 && Ones(m >> 1, n - 1)) }

  lemma TenOnes(m: bv64, n: nat)
    requires m & 0x3FF == 0x3FF && Ones(m >> 10, n)
    ensures Ones(m, n + 10)
  {
    assert Ones(m >> 8, n + 2);
    assert Ones(m >> 6, n + 4);
    assert Ones(m >> 4, n + 6);
    assert Ones(m >> 2, n + 8);
  }

  lemma FortyOnes()
    ensures Ones(0xFF_FFFF_FFFF, 40)
  {
    TenOnes(0x3FF, 0);
    TenOnes(0xF_FFFF, 10);
    TenOnes(0x3FFF_FFFF, 20);
    TenOnes(0xFF_FFFF_FFFF, 30);
  }

  predicate SameLow(x: bv64, y: bv64, n: nat) {
    n == 0 || ((x & 1 == 1 <==> y & 1 == 1) && SameLow(x >> 1, y >> 1, n - 1))
  }

  lemma {:induction false} SameBits(x: bv64, y: bv64, n: nat)
    requires SameLow(x, y, n)
    ensures Bits(x, n) == Bits(y, n)
    decreases n
  {
    if n > 0 { SameBits(x >> 1, y >> 1, n - 1); }
  }

  lemma {:induction false} MaskedSame(x: bv64, y: bv64, m: bv64, n: nat)
    requires x & m == y & m && Ones(m, n)
    ensures SameLow(x, y, n)
    decreases n
  {
    if n > 0 {
      assert m & 1 == 1 && Ones(m >> 1, n - 1);
      MaskedSame(x >> 1, y >> 1, m >> 1, n - 1);
    }
  }

  // ----- typed entries -----

  /** The address field, in pages: bits 12 to 51. */
  function Frame(w: bv64): nat { Bits(w >> 12, 40) }

  lemma FieldOf(w: nat, h: nat, f: nat, l: nat)
    requires w == (h * 0x100_0000_0000 + f) * 0x1000 + l && f < 0x100_0000_0000 && l < 0x1000
    ensures w / 0x1000 % 0x100_0000_0000 == f && (w < 0x10_0000_0000_0000 ==> w / 0x1000 == f)
  {
    assert w / 0x1000 == h * 0x100_0000_0000 + f;
  }

  /** The address field of any 64-bit word: the word divided by the page size, 40 bits of it. */
  lemma FrameNumber(w: bv64)
    ensures Frame(w) == Bits(w, 64) / PAGE % 0x100_0000_0000
    ensures Bits(w, 64) < 0x10_0000_0000_0000 ==> Frame(w) == Bits(w, 64) / PAGE
  {
    Twos();
    ShrTwelve(w);
    BitsSplit(w, 12, 52);
    BitsBelow(w, 12);
    BitsSplit(w >> 12, 40, 12);
    BitsBelow(w >> 12, 40);
    FieldOf(Bits(w, 64), Bits(Shr(w >> 12, 40), 12), Bits(w >> 12, 40), Bits(w, 12));
  }

  /** Words with the same masked address have the same frame. */
  lemma SameFrame(w: bv64, x: bv64)
    requires w & 0x000F_FFFF_FFFF_F000 == x & 0x000F_FFFF_FFFF_F000
    ensures Frame(w) == Frame(x)
  {
    FortyOnes();
    assert (w >> 12) & 0xFF_FFFF_FFFF == (x >> 12) & 0xFF_FFFF_FFFF;
    MaskedSame(w >> 12, x >> 12, 0xFF_FFFF_FFFF, 40);
    SameBits(w >> 12, x >> 12, 40);
  }

  /** The flags that have no name of their own in a typed entry. */
  function Rest(w: bv64): bv64 { w & 0xFFF0_0000_0000_0F78 }

  /** The typed entry a 64-bit word stands for. */
  function Typed(w: bv64): VmmSpec.Pte {
    VmmSpec.Pte(Frame(w), w & 1 != 0, w & 2 != 0, w & 4 != 0, w & 0x80 != 0, Bits(Rest(w), 64))
  }

  /** Or-ing keeps the address exactly when the flags add no address bit. */
  lemma AddressBitsIff(phys: bv64, flags: bv64)
    ensures (phys | flags) & 0x000F_FFFF_FFFF_F000 == phys & 0x000F_FFFF_FFFF_F000 <==>
            flags & 0x000F_FFFF_FFFF_F000 & !phys == 0
  {
  }

  /** Or-ing keeps the flags exactly when the address adds no flag. */
  lemma FlagBitsIff(phys: bv64, flags: bv64)
    ensures (phys | flags) & 0xFFF0_0000_0000_0FFF == flags & 0xFFF0_0000_0000_0FFF <==>
            phys & 0xFFF0_0000_0000_0FFF & !flags == 0
  {
  }

  /** `w` has the named and unnamed flags of `flags`. */
  predicate SameFlags(w: bv64, flags: bv64) {
    && w & 1 == flags & 1 && w & 2 == flags & 2 && w & 4 == flags & 4 && w & 0x80 == flags & 0x80
    && Rest(w) == Rest(flags)
  }

  lemma FlagsOf(w: bv64, flags: bv64)
    requires w & 0xFFF0_0000_0000_0FFF == flags & 0xFFF0_0000_0000_0FFF
    ensures SameFlags(w, flags)
  {
  }

  lemma TypedOf(w: bv64, phys: bv64, flags: bv64)
    requires Frame(w) == Frame(phys) && SameFlags(w, flags)
    ensures Typed(w) == Typed(flags).(frame := Typed(phys).frame)
  {
  }

  lemma TypedWord(w: bv64, phys: bv64, flags: bv64)
    requires w & 0x000F_FFFF_FFFF_F000 == phys & 0x000F_FFFF_FFFF_F000
    requires w & 0xFFF0_0000_0000_0FFF == flags & 0xFFF0_0000_0000_0FFF
    ensures Typed(w) == Typed(flags).(frame := Typed(phys).frame)
  {
    FlagsOf(w, flags);
    SameFrame(w, phys);
    TypedOf(w, phys, flags);
  }

  /**
   * The word vmm_map_page stores is the typed leaf of the model: the flags, with the frame of `phys`, which below
   * 2^52 is `phys` divided by the page size.
   */
  lemma TypedLeaf(phys: bv64, flags: bv64)
    requires phys & 0xFFF0_0000_0000_0FFF & !flags == 0 && flags & 0x000F_FFFF_FFFF_F000 & !phys == 0
    ensures Typed(phys | flags) == Typed(flags).(frame := Typed(phys).frame)
    ensures Bits(phys, 64) < 0x10_0000_0000_0000 ==>
            Typed(phys | flags) == Typed(flags).(frame := Bits(phys, 64) / PAGE)
  {
    AddressBitsIff(phys, flags);
    FlagBitsIff(phys, flags);
    TypedWord(phys | flags, phys, flags);
    FrameNumber(phys);
  }

  lemma UserLeafWord(phys: bv64, flags: bv64, w: bv64)
    requires flags & 0x000F_FFFF_FFFF_F000 == 0
    requires w == (phys & 0x000F_FFFF_FFFF_F000) | flags | 4
    ensures w & 0x000F_FFFF_FFFF_F000 == phys & 0x000F_FFFF_FFFF_F000 && SameFlags(w, flags | 4)
  {
    assert w & 0xFFF0_0000_0000_0FFF == (flags | 4) & 0xFFF0_0000_0000_0FFF;
  }

  lemma TypedUser(flags: bv64, f: bv64)
    requires f == flags | 4
    ensures Typed(f) == Typed(flags).(frame := Typed(f).frame, user := true)
  {
    assert f & 1 == flags & 1 && f & 2 == flags & 2 && f & 4 != 0 && f & 0x80 == flags & 0x80;
    assert Rest(f) == Rest(flags);
  }

  /**
   * The word vmm_map_user_page stores is the typed user page of the model, whatever the 64-bit `phys`: the address is
   * masked and the user flag set, so only clean flags are needed.
   */
  lemma TypedUserLeaf(phys: bv64, flags: bv64, w: bv64)
    requires flags & 0x000F_FFFF_FFFF_F000 == 0 && w == (phys & 0x000F_FFFF_FFFF_F000) | flags | 4
    ensures Typed(w) == Typed(flags).(frame := Typed(phys).frame, user := true)
    ensures Typed(w) == VmmSpec.UserPage(Bits(phys, 64), Typed(flags))
  {
    UserLeafWord(phys, flags, w);
    SameFrame(w, phys);
    FrameNumber(phys);
    TypedOf(w, phys, flags | 4);
    TypedUser(flags, flags | 4);
  }

  /** A link to a fresh table, as the kernel and user code paths write it. */
  lemma TypedLinks(table: bv64)
    requires table & 0xFFF0_0000_0000_0FFF == 0
    ensures Typed(table | 3) == VmmSpec.KernelLink(Typed(table).frame)
            && Typed(table | 7) == VmmSpec.UserLink(Typed(table).frame)
  {
    SameFrame(table | 3, table);
    SameFrame(table | 7, table);
    assert Rest(table | 3) == 0 == Rest(table | 7);
    BitsOfZero(64);
  }
}
