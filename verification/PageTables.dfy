/** Page-table words, the address macros of modules/vmemory/vmemory.c, and the 4-level translation of the Intel SDM
    (Volume 3A, section 4.5) that they must agree with. */
module PageTables {
  import opened Arithmetic
  import opened Bits

  const PAGE: nat := 0x1000
  const PAGE2: nat := 0x20_0000
  const WORD: nat := 0x1_0000_0000_0000_0000
  /** Physical addresses have 52 bits. */
  const PHYS: nat := 0x10_0000_0000_0000
  /** Linear addresses have 48 bits; the macros below read no higher bit. */
  const LINEAR: nat := 0x1_0000_0000_0000

  const PRESENT: nat := 1
  const CANWRITE: nat := 2
  const PSIZE: nat := 0x80

  // ---- the source's macros, on bits ----

  /** GET_PML4E, and GET_PDPTE / GET_PDE / GET_PTE once the entry above is masked. */
  function EntryPtr(table: nat, va: nat, level: nat): nat
    requires 1 <= level <= 4
  {
    Or(table, Shl(GetBits(va, 3 + 9 * level, 12 + 9 * level), 3))
  }

  /** The table an entry points to, as GET_PDPTE, GET_PDE and GET_PTE extract it. */
  function TableBits(e: nat): nat { And(e, 0xFFFFFFFFFF000) }

  /** GET_PDE_PHYSADDR. */
  function PdePhysAddr(va: nat, e: nat): nat { Or(And(e, 0xFFFFFFFE00000), GetBits(va, 0, 21)) }

  /** SET_BITS with start 0, as used by SET_PDPT, SET_PD, SET_PT, SET_PTE_PHYSADDR and SET_PDE_PHYSADDR. */
  function SetBits(e: nat, bits: nat): nat { Or(e, bits) }

  /** `e & ~PFLAG_PRESENT` on 64 bits. */
  function ClearPresent(e: nat): nat { And(e, 0xFFFF_FFFF_FFFF_FFFE) }

  // ---- the same as arithmetic ----

  /** Bytes that one entry of a level covers. */
  function Span(level: nat): nat
    requires 1 <= level <= 4
  {
    if level == 1 then 0x1000 else if level == 2 then 0x20_0000 else if level == 3 then 0x4000_0000 else 0x80_0000_0000
  }

  function Index(va: nat, level: nat): (i: nat)
    requires 1 <= level <= 4
    ensures i < 512
  {
    (va / Span(level)) % 512
  }

  function Frame(e: nat): nat { e / 0x1000 % 0x100_0000_0000 * 0x1000 }

  /** The address bits of a leaf entry that maps `Span(level)` bytes. */
  function LeafFrame(level: nat, e: nat): nat
    requires 1 <= level <= 3
  {
    if level == 1 then Frame(e)
    else if level == 2 then e / 0x20_0000 % 0x8000_0000 * 0x20_0000
    else e / 0x4000_0000 % 0x40_0000 * 0x4000_0000
  }

  predicate Present(e: nat) { e % 2 == 1 }
  predicate Large(e: nat) { e / 0x80 % 2 == 1 }

  lemma IndexIs(va: nat, level: nat)
    requires 1 <= level <= 4
    ensures GetBits(va, 3 + 9 * level, 12 + 9 * level) == Index(va, level)
  {
    GetBitsIs(va, 3 + 9 * level, 12 + 9 * level);
    assert Pow2(9) == 512 && Pow2(12) == 0x1000 && Pow2(21) == 0x20_0000 && Pow2(30) == 0x4000_0000;
    assert Pow2(39) == 0x80_0000_0000;
  }

  /** OR-ing an index into an aligned table address is adding it. */
  lemma EntryPtrIs(table: nat, va: nat, level: nat)
    requires 1 <= level <= 4 && table % PAGE == 0
    ensures EntryPtr(table, va, level) == table + 8 * Index(va, level)
  {
    IndexIs(va, level);
    ShlIs(Index(va, level), 3);
    ShlIs(table / PAGE, 12);
    assert Pow2(12) == 0x1000 && Pow2(3) == 8;
    OrIsSum(table / PAGE, 8 * Index(va, level), 12);
  }

  /** The powers of two that occur in the layout. */
  lemma Powers()
    ensures Pow2(0) == 1 && Pow2(1) == 2 && Pow2(7) == 0x80 && Pow2(12) == 0x1000 && Pow2(21) == 0x20_0000
    ensures Pow2(31) == 0x8000_0000 && Pow2(40) == 0x100_0000_0000 && Pow2(63) == 0x8000_0000_0000_0000
  {
    assert Pow2(21) == 0x20_0000 && Pow2(10) == 0x400 && Pow2(19) == 0x8_0000;
    PowAdd(21, 10);
    PowAdd(21, 19);
    PowAdd(31, 31);
    assert Pow2(63) == 2 * Pow2(62);
  }

  lemma {:induction false} PowAdd(a: nat, b: nat)
    ensures Pow2(a + b) == Pow2(a) * Pow2(b)
    decreases a
  {
    if a > 0 {
      PowAdd(a - 1, b);
      TwiceMul(Pow2(a - 1), Pow2(b));
    }
  }

  lemma TwiceMul(x: nat, y: nat)
    ensures (2 * x) * y == 2 * (x * y)
  {}

  /** A field mask written out as a number. */
  lemma FieldMask(x: nat, lo: nat, hi: nat, mask: nat)
    requires lo <= hi && mask == Pow2(lo) * (Pow2(hi - lo) - 1)
    ensures And(x, mask) == Pow2(lo) * ((x / Pow2(lo)) % Pow2(hi - lo))
  {
    AndField(x, lo, hi);
    ShlIs(Pow2(hi - lo) - 1, lo);
    ShlIs((x / Pow2(lo)) % Pow2(hi - lo), lo);
  }

  lemma TableBitsIs(e: nat)
    ensures TableBits(e) == Frame(e)
  {
    Powers();
    FieldMask(e, 12, 52, 0xFFFFFFFFFF000);
  }

  lemma PdePhysAddrIs(va: nat, e: nat)
    ensures PdePhysAddr(va, e) == LeafFrame(2, e) + va % PAGE2
  {
    Powers();
    FieldMask(e, 21, 52, 0xFFFFFFFE00000);
    GetBitsIs(va, 0, 21);
    ShlIs(e / 0x20_0000 % 0x8000_0000, 21);
    OrIsSum(e / 0x20_0000 % 0x8000_0000, va % PAGE2, 21);
  }

  lemma FlagsAre(e: nat)
    ensures And(e, PRESENT) != 0 <==> Present(e)
    ensures And(e, PSIZE) != 0 <==> Large(e)
  {
    Powers();
    AndLow(e, 1);
    FieldMask(e, 7, 8, 0x80);
  }

  lemma ClearPresentIs(e: nat)
    requires e < WORD
    ensures ClearPresent(e) == e - e % 2
  {
    Powers();
    var h := e / 2;
    FieldMask(e, 1, 64, 0xFFFF_FFFF_FFFF_FFFE);
    DivUnique(h, 0x8000_0000_0000_0000, 0, h);
  }

  lemma OrFlags(q: nat, k: nat, b: nat)
    requires b < Pow2(k)
    ensures Or(Pow2(k) * q, b) == Pow2(k) * q + b
  {
    ShlIs(q, k);
    OrIsSum(q, b, k);
  }

  /** The word written for a new table or a 4 KB leaf, starting from an empty entry. */
  lemma SmallWord(pa: nat)
    requires pa % PAGE == 0
    ensures Or(SetBits(0, pa), Or(PRESENT, CANWRITE)) == pa + 3
  {
    assert Or(PRESENT, CANWRITE) == 3;
    Powers();
    OrFlags(pa / PAGE, 12, 3);
  }

  /** The word written for a 2 MB leaf, starting from an empty entry. */
  lemma LargeWord(pa: nat)
    requires pa % PAGE == 0
    ensures Or(SetBits(Or(0, PSIZE), pa), Or(PRESENT, CANWRITE)) == pa + 0x83
  {
    var q := pa / PAGE;
    assert Or(PRESENT, CANWRITE) == 3;
    assert Or(PSIZE, pa) == pa + 0x80 by {
      Powers();
      OrCommutes(PSIZE, pa);
      OrFlags(q, 12, 0x80);
    }
    assert Or(pa + 0x80, 3) == pa + 0x83 by {
      Powers();
      assert pa + 0x80 == 0x80 * (32 * q + 1);
      OrFlags(32 * q + 1, 7, 3);
    }
  }

  lemma {:induction false} OrCommutes(a: nat, b: nat)
    ensures Or(a, b) == Or(b, a)
    decreases a + b
  {
    if a != 0 && b != 0 {
      OrCommutes(a / 2, b / 2);
    }
  }

  /** The number of the page that a leaf entry of a level refers to. */
  function PageNo(level: nat, e: nat): nat
    requires 1 <= level <= 2
  {
    if level == 1 then e / 0x1000 % 0x100_0000_0000 else e / 0x20_0000 % 0x8000_0000
  }

  /** Mapping a page over an entry that is not empty ORs the two words. The page gets its own frame if and only if the
      address bits left behind by the earlier page are among its own. */
  lemma StaleExactly(level: nat, w: nat, x: nat)
    requires 1 <= level <= 2
    ensures LeafFrame(level, Or(w, x)) == LeafFrame(level, x)
        <==> Or(PageNo(level, w), PageNo(level, x)) == PageNo(level, x)
  {
    if level == 1 {
      Field12(w, x);
    } else {
      Field21(w, x);
    }
  }

  lemma Field12(w: nat, x: nat)
    ensures PageNo(1, Or(w, x)) == Or(PageNo(1, w), PageNo(1, x))
  {
    Powers();
    OrField(w, x, 12, 52);
    GetBitsIs(w, 12, 52);
    GetBitsIs(x, 12, 52);
    GetBitsIs(Or(w, x), 12, 52);
  }

  lemma Field21(w: nat, x: nat)
    ensures PageNo(2, Or(w, x)) == Or(PageNo(2, w), PageNo(2, x))
  {
    Powers();
    OrField(w, x, 21, 52);
    GetBitsIs(w, 21, 52);
    GetBitsIs(x, 21, 52);
    GetBitsIs(Or(w, x), 21, 52);
  }

  /** A page at 4 KB mapped where one at 8 KB has been ends up at 12 KB. */
  lemma StaleExample()
    ensures ClearPresent(0x2003) == 0x2002 && Or(SetBits(0x2002, 0x1000), Or(PRESENT, CANWRITE)) == 0x3003
    ensures LeafFrame(1, 0x3003) == 0x3000
  {
    ClearPresentIs(0x2003);
    StaleAddress();
    OrHalf(0x3002, 3);
    OrHalf(0x1801, 1);
  }

  lemma StaleAddress()
    ensures Or(0x2002, 0x1000) == 0x3002
  {
    assert Pow2(12) == 0x1000;
    ShlIs(2, 12);
    ShlIs(1, 12);
    ShlIs(3, 12);
    OrHalf(2, 1);
    OrShl(2, 2, 1, 12);
  }

  /** The flags of a mixed word. */
  lemma MixFlags(w: nat, x: nat)
    ensures Present(Or(w, x)) <==> Present(w) || Present(x)
    ensures Large(Or(w, x)) <==> Large(w) || Large(x)
  {
    OrParts(w, x);
    LargeShift(w);
    LargeShift(x);
    LargeShift(Or(w, x));
    OrShr(w, x, 7);
    OrParts(Shr(w, 7), Shr(x, 7));
  }

  lemma LargeShift(e: nat)
    ensures Large(e) <==> Shr(e, 7) % 2 == 1
  {
    assert Pow2(7) == 0x80;
    ShrIs(e, 7);
  }

  /** The code's steps on an entry that holds `w`, as one OR. */
  lemma MixSmall(w: nat, pa: nat)
    requires pa % PAGE == 0
    ensures Or(SetBits(w, pa), Or(PRESENT, CANWRITE)) == Or(w, pa + 3)
  {
    SmallWord(pa);
    assert SetBits(0, pa) == pa;
    OrAssoc(w, pa, Or(PRESENT, CANWRITE));
  }

  lemma MixLarge(w: nat, pa: nat)
    requires pa % PAGE == 0
    ensures Or(SetBits(Or(w, PSIZE), pa), Or(PRESENT, CANWRITE)) == Or(w, pa + 0x83)
  {
    var f := Or(PRESENT, CANWRITE);
    LargeWord(pa);
    OrAssoc(w, PSIZE, pa);
    OrAssoc(w, Or(PSIZE, pa), f);
  }
}
