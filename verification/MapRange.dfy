/** Ranges of addresses: what the three loops of map_phys and unmap add up to. */
module MapRange {
  import opened Prelude
  import opened Arithmetic
  import opened PageTables
  import opened Translation

  /** A range of linear addresses, and the part of it that is covered by 2 MB leaves. */
  datatype Range = Range(va: nat, pa: nat, large: nat, small: nat)

  /** Address `v` of handle `r'` has a leaf of the right size if it lies below `end` in the range, one that translates
      it into the physical range if `exact`; and it has the leaf it had before otherwise. */
  ghost predicate RangedAt(m: Mem, m': Mem, r: nat, g: Range, end: nat, exact: bool, r': nat, v: nat) {
    if r' == r && g.va <= v < end then HoldsAt(m', r', g, v, exact)
    else FindLeaf(m', r', 4, v) == FindLeaf(m, r', 4, v)
  }

  ghost predicate Shaped(m: Mem, m': Mem, tabs: Tabs, r: nat, g: Range, end: nat, exact: bool) {
    forall r': nat, v: nat :: r' in tabs && tabs[r'].level == 4 && v < LINEAR
      ==> RangedAt(m, m', r, g, end, exact, r', v)
  }

  /** Under handle `r`, every byte of the range below `end` translates to its byte of the physical range; no other
      leaf of any handle changed. */
  ghost predicate Ranged(m: Mem, m': Mem, tabs: Tabs, r: nat, g: Range, end: nat) {
    Shaped(m, m', tabs, r, g, end, true)
  }

  ghost predicate Extends(tabs: Tabs, tabs': Tabs) {
    forall p :: p in tabs ==> p in tabs' && tabs'[p] == tabs[p]
  }

  lemma SpanIs(level: nat, va: nat, v: nat)
    requires 1 <= level <= 2 && va % Span(level) == 0
    ensures SameSpan(level, va, v) <==> va <= v < va + Span(level)
    ensures SameSpan(level, va, v) ==> v % Span(level) == v - va
  {
    var q := va / Span(level);
    if va <= v < va + Span(level) {
      DivUnique(v, Span(level), q, v - va);
    }
  }

  // ---- what the loops will need ----

  /** The lowest entry for `a` can be used as it is: it is empty, or holds a page. */
  predicate Vacant(m: Mem, r: nat, a: nat) {
    var w := OldWord(m, r, 4, a, 1);
    Ready(m, r, 4, a, 1, w) && (w == 0 || Present(w))
  }

  predicate SmallReady(m: Mem, r: nat, lo: nat, hi: nat) {
    forall a: nat :: lo <= a < hi && a % PAGE == 0 ==> Vacant(m, r, a)
  }

  /** Mapping the leaf at `va` leaves what lies behind it ready. */
  lemma ReadyBehind(m: Mem, m': Mem, r: nat, va: nat, level: nat, lo: nat, hi: nat)
    requires 1 <= level <= 2 && va % Span(level) == 0 && ReadyElsewhere(m, m', r, va, level)
    requires va + Span(level) <= lo && hi <= LINEAR
    ensures SmallReady(m, r, lo, hi) ==> SmallReady(m', r, lo, hi)
  {
    if SmallReady(m, r, lo, hi) {
      forall a: nat | lo <= a < hi && a % PAGE == 0 ensures Vacant(m', r, a) {
        SpanIs(level, va, a);
        assert Vacant(m, r, a);
        ReadyOld(m', r, 4, a, 1, OldWord(m, r, 4, a, 1));
      }
    }
  }

  lemma ExtendsMore(ts0: Tabs, ts1: Tabs, ts2: Tabs, r: nat)
    requires Extends(ts0, ts1) && Extends(ts1, ts2) && r in ts0
    ensures Extends(ts0, ts2) && r in ts2 && ts2[r] == ts0[r]
  {}

  // ---- the split into 4 KB and 2 MB pages ----

  /** Pages mapped by the first loop of map_phys (modules/vmemory/vmemory.c:286), which stops as soon as either
      address is 2 MB aligned. */
  function FirstPages(va: nat, pa: nat, n: nat): (k: nat)
    ensures k <= n
    decreases n
  {
    if n == 0 || pa % PAGE2 == 0 || va % PAGE2 == 0 then 0 else 1 + FirstPages(va + PAGE, pa + PAGE, n - 1)
  }

  /** The second loop starts with both addresses 2 MB aligned, or maps nothing. */
  predicate LargeAligned(va: nat, pa: nat, n: nat) {
    var k := FirstPages(va, pa, n);
    n - k >= 512 ==> (va + PAGE * k) % PAGE2 == 0 && (pa + PAGE * k) % PAGE2 == 0
  }

  lemma {:induction false} FirstPagesStop(va: nat, pa: nat, n: nat)
    ensures var k := FirstPages(va, pa, n); k < n ==> (va + PAGE * k) % PAGE2 == 0 || (pa + PAGE * k) % PAGE2 == 0
    decreases n
  {
    if !(n == 0 || pa % PAGE2 == 0 || va % PAGE2 == 0) {
      FirstPagesStop(va + PAGE, pa + PAGE, n - 1);
    }
  }

  lemma ShiftMod(x: nat, y: nat, d: nat)
    ensures x % PAGE2 == y % PAGE2 <==> (x + d) % PAGE2 == (y + d) % PAGE2
  {}

  /** The exact condition under which every large page is aligned in both address spaces: the two addresses are
      congruent modulo 2 MB, or the request is too short to use a large page. */
  lemma LargeAlignedExactly(va: nat, pa: nat, n: nat)
    ensures LargeAligned(va, pa, n) <==> va % PAGE2 == pa % PAGE2 || n - FirstPages(va, pa, n) < 512
  {
    var k := FirstPages(va, pa, n);
    FirstPagesStop(va, pa, n);
    ShiftMod(va, pa, PAGE * k);
  }

  // ---- unmapping ----

  /** Each address of the range from `from` up to `end` has a leaf of the size that the split expects there, and if
      `exact` it translates to its byte of the physical range. */
  ghost predicate Holds(m: Mem, r: nat, g: Range, from: nat, end: nat, exact: bool) {
    forall v: nat :: from <= v < end ==> HoldsAt(m, r, g, v, exact)
  }

  ghost predicate HoldsAt(m: Mem, r: nat, g: Range, v: nat, exact: bool) {
    && FindLeaf(m, r, 4, v).Some? && FindLeaf(m, r, 4, v).value.level == (if g.large <= v < g.small then 2 else 1)
    && (exact ==> v >= g.va && Walk(m, r, v) == Some(g.pa + (v - g.va)))
  }

  ghost predicate UnmappedAt(m: Mem, m': Mem, r: nat, lo: nat, hi: nat, r': nat, v: nat) {
    FindLeaf(m', r', 4, v) == if r' == r && lo <= v < hi then None else FindLeaf(m, r', 4, v)
  }

  /** Under handle `r` the addresses in [lo, hi) have no leaf any more; no other leaf of any handle changed. */
  ghost predicate Unmapped(m: Mem, m': Mem, tabs: Tabs, r: nat, lo: nat, hi: nat) {
    forall r': nat, v: nat :: r' in tabs && tabs[r'].level == 4 && v < LINEAR ==> UnmappedAt(m, m', r, lo, hi, r', v)
  }

  /** What UNMAP_PAGE and UNMAP_PAGE2 hand to allocator_free for a leaf (modules/vmemory/vmemory.c:240, 248). */
  function FreedAddr(f: Found, va: nat): nat { LeafFrame(2, f.word) + va % PAGE2 }

  lemma FrameSplit(e: nat)
    ensures LeafFrame(2, e) == Frame(e) - Frame(e) % PAGE2
  {
    var p := e / 0x1000;
    var f := p % 0x100_0000_0000;
    DivUnique(e, PAGE2, p / 512, p % 512 * 0x1000 + e % 0x1000);
    var h := f / 512;
    DivUnique(p, 0x100_0000_0000, p / 0x100_0000_0000, f);
    DivUnique(p / 512, 0x8000_0000, p / 0x100_0000_0000, h);
    DivUnique(f * 0x1000, PAGE2, h, f % 512 * 0x1000);
  }

  /** The 2 MB mask is used for 4 KB pages too, so the address freed for a page-aligned `va` is the one it translates to
      exactly when the two are congruent modulo 2 MB. */
  lemma FreedExactly(m: Mem, r: nat, va: nat)
    requires va % PAGE == 0 && FindLeaf(m, r, 4, va).Some? && FindLeaf(m, r, 4, va).value.level <= 2
    ensures Walk(m, r, va) == Some(FreedAddr(FindLeaf(m, r, 4, va).value, va))
        <==> FindLeaf(m, r, 4, va).value.level == 2 || Walk(m, r, va).value % PAGE2 == va % PAGE2
  {
    FrameSplit(FindLeaf(m, r, 4, va).value.word);
  }

  /** Consecutive pieces that cover [lo, hi) exactly once. */
  predicate Tiles(s: seq<(nat, nat)>, lo: nat, hi: nat) {
    if s == [] then lo == hi
    else var p := s[|s| - 1]; p.0 + p.1 == hi && Tiles(s[..|s| - 1], lo, p.0)
  }

  lemma TilesMore(s: seq<(nat, nat)>, lo: nat, a: nat, n: nat)
    requires Tiles(s, lo, a)
    ensures Tiles(s + [(a, n)], lo, a + n)
  {
    assert (s + [(a, n)])[..|s|] == s;
  }

  lemma {:induction false} FirstPagesSame(va: nat, pa: nat, n: nat)
    requires va % PAGE2 == pa % PAGE2
    ensures FirstPages(va, pa, n) == FirstPages(va, va, n)
    decreases n
  {
    if n > 0 && va % PAGE2 != 0 {
      ShiftMod(va, pa, PAGE);
      FirstPagesSame(va + PAGE, pa + PAGE, n - 1);
    }
  }
}
