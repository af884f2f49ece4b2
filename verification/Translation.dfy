/** The forest of page tables in memory, and what reading and writing one entry does to every translation. */
module Translation {
  import opened Prelude
  import opened Arithmetic
  import opened Bits
  import opened PageTables

  /** Kernel memory by word address. A word nobody has written yet holds junk. */
  type Mem = map<nat, nat>
  const JUNK: nat := 0xFFFF_FFFF_FFFF_FFFF
  /** Entries are made of physical addresses and low flags, so they stay below 2^53. */
  const WORDS: nat := 0x20_0000_0000_0000

  function Word(m: Mem, a: nat): nat { if a in m then m[a] else JUNK }
  function Entry(m: Mem, page: nat, i: nat): nat { Word(m, page + 8 * i) }

  predicate Leaf(level: nat, e: nat) { level == 1 || (level <= 3 && Large(e)) }

  /** The leaf entry a walk ends in, and its level. */
  datatype Found = Found(level: nat, word: nat)

  /** The processor's search for the leaf of linear address `va`, starting from the table `page` of the given level. */
  function FindLeaf(m: Mem, page: nat, level: nat, va: nat): (f: Option<Found>)
    requires 1 <= level <= 4
    ensures f.Some? ==> 1 <= f.value.level <= 3
    decreases level
  {
    var e := Entry(m, page, Index(va, level));
    if !Present(e) then None
    else if Leaf(level, e) then Some(Found(level, e))
    else FindLeaf(m, Frame(e), level - 1, va)
  }

  /** The physical address of `va`: the frame of its leaf plus the offset within it. */
  function Walk(m: Mem, root: nat, va: nat): Option<nat> {
    var f := FindLeaf(m, root, 4, va);
    if f.None? then None else Some(LeafFrame(f.value.level, f.value.word) + va % Span(f.value.level))
  }

  // ---- the forest ----

  /** A table: its level (4 is a PML4) and, below level 4, the one entry that refers to it. */
  datatype Tab = Tab(level: nat, parent: nat, idx: nat)
  type Tabs = map<nat, Tab>

  predicate TabOk(tabs: Tabs, p: nat)
    requires p in tabs
  {
    && p % PAGE == 0 && 0 < p && p + PAGE <= PHYS
    && (tabs[p].level < 4 ==>
          && tabs[p].parent in tabs && tabs[tabs[p].parent].level == tabs[p].level + 1 && tabs[p].idx < 512)
  }

  ghost predicate TabsOk(tabs: Tabs) {
    && (forall p :: p in tabs ==> 1 <= tabs[p].level <= 4)
    && (forall p {:trigger TabOk(tabs, p)} :: p in tabs ==> TabOk(tabs, p))
  }

  /** A present entry that is not a leaf refers to a table of its own; entries of the two upper levels are never
      stale. */
  predicate SlotOk(m: Mem, tabs: Tabs, p: nat, i: nat)
    requires p in tabs
  {
    var e, level := Entry(m, p, i), tabs[p].level;
    && e < WORDS
    && (level >= 2 && Present(e) && !Leaf(level, e) ==>
          e >= 3 && e - 3 in tabs && tabs[e - 3] == Tab(level - 1, p, i))
    && (level >= 3 ==> e == 0 || (Present(e) && !Leaf(level, e)))
  }

  ghost predicate Inv(m: Mem, tabs: Tabs) {
    && TabsOk(tabs)
    && (forall p, i {:trigger SlotOk(m, tabs, p, i)} :: p in tabs && 0 <= i < 512 ==> SlotOk(m, tabs, p, i))
    && (forall p {:trigger Referred(m, tabs, p)} :: p in tabs ==> Referred(m, tabs, p))
  }

  /** The one entry that should refer to table `p` does. */
  predicate Referred(m: Mem, tabs: Tabs, p: nat)
    requires p in tabs
  {
    tabs[p].level < 4 ==> Entry(m, tabs[p].parent, tabs[p].idx) == p + 3
  }

  lemma FrameOf(p: nat)
    requires p % PAGE == 0 && p < PHYS
    ensures Frame(p + 3) == p && Present(p + 3) && !Large(p + 3)
  {
    var q := p / PAGE;
    DivUnique(p + 3, 0x1000, q, 3);
    DivUnique(q, 0x100_0000_0000, 0, q);
    DivUnique(p + 3, 0x80, 32 * q, 3);
  }

  /** Following a table entry of a table leads to the table it owns. */
  lemma NextTable(m: Mem, tabs: Tabs, p: nat, i: nat)
    requires Inv(m, tabs) && p in tabs && i < 512 && tabs[p].level >= 2
    requires Present(Entry(m, p, i)) && !Leaf(tabs[p].level, Entry(m, p, i))
    ensures var q := Frame(Entry(m, p, i));
      q in tabs && tabs[q] == Tab(tabs[p].level - 1, p, i) && Entry(m, p, i) == q + 3
  {
    assert SlotOk(m, tabs, p, i);
    var q := Entry(m, p, i) - 3;
    assert TabOk(tabs, q);
    FrameOf(q);
  }

  /** Every table below level 4 is referred to by exactly one present entry of one table. */
  lemma OneReference(m: Mem, tabs: Tabs, q: nat, p: nat, i: nat)
    requires Inv(m, tabs) && q in tabs && tabs[q].level < 4 && p in tabs && i < 512 && tabs[p].level >= 2
    ensures Present(Entry(m, p, i)) && !Leaf(tabs[p].level, Entry(m, p, i)) && Frame(Entry(m, p, i)) == q
        <==> p == tabs[q].parent && i == tabs[q].idx
  {
    if Present(Entry(m, p, i)) && !Leaf(tabs[p].level, Entry(m, p, i)) {
      NextTable(m, tabs, p, i);
    }
    assert TabOk(tabs, q) && Referred(m, tabs, q);
    FrameOf(q);
  }

  // ---- which entries a walk reads ----

  /** Does the walk of `va` from `page` read entry `i` of table `x`? */
  predicate Hits(m: Mem, page: nat, level: nat, va: nat, x: nat, i: nat)
    requires 1 <= level <= 4
    decreases level
  {
    var e := Entry(m, page, Index(va, level));
    || (page == x && Index(va, level) == i)
    || (Present(e) && !Leaf(level, e) && Hits(m, Frame(e), level - 1, va, x, i))
  }

  lemma SlotApart(p: nat, i: nat, q: nat, j: nat)
    requires p % PAGE == 0 && q % PAGE == 0 && i < 512 && j < 512
    ensures p + 8 * i == q + 8 * j ==> p == q && i == j
  {}

  /** Writing an entry that a walk does not read leaves the walk alone. */
  lemma {:induction false} WalkWrite(m: Mem, tabs: Tabs, page: nat, va: nat, x: nat, i: nat, w: nat)
    requires Inv(m, tabs) && page in tabs && x in tabs && i < 512
    requires !Hits(m, page, tabs[page].level, va, x, i)
    ensures FindLeaf(m[x + 8 * i := w], page, tabs[page].level, va) == FindLeaf(m, page, tabs[page].level, va)
    decreases tabs[page].level
  {
    var level := tabs[page].level;
    var j := Index(va, level);
    assert TabOk(tabs, page) && TabOk(tabs, x);
    SlotApart(page, j, x, i);
    var e := Entry(m, page, j);
    assert Entry(m[x + 8 * i := w], page, j) == e;
    if Present(e) && !Leaf(level, e) {
      NextTable(m, tabs, page, j);
      WalkWrite(m, tabs, Frame(e), va, x, i, w);
    }
  }

  /** A walk that reads entry `i` of `x` is, from there on, the walk from `x`, whatever that entry holds. */
  lemma {:induction false} WalkReaches(m: Mem, tabs: Tabs, page: nat, va: nat, x: nat, i: nat, w: nat)
    requires Inv(m, tabs) && page in tabs && x in tabs && i < 512
    requires Hits(m, page, tabs[page].level, va, x, i)
    ensures Index(va, tabs[x].level) == i && tabs[x].level <= tabs[page].level
    ensures FindLeaf(m[x + 8 * i := w], page, tabs[page].level, va) == FindLeaf(m[x + 8 * i := w], x, tabs[x].level, va)
    decreases tabs[page].level
  {
    var level := tabs[page].level;
    var j := Index(va, level);
    assert TabOk(tabs, page) && TabOk(tabs, x);
    if page != x || j != i {
      SlotApart(page, j, x, i);
      var e := Entry(m, page, j);
      assert Entry(m[x + 8 * i := w], page, j) == e;
      NextTable(m, tabs, page, j);
      WalkReaches(m, tabs, Frame(e), va, x, i, w);
    }
  }

  // ---- no two addresses share an entry ----

  /** The handle a table belongs to. */
  ghost function RootOf(tabs: Tabs, x: nat): nat
    requires TabsOk(tabs) && x in tabs
    decreases 4 - tabs[x].level
  {
    assert TabOk(tabs, x);
    if tabs[x].level >= 4 then x else RootOf(tabs, tabs[x].parent)
  }

  /** The entries above table `x` are those that `va` selects. */
  ghost predicate OnPath(tabs: Tabs, x: nat, va: nat)
    requires TabsOk(tabs) && x in tabs
    decreases 4 - tabs[x].level
  {
    assert TabOk(tabs, x);
    tabs[x].level >= 4 || (tabs[x].idx == Index(va, tabs[x].level + 1) && OnPath(tabs, tabs[x].parent, va))
  }

  lemma {:induction false} HitsOnPath(m: Mem, tabs: Tabs, page: nat, va: nat, x: nat, i: nat)
    requires Inv(m, tabs) && page in tabs && x in tabs && i < 512
    requires OnPath(tabs, page, va) && Hits(m, page, tabs[page].level, va, x, i)
    ensures OnPath(tabs, x, va) && RootOf(tabs, x) == RootOf(tabs, page)
    decreases tabs[page].level
  {
    assert TabOk(tabs, page);
    var j := Index(va, tabs[page].level);
    if page != x || j != i {
      NextTable(m, tabs, page, j);
      var q := Frame(Entry(m, page, j));
      assert TabOk(tabs, q);
      HitsOnPath(m, tabs, q, va, x, i);
    }
  }

  lemma {:induction false} PathIndices(tabs: Tabs, x: nat, va: nat, va': nat, l: nat)
    requires TabsOk(tabs) && x in tabs && OnPath(tabs, x, va) && OnPath(tabs, x, va')
    requires tabs[x].level < l <= 4
    ensures Index(va, l) == Index(va', l)
    decreases 4 - tabs[x].level
  {
    assert TabOk(tabs, x);
    if l > tabs[x].level + 1 {
      PathIndices(tabs, tabs[x].parent, va, va', l);
    }
  }

  /** Do two linear addresses fall under the same entry of a level? */
  predicate SameSpan(level: nat, va: nat, va': nat)
    requires 1 <= level <= 4
  {
    va / Span(level) == va' / Span(level)
  }

  lemma IndexStep(va: nat, level: nat)
    requires 1 <= level < 4
    ensures va / Span(level) == 512 * (va / Span(level + 1)) + Index(va, level)
  {
    var y := va / Span(level);
    DivUnique(va, Span(level + 1), y / 512, va % Span(level) + Span(level) * (y % 512));
  }

  lemma {:induction false} SameIndices(level: nat, va: nat, va': nat)
    requires 1 <= level <= 4 && va < LINEAR && va' < LINEAR
    requires forall l :: level <= l <= 4 ==> Index(va, l) == Index(va', l)
    ensures SameSpan(level, va, va')
    decreases 4 - level
  {
    if level < 4 {
      SameIndices(level + 1, va, va');
      IndexStep(va, level);
      IndexStep(va', level);
    } else {
      assert Index(va, 4) == va / Span(4) && Index(va', 4) == va' / Span(4);
    }
  }

  lemma {:induction false} SpanIndices(level: nat, va: nat, va': nat, l: nat)
    requires 1 <= level <= l <= 4 && SameSpan(level, va, va')
    ensures SameSpan(l, va, va') && Index(va, l) == Index(va', l)
    decreases l
  {
    if l > level {
      SpanIndices(level, va, va', l - 1);
      IndexStep(va, l - 1);
      IndexStep(va', l - 1);
    }
  }

  /** An entry is read by exactly the addresses of one handle that fall under it. */
  lemma {:induction false} SpanHits(m: Mem, tabs: Tabs, page: nat, va: nat, va': nat, x: nat, i: nat)
    requires Inv(m, tabs) && page in tabs && x in tabs && i < 512
    requires Hits(m, page, tabs[page].level, va, x, i) && 1 <= tabs[x].level <= 4 && SameSpan(tabs[x].level, va, va')
    ensures Hits(m, page, tabs[page].level, va', x, i)
    decreases tabs[page].level
  {
    assert TabOk(tabs, page);
    WalkReaches(m, tabs, page, va, x, i, 0);
    SpanIndices(tabs[x].level, va, va', tabs[page].level);
    var j := Index(va, tabs[page].level);
    if page != x || j != i {
      NextTable(m, tabs, page, j);
      SpanHits(m, tabs, Frame(Entry(m, page, j)), va, va', x, i);
    }
  }

  lemma HitsUnique(m: Mem, tabs: Tabs, r: nat, va: nat, r': nat, va': nat, x: nat, i: nat)
    requires Inv(m, tabs) && r in tabs && r' in tabs && tabs[r].level == 4 && tabs[r'].level == 4
    requires x in tabs && i < 512 && 1 <= tabs[x].level <= 4 && va < LINEAR && va' < LINEAR
    requires Hits(m, r, 4, va, x, i)
    ensures Hits(m, r', 4, va', x, i) <==> r' == r && SameSpan(tabs[x].level, va, va')
  {
    if r' == r && SameSpan(tabs[x].level, va, va') {
      SpanHits(m, tabs, r, va, va', x, i);
    }
    if Hits(m, r', 4, va', x, i) {
      HitsOnPath(m, tabs, r, va, x, i);
      HitsOnPath(m, tabs, r', va', x, i);
      WalkReaches(m, tabs, r, va, x, i, 0);
      WalkReaches(m, tabs, r', va', x, i, 0);
      forall l | tabs[x].level <= l <= 4 ensures Index(va, l) == Index(va', l) {
        if l > tabs[x].level { PathIndices(tabs, x, va, va', l); }
      }
      SameIndices(tabs[x].level, va, va');
    }
  }

  /** What writing one entry does to every translation of every handle. */
  lemma FlatWrite(m: Mem, tabs: Tabs, r: nat, va: nat, x: nat, i: nat, w: nat, r': nat, va': nat)
    requires Inv(m, tabs) && r in tabs && r' in tabs && tabs[r].level == 4 && tabs[r'].level == 4
    requires x in tabs && i < 512 && 1 <= tabs[x].level <= 4 && va < LINEAR && va' < LINEAR
    requires Hits(m, r, 4, va, x, i)
    ensures var m' := m[x + 8 * i := w];
      FindLeaf(m', r', 4, va') == if r' == r && SameSpan(tabs[x].level, va, va')
                                  then FindLeaf(m', x, tabs[x].level, va') else FindLeaf(m, r', 4, va')
  {
    HitsUnique(m, tabs, r, va, r', va', x, i);
    if r' == r && SameSpan(tabs[x].level, va, va') {
      WalkReaches(m, tabs, r, va', x, i, w);
    } else {
      WalkWrite(m, tabs, r', va', x, i, w);
    }
  }

  // ---- writing a leaf ----

  lemma LeafKeepsInv(m: Mem, tabs: Tabs, x: nat, i: nat, w: nat)
    requires Inv(m, tabs) && x in tabs && i < 512 && tabs[x].level <= 2 && w < WORDS
    requires tabs[x].level == 2 ==> !Present(Entry(m, x, i)) || Large(Entry(m, x, i))
    requires tabs[x].level == 2 ==> !Present(w) || Large(w)
    ensures Inv(m[x + 8 * i := w], tabs)
  {
    var m' := m[x + 8 * i := w];
    assert TabOk(tabs, x);
    forall p, j | p in tabs && 0 <= j < 512 ensures SlotOk(m', tabs, p, j) {
      assert SlotOk(m, tabs, p, j) && TabOk(tabs, p);
      SlotApart(p, j, x, i);
    }
    forall p | p in tabs ensures Referred(m', tabs, p) {
      assert TabOk(tabs, p) && Referred(m, tabs, p);
      if tabs[p].level < 4 {
        assert TabOk(tabs, tabs[p].parent);
        SlotApart(tabs[p].parent, tabs[p].idx, x, i);
      }
      FrameOf(p);
    }
  }

  // ---- adding a table ----

  /** Entry `i` of `x` went from empty to a reference to the zeroed new table `q`; other entries are as before. */
  ghost predicate AddsTable(m: Mem, m': Mem, tabs: Tabs, x: nat, i: nat, q: nat) {
    && x in tabs && i < 512 && q !in tabs && tabs[x].level >= 2
    && Entry(m, x, i) == 0 && Entry(m', x, i) == q + 3
    && (forall p, j :: p in tabs && 0 <= j < 512 && !(p == x && j == i) ==> Entry(m', p, j) == Entry(m, p, j))
    && (forall j :: 0 <= j < 512 ==> Entry(m', q, j) == 0)
  }

  lemma AddKeepsInv(m: Mem, m': Mem, tabs: Tabs, x: nat, i: nat, q: nat)
    requires Inv(m, tabs) && AddsTable(m, m', tabs, x, i, q)
    requires q % PAGE == 0 && 0 < q && q + PAGE <= PHYS
    ensures Inv(m', tabs[q := Tab(tabs[x].level - 1, x, i)])
  {
    var tabs' := tabs[q := Tab(tabs[x].level - 1, x, i)];
    FrameOf(q);
    forall p | p in tabs' ensures TabOk(tabs', p) {
      assert p != q ==> TabOk(tabs, p);
      assert TabOk(tabs, x);
    }
    forall p, j | p in tabs' && 0 <= j < 512 ensures SlotOk(m', tabs', p, j) {
      if p == q {
        assert Entry(m', q, j) == 0;
      } else {
        assert SlotOk(m, tabs, p, j) && TabOk(tabs, p);
      }
    }
    forall p | p in tabs' ensures Referred(m', tabs', p) {
      if p != q {
        assert TabOk(tabs, p) && Referred(m, tabs, p);
      }
    }
  }

  /** Adding an empty table changes no translation. */
  lemma {:induction false} AddKeepsWalk(m: Mem, m': Mem, tabs: Tabs, x: nat, i: nat, q: nat, page: nat, va: nat)
    requires Inv(m, tabs) && AddsTable(m, m', tabs, x, i, q) && page in tabs
    requires q % PAGE == 0 && q < PHYS
    ensures FindLeaf(m', page, tabs[page].level, va) == FindLeaf(m, page, tabs[page].level, va)
    decreases tabs[page].level
  {
    assert TabOk(tabs, page);
    FrameOf(q);
    var level, j := tabs[page].level, Index(va, tabs[page].level);
    if page == x && j == i {
      assert Entry(m', q, Index(va, level - 1)) == 0;
    } else {
      var e := Entry(m, page, j);
      assert Entry(m', page, j) == e;
      if Present(e) && !Leaf(level, e) {
        NextTable(m, tabs, page, j);
        AddKeepsWalk(m, m', tabs, x, i, q, Frame(e), va);
      }
    }
  }

  // ---- where a page can be mapped ----

  /** The entry that a mapping of `va` by a leaf of level `target` will use holds `prior`, which is not present or
      already such a leaf, and no leaf or stale entry lies in the way. The entry of a table that is still missing counts
      as 0. */
  predicate Ready(m: Mem, page: nat, level: nat, va: nat, target: nat, prior: nat)
    requires 1 <= target <= level <= 4
    decreases level
  {
    var e := Entry(m, page, Index(va, level));
    if level == target then e == prior && (!Present(e) || Leaf(level, e))
    else if e == 0 then prior == 0
    else Present(e) && !Leaf(level, e) && Ready(m, Frame(e), level - 1, va, target, prior)
  }

  /** What that entry holds. */
  function OldWord(m: Mem, page: nat, level: nat, va: nat, target: nat): nat
    requires 1 <= target <= level <= 4
    decreases level
  {
    var e := Entry(m, page, Index(va, level));
    if level == target then e else if !Present(e) then 0 else OldWord(m, Frame(e), level - 1, va, target)
  }

  lemma {:induction false} ReadyOld(m: Mem, page: nat, level: nat, va: nat, target: nat, prior: nat)
    requires 1 <= target <= level <= 4 && Ready(m, page, level, va, target, prior)
    ensures OldWord(m, page, level, va, target) == prior
    decreases level
  {
    var e := Entry(m, page, Index(va, level));
    if level > target && e != 0 {
      ReadyOld(m, Frame(e), level - 1, va, target, prior);
    }
  }

  lemma {:induction false} ReadyWrite(m: Mem, tabs: Tabs, page: nat, va: nat, target: nat, x: nat, i: nat, w: nat,
      prior: nat)
    requires Inv(m, tabs) && page in tabs && x in tabs && i < 512
    requires 1 <= target <= tabs[page].level && Ready(m, page, tabs[page].level, va, target, prior)
    requires !Hits(m, page, tabs[page].level, va, x, i)
    ensures Ready(m[x + 8 * i := w], page, tabs[page].level, va, target, prior)
    decreases tabs[page].level
  {
    var level := tabs[page].level;
    var j := Index(va, level);
    assert TabOk(tabs, page) && TabOk(tabs, x);
    SlotApart(page, j, x, i);
    var e := Entry(m, page, j);
    assert Entry(m[x + 8 * i := w], page, j) == e;
    if level > target && Present(e) && !Leaf(level, e) {
      NextTable(m, tabs, page, j);
      ReadyWrite(m, tabs, Frame(e), va, target, x, i, w, prior);
    }
  }

  /** A new table stays out of the way of every mapping except one by a leaf in its own place. */
  lemma {:induction false} AddKeepsReady(m: Mem, m': Mem, tabs: Tabs, x: nat, i: nat, q: nat, page: nat, va: nat,
      target: nat, prior: nat)
    requires Inv(m, tabs) && AddsTable(m, m', tabs, x, i, q) && page in tabs && q % PAGE == 0 && q < PHYS
    requires 1 <= target <= tabs[page].level && Ready(m, page, tabs[page].level, va, target, prior)
    requires target < tabs[x].level || !Hits(m, page, tabs[page].level, va, x, i)
    ensures Ready(m', page, tabs[page].level, va, target, prior)
    decreases tabs[page].level
  {
    assert TabOk(tabs, page);
    FrameOf(q);
    var level, j := tabs[page].level, Index(va, tabs[page].level);
    if page == x && j == i {
      assert Entry(m', q, Index(va, level - 1)) == 0;
    } else {
      var e := Entry(m, page, j);
      assert Entry(m', page, j) == e;
      if level > target && Present(e) && !Leaf(level, e) {
        NextTable(m, tabs, page, j);
        AddKeepsReady(m, m', tabs, x, i, q, Frame(e), va, target, prior);
      }
    }
  }

  // ---- walking down to an entry ----

  /** The walk of `va` under handle `r` reads table `x`. */
  ghost predicate At(m: Mem, tabs: Tabs, r: nat, va: nat, x: nat) {
    && TabsOk(tabs) && r in tabs && tabs[r].level == 4 && x in tabs && 1 <= tabs[x].level <= 4
    && Hits(m, r, 4, va, x, Index(va, tabs[x].level))
  }

  lemma {:induction false} HitsNext(m: Mem, tabs: Tabs, page: nat, va: nat, x: nat)
    requires Inv(m, tabs) && page in tabs && x in tabs && tabs[x].level >= 2 && 1 <= tabs[x].level <= 4
    requires var i := Index(va, tabs[x].level);
      Hits(m, page, tabs[page].level, va, x, i) && Present(Entry(m, x, i)) && !Leaf(tabs[x].level, Entry(m, x, i))
    ensures var q := Frame(Entry(m, x, Index(va, tabs[x].level)));
      Hits(m, page, tabs[page].level, va, q, Index(va, tabs[x].level - 1))
    decreases tabs[page].level
  {
    assert TabOk(tabs, page);
    var i, j := Index(va, tabs[x].level), Index(va, tabs[page].level);
    NextTable(m, tabs, x, i);
    if page != x || i != j {
      NextTable(m, tabs, page, j);
      HitsNext(m, tabs, Frame(Entry(m, page, j)), va, x);
    }
  }

  lemma {:induction false} AddKeepsHits(m: Mem, m': Mem, tabs: Tabs, x: nat, i: nat, q: nat, page: nat, va: nat, y: nat,
      k: nat)
    requires Inv(m, tabs) && AddsTable(m, m', tabs, x, i, q) && page in tabs
    requires Hits(m, page, tabs[page].level, va, y, k)
    ensures Hits(m', page, tabs[page].level, va, y, k)
    decreases tabs[page].level
  {
    assert TabOk(tabs, page);
    var level, j := tabs[page].level, Index(va, tabs[page].level);
    if page != y || j != k {
      NextTable(m, tabs, page, j);
      AddKeepsHits(m, m', tabs, x, i, q, Frame(Entry(m, page, j)), va, y, k);
    }
  }

  /** Readiness holds from every table on the way. */
  lemma {:induction false} ReadyAt(m: Mem, tabs: Tabs, page: nat, va: nat, x: nat, target: nat, prior: nat)
    requires Inv(m, tabs) && page in tabs && x in tabs && 1 <= target <= tabs[x].level <= 4
        && target <= tabs[page].level
    requires Hits(m, page, tabs[page].level, va, x, Index(va, tabs[x].level))
    requires Ready(m, page, tabs[page].level, va, target, prior)
    ensures Ready(m, x, tabs[x].level, va, target, prior)
    decreases tabs[page].level
  {
    assert TabOk(tabs, page);
    var i, j := Index(va, tabs[x].level), Index(va, tabs[page].level);
    if page != x || i != j {
      NextTable(m, tabs, page, j);
      WalkReaches(m, tabs, Frame(Entry(m, page, j)), va, x, i, 0);
      ReadyAt(m, tabs, Frame(Entry(m, page, j)), va, x, target, prior);
    }
  }

  /** An entry on the way is ready for whatever is written to it, if that is not present or a leaf. */
  lemma {:induction false} WriteReady(m: Mem, tabs: Tabs, page: nat, va: nat, x: nat, w: nat)
    requires Inv(m, tabs) && page in tabs && x in tabs && (!Present(w) || Leaf(tabs[x].level, w))
    requires Hits(m, page, tabs[page].level, va, x, Index(va, tabs[x].level)) && tabs[x].level <= tabs[page].level
    ensures Ready(m[x + 8 * Index(va, tabs[x].level) := w], page, tabs[page].level, va, tabs[x].level, w)
    decreases tabs[page].level
  {
    assert TabOk(tabs, page) && TabOk(tabs, x);
    var i, j := Index(va, tabs[x].level), Index(va, tabs[page].level);
    if page != x || i != j {
      SlotApart(page, j, x, i);
      NextTable(m, tabs, page, j);
      WalkReaches(m, tabs, Frame(Entry(m, page, j)), va, x, i, w);
      WriteReady(m, tabs, Frame(Entry(m, page, j)), va, x, w);
      assert Entry(m[x + 8 * i := w], page, j) == Entry(m, page, j);
    }
  }

  /** Every handle of `tabs` finds the same leaf for every address in both memories. */
  ghost predicate SameWalks(m: Mem, m': Mem, tabs: Tabs) {
    forall r: nat, va: nat :: r in tabs && tabs[r].level == 4 ==> FindLeaf(m', r, 4, va) == FindLeaf(m, r, 4, va)
  }

  /** What was ready for mapping under handle `r` still is, except by leaves of level `level` or above that cover
      `va`. */
  ghost predicate StillReady(m: Mem, m': Mem, r: nat, va: nat, level: nat)
    requires 1 <= level <= 4
  {
    forall va': nat, t: nat, prior: nat :: 1 <= t <= 2 && va' < LINEAR && Ready(m, r, 4, va', t, prior)
      && (t < level || !SameSpan(level, va, va'))
      ==> Ready(m', r, 4, va', t, prior)
  }

  lemma AddKeepsWalks(m: Mem, m': Mem, tabs: Tabs, x: nat, i: nat, q: nat)
    requires Inv(m, tabs) && AddsTable(m, m', tabs, x, i, q) && q % PAGE == 0 && q < PHYS
    ensures SameWalks(m, m', tabs)
  {
    forall r: nat, va: nat | r in tabs && tabs[r].level == 4 ensures FindLeaf(m', r, 4, va) == FindLeaf(m, r, 4, va) {
      AddKeepsWalk(m, m', tabs, x, i, q, r, va);
    }
  }

  lemma AddStillReady(m: Mem, m': Mem, tabs: Tabs, r: nat, va: nat, x: nat, q: nat)
    requires Inv(m, tabs) && At(m, tabs, r, va, x) && va < LINEAR
    requires AddsTable(m, m', tabs, x, Index(va, tabs[x].level), q) && q % PAGE == 0 && q < PHYS
    ensures StillReady(m, m', r, va, tabs[x].level)
  {
    var level := tabs[x].level;
    forall va': nat, t: nat, prior: nat | 1 <= t <= 2 && va' < LINEAR && Ready(m, r, 4, va', t, prior)
      && (t < level || !SameSpan(level, va, va'))
      ensures Ready(m', r, 4, va', t, prior)
    {
      AddStillReadyAt(m, m', tabs, r, va, x, q, va', t, prior);
    }
  }

  lemma AddStillReadyAt(m: Mem, m': Mem, tabs: Tabs, r: nat, va: nat, x: nat, q: nat, va': nat, t: nat, prior: nat)
    requires Inv(m, tabs) && At(m, tabs, r, va, x) && va < LINEAR && va' < LINEAR && 1 <= t <= 2
    requires AddsTable(m, m', tabs, x, Index(va, tabs[x].level), q) && q % PAGE == 0 && q < PHYS
    requires Ready(m, r, 4, va', t, prior) && (t < tabs[x].level || !SameSpan(tabs[x].level, va, va'))
    ensures Ready(m', r, 4, va', t, prior)
  {
    var i := Index(va, tabs[x].level);
    HitsUnique(m, tabs, r, va, r, va', x, i);
    AddKeepsReady(m, m', tabs, x, i, q, r, va', t, prior);
  }

  /** Address `va'` of handle `r'` has the leaf it had before, unless it is one of the `Span(level)` bytes around
      `va` under handle `r`, whose leaf is now `w` (or none, if `w` is not present). */
  ghost predicate RemappedAt(m: Mem, m': Mem, r: nat, va: nat, level: nat, w: nat, r': nat, va': nat)
    requires 1 <= level <= 3
  {
    FindLeaf(m', r', 4, va') == if r' == r && SameSpan(level, va, va')
                                then (if Present(w) then Some(Found(level, w)) else None)
                                else FindLeaf(m, r', 4, va')
  }

  ghost predicate Remapped(m: Mem, m': Mem, tabs: Tabs, r: nat, va: nat, level: nat, w: nat)
    requires 1 <= level <= 3
  {
    forall r': nat, va': nat :: r' in tabs && tabs[r'].level == 4 && va' < LINEAR
      ==> RemappedAt(m, m', r, va, level, w, r', va')
  }

  lemma LeafWriteAt(m: Mem, tabs: Tabs, r: nat, va: nat, x: nat, w: nat, r': nat, va': nat)
    requires Inv(m, tabs) && At(m, tabs, r, va, x) && va < LINEAR && tabs[x].level <= 2
    requires Present(w) ==> Leaf(tabs[x].level, w)
    requires r' in tabs && tabs[r'].level == 4 && va' < LINEAR
    ensures RemappedAt(m, m[x + 8 * Index(va, tabs[x].level) := w], r, va, tabs[x].level, w, r', va')
  {
    var i := Index(va, tabs[x].level);
    FlatWrite(m, tabs, r, va, x, i, w, r', va');
    if SameSpan(tabs[x].level, va, va') {
      SpanIndices(tabs[x].level, va, va', tabs[x].level);
    }
  }

  lemma LeafWrite(m: Mem, tabs: Tabs, r: nat, va: nat, x: nat, w: nat)
    requires Inv(m, tabs) && At(m, tabs, r, va, x) && va < LINEAR && tabs[x].level <= 2
    requires Present(w) ==> Leaf(tabs[x].level, w)
    ensures Remapped(m, m[x + 8 * Index(va, tabs[x].level) := w], tabs, r, va, tabs[x].level, w)
  {
    var level := tabs[x].level;
    var m' := m[x + 8 * Index(va, level) := w];
    forall r': nat, va': nat | r' in tabs && tabs[r'].level == 4 && va' < LINEAR
      ensures RemappedAt(m, m', r, va, level, w, r', va')
    {
      LeafWriteAt(m, tabs, r, va, x, w, r', va');
    }
  }

  /** What was ready and does not overlap the `Span(level)` bytes around `va` is still ready. */
  ghost predicate ReadyElsewhere(m: Mem, m': Mem, r: nat, va: nat, level: nat)
    requires 1 <= level <= 2
  {
    forall va': nat, t: nat, prior: nat ::
      1 <= t <= 2 && va' < LINEAR && Ready(m, r, 4, va', t, prior) && !SameSpan(if t > level then t else level, va, va')
      ==> Ready(m', r, 4, va', t, prior)
  }

  lemma SpanGrows(va: nat, va': nat)
    ensures SameSpan(1, va, va') ==> SameSpan(2, va, va')
  {
    IndexStep(va, 1);
    IndexStep(va', 1);
  }

  lemma LeafReadyElsewhere(m: Mem, tabs: Tabs, r: nat, va: nat, x: nat, w: nat)
    requires Inv(m, tabs) && At(m, tabs, r, va, x) && va < LINEAR && tabs[x].level <= 2
    ensures ReadyElsewhere(m, m[x + 8 * Index(va, tabs[x].level) := w], r, va, tabs[x].level)
  {
    var level, i := tabs[x].level, Index(va, tabs[x].level);
    var m' := m[x + 8 * i := w];
    forall va': nat, t: nat, prior: nat | 1 <= t <= 2 && va' < LINEAR && Ready(m, r, 4, va', t, prior)
      && !SameSpan(if t > level then t else level, va, va')
      ensures Ready(m', r, 4, va', t, prior)
    {
      SpanGrows(va, va');
      HitsUnique(m, tabs, r, va, r, va', x, i);
      ReadyWrite(m, tabs, r, va', t, x, i, w, prior);
    }
  }

  /** The leaf of `va` is found from any table on its way. */
  lemma LeafFrom(m: Mem, tabs: Tabs, r: nat, va: nat, x: nat)
    requires Inv(m, tabs) && At(m, tabs, r, va, x)
    ensures FindLeaf(m, r, 4, va) == FindLeaf(m, x, tabs[x].level, va)
  {
    var i := Index(va, tabs[x].level);
    var m' := m[x + 8 * i := Entry(m, x, i)];
    WalkReaches(m, tabs, r, va, x, i, Entry(m, x, i));
    SameEntries(m, m', r, 4, va);
    SameEntries(m, m', x, tabs[x].level, va);
  }

  /** An entry that is ready at its own level is present exactly when the address is translated. */
  lemma ReadyWalk(m: Mem, tabs: Tabs, r: nat, va: nat, x: nat, prior: nat)
    requires Inv(m, tabs) && At(m, tabs, r, va, x) && tabs[x].level <= 2
    requires Ready(m, x, tabs[x].level, va, tabs[x].level, prior)
    ensures Walk(m, r, va).None? <==> !Present(Entry(m, x, Index(va, tabs[x].level)))
  {
    LeafFrom(m, tabs, r, va, x);
  }

  // ---- the entry that unmap works on ----

  /** The entry that get_entry ends in, with its level: a large page directory entry, or the lowest entry whether
      present or not. */
  function EntryOf(m: Mem, page: nat, level: nat, va: nat): (f: Option<Found>)
    requires 1 <= level <= 4
    ensures f.Some? ==> 1 <= f.value.level <= 2
    decreases level
  {
    var e := Entry(m, page, Index(va, level));
    if level == 1 then Some(Found(1, e))
    else if !Present(e) then None
    else if level == 2 && Large(e) then Some(Found(2, e))
    else EntryOf(m, Frame(e), level - 1, va)
  }

  /** That entry is found from any table on the way. */
  lemma {:induction false} EntryFrom(m: Mem, tabs: Tabs, page: nat, va: nat, x: nat)
    requires Inv(m, tabs) && page in tabs && x in tabs
        && Hits(m, page, tabs[page].level, va, x, Index(va, tabs[x].level))
    ensures EntryOf(m, page, tabs[page].level, va) == EntryOf(m, x, tabs[x].level, va)
    decreases tabs[page].level
  {
    assert TabOk(tabs, page);
    var i, j := Index(va, tabs[x].level), Index(va, tabs[page].level);
    if page != x || i != j {
      NextTable(m, tabs, page, j);
      WalkReaches(m, tabs, Frame(Entry(m, page, j)), va, x, i, 0);
      EntryFrom(m, tabs, Frame(Entry(m, page, j)), va, x);
    }
  }

  /** Table `x` has the entry of `va` that get_entry looks for: the walk reads a lowest table, or a page directory whose
      entry for `va` is a present large page. */
  ghost predicate Ends(m: Mem, tabs: Tabs, r: nat, va: nat, x: nat) {
    && At(m, tabs, r, va, x) && tabs[x].level <= 2
    && (tabs[x].level == 2 ==> Present(Entry(m, x, Index(va, 2))) && Large(Entry(m, x, Index(va, 2))))
  }

  /** There is an entry for an address exactly if its walk gets that far; whether a lowest entry is present does not
      matter. */
  lemma EntryExactly(m: Mem, tabs: Tabs, r: nat, va: nat)
    requires Inv(m, tabs) && r in tabs && tabs[r].level == 4
    ensures EntryOf(m, r, 4, va).Some? <==> exists x :: Ends(m, tabs, r, va, x)
    ensures forall x :: Ends(m, tabs, r, va, x) ==>
      EntryOf(m, r, 4, va) == Some(Found(tabs[x].level, Entry(m, x, Index(va, tabs[x].level))))
  {
    forall x | Ends(m, tabs, r, va, x)
      ensures EntryOf(m, r, 4, va) == Some(Found(tabs[x].level, Entry(m, x, Index(va, tabs[x].level))))
    {
      EntryFrom(m, tabs, r, va, x);
    }
    if EntryOf(m, r, 4, va).Some? {
      var x := EntryTable(m, tabs, r, va);
      assert Ends(m, tabs, r, va, x);
    }
  }

  /** The table that holds the entry. */
  lemma {:induction false} EntryTable(m: Mem, tabs: Tabs, page: nat, va: nat) returns (x: nat)
    requires Inv(m, tabs) && page in tabs && 1 <= tabs[page].level <= 4 && EntryOf(m, page, tabs[page].level, va).Some?
    ensures x in tabs && 1 <= tabs[x].level <= 2 && Hits(m, page, tabs[page].level, va, x, Index(va, tabs[x].level))
    ensures tabs[x].level == 2 ==> Present(Entry(m, x, Index(va, 2))) && Large(Entry(m, x, Index(va, 2)))
    decreases tabs[page].level
  {
    var level, j := tabs[page].level, Index(va, tabs[page].level);
    var e := Entry(m, page, j);
    assert SlotOk(m, tabs, page, j);
    if level == 1 || (level == 2 && Large(e)) {
      x := page;
    } else {
      NextTable(m, tabs, page, j);
      x := EntryTable(m, tabs, Frame(e), va);
    }
  }

  /** An address is translated exactly if its entry exists and is present, and then that is its leaf. */
  lemma {:induction false} EntryIsLeaf(m: Mem, tabs: Tabs, page: nat, va: nat)
    requires Inv(m, tabs) && page in tabs
    ensures var e := EntryOf(m, page, tabs[page].level, va);
      FindLeaf(m, page, tabs[page].level, va) == if e.Some? && Present(e.value.word) then e else None
    decreases tabs[page].level
  {
    var level, j := tabs[page].level, Index(va, tabs[page].level);
    assert SlotOk(m, tabs, page, j);
    var e := Entry(m, page, j);
    if Present(e) && !Leaf(level, e) {
      NextTable(m, tabs, page, j);
      EntryIsLeaf(m, tabs, Frame(e), va);
    }
  }

  lemma {:induction false} SameEntries(m: Mem, m': Mem, page: nat, level: nat, va: nat)
    requires 1 <= level <= 4 && forall a :: Word(m, a) == Word(m', a)
    ensures FindLeaf(m, page, level, va) == FindLeaf(m', page, level, va)
    decreases level
  {
    var e := Entry(m, page, Index(va, level));
    assert Entry(m', page, Index(va, level)) == e;
    if Present(e) && !Leaf(level, e) {
      SameEntries(m, m', Frame(e), level - 1, va);
    }
  }

  /** Setting the size bit of an entry that has it changes nothing. */
  lemma {:induction false} OrSetBit(e: nat, k: nat)
    requires e / Pow2(k) % 2 == 1
    ensures Or(e, Pow2(k)) == e
    decreases k
  {
    if k > 0 {
      HalveMod(e, Pow2(k - 1));
      OrSetBit(e / 2, k - 1);
    } else {
      OrLow(e);
    }
  }

  lemma OrLow(e: nat)
    requires e % 2 == 1
    ensures Or(e, 1) == e
  {
    assert Or(e / 2, 0) == e / 2;
  }
}
