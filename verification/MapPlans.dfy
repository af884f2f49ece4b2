/** What map_phys and unmap do to the flat map: a sequence of leaf writes, and its effect on every translation. */
module MapPlans {
  import opened Prelude
  import opened Arithmetic
  import opened Bits
  import opened PageTables
  import opened Translation
  import opened MapRange

  /** One leaf entry written for the address `va`. */
  datatype Write = Write(va: nat, large: bool, word: nat) {
    function Level(): (l: nat)
      ensures 1 <= l <= 2
    {
      if large then 2 else 1
    }
  }

  function LeafOf(w: Write): Option<Found> {
    if Present(w.word) then Some(Found(w.Level(), w.word)) else None
  }

  /** Does the entry written cover address `v`? */
  predicate Under(w: Write, v: nat) { SameSpan(w.Level(), w.va, v) }

  /** The leaf of address `v` after the writes, if it was `base` before. */
  function After(ws: seq<Write>, base: Option<Found>, v: nat): Option<Found> {
    if ws == [] then base
    else
      var w := ws[|ws| - 1];
      if Under(w, v) then LeafOf(w) else After(ws[..|ws| - 1], base, v)
  }

  ghost predicate AppliedAt(m: Mem, m': Mem, r: nat, ws: seq<Write>, r': nat, v: nat) {
    FindLeaf(m', r', 4, v) == if r' == r then After(ws, FindLeaf(m, r', 4, v), v) else FindLeaf(m, r', 4, v)
  }

  /** The writes, and nothing else, have been done to the translations of handle `r`. */
  ghost predicate Applied(m: Mem, m': Mem, tabs: Tabs, r: nat, ws: seq<Write>) {
    forall r': nat, v: nat :: r' in tabs && tabs[r'].level == 4 && v < LINEAR ==> AppliedAt(m, m', r, ws, r', v)
  }

  lemma AppliedNone(m: Mem, tabs: Tabs, r: nat)
    ensures Applied(m, m, tabs, r, [])
  {}

  lemma AppliedStep(m0: Mem, ts0: Tabs, m1: Mem, ts1: Tabs, m2: Mem, r: nat, ws: seq<Write>, w: Write)
    requires Extends(ts0, ts1) && Applied(m0, m1, ts0, r, ws) && Remapped(m1, m2, ts1, r, w.va, w.Level(), w.word)
    ensures Applied(m0, m2, ts0, r, ws + [w])
  {
    forall r': nat, v: nat | r' in ts0 && ts0[r'].level == 4 && v < LINEAR
      ensures AppliedAt(m0, m2, r, ws + [w], r', v)
    {
      assert AppliedAt(m0, m1, r, ws, r', v);
      assert RemappedAt(m1, m2, r, w.va, w.Level(), w.word, r', v);
      assert (ws + [w])[..|ws|] == ws;
    }
  }

  lemma AppliedSame(m0: Mem, ts0: Tabs, m1: Mem, ts1: Tabs, m2: Mem, r: nat, ws: seq<Write>)
    requires Extends(ts0, ts1) && Applied(m0, m1, ts0, r, ws) && SameWalks(m1, m2, ts1)
    ensures Applied(m0, m2, ts0, r, ws)
  {
    forall r': nat, v: nat | r' in ts0 && ts0[r'].level == 4 && v < LINEAR ensures AppliedAt(m0, m2, r, ws, r', v) {
      assert AppliedAt(m0, m1, r, ws, r', v);
      assert FindLeaf(m2, r', 4, v) == FindLeaf(m1, r', 4, v);
    }
  }

  /** No two of the writes touch each other's addresses, even seen as the larger of their sizes. */
  ghost predicate Separate(ws: seq<Write>) {
    forall i, j :: 0 <= i < j < |ws| ==> ApartAt(ws, i, j)
  }

  predicate ApartAt(ws: seq<Write>, i: nat, j: nat)
    requires i < |ws| && j < |ws|
  {
    !SameSpan(if ws[i].large then 2 else ws[j].Level(), ws[i].va, ws[j].va)
  }

  lemma {:induction false} AfterElsewhere(ws: seq<Write>, base: Option<Found>, v: nat)
    requires forall i :: 0 <= i < |ws| ==> !Under(ws[i], v)
    ensures After(ws, base, v) == base
  {
    if ws != [] {
      var n := |ws| - 1;
      assert !Under(ws[n], v);
      forall i | 0 <= i < n ensures !Under(ws[..n][i], v) {
        assert ws[..n][i] == ws[i];
      }
      AfterElsewhere(ws[..n], base, v);
    }
  }

  /** The next write of a separate sequence finds its own address as it was at the start. */
  lemma NextUntouched(m0: Mem, m1: Mem, tabs: Tabs, r: nat, ws: seq<Write>, j: nat)
    requires Separate(ws) && j < |ws| && Applied(m0, m1, tabs, r, ws[..j]) && r in tabs && tabs[r].level == 4
        && ws[j].va < LINEAR
    ensures FindLeaf(m1, r, 4, ws[j].va) == FindLeaf(m0, r, 4, ws[j].va)
  {
    var v := ws[j].va;
    forall i | 0 <= i < j ensures !Under(ws[..j][i], v) {
      assert ws[..j][i] == ws[i] && ApartAt(ws, i, j);
      SpanGrows(ws[i].va, v);
    }
    AfterElsewhere(ws[..j], FindLeaf(m0, r, 4, v), v);
    assert AppliedAt(m0, m1, r, ws[..j], r, v);
  }

  /** What the entries to be written hold. */
  function OldWords(m: Mem, r: nat, ws: seq<Write>): (olds: seq<nat>)
    ensures |olds| == |ws|
  {
    seq(|ws|, i requires 0 <= i < |ws| => OldWord(m, r, 4, ws[i].va, ws[i].Level()))
  }

  /** Every entry to be written is fit for it, and holds what `olds` says. */
  predicate ReadyAll(m: Mem, r: nat, ws: seq<Write>, olds: seq<nat>) {
    |olds| == |ws| && ReadyFrom(m, r, ws, olds, 0)
  }

  predicate ReadyFrom(m: Mem, r: nat, ws: seq<Write>, olds: seq<nat>, j: nat)
    requires |olds| == |ws|
  {
    forall i :: j <= i < |ws| ==> FitAt(m, r, ws, olds, i)
  }

  predicate FitAt(m: Mem, r: nat, ws: seq<Write>, olds: seq<nat>, i: nat)
    requires i < |ws| == |olds|
  {
    Ready(m, r, 4, ws[i].va, ws[i].Level(), olds[i])
  }

  lemma ReadyStep(m: Mem, m': Mem, r: nat, ws: seq<Write>, olds: seq<nat>, j: nat)
    requires |olds| == |ws| && Separate(ws) && j < |ws| && ReadyFrom(m, r, ws, olds, j)
    requires ReadyElsewhere(m, m', r, ws[j].va, ws[j].Level()) && Linear(ws)
    ensures ReadyFrom(m', r, ws, olds, j + 1)
  {
    forall i | j + 1 <= i < |ws| ensures FitAt(m', r, ws, olds, i) {
      assert ApartAt(ws, j, i) && FitAt(m, r, ws, olds, i) && LinearAt(ws, i);
    }
  }

  /** The writes that come out when each word is OR-ed into what its entry holds. */
  function Mixed(ws: seq<Write>, olds: seq<nat>): (r: seq<Write>)
    requires |olds| == |ws|
    ensures |r| == |ws|
  {
    seq(|ws|, i requires 0 <= i < |ws| => ws[i].(word := Or(olds[i], ws[i].word)))
  }

  lemma MixedSeparate(ws: seq<Write>, olds: seq<nat>)
    requires |olds| == |ws| && Separate(ws)
    ensures Separate(Mixed(ws, olds))
  {
    var mx := Mixed(ws, olds);
    forall i, j | 0 <= i < j < |mx| ensures ApartAt(mx, i, j) {
      assert ApartAt(ws, i, j);
    }
  }

  /** The address bits that an entry holds are among those of the word written to it. */
  predicate MixOk(w: Write, prior: nat) {
    Or(PageNo(w.Level(), prior), PageNo(w.Level(), w.word)) == PageNo(w.Level(), w.word)
  }

  ghost predicate Unmixed(ws: seq<Write>, olds: seq<nat>, j: nat)
    requires |olds| == |ws|
  {
    forall i :: 0 <= i < j && i < |ws| ==> MixOk(ws[i], olds[i])
  }

  ghost predicate Linear(ws: seq<Write>) { forall i :: 0 <= i < |ws| ==> LinearAt(ws, i) }

  predicate LinearAt(ws: seq<Write>, i: nat)
    requires i < |ws|
  {
    ws[i].va < LINEAR
  }

  /** The addresses of the writes up to `j` were not translated. */
  ghost predicate Unoccupied(m: Mem, r: nat, ws: seq<Write>, j: nat) {
    forall i :: 0 <= i < j && i < |ws| ==> EmptyAt(m, r, ws, i)
  }

  predicate EmptyAt(m: Mem, r: nat, ws: seq<Write>, i: nat)
    requires i < |ws|
  {
    Walk(m, r, ws[i].va).None?
  }

  /** Addresses under one entry are translated together, if the entry is fit for mapping. */
  lemma {:induction false} ReadySpan(m: Mem, page: nat, level: nat, va: nat, t: nat, prior: nat, v: nat)
    requires 1 <= t <= level <= 4 && t <= 2 && Ready(m, page, level, va, t, prior) && SameSpan(t, va, v)
    ensures FindLeaf(m, page, level, va).None? <==> FindLeaf(m, page, level, v).None?
    decreases level
  {
    SpanIndices(t, va, v, level);
    var e := Entry(m, page, Index(va, level));
    if e != 0 && level != t {
      ReadySpan(m, Frame(e), level - 1, va, t, prior, v);
    }
  }

  // ---- the plan of map_phys ----

  /** The word written for a page at `pa`. */
  function LeafWord(pa: nat, large: bool): nat { pa + if large then 0x83 else 3 }

  function Smalls(va: nat, pa: nat, n: nat): seq<Write> {
    seq(n, i requires 0 <= i => Write(va + PAGE * i, false, LeafWord(pa + PAGE * i, false)))
  }

  function Larges(va: nat, pa: nat, n: nat): seq<Write> {
    seq(n, i requires 0 <= i => Write(va + PAGE2 * i, true, LeafWord(pa + PAGE2 * i, true)))
  }

  /** The writes of the three loops of map_phys (modules/vmemory/vmemory.c:286-291), in order. */
  function Writes(va: nat, pa: nat, n: nat): seq<Write> {
    var k := FirstPages(va, pa, n);
    var l := (n - k) / 512;
    Smalls(va, pa, k) + Larges(va + PAGE * k, pa + PAGE * k, l)
    + Smalls(va + PAGE * k + PAGE2 * l, pa + PAGE * k + PAGE2 * l, (n - k) % 512)
  }

  /** How many pages the writes before number `j` take. */
  function Taken(va: nat, pa: nat, n: nat, j: nat): nat {
    var k := FirstPages(va, pa, n);
    var l := (n - k) / 512;
    if j <= k then j else if j <= k + l then k + 512 * (j - k) else k + 512 * l + (j - k - l)
  }

  lemma WriteAt(va: nat, pa: nat, n: nat, j: nat)
    requires j < |Writes(va, pa, n)|
    ensures var k, l, t := FirstPages(va, pa, n), (n - FirstPages(va, pa, n)) / 512, Taken(va, pa, n, j);
      && Writes(va, pa, n)[j] == Write(va + PAGE * t, k <= j < k + l, LeafWord(pa + PAGE * t, k <= j < k + l))
      && Taken(va, pa, n, j + 1) == t + (if k <= j < k + l then 512 else 1) <= n
  {}

  lemma WriteCount(va: nat, pa: nat, n: nat)
    ensures var k := FirstPages(va, pa, n); |Writes(va, pa, n)| == k + (n - k) / 512 + (n - k) % 512
    ensures Taken(va, pa, n, |Writes(va, pa, n)|) == n && Taken(va, pa, n, 0) == 0
  {}

  /** The second loop begins inside a 2 MB region of which the first one has already mapped 4 KB pages. */
  predicate Clash(va: nat, pa: nat, n: nat) {
    var k := FirstPages(va, pa, n);
    k > 0 && n - k >= 512 && (va + PAGE * k) % PAGE2 != 0
  }

  lemma TakenMono(va: nat, pa: nat, n: nat, i: nat, j: nat)
    requires i <= j <= |Writes(va, pa, n)|
    ensures Taken(va, pa, n, i) <= Taken(va, pa, n, j) <= n
  {
    WriteCount(va, pa, n);
  }

  lemma Further(level: nat, a: nat, b: nat)
    requires 1 <= level <= 2 && a + Span(level) <= b
    ensures !SameSpan(level, a, b)
  {}

  lemma Boundary(a: nat, x: nat, b: nat)
    requires a < x <= b && x % PAGE2 == 0
    ensures !SameSpan(2, a, b)
  {}

  /** Without a clash, no write of the plan touches another. */
  lemma WritesSeparate(va: nat, pa: nat, n: nat)
    requires !Clash(va, pa, n)
    ensures Separate(Writes(va, pa, n))
  {
    var ws, k := Writes(va, pa, n), FirstPages(va, pa, n);
    forall i, j | 0 <= i < j < |ws| ensures ApartAt(ws, i, j) {
      WriteAt(va, pa, n, i);
      WriteAt(va, pa, n, j);
      TakenMono(va, pa, n, i + 1, j);
      if !ws[i].large && ws[j].large {
        Boundary(ws[i].va, va + PAGE * k, ws[j].va);
      } else {
        Further(ws[i].Level(), ws[i].va, ws[j].va);
      }
    }
  }

  lemma WritesLinear(va: nat, pa: nat, n: nat)
    requires va + PAGE * n <= LINEAR
    ensures Linear(Writes(va, pa, n))
  {
    forall i | 0 <= i < |Writes(va, pa, n)| ensures LinearAt(Writes(va, pa, n), i) {
      WriteAt(va, pa, n, i);
    }
  }

  // ---- what the plan means ----

  /** How map_phys splits a request. */
  function Plan(va: nat, pa: nat, n: nat): Range {
    var k := FirstPages(va, pa, n);
    Range(va, pa, va + PAGE * k, va + PAGE * k + PAGE2 * ((n - k) / 512))
  }

  /** The address reached by the first `j` writes. */
  function Reach(va: nat, pa: nat, n: nat, j: nat): nat { va + PAGE * Taken(va, pa, n, j) }

  /** In an aligned plan each write is aligned to its size in both address spaces, and lies where the split puts it. */
  lemma AlignedWrite(va: nat, pa: nat, n: nat, j: nat)
    requires LargeAligned(va, pa, n) && va % PAGE == 0 && pa % PAGE == 0 && j < |Writes(va, pa, n)|
    ensures var w, g, t := Writes(va, pa, n)[j], Plan(va, pa, n), Taken(va, pa, n, j);
      && w.va == va + PAGE * t && w.word == LeafWord(pa + PAGE * t, w.large)
      && w.va % Span(w.Level()) == 0 && (pa + PAGE * t) % Span(w.Level()) == 0 && (pa + PAGE * t) % PAGE == 0
      && Reach(va, pa, n, j + 1) == w.va + Span(w.Level())
      && if w.large then g.large <= w.va && w.va + PAGE2 <= g.small else w.va + PAGE <= g.large || g.small <= w.va
  {
    var k, t := FirstPages(va, pa, n), Taken(va, pa, n, j);
    WriteAt(va, pa, n, j);
    DivUnique(pa + PAGE * t, PAGE, pa / PAGE + t, 0);
    if Writes(va, pa, n)[j].large {
      MultipleMore(va + PAGE * k, j - k);
      MultipleMore(pa + PAGE * k, j - k);
    } else {
      DivUnique(va + PAGE * t, PAGE, va / PAGE + t, 0);
    }
  }

  lemma MultipleMore(x: nat, i: nat)
    requires x % PAGE2 == 0
    ensures (x + PAGE2 * i) % PAGE2 == 0
  {
    DivUnique(x + PAGE2 * i, PAGE2, x / PAGE2 + i, 0);
  }

  /** What the leaf of `v` must be, if the range is mapped up to `end`. */
  ghost predicate InRange(g: Range, end: nat, exact: bool, base: Option<Found>, f: Option<Found>, v: nat) {
    if g.va <= v < end then
      && f.Some? && f.value.level == (if g.large <= v < g.small then 2 else 1)
      && (exact ==> LeafFrame(f.value.level, f.value.word) + v % Span(f.value.level) == g.pa + (v - g.va))
    else f == base
  }

  lemma SmallLeaf(pa: nat)
    requires pa % PAGE == 0 && pa < PHYS
    ensures Present(pa + 3) && LeafFrame(1, pa + 3) == pa && pa + 3 < WORDS
  {
    FrameOf(pa);
  }

  lemma LargeLeaf(pa: nat)
    requires pa % PAGE == 0 && pa < PHYS
    ensures Present(pa + 0x83) && Large(pa + 0x83) && LeafFrame(2, pa + 0x83) == pa - pa % PAGE2 && pa + 0x83 < WORDS
  {
    LargeFlags(pa / PAGE);
    LargeFrame(pa / PAGE / 512, pa / PAGE % 512);
  }

  lemma LargeFlags(q: nat)
    ensures Present(PAGE * q + 0x83) && Large(PAGE * q + 0x83)
  {
    DivUnique(PAGE * q + 0x83, 0x80, 32 * q + 1, 3);
    DivUnique(PAGE * q + 0x83, 2, 2048 * q + 65, 1);
  }

  lemma LargeFrame(h: nat, l: nat)
    requires l < 512 && h < 0x8000_0000
    ensures var pa := PAGE2 * h + PAGE * l; LeafFrame(2, pa + 0x83) == PAGE2 * h && pa % PAGE2 == PAGE * l
  {
    DivUnique(PAGE2 * h + PAGE * l + 0x83, PAGE2, h, PAGE * l + 0x83);
    DivUnique(PAGE2 * h + PAGE * l, PAGE2, h, PAGE * l);
    DivUnique(h, 0x8000_0000, 0, h);
  }

  /** An aligned write where the split of the range puts it, of the right frame if `exact`. */
  ghost predicate Fitting(g: Range, w: Write, exact: bool) {
    && g.va <= w.va && w.va % Span(w.Level()) == 0 && Present(w.word)
    && (exact ==> LeafFrame(w.Level(), w.word) == g.pa + (w.va - g.va))
    && if w.large then g.large <= w.va && w.va + PAGE2 <= g.small else w.va + PAGE <= g.large || g.small <= w.va
  }

  /** The writes cover the range up to `end` one after the other. */
  ghost predicate Chained(ws: seq<Write>, g: Range, end: nat, exact: bool) {
    if ws == [] then end == g.va
    else
      var w := ws[|ws| - 1];
      Fitting(g, w, exact) && end == w.va + Span(w.Level()) && Chained(ws[..|ws| - 1], g, w.va, exact)
  }

  lemma {:induction false} AfterChained(ws: seq<Write>, g: Range, end: nat, exact: bool, base: Option<Found>, v: nat)
    requires Chained(ws, g, end, exact)
    ensures InRange(g, end, exact, base, After(ws, base, v), v)
  {
    if ws != [] {
      var n := |ws| - 1;
      AfterChained(ws[..n], g, ws[n].va, exact, base, v);
      RangeMore(g, ws[n], exact, base, After(ws[..n], base, v), v);
    }
  }

  /** A write of an aligned plan, mixed with what its entry held, fits exactly if the old bits are among the new
      ones. */
  lemma PlanFitting(va: nat, pa: nat, n: nat, j: nat, prior: nat)
    requires LargeAligned(va, pa, n) && va % PAGE == 0 && pa % PAGE == 0 && pa + PAGE * n <= PHYS
        && j < |Writes(va, pa, n)|
    ensures var w := Writes(va, pa, n)[j]; var x := w.(word := Or(prior, w.word));
      && Present(x.word) && w.va == Reach(va, pa, n, j) && Reach(va, pa, n, j + 1) == w.va + Span(w.Level())
      && w.va % Span(w.Level()) == 0 && Fitting(Plan(va, pa, n), x, false)
      && (Fitting(Plan(va, pa, n), x, true) <==> MixOk(w, prior))
      && (LeafFrame(w.Level(), x.word) == pa + (w.va - va) <==> MixOk(w, prior))
  {
    var w := Writes(va, pa, n)[j];
    AlignedWrite(va, pa, n, j);
    TakenMono(va, pa, n, j, j + 1);
    WrittenLeaf(pa + PAGE * Taken(va, pa, n, j), w.large);
    MixFlags(prior, w.word);
    StaleExactly(w.Level(), prior, w.word);
  }

  lemma {:induction false} PlanChained(va: nat, pa: nat, n: nat, j: nat, olds: seq<nat>, exact: bool)
    requires LargeAligned(va, pa, n) && va % PAGE == 0 && pa % PAGE == 0 && pa + PAGE * n <= PHYS
        && j <= |Writes(va, pa, n)|
    requires |olds| == |Writes(va, pa, n)| && (exact ==> Unmixed(Writes(va, pa, n), olds, j))
    ensures Chained(Mixed(Writes(va, pa, n), olds)[..j], Plan(va, pa, n), Reach(va, pa, n, j), exact)
    decreases j
  {
    if j > 0 {
      PlanChained(va, pa, n, j - 1, olds, exact);
      MixedFits(va, pa, n, j - 1, olds, exact);
      ChainMore(Mixed(Writes(va, pa, n), olds), j - 1, Plan(va, pa, n), exact);
    } else {
      assert Taken(va, pa, n, 0) == 0;
    }
  }

  lemma MixedFits(va: nat, pa: nat, n: nat, j: nat, olds: seq<nat>, exact: bool)
    requires LargeAligned(va, pa, n) && va % PAGE == 0 && pa % PAGE == 0 && pa + PAGE * n <= PHYS
        && j < |Writes(va, pa, n)|
    requires |olds| == |Writes(va, pa, n)| && (exact ==> Unmixed(Writes(va, pa, n), olds, j + 1))
    ensures var x := Mixed(Writes(va, pa, n), olds)[j];
      && Fitting(Plan(va, pa, n), x, exact) && x.va == Reach(va, pa, n, j)
      && Reach(va, pa, n, j + 1) == x.va + Span(x.Level())
  {
    assert exact ==> MixOk(Writes(va, pa, n)[j], olds[j]);
    PlanFitting(va, pa, n, j, olds[j]);
  }

  lemma ChainMore(mx: seq<Write>, j: nat, g: Range, exact: bool)
    requires j < |mx| && Chained(mx[..j], g, mx[j].va, exact) && Fitting(g, mx[j], exact)
    ensures Chained(mx[..j + 1], g, mx[j].va + Span(mx[j].Level()), exact)
  {
    assert mx[..j + 1][..j] == mx[..j];
  }

  /** One more aligned write extends the range by its span. */
  lemma RangeMore(g: Range, w: Write, exact: bool, base: Option<Found>, f: Option<Found>, v: nat)
    requires InRange(g, w.va, exact, base, f, v) && Fitting(g, w, exact)
    ensures InRange(g, w.va + Span(w.Level()), exact, base, if Under(w, v) then LeafOf(w) else f, v)
  {
    SpanIs(w.Level(), w.va, v);
  }

  lemma WrittenLeaf(p: nat, large: bool)
    requires p < PHYS && p % PAGE == 0 && (large ==> p % PAGE2 == 0)
    ensures Present(LeafWord(p, large)) && LeafFrame(if large then 2 else 1, LeafWord(p, large)) == p
  {
    if large {
      LargeLeaf(p);
    } else {
      SmallLeaf(p);
    }
  }

  /** Whatever gets mixed in, an aligned plan gives every byte of its range, as far as it got, a leaf of the expected
      size. */
  lemma PlanShaped(m0: Mem, m: Mem, tabs: Tabs, r: nat, va: nat, pa: nat, n: nat, j: nat, olds: seq<nat>, exact: bool)
    requires LargeAligned(va, pa, n) && va % PAGE == 0 && pa % PAGE == 0 && pa + PAGE * n <= PHYS
    requires j <= |Writes(va, pa, n)| == |olds| && Applied(m0, m, tabs, r, Mixed(Writes(va, pa, n), olds)[..j])
    requires exact ==> Unmixed(Writes(va, pa, n), olds, j)
    ensures Shaped(m0, m, tabs, r, Plan(va, pa, n), Reach(va, pa, n, j), exact)
  {
    PlanChained(va, pa, n, j, olds, exact);
    ChainedRanged(m0, m, tabs, r, Mixed(Writes(va, pa, n), olds)[..j], Plan(va, pa, n), Reach(va, pa, n, j), exact);
  }

  /** An aligned plan maps its range, as far as it got, if and only if no bits left in its entries get mixed in. */
  lemma PlanRanged(m0: Mem, m: Mem, tabs: Tabs, r: nat, va: nat, pa: nat, n: nat, j: nat, olds: seq<nat>)
    requires LargeAligned(va, pa, n) && va % PAGE == 0 && pa % PAGE == 0 && pa + PAGE * n <= PHYS
        && va + PAGE * n <= LINEAR
    requires j <= |Writes(va, pa, n)| == |olds| && r in tabs && tabs[r].level == 4
    requires Applied(m0, m, tabs, r, Mixed(Writes(va, pa, n), olds)[..j])
    ensures Ranged(m0, m, tabs, r, Plan(va, pa, n), Reach(va, pa, n, j)) <==> Unmixed(Writes(va, pa, n), olds, j)
  {
    if Unmixed(Writes(va, pa, n), olds, j) {
      PlanShaped(m0, m, tabs, r, va, pa, n, j, olds, true);
    }
    if Ranged(m0, m, tabs, r, Plan(va, pa, n), Reach(va, pa, n, j)) {
      forall i | 0 <= i < j ensures MixOk(Writes(va, pa, n)[i], olds[i]) {
        RangedUnmixed(m0, m, tabs, r, va, pa, n, j, olds, i);
      }
    }
  }

  lemma RangedUnmixed(m0: Mem, m: Mem, tabs: Tabs, r: nat, va: nat, pa: nat, n: nat, j: nat, olds: seq<nat>, i: nat)
    requires LargeAligned(va, pa, n) && va % PAGE == 0 && pa % PAGE == 0 && pa + PAGE * n <= PHYS
        && va + PAGE * n <= LINEAR
    requires i < j <= |Writes(va, pa, n)| == |olds| && r in tabs && tabs[r].level == 4
    requires Applied(m0, m, tabs, r, Mixed(Writes(va, pa, n), olds)[..j])
    requires Ranged(m0, m, tabs, r, Plan(va, pa, n), Reach(va, pa, n, j))
    ensures MixOk(Writes(va, pa, n)[i], olds[i])
  {
    var w := Writes(va, pa, n)[i];
    PlanFitting(va, pa, n, i, olds[i]);
    TakenMono(va, pa, n, i + 1, j);
    PlanLeaf(m0, m, tabs, r, va, pa, n, j, olds, i);
    FrameAt(m, r, w.va, w.Level(), Or(olds[i], w.word));
    assert RangedAt(m0, m, r, Plan(va, pa, n), Reach(va, pa, n, j), true, r, w.va);
  }

  lemma PlanLeaf(m0: Mem, m: Mem, tabs: Tabs, r: nat, va: nat, pa: nat, n: nat, j: nat, olds: seq<nat>, i: nat)
    requires LargeAligned(va, pa, n) && i < j <= |Writes(va, pa, n)| == |olds| && r in tabs && tabs[r].level == 4
    requires Writes(va, pa, n)[i].va < va + PAGE * n <= LINEAR && Present(Or(olds[i], Writes(va, pa, n)[i].word))
    requires va % PAGE == 0 && pa % PAGE == 0 && Applied(m0, m, tabs, r, Mixed(Writes(va, pa, n), olds)[..j])
    ensures var w := Writes(va, pa, n)[i];
      FindLeaf(m, r, 4, w.va) == Some(Found(w.Level(), Or(olds[i], w.word)))
  {
    AlignedNoClash(va, pa, n);
    WritesSeparate(va, pa, n);
    OwnLeaf(m0, m, tabs, r, Writes(va, pa, n), olds, j, i, va + PAGE * n);
  }

  lemma FrameAt(m: Mem, r: nat, v: nat, level: nat, w: nat)
    requires 1 <= level <= 2 && FindLeaf(m, r, 4, v) == Some(Found(level, w)) && v % Span(level) == 0
    ensures Walk(m, r, v) == Some(LeafFrame(level, w))
  {}

  lemma AlignedNoClash(va: nat, pa: nat, n: nat)
    requires LargeAligned(va, pa, n)
    ensures !Clash(va, pa, n)
  {}

  /** The address of a write that has been done has its mixed leaf. */
  lemma OwnLeaf(m0: Mem, m: Mem, tabs: Tabs, r: nat, ws: seq<Write>, olds: seq<nat>, j: nat, i: nat, hi: nat)
    requires Separate(ws) && i < j <= |ws| == |olds| && r in tabs && tabs[r].level == 4 && ws[i].va < hi <= LINEAR
    requires Applied(m0, m, tabs, r, Mixed(ws, olds)[..j])
    ensures FindLeaf(m, r, 4, ws[i].va) == LeafOf(ws[i].(word := Or(olds[i], ws[i].word)))
  {
    var mx, v := Mixed(ws, olds), ws[i].va;
    MixedSeparate(ws, olds);
    SeparatePrefix(mx, j);
    AfterOwn(mx[..j], FindLeaf(m0, r, 4, v), i);
    assert AppliedAt(m0, m, r, mx[..j], r, v);
  }

  lemma ChainedRanged(m0: Mem, m: Mem, tabs: Tabs, r: nat, ws: seq<Write>, g: Range, end: nat, exact: bool)
    requires Applied(m0, m, tabs, r, ws) && Chained(ws, g, end, exact)
    ensures Shaped(m0, m, tabs, r, g, end, exact)
  {
    forall r': nat, v: nat | r' in tabs && tabs[r'].level == 4 && v < LINEAR
      ensures RangedAt(m0, m, r, g, end, exact, r', v)
    {
      assert AppliedAt(m0, m, r, ws, r', v);
      AfterChained(ws, g, end, exact, FindLeaf(m0, r', 4, v), v);
    }
  }

  /** If the entries of an aligned plan are fit and their addresses were not translated, no byte up to there was. */
  lemma {:induction false} UnoccupiedRange(m: Mem, r: nat, va: nat, pa: nat, n: nat, olds: seq<nat>, j: nat, v: nat)
    requires LargeAligned(va, pa, n) && va % PAGE == 0 && pa % PAGE == 0 && j <= |Writes(va, pa, n)|
    requires ReadyAll(m, r, Writes(va, pa, n), olds) && Unoccupied(m, r, Writes(va, pa, n), j)
    requires va <= v < Reach(va, pa, n, j)
    ensures FindLeaf(m, r, 4, v).None?
    decreases j
  {
    var ws := Writes(va, pa, n);
    assert Taken(va, pa, n, 0) == 0;
    AlignedWrite(va, pa, n, j - 1);
    var w := ws[j - 1];
    if v < w.va {
      UnoccupiedRange(m, r, va, pa, n, olds, j - 1, v);
    } else {
      SpanIs(w.Level(), w.va, v);
      assert FitAt(m, r, ws, olds, j - 1) && EmptyAt(m, r, ws, j - 1);
      ReadySpan(m, r, 4, w.va, w.Level(), olds[j - 1], v);
    }
  }

  /** Each address of a separate sequence of writes ends up with its own leaf. */
  lemma {:induction false} AfterOwn(ws: seq<Write>, base: Option<Found>, i: nat)
    requires Separate(ws) && i < |ws|
    ensures After(ws, base, ws[i].va) == LeafOf(ws[i])
    decreases |ws|
  {
    var n := |ws| - 1;
    if i < n {
      assert ApartAt(ws, i, n);
      SpanGrows(ws[n].va, ws[i].va);
      assert !Under(ws[n], ws[i].va);
      SeparatePrefix(ws, n);
      AfterOwn(ws[..n], base, i);
    }
  }

  lemma SeparatePrefix(ws: seq<Write>, n: nat)
    requires Separate(ws) && n <= |ws|
    ensures Separate(ws[..n])
  {
    forall i, j | 0 <= i < j < n ensures ApartAt(ws[..n], i, j) {
      assert ApartAt(ws, i, j);
    }
  }

  /** A large page at another offset does not lead to `p`. */
  lemma LargeElsewhere(m: Mem, r: nat, v: nat, w: nat, p: nat)
    requires FindLeaf(m, r, 4, v) == Some(Found(2, w)) && v % PAGE2 != p % PAGE2
    ensures Walk(m, r, v) != Some(p)
  {
    var h := PageNo(2, w);
    DivUnique(PAGE2 * h + v % PAGE2, PAGE2, h, v % PAGE2);
  }

  lemma NotCongruent(va: nat, pa: nat, n: nat)
    requires !LargeAligned(va, pa, n)
    ensures var k := FirstPages(va, pa, n); n - k >= 512 && (va + PAGE * k) % PAGE2 != (pa + PAGE * k) % PAGE2
  {
    FirstPagesStop(va, pa, n);
  }

  /** A plan that is not aligned, carried out, mistranslates the first byte of its first large page. */
  lemma Mistranslated(m0: Mem, m: Mem, tabs: Tabs, r: nat, va: nat, pa: nat, n: nat, olds: seq<nat>)
    requires !LargeAligned(va, pa, n) && !Clash(va, pa, n) && va + PAGE * n <= LINEAR && pa % PAGE == 0
    requires r in tabs && tabs[r].level == 4 && |olds| == |Writes(va, pa, n)|
    requires Applied(m0, m, tabs, r, Mixed(Writes(va, pa, n), olds))
    ensures var k := FirstPages(va, pa, n); Walk(m, r, va + PAGE * k) != Some(pa + PAGE * k)
  {
    var ws, k := Writes(va, pa, n), FirstPages(va, pa, n);
    var v, p := va + PAGE * k, pa + PAGE * k;
    NotCongruent(va, pa, n);
    WritesSeparate(va, pa, n);
    FirstLarge(va, pa, n);
    assert Mixed(ws, olds)[..|ws|] == Mixed(ws, olds);
    OwnLeaf(m0, m, tabs, r, ws, olds, |ws|, k, va + PAGE * n);
    MixFlags(olds[k], ws[k].word);
    LargeElsewhere(m, r, v, Or(olds[k], ws[k].word), p);
  }

  lemma FirstLarge(va: nat, pa: nat, n: nat)
    requires n - FirstPages(va, pa, n) >= 512 && pa % PAGE == 0
    ensures var k, ws := FirstPages(va, pa, n), Writes(va, pa, n);
      k < |ws| && ws[k].va == va + PAGE * k && ws[k].large && Present(ws[k].word)
  {
    var k := FirstPages(va, pa, n);
    WriteAt(va, pa, n, k);
    LargeFlags(pa / PAGE + k);
  }

  /** No byte of the range is translated. */
  ghost predicate RangeFree(m: Mem, r: nat, lo: nat, hi: nat) {
    forall v: nat :: lo <= v < hi ==> FindLeaf(m, r, 4, v).None?
  }

  lemma FreeWrites(m: Mem, r: nat, va: nat, pa: nat, n: nat, hi: nat)
    requires RangeFree(m, r, va, hi) && hi == va + PAGE * n
    ensures Unoccupied(m, r, Writes(va, pa, n), |Writes(va, pa, n)|)
  {
    var ws := Writes(va, pa, n);
    forall i | 0 <= i < |ws| ensures EmptyAt(m, r, ws, i) {
      WriteAt(va, pa, n, i);
    }
  }

  /** In an aligned plan of fit entries, no write finds its address translated exactly if no byte of the range is. */
  lemma FreeRange(m: Mem, r: nat, va: nat, pa: nat, n: nat, olds: seq<nat>, hi: nat)
    requires LargeAligned(va, pa, n) && va % PAGE == 0 && pa % PAGE == 0 && ReadyAll(m, r, Writes(va, pa, n), olds)
    requires hi == va + PAGE * n
    ensures Unoccupied(m, r, Writes(va, pa, n), |Writes(va, pa, n)|) <==> RangeFree(m, r, va, hi)
  {
    var c := |Writes(va, pa, n)|;
    if Unoccupied(m, r, Writes(va, pa, n), c) {
      WriteCount(va, pa, n);
      forall v: nat | va <= v < hi ensures FindLeaf(m, r, 4, v).None? {
        UnoccupiedRange(m, r, va, pa, n, olds, c, v);
      }
    }
    if RangeFree(m, r, va, hi) {
      FreeWrites(m, r, va, pa, n, hi);
    }
  }

  /** The first loop goes on after `j` pages exactly if its plan has more of them. */
  lemma {:induction false} FirstPagesAt(va0: nat, pa0: nat, n0: nat, j: nat, va: nat, pa: nat, n: nat)
    requires j <= FirstPages(va0, pa0, n0) && va == va0 + PAGE * j && pa == pa0 + PAGE * j && n == n0 - j
    ensures j < FirstPages(va0, pa0, n0) <==> n > 0 && pa % PAGE2 > 0 && va % PAGE2 > 0
    decreases j
  {
    if j > 0 {
      FirstPagesAt(va0 + PAGE, pa0 + PAGE, n0 - 1, j - 1, va, pa, n);
    }
  }

  /** From index `at` on, `ws` has `c` writes of consecutive pages of one size. */
  ghost predicate Block(ws: seq<Write>, at: nat, c: nat, va: nat, pa: nat, large: bool) {
    at + c <= |ws| && forall i :: 0 <= i < c ==> BlockAt(ws, at, va, pa, large, i)
  }

  predicate BlockAt(ws: seq<Write>, at: nat, va: nat, pa: nat, large: bool, i: nat)
    requires at + i < |ws|
  {
    var d := if large then PAGE2 * i else PAGE * i;
    ws[at + i] == Write(va + d, large, LeafWord(pa + d, large))
  }

  lemma BlockPrefix(ws: seq<Write>, at: nat, c: nat, va: nat, pa: nat, large: bool, b: nat)
    requires Block(ws, at, c, va, pa, large) && b <= c
    ensures Block(ws, at, b, va, pa, large)
  {}

  lemma NextAddress(ws: seq<Write>, at: nat, c: nat, va0: nat, pa0: nat, large: bool, i: nat, va: nat)
    requires Block(ws, at, c, va0, pa0, large) && i < c && va == va0 + (if large then PAGE2 * i else PAGE * i)
    ensures at + i < |ws| && ws[at + i].va == va && ws[at + i].large == large
  {
    assert BlockAt(ws, at, va0, pa0, large, i);
  }

  lemma NextWrite(ws: seq<Write>, at: nat, c: nat, va0: nat, pa0: nat, large: bool, i: nat, va: nat, pa: nat)
    requires Block(ws, at, c, va0, pa0, large) && i < c && pa0 % PAGE == 0
    requires var d := if large then PAGE2 * i else PAGE * i; va == va0 + d && pa == pa0 + d
    ensures at + i < |ws| && ws[at + i] == Write(va, large, LeafWord(pa, large)) && pa % PAGE == 0
  {
    assert BlockAt(ws, at, va0, pa0, large, i);
    PageOf(pa0, if large then 512 * i else i);
  }

  /** Where the three blocks of a plan begin. */
  datatype Split = Split(k: nat, l: nat, c: nat, v1: nat, p1: nat, v2: nat, p2: nat)

  ghost predicate SplitOk(va: nat, pa: nat, n: nat, z: Split) {
    && z.k == FirstPages(va, pa, n) && z.l == (n - z.k) / 512 && z.c < 512 && n == z.k + 512 * z.l + z.c
    && z.v1 == va + PAGE * z.k && z.p1 == pa + PAGE * z.k && z.v2 == z.v1 + PAGE2 * z.l && z.p2 == z.p1 + PAGE2 * z.l
    && z.p1 % PAGE == 0 && z.p2 % PAGE == 0
  }

  ghost predicate ThreeBlocks(ws: seq<Write>, va: nat, pa: nat, z: Split) {
    && |ws| == z.k + z.l + z.c && Block(ws, 0, z.k, va, pa, false)
    && Block(ws, z.k, z.l, z.v1, z.p1, true) && Block(ws, z.k + z.l, z.c, z.v2, z.p2, false)
  }

  lemma SplitOf(va: nat, pa: nat, n: nat) returns (z: Split)
    requires pa % PAGE == 0
    ensures SplitOk(va, pa, n, z)
  {
    var k := FirstPages(va, pa, n);
    var l, c := (n - k) / 512, (n - k) % 512;
    z := Split(k, l, c, va + PAGE * k, pa + PAGE * k, va + PAGE * k + PAGE2 * l, pa + PAGE * k + PAGE2 * l);
    PageOf(pa, k);
    PageOf(pa, k + 512 * l);
  }

  /** The plan in three blocks. */
  lemma PlanBlocks(va: nat, pa: nat, n: nat, z: Split)
    requires SplitOk(va, pa, n, z)
    ensures ThreeBlocks(Writes(va, pa, n), va, pa, z)
  {
    SmallBlock(va, pa, z.k);
    LargeBlock(z.v1, z.p1, z.l);
    SmallBlock(z.v2, z.p2, z.c);
    JoinBlocks(Smalls(va, pa, z.k), Larges(z.v1, z.p1, z.l), Smalls(z.v2, z.p2, z.c), va, pa, z);
    assert (n - z.k) % 512 == z.c;
  }

  lemma SmallBlock(va: nat, pa: nat, c: nat)
    ensures Block(Smalls(va, pa, c), 0, c, va, pa, false)
  {}

  lemma LargeBlock(va: nat, pa: nat, c: nat)
    ensures Block(Larges(va, pa, c), 0, c, va, pa, true)
  {}

  lemma JoinBlocks(x: seq<Write>, y: seq<Write>, w: seq<Write>, va: nat, pa: nat, z: Split)
    requires |x| == z.k && |y| == z.l && |w| == z.c
    requires Block(x, 0, z.k, va, pa, false) && Block(y, 0, z.l, z.v1, z.p1, true)
        && Block(w, 0, z.c, z.v2, z.p2, false)
    ensures ThreeBlocks(x + y + w, va, pa, z)
  {
    var ws, at := x + y + w, z.k + z.l;
    forall i | 0 <= i < z.k ensures BlockAt(ws, 0, va, pa, false, i) {
      assert BlockAt(x, 0, va, pa, false, i);
    }
    forall i | 0 <= i < z.l ensures BlockAt(ws, z.k, z.v1, z.p1, true, i) {
      assert BlockAt(y, 0, z.v1, z.p1, true, i);
    }
    forall i | 0 <= i < z.c ensures BlockAt(ws, at, z.v2, z.p2, false, i) {
      assert BlockAt(w, 0, z.v2, z.p2, false, i);
    }
  }

  lemma PageOf(x: nat, t: nat)
    requires x % PAGE == 0
    ensures (x + PAGE * t) % PAGE == 0
  {
    DivUnique(x + PAGE * t, PAGE, x / PAGE + t, 0);
  }

  // ---- the clash ----

  /** Pages of the first loop and one more. */
  lemma SmallsLinear(va: nat, pa: nat, c: nat)
    requires va + PAGE * c <= LINEAR
    ensures |Smalls(va, pa, c)| == c && Linear(Smalls(va, pa, c))
  {
    forall i | 0 <= i < c ensures LinearAt(Smalls(va, pa, c), i) {
      assert Smalls(va, pa, c)[i].va == va + PAGE * i;
    }
  }

  lemma SmallsSeparate(va: nat, pa: nat, c: nat)
    ensures Separate(Smalls(va, pa, c))
  {
    var ws := Smalls(va, pa, c);
    forall i, j | 0 <= i < j < c ensures ApartAt(ws, i, j) {
      Further(1, ws[i].va, ws[j].va);
    }
  }

  /** In a clash the last page of the first loop and the first large page lie in one 2 MB region, at different offsets
      from their physical pages. */
  lemma ClashPages(va: nat, pa: nat, n: nat, k: nat, v: nat, p: nat)
    requires Clash(va, pa, n) && k == FirstPages(va, pa, n) && va % PAGE == 0 && pa % PAGE == 0
    requires v + PAGE == va + PAGE * k && p + PAGE == pa + PAGE * k
    ensures SameSpan(2, v + PAGE, v) && v % PAGE2 != p % PAGE2 && p % PAGE == 0
  {
    FirstPagesStop(va, pa, n);
    PageOf(va, k);
    PageOf(pa, k - 1);
    Neighbours(v, p);
  }

  lemma Neighbours(v: nat, p: nat)
    requires (v + PAGE) % PAGE == 0 && (v + PAGE) % PAGE2 != 0 && (p + PAGE) % PAGE2 == 0
    ensures SameSpan(2, v + PAGE, v) && v % PAGE2 != p % PAGE2
  {
    var q, o := (v + PAGE) / PAGE2, (v + PAGE) % PAGE2;
    DivUnique(v + PAGE, PAGE, 512 * q + o / PAGE, o % PAGE);
    DivUnique(v, PAGE2, q, o - PAGE);
    DivUnique(p, PAGE2, (p + PAGE) / PAGE2 - 1, PAGE2 - PAGE);
  }

  // ---- unmapping ----

  /** What unmap did: entry by entry the writes, the pieces freed, and the memory before each step and after the
      last. */
  datatype Trace = Trace(es: seq<Write>, fr: seq<(nat, nat)>, ms: seq<Mem>)

  /** Step `i` of unmap: it found an entry for its address in the memory as the steps before had left it, present or
      not, cleared it whole and freed the piece that belongs to it. If the address had a leaf, that was the entry. */
  ghost predicate TraceAt(m: Mem, tabs: Tabs, r: nat, ws: seq<Write>, t: Trace, i: nat)
    requires i < |t.es| <= |ws| && |t.fr| == |t.es| && |t.ms| == |t.es| + 1
  {
    var va := ws[i].va;
    var e := EntryOf(t.ms[i], r, 4, va);
    var f := After(t.es[..i], FindLeaf(m, r, 4, va), va);
    && e.Some? && t.es[i] == Write(va, e.value.level == 2, 0)
      && t.fr[i] == (FreedAddr(e.value, va), Span(ws[i].Level()))
    && Remapped(t.ms[i], t.ms[i + 1], tabs, r, va, e.value.level, 0) && (f.Some? ==> f == e)
  }

  ghost predicate TraceOk(m: Mem, tabs: Tabs, r: nat, ws: seq<Write>, t: Trace) {
    && |t.es| <= |ws| && |t.fr| == |t.es| && |t.ms| == |t.es| + 1 && t.ms[0] == m
    && forall i :: 0 <= i < |t.es| ==> TraceAt(m, tabs, r, ws, t, i)
  }

  function More(t: Trace, e: Write, p: (nat, nat), m: Mem): Trace { Trace(t.es + [e], t.fr + [p], t.ms + [m]) }

  lemma TraceMore(m: Mem, tabs: Tabs, r: nat, ws: seq<Write>, t: Trace, f: Found, m': Mem)
    requires TraceOk(m, tabs, r, ws, t) && |t.es| < |ws| && 1 <= f.level <= 2
    requires EntryOf(t.ms[|t.es|], r, 4, ws[|t.es|].va) == Some(f)
    requires Remapped(t.ms[|t.es|], m', tabs, r, ws[|t.es|].va, f.level, 0)
    requires var g := After(t.es, FindLeaf(m, r, 4, ws[|t.es|].va), ws[|t.es|].va); g.Some? ==> g == Some(f)
    ensures var w := ws[|t.es|];
      TraceOk(m, tabs, r, ws, More(t, Write(w.va, f.level == 2, 0), (FreedAddr(f, w.va), Span(w.Level())), m'))
  {
    var w := ws[|t.es|];
    var t' := More(t, Write(w.va, f.level == 2, 0), (FreedAddr(f, w.va), Span(w.Level())), m');
    forall i | 0 <= i < |t'.es| ensures TraceAt(m, tabs, r, ws, t', i) {
      if i < |t.es| {
        assert TraceAt(m, tabs, r, ws, t, i) && t'.es[..i] == t.es[..i];
      } else {
        assert t'.es[..i] == t.es;
      }
    }
  }

  /** The range has leaves of the sizes that the split expects, which if `exact` map it to a congruent physical
      range. */
  ghost predicate Mapped(m: Mem, r: nat, va: nat, pa: nat, n: nat, exact: bool) {
    va % PAGE2 == pa % PAGE2 && Holds(m, r, Plan(va, pa, n), va, va + PAGE * n, exact)
  }

  lemma SamePlan(va: nat, pa: nat, n: nat)
    requires va % PAGE2 == pa % PAGE2
    ensures Plan(va, pa, n) == Plan(va, va, n).(pa := pa) && LargeAligned(va, va, n)
  {
    FirstPagesSame(va, pa, n);
    LargeAlignedExactly(va, va, n);
  }

  /** After `j` steps on a mapped range the range is gone as far as they reach, and nothing else. */
  ghost predicate GoneTo(es: seq<Write>, va: nat, end: nat) {
    forall base: Option<Found>, v: nat :: GoneAt(es, va, end, base, v)
  }

  predicate GoneAt(es: seq<Write>, va: nat, end: nat, base: Option<Found>, v: nat) {
    After(es, base, v) == if va <= v < end then None else base
  }

  lemma {:induction false} ErasedTo(m: Mem, tabs: Tabs, r: nat, va: nat, pa: nat, n: nat, exact: bool, t: Trace, j: nat)
    requires va % PAGE == 0 && Mapped(m, r, va, pa, n, exact) && TraceOk(m, tabs, r, Writes(va, va, n), t)
        && j <= |t.es|
    ensures GoneTo(t.es[..j], va, Reach(va, va, n, j))
    ensures exact ==> Tiles(t.fr[..j], pa, pa + (Reach(va, va, n, j) - va))
    decreases j
  {
    if j > 0 {
      ErasedTo(m, tabs, r, va, pa, n, exact, t, j - 1);
      StepErases(m, tabs, r, va, pa, n, exact, t, j - 1);
      AlignedEnd(va, pa, n, j - 1);
      GoneNext(t.es, j - 1, va);
      if exact {
        TilesNext(t.fr, j - 1, pa, pa + (t.es[j - 1].va - va));
      }
    }
  }

  lemma GoneNext(es: seq<Write>, j: nat, va: nat)
    requires j < |es| && GoneTo(es[..j], va, es[j].va) && va <= es[j].va && es[j].word == 0
        && es[j].va % Span(es[j].Level()) == 0
    ensures GoneTo(es[..j + 1], va, es[j].va + Span(es[j].Level()))
  {
    assert es[..j + 1] == es[..j] + [es[j]];
    GoneMore(es[..j], es[j], va);
  }

  lemma TilesNext(fr: seq<(nat, nat)>, j: nat, lo: nat, a: nat)
    requires j < |fr| && Tiles(fr[..j], lo, a) && fr[j].0 == a
    ensures Tiles(fr[..j + 1], lo, a + fr[j].1)
  {
    assert fr[..j + 1] == fr[..j] + [fr[j]];
    TilesMore(fr[..j], lo, a, fr[j].1);
  }

  lemma AlignedEnd(va: nat, pa: nat, n: nat, j: nat)
    requires va % PAGE == 0 && va % PAGE2 == pa % PAGE2 && j < |Writes(va, va, n)|
    ensures var w := Writes(va, va, n)[j];
      && w.va == Reach(va, va, n, j) && Reach(va, va, n, j + 1) == w.va + Span(w.Level()) && w.va % Span(w.Level()) == 0
      && w.va + Span(w.Level()) <= va + PAGE * n && w.va % PAGE == 0
      && w.Level() == if Plan(va, pa, n).large <= w.va < Plan(va, pa, n).small then 2 else 1
  {
    SamePlan(va, pa, n);
    AlignedWrite(va, va, n, j);
    WriteCount(va, va, n);
    TakenMono(va, va, n, j + 1, |Writes(va, va, n)|);
  }

  /** A step at the front of what is left clears the leaf of the range there and frees its piece. */
  lemma StepErases(m: Mem, tabs: Tabs, r: nat, va: nat, pa: nat, n: nat, exact: bool, t: Trace, j: nat)
    requires va % PAGE == 0 && Mapped(m, r, va, pa, n, exact) && TraceOk(m, tabs, r, Writes(va, va, n), t) && j < |t.es|
    requires GoneTo(t.es[..j], va, Reach(va, va, n, j))
    ensures var w := Writes(va, va, n)[j]; t.es[j].va == w.va && t.es[j].word == 0 && t.es[j].Level() == w.Level()
    ensures var w := Writes(va, va, n)[j]; exact ==> t.fr[j] == (pa + (w.va - va), Span(w.Level()))
  {
    var w := Writes(va, va, n)[j];
    AlignedEnd(va, pa, n, j);
    assert TraceAt(m, tabs, r, Writes(va, va, n), t, j);
    assert GoneAt(t.es[..j], va, w.va, FindLeaf(m, r, 4, w.va), w.va);
    assert HoldsAt(m, r, Plan(va, pa, n), w.va, exact);
    if exact {
      ShiftMod(va, pa, w.va - va);
      FreedExactly(m, r, w.va);
    }
  }

  lemma GoneMore(es: seq<Write>, e: Write, va: nat)
    requires GoneTo(es, va, e.va) && va <= e.va && e.word == 0 && e.va % Span(e.Level()) == 0
    ensures GoneTo(es + [e], va, e.va + Span(e.Level()))
  {
    var es', end := es + [e], e.va + Span(e.Level());
    forall base: Option<Found>, v: nat ensures GoneAt(es', va, end, base, v) {
      assert es'[..|es|] == es;
      assert GoneAt(es, va, e.va, base, v);
      SpanIs(e.Level(), e.va, v);
    }
  }

  /** How a call of unmap left the translations of all handles: it stopped early exactly at an address without an
      entry. */
  ghost predicate UnmapOutcome(m: Mem, m': Mem, tabs: Tabs, r: nat, va: nat, n: nat, t: Trace, all: bool) {
    var ws := Writes(va, va, n);
    && TraceOk(m, tabs, r, ws, t) && t.ms[|t.es|] == m' && Applied(m, m', tabs, r, t.es) && (all <==> |t.es| == |ws|)
    && (!all ==> var v := ws[|t.es|].va; EntryOf(m', r, 4, v).None? && After(t.es, FindLeaf(m, r, 4, v), v).None?)
  }

  /** On a range with leaves of the expected sizes the call goes through and exactly the range loses its translations;
      if it was mapped to a congruent one, the pieces tile that. */
  lemma UnmapMapped(m: Mem, m': Mem, tabs: Tabs, r: nat, va: nat, pa: nat, n: nat, exact: bool, t: Trace, all: bool)
    requires UnmapOutcome(m, m', tabs, r, va, n, t, all) && Mapped(m, r, va, pa, n, exact) && va % PAGE == 0
    ensures all && Unmapped(m, m', tabs, r, va, va + PAGE * n) && (exact ==> Tiles(t.fr, pa, pa + PAGE * n))
  {
    var j := |t.es|;
    ErasedTo(m, tabs, r, va, pa, n, exact, t, j);
    assert t.es[..j] == t.es && t.fr[..j] == t.fr;
    if !all {
      StopsNowhere(m, r, va, pa, n, exact, t.es);
    }
    WriteCount(va, va, n);
    var hi := va + PAGE * n;
    forall r': nat, v: nat | r' in tabs && tabs[r'].level == 4 && v < LINEAR
      ensures UnmappedAt(m, m', r, va, hi, r', v)
    {
      assert AppliedAt(m, m', r, t.es, r', v);
      assert GoneAt(t.es, va, hi, FindLeaf(m, r', 4, v), v);
    }
  }

  lemma StopsNowhere(m: Mem, r: nat, va: nat, pa: nat, n: nat, exact: bool, es: seq<Write>)
    requires va % PAGE == 0 && Mapped(m, r, va, pa, n, exact) && |es| < |Writes(va, va, n)|
    requires GoneTo(es, va, Reach(va, va, n, |es|))
    ensures var v := Writes(va, va, n)[|es|].va; After(es, FindLeaf(m, r, 4, v), v).Some?
  {
    var v := Writes(va, va, n)[|es|].va;
    AlignedEnd(va, pa, n, |es|);
    assert GoneAt(es, va, v, FindLeaf(m, r, 4, v), v);
    assert HoldsAt(m, r, Plan(va, pa, n), v, exact);
  }
}
