/** Calls for which the virtual memory module does not do what it is meant to, each from a new address space. */
module VmemExamples {
  import opened Prelude
  import opened Arithmetic
  import opened Bits
  import opened PageTables
  import opened Translation
  import opened MapRange
  import opened MapPlans
  import opened Vmemory
  import opened MapAlloc
  import A = FrameAllocator
  import H = KernelHeap
  import V = VmemRuns

  /** A handle under which nothing is mapped, on a new heap. */
  method NewSpace() returns (vm: Vmem, r: nat)
    ensures fresh(vm) && fresh(vm.heap) && vm.Valid() && vm.Selected(r) && r in vm.tabs && vm.tabs[r].level == 4
    ensures Cleared(vm.mem, r) && vm.Room(600) && vm.freed == []
  {
    var heap := new H.Heap();
    vm := new Vmem(heap);
    vm.CreateHandle(1);
    vm.SelectHandle(1);
    r := vm.handles[1];
  }

  /** Every entry that an empty PML4 leads to counts as empty. */
  lemma EmptySpace(m: Mem, r: nat, va: nat, t: nat)
    requires Cleared(m, r) && 1 <= t <= 2
    ensures Ready(m, r, 4, va, t, 0) && OldWord(m, r, 4, va, t) == 0 && FindLeaf(m, r, 4, va).None?
  {
    assert Entry(m, r, Index(va, 4)) == 0;
  }

  lemma EmptyPlan(m: Mem, r: nat, ws: seq<Write>)
    requires Cleared(m, r)
    ensures ReadyAll(m, r, ws, OldWords(m, r, ws)) && Unoccupied(m, r, ws, |ws|)
  {
    var olds := OldWords(m, r, ws);
    forall i | 0 <= i < |ws| ensures FitAt(m, r, ws, olds, i) && EmptyAt(m, r, ws, i) {
      EmptySpace(m, r, ws[i].va, ws[i].Level());
    }
  }

  /** In an empty address space every aligned request below the limits is taken by a run, unless its loops clash. */
  lemma EmptyLegal(m: Mem, r: nat, heapEnd: nat, va: nat, pa: nat, n: nat)
    requires Cleared(m, r) && va % PAGE == 0 && pa % PAGE == 0 && va + PAGE * n <= LINEAR && pa + PAGE * n <= PHYS
    requires !Clash(va, pa, n) && heapEnd + H.BASE + H.HDR + 0x6048 * n <= PHYS
    ensures V.MapLegal(m, r, heapEnd, va, pa, n)
  {
    EmptyPlan(m, r, Writes(va, pa, n));
  }

  /** 512 pages at 4 KB to 2 MB: the call succeeds, and the first page leads elsewhere. */
  method Misaligned() returns (vm: Vmem, r: nat, status: Status)
    ensures status == Ok && Walk(vm.mem, r, 0x1000) != Some(0x20_0000)
  {
    vm, r := NewSpace();
    assert FirstPages(0x1000, 0x20_0000, 512) == 0;
    EmptyPlan(vm.mem, r, Writes(0x1000, 0x20_0000, 512));
    ghost var j;
    status, j := vm.MapPhys(0x1000, 0x20_0000, 512, false, r);
  }

  /** 600 pages at 4 KB to one page below 2 MB: the call fails after mapping the first page, which it has spoilt. */
  method Clashing() returns (vm: Vmem, r: nat, status: Status)
    ensures status == VirtOccupied && Walk(vm.mem, r, 0x1000) != Some(0x1F_F000)
  {
    vm, r := NewSpace();
    assert FirstPages(0x2000, 0x20_0000, 599) == 0 && FirstPages(0x1000, 0x1F_F000, 600) == 1;
    EmptyPlan(vm.mem, r, Smalls(0x1000, 0x1F_F000, 2));
    ghost var j, q;
    status, j, q := vm.MapClash(0x1000, 0x1F_F000, 600, r);
  }

  /** The leaf and the translation of a page at 4 KB that has been written to. */
  lemma PageWritten(m: Mem, m': Mem, tabs: Tabs, r: nat, w: nat)
    requires r in tabs && tabs[r].level == 4 && Present(w) && Remapped(m, m', tabs, r, 0x1000, 1, w)
    ensures FindLeaf(m', r, 4, 0x1000) == Some(Found(1, w)) && Walk(m', r, 0x1000) == Some(LeafFrame(1, w))
  {
    assert RemappedAt(m, m', r, 0x1000, 1, w, r, 0x1000);
  }

  lemma FirstWord(pa: nat)
    requires pa == 0x2000
    ensures Or(0, pa + 3) == 0x2003 && Present(0x2003) && LeafFrame(1, 0x2003) == pa
  {}

  lemma FreedLow(w: nat, va: nat)
    requires w < PAGE2 && va < PAGE2
    ensures FreedAddr(Found(1, w), va) == va
  {
    DivUnique(w, PAGE2, 0, w);
    DivUnique(va, PAGE2, 0, va);
  }

  lemma ClearedWord()
    ensures ClearPresent(0x2003) == 0x2002 && FreedAddr(Found(1, 0x2003), 0x1000) == 0x1000
  {
    StaleExample();
    FreedLow(0x2003, 0x1000);
  }

  lemma SecondWord(pa: nat)
    requires pa == 0x1000
    ensures Or(0x2002, pa + 3) == 0x3003 && Present(0x3003) && LeafFrame(1, 0x3003) == 0x3000
  {
    StaleExample();
    MixSmall(0x2002, pa);
  }

  /** A page at 4 KB is mapped to 8 KB. */
  method MapFirst() returns (vm: Vmem, r: nat)
    ensures fresh(vm) && fresh(vm.heap) && vm.Valid() && vm.Selected(r) && vm.freed == [] && vm.Room(500)
    ensures r in vm.tabs && vm.tabs[r].level == 4 && FindLeaf(vm.mem, r, 4, 0x1000) == Some(Found(1, 0x2003))
    ensures Walk(vm.mem, r, 0x1000) == Some(0x2000)
  {
    vm, r := NewSpace();
    EmptySpace(vm.mem, r, 0x1000, 1);
    ghost var m, ts := vm.mem, vm.tabs;
    var ok := vm.MapPage(0x1000, 0x2000, r, 0);
    FirstWord(0x2000);
    PageWritten(m, vm.mem, ts, r, 0x2003);
  }

  /** That page is unmapped: the physical page at 4 KB is freed instead of the one at 8 KB. */
  method FreedElsewhere() returns (vm: Vmem, r: nat)
    ensures fresh(vm) && fresh(vm.heap) && vm.Valid() && vm.Selected(r) && vm.freed == [(0x1000, PAGE)] && vm.Room(500)
    ensures r in vm.tabs && vm.tabs[r].level == 4 && Ready(vm.mem, r, 4, 0x1000, 1, 0x2002)
  {
    vm, r := MapFirst();
    EntryIsLeaf(vm.mem, vm.tabs, r, 0x1000);
    ClearedWord();
    ghost var level;
    var ok;
    ok, level := vm.UnmapOne(0x1000, PAGE, r);
  }

  lemma ReadyEntry(m: Mem, tabs: Tabs, r: nat, va: nat, w: nat)
    requires Inv(m, tabs) && r in tabs && tabs[r].level == 4 && Ready(m, r, 4, va, 1, w) && w != 0
    ensures EntryOf(m, r, 4, va) == Some(Found(1, w))
  {}

  /** What is left in the entry of the page. */
  lemma ClearedTwice()
    ensures ClearPresent(0x2002) == 0x2002 && FreedAddr(Found(1, 0x2002), 0x1000) == 0x1000
  {
    ClearPresentIs(0x2002);
    FreedLow(0x2002, 0x1000);
  }

  lemma PageCleared(m: Mem, m': Mem, tabs: Tabs, r: nat)
    requires r in tabs && tabs[r].level == 4 && Remapped(m, m', tabs, r, 0x1000, 1, 0)
    ensures Walk(m', r, 0x1000).None?
  {
    assert RemappedAt(m, m', r, 0x1000, 1, 0, r, 0x1000);
  }

  /** The page is unmapped once more: that succeeds, although it is mapped no longer, and frees it a second time. */
  method UnmappedTwice() returns (vm: Vmem, r: nat, ok: bool)
    ensures ok && vm.freed == [(0x1000, PAGE), (0x1000, PAGE)] && Walk(vm.mem, r, 0x1000).None?
  {
    vm, r := FreedElsewhere();
    ghost var m := vm.mem;
    ReadyEntry(m, vm.tabs, r, 0x1000, 0x2002);
    ClearedTwice();
    ghost var level;
    ok, level := vm.UnmapOne(0x1000, PAGE, r);
    PageCleared(m, vm.mem, vm.tabs, r);
  }

  /** The same page is mapped again, now to 4 KB: it leads to 12 KB. */
  method Stale() returns (vm: Vmem, r: nat)
    ensures Walk(vm.mem, r, 0x1000) == Some(0x3000)
  {
    vm, r := FreedElsewhere();
    ghost var m, ts := vm.mem, vm.tabs;
    var ok := vm.MapPage(0x1000, 0x1000, r, 0x2002);
    SecondWord(0x1000);
    PageWritten(m, vm.mem, ts, r, 0x3003);
  }

  lemma EmptyUnmixed(m: Mem, r: nat, ws: seq<Write>)
    requires Cleared(m, r)
    ensures Unmixed(ws, OldWords(m, r, ws), |ws|)
  {
    var olds := OldWords(m, r, ws);
    forall i | 0 <= i < |ws| ensures MixOk(ws[i], olds[i]) {
      EmptySpace(m, r, ws[i].va, ws[i].Level());
      NothingMixed(ws[i]);
    }
  }

  lemma NothingMixed(w: Write)
    ensures MixOk(w, 0)
  {
    assert PageNo(w.Level(), 0) == 0;
  }

  /** The first 256 pages of physical memory at 2 MB, in an empty address space. */
  lemma FirstMegabyte(m: Mem, m': Mem, tabs: Tabs, r: nat, status: Status, j: nat, f: nat)
    requires Cleared(m, r) && r in tabs && tabs[r].level == 4 && f < 0x10_0000
    requires MapOutcome(m, m', tabs, r, 0x20_0000, 0, 256, status, j)
    ensures status == Ok && Walk(m', r, 0x20_0000 + f) == Some(f)
  {
    var ws := Writes(0x20_0000, 0, 256);
    EmptyPlan(m, r, ws);
    EmptyUnmixed(m, r, ws);
    WriteCount(0x20_0000, 0, 256);
    assert FirstPages(0x20_0000, 0, 256) == 0;
    assert RangedAt(m, m', r, Plan(0x20_0000, 0, 256), Reach(0x20_0000, 0, 256, j), true, r, 0x20_0000 + f);
  }

  /** On a machine with 1 MB of memory, one page is allocated under a handle. */
  method AllocFirst() returns (space: Space, r: nat, ghost f: nat)
    ensures fresh(space) && fresh(space.vm) && fresh(space.vm.heap) && fresh(space.frames) && space.Valid()
    ensures space.Room(500) && space.given == [Given(r, 0x8000, f)] && f < 0x10_0000 && r in space.vm.tabs
  {
    var vm;
    vm, r := NewSpace();
    var frames := new A.Allocator(0x10_0000);
    space := new Space(vm, frames);
    EmptySpace(vm.mem, r, 0x8000, 1);
    assert !Exhausted(A.Nodes(frames.tree)) by {
      assert A.Nodes(frames.tree)[0].size == 0x10_0000;
    }
    var o;
    o, f := space.MapPageAlloc(0x8000, r);
  }

  /** Then all of memory is mapped under a second handle: the call succeeds, and the page is shared. */
  method SharedFrame() returns (vm: Vmem, r: nat, r': nat, status: Status, ghost f: nat)
    ensures status == Ok && r != r' && f < 0x10_0000
    ensures Walk(vm.mem, r, 0x8000) == Some(f) && Walk(vm.mem, r', 0x20_0000 + f) == Some(f)
  {
    var space;
    space, r, f := AllocFirst();
    vm := space.vm;
    space.CreateHandle(2);
    space.SelectHandle(2);
    r' := vm.handles[2];
    ghost var m, ts := vm.mem, vm.tabs;
    EmptyPlan(m, r', Writes(0x20_0000, 0, 256));
    assert FirstPages(0x20_0000, 0, 256) == 0;
    ghost var j;
    status, j := space.MapPhys(0x20_0000, 0, 256, r');
    FirstMegabyte(m, vm.mem, ts, r', status, j, f);
    assert GrantOk(vm.mem, vm.tabs, A.Nodes(space.frames.tree), space.given[0]);
  }
}
