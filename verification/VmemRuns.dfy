/** Runs of the virtual memory module: what any sequence of its calls does to the address spaces of all handles. */
module VmemRuns {
  import opened PageTables
  import opened Translation
  import opened MapRange
  import opened MapPlans
  import opened Vmemory
  import H = KernelHeap

  datatype Op =
    | Create(h: nat)
    | Select(h: nat)
    | Map(va: nat, pa: nat, usize: nat, inBytes: bool)
    | Unmap(va: nat, usize: nat, inBytes: bool)

  datatype State = State(mem: Mem, tabs: Tabs, handles: map<nat, nat>, cur: nat, heapEnd: nat)

  /** Is there room for the tables of `n` pages behind a heap that ends at `heapEnd`? */
  predicate Space(heapEnd: nat, n: nat) { Roomy(heapEnd + H.BASE + H.HDR, n) }

  /** A call that map_phys can be trusted with: below the limits, and on entries that are fit for the pages. */
  predicate MapLegal(m: Mem, r: nat, heapEnd: nat, va: nat, pa: nat, n: nat) {
    && va % PAGE == 0 && pa % PAGE == 0 && va + PAGE * n <= LINEAR && pa + PAGE * n <= PHYS
    && !Clash(va, pa, n) && PlanReady(m, r, va, pa, n) && Space(heapEnd, n)
  }

  predicate UnmapLegal(va: nat, n: nat) { va % PAGE == 0 && va + PAGE * n <= LINEAR }

  /** The handle whose address space an operation is about. */
  predicate Concerns(s: State, op: Op, h: nat) {
    match op
    case Create(h') => h == h'
    case Select(_) => false
    case Map(_, _, _, _) => h == s.cur
    case Unmap(_, _, _) => h == s.cur
  }

  ghost predicate SameSpace(m: Mem, m': Mem, r: nat) {
    forall v: nat :: v < LINEAR ==> Walk(m', r, v) == Walk(m, r, v)
  }

  /** No handle but the one concerned notices anything. */
  ghost predicate Isolated(s: State, op: Op, s': State) {
    forall h :: h in s.handles && !Concerns(s, op, h) ==>
      h in s'.handles && s'.handles[h] == s.handles[h] && SameSpace(s.mem, s'.mem, s.handles[h])
  }

  /** What the operation does to the handle it concerns. */
  ghost predicate Effect(s: State, op: Op, s': State) {
    match op
    case Create(h) => Space(s.heapEnd, 1) ==>
        h in s'.handles && s'.handles[h] !in s.tabs && forall v: nat :: Walk(s'.mem, s'.handles[h], v).None?
    case Select(h) => s'.cur == if h in s.handles then h else s.cur
    case Map(va, pa, usize, inBytes) =>
      var n := Units(usize, inBytes);
      s.cur in s.handles && MapLegal(s.mem, s.handles[s.cur], s.heapEnd, va, pa, n) ==>
        exists status, j :: MapOutcome(s.mem, s'.mem, s.tabs, s.handles[s.cur], va, pa, n, status, j)
    case Unmap(va, usize, inBytes) =>
      var n := Units(usize, inBytes);
      s.cur in s.handles && UnmapLegal(va, n) ==>
        exists t, all :: UnmapOutcome(s.mem, s'.mem, s.tabs, s.handles[s.cur], va, n, t, all)
  }

  ghost predicate StepOk(s: State, op: Op, s': State) {
    Extends(s.tabs, s'.tabs) && Isolated(s, op, s') && Effect(s, op, s')
  }

  /** Every table is page aligned, and each below a PML4 has exactly one present entry referring to it. */
  ghost predicate WellReferenced(m: Mem, tabs: Tabs) {
    forall q :: q in tabs ==> q % PAGE == 0 && (tabs[q].level < 4 ==> OnlyReference(m, tabs, q))
  }

  ghost predicate OnlyReference(m: Mem, tabs: Tabs, q: nat)
    requires q in tabs
  {
    && tabs[q].parent in tabs && tabs[q].idx < 512
    && forall p, i: nat :: p in tabs && i < 512 && tabs[p].level >= 2 ==>
         (Refers(m, tabs, p, i, q) <==> p == tabs[q].parent && i == tabs[q].idx)
  }

  predicate Refers(m: Mem, tabs: Tabs, p: nat, i: nat, q: nat)
    requires p in tabs
  {
    Present(Entry(m, p, i)) && !Leaf(tabs[p].level, Entry(m, p, i)) && Frame(Entry(m, p, i)) == q
  }

  lemma AllReferenced(m: Mem, tabs: Tabs)
    requires Inv(m, tabs)
    ensures WellReferenced(m, tabs)
  {
    forall q | q in tabs ensures q % PAGE == 0 && (tabs[q].level < 4 ==> OnlyReference(m, tabs, q)) {
      assert TabOk(tabs, q);
      if tabs[q].level < 4 {
        forall p, i: nat | p in tabs && i < 512 && tabs[p].level >= 2
          ensures Refers(m, tabs, p, i, q) <==> p == tabs[q].parent && i == tabs[q].idx
        {
          OneReference(m, tabs, q, p, i);
        }
      }
    }
  }

  /** Writes to one handle leave the others alone. */
  lemma OthersKept(m: Mem, m': Mem, tabs: Tabs, handles: map<nat, nat>, r: nat, ws: seq<Write>, h: nat)
    requires HandlesOk(handles, tabs) && Applied(m, m', tabs, r, ws) && h in handles && handles[h] != r
    ensures SameSpace(m, m', handles[h])
  {
    forall v: nat | v < LINEAR ensures Walk(m', handles[h], v) == Walk(m, handles[h], v) {
      assert AppliedAt(m, m', r, ws, handles[h], v);
    }
  }

  /** A new handle is no concern of the others. */
  lemma CreatedApart(s: State, s': State, h: nat)
    requires HandlesOk(s.handles, s.tabs) && SameWalks(s.mem, s'.mem, s.tabs) && s'.handles.Keys == s.handles.Keys + {h}
    requires forall h' :: h' in s.handles && h' != h ==> s'.handles[h'] == s.handles[h']
    ensures Isolated(s, Create(h), s')
  {
    forall h' | h' in s.handles && h' != h
      ensures h' in s'.handles && s'.handles[h'] == s.handles[h'] && SameSpace(s.mem, s'.mem, s.handles[h'])
    {
      assert h' in s'.handles.Keys;
    }
  }

  lemma HeapTop(heap: H.Heap)
    requires heap.Valid()
    ensures TopOf(heap.blocks) <= heap.occupiedTo + H.BASE + H.HDR
  {}

  class Driver {
    const vm: Vmem

    constructor (vm: Vmem)
      ensures this.vm == vm
    {
      this.vm := vm;
    }

    ghost function Now(): State
      reads vm, vm.heap
    {
      State(vm.mem, vm.tabs, vm.handles, vm.cur, vm.heap.occupiedTo)
    }

    method DoCreate(h: nat)
      requires vm.Valid()
      modifies vm, vm.heap
      ensures vm.Valid() && StepOk(old(Now()), Create(h), Now())
    {
      HeapTop(vm.heap);
      ghost var s := Now();
      if Space(vm.heap.occupiedTo, 1) {
        vm.CreateHandle(h);
        CreatedApart(s, Now(), h);
      }
    }

    method DoSelect(h: nat)
      requires vm.Valid()
      modifies vm
      ensures vm.Valid() && StepOk(old(Now()), Select(h), Now())
    {
      if h in vm.handles {
        vm.SelectHandle(h);
      }
    }

    method DoMap(va: nat, pa: nat, usize: nat, inBytes: bool)
      requires vm.Valid()
      modifies vm, vm.heap
      ensures vm.Valid() && StepOk(old(Now()), Map(va, pa, usize, inBytes), Now())
    {
      HeapTop(vm.heap);
      if vm.cur in vm.handles {
        var r := vm.handles[vm.cur];
        if MapLegal(vm.mem, r, vm.heap.occupiedTo, va, pa, Units(usize, inBytes)) {
          ghost var s := Now();
          ghost var ws := Writes(va, pa, Units(usize, inBytes));
          var status, j := vm.MapPhys(va, pa, usize, inBytes, r);
          forall h | h in s.handles && h != s.cur ensures SameSpace(s.mem, vm.mem, s.handles[h]) {
            OthersKept(s.mem, vm.mem, s.tabs, s.handles, r, Mixed(ws, OldWords(s.mem, r, ws))[..j], h);
          }
        }
      }
    }

    method DoUnmap(va: nat, usize: nat, inBytes: bool)
      requires vm.Valid()
      modifies vm
      ensures vm.Valid() && StepOk(old(Now()), Unmap(va, usize, inBytes), Now())
    {
      if vm.cur in vm.handles && UnmapLegal(va, Units(usize, inBytes)) {
        var r := vm.handles[vm.cur];
        ghost var s := Now();
        var status, t := vm.Unmap(va, usize, inBytes, r);
        forall h | h in s.handles && h != s.cur ensures SameSpace(s.mem, vm.mem, s.handles[h]) {
          OthersKept(s.mem, vm.mem, s.tabs, s.handles, r, t.es, h);
        }
      }
    }

    method Perform(op: Op)
      requires vm.Valid()
      modifies vm, vm.heap
      ensures vm.Valid() && StepOk(old(Now()), op, Now())
    {
      match op {
        case Create(h) => DoCreate(h);
        case Select(h) => DoSelect(h);
        case Map(va, pa, usize, inBytes) => DoMap(va, pa, usize, inBytes);
        case Unmap(va, usize, inBytes) => DoUnmap(va, usize, inBytes);
      }
    }

    /** Any run of creating and selecting handles, mapping and unmapping: every step has exactly its effect on the
        handle it concerns and none on any other, whether it succeeds, fails or stops half-way; and at the end every
        table is aligned and referred to by exactly one present entry of one handle. */
    method Session(ops: seq<Op>) returns (ghost hist: seq<State>)
      requires vm.Valid()
      modifies vm, vm.heap
      ensures vm.Valid() && |hist| == |ops| + 1 && hist[0] == old(Now()) && hist[|ops|] == Now()
      ensures forall k :: 0 <= k < |ops| ==> StepOk(hist[k], ops[k], hist[k + 1])
      ensures WellReferenced(vm.mem, vm.tabs)
    {
      hist := [Now()];
      for k := 0 to |ops|
        invariant vm.Valid() && |hist| == k + 1 && hist[0] == old(Now()) && hist[k] == Now()
        invariant forall j :: 0 <= j < k ==> StepOk(hist[j], ops[j], hist[j + 1])
      {
        Perform(ops[k]);
        hist := hist + [Now()];
      }
      AllReferenced(vm.mem, vm.tabs);
    }
  }
}
