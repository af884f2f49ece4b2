/** Runs of map_alloc and map_phys over any handles: who has which physical page. */
module MapRuns {
  import opened PageTables
  import opened Translation
  import opened MapRange
  import opened MapPlans
  import opened Vmemory
  import opened MapAlloc
  import A = FrameAllocator
  import V = VmemRuns

  datatype Op =
    | Create(h: nat)
    | Select(h: nat)
    | Alloc(va: nat, n: nat)
    | Phys(va: nat, pa: nat, n: nat)

  datatype State = State(vm: V.State, free: seq<A.Free>, given: seq<Given>, claims: seq<Claim>)

  /** A call of map_alloc that uses 4 KB pages only, on entries that are fit for it. */
  predicate AllocLegal(m: Mem, r: nat, heapEnd: nat, va: nat, n: nat) {
    && va % PAGE == 0 && va + PAGE * n <= LINEAR && n - FirstPages(va, va, n) < 512
    && SmallReady(m, r, va, va + PAGE * n) && V.Space(heapEnd, n)
  }

  predicate CanAlloc(s: V.State, va: nat, n: nat) {
    s.cur in s.handles && AllocLegal(s.mem, s.handles[s.cur], s.heapEnd, va, n)
  }

  predicate CanMap(s: V.State, va: nat, pa: nat, n: nat) {
    s.cur in s.handles && n > 0 && V.MapLegal(s.mem, s.handles[s.cur], s.heapEnd, va, pa, n)
  }

  ghost predicate AllocEffect(s: State, va: nat, n: nat, s': State, fs: seq<nat>)
    requires s.vm.cur in s.vm.handles
  {
    var r := s.vm.handles[s.vm.cur];
    |fs| <= n && s'.given == s.given + Granted(r, va, fs) && Framed(s.vm.mem, s'.vm.mem, s.vm.tabs, r, va, fs)
  }

  ghost predicate PhysEffect(s: State, va: nat, pa: nat, n: nat, s': State, status: Status, j: nat)
    requires s.vm.cur in s.vm.handles
  {
    && MapOutcome(s.vm.mem, s'.vm.mem, s.vm.tabs, s.vm.handles[s.vm.cur], va, pa, n, status, j)
    && (Own(s'.free, s'.given, pa, n) <==> Available(s.free, s.given, pa, n))
    && s'.claims == Claiming(s.free, s.given, s.claims, pa, n)
  }

  /** map_alloc grants frames and claims nothing; map_phys grants nothing, and has its range for itself exactly if the
      range was available. */
  ghost predicate StepOk(s: State, op: Op, s': State) {
    match op
    case Alloc(va, n) =>
      && s'.claims == s.claims
      && (if CanAlloc(s.vm, va, n) then exists fs :: AllocEffect(s, va, n, s', fs) else s'.given == s.given)
    case Phys(va, pa, n) =>
      && s'.given == s.given
      && (if CanMap(s.vm, va, pa, n) then exists status, j :: PhysEffect(s, va, pa, n, s', status, j)
          else s'.claims == s.claims)
    case _ => s'.given == s.given && s'.claims == s.claims
  }

  /** No granted frame is granted twice or lies in a claimed range. */
  ghost predicate Unshared(gs: seq<Given>, cs: seq<Claim>) {
    && (forall i, j :: 0 <= i < j < |gs| ==> gs[i].frame != gs[j].frame)
    && forall i, j :: 0 <= i < |gs| && 0 <= j < |cs| ==> !(cs[j].pa <= gs[i].frame < cs[j].pa + PAGE * cs[j].n)
  }

  lemma AllApart(m: Mem, tabs: Tabs, free: seq<A.Free>, gs: seq<Given>, cs: seq<Claim>)
    requires Grants(m, tabs, free, gs) && Claimed(free, gs, cs)
    ensures Unshared(gs, cs)
  {
    forall i, j | 0 <= i < |gs| && 0 <= j < |cs|
      ensures !(cs[j].pa <= gs[i].frame < cs[j].pa + PAGE * cs[j].n)
    {
      assert Own(free, gs, cs[j].pa, cs[j].n);
    }
  }

  class Client {
    const space: Space

    constructor (space: Space)
      ensures this.space == space
    {
      this.space := space;
    }

    ghost predicate Valid()
      reads space, space.vm, space.vm.heap, space.frames
    {
      space.Valid()
    }

    ghost function Now(): State
      reads space, space.vm, space.vm.heap, space.frames
    {
      var vm := space.vm;
      var v := V.State(vm.mem, vm.tabs, vm.handles, vm.cur, vm.heap.occupiedTo);
      State(v, A.Nodes(space.frames.tree), space.given, space.claims)
    }

    method DoAlloc(va: nat, n: nat)
      requires Valid()
      modifies space, space.vm, space.vm.heap, space.frames
      ensures Valid() && StepOk(old(Now()), Alloc(va, n), Now())
    {
      var vm := space.vm;
      V.HeapTop(vm.heap);
      ghost var s := Now();
      if vm.cur in vm.handles && AllocLegal(vm.mem, vm.handles[vm.cur], vm.heap.occupiedTo, va, n) {
        var o, fs := space.MapAlloc(va, n, false, vm.handles[vm.cur]);
        assert AllocEffect(s, va, n, Now(), fs);
      }
    }

    method DoPhys(va: nat, pa: nat, n: nat)
      requires Valid()
      modifies space, space.vm, space.vm.heap, space.frames
      ensures Valid() && StepOk(old(Now()), Phys(va, pa, n), Now())
    {
      var vm := space.vm;
      V.HeapTop(vm.heap);
      ghost var s := Now();
      if vm.cur in vm.handles && n > 0 && V.MapLegal(vm.mem, vm.handles[vm.cur], vm.heap.occupiedTo, va, pa, n) {
        var status, j := space.MapPhys(va, pa, n, vm.handles[vm.cur]);
        assert PhysEffect(s, va, pa, n, Now(), status, j);
      }
    }

    method Perform(op: Op)
      requires Valid()
      modifies space, space.vm, space.vm.heap, space.frames
      ensures Valid() && StepOk(old(Now()), op, Now())
    {
      match op {
        case Create(h) =>
          V.HeapTop(space.vm.heap);
          if V.Space(space.vm.heap.occupiedTo, 1) {
            space.CreateHandle(h);
          }
        case Select(h) =>
          if h in space.vm.handles {
            space.SelectHandle(h);
          }
        case Alloc(va, n) => DoAlloc(va, n);
        case Phys(va, pa, n) => DoPhys(va, pa, n);
      }
    }

    /** Any run of creating and selecting handles, map_alloc and map_phys. After every step, no granted frame is granted
        twice or lies in a range that was available when map_phys was called for it; and a range that was not available
        is not had for oneself after the call. */
    method Session(ops: seq<Op>) returns (ghost hist: seq<State>)
      requires Valid()
      modifies space, space.vm, space.vm.heap, space.frames
      ensures Valid() && |hist| == |ops| + 1 && hist[0] == old(Now()) && hist[|ops|] == Now()
      ensures forall k :: 0 <= k < |ops| ==> StepOk(hist[k], ops[k], hist[k + 1])
      ensures forall k :: 0 <= k <= |ops| ==> Unshared(hist[k].given, hist[k].claims)
    {
      hist := [Now()];
      AllApart(space.vm.mem, space.vm.tabs, A.Nodes(space.frames.tree), space.given, space.claims);
      for k := 0 to |ops|
        invariant Valid() && |hist| == k + 1 && hist[0] == old(Now()) && hist[k] == Now()
        invariant forall j :: 0 <= j < k ==> StepOk(hist[j], ops[j], hist[j + 1])
        invariant forall j :: 0 <= j <= k ==> Unshared(hist[j].given, hist[j].claims)
      {
        Perform(ops[k]);
        AllApart(space.vm.mem, space.vm.tabs, A.Nodes(space.frames.tree), space.given, space.claims);
        hist := hist + [Now()];
      }
    }
  }
}
