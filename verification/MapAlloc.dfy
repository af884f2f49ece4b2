/** map_alloc without the continuity flag (modules/vmemory/vmemory.c:252-277): page tables, kernel heap and physical
    allocator together. */
module MapAlloc {
  import opened Prelude
  import opened Arithmetic
  import opened Bits
  import opened PageTables
  import opened Translation
  import opened MapRange
  import opened MapPlans
  import opened Vmemory
  import A = FrameAllocator

  /** Page `va` of handle `root` was given `frame`. */
  datatype Given = Given(root: nat, va: nat, frame: nat)

  /** The frame of a grant is no longer free, and its page translates to it. */
  ghost predicate GrantOk(m: Mem, tabs: Tabs, free: seq<A.Free>, g: Given) {
    && g.root in tabs && tabs[g.root].level == 4 && g.va < LINEAR && g.va % PAGE == 0
    && Walk(m, g.root, g.va) == Some(g.frame) && !A.IsFree(free, g.frame)
  }

  /** Every grant stands, and no two share a frame. */
  ghost predicate Grants(m: Mem, tabs: Tabs, free: seq<A.Free>, gs: seq<Given>) {
    && (forall i :: 0 <= i < |gs| ==> GrantOk(m, tabs, free, gs[i]))
    && (forall i, j :: 0 <= i < j < |gs| ==> gs[i].frame != gs[j].frame)
  }

  /** The pages from `va` on, one frame each. */
  ghost function Granted(root: nat, va: nat, fs: seq<nat>): (r: seq<Given>)
    ensures |r| == |fs| && forall i :: 0 <= i < |r| ==> r[i] == Given(root, va + PAGE * i, fs[i])
  {
    if fs == [] then [] else Granted(root, va, fs[..|fs| - 1]) + [Given(root, va + PAGE * (|fs| - 1), fs[|fs| - 1])]
  }

  lemma GrantedMore(root: nat, va: nat, fs: seq<nat>, f: nat)
    ensures Granted(root, va, fs + [f]) == Granted(root, va, fs) + [Given(root, va + PAGE * |fs|, f)]
  {}

  ghost predicate FramedAt(m: Mem, m': Mem, r: nat, va: nat, fs: seq<nat>, r': nat, v: nat) {
    if r' == r && va <= v < va + PAGE * |fs| then Walk(m', r', v) == Some(fs[(v - va) / PAGE] + v % PAGE)
    else FindLeaf(m', r', 4, v) == FindLeaf(m, r', 4, v)
  }

  /** Under handle `r` each page from `va` on translates to its frame; no other leaf of any handle changed. */
  ghost predicate Framed(m: Mem, m': Mem, tabs: Tabs, r: nat, va: nat, fs: seq<nat>) {
    forall r': nat, v: nat :: r' in tabs && tabs[r'].level == 4 && v < LINEAR ==> FramedAt(m, m', r, va, fs, r', v)
  }

  lemma FramedStep(m0: Mem, ts0: Tabs, m1: Mem, ts1: Tabs, m2: Mem, r: nat, va: nat, fs: seq<nat>, f: nat)
    requires va % PAGE == 0 && f % PAGE == 0 && f < PHYS && Extends(ts0, ts1)
    requires Framed(m0, m1, ts0, r, va, fs) && Remapped(m1, m2, ts1, r, va + PAGE * |fs|, 1, f + 3)
    ensures Framed(m0, m2, ts0, r, va, fs + [f])
  {
    var at := va + PAGE * |fs|;
    DivUnique(at, PAGE, va / PAGE + |fs|, 0);
    SmallLeaf(f);
    forall r': nat, v: nat | r' in ts0 && ts0[r'].level == 4 && v < LINEAR
      ensures FramedAt(m0, m2, r, va, fs + [f], r', v)
    {
      assert FramedAt(m0, m1, r, va, fs, r', v);
      assert RemappedAt(m1, m2, r, at, 1, f + 3, r', v);
      SpanIs(1, at, v);
      if va <= v {
        PageIndex(va, |fs|, v);
      }
    }
  }

  lemma PageIndex(va: nat, n: nat, v: nat)
    requires va <= v
    ensures (v - va) / PAGE < n <==> v < va + PAGE * n
    ensures (v - va) / PAGE == n <==> va + PAGE * n <= v < va + PAGE * n + PAGE
  {}

  /** A page that was not translated gets a frame that was free: all grants stand, and the new one is among them. */
  lemma GrantStep(m: Mem, tabs: Tabs, m': Mem, tabs': Tabs, free: seq<A.Free>, free': seq<A.Free>, gs: seq<Given>,
      r: nat, va: nat, f: nat)
    requires Grants(m, tabs, free, gs) && Extends(tabs, tabs') && r in tabs && tabs[r].level == 4
    requires va % PAGE == 0 && va < LINEAR && f % PAGE == 0 && f < PHYS && Walk(m, r, va).None?
    requires Remapped(m, m', tabs, r, va, 1, f + 3)
    requires A.IsFree(free, f) && !A.IsFree(free', f) && A.Shrunk(free, free')
    ensures Grants(m', tabs', free', gs + [Given(r, va, f)])
  {
    SmallLeaf(f);
    forall i | 0 <= i < |gs| ensures GrantOk(m', tabs', free', gs[i]) && gs[i].frame != f {
      assert GrantOk(m, tabs, free, gs[i]);
      assert RemappedAt(m, m', r, va, 1, f + 3, gs[i].root, gs[i].va);
      SpanIs(1, va, gs[i].va);
      SpanIs(1, gs[i].va, va);
    }
    assert RemappedAt(m, m', r, va, 1, f + 3, r, va);
    assert GrantOk(m', tabs', free', Given(r, va, f));
  }

  /** Grants survive what changes no translation and frees nothing. */
  lemma GrantsKept(m: Mem, tabs: Tabs, m': Mem, tabs': Tabs, free: seq<A.Free>, free': seq<A.Free>, gs: seq<Given>)
    requires Grants(m, tabs, free, gs) && Extends(tabs, tabs') && SameWalks(m, m', tabs)
    requires A.Shrunk(free, free')
    ensures Grants(m', tabs', free', gs)
  {
    forall i | 0 <= i < |gs| ensures GrantOk(m', tabs', free', gs[i]) {
      assert GrantOk(m, tabs, free, gs[i]);
    }
  }

  /** Neither a granted frame nor a free byte lies in the `n` pages at `pa`. */
  ghost predicate Own(free: seq<A.Free>, gs: seq<Given>, pa: nat, n: nat) {
    && (forall i :: 0 <= i < |gs| ==> !(pa <= gs[i].frame < pa + PAGE * n))
    && (forall a: nat :: pa <= a < pa + PAGE * n ==> !A.IsFree(free, a))
  }

  /** A physical range mapped by map_phys that nobody else has. */
  datatype Claim = Claim(pa: nat, n: nat)

  ghost predicate Claimed(free: seq<A.Free>, gs: seq<Given>, cs: seq<Claim>) {
    forall i :: 0 <= i < |cs| ==> Own(free, gs, cs[i].pa, cs[i].n)
  }

  lemma OwnKept(free: seq<A.Free>, free': seq<A.Free>, gs: seq<Given>, pa: nat, n: nat)
    requires Own(free, gs, pa, n) && A.Shrunk(free, free')
    ensures Own(free', gs, pa, n)
  {}

  lemma ClaimsKept(free: seq<A.Free>, free': seq<A.Free>, gs: seq<Given>, cs: seq<Claim>)
    requires Claimed(free, gs, cs) && A.Shrunk(free, free')
    ensures Claimed(free', gs, cs)
  {
    forall i | 0 <= i < |cs| ensures Own(free', gs, cs[i].pa, cs[i].n) {
      OwnKept(free, free', gs, cs[i].pa, cs[i].n);
    }
  }

  /** Granting a free frame takes nothing from a claim. */
  lemma ClaimsStep(free: seq<A.Free>, free': seq<A.Free>, gs: seq<Given>, cs: seq<Claim>, g: Given)
    requires Claimed(free, gs, cs) && A.Shrunk(free, free') && A.IsFree(free, g.frame)
    ensures Claimed(free', gs + [g], cs)
  {
    ClaimsKept(free, free', gs, cs);
    forall i | 0 <= i < |cs| ensures Own(free', gs + [g], cs[i].pa, cs[i].n) {
      assert Own(free, gs, cs[i].pa, cs[i].n) && Own(free', gs, cs[i].pa, cs[i].n);
    }
  }

  /** One free interval covers the `n` pages at `pa`. */
  ghost predicate Covered(free: seq<A.Free>, pa: nat, n: nat) {
    exists i :: 0 <= i < |free| && A.Covers(free[i], pa, PAGE * n)
  }

  /** The range can be had: it is free in one piece, or nobody has it and it is not free. */
  ghost predicate Available(free: seq<A.Free>, gs: seq<Given>, pa: nat, n: nat) {
    Covered(free, pa, n) || Own(free, gs, pa, n)
  }

  ghost function Claiming(free: seq<A.Free>, gs: seq<Given>, cs: seq<Claim>, pa: nat, n: nat): seq<Claim> {
    if Available(free, gs, pa, n) then cs + [Claim(pa, n)] else cs
  }

  /** Taking a range that was free: no granted frame is in it, and all grants stand. */
  lemma Reserved(m: Mem, tabs: Tabs, s: seq<A.Free>, t: seq<A.Free>, gs: seq<Given>, pa: nat, n: nat)
    requires Grants(m, tabs, s, gs) && Covered(s, pa, n)
    requires forall a: nat :: A.IsFree(t, a) <==> A.IsFree(s, a) && !(pa <= a < pa + PAGE * n)
    ensures Grants(m, tabs, t, gs) && Own(t, gs, pa, n)
  {
    var k :| 0 <= k < |s| && A.Covers(s[k], pa, PAGE * n);
    forall i | 0 <= i < |gs| ensures GrantOk(m, tabs, t, gs[i]) && !(pa <= gs[i].frame < pa + PAGE * n) {
      assert GrantOk(m, tabs, s, gs[i]);
      assert !A.Within(s, k, gs[i].frame);
    }
  }

  /** Writes at addresses that were not translated leave all granted pages alone. */
  lemma GrantsApart(m: Mem, tabs: Tabs, m': Mem, tabs': Tabs, free: seq<A.Free>, gs: seq<Given>, r: nat,
                    ws: seq<Write>, olds: seq<nat>, j: nat)
    requires Grants(m, tabs, free, gs) && Extends(tabs, tabs') && ReadyAll(m, r, ws, olds) && j <= |ws|
    requires Unoccupied(m, r, ws, j) && Applied(m, m', tabs, r, Mixed(ws, olds)[..j])
    ensures Grants(m', tabs', free, gs)
  {
    forall i | 0 <= i < |gs| ensures GrantOk(m', tabs', free, gs[i]) {
      assert GrantOk(m, tabs, free, gs[i]);
      assert AppliedAt(m, m', r, Mixed(ws, olds)[..j], gs[i].root, gs[i].va);
      if gs[i].root == r {
        GrantApart(m, r, ws, olds, j, gs[i].va);
      }
    }
  }

  lemma GrantApart(m: Mem, r: nat, ws: seq<Write>, olds: seq<nat>, j: nat, v: nat)
    requires ReadyAll(m, r, ws, olds) && j <= |ws| && Unoccupied(m, r, ws, j) && FindLeaf(m, r, 4, v).Some?
    ensures After(Mixed(ws, olds)[..j], FindLeaf(m, r, 4, v), v) == FindLeaf(m, r, 4, v)
  {
    var mx := Mixed(ws, olds)[..j];
    forall i | 0 <= i < |mx| ensures !Under(mx[i], v) {
      assert FitAt(m, r, ws, olds, i) && EmptyAt(m, r, ws, i);
      if SameSpan(ws[i].Level(), ws[i].va, v) {
        ReadySpan(m, r, 4, ws[i].va, ws[i].Level(), olds[i], v);
      }
    }
    AfterElsewhere(mx, FindLeaf(m, r, 4, v), v);
  }

  datatype Outcome = Done | NoSpace | Occupied

  class Space {
    const vm: Vmem
    const frames: A.Allocator
    ghost var given: seq<Given>
    ghost var claims: seq<Claim>

    ghost predicate Valid()
      reads this, vm, vm.heap, frames
    {
      && vm.Valid() && Stock()
      && Grants(vm.mem, vm.tabs, A.Nodes(frames.tree), given)
      && Claimed(A.Nodes(frames.tree), given, claims)
    }

    constructor (vm: Vmem, frames: A.Allocator)
      requires vm.Valid() && frames.Valid() && A.Aligned(A.Nodes(frames.tree), PAGE)
      requires forall a: nat :: A.IsFree(A.Nodes(frames.tree), a) ==> a < PHYS
      ensures Valid() && this.vm == vm && this.frames == frames && given == [] && claims == []
    {
      this.vm, this.frames, given, claims := vm, frames, [], [];
    }

    /** The allocator holds whole pages below the physical limit. */
    ghost predicate Stock()
      reads frames
    {
      frames.Valid() && A.Aligned(A.Nodes(frames.tree), PAGE)
      && forall a: nat :: A.IsFree(A.Nodes(frames.tree), a) ==> a < PHYS
    }

    method TakeFrame() returns (p: Option<nat>)
      requires Stock()
      modifies frames
      ensures Stock() && A.Shrunk(old(A.Nodes(frames.tree)), A.Nodes(frames.tree))
      ensures p.None? <==> Exhausted(old(A.Nodes(frames.tree)))
      ensures p.None? ==> frames.tree == old(frames.tree)
      ensures p.Some? ==> p.value % PAGE == 0 && p.value < PHYS
      ensures p.Some? ==> A.IsFree(old(A.Nodes(frames.tree)), p.value) && !A.IsFree(A.Nodes(frames.tree), p.value)
    {
      ghost var s := A.Nodes(frames.tree);
      p := frames.AllocAlign(PAGE, PAGE);
      ghost var t := A.Nodes(frames.tree);
      forall a: nat | A.IsFree(t, a) ensures A.IsFree(s, a) {
        assert frames.FreeByte(a);
        assert old(frames.FreeByte(a));
      }
      if p.Some? {
        assert old(frames.FreeByte(p.value)) && !frames.FreeByte(p.value);
      }
    }

    /** MAP_PAGE_ALLOC (modules/vmemory/vmemory.c:220-226). Both failures are told by the state before the call. The
        frame is taken first, so an occupied page costs it: it is no longer free, although nothing was mapped. */
    method MapPageAlloc(va: nat, ghost r: nat) returns (o: Outcome, ghost f: nat)
      requires Valid() && vm.Selected(r) && va % PAGE == 0 && va < LINEAR
      requires Vacant(vm.mem, r, va) && vm.Top() + 3 * TABLE_COST <= PHYS
      modifies this`given, vm`mem, vm`tabs, vm.heap, frames
      ensures Valid() && Extends(old(vm.tabs), vm.tabs) && vm.Top() <= old(vm.Top()) + 3 * TABLE_COST
      ensures o.Done? ==> given == old(given) + [Given(r, va, f)] && f % PAGE == 0 && f < PHYS
      ensures o.Done? ==> Remapped(old(vm.mem), vm.mem, old(vm.tabs), r, va, 1, f + 3)
      ensures o.Done? ==> ReadyElsewhere(old(vm.mem), vm.mem, r, va, 1)
      ensures !o.Done? ==> given == old(given) && SameWalks(old(vm.mem), vm.mem, old(vm.tabs))
      ensures o.NoSpace? <==> Exhausted(old(A.Nodes(frames.tree)))
      ensures o.Occupied? <==> !Exhausted(old(A.Nodes(frames.tree))) && Walk(old(vm.mem), r, va).Some?
      ensures o.NoSpace? ==> frames.tree == old(frames.tree)
      ensures !o.NoSpace? ==> A.IsFree(old(A.Nodes(frames.tree)), f) && !A.IsFree(A.Nodes(frames.tree), f)
    {
      ghost var m, ts, s := vm.mem, vm.tabs, A.Nodes(frames.tree);
      f := 0;
      var p := TakeFrame();
      if p.None? {
        return NoSpace, 0;
      }
      f := p.value;
      var ok := vm.MapPage(va, p.value, r, OldWord(vm.mem, r, 4, va, 1));
      assert ok ==> Or(0, f + 3) == f + 3;
      if !ok {
        GrantsKept(m, ts, vm.mem, vm.tabs, s, A.Nodes(frames.tree), given);
        ClaimsKept(s, A.Nodes(frames.tree), given, claims);
        return Occupied, f;
      }
      GrantStep(m, ts, vm.mem, vm.tabs, s, A.Nodes(frames.tree), given, r, va, f);
      ClaimsStep(s, A.Nodes(frames.tree), given, claims, Given(r, va, f));
      given := given + [Given(r, va, f)];
      o := Done;
    }

    /** From the state (m0, ts0, given0), the pages from `base` on have got the frames `fs`; the others up to `end` can
        still be mapped. */
    ghost predicate Filled(m0: Mem, ts0: Tabs, given0: seq<Given>, r: nat, base: nat, fs: seq<nat>)
      reads this, vm, vm.heap, frames
    {
      && Valid() && vm.Selected(r) && r in ts0 && ts0[r].level == 4 && Extends(ts0, vm.tabs)
      && Framed(m0, vm.mem, ts0, r, base, fs) && given == given0 + Granted(r, base, fs)
    }

    ghost predicate Room(n: nat)
      reads vm.heap
    {
      vm.Room(n)
    }

    /** One round of either 4 KB loop. */
    method FillOne(va: nat, left: nat, ghost m0: Mem, ghost ts0: Tabs, ghost given0: seq<Given>, ghost r: nat,
        ghost base: nat, ghost fs0: seq<nat>)
      returns (o: Outcome, ghost fs: seq<nat>)
      requires Filled(m0, ts0, given0, r, base, fs0) && base % PAGE == 0 && left > 0 && Room(left)
      requires va == base + PAGE * |fs0| && va + PAGE * left <= LINEAR && SmallReady(vm.mem, r, va, va + PAGE * left)
      modifies this`given, vm`mem, vm`tabs, vm.heap, frames
      ensures Filled(m0, ts0, given0, r, base, fs) && Room(left - 1)
      ensures o.Done? ==> |fs| == |fs0| + 1 && SmallReady(vm.mem, r, va + PAGE, va + PAGE * left)
      ensures !o.Done? ==> fs == fs0
      ensures o.NoSpace? ==> Exhausted(A.Nodes(frames.tree))
      ensures o.Occupied? ==> Walk(m0, r, va).Some?
    {
      ghost var m1, ts1 := vm.mem, vm.tabs;
      DivUnique(va, PAGE, base / PAGE + |fs0|, 0);
      ghost var f;
      o, f := MapPageAlloc(va, r);
      fs := fs0;
      if o.Done? {
        fs := fs0 + [f];
        FramedStep(m0, ts0, m1, ts1, vm.mem, r, base, fs0, f);
        GrantedMore(r, base, fs0, f);
        ReadyBehind(m1, vm.mem, r, va, 1, va + PAGE, va + PAGE * left);
      } else {
        FramedSame(m0, ts0, m1, ts1, vm.mem, r, base, fs0);
        assert FramedAt(m0, m1, r, base, fs0, r, va);
      }
    }

    /** The first 4 KB loop (modules/vmemory/vmemory.c:269-270), or the last one (273-274) with `whole`. */
    method Fill(va0: nat, n: nat, whole: bool, ghost m0: Mem, ghost ts0: Tabs, ghost given0: seq<Given>, ghost r: nat,
        ghost base: nat, ghost fs0: seq<nat>)
      returns (o: Outcome, va: nat, left: nat, ghost fs: seq<nat>)
      requires Filled(m0, ts0, given0, r, base, fs0) && base % PAGE == 0 && Room(n)
      requires va0 == base + PAGE * |fs0| && va0 + PAGE * n <= LINEAR && SmallReady(vm.mem, r, va0, va0 + PAGE * n)
      modifies this`given, vm`mem, vm`tabs, vm.heap, frames
      ensures Filled(m0, ts0, given0, r, base, fs) && |fs| + left == |fs0| + n
      ensures o.Done? ==> left == (if whole then 0 else n - FirstPages(va0, va0, n)) && Room(left)
      ensures o.Done? ==> va == base + PAGE * |fs| && SmallReady(vm.mem, r, va, va0 + PAGE * n)
      ensures !o.Done? ==> Stopped(o, A.Nodes(frames.tree), m0, r, base + PAGE * |fs|, left)
    {
      o, va, left, fs := Done, va0, n, fs0;
      while left > 0 && (whole || va % PAGE2 > 0)
        invariant Filled(m0, ts0, given0, r, base, fs) && |fs| + left == |fs0| + n && o.Done?
        invariant va == base + PAGE * |fs| && SmallReady(vm.mem, r, va, va0 + PAGE * n) && Room(left)
        invariant whole || n - left <= FirstPages(va0, va0, n)
        decreases left
      {
        if !whole {
          FirstPagesAt(va0, va0, n, n - left, va, va, left);
        }
        o, fs := FillOne(va, left, m0, ts0, given0, r, base, fs);
        if !o.Done? {
          return;
        }
        va, left := va + PAGE, left - 1;
      }
      if !whole {
        FirstPagesAt(va0, va0, n, n - left, va, va, left);
      }
    }

    /** map_alloc for requests that use 4 KB pages only: those which leave fewer than 512 pages behind the first 2 MB
        boundary, so that the loop of modules/vmemory/vmemory.c:271-272 is not entered. Every page of the request
        translates to a frame of its own; with `Valid`, no two pages of any two calls, through whatever handles, share a
        frame. When the allocator runs out or a page is taken, the pages before it stay mapped. */
    method MapAlloc(va0: nat, usize: nat, inBytes: bool, ghost r: nat) returns (o: Outcome, ghost fs: seq<nat>)
      requires Valid() && vm.Selected(r) && va0 % PAGE == 0
      requires var n := Units(usize, inBytes);
        && n - FirstPages(va0, va0, n) < 512 && va0 + PAGE * n <= LINEAR && Room(n)
        && SmallReady(vm.mem, r, va0, va0 + PAGE * n)
      modifies this`given, vm`mem, vm`tabs, vm.heap, frames
      ensures Valid() && |fs| <= Units(usize, inBytes) && Extends(old(vm.tabs), vm.tabs)
      ensures Framed(old(vm.mem), vm.mem, old(vm.tabs), r, va0, fs) && given == old(given) + Granted(r, va0, fs)
      ensures Stopped(o, A.Nodes(frames.tree), old(vm.mem), r, va0 + PAGE * |fs|, Units(usize, inBytes) - |fs|)
      ensures AllocBytes(vm.mem, r, va0, if inBytes then usize else PAGE * usize, o, fs)
    {
      ghost var m0, ts0 := vm.mem, vm.tabs;
      var n := if inBytes then (usize + (PAGE - 1)) / PAGE else usize;
      o, fs := MapPages(va0, n, r);
      UnitsLeast(usize);
      AllocatedBytes(m0, vm.mem, ts0, r, va0, if inBytes then usize else PAGE * usize, o, fs);
    }

    method MapPages(va0: nat, n: nat, ghost r: nat) returns (o: Outcome, ghost fs: seq<nat>)
      requires Valid() && vm.Selected(r) && va0 % PAGE == 0
      requires n - FirstPages(va0, va0, n) < 512 && va0 + PAGE * n <= LINEAR && Room(n)
      requires SmallReady(vm.mem, r, va0, va0 + PAGE * n)
      modifies this`given, vm`mem, vm`tabs, vm.heap, frames
      ensures Valid() && |fs| <= n && Extends(old(vm.tabs), vm.tabs)
      ensures Framed(old(vm.mem), vm.mem, old(vm.tabs), r, va0, fs) && given == old(given) + Granted(r, va0, fs)
      ensures Stopped(o, A.Nodes(frames.tree), old(vm.mem), r, va0 + PAGE * |fs|, n - |fs|)
    {
      ghost var m0, ts0, given0 := vm.mem, vm.tabs, given;
      var va, left;
      o, va, left, fs := Fill(va0, n, false, m0, ts0, given0, r, va0, []);
      if !o.Done? {
        return;
      }
      assert left < 512;
      o, va, left, fs := Fill(va, left, true, m0, ts0, given0, r, va0, fs);
    }

    /** map_phys with its call to `allocator_alloc_addr`, whose result it ignores (modules/vmemory/vmemory.c:279-293).
        All pages granted so far keep their frames. Afterwards no granted frame lies in the range and no byte of it is
        free to be granted later if and only if one free interval covered the range, or the range had neither a free
        byte nor a granted frame in it; with `Valid`, that stays so over all later calls. */
    method MapPhys(va: nat, pa: nat, n: nat, ghost r: nat) returns (status: Status, ghost j: nat)
      requires Valid() && vm.Selected(r) && va % PAGE == 0 && pa % PAGE == 0 && n > 0
      requires va + PAGE * n <= LINEAR && pa + PAGE * n <= PHYS && !Clash(va, pa, n) && PlanReady(vm.mem, r, va, pa, n)
          && Room(n)
      modifies this`claims, vm`mem, vm`tabs, vm.heap, frames
      ensures Valid() && Extends(old(vm.tabs), vm.tabs)
      ensures MapOutcome(old(vm.mem), vm.mem, old(vm.tabs), r, va, pa, n, status, j)
      ensures Own(A.Nodes(frames.tree), given, pa, n) <==> Available(old(A.Nodes(frames.tree)), given, pa, n)
      ensures claims == Claiming(old(A.Nodes(frames.tree)), given, old(claims), pa, n)
    {
      ghost var m, ts := vm.mem, vm.tabs;
      Reserve(pa, n);
      status, j := vm.MapPhys(va, pa, n, false, r);
      ghost var ws := Writes(va, pa, n);
      GrantsApart(m, ts, vm.mem, vm.tabs, A.Nodes(frames.tree), given, r, ws, OldWords(m, r, ws), j);
    }

    /** `allocator_alloc_addr` for the range, succeeding or not. */
    method Reserve(pa: nat, n: nat)
      requires Valid() && pa % PAGE == 0 && n > 0
      modifies this`claims, frames
      ensures Valid()
      ensures Own(A.Nodes(frames.tree), given, pa, n) <==> Available(old(A.Nodes(frames.tree)), given, pa, n)
      ensures claims == Claiming(old(A.Nodes(frames.tree)), given, old(claims), pa, n)
    {
      ghost var s := A.Nodes(frames.tree);
      PageOf(0, n);
      var taken := frames.AllocAddr(PAGE * n, pa, PAGE);
      ghost var t := A.Nodes(frames.tree);
      if taken.Some? {
        forall a: nat ensures A.IsFree(t, a) <==> A.IsFree(s, a) && !(pa <= a < pa + PAGE * n) {
          assert frames.FreeByte(a) <==> old(frames.FreeByte(a)) && !(pa <= a < pa + PAGE * n);
        }
        Reserved(vm.mem, vm.tabs, s, t, given, pa, n);
        ClaimsKept(s, t, given, claims);
      }
      claims := Claiming(s, given, claims, pa, n);
    }

    /** Handles may be created and selected between the calls. */
    method CreateHandle(h: nat)
      requires Valid() && vm.Top() + TABLE_COST <= PHYS
      modifies vm`mem, vm`tabs, vm`handles, vm.heap
      ensures Valid() && vm.handles.Keys == old(vm.handles.Keys) + {h} && vm.Top() <= old(vm.Top()) + TABLE_COST
      ensures Extends(old(vm.tabs), vm.tabs) && SameWalks(old(vm.mem), vm.mem, old(vm.tabs))
      ensures Cleared(vm.mem, vm.handles[h]) && vm.handles[h] !in old(vm.tabs)
    {
      ghost var m, ts := vm.mem, vm.tabs;
      vm.CreateHandle(h);
      GrantsKept(m, ts, vm.mem, vm.tabs, A.Nodes(frames.tree), A.Nodes(frames.tree), given);
    }

    method SelectHandle(h: nat)
      requires Valid() && h in vm.handles
      modifies vm`cur
      ensures Valid() && vm.Selected(vm.handles[h])
    {
      vm.SelectHandle(h);
    }
  }

  /** A request for `size` bytes gets no more pages than hold them. If it succeeds, it gets that many, and every byte
      translates to its byte of the frame that its page got. */
  ghost predicate AllocBytes(m: Mem, r: nat, va: nat, size: nat, o: Outcome, fs: seq<nat>) {
    && PAGE * |fs| < size + PAGE
    && (o.Done? ==> size <= PAGE * |fs|)
    && (o.Done? ==>
          forall v: nat :: va <= v < va + size && (v - va) / PAGE < |fs| ==>
            Walk(m, r, v) == Some(fs[(v - va) / PAGE] + v % PAGE))
  }

  lemma AllocatedBytes(m: Mem, m': Mem, tabs: Tabs, r: nat, va: nat, size: nat, o: Outcome, fs: seq<nat>)
    requires Framed(m, m', tabs, r, va, fs) && r in tabs && tabs[r].level == 4 && va + PAGE * |fs| <= LINEAR
    requires PAGE * |fs| < size + PAGE && (o.Done? ==> size <= PAGE * |fs|)
    ensures AllocBytes(m', r, va, size, o, fs)
  {
    if o.Done? {
      forall v: nat | va <= v < va + size && (v - va) / PAGE < |fs|
        ensures Walk(m', r, v) == Some(fs[(v - va) / PAGE] + v % PAGE)
      {
        assert FramedAt(m, m', r, va, fs, r, v);
      }
    }
  }

  /** How a call ends with `left` pages missing, the first of them at `va`. */
  ghost predicate Stopped(o: Outcome, free: seq<A.Free>, m0: Mem, r: nat, va: nat, left: nat) {
    match o
    case Done => left == 0
    case NoSpace => left > 0 && Exhausted(free)
    case Occupied => left > 0 && Walk(m0, r, va).Some?
  }

  lemma FramedSame(m0: Mem, ts0: Tabs, m1: Mem, ts1: Tabs, m2: Mem, r: nat, va: nat, fs: seq<nat>)
    requires Extends(ts0, ts1) && Framed(m0, m1, ts0, r, va, fs) && SameWalks(m1, m2, ts1)
    ensures Framed(m0, m2, ts0, r, va, fs)
  {
    forall r': nat, v: nat | r' in ts0 && ts0[r'].level == 4 && v < LINEAR ensures FramedAt(m0, m2, r, va, fs, r', v) {
      assert FramedAt(m0, m1, r, va, fs, r', v);
      assert FindLeaf(m2, r', 4, v) == FindLeaf(m1, r', 4, v);
    }
  }

  /** No free interval has the two pages that the fit test asks for. */
  ghost predicate Exhausted(s: seq<A.Free>) {
    forall i :: 0 <= i < |s| ==> s[i].size < PAGE + PAGE
  }
}
