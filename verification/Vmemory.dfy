/** The virtual memory module (modules/vmemory/vmemory.c): handles, table creation, mapping and unmapping. */
module Vmemory {
  import opened Prelude
  import opened Arithmetic
  import opened Bits
  import opened PageTables
  import opened Translation
  import opened MapRange
  import opened MapPlans
  import H = KernelHeap

  /** The heap space that one new table can take: alignment, header and the table itself. */
  const TABLE_COST: nat := 0x2018

  ghost predicate BlockOf(b: seq<H.Block>, p: nat, k: nat) {
    0 < k < |b| && p >= H.HDR && b[k] == H.Block(p - H.HDR, PAGE)
  }

  /** Every table is a live heap block of its own. */
  ghost predicate Backed(b: seq<H.Block>, ps: set<nat>) {
    forall p {:trigger HasBlock(b, p)} :: p in ps ==> HasBlock(b, p)
  }

  ghost predicate HasBlock(b: seq<H.Block>, p: nat) { exists k: nat :: BlockOf(b, p, k) }

  /** The end of the last heap block. */
  ghost function TopOf(b: seq<H.Block>): nat { if |b| == 0 then 0 else b[|b| - 1].End() }

  lemma BackedInserted(b: seq<H.Block>, k: nat, x: H.Block, ps: set<nat>)
    requires Backed(b, ps) && 0 < k <= |b|
    ensures Backed(H.Inserted(b, k, x), ps)
  {
    var c := H.Inserted(b, k, x);
    forall p | p in ps ensures HasBlock(c, p) {
      assert HasBlock(b, p);
      var j: nat :| BlockOf(b, p, j);
      var j' := if j < k then j else j + 1;
      H.InsertedAt(b, k, x, j');
      assert BlockOf(c, p, j');
    }
  }

  /** A fresh placement is no table yet. */
  lemma FreshTable(b: seq<H.Block>, p: nat, ps: set<nat>)
    requires Backed(b, ps) && p >= H.HDR && H.Fits(b, p - H.HDR, PAGE, PAGE)
    ensures p !in ps && p % PAGE == 0
  {
    forall q | q in ps ensures q != p {
      assert HasBlock(b, q);
      var k: nat :| BlockOf(b, q, k);
      assert p + PAGE <= b[k].addr || b[k].End() <= p - H.HDR;
    }
  }

  /** First fit moves the end of the heap by at most one table's cost. */
  lemma TopGrowth(b: seq<H.Block>, k: nat, p: nat)
    requires |b| > 0 && H.Ordered(b) && 0 < k <= |b| && p >= H.HDR
    requires H.Fits(b, p - H.HDR, PAGE, PAGE) && forall a :: H.Fits(b, a, PAGE, PAGE) ==> p - H.HDR <= a
    requires H.Ordered(H.Inserted(b, k, H.Block(p - H.HDR, PAGE)))
    ensures TopOf(H.Inserted(b, k, H.Block(p - H.HDR, PAGE))) <= TopOf(b) + TABLE_COST
    ensures p + PAGE <= TopOf(b) + TABLE_COST
  {
    var n := |b| - 1;
    var a := H.AlignUp(b[n].End(), PAGE);
    H.AlignUpLeast(b[n].End(), PAGE, a);
    forall i | 0 <= i < |b| ensures b[i].End() <= a {
      assert i < n ==> b[i].End() <= b[n].addr;
    }
    assert H.Fits(b, a, PAGE, PAGE);
    H.InsertedAt(b, k, H.Block(p - H.HDR, PAGE), |b|);
  }

  ghost predicate Cleared(m: Mem, p: nat) {
    forall j :: 0 <= j < 512 ==> Entry(m, p, j) == 0
  }

  ghost predicate SameTables(m: Mem, m': Mem, tabs: Tabs) {
    forall p, j {:trigger Entry(m', p, j)} :: p in tabs && 0 <= j < 512 ==> Entry(m', p, j) == Entry(m, p, j)
  }

  /** Each handle has a PML4 of its own. */
  ghost predicate HandlesOk(handles: map<nat, nat>, tabs: Tabs) {
    && (forall h :: h in handles ==> handles[h] in tabs && tabs[handles[h]].level == 4)
    && (forall h, h' :: h in handles && h' in handles && h != h' ==> handles[h] != handles[h'])
  }

  lemma HandlesExtend(handles: map<nat, nat>, tabs: Tabs, tabs': Tabs)
    requires HandlesOk(handles, tabs) && Extends(tabs, tabs')
    ensures HandlesOk(handles, tabs')
  {}

  /** With a heap that ends at `top`, the tables for `n` pages stay below the physical limit: three tables each. */
  predicate Roomy(top: nat, n: nat) { top + 0x6048 * n <= PHYS }

  /** Writes to be made under handle `r` into entries that hold `olds`, from memory `m0` with tables `ts0`. */
  datatype Job = Job(m0: Mem, ts0: Tabs, r: nat, ws: seq<Write>, olds: seq<nat>)

  /** `c` pages of one size from index `at` of a job. */
  datatype Stretch = Stretch(at: nat, c: nat, va: nat, pa: nat, large: bool) {
    function Offset(i: nat): nat { if large then PAGE2 * i else PAGE * i }
  }

  class Vmem {
    const heap: H.Heap
    var mem: Mem
    /** mem_hndl structures by address: the PML4 each one holds. */
    var handles: map<nat, nat>
    var cur: nat
    /** Calls made to allocator_free, as (address, bytes). */
    var freed: seq<(nat, nat)>
    ghost var tabs: Tabs

    ghost predicate ValidWith(m: Mem)
      reads this, heap
    {
      heap.Valid() && Inv(m, tabs) && Backed(heap.blocks, tabs.Keys) && HandlesOk(handles, tabs)
    }

    ghost predicate Valid()
      reads this, heap
    {
      ValidWith(mem)
    }

    ghost predicate Selected(r: nat)
      reads this
    {
      cur in handles && handles[cur] == r
    }

    ghost function Top(): nat
      reads heap
    {
      TopOf(heap.blocks)
    }

    constructor (heap: H.Heap)
      requires heap.Valid()
      ensures Valid() && this.heap == heap && handles == map[] && freed == [] && tabs == map[]
    {
      this.heap := heap;
      mem, handles, cur, freed, tabs := map[], map[], 0, [], map[];
    }

    /** kmalloc_align(512 * 8, 4096) and the loop that clears the new table. */
    method NewTable() returns (p: nat)
      requires heap.Valid() && TabsOk(tabs) && Backed(heap.blocks, tabs.Keys)
      requires Top() + TABLE_COST <= PHYS
      modifies this`mem, heap
      ensures heap.Valid() && Backed(heap.blocks, tabs.Keys + {p}) && Top() <= old(Top()) + TABLE_COST
      ensures p !in tabs && p % PAGE == 0 && 0 < p && p + PAGE <= PHYS
      ensures Cleared(mem, p) && SameTables(old(mem), mem, tabs)
    {
      ghost var b := heap.blocks;
      ghost var k;
      p, k := heap.KmallocAlign(8 * 512, PAGE);
      FreshTable(b, p, tabs.Keys);
      TopGrowth(b, k, p);
      BackedInserted(b, k, H.Block(p - H.HDR, PAGE), tabs.Keys);
      H.InsertedAt(b, k, H.Block(p - H.HDR, PAGE), k);
      assert BlockOf(heap.blocks, p, k);
      Clear(p);
    }

    /** The loop that marks all 512 entries of a table as not present. */
    method Clear(p: nat)
      requires p % PAGE == 0 && TabsOk(tabs) && p !in tabs
      modifies this`mem
      ensures Cleared(mem, p) && SameTables(old(mem), mem, tabs)
    {
      for i := 0 to 512
        invariant forall j :: 0 <= j < i ==> Entry(mem, p, j) == 0
        invariant SameTables(old(mem), mem, tabs)
      {
        ghost var m := mem;
        mem := mem[p + 8 * i := 0];
        forall q, j: nat | q in tabs && j < 512 ensures Entry(mem, q, j) == Entry(m, q, j) {
          assert TabOk(tabs, q);
          SlotApart(q, j, p, i);
        }
        forall j: nat | j <= i ensures Entry(mem, p, j) == 0 {
          assert j < i ==> Entry(m, p, j) == 0;
        }
      }
    }

    /** One level of make_entry (modules/vmemory/vmemory.c:126-135, 137-146, 155-164): the entry at `ent` gets a
        table if it has none. */
    method EnsureTable(ent: nat, ghost r: nat, ghost va: nat, ghost x: nat)
      requires Valid() && At(mem, tabs, r, va, x) && va < LINEAR && tabs[x].level >= 2
      requires ent == x + 8 * Index(va, tabs[x].level)
      requires Word(mem, ent) == 0 || (Present(Word(mem, ent)) && !Leaf(tabs[x].level, Word(mem, ent)))
      requires Top() + TABLE_COST <= PHYS
      modifies this`mem, this`tabs, heap
      ensures Valid() && Top() <= old(Top()) + TABLE_COST
      ensures Extends(old(tabs), tabs) && SameWalks(old(mem), mem, old(tabs))
      ensures StillReady(old(mem), mem, r, va, tabs[x].level)
      ensures var q := Frame(Word(mem, ent)); At(mem, tabs, r, va, q) && tabs[q].level == tabs[x].level - 1
    {
      var present := IsPresent(ent);
      if !present {
        AddTable(ent, r, va, x);
      } else {
        Followed(mem, tabs, r, va, x);
      }
    }

    method AddTable(ent: nat, ghost r: nat, ghost va: nat, ghost x: nat)
      requires Valid() && At(mem, tabs, r, va, x) && va < LINEAR && tabs[x].level >= 2
      requires ent == x + 8 * Index(va, tabs[x].level) && Word(mem, ent) == 0
      requires Top() + TABLE_COST <= PHYS
      modifies this`mem, this`tabs, heap
      ensures Valid() && Top() <= old(Top()) + TABLE_COST
      ensures Extends(old(tabs), tabs) && SameWalks(old(mem), mem, old(tabs))
      ensures StillReady(old(mem), mem, r, va, tabs[x].level)
      ensures var q := Frame(Word(mem, ent)); At(mem, tabs, r, va, q) && tabs[q].level == tabs[x].level - 1
    {
      ghost var m := mem;
      assert Entry(m, x, Index(va, tabs[x].level)) == 0;
      var table := NewTable();
      Hook(ent, table, r, va, x, m);
    }

    /** Refer to the cleared page `table` from the empty entry `ent`. */
    method Hook(ent: nat, table: nat, ghost r: nat, ghost va: nat, ghost x: nat, ghost m: Mem)
      requires ValidWith(m) && Backed(heap.blocks, tabs.Keys + {table})
      requires At(m, tabs, r, va, x) && va < LINEAR && tabs[x].level >= 2
      requires ent == x + 8 * Index(va, tabs[x].level) && Entry(m, x, Index(va, tabs[x].level)) == 0
      requires table !in tabs && table % PAGE == 0 && 0 < table && table + PAGE <= PHYS
      requires Cleared(mem, table) && SameTables(m, mem, tabs)
      modifies this`mem, this`tabs
      ensures Valid()
      ensures Extends(old(tabs), tabs) && SameWalks(m, mem, old(tabs))
      ensures StillReady(m, mem, r, va, tabs[x].level)
      ensures Frame(Word(mem, ent)) == table && At(mem, tabs, r, va, table) && tabs[table].level == tabs[x].level - 1
    {
      ghost var m1, ts, i := mem, tabs, Index(va, tabs[x].level);
      assert Entry(mem, x, i) == 0;
      SetEntry(ent, table);
      ghost var ts' := ts[table := Tab(ts[x].level - 1, x, i)];
      Hooked(m, m1, mem, ts, ts', r, va, x, table);
      assert ts'.Keys == ts.Keys + {table};
      HandlesExtend(handles, ts, ts');
      tabs := ts';
    }

    method IsPresent(ent: nat) returns (p: bool)
      ensures p == Present(Word(mem, ent))
    {
      FlagsAre(Word(mem, ent));
      p := And(Word(mem, ent), PRESENT) != 0;
    }

    /** SET_PDPT, SET_PD, SET_PT or SET_PTE_PHYSADDR on an empty entry, then the two flags. */
    method SetEntry(ent: nat, addr: nat)
      requires Word(mem, ent) == 0 && addr % PAGE == 0
      modifies this`mem
      ensures mem == old(mem)[ent := addr + 3]
    {
      SmallWord(addr);
      mem := mem[ent := SetBits(Word(mem, ent), addr)];
      mem := mem[ent := Or(Word(mem, ent), Or(PRESENT, CANWRITE))];
    }

    /** One level of make_entry: give the entry at `ent` a table if it has none, and address the entry of `va` in
        that table. */
    method Descend(ent: nat, va: nat, level: nat, ghost r: nat, ghost x: nat, ghost t: nat, ghost prior: nat)
      returns (ptr: nat, ghost q: nat)
      requires Valid() && At(mem, tabs, r, va, x) && va < LINEAR && tabs[x].level == level + 1
      requires 1 <= t <= 2 && t <= level && Ready(mem, r, 4, va, t, prior)
      requires ent == x + 8 * Index(va, level + 1)
      requires Top() + TABLE_COST <= PHYS
      modifies this`mem, this`tabs, heap
      ensures Valid() && Top() <= old(Top()) + TABLE_COST
      ensures Kept(old(mem), old(tabs), mem, tabs, r, va, level + 1)
      ensures At(mem, tabs, r, va, q) && tabs[q].level == level && ptr == q + 8 * Index(va, level)
      ensures Ready(mem, r, 4, va, t, prior)
    {
      NextReady(mem, tabs, r, va, x, t, prior);
      EnsureTable(ent, r, va, x);
      q := Frame(Word(mem, ent));
      assert TabOk(tabs, q);
      TableBitsIs(Word(mem, ent));
      EntryPtrIs(q, va, level);
      ptr := EntryPtr(TableBits(Word(mem, ent)), va, level);
    }

    /** The two upper levels of make_entry (modules/vmemory/vmemory.c:126-146) and the address of the page
        directory entry. */
    method MakeDirectory(va: nat, ghost r: nat, ghost t: nat, ghost prior: nat) returns (pde: nat, ghost x: nat)
      requires Valid() && Selected(r) && va < LINEAR && 1 <= t <= 2 && Ready(mem, r, 4, va, t, prior)
      requires Top() + 2 * TABLE_COST <= PHYS
      modifies this`mem, this`tabs, heap
      ensures Valid() && Top() <= old(Top()) + 2 * TABLE_COST
      ensures Kept(old(mem), old(tabs), mem, tabs, r, va, 3)
      ensures At(mem, tabs, r, va, x) && tabs[x].level == 2 && pde == x + 8 * Index(va, 2)
      ensures Ready(mem, r, 4, va, t, prior)
    {
      ghost var m, ts := mem, tabs;
      RootReady(mem, tabs, r, va, t, prior);
      EntryPtrIs(handles[cur], va, 4);
      var pml4e := EntryPtr(handles[cur], va, 4);
      var pdpte, x3 := Descend(pml4e, va, 3, r, r, t, prior);
      ghost var m1, ts1 := mem, tabs;
      pde, x := Descend(pdpte, va, 2, r, x3, t, prior);
      KeptTwice(m, ts, m1, ts1, mem, tabs, r, va, 4, 3);
    }

    /** make_entry (modules/vmemory/vmemory.c:124-168). `m1` is the memory before the size bit is set on a 2 MB
        entry; nothing else separates it from the final memory. */
    method MakeEntry(va: nat, pageSize: nat, ghost r: nat, ghost prior: nat)
        returns (ent: nat, ghost x: nat, ghost m1: Mem)
      requires Valid() && Selected(r) && va < LINEAR && (pageSize == PAGE || pageSize == PAGE2)
      requires Ready(mem, r, 4, va, LevelOf(pageSize), prior) && Top() + 3 * TABLE_COST <= PHYS
      modifies this`mem, this`tabs, heap
      ensures ValidWith(m1) && Top() <= old(Top()) + 3 * TABLE_COST
      ensures Kept(old(mem), old(tabs), m1, tabs, r, va, LevelOf(pageSize) + 1)
      ensures At(m1, tabs, r, va, x) && tabs[x].level == LevelOf(pageSize) && ent == x + 8 * Index(va, tabs[x].level)
      ensures Ready(m1, x, tabs[x].level, va, tabs[x].level, prior)
      ensures mem == if pageSize == PAGE2 then m1[ent := Or(Word(m1, ent), PSIZE)] else m1
    {
      ghost var t := LevelOf(pageSize);
      var pde, x2 := MakeDirectory(va, r, t, prior);
      m1 := mem;
      if pageSize == PAGE2 {
        NextReady(mem, tabs, r, va, x2, 2, prior);
        mem := mem[pde := Or(Word(mem, pde), PSIZE)];
        return pde, x2, m1;
      }
      ent, x := DescendToPte(pde, va, r, x2, prior, old(mem), old(tabs));
      m1 := mem;
    }

    /** The lowest level of make_entry (modules/vmemory/vmemory.c:155-167). */
    method DescendToPte(pde: nat, va: nat, ghost r: nat, ghost x2: nat, ghost prior: nat, ghost m0: Mem,
        ghost ts0: Tabs)
      returns (pte: nat, ghost x: nat)
      requires Valid() && At(mem, tabs, r, va, x2) && va < LINEAR && tabs[x2].level == 2 && pde == x2 + 8 * Index(va, 2)
      requires Ready(mem, r, 4, va, 1, prior) && Top() + TABLE_COST <= PHYS
      requires Kept(m0, ts0, mem, tabs, r, va, 3)
      modifies this`mem, this`tabs, heap
      ensures Valid() && Top() <= old(Top()) + TABLE_COST
      ensures Kept(m0, ts0, mem, tabs, r, va, 2)
      ensures At(mem, tabs, r, va, x) && tabs[x].level == 1 && pte == x + 8 * Index(va, 1)
          && Ready(mem, x, 1, va, 1, prior)
    {
      pte, x := Descend(pde, va, 1, r, x2, 1, prior);
      KeptTwice(m0, ts0, old(mem), old(tabs), mem, tabs, r, va, 3, 2);
      NextReady(mem, tabs, r, va, x, 1, prior);
    }

    /** MAP_PAGE (modules/vmemory/vmemory.c:199-208) on an entry that holds `prior`: fails exactly when the page is
        already translated; otherwise the address and the flags are OR-ed into what was there. By `MixedWalk` the page
        is then translated to its frame exactly if the old address bits are among the new ones. */
    method MapPage(va: nat, pa: nat, ghost r: nat, ghost prior: nat) returns (ok: bool)
      requires Valid() && Selected(r) && va < LINEAR && pa % PAGE == 0 && pa < PHYS
      requires Ready(mem, r, 4, va, 1, prior) && Top() + 3 * TABLE_COST <= PHYS
      modifies this`mem, this`tabs, heap
      ensures Valid() && Top() <= old(Top()) + 3 * TABLE_COST && Extends(old(tabs), tabs)
      ensures (ok <==> Walk(old(mem), r, va).None?) && (ok <==> !Present(prior))
      ensures ok ==> Remapped(old(mem), mem, old(tabs), r, va, 1, Or(prior, pa + 3))
      ensures ok ==> ReadyElsewhere(old(mem), mem, r, va, 1)
      ensures !ok ==> SameWalks(old(mem), mem, old(tabs))
    {
      var ent, x, m1 := MakeEntry(va, PAGE, r, prior);
      Occupancy(old(mem), old(tabs), m1, tabs, r, va, x, ent, prior);
      var present := IsPresent(ent);
      if present {
        return false;
      }
      FillSmall(ent, pa, r, va, x, prior, old(mem), old(tabs));
      return true;
    }

    /** SET_PTE_PHYSADDR and the flags, on the entry that make_entry returned. */
    method FillSmall(ent: nat, pa: nat, ghost r: nat, ghost va: nat, ghost x: nat, ghost prior: nat, ghost m0: Mem,
        ghost ts0: Tabs)
      requires Valid() && Kept(m0, ts0, mem, tabs, r, va, 2) && At(mem, tabs, r, va, x) && va < LINEAR
      requires tabs[x].level == 1 && ent == x + 8 * Index(va, tabs[x].level) && Word(mem, ent) == prior < WORDS
      requires pa % PAGE == 0 && pa < PHYS
      modifies this`mem
      ensures Valid() && Remapped(m0, mem, ts0, r, va, 1, Or(prior, pa + 3)) && ReadyElsewhere(m0, mem, r, va, 1)
    {
      SmallInstalled(m0, ts0, mem, tabs, r, va, x, ent, prior, pa);
      MixSmall(prior, pa);
      ghost var m1 := mem;
      mem := mem[ent := SetBits(Word(mem, ent), pa)];
      mem := mem[ent := Or(Word(mem, ent), Or(PRESENT, CANWRITE))];
      assert mem == m1[ent := Or(prior, pa + 3)];
    }

    /** MAP_PAGE2 (modules/vmemory/vmemory.c:209-218). The processor ignores the low 21 address bits of the entry, so
        what gets mapped is the 2 MB frame around `pa`. */
    method MapPage2(va: nat, pa: nat, ghost r: nat, ghost prior: nat) returns (ok: bool)
      requires Valid() && Selected(r) && va < LINEAR && pa % PAGE == 0 && pa < PHYS
      requires Ready(mem, r, 4, va, 2, prior) && Top() + 3 * TABLE_COST <= PHYS
      modifies this`mem, this`tabs, heap
      ensures Valid() && Top() <= old(Top()) + 3 * TABLE_COST && Extends(old(tabs), tabs)
      ensures (ok <==> Walk(old(mem), r, va).None?) && (ok <==> !Present(prior))
      ensures ok ==> Remapped(old(mem), mem, old(tabs), r, va, 2, Or(prior, pa + 0x83))
      ensures ok ==> ReadyElsewhere(old(mem), mem, r, va, 2)
      ensures !ok ==> SameWalks(old(mem), mem, old(tabs))
    {
      var ent, x, m1 := MakeEntry(va, PAGE2, r, prior);
      Occupancy(old(mem), old(tabs), m1, tabs, r, va, x, ent, prior);
      SizeBit(m1, ent);
      var present := IsPresent(ent);
      if present {
        return false;
      }
      FillLarge(ent, pa, r, va, x, prior, m1, old(mem), old(tabs));
      return true;
    }

    /** SET_PDE_PHYSADDR and the flags, on the entry that make_entry returned with its size bit set. */
    method FillLarge(ent: nat, pa: nat, ghost r: nat, ghost va: nat, ghost x: nat, ghost prior: nat,
                     ghost m1: Mem, ghost m0: Mem, ghost ts0: Tabs)
      requires ValidWith(m1) && Kept(m0, ts0, m1, tabs, r, va, 3) && At(m1, tabs, r, va, x) && va < LINEAR
      requires tabs[x].level == 2 && ent == x + 8 * Index(va, tabs[x].level)
      requires Word(m1, ent) == prior < WORDS && !Present(prior) && mem == m1[ent := Or(prior, PSIZE)]
      requires pa % PAGE == 0 && pa < PHYS
      modifies this`mem
      ensures Valid() && Remapped(m0, mem, ts0, r, va, 2, Or(prior, pa + 0x83)) && ReadyElsewhere(m0, mem, r, va, 2)
    {
      LargeInstalled(m0, ts0, m1, tabs, r, va, x, ent, prior, pa);
      MixLarge(prior, pa);
      mem := mem[ent := SetBits(Word(mem, ent), pa)];
      mem := mem[ent := Or(Word(mem, ent), Or(PRESENT, CANWRITE))];
      assert mem == m1[ent := Or(prior, pa + 0x83)];
    }

    /** The first `j` writes of the job have been done; none of their addresses was translated before. */
    ghost predicate Running(q: Job, j: nat)
      reads this, heap
    {
      var ready := Valid() && Selected(q.r) && q.r in q.ts0 && q.ts0[q.r].level == 4 && Extends(q.ts0, tabs)
                   && Separate(q.ws) && Linear(q.ws);
      ready && j <= |q.ws| == |q.olds| && Applied(q.m0, mem, q.ts0, q.r, Mixed(q.ws, q.olds)[..j])
        && Unoccupied(q.m0, q.r, q.ws, j)
    }

    /** The same, and the entries of the others are still fit for them. */
    ghost predicate Ongoing(q: Job, j: nat)
      reads this, heap
    {
      Running(q, j) && ReadyFrom(mem, q.r, q.ws, q.olds, j)
    }

    ghost predicate Room(n: nat)
      reads heap
    {
      Roomy(Top(), n)
    }

    /** MAP_PAGE or MAP_PAGE2 as write `j` of the plan, with `left` pages to go. */
    method PutPage(va: nat, pa: nat, large: bool, ghost left: nat, ghost q: Job, ghost j: nat) returns (ok: bool)
      requires Ongoing(q, j) && j < |q.ws| && q.ws[j] == Write(va, large, LeafWord(pa, large))
      requires pa % PAGE == 0 && pa < PHYS && left > 0 && Room(left)
      modifies this`mem, this`tabs, heap
      ensures Room(left - 1)
      ensures ok ==> Ongoing(q, j + 1)
      ensures !ok ==> Running(q, j) && Walk(q.m0, q.r, va).Some?
    {
      ghost var m1, ts1 := mem, tabs;
      MixedSeparate(q.ws, q.olds);
      assert LinearAt(q.ws, j);
      NextUntouched(q.m0, m1, q.ts0, q.r, Mixed(q.ws, q.olds), j);
      assert FitAt(mem, q.r, q.ws, q.olds, j);
      if large {
        ok := MapPage2(va, pa, q.r, q.olds[j]);
      } else {
        ok := MapPage(va, pa, q.r, q.olds[j]);
      }
      ExtendsMore(q.ts0, ts1, tabs, q.r);
      if ok {
        PutDone(q.m0, q.ts0, m1, ts1, mem, q.r, q.ws, q.olds, j);
      } else {
        AppliedSame(q.m0, q.ts0, m1, ts1, mem, q.r, Mixed(q.ws, q.olds)[..j]);
      }
    }

    /** A block of `c` pages of one size, of which `i` are done, with `n` pages still to be mapped. */
    ghost predicate InBlock(q: Job, k: Stretch, i: nat, va: nat, pa: nat, n: nat)
      reads this, heap
    {
      var sofar := Ongoing(q, k.at + i) && Room(n) && Block(q.ws, k.at, k.c, k.va, k.pa, k.large);
      && sofar && i <= k.c
      && va == k.va + k.Offset(i) && pa == k.pa + k.Offset(i) && k.pa % PAGE == 0 && pa + PAGE * n <= PHYS
    }

    ghost predicate Stopped(q: Job, j: nat)
      reads this, heap
    {
      Running(q, j) && j < |q.ws| && Walk(q.m0, q.r, q.ws[j].va).Some?
    }

    /** The body of any of the three loops of map_phys. */
    method PutNext(va: nat, pa: nat, large: bool, n: nat, ghost q: Job, ghost k: Stretch, ghost i: nat)
        returns (ok: bool)
      requires InBlock(q, k, i, va, pa, n) && i < k.c && large == k.large && (if large then 512 else 1) <= n
      modifies this`mem, this`tabs, heap
      ensures ok ==> if large then InBlock(q, k, i + 1, va + PAGE2, pa + PAGE2, n - 512)
                     else InBlock(q, k, i + 1, va + PAGE, pa + PAGE, n - 1)
      ensures !ok ==> Stopped(q, k.at + i)
    {
      NextWrite(q.ws, k.at, k.c, k.va, k.pa, k.large, i, va, pa);
      ok := PutPage(va, pa, large, n, q, k.at + i);
    }

    /** modules/vmemory/vmemory.c:286-287. */
    method FirstLoop(va0: nat, pa0: nat, n0: nat, ghost q: Job, ghost k: Stretch)
      returns (ok: bool, va: nat, pa: nat, n: nat, ghost i: nat)
      requires InBlock(q, k, 0, va0, pa0, n0) && !k.large && k.c == FirstPages(va0, pa0, n0)
      modifies this`mem, this`tabs, heap
      ensures ok ==> i == k.c && n == n0 - k.c && InBlock(q, k, k.c, va, pa, n)
      ensures !ok ==> i < k.c && Stopped(q, k.at + i)
    {
      va, pa, n, i := va0, pa0, n0, 0;
      while n > 0 && pa % PAGE2 > 0 && va % PAGE2 > 0
        invariant InBlock(q, k, i, va, pa, n) && n == n0 - i
      {
        FirstPagesAt(va0, pa0, n0, i, va, pa, n);
        ok := PutNext(va, pa, false, n, q, k, i);
        if !ok {
          return;
        }
        n, va, pa, i := n - 1, va + PAGE, pa + PAGE, i + 1;
      }
      FirstPagesAt(va0, pa0, n0, i, va, pa, n);
      ok := true;
    }

    /** modules/vmemory/vmemory.c:288-289. */
    method LargeLoop(va1: nat, pa1: nat, n1: nat, ghost q: Job, ghost k: Stretch)
      returns (ok: bool, va: nat, pa: nat, n: nat, ghost i: nat)
      requires InBlock(q, k, 0, va1, pa1, n1) && k.large && 512 * k.c <= n1 < 512 * k.c + 512
      modifies this`mem, this`tabs, heap
      ensures ok ==> i == k.c && n == n1 - 512 * k.c && InBlock(q, k, k.c, va, pa, n)
      ensures !ok ==> i < k.c && Stopped(q, k.at + i)
    {
      va, pa, n, i := va1, pa1, n1, 0;
      while n >= 512
        invariant InBlock(q, k, i, va, pa, n) && n == n1 - 512 * i
      {
        ok := PutNext(va, pa, true, n, q, k, i);
        if !ok {
          return;
        }
        n, va, pa, i := n - 512, va + PAGE2, pa + PAGE2, i + 1;
      }
      ok := true;
    }

    /** modules/vmemory/vmemory.c:290-291. */
    method LastLoop(va2: nat, pa2: nat, n2: nat, ghost q: Job, ghost k: Stretch) returns (ok: bool, ghost i: nat)
      requires InBlock(q, k, 0, va2, pa2, n2) && !k.large && k.c == n2
      modifies this`mem, this`tabs, heap
      ensures ok ==> i == k.c && Ongoing(q, k.at + k.c)
      ensures !ok ==> i < k.c && Stopped(q, k.at + i)
    {
      var va: nat, pa: nat, n: nat := va2, pa2, n2;
      i := 0;
      while n > 0
        invariant InBlock(q, k, i, va, pa, n) && n == n2 - i
      {
        ok := PutNext(va, pa, false, n, q, k, i);
        if !ok {
          return;
        }
        n, va, pa, i := n - 1, va + PAGE, pa + PAGE, i + 1;
      }
      ok := true;
    }

    /** map_phys (modules/vmemory/vmemory.c:279-293) for addresses below the 48-bit limit, on entries of the size to be
        mapped, present or not, whatever they hold; `MapClash` and `TableOverLarge` show what other entries lead to. The
        call does the first `j` writes of its plan and nothing else, all of them exactly if none of their addresses was
        translated. If the large pages are aligned, that is the range up to where it stopped; otherwise a call that
        succeeds mistranslates. `BytesOutcome` says what that comes to byte by byte, for sizes in bytes too. */
    method MapPhys(va0: nat, pa0: nat, usize: nat, inBytes: bool, ghost r: nat) returns (status: Status, ghost j: nat)
      requires Valid() && Selected(r) && va0 % PAGE == 0 && pa0 % PAGE == 0
      requires var n := Units(usize, inBytes);
        && va0 + PAGE * n <= LINEAR && pa0 + PAGE * n <= PHYS && !Clash(va0, pa0, n)
        && PlanReady(mem, r, va0, pa0, n) && Room(n)
      modifies this`mem, this`tabs, heap
      ensures Valid() && Selected(r) && Extends(old(tabs), tabs) && r in old(tabs) && old(tabs)[r].level == 4
      ensures MapOutcome(old(mem), mem, old(tabs), r, va0, pa0, Units(usize, inBytes), status, j)
      ensures BytesOutcome(old(mem), mem, old(tabs), r, va0, pa0, if inBytes then usize else PAGE * usize, status)
    {
      var n0 := usize;
      if inBytes {
        n0 := (n0 + (PAGE - 1)) / PAGE;
      }
      ghost var m0, ts0 := mem, tabs;
      status, j := MapPages(va0, pa0, n0, r);
      UnitsLeast(usize);
      MappedBytes(m0, mem, ts0, r, va0, pa0, n0, status, j, if inBytes then usize else PAGE * usize);
    }

    method MapPages(va0: nat, pa0: nat, n0: nat, ghost r: nat) returns (status: Status, ghost j: nat)
      requires Valid() && Selected(r) && va0 % PAGE == 0 && pa0 % PAGE == 0
      requires va0 + PAGE * n0 <= LINEAR && pa0 + PAGE * n0 <= PHYS && !Clash(va0, pa0, n0)
      requires PlanReady(mem, r, va0, pa0, n0) && Room(n0)
      modifies this`mem, this`tabs, heap
      ensures Valid() && Selected(r) && Extends(old(tabs), tabs) && r in old(tabs) && old(tabs)[r].level == 4
      ensures MapOutcome(old(mem), mem, old(tabs), r, va0, pa0, n0, status, j)
    {
      ghost var ws := Writes(va0, pa0, n0);
      ghost var q := Job(mem, tabs, r, ws, OldWords(mem, r, ws));
      WritesSeparate(va0, pa0, n0);
      WritesLinear(va0, pa0, n0);
      AppliedNone(mem, tabs, r);
      ghost var z := SplitOf(va0, pa0, n0);
      PlanBlocks(va0, pa0, n0, z);
      status, j := RunBlocks(va0, pa0, n0, z, q);
      MapMeaning(q.m0, mem, q.ts0, r, va0, pa0, n0, status, j);
    }

    /** The three loops one after the other. */
    method RunBlocks(va0: nat, pa0: nat, n0: nat, ghost z: Split, ghost q: Job) returns (status: Status, ghost j: nat)
      requires Ongoing(q, 0) && SplitOk(va0, pa0, n0, z) && ThreeBlocks(q.ws, va0, pa0, z)
      requires pa0 % PAGE == 0 && pa0 + PAGE * n0 <= PHYS && Room(n0)
      modifies this`mem, this`tabs, heap
      ensures if status == Ok then j == |q.ws| && Ongoing(q, j) else status == VirtOccupied && Stopped(q, j)
    {
      var ok, va, pa, n;
      ghost var i;
      ok, va, pa, n, i := FirstLoop(va0, pa0, n0, q, Stretch(0, z.k, va0, pa0, false));
      if !ok { return VirtOccupied, i; }
      assert va == z.v1 && pa == z.p1;
      status, j := RunRest(va, pa, n, z, q);
    }

    method RunRest(va1: nat, pa1: nat, n1: nat, ghost z: Split, ghost q: Job) returns (status: Status, ghost j: nat)
      requires |q.ws| == z.k + z.l + z.c && n1 == 512 * z.l + z.c && z.c < 512
      requires InBlock(q, Stretch(z.k, z.l, z.v1, z.p1, true), 0, va1, pa1, n1)
      requires Block(q.ws, z.k + z.l, z.c, z.v2, z.p2, false) && z.p2 % PAGE == 0
      requires z.v2 == z.v1 + PAGE2 * z.l && z.p2 == z.p1 + PAGE2 * z.l
      modifies this`mem, this`tabs, heap
      ensures if status == Ok then j == |q.ws| && Ongoing(q, j) else status == VirtOccupied && Stopped(q, j)
    {
      var ok, va, pa, n;
      ghost var i;
      ok, va, pa, n, i := LargeLoop(va1, pa1, n1, q, Stretch(z.k, z.l, z.v1, z.p1, true));
      if !ok { return VirtOccupied, z.k + i; }
      status, j := RunLast(va, pa, n, q, Stretch(z.k + z.l, z.c, z.v2, z.p2, false));
    }

    method RunLast(va2: nat, pa2: nat, n2: nat, ghost q: Job, ghost k: Stretch) returns (status: Status, ghost j: nat)
      requires |q.ws| == k.at + k.c && InBlock(q, k, 0, va2, pa2, n2) && !k.large && k.c == n2
      modifies this`mem, this`tabs, heap
      ensures if status == Ok then j == |q.ws| && Ongoing(q, j) else status == VirtOccupied && Stopped(q, j)
    {
      var ok, i := LastLoop(va2, pa2, n2, q, k);
      if !ok { return VirtOccupied, k.at + i; }
      return Ok, |q.ws|;
    }

    /** map_phys on a request whose second loop starts inside a 2 MB region that the first loop has begun to fill. It
        fails. Unless one of the small pages is occupied, the size bit is set on the entry that refers to their table
        (modules/vmemory/vmemory.c:150): the whole region is translated into that table `q`, and the page mapped last no
        longer goes to its frame. */
    method MapClash(va0: nat, pa0: nat, n0: nat, ghost r: nat) returns (status: Status, ghost j: nat, ghost q: nat)
      requires Valid() && Selected(r) && va0 % PAGE == 0 && pa0 % PAGE == 0 && Clash(va0, pa0, n0)
      requires va0 + PAGE * n0 <= LINEAR && pa0 + PAGE * n0 <= PHYS && Room(n0)
      requires var ws := Smalls(va0, pa0, FirstPages(va0, pa0, n0) + 1); ReadyAll(mem, r, ws, OldWords(mem, r, ws))
      modifies this`mem, this`tabs, heap
      ensures status == VirtOccupied && Extends(old(tabs), tabs)
      ensures ClashOutcome(old(mem), mem, old(tabs), r, va0, pa0, n0, j, q)
      ensures j == FirstPages(va0, pa0, n0) ==> q in tabs && tabs[q].level == 1
    {
      ghost var k := FirstPages(va0, pa0, n0);
      ghost var ws := Smalls(va0, pa0, k + 1);
      SmallsSeparate(va0, pa0, k + 1);
      SmallBlock(va0, pa0, k + 1);
      SmallsLinear(va0, pa0, k + 1);
      ghost var job := Job(mem, tabs, r, ws, OldWords(mem, r, ws));
      status, q := VirtOccupied, 0;
      var ok, va, pa;
      ghost var v, p;
      ok, va, pa, v, p, j := FillFirst(va0, pa0, n0, k, job);
      if ok {
        ClashPages(va0, pa0, n0, k, v, p);
        ghost var m1, ts1 := mem, tabs;
        var present;
        present, q := SizeOnTable(va, r, OldWord(mem, r, 4, va, 1), v, p);
        ClashEnds(job, m1, ts1, mem, va0, pa0, n0, q, v, p, va);
      } else {
        ClashStops(job, mem, va0, pa0, n0, j);
      }
    }

    /** The first loop up to an occupied page or to its end; `v` and `p` are then the last page. */
    method FillFirst(va0: nat, pa0: nat, n0: nat, ghost k: nat, ghost q: Job)
      returns (ok: bool, va: nat, pa: nat, ghost v: nat, ghost p: nat, ghost j: nat)
      requires Valid() && Selected(q.r) && pa0 % PAGE == 0 && k == FirstPages(va0, pa0, n0) && 0 < k < n0
      requires va0 + PAGE * n0 <= LINEAR && pa0 + PAGE * n0 <= PHYS && Room(n0)
      requires q.m0 == mem && q.ts0 == tabs && |q.ws| == k + 1 && Block(q.ws, 0, k + 1, va0, pa0, false)
      requires Separate(q.ws) && Linear(q.ws) && ReadyAll(mem, q.r, q.ws, q.olds)
      modifies this`mem, this`tabs, heap
      ensures Running(q, j) && (if ok then j == k else j < k && Stopped(q, j))
      ensures ok ==> Room(1) && va == va0 + PAGE * k < LINEAR && v + PAGE == va && p - v == pa0 - va0
      ensures ok ==> Ready(mem, q.r, 4, va, 1, OldWord(mem, q.r, 4, va, 1))
      ensures ok ==> FindLeaf(mem, q.r, 4, v).Some? && FindLeaf(mem, q.r, 4, v).value.level == 1
    {
      AppliedNone(mem, tabs, q.r);
      BlockPrefix(q.ws, 0, k + 1, va0, pa0, false, k);
      var n;
      v, p := 0, 0;
      ok, va, pa, n, j := FirstLoop(va0, pa0, n0, q, Stretch(0, k, va0, pa0, false));
      if ok {
        v, p := va - PAGE, pa - PAGE;
        NextWrite(q.ws, 0, k + 1, va0, pa0, false, k - 1, v, p);
        NextWrite(q.ws, 0, k + 1, va0, pa0, false, k, va, pa);
        LastMapped(q.m0, mem, q.ts0, q.r, k, q.ws, q.olds, v, p);
        assert FitAt(mem, q.r, q.ws, q.olds, k);
        ReadyOld(mem, q.r, 4, va, 1, q.olds[k]);
      }
    }

    /** make_entry for a 2 MB page where a table is, and the test for a present entry. */
    method SizeOnTable(va: nat, ghost r: nat, ghost prior: nat, ghost v: nat, ghost p: nat)
        returns (present: bool, ghost q: nat)
      requires Valid() && Selected(r) && va < LINEAR && Ready(mem, r, 4, va, 1, prior) && Room(1)
      requires v < LINEAR && SameSpan(2, va, v) && FindLeaf(mem, r, 4, v).Some?
          && FindLeaf(mem, r, 4, v).value.level == 1
      requires p % PAGE == 0 && v % PAGE2 != p % PAGE2
      modifies this`mem, this`tabs, heap
      ensures present && Walk(mem, r, v) != Some(p) && Extends(old(tabs), tabs)
      ensures Remapped(old(mem), mem, old(tabs), r, va, 2, Or(q + 3, PSIZE)) && q in tabs && tabs[q].level == 1
    {
      var pde, x := MakeDirectory(va, r, 1, prior);
      assert FindLeaf(mem, r, 4, v) == FindLeaf(old(mem), r, 4, v);
      ghost var m1 := mem;
      mem := mem[pde := Or(Word(mem, pde), PSIZE)];
      q := TableAsPage(m1, tabs, r, va, v, x, pde, p);
      RemappedAfter(old(mem), old(tabs), m1, tabs, mem, r, va, Or(q + 3, PSIZE));
      present := IsPresent(pde);
    }

    /** make_entry for a 4 KB page where a 2 MB page has been unmapped (modules/vmemory/vmemory.c:155-163): the entry
        keeps its size bit, so the new table is not used as one, and the whole 2 MB region is translated to an address
        mixed from both. */
    method TableOverLarge(pde: nat, va: nat, ghost r: nat, ghost x: nat) returns (table: nat)
      requires Valid() && At(mem, tabs, r, va, x) && va < LINEAR && tabs[x].level == 2 && pde == x + 8 * Index(va, 2)
      requires !Present(Word(mem, pde)) && Large(Word(mem, pde)) && Top() + TABLE_COST <= PHYS
      modifies this`mem, heap
      ensures table !in tabs && table % PAGE == 0
          && Remapped(old(mem), mem, tabs, r, va, 2, Or(old(Word(mem, pde)), table + 3))
      ensures FindLeaf(mem, r, 4, va).Some? && FindLeaf(mem, r, 4, va).value.level == 2
    {
      ghost var m, w := mem, Word(mem, pde);
      assert w == Entry(mem, x, Index(va, 2));
      var present := IsPresent(pde);
      assert !present;
      table := NewTable();
      ghost var m1 := mem;
      assert Entry(m1, x, Index(va, 2)) == w;
      mem := mem[pde := SetBits(Word(mem, pde), table)];
      mem := mem[pde := Or(Word(mem, pde), Or(PRESENT, CANWRITE))];
      MixSmall(w, table);
      assert mem == m1[pde := Or(w, table + 3)];
      TableMixed(m, m1, tabs, r, va, x, pde, table);
      assert RemappedAt(m, mem, r, va, 2, Or(w, table + 3), r, va);
    }

    /** One level of get_entry: the entry of `va` in the table that the present entry `ent` of `x` refers to. */
    method Follow(ent: nat, va: nat, level: nat, ghost r: nat, ghost x: nat) returns (ptr: nat, ghost q: nat)
      requires Valid() && At(mem, tabs, r, va, x) && 1 <= level && tabs[x].level == level + 1
      requires ent == x + 8 * Index(va, level + 1) && Present(Word(mem, ent)) && !Leaf(level + 1, Word(mem, ent))
      ensures At(mem, tabs, r, va, q) && tabs[q].level == level && ptr == q + 8 * Index(va, level)
    {
      assert Word(mem, ent) == Entry(mem, x, Index(va, level + 1));
      Followed(mem, tabs, r, va, x);
      q := Frame(Word(mem, ent));
      assert TabOk(tabs, q);
      TableBitsIs(Word(mem, ent));
      EntryPtrIs(q, va, level);
      ptr := EntryPtr(TableBits(Word(mem, ent)), va, level);
    }

    /** get_entry (modules/vmemory/vmemory.c:173-188): the entry in the table where the walk of the address ends, NULL
        exactly if it does not get that far. A 4 KB entry is returned whether present or not; by `EntryIsLeaf` the entry
        is the leaf of the address, if it has one. */
    method GetEntry(va: nat, ghost r: nat) returns (found: bool, ent: nat, ghost x: nat)
      requires Valid() && Selected(r) && va < LINEAR
      ensures found <==> exists q :: Ends(mem, tabs, r, va, q)
      ensures found ==> Ends(mem, tabs, r, va, x) && ent == x + 8 * Index(va, tabs[x].level)
      ensures found <==> EntryOf(mem, r, 4, va).Some?
      ensures found ==> EntryOf(mem, r, 4, va) == Some(Found(tabs[x].level, Word(mem, ent)))
    {
      found, ent, x := WalkEntry(va, r);
      EntryExactly(mem, tabs, r, va);
    }

    /** The walk itself. */
    method WalkEntry(va: nat, ghost r: nat) returns (found: bool, ent: nat, ghost x: nat)
      requires Valid() && Selected(r) && va < LINEAR
      ensures found ==> Ends(mem, tabs, r, va, x) && ent == x + 8 * Index(va, tabs[x].level)
      ensures found <==> EntryOf(mem, r, 4, va).Some?
    {
      found := false;
      assert TabOk(tabs, r);
      x := r;
      EntryPtrIs(r, va, 4);
      ent := EntryPtr(handles[cur], va, 4);
      UpperEntry(mem, tabs, r, va, r, ent);
      var present := IsPresent(ent);
      if !present { return; }
      ent, x := Follow(ent, va, 3, r, x);
      UpperEntry(mem, tabs, r, va, x, ent);
      present := IsPresent(ent);
      if !present { return; }
      ent, x := Follow(ent, va, 2, r, x);
      found, ent, x := FromDirectory(ent, va, r, x);
    }

    /** The lower half of get_entry, from the page directory entry on (modules/vmemory/vmemory.c:182-187). */
    method FromDirectory(pde: nat, va: nat, ghost r: nat, ghost x2: nat) returns (found: bool, ent: nat, ghost x: nat)
      requires Valid() && At(mem, tabs, r, va, x2) && tabs[x2].level == 2 && pde == x2 + 8 * Index(va, 2)
      ensures found ==> Ends(mem, tabs, r, va, x) && ent == x + 8 * Index(va, tabs[x].level)
      ensures found <==> EntryOf(mem, r, 4, va).Some?
    {
      ent, x := pde, x2;
      EntryFrom(mem, tabs, r, va, x2);
      assert Word(mem, pde) == Entry(mem, x2, Index(va, 2));
      found := IsPresent(pde);
      if !found { return; }
      FlagsAre(Word(mem, pde));
      if And(Word(mem, pde), PSIZE) != 0 { return; }
      ent, x := Follow(pde, va, 1, r, x2);
      EntryFrom(mem, tabs, r, va, x);
    }

    /** UNMAP_PAGE and UNMAP_PAGE2 (modules/vmemory/vmemory.c:235-250); they differ only in the size handed to
        allocator_free. The whole leaf goes, whatever its size, and an entry that is not present is freed all the
        same. */
    method UnmapOne(va: nat, size: nat, ghost r: nat) returns (ok: bool, ghost level: nat)
      requires Valid() && Selected(r) && va < LINEAR
      modifies this`mem, this`freed
      ensures Valid() && (ok <==> EntryOf(old(mem), r, 4, va).Some?)
      ensures ok <==> exists q :: Ends(old(mem), tabs, r, va, q)
      ensures ok ==> level == EntryOf(old(mem), r, 4, va).value.level && Remapped(old(mem), mem, tabs, r, va, level, 0)
      ensures ok ==> freed == old(freed) + [(FreedAddr(EntryOf(old(mem), r, 4, va).value, va), size)]
      ensures ok ==> Ready(mem, r, 4, va, level, ClearPresent(EntryOf(old(mem), r, 4, va).value.word))
      ensures !ok ==> mem == old(mem) && freed == old(freed)
    {
      var found, ent, x := GetEntry(va, r);
      if !found { return false, 0; }
      level := tabs[x].level;
      EntryFound(mem, tabs, r, va, x, ent);
      freed := freed + [(PdePhysAddr(va, Word(mem, ent)), size)];
      ClearEntry(ent, va, r, x);
      ok := true;
    }

    /** Clearing the present bit of an entry. */
    method ClearEntry(ent: nat, va: nat, ghost r: nat, ghost x: nat)
      requires Valid() && va < LINEAR && Ends(mem, tabs, r, va, x) && ent == x + 8 * Index(va, tabs[x].level)
      modifies this`mem
      ensures Valid() && Remapped(old(mem), mem, tabs, r, va, tabs[x].level, 0)
      ensures Ready(mem, r, 4, va, tabs[x].level, ClearPresent(old(Word(mem, ent))))
    {
      UnmapWord(mem, tabs, r, va, x, ent);
      mem := mem[ent := ClearPresent(Word(mem, ent))];
    }

    /** The trace `t` has been left since memory `m0`, one entry for each of the first addresses of `ws`. */
    ghost predicate Erasing(m0: Mem, r: nat, ws: seq<Write>, t: Trace, fr0: seq<(nat, nat)>)
      reads this, heap
    {
      var sofar := Valid() && Selected(r) && Linear(ws) && TraceOk(m0, tabs, r, ws, t)
        && Applied(m0, mem, tabs, r, t.es);
      sofar && t.ms[|t.es|] == mem && freed == fr0 + t.fr
    }

    /** The trace ends before the addresses do, where there is no entry. */
    ghost predicate NoEntry(m0: Mem, r: nat, ws: seq<Write>, t: Trace)
      reads this
    {
      |t.es| < |ws|
      && var v := ws[|t.es|].va;
         EntryOf(mem, r, 4, v).None? && After(t.es, FindLeaf(m0, r, 4, v), v).None?
    }

    /** The body of any of the three loops of unmap. */
    method UnmapNext(va: nat, size: nat, ghost m0: Mem, ghost r: nat, ghost ws: seq<Write>, ghost t: Trace,
        ghost fr0: seq<(nat, nat)>)
      returns (ok: bool, ghost t': Trace)
      requires Erasing(m0, r, ws, t, fr0) && |t.es| < |ws| && ws[|t.es|].va == va && size == Span(ws[|t.es|].Level())
      modifies this`mem, this`freed
      ensures Erasing(m0, r, ws, t', fr0)
      ensures if ok then |t'.es| == |t.es| + 1 else t' == t && NoEntry(m0, r, ws, t)
    {
      ghost var m1 := mem;
      assert LinearAt(ws, |t.es|);
      assert AppliedAt(m0, m1, r, t.es, r, va);
      EntryIsLeaf(mem, tabs, r, va);
      ghost var l;
      ok, l := UnmapOne(va, size, r);
      t' := t;
      if ok {
        ghost var f := EntryOf(m1, r, 4, va).value;
        AppliedStep(m0, tabs, m1, tabs, mem, r, t.es, Write(va, l == 2, 0));
        TraceMore(m0, tabs, r, ws, t, f, mem);
        t' := More(t, Write(va, l == 2, 0), (FreedAddr(f, va), size), mem);
      }
    }

    /** modules/vmemory/vmemory.c:300-301. */
    method UnmapFirst(va0: nat, n0: nat, ghost k: nat, ghost m0: Mem, ghost r: nat, ghost ws: seq<Write>,
        ghost t0: Trace, ghost fr0: seq<(nat, nat)>) returns (ok: bool, va: nat, n: nat, ghost t: Trace)
      requires Erasing(m0, r, ws, t0, fr0) && t0.es == [] && k == FirstPages(va0, va0, n0)
          && Block(ws, 0, k, va0, va0, false)
      modifies this`mem, this`freed
      ensures Erasing(m0, r, ws, t, fr0)
      ensures ok ==> |t.es| == k && n == n0 - k && va == va0 + PAGE * k
      ensures !ok ==> NoEntry(m0, r, ws, t)
    {
      va, n, t := va0, n0, t0;
      while n > 0 && va % PAGE2 > 0
        invariant Erasing(m0, r, ws, t, fr0) && n == n0 - |t.es| && va == va0 + PAGE * |t.es| && |t.es| <= k
      {
        FirstPagesAt(va0, va0, n0, |t.es|, va, va, n);
        NextAddress(ws, 0, k, va0, va0, false, |t.es|, va);
        ok, t := UnmapNext(va, PAGE, m0, r, ws, t, fr0);
        if !ok {
          return;
        }
        n, va := n - 1, va + PAGE;
      }
      FirstPagesAt(va0, va0, n0, |t.es|, va, va, n);
      ok := true;
    }

    /** modules/vmemory/vmemory.c:302-303. */
    method UnmapLarge(va1: nat, n1: nat, ghost l: nat, ghost m0: Mem, ghost r: nat, ghost ws: seq<Write>,
        ghost t0: Trace, ghost fr0: seq<(nat, nat)>) returns (ok: bool, va: nat, n: nat, ghost t: Trace)
      requires Erasing(m0, r, ws, t0, fr0) && 512 * l <= n1 < 512 * l + 512 && Block(ws, |t0.es|, l, va1, va1, true)
      modifies this`mem, this`freed
      ensures Erasing(m0, r, ws, t, fr0)
      ensures ok ==> |t.es| == |t0.es| + l && n == n1 - 512 * l && va == va1 + PAGE2 * l
      ensures !ok ==> NoEntry(m0, r, ws, t)
    {
      ghost var i := 0;
      va, n, t := va1, n1, t0;
      while n >= 512
        invariant Erasing(m0, r, ws, t, fr0) && 0 <= i <= l && |t.es| == |t0.es| + i && n == n1 - 512 * i
            && va == va1 + PAGE2 * i
      {
        NextAddress(ws, |t0.es|, l, va1, va1, true, i, va);
        ok, t := UnmapNext(va, PAGE2, m0, r, ws, t, fr0);
        if !ok {
          return;
        }
        n, va, i := n - 512, va + PAGE2, i + 1;
      }
      ok := true;
    }

    /** modules/vmemory/vmemory.c:304-305. */
    method UnmapLast(va2: nat, n2: nat, ghost m0: Mem, ghost r: nat, ghost ws: seq<Write>, ghost t0: Trace,
                     ghost fr0: seq<(nat, nat)>) returns (ok: bool, ghost t: Trace)
      requires Erasing(m0, r, ws, t0, fr0) && |ws| == |t0.es| + n2 && Block(ws, |t0.es|, n2, va2, va2, false)
      modifies this`mem, this`freed
      ensures Erasing(m0, r, ws, t, fr0)
      ensures if ok then |t.es| == |ws| else NoEntry(m0, r, ws, t)
    {
      ghost var i := 0;
      var va, n := va2, n2;
      t := t0;
      while n > 0
        invariant Erasing(m0, r, ws, t, fr0) && 0 <= i <= n2 && |t.es| == |t0.es| + i && n == n2 - i
            && va == va2 + PAGE * i
      {
        NextAddress(ws, |t0.es|, n2, va2, va2, false, i, va);
        ok, t := UnmapNext(va, PAGE, m0, r, ws, t, fr0);
        if !ok {
          return;
        }
        n, va, i := n - 1, va + PAGE, i + 1;
      }
      ok := true;
    }

    /** unmap (modules/vmemory/vmemory.c:295-307) on any range: step by step the entry of the next address is cleared,
        whole and whatever its size, present or not, and nothing else changes, up to an address that has none. On a
        range with leaves of the sizes unmap expects, `UnmapMapped` says that exactly the range loses its translations,
        and that the pieces freed tile what it was mapped to if that was congruent. */
    method Unmap(va0: nat, usize: nat, inBytes: bool, ghost r: nat) returns (status: Status, ghost t: Trace)
      requires Valid() && Selected(r) && va0 % PAGE == 0 && va0 + PAGE * Units(usize, inBytes) <= LINEAR
      modifies this`mem, this`freed
      ensures Valid() && Selected(r) && freed == old(freed) + t.fr && (status == Ok || status == NotMapped)
      ensures UnmapOutcome(old(mem), mem, tabs, r, va0, Units(usize, inBytes), t, status == Ok)
      ensures UnmapBytes(old(mem), mem, tabs, r, va0, if inBytes then usize else PAGE * usize, status)
    {
      status, t := UnmapUnits(va0, usize, inBytes, r);
      UnitsLeast(usize);
      UnmappedBytes(old(mem), mem, tabs, r, va0, Units(usize, inBytes), t, status,
                    if inBytes then usize else PAGE * usize);
    }

    method UnmapUnits(va0: nat, usize: nat, inBytes: bool, ghost r: nat) returns (status: Status, ghost t: Trace)
      requires Valid() && Selected(r) && va0 % PAGE == 0 && va0 + PAGE * Units(usize, inBytes) <= LINEAR
      modifies this`mem, this`freed
      ensures Valid() && Selected(r) && freed == old(freed) + t.fr && (status == Ok || status == NotMapped)
      ensures UnmapOutcome(old(mem), mem, tabs, r, va0, Units(usize, inBytes), t, status == Ok)
    {
      var n0 := usize;
      if inBytes {
        n0 := (n0 + (PAGE - 1)) / PAGE;
      }
      ghost var z := SplitOf(va0, va0, n0);
      PlanBlocks(va0, va0, n0, z);
      WritesLinear(va0, va0, n0);
      AppliedNone(mem, tabs, r);
      status, t := EraseBlocks(va0, n0, z, mem, r, Writes(va0, va0, n0), Trace([], [], [mem]), freed);
    }

    /** The three loops one after the other. */
    method EraseBlocks(va0: nat, n0: nat, ghost z: Split, ghost m0: Mem, ghost r: nat, ghost ws: seq<Write>,
        ghost t0: Trace, ghost fr0: seq<(nat, nat)>) returns (status: Status, ghost t: Trace)
      requires Erasing(m0, r, ws, t0, fr0) && t0.es == [] && SplitOk(va0, va0, n0, z) && ThreeBlocks(ws, va0, va0, z)
      modifies this`mem, this`freed
      ensures Erasing(m0, r, ws, t, fr0) && (status == Ok || status == NotMapped) && (status == Ok <==> |t.es| == |ws|)
      ensures status == NotMapped ==> NoEntry(m0, r, ws, t)
    {
      var ok, va, n;
      ok, va, n, t := UnmapFirst(va0, n0, z.k, m0, r, ws, t0, fr0);
      if !ok { return NotMapped, t; }
      assert va == z.v1 == z.p1;
      ok, va, n, t := UnmapLarge(va, n, z.l, m0, r, ws, t, fr0);
      if !ok { return NotMapped, t; }
      assert va == z.v2 == z.p2;
      ok, t := UnmapLast(va, n, m0, r, ws, t, fr0);
      status := if ok then Ok else NotMapped;
    }

    /** map_phys followed by unmap on a congruent, untranslated range: every leaf of every handle is back, and if no
        bits left in the entries were mixed in, exactly the physical range was handed to allocator_free. */
    method MapThenUnmap(va0: nat, pa0: nat, usize: nat, inBytes: bool, ghost r: nat)
      requires Valid() && Selected(r) && va0 % PAGE == 0 && pa0 % PAGE == 0 && va0 % PAGE2 == pa0 % PAGE2
      requires var n := Units(usize, inBytes);
        && va0 + PAGE * n <= LINEAR && pa0 + PAGE * n <= PHYS
        && PlanReady(mem, r, va0, pa0, n) && Room(n)
        && RangeFree(mem, r, va0, va0 + PAGE * n)
      modifies this`mem, this`tabs, this`freed, heap
      ensures Valid() && old(freed) <= freed
      ensures SameLinear(old(mem), mem, old(tabs))
      ensures Untouched(old(mem), r, va0, pa0, Units(usize, inBytes)) ==>
        Tiles(freed[|old(freed)|..], pa0, pa0 + PAGE * Units(usize, inBytes))
    {
      ghost var n, m0, ts0 := Units(usize, inBytes), mem, tabs;
      ghost var exact := Untouched(mem, r, va0, pa0, n);
      LargeAlignedExactly(va0, pa0, n);
      AlignedNoClash(va0, pa0, n);
      var s, j := MapPhys(va0, pa0, usize, inBytes, r);
      ghost var m1, ts1 := mem, tabs;
      MappedAll(m0, m1, ts0, r, va0, pa0, n, s, j, exact);
      ghost var t;
      s, t := Unmap(va0, usize, inBytes, r);
      RoundTrip(m0, m1, mem, ts0, ts1, r, va0, pa0, n, exact, t, s == Ok);
    }

    /** create_mem_hndl (modules/vmemory/vmemory.c:72-83). */
    method CreateHandle(h: nat)
      requires Valid() && Top() + TABLE_COST <= PHYS
      modifies this`mem, this`tabs, this`handles, heap
      ensures Valid() && handles.Keys == old(handles.Keys) + {h} && handles[h] !in old(tabs)
      ensures forall h' :: h' in old(handles) && h' != h ==> handles[h'] == old(handles)[h']
      ensures Extends(old(tabs), tabs) && SameWalks(old(mem), mem, old(tabs))
      ensures forall v: nat :: FindLeaf(mem, handles[h], 4, v).None?
      ensures Cleared(mem, handles[h]) && Top() <= old(Top()) + TABLE_COST
    {
      ghost var m, ts, hs := mem, tabs, handles;
      var p := NewTable();
      ghost var ts' := ts[p := Tab(4, 0, 0)];
      RootAdded(m, mem, ts, ts', p);
      assert ts'.Keys == ts.Keys + {p};
      handles := handles[h := p];
      HandleAdded(hs, ts, ts', h, p);
      tabs := ts';
    }

    /** select_mem_hndl (modules/vmemory/vmemory.c:87-94), without loading CR3. */
    method SelectHandle(h: nat)
      requires Valid() && h in handles
      modifies this`cur
      ensures Valid() && Selected(handles[h])
    {
      cur := h;
    }
  }

  /** One write of the plan done: the flat effect and the fitness of the entries behind it. */
  lemma PutDone(m0: Mem, ts0: Tabs, m1: Mem, ts1: Tabs, m2: Mem, r: nat, ws: seq<Write>, olds: seq<nat>, j: nat)
    requires Separate(ws) && Linear(ws) && j < |ws| == |olds| && Extends(ts0, ts1)
    requires Applied(m0, m1, ts0, r, Mixed(ws, olds)[..j])
    requires Unoccupied(m0, r, ws, j) && Walk(m0, r, ws[j].va).None? && ReadyFrom(m1, r, ws, olds, j)
    requires Remapped(m1, m2, ts1, r, ws[j].va, ws[j].Level(), Or(olds[j], ws[j].word))
    requires ReadyElsewhere(m1, m2, r, ws[j].va, ws[j].Level())
    ensures Applied(m0, m2, ts0, r, Mixed(ws, olds)[..j + 1]) && Unoccupied(m0, r, ws, j + 1)
        && ReadyFrom(m2, r, ws, olds, j + 1)
  {
    var mx := Mixed(ws, olds);
    AppliedStep(m0, ts0, m1, ts1, m2, r, mx[..j], mx[j]);
    assert mx[..j + 1] == mx[..j] + [mx[j]];
    ReadyStep(m1, m2, r, ws, olds, j);
  }

  /** A page mapped over `prior` is translated to its frame exactly if no old bits get mixed in. */
  lemma MixedWalk(m: Mem, m': Mem, tabs: Tabs, r: nat, w: Write, prior: nat, pa: nat)
    requires r in tabs && tabs[r].level == 4 && w.va < LINEAR && pa % PAGE == 0 && pa < PHYS
        && w.word == LeafWord(pa, w.large)
    requires Remapped(m, m', tabs, r, w.va, w.Level(), Or(prior, w.word))
    ensures Walk(m', r, w.va) == Some(LeafFrame(w.Level(), w.word) + w.va % Span(w.Level())) <==> MixOk(w, prior)
    ensures LeafFrame(w.Level(), w.word) == if w.large then pa - pa % PAGE2 else pa
  {
    assert RemappedAt(m, m', r, w.va, w.Level(), Or(prior, w.word), r, w.va);
    if w.large {
      LargeLeaf(pa);
    } else {
      SmallLeaf(pa);
    }
    MixFlags(prior, w.word);
    StaleExactly(w.Level(), prior, w.word);
  }

  /** The last page of the first loop is mapped by a lowest-level leaf. */
  lemma LastMapped(m0: Mem, m: Mem, ts0: Tabs, r: nat, k: nat, ws: seq<Write>, olds: seq<nat>, v: nat, p: nat)
    requires 0 < k <= |ws| == |olds| && Separate(ws) && r in ts0 && ts0[r].level == 4
    requires Applied(m0, m, ts0, r, Mixed(ws, olds)[..k])
    requires ws[k - 1] == Write(v, false, LeafWord(p, false)) && v < LINEAR && p % PAGE == 0 && p < PHYS
    ensures FindLeaf(m, r, 4, v).Some? && FindLeaf(m, r, 4, v).value.level == 1
  {
    OwnLeaf(m0, m, ts0, r, ws, olds, k, k - 1, LINEAR);
    SmallLeaf(p);
    MixFlags(olds[k - 1], ws[k - 1].word);
  }

  /** With the size bit on the entry of its table, an address is translated as if the table were a 2 MB page. */
  lemma TableAsPage(m: Mem, tabs: Tabs, r: nat, va: nat, v: nat, x: nat, pde: nat, p: nat) returns (q: nat)
    requires Inv(m, tabs) && At(m, tabs, r, va, x) && tabs[x].level == 2 && pde == x + 8 * Index(va, 2)
    requires va < LINEAR && v < LINEAR && SameSpan(2, va, v) && FindLeaf(m, r, 4, v).Some?
        && FindLeaf(m, r, 4, v).value.level == 1
    requires p % PAGE == 0 && v % PAGE2 != p % PAGE2
    ensures var m' := m[pde := Or(Word(m, pde), PSIZE)];
      && Present(Word(m', pde)) && Walk(m', r, v) != Some(p)
      && Remapped(m, m', tabs, r, va, 2, Or(q + 3, PSIZE))
    ensures q in tabs && tabs[q].level == 1
  {
    q := TableEntry(m, tabs, r, va, v, x);
    assert Word(m, pde) == Entry(m, x, Index(va, 2)) == q + 3;
    SizedTable(q);
    SizedElsewhere(m, tabs, r, va, v, x, Or(q + 3, PSIZE), p);
    LeafWrite(m, tabs, r, va, x, Or(q + 3, PSIZE));
  }

  lemma SizedElsewhere(m: Mem, tabs: Tabs, r: nat, va: nat, v: nat, x: nat, w: nat, p: nat)
    requires Inv(m, tabs) && r in tabs && tabs[r].level == 4 && x in tabs && tabs[x].level == 2
    requires Hits(m, r, 4, v, x, Index(va, 2)) && Index(v, 2) == Index(va, 2) && Present(w) && Large(w)
    requires v % PAGE2 != p % PAGE2
    ensures Walk(m[x + 8 * Index(va, 2) := w], r, v) != Some(p)
  {
    SizedLeaf(m, tabs, r, va, v, x, w);
    LargeElsewhere(m[x + 8 * Index(va, 2) := w], r, v, w, p);
  }

  lemma SizedTable(q: nat)
    requires q % PAGE == 0 && q < PHYS
    ensures Present(Or(q + 3, PSIZE)) && Large(Or(q + 3, PSIZE))
  {
    FrameOf(q);
    MixFlags(q + 3, PSIZE);
    assert Large(PSIZE);
  }

  /** A large word in a directory entry is the leaf of every address under it. */
  lemma SizedLeaf(m: Mem, tabs: Tabs, r: nat, va: nat, v: nat, x: nat, w: nat)
    requires Inv(m, tabs) && r in tabs && tabs[r].level == 4 && x in tabs && tabs[x].level == 2
    requires Hits(m, r, 4, v, x, Index(va, 2)) && Index(v, 2) == Index(va, 2) && Present(w) && Large(w)
    ensures FindLeaf(m[x + 8 * Index(va, 2) := w], r, 4, v) == Some(Found(2, w))
  {
    WalkReaches(m, tabs, r, v, x, Index(va, 2), w);
    assert Entry(m[x + 8 * Index(va, 2) := w], x, Index(v, 2)) == w;
  }

  /** An entry with its size bit set stays a leaf whatever address is put into it. */
  lemma TableMixed(m: Mem, m1: Mem, tabs: Tabs, r: nat, va: nat, x: nat, pde: nat, q: nat)
    requires Inv(m, tabs) && At(m, tabs, r, va, x) && va < LINEAR && tabs[x].level == 2 && pde == x + 8 * Index(va, 2)
    requires !Present(Word(m, pde)) && Large(Word(m, pde)) && q % PAGE == 0 && q < PHYS && SameTables(m, m1, tabs)
    ensures Present(Or(Word(m, pde), q + 3))
    ensures Remapped(m, m1[pde := Or(Word(m, pde), q + 3)], tabs, r, va, 2, Or(Word(m, pde), q + 3))
  {
    var i, w := Index(va, 2), Or(Word(m, pde), q + 3);
    assert SlotOk(m, tabs, x, i) && Entry(m, x, i) == Word(m, pde);
    FrameOf(q);
    MixFlags(Word(m, pde), q + 3);
    MixBound(Word(m, pde), q + 3);
    LeafKeepsInv(m, tabs, x, i, w);
    LeafWrite(m, tabs, r, va, x, w);
    SameElsewhere(m, m1, tabs, x, i, w);
    SameRemapped(m, m[pde := w], m1[pde := w], tabs, r, va, w);
  }

  lemma SameElsewhere(m: Mem, m1: Mem, tabs: Tabs, x: nat, i: nat, w: nat)
    requires TabsOk(tabs) && SameTables(m, m1, tabs) && x in tabs && i < 512
    ensures SameTables(m[x + 8 * i := w], m1[x + 8 * i := w], tabs)
  {
    var m2, m3 := m[x + 8 * i := w], m1[x + 8 * i := w];
    assert TabOk(tabs, x);
    forall p, j: nat | p in tabs && j < 512 ensures Entry(m3, p, j) == Entry(m2, p, j) {
      assert TabOk(tabs, p) && Entry(m1, p, j) == Entry(m, p, j);
      SlotApart(p, j, x, i);
    }
  }

  lemma SameRemapped(m: Mem, m2: Mem, m3: Mem, tabs: Tabs, r: nat, va: nat, w: nat)
    requires Remapped(m, m2, tabs, r, va, 2, w) && Inv(m2, tabs) && SameTables(m2, m3, tabs)
    ensures Remapped(m, m3, tabs, r, va, 2, w)
  {
    forall r': nat, va': nat | r' in tabs && tabs[r'].level == 4 && va' < LINEAR
      ensures RemappedAt(m, m3, r, va, 2, w, r', va')
    {
      assert RemappedAt(m, m2, r, va, 2, w, r', va');
      SameLeaf(m2, m3, tabs, r', va');
    }
  }

  /** The table that a page shares with its neighbours. */
  lemma TableEntry(m: Mem, tabs: Tabs, r: nat, va: nat, v: nat, x: nat) returns (q: nat)
    requires Inv(m, tabs) && At(m, tabs, r, va, x) && tabs[x].level == 2
    requires va < LINEAR && v < LINEAR && SameSpan(2, va, v) && FindLeaf(m, r, 4, v).Some?
        && FindLeaf(m, r, 4, v).value.level == 1
    ensures Entry(m, x, Index(va, 2)) == q + 3 && q % PAGE == 0 && q < PHYS && q in tabs && tabs[q].level == 1
    ensures Index(v, 2) == Index(va, 2) && Hits(m, r, 4, v, x, Index(va, 2))
  {
    var i := Index(va, 2);
    SpanHits(m, tabs, r, va, v, x, i);
    SpanIndices(2, va, v, 2);
    LeafFrom(m, tabs, r, v, x);
    NextTable(m, tabs, x, i);
    q := Frame(Entry(m, x, i));
    assert TabOk(tabs, q);
  }

  /** No bits that the entries of a request hold get mixed into its addresses. */
  ghost predicate Untouched(m: Mem, r: nat, va: nat, pa: nat, n: nat) {
    Unmixed(Writes(va, pa, n), OldWords(m, r, Writes(va, pa, n)), |Writes(va, pa, n)|)
  }

  /** A congruent call on an untranslated range succeeds and maps all of it. */
  lemma MappedAll(m0: Mem, m: Mem, ts0: Tabs, r: nat, va: nat, pa: nat, n: nat, s: Status, j: nat, exact: bool)
    requires MapOutcome(m0, m, ts0, r, va, pa, n, s, j) && RangeFree(m0, r, va, va + PAGE * n)
        && va % PAGE2 == pa % PAGE2
    requires va % PAGE == 0 && pa % PAGE == 0 && pa + PAGE * n <= PHYS && va + PAGE * n <= LINEAR
    requires LargeAligned(va, pa, n) && r in ts0 && ts0[r].level == 4 && (exact ==> Untouched(m0, r, va, pa, n))
    ensures s == Ok && Shaped(m0, m, ts0, r, Plan(va, pa, n), va + PAGE * n, exact) && Mapped(m, r, va, pa, n, exact)
  {
    WriteCount(va, pa, n);
    PlanShaped(m0, m, ts0, r, va, pa, n, j, OldWords(m0, r, Writes(va, pa, n)), exact);
    ShapedHolds(m0, m, ts0, r, Plan(va, pa, n), va + PAGE * n, exact);
  }

  lemma ShapedHolds(m0: Mem, m1: Mem, tabs: Tabs, r: nat, g: Range, end: nat, exact: bool)
    requires Shaped(m0, m1, tabs, r, g, end, exact) && r in tabs && tabs[r].level == 4 && end <= LINEAR
    ensures Holds(m1, r, g, g.va, end, exact)
  {
    forall v: nat | g.va <= v < end ensures HoldsAt(m1, r, g, v, exact) {
      assert RangedAt(m0, m1, r, g, end, exact, r, v);
    }
  }

  /** Every handle finds the same leaf for every linear address in both memories. */
  ghost predicate SameLinear(m: Mem, m': Mem, tabs: Tabs) {
    forall r: nat, v: nat :: r in tabs && tabs[r].level == 4 && v < LINEAR
      ==> FindLeaf(m', r, 4, v) == FindLeaf(m, r, 4, v)
  }

  /** Unmapping what a call has mapped: everything is back, and the pieces tile. */
  lemma RoundTrip(m0: Mem, m1: Mem, m2: Mem, ts0: Tabs, ts1: Tabs, r: nat, va: nat, pa: nat, n: nat, exact: bool,
      t: Trace, all: bool)
    requires Shaped(m0, m1, ts0, r, Plan(va, pa, n), va + PAGE * n, exact) && Extends(ts0, ts1) && va % PAGE == 0
    requires RangeFree(m0, r, va, va + PAGE * n) && Mapped(m1, r, va, pa, n, exact)
        && UnmapOutcome(m1, m2, ts1, r, va, n, t, all)
    ensures SameLinear(m0, m2, ts0) && (exact ==> Tiles(t.fr, pa, pa + PAGE * n))
  {
    UnmapMapped(m1, m2, ts1, r, va, pa, n, exact, t, all);
    Restored(m0, m1, m2, ts0, ts1, r, Plan(va, pa, n), va + PAGE * n, exact);
  }

  lemma Restored(m0: Mem, m1: Mem, m2: Mem, tabs: Tabs, tabs': Tabs, r: nat, g: Range, end: nat, exact: bool)
    requires Shaped(m0, m1, tabs, r, g, end, exact) && Extends(tabs, tabs') && Unmapped(m1, m2, tabs', r, g.va, end)
    requires RangeFree(m0, r, g.va, end)
    ensures SameLinear(m0, m2, tabs)
  {
    forall r': nat, v: nat | r' in tabs && tabs[r'].level == 4 && v < LINEAR
      ensures FindLeaf(m2, r', 4, v) == FindLeaf(m0, r', 4, v)
    {
      assert RangedAt(m0, m1, r, g, end, exact, r', v);
      assert UnmappedAt(m1, m2, r, g.va, end, r', v);
    }
  }

  /** A cleared page of its own becomes the PML4 of a new handle, under which nothing is mapped. */
  lemma RootAdded(m: Mem, m': Mem, tabs: Tabs, tabs': Tabs, q: nat)
    requires Inv(m, tabs) && SameTables(m, m', tabs) && Cleared(m', q) && q !in tabs
    requires q % PAGE == 0 && 0 < q && q + PAGE <= PHYS && tabs' == tabs[q := Tab(4, 0, 0)]
    ensures Inv(m', tabs') && Extends(tabs, tabs') && SameWalks(m, m', tabs)
    ensures forall v: nat :: FindLeaf(m', q, 4, v).None?
  {
    forall p | p in tabs' ensures TabOk(tabs', p) {
      assert p != q ==> TabOk(tabs, p);
    }
    forall p, j: nat | p in tabs' && j < 512 ensures SlotOk(m', tabs', p, j) {
      if p == q {
        assert Entry(m', q, j) == 0;
      } else {
        assert SlotOk(m, tabs, p, j) && Entry(m', p, j) == Entry(m, p, j);
      }
    }
    forall p | p in tabs' ensures Referred(m', tabs', p) {
      if p != q {
        assert TabOk(tabs, p) && Referred(m, tabs, p);
        assert tabs[p].level < 4 ==> Entry(m', tabs[p].parent, tabs[p].idx) == Entry(m, tabs[p].parent, tabs[p].idx);
      }
    }
    forall r: nat, va: nat | r in tabs && tabs[r].level == 4 ensures FindLeaf(m', r, 4, va) == FindLeaf(m, r, 4, va) {
      SameLeaf(m, m', tabs, r, va);
    }
    forall v: nat ensures FindLeaf(m', q, 4, v).None? {
      assert Entry(m', q, Index(v, 4)) == 0;
    }
  }

  lemma {:induction false} SameLeaf(m: Mem, m': Mem, tabs: Tabs, page: nat, va: nat)
    requires Inv(m, tabs) && SameTables(m, m', tabs) && page in tabs
    ensures FindLeaf(m', page, tabs[page].level, va) == FindLeaf(m, page, tabs[page].level, va)
    decreases tabs[page].level
  {
    var level, j := tabs[page].level, Index(va, tabs[page].level);
    var e := Entry(m, page, j);
    assert Entry(m', page, j) == e;
    if Present(e) && !Leaf(level, e) {
      NextTable(m, tabs, page, j);
      SameLeaf(m, m', tabs, Frame(e), va);
    }
  }

  lemma HandleAdded(handles: map<nat, nat>, tabs: Tabs, tabs': Tabs, h: nat, q: nat)
    requires HandlesOk(handles, tabs) && Extends(tabs, tabs') && q !in tabs && q in tabs' && tabs'[q].level == 4
    ensures HandlesOk(handles[h := q], tabs')
  {}

  lemma UpperEntry(m: Mem, tabs: Tabs, r: nat, va: nat, x: nat, ent: nat)
    requires Inv(m, tabs) && r in tabs && tabs[r].level == 4 && (x == r || At(m, tabs, r, va, x)) && tabs[x].level >= 3
    requires ent == x + 8 * Index(va, tabs[x].level)
    ensures At(m, tabs, r, va, x)
    ensures Present(Word(m, ent)) ==> !Leaf(tabs[x].level, Word(m, ent))
    ensures !Present(Word(m, ent)) ==> EntryOf(m, r, 4, va).None?
  {
    assert SlotOk(m, tabs, x, Index(va, tabs[x].level));
    assert Word(m, ent) == Entry(m, x, Index(va, tabs[x].level));
    EntryFrom(m, tabs, r, va, x);
  }

  /** A page directory entry that get_entry returns is a large leaf; and what is freed for the entry. */
  lemma EntryFound(m: Mem, tabs: Tabs, r: nat, va: nat, x: nat, ent: nat)
    requires Inv(m, tabs) && At(m, tabs, r, va, x) && tabs[x].level <= 2 && ent == x + 8 * Index(va, tabs[x].level)
    requires EntryOf(m, r, 4, va) == Some(Found(tabs[x].level, Word(m, ent)))
    ensures tabs[x].level == 2 ==> Present(Word(m, ent)) && Large(Word(m, ent))
    ensures PdePhysAddr(va, Word(m, ent)) == FreedAddr(EntryOf(m, r, 4, va).value, va)
  {
    EntryFrom(m, tabs, r, va, x);
    assert Word(m, ent) == Entry(m, x, Index(va, tabs[x].level));
    PdePhysAddrIs(va, Word(m, ent));
  }

  lemma UnmapWord(m: Mem, tabs: Tabs, r: nat, va: nat, x: nat, ent: nat)
    requires Inv(m, tabs) && At(m, tabs, r, va, x) && va < LINEAR && tabs[x].level <= 2
        && ent == x + 8 * Index(va, tabs[x].level)
    requires tabs[x].level == 2 ==> Present(Word(m, ent)) && Large(Word(m, ent))
    ensures var m' := m[ent := ClearPresent(Word(m, ent))];
      Inv(m', tabs) && Remapped(m, m', tabs, r, va, tabs[x].level, 0)
    ensures var w := ClearPresent(Word(m, ent)); Ready(m[ent := w], r, 4, va, tabs[x].level, w)
  {
    var i, e := Index(va, tabs[x].level), Word(m, ent);
    assert SlotOk(m, tabs, x, i) && e == Entry(m, x, i);
    ClearedWord(e);
    ClearedEntry(m, tabs, r, va, x, ClearPresent(e));
    WriteReady(m, tabs, r, va, x, ClearPresent(e));
  }

  lemma ClearedWord(e: nat)
    requires e < WORDS
    ensures !Present(ClearPresent(e)) && ClearPresent(e) < WORDS
  {
    ClearPresentIs(e);
  }

  /** A word that is not present takes the leaf of its entry away. */
  lemma ClearedEntry(m: Mem, tabs: Tabs, r: nat, va: nat, x: nat, w: nat)
    requires Inv(m, tabs) && At(m, tabs, r, va, x) && va < LINEAR && tabs[x].level <= 2 && !Present(w) && w < WORDS
    requires tabs[x].level == 2 ==> Large(Entry(m, x, Index(va, 2)))
    ensures var m' := m[x + 8 * Index(va, tabs[x].level) := w];
      Inv(m', tabs) && Remapped(m, m', tabs, r, va, tabs[x].level, 0)
  {
    var i := Index(va, tabs[x].level);
    LeafKeepsInv(m, tabs, x, i, w);
    LeafWrite(m, tabs, r, va, x, w);
    NotPresentAlike(m, m[x + 8 * i := w], tabs, r, va, tabs[x].level, w);
  }

  /** All entries that are not present mean the same. */
  lemma NotPresentAlike(m: Mem, m': Mem, tabs: Tabs, r: nat, va: nat, level: nat, w: nat)
    requires 1 <= level <= 2 && !Present(w) && Remapped(m, m', tabs, r, va, level, w)
    ensures Remapped(m, m', tabs, r, va, level, 0)
  {
    forall r': nat, va': nat | r' in tabs && tabs[r'].level == 4 && va' < LINEAR
      ensures RemappedAt(m, m', r, va, level, 0, r', va')
    {
      assert RemappedAt(m, m', r, va, level, w, r', va');
    }
  }

  datatype Status = Ok | VirtOccupied | NotMapped

  /** usize in pages, rounding a size in bytes up. */
  function Units(usize: nat, inBytes: bool): nat { if inBytes then (usize + (PAGE - 1)) / PAGE else usize }

  /** That is the least number of pages that hold so many bytes. */
  lemma UnitsLeast(usize: nat)
    ensures usize <= PAGE * Units(usize, true) < usize + PAGE && Units(usize, false) == usize
    ensures forall n: nat :: usize <= PAGE * n ==> Units(usize, true) <= n
  {}

  /** Exactly the `size` bytes from `va` on, in whole pages, may have another leaf than before. */
  ghost predicate OnlyBytes(m: Mem, m': Mem, tabs: Tabs, r: nat, va: nat, size: nat) {
    forall r': nat, v: nat {:trigger FindLeaf(m', r', 4, v)} ::
      r' in tabs && tabs[r'].level == 4 && v < LINEAR && !(r' == r && va <= v < va + size + PAGE - 1) ==>
        FindLeaf(m', r', 4, v) == FindLeaf(m, r', 4, v)
  }

  /** No bits left in the entries for `size` bytes get mixed into their addresses. */
  ghost predicate Clean(m: Mem, r: nat, va: nat, pa: nat, size: nat) {
    forall n: nat :: size <= PAGE * n < size + PAGE ==> Untouched(m, r, va, pa, n)
  }

  /** A request for `size` bytes at congruent addresses, or for less than a large page: it succeeds if and only if none
      of them is translated; then, unless old bits get mixed in, each goes to its byte of the physical range; and
      nothing a page or more away changes, in any handle. */
  ghost predicate BytesOutcome(m: Mem, m': Mem, tabs: Tabs, r: nat, va: nat, pa: nat, size: nat, status: Status) {
    va % PAGE2 == pa % PAGE2 || size + PAGE <= PAGE2 ==>
      && (status == Ok <==> RangeFree(m, r, va, va + size))
      && (Clean(m, r, va, pa, size) ==> OnlyBytes(m, m', tabs, r, va, size))
      && (Clean(m, r, va, pa, size) && status == Ok ==>
            forall v: nat :: va <= v < va + size ==> Walk(m', r, v) == Some(pa + (v - va)))
  }

  lemma MappedBytes(m: Mem, m': Mem, tabs: Tabs, r: nat, va: nat, pa: nat, n: nat, status: Status, j: nat, size: nat)
    requires MapOutcome(m, m', tabs, r, va, pa, n, status, j) && size <= PAGE * n < size + PAGE
    requires va % PAGE == 0 && va + PAGE * n <= LINEAR && r in tabs && tabs[r].level == 4
    ensures BytesOutcome(m, m', tabs, r, va, pa, size, status)
  {
    if va % PAGE2 == pa % PAGE2 || size + PAGE <= PAGE2 {
      LargeAlignedExactly(va, pa, n);
      WholePages(m, r, va, n, size);
      if Clean(m, r, va, pa, size) {
        OutcomeRanged(m, m', tabs, r, va, pa, n, status, j);
        RangedBytes(m, m', tabs, r, Plan(va, pa, n), Reach(va, pa, n, j), size);
      }
    }
  }

  /** How far an aligned request without mixed entries got. */
  lemma OutcomeRanged(m: Mem, m': Mem, tabs: Tabs, r: nat, va: nat, pa: nat, n: nat, status: Status, j: nat)
    requires MapOutcome(m, m', tabs, r, va, pa, n, status, j) && LargeAligned(va, pa, n) && Untouched(m, r, va, pa, n)
    ensures Ranged(m, m', tabs, r, Plan(va, pa, n), Reach(va, pa, n, j)) && Reach(va, pa, n, j) <= va + PAGE * n
    ensures status == Ok ==> Reach(va, pa, n, j) == va + PAGE * n
  {
    var ws := Writes(va, pa, n);
    assert Unmixed(ws, OldWords(m, r, ws), j);
    WriteCount(va, pa, n);
    TakenMono(va, pa, n, j, |ws|);
  }

  lemma RangedBytes(m: Mem, m': Mem, tabs: Tabs, r: nat, g: Range, end: nat, size: nat)
    requires Ranged(m, m', tabs, r, g, end) && end < g.va + size + PAGE && end <= LINEAR
    requires r in tabs && tabs[r].level == 4
    ensures OnlyBytes(m, m', tabs, r, g.va, size)
    ensures forall v: nat :: g.va <= v < end ==> Walk(m', r, v) == Some(g.pa + (v - g.va))
  {
    forall r': nat, v: nat | r' in tabs && tabs[r'].level == 4 && v < LINEAR
      && !(r' == r && g.va <= v < g.va + size + PAGE - 1)
      ensures FindLeaf(m', r', 4, v) == FindLeaf(m, r', 4, v)
    {
      assert RangedAt(m, m', r, g, end, true, r', v);
    }
    forall v: nat | g.va <= v < end ensures Walk(m', r, v) == Some(g.pa + (v - g.va)) {
      assert RangedAt(m, m', r, g, end, true, r, v);
    }
  }

  /** Addresses of one page have the same leaf. */
  lemma {:induction false} SamePage(m: Mem, page: nat, level: nat, v: nat, v': nat)
    requires 1 <= level <= 4 && SameSpan(1, v, v')
    ensures FindLeaf(m, page, level, v) == FindLeaf(m, page, level, v')
    decreases level
  {
    SpanIndices(1, v, v', level);
    var e := Entry(m, page, Index(v, level));
    if Present(e) && !Leaf(level, e) {
      SamePage(m, Frame(e), level - 1, v, v');
    }
  }

  /** Some byte of the range is translated exactly if some byte of its pages is. */
  lemma WholePages(m: Mem, r: nat, va: nat, n: nat, size: nat)
    requires va % PAGE == 0 && size <= PAGE * n < size + PAGE
    ensures RangeFree(m, r, va, va + size) <==> RangeFree(m, r, va, va + PAGE * n)
  {
    if RangeFree(m, r, va, va + size) {
      forall v: nat | va <= v < va + PAGE * n ensures FindLeaf(m, r, 4, v).None? {
        if v >= va + size {
          var last := va + PAGE * (n - 1);
          DivUnique(last, PAGE, va / PAGE + (n - 1), 0);
          SpanIs(1, last, v);
          SamePage(m, r, 4, last, v);
        }
      }
    }
  }

  /** `size` bytes have leaves of the sizes that unmap expects. */
  ghost predicate MappedAs(m: Mem, r: nat, va: nat, pa: nat, size: nat) {
    forall n: nat :: size <= PAGE * n < size + PAGE ==> Mapped(m, r, va, pa, n, false)
  }

  /** Unmapping `size` bytes as map_phys maps them succeeds, no byte of them stays translated, and nothing a page or
      more away changes, in any handle. */
  ghost predicate UnmapBytes(m: Mem, m': Mem, tabs: Tabs, r: nat, va: nat, size: nat, status: Status) {
    forall pa :: MappedAs(m, r, va, pa, size) ==>
      status == Ok && RangeFree(m', r, va, va + size) && OnlyBytes(m, m', tabs, r, va, size)
  }

  lemma UnmappedBytes(m: Mem, m': Mem, tabs: Tabs, r: nat, va: nat, n: nat, t: Trace, status: Status, size: nat)
    requires UnmapOutcome(m, m', tabs, r, va, n, t, status == Ok) && size <= PAGE * n < size + PAGE
    requires va % PAGE == 0 && va + PAGE * n <= LINEAR && r in tabs && tabs[r].level == 4
    ensures UnmapBytes(m, m', tabs, r, va, size, status)
  {
    forall pa | MappedAs(m, r, va, pa, size)
      ensures status == Ok && RangeFree(m', r, va, va + size) && OnlyBytes(m, m', tabs, r, va, size)
    {
      UnmapMapped(m, m', tabs, r, va, pa, n, false, t, status == Ok);
      var hi := va + PAGE * n;
      forall v: nat | va <= v < va + size ensures FindLeaf(m', r, 4, v).None? {
        assert UnmappedAt(m, m', r, va, hi, r, v);
      }
      forall r': nat, v: nat | r' in tabs && tabs[r'].level == 4 && v < LINEAR
        && !(r' == r && va <= v < va + size + PAGE - 1)
        ensures FindLeaf(m', r', 4, v) == FindLeaf(m, r', 4, v)
      {
        assert UnmappedAt(m, m', r, va, hi, r', v);
      }
    }
  }

  /** Every entry that the three loops will fill is fit for it. */
  predicate PlanReady(m: Mem, r: nat, va: nat, pa: nat, n: nat) {
    ReadyAll(m, r, Writes(va, pa, n), OldWords(m, r, Writes(va, pa, n)))
  }

  /** How a call of map_phys that did `j` writes left the translations of all handles. */
  ghost predicate MapOutcome(m0: Mem, m: Mem, ts0: Tabs, r: nat, va: nat, pa: nat, n: nat, status: Status, j: nat) {
    var ws, k := Writes(va, pa, n), FirstPages(va, pa, n);
    var olds := OldWords(m0, r, ws);
    && j <= |ws| && Applied(m0, m, ts0, r, Mixed(ws, olds)[..j]) && Unoccupied(m0, r, ws, j)
    && (status == Ok || status == VirtOccupied) && (status == Ok <==> j == |ws|)
    && (status == Ok <==> Unoccupied(m0, r, ws, |ws|))
    && (status == VirtOccupied ==> Walk(m0, r, ws[j].va).Some?)
    && (LargeAligned(va, pa, n) ==> (Ranged(m0, m, ts0, r, Plan(va, pa, n), Reach(va, pa, n, j))
      <==> Unmixed(ws, olds, j)))
    && (LargeAligned(va, pa, n) ==> (status == Ok <==> RangeFree(m0, r, va, va + PAGE * n)))
    && (!LargeAligned(va, pa, n) && status == Ok ==> Walk(m, r, va + PAGE * k) != Some(pa + PAGE * k))
  }

  /** How a request that clashes left the translations of all handles after `j` small pages. */
  ghost predicate ClashOutcome(m0: Mem, m: Mem, ts0: Tabs, r: nat, va: nat, pa: nat, n: nat, j: nat, q: nat) {
    var k := FirstPages(va, pa, n);
    var ws := Smalls(va, pa, k + 1);
    var table := if j < k then [] else [Write(va + PAGE * k, true, Or(q + 3, PSIZE))];
    && 0 < k < |ws| && j <= k && Unoccupied(m0, r, ws, j)
    && Applied(m0, m, ts0, r, Mixed(ws, OldWords(m0, r, ws))[..j] + table)
    && (if j < k then Walk(m0, r, ws[j].va).Some?
        else Walk(m, r, va + PAGE * (k - 1)) != Some(pa + PAGE * (k - 1)))
  }

  lemma ClashStops(q: Job, m: Mem, va: nat, pa: nat, n: nat, j: nat)
    requires q.ws == Smalls(va, pa, FirstPages(va, pa, n) + 1) && q.olds == OldWords(q.m0, q.r, q.ws)
    requires j < FirstPages(va, pa, n) < |q.ws| && Unoccupied(q.m0, q.r, q.ws, j) && Walk(q.m0, q.r, q.ws[j].va).Some?
    requires Applied(q.m0, m, q.ts0, q.r, Mixed(q.ws, q.olds)[..j])
    ensures ClashOutcome(q.m0, m, q.ts0, q.r, va, pa, n, j, 0)
  {
    assert Mixed(q.ws, q.olds)[..j] + [] == Mixed(q.ws, q.olds)[..j];
  }

  lemma ClashEnds(q: Job, m1: Mem, ts1: Tabs, m2: Mem, va: nat, pa: nat, n: nat, table: nat, v: nat, p: nat, at: nat)
    requires q.ws == Smalls(va, pa, FirstPages(va, pa, n) + 1) && q.olds == OldWords(q.m0, q.r, q.ws)
    requires 0 < FirstPages(va, pa, n) < |q.ws| && Unoccupied(q.m0, q.r, q.ws, FirstPages(va, pa, n))
    requires Extends(q.ts0, ts1) && Applied(q.m0, m1, q.ts0, q.r, Mixed(q.ws, q.olds)[..FirstPages(va, pa, n)])
    requires at == va + PAGE * FirstPages(va, pa, n) && Remapped(m1, m2, ts1, q.r, at, 2, Or(table + 3, PSIZE))
    requires v + PAGE == at && p - v == pa - va && Walk(m2, q.r, v) != Some(p)
    ensures ClashOutcome(q.m0, m2, q.ts0, q.r, va, pa, n, FirstPages(va, pa, n), table)
  {
    var k := FirstPages(va, pa, n);
    var w := Write(at, true, Or(table + 3, PSIZE));
    assert v == va + PAGE * (k - 1) && p == pa + PAGE * (k - 1);
    AppliedStep(q.m0, q.ts0, m1, ts1, m2, q.r, Mixed(q.ws, q.olds)[..k], w);
  }

  /** A leaf write after steps that keep all translations. */
  lemma RemappedAfter(m: Mem, tabs: Tabs, m1: Mem, tabs1: Tabs, m2: Mem, r: nat, va: nat, w: nat)
    requires Extends(tabs, tabs1) && SameWalks(m, m1, tabs) && Remapped(m1, m2, tabs1, r, va, 2, w)
    ensures Remapped(m, m2, tabs, r, va, 2, w)
  {
    forall r': nat, va': nat | r' in tabs && tabs[r'].level == 4 && va' < LINEAR
      ensures RemappedAt(m, m2, r, va, 2, w, r', va')
    {
      assert RemappedAt(m1, m2, r, va, 2, w, r', va');
      assert FindLeaf(m1, r', 4, va') == FindLeaf(m, r', 4, va');
    }
  }

  lemma MapMeaning(m0: Mem, m: Mem, ts0: Tabs, r: nat, va: nat, pa: nat, n: nat, status: Status, j: nat)
    requires va % PAGE == 0 && pa % PAGE == 0 && va + PAGE * n <= LINEAR && pa + PAGE * n <= PHYS && !Clash(va, pa, n)
    requires r in ts0 && ts0[r].level == 4 && PlanReady(m0, r, va, pa, n) && j <= |Writes(va, pa, n)|
    requires Applied(m0, m, ts0, r, Mixed(Writes(va, pa, n), OldWords(m0, r, Writes(va, pa, n)))[..j])
    requires Unoccupied(m0, r, Writes(va, pa, n), j)
    requires if status == Ok then j == |Writes(va, pa, n)|
             else status == VirtOccupied && j < |Writes(va, pa, n)| && Walk(m0, r, Writes(va, pa, n)[j].va).Some?
    ensures MapOutcome(m0, m, ts0, r, va, pa, n, status, j)
  {
    var ws := Writes(va, pa, n);
    var olds := OldWords(m0, r, ws);
    assert status == VirtOccupied ==> !EmptyAt(m0, r, ws, j);
    if LargeAligned(va, pa, n) {
      PlanRanged(m0, m, ts0, r, va, pa, n, j, olds);
      FreeRange(m0, r, va, pa, n, olds, va + PAGE * n);
    } else if status == Ok {
      assert Mixed(ws, olds)[..j] == Mixed(ws, olds);
      Mistranslated(m0, m, ts0, r, va, pa, n, olds);
    }
  }

  /** Setting the size bit does not change whether an entry is present, nor a 2 MB entry at all. */
  lemma SizeBit(m: Mem, ent: nat)
    requires Word(m, ent) < WORDS && (Present(Word(m, ent)) ==> Large(Word(m, ent)))
    ensures var w := Or(Word(m, ent), PSIZE);
      (Present(w) <==> Present(Word(m, ent))) && (Present(Word(m, ent)) ==> m[ent := w] == m)
  {
    MixFlags(Word(m, ent), PSIZE);
    Powers();
    if Present(Word(m, ent)) {
      OrSetBit(Word(m, ent), 7);
    }
  }

  lemma LargeInstalled(m: Mem, tabs: Tabs, m1: Mem, tabs': Tabs, r: nat, va: nat, x: nat, ent: nat, prior: nat, pa: nat)
    requires Inv(m1, tabs') && Kept(m, tabs, m1, tabs', r, va, 3) && At(m1, tabs', r, va, x) && va < LINEAR
    requires tabs'[x].level == 2 && pa % PAGE == 0 && pa < PHYS && ent == x + 8 * Index(va, tabs'[x].level)
    requires Word(m1, ent) == prior < WORDS && !Present(prior)
    ensures var m2 := m1[ent := Or(prior, pa + 0x83)];
      Inv(m2, tabs') && Remapped(m, m2, tabs, r, va, 2, Or(prior, pa + 0x83)) && ReadyElsewhere(m, m2, r, va, 2)
  {
    LargeLeaf(pa);
    MixFlags(prior, pa + 0x83);
    MixBound(prior, pa + 0x83);
    Installed(m, tabs, m1, tabs', r, va, x, ent, Or(prior, pa + 0x83));
  }

  lemma MixBound(a: nat, b: nat)
    requires a < WORDS && b < WORDS
    ensures Or(a, b) < WORDS
  {
    assert Pow2(53) == WORDS by {
      Powers();
      assert Pow2(13) == 0x2000;
      PowAdd(40, 13);
    }
    OrBelow(a, b, 53);
  }

  /** Writing a leaf after the tables on the way to it have been added. */
  lemma Installed(m: Mem, tabs: Tabs, m1: Mem, tabs': Tabs, r: nat, va: nat, x: nat, ent: nat, w: nat)
    requires Inv(m1, tabs') && At(m1, tabs', r, va, x) && va < LINEAR && tabs'[x].level <= 2
    requires Kept(m, tabs, m1, tabs', r, va, tabs'[x].level + 1) && ent == x + 8 * Index(va, tabs'[x].level)
    requires w < WORDS && Leaf(tabs'[x].level, w) && (tabs'[x].level == 2 ==> !Present(Word(m1, ent)))
    ensures var m2, level := m1[ent := w], tabs'[x].level;
      Inv(m2, tabs') && Remapped(m, m2, tabs, r, va, level, w) && ReadyElsewhere(m, m2, r, va, level)
  {
    var level := tabs'[x].level;
    LeafKeepsInv(m1, tabs', x, Index(va, level), w);
    LeafWrite(m1, tabs', r, va, x, w);
    LeafReadyElsewhere(m1, tabs', r, va, x, w);
    KeptRemapped(m, tabs, m1, tabs', m1[ent := w], r, va, level, w);
  }

  ghost function LevelOf(pageSize: nat): nat { if pageSize == PAGE2 then 2 else 1 }

  /** Readiness at the end of the walk: the entry is empty or a leaf, and it is a leaf exactly when the address was
      translated all along. */
  lemma Occupancy(m: Mem, tabs: Tabs, m1: Mem, tabs': Tabs, r: nat, va: nat, x: nat, ent: nat, prior: nat)
    requires Inv(m1, tabs') && At(m1, tabs', r, va, x) && r in tabs && tabs[r].level == 4
    requires tabs'[x].level <= 2 && Kept(m, tabs, m1, tabs', r, va, tabs'[x].level + 1)
    requires Ready(m1, x, tabs'[x].level, va, tabs'[x].level, prior) && ent == x + 8 * Index(va, tabs'[x].level)
    ensures Word(m1, ent) == prior < WORDS && (Walk(m, r, va).None? <==> !Present(prior))
    ensures Present(prior) ==> Leaf(tabs'[x].level, prior)
    ensures Extends(tabs, tabs') && SameWalks(m, m1, tabs)
  {
    assert SlotOk(m1, tabs', x, Index(va, tabs'[x].level));
    ReadyWalk(m1, tabs', r, va, x, prior);
    assert FindLeaf(m1, r, 4, va) == FindLeaf(m, r, 4, va);
    assert Entry(m1, x, Index(va, tabs'[x].level)) == Word(m1, ent);
  }

  lemma SmallInstalled(m: Mem, tabs: Tabs, m1: Mem, tabs': Tabs, r: nat, va: nat, x: nat, ent: nat, prior: nat, pa: nat)
    requires Inv(m1, tabs') && Kept(m, tabs, m1, tabs', r, va, 2) && At(m1, tabs', r, va, x) && va < LINEAR
    requires tabs'[x].level == 1 && pa % PAGE == 0 && pa < PHYS && ent == x + 8 * Index(va, tabs'[x].level)
        && prior < WORDS
    ensures var m2 := m1[ent := Or(prior, pa + 3)];
      Inv(m2, tabs') && Remapped(m, m2, tabs, r, va, 1, Or(prior, pa + 3)) && ReadyElsewhere(m, m2, r, va, 1)
  {
    SmallLeaf(pa);
    MixFlags(prior, pa + 3);
    MixBound(prior, pa + 3);
    Installed(m, tabs, m1, tabs', r, va, x, ent, Or(prior, pa + 3));
  }

  lemma KeptRemapped(m: Mem, tabs: Tabs, m1: Mem, tabs': Tabs, m2: Mem, r: nat, va: nat, level: nat, w: nat)
    requires 1 <= level <= 2 && Kept(m, tabs, m1, tabs', r, va, level + 1)
    requires Remapped(m1, m2, tabs', r, va, level, w) && ReadyElsewhere(m1, m2, r, va, level)
    ensures Remapped(m, m2, tabs, r, va, level, w) && ReadyElsewhere(m, m2, r, va, level)
  {
    forall r': nat, va': nat | r' in tabs && tabs[r'].level == 4 && va' < LINEAR
      ensures RemappedAt(m, m2, r, va, level, w, r', va')
    {
      assert RemappedAt(m1, m2, r, va, level, w, r', va');
      assert FindLeaf(m1, r', 4, va') == FindLeaf(m, r', 4, va');
    }
    forall va': nat, t: nat, p: nat | 1 <= t <= 2 && va' < LINEAR && Ready(m, r, 4, va', t, p)
                                      && !SameSpan(if t > level then t else level, va, va')
      ensures Ready(m2, r, 4, va', t, p)
    {
      SpanGrows(va, va');
      assert Ready(m1, r, 4, va', t, p);
    }
  }

  /** Adding tables on the way to `va` keeps all tables, all translations and all that was ready elsewhere. */
  ghost predicate Kept(m: Mem, tabs: Tabs, m': Mem, tabs': Tabs, r: nat, va: nat, level: nat)
    requires 1 <= level <= 4
  {
    Extends(tabs, tabs') && SameWalks(m, m', tabs) && StillReady(m, m', r, va, level)
  }

  lemma KeptTwice(m: Mem, tabs: Tabs, m1: Mem, tabs1: Tabs, m2: Mem, tabs2: Tabs, r: nat, va: nat, l1: nat, l2: nat)
    requires 2 <= l2 < l1 <= 4 && Kept(m, tabs, m1, tabs1, r, va, l1) && Kept(m1, tabs1, m2, tabs2, r, va, l2)
    ensures Kept(m, tabs, m2, tabs2, r, va, l2)
  {
    forall r': nat, va': nat | r' in tabs && tabs[r'].level == 4
      ensures FindLeaf(m2, r', 4, va') == FindLeaf(m, r', 4, va')
    {
      assert FindLeaf(m1, r', 4, va') == FindLeaf(m, r', 4, va');
      assert FindLeaf(m2, r', 4, va') == FindLeaf(m1, r', 4, va');
    }
  }

  lemma RootReady(m: Mem, tabs: Tabs, r: nat, va: nat, t: nat, prior: nat)
    requires Inv(m, tabs) && r in tabs && tabs[r].level == 4 && 1 <= t <= 2 && Ready(m, r, 4, va, t, prior)
    ensures At(m, tabs, r, va, r) && r % PAGE == 0
    ensures var e := Entry(m, r, Index(va, 4)); e == 0 || (Present(e) && !Leaf(4, e))
  {
    assert TabOk(tabs, r);
  }

  /** The entry that readiness promises at the next table of the walk. */
  lemma NextReady(m: Mem, tabs: Tabs, r: nat, va: nat, x: nat, t: nat, prior: nat)
    requires Inv(m, tabs) && At(m, tabs, r, va, x) && 1 <= t <= tabs[x].level && t <= 2 && Ready(m, r, 4, va, t, prior)
    ensures x % PAGE == 0 && Ready(m, x, tabs[x].level, va, t, prior)
    ensures var e := Entry(m, x, Index(va, tabs[x].level));
      t < tabs[x].level ==> e == 0 || (Present(e) && !Leaf(tabs[x].level, e))
  {
    assert TabOk(tabs, x);
    ReadyAt(m, tabs, r, va, x, t, prior);
  }

  /** The table found behind a present entry is the next one of the walk. */
  lemma Followed(m: Mem, tabs: Tabs, r: nat, va: nat, x: nat)
    requires Inv(m, tabs) && At(m, tabs, r, va, x) && tabs[x].level >= 2
    requires var e := Entry(m, x, Index(va, tabs[x].level)); Present(e) && !Leaf(tabs[x].level, e)
    ensures var q := Frame(Entry(m, x, Index(va, tabs[x].level)));
      At(m, tabs, r, va, q) && tabs[q].level == tabs[x].level - 1
  {
    NextTable(m, tabs, x, Index(va, tabs[x].level));
    HitsNext(m, tabs, r, va, x);
  }

  lemma ShowAdds(m: Mem, m1: Mem, tabs: Tabs, x: nat, i: nat, q: nat)
    requires TabsOk(tabs) && x in tabs && i < 512 && tabs[x].level >= 2 && q !in tabs && q % PAGE == 0
    requires Entry(m, x, i) == 0
    requires SameTables(m, m1, tabs) && Cleared(m1, q)
    ensures AddsTable(m, m1[x + 8 * i := q + 3], tabs, x, i, q)
  {
    var m2 := m1[x + 8 * i := q + 3];
    assert TabOk(tabs, x);
    forall p, j: nat | p in tabs && j < 512 && !(p == x && j == i) ensures Entry(m2, p, j) == Entry(m, p, j) {
      assert TabOk(tabs, p);
      SlotApart(p, j, x, i);
      assert Entry(m1, p, j) == Entry(m, p, j);
    }
    forall j: nat | j < 512 ensures Entry(m2, q, j) == 0 {
      SlotApart(q, j, x, i);
      assert Entry(m1, q, j) == 0;
    }
  }

  /** Hooking a cleared table into an empty entry. */
  lemma Hooked(m: Mem, m1: Mem, m2: Mem, tabs: Tabs, tabs': Tabs, r: nat, va: nat, x: nat, q: nat)
    requires Inv(m, tabs) && At(m, tabs, r, va, x) && va < LINEAR && tabs[x].level >= 2
    requires q !in tabs && q % PAGE == 0 && 0 < q && q + PAGE <= PHYS
    requires Entry(m, x, Index(va, tabs[x].level)) == 0
    requires SameTables(m, m1, tabs) && Cleared(m1, q)
    requires m2 == m1[x + 8 * Index(va, tabs[x].level) := q + 3]
    requires tabs' == tabs[q := Tab(tabs[x].level - 1, x, Index(va, tabs[x].level))]
    ensures Extends(tabs, tabs') && Inv(m2, tabs') && At(m2, tabs', r, va, q)
    ensures Frame(Word(m2, x + 8 * Index(va, tabs[x].level))) == q
    ensures SameWalks(m, m2, tabs) && StillReady(m, m2, r, va, tabs[x].level)
  {
    var i := Index(va, tabs[x].level);
    ShowAdds(m, m1, tabs, x, i, q);
    AddKeepsInv(m, m2, tabs, x, i, q);
    AddKeepsWalks(m, m2, tabs, x, i, q);
    AddStillReady(m, m2, tabs, r, va, x, q);
    AddKeepsHits(m, m2, tabs, x, i, q, r, va, x, i);
    FrameOf(q);
    assert At(m2, tabs', r, va, x);
    Followed(m2, tabs', r, va, x);
  }
}
