/** The kernel heap of kernlib/kernmem.c: first fit over an address-ordered doubly linked list of headers. */
module KernelHeap {
  import opened Prelude
  import opened Arithmetic

  const BASE: nat := 0x200000
  /** sizeof(kmem_node): a size and two pointers. */
  const HDR: nat := 24

  /** A kmem_node as it lies in memory; link 0 is NULL. */
  datatype Header = Header(sz: nat, next: nat, prev: nat)

  /** A list node seen from outside: where its header is and how large its payload is. */
  datatype Block = Block(addr: nat, sz: nat) {
    function End(): nat { addr + HDR + sz }
    function Payload(): nat { addr + HDR }
  }

  // ---- the list ----

  ghost predicate Ordered(b: seq<Block>) {
    forall i, j :: 0 <= i < j < |b| ==> b[i].End() <= b[j].addr
  }

  function NextOf(b: seq<Block>, i: int): nat { if 0 <= i + 1 < |b| then b[i + 1].addr else 0 }
  function PrevOf(b: seq<Block>, i: int): nat { if 0 < i <= |b| then b[i - 1].addr else 0 }

  ghost predicate LinkedAt(m: map<nat, Header>, b: seq<Block>, i: int)
    requires 0 <= i < |b|
  {
    b[i].addr in m && m[b[i].addr] == Header(b[i].sz, NextOf(b, i), PrevOf(b, i))
  }

  /** The headers in memory form exactly the list `b`, with prev the inverse of next. */
  ghost predicate Linked(m: map<nat, Header>, b: seq<Block>) {
    forall i :: 0 <= i < |b| ==> LinkedAt(m, b, i)
  }

  function Inserted(b: seq<Block>, k: nat, x: Block): seq<Block>
    requires k <= |b|
  {
    b[..k] + [x] + b[k..]
  }

  function Removed(b: seq<Block>, k: nat): seq<Block>
    requires k < |b|
  {
    b[..k] + b[k + 1..]
  }

  lemma RemoveInserted(b: seq<Block>, k: nat, x: Block)
    requires k <= |b|
    ensures Removed(Inserted(b, k, x), k) == b
  {
  }

  lemma InsertedAt(b: seq<Block>, k: nat, x: Block, i: nat)
    requires k <= |b| && i <= |b|
    ensures Inserted(b, k, x)[i] == if i < k then b[i] else if i == k then x else b[i - 1]
  {}

  lemma InsertOrdered(b: seq<Block>, k: nat, x: Block)
    requires Ordered(b) && 0 < k <= |b| && b[k - 1].End() <= x.addr && (k < |b| ==> x.End() <= b[k].addr)
    ensures Ordered(Inserted(b, k, x))
  {
    var c := Inserted(b, k, x);
    forall i, j | 0 <= i < j < |c| ensures c[i].End() <= c[j].addr {
      InsertedAt(b, k, x, i);
      InsertedAt(b, k, x, j);
    }
  }

  lemma RemoveOrdered(b: seq<Block>, k: nat)
    requires Ordered(b) && k < |b|
    ensures Ordered(Removed(b, k))
  {
    var c := Removed(b, k);
    assert forall i :: 0 <= i < |c| ==> c[i] == if i < k then b[i] else b[i + 1];
  }

  lemma AddrApart(b: seq<Block>, i: nat, j: nat)
    requires Ordered(b) && i < |b| && j < |b| && i != j
    ensures b[i].addr != b[j].addr
  {
    assert b[i].End() <= b[j].addr || b[j].End() <= b[i].addr;
  }

  lemma AddrPositive(b: seq<Block>, i: nat)
    requires Ordered(b) && i < |b| && b[0].addr > 0
    ensures b[i].addr > 0
  {
    assert i > 0 ==> b[0].End() <= b[i].addr;
  }

  /** `m'` differs from `m` at most at the given addresses. */
  ghost predicate Writes(m: map<nat, Header>, m': map<nat, Header>, at: set<nat>) {
    forall a :: a in m && a !in at ==> a in m' && m'[a] == m[a]
  }

  /** The headers written when `x` is linked in after `b[k - 1]`. */
  ghost predicate InsertWrites(m: map<nat, Header>, m': map<nat, Header>, b: seq<Block>, k: nat, x: Block)
    requires 0 < k <= |b|
  {
    && Writes(m, m', {x.addr, b[k - 1].addr, NextOf(b, k - 1)})
    && x.addr in m' && m'[x.addr] == Header(x.sz, NextOf(b, k - 1), b[k - 1].addr)
    && b[k - 1].addr in m && b[k - 1].addr in m' && m'[b[k - 1].addr] == m[b[k - 1].addr].(next := x.addr)
    && (k < |b| ==> b[k].addr in m && b[k].addr in m' && m'[b[k].addr] == m[b[k].addr].(prev := x.addr))
  }

  lemma InsertLinked(m: map<nat, Header>, m': map<nat, Header>, b: seq<Block>, k: nat, x: Block)
    requires 0 < k <= |b| && Linked(m, b) && Ordered(Inserted(b, k, x)) && b[0].addr > 0
    requires InsertWrites(m, m', b, k, x)
    ensures Linked(m', Inserted(b, k, x))
  {
    forall i | 0 <= i < |Inserted(b, k, x)|
      ensures LinkedAt(m', Inserted(b, k, x), i)
    {
      InsertLinkedAt(m, m', b, k, x, i);
    }
  }

  lemma InsertLinkedAt(m: map<nat, Header>, m': map<nat, Header>, b: seq<Block>, k: nat, x: Block, i: nat)
    requires 0 < k <= |b| && Linked(m, b) && Ordered(Inserted(b, k, x)) && b[0].addr > 0
    requires InsertWrites(m, m', b, k, x) && i <= |b|
    ensures LinkedAt(m', Inserted(b, k, x), i)
  {
    var c := Inserted(b, k, x);
    InsertedAt(b, k, x, i);
    InsertedAt(b, k, x, 0);
    InsertedAt(b, k, x, k);
    InsertedAt(b, k, x, k - 1);
    if k < |b| { InsertedAt(b, k, x, k + 1); }
    if i > 0 { InsertedAt(b, k, x, i - 1); }
    if i + 1 < |c| { InsertedAt(b, k, x, i + 1); }
    if i != k {
      assert LinkedAt(m, b, if i < k then i else i - 1);
    }
  }

  /** The headers written when `b[k]` is unlinked. */
  ghost predicate RemoveWrites(m: map<nat, Header>, m': map<nat, Header>, b: seq<Block>, k: nat)
    requires 0 < k < |b|
  {
    && Writes(m, m', {b[k - 1].addr, NextOf(b, k)})
    && b[k - 1].addr in m && b[k - 1].addr in m' && m'[b[k - 1].addr] == m[b[k - 1].addr].(next := NextOf(b, k))
    && (k + 1 < |b| ==>
          b[k + 1].addr in m && b[k + 1].addr in m' && m'[b[k + 1].addr] == m[b[k + 1].addr].(prev := b[k - 1].addr))
  }

  lemma RemovedAt(b: seq<Block>, k: nat, i: nat)
    requires k < |b| && i < |b| - 1
    ensures Removed(b, k)[i] == if i < k then b[i] else b[i + 1]
  {}

  lemma RemoveLinked(m: map<nat, Header>, m': map<nat, Header>, b: seq<Block>, k: nat)
    requires 0 < k < |b| && Linked(m, b) && Ordered(b) && b[0].addr > 0
    requires RemoveWrites(m, m', b, k)
    ensures Linked(m', Removed(b, k))
  {
    forall i | 0 <= i < |Removed(b, k)|
      ensures LinkedAt(m', Removed(b, k), i)
    {
      RemoveLinkedAt(m, m', b, k, i);
    }
  }

  /** The neighbours of a remaining block. */
  lemma RemovedNeighbours(b: seq<Block>, k: nat, i: nat)
    requires 0 < k < |b| && i < |b| - 1
    ensures var j := if i < k then i else i + 1;
      && Removed(b, k)[i] == b[j]
      && NextOf(Removed(b, k), i) == (if i == k - 1 then NextOf(b, k) else NextOf(b, j))
      && PrevOf(Removed(b, k), i) == (if i == k then b[k - 1].addr else PrevOf(b, j))
  {
    RemovedAt(b, k, i);
    if i > 0 { RemovedAt(b, k, i - 1); }
    if i + 1 < |b| - 1 { RemovedAt(b, k, i + 1); }
  }

  /** What unlinking `b[k]` leaves in the header of another block. */
  lemma RemoveHeader(m: map<nat, Header>, m': map<nat, Header>, b: seq<Block>, k: nat, j: nat)
    requires 0 < k < |b| && j < |b| && j != k && LinkedAt(m, b, j) && Ordered(b) && b[0].addr > 0
    requires RemoveWrites(m, m', b, k)
    ensures b[j].addr in m' && m'[b[j].addr] == Header(b[j].sz, if j == k - 1 then NextOf(b, k) else NextOf(b, j),
                                                       if j == k + 1 then b[k - 1].addr else PrevOf(b, j))
  {
    if j != k - 1 { AddrApart(b, j, k - 1); }
    if k + 1 < |b| && j != k + 1 { AddrApart(b, j, k + 1); }
    AddrPositive(b, j);
  }

  lemma RemoveLinkedAt(m: map<nat, Header>, m': map<nat, Header>, b: seq<Block>, k: nat, i: nat)
    requires 0 < k < |b| && Linked(m, b) && Ordered(b) && b[0].addr > 0
    requires RemoveWrites(m, m', b, k) && i < |b| - 1
    ensures LinkedAt(m', Removed(b, k), i)
  {
    var j := if i < k then i else i + 1;
    assert LinkedAt(m, b, j);
    RemovedNeighbours(b, k, i);
    RemoveHeader(m, m', b, k, j);
  }

  // ---- placement ----

  /** The first header address at or after `a` whose payload is aligned (kernlib/kernmem.c:66-67, 87-88). */
  function AlignUp(a: nat, align: nat): (r: nat)
    requires align > 0
    ensures a <= r < a + align
  {
    if (a + HDR) % align != 0 then a + (align - (a + HDR) % align) else a
  }

  /** `AlignUp` is aligned, and no earlier address is. */
  lemma AlignUpLeast(a: nat, align: nat, y: nat)
    requires align > 0
    ensures (AlignUp(a, align) + HDR) % align == 0
    ensures a <= y && (y + HDR) % align == 0 ==> AlignUp(a, align) <= y
  {
    var r := (a + HDR) % align;
    if r != 0 {
      var q := (a + HDR) / align;
      assert AlignUp(a, align) + HDR == align * (q + 1) + 0;
      DivUnique(AlignUp(a, align) + HDR, align, q + 1, 0);
      if a <= y < AlignUp(a, align) {
        ModStep(a + HDR, y - a, align);
      }
    }
  }

  /** A block of `size` bytes whose header is at `a` is aligned, lies above the dummy head and overlaps no block. */
  ghost predicate Fits(b: seq<Block>, a: nat, size: nat, align: nat)
    requires align > 0
  {
    && |b| > 0 && b[0].End() <= a && (a + HDR) % align == 0
    && forall i :: 0 <= i < |b| ==> a + HDR + size <= b[i].addr || b[i].End() <= a
  }

  /** No placement begins before block `k` ends. */
  ghost predicate NoneBefore(b: seq<Block>, k: nat, size: nat, align: nat)
    requires align > 0 && k < |b|
  {
    forall a :: Fits(b, a, size, align) ==> b[k].End() <= a
  }

  /** A gap that is too small pushes every placement behind the next block. */
  lemma SkipGap(b: seq<Block>, k: nat, size: nat, align: nat)
    requires align > 0 && k + 1 < |b| && Ordered(b) && NoneBefore(b, k, size, align)
    requires AlignUp(b[k].End(), align) + HDR + size > b[k + 1].addr
    ensures NoneBefore(b, k + 1, size, align)
  {
    forall a: nat | Fits(b, a, size, align) ensures b[k + 1].End() <= a {
      AlignUpLeast(b[k].End(), align, a);
      assert a + HDR + size <= b[k + 1].addr || b[k + 1].End() <= a;
    }
  }

  /** The aligned end of block `k` is the least placement once everything before it is excluded. */
  lemma LeastFit(b: seq<Block>, k: nat, size: nat, align: nat)
    requires align > 0 && k < |b| && Ordered(b) && NoneBefore(b, k, size, align)
    requires k + 1 < |b| ==> AlignUp(b[k].End(), align) + HDR + size <= b[k + 1].addr
    ensures Fits(b, AlignUp(b[k].End(), align), size, align)
    ensures forall a :: Fits(b, a, size, align) ==> AlignUp(b[k].End(), align) <= a
  {
    var r := AlignUp(b[k].End(), align);
    AlignUpLeast(b[k].End(), align, r);
    forall i | 0 <= i < |b| ensures r + HDR + size <= b[i].addr || b[i].End() <= r {
      assert i < k ==> b[i].End() <= b[k].addr;
      assert i > k + 1 ==> b[k + 1].End() <= b[i].addr;
    }
    assert k > 0 ==> b[0].End() <= b[k].addr;
    forall a: nat | Fits(b, a, size, align) ensures r <= a {
      AlignUpLeast(b[k].End(), align, a);
    }
  }

  /** A NULL next marks the last block. */
  lemma LastBlock(b: seq<Block>, k: nat)
    requires Ordered(b) && k < |b| && b[0].addr > 0
    ensures NextOf(b, k) == 0 <==> k + 1 == |b|
  {
    if k + 1 < |b| { AddrPositive(b, k + 1); }
  }

  lemma NextMultiple(x: nat, n: nat)
    requires n > 0
    ensures (x + (n - x % n)) % n == 0
  {
    assert x + (n - x % n) == n * (x / n + 1) + 0;
    DivUnique(x + (n - x % n), n, x / n + 1, 0);
  }

  /** What the allocator asks vmemory_map_alloc for, as (address, bytes), when the heap grows from `top` to `end`. */
  function Request(top: nat, end: nat, unit: nat): seq<(nat, nat)>
    requires unit > 0 && top <= end
  {
    var aligned := top - top % unit;
    if end - aligned > unit then [(aligned + unit, end - aligned)] else []
  }

  /** A request asks for everything from the unit behind the old end up to one unit behind the new end, if the new end
      lies that far, and for nothing else. */
  lemma RequestReach(top: nat, end: nat, unit: nat, a: nat)
    requires unit > 0 && a % unit == 0 && a <= top < a + unit && top <= end
    ensures forall x: nat :: Covered(0, Request(top, end, unit), x) <==> a + unit < end && a + unit <= x < end + unit
  {
    assert a == unit * (a / unit);
    DivUnique(top, unit, a / unit, top - a);
    var rs := Request(top, end, unit);
    forall x: nat ensures Covered(0, rs, x) <==> a + unit < end && a + unit <= x < end + unit {
      if a + unit < end {
        assert rs[0] == (a + unit, end - a);
      }
    }
  }

  ghost predicate Covered(m: nat, rs: seq<(nat, nat)>, a: nat) {
    a < m || exists i :: 0 <= i < |rs| && rs[i].0 <= a < rs[i].0 + rs[i].1
  }

  /** The heap end is meant to be the upper bound of mapped memory, but a growth asks for memory one unit behind the old
      end only, and not at all if it stays within that unit. With everything below `m` mapped before, the heap is mapped
      up to its new end exactly when it was already, or when the unit behind the old end was and a request is made. */
  lemma GrowthMapped(m: nat, top: nat, end: nat, unit: nat)
    requires unit > 0 && top < end
    ensures (forall a: nat :: a < end ==> Covered(m, Request(top, end, unit), a))
        <==> end <= m || (end - (top - top % unit) > unit && top - top % unit + unit <= m)
  {
    var rs := Request(top, end, unit);
    if m < end {
      if rs != [] && rs[0].0 <= m {
        forall a: nat | a < end ensures Covered(m, rs, a) {
          assert a < m || rs[0].0 <= a < rs[0].0 + rs[0].1;
        }
      } else {
        assert !Covered(m, rs, m);
      }
    }
  }

  /** How growing to `end` changes the heap end and the requests made so far. */
  ghost predicate Grown(top: nat, rs: seq<(nat, nat)>, end: nat, unit: nat, top': nat, rs': seq<(nat, nat)>) {
    if end <= top || unit == 0 then top' == Max(top, end) && rs' == rs
    else top' % unit == 0 && end < top' <= end + unit && rs' == rs + Request(top, end, unit)
  }

  // ---- moving a block ----

  /** The `n` bytes at `q` meet the header or the payload of `x`. */
  predicate Touches(x: Block, q: nat, n: nat) { x.addr < q + n && q < x.End() }

  /** A block begins behind the header at `a` and before `n` bytes of payload would end. */
  ghost predicate Overruns(b: seq<Block>, a: nat, n: nat) {
    exists i :: 0 <= i < |b| && a < b[i].addr < a + HDR + n
  }

  /** The placement that kmalloc_align chooses. */
  ghost predicate Least(b: seq<Block>, a: nat, size: nat, align: nat)
    requires align > 0
  {
    Fits(b, a, size, align) && forall y :: Fits(b, y, size, align) ==> a <= y
  }

  /** Copying `n` bytes to a block placed for `size` meets a block, possibly the one being copied, if and only if a
      block begins that close behind the placement. */
  lemma OverrunExactly(b: seq<Block>, a: nat, size: nat, align: nat, n: nat)
    requires align > 0 && Fits(b, a, size, align)
    ensures (exists i :: 0 <= i < |b| && Touches(b[i], a + HDR, n)) <==> Overruns(b, a, n)
  {
    if i :| 0 <= i < |b| && a < b[i].addr < a + HDR + n {
      assert Touches(b[i], a + HDR, n);
    }
    if i :| 0 <= i < |b| && Touches(b[i], a + HDR, n) {
      assert a < b[i].addr < a + HDR + n;
    }
  }

  /** A placement is never where a block already is. */
  lemma NewPlace(b: seq<Block>, k: nat, a: nat, size: nat, align: nat)
    requires align > 0 && k < |b| && Fits(b, a, size, align)
    ensures a != b[k].addr
  {
    assert a + HDR + size <= b[k].addr || b[k].End() <= a;
  }

  /** Only the block behind the placement matters. */
  lemma NextOverruns(b: seq<Block>, j: nat, a: nat, size: nat, n: nat)
    requires Ordered(b) && j < |b| && b[j].End() <= a && (j + 1 < |b| ==> a + HDR + size <= b[j + 1].addr)
    ensures Overruns(b, a, n) <==> j + 1 < |b| && b[j + 1].addr < a + HDR + n
  {
    if i :| 0 <= i < |b| && a < b[i].addr < a + HDR + n {
      assert i < j ==> b[i].End() <= b[j].addr;
      assert i > j + 1 ==> b[j + 1].End() <= b[i].addr;
    }
  }

  /** krealloc copies the old size. That is safe for block `k` if the block does not shrink, or if no block begins
      within the old size behind the place that the new one will get. */
  ghost predicate SafeCopy(b: seq<Block>, k: nat, size: nat, align: nat)
    requires align > 0 && k < |b|
  {
    b[k].sz <= size || forall a: nat :: Least(b, a, size, align) ==> !Overruns(b, a, b[k].sz)
  }

  /** Does krealloc resize block `k` where it is (kernlib/kernmem.c:122-129)? */
  ghost predicate Resizable(b: seq<Block>, k: nat, size: nat)
    requires 0 < k < |b|
  {
    k + 1 < |b| && b[k + 1].addr - b[k].Payload() >= size + HDR
  }

  ghost predicate SafeResize(b: seq<Block>, k: nat, size: nat, align: nat)
    requires align > 0 && 0 < k < |b|
  {
    Resizable(b, k, size) || SafeCopy(b, k, size, align)
  }

  /** No block of `b` meets the `n` bytes at `q`. */
  ghost predicate Clear(b: seq<Block>, q: nat, n: nat) {
    forall i :: 0 <= i < |b| ==> !Touches(b[i], q, n)
  }

  lemma SafeClear(b: seq<Block>, k: nat, a: nat, size: nat, align: nat)
    requires align > 0 && k < |b| && Least(b, a, size, align) && SafeCopy(b, k, size, align)
    ensures Clear(b, a + HDR, b[k].sz) && Clear(Others(b, k), a + HDR, b[k].sz)
  {
    OverrunExactly(b, a, size, align, b[k].sz);
    assert b[k].sz > size ==> !Overruns(b, a, b[k].sz);
    forall i | 0 <= i < |b| ensures !Touches(b[i], a + HDR, b[k].sz) {
      assert a + HDR + size <= b[i].addr || b[i].End() <= a;
    }
    forall i | 0 <= i < |b| - 1 ensures !Touches(Removed(b, k)[i], a + HDR, b[k].sz) {
      RemovedAt(b, k, i);
    }
  }

  /** krealloc is safe exactly if the block stays, or the copy of its old size meets no block at all. */
  lemma SafeExactly(b: seq<Block>, k: nat, size: nat, align: nat)
    requires align > 0 && 0 < k < |b|
    ensures SafeResize(b, k, size, align) <==>
      (k + 1 < |b| && b[k].Payload() + size + HDR <= b[k + 1].addr)
      || forall a: nat :: Least(b, a, size, align) ==> Clear(b, a + HDR, b[k].sz)
  {
    if SafeCopy(b, k, size, align) {
      forall a: nat | Least(b, a, size, align) ensures Clear(b, a + HDR, b[k].sz) {
        SafeClear(b, k, a, size, align);
      }
    }
    forall a: nat | Least(b, a, size, align) && Clear(b, a + HDR, b[k].sz) ensures !Overruns(b, a, b[k].sz) {
      OverrunExactly(b, a, size, align, b[k].sz);
    }
  }

  predicate SameAt(m: nat -> nat, m': nat -> nat, a: nat) { m'(a) == m(a) }

  predicate In(x: Block, a: nat) { x.addr <= a < x.End() }

  /** The bytes of all these blocks are as before. */
  ghost predicate KeepsBytes(m: nat -> nat, m': nat -> nat, b: seq<Block>) {
    forall i, a: nat {:trigger In(b[i], a)} :: 0 <= i < |b| && In(b[i], a) ==> SameAt(m, m', a)
  }

  lemma CopyKeeps(m: nat -> nat, m': nat -> nat, p: nat, q: nat, n: nat, b: seq<Block>)
    requires Copied(m, m', p, q, n) && Clear(b, q, n)
    ensures KeepsBytes(m, m', b)
  {
    forall i, a: nat | 0 <= i < |b| && In(b[i], a) ensures SameAt(m, m', a) {
      assert CopiedAt(m, m', p, q, n, a) && !Touches(b[i], q, n);
    }
  }

  class Heap {
    var node: map<nat, Header>
    var occupiedTo: nat
    /** Payload bytes. */
    var mem: nat -> nat
    /** vmemory_get_mem_unit_size(), or 0 while the mapping functions are not set. */
    var unit: nat
    /** Calls made to vmemory_map_alloc, as (address, bytes). */
    var requests: seq<(nat, nat)>
    /** The list from the dummy head on. */
    ghost var blocks: seq<Block>

    ghost predicate Valid()
      reads this
    {
      && |blocks| > 0 && blocks[0] == Block(BASE, 0)
      && Ordered(blocks) && Linked(node, blocks)
      && forall i :: 0 < i < |blocks| ==> blocks[i].End() <= occupiedTo
    }

    /** `p` was handed out and not yet freed, as block `k`. */
    ghost predicate LiveAt(p: nat, k: nat)
      reads this
    {
      0 < k < |blocks| && blocks[k].Payload() == p
    }

    /** kmem_init (kernlib/kernmem.c:33-38); the head's size, which the code leaves unset, is taken as 0. */
    constructor ()
      ensures Valid() && blocks == [Block(BASE, 0)] && occupiedTo == BASE && unit == 0 && requests == []
    {
      node := map[BASE := Header(0, 0, 0)];
      occupiedTo := BASE;
      unit, requests := 0, [];
      mem := a => 0;
      blocks := [Block(BASE, 0)];
    }

    /** Linking a new block in after block `k - 1`, as both paths of kmalloc_align do. */
    method Link(it: nat, at: nat, size: nat, ghost k: nat)
      requires Valid() && 0 < k <= |blocks| && it == blocks[k - 1].addr
      requires blocks[k - 1].End() <= at && (k < |blocks| ==> at + HDR + size <= blocks[k].addr)
      requires k == |blocks| ==> at + HDR + size <= occupiedTo
      modifies this`node, this`blocks
      ensures Valid() && blocks == Inserted(old(blocks), k, Block(at, size))
    {
      ghost var b, m, x := blocks, node, Block(at, size);
      assert LinkedAt(node, blocks, k - 1);
      assert k < |blocks| ==> LinkedAt(node, blocks, k);
      AddrPositive(blocks, k - 1);
      if k < |blocks| { AddrPositive(blocks, k); }
      var itNext := node[it].next;
      node := node[it := node[it].(next := at)];
      if itNext != 0 {
        node := node[itNext := node[itNext].(prev := at)];
      }
      node := node[at := Header(size, itNext, it)];
      blocks := Inserted(blocks, k, x);
      InsertOrdered(b, k, x);
      InsertLinked(m, node, b, k, x);
      forall i | 0 < i < |blocks| ensures blocks[i].End() <= occupiedTo {
        InsertedAt(b, k, x, i);
      }
    }

    /** The search of kernlib/kernmem.c:61-82, 86-88: the node to link behind and the header address to use.
        Either a gap is found or the last node has been reached. */
    method FindSpace(size: nat, align: nat) returns (it: nat, at: nat, gap: bool, ghost k: nat)
      requires Valid() && align > 0
      ensures k < |blocks| && it == blocks[k].addr && blocks[k].End() <= at
      ensures if gap then k + 1 < |blocks| && at + HDR + size <= blocks[k + 1].addr else k + 1 == |blocks|
      ensures Fits(blocks, at, size, align)
      ensures forall a :: Fits(blocks, a, size, align) ==> at <= a
    {
      it, k := BASE, 0;
      assert LinkedAt(node, blocks, 0);
      while node[it].next != 0
        invariant k < |blocks| && it == blocks[k].addr && LinkedAt(node, blocks, k)
        invariant NoneBefore(blocks, k, size, align)
        decreases |blocks| - k
      {
        var gapBeg := it + HDR + node[it].sz;
        var gapEnd := node[it].next;
        gapBeg := AlignUp(gapBeg, align);
        if gapEnd > gapBeg {
          var room := gapEnd - gapBeg;
          if room >= size + HDR {
            LeastFit(blocks, k, size, align);
            return it, gapBeg, true, k;
          }
        }
        SkipGap(blocks, k, size, align);
        assert LinkedAt(node, blocks, k + 1);
        it := node[it].next;
        k := k + 1;
      }
      LastBlock(blocks, k);
      LeastFit(blocks, k, size, align);
      at := AlignUp(it + HDR + node[it].sz, align);
      gap := false;
    }

    /** kernlib/kernmem.c:58-109. The result is the lowest placement of all; in particular it overlaps no live
        block, and everything else stays where it was. */
    method KmallocAlign(size: nat, align: nat) returns (p: nat, ghost k: nat)
      requires Valid() && align > 0
      modifies this`node, this`blocks, this`occupiedTo, this`requests
      ensures Valid() && p >= HDR && 0 < k <= |old(blocks)|
      ensures blocks == Inserted(old(blocks), k, Block(p - HDR, size))
      ensures Fits(old(blocks), p - HDR, size, align)
      ensures forall a :: Fits(old(blocks), a, size, align) ==> p - HDR <= a
      ensures occupiedTo >= old(occupiedTo)
      ensures Grown(old(occupiedTo), old(requests), p + size, unit, occupiedTo, requests)
    {
      var it, at, gap, j := FindSpace(size, align);
      assert gap ==> at + HDR + size <= occupiedTo;
      if !gap {
        Grow(at + HDR + size);
      }
      k := j + 1;
      Link(it, at, size, k);
      p := at + HDR;
    }

    /** Raising the heap end (kernlib/kernmem.c:89-102), to the next unit boundary behind `end` once there is a unit. */
    method Grow(end: nat)
      modifies this`occupiedTo, this`requests
      ensures occupiedTo >= end && occupiedTo >= old(occupiedTo)
      ensures Grown(old(occupiedTo), old(requests), end, unit, occupiedTo, requests)
    {
      if end > occupiedTo {
        if unit != 0 {
          var aligned := occupiedTo - occupiedTo % unit;
          if end - aligned > unit {
            requests := requests + [(aligned + unit, end - aligned)];
          }
          occupiedTo := end;
          occupiedTo := occupiedTo + (unit - occupiedTo % unit);
          NextMultiple(end, unit);
        } else {
          occupiedTo := end;
        }
      }
    }

    /** kernlib/kernmem.c:143-153. */
    method Kfree(p: nat, ghost k: nat)
      requires Valid() && LiveAt(p, k)
      modifies this`node, this`blocks
      ensures Valid() && blocks == Removed(old(blocks), k)
    {
      ghost var b, m := blocks, node;
      assert LinkedAt(node, blocks, k) && LinkedAt(node, blocks, k - 1);
      assert k + 1 < |blocks| ==> LinkedAt(node, blocks, k + 1);
      AddrPositive(blocks, k - 1);
      if k + 1 < |blocks| { AddrPositive(blocks, k + 1); AddrApart(blocks, k - 1, k + 1); }
      AddrApart(blocks, k - 1, k);
      if k + 1 < |blocks| { AddrApart(blocks, k, k + 1); }
      var it := p - HDR;
      if node[it].prev != 0 {
        node := node[node[it].prev := node[node[it].prev].(next := node[it].next)];
      }
      if node[it].next != 0 {
        node := node[node[it].next := node[node[it].next].(prev := node[it].prev)];
      }
      blocks := Removed(blocks, k);
      RemoveOrdered(b, k);
      RemoveLinked(m, node, b, k);
      forall i | 0 < i < |blocks| ensures blocks[i].End() <= occupiedTo {
        RemovedAt(b, k, i);
      }
    }

    /** Freeing a block right after it was allocated restores the list. */
    method AllocThenFree(size: nat, align: nat)
      requires Valid() && align > 0
      modifies this
      ensures Valid() && blocks == old(blocks)
    {
      var p, k := KmallocAlign(size, align);
      RemoveInserted(old(blocks), k, Block(p - HDR, size));
      InsertedAt(old(blocks), k, Block(p - HDR, size), k);
      Kfree(p, k);
    }

    /** kernlib/kernmem.c:122-129. */
    method ResizeInPlace(p: nat, size: nat, ghost k: nat) returns (done: bool)
      requires Valid() && LiveAt(p, k)
      modifies this`node, this`blocks
      ensures Valid() && done == Resizable(old(blocks), k, size)
      ensures blocks == if done then old(blocks)[k := Block(p - HDR, size)] else old(blocks)
    {
      assert LinkedAt(node, blocks, k);
      if k + 1 < |blocks| { AddrPositive(blocks, k + 1); }
      var kn := p - HDR;
      done := false;
      if node[kn].next != 0 {
        var gap := node[kn].next - p;
        if gap >= size + HDR {
          ghost var b, m := blocks, node;
          node := node[kn := node[kn].(sz := size)];
          blocks := blocks[k := Block(kn, size)];
          done := true;
          ResizeValid(b, blocks, m, node, k);
        }
      }
    }

    /** Allocate, copy, free (kernlib/kernmem.c:131-138). */
    method Move(p: nat, size: nat, align: nat, ghost k: nat) returns (q: nat, ghost j: nat)
      requires Valid() && align > 0 && LiveAt(p, k) && SafeCopy(blocks, k, size, align)
      modifies this
      ensures Valid() && occupiedTo >= old(occupiedTo)
      ensures LiveAt(q, j) && blocks[j].sz == size && Others(blocks, j) == Others(old(blocks), k)
      ensures Least(old(blocks), q - HDR, size, align)
      ensures Copied(old(mem), mem, p, q, old(blocks[k].sz)) && Clear(Others(old(blocks), k), q, old(blocks[k].sz))
    {
      ghost var b, i := blocks, 0;
      q, i := AllocAway(p, size, align, k);
      ghost var x := Block(q - HDR, size);
      Moved(b, k, i, x);
      j := MovedTo(k, i);
      Transfer(p, q, MovedFrom(k, i));
    }

    /** A place for block `k` to which its old size can be copied. */
    method AllocAway(p: nat, size: nat, align: nat, ghost k: nat) returns (q: nat, ghost i: nat)
      requires Valid() && align > 0 && LiveAt(p, k) && SafeCopy(blocks, k, size, align)
      modifies this`node, this`blocks, this`occupiedTo, this`requests
      ensures Valid() && occupiedTo >= old(occupiedTo) && q >= HDR && 0 < i <= |old(blocks)|
      ensures blocks == Inserted(old(blocks), i, Block(q - HDR, size))
      ensures Least(old(blocks), q - HDR, size, align)
      ensures Clear(Others(old(blocks), k), q, old(blocks[k].sz))
    {
      ghost var b := blocks;
      q, i := KmallocAlign(size, align);
      SafeClear(b, k, q - HDR, size, align);
    }

    /** Copy a block's bytes to `q` and free it. */
    method Transfer(p: nat, q: nat, ghost k: nat)
      requires Valid() && LiveAt(p, k)
      modifies this`mem, this`node, this`blocks
      ensures Valid() && blocks == Removed(old(blocks), k)
      ensures Copied(old(mem), mem, p, q, old(blocks[k].sz))
    {
      var n := Size(p, k);
      Copy(p, q, n);
      Kfree(p, k);
    }

    method Size(p: nat, ghost k: nat) returns (n: nat)
      requires Valid() && LiveAt(p, k)
      ensures n == blocks[k].sz
    {
      assert LinkedAt(node, blocks, k);
      n := node[p - HDR].sz;
    }

    method Copy(p: nat, q: nat, n: nat)
      modifies this`mem
      ensures Copied(old(mem), mem, p, q, n)
    {
      var m := mem;
      mem := Overwritten(m, p, q, n);
    }

    /** kernlib/kernmem.c:117-118. */
    method AllocNew(size: nat, align: nat) returns (q: nat, ghost j: nat)
      requires Valid() && align > 0
      modifies this`node, this`blocks, this`occupiedTo, this`requests
      ensures Valid() && occupiedTo >= old(occupiedTo)
      ensures LiveAt(q, j) && blocks[j].sz == size && Others(blocks, j) == old(blocks)
      ensures Least(old(blocks), q - HDR, size, align)
    {
      q, j := KmallocAlign(size, align);
      InsertedAt(old(blocks), j, Block(q - HDR, size), j);
      RemoveInserted(old(blocks), j, Block(q - HDR, size));
    }

    /** What a caller can check before shrinking a block, without changing anything. */
    method CanResize(p: nat, size: nat, align: nat, ghost k: nat) returns (safe: bool)
      requires Valid() && LiveAt(p, k) && align > 0
      ensures safe <==> SafeResize(blocks, k, size, align)
    {
      assert LinkedAt(node, blocks, k);
      LastBlock(blocks, k);
      var kn := node[p - HDR];
      if kn.sz <= size || (kn.next != 0 && kn.next - p >= size + HDR) {
        return true;
      }
      var it, at, gap, j := FindSpace(size, align);
      assert LinkedAt(node, blocks, j);
      LastBlock(blocks, j);
      NextOverruns(blocks, j, at, size, kn.sz);
      assert Least(blocks, at, size, align);
      safe := node[it].next == 0 || node[it].next >= at + HDR + kn.sz;
    }

    /** kernlib/kernmem.c:115-141. Moving a block copies its old size, so a caller that shrinks it must have room to
        resize in place, or no block within the old size behind the new place (`SafeResize`; `OverrunExactly` says that
        the copy hits a block otherwise, and `ShrinkOverrun` runs into it). The bytes that fit survive, no byte of
        another block changes, and the other blocks keep their place and size. The block stays where it is exactly if
        a header still fits behind it before the next block; otherwise it gets the lowest aligned placement. */
    method KreallocAlign(p: nat, size: nat, align: nat, ghost k: nat) returns (q: nat, ghost j: nat)
      requires Valid() && align > 0
      requires p != 0 ==> LiveAt(p, k) && SafeResize(blocks, k, size, align)
      modifies this
      ensures Valid() && occupiedTo >= old(occupiedTo)
      ensures LiveAt(q, j) && blocks[j].sz == size
      ensures Others(blocks, j) == if p == 0 then old(blocks) else Others(old(blocks), k)
      ensures q == p <==> p != 0 && k + 1 < |old(blocks)| && p + size + HDR <= old(blocks)[k + 1].addr
      ensures q != p ==> Least(old(blocks), q - HDR, size, align)
      ensures p == 0 ==> mem == old(mem)
      ensures p != 0 ==> Copied(old(mem), mem, p, q, if q == p then 0 else old(blocks[k].sz))
      ensures KeepsBytes(old(mem), mem, Others(blocks, j))
    {
      if p == 0 {
        q, j := AllocNew(size, align);
        return;
      }
      var done := ResizeInPlace(p, size, k);
      if done {
        ResizedOthers(old(blocks), k, Block(p - HDR, size));
        q, j := p, k;
      } else {
        ghost var n := blocks[k].sz;
        q, j := Move(p, size, align, k);
        NewPlace(old(blocks), k, q - HDR, size, align);
        CopiedSelf(old(mem), mem, p, n);
        CopyKeeps(old(mem), mem, p, q, n, Others(blocks, j));
      }
    }
  }

  /** Three calls on a new heap, after which a shrinking krealloc of the last block to 8 bytes would move it into
      the gap before itself and copy 32 bytes over the header of the block being copied. */
  method ShrinkOverrun() returns (h: Heap, p: nat)
    ensures fresh(h) && h.Valid() && h.LiveAt(p, 1) && |h.blocks| == 2
    ensures !SafeResize(h.blocks, 1, 8, 1) && Overruns(h.blocks, BASE + HDR, h.blocks[1].sz)
  {
    var first;
    ghost var top, rs;
    h, first, p, top, rs := TwoBlocks(8, 32, 0);
    h.Kfree(first, 1);
    FirstFits(56, 32, 8);
    assert Least(h.blocks, BASE + HDR, 8, 1) && BASE + HDR < h.blocks[1].addr;
  }

  /** Two blocks on a new heap with pages of 4 KB: the second reaches into a second page, and no page was ever
      requested. */
  method GrowthGap() returns (h: Heap)
    ensures fresh(h) && h.Valid() && h.requests == [] && |h.blocks| == 3
    ensures h.blocks[2].addr < BASE + h.unit < h.blocks[2].End() <= h.occupiedTo
  {
    var p, q;
    ghost var top, rs;
    h, p, q, top, rs := TwoBlocks(0x800, 0x800, 0x1000);
  }

  /** Two allocations on a new heap follow each other without a gap. */
  method TwoBlocks(n: nat, m: nat, unit: nat)
      returns (h: Heap, p: nat, q: nat, ghost top: nat, ghost rs: seq<(nat, nat)>)
    ensures fresh(h) && h.Valid() && h.unit == unit && h.LiveAt(p, 1) && h.LiveAt(q, 2)
    ensures h.blocks == [Block(BASE, 0), Block(BASE + HDR, n), Block(BASE + HDR + HDR + n, m)]
    ensures Grown(BASE, [], BASE + HDR + HDR + n, unit, top, rs)
    ensures Grown(top, rs, BASE + HDR + HDR + n + HDR + m, unit, h.occupiedTo, h.requests)
  {
    h := new Heap();
    h.unit := unit;
    ghost var i;
    p, i := h.KmallocAlign(n, 1);
    EmptyFits(n, i, p, h.blocks);
    top, rs := h.occupiedTo, h.requests;
    q, i := h.KmallocAlign(m, 1);
    SecondBlock(n, m, i, q, h.blocks);
  }

  lemma EmptyFits(size: nat, i: nat, p: nat, c: seq<Block>)
    requires i == 1 && p >= HDR && c == Inserted([Block(BASE, 0)], i, Block(p - HDR, size))
    requires Least([Block(BASE, 0)], p - HDR, size, 1)
    ensures p == BASE + HDR + HDR && c == [Block(BASE, 0), Block(BASE + HDR, size)]
  {
    assert Fits([Block(BASE, 0)], BASE + HDR, size, 1);
  }

  lemma SecondBlock(n: nat, m: nat, i: nat, q: nat, c: seq<Block>)
    requires 0 < i <= 2 && q >= HDR && Ordered(c)
    requires c == Inserted([Block(BASE, 0), Block(BASE + HDR, n)], i, Block(q - HDR, m))
    requires Least([Block(BASE, 0), Block(BASE + HDR, n)], q - HDR, m, 1)
    ensures q == BASE + HDR + HDR + n + HDR
    ensures c == [Block(BASE, 0), Block(BASE + HDR, n), Block(BASE + HDR + HDR + n, m)]
  {
    FirstFits(HDR, n, m);
    assert c[1].End() <= c[2].addr;
    assert i == 2;
  }

  /** Where a block fits beside one block at distance `d`: before it if there is room, behind it otherwise. */
  lemma FirstFits(d: nat, n: nat, size: nat)
    requires d >= HDR
    ensures Least([Block(BASE, 0), Block(BASE + d, n)],
        if HDR + HDR + size <= d then BASE + HDR else BASE + d + HDR + n, size, 1)
  {
    var b := [Block(BASE, 0), Block(BASE + d, n)];
    forall a: nat | Fits(b, a, size, 1) ensures a >= BASE + HDR && (HDR + HDR + size > d ==> a >= BASE + d + HDR + n) {
      assert a + HDR + size <= b[1].addr || b[1].End() <= a;
    }
  }

  function Overwritten(m: nat -> nat, p: nat, q: nat, n: nat): (m': nat -> nat)
    ensures Copied(m, m', p, q, n)
  {
    (a: nat) => if q <= a < q + n then m(a - q + p) else m(a)
  }

  /** `n` bytes at `q` now hold what was at `p`, and every other byte is as before. */
  ghost predicate Copied(m: nat -> nat, m': nat -> nat, p: nat, q: nat, n: nat) {
    forall a: nat :: CopiedAt(m, m', p, q, n, a)
  }

  ghost predicate CopiedAt(m: nat -> nat, m': nat -> nat, p: nat, q: nat, n: nat, a: nat) {
    m'(a) == if q <= a < q + n then m(a - q + p) else m(a)
  }

  /** Copying bytes onto themselves changes nothing. */
  lemma CopiedSelf(m: nat -> nat, m': nat -> nat, p: nat, n: nat)
    ensures Copied(m, m', p, p, n) ==> Copied(m, m', p, p, 0)
  {
    if Copied(m, m', p, p, n) {
      forall a: nat ensures CopiedAt(m, m', p, p, 0, a) {
        assert CopiedAt(m, m', p, p, n, a);
      }
    }
  }

  /** All nodes but one. */
  ghost function Others(b: seq<Block>, k: nat): seq<Block> {
    if k < |b| then Removed(b, k) else b
  }

  lemma ResizeValid(b: seq<Block>, b': seq<Block>, m: map<nat, Header>, m': map<nat, Header>, k: nat)
    requires Ordered(b) && Linked(m, b) && 0 < k && k + 1 < |b| == |b'|
    requires b' == b[k := Block(b[k].addr, b'[k].sz)] && b'[k].End() <= b[k + 1].addr
    requires b[k].addr in m && m' == m[b[k].addr := m[b[k].addr].(sz := b'[k].sz)]
    ensures Ordered(b') && Linked(m', b')
  {
    forall i, j | 0 <= i < j < |b'| ensures b'[i].End() <= b'[j].addr {
      assert i == k && j > k + 1 ==> b[k + 1].End() <= b[j].addr;
    }
    forall i | 0 <= i < |b'| ensures LinkedAt(m', b', i) {
      assert LinkedAt(m, b, i);
      if i != k { AddrApart(b, i, k); }
      assert NextOf(b', i) == NextOf(b, i) && PrevOf(b', i) == PrevOf(b, i);
    }
  }

  lemma ResizedOthers(b: seq<Block>, k: nat, x: Block)
    requires k < |b|
    ensures Others(b[k := x], k) == Others(b, k)
  {}

  /** Where block `k` is after a block was inserted at `i`, and where that one ends up once block `k` is gone. */
  ghost function MovedFrom(k: nat, i: nat): nat { if i <= k then k + 1 else k }
  ghost function MovedTo(k: nat, i: nat): nat { if i <= k then i else i - 1 }

  lemma Moved(b: seq<Block>, k: nat, i: nat, x: Block)
    requires 0 < k < |b| && 0 < i <= |b|
    ensures var c := Inserted(b, i, x);
      && 0 < MovedFrom(k, i) < |c| && c[MovedFrom(k, i)] == b[k]
      && var d := Removed(c, MovedFrom(k, i));
      0 < MovedTo(k, i) < |d| && d[MovedTo(k, i)] == x && Others(d, MovedTo(k, i)) == Others(b, k)
  {
    var d := Removed(Inserted(b, i, x), MovedFrom(k, i));
    if i <= k {
      assert d == b[..i] + [x] + (b[i..k] + b[k + 1..]);
    } else {
      assert d == (b[..k] + b[k + 1..i]) + [x] + b[i..];
    }
    assert Removed(d, MovedTo(k, i)) == b[..k] + b[k + 1..];
  }
}
