/** Runs of the kernel heap: whoever owns a block finds in it what it wrote, whatever the other owners do. */
module HeapRuns {
  import opened Prelude
  import opened KernelHeap

  /** A pointer obtained from the heap, and the bytes its owner expects there. */
  datatype Owned = Owned(p: nat, data: seq<nat>)

  datatype Op =
    | Alloc(size: nat, align: nat)
    | Free(i: nat)
    | Write(i: nat, off: nat, x: nat)
    | Resize(i: nat, size: nat, align: nat)

  /** Block `k` is the one at `p`, of `n` bytes. */
  ghost predicate Has(b: seq<Block>, p: nat, n: nat, k: nat) {
    0 < k < |b| && p >= HDR && b[k] == Block(p - HDR, n)
  }

  ghost predicate Placed(b: seq<Block>, p: nat, n: nat) { exists k: nat :: Has(b, p, n, k) }

  ghost predicate Reads(m: nat -> nat, o: Owned) {
    forall j :: 0 <= j < |o.data| ==> m(o.p + j) == o.data[j]
  }

  /** The live blocks are exactly those of the owners, and hold what their owners expect. */
  ghost predicate Owns(b: seq<Block>, m: nat -> nat, h: seq<Owned>) {
    && |b| == |h| + 1
    && (forall i :: 0 <= i < |h| ==> Placed(b, h[i].p, |h[i].data|) && Reads(m, h[i]))
    && (forall i, j :: 0 <= i < j < |h| ==> h[i].p != h[j].p)
  }

  /** What the owners hold, and the list of blocks. */
  datatype State = State(held: seq<Owned>, blocks: seq<Block>)

  /** krealloc of the block of owner `i` hits no block. */
  ghost predicate Safe(s: State, i: nat, size: nat, align: nat)
    requires i < |s.held| && align > 0
  {
    forall k: nat :: Has(s.blocks, s.held[i].p, |s.held[i].data|, k) ==> SafeResize(s.blocks, k, size, align)
  }

  /** Block `o'` starts with the bytes of block `o`, as far as they fit. */
  ghost predicate Resized(o: Owned, o': Owned, size: nat) {
    |o'.data| == size && o'.data[..Min(|o.data|, size)] == o.data[..Min(|o.data|, size)]
  }

  /** What one operation means to the owners: only the owner concerned sees a change. */
  ghost predicate StepOk(s: State, op: Op, h': seq<Owned>) {
    var h := s.held;
    match op
    case Alloc(size, align) =>
      if align == 0 then h' == h
      else |h'| == |h| + 1 && h'[..|h|] == h && |h'[|h|].data| == size && Gets(s.blocks, h'[|h|].p, size, align)
    case Free(i) => h' == if i < |h| then h[..i] + h[i + 1..] else h
    case Write(i, off, x) =>
      h' == if i < |h| && off < |h[i].data| then h[i := Owned(h[i].p, h[i].data[off := x])] else h
    case Resize(i, size, align) =>
      if align > 0 && i < |h| && Safe(s, i, size, align) then
        |h'| == |h| && h' == h[i := h'[i]] && Resized(h[i], h'[i], size) && Stays(s.blocks, h[i], h'[i].p, size, align)
      else h' == h
  }

  /** A block at `p` is aligned and placed as low as it can be. */
  ghost predicate Gets(b: seq<Block>, p: nat, size: nat, align: nat)
    requires align > 0
  {
    p % align == 0 && p >= HDR && Least(b, p - HDR, size, align)
  }

  /** Where a resized block is: at its old place exactly if it has room there, and otherwise where a new one would
      be. */
  ghost predicate Stays(b: seq<Block>, o: Owned, p: nat, size: nat, align: nat)
    requires align > 0
  {
    forall k: nat :: Has(b, o.p, |o.data|, k) ==>
      && (p == o.p <==> k + 1 < |b| && o.p + size + HDR <= b[k + 1].addr)
      && (p != o.p ==> Gets(b, p, size, align))
  }

  /** A new block is new to every owner, and all keep theirs. */
  lemma AddedBlock(b: seq<Block>, k: nat, x: Block, p: nat, n: nat, align: nat)
    requires 0 < k <= |b| && align > 0 && Fits(b, x.addr, x.sz, align) && Placed(b, p, n)
    ensures Placed(Inserted(b, k, x), p, n) && p != x.Payload()
  {
    var j: nat :| Has(b, p, n, j);
    var j' := if j < k then j else j + 1;
    InsertedAt(b, k, x, j');
    assert Has(Inserted(b, k, x), p, n, j');
    assert x.addr + HDR + x.sz <= b[j].addr || b[j].End() <= x.addr;
  }

  lemma KeptBlock(b: seq<Block>, k: nat, p: nat, n: nat)
    requires 0 < k < |b| && Placed(b, p, n) && p != b[k].Payload()
    ensures Placed(Removed(b, k), p, n)
  {
    var j: nat :| Has(b, p, n, j);
    var j' := if j < k then j else j - 1;
    RemovedAt(b, k, j');
    assert Has(Removed(b, k), p, n, j');
  }

  /** A block that is one of the others is a block. */
  lemma OneOfOthers(b: seq<Block>, k: nat, p: nat, n: nat)
    requires 0 < k < |b| && Placed(Removed(b, k), p, n) && Ordered(b)
    ensures Placed(b, p, n) && p != b[k].Payload()
  {
    var j: nat :| Has(Removed(b, k), p, n, j);
    RemovedAt(b, k, j);
    var j' := if j < k then j else j + 1;
    assert Has(b, p, n, j');
    AddrApart(b, j', k);
  }

  function Bytes(m: nat -> nat, p: nat, n: nat): (s: seq<nat>)
    ensures |s| == n && Reads(m, Owned(p, s))
  {
    seq(n, j requires 0 <= j => m(p + j))
  }

  lemma AllocOwns(b: seq<Block>, m: nat -> nat, h: seq<Owned>, k: nat, p: nat, size: nat, align: nat)
    requires Owns(b, m, h) && align > 0 && 0 < k <= |b| && p >= HDR && Fits(b, p - HDR, size, align)
    ensures Owns(Inserted(b, k, Block(p - HDR, size)), m, h + [Owned(p, Bytes(m, p, size))])
  {
    var x := Block(p - HDR, size);
    forall i | 0 <= i < |h| ensures Placed(Inserted(b, k, x), h[i].p, |h[i].data|) && h[i].p != p {
      AddedBlock(b, k, x, h[i].p, |h[i].data|, align);
    }
    InsertedAt(b, k, x, k);
    assert Has(Inserted(b, k, x), p, size, k);
  }

  lemma FreeOwns(b: seq<Block>, m: nat -> nat, h: seq<Owned>, i: nat, k: nat)
    requires Owns(b, m, h) && i < |h| && Has(b, h[i].p, |h[i].data|, k)
    ensures Owns(Removed(b, k), m, h[..i] + h[i + 1..])
  {
    var h' := h[..i] + h[i + 1..];
    forall j | 0 <= j < |h'| ensures Placed(Removed(b, k), h'[j].p, |h'[j].data|) {
      assert h'[j] == if j < i then h[j] else h[j + 1];
      KeptBlock(b, k, h'[j].p, |h'[j].data|);
    }
  }

  /** Owners of blocks whose bytes were kept read what they did. */
  lemma OthersRead(b: seq<Block>, m: nat -> nat, m': nat -> nat, o: Owned)
    requires Placed(b, o.p, |o.data|) && KeepsBytes(m, m', b) && Reads(m, o)
    ensures Reads(m', o)
  {
    var k: nat :| Has(b, o.p, |o.data|, k);
    forall j | 0 <= j < |o.data| ensures m'(o.p + j) == o.data[j] {
      assert In(b[k], o.p + j);
      assert SameAt(m, m', o.p + j);
    }
  }

  /** One owner's block is replaced by another one, and no byte of the other blocks changes: the other owners notice
      nothing. */
  lemma ReplaceOwns(b: seq<Block>, m: nat -> nat, h: seq<Owned>, i: nat, k: nat, b': seq<Block>, m': nat -> nat,
      o: Owned, j: nat)
    requires Owns(b, m, h) && i < |h| && Has(b, h[i].p, |h[i].data|, k) && Ordered(b')
    requires Has(b', o.p, |o.data|, j) && Removed(b', j) == Removed(b, k) && Reads(m', o)
    requires KeepsBytes(m, m', Removed(b', j))
    ensures Owns(b', m', h[i := o])
  {
    forall l | 0 <= l < |h| && l != i
      ensures Placed(b', h[l].p, |h[l].data|) && h[l].p != o.p && Reads(m', h[l])
    {
      KeptBlock(b, k, h[l].p, |h[l].data|);
      OneOfOthers(b', j, h[l].p, |h[l].data|);
      OthersRead(Removed(b', j), m, m', h[l]);
    }
  }

  /** Writing one byte of a block touches no other block. */
  lemma WriteKeeps(b: seq<Block>, k: nat, m: nat -> nat, m': nat -> nat, at: nat)
    requires Ordered(b) && 0 < k < |b| && In(b[k], at) && forall a: nat :: a == at || SameAt(m, m', a)
    ensures KeepsBytes(m, m', Removed(b, k))
  {
    forall i, a: nat | 0 <= i < |b| - 1 && In(Removed(b, k)[i], a) ensures SameAt(m, m', a) {
      RemovedAt(b, k, i);
      assert i < k ==> b[i].End() <= b[k].addr;
      assert i >= k ==> b[k].End() <= b[i + 1].addr;
      assert a == at || SameAt(m, m', a);
    }
  }

  class Client {
    const heap: Heap
    var held: seq<Owned>

    ghost predicate Valid()
      reads this, heap
    {
      heap.Valid() && Owns(heap.blocks, heap.mem, held)
    }

    constructor (heap: Heap)
      requires heap.Valid() && |heap.blocks| == 1
      ensures Valid() && this.heap == heap && held == []
    {
      this.heap, held := heap, [];
    }

    method DoAlloc(size: nat, align: nat)
      requires Valid() && align > 0
      modifies this, heap
      ensures Valid() && StepOk(old(Now()), Alloc(size, align), held) && heap.occupiedTo >= old(heap.occupiedTo)
    {
      ghost var b := heap.blocks;
      var p, k := heap.KmallocAlign(size, align);
      AllocOwns(b, heap.mem, held, k, p, size, align);
      held := held + [Owned(p, Bytes(heap.mem, p, size))];
    }

    method DoFree(i: nat)
      requires Valid() && i < |held|
      modifies this, heap
      ensures Valid() && StepOk(old(Now()), Free(i), held) && heap.occupiedTo == old(heap.occupiedTo)
    {
      assert Placed(heap.blocks, held[i].p, |held[i].data|);
      ghost var k: nat :| Has(heap.blocks, held[i].p, |held[i].data|, k);
      FreeOwns(heap.blocks, heap.mem, held, i, k);
      heap.Kfree(held[i].p, k);
      held := held[..i] + held[i + 1..];
    }

    method DoWrite(i: nat, off: nat, x: nat)
      requires Valid() && i < |held| && off < |held[i].data|
      modifies this, heap
      ensures Valid() && StepOk(old(Now()), Write(i, off, x), held) && heap.occupiedTo == old(heap.occupiedTo)
    {
      assert Placed(heap.blocks, held[i].p, |held[i].data|);
      ghost var k: nat :| Has(heap.blocks, held[i].p, |held[i].data|, k);
      var m, at := heap.mem, held[i].p + off;
      var o := Owned(held[i].p, held[i].data[off := x]);
      heap.mem := (a: nat) => if a == at then x else m(a);
      assert Reads(m, held[i]);
      WriteKeeps(heap.blocks, k, m, heap.mem, at);
      ReplaceOwns(heap.blocks, m, held, i, k, heap.blocks, heap.mem, o, k);
      held := held[i := o];
    }

    /** krealloc where it is safe; where it is not, the owner leaves its block alone. */
    method DoResize(i: nat, size: nat, align: nat)
      requires Valid() && i < |held| && align > 0
      modifies this, heap
      ensures Valid() && StepOk(old(Now()), Resize(i, size, align), held) && heap.occupiedTo >= old(heap.occupiedTo)
    {
      ghost var b := heap.blocks;
      assert Placed(b, held[i].p, |held[i].data|);
      ghost var k: nat :| Has(b, held[i].p, |held[i].data|, k);
      HasOnce(b, held[i].p, |held[i].data|, k);
      var safe := heap.CanResize(held[i].p, size, align, k);
      if safe {
        Realloc(i, size, align, k);
      }
    }

    /** A block that krealloc can resize safely has the new size and starts with its old bytes; the other owners notice
        nothing. */
    method Realloc(i: nat, size: nat, align: nat, ghost k: nat)
      requires Valid() && i < |held| && align > 0
      requires Has(heap.blocks, held[i].p, |held[i].data|, k) && SafeResize(heap.blocks, k, size, align)
      modifies this, heap
      ensures Valid() && heap.occupiedTo >= old(heap.occupiedTo)
      ensures |held| == |old(held)| && held == old(held)[i := held[i]] && Resized(old(held)[i], held[i], size)
      ensures Stays(old(heap.blocks), old(held)[i], held[i].p, size, align)
    {
      ghost var b, m := heap.blocks, heap.mem;
      assert Reads(m, held[i]);
      HasOnce(b, held[i].p, |held[i].data|, k);
      var q, j := heap.KreallocAlign(held[i].p, size, align, k);
      var o := Owned(q, Bytes(heap.mem, q, size));
      Survives(m, heap.mem, held[i], q, o.data, if q == held[i].p then 0 else |held[i].data|);
      ReplaceOwns(b, m, held, i, k, heap.blocks, heap.mem, o, j);
      held := held[i := o];
    }

    ghost function Now(): State
      reads this, heap
    {
      State(held, heap.blocks)
    }

    /** Any run of allocating, freeing, writing and resizing: each operation changes what its own owner sees, in the way
        it should, and nothing else; at the end every owner still finds its bytes, the live blocks are exactly the
        owners', and the heap end has not fallen. */
    method Session(ops: seq<Op>) returns (ghost hist: seq<State>)
      requires Valid()
      modifies this, heap
      ensures Valid() && |hist| == |ops| + 1 && hist[0] == old(Now()) && hist[|ops|] == Now()
      ensures forall k :: 0 <= k < |ops| ==> StepOk(hist[k], ops[k], hist[k + 1].held)
      ensures heap.occupiedTo >= old(heap.occupiedTo)
    {
      hist := [Now()];
      for k := 0 to |ops|
        invariant Valid() && |hist| == k + 1 && hist[0] == old(Now()) && hist[k] == Now()
        invariant forall j :: 0 <= j < k ==> StepOk(hist[j], ops[j], hist[j + 1].held)
        invariant heap.occupiedTo >= old(heap.occupiedTo)
      {
        Perform(ops[k]);
        hist := hist + [Now()];
      }
    }

    method Perform(op: Op)
      requires Valid()
      modifies this, heap
      ensures Valid() && StepOk(old(Now()), op, held) && heap.occupiedTo >= old(heap.occupiedTo)
    {
      match op {
        case Alloc(size, align) =>
          if align > 0 { DoAlloc(size, align); }
        case Free(i) =>
          if i < |held| { DoFree(i); }
        case Write(i, off, x) =>
          if i < |held| && off < |held[i].data| { DoWrite(i, off, x); }
        case Resize(i, size, align) =>
          if align > 0 && i < |held| { DoResize(i, size, align); }
      }
    }
  }

  /** A pointer belongs to one block only. */
  lemma HasOnce(b: seq<Block>, p: nat, n: nat, k: nat)
    requires Ordered(b) && Has(b, p, n, k)
    ensures forall j: nat :: Has(b, p, n, j) ==> j == k
  {}

  /** A moved or resized block starts with its old bytes. */
  lemma Survives(m: nat -> nat, m': nat -> nat, o: Owned, q: nat, data: seq<nat>, n: nat)
    requires Reads(m, o) && Reads(m', Owned(q, data))
    requires n == (if q == o.p then 0 else |o.data|) && Copied(m, m', o.p, q, n)
    ensures Resized(o, Owned(q, data), |data|)
  {
    var l := Min(|o.data|, |data|);
    forall j | 0 <= j < l ensures data[j] == o.data[j] {
      assert m'(q + j) == data[j] && m(o.p + j) == o.data[j];
      assert CopiedAt(m, m', o.p, q, n, q + j);
    }
    assert o.data[..l] == data[..l];
  }
}
