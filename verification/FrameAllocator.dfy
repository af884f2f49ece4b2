/** The physical memory allocator (modules/vmemory/allocator.c): free intervals in a tree ordered by address. */
module FrameAllocator {
  import opened Prelude
  import opened Arithmetic

  const WORD: nat := 0x1_0000_0000_0000_0000
  /** Sizes share a word with the colour bit. */
  const SIZE_LIMIT: nat := 0x8000_0000_0000_0000

  datatype Free = Free(addr: nat, size: nat) {
    function End(): nat { addr + size }
  }

  /** The tree without colours and parent links, which no search reads. */
  datatype Tree = Nil | Node(free: Free, left: Tree, right: Tree)

  function Nodes(t: Tree): seq<Free> {
    if t.Nil? then [] else Nodes(t.left) + [t.free] + Nodes(t.right)
  }

  /** Non-empty intervals, disjoint and in order of address. */
  ghost predicate Ordered(s: seq<Free>) {
    && (forall i :: 0 <= i < |s| ==> 0 < s[i].size < SIZE_LIMIT)
    && forall i, j :: 0 <= i < j < |s| ==> s[i].End() <= s[j].addr
  }

  ghost predicate Within(s: seq<Free>, i: int, a: nat) { 0 <= i < |s| && s[i].addr <= a < s[i].End() }

  /** Byte `a` is free. */
  ghost predicate IsFree(s: seq<Free>, a: nat) { exists i :: Within(s, i, a) }

  // ---- first fit with alignment ----

  /** Unsigned 64-bit subtraction. */
  function Minus(a: nat, b: nat): nat
    requires b <= WORD
  {
    if a >= b then a - b else a + WORD - b
  }

  /** The fit test of modules/vmemory/allocator.c:431, as coded: it always sets aside a whole alignment unit for an
      aligned node, and it may wrap. */
  predicate Fits(f: Free, size: nat, align: nat)
    requires 0 < align <= WORD
  {
    Minus(f.size, align - f.addr % align) >= size
  }

  /** alloc_tree_find_first_fit_align_r: node, then left, then right; the result is an in-order position. */
  function FirstFit(t: Tree, size: nat, align: nat): (r: Option<nat>)
    requires 0 < align <= WORD
    ensures r.Some? ==> r.value < |Nodes(t)| && Fits(Nodes(t)[r.value], size, align)
    ensures r.None? ==> forall i :: 0 <= i < |Nodes(t)| ==> !Fits(Nodes(t)[i], size, align)
  {
    if t.Nil? then None
    else if Fits(t.free, size, align) then Some(|Nodes(t.left)|)
    else
      var l := FirstFit(t.left, size, align);
      if l.Some? then l
      else
        var r := FirstFit(t.right, size, align);
        if r.Some? then Some(|Nodes(t.left)| + 1 + r.value) else None
  }

  /** The nodes as the search visits them: each one before its left and its right subtree. */
  function Visits(t: Tree): seq<Free> {
    if t.Nil? then [] else [t.free] + Visits(t.left) + Visits(t.right)
  }

  /** The first interval of at least `size` bytes in the list begins at `a`. */
  ghost predicate FirstOf(s: seq<Free>, a: nat, size: nat) {
    exists k :: 0 <= k < |s| && s[k].addr == a && s[k].size >= size && forall j :: 0 <= j < k ==> s[j].size < size
  }

  /** No interval of the list has `size` bytes. */
  ghost predicate NoneOf(s: seq<Free>, size: nat) {
    forall j :: 0 <= j < |s| ==> s[j].size < size
  }

  lemma FirstJoin(s: seq<Free>, t: seq<Free>, a: nat, size: nat)
    ensures FirstOf(s, a, size) ==> FirstOf(s + t, a, size)
    ensures NoneOf(s, size) && FirstOf(t, a, size) ==> FirstOf(s + t, a, size)
    ensures NoneOf(s, size) && NoneOf(t, size) ==> NoneOf(s + t, size)
  {
    if FirstOf(s, a, size) {
      var k :| 0 <= k < |s| && s[k].addr == a && s[k].size >= size && forall j :: 0 <= j < k ==> s[j].size < size;
      assert (s + t)[k] == s[k] && forall j :: 0 <= j < k ==> (s + t)[j] == s[j];
    }
    if NoneOf(s, size) && FirstOf(t, a, size) {
      var k :| 0 <= k < |t| && t[k].addr == a && t[k].size >= size && forall j :: 0 <= j < k ==> t[j].size < size;
      assert (s + t)[|s| + k] == t[k];
      forall j | 0 <= j < |s| + k ensures (s + t)[j].size < size {
        assert (s + t)[j] == if j < |s| then s[j] else t[j - |s|];
      }
    }
  }

  /** A node, its left and its right subtree as they are visited. */
  lemma FirstOfThree(x: Free, l: seq<Free>, r: seq<Free>, a: nat, size: nat)
    ensures x.size >= size ==> FirstOf([x] + l + r, x.addr, size)
    ensures x.size < size && FirstOf(l, a, size) ==> FirstOf([x] + l + r, a, size)
    ensures x.size < size && NoneOf(l, size) && FirstOf(r, a, size) ==> FirstOf([x] + l + r, a, size)
    ensures x.size < size && NoneOf(l, size) && NoneOf(r, size) ==> NoneOf([x] + l + r, size)
  {
    if x.size >= size {
      assert ([x] + l + r)[0] == x;
    } else {
      FirstJoin([x], l, a, size);
      FirstJoin([x] + l, r, a, size);
    }
  }

  /** On these nodes the fit test is about the size alone. */
  ghost predicate BySize(s: seq<Free>, size: nat, align: nat)
    requires 0 < align <= WORD
  {
    forall i :: 0 <= i < |s| ==> (Fits(s[i], size, align) <==> s[i].size >= size + align)
  }

  lemma BySizeParts(t: Tree, size: nat, align: nat)
    requires 0 < align <= WORD && t.Node? && BySize(Nodes(t), size, align)
    ensures BySize(Nodes(t.left), size, align) && BySize(Nodes(t.right), size, align)
    ensures Fits(t.free, size, align) <==> t.free.size >= size + align
  {
    var s, n := Nodes(t), |Nodes(t.left)|;
    assert s[n] == t.free;
    assert forall i :: 0 <= i < n ==> s[i] == Nodes(t.left)[i];
    assert forall i :: 0 <= i < |Nodes(t.right)| ==> s[n + 1 + i] == Nodes(t.right)[i];
  }

  /** Where the search ends. */
  function Hit(t: Tree, size: nat, align: nat): (a: nat)
    requires 0 < align <= WORD
  {
    var r := FirstFit(t, size, align);
    if r.Some? then Nodes(t)[r.value].addr else 0
  }

  lemma HitParts(t: Tree, size: nat, align: nat)
    requires 0 < align <= WORD && t.Node?
    ensures Hit(t, size, align) ==
      if Fits(t.free, size, align) then t.free.addr
      else if FirstFit(t.left, size, align).Some? then Hit(t.left, size, align) else Hit(t.right, size, align)
  {}

  /** The search takes the first node it visits that fits. */
  lemma {:induction false} FirstVisited(t: Tree, size: nat, align: nat)
    requires 0 < align <= WORD && BySize(Nodes(t), size, align)
    ensures if FirstFit(t, size, align).Some? then FirstOf(Visits(t), Hit(t, size, align), size + align)
            else NoneOf(Visits(t), size + align)
  {
    if t.Node? {
      BySizeParts(t, size, align);
      HitParts(t, size, align);
      FirstVisited(t.left, size, align);
      FirstVisited(t.right, size, align);
      FirstOfThree(t.free, Visits(t.left), Visits(t.right), Hit(t, size, align), size + align);
    }
  }

  /** Overwriting one node's interval in place. */
  function Set(t: Tree, k: nat, f: Free): (r: Tree)
    requires k < |Nodes(t)|
    ensures Nodes(r) == Nodes(t)[k := f]
  {
    var n := |Nodes(t.left)|;
    if k == n then t.(free := f)
    else if k < n then SetLeft(t, k, f); t.(left := Set(t.left, k, f))
    else SetRight(t, k, f); t.(right := Set(t.right, k - n - 1, f))
  }

  lemma SetLeft(t: Tree, k: nat, f: Free)
    requires t.Node? && k < |Nodes(t.left)|
    ensures Nodes(t)[k := f] == Nodes(t.left)[k := f] + [t.free] + Nodes(t.right)
  {}

  lemma SetRight(t: Tree, k: nat, f: Free)
    requires t.Node? && |Nodes(t.left)| < k < |Nodes(t)|
    ensures Nodes(t)[k := f] == Nodes(t.left) + [t.free] + Nodes(t.right)[k - |Nodes(t.left)| - 1 := f]
  {}

  /** Every interval starts and ends on a multiple of `unit`. */
  ghost predicate Aligned(s: seq<Free>, unit: nat)
    requires unit > 0
  {
    forall i :: 0 <= i < |s| ==> s[i].addr % unit == 0 && s[i].size % unit == 0
  }

  /** On aligned intervals the fit test asks for one unit more than the request. */
  lemma FitsExactly(f: Free, size: nat, align: nat)
    requires 0 < align <= WORD && f.addr % align == 0 && f.size % align == 0 && f.size > 0
    ensures Fits(f, size, align) <==> f.size >= size + align
  {
    assert f.size >= align;
  }

  /** Cutting the first `size` bytes off one interval. */
  lemma CutFront(s: seq<Free>, k: nat, size: nat)
    requires Ordered(s) && k < |s| && size < s[k].size
    ensures var f := s[k]; var s' := s[k := Free(f.addr + size, f.size - size)];
      Ordered(s') && forall a: nat :: IsFree(s', a) <==> IsFree(s, a) && !(f.addr <= a < f.addr + size)
  {
    var f := s[k];
    var s' := s[k := Free(f.addr + size, f.size - size)];
    forall a: nat ensures IsFree(s', a) <==> IsFree(s, a) && !(f.addr <= a < f.addr + size) {
      if IsFree(s', a) {
        var i :| Within(s', i, a);
        assert Within(s, i, a);
        assert i != k ==> s[i].End() <= f.addr || f.End() <= s[i].addr;
      }
      if IsFree(s, a) && !(f.addr <= a < f.addr + size) {
        var i :| Within(s, i, a);
        assert Within(s', i, a);
      }
    }
  }

  // ---- searching by address ----

  predicate Covers(f: Free, addr: nat, size: nat) { f.addr <= addr && addr + size <= f.End() }

  /** A covering interval lies on the side of `t`'s root that the search turns to. */
  lemma Side(t: Tree, addr: nat, size: nat, i: nat)
    requires t.Node? && Ordered(Nodes(t)) && size > 0 && i < |Nodes(t)| && Covers(Nodes(t)[i], addr, size)
    ensures !Covers(t.free, addr, size) ==> (if addr < t.free.addr then i < |Nodes(t.left)| else i > |Nodes(t.left)|)
  {
    var s, n := Nodes(t), |Nodes(t.left)|;
    assert s[n] == t.free;
  }

  lemma PartsOrdered(t: Tree)
    requires t.Node? && Ordered(Nodes(t))
    ensures Ordered(Nodes(t.left)) && Ordered(Nodes(t.right))
  {
    var s, n := Nodes(t), |Nodes(t.left)|;
    assert forall i :: 0 <= i < n ==> Nodes(t.left)[i] == s[i];
    assert forall i :: 0 <= i < |Nodes(t.right)| ==> Nodes(t.right)[i] == s[n + 1 + i];
  }

  /** The search has come down to `t`, whose nodes are a stretch of `s` that holds every covering interval. */
  ghost predicate Searching(s: seq<Free>, base: nat, t: Tree, addr: nat, size: nat) {
    && Ordered(Nodes(t)) && base + |Nodes(t)| <= |s| && Nodes(t) == s[base..base + |Nodes(t)|]
    && forall i :: 0 <= i < |s| && Covers(s[i], addr, size) ==> base <= i < base + |Nodes(t)|
  }

  lemma NoneCovers(s: seq<Free>, base: nat, addr: nat, size: nat)
    requires Searching(s, base, Nil, addr, size)
    ensures forall i :: 0 <= i < |s| ==> !Covers(s[i], addr, size)
  {}

  lemma RootAt(s: seq<Free>, base: nat, t: Tree)
    requires t.Node? && base + |Nodes(t)| <= |s| && Nodes(t) == s[base..base + |Nodes(t)|]
    ensures |Nodes(t.left)| < |Nodes(t)| && s[base + |Nodes(t.left)|] == t.free
  {
    assert Nodes(t)[|Nodes(t.left)|] == t.free;
  }

  lemma Narrowed(s: seq<Free>, base: nat, t: Tree, addr: nat, size: nat)
    requires size > 0 && t.Node? && Searching(s, base, t, addr, size) && !Covers(t.free, addr, size)
    ensures if addr < t.free.addr then Searching(s, base, t.left, addr, size)
            else Searching(s, base + |Nodes(t.left)| + 1, t.right, addr, size)
  {
    var n := |Nodes(t.left)|;
    PartsOrdered(t);
    forall i | 0 <= i < |s| && Covers(s[i], addr, size)
      ensures if addr < t.free.addr then i < base + n else i > base + n
    {
      assert s[i] == Nodes(t)[i - base];
      Side(t, addr, size, i - base);
    }
    Slices(s, base, Nodes(t.left), t.free, Nodes(t.right));
  }

  // ---- insertion and removal ----

  /** alloc_tree_insert without the rebalancing, which does not change the in-order sequence. */
  function Insert(t: Tree, f: Free): Tree {
    if t.Nil? then Node(f, Nil, Nil)
    else if f.addr < t.free.addr then t.(left := Insert(t.left, f))
    else t.(right := Insert(t.right, f))
  }

  ghost predicate SortedAround(s: seq<Free>, k: nat, f: Free) {
    && k <= |s| && (forall i :: 0 <= i < k ==> s[i].addr <= f.addr) && (forall i :: k <= i < |s| ==> f.addr < s[i].addr)
  }

  function Placed(s: seq<Free>, k: nat, f: Free): seq<Free>
    requires k <= |s|
  {
    s[..k] + [f] + s[k..]
  }

  /** An element of a sequence in three parts. */
  lemma PartAt(l: seq<Free>, m: Free, r: seq<Free>, i: nat)
    requires i < |l| + 1 + |r|
    ensures (l + [m] + r)[i] == if i < |l| then l[i] else if i == |l| then m else r[i - |l| - 1]
  {}

  /** A place in the left part is the place in the whole, if the root is above. */
  lemma PlaceLeft(l: seq<Free>, m: Free, r: seq<Free>, k: nat, f: Free)
    requires Ordered(l + [m] + r) && SortedAround(l, k, f) && f.addr < m.addr
    ensures SortedAround(l + [m] + r, k, f) && Placed(l + [m] + r, k, f) == Placed(l, k, f) + [m] + r
  {
    var s := l + [m] + r;
    PartAt(l, m, r, |l|);
    forall i | 0 <= i < |s| ensures if i < k then s[i].addr <= f.addr else f.addr < s[i].addr {
      PartAt(l, m, r, i);
      assert i > |l| ==> s[|l|].End() <= s[i].addr;
    }
  }

  lemma PlaceRight(l: seq<Free>, m: Free, r: seq<Free>, j: nat, f: Free)
    requires Ordered(l + [m] + r) && SortedAround(r, j, f) && m.addr <= f.addr
    ensures SortedAround(l + [m] + r, |l| + 1 + j, f)
        && Placed(l + [m] + r, |l| + 1 + j, f) == l + [m] + Placed(r, j, f)
  {
    var s, k := l + [m] + r, |l| + 1 + j;
    PartAt(l, m, r, |l|);
    forall i | 0 <= i < |s| ensures if i < k then s[i].addr <= f.addr else f.addr < s[i].addr {
      PartAt(l, m, r, i);
      assert i < |l| ==> s[i].End() <= s[|l|].addr;
    }
    assert s[..k] == l + [m] + r[..j] && s[k..] == r[j..];
  }

  lemma {:induction false} InsertPlaces(t: Tree, f: Free) returns (k: nat)
    requires Ordered(Nodes(t))
    ensures SortedAround(Nodes(t), k, f) && Nodes(Insert(t, f)) == Placed(Nodes(t), k, f)
  {
    if t.Nil? {
      k := 0;
    } else {
      PartsOrdered(t);
      var l, r := Nodes(t.left), Nodes(t.right);
      if f.addr < t.free.addr {
        k := InsertPlaces(t.left, f);
        PlaceLeft(l, t.free, r, k, f);
      } else {
        var j := InsertPlaces(t.right, f);
        k := |l| + 1 + j;
        PlaceRight(l, t.free, r, j, f);
      }
    }
  }

  /** Inserting an interval that overlaps none adds exactly its bytes. */
  lemma PlacedFree(s: seq<Free>, k: nat, f: Free)
    requires Ordered(s) && SortedAround(s, k, f) && 0 < f.size < SIZE_LIMIT
    requires forall i :: 0 <= i < |s| ==> f.End() <= s[i].addr || s[i].End() <= f.addr
    ensures Ordered(Placed(s, k, f))
    ensures forall a: nat :: IsFree(Placed(s, k, f), a) <==> IsFree(s, a) || f.addr <= a < f.End()
  {
    var p := Placed(s, k, f);
    forall i | 0 <= i < |p| ensures 0 < p[i].size < SIZE_LIMIT {
      PlacedAt(s, k, f, i);
    }
    forall i, j | 0 <= i < j < |p| ensures p[i].End() <= p[j].addr {
      PlacedAt(s, k, f, i);
      PlacedAt(s, k, f, j);
    }
    forall a: nat ensures IsFree(p, a) <==> IsFree(s, a) || f.addr <= a < f.End() {
      PlacedByte(s, k, f, a);
    }
  }

  lemma PlacedAt(s: seq<Free>, k: nat, f: Free, i: nat)
    requires k <= |s| && i <= |s|
    ensures Placed(s, k, f)[i] == if i < k then s[i] else if i == k then f else s[i - 1]
  {}

  lemma PlacedByte(s: seq<Free>, k: nat, f: Free, a: nat)
    requires k <= |s|
    ensures IsFree(Placed(s, k, f), a) <==> IsFree(s, a) || f.addr <= a < f.End()
  {
    var p := Placed(s, k, f);
    if i :| Within(p, i, a) {
      PlacedAt(s, k, f, i);
      assert i == k || Within(s, if i < k then i else i - 1, a);
    }
    if i :| Within(s, i, a) {
      PlacedAt(s, k, f, if i < k then i else i + 1);
      assert Within(p, if i < k then i else i + 1, a);
    }
    PlacedAt(s, k, f, k);
    assert Within(p, k, a) <==> f.addr <= a < f.End();
  }

  lemma Apart(s: seq<Free>, f: Free, i: nat)
    requires Ordered(s) && f.size > 0 && i < |s| && forall a: nat :: f.addr <= a < f.End() ==> !IsFree(s, a)
    ensures f.End() <= s[i].addr || s[i].End() <= f.addr
  {
    var a := if f.addr < s[i].addr then s[i].addr else f.addr;
    assert Within(s, i, a) ==> IsFree(s, a);
  }

  lemma InsertFree(t: Tree, f: Free)
    requires Ordered(Nodes(t)) && 0 < f.size < SIZE_LIMIT
    requires forall a: nat :: f.addr <= a < f.End() ==> !IsFree(Nodes(t), a)
    ensures Ordered(Nodes(Insert(t, f)))
    ensures forall a: nat :: IsFree(Nodes(Insert(t, f)), a) <==> IsFree(Nodes(t), a) || f.addr <= a < f.End()
  {
    var k := InsertPlaces(t, f);
    var s := Nodes(t);
    forall i | 0 <= i < |s| ensures f.End() <= s[i].addr || s[i].End() <= f.addr {
      Apart(s, f, i);
    }
    PlacedFree(s, k, f);
  }

  function Without(s: seq<Free>, k: nat): seq<Free>
    requires k < |s|
  {
    s[..k] + s[k + 1..]
  }

  function FromSeq(s: seq<Free>): (t: Tree)
    ensures Nodes(t) == s
  {
    if s == [] then Nil else Node(s[0], Nil, FromSeq(s[1..]))
  }

  /** Removal of a node, by its contract: some tree of the remaining nodes in order. */
  function Delete(t: Tree, k: nat): (r: Tree)
    requires k < |Nodes(t)|
    ensures Nodes(r) == Without(Nodes(t), k)
  {
    FromSeq(Without(Nodes(t), k))
  }

  lemma WithoutFree(s: seq<Free>, k: nat)
    requires Ordered(s) && k < |s|
    ensures Ordered(Without(s, k))
    ensures forall a: nat :: IsFree(Without(s, k), a) <==> IsFree(s, a) && !(s[k].addr <= a < s[k].End())
    ensures forall i :: 0 <= i < |s| - 1 ==> Without(s, k)[i].End() <= s[k].addr || s[k].End() <= Without(s, k)[i].addr
  {
    var w := Without(s, k);
    forall i | 0 <= i < |w| ensures 0 < w[i].size < SIZE_LIMIT && (w[i].End() <= s[k].addr || s[k].End() <= w[i].addr) {
      WithoutAt(s, k, i);
    }
    forall i, j | 0 <= i < j < |w| ensures w[i].End() <= w[j].addr {
      WithoutAt(s, k, i);
      WithoutAt(s, k, j);
    }
    forall a: nat ensures IsFree(w, a) <==> IsFree(s, a) && !(s[k].addr <= a < s[k].End()) {
      WithoutByte(s, k, a);
    }
  }

  lemma WithoutAt(s: seq<Free>, k: nat, i: nat)
    requires k < |s| && i < |s| - 1
    ensures Without(s, k)[i] == if i < k then s[i] else s[i + 1]
  {}

  lemma WithoutByte(s: seq<Free>, k: nat, a: nat)
    requires Ordered(s) && k < |s|
    ensures IsFree(Without(s, k), a) <==> IsFree(s, a) && !(s[k].addr <= a < s[k].End())
  {
    var w := Without(s, k);
    if i :| Within(w, i, a) {
      StillWithin(s, k, i, a);
    }
    if i :| Within(s, i, a) && i != k {
      var j := if i < k then i else i - 1;
      WithoutAt(s, k, j);
      assert Within(w, j, a);
    }
  }

  lemma StillWithin(s: seq<Free>, k: nat, i: nat, a: nat)
    requires Ordered(s) && k < |s| && Within(Without(s, k), i, a)
    ensures IsFree(s, a) && !(s[k].addr <= a < s[k].End())
  {
    WithoutAt(s, k, i);
    var j := if i < k then i else i + 1;
    assert Within(s, j, a);
    assert j < k ==> s[j].End() <= s[k].addr;
    assert k < j ==> s[k].End() <= s[j].addr;
  }

  /** What is free in `t` was free in `s`. */
  ghost predicate Shrunk(s: seq<Free>, t: seq<Free>) {
    forall a: nat :: IsFree(t, a) ==> IsFree(s, a)
  }

  /** The page at `p` was free in `s` and is not in `t`, no byte of it. */
  ghost predicate Gone(s: seq<Free>, t: seq<Free>, p: nat, page: nat) {
    forall a: nat :: p <= a < p + page ==> IsFree(s, a) && !IsFree(t, a)
  }

  /** The pages are aligned, no two are the same, and each was free in `s` and is not in `t`. */
  ghost predicate Handed(pages: seq<nat>, page: nat, s: seq<Free>, t: seq<Free>)
    requires page > 0
  {
    && Shrunk(s, t) && (forall i :: 0 <= i < |pages| ==> pages[i] % page == 0 && Gone(s, t, pages[i], page))
    && forall i, j :: 0 <= i < j < |pages| ==> pages[i] != pages[j]
  }

  lemma HandedMore(pages: seq<nat>, page: nat, s0: seq<Free>, s: seq<Free>, t: seq<Free>, p: nat)
    requires page > 0 && Handed(pages, page, s0, s) && Shrunk(s, t) && Gone(s, t, p, page) && p % page == 0
    ensures Handed(pages + [p], page, s0, t)
  {
    forall i | 0 <= i < |pages| ensures Gone(s0, t, pages[i], page) && pages[i] != p {
      assert Gone(s0, s, pages[i], page);
      assert IsFree(s, p) && !IsFree(s, pages[i]);
    }
  }

  class Allocator {
    var tree: Tree

    ghost predicate Valid()
      reads this
    {
      Ordered(Nodes(tree))
    }

    ghost predicate FreeByte(a: nat)
      reads this
    {
      IsFree(Nodes(tree), a)
    }

    /** allocator_init (modules/vmemory/allocator.c:78-86). */
    constructor (limit: nat)
      requires 0 < limit < SIZE_LIMIT
      ensures Valid() && Nodes(tree) == [Free(0, limit)]
    {
      tree := Node(Free(0, limit), Nil, Nil);
    }

    /** allocator_alloc_align (modules/vmemory/allocator.c:109-136) while all intervals are multiples of the alignment,
        so that no padding is split off. An interval is used only if it has a unit to spare, so the perfect-fit branch
        is never taken: the call succeeds exactly when some interval has `size + align` bytes. */
    method AllocAlign(size: nat, align: nat) returns (addr: Option<nat>)
      requires Valid() && 0 < align <= WORD && 0 < size && size % align == 0 && Aligned(Nodes(tree), align)
      modifies this
      ensures Valid() && Aligned(Nodes(tree), align)
      ensures addr.Some? <==> exists i :: 0 <= i < |old(Nodes(tree))| && old(Nodes(tree))[i].size >= size + align
      ensures addr.None? ==> tree == old(tree)
      ensures addr.Some? ==>
        addr.value % align == 0
        && (forall a: nat :: addr.value <= a < addr.value + size ==> old(FreeByte(a)))
      ensures addr.Some? ==>
        forall a: nat :: FreeByte(a) <==> old(FreeByte(a)) && !(addr.value <= a < addr.value + size)
      ensures addr.Some? ==> FirstOf(Visits(old(tree)), addr.value, size + align)
    {
      ghost var s := Nodes(tree);
      AllFitExactly(s, size, align);
      HitVisited(tree, size, align);
      var n := FirstFit(tree, size, align);
      if n.None? {
        return None;
      }
      var f := Nodes(tree)[n.value];
      var off := align - f.addr % align;
      if off == align {
        off := 0;
      }
      addr := Some(f.addr + off);
      CutFront(s, n.value, size);
      CutAligned(s, n.value, size, align);
      FrontFree(s, n.value, size);
      tree := Set(tree, n.value, Free(f.addr + (size + off), f.size - size - off));
    }

    /** Any number of one-page allocations (MAP_PAGE_ALLOC, modules/vmemory/vmemory.c:220-226, as used by every
        map_alloc of fewer than 512 pages): no two pages handed out share a frame, and each was free before. */
    method AllocPages(n: nat, page: nat) returns (pages: seq<nat>)
      requires Valid() && 0 < page <= WORD && Aligned(Nodes(tree), page)
      modifies this
      ensures Valid() && |pages| <= n && Handed(pages, page, old(Nodes(tree)), Nodes(tree))
      ensures |pages| < n ==> forall i :: 0 <= i < |Nodes(tree)| ==> Nodes(tree)[i].size < page + page
    {
      pages := [];
      ghost var s0 := Nodes(tree);
      var left := n;
      while left > 0
        invariant Valid() && Aligned(Nodes(tree), page) && |pages| + left == n && Handed(pages, page, s0, Nodes(tree))
      {
        ghost var s := Nodes(tree);
        var p := AllocPage(page);
        if p.None? {
          return;
        }
        HandedMore(pages, page, s0, s, Nodes(tree), p.value);
        pages := pages + [p.value];
        left := left - 1;
      }
    }

    method AllocPage(page: nat) returns (p: Option<nat>)
      requires Valid() && 0 < page <= WORD && Aligned(Nodes(tree), page)
      modifies this
      ensures Valid() && Aligned(Nodes(tree), page)
      ensures p.None? ==> tree == old(tree) && forall i :: 0 <= i < |Nodes(tree)| ==> Nodes(tree)[i].size < page + page
      ensures p.Some? ==> p.value % page == 0 && Shrunk(old(Nodes(tree)), Nodes(tree))
      ensures p.Some? ==> Gone(old(Nodes(tree)), Nodes(tree), p.value, page)
    {
      ghost var s := Nodes(tree);
      p := AllocAlign(page, page);
      ghost var t := Nodes(tree);
      if p.Some? {
        forall a: nat ensures IsFree(t, a) <==> IsFree(s, a) && !(p.value <= a < p.value + page) {
          assert FreeByte(a) <==> old(FreeByte(a)) && !(p.value <= a < p.value + page);
        }
        forall a: nat | p.value <= a < p.value + page ensures IsFree(s, a) {
          assert old(FreeByte(a));
        }
      }
    }

    /** alloc_tree_find_containing (modules/vmemory/allocator.c:454-463): succeeds exactly when one interval covers the
        request. */
    method FindContaining(addr: nat, size: nat) returns (k: Option<nat>)
      requires Valid() && size > 0
      ensures k.Some? ==> k.value < |Nodes(tree)| && Covers(Nodes(tree)[k.value], addr, size)
      ensures k.None? ==> forall i :: 0 <= i < |Nodes(tree)| ==> !Covers(Nodes(tree)[i], addr, size)
    {
      var cur := tree;
      var base := 0;
      ghost var s := Nodes(tree);
      while cur.Node?
        invariant 0 <= base && Searching(s, base, cur, addr, size)
        decreases cur
      {
        var n := |Nodes(cur.left)|;
        RootAt(s, base, cur);
        if addr >= cur.free.addr && addr + size <= cur.free.addr + cur.free.size {
          return Some(base + n);
        }
        Narrowed(s, base, cur, addr, size);
        if addr < cur.free.addr {
          cur := cur.left;
        } else {
          cur, base := cur.right, base + n + 1;
        }
      }
      NoneCovers(s, base, addr, size);
      k := None;
    }

    /** allocator_alloc_addr (modules/vmemory/allocator.c:138-167), with removal of a node taken by its contract:
        exactly the requested bytes stop being free. Intervals of whole units stay so if the request is one. */
    method AllocAddr(size: nat, addr: nat, ghost unit: nat) returns (r: Option<nat>)
      requires Valid() && size > 0 && unit > 0
      modifies this
      ensures Valid() && (Aligned(old(Nodes(tree)), unit) && addr % unit == 0 && size % unit == 0
          ==> Aligned(Nodes(tree), unit))
      ensures r.Some? <==> exists i :: 0 <= i < |old(Nodes(tree))| && Covers(old(Nodes(tree))[i], addr, size)
      ensures r.None? ==> tree == old(tree)
      ensures r.Some? ==>
        r.value == addr
        && (forall a: nat :: FreeByte(a) <==> old(FreeByte(a)) && !(addr <= a < addr + size))
    {
      var n := FindContaining(addr, size);
      if n.None? {
        return None;
      }
      var f := Nodes(tree)[n.value];
      ghost var s0 := Nodes(tree);
      WithoutFree(s0, n.value);
      FrontFree(s0, n.value, f.size);
      PartsAligned(s0, n.value, addr, size, unit);
      tree := Delete(tree, n.value);
      if f.size != size {
        Carve(f, addr, size, unit, s0);
      }
      return Some(addr);
    }

    /** The two parts of a split interval are put back (modules/vmemory/allocator.c:152-164). */
    method Carve(f: Free, addr: nat, size: nat, ghost unit: nat, ghost s0: seq<Free>)
      requires Valid() && Covers(f, addr, size) && f.size < SIZE_LIMIT && size > 0 && unit > 0
      requires forall a: nat :: IsFree(Nodes(tree), a) <==> IsFree(s0, a) && !(f.addr <= a < f.End())
      requires forall a: nat :: f.addr <= a < f.End() ==> IsFree(s0, a)
      modifies this
      ensures Valid() && forall a: nat :: IsFree(Nodes(tree), a) <==> IsFree(s0, a) && !(addr <= a < addr + size)
      ensures Aligned(old(Nodes(tree)), unit) && WholeParts(f, addr, size, unit) ==> Aligned(Nodes(tree), unit)
    {
      var addr1, addr2 := f.addr, addr + size;
      var size1, size2 := addr - f.addr, f.addr + f.size - addr - size;
      if size1 != 0 {
        PutBack(addr1, size1, unit);
      }
      assert forall a: nat :: IsFree(Nodes(tree), a) <==> IsFree(s0, a) && !(addr <= a < f.End());
      if size2 != 0 {
        PutBack(addr2, size2, unit);
      }
    }

    /** A new node for what is left of a split interval (modules/vmemory/allocator.c:156-158, 161-163). */
    method PutBack(addr: nat, size: nat, ghost unit: nat)
      requires Valid() && 0 < size < SIZE_LIMIT && forall a: nat :: addr <= a < addr + size ==> !IsFree(Nodes(tree), a)
      requires unit > 0
      modifies this
      ensures Valid()
      ensures forall a: nat :: IsFree(Nodes(tree), a) <==> IsFree(old(Nodes(tree)), a) || addr <= a < addr + size
      ensures Aligned(old(Nodes(tree)), unit) && addr % unit == 0 && size % unit == 0 ==> Aligned(Nodes(tree), unit)
    {
      InsertFree(tree, Free(addr, size));
      InsertAligned(tree, Free(addr, size), unit);
      tree := Insert(tree, Free(addr, size));
    }
  }

  /** The parts of `f` before and behind the range are whole units. */
  predicate WholeParts(f: Free, addr: nat, size: nat, unit: nat)
    requires Covers(f, addr, size) && unit > 0
  {
    f.addr % unit == 0 && (addr - f.addr) % unit == 0 && (addr + size) % unit == 0
      && (f.End() - addr - size) % unit == 0
  }

  lemma PartsAligned(s: seq<Free>, k: nat, addr: nat, size: nat, unit: nat)
    requires k < |s| && Covers(s[k], addr, size) && unit > 0
    ensures Aligned(s, unit) ==> Aligned(Without(s, k), unit)
    ensures Aligned(s, unit) && addr % unit == 0 && size % unit == 0 ==> WholeParts(s[k], addr, size, unit)
  {
    if Aligned(s, unit) {
      forall i | 0 <= i < |s| - 1 ensures Without(s, k)[i].addr % unit == 0 && Without(s, k)[i].size % unit == 0 {
        WithoutAt(s, k, i);
      }
      if addr % unit == 0 && size % unit == 0 {
        ModSum(s[k].addr, s[k].size, unit);
        ModSum(addr, size, unit);
        ModDiff(addr, s[k].addr, unit);
        ModDiff(s[k].End(), addr + size, unit);
      }
    }
  }

  lemma InsertAligned(t: Tree, f: Free, unit: nat)
    requires Ordered(Nodes(t)) && unit > 0
    ensures Aligned(Nodes(t), unit) && f.addr % unit == 0 && f.size % unit == 0 ==> Aligned(Nodes(Insert(t, f)), unit)
  {
    var k := InsertPlaces(t, f);
    var s := Nodes(t);
    if Aligned(s, unit) && f.addr % unit == 0 && f.size % unit == 0 {
      forall i | 0 <= i <= |s| ensures Placed(s, k, f)[i].addr % unit == 0 && Placed(s, k, f)[i].size % unit == 0 {
        PlacedAt(s, k, f, i);
      }
    }
  }

  /** Where the parts of a stretch lie in the whole. */
  lemma Slices(s: seq<Free>, base: nat, l: seq<Free>, m: Free, r: seq<Free>)
    requires base + |l| + 1 + |r| <= |s| && s[base..base + |l| + 1 + |r|] == l + [m] + r
    ensures s[base..base + |l|] == l && s[base + |l| + 1..base + |l| + 1 + |r|] == r
  {
    var w := s[base..base + |l| + 1 + |r|];
    assert w[..|l|] == l && w[|l| + 1..] == r;
    assert s[base..base + |l|] == w[..|l|];
    assert s[base + |l| + 1..base + |l| + 1 + |r|] == w[|l| + 1..];
  }

  lemma AllFitExactly(s: seq<Free>, size: nat, align: nat)
    requires Ordered(s) && 0 < align <= WORD && Aligned(s, align)
    ensures forall i :: 0 <= i < |s| ==> (Fits(s[i], size, align) <==> s[i].size >= size + align)
  {
    forall i | 0 <= i < |s| ensures Fits(s[i], size, align) <==> s[i].size >= size + align {
      FitsExactly(s[i], size, align);
    }
  }

  lemma HitVisited(t: Tree, size: nat, align: nat)
    requires Ordered(Nodes(t)) && 0 < align <= WORD && Aligned(Nodes(t), align)
    ensures FirstFit(t, size, align).Some? ==> FirstOf(Visits(t), Hit(t, size, align), size + align)
  {
    AllFitExactly(Nodes(t), size, align);
    FirstVisited(t, size, align);
  }

  lemma FrontFree(s: seq<Free>, k: nat, size: nat)
    requires k < |s| && size <= s[k].size
    ensures forall a: nat :: s[k].addr <= a < s[k].addr + size ==> IsFree(s, a)
  {
    forall a: nat | s[k].addr <= a < s[k].addr + size ensures IsFree(s, a) {
      assert Within(s, k, a);
    }
  }

  lemma CutAligned(s: seq<Free>, k: nat, size: nat, unit: nat)
    requires unit > 0 && Aligned(s, unit) && k < |s| && size % unit == 0 && size <= s[k].size
    ensures Aligned(s[k := Free(s[k].addr + size, s[k].size - size)], unit)
  {
    ModSum(s[k].addr, size, unit);
    ModDiff(s[k].size, size, unit);
  }

  lemma ModSum(a: nat, b: nat, n: nat)
    requires n > 0 && a % n == 0 && b % n == 0
    ensures (a + b) % n == 0
  {
    assert a == n * (a / n) && b == n * (b / n);
    assert a + b == n * (a / n + b / n);
    DivUnique(a + b, n, a / n + b / n, 0);
  }

  lemma ModDiff(a: nat, b: nat, n: nat)
    requires n > 0 && a % n == 0 && b % n == 0 && b <= a
    ensures (a - b) % n == 0
  {
    assert a == n * (a / n) && b == n * (b / n);
    DivMono(b, a, n);
    assert a - b == n * (a / n - b / n);
    DivUnique(a - b, n, a / n - b / n, 0);
  }
}
