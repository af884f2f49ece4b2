/** When thread_tree_insert keeps the textbook red-black invariant: no red node with a red child, and a black root. */
module Textbook {
  import opened Threads
  import opened RedBlack

  /** No red node with a red child within the context. */
  predicate CtxClean(c: Ctx) {
    match c
    case Top => true
    case Step(up, _, _, _, clr, sib) =>
      NoRedRed(sib) && CtxClean(up) && (clr == Red ==> !IsRed(sib) && (up.Top? || up.clr == Black))
  }

  lemma {:induction false} PlugClean(c: Ctx, t: Tree)
    ensures NoRedRed(Plug(c, t)) <==> NoRedRed(t) && CtxClean(c) && !(IsRed(t) && c.Step? && c.clr == Red)
    decreases c
  {
    match c
    case Top =>
    case Step(up, dir, ptr, thr, clr, sib) => PlugClean(up, Build(dir, ptr, thr, clr, t, sib));
  }

  lemma {:induction false} SlotPlug(c: Ctx, t: Tree, v: nat)
    ensures Plug(SlotOf(c, t, v), Leaf) == Plug(c, t)
    decreases t
  {
    if t.Fork? {
      if v < t.thr.vruntime {
        SlotPlug(Down(c, t, Left), t.left, v);
      } else {
        SlotPlug(Down(c, t, Right), t.right, v);
      }
    }
  }

  /** How the fix-up that starts in the hole of a context ends. */
  datatype End = AtTop | BelowBlack | BelowRedRoot | Rotation

  /** Red parents with red uncles are passed two levels at a time, as far as the colours above go. */
  function ChainEnd(c: Ctx): End {
    if c.Top? then AtTop
    else if c.clr == Black then BelowBlack
    else if c.up.Top? then BelowRedRoot
    else if IsRed(c.up.sib) then ChainEnd(c.up.up)
    else Rotation
  }

  /** Is the outermost node of the context red? */
  predicate RootRed(c: Ctx)
    requires c.Step?
  {
    if c.up.Top? then c.clr == Red else RootRed(c.up)
  }

  /** Is the root red after the fix-up? */
  predicate RedRootAfter(c: Ctx) {
    match ChainEnd(c)
    case AtTop => true
    case BelowBlack => RootRed(c)
    case BelowRedRoot => true
    case Rotation => RotatesInside(c) && RootRed(c)
  }

  /** The rotation that ends the chain is not at the root. */
  predicate RotatesInside(c: Ctx)
    requires ChainEnd(c) == Rotation
  {
    if IsRed(c.up.sib) then RotatesInside(c.up.up) else c.up.up.Step?
  }

  lemma {:induction false} PlugRoot(c: Ctx, t: Tree)
    ensures IsRed(Plug(c, t)) <==> if c.Top? then IsRed(t) else RootRed(c)
    decreases c
  {
    match c
    case Top =>
    case Step(up, dir, ptr, thr, clr, sib) => PlugRoot(up, Build(dir, ptr, thr, clr, t, sib));
  }

  /** From a clean context the fix-up leaves a clean tree exactly if it does not end below a red root. */
  lemma {:induction false} FixedClean(c: Ctx, t: Tree)
    requires CtxClean(c) && IsRed(t) && NoRedRed(t)
    ensures NoRedRed(Fixed(c, t)) <==> ChainEnd(c) != BelowRedRoot
    decreases c
  {
    if c.Top? || c.clr == Black || c.up.Top? {
      PlugClean(c, t);
    } else if IsRed(c.up.sib) {
      assert NoRedRed(Build(c.dir, c.ptr, c.thr, Black, t, c.sib)) && NoRedRed(c.up.sib.(clr := Black));
      FixedClean(c.up.up, Recolored(c, t));
    } else {
      RaisedClean(c, t);
      PlugClean(c.up.up, Raised(c.up, Outwards(c, t)));
    }
  }

  lemma RaisedClean(c: Ctx, t: Tree)
    requires CtxClean(c) && IsRed(t) && NoRedRed(t) && c.Step? && c.clr == Red && c.up.Step? && !IsRed(c.up.sib)
    ensures var r := Raised(c.up, Outwards(c, t)); NoRedRed(r) && !IsRed(r)
  {
    var d, o := c.up.dir, Outwards(c, t);
    assert NoRedRed(t.left) && NoRedRed(t.right) && !IsRed(t.left) && !IsRed(t.right);
    assert NoRedRed(c.sib) && !IsRed(c.sib);
    if c.dir != d {
      assert NoRedRed(Build(d, c.ptr, c.thr, c.clr, c.sib, ChildOf(t, d)));
    }
    assert NoRedRed(ChildOf(o, d)) && NoRedRed(ChildOf(o, d.Flip())) && !IsRed(ChildOf(o, d.Flip()));
    assert NoRedRed(c.up.sib);
    assert NoRedRed(Build(d.Flip(), c.up.ptr, c.up.thr, Red, c.up.sib, ChildOf(o, d.Flip())));
  }

  lemma {:induction false} FixedRoot(c: Ctx, t: Tree)
    requires IsRed(t)
    ensures IsRed(Fixed(c, t)) <==> RedRootAfter(c)
    decreases c
  {
    if c.Top? || c.clr == Black || c.up.Top? {
      PlugRoot(c, t);
    } else if IsRed(c.up.sib) {
      FixedRoot(c.up.up, Recolored(c, t));
      assert ChainEnd(c) == ChainEnd(c.up.up);
      assert c.up.up.Step? ==> RootRed(c) == RootRed(c.up) == RootRed(c.up.up);
    } else {
      PlugRoot(c.up.up, Raised(c.up, Outwards(c, t)));
      assert c.up.up.Step? ==> RootRed(c) == RootRed(c.up) == RootRed(c.up.up);
    }
  }

  lemma {:induction false} BlackAbove(c: Ctx)
    requires c.Step? && !RootRed(c)
    ensures ChainEnd(c) != BelowRedRoot && (RedRootAfter(c) <==> ChainEnd(c) == AtTop)
    decreases c
  {
    if c.clr == Red && c.up.Step? && IsRed(c.up.sib) && c.up.up.Step? {
      BlackAbove(c.up.up);
    }
  }

  /** The slot that a thread of vruntime `v` gets in a tree. */
  function SlotIn(t: Tree, v: nat): Ctx { SlotOf(Top, t, v) }

  /** From a tree without red nodes below red ones, insertion leaves such a tree exactly if the chain of recolourings
      does not stop below a red root, and a red root exactly as `RedRootAfter` says. From a black root the first is
      never lost, and the black root is lost exactly when the chain reaches it. */
  lemma InsertExactly(t: Tree, ptr: nat, thr: Thread)
    requires t.Fork? && NoRedRed(t)
    ensures var r, end := InsertTree(t, ptr, thr), ChainEnd(SlotIn(t, thr.vruntime));
      && (NoRedRed(r) <==> end != BelowRedRoot)
      && (IsRed(r) <==> RedRootAfter(SlotIn(t, thr.vruntime)))
      && (!IsRed(t) ==> NoRedRed(r) && (IsRed(r) <==> end == AtTop))
  {
    var c, x := SlotIn(t, thr.vruntime), Fork(ptr, thr, Red, Leaf, Leaf);
    SlotPlug(Top, t, thr.vruntime);
    PlugClean(c, Leaf);
    PlugRoot(c, Leaf);
    FixedClean(c, x);
    FixedRoot(c, x);
    if c.Step? && !RootRed(c) {
      BlackAbove(c);
    }
  }

  // ---- six insertions that reach case 4 ----

  function Th(v: nat): Thread { Thread(v, v, 1) }

  /** The node of thread `v`. */
  function Nd(v: nat, clr: Color, l: Tree, r: Tree): Tree { Fork(v, Th(v), clr, l, r) }

  /** Threads 1 to n queued in that order, each in the node of its number. */
  function Ascending(n: nat): Tree { if n == 0 then Leaf else InsertTree(Ascending(n - 1), n, Th(n)) }

  lemma FourAscending()
    ensures Ascending(4) == Nd(2, Red, Nd(1, Black, Leaf, Leaf), Nd(3, Black, Leaf, Nd(4, Red, Leaf, Leaf)))
  {
    assert Ascending(1) == Nd(1, Black, Leaf, Leaf);
    assert Ascending(2) == Nd(1, Black, Leaf, Nd(2, Red, Leaf, Leaf));
    assert Ascending(3) == Nd(2, Black, Nd(1, Red, Leaf, Leaf), Nd(3, Red, Leaf, Leaf));
  }

  lemma FiveAscending()
    ensures Ascending(5) == Nd(2, Red, Nd(1, Black, Leaf, Leaf),
        Nd(4, Black, Nd(3, Red, Leaf, Leaf), Nd(5, Red, Leaf, Leaf)))
  {
    FourAscending();
    assert Ascending(5) == InsertTree(Ascending(4), 5, Th(5));
  }

  /** The fourth insertion loses the black root, and the sixth ends in case 4 and leaves a red node below the red
      root. */
  lemma SixAscending()
    ensures NoRedRed(Ascending(4)) && IsRed(Ascending(4)) && !IsRed(Ascending(3))
    ensures NoRedRed(Ascending(5)) && ChainEnd(SlotIn(Ascending(5), 6)) == BelowRedRoot && !NoRedRed(Ascending(6))
  {
    FourAscending();
    FiveAscending();
    InsertExactly(Ascending(5), 6, Th(6));
  }
}
