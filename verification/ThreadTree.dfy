/** The run-queue tree of modules/mtask/thread_tree.c: nodes with parent pointers, rewritten in place. */
module ThreadTree {
  import opened Threads
  import opened RedBlack
  import opened Textbook

  datatype Node = Node(thr: Thread, clr: Color, left: nat, right: nat, parent: nat) {
    function Child(dir: Dir): nat { if dir == Left then left else right }
    function SetChild(dir: Dir, p: nat): Node { if dir == Left then this.(left := p) else this.(right := p) }
  }

  /** Node memory, keyed by address; address 0 is NULL. */
  type Store = map<nat, Node>

  // ---- when a store holds a tree ----

  function Addr(t: Tree): nat { if t.Leaf? then 0 else t.ptr }
  function Above(c: Ctx): nat { if c.Top? then 0 else c.ptr }

  function Ptrs(t: Tree): set<nat> {
    if t.Leaf? then {} else {t.ptr} + Ptrs(t.left) + Ptrs(t.right)
  }

  function CtxPtrs(c: Ctx): set<nat> {
    if c.Top? then {} else {c.ptr} + Ptrs(c.sib) + CtxPtrs(c.up)
  }

  /** No address occurs twice. */
  predicate Sep(t: Tree) {
    t.Leaf? || (
      && t.ptr != 0 && t.ptr !in Ptrs(t.left) && t.ptr !in Ptrs(t.right)
      && Ptrs(t.left) !! Ptrs(t.right) && Sep(t.left) && Sep(t.right))
  }

  predicate CtxSep(c: Ctx) {
    c.Top? || (
      && c.ptr != 0 && c.ptr !in Ptrs(c.sib) && c.ptr !in CtxPtrs(c.up)
      && Ptrs(c.sib) !! CtxPtrs(c.up) && Sep(c.sib) && CtxSep(c.up))
  }

  /** The nodes of `t` are laid out in `s` with the right colours, threads, child links and parent links. */
  predicate Holds(s: Store, parent: nat, t: Tree)
    decreases t
  {
    t.Leaf? || (
      && t.ptr in s && s[t.ptr] == Node(t.thr, t.clr, Addr(t.left), Addr(t.right), parent)
      && Holds(s, t.ptr, t.left) && Holds(s, t.ptr, t.right))
  }

  function StepNode(c: Ctx, hole: nat): Node
    requires c.Step?
  {
    if c.dir == Left then Node(c.thr, c.clr, hole, Addr(c.sib), Above(c.up))
    else Node(c.thr, c.clr, Addr(c.sib), hole, Above(c.up))
  }

  /** The nodes of `c` are laid out in `s`, with `hole` as the address in the missing child slot. */
  predicate CtxHolds(s: Store, c: Ctx, hole: nat)
    decreases c
  {
    c.Top? || (
      && c.ptr in s && s[c.ptr] == StepNode(c, hole)
      && Holds(s, c.ptr, c.sib) && CtxHolds(s, c.up, c.ptr))
  }

  /** The address that tree->root must hold. */
  function RootAddr(c: Ctx, hole: nat): nat
    decreases c
  {
    if c.Top? then hole else RootAddr(c.up, c.ptr)
  }

  /** The whole store, root pointer included, lays out `t` inside `c`. */
  predicate Laid(s: Store, root: nat, c: Ctx, t: Tree) {
    && Holds(s, Above(c), t) && CtxHolds(s, c, Addr(t)) && root == RootAddr(c, Addr(t))
    && Sep(t) && CtxSep(c) && Ptrs(t) !! CtxPtrs(c)
  }

  /** Zipping one level up or down does not change what is laid out. */
  lemma LaidUp(s: Store, root: nat, c: Ctx, t: Tree)
    requires c.Step?
    ensures Laid(s, root, c, t) <==> Laid(s, root, c.up, Build(c.dir, c.ptr, c.thr, c.clr, t, c.sib))
  {
  }

  lemma {:induction false} LaidPlug(s: Store, root: nat, c: Ctx, t: Tree)
    ensures Laid(s, root, c, t) <==> Laid(s, root, Top, Plug(c, t))
    decreases c
  {
    if c.Step? {
      LaidUp(s, root, c, t);
      LaidPlug(s, root, c.up, Build(c.dir, c.ptr, c.thr, c.clr, t, c.sib));
    }
  }

  predicate Agree(s: Store, s': Store, ps: set<nat>) {
    forall p :: p in ps && p in s ==> p in s' && s'[p] == s[p]
  }

  lemma {:induction false} HoldsFrame(s: Store, s': Store, parent: nat, t: Tree)
    requires Holds(s, parent, t) && Agree(s, s', Ptrs(t))
    ensures Holds(s', parent, t)
    decreases t
  {
    if t.Fork? {
      HoldsFrame(s, s', t.ptr, t.left);
      HoldsFrame(s, s', t.ptr, t.right);
    }
  }

  lemma {:induction false} CtxFrame(s: Store, s': Store, c: Ctx, hole: nat)
    requires CtxHolds(s, c, hole) && Agree(s, s', CtxPtrs(c))
    ensures CtxHolds(s', c, hole)
    decreases c
  {
    if c.Step? {
      HoldsFrame(s, s', c.ptr, c.sib);
      CtxFrame(s, s', c.up, c.ptr);
    }
  }

  /** Moving a laid-out subtree below another parent only rewrites the parent link of its root. */
  lemma Reparent(s: Store, s': Store, parent: nat, parent': nat, t: Tree)
    requires Holds(s, parent, t) && Sep(t)
    requires Agree(s, s', Ptrs(t) - {Addr(t)})
    requires t.Fork? ==> t.ptr in s' && s'[t.ptr] == s[t.ptr].(parent := parent')
    ensures Holds(s', parent', t)
  {
    if t.Fork? {
      HoldsFrame(s, s', t.ptr, t.left);
      HoldsFrame(s, s', t.ptr, t.right);
    }
  }

  /** Replacing the address in the hole of a context only rewrites one child link. */
  lemma Rehang(s: Store, s': Store, c: Ctx, hole: nat, hole': nat)
    requires CtxHolds(s, c, hole) && CtxSep(c)
    requires Agree(s, s', CtxPtrs(c) - {Above(c)})
    requires c.Step? ==> c.ptr in s' && s'[c.ptr] == s[c.ptr].SetChild(c.dir, hole')
    ensures CtxHolds(s', c, hole')
  {
    if c.Step? {
      HoldsFrame(s, s', c.ptr, c.sib);
      CtxFrame(s, s', c.up, c.ptr);
    }
  }

  /** Rotation keeps the in-order sequence. */
  lemma RotatedInorder(t: Tree, dir: Dir)
    requires t.Fork? && ChildOf(t, dir.Flip()).Fork?
    ensures Inorder(Rotated(t, dir)) == Inorder(t)
    ensures Ptrs(Rotated(t, dir)) == Ptrs(t)
  {
    var s := ChildOf(t, dir.Flip());
    if dir == Left {
      RotateSeq(Inorder(t.left), [t.thr], Inorder(s.left), [s.thr], Inorder(s.right));
    } else {
      RotateSeq(Inorder(s.left), [s.thr], Inorder(s.right), [t.thr], Inorder(t.right));
    }
  }

  lemma RotateSeq<T>(a: seq<T>, p: seq<T>, b: seq<T>, q: seq<T>, c: seq<T>)
    ensures (a + p + b) + q + c == a + p + (b + q + c)
  {}

  lemma RotatedSep(t: Tree, dir: Dir)
    requires t.Fork? && ChildOf(t, dir.Flip()).Fork? && Sep(t)
    ensures Sep(Rotated(t, dir))
  {
  }

  /** What is known about the nodes around a rotation. */
  lemma Opened(s: Store, root: nat, c: Ctx, t: Tree, dir: Dir)
    requires Laid(s, root, c, t) && t.Fork? && ChildOf(t, dir.Flip()).Fork?
    ensures var q := ChildOf(t, dir.Flip()); var a, m, b := ChildOf(t, dir), ChildOf(q, dir), ChildOf(q, dir.Flip());
      && t.ptr != 0 && t.ptr in s && s[t.ptr].parent == Above(c)
      && s[t.ptr].Child(dir) == Addr(a) && s[t.ptr].Child(dir.Flip()) == q.ptr
      && q.ptr != 0 && q.ptr in s && s[q.ptr].thr == q.thr && s[q.ptr].clr == q.clr
      && s[q.ptr].Child(dir) == Addr(m) && s[q.ptr].Child(dir.Flip()) == Addr(b)
      && t.ptr != q.ptr && t.ptr !in Ptrs(a) && t.ptr !in Ptrs(m) && t.ptr !in Ptrs(b)
      && q.ptr !in Ptrs(a) && q.ptr !in Ptrs(m) && q.ptr !in Ptrs(b)
      && Ptrs(a) !! Ptrs(m) && Ptrs(a) !! Ptrs(b) && Ptrs(m) !! Ptrs(b)
      && Sep(a) && Sep(m) && Sep(b)
      && Holds(s, t.ptr, a) && Holds(s, q.ptr, m) && Holds(s, q.ptr, b)
      && (m.Fork? ==> m.ptr != 0 && m.ptr in s && m.ptr in Ptrs(m))
      && t.ptr !in CtxPtrs(c) && q.ptr !in CtxPtrs(c)
      && Ptrs(a) !! CtxPtrs(c) && Ptrs(m) !! CtxPtrs(c) && Ptrs(b) !! CtxPtrs(c)
      && (c.Step? ==>
            c.ptr != 0 && c.ptr in s && c.ptr in CtxPtrs(c)
            && s[c.ptr].Child(c.dir) == t.ptr && s[c.ptr].Child(c.dir.Flip()) != t.ptr)
  {
    var q := ChildOf(t, dir.Flip());
    assert Holds(s, t.ptr, q) && Sep(q);
    assert Ptrs(q) == {q.ptr} + Ptrs(q.left) + Ptrs(q.right);
    var m := ChildOf(q, dir);
    assert Holds(s, q.ptr, m) && Sep(m);
    assert c.Step? && c.sib.Fork? ==> c.sib.ptr in Ptrs(c.sib);
  }

  /** The four nodes a rotation touches, as written by modules/mtask/thread_tree.c:9-18. */
  predicate RotateWrites(s: Store, s': Store, p: nat, q: nat, m: nat, c: Ctx, dir: Dir)
  {
    && p in s && q in s && (m != 0 ==> m in s) && (c.Step? ==> c.ptr in s)
    && p in s' && s'[p] == s[p].SetChild(dir.Flip(), m).(parent := q)
    && q in s' && s'[q] == s[q].SetChild(dir, p).(parent := Above(c))
    && (m != 0 ==> m in s' && s'[m] == s[m].(parent := p))
    && (c.Step? ==> c.ptr in s' && s'[c.ptr] == s[c.ptr].SetChild(c.dir, q))
    && forall x ::
        x in s && x != p && x != q && (m == 0 || x != m) && (c.Top? || x != c.ptr) ==> x in s' && s'[x] == s[x]
  }

  lemma RotateHolds(s: Store, s': Store, root: nat, c: Ctx, t: Tree, dir: Dir)
    requires Laid(s, root, c, t) && t.Fork? && ChildOf(t, dir.Flip()).Fork?
    requires var q := ChildOf(t, dir.Flip()); RotateWrites(s, s', t.ptr, q.ptr, Addr(ChildOf(q, dir)), c, dir)
    ensures Holds(s', Above(c), Rotated(t, dir))
  {
    var q := ChildOf(t, dir.Flip());
    var a, m, b := ChildOf(t, dir), ChildOf(q, dir), ChildOf(q, dir.Flip());
    Opened(s, root, c, t, dir);
    assert Agree(s, s', Ptrs(a));
    HoldsFrame(s, s', t.ptr, a);
    assert Agree(s, s', Ptrs(b));
    HoldsFrame(s, s', q.ptr, b);
    assert Agree(s, s', Ptrs(m) - {Addr(m)});
    Reparent(s, s', q.ptr, t.ptr, m);
    assert Holds(s', q.ptr, Build(dir, t.ptr, t.thr, t.clr, a, m));
  }

  lemma RotateLaid(s: Store, s': Store, root: nat, root': nat, c: Ctx, t: Tree, dir: Dir)
    requires Laid(s, root, c, t) && t.Fork? && ChildOf(t, dir.Flip()).Fork?
    requires var q := ChildOf(t, dir.Flip()); RotateWrites(s, s', t.ptr, q.ptr, Addr(ChildOf(q, dir)), c, dir)
    requires root' == if c.Top? then ChildOf(t, dir.Flip()).ptr else root
    ensures Laid(s', root', c, Rotated(t, dir))
  {
    var q := ChildOf(t, dir.Flip());
    RotateHolds(s, s', root, c, t, dir);
    assert CtxHolds(s', c, q.ptr) by {
      Opened(s, root, c, t, dir);
      var m := ChildOf(q, dir);
      assert Agree(s, s', CtxPtrs(c) - {Above(c)});
      Rehang(s, s', c, t.ptr, q.ptr);
    }
    RotatedSep(t, dir);
    RotatedInorder(t, dir);
  }

  function Paint(s: Store, p: nat, k: Color): Store
    requires p in s
  {
    s[p := s[p].(clr := k)]
  }

  lemma PaintLaid(s: Store, root: nat, c: Ctx, t: Tree, k: Color)
    requires Laid(s, root, c, t) && t.Fork?
    ensures t.ptr in s && Laid(Paint(s, t.ptr, k), root, c, t.(clr := k))
  {
    var s' := Paint(s, t.ptr, k);
    assert t.ptr in Ptrs(t);
    HoldsFrame(s, s', t.ptr, t.left);
    HoldsFrame(s, s', t.ptr, t.right);
    CtxFrame(s, s', c, t.ptr);
  }

  /** The context of the other child of the node above the hole. */
  function Across(c: Ctx, t: Tree): Ctx
    requires c.Step?
  {
    Step(c.up, c.dir.Flip(), c.ptr, c.thr, c.clr, t)
  }

  lemma LaidAcross(s: Store, root: nat, c: Ctx, t: Tree)
    requires c.Step?
    ensures Laid(s, root, c, t) <==> Laid(s, root, Across(c, t), c.sib)
  {
    LaidUp(s, root, c, t);
    LaidUp(s, root, Across(c, t), c.sib);
  }

  /** Case 2 on the store: three recolourings turn the tree into `Recolored`. */
  lemma RecolorLaid(s: Store, root: nat, c: Ctx, t: Tree)
    requires Laid(s, root, c, t) && c.Step? && c.up.Step? && c.up.sib.Fork?
    ensures c.ptr in s && c.up.sib.ptr in s && c.up.ptr in s
    ensures Laid(Paint(Paint(Paint(s, c.ptr, Black), c.up.sib.ptr, Black), c.up.ptr, Red), root, c.up.up,
        Recolored(c, t))
  {
    LaidUp(s, root, c, t);
    var p := Build(c.dir, c.ptr, c.thr, c.clr, t, c.sib);
    PaintLaid(s, root, c.up, p, Black);
    var s1, p' := Paint(s, c.ptr, Black), p.(clr := Black);
    LaidAcross(s1, root, c.up, p');
    var cu := Across(c.up, p');
    PaintLaid(s1, root, cu, c.up.sib, Black);
    var s2, u' := Paint(s1, c.up.sib.ptr, Black), c.up.sib.(clr := Black);
    LaidUp(s2, root, cu, u');
    PaintLaid(s2, root, c.up.up, Build(cu.dir, cu.ptr, cu.thr, cu.clr, u', p'), Red);
  }

  /** The last two recolourings of case 6, after the grandparent was rotated below `p`. */
  lemma RaiseLaid(s: Store, root: nat, c: Ctx, p: Tree)
    requires c.Step? && p.Fork?
    requires Laid(s, root, c.up, Rotated(Build(c.dir, c.ptr, c.thr, c.clr, p, c.sib), c.dir.Flip()))
    ensures p.ptr in s && c.ptr in s
    ensures Laid(Paint(Paint(s, p.ptr, Black), c.ptr, Red), root, c.up, Raised(c, p))
  {
    var d := c.dir.Flip();
    var g := Build(d, c.ptr, c.thr, c.clr, c.sib, ChildOf(p, d));
    var r := Build(d, p.ptr, p.thr, p.clr, g, ChildOf(p, c.dir));
    assert r == Rotated(Build(c.dir, c.ptr, c.thr, c.clr, p, c.sib), d);
    PaintLaid(s, root, c.up, r, Black);
    var s1 := Paint(s, p.ptr, Black);
    var cg := Step(c.up, d, p.ptr, p.thr, Black, ChildOf(p, c.dir));
    LaidUp(s1, root, cg, g);
    PaintLaid(s1, root, cg, g, Red);
    LaidUp(Paint(s1, c.ptr, Red), root, cg, g.(clr := Red));
  }

  /** The node above a hole knows on which side the hole is. */
  lemma SideOf(s: Store, root: nat, c: Ctx, t: Tree)
    requires Laid(s, root, c, t) && c.Step?
    ensures c.ptr != 0 && c.ptr in s && s[c.ptr].clr == c.clr && s[c.ptr].parent == Above(c.up)
    ensures s[c.ptr].Child(c.dir) == Addr(t) && s[c.ptr].Child(c.dir.Flip()) == Addr(c.sib)
    ensures t.Fork? ==> (if t.ptr == s[c.ptr].right then Right else Left) == c.dir
    ensures t.Fork? ==> Addr(t) != Addr(c.sib) && t.ptr in s && t.ptr != 0
    ensures c.sib.Fork? ==> c.sib.ptr in s && c.sib.ptr != 0 && s[c.sib.ptr].clr == c.sib.clr
  {
    assert t.Fork? ==> t.ptr in Ptrs(t);
    assert c.sib.Fork? ==> c.sib.ptr in Ptrs(c.sib) && c.sib.ptr in CtxPtrs(c);
    assert Holds(s, c.ptr, c.sib) && Sep(c.sib);
  }

  class Queue {
    var root: nat
    var node: Store
    ghost var shape: Tree

    method Rotate(p: nat, dir: Dir, ghost c: Ctx, ghost t: Tree) returns (s: nat)
      requires Laid(node, root, c, t) && t.Fork? && t.ptr == p && ChildOf(t, dir.Flip()).Fork?
      modifies this`root, this`node
      ensures Laid(node, root, c, Rotated(t, dir))
      ensures s == ChildOf(t, dir.Flip()).ptr
    {
      ghost var before, oldRoot := node, root;
      Opened(node, root, c, t, dir);
      var g := node[p].parent;
      s := node[p].Child(dir.Flip());
      var m := if s != 0 then node[s].Child(dir) else 0;
      node := node[p := node[p].SetChild(dir.Flip(), m)];
      if m != 0 { node := node[m := node[m].(parent := p)]; }
      if s != 0 { node := node[s := node[s].SetChild(dir, p)]; }
      node := node[p := node[p].(parent := s)];
      node := node[s := node[s].(parent := g)];
      if g != 0 {
        var side := if p == node[g].right then Right else Left;
        node := node[g := node[g].SetChild(side, s)];
      } else {
        root := s;
      }
      RotateLaid(before, node, oldRoot, root, c, t, dir);
    }

    /** The store holds the tree `Plug(c, t)`, whose in-order sequence is `goal` and whose nodes are `all`. */
    ghost predicate Fixing(c: Ctx, t: Tree, goal: seq<Thread>, all: set<nat>)
      reads this
    {
      Laid(node, root, c, t) && Inorder(Plug(c, t)) == goal && Ptrs(Plug(c, t)) == all
    }

    /** A new node written into the hole of `c` extends the layout. */
    static lemma HungLaid(before: Store, s: Store, root: nat, c: Ctx, t: Tree)
      requires t.Fork? && t.left.Leaf? && t.right.Leaf? && t.clr == Red && t.ptr != 0 && t.ptr !in CtxPtrs(c)
      requires CtxHolds(before, c, t.ptr) && CtxSep(c) && root == RootAddr(c, t.ptr)
      requires s == before[t.ptr := Node(t.thr, Red, 0, 0, Above(c))]
      ensures Laid(s, root, c, t) && Ptrs(t) == {t.ptr}
    {
      assert Ptrs(Leaf) == {} && Ptrs(t) == {t.ptr};
      assert Holds(s, t.ptr, Leaf) && Sep(Leaf) && Sep(t) && Holds(s, Above(c), t);
      assert Agree(before, s, CtxPtrs(c));
      CtxFrame(before, s, c, t.ptr);
    }

    lemma Hung(before: Store, c: Ctx, t: Tree)
      requires t.Fork? && t.left.Leaf? && t.right.Leaf? && t.clr == Red && t.ptr != 0 && t.ptr !in CtxPtrs(c)
      requires CtxHolds(before, c, t.ptr) && CtxSep(c) && root == RootAddr(c, t.ptr)
      requires node == before[t.ptr := Node(t.thr, Red, 0, 0, Above(c))]
      requires CtxBalanced(c, 0) && CtxColors(c)
      ensures Fixing(c, t, Before(c) + [t.thr] + After(c), CtxPtrs(c) + {t.ptr}) && Pending(c, t)
    {
      HungLaid(before, node, root, c, t);
      PendingAtLeaf(c, t.ptr, t.thr);
      PlugInorder(c, t);
      PlugPtrs(c, t);
    }

    lemma Finished(c: Ctx, t: Tree, goal: seq<Thread>, all: set<nat>)
      requires Fixing(c, t, goal, all) && Pending(c, t) && RedFits(c)
      ensures Fixing(Top, Plug(c, t), goal, all) && Relaxed(Plug(c, t))
    {
      LaidPlug(node, root, c, t);
      PendingDone(c, t);
    }

    /** Case 5 (modules/mtask/thread_tree.c:52-57): an inner grandchild is first rotated outwards. */
    method RotateOutwards(n: nat, p: nat, g: nat, dir: Dir, ghost c: Ctx, ghost t: Tree)
      returns (p': nat, ghost sub: Tree)
      requires Laid(node, root, c, t) && t.Fork? && c.Step? && c.up.Step?
      requires n == t.ptr && p == c.ptr && g == c.up.ptr && dir == c.up.dir
      modifies this`root, this`node
      ensures Outer(c, t, sub) && Laid(node, root, c.up, sub) && sub.Fork? && p' == sub.ptr
    {
      p' := p;
      LaidUp(node, root, c, t);
      SideOf(node, root, c, t);
      sub := Build(c.dir, c.ptr, c.thr, c.clr, t, c.sib);
      if n == node[p].Child(dir.Flip()) {
        assert c.dir == dir.Flip();
        var _ := Rotate(p, dir, c.up, sub);
        sub := Rotated(sub, dir);
        SideOf(node, root, c.up, sub);
        p' := node[g].Child(dir);
      }
    }

    /** Cases 5 and 6 (modules/mtask/thread_tree.c:50-62): red parent `p`, uncle black or absent. */
    method RaiseChild(n: nat, p: nat, g: nat, dir: Dir, ghost c: Ctx, ghost t: Tree,
                      ghost goal: seq<Thread>, ghost all: set<nat>) returns (ghost r: Tree)
      requires Fixing(c, t, goal, all) && Pending(c, t)
      requires c.Step? && c.clr == Red && c.up.Step? && !IsRed(c.up.sib)
      requires n == t.ptr && p == c.ptr && g == c.up.ptr && dir == c.up.dir
      modifies this`root, this`node
      ensures Fixing(Top, r, goal, all) && Relaxed(r) && r == Plug(c.up.up, Raised(c.up, Outwards(c, t)))
    {
      var p', sub := RotateOutwards(n, p, g, dir, c, t);
      OuterReady(c, t, sub);
      LaidUp(node, root, c.up, sub);
      ghost var whole := Build(dir, g, c.up.thr, c.up.clr, sub, c.up.sib);
      var _ := Rotate(g, dir.Flip(), c.up.up, whole);
      RaiseLaid(node, root, c.up, sub);
      node := node[p' := node[p'].(clr := Black)];
      node := node[g := node[g].(clr := Red)];
      r := Plug(c.up.up, Raised(c.up, sub));
      RaisedRelaxed(c.up, sub);
      RaisedSame(c, t, sub);
      LaidPlug(node, root, c.up.up, Raised(c.up, sub));
    }

    /** Case 2 (modules/mtask/thread_tree.c:64-67): parent and uncle are red. */
    method RecolorUp(p: nat, u: nat, g: nat, ghost c: Ctx, ghost t: Tree, ghost goal: seq<Thread>, ghost all: set<nat>)
      requires Fixing(c, t, goal, all) && Pending(c, t)
      requires c.Step? && c.clr == Red && c.up.Step? && IsRed(c.up.sib)
      requires p == c.ptr && u == c.up.sib.ptr && g == c.up.ptr
      modifies this`node
      ensures Fixing(c.up.up, Recolored(c, t), goal, all) && Pending(c.up.up, Recolored(c, t))
      ensures g in node && node[g].parent == Above(c.up.up)
    {
      RecolorLaid(node, root, c, t);
      RecoloredPending(c, t);
      RecoloredPtrs(c, t);
      node := node[p := node[p].(clr := Black)];
      node := node[u := node[u].(clr := Black)];
      node := node[g := node[g].(clr := Red)];
    }

    /** A red parent below a grandparent (modules/mtask/thread_tree.c:47-67): either a rotation ends the fix-up, or the
        grandparent becomes the pending node. */
    method RedParent(n: nat, p: nat, g: nat, ghost c: Ctx, ghost t: Tree, ghost goal: seq<Thread>, ghost all: set<nat>)
      returns (done: bool, ghost r: Tree)
      requires Fixing(c, t, goal, all) && Pending(c, t) && c.Step? && c.clr == Red && c.up.Step?
      requires n == t.ptr && p == c.ptr && g == c.up.ptr
      modifies this`root, this`node
      ensures done == !IsRed(c.up.sib)
      ensures done ==> Fixing(Top, r, goal, all) && Relaxed(r) && r == Plug(c.up.up, Raised(c.up, Outwards(c, t)))
      ensures !done ==> Fixing(c.up.up, Recolored(c, t), goal, all) && Pending(c.up.up, Recolored(c, t))
      ensures !done ==> g in node && node[g].parent == Above(c.up.up)
    {
      LaidUp(node, root, c, t);
      SideOf(node, root, c, t);
      SideOf(node, root, c.up, Build(c.dir, c.ptr, c.thr, c.clr, t, c.sib));
      var dir := if p == node[g].right then Right else Left;
      var u := node[g].Child(dir.Flip());
      done, r := true, Leaf;
      if u == 0 || node[u].clr == Black {
        r := RaiseChild(n, p, g, dir, c, t, goal, all);
        return;
      }
      RecolorUp(p, u, g, c, t, goal, all);
      done := false;
    }

    /** The fix-up loop of modules/mtask/thread_tree.c:35-68. */
    method FixUp(n0: nat, p0: nat, ghost c0: Ctx, ghost t0: Tree, ghost goal: seq<Thread>, ghost all: set<nat>)
      returns (ghost r: Tree)
      requires Fixing(c0, t0, goal, all) && Pending(c0, t0)
      requires n0 == t0.ptr && p0 == Above(c0) && p0 != 0
      modifies this`root, this`node
      ensures Fixing(Top, r, goal, all) && Relaxed(r) && r == Fixed(c0, t0)
    {
      var n, p := n0, p0;
      ghost var c, t := c0, t0;
      while p != 0
        invariant Fixing(c, t, goal, all) && Pending(c, t)
        invariant n == t.ptr && p == Above(c) && Fixed(c, t) == Fixed(c0, t0)
        decreases c
      {
        SideOf(node, root, c, t);
        if node[p].clr == Black {
          Finished(c, t, goal, all);
          return Plug(c, t);
        }
        var g := node[p].parent;
        if g == 0 {
          NoGrandparent(c);
          ghost var before := node;
          node := node[p := node[p].(clr := Red)];
          assert node == before;
          Finished(c, t, goal, all);
          return Plug(c, t);
        }
        var done;
        done, r := RedParent(n, p, g, c, t, goal, all);
        if done {
          return;
        }
        n := g;
        t, c := Recolored(c, t), c.up.up;
        p := node[n].parent;
      }
      Finished(c, t, goal, all);
      r := Plug(c, t);
    }

    /** modules/mtask/thread_tree.c:22-69, for a node `n` hung on side `dir` of `p`. The branch for a missing
        parent is kept although the only caller never takes it. */
    method InsertAt(n: nat, p: nat, dir: Dir, ghost c: Ctx) returns (ghost r: Tree)
      requires n != 0 && n in node && n !in CtxPtrs(c)
      requires CtxHolds(node, c, n) && CtxSep(c) && (c.Step? ==> root == RootAddr(c, n))
      requires p == Above(c) && (c.Step? ==> dir == c.dir)
      requires CtxBalanced(c, 0) && CtxColors(c)
      modifies this`root, this`node
      ensures Fixing(Top, r, Before(c) + [old(node[n].thr)] + After(c), CtxPtrs(c) + {n}) && Relaxed(r)
      ensures c.Step? ==> r == Fixed(c, Fork(n, old(node[n].thr), Red, Leaf, Leaf))
    {
      ghost var thr, before := node[n].thr, node;
      node := node[n := node[n].(clr := Red)];
      node := node[n := node[n].(left := 0, right := 0)];
      node := node[n := node[n].(parent := p)];
      if p == 0 {
        node := node[n := node[n].(clr := Black)];
        root := n;
        return Fork(n, thr, Black, Leaf, Leaf);
      }
      node := node[p := node[p].SetChild(dir, n)];
      ghost var t := Fork(n, thr, Red, Leaf, Leaf);
      assert node == before[n := Node(thr, Red, 0, 0, p)];
      Hung(before, c, t);
      r := FixUp(n, p, c, t, Before(c) + [thr] + After(c), CtxPtrs(c) + {n});
    }

    ghost predicate Valid()
      reads this
    {
      Laid(node, root, Top, shape) && Relaxed(shape) && Sorted(Inorder(shape))
    }

    /** The threads in the order the scheduler takes them. */
    ghost function Order(): seq<Thread>
      reads this
    {
      Inorder(shape)
    }

    constructor ()
      ensures Valid() && Order() == [] && node == map[]
    {
      root, node, shape := 0, map[], Leaf;
    }

    /** The descent of modules/mtask/thread_tree.c:82-92: the free child slot where `x` belongs. */
    method Descend(x: Thread) returns (r: nat, dir: Dir, ghost d: Ctx)
      requires Valid() && root != 0
      ensures d.Step? && r == d.ptr && dir == d.dir
      ensures Laid(node, root, d, Leaf) && Plug(d, Leaf) == shape
      ensures CtxBalanced(d, 0) && CtxColors(d)
      ensures AllAtMost(Before(d), x.vruntime) && AllAbove(After(d), x.vruntime)
      ensures d == SlotOf(Top, shape, x.vruntime)
    {
      r := root;
      ghost var c, t := Top, shape;
      while true
        invariant Laid(node, root, c, t) && t.Fork? && r == t.ptr && Plug(c, t) == shape
        invariant Sinking(c, t) && Sorted(Inorder(t))
        invariant AllAtMost(Before(c), x.vruntime) && AllAbove(After(c), x.vruntime)
        invariant SlotOf(c, t, x.vruntime) == SlotOf(Top, shape, x.vruntime)
        decreases t
      {
        DownLaid(node, root, c, t, Left);
        DownLaid(node, root, c, t, Right);
        dir := if x.vruntime < node[r].thr.vruntime then Left else Right;
        SinkOrder(c, t, dir, x);
        d := Down(c, t, dir);
        if node[r].Child(dir) == 0 {
          return;
        }
        c, t := d, ChildOf(t, dir);
        r := node[r].Child(dir);
      }
    }

    /** modules/mtask/thread_tree.c:71-94: `n` is queued behind every thread of vruntime at most its own, and
        the relaxed red-black invariant and the links survive all rotations. */
    method Insert(n: nat)
      requires Valid()
      requires n != 0 && n in node && n !in Ptrs(shape)
      modifies this
      ensures Valid()
      ensures Order() == InsertStable(old(Order()), old(node[n].thr))
      ensures Ptrs(shape) == old(Ptrs(shape)) + {n} && shape == InsertTree(old(shape), n, old(node[n].thr))
    {
      if root == 0 {
        InsertFirst(n);
      } else {
        InsertBelow(n);
      }
    }

    method InsertFirst(n: nat)
      requires Valid() && root == 0 && n != 0 && n in node
      modifies this
      ensures Valid() && Order() == InsertStable(old(Order()), old(node[n].thr))
      ensures Ptrs(shape) == old(Ptrs(shape)) + {n} && shape == InsertTree(old(shape), n, old(node[n].thr))
    {
      EmptyAtNull();
      ghost var x := node[n].thr;
      node := node[n := node[n].(clr := Black)];
      node := node[n := node[n].(left := 0, right := 0)];
      node := node[n := node[n].(parent := 0)];
      root := n;
      shape := Fork(n, x, Black, Leaf, Leaf);
      assert Inorder(shape) == [x];
    }

    method InsertBelow(n: nat)
      requires Valid() && root != 0 && n != 0 && n in node && n !in Ptrs(shape)
      modifies this
      ensures Valid() && Order() == InsertStable(old(Order()), old(node[n].thr))
      ensures Ptrs(shape) == old(Ptrs(shape)) + {n} && shape == InsertTree(old(shape), n, old(node[n].thr))
    {
      var r, dir, d := Descend(node[n].thr);
      Slot(d, shape, node[n].thr);
      HangLaid(node, root, d, n);
      node := node[r := node[r].SetChild(dir, n)];
      node := node[n := node[n].(left := 0, right := 0)];
      shape := InsertAt(n, r, dir, d);
    }

    /** The tail of thread_tree_add (modules/mtask/scheduler.c:192-195): a fresh node at address `n` takes over
        `th` and is queued. Whatever memory the node held before is overwritten. */
    method Add(n: nat, th: Thread)
      requires Valid() && n != 0 && n !in Ptrs(shape)
      modifies this
      ensures Valid() && Order() == InsertStable(old(Order()), th)
      ensures Ptrs(shape) == old(Ptrs(shape)) + {n} && shape == InsertTree(old(shape), n, th)
    {
      ghost var before := node;
      node := node[n := Node(th, if n in node then node[n].clr else Red, 0, 0, 0)];
      HoldsFrame(before, node, 0, shape);
      Insert(n);
    }

    /** Queueing any number of threads, one node each: the order is the stable insertion of them all, and no
        root-to-NULL path is longer than 2*log2(n+1)+2 nodes. */
    method AddAll(ns: seq<nat>, ths: seq<Thread>)
      requires Valid() && |ns| == |ths|
      requires forall i :: 0 <= i < |ns| ==> ns[i] != 0 && ns[i] !in Ptrs(shape)
      requires forall i, j :: 0 <= i < j < |ns| ==> ns[i] != ns[j]
      modifies this
      ensures Valid() && Order() == InsertAll(old(Order()), ths)
      ensures Height(shape) <= 2 * Log2(|Order()| + 1) + 2
    {
      for i := 0 to |ns|
        invariant Valid() && Order() == InsertAll(old(Order()), ths[..i])
        invariant forall j :: i <= j < |ns| ==> ns[j] !in Ptrs(shape)
      {
        assert ths[..i + 1][..i] == ths[..i];
        Add(ns[i], ths[i]);
      }
      assert ths[..|ns|] == ths;
      RelaxedHeight(shape);
      SizeIsLength(shape);
    }

    /** Reading the least vruntime by following left links (modules/mtask/scheduler.c:210-219). */
    method MinVruntime() returns (v: nat)
      requires Valid()
      ensures v == if Order() == [] then 0 else Order()[0].vruntime
    {
      var r := root;
      if r == 0 {
        EmptyAtNull();
        return 0;
      }
      ghost var c, t := Top, shape;
      while node[r].left != 0
        invariant Laid(node, root, c, t) && t.Fork? && r == t.ptr && Plug(c, t) == shape
        invariant Sinking(c, t) && Before(c) == []
        invariant r in node && node[r].thr == t.thr && node[r].left == Addr(t.left)
        decreases t
      {
        DownLaid(node, root, c, t, Left);
        c, t := Down(c, t, Left), t.left;
        r := node[r].left;
      }
      assert Sep(t.left);
      PlugInorder(c, t);
      v := node[r].thr.vruntime;
    }

    lemma EmptyAtNull()
      requires Laid(node, root, Top, shape) && root == 0
      ensures shape == Leaf
    {}
  }

  /** Six threads queued in the order of their vruntimes leave a red root with a red child. */
  method SixThreads() returns (q: Queue)
    ensures fresh(q) && q.Valid() && q.shape == Ascending(6) && !NoRedRed(q.shape)
  {
    q := new Queue();
    for i := 0 to 6
      invariant q.Valid() && fresh(q) && q.shape == Ascending(i) && forall p :: p in Ptrs(q.shape) ==> p <= i
    {
      q.Add(i + 1, Th(i + 1));
    }
    SixAscending();
  }

  function InsertAll(s: seq<Thread>, ths: seq<Thread>): seq<Thread> {
    if ths == [] then s else InsertStable(InsertAll(s, ths[..|ths| - 1]), ths[|ths| - 1])
  }

  lemma {:induction false} SizeIsLength(t: Tree)
    ensures Size(t) == |Inorder(t)|
  {
    if t.Fork? {
      SizeIsLength(t.left);
      SizeIsLength(t.right);
    }
  }

  /** Parent and child links are mutual throughout a laid-out tree. */
  lemma {:induction false} LinksMutual(s: Store, parent: nat, t: Tree, p: nat)
    requires Holds(s, parent, t) && Sep(t) && p in Ptrs(t)
    ensures p in s
    ensures forall d: Dir :: var q := s[p].Child(d); q != 0 ==> q in s && s[q].parent == p
    ensures if p == t.ptr then s[p].parent == parent
            else s[p].parent in Ptrs(t) && s[p].parent in s && exists d: Dir :: s[s[p].parent].Child(d) == p
    decreases t
  {
    assert Holds(s, t.ptr, t.left) && Holds(s, t.ptr, t.right);
    assert s[t.ptr].Child(Left) == Addr(t.left) && s[t.ptr].Child(Right) == Addr(t.right);
    if p in Ptrs(t.left) {
      LinksMutual(s, t.ptr, t.left, p);
    } else if p in Ptrs(t.right) {
      LinksMutual(s, t.ptr, t.right, p);
    }
  }

  /** Writing the child link and clearing the children of the new node leaves the rest of the tree in place. */
  lemma HangLaid(s: Store, root: nat, d: Ctx, n: nat)
    requires d.Step? && Laid(s, root, d, Leaf) && n in s && n !in CtxPtrs(d)
    ensures d.ptr in s
    ensures var s' := s[d.ptr := s[d.ptr].SetChild(d.dir, n)][n := s[n].(left := 0, right := 0)];
      CtxHolds(s', d, n) && root == RootAddr(d, n) && CtxSep(d)
  {
    assert d.ptr in CtxPtrs(d);
    var s' := s[d.ptr := s[d.ptr].SetChild(d.dir, n)][n := s[n].(left := 0, right := 0)];
    Rehang(s, s', d, 0, n);
  }

  /** Filling the free slot found by the descent is a stable insertion. */
  lemma Slot(d: Ctx, whole: Tree, x: Thread)
    requires Plug(d, Leaf) == whole && Sorted(Inorder(whole))
    requires AllAtMost(Before(d), x.vruntime) && AllAbove(After(d), x.vruntime)
    ensures Before(d) + [x] + After(d) == InsertStable(Inorder(whole), x)
    ensures Sorted(Before(d) + [x] + After(d)) && CtxPtrs(d) == Ptrs(whole)
  {
    PlugInorder(d, Leaf);
    PlugPtrs(d, Leaf);
    assert Before(d) + [] + After(d) == Before(d) + After(d);
    InsertStableSplit(Before(d), x, After(d));
    InsertStableMeaning(Inorder(whole), x);
  }

  /** What the descent knows about the place it has reached. */
  predicate Sinking(c: Ctx, t: Tree) {
    && Balanced(t) && CtxBalanced(c, BlackHeight(t)) && CtxColors(c)
    && (if c.Top? then Relaxed(t) else NoRedRed(t) && (IsRed(t) ==> RedFits(c)))
  }

  lemma DownLaid(s: Store, root: nat, c: Ctx, t: Tree, dir: Dir)
    requires Laid(s, root, c, t) && t.Fork? && Sinking(c, t)
    ensures Laid(s, root, Down(c, t, dir), ChildOf(t, dir)) && Sinking(Down(c, t, dir), ChildOf(t, dir))
    ensures Plug(Down(c, t, dir), ChildOf(t, dir)) == Plug(c, t)
    ensures t.ptr in s && s[t.ptr].thr == t.thr && s[t.ptr].Child(dir) == Addr(ChildOf(t, dir))
    ensures Addr(ChildOf(t, dir)) == 0 <==> ChildOf(t, dir).Leaf?
  {
    LaidUp(s, root, Down(c, t, dir), ChildOf(t, dir));
    assert Sep(t.left) && Sep(t.right);
  }

  lemma SinkOrder(c: Ctx, t: Tree, dir: Dir, x: Thread)
    requires t.Fork? && Sorted(Inorder(t))
    requires AllAtMost(Before(c), x.vruntime) && AllAbove(After(c), x.vruntime)
    requires dir == if x.vruntime < t.thr.vruntime then Left else Right
    ensures Sorted(Inorder(ChildOf(t, dir)))
    ensures AllAtMost(Before(Down(c, t, dir)), x.vruntime) && AllAbove(After(Down(c, t, dir)), x.vruntime)
  {
    SortedParts(Inorder(t.left), t.thr, Inorder(t.right), x.vruntime);
  }

  lemma NoGrandparent(c: Ctx)
    requires CtxSep(c) && c.Step? && Above(c.up) == 0
    ensures c.up.Top?
  {
    assert CtxSep(c.up);
  }

  lemma RecoloredPtrs(c: Ctx, t: Tree)
    requires c.Step? && c.up.Step? && c.up.sib.Fork?
    ensures Ptrs(Plug(c.up.up, Recolored(c, t))) == Ptrs(Plug(c, t))
  {
    PlugPtrs(c, t);
    PlugPtrs(c.up.up, Recolored(c, t));
    PaintedInorder(c.up.sib, Black);
    assert Ptrs(Build(c.dir, c.ptr, c.thr, Black, t, c.sib)) == {c.ptr} + Ptrs(t) + Ptrs(c.sib);
    assert CtxPtrs(c.up) == {c.up.ptr} + Ptrs(c.up.sib) + CtxPtrs(c.up.up);
  }

  /** What case 5 leaves for case 6: a red node whose inner child is black, with the same threads and nodes. */
  predicate Outer(c: Ctx, t: Tree, sub: Tree)
    requires c.Step? && c.up.Step?
  {
    t.Fork? && sub == Outwards(c, t)
  }

  lemma OuterReady(c: Ctx, t: Tree, sub: Tree)
    requires Pending(c, t) && c.Step? && c.clr == Red && c.up.Step? && !IsRed(c.up.sib)
    requires Outer(c, t, sub)
    ensures IsRed(sub) && Balanced(sub) && NoRedRed(sub.left) && NoRedRed(sub.right)
    ensures !IsRed(ChildOf(sub, c.up.dir.Flip()))
    ensures CtxColors(c.up) && CtxBalanced(c.up, BlackHeight(sub)) && RedFits(c.up)
  {
    var h := BlackHeight(t);
    assert Balanced(c.sib) && BlackHeight(c.sib) == h && NoRedRed(c.sib) && !IsRed(c.sib);
    assert CtxColors(c.up) && CtxBalanced(c.up, h) && RedFits(c.up);
    if c.dir != c.up.dir {
      var d := c.up.dir;
      InnerReady(c.sib, t, Build(d, c.ptr, c.thr, Red, c.sib, ChildOf(t, d)), d, c.ptr, c.thr, h);
    }
  }

  lemma InnerReady(sib: Tree, t: Tree, low: Tree, d: Dir, ptr: nat, thr: Thread, h: nat)
    requires IsRed(t) && NoRedRed(t) && Balanced(t) && BlackHeight(t) == h
    requires Balanced(sib) && BlackHeight(sib) == h && NoRedRed(sib) && !IsRed(sib)
    requires low == Build(d, ptr, thr, Red, sib, ChildOf(t, d))
    ensures Balanced(low) && NoRedRed(low) && BlackHeight(low) == h
    ensures var o := ChildOf(t, d.Flip()); Balanced(o) && NoRedRed(o) && !IsRed(o) && BlackHeight(o) == h
  {
  }

  lemma {:induction false} PlugPtrs(c: Ctx, t: Tree)
    ensures Ptrs(Plug(c, t)) == CtxPtrs(c) + Ptrs(t)
    decreases c
  {
    if c.Step? {
      PlugPtrs(c.up, Build(c.dir, c.ptr, c.thr, c.clr, t, c.sib));
    }
  }

  lemma PaintedInorder(t: Tree, k: Color)
    requires t.Fork?
    ensures Inorder(t.(clr := k)) == Inorder(t) && Ptrs(t.(clr := k)) == Ptrs(t)
  {}

  /** Up to colours, `Raised` is a rotation of the grandparent. */
  lemma RaisedInorder(c: Ctx, p: Tree)
    requires c.Step? && p.Fork?
    ensures var g := Build(c.dir, c.ptr, c.thr, c.clr, p, c.sib);
      Inorder(Raised(c, p)) == Inorder(g) && Ptrs(Raised(c, p)) == Ptrs(g)
  {
    var d := c.dir.Flip();
    var g := Build(c.dir, c.ptr, c.thr, c.clr, p, c.sib);
    RotatedInorder(g, d);
    var low := Build(d, c.ptr, c.thr, c.clr, c.sib, ChildOf(p, d));
    PaintedInorder(low, Red);
    var low' := low.(clr := Red);
    assert Inorder(Raised(c, p)) == Inorder(Build(d, p.ptr, p.thr, p.clr, low', ChildOf(p, c.dir)));
    assert Ptrs(Raised(c, p)) == Ptrs(Build(d, p.ptr, p.thr, p.clr, low', ChildOf(p, c.dir)));
  }

  lemma RaisedSame(c: Ctx, t: Tree, sub: Tree)
    requires c.Step? && c.up.Step? && Outer(c, t, sub)
    ensures Inorder(Plug(c.up.up, Raised(c.up, sub))) == Inorder(Plug(c, t))
    ensures Ptrs(Plug(c.up.up, Raised(c.up, sub))) == Ptrs(Plug(c, t))
  {
    var sub0 := Build(c.dir, c.ptr, c.thr, c.clr, t, c.sib);
    if c.dir != c.up.dir {
      RotatedInorder(sub0, c.up.dir);
    }
    assert Inorder(sub) == Inorder(sub0) && Ptrs(sub) == Ptrs(sub0);
    PlugInorderSame(c.up, sub, sub0);
    PlugPtrs(c.up, sub);
    PlugPtrs(c.up, sub0);
    var g := Build(c.up.dir, c.up.ptr, c.up.thr, c.up.clr, sub, c.up.sib);
    RaisedInorder(c.up, sub);
    PlugInorderSame(c.up.up, g, Raised(c.up, sub));
    PlugPtrs(c.up.up, g);
    PlugPtrs(c.up.up, Raised(c.up, sub));
  }
}
