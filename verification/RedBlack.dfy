/** Threads as the scheduler sees them (modules/mtask/thread.h). */
module Threads {
  datatype Thread = Thread(id: nat, vruntime: nat, weight: nat)

  ghost predicate Sorted(s: seq<Thread>) {
    forall i, j :: 0 <= i < j < |s| ==> s[i].vruntime <= s[j].vruntime
  }

  ghost predicate AllAtMost(s: seq<Thread>, v: nat) {
    forall i :: 0 <= i < |s| ==> s[i].vruntime <= v
  }

  ghost predicate AllAbove(s: seq<Thread>, v: nat) {
    forall i :: 0 <= i < |s| ==> v < s[i].vruntime
  }

  /** How many threads at the front have vruntime at most `v`. */
  function Rank(s: seq<Thread>, v: nat): (k: nat)
    ensures k <= |s| && forall i :: 0 <= i < k ==> s[i].vruntime <= v
    ensures k < |s| ==> v < s[k].vruntime
  {
    if s == [] || v < s[0].vruntime then 0 else 1 + Rank(s[1..], v)
  }

  /** Reference form of queueing: `x` goes right after the threads at the front with vruntime at most its own. */
  function InsertStable(s: seq<Thread>, x: Thread): seq<Thread> {
    var k := Rank(s, x.vruntime);
    s[..k] + [x] + s[k..]
  }

  /** Any split around `x` with smaller-or-equal threads before it and larger ones after it is the insertion. */
  lemma InsertStableSplit(pre: seq<Thread>, x: Thread, post: seq<Thread>)
    requires AllAtMost(pre, x.vruntime) && AllAbove(post, x.vruntime)
    ensures InsertStable(pre + post, x) == pre + [x] + post
  {
    var s := pre + post;
    var k := Rank(s, x.vruntime);
    assert post != [] ==> s[|pre|] == post[0];
    assert s[..k] == pre && s[k..] == post;
  }

  /** Insertion keeps a sorted queue sorted, adds exactly `x`, keeps everyone else in order, and puts `x`
      behind every thread of vruntime at most its own and ahead of every larger one. */
  lemma InsertStableMeaning(s: seq<Thread>, x: Thread)
    requires Sorted(s)
    ensures AllAtMost(s[..Rank(s, x.vruntime)], x.vruntime)
    ensures AllAbove(s[Rank(s, x.vruntime)..], x.vruntime)
    ensures Sorted(InsertStable(s, x))
    ensures multiset(InsertStable(s, x)) == multiset(s) + multiset{x}
  {
    var k := Rank(s, x.vruntime);
    SplitSorted(s, x.vruntime, k);
    SortedJoin(s[..k], x, s[k..]);
    JoinedThreads(s, k, x);
  }

  /** A place in a sorted queue with smaller-or-equal threads before it and a larger one behind it splits it. */
  lemma SplitSorted(s: seq<Thread>, v: nat, k: nat)
    requires Sorted(s) && k <= |s| && (forall i :: 0 <= i < k ==> s[i].vruntime <= v) && (k < |s| ==> v < s[k].vruntime)
    ensures AllAtMost(s[..k], v) && AllAbove(s[k..], v) && Sorted(s[..k]) && Sorted(s[k..])
  {
    var post := s[k..];
    forall i | 0 <= i < |post| ensures v < post[i].vruntime {
      assert post[i] == s[k + i];
    }
    forall i, j | 0 <= i < j < |post| ensures post[i].vruntime <= post[j].vruntime {
      assert post[i] == s[k + i] && post[j] == s[k + j];
    }
  }

  lemma JoinedThreads(s: seq<Thread>, k: nat, x: Thread)
    requires k <= |s|
    ensures multiset(s[..k] + [x] + s[k..]) == multiset(s) + multiset{x}
  {
    assert s[..k] + s[k..] == s;
  }

  lemma SortedParts(a: seq<Thread>, m: Thread, b: seq<Thread>, v: nat)
    requires Sorted(a + [m] + b)
    ensures Sorted(a) && Sorted(b)
    ensures m.vruntime <= v ==> AllAtMost(a, v)
    ensures v < m.vruntime ==> AllAbove(b, v)
  {
    var s, n := a + [m] + b, |a| + 1;
    assert s[|a|] == m;
    forall i, j | 0 <= i <= j < |a| ensures a[i].vruntime <= a[j].vruntime && a[j].vruntime <= m.vruntime {
      assert a[i] == s[i] && a[j] == s[j];
    }
    forall i, j | 0 <= i <= j < |b| ensures b[i].vruntime <= b[j].vruntime && m.vruntime <= b[j].vruntime {
      assert b[i] == s[n + i] && b[j] == s[n + j];
    }
  }

  lemma SortedJoin(pre: seq<Thread>, x: Thread, post: seq<Thread>)
    requires Sorted(pre) && Sorted(post)
    requires AllAtMost(pre, x.vruntime) && AllAbove(post, x.vruntime)
    ensures Sorted(pre + [x] + post)
  {
    var s := pre + [x] + post;
    forall i, j | 0 <= i < j < |s| ensures s[i].vruntime <= s[j].vruntime {
      assert s[i] == if i < |pre| then pre[i] else if i == |pre| then x else post[i - |pre| - 1];
      assert s[j] == if j < |pre| then pre[j] else if j == |pre| then x else post[j - |pre| - 1];
    }
  }
}

/** Ordered red-black trees as values, with zippers for the upward fix-up, independent of any node store. */
module RedBlack {
  import opened Prelude
  import opened Threads
  import Bits

  datatype Color = Black | Red
  datatype Dir = Left | Right {
    function Flip(): Dir { if this == Left then Right else Left }
  }

  /** `ptr` is the address of the node that carries this fork; address 0 is NULL. */
  datatype Tree = Leaf | Fork(ptr: nat, thr: Thread, clr: Color, left: Tree, right: Tree)

  /** A tree with one subtree cut out: `dir` says on which side of the node the hole is, `sib` is the other child. */
  datatype Ctx = Top | Step(up: Ctx, dir: Dir, ptr: nat, thr: Thread, clr: Color, sib: Tree)

  function Build(dir: Dir, ptr: nat, thr: Thread, clr: Color, inner: Tree, outer: Tree): Tree {
    if dir == Left then Fork(ptr, thr, clr, inner, outer) else Fork(ptr, thr, clr, outer, inner)
  }

  function ChildOf(t: Tree, dir: Dir): Tree
    requires t.Fork?
  {
    if dir == Left then t.left else t.right
  }

  function Plug(c: Ctx, t: Tree): Tree
    decreases c
  {
    match c
    case Top => t
    case Step(up, dir, ptr, thr, clr, sib) => Plug(up, Build(dir, ptr, thr, clr, t, sib))
  }

  function Inorder(t: Tree): seq<Thread> {
    match t
    case Leaf => []
    case Fork(_, thr, _, l, r) => Inorder(l) + [thr] + Inorder(r)
  }

  function Before(c: Ctx): seq<Thread> {
    match c
    case Top => []
    case Step(up, dir, _, thr, _, sib) => if dir == Left then Before(up) else Before(up) + (Inorder(sib) + [thr])
  }

  function After(c: Ctx): seq<Thread> {
    match c
    case Top => []
    case Step(up, dir, _, thr, _, sib) => if dir == Left then ([thr] + Inorder(sib)) + After(up) else After(up)
  }

  lemma {:induction false} PlugInorder(c: Ctx, t: Tree)
    ensures Inorder(Plug(c, t)) == Before(c) + Inorder(t) + After(c)
    decreases c
  {
    match c
    case Top =>
    case Step(up, dir, ptr, thr, clr, sib) =>
      var b := Build(dir, ptr, thr, clr, t, sib);
      PlugInorder(up, b);
      if dir == Left {
        RegroupLeft(Before(up), Inorder(t), [thr], Inorder(sib), After(up));
      } else {
        RegroupRight(Before(up), Inorder(sib), [thr], Inorder(t), After(up));
      }
  }

  lemma RegroupLeft<T>(a: seq<T>, b: seq<T>, c: seq<T>, d: seq<T>, e: seq<T>)
    ensures a + (b + c + d) + e == a + b + ((c + d) + e)
  {}

  lemma RegroupRight<T>(a: seq<T>, b: seq<T>, c: seq<T>, d: seq<T>, e: seq<T>)
    ensures a + (b + c + d) + e == (a + (b + c)) + d + e
  {}

  // ---- the relaxed red-black invariant ----

  predicate IsRed(t: Tree) { t.Fork? && t.clr == Red }

  function BlackUnit(c: Color): nat { if c == Black then 1 else 0 }

  /** Black nodes on the leftmost path; meaningful when `Balanced`. */
  function BlackHeight(t: Tree): nat {
    if t.Leaf? then 0 else BlackHeight(t.left) + BlackUnit(t.clr)
  }

  /** Every path from the root of `t` to a NULL passes the same number of black nodes. */
  predicate Balanced(t: Tree) {
    t.Leaf? || (Balanced(t.left) && Balanced(t.right) && BlackHeight(t.left) == BlackHeight(t.right))
  }

  predicate NoRedRed(t: Tree) {
    t.Leaf? || (NoRedRed(t.left) && NoRedRed(t.right) && (t.clr == Red ==> !IsRed(t.left) && !IsRed(t.right)))
  }

  /** What insertion really keeps: case 4 (modules/mtask/thread_tree.c:43) leaves a red root red, so the root
      alone may be red with red children. */
  predicate Relaxed(t: Tree) {
    Balanced(t) && (t.Fork? ==> NoRedRed(t.left) && NoRedRed(t.right))
  }

  /** The context accepts a subtree of black height `h`. */
  predicate CtxBalanced(c: Ctx, h: nat) {
    match c
    case Top => true
    case Step(up, _, _, _, clr, sib) => Balanced(sib) && BlackHeight(sib) == h && CtxBalanced(up, h + BlackUnit(clr))
  }

  /** May the hole of `c` hold a red node? */
  predicate RedFits(c: Ctx) { c.Top? || c.up.Top? || c.clr == Black }

  predicate CtxColors(c: Ctx) {
    match c
    case Top => true
    case Step(up, _, _, _, clr, sib) =>
      && NoRedRed(sib) && CtxColors(up)
      && (clr == Red ==> RedFits(up))
      && (clr == Red && !up.Top? ==> !IsRed(sib))
  }

  lemma {:induction false} PlugRelaxed(c: Ctx, t: Tree)
    requires CtxBalanced(c, BlackHeight(t)) && Balanced(t)
    requires CtxColors(c)
    requires if c.Top? then Relaxed(t) else NoRedRed(t) && (IsRed(t) ==> RedFits(c))
    ensures Relaxed(Plug(c, t))
    decreases c
  {
    match c
    case Top =>
    case Step(up, dir, ptr, thr, clr, sib) => PlugRelaxed(up, Build(dir, ptr, thr, clr, t, sib));
  }

  lemma PlugInorderSame(c: Ctx, t: Tree, t': Tree)
    requires Inorder(t) == Inorder(t')
    ensures Inorder(Plug(c, t)) == Inorder(Plug(c, t'))
  {
    PlugInorder(c, t);
    PlugInorder(c, t');
  }

  /** A red node `t` whose place `c` is otherwise in order: the only possible flaw is a red parent. */
  predicate Pending(c: Ctx, t: Tree) {
    && IsRed(t) && NoRedRed(t) && Balanced(t)
    && CtxBalanced(c, BlackHeight(t)) && CtxColors(c)
  }

  /** Descending below the root of a relaxed tree. */
  lemma PendingAtLeaf(c: Ctx, ptr: nat, thr: Thread)
    requires CtxBalanced(c, 0) && CtxColors(c)
    ensures Pending(c, Fork(ptr, thr, Red, Leaf, Leaf))
  {
    assert BlackHeight(Leaf) == 0;
    assert BlackHeight(Fork(ptr, thr, Red, Leaf, Leaf)) == 0;
  }

  /** A pending node below nothing, below a black node or below the root finishes the insertion. */
  lemma PendingDone(c: Ctx, t: Tree)
    requires Pending(c, t) && RedFits(c)
    ensures Relaxed(Plug(c, t))
  {
    PlugRelaxed(c, t);
  }

  /** Case 4 always ends with a red root that has a red child, so the textbook invariant is lost exactly there;
      blackening the root, as the textbook does, would have kept it. */
  lemma CaseFour(c: Ctx, t: Tree)
    requires Pending(c, t) && c.Step? && c.up.Top? && c.clr == Red
    ensures Relaxed(Plug(c, t)) && !NoRedRed(Plug(c, t))
    ensures var b := Plug(c, t).(clr := Black); NoRedRed(b) && Balanced(b)
  {
    PlugRelaxed(c, t);
    assert Plug(c, t) == Plug(Top, Build(c.dir, c.ptr, c.thr, c.clr, t, c.sib));
  }

  /** Case 2: parent and uncle turn black, the grandparent turns red and becomes the pending node. */
  function Recolored(c: Ctx, t: Tree): Tree
    requires c.Step? && c.up.Step? && c.up.sib.Fork?
  {
    Build(c.up.dir, c.up.ptr, c.up.thr, Red,
          Build(c.dir, c.ptr, c.thr, Black, t, c.sib), c.up.sib.(clr := Black))
  }

  lemma RecoloredPending(c: Ctx, t: Tree)
    requires Pending(c, t) && c.Step? && c.clr == Red && c.up.Step? && IsRed(c.up.sib)
    ensures Pending(c.up.up, Recolored(c, t))
    ensures Inorder(Plug(c.up.up, Recolored(c, t))) == Inorder(Plug(c, t))
  {
    var p, p' := Build(c.dir, c.ptr, c.thr, c.clr, t, c.sib), Build(c.dir, c.ptr, c.thr, Black, t, c.sib);
    var u := c.up.sib.(clr := Black);
    assert CtxBalanced(c.up, BlackHeight(t)) && CtxColors(c.up);
    assert Balanced(p') && NoRedRed(p') && BlackHeight(p') == BlackHeight(t) + 1;
    assert Balanced(u) && NoRedRed(u) && BlackHeight(u) == BlackHeight(t) + 1;
    assert Inorder(p) == Inorder(p') && Inorder(u) == Inorder(c.up.sib);
    var g := Build(c.up.dir, c.up.ptr, c.up.thr, c.up.clr, p, c.up.sib);
    assert Plug(c, t) == Plug(c.up, p) == Plug(c.up.up, g);
    PlugInorderSame(c.up.up, Recolored(c, t), g);
  }

  /** Case 6: the outer grandchild `p` on side `dir` of the grandparent rises above it, and both are recoloured. */
  function Raised(c: Ctx, p: Tree): Tree
    requires c.Step? && p.Fork?
  {
    Build(c.dir.Flip(), p.ptr, p.thr, Black,
          Build(c.dir.Flip(), c.ptr, c.thr, Red, c.sib, ChildOf(p, c.dir.Flip())),
          ChildOf(p, c.dir))
  }

  lemma RaisedRelaxed(c: Ctx, p: Tree)
    requires c.Step? && !IsRed(c.sib) && CtxColors(c) && CtxBalanced(c, BlackHeight(p)) && RedFits(c)
    requires IsRed(p) && Balanced(p) && NoRedRed(p.left) && NoRedRed(p.right) && !IsRed(ChildOf(p, c.dir.Flip()))
    ensures Relaxed(Plug(c.up, Raised(c, p)))
  {
    PlugRelaxed(c.up, Raised(c, p));
  }

  // ---- insertion as a function ----

  /** The rotation of `t` that lifts its child on the side opposite to `dir`. */
  function Rotated(t: Tree, dir: Dir): Tree
    requires t.Fork? && ChildOf(t, dir.Flip()).Fork?
  {
    var s := ChildOf(t, dir.Flip());
    Build(dir, s.ptr, s.thr, s.clr,
          Build(dir, t.ptr, t.thr, t.clr, ChildOf(t, dir), ChildOf(s, dir)),
          ChildOf(s, dir.Flip()))
  }

  /** The subtree below the grandparent once an inner grandchild has been rotated outwards (case 5). */
  function Outwards(c: Ctx, t: Tree): (r: Tree)
    requires c.Step? && c.up.Step? && t.Fork?
    ensures r.Fork?
  {
    var p := Build(c.dir, c.ptr, c.thr, c.clr, t, c.sib);
    if c.dir == c.up.dir then p else Rotated(p, c.up.dir)
  }

  /** The tree that the fix-up loop leaves, for a red node `t` in the hole of `c`. */
  function Fixed(c: Ctx, t: Tree): Tree
    requires t.Fork?
    decreases c
  {
    if c.Top? || c.clr == Black || c.up.Top? then Plug(c, t)
    else if IsRed(c.up.sib) then Fixed(c.up.up, Recolored(c, t))
    else Plug(c.up.up, Raised(c.up, Outwards(c, t)))
  }

  /** The context of the child of `t` on side `dir`. */
  function Down(c: Ctx, t: Tree, dir: Dir): Ctx
    requires t.Fork?
  {
    Step(c, dir, t.ptr, t.thr, t.clr, ChildOf(t, dir.Flip()))
  }

  /** The free slot behind every thread of vruntime at most `v`. */
  function SlotOf(c: Ctx, t: Tree, v: nat): Ctx
    decreases t
  {
    if t.Leaf? then c
    else if v < t.thr.vruntime then SlotOf(Down(c, t, Left), t.left, v)
    else SlotOf(Down(c, t, Right), t.right, v)
  }

  /** thread_tree_insert on values. */
  function InsertTree(t: Tree, ptr: nat, thr: Thread): Tree {
    if t.Leaf? then Fork(ptr, thr, Black, Leaf, Leaf)
    else Fixed(SlotOf(Top, t, thr.vruntime), Fork(ptr, thr, Red, Leaf, Leaf))
  }

  // ---- height ----

  function Height(t: Tree): nat { if t.Leaf? then 0 else 1 + Max(Height(t.left), Height(t.right)) }
  function Size(t: Tree): nat { if t.Leaf? then 0 else Size(t.left) + 1 + Size(t.right) }
  /** Floor of the base-2 logarithm. */
  function Log2(n: nat): nat
    requires n > 0
  {
    if n == 1 then 0 else 1 + Log2(n / 2)
  }

  lemma {:induction false} Log2AtLeast(n: nat, k: nat)
    requires Bits.Pow2(k) <= n
    ensures n > 0 && k <= Log2(n)
    decreases k
  {
    if k > 0 {
      assert Bits.Pow2(k - 1) <= n / 2;
      Log2AtLeast(n / 2, k - 1);
    }
  }

  lemma {:induction false} SizeAtLeast(t: Tree)
    requires Balanced(t)
    ensures Bits.Pow2(BlackHeight(t)) <= Size(t) + 1
  {
    if t.Fork? {
      SizeAtLeast(t.left);
      SizeAtLeast(t.right);
    }
  }

  lemma {:induction false} HeightAtMost(t: Tree)
    requires Balanced(t) && NoRedRed(t)
    ensures Height(t) <= 2 * BlackHeight(t) + (if IsRed(t) then 1 else 0)
  {
    if t.Fork? {
      HeightAtMost(t.left);
      HeightAtMost(t.right);
    }
  }

  /** No path of a relaxed tree of n nodes is longer than 2*log2(n+1)+2. */
  lemma {:induction false} RelaxedHeight(t: Tree)
    requires Relaxed(t)
    ensures Height(t) <= 2 * Log2(Size(t) + 1) + 2
  {
    if t.Fork? {
      HeightAtMost(t.left);
      HeightAtMost(t.right);
    }
    SizeAtLeast(t);
    Log2AtLeast(Size(t) + 1, BlackHeight(t));
  }
}
