/** The list of CPUs ordered by load (modules/mtask/scheduler.c): where new threads go, and how loaded CPUs give threads
    away. */
module CpuList {
  /** A cpu_tree_lnode; link 0 is NULL. */
  datatype LNode = LNode(cpu: nat, next: nat, prev: nat)

  // ---- the list ----

  function NextOf(s: seq<nat>, i: int): nat { if 0 <= i + 1 < |s| then s[i + 1] else 0 }

  ghost predicate LinkedAt(m: map<nat, LNode>, s: seq<nat>, i: nat)
    requires i < |s|
  {
    && s[i] != 0 && s[i] in m && m[s[i]].next == NextOf(s, i)
    && (i > 0 ==> m[s[i]].prev == s[i - 1])
  }

  /** The nodes of `s` are linked in that order. The first node's prev may be stale: cpu_tree_list_move_smallest does
      not reset it when the old head goes to the end (modules/mtask/scheduler.c:117-122). */
  ghost predicate Linked(m: map<nat, LNode>, s: seq<nat>) {
    forall i :: 0 <= i < |s| ==> LinkedAt(m, s, i)
  }

  ghost predicate Distinct(s: seq<nat>) {
    forall i, j :: 0 <= i < j < |s| ==> s[i] != s[j]
  }

  /** The head moved behind the nodes 1 .. k-1. */
  function Moved(s: seq<nat>, k: nat): seq<nat>
    requires 0 < k <= |s|
  {
    s[1..k] + [s[0]] + s[k..]
  }

  lemma MovedAt(s: seq<nat>, k: nat, i: nat)
    requires 0 < k <= |s| && i < |s|
    ensures Moved(s, k)[i] == if i < k - 1 then s[i + 1] else if i == k - 1 then s[0] else s[i]
  {}

  lemma MovedDistinct(s: seq<nat>, k: nat)
    requires 0 < k <= |s| && Distinct(s)
    ensures Distinct(Moved(s, k))
  {
    var t := Moved(s, k);
    forall i, j | 0 <= i < j < |t| ensures t[i] != t[j] {
      MovedAt(s, k, i);
      MovedAt(s, k, j);
    }
  }

  /** The links written when the head `s[0]` is put between `s[k - 1]` and `s[k]`. */
  ghost predicate MoveWrites(m: map<nat, LNode>, m': map<nat, LNode>, s: seq<nat>, k: nat)
    requires 1 < k <= |s|
  {
    && (forall p :: p in m && p != s[0] && p != s[k - 1] && (k == |s| || p != s[k]) ==>
          p in m' && m'[p].next == m[p].next && (p == s[1] || m'[p].prev == m[p].prev))
    && s[0] in m' && m'[s[0]].next == NextOf(s, k - 1) && m'[s[0]].prev == s[k - 1]
    && s[k - 1] in m && s[k - 1] in m' && m'[s[k - 1]].next == s[0]
      && (k - 1 == 1 || m'[s[k - 1]].prev == m[s[k - 1]].prev)
    && (k < |s| ==> s[k] in m && s[k] in m' && m'[s[k]].next == m[s[k]].next && m'[s[k]].prev == s[0])
  }

  lemma MoveLinkedAt(m: map<nat, LNode>, m': map<nat, LNode>, s: seq<nat>, k: nat, i: nat)
    requires 1 < k <= |s| && Linked(m, s) && Distinct(s) && MoveWrites(m, m', s, k) && i < |s|
    ensures LinkedAt(m', Moved(s, k), i)
  {
    var t := Moved(s, k);
    MovedAt(s, k, i);
    if i > 0 { MovedAt(s, k, i - 1); }
    if i + 1 < |s| { MovedAt(s, k, i + 1); }
    var j := if i < k - 1 then i + 1 else if i == k - 1 then 0 else i;
    assert LinkedAt(m, s, j) && LinkedAt(m, s, k - 1) && LinkedAt(m, s, 0);
    assert j != 0 ==> s[j] != s[0];
    assert j != k - 1 ==> s[j] != s[k - 1];
    assert k < |s| && j != k ==> s[j] != s[k];
    assert j > 1 ==> s[j] != s[1];
  }

  lemma MoveLinked(m: map<nat, LNode>, m': map<nat, LNode>, s: seq<nat>, k: nat)
    requires 1 < k <= |s| && Linked(m, s) && Distinct(s) && MoveWrites(m, m', s, k)
    ensures Linked(m', Moved(s, k))
  {
    forall i | 0 <= i < |s| ensures LinkedAt(m', Moved(s, k), i) {
      MoveLinkedAt(m, m', s, k, i);
    }
  }

  function Sum(c: seq<nat>): nat { if c == [] then 0 else c[0] + Sum(c[1..]) }

  lemma {:induction false} SumUpdate(c: seq<nat>, i: nat, v: nat)
    requires i < |c|
    ensures Sum(c[i := v]) + c[i] == Sum(c) + v
  {
    if i > 0 {
      assert c[i := v][1..] == c[1..][i - 1 := v];
      SumUpdate(c[1..], i - 1, v);
    } else {
      assert c[0 := v][1..] == c[1..];
    }
  }

  /** The nodes are those of the CPUs 0 .. |cnt|-1, each once; node p belongs to CPU p - 1. */
  ghost predicate AllCpus(m: map<nat, LNode>, s: seq<nat>, n: nat) {
    && Distinct(s)
    && (forall i :: 0 <= i < |s| ==> 1 <= s[i] <= n && s[i] in m && m[s[i]].cpu == s[i] - 1)
    && (forall p :: 1 <= p <= n ==> p in s)
  }

  /** From index `from` on, the CPUs are in order of their load. */
  ghost predicate ByLoad(s: seq<nat>, cnt: seq<nat>, from: nat) {
    && (forall i :: 0 <= i < |s| ==> 1 <= s[i] <= |cnt|)
    && forall i, j :: from <= i < j < |s| ==> cnt[s[i] - 1] <= cnt[s[j] - 1]
  }

  /** No two loads differ by more than one. */
  ghost predicate Even(cnt: seq<nat>) {
    forall i, j :: 0 <= i < |cnt| && 0 <= j < |cnt| ==> cnt[i] <= cnt[j] + 1
  }

  /** Where cpu_tree_list_move_smallest puts the head: behind every CPU with fewer threads. */
  ghost predicate Position(s: seq<nat>, cnt: seq<nat>, k: nat)
    requires ByLoad(s, cnt, 1)
  {
    && 0 < k <= |s| && (forall i :: 0 < i < k ==> cnt[s[i] - 1] < cnt[s[0] - 1])
    && (k < |s| ==> cnt[s[0] - 1] <= cnt[s[k] - 1])
  }

  /** The head has got behind exactly the CPUs with fewer threads, before all others; these keep their order. */
  ghost predicate Resettled(s: seq<nat>, t: seq<nat>, cnt: seq<nat>) {
    exists k :: 0 < k <= |s| && SettledAt(s, t, cnt, k)
  }

  ghost predicate SettledAt(s: seq<nat>, t: seq<nat>, cnt: seq<nat>, k: nat)
    requires 0 < k <= |s|
  {
    && t == s[1..k] + [s[0]] + s[k..] && (forall i :: 0 <= i < |s| ==> 1 <= s[i] <= |cnt|)
    && forall i :: 0 < i < |s| ==> (i < k <==> cnt[s[i] - 1] < cnt[s[0] - 1])
  }

  lemma PositionSettles(s: seq<nat>, cnt: seq<nat>, k: nat)
    requires ByLoad(s, cnt, 1) && Position(s, cnt, k)
    ensures Resettled(s, Moved(s, k), cnt) && (k == 1 ==> Moved(s, k) == s)
  {
    assert SettledAt(s, Moved(s, k), cnt, k);
  }

  /** The head's load exceeds that of every other CPU, and there is another one. */
  ghost predicate Overtakes(s: seq<nat>, cnt: seq<nat>) {
    && |s| > 1 && (forall i :: 0 <= i < |s| ==> 1 <= s[i] <= |cnt|)
    && forall i :: 0 < i < |s| ==> cnt[s[i] - 1] < cnt[s[0] - 1]
  }

  /** The head goes to the end exactly if it overtakes all others. */
  lemma PositionOvertakes(s: seq<nat>, cnt: seq<nat>, k: nat)
    requires ByLoad(s, cnt, 1) && Position(s, cnt, k) && |s| > 1
    ensures k == |s| <==> Overtakes(s, cnt)
  {}

  lemma MovedByLoad(s: seq<nat>, cnt: seq<nat>, k: nat)
    requires ByLoad(s, cnt, 1) && Position(s, cnt, k)
    ensures ByLoad(Moved(s, k), cnt, 0)
  {
    var t := Moved(s, k);
    forall i | 0 <= i < |t| ensures 1 <= t[i] <= |cnt| {
      MovedAt(s, k, i);
    }
    forall i, j | 0 <= i < j < |t| ensures cnt[t[i] - 1] <= cnt[t[j] - 1] {
      MovedAt(s, k, i);
      MovedAt(s, k, j);
    }
  }

  lemma MovedCpus(m: map<nat, LNode>, m': map<nat, LNode>, s: seq<nat>, k: nat, n: nat)
    requires 0 < k <= |s| && AllCpus(m, s, n)
    requires forall i :: 0 <= i < |s| ==> s[i] in m' && m'[s[i]].cpu == s[i] - 1
    ensures AllCpus(m', Moved(s, k), n)
  {
    var t := Moved(s, k);
    MovedDistinct(s, k);
    forall i | 0 <= i < |t| ensures 1 <= t[i] <= n && t[i] in m' && m'[t[i]].cpu == t[i] - 1 {
      MovedAt(s, k, i);
    }
    assert s == [s[0]] + s[1..k] + s[k..];
    forall p | 1 <= p <= n ensures p in t {
      assert p in s;
    }
  }

  /** One more thread on a least-loaded CPU keeps the loads even. */
  lemma EvenStep(cnt: seq<nat>, c: nat)
    requires Even(cnt) && c < |cnt| && forall i :: 0 <= i < |cnt| ==> cnt[c] <= cnt[i]
    ensures Even(cnt[c := cnt[c] + 1])
  {}

  lemma HeadLeast(m: map<nat, LNode>, s: seq<nat>, cnt: seq<nat>)
    requires AllCpus(m, s, |cnt|) && ByLoad(s, cnt, 0) && s != []
    ensures forall i :: 0 <= i < |cnt| ==> cnt[s[0] - 1] <= cnt[i]
  {
    forall i | 0 <= i < |cnt| ensures cnt[s[0] - 1] <= cnt[i] {
      assert i + 1 in s;
      var j :| 0 <= j < |s| && s[j] == i + 1;
    }
  }

  class List {
    var node: map<nat, LNode>
    var head: nat
    /** thread_cnt of each CPU's tree. */
    var cnt: seq<nat>
    ghost var order: seq<nat>

    ghost predicate Structure()
      reads this
    {
      && Linked(node, order) && AllCpus(node, order, |cnt|)
      && head == (if order == [] then 0 else order[0]) && (cnt != [] ==> order != [])
    }

    /** The list is a permutation of all CPUs, sorted by load, and loads are even. */
    ghost predicate Valid()
      reads this
    {
      Structure() && ByLoad(order, cnt, 0) && Even(cnt)
    }

    /** scheduler_init (modules/mtask/scheduler.c:50-66): each CPU's node is pushed to the front. */
    constructor (cores: nat)
      ensures Valid() && |cnt| == cores == |order| && Sum(cnt) == 0 && Idle(cnt)
    {
      node, head, cnt, order := map[], 0, [], [];
      new;
      for i := 0 to cores
        invariant Structure() && |cnt| == i == |order| && Idle(cnt)
      {
        Push(i);
      }
      IdleSum(cnt);
    }

    method Push(i: nat)
      requires Structure() && |cnt| == i == |order| && Idle(cnt)
      modifies this
      ensures Structure() && |cnt| == i + 1 == |order| && Idle(cnt)
    {
      ghost var m, s := node, order;
      cnt := cnt + [0];
      var lnode := i + 1;
      assert s != [] ==> LinkedAt(m, s, 0);
      node := node[lnode := LNode(i, head, 0)];
      if head != 0 {
        node := node[head := node[head].(prev := lnode)];
      }
      head := lnode;
      order := [lnode] + order;
      PushLinked(m, node, s, lnode);
      PushCpus(m, node, s, i);
    }

    /** The search of modules/mtask/scheduler.c:110-116: the first node behind the head with at least its load. */
    method FindPlace() returns (prev: nat, cur: nat, ghost k: nat)
      requires Structure() && ByLoad(order, cnt, 1) && |order| > 1
      ensures Position(order, cnt, k) && prev == order[k - 1] && cur == NextOf(order, k - 1)
      ensures cur == 0 <==> k == |order|
    {
      k := 1;
      assert LinkedAt(node, order, 0) && LinkedAt(node, order, 1);
      cur := node[head].next;
      prev := node[cur].prev;
      while cur != 0 && cnt[node[head].cpu] > cnt[node[cur].cpu]
        invariant 1 <= k <= |order| && prev == order[k - 1] && cur == NextOf(order, k - 1)
        invariant cur == 0 <==> k == |order|
        invariant forall i :: 0 < i < k ==> cnt[order[i] - 1] < cnt[order[0] - 1]
        decreases |order| - k
      {
        assert LinkedAt(node, order, k);
        assert k + 1 < |order| ==> LinkedAt(node, order, k + 1);
        prev := cur;
        cur := node[cur].next;
        k := k + 1;
      }
    }

    /** cpu_tree_list_move_smallest (modules/mtask/scheduler.c:105-134). If the head's prev was NULL, it is so
        afterwards exactly when the old head did not go to the end; otherwise it still points to the old head. */
    method MoveSmallest()
      requires Structure() && ByLoad(order, cnt, 1) && order != []
      modifies this`node, this`head, this`order
      ensures Structure() && ByLoad(order, cnt, 0) && order != [] && Resettled(old(order), order, cnt)
      ensures head in node && old(head) in old(node)
      ensures Overtakes(old(order), cnt) ==> node[head].prev == old(head) != 0
      ensures old(node[head].prev) == 0 ==> (node[head].prev == 0 <==> !Overtakes(old(order), cnt))
    {
      assert LinkedAt(node, order, 0);
      assert |order| > 1 ==> LinkedAt(node, order, 1);
      var nextHead := node[head].next;
      if nextHead != 0 {
        var prev, cur, k := FindPlace();
        assert k < |order| ==> LinkedAt(node, order, k);
        MovedByLoad(order, cnt, k);
        PositionOvertakes(order, cnt, k);
        PositionSettles(order, cnt, k);
        if cur == 0 {
          MoveToEnd(prev, nextHead, k);
        } else if node[cur].prev != head {
          MoveBefore(cur, nextHead, k);
        } else {
          StaysPut(order, cnt, k);
        }
      } else {
        assert SettledAt(order, order, cnt, 1);
      }
    }

    /** modules/mtask/scheduler.c:117-122. */
    method MoveToEnd(prev: nat, nextHead: nat, ghost k: nat)
      requires Structure() && 1 < k == |order| && prev == order[k - 1] && nextHead == order[1]
      modifies this`node, this`head, this`order
      ensures Structure() && order == Moved(old(order), k)
      ensures head in node && node[head].prev == old(head)
    {
      ghost var m, s := node, order;
      assert LinkedAt(node, order, 0) && LinkedAt(node, order, 1) && LinkedAt(node, order, k - 1);
      node := node[prev := node[prev].(next := head)];
      node := node[head := node[head].(next := 0)];
      node := node[head := node[head].(prev := prev)];
      head := nextHead;
      order := Moved(s, k);
      MoveDone(m, node, s, k, |cnt|);
    }

    /** modules/mtask/scheduler.c:123-131. */
    method MoveBefore(cur: nat, nextHead: nat, ghost k: nat)
      requires Structure() && 1 < k < |order| && cur == order[k] && nextHead == order[1]
      modifies this`node, this`head, this`order
      ensures Structure() && order == Moved(old(order), k)
      ensures head in node && node[head].prev == 0
    {
      ghost var s := order;
      assert LinkedAt(node, order, 0) && LinkedAt(node, order, 1) && LinkedAt(node, order, k - 1)
        && LinkedAt(node, order, k);
      assert s[0] != s[1] && s[0] != s[k - 1] && s[0] != s[k] && s[k - 1] != s[k] && s[1] != s[k];
      var m := node;
      var before := m[cur].prev;
      m := m[before := m[before].(next := head)];
      m := m[head := m[head].(next := cur)];
      m := m[head := m[head].(prev := m[cur].prev)];
      m := m[cur := m[cur].(prev := head)];
      m := m[nextHead := m[nextHead].(prev := 0)];
      MoveDone(node, m, s, k, |cnt|);
      node, head, order := m, nextHead, Moved(s, k);
    }

    /** scheduler_queue_thread (modules/mtask/scheduler.c:221-230), as far as the loads are concerned: from
        scheduler_init on, any number of these calls leaves the list sorted and the loads within one of each other. */
    method QueueThread() returns (cpu: nat)
      requires Valid() && cnt != []
      modifies this
      ensures Valid() && cpu < |old(cnt)| && cpu == old(order)[0] - 1 && cnt == old(cnt)[cpu := old(cnt)[cpu] + 1]
      ensures forall i :: 0 <= i < |old(cnt)| ==> old(cnt)[cpu] <= old(cnt)[i]
      ensures Sum(cnt) == Sum(old(cnt)) + 1 && Resettled(old(order), order, cnt)
      ensures Overtakes(old(order), cnt) ==> head in node && node[head].prev == old(head) != 0
    {
      cpu := CountThread();
      MoveSmallest();
    }

    /** The CPU at the head gets the thread (modules/mtask/scheduler.c:221-230). */
    method CountThread() returns (cpu: nat)
      requires Valid() && cnt != []
      modifies this`cnt
      ensures Structure() && ByLoad(order, cnt, 1) && Even(cnt) && order != []
      ensures cpu < |old(cnt)| && cpu == order[0] - 1 && cnt == old(cnt)[cpu := old(cnt)[cpu] + 1]
      ensures forall i :: 0 <= i < |old(cnt)| ==> old(cnt)[cpu] <= old(cnt)[i]
      ensures Sum(cnt) == Sum(old(cnt)) + 1
    {
      assert LinkedAt(node, order, 0);
      cpu := node[head].cpu;
      HeadGains(node, order, cnt);
      cnt := cnt[cpu := cnt[cpu] + 1];
    }

    /** The very first thread leaves the head with a stale prev, whenever there is more than one CPU. */
    static method FirstThread(cores: nat) returns (l: List)
      requires cores > 1
      ensures fresh(l) && l.Valid() && l.head in l.node && l.node[l.head].prev != 0
    {
      l := new List(cores);
      ghost var s := l.order;
      assert LinkedAt(l.node, s, 0);
      var cpu := l.QueueThread();
      assert forall i :: 0 < i < |s| ==> s[i] != s[0];
    }

    /** Any number of threads queued: all are counted, and no two loads differ by more than one. */
    method QueueAll(n: nat)
      requires Valid() && cnt != []
      modifies this
      ensures Valid() && |cnt| == |old(cnt)| && Sum(cnt) == Sum(old(cnt)) + n && Even(cnt)
    {
      for i := 0 to n
        invariant Valid() && |cnt| == |old(cnt)| && Sum(cnt) == Sum(old(cnt)) + i
      {
        var _ := QueueThread();
      }
    }
  }

  lemma MoveDone(m: map<nat, LNode>, m': map<nat, LNode>, s: seq<nat>, k: nat, n: nat)
    requires 1 < k <= |s| && Linked(m, s) && AllCpus(m, s, n) && MoveWrites(m, m', s, k)
    requires forall p :: p in m ==> p in m' && m'[p].cpu == m[p].cpu
    ensures Linked(m', Moved(s, k)) && AllCpus(m', Moved(s, k), n) && Moved(s, k)[0] == s[1]
  {
    MovedAt(s, k, 0);
    MoveLinked(m, m', s, k);
    MovedCpus(m, m', s, k, n);
  }

  lemma StaysPut(s: seq<nat>, cnt: seq<nat>, k: nat)
    requires ByLoad(s, cnt, 1) && Position(s, cnt, k) && k == 1
    ensures ByLoad(s, cnt, 0)
  {
    assert Moved(s, 1) == s;
    MovedByLoad(s, cnt, 1);
  }

  /** What holds of the loads when the head gets a thread. */
  lemma HeadGains(m: map<nat, LNode>, s: seq<nat>, cnt: seq<nat>)
    requires AllCpus(m, s, |cnt|) && ByLoad(s, cnt, 0) && s != [] && Even(cnt)
    ensures forall i :: 0 <= i < |cnt| ==> cnt[s[0] - 1] <= cnt[i]
    ensures var more := cnt[s[0] - 1 := cnt[s[0] - 1] + 1];
      ByLoad(s, more, 1) && Even(more) && Sum(more) == Sum(cnt) + 1
  {
    HeadLeast(m, s, cnt);
    EvenStep(cnt, s[0] - 1);
    SumUpdate(cnt, s[0] - 1, cnt[s[0] - 1] + 1);
    HeadGrows(s, cnt);
  }

  lemma HeadGrows(s: seq<nat>, cnt: seq<nat>)
    requires ByLoad(s, cnt, 0) && s != [] && Distinct(s)
    ensures ByLoad(s, cnt[s[0] - 1 := cnt[s[0] - 1] + 1], 1)
  {
  }

  ghost predicate Idle(cnt: seq<nat>) { forall j :: 0 <= j < |cnt| ==> cnt[j] == 0 }

  lemma {:induction false} IdleSum(cnt: seq<nat>)
    requires Idle(cnt)
    ensures Sum(cnt) == 0
  {
    if cnt != [] {
      IdleSum(cnt[1..]);
    }
  }

  lemma PushLinked(m: map<nat, LNode>, m': map<nat, LNode>, s: seq<nat>, p: nat)
    requires Linked(m, s) && Distinct(s) && p != 0 && p !in s
    requires p in m' && m'[p].next == NextOf(s, -1)
    requires s != [] ==> s[0] in m && s[0] in m' && m'[s[0]] == m[s[0]].(prev := p)
    requires forall q :: q in m && q != p && (s == [] || q != s[0]) ==> q in m' && m'[q] == m[q]
    ensures Linked(m', [p] + s)
  {
    var t := [p] + s;
    forall i | 0 <= i < |t| ensures LinkedAt(m', t, i) {
      if i > 0 {
        assert t[i] == s[i - 1] && LinkedAt(m, s, i - 1);
        assert s[i - 1] in s;
        assert i > 1 ==> s[i - 1] != s[0];
      }
    }
  }

  lemma PushCpus(m: map<nat, LNode>, m': map<nat, LNode>, s: seq<nat>, i: nat)
    requires AllCpus(m, s, i)
    requires i + 1 in m' && m'[i + 1].cpu == i
    requires forall q :: q in m && q != i + 1 ==> q in m' && m'[q].cpu == m[q].cpu
    ensures AllCpus(m', [i + 1] + s, i + 1)
  {
    var t := [i + 1] + s;
    assert forall j :: 0 < j < |t| ==> t[j] == s[j - 1];
    forall p | 1 <= p <= i + 1 ensures p in t {
      assert p <= i ==> p in s;
      assert t[0] == i + 1;
    }
  }

  // ---- giving threads away ----

  const GIVE_THRESHOLD_PERCENT: nat := 15
  const GIVE_THRESHOLD_MIN: nat := 1

  ghost predicate IsLeast(c: seq<nat>, j: int) {
    0 <= j < |c| && forall i :: 0 <= i < |c| ==> c[j] <= c[i]
  }

  /** The head of the list, taken as some least-loaded CPU (modules/mtask/scheduler.c:19). */
  method Head(c: seq<nat>) returns (j: nat)
    requires c != []
    ensures IsLeast(c, j)
  {
    j := 0;
    for k := 0 to |c|
      invariant j < |c| && forall i :: 0 <= i < k ==> c[j] <= c[i]
    {
      if c[k] < c[j] {
        j := k;
      }
    }
  }

  function SumSquares(c: seq<nat>): nat { if c == [] then 0 else c[0] * c[0] + SumSquares(c[1..]) }

  lemma {:induction false} SquaresUpdate(c: seq<nat>, i: nat, v: nat)
    requires i < |c|
    ensures SumSquares(c[i := v]) + c[i] * c[i] == SumSquares(c) + v * v
  {
    if i > 0 {
      assert c[i := v][1..] == c[1..][i - 1 := v];
      SquaresUpdate(c[1..], i - 1, v);
    } else {
      assert c[0 := v][1..] == c[1..];
    }
  }

  lemma SquaresDrop(a: nat, b: nat)
    requires b + 2 <= a
    ensures (a - 1) * (a - 1) + (b + 1) * (b + 1) + 2 <= a * a + b * b
  {
    assert (a - 1) * (a - 1) == a * a - 2 * a + 1;
    assert (b + 1) * (b + 1) == b * b + 2 * b + 1;
  }

  /** Moving one thread from CPU i to a CPU j with at least two threads less. */
  lemma MoveOne(c: seq<nat>, i: nat, j: nat)
    requires i < |c| && j < |c| && i != j && c[j] + 2 <= c[i]
    ensures var d := c[i := c[i] - 1][j := c[j] + 1]; Sum(d) == Sum(c) && SumSquares(d) + 2 <= SumSquares(c)
  {
    var d1 := c[i := c[i] - 1];
    SumUpdate(c, i, c[i] - 1);
    SumUpdate(d1, j, c[j] + 1);
    SquaresUpdate(c, i, c[i] - 1);
    SquaresUpdate(d1, j, c[j] + 1);
    SquaresDrop(c[i], c[j]);
  }

  /** How many threads the giver should part with (modules/mtask/scheduler.c:308-314). */
  function GiveAmount(own: nat, least: nat): nat
    requires least <= own
  {
    var t := own * GIVE_THRESHOLD_PERCENT / 100;
    var threshold := if t < GIVE_THRESHOLD_MIN then GIVE_THRESHOLD_MIN else t;
    if own - least >= threshold then (own - least) / 2 else 0
  }

  /** Half of what it has more, if that is anything and reaches fifteen percent of its own, rounded down. */
  lemma GiveExactly(own: nat, least: nat)
    requires least <= own
    ensures GiveAmount(own, least) ==
      if own > least && 15 * own < 100 * (own - least) + 100 then (own - least) / 2 else 0
  {}

  /** No CPU that received a thread has more than one above any other that could have. */
  ghost predicate Levelled(c0: seq<nat>, c: seq<nat>, giver: nat)
    requires |c| == |c0|
  {
    forall i, j :: 0 <= i < |c| && 0 <= j < |c| && i != giver && j != giver && c[i] > c0[i] ==> c[i] <= c[j] + 1
  }

  /** What holds after `k` threads of the giver have gone to the head of the list. */
  ghost predicate Moving(c0: seq<nat>, c: seq<nat>, giver: nat, least: nat, k: nat) {
    && |c| == |c0| && giver < |c| && least < |c| && c[giver] == c0[giver] - k && c[least] <= c0[least] + k
    && (forall i :: 0 <= i < |c| && i != giver ==> c0[i] <= c[i])
    && (forall i :: 0 <= i < |c| && c[i] > c0[i] ==> c[i] <= c0[least] + k)
    && Levelled(c0, c, giver) && Sum(c) == Sum(c0) && SumSquares(c) + 2 * k <= SumSquares(c0)
  }

  lemma MovingOne(c0: seq<nat>, c: seq<nat>, giver: nat, least: nat, k: nat, j: nat)
    requires Moving(c0, c, giver, least, k) && c0[least] + 2 * (k + 1) <= c0[giver]
    requires IsLeast(c[giver := c[giver] - 1], j)
    ensures j != giver && Moving(c0, c[giver := c[giver] - 1][j := c[j] + 1], giver, least, k + 1)
  {
    assert c[giver := c[giver] - 1][j] <= c[giver := c[giver] - 1][least];
    MoveOne(c, giver, j);
    LevelStep(c0, c, giver, j);
  }

  lemma LevelStep(c0: seq<nat>, c: seq<nat>, giver: nat, j: nat)
    requires |c| == |c0| && Levelled(c0, c, giver) && giver < |c| && c[giver] > 0 && j != giver
    requires IsLeast(c[giver := c[giver] - 1], j)
    ensures Levelled(c0, c[giver := c[giver] - 1][j := c[j] + 1], giver)
  {
    var d := c[giver := c[giver] - 1];
    assert forall i :: 0 <= i < |d| ==> d[j] <= d[i];
  }

  /** A giving round of CPU `giver` (modules/mtask/scheduler.c:307-326), given that the head of the list is always a
      least-loaded CPU: no thread is lost, the giver never receives, each thread moved goes to a CPU with the fewest
      threads of that moment, so that the receivers end level, and lowers the sum of squares. */
  method GiveRound(c0: seq<nat>, giver: nat, due: bool) returns (c: seq<nat>, moved: nat)
    requires giver < |c0|
    ensures |c| == |c0| && Sum(c) == Sum(c0) && moved <= c0[giver]
    ensures c[giver] == c0[giver] - moved && forall i :: 0 <= i < |c| && i != giver ==> c[i] >= c0[i]
    ensures SumSquares(c) + 2 * moved <= SumSquares(c0)
    ensures Levelled(c0, c, giver) && forall i :: 0 <= i < |c| && c[i] > c0[i] ==> c[i] <= c[giver]
    ensures !due ==> moved == 0
    ensures forall j :: due && IsLeast(c0, j) ==> moved == GiveAmount(c0[giver], c0[j])
  {
    c, moved := c0, 0;
    if !due {
      return;
    }
    var least := Head(c);
    var diff := c[giver] - c[least];
    var threshold := c[giver] * GIVE_THRESHOLD_PERCENT / 100;
    if threshold < GIVE_THRESHOLD_MIN {
      threshold := GIVE_THRESHOLD_MIN;
    }
    if diff >= threshold {
      c := GiveThreads(c0, giver, least, diff / 2);
      moved := diff / 2;
    }
  }

  /** The loop of the round (modules/mtask/scheduler.c:317-322): each of `n` threads goes to the head of the list. */
  method GiveThreads(c0: seq<nat>, giver: nat, least: nat, n: nat) returns (c: seq<nat>)
    requires giver < |c0| && least < |c0| && c0[least] + 2 * n <= c0[giver]
    ensures |c| == |c0| && Sum(c) == Sum(c0) && SumSquares(c) + 2 * n <= SumSquares(c0)
    ensures c[giver] == c0[giver] - n && forall i :: 0 <= i < |c| && i != giver ==> c[i] >= c0[i]
    ensures Levelled(c0, c, giver) && forall i :: 0 <= i < |c| && c[i] > c0[i] ==> c[i] <= c[giver]
  {
    c := c0;
    var give := n;
    while give != 0
      invariant 0 <= give <= n && Moving(c0, c, giver, least, n - give)
    {
      ghost var before := c;
      c := c[giver := c[giver] - 1];
      var j := Head(c);
      MovingOne(c0, before, giver, least, n - give, j);
      c := c[j := c[j] + 1];
      give := give - 1;
    }
  }

  /** However the CPUs take turns, the rounds that move a thread number at most half the initial sum of squares. */
  method Rounds(c0: seq<nat>, givers: seq<nat>, due: seq<bool>) returns (c: seq<nat>, moving: nat)
    requires |givers| == |due| && forall k :: 0 <= k < |givers| ==> givers[k] < |c0|
    ensures |c| == |c0| && Sum(c) == Sum(c0) && 2 * moving <= SumSquares(c0)
  {
    c, moving := c0, 0;
    for k := 0 to |givers|
      invariant |c| == |c0| && Sum(c) == Sum(c0) && SumSquares(c) + 2 * moving <= SumSquares(c0)
    {
      var m;
      c, m := GiveRound(c, givers[k], due[k]);
      if m != 0 {
        moving := moving + 1;
      }
    }
  }
}
