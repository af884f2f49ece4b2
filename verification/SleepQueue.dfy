/** Sleeping threads (modules/mtask/thread_pqueue.c): a heap ordered by wake-up times that may wrap past 64 bits. */
module SleepQueue {
  import opened Arithmetic

  const WORD: nat := 0x1_0000_0000_0000_0000
  const GROWTH: nat := 4

  /** The fields of a thread that the heap looks at (modules/mtask/thread.h:33-34). */
  datatype Sleeper = Sleeper(id: nat, until: nat, overflow: nat)

  /** thread_wakeup_is_later (modules/mtask/thread.h:10). */
  predicate Later(a: Sleeper, b: Sleeper) {
    if a.overflow == b.overflow then a.until > b.until else a.overflow > b.overflow
  }

  /** thread_wakeup_is_earlier (modules/mtask/thread.h:11). */
  predicate Earlier(a: Sleeper, b: Sleeper) { !Later(a, b) }

  /** scheduler_sleep_thread (modules/mtask/scheduler.c:253-259): the wrap is recorded before the sum is reduced. */
  function Asleep(id: nat, timer: nat, ns: nat, resolution: nat): Sleeper
    requires resolution > 0
  {
    var ticks := ns / resolution;
    Sleeper(id, (timer + ticks) % WORD, if WORD - 1 - ticks < timer then 1 else 0)
  }

  /** The moment a thread wakes, without wrapping. */
  function Deadline(t: Sleeper): nat { t.until + t.overflow * WORD }

  predicate WellFormed(t: Sleeper) { t.until < WORD && t.overflow <= 1 }

  /** Comparing with the overflow flag is comparing unbounded deadlines. */
  lemma LaterIsDeadline(a: Sleeper, b: Sleeper)
    requires WellFormed(a) && WellFormed(b)
    ensures Later(a, b) <==> Deadline(a) > Deadline(b)
  {}

  lemma WrapOnce(x: nat)
    requires x < 2 * WORD
    ensures x % WORD == if x < WORD then x else x - WORD
  {}

  /** Within one timer epoch the deadline recorded is the start plus the duration, even if it wraps. */
  lemma AsleepDeadline(id: nat, timer: nat, ns: nat, resolution: nat)
    requires resolution > 0 && timer < WORD && ns < WORD
    ensures WellFormed(Asleep(id, timer, ns, resolution))
    ensures Deadline(Asleep(id, timer, ns, resolution)) == timer + ns / resolution
    ensures Asleep(id, timer, ns, resolution).id == id
  {
    DivSmaller(ns, resolution);
    WrapOnce(timer + ns / resolution);
  }

  /** No entry wakes before the one at half its index. */
  ghost predicate Heap(h: seq<Sleeper>) {
    forall k :: 0 < k < |h| ==> Deadline(h[k / 2]) <= Deadline(h[k])
  }

  ghost predicate AllWell(h: seq<Sleeper>) { forall k :: 0 <= k < |h| ==> WellFormed(h[k]) }

  /** Who sleeps. */
  function Ids(h: seq<Sleeper>): (ids: seq<nat>)
    ensures |ids| == |h| && forall k :: 0 <= k < |h| ==> ids[k] == h[k].id
  {
    seq(|h|, k requires 0 <= k < |h| => h[k].id)
  }

  function Without<T>(s: seq<T>, i: nat): seq<T>
    requires i < |s|
  {
    s[..i] + s[i + 1..]
  }

  lemma WithoutOne<T>(s: seq<T>, i: nat)
    requires i < |s|
    ensures multiset(s) == multiset(Without(s, i)) + multiset{s[i]}
    ensures multiset(Without(s, i)) == multiset(s) - multiset{s[i]}
  {
    assert s == s[..i] + [s[i]] + s[i + 1..];
    var m := multiset(Without(s, i));
    assert m + multiset{s[i]} - multiset{s[i]} == m;
  }

  lemma IdsWithout(h: seq<Sleeper>, i: nat)
    requires i < |h|
    ensures Ids(Without(h, i)) == Without(Ids(h), i)
  {
    var x, y := Ids(Without(h, i)), Without(Ids(h), i);
    forall k | 0 <= k < |x| ensures x[k] == y[k] {
      assert Without(h, i)[k] == if k < i then h[k] else h[k + 1];
    }
  }

  lemma {:induction false} SameIds(a: seq<Sleeper>, b: seq<Sleeper>)
    requires multiset(a) == multiset(b)
    ensures multiset(Ids(a)) == multiset(Ids(b))
  {
    if a == [] {
      assert |multiset(b)| == 0;
    } else {
      assert a[0] in multiset(b);
      var i :| 0 <= i < |b| && b[i] == a[0];
      WithoutOne(a, 0);
      WithoutOne(b, i);
      SameIds(Without(a, 0), Without(b, i));
      IdsWithout(a, 0);
      IdsWithout(b, i);
      WithoutOne(Ids(a), 0);
      WithoutOne(Ids(b), i);
    }
  }

  /** The root of a heap has the least deadline. */
  lemma {:induction false} RootLeast(h: seq<Sleeper>, k: nat)
    requires Heap(h) && k < |h|
    ensures Deadline(h[0]) <= Deadline(h[k])
    decreases k
  {
    if k > 0 {
      RootLeast(h, k / 2);
    }
  }

  /** The heap condition everywhere except between `k` and its parent, with room for the entry at `k` to move up. */
  ghost predicate HeapExcept(h: seq<Sleeper>, k: nat)
    requires k < |h|
  {
    && (forall m :: 0 < m < |h| && m != k ==> Deadline(h[m / 2]) <= Deadline(h[m]))
    && (k > 0 ==> forall m :: 0 < m < |h| && m / 2 == k ==> Deadline(h[k / 2]) <= Deadline(h[m]))
  }

  /** Swapping `h[k]` with its parent. */
  function SwapUp(h: seq<Sleeper>, k: nat): seq<Sleeper>
    requires k < |h|
  {
    h[k := h[k / 2]][k / 2 := h[k]]
  }

  lemma SwapUpKeeps(h: seq<Sleeper>, k: nat)
    requires 0 < k < |h| && HeapExcept(h, k) && Deadline(h[k]) < Deadline(h[k / 2])
    ensures HeapExcept(SwapUp(h, k), k / 2) && multiset(SwapUp(h, k)) == multiset(h)
  {
    var g, j := SwapUp(h, k), k / 2;
    assert g[k] == h[j] && g[j] == h[k];
    forall m | 0 < m < |g| && m != j ensures Deadline(g[m / 2]) <= Deadline(g[m]) {
      assert m != k ==> Deadline(h[m / 2]) <= Deadline(h[m]);
      assert m / 2 == k ==> Deadline(h[j]) <= Deadline(h[m]);
    }
    if j > 0 {
      assert Deadline(h[j / 2]) <= Deadline(h[j]);
      forall m | 0 < m < |g| && m / 2 == j ensures Deadline(g[j / 2]) <= Deadline(g[m]) {
        assert m != k ==> Deadline(h[j]) <= Deadline(h[m]);
      }
    }
  }

  /** `h` holds the threads `ms`, and is a heap but for the entry at `k`, which may have to rise. */
  ghost predicate Sifting(h: seq<Sleeper>, k: nat, ms: multiset<Sleeper>) {
    k < |h| && AllWell(h) && HeapExcept(h, k) && multiset(h) == ms
  }

  lemma SiftStep(h: seq<Sleeper>, k: nat, ms: multiset<Sleeper>)
    requires Sifting(h, k, ms) && 0 < k && !Earlier(h[k / 2], h[k])
    ensures Sifting(SwapUp(h, k), k / 2, ms)
  {
    LaterIsDeadline(h[k / 2], h[k]);
    SwapUpKeeps(h, k);
  }

  /** Moving the parent down and the hole up is the swap, once the hole is filled. */
  lemma HoleUp(heap: seq<Sleeper>, h: seq<Sleeper>, k: nat, t: Sleeper)
    requires 0 < k < |heap| && h == heap[k := t]
    ensures SwapUp(h, k) == heap[k := heap[k / 2]][k / 2 := t]
  {
    var j := k / 2;
    assert h[j] == heap[j] && h[k] == t;
    assert h[k := heap[j]] == heap[k := heap[j]];
  }

  lemma SiftDone(h: seq<Sleeper>, k: nat, ms: multiset<Sleeper>)
    requires Sifting(h, k, ms) && (k == 0 || Earlier(h[k / 2], h[k]))
    ensures Heap(h)
  {
    LaterIsDeadline(h[k / 2], h[k]);
  }

  class PQueue {
    var heap: seq<Sleeper>
    var maxSize: nat

    ghost predicate Valid()
      reads this
    {
      Heap(heap) && AllWell(heap) && |heap| <= maxSize
    }

    /** thread_pqueue_init. */
    constructor ()
      ensures Valid() && heap == []
    {
      heap, maxSize := [], 0;
    }

    /** thread_pqueue_heapify_up (modules/mtask/thread_pqueue.c:4-17). */
    method HeapifyUp()
      requires |heap| > 0 && AllWell(heap) && |heap| <= maxSize && HeapExcept(heap, |heap| - 1)
      modifies this`heap
      ensures Valid() && multiset(heap) == multiset(old(heap)) && |heap| == |old(heap)|
    {
      var k := |heap| - 1;
      var thr := heap[k];
      ghost var h, ms := heap, multiset(heap);
      while true
        invariant 0 <= k < |heap| == |h| == |old(heap)| && h == heap[k := thr] && Sifting(h, k, ms)
        invariant k == 0 ==> heap[0] == thr
        decreases k
      {
        assert heap[k / 2] == h[k / 2];
        if Earlier(heap[k / 2], thr) {
          break;
        }
        SiftStep(h, k, ms);
        HoleUp(heap, h, k, thr);
        h := SwapUp(h, k);
        heap := heap[k := heap[k / 2]];
        k := k / 2;
        if k == 0 {
          break;
        }
      }
      SiftDone(h, k, ms);
      heap := heap[k := thr];
    }

    /** thread_pqueue_push (modules/mtask/thread_pqueue.c:45-52). */
    method Push(t: Sleeper)
      requires Valid() && WellFormed(t)
      modifies this
      ensures Valid() && multiset(heap) == multiset(old(heap)) + multiset{t}
    {
      if |heap| == maxSize {
        maxSize := maxSize + GROWTH;
      }
      heap := heap + [t];
      HeapifyUp();
    }

    /** Any sequence of sleeps within one timer epoch: the heap holds exactly the sleepers, and its root wakes first. */
    method SleepAll(ids: seq<nat>, timers: seq<nat>, ns: seq<nat>, resolution: nat)
      requires Valid() && heap == [] && resolution > 0 && |ids| == |timers| == |ns|
      requires forall i :: 0 <= i < |ids| ==> timers[i] < WORD && ns[i] < WORD
      modifies this
      ensures Valid() && multiset(heap) == multiset(seq(|ids|,
          i requires 0 <= i < |ids| => Asleep(ids[i], timers[i], ns[i], resolution)))
      ensures multiset(Ids(heap)) == multiset(ids)
      ensures forall i :: 0 <= i < |ids| ==> |heap| > 0 && Deadline(heap[0]) <= timers[i] + ns[i] / resolution
    {
      ghost var all := seq(|ids|, i requires 0 <= i < |ids| => Asleep(ids[i], timers[i], ns[i], resolution));
      for i := 0 to |ids|
        invariant Valid() && multiset(heap) == multiset(all[..i])
      {
        AsleepDeadline(ids[i], timers[i], ns[i], resolution);
        assert all[..i + 1] == all[..i] + [all[i]];
        Push(Asleep(ids[i], timers[i], ns[i], resolution));
      }
      assert all[..|ids|] == all && Ids(all) == ids;
      SameIds(heap, all);
      forall i | 0 <= i < |ids| ensures |heap| > 0 && Deadline(heap[0]) <= timers[i] + ns[i] / resolution {
        AsleepDeadline(ids[i], timers[i], ns[i], resolution);
        assert all[i] in multiset(heap);
        var k :| 0 <= k < |heap| && heap[k] == all[i];
        RootLeast(heap, k);
      }
    }
  }
}
