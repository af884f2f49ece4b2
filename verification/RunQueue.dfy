/** One CPU's run queue (modules/mtask/scheduler.c), seen as the in-order sequence of its tree: who runs next, how much
    it is charged, and what that means for fairness. */
module RunQueue {
  import opened Arithmetic
  import opened Threads

  const DEFAULT_WEIGHT: nat := 1024
  const LATENCY: nat := 48
  const MIN_GRANULARITY: nat := 10

  /** What running for `time` timer ticks costs a thread (modules/mtask/scheduler.c:345). */
  function Charge(time: nat, resolution: nat, weight: nat): nat
    requires weight > 0
  {
    time * resolution * DEFAULT_WEIGHT / weight
  }

  /** A thread of the default weight is charged the time it ran; another one in inverse proportion to its weight,
      rounded down. */
  lemma ChargeBounds(time: nat, resolution: nat, weight: nat)
    requires weight > 0
    ensures Charge(time, resolution, 1024) == time * resolution
    ensures weight * Charge(time, resolution, weight) <= 1024 * (time * resolution)
    ensures 1024 * (time * resolution) < weight * (Charge(time, resolution, weight) + 1)
  {
    var x := time * resolution;
    DivUnique(x * 1024, 1024, x, 0);
    var c := x * 1024 / weight;
    assert x * 1024 == weight * c + x * 1024 % weight;
    assert weight * (c + 1) == weight * c + weight;
  }

  /** The time slice for a queue of `n` threads, in nanoseconds (modules/mtask/scheduler.c:187-191, 201-204). */
  function Slice(n: nat): nat {
    var s := if n == 0 then 0 else LATENCY / n;
    (if s < MIN_GRANULARITY then MIN_GRANULARITY else s) * 1000000
  }

  /** Up to four threads share 48 ms, to the millisecond; more get 10 ms each. */
  lemma SliceExactly(n: nat)
    ensures 1 <= n <= 4 ==> n * Slice(n) == 48_000_000
    ensures n == 0 || n > 4 ==> Slice(n) == 10_000_000
  {
    if n > 4 {
      assert LATENCY == n * (LATENCY / n) + LATENCY % n;
      MulMono(5, n, LATENCY / n);
    }
  }

  function Min(q: seq<Thread>): nat { if q == [] then 0 else q[0].vruntime }

  /** thread_tree_add (modules/mtask/scheduler.c:175-196). */
  function Added(q: seq<Thread>, th: Thread): seq<Thread> { InsertStable(q, th.(vruntime := Min(q))) }

  /** The thread `x` has come into the queue behind all threads of vruntime at most its own, before all others; these
      keep their order. */
  ghost predicate Joined(q: seq<Thread>, x: Thread, q': seq<Thread>) {
    exists k :: 0 <= k <= |q| && JoinedAt(q, x, q', k)
  }

  ghost predicate JoinedAt(q: seq<Thread>, x: Thread, q': seq<Thread>, k: nat)
    requires k <= |q|
  {
    && q' == q[..k] + [x] + q[k..]
    && forall i :: 0 <= i < |q| ==> (i < k <==> q[i].vruntime <= x.vruntime)
  }

  lemma InsertJoins(q: seq<Thread>, x: Thread)
    requires Sorted(q)
    ensures Joined(q, x, InsertStable(q, x))
  {
    var k := Rank(q, x.vruntime);
    forall i | 0 <= i < |q| ensures i < k <==> q[i].vruntime <= x.vruntime {
      assert i > k ==> q[k].vruntime <= q[i].vruntime;
    }
    assert JoinedAt(q, x, InsertStable(q, x), k);
  }

  /** A vruntime at most everyone's, and somebody's unless the queue is empty. */
  ghost predicate Least(q: seq<Thread>, v: nat) {
    (forall t :: t in q ==> v <= t.vruntime) && if q == [] then v == 0 else exists t :: t in q && t.vruntime == v
  }

  /** A new thread starts at the least vruntime of the queue. */
  lemma AddedLeast(q: seq<Thread>, th: Thread)
    requires Sorted(q)
    ensures exists v: nat :: Least(q, v) && Joined(q, th.(vruntime := v), Added(q, th))
  {
    InsertJoins(q, th.(vruntime := Min(q)));
    SortedMin(q);
    assert q != [] ==> q[0] in q && q[0].vruntime == Min(q);
    assert Least(q, Min(q));
  }

  function Removed(q: seq<Thread>, i: nat): seq<Thread>
    requires i < |q|
  {
    q[..i] + q[i + 1..]
  }

  function Charged(t: Thread, charge: nat): Thread { t.(vruntime := t.vruntime + charge) }

  /** Charging the leftmost thread and re-inserting it (modules/mtask/scheduler.c:342-349). */
  function Advanced(q: seq<Thread>, charge: nat): seq<Thread>
    requires q != []
  {
    InsertStable(q[1..], Charged(q[0], charge))
  }

  class Queue {
    var threads: seq<Thread>
    var threadCnt: nat
    var timeSlice: nat

    ghost predicate Valid()
      reads this
    {
      && Sorted(threads) && threadCnt == |threads| && (timeSlice == 0 || timeSlice == Slice(threadCnt))
      && forall t :: t in threads ==> t.weight > 0
    }

    constructor ()
      ensures Valid() && threads == []
    {
      threads, threadCnt, timeSlice := [], 0, 0;
    }

    /** modules/mtask/scheduler.c:175-196. */
    method Add(th: Thread)
      requires Valid() && th.weight > 0
      modifies this
      ensures Valid() && threads == Added(old(threads), th) && timeSlice == Slice(threadCnt)
      ensures exists v: nat :: Least(old(threads), v) && Joined(old(threads), th.(vruntime := v), threads)
    {
      AddedLeast(threads, th);
      var min := if threads == [] then 0 else threads[0].vruntime;
      var placed := th.(vruntime := min);
      threadCnt := threadCnt + 1;
      SetSlice();
      InsertStableMeaning(threads, placed);
      InsertedMembers(threads, placed);
      threads := InsertStable(threads, placed);
    }

    /** modules/mtask/scheduler.c:187-191, 201-204. */
    method SetSlice()
      modifies this`timeSlice
      ensures timeSlice == Slice(threadCnt)
    {
      timeSlice := if threadCnt != 0 then LATENCY / threadCnt else 0;
      if timeSlice < MIN_GRANULARITY {
        timeSlice := MIN_GRANULARITY;
      }
      timeSlice := timeSlice * 1000000;
    }

    /** modules/mtask/scheduler.c:197-208, with removal of the tree node taken by its contract. */
    method Remove(i: nat)
      requires Valid() && i < |threads|
      modifies this
      ensures Valid() && threads == Removed(old(threads), i) && timeSlice == Slice(threadCnt)
    {
      threadCnt := threadCnt - 1;
      SetSlice();
      threads := threads[..i] + threads[i + 1..];
    }

    /** modules/mtask/scheduler.c:328-353: nobody is switched to before the slice has passed or when the queue is
        empty; otherwise a thread of least vruntime is charged and chosen. */
    method Advance(time: nat, resolution: nat) returns (next: seq<Thread>)
      requires Valid()
      modifies this
      ensures Valid() && timeSlice == old(timeSlice)
      ensures time < old(timeSlice) || old(threads) == [] ==> next == [] && threads == old(threads)
      ensures !(time < old(timeSlice) || old(threads) == []) ==>
        threads == Advanced(old(threads), Charge(time, resolution, old(threads)[0].weight))
      ensures !(time < old(timeSlice) || old(threads) == []) ==>
        next == [Charged(old(threads)[0], Charge(time, resolution, old(threads)[0].weight))]
      ensures next != [] ==>
        Least(old(threads), old(threads)[0].vruntime) && Joined(old(threads)[1..], next[0], threads)
    {
      if time < timeSlice {
        return [];
      }
      if threads == [] {
        return [];
      }
      var t := threads[0];
      assert t in threads;
      var charged := Charged(t, Charge(time, resolution, t.weight));
      InsertStableMeaning(threads[1..], charged);
      InsertedMembers(threads[1..], charged);
      InsertJoins(threads[1..], charged);
      SortedMin(threads);
      threads := InsertStable(threads[1..], charged);
      next := [charged];
    }

    /** Any run of arrivals, departures and timer interrupts, none of which can charge a thread of weight `w` or more by
        more than `limit`: the vruntimes stay within `limit` of each other. */
    method Drive(events: seq<Event>, w: nat, limit: nat)
      requires Valid() && Close(threads, limit) && w > 0 && Heavy(threads, w)
      requires forall i :: 0 <= i < |events| ==> Mild(events[i], w, limit)
      modifies this
      ensures Valid() && Close(threads, limit) && Heavy(threads, w)
    {
      for i := 0 to |events|
        invariant Valid() && Close(threads, limit) && Heavy(threads, w)
      {
        assert Mild(events[i], w, limit);
        Happen(events[i], w, limit);
      }
    }

    /** Timer interrupts, each after at least a time slice, until thread `id` is chosen: with weights of at most `w`, it
        is chosen within (n - 1) * (limit / e + 1) + 1 of them, where `e` is what a slice costs the heaviest thread. */
    method Await(id: nat, times: seq<nat>, resolution: nat, w: nat, ghost v: nat, ghost e: nat, ghost limit: nat)
      returns (k: nat, next: seq<Thread>)
      requires Valid() && Close(threads, limit) && Here(threads, id, v) && timeSlice == Slice(threadCnt)
          && Light(threads, w) && w > 0
      requires e == Charge(Slice(threadCnt), resolution, w) > 0
      requires forall i :: 0 <= i < |times| ==> times[i] >= Slice(threadCnt)
      requires |times| >= (|threads| - 1) * (limit / e + 1) + 1
      modifies this
      ensures Valid() && k < |times| && |next| == 1 && next[0].id == id
    {
      ghost var n, bound := |threads|, (|threads| - 1) * (limit / e + 1);
      WaitingTotal(threads, id, v, e, limit, limit / e + 1);
      k, next := 0, [];
      while k < |times|
        invariant Valid() && |threads| == n > 0 && timeSlice == Slice(n) && Light(threads, w) && Here(threads, id, v)
        invariant k <= |times| && Waiting(threads, id, v, e) + k <= bound
      {
        ghost var q := threads;
        var time := times[k];
        HeadCharged(q, time, Slice(n), resolution, w, e);
        next := Advance(time, resolution);
        if next[0].id == id {
          return;
        }
        PassedAlong(q, Charge(time, resolution, q[0].weight), id, v, e, w);
        k := k + 1;
      }
    }

    method Happen(e: Event, w: nat, limit: nat)
      requires Valid() && Close(threads, limit) && w > 0 && Heavy(threads, w) && Mild(e, w, limit)
      modifies this
      ensures Valid() && Close(threads, limit) && Heavy(threads, w)
    {
      ghost var q := threads;
      match e {
        case Arrive(th) =>
          StepKeepsClose(q, Step.Add(th), limit);
          InsertedMembers(q, th.(vruntime := Min(q)));
          Add(th);
        case Leave(i) =>
          if i < |threads| {
            StepKeepsClose(q, Step.Remove(i), limit);
            Remove(i);
          }
        case Tick(time, resolution) =>
          if threads != [] {
            assert q[0] in q;
            var c := Charge(time, resolution, q[0].weight);
            ChargeAtMost(time, resolution, w, q[0].weight);
            StepKeepsClose(q, Step.Advance(c), limit);
            InsertedMembers(q[1..], Charged(q[0], c));
          }
          var _ := Advance(time, resolution);
      }
    }
  }

  datatype Event = Arrive(th: Thread) | Leave(at: nat) | Tick(time: nat, resolution: nat)

  ghost predicate Heavy(q: seq<Thread>, w: nat) { forall t :: t in q ==> t.weight >= w }

  /** An event that keeps weights at `w` or more and charges such weights at most `limit`. */
  predicate Mild(e: Event, w: nat, limit: nat)
    requires w > 0
  {
    match e
    case Arrive(th) => th.weight >= w
    case Leave(_) => true
    case Tick(time, resolution) => Charge(time, resolution, w) <= limit
  }

  ghost predicate Light(q: seq<Thread>, w: nat) { forall t :: t in q ==> t.weight <= w }

  /** A tick of at least a slice charges the head at least what a slice costs weight `w`. */
  lemma HeadCharged(q: seq<Thread>, time: nat, slice: nat, resolution: nat, w: nat, e: nat)
    requires q != [] && Light(q, w) && q[0].weight > 0 && time >= slice && e == Charge(slice, resolution, w)
    ensures Charge(time, resolution, q[0].weight) >= e
  {
    assert q[0] in q;
    ChargeAtMost(slice, resolution, q[0].weight, w);
    ChargeGrows(slice, time, resolution, q[0].weight);
  }

  lemma ChargeGrows(slice: nat, time: nat, resolution: nat, w: nat)
    requires 0 < w && slice <= time
    ensures Charge(slice, resolution, w) <= Charge(time, resolution, w)
  {
    MulMono(slice, time, resolution);
    MulMono(slice * resolution, time * resolution, DEFAULT_WEIGHT);
    DivMono(slice * resolution * DEFAULT_WEIGHT, time * resolution * DEFAULT_WEIGHT, w);
  }

  /** A choice that passes `id` over leaves it where it was and uses up a turn of somebody else. */
  lemma PassedAlong(q: seq<Thread>, c: nat, id: nat, v: nat, e: nat, w: nat)
    requires Sorted(q) && q != [] && Here(q, id, v) && q[0].id != id && e > 0 && c >= e && Light(q, w)
    ensures var q' := Advanced(q, c);
      |q'| == |q| && Here(q', id, v) && Light(q', w) && Waiting(q', id, v, e) + 1 <= Waiting(q, id, v, e)
  {
    HereKept(q, c, id, v);
    PassedOver(q, c, id, v, e);
    InsertedMembers(q[1..], Charged(q[0], c));
    assert q[0] in q && forall t :: t in q[1..] ==> t in q;
  }

  /** Heavier threads are charged no more. */
  lemma ChargeAtMost(time: nat, resolution: nat, w: nat, w': nat)
    requires 0 < w <= w'
    ensures Charge(time, resolution, w') <= Charge(time, resolution, w)
  {
    var x := time * resolution * DEFAULT_WEIGHT;
    var a, b := x / w, x / w';
    assert x == w * a + x % w && x == w' * b + x % w';
    if a < b {
      MulMono(w, w', b);
      MulGap(w, a, b);
    }
  }

  lemma InsertedMembers(q: seq<Thread>, x: Thread)
    ensures |InsertStable(q, x)| == |q| + 1
    ensures forall t :: t in InsertStable(q, x) <==> t in q || t == x
  {
    var k := Rank(q, x.vruntime);
    assert q == q[..k] + q[k..];
  }

  // ---- runs of adding, removing and advancing ----

  datatype Step = Add(th: Thread) | Remove(at: nat) | Advance(charge: nat)

  /** A step that the queue can take, charging at most `limit`. */
  predicate Legal(q: seq<Thread>, s: Step, limit: nat) {
    match s
    case Add(_) => true
    case Remove(i) => i < |q|
    case Advance(c) => q != [] && c <= limit
  }

  function Apply(q: seq<Thread>, s: Step): seq<Thread> {
    match s
    case Add(th) => Added(q, th)
    case Remove(i) => if i < |q| then Removed(q, i) else q
    case Advance(c) => if q != [] then Advanced(q, c) else q
  }

  function Run(q: seq<Thread>, steps: seq<Step>): seq<Thread> {
    if steps == [] then q else Apply(Run(q, steps[..|steps| - 1]), steps[|steps| - 1])
  }

  predicate LegalRun(q: seq<Thread>, steps: seq<Step>, limit: nat) {
    steps == [] ||
    (LegalRun(q, steps[..|steps| - 1], limit) && Legal(Run(q, steps[..|steps| - 1]), steps[|steps| - 1], limit))
  }

  /** Sorted, and no two vruntimes differ by more than `limit`. */
  ghost predicate Close(q: seq<Thread>, limit: nat) {
    Sorted(q) && forall t, u :: t in q && u in q ==> t.vruntime <= u.vruntime + limit
  }

  lemma SortedMin(q: seq<Thread>)
    requires Sorted(q)
    ensures forall t :: t in q ==> Min(q) <= t.vruntime
  {
    forall t | t in q ensures Min(q) <= t.vruntime {
      var i :| 0 <= i < |q| && q[i] == t;
    }
  }

  lemma InsertKeepsClose(q: seq<Thread>, x: Thread, limit: nat)
    requires Close(q, limit)
    requires forall t :: t in q ==> x.vruntime <= t.vruntime + limit && t.vruntime <= x.vruntime + limit
    ensures Close(InsertStable(q, x), limit)
  {
    InsertStableMeaning(q, x);
    InsertedMembers(q, x);
  }

  lemma PartClose(q: seq<Thread>, i: nat, limit: nat)
    requires Close(q, limit) && i < |q|
    ensures Close(Removed(q, i), limit)
  {
    assert forall t :: t in Removed(q, i) ==> t in q;
  }

  lemma StepKeepsClose(q: seq<Thread>, s: Step, limit: nat)
    requires Close(q, limit) && Legal(q, s, limit)
    ensures Close(Apply(q, s), limit)
  {
    SortedMin(q);
    match s
    case Add(th) =>
      assert q != [] ==> q[0] in q;
      InsertKeepsClose(q, th.(vruntime := Min(q)), limit);
    case Remove(i) =>
      PartClose(q, i, limit);
    case Advance(c) =>
      PartClose(q, 0, limit);
      assert Removed(q, 0) == q[1..];
      assert q[0] in q && forall t :: t in q[1..] ==> t in q;
      InsertKeepsClose(q[1..], Charged(q[0], c), limit);
  }

  /** Over every run from a queue whose vruntimes are within `limit` of each other, with charges of at most `limit`,
      they stay so. */
  lemma {:induction false} RunKeepsClose(q: seq<Thread>, steps: seq<Step>, limit: nat)
    requires Close(q, limit) && LegalRun(q, steps, limit)
    ensures Close(Run(q, steps), limit)
    decreases |steps|
  {
    if steps != [] {
      RunKeepsClose(q, steps[..|steps| - 1], limit);
      StepKeepsClose(Run(q, steps[..|steps| - 1]), steps[|steps| - 1], limit);
    }
  }

  // ---- no starvation ----

  /** How often a thread of vruntime `v` can still be chosen before one of vruntime `goal`, if each choice charges at
      least `e`. */
  function Turns(v: nat, goal: nat, e: nat): nat
    requires e > 0
  {
    if v > goal then 0 else (goal - v) / e + 1
  }

  /** The turns of all threads but `id`. */
  function Waiting(q: seq<Thread>, id: nat, goal: nat, e: nat): nat
    requires e > 0
  {
    if q == [] then 0
    else (if q[0].id == id then 0 else Turns(q[0].vruntime, goal, e)) + Waiting(q[1..], id, goal, e)
  }

  lemma {:induction false} WaitingJoin(a: seq<Thread>, b: seq<Thread>, id: nat, goal: nat, e: nat)
    requires e > 0
    ensures Waiting(a + b, id, goal, e) == Waiting(a, id, goal, e) + Waiting(b, id, goal, e)
  {
    if a == [] {
      assert a + b == b;
    } else {
      assert (a + b)[1..] == a[1..] + b;
      WaitingJoin(a[1..], b, id, goal, e);
    }
  }

  lemma WaitingInsert(q: seq<Thread>, x: Thread, id: nat, goal: nat, e: nat)
    requires e > 0 && x.id != id
    ensures Waiting(InsertStable(q, x), id, goal, e) == Waiting(q, id, goal, e) + Turns(x.vruntime, goal, e)
  {
    var k := Rank(q, x.vruntime);
    WaitingJoin(q[..k], [x], id, goal, e);
    WaitingJoin(q[..k] + [x], q[k..], id, goal, e);
    WaitingJoin(q[..k], q[k..], id, goal, e);
    assert q[..k] + q[k..] == q;
    assert [x][1..] == [];
  }

  /** A charge of at least `e` costs at least one turn. */
  lemma TurnsDrop(v: nat, c: nat, goal: nat, e: nat)
    requires e > 0 && c >= e && v <= goal
    ensures Turns(v + c, goal, e) + 1 <= Turns(v, goal, e)
  {
    if v + c <= goal {
      DivDrop(goal - v, c, e);
    }
  }

  /** There is a thread called `id`, and whatever is called so has vruntime `v`. */
  ghost predicate Here(q: seq<Thread>, id: nat, v: nat) {
    (exists t :: t in q && t.id == id) && forall t :: t in q && t.id == id ==> t.vruntime == v
  }

  lemma HereKept(q: seq<Thread>, c: nat, id: nat, v: nat)
    requires q != [] && Here(q, id, v) && q[0].id != id
    ensures Here(Advanced(q, c), id, v)
  {
    var x := Charged(q[0], c);
    InsertedMembers(q[1..], x);
    var t :| t in q && t.id == id;
    assert t in q[1..] && t in Advanced(q, c);
    forall u | u in Advanced(q, c) && u.id == id ensures u.vruntime == v {
      assert u in q[1..] && u in q;
    }
  }

  /** A choice that passes `id` over uses up a turn of somebody else. */
  lemma PassedOver(q: seq<Thread>, c: nat, id: nat, v: nat, e: nat)
    requires Sorted(q) && q != [] && Here(q, id, v) && q[0].id != id && e > 0 && c >= e
    ensures Sorted(Advanced(q, c)) && Waiting(Advanced(q, c), id, v, e) + 1 <= Waiting(q, id, v, e)
  {
    var x := Charged(q[0], c);
    assert q[0].vruntime <= v by {
      SortedMin(q);
      var t :| t in q && t.id == id;
    }
    InsertStableMeaning(q[1..], x);
    WaitingInsert(q[1..], x, id, v, e);
    TurnsDrop(q[0].vruntime, c, v, e);
  }

  /** Advancing once per charge, as long as `id` is not the one chosen. */
  predicate ChosenWithin(q: seq<Thread>, charges: seq<nat>, id: nat)
    decreases |charges|
  {
    q != [] && charges != [] && (q[0].id == id || ChosenWithin(Advanced(q, charges[0]), charges[1..], id))
  }

  lemma {:induction false} ChosenInTurn(q: seq<Thread>, charges: seq<nat>, id: nat, v: nat, e: nat)
    requires Sorted(q) && Here(q, id, v) && e > 0 && forall i :: 0 <= i < |charges| ==> charges[i] >= e
    requires |charges| > Waiting(q, id, v, e)
    ensures ChosenWithin(q, charges, id)
    decreases |charges|
  {
    if q[0].id != id {
      var c, rest := charges[0], charges[1..];
      PassedOver(q, c, id, v, e);
      HereKept(q, c, id, v);
      assert forall i :: 0 <= i < |rest| ==> rest[i] == charges[i + 1];
      var q' := Advanced(q, c);
      ChosenInTurn(q', rest, id, v, e);
    }
  }

  lemma {:induction false} WaitingBound(q: seq<Thread>, id: nat, v: nat, e: nat, limit: nat, b: nat)
    requires e > 0 && b == limit / e + 1 && forall t :: t in q ==> v <= t.vruntime + limit
    ensures Waiting(q, id, v, e) <= Others(q, id) * b
  {
    if q != [] {
      assert forall t :: t in q[1..] ==> t in q;
      WaitingBound(q[1..], id, v, e, limit, b);
      assert q[0] in q;
      if q[0].vruntime <= v {
        DivMono(v - q[0].vruntime, limit, e);
      }
      assert Turns(q[0].vruntime, v, e) <= b;
      assert (1 + Others(q[1..], id)) * b == b + Others(q[1..], id) * b;
    }
  }

  /** How many threads are not `id`. */
  function Others(q: seq<Thread>, id: nat): nat {
    if q == [] then 0 else (if q[0].id == id then 0 else 1) + Others(q[1..], id)
  }

  lemma {:induction false} OthersLess(q: seq<Thread>, id: nat)
    requires exists t :: t in q && t.id == id
    ensures Others(q, id) <= |q| - 1
  {
    if q[0].id == id {
      OthersAtMost(q[1..], id);
    } else {
      var t :| t in q && t.id == id;
      assert t in q[1..];
      OthersLess(q[1..], id);
    }
  }

  lemma {:induction false} OthersAtMost(q: seq<Thread>, id: nat)
    ensures Others(q, id) <= |q|
  {
    if q != [] {
      OthersAtMost(q[1..], id);
    }
  }

  /** Among n threads within `limit` of each other, with charges of at least `e`, every thread is chosen within
      (n - 1) * (limit / e + 1) + 1 choices. */
  lemma NoStarvation(q: seq<Thread>, charges: seq<nat>, id: nat, v: nat, e: nat, limit: nat)
    requires Close(q, limit) && Here(q, id, v) && e > 0
    requires forall i :: 0 <= i < |charges| ==> charges[i] >= e
    requires |charges| >= (|q| - 1) * (limit / e + 1) + 1
    ensures ChosenWithin(q, charges, id)
  {
    WaitingTotal(q, id, v, e, limit, limit / e + 1);
    ChosenInTurn(q, charges, id, v, e);
  }

  lemma HereClose(q: seq<Thread>, id: nat, v: nat, limit: nat)
    requires Close(q, limit) && Here(q, id, v)
    ensures forall t :: t in q ==> v <= t.vruntime + limit
  {
    var u :| u in q && u.id == id;
    assert u.vruntime == v;
  }

  lemma WaitingTotal(q: seq<Thread>, id: nat, v: nat, e: nat, limit: nat, b: nat)
    requires Close(q, limit) && Here(q, id, v) && e > 0 && b == limit / e + 1
    ensures |q| > 0 && Waiting(q, id, v, e) <= (|q| - 1) * b
  {
    HereClose(q, id, v, limit);
    WaitingBound(q, id, v, e, limit, b);
    OthersLess(q, id);
    var o, n := Others(q, id), |q| - 1;
    MulMono(o, n, b);
  }
}
