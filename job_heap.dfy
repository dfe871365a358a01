/**
 * The jobs of the ETL scheduler and the binary min-heap that orders them.
 *
 * `JobScheduler` keeps its pending jobs in a Python list managed by `heapq`,
 * each as the tuple `(priority, counter, job)`. This module gives the job
 * record, the tuple, the tuple order, the two `heapq` operations the scheduler
 * uses, and the specification of the order in which jobs leave the heap.
 */
module JobHeap {

  /** The levels in the order they are declared, most urgent first. */
  const DeclaredLevels: seq<JobPriority> := [Critical, High, Normal, Low, Background]

  /** The five named priority levels; a lower level is dispatched earlier. */
  datatype JobPriority = Critical | High | Normal | Low | Background {

    /** The integer value of the level (the enum is an `IntEnum`). */
    function Level(): (n: int)
      ensures 1 <= n <= 5
      ensures DeclaredLevels[n - 1] == this
    {
      match this
      case Critical => 1
      case High => 2
      case Normal => 3
      case Low => 4
      case Background => 5
    }
  }

  /** A job's configuration: an opaque payload handed through unchanged. */
  type Config = map<string, string>

  /** An ETL job record. Its creation time is not modelled: see the README. */
  datatype ETLJob = ETLJob(priority: int, jobId: string, jobType: string, config: Config)

  /** One heap element: the tuple `(priority, counter, job)`. */
  datatype Entry = Entry(priority: int, counter: nat, job: ETLJob)

  /**
   * Python's tuple order on the first two components: `a` leaves the heap
   * strictly before `b`. The job itself is never compared because no two
   * pending entries share a counter.
   */
  predicate Precedes(a: Entry, b: Entry) {
    a.priority < b.priority || (a.priority == b.priority && a.counter < b.counter)
  }

  /** `(a.priority, a.counter) <= (b.priority, b.counter)`. */
  predicate NotAfter(a: Entry, b: Entry) {
    a.priority < b.priority || (a.priority == b.priority && a.counter <= b.counter)
  }

  /** Index `k` of a `heapq` list is a child of index `p`. */
  predicate ChildOf(k: int, p: int) {
    k == 2 * p + 1 || k == 2 * p + 2
  }

  /** Every element of a `heapq` list is no greater than its children. */
  ghost predicate IsHeap(h: seq<Entry>) {
    forall p, k :: 0 <= p < k < |h| && ChildOf(k, p) ==> NotAfter(h[p], h[k])
  }

  /** No two pending entries share a counter, and none is pending twice. */
  ghost predicate DistinctCounters(m: multiset<Entry>) {
    && (forall a, b | a in m && b in m && a.counter == b.counter :: a == b)
    && (forall a | a in m :: m[a] == 1)
  }

  /** `e` is a pending entry that no other pending entry precedes. */
  ghost predicate IsMin(e: Entry, m: multiset<Entry>) {
    e in m && forall x | x in m :: NotAfter(e, x)
  }

  lemma {:induction false} MinExists(m: multiset<Entry>)
    requires m != multiset{}
    ensures exists e :: IsMin(e, m)
    decreases |m|
  {
    var x :| x in m;
    var rest := m - multiset{x};
    if rest == multiset{} {
      assert m == rest + multiset{x};
      assert IsMin(x, m);
    } else {
      MinExists(rest);
      var y :| IsMin(y, rest);
      var least := if NotAfter(x, y) then x else y;
      forall z | z in m ensures NotAfter(least, z) {
        if z != x {
          assert z in rest;
        }
      }
      assert IsMin(least, m);
    }
  }

  /** With distinct counters the key order is total, so the minimum is unique. */
  lemma MinIsUnique(m: multiset<Entry>, a: Entry, b: Entry)
    requires DistinctCounters(m) && IsMin(a, m) && IsMin(b, m)
    ensures a == b
  {
    assert NotAfter(a, b) && NotAfter(b, a);
  }

  /** The entry `heappop` removes next: the one with the least `(priority, counter)`. */
  ghost function MinOf(m: multiset<Entry>): (e: Entry)
    requires m != multiset{}
    ensures IsMin(e, m)
  {
    MinExists(m);
    var e :| IsMin(e, m);
    e
  }

  lemma {:induction false} RootIsLeast(h: seq<Entry>, k: nat)
    requires IsHeap(h) && k < |h|
    ensures NotAfter(h[0], h[k])
    decreases k
  {
    if k > 0 {
      RootIsLeast(h, (k - 1) / 2);
    }
  }

  /** The first element of a heap precedes or equals every element. */
  lemma HeapRootIsMin(h: seq<Entry>)
    requires IsHeap(h) && |h| > 0
    ensures IsMin(h[0], multiset(h))
  {
    forall x | x in multiset(h) ensures NotAfter(h[0], x) {
      var k :| 0 <= k < |h| && h[k] == x;
      RootIsLeast(h, k);
    }
  }

  /** The first element of a heap is the entry `MinOf` names. */
  lemma RootIsMin(h: seq<Entry>)
    requires IsHeap(h) && |h| > 0 && DistinctCounters(multiset(h))
    ensures MinOf(multiset(h)) == h[0]
  {
    HeapRootIsMin(h);
    MinIsUnique(multiset(h), h[0], MinOf(multiset(h)));
  }

  /**
   * The order in which repeated `heappop` calls hand out the entries of `m`
   * when nothing is pushed in between.
   */
  ghost function DispatchOrder(m: multiset<Entry>): (s: seq<Entry>)
    ensures |s| == |m|
    decreases |m|
  {
    if m == multiset{} then []
    else
      var e := MinOf(m);
      [e] + DispatchOrder(m - multiset{e})
  }

  /** Draining starts with the least entry, then drains the rest. */
  lemma DispatchStep(m: multiset<Entry>, e: Entry, rest: multiset<Entry>)
    requires DistinctCounters(m) && IsMin(e, m) && rest == m - multiset{e}
    ensures DispatchOrder(m) == [e] + DispatchOrder(rest)
  {
    MinIsUnique(m, e, MinOf(m));
  }

  /** Draining the heap hands out every pending entry exactly once. */
  lemma {:induction false} DispatchOrderIsPermutation(m: multiset<Entry>)
    ensures multiset(DispatchOrder(m)) == m
    decreases |m|
  {
    if m != multiset{} {
      var e := MinOf(m);
      DispatchOrderIsPermutation(m - multiset{e});
    }
  }

  /**
   * Entries in dispatch order: priorities never decrease, and equal
   * priorities come in increasing counter order, i.e. in scheduling order.
   */
  ghost predicate InDispatchOrder(s: seq<Entry>) {
    forall i, j :: 0 <= i < j < |s| ==> Precedes(s[i], s[j])
  }

  lemma PrependInOrder(e: Entry, t: seq<Entry>)
    requires InDispatchOrder(t)
    requires forall x | x in t :: Precedes(e, x)
    ensures InDispatchOrder([e] + t)
  {
    var s := [e] + t;
    forall i, j | 0 <= i < j < |s| ensures Precedes(s[i], s[j]) {
      if i > 0 {
        assert s[i] == t[i - 1] && s[j] == t[j - 1];
      } else {
        assert s[j] == t[j - 1];
      }
    }
  }

  /** The least entry of a set of distinct entries precedes every other one. */
  lemma MinPrecedesRest(m: multiset<Entry>, e: Entry)
    requires DistinctCounters(m) && IsMin(e, m)
    ensures DistinctCounters(m - multiset{e})
    ensures forall x | x in m - multiset{e} :: Precedes(e, x)
  {
    var rest := m - multiset{e};
    assert rest[e] == 0;
    forall x | x in rest ensures Precedes(e, x) {
      assert x in m && x != e;
    }
  }

  /**
   * Draining the heap yields non-decreasing priorities, and among equal
   * priorities increasing counters: the order in which the jobs were scheduled.
   */
  lemma {:induction false} DispatchOrderSorted(m: multiset<Entry>)
    requires DistinctCounters(m)
    ensures InDispatchOrder(DispatchOrder(m))
    decreases |m|
  {
    if m != multiset{} {
      var e := MinOf(m);
      var rest := m - multiset{e};
      MinPrecedesRest(m, e);
      DispatchOrderSorted(rest);
      DispatchOrderIsPermutation(rest);
      var t := DispatchOrder(rest);
      forall x | x in t ensures Precedes(e, x) {
        assert x in multiset(t);
      }
      PrependInOrder(e, t);
    }
  }

  /**
   * A pending job is never dispatched while an earlier-scheduled job of the
   * same priority is still pending.
   */
  lemma EqualPriorityFifo(m: multiset<Entry>, a: Entry, b: Entry)
    requires a in m && b in m
    requires a.priority == b.priority && a.counter < b.counter
    ensures MinOf(m) != b
  {
  }

  /** The heap property holds for every parent-child pair except where `i` is the child. */
  ghost predicate HeapExceptChild(r: seq<Entry>, i: nat) {
    forall p, k :: 0 <= p < k < |r| && ChildOf(k, p) && k != i ==> NotAfter(r[p], r[k])
  }

  /** The heap property holds for every parent-child pair except where `i` is the parent. */
  ghost predicate HeapExceptParent(r: seq<Entry>, i: nat) {
    forall p, k :: 0 <= p < k < |r| && ChildOf(k, p) && p != i ==> NotAfter(r[p], r[k])
  }

  /** The parent of `i` is no greater than the children of `i`. */
  ghost predicate BridgesOver(r: seq<Entry>, i: nat) {
    forall p, k :: 0 <= p < i < k < |r| && ChildOf(i, p) && ChildOf(k, i) ==> NotAfter(r[p], r[k])
  }

  /** Exchanging two elements keeps the multiset of a sequence. */
  lemma SwapKeepsElements(r: seq<Entry>, i: nat, j: nat)
    requires i < |r| && j < |r|
    ensures multiset(r[i := r[j]][j := r[i]]) == multiset(r)
  {
  }

  lemma SiftUpStep(r: seq<Entry>, i: nat)
    requires 0 < i < |r| && HeapExceptChild(r, i) && BridgesOver(r, i)
    requires Precedes(r[i], r[(i - 1) / 2])
    ensures HeapExceptChild(r[i := r[(i - 1) / 2]][(i - 1) / 2 := r[i]], (i - 1) / 2)
    ensures BridgesOver(r[i := r[(i - 1) / 2]][(i - 1) / 2 := r[i]], (i - 1) / 2)
  {
  }

  /** `heapq.heappush`: append `e`, then move it towards the root past larger parents. */
  method HeapPush(h: seq<Entry>, e: Entry) returns (r: seq<Entry>)
    requires IsHeap(h)
    ensures IsHeap(r)
    ensures multiset(r) == multiset(h) + multiset{e}
  {
    r := h + [e];
    var i := |h|;
    while i > 0 && Precedes(r[i], r[(i - 1) / 2])
      invariant 0 <= i < |r|
      invariant multiset(r) == multiset(h) + multiset{e}
      invariant HeapExceptChild(r, i) && BridgesOver(r, i)
    {
      var p := (i - 1) / 2;
      SwapKeepsElements(r, i, p);
      SiftUpStep(r, i);
      r := r[i := r[p]][p := r[i]];
      i := p;
    }
  }

  /**
   * One sift-down step: the smaller child `c` of `i` precedes `i`, so the two
   * are exchanged and the gap in the heap property moves down to `c`.
   */
  lemma SiftDownStep(r: seq<Entry>, i: nat, c: nat)
    requires c < |r|
    requires HeapExceptParent(r, i) && BridgesOver(r, i)
    requires c == 2 * i + 1 || c == 2 * i + 2
    requires NotAfter(r[c], r[2 * i + 1]) && (2 * i + 2 < |r| ==> NotAfter(r[c], r[2 * i + 2]))
    requires Precedes(r[c], r[i])
    ensures HeapExceptParent(r[i := r[c]][c := r[i]], c)
    ensures BridgesOver(r[i := r[c]][c := r[i]], c)
  {
  }

  /** The sift-down stops once `i` is no greater than its children. */
  lemma SiftDownDone(r: seq<Entry>, i: nat)
    requires i < |r| && HeapExceptParent(r, i)
    requires 2 * i + 1 < |r| ==> NotAfter(r[i], r[2 * i + 1])
    requires 2 * i + 2 < |r| ==> NotAfter(r[i], r[2 * i + 2])
    ensures IsHeap(r)
  {
  }

  /** Overwriting the root of a heap breaks the heap property at the root only. */
  lemma NewRoot(h: seq<Entry>, x: Entry)
    requires IsHeap(h) && |h| > 0
    ensures HeapExceptParent(h[0 := x], 0) && BridgesOver(h[0 := x], 0)
  {
  }

  /**
   * Moves the element at the root down past smaller children until the heap
   * property holds again (the role of `heapq._siftup`).
   */
  method SiftDown(s: seq<Entry>) returns (r: seq<Entry>)
    requires |s| > 0 && HeapExceptParent(s, 0)
    ensures IsHeap(r)
    ensures multiset(r) == multiset(s)
  {
    r := s;
    var i := 0;
    while 2 * i + 1 < |r|
      invariant 0 <= i < |r| == |s|
      invariant multiset(r) == multiset(s)
      invariant HeapExceptParent(r, i) && BridgesOver(r, i)
      decreases |r| - i
    {
      var c := 2 * i + 1;
      if c + 1 < |r| && Precedes(r[c + 1], r[c]) {
        c := c + 1;
      }
      if !Precedes(r[c], r[i]) {
        SiftDownDone(r, i);
        return;
      }
      SwapKeepsElements(r, i, c);
      SiftDownStep(r, i, c);
      r := r[i := r[c]][c := r[i]];
      i := c;
    }
    SiftDownDone(r, i);
  }

  /**
   * `heapq.heappop` on a non-empty heap: return the first element, move the
   * last element to the front and sift it down past smaller children.
   */
  method HeapPop(h: seq<Entry>) returns (top: Entry, r: seq<Entry>)
    requires IsHeap(h) && |h| > 0
    ensures top == h[0] && IsMin(top, multiset(h))
    ensures IsHeap(r)
    ensures multiset(r) == multiset(h) - multiset{top}
  {
    top := h[0];
    HeapRootIsMin(h);
    var n := |h| - 1;
    assert h == h[..n] + [h[n]];
    if n == 0 {
      r := [];
      return;
    }
    assert h[..n] == [top] + h[1..n];
    var moved := h[..n][0 := h[n]];
    assert moved == [h[n]] + h[1..n];
    NewRoot(h[..n], h[n]);
    r := SiftDown(moved);
  }
}
