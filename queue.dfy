/** The stride-ordered ready queue of os/queue.c.

    `struct queue` is a circular buffer of QUEUE_SIZE slots holding parallel
    `data[]` (process ids) and `stride[]` arrays; the occupied slots run from
    `front` up to (not including) `tail`, wrapping modulo NPROC, and the
    `empty` flag tells an empty queue (`front == tail`, empty) from a full one
    (`front == tail`, not empty). NPROC is defined outside the files modelled;
    here it is the parameter `nproc` with `1 <= nproc <= QUEUE_SIZE`.

    The model has three layers:
    - `QueueState` and the functions on it (`PushAsWritten`, `PopAsWritten`)
      say what the C code does to the struct, slot by slot;
    - `Entries` reads the occupied slots, in queue order, as a sequence, and
      `InsertSorted` is the ordered insertion the queue is meant to perform;
    - the class `StrideQueue` holds the arrays and runs the C loops in place,
      each method proved against the functions above. */
module Queue {
  import opened Machine

  const QUEUE_SIZE: int := 1024

  /** One occupied slot: the process id in `data[]` and its stride in `stride[]`. */
  datatype Entry = Entry(value: int, stride: u64)

  /** The fields of `struct queue` at one moment. */
  datatype QueueState = QueueState(data: seq<int>, stride: seq<u64>, front: int, tail: int, empty: bool)

  /** What every queue reachable through init/push/pop satisfies: full-size buffers,
      `front` and `tail` in [0, nproc), and an empty queue has `front == tail`. */
  predicate WellFormed(q: QueueState, nproc: int) {
    && 1 <= nproc <= QUEUE_SIZE
    && |q.data| == QUEUE_SIZE && |q.stride| == QUEUE_SIZE
    && 0 <= q.front < nproc && 0 <= q.tail < nproc
    && (q.empty ==> q.front == q.tail)
  }

  /** Number of occupied slots; `front == tail` means nproc entries unless `empty`. */
  function Count(q: QueueState, nproc: int): (c: nat)
    requires WellFormed(q, nproc)
    ensures c <= nproc
    ensures c == 0 <==> q.empty
  {
    if q.empty then 0
    else if q.front < q.tail then q.tail - q.front
    else q.tail + nproc - q.front
  }

  /** Physical slot of the k-th entry counted from `front`, wrapping at nproc. */
  function SlotOf(front: int, k: int, nproc: int): (s: int)
    requires 0 <= front < nproc && 0 <= k < nproc
    ensures 0 <= s < nproc
  {
    if front + k < nproc then front + k else front + k - nproc
  }

  /** The occupied slots in queue order. */
  function Entries(q: QueueState, nproc: int): (e: seq<Entry>)
    requires WellFormed(q, nproc)
    ensures |e| == Count(q, nproc)
  {
    var c := Count(q, nproc);
    seq(c, k requires 0 <= k < c =>
      Entry(q.data[SlotOf(q.front, k, nproc)], q.stride[SlotOf(q.front, k, nproc)]))
  }

  /** Distinct queue positions occupy distinct slots. */
  lemma SlotDistinct(front: int, j: int, nproc: int)
    requires 0 <= front < nproc && 0 <= j < nproc
    ensures forall m :: 0 <= m < nproc && m != j ==> SlotOf(front, m, nproc) != SlotOf(front, j, nproc)
  {
  }

  /** Ascending by stride. */
  predicate Sorted(e: seq<Entry>) {
    forall i, j :: 0 <= i < j < |e| ==> e[i].stride <= e[j].stride
  }

  // ---------------------------------------------------------------------
  // The intended ordered insertion, as a reference definition.
  // ---------------------------------------------------------------------

  /** Position of the first entry whose stride is strictly larger than `s` (or |e|). */
  function FirstLarger(e: seq<Entry>, s: u64): (k: nat)
    ensures k <= |e|
    ensures forall m :: 0 <= m < k ==> e[m].stride <= s
    ensures k < |e| ==> s < e[k].stride
  {
    if e == [] || s < e[0].stride then 0 else 1 + FirstLarger(e[1..], s)
  }

  /** Insert `x` after every entry whose stride is <= x.stride and before the first larger one. */
  function InsertSorted(e: seq<Entry>, x: Entry): seq<Entry> {
    var k := FirstLarger(e, x.stride);
    e[..k] + [x] + e[k..]
  }

  /** The first-larger position is the unique k with everything before it <= s and e[k] > s. */
  lemma FirstLargerUnique(e: seq<Entry>, s: u64, k: nat)
    requires k <= |e|
    requires forall m :: 0 <= m < k ==> e[m].stride <= s
    requires k < |e| ==> s < e[k].stride
    ensures FirstLarger(e, s) == k
  {
  }

  /** Where everything lands in InsertSorted: entries before the insertion point stay,
      `x` sits at it, the rest move up by one. */
  lemma InsertSortedIndex(e: seq<Entry>, x: Entry)
    ensures |InsertSorted(e, x)| == |e| + 1
    ensures forall m :: 0 <= m <= |e| ==>
      InsertSorted(e, x)[m] ==
        if m < FirstLarger(e, x.stride) then e[m]
        else if m == FirstLarger(e, x.stride) then x
        else e[m - 1]
  {
  }

  /** Ordered insertion keeps the queue sorted. */
  lemma InsertSortedSorted(e: seq<Entry>, x: Entry)
    requires Sorted(e)
    ensures Sorted(InsertSorted(e, x))
  {
    var k := FirstLarger(e, x.stride);
    var r := InsertSorted(e, x);
    InsertSortedIndex(e, x);
    forall i, j | 0 <= i < j < |r| ensures r[i].stride <= r[j].stride {
      if j < k {
        assert r[i] == e[i] && r[j] == e[j];
      } else if j == k {
        assert r[i] == e[i];
      } else if i < k {
        assert r[i] == e[i] && r[j] == e[j - 1];
        assert e[i].stride <= e[k].stride <= e[j - 1].stride;
      } else if i == k {
        assert r[j] == e[j - 1];
        assert e[k].stride <= e[j - 1].stride;
      } else {
        assert r[i] == e[i - 1] && r[j] == e[j - 1];
      }
    }
  }

  /** Ordered insertion adds exactly `x` to the entries. */
  lemma InsertSortedMultiset(e: seq<Entry>, x: Entry)
    ensures multiset(InsertSorted(e, x)) == multiset(e) + multiset{x}
  {
    var k := FirstLarger(e, x.stride);
    assert e == e[..k] + e[k..];
  }

  /** On a sorted queue `x` goes after every entry of stride <= x.stride (so equal strides
      are served first-in first-out) and before every entry of larger stride. */
  lemma InsertSortedPlacement(e: seq<Entry>, x: Entry)
    requires Sorted(e)
    ensures var k := FirstLarger(e, x.stride);
      InsertSorted(e, x)[k] == x
      && (forall m :: 0 <= m < k ==> e[m].stride <= x.stride)
      && (forall m :: k <= m < |e| ==> x.stride < e[m].stride)
  {
    var k := FirstLarger(e, x.stride);
    InsertSortedIndex(e, x);
    forall m | k <= m < |e| ensures x.stride < e[m].stride {
      assert e[k].stride <= e[m].stride;
    }
  }

  // ---------------------------------------------------------------------
  // push_queue and pop_queue as written.
  // ---------------------------------------------------------------------

  /** Where the scan `for (i = front; i <= tail; ++i) if (stride < q->stride[i]) break;`
      stops, started at `i`: the first index in [i, tail] whose stored stride exceeds `s`,
      else tail + 1; the loop body never runs when i > tail. */
  function ScanIndex(stride: seq<u64>, i: int, tail: int, s: u64): (r: int)
    requires 0 <= i && tail < |stride|
    decreases tail + 1 - i
    ensures i <= r
    ensures i <= tail + 1 ==> r <= tail + 1
    ensures i > tail ==> r == i
    ensures forall k :: i <= k < r ==> stride[k] <= s
    ensures r <= tail ==> s < stride[r]
  {
    if i <= tail && !(s < stride[i]) then ScanIndex(stride, i + 1, tail, s) else i
  }

  /** The array after `for (t = tail; t > i; --t) a[t] = a[t - 1];`: slots i..t-1 move up one. */
  function Shifted<T>(a: seq<T>, i: int, t: int): (r: seq<T>)
    requires 0 <= i
    ensures |r| == |a|
  {
    seq(|a|, k requires 0 <= k < |a| => if i < k <= t then a[k - 1] else a[k])
  }

  /** push_queue panics when a non-empty queue has `front == tail`, and when advancing
      `tail` of a non-empty queue lands on `front`; its final write `data[i]` must also stay
      inside the QUEUE_SIZE-slot arrays (C would write past them when nproc == QUEUE_SIZE). */
  predicate PushAllowed(q: QueueState, nproc: int, s: u64)
    requires WellFormed(q, nproc)
  {
    q.empty ||
    (&& q.front != q.tail
     && (q.tail + 1) % nproc != q.front
     && ScanIndex(q.stride, q.front, q.tail, s) < QUEUE_SIZE)
  }

  /** The struct after `push_queue(q, value, s)` as os/queue.c writes it. */
  function PushAsWritten(q: QueueState, nproc: int, value: int, s: u64): (r: QueueState)
    requires WellFormed(q, nproc) && PushAllowed(q, nproc, s)
    ensures WellFormed(r, nproc) && !r.empty
    ensures r.front == q.front && r.tail == (q.tail + 1) % nproc
  {
    if q.empty then
      q.(data := q.data[q.tail := value], stride := q.stride[q.tail := s],
         tail := (q.tail + 1) % nproc, empty := false)
    else
      var i := ScanIndex(q.stride, q.front, q.tail, s);
      var t := (q.tail + 1) % nproc;
      q.(data := Shifted(q.data, i, t)[i := value], stride := Shifted(q.stride, i, t)[i := s], tail := t)
  }

  datatype Popped = Popped(q: QueueState, value: int)

  /** `pop_queue(q)`: -1 on an empty queue; otherwise `data[front]`, with `front` advanced
      and `empty` set exactly when it reaches `tail`. The buffers are never written. */
  function PopAsWritten(q: QueueState, nproc: int): (r: Popped)
    requires WellFormed(q, nproc)
    ensures WellFormed(r.q, nproc)
    ensures r.q.data == q.data && r.q.stride == q.stride && r.q.tail == q.tail
  {
    if q.empty then Popped(q, -1)
    else
      var f := (q.front + 1) % nproc;
      Popped(q.(front := f, empty := f == q.tail), q.data[q.front])
  }

  lemma NextMod(t: int, n: int)
    requires 0 <= t < n
    ensures (t + 1) % n == if t + 1 == n then 0 else t + 1
  {
    if t + 1 < n {
      assert (t + 1) / n == 0;
    } else {
      assert (t + 1) / n == 1;
    }
  }

  /** Advancing tail of a queue that is not full adds one to the count. */
  lemma CountGrows(q: QueueState, r: QueueState, nproc: int)
    requires WellFormed(q, nproc) && WellFormed(r, nproc) && Count(q, nproc) < nproc
    requires r.front == q.front && r.tail == (q.tail + 1) % nproc && !r.empty
    ensures Count(r, nproc) == Count(q, nproc) + 1
  {
    NextMod(q.tail, nproc);
  }

  /** Pushing onto an empty queue stores the pair at `tail`, clears `empty` and leaves
      exactly that one entry. */
  lemma PushOntoEmpty(q: QueueState, nproc: int, value: int, s: u64)
    requires WellFormed(q, nproc) && q.empty
    ensures PushAllowed(q, nproc, s)
    ensures var r := PushAsWritten(q, nproc, value, s);
      r.data[q.tail] == value && r.stride[q.tail] == s && !r.empty
      && Entries(r, nproc) == [Entry(value, s)]
  {
    var r := PushAsWritten(q, nproc, value, s);
    NextMod(q.tail, nproc);
    assert Count(r, nproc) == 1;
    assert SlotOf(r.front, 0, nproc) == q.tail;
  }

  /** Slot by slot, the no-wrap as-written push with the scan stopped at `i`: slots before
      `i` are kept, `i` gets the new pair, and slots `i+1..tail` get their left neighbours. */
  lemma PushAsWrittenSlots(q: QueueState, nproc: int, value: int, s: u64, k: int)
    requires WellFormed(q, nproc) && !q.empty
    requires q.front < q.tail && q.tail + 1 < nproc
    requires ScanIndex(q.stride, q.front, q.tail, s) <= q.tail
    requires q.front <= k <= q.tail + 1
    ensures PushAllowed(q, nproc, s)
    ensures var i := ScanIndex(q.stride, q.front, q.tail, s);
            var r := PushAsWritten(q, nproc, value, s);
            && r.tail == q.tail + 1
            && r.data[k] == (if k < i then q.data[k] else if k == i then value else q.data[k - 1])
            && r.stride[k] == (if k < i then q.stride[k] else if k == i then s else q.stride[k - 1])
  {
    NextMod(q.tail, nproc);
  }

  /** Without wrap-around the scan from `front` stops at the queue position of the first
      entry with a larger stride (or at `tail` when there is none). */
  lemma ScanIsFirstLarger(q: QueueState, nproc: int, s: u64)
    requires WellFormed(q, nproc) && !q.empty
    requires q.front < q.tail && q.tail + 1 < nproc
    requires ScanIndex(q.stride, q.front, q.tail, s) <= q.tail
    ensures FirstLarger(Entries(q, nproc), s) == ScanIndex(q.stride, q.front, q.tail, s) - q.front
  {
    var e := Entries(q, nproc);
    var i := ScanIndex(q.stride, q.front, q.tail, s);
    forall m | 0 <= m < i - q.front ensures e[m].stride <= s {
      assert e[m].stride == q.stride[q.front + m];
    }
    if i - q.front < |e| {
      assert e[i - q.front].stride == q.stride[i];
    }
    FirstLargerUnique(e, s, i - q.front);
  }

  /** One queue position of the no-wrap as-written push against the ordered insertion. */
  lemma PushAsWrittenEntry(q: QueueState, nproc: int, value: int, s: u64, m: int)
    requires WellFormed(q, nproc) && !q.empty
    requires q.front < q.tail && q.tail + 1 < nproc
    requires ScanIndex(q.stride, q.front, q.tail, s) <= q.tail
    requires 0 <= m <= q.tail - q.front
    ensures PushAllowed(q, nproc, s)
    ensures var r := PushAsWritten(q, nproc, value, s);
            var ins := InsertSorted(Entries(q, nproc), Entry(value, s));
            && Count(r, nproc) == |ins|
            && Entries(r, nproc)[m] == ins[m]
  {
    PushAsWrittenSlots(q, nproc, value, s, q.front + m);
    ScanIsFirstLarger(q, nproc, s);
    var e := Entries(q, nproc);
    var x := Entry(value, s);
    var i := ScanIndex(q.stride, q.front, q.tail, s);
    var r := PushAsWritten(q, nproc, value, s);
    assert Count(r, nproc) == |e| + 1;
    InsertSortedIndex(e, x);
    var er := Entries(r, nproc);
    assert SlotOf(r.front, m, nproc) == q.front + m;
    if q.front + m < i {
      assert er[m] == e[m];
    } else if q.front + m == i {
      assert er[m] == x;
    } else {
      assert SlotOf(q.front, m - 1, nproc) == q.front + m - 1;
      assert er[m] == e[m - 1];
    }
  }

  /** Under the no-wrap condition (front < tail, tail + 1 < nproc) and when the scan stops
      inside [front, tail] (some entry, or the stale slot at `tail`, has a larger stride),
      the as-written push performs exactly the ordered insertion. */
  lemma PushAsWrittenInserts(q: QueueState, nproc: int, value: int, s: u64)
    requires WellFormed(q, nproc) && !q.empty
    requires q.front < q.tail && q.tail + 1 < nproc
    requires ScanIndex(q.stride, q.front, q.tail, s) <= q.tail
    ensures PushAllowed(q, nproc, s)
    ensures Entries(PushAsWritten(q, nproc, value, s), nproc) == InsertSorted(Entries(q, nproc), Entry(value, s))
  {
    PushAsWrittenEntry(q, nproc, value, s, 0);
    var er := Entries(PushAsWritten(q, nproc, value, s), nproc);
    var ins := InsertSorted(Entries(q, nproc), Entry(value, s));
    forall m | 0 <= m < |ins| ensures er[m] == ins[m] {
      PushAsWrittenEntry(q, nproc, value, s, m);
    }
  }

  /** Sortedness is kept, and the count grows by one, under the same condition. */
  lemma PushAsWrittenKeepsSorted(q: QueueState, nproc: int, value: int, s: u64)
    requires WellFormed(q, nproc) && !q.empty
    requires q.front < q.tail && q.tail + 1 < nproc
    requires ScanIndex(q.stride, q.front, q.tail, s) <= q.tail
    requires Sorted(Entries(q, nproc))
    ensures PushAllowed(q, nproc, s)
    ensures var r := PushAsWritten(q, nproc, value, s);
      Sorted(Entries(r, nproc))
      && Count(r, nproc) == Count(q, nproc) + 1
      && multiset(Entries(r, nproc)) == multiset(Entries(q, nproc)) + multiset{Entry(value, s)}
  {
    PushAsWrittenInserts(q, nproc, value, s);
    InsertSortedSorted(Entries(q, nproc), Entry(value, s));
    InsertSortedMultiset(Entries(q, nproc), Entry(value, s));
    InsertSortedIndex(Entries(q, nproc), Entry(value, s));
  }

  /** Popping a non-empty queue returns the front entry's value and leaves the rest, in order. */
  lemma PopFront(q: QueueState, nproc: int)
    requires WellFormed(q, nproc) && !q.empty
    ensures var r := PopAsWritten(q, nproc);
      r.value == Entries(q, nproc)[0].value
      && Entries(r.q, nproc) == Entries(q, nproc)[1..]
  {
    var r := PopAsWritten(q, nproc);
    var c := Count(q, nproc);
    NextMod(q.front, nproc);
    assert SlotOf(q.front, 0, nproc) == q.front;
    assert Count(r.q, nproc) == c - 1;
    var e := Entries(q, nproc);
    var er := Entries(r.q, nproc);
    forall m | 0 <= m < c - 1 ensures er[m] == e[m + 1] {
      assert SlotOf(r.q.front, m, nproc) == SlotOf(q.front, m + 1, nproc);
    }
  }

  /** On a sorted queue, pop hands out an entry of minimum stride and the rest stays sorted. */
  lemma PopReturnsMinimum(q: QueueState, nproc: int)
    requires WellFormed(q, nproc) && !q.empty && Sorted(Entries(q, nproc))
    ensures var e := Entries(q, nproc);
      PopAsWritten(q, nproc).value == e[0].value
      && (forall m :: 0 <= m < |e| ==> e[0].stride <= e[m].stride)
      && Sorted(Entries(PopAsWritten(q, nproc).q, nproc))
  {
    PopFront(q, nproc);
    var e := Entries(q, nproc);
    forall m | 0 <= m < |e| ensures e[0].stride <= e[m].stride {
      if m > 0 { assert e[0].stride <= e[m].stride; }
    }
  }

  /** Pop on an empty queue returns -1 and changes nothing. */
  lemma PopEmpty(q: QueueState, nproc: int)
    requires WellFormed(q, nproc) && q.empty
    ensures PopAsWritten(q, nproc) == Popped(q, -1)
  {
  }

  /** The slot-level effect of the corrected push on the buffers: of the queue positions
      0..n counted from `front`, those before k keep their entry, position k holds x, and
      later positions hold their predecessor's entry. */
  ghost predicate RingShifted(d0: seq<int>, s0: seq<u64>, d1: seq<int>, s1: seq<u64>,
                              front: int, nproc: int, n: int, k: int, x: Entry)
    requires 0 <= front < nproc && 0 <= k && n < nproc
    requires |d0| >= nproc && |s0| >= nproc && |d1| >= nproc && |s1| >= nproc
  {
    forall m {:trigger d1[SlotOf(front, m, nproc)]} :: 0 <= m <= n ==>
      var sl := SlotOf(front, m, nproc);
      if m < k then d1[sl] == d0[sl] && s1[sl] == s0[sl]
      else if m == k then d1[sl] == x.value && s1[sl] == x.stride
      else d1[sl] == d0[SlotOf(front, m - 1, nproc)] && s1[sl] == s0[SlotOf(front, m - 1, nproc)]
  }

  /** The shift loop of the corrected push has moved the entries at queue positions
      j+1..n one position toward the tail (slots counted from `front`); the rest of
      positions 0..n are untouched. */
  ghost predicate Moved<T>(a0: seq<T>, a1: seq<T>, front: int, nproc: int, n: int, j: int)
    requires 0 <= front < nproc && 0 <= j && n < nproc && |a0| >= nproc && |a1| >= nproc
  {
    forall m {:trigger a1[SlotOf(front, m, nproc)]} :: 0 <= m <= n ==>
      a1[SlotOf(front, m, nproc)] == if m <= j then a0[SlotOf(front, m, nproc)] else a0[SlotOf(front, m - 1, nproc)]
  }

  /** One move of the shift loop: the entry at position j - 1 is copied to position j. */
  lemma MovedStep<T>(a0: seq<T>, a1: seq<T>, front: int, nproc: int, n: int, j: int)
    requires 0 <= front < nproc && 0 < j <= n < nproc && |a0| >= nproc && |a1| >= nproc
    requires Moved(a0, a1, front, nproc, n, j)
    ensures Moved(a0, a1[SlotOf(front, j, nproc) := a1[SlotOf(front, j - 1, nproc)]], front, nproc, n, j - 1)
  {
    SlotDistinct(front, j, nproc);
    var t := SlotOf(front, j, nproc);
    var b := a1[t := a1[SlotOf(front, j - 1, nproc)]];
    forall m | 0 <= m <= n
      ensures b[SlotOf(front, m, nproc)] == if m <= j - 1 then a0[SlotOf(front, m, nproc)] else a0[SlotOf(front, m - 1, nproc)]
    {
      assert a1[SlotOf(front, j - 1, nproc)] == a0[SlotOf(front, j - 1, nproc)];
      if m != j {
        assert SlotOf(front, m, nproc) != t;
        assert b[SlotOf(front, m, nproc)] == a1[SlotOf(front, m, nproc)];
      }
    }
  }

  /** After the shift stops at k, storing x at position k completes the insertion. */
  lemma MovedFinish(d0: seq<int>, s0: seq<u64>, d1: seq<int>, s1: seq<u64>, front: int, nproc: int, n: int, k: int, x: Entry)
    requires 0 <= front < nproc && 0 <= k <= n < nproc
    requires |d0| >= nproc && |s0| >= nproc && |d1| >= nproc && |s1| >= nproc
    requires Moved(d0, d1, front, nproc, n, k) && Moved(s0, s1, front, nproc, n, k)
    ensures RingShifted(d0, s0, d1[SlotOf(front, k, nproc) := x.value], s1[SlotOf(front, k, nproc) := x.stride],
                        front, nproc, n, k, x)
  {
    SlotDistinct(front, k, nproc);
    var t := SlotOf(front, k, nproc);
    var d2, s2 := d1[t := x.value], s1[t := x.stride];
    forall m | 0 <= m <= n
      ensures var sl := SlotOf(front, m, nproc);
        if m < k then d2[sl] == d0[sl] && s2[sl] == s0[sl]
        else if m == k then d2[sl] == x.value && s2[sl] == x.stride
        else d2[sl] == d0[SlotOf(front, m - 1, nproc)] && s2[sl] == s0[SlotOf(front, m - 1, nproc)]
    {
      if m != k {
        assert SlotOf(front, m, nproc) != t;
      }
    }
  }

  /** The slot-level effect of the corrected push, read through Entries: queue positions
      before k keep their entry, position k holds x, later positions hold their predecessor. */
  lemma RingInsert(q: QueueState, r: QueueState, nproc: int, k: nat, x: Entry)
    requires WellFormed(q, nproc) && WellFormed(r, nproc)
    requires r.front == q.front && Count(r, nproc) == Count(q, nproc) + 1
    requires k == FirstLarger(Entries(q, nproc), x.stride) && Count(q, nproc) < nproc
    requires RingShifted(q.data, q.stride, r.data, r.stride, q.front, nproc, Count(q, nproc), k, x)
    ensures Entries(r, nproc) == InsertSorted(Entries(q, nproc), x)
  {
    var e := Entries(q, nproc);
    var er := Entries(r, nproc);
    InsertSortedIndex(e, x);
    var ins := InsertSorted(e, x);
    forall m | 0 <= m < |er| ensures er[m] == ins[m] {
      var sl := SlotOf(q.front, m, nproc);
      assert er[m] == Entry(r.data[sl], r.stride[sl]);
      if m < k {
        assert e[m] == Entry(q.data[sl], q.stride[sl]);
        assert ins[m] == e[m];
        assert r.data[sl] == q.data[sl];
      } else if m == k {
        assert ins[m] == x;
        assert r.data[sl] == x.value;
      } else {
        assert ins[m] == e[m - 1];
        assert e[m - 1] == Entry(q.data[SlotOf(q.front, m - 1, nproc)], q.stride[SlotOf(q.front, m - 1, nproc)]);
      }
    }
  }

  // ---------------------------------------------------------------------
  // The two boundary defects of the as-written push, on concrete states.
  // ---------------------------------------------------------------------

  /** Entry (10, 5) at slot 0 with a stale stride 0 left in slot 1 (tail). Pushing (30, 7):
      the scan reads the stale slot, finds nothing larger, stops at tail + 1 = 2 and writes the
      new entry there, outside the occupied range [0, 2): the new entry is lost and the stale
      slot becomes an entry. */
  lemma StaleSlotLosesEntry()
    ensures var q := QueueState(seq(QUEUE_SIZE, _ => 0)[0 := 10][1 := 99],
                                seq(QUEUE_SIZE, _ => 0)[0 := 5], 0, 1, false);
      WellFormed(q, 4) && PushAllowed(q, 4, 7)
      && Entries(q, 4) == [Entry(10, 5)]
      && Entries(PushAsWritten(q, 4, 30, 7), 4) == [Entry(10, 5), Entry(99, 0)]
      && Entries(PushAsWritten(q, 4, 30, 7), 4) != InsertSorted(Entries(q, 4), Entry(30, 7))
  {
    var q := QueueState(seq(QUEUE_SIZE, _ => 0)[0 := 10][1 := 99], seq(QUEUE_SIZE, _ => 0)[0 := 5], 0, 1, false);
    assert ScanIndex(q.stride, 1, 1, 7) == 2;
    assert ScanIndex(q.stride, 0, 1, 7) == 2;
    var r := PushAsWritten(q, 4, 30, 7);
    assert r.tail == 2;
    assert Entries(q, 4)[0] == Entry(10, 5);
    var e := Entries(r, 4);
    assert e[0] == Entry(10, 5) && e[1] == Entry(99, 0);
    assert InsertSorted(Entries(q, 4), Entry(30, 7))[1] == Entry(30, 7);
  }

  /** Wrapped queue with nproc = 4, front = 2, tail = 0: entries (1, 3) in slot 2 and (2, 4)
      in slot 3. The scan `i <= tail` does not run when tail < front, so i = front, nothing is
      shifted and the push overwrites the front entry (1, 3). */
  lemma WrapOverwritesFront()
    ensures var q := QueueState(seq(QUEUE_SIZE, _ => 0)[2 := 1][3 := 2],
                                seq(QUEUE_SIZE, _ => 0)[2 := 3][3 := 4], 2, 0, false);
      WellFormed(q, 4) && PushAllowed(q, 4, 9)
      && Entries(q, 4) == [Entry(1, 3), Entry(2, 4)]
      && Entry(1, 3) !in Entries(PushAsWritten(q, 4, 7, 9), 4)
  {
    var q := QueueState(seq(QUEUE_SIZE, _ => 0)[2 := 1][3 := 2], seq(QUEUE_SIZE, _ => 0)[2 := 3][3 := 4], 2, 0, false);
    assert ScanIndex(q.stride, 2, 0, 9) == 2;
    var r := PushAsWritten(q, 4, 7, 9);
    assert r.tail == 1;
    var e := Entries(r, 4);
    assert |e| == 3;
    assert e[0] == Entry(7, 9) && e[1] == Entry(2, 4) && e[2] == Entry(0, 0);
    var e0 := Entries(q, 4);
    assert e0[0] == Entry(1, 3) && e0[1] == Entry(2, 4);
  }

  /** Queue with nproc = 4, front = 1 and tail = 3 = nproc - 1: entries (10, 5) in slot 1
      and (20, 8) in slot 2, with the stale pair (99, 0) in slot 3. Pushing (30, 6) stops the
      scan at slot 2; `tail` wraps to 0, so the shift `t > i` does not run, (20, 8) is
      overwritten and the stale slot 3 becomes an entry. */
  lemma TailWrapSkipsShift()
    ensures var q := QueueState(seq(QUEUE_SIZE, _ => 0)[1 := 10][2 := 20][3 := 99],
                                seq(QUEUE_SIZE, _ => 0)[1 := 5][2 := 8], 1, 3, false);
      WellFormed(q, 4) && PushAllowed(q, 4, 6)
      && Entries(q, 4) == [Entry(10, 5), Entry(20, 8)]
      && Entries(PushAsWritten(q, 4, 30, 6), 4) == [Entry(10, 5), Entry(30, 6), Entry(99, 0)]
      && Entries(PushAsWritten(q, 4, 30, 6), 4) != InsertSorted(Entries(q, 4), Entry(30, 6))
  {
    var q := QueueState(seq(QUEUE_SIZE, _ => 0)[1 := 10][2 := 20][3 := 99],
                        seq(QUEUE_SIZE, _ => 0)[1 := 5][2 := 8], 1, 3, false);
    assert ScanIndex(q.stride, 2, 3, 6) == 2;
    assert ScanIndex(q.stride, 1, 3, 6) == 2;
    var r := PushAsWritten(q, 4, 30, 6);
    assert r.tail == 0;
    var e0 := Entries(q, 4);
    assert e0[0] == Entry(10, 5) && e0[1] == Entry(20, 8);
    var e := Entries(r, 4);
    assert e[0] == Entry(10, 5) && e[1] == Entry(30, 6) && e[2] == Entry(99, 0);
    assert InsertSorted(e0, Entry(30, 6))[2] == Entry(20, 8);
  }

  // ---------------------------------------------------------------------
  // The queue object.
  // ---------------------------------------------------------------------

  class StrideQueue {
    const nproc: int
    var data: array<int>
    var stride: array<u64>
    var front: int
    var tail: int
    var empty: bool

    function State(): QueueState
      reads this, data, stride
    {
      QueueState(data[..], stride[..], front, tail, empty)
    }

    ghost predicate Valid()
      reads this, data, stride
    {
      WellFormed(State(), nproc)
    }

    /** The queue in its static storage (zeroed buffers), then `init_queue`. */
    constructor (n: int)
      requires 1 <= n <= QUEUE_SIZE
      ensures Valid() && fresh(data) && fresh(stride) && nproc == n
      ensures front == 0 && tail == 0 && empty && Entries(State(), nproc) == []
    {
      nproc := n;
      data := new int[QUEUE_SIZE](_ => 0);
      stride := new u64[QUEUE_SIZE](_ => 0);
      front, tail, empty := 0, 0, true;
      new;
      Init();
    }

    /** `init_queue`: front = tail = 0 and empty = 1; the buffers are left as they are. */
    method Init()
      requires 1 <= nproc <= QUEUE_SIZE && data.Length == QUEUE_SIZE && stride.Length == QUEUE_SIZE
      modifies this`front, this`tail, this`empty
      ensures Valid() && front == 0 && tail == 0 && empty
      ensures Entries(State(), nproc) == []
    {
      front := 0;
      tail := 0;
      empty := true;
    }

    /** The scan of push_queue: `for (i = front; i <= tail; ++i) if (stride < q->stride[i]) break;` */
    method Scan(s: u64) returns (i: int)
      requires Valid()
      ensures i == ScanIndex(stride[..], front, tail, s)
    {
      i := front;
      while i <= tail && !(s < stride[i])
        invariant front <= i <= if front <= tail then tail + 1 else front
        invariant ScanIndex(stride[..], i, tail, s) == ScanIndex(stride[..], front, tail, s)
        decreases tail + 1 - i
      {
        i := i + 1;
      }
    }

    /** The shift of push_queue: `for (t = to; t > from; --t) { data[t] = data[t - 1]; ... }`. */
    method ShiftUp(from: int, to: int)
      requires data.Length == QUEUE_SIZE && stride.Length == QUEUE_SIZE
      requires 0 <= from && to < QUEUE_SIZE
      modifies data, stride
      ensures data[..] == Shifted(old(data[..]), from, to)
      ensures stride[..] == Shifted(old(stride[..]), from, to)
    {
      var t := to;
      while t > from
        invariant (from <= t || t == to) && t <= to
        invariant forall k :: 0 <= k < QUEUE_SIZE ==> data[k] == if t < k <= to then old(data[k - 1]) else old(data[k])
        invariant forall k :: 0 <= k < QUEUE_SIZE ==> stride[k] == if t < k <= to then old(stride[k - 1]) else old(stride[k])
        decreases t
      {
        data[t] := data[t - 1];
        stride[t] := stride[t - 1];
        t := t - 1;
      }
    }

    /** `push_queue(q, value, s)` exactly as written, including its scan bound `i <= tail`. */
    method Push(value: int, s: u64)
      requires Valid() && PushAllowed(State(), nproc, s)
      modifies this`tail, this`empty, data, stride
      ensures Valid()
      ensures State() == PushAsWritten(old(State()), nproc, value, s)
    {
      if empty {
        empty := false;
        data[tail] := value;
        stride[tail] := s;
        tail := (tail + 1) % nproc;
        return;
      }
      var i := Scan(s);
      tail := (tail + 1) % nproc;
      // the source panics here when tail has caught up with front; PushAllowed excludes it
      ShiftUp(i, tail);
      data[i] := value;
      stride[i] := s;
    }

    /** `pop_queue(q)`. */
    method Pop() returns (value: int)
      requires Valid()
      modifies this`front, this`empty
      ensures Valid()
      ensures State() == PopAsWritten(old(State()), nproc).q
      ensures value == PopAsWritten(old(State()), nproc).value
    {
      if empty {
        return -1;
      }
      value := data[front];
      front := (front + 1) % nproc;
      if front == tail {
        empty := true;
      } else {
        empty := false;
      }
    }

    /** The scan of the corrected push: the first of the occupied entries, in queue order,
        whose stride exceeds `s`. */
    method FindInsertion(s: u64) returns (k: nat)
      requires Valid()
      ensures k == FirstLarger(Entries(State(), nproc), s)
    {
      ghost var e := Entries(State(), nproc);
      var n := if empty then 0 else if front < tail then tail - front else tail + nproc - front;
      k := 0;
      while k < n && !(s < stride[SlotOf(front, k, nproc)])
        invariant 0 <= k <= n
        invariant forall m :: 0 <= m < k ==> e[m].stride <= s
      {
        k := k + 1;
      }
      FirstLargerUnique(e, s, k);
    }

    /** The shift and store of the corrected push: the entries at queue positions k..n-1
        move one position toward the tail, wrapping at nproc, and (value, s) goes to position k. */
    method InsertAt(k: int, n: int, value: int, s: u64)
      requires Valid() && 0 <= k <= n && n < nproc
      modifies data, stride
      ensures RingShifted(old(data[..]), old(stride[..]), data[..], stride[..], front, nproc, n, k, Entry(value, s))
    {
      ghost var d0, s0 := data[..], stride[..];
      var j := n;
      while j > k
        invariant k <= j <= n
        invariant Moved(d0, data[..], front, nproc, n, j) && Moved(s0, stride[..], front, nproc, n, j)
      {
        var t, f := SlotOf(front, j, nproc), SlotOf(front, j - 1, nproc);
        MovedStep(d0, data[..], front, nproc, n, j);
        MovedStep(s0, stride[..], front, nproc, n, j);
        ghost var d1, s1 := data[..], stride[..];
        data[t] := data[f];
        stride[t] := stride[f];
        assert data[..] == d1[t := d1[f]] && stride[..] == s1[t := s1[f]];
        j := j - 1;
      }
      ghost var d1, s1 := data[..], stride[..];
      var t := SlotOf(front, k, nproc);
      data[t] := value;
      stride[t] := s;
      assert data[..] == d1[t := value] && stride[..] == s1[t := s];
      MovedFinish(d0, s0, d1, s1, front, nproc, n, k, Entry(value, s));
    }

    /** The corrected push: scan and shift cover exactly the occupied entries, in queue
        order, wrapping at nproc. Same fatal conditions as the source. */
    method PushFixed(value: int, s: u64)
      requires Valid()
      requires empty || Count(State(), nproc) + 1 < nproc
      modifies this`tail, this`empty, data, stride
      ensures Valid()
      ensures Entries(State(), nproc) == InsertSorted(old(Entries(State(), nproc)), Entry(value, s))
    {
      ghost var q := State();
      var n := if empty then 0 else if front < tail then tail - front else tail + nproc - front;
      assert n == Count(q, nproc);
      var k := FindInsertion(s);
      InsertAt(k, n, value, s);
      NextMod(tail, nproc);
      tail := (tail + 1) % nproc;
      empty := false;
      CountGrows(q, State(), nproc);
      RingInsert(q, State(), nproc, k, Entry(value, s));
    }
  }
}
