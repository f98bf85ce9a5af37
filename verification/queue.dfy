/**
  The array ring-buffer queue: a fixed array of `size` cells, a head index (oldest
  element), a tail index (next free cell) and an empty flag that tells a full ring
  from an empty one when the two indices meet.

  A state with an empty array is the state a move leaves behind (`assignZero`).
 */
module RingQueue {
  import opened Outcomes

  datatype QueueArray<T> = QueueArray(cells: seq<T>, head: nat, tail: nat, isEmpty: bool)

  datatype QueueError = WrongQueueSize | QueueOverflow | QueueUnderflow

  const DefaultSize: nat := 100

  /** `RingIterator::showNext`: the index after `i` on a ring of `size` cells. */
  function NextIndex(i: nat, size: nat): (r: nat)
    requires size > 0
    ensures r < size
    ensures i < size - 1 ==> r == i + 1
    ensures i == size - 1 ==> r == 0
  {
    (i + 1) % size
  }

  /** The indices lie on the ring, and an empty queue has its indices together. */
  predicate Valid<T>(q: QueueArray<T>)
  {
    && |q.cells| > 0
    && q.head < |q.cells| && q.tail < |q.cells|
    && (q.isEmpty ==> q.head == q.tail)
  }

  /** Index `x` taken once round a ring of `n` cells. */
  function Wrap(x: nat, n: nat): (r: nat)
    requires x < 2 * n
    ensures r < n
  {
    if x < n then x else x - n
  }

  /** The cell `k` places after `head`. */
  function RingIndex(head: nat, k: nat, n: nat): (r: nat)
    requires head < n && k <= n
    ensures r < n
  {
    Wrap(head + k, n)
  }

  /** Number of queued elements: from head round to tail, all cells when the indices
      meet on a non-empty ring. */
  function Count<T>(q: QueueArray<T>): (r: nat)
    requires Valid(q)
    ensures r <= |q.cells|
    ensures r == 0 <==> q.isEmpty
    ensures q.tail == Wrap(q.head + r, |q.cells|)
  {
    if q.isEmpty then 0
    else if q.tail > q.head then q.tail - q.head
    else q.tail + |q.cells| - q.head
  }

  /** The queued elements, oldest first. */
  function Contents<T>(q: QueueArray<T>): (r: seq<T>)
    requires Valid(q)
    ensures |r| == Count(q)
  {
    seq(Count(q), k requires 0 <= k < Count(q) => q.cells[RingIndex(q.head, k, |q.cells|)])
  }

  /** The constructor: a zero size is refused; otherwise an empty ring over `size`
      default-constructed cells (`blank`). */
  function New<T>(size: nat, blank: T): (r: Result<QueueArray<T>, QueueError>)
    ensures r.Err? <==> size == 0
    ensures r.Err? ==> r.error == WrongQueueSize
    ensures r.Ok? ==> Valid(r.value) && Contents(r.value) == [] && |r.value.cells| == size
  {
    if size == 0 then Err(WrongQueueSize)
    else Ok(QueueArray(seq(size, _ => blank), 0, 0, true))
  }

  /** The default constructor: an empty ring of `DefaultSize` cells. */
  function NewDefault<T>(blank: T): (r: QueueArray<T>)
    ensures Valid(r) && Contents(r) == [] && |r.cells| == DefaultSize
  {
    New(DefaultSize, blank).value
  }

  /** The move constructor: the new queue takes the ring and the source is reset to no
      cells, both indices 0 and the empty flag set, a state only the copy constructor
      accepts. */
  function Move<T>(other: QueueArray<T>): (r: (QueueArray<T>, QueueArray<T>))
    ensures r.0 == other
    ensures |r.1.cells| == 0 && r.1.head == 0 && r.1.tail == 0 && r.1.isEmpty
    ensures !Valid(r.1)
  {
    (other, QueueArray([], 0, 0, true))
  }

  /** `isEmpty`: the flag, which is set exactly when nothing is queued. */
  function IsEmpty<T>(q: QueueArray<T>): (r: bool)
    requires Valid(q)
    ensures r <==> Contents(q) == []
  {
    q.isEmpty
  }

  /** `enQueue`: refused when the indices meet on a non-empty ring; otherwise the
      element goes into the tail cell and the tail moves on. */
  function EnQueue<T>(q: QueueArray<T>, x: T): (r: Result<QueueArray<T>, QueueError>)
    requires Valid(q)
    ensures r.Err? ==> r.error == QueueOverflow
    ensures r.Ok? ==> Valid(r.value) && |r.value.cells| == |q.cells|
  {
    if q.head == q.tail && !q.isEmpty then Err(QueueOverflow)
    else Ok(QueueArray(q.cells[q.tail := x], q.head, NextIndex(q.tail, |q.cells|), false))
  }

  /** `deQueue`: refused on an empty queue; otherwise the head cell's element, with the
      head moved on and the flag set if it has caught up with the tail. */
  function DeQueue<T>(q: QueueArray<T>): (r: Result<(T, QueueArray<T>), QueueError>)
    requires Valid(q)
    ensures r.Err? ==> r.error == QueueUnderflow
    ensures r.Ok? ==> Valid(r.value.1) && |r.value.1.cells| == |q.cells|
  {
    if q.isEmpty then Err(QueueUnderflow)
    else
      var head := NextIndex(q.head, |q.cells|);
      Ok((q.cells[q.head], QueueArray(q.cells, head, q.tail, head == q.tail)))
  }

  /** Exactly `size` elements fit: `enQueue` is refused precisely on a full ring, and
      otherwise appends its element behind the queued ones. */
  lemma EnQueueCorrect<T>(q: QueueArray<T>, x: T)
    requires Valid(q)
    ensures EnQueue(q, x).Err? <==> Count(q) == |q.cells|
    ensures EnQueue(q, x).Ok? ==> Contents(EnQueue(q, x).value) == Contents(q) + [x]
  {
    var n, c := |q.cells|, Count(q);
    if c < n {
      var q' := EnQueue(q, x).value;
      assert Count(q') == c + 1;
      forall k | 0 <= k < c + 1
        ensures Contents(q')[k] == (Contents(q) + [x])[k]
      {
        if k < c {
          assert RingIndex(q.head, k, n) != q.tail;
        }
      }
    }
  }

  /** FIFO: `deQueue` is refused exactly on an empty queue and otherwise yields the
      oldest queued element and leaves the rest in order. */
  lemma DeQueueCorrect<T>(q: QueueArray<T>)
    requires Valid(q)
    ensures DeQueue(q).Err? <==> Contents(q) == []
    ensures DeQueue(q).Ok? ==> Contents(q) != [] && DeQueue(q).value.0 == Contents(q)[0]
    ensures DeQueue(q).Ok? ==> Contents(DeQueue(q).value.1) == Contents(q)[1..]
  {
    var n, c := |q.cells|, Count(q);
    if c > 0 {
      var q' := DeQueue(q).value.1;
      assert Count(q') == c - 1;
      forall k | 0 <= k < c - 1
        ensures Contents(q')[k] == Contents(q)[k + 1]
      {
        assert RingIndex(q'.head, k, n) == RingIndex(q.head, k + 1, n);
      }
    }
  }

  /** Filling a queue of size `n` accepts exactly `n` elements. */
  lemma ExactlySizeFit<T>(q: QueueArray<T>, x: T)
    requires Valid(q) && Count(q) == |q.cells|
    ensures EnQueue(q, x) == Err(QueueOverflow)
  {
    EnQueueCorrect(q, x);
  }

  /** The copy constructor: a moved-from source (no cells) is refused by the constructor
      it delegates to; otherwise a fresh array receives the cells from head round to the
      one before tail, and the indices and flag are copied. */
  method Copy<T>(other: QueueArray<T>, blank: T) returns (r: Result<QueueArray<T>, QueueError>)
    requires |other.cells| > 0 ==> Valid(other)
    ensures r.Err? <==> |other.cells| == 0
    ensures r.Ok? ==> Valid(r.value) && Contents(r.value) == Contents(other)
    ensures r.Ok? ==> |r.value.cells| == |other.cells|
  {
    var n := |other.cells|;
    if n == 0 {
      return Err(WrongQueueSize);
    }
    var cells := seq(n, _ => blank);
    var count := Count(other);
    if !other.isEmpty {
      var i := other.head;
      var k := 0;
      while true
        invariant 0 <= k < count && i == RingIndex(other.head, k, n) && |cells| == n
        invariant forall m :: 0 <= m < k ==> cells[RingIndex(other.head, m, n)] == other.cells[RingIndex(other.head, m, n)]
        decreases count - k
      {
        cells := cells[i := other.cells[i]];
        if NextIndex(i, n) == other.tail {
          break;
        }
        i := NextIndex(i, n);
        k := k + 1;
      }
    }
    var q := QueueArray(cells, other.head, other.tail, other.isEmpty);
    assert Count(q) == count;
    r := Ok(q);
  }
}
