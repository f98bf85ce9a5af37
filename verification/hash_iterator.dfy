/**
  The stand-alone forward iterator over an array of bucket chains. It holds three
  pointers: the bucket it is scanning, the node it stands on, and the one-past-the-end
  bucket. A bucket pointer is an index into the array `b`, a node pointer is the pair
  (chain, position), and a null pointer is `None`.
 */
module HashIterators {
  import opened Outcomes
  import opened Buckets

  datatype HashIterator = HashIterator(
    currentBucket: Option<nat>,
    current: Option<(nat, nat)>,
    end: Option<nat>)

  /** The default constructor: every pointer null. */
  function Default(): (r: HashIterator)
    ensures r.current.None? && r.currentBucket.None? && r.end.None?
  {
    HashIterator(None, None, None)
  }

  /** The node pointer denotes a node of `b`. */
  predicate IsNode<T>(b: seq<seq<T>>, p: Option<(nat, nat)>)
  {
    p.Some? && p.value.0 < |b| && p.value.1 < |b[p.value.0]|
  }

  /** The current node has a successor in its own chain (`current_->next_`). */
  predicate HasNext<T>(b: seq<seq<T>>, it: HashIterator)
  {
    IsNode(b, it.current) && it.current.value.1 + 1 < |b[it.current.value.0]|
  }

  /** What `operator++` needs to be defined: a current node, and, when the chain ends
      there, a scan position strictly before an end that lies inside the array. */
  predicate CanAdvance<T>(b: seq<seq<T>>, it: HashIterator)
  {
    && IsNode(b, it.current)
    && (!HasNext(b, it) ==>
          it.currentBucket.Some? && it.end.Some? && it.currentBucket.value < it.end.value <= |b|)
  }

  /** `operator++`: the next node of the current chain when there is one; otherwise the
      bucket pointer moves past empty buckets, stopping at the end, and the iterator
      stands on the head found there or on null. */
  function Increment<T>(b: seq<seq<T>>, it: HashIterator): (r: HashIterator)
    requires CanAdvance(b, it)
    ensures r.end == it.end
    ensures r.current.Some? ==> IsNode(b, r.current)
    ensures HasNext(b, it) ==>
              (&& r.currentBucket == it.currentBucket
               && r.current == Some((it.current.value.0, it.current.value.1 + 1)))
    ensures !HasNext(b, it) ==>
              (&& r.currentBucket.Some?
               && it.currentBucket.value < r.currentBucket.value <= it.end.value
               && (r.current.None? <==> r.currentBucket == it.end)
               && (r.current.Some? ==> r.current.value == (r.currentBucket.value, 0)))
  {
    var (i, j) := it.current.value;
    if j + 1 < |b[i]| then it.(current := Some((i, j + 1)))
    else
      var k := NextNonEmpty(b, it.currentBucket.value + 1, it.end.value);
      if k == it.end.value then it.(currentBucket := Some(k), current := None)
      else it.(currentBucket := Some(k), current := Some((k, 0)))
  }

  /** The postfix `operator++`: advances and hands back the iterator as it was. */
  function PostIncrement<T>(b: seq<seq<T>>, it: HashIterator): (r: (HashIterator, HashIterator))
    requires CanAdvance(b, it)
    ensures r.1 == it && r.0 == Increment(b, it)
  {
    (Increment(b, it), it)
  }

  /** `operator*`: the data of the current node. */
  function Deref<T>(b: seq<seq<T>>, it: HashIterator): (r: T)
    requires IsNode(b, it.current)
    ensures r in Flatten(b)
    ensures Offset(b, it.current.value.0) + it.current.value.1 < |Flatten(b)|
    ensures r == Flatten(b)[Offset(b, it.current.value.0) + it.current.value.1]
  {
    var (i, j) := it.current.value;
    assert b[..|b|] == b;
    FlattenIndex(b, |b|, i, j);
    b[i][j]
  }

  /** `operator==` and `operator!=` compare only the node pointers. */
  predicate Equal(it: HashIterator, other: HashIterator)
    ensures Equal(it, other) ==> (it.current.None? <==> other.current.None?)
    ensures it.current.None? && other.current.None? ==> Equal(it, other)
  {
    it.current == other.current
  }

  predicate NotEqual(it: HashIterator, other: HashIterator)
    ensures NotEqual(it, other) <==> !Equal(it, other)
  {
    it.current != other.current
  }

  lemma EqualityIsNodeIdentity(it: HashIterator, other: HashIterator)
    ensures NotEqual(it, other) <==> !Equal(it, other)
    ensures Equal(it, other) == Equal(other, it)
    ensures it.current.None? && other.current.None? ==> Equal(it, other)
  {
  }

  /** An iterator whose bucket pointer is the chain of its node, or which sits on null
      at the end: the iterators a container hands out. */
  predicate Consistent<T>(b: seq<seq<T>>, it: HashIterator)
  {
    && it.end.Some? && it.end.value <= |b|
    && it.currentBucket.Some?
    && (if it.current.Some?
        then IsNode(b, it.current) && it.current.value.0 == it.currentBucket.value
             && it.currentBucket.value < it.end.value
        else it.currentBucket == it.end)
  }

  /** A consistent iterator advances exactly as the shared bucket traversal does, and
      stays consistent. */
  lemma IncrementIsStep<T>(b: seq<seq<T>>, it: HashIterator)
    requires Consistent(b, it) && it.current.Some?
    ensures CanAdvance(b, it)
    ensures Increment(b, it).current == Step(b, it.end.value, it.current.value.0, it.current.value.1)
    ensures Consistent(b, Increment(b, it))
  {
  }

  /** The iterator a container's `begin()` builds over the first `end` buckets. */
  function Start<T>(b: seq<seq<T>>, end: nat): (r: HashIterator)
    requires end <= |b|
    ensures Consistent(b, r)
    ensures r.current == First(b, end)
  {
    var f := First(b, end);
    if f.None? then HashIterator(Some(end), None, Some(end))
    else HashIterator(Some(f.value.0), f, Some(end))
  }

  /** Advancing from the start until the node pointer is null visits every node of the
      first `end` chains once, chains in order and each from its head. */
  method Traverse<T>(b: seq<seq<T>>, end: nat) returns (visited: seq<T>)
    requires end <= |b|
    ensures visited == Flatten(b[..end])
  {
    FirstHasRankZero(b, end);
    var it := Start(b, end);
    visited := [];
    while it.current.Some?
      invariant Consistent(b, it) && it.end == Some(end)
      invariant Rank(b, end, it.current) == |visited| <= |Flatten(b[..end])|
      invariant visited == Flatten(b[..end])[..|visited|]
      decreases |Flatten(b[..end])| - |visited|
    {
      var (i, j) := it.current.value;
      FlattenIndex(b, end, i, j);
      StepAdvancesRank(b, end, i, j);
      IncrementIsStep(b, it);
      visited := visited + [Deref(b, it)];
      it := Increment(b, it);
    }
  }
}
