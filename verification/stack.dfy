/**
  The linked-list stack. The chain of nodes from the head is the sequence `items`, so
  `items[0]` is the top.
 */
module Stacks {
  import opened Outcomes

  datatype StackList<T> = StackList(items: seq<T>)

  datatype StackError = StackUnderflow

  /** The default constructor: a null head. */
  function Empty<T>(): (r: StackList<T>)
    ensures IsEmpty(r)
  {
    StackList([])
  }

  /** `isEmpty`: the head is null. */
  predicate IsEmpty<T>(s: StackList<T>)
    ensures IsEmpty(s) <==> Pop(s).Err?
  {
    s.items == []
  }

  /** `push`: a new head node in front of the old chain. */
  function Push<T>(s: StackList<T>, x: T): (r: StackList<T>)
    ensures !IsEmpty(r) && |r.items| == |s.items| + 1
  {
    StackList([x] + s.items)
  }

  /** `pop`: refused on an empty stack; otherwise the head's data, with the head moved
      to the next node. */
  function Pop<T>(s: StackList<T>): (r: Result<(T, StackList<T>), StackError>)
    ensures r.Err? <==> s.items == []
    ensures r.Ok? ==> |r.value.1.items| + 1 == |s.items|
  {
    if s.items == [] then Err(StackUnderflow)
    else Ok((s.items[0], StackList(s.items[1..])))
  }

  /** Popping right after pushing `x` gives back `x` and the stack as it was. */
  lemma PushPop<T>(s: StackList<T>, x: T)
    ensures Pop(Push(s, x)) == Ok((x, s))
  {
    assert ([x] + s.items)[1..] == s.items;
  }

  /** Pushing the popped value back restores the stack. */
  lemma PopPush<T>(s: StackList<T>)
    requires !IsEmpty(s)
    ensures Push(Pop(s).value.1, Pop(s).value.0) == s
  {
    assert [s.items[0]] + s.items[1..] == s.items;
  }

  /** Elements leave in the reverse of the order they were pushed. */
  function PushAll<T>(s: StackList<T>, xs: seq<T>): (r: StackList<T>)
    decreases |xs|
  {
    if |xs| == 0 then s else PushAll(Push(s, xs[0]), xs[1..])
  }

  function Reverse<T>(xs: seq<T>): (r: seq<T>)
    ensures |r| == |xs|
    ensures forall i :: 0 <= i < |xs| ==> r[i] == xs[|xs| - 1 - i]
  {
    if |xs| == 0 then [] else Reverse(xs[1..]) + [xs[0]]
  }

  lemma {:induction false} PushAllIsLifo<T>(s: StackList<T>, xs: seq<T>)
    ensures PushAll(s, xs).items == Reverse(xs) + s.items
    decreases |xs|
  {
    if |xs| > 0 {
      var s' := Push(s, xs[0]);
      PushAllIsLifo(s', xs[1..]);
      assert PushAll(s, xs) == PushAll(s', xs[1..]);
      assert Reverse(xs) == Reverse(xs[1..]) + [xs[0]];
      assert s'.items == [xs[0]] + s.items;
      assert Reverse(xs[1..]) + s'.items == Reverse(xs) + s.items;
    }
  }

  /** `clear`: pops until the head is null. */
  method Clear<T>(s: StackList<T>) returns (r: StackList<T>)
    ensures IsEmpty(r)
  {
    r := s;
    while !IsEmpty(r)
      decreases |r.items|
    {
      var p := Pop(r);
      r := p.value.1;
    }
  }

  /** The copy constructor: walks the source chain from the head and appends a copy of
      each node at the tail of the new chain. */
  method Copy<T>(other: StackList<T>) returns (r: StackList<T>)
    ensures r == other
  {
    var copied: seq<T> := [];
    var k := 0;
    while k < |other.items|
      invariant k <= |other.items|
      invariant copied == other.items[..k]
    {
      copied := copied + [other.items[k]];
      k := k + 1;
    }
    assert other.items[..k] == other.items;
    r := StackList(copied);
  }

  /** The move constructor: the new stack takes the chain and the source is left with a
      null head. */
  function Move<T>(other: StackList<T>): (r: (StackList<T>, StackList<T>))
    ensures r.0.items == other.items && IsEmpty(r.1)
  {
    (other, StackList([]))
  }
}
