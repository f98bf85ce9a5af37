/**
  A bucket array of singly linked chains, as both the chaining map and the
  stand-alone bucket iterator see it: chain `i` is `b[i]`, its head is `b[i][0]`, and a
  node's successor in its chain is the next element of the sequence.

  Iteration visits the chains in bucket order and each chain from its head, so the
  order of a full traversal is `Flatten(b)`.
 */
module Buckets {
  import opened Outcomes

  function Flatten<T>(b: seq<seq<T>>): seq<T>
  {
    if |b| == 0 then [] else Flatten(b[..|b| - 1]) + b[|b| - 1]
  }

  /** Position in traversal order of the head of chain `i`. */
  function Offset<T>(b: seq<seq<T>>, i: nat): nat
    requires i <= |b|
  {
    |Flatten(b[..i])|
  }

  lemma {:induction false} FlattenConcat<T>(a: seq<seq<T>>, c: seq<seq<T>>)
    ensures Flatten(a + c) == Flatten(a) + Flatten(c)
    decreases |c|
  {
    if |c| == 0 {
      assert a + c == a;
    } else {
      var c' := c[..|c| - 1];
      assert (a + c)[..|a + c| - 1] == a + c';
      FlattenConcat(a, c');
    }
  }

  lemma FlattenStep<T>(b: seq<seq<T>>, i: nat)
    requires i < |b|
    ensures Flatten(b[..i + 1]) == Flatten(b[..i]) + b[i]
  {
    assert b[..i + 1][..i] == b[..i];
  }

  /** The node at position `j` of chain `i` sits at `Offset(b, i) + j` in traversal order. */
  lemma FlattenIndex<T>(b: seq<seq<T>>, end: nat, i: nat, j: nat)
    requires end <= |b| && i < end && j < |b[i]|
    ensures Offset(b, i) + j < |Flatten(b[..end])|
    ensures Flatten(b[..end])[Offset(b, i) + j] == b[i][j]
  {
    FlattenStep(b, i);
    assert b[..end] == b[..i + 1] + b[i + 1..end];
    FlattenConcat(b[..i + 1], b[i + 1..end]);
  }

  /** Empty chains contribute nothing to the traversal. */
  /** Every node of the array is an element of its traversal. */
  lemma NodeInFlatten<T>(b: seq<seq<T>>, i: nat, j: nat)
    requires i < |b| && j < |b[i]|
    ensures b[i][j] in Flatten(b)
  {
    assert b[..|b|] == b;
    FlattenIndex(b, |b|, i, j);
  }

  lemma {:induction false} SkipEmpty<T>(b: seq<seq<T>>, lo: nat, hi: nat)
    requires lo <= hi <= |b|
    requires forall k :: lo <= k < hi ==> |b[k]| == 0
    ensures Flatten(b[..hi]) == Flatten(b[..lo])
    decreases hi
  {
    if lo < hi {
      SkipEmpty(b, lo, hi - 1);
      FlattenStep(b, hi - 1);
    }
  }

  /** The first non-empty chain at or after `from` and before `end`, or `end` itself. */
  function NextNonEmpty<T>(b: seq<seq<T>>, from: nat, end: nat): (r: nat)
    requires from <= end <= |b|
    ensures from <= r <= end
    ensures r < end ==> |b[r]| > 0
    ensures forall k :: from <= k < r ==> |b[k]| == 0
    decreases end - from
  {
    if from == end then end
    else if |b[from]| > 0 then from
    else NextNonEmpty(b, from + 1, end)
  }

  /** One step of a bucket iterator standing on node `j` of chain `i`: the chain
      successor when there is one, otherwise the head of the next non-empty chain
      before `end`; `None` once the scan reaches `end`. */
  function Step<T>(b: seq<seq<T>>, end: nat, i: nat, j: nat): (r: Option<(nat, nat)>)
    requires end <= |b| && i < end && j < |b[i]|
    ensures r.Some? ==> r.value.0 < end && r.value.1 < |b[r.value.0]|
  {
    if j + 1 < |b[i]| then Some((i, j + 1))
    else
      var k := NextNonEmpty(b, i + 1, end);
      if k == end then None else Some((k, 0))
  }

  /** The first node of a traversal, `None` when every chain before `end` is empty. */
  function First<T>(b: seq<seq<T>>, end: nat): (r: Option<(nat, nat)>)
    requires end <= |b|
    ensures r.Some? ==> r.value.0 < end && r.value.1 < |b[r.value.0]|
  {
    var k := NextNonEmpty(b, 0, end);
    if k == end then None else Some((k, 0))
  }

  /** Traversal position of a node, with `None` (past the end) after the last one. */
  function Rank<T>(b: seq<seq<T>>, end: nat, p: Option<(nat, nat)>): nat
    requires end <= |b|
    requires p.Some? ==> p.value.0 < end
  {
    match p
    case None => |Flatten(b[..end])|
    case Some((i, j)) => Offset(b, i) + j
  }

  /** The first node has rank 0. */
  lemma FirstHasRankZero<T>(b: seq<seq<T>>, end: nat)
    requires end <= |b|
    ensures Rank(b, end, First(b, end)) == 0
  {
    var k := NextNonEmpty(b, 0, end);
    SkipEmpty(b, 0, k);
  }

  /** Each step moves exactly one place forward in traversal order, so a walk from
      `First` visits every node exactly once and then reaches the end. */
  lemma StepAdvancesRank<T>(b: seq<seq<T>>, end: nat, i: nat, j: nat)
    requires end <= |b| && i < end && j < |b[i]|
    ensures Rank(b, end, Step(b, end, i, j)) == Offset(b, i) + j + 1
  {
    FlattenStep(b, i);
    if j + 1 >= |b[i]| {
      var k := NextNonEmpty(b, i + 1, end);
      SkipEmpty(b, i + 1, k);
    }
  }

  lemma FlattenSingle<T>(c: seq<T>)
    ensures Flatten([c]) == c
  {
    assert [c][..0] == [];
  }

  /** Replacing one chain changes the traversal's contents by exactly that chain. */
  lemma FlattenUpdate<T>(b: seq<seq<T>>, x: nat, c: seq<T>)
    requires x < |b|
    ensures multiset(Flatten(b[x := c])) == multiset(Flatten(b)) - multiset(b[x]) + multiset(c)
    ensures |Flatten(b[x := c])| + |b[x]| == |Flatten(b)| + |c|
    ensures multiset(b[x]) <= multiset(Flatten(b))
  {
    var pre, post := b[..x], b[x + 1..];
    assert b == pre + [b[x]] + post;
    assert b[x := c] == pre + [c] + post;
    FlattenConcat(pre + [b[x]], post);
    FlattenConcat(pre, [b[x]]);
    FlattenConcat(pre + [c], post);
    FlattenConcat(pre, [c]);
    FlattenSingle(b[x]);
    FlattenSingle(c);
  }

  /** Prepending a node to one chain adds exactly that node to the traversal. */
  lemma FlattenPrepend<T>(b: seq<seq<T>>, x: nat, e: T)
    requires x < |b|
    ensures multiset(Flatten(b[x := [e] + b[x]])) == multiset(Flatten(b)) + multiset{e}
    ensures |Flatten(b[x := [e] + b[x]])| == |Flatten(b)| + 1
  {
    assert multiset([e] + b[x]) == multiset(b[x]) + multiset{e};
    FlattenUpdate(b, x, [e] + b[x]);
    SwapIn(multiset(Flatten(b)), multiset(b[x]), e);
  }

  /** Unlinking node `j` of one chain removes exactly that node from the traversal. */
  lemma FlattenUnlink<T>(b: seq<seq<T>>, x: nat, j: nat)
    requires x < |b| && j < |b[x]|
    ensures b[x][j] in multiset(Flatten(b))
    ensures multiset(Flatten(b[x := b[x][..j] + b[x][j + 1..]])) == multiset(Flatten(b)) - multiset{b[x][j]}
    ensures |Flatten(b[x := b[x][..j] + b[x][j + 1..]])| + 1 == |Flatten(b)|
  {
    var c := b[x][..j] + b[x][j + 1..];
    assert multiset(b[x]) == multiset(c) + multiset{b[x][j]} by {
      assert b[x] == b[x][..j] + [b[x][j]] + b[x][j + 1..];
    }
    FlattenUpdate(b, x, c);
    SwapOut(multiset(Flatten(b)), multiset(b[x]), multiset(c), b[x][j]);
  }

  /** Taking out a part and putting it back with `e` adds `e` alone. */
  lemma SwapIn<T>(whole: multiset<T>, part: multiset<T>, e: T)
    requires part <= whole
    ensures whole - part + (part + multiset{e}) == whole + multiset{e}
  {
  }

  /** Taking out a part and putting back all of it but `e` takes out `e` alone. */
  lemma SwapOut<T>(whole: multiset<T>, part: multiset<T>, kept: multiset<T>, e: T)
    requires part == kept + multiset{e} && part <= whole
    ensures e in whole
    ensures whole - part + kept == whole - multiset{e}
  {
    assert e in part;
  }

  /** Every node of the traversal is a node of some chain. */
  lemma {:induction false} FlattenMember<T>(b: seq<seq<T>>, e: T) returns (i: nat, j: nat)
    requires e in Flatten(b)
    ensures i < |b| && j < |b[i]| && b[i][j] == e
    decreases |b|
  {
    var n := |b| - 1;
    if e in Flatten(b[..n]) {
      i, j := FlattenMember(b[..n], e);
    } else {
      i := n;
      j :| 0 <= j < |b[n]| && b[n][j] == e;
    }
  }
}
