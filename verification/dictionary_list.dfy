/**
  The dictionary list: a doubly linked list kept in strictly increasing order. The
  chain from `head_` is the sequence `s`; `tail_` is its last element, so both ends are
  implicit and always right.
 */
module Dictionary {

  predicate Sorted(s: seq<int>)
  {
    forall i, j :: 0 <= i < j < |s| ==> s[i] < s[j]
  }

  /** `SearchFirstNotLessItem`: the walk from the head past every smaller element; `|s|`
      stands for the null it returns when there is none. */
  function FirstNotLess(s: seq<int>, x: int, from: nat): (r: nat)
    requires from <= |s|
    ensures from <= r <= |s|
    ensures forall k :: from <= k < r ==> s[k] < x
    ensures r < |s| ==> s[r] >= x
    decreases |s| - from
  {
    if from == |s| || s[from] >= x then from else FirstNotLess(s, x, from + 1)
  }

  /** In a sorted list the walk stops at the only place `x` can be. */
  lemma FirstNotLessSplits(s: seq<int>, x: int)
    requires Sorted(s)
    ensures var p := FirstNotLess(s, x, 0);
      (forall k :: 0 <= k < p ==> s[k] < x) && (forall k :: p <= k < |s| ==> s[k] >= x)
    ensures x in s <==> FirstNotLess(s, x, 0) < |s| && s[FirstNotLess(s, x, 0)] == x
  {
    var p := FirstNotLess(s, x, 0);
    assert forall k :: p < k < |s| ==> s[p] < s[k];
    if x in s {
      var k :| 0 <= k < |s| && s[k] == x;
    }
  }

  /** `insertItem`: a new value goes before the first element not less than it (at the
      back when there is none); an equal element refuses it. */
  function InsertItem(s: seq<int>, x: int): (r: (seq<int>, bool))
    ensures !r.1 ==> r.0 == s
  {
    var p := FirstNotLess(s, x, 0);
    if p == |s| then (s + [x], true)
    else if x < s[p] then (s[..p] + [x] + s[p..], true)
    else (s, false)
  }

  lemma InsertItemCorrect(s: seq<int>, x: int)
    requires Sorted(s)
    ensures var (s', inserted) := InsertItem(s, x);
      && Sorted(s')
      && (inserted <==> x !in s)
      && (forall y :: y in s' <==> y in s || y == x)
      && (inserted ==> |s'| == |s| + 1)
  {
    FirstNotLessSplits(s, x);
    var p := FirstNotLess(s, x, 0);
    if p == |s| {
      InsertAt(s, p, x);
      assert s[..p] + [x] + s[p..] == s + [x];
    } else if x < s[p] {
      InsertAt(s, p, x);
    }
  }

  /** Putting `x` between the smaller and the larger elements keeps the list sorted and
      adds exactly `x`. */
  lemma InsertAt(s: seq<int>, p: nat, x: int)
    requires Sorted(s) && p <= |s|
    requires forall k :: 0 <= k < p ==> s[k] < x
    requires forall k :: p <= k < |s| ==> x < s[k]
    ensures Sorted(s[..p] + [x] + s[p..])
    ensures forall y :: y in s[..p] + [x] + s[p..] <==> y in s || y == x
  {
    var s' := s[..p] + [x] + s[p..];
    forall k, m | 0 <= k < m < |s'| ensures s'[k] < s'[m] {
      if m < p {
        assert s'[k] == s[k] && s'[m] == s[m];
      } else if m == p {
        assert s'[k] == s[k];
      } else if k < p {
        assert s'[k] == s[k] && s'[m] == s[m - 1];
      } else if k == p {
        assert s'[m] == s[m - 1];
      } else {
        assert s'[k] == s[k - 1] && s'[m] == s[m - 1];
      }
    }
    assert s == s[..p] + s[p..];
  }

  /** Unlinking the element at `p` keeps the list sorted and drops exactly its value. */
  lemma RemoveAt(s: seq<int>, p: nat)
    requires Sorted(s) && p < |s|
    ensures Sorted(s[..p] + s[p + 1..])
    ensures forall y :: y in s[..p] + s[p + 1..] <==> y in s && y != s[p]
  {
    var s' := s[..p] + s[p + 1..];
    assert forall k :: 0 <= k < |s'| ==> s'[k] == (if k < p then s[k] else s[k + 1]);
    assert s == s[..p] + [s[p]] + s[p + 1..];
    forall y | y in s' ensures y != s[p] {
      var k :| 0 <= k < |s'| && s'[k] == y;
    }
  }

  /** `searchItem`: the first element not less than `x` is `x`. */
  function SearchItem(s: seq<int>, x: int): (r: bool)
    ensures r ==> x in s
  {
    var p := FirstNotLess(s, x, 0);
    p < |s| && s[p] == x
  }

  lemma SearchItemCorrect(s: seq<int>, x: int)
    requires Sorted(s)
    ensures SearchItem(s, x) <==> x in s
  {
    FirstNotLessSplits(s, x);
  }

  /** `deleteItem`: unlinks the first element not less than `x` when it equals `x`. */
  function DeleteItem(s: seq<int>, x: int): (r: (seq<int>, bool))
    ensures !r.1 ==> r.0 == s
    ensures r.1 ==> |r.0| + 1 == |s|
  {
    var p := FirstNotLess(s, x, 0);
    if p == |s| || s[p] != x then (s, false)
    else (s[..p] + s[p + 1..], true)
  }

  lemma DeleteItemCorrect(s: seq<int>, x: int)
    requires Sorted(s)
    ensures var (s', deleted) := DeleteItem(s, x);
      && Sorted(s')
      && (deleted <==> x in s)
      && (forall y :: y in s' <==> y in s && y != x)
  {
    FirstNotLessSplits(s, x);
    var p := FirstNotLess(s, x, 0);
    if p < |s| && s[p] == x {
      RemoveAt(s, p);
    }
  }

  /** `getIntersection`: both lists are walked together; an equal pair is copied to the
      result and both advance, otherwise the smaller side advances. */
  method Intersection(a: seq<int>, b: seq<int>) returns (r: seq<int>)
    requires Sorted(a) && Sorted(b)
    ensures Sorted(r)
    ensures forall x :: x in r <==> x in a && x in b
  {
    r := [];
    var i, j := 0, 0;
    while i < |a| && j < |b|
      invariant i <= |a| && j <= |b|
      invariant j < |b| ==> forall k :: 0 <= k < i ==> a[k] < b[j]
      invariant i < |a| ==> forall k :: 0 <= k < j ==> b[k] < a[i]
      invariant forall x :: x in r <==> x in a[..i] && x in b[..j]
      invariant Sorted(r)
      invariant i < |a| ==> forall k :: 0 <= k < |r| ==> r[k] < a[i]
      decreases |a| - i + |b| - j
    {
      assert a[..i + 1] == a[..i] + [a[i]];
      assert b[..j + 1] == b[..j] + [b[j]];
      if a[i] == b[j] {
        r := r + [a[i]];
        i, j := i + 1, j + 1;
      } else if a[i] > b[j] {
        j := j + 1;
      } else {
        i := i + 1;
      }
    }
    IntersectTail(a, b, r, i, j);
  }

  /** Once either walk is over, no common value is left unseen. */
  lemma IntersectTail(a: seq<int>, b: seq<int>, r: seq<int>, i: nat, j: nat)
    requires Sorted(a) && Sorted(b) && i <= |a| && j <= |b| && (i == |a| || j == |b|)
    requires j < |b| ==> forall k :: 0 <= k < i ==> a[k] < b[j]
    requires i < |a| ==> forall k :: 0 <= k < j ==> b[k] < a[i]
    requires forall x :: x in r <==> x in a[..i] && x in b[..j]
    ensures forall x :: x in r <==> x in a && x in b
  {
    assert a == a[..|a|] && b == b[..|b|];
    forall x | x in a && x in b
      ensures x in a[..i] && x in b[..j]
    {
      var k :| 0 <= k < |a| && a[k] == x;
      var m :| 0 <= m < |b| && b[m] == x;
      if i == |a| {
        if j < |b| {
          assert a[k] < b[j];
        }
      } else {
        assert b[m] < a[i];
      }
    }
  }

  /** `merge`: walks this list and `other` together, linking each smaller element of
      `other` in before the current node and skipping equal ones, then appends what is
      left of `other`. `other` is only read. */
  method Merge(a: seq<int>, b: seq<int>) returns (r: seq<int>)
    requires Sorted(a) && Sorted(b)
    ensures Sorted(r)
    ensures forall x :: x in r <==> x in a || x in b
  {
    var done: seq<int> := [];
    var i, j := 0, 0;
    while i < |a| && j < |b|
      invariant i <= |a| && j <= |b|
      invariant j < |b| ==> forall k :: 0 <= k < i ==> a[k] < b[j]
      invariant i < |a| ==> forall k :: 0 <= k < j ==> b[k] < a[i]
      invariant forall x :: x in done <==> x in a[..i] || x in b[..j]
      invariant Sorted(done)
      invariant i < |a| ==> forall k :: 0 <= k < |done| ==> done[k] < a[i]
      invariant j < |b| ==> forall k :: 0 <= k < |done| ==> done[k] < b[j]
      decreases |a| - i + |b| - j
    {
      assert a[..i + 1] == a[..i] + [a[i]];
      assert b[..j + 1] == b[..j] + [b[j]];
      if a[i] > b[j] {
        done := done + [b[j]];
        j := j + 1;
      } else if a[i] == b[j] {
        done := done + [a[i]];
        i, j := i + 1, j + 1;
      } else {
        done := done + [a[i]];
        i := i + 1;
      }
    }
    r := done + a[i..] + b[j..];
    MergeTail(a, b, done, i, j);
  }

  /** Once either walk is over, what is left of the other list follows the merged
      prefix. */
  lemma MergeTail(a: seq<int>, b: seq<int>, done: seq<int>, i: nat, j: nat)
    requires Sorted(a) && Sorted(b) && i <= |a| && j <= |b| && (i == |a| || j == |b|)
    requires forall x :: x in done <==> x in a[..i] || x in b[..j]
    requires Sorted(done)
    requires i < |a| ==> forall k :: 0 <= k < |done| ==> done[k] < a[i]
    requires j < |b| ==> forall k :: 0 <= k < |done| ==> done[k] < b[j]
    ensures Sorted(done + a[i..] + b[j..])
    ensures forall x :: x in done + a[i..] + b[j..] <==> x in a || x in b
  {
    assert a == a[..i] + a[i..] && b == b[..j] + b[j..];
    if i == |a| {
      assert done + a[i..] + b[j..] == done + b[j..];
      SortedJoin(done, b[j..]);
    } else {
      assert done + a[i..] + b[j..] == done + a[i..];
      SortedJoin(done, a[i..]);
    }
  }

  lemma SortedJoin(p: seq<int>, q: seq<int>)
    requires Sorted(p) && Sorted(q)
    requires forall k, m :: 0 <= k < |p| && 0 <= m < |q| ==> p[k] < q[m]
    ensures Sorted(p + q)
  {
  }

  /** `deleteItems`: walks this list and `other` together and unlinks every node whose
      value `other` also holds. */
  method DeleteItems(a: seq<int>, b: seq<int>) returns (r: seq<int>)
    requires Sorted(a) && Sorted(b)
    ensures Sorted(r)
    ensures forall x :: x in r <==> x in a && x !in b
  {
    var done: seq<int> := [];
    var i, j := 0, 0;
    while i < |a| && j < |b|
      invariant i <= |a| && j <= |b|
      invariant j < |b| ==> forall k :: 0 <= k < i ==> a[k] < b[j]
      invariant i < |a| ==> forall k :: 0 <= k < j ==> b[k] < a[i]
      invariant forall x :: x in done <==> x in a[..i] && x !in b[..j]
      invariant Sorted(done)
      invariant i < |a| ==> forall k :: 0 <= k < |done| ==> done[k] < a[i]
      decreases |a| - i + |b| - j
    {
      assert a[..i + 1] == a[..i] + [a[i]];
      assert b[..j + 1] == b[..j] + [b[j]];
      if a[i] == b[j] {
        i, j := i + 1, j + 1;
      } else if a[i] > b[j] {
        j := j + 1;
      } else {
        done := done + [a[i]];
        i := i + 1;
      }
    }
    r := done + a[i..];
    DeleteTail(a, b, done, i, j);
  }

  /** Once either walk is over, what is left of this list holds no value of `other`. */
  lemma DeleteTail(a: seq<int>, b: seq<int>, done: seq<int>, i: nat, j: nat)
    requires Sorted(a) && Sorted(b) && i <= |a| && j <= |b| && (i == |a| || j == |b|)
    requires j < |b| ==> forall k :: 0 <= k < i ==> a[k] < b[j]
    requires i < |a| ==> forall k :: 0 <= k < j ==> b[k] < a[i]
    requires forall x :: x in done <==> x in a[..i] && x !in b[..j]
    requires Sorted(done) && (i < |a| ==> forall k :: 0 <= k < |done| ==> done[k] < a[i])
    ensures Sorted(done + a[i..])
    ensures forall x :: x in done + a[i..] <==> x in a && x !in b
  {
    assert a == a[..i] + a[i..] && b == b[..j] + b[j..];
    SortedJoin(done, a[i..]);
  }

  /** Copy assignment: appends a copy of each node of `other`, head to tail. */
  method Copy(other: seq<int>) returns (r: seq<int>)
    ensures r == other
  {
    r := [];
    var k := 0;
    while k < |other|
      invariant k <= |other| && r == other[..k]
    {
      r := r + [other[k]];
      k := k + 1;
    }
    assert other[..k] == other;
  }
}
