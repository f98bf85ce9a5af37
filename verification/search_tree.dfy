/**
  The binary search tree with parent pointers. A tree is an inductive value; a pointer
  to a node inside it, together with the parent links above that node, is a zipper: the
  subtree rooted at the node and the path of frames back up to the root, innermost
  frame first. A `WentLeft` frame records a parent whose left child we are in, with the
  parent's value and right subtree; `WentRight` the mirror image.

  The values are `int`, standing for any totally ordered `Data`.
 */
module SearchTree {
  import opened Outcomes
  import RingQueue

  datatype Tree = Nil | Node(left: Tree, data: int, right: Tree)

  datatype Frame = WentLeft(data: int, right: Tree) | WentRight(left: Tree, data: int)

  /** The recursive `inorderWalk`: left subtree, node, right subtree. */
  function InOrder(t: Tree): seq<int>
  {
    match t
    case Nil => []
    case Node(l, d, r) => InOrder(l) + [d] + InOrder(r)
  }

  function Values(t: Tree): set<int>
  {
    match t
    case Nil => {}
    case Node(l, d, r) => Values(l) + {d} + Values(r)
  }

  /** The search-tree property: every value in a left subtree is smaller than the node,
      every value in a right subtree larger. */
  predicate IsSearchTree(t: Tree)
  {
    match t
    case Nil => true
    case Node(l, d, r) =>
      && IsSearchTree(l) && IsSearchTree(r)
      && (forall v :: v in Values(l) ==> v < d)
      && (forall v :: v in Values(r) ==> d < v)
  }

  predicate Increasing(s: seq<int>)
  {
    forall i, j :: 0 <= i < j < |s| ==> s[i] < s[j]
  }

  predicate Below(s: seq<int>, x: int)
  {
    forall i :: 0 <= i < |s| ==> s[i] < x
  }

  predicate Above(s: seq<int>, x: int)
  {
    forall i :: 0 <= i < |s| ==> s[i] > x
  }

  lemma {:induction false} InOrderValues(t: Tree)
    ensures forall x :: x in InOrder(t) <==> x in Values(t)
  {
    match t
    case Nil =>
    case Node(l, d, r) =>
      InOrderValues(l);
      InOrderValues(r);
  }

  /** A sequence around a pivot is increasing exactly when both sides are and lie on
      their own side of the pivot. */
  lemma IncreasingAround(a: seq<int>, d: int, b: seq<int>)
    ensures Increasing(a + [d] + b) <==> Increasing(a) && Increasing(b) && Below(a, d) && Above(b, d)
  {
    var s := a + [d] + b;
    if Increasing(s) {
      assert forall i :: 0 <= i < |a| ==> s[i] == a[i];
      assert forall i :: 0 <= i < |b| ==> s[|a| + 1 + i] == b[i];
      assert s[|a|] == d;
    }
  }

  /** The recursive search-tree property is the same as an increasing in-order walk. */
  lemma {:induction false} SearchTreeIffSorted(t: Tree)
    ensures IsSearchTree(t) <==> Increasing(InOrder(t))
  {
    match t
    case Nil =>
    case Node(l, d, r) =>
      SearchTreeIffSorted(l);
      SearchTreeIffSorted(r);
      InOrderValues(l);
      InOrderValues(r);
      IncreasingAround(InOrder(l), d, InOrder(r));
      MembersBounded(InOrder(l), d);
      MembersBounded(InOrder(r), d);
  }

  lemma MembersBounded(s: seq<int>, x: int)
    ensures Below(s, x) <==> forall v :: v in s ==> v < x
    ensures Above(s, x) <==> forall v :: v in s ==> v > x
  {
    if !Below(s, x) {
      var i :| 0 <= i < |s| && s[i] >= x;
      assert s[i] in s;
    }
    if !Above(s, x) {
      var i :| 0 <= i < |s| && s[i] <= x;
      assert s[i] in s;
    }
  }

  /** Rebuilding the whole tree from a node pointer: each frame puts the subtree back
      under its parent. */
  function Plug(c: Tree, path: seq<Frame>): Tree
    decreases |path|
  {
    if |path| == 0 then c
    else match path[0]
      case WentLeft(d, r) => Plug(Node(c, d, r), path[1..])
      case WentRight(l, d) => Plug(Node(l, d, c), path[1..])
  }

  /** The values that an in-order walk meets before the subtree at the hole. */
  function Preceding(path: seq<Frame>): seq<int>
    decreases |path|
  {
    if |path| == 0 then []
    else match path[0]
      case WentLeft(_, _) => Preceding(path[1..])
      case WentRight(l, d) => Preceding(path[1..]) + InOrder(l) + [d]
  }

  /** The values that an in-order walk meets after the subtree at the hole. */
  function Pending(path: seq<Frame>): seq<int>
    decreases |path|
  {
    if |path| == 0 then []
    else match path[0]
      case WentLeft(d, r) => [d] + InOrder(r) + Pending(path[1..])
      case WentRight(_, _) => Pending(path[1..])
  }

  lemma {:induction false} PlugInOrder(c: Tree, path: seq<Frame>)
    ensures InOrder(Plug(c, path)) == Preceding(path) + InOrder(c) + Pending(path)
    decreases |path|
  {
    if |path| > 0 {
      match path[0]
      case WentLeft(d, r) =>
        PlugInOrder(Node(c, d, r), path[1..]);
      case WentRight(l, d) =>
        PlugInOrder(Node(l, d, c), path[1..]);
    }
  }

  /** The whole walk around a node pointer: what precedes the node's left subtree, the
      node, and what follows its right subtree. */
  lemma NodeSplit(c: Tree, path: seq<Frame>)
    requires c.Node?
    ensures InOrder(Plug(c, path))
         == (Preceding(path) + InOrder(c.left)) + [c.data] + (InOrder(c.right) + Pending(path))
  {
    PlugInOrder(c, path);
    var P, l, r, Q := Preceding(path), InOrder(c.left), InOrder(c.right), Pending(path);
    assert InOrder(c) == l + [c.data] + r;
    assert P + (l + [c.data] + r) + Q == (P + l) + [c.data] + (r + Q);
  }

  /** `nextSearchNode` repeated from a node until it holds `x` or is null, recording the
      parents passed (`searchNodeIterative`, `searchExpectedParent`). */
  function Descend(c: Tree, x: int, path: seq<Frame>): (r: (Tree, seq<Frame>))
    ensures Plug(r.0, r.1) == Plug(c, path)
    ensures r.0.Node? ==> r.0.data == x
    ensures TowardAll(path, x) ==> TowardAll(r.1, x)
    decreases c
  {
    match c
    case Nil => (c, path)
    case Node(l, d, r) =>
      if d == x then (c, path)
      else if d < x then
        assert ([WentRight(l, d)] + path)[1..] == path;
        Descend(r, x, [WentRight(l, d)] + path)
      else
        assert ([WentLeft(d, r)] + path)[1..] == path;
        Descend(l, x, [WentLeft(d, r)] + path)
  }

  /** Each frame was entered in the direction a search for `x` takes. */
  predicate Toward(f: Frame, x: int)
  {
    match f
    case WentLeft(d, _) => x < d
    case WentRight(_, d) => d < x
  }

  predicate TowardAll(path: seq<Frame>, x: int)
  {
    forall i :: 0 <= i < |path| ==> Toward(path[i], x)
  }

  /** Along a search for `x`, everything met before the hole is smaller than `x` and
      everything after it larger. */
  lemma {:induction false} DescendBounds(c: Tree, x: int, path: seq<Frame>)
    requires Increasing(InOrder(Plug(c, path)))
    requires Below(Preceding(path), x) && Above(Pending(path), x)
    ensures Below(Preceding(Descend(c, x, path).1), x) && Above(Pending(Descend(c, x, path).1), x)
    decreases c
  {
    match c
    case Nil =>
    case Node(l, d, r) =>
      if d != x {
        var P, Q := Preceding(path), Pending(path);
        var before, after := P + InOrder(l), InOrder(r) + Q;
        assert Below(before, d) && Above(after, d) by {
          NodeSplit(c, path);
          IncreasingAround(before, d, after);
        }
        if d < x {
          var f := WentRight(l, d);
          assert Plug(r, [f] + path) == Plug(c, path)
              && Preceding([f] + path) == before + [d] && Pending([f] + path) == Q by {
            assert ([f] + path)[1..] == path;
          }
          assert Below(before + [d], x) by {
            var s := before + [d];
            assert forall i :: 0 <= i < |before| ==> s[i] == before[i];
          }
          DescendBounds(r, x, [f] + path);
        } else {
          var f := WentLeft(d, r);
          assert Plug(l, [f] + path) == Plug(c, path)
              && Preceding([f] + path) == P && Pending([f] + path) == [d] + after by {
            assert ([f] + path)[1..] == path;
          }
          assert Above([d] + after, x) by {
            var s := [d] + after;
            assert forall i :: 0 < i < |s| ==> s[i] == after[i - 1];
          }
          DescendBounds(l, x, [f] + path);
        }
      }
  }

  /** In a search tree the descent ends on a node exactly when `x` is stored. */
  lemma SearchFinds(t: Tree, x: int)
    requires IsSearchTree(t)
    ensures Descend(t, x, []).0.Node? <==> x in Values(t)
    ensures Below(Preceding(Descend(t, x, []).1), x) && Above(Pending(Descend(t, x, []).1), x)
  {
    SearchTreeIffSorted(t);
    DescendBounds(t, x, []);
    var (c, path) := Descend(t, x, []);
    PlugInOrder(c, path);
    InOrderValues(t);
    var P, Q := Preceding(path), Pending(path);
    assert x !in P && x !in Q;
    if c.Node? {
      assert InOrder(t)[|P| + |InOrder(c.left)|] == x;
    }
  }

  /** `searchIterative`: walks down from the root and reports whether it stopped on a
      node. */
  method SearchIterative(t: Tree, x: int) returns (found: bool)
    ensures found <==> Descend(t, x, []).0.Node?
    ensures IsSearchTree(t) ==> (found <==> x in Values(t))
  {
    var current := t;
    ghost var path: seq<Frame> := [];
    while current.Node? && current.data != x
      invariant Descend(current, x, path) == Descend(t, x, [])
      decreases current
    {
      if current.data < x {
        path := [WentRight(current.left, current.data)] + path;
        current := current.right;
      } else {
        path := [WentLeft(current.data, current.right)] + path;
        current := current.left;
      }
    }
    found := current.Node?;
    if IsSearchTree(t) {
      SearchFinds(t, x);
    }
  }

  /** Re-descending a rebuilt tree follows the recorded search path back to the hole. */
  lemma {:induction false} DescendPlug(c: Tree, path: seq<Frame>, x: int, acc: seq<Frame>)
    requires TowardAll(path, x)
    ensures Descend(Plug(c, path), x, acc) == Descend(c, x, path + acc)
    decreases |path|
  {
    if |path| == 0 {
      assert path + acc == acc;
    } else {
      assert Toward(path[0], x);
      assert path + acc == [path[0]] + (path[1..] + acc);
      match path[0]
      case WentLeft(d, r) =>
        DescendPlug(Node(c, d, r), path[1..], x, acc);
      case WentRight(l, d) =>
        DescendPlug(Node(l, d, c), path[1..], x, acc);
    }
  }

  function Size(t: Tree): nat
  {
    match t
    case Nil => 0
    case Node(l, _, r) => 1 + Size(l) + Size(r)
  }

  /** `insert`: an empty tree gets a root; otherwise the search for `x` runs to a null
      child, whose parent receives a new leaf on the side the search went; an existing
      `x` refuses the insertion. */
  function Insert(t: Tree, x: int): (r: (Tree, bool))
    ensures !r.1 ==> r.0 == t
  {
    var (c, path) := Descend(t, x, []);
    if c.Node? then (t, false) else (Plug(Node(Nil, x, Nil), path), true)
  }

  /** `getNumberOfNodes` counts the values the in-order walk visits. */
  lemma {:induction false} SizeIsCount(t: Tree)
    ensures Size(t) == |InOrder(t)|
    ensures IsSearchTree(t) ==> Size(t) == |Values(t)|
  {
    match t
    case Nil =>
    case Node(l, d, r) =>
      SizeIsCount(l);
      SizeIsCount(r);
      if IsSearchTree(t) {
        var L := Values(l) + {d};
        assert d !in Values(l);
        assert |L| == |Values(l)| + 1;
        forall v | v in Values(r) ensures v !in L {
          assert d < v;
        }
        assert L * Values(r) == {};
      }
  }

  lemma IncreasingJoin(a: seq<int>, x: int, b: seq<int>)
    requires Increasing(a) && Increasing(b) && Below(a, x) && Above(b, x)
    ensures Increasing(a + b)
  {
    var s := a + b;
    assert forall i :: 0 <= i < |s| ==> s[i] == (if i < |a| then a[i] else b[i - |a|]);
  }

  lemma IncreasingParts(a: seq<int>, b: seq<int>)
    requires Increasing(a + b)
    ensures Increasing(a) && Increasing(b)
  {
    var s := a + b;
    assert forall i :: 0 <= i < |a| ==> s[i] == a[i];
    assert forall i :: 0 <= i < |b| ==> s[|a| + i] == b[i];
  }

  /** Filling the hole a failed search for `x` stopped at with a leaf holding `x`:
      the in-order walk gains `x` between the values below and above it. */
  lemma FillHole(path: seq<Frame>, x: int)
    requires IsSearchTree(Plug(Nil, path))
    requires Below(Preceding(path), x) && Above(Pending(path), x)
    ensures IsSearchTree(Plug(Node(Nil, x, Nil), path))
    ensures Values(Plug(Node(Nil, x, Nil), path)) == Values(Plug(Nil, path)) + {x}
    ensures Size(Plug(Node(Nil, x, Nil), path)) == Size(Plug(Nil, path)) + 1
  {
    var P, Q := Preceding(path), Pending(path);
    assert InOrder(Plug(Nil, path)) == P + Q by {
      PlugInOrder(Nil, path);
    }
    assert InOrder(Plug(Node(Nil, x, Nil), path)) == P + [x] + Q by {
      PlugInOrder(Node(Nil, x, Nil), path);
    }
    AddKeeps(Plug(Nil, path), Plug(Node(Nil, x, Nil), path), P, x, Q);
  }

  /** A tree whose walk gains `x` between the smaller and the larger values stays a
      search tree and gains exactly `x` and one node. */
  lemma AddKeeps(t: Tree, t': Tree, p: seq<int>, x: int, q: seq<int>)
    requires IsSearchTree(t) && InOrder(t) == p + q && InOrder(t') == p + [x] + q
    requires Below(p, x) && Above(q, x)
    ensures IsSearchTree(t') && Values(t') == Values(t) + {x} && Size(t') == Size(t) + 1
  {
    assert Increasing(p + q) by {
      SearchTreeIffSorted(t);
    }
    InsertSeq(p, x, q);
    assert IsSearchTree(t') by {
      SearchTreeIffSorted(t');
    }
    SameMembersAdd(t, t', x);
    SizeIsCount(t);
    SizeIsCount(t');
  }

  lemma InsertSeq(p: seq<int>, x: int, q: seq<int>)
    requires Increasing(p + q) && Below(p, x) && Above(q, x)
    ensures Increasing(p + [x] + q)
    ensures forall v :: v in p + [x] + q <==> v in p + q || v == x
  {
    IncreasingParts(p, q);
    IncreasingAround(p, x, q);
  }

  lemma SameMembersAdd(t: Tree, t': Tree, x: int)
    requires forall v :: v in InOrder(t') <==> v in InOrder(t) || v == x
    ensures Values(t') == Values(t) + {x}
  {
    InOrderValues(t);
    InOrderValues(t');
    forall v ensures v in Values(t') <==> v in Values(t) + {x} {
      assert v in InOrder(t') <==> v in InOrder(t) || v == x;
    }
  }

  lemma SameMembersRemove(t: Tree, t': Tree, x: int)
    requires forall v :: v in InOrder(t') <==> v in InOrder(t) && v != x
    ensures Values(t') == Values(t) - {x}
  {
    InOrderValues(t);
    InOrderValues(t');
    forall v ensures v in Values(t') <==> v in Values(t) - {x} {
      assert v in InOrder(t') <==> v in InOrder(t) && v != x;
    }
  }

  lemma InsertCorrect(t: Tree, x: int)
    requires IsSearchTree(t)
    ensures IsSearchTree(Insert(t, x).0)
    ensures Insert(t, x).1 <==> x !in Values(t)
    ensures Values(Insert(t, x).0) == Values(t) + {x}
    ensures Insert(t, x).1 ==> Size(Insert(t, x).0) == Size(t) + 1
    ensures Insert(t, x).1 ==> Descend(Insert(t, x).0, x, []).0 == Node(Nil, x, Nil)
  {
    SearchFinds(t, x);
    var (c, path) := Descend(t, x, []);
    if c.Nil? {
      FillHole(path, x);
      LeafIsFound(t, x);
    }
  }

  /** Searching again after an insertion ends at the new leaf. */
  lemma LeafIsFound(t: Tree, x: int)
    requires Descend(t, x, []).0.Nil?
    ensures Descend(Plug(Node(Nil, x, Nil), Descend(t, x, []).1), x, []).0 == Node(Nil, x, Nil)
  {
    var path := Descend(t, x, []).1;
    assert TowardAll([], x);
    DescendPlug(Node(Nil, x, Nil), path, x, []);
    assert path + [] == path;
  }

  /** `max` of a subtree and its unlinking, replaced by its left child. */
  function RemoveMax(t: Tree): (r: (int, Tree))
    requires t.Node?
    ensures InOrder(t) == InOrder(r.1) + [r.0]
    decreases t
  {
    if t.right == Nil then (t.data, t.left)
    else
      var (m, r') := RemoveMax(t.right);
      (m, Node(t.left, t.data, r'))
  }

  /** `min` of a subtree and its unlinking, replaced by its right child. */
  function RemoveMin(t: Tree): (r: (int, Tree))
    requires t.Node?
    ensures InOrder(t) == [r.0] + InOrder(r.1)
    decreases t
  {
    if t.left == Nil then (t.data, t.right)
    else
      var (m, l') := RemoveMin(t.left);
      (m, Node(l', t.data, t.right))
  }

  /** What `remove` does at the node holding the value: `getSuccessor` picks the
      largest node of the left subtree, else the smallest of the right subtree, else the
      node itself; its value is copied up and `removeSuccessorSourceNode` unlinks it. */
  function Splice(c: Tree): (r: Tree)
    requires c.Node?
    ensures InOrder(r) == InOrder(c.left) + InOrder(c.right)
  {
    if c.left != Nil then
      var (m, l') := RemoveMax(c.left);
      Node(l', m, c.right)
    else if c.right != Nil then
      var (m, r') := RemoveMin(c.right);
      Node(Nil, m, r')
    else Nil
  }

  /** `remove`: `false` when the value is absent; otherwise the node holding it is
      spliced out. */
  function Remove(t: Tree, x: int): (r: (Tree, bool))
    ensures !r.1 ==> r.0 == t
  {
    var (c, path) := Descend(t, x, []);
    if c.Nil? then (t, false) else (Plug(Splice(c), path), true)
  }

  /** Splicing out a node of a search tree drops exactly its value. */
  lemma SpliceOut(c: Tree, path: seq<Frame>)
    requires c.Node? && IsSearchTree(Plug(c, path))
    ensures IsSearchTree(Plug(Splice(c), path))
    ensures Values(Plug(Splice(c), path)) == Values(Plug(c, path)) - {c.data}
    ensures Size(Plug(Splice(c), path)) + 1 == Size(Plug(c, path))
  {
    NodeSplit(c, path);
    SpliceWalk(c, path);
    DropKeeps(Plug(c, path), Plug(Splice(c), path),
      Preceding(path) + InOrder(c.left), c.data, InOrder(c.right) + Pending(path));
  }

  lemma SpliceWalk(c: Tree, path: seq<Frame>)
    requires c.Node?
    ensures InOrder(Plug(Splice(c), path))
         == (Preceding(path) + InOrder(c.left)) + (InOrder(c.right) + Pending(path))
  {
    PlugInOrder(Splice(c), path);
  }

  /** A search tree whose walk loses one value `x` stays a search tree and loses exactly
      `x` and one node. */
  lemma DropKeeps(t: Tree, t': Tree, a: seq<int>, x: int, b: seq<int>)
    requires IsSearchTree(t) && InOrder(t) == a + [x] + b && InOrder(t') == a + b
    ensures IsSearchTree(t') && Values(t') == Values(t) - {x} && Size(t') + 1 == Size(t)
  {
    assert Increasing(a + [x] + b) by {
      SearchTreeIffSorted(t);
    }
    RemoveSeq(a, x, b);
    assert IsSearchTree(t') by {
      SearchTreeIffSorted(t');
    }
    SameMembersRemove(t, t', x);
    SizeIsCount(t);
    SizeIsCount(t');
  }

  lemma RemoveSeq(a: seq<int>, x: int, b: seq<int>)
    requires Increasing(a + [x] + b)
    ensures Increasing(a + b)
    ensures forall v :: v in a + b <==> v in a + [x] + b && v != x
  {
    IncreasingAround(a, x, b);
    IncreasingJoin(a, x, b);
    MembersBounded(a, x);
    MembersBounded(b, x);
  }

  lemma RemoveCorrect(t: Tree, x: int)
    requires IsSearchTree(t)
    ensures IsSearchTree(Remove(t, x).0)
    ensures Remove(t, x).1 <==> x in Values(t)
    ensures Values(Remove(t, x).0) == Values(t) - {x}
    ensures Remove(t, x).1 ==> Size(Remove(t, x).0) + 1 == Size(t)
  {
    SearchFinds(t, x);
    var (c, path) := Descend(t, x, []);
    if c.Node? {
      SpliceOut(c, path);
    }
  }

  /** `getHeight(node)`: the number of nodes on the longest downward path. */
  function Levels(t: Tree): nat
  {
    match t
    case Nil => 0
    case Node(l, _, r) => 1 + (if Levels(l) >= Levels(r) then Levels(l) else Levels(r))
  }

  /** `getHeight()`: 0 for an empty tree, otherwise one less than the levels, i.e. the
      edges on the longest root-to-leaf path. */
  function Height(t: Tree): nat
  {
    if t == Nil then 0 else Levels(t) - 1
  }

  /** The subtree reached from the root by following left (`false`) and right (`true`)
      links. */
  function Follow(t: Tree, dirs: seq<bool>): Tree
    decreases |dirs|
  {
    if |dirs| == 0 || t == Nil then t
    else Follow(if dirs[0] then t.right else t.left, dirs[1..])
  }

  /** No downward path to a node is longer than the height. */
  lemma {:induction false} PathWithinHeight(t: Tree, dirs: seq<bool>)
    requires Follow(t, dirs).Node?
    ensures |dirs| <= Height(t)
    decreases |dirs|
  {
    if |dirs| > 0 {
      PathWithinHeight(if dirs[0] then t.right else t.left, dirs[1..]);
    }
  }

  /** Some downward path of exactly the height ends at a leaf. */
  lemma {:induction false} DeepestPath(t: Tree) returns (dirs: seq<bool>)
    requires t.Node?
    ensures |dirs| == Height(t)
    ensures Follow(t, dirs).Node? && Follow(t, dirs).left == Nil && Follow(t, dirs).right == Nil
  {
    if t.left == Nil && t.right == Nil {
      dirs := [];
    } else if Levels(t.left) >= Levels(t.right) {
      var rest := DeepestPath(t.left);
      dirs := [false] + rest;
      assert dirs[1..] == rest;
    } else {
      var rest := DeepestPath(t.right);
      dirs := [true] + rest;
      assert dirs[1..] == rest;
    }
  }

  function Pow2(n: nat): (r: nat)
    ensures r >= 1
  {
    if n == 0 then 1 else 2 * Pow2(n - 1)
  }

  /** The private `pow2`: doubles a counter `degree` times. */
  method Pow2Iterative(degree: nat) returns (res: nat)
    ensures res == Pow2(degree)
  {
    res := 1;
    var d := degree;
    while d > 0
      invariant res * Pow2(d) == Pow2(degree)
    {
      res := res * 2;
      d := d - 1;
    }
  }

  /** A tree of height `h` holds fewer than `2^(h+1)` values and more than `h`. */
  lemma {:induction false} SizeWithinLevels(t: Tree)
    ensures Size(t) < Pow2(Levels(t))
    ensures Levels(t) <= Size(t)
  {
    match t
    case Nil =>
    case Node(l, _, r) =>
      SizeWithinLevels(l);
      SizeWithinLevels(r);
      Pow2Monotone(Levels(l), Levels(t) - 1);
      Pow2Monotone(Levels(r), Levels(t) - 1);
  }

  lemma {:induction false} Pow2Monotone(a: nat, b: nat)
    requires a <= b
    ensures Pow2(a) <= Pow2(b)
    decreases b
  {
    if a < b {
      Pow2Monotone(a, b - 1);
    }
  }

  /** `min`: the leftmost node under `c`, with the frames passed on the way. */
  function MinPos(c: Tree, path: seq<Frame>): (r: (Tree, seq<Frame>))
    requires c.Node?
    ensures r.0.Node? && r.0.left == Nil
    ensures Plug(r.0, r.1) == Plug(c, path)
    ensures Preceding(r.1) == Preceding(path)
    decreases c
  {
    if c.left == Nil then (c, path)
    else
      assert ([WentLeft(c.data, c.right)] + path)[1..] == path;
      MinPos(c.left, [WentLeft(c.data, c.right)] + path)
  }

  /** `searchNextHigher`: climbs while the node is its parent's right child; the parent
      above is the next node, or there is none. */
  function Climb(c: Tree, path: seq<Frame>): (r: Option<(Tree, seq<Frame>)>)
    ensures r.Some? ==> r.value.0.Node? && Plug(r.value.0, r.value.1) == Plug(c, path)
    ensures r.Some? ==> Preceding(r.value.1) + InOrder(r.value.0.left) == Preceding(path) + InOrder(c)
    ensures r.None? ==> Pending(path) == []
    decreases |path|
  {
    if |path| == 0 then None
    else match path[0]
      case WentRight(l, d) => Climb(Node(l, d, c), path[1..])
      case WentLeft(d, r) => Some((Node(c, d, r), path[1..]))
  }

  /** `getNext`: the leftmost node of the right subtree when there is one
      (`searchNextLower`), else the climb. */
  function GetNext(c: Tree, path: seq<Frame>): (r: Option<(Tree, seq<Frame>)>)
    requires c.Node?
    ensures r.Some? ==> r.value.0.Node? && Plug(r.value.0, r.value.1) == Plug(c, path)
    ensures r.Some? ==> Preceding(r.value.1) + InOrder(r.value.0.left) == Preceding(path) + InOrder(c.left) + [c.data]
    ensures r.None? ==> InOrder(Plug(c, path)) == Preceding(path) + InOrder(c.left) + [c.data]
  {
    if c.right != Nil then
      var f := WentRight(c.left, c.data);
      assert ([f] + path)[1..] == path;
      Some(MinPos(c.right, [f] + path))
    else
      PlugInOrder(c, path);
      Climb(c, path)
  }

  /** `inorderWalkIterative`: from the minimum, repeated `getNext` visits the values in
      the same order as the recursive walk. */
  method InOrderWalkIterative(t: Tree) returns (visited: seq<int>)
    ensures visited == InOrder(t)
    ensures IsSearchTree(t) ==> Increasing(visited)
  {
    visited := [];
    if t == Nil {
      return;
    }
    var pos: Option<(Tree, seq<Frame>)> := Some(MinPos(t, []));
    while pos.Some?
      invariant pos.Some? ==> pos.value.0.Node? && Plug(pos.value.0, pos.value.1) == t
      invariant pos.Some? ==> visited == Preceding(pos.value.1) + InOrder(pos.value.0.left)
      invariant pos.None? ==> visited == InOrder(t)
      decreases |InOrder(t)| - |visited|
    {
      var (c, path) := pos.value;
      PlugInOrder(c, path);
      visited := visited + [c.data];
      pos := GetNext(c, path);
    }
    SearchTreeIffSorted(t);
  }

  /** The in-order successor of an empty child: the parent when the hole is its left
      child, else the climb from the parent. */
  function AfterHole(path: seq<Frame>): (r: Option<(Tree, seq<Frame>)>)
    ensures r.Some? ==> r.value.0.Node? && Plug(r.value.0, r.value.1) == Plug(Nil, path)
    ensures r.Some? ==> Preceding(r.value.1) + InOrder(r.value.0.left) == Preceding(path)
    ensures r.None? ==> Pending(path) == []
  {
    if |path| == 0 then None
    else match path[0]
      case WentLeft(d, r) => Some((Node(Nil, d, r), path[1..]))
      case WentRight(l, d) => Climb(Node(l, d, Nil), path[1..])
  }

  /** The node reached after a hole holds the first value pending there. */
  lemma AfterHoleIsNext(path: seq<Frame>)
    ensures AfterHole(path).Some? ==> Pending(path) != [] && AfterHole(path).value.0.data == Pending(path)[0]
  {
    var r := AfterHole(path);
    if r.Some? {
      NodeAfterHole(path, r.value.0, r.value.1);
    }
  }

  lemma NodeAfterHole(path: seq<Frame>, c: Tree, p: seq<Frame>)
    requires c.Node? && Plug(c, p) == Plug(Nil, path)
    requires Preceding(p) + InOrder(c.left) == Preceding(path)
    ensures Pending(path) != [] && c.data == Pending(path)[0]
  {
    PlugInOrder(Nil, path);
    PlugInOrder(c, p);
    var w := InOrder(Plug(Nil, path));
    var L, cl := Preceding(p), InOrder(c.left);
    assert InOrder(c) == cl + [c.data] + InOrder(c.right);
    assert w == L + InOrder(c) + Pending(p);
    assert w[|L| + |cl|] == InOrder(c)[|cl|] == c.data;
    var S := Preceding(path);
    assert |S| == |L| + |cl|;
    assert InOrder(Plug(Nil, path)) == S + InOrder(Nil) + Pending(path);
    assert |w| == |S| + |Pending(path)|;
    assert w[|S|] == Pending(path)[0];
  }

  /** `searchFirstNotLess`: the node holding `x`; else, from the last node of the
      search, that node when it is larger or its successor when it is smaller. */
  function FirstNotLess(t: Tree, x: int): (r: Option<(Tree, seq<Frame>)>)
    ensures r.Some? ==> r.value.0.Node? && Plug(r.value.0, r.value.1) == t
  {
    var (c, path) := Descend(t, x, []);
    if c.Node? then Some((c, path)) else AfterHole(path)
  }

  lemma FirstNotLessCorrect(t: Tree, x: int)
    requires IsSearchTree(t)
    ensures FirstNotLess(t, x).Some? ==> FirstNotLess(t, x).value.0.data >= x
    ensures FirstNotLess(t, x).Some? ==>
      Below(Preceding(FirstNotLess(t, x).value.1) + InOrder(FirstNotLess(t, x).value.0.left), x)
    ensures FirstNotLess(t, x).None? ==> Below(InOrder(t), x)
  {
    SearchFinds(t, x);
    var (c, path) := Descend(t, x, []);
    PlugInOrder(c, path);
    if c.Node? {
      SearchTreeIffSorted(t);
      NodeSplit(c, path);
      IncreasingAround(Preceding(path) + InOrder(c.left), x, InOrder(c.right) + Pending(path));
    } else {
      AfterHoleIsNext(path);
      assert InOrder(t) == Preceding(path) + Pending(path);
    }
  }

  /** Number of elements of `s` within `[low, high]`. */
  function CountIn(s: seq<int>, low: int, high: int): nat
  {
    if |s| == 0 then 0
    else (if low <= s[0] <= high then 1 else 0) + CountIn(s[1..], low, high)
  }

  lemma {:induction false} CountInAppend(a: seq<int>, b: seq<int>, low: int, high: int)
    ensures CountIn(a + b, low, high) == CountIn(a, low, high) + CountIn(b, low, high)
    decreases |a|
  {
    if |a| > 0 {
      assert (a + b)[1..] == a[1..] + b;
      CountInAppend(a[1..], b, low, high);
    } else {
      assert a + b == b;
    }
  }

  lemma {:induction false} CountInOutside(s: seq<int>, low: int, high: int)
    requires Below(s, low) || Above(s, high)
    ensures CountIn(s, low, high) == 0
    decreases |s|
  {
    if |s| > 0 {
      CountInOutside(s[1..], low, high);
    }
  }

  /** In an increasing sequence the count is the number of distinct values in range. */
  lemma {:induction false} CountInIsCard(s: seq<int>, low: int, high: int)
    requires Increasing(s)
    ensures CountIn(s, low, high) == |set x | x in s && low <= x <= high|
    decreases |s|
  {
    if |s| == 0 {
      assert (set x | x in s && low <= x <= high) == {};
    } else {
      var tail := s[1..];
      CountInIsCard(tail, low, high);
      var rest := set x | x in tail && low <= x <= high;
      var all := set x | x in s && low <= x <= high;
      assert s[0] !in tail;
      if low <= s[0] <= high {
        assert all == rest + {s[0]};
      } else {
        assert all == rest;
      }
    }
  }

  /** The value at a node pointer sits in the in-order walk right after the values
      before the node. */
  lemma PosData(c: Tree, path: seq<Frame>)
    requires c.Node?
    ensures |Preceding(path) + InOrder(c.left)| < |InOrder(Plug(c, path))|
    ensures InOrder(Plug(c, path))[|Preceding(path) + InOrder(c.left)|] == c.data
  {
    NodeSplit(c, path);
  }

  /** In a search tree `getNext` moves to a larger value. */
  lemma NextIsLarger(c: Tree, path: seq<Frame>)
    requires c.Node? && Increasing(InOrder(Plug(c, path)))
    ensures GetNext(c, path).Some? ==> GetNext(c, path).value.0.data > c.data
  {
    var r := GetNext(c, path);
    PosData(c, path);
    if r.Some? {
      PosData(r.value.0, r.value.1);
    }
  }

  /** Once the walk meets a value above `high`, nothing after it is counted. */
  lemma CountStops(c: Tree, path: seq<Frame>, low: int, high: int)
    requires c.Node? && Increasing(InOrder(Plug(c, path))) && c.data > high
    ensures CountIn(InOrder(Plug(c, path)), low, high)
         == CountIn(Preceding(path) + InOrder(c.left), low, high)
  {
    var seen, after := Preceding(path) + InOrder(c.left), InOrder(c.right) + Pending(path);
    assert InOrder(Plug(c, path)) == seen + [c.data] + after by {
      NodeSplit(c, path);
    }
    assert Above(after, high) by {
      IncreasingAround(seen, c.data, after);
    }
    assert CountIn(after, low, high) == 0 by {
      CountInOutside(after, low, high);
    }
    assert CountIn(seen + [c.data], low, high) == CountIn(seen, low, high) by {
      assert [c.data][1..] == [];
      CountInAppend(seen, [c.data], low, high);
    }
    CountInAppend(seen + [c.data], after, low, high);
  }

  /** `countNodesBetween`: from the first node not less than `low`, counts nodes with
      `getNext` while they do not exceed `high`. */
  method CountNodesBetween(t: Tree, low: int, high: int) returns (count: nat)
    requires IsSearchTree(t)
    ensures count == |set x | x in Values(t) && low <= x <= high|
  {
    FirstNotLessCorrect(t, low);
    SearchTreeIffSorted(t);
    var pos := FirstNotLess(t, low);
    ghost var seen: seq<int> := if pos.Some? then Preceding(pos.value.1) + InOrder(pos.value.0.left) else InOrder(t);
    CountInOutside(seen, low, high);
    count := 0;
    while pos.Some? && pos.value.0.data <= high
      invariant pos.Some? ==> pos.value.0.Node? && Plug(pos.value.0, pos.value.1) == t
      invariant pos.Some? ==> seen == Preceding(pos.value.1) + InOrder(pos.value.0.left)
      invariant pos.Some? ==> pos.value.0.data >= low
      invariant pos.None? ==> seen == InOrder(t)
      invariant count == CountIn(seen, low, high)
      decreases |InOrder(t)| - |seen|
    {
      var (c, path) := pos.value;
      PosData(c, path);
      NextIsLarger(c, path);
      CountInAppend(seen, [c.data], low, high);
      assert CountIn([c.data], low, high) == 1;
      seen := seen + [c.data];
      count := count + 1;
      pos := GetNext(c, path);
    }
    if pos.Some? {
      CountStops(pos.value.0, pos.value.1, low, high);
    }
    CountInIsCard(InOrder(t), low, high);
    InOrderValues(t);
    assert (set x | x in InOrder(t) && low <= x <= high) == (set x | x in Values(t) && low <= x <= high);
  }

  /** The queue bound used by `walkByLevels`: a queued subtree of height `h` weighs
      `2^h`, no more than its two children together. */
  function Weight(qs: seq<Tree>): nat
  {
    if |qs| == 0 then 0 else Pow2(Height(qs[0])) + Weight(qs[1..])
  }

  function Gather(qs: seq<Tree>): multiset<int>
  {
    if |qs| == 0 then multiset{} else multiset(InOrder(qs[0])) + Gather(qs[1..])
  }

  function SizeSum(qs: seq<Tree>): nat
  {
    if |qs| == 0 then 0 else Size(qs[0]) + SizeSum(qs[1..])
  }

  lemma SumsAppend(qs: seq<Tree>, x: Tree)
    ensures Weight(qs + [x]) == Weight(qs) + Pow2(Height(x))
    ensures Gather(qs + [x]) == Gather(qs) + multiset(InOrder(x))
    ensures SizeSum(qs + [x]) == SizeSum(qs) + Size(x)
  {
    WeightAppend(qs, x);
    GatherAppend(qs, x);
    SizeSumAppend(qs, x);
  }

  lemma {:induction false} WeightAppend(qs: seq<Tree>, x: Tree)
    ensures Weight(qs + [x]) == Weight(qs) + Pow2(Height(x))
    decreases |qs|
  {
    if |qs| == 0 {
      assert qs + [x] == [x];
    } else {
      assert (qs + [x])[1..] == qs[1..] + [x];
      WeightAppend(qs[1..], x);
    }
  }

  lemma {:induction false} GatherAppend(qs: seq<Tree>, x: Tree)
    ensures Gather(qs + [x]) == Gather(qs) + multiset(InOrder(x))
    decreases |qs|
  {
    if |qs| == 0 {
      assert qs + [x] == [x];
    } else {
      assert (qs + [x])[1..] == qs[1..] + [x];
      GatherAppend(qs[1..], x);
    }
  }

  lemma {:induction false} SizeSumAppend(qs: seq<Tree>, x: Tree)
    ensures SizeSum(qs + [x]) == SizeSum(qs) + Size(x)
    decreases |qs|
  {
    if |qs| == 0 {
      assert qs + [x] == [x];
    } else {
      assert (qs + [x])[1..] == qs[1..] + [x];
      SizeSumAppend(qs[1..], x);
    }
  }

  lemma {:induction false} LengthWithinWeight(qs: seq<Tree>)
    ensures |qs| <= Weight(qs)
    decreases |qs|
  {
    if |qs| > 0 {
      LengthWithinWeight(qs[1..]);
    }
  }

  /** The non-null children of a node, left first: what one round enqueues. */
  function Children(n: Tree): seq<Tree>
    requires n.Node?
  {
    (if n.left != Nil then [n.left] else []) + (if n.right != Nil then [n.right] else [])
  }

  /** The sums over a queue whose head is replaced by the head's children. */
  lemma ChildrenWeight(node: Tree, rest: seq<Tree>)
    requires node.Node?
    ensures Weight(rest + Children(node)) == Weight(rest)
      + (if node.left != Nil then Pow2(Height(node.left)) else 0)
      + (if node.right != Nil then Pow2(Height(node.right)) else 0)
  {
    var l, r := node.left, node.right;
    if l != Nil && r != Nil {
      assert rest + Children(node) == (rest + [l]) + [r];
      SumsAppend(rest, l);
      SumsAppend(rest + [l], r);
    } else if l != Nil {
      assert rest + Children(node) == rest + [l];
      SumsAppend(rest, l);
    } else if r != Nil {
      assert rest + Children(node) == rest + [r];
      SumsAppend(rest, r);
    } else {
      assert rest + Children(node) == rest;
    }
  }

  lemma ChildrenGather(node: Tree, rest: seq<Tree>)
    requires node.Node?
    ensures Gather(rest + Children(node)) + multiset{node.data} == Gather(rest) + multiset(InOrder(node))
  {
    var l, r := node.left, node.right;
    var ml, mr := multiset(InOrder(l)), multiset(InOrder(r));
    var g := Gather(rest);
    assert InOrder(node) == InOrder(l) + [node.data] + InOrder(r);
    var g' := GatherChildren(node, rest);
    forall v ensures (g' + multiset{node.data})[v] == (g + multiset(InOrder(node)))[v] {
    }
  }

  lemma GatherChildren(node: Tree, rest: seq<Tree>) returns (g': multiset<int>)
    requires node.Node?
    ensures g' == Gather(rest + Children(node))
    ensures g' == Gather(rest) + multiset(InOrder(node.left)) + multiset(InOrder(node.right))
  {
    var l, r := node.left, node.right;
    g' := Gather(rest + Children(node));
    if l != Nil && r != Nil {
      assert rest + Children(node) == (rest + [l]) + [r];
      SumsAppend(rest, l);
      SumsAppend(rest + [l], r);
    } else if l != Nil {
      assert rest + Children(node) == rest + [l];
      SumsAppend(rest, l);
    } else if r != Nil {
      assert rest + Children(node) == rest + [r];
      SumsAppend(rest, r);
    } else {
      assert rest + Children(node) == rest;
    }
  }

  lemma ChildrenSize(node: Tree, rest: seq<Tree>)
    requires node.Node?
    ensures SizeSum(rest + Children(node)) + 1 == SizeSum(rest) + Size(node)
  {
    var l, r := node.left, node.right;
    if l != Nil && r != Nil {
      assert rest + Children(node) == (rest + [l]) + [r];
      SumsAppend(rest, l);
      SumsAppend(rest + [l], r);
    } else if l != Nil {
      assert rest + Children(node) == rest + [l];
      SumsAppend(rest, l);
    } else if r != Nil {
      assert rest + Children(node) == rest + [r];
      SumsAppend(rest, r);
    } else {
      assert rest + Children(node) == rest;
    }
  }

  /** One round of the level walk never overflows the queue and keeps its weight
      within the capacity. */
  lemma LevelStep(node: Tree, rest: seq<Tree>, cap: nat)
    requires node.Node? && Pow2(Height(node)) + Weight(rest) <= cap
    ensures node.left != Nil ==> |rest| < cap
    ensures node.right != Nil ==> |rest + (if node.left != Nil then [node.left] else [])| < cap
    ensures Weight(rest + Children(node)) <= cap
  {
    var l, r := node.left, node.right;
    ChildWeights(node);
    ChildrenWeight(node, rest);
    LengthWithinWeight(rest);
    if l != Nil && r != Nil {
      SumsAppend(rest, l);
      LengthWithinWeight(rest + [l]);
    }
  }

  /** Children weigh no more than their parent together. */
  lemma ChildWeights(t: Tree)
    requires t.Node?
    ensures (if t.left != Nil then Pow2(Height(t.left)) else 0)
          + (if t.right != Nil then Pow2(Height(t.right)) else 0) <= Pow2(Height(t))
  {
    if t.left != Nil {
      Pow2Monotone(Height(t.left), Height(t) - 1);
    }
    if t.right != Nil {
      Pow2Monotone(Height(t.right), Height(t) - 1);
    }
  }

  /** The `enQueue` calls of one round: the non-null children, left first. */
  method EnqueueChildren(q: RingQueue.QueueArray<Tree>, node: Tree) returns (q': RingQueue.QueueArray<Tree>)
    requires RingQueue.Valid(q) && node.Node?
    requires node.left != Nil ==> |RingQueue.Contents(q)| < |q.cells|
    requires node.right != Nil ==> |RingQueue.Contents(q) + (if node.left != Nil then [node.left] else [])| < |q.cells|
    ensures RingQueue.Valid(q') && |q'.cells| == |q.cells|
    ensures RingQueue.Contents(q') == RingQueue.Contents(q) + Children(node)
  {
    q' := q;
    if node.left != Nil {
      RingQueue.EnQueueCorrect(q', node.left);
      q' := RingQueue.EnQueue(q', node.left).value;
    }
    if node.right != Nil {
      RingQueue.EnQueueCorrect(q', node.right);
      q' := RingQueue.EnQueue(q', node.right).value;
    }
  }

  /** One round keeps every queued entry a node, the visited values together with the
      queued ones, and shrinks the queued nodes. */
  lemma RoundKeeps(items: seq<Tree>, visited: seq<int>, whole: multiset<int>, cap: nat)
    requires |items| > 0 && forall i :: 0 <= i < |items| ==> items[i].Node?
    requires Weight(items) <= cap
    requires multiset(visited) + Gather(items) == whole
    ensures Pow2(Height(items[0])) + Weight(items[1..]) <= cap
    ensures forall i :: 0 <= i < |items[1..] + Children(items[0])| ==> (items[1..] + Children(items[0]))[i].Node?
    ensures multiset(visited + [items[0].data]) + Gather(items[1..] + Children(items[0])) == whole
    ensures SizeSum(items[1..] + Children(items[0])) < SizeSum(items)
  {
    ChildrenSize(items[0], items[1..]);
    RoundNodes(items);
    RoundValues(items, visited, whole);
  }

  lemma RoundNodes(items: seq<Tree>)
    requires |items| > 0 && forall i :: 0 <= i < |items| ==> items[i].Node?
    ensures forall i :: 0 <= i < |items[1..] + Children(items[0])| ==> (items[1..] + Children(items[0]))[i].Node?
  {
    var node, rest := items[0], items[1..];
    var next := rest + Children(node);
    forall i | 0 <= i < |next| ensures next[i].Node? {
      if i < |rest| {
        assert next[i] == items[i + 1];
      } else {
        assert next[i] == Children(node)[i - |rest|];
      }
    }
  }

  lemma RoundValues(items: seq<Tree>, visited: seq<int>, whole: multiset<int>)
    requires |items| > 0 && items[0].Node?
    requires multiset(visited) + Gather(items) == whole
    ensures multiset(visited + [items[0].data]) + Gather(items[1..] + Children(items[0])) == whole
  {
    var node, rest := items[0], items[1..];
    ChildrenGather(node, rest);
    assert Gather(items) == multiset(InOrder(node)) + Gather(rest);
    assert multiset(visited + [node.data]) == multiset(visited) + multiset{node.data};
    Shuffle(multiset(visited), node.data, Gather(rest + Children(node)),
      multiset(InOrder(node)), Gather(rest), whole);
  }

  lemma Shuffle(v: multiset<int>, d: int, g: multiset<int>, n: multiset<int>, r: multiset<int>, whole: multiset<int>)
    requires v + (n + r) == whole
    requires g + multiset{d} == r + n
    ensures (v + multiset{d}) + g == whole
  {
    forall x ensures ((v + multiset{d}) + g)[x] == whole[x] {
      assert (g + multiset{d})[x] == (r + n)[x];
    }
  }

  /** `deQueue` on a queue known to be non-empty. */
  method TakeFront(q: RingQueue.QueueArray<Tree>) returns (node: Tree, q': RingQueue.QueueArray<Tree>)
    requires RingQueue.Valid(q) && RingQueue.Contents(q) != []
    ensures RingQueue.Valid(q') && |q'.cells| == |q.cells|
    ensures node == RingQueue.Contents(q)[0] && RingQueue.Contents(q') == RingQueue.Contents(q)[1..]
  {
    RingQueue.DeQueueCorrect(q);
    var (n, rest) := RingQueue.DeQueue(q).value;
    node, q' := n, rest;
  }

  /** `walkByLevels`: a ring queue of `pow2(getHeight())` cells starts with the root;
      each round dequeues a node, visits it and enqueues its non-null children. Every
      value is visited once, and no `enQueue` or `deQueue` is ever refused. */
  method WalkByLevels(t: Tree) returns (visited: seq<int>)
    ensures multiset(visited) == multiset(InOrder(t))
  {
    visited := [];
    if t == Nil {
      return;
    }
    var cap := Pow2Iterative(Height(t));
    var q := RingQueue.New(cap, Nil).value;
    RingQueue.EnQueueCorrect(q, t);
    q := RingQueue.EnQueue(q, t).value;
    ghost var items: seq<Tree> := [t];
    assert Weight(items) == Pow2(Height(t));
    assert Gather(items) == multiset(InOrder(t));
    while !RingQueue.IsEmpty(q)
      invariant Waiting(q, items, cap)
      invariant multiset(visited) + Gather(items) == multiset(InOrder(t))
      decreases SizeSum(items)
    {
      q, items, visited := ProcessNode(q, items, visited, multiset(InOrder(t)), cap);
    }
  }

  /** The queue holds exactly the subtrees still to visit, none of them empty, within
      the room their heights call for. */
  ghost predicate Waiting(q: RingQueue.QueueArray<Tree>, items: seq<Tree>, cap: nat)
  {
    && RingQueue.Valid(q) && |q.cells| == cap && RingQueue.Contents(q) == items
    && (forall i :: 0 <= i < |items| ==> items[i].Node?)
    && Weight(items) <= cap
  }

  /** `processingWalkByLevelsNode`: one round of the walk. The front subtree's root is
      visited and its children take its place at the back of the queue. */
  method ProcessNode(q: RingQueue.QueueArray<Tree>, ghost items: seq<Tree>, visited: seq<int>,
                     ghost whole: multiset<int>, cap: nat)
    returns (q': RingQueue.QueueArray<Tree>, ghost items': seq<Tree>, visited': seq<int>)
    requires Waiting(q, items, cap) && items != []
    requires multiset(visited) + Gather(items) == whole
    ensures Waiting(q', items', cap)
    ensures multiset(visited') + Gather(items') == whole
    ensures visited' == visited + [items[0].data]
    ensures SizeSum(items') < SizeSum(items)
  {
    var node, q1 := TakeFront(q);
    RoundKeeps(items, visited, whole, cap);
    LevelStep(node, items[1..], cap);
    visited' := visited + [node.data];
    q' := EnqueueChildren(q1, node);
    items' := items[1..] + Children(node);
  }

  /** `clear`: every node released, the root null. */
  function Clear(t: Tree): (r: Tree)
    ensures Values(r) == {} && Size(r) == 0
  {
    Nil
  }
}
