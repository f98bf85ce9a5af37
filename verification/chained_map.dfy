/**
  The separate-chaining hash map: an array of buckets, each an exclusively owned chain
  of key/value nodes. New nodes are prepended to their chain, and an insertion of a new
  key first rebuilds the whole array when the load factor has reached 0.7.

  The hash functor is a parameter `hash`; key equality is `==`. The floating-point
  load-factor arithmetic is kept in integers: `size / bucketCount >= 0.7` is
  `10 * size >= 7 * bucketCount`, and `capacity / 0.7` truncated is `capacity * 10 / 7`.
 */
module ChainedMap {
  import opened Outcomes
  import opened Buckets
  import Ratios

  datatype HashMap<K, V> = HashMap(buckets: seq<seq<(K, V)>>, size: nat)

  datatype MapError = InvalidArgument | OutOfRange

  /** An iterator: the node at position `pos` of chain `bucket`, or the end (a null node).
      Two iterators compare equal exactly when they denote the same node, so `==` on
      this datatype is the original's comparison of current nodes. */
  datatype Iter = Node(bucket: nat, pos: nat) | End

  const DefaultCapacity: nat := 10

  /** Number of buckets for a requested capacity: `capacity / 0.7`, truncated, plus one. */
  function BucketCountFor(capacity: nat): nat
  {
    capacity * 10 / 7 + 1
  }

  /** `loadFactor() >= MAX_LOAD_FACTOR`. */
  predicate LoadTooHigh(size: nat, bucketCount: nat)
  {
    10 * size >= 7 * bucketCount
  }

  function Home<K>(hash: K -> nat, key: K, bucketCount: nat): (r: nat)
    requires bucketCount > 0
    ensures r < bucketCount
  {
    hash(key) % bucketCount
  }

  ghost function Content<K, V>(m: HashMap<K, V>): multiset<(K, V)>
  {
    multiset(Flatten(m.buckets))
  }

  ghost function KeySet<K, V>(m: HashMap<K, V>): set<K>
  {
    Keys(Content(m))
  }

  ghost function Keys<K, V>(c: multiset<(K, V)>): set<K>
  {
    set e | e in c :: e.0
  }

  /** No key occurs twice, and no pair is stored twice. */
  ghost predicate KeysUnique<K, V>(c: multiset<(K, V)>)
  {
    && (forall e :: e in c ==> c[e] == 1)
    && (forall e, e' :: e in c && e' in c && e.0 == e'.0 ==> e == e')
  }

  /** Every node sits in the bucket of its key's hash. */
  ghost predicate InHomeBuckets<K, V>(b: seq<seq<(K, V)>>, hash: K -> nat)
    requires |b| > 0
  {
    forall i, j :: 0 <= i < |b| && 0 <= j < |b[i]| ==> Home(hash, b[i][j].0, |b|) == i
  }

  ghost predicate Valid<K, V>(m: HashMap<K, V>, hash: K -> nat)
  {
    && |m.buckets| > 0
    && InHomeBuckets(m.buckets, hash)
    && KeysUnique(Content(m))
    && m.size == |Flatten(m.buckets)|
  }

  /** The constructor: a zero capacity is refused, otherwise the array holds
      `capacity / 0.7 + 1` empty buckets. */
  function New<K(==), V>(capacity: nat): (r: Result<HashMap<K, V>, MapError>)
    ensures r.Err? <==> capacity == 0
    ensures r.Err? ==> r.error == InvalidArgument
    ensures r.Ok? ==> |r.value.buckets| == BucketCountFor(capacity) >= 1
    ensures r.Ok? ==> r.value.size == 0 && Content(r.value) == multiset{}
  {
    if capacity == 0 then Err(InvalidArgument)
    else
      var b := seq(BucketCountFor(capacity), _ => []);
      EmptyBuckets(b);
      Ok(HashMap(b, 0))
  }

  lemma {:induction false} EmptyBuckets<T>(b: seq<seq<T>>)
    requires forall i :: 0 <= i < |b| ==> b[i] == []
    ensures Flatten(b) == []
    decreases |b|
  {
    if |b| > 0 {
      EmptyBuckets(b[..|b| - 1]);
    }
  }

  /** A new map is valid and its load factor starts strictly below the 0.7 threshold. */
  lemma NewIsValid<K, V>(capacity: nat, hash: K -> nat)
    requires capacity > 0
    ensures Valid(New<K, V>(capacity).value, hash)
    ensures 10 * capacity < 7 * |New<K, V>(capacity).value.buckets|
  {
  }

  /** The integer load check is the comparison of the exact ratio with 7/10. */
  lemma LoadCheckIsRatio(size: nat, bucketCount: nat)
    requires bucketCount > 0
    ensures LoadTooHigh(size, bucketCount) <==> (size as real) / (bucketCount as real) >= 0.7
  {
    Ratios.AtLeastSevenTenths(size, bucketCount);
  }

  /** `loadFactor`: size over bucket count, which reaches 0.7 exactly when the integer
      load check fires. */
  function LoadFactor<K(==), V>(m: HashMap<K, V>): (r: real)
    requires |m.buckets| > 0
    ensures r >= 0.0
    ensures r >= 0.7 <==> LoadTooHigh(m.size, |m.buckets|)
  {
    LoadCheckIsRatio(m.size, |m.buckets|);
    (m.size as real) / (|m.buckets| as real)
  }

  /** The walk along one chain looking for `key`: the position of the first node with
      that key. */
  function FindInChain<K(==), V>(c: seq<(K, V)>, key: K, from: nat): (r: Option<nat>)
    requires from <= |c|
    ensures r.Some? ==> from <= r.value < |c| && c[r.value].0 == key
    ensures r.Some? ==> forall j :: from <= j < r.value ==> c[j].0 != key
    ensures r.None? ==> forall j :: from <= j < |c| ==> c[j].0 != key
    decreases |c| - from
  {
    if from == |c| then None
    else if c[from].0 == key then Some(from)
    else FindInChain(c, key, from + 1)
  }

  /** `find`: an iterator to the node with `key` in the key's bucket, or `end()`. */
  function Find<K(==), V>(m: HashMap<K, V>, key: K, hash: K -> nat): (r: Iter)
    requires |m.buckets| > 0
    ensures r.Node? ==> r.bucket == Home(hash, key, |m.buckets|)
    ensures r.Node? ==> r.pos < |m.buckets[r.bucket]| && m.buckets[r.bucket][r.pos].0 == key
  {
    var h := Home(hash, key, |m.buckets|);
    match FindInChain(m.buckets[h], key, 0)
    case None => End
    case Some(j) => Node(h, j)
  }

  /** Every stored pair is reached by the chain walk of its own key. */
  lemma PresentIsFound<K, V>(m: HashMap<K, V>, e: (K, V), hash: K -> nat)
    requires Valid(m, hash) && e in Content(m)
    ensures Find(m, e.0, hash).Node?
  {
    var i, j := FlattenMember(m.buckets, e);
  }

  /** `find` reports `end()` exactly for an absent key, and otherwise points at a stored
      pair with that key. */
  lemma FindCorrect<K, V>(m: HashMap<K, V>, key: K, hash: K -> nat)
    requires Valid(m, hash)
    ensures Find(m, key, hash) == End <==> key !in KeySet(m)
    ensures Find(m, key, hash).Node? ==> m.buckets[Find(m, key, hash).bucket][Find(m, key, hash).pos] in Content(m)
  {
    var b := m.buckets;
    assert b[..|b|] == b;
    var it := Find(m, key, hash);
    if it.Node? {
      FlattenIndex(b, |b|, it.bucket, it.pos);
      assert b[it.bucket][it.pos] in Content(m);
    }
    forall e | e in Content(m) && e.0 == key
      ensures it.Node?
    {
      PresentIsFound(m, e, hash);
    }
  }

  /** Prepending a pair to the chain of its own bucket keeps every node in its home
      bucket. */
  lemma PrependKeepsHome<K, V>(b: seq<seq<(K, V)>>, e: (K, V), hash: K -> nat)
    requires |b| > 0 && InHomeBuckets(b, hash)
    ensures InHomeBuckets(b[Home(hash, e.0, |b|) := [e] + b[Home(hash, e.0, |b|)]], hash)
  {
    var h := Home(hash, e.0, |b|);
    var b': seq<seq<(K, V)>> := b[h := [e] + b[h]];
    forall i, j | 0 <= i < |b'| && 0 <= j < |b'[i]|
      ensures Home(hash, b'[i][j].0, |b'|) == i
    {
      if i == h && j > 0 {
        assert b'[i][j] == b[h][j - 1];
      }
    }
  }

  function EmptyArray<T>(count: nat): (b: seq<seq<T>>)
    ensures |b| == count && Flatten(b) == []
  {
    var b := seq(count, _ => []);
    EmptyBuckets(b);
    b
  }

  /** Rebuilding: every pair, in traversal order, is prepended to the chain of its
      bucket in a fresh array of `count` buckets. */
  function Rebuild<K(==), V>(s: seq<(K, V)>, count: nat, hash: K -> nat): (b: seq<seq<(K, V)>>)
    requires count > 0
    ensures |b| == count
    ensures InHomeBuckets(b, hash)
    ensures multiset(Flatten(b)) == multiset(s)
    ensures |Flatten(b)| == |s|
    decreases |s|
  {
    if |s| == 0 then EmptyArray(count)
    else
      var b := Rebuild(s[..|s| - 1], count, hash);
      var e := s[|s| - 1];
      var h := Home(hash, e.0, count);
      RebuildStep(b, s, hash);
      b[h := [e] + b[h]]
  }

  lemma RebuildStep<K, V>(b: seq<seq<(K, V)>>, s: seq<(K, V)>, hash: K -> nat)
    requires |b| > 0 && |s| > 0 && InHomeBuckets(b, hash)
    requires multiset(Flatten(b)) == multiset(s[..|s| - 1]) && |Flatten(b)| == |s| - 1
    ensures var e := s[|s| - 1];
      var b' := b[Home(hash, e.0, |b|) := [e] + b[Home(hash, e.0, |b|)]];
      && InHomeBuckets(b', hash)
      && multiset(Flatten(b')) == multiset(s)
      && |Flatten(b')| == |s|
  {
    var e := s[|s| - 1];
    var h := Home(hash, e.0, |b|);
    PrependKeepsHome(b, e, hash);
    FlattenPrepend(b, h, e);
    LastSplit(s);
  }

  lemma LastSplit<T>(s: seq<T>)
    requires |s| > 0
    ensures multiset(s) == multiset(s[..|s| - 1]) + multiset{s[|s| - 1]}
  {
    assert s == s[..|s| - 1] + [s[|s| - 1]];
  }

  /** `resize`: a fresh array sized for `newSize` holding every pair; a zero size is
      refused by the constructor it uses. */
  function Resize<K(==), V>(m: HashMap<K, V>, newSize: nat, hash: K -> nat): (r: Result<HashMap<K, V>, MapError>)
    ensures r.Ok? <==> newSize > 0
    ensures r.Err? ==> r.error == InvalidArgument
  {
    if newSize == 0 then Err(InvalidArgument)
    else
      var entries := Flatten(m.buckets);
      Ok(HashMap(Rebuild(entries, BucketCountFor(newSize), hash), |entries|))
  }

  /** Rebuilding keeps exactly the stored pairs and the size, and the invariant. */
  lemma ResizeCorrect<K, V>(m: HashMap<K, V>, newSize: nat, hash: K -> nat)
    requires Valid(m, hash) && newSize > 0
    ensures var m' := Resize(m, newSize, hash).value;
      && Valid(m', hash)
      && Content(m') == Content(m)
      && m'.size == m.size
      && |m'.buckets| == BucketCountFor(newSize)
      && KeySet(m') == KeySet(m)
  {
  }

  /** `rehash`: resize to twice the size, which fails on an empty map. */
  function Rehash<K(==), V>(m: HashMap<K, V>, hash: K -> nat): (r: Result<HashMap<K, V>, MapError>)
    ensures r.Ok? <==> m.size > 0
  {
    Resize(m, m.size * 2, hash)
  }

  /** `reserve`: grows only when asked for more than the current size. */
  function Reserve<K(==), V>(m: HashMap<K, V>, capacity: nat, hash: K -> nat): (r: HashMap<K, V>)
    ensures capacity <= m.size ==> r == m
    ensures capacity > m.size ==> |r.buckets| == BucketCountFor(capacity)
  {
    if capacity > m.size then Resize(m, capacity, hash).value else m
  }

  /** The copy constructor builds a map with `rhs.size()` as its capacity, so copying an
      empty map is refused. */
  function Copy<K(==), V>(m: HashMap<K, V>, hash: K -> nat): (r: Result<HashMap<K, V>, MapError>)
    ensures r.Ok? <==> m.size > 0
  {
    Resize(m, m.size, hash)
  }

  lemma ReserveCorrect<K, V>(m: HashMap<K, V>, capacity: nat, hash: K -> nat)
    requires Valid(m, hash)
    ensures var m' := Reserve(m, capacity, hash);
      Valid(m', hash) && Content(m') == Content(m) && m'.size == m.size
  {
    if capacity > m.size {
      ResizeCorrect(m, capacity, hash);
    }
  }

  lemma CopyCorrect<K, V>(m: HashMap<K, V>, hash: K -> nat)
    requires Valid(m, hash)
    ensures m.size == 0 ==> Copy(m, hash) == Err(InvalidArgument)
    ensures m.size > 0 ==> Valid(Copy(m, hash).value, hash) && Content(Copy(m, hash).value) == Content(m)
  {
    if m.size > 0 {
      ResizeCorrect(m, m.size, hash);
    }
  }

  /** The move constructor: it swaps with a map whose members hold their initial values,
      so the new map takes the bucket array and the source is left with no buckets and
      size 0, which the copy constructor refuses. */
  function Move<K(==), V>(rhs: HashMap<K, V>, hash: K -> nat): (r: (HashMap<K, V>, HashMap<K, V>))
    ensures r.0 == rhs
    ensures |r.1.buckets| == 0 && r.1.size == 0 && Content(r.1) == multiset{}
    ensures !Valid(r.1, hash) && Copy(r.1, hash) == Err(InvalidArgument)
  {
    (rhs, HashMap([], 0))
  }

  /** A default-constructed map cannot be copied: its copy asks for zero capacity. */
  lemma DefaultMapCopyRefused<K, V>(hash: K -> nat)
    ensures Copy(New<K, V>(DefaultCapacity).value, hash) == Err(InvalidArgument)
  {
  }

  /** The copy with the capacity raised to one for an empty source, so that every map
      can be copied. */
  function CopyAnySize<K(==), V>(m: HashMap<K, V>, hash: K -> nat): (r: HashMap<K, V>)
  {
    Resize(m, if m.size == 0 then 1 else m.size, hash).value
  }

  lemma CopyAnySizeCorrect<K, V>(m: HashMap<K, V>, hash: K -> nat)
    requires Valid(m, hash)
    ensures var m' := CopyAnySize(m, hash);
      Valid(m', hash) && Content(m') == Content(m) && m'.size == m.size && KeySet(m') == KeySet(m)
  {
    ResizeCorrect(m, if m.size == 0 then 1 else m.size, hash);
  }

  lemma RehashCorrect<K, V>(m: HashMap<K, V>, hash: K -> nat)
    requires Valid(m, hash)
    ensures m.size == 0 ==> Rehash(m, hash) == Err(InvalidArgument)
    ensures m.size > 0 ==> Valid(Rehash(m, hash).value, hash) && Content(Rehash(m, hash).value) == Content(m)
    ensures m.size > 0 ==> |Rehash(m, hash).value.buckets| == BucketCountFor(2 * m.size)
  {
    if m.size > 0 {
      ResizeCorrect(m, m.size * 2, hash);
    }
  }

  /** The array `insert` prepends to: the map itself, or its rehashed copy once the load
      factor has reached 0.7. */
  function GrownFor<K(==), V>(m: HashMap<K, V>, hash: K -> nat): (r: HashMap<K, V>)
    requires Valid(m, hash)
    ensures |r.buckets| > 0
  {
    if LoadTooHigh(m.size, |m.buckets|) then Rehash(m, hash).value else m
  }

  /** `insert`/`emplace`: an existing key yields its iterator and `false` with nothing
      changed; a new key is prepended to its chain, after a rebuild when the load
      factor has reached 0.7, and yields an iterator to the new node and `true`. */
  function Insert<K(==), V>(m: HashMap<K, V>, e: (K, V), hash: K -> nat): (r: (HashMap<K, V>, Iter, bool))
    requires Valid(m, hash)
    ensures r.1.Node? && r.1.bucket < |r.0.buckets| && r.1.pos < |r.0.buckets[r.1.bucket]|
    ensures r.0.buckets[r.1.bucket][r.1.pos].0 == e.0
    ensures !r.2 ==> r.0 == m
  {
    var it := Find(m, e.0, hash);
    if it != End then (m, it, false)
    else
      var m1 := GrownFor(m, hash);
      var h := Home(hash, e.0, |m1.buckets|);
      (HashMap(m1.buckets[h := [e] + m1.buckets[h]], m1.size + 1), Node(h, 0), true)
  }

  lemma GrownForCorrect<K, V>(m: HashMap<K, V>, hash: K -> nat)
    requires Valid(m, hash)
    ensures Valid(GrownFor(m, hash), hash)
    ensures Content(GrownFor(m, hash)) == Content(m) && GrownFor(m, hash).size == m.size
    ensures KeySet(GrownFor(m, hash)) == KeySet(m)
  {
    if LoadTooHigh(m.size, |m.buckets|) {
      RehashCorrect(m, hash);
    }
  }

  lemma KeysUniqueAdd<K, V>(c: multiset<(K, V)>, e: (K, V))
    requires KeysUnique(c)
    requires forall x :: x in c ==> x.0 != e.0
    ensures KeysUnique(c + multiset{e})
  {
  }

  lemma KeySetAdd<K, V>(m: HashMap<K, V>, m': HashMap<K, V>, e: (K, V))
    requires Content(m') == Content(m) + multiset{e}
    ensures KeySet(m') == KeySet(m) + {e.0}
  {
    assert e in Content(m');
  }

  lemma KeyAbsent<K, V>(m: HashMap<K, V>, k: K)
    requires k !in KeySet(m)
    ensures forall x :: x in Content(m) ==> x.0 != k
  {
    forall x | x in Content(m) ensures x.0 != k {
      assert x.0 in KeySet(m);
    }
  }

  /** Prepending a pair with a new key to its home chain keeps the invariant and adds
      exactly that pair. */
  lemma PrependCorrect<K, V>(m: HashMap<K, V>, e: (K, V), hash: K -> nat)
    requires Valid(m, hash) && e.0 !in KeySet(m)
    ensures var h := Home(hash, e.0, |m.buckets|);
      var m' := HashMap(m.buckets[h := [e] + m.buckets[h]], m.size + 1);
      && Valid(m', hash)
      && Content(m') == Content(m) + multiset{e}
      && KeySet(m') == KeySet(m) + {e.0}
  {
    var b := m.buckets;
    var h := Home(hash, e.0, |b|);
    var m' := HashMap(b[h := [e] + b[h]], m.size + 1);
    assert Content(m') == Content(m) + multiset{e} by {
      FlattenPrepend(b, h, e);
    }
    PrependKeepsHome(b, e, hash);
    KeyAbsent(m, e.0);
    KeysUniqueAdd(Content(m), e);
    KeySetAdd(m, m', e);
  }

  /** What `insert` does to the stored pairs. */
  lemma InsertCorrect<K, V>(m: HashMap<K, V>, e: (K, V), hash: K -> nat)
    requires Valid(m, hash)
    ensures var (m', it, inserted) := Insert(m, e, hash);
      && Valid(m', hash)
      && (inserted <==> e.0 !in KeySet(m))
      && (!inserted ==> m'.buckets[it.bucket][it.pos] in Content(m))
      && (inserted ==> Content(m') == Content(m) + multiset{e} && m'.size == m.size + 1)
      && (inserted ==> m'.buckets[it.bucket][it.pos] == e)
      && KeySet(m') == KeySet(m) + {e.0}
  {
    FindCorrect(m, e.0, hash);
    var it := Find(m, e.0, hash);
    if it != End {
      assert Insert(m, e, hash) == (m, it, false);
    } else {
      var m1 := GrownFor(m, hash);
      GrownForCorrect(m, hash);
      PrependCorrect(m1, e, hash);
      var h := Home(hash, e.0, |m1.buckets|);
      assert Insert(m, e, hash) == (HashMap(m1.buckets[h := [e] + m1.buckets[h]], m1.size + 1), Node(h, 0), true);
    }
  }

  /** Unlinking the first node with `key` from a chain: the head case, then the walk
      over `next` links for an interior node. */
  function EraseFromChain<K(==), V>(c: seq<(K, V)>, key: K): (r: (seq<(K, V)>, bool))
    ensures match FindInChain(c, key, 0)
      case None => r == (c, false)
      case Some(j) => r == (c[..j] + c[j + 1..], true)
    decreases |c|
  {
    if |c| == 0 then (c, false)
    else if c[0].0 == key then
      assert c[..0] + c[1..] == c[1..];
      (c[1..], true)
    else
      var r := EraseFromChain(c[1..], key);
      FindShift(c, key);
      assert [c[0]] + c[1..] == c;
      ([c[0]] + r.0, r.1)
  }

  /** Searching a chain from `from` is searching its tail from `from - 1`. */
  lemma {:induction false} FindInTail<K, V>(c: seq<(K, V)>, key: K, from: nat)
    requires 1 <= from <= |c|
    ensures FindInChain(c, key, from).None? <==> FindInChain(c[1..], key, from - 1).None?
    ensures FindInChain(c, key, from).Some? ==>
      FindInChain(c[1..], key, from - 1) == Some(FindInChain(c, key, from).value - 1)
    decreases |c| - from
  {
    if from < |c| {
      assert c[1..][from - 1] == c[from];
      FindInTail(c, key, from + 1);
    }
  }

  /** The search of a chain whose head does not match is the search of its tail,
      shifted by one. */
  lemma FindShift<K, V>(c: seq<(K, V)>, key: K)
    requires |c| > 0 && c[0].0 != key
    ensures match FindInChain(c, key, 0)
      case None => FindInChain(c[1..], key, 0).None?
      case Some(j) =>
        && j > 0
        && FindInChain(c[1..], key, 0) == Some(j - 1)
        && c[..j] + c[j + 1..] == [c[0]] + (c[1..][..j - 1] + c[1..][j..])
  {
    assert FindInChain(c, key, 0) == FindInChain(c, key, 1);
    FindInTail(c, key, 1);
    if FindInChain(c, key, 0).Some? {
      TailSlices(c, FindInChain(c, key, 0).value);
    }
  }

  lemma TailSlices<T>(c: seq<T>, j: nat)
    requires 0 < j < |c|
    ensures c[..j] + c[j + 1..] == [c[0]] + (c[1..][..j - 1] + c[1..][j..])
  {
    assert c[..j] == [c[0]] + c[1..][..j - 1];
    assert c[j + 1..] == c[1..][j..];
  }

  /** `erase(key)`: unlinks the node with `key` from its bucket; `false` and no change
      when the key is absent. */
  function Erase<K(==), V>(m: HashMap<K, V>, key: K, hash: K -> nat): (r: (HashMap<K, V>, bool))
    requires Valid(m, hash)
    ensures !r.1 ==> r.0 == m
  {
    var h := Home(hash, key, |m.buckets|);
    if |m.buckets[h]| == 0 then (m, false)
    else
      var (c, found) := EraseFromChain(m.buckets[h], key);
      if !found then (m, false)
      else
        FlattenUpdate(m.buckets, h, c);
        (HashMap(m.buckets[h := c], m.size - 1), true)
  }

  lemma KeySetRemove<K, V>(m: HashMap<K, V>, m': HashMap<K, V>, e: (K, V))
    requires KeysUnique(Content(m)) && e in Content(m)
    requires Content(m') == Content(m) - multiset{e}
    ensures KeysUnique(Content(m'))
    ensures KeySet(m') == KeySet(m) - {e.0}
  {
    KeysRemove(Content(m), e);
  }

  lemma KeysRemove<K, V>(c: multiset<(K, V)>, e: (K, V))
    requires KeysUnique(c) && e in c
    ensures KeysUnique(c - multiset{e})
    ensures Keys(c - multiset{e}) == Keys(c) - {e.0}
  {
    var c' := c - multiset{e};
    assert forall x :: x in c' <==> x in c && x != e;
  }

  /** Unlinking node `j` of chain `h` keeps the invariant and removes exactly that
      pair. */
  lemma UnlinkCorrect<K, V>(m: HashMap<K, V>, h: nat, j: nat, hash: K -> nat)
    requires Valid(m, hash) && h < |m.buckets| && j < |m.buckets[h]|
    ensures m.size > 0
    ensures var b := m.buckets;
      var m' := HashMap(b[h := b[h][..j] + b[h][j + 1..]], m.size - 1);
      && Valid(m', hash)
      && Content(m') == Content(m) - multiset{b[h][j]}
      && b[h][j] in Content(m)
      && KeySet(m') == KeySet(m) - {b[h][j].0}
  {
    var b := m.buckets;
    var e := b[h][j];
    FlattenUnlink(b, h, j);
    var m' := HashMap(b[h := b[h][..j] + b[h][j + 1..]], m.size - 1);
    KeySetRemove(m, m', e);
    UnlinkKeepsHome(b, h, j, hash);
  }

  /** Removing a node from a chain keeps every other node in its home bucket. */
  lemma UnlinkKeepsHome<K, V>(b: seq<seq<(K, V)>>, h: nat, j: nat, hash: K -> nat)
    requires |b| > 0 && InHomeBuckets(b, hash) && h < |b| && j < |b[h]|
    ensures InHomeBuckets(b[h := b[h][..j] + b[h][j + 1..]], hash)
  {
    var b': seq<seq<(K, V)>> := b[h := b[h][..j] + b[h][j + 1..]];
    forall i, k | 0 <= i < |b'| && 0 <= k < |b'[i]|
      ensures Home(hash, b'[i][k].0, |b'|) == i
    {
      if i == h {
        if k < j {
          assert b'[i][k] == b[h][k];
        } else {
          assert b'[i][k] == b[h][k + 1];
        }
      }
    }
  }

  /** What `erase` does to the stored pairs. */
  lemma EraseCorrect<K, V>(m: HashMap<K, V>, key: K, hash: K -> nat)
    requires Valid(m, hash)
    ensures var (m', erased) := Erase(m, key, hash);
      && Valid(m', hash)
      && (erased <==> key in KeySet(m))
      && KeySet(m') == KeySet(m) - {key}
      && (erased ==> m'.size + 1 == m.size)
      && (erased ==> exists v :: (key, v) in Content(m) && Content(m') == Content(m) - multiset{(key, v)})
  {
    FindCorrect(m, key, hash);
    EraseUnlinks(m, key, hash);
    var it := Find(m, key, hash);
    if it.Node? {
      UnlinkCorrect(m, it.bucket, it.pos, hash);
      var e := m.buckets[it.bucket][it.pos];
      assert e == (key, e.1);
    }
  }

  /** `erase` unlinks exactly the node `find` reaches. */
  lemma EraseUnlinks<K, V>(m: HashMap<K, V>, key: K, hash: K -> nat)
    requires Valid(m, hash)
    ensures var it := Find(m, key, hash);
      && (it == End ==> Erase(m, key, hash) == (m, false))
      && (it.Node? ==>
        var c := m.buckets[it.bucket];
        Erase(m, key, hash) == (HashMap(m.buckets[it.bucket := c[..it.pos] + c[it.pos + 1..]], m.size - 1), true))
  {
  }

  /** `erase(iterator)`: `false` at the end, otherwise erases the key the iterator
      points to. */
  function EraseAt<K(==), V>(m: HashMap<K, V>, it: Iter, hash: K -> nat): (r: (HashMap<K, V>, bool))
    requires Valid(m, hash)
    requires it.Node? ==> it.bucket < |m.buckets| && it.pos < |m.buckets[it.bucket]|
    ensures it == End ==> r == (m, false)
    ensures it.Node? ==> r == Erase(m, m.buckets[it.bucket][it.pos].0, hash)
  {
    if it == End then (m, false) else Erase(m, m.buckets[it.bucket][it.pos].0, hash)
  }

  /** Erasing through an iterator to a node removes exactly that node's pair. */
  lemma EraseAtCorrect<K, V>(m: HashMap<K, V>, it: Iter, hash: K -> nat)
    requires Valid(m, hash)
    requires it.Node? && it.bucket < |m.buckets| && it.pos < |m.buckets[it.bucket]|
    ensures var (m', erased) := EraseAt(m, it, hash);
      erased && Valid(m', hash) && Content(m') == Content(m) - multiset{m.buckets[it.bucket][it.pos]}
  {
    var b := m.buckets;
    var e: (K, V) := b[it.bucket][it.pos];
    assert b[..|b|] == b;
    FlattenIndex(b, |b|, it.bucket, it.pos);
    EraseCorrect(m, e.0, hash);
    var m' := EraseAt(m, it, hash).0;
    var v :| (e.0, v) in Content(m) && Content(m') == Content(m) - multiset{(e.0, v)};
    assert (e.0, v) == e;
  }

  /** `at`: the value stored with `key`, or `OutOfRange`. */
  function At<K(==), V>(m: HashMap<K, V>, key: K, hash: K -> nat): (r: Result<V, MapError>)
    requires |m.buckets| > 0
    ensures r.Err? ==> r.error == OutOfRange
  {
    match Find(m, key, hash)
    case End => Err(OutOfRange)
    case Node(i, j) => Ok(m.buckets[i][j].1)
  }

  lemma AtCorrect<K, V>(m: HashMap<K, V>, key: K, hash: K -> nat)
    requires Valid(m, hash)
    ensures At(m, key, hash).Err? <==> key !in KeySet(m)
    ensures forall v :: At(m, key, hash) == Ok(v) <==> (key, v) in Content(m)
  {
    FindCorrect(m, key, hash);
  }

  /** The mutable `operator[]`: `emplace(key, Value{})`, then the value of the node the
      returned iterator points to. */
  function Subscript<K(==), V>(m: HashMap<K, V>, key: K, default: V, hash: K -> nat): (r: (HashMap<K, V>, V))
    requires Valid(m, hash)
    ensures Valid(r.0, hash) && KeySet(r.0) == KeySet(m) + {key}
    ensures (key, r.1) in Content(r.0)
  {
    InsertCorrect(m, (key, default), hash);
    var (m', it, _) := Insert(m, (key, default), hash);
    NodeInFlatten(m'.buckets, it.bucket, it.pos);
    (m', m'.buckets[it.bucket][it.pos].1)
  }

  lemma SubscriptCorrect<K, V>(m: HashMap<K, V>, key: K, default: V, hash: K -> nat)
    requires Valid(m, hash)
    ensures var (m', v) := Subscript(m, key, default, hash);
      && Valid(m', hash)
      && (key in KeySet(m) ==> m' == m && At(m, key, hash) == Ok(v))
      && (key !in KeySet(m) ==> v == default && Content(m') == Content(m) + multiset{(key, default)})
  {
    InsertCorrect(m, (key, default), hash);
    AtCorrect(m, key, hash);
  }

  /** The const `operator[]`: the stored value, or a default when the key is absent;
      the map is never changed. */
  function ConstSubscript<K(==), V>(m: HashMap<K, V>, key: K, default: V, hash: K -> nat): (r: V)
    requires |m.buckets| > 0
    ensures At(m, key, hash).Ok? ==> r == At(m, key, hash).value
    ensures At(m, key, hash).Err? ==> r == default
  {
    match Find(m, key, hash)
    case End => default
    case Node(i, j) => m.buckets[i][j].1
  }

  /** The const `operator[]` yields the value stored with the key, or the default when
      the key is absent. */
  lemma ConstSubscriptCorrect<K, V>(m: HashMap<K, V>, key: K, default: V, hash: K -> nat)
    requires Valid(m, hash)
    ensures forall v :: (key, v) in Content(m) ==> ConstSubscript(m, key, default, hash) == v
    ensures key !in KeySet(m) ==> ConstSubscript(m, key, default, hash) == default
  {
    AtCorrect(m, key, hash);
  }

  /** `clear`: every chain released, bucket count kept. */
  function Clear<K(==), V>(m: HashMap<K, V>): (r: HashMap<K, V>)
    ensures |r.buckets| == |m.buckets| && r.size == 0
    ensures Content(r) == multiset{}
  {
    HashMap(EmptyArray(|m.buckets|), 0)
  }

  lemma ClearIsValid<K, V>(m: HashMap<K, V>, hash: K -> nat)
    requires Valid(m, hash)
    ensures Valid(Clear(m), hash) && KeySet(Clear(m)) == {}
  {
  }

  /** After any insertion the load factor is below 0.7 plus one entry's worth. */
  ghost predicate LoadBounded<K, V>(m: HashMap<K, V>)
  {
    10 * m.size < 7 * |m.buckets| + 10
  }

  lemma InsertKeepsLoadBounded<K, V>(m: HashMap<K, V>, e: (K, V), hash: K -> nat)
    requires Valid(m, hash) && LoadBounded(m)
    ensures LoadBounded(Insert(m, e, hash).0)
  {
    if Find(m, e.0, hash) == End && LoadTooHigh(m.size, |m.buckets|) {
      RehashCorrect(m, hash);
    }
  }

  lemma EraseKeepsLoadBounded<K, V>(m: HashMap<K, V>, key: K, hash: K -> nat)
    requires Valid(m, hash) && LoadBounded(m)
    ensures LoadBounded(Erase(m, key, hash).0)
  {
    EraseCorrect(m, key, hash);
  }

  /** A node the iterator may stand on. */
  predicate IsNodeOf<K, V>(m: HashMap<K, V>, it: Iter)
  {
    it.Node? && it.bucket < |m.buckets| && it.pos < |m.buckets[it.bucket]|
  }

  function ToIter(p: Option<(nat, nat)>): Iter
  {
    match p
    case None => End
    case Some((i, j)) => Node(i, j)
  }

  /** `begin()`: the head of the first non-empty bucket, or `end()`. */
  function Begin<K, V>(m: HashMap<K, V>): (r: Iter)
    ensures r.Node? ==> IsNodeOf(m, r)
  {
    ToIter(First(m.buckets, |m.buckets|))
  }

  /** `operator++`: no effect at the end; otherwise the chain successor, or the head of
      the next non-empty bucket, or the end. */
  function Next<K, V>(m: HashMap<K, V>, it: Iter): (r: Iter)
    requires it.Node? ==> IsNodeOf(m, it)
    ensures it == End ==> r == End
    ensures r.Node? ==> IsNodeOf(m, r)
  {
    match it
    case End => End
    case Node(i, j) => ToIter(Step(m.buckets, |m.buckets|, i, j))
  }

  /** Position of an iterator in traversal order; the end comes after every node. */
  function RankOf<K, V>(m: HashMap<K, V>, it: Iter): nat
    requires it.Node? ==> IsNodeOf(m, it)
  {
    match it
    case End => |Flatten(m.buckets)|
    case Node(i, j) => Offset(m.buckets, i) + j
  }

  /** Walking with `++` from `begin()` to `end()` visits every stored pair exactly once,
      chains in bucket order and each chain from its head. */
  method Traverse<K, V>(m: HashMap<K, V>) returns (visited: seq<(K, V)>)
    ensures visited == Flatten(m.buckets)
  {
    var b := m.buckets;
    assert b[..|b|] == b;
    FirstHasRankZero(b, |b|);
    var it := Begin(m);
    visited := [];
    while it != End
      invariant it.Node? ==> IsNodeOf(m, it)
      invariant RankOf(m, it) == |visited| <= |Flatten(b)|
      invariant visited == Flatten(b)[..|visited|]
      decreases |Flatten(b)| - |visited|
    {
      FlattenIndex(b, |b|, it.bucket, it.pos);
      StepAdvancesRank(b, |b|, it.bucket, it.pos);
      visited := visited + [b[it.bucket][it.pos]];
      it := Next(m, it);
    }
  }

  /** A full traversal of a valid map yields `size()` pairs, exactly the stored ones,
      and never meets a key twice. */
  lemma TraversalIsContent<K, V>(m: HashMap<K, V>, hash: K -> nat, visited: seq<(K, V)>)
    requires Valid(m, hash) && visited == Flatten(m.buckets)
    ensures |visited| == m.size && multiset(visited) == Content(m)
    ensures forall i, j :: 0 <= i < j < |visited| ==> visited[i].0 != visited[j].0
  {
    forall i, j | 0 <= i < j < |visited| ensures visited[i].0 != visited[j].0 {
      if visited[i].0 == visited[j].0 {
        assert visited[i] in Content(m) && visited[j] in Content(m);
        assert visited[i] == visited[j];
        CountedTwice(visited, i, j);
        assert false;
      }
    }
  }

  /** A value at two positions of a sequence is counted at least twice. */
  lemma CountedTwice<T>(s: seq<T>, i: nat, j: nat)
    requires i < j < |s| && s[i] == s[j]
    ensures multiset(s)[s[i]] >= 2
  {
    assert s == s[..j] + s[j..];
    assert s[..j][i] == s[i];
    assert s[j..][0] == s[j];
  }
}
