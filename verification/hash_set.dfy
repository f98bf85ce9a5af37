/**
  The open-addressing hash set: a fixed array of slots, quadratic probing with a
  cumulative step, and tombstones left behind by removals.

  The hash of a key is a parameter `home` whose every value lies below the capacity
  (the original maps a key into [0, 1) and scales it by the capacity). The two probe
  loops of the original carry no termination argument, so each walk here takes a
  `fuel` bound; running out of fuel is reported as `Diverges`.
 */
module OpenAddressing {
  import opened Outcomes
  import Ratios

  /** One line of the table: never used, holding a live key, or a tombstone that
      still remembers the key it held. */
  datatype Slot = Empty | Live(key: int) | Tomb(key: int)

  datatype HashSet = HashSet(slots: seq<Slot>, size: nat)

  datatype SetError = Overflow | Diverges

  const DefaultCapacity: nat := 100
  const MaxOccupancy: real := 0.7

  /** A slot where placement may stop: not occupied, or already holding `key`. */
  predicate IsExpectedPlace(s: Slot, key: int) {
    !s.Live? || s.key == key
  }

  /** A slot a search walks through: occupied or deleted. */
  predicate IsIntermediate(s: Slot) {
    s.Live? || s.Tomb?
  }

  /** A slot where a search stops: never used, or live with an equal key. */
  predicate StopsSearch(s: Slot, key: int) {
    !IsIntermediate(s) || (!s.Tomb? && s.key == key)
  }

  ghost predicate HomeInRange(home: int -> nat, capacity: nat) {
    forall k :: home(k) < capacity
  }

  /** One probe step: `place + i*i` reduced by the capacity. */
  function NextProbe(place: nat, i: nat, capacity: nat): (r: nat)
    requires capacity > 0
    ensures r < capacity
  {
    (place + i * i) % capacity
  }

  /** The slot reached after `n` probe steps from `start` when the step counter starts at `i`. */
  function ProbeAt(start: nat, i: nat, n: nat, capacity: nat): (r: nat)
    requires capacity > 0 && start < capacity
    ensures r < capacity
    decreases n
  {
    if n == 0 then start else ProbeAt(NextProbe(start, i, capacity), i + 1, n - 1, capacity)
  }

  /** Sum of the squares i*i, (i+1)*(i+1), ..., of `n` consecutive counters. */
  function SquareSum(i: nat, n: nat): nat
    decreases n
  {
    if n == 0 then 0 else i * i + SquareSum(i + 1, n - 1)
  }

  lemma MulSign(m: int, c: int)
    requires c > 0
    ensures m >= 1 ==> m * c >= c
    ensures m <= -1 ==> m * c <= -c
  {
    if m >= 1 {
      assert m * c == (m - 1) * c + c;
    } else if m <= -1 {
      assert m * c == (m + 1) * c - c;
    }
  }

  lemma ModUnique(x: int, c: int, q: int, r: int)
    requires c > 0 && 0 <= r < c && x == q * c + r
    ensures x % c == r
  {
    var q', r' := x / c, x % c;
    assert (q - q') * c == r' - r;
    MulSign(q - q', c);
  }

  lemma ModAddLeft(a: nat, b: nat, c: nat)
    requires c > 0
    ensures (a % c + b) % c == (a + b) % c
  {
    var y := a % c + b;
    ModUnique(a + b, c, a / c + y / c, y % c);
  }

  /** The probe positions are h, h+1, h+1+4, h+1+4+9, ... modulo the capacity. */
  lemma {:induction false} ProbeClosedForm(start: nat, i: nat, n: nat, capacity: nat)
    requires capacity > 0 && start < capacity
    ensures ProbeAt(start, i, n, capacity) == (start + SquareSum(i, n)) % capacity
    decreases n
  {
    if n == 0 {
      ModUnique(start, capacity, 0, start);
    } else {
      var sq := i * i;
      var next := NextProbe(start, i, capacity);
      var rest := SquareSum(i + 1, n - 1);
      ProbeClosedForm(next, i + 1, n - 1, capacity);
      ModAddLeft(start + sq, rest, capacity);
      calc {
        ProbeAt(start, i, n, capacity);
        ProbeAt(next, i + 1, n - 1, capacity);
        (next + rest) % capacity;
        ((start + sq) % capacity + rest) % capacity;
        (start + sq + rest) % capacity;
      }
    }
  }

  /** Walking n steps and then m more is walking n + m steps with the same counter. */
  lemma {:induction false} ProbeSplit(start: nat, i: nat, n: nat, m: nat, capacity: nat)
    requires capacity > 0 && start < capacity
    ensures ProbeAt(start, i, n + m, capacity) == ProbeAt(ProbeAt(start, i, n, capacity), i + n, m, capacity)
    decreases n
  {
    if n > 0 {
      ProbeSplit(NextProbe(start, i, capacity), i + 1, n - 1, m, capacity);
    }
  }

  /** `getPlacement`: the number of probe steps from `place` to the first slot that is
      not occupied or already holds `key`. */
  function PlacementSteps(slots: seq<Slot>, key: int, place: nat, i: nat, fuel: nat): (r: Option<nat>)
    requires 0 < |slots| && place < |slots|
    ensures r.Some? ==> r.value <= fuel && IsExpectedPlace(slots[ProbeAt(place, i, r.value, |slots|)], key)
    ensures r.Some? ==> forall m: nat :: m < r.value ==> !IsExpectedPlace(slots[ProbeAt(place, i, m, |slots|)], key)
    ensures r.None? ==> forall m: nat :: m <= fuel ==> !IsExpectedPlace(slots[ProbeAt(place, i, m, |slots|)], key)
    decreases fuel
  {
    if IsExpectedPlace(slots[place], key) then Some(0)
    else if fuel == 0 then None
    else match PlacementSteps(slots, key, NextProbe(place, i, |slots|), i + 1, fuel - 1)
      case None => None
      case Some(n) => Some(n + 1)
  }

  /** The walk of `search`: the number of probe steps from `start` to the first slot
      that is never used or holds `key` live. Tombstones are walked through. */
  function SearchSteps(slots: seq<Slot>, key: int, start: nat, i: nat, fuel: nat): (r: Option<nat>)
    requires 0 < |slots| && start < |slots|
    ensures r.Some? ==> r.value <= fuel && StopsSearch(slots[ProbeAt(start, i, r.value, |slots|)], key)
    ensures r.Some? ==> forall m: nat :: m < r.value ==> !StopsSearch(slots[ProbeAt(start, i, m, |slots|)], key)
    ensures r.None? ==> forall m: nat :: m <= fuel ==> !StopsSearch(slots[ProbeAt(start, i, m, |slots|)], key)
    decreases fuel
  {
    if StopsSearch(slots[start], key) then Some(0)
    else if fuel == 0 then None
    else match SearchSteps(slots, key, NextProbe(start, i, |slots|), i + 1, fuel - 1)
      case None => None
      case Some(n) => Some(n + 1)
  }

  /** `search`: the slot holding `key` live, or the capacity when the walk reaches a
      never-used slot. */
  function Search(slots: seq<Slot>, key: int, start: nat, i: nat, fuel: nat): (r: Option<nat>)
    requires 0 < |slots| && start < |slots|
    ensures r.Some? ==> r.value <= |slots|
    ensures r.Some? && r.value < |slots| ==> slots[r.value] == Live(key)
    ensures r.None? <==> SearchSteps(slots, key, start, i, fuel).None?
  {
    match SearchSteps(slots, key, start, i, fuel)
    case None => None
    case Some(n) =>
      var p := ProbeAt(start, i, n, |slots|);
      if slots[p].Empty? then Some(|slots|) else Some(p)
  }

  /** Every slot visited before step `n` of the walk was in use (live or tombstone). */
  ghost predicate InUseBefore(slots: seq<Slot>, start: nat, i: nat, n: nat)
    requires 0 < |slots| && start < |slots|
  {
    forall m: nat :: m < n ==> !slots[ProbeAt(start, i, m, |slots|)].Empty?
  }

  /** Every live key sits on its own probe sequence behind slots that are all in use,
      so a search for it cannot stop early. */
  ghost predicate Reachable(slots: seq<Slot>, home: int -> nat)
    requires 0 < |slots| && HomeInRange(home, |slots|)
  {
    forall p :: 0 <= p < |slots| && slots[p].Live? ==>
      exists n: nat :: ProbeAt(home(slots[p].key), 1, n, |slots|) == p && InUseBefore(slots, home(slots[p].key), 1, n)
  }

  ghost predicate UniqueLive(slots: seq<Slot>) {
    forall p, q :: 0 <= p < q < |slots| && slots[p].Live? && slots[q].Live? ==> slots[p].key != slots[q].key
  }

  function CountLive(slots: seq<Slot>): nat
  {
    if |slots| == 0 then 0
    else CountLive(slots[..|slots| - 1]) + (if slots[|slots| - 1].Live? then 1 else 0)
  }

  ghost function Keys(slots: seq<Slot>): set<int> {
    set p | 0 <= p < |slots| && slots[p].Live? :: slots[p].key
  }

  ghost function EmptySlots(slots: seq<Slot>): set<nat> {
    set p | 0 <= p < |slots| && slots[p].Empty?
  }

  /** The invariant the set keeps between calls. */
  ghost predicate Valid(t: HashSet, home: int -> nat) {
    && 0 < |t.slots|
    && HomeInRange(home, |t.slots|)
    && t.size == CountLive(t.slots)
    && UniqueLive(t.slots)
    && Reachable(t.slots, home)
  }

  /** The constructor: every line starts neither occupied nor deleted. A capacity of 0
      is left out (the original would divide by zero on the first insert). */
  function New(capacity: nat): (t: HashSet)
    requires capacity > 0
    ensures |t.slots| == capacity && t.size == 0
    ensures Keys(t.slots) == {}
    ensures forall p :: 0 <= p < capacity ==> p in EmptySlots(t.slots)
  {
    HashSet(seq(capacity, _ => Empty), 0)
  }

  lemma {:induction false} CountAllEmpty(slots: seq<Slot>)
    requires forall p :: 0 <= p < |slots| ==> slots[p].Empty?
    ensures CountLive(slots) == 0
  {
    if |slots| > 0 {
      CountAllEmpty(slots[..|slots| - 1]);
    }
  }

  lemma NewIsValid(capacity: nat, home: int -> nat)
    requires capacity > 0 && HomeInRange(home, capacity)
    ensures Valid(New(capacity), home) && Keys(New(capacity).slots) == {}
  {
    CountAllEmpty(New(capacity).slots);
  }

  /** The default constructor: an empty, well-formed table of `DefaultCapacity` lines. */
  lemma DefaultNewIsValid(home: int -> nat)
    requires HomeInRange(home, DefaultCapacity)
    ensures Valid(New(DefaultCapacity), home)
    ensures |New(DefaultCapacity).slots| == DefaultCapacity && Keys(New(DefaultCapacity).slots) == {}
  {
    NewIsValid(DefaultCapacity, home);
  }

  /** The guard compares the integer quotient size/capacity with 0.7, so it fires
      exactly when the table is completely full. */
  lemma OccupancyGuard(size: nat, capacity: nat)
    requires capacity > 0
    ensures ((size / capacity) as real >= MaxOccupancy) <==> size >= capacity
  {
    if size >= capacity {
      assert size / capacity >= 1;
    } else {
      assert size / capacity == 0;
    }
  }

  /** The body of `insert` past its occupancy guard: places `key` at the first slot
      of its probe walk that is free or already holds it, unless the rest of the walk
      (past a tombstone) finds the key live further on. */
  function Place(t: HashSet, key: int, home: int -> nat, fuel: nat): (r: Result<(HashSet, bool), SetError>)
    requires Valid(t, home)
    ensures r.Err? ==> r.error == Diverges
    ensures r.Ok? && !r.value.1 ==> r.value.0 == t
  {
    match PlacementSteps(t.slots, key, home(key), 1, fuel)
    case None => Err(Diverges)
    case Some(n) =>
      var place := ProbeAt(home(key), 1, n, |t.slots|);
      match Search(t.slots, key, place, 1 + n, fuel)
      case None => Err(Diverges)
      case Some(found) =>
        if found != |t.slots| then Ok((t, false))
        else Ok((HashSet(t.slots[place := Live(key)], t.size + 1), true))
  }

  /** `insert` as written: the guard divides the two unsigned sizes before comparing
      with 0.7, so it refuses only a completely full table. */
  function Insert(t: HashSet, key: int, home: int -> nat, fuel: nat): (r: Result<(HashSet, bool), SetError>)
    requires Valid(t, home)
    ensures r == Err(Overflow) <==> t.size >= |t.slots|
    ensures r.Ok? && !r.value.1 ==> r.value.0 == t
  {
    OccupancyGuard(t.size, |t.slots|);
    if (t.size / |t.slots|) as real >= MaxOccupancy then Err(Overflow)
    else Place(t, key, home, fuel)
  }

  /** `insert` with the guard its constant intends: the occupancy ratio itself is
      compared with 0.7. */
  function InsertBounded(t: HashSet, key: int, home: int -> nat, fuel: nat): (r: Result<(HashSet, bool), SetError>)
    requires Valid(t, home)
    ensures r == Err(Overflow) <==> 10 * t.size >= 7 * |t.slots|
    ensures r.Ok? && !r.value.1 ==> r.value.0 == t
  {
    Ratios.AtLeastSevenTenths(t.size, |t.slots|);
    if (t.size as real) / (|t.slots| as real) >= MaxOccupancy then Err(Overflow)
    else Place(t, key, home, fuel)
  }

  /** On a table with nine of its ten slots live the written guard lets an insertion
      through at occupancy 0.9; the intended guard refuses it. */
  lemma NinetyPercentAccepted(t: HashSet, key: int, home: int -> nat, fuel: nat)
    requires Valid(t, home) && |t.slots| == 10 && t.size == 9
    ensures Insert(t, key, home, fuel) != Err(Overflow)
    ensures InsertBounded(t, key, home, fuel) == Err(Overflow)
  {
  }

  /** The step bound only decides whether an answer is reached: a bound large enough to
      reach one gives the same answer as any larger bound. */
  lemma {:induction false} SearchStepsMonotone(slots: seq<Slot>, key: int, start: nat, i: nat, fuel: nat, fuel': nat)
    requires 0 < |slots| && start < |slots| && fuel <= fuel'
    requires SearchSteps(slots, key, start, i, fuel).Some?
    ensures SearchSteps(slots, key, start, i, fuel') == SearchSteps(slots, key, start, i, fuel)
    ensures Search(slots, key, start, i, fuel') == Search(slots, key, start, i, fuel)
    decreases fuel
  {
    if !StopsSearch(slots[start], key) {
      SearchStepsMonotone(slots, key, NextProbe(start, i, |slots|), i + 1, fuel - 1, fuel' - 1);
    }
  }

  /** `remove`: searches from the key's home slot with the default counter 1 and turns
      the slot it finds into a tombstone. */
  function Remove(t: HashSet, key: int, home: int -> nat, fuel: nat): (r: Result<(HashSet, bool), SetError>)
    requires Valid(t, home)
    ensures r.Ok? && !r.value.1 ==> r.value.0 == t
    ensures r.Err? ==> r.error == Diverges
  {
    match Search(t.slots, key, home(key), 1, fuel)
    case None => Err(Diverges)
    case Some(p) =>
      if p == |t.slots| then Ok((t, false))
      else
        CountUpdate(t.slots, p, Tomb(key));
        Ok((HashSet(t.slots[p := Tomb(key)], t.size - 1), true))
  }

  lemma {:induction false} CountUpdate(slots: seq<Slot>, p: nat, s: Slot)
    requires p < |slots|
    ensures CountLive(slots[p := s]) + (if slots[p].Live? then 1 else 0)
         == CountLive(slots) + (if s.Live? then 1 else 0)
    decreases |slots|
  {
    var u := slots[p := s];
    var last := |slots| - 1;
    assert u[..last] == if p < last then slots[..last][p := s] else slots[..last];
    if p < last {
      CountUpdate(slots[..last], p, s);
    }
  }

  lemma InUseMonotone(a: seq<Slot>, b: seq<Slot>, start: nat, i: nat, n: nat)
    requires 0 < |a| == |b| && start < |a|
    requires forall q :: 0 <= q < |a| && !a[q].Empty? ==> !b[q].Empty?
    requires InUseBefore(a, start, i, n)
    ensures InUseBefore(b, start, i, n)
  {
    forall m: nat | m < n
      ensures !b[ProbeAt(start, i, m, |b|)].Empty?
    {
      assert !a[ProbeAt(start, i, m, |a|)].Empty?;
    }
  }

  /** A search that sets out along a walk of in-use slots ending at the live key cannot
      report a miss, and with enough fuel it finds the key. */
  lemma SearchReachesLive(slots: seq<Slot>, key: int, start: nat, i: nat, n: nat, fuel: nat)
    requires 0 < |slots| && start < |slots|
    requires InUseBefore(slots, start, i, n)
    requires slots[ProbeAt(start, i, n, |slots|)] == Live(key)
    ensures Search(slots, key, start, i, fuel) != Some(|slots|)
    ensures fuel >= n ==> Search(slots, key, start, i, fuel).Some?
  {
    var c := |slots|;
    var stop := ProbeAt(start, i, n, c);
    assert StopsSearch(slots[stop], key);
    match SearchSteps(slots, key, start, i, fuel)
    case None =>
    case Some(s) =>
      assert s <= n;
      assert s < n ==> !slots[ProbeAt(start, i, s, c)].Empty?;
  }

  /** A walk from the key's home that meets a never-used slot before any live copy of
      the key proves the key is absent from the whole table. */
  lemma AbsentWhenWalkMisses(t: HashSet, key: int, home: int -> nat, steps: nat)
    requires Valid(t, home)
    requires t.slots[ProbeAt(home(key), 1, steps, |t.slots|)].Empty?
    requires forall m: nat :: m < steps ==> t.slots[ProbeAt(home(key), 1, m, |t.slots|)] != Live(key)
    ensures forall p :: 0 <= p < |t.slots| ==> t.slots[p] != Live(key)
    ensures key !in Keys(t.slots)
  {
    var c := |t.slots|;
    forall p | 0 <= p < c && t.slots[p].Live?
      ensures t.slots[p].key != key
    {
      var k := t.slots[p].key;
      var n: nat :| ProbeAt(home(k), 1, n, c) == p && InUseBefore(t.slots, home(k), 1, n);
      assert n < steps ==> t.slots[ProbeAt(home(key), 1, n, c)] != Live(key);
      assert n > steps ==> !t.slots[ProbeAt(home(k), 1, steps, c)].Empty?;
    }
  }

  /** What a search from the key's home answers: the slot of the key when present, the
      capacity when absent; only lack of fuel leaves it undecided. */
  lemma SearchFromHome(t: HashSet, key: int, home: int -> nat, fuel: nat)
    requires Valid(t, home)
    ensures Search(t.slots, key, home(key), 1, fuel) == Some(|t.slots|) ==> key !in Keys(t.slots)
    ensures forall p :: Search(t.slots, key, home(key), 1, fuel) == Some(p) && p < |t.slots| ==> t.slots[p] == Live(key) && key in Keys(t.slots)
  {
    match SearchSteps(t.slots, key, home(key), 1, fuel)
    case None =>
    case Some(s) =>
      if t.slots[ProbeAt(home(key), 1, s, |t.slots|)].Empty? {
        AbsentWhenWalkMisses(t, key, home, s);
      }
  }

  /** A present key is found by a search from its home given enough fuel. */
  lemma PresentKeyIsFound(t: HashSet, key: int, home: int -> nat) returns (fuel: nat)
    requires Valid(t, home)
    requires key in Keys(t.slots)
    ensures Search(t.slots, key, home(key), 1, fuel).Some?
    ensures Search(t.slots, key, home(key), 1, fuel).value < |t.slots|
  {
    var p :| 0 <= p < |t.slots| && t.slots[p].Live? && t.slots[p].key == key;
    var n: nat :| ProbeAt(home(key), 1, n, |t.slots|) == p && InUseBefore(t.slots, home(key), 1, n);
    fuel := n;
    SearchReachesLive(t.slots, key, home(key), 1, n, fuel);
  }

  /** The placement walk followed by the resumed search walk is one walk from the home
      slot: it passes only slots other than a live copy of `key`, and the placement part
      passes only slots in use. */
  lemma ResumedWalk(slots: seq<Slot>, key: int, h: nat, fuel: nat, n: nat, s: nat)
    requires 0 < |slots| && h < |slots|
    requires PlacementSteps(slots, key, h, 1, fuel) == Some(n)
    requires SearchSteps(slots, key, ProbeAt(h, 1, n, |slots|), 1 + n, fuel) == Some(s)
    ensures forall m: nat :: m < n + s ==> slots[ProbeAt(h, 1, m, |slots|)] != Live(key)
    ensures ProbeAt(h, 1, n + s, |slots|) == ProbeAt(ProbeAt(h, 1, n, |slots|), 1 + n, s, |slots|)
    ensures InUseBefore(slots, h, 1, n)
  {
    var c := |slots|;
    ProbeSplit(h, 1, n, s, c);
    PlacementPassed(slots, key, h, fuel, n);
    forall m: nat | n <= m < n + s
      ensures slots[ProbeAt(h, 1, m, c)] != Live(key)
    {
      ResumedStep(slots, key, h, fuel, n, s, m);
    }
  }

  /** The slots the placement walk passes are in use by other keys. */
  lemma PlacementPassed(slots: seq<Slot>, key: int, h: nat, fuel: nat, n: nat)
    requires 0 < |slots| && h < |slots|
    requires PlacementSteps(slots, key, h, 1, fuel) == Some(n)
    ensures forall m: nat :: m < n ==> slots[ProbeAt(h, 1, m, |slots|)] != Live(key)
    ensures InUseBefore(slots, h, 1, n)
  {
    forall m: nat | m < n
      ensures slots[ProbeAt(h, 1, m, |slots|)] != Live(key) && !slots[ProbeAt(h, 1, m, |slots|)].Empty?
    {
      assert !IsExpectedPlace(slots[ProbeAt(h, 1, m, |slots|)], key);
    }
  }

  lemma ResumedStep(slots: seq<Slot>, key: int, h: nat, fuel: nat, n: nat, s: nat, m: nat)
    requires 0 < |slots| && h < |slots|
    requires SearchSteps(slots, key, ProbeAt(h, 1, n, |slots|), 1 + n, fuel) == Some(s)
    requires n <= m < n + s
    ensures slots[ProbeAt(h, 1, m, |slots|)] != Live(key)
  {
    var c, k := |slots|, m - n;
    ProbeSplit(h, 1, n, k, c);
    assert n + k == m;
    assert !StopsSearch(slots[ProbeAt(ProbeAt(h, 1, n, c), 1 + n, k, c)], key);
  }

  /** Placement keeps the invariant, adds exactly `key`, reports whether it was new,
      and never turns a slot back into a never-used one. */
  lemma PlaceCorrect(t: HashSet, key: int, home: int -> nat, fuel: nat)
    requires Valid(t, home)
    requires Place(t, key, home, fuel).Ok?
    ensures var (t', inserted) := Place(t, key, home, fuel).value;
      && Valid(t', home)
      && (inserted <==> key !in Keys(t.slots))
      && Keys(t'.slots) == Keys(t.slots) + {key}
      && t'.size == t.size + (if inserted then 1 else 0)
      && EmptySlots(t'.slots) <= EmptySlots(t.slots)
  {
    var c := |t.slots|;
    var n := PlacementSteps(t.slots, key, home(key), 1, fuel).value;
    var place := ProbeAt(home(key), 1, n, c);
    var found := Search(t.slots, key, place, 1 + n, fuel).value;
    if found != c {
      assert t.slots[found] == Live(key);
      return;
    }
    var s := SearchSteps(t.slots, key, place, 1 + n, fuel).value;
    ResumedWalk(t.slots, key, home(key), fuel, n, s);
    AbsentWhenWalkMisses(t, key, home, n + s);
    assert t.slots[place] != Live(key);
    PlaceNewKey(t, key, home, place, n);
  }

  /** `insert` as written, when it succeeds, keeps the invariant and adds exactly `key`. */
  lemma InsertCorrect(t: HashSet, key: int, home: int -> nat, fuel: nat)
    requires Valid(t, home)
    requires Insert(t, key, home, fuel).Ok?
    ensures var (t', inserted) := Insert(t, key, home, fuel).value;
      && Valid(t', home)
      && (inserted <==> key !in Keys(t.slots))
      && Keys(t'.slots) == Keys(t.slots) + {key}
      && t'.size == t.size + (if inserted then 1 else 0)
  {
    PlaceCorrect(t, key, home, fuel);
  }

  /** The bounded `insert`, when it succeeds, does the same and leaves the occupancy
      below 0.7 plus one key. */
  lemma InsertBoundedCorrect(t: HashSet, key: int, home: int -> nat, fuel: nat)
    requires Valid(t, home)
    requires InsertBounded(t, key, home, fuel).Ok?
    ensures var (t', inserted) := InsertBounded(t, key, home, fuel).value;
      && Valid(t', home)
      && (inserted <==> key !in Keys(t.slots))
      && Keys(t'.slots) == Keys(t.slots) + {key}
      && t'.size == t.size + (if inserted then 1 else 0)
      && 10 * t'.size < 7 * |t'.slots| + 10
  {
    PlaceCorrect(t, key, home, fuel);
  }

  /** Writing an absent key into a free slot at the end of its in-use probe walk keeps
      the invariant. */
  lemma PlaceNewKey(t: HashSet, key: int, home: int -> nat, place: nat, n: nat)
    requires Valid(t, home)
    requires forall p :: 0 <= p < |t.slots| ==> t.slots[p] != Live(key)
    requires place == ProbeAt(home(key), 1, n, |t.slots|) && !t.slots[place].Live?
    requires InUseBefore(t.slots, home(key), 1, n)
    ensures var t' := HashSet(t.slots[place := Live(key)], t.size + 1);
      && Valid(t', home)
      && Keys(t'.slots) == Keys(t.slots) + {key}
      && EmptySlots(t'.slots) <= EmptySlots(t.slots)
  {
    var c := |t.slots|;
    var u := t.slots[place := Live(key)];
    CountUpdate(t.slots, place, Live(key));
    assert Keys(u) == Keys(t.slots) + {key} by {
      forall k ensures k in Keys(u) <==> k in Keys(t.slots) + {key} {
        if k in Keys(t.slots) {
          var p :| 0 <= p < c && t.slots[p].Live? && t.slots[p].key == k;
          assert u[p].Live? && u[p].key == k;
        }
        assert u[place].Live? && u[place].key == key;
      }
    }
    assert UniqueLive(u) by {
      forall p, q | 0 <= p < q < c && u[p].Live? && u[q].Live?
        ensures u[p].key != u[q].key
      {
        if p != place && q != place {
          assert t.slots[p] == u[p] && t.slots[q] == u[q];
        } else if p == place {
          assert u[q] == t.slots[q];
        } else {
          assert u[p] == t.slots[p];
        }
      }
    }
    assert Reachable(u, home) by {
      forall p | 0 <= p < c && u[p].Live?
        ensures exists w: nat :: ProbeAt(home(u[p].key), 1, w, c) == p && InUseBefore(u, home(u[p].key), 1, w)
      {
        var w: nat;
        if p == place {
          w := n;
        } else {
          assert u[p] == t.slots[p];
          w :| ProbeAt(home(u[p].key), 1, w, c) == p && InUseBefore(t.slots, home(u[p].key), 1, w);
        }
        InUseMonotone(t.slots, u, home(u[p].key), 1, w);
      }
    }
  }

  /** `remove` keeps the invariant, takes out exactly `key`, reports whether it was
      present, and leaves a tombstone rather than a never-used slot. */
  lemma RemoveCorrect(t: HashSet, key: int, home: int -> nat, fuel: nat)
    requires Valid(t, home)
    requires Remove(t, key, home, fuel).Ok?
    ensures var (t', removed) := Remove(t, key, home, fuel).value;
      && Valid(t', home)
      && (removed <==> key in Keys(t.slots))
      && Keys(t'.slots) == Keys(t.slots) - {key}
      && t'.size + (if removed then 1 else 0) == t.size
      && EmptySlots(t'.slots) == EmptySlots(t.slots)
  {
    var c := |t.slots|;
    SearchFromHome(t, key, home, fuel);
    var p := Search(t.slots, key, home(key), 1, fuel).value;
    if p == c {
      return;
    }
    LeaveTombstone(t, key, home, p);
  }

  /** Turning the live slot of `key` into a tombstone keeps the invariant, since the
      set of never-used slots does not change. */
  lemma LeaveTombstone(t: HashSet, key: int, home: int -> nat, p: nat)
    requires Valid(t, home)
    requires p < |t.slots| && t.slots[p] == Live(key)
    ensures t.size > 0
    ensures var t' := HashSet(t.slots[p := Tomb(key)], t.size - 1);
      && Valid(t', home)
      && Keys(t'.slots) == Keys(t.slots) - {key}
      && EmptySlots(t'.slots) == EmptySlots(t.slots)
  {
    var c := |t.slots|;
    var u := t.slots[p := Tomb(key)];
    CountUpdate(t.slots, p, Tomb(key));
    assert Keys(u) == Keys(t.slots) - {key} by {
      forall k ensures k in Keys(u) <==> k in Keys(t.slots) - {key} {
        if k in Keys(t.slots) - {key} {
          var q :| 0 <= q < c && t.slots[q].Live? && t.slots[q].key == k;
          assert u[q] == t.slots[q];
        }
        if k in Keys(u) {
          var q :| 0 <= q < c && u[q].Live? && u[q].key == k;
          assert q != p && u[q] == t.slots[q];
        }
      }
    }
    assert EmptySlots(u) == EmptySlots(t.slots);
    assert Reachable(u, home) by {
      forall q | 0 <= q < c && u[q].Live?
        ensures exists w: nat :: ProbeAt(home(u[q].key), 1, w, c) == q && InUseBefore(u, home(u[q].key), 1, w)
      {
        assert u[q] == t.slots[q];
        var w: nat :| ProbeAt(home(u[q].key), 1, w, c) == q && InUseBefore(t.slots, home(u[q].key), 1, w);
        InUseMonotone(t.slots, u, home(u[q].key), 1, w);
      }
    }
    assert UniqueLive(u) by {
      forall a, b | 0 <= a < b < c && u[a].Live? && u[b].Live?
        ensures u[a].key != u[b].key
      {
        assert u[a] == t.slots[a] && u[b] == t.slots[b];
      }
    }
  }

  /** Removing one key never hides another: the survivor is still found from its home. */
  lemma TombstoneKeepsOthersReachable(t: HashSet, a: int, b: int, home: int -> nat, fuel: nat) returns (searchFuel: nat)
    requires Valid(t, home)
    requires Remove(t, a, home, fuel).Ok?
    requires a != b && b in Keys(t.slots)
    ensures var t' := Remove(t, a, home, fuel).value.0;
      && Search(t'.slots, b, home(b), 1, searchFuel).Some?
      && Search(t'.slots, b, home(b), 1, searchFuel).value < |t'.slots|
  {
    RemoveCorrect(t, a, home, fuel);
    var t' := Remove(t, a, home, fuel).value.0;
    searchFuel := PresentKeyIsFound(t', b, home);
  }
}
