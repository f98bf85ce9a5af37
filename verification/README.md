# Containers from a C++ study collection, modelled in Dafny

This project models seven small C++ containers and proves what each one promises:

- an open-addressing hash set of keys with quadratic probing and tombstones (module `OpenAddressing`);
- a separate-chaining hash map with prepending insertion, growth at load factor 0.7 and a forward iterator (module `ChainedMap`, with the shared bucket-array traversal in `Buckets`);
- a stand-alone forward iterator over an array of bucket chains (module `HashIterators`);
- a binary search tree with parent links, iterative search, successor walks, range counting and a breadth-first walk over a ring-buffer queue (module `SearchTree`);
- a sorted doubly linked "dictionary" list with set operations (module `Dictionary`);
- a fixed-size ring-buffer queue (module `RingQueue`);
- a linked-list stack (module `Stacks`).

`Outcomes` holds `Option` and `Result`. A thrown exception becomes an `Err` value. `Ratios` relates the real-valued test `a / b >= 0.7` to integer arithmetic.

Pointers become values:

- A singly linked chain is a `seq`, read from the head.
- A bucket array is a `seq<seq<_>>`.
- A node pointer in a chain is the pair (bucket, position). A null pointer is `None` or `End`.
- A parent-linked tree is an immutable `Tree` together with a path of `Frame`s back to the root. The walk from a node to its parent, its successor or its insertion point is a step along that path.

Every operation is a function or method with a contract. It is paired with one of:

- a lemma connecting it to an abstract meaning:
  - the set of keys, or the multiset of stored pairs;
  - the in-order sequence of a tree;
  - the contents of a queue from head to tail;
- its inverse;
- an invariant it keeps.

Two places in the source read differently from what they evidently intend. See "## Findings". Both behaviours are modelled: as written, and corrected.

## Model

| member | source | states |
|---|---|---|
| OpenAddressing.NewIsValid | hashSet.cpp:3-7 | A new table of any positive capacity holds no key. It satisfies the table invariant: the size counts the live lines, live keys are distinct, and every live key is reachable from its home line through used lines. |
| OpenAddressing.New | hashSet.cpp:3-7 | The constructor allocates `capacity` lines, all unoccupied and not deleted, with size 0 and no key held. |
| OpenAddressing.DefaultNewIsValid | hashSet.h:8 | The default-constructed set has 100 lines, holds no key and satisfies the table invariant. |
| OpenAddressing.ProbeClosedForm | hashSet.cpp:63-71 | After n steps of the cumulative quadratic probe that starts with step i, the line reached is `start + i² + (i+1)² + … + (i+n-1)²`, reduced by the capacity. |
| OpenAddressing.PlacementSteps | hashSet.cpp:63-71 | The placement walk stops at the first probed line that is unused, a tombstone, or holds the key. Every line before it is live with another key. With no such line within the bound, none exists among those probed. |
| OpenAddressing.SearchSteps | hashSet.cpp:73-84 | The search walk stops at the first probed line that was never used or holds the key live. Every line passed is occupied or a tombstone and does not hold the key live. |
| OpenAddressing.Search | hashSet.cpp:73-84 | The search answers either "not found" (the capacity) or a line that holds the key live. It gives no answer exactly when the walk finds no stopping line within the step bound. |
| OpenAddressing.SearchStepsMonotone | hashSet.cpp:73-84 | The step bound only decides whether the search reaches an answer: once a bound reaches one, every larger bound gives the same walk length and the same answer. |
| OpenAddressing.SearchFromHome | hashSet.cpp:73-84 | In a valid table, a search from the key's home that answers "not found" is right: the key is not in the set. A line it returns holds the key. |
| OpenAddressing.PresentKeyIsFound | hashSet.cpp:73-84 | Every key the set holds is found by the search from its home line. |
| OpenAddressing.OccupancyGuard | hashSet.cpp:88-91 | The occupancy check compares an integer quotient with 0.7, so it fires exactly when size ≥ capacity. |
| OpenAddressing.Insert | hashSet.cpp:86-103 | Insertion as written: overflow is reported exactly when size ≥ capacity. A refused duplicate leaves the table unchanged. |
| OpenAddressing.InsertCorrect | hashSet.cpp:86-103 | An accepted insertion keeps the invariant. It returns true exactly when the key was absent. The keys become old keys ∪ {key}, and the size grows by one exactly when it returns true. |
| OpenAddressing.PlaceCorrect | hashSet.cpp:92-102 | Placing at the first free or tombstone line, after the duplicate search from there, has the effect above. It never turns a tombstone back into an unused line, so the set of unused lines only shrinks. |
| OpenAddressing.Place | hashSet.cpp:92-102 | The placement either diverges (the only error) or reports whether it stored the key; when it reports false the table is left exactly as it was. |
| OpenAddressing.InsertBounded | hashSet.cpp:86-91 | Corrected guard: overflow exactly when size/capacity ≥ 0.7. |
| OpenAddressing.InsertBoundedCorrect | hashSet.cpp:86-103 | The corrected insertion has the same effect as InsertCorrect. After it, occupancy is below 0.7·capacity + 1. |
| OpenAddressing.Remove | hashSet.cpp:105-116 | Removing a missing key leaves the table unchanged. The only failure is a search that finds no stopping line within the step bound. |
| OpenAddressing.RemoveCorrect | hashSet.cpp:105-116 | Removal keeps the invariant. It returns true exactly when the key was present. The keys lose exactly that key, the size drops by one on success, and the unused lines stay the same, because a tombstone is left. |
| OpenAddressing.TombstoneKeepsOthersReachable | hashSet.cpp:105-116 | After one key is removed, every other key still held is found by a search from its home. |
| Ratios.AtLeastSevenTenths | hash_map.h:339 | For a positive whole, `part / whole >= 0.7` over the reals holds exactly when `10·part ≥ 7·whole`. |
| ChainedMap.New | hash_map.h:206-215 | Capacity 0 is refused with invalid_argument. Any other capacity gives an empty map of `capacity / 0.7 + 1` buckets (the quotient truncated). |
| ChainedMap.NewIsValid | hash_map.h:206-215 | A new map satisfies the map invariant: every pair lies in its key's home bucket, keys are distinct, and size counts the pairs. The requested capacity fits under the maximum load factor. |
| ChainedMap.LoadCheckIsRatio | hash_map.h:339 | The integer load test agrees with `loadFactor() >= 0.7`. |
| ChainedMap.Home | hash_map.h:359-363 | The bucket of a key is an index into the array. |
| ChainedMap.FindInChain | hash_map.h:475-481 | The walk down a chain returns the first node carrying the key, and no earlier node carries it. It returns nothing exactly when the key is absent from the chain. |
| ChainedMap.Find | hash_map.h:472-483 | A found iterator points into the key's home bucket, at a node carrying the key. |
| ChainedMap.FindCorrect | hash_map.h:472-483 | In a valid map, find returns end() exactly when the key is absent. A found node is one of the stored pairs. |
| ChainedMap.PresentIsFound | hash_map.h:472-483 | Every stored pair is found by its key. |
| ChainedMap.Rebuild | hash_map.h:260-268 | Re-inserting the pairs into a fresh array puts each one in its home bucket and keeps exactly the same multiset of pairs. |
| ChainedMap.Resize | hash_map.h:260-271 | Resizing is refused exactly for size 0, by the constructor it uses. |
| ChainedMap.ResizeCorrect | hash_map.h:260-271 | Resizing keeps the invariant, the stored pairs, the keys and the size. The new bucket count is `newSize / 0.7`, truncated, plus one. |
| ChainedMap.Rehash | hash_map.h:315-318 | Rehashing succeeds exactly for a non-empty map. |
| ChainedMap.RehashCorrect | hash_map.h:315-318 | A rehashed map holds the same pairs and is valid, with buckets sized for twice the size. |
| ChainedMap.Reserve | hash_map.h:321-327 | Reserving at most the current size changes nothing. Reserving more sizes the array for the requested capacity. |
| ChainedMap.ReserveCorrect | hash_map.h:321-327 | Reserving keeps the invariant, the pairs and the size. |
| ChainedMap.Copy | hash_map.h:274-286 | The copy constructor succeeds exactly when the source is non-empty. |
| ChainedMap.Move | hash_map.h:242-246 | The move constructor hands the whole bucket array to the new map. The source is left with no buckets, size 0 and no pairs, breaks the map invariant, and is refused by the copy constructor. |
| ChainedMap.CopyCorrect | hash_map.h:274-286 | Copying an empty map throws invalid_argument. A copy of a non-empty map is valid and holds the same pairs. |
| ChainedMap.CopyAnySizeCorrect | hash_map.h:274-286 | Corrected copy: every map, the empty one included, copies to a valid map with the same pairs, keys and size. |
| ChainedMap.GrownForCorrect | hash_map.h:339-342 | The array an insertion writes to, grown or not, is valid and holds the same pairs, keys and size. |
| ChainedMap.Insert | hash_map.h:332-347 | The returned iterator points at a node carrying the key. A refused insertion leaves the map unchanged. |
| ChainedMap.Subscript | hash_map.h:500-503 | `operator[]` leaves the map valid with its key set grown by exactly `key`, and the value returned is the one stored with `key` in the resulting map (the default when the key was absent). |
| ChainedMap.InsertCorrect | hash_map.h:332-347 | Insertion keeps the invariant and returns true exactly for a new key. A new pair is added to the contents, the size grows by one, and the iterator points at the new pair. For a present key the iterator points at the stored pair. The keys become old keys ∪ {key}. |
| ChainedMap.PrependCorrect | hash_map.h:343-345 | Prepending a new pair to its home chain keeps the invariant and adds exactly that pair. |
| ChainedMap.EraseFromChain | hash_map.h:380-397 | Unlinking from a chain removes exactly the first node carrying the key, and nothing when none does. |
| ChainedMap.Erase | hash_map.h:372-399 | A failed erase leaves the map unchanged. |
| ChainedMap.EraseCorrect | hash_map.h:372-399 | Erase keeps the invariant and returns true exactly when the key was present. The key leaves the key set, the size drops by one, and exactly the pair carrying the key leaves the contents. |
| ChainedMap.UnlinkCorrect | hash_map.h:383-392 | Unlinking any node keeps the invariant and removes exactly that node's pair and key. |
| ChainedMap.EraseAt | hash_map.h:402-409 | Erasing through end() does nothing and returns false. Erasing through a node erases that node's key. |
| ChainedMap.EraseAtCorrect | hash_map.h:402-409 | Erasing through a valid iterator succeeds and removes exactly the pair it points at. |
| ChainedMap.At | hash_map.h:518-526 | A failed `at` is out_of_range. |
| ChainedMap.AtCorrect | hash_map.h:518-526 | `at` fails exactly for an absent key, and returns v exactly when (key, v) is stored. |
| ChainedMap.SubscriptCorrect | hash_map.h:500-503 | `operator[]` on a present key changes nothing and yields its value. On an absent key it inserts (key, default) and yields the default. |
| ChainedMap.ConstSubscript | hash_map.h:506-515 | The const `operator[]` yields the stored value, or the default for an absent key. |
| ChainedMap.ConstSubscriptCorrect | hash_map.h:506-515 | On a valid map the const `operator[]` yields the value stored with the key, and the static default exactly when the key is absent. |
| ChainedMap.Clear | hash_map.h:218-225 | Clearing keeps the bucket count and leaves no pairs and size 0. |
| ChainedMap.ClearIsValid | hash_map.h:218-225 | A cleared map is valid and has no keys. |
| ChainedMap.InsertKeepsLoadBounded | hash_map.h:332-347 | Insertion keeps the load below 0.7 of the bucket count plus one pair. |
| ChainedMap.LoadFactor | hash_map.h:308-312 | The load factor is non-negative and reaches 0.7 exactly when the integer load check used by insertion fires. |
| ChainedMap.EraseKeepsLoadBounded | hash_map.h:372-399 | Erase keeps that load bound. |
| ChainedMap.Begin | hash_map.h:441-451 | begin() is end() or a node of the map. |
| ChainedMap.Next | hash_map.h:132-155 | `++` on end() stays at end(), and otherwise lands on a node of the map or end(). |
| ChainedMap.Traverse | hash_map.h:132-155 | Iterating from begin() with `++` until end() visits every pair once: bucket by bucket, each chain from its head. |
| ChainedMap.TraversalIsContent | hash_map.h:194-197 | In a valid map, the pairs the full traversal visits number size(), are exactly the stored pairs, and never repeat a key. |
| HashIterators.Default | HashIterator.h:43-47 | A default iterator has all three pointers null. |
| HashIterators.Increment | HashIterator.h:62-84 | On a node with a successor in its chain, `++` moves to that successor and needs no bucket pointers. Otherwise the bucket pointer moves strictly forward but not past the end, and the iterator lands on the head of that bucket, or on null exactly when the bucket pointer has reached the end. |
| HashIterators.PostIncrement | HashIterator.h:87-92 | Postfix `++` returns the iterator as it was and leaves it advanced; like `++`, it needs bucket pointers only when the current chain is exhausted. |
| HashIterators.Deref | HashIterator.h:95-99 | Dereferencing yields the element at the node's position in the bucket-by-bucket traversal, so an element stored in the buckets. |
| HashIterators.EqualityIsNodeIdentity | HashIterator.h:109-118 | Two iterators are equal exactly when they stand on the same node. `!=` is the negation of `==`, equality is symmetric, and all null iterators are equal. |
| HashIterators.Equal | HashIterator.h:109-113 | Equal iterators are both at the end or both on a node, and any two iterators at the end compare equal. |
| HashIterators.NotEqual | HashIterator.h:115-119 | `!=` is exactly the negation of `==`. |
| HashIterators.IncrementIsStep | HashIterator.h:62-84 | On an iterator whose bucket pointer matches its node, `++` is the shared bucket-array successor step, and the iterator stays consistent. |
| HashIterators.Start | HashIterator.h:50-59 | The three-pointer constructor, applied to the first non-empty bucket as a container's begin() does, gives a consistent iterator standing on the first node. |
| HashIterators.Traverse | HashIterator.h:62-84 | Advancing from the first node until null visits every node of the buckets before end once, in bucket order. |
| Stacks.Empty | Stack.h:35-37 | A new stack is empty. |
| Stacks.IsEmpty | Stack.h:151-155 | A stack reports empty exactly when pop would be refused on it. |
| Stacks.Push | Stack.h:132-135 | After a push the stack is non-empty and one longer. |
| Stacks.Pop | Stack.h:138-148 | pop fails exactly on an empty stack, and otherwise shortens it by one. |
| Stacks.PushPop | Stack.h:132-148 | Popping right after pushing x yields x and the stack as it was. |
| Stacks.PopPush | Stack.h:132-148 | Pushing back what was popped restores the stack. |
| Stacks.PushAllIsLifo | Stack.h:132-148 | After a series of pushes, the elements lie top-down in reverse push order over the old stack. |
| Stacks.Clear | Stack.h:123-129 | clear leaves the stack empty. |
| Stacks.Copy | Stack.h:39-57 | The copy has the same elements in the same order. |
| Stacks.Move | Stack.h:70-74 | A move transfers the elements and leaves the source empty. |
| RingQueue.NextIndex | Queue.h:149-152 | The ring index after i is i+1, or 0 after the last cell. |
| RingQueue.New | Queue.h:64-75 | Size 0 is refused with WrongQueueSize. Any other size gives an empty queue over that many cells. |
| RingQueue.NewDefault | Queue.h:64-75 | The default-constructed queue is valid, empty, and has 100 cells. |
| RingQueue.IsEmpty | Queue.h:227-230 | The empty flag is set exactly when nothing is queued. |
| RingQueue.EnQueue | Queue.h:199-208 | enQueue fails only with QueueOverflow, and keeps the ring indices valid. |
| RingQueue.DeQueue | Queue.h:211-224 | deQueue fails only with QueueUnderflow, and keeps the ring indices valid. |
| RingQueue.EnQueueCorrect | Queue.h:199-208 | enQueue overflows exactly when all cells are in use. Otherwise the element goes behind those queued. |
| RingQueue.DeQueueCorrect | Queue.h:211-224 | deQueue underflows exactly on an empty queue. Otherwise it yields the oldest element and the rest stay in order (FIFO). |
| RingQueue.ExactlySizeFit | Queue.h:199-204 | A queue holding `size` elements refuses any further element with QueueOverflow. |
| RingQueue.Copy | Queue.h:77-96 | A moved-from source (no cells) cannot be copied. Otherwise the copy has the same size and the same queued elements in order. |
| RingQueue.Move | Queue.h:98-102 | The move constructor hands the ring to the new queue. The source is reset to no cells, indices 0 and the empty flag set, which breaks the queue invariant and is a state only the copy constructor accepts (and refuses). |
| Dictionary.FirstNotLess | DictionaryList.h:43-49 | The walk from the head stops at the first element not less than x, or past the tail, and every element passed is below x. |
| Dictionary.FirstNotLessSplits | DictionaryList.h:43-49 | In a sorted list the stop point splits the elements below x from the rest. x is present exactly when it stands there. |
| Dictionary.InsertItem | DictionaryList.h:184-195 | A refused insertion leaves the list unchanged. |
| Dictionary.InsertItemCorrect | DictionaryList.h:184-195 | Insertion keeps the list strictly increasing and returns true exactly for a new value. The elements become old ∪ {x}, and the list grows by one on success. |
| Dictionary.InsertAt | DictionaryList.h:32-41 | Linking x in before the first larger element keeps the list sorted and adds exactly x. |
| Dictionary.RemoveAt | DictionaryList.h:51-72 | Unlinking a node keeps the list sorted and drops exactly its value. |
| Dictionary.SearchItem | DictionaryList.h:197-200 | A positive search means the value is present. |
| Dictionary.SearchItemCorrect | DictionaryList.h:197-200 | On a sorted list the search is true exactly when the value is present. |
| Dictionary.DeleteItem | DictionaryList.h:202-209 | A failed deletion leaves the list unchanged. A successful one shortens it by one. |
| Dictionary.DeleteItemCorrect | DictionaryList.h:202-209 | Deletion keeps the list sorted, returns true exactly when the value was present, and removes exactly that value. |
| Dictionary.Intersection | DictionaryList.h:245-249 | The intersection of two sorted lists is sorted and holds exactly the values in both. |
| Dictionary.Merge | DictionaryList.h:251-258 | Merging another sorted list keeps this one sorted and makes it hold exactly the values of either. |
| Dictionary.DeleteItems | DictionaryList.h:260-266 | Deleting another list's values keeps this one sorted and leaves exactly its values that the other lacks. |
| Dictionary.Copy | DictionaryList.h:151-167 | Copy assignment, to which the copy constructor delegates, reproduces the elements in order. |
| SearchTree.SearchTreeIffSorted | BinarySearchTree.h:352-360 | A tree is a search tree exactly when its in-order walk is strictly increasing. |
| SearchTree.Descend | BinarySearchTree.h:120-141 | Descending never alters the tree, and a node it stops at holds the value looked for. |
| SearchTree.SearchFinds | BinarySearchTree.h:120-141 | In a search tree, the descent stops at a node exactly when the value is present. All values on its left are smaller and all on its right larger. |
| SearchTree.SearchIterative | BinarySearchTree.h:144-147 | In a search tree, searchIterative is true exactly when the value is present. |
| SearchTree.Insert | BinarySearchTree.h:205-226 | A refused insertion leaves the tree unchanged. |
| SearchTree.InsertCorrect | BinarySearchTree.h:205-226 | Insertion keeps the search-tree order and returns true exactly for a new value. The values become old ∪ {x}, the node count grows by one, and the new value is a leaf that search reaches. |
| SearchTree.SizeIsCount | BinarySearchTree.h:315-328 | The node count equals the length of the in-order walk. For a search tree it equals the number of distinct values. |
| SearchTree.RemoveMax | BinarySearchTree.h:165-175 | Taking out the maximum leaves the in-order walk minus its last element. |
| SearchTree.RemoveMin | BinarySearchTree.h:178-188 | Taking out the minimum leaves the in-order walk minus its first element. |
| SearchTree.Splice | BinarySearchTree.h:191-202 | Replacing a node's value by its successor and unlinking the successor's source node leaves its two subtrees' walks joined. |
| SearchTree.SpliceOut | BinarySearchTree.h:229-259 | Splicing a node out of a search tree, wherever it sits, keeps the order. It removes exactly its value and one node. |
| SearchTree.Remove | BinarySearchTree.h:262-273 | A failed removal leaves the tree unchanged. |
| SearchTree.RemoveCorrect | BinarySearchTree.h:262-273 | Removal keeps the search-tree order and returns true exactly when the value was present. It removes exactly that value, and one node on success. |
| SearchTree.PathWithinHeight | BinarySearchTree.h:331-348 | No path from the root that ends on a node is longer than getHeight(). |
| SearchTree.DeepestPath | BinarySearchTree.h:331-348 | Some path of exactly getHeight() steps from the root ends at a leaf. |
| SearchTree.SizeWithinLevels | BinarySearchTree.h:331-338 | A tree with k levels has at least k and fewer than 2^k nodes. |
| SearchTree.Pow2Iterative | BinarySearchTree.h:437-446 | The doubling loop computes 2^degree. |
| SearchTree.MinPos | BinarySearchTree.h:178-188 | The minimum of a subtree is a node with no left child, and nothing precedes it in that subtree. |
| SearchTree.Climb | BinarySearchTree.h:380-395 | Climbing while the node is a right child reaches the next node in order, or null when nothing follows. |
| SearchTree.GetNext | BinarySearchTree.h:398-406 | getNext yields the in-order successor, or null exactly after the last node. |
| SearchTree.NextIsLarger | BinarySearchTree.h:398-406 | In a search tree the successor holds a larger value. |
| SearchTree.InOrderWalkIterative | BinarySearchTree.h:410-418 | Starting at the minimum and following getNext visits the in-order walk. On a search tree that walk is increasing. |
| SearchTree.FirstNotLess | BinarySearchTree.h:464-482 | searchFirstNotLess returns a node of the tree, or null. |
| SearchTree.FirstNotLessCorrect | BinarySearchTree.h:464-482 | In a search tree, a node returned holds a value ≥ x and every earlier value is below x. Null means every value is below x. |
| SearchTree.CountNodesBetween | BinarySearchTree.h:485-495 | The count is the number of stored values v with low ≤ v ≤ high. |
| SearchTree.EnqueueChildren | BinarySearchTree.h:422-434 | Processing a node queues its non-null children, left first, behind those already waiting. |
| SearchTree.ProcessNode | BinarySearchTree.h:422-434 | One round of the walk visits the root of the front subtree and puts its non-empty children behind the waiting subtrees, within the queue's room. Each stored value stays either visited or waiting, exactly once, and the work left shrinks. |
| SearchTree.LevelStep | BinarySearchTree.h:450-461 | With room 2^height for every waiting subtree, queueing a node's children never overflows. The room needed never grows. |
| SearchTree.WalkByLevels | BinarySearchTree.h:450-461 | The breadth-first walk over a queue of size pow2(getHeight()) never overflows or underflows, and visits every stored value once. |
| SearchTree.Clear | BinarySearchTree.h:74-90 | A cleared tree has no values and no nodes. |

## Left out

- Hash-set hashing. `normalize` and `hash` work on doubles: they strip the sign, divide by ten until below one, and scale by the capacity. They are a parameter `home` whose values lie below the capacity. Keys are integers, since only equality of keys matters to the set.
- OpenAddressing.New: capacity 0 is excluded. The original accepts it and then divides by zero on the first insertion.
- OpenAddressing.Search: the probe loops of `getPlacement` and `search` may never end (quadratic probing does not visit every line). Each walk takes a step bound, and exhausting it is the `Diverges` error of `Search`, `Remove` and the insertions. `Diverges` means only that no stopping line lies within the bound. No bound is proved large enough to tell a walk that never ends from one that is merely long, but a larger bound never changes an answer already reached (`SearchStepsMonotone`).
- OpenAddressing.ProbeClosedForm: the probe arithmetic is unbounded. `i * i` and the sum wrap in `size_t` only after more than 2^32 steps, which the step bound excludes in practice.
- The hash set's `print` functions and all `operator<<` / `output` / `reversePrint` / `printLower` / `isLeaf` printing: output only.
- Move constructors and move assignments of the hash set, the tree and the dictionary list; `swap`, `assignZero`, `assignOther`, `removeContainer` and destructors. They only transfer or release ownership of memory, which values do not have. The move constructors of the map, the stack and the queue are modelled as `ChainedMap.Move`, `Stacks.Move` and `RingQueue.Move`. The dictionary list's move assignment also lacks a `return` (undefined behaviour in C++), which is not modelled.
- Move assignments of the map (hash_map.h:248-256), the stack (Stack.h:76-86) and the queue (Queue.h:112-120): apart from self-assignment, each releases the target's old storage and leaves both objects as the move constructor does, so their effect is `Move`'s. The self-assignment guards compare addresses (the stack's compares head pointers), and values have no identity to compare.
- Copy assignment operators of the map, the queue and the stack: each builds the copy the copy constructor builds and swaps it in. The list is the other way round: its copy constructor delegates to copy assignment, and both are `Dictionary.Copy`.
- ChainedMap: `size()` and `empty()` are the `size` field. `emplace` is `insert` of the pair. `erase(const_iterator)`, `cbegin`, `cend`, the const `find` and `operator->` behave as their non-const forms. unique_ptr.h is not part of this model, since owned chains are sequences.
- ChainedMap.InsertKeepsLoadBounded: the load is checked before the new pair is added, so the map may hold one pair above 0.7 of its bucket count. The bound proved is the one the code keeps, not "at most 0.7".
- ChainedMap.BucketCountFor: `capacity / 0.7` in double precision, truncated, is taken to be `capacity * 10 / 7`. Rounding of the double quotient near exact multiples is not modelled.
- `operator->` of both iterators, the const iterator of the map, and the iterator's private constructor: same node as `operator*`.
- Exception messages (`what()` strings) are not modelled. Only which exception is thrown.
- SearchTree and Dictionary store `int` values. The originals are templates over any type with `<` and `==`.
- SearchTree.WalkByLevels: states that every value is visited exactly once (as a multiset) and that the queue never overflows. It does not state the level-by-level order.
- SearchTree.Pow2Iterative: integers are unbounded. In `size_t`, `pow2` wraps to 0 for a height of 64 or more, and the queue constructor then refuses size 0. That needs a degenerate tree of 65 or more nodes.
- SearchTree.Height has no contract of its own. `PathWithinHeight` and `DeepestPath` characterise it.
- HashIterators: only the arithmetic of pointers into one bucket array is modelled. Iterators into different arrays are not compared.
- Dictionary: `clear` empties the list; it is not given its own member. `pushBack`, `insertBefore` and the private `deleteItem(Node*)` are the sequence updates inside `InsertItem` and `DeleteItem`.

## Findings

| source | as written | input that shows it | evidently intended | confidence | as-written member | corrected member |
|---|---|---|---|---|---|---|
| hashSet.cpp:88 | `size_ / capacity_` divides two `size_t` values, so the quotient is 0 until the table is full, and the comparison with 0.7 fires only when size ≥ capacity | capacity 10 holding 9 keys: a tenth insertion is accepted at occupancy 0.9 | refuse insertion once size/capacity reaches 0.7 | not executed | OpenAddressing.NinetyPercentAccepted | OpenAddressing.InsertBoundedCorrect |
| hash_map.h:277 | the copy constructor builds its temporary with `rhs.size()` as capacity, and the capacity constructor throws on 0 | copying a default-constructed, empty map throws invalid_argument | every map, the empty one included, can be copied | not executed | ChainedMap.DefaultMapCopyRefused | ChainedMap.CopyAnySizeCorrect |
