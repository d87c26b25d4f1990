# pengubco/algorithms in Dafny

A model of the data structures and algorithms of the Go repository
pengubco/algorithms, with proofs of what each promises:

- **Maglev hash** (`Maglev`): the consistent-hash table of the Maglev paper. Node
  names are deduplicated and sorted. Each node gets a preference list that is a
  permutation of the prime number of slots. The lookup table is filled round-robin
  from those lists, and a key is routed through its hash to the owner of its slot.
  The proofs show that every slot is assigned and that any two nodes' shares differ
  by at most one. They also show that routing depends only on the set of node names.
- **Prime numbers** (`Prime`): trial division up to the square root, and the search
  for the next prime. The proofs show that the test decides primality exactly and
  that the search returns the least prime above its argument.
- **Binary search** (`BinarySearch`): lower and upper bound over a half-open range
  under a three-way comparison. Each is proved equal to an independent linear
  definition.
- **Sort and deduplicate** (`Slice`): `SortAndUniq` returns the strictly increasing
  list of the input's values. The result depends only on the set of values.
- **Stack** (`Stack`): a slice-backed stack with a size field, and its errors on
  an empty stack.
- **Union-find** (`UnionFind`): union by rank, path compression and set sizes over
  three arrays. A ghost sequence of representatives states the partition. Each
  operation is related to that partition, and the set sizes stay correct.
- **Range-minimum query** (`RangeMinimum`): the floor-logarithm table, the sparse
  table, and queries that combine two overlapping power-of-two windows. The proofs
  show that every query returns a minimum of its range.
- **Full-tree generator** (`FullTree`): a breadth-first construction of the full
  tree of a given height and degree, with objects linked by parent, children and
  next pointers. The proofs cover BFS numbering, levels, parents, children, next
  links and the size formula.
- **Heaps** (`HeapOrder`, `Heap`): the slice-of-elements heap that three packages
  implement for Go's `container/heap`, and `heap.Push`, `heap.Pop` and `heap.Fix`
  written over it.
- **Priority queue** (`PriorityQueue`), and the **priority map** and **heap set**
  (`PriorityMap`, `HeapSet`, which share `KeyedHeap`): queues over that heap. The
  priority map and the heap set also keep a hash map from key to heap element. Each
  operation is stated on the multiset or map of stored values. Draining by `Pop`
  is proved to return the contents in non-decreasing order.

Every module is a Dafny `module` in its own file. `Wrappers` holds `Option` and
`Result`, which stand for Go's `(v, ok)` and `(v, err)` results. `Orders` holds strict
weak and total orders. `Modular` holds the modular-arithmetic lemmas that the
Maglev permutation proof uses.

## Model

| member | source | states |
|---|---|---|
| `Prime.IsPrime` | prime/prime.go:6-23 | Returns true exactly when `n` is at least 2 and has no divisor strictly between 1 and `n` (the loop bound `sqrt(n) + 1` is stated as `(i - 1)^2 <= n`). |
| `Prime.PrimeBySquareRoot` | prime/prime.go:16-22 | If no candidate below `i` divides `n` and `(i - 1)^2 > n`, then `n` is prime. This is why the trial division may stop at the square root. |
| `Prime.NextPrime` | prime/prime.go:26-32 | Returns the least prime strictly greater than `n`, for every integer `n`. |
| `Prime.PrimeAbove` | prime/prime.go:26-32 | Every integer has a prime above it, so the search terminates. |
| `Prime.NextPrimeUnique` | prime/prime.go:26-32 | The next prime is unique, so any two results agree. |
| `Prime.NextPrimeExamples` | prime/prime_test.go:26-37 | The next primes of 1..10 are 2, 3, 5, 5, 7, 7, 11, 11, 11, 11. Those of 10000 and 100000 are 10007 and 100003. |
| `Prime.TenThousandSevenIsPrime` | maglev_hash/maglev.go:30-34 | The default slot count 10007 is prime. |
| `Maglev.LexLessStrictTotal` | maglev_hash/maglev.go:71 | The lexicographic order on names, which `sort.Strings` uses (by code point here, by byte in Go; they agree on valid UTF-8), is a strict total order. |
| `Maglev.Insert` | maglev_hash/maglev.go:70-71 | Inserting a name into a strictly sorted list keeps it strictly sorted. The result holds exactly the old names and the new one. |
| `Maglev.SortedNodes` | maglev_hash/maglev.go:70-71 | `lo.Uniq` followed by `sort.Strings` gives a strictly sorted list whose names are exactly the input's. |
| `Maglev.SortedNodesOrderIndependent` | maglev_hash/maglev.go:63-71 | Two node lists with the same members give the same sorted node list. |
| `Maglev.SortedNodesCount` | maglev_hash/maglev.go:72 | The node count checked against the slot count is the number of distinct names. |
| `Maglev.Offset` | maglev_hash/maglev.go:128 | A node's offset is the digest of `"<node>:offset"` modulo the slot count, so it is a slot. |
| `Maglev.Skip` | maglev_hash/maglev.go:129 | A node's skip is the digest of `"<node>:skip"` modulo `slotCnt - 1`, plus one, so it lies in `[1, slotCnt)`. |
| `Maglev.PreferenceListIsPermutation` | maglev_hash/maglev.go:119-135 | For a prime slot count, `(offset + j*skip) mod slotCnt` over `j < slotCnt` lists every slot exactly once. |
| `Maglev.PreferencesArePermutations` | maglev_hash/maglev.go:119-135 | Every node's preference list is a permutation of the slots (the promise the test of `buildPreferences` checks). |
| `Maglev.BuildPreferences` | maglev_hash/maglev.go:123-135 | The nested loop builds, for each node in order, the list `(offset + j*skip) mod slotCnt`. |
| `Maglev.NextFree` | maglev_hash/maglev.go:104-108 | The inner `for lookup[c] >= 0` loop stops at the first position from the cursor whose slot is free. Every position it passes is taken. |
| `Maglev.GreedyTableCorrect` | maglev_hash/maglev.go:91-117 | With permutation preference lists, round-robin filling assigns every slot to a node. Node `k` receives `slotCnt / nodeCnt` slots, plus one when `k < slotCnt % nodeCnt`. |
| `Maglev.LoadBalance` | maglev_hash/maglev.go:6-10 | Any two nodes' numbers of slots differ by at most one. |
| `Maglev.StartFill` | maglev_hash/maglev.go:92-100 | The table starts with every slot unassigned (-1) and every cursor at 0. Filling from there gives the greedy table. |
| `Maglev.TakeTurn` | maglev_hash/maglev.go:104-110 | One node's turn assigns it its next free preferred slot and moves its cursor past that slot. |
| `Maglev.Turn` | maglev_hash/maglev.go:103-114 | A turn keeps the filling on track towards the greedy table. |
| `Maglev.Round` | maglev_hash/maglev.go:102-116 | One pass over the nodes either completes the table, which then equals the greedy table, or assigns one slot per node and continues. |
| `Maglev.BuildLookup` | maglev_hash/maglev.go:91-117 | The loop returns exactly the greedy table for the given preference lists. |
| `Maglev.LookupFor` | maglev_hash/maglev.go:81 | The table built from a sorted node list assigns every slot to a node and gives each node its fair share. |
| `Maglev.Built` | maglev_hash/maglev.go:75-82 | A constructed table satisfies the table invariant: prime slot count, nodes strictly sorted, and every slot owned by a node. |
| `Maglev.NewMaglevWithTableSize` | maglev_hash/maglev.go:66-83 | A non-prime slot count fails with `SlotCountNotPrime`. Otherwise zero distinct nodes, or more distinct nodes than slots, fail with `NodeCountOutOfRange`. In every other case the call succeeds with the built table. |
| `Maglev.NewMaglev` | maglev_hash/maglev.go:57-61 | Uses the default slot count, which is prime, so only the node count can make it fail. |
| `Maglev.PrimeNotMultipleOfWord` | maglev_hash/maglev.go:87 | `uint32(slotCnt)` is never zero for a prime slot count, so the modulo in `Node` is defined. |
| `Maglev.Slot` | maglev_hash/maglev.go:87 | The key's slot is its hash modulo the 32-bit-truncated slot count. It is always a slot, and it equals the hash modulo the slot count whenever the count fits in 32 bits. |
| `Maglev.Node` | maglev_hash/maglev.go:85-88 | A key is always routed to one of the stored nodes. |
| `Maglev.NodeOrderIndependent` | maglev_hash/maglev.go:63-65 | Two node lists with the same members build the same table and route every key to the same node. |
| `Maglev.BuiltLoadBalance` | maglev_hash/maglev.go:6-10 | In a constructed table, node `k` owns `slotCnt / nodeCnt` slots, plus one when `k < slotCnt % nodeCnt`. |
| `Maglev.SixDistinctNodes` | maglevhash/maglev_pub_test.go:21 | The six names B0..B5 stay six after deduplication. |
| `Maglev.NewMaglevErrorExamples` | maglevhash/maglev_pub_test.go:15-23 | 10 slots fails as not prime. Six nodes on 5 slots fails as out of range. |
| `Maglev.BuildLookupExampleThreeNodes` | maglev_hash/maglev_test.go:41-57 | The three given preference lists over 7 slots give the table `[1, 0, 1, 0, 2, 2, 0]`. |
| `Maglev.BuildLookupExampleTwoNodes` | maglev_hash/maglev_test.go:59-75 | The two given preference lists over 7 slots give the table `[0, 0, 0, 0, 1, 1, 1]`. |
| `BinarySearch.BinarySearcher.LowerBound` | binary_search/binary_search.go:25-44 | On a non-decreasing range, returns the position in `[first, last]` before which every element is below `val` and from which every element is at least `val`. This is the first position at least `val`. An empty or inverted range returns `first`. |
| `BinarySearch.BinarySearcher.UpperBound` | binary_search/binary_search.go:46-65 | The same with "at most `val`" before and "above `val`" from the position: the first element above `val`. |
| `BinarySearch.FirstAtLeast` | binary_search/binary_search.go:25-29 | The reference definition of the lower bound: the first position whose element is not below `val`, or `last`. |
| `BinarySearch.FirstAbove` | binary_search/binary_search.go:46-50 | The reference definition of the upper bound: the first position whose element is above `val`, or `last`. |
| `BinarySearch.AtLeastFromLowerBound` | binary_search/binary_search.go:25-29 | On a non-decreasing range, every element from the lower bound on is at least `val`. |
| `BinarySearch.AboveFromUpperBound` | binary_search/binary_search.go:46-50 | On a non-decreasing range, every element from the upper bound on is above `val`. |
| `BinarySearch.LowerBelowUpper` | binary_search/binary_search.go:25-65 | The lower bound never exceeds the upper bound. |
| `BinarySearch.IntCompareIsComparator` | binary_search/binary_search_test.go:33 | `v1 - v2` on integers is a valid three-way comparison. |
| `BinarySearch.BoundsExamples` | binary_search/binary_search_test.go:10-38 | The ten cases of the source's test over `[1, 3]` and `[1, 3, 5]`. |
| `Slice.InsertInt` | util/slice.go:9 | Inserting into an ascending list keeps it ascending and adds exactly one occurrence of the value. |
| `Slice.SortInts` | util/slice.go:9 | `sort.Ints` gives an ascending permutation of its input. |
| `Slice.SortIntsSameValues` | util/slice.go:9 | Sorting keeps exactly the input's values. |
| `Slice.DedupStep` | util/slice.go:13-18 | One loop step appends the sorted value only when it differs from the last kept one. This keeps the result strictly increasing and holding exactly the values seen. |
| `Slice.SortAndUniq` | util/slice.go:5-20 | Returns a strictly increasing list that holds exactly the values of the non-empty input. |
| `Slice.SortAndUniqDeterminedBySet` | util/slice.go:5-20 | Two inputs with the same values give the same result. |
| `Slice.SortAndUniqExample` | util/slice_test.go:10-12 | `[3, 1, 1, 2, 3, 2]` gives `[1, 2, 3]`. |
| `Stack.Stack.constructor` | stack/stack.go:29-32 | A new stack is empty. |
| `Stack.Stack.Push` | stack/stack.go:34-38 | The element goes on top, and the elements below stay as they were. |
| `Stack.Stack.Pop` | stack/stack.go:41-50 | An empty stack gives `ErrEmpty` and stays unchanged. Otherwise the top element is returned and removed. |
| `Stack.Stack.Top` | stack/stack.go:53-59 | Fails exactly on an empty stack. Otherwise it gives the last pushed element still present. |
| `Stack.Stack.IsEmpty` | stack/stack.go:61-64 | True exactly when no element is stored. |
| `Stack.Stack.Size` | stack/stack.go:66-69 | The number of stored elements. |
| `Stack.StackExample` | stack/stack_test.go:10-33 | The source's test sequence: errors on an empty stack, then 2, 2, 2, 1, and empty again. |
| `UnionFind.Merged` | union_find/union_find.go:56-71 | The partition after joining set `from` into set `to`: the elements of `from` now have representative `to`, and all others keep theirs. |
| `UnionFind.MergedCount` | union_find/union_find.go:63 | After a merge, set `to` counts the members of both sets. |
| `UnionFind.SingletonsCount` | union_find/union_find.go:33-36 | In the initial partition every set has exactly one member. |
| `UnionFind.SingletonsRepresent` | union_find/union_find.go:27-38 | The arrays `NewUnionFind` fills in (parent `i`, rank 0, size 1) represent `n` singletons. |
| `UnionFind.Compress` | union_find/union_find.go:47-49 | Re-pointing an element at its representative and copying the representative's size keeps the representation. |
| `UnionFind.Link` | union_find/union_find.go:61-70 | Hanging one representative under another of at least its rank, and adding the sizes, represents the merged partition. The rank rises only on a tie. |
| `UnionFind.UnionFind.constructor` | union_find/union_find.go:26-38 | `n` elements, each alone in its own set, with rank 0. |
| `UnionFind.UnionFind.Find` | union_find/union_find.go:45-52 | Returns `x`'s representative and leaves `x` pointing at it. Path compression changes no element's set. |
| `UnionFind.UnionFind.Size` | union_find/union_find.go:40-43 | Returns the number of elements in `x`'s set. |
| `UnionFind.UnionFind.Union` | union_find/union_find.go:54-71 | Afterwards `x` and `y` share a representative. The new partition and ranks are those of union by rank: no change for the same set, the lower rank joins the higher, and on a tie `x`'s set joins `y`'s and `y`'s rank rises. |
| `UnionFind.UnionFind.Hang` | union_find/union_find.go:66-70 | Joining representative `c` under `t` of at least its rank merges the sets and keeps the arrays valid. |
| `UnionFind.UnionFind.Relink` | union_find/union_find.go:66-70 | The three array writes: `c`'s parent becomes `t`, `t`'s size grows by `c`'s, and `t`'s rank rises on a tie. |
| `UnionFind.MergedPreservesCounts` | union_find/union_find.go:56-71 | A merge leaves the size of every other set unchanged. |
| `UnionFind.UnionRoots` | union_find/union_find.go:57-67 | The partition after `Union` of two representatives: unchanged when equal. Otherwise the lower-ranked set joins the other, and on a tie the first joins the second. |
| `UnionFind.UnionRanks` | union_find/union_find.go:68-70 | Only the second representative's rank can change, and it rises by one on a tie between different sets. |
| `UnionFind.MergeEffect` | union_find/union_find.go:56-71 | After a merge, exactly the two sets' elements have representative `to`. Its set counts both sets, `from` has no members, and other sets keep their sizes. |
| `UnionFind.UnionEffect` | union_find/union_find.go:56-71 | Union of two different sets makes the higher-ranked representative, or the second on a tie, represent exactly their members. The other sets are untouched. |
| `UnionFind.UnionFindExample` | union_find/union_find_test.go:10-39 | The source's test on 5 elements: the merged elements share a representative after each union, with set sizes 2, 2, 3 and 5. |
| `RangeMinimum.FloorLog2` | rmq/rmq.go:72-80 | `k = floor(log2(i))`: `2^k <= i < 2^(k+1)`. |
| `RangeMinimum.FloorLog2Unique` | rmq/rmq.go:72-80 | That bracket determines the logarithm. |
| `RangeMinimum.FloorLog2Monotone` | rmq/rmq.go:53 | The logarithm is monotone, so a query's row exists in the table. |
| `RangeMinimum.CalcLog2n` | rmq/rmq.go:73-80 | The recurrence `log2[i] = log2[i/2] + 1` fills every entry from 1 to `n` with `floor(log2(i))`. |
| `RangeMinimum.TableIsMinimum` | rmq/rmq.go:22-24 | Entry `(i, j)` of the sparse table is a minimum of the `2^i` elements from `j`. |
| `RangeMinimum.Combine` | rmq/rmq.go:64-67 | Of minima of two overlapping or touching ranges, the one kept (`a` only when `less(a, b)`) is a minimum of their union. |
| `RangeMinimum.MinimumUnique` | rmq/rmq.go:41 | Under a strict total order a range has exactly one minimum. |
| `RangeMinimum.SparseTable.constructor` | rmq/rmq.go:29-39 | A non-empty slice and a strict weak order give a valid table over that slice. |
| `RangeMinimum.SparseTable.CalcSparseTable` | rmq/rmq.go:51-70 | Builds `floor(log2(n)) + 1` rows of `n` cells, each cell within range holding the sparse-table value. |
| `RangeMinimum.SparseTable.FillRow` | rmq/rmq.go:62-69 | Row `i` is filled from row `i - 1` wherever its window fits. |
| `RangeMinimum.SparseTable.RMQ` | rmq/rmq.go:41-49 | For `0 <= l <= r < n`, returns a minimum of `elements[l..r]`, both ends included. |
| `RangeMinimum.QueryWindows` | rmq/rmq.go:43-44 | The two windows of length `2^floor(log2(r - l + 1))` from `l` and ending at `r` cover `[l, r]`, and their row exists. |
| `RangeMinimum.QueryIsMinimum` | rmq/rmq.go:43-48 | Combining the two windows' entries as the query does gives a minimum of `[l, r]`. |
| `RangeMinimum.RangeMinimumExample` | rmq/rmq_test.go:9-18 | The source's test over `[6, 1, 0, 10, 9]`: 6, 1, 0, 0, 0 and 9. |
| `FullTree.Vertex.constructor` | generator/tree/tree.go:79-84 | A new vertex has the given order, level and parent, no children and no successor. |
| `FullTree.Vertex.IsLeaf` | generator/tree/tree.go:38-40 | A vertex without children. In a built tree this holds exactly on the last level (`FullTree.FullTree.LeafAtBottom`). |
| `FullTree.Vertex.IsRoot` | generator/tree/tree.go:42-44 | A vertex without a parent. In a built tree this holds exactly for vertex 0 (`FullTree.FullTree.ParentOf`). |
| `FullTree.Vertex.IsInternal` | generator/tree/tree.go:46-48 | The corrected `IsInternal`: neither root nor leaf. In a built tree this holds exactly for the vertices other than the root above the last level (`FullTree.FullTree.InternalAt`). |
| `FullTree.Vertex.IsInternalAsWritten` | generator/tree/tree.go:46-48 | `IsInternal` as written, its self-call unrolled `fuel` times: `Some(false)` at the root. For any other vertex it answers `None` at every fuel (`FullTree.IsInternalAsWrittenNeverAnswers`). |
| `FullTree.IsInternalAsWrittenNeverAnswers` | generator/tree/tree.go:46-48 | `IsInternal` as written never answers for a vertex other than the root, however far its self-call is unrolled. |
| `FullTree.FullTree.InternalAt` | generator/tree/tree.go:38-48 | The corrected `IsInternal` (neither root nor leaf) holds exactly for the vertices other than the root above the last level. |
| `FullTree.SizeFormula` | generator/tree/tree.go:11-12 | The vertex count is `(D^H - 1)/(D - 1)` for `D > 1` and `H` for `D = 1`. |
| `FullTree.ChildParent` | generator/tree/tree.go:78-84 | The children of vertex `k` have parent order `(order - 1)/D = k` and one more level. |
| `FullTree.LevelBelow` | generator/tree/tree.go:74-76 | The vertices above level `H` are exactly those numbered below the count of an `H`-level tree. |
| `FullTree.FullTree.Root` | generator/tree/tree.go:96-98 | The root has order 0 and level 0, has no parent, and is first in BFS order. |
| `FullTree.FullTree.Size` | generator/tree/tree.go:100-102 | The stored size is the number of vertices, `(D^H - 1)/(D - 1)`, or `H` when `D = 1`. |
| `FullTree.FullTree.ParentOf` | generator/tree/tree.go:59-86 | Only vertex 0 is a root. Every other vertex's parent has order `(order - 1)/D` and lists it among its children. |
| `FullTree.FullTree.LeafAtBottom` | generator/tree/tree.go:74-77 | Every vertex is above level `H`, and a vertex is a leaf exactly when it is on the last level. |
| `FullTree.FullTree.ChildOf` | generator/tree/tree.go:77-86 | A non-leaf has `D` children, child `j` having order `order*D + j + 1`, one more level, and the vertex as parent. |
| `FullTree.FullTree.NextInOrder` | generator/tree/tree.go:65-73 | `Next` links each vertex to the one of the next BFS order. The last vertex has none. |
| `FullTree.AddChildren` | generator/tree/tree.go:77-86 | Creates the `D` fresh children of the current vertex, numbered on from `order`, and appends them to the queue. |
| `FullTree.Succeed` | generator/tree/tree.go:70-73 | The dequeued vertex becomes the successor of the previous one, and nothing else changes. |
| `FullTree.Visit` | generator/tree/tree.go:68-86 | One turn of the BFS loop keeps the construction's invariant for one more dequeued vertex. |
| `FullTree.NewFullTree` | generator/tree/tree.go:50-94 | A non-positive height or degree fails with that height and degree. Otherwise the result is a fresh tree of that height and degree with the full shape. |
| `FullTree.SizeExamples` | generator/tree/tree_test.go:13-41 | Heights and degrees (1, 1), (1, 2), (2, 3) and (10, 2) give 1, 1, 4 and 1023 vertices. |
| `HeapOrder.Parent` | priority_queue/priority_queue.go:51-66 | The parent index that `container/heap` uses, `(j - 1)/2`, is below `j` and has `j` as one of its two children. |
| `HeapOrder.SwapSeq` | priority_queue/priority_queue.go:110-114 | Exchanging two slots moves exactly those two elements. |
| `HeapOrder.SwapPerm` | priority_queue/priority_queue.go:110-114 | Exchanging two slots keeps the multiset of elements. |
| `HeapOrder.RootMinimal` | priority_queue/priority_queue.go:68-74 | In a heap-ordered slice, no element is less than the root. |
| `HeapOrder.RootIsMinimum` | priority_queue/priority_queue.go:68-74 | No stored value is less than the root, whichever slot holds it. |
| `HeapOrder.UpStep` | priority_queue/priority_queue.go:51-56 | One exchange of `up` with a greater parent moves the only disorder to the parent. |
| `HeapOrder.UpDone` | priority_queue/priority_queue.go:51-56 | `up` stopping at the root, or below a parent that is not greater, leaves the heap ordered. |
| `HeapOrder.DownStep` | priority_queue/priority_queue.go:59-66 | One exchange of `down` with the smaller, lesser child moves the only disorder to that child. |
| `HeapOrder.DownDone` | priority_queue/priority_queue.go:59-66 | `down` stopping leaves the prefix ordered. If it did not move, only the slot's place against its parent is open. |
| `HeapOrder.FixStart` | priority_map/priority_map.go:69-70 | Changing the value in one slot of a heap leaves disorder only at that slot. |
| `Heap.Element.constructor` | priority_map/priority_map.go:135-142 | A new element has the given key and value and slot 0. |
| `Heap.HeapStruct.constructor` | priority_map/priority_map.go:150-154 | A new heap is empty, with the given order. |
| `Heap.HeapStruct.Len` | priority_map/priority_map.go:156-158 | The number of stored elements. |
| `Heap.HeapStruct.Less` | priority_map/priority_map.go:160-162 | Compares the values in two slots with the heap's order. |
| `Heap.HeapStruct.Swap` | priority_map/priority_map.go:164-168 | Exchanges two slots, and both elements record their new slots. |
| `Heap.HeapStruct.Push` | priority_map/priority_map.go:170-175 | Appends an element, which records its slot. |
| `Heap.HeapStruct.Pop` | priority_map/priority_map.go:177-185 | Removes and returns the last element, whose slot becomes -1. |
| `Heap.Up` | priority_queue/priority_queue.go:51-56 | `up` ends with the heap ordered and the same elements and values. |
| `Heap.Down` | priority_queue/priority_queue.go:59-66 | `down` keeps the slots from `n` and the elements. It orders the first `n` when it moved or started at the root, and otherwise changes nothing. |
| `Heap.HeapPush` | priority_queue/priority_queue.go:51-56 | `heap.Push` keeps the heap ordered and adds exactly the new element and its value. |
| `Heap.HeapPop` | priority_queue/priority_queue.go:59-66 | `heap.Pop` returns the former root, whose value no stored value is less than. The heap stays ordered and loses exactly that element. |
| `Heap.HeapFix` | priority_map/priority_map.go:69-70 | `heap.Fix` after a change at one slot orders the heap again with the same elements. |
| `PriorityQueue.PriorityQueue.constructor` | priority_queue/priority_queue.go:43-46 | A new queue is empty and has the given order. |
| `PriorityQueue.NewPriorityQueue` | priority_queue/priority_queue.go:37-48 | Fails exactly when no `less` function is given. Otherwise returns an empty queue with that order. |
| `PriorityQueue.PriorityQueue.Push` | priority_queue/priority_queue.go:50-56 | The value joins the contents. |
| `PriorityQueue.PriorityQueue.Top` | priority_queue/priority_queue.go:68-74 | Fails with `ErrQueueIsEmpty` exactly on an empty queue. Otherwise returns a stored value that no stored value is less than. |
| `PriorityQueue.PriorityQueue.Pop` | priority_queue/priority_queue.go:58-66 | Returns what `Top` returns and removes one occurrence of it. On an empty queue it fails and changes nothing. |
| `PriorityQueue.PriorityQueue.Size` | priority_queue/priority_queue.go:76-79 | The number of stored values, counted with multiplicity. |
| `PriorityQueue.PopSequenceExtend` | priority_queue/priority_queue.go:58-66 | One more `Pop` extends a pop sequence. |
| `PriorityQueue.PopSequenceSorted` | priority_queue/priority_queue_test.go:31-36 | A pop sequence returns stored values, so that together with what is left they are the contents, in non-decreasing order. |
| `PriorityQueue.Drain` | priority_queue/priority_queue_test.go:31-38 | Popping until the queue is empty gives a pop sequence of the old contents and leaves the queue empty. |
| `PriorityQueue.ExamplePopSequence` | priority_queue/priority_queue_test.go:26-36 | Under `<`, the only pop sequence of 10, 20, 5 and 20 is 5, 10, 20, 20. |
| `PriorityQueue.PriorityQueueExample` | priority_queue/priority_queue_test.go:11-39 | The source's test: errors on the empty queue, `Top` of 10, size 4, pops 5, 10, 20, 20, and size 0. |
| `KeyedHeap.MatchesPerm` | priority_map/priority_map.go:69-70 | Reordering the heap's slice keeps it matching the map. |
| `KeyedHeap.MatchesPush` | priority_map/priority_map.go:61-66 | Pushing an element with a new key and entering it in the map keeps them matching. |
| `KeyedHeap.MatchesRemove` | priority_map/priority_map.go:88-96 | Removing an element from the slice and its key from the map keeps them matching. |
| `KeyedHeap.MinimalPair` | priority_map/priority_map.go:101-111 | The root element is a stored pair whose value no stored value is less than. |
| `KeyedHeap.EmptyPairs` | priority_map/priority_map.go:102-104 | Nothing is stored exactly when the heap is empty. |
| `KeyedHeap.InsertNew` | priority_map/priority_map.go:60-67 | `Set` on an absent key adds the pair and keeps the heap and map matching. |
| `KeyedHeap.Update` | priority_map/priority_map.go:69-70 | `Set` on a present key replaces its value and keeps the heap and map matching. |
| `KeyedHeap.SetValue` | priority_map/priority_map.go:69 | The value changes in place in one slot. The heap's order can then break only there. |
| `KeyedHeap.RemoveAt` | priority_map/priority_map.go:89-96 | The swap, pop and fix of `Delete` remove exactly the element in the given slot and keep the heap ordered. |
| `KeyedHeap.RemoveInner` | priority_map/priority_map.go:94-96 | The same for a slot before the last. |
| `KeyedHeap.SwapOut` | priority_map/priority_map.go:94-95 | The last element moves into the slot and the slot's element leaves the heap. |
| `KeyedHeap.Remove` | priority_map/priority_map.go:83-97 | `Delete` removes the key's pair. An absent key changes nothing. |
| `KeyedHeap.RemoveRoot` | priority_map/priority_map.go:115-122 | `Pop` on a non-empty heap removes the root's pair from the heap and the map. |
| `KeyedHeap.PairPopSequenceExtend` | priority_map/priority_map.go:115-122 | One more `Pop` extends a pop sequence of pairs. |
| `KeyedHeap.PairPopSequenceSorted` | priority_map/priority_map_test.go:113-120 | Draining returns stored pairs, each key once and with its stored value, in non-decreasing order of value. Every stored key is either popped or left behind, so the popped and remaining pairs together are the old contents. |
| `PriorityMap.PriorityMap.constructor` | priority_map/priority_map.go:47-55 | A new map stores nothing and has the given order. |
| `PriorityMap.PriorityMap.Set` | priority_map/priority_map.go:57-71 | Afterwards the key maps to `v`, whether or not it was present. The other pairs stay. |
| `PriorityMap.PriorityMap.Replace` | priority_map/priority_map.go:69-70 | The present key's value is replaced in place. |
| `PriorityMap.PriorityMap.Add` | priority_map/priority_map.go:60-67 | The new element's pair is added. |
| `PriorityMap.PriorityMap.Get` | priority_map/priority_map.go:73-80 | Finds a value exactly when the key is stored, and then it is the stored value. |
| `PriorityMap.PriorityMap.Delete` | priority_map/priority_map.go:82-97 | The key's pair is gone, and the other pairs stay. |
| `PriorityMap.PriorityMap.Top` | priority_map/priority_map.go:99-111 | Returns nothing exactly when the map is empty. Otherwise it returns a stored pair whose value no stored value is less than. |
| `PriorityMap.PriorityMap.Pop` | priority_map/priority_map.go:113-122 | Returns what `Top` returns and removes that key. On an empty map it changes nothing. |
| `PriorityMap.PriorityMap.Size` | priority_map/priority_map.go:124-127 | The number of stored pairs. |
| `PriorityMap.Drain` | priority_map/priority_map_test.go:113-120 | Popping until the map is empty gives a pop sequence of its old pairs and leaves it empty. |
| `PriorityMap.SinglePairExample` | priority_map/priority_map_test.go:15-41 | The source's single-pair test: `Top` gives ("a", 1) with size 1, `Get` gives 10 after the update, and after `Delete` the size is 0 and `Get`, `Pop` and `Top` find nothing. |
| `PriorityMap.PopTriple` | priority_map/priority_map_test.go:43-62 | Draining `a`, `c` at 20 and `b` at 10 gives (`b`, 10) first, then 20 twice, once with `a` and once with `c`. |
| `PriorityMap.DuplicateValuesExample` | priority_map/priority_map_test.go:43-62 | The source's duplicate-values test with keys "a", "b" and "c". |
| `HeapSet.HeapSet.constructor` | heapset/heap_set.go:42-50 | A new set stores nothing and has the given order. |
| `HeapSet.HeapSet.Set` | heapset/heap_set.go:52-66 | Afterwards the key maps to `v`, whether or not it was present. The other pairs stay. |
| `HeapSet.HeapSet.Replace` | heapset/heap_set.go:64-65 | The present key's value is replaced in place. |
| `HeapSet.HeapSet.Add` | heapset/heap_set.go:55-62 | The new element's pair is added. |
| `HeapSet.HeapSet.Get` | heapset/heap_set.go:68-75 | Finds a value exactly when the key is stored, and then it is the stored value. |
| `HeapSet.HeapSet.Delete` | heapset/heap_set.go:77-92 | The key's pair is gone, and the other pairs stay. |
| `HeapSet.HeapSet.Top` | heapset/heap_set.go:94-106 | Returns nothing exactly when the set is empty. Otherwise it returns a stored pair whose value no stored value is less than. |
| `HeapSet.HeapSet.Pop` | heapset/heap_set.go:108-117 | Returns what `Top` returns and removes that key. On an empty set it changes nothing. |
| `HeapSet.HeapSet.Size` | heapset/heap_set.go:119-122 | The number of stored pairs. |
| `HeapSet.Drain` | heapset/heap_set_test.go:90-97 | Popping until the set is empty gives a pop sequence of its old pairs and leaves it empty. |
| `HeapSet.SinglePairExample` | heapset/heap_set_test.go:13-39 | The source's single-pair test, as for the priority map. |

## Left out

- Hashing: the MD5 digest of node names and the key hash (CRC32 by default) are foreign code. They are parameters (`Digest`, `KeyHashFn`), so the model proves the table's properties for every hash function.
- `md5StringToModulo`: its arbitrary-precision modulo is the `nat` digest reduced with `%`. The hex round trip through `big.Int` is not modelled.
- `Prime.IsPrime`: the floating-point `math.Sqrt(n) + 1` bound is stated as the exact integer condition `(i - 1)^2 <= n` that the truncated float bound expresses. Rounding of large floats is not modelled.
- The `isPrime` copy in maglev_hash/maglev.go:137-154 is the same code as prime/prime.go and is modelled once, as `Prime.IsPrime`.
- Go's `int` is 64 bits. The model's integers are unbounded, so overflow for counts or values near `2^63` is not modelled. The one 32-bit conversion (`uint32(slotCnt)` in `Node`) is written out in `Maglev.Slot`.
- The statistical load-balance and disruption test (maglevhash/maglev_pub_test.go:25-121) and the analysis program maglev_hash/analysis/main.go measure a hash function on a million keys. The model proves the exact shares instead, and says nothing about disruption.
- Most of `TestBuildPreferences` (maglev_hash/maglev_test.go:12-39) concerns the real MD5. Its promise, that each list is a permutation, is `Maglev.PreferencesArePermutations`.
- `sort.Ints`, `sort.Strings` and `lo.Uniq` are library code. They are specified by their results (ascending permutation, strictly sorted set of names) and written as insertion.
- `Slice.SortAndUniq`: requires a non-empty input, because the source reads `tmp[0]` unguarded and panics on an empty slice.
- `RangeMinimum.SparseTable.constructor`: requires a non-empty slice, because `calcLog2n(0)` writes `log2[1]` into a one-entry slice and panics. `RangeMinimum.SparseTable.RMQ` requires the documented range `0 <= l <= r < n`. Outside it the source either panics or returns a meaningless value: with `r == l - 1` it reads `log2[0] == 0` and returns the smaller of `elements[l - 1]` and `elements[l]`, and with `r == n` it can read cells of `st` that `calcSparseTable` never fills and that still hold Go's zero value. The model does not capture those values.
- Node names: Go strings are byte strings and `sort.Strings` compares bytes. The model's names are Dafny strings, sequences of Unicode characters, and `Maglev.LexLess` compares code points. The two orders agree on valid UTF-8. Names that are not valid UTF-8 are not modelled.
- `RangeMinimum.SparseTable.FillRow` writes each cell once, with the minimum the query combination picks. The source (rmq/rmq.go:64-67) first writes the right half's minimum and then overwrites it with the left half's when that is less. The final value is the same, but the intermediate write is not modelled.
- `BinarySearch`: `cnt >> 1` on the non-negative count is written as `/ 2`.
- Stack: the package comment calls the stack "First-In-First-Out". The code is last-in-first-out, and the model follows the code.
- Go's zero values `emptyK`, `emptyV` and the `ok` flag are modelled as `Option`. The `(V, error)` results are modelled as `Result`.
- `NewPriorityMap`, `NewHeapSet`, the priority queue and `RangeMinimum.SparseTable.constructor` require `less` to be a strict weak order, and `BinarySearch.BinarySearcher.LowerBound` and `BinarySearch.BinarySearcher.UpperBound` require `compare` to be a three-way comparison of a total preorder (`Comparator`). Go checks neither, but without them the results promise nothing. `heap.Init` on the empty heap does nothing and is left out.
- `PriorityMap.Map` (priority_map/priority_map.go:129-133) exposes the internal map for iteration. It returns an alias to mutable state and is left out.
- `PriorityMap.PriorityMap.Set`, `PriorityMap.PriorityMap.Delete`, `PriorityMap.PriorityMap.Pop` and their `HeapSet` counterparts: the model updates the key map before or after the heap operation, as the proof needs. The source's order differs, but the map and the heap do not depend on each other within one call, so the end state is the same.
- `container/heap` is standard-library code. Its `up`, `down`, `Push`, `Pop` and `Fix` are written out from Go's published algorithm in `Heap`.
- The priority queue's element has no key. It is the shared `Heap.Element` with the key type `()`.
- `TestPriorityMap_Simple_Pairs`, `TestHeapSet_Simple_Pairs` (26 keys) and the `CompositeV` tests (100 jobs ordered by time) are covered by the general ordering lemma `PairPopSequenceSorted`, not case by case. `time.Now()` is not modelled.
- The benchmarks, the example programs and the redis comparison client are not part of this model.
- `TestPriorityQueue_CustomizedType` (priority_queue/priority_queue_test.go:41-69) orders jobs by time. It is an instance of `PopSequenceSorted` under a strict weak order with ties, and is not replayed.
- `TestXxx` (prime/prime_test.go:39-44) expects `NextPrime(n) == 1` for `n` in 100, 200, 500, 1000 and 5000. The code returns a prime above `n`, and the model follows the code.
- `FullTree.FullTree.Height` and `FullTree.FullTree.Degree` only return the stored parameters. Their values are fixed by `NewFullTree`'s contract.
- `FullTree`: the `Tree` interface (generator/tree/tree.go:6-9) has one implementation, and the model uses that class directly.

## Findings

| source | as written | input that shows it | evidently intended | confidence | as-written member | corrected member |
|---|---|---|---|---|---|---|
| generator/tree/tree.go:46-48 | `IsInternal` returns `!v.IsRoot() && !v.IsInternal()`: it calls itself instead of `IsLeaf` | any vertex other than the root, e.g. vertex 1 of `NewFullTree(2, 1)`: the call recurses until the stack overflows | `!v.IsRoot() && !v.IsLeaf()` | high (not executed) | `FullTree.Vertex.IsInternalAsWritten` (`FullTree.IsInternalAsWrittenNeverAnswers`) | `FullTree.Vertex.IsInternal` (`FullTree.FullTree.InternalAt`) |
