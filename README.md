# Algorithms_Tests core in Dafny

This project models the algorithmic core of the C++ benchmark program
`Algorythms_Tests`:

- its growable array `Vektor`;
- the binary `MinHeap`;
- the union-find structure `UnionJoinSet`;
- the `EdgeTriple` record;
- the two graph representations, `GraphList` (adjacency lists) and
  `GraphMatrix` (incidence matrix);
- the minimum-spanning-tree algorithms of Prim and Kruskal, each on both
  representations;
- the shortest-path algorithms of Dijkstra and Ford-Bellman, each on both
  representations;
- the four sorts (insertion, binary insertion, heap, randomized quick) and
  the `isSorted` check.

One module per source file:

- `Vektors`, `MinHeaps`, `UnionFind` and `EdgeTriples` hold the containers.
- `GraphLists` and `GraphMatrices` hold the graphs.
- `PrimList`, `PrimMatrix`, `KruskalList`, `KruskalMatrix`, `DijkstraList`,
  `DijkstraMatrix`, `FordBellmanList` and `FordBellmanMatrix` hold the
  algorithms.
- `SortAlgorithms` and `AlgorithmsUtils` hold the sorts.

Code shared by several algorithm files lives in its own module:

- `MstCommon`: the minimum-edge scan, tree flags and the weight total.
- `KruskalCommon`: edge deduplication, the union-find labelling and the greedy
  selection.
- `ShortestPaths`: relaxation, path reconstruction and the weight summary.
- `Decimal`: the `std::to_string` text of an integer.

Classes whose fields the source updates in place stay classes here:

- `Vektor` keeps an `array` buffer, `capacity` and `count`.
- `MinHeap` keeps a `seq` that its methods reassign.
- `UnionJoinSet` keeps an `array` of parents.
- `GraphList` keeps a sequence of rows.
- `GraphMatrix` keeps an incidence `array2` and a weight `array`.

The sorts work in place on an `array`. Each algorithm loop is a `method` with
loop invariants. Each method is proved against a specification function:

- `PrimChoice` and `MatrixChoice`: the lightest edge crossing the current tree;
- `KruskalPick`: greedy selection over a union-find labelling;
- `Dedup`: the first occurrence of each unordered vertex pair;
- `AllPaths` and `SinglePath`: path reconstruction from the parent vector;
- `RelaxDistances` and `RelaxParents`: a single relaxation.

Lemmas then prove what those functions mean:

- a Prim run grows a tree and always takes a lightest crossing edge;
- Kruskal's selection is a forest sorted by weight, and it spans every
  component when it stops short of `V - 1` edges;
- a relaxed distance vector bounds every walk from the source (a walk is a
  chain of graph edges from the source);
- `k` Ford-Bellman rounds bound every walk of at most `k` edges;
- each reconstructed path edge is a parent edge of the relaxation.

The word "sentinel" below means `INT_MAX`. The source uses it for "not
reached", and the model keeps it as the constant `IntMax`.

## Model

Proof helpers that state facts about sequences, multisets or index arithmetic, and no behaviour of the program, have no row: MinHeaps.ChildrenOf, SortAlgorithms.KeyRunOfThree, SortAlgorithms.KeyRunMoveFront, SortAlgorithms.MultisetSplit, SortAlgorithms.DescendsThroughChild, SortAlgorithms.DescendsIsLater, SortAlgorithms.SubtreeFrameIsRange, MstCommon.Flatten, MstCommon.FlattenStep, MstCommon.FlattenStepAfter, MstCommon.FlattenHas, MstCommon.FlattenMember, MstCommon.TakeOneMore and GraphLists.TotalEdges (the entry count that GraphLists.AppendAddsOne and GraphLists.TotalOfEmptyLists are about).

| member | source | states |
|---|---|---|
| Vektors.GrownLength | src/VektorImpl/Vektor.hpp:91-94 | the reallocated buffer length `capacity * 1.5 + 1` is strictly larger than the incremented capacity, so the pending write fits |
| Vektors.Vektor.constructor | src/VektorImpl/Vektor.hpp:27-30 | a default Vektor is empty with capacity 10 |
| Vektors.Vektor.Sized | src/VektorImpl/Vektor.hpp:32-39 | a sized Vektor holds `initialSize` default values and has that capacity |
| Vektors.Vektor.Copy | src/VektorImpl/Vektor.hpp:42-49 | the copy has the same elements and capacity in a fresh buffer |
| Vektors.Vektor.Assign | src/VektorImpl/Vektor.hpp:51-63 | self-assignment changes nothing; otherwise the elements and capacity become the other's in a fresh buffer |
| Vektors.Vektor.Size | src/VektorImpl/Vektor.hpp:70-73 | returns the number of elements |
| Vektors.Vektor.Get | src/VektorImpl/Vektor.hpp:75-87 | an index in `[0, size)` yields that element; any other index yields `OutOfRange` |
| Vektors.Vektor.Set | src/VektorImpl/Vektor.hpp:75-80 | an index in range replaces exactly that element; an index out of range reports failure and changes nothing |
| Vektors.Vektor.PushBack | src/VektorImpl/Vektor.hpp:89-96 | the new elements are the old ones plus the value at the end; when full, capacity grows by one and the buffer is reallocated at `GrownLength`, otherwise the buffer is kept |
| Vektors.Vektor.Resize | src/VektorImpl/Vektor.hpp:98-106 | a fresh buffer of the requested length holds the same elements; count and capacity are unchanged |
| Vektors.Vektor.RemoveAt | src/HeapImpl/MinHeap.hpp:33 | the element at `index` is removed and the later ones shift left, in the same buffer |
| MinHeaps.RootIsLeast | src/HeapImpl/MinHeap.hpp:21-23 | in a heap-ordered sequence no element is less than the root |
| MinHeaps.SiftUpStep | src/HeapImpl/MinHeap.hpp:38-48 | swapping a slot that is less than its parent moves the single order violation one level up |
| MinHeaps.SiftDownStep | src/HeapImpl/MinHeap.hpp:50-67 | swapping a slot with its least child moves the single order violation down to that child |
| MinHeaps.RemoveRoot | src/HeapImpl/MinHeap.hpp:30-35 | moving the last element to the root and dropping the last slot removes exactly the root from the multiset and leaves only the root out of order |
| MinHeaps.LeastOfChildren | src/HeapImpl/MinHeap.hpp:53-58 | the `smallest` candidate chosen among `left` and `right` is no greater than any child of the slot |
| MinHeaps.SettledAt | src/HeapImpl/MinHeap.hpp:60 | when no child is less than the sifted slot, the whole heap is ordered |
| MinHeaps.MinHeap.constructor | src/HeapImpl/MinHeap.hpp:11 | a new heap is empty and ordered |
| MinHeaps.MinHeap.Empty | src/HeapImpl/MinHeap.hpp:13-15 | true exactly when no element is stored |
| MinHeaps.MinHeap.Size | src/HeapImpl/MinHeap.hpp:17-19 | the number of stored elements |
| MinHeaps.MinHeap.Top | src/HeapImpl/MinHeap.hpp:21-23 | on an empty heap the read is out of range; otherwise it yields the root, which no stored element is less than |
| MinHeaps.MinHeap.Push | src/HeapImpl/MinHeap.hpp:25-28 | the multiset gains exactly the value and heap order is kept |
| MinHeaps.MinHeap.Pop | src/HeapImpl/MinHeap.hpp:30-35 | an empty heap is unchanged; otherwise exactly the old root leaves the multiset and heap order is kept |
| MinHeaps.MinHeap.HeapifyUp | src/HeapImpl/MinHeap.hpp:38-48 | from a heap violated only at `index`, restores heap order without changing the multiset |
| MinHeaps.MinHeap.HeapifyDown | src/HeapImpl/MinHeap.hpp:50-67 | from a heap whose only violation is at `index` against its children, restores heap order without changing the multiset |
| EdgeTriples.AtMost | src/common/EdgeTripple.hpp:9-11 | `operator<=` holds exactly when the first weight is at most the second, which is the order of the weight key the sorts use for triples |
| EdgeTriples.AtMostIgnoresEndpoints | src/common/EdgeTripple.hpp:9-11 | `<=` compares weights only: two different edges of equal weight are each `<=` the other |
| EdgeTriples.AtMostIsTotalPreorder | src/common/EdgeTripple.hpp:9-11 | `<=` is total and transitive |
| UnionFind.RootOf | src/common/UnionJoinSet.hpp:14-17 | following parents from any element ends at a root, whose rank is at least the element's |
| UnionFind.CompressKeepsRoots | src/common/UnionJoinSet.hpp:15 | pointing an element straight at its root keeps the forest and every element's root |
| UnionFind.LinkMovesOneSet | src/common/UnionJoinSet.hpp:19-21 | linking root `a` under root `b` gives `b` as root to exactly the elements whose root was `a` |
| UnionFind.LinkMovesEverySet | src/common/UnionJoinSet.hpp:19-21 | the same, for all elements at once |
| UnionFind.UnionJoinSet.constructor | src/common/UnionJoinSet.hpp:10-12 | every element starts as its own root |
| UnionFind.UnionJoinSet.Find | src/common/UnionJoinSet.hpp:14-17 | returns the root of `u`, points `u` at it and leaves every element's root unchanged |
| UnionFind.UnionJoinSet.Unite | src/common/UnionJoinSet.hpp:19-21 | every element of `u`'s set gets `v`'s root, the others keep theirs, and `u` and `v` end up joined |
| GraphLists.AppendAddsOne | src/GraphsImpl/GraphList.hpp:41-42 | appending one edge to a row raises the total number of list entries by one |
| GraphLists.TotalOfEmptyLists | src/GraphsImpl/GraphList.hpp:30 | empty rows hold no entries |
| GraphLists.RowTriples | src/GraphsImpl/GraphList.hpp:49-51 | the triple of each entry of row `u` has `u` as origin and the entry's target and weight |
| GraphLists.ListTriplesMeaning | src/GraphsImpl/GraphList.hpp:12-15 | a triple is an edge of the graph iff its origin is a vertex whose row holds an entry with its target and weight |
| GraphLists.ListTriplesStep | src/GraphsImpl/GraphList.hpp:23 | the edges of the first `u + 1` rows are those of the first `u` rows followed by row `u` |
| GraphLists.ListTriplesInRange | src/GraphsImpl/GraphList.hpp:23 | with every target a vertex, every edge joins two vertices |
| GraphLists.EntryIsTriple | src/GraphsImpl/GraphList.hpp:49-51 | every entry of a row is an edge of the graph |
| GraphLists.GraphList.constructor | src/GraphsImpl/GraphList.hpp:30 | `vertices` empty rows and no edges |
| GraphLists.GraphList.AddEdge | src/GraphsImpl/GraphList.hpp:37-43 | a self-loop is ignored; any other edge is appended to the row of `from` and the edge count grows by one |
| GraphLists.GraphList.GetNeighbors | src/GraphsImpl/GraphList.hpp:49-51 | the row of `node`, none of whose entries leads back to `node` |
| GraphLists.GraphList.GetVertexCount | src/GraphsImpl/GraphList.hpp:72-74 | the number of rows |
| GraphLists.GraphList.GetEdgeCount | src/GraphsImpl/GraphList.hpp:80-82 | the number of list entries |
| GraphMatrices.GraphMatrix.constructor | src/GraphsImpl/GraphMatrix.hpp:25-41 | a zero matrix with `vertices` rows and `maxEdges` columns and no edges |
| GraphMatrices.GraphMatrix.AddEdge | src/GraphsImpl/GraphMatrix.hpp:48-59 | a self-loop, or an edge beyond the limit, is ignored; otherwise the edge takes the next column |
| GraphMatrices.GraphMatrix.GetVertexCount | src/GraphsImpl/GraphMatrix.hpp:86-88 | the number of rows |
| GraphMatrices.GraphMatrix.GetEdgeCount | src/GraphsImpl/GraphMatrix.hpp:94-96 | the number of columns in use |
| GraphMatrices.GraphMatrix.GetFrom | src/GraphsImpl/GraphMatrix.hpp:102-107 | the origin of the edge in the column, or -1 for an unused column |
| GraphMatrices.GraphMatrix.GetDest | src/GraphsImpl/GraphMatrix.hpp:113-118 | the target of the edge in the column, or -1 for an unused column |
| GraphMatrices.GraphMatrix.GetWeight | src/GraphsImpl/GraphMatrix.hpp:124-126 | the weight of the edge in the column, or 0 for an unused column |
| AlgorithmsUtils.AdjacentSortedIsSorted | src/SortAlgorithms/AlgorithmsUtils.hpp:9-16 | neighbours in order imply every pair in order |
| AlgorithmsUtils.AdjacentChain | src/SortAlgorithms/AlgorithmsUtils.hpp:9-16 | neighbours in order imply any earlier key is at most any later key |
| AlgorithmsUtils.SortedIsAdjacentSorted | src/SortAlgorithms/AlgorithmsUtils.hpp:9-16 | a sorted sequence has its neighbours in order |
| AlgorithmsUtils.IsSorted | src/SortAlgorithms/AlgorithmsUtils.hpp:9-16 | true exactly when the data is sorted; always true for fewer than two elements |
| SortAlgorithms.KeyRunAppend | src/SortAlgorithms/SortAlgorithms.hpp:15-26 | the elements of one key in a concatenation are those of each part, in order |
| SortAlgorithms.KeyRunNone | src/SortAlgorithms/SortAlgorithms.hpp:15-26 | a sequence without the key has no elements of that key |
| SortAlgorithms.CountInOwnRun | src/SortAlgorithms/SortAlgorithms.hpp:15-26 | every occurrence of an element is among the elements of its key |
| SortAlgorithms.RunsKeepElements | src/SortAlgorithms/SortAlgorithms.hpp:15-26 | equal runs for every key imply a permutation |
| SortAlgorithms.InsertSorted | src/SortAlgorithms/SortAlgorithms.hpp:18-24 | inserting element `i` after the last smaller-or-equal key of a sorted prefix gives a sorted prefix one longer |
| SortAlgorithms.InsertRuns | src/SortAlgorithms/SortAlgorithms.hpp:18-24 | moving an element only past strictly greater keys keeps the order among equal keys |
| SortAlgorithms.ShiftedIsInserted | src/SortAlgorithms/SortAlgorithms.hpp:20-24 | the shift-right-then-write result is the insertion of element `i` at `p` |
| SortAlgorithms.InsertPass | src/SortAlgorithms/SortAlgorithms.hpp:18-24 | one insertion pass sorts one more prefix element and keeps equal keys in order |
| SortAlgorithms.InsertionSort | src/SortAlgorithms/SortAlgorithms.hpp:15-26 | sorts the array into a permutation of its input that keeps equal keys in order |
| SortAlgorithms.InsertKey | src/SortAlgorithms/SortAlgorithms.hpp:18-24 | the pass for element `i` extends the sorted prefix and keeps equal keys in order |
| SortAlgorithms.BinaryInsertionSort | src/SortAlgorithms/SortAlgorithms.hpp:32-49 | sorts the array into a permutation of its input that keeps equal keys in order |
| SortAlgorithms.BinaryInsertKey | src/SortAlgorithms/SortAlgorithms.hpp:35-47 | the pass for element `i` extends the sorted prefix and keeps equal keys in order |
| SortAlgorithms.SearchInsertionPoint | src/SortAlgorithms/SortAlgorithms.hpp:36-43 | the binary search finds the point after every key `<=` the new one and before every greater key |
| SortAlgorithms.Swap | src/SortAlgorithms/SortAlgorithms.hpp:88-90 | two slots exchange their elements, a permutation |
| SortAlgorithms.RangePermutes | src/SortAlgorithms/SortAlgorithms.hpp:129-135 | a permutation that fixes everything outside a range permutes the range |
| SortAlgorithms.RangeAtMost | src/SortAlgorithms/SortAlgorithms.hpp:129-135 | such a permutation keeps a bound that held for all keys of the range |
| SortAlgorithms.RangeAbove | src/SortAlgorithms/SortAlgorithms.hpp:129-135 | it also keeps a strict lower bound on the keys of the range |
| SortAlgorithms.RootIsMax | src/SortAlgorithms/SortAlgorithms.hpp:58-62 | in a max heap the root key is the largest |
| SortAlgorithms.LargestIsFamilyMax | src/SortAlgorithms/SortAlgorithms.hpp:80-86 | the `largest` choice holds the maximum key of the slot and its children |
| SortAlgorithms.BoundsChildren | src/SortAlgorithms/SortAlgorithms.hpp:80-86 | a key at least both children's keys bounds every child of the slot |
| SortAlgorithms.SwapKeepsLowerHeap | src/SortAlgorithms/SortAlgorithms.hpp:87-90 | swapping a slot with its child keeps the heap order below the child |
| SortAlgorithms.SiftDownFrame | src/SortAlgorithms/SortAlgorithms.hpp:87-91 | the recursive call only touches the subtree of the slot |
| SortAlgorithms.SiftDownTop | src/SortAlgorithms/SortAlgorithms.hpp:87-91 | after the recursion the child's new key is at most the key that moved up |
| SortAlgorithms.SiftDownJoin | src/SortAlgorithms/SortAlgorithms.hpp:87-91 | the slot plus the re-heapified child subtree form a heap |
| SortAlgorithms.MaxHeapify | src/SortAlgorithms/SortAlgorithms.hpp:79-93 | turns a slot whose subtrees are heaps into a heap with the largest family key at the slot, permuting only the slot's subtree |
| SortAlgorithms.ParentsBeforeHalf | src/SortAlgorithms/SortAlgorithms.hpp:100 | every parent slot lies below `n / 2`, where the build loop starts |
| SortAlgorithms.BuildMaxHeap | src/SortAlgorithms/SortAlgorithms.hpp:98-102 | the whole array becomes a max heap, a permutation of its input |
| SortAlgorithms.HeapSortStep | src/SortAlgorithms/SortAlgorithms.hpp:58-63 | swapping the root behind the heap and re-heapifying grows the sorted tail by one |
| SortAlgorithms.HeapSortDone | src/SortAlgorithms/SortAlgorithms.hpp:58 | with an empty heap part, the array is sorted |
| SortAlgorithms.HeapSortRound | src/SortAlgorithms/SortAlgorithms.hpp:59-62 | one extraction round keeps the heap-sort state one step further, permuting the array |
| SortAlgorithms.HeapSort | src/SortAlgorithms/SortAlgorithms.hpp:55-64 | sorts the array into a permutation of its input |
| SortAlgorithms.Partition | src/SortAlgorithms/SortAlgorithms.hpp:107-124 | the returned pivot index lies in `[l, r]`; keys before it are `<=` the pivot, keys after it are greater; only `[l, r]` is permuted |
| SortAlgorithms.QuickSortJoin | src/SortAlgorithms/SortAlgorithms.hpp:130-134 | two sorted sides around a partitioned pivot make the range sorted |
| SortAlgorithms.RecursiveQuickSort | src/SortAlgorithms/SortAlgorithms.hpp:129-135 | sorts `[l, r]`, permuting only that range |
| SortAlgorithms.QuickSort | src/SortAlgorithms/SortAlgorithms.hpp:70-73 | sorts the array into a permutation of its input |
| Decimal.NatToString | src/GraphsAlgorithms/MSTProblem/PrimList.hpp:43 | the text of a natural number is a non-empty string of digits without a leading zero |
| Decimal.IntToString | src/GraphsAlgorithms/MSTProblem/PrimList.hpp:43 | the text of an integer is non-empty and starts with `-` exactly when the integer is negative |
| Decimal.DigitRoundTrip | src/GraphsAlgorithms/MSTProblem/PrimList.hpp:43 | a digit's character reads back as the digit |
| Decimal.NatRoundTrip | src/GraphsAlgorithms/MSTProblem/PrimList.hpp:43 | parsing a natural number's text gives the number back |
| Decimal.ParseNegative | src/GraphsAlgorithms/MSTProblem/PrimList.hpp:43 | a minus sign before digits reads as the negated number |
| Decimal.NegativeRoundTrip | src/GraphsAlgorithms/MSTProblem/PrimList.hpp:43 | parsing a negative integer's text gives the integer back |
| Decimal.IntRoundTrip | src/GraphsAlgorithms/MSTProblem/PrimList.hpp:43 | parsing any integer's text gives the integer back |
| Decimal.IntToStringInjective | src/GraphsAlgorithms/MSTProblem/PrimList.hpp:43 | different integers have different texts |
| MstCommon.ScanAppend | src/GraphsAlgorithms/MSTProblem/PrimMatrix.hpp:81-87 | scanning one more candidate applies the strict `weight < minWeight` update |
| MstCommon.ScanFindsFirstMinimum | src/GraphsAlgorithms/MSTProblem/PrimMatrix.hpp:73-90 | the scan finds no edge iff every candidate weighs at least the sentinel; otherwise it finds the first candidate of least weight |
| MstCommon.TreeFlagsMeaning | src/GraphsAlgorithms/MSTProblem/PrimList.hpp:21-28 | a vertex is flagged iff it is vertex 0 or the target of a chosen edge |
| MstCommon.TreeFlagsAppend | src/GraphsAlgorithms/MSTProblem/PrimList.hpp:27-28 | choosing an edge flags exactly its target |
| MstCommon.TreeShape | src/GraphsAlgorithms/MSTProblem/PrimList.hpp:23-33 | a run that grows the tree never re-enters vertex 0 or a vertex already reached, and each edge starts at vertex 0 or at an earlier edge's target |
| MstCommon.GrowsTreeAppend | src/GraphsAlgorithms/MSTProblem/PrimList.hpp:26-28 | adding an edge from the tree to a vertex outside keeps the tree growing |
| MstCommon.ChosenRunAt | src/GraphsAlgorithms/MSTProblem/PrimList.hpp:23-28 | each edge of a run is the selection made on the flags its predecessors set |
| MstCommon.ChosenRunExtend | src/GraphsAlgorithms/MSTProblem/PrimList.hpp:24-28 | appending the current selection extends the run |
| MstCommon.InitializeMSTFlags | src/GraphsAlgorithms/MSTProblem/PrimList.hpp:63-68 | `n` false flags |
| MstCommon.TotalWeightSplit | src/GraphsAlgorithms/MSTProblem/PrimList.hpp:39-42 | the total weight of a concatenation is the sum of the parts' totals |
| MstCommon.CalculateMSTWeightAsString | src/GraphsAlgorithms/MSTProblem/PrimList.hpp:38-44 | the decimal text of the total weight, which parses back to that total |
| PrimList.OutgoingCross | src/GraphsAlgorithms/MSTProblem/PrimList.hpp:84-95 | every own-entry candidate of a tree vertex leaves the tree |
| PrimList.IncomingFromCross | src/GraphsAlgorithms/MSTProblem/PrimList.hpp:99-108 | every incoming-entry candidate joins the tree vertex to an outside vertex |
| PrimList.IncomingCross | src/GraphsAlgorithms/MSTProblem/PrimList.hpp:96-109 | every candidate from the incoming scan crosses the tree boundary |
| PrimList.CandidatesCross | src/GraphsAlgorithms/MSTProblem/PrimList.hpp:81-110 | every candidate considered crosses the tree boundary |
| PrimList.OutgoingHas | src/GraphsAlgorithms/MSTProblem/PrimList.hpp:85-94 | an own entry to an outside vertex is a candidate |
| PrimList.IncomingFromHas | src/GraphsAlgorithms/MSTProblem/PrimList.hpp:100-107 | an outside vertex's entry back to the tree vertex is a candidate |
| PrimList.CrossingEntryIsCandidate | src/GraphsAlgorithms/MSTProblem/PrimList.hpp:81-110 | every list entry that crosses the tree boundary, in either direction, is a candidate |
| PrimList.PrimChoiceIsLightestCrossing | src/GraphsAlgorithms/MSTProblem/PrimList.hpp:75-112 | no edge is chosen iff every crossing entry weighs at least the sentinel; otherwise the choice crosses the boundary and is no heavier than any crossing entry |
| PrimList.PrimChoiceFound | src/GraphsAlgorithms/MSTProblem/PrimList.hpp:26 | a `-1` endpoint occurs only for "no edge"; any other choice crosses the boundary |
| PrimList.SelectMinimumEdge | src/GraphsAlgorithms/MSTProblem/PrimList.hpp:75-112 | returns `PrimChoice` of the graph and flags |
| PrimList.ScanTreeVertex | src/GraphsAlgorithms/MSTProblem/PrimList.hpp:82-109 | the scan of one vertex adds that vertex's candidates |
| PrimList.ScanOwnEntries | src/GraphsAlgorithms/MSTProblem/PrimList.hpp:84-95 | the own-entry loop scans the outgoing candidates |
| PrimList.ScanEntriesBack | src/GraphsAlgorithms/MSTProblem/PrimList.hpp:96-109 | the incoming loop scans every outside vertex's entries back to the tree vertex |
| PrimList.ScanVertexBack | src/GraphsAlgorithms/MSTProblem/PrimList.hpp:97-108 | one outside vertex's entries are added to the scan |
| PrimList.ScanEntriesOf | src/GraphsAlgorithms/MSTProblem/PrimList.hpp:100-107 | the inner incoming loop scans the matching entries in order |
| PrimList.FindMST | src/GraphsAlgorithms/MSTProblem/PrimList.hpp:16-36 | the result is the greedy run: each edge is `PrimChoice` on the flags so far, and the run stops at `V - 1` edges or when nothing is found |
| PrimList.PrimRunEdge | src/GraphsAlgorithms/MSTProblem/PrimList.hpp:23-28 | edge `k` crosses the tree of the first `k` edges and is no heavier than any crossing entry |
| PrimList.PrimRunIsGreedyTree | src/GraphsAlgorithms/MSTProblem/PrimList.hpp:16-36 | the run grows a tree from vertex 0 through graph edges, each a lightest crossing one; a run shorter than `V - 1` stops only when every crossing entry weighs at least the sentinel |
| PrimMatrix.OrientedSlot | src/GraphsAlgorithms/MSTProblem/PrimMatrix.hpp:81-86 | a crossing column is oriented from its tree end to its outside end, with its weight |
| PrimMatrix.SlotCandidates | src/GraphsAlgorithms/MSTProblem/PrimMatrix.hpp:76-88 | one candidate block per column |
| PrimMatrix.SlotCandidatesMeaning | src/GraphsAlgorithms/MSTProblem/PrimMatrix.hpp:76-88 | a candidate is exactly an oriented crossing column |
| PrimMatrix.MatrixChoiceIsLightestCrossing | src/GraphsAlgorithms/MSTProblem/PrimMatrix.hpp:72-91 | no edge is chosen iff every crossing column weighs at least the sentinel; otherwise the choice is an oriented crossing column no heavier than any crossing column |
| PrimMatrix.MatrixChoiceFound | src/GraphsAlgorithms/MSTProblem/PrimMatrix.hpp:29 | a `-1` endpoint occurs only for "no edge"; any other choice goes from the tree to outside it |
| PrimMatrix.SelectMinimumEdge | src/GraphsAlgorithms/MSTProblem/PrimMatrix.hpp:72-91 | returns `MatrixChoice` of the columns and flags |
| PrimMatrix.ConsiderSlot | src/GraphsAlgorithms/MSTProblem/PrimMatrix.hpp:77-87 | one column's candidate is added to the scan |
| PrimMatrix.FindMST | src/GraphsAlgorithms/MSTProblem/PrimMatrix.hpp:18-38 | the result is the greedy run of `MatrixChoice` |
| PrimMatrix.MatrixRunEdge | src/GraphsAlgorithms/MSTProblem/PrimMatrix.hpp:26-31 | edge `k` leaves the tree of the first `k` edges through a column and is no heavier than any crossing column |
| PrimMatrix.MatrixRunIsGreedyTree | src/GraphsAlgorithms/MSTProblem/PrimMatrix.hpp:18-38 | the run grows a tree from vertex 0 through matrix columns, each a lightest crossing one; a run shorter than `V - 1` stops only when every crossing column weighs at least the sentinel |
| KruskalCommon.Normalized | src/GraphsAlgorithms/MSTProblem/KruskalList.hpp:62-63 | the triple lists the smaller endpoint first and keeps the weight |
| KruskalCommon.DedupAppend | src/GraphsAlgorithms/MSTProblem/KruskalList.hpp:65-76 | deduplicating one more offer applies the seen-pair test to it |
| KruskalCommon.DedupMeaning | src/GraphsAlgorithms/MSTProblem/KruskalList.hpp:52-81 | the kept edges have pairwise different vertex pairs, all come from the offers, and every offered pair is kept |
| KruskalCommon.DedupKeepsFirst | src/GraphsAlgorithms/MSTProblem/KruskalList.hpp:65-76 | each kept edge is the first offer of its vertex pair |
| KruskalCommon.PairSeen | src/GraphsAlgorithms/MSTProblem/KruskalList.hpp:65-71 | true iff the pair is among the seen pairs |
| KruskalCommon.Offer | src/GraphsAlgorithms/MSTProblem/KruskalList.hpp:62-76 | one offer updates the kept edges as `Dedup` does and keeps the seen pairs in step |
| KruskalCommon.Relabel | src/common/UnionJoinSet.hpp:19-21 | every vertex labelled `a` is relabelled `b`, the others keep their labels |
| KruskalCommon.LabelsAppend | src/common/UnionJoinSet.hpp:19-21 | joining an edge relabels the class of its origin with the class of its target |
| KruskalCommon.LabelsMerge | src/common/UnionJoinSet.hpp:19-21 | after joining an edge, two vertices share a label iff they did before or they lie in the classes of its two endpoints |
| KruskalCommon.LabelsJoinEdges | src/GraphsAlgorithms/MSTProblem/KruskalList.hpp:24-26 | every joined edge has its endpoints in one class |
| KruskalCommon.LabelsKeepJoined | src/common/UnionJoinSet.hpp:19-21 | vertices already in one class stay in one class |
| KruskalCommon.LabelsJoinLast | src/common/UnionJoinSet.hpp:19-21 | after joining an edge its endpoints share a class |
| KruskalCommon.KruskalPick | src/GraphsAlgorithms/MSTProblem/KruskalList.hpp:22-28 | the selection joins graph vertices and uses only offered edges |
| KruskalCommon.KruskalPickSize | src/GraphsAlgorithms/MSTProblem/KruskalList.hpp:22 | at most `V - 1` edges are picked, and once `V - 1` are picked later edges change nothing |
| KruskalCommon.KruskalPickIsForest | src/GraphsAlgorithms/MSTProblem/KruskalList.hpp:24-26 | each picked edge joins two different classes of the edges picked before it, so the picks form a forest |
| KruskalCommon.KruskalPickSorted | src/GraphsAlgorithms/MSTProblem/KruskalList.hpp:17-28 | picks from sorted edges come out sorted by weight |
| KruskalCommon.KruskalPickSpans | src/GraphsAlgorithms/MSTProblem/KruskalList.hpp:22-28 | when fewer than `V - 1` edges are picked, every offered edge lies within one class |
| KruskalCommon.KruskalPickAppend | src/GraphsAlgorithms/MSTProblem/KruskalList.hpp:22-28 | one more edge is picked iff the pick is short of `V - 1` and its endpoints are in different classes |
| KruskalCommon.SelectForest | src/GraphsAlgorithms/MSTProblem/KruskalList.hpp:19-28 | the union-find loop returns `KruskalPick` of the sorted edges |
| KruskalCommon.KruskalStep | src/GraphsAlgorithms/MSTProblem/KruskalList.hpp:23-27 | an edge is appended iff `find` gives its ends different roots, and union-find roots keep matching the labels |
| KruskalCommon.SortEdgesByWeight | src/GraphsAlgorithms/MSTProblem/KruskalList.hpp:83-85 | a permutation of the edges sorted by weight |
| KruskalCommon.PermutesInRange | src/GraphsAlgorithms/MSTProblem/KruskalList.hpp:17 | sorting keeps every edge between graph vertices |
| KruskalCommon.DedupInRange | src/GraphsAlgorithms/MSTProblem/KruskalList.hpp:16 | deduplication keeps every edge between graph vertices |
| KruskalCommon.KruskalIsSpanningForest | src/GraphsAlgorithms/MSTProblem/KruskalList.hpp:14-31 | the result has at most `V - 1` offered edges, is sorted, is a forest, and spans every offered edge when shorter than `V - 1` |
| KruskalList.RowOffers | src/GraphsAlgorithms/MSTProblem/KruskalList.hpp:58-63 | each entry of row `u` is offered as its normalized triple |
| KruskalList.ListOffersMeaning | src/GraphsAlgorithms/MSTProblem/KruskalList.hpp:56-63 | a triple is offered iff it is the normalized triple of some list entry |
| KruskalList.ListOffersInRange | src/GraphsAlgorithms/MSTProblem/KruskalList.hpp:56-63 | every offer joins graph vertices |
| KruskalList.ExtractRow | src/GraphsAlgorithms/MSTProblem/KruskalList.hpp:57-77 | one row's offers are deduplicated into the kept edges |
| KruskalList.ExtractUniqueEdges | src/GraphsAlgorithms/MSTProblem/KruskalList.hpp:52-81 | returns `Dedup` of all list offers |
| KruskalList.FindMST | src/GraphsAlgorithms/MSTProblem/KruskalList.hpp:14-31 | the result is `KruskalPick` of a weight-sorted permutation of the deduplicated offers, and is a spanning forest of the lists: at most `V - 1` normalized list entries, ascending in weight, each joining two classes, spanning every entry when shorter than `V - 1` |
| KruskalList.KruskalListIsSpanningForest | src/GraphsAlgorithms/MSTProblem/KruskalList.hpp:14-31 | the result has at most `V - 1` edges, each the normalized triple of a list entry; it is sorted and a forest, and when shorter than `V - 1` every list entry lies within one class |
| KruskalMatrix.MatrixOffers | src/GraphsAlgorithms/MSTProblem/KruskalMatrix.hpp:57-63 | each column is offered as its normalized triple |
| KruskalMatrix.MatrixOffersInRange | src/GraphsAlgorithms/MSTProblem/KruskalMatrix.hpp:57-63 | every offer joins graph vertices |
| KruskalMatrix.ExtractAllEdges | src/GraphsAlgorithms/MSTProblem/KruskalMatrix.hpp:52-80 | returns `Dedup` of the column offers |
| KruskalMatrix.OfferSlot | src/GraphsAlgorithms/MSTProblem/KruskalMatrix.hpp:58-76 | one column's offer is deduplicated into the kept edges |
| KruskalMatrix.FindMST | src/GraphsAlgorithms/MSTProblem/KruskalMatrix.hpp:14-31 | the result is `KruskalPick` of a weight-sorted permutation of the deduplicated column offers, and is a spanning forest of the columns: at most `V - 1` normalized columns, ascending in weight, each joining two classes, spanning every column when shorter than `V - 1` |
| KruskalMatrix.KruskalMatrixIsSpanningForest | src/GraphsAlgorithms/MSTProblem/KruskalMatrix.hpp:14-31 | the result has at most `V - 1` edges, each a normalized column; it is sorted and a forest, and when shorter than `V - 1` every column lies within one class |
| ShortestPaths.Unreached | src/GraphsAlgorithms/TSPProblem/DijkstraList.hpp:82-87 | every distance is the sentinel |
| ShortestPaths.NoParents | src/GraphsAlgorithms/TSPProblem/DijkstraList.hpp:89-94 | every parent is -1 |
| ShortestPaths.StartDistances | src/GraphsAlgorithms/TSPProblem/DijkstraList.hpp:22-25 | the source is at 0 and every other vertex at the sentinel |
| ShortestPaths.InitializeDistances | src/GraphsAlgorithms/TSPProblem/DijkstraList.hpp:82-87 | returns `Unreached(n)` |
| ShortestPaths.InitializePrevious | src/GraphsAlgorithms/TSPProblem/DijkstraList.hpp:89-94 | returns `NoParents(n)` |
| ShortestPaths.WalkExtend | src/GraphsAlgorithms/TSPProblem/DijkstraList.hpp:42-44 | a walk followed by an edge is a walk whose weight grows by the edge's weight |
| ShortestPaths.StartConsistent | src/GraphsAlgorithms/TSPProblem/DijkstraList.hpp:22-25 | the initial state is consistent: every finite distance is the weight of a walk from the source, and every parent link is an edge |
| ShortestPaths.RelaxedAppend | src/GraphsAlgorithms/TSPProblem/FordBellmanList.hpp:38-48 | an edge that does not improve keeps the distances relaxed over one more edge |
| ShortestPaths.EntryIsNotRelaxed | src/GraphsAlgorithms/TSPProblem/FordBellmanList.hpp:43-46 | an edge that still improves means the distances are not relaxed |
| ShortestPaths.RelaxKeeps | src/GraphsAlgorithms/TSPProblem/DijkstraList.hpp:42-46 | an improving relaxation keeps the state consistent |
| ShortestPaths.Relax | src/GraphsAlgorithms/TSPProblem/FordBellmanList.hpp:29-32 | returns `RelaxDistances` and `RelaxParents` for the edge |
| ShortestPaths.RelaxOutcome | src/GraphsAlgorithms/TSPProblem/FordBellmanList.hpp:29-32 | a relaxation keeps consistency, never raises a distance, and bounds the target by the origin plus the weight |
| ShortestPaths.RelaxedBoundsWalk | src/GraphsAlgorithms/TSPProblem/FordBellmanList.hpp:38-48 | when no edge improves, no walk below the sentinel beats its end's distance |
| ShortestPaths.DistancesAreShortest | src/GraphsAlgorithms/TSPProblem/FordBellmanList.hpp:17-53 | consistent, relaxed distances are shortest: each bounds every walk below the sentinel and each finite one is achieved by a walk |
| ShortestPaths.BoundsNoEdges | src/GraphsAlgorithms/TSPProblem/FordBellmanList.hpp:21 | the initial distances bound every walk of zero edges |
| ShortestPaths.SlotStep | src/GraphsAlgorithms/TSPProblem/FordBellmanList.hpp:26-32 | after relaxing an edge, walks of `k + 1` edges that end with it are bounded |
| ShortestPaths.RoundEnd | src/GraphsAlgorithms/TSPProblem/FordBellmanList.hpp:23-35 | a round that relaxes every edge turns a `k`-edge bound into a `k + 1`-edge bound |
| ShortestPaths.PathsMeaning | src/GraphsAlgorithms/TSPProblem/DijkstraList.hpp:99-107 | a triple is reconstructed iff its vertex passes the variant's filter and the triple is (parent, vertex, distance) |
| ShortestPaths.PathsAscend | src/GraphsAlgorithms/TSPProblem/DijkstraList.hpp:101-105 | the triples come in increasing vertex order |
| ShortestPaths.ReconstructPaths | src/GraphsAlgorithms/TSPProblem/DijkstraList.hpp:99-107 | returns `AllPaths` under the variant's filter |
| ShortestPaths.StepBack | src/GraphsAlgorithms/TSPProblem/DijkstraList.hpp:115 | following parents `k` times stays among the vertices |
| ShortestPaths.PathBackChain | src/GraphsAlgorithms/TSPProblem/DijkstraList.hpp:112-116 | the walk back starts at `dest`, chains each triple's origin to the next triple's target, and stops at the source or at a vertex without parent |
| ShortestPaths.ReconstructSinglePath | src/GraphsAlgorithms/TSPProblem/DijkstraList.hpp:109-118 | returns `SinglePath`: empty for an unreached destination, otherwise the parent chain back from it |
| ShortestPaths.ParentsOkInRange | src/GraphsAlgorithms/TSPProblem/DijkstraList.hpp:44 | parent links that are edges point at vertices |
| ShortestPaths.ParentTriplesAreShortest | src/GraphsAlgorithms/TSPProblem/DijkstraList.hpp:99-118 | once relaxed, every triple (parent, vertex, distance) is an edge of the graph and its weight label is the shortest walk weight to its vertex |
| ShortestPaths.ReconstructionIsShortest | src/GraphsAlgorithms/TSPProblem/FordBellmanList.hpp:49-52 | once relaxed, both the all-paths and the single-path reconstruction return only graph edges labelled with their target's shortest distance |
| ShortestPaths.AllPathsFollowParents | src/GraphsAlgorithms/TSPProblem/DijkstraList.hpp:99-107 | every reconstructed triple is a graph edge into a vertex, carrying that vertex's distance |
| ShortestPaths.SinglePathFollowsParents | src/GraphsAlgorithms/TSPProblem/DijkstraList.hpp:109-118 | the single path is a backward chain of graph edges from `dest`, each carrying its target's distance |
| ShortestPaths.LeastWeightMeaning | src/GraphsAlgorithms/TSPProblem/DijkstraList.hpp:58-64 | the running minimum is at most the seed and every weight, and is the seed or one of the weights |
| ShortestPaths.GreatestWeightMeaning | src/GraphsAlgorithms/TSPProblem/DijkstraList.hpp:58-64 | the running maximum is at least the seed and every weight, and is the seed or one of the weights |
| ShortestPaths.SummariesAgree | src/GraphsAlgorithms/TSPProblem/FordBellmanList.hpp:55-68 | for 32-bit weights, the sentinel-seeded summary and the first-element-seeded summary are the same text |
| ShortestPaths.CalculatePathWeightAsString | src/GraphsAlgorithms/TSPProblem/DijkstraList.hpp:55-68 | "0" for no paths, the maximum weight when min equals max or a destination was asked for, otherwise "[min - max]" |
| ShortestPaths.CalculatePathWeightAsStringFromFirst | src/GraphsAlgorithms/TSPProblem/FordBellmanList.hpp:55-68 | the same summary, seeded from the first path |
| DijkstraList.Outgoing | src/GraphsAlgorithms/TSPProblem/DijkstraList.hpp:37-40 | entry `i` of the current vertex's row as a triple from that vertex |
| DijkstraList.SumUpdate | src/GraphsAlgorithms/TSPProblem/DijkstraList.hpp:43 | replacing one distance changes the distance sum by the difference |
| DijkstraList.SumNonNegative | src/GraphsAlgorithms/TSPProblem/DijkstraList.hpp:28 | non-negative distances have a non-negative sum |
| DijkstraList.SumRelax | src/GraphsAlgorithms/TSPProblem/DijkstraList.hpp:42-46 | an improving relaxation lowers the distance sum by at least one |
| DijkstraList.EntriesAdded | src/GraphsAlgorithms/TSPProblem/DijkstraList.hpp:45 | pushing entries for graph vertices keeps every heap entry on a vertex |
| DijkstraList.RelaxKeepsPending | src/GraphsAlgorithms/TSPProblem/DijkstraList.hpp:38-47 | after relaxing entry `j`, the current vertex's first `j + 1` entries are relaxed, and every vertex whose edges may still improve has a heap entry |
| DijkstraList.EmptyHeapIsRelaxed | src/GraphsAlgorithms/TSPProblem/DijkstraList.hpp:28 | when the heap runs empty, no edge improves any distance |
| DijkstraList.PopKeepsPending | src/GraphsAlgorithms/TSPProblem/DijkstraList.hpp:29-35 | popping an entry keeps every other pending vertex in the heap, and a stale entry leaves nothing pending |
| DijkstraList.RelaxNeighbor | src/GraphsAlgorithms/TSPProblem/DijkstraList.hpp:39-46 | performs `Relax` for the entry and pushes `(new distance, target)` exactly when it improves |
| DijkstraList.RelaxStep | src/GraphsAlgorithms/TSPProblem/DijkstraList.hpp:38-47 | one neighbour step keeps the loop invariant and does not raise the distance sum plus the heap size |
| DijkstraList.RelaxNeighbors | src/GraphsAlgorithms/TSPProblem/DijkstraList.hpp:37-47 | relaxing all neighbours of the current vertex leaves it with nothing pending |
| DijkstraList.FindShortestPaths | src/GraphsAlgorithms/TSPProblem/DijkstraList.hpp:20-53 | on non-negative weights the distances end consistent and relaxed, and the result is the reconstruction of all paths except the source's, or the single path; every returned triple is a graph edge labelled with its target's shortest distance |
| DijkstraMatrix.NoneVisited | src/GraphsAlgorithms/TSPProblem/DijkstraMatrix.hpp:81-86 | `n` false flags |
| DijkstraMatrix.InitializeVisited | src/GraphsAlgorithms/TSPProblem/DijkstraMatrix.hpp:81-86 | returns `NoneVisited(n)` |
| DijkstraMatrix.CountNoneVisited | src/GraphsAlgorithms/TSPProblem/DijkstraMatrix.hpp:24 | no vertex is visited at the start |
| DijkstraMatrix.CountVisit | src/GraphsAlgorithms/TSPProblem/DijkstraMatrix.hpp:31 | visiting a new vertex raises the visited count by one |
| DijkstraMatrix.CountBounds | src/GraphsAlgorithms/TSPProblem/DijkstraMatrix.hpp:28-31 | the visited count leaves room for every unvisited vertex |
| DijkstraMatrix.CountedAllButOne | src/GraphsAlgorithms/TSPProblem/DijkstraMatrix.hpp:28-30 | after `V - 1` visits, or when the selection fails, at most one vertex is unvisited |
| DijkstraMatrix.GetMinDistanceVertex | src/GraphsAlgorithms/TSPProblem/DijkstraMatrix.hpp:106-116 | -1 iff every vertex is visited or beyond the sentinel; otherwise an unvisited vertex of least distance, the last one among ties |
| DijkstraMatrix.ScanOutcome | src/GraphsAlgorithms/TSPProblem/DijkstraMatrix.hpp:34-43 | scanning a column keeps consistency, never raises a distance, leaves visited vertices alone and bounds an unvisited target of the current vertex |
| DijkstraMatrix.ScanStep | src/GraphsAlgorithms/TSPProblem/DijkstraMatrix.hpp:33-44 | the column loop's progress predicate advances by one column |
| DijkstraMatrix.ScanColumn | src/GraphsAlgorithms/TSPProblem/DijkstraMatrix.hpp:34-43 | returns the scan of the column's edge from the current vertex |
| DijkstraMatrix.ScanVertex | src/GraphsAlgorithms/TSPProblem/DijkstraMatrix.hpp:33-44 | scanning all columns keeps consistency and completes the scan of the current vertex |
| DijkstraMatrix.VisitStep | src/GraphsAlgorithms/TSPProblem/DijkstraMatrix.hpp:29-44 | on non-negative weights, visiting the least unvisited vertex keeps the visited vertices first and tight |
| DijkstraMatrix.FinishedIsRelaxed | src/GraphsAlgorithms/TSPProblem/DijkstraMatrix.hpp:28-45 | with all but at most one vertex visited, no edge improves any distance |
| DijkstraMatrix.Visit | src/GraphsAlgorithms/TSPProblem/DijkstraMatrix.hpp:31-44 | marks the vertex visited, counts it and keeps the invariants |
| DijkstraMatrix.FindShortestPaths | src/GraphsAlgorithms/TSPProblem/DijkstraMatrix.hpp:18-51 | the distances end consistent and, on non-negative weights, relaxed; the result is every reached vertex with a parent, or the single path; on non-negative weights every returned triple is a graph edge labelled with its target's shortest distance |
| FordBellmanList.RelaxEntry | src/GraphsAlgorithms/TSPProblem/FordBellmanList.hpp:27-32 | one entry's relaxation keeps consistency and the round's progress |
| FordBellmanList.RelaxList | src/GraphsAlgorithms/TSPProblem/FordBellmanList.hpp:25-33 | relaxing one row keeps consistency and covers that row's edges in the round |
| FordBellmanList.Round | src/GraphsAlgorithms/TSPProblem/FordBellmanList.hpp:24-34 | one round turns a bound on `k`-edge walks into a bound on `k + 1`-edge walks, keeping consistency |
| FordBellmanList.NoRelaxableInList | src/GraphsAlgorithms/TSPProblem/FordBellmanList.hpp:39-47 | a row check that passes extends relaxedness by one row; one that fails finds an improving edge |
| FordBellmanList.NoRelaxableEntry | src/GraphsAlgorithms/TSPProblem/FordBellmanList.hpp:38-48 | the check passes iff no edge improves any distance |
| FordBellmanList.FindShortestPaths | src/GraphsAlgorithms/TSPProblem/FordBellmanList.hpp:17-53 | distances end consistent and bound every walk of at most `V - 1` edges; the result is empty when an edge still improves (negative cycle), otherwise the reconstruction, whose triples are graph edges labelled with their target's shortest distance |
| FordBellmanMatrix.InitializeState | src/GraphsAlgorithms/TSPProblem/FordBellmanMatrix.hpp:22-28 | distances at the sentinel and parents at -1 |
| FordBellmanMatrix.RelaxColumn | src/GraphsAlgorithms/TSPProblem/FordBellmanMatrix.hpp:34-42 | returns `Relax` of the column's edge, which keeps consistency and bounds its target |
| FordBellmanMatrix.Round | src/GraphsAlgorithms/TSPProblem/FordBellmanMatrix.hpp:33-43 | one round turns a bound on `k`-edge walks into a bound on `k + 1`-edge walks |
| FordBellmanMatrix.NoRelaxableColumn | src/GraphsAlgorithms/TSPProblem/FordBellmanMatrix.hpp:47-56 | the check passes iff no edge improves any distance |
| FordBellmanMatrix.FindShortestPaths | src/GraphsAlgorithms/TSPProblem/FordBellmanMatrix.hpp:18-61 | distances end consistent and bound every walk of at most `V - 1` edges; the result is empty when an edge still improves, otherwise the reconstruction, whose triples are graph edges labelled with their target's shortest distance |

## Left out

- Machine integers: the model uses unbounded `int`. The source's `int` sums can overflow, for example `distances[u] + weight` or the MST and path totals. The model does not capture that wrap-around. Only the sentinel `INT_MAX` and `INT_MIN` are kept as constants.
- Display functions (`display`, `displayMST`, `displayShortestPaths`), `std::cout` and `std::cerr` messages are left out: they are output only.
- The managers, timers, file I/O, random generators, the GUI help text and the legacy `src/Graphs` classes are not part of this model.
- `IGraph` is an abstract base class. The model gives `GraphList` and `GraphMatrix` the same member names instead of a common interface. `IGraph.hpp` is not part of this model.
- Vektors.Vektor.Assign: the source frees the old buffer with `delete[]`; the model leaves memory reclamation to Dafny.
- Vektors.Vektor.RemoveAt: `Vektor.hpp` does not declare `removeAt`, although `MinHeap::pop` calls it. It is modelled as the usual shift left inside the same buffer.
- `Vektor` stands only for itself. The other components keep their vectors as Dafny sequences or arrays.
- MinHeaps.MinHeap: the heap is modelled for the only instance the core uses, over `(distance, vertex)` pairs ordered like `std::pair`. Its `Vektor` is a sequence.
- GraphMatrices.GraphMatrix.GetFrom, GraphMatrices.GraphMatrix.GetDest and GraphMatrices.GraphMatrix.GetWeight: a column index outside the matrix makes `Vektor::operator[]` throw. These methods require an index inside the matrix instead, which every caller respects.
- GraphMatrices.GraphMatrix.AddEdge: an endpoint outside `[0, V)` of an edge that is not ignored would throw from `Vektor::operator[]`. The method requires valid endpoints for such an edge instead.
- GraphLists.GraphList.AddEdge: for an edge that is not a self-loop, an origin outside `[0, V)` would throw from `Vektor::operator[]`. The method requires a valid origin for such an edge instead. A self-loop is dropped before any indexing, so it is accepted with any origin.
- Shortest-path and MST entry points require `0 <= source < V`, and Prim requires at least one vertex. The source indexes vertex `source`, or vertex 0, without checking.
- DijkstraList.FindShortestPaths, DijkstraMatrix.FindShortestPaths, FordBellmanList.FindShortestPaths and FordBellmanMatrix.FindShortestPaths: they also require `destination == -1 || 0 <= destination < V`. In C++ any other destination reaches the unchecked `distances[dest]` read of `reconstructSinglePath`, and `Vektor::operator[]` throws `std::out_of_range` there. The model does not capture that exception. In the Ford-Bellman solvers that read comes only after the negative-cycle check passes; when the check fails, the empty result is returned first, whatever the destination.
- SortAlgorithms.Partition: the pivot index drawn from `std::mt19937` is modelled as an arbitrary index in `[l, r]`. The proof covers every pivot the generator could pick.
- Sorts take a key function in place of the element type's `operator>` and `operator<=`. `EdgeTriple` sorts by weight, as its `operator<=` does.
- DijkstraList.FindShortestPaths: requires every edge weight to be non-negative, because the termination proof needs it. This excludes every graph with a negative edge, including graphs without a negative cycle, on which the C++ lazy-deletion loop also terminates. Graph input accepts any weight.
- DijkstraMatrix.FindShortestPaths: proves relaxedness, and hence shortest distances, only when all weights are non-negative. On negative weights only consistency is stated.
- FordBellmanList.FindShortestPaths and FordBellmanMatrix.FindShortestPaths: they prove the `V - 1`-round walk bound and the final check. They do not prove that the check passes whenever the graph has no negative cycle.
- ShortestPaths.DistancesAreShortest: bounds only walks whose running weights stay below the sentinel. Without that hypothesis, a walk through the sentinel is not comparable with an unreached distance.
- ShortestPaths.ReconstructSinglePath: the walk back follows at most `V` parent links. A C++ parent cycle would loop forever, and the model cuts it off instead.
- Prim never selects an edge of weight `INT_MAX`, because of the strict `weight < minWeight` test against the sentinel. The model keeps this behaviour and states it in the lightest-crossing lemmas.
