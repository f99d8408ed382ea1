# Bubble sort and breadth-first search, modelled and proved in Dafny

This project models two parts of the repository.

- `Sorting/BubbleSort.java` holds an optimised bubble sort. It sorts an `int[]` in place, ascending or descending, counts comparisons and swaps, and stops after the first pass that swaps nothing. The file also has a sortedness check (`isSorted`), a validation wrapper (`validateSort`), the `SortInput` request with its default order, and `executeBubbleSort`. All of this is module `Sorting` in `sorting.dfy`. Arrays stay arrays, sorted in place. A Java reference that may be `null` is an `array?`, and a `String` that may be `null` is an `Option<string>`.
- `Graph/bfs.cpp` holds class `Solution`. It runs breadth-first search over an adjacency list: the traversal order (`bfs`), input validation, the visited count, reachability, and shortest-path length. This part is split over three modules:
  - `Graph` (`graph.dfy`) says what paths, reachability and shortest-path distance are;
  - `BfsInvariant` (`bfs_invariant.dfy`) holds the loop invariant the three searches share, with one lemma per step of a search;
  - `Solution` (`solution.dfy`) holds the searches themselves, as methods with the source's own loops. The queue and the `visited` vector are local sequences. A ghost sequence `W` lists every node discovered so far, and a ghost map `level` gives each one's distance.

Main results:
- **Sort:**
  - it leaves the array ordered in the chosen direction, as a permutation of the input;
  - it is stable (witnessed by a ghost index map);
  - the array it leaves and its comparison count are exactly those of `RunFrom`, a functional definition of the passes up to the first one without a swap;
  - it reports exactly as many swaps as the input had inversions, and between n-1 and n(n-1)/2 comparisons;
  - on already-ordered input it makes one pass with no swaps.
- **bfs** returns exactly the nodes reachable from the start, each once, in non-decreasing order of distance.
- **isNodeReachable** answers exactly whether a directed path exists.
- **getShortestPathLength** returns exactly the shortest-path distance, or -1.

## Model

| member | source | states |
|---|---|---|
| Sorting.IsAscending | Sorting/BubbleSort.java:154 | A null order and "ASC" sort ascending; "DESC" and "desc" sort descending |
| Sorting.DescendingSpellings | Sorting/BubbleSort.java:154 | Descending is chosen exactly for four-letter case variants of "desc" under equalsIgnoreCase, including the long s U+017F that upper-cases to S |
| Sorting.OrderedIffSorted | Sorting/BubbleSort.java:244-255 | Checking adjacent pairs, as isSorted does, holds exactly when every pair is in order |
| Sorting.OrderedSpan | Sorting/BubbleSort.java:244-255 | If adjacent pairs are in order, any earlier element may precede any later one |
| Sorting.OutOfOrderWith | Sorting/BubbleSort.java:160 | The count of elements an element is out of order with is at most the number of elements |
| Sorting.Swap | Sorting/BubbleSort.java:163-165 | Exchanging positions j and j+1 changes those two positions and no other |
| Sorting.OutOfOrderWithZero | Sorting/BubbleSort.java:160 | An element is out of order with none of a sequence exactly when it may precede all of them |
| Sorting.NoInversionsIffSorted | Sorting/BubbleSort.java:156-174 | A sequence has no inversions exactly when it is sorted |
| Sorting.InversionsBound | Sorting/BubbleSort.java:156-174 | At most n(n-1)/2 pairs are inverted |
| Sorting.OrderedNoInversions | Sorting/BubbleSort.java:171-173 | An ordered sequence has no inversions |
| Sorting.OutOfOrderWithSwap | Sorting/BubbleSort.java:163-165 | Swapping two neighbours in a tail leaves how many of its elements an earlier element is out of order with unchanged |
| Sorting.SwapRemovesInversion | Sorting/BubbleSort.java:160-166 | Swapping an out-of-order adjacent pair removes exactly one inversion |
| Sorting.Identity | Sorting/BubbleSort.java:147-150 | The identity index map has length n and maps each k to k |
| Sorting.IdentityRearranges | Sorting/BubbleSort.java:147-150 | An untouched array is a stable rearrangement of itself |
| Sorting.PassTotalClosedForm | Sorting/BubbleSort.java:156-159 | p passes over shrinking prefixes make p(2n-1-p)/2 comparisons in total |
| Sorting.PassTotalGrows | Sorting/BubbleSort.java:156-159 | The comparison total grows with the number of passes |
| Sorting.PassTotalBound | Sorting/BubbleSort.java:156-159 | Between 1 and n-1 passes make between n-1 and n(n-1)/2 comparisons |
| Sorting.PassFrom | Sorting/BubbleSort.java:158-169 | The rest of a pass keeps the length and everything past the bound, and once a swap has been made the flag stays set |
| Sorting.BubblePass | Sorting/BubbleSort.java:157-169 | A whole pass over the prefix keeps the length and leaves everything past the bound as it was |
| Sorting.RunFrom | Sorting/BubbleSort.java:156-174 | The outer loop keeps the length; from pass i it stops at once when fewer than two elements remain, and otherwise after between i+1 and n-1 passes |
| Sorting.NextPass | Sorting/BubbleSort.java:156-173 | After pass i the outer loop stops exactly when that pass swapped nothing, and otherwise goes on from the array the pass produced |
| Sorting.PassFromOrdered | Sorting/BubbleSort.java:158-169 | On an ordered array a pass finds every pair in order: nothing changes and the flag stays as it was |
| Sorting.RunFromOrdered | Sorting/BubbleSort.java:171-173 | Ordered input of two or more elements stops after one pass, unchanged |
| Sorting.RunFromBounds | Sorting/BubbleSort.java:156-174 | Over n > 1 elements the outer loop makes 1 to n-1 passes, hence between n-1 and n(n-1)/2 comparisons |
| Sorting.PassExample | Sorting/BubbleSort.java:157-169 | One ascending pass over [3, 1, 2] gives [1, 2, 3] and reports a swap |
| Sorting.RunExample | Sorting/BubbleSort.java:156-174 | [2, 1, 3, 4] ascending ends as [1, 2, 3, 4] after two passes, the second without a swap, so 3 + 2 = 5 comparisons are counted |
| Sorting.PassStep | Sorting/BubbleSort.java:159-168 | One compare-and-swap step carries the largest element so far one position on, and keeps the array a stable rearrangement with the same multiset of elements |
| Sorting.SwapSettled | Sorting/BubbleSort.java:160-165 | A swap in the unsorted prefix leaves the settled suffix alone and moves the pass maximum to j+1 |
| Sorting.SwapRearranged | Sorting/BubbleSort.java:163-165 | Swapping both the array and its index map keeps the array a rearrangement of the input |
| Sorting.SwapStable | Sorting/BubbleSort.java:84 | A swap of two unequal neighbours keeps equal elements in their original relative order, as "stable = true" declares |
| Sorting.SwapMultiset | Sorting/BubbleSort.java:163-165 | A swap keeps the multiset of elements |
| Sorting.Settle | Sorting/BubbleSort.java:158-169 | After a pass, its largest element is settled at the end of the prefix |
| Sorting.SettledOrdered | Sorting/BubbleSort.java:171-173 | A pass without swaps, below a settled suffix, means the whole array is ordered |
| Sorting.Start | Sorting/BubbleSort.java:144-156 | Before the first pass, the invariant of the outer loop holds with zero counters |
| Sorting.AfterPass | Sorting/BubbleSort.java:156-174 | One more pass keeps the invariant of the outer loop: settled suffix, stable rearrangement, swaps plus remaining inversions constant, comparisons equal to the pass total |
| Sorting.Finish | Sorting/BubbleSort.java:171-177 | When the passes stop, after the last pass or after one without a swap, at the outcome RunFrom predicts, the array is ordered and is a stable permutation of the input. The swap count equals the input's inversions and is at most the comparison count, and the array and comparison count are those of the outcome |
| Sorting.Round | Sorting/BubbleSort.java:156-174 | One iteration of the outer loop performs exactly BubblePass on the unsettled prefix. After the last pass or a pass without swaps the sort is finished with the outcome RunFrom predicts; otherwise the invariant of the outer loop holds for the next pass, which RunFrom continues from |
| Sorting.Sort | Sorting/BubbleSort.java:142-178 | A null or short array gives zero counters, and a short array is left unchanged. Otherwise the array ends ordered in the direction the order selects, as a stable permutation of the input. The array is exactly what RunFrom computes from the input, and comparisonCount is PassTotal of the number of passes RunFrom counts (up to and including the first pass without a swap, at most n-1). swapCount is the input's number of inversions; 0 <= swapCount <= comparisonCount and n-1 <= comparisonCount <= n(n-1)/2. Already-ordered input is left unchanged, with counters (n-1, 0). |
| Sorting.Passes | Sorting/BubbleSort.java:152-174 | For two or more elements, the outer loop leaves the array RunFrom computes and makes PassTotal of RunFrom's pass count comparisons; the array is ordered, a stable permutation, and the swap count is the input's inversions, at most the comparison count |
| Sorting.Pass | Sorting/BubbleSort.java:157-169 | The array after one pass is exactly BubblePass of the array before, and the flag is BubblePass's flag. The pass settles one more element, adds bound-1 comparisons, removes as many inversions as it swaps (at most bound-1), and reports a swap exactly when it made one; a pass without swaps leaves the prefix ordered |
| Sorting.BubbleSort | Sorting/BubbleSort.java:131-133 | bubbleSort gives every guarantee of Sort with the direction fixed to ascending: ordered stable permutation, the array and comparison count RunFrom and PassTotal give, swapCount equal to the inversions, the comparison bounds, and ordered input unchanged with counters (n-1, 0) |
| Sorting.CountersFitInLong | Sorting/BubbleSort.java:31-32 | For any Java array length, at most n(n-1)/2 comparisons fit in a long, so the long counters never overflow |
| Sorting.PairsBelowSquare | Sorting/BubbleSort.java:31-32 | n(n-1) <= m*m for 0 <= n <= m |
| Sorting.IsSorted | Sorting/BubbleSort.java:239-256 | The result is true exactly when the array is null or every adjacent pair is in the direction the order selects |
| Sorting.IsSortedAscending | Sorting/BubbleSort.java:261-263 | Returns true exactly when the array is null or ascending |
| Sorting.ValidateSort | Sorting/BubbleSort.java:283-285 | The result carries the same array and the isSorted verdict for the given order |
| Sorting.ValidateSortAscending | Sorting/BubbleSort.java:272-274 | The result carries the same array and the ascending isSorted verdict |
| Sorting.SortThenValidate | Sorting/BubbleSort.java:341-349 | Validating an array right after sorting it in the same order always reports it sorted |
| Sorting.SortInput.constructor | Sorting/BubbleSort.java:21-24 | A null order becomes "ASC", which selects the same direction as null |
| Sorting.ExecuteBubbleSort | Sorting/BubbleSort.java:187-193 | A null request or null elements give zero counters and a new empty array. Otherwise the request's own array is sorted in place in its order, ending as RunFrom computes with PassTotal of its pass count as comparisons, and the swap count is its number of inversions |
| Graph.Dist | Graph/bfs.cpp:56-63 | The shortest-path distance of a reachable node is a distance: some path has that many edges and none has fewer |
| Graph.ShortestPathExists | Graph/bfs.cpp:56-63 | A node reached by some path has a shortest-path distance |
| Graph.DistanceUnique | Graph/bfs.cpp:56-63 | The shortest-path distance is unique |
| Graph.ReachesItself | Graph/bfs.cpp:143-145 | Every node reaches itself, at distance 0 |
| Graph.PathExtend | Graph/bfs.cpp:158-165 | A path to the current node plus an edge to a neighbour is a path to the neighbour |
| Graph.PathSplitLast | Graph/bfs.cpp:154-167 | A path of two or more nodes ends with an edge from the node before the last |
| BfsInvariant.SteadyInit | Graph/bfs.cpp:82-87 | A queue holding only the start node, at level 0, satisfies the search invariant |
| BfsInvariant.CoversPath | Graph/bfs.cpp:89-101 | Every node no farther from the start than the queue head is already discovered |
| BfsInvariant.CoveredToHead | Graph/bfs.cpp:89-101 | The covered radius reaches the level of the queue head |
| BfsInvariant.Pop | Graph/bfs.cpp:89-92 | Taking the head off the queue starts its expansion with the invariant intact |
| BfsInvariant.NewNeighbour | Graph/bfs.cpp:95-99 | An undiscovered neighbour of the node being expanded is exactly one level farther from the start |
| BfsInvariant.Discover | Graph/bfs.cpp:96-99 | Marking an undiscovered neighbour and queueing it, one level on, keeps the invariant |
| BfsInvariant.ExpandingAppend | Graph/bfs.cpp:96-99 | The parts of the invariant hold again with the new node appended |
| BfsInvariant.GrowKeepsExpanded | Graph/bfs.cpp:96-99 | Appending a node keeps expanded nodes expanded and covered nodes covered |
| BfsInvariant.DiscoveredAppend | Graph/bfs.cpp:96-99 | Appending an undiscovered node at a level no lower than any queued one keeps discovery order and exact levels |
| BfsInvariant.Skip | Graph/bfs.cpp:96 | Passing over an already-visited neighbour keeps the invariant |
| BfsInvariant.Finish | Graph/bfs.cpp:95-100 | After the last neighbour, the dequeued node is fully expanded |
| BfsInvariant.ClosedPath | Graph/bfs.cpp:89-101 | Once the queue is empty, every path from the start stays among the discovered nodes |
| BfsInvariant.Complete | Graph/bfs.cpp:101-103 | When the queue empties, the discovered nodes are exactly those reachable. Each appears once, with its exact distance, in non-decreasing distance order, and there are at most graph.size() of them |
| BfsInvariant.DistinctBound | Graph/bfs.cpp:82 | Distinct nodes of an n-node graph number at most n |
| BfsInvariant.DistinctCard | Graph/bfs.cpp:89-101 | A sequence without repeats has as many distinct entries as its length |
| Solution.ValidateGraphInput | Graph/bfs.cpp:106-125 | Returns true exactly when the graph is non-empty and every neighbour index lies in [0, n) |
| Solution.GetVisitedCount | Graph/bfs.cpp:127-129 | The count is the number of nodes in the result; Solution.Bfs states it equals the number of reachable nodes |
| Solution.MarkNew | Graph/bfs.cpp:96-98 | Setting visited[v] as v is queued keeps visited true exactly for the discovered nodes |
| Solution.Bfs | Graph/bfs.cpp:68-104 | An invalid graph or an out-of-range start gives the empty result. Otherwise the result starts at start and lists each node exactly when it is reachable, with no repeats and at most n entries. The result is in non-decreasing order of distance (level by level), and its visited count is the number of reachable nodes. |
| Solution.BfsExpand | Graph/bfs.cpp:95-100 | Expanding the dequeued node leaves it fully expanded, with the invariant and the exact visited marks kept. The queue keeps its old entries in front and gains only neighbours of that node |
| Solution.BfsVisit | Graph/bfs.cpp:96-99 | The neighbour is a node index. If visited is unset for it, it is marked and appended to the queue; otherwise queue and marks are unchanged. The invariant is kept |
| Solution.IsNodeReachable | Graph/bfs.cpp:131-170 | An invalid graph or an out-of-range node gives false. Otherwise the result is true exactly when a directed path leads from start to target. |
| Solution.ReachExpand | Graph/bfs.cpp:158-166 | Meeting the target as a neighbour proves it reachable. Otherwise the node is fully expanded and the target stays undiscovered. The queue keeps its old entries in front and gains only neighbours of the node |
| Solution.ReachVisit | Graph/bfs.cpp:162-165 | A non-target neighbour that is not yet visited is marked and appended to the queue; otherwise queue and marks are unchanged. The invariant is kept |
| Solution.GetShortestPathLength | Graph/bfs.cpp:172-212 | An invalid graph or an out-of-range node gives -1. Otherwise the result is the shortest-path distance from start to target, or -1 when target is unreachable. |
| Solution.DepthExpand | Graph/bfs.cpp:199-207 | Meeting the target as a neighbour of a node at distance dist proves the target is at distance exactly dist+1. Otherwise the node is fully expanded. The queue keeps its old entries in front and gains only (neighbour, dist+1) pairs |
| Solution.DepthVisit | Graph/bfs.cpp:203-206 | A neighbour that is not yet visited is marked and appended with distance dist+1; otherwise queue and marks are unchanged. Each queued pair carries its node's exact distance |
| Solution.GrowsStep | Graph/bfs.cpp:158-165 | A neighbour step that appends one neighbour, or nothing, keeps the queue an extension of the one the loop started from |
| Solution.GrowsAtStep | Graph/bfs.cpp:199-206 | The same for the depth-carrying queue, with every new entry at depth dist+1 |
| Solution.Dequeue | Graph/bfs.cpp:196-197 | The front of the queue is the next discovered node paired with its exact distance |
| Solution.PathLengthAgreesWithReachability | Graph/bfs.cpp:131-212 | On every input, getShortestPathLength is non-negative exactly when isNodeReachable answers true |

## Left out

- Time measurement: the `execution_time_ns` counter of `SortMetrics` (System.nanoTime) and the `Date` timestamp of `SortResult` are not modelled, because they are clock readings. The Dafny `SortMetrics` and `SortResult` carry only the other fields.
- `runBenchmark`, `BenchmarkResult`, `getAlgorithmInfo`/`AlgorithmInfo`, `healthCheck`, the `toString` methods and `main` are not modelled. They fill arrays from `java.util.Random`, measure time and build fixed strings. Only the sort-then-validate use in `main` is modelled, as `Sorting.SortThenValidate`.
- Sorting.IsAscending: `equalsIgnoreCase` is modelled by its effect on a comparison with "DESC". UpperCase folds a–z and U+017F, which is enough to decide a comparison with "DESC"; full Unicode case mapping is not modelled, because no other character can match.
- Sorting.Sort: the counters are unbounded integers. Java's 64-bit `long` wrap-around is not modelled, because `Sorting.CountersFitInLong` shows the counts stay far below 2^63.
- Sorting.Sort: the ghost out-parameter `perm`, the index map that witnesses stability, has no counterpart in the source.
- The graph is passed to the `Solution` methods as a value (`seq<seq<int>>`) rather than by reference, because no method writes to it.
- `std::queue`, `vector<bool> visited` and `vector<int>` are modelled as local sequences. The 32-bit `int` of `graph.size()`, of node indices and of `dist + 1` is modelled as unbounded, because a distance is below the node count.
- The body of the outer loop of `sort` is factored into `Sorting.Round` and `Sorting.Pass` (the inner `for` loop). The loops, their `break` and the order of comparisons are the source's own.
- The neighbour loop of each search is factored into an expand method (the `for` loop) and a per-neighbour step method. The loop structure and the order of visits are the source's own.
- The `bfs` documentation says an empty graph or an out-of-range start gives an empty result. The code also returns an empty result for any graph that fails `validateGraphInput`, and the model follows the code.
