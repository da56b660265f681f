# oh-my-dsa in Dafny

A model of the oh-my-dsa repository, with proofs. The repository has three parts:
- two implementations of single-decree Paxos: classic Paxos in Rust and CASPaxos in Go;
- a set of Rust data-structure exercises: a ring buffer, an in-memory file system, an LSM tree, skip lists, a B-tree, a double-array trie, sorting and selection, graph algorithms and a pseudo-random generator;
- a set of Go exercises: sorting (insertion, Shell, heap and pattern-defeating quicksort), red-black trees, a treap, a skip list and an Aho-Corasick trie.

Most core source files are modelled in a module of their own; a module Base holds the vocabulary they share (bytes, Option and Result, the bytewise order and decimal text). The exceptions:
- The two Go red-black trees share the tree, its walks and its fix-ups (module RbTree), which the second one (module RbTreeGo2) extends with values.
- sc.rs: Tarjan's invariants and the steps that keep them (module TarjanInvariant) sit beside the search itself (module StrongConnect).
- lsm.rs: the tree as written (module Lsm) and the corrected compaction and search (module LsmFixed).
- memfs.rs: the file system (module MemFs) and its byte encoding helpers (module IoUtil).
- sort.rs: the quicksort and insertion sort (module RangeSort); the ascending order and permutations that they and bfprt.rs use are module Sorting, with the fact that two sorts of one range agree.
- pdqsort.go: the block partition (module PdqPartition) and the rest of the sort (module Pdqsort).
- sort.go and util.go share one module, GoSort, since the sorts there use the helpers in util.go.

Each module takes the form its source takes:
- A structure whose methods update fields in place is a `class`.
- Pure helpers are functions.
- Loops are methods with invariants.

Each method is proved against a specification function or an explicit property. Lemmas then relate operations to each other: round trips, preserved invariants, and agreement with reference definitions.

Shared definitions:
- `base.dfy` holds the byte, `Option`/`Result`, lexicographic-order, decimal and UTF-8 helpers.
- `sorting.dfy` holds ascending order and permutation facts about integer sequences.

## Model

| member | source | states |
|---|---|---|
| RingBuffer.Ring.constructor | regular/src/ring.rs:40-47 | a new ring of capacity N holds nothing |
| RingBuffer.Ring.Len | regular/src/ring.rs:50-52 | the length is the number of live items and never exceeds the capacity |
| RingBuffer.Ring.IsFull | regular/src/ring.rs:54-56 | full exactly when the live items fill the capacity |
| RingBuffer.Ring.DropFront | regular/src/ring.rs:58-68 | returns true exactly when the ring was non-empty, and then the oldest item is gone |
| RingBuffer.Ring.PushBack | regular/src/ring.rs:70-79 | a capacity-0 ring ignores the push; a full ring drops its oldest item; the new item becomes the newest |
| RingBuffer.Ring.Append | regular/src/ring.rs:77-78 | with room left, writing the slot after the newest item appends exactly that item and disturbs no live one |
| RingBuffer.Ring.PopFront | regular/src/ring.rs:81-87 | an empty ring gives None and stays empty; otherwise the oldest item is returned and removed |
| RingBuffer.Ring.Front | regular/src/ring.rs:89-91 | the oldest item, or None when empty |
| RingBuffer.Ring.Get | regular/src/ring.rs:101-103 | the item `at` places after the oldest, or None when `at` is not below the length |
| RingBuffer.Ring.SetFront | regular/src/ring.rs:93-99 | writing through the front reference replaces only the oldest item, and only when there is one |
| RingBuffer.Ring.SetAt | regular/src/ring.rs:105-111 | writing through `get_mut` replaces only item `at`, and only when `at` is in range |
| RingBuffer.Ring.Iterate | regular/src/ring.rs:3-20 | iteration yields the live items from oldest to newest |
| RingBuffer.PushAllKeepsLast | regular/src/ring.rs:70-79 | pushing any sequence into an empty ring of capacity n leaves exactly its last n items, oldest first |
| PseudoRandom.PseudoRand.constructor | regular/src/rand.rs:10-12 | the state is the seed |
| PseudoRandom.PseudoRand.Rand | regular/src/rand.rs:14-18 | the output is the 64-bit wrapping LCG step of the old state and becomes the new state |
| PseudoRandom.Outputs | regular/src/rand.rs:14-18 | the first output of a seed is its step; the sequence has the requested length |
| PseudoRandom.OutputsChain | regular/src/rand.rs:14-18 | each output is the step applied to the previous output |
| PseudoRandom.LowBits | regular/src/rand.rs:15 | modulo 2^k, wrapping at 2^64 does not matter for k <= 64 |
| PseudoRandom.LowBitsDependOnLowBits | regular/src/rand.rs:15 | the low k bits of the next state depend only on the low k bits of the state |
| PseudoRandom.LowBitAlternates | regular/src/rand.rs:15 | the lowest bit flips at every step |
| RangeSort.Partition | regular/src/sort.rs:1-17 | returns k in [l, r] where the old a[l] now stands; the elements left of k are at most a[k] and those right of it at least a[k]; a permutation that leaves everything outside [l, r] alone |
| RangeSort.Round | regular/src/sort.rs:5-14 | one round of the outer loop narrows [i, j], keeps the scanned elements on the right sides of the pivot and keeps the elements with the pivot standing in the hole |
| RangeSort.FillFromRight | regular/src/sort.rs:6-9 | the right scan stops at an element below the pivot (or at i), that element fills the hole at i, and the hole moves there |
| RangeSort.FillFromLeft | regular/src/sort.rs:10-13 | the left scan stops at an element above the pivot (or at j), that element fills the hole at j, and the hole moves there |
| RangeSort.ScanDown | regular/src/sort.rs:6-8 | j moves left over elements not below the pivot and never passes i |
| RangeSort.ScanUp | regular/src/sort.rs:10-12 | i moves right over elements not above the pivot and never passes j |
| RangeSort.QuickSort | regular/src/sort.rs:19-27 | a[l..=r] ends up sorted and a permutation of what it held; nothing outside it changes; an empty or one-element range is left alone |
| RangeSort.SortLeft | regular/src/sort.rs:22-24 | the recursive call on the left side keeps the pivot and keeps every left element at most the pivot |
| RangeSort.SortRight | regular/src/sort.rs:25 | the recursive call on the right side keeps the pivot and keeps every right element at least the pivot |
| RangeSort.JoinAroundPivot | regular/src/sort.rs:19-27 | a sorted left side, the pivot and a sorted right side make one sorted range |
| RangeSort.InsertSort | regular/src/sort.rs:29-41 | a[l..=r] ends up sorted and a permutation of what it held, nothing outside it changes, and an already sorted range is not touched |
| RangeSort.Insert | regular/src/sort.rs:31-39 | an element out of order with its sorted prefix is moved into place: the prefix through i becomes sorted, as a permutation |
| RangeSort.ShiftOne | regular/src/sort.rs:34-37 | one step of the shift keeps both sorted runs and the elements, with the gap one place further left |
| RangeSort.ShiftFacts | regular/src/sort.rs:34-37 | copying the element left of the gap into the gap keeps both sorted runs, the elements and everything outside the range, with the gap one place to the left |
| RangeSort.Place | regular/src/sort.rs:38 | putting the held element into the gap makes the prefix sorted |
| Sorting.MoveHole | regular/src/sort.rs:9 | filling the hole from another position keeps the elements, counting the held value at the hole |
| Sorting.SortedRangeUnique | regular/src/sort.rs:47-61 | two sorts of the same range of the same array give the same array, so both routines produce the result the tests expect |
| Bfprt.SwapIn | regular/src/bfprt.rs:12 | exchanges the two positions, keeps the elements and changes nothing outside [l, r] |
| Bfprt.GroupMedian | regular/src/bfprt.rs:10-12 | sorting one group and swapping its median to the front of the range only rearranges a[l..=r] |
| Bfprt.FindMid | regular/src/bfprt.rs:3-27 | returns an index in [l, r], and only rearranges a[l..=r] |
| Bfprt.Partition | regular/src/bfprt.rs:29-46 | the element that stood at p ends at the returned k in [l, r], with no greater element before it and no smaller one after it in the range; a permutation that changes nothing outside [l, r] |
| Bfprt.Select | regular/src/bfprt.rs:49-60 | for 1 <= k <= r - l + 1 the result is the element at l + k - 1, every element before it in the range is at most it and every one after it at least it, so it is the k-th smallest; a permutation that changes nothing outside [l, r] |
| Bfprt.SelectBelow | regular/src/bfprt.rs:55-56 | when the pivot at i lands after position l + k - 1, selecting among the elements before it gives the k-th smallest of the whole range, with the same order and permutation guarantees |
| Bfprt.SelectAbove | regular/src/bfprt.rs:57-58 | when the pivot at i lands before position l + k - 1, selecting the (k - (i - l + 1))-th among the elements after it gives the k-th smallest of the whole range, with the same order and permutation guarantees |
| Bfprt.KeptLeft | regular/src/bfprt.rs:55-56 | rearranging the part left of the pivot keeps it at most the pivot and leaves the pivot and everything right of it in place |
| Bfprt.KeptRight | regular/src/bfprt.rs:57-58 | rearranging the part right of the pivot keeps it at least the pivot and leaves the pivot and everything left of it in place |
| Bfprt.SmallestFirst | regular/src/bfprt.rs:66-73 | after a selection every element of a[l..l+k) is at most every element of a[l+k..=r], so the first k positions hold the k smallest |
| Bfprt.Widen | regular/src/bfprt.rs:25 | agreement outside a range carries over to a wider range and composes, so a recursive call on a sub-range changes nothing outside the caller's range |
| Graphs.Graph.constructor | regular/src/graph.rs:14-19 | a new graph has vs vertices and no edges |
| Graphs.Graph.AddEdge | regular/src/graph.rs:21-23 | the edge v -> w is appended to v's list and nothing else changes |
| Graphs.AddedInDeg | regular/src/graph.rs:21-23 | adding v -> w raises w's in-degree among the first k vertices by one when v is one of them, and changes no other in-degree |
| Graphs.Graph.InDegs | regular/src/graph.rs:25-33 | entry w of the result is the number of edges into w, counted with multiplicity |
| Graphs.Graph.Transpose | regular/src/graph.rs:45-53 | returns a fresh graph with the same vertices whose rows are the transposed rows: in row w, the tails of the edges into w, by tail and with multiplicity |
| Graphs.SourcesCount | regular/src/graph.rs:45-53 | the transpose lists v in row w exactly as often as the graph lists w in row v |
| Graphs.SourcesLength | regular/src/graph.rs:45-53 | a row of the transpose is as long as that vertex's in-degree |
| Graphs.TransposedEdge | regular/src/graph.rs:45-53 | u -> w is an edge of the transpose exactly when w -> u is an edge of the graph |
| Graphs.TransposedClosed | regular/src/graph.rs:45-53 | every edge of the transpose ends at a vertex of the graph |
| Graphs.TransposeTwice | regular/src/graph.rs:45-53 | transposing twice gives back every row's edges with their multiplicity |
| Graphs.TransposedReach | regular/src/graph.rs:45-53 | w reaches u in the transpose exactly when u reaches w in the graph |
| Graphs.ReachTrans | regular/src/graph.rs:56-65 | reachability composes |
| Graphs.ClosedHoldsReachable | regular/src/graph.rs:56-65 | a set of vertices that holds u and is closed under edges holds everything u reaches |
| Graphs.DfsJoin | regular/src/graph.rs:59-64 | searching an unvisited neighbour extends the visit order of a search in progress and keeps it without repeats, reachable from v and closed under edges of finished vertices |
| Graphs.DfsRecur | regular/src/graph.rs:56-65 | the visit order starts at v, has no repeats, and lists exactly the vertices the call newly marks; all of them are reachable from v and every edge out of them ends at a marked vertex; marks are only added |
| Graphs.SearchedAll | regular/src/graph.rs:67-70 | a search from v that starts with nothing marked marks, and lists, exactly the vertices reachable from v |
| Graphs.Dfs | regular/src/graph.rs:67-70 | the visit order starts at v, has no repeats, and lists exactly the vertices reachable from v |
| Graphs.Expand | regular/src/graph.rs:79-83 | the queue grows by the neighbours of v that are not yet visited, in order, and every neighbour is then visited or queued |
| Graphs.BfsRound | regular/src/graph.rs:76-84 | one round keeps every queued vertex reachable from the start and every edge out of a visited vertex ending at a visited or queued vertex |
| Graphs.Bfs | regular/src/graph.rs:72-85 | the visit order starts at v and lists exactly the vertices reachable from v, possibly more than once |
| StrongConnect.IsSc | regular/src/graph/sc.rs:6-16 | true exactly when every vertex reaches every other, for a graph with at least one vertex |
| StrongConnect.StronglyConnected | regular/src/graph/sc.rs:6-16 | if vertex 0 reaches every vertex and every vertex reaches vertex 0, every vertex reaches every other |
| StrongConnect.TarjanContext.constructor | regular/src/graph/sc.rs:57-65 | the context starts with no vertex numbered, an empty stack and no components, and satisfies the context invariant |
| TarjanInvariant.PushKeeps | regular/src/graph/sc.rs:29-33 | giving an unnumbered vertex the next number and pushing it keeps every numbered vertex counted exactly once among the components and the stack, and keeps the stack's numbers no smaller than its bottom's |
| TarjanInvariant.PopKeeps | regular/src/graph/sc.rs:44-50 | popping the top onto the component being built keeps every numbered vertex counted once, and the popped vertex is nowhere else on the stack |
| TarjanInvariant.EmitKeeps | regular/src/graph/sc.rs:52 | pushing the finished component keeps the invariant |
| TarjanInvariant.AboveBottom | regular/src/graph/sc.rs:38-39 | a vertex on the stack has a number no smaller than the stack's bottom |
| TarjanInvariant.PushLinked | regular/src/graph/sc.rs:29-33 | numbering and pushing an unnumbered vertex, with itself as its low-link witness, keeps the path invariant: stack numbers rise, each stack vertex reaches the stack vertex whose number is its low link, finished vertices' edges are accounted for, emitted vertices carry their component index, and components are strongly connected |
| TarjanInvariant.LowerLinked | regular/src/graph/sc.rs:37-39 | lowering an unfinished stack vertex's low link to the number of a stack vertex it reaches keeps the path invariant |
| TarjanInvariant.FinishLinked | regular/src/graph/sc.rs:34-41 | once every edge of u ends at a numbered vertex, numbered no lower than u's low link while on the stack, marking u finished keeps the path invariant |
| TarjanInvariant.ToRoot | regular/src/graph/sc.rs:42-50 | every vertex on the stack from a root (low link equal to its number) up reaches that root |
| TarjanInvariant.SplitApart | regular/src/graph/sc.rs:44-50 | cutting the stack at the root: a vertex is on the stack exactly when it is below the cut or among the popped vertices, never both |
| TarjanInvariant.EmitLabelled | regular/src/graph/sc.rs:42-52 | after the pop, each emitted vertex is numbered, off the stack and labelled with the index of the component holding it |
| TarjanInvariant.EmitDownward | regular/src/graph/sc.rs:42-52 | after the pop, every edge out of an emitted vertex ends in the same component or an earlier one |
| TarjanInvariant.EmitConnected | regular/src/graph/sc.rs:42-52 | the new component's members reach each other through its root |
| TarjanInvariant.EmitLinked | regular/src/graph/sc.rs:42-53 | popping the root's component and emitting it keeps the path invariant |
| TarjanInvariant.IndexFalls | regular/src/graph/sc.rs:56-73 | along any path, the component index never grows when every edge leads to an index no larger |
| TarjanInvariant.EnterStep | regular/src/graph/sc.rs:29-33 | entering an unnumbered u keeps both invariants and starts the search from u with no edge followed |
| TarjanInvariant.TreeLower | regular/src/graph/sc.rs:35-37 | after the search from v, lowering u's low link to the smaller of its own and v's keeps both invariants, with a witness on the stack that u reaches |
| TarjanInvariant.TreeSubtree | regular/src/graph/sc.rs:35-37 | after the tree edge to v, the stack from u up is still u's part of the search: reached from u, low links no lower than u's, finished |
| TarjanInvariant.TreeEdges | regular/src/graph/sc.rs:34-37 | after the tree edge, each followed edge of u ends at a numbered vertex, numbered no lower than u's low link while on the stack |
| TarjanInvariant.TreeFollowing | regular/src/graph/sc.rs:34-37 | after the tree edge, the search from u has followed one more edge |
| TarjanInvariant.BackStep | regular/src/graph/sc.rs:38-39 | an edge to a vertex on the stack lowers u's low link to at most that vertex's number, keeps both invariants and counts one more followed edge |
| TarjanInvariant.SkipStep | regular/src/graph/sc.rs:34-40 | an edge to a numbered vertex off the stack only counts one more followed edge |
| TarjanInvariant.FinishStep | regular/src/graph/sc.rs:41-42 | after u's last edge, u is finished and the path invariant holds; a non-root u is done with its part of the search on the stack |
| TarjanInvariant.CloseStep | regular/src/graph/sc.rs:42-53 | at a root, popping its component back to the stack before u keeps the path invariant and completes the search from u |
| StrongConnect.TarjanContext.PopTop | regular/src/graph/sc.rs:44-50 | one pass pops the top, clears its in_stack mark and adds it to the component, which stays the popped part of the stack read top first; the loop ends exactly when u is popped |
| StrongConnect.TarjanContext.PopComponent | regular/src/graph/sc.rs:42-53 | the stack is cut back to below u, and the popped vertices, top first, are added as one new component |
| StrongConnect.TarjanContext.Enter | regular/src/graph/sc.rs:29-33 | u takes the next number as its number and low link and is pushed; the search from u starts with no edge followed |
| StrongConnect.TarjanContext.Follow | regular/src/graph/sc.rs:34-40 | following u's next edge keeps both invariants and the search from u, with one more edge followed |
| StrongConnect.TarjanContext.TreeEdge | regular/src/graph/sc.rs:35-37 | an edge to an unnumbered v searches v, then u's low link takes the smaller of its own and v's |
| StrongConnect.TarjanContext.Leave | regular/src/graph/sc.rs:42-53 | u is finished; when its low link equals its number its component is popped and the stack returns to what it was before u was pushed; otherwise u stays on the stack with its part of the search above it |
| StrongConnect.TarjanContext.Recur | regular/src/graph/sc.rs:28-54 | u is numbered and finished; earlier numbers, low links and finished marks stay; the earlier stack stays at the bottom; u's low link lies between the bottom's number and u's own; a root's component is popped and anything else stays on the stack |
| StrongConnect.TarjanScc | regular/src/graph/sc.rs:56-73 | every vertex occurs exactly once in the concatenated components and no other value occurs; no component is empty; the members of a component reach each other; two vertices that reach each other lie in the same component |
| Topo.StuckHasCycle | regular/src/graph/topo.rs:14-23 | when every vertex missing from an output has an in-neighbour that is missing too, and some vertex is missing, the graph has a cycle (why Kahn's algorithm stops short only on cyclic graphs) |
| Topo.OrderedNoCycle | regular/src/graph/topo.rs:5-24 | an order listing every vertex once with each in-neighbour first rules out every cycle |
| Topo.Relax | regular/src/graph/topo.rs:16-21 | decrementing the in-degree of each head of u's edges and queueing those that reach zero keeps each count equal to the number of edges from vertices not yet output, and the queue holding exactly the zero-count vertices not yet output |
| Topo.PredsExtend | regular/src/graph/topo.rs:15 | appending a vertex with no remaining in-edges keeps every in-neighbour before its vertex |
| Topo.ZeroInDegrees | regular/src/graph/topo.rs:7-12 | the starting queue holds each vertex of in-degree zero exactly once and nothing else |
| Topo.Kahn | regular/src/graph/topo.rs:5-24 | output values are vertices without repeats, every in-neighbour of an output vertex precedes it, every missing vertex has a missing in-neighbour, and the output holds all vertices exactly when the graph has no cycle |
| Topo.GrayPush | regular/src/graph/topo.rs:27 | marking an unvisited vertex 1 extends the search path by it |
| Topo.Finish | regular/src/graph/topo.rs:39-40 | marking a vertex 2 once all its out-neighbours are 2 and appending it keeps the finished list free of repeats with every out-neighbour before its vertex |
| Topo.CycleFound | regular/src/graph/topo.rs:29-31 | an edge from the end of the search path to a vertex marked 1 closes a cycle |
| Topo.DfsTopoRecur | regular/src/graph/topo.rs:26-42 | false only when the graph has a cycle; true with u marked 2, earlier marks kept, and the finished list extended so that each vertex follows all its out-neighbours, once each |
| Topo.CountReversed | regular/src/graph/topo.rs:55 | reversing keeps how often every value occurs |
| Topo.SuccsToPreds | regular/src/graph/topo.rs:55-56 | reversing a list of all vertices in which out-neighbours come first gives one in which in-neighbours come first |
| Topo.DfsTopo | regular/src/graph/topo.rs:44-57 | None only on a cyclic graph; Some holds every vertex exactly once with every in-neighbour first; Some exactly when the graph has no cycle |
| GoSort.Reversed | goofy/sort/util.go:9-17 | the reverse has the same length and holds at i the element at the mirrored index |
| GoSort.ReversedTwice | goofy/sort/util.go:9-17 | reversing twice gives the sequence back |
| GoSort.ReversedKeepsMultiset | goofy/sort/util.go:9-17 | reversing keeps the elements |
| GoSort.Swap | goofy/sort/util.go:3-7 | a[i] and a[j] trade places, every other index keeps its element, and the elements are kept |
| GoSort.Rev | goofy/sort/util.go:9-17 | the slice ends up equal to the reverse of what it held; the rest of the array is untouched and the elements are kept |
| GoSort.EndsMeet | goofy/sort/util.go:12-16 | once the two ends have met, every swapped pair is mirrored, so the slice is reversed |
| GoSort.SwapEnds | goofy/sort/util.go:13-15 | the swap at l and its mirror r extends the reversed ends by one place on each side |
| GoSort.Min | goofy/sort/util.go:19-25 | the result is at most both arguments and equal to one of them |
| GoSort.ShiftForward | goofy/sort/sort.go:7-15 | a[j] moves left to the first place k whose left neighbour is not larger, or to the slice start; the elements in between move one place right and are all larger than it; nothing else changes |
| GoSort.ShiftedIntoSorted | goofy/sort/sort.go:7-15 | moving an element that way into a sorted prefix makes the prefix one longer and sorted |
| GoSort.InsertionSort | goofy/sort/sort.go:17-23 | the slice ends up sorted ascending and a permutation of what it held; nothing outside it changes |
| GoSort.GapOneSorted | goofy/sort/sort.go:40-46 | a slice sorted with gap 1 is sorted |
| GoSort.SinkStep | goofy/sort/sort.go:26-31 | one swap along the gap chain either ends with the prefix through i gap-sorted, or leaves the element to sink one gap lower |
| GoSort.SwapSink | goofy/sort/sort.go:27-28 | the swap at j and j - h keeps the chain state one gap lower and the elements, touching only the prefix through i |
| GoSort.ShiftForwardStep | goofy/sort/sort.go:25-33 | with a[..j) sorted at gap h and a[j] below a[j - h], a[..=j] ends up sorted at gap h, as a permutation, touching nothing past j |
| GoSort.Gap | goofy/sort/sort.go:36-40 | each gap is 1 modulo 3 and divides by 3 into the previous gap, so the gaps are 1, 4, 13, 40 and so on |
| GoSort.LastGapIsOne | goofy/sort/sort.go:40 | dividing a gap by 3 gives the previous gap, and the gap whose third is 0 is 1 |
| GoSort.StartGap | goofy/sort/sort.go:36-39 | the starting gap is the first of the gaps that is not below len / 3 |
| GoSort.GapPass | goofy/sort/sort.go:41-45 | one pass with gap h leaves the slice sorted at gap h, as a permutation, touching nothing outside it |
| GoSort.ShellSort | goofy/sort/sort.go:35-47 | the slice ends up sorted ascending and a permutation of what it held; nothing outside it changes |
| GoSort.Children | goofy/sort/sort.go:52-53 | the nodes whose parent is j are exactly 2j + 1 and 2j + 2 |
| GoSort.LargerChild | goofy/sort/sort.go:52-56 | the child that siftDown picks is a child of j and is at least every child of j |
| GoSort.SiftStep | goofy/sort/sort.go:60-61 | exchanging j with its larger child, when that child is above it, moves the one defect of the heap down to the child |
| GoSort.SiftDone | goofy/sort/sort.go:57-59 | when j has no child or is at least its larger child, the heap has no defect left |
| GoSort.SwapDown | goofy/sort/sort.go:60-61 | the swap of a node with its larger child moves the defect down, keeps the elements and touches only the two nodes' range |
| GoSort.SiftDown | goofy/sort/sort.go:49-63 | when the subtrees below i are max-heaps, the slice ends up a max-heap from i down, as a permutation, changing nothing before i |
| GoSort.RootIsMax | goofy/sort/sort.go:65-73 | the root of a max-heap is at least every node of it |
| GoSort.NoParentsAbove | goofy/sort/sort.go:66 | the nodes from len / 2 on have no children, so the first loop of HeapSort may start at len / 2 - 1 |
| GoSort.MaxToEnd | goofy/sort/sort.go:70 | swapping the root with the last heap node i puts the largest heap element at i, in front of the sorted tail |
| GoSort.HeapRestored | goofy/sort/sort.go:71 | making the remaining prefix a heap again restores the state of the second loop one step further |
| GoSort.MoveMax | goofy/sort/sort.go:69-72 | one round of the second loop shrinks the heap by one and grows the sorted tail by one, as a permutation |
| GoSort.SortedBelowRest | goofy/sort/sort.go:69 | when at most one heap node is left, the slice is sorted |
| GoSort.HeapSort | goofy/sort/sort.go:65-73 | the slice ends up sorted ascending and a permutation of what it held; nothing outside it changes |
| PdqPartition.FillLeft | goofy/sort/pdqsort.go:82-93 | after scanning n elements of the left block, the offsets listed are exactly, in increasing order, those of the elements at least the pivot |
| PdqPartition.FillRight | goofy/sort/pdqsort.go:95-106 | after scanning n elements of the right block from its end, the offsets listed are exactly, in increasing order, those of the elements below the pivot |
| PdqPartition.OpenHole | goofy/sort/pdqsort.go:110-111 | lifting the first misplaced left element and moving the first misplaced right one into its place opens the cycle with one hole and keeps the elements |
| PdqPartition.CycleStep | goofy/sort/pdqsort.go:113-116 | one turn of the cyclic swap moves the next left element into the hole on the right and the next right element into its place |
| PdqPartition.TurnAll | goofy/sort/pdqsort.go:112-117 | the loop of the cyclic swap keeps the cycle's state and its single hole, and advances both cursors by the same count |
| PdqPartition.PlaceLifted | goofy/sort/pdqsort.go:118-120 | dropping the lifted element into the hole closes the cycle: every exchanged element is now on its side, the rest of the array is unchanged and the elements are kept |
| PdqPartition.CycleSwap | goofy/sort/pdqsort.go:108-121 | count misplaced elements of each block change sides, the cursors advance by count, and the array is a permutation changed only inside the window |
| PdqPartition.FillBlocks | goofy/sort/pdqsort.go:82-106 | only an exhausted block is rescanned, at the size given, and the block state then lists its misplaced elements |
| PdqPartition.Exchange | goofy/sort/pdqsort.go:108-121 | after the exchange at least one of the two blocks has no misplaced element left; the block state and the elements are kept |
| PdqPartition.Round | goofy/sort/pdqsort.go:64-131 | one round keeps the block state and the elements, settles every exhausted block, shares out the last two blocks when the window is short, and otherwise shrinks the window |
| PdqPartition.DrainLeft | goofy/sort/pdqsort.go:133-139 | moving the misplaced elements of the pending left block to the end of the window settles the whole window, as a permutation |
| PdqPartition.DrainRight | goofy/sort/pdqsort.go:140-146 | moving the misplaced elements of the pending right block to the front of the window settles the whole window, as a permutation |
| PdqPartition.Finish | goofy/sort/pdqsort.go:133-147 | the result splits the window: everything before it is below the pivot and everything from it on is not |
| PdqPartition.PartitionInBlocks | goofy/sort/pdqsort.go:49-148 | returns k with every element of the first k below the pivot and every later one at least the pivot; the window is a permutation of itself and nothing outside it changes |
| PdqPartition.SkipPlaced | goofy/sort/pdqsort.go:154-161 | the scans stop at the first element from the left that is not below the pivot and the last from the right that is below it; they cross exactly when the window is already split around the pivot |
| PdqPartition.SplitWindow | goofy/sort/pdqsort.go:154-163 | splits the window around the pivot as a permutation; reports it was already split exactly when it was, and then leaves it as it was |
| PdqPartition.PlacePivot | goofy/sort/pdqsort.go:164 | swapping the pivot with the last element below it puts it between the two sides |
| PdqPartition.PartitionFront | goofy/sort/pdqsort.go:152-165 | with the pivot at the front, returns its final place mid: everything before is below it, everything after is at least it; the flag says the rest was already split, and then only the pivot's swap moved anything |
| PdqPartition.Partition | goofy/sort/pdqsort.go:150-166 | the chosen pivot ends at mid, with smaller elements before it and the others after; the slice is a permutation of itself; the flag is true exactly when the slice without the pivot was already split around it |
| Pdqsort.Xorshift | goofy/sort/pdqsort.go:8-13 | a non-zero seed never yields zero, so the generator does not get stuck |
| Pdqsort.ShiftBack | goofy/sort/pdqsort.go:15-23 | the element at j moves right past the smaller elements after it, which each move left by one, and stops before a larger or equal one or at the end |
| Pdqsort.InsertStep | goofy/sort/pdqsort.go:41-44 | one shift forward and, when needed, one shift back keep the prefix before i sorted and the slice a permutation |
| Pdqsort.PartialInsertionSort | goofy/sort/pdqsort.go:25-47 | true only when the slice is sorted; always true on a sorted non-empty slice; a slice shorter than 50 is left as it was; the slice is a permutation of itself |
| Pdqsort.BitLen | goofy/sort/pdqsort.go:194 | the number of bits of n: n is below 2^b and, for n above zero, at least 2^(b-1) |
| Pdqsort.Other | goofy/sort/pdqsort.go:203-211 | the random word masked to the bits of n and reduced once is a valid index below n |
| Pdqsort.BreakPatterns | goofy/sort/pdqsort.go:191-215 | a slice shorter than 8 is left as it was; otherwise three swaps permute the slice and nothing outside it changes |
| Pdqsort.Sort2 | goofy/sort/pdqsort.go:217-223 | returns the two indices in order of their elements, counting one swap exactly when they were exchanged |
| Pdqsort.Sort3Steps | goofy/sort/pdqsort.go:225-230 | the three sort2 steps put the three indices in order of their elements, with at most three swaps counted |
| Pdqsort.Sort3Median | goofy/sort/pdqsort.go:225-230 | the index sort3 returns is that of the median of the three elements |
| Pdqsort.Sort3 | goofy/sort/pdqsort.go:225-230 | the offset returned is one of the three offsets given, and the swap count grows by at most three |
| Pdqsort.SortAdjacent | goofy/sort/pdqsort.go:232-234 | the median is one of m - 1, m and m + 1, with at most three swaps counted |
| Pdqsort.PivotCandidate | goofy/sort/pdqsort.go:236-256 | the candidate is an index in the slice and the swap count is at most 12 |
| Pdqsort.ChoosePivot | goofy/sort/pdqsort.go:236-263 | with fewer than 12 swaps the slice is unchanged and the candidate returned, likely sorted when no swap was counted; otherwise the slice is reversed and the mirrored index returned |
| Pdqsort.EqualFront | goofy/sort/pdqsort.go:170-188 | with the pivot at the front, returns mid: everything before is at most the pivot and everything after is above it, as a permutation |
| Pdqsort.EqualSwap | goofy/sort/pdqsort.go:184-186 | exchanging an element above the pivot at l with one not above it at r - 1 keeps the scan invariant with both scans moved, and permutes the slice |
| Pdqsort.PartitionEqual | goofy/sort/pdqsort.go:168-189 | the pivot comes first and mid is at least 1; the first mid elements are at most the pivot and the rest are above it; the slice is a permutation of itself |
| Pdqsort.PartitionEqualAsWritten | goofy/sort/pdqsort.go:168-189 | the routine as written, with the exit test l != r: it keeps the length and puts the pivot first when it returns |
| Pdqsort.AsWrittenLeavesSmallerBehind | goofy/sort/pdqsort.go:175-183 | as written, [5, 7, 3] with pivot 5 returns 1 and leaves 3, below the pivot, after the larger 7 |
| Pdqsort.AsWrittenPullsLargerIn | goofy/sort/pdqsort.go:181-188 | as written, [5, 5, 7] returns 3 and moves 7, above the pivot, into the part reported equal |
| Pdqsort.AsWrittenPanics | goofy/sort/pdqsort.go:181-185 | as written, [5, 7] and [5, 5] swap at an index outside the slice and panic |
| Pdqsort.FramedPermuted | goofy/sort/pdqsort.go:279-289 | rearranging the current slice keeps the state of the loop of recurse |
| Pdqsort.FramedDone | goofy/sort/pdqsort.go:270-276 | once the current slice is sorted, the whole slice recurse was given is sorted |
| Pdqsort.FramedEqual | goofy/sort/pdqsort.go:291-295 | the elements partitionEqual gathers are at most the pivot, which is at most the predecessor, which is at most all of them: they join the sorted part and the loop state is kept |
| Pdqsort.FramedLeft | goofy/sort/pdqsort.go:302-305 | sorting the left side makes it and the pivot part of the sorted prefix, and the pivot becomes the predecessor |
| Pdqsort.FramedRight | goofy/sort/pdqsort.go:306-309 | sorting the right side makes it and the pivot part of the sorted suffix, and the slice shrinks to the left side |
| Pdqsort.Prepare | goofy/sort/pdqsort.go:270-289 | keeps the loop state; when it finishes the whole slice is sorted; otherwise the slice has at least 20 elements, the pivot is in it and the limit drops by one exactly after an unbalanced round |
| Pdqsort.EqualRound | goofy/sort/pdqsort.go:291-295 | partitioning equal elements keeps the loop state on a shorter slice |
| Pdqsort.PartitionRound | goofy/sort/pdqsort.go:297-300 | partitioning keeps the loop state and puts the pivot between the two sides |
| Pdqsort.SortLeft | goofy/sort/pdqsort.go:302-305 | the recursive call on the left side leaves the loop state on the right side, with the pivot as predecessor |
| Pdqsort.SortRight | goofy/sort/pdqsort.go:306-309 | the recursive call on the right side leaves the loop state on the left side |
| Pdqsort.SplitRound | goofy/sort/pdqsort.go:297-310 | after partitioning and recursing on the smaller side, the loop continues on a strictly shorter slice with its state kept |
| Pdqsort.Recurse | goofy/sort/pdqsort.go:265-312 | with a predecessor at most every element, the slice ends up sorted, as a permutation of what it held, and nothing outside it changes |
| Pdqsort.Pdqsort | goofy/sort/pdqsort.go:314-318 | the whole array ends up sorted ascending and a permutation of what it held |
| MemFs.ReadAt | regular/src/memfs.rs:23-32 | reading k bytes clamps the cursor to the size, then yields the next min(k, remaining) bytes of the contents and moves the cursor past them |
| MemFs.ReadExactAt | regular/src/memfs.rs:34-45 | succeeds exactly when k bytes remain after the clamped cursor, and then yields them; otherwise "EOF" when nothing remained and "unexpected EOF" when some did, with the cursor at the end |
| MemFs.ReadExactAtSplit | regular/src/memfs.rs:34-45 | whatever precedes and follows, the next k bytes at the cursor are read back exactly |
| MemFs.Clamp | regular/src/memfs.rs:77-82 | a seek target below 0 becomes 0, one past the size becomes the size, anything else is kept |
| MemFs.FileInner.constructor | regular/src/memfs.rs:123 | a new file is empty |
| MemFs.File.constructor | regular/src/memfs.rs:112-116 | a new handle starts at offset 0 on the given contents |
| MemFs.File.Size | regular/src/memfs.rs:93-95 | the size is the length of the shared contents |
| MemFs.File.Read | regular/src/memfs.rs:23-32 | fills the front of buf as ReadAt says, leaves the rest of buf and the contents alone |
| MemFs.File.ReadExact | regular/src/memfs.rs:34-45 | the result and the new cursor are those of ReadExactAt, and the contents do not change |
| MemFs.File.Append | regular/src/memfs.rs:47-49 | buf is added at the end and the cursor stays |
| MemFs.File.Write | regular/src/memfs.rs:51-67 | an append-only handle appends; any other replaces everything from the clamped cursor on with buf and moves the cursor past it; needs the tail to be empty or exactly buf's length, as the slice copy does |
| MemFs.File.Seek | regular/src/memfs.rs:69-84 | the new cursor is the target from the origin plus offset, clamped to [0, size], and is returned |
| MemFs.File.Truncate | regular/src/memfs.rs:86-91 | keeps the first min(size, n) bytes and puts the cursor there |
| MemFs.Find | regular/src/memfs.rs:146 | the first index holding the byte, or None when no index holds it |
| MemFs.EntryShape | regular/src/memfs.rs:143-149 | a listed entry lies between path and the name; it is the whole name when no later '/' follows, and otherwise ends at the first '/' after path |
| MemFs.LeastOf | regular/src/memfs.rs:153 | a non-empty set of names has a least name |
| MemFs.SortedOf | regular/src/memfs.rs:153-154 | sorting and removing duplicates gives a strictly ascending sequence with the same elements |
| MemFs.CollectElements | regular/src/memfs.rs:139-151 | the collected entries are exactly the shown forms of the names under path |
| MemFs.CollectRecIsFilter | regular/src/memfs.rs:139-151 | a recursive listing of names in key order stays strictly ascending |
| MemFs.CollectEntries | regular/src/memfs.rs:139-155 | the entries collected from all names are the entries of the names under path |
| MemFs.CollectSnoc | regular/src/memfs.rs:139-151 | collecting one more name adds its entry only when it is under path |
| MemFs.TrimEnd | regular/src/memfs.rs:192 | a prefix of the name followed only by slashes, and not itself ending in a slash |
| MemFs.TrimStart | regular/src/memfs.rs:194 | a suffix of the name preceded only by slashes, and not itself starting with a slash |
| MemFs.JoinTrimmed | regular/src/memfs.rs:190-196 | joining names that have no slash at the seam puts exactly one slash between them |
| MemFs.JoinIgnoresExtraSlashes | regular/src/memfs.rs:190-196 | an extra slash on either side of the seam makes no difference |
| MemFs.FsImpl.constructor | regular/src/memfs.rs:103-107 | a new file system holds no files |
| MemFs.FsImpl.Open | regular/src/memfs.rs:109-118 | succeeds exactly when the name exists, with a new handle on that file's shared contents; otherwise "no such file" |
| MemFs.FsImpl.Exist | regular/src/memfs.rs:134-136 | true exactly when the name is bound to a file |
| MemFs.FsImpl.Create | regular/src/memfs.rs:120-132 | succeeds exactly when the name is new or overwrite is set, binding the name to a new empty file; otherwise "file existed" and nothing changes |
| MemFs.FsImpl.Ls | regular/src/memfs.rs:138-157 | recursive: the names under path in key order; otherwise the distinct entries under path, sorted |
| MemFs.FsImpl.LsRecMeaning | regular/src/memfs.rs:138-157 | a recursive listing is strictly ascending and holds exactly the names that start with path |
| MemFs.FsImpl.Rm | regular/src/memfs.rs:159-161 | the name is gone and every other name is kept |
| IoUtil.LeRoundTrip | regular/src/memfs.rs:272 | decoding the k little-endian bytes of a value below 256^k gives the value back |
| IoUtil.LeBytesRoundTrip | regular/src/memfs.rs:305 | encoding the value of k bytes in k little-endian bytes gives the bytes back |
| IoUtil.EncodeU8 | regular/src/memfs.rs:300-302 | one byte holding the value |
| IoUtil.EncodeU32 | regular/src/memfs.rs:304-307 | exactly four bytes are written |
| IoUtil.EncodeU64 | regular/src/memfs.rs:309-312 | exactly eight bytes are written |
| IoUtil.EncodeU32Value | regular/src/memfs.rs:304-307 | the four bytes written for x have the little-endian value x |
| IoUtil.EncodeU64Value | regular/src/memfs.rs:309-312 | the eight bytes written for x have the little-endian value x |
| IoUtil.EncodeStr | regular/src/memfs.rs:314-317 | four length bytes, then exactly the bytes of the string |
| IoUtil.EncodeStrLength | regular/src/memfs.rs:314-317 | the four length bytes hold the length modulo 2^32, little-endian |
| IoUtil.EncodeSliceLayout | regular/src/memfs.rs:319-328 | the count modulo 2^32 in four bytes, then each element's bytes in order |
| IoUtil.ReadU8 | regular/src/memfs.rs:263-267 | the result and the cursor are those of reading one byte at the cursor |
| IoUtil.ReadU32 | regular/src/memfs.rs:269-273 | the result and the cursor are those of reading four little-endian bytes at the cursor; the contents do not change |
| IoUtil.ReadU64 | regular/src/memfs.rs:275-279 | the result and the cursor are those of reading eight little-endian bytes at the cursor |
| IoUtil.ReadString | regular/src/memfs.rs:281-286 | the result and the cursor are those of reading a length, that many bytes and checking UTF-8 |
| IoUtil.ReadStringAt | regular/src/memfs.rs:281-286 | a successful read is UTF-8, shorter than 2^32 bytes, and is exactly the bytes after the four length bytes, with the cursor just past them |
| IoUtil.ReadVec | regular/src/memfs.rs:288-298 | the result and the cursor are those of reading a count and that many elements, stopping at the first failure |
| IoUtil.ReadBufU32 | regular/src/memfs.rs:330-334 | the little-endian value of the first four bytes |
| IoUtil.ReadBufStr | regular/src/memfs.rs:336-339 | the UTF-8 string of the length the first four bytes give |
| IoUtil.ReadU8AtEncode | regular/src/memfs.rs:263-267 | reading a written u8 gives it back and moves the cursor one byte |
| IoUtil.ReadU32AtEncode | regular/src/memfs.rs:269-273 | reading a written u32 gives it back and moves the cursor four bytes |
| IoUtil.ReadU64AtEncode | regular/src/memfs.rs:275-279 | reading a written u64 gives it back and moves the cursor eight bytes |
| IoUtil.ReadStringAtEncode | regular/src/memfs.rs:281-286 | reading a written UTF-8 string shorter than 2^32 bytes gives it back and moves past it |
| IoUtil.ReadStringAtRejects | regular/src/memfs.rs:285 | written bytes that are not UTF-8 are read past and reported as an error |
| IoUtil.LengthThenBytes | regular/src/memfs.rs:282-284 | the two reads of read_string on a written string give its length, then its bytes |
| IoUtil.ReadStringAtEnd | regular/src/memfs.rs:34-45 | any read at or past the end fails with "EOF" and leaves the cursor at the end |
| IoUtil.ReadVecAtEncode | regular/src/memfs.rs:288-298 | with an element reader that inverts the element writer, reading a written slice gives it back |
| IoUtil.ReadItemsEncode | regular/src/memfs.rs:294-296 | n elements written one after the other are read back one after the other |
| IoUtil.ReadBufStrEncode | regular/src/memfs.rs:330-339 | the buffer helpers read a written UTF-8 string back |
| Lsm.BlockNameInjective | regular/src/lsm.rs:84 | distinct ids name distinct block files, and no block file is the metadata file |
| Lsm.EncodeBlockSnoc | regular/src/lsm.rs:41-46 | the block buffer of one more entry is the old buffer followed by that entry's key and value |
| Lsm.EncodeBlock | regular/src/lsm.rs:41-46 | every entry takes at least eight bytes, and the buffer is empty exactly when the block is |
| Lsm.ReadStringAtMoves | regular/src/lsm.rs:26 | a string read never leaves the cursor past the end and, when it succeeds, moves at least past the length |
| Lsm.BlockRoundTrip | regular/src/lsm.rs:22-50 | writing a block of UTF-8 entries and loading it gives back the same entries in the same order |
| Lsm.BlockRoundTripEmpty | regular/src/lsm.rs:22-35 | an empty block loads as no entries |
| Lsm.BlockRoundTripStep | regular/src/lsm.rs:25-33 | one written entry in front of a block that loads back loads back with it |
| Lsm.EntryLoads | regular/src/lsm.rs:25-33 | the loop reads a written key and value and then whatever loads after them |
| Lsm.SplitEntry | regular/src/lsm.rs:41-46 | a block buffer is its first entry's key and value followed by the buffer of the rest |
| Lsm.StorableTail | regular/src/lsm.rs:41-46 | the entries after the first of a storable block are storable too |
| Lsm.EncodeBlockCons | regular/src/lsm.rs:41-46 | the buffer of a non-empty block starts with its first key and value |
| Lsm.LoadEntriesCons | regular/src/lsm.rs:25-33 | a key and a value read in turn put that entry in front of what loads after them |
| Lsm.LoadEntries | regular/src/lsm.rs:24-34 | at or past the end nothing more is loaded; the entries loaded are UTF-8 strings shorter than 2^32 bytes |
| Lsm.EncodeIdsSnoc | regular/src/lsm.rs:131-135 | the metadata buffer of one more id is the old buffer followed by its eight bytes |
| Lsm.MetaRoundTrip | regular/src/lsm.rs:112-139 | storing ids and loading them gives back the same ids, with one first key per block after the first, exactly when those first keys can be read |
| Lsm.LoadMeta | regular/src/lsm.rs:116-127 | at or past the end of the metadata nothing more is loaded |
| Lsm.NextIdAfter | regular/src/lsm.rs:147 | the next id is above every stored id: one past the largest, or 0 when there is none |
| Lsm.BinarySearch | regular/src/lsm.rs:52-57 | a hit is at an index holding the key; a miss reports an insertion point inside the searched range |
| Lsm.BinarySearchCorrect | regular/src/lsm.rs:52-57 | on strictly sorted keys a miss reports the point that splits the smaller keys from the greater |
| Lsm.SearchRight | regular/src/lsm.rs:54 | after a smaller probe the search continues right of it, and the split stays correct |
| Lsm.SearchLeft | regular/src/lsm.rs:54 | after a greater probe the search continues left of it, and the split stays correct |
| Lsm.BelowMid | regular/src/lsm.rs:54 | in sorted keys everything up to a smaller probe is smaller than the key |
| Lsm.AboveMid | regular/src/lsm.rs:54 | in sorted keys everything from a greater probe on is greater than the key |
| Lsm.Keys | regular/src/lsm.rs:53-54 | the key column of a block, index by index |
| Lsm.BlockSearch | regular/src/lsm.rs:52-57 | a found value is stored under the key in the block |
| Lsm.BlockSearchComplete | regular/src/lsm.rs:52-57 | in a block with strictly ascending keys the search misses exactly when no entry has the key |
| Lsm.Slot | regular/src/lsm.rs:219-223 | the block index is within the index list |
| Lsm.SlotCounts | regular/src/lsm.rs:219-223 | every index before the chosen slot is at most the key, and every index from it on is greater |
| Lsm.MemItems | regular/src/lsm.rs:161-162 | c0's bindings as items, one per key, each holding its binding |
| Lsm.MemItemsFirst | regular/src/lsm.rs:161-162 | the first item holds c0's least key, and the rest list the other bindings |
| Lsm.MemItemsSorted | regular/src/lsm.rs:161-162 | the items are in strictly ascending key order |
| Lsm.MemItemsComplete | regular/src/lsm.rs:161-162 | every key of c0 appears among the items |
| Lsm.KeptCount | regular/src/lsm.rs:164-170 | the kept blocks are a prefix of the block list |
| Lsm.KeptIndexes | regular/src/lsm.rs:167 | one index per kept block |
| Lsm.MergeBlock | regular/src/lsm.rs:174-192 | merging one block never goes back in c0 and never runs past its end |
| Lsm.MergeBlocks | regular/src/lsm.rs:172-194 | the merge over all blocks stops inside c0 |
| Lsm.LoadAll | regular/src/lsm.rs:173 | a successful load of all blocks gives one entry list per id |
| Lsm.BlockCountOf | regular/src/lsm.rs:91-101 | c full blocks and a partly filled one of r entries make c + 1 blocks, or c when r is 0 |
| Lsm.StreamWithoutBlocks | regular/src/lsm.rs:196-201 | with no block to merge, compaction writes exactly c0's live bindings in key order |
| Lsm.MergeReplacesEqual | regular/src/lsm.rs:178-190 | a c0 binding with the same key as a block entry replaces it |
| Lsm.MergeDropsTail | regular/src/lsm.rs:175-192 | once c0 runs out inside a block the rest of that block is not copied, so a greater key in it is lost |
| Lsm.CopyBelow | regular/src/lsm.rs:176-184 | the loop over one block writes what the merge says for the entries it passes and stops at the first entry above the pending c0 key, or at the end; the registered lists do not change |
| Lsm.CopyEntry | regular/src/lsm.rs:179 | a block entry below the pending c0 key is written, and the rest of the merge is unchanged |
| Lsm.WriteWhole | regular/src/lsm.rs:47-49 | creating with overwrite and writing once makes the file hold exactly the bytes written, and changes no other file |
| Lsm.WriteBlock | regular/src/lsm.rs:41-50 | the named file holds the encoded entries afterwards, and no other file changes |
| Lsm.PrependNothing | regular/src/lsm.rs:24-34 | prepending no entries changes nothing |
| Lsm.PrependAssoc | regular/src/lsm.rs:24-34 | entries read in two steps prepend like entries read in one |
| Lsm.LoadBlockFile | regular/src/lsm.rs:22-35 | the loaded entries, or the error, are those the file's bytes give; a missing file gives "no such file"; no file changes |
| Lsm.ReadEntries | regular/src/lsm.rs:24-34 | the loop reads key/value pairs until a key read meets the end of the file, and leaves the contents alone |
| Lsm.LoadFirstKey | regular/src/lsm.rs:37-39 | the first string of the named block, or the error; no file changes |
| Lsm.WrittenExtend | regular/src/lsm.rs:89-95 | entries added later do not change the full blocks already written |
| Lsm.ChunkExtend | regular/src/lsm.rs:89-95 | a full block of the stream is the same block of any longer stream |
| Lsm.WrittenElsewhere | regular/src/lsm.rs:82-87 | files other than the new block files keep what they held |
| Lsm.WrittenBlock | regular/src/lsm.rs:82-87 | block file start + t holds the t-th group of four entries |
| Lsm.SuffixSnoc | regular/src/lsm.rs:90 | the filling block is the tail of the stream after each entry |
| Lsm.WrittenNext | regular/src/lsm.rs:82-95 | writing the filling block adds exactly the next block file |
| Lsm.Builder.constructor | regular/src/lsm.rs:68-75 | a new builder starts empty at the given next id |
| Lsm.Builder.KeepsOlderBlocks | regular/src/lsm.rs:82-87 | a block with an id below the builder's first reads as it did before |
| Lsm.Builder.AddBlock | regular/src/lsm.rs:77-80 | the id and the first key are appended to the registered lists, and nothing else changes |
| Lsm.Builder.WriteFillBlock | regular/src/lsm.rs:82-87 | the filling block goes to the file of the next id, which advances by one; the fill is emptied and the disk holds the stream's full blocks |
| Lsm.Builder.WriteEntry | regular/src/lsm.rs:89-95 | the entry joins the stream; a block of four is written out, so the fill stays below four |
| Lsm.Builder.Flush | regular/src/lsm.rs:97-102 | a partly filled block is written too; the result is the registered lists and the next id; the disk holds every block of the stream |
| Lsm.PrependMetaAssoc | regular/src/lsm.rs:116-127 | ids and keys read in two steps prepend like those read in one |
| Lsm.LoadMetaCounts | regular/src/lsm.rs:116-127 | a successful load has one first key per id after the first |
| Lsm.WithMetadata | regular/src/lsm.rs:142-145 | after load, the metadata file exists |
| Lsm.BlockCountBound | regular/src/lsm.rs:97-101 | the number of blocks is n / 4 rounded up |
| Lsm.CompactionFails | regular/src/lsm.rs:172-173 | a block that cannot be loaded makes compaction fail with its error |
| Lsm.CompactionSucceeds | regular/src/lsm.rs:155-212 | when the blocks load, compaction writes the blocks of the merged stream from the next id on and stores only the kept ids in the metadata |
| Lsm.KeptBelowNext | regular/src/lsm.rs:160-209 | the kept ids stay below the next id |
| Lsm.Compaction | regular/src/lsm.rs:155-212 | the ids afterwards are a prefix of the old ones, one index per id, the next id does not go down, and the metadata file lists the ids |
| Lsm.CompactionLosesBindings | regular/src/lsm.rs:82-87 | compacting a non-empty c0 into an empty component registers no block, so `search` then finds nothing for any key |
| Lsm.KeptSlotPastEnd | regular/src/lsm.rs:164-170 | when c0's first key is not below the only index of a two-block component, one block is kept with one index, so `search` picks a slot past the last block |
| Lsm.StoreBlockIds | regular/src/lsm.rs:131-139 | the metadata file holds the ids, eight little-endian bytes each, and no other file changes |
| Lsm.LoadBlockIds | regular/src/lsm.rs:112-129 | the ids and first keys, or the error, are those the metadata file's bytes give |
| Lsm.ReadMetaId | regular/src/lsm.rs:117 | one id is read at the cursor; the files do not change |
| Lsm.ReadMeta | regular/src/lsm.rs:116-127 | the loop reads ids until the end of the file, and the first key of every block after the first |
| Lsm.EnsureMetadata | regular/src/lsm.rs:143-145 | a missing metadata file is created empty; otherwise nothing changes |
| Lsm.DiskComponent.constructor | regular/src/lsm.rs:148-152 | the component holds the given ids, indexes and next id |
| Lsm.DiskComponent.Load | regular/src/lsm.rs:141-153 | the metadata file exists afterwards; the component holds the ids and first keys read from it and a next id above all of them, or the read error |
| Lsm.DiskComponent.CompactMem | regular/src/lsm.rs:155-212 | an empty c0 changes nothing; otherwise the files, indexes, ids and next id become those of the compaction, or the error is reported and the component is unchanged |
| Lsm.DiskComponent.Install | regular/src/lsm.rs:207-209 | the component takes the stored indexes, ids and next id |
| Lsm.DiskComponent.Search | regular/src/lsm.rs:214-227 | nothing without blocks; otherwise the value found in the block at the slot, or that block's load error |
| Lsm.DiskSearch | regular/src/lsm.rs:214-227 | no blocks give no answer; a value found is stored under the key in the block at the slot |
| Lsm.RegisterKept | regular/src/lsm.rs:164-170 | the leading blocks whose index is not above c0's first key are registered, with "" as the first one's index |
| Lsm.CompactStore | regular/src/lsm.rs:160-205 | the disk, indexes, ids and next id after compaction are those of the compaction, or its error; the registered ids stay below the next id |
| Lsm.BuildCompacted | regular/src/lsm.rs:160-203 | the kept blocks are registered and the merged stream is cut into new block files; a block that cannot be loaded stops it with that error |
| Lsm.MergeKeptOut | regular/src/lsm.rs:172-194 | every block from the first not kept on is loaded and merged with c0, in order; a load failure stops it |
| Lsm.LoadAndMerge | regular/src/lsm.rs:173-192 | one block is loaded as it was on disk and merged with c0 from the current item |
| Lsm.WriteLiveRest | regular/src/lsm.rs:196-201 | the c0 bindings not yet written go out, so the stream is the whole merge |
| Lsm.WriteLive | regular/src/lsm.rs:188-190 | a binding to a value is written and a tombstone is not |
| Lsm.RegisteredUntouched | regular/src/lsm.rs:160-205 | writing new blocks does not change a block whose id is below the first new id |
| Lsm.LoadAllFails | regular/src/lsm.rs:173 | a failed load stops the loading of all blocks with its error |
| Lsm.LoadAllStops | regular/src/lsm.rs:172-173 | the failure to load a block is the failure of loading them all |
| Lsm.LoadAllSnoc | regular/src/lsm.rs:172-173 | one more block loaded adds its entries at the end |
| Lsm.MergeBlocksSnoc | regular/src/lsm.rs:172-194 | merging one more block continues from where the previous blocks left c0 |
| Lsm.MergeLoadedBlock | regular/src/lsm.rs:174-192 | the walk over one block writes what the merge says and moves through c0 as it says |
| Lsm.LsmTree.constructor | regular/src/lsm.rs:237-240 | the tree starts with an empty c0 |
| Lsm.LsmTree.Load | regular/src/lsm.rs:236-241 | an empty c0 over the loaded disk component, or the load error |
| Lsm.LsmTree.CompactFull | regular/src/lsm.rs:244-247 | a full c0 is compacted into c1 and cleared; on failure c0 and c1 are kept |
| Lsm.LsmTree.InsertKv | regular/src/lsm.rs:243-249 | below four bindings, c0 binds k and the result says whether k was bound; a full c0 is compacted and cleared first |
| Lsm.LsmTree.Insert | regular/src/lsm.rs:251-253 | binds k to the value, as insert_kv does |
| Lsm.LsmTree.Remove | regular/src/lsm.rs:255-257 | binds k to a tombstone, as insert_kv does |
| Lsm.LsmTree.Search | regular/src/lsm.rs:259-264 | a key bound in c0 is answered from c0, a tombstone as None; any other key is searched on disk |
| Lsm.NewTable | regular/src/lsm.rs:271-279 | after loading an empty store and inserting a -> 0 and b -> 1, a is found as 0 and c is not found |
| LsmFixed.MergeBlockFull | regular/src/lsm.rs:174-192 | the corrected walk over one block never goes back in c0 and never runs past its end |
| LsmFixed.MergeBlocksFull | regular/src/lsm.rs:172-194 | the corrected merge over all blocks stops inside c0 |
| LsmFixed.MergeKeepsTail | regular/src/lsm.rs:175-192 | on the input the merge as written loses an entry, the corrected merge writes both the c0 binding and the greater block entry |
| LsmFixed.MergeBlockFullKeeps | regular/src/lsm.rs:174-192 | the corrected walk over one block writes every entry whose key no pending c0 item binds, and every live c0 item it passes |
| LsmFixed.MergeBlocksFullKeeps | regular/src/lsm.rs:172-194 | the corrected merge over all blocks writes every block entry whose key c0 does not bind, and every live c0 item it passes |
| LsmFixed.LiveFromKeeps | regular/src/lsm.rs:196-201 | the c0 loop after the blocks writes every live binding left |
| LsmFixed.StreamFullKeeps | regular/src/lsm.rs:172-201 | the corrected compaction stream loses nothing: every block entry c0 does not rebind, and every live c0 binding |
| LsmFixed.CompactionFixed | regular/src/lsm.rs:155-212 | the corrected compaction leaves one index per block after the first, the metadata lists every block, and the new blocks are registered under consecutive ids from the next id |
| LsmFixed.LiveFromOrigin | regular/src/lsm.rs:196-201 | every entry written from c0 comes from a live c0 binding |
| LsmFixed.LiveFromSorted | regular/src/lsm.rs:196-201 | c0's live bindings, in key order, are written in strictly ascending key order |
| LsmFixed.FirstKeysSorted | regular/src/lsm.rs:77-80 | the corrected indexes of a sorted stream are strictly ascending |
| LsmFixed.ChunkOf | regular/src/lsm.rs:89-101 | each block cut from a sorted stream is sorted, holds four entries or the remainder, and holds the stream's entries from four times its number on |
| LsmFixed.ChunkOfKey | regular/src/lsm.rs:219-223 | with the corrected indexes, the slot `search` computes is the block holding the key |
| LsmFixed.LoadWrittenBlock | regular/src/lsm.rs:22-50 | each written block loads back under its registered id |
| LsmFixed.BlockAnswer | regular/src/lsm.rs:52-57 | searching a sorted block finds the value of a key it holds |
| LsmFixed.BlockAnswerNone | regular/src/lsm.rs:52-57 | searching a block cut from a stream that lacks the key finds nothing |
| LsmFixed.StreamAnswer | regular/src/lsm.rs:214-227 | the block the corrected indexes pick answers a key as the whole stream does |
| LsmFixed.SearchWrittenStream | regular/src/lsm.rs:214-227 | after a sorted stream is written and registered with the corrected ids and indexes, the slot names a block, and `search` answers each key's binding and nothing for a key the stream lacks |
| LsmFixed.CompactionIntoEmpty | regular/src/lsm.rs:155-212 | into an empty component, the corrected compaction writes c0's live bindings as they are and registers every block |
| LsmFixed.LiveStream | regular/src/lsm.rs:161-162 | c0's live bindings form a sorted stream of UTF-8 entries, each a binding of c0 |
| LsmFixed.LiveHas | regular/src/lsm.rs:196-201 | every live c0 binding is in the stream |
| LsmFixed.AnswerOfStream | regular/src/lsm.rs:259-264 | an answer that agrees with a stream of c0's live bindings is c0's own answer |
| LsmFixed.SearchAfterCompaction | regular/src/lsm.rs:155-227 | after the corrected compaction of c0 into an empty component, `search` answers every key exactly as c0 did: its value, or nothing for a tombstone or an absent key |
| ClassicPaxos.DecodeBallot | switch/paxos/src/classic.rs:28-34 | text that is not UTF-8 is a read error; a decimal u64 parses to itself; any other text reads as 0 |
| ClassicPaxos.FirstNewline | switch/paxos/src/classic.rs:59 | the first newline's position, with no newline before it, or the length when there is none |
| ClassicPaxos.NewlineIndex | switch/paxos/src/classic.rs:59 | the newline position, or 0 when there is none, is inside a non-empty payload |
| ClassicPaxos.DecodeState | switch/paxos/src/classic.rs:52-66 | a non-empty acceptance file always loads as some acceptance, even when malformed: ballot 0 when the text before the first newline is not a number, and the first byte dropped when there is no newline; an empty one panics (None) |
| ClassicPaxos.Recover | switch/paxos/src/classic.rs:97-108 | the recovered state has an acceptance exactly when the acceptance file exists |
| ClassicPaxos.DecimalIsUtf8 | switch/paxos/src/classic.rs:37 | a decimal ballot is UTF-8 text |
| ClassicPaxos.BallotRoundTrip | switch/paxos/src/classic.rs:28-38 | a stored ballot reads back as itself |
| ClassicPaxos.StateRoundTrip | switch/paxos/src/classic.rs:52-78 | a stored acceptance reads back as itself, whatever bytes the value holds |
| ClassicPaxos.NewlineAfterDigits | switch/paxos/src/classic.rs:59 | the newline after the decimal ballot is the first one |
| ClassicPaxos.NoNewlineDecodes | switch/paxos/src/classic.rs:59-64 | without a newline the ballot is 0 and the value is the payload without its first byte |
| ClassicPaxos.Persist.constructor | switch/paxos/src/classic.rs:21-26 | a store over the given files |
| ClassicPaxos.Persist.Write | switch/paxos/src/classic.rs:36-50 | a successful write replaces that file and no other; a failed one changes nothing |
| ClassicPaxos.OnPrepare | switch/paxos/src/classic.rs:119-145 | promises exactly when the ballot is at least the highest seen, equal included, and then records it and reports the acceptance held; a refusal reports the highest ballot and changes nothing; well-formedness is kept |
| ClassicPaxos.OnAccept | switch/paxos/src/classic.rs:153-170 | accepts exactly when the ballot is at least the highest seen, and then records the ballot and the acceptance; a refusal changes nothing |
| ClassicPaxos.RunMonotone | switch/paxos/src/classic.rs:113-170 | over any requests the highest ballot seen never decreases, well-formedness is kept, and a held acceptance is never replaced by a lower one |
| ClassicPaxos.Handle | switch/paxos/src/classic.rs:113-170 | the highest ballot seen never goes down; a changed state has taken the request's ballot; only an accept request replaces the acceptance, by exactly its proposal |
| ClassicPaxos.PromiseIsKept | switch/paxos/src/classic.rs:121-157 | after a promise for b, every later proposal below b is refused, whatever requests come between |
| ClassicPaxos.Acceptor.constructor | switch/paxos/src/classic.rs:101-107 | the acceptor holds the given state |
| ClassicPaxos.Acceptor.New | switch/paxos/src/classic.rs:98-108 | the acceptor starts from the state recovered from its files, or reports the read error, or the panic on an empty acceptance file |
| ClassicPaxos.Acceptor.Prepare | switch/paxos/src/classic.rs:113-145 | the reply and new state are OnPrepare's; the new ballot is on disk before it is in memory; a failed write is an error that changes nothing |
| ClassicPaxos.Acceptor.Accept | switch/paxos/src/classic.rs:147-170 | the reply and new state are OnAccept's; the ballot, then the acceptance, reach the disk first; a failed write is an error and memory is unchanged |
| ClassicPaxos.BallotsDistinct | switch/paxos/src/classic.rs:195-200 | with ids below 1000, two proposers never share a ballot and a later round always has a higher one |
| ClassicPaxos.Proposer.constructor | switch/paxos/src/classic.rs:188-192 | the proposer holds the given id, round and store |
| ClassicPaxos.Proposer.New | switch/paxos/src/classic.rs:186-193 | the round is loaded from the store, 0 when absent, or the read error is reported |
| ClassicPaxos.Proposer.NextBallotNum | switch/paxos/src/classic.rs:195-200 | the next round reaches the disk before it is used, and the ballot is round * 1000 + id; a failed write changes nothing |
| ClassicPaxos.Proposer.Prepare | switch/paxos/src/classic.rs:237-262 | the value held is that of the tally; it finishes exactly when a majority promise, at the first prefix with a majority, and then holds the highest-ballot value carried |
| ClassicPaxos.Proposer.Accept | switch/paxos/src/classic.rs:298-312 | true exactly when a majority of acceptors accept; otherwise the loop waits forever |
| ClassicPaxos.OkCountPrefix | switch/paxos/src/classic.rs:244-260 | a prefix of the replies has no more ok promises than all of them |
| ClassicPaxos.AckCountPrefix | switch/paxos/src/classic.rs:301-310 | a prefix of the replies has no more acks than all of them |
| ClassicPaxos.AdoptDescribes | switch/paxos/src/classic.rs:249-254 | adopting from one more promise keeps the held value the highest-ballot carried value so far |
| ClassicPaxos.TallyFromFinishes | switch/paxos/src/classic.rs:244-260 | the tally from any point finishes exactly when the replies hold a majority of ok promises |
| ClassicPaxos.TallyFromMeaning | switch/paxos/src/classic.rs:244-260 | when the tally from any point finishes, it stops at the majority-th ok promise and describes the prefix up to it |
| ClassicPaxos.PrefixStep | switch/paxos/src/classic.rs:244-256 | one more reply adds one to the count when it is ok, and refusals change nothing |
| ClassicPaxos.TallyPromisesMeaning | switch/paxos/src/classic.rs:237-262 | the prepare tally finishes exactly when a majority promise, and then holds the highest-ballot value among the promises read |
| ClassicPaxos.Paxos | switch/paxos/src/classic.rs:316-323 | stores the next round first; without a majority of promises it waits forever; otherwise it proposes the adopted value, or its own, under the adopted ballot as written |
| ClassicPaxos.PrepareAll | switch/paxos/src/classic.rs:202-235 | each acceptor handles the prepare on its own state |
| ClassicPaxos.AcceptAll | switch/paxos/src/classic.rs:265-296 | each acceptor handles the proposal on its own state |
| ClassicPaxos.AllOkCount | switch/paxos/src/classic.rs:244-260 | when every reply is ok, all of them count |
| ClassicPaxos.AllAckCount | switch/paxos/src/classic.rs:301-310 | when every reply is ok, all of them count |
| ClassicPaxos.PrepareAllFresh | switch/paxos/src/classic.rs:121-144 | a ballot no acceptor was outbid by is promised by all |
| ClassicPaxos.AcceptAllPromised | switch/paxos/src/classic.rs:155-169 | a proposal at the ballot every acceptor promised is accepted by all |
| ClassicPaxos.RoundDecides | switch/paxos/src/classic.rs:316-323 | with the proposal under the prepared ballot, a fresh ballot makes every acceptor accept the same value |
| ClassicPaxos.RoundKeepsUnanimousValue | switch/paxos/src/classic.rs:316-323 | a value every acceptor holds survives a later corrected round |
| ClassicPaxos.AdoptedUnanimous | switch/paxos/src/classic.rs:249-254 | when every acceptor holds x, the tally at a fresh ballot adopts x |
| ClassicPaxos.AdoptedBallotIsRefused | switch/paxos/src/classic.rs:250-252 | an acceptance below the prepared ballot makes the round as written wait forever, while the corrected round decides |
| ClassicPaxos.RoundAsWritten | switch/paxos/src/classic.rs:237-323 | the round as written decides or waits forever; no ballot goes down, and every acceptor whose acceptance changes takes the same proposal |
| ClassicPaxos.Round | switch/paxos/src/classic.rs:316-323 | the corrected round decides or waits forever; no ballot goes down, and every acceptor whose acceptance changes takes the same proposal, under the prepared ballot |
| CasPaxos.Wrap | switch/caspaxos/main.go:111 | the value itself when it fits in an int64, and otherwise the value wrapped modulo 2^64 |
| CasPaxos.OnPrepare | switch/caspaxos/main.go:51-66 | promises exactly when the ballot is at least the promised one, then records it and reports the accepted ballot and value; a refusal reports nothing and changes nothing |
| CasPaxos.OnAccept | switch/caspaxos/main.go:77-92 | accepts exactly when the ballot is at least the promised one, then records ballot, accepted ballot and value; a refusal changes nothing |
| CasPaxos.Acceptor.constructor | switch/caspaxos/main.go:27-32 | a new acceptor holds the zero ballots and no value |
| CasPaxos.Acceptor.HandlePrepare | switch/caspaxos/main.go:51-66 | the reply and the new state are OnPrepare's |
| CasPaxos.Acceptor.HandleAccept | switch/caspaxos/main.go:77-92 | the reply and the new state are OnAccept's |
| CasPaxos.BallotsDistinct | switch/caspaxos/main.go:108-115 | with ids 0..99 and rounds where nothing wraps, two proposers never share a ballot and a later round has a higher one |
| CasPaxos.Proposer.constructor | switch/caspaxos/main.go:22-25 | a new proposer starts at round 0 |
| CasPaxos.Proposer.NextBallotNum | switch/caspaxos/main.go:108-115 | the round advances by one, wrapping as int64 does, and the ballot is round * 100 + id |
| CasPaxos.TallyMeaning | switch/caspaxos/main.go:137-156 | the loop counts the ok promises; it keeps no value exactly when none carried one, and otherwise the value of the first promise with the highest ballot carried |
| CasPaxos.PrepareTally | switch/caspaxos/main.go:117-161 | the answer is that of the tally over the replies; it succeeds exactly when a majority promise |
| CasPaxos.AcceptTally | switch/caspaxos/main.go:163-195 | true exactly when a majority of the replies are ok |
| CasPaxos.Decide | switch/caspaxos/main.go:207-222 | with no register value the new value starts at state 0; with one, the write proceeds exactly when the client's state matches, and the state goes up by one |
| CasPaxos.StatesCount | switch/caspaxos/main.go:201-225 | writes that each name the state they expect number the states 0, 1, 2, and so on |
| CasPaxos.CasPaxos | switch/caspaxos/main.go:201-225 | the ballot advances; a failed prepare reports (false, 0); a stale state reports the current state and sends nothing; otherwise it sends the new value under the adopted ballot as written and succeeds exactly when a majority accept |
| CasPaxos.PrepareAll | switch/caspaxos/main.go:117-136 | each acceptor handles the prepare on its own state |
| CasPaxos.AcceptAll | switch/caspaxos/main.go:163-183 | each acceptor handles the proposal on its own state |
| CasPaxos.AllOkCount | switch/caspaxos/main.go:141-156 | when every reply is ok, all of them count |
| CasPaxos.AllAckCount | switch/caspaxos/main.go:187-193 | when every reply is ok, all of them count |
| CasPaxos.WriteOnAgreedCluster | switch/caspaxos/main.go:201-225 | with the proposal under the prepared ballot, a cluster that agrees on the register moves to the decided value, or stays put when the state is stale |
| CasPaxos.AdoptedBallotIsRefused | switch/caspaxos/main.go:203 | once a value is accepted, the write as written is refused by every acceptor, while the corrected write succeeds |
| CasPaxos.WriteAsWritten | switch/caspaxos/main.go:201-225 | the write as written: no ballot goes down, and every acceptor whose value changes holds the same new value, the one written |
| CasPaxos.Write | switch/caspaxos/main.go:201-225 | the corrected write: as the write as written, and every changed acceptor holds the value under the prepared ballot |
| Treap.ZigInOrder | goofy/treap/treap.go:10-15 | rotating the right child up keeps the in-order key sequence |
| Treap.Zig | goofy/treap/treap.go:10-15 | rotating the right child up gives a node whose left child is smaller than the tree |
| Treap.Zag | goofy/treap/treap.go:17-22 | rotating the left child up gives a node whose right child is smaller than the tree |
| Treap.ZagInOrder | goofy/treap/treap.go:17-22 | rotating the left child up keeps the in-order key sequence |
| Treap.ZigElems | goofy/treap/treap.go:10-15 | rotating the right child up keeps the nodes, as key and priority pairs |
| Treap.ZagElems | goofy/treap/treap.go:17-22 | rotating the left child up keeps the nodes, as key and priority pairs |
| Treap.ZigOrdered | goofy/treap/treap.go:10-15 | rotating the right child up keeps the search-tree order |
| Treap.ZagOrdered | goofy/treap/treap.go:17-22 | rotating the left child up keeps the search-tree order |
| Treap.Insert | goofy/treap/treap.go:24-42 | the result is a node, and it holds one more occurrence of the key and the same number of every other key |
| Treap.InsertElems | goofy/treap/treap.go:24-42 | insertion adds exactly the new (key, priority) node |
| Treap.InsertOrdered | goofy/treap/treap.go:24-42 | insertion keeps every key on the left at most, and every key on the right at least, its node's key |
| Treap.InsertLowest | goofy/treap/treap.go:32-39 | a priority below all priorities of a heap ends at the root, with the old priorities beneath it |
| Treap.InsertHeap | goofy/treap/treap.go:24-42 | insertion keeps every priority at least its parent's |
| Treap.Remove | goofy/treap/treap.go:44-64 | every other key keeps its count and the key loses at most one occurrence |
| Treap.RemoveOne | goofy/treap/treap.go:44-64 | in an ordered treap a present key loses exactly one occurrence, and an absent key leaves the treap unchanged |
| Treap.RemoveRootAbove | goofy/treap/treap.go:52-62 | removing a node's key at that node leaves only priorities of its subtrees |
| Treap.RemoveOrdered | goofy/treap/treap.go:44-64 | removal keeps the search-tree order |
| Treap.RemoveHeap | goofy/treap/treap.go:44-64 | removal keeps every priority at least its parent's |
| Treap.Search | goofy/treap/treap.go:66-75 | a node returned holds the key, which occurs in the treap |
| Treap.SearchFinds | goofy/treap/treap.go:66-75 | in an ordered treap a node is returned exactly when the key occurs |
| Treap.RemovedKey | goofy/treap/treap.go:44-75 | after a removal from an ordered treap, Search misses the key exactly when it occurred at most once |
| Treap.OrderedSorted | goofy/treap/treap.go:24-42 | an ordered treap lists its keys in non-decreasing order |
| AcTrie.GetNode | goofy/actrie/actrie.go:21-28 | the result is the child listed for the byte at its first occurrence, and nil exactly when no listed byte matches |
| AcTrie.ChildAppend | goofy/actrie/actrie.go:16-19 | after appending (c, x) a byte already listed keeps its child, c not yet listed leads to x, and any other byte still has none |
| AcTrie.WalkAdd | goofy/actrie/actrie.go:16-19 | adding a child for a byte the node lacks leaves every word that could already be walked at its node |
| AcTrie.WalkWord | goofy/actrie/actrie.go:43-57 | walking any word from the root ends at nil or at an allocated node spelling exactly that word |
| AcTrie.MatchedPrefixes | goofy/actrie/actrie.go:44-56 | a prefix of s can be walked exactly when it is no longer than the matched prefix, so the walk stops at the first byte without a child |
| AcTrie.Descend | goofy/actrie/actrie.go:45-56 | an existing child is followed with nothing changed; otherwise node alloc is added as p's child for the byte, alloc grows by one and the new node has no children |
| AcTrie.Follow | goofy/actrie/actrie.go:44-56 | one byte of the insertion walk keeps the walk on an allocated node and allocates at most one node, adding nodes only once the walk has passed the longest prefix the trie already spells |
| AcTrie.AddPath | goofy/actrie/actrie.go:43-57 | the walk ends at a node spelling s, the trie invariant holds, and exactly one node is allocated per byte past the longest prefix already in the trie |
| AcTrie.GrowKeeps | goofy/actrie/actrie.go:47-51 | copying the nodes into a longer zeroed slice keeps the trie |
| AcTrie.AddChildKeeps | goofy/actrie/actrie.go:52-54 | adding node alloc as the child of p for a byte p lacks keeps the trie, with the new node spelling p's word and the byte |
| AcTrie.EndKeeps | goofy/actrie/actrie.go:58 | incrementing `end` at the node that spells s keeps every node's `end` equal to the number of inserted patterns equal to its word |
| AcTrie.FreshTrie | goofy/actrie/actrie.go:38-42 | the first insert's slice is a trie whose only node is the root, spelling the empty word with no failure link, from which no nonempty word can be walked |
| AcTrie.InsertNodes | goofy/actrie/actrie.go:35-60 | the trie invariant holds with s added to the patterns; a nil slice becomes a trie of len(s) + 1 nodes, and otherwise one node is allocated per unmatched byte |
| AcTrie.ACTrie.constructor | goofy/actrie/actrie.go:30-33 | the zero `ACTrie` has no nodes and no patterns |
| AcTrie.ACTrie.Insert | goofy/actrie/actrie.go:35-61 | the patterns gain s, the trie invariant holds, and alloc grows by the number of bytes of s past its longest prefix already in the trie (len(s) + 1 from a nil trie) |
| AcTrie.ChaseFail | goofy/actrie/actrie.go:75-86 | following failure links from p's link to the first node with a child for c, or else taking the root, gives the deepest node spelling a proper suffix of p's word followed by c |
| AcTrie.DepthOne | goofy/actrie/actrie.go:66-67 | a child of the root fails to the root, as the deepest node spelling a proper suffix of its one-byte word |
| AcTrie.LinkRoot | goofy/actrie/actrie.go:64-69 | the root's children are linked to the root and queued in the order of its child list, with only failure links changed |
| AcTrie.BfsAppend | goofy/actrie/actrie.go:73-88 | linking the next child of the node being expanded and queuing it keeps every queued node linked, the queue free of repeats and ordered by depth, and the children of unexpanded nodes unqueued |
| AcTrie.InOrder | goofy/actrie/actrie.go:70-89 | every node no deeper than the one being expanded, and every node once the queue is empty, has been queued |
| AcTrie.LinkChild | goofy/actrie/actrie.go:74-87 | linking child i of the node being expanded and queuing it keeps the breadth-first state, with only failure links changed |
| AcTrie.LinkChildren | goofy/actrie/actrie.go:73-88 | linking every child of the node taken from the queue, in order, keeps the breadth-first state with all its children linked and queued, changing only failure links |
| AcTrie.LinkRest | goofy/actrie/actrie.go:70-89 | emptying the queue links every node but the root to the deepest node spelling a proper suffix of its word, changing nothing else |
| AcTrie.ACTrie.Build | goofy/actrie/actrie.go:63-90 | every node but the root is linked to the deepest node spelling a proper suffix of its word; words, patterns, alloc and every other field are unchanged |
| AcTrie.FailShallower | goofy/actrie/actrie.go:63-90 | after building, each failure link is an allocated node with a strictly shorter word, and nodes one byte deep fail to the root |
| AcTrie.FailChain | goofy/actrie/actrie.go:106-110 | the patterns ending at a node's word are those equal to it, counted by its `end`, and those ending at its failure link's word |
| AcTrie.HitsLongest | goofy/actrie/actrie.go:97-105 | the patterns ending at the end of the text read are exactly those ending at the end of the longest node word that ends the text |
| AcTrie.Advance | goofy/actrie/actrie.go:97-105 | from the node for the longest node word ending the text, the chase and the step on byte c reach the node for the longest node word ending the text extended by c |
| AcTrie.ChainSum | goofy/actrie/actrie.go:106-110 | the sum of `end` along the failure links from p to the root is the number of nonempty patterns ending at the end of p's word |
| AcTrie.MatchNodes | goofy/actrie/actrie.go:92-113 | the total is the number of occurrences of the nonempty patterns in s, counted at each end position |
| AcTrie.ACTrie.Match | goofy/actrie/actrie.go:92-113 | once built, the total is the number of occurrences of the inserted patterns in s |
| AcTrie.SampleMatch | goofy/actrie/actrie_test.go:7-17 | say, she, he, shr and her occur three times in "yasherhs" |
| GoSkiplist.SlRand | goofy/skiplist/skiplist.go:24-37 | the level is the number of leading draws below a quarter of 2^16, or 0 when that number reaches maxLevel, and is always below maxLevel |
| GoSkiplist.After | goofy/skiplist/skiplist.go:42-50 | the position just past a node on the lane below: every key before it is at least that node's key |
| GoSkiplist.LinkKeeps | goofy/skiplist/skiplist.go:71-76 | linking a new key in where the walk stopped keeps a lane strictly descending and adds exactly that key |
| GoSkiplist.UnlinkKeeps | goofy/skiplist/skiplist.go:87-93 | unlinking the node where the walk stopped keeps a lane strictly descending and removes exactly its key |
| GoSkiplist.Absent | goofy/skiplist/skiplist.go:89-91 | when the node after a walk's stop does not hold the key, the lane does not hold it |
| GoSkiplist.KeyAbove | goofy/skiplist/skiplist.go:87-93 | a key absent from one lane is absent from every lane above it, so the unlinking loop may stop there |
| GoSkiplist.LinkShape | goofy/skiplist/skiplist.go:62-77 | linking a new key into lanes 0 to the drawn level, raising the level by at most one, keeps every lane descending and every key on the lanes below, and adds the key to exactly those lanes |
| GoSkiplist.List.constructor | goofy/skiplist/skiplist.go:16-22 | the zero value holds no keys, has level 0 and every header link nil |
| GoSkiplist.List.Init | goofy/skiplist/skiplist.go:126-130 | every lane is empty and ends at `null`; count and level are untouched, so a zero-value list becomes a valid empty list |
| GoSkiplist.List.Search | goofy/skiplist/skiplist.go:39-54 | each lane's stop splits the keys above key from the rest, and q is the largest key at most key, equal to key when it is present, or 0 (the `null` node) when there is none |
| GoSkiplist.List.Insert | goofy/skiplist/skiplist.go:56-79 | true exactly when key is new and not 0; then the key joins lanes 0 to the drawn level (capped at one above the old level), the count goes up by one and the list stays valid; otherwise nothing changes |
| GoSkiplist.List.LinkUpTo | goofy/skiplist/skiplist.go:71-76 | each lane from the top one down to 0 gets the new key linked in after its stop, and no other lane changes |
| GoSkiplist.List.Unlink | goofy/skiplist/skiplist.go:87-93 | the key leaves every lane and nothing else does; lane 0 shrinks by one, the lanes stay descending and the lanes above the level are untouched |
| GoSkiplist.List.ShrinkLevel | goofy/skiplist/skiplist.go:94-98 | the level drops past every empty lane that ends at `null`, and stops at lane 0 or at a lane that is non-empty or ends in nil |
| GoSkiplist.List.Remove | goofy/skiplist/skiplist.go:81-101 | true exactly when the key was present; the key leaves every lane, the count goes down by one, the level is the highest non-empty lane and the list stays valid |
| GoSkiplist.List.RemoveAsWritten | goofy/skiplist/skiplist.go:81-101 | for a non-zero key, as Remove; for key 0, true with no key removed, the count down by one and the last link of every lane up to the level set to nil |
| GoSkiplist.List.Range | goofy/skiplist/skiplist.go:103-124 | nothing when offset is not below the count; otherwise the keys from position offset (0 when negative) in list order, as many as fit in the buffer or remain, leaving the rest of the buffer alone |
| GoSkiplist.RemoveZeroAsWritten | goofy/skiplist/skiplist.go:84 | on the list holding 5, Remove(0) as written reports a removal and drops the count to 0 while 5 is still linked and lane 0 ends in nil |
| GoSkiplist.RemoveZero | goofy/skiplist/skiplist.go:84 | on the list holding 5, the corrected Remove(0) gives false and leaves the list valid, holding 5 with count 1 |
| DaTrie.Code | regular/src/datrie.rs:83-86 | the code of a key at a depth is 0 exactly when the key ends there, and otherwise its byte there plus one |
| DaTrie.Contains | regular/src/datrie.rs:9-21 | the loop from `base[0]` gives the walk over the key's bytes: a step needs the target slot below the length of `check` and checked with the current state, the end needs the state checked with itself and a negative base; a negative or too large index is a panic |
| DaTrie.Walk | regular/src/datrie.rs:11-20 | at the end of the key, the walk accepts exactly when the state lies inside both arrays, is checked with itself and has a negative base; an accepted non-empty key's first byte leads to a slot inside both arrays checked with the current state |
| DaTrie.Lookup | regular/src/datrie.rs:9-21 | empty arrays panic at `base[0]`; an accepted key's first slot from `base[0]` lies inside `check` |
| DaTrie.WalkFinds | regular/src/datrie.rs:9-21 | on arrays that encode the trie of the keys, the walk from the block of node w over u accepts exactly when w + u is a key |
| DaTrie.WalkStep | regular/src/datrie.rs:12-18 | a step from the block of node w on byte c reaches the block of the child w + [c] when some key extends it, and otherwise fails with no key extending w + u |
| DaTrie.WalkEnds | regular/src/datrie.rs:19-20 | at the end of the walk, the block of node w accepts exactly when w is a key |
| DaTrie.CodeOrder | regular/src/datrie.rs:87 | among keys in bytewise order that share a prefix, the codes after the prefix are in order |
| DaTrie.SpanAscending | regular/src/datrie.rs:87 | sorted keys sharing a prefix pass the assertion of `fetch` at the depth after the prefix |
| DaTrie.Closed | regular/src/datrie.rs:91-92 | closing the last sibling's range at r changes only that range's end |
| DaTrie.Builder.constructor | regular/src/datrie.rs:63-74 | a new builder holds the keys, one slot with base 1 and nothing checked or used, next_check 0, alloc and used size 1 and no key placed |
| DaTrie.Builder.Fetch | regular/src/datrie.rs:76-96 | the keys of the parent's range that reach its depth grouped by their code there, in strictly increasing code order, each group a range of consecutive keys, the last ending at the parent's end; nothing exactly when no key reaches the depth |
| DaTrie.FetchedSpan | regular/src/datrie.rs:76-96 | `fetch` on the range of the keys with prefix w gives the siblings of the node w, starting at the range's start |
| DaTrie.ChildSpan | regular/src/datrie.rs:89-93 | the range of a sibling with a non-zero code holds exactly the keys with the child's prefix |
| DaTrie.ChildFetch | regular/src/datrie.rs:157-158 | one level down, `fetch` finds nothing exactly for the end of a key, and otherwise the siblings of the child |
| DaTrie.Builder.Resize | regular/src/datrie.rs:98-106 | a size below the allocated one changes nothing; otherwise the three arrays are padded to the new size with 0 and false, the old slots kept |
| DaTrie.SlotsFree | regular/src/datrie.rs:133-135 | the check of the other siblings' slots: true exactly when each lies inside `check` and is 0, a panic only when one lies past the end, false only when one inside is non-zero |
| DaTrie.SlotsClear | regular/src/datrie.rs:133-135 | when nothing from begin on is checked, the slot check never fails, and panics exactly when the last sibling's slot lies past the end |
| DaTrie.SlotsInRange | regular/src/datrie.rs:133-135 | when the last sibling's slot is inside `check`, the slot check does not panic |
| DaTrie.Builder.Widen | regular/src/datrie.rs:126-129 | the arrays grow by the source's factor when the last slot is not below the allocated size (with the correction, at least past that slot), keeping every old slot |
| DaTrie.Grow | regular/src/datrie.rs:126-129 | the grown size is the allocated size times the larger of 1.05 and the keys over progress + 1, rounded down, which is the larger of the two rounded products; it never shrinks |
| DaTrie.Grown | regular/src/datrie.rs:126-129 | the size is kept when the last sibling's slot is below it; otherwise it grows at least by both factors; with the correction it always lies past the last slot |
| DaTrie.Builder.Place | regular/src/datrie.rs:125-139 | a round fits only when begin is unused and every sibling's slot is in range and free; with the corrected growth it never overflows; on clear slots it is never taken, and the size is the growth of the round |
| DaTrie.Builder.Probe | regular/src/datrie.rs:114-139 | a round at pos grows the arrays to hold pos, counts an occupied pos as a hit, moves next_check to the first free position seen, and then places begin = pos less the first code |
| DaTrie.Builder.Search | regular/src/datrie.rs:109-139 | with the corrected growth the search ends at a position whose begin is unused, at least 1, with every sibling's slot free, no earlier slot disturbed; on a fresh builder it is the first position tried |
| DaTrie.Builder.SearchAsWritten | regular/src/datrie.rs:109-139 | with the source's growth, a begin found has every sibling's slot free; on a fresh builder the search panics exactly when the last slot is not below the grown size |
| DaTrie.Builder.FindBegin | regular/src/datrie.rs:109-149 | the search followed by the next_check heuristic keeps the blocks and returns a begin that is unused with every sibling's slot free; on a fresh builder, the first position tried less the first code |
| DaTrie.Builder.Mark | regular/src/datrie.rs:152-154 | every sibling's slot is checked with begin, slots checked before keep their value, and every changed slot lies at a code of the node |
| DaTrie.MarkStep | regular/src/datrie.rs:152-154 | checking one more sibling's slot extends the marking, the codes being distinct |
| DaTrie.Builder.Claim | regular/src/datrie.rs:150-154 | begin is marked used, the used size covers the last slot, every sibling's slot is checked with begin, and begin becomes the block of the node while the blocks stay placed and owned |
| DaTrie.ClaimBlocks | regular/src/datrie.rs:150-154 | claiming a free block with all its slots marked keeps every block placed, owned and linked |
| DaTrie.BaseWriteKeeps | regular/src/datrie.rs:160-163 | writing the base of a slot of a block not yet done keeps every done block linked |
| DaTrie.BlockDone | regular/src/datrie.rs:155-166 | once every sibling's slot has its base, the block is linked: negative at the end of a key, the child's done block elsewhere |
| DaTrie.Builder.SetBase | regular/src/datrie.rs:160-163 | the base of one sibling's slot is written and only that; the siblings before it stay wired |
| DaTrie.Builder.EndKey | regular/src/datrie.rs:159-161 | the end of a key gets base -1 - left, negative, and one more key is counted as placed |
| DaTrie.Builder.PlaceInner | regular/src/datrie.rs:162-164 | the child is inserted and the slot's base becomes its begin, whose block is done and belongs to the child |
| DaTrie.Builder.PlaceChild | regular/src/datrie.rs:156-165 | one sibling's slot gets its base, nothing checked before changes except the block's own bases, and the nodes and done blocks only grow |
| DaTrie.Builder.PlaceChildren | regular/src/datrie.rs:155-166 | every sibling's slot gets its base and the block becomes done, with every other node still waiting |
| DaTrie.Builder.Insert | regular/src/datrie.rs:108-168 | the node's block is found, claimed and completed with all its descendants; slots checked before keep their check and base; on a fresh builder the block begins at the first position tried |
| DaTrie.Builder.IntoDatrie | regular/src/datrie.rs:170-178 | once every block is done, the arrays cut to the used size encode the trie of the keys |
| DaTrie.CutEncodes | regular/src/datrie.rs:170-178 | cutting the arrays to the used size keeps every block placed, owned and linked |
| DaTrie.Build | regular/src/datrie.rs:181-187 | for sorted keys, no keys is a panic; otherwise the trie answers `contains` with exactly membership in the keys, for every byte string |
| DaTrie.BuildSample | regular/src/datrie.rs:193-202 | the trie of the test dictionary holds "ACFF" and not "ZZZ" |
| Skiplist.Rank | regular/src/skiplist.rs:118-127 | the walk along a lane stops at the first key not below x: every key before the stop is below x and the key at it, if any, is not |
| Skiplist.RankSplits | regular/src/skiplist.rs:118-127 | on an ascending lane the stop of the walk for x splits the lane at x |
| Skiplist.SplitsRank | regular/src/skiplist.rs:118-127 | a position that splits a lane at x is the stop of the walk for x, so the stop is unique |
| Skiplist.Succ | regular/src/skiplist.rs:253 | the link `next[0]` of the node holding x leads to a larger key of the lane, or to None |
| Skiplist.AfterNode | regular/src/skiplist.rs:253 | on an ascending lane holding x, the position after x is one past the node holding x |
| Skiplist.LinkKeeps | regular/src/skiplist.rs:60-69 | linking key in where the walk for key stopped keeps a lane ascending, makes it one longer and adds exactly key |
| Skiplist.UnlinkKeeps | regular/src/skiplist.rs:82-95 | unlinking the node at the stop keeps a lane ascending, makes it one shorter and removes exactly its key |
| Skiplist.Absent | regular/src/skiplist.rs:85-93 | when the link at the stop does not lead to a node holding key, the lane does not hold key |
| Skiplist.KeyAbove | regular/src/skiplist.rs:82-95 | a key absent from one lane is absent from every lane above it, so the unlinking loop loses nothing by breaking there |
| Skiplist.UnlinkLanes | regular/src/skiplist.rs:80-95 | unlinking key from the lanes below where the loop stopped drops key from every lane and from nothing else, keeps each lane ascending and makes lane 0 one shorter |
| Skiplist.LinkLanes | regular/src/skiplist.rs:60-69 | linking a new key into lanes 0 to top keeps each lane ascending, adds the key to exactly those lanes and makes lane 0 one longer |
| Skiplist.LinkShape | regular/src/skiplist.rs:52-69 | linking a new key into lanes 0 to top, with the level raised to top when top is above it, keeps the lanes a skip list and adds the key to exactly those lanes |
| Skiplist.LinkLevel | regular/src/skiplist.rs:54-58 | after the linking the lanes above the new level are empty and the new level's lane is not |
| Skiplist.JoinedStacked | regular/src/skiplist.rs:60-69 | adding a key to lanes 0 to top keeps every key of a lane on the lane below and on lane 0 |
| Skiplist.ZerosBelow | regular/src/skiplist.rs:49 | a non-zero number below 2^l has fewer than l trailing zeros |
| Skiplist.RandLevel | regular/src/skiplist.rs:47-50 | the level drawn is below L, except that a draw whose low L bits are all zero gives 64 |
| Skiplist.LinkTop | regular/src/skiplist.rs:53-58 | with the correction, the top lane of a new node is below the height and at most one above the current level |
| Skiplist.StepDown | regular/src/skiplist.rs:117-129 | going down from the last node passed on a lane keeps the walk inside the lane below, past keys that are all below the bar |
| Skiplist.At | regular/src/skiplist.rs:370-374 | a node pointer taken from a lane position is None exactly past the end of the lane |
| Skiplist.SuccAt | regular/src/skiplist.rs:373 | on an ascending lane, the link of the node at position p leads to position p + 1 |
| Skiplist.AtSame | regular/src/skiplist.rs:370 | on an ascending lane two positions give equal node pointers exactly when they are equal |
| Skiplist.RankBelow | regular/src/skiplist.rs:118-127 | on an ascending lane, a key is below x exactly when its position is before the walk's stop |
| Skiplist.RankMono | regular/src/skiplist.rs:118-127 | the walk for a larger key stops no earlier |
| Skiplist.CheckRange | regular/src/skiplist.rs:441-463 | a pair of bounds `check_range` refuses covers no key |
| Skiplist.CheckRangeFixed | regular/src/skiplist.rs:441-463 | the corrected check refuses also a pair of equal exclusive bounds; a pair it refuses covers no key, and a pair it passes the source passes too |
| Skiplist.Lo | regular/src/skiplist.rs:246-259 | the first position a start bound covers lies within the lane |
| Skiplist.Hi | regular/src/skiplist.rs:261-274 | the position past the keys an end bound covers lies within the lane |
| Skiplist.CoversSpan | regular/src/skiplist.rs:233-276 | on an ascending lane the bounds cover the key at position i exactly when Lo <= i < Hi |
| Skiplist.SpanOrdered | regular/src/skiplist.rs:441-463 | bounds the corrected check passes never put Lo after Hi |
| Skiplist.SpanAsWritten | regular/src/skiplist.rs:233-288 | as written, `range` yields nothing when `check_range` refuses the bounds; otherwise keys of lane 0, no more of them than it holds, and in ascending order on an ascending lane |
| Skiplist.SpanKeys | regular/src/skiplist.rs:278-288 | the keys a corrected range yields are ascending and are exactly the lane's keys the bounds cover |
| Skiplist.SliceCovers | regular/src/skiplist.rs:278-288 | every key between Lo and Hi is covered by the bounds |
| Skiplist.SliceCovered | regular/src/skiplist.rs:278-288 | every key of the lane the bounds cover lies between Lo and Hi |
| Skiplist.Seeked | regular/src/skiplist.rs:247-256 | the position a bound of `range_bound_ptr` leads to lies within lane 0; SeekPast says which it is |
| Skiplist.StartAt | regular/src/skiplist.rs:245-259 | the start node of `range_bound_ptr` lies within lane 0 |
| Skiplist.EndAt | regular/src/skiplist.rs:260-274 | the end node of `range_bound_ptr` lies within lane 0 |
| Skiplist.SeekPast | regular/src/skiplist.rs:247-256 | stepping from the head when the search passes no node, the bound for key leads to the first key not below key, or with the step to the first key above it |
| Skiplist.SeekedFixed | regular/src/skiplist.rs:245-274 | with that step, the start of `range_bound_ptr` leads to Lo and the end to Hi |
| Skiplist.RankAt | regular/src/skiplist.rs:125 | on an ascending lane holding key, the walk for key stops at the node holding key |
| Skiplist.EndPred | regular/src/skiplist.rs:330-343 | the position of the end predecessor lies within the lane |
| Skiplist.CutAll | regular/src/skiplist.rs:349-356 | the relinking as written gives one lane for each lane |
| Skiplist.Cut | regular/src/skiplist.rs:349-357 | the relinking of one lane as written only takes keys out: the result keeps the lane's order, is no longer, and keeps every key before the start predecessor (and before the end predecessor, when there is one) in place |
| Skiplist.LanesAsWritten | regular/src/skiplist.rs:302-360 | `drain_range` as written leaves as many lanes as it found |
| Skiplist.DrainFrom | regular/src/skiplist.rs:312-328 | the start node of `drain_range` as written lies within lane 0 |
| Skiplist.DrainTo | regular/src/skiplist.rs:330-343 | the end node of `drain_range` as written lies within lane 0 |
| Skiplist.DrainedAsWritten | regular/src/skiplist.rs:312-343 | as written, `drain_range` yields nothing when `check_range` refuses the bounds; otherwise keys of lane 0, no more of them than it holds, and in ascending order on an ascending lane |
| Skiplist.ExcisedAt | regular/src/skiplist.rs:349-356 | taking the positions lo to hi out of a lane shifts the keys after them down by hi - lo |
| Skiplist.ExcisedAscending | regular/src/skiplist.rs:349-356 | taking positions out of an ascending lane keeps it ascending |
| Skiplist.ExcisedKeys | regular/src/skiplist.rs:349-356 | the corrected relinking keeps a lane ascending and removes exactly the keys the bounds cover |
| Skiplist.ExcisedShape | regular/src/skiplist.rs:349-357 | after the corrected relinking of every lane and `shrink_level`, the lanes are a skip list again without the covered keys |
| Skiplist.OneLanePanics | regular/src/skiplist.rs:47-57 | with one lane every even draw makes `rand_level` give 64, so the first insert indexes `preds[1]` of a one-entry array |
| Skiplist.DrainLeavesLanes | regular/src/skiplist.rs:99-103 | on a list whose level is above 0, `drain` as written leaves lanes that are not a skip list; with two lanes, the draw 2 puts a new key on lane 1 |
| Skiplist.RangeAsWrittenMisses | regular/src/skiplist.rs:245-274 | on [1, 2, 3], `range` as written yields nothing for (included 0, unbounded), which covers every key, and everything for (unbounded, excluded 0), which covers none |
| Skiplist.RangeEqualExcluded | regular/src/skiplist.rs:448-449 | on [1, 2, 3], `range` as written yields 3 for (excluded 2, excluded 2), which covers no key |
| Skiplist.DrainRangeDropsFirst | regular/src/skiplist.rs:327 | on [1, 2, 3], `drain_range` as written with (unbounded, excluded 2) yields nothing and unlinks 1 |
| Skiplist.DrainRangeDropsBound | regular/src/skiplist.rs:349-359 | on [1, 2, 3], `drain_range` as written with (excluded 2, excluded 2) yields 3 and unlinks 2 and 3 |
| Skiplist.DrainRangeTakesAll | regular/src/skiplist.rs:345-347 | on [1, 2, 3], `drain_range` as written with (included 5, unbounded), which covers no key, drains every key |
| Skiplist.DrainRangeKeepsDrained | regular/src/skiplist.rs:349-359 | on [1, 6], `drain_range` as written with (included 4, excluded 5) yields 6 while 6 stays linked |
| Skiplist.Skiplist.constructor | regular/src/skiplist.rs:40-45 | a new list of L lanes has every lane empty, level 0 and no values, and is a skip list |
| Skiplist.Skiplist.WalkLane | regular/src/skiplist.rs:118-128 | the walk along one lane passes exactly the keys below the bar, stopping at the walk's stop |
| Skiplist.Skiplist.SearchNode | regular/src/skiplist.rs:110-131 | Found exactly when a node holds key; otherwise the key of the last node below key on lane 0, None exactly when there is none |
| Skiplist.Skiplist.SearchPreds | regular/src/skiplist.rs:133-164 | on each lane up to the level, the predecessor splits the lane at key (past key with exclude), the entries above stay None, and a node is found exactly when key is present and not excluded |
| Skiplist.Skiplist.Get | regular/src/skiplist.rs:166-176 | the value of key, None exactly when no node holds it |
| Skiplist.Skiplist.GetMut | regular/src/skiplist.rs:178-188 | a write through the reference replaces the value of key exactly when a node holds it, and nothing else changes |
| Skiplist.Skiplist.LinkUpTo | regular/src/skiplist.rs:60-69 | each lane from 0 to top gets the new key at its predecessor's position, and no other lane changes |
| Skiplist.Skiplist.LinkNode | regular/src/skiplist.rs:52-70 | as written, a panic exactly when the drawn level is above the level and the level is the top lane, with the level already raised to L and no lane or value changed; otherwise the list stays a skip list, the level rises to the new node's top lane when that is above it, and the key joins exactly the lanes up to that top |
| Skiplist.Skiplist.Place | regular/src/skiplist.rs:54-69 | the new key joins exactly the lanes up to top, the level becomes the one given and the list stays a skip list |
| Skiplist.Skiplist.Insert | regular/src/skiplist.rs:190-202 | corrected: the value of key becomes the new one and the old value, or None, is returned; a present key leaves the lanes unchanged, a new one joins exactly the lanes up to its top lane; the list stays a skip list |
| Skiplist.Skiplist.InsertAsWritten | regular/src/skiplist.rs:190-202 | a panic exactly when the key is new, the level is the top lane and the drawn level lies above it, leaving the level raised to L and the lanes and values as they were; otherwise as Insert: the value of key becomes the new one and the old value, or None, is returned; a present key leaves the lanes and level unchanged, a new one joins exactly the lanes up to its top lane |
| Skiplist.Skiplist.Unlink | regular/src/skiplist.rs:82-95 | key leaves every lane and nothing else does; each lane stays ascending, lane 0 is one shorter and the lanes above the level are untouched |
| Skiplist.Skiplist.ShrinkLevel | regular/src/skiplist.rs:72-78 | the level drops past the empty lanes and stops at lane 0 or at a non-empty lane |
| Skiplist.Skiplist.RemoveNode | regular/src/skiplist.rs:80-97 | key leaves every lane and nothing else does, and the lanes stay a skip list with the level at the highest non-empty lane |
| Skiplist.Skiplist.Remove | regular/src/skiplist.rs:221-231 | the old value of key, None exactly when absent; key leaves every lane and the values, nothing else does, and the list stays a skip list |
| Skiplist.Skiplist.Walk | regular/src/skiplist.rs:368-379 | iterating from the node at lo yields the entries of lane 0 in order up to the end node at hi, or to the end of the lane when hi lies behind lo |
| Skiplist.Skiplist.SeekBound | regular/src/skiplist.rs:247-256 | the node a bound leads to: the node found, or one step on from it or from the last node passed, as Seeked gives |
| Skiplist.Skiplist.RangeStart | regular/src/skiplist.rs:245-259 | the start node of `range_bound_ptr`, as StartAt gives |
| Skiplist.Skiplist.RangeEnd | regular/src/skiplist.rs:260-274 | the end node of `range_bound_ptr`, as EndAt gives |
| Skiplist.Skiplist.Range | regular/src/skiplist.rs:278-300 | corrected: the entries of exactly the keys the bounds cover, in ascending order (with SpanKeys) |
| Skiplist.Skiplist.RangeAsWritten | regular/src/skiplist.rs:233-288 | as written: nothing when `check_range` refuses; otherwise lane 0 from the start node until the end node, or to its end when the end lies before the start |
| Skiplist.Skiplist.DrainAsWritten | regular/src/skiplist.rs:99-103 | as written: every entry in order; lane 0 becomes empty, the level 0, and every higher lane keeps its keys |
| Skiplist.Skiplist.Drain | regular/src/skiplist.rs:99-103 | corrected: every entry in ascending order of keys, and every lane becomes empty, which is a skip list again |
| Skiplist.Skiplist.StartPreds | regular/src/skiplist.rs:312-328 | the start predecessor on every lane is the first position the start bound covers, and a node is found exactly for an inclusive key that is present |
| Skiplist.Skiplist.EndPreds | regular/src/skiplist.rs:330-343 | the end predecessor on every lane is the position past the keys the end bound covers (0 when unbounded), and a node is found exactly for an exclusive key that is present |
| Skiplist.Skiplist.CutLanes | regular/src/skiplist.rs:349-357 | as written, every lane is relinked from the start predecessor to the node after the end predecessor, and the level drops to the highest non-empty lane |
| Skiplist.Skiplist.ExciseLanes | regular/src/skiplist.rs:349-356 | corrected, every lane loses exactly the positions the bounds cover |
| Skiplist.Skiplist.TakeSpan | regular/src/skiplist.rs:349-357 | corrected, the lanes stay a skip list and each loses exactly the keys the bounds cover |
| Skiplist.Skiplist.DrainBounds | regular/src/skiplist.rs:312-343 | the predecessors of each bound on every lane and the start and end nodes, as DrainFrom and DrainTo give |
| Skiplist.Skiplist.DrainWalk | regular/src/skiplist.rs:417-429 | the `Drain` iterator from the start node yields lane 0 up to the end node when that lies ahead, and to the end of lane 0 otherwise |
| Skiplist.Skiplist.DrainRangeAsWritten | regular/src/skiplist.rs:302-360 | as written: the entries DrainedAsWritten gives, the lanes LanesAsWritten gives, the values of the keys left on lane 0, and the level at the highest non-empty lane |
| Skiplist.Skiplist.DrainCheckedAsWritten | regular/src/skiplist.rs:312-359 | the same, once `check_range` has passed |
| Skiplist.Skiplist.CutAsWritten | regular/src/skiplist.rs:349-357 | every lane is relinked as written and only the values of keys left on lane 0 stay |
| Skiplist.Skiplist.DrainRange | regular/src/skiplist.rs:302-360 | corrected: the entries of exactly the keys the bounds cover, in ascending order; those keys leave every lane and the values, nothing else does, and the list stays a skip list |
| DaTrie.ZeroZedSiblings | regular/src/datrie.rs:76-96 | the root of "0" and "z" has two siblings, codes 49 and 123 |
| DaTrie.ZeroZedAsWritten | regular/src/datrie.rs:126-129 | for "0" and "z", a fresh builder's search as written grows only to 102 while the last slot is 124, so it panics |
| DaTrie.ZeroZed | regular/src/datrie.rs:181-187 | with the corrected growth, the trie of "0" and "z" holds both keys and not "1" or the empty string |
| BTree.Below | regular/src/btree.rs:42-50 | the count of keys the scan passes: every key before it is below k and the key at it, if any, is at least k |
| BTree.Locate | regular/src/btree.rs:41-51 | Ok(i) exactly when the scan meets k at i, every key before i below it; otherwise Err(p) with every key before p below k and the key at p, if any, above k |
| BTree.SearchInNode | regular/src/btree.rs:41-51 | the loop returns what Locate describes |
| BTree.Descend | regular/src/btree.rs:178-188 | a key strictly between the keys around child p is under the node exactly when it is under child p, and not elsewhere |
| BTree.SplitChild | regular/src/btree.rs:53-63 | splitting a child adds one key and one child to the node |
| BTree.SplitKeeps | regular/src/btree.rs:53-63 | splitting a full child keeps the keys in order (the listing is unchanged) and the B-tree shape: the median moves up at `at`, the two halves hold T - 1 keys each, and the other keys keep their places |
| BTree.InsertNonFull | regular/src/btree.rs:65-79 | inserting into a node that is not full keeps the B-tree shape and height, adds at most one key to the node and returns false |
| BTree.InsertSpec | regular/src/btree.rs:65-79 | inserting into a non-full node with its keys in order keeps them in order and adds exactly one occurrence of k |
| BTree.InsertLeaf | regular/src/btree.rs:66-69 | inserting k where the scan stopped keeps a sorted key list sorted and adds exactly one k |
| BTree.InsertSplit | regular/src/btree.rs:71-77 | when the child to descend into is full, splitting it and descending to the side of the median that k belongs to adds exactly one k and keeps the keys in order |
| BTree.InsertDown | regular/src/btree.rs:77 | descending into a non-full child between the keys around k adds exactly one k and keeps the keys in order |
| BTree.RemoveLeaf | regular/src/btree.rs:81-84 | removing key at from a leaf takes out exactly that key and returns true |
| BTree.Predecessor | regular/src/btree.rs:86-92 | the walk down the last children returns the last key under child at, the greatest key below key at |
| BTree.Successor | regular/src/btree.rs:94-100 | corrected: the walk down the first children of child at + 1 returns the least key under it, the least key above key at |
| BTree.FirstUnder | regular/src/btree.rs:94-100 | following the first children down to a leaf gives the least key of the subtree, which is not empty |
| BTree.SuccessorAsWritten | regular/src/btree.rs:94-100 | as written: the walk starts from child at and returns the least key under child at, which lies below key at |
| BTree.Merge | regular/src/btree.rs:102-111 | merging children at and at + 1 around key at removes one key and one child from the node |
| BTree.MergeShape | regular/src/btree.rs:102-111 | merging two children with T - 1 keys each keeps the B-tree shape, and the merged child holds the keys of both plus key at |
| BTree.MergeFlat | regular/src/btree.rs:102-111 | merging leaves the node's keys in the same order |
| BTree.BorrowPrev | regular/src/btree.rs:129-140 | moving a key through the parent from the left sibling keeps the number of keys and children |
| BTree.BorrowPrevShape | regular/src/btree.rs:129-140 | borrowing from a left sibling with at least T keys keeps the B-tree shape and gives child at one more key |
| BTree.BorrowPrevFlat | regular/src/btree.rs:129-140 | borrowing from the left sibling keeps the node's keys in the same order |
| BTree.BorrowNext | regular/src/btree.rs:142-155 | moving a key through the parent from the right sibling keeps the number of keys and children |
| BTree.BorrowNextShape | regular/src/btree.rs:142-155 | borrowing from a right sibling with at least T keys keeps the B-tree shape and gives child at one more key |
| BTree.BorrowNextFlat | regular/src/btree.rs:142-155 | borrowing from the right sibling keeps the node's keys in the same order |
| BTree.FillKeeps | regular/src/btree.rs:157-167 | filling a child with T - 1 keys keeps the listed keys, their order and the shape, takes at most one key from the node, and leaves the child that `remove` descends into with at least T keys |
| BTree.Fill | regular/src/btree.rs:157-167 | the node keeps one more child than keys and loses at most one key; it keeps all of them exactly when a sibling next to child at can spare a key, that is when `fill` borrows instead of merging |
| BTree.FillBetween | regular/src/btree.rs:157-167 | a key between the keys around child at before the fill is between the keys around the child that `remove` then descends into |
| BTree.RemoveFrom | regular/src/btree.rs:169-194 | removing from a node keeps the B-tree shape and height and takes at most one key from the node itself |
| BTree.RemoveSpec | regular/src/btree.rs:169-194 | removing k from a node with its keys in order keeps them in order, takes out exactly one occurrence of k, and returns true exactly when k was there |
| BTree.RemoveLeafSpec | regular/src/btree.rs:171-177 | removing key at from a sorted leaf keeps it sorted, takes out exactly one occurrence of that key and returns true |
| BTree.RemoveDownSpec | regular/src/btree.rs:178-188 | a key not in an inner node is removed from the child it can only be under, after the fill, and the result says whether it was there |
| BTree.RemoveNonLeaf | regular/src/btree.rs:113-127 | corrected (successor from child at + 1): removing key at of an inner node keeps the B-tree shape and takes at most one key from the node |
| BTree.RemoveNonLeafSpec | regular/src/btree.rs:113-127 | removing key at of an inner node takes out exactly one occurrence of it, keeps the keys in order and returns true |
| BTree.PredSpec | regular/src/btree.rs:115-118 | replacing key at with its predecessor and removing that from child at takes out exactly key at |
| BTree.SuccSpec | regular/src/btree.rs:119-122 | corrected: replacing key at with its successor and removing that from child at + 1 takes out exactly key at |
| BTree.MergeSpec | regular/src/btree.rs:123-126 | merging the children around key at and removing it from the merged child takes out exactly key at |
| BTree.RemoveNonLeafAsWritten | regular/src/btree.rs:113-127 | as written (successor from child at): the result still has the B-tree shape and the key counts |
| BTree.SampleValid | regular/src/btree.rs:8-15 | the two-level sample tree has the B-tree shape and lists 1, 2, 10, 11, 12, 13 in order |
| BTree.SuccessorCounterexample | regular/src/btree.rs:119-122 | as written, removing 10 from the sample puts 1 in its place, finds no 1 in the right child, returns false and leaves the keys out of order |
| BTree.SuccessorCorrected | regular/src/btree.rs:119-122 | corrected, removing 10 from the sample puts 11 in its place, removes 11 from the right child and returns true |
| BTree.InsertRoot | regular/src/btree.rs:238-240 | inserting into a root that is not full keeps the root invariant (one to 2T - 1 keys, shape, order) and adds exactly one k |
| BTree.GrowSplit | regular/src/btree.rs:231-236 | a full root put under a new empty root and split there gives a root of one key, one level higher, listing the same keys |
| BTree.RemoveRoot | regular/src/btree.rs:250-251 | removing from the root keeps the shape, takes out exactly one occurrence of k, reports whether k was there, and keeps the root invariant when the root keeps a key |
| BTree.Collapse | regular/src/btree.rs:252-258 | a root left without keys lists nothing if it is a leaf, and otherwise has one child, which satisfies the root invariant one level lower and lists the same keys |
| BTree.BTree.constructor | regular/src/btree.rs:203-205 | a new tree holds no key |
| BTree.BTree.Search | regular/src/btree.rs:207-227 | the walk returns true exactly when k is in the tree |
| BTree.BTree.Insert | regular/src/btree.rs:229-247 | the tree stays a B-tree and holds one more occurrence of k; the result is false; the height grows by one exactly when the old root was full |
| BTree.BTree.Grow | regular/src/btree.rs:231-236 | a full root is split under a new root of one key; the keys are unchanged and the height grows by one |
| BTree.BTree.Remove | regular/src/btree.rs:249-263 | the tree stays a B-tree, holds one occurrence of k fewer, and the result is true exactly when k was in it |
| RbTree.SetLink | goofy/rbtree/rbtree.go:3-8 | writing `link[d]` replaces that child only, and keeps the colour, key and the other child |
| RbTree.Down | goofy/rbtree/rbtree.go:14-26 | the frame a walk records on its way down to `link[d]` refills to the node it left |
| RbTree.PlugElems | goofy/rbtree/rbtree.go:14-26 | the whole tree lists the entries left of a subtree, the subtree's, then those right of it |
| RbTree.SameElems | goofy/rbtree/rbtree.go:59-85 | replacing a subtree by one with the same entries keeps the entries of the whole tree, which is why a local rotation keeps the search order |
| RbTree.Rebuild | goofy/rbtree/rbtree.go:32-90 | a red-black subtree whose parents fit it makes a red-black tree |
| RbTree.Unplug | goofy/rbtree/rbtree.go:14-26 | every subtree of a red-black tree is red-black, and the parents above it fit it |
| RbTree.PlugRed | goofy/rbtree/rbtree.go:89 | the root's colour is that of the topmost parent, or of the subtree when there is none |
| RbTree.Step | goofy/rbtree/rbtree.go:17-20 | below a node that does not hold k, k can only be in the child the walk takes, and that child is ordered |
| RbTree.SearchNode | goofy/rbtree/rbtree.go:14-26 | the walk ends on a subtree of the root; it is a node exactly when k is in the tree, and then it holds k |
| RbTree.DescendFits | goofy/rbtree/rbtree.go:98-108 | each step of the insert walk keeps every key left of the walk below k and every key right of it above k |
| RbTree.FitsInsert | goofy/rbtree/rbtree.go:109-118 | an entry put where k fits keeps the keys ordered, and k was not there before |
| RbTree.RestructureSpec | goofy/rbtree/rbtree.go:58-86 | with a black uncle, the one or two rotations keep the entries and give a red-black subtree as high as the grandparent's, black at its top |
| RbTree.Restructure | goofy/rbtree/rbtree.go:58-86 | the one or two rotations of the black-uncle case give a black node listing the same entries as the grandparent's subtree |
| RbTree.FlipSpec | goofy/rbtree/rbtree.go:53-57 | with a red uncle, the colour flip keeps the entries and leaves the grandparent a red subtree of the same black height |
| RbTree.Flip | goofy/rbtree/rbtree.go:53-57 | the colour flip gives a red grandparent listing the same entries as before |
| RbTree.FlipLoose | goofy/rbtree/rbtree.go:53-57 | after a flip, the parents above the grandparent fit it, except that the nearest may be red |
| RbTree.FixInsert | goofy/rbtree/rbtree.go:32-90 | from a red node whose parents fit it but for a red parent, the fix-up gives a red-black tree with a black root and the same entries |
| RbTree.CtxBlack | goofy/rbtree/rbtree.go:129-131 | parents that fit a red node fit a black one of the same height |
| RbTree.SwingSpec | goofy/rbtree/rbtree.go:142-161 | the rotation at a red sibling keeps the entries; the focus stays one black node short, now with a red parent and a black sibling |
| RbTree.Swing | goofy/rbtree/rbtree.go:142-161 | the rotation at a red sibling adds one frame to the path: the focus keeps its side, and its new sibling is the old sibling's child on that side |
| RbTree.SwingElems | goofy/rbtree/rbtree.go:147-153 | the rotation at a red sibling keeps the entries of the whole tree |
| RbTree.RotateSpec | goofy/rbtree/rbtree.go:165-197 | the rotations at a black sibling with a red child keep the entries and make up the missing black node, in the parent's colour |
| RbTree.Rotate | goofy/rbtree/rbtree.go:165-197 | the rotations at a black sibling with a red child give a node in the parent's colour listing the same entries as the parent's subtree |
| RbTree.BlackenSpec | goofy/rbtree/rbtree.go:129-131 | making a red focus black makes up the missing black node: a red-black tree with a black root and the same entries |
| RbTree.ClimbSpec | goofy/rbtree/rbtree.go:163-209 | turning a black sibling with black children red keeps the entries and moves the missing black node up to the parent |
| RbTree.Climb | goofy/rbtree/rbtree.go:163-164 | turning the sibling red gives the parent's subtree in the parent's colour, with the same entries |
| RbTree.RotateStep | goofy/rbtree/rbtree.go:165-198 | the final rotations complete a red-black tree with a black root and the same entries |
| RbTree.FixDelete | goofy/rbtree/rbtree.go:123-211 | from a subtree one black node short of its sibling, the fix-up gives a red-black tree with a black root and the same entries |
| RbTree.PlugAppend | goofy/rbtree/rbtree.go:250-259 | plugging into a longer path plugs into its nearer part first |
| RbTree.CtxAppend | goofy/rbtree/rbtree.go:250-259 | parents fit along a longer path when they fit along each of its parts |
| RbTree.LeftPlug | goofy/rbtree/rbtree.go:251-254 | at the end of a walk of left turns the whole subtree lists the reached node's entries first |
| RbTree.Leftmost | goofy/rbtree/rbtree.go:250-274 | moving the successor into the deleted node's place and colour leaves its right child red-black in parents that fit it, one black node short when the successor was black |
| RbTree.LeftmostElems | goofy/rbtree/rbtree.go:250-274 | after the successor moves, the tree lists the entries of the deleted node's children in place of the deleted node's subtree |
| RbTree.SuccessorEntries | goofy/rbtree/rbtree.go:255-264 | the successor in the deleted node's place holds exactly the entries of the deleted node's children |
| RbTree.Unlink | goofy/rbtree/rbtree.go:218-276 | the found node leaves the tree and nothing else does: its children's entries stay in place; the subtree that moved up is red-black in parents that fit it, one black node short exactly when a black node left the shape |
| RbTree.AddKey | goofy/rbtree/rbtree.go:109-118 | a new entry adds exactly its key to the keys |
| RbTree.DropKey | goofy/rbtree/rbtree.go:228-276 | dropping an entry from ordered entries keeps them ordered and drops exactly its key |
| RbTree.Around | goofy/rbtree/rbtree.go:14-26 | the tree lists the entries before a node, the node's own, then those after it |
| RbTree.Tree.constructor | goofy/rbtree/rbtree.go:10-12 | the zero tree is a valid red-black tree holding no key |
| RbTree.Tree.Search | goofy/rbtree/rbtree.go:28-30 | true exactly when k is in the tree |
| RbTree.Tree.Insert | goofy/rbtree/rbtree.go:92-121 | the tree stays an ordered red-black tree with a black root and holds k; the result is true exactly when k was there, and then nothing changes |
| RbTree.Tree.Delete | goofy/rbtree/rbtree.go:213-285 | the tree stays an ordered red-black tree with a black root and no longer holds k; the result is true exactly when k was there, and otherwise nothing changes |
| RbTree.Inserted | goofy/rbtree/rbtree.go:109-119 | a new red node at a nil link of a red-black tree is the fix-up's input: red-black itself, its parents fitting it but for a red nearest one |
| RbTree.InsertedKeys | goofy/rbtree/rbtree.go:106-120 | a new entry at the nil link the walk ends on keeps the keys ordered and adds exactly k, which was absent |
| RbTree.Removed | goofy/rbtree/rbtree.go:213-276 | taking the found node out keeps the keys ordered and drops exactly its key |
| RbTreeGo2.Unwrap | goofy/rbtree-go2/rbtree.go:12-18 | the value wrapped in a `Some`; `None` is refused |
| RbTreeGo2.ToMapAppend | goofy/rbtree-go2/rbtree.go:38-41 | the bindings of two runs of entries are those of the first updated by those of the second |
| RbTreeGo2.ToMapKeys | goofy/rbtree-go2/rbtree.go:38-41 | the keys bound are exactly the keys of the entries |
| RbTreeGo2.Splice | goofy/rbtree-go2/rbtree.go:150-162 | an entry whose key no later entry has binds its key to its value over the other entries' bindings |
| RbTreeGo2.Bound | goofy/rbtree-go2/rbtree.go:255-327 | in ordered entries an entry's key is bound to its value, and dropping the entry unbinds exactly that key |
| RbTreeGo2.Rebind | goofy/rbtree-go2/rbtree.go:141-145 | a new value for an entry keeps the order and rebinds just that key |
| RbTreeGo2.NoKeys | goofy/rbtree-go2/rbtree_test.go:35 | no key is bound exactly when there are no entries |
| RbTreeGo2.ShapePlug | goofy/rbtree-go2/rbtree.go:141-145 | overwriting a value inside the tree keeps the shape of the whole tree |
| RbTreeGo2.RbShape | goofy/rbtree-go2/rbtree.go:141-145 | the red-black property and the root colour do not depend on the values |
| RbTreeGo2.RBTree.constructor | goofy/rbtree-go2/rbtree.go:38-41 | the zero tree is valid and binds nothing |
| RbTreeGo2.RBTree.Search | goofy/rbtree-go2/rbtree.go:43-66 | `Some(v)` exactly when k is bound, v being its value; `None` otherwise |
| RbTreeGo2.RBTree.Insert | goofy/rbtree-go2/rbtree.go:68-163 | the tree stays an ordered red-black tree with a black root and binds k to the new value; the result is `Some` of the old value exactly when k was bound, and then the shape is unchanged |
| RbTreeGo2.RBTree.Delete | goofy/rbtree-go2/rbtree.go:165-327 | the tree stays an ordered red-black tree with a black root and k is unbound, every other binding kept; the result is `Some` of the old value exactly when k was bound, and otherwise nothing changes |
| RbTreeGo2.Overwrite | goofy/rbtree-go2/rbtree.go:141-145 | a new value in the node found for k keeps the tree valid and its shape, and rebinds k, whose old value was the node's |
| RbTreeGo2.NewBinding | goofy/rbtree-go2/rbtree.go:150-162 | a new entry at the nil link where k fits binds k to v over the old bindings |
| RbTreeGo2.InsertThenDelete | goofy/rbtree-go2/rbtree_test.go:22-36 | inserting any keys and then deleting each of them leaves a valid tree with no root |

## Left out

- Ring: the `ManuallyDrop`/`MaybeUninit` storage and the drop calls are not modelled. `head` and `tail` are unbounded naturals, so `usize` wrap-around is not modelled.
- PseudoRandom: the time-seeded global generator (`get_pseudo_rand`, `random_u64`) is I/O; callers take the generator's outputs as parameters.
- GoSort: elements are unbounded integers; the sorts only compare them, so the `int | uint | string` type parameter is not modelled. A Go slice is a window [lo, hi) of an array.
- GoSort.ShiftForward, GoSort.ShiftForwardStep and GoSort.SiftDown: are stated only for the calls the sorts make: a[j] below its left neighbour (or its neighbour one gap back) with a sorted or gap-sorted prefix, and heaps below i. Other calls are not modelled.
- PdqPartition and Pdqsort: elements are unbounded integers, as in GoSort. A pointer to the pivot or to the predecessor is modelled as its index. The `unsafe.Sizeof` test in `Pdqsort` only skips zero-size element types, which integers are not.
- PdqPartition.PartitionInBlocks: the two offset buffers are fresh arrays of each call, as Go's local arrays are. `lblock` and `rblock` are recomputed in each round; they differ from the block size only in the last round, as in Go.
- Pdqsort.Xorshift: states only that a non-zero seed stays non-zero. The bit operations are modelled exactly, but the generator's invertibility and period are not proved.
- Pdqsort.BreakPatterns: states that the slice is permuted in place and that a slice shorter than 8 is unchanged; which three positions are swapped is not stated. Only the 64-bit branch of `bits.UintSize` is modelled.
- Pdqsort.PivotCandidate: states the bounds of the candidate and of the swap count; that the candidate is a median of medians is stated for sort3 only, by Sort3Median.
- Bfprt.Select: needs 1 <= k <= r - l + 1, because outside it the index arithmetic underflows and the source panics.
- Bfprt.FindMid: states that the result is an index of the range, not that it is a median of medians. As written, the recursion stops when the count of medians equals the index l, which only changes the index returned.
- Bfprt.GroupMedian: states the permutation and the frame, not that the group is left sorted.
- Graphs: the visit callback `f` is modelled by the visit order the search returns. `print` is output and is not modelled.
- Graphs: the searches, `in_degs`, `transpose` and Tarjan need every edge to end at a vertex of the graph (Closed), because the source indexes by an edge's head and panics otherwise.
- Graphs.Bfs: a vertex can be queued twice before it is visited, so the order may repeat vertices, as in the source; it states only which vertices appear.
- StrongConnect.IsSc: needs at least one vertex, because the source searches from vertex 0 and panics on an empty graph.
- Treap: nodes are values and each operation returns the new subtree, so the in-place rewiring of `left`/`right` and any sharing of nodes between callers are not modelled. Keys and priorities are only compared, so Go's `int` is an unbounded integer.
- Treap.Remove: states only that at most one occurrence goes; that exactly one goes needs the search-tree order, which RemoveOne assumes.
- AcTrie: Go strings are byte sequences and `end` and the total are unbounded integers; Go's `int` overflow is not modelled. The slice the methods share with `t.nodes` is a value reassigned to the field, so aliasing between copies of an `ACTrie` is not modelled. The word each node spells and the patterns inserted are ghost state.
- AcTrie.ACTrie.Build: needs a non-nil trie, because the source indexes the root of the node slice and panics on a nil one.
- AcTrie.ACTrie.Match: needs the links that Build establishes, and a non-nil trie unless s is empty, because the source indexes the root otherwise. Match after an Insert that follows Build, which the source allows, is not specified.
- AcTrie.ACTrie.Insert: does not state that existing words and failure links are kept, only that the trie invariant holds and how many nodes are allocated.
- RangeSort and Sorting: `i32` elements are modelled as unbounded integers. They are only compared, so no arithmetic is lost.
- MemFs: file names are byte strings compared bytewise, as Rust compares `str`. The global `Fs` singleton and the `Arc<Mutex>` locking are not modelled; a `FileInner` object shared by several handles stands for the shared contents.
- MemFs.File.Write: needs the tail after the cursor to be empty or exactly as long as buf, because the slice copy panics otherwise.
- MemFs.File.Seek: needs every sum of a position and an offset to fit in an `isize`, because larger sums overflow in the source.
- IoUtil.ReadBufStr: needs well-formed input, because a short slice or bytes that are not UTF-8 make the source panic.
- IoUtil: the exact text of the UTF-8 error message is not modelled.
- Lsm: keys and values are UTF-8 byte strings, compared bytewise. The global file system is passed as an `FsImpl` object. Block and metadata file names come from a decimal rendering of the id, with "/lsm/" before it and ".blk" after it.
- Lsm.LsmTree.InsertKv: when c0 is full and compaction succeeds, it states that c0 holds only the new binding and the result is false, but it does not restate the disk contents. CompactFull states those.
- Lsm.DiskComponent.Search: needs the slot to name a registered block. As written, compaction can leave the block list shorter than the index list implies (Lsm.KeptSlotPastEnd, under Findings), and the source would index out of range there.
- LsmFixed.SearchAfterCompaction: the corrected search is proved for a compaction into an empty disk component only. For a non-empty one, the corrected merge is proved to lose nothing (LsmFixed.StreamFullKeeps), but the search over kept and new blocks together is not proved.
- LsmFixed.CompactionFixed: the corrected compaction is a function over the file contents only; the builder class runs the compaction as written.
- Lsm.Builder.WriteFillBlock: block files are written through `create(name, true)` followed by one write, which cannot fail on the in-memory file system, so every write result is Ok.
- ClassicPaxos: the gRPC transport, `tokio` tasks, channels, the three-try retry loops and the mutex are not modelled. Each tally reads a given sequence of replies, and a retry that gave up stands as an `ok: false` reply.
- ClassicPaxos: file I/O is a map from the three record names to bytes, and each store reports success or failure through a boolean input. Directory creation is not modelled.
- ClassicPaxos.Proposer.NextBallotNum: needs round * 1000 + id to fit in a u64, because the source overflows there.
- ClassicPaxos: the cross-replica safety of consensus is stated only for the corrected round over a fixed set of acceptor states (RoundDecides, RoundKeepsUnanimousValue). General safety under interleavings is not modelled.
- CasPaxos: the HTTP layer (`invoke`, JSON, `main`), the goroutines and channels, the mutexes and `apply`'s logging are not modelled. Each tally reads the n replies as a given sequence, and a failed request stands as an `OK: false` reply.
- CasPaxos: Go's `int` is modelled as a 64-bit signed integer. Only the round counter's increment wraps explicitly; `round * 100 + id` is modelled with the same wrap.
- GoSkiplist: a node is identified by its key, which the list keeps distinct, so each lane is the sequence of keys along the header's link and a link is a position in it. The shared `null` node is the end of every lane; a lane whose last link is nil is recorded in `nilEnds`.
- GoSkiplist: `rand.Intn` is randomness, so SlRand reads the draws as a parameter and Insert takes the level drawn.
- GoSkiplist.List.Search, Insert, Remove and Range: need a list set up by `Init` (Valid), because on a zero-value list, or after the as-written Remove(0), a walk reaches a nil link and the source dereferences nil.
- GoSkiplist.List.Init: on a list that already holds keys it empties the lanes but leaves the count and the level stale, as the source does; only the zero value is proved to become valid.
- DaTrie: `dump` only prints the arrays and is not modelled. `isize`/`usize` arithmetic is unbounded, so overflow on huge key sets is not modelled.
- DaTrie: the `f64` growth factor and the 0.95 density test of `insert` are modelled as exact rational arithmetic with a floor (Grow and FindBegin); `1.05` is taken as exactly 105/100, which can differ from the nearest double by one slot on very large sizes.
- DaTrie.Build: needs the keys in bytewise order, because `fetch` asserts that the codes of the siblings do not decrease and panics otherwise. No keys is a panic in the source (`siblings[0]`), modelled as None.
- DaTrie.Builder: the methods need the builder invariant (Valid), which the constructor establishes and every method keeps. The node each block belongs to (`nodeAt`) and the blocks completed (`done`) are ghost state.
- DaTrie.Builder.Search, FindBegin and Insert: use the corrected growth (under Findings); the source's growth is modelled by SearchAsWritten, and only its first search on a fresh builder is characterised.
- Skiplist: keys are unbounded integers, which `Ord` only compares; a node is identified by its key, which the list keeps distinct, so each lane is the ascending sequence of keys along `head[k]` and `next[k]`, a link is a position in it and a node pointer is the key it holds. The const parameter L is the height, between 1 and 63, as `rand_level` asserts.
- Skiplist: the raw pointers, `Box` allocation and freeing, and the two `Drop` implementations are not modelled, so a use after free is shown only as lanes that are not a skip list or as a drained key that stays linked.
- Skiplist: `rand::random_u64` is randomness, so `rand_level` reads the draw as a parameter (RandLevel) and Insert takes it.
- Skiplist: `insert_cow` differs from `insert` only in taking the key as a `Cow`, and `range_mut` from `range` only in yielding mutable references; both are modelled by Insert and Range. `get_mut` is modelled with one write through the returned reference (GetMut).
- Skiplist: the `Range`, `RangeMut` and `Drain` iterators are modelled as run to the end, returning every entry they would yield; an iterator dropped early is not modelled.
- Skiplist.Skiplist.DrainRangeAsWritten: states the entries, lanes, values and level it leaves, not that they form a skip list, because they need not (under Findings).
- BTree: nodes are values and each operation returns the new node, so the in-place updates through `Box<Node>` are modelled as rebuilt nodes; no node is shared, as `Box` owns it uniquely. Keys are `i32` values that are only compared, so they are unbounded integers. The height of the tree is ghost state.
- BTree.RemoveFrom, BTree.RemoveNonLeaf and BTree.BTree.Remove: use the corrected successor (under Findings); the source's successor case is modelled by RemoveNonLeafAsWritten and shown on a sample tree only.
- BTree.Merge, BTree.BorrowPrev and BTree.BorrowNext: state only the key and child counts; what they keep is stated by MergeShape, MergeFlat, BorrowPrevShape, BorrowPrevFlat, BorrowNextShape, BorrowNextFlat and FillKeeps.
- BTree.RemoveNonLeafAsWritten: states the shape and key counts only, because the keys need not stay in order (under Findings).
- RbTree and RbTreeGo2: nodes are values, and the `parent` pointers are modelled by the path of frames a walk records, nearest parent first. Each operation returns the rebuilt tree, so aliasing between nodes and the agreement of `parent` with `link` are not modelled; the rotations are stated on the subtrees they rewrite.
- RbTree and RbTreeGo2: the black height of the root is ghost state.
- RbTree: `debug.go` only prints the tree and is not modelled.
- RbTree.Tree: the tree holds keys only, so a node has the value `()`.
- RbTree.Swing: its own contract states only the new frame's side and sibling; that the entries are kept is SwingElems, and the colours SwingSpec.
- RbTreeGo2: the comparison function `Cmp` is the usual order of integer keys; the generic key type and a `Cmp` that is not a total order are not modelled.
- RbTreeGo2.Optional: `None` carries no value; Go's zero value inside it is not modelled.
- RbTreeGo2.Unwrap: needs `Some`, because the source panics on `None`.
- RbTreeGo2.InsertThenDelete: the random keys of the test are a parameter, and the logging is not modelled.

## Findings

| source | as written | input that shows it | evidently intended | confidence | as-written member | corrected member |
|---|---|---|---|---|---|---|
| switch/paxos/src/classic.rs:250-252 | when a promise carries an earlier acceptance, the proposer adopts that acceptance's ballot as well as its value and sends the accept request under the old ballot; every acceptor that promised the new ballot refuses it, and the accept loop waits forever | three acceptors that all accepted (1001, "x"), and a proposer preparing ballot 2001 | adopt the value only and send it under the prepared ballot 2001, which every acceptor then accepts | high; not executed | ClassicPaxos.RoundAsWritten, shown by ClassicPaxos.AdoptedBallotIsRefused | ClassicPaxos.Round, with ClassicPaxos.RoundDecides and ClassicPaxos.RoundKeepsUnanimousValue |
| switch/caspaxos/main.go:149-153 | prepare returns the highest accepted ballot in place of the prepared one, and caspaxos sends the accept request under it; acceptors that promised the new ballot refuse, so every write after the first fails | three acceptors holding (ballot 101, value 5, state 0) and a write of 7 at state 0 under ballot 201 | send the new value under the prepared ballot 201 | high; not executed | CasPaxos.WriteAsWritten, shown by CasPaxos.AdoptedBallotIsRefused | CasPaxos.Write, with CasPaxos.WriteOnAgreedCluster |
| goofy/sort/pdqsort.go:181 | partitionEqual leaves its loop when l != r, that is when the two scans stopped at a misplaced pair, and loops when they met; then it swaps the element before the meeting point with the one at it, or indexes outside the slice | pivot 5 and the slice [5, 7, 3]: it returns 1 and leaves 3 after 7; [5, 5, 7]: it returns 3 with 7 among the equal elements; [5, 7]: it panics | leave the loop when the scans meet (l >= r) and otherwise swap the misplaced pair and go on, so that the first mid elements are at most the pivot and the rest above it | high; not executed | Pdqsort.PartitionEqualAsWritten, shown by Pdqsort.AsWrittenLeavesSmallerBehind, Pdqsort.AsWrittenPullsLargerIn and Pdqsort.AsWrittenPanics | Pdqsort.PartitionEqual, used by Pdqsort.EqualRound and Pdqsort.Recurse |
| regular/src/lsm.rs:82-87 | `write_fill_block` writes each new block file but never calls `add_block`, so compaction registers no new block; the component then lists only the kept blocks, and into an empty component it lists none | a c0 of four bindings, among them "a" -> "0", compacted into an empty disk component: `search("a")` answers None | register each block written under its id and first key, so that `search` finds every binding c0 held | high; not executed | Lsm.CompactionLosesBindings | LsmFixed.CompactionFixed, with LsmFixed.SearchAfterCompaction |
| regular/src/lsm.rs:175-192 | the walk over a block runs only while c0 has a pending item; once c0 runs out inside a block, the rest of that block is not written, and the blocks after it are walked with nothing to copy | a block holding "b" -> "1" and a c0 holding only "a" -> "0": the new stream holds "a" -> "0" and loses "b" | copy the rest of each block once c0 runs out | high; not executed | Lsm.MergeDropsTail | LsmFixed.MergeKeepsTail and LsmFixed.StreamFullKeeps |
| regular/src/lsm.rs:164-170 | the loop pairs kept block i with index i, but index i is the first key of block i + 1 (lines 119-121); the kept list gets one index per block instead of one per block after the first, so the slot `search` computes can be one past the last block | a component of two blocks with one index, and a c0 whose first key is not below that index: one block is kept with one index, and a key not below it picks slot 1 of a one-block list | keep one index per kept block after the first, so that every slot names a block | high; not executed | Lsm.KeptSlotPastEnd | LsmFixed.FixedIndexes within LsmFixed.CompactionFixed, with LsmFixed.SearchAfterCompaction |
| goofy/skiplist/skiplist.go:84 | `Remove` rejects a key only when the node Search returns holds another key; for key 0 Search returns the `null` sentinel, whose key is 0, so Remove(0) goes on: it sets the last link of every lane to `null`'s nil link, decrements the count and returns true | Init, Insert(5), then Remove(0): true, count 0 with 5 still linked, and the next walk past 5 dereferences nil | reject key 0 as absent (q is the sentinel), returning false and changing nothing | high; not executed | GoSkiplist.List.RemoveAsWritten, shown by GoSkiplist.RemoveZeroAsWritten | GoSkiplist.List.Remove, shown by GoSkiplist.RemoveZero |
| regular/src/datrie.rs:126-129 | when the last sibling's slot is not below the allocated size, `insert` grows the arrays by a factor (1.05, or keys over progress) that need not reach that slot; the check of the slots at line 135 then indexes past the end of `check` | `build` of the keys "0" and "z": the search starts at position 50 and grows the arrays to 51; begin is 1 and the last slot is 1 + 123 = 124, but the growth gives 102, so `check[124]` panics | grow to at least one past the last slot, as the first resize does for pos | high; not executed | DaTrie.Builder.SearchAsWritten, shown by DaTrie.ZeroZedAsWritten | DaTrie.Builder.Search, DaTrie.Builder.FindBegin and DaTrie.Build, shown by DaTrie.ZeroZed |
| regular/src/skiplist.rs:53-57 | `link_node` lowers a drawn level above the current one to one above it and writes `preds[new_level]`; when the level is already the top lane L - 1, that index is L, past the end of `preds`, a panic; with L = 1 the first insert panics for every even draw, as `rand_level` gives 64 for a zero remainder | L = 1, `insert` into the new list with an even draw | keep the new node on the top lane when the level is already there | high; not executed | Skiplist.Skiplist.InsertAsWritten, shown by Skiplist.OneLanePanics | Skiplist.Skiplist.Insert, with Skiplist.LinkShape |
| regular/src/skiplist.rs:99-103 | `drain` takes only `head[0]`; the higher head links still lead to the nodes the `Drain` iterator frees, and a later insert that reaches lane 1 links its node to a freed one | L = 2: insert 1 with the draw 2 (it goes on lane 1), `drain`, insert 5 with the draw 2: the node 5 links on lane 1 to the freed node 1 | take every head link | high; not executed | Skiplist.Skiplist.DrainAsWritten, shown by Skiplist.DrainLeavesLanes | Skiplist.Skiplist.Drain |
| regular/src/skiplist.rs:251-255 | a bound whose search passes no node and finds no node holding the key leads to None: a start below every key makes the iteration empty, and an end below every key makes it run to the end of the list | on [1, 2, 3], `range(0..)` yields nothing and `range(..0)` yields every entry | step from `head[0]` when no node was passed, so the start is the first node and the end the first node too | high; not executed | Skiplist.Skiplist.RangeAsWritten, shown by Skiplist.RangeAsWrittenMisses | Skiplist.Skiplist.Range, with Skiplist.SpanKeys |
| regular/src/skiplist.rs:448-449 | `check_range` passes two equal bounds, also two equal exclusive ones, which cover no key; `range` then starts after the key and stops at it, so it never meets the end and runs to the end of the list | on [1, 2, 3], the bounds (excluded 2, excluded 2) yield 3 | refuse a pair of equal exclusive bounds | high; not executed | Skiplist.Skiplist.RangeAsWritten, shown by Skiplist.RangeEqualExcluded | Skiplist.Skiplist.Range, with Skiplist.CheckRangeFixed and Skiplist.SpanKeys |
| regular/src/skiplist.rs:312-359 | `drain_range` relinks from the start predecessor to the node after the end predecessor, but yields from a start node chosen otherwise: an unbounded start yields nothing (line 327) though the keys before the end are unlinked; a start past every key with an unbounded end drains the whole list; when both predecessors are the same node the lanes do not change but the node after it is yielded and freed; equal exclusive bounds unlink keys they do not yield | on [1, 2, 3]: (unbounded, excluded 2) yields nothing and unlinks 1; (included 5, unbounded) drains 1, 2 and 3; (excluded 2, excluded 2) yields 3 and unlinks 2 and 3; on [1, 6], (included 4, excluded 5) yields 6 and leaves it linked | yield and unlink exactly the keys the bounds cover, and leave a skip list | high; not executed | Skiplist.Skiplist.DrainRangeAsWritten, shown by Skiplist.DrainRangeDropsFirst, Skiplist.DrainRangeTakesAll, Skiplist.DrainRangeDropsBound and Skiplist.DrainRangeKeepsDrained | Skiplist.Skiplist.DrainRange, with Skiplist.ExcisedShape and Skiplist.SpanKeys |
| regular/src/btree.rs:94-100 | `successor` walks down from child at, the child left of key at, so it returns the least key under that child; `remove_non_leaf` (lines 119-122) puts that key in place of key at and removes it from child at + 1, which does not hold it | the tree with root [10] over the leaves [1, 2] and [11, 12, 13]: removing 10 gives root [1], returns false and lists 1, 2, 1, 11, 12, 13 | walk down from child at + 1, so that the least key above key at takes its place and is removed from that child | high; not executed | BTree.RemoveNonLeafAsWritten with BTree.SuccessorAsWritten, shown by BTree.SuccessorCounterexample | BTree.RemoveNonLeaf with BTree.Successor, shown by BTree.SuccessorCorrected and BTree.RemoveNonLeafSpec |
