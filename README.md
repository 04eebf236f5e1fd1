# goit-algo-fp algorithms in Dafny

This project models five of the seven scripts in the goit-algo-fp repository, one Dafny module per script. Each module's properties are proved.

| module | file | script | what it covers |
|---|---|---|---|
| `LinkedLists` | `linkedlists.dfy` | `task_1.py` | A singly linked list object that appends at the tail and lists its values. In-place reversal, insertion sort and the merge of two sorted chains, each done by relinking the existing `next` fields. |
| `Dijkstra` | `dijkstra.dfy` | `task_3.py` | Single-source shortest paths over an adjacency map: a distance table, a visited set and a priority queue with lazy deletion, where stale entries are skipped when popped. Also the five-vertex sample graph and the two runs made on it. |
| `BinaryHeap` | `binaryheap.dfy` | `task_4.py` | Building an array min-heap in place with `sift_down` and `heapify_min`. Then linking tree nodes over the heapified copy: node i's children are nodes 2i+1 and 2i+2. |
| `Traversals` | `traversals.dfy` | `task_5.py` | Stack-based depth-first and deque-based breadth-first traversal of a binary tree of `BinaryHeap.Node` objects. Resetting every node's colour. The hex colour gradient: parsing, interpolation and formatting. |
| `Knapsack` | `knapsack.dfy` | `task_6.py` | Choosing dishes within a budget: a greedy pass in calorie-per-cost order, and the 0/1-knapsack table with backtracking. |

## How the model is built

**Linked structures.** Node objects are described by ghost sequences or ghost trees:
- `IsList(head, ns)`: `head` starts the chain `ns`, each node links to the next one, the last node links to null, and no node repeats.
- `Shape(t)`: the `left`/`right` fields of every node follow the tree value `t`.
- `HeapShaped(ns)`: the node at index i has index 2i+1 as its left child and 2i+2 as its right child.

**Proving the methods.** Each method is proved against a specification function on those values:
- linked lists: `Reverse`, `SortNodes`, `MergeNodes`;
- traversals: `Preorder`, `LevelOrder`;
- knapsack: `Run`, `Opt`, `Backtrack`, `Ratioed`;
- gradient: `Gradient`;
- shortest paths: `ShortestDistances`.

Separate lemmas then prove what those functions mean:
- the result is sorted and a permutation of the input;
- the merge is stable;
- a distance is the minimum path weight;
- the table entry is the best total within a budget, and the greedy total is never better.

**Python errors.** A Python exception on a reachable path becomes a `Failure` result, not a precondition:

| exception | where |
|---|---|
| `KeyError` | a start vertex that is not in the graph |
| `ZeroDivisionError` | a zero cost in the greedy pass |
| `IndexError` | a negative budget or a negative cost in the knapsack table |
| `ValueError` | a malformed hex colour |

**Sample data.** The sample graph is checked against its expected distance tables as proved lemmas.

## Model

| member | source | states |
|---|---|---|
| `LinkedLists.Node.constructor` | task_1.py:6-8 | A new node holds the given value and has no successor. |
| `LinkedLists.LinkedList.constructor` | task_1.py:13-14 | A new list is empty and well formed. |
| `LinkedLists.LinkedList.Append` | task_1.py:16-25 | The contents become the old contents followed by the value. The old nodes stay in place and one fresh node is added at the tail. |
| `LinkedLists.LinkedList.Display` | task_1.py:27-34 | Returns the node values from head to tail. The result is empty exactly when the head is null. |
| `LinkedLists.Reverse` | task_1.py:37-56 | Position i of the result holds position n-1-i of the input. |
| `LinkedLists.ReverseReverse` | task_1.py:37-56 | Reversing twice gives the original sequence. |
| `LinkedLists.ReverseMultiset` | task_1.py:47-56 | Reversal keeps the multiset of elements. |
| `LinkedLists.ValuesReverse` | task_1.py:37-56 | The values of the reversed node sequence are the reversed values. |
| `LinkedLists.ReverseList` | task_1.py:37-56 | The returned chain consists of exactly the input's nodes in reverse order, so no node is created or lost. Its values are the input values reversed. An empty input gives null. |
| `LinkedLists.InsertPos` | task_1.py:81-82 | The inner search stops at the first node whose value is not smaller than the inserted one. Every earlier node holds a strictly smaller value. |
| `LinkedLists.InsertNodeSorted` | task_1.py:81-86 | Inserting a node into a sorted chain at that position keeps it sorted. |
| `LinkedLists.InsertNodeMultiset` | task_1.py:85-86 | Insertion adds exactly the inserted node (and its value) to the multiset. |
| `LinkedLists.SortNodesSorted` | task_1.py:76-90 | The insertion-sort order is non-decreasing. |
| `LinkedLists.SortNodesPermutes` | task_1.py:76-90 | The insertion-sort order is a permutation of the input's nodes and of their values. |
| `LinkedLists.SortShortList` | task_1.py:69-70 | A chain of zero or one nodes is already in insertion-sort order. |
| `LinkedLists.InsertionSort` | task_1.py:59-90 | The returned chain is the insertion-sort order of the input nodes, relinked in place. Chains of length 0 or 1 come back with the same head and no field changed. |
| `LinkedLists.InsertNext` | task_1.py:77-88 | One pass of the outer loop inserts the next unsorted node into the sorted chain behind the dummy. The chain becomes the insertion-sort order of one more input node, and the rest of the input is still linked as it was. |
| `LinkedLists.FindSlot` | task_1.py:80-82 | The inner walk stops at the first position whose value is not smaller than the node's (the strict `<`). It returns the node just before that position, or the dummy when the position is the front. |
| `LinkedLists.Splice` | task_1.py:85-86 | Linking the node after `prev` and pointing it at `prev`'s old successor gives exactly the sorted chain with the node inserted at its position. |
| `LinkedLists.MergeNodesMultiset` | task_1.py:109-122 | The merge takes every node of both inputs exactly once, so its length is the sum of the lengths. |
| `LinkedLists.MergeValuesMultiset` | task_1.py:109-122 | The merged values are the multiset union of both inputs' values. |
| `LinkedLists.MergeNodesSorted` | task_1.py:93-124 | Merging two non-decreasing chains gives a non-decreasing chain. |
| `LinkedLists.MergeNodesTies` | task_1.py:110-115 | A node of the second list comes before a node of the first only when its value is strictly smaller, so ties go to the first list. |
| `LinkedLists.MergeKeepsFirst` | task_1.py:109-122 | The first list's nodes appear in the merge in their original order. |
| `LinkedLists.MergeKeepsSecond` | task_1.py:109-122 | The second list's nodes appear in the merge in their original order. |
| `LinkedLists.MergeSortedLists` | task_1.py:93-124 | The returned chain is the merge order of the two input chains, built by relinking their nodes. |
| `LinkedLists.MergeStep` | task_1.py:109-116 | One pass of the loop takes `list1`'s head when it is not larger, otherwise `list2`'s, and advances exactly one input by one node, keeping the merge state. |
| `LinkedLists.TakeNode` | task_1.py:110-115 | Linking one input's head behind the current node extends the taken prefix of the merge by that node; its `next` still points to the rest of its input. |
| `LinkedLists.LinkRest` | task_1.py:119-122 | Linking the non-exhausted input behind the current node completes the merge order. |
| `LinkedLists.Attach` | task_1.py:111-122 | Each `current.next = …` of the merge (lines 111, 114, 120 and 122) makes `node` the successor of the chain's last node and extends the chain behind the dummy by `node`. |
| `BinaryHeap.Node.constructor` | task_4.py:9-14 | A new tree node holds the key and the colour and has no children. |
| `BinaryHeap.HeapRootMin` | task_4.py:123-135 | In a min-heap, slot 0 holds the smallest element. |
| `BinaryHeap.SubtreeMin` | task_4.py:106-117 | In a heap-ordered subtree, the root is no larger than any slot below it. |
| `BinaryHeap.SwapStep` | task_4.py:107-120 | Swapping a slot with its smaller child keeps the sift-down invariant, now at the child's slot. |
| `BinaryHeap.SwapMultiset` | task_4.py:119 | A swap keeps the multiset of elements. |
| `BinaryHeap.SiftDown` | task_4.py:93-120 | Keeps the multiset. Changes no slot outside the subtree of `index` and no slot at or beyond `size`. If both child subtrees were heaps within `size`, the subtree at `index` becomes one. |
| `BinaryHeap.Smallest` | task_4.py:107-114 | Picks the slot among `index` and its children inside `size` that holds the least value, keeping `index` on ties; when it stays `index`, no child inside `size` is smaller. |
| `BinaryHeap.SwapDown` | task_4.py:119-120 | Swapping with the smaller child moves the sift-down state to that child's slot. |
| `BinaryHeap.LeavesInOrder` | task_4.py:134 | Every slot from `size/2` onward has no child inside `size`, so the loop can start at `size/2 - 1`. |
| `BinaryHeap.HeapifyStep` | task_4.py:134-135 | After sifting slot `index`, every slot from `index` onward satisfies the heap order. |
| `BinaryHeap.ShortUnchanged` | task_4.py:132-135 | A sequence of length at most 1 is determined by its multiset. |
| `BinaryHeap.HeapifyMin` | task_4.py:123-135 | The array becomes a min-heap with the same multiset of elements. Arrays of length 0 or 1 are unchanged. |
| `BinaryHeap.MakeNodes` | task_4.py:164 | One fresh, childless, default-coloured node per slot, holding that slot's value. |
| `BinaryHeap.LinkChildren` | task_4.py:167-174 | Node i gets node 2i+1 as its left child exactly when 2i+1 is in range, and likewise node 2i+2 as its right child. Colours are kept. |
| `BinaryHeap.HeapToTree` | task_4.py:156-177 | Returns null for an empty input. Otherwise it returns the root of distinct, fresh, heap-linked nodes whose values form a min-heap with the input's multiset. The input array is never modified. |
| `Traversals.HeapTree` | task_4.py:167-174 | The tree hanging from a slot has the node at that slot as its root, or is empty past the end. |
| `Traversals.HeapTreeNodes` | task_4.py:164-174 | Every node of that tree is one of the listed nodes. |
| `Traversals.HeapTreeShape` | task_4.py:167-174 | Over heap-linked nodes, the child links of every node of that tree are exactly its edges. |
| `Traversals.HeapIsTree` | task_4.py:167-177 | Heap-linked nodes form a tree whose root is the node at slot 0, the root `HeapToTree` returns, and whose nodes are all listed nodes. So its output meets the traversals' precondition. |
| `Traversals.PreorderCovers` | task_5.py:78-92 | Its length is the tree size, and its nodes are exactly the tree's nodes. |
| `Traversals.StackPush` | task_5.py:87-90 | Pushing a subtree puts its whole preorder ahead of what was already on the stack. |
| `Traversals.PopTop` | task_5.py:82 | Popping the top subtree yields its preorder first. |
| `Traversals.DfsStep` | task_5.py:81-90 | One pop-visit-push round emits the node, then its left subtree, then its right subtree. |
| `Traversals.DfsTraversal` | task_5.py:61-92 | The visited list is the preorder of the tree, and empty for a null root. |
| `Traversals.PushChildren` | task_5.py:87-90 | Pushes the right child, then the left one, each only when present. |
| `Traversals.PushChild` | task_5.py:214-217 | Pushes a child exactly when it is present, adding its whole subtree to the pending nodes. |
| `Traversals.BfsStep` | task_5.py:115-123 | One pop-visit-enqueue round emits the front node and enqueues its children, left first. |
| `Traversals.BfsRound` | task_5.py:115-123 | Draining one whole level of the queue emits that level and enqueues the next one. |
| `Traversals.BfsForest` | task_5.py:115-123 | The queue's order is the forest's nodes level by level. |
| `Traversals.BfsIsLevelOrder` | task_5.py:112-125 | Starting from the root alone, the queue emits the level order. |
| `Traversals.BfsNodes` | task_5.py:112-125 | The queue emits each node of the pending trees exactly once. |
| `Traversals.LevelOrderNodes` | task_5.py:95-125 | The level order is a permutation of the preorder, of length equal to the tree size. |
| `Traversals.BfsTraversal` | task_5.py:95-125 | The visited list is the level order of the tree, left child before right, and empty for a null root. |
| `Traversals.EnqueueChildren` | task_5.py:120-123 | Enqueues the left child, then the right one, each only when present. |
| `Traversals.ResetNodeColors` | task_5.py:195-217 | Every node of the tree gets the default colour. The child links are unchanged, and values are constant. |
| `Traversals.ResetNodeColorsToDefault` | task_5.py:195 | Called without a colour, it gives every node of the tree the default node colour `skyblue`. The child links are unchanged. |
| `Traversals.ResetStep` | task_5.py:210-217 | One round colours the popped node and pushes its right and then its left child: every node is either coloured or still pending, and the pending size drops. |
| `Traversals.Paint` | task_5.py:212 | Colouring the popped node takes it off the set of nodes still to colour. |
| `Traversals.AllAllocated` | task_5.py:206-217 | Every node of the tree exists in the heap. |
| `Traversals.DigitValue` | task_5.py:38-44 | A hex digit's value is in 0..15. |
| `Traversals.HexDigit` | task_5.py:55 | The `:X` digit of a value in 0..15 is an uppercase hex digit that parses back to that value. |
| `Traversals.DigitUpper` | task_5.py:38-55 | Parsing a digit and formatting it again gives the digit in upper case. |
| `Traversals.ParseHex` | task_5.py:38-44 | `int(seg, 16)` succeeds exactly when the segment is non-empty and all hex digits. |
| `Traversals.Hex2` | task_5.py:55 | `:02X` of a byte is exactly two uppercase hex digits. |
| `Traversals.Hex2RoundTrip` | task_5.py:38-55 | Formatting a byte with `:02X` and parsing it back gives the byte. |
| `Traversals.ParseFormat` | task_5.py:38-55 | Parsing two hex digits gives a byte, and formatting it again gives the two digits in upper case. |
| `Traversals.StripHashes` | task_5.py:35-36 | `lstrip("#")` drops exactly the leading `#` characters and keeps the rest as a suffix. |
| `Traversals.ShortHexIsByte` | task_5.py:38-44 | A successfully parsed segment of at most two digits is a byte. |
| `Traversals.ParseRgb` | task_5.py:35-44 | Every successfully parsed colour has three channels in 0..255. |
| `Traversals.ParseChannels` | task_5.py:38-44 | Three parsed two-digit slices give channels in 0..255. |
| `Traversals.ParseRgbFormat` | task_5.py:35-55 | For six hex digits after the hashes, parsing and formatting returns `#` followed by those digits in upper case. |
| `Traversals.Lerp` | task_5.py:49-53 | The interpolated channel lies between the two end values. It is the start value at step 0 and the end value at the last step. |
| `Traversals.LerpBetween` | task_5.py:49-53 | The floored interpolation stays between its ends and reaches the end exactly at the last step. |
| `Traversals.Format` | task_5.py:55 | A colour is formatted as seven characters starting with `#`. |
| `Traversals.FormatDigits` | task_5.py:55 | The six characters after `#` are uppercase hex digits. |
| `Traversals.StepColors` | task_5.py:47-55 | The colour function of the loop gives, at each step, the colour interpolated at that step. |
| `Traversals.TabulateNext` | task_5.py:47-56 | Appending the next step's colour extends the list by one step. |
| `Traversals.TabulateIndex` | task_5.py:47-58 | The list of n steps has n entries, and entry i is step i's colour. |
| `Traversals.BuildColors` | task_5.py:46-56 | The loop's list is the colour of every step in order. |
| `Traversals.GenerateColorGradient` | task_5.py:9-58 | Gives `[]` for no nodes, a failure for an unparsable colour, and otherwise the gradient, step by step. |
| `Traversals.GenerateDefaultGradient` | task_5.py:9-13 | Called with the node count only, it uses `#0036A0` and `#AADDFF`. It never fails and gives one colour per node (none for a count of at most 0). The first colour is `#0036A0` and, with two or more nodes, the last is `#AADDFF`. |
| `Traversals.DefaultGradient` | task_5.py:9-13 | The gradient between the two default colours succeeds for every node count, has that many entries, and starts and ends with the default strings themselves. |
| `Traversals.DefaultsParse` | task_5.py:11-12 | Both default colours parse, and they format back to the same strings. |
| `Traversals.UpperRoundTrip` | task_5.py:35-55 | A `#` followed by six uppercase hex digits parses, and formatting the channels gives back the same string. |
| `Traversals.GradientLength` | task_5.py:31-32 | Gives `[]` when the node count is at most 0. Otherwise it succeeds exactly when both colours parse, and the list has exactly as many entries as nodes. |
| `Traversals.GradientEnds` | task_5.py:47-55 | The first colour is the formatted start colour. With two or more nodes, the last colour is the formatted end colour. |
| `Traversals.GradientWellFormed` | task_5.py:55 | Every colour is `#` followed by six uppercase hex digits. |
| `Knapsack.TotalsConcat` | task_6.py:59-60 | Cost and calorie totals add up over concatenation. |
| `Knapsack.TotalsRemove` | task_6.py:59-60 | Removing one entry lowers the totals by exactly its cost and calories. |
| `Knapsack.WithRatio` | task_6.py:37-43 | The ratio entry keeps the dish's data, and its ratio times the cost is the calories. |
| `Knapsack.RatioedDetails` | task_6.py:36-43 | Dropping the ratios from the ratio list gives back the menu. |
| `Knapsack.RatioList` | task_6.py:35-43 | Builds the ratio list exactly when no cost is zero; a zero cost fails, as the division would. |
| `Knapsack.SortByRatio` | task_6.py:46 | Sorts in place into non-increasing ratio order, as a permutation. |
| `Knapsack.InsertEntry` | task_6.py:46 | Inserting entry i into the sorted prefix sorts the prefix of length i+1, keeps the multiset and leaves the later entries in place. |
| `Knapsack.InsertStep` | task_6.py:46 | One insertion swap keeps the sorted prefix and the multiset. |
| `Knapsack.Inserted` | task_6.py:46 | When the inserted entry stops, the prefix is sorted. |
| `Knapsack.SelectWithinBudget` | task_6.py:49-62 | The loop selects exactly the entries the greedy rule takes, in order. |
| `Knapsack.RunWithinBudget` | task_6.py:53-60 | The running total is the cost of the selection, and a non-empty selection stays within the budget. |
| `Knapsack.RunFromList` | task_6.py:53-58 | Every selected entry is a dish from the list, with the same cost and calories. |
| `Knapsack.DetailsPermutation` | task_6.py:46 | Reordering the ratio list reorders its dishes the same way. |
| `Knapsack.RunGrows` | task_6.py:59 | With non-negative costs, the running total never decreases. |
| `Knapsack.GreedyMaximal` | task_6.py:53-54 | With non-negative costs, a skipped dish does not fit next to the final selection. |
| `Knapsack.TakenStep` | task_6.py:53-60 | A dish is taken exactly when the total plus its cost is within the budget when it is examined. Taking it adds its cost; skipping it changes nothing. |
| `Knapsack.GreedyAlgorithm` | task_6.py:23-62 | Fails exactly when some cost is zero. Otherwise it returns the greedy selection over a non-increasing ratio order of the menu, which is within budget whenever it is non-empty and is drawn from the menu unchanged. |
| `Knapsack.FillTable` | task_6.py:81-93 | Builds the table exactly when no cost is negative; a negative cost indexes past the row. Row 0 is all zeros, and every entry follows the recurrence. |
| `Knapsack.FillRow` | task_6.py:84-93 | Fills row i from row i-1 by the recurrence, fails exactly when the dish's cost is negative, and leaves earlier rows alone. |
| `Knapsack.Backtracking` | task_6.py:96-108 | The backward pass returns the table's own selection. Costs are non-negative, so the budget never drops below zero and the `break` is never taken. |
| `Knapsack.DynamicProgramming` | task_6.py:65-110 | Fails exactly when there are dishes and the budget or some cost is negative. Otherwise it returns a selection drawn from the menu, within budget when there are dishes, whose calories equal the table's last entry. |
| `Knapsack.BacktrackWithinBudget` | task_6.py:96-108 | The backtracked selection costs at most the budget. |
| `Knapsack.BacktrackCalories` | task_6.py:96-108 | The backtracked selection's calories equal the table entry it starts from. |
| `Knapsack.BacktrackFromMenu` | task_6.py:99-105 | The backtracked selection is a sub-multiset of the first i dishes. |
| `Knapsack.CostNonNegative` | task_6.py:86 | Dishes with non-negative costs have a non-negative total cost. |
| `Knapsack.OptUpper` | task_6.py:89-93 | No choice from the first i dishes costing at most w has more calories than `dp[i][w]`. |
| `Knapsack.TakeDish` | task_6.py:89-93 | A choice that includes dish i-1 is that dish plus a choice from the earlier dishes within the budget left after paying for it. |
| `Knapsack.RemoveOne` | task_6.py:89-93 | Dropping one entry removes exactly one copy from the multiset. |
| `Knapsack.DynamicProgrammingOptimal` | task_6.py:65-74 | The table's selection has at least the calories of any choice from the menu within the budget. |
| `Knapsack.GreedyNoBetter` | task_6.py:65-93 | The greedy selection, for any ratio order, never has more calories than the table's selection. |
| `Knapsack.SubDistinct` | task_6.py:49-58 | A sub-multiset of a menu with distinct names has distinct names. |
| `Knapsack.CountOne` | task_6.py:13-20 | With distinct names, no dish occurs twice. |
| `Knapsack.DynamicProgrammingKeys` | task_6.py:96-105 | The table selection never names a dish twice, so every entry gets its own dictionary key. |
| `Knapsack.GreedyKeys` | task_6.py:49-58 | The greedy selection never names a dish twice, so every entry gets its own dictionary key. |
| `Dijkstra.ExtendPath` | task_3.py:38 | Extending a path by an edge adds the edge's weight. |
| `Dijkstra.PathPrefix` | task_3.py:38 | A prefix of a path is a path to its own last vertex. |
| `Dijkstra.WeightNonNegative` | task_3.py:38 | With non-negative edge weights, every path weighs at least 0. |
| `Dijkstra.WeightPrefix` | task_3.py:38 | With non-negative edge weights, a prefix of a path weighs no more than the path. |
| `Dijkstra.FeasibleBoundsPaths` | task_3.py:38-41 | A table with no improving edge and 0 at the start is a lower bound on every path's weight. |
| `Dijkstra.CertificateIsShortest` | task_3.py:14-17 | Such a table is the table of shortest distances when every finite entry is the weight of some path. |
| `Dijkstra.ShortestDistancesUnique` | task_3.py:14-17 | There is only one table of shortest distances from a start vertex. |
| `Dijkstra.Relax` | task_3.py:33-42 | Relaxes the popped vertex's edges. An entry changes only to a strictly smaller value, and visited vertices keep their distance. |
| `Dijkstra.MinEntry` | task_3.py:26 | A non-empty queue has an entry whose distance is at most that of every entry. |
| `Dijkstra.PopIsShortest` | task_3.py:26-31 | With non-negative weights, the first pop of a vertex carries its recorded distance, and no path to it is shorter. |
| `Dijkstra.CrossingPrefix` | task_3.py:33-42 | A path from a visited to an unvisited vertex leaves the visited set along a relaxed edge, so its prefix up to there weighs at least the least key of the queue. |
| `Dijkstra.DiscardKeepsInv` | task_3.py:28-29 | Skipping a stale entry of a visited vertex keeps the loop invariant. |
| `Dijkstra.VisitKeepsInv` | task_3.py:31-42 | Visiting a vertex and relaxing its edges keeps the loop invariant. |
| `Dijkstra.VisitShrinksUnvisited` | task_3.py:31 | Visiting a new vertex shrinks the unvisited set, so the loop terminates together with the queue shrinking on discards. |
| `Dijkstra.DiscardShrinksQueue` | task_3.py:26-29 | Discarding an entry shrinks the queue. |
| `Dijkstra.ReachedIsVisited` | task_3.py:25-44 | When the queue is empty, every vertex reachable from the start has been visited. |
| `Dijkstra.NoEdgeLeaves` | task_3.py:33-42 | With an empty queue, no edge leads from a visited vertex to an unvisited one. |
| `Dijkstra.DoneIsShortest` | task_3.py:25-44 | When the queue is empty, the table holds the minimum path weight at every reachable vertex and infinity at every unreachable one. |
| `Dijkstra.InitialDistances` | task_3.py:17-18 | The first table has exactly the graph's vertices as keys, 0 at the start and infinity elsewhere. |
| `Dijkstra.InitialInv` | task_3.py:17-23 | That table, an empty visited set and the queue holding only (0, start) satisfy the loop invariant. |
| `Dijkstra.PopMin` | task_3.py:26 | `heappop` returns an entry of least distance. |
| `Dijkstra.Visit` | task_3.py:31-42 | One visit relaxes exactly the popped vertex's edges to unvisited neighbours and pushes exactly the improved entries, after removing the popped one. It keeps the invariant and shrinks the unvisited set. |
| `Dijkstra.ShortestPaths` | task_3.py:5-44 | Fails exactly when the start vertex is not in the graph. Otherwise it returns the table of shortest distances: keys are the graph's vertices, 0 at the start, the minimum path weight at reachable vertices and infinity at unreachable ones. |
| `Dijkstra.StartIsZero` | task_3.py:18-20 | The result has distance 0 at the start vertex. |
| `Dijkstra.PentagonIsWellFormed` | task_3.py:54-60 | The sample graph's shape, over any five distinct names, is closed and has non-negative weights. |
| `Dijkstra.SampleIsWellFormed` | task_3.py:54-60 | The sample graph is closed and has non-negative weights. |
| `Dijkstra.PentagonFromA` | task_3.py:54-60 | From the first vertex, the shortest distances are 0, 5, 10, 8 and 12. |
| `Dijkstra.PentagonFromE` | task_3.py:54-60 | From the last vertex, the shortest distances are 12, 7, 6, 4 and 0. |
| `Dijkstra.SampleFromA` | task_3.py:70 | From A the shortest distances are {A:0, B:5, C:10, D:8, E:12}. |
| `Dijkstra.SampleFromE` | task_3.py:76 | From E the shortest distances are {A:12, B:7, C:6, D:4, E:0}. |
| `Dijkstra.SampleRuns` | task_3.py:63-79 | The two runs of the test return those two tables. |

## Left out

**Whole files and drawing code**
- `task_2.py` and `task_7.py`: turtle graphics, `input()`, random sampling and plotting. They are all I/O and floating point.
- `add_edges` and `draw_tree` in `task_4.py`, and the drawing in `visualize_binary_heap`, `visualize_dfs` and `visualize_bfs`: these are networkx and matplotlib layout and rendering.
- The colouring loops of `visualize_dfs` and `visualize_bfs` are left out too, since they only feed the drawing.
- `Node.id`: a random `uuid4` used only by the drawing. The model's nodes have no identifier field.
- `create_sample_tree`, all `__main__` blocks and all `print` output: demonstration glue and console I/O.

**Heap queue and dictionaries**
- `heapq`: the priority queue is a multiset of (distance, vertex) pairs, and a pop returns any entry of least distance. Python breaks ties on the vertex name. Correctness does not depend on that.
- Dictionaries are modelled by access pattern:
  - the graph is a `map`;
  - the knapsack menu is a sequence of entries in insertion order, as dict iteration gives them;
  - a result dictionary is the sequence of selected entries.
  
  The distinct-names lemmas give every selected entry its own key.

**Deliberate preconditions and weaker contracts**
- `Dijkstra.ShortestPaths`: requires every neighbour to be a vertex of the graph and every weight to be non-negative. The first matters because a missing neighbour raises `KeyError` only if the search reaches it. The second matters because with negative weights the source returns values that are not shortest distances. Those two behaviours are not modelled.
- `Knapsack.SortByRatio`: its contract does not state stability. Python's `sort(reverse=True)` keeps dictionary order among equal ratios; the model accepts any non-increasing order. Every greedy property holds for all such orders.
- `Knapsack.GreedyAlgorithm`: the sorted order is a ghost out-parameter, so the result is pinned down except for that order of ties.
- `LinkedLists.MergeSortedLists`: requires the two chains to share no node. Merging a chain with itself would make a cycle.

**Numbers and values**
- Ratios are exact rationals (`real`), not floats. Rounding of nearly equal ratios, which could reorder them in Python, is not modelled.
- `total_calories` in `greedy_algorithm` is accumulated but never used. `Knapsack.SelectWithinBudget` keeps it as a local total equal to the selection's calories, but no contract exposes it.
- `Traversals.Lerp`: interior gradient colours use exact interpolation. It is floored, which matches `int()` on a non-negative value. The source computes it in floating point, where rounding may make an interior channel one lower. Both ends are exact in either form.
- `Traversals.ParseHex`: accepts only plain hex digits. Python's `int(s, 16)` also accepts surrounding whitespace, a sign, a `0x` prefix and underscores between digits.
- `Traversals.ParseRgb`, `Traversals.ParseChannels` and `Traversals.GradientWellFormed`: their contracts hold only under the `ParseHex` restriction above. In Python a segment such as `"-1"` parses to a negative channel, and `f"{-1:02X}"` is `"-1"`, so that colour is not `#` and six hex digits.
- Values stored in list and heap nodes are integers. The source allows any comparable value.
- A node's value is a constant field, because no modelled operation reassigns it.
- `LinkedLists.Node.constructor`: takes the value as a required argument. The source's default `val = 0` (`task_1.py:6`) is not modelled. The only calls that rely on it, `Node(0)` for the dummy heads at `task_1.py:73` and `task_1.py:105`, are written with the 0 spelled out.
- Trees are finite and acyclic. `Shape(t)` ties the nodes to a finite tree value, so a cycle through `left`/`right` cannot be described. On such a cycle `dfs_traversal`, `bfs_traversal` and `reset_node_colors` (`task_5.py:81-90`, `task_5.py:115-123`, `task_5.py:210-217`) never stop, and that is not modelled. `Traversals.HeapIsTree` proves that the nodes `BinaryHeap.HeapToTree` links satisfy `Shape`.
- `Shape(t)` does not rule out a node that appears in two places of the tree. So `Traversals.PreorderCovers` states the length and the set of nodes of the preorder, not that each node appears once.
