# Course exercises of group 410971 (kozich), modelled in Dafny

This project models the Java exercises of the package `by.it.group410971.kozich`. It has one Dafny module per Java source file, plus a few shared modules. Each module states and proves what the exercise's code promises.

**Containers (lessons 9 to 12).** Each is a `class` whose fields the methods update in place, with a ghost abstraction and a `Valid()` invariant.
- `ListB` and `ListC`: growable arrays. `ListC` also has the cursor classes `Itr`/`ListItr`, modelled as `ListC.ListItr`.
- `MyArrayDeque`: a power-of-two circular buffer, with its two iterators.
- `MyLinkedList`: a doubly linked deque over `Node` objects.
- `MyPriorityQueue`: a binary min-heap under a comparator.
- `MyHashSet` and `MyLinkedHashSet`: chained hash tables. Their shared table is in module `HashTable`.
- `MyTreeSet`: a sorted array.
- Three ordered `Integer -> String` maps:
  - In `MyAvlMap` and `MyRbMap`, a class holds a pure tree datatype, which its methods replace. Their shared map facts are in `SearchTree`.
  - `MySplayMap` is a class whose tree is rearranged step by step. Its parent links are modelled as a zipper path of frames.

**Algorithms (lessons 1 to 8).** Imperative methods over arrays, each proved against a specification function:
- `FiboC`: Fibonacci modulo m through the Pisano period.
- `HeapMax`: a max-heap and its command loop.
- `Huffman`: a greedy prefix-code decoder.
- `BinaryFind`: binary search.
- `QSort`: lower and upper bounds.
- `CountSort`: counting sort.
- `QSortOptimized`: 3-way quicksort of segments.
- `LongNotUp`: the longest non-increasing subsequence.
- `EditDist`: Levenshtein distance and the edit script. One model serves A, B and C.
- `Knapsack`: the unbounded and the 0/1 subset sums.

**Graphs (lesson 13).**
- `Digraph` holds edges, reachability and cycles. `GraphInput` parses the "a->b, c" lines.
- `GraphA`: Kahn's and the depth-first topological sort.
- `GraphB`: cycle detection by depth-first search and by Kahn's count.
- `GraphC` with `Kosaraju`: strongly connected components.

**Disjoint sets (lesson 14).**
- `PointsA`: union by rank with full path compression, with facts in `DisjointSets`.
- `SitesB`: a map-based DSU over site names, with `SitesInput` for the "a+b" lines and `SitesMain` for the main loop.
- `StatesHanoiTowerC`: union by size with path halving, bubble sort and grouping by height.

**Source scanners (lesson 15).**
- `ScannerText`: text primitives shared by A, B and C (`contains`, `trim`, the edge stripping, `split("\n")`).
- `ScannerA`: the line filter and the file order.
- `ScannerB`: the comment stripper and the header filter.
- `ScannerC`: the one-pass normaliser, the bounded Levenshtein distance and the copy rule.
- `FileInfo.compareTo` and `isTestFile` are the same in SourceScannerA and SourceScannerB. Both use `ScannerA.CompareFiles` and `ScannerText.IsTestFile`.

**Conventions.**
- A Java `null` argument is `None` of an `Option`. A thrown exception is an `Err` of a `Result` (module `Common`), and the state is left as the source leaves it.
- `equals` is Dafny's `==`.
- `hashCode` and comparators are function parameters.
- Library calls used as black boxes are specified, not re-implemented: `Collections.sort`, `Arrays.sort`, `HashMap`, `TreeSet`.

## Model

| member | source | states |
|---|---|---|
| BinaryFind.BinarySearch | src/by/it/group410971/kozich/lesson04/A_BinaryFind.java:59-73 | on an ascending array: -1 exactly when the key is absent, otherwise a 1-based position holding the key; on a strictly ascending array that position is the unique one |
| BinaryFind.UniquePosition | src/by/it/group410971/kozich/lesson04/A_BinaryFind.java:64-65 | in a strictly ascending array a value's 1-based position is unique, so the search's answer is determined |
| BinaryFind.FindIndex | src/by/it/group410971/kozich/lesson04/A_BinaryFind.java:49-55 | one answer per query, in query order, each with the meaning of BinarySearch |
| QSort.Normalize | src/by/it/group410971/kozich/lesson05/A_QSort.java:59-63 | the segment read as (a, b) has start <= stop and is the pair as read or swapped |
| QSort.NormalizeAll | src/by/it/group410971/kozich/lesson05/A_QSort.java:56-65 | every segment read is normalised, one per input pair, in order |
| QSort.UpperBound | src/by/it/group410971/kozich/lesson05/A_QSort.java:100-111 | on an ascending array: the boundary r with every element before it <= key and every one from it > key, which is the count of elements <= key |
| QSort.LowerBound | src/by/it/group410971/kozich/lesson05/A_QSort.java:114-125 | on an ascending array: the boundary r with every element before it < key and every one from it >= key, which is the count of elements < key |
| QSort.CoveringByEndpoints | src/by/it/group410971/kozich/lesson05/A_QSort.java:84-93 | for normalised segments, the number covering p equals (#starts <= p) - (#stops < p) |
| QSort.CoveringFromSorted | src/by/it/group410971/kozich/lesson05/A_QSort.java:79-80 | sorting the start list and the stop list separately leaves that difference unchanged |
| QSort.CoveringCount | src/by/it/group410971/kozich/lesson05/A_QSort.java:90-93 | one point's answer upperBound(starts, p) - lowerBound(stops, p) is the number of segments covering p |
| QSort.Answers | src/by/it/group410971/kozich/lesson05/A_QSort.java:89-94 | result[i] is the number of segments with start <= points[i] <= stop |
| QSort.GetAccessory | src/by/it/group410971/kozich/lesson05/A_QSort.java:49-97 | for any input pairs, result[i] is the number of normalised segments covering points[i] |
| CountSort.UptoLength | src/by/it/group410971/kozich/lesson05/B_CountSort.java:50-55 | the output written for the values 1..v-1 has one slot per input value in that range |
| CountSort.UptoAscending | src/by/it/group410971/kozich/lesson05/B_CountSort.java:50-55 | the output written for the values 1..v-1 is non-decreasing and holds only values in that range |
| CountSort.UptoMultiset | src/by/it/group410971/kozich/lesson05/B_CountSort.java:50-55 | each value in 1..v-1 occurs in that output exactly as often as in the input, and no other value occurs |
| CountSort.SortedIsAscendingPermutation | src/by/it/group410971/kozich/lesson05/B_CountSort.java:31-57 | on input values in 1..10 the output is non-decreasing, has length n and is a permutation of the input |
| CountSort.SortedDropsZeros | src/by/it/group410971/kozich/lesson05/B_CountSort.java:44-55 | with zeros allowed, the output is non-decreasing and holds the input's multiset less its zeros (count[0] is never written back) |
| CountSort.Tally | src/by/it/group410971/kozich/lesson05/B_CountSort.java:41-46 | count has 11 slots and count[v] is the number of occurrences of v in the input |
| CountSort.Drain | src/by/it/group410971/kozich/lesson05/B_CountSort.java:51-54 | the inner loop writes count[num] copies of num from index on, leaves the other slots and the other counts alone and ends with count[num] == 0 |
| CountSort.WriteBack | src/by/it/group410971/kozich/lesson05/B_CountSort.java:49-55 | the output loops write the sorted values into the prefix, keep the rest of the array, and leave every count[1..10] at 0 |
| CountSort.CountSortInPlace | src/by/it/group410971/kozich/lesson05/B_CountSort.java:28-58 | in place in points: the prefix becomes the sorted output and the slots after it keep their old values |
| QSortOptimized.Swap | src/by/it/group410971/kozich/lesson05/C_QSortOptimized.java:135-139 | the array with slots i and j exchanged |
| QSortOptimized.FlagStep | src/by/it/group410971/kozich/lesson05/C_QSortOptimized.java:93-101 | one partition step keeps the three bands (starts below, equal to and above the pivot's) and permutes only [low, high] |
| QSortOptimized.Partition | src/by/it/group410971/kozich/lesson05/C_QSortOptimized.java:90-102 | afterwards [low, lt) starts before the pivot, [lt, gt] at it and (gt, high] after it, and [low, high] is a permutation of what it was with nothing outside changed |
| QSortOptimized.OuterStep | src/by/it/group410971/kozich/lesson05/C_QSortOptimized.java:89-111 | one turn of the outer loop: the range left to sort shrinks, and the parts outside it are sorted and in order with it |
| QSortOptimized.SortLeft | src/by/it/group410971/kozich/lesson05/C_QSortOptimized.java:104-106 | after the recursive sort of the left band the loop continues on (gt, high] with everything else settled |
| QSortOptimized.SortRight | src/by/it/group410971/kozich/lesson05/C_QSortOptimized.java:107-109 | after the recursive sort of the right band the loop continues on [low, lt) with everything else settled |
| QSortOptimized.FinishSort | src/by/it/group410971/kozich/lesson05/C_QSortOptimized.java:89 | once low >= high the whole range [low0, high0] is sorted by start |
| QSortOptimized.QuickSort3Way | src/by/it/group410971/kozich/lesson05/C_QSortOptimized.java:88-112 | arr[low..high] ends sorted by start and is a permutation of what it was; the rest of the array does not change |
| QSortOptimized.FirstCoverFrom | src/by/it/group410971/kozich/lesson05/C_QSortOptimized.java:119-131 | the search from any state returns -1 or the index of a segment covering p, and never loses a hit it already has |
| QSortOptimized.SearchStep | src/by/it/group410971/kozich/lesson05/C_QSortOptimized.java:120-130 | one iteration of the search: mid = left + (right-left)/2, left after a hit or a late start, right after an early end |
| QSortOptimized.BinarySearchFirstCover | src/by/it/group410971/kozich/lesson05/C_QSortOptimized.java:115-133 | the loop returns -1 or the index of a segment with start <= point <= stop |
| QSortOptimized.CountFrom | src/by/it/group410971/kozich/lesson05/C_QSortOptimized.java:77-79 | the counting loop from j counts at most the segments from j on |
| QSortOptimized.CountFromIsCovering | src/by/it/group410971/kozich/lesson05/C_QSortOptimized.java:76-79 | on segments sorted by start, the count from j is the number of segments from j on that cover p |
| QSortOptimized.CountRun | src/by/it/group410971/kozich/lesson05/C_QSortOptimized.java:76-79 | the for loop computes that count |
| QSortOptimized.AnswerAsWritten | src/by/it/group410971/kozich/lesson05/C_QSortOptimized.java:70-81 | one point's answer as written; QSortOptimized.AsWrittenUndercounts bounds it by the true count, QSortOptimized.FirstCoverMisses shows it can be 0 wrongly |
| QSortOptimized.AnswerPoint | src/by/it/group410971/kozich/lesson05/C_QSortOptimized.java:70-81 | one point's answer: 0 when the search finds nothing, else the count from the hit |
| QSortOptimized.AsWrittenUndercounts | src/by/it/group410971/kozich/lesson05/C_QSortOptimized.java:69-82 | the answer as written never exceeds the number of covering segments, and is 0 exactly when the search returns -1 |
| QSortOptimized.FirstCoverMisses | src/by/it/group410971/kozich/lesson05/C_QSortOptimized.java:115-133 | for [0,10],[1,2],[3,4] sorted by start and point 5 the search returns -1 and the answer is 0 although one segment covers 5 |
| QSortOptimized.CountFromStartIsCovering | src/by/it/group410971/kozich/lesson05/C_QSortOptimized.java:76-79 | counted from index 0, the loop gives exactly the number of covering segments |
| QSortOptimized.SortedSegments | src/by/it/group410971/kozich/lesson05/C_QSortOptimized.java:50-66 | the normalised segments, sorted by start and a permutation of those read |
| QSortOptimized.AnswersAsWritten | src/by/it/group410971/kozich/lesson05/C_QSortOptimized.java:69-82 | each result is the answer as written, and at most the number of covering segments |
| QSortOptimized.GetAccessory2 | src/by/it/group410971/kozich/lesson05/C_QSortOptimized.java:41-85 | getAccessory2 as written: each result is the answer from the search's hit, never above the true covering count |
| QSortOptimized.ExactAnswers | src/by/it/group410971/kozich/lesson05/C_QSortOptimized.java:69-82 | with each count started at index 0, every result is the number of segments covering the point |
| QSortOptimized.GetAccessory2Corrected | src/by/it/group410971/kozich/lesson05/C_QSortOptimized.java:41-85 | corrected getAccessory2: result[i] is the number of normalised segments with start <= points[i] <= stop |
| EditDist.Back | src/by/it/group410971/kozich/lesson07/C_EditDist.java:48-65 | the backtrack step from (i, j): a deletion of one[i-1] when dp[i][j] == dp[i-1][j] + 1, else an insertion of two[j-1], else a copy of equal characters or a replacement; the cell it moves to is one step closer and dp drops by the step's cost |
| EditDist.Script | src/by/it/group410971/kozich/lesson07/C_EditDist.java:46-66 | the prescription the backtrack records from (i, j) consumes exactly i characters of one |
| EditDist.ScriptOutput | src/by/it/group410971/kozich/lesson07/C_EditDist.java:46-66 | applying the prescription to one[..i] writes exactly two[..j] |
| EditDist.ScriptEdits | src/by/it/group410971/kozich/lesson07/C_EditDist.java:46-66 | the prescription makes exactly dp[i][j] edits (copies are free) |
| EditDist.Minimal | src/by/it/group410971/kozich/lesson07/A_EditDist.java:35-47 | no prescription that turns one[..i] into two[..j] makes fewer edits than dp[i][j], so dp is the Levenshtein distance |
| EditDist.DeleteBound | src/by/it/group410971/kozich/lesson07/A_EditDist.java:41 | dp[i][j] <= dp[i-1][j] + 1 |
| EditDist.InsertBound | src/by/it/group410971/kozich/lesson07/A_EditDist.java:42 | dp[i][j] <= dp[i][j-1] + 1 |
| EditDist.DiagonalBound | src/by/it/group410971/kozich/lesson07/A_EditDist.java:38-44 | dp[i][j] <= dp[i-1][j-1] + cost, with cost 0 for equal characters |
| EditDist.StepCost | src/by/it/group410971/kozich/lesson07/A_EditDist.java:38-44 | an operation from (i', j') to (i, j) costs at least the matching term of the recurrence |
| EditDist.SelfDistance | src/by/it/group410971/kozich/lesson07/A_EditDist.java:35-47 | the distance of a string to itself is 0 |
| EditDist.Symmetric | src/by/it/group410971/kozich/lesson07/A_EditDist.java:35-47 | dp for (one, two) at (i, j) equals dp for (two, one) at (j, i) |
| EditDist.UpperBound | src/by/it/group410971/kozich/lesson07/A_EditDist.java:27-47 | dp[i][j] <= max(i, j) |
| EditDist.LowerBound | src/by/it/group410971/kozich/lesson07/A_EditDist.java:27-47 | dp[i][j] >= abs(i - j) |
| EditDist.BaseCases | src/by/it/group410971/kozich/lesson07/A_EditDist.java:25-33 | a fresh (n+1) x (m+1) table with dp[i][0] == i and dp[0][j] == j |
| EditDist.DStep | src/by/it/group410971/kozich/lesson07/A_EditDist.java:38-45 | each inner cell is the least of deletion, insertion and replacement/copy |
| EditDist.CellIs | src/by/it/group410971/kozich/lesson07/C_EditDist.java:36-40 | the cell update from del, ins and rep computes dp[i][j] |
| EditDist.FillRow | src/by/it/group410971/kozich/lesson07/A_EditDist.java:37-46 | the inner loop fills row i from row i-1 and leaves the other rows alone |
| EditDist.Table | src/by/it/group410971/kozich/lesson07/B_EditDist.java:22-46 | the whole table holds dp[i][j] for every cell |
| EditDist.Distancing | src/by/it/group410971/kozich/lesson07/B_EditDist.java:21-48 | getDistanceEdinting (A and B) returns the distance of the two strings, the same in both argument orders, and 0 for equal strings |
| EditDist.BackStep | src/by/it/group410971/kozich/lesson07/C_EditDist.java:48-65 | one loop iteration, read off the filled table, takes the step Back describes |
| EditDist.BackKeeps | src/by/it/group410971/kozich/lesson07/C_EditDist.java:47-66 | each prepend keeps the built text a suffix of the whole rendered prescription |
| EditDist.Prescription | src/by/it/group410971/kozich/lesson07/C_EditDist.java:24-68 | C's getDistanceEdinting returns the rendered prescription ("-c," "+c," "~c," "#,") of the backtrack from (n, m) |
| FiboC.FibonacciMod | src/by/it/group410971/kozich/lesson01/FiboC.java:52-64 | n itself for n <= 1, otherwise F(n) reduced modulo abs(m), a value in [0, abs(m)) |
| FiboC.GetPisanoPeriod | src/by/it/group410971/kozich/lesson01/FiboC.java:32-49 | the least p in [1, m*m] at which the pairs return to (0, 1) modulo m, or 0 when there is none; never 0 for abs(m) >= 2 |
| FiboC.FasterC | src/by/it/group410971/kozich/lesson01/FiboC.java:18-29 | n for n <= 1; F(n) modulo abs(m) for abs(m) >= 2; an ArithmeticException (division by a zero period) for abs(m) <= 1 |
| FiboC.JavaMod | src/by/it/group410971/kozich/lesson01/FiboC.java:38 | on a non-negative dividend Java's remainder by m is the remainder by abs(m) |
| FiboC.NoPisanoModOne | src/by/it/group410971/kozich/lesson01/FiboC.java:37-48 | modulo 1 no period exists, so the loop returns 0 |
| FiboC.FibModIsFib | src/by/it/group410971/kozich/lesson01/FiboC.java:55-63 | the iterated pairs are F(n) modulo m |
| FiboC.PisanoCheck | src/by/it/group410971/kozich/lesson01/FiboC.java:43 | the test prev == 0 && curr == 1 after step p holds exactly when p is a Pisano period |
| FiboC.PisanoShift | src/by/it/group410971/kozich/lesson01/FiboC.java:25 | F(k + p) and F(k) agree modulo m when p is a period |
| FiboC.PisanoReduces | src/by/it/group410971/kozich/lesson01/FiboC.java:25-28 | F(n) modulo m equals F(n mod p) modulo m, which is what justifies the reduction of n |
| FiboC.Pigeonhole | src/by/it/group410971/kozich/lesson01/FiboC.java:37 | among more than n values in [0, n) two are equal |
| FiboC.PairCodeEqual | src/by/it/group410971/kozich/lesson01/FiboC.java:37-47 | two indices whose (F(i), F(i+1)) pairs modulo m have equal codes have equal pairs |
| FiboC.PairBack | src/by/it/group410971/kozich/lesson01/FiboC.java:38-40 | equal pairs at i and j give equal pairs at i-1 and j-1 |
| FiboC.PairToStart | src/by/it/group410971/kozich/lesson01/FiboC.java:43 | equal pairs at i <= j make (0, 1) recur at j - i |
| FiboC.PisanoExists | src/by/it/group410971/kozich/lesson01/FiboC.java:37-47 | for m >= 2 some p in [1, m*m] is a period, so the loop's bound m*m always suffices |
| Digraph.Adjacent | src/by/it/group410971/kozich/lesson13/GraphA.java:101 | getOrDefault(u, empty list): exactly the successors of u |
| Digraph.WithEdge | src/by/it/group410971/kozich/lesson13/GraphA.java:15-19 | computeIfAbsent(from).add(to): from becomes a key, exactly one edge (u, v) is added, other lists unchanged, u's list gains one v |
| Digraph.WithVertex | src/by/it/group410971/kozich/lesson13/GraphA.java:21-24 | putIfAbsent(vertex, empty list): vertex becomes a key, no edge changes, an existing key is left alone |
| Digraph.Reordered | src/by/it/group410971/kozich/lesson13/GraphA.java:101-102 | sorting a stored adjacency list in place keeps the edge multiset |
| Digraph.SameEdgesReach | src/by/it/group410971/kozich/lesson13/GraphA.java:102 | graphs with the same edges reach the same vertices and have the same cycles |
| Digraph.ReachTrans | src/by/it/group410971/kozich/lesson13/GraphC.java:76-104 | reachability is transitive |
| Digraph.TopologicalAcyclic | src/by/it/group410971/kozich/lesson13/GraphA.java:27-73 | a graph with a topological order of its vertices has no cycle |
| Digraph.StuckCycle | src/by/it/group410971/kozich/lesson13/GraphA.java:67-70 | a non-empty set of vertices each with a predecessor inside it holds a cycle |
| Digraph.DegRemove | src/by/it/group410971/kozich/lesson13/GraphA.java:56-63 | taking u out of the counted sources lowers v's count by the number of edges u -> v |
| Digraph.DegZero | src/by/it/group410971/kozich/lesson13/GraphA.java:45 | a zero count means no counted source has an edge into v, and conversely |
| Digraph.ReadyDeg | src/by/it/group410971/kozich/lesson13/GraphA.java:44-48 | a vertex not output is ready (all predecessors output) exactly when its remaining count is 0 |
| Digraph.ReadyOrderTopological | src/by/it/group410971/kozich/lesson13/GraphA.java:52-65 | an output order in which each vertex was ready when output is topological |
| Digraph.AddCounts | src/by/it/group410971/kozich/lesson13/GraphA.java:37-39 | the inner tally loop adds to each count the number of edges into it from the list |
| Digraph.Zeros | src/by/it/group410971/kozich/lesson13/GraphA.java:31-33 | every vertex of the set starts at count 0 |
| Digraph.InDegrees | src/by/it/group410971/kozich/lesson13/GraphA.java:28-40 | each vertex is mapped to the number of edges into it, counted with multiplicity |
| Digraph.Reversed | src/by/it/group410971/kozich/lesson13/GraphA.java:92 | Collections.reverse: the same elements, last first |
| Digraph.ReversedElems | src/by/it/group410971/kozich/lesson13/GraphA.java:92 | reversing keeps the elements and their distinctness |
| Digraph.PostorderBack | src/by/it/group410971/kozich/lesson13/GraphA.java:96-118 | in a finishing order every edge points to an earlier position |
| Digraph.PostorderReversed | src/by/it/group410971/kozich/lesson13/GraphA.java:76-94 | a finishing order, reversed, is a topological order of its elements |
| Digraph.FinishedSnoc | src/by/it/group410971/kozich/lesson13/GraphA.java:115-116 | a vertex appended after all its successors keeps the order closed |
| Digraph.KahnTake | src/by/it/group410971/kozich/lesson13/GraphA.java:52-55 | the polled vertex has count 0, and each of its successors is not yet output and has a count at least its number of edges from it |
| Digraph.KahnRelease | src/by/it/group410971/kozich/lesson13/GraphA.java:57-64 | after the decrements each count again counts the edges from vertices not yet output, and the queue holds exactly the ready vertices |
| Digraph.KahnStuck | src/by/it/group410971/kozich/lesson13/GraphA.java:67-70 | when no vertex is ready but some were not output, the graph has a cycle |
| Digraph.KahnFinish | src/by/it/group410971/kozich/lesson13/GraphA.java:52-72 | at the end the output is as long as the vertex list exactly when all were output; then it is a topological order, otherwise the graph has a cycle |
| Digraph.KahnCount | src/by/it/group410971/kozich/lesson13/GraphB.java:88-106 | the number of vertices output equals the number of vertices exactly when the graph has no cycle |
| Digraph.DistinctTail | src/by/it/group410971/kozich/lesson13/GraphA.java:53 | polling the head of a queue without repeats leaves the other elements |
| Digraph.DistinctCount | src/by/it/group410971/kozich/lesson13/GraphA.java:43-48 | no element twice exactly when every multiplicity is at most 1 |
| GraphInput.RemoveSpaces | src/by/it/group410971/kozich/lesson13/GraphA.java:152 | replaceAll("\\s+", ""): no longer, and holds exactly the non-whitespace characters |
| GraphInput.RemoveSpacesKeeps | src/by/it/group410971/kozich/lesson13/GraphA.java:152 | a string without whitespace is unchanged |
| GraphInput.Parts | src/by/it/group410971/kozich/lesson13/GraphA.java:155-159 | the pieces between occurrences of the delimiter; always at least one |
| GraphInput.PartsJoin | src/by/it/group410971/kozich/lesson13/GraphA.java:155-159 | the pieces, joined with the delimiter, give the string back |
| GraphInput.JoinParts | src/by/it/group410971/kozich/lesson13/GraphA.java:155-159 | cutting the join of pieces that do not contain the delimiter gives the pieces back |
| GraphInput.SplitJoin | src/by/it/group410971/kozich/lesson13/GraphA.java:155 | String.split on the join of non-empty pieces gives the pieces back |
| GraphInput.SplitPieces | src/by/it/group410971/kozich/lesson13/GraphA.java:155-159 | String.split returns the string itself when the delimiter does not occur, else the pieces up to the trailing empty ones |
| GraphInput.Parse | src/by/it/group410971/kozich/lesson13/GraphA.java:159-168 | one piece: two parts an edge, one part a vertex, otherwise nothing, each part trimmed; GraphInput.ParseFormat proves a written command parses back to itself |
| GraphInput.Step | src/by/it/group410971/kozich/lesson13/GraphA.java:162-167 | one command as addEdge or addVertex changes the map; GraphInput.BuildNext and GraphInput.BuildShape state the edges it adds |
| GraphInput.Build | src/by/it/group410971/kozich/lesson13/GraphA.java:157-169 | the commands applied in order; GraphInput.BuildShape proves the keys and edges after it, GraphInput.BuildWithin that every end is named |
| GraphInput.Commands | src/by/it/group410971/kozich/lesson13/GraphA.java:157-169 | one command per piece, each the parse of its piece: two parts an edge, one part a vertex, otherwise nothing |
| GraphInput.Names | src/by/it/group410971/kozich/lesson13/GraphA.java:157-169 | every vertex an edge or vertex command names is in the vertex set |
| GraphInput.BuildNext | src/by/it/group410971/kozich/lesson13/GraphA.java:157-169 | one more piece applies one more command |
| GraphInput.BuildShape | src/by/it/group410971/kozich/lesson13/GraphA.java:157-169 | after processInput the map's keys are the old ones plus every edge source, and the edges are the old ones plus the commanded ones |
| GraphInput.BuildWithin | src/by/it/group410971/kozich/lesson13/GraphA.java:157-169 | every key and edge end is among the old vertices or the named ones |
| GraphInput.SourcesNamed | src/by/it/group410971/kozich/lesson13/GraphA.java:17 | every edge source is a vertex |
| GraphInput.ParseFormat | src/by/it/group410971/kozich/lesson13/GraphA.java:159-168 | a command written as its piece parses back to itself |
| GraphInput.CommandsOfLine | src/by/it/group410971/kozich/lesson13/GraphA.java:150-170 | a line of plain commands is read back as exactly those commands |
| GraphA.SmallestFirstUnique | src/by/it/group410971/kozich/lesson13/GraphA.java:43-65 | two orders in which each vertex is the smallest ready one agree: the priority-queue output is unique |
| GraphA.LeastReadyUnique | src/by/it/group410971/kozich/lesson13/GraphA.java:53 | the smallest ready vertex, which the priority queue polls, is unique |
| GraphA.Successors | src/by/it/group410971/kozich/lesson13/GraphA.java:101-102 | getOrDefault then Collections.sort: exactly the successors of v, in ascending order |
| GraphA.SearchFrom | src/by/it/group410971/kozich/lesson13/GraphA.java:96-118 | dfs(v) as a function: the visited set only grows and stays among the vertices |
| GraphA.SearchStep | src/by/it/group410971/kozich/lesson13/GraphA.java:105-112 | one neighbour of the loop as a function: the visited set only grows and stays among the vertices |
| GraphA.SearchList | src/by/it/group410971/kozich/lesson13/GraphA.java:104-113 | the neighbour loop as a function: the visited set only grows and stays among the vertices |
| GraphA.SearchListAt | src/by/it/group410971/kozich/lesson13/GraphA.java:104-113 | the neighbour loop from position j is one step, then the loop from j + 1 unless the step failed |
| GraphA.SearchAll | src/by/it/group410971/kozich/lesson13/GraphA.java:84-90 | the vertex loop over the given order as a function: a visited vertex is passed over, an unvisited one starts SearchFrom, the first failure ends it; GraphA.SearchAllAt unfolds it |
| GraphA.DfsSearch | src/by/it/group410971/kozich/lesson13/GraphA.java:76-90 | the whole search over Collections.sort of the vertices from nothing visited; GraphA.GraphA.TopologicalSortDfs returns its finishing order reversed, GraphA.DfsSample evaluates it |
| GraphA.SearchAllAt | src/by/it/group410971/kozich/lesson13/GraphA.java:84-90 | the vertex loop from position i is one vertex, then the loop from i + 1 unless it failed |
| GraphA.DfsSample | src/by/it/group410971/kozich/lesson13/GraphA.java:76-118 | with edges a -> b and a -> c the depth-first search finishes b, c, a, so the sort returns a, c, b |
| GraphA.SmallestFirstSnoc | src/by/it/group410971/kozich/lesson13/GraphA.java:53-54 | outputting the smallest ready vertex keeps the order smallest-first |
| GraphA.Release | src/by/it/group410971/kozich/lesson13/GraphA.java:58-63 | each successor's count drops by its number of edges, a successor reaching 0 joins the priority queue, and the queue stays ordered |
| GraphA.GraphA.constructor | src/by/it/group410971/kozich/lesson13/GraphA.java:10-13 | an empty map and an empty vertex set |
| GraphA.GraphA.AddEdge | src/by/it/group410971/kozich/lesson13/GraphA.java:15-19 | the map gains the edge from -> to; both ends join the vertices |
| GraphA.GraphA.AddVertex | src/by/it/group410971/kozich/lesson13/GraphA.java:21-24 | the vertex joins the set and gets an empty list unless it has one |
| GraphA.GraphA.TopologicalSort | src/by/it/group410971/kozich/lesson13/GraphA.java:27-73 | Kahn's algorithm succeeds exactly when the graph has no cycle, and then returns a topological order in which each vertex is the smallest one ready; otherwise IllegalStateException |
| GraphA.GraphA.SortNeighbors | src/by/it/group410971/kozich/lesson13/GraphA.java:101-102 | the vertex's list is replaced by its sorted version, and what is returned is exactly Successors of the vertex in the graph as it was before any list was sorted |
| GraphA.GraphA.Dfs | src/by/it/group410971/kozich/lesson13/GraphA.java:96-118 | the visited set, the finishing list and the verdict are exactly those of SearchFrom (neighbours in sorted order, a vertex on the stack a cycle); a failed call comes with a cycle; a successful one finishes vertex and what it reaches, successors first, leaving the stack as it was |
| GraphA.GraphA.Visit | src/by/it/group410971/kozich/lesson13/GraphA.java:105-112 | exactly SearchStep: an unvisited successor is searched, one on the stack is a cycle, a finished one is passed over |
| GraphA.GraphA.VisitAll | src/by/it/group410971/kozich/lesson13/GraphA.java:104-113 | the neighbour loop gives exactly SearchList over the sorted neighbours: it stops at the first failure, and on success every neighbour is finished |
| GraphA.GraphA.TopologicalSortDfs | src/by/it/group410971/kozich/lesson13/GraphA.java:76-94 | the depth-first sort succeeds exactly when the graph has no cycle (and exactly when DfsSearch does), and then returns the reverse of DfsSearch's finishing order, which is a topological order; the edges are kept (lists only reordered) |
| GraphA.GraphA.Start | src/by/it/group410971/kozich/lesson13/GraphA.java:84-90 | one turn of the vertex loop: a visited vertex changes nothing, an unvisited one gives SearchFrom with an empty stack; failure comes with a cycle |
| GraphA.ProcessPiece | src/by/it/group410971/kozich/lesson13/GraphA.java:159-168 | one piece adds its edge or its vertex, or nothing |
| GraphA.ProcessInput | src/by/it/group410971/kozich/lesson13/GraphA.java:150-170 | the graph after processInput is the old one with the commands of the line applied in order, and the vertices gain every name |
| GraphB.Release | src/by/it/group410971/kozich/lesson13/GraphB.java:96-101 | each successor's count drops by its number of edges and a successor reaching 0 is offered at the tail of the FIFO queue |
| GraphB.ZeroQueue | src/by/it/group410971/kozich/lesson13/GraphB.java:81-86 | the queue holds each vertex with count 0, once |
| GraphB.GraphB.constructor | src/by/it/group410971/kozich/lesson13/GraphB.java:10-13 | an empty map and an empty vertex set |
| GraphB.GraphB.AddEdge | src/by/it/group410971/kozich/lesson13/GraphB.java:15-19 | the map gains the edge from -> to; both ends join the vertices |
| GraphB.GraphB.AddVertex | src/by/it/group410971/kozich/lesson13/GraphB.java:21-24 | the vertex joins the set and gets an empty list unless it has one |
| GraphB.GraphB.HasCycle | src/by/it/group410971/kozich/lesson13/GraphB.java:27-39 | true exactly when the graph has a cycle |
| GraphB.GraphB.HasCycleDfs | src/by/it/group410971/kozich/lesson13/GraphB.java:41-62 | a true answer comes with a cycle; a false one finishes the vertex and what it reaches and leaves the stack as it was |
| GraphB.GraphB.Visit | src/by/it/group410971/kozich/lesson13/GraphB.java:48-56 | an unvisited successor is searched, one on the stack closes a cycle, a finished one is passed over |
| GraphB.GraphB.HasCycleKahn | src/by/it/group410971/kozich/lesson13/GraphB.java:65-107 | count != vertices.size() exactly when the graph has a cycle |
| GraphB.ProcessPiece | src/by/it/group410971/kozich/lesson13/GraphB.java:136-145 | one piece adds its edge or its vertex, or nothing |
| GraphB.ProcessInput | src/by/it/group410971/kozich/lesson13/GraphB.java:127-147 | the graph after processInput is the old one with the commands of the line applied in order |
| GraphC.SortAt | src/by/it/group410971/kozich/lesson13/GraphC.java:79-80 | Collections.sort on a stored list: same edges, that list sorted, the others unchanged |
| GraphC.IntCompare | src/by/it/group410971/kozich/lesson13/GraphC.java:62 | Integer.compare: negative, zero or positive as a < b, a == b, a > b |
| GraphC.SccCompare | src/by/it/group410971/kozich/lesson13/GraphC.java:60-70 | the comparator puts the larger component first, and among equal sizes the one with the smaller first vertex |
| GraphC.SccCompareTrans | src/by/it/group410971/kozich/lesson13/GraphC.java:60-70 | the comparator is transitive |
| GraphC.InsertScc | src/by/it/group410971/kozich/lesson13/GraphC.java:60-70 | inserting a component into a sorted list keeps it sorted and adds exactly that component |
| GraphC.SortSccs | src/by/it/group410971/kozich/lesson13/GraphC.java:60-70 | sccs.sort: sorted by the comparator and a permutation of the list |
| GraphC.PoppedAll | src/by/it/group410971/kozich/lesson13/GraphC.java:50-57 | once the stack is empty the components found are strongly connected components, cover every vertex and are disjoint |
| GraphC.DistinctSccs | src/by/it/group410971/kozich/lesson13/GraphC.java:60-70 | two different components share no vertex, so the comparator orders them strictly |
| GraphC.SortedSccs | src/by/it/group410971/kozich/lesson13/GraphC.java:60-70 | sorting keeps the components and orders them strictly |
| GraphC.GraphC.constructor | src/by/it/group410971/kozich/lesson13/GraphC.java:11-15 | both maps and the vertex set start empty |
| GraphC.GraphC.AddEdge | src/by/it/group410971/kozich/lesson13/GraphC.java:17-22 | from -> to enters the graph and to -> from the reversed graph; both ends join the vertices |
| GraphC.GraphC.AddVertex | src/by/it/group410971/kozich/lesson13/GraphC.java:24-28 | the vertex joins the set and gets empty lists in both maps unless it has them |
| GraphC.GraphC.SortedSuccessors | src/by/it/group410971/kozich/lesson13/GraphC.java:79-80 | exactly the successors of the vertex, the edges kept |
| GraphC.GraphC.SortedPredecessors | src/by/it/group410971/kozich/lesson13/GraphC.java:96-97 | exactly the predecessors of the vertex, sorted, the edges kept |
| GraphC.GraphC.FindSccs | src/by/it/group410971/kozich/lesson13/GraphC.java:31-73 | findSCCs returns the strongly connected components, each an ascending list, together covering every vertex, pairwise disjoint, in the comparator's strict order |
| GraphC.GraphC.FirstPass | src/by/it/group410971/kozich/lesson13/GraphC.java:35-45 | every vertex is pushed once, in an order where each vertex is pushed after all it reaches from it unvisited |
| GraphC.GraphC.DfsFirst | src/by/it/group410971/kozich/lesson13/GraphC.java:76-89 | the vertex and what it reaches unvisited are visited and pushed as their searches finish |
| GraphC.GraphC.VisitAllFirst | src/by/it/group410971/kozich/lesson13/GraphC.java:82-86 | after the neighbour loop every successor is visited |
| GraphC.GraphC.VisitFirst | src/by/it/group410971/kozich/lesson13/GraphC.java:83-85 | an unvisited successor is searched |
| GraphC.GraphC.SecondPass | src/by/it/group410971/kozich/lesson13/GraphC.java:48-57 | popping the stack yields the strongly connected components, covering every vertex, pairwise disjoint |
| GraphC.GraphC.PopComponent | src/by/it/group410971/kozich/lesson13/GraphC.java:51-56 | a popped unvisited vertex yields its own component and visits exactly that component |
| GraphC.GraphC.Collect | src/by/it/group410971/kozich/lesson13/GraphC.java:53-54 | the TreeSet filled from root is root's strongly connected component, ascending |
| GraphC.GraphC.DfsSecond | src/by/it/group410971/kozich/lesson13/GraphC.java:92-104 | the vertex and what reaches it through unvisited vertices are visited and added, ascending, without leaving the component |
| GraphC.GraphC.VisitSecond | src/by/it/group410971/kozich/lesson13/GraphC.java:99-103 | an unvisited predecessor is searched |
| GraphC.ProcessPiece | src/by/it/group410971/kozich/lesson13/GraphC.java:137-146 | one piece adds its edge or its vertex, or nothing |
| GraphC.ProcessInput | src/by/it/group410971/kozich/lesson13/GraphC.java:128-148 | the graph after processInput is the old one with the commands of the line applied in order |
| Kosaraju.EdgeKeepsReverse | src/by/it/group410971/kozich/lesson13/GraphC.java:17-22 | adding an edge to the graph and its reverse to the reversed graph keeps the two maps reverses of each other |
| Kosaraju.Exit | src/by/it/group410971/kozich/lesson13/GraphC.java:76-89 | a finished vertex that reaches an unfinished one reaches a vertex on the current search path |
| Kosaraju.ClaimsInsert | src/by/it/group410971/kozich/lesson13/GraphC.java:88 | pushing a finished vertex keeps the stack's claim order: each entry claims the vertices of its component not claimed by entries above it |
| Kosaraju.SettledPush | src/by/it/group410971/kozich/lesson13/GraphC.java:77 | opening an unfinished vertex keeps the first-pass invariant |
| Kosaraju.SettledFinish | src/by/it/group410971/kozich/lesson13/GraphC.java:88 | finishing the deepest open vertex keeps the first-pass invariant |
| Kosaraju.FinishedEdgesFinish | src/by/it/group410971/kozich/lesson13/GraphC.java:82-88 | a vertex whose successors are all visited finishes with its edges inside the visited vertices |
| Kosaraju.SccOf | src/by/it/group410971/kozich/lesson13/GraphC.java:53-55 | the component of r: the vertices that reach r and are reached from it |
| Kosaraju.ClaimedEnds | src/by/it/group410971/kozich/lesson13/GraphC.java:50-57 | before any pop nothing is claimed; after all pops every vertex is |
| Kosaraju.PopClaimed | src/by/it/group410971/kozich/lesson13/GraphC.java:52 | popping a visited vertex claims nothing new |
| Kosaraju.PopFresh | src/by/it/group410971/kozich/lesson13/GraphC.java:51-55 | popping an unvisited vertex claims exactly its component, disjoint from what was visited, and every unvisited vertex reaching it is in that component |
| Kosaraju.SccClosed | src/by/it/group410971/kozich/lesson13/GraphC.java:96-103 | a reversed edge out of the component to an unvisited vertex stays in the component |
| Kosaraju.Collected | src/by/it/group410971/kozich/lesson13/GraphC.java:92-104 | the backwards search from r collects all of r's component |
| Kosaraju.SccDisjoint | src/by/it/group410971/kozich/lesson13/GraphC.java:53-55 | two components are equal or disjoint |
| Kosaraju.SccOfMember | src/by/it/group410971/kozich/lesson13/GraphC.java:53-55 | every member of a component has that component as its own |
| HashTable.Threshold | src/by/it/group410971/kozich/lesson11/MyHashSet.java:36 | (int)(capacity * 0.75): three quarters of the capacity, rounded down |
| HashTable.ThresholdGrows | src/by/it/group410971/kozich/lesson11/MyHashSet.java:77 | doubling the capacity raises the threshold |
| HashTable.Spread | src/by/it/group410971/kozich/lesson11/MyHashSet.java:40-46 | h ^ (h >>> 16): a 32-bit value whose high half is the hashCode's |
| HashTable.SpreadInvolution | src/by/it/group410971/kozich/lesson11/MyHashSet.java:45 | spreading twice gives the hashCode back, so spreading loses nothing |
| HashTable.IndexFor | src/by/it/group410971/kozich/lesson11/MyHashSet.java:49-51 | hash & (length - 1) is a bucket index below length |
| HashTable.IndexForIsMod | src/by/it/group410971/kozich/lesson11/MyHashSet.java:49-51 | for a power-of-two length the mask is the remainder modulo the length |
| HashTable.AndMask | src/by/it/group410971/kozich/lesson11/MyHashSet.java:50 | a & (2^k - 1) == a mod 2^k |
| HashTable.XorInverse | src/by/it/group410971/kozich/lesson11/MyHashSet.java:45 | xor with b twice gives a back |
| HashTable.Lookup | src/by/it/group410971/kozich/lesson11/MyHashSet.java:163-180 | in a well-placed table x is an element exactly when its own bucket's chain holds it |
| HashTable.Scan | src/by/it/group410971/kozich/lesson11/MyHashSet.java:112-118 | the chain walk stops at the first node with the same hash and an equal item, or at the end |
| HashTable.ScanFinds | src/by/it/group410971/kozich/lesson11/MyHashSet.java:113-118 | the walk finds x exactly when the chain holds it |
| HashTable.Prepend | src/by/it/group410971/kozich/lesson11/MyHashSet.java:121 | a new node at the head of x's bucket keeps the table well placed and without repeats and adds exactly x |
| HashTable.Unlink | src/by/it/group410971/kozich/lesson11/MyHashSet.java:144-154 | splicing the matching node out keeps the table well placed and removes exactly its item |
| HashTable.NodeCountIsSize | src/by/it/group410971/kozich/lesson11/MyHashSet.java:122 | in a well-formed table the number of nodes is the number of distinct elements, which is what size counts |
| HashTable.EmptyTable | src/by/it/group410971/kozich/lesson11/MyHashSet.java:33-37 | a table of empty chains is well formed and holds nothing |
| HashTable.Transfer | src/by/it/group410971/kozich/lesson11/MyHashSet.java:66-72 | moving one old chain to the heads of the new buckets keeps the new table well placed and adds that chain's items |
| HashTable.Rehash | src/by/it/group410971/kozich/lesson11/MyHashSet.java:55-78 | resize yields a fresh table of the new capacity, well placed, holding exactly the old elements |
| MyHashSet.MyHashSet.constructor | src/by/it/group410971/kozich/lesson11/MyHashSet.java:33-37 | an empty set over 16 buckets |
| MyHashSet.MyHashSet.Resize | src/by/it/group410971/kozich/lesson11/MyHashSet.java:55-78 | the table doubles, the threshold becomes three quarters of the new capacity, and the contents and size do not change |
| MyHashSet.MyHashSet.Size | src/by/it/group410971/kozich/lesson11/MyHashSet.java:85-87 | the number of elements |
| MyHashSet.MyHashSet.IsEmpty | src/by/it/group410971/kozich/lesson11/MyHashSet.java:98-100 | true exactly when the set holds nothing |
| MyHashSet.MyHashSet.Clear | src/by/it/group410971/kozich/lesson11/MyHashSet.java:90-95 | the set becomes empty and keeps its table |
| MyHashSet.MyHashSet.Add | src/by/it/group410971/kozich/lesson11/MyHashSet.java:103-130 | null throws NullPointerException and changes nothing; otherwise returns whether the element was absent and the contents gain it; the set stays well formed through the resize |
| MyHashSet.MyHashSet.Locate | src/by/it/group410971/kozich/lesson11/MyHashSet.java:108-118 | the element's hash, its bucket, and the position of its node there, which is the chain's length exactly when it is absent |
| MyHashSet.MyHashSet.CanGrow | src/by/it/group410971/kozich/lesson11/MyHashSet.java:125-127 | below the add bound a full table can still double |
| MyHashSet.MyHashSet.Link | src/by/it/group410971/kozich/lesson11/MyHashSet.java:121-122 | the new node goes to the head of its bucket and size grows by one |
| MyHashSet.MyHashSet.Remove | src/by/it/group410971/kozich/lesson11/MyHashSet.java:133-160 | null throws NullPointerException; otherwise returns whether the element was present, and the contents lose it |
| MyHashSet.MyHashSet.Contains | src/by/it/group410971/kozich/lesson11/MyHashSet.java:163-180 | null throws NullPointerException; otherwise whether the element is present |
| MyLinkedHashSet.LinkLast | src/by/it/group410971/kozich/lesson11/MyLinkedHashSet.java:90-98 | linkNodeLast: the order gains x at the tail, everything before it kept, and stays without repeats |
| MyLinkedHashSet.Unlinked | src/by/it/group410971/kozich/lesson11/MyLinkedHashSet.java:101-118 | unlinkNode: x leaves the order at its position and the rest keeps its order; a missing x changes nothing |
| MyLinkedHashSet.UnlinkedAt | src/by/it/group410971/kozich/lesson11/MyLinkedHashSet.java:101-118 | unlinking the element at position i drops exactly that position |
| MyLinkedHashSet.NoDupLength | src/by/it/group410971/kozich/lesson11/MyLinkedHashSet.java:148-150 | an order without repeats is as long as the set of its members |
| MyLinkedHashSet.MyLinkedHashSet.OrderIsTable | src/by/it/group410971/kozich/lesson11/MyLinkedHashSet.java:25-30 | the before/after chain visits each element of the buckets exactly once, and size is its length |
| MyLinkedHashSet.MyLinkedHashSet.constructor | src/by/it/group410971/kozich/lesson11/MyLinkedHashSet.java:40-46 | an empty set over 16 buckets with an empty order |
| MyLinkedHashSet.MyLinkedHashSet.Resize | src/by/it/group410971/kozich/lesson11/MyLinkedHashSet.java:64-87 | the table doubles and the threshold follows; the insertion order and size are untouched |
| MyLinkedHashSet.MyLinkedHashSet.Size | src/by/it/group410971/kozich/lesson11/MyLinkedHashSet.java:148-150 | the number of elements |
| MyLinkedHashSet.MyLinkedHashSet.IsEmpty | src/by/it/group410971/kozich/lesson11/MyLinkedHashSet.java:164-166 | true exactly when the order is empty |
| MyLinkedHashSet.MyLinkedHashSet.Clear | src/by/it/group410971/kozich/lesson11/MyLinkedHashSet.java:153-161 | the set and its order become empty |
| MyLinkedHashSet.MyLinkedHashSet.Locate | src/by/it/group410971/kozich/lesson11/MyLinkedHashSet.java:174-184 | the element's hash, its bucket, and the position of its node there, which is the chain's length exactly when it is absent |
| MyLinkedHashSet.MyLinkedHashSet.Add | src/by/it/group410971/kozich/lesson11/MyLinkedHashSet.java:169-200 | null throws NullPointerException; a present element changes nothing and gives false; a new one is appended to the insertion order and gives true |
| MyLinkedHashSet.MyLinkedHashSet.CanGrow | src/by/it/group410971/kozich/lesson11/MyLinkedHashSet.java:195-197 | below the add bound a full table can still double |
| MyLinkedHashSet.MyLinkedHashSet.Link | src/by/it/group410971/kozich/lesson11/MyLinkedHashSet.java:187-192 | the node heads its bucket and becomes the tail of the order |
| MyLinkedHashSet.MyLinkedHashSet.Remove | src/by/it/group410971/kozich/lesson11/MyLinkedHashSet.java:203-233 | null throws NullPointerException; otherwise returns whether the element was present, and it leaves the order with the rest in place |
| MyLinkedHashSet.MyLinkedHashSet.RemoveNode | src/by/it/group410971/kozich/lesson11/MyLinkedHashSet.java:217-225 | the node leaves its bucket and the order chain |
| MyLinkedHashSet.MyLinkedHashSet.Contains | src/by/it/group410971/kozich/lesson11/MyLinkedHashSet.java:236-253 | null throws NullPointerException; otherwise whether the element is present |
| MyLinkedHashSet.MyLinkedHashSet.Iterator | src/by/it/group410971/kozich/lesson11/MyLinkedHashSet.java:305-307 | a fresh iterator at the head of the order with no current element |
| MyLinkedHashSet.LinkedHashSetIterator.constructor | src/by/it/group410971/kozich/lesson11/MyLinkedHashSet.java:315-318 | next is the head and there is no current element |
| MyLinkedHashSet.LinkedHashSetIterator.HasNext | src/by/it/group410971/kozich/lesson11/MyLinkedHashSet.java:321-323 | true exactly when elements remain in insertion order |
| MyLinkedHashSet.LinkedHashSetIterator.Next | src/by/it/group410971/kozich/lesson11/MyLinkedHashSet.java:326-334 | the next element in insertion order, which becomes current; NoSuchElementException past the tail, changing nothing |
| MyLinkedHashSet.LinkedHashSetIterator.Remove | src/by/it/group410971/kozich/lesson11/MyLinkedHashSet.java:337-369 | IllegalStateException without a current element; otherwise the last returned element leaves the set and the walk continues with the element after it |
| MyTreeSet.Trans | src/by/it/group410971/kozich/lesson11/MyTreeSet.java:47-54 | the comparator is transitive on strict order |
| MyTreeSet.Rank | src/by/it/group410971/kozich/lesson11/MyTreeSet.java:58-89 | the number of elements below the key, at most the size: where the key is or would be inserted |
| MyTreeSet.SplitsRank | src/by/it/group410971/kozich/lesson11/MyTreeSet.java:87-88 | a position with everything before it below the key and everything after above is the rank, and the key is absent |
| MyTreeSet.FoundRank | src/by/it/group410971/kozich/lesson11/MyTreeSet.java:82-84 | in an increasing array the position of an element is its rank |
| MyTreeSet.BelowUpTo | src/by/it/group410971/kozich/lesson11/MyTreeSet.java:76-77 | when elements[mid] is below the key so is every element before it, which justifies low = mid + 1 |
| MyTreeSet.AboveFrom | src/by/it/group410971/kozich/lesson11/MyTreeSet.java:78-79 | when elements[mid] is above the key so is every element after it, which justifies high = mid - 1 |
| MyTreeSet.InsertIncreasing | src/by/it/group410971/kozich/lesson11/MyTreeSet.java:92-108 | inserting the key at its insertion point keeps the array increasing |
| MyTreeSet.RemoveIncreasing | src/by/it/group410971/kozich/lesson11/MyTreeSet.java:111-124 | removing any position keeps the array increasing and drops just that element |
| MyTreeSet.MyTreeSet.constructor | src/by/it/group410971/kozich/lesson11/MyTreeSet.java:17-32 | an empty set of 10 slots ordered by the given comparator, or by compareTo without one |
| MyTreeSet.MyTreeSet.EnsureCapacity | src/by/it/group410971/kozich/lesson11/MyTreeSet.java:35-44 | the contents are kept; a too-small array is replaced by a fresh one at least twice as long and at least minCapacity |
| MyTreeSet.MyTreeSet.BinarySearch | src/by/it/group410971/kozich/lesson11/MyTreeSet.java:58-89 | the key's position when present, else -(p + 1) with p its insertion point (the rank); -1 on an empty set |
| MyTreeSet.MyTreeSet.InsertAt | src/by/it/group410971/kozich/lesson11/MyTreeSet.java:92-108 | the element goes in at p (index or -index - 1) and the later elements shift right |
| MyTreeSet.MyTreeSet.RemoveAt | src/by/it/group410971/kozich/lesson11/MyTreeSet.java:111-124 | returns the element at index, which leaves, the later ones shifting left |
| MyTreeSet.MyTreeSet.Size | src/by/it/group410971/kozich/lesson11/MyTreeSet.java:146-148 | the number of elements |
| MyTreeSet.MyTreeSet.IsEmpty | src/by/it/group410971/kozich/lesson11/MyTreeSet.java:159-161 | true exactly when the set is empty |
| MyTreeSet.MyTreeSet.Clear | src/by/it/group410971/kozich/lesson11/MyTreeSet.java:151-156 | the set becomes empty and keeps its array |
| MyTreeSet.MyTreeSet.Add | src/by/it/group410971/kozich/lesson11/MyTreeSet.java:164-191 | null throws NullPointerException; a present element gives false and changes nothing; a new one is inserted at its rank, keeping the array increasing |
| MyTreeSet.MyTreeSet.Remove | src/by/it/group410971/kozich/lesson11/MyTreeSet.java:194-206 | null throws NullPointerException; otherwise returns whether the element was present, and it leaves the set with the rest in order |
| MyTreeSet.MyTreeSet.Contains | src/by/it/group410971/kozich/lesson11/MyTreeSet.java:209-215 | null throws NullPointerException; otherwise whether the element is present |
| MyTreeSet.MyTreeSet.First | src/by/it/group410971/kozich/lesson11/MyTreeSet.java:357-363 | the least element; NoSuchElementException on an empty set |
| MyTreeSet.MyTreeSet.Last | src/by/it/group410971/kozich/lesson11/MyTreeSet.java:366-372 | the greatest element; NoSuchElementException on an empty set |
| MyTreeSet.MyTreeSet.Ceiling | src/by/it/group410971/kozich/lesson11/MyTreeSet.java:375-393 | null throws NullPointerException; otherwise the least element at or above e, null exactly when every element is below e |
| MyTreeSet.MyTreeSet.Floor | src/by/it/group410971/kozich/lesson11/MyTreeSet.java:396-412 | null throws NullPointerException; otherwise the greatest element at or below e, null exactly when every element is above e |
| MyTreeSet.MyTreeSet.ToArray | src/by/it/group410971/kozich/lesson11/MyTreeSet.java:333-335 | a fresh array of the elements in ascending order |
| MyTreeSet.MyTreeSet.Iterator | src/by/it/group410971/kozich/lesson11/MyTreeSet.java:291-293 | a fresh iterator at position 0 with nothing returned yet |
| MyTreeSet.TreeSetIterator.constructor | src/by/it/group410971/kozich/lesson11/MyTreeSet.java:297-298 | cursor 0, lastRet -1 |
| MyTreeSet.TreeSetIterator.HasNext | src/by/it/group410971/kozich/lesson11/MyTreeSet.java:301-303 | true exactly when cursor < size |
| MyTreeSet.TreeSetIterator.Next | src/by/it/group410971/kozich/lesson11/MyTreeSet.java:307-313 | the element at cursor, which then advances with lastRet at the old cursor; NoSuchElementException past the end |
| MyTreeSet.TreeSetIterator.Remove | src/by/it/group410971/kozich/lesson11/MyTreeSet.java:316-330 | IllegalStateException when nothing was returned; otherwise the last returned element leaves and the cursor goes back to its position |
| SearchTree.MapOfAppend | src/by/it/group410971/kozich/lesson12/MyAvlMap.java:205-218 | the map of concatenated in-order entry lists is the union of their maps |
| SearchTree.RemoveCard | src/by/it/group410971/kozich/lesson12/MyAvlMap.java:162 | removing a present key shrinks the map by one |
| SearchTree.AddCard | src/by/it/group410971/kozich/lesson12/MyAvlMap.java:129 | adding an absent key grows the map by one |
| SearchTree.SortedSize | src/by/it/group410971/kozich/lesson12/MyAvlMap.java:293-295 | with strictly increasing keys the map has one entry per in-order element |
| SearchTree.SortedJoin | src/by/it/group410971/kozich/lesson12/MyAvlMap.java:205-218 | keys increasing on both sides of a node with its key between them give an increasing in-order sequence |
| SearchTree.MapOfJoin | src/by/it/group410971/kozich/lesson12/MyAvlMap.java:205-218 | the map of left + node + right when the node's key is not on the right |
| SearchTree.JoinSuccessor | src/by/it/group410971/kozich/lesson12/MyAvlMap.java:176-180 | moving the successor's entry up in place of the root entry gives the map without the root key |
| SearchTree.NodeOrder | src/by/it/group410971/kozich/lesson12/MyAvlMap.java:127-145 | a node is in order exactly when both sides are and its key lies between theirs; its map then joins theirs with its own entry |
| SearchTree.Leftmost | src/by/it/group410971/kozich/lesson12/MyAvlMap.java:119-124 | findMin: the end of the chain of left links |
| SearchTree.LeftmostIsMin | src/by/it/group410971/kozich/lesson12/MyAvlMap.java:119-124 | the leftmost node holds the least key and its value |
| SearchTree.LeftmostFirst | src/by/it/group410971/kozich/lesson12/MyAvlMap.java:119-124 | the leftmost node is the first in-order entry |
| SearchTree.Rightmost | src/by/it/group410971/kozich/lesson12/MyRbMap.java:271-279 | the end of the chain of right links |
| SearchTree.RightmostIsMax | src/by/it/group410971/kozich/lesson12/MyRbMap.java:271-279 | the rightmost node holds the greatest key and its value |
| SearchTree.FindMin | src/by/it/group410971/kozich/lesson12/MyAvlMap.java:119-124 | the loop ends at the leftmost node |
| SearchTree.GetRec | src/by/it/group410971/kozich/lesson12/MyAvlMap.java:188-202 | getRecursive: null, or a node holding key |
| SearchTree.GetFinds | src/by/it/group410971/kozich/lesson12/MyAvlMap.java:188-202 | on an ordered tree the search finds exactly the keys of the map, with their values |
| SearchTree.KeyInLeft | src/by/it/group410971/kozich/lesson12/MyAvlMap.java:135-136 | a key below the root's lies in the left side |
| SearchTree.KeyInRight | src/by/it/group410971/kozich/lesson12/MyAvlMap.java:137-138 | a key above the root's lies in the right side |
| SearchTree.ReplaceHere | src/by/it/group410971/kozich/lesson12/MyAvlMap.java:139-142 | a new value at the root sets that key's value and keeps the order |
| SearchTree.SetLeft | src/by/it/group410971/kozich/lesson12/MyAvlMap.java:135-136 | a left side that took the key keeps the node in order and gives the whole map the key |
| SearchTree.SetRight | src/by/it/group410971/kozich/lesson12/MyAvlMap.java:137-138 | a right side that took the key keeps the node in order and gives the whole map the key |
| SearchTree.DropLeft | src/by/it/group410971/kozich/lesson12/MyAvlMap.java:157-158 | a left side that lost the key keeps the node in order and drops the key from the whole map |
| SearchTree.DropRight | src/by/it/group410971/kozich/lesson12/MyAvlMap.java:159-160 | a right side that lost the key keeps the node in order and drops the key from the whole map |
| SearchTree.SuccessorOrder | src/by/it/group410971/kozich/lesson12/MyAvlMap.java:176-180 | copying the successor up and deleting it from the right side keeps the node in order and drops the root key |
| SearchTree.RotateLeftInOrder | src/by/it/group410971/kozich/lesson12/MyAvlMap.java:69-82 | a left rotation keeps the in-order sequence |
| SearchTree.RotateRightInOrder | src/by/it/group410971/kozich/lesson12/MyAvlMap.java:53-66 | a right rotation keeps the in-order sequence |
| MyAvlMap.Height | src/by/it/group410971/kozich/lesson12/MyAvlMap.java:35-37 | height: 0 for null, else the stored height; under Exact it is the true height (MyAvlMap.Parts, MyAvlMap.Join) |
| MyAvlMap.BalanceFactor | src/by/it/group410971/kozich/lesson12/MyAvlMap.java:40-42 | balanceFactor: 0 for null; with exact heights it lies strictly between minus and plus the node's height |
| MyAvlMap.UpdateHeight | src/by/it/group410971/kozich/lesson12/MyAvlMap.java:45-49 | updateHeight changes only the stored height, which exceeds both children's, and makes the node exact when its children are |
| MyAvlMap.Balance | src/by/it/group410971/kozich/lesson12/MyAvlMap.java:85-116 | balance: the LL, LR, RR or RL rotation when the factor is beyond one; MyAvlMap.BalanceInOrder proves it keeps the in-order sequence and MyAvlMap.BalanceKeeps that it restores the AVL shape |
| MyAvlMap.PutRec | src/by/it/group410971/kozich/lesson12/MyAvlMap.java:127-146 | putRecursive with the found flag; MyAvlMap.PutKeeps proves it keeps the tree AVL, sets exactly this key, flags a new node exactly when the key was absent, and grows by at most one level |
| MyAvlMap.RemoveRec | src/by/it/group410971/kozich/lesson12/MyAvlMap.java:149-185 | removeRecursive, counting one removal; MyAvlMap.RemoveKeeps proves it keeps the tree AVL, drops exactly this key, counts exactly when the key was present, and shrinks by at most one level |
| MyAvlMap.RemoveRecAsWritten | src/by/it/group410971/kozich/lesson12/MyAvlMap.java:149-185 | removeRecursive as written, counting every size-- it executes; MyAvlMap.SameTree proves its tree is RemoveRec's with a count never lower, and MyAvlMap.RemoveCountsTwice exhibits a count of 2 |
| MyAvlMap.RotateRight | src/by/it/group410971/kozich/lesson12/MyAvlMap.java:53-66 | the left child becomes the root, with a right child |
| MyAvlMap.RotateLeft | src/by/it/group410971/kozich/lesson12/MyAvlMap.java:69-82 | the right child becomes the root, with a left child |
| MyAvlMap.RotationsInOrder | src/by/it/group410971/kozich/lesson12/MyAvlMap.java:53-82 | both rotations keep the in-order sequence |
| MyAvlMap.BalanceInOrder | src/by/it/group410971/kozich/lesson12/MyAvlMap.java:85-116 | balance keeps the in-order sequence, hence the order and the content |
| MyAvlMap.Join | src/by/it/group410971/kozich/lesson12/MyAvlMap.java:46-50 | a node over two AVL sides at most one level apart, its height recomputed, is AVL |
| MyAvlMap.Parts | src/by/it/group410971/kozich/lesson12/MyAvlMap.java:36-43 | the sides of an AVL node are AVL, differ in height by at most one, and its height is one more than the taller |
| MyAvlMap.LeftLeft | src/by/it/group410971/kozich/lesson12/MyAvlMap.java:94-96 | the left-left case: one right rotation restores the AVL shape |
| MyAvlMap.LeftRight | src/by/it/group410971/kozich/lesson12/MyAvlMap.java:99-102 | the left-right case: a left then a right rotation restores the AVL shape |
| MyAvlMap.RightRight | src/by/it/group410971/kozich/lesson12/MyAvlMap.java:105-107 | the right-right case: one left rotation restores the AVL shape |
| MyAvlMap.RightLeft | src/by/it/group410971/kozich/lesson12/MyAvlMap.java:110-113 | the right-left case: a right then a left rotation restores the AVL shape |
| MyAvlMap.BalanceShape | src/by/it/group410971/kozich/lesson12/MyAvlMap.java:85-116 | a node whose sides differ by at most two comes out AVL, its height within one of the taller side's plus one |
| MyAvlMap.BalanceKeeps | src/by/it/group410971/kozich/lesson12/MyAvlMap.java:85-116 | balance keeps order and content and restores the AVL shape |
| MyAvlMap.PutLeft | src/by/it/group410971/kozich/lesson12/MyAvlMap.java:135-136 | after the left side took the key, the rebalanced node is AVL and holds the map with the key set |
| MyAvlMap.PutRight | src/by/it/group410971/kozich/lesson12/MyAvlMap.java:137-138 | after the right side took the key, the rebalanced node is AVL and holds the map with the key set |
| MyAvlMap.PutLeaf | src/by/it/group410971/kozich/lesson12/MyAvlMap.java:128-131 | put on an empty tree gives a single AVL leaf holding the key |
| MyAvlMap.PutHere | src/by/it/group410971/kozich/lesson12/MyAvlMap.java:139-142 | a key at the root gets its value replaced in place |
| MyAvlMap.PutKeeps | src/by/it/group410971/kozich/lesson12/MyAvlMap.java:127-145 | putRecursive keeps the tree AVL, sets exactly this key, counts a new node exactly when the key was absent, and grows by at most one level |
| MyAvlMap.RemoveLeft | src/by/it/group410971/kozich/lesson12/MyAvlMap.java:157-158 | after the left side lost the key, the rebalanced node is AVL and holds the map without it |
| MyAvlMap.RemoveRight | src/by/it/group410971/kozich/lesson12/MyAvlMap.java:159-160 | after the right side lost the key, the rebalanced node is AVL and holds the map without it |
| MyAvlMap.RemoveOneChild | src/by/it/group410971/kozich/lesson12/MyAvlMap.java:164-174 | a node with at most one child is replaced by that child, which is AVL and lacks the key |
| MyAvlMap.RemoveTwoChildren | src/by/it/group410971/kozich/lesson12/MyAvlMap.java:175-181 | a node with two children takes its successor's entry and the successor leaves the right side; the result is AVL without the key |
| MyAvlMap.RemoveKeeps | src/by/it/group410971/kozich/lesson12/MyAvlMap.java:149-185 | removeRecursive keeps the tree AVL, drops exactly this key, counts one removal exactly when the key was present, and shrinks by at most one level |
| MyAvlMap.ThreeNodes | src/by/it/group410971/kozich/lesson12/MyAvlMap.java:127-145 | the three-node tree with a and c under b is AVL and maps exactly those keys |
| MyAvlMap.RemoveCountsTwice | src/by/it/group410971/kozich/lesson12/MyAvlMap.java:162-180 | on that tree, removing b as written deletes one key but decrements size twice |
| MyAvlMap.SameTree | src/by/it/group410971/kozich/lesson12/MyAvlMap.java:149-185 | the tree the written code builds is the corrected one; only the count differs, and it is never lower |
| MyAvlMap.MyAvlMap.constructor | src/by/it/group410971/kozich/lesson12/MyAvlMap.java:30-33 | an empty map |
| MyAvlMap.MyAvlMap.Put | src/by/it/group410971/kozich/lesson12/MyAvlMap.java:233-243 | null keys throw NullPointerException; otherwise the key gets the value and the previous value (or null) is returned |
| MyAvlMap.MyAvlMap.Remove | src/by/it/group410971/kozich/lesson12/MyAvlMap.java:246-263 | null keys throw NullPointerException; otherwise the key leaves the map and its value (or null) is returned |
| MyAvlMap.MyAvlMap.Get | src/by/it/group410971/kozich/lesson12/MyAvlMap.java:266-277 | null keys throw NullPointerException; otherwise the key's value, or null |
| MyAvlMap.MyAvlMap.ContainsKey | src/by/it/group410971/kozich/lesson12/MyAvlMap.java:280-290 | null keys throw NullPointerException; otherwise whether the key is present |
| MyAvlMap.MyAvlMap.Size | src/by/it/group410971/kozich/lesson12/MyAvlMap.java:293-295 | the number of keys (with the corrected count) |
| MyAvlMap.MyAvlMap.IsEmpty | src/by/it/group410971/kozich/lesson12/MyAvlMap.java:304-306 | true exactly when there are no keys |
| MyAvlMap.MyAvlMap.Clear | src/by/it/group410971/kozich/lesson12/MyAvlMap.java:298-301 | the map becomes empty |
| MyRbMap.RotateLeft | src/by/it/group410971/kozich/lesson12/MyRbMap.java:45-52 | the right child becomes the root, taking the old root's color, the old root turns red, and the in-order sequence is kept |
| MyRbMap.RotateRight | src/by/it/group410971/kozich/lesson12/MyRbMap.java:55-62 | the left child becomes the root, taking the old root's color, the old root turns red, and the in-order sequence is kept |
| MyRbMap.FlipColors | src/by/it/group410971/kozich/lesson12/MyRbMap.java:65-69 | the node and both children change color; the in-order sequence is kept |
| MyRbMap.Balance | src/by/it/group410971/kozich/lesson12/MyRbMap.java:72-83 | balance keeps the in-order sequence |
| MyRbMap.FixUp | src/by/it/group410971/kozich/lesson12/MyRbMap.java:107-118 | fixUp keeps the in-order sequence |
| MyRbMap.MoveRedLeft | src/by/it/group410971/kozich/lesson12/MyRbMap.java:86-94 | moveRedLeft keeps the in-order sequence |
| MyRbMap.MoveRedRight | src/by/it/group410971/kozich/lesson12/MyRbMap.java:97-104 | moveRedRight keeps the in-order sequence |
| MyRbMap.PushRedLeft | src/by/it/group410971/kozich/lesson12/MyRbMap.java:166-168 | the conditional moveRedLeft before descending left keeps the in-order sequence |
| MyRbMap.LeanRight | src/by/it/group410971/kozich/lesson12/MyRbMap.java:171-173 | the conditional rotateRight before descending right keeps the in-order sequence |
| MyRbMap.PushRedRight | src/by/it/group410971/kozich/lesson12/MyRbMap.java:178-180 | the conditional moveRedRight keeps the in-order sequence |
| MyRbMap.PutRec | src/by/it/group410971/kozich/lesson12/MyRbMap.java:143-161 | putRecursive always returns a node |
| MyRbMap.RepairKeepsLlrb | src/by/it/group410971/kozich/lesson12/MyRbMap.java:72-118 | balance and fixUp leave a valid left-leaning red-black node unchanged |
| MyRbMap.BalanceBlack | src/by/it/group410971/kozich/lesson12/MyRbMap.java:72-83 | balance of a black node over a valid right side and a left side with at most a double red gives a valid tree of the same black height |
| MyRbMap.BalanceRed | src/by/it/group410971/kozich/lesson12/MyRbMap.java:72-83 | balance of a red node over valid sides gives a valid tree or one with a red pair at the top, of the same black height |
| MyRbMap.PutLeaf | src/by/it/group410971/kozich/lesson12/MyRbMap.java:144-147 | put on an empty tree gives a red leaf holding the key |
| MyRbMap.PutLeft | src/by/it/group410971/kozich/lesson12/MyRbMap.java:151-152 | after the left side took the key, the rebalanced node holds the map with the key set and keeps the black height |
| MyRbMap.PutRight | src/by/it/group410971/kozich/lesson12/MyRbMap.java:153-154 | after the right side took the key, the rebalanced node holds the map with the key set and keeps the black height |
| MyRbMap.PutKeeps | src/by/it/group410971/kozich/lesson12/MyRbMap.java:143-161 | putRecursive keeps order and black height, sets exactly this key, counts a new node exactly when it was absent, and leaves a valid tree under a black root |
| MyRbMap.BlackRoot | src/by/it/group410971/kozich/lesson12/MyRbMap.java:307-309 | blackening the root gives a valid tree with the same entries |
| MyRbMap.Recolor | src/by/it/group410971/kozich/lesson12/MyRbMap.java:330-334 | recoloring the root keeps the tree valid and changes the black height by the color |
| MyRbMap.FixUpKeeps | src/by/it/group410971/kozich/lesson12/MyRbMap.java:107-118 | fixUp over two valid sides of equal black height gives a valid tree of the same black height |
| MyRbMap.MoveLeftFlip | src/by/it/group410971/kozich/lesson12/MyRbMap.java:86-87 | moveRedLeft without a borrow makes the left side ready for deletion |
| MyRbMap.MoveLeftBorrow | src/by/it/group410971/kozich/lesson12/MyRbMap.java:88-92 | moveRedLeft borrowing from the right side makes the left side ready for deletion |
| MyRbMap.PushRedLeftReady | src/by/it/group410971/kozich/lesson12/MyRbMap.java:166-168 | after the conditional moveRedLeft the left side is ready for deletion |
| MyRbMap.MinIsLast | src/by/it/group410971/kozich/lesson12/MyRbMap.java:130-132 | a node without a left child in a deletable tree is a single leaf |
| MyRbMap.MinDropped | src/by/it/group410971/kozich/lesson12/MyRbMap.java:138 | deleting the minimum of the left side deletes the minimum of the node |
| MyRbMap.SameLeftmost | src/by/it/group410971/kozich/lesson12/MyRbMap.java:121-126 | trees with the same in-order sequence have the same minimum |
| MyRbMap.DeleteMin | src/by/it/group410971/kozich/lesson12/MyRbMap.java:129-140 | deleteMin keeps the tree valid with the same black height, and removes exactly the least key |
| MyRbMap.RemoveLast | src/by/it/group410971/kozich/lesson12/MyRbMap.java:174-177 | a matching node without a right child is a single leaf, and removing it leaves the empty map |
| MyRbMap.RightRotated | src/by/it/group410971/kozich/lesson12/MyRbMap.java:171-173 | rotating a red left link right keeps the black height and makes the right side deletable |
| MyRbMap.MoveRightFlip | src/by/it/group410971/kozich/lesson12/MyRbMap.java:97-98 | moveRedRight without a rotation makes the right side ready for deletion |
| MyRbMap.MoveRightRotate | src/by/it/group410971/kozich/lesson12/MyRbMap.java:99-102 | moveRedRight with a rotation makes the right side ready for deletion |
| MyRbMap.RightShape | src/by/it/group410971/kozich/lesson12/MyRbMap.java:171-180 | on the right branch the node is prepared so the right side can lose a key |
| MyRbMap.LeftShape | src/by/it/group410971/kozich/lesson12/MyRbMap.java:165-169 | on the left branch the node is prepared so the left side can lose the key |
| MyRbMap.RemoveRec | src/by/it/group410971/kozich/lesson12/MyRbMap.java:164-192 | removeRecursive keeps the tree valid and ordered with the same black height and removes exactly the key, counting one removal |
| MyRbMap.ContainsValueRec | src/by/it/group410971/kozich/lesson12/MyRbMap.java:224-235 | a true answer comes from a node |
| MyRbMap.ContainsValueFinds | src/by/it/group410971/kozich/lesson12/MyRbMap.java:224-235 | containsValueRecursive is true exactly when some key maps to the value |
| MyRbMap.FindFirstKey | src/by/it/group410971/kozich/lesson12/MyRbMap.java:260-268 | null on an empty tree, else the leftmost key |
| MyRbMap.FindLastKey | src/by/it/group410971/kozich/lesson12/MyRbMap.java:271-279 | null on an empty tree, else the rightmost key |
| MyRbMap.CollectKeysLessThan | src/by/it/group410971/kozich/lesson12/MyRbMap.java:238-246 | the result map gains exactly the entries with keys below toKey |
| MyRbMap.CollectKeysGreaterOrEqual | src/by/it/group410971/kozich/lesson12/MyRbMap.java:249-257 | the result map gains exactly the entries with keys at or above fromKey |
| MyRbMap.PrefixBelow | src/by/it/group410971/kozich/lesson12/MyRbMap.java:459-465 | the sorted entries before the first key at or above toKey are exactly the entries below toKey |
| MyRbMap.RootReady | src/by/it/group410971/kozich/lesson12/MyRbMap.java:330-336 | reddening a root with two black children makes the tree deletable |
| MyRbMap.MyRbMap.constructor | src/by/it/group410971/kozich/lesson12/MyRbMap.java:34-37 | an empty map |
| MyRbMap.MyRbMap.Put | src/by/it/group410971/kozich/lesson12/MyRbMap.java:298-311 | null keys throw NullPointerException; otherwise the key gets the value, the previous value (or null) is returned, and the tree stays a valid left-leaning red-black tree |
| MyRbMap.MyRbMap.Remove | src/by/it/group410971/kozich/lesson12/MyRbMap.java:314-342 | null keys throw NullPointerException; otherwise the key leaves the map, its value (or null) is returned, and the tree stays valid |
| MyRbMap.MyRbMap.Get | src/by/it/group410971/kozich/lesson12/MyRbMap.java:345-356 | null keys throw NullPointerException; otherwise the key's value, or null |
| MyRbMap.MyRbMap.ContainsKey | src/by/it/group410971/kozich/lesson12/MyRbMap.java:359-369 | null keys throw NullPointerException; otherwise whether the key is present |
| MyRbMap.MyRbMap.ContainsValue | src/by/it/group410971/kozich/lesson12/MyRbMap.java:372-382 | null throws NullPointerException; otherwise whether some key maps to the value |
| MyRbMap.MyRbMap.Size | src/by/it/group410971/kozich/lesson12/MyRbMap.java:385-387 | the number of keys |
| MyRbMap.MyRbMap.IsEmpty | src/by/it/group410971/kozich/lesson12/MyRbMap.java:396-398 | true exactly when there are no keys |
| MyRbMap.MyRbMap.Clear | src/by/it/group410971/kozich/lesson12/MyRbMap.java:390-393 | the map becomes empty |
| MyRbMap.MyRbMap.EntrySet | src/by/it/group410971/kozich/lesson12/MyRbMap.java:511-524 | the entries in ascending key order, one per key |
| MyRbMap.MyRbMap.KeySet | src/by/it/group410971/kozich/lesson12/MyRbMap.java:481-494 | exactly the keys of the map |
| MyRbMap.MyRbMap.FirstKey | src/by/it/group410971/kozich/lesson12/MyRbMap.java:423-428 | NoSuchElementException on an empty map, else the least key |
| MyRbMap.MyRbMap.LastKey | src/by/it/group410971/kozich/lesson12/MyRbMap.java:431-436 | NoSuchElementException on an empty map, else the greatest key |
| MyRbMap.MyRbMap.HeadMap | src/by/it/group410971/kozich/lesson12/MyRbMap.java:401-409 | null throws NullPointerException; otherwise a fresh map of the entries with keys below toKey |
| MyRbMap.MyRbMap.TailMap | src/by/it/group410971/kozich/lesson12/MyRbMap.java:412-420 | null throws NullPointerException; otherwise a fresh map of the entries with keys at or above fromKey |
| MyRbMap.MyRbMap.SubMap | src/by/it/group410971/kozich/lesson12/MyRbMap.java:448-467 | null keys throw NullPointerException, fromKey > toKey throws IllegalArgumentException; otherwise a fresh map of the entries with fromKey <= key < toKey |
| MySplayMap.PlugSplit | src/by/it/group410971/kozich/lesson12/MySplayMap.java:36-70 | the tree rebuilt from a subtree and its path to the root lists the entries left of the path, the subtree's, then those right of it |
| MySplayMap.PlugSnoc | src/by/it/group410971/kozich/lesson12/MySplayMap.java:173-189 | one more step down along a path rebuilds the same whole tree |
| MySplayMap.PlugOrdered | src/by/it/group410971/kozich/lesson12/MySplayMap.java:85-102 | a subtree of an ordered tree is ordered |
| MySplayMap.PlugHas | src/by/it/group410971/kozich/lesson12/MySplayMap.java:146-170 | along a search path for key, the key is in the whole tree exactly when it is in the subtree reached, with the same value |
| MySplayMap.PlugSet | src/by/it/group410971/kozich/lesson12/MySplayMap.java:105-143 | setting the key in the subtree reached by its search path sets it in the whole tree and keeps the order |
| MySplayMap.Zig | src/by/it/group410971/kozich/lesson12/MySplayMap.java:36-70 | zig rotates x above its parent: x keeps its entry, the path loses one step, and the in-order sequence of the whole tree is kept |
| MySplayMap.Down | src/by/it/group410971/kozich/lesson12/MySplayMap.java:173-189 | stepping from a node to a child keeps the whole tree and records the step on the path |
| MySplayMap.ZigZig | src/by/it/group410971/kozich/lesson12/MySplayMap.java:73-76 | zigZig (parent, then x) lifts x two levels and keeps the in-order sequence |
| MySplayMap.ZigZag | src/by/it/group410971/kozich/lesson12/MySplayMap.java:79-82 | zigZag (x twice) lifts x two levels and keeps the in-order sequence |
| MySplayMap.EmptyMap | src/by/it/group410971/kozich/lesson12/MySplayMap.java:507-516 | the tree is empty exactly when the map is |
| MySplayMap.SortedRemove | src/by/it/group410971/kozich/lesson12/MySplayMap.java:210-247 | dropping one entry from a sorted entry list keeps it sorted and drops exactly that key |
| MySplayMap.BelowIs | src/by/it/group410971/kozich/lesson12/MySplayMap.java:250-294 | the descent of findLower and findFloor yields the greatest key below key (inclusive or not), or null when none |
| MySplayMap.AboveIs | src/by/it/group410971/kozich/lesson12/MySplayMap.java:297-341 | the descent of findCeiling and findHigher yields the least key above key (inclusive or not), or null when none |
| MySplayMap.FindMinPath | src/by/it/group410971/kozich/lesson12/MySplayMap.java:192-198 | findMin reaches the leftmost node, which has no left child, along a path that rebuilds the tree |
| MySplayMap.FindMaxPath | src/by/it/group410971/kozich/lesson12/MySplayMap.java:201-207 | findMax reaches the rightmost node, which has no right child, along a path of right steps |
| MySplayMap.RightSpineAfter | src/by/it/group410971/kozich/lesson12/MySplayMap.java:201-207 | a path of right steps only has no entries after the node it reaches, so findMax's node is the greatest |
| MySplayMap.JoinUnderMax | src/by/it/group410971/kozich/lesson12/MySplayMap.java:226-241 | hanging the right subtree under the maximum of the left subtree, lifted to the top, gives an ordered tree without the root key |
| MySplayMap.Unlink | src/by/it/group410971/kozich/lesson12/MySplayMap.java:221-245 | the root leaves and its subtrees are joined: the result is ordered and lacks exactly the root's key |
| MySplayMap.MySplayMap.constructor | src/by/it/group410971/kozich/lesson12/MySplayMap.java:30-33 | an empty map |
| MySplayMap.MySplayMap.Splay | src/by/it/group410971/kozich/lesson12/MySplayMap.java:85-102 | x rises to the root with its entry, and the in-order sequence and the contents are unchanged |
| MySplayMap.MySplayMap.FindWithoutSplay | src/by/it/group410971/kozich/lesson12/MySplayMap.java:173-189 | the node holding key, with its value, or none exactly when the key is absent |
| MySplayMap.MySplayMap.Insert | src/by/it/group410971/kozich/lesson12/MySplayMap.java:105-143 | the key gets the value, the rest of the map is kept, and the key's node ends at the root |
| MySplayMap.MySplayMap.Find | src/by/it/group410971/kozich/lesson12/MySplayMap.java:146-170 | the node holding key, or null exactly when absent; the found or last visited node is splayed and the contents do not change |
| MySplayMap.MySplayMap.Delete | src/by/it/group410971/kozich/lesson12/MySplayMap.java:210-247 | the key leaves the map and every other entry is kept |
| MySplayMap.MySplayMap.FindBelow | src/by/it/group410971/kozich/lesson12/MySplayMap.java:250-294 | findLower/findFloor return the greatest key below (or at) key, or null, splaying it to the root; contents unchanged |
| MySplayMap.MySplayMap.FindAbove | src/by/it/group410971/kozich/lesson12/MySplayMap.java:297-341 | findCeiling/findHigher return the least key above (or at) key, or null, splaying it to the root; contents unchanged |
| MySplayMap.MySplayMap.Put | src/by/it/group410971/kozich/lesson12/MySplayMap.java:408-418 | null keys throw NullPointerException; otherwise the key gets the value at the root and the previous value (or null) is returned |
| MySplayMap.MySplayMap.Remove | src/by/it/group410971/kozich/lesson12/MySplayMap.java:421-438 | null keys throw NullPointerException; otherwise the key leaves the map and its value (or null) is returned |
| MySplayMap.MySplayMap.Get | src/by/it/group410971/kozich/lesson12/MySplayMap.java:441-452 | null keys throw NullPointerException; otherwise the key's value, or null; contents unchanged |
| MySplayMap.MySplayMap.ContainsKey | src/by/it/group410971/kozich/lesson12/MySplayMap.java:455-465 | null keys throw NullPointerException; otherwise whether the key is present; contents unchanged |
| MySplayMap.MySplayMap.FirstKey | src/by/it/group410971/kozich/lesson12/MySplayMap.java:507-516 | NoSuchElementException on an empty map, else the least key, now at the root |
| MySplayMap.MySplayMap.LastKey | src/by/it/group410971/kozich/lesson12/MySplayMap.java:519-528 | NoSuchElementException on an empty map, else the greatest key, now at the root |
| MySplayMap.MySplayMap.LowerKey | src/by/it/group410971/kozich/lesson12/MySplayMap.java:531-537 | null throws NullPointerException; otherwise the greatest key strictly below, or null when none |
| MySplayMap.MySplayMap.FloorKey | src/by/it/group410971/kozich/lesson12/MySplayMap.java:540-546 | null throws NullPointerException; otherwise the greatest key at or below, or null when none |
| MySplayMap.MySplayMap.CeilingKey | src/by/it/group410971/kozich/lesson12/MySplayMap.java:549-555 | null throws NullPointerException; otherwise the least key at or above, or null when none |
| MySplayMap.MySplayMap.HigherKey | src/by/it/group410971/kozich/lesson12/MySplayMap.java:558-564 | null throws NullPointerException; otherwise the least key strictly above, or null when none |
| HeapMax.Swap | src/by/it/group410971/kozich/lesson03/C_HeapMax.java:101-105 | swap exchanges two slots and keeps every other slot and the multiset of elements |
| HeapMax.UpStep | src/by/it/group410971/kozich/lesson03/C_HeapMax.java:73-80 | a sift-up swap with a smaller parent moves the only out-of-order edge one level up |
| HeapMax.UpDone | src/by/it/group410971/kozich/lesson03/C_HeapMax.java:73-80 | sift-up stopping at the root or below a parent that is not smaller leaves a heap |
| HeapMax.Children | src/by/it/group410971/kozich/lesson03/C_HeapMax.java:55-56 | the nodes whose parent (c - 1) / 2 is i are exactly 2i + 1 and 2i + 2 |
| HeapMax.DownStep | src/by/it/group410971/kozich/lesson03/C_HeapMax.java:52-70 | a sift-down swap with the larger child moves the only out-of-order node one level down |
| HeapMax.DownEdge | src/by/it/group410971/kozich/lesson03/C_HeapMax.java:52-70 | after that swap every edge not below the new position is in order |
| HeapMax.DownDone | src/by/it/group410971/kozich/lesson03/C_HeapMax.java:64 | sift-down stopping where no child is larger leaves a heap |
| HeapMax.RootIsMax | src/by/it/group410971/kozich/lesson03/C_HeapMax.java:87-97 | in a heap every element is at most the root |
| HeapMax.MaxHeap.constructor | src/by/it/group410971/kozich/lesson03/C_HeapMax.java:48-49 | an empty heap |
| HeapMax.MaxHeap.SwapAt | src/by/it/group410971/kozich/lesson03/C_HeapMax.java:101-105 | the list becomes the swapped list |
| HeapMax.MaxHeap.SiftDown | src/by/it/group410971/kozich/lesson03/C_HeapMax.java:52-70 | from a heap with one node possibly too small, a heap with the same elements |
| HeapMax.MaxHeap.SiftUp | src/by/it/group410971/kozich/lesson03/C_HeapMax.java:73-80 | from a heap with one node possibly too large, a heap with the same elements |
| HeapMax.MaxHeap.Insert | src/by/it/group410971/kozich/lesson03/C_HeapMax.java:83-86 | the heap stays a heap and gains exactly the value |
| HeapMax.MaxHeap.ExtractMax | src/by/it/group410971/kozich/lesson03/C_HeapMax.java:89-98 | null exactly on an empty heap, which is unchanged; otherwise a maximum of the heap, which loses exactly that element and stays a heap |
| HeapMax.Largest | src/by/it/group410971/kozich/lesson03/C_HeapMax.java:89-98 | the reference maximum of the pending values: an element at least as large as every other |
| HeapMax.Advance | src/by/it/group410971/kozich/lesson03/C_HeapMax.java:29-43 | one pass of the loop keeps "outputs so far followed by the outputs of the rest" equal to the outputs of the whole input |
| HeapMax.Finished | src/by/it/group410971/kozich/lesson03/C_HeapMax.java:29-30 | when count commands were recognised or no line is left, the outputs so far are all of them |
| HeapMax.ExtractAgrees | src/by/it/group410971/kozich/lesson03/C_HeapMax.java:32-33 | what extractMax returns is what the reference semantics emits for the pending values |
| HeapMax.FindMaxValue | src/by/it/group410971/kozich/lesson03/C_HeapMax.java:21-45 | the result is 0 raised to the largest non-null value extractMax returns over the recognised commands |
| HeapMax.Step | src/by/it/group410971/kozich/lesson03/C_HeapMax.java:31-42 | one recognised command against the heap emits what the reference semantics emits and updates the running maximum |
| HeapMax.Next | src/by/it/group410971/kozich/lesson03/C_HeapMax.java:29-43 | one loop pass keeps the heap valid and the outputs accounted for |
| HeapMax.Drive | src/by/it/group410971/kozich/lesson03/C_HeapMax.java:28-44 | the loop over a fresh heap returns the maximum of the reference outputs |
| Huffman.Go | src/by/it/group410971/kozich/lesson03/B_Huffman.java:40-48 | the loop from a given buffer: one character each time buffer + next bit is a code; Huffman.OneCode, Huffman.DecodeShorter and Huffman.TrailingDropped state what it emits |
| Huffman.Decode | src/by/it/group410971/kozich/lesson03/B_Huffman.java:40-50 | the loop from an empty buffer; Huffman.DecodeConcat proves the round trip for a prefix-free table, Huffman.DecodeWithTrailer that trailing bits add nothing |
| Huffman.Codes | src/by/it/group410971/kozich/lesson03/B_Huffman.java:29-35 | the codes of the pairs read, in input order |
| Huffman.Table | src/by/it/group410971/kozich/lesson03/B_Huffman.java:28-35 | the map holds exactly the codes read, each mapped to the character of the last pair with that code |
| Huffman.OneCode | src/by/it/group410971/kozich/lesson03/B_Huffman.java:42-49 | with a prefix-free table, the bits completing a code emit exactly its character and empty the buffer |
| Huffman.DecodeConcat | src/by/it/group410971/kozich/lesson03/B_Huffman.java:21-52 | round trip: decoding the concatenated codes of a text gives the text back |
| Huffman.DecodeShorter | src/by/it/group410971/kozich/lesson03/B_Huffman.java:42-49 | every emitted character consumed at least one bit |
| Huffman.TrailingDropped | src/by/it/group410971/kozich/lesson03/B_Huffman.java:42-49 | bits that never complete a code emit nothing |
| Huffman.DecodeWithTrailer | src/by/it/group410971/kozich/lesson03/B_Huffman.java:42-52 | a text followed by bits completing no code decodes to the text alone |
| Huffman.DecodeText | src/by/it/group410971/kozich/lesson03/B_Huffman.java:21-52 | decode returns the reference decoding of the encoded string under the table built from the pairs |
| Huffman.Run | src/by/it/group410971/kozich/lesson03/B_Huffman.java:41-49 | the bit loop returns the reference decoding |
| JavaString.CompareTo | src/by/it/group410971/kozich/lesson13/GraphC.java:69 | String.compareTo is 0 exactly when the strings are equal |
| JavaString.CompareFlip | src/by/it/group410971/kozich/lesson13/GraphC.java:60-70 | swapping the operands negates compareTo, so the order is antisymmetric |
| JavaString.LessTotal | src/by/it/group410971/kozich/lesson13/GraphC.java:60-70 | of two different strings exactly one comes first |
| JavaString.LeqNotLess | src/by/it/group410971/kozich/lesson13/GraphA.java:82 | a <= b exactly when b does not come before a |
| JavaString.PrefixLess | src/by/it/group410971/kozich/lesson13/GraphA.java:82 | a proper prefix comes before the longer string |
| JavaString.LessTrans | src/by/it/group410971/kozich/lesson13/GraphA.java:82 | the string order is transitive |
| JavaString.LeqTrans | src/by/it/group410971/kozich/lesson13/GraphA.java:82 | the non-strict string order is transitive |
| JavaString.AscendingDistinct | src/by/it/group410971/kozich/lesson13/GraphA.java:12 | a TreeSet's ascending list holds each element once |
| JavaString.AscendingUnique | src/by/it/group410971/kozich/lesson13/GraphC.java:53 | a TreeSet is determined by its elements: two ascending lists with the same elements are equal |
| JavaString.TreeAdd | src/by/it/group410971/kozich/lesson13/GraphA.java:17-18 | TreeSet.add keeps the list ascending, adds exactly x, and changes nothing when x is present |
| JavaString.Insert | src/by/it/group410971/kozich/lesson13/GraphA.java:102 | inserting into a sorted list keeps it sorted and adds x to the multiset |
| JavaString.SortList | src/by/it/group410971/kozich/lesson13/GraphA.java:82 | Collections.sort yields a non-decreasing permutation of the list |
| JavaString.SortListElems | src/by/it/group410971/kozich/lesson13/GraphA.java:102 | sorting keeps exactly the elements |
| JavaString.SortedHead | src/by/it/group410971/kozich/lesson13/GraphA.java:102 | the head of a sorted list comes before or equals each element |
| JavaString.SortedTail | src/by/it/group410971/kozich/lesson13/GraphA.java:102 | the tail of a sorted list is sorted and holds the other elements |
| JavaString.SortedUnique | src/by/it/group410971/kozich/lesson13/GraphA.java:82 | two sorted lists with the same elements, counted with multiplicity, are equal |
| JavaString.SortListSame | src/by/it/group410971/kozich/lesson13/GraphA.java:102 | Collections.sort gives the same list for any two lists with the same elements, so re-sorting a list already sorted in place changes nothing |
| Knapsack.TotalNonNegative | src/by/it/group410971/kozich/lesson08/A_Knapsack.java:40-43 | a choice of non-negative bars weighs at least 0 |
| Knapsack.RepeatWitness | src/by/it/group410971/kozich/lesson08/A_Knapsack.java:45-55 | every weight the repeat table marks is the weight of some multichoice of the bars |
| Knapsack.RepeatComplete | src/by/it/group410971/kozich/lesson08/A_Knapsack.java:45-55 | the weight of every multichoice of the bars is marked in the repeat table |
| Knapsack.RepeatGrows | src/by/it/group410971/kozich/lesson08/A_Knapsack.java:48-55 | one more kind of bar never makes a weight unreachable |
| Knapsack.OnceWitness | src/by/it/group410971/kozich/lesson08/B_Knapsack.java:39-50 | every weight the once table marks is the weight of some set of distinct bars |
| Knapsack.OnceComplete | src/by/it/group410971/kozich/lesson08/B_Knapsack.java:39-50 | the weight of every set of distinct bars is marked in the once table |
| Knapsack.RepeatAnswer | src/by/it/group410971/kozich/lesson08/A_Knapsack.java:35-65 | the answer of A_Knapsack is the weight of some multichoice, and no multichoice within the capacity weighs more |
| Knapsack.OnceAnswer | src/by/it/group410971/kozich/lesson08/B_Knapsack.java:29-60 | the answer of B_Knapsack is the weight of some set of distinct bars, and no such set within the capacity weighs more |
| Knapsack.OnceSample | src/by/it/group410971/kozich/lesson08/B_Knapsack.java:20-24 | W = 10 with bars 1, 4, 8 gives 9 when each bar is used once |
| Knapsack.RepeatSamples | src/by/it/group410971/kozich/lesson08/A_Knapsack.java:20-30 | W = 10 with bars 1, 4, 8 gives 10 and W = 15 with bars 2, 8, 16 gives 14 when bars repeat |
| Knapsack.EvenOnly | src/by/it/group410971/kozich/lesson08/A_Knapsack.java:48-55 | with only even bars, only even weights are reachable |
| Knapsack.MaxWeightRepeat | src/by/it/group410971/kozich/lesson08/A_Knapsack.java:35-65 | getMaxWeight returns the largest weight within W made of bars used any number of times |
| Knapsack.FillRepeat | src/by/it/group410971/kozich/lesson08/A_Knapsack.java:45-55 | the table marks exactly the weights reachable with repeated bars |
| Knapsack.SweepUp | src/by/it/group410971/kozich/lesson08/A_Knapsack.java:49-54 | the ascending sweep for bar i extends the table from i bars to i + 1, allowing reuse |
| Knapsack.MaxWeightOnce | src/by/it/group410971/kozich/lesson08/B_Knapsack.java:29-60 | getMaxWeight returns the largest weight within W made of distinct bars |
| Knapsack.FillOnce | src/by/it/group410971/kozich/lesson08/B_Knapsack.java:39-50 | the table marks exactly the weights reachable with each bar at most once |
| Knapsack.SweepDown | src/by/it/group410971/kozich/lesson08/B_Knapsack.java:43-49 | the descending sweep for bar i extends the table from i bars to i + 1, each at most once |
| Knapsack.Largest | src/by/it/group410971/kozich/lesson08/A_Knapsack.java:57-64 | the final scan returns the largest marked weight up to W |
| ListB.InsertAllAt | src/by/it/group410971/kozich/lesson09/ListB.java:220-247 | the list with the collection spliced in before i: the prefix, then the collection, then the rest shifted by its length |
| ListB.RemoveInserted | src/by/it/group410971/kozich/lesson09/ListB.java:69-113 | remove(i) after add(i, x) gives the list back |
| ListB.InsertOne | src/by/it/group410971/kozich/lesson09/ListB.java:220-247 | addAll(i, [x]) is add(i, x) |
| ListB.InsertAllCut | src/by/it/group410971/kozich/lesson09/ListB.java:220-247 | the spliced collection occupies [i, i + size of c), and cutting it out gives the list back |
| ListB.RemoveFirstMultiset | src/by/it/group410971/kozich/lesson09/ListB.java:116-124 | remove(Object) takes exactly one occurrence of x out of the multiset |
| ListB.FirstBeforeLast | src/by/it/group410971/kozich/lesson09/ListB.java:153-186 | indexOf is at most lastIndexOf, and they coincide exactly when x occurs once |
| ListB.MultisetAround | src/by/it/group410971/kozich/lesson09/ListB.java:69-89 | the multiset of the list is that of the prefix, the element at i, and the suffix |
| ListB.Sift | src/by/it/group410971/kozich/lesson09/ListB.java:250-281 | what removeAll or retainAll keeps is no longer than the list |
| ListB.SiftMembers | src/by/it/group410971/kozich/lesson09/ListB.java:250-281 | the kept list holds exactly the elements whose membership in c is the kept one |
| ListB.SiftSplit | src/by/it/group410971/kozich/lesson09/ListB.java:250-281 | what removeAll keeps and what retainAll keeps make up the whole list |
| ListB.SiftTwice | src/by/it/group410971/kozich/lesson09/ListB.java:250-281 | removeAll and retainAll are idempotent |
| ListB.SiftFrom | src/by/it/group410971/kozich/lesson09/ListB.java:256-262 | sifting a suffix one element longer keeps or drops just that element |
| ListB.SiftKeepsAll | src/by/it/group410971/kozich/lesson09/ListB.java:250-281 | the list is kept whole, so the result is false, exactly when every element has the kept membership |
| ListB.SiftStep | src/by/it/group410971/kozich/lesson09/ListB.java:256-262 | one backward step of the removal loop keeps "prefix + sifted suffix" as the list |
| ListB.IsInsertAt | src/by/it/group410971/kozich/lesson09/ListB.java:97-113 | a list agreeing with add(i, x) slot by slot is add(i, x) |
| ListB.IsRemoveAt | src/by/it/group410971/kozich/lesson09/ListB.java:69-89 | a list agreeing with remove(i) slot by slot is remove(i) |
| ListB.IsInsertAllAt | src/by/it/group410971/kozich/lesson09/ListB.java:220-247 | a list agreeing with addAll(i, c) slot by slot is addAll(i, c) |
| ListB.ShiftDown | src/by/it/group410971/kozich/lesson09/ListB.java:79-81 | the left shift of remove(int): the slots above index move one down, the others are kept |
| ListB.ShiftUp | src/by/it/group410971/kozich/lesson09/ListB.java:235-238 | the right shift of addAll(int, c): the slots from index move up by shift, those below are kept |
| ListB.InsertIn | src/by/it/group410971/kozich/lesson09/ListB.java:105-112 | opening a gap and writing e gives add(index, e) of the first n slots |
| ListB.SpliceIn | src/by/it/group410971/kozich/lesson09/ListB.java:232-246 | opening a gap and copying the collection gives addAll(index, c) of the first n slots |
| ListB.ListB.constructor | src/by/it/group410971/kozich/lesson09/ListB.java:18-21 | an empty list over an array of DEFAULT_CAPACITY = 10 slots |
| ListB.ListB.EnsureCapacity | src/by/it/group410971/kozich/lesson09/ListB.java:24-37 | the array grows only when shorter than minCapacity, to twice its length or minCapacity if more; the elements are kept |
| ListB.ListB.Add | src/by/it/group410971/kozich/lesson09/ListB.java:61-66 | add appends e and returns true |
| ListB.ListB.RemoveIndex | src/by/it/group410971/kozich/lesson09/ListB.java:69-89 | IndexOutOfBoundsException exactly outside [0, size), with no change; otherwise the element at index, removed |
| ListB.ListB.Size | src/by/it/group410971/kozich/lesson09/ListB.java:92-94 | the number of elements |
| ListB.ListB.AddAt | src/by/it/group410971/kozich/lesson09/ListB.java:97-113 | IndexOutOfBoundsException exactly outside [0, size], with no change; otherwise e inserted before index |
| ListB.ListB.RemoveElement | src/by/it/group410971/kozich/lesson09/ListB.java:116-124 | true exactly when x was present, and then its first occurrence is removed; otherwise no change |
| ListB.ListB.Set | src/by/it/group410971/kozich/lesson09/ListB.java:127-136 | IndexOutOfBoundsException exactly outside [0, size); otherwise the slot is replaced and its old element returned |
| ListB.ListB.IsEmpty | src/by/it/group410971/kozich/lesson09/ListB.java:139-141 | true exactly when the list is empty |
| ListB.ListB.Clear | src/by/it/group410971/kozich/lesson09/ListB.java:144-150 | the list becomes empty over the same array |
| ListB.ListB.IndexOfElement | src/by/it/group410971/kozich/lesson09/ListB.java:153-160 | the first position holding x, or -1 |
| ListB.ListB.Get | src/by/it/group410971/kozich/lesson09/ListB.java:163-171 | IndexOutOfBoundsException exactly outside [0, size); otherwise the element at index |
| ListB.ListB.Contains | src/by/it/group410971/kozich/lesson09/ListB.java:174-176 | true exactly when x is in the list |
| ListB.ListB.LastIndexOfElement | src/by/it/group410971/kozich/lesson09/ListB.java:179-186 | the last position holding x, or -1 |
| ListB.ListB.ContainsAll | src/by/it/group410971/kozich/lesson09/ListB.java:193-200 | NullPointerException for a null collection; otherwise whether every element of c is in the list |
| ListB.ListB.AddAll | src/by/it/group410971/kozich/lesson09/ListB.java:203-217 | false with no change for a null or empty c; otherwise c appended and true |
| ListB.ListB.AddAllAt | src/by/it/group410971/kozich/lesson09/ListB.java:220-247 | IndexOutOfBoundsException exactly outside [0, size]; false with no change for a null or empty c; otherwise c spliced in before index |
| ListB.ListB.SiftInPlace | src/by/it/group410971/kozich/lesson09/ListB.java:256-262 | the backward loop leaves exactly the elements whose membership in c is the kept one, and reports whether anything was removed |
| ListB.ListB.RemoveAll | src/by/it/group410971/kozich/lesson09/ListB.java:250-264 | false with no change for a null or empty c; otherwise every element in c is removed, and the result says whether any was |
| ListB.ListB.RetainAll | src/by/it/group410971/kozich/lesson09/ListB.java:267-281 | false with no change for a null c; otherwise every element not in c is removed, and the result says whether any was |
| ListB.ListB.SubList | src/by/it/group410971/kozich/lesson09/ListB.java:288-300 | IndexOutOfBoundsException exactly for a bad range; otherwise a new list holding [from, to) |
| ListB.ListB.ToArray | src/by/it/group410971/kozich/lesson09/ListB.java:318-324 | a new array holding exactly the elements, in order |
| ListC.ListC.constructor | src/by/it/group410971/kozich/lesson09/ListC.java:18-21 | an empty list over an array of DEFAULT_CAPACITY = 10 slots |
| ListC.ListC.EnsureCapacity | src/by/it/group410971/kozich/lesson09/ListC.java:24-37 | the array grows only when shorter than minCapacity, to twice its length or minCapacity if more; the elements are kept |
| ListC.ListC.Add | src/by/it/group410971/kozich/lesson09/ListC.java:61-66 | add appends e and returns true |
| ListC.ListC.RemoveIndex | src/by/it/group410971/kozich/lesson09/ListC.java:69-89 | IndexOutOfBoundsException exactly outside [0, size), with no change; otherwise the element at index, removed |
| ListC.ListC.Size | src/by/it/group410971/kozich/lesson09/ListC.java:92-94 | the number of elements |
| ListC.ListC.AddAt | src/by/it/group410971/kozich/lesson09/ListC.java:97-113 | IndexOutOfBoundsException exactly outside [0, size], with no change; otherwise e inserted before index |
| ListC.ListC.RemoveElement | src/by/it/group410971/kozich/lesson09/ListC.java:116-124 | true exactly when x was present, and then its first occurrence is removed; otherwise no change |
| ListC.ListC.Set | src/by/it/group410971/kozich/lesson09/ListC.java:127-136 | IndexOutOfBoundsException exactly outside [0, size); otherwise the slot is replaced and its old element returned |
| ListC.ListC.IsEmpty | src/by/it/group410971/kozich/lesson09/ListC.java:139-141 | true exactly when the list is empty |
| ListC.ListC.Clear | src/by/it/group410971/kozich/lesson09/ListC.java:144-150 | the list becomes empty over the same array |
| ListC.ListC.IndexOfElement | src/by/it/group410971/kozich/lesson09/ListC.java:153-160 | the first position holding x, or -1 |
| ListC.ListC.Get | src/by/it/group410971/kozich/lesson09/ListC.java:163-171 | IndexOutOfBoundsException exactly outside [0, size); otherwise the element at index |
| ListC.ListC.Contains | src/by/it/group410971/kozich/lesson09/ListC.java:174-176 | true exactly when x is in the list |
| ListC.ListC.LastIndexOfElement | src/by/it/group410971/kozich/lesson09/ListC.java:179-186 | the last position holding x, or -1 |
| ListC.ListC.ContainsAll | src/by/it/group410971/kozich/lesson09/ListC.java:189-200 | NullPointerException exactly for a null collection; otherwise whether every element of c is in the list |
| ListC.ListC.AddAll | src/by/it/group410971/kozich/lesson09/ListC.java:203-221 | NullPointerException exactly for a null c; false with no change for an empty c; otherwise c appended and true |
| ListC.ListC.AddAllAt | src/by/it/group410971/kozich/lesson09/ListC.java:224-256 | IndexOutOfBoundsException exactly outside [0, size], then NullPointerException for a null c; false with no change for an empty c; otherwise c spliced in before index |
| ListC.ListC.SiftInPlace | src/by/it/group410971/kozich/lesson09/ListC.java:269-275 | the backward loop leaves exactly the elements whose membership in c is the kept one, and reports whether anything was removed |
| ListC.ListC.RemoveAll | src/by/it/group410971/kozich/lesson09/ListC.java:259-277 | NullPointerException exactly for a null c, with no change; otherwise every element in c is removed, and the result says whether any was |
| ListC.ListC.RetainAll | src/by/it/group410971/kozich/lesson09/ListC.java:280-294 | NullPointerException exactly for a null c, with no change; otherwise every element not in c is removed, and the result says whether any was |
| ListC.ListC.SubList | src/by/it/group410971/kozich/lesson09/ListC.java:301-317 | IndexOutOfBoundsException exactly for a bad range; otherwise a new list holding [from, to) |
| ListC.ListC.ListIterator | src/by/it/group410971/kozich/lesson09/ListC.java:320-326 | IndexOutOfBoundsException exactly outside [0, size]; otherwise a fresh cursor before index with nothing returned yet |
| ListC.ListC.Iterator | src/by/it/group410971/kozich/lesson09/ListC.java:329-331 | a fresh cursor before the first element (iterator() at 362-364 builds the same) |
| ListC.ListC.ToArray | src/by/it/group410971/kozich/lesson09/ListC.java:349-355 | a new array holding exactly the elements, in order |
| ListC.ListC.ToArrayInto | src/by/it/group410971/kozich/lesson09/ListC.java:335-346 | a new array of exactly the elements when a is too short, a untouched; otherwise the elements copied into the front of a, which is returned |
| ListC.ListItr.constructor | src/by/it/group410971/kozich/lesson09/ListC.java:403-405 | a cursor at index with nothing returned |
| ListC.ListItr.HasNext | src/by/it/group410971/kozich/lesson09/ListC.java:372-374 | true exactly when the cursor is before the end |
| ListC.ListItr.Next | src/by/it/group410971/kozich/lesson09/ListC.java:378-384 | NoSuchElementException exactly at the end, with no change; otherwise the element at the cursor, which moves past it and is remembered as last returned |
| ListC.ListItr.Remove | src/by/it/group410971/kozich/lesson09/ListC.java:387-398 | IllegalStateException exactly when nothing was returned since the last change; otherwise that element is removed and the cursor moves back to its position |
| ListC.ListItr.HasPrevious | src/by/it/group410971/kozich/lesson09/ListC.java:408-410 | true exactly when the cursor is after the start |
| ListC.ListItr.Previous | src/by/it/group410971/kozich/lesson09/ListC.java:414-421 | NoSuchElementException exactly at the start; otherwise the cursor steps back and returns the element it passes, remembered as last returned |
| ListC.ListItr.NextIndex | src/by/it/group410971/kozich/lesson09/ListC.java:424-426 | the cursor |
| ListC.ListItr.PreviousIndex | src/by/it/group410971/kozich/lesson09/ListC.java:429-431 | the cursor minus one |
| ListC.ListItr.Set | src/by/it/group410971/kozich/lesson09/ListC.java:434-443 | IllegalStateException exactly when nothing was returned; otherwise the element last returned is replaced |
| ListC.ListItr.Add | src/by/it/group410971/kozich/lesson09/ListC.java:446-455 | e is inserted before the cursor, which moves past it, and nothing counts as last returned |
| LongNotUp.Best | src/by/it/group410971/kozich/lesson06/C_LongNotUpSubSeq.java:63-71 | dp[i] is at least 1 (the element alone) |
| LongNotUp.Prev | src/by/it/group410971/kozich/lesson06/C_LongNotUpSubSeq.java:65-70 | prev[i] is -1 exactly when no earlier element is at least m[i]; otherwise an earlier index with m[prev] >= m[i] whose dp is the best such |
| LongNotUp.Trace | src/by/it/group410971/kozich/lesson06/C_LongNotUpSubSeq.java:80-85 | the positions traced back from i through prev number dp[i] and end at i + 1 (1-based) |
| LongNotUp.TraceNotUp | src/by/it/group410971/kozich/lesson06/C_LongNotUpSubSeq.java:80-85 | the traced positions are increasing and their values non-increasing |
| LongNotUp.SnocNotUp | src/by/it/group410971/kozich/lesson06/C_LongNotUpSubSeq.java:67-69 | extending a non-increasing subsequence by a later index with a value no larger keeps it non-increasing |
| LongNotUp.ExtBound | src/by/it/group410971/kozich/lesson06/C_LongNotUpSubSeq.java:66-71 | every earlier index that may precede i has a dp no larger than the best the inner loop finds |
| LongNotUp.Optimal | src/by/it/group410971/kozich/lesson06/C_LongNotUpSubSeq.java:63-71 | no non-increasing subsequence ending at index i is longer than dp[i] |
| LongNotUp.Peak | src/by/it/group410971/kozich/lesson06/C_LongNotUpSubSeq.java:72-75 | maxLen is the largest dp so far and maxIndex the first index holding it, or (0, -1) before any element |
| LongNotUp.PeakStep | src/by/it/group410971/kozich/lesson06/C_LongNotUpSubSeq.java:72-75 | one outer step updates (maxLen, maxIndex) only on a strictly larger dp |
| LongNotUp.Answer | src/by/it/group410971/kozich/lesson06/C_LongNotUpSubSeq.java:79-85 | the reconstructed positions number maxLen |
| LongNotUp.Longest | src/by/it/group410971/kozich/lesson06/C_LongNotUpSubSeq.java:46-94 | the reconstructed positions form a non-increasing subsequence, and none is longer |
| LongNotUp.GetNotUpSeqSize | src/by/it/group410971/kozich/lesson06/C_LongNotUpSubSeq.java:46-94 | the length returned and the positions reconstructed are those of the reference answer |
| LongNotUp.Reconstruct | src/by/it/group410971/kozich/lesson06/C_LongNotUpSubSeq.java:79-85 | the backward walk through prev writes the traced positions |
| LongNotUp.Chain | src/by/it/group410971/kozich/lesson06/C_LongNotUpSubSeq.java:82-85 | a walk from a real index writes at least one position |
| LongNotUp.ChainStep | src/by/it/group410971/kozich/lesson06/C_LongNotUpSubSeq.java:82-85 | the walk from c is the walk from prev[c] followed by c + 1 |
| LongNotUp.Tables | src/by/it/group410971/kozich/lesson06/C_LongNotUpSubSeq.java:63-76 | the loops fill dp and prev with the reference values and end with the reference (maxLen, maxIndex) |
| LongNotUp.Cell | src/by/it/group410971/kozich/lesson06/C_LongNotUpSubSeq.java:64-71 | the inner loop sets dp[i] and prev[i] to the reference values and leaves every other cell alone |
| MyArrayDeque.Pow2Double | src/by/it/group410971/kozich/lesson10/MyArrayDeque.java:27-35 | doubling a power of two gives a power of two, so every capacity the deque reaches is one |
| MyArrayDeque.Pow2Default | src/by/it/group410971/kozich/lesson10/MyArrayDeque.java:19-24 | the initial capacity 8 is a power of two |
| MyArrayDeque.WrapIndex | src/by/it/group410971/kozich/lesson10/MyArrayDeque.java:58-60 | index & (length - 1) lands in [0, length) |
| MyArrayDeque.WrapNear | src/by/it/group410971/kozich/lesson10/MyArrayDeque.java:58-60 | for an index within one length of the array, the wrap is a single step up or down |
| MyArrayDeque.SlotWrap | src/by/it/group410971/kozich/lesson10/MyArrayDeque.java:305-312 | the slot of position i is wrapIndex(head + i) |
| MyArrayDeque.SlotAdvance | src/by/it/group410971/kozich/lesson10/MyArrayDeque.java:153-164 | moving head one slot on and shortening by one keeps the slot of the end |
| MyArrayDeque.SlotRetreat | src/by/it/group410971/kozich/lesson10/MyArrayDeque.java:167-178 | wrapIndex(tail - 1) is the slot of the last element |
| MyArrayDeque.SlotInjective | src/by/it/group410971/kozich/lesson10/MyArrayDeque.java:38-55 | different positions of a window shorter than the array use different slots |
| MyArrayDeque.Window | src/by/it/group410971/kozich/lesson10/MyArrayDeque.java:377-384 | the deque's elements are the size slots from head, wrapping at the end |
| MyArrayDeque.WindowTail | src/by/it/group410971/kozich/lesson10/MyArrayDeque.java:153-164 | moving head one slot on drops the first element |
| MyArrayDeque.WindowUpdate | src/by/it/group410971/kozich/lesson10/MyArrayDeque.java:316-345 | writing one slot of the window changes that one element |
| MyArrayDeque.WindowInit | src/by/it/group410971/kozich/lesson10/MyArrayDeque.java:167-178 | the window one shorter is the deque without its last element |
| MyArrayDeque.WindowPushFront | src/by/it/group410971/kozich/lesson10/MyArrayDeque.java:96-105 | writing slot head - 1 and starting there puts x in front |
| MyArrayDeque.WindowPushBack | src/by/it/group410971/kozich/lesson10/MyArrayDeque.java:108-117 | writing slot tail and widening puts x at the back |
| MyArrayDeque.ShiftedFront | src/by/it/group410971/kozich/lesson10/MyArrayDeque.java:326-332 | after the front part shifts one place on, dropping the front removes exactly element i |
| MyArrayDeque.ShiftedBack | src/by/it/group410971/kozich/lesson10/MyArrayDeque.java:334-341 | after the back part shifts one place back, dropping the back removes exactly element i |
| MyArrayDeque.ArrayCopy | src/by/it/group410971/kozich/lesson10/MyArrayDeque.java:44-49 | System.arraycopy writes the n copied slots and keeps every other slot of the destination |
| MyArrayDeque.MyArrayDeque.constructor | src/by/it/group410971/kozich/lesson10/MyArrayDeque.java:19-24 | an empty deque over 8 slots with head = tail = 0 |
| MyArrayDeque.MyArrayDeque.Resize | src/by/it/group410971/kozich/lesson10/MyArrayDeque.java:38-55 | the elements move, in order, to the front of a new array of newCapacity slots; head = 0 and tail = size |
| MyArrayDeque.MyArrayDeque.EnsureCapacity | src/by/it/group410971/kozich/lesson10/MyArrayDeque.java:27-35 | the array doubles only when shorter than minCapacity; the elements are kept and then fit |
| MyArrayDeque.MyArrayDeque.Size | src/by/it/group410971/kozich/lesson10/MyArrayDeque.java:85-87 | the number of elements |
| MyArrayDeque.MyArrayDeque.PushFront | src/by/it/group410971/kozich/lesson10/MyArrayDeque.java:100-104 | head moves back one slot onto v, which becomes the first element |
| MyArrayDeque.MyArrayDeque.PushBack | src/by/it/group410971/kozich/lesson10/MyArrayDeque.java:112-116 | v goes to slot tail and becomes the last element |
| MyArrayDeque.MyArrayDeque.AddFirst | src/by/it/group410971/kozich/lesson10/MyArrayDeque.java:96-105 | NullPointerException exactly for null, with no change; otherwise e becomes the first element (also push and offerFirst, 190-193 and 254-256) |
| MyArrayDeque.MyArrayDeque.AddLast | src/by/it/group410971/kozich/lesson10/MyArrayDeque.java:108-117 | NullPointerException exactly for null, with no change; otherwise e becomes the last element (also add, offer and offerLast, 90-93 and 185-199) |
| MyArrayDeque.MyArrayDeque.GetFirst | src/by/it/group410971/kozich/lesson10/MyArrayDeque.java:125-133 | NoSuchElementException exactly when empty; otherwise the first element (also element, 120-122) |
| MyArrayDeque.MyArrayDeque.GetLast | src/by/it/group410971/kozich/lesson10/MyArrayDeque.java:136-145 | NoSuchElementException exactly when empty; otherwise the last element |
| MyArrayDeque.MyArrayDeque.PollFirst | src/by/it/group410971/kozich/lesson10/MyArrayDeque.java:153-164 | null exactly when empty, with no change; otherwise the first element, removed (also poll, 148-150) |
| MyArrayDeque.MyArrayDeque.PollLast | src/by/it/group410971/kozich/lesson10/MyArrayDeque.java:167-178 | null exactly when empty, with no change; otherwise the last element, removed |
| MyArrayDeque.MyArrayDeque.RemoveFirst | src/by/it/group410971/kozich/lesson10/MyArrayDeque.java:207-212 | NoSuchElementException exactly when empty, with no change; otherwise the first element, removed (also remove and pop, 202-204 and 259-261) |
| MyArrayDeque.MyArrayDeque.RemoveLast | src/by/it/group410971/kozich/lesson10/MyArrayDeque.java:215-220 | NoSuchElementException exactly when empty, with no change; otherwise the last element, removed |
| MyArrayDeque.MyArrayDeque.PeekFirst | src/by/it/group410971/kozich/lesson10/MyArrayDeque.java:228-233 | null exactly when empty; otherwise the first element (also peek, 223-225) |
| MyArrayDeque.MyArrayDeque.PeekLast | src/by/it/group410971/kozich/lesson10/MyArrayDeque.java:236-241 | null exactly when empty; otherwise the last element |
| MyArrayDeque.MyArrayDeque.IsEmpty | src/by/it/group410971/kozich/lesson10/MyArrayDeque.java:268-270 | true exactly when the deque is empty |
| MyArrayDeque.MyArrayDeque.Contains | src/by/it/group410971/kozich/lesson10/MyArrayDeque.java:273-281 | true exactly when o is not null and equals an element |
| MyArrayDeque.MyArrayDeque.ToArray | src/by/it/group410971/kozich/lesson10/MyArrayDeque.java:377-384 | a new array holding the elements first to last |
| MyArrayDeque.MyArrayDeque.Clear | src/by/it/group410971/kozich/lesson10/MyArrayDeque.java:417-425 | the deque becomes empty with head = tail = 0 over the same array |
| MyArrayDeque.MyArrayDeque.ShiftFrontHalf | src/by/it/group410971/kozich/lesson10/MyArrayDeque.java:326-331 | the copying loop moves the elements before position i one slot on, over it |
| MyArrayDeque.MyArrayDeque.CloseFromHead | src/by/it/group410971/kozich/lesson10/MyArrayDeque.java:324-332 | the front-half case removes exactly element i |
| MyArrayDeque.MyArrayDeque.ShiftBackHalf | src/by/it/group410971/kozich/lesson10/MyArrayDeque.java:334-339 | the copying loop moves the elements after position i one slot back, over it |
| MyArrayDeque.MyArrayDeque.CloseFromTail | src/by/it/group410971/kozich/lesson10/MyArrayDeque.java:333-341 | the back-half case removes exactly element i |
| MyArrayDeque.MyArrayDeque.Iterator | src/by/it/group410971/kozich/lesson10/MyArrayDeque.java:284-286 | a fresh cursor before the first element |
| MyArrayDeque.MyArrayDeque.DescendingIterator | src/by/it/group410971/kozich/lesson10/MyArrayDeque.java:289-291 | a fresh cursor on the last element |
| MyArrayDeque.DequeIterator.constructor | src/by/it/group410971/kozich/lesson10/MyArrayDeque.java:294-296 | cursor 0 with nothing returned |
| MyArrayDeque.DequeIterator.HasNext | src/by/it/group410971/kozich/lesson10/MyArrayDeque.java:299-301 | true exactly when the cursor is before the end |
| MyArrayDeque.DequeIterator.Next | src/by/it/group410971/kozich/lesson10/MyArrayDeque.java:305-313 | NoSuchElementException exactly at the end; otherwise the element at the cursor, which moves past it and is remembered as last returned |
| MyArrayDeque.DequeIterator.Remove | src/by/it/group410971/kozich/lesson10/MyArrayDeque.java:316-345 | IllegalStateException exactly when nothing was returned; otherwise exactly that element is removed and the cursor goes back to its position |
| MyArrayDeque.DescendingIterator.constructor | src/by/it/group410971/kozich/lesson10/MyArrayDeque.java:349-350 | the cursor on the last element |
| MyArrayDeque.DescendingIterator.HasNext | src/by/it/group410971/kozich/lesson10/MyArrayDeque.java:353-355 | true exactly while the cursor is on an element |
| MyArrayDeque.DescendingIterator.Next | src/by/it/group410971/kozich/lesson10/MyArrayDeque.java:359-366 | NoSuchElementException exactly before the first element; otherwise the element at the cursor, which moves one back |
| MyLinkedList.Node.constructor | src/by/it/group410971/kozich/lesson10/MyLinkedList.java:13-17 | a node with the given links and item |
| MyLinkedList.Items | src/by/it/group410971/kozich/lesson10/MyLinkedList.java:494-501 | the list's elements are the items of its chain of nodes, in order |
| MyLinkedList.ItemsRemoveAt | src/by/it/group410971/kozich/lesson10/MyLinkedList.java:196-218 | unlinking node i drops exactly element i |
| MyLinkedList.LinkAt | src/by/it/group410971/kozich/lesson10/MyLinkedList.java:8-17 | in a valid chain node i's prev is node i - 1 (null for the first) and its next is node i + 1 (null for the last) |
| MyLinkedList.MyLinkedList.constructor | src/by/it/group410971/kozich/lesson10/MyLinkedList.java:26-30 | an empty list with first = last = null |
| MyLinkedList.MyLinkedList.Size | src/by/it/group410971/kozich/lesson10/MyLinkedList.java:88-90 | the number of elements |
| MyLinkedList.MyLinkedList.AddFirst | src/by/it/group410971/kozich/lesson10/MyLinkedList.java:93-106 | NullPointerException exactly for null, with no change; otherwise a new first node holds e (also push and offerFirst, 278-281 and 351-353) |
| MyLinkedList.MyLinkedList.LinkFront | src/by/it/group410971/kozich/lesson10/MyLinkedList.java:98-105 | a node outside the chain becomes its first node; the chain stays valid |
| MyLinkedList.MyLinkedList.AddLast | src/by/it/group410971/kozich/lesson10/MyLinkedList.java:109-122 | NullPointerException exactly for null, with no change; otherwise a new last node holds e (also add, offer and offerLast, 56-59 and 273-287) |
| MyLinkedList.MyLinkedList.LinkBack | src/by/it/group410971/kozich/lesson10/MyLinkedList.java:114-121 | a node outside the chain becomes its last node; the chain stays valid |
| MyLinkedList.MyLinkedList.GetFirst | src/by/it/group410971/kozich/lesson10/MyLinkedList.java:130-135 | NoSuchElementException exactly when empty; otherwise the first element (also element, 125-127) |
| MyLinkedList.MyLinkedList.GetLast | src/by/it/group410971/kozich/lesson10/MyLinkedList.java:138-143 | NoSuchElementException exactly when empty; otherwise the last element |
| MyLinkedList.MyLinkedList.NodeAt | src/by/it/group410971/kozich/lesson10/MyLinkedList.java:178-193 | node(index) returns the node at index, whichever end the walk starts from |
| MyLinkedList.MyLinkedList.Unlink | src/by/it/group410971/kozich/lesson10/MyLinkedList.java:196-218 | node i leaves the chain, which stays valid over the same nodes, and its item is returned |
| MyLinkedList.MyLinkedList.ValidAfterUnlink | src/by/it/group410971/kozich/lesson10/MyLinkedList.java:196-218 | once the neighbours of node i point past it, the chain is valid again |
| MyLinkedList.MyLinkedList.Bypass | src/by/it/group410971/kozich/lesson10/MyLinkedList.java:199-213 | the pointer surgery: the neighbours of x (or first and last) point past x, and every other link is kept |
| MyLinkedList.MyLinkedList.UnlinkFirst | src/by/it/group410971/kozich/lesson10/MyLinkedList.java:221-242 | null exactly when empty, with no change; otherwise the first node leaves and its item is returned |
| MyLinkedList.MyLinkedList.UnlinkLast | src/by/it/group410971/kozich/lesson10/MyLinkedList.java:245-266 | null exactly when empty, with no change; otherwise the last node leaves and its item is returned |
| MyLinkedList.MyLinkedList.PollFirst | src/by/it/group410971/kozich/lesson10/MyLinkedList.java:151-156 | null exactly when empty; otherwise the first element, removed (also poll, 146-148) |
| MyLinkedList.MyLinkedList.PollLast | src/by/it/group410971/kozich/lesson10/MyLinkedList.java:159-164 | null exactly when empty; otherwise the last element, removed |
| MyLinkedList.MyLinkedList.RemoveFirst | src/by/it/group410971/kozich/lesson10/MyLinkedList.java:295-300 | NoSuchElementException exactly when empty, with no change; otherwise the first element, removed (also remove and pop, 290-292 and 356-358) |
| MyLinkedList.MyLinkedList.RemoveLast | src/by/it/group410971/kozich/lesson10/MyLinkedList.java:303-308 | NoSuchElementException exactly when empty, with no change; otherwise the last element, removed |
| MyLinkedList.MyLinkedList.PeekFirst | src/by/it/group410971/kozich/lesson10/MyLinkedList.java:316-318 | null exactly when empty; otherwise the first element (also peek, 311-313) |
| MyLinkedList.MyLinkedList.PeekLast | src/by/it/group410971/kozich/lesson10/MyLinkedList.java:321-323 | null exactly when empty; otherwise the last element |
| MyLinkedList.MyLinkedList.RemoveIndex | src/by/it/group410971/kozich/lesson10/MyLinkedList.java:62-65 | IndexOutOfBoundsException exactly outside [0, size), with no change; otherwise the element at index, removed |
| MyLinkedList.MyLinkedList.FindForward | src/by/it/group410971/kozich/lesson10/MyLinkedList.java:68-85 | the forward walk finds the first node equal to o and its position, or null (-1) when none; null matches nothing |
| MyLinkedList.MyLinkedList.FindBackward | src/by/it/group410971/kozich/lesson10/MyLinkedList.java:331-348 | the backward walk finds the last node equal to o and its position, or null (-1) when none |
| MyLinkedList.MyLinkedList.RemoveObject | src/by/it/group410971/kozich/lesson10/MyLinkedList.java:68-85 | true exactly when o is present, and then its first occurrence is removed; otherwise no change (also removeFirstOccurrence, 326-328) |
| MyLinkedList.MyLinkedList.RemoveLastOccurrence | src/by/it/group410971/kozich/lesson10/MyLinkedList.java:331-348 | true exactly when o is present, and then its last occurrence is removed; otherwise no change |
| MyLinkedList.MyLinkedList.IsEmpty | src/by/it/group410971/kozich/lesson10/MyLinkedList.java:365-367 | true exactly when the list is empty |
| MyLinkedList.MyLinkedList.IndexOfElement | src/by/it/group410971/kozich/lesson10/MyLinkedList.java:375-393 | the position of the first element equal to o, or -1 |
| MyLinkedList.MyLinkedList.LastIndexOfElement | src/by/it/group410971/kozich/lesson10/MyLinkedList.java:396-414 | the position of the last element equal to o, or -1 |
| MyLinkedList.MyLinkedList.Contains | src/by/it/group410971/kozich/lesson10/MyLinkedList.java:370-372 | true exactly when o is not null and equals an element |
| MyLinkedList.MyLinkedList.ToArray | src/by/it/group410971/kozich/lesson10/MyLinkedList.java:494-501 | a new array of the elements, first to last |
| MyLinkedList.MyLinkedList.Clear | src/by/it/group410971/kozich/lesson10/MyLinkedList.java:529-541 | the list becomes empty |
| MyLinkedList.MyLinkedList.Iterator | src/by/it/group410971/kozich/lesson10/MyLinkedList.java:417-419 | a fresh forward cursor at the first node with nothing returned |
| MyLinkedList.MyLinkedList.DescendingIterator | src/by/it/group410971/kozich/lesson10/MyLinkedList.java:422-424 | a fresh backward cursor at the last node |
| MyLinkedList.DistinctCons | src/by/it/group410971/kozich/lesson10/MyLinkedList.java:98-121 | a node outside a chain of distinct nodes can go in front of it or after it |
| MyLinkedList.ConsLinks | src/by/it/group410971/kozich/lesson10/MyLinkedList.java:98-105 | the neighbours in the chain with a node put in front |
| MyLinkedList.SnocLinks | src/by/it/group410971/kozich/lesson10/MyLinkedList.java:114-121 | the neighbours in the chain with a node put at the end |
| MyLinkedList.DistinctAt | src/by/it/group410971/kozich/lesson10/MyLinkedList.java:8-17 | two positions of a chain of distinct nodes hold different nodes |
| MyLinkedList.Prevs | src/by/it/group410971/kozich/lesson10/MyLinkedList.java:196-218 | the prev links of a chain, one per node |
| MyLinkedList.Nexts | src/by/it/group410971/kozich/lesson10/MyLinkedList.java:196-218 | the next links of a chain, one per node |
| MyLinkedList.Snapshot | src/by/it/group410971/kozich/lesson10/MyLinkedList.java:196-218 | the links of a valid chain are its neighbours |
| MyLinkedList.RemovedLinked | src/by/it/group410971/kozich/lesson10/MyLinkedList.java:196-218 | when only the neighbours of node i change, and they now point past it, the chain without node i is linked |
| MyLinkedList.RemoveLinks | src/by/it/group410971/kozich/lesson10/MyLinkedList.java:196-218 | in the chain without node i, only the nodes on either side of i get new neighbours, each other |
| MyLinkedList.UnlinkedValid | src/by/it/group410971/kozich/lesson10/MyLinkedList.java:196-218 | the chain without node i has distinct nodes |
| MyLinkedList.ListIterator.constructor | src/by/it/group410971/kozich/lesson10/MyLinkedList.java:427-430 | a cursor at the first node, position 0, nothing returned |
| MyLinkedList.ListIterator.HasNext | src/by/it/group410971/kozich/lesson10/MyLinkedList.java:433-435 | true exactly when the cursor is before the end |
| MyLinkedList.ListIterator.Next | src/by/it/group410971/kozich/lesson10/MyLinkedList.java:438-447 | NoSuchElementException exactly at the end; otherwise the element at the cursor, which moves past it and is remembered |
| MyLinkedList.ListIterator.Remove | src/by/it/group410971/kozich/lesson10/MyLinkedList.java:450-463 | IllegalStateException exactly when nothing was returned; otherwise the node last returned is unlinked and the cursor keeps its node, one position earlier |
| MyLinkedList.DescendingIterator.constructor | src/by/it/group410971/kozich/lesson10/MyLinkedList.java:467-468 | the cursor on the last node |
| MyLinkedList.DescendingIterator.HasNext | src/by/it/group410971/kozich/lesson10/MyLinkedList.java:471-473 | true exactly while the cursor is on a node |
| MyLinkedList.DescendingIterator.Next | src/by/it/group410971/kozich/lesson10/MyLinkedList.java:476-483 | NoSuchElementException exactly before the first element; otherwise the element at the cursor, which moves one back |
| MyPriorityQueue.Trans | src/by/it/group410971/kozich/lesson10/MyPriorityQueue.java:30-37 | the comparator's order is transitive, as the Comparator contract requires |
| MyPriorityQueue.SmallerChild | src/by/it/group410971/kozich/lesson10/MyPriorityQueue.java:98-117 | the child siftDown descends to is a child below size, the right one only when strictly smaller |
| MyPriorityQueue.Swap | src/by/it/group410971/kozich/lesson10/MyPriorityQueue.java:60-72 | exchanging two slots keeps every other slot and the multiset |
| MyPriorityQueue.Detach | src/by/it/group410971/kozich/lesson10/MyPriorityQueue.java:363-376 | moving the last element into slot i loses exactly the element at i from the multiset |
| MyPriorityQueue.UpdateLast | src/by/it/group410971/kozich/lesson10/MyPriorityQueue.java:219-229 | writing x into the new last slot appends x |
| MyPriorityQueue.MoveHole | src/by/it/group410971/kozich/lesson10/MyPriorityQueue.java:60-72 | shifting the element at j into the hole at k moves the hole to j, as a swap would |
| MyPriorityQueue.Half | src/by/it/group410971/kozich/lesson10/MyPriorityQueue.java:100 | k < size >>> 1 exactly when k has a child below size |
| MyPriorityQueue.Children | src/by/it/group410971/kozich/lesson10/MyPriorityQueue.java:62-63 | the slots whose parent (c - 1) >>> 1 is k are exactly 2k + 1 and 2k + 2 |
| MyPriorityQueue.RootIsLeast | src/by/it/group410971/kozich/lesson10/MyPriorityQueue.java:250-252 | in a heap the root is at most every element |
| MyPriorityQueue.RootIsLeastOf | src/by/it/group410971/kozich/lesson10/MyPriorityQueue.java:232-247 | the root of a non-empty heap is least in its multiset |
| MyPriorityQueue.Prefix | src/by/it/group410971/kozich/lesson10/MyPriorityQueue.java:232-247 | dropping slots from the end of a heap leaves a heap |
| MyPriorityQueue.HoleAt | src/by/it/group410971/kozich/lesson10/MyPriorityQueue.java:363-376 | a heap has the hole shape at every slot, whatever is written there |
| MyPriorityQueue.Unsettle | src/by/it/group410971/kozich/lesson10/MyPriorityQueue.java:363-376 | a heap is in order above and below every slot |
| MyPriorityQueue.Settle | src/by/it/group410971/kozich/lesson10/MyPriorityQueue.java:51-138 | a hole in order on both sides closes into a heap |
| MyPriorityQueue.Append | src/by/it/group410971/kozich/lesson10/MyPriorityQueue.java:219-229 | a new last element of a heap is a hole with no children |
| MyPriorityQueue.UpStep | src/by/it/group410971/kozich/lesson10/MyPriorityQueue.java:60-72 | one siftUp step: x, smaller than its parent, trades places with it and the hole moves up |
| MyPriorityQueue.UpDone | src/by/it/group410971/kozich/lesson10/MyPriorityQueue.java:60-72 | siftUp stopping at the root or below a parent that is not larger leaves a heap |
| MyPriorityQueue.SmallerChildIsLeast | src/by/it/group410971/kozich/lesson10/MyPriorityQueue.java:98-117 | the child siftDown picks is at most both children |
| MyPriorityQueue.DownStep | src/by/it/group410971/kozich/lesson10/MyPriorityQueue.java:98-117 | one siftDown step: x, larger than the least child, trades places with it and the hole moves down |
| MyPriorityQueue.DownStop | src/by/it/group410971/kozich/lesson10/MyPriorityQueue.java:98-117 | siftDown stops above a least child that is not smaller than x |
| MyPriorityQueue.SiftDownStep | src/by/it/group410971/kozich/lesson10/MyPriorityQueue.java:103-114 | the loop step on the array: the smaller child moves up into the hole, keeping the multiset |
| MyPriorityQueue.SiftDownStop | src/by/it/group410971/kozich/lesson10/MyPriorityQueue.java:108-109 | at the loop exit x is at most its children |
| MyPriorityQueue.SiftDownDone | src/by/it/group410971/kozich/lesson10/MyPriorityQueue.java:98-117 | when x left its starting slot the heap is whole; either way that slot is in order with its children |
| MyPriorityQueue.Leaf | src/by/it/group410971/kozich/lesson10/MyPriorityQueue.java:100 | siftDown stops at a leaf |
| MyPriorityQueue.MyPriorityQueue.constructor | src/by/it/group410971/kozich/lesson10/MyPriorityQueue.java:17-26 | an empty heap of DEFAULT_CAPACITY = 10 slots ordered by the comparator, or by compareTo when it is null |
| MyPriorityQueue.MyPriorityQueue.EnsureCapacity | src/by/it/group410971/kozich/lesson10/MyPriorityQueue.java:40-48 | the array grows only when shorter than minCapacity, to twice its length or minCapacity if more; the occupied slots are kept |
| MyPriorityQueue.MyPriorityQueue.Put | src/by/it/group410971/kozich/lesson10/MyPriorityQueue.java:68 | one slot write, seen as an update of the first n slots |
| MyPriorityQueue.MyPriorityQueue.SiftUp | src/by/it/group410971/kozich/lesson10/MyPriorityQueue.java:51-86 | x placed at k and sifted up yields a heap holding the old slots with x at k |
| MyPriorityQueue.MyPriorityQueue.SiftDown | src/by/it/group410971/kozich/lesson10/MyPriorityQueue.java:89-138 | x placed at k and sifted down: the multiset is the old one with x at k, and the heap is whole when x moved |
| MyPriorityQueue.MyPriorityQueue.Offer | src/by/it/group410971/kozich/lesson10/MyPriorityQueue.java:219-229 | NullPointerException exactly for null, with no change; otherwise true and the multiset gains exactly e |
| MyPriorityQueue.MyPriorityQueue.Insert | src/by/it/group410971/kozich/lesson10/MyPriorityQueue.java:225-228 | x enters slot size and sifts up; the multiset gains exactly x |
| MyPriorityQueue.MyPriorityQueue.Add | src/by/it/group410971/kozich/lesson10/MyPriorityQueue.java:189-191 | add is offer |
| MyPriorityQueue.MyPriorityQueue.Poll | src/by/it/group410971/kozich/lesson10/MyPriorityQueue.java:232-247 | null exactly when empty, with no change; otherwise a least element, which the multiset loses |
| MyPriorityQueue.MyPriorityQueue.Peek | src/by/it/group410971/kozich/lesson10/MyPriorityQueue.java:250-252 | null exactly when empty; otherwise a least element, nothing changed |
| MyPriorityQueue.MyPriorityQueue.Element | src/by/it/group410971/kozich/lesson10/MyPriorityQueue.java:255-261 | NoSuchElementException exactly when empty; otherwise a least element |
| MyPriorityQueue.MyPriorityQueue.RemoveHead | src/by/it/group410971/kozich/lesson10/MyPriorityQueue.java:205-211 | NoSuchElementException exactly when empty, with no change; otherwise a least element, which the multiset loses |
| MyPriorityQueue.MyPriorityQueue.Size | src/by/it/group410971/kozich/lesson10/MyPriorityQueue.java:176-178 | the number of elements |
| MyPriorityQueue.MyPriorityQueue.IsEmpty | src/by/it/group410971/kozich/lesson10/MyPriorityQueue.java:264-266 | true exactly when the queue is empty |
| MyPriorityQueue.MyPriorityQueue.IndexOf | src/by/it/group410971/kozich/lesson10/MyPriorityQueue.java:351-360 | -1 for null; otherwise the first slot holding an equal element, or -1 |
| MyPriorityQueue.MyPriorityQueue.Contains | src/by/it/group410971/kozich/lesson10/MyPriorityQueue.java:214-216 | true exactly when o is not null and is in the queue |
| MyPriorityQueue.MyPriorityQueue.RemoveAt | src/by/it/group410971/kozich/lesson10/MyPriorityQueue.java:363-376 | the element at slot i leaves the multiset and the heap order is restored |
| MyPriorityQueue.MyPriorityQueue.Refill | src/by/it/group410971/kozich/lesson10/MyPriorityQueue.java:369-374 | the moved element sifts down from i, and up when it stayed, leaving a heap |
| MyPriorityQueue.MyPriorityQueue.Remove | src/by/it/group410971/kozich/lesson10/MyPriorityQueue.java:194-202 | true exactly when o is not null and present, and then one equal element leaves; otherwise no change |
| MyPriorityQueue.MyPriorityQueue.Clear | src/by/it/group410971/kozich/lesson10/MyPriorityQueue.java:181-186 | the queue becomes empty over the same array |
| MyPriorityQueue.MyPriorityQueue.ContainsAll | src/by/it/group410971/kozich/lesson10/MyPriorityQueue.java:269-276 | NullPointerException exactly for a null collection; otherwise whether every element of c is non-null and in the queue |
| MyPriorityQueue.MyPriorityQueue.AddAll | src/by/it/group410971/kozich/lesson10/MyPriorityQueue.java:279-294 | NullPointerException for a null collection, or at the first null element after the ones before it went in; otherwise true exactly when c is non-empty, and the multiset gains c |
| MyPriorityQueue.MyPriorityQueue.OfferAll | src/by/it/group410971/kozich/lesson10/MyPriorityQueue.java:287-293 | the loop offers the elements in turn up to the first null |
| MyPriorityQueue.MyPriorityQueue.ToArray | src/by/it/group410971/kozich/lesson10/MyPriorityQueue.java:434-436 | a copy of the occupied slots, in heap order |
| MyPriorityQueue.Present | src/by/it/group410971/kozich/lesson10/MyPriorityQueue.java:287-293 | the non-null elements, in order |
| MyPriorityQueue.BeforeNull | src/by/it/group410971/kozich/lesson10/MyPriorityQueue.java:287-293 | the elements before the first null: all of them when there is none |
| MyPriorityQueue.PresentNext | src/by/it/group410971/kozich/lesson10/MyPriorityQueue.java:287-293 | one more non-null element adds its value |
| MyPriorityQueue.StopAt | src/by/it/group410971/kozich/lesson10/MyPriorityQueue.java:287-293 | the walk stops at the first null or at the end |
| MyPriorityQueue.IndexOfFirst | src/by/it/group410971/kozich/lesson10/MyPriorityQueue.java:351-360 | what the indexOf loop returns is the first position of x |
| DisjointSets.Merge | src/by/it/group410971/kozich/lesson14/PointsA.java:60-78 | after a union every member of the loser's component has the winner as representative, and nothing else changes |
| DisjointSets.MergeMembers | src/by/it/group410971/kozich/lesson14/PointsA.java:60-78 | a union makes the winner's component the disjoint union of both, and leaves every other component as it was |
| DisjointSets.MergeSame | src/by/it/group410971/kozich/lesson14/PointsA.java:60-78 | after a union two elements share a representative exactly when they did before or their components were the two merged |
| DisjointSets.MergeClosed | src/by/it/group410971/kozich/lesson14/PointsA.java:60-78 | a union keeps every representative a member of its own component |
| DisjointSets.Singletons | src/by/it/group410971/kozich/lesson14/PointsA.java:44-48 | the initial partition: every element alone in its component |
| DisjointSets.Upto | src/by/it/group410971/kozich/lesson14/PointsA.java:86-99 | the elements 0 .. n - 1, n of them |
| DisjointSets.SingletonForest | src/by/it/group410971/kozich/lesson14/PointsA.java:44-48 | every element its own parent, with rank 0 and size 1, is a forest for the singleton partition |
| DisjointSets.Relink | src/by/it/group410971/kozich/lesson14/PointsA.java:52-57 | re-linking a node to a node higher in its own tree (path compression) keeps the forest and its partition |
| DisjointSets.RootAt | src/by/it/group410971/kozich/lesson14/PointsA.java:52-57 | the roots of the forest are exactly the representatives, and each carries its component's size |
| DisjointSets.Grandparent | src/by/it/group410971/kozich/lesson14/StatesHanoiTowerC.java:77-83 | the grandparent of a non-root is in its tree and higher up (path halving stays in the tree) |
| DisjointSets.LinkForest | src/by/it/group410971/kozich/lesson14/PointsA.java:66-77 | attaching one root under another with the rank adjusted gives a forest for the merged partition, with the winner's size the sum |
| DisjointSets.LinkParents | src/by/it/group410971/kozich/lesson14/PointsA.java:66-77 | the parent links after attaching the loser lead to the merged representatives |
| DisjointSets.LinkLevels | src/by/it/group410971/kozich/lesson14/PointsA.java:66-77 | ranks still grow strictly towards the root after the link |
| DisjointSets.LinkSizes | src/by/it/group410971/kozich/lesson14/PointsA.java:66-77 | the winner's size is the size of the merged component; every other root keeps its size |
| DisjointSets.CoveredStep | src/by/it/group410971/kozich/lesson14/PointsA.java:90-95 | scanning one more element covers its whole component when its root is new, and nothing otherwise |
| DisjointSets.FirstSeenSum | src/by/it/group410971/kozich/lesson14/PointsA.java:90-95 | the sizes collected so far add up to the elements their components cover |
| DisjointSets.FirstSeenCount | src/by/it/group410971/kozich/lesson14/PointsA.java:90-95 | one size is collected per root met so far |
| DisjointSets.FirstSeenTotal | src/by/it/group410971/kozich/lesson14/PointsA.java:86-99 | scanning every element collects one size per component, adding up to the number of elements |
| DisjointSets.SeenRoots | src/by/it/group410971/kozich/lesson14/PointsA.java:88-95 | scanning every element meets exactly the representatives |
| DisjointSets.BelowStep | src/by/it/group410971/kozich/lesson14/SitesB.java:76-97 | raising the bound past a representative adds its component, and nothing past a non-representative |
| DisjointSets.RootSizesSum | src/by/it/group410971/kozich/lesson14/SitesB.java:76-97 | the sizes of the roots below k add up to the members of their components |
| DisjointSets.RootSizesTotal | src/by/it/group410971/kozich/lesson14/SitesB.java:76-97 | the roots' sizes add up to the number of elements |
| DisjointSets.MergeRootCount | src/by/it/group410971/kozich/lesson14/SitesB.java:48-73 | a union of two components removes exactly one representative |
| DisjointSets.RootCountAll | src/by/it/group410971/kozich/lesson14/SitesB.java:24-31 | in the singleton partition every element is a representative |
| DisjointSets.RootCountMono | src/by/it/group410971/kozich/lesson14/SitesB.java:76-97 | counting representatives over a longer prefix never gives fewer |
| DisjointSets.AppendSingleton | src/by/it/group410971/kozich/lesson14/SitesB.java:24-31 | makeSet of a new element keeps the forest and adds one representative |
| DisjointSets.RootCountPrefix | src/by/it/group410971/kozich/lesson14/SitesB.java:24-31 | the representatives below k do not depend on elements added later |
| DisjointSets.RootCountRoots | src/by/it/group410971/kozich/lesson14/SitesB.java:76-97 | the count of representatives is the size of the set of them |
| DisjointSets.RootCountBelow | src/by/it/group410971/kozich/lesson14/SitesB.java:76-97 | the representatives below k, counted, are the set of them |
| PointsA.Dsu.constructor | src/by/it/group410971/kozich/lesson14/PointsA.java:39-49 | DSU(n): every element is its own root with rank 0 and size 1 |
| PointsA.Dsu.Find | src/by/it/group410971/kozich/lesson14/PointsA.java:52-57 | find returns the representative of x, a root, and compresses the path: x and every node on the way point at the root, the partition unchanged |
| PointsA.Dsu.Union | src/by/it/group410971/kozich/lesson14/PointsA.java:60-78 | a no-op when x and y share a root; otherwise the root of lower rank goes under the other (root of x on a tie, with its rank raised), the components merge and the winner's size is the sum |
| PointsA.Dsu.Link | src/by/it/group410971/kozich/lesson14/PointsA.java:66-77 | attaching root loser under root winner merges their components, sums the sizes and raises the rank on a tie |
| PointsA.Dsu.GetSize | src/by/it/group410971/kozich/lesson14/PointsA.java:81-83 | the number of elements in the component of x |
| PointsA.Dsu.GetClusterSizes | src/by/it/group410971/kozich/lesson14/PointsA.java:86-99 | one size per root in the order the roots are first met, sorted ascending |
| PointsA.SeenIsPrefix | src/by/it/group410971/kozich/lesson14/PointsA.java:90-95 | the roots seen after scanning k elements are those of the first k |
| PointsA.ClusterSizes | src/by/it/group410971/kozich/lesson14/PointsA.java:86-99 | the cluster sizes are ascending, one per component, and add up to the number of points |
| SitesInput.LeadingBlanks | src/by/it/group410971/kozich/lesson14/SitesB.java:130-131 | the characters up to ' ' at the start of a site name, the ones String.trim cuts |
| SitesInput.TrailingBlanks | src/by/it/group410971/kozich/lesson14/SitesB.java:130-131 | the characters up to ' ' at the end of a site name, the ones String.trim cuts |
| SitesInput.Trim | src/by/it/group410971/kozich/lesson14/SitesB.java:130-131 | String.trim leaves a string that is empty or begins and ends with a character above ' ' |
| SitesInput.TrimShape | src/by/it/group410971/kozich/lesson14/SitesB.java:130-131 | trim cuts off only the blanks at the ends: every other character is kept, in place |
| SitesInput.TrimTwice | src/by/it/group410971/kozich/lesson14/SitesB.java:130-131 | trimming twice is trimming once |
| SitesInput.Pieces | src/by/it/group410971/kozich/lesson14/SitesB.java:126 | splitting at '+' gives at least one part |
| SitesInput.JoinPlusHead | src/by/it/group410971/kozich/lesson14/SitesB.java:126 | a character added to the first part changes only that part of the join |
| SitesInput.PiecesJoin | src/by/it/group410971/kozich/lesson14/SitesB.java:126 | splitting at every '+' loses nothing: the parts joined with '+' give the line back |
| SitesInput.PiecesPrefix | src/by/it/group410971/kozich/lesson14/SitesB.java:126 | a '+'-free part before '+' is the first piece |
| SitesInput.JoinPieces | src/by/it/group410971/kozich/lesson14/SitesB.java:126 | splitting the join of '+'-free parts gives the parts back |
| SitesInput.DropTrailingEmpty | src/by/it/group410971/kozich/lesson14/SitesB.java:126 | String.split drops the trailing empty parts and keeps the rest in order |
| SitesInput.SplitPlus | src/by/it/group410971/kozich/lesson14/SitesB.java:125 | line.split("\\+"); SitesInput.PiecesJoin, SitesInput.JoinPieces and SitesInput.DropTrailingEmpty prove it cuts at every '+' and drops only trailing empty parts |
| SitesInput.ParseLine | src/by/it/group410971/kozich/lesson14/SitesB.java:125-130 | the pair of a line that splits into exactly two parts, trimmed; SitesInput.ParsePair, SitesInput.ParseTrailingPlus and SitesInput.ParseNoPlus give its three cases |
| SitesInput.ParsePair | src/by/it/group410971/kozich/lesson14/SitesB.java:126-132 | "a+b" with b non-empty is the pair of a and b, trimmed |
| SitesInput.ParseTrailingPlus | src/by/it/group410971/kozich/lesson14/SitesB.java:126-128 | "a+" is skipped, its empty second part being dropped by split |
| SitesInput.ParseNoPlus | src/by/it/group410971/kozich/lesson14/SitesB.java:126-128 | a line without '+' is skipped |
| SitesInput.Edges | src/by/it/group410971/kozich/lesson14/SitesB.java:116-138 | at most one pair per line |
| SitesInput.JoinedSites | src/by/it/group410971/kozich/lesson14/SitesB.java:116-138 | two different sites that are joined both occur in the pairs |
| SitesB.ElemsLast | src/by/it/group410971/kozich/lesson14/SitesB.java:24-31 | the sites of a list are those before its last entry and that entry |
| SitesB.ElemsCard | src/by/it/group410971/kozich/lesson14/SitesB.java:24-31 | a list never has more sites than entries |
| SitesB.DistinctAppend | src/by/it/group410971/kozich/lesson14/SitesB.java:24-31 | makeSet appends only a site not yet present, so the list stays without repeats |
| SitesB.DistinctInit | src/by/it/group410971/kozich/lesson14/SitesB.java:24-31 | the last site of a list without repeats is not among the others |
| SitesB.DistinctAt | src/by/it/group410971/kozich/lesson14/SitesB.java:24-31 | different positions hold different sites |
| SitesB.IndexOfDistinct | src/by/it/group410971/kozich/lesson14/SitesB.java:24-31 | a listed site is found at its own position |
| SitesB.ElemsAdded | src/by/it/group410971/kozich/lesson14/SitesB.java:24-31 | makeSet lists the site along with those listed before |
| SitesB.GrownSteps | src/by/it/group410971/kozich/lesson14/SitesB.java:24-31 | growing the partition by singletons in steps is growing it at once |
| SitesB.PaddedSteps | src/by/it/group410971/kozich/lesson14/SitesB.java:24-31 | padding the rank and size maps in steps is padding them at once |
| SitesB.GrownOne | src/by/it/group410971/kozich/lesson14/SitesB.java:24-31 | one new site adds one singleton, with rank 0 and size 1 |
| SitesB.LinkedJoins | src/by/it/group410971/kozich/lesson14/SitesB.java:48-73 | union makes the two roots' sets one and leaves every other pair as it was |
| SitesB.FirstRootsIn | src/by/it/group410971/kozich/lesson14/SitesB.java:79-83 | the roots first met over the first k sites are exactly the roots of those sites |
| SitesB.MemberCounts | src/by/it/group410971/kozich/lesson14/SitesB.java:79-83 | one member count per listed root |
| SitesB.MemberCountsAppend | src/by/it/group410971/kozich/lesson14/SitesB.java:79-83 | one more root adds its component's member count |
| SitesB.FirstSeenCounts | src/by/it/group410971/kozich/lesson14/SitesB.java:79-83 | the sizes collected in first-seen order are the sizes of the first-met roots' components |
| SitesB.FirstRootsDistinct | src/by/it/group410971/kozich/lesson14/SitesB.java:79-83 | no root is listed twice among those first met |
| SitesB.ClusterNone | src/by/it/group410971/kozich/lesson14/SitesB.java:100-109 | a root not met yet has an empty cluster so far |
| SitesB.ClusterLength | src/by/it/group410971/kozich/lesson14/SitesB.java:100-109 | a cluster collected over the first k sites has as many entries as its component has members among them |
| SitesB.ClusterContents | src/by/it/group410971/kozich/lesson14/SitesB.java:100-109 | a cluster lists exactly the sites whose root is c |
| SitesB.ClusterSize | src/by/it/group410971/kozich/lesson14/SitesB.java:100-109 | a full cluster has as many sites as its component has members |
| SitesB.Names | src/by/it/group410971/kozich/lesson14/SitesB.java:100-109 | the site names of the listed roots |
| SitesB.NamesAppend | src/by/it/group410971/kozich/lesson14/SitesB.java:100-109 | one more root adds its site name |
| SitesB.KeysStep | src/by/it/group410971/kozich/lesson14/SitesB.java:79-83 | the root of site i is a key already exactly when it was met before, at that root's place |
| SitesB.MetOld | src/by/it/group410971/kozich/lesson14/SitesB.java:79-83 | a root met before keeps its key |
| SitesB.MetNew | src/by/it/group410971/kozich/lesson14/SitesB.java:79-83 | a root met for the first time is added with its site as a new key |
| SitesB.CollectMet | src/by/it/group410971/kozich/lesson14/SitesB.java:79-83 | putting a root met before leaves its value, which is already its size |
| SitesB.CollectNew | src/by/it/group410971/kozich/lesson14/SitesB.java:79-83 | a root not met before is put with its size |
| SitesB.GatherMet | src/by/it/group410971/kozich/lesson14/SitesB.java:103-106 | computeIfAbsent on a known root appends the site to its list |
| SitesB.GatherNew | src/by/it/group410971/kozich/lesson14/SitesB.java:103-106 | computeIfAbsent on a new root starts a list holding the site |
| SitesB.RootsFacts | src/by/it/group410971/kozich/lesson14/SitesB.java:86-93 | every root met is a root, found at its own position, with its component's size, so the parent check keeps all of them |
| SitesB.Dsu.constructor | src/by/it/group410971/kozich/lesson14/SitesB.java:16-21 | no sites and no sets |
| SitesB.Dsu.Commit | src/by/it/group410971/kozich/lesson14/SitesB.java:24-73 | the new state replaces the old one in full |
| SitesB.Dsu.MakeSet | src/by/it/group410971/kozich/lesson14/SitesB.java:24-31 | a new site becomes a singleton with rank 0 and size 1 and one set more; a known site changes nothing |
| SitesB.Dsu.Find | src/by/it/group410971/kozich/lesson14/SitesB.java:34-45 | an unknown site is added as its own root; otherwise the root of its set, and the site points at it afterwards |
| SitesB.Dsu.FindAt | src/by/it/group410971/kozich/lesson14/SitesB.java:40-44 | the recursion re-links the site and every site on its path to the root; partition, ranks and sizes unchanged |
| SitesB.Dsu.Union | src/by/it/group410971/kozich/lesson14/SitesB.java:48-73 | both sites are found (added when unknown); when the roots differ the root of lower rank goes under the other (site2's under site1's on a tie, whose rank grows), sizes add and totalSets drops by one; equal roots change nothing more |
| SitesB.Dsu.LinkRoots | src/by/it/group410971/kozich/lesson14/SitesB.java:57-72 | the linking step on two different roots merges them as union by rank does, with one set fewer |
| SitesB.Dsu.GetClusterSizes | src/by/it/group410971/kozich/lesson14/SitesB.java:76-97 | the component sizes, one per root in the order the roots are first met, sorted ascending |
| SitesB.Dsu.CollectClusterSizes | src/by/it/group410971/kozich/lesson14/SitesB.java:79-83 | the map built holds one key per root met, in first-put order, with its component's size as value |
| SitesB.Dsu.GetClusters | src/by/it/group410971/kozich/lesson14/SitesB.java:100-109 | one list per root met, holding exactly the sites of its set in the order they were added |
| SitesMain.JoinedRefl | src/by/it/group410971/kozich/lesson14/SitesB.java:112-138 | a site is joined to itself |
| SitesMain.SitesLast | src/by/it/group410971/kozich/lesson14/SitesB.java:128-136 | one more pair adds its two sites, and joins x to y exactly when they were joined or are joined through the new pair |
| SitesMain.GroupedGrow | src/by/it/group410971/kozich/lesson14/SitesB.java:133-134 | makeSet keeps the sets the groups of the pairs: a new site is joined to no other |
| SitesMain.GroupedLink | src/by/it/group410971/kozich/lesson14/SitesB.java:136 | union of the sites at two positions makes the sets the groups of the pairs with the pair of those sites added |
| SitesMain.PairGrown | src/by/it/group410971/kozich/lesson14/SitesB.java:133-134 | makeSet(a) and makeSet(b) list both sites, each new one a set of its own |
| SitesMain.PairGroups | src/by/it/group410971/kozich/lesson14/SitesB.java:133-136 | makeSet(a), makeSet(b) and union(a, b) give the groups of the pairs with (a, b) added |
| SitesMain.ClosedGrown | src/by/it/group410971/kozich/lesson14/SitesB.java:24-31 | singletons added to a closed partition keep it closed |
| SitesMain.AddPair | src/by/it/group410971/kozich/lesson14/SitesB.java:129-137 | one line "a+b": the sets become the groups of the pairs read so far with (a, b) added |
| SitesMain.EdgesNext | src/by/it/group410971/kozich/lesson14/SitesB.java:116-138 | the pairs of one more line: those before, then the line's pair if it is one |
| SitesMain.FirstEnd | src/by/it/group410971/kozich/lesson14/SitesB.java:119-122 | the loop stops at the first "end" line; running out of lines means there is none |
| SitesMain.ProcessLines | src/by/it/group410971/kozich/lesson14/SitesB.java:112-153 | no result exactly when no "end" line comes; otherwise the cluster sizes of the groups the pairs before it form, ascending, summing to the number of sites |
| StatesHanoiTowerC.Dsu.constructor | src/by/it/group410971/kozich/lesson14/StatesHanoiTowerC.java:65-75 | DSU(n): n singleton components, count = n |
| StatesHanoiTowerC.Dsu.Find | src/by/it/group410971/kozich/lesson14/StatesHanoiTowerC.java:77-83 | the root of x, which is its own parent; with path halving only the parent array changes, and it keeps the same partition |
| StatesHanoiTowerC.Dsu.Union | src/by/it/group410971/kozich/lesson14/StatesHanoiTowerC.java:86-101 | a no-op when x and y share a root; otherwise the root of the smaller component goes under the other (the root of x wins a tie), the sizes add and count drops by one |
| StatesHanoiTowerC.Dsu.Link | src/by/it/group410971/kozich/lesson14/StatesHanoiTowerC.java:93-100 | attaching root loser under root winner merges their components, sums the sizes and counts one component fewer |
| StatesHanoiTowerC.Dsu.GetComponentSizes | src/by/it/group410971/kozich/lesson14/StatesHanoiTowerC.java:104-118 | the component sizes: the roots' sizes in index order, sorted ascending |
| StatesHanoiTowerC.Dsu.Collect | src/by/it/group410971/kozich/lesson14/StatesHanoiTowerC.java:109-113 | the loop writes exactly the roots' sizes, in index order |
| StatesHanoiTowerC.ComponentSizes | src/by/it/group410971/kozich/lesson14/StatesHanoiTowerC.java:104-118 | the component sizes add up to the number of states and there are count of them |
| StatesHanoiTowerC.BubbleSort | src/by/it/group410971/kozich/lesson14/StatesHanoiTowerC.java:121-131 | the array ends ascending and a permutation of its input |
| StatesHanoiTowerC.Pass | src/by/it/group410971/kozich/lesson14/StatesHanoiTowerC.java:123-129 | one inner pass leaves the largest of arr[..m + 1] at m, above a sorted suffix, and keeps the multiset |
| StatesHanoiTowerC.PassStep | src/by/it/group410971/kozich/lesson14/StatesHanoiTowerC.java:124-128 | one compare-and-swap keeps the inner loop's invariant and the multiset |
| StatesHanoiTowerC.PassEnd | src/by/it/group410971/kozich/lesson14/StatesHanoiTowerC.java:123-129 | when the inner loop ends, its last position joins the sorted suffix |
| StatesHanoiTowerC.SwapMultiset | src/by/it/group410971/kozich/lesson14/StatesHanoiTowerC.java:125-127 | swapping two adjacent slots keeps the multiset |
| StatesHanoiTowerC.GroupStart | src/by/it/group410971/kozich/lesson14/StatesHanoiTowerC.java:258 | before the loop every state is alone |
| StatesHanoiTowerC.GroupStep | src/by/it/group410971/kozich/lesson14/StatesHanoiTowerC.java:262-266 | column j of row i calls union(i, j) exactly when the heights agree |
| StatesHanoiTowerC.GroupRow | src/by/it/group410971/kozich/lesson14/StatesHanoiTowerC.java:261-267 | the end of row i is the start of row i + 1 |
| StatesHanoiTowerC.GroupEnd | src/by/it/group410971/kozich/lesson14/StatesHanoiTowerC.java:261-267 | after every row, two states share a component exactly when their heights agree |
| StatesHanoiTowerC.GroupStatesByHeight | src/by/it/group410971/kozich/lesson14/StatesHanoiTowerC.java:248-280 | among the first totalSteps states, two share a component exactly when their heights agree; the sizes come out ascending, one per component |
| StatesHanoiTowerC.Pairs | src/by/it/group410971/kozich/lesson14/StatesHanoiTowerC.java:261-267 | the nested loops leave two states together exactly when their heights agree |
| StatesHanoiTowerC.Row | src/by/it/group410971/kozich/lesson14/StatesHanoiTowerC.java:262-266 | row i unites state i with every later state of equal height, keeping the earlier rows' grouping |
| ScannerText.AtTail | src/by/it/group410971/kozich/lesson15/SourceScannerA.java:39 | an occurrence in a non-empty text is at its start or in its tail |
| ScannerText.Contains | src/by/it/group410971/kozich/lesson15/SourceScannerA.java:39 | String.contains holds exactly when the pattern occurs at some index |
| ScannerText.IsTestFile | src/by/it/group410971/kozich/lesson15/SourceScannerA.java:38-40 | a test file is exactly one whose content holds "@Test" or "org.junit.Test" somewhere |
| ScannerText.LeadLow | src/by/it/group410971/kozich/lesson15/SourceScannerA.java:60-63 | the front loop stops at the first character of code 33 or more; all before it are below 33 |
| ScannerText.TrailEnd | src/by/it/group410971/kozich/lesson15/SourceScannerA.java:66-69 | the back loop stops after the last character of code 33 or more past start; all after it are below 33 |
| ScannerText.TrimBounds | src/by/it/group410971/kozich/lesson15/SourceScannerA.java:59-71 | the result is the part between the first and last character of code 33 or more; everything cut off is below 33, and nothing is left exactly when every character is |
| ScannerText.TrimEdges | src/by/it/group410971/kozich/lesson15/SourceScannerA.java:59-71 | a non-empty result begins and ends with a character of code 33 or more |
| ScannerText.TrimIdempotent | src/by/it/group410971/kozich/lesson15/SourceScannerA.java:59-71 | stripping twice is stripping once |
| ScannerText.StripEdges | src/by/it/group410971/kozich/lesson15/SourceScannerA.java:57-71 | the two loops and substring(start, end + 1) give the stripped text |
| ScannerText.Pieces | src/by/it/group410971/kozich/lesson15/SourceScannerA.java:45 | cutting at every newline gives at least one piece, none holding a newline |
| ScannerText.JoinPieces | src/by/it/group410971/kozich/lesson15/SourceScannerA.java:45 | the pieces joined with newlines give the text back |
| ScannerText.PiecesJoin | src/by/it/group410971/kozich/lesson15/SourceScannerA.java:45 | cutting the join of newline-free lines gives the lines back |
| ScannerText.DropTrailingEmpty | src/by/it/group410971/kozich/lesson15/SourceScannerA.java:45 | split drops exactly the empty strings at the end and keeps the rest in order |
| ScannerText.Split | src/by/it/group410971/kozich/lesson15/SourceScannerA.java:45 | split("\n") gives lines without newlines |
| ScannerText.SplitLines | src/by/it/group410971/kozich/lesson15/SourceScannerA.java:45 | split("\n") keeps the lines in order and drops only empty trailing ones: padded back with empty lines and joined, they give the text |
| ScannerText.JoinSnoc | src/by/it/group410971/kozich/lesson15/SourceScannerA.java:53 | joining one more line adds a newline and that line at the end |
| ScannerText.LinesTextJoin | src/by/it/group410971/kozich/lesson15/SourceScannerA.java:47-54 | each line followed by a newline is the lines joined with newlines and a final empty line |
| ScannerText.LinesTextPieces | src/by/it/group410971/kozich/lesson15/SourceScannerA.java:47-54 | cutting the appended text at its newlines gives back the lines, in order, and the empty piece after the last newline |
| ScannerA.LongCompare | src/by/it/group410971/kozich/lesson15/SourceScannerA.java:28 | Long.compare is negative, zero or positive as a is below, equal to or above b |
| ScannerA.CompareFiles | src/by/it/group410971/kozich/lesson15/SourceScannerA.java:26-34 | files compare by size, then by path; they compare equal exactly when size and path agree |
| ScannerA.CompareFilesFlip | src/by/it/group410971/kozich/lesson15/SourceScannerA.java:26-34 | the order is antisymmetric |
| ScannerA.CompareFilesTrans | src/by/it/group410971/kozich/lesson15/SourceScannerA.java:26-34 | the order is transitive |
| ScannerA.Kept | src/by/it/group410971/kozich/lesson15/SourceScannerA.java:47-54 | the kept lines are the lines that are not package or import lines once trimmed |
| ScannerA.FilteredLines | src/by/it/group410971/kozich/lesson15/SourceScannerA.java:43-54 | the filtered text, cut at its newlines, gives the kept lines in order, then an empty piece |
| ScannerA.KeptTextIs | src/by/it/group410971/kozich/lesson15/SourceScannerA.java:47-54 | after i lines the builder holds the kept ones among them, each followed by a newline |
| ScannerA.FilterLines | src/by/it/group410971/kozich/lesson15/SourceScannerA.java:47-54 | the loop appends every kept line with a newline, in order |
| ScannerA.ProcessContent | src/by/it/group410971/kozich/lesson15/SourceScannerA.java:43-72 | the kept lines with newlines, without the characters below 33 at either end; a non-empty result begins and ends with a character of code 33 or more |
| ScannerB.ScanB | src/by/it/group410971/kozich/lesson15/SourceScannerB.java:49-100 | the character loop as a function from an index and lexer state; ScannerB.ScanPrintable, ScannerB.BlockCommentRemoved and ScannerB.LineCommentRemoved state what it keeps and drops |
| ScannerB.StepB | src/by/it/group410971/kozich/lesson15/SourceScannerB.java:56-100 | one pass of the loop body moves the index on by one, or by two when a comment delimiter is consumed |
| ScannerB.ScanPrintable | src/by/it/group410971/kozich/lesson15/SourceScannerB.java:92-97 | only characters of code 32 and above, newlines and tabs are kept |
| ScannerB.ScanPlainText | src/by/it/group410971/kozich/lesson15/SourceScannerB.java:56-100 | text without '/' and without control characters passes through unchanged outside comments |
| ScannerB.ScanInBlock | src/by/it/group410971/kozich/lesson15/SourceScannerB.java:76-80 | inside a block comment nothing is appended until the first "*/" closes it |
| ScannerB.BlockCommentRemoved | src/by/it/group410971/kozich/lesson15/SourceScannerB.java:71-80 | a block comment opened outside comments and literals is removed with its delimiters, and scanning goes on after it from a plain state |
| ScannerB.ScanInLine | src/by/it/group410971/kozich/lesson15/SourceScannerB.java:86-88 | inside a line comment nothing is appended up to its newline, which is kept |
| ScannerB.LineCommentRemoved | src/by/it/group410971/kozich/lesson15/SourceScannerB.java:81-88 | a line comment opened outside comments and literals is removed up to its newline; only the newline is kept |
| ScannerB.ScanStep | src/by/it/group410971/kozich/lesson15/SourceScannerB.java:56-100 | one pass of the loop body moves its output from what is left to scan onto what is appended |
| ScannerB.StripComments | src/by/it/group410971/kozich/lesson15/SourceScannerB.java:49-100 | the character loop's output is the scan of the whole content from the start state |
| ScannerB.Decide | src/by/it/group410971/kozich/lesson15/SourceScannerB.java:107-128 | the body has started after a line exactly when it had before or the line starts it; a line is appended exactly when the body has started and the line is not blank |
| ScannerB.FilterStep | src/by/it/group410971/kozich/lesson15/SourceScannerB.java:107-128 | one more line taken by the filter |
| ScannerB.NonBlank | src/by/it/group410971/kozich/lesson15/SourceScannerB.java:125-127 | exactly the lines that are not blank |
| ScannerB.FirstStarter | src/by/it/group410971/kozich/lesson15/SourceScannerB.java:117-121 | the index of the first line that starts the body: none before it does |
| ScannerB.FilterAfterStart | src/by/it/group410971/kozich/lesson15/SourceScannerB.java:123-128 | once the body has started, exactly the lines that are not blank are kept |
| ScannerB.FilterDropsHeader | src/by/it/group410971/kozich/lesson15/SourceScannerB.java:107-128 | everything before the first body line is dropped, and every blank line after it |
| ScannerB.FilterLines | src/by/it/group410971/kozich/lesson15/SourceScannerB.java:103-129 | the loop appends each kept line with a newline, in order |
| ScannerB.FilteredEmpty | src/by/it/group410971/kozich/lesson15/SourceScannerB.java:45-47 | empty content gives the empty string |
| ScannerB.ProcessContent | src/by/it/group410971/kozich/lesson15/SourceScannerB.java:44-150 | the stripped and filtered text without the characters below 33 at either end; a non-empty result begins and ends with a character of code 33 or more |
| ScannerB.FilteredLines | src/by/it/group410971/kozich/lesson15/SourceScannerB.java:102-131 | the lines of the filtered text are the non-blank lines from the first body line on, in order |
| ScannerC.ScanC | src/by/it/group410971/kozich/lesson15/SourceScannerC.java:38-120 | the character loop as a function from an index and lexer state; ScannerC.ScanSpaced, ScannerC.HeaderSkipped and the comment lemmas state what it keeps and drops |
| ScannerC.Normalized | src/by/it/group410971/kozich/lesson15/SourceScannerC.java:33-129 | processContent: empty for empty content, else the scan trimmed and collapsed; ScannerC.NormalForm proves its shape |
| ScannerC.StepC | src/by/it/group410971/kozich/lesson15/SourceScannerC.java:47-120 | one pass of the loop body moves the index on by one, or by two when a comment delimiter is consumed, and appends at most one character |
| ScannerC.ScanSpaced | src/by/it/group410971/kozich/lesson15/SourceScannerC.java:109-117 | the character loop writes no character below 33 other than the space |
| ScannerC.HeaderSkipped | src/by/it/group410971/kozich/lesson15/SourceScannerC.java:91-101 | a package or import line at the start of a line, before any other line has begun, contributes nothing: scanning goes on after its newline in the same state |
| ScannerC.SkipToNewline | src/by/it/group410971/kozich/lesson15/SourceScannerC.java:51-61 | while a line is skipped nothing is appended up to its newline, which ends the skip |
| ScannerC.ScanInBlock | src/by/it/group410971/kozich/lesson15/SourceScannerC.java:79-83 | inside a block comment nothing is appended until the first "*/" closes it |
| ScannerC.BlockCommentRemoved | src/by/it/group410971/kozich/lesson15/SourceScannerC.java:74-83 | a block comment opened outside comments and literals is removed with its delimiters and the newlines inside it |
| ScannerC.ScanInLine | src/by/it/group410971/kozich/lesson15/SourceScannerC.java:51-56 | inside a line comment nothing is appended up to its newline, which ends the comment |
| ScannerC.LineCommentRemoved | src/by/it/group410971/kozich/lesson15/SourceScannerC.java:84-88 | a line comment opened outside comments and literals is removed together with the newline that ends it |
| ScannerC.HeaderAtIff | src/by/it/group410971/kozich/lesson15/SourceScannerC.java:94-101 | the header test holds exactly when "package " or "import " starts at i, with room for it left |
| ScannerC.ScanStep | src/by/it/group410971/kozich/lesson15/SourceScannerC.java:47-120 | one pass of the loop body moves its output from what is left to scan onto what is appended |
| ScannerC.ScanContent | src/by/it/group410971/kozich/lesson15/SourceScannerC.java:38-120 | the character loop's output is the scan of the whole content from the start state |
| ScannerC.SpaceRun | src/by/it/group410971/kozich/lesson15/SourceScannerC.java:128 | the run of white space at the start of s, and no more |
| ScannerC.Collapse | src/by/it/group410971/kozich/lesson15/SourceScannerC.java:128 | replaceAll("\\s+", " ") leaves only spaces as white space, never two in a row, and keeps a first or last character that is not white space |
| ScannerC.Visible | src/by/it/group410971/kozich/lesson15/SourceScannerC.java:128 | exactly the characters of s that are not white space |
| ScannerC.VisibleSkip | src/by/it/group410971/kozich/lesson15/SourceScannerC.java:128 | white space at the front adds nothing visible |
| ScannerC.CollapseVisible | src/by/it/group410971/kozich/lesson15/SourceScannerC.java:128 | collapsing white space keeps every other character, in order |
| ScannerC.CollapseFixed | src/by/it/group410971/kozich/lesson15/SourceScannerC.java:128 | text whose only white space is single spaces is left as it is |
| ScannerC.CollapseIdempotent | src/by/it/group410971/kozich/lesson15/SourceScannerC.java:128 | collapsing twice changes nothing more |
| ScannerC.NormalForm | src/by/it/group410971/kozich/lesson15/SourceScannerC.java:33-129 | the processed text holds no character below 33 but single spaces, and begins and ends with a character above U+0020 |
| ScannerC.ProcessContent | src/by/it/group410971/kozich/lesson15/SourceScannerC.java:33-129 | the scan, trimmed, with runs of white space collapsed; empty content gives the empty string |
| ScannerC.DistGap | src/by/it/group410971/kozich/lesson15/SourceScannerC.java:137-139 | the distance is at least the difference in length, so the early return is safe |
| ScannerC.DistSelf | src/by/it/group410971/kozich/lesson15/SourceScannerC.java:132-178 | the distance from a text to itself is zero |
| ScannerC.RowFloorAt | src/by/it/group410971/kozich/lesson15/SourceScannerC.java:150-169 | every entry of row p + 1 is at least the smallest entry of row p |
| ScannerC.RowsFloor | src/by/it/group410971/kozich/lesson15/SourceScannerC.java:166-169 | once every entry of a row exceeds a bound, so does the distance: the early exit is safe |
| ScannerC.FillRow | src/by/it/group410971/kozich/lesson15/SourceScannerC.java:151-164 | the row filled is row i of the edit-distance table, and minInRow is its smallest entry: at most each entry and equal to one of them |
| ScannerC.LevenshteinDistance | src/by/it/group410971/kozich/lesson15/SourceScannerC.java:132-178 | exactly maxDistance + 1 when the lengths differ by more than maxDistance or some row 1..|s1| of the table lies wholly above maxDistance (CutOff); otherwise exactly the distance; so the distance itself when it is at most maxDistance, and a value above maxDistance otherwise |
| ScannerC.IsCopy | src/by/it/group410971/kozich/lesson15/SourceScannerC.java:302-309 | the copy test: lengths within 10 and distance below 10; by LevenshteinDistance's contract the bounded result is below 10 exactly when Lev is, so ScannerC.CopiesOf and ScannerC.FindCopies use it |
| ScannerC.CopiesOf | src/by/it/group410971/kozich/lesson15/SourceScannerC.java:296-312 | exactly the paths of the later files that are copies of file i |
| ScannerC.CopiesMap | src/by/it/group410971/kozich/lesson15/SourceScannerC.java:290-317 | every file with a later copy is a key, and every key has at least one copy |
| ScannerC.CopiesMapAbsent | src/by/it/group410971/kozich/lesson15/SourceScannerC.java:290-317 | only paths of files are keys |
| ScannerC.CopiesMapAt | src/by/it/group410971/kozich/lesson15/SourceScannerC.java:290-317 | with distinct paths, a file is a key exactly when a later file is a copy of it, and it maps to exactly those copies |
| ScannerC.FindCopies | src/by/it/group410971/kozich/lesson15/SourceScannerC.java:294-317 | the two loops build exactly the map of copies |
| QSortOptimized.FirstCover | src/by/it/group410971/kozich/lesson05/C_QSortOptimized.java:115-133 | the binary search returns -1 or the index of a segment that covers the point |
| QSortOptimized.AsWrittenBound | src/by/it/group410971/kozich/lesson05/C_QSortOptimized.java:76-79 | on the sorted segments the answer as written is never above the number of segments covering the point |
| QSortOptimized.ExactBound | src/by/it/group410971/kozich/lesson05/C_QSortOptimized.java:76-79 | counting from index 0 over the sorted segments gives exactly the number of segments covering the point |
| Digraph.BackEdgeCycle | src/by/it/group410971/kozich/lesson13/GraphB.java:53-56 | an edge from the end of a walk back to a vertex on it closes a cycle |
| GraphC.SccCompareFlip | src/by/it/group410971/kozich/lesson13/GraphC.java:60-70 | the comparator is antisymmetric |
| GraphInput.NamesFromCommands | src/by/it/group410971/kozich/lesson13/GraphA.java:157-169 | every vertex name comes from some vertex or edge command |
| GraphInput.FormatAll | src/by/it/group410971/kozich/lesson13/GraphA.java:157-169 | one piece per command, each the command written out |
| GraphInput.LineShape | src/by/it/group410971/kozich/lesson13/GraphA.java:150-159 | a written line has no whitespace and no piece that is empty or holds a comma |
| HashTable.UnlinkKeeps | src/by/it/group410971/kozich/lesson11/MyHashSet.java:144-154 | splicing a node out of its chain keeps every item in its bucket and no item twice |
| HashTable.UnlinkDrops | src/by/it/group410971/kozich/lesson11/MyHashSet.java:144-154 | the spliced-out item is gone from the table |
| HashTable.UnlinkKeepsOthers | src/by/it/group410971/kozich/lesson11/MyHashSet.java:144-154 | every other item is still in the table |
| Kosaraju.EnterVisit | src/by/it/group410971/kozich/lesson13/GraphC.java:76-77 | a vertex not yet visited starts its search: it is visited and joins the search path, keeping the first-pass invariant |
| Kosaraju.LeaveVisit | src/by/it/group410971/kozich/lesson13/GraphC.java:82-88 | a search whose successors are all visited finishes: its vertex moves from the path to the end of the finish order |

## Left out

- Every `main` method and all reading, printing and file handling: `Scanner`, `System.in`, `System.out`, `readFile`, `collectJavaFiles` and charset fallbacks. The models take the input as values and return what would be printed.
- `C_GreedyKnapsack` and `A_VideoRegistrator` (lesson 2) and `Point.distance` in PointsA are not part of this model: their arithmetic is `double`.
- `StatesHanoiTowerC.solveHanoi` and `calculateHeight` are not part of this model: their heights are a placeholder. `GroupStatesByHeight` takes the heights as a parameter, so the `totalSteps = 2^n - 2` count is not modelled.
- Library sorts and collections are given by their contracts, not re-verified: `Collections.sort`, `Arrays.sort`, and `HashMap`/`TreeSet`/`PriorityQueue` in the graph and DSU code.
- Map views and plumbing that build or walk `java.util` objects are left out. `MyAvlMap` and `MySplayMap`: `containsValue`, `keySet`, `values` and `entrySet`. `MyRbMap`: only `values` (its `containsValue`, `keySet` and `entrySet` are modelled). All three maps: `toString`, `putAll` and the `SimpleEntry` class.
- `MySplayMap` members outside the navigation core are left out: `size`/`isEmpty`/`clear`, `navigableKeySet`, `descendingKeySet`, `descendingMap`, `comparator`, the `...Entry` navigation methods with `pollFirstEntry`/`pollLastEntry` (a key search followed by `get` or `remove`), and its `headMap`/`tailMap`/`subMap`, which copy the keys in range into a new map with `put`.
- The bulk operations of `MyHashSet` and `MyLinkedHashSet` (`containsAll`, `addAll`, `removeAll`, `retainAll`) are left out: each is a loop of `contains`, `add`, `remove` or iterator `remove` calls.
- `MyTreeSet.addAll`, `removeAll` and `retainAll` (MyTreeSet.java:227-284) are left out. `removeAll` returns `false` at once when `c` is empty. Otherwise `removeAll` and `retainAll` collect the indices to drop in one pass and then call `removeAt` from the last index down, so earlier indices stay valid. This index logic is not modelled.
- Fail-fast iteration is left out: the source keeps no modification counter.
- `MyPriorityQueue.removeAll`, `retainAll`, `heapify` and its iterator are left out. The indices these collect go stale once `removeAt` re-sifts, and `heapify` is never called.
- The iterators of `ListB`, `MyHashSet` and `MyPriorityQueue` are left out. `ListB.listIterator` and `toArray(T[])` only throw `UnsupportedOperationException`.
- Assignments that null out a freed slot or node field for the garbage collector are left out. They have no effect on the abstract contents.
- The `0.75f` load factor is the integer `capacity * 3 / 4`. This is exact for the power-of-two capacities used.
- `equals`/`hashCode`: element equality is Dafny `==`, and `hashCode` is a function parameter. A class whose `equals` is not an equivalence, or whose `hashCode` disagrees with `equals`, is not modelled.
- MyTreeSet.IsOrder: the comparator must return 0 exactly for equal elements (consistent with `equals`). A Java comparator that equates distinct elements is not modelled; for such a comparator, `add` and `contains` would treat the two as one.
- MyHashSet.MyHashSet.Add: requires the set to stay below 3/4 of 2^30 elements. Beyond that, the Java code's `oldCapacity << 1` overflows `int` and the resize fails; that failure is not modelled.
- MyLinkedHashSet.MyLinkedHashSet.Add: requires the set to stay below 3/4 of 2^30 elements, for the same reason as MyHashSet.MyHashSet.Add: past that, `oldCapacity << 1` in its resize overflows `int`, and that failure is not modelled.
- MyPriorityQueue.MyPriorityQueue.AddAll: the `IllegalArgumentException` for `c == this` is not modelled. The argument is a sequence value, which cannot alias the queue.
- CountSort.CountSortInPlace: requires every value in `0..10`. The Java code throws `ArrayIndexOutOfBoundsException` for a value above 10 or below 0. A 0 is counted but never written back, because the output loop starts at 1. The contract states this: only the values 1..10 are written, in order, and the slots after them keep their old contents.
- FiboC.GetPisanoPeriod: `m * m` is unbounded here. In Java it overflows `int` for `abs(m) > 46340`, which is not modelled. Negative `m` is modelled through `abs(m)`.
- HeapMax.Drive: an `insert` line whose `split(" ")` does not give two parts is `Insert(None)`: it counts as a command and inserts nothing. The argument of an insert line is given already parsed. A `NumberFormatException` from `Long.parseLong`, which would end the program, and `long` overflow are not modelled.
- MyArrayDeque.WrapIndex: written as the Euclidean remainder `index % length`. `Valid` keeps `length` a power of two, and for those lengths this equals the Java mask `index & (length - 1)` on 32-bit two's complement. That bit-level identity is not proved.
- SitesB.Dsu.GetClusterSizes: `HashMap` iteration order is modelled as the order in which roots are first met. The result is sorted, so the order does not show.
- SitesB.Dsu.GetClusters: walks the sites in the order they were added and returns the map as a list of keys with their lists, keys in the order their roots are first met. Java walks `parent.keySet()` of a `HashMap` and returns the `HashMap` itself, so both the order of the keys and the order of the sites inside each list follow an unspecified iteration order that the model fixes. Which sites each root maps to is exact.
- MyAvlMap.MyAvlMap.Size: counts with the corrected decrement (see Findings), so it is the number of keys. The code as written can undercount.
- MyAvlMap.MyAvlMap.IsEmpty: reads the corrected count, so it is true exactly when no key is left. The code as written returns `size == 0` on the undercounted field, so it can report an empty map that still holds keys: put 2, 1, 3, then remove 2 and remove 3 leaves key 1 with `size` 0.
- QSortOptimized.GetAccessory2: states the answers of the code as written, which can be below the true count (see Findings).
- `ClassCastException` is not modelled. `MyTreeSet.add` and `MyPriorityQueue.offer`/`siftUp` cast an element to `Comparable` when no comparator is given, and throw for an element that is not `Comparable`. Here the order is always a parameter, so every element is comparable.
- ListB.ListB.AddAll, ListC.ListC.AddAll: `list.addAll(list)` is not modelled. The argument is a sequence value, which cannot alias the list being extended.
- JavaString.CompareTo: a string is a sequence of Unicode scalar values (Dafny `char`), while Java's `compareTo` and `length()` work on UTF-16 code units. The two agree on text in the Basic Multilingual Plane. Outside it they can differ: a supplementary character counts 2 in Java's `length()` and compares by its high surrogate, so it can sort before a character in U+E000..U+FFFF. A lone surrogate cannot be represented. Members affected: ScannerA.CompareFiles; the `TreeSet<String>` orders in JavaString; the vertex and neighbour orders in GraphA and GraphC; the length gap and the table sizes in ScannerC.IsCopy, ScannerC.LevenshteinDistance and ScannerC.Lev.
- ListC.ListC.ToArrayInto: writing `null` into `a[size]` when `a` is longer is not modelled. Elements are not nullable here.

## Findings

| source | as written | input that shows it | evidently intended | confidence | as-written member | corrected member |
|---|---|---|---|---|---|---|
| src/by/it/group410971/kozich/lesson12/MyAvlMap.java:162-180 | `removeRecursive` decrements `size` where the key matches. For a node with two children it then recursively removes the successor, whose match decrements `size` again. | the tree with root b and leaves a < c; remove(b) | `size` drops by one per removed key | high (not executed) | MyAvlMap.RemoveRecAsWritten, MyAvlMap.RemoveCountsTwice | MyAvlMap.RemoveRec, MyAvlMap.RemoveKeeps |
| src/by/it/group410971/kozich/lesson05/C_QSortOptimized.java:69-82, 115-133 | On segments sorted by start only, `binarySearchFirstCover` can miss every covering segment. The count then starts from a wrong index or is 0. | segments [0,10], [1,2], [3,4]; point 5 gives 0 | the number of segments with start <= point <= stop (here 1) | high (not executed) | QSortOptimized.GetAccessory2, QSortOptimized.FirstCoverMisses | QSortOptimized.GetAccessory2Corrected |
