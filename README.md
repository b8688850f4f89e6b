# Union-find bridge filter, modelled and verified in Dafny

The program decides which of a list of candidate bridges between islands can be
kept without closing a cycle. It does this with a disjoint-set-union structure
(`UnionFind`), which keeps a partition of the islands `0 .. size-1` in one
integer array `sets`. A negative entry marks a root, and its magnitude is the
size of that root's set. A non-negative entry is the index of the element's
parent. `Find` climbs to the root recursively and rewrites every visited entry
to point straight at the root (path compression). `Union` merges two sets by
size, and on equal sizes the first argument's root absorbs the other.
`maintainBridges` folds the bridges, in input order, through a fresh
`UnionFind` and keeps exactly those whose `Union` succeeds.

The Dafny project has four modules:

- `DisjointSets` (`union_find.dfy`): the class `UnionFind` with the array
  `sets` and the field `size`, and two ghost fields. `root` is the partition
  the array encodes. `rank` strictly increases along parent links and is the
  termination measure of the recursive `Find`. The invariant `Wf` holds of
  `sets[..]`, `root` and `rank`. It says four things: parent links are
  acyclic and end at a root; `root` is the root the links reach; each root's
  negated entry is the number of elements it represents; and the sizes sum to
  `size`. Each state change is proved against that invariant by a pure lemma
  over sequences.
- `SpanningForest` (`forest.dfy`): the reference meaning of the filter. It is a
  fold over the bridges that carries component labels (`Greedy`) and keeps a
  bridge when its ends carry different labels (`Forest`). Lemmas prove it is a
  subsequence of its input, idempotent, and that kept bridges plus remaining
  components equal the island count. It also holds the two concrete scenarios.
- `Connectivity` (`connectivity.dfy`): islands are connected when a walk over
  the bridges joins them. The fold's labels are exactly these components. So
  a bridge is kept iff the bridges kept before it do not connect its ends, and
  the output is a spanning forest of the input.
- `Bridges` (`bridges.dfy`): the imperative `MaintainBridges`, proved equal to
  `Forest`. Its loop invariant says the union-find's partition and the fold's
  labels have the same blocks.

The model follows the code where the design description differs:

- The code does no bounds checks and has no error returns. An out-of-range
  index is undefined behaviour in the C++. A negative size makes
  `new int[size]` (main.cpp:20) throw `std::bad_array_new_length`. The model
  states index validity and `size >= 0` as preconditions, and it has no
  `InvalidSize` or `IndexOutOfRange` error values.
- `Find` is recursive, as in the code, not iterative.
- A bridge whose two ends are the same island is accepted as input. `Union`
  rejects it, because both ends share a root.
- `Union`'s two symmetric branches (main.cpp:53-59) are one helper, `Absorb`.
  The branch condition picks its arguments, so that the sequence-level proof is
  written once.

## Model

| member | source | states |
|---|---|---|
| `DisjointSets.UnionFind.constructor` | main.cpp:16-22 | after construction every entry is -1 and every element is its own representative; the invariant holds (so `Find(i) == i` for every `i`) |
| `DisjointSets.SingletonsWf` | main.cpp:20-21 | the all -1 array, with each element its own root, satisfies the invariant: sizes are 1 and sum to n |
| `DisjointSets.UnionFind.Find` | main.cpp:30-39 | returns the root reached by following parent links from `val` (`Climb`), which is `val`'s representative, and its entry is negative; afterwards the array is the old one with every element on the path from `val` pointing at that root; the partition, the roots and their sizes are unchanged; the invariant is kept |
| `DisjointSets.ClimbIsRoot` | main.cpp:31-36 | following parent links from any element ends at that element's representative |
| `DisjointSets.PathAbove` | main.cpp:36-37 | every element on the path from `i` is a non-root in `i`'s set whose rank is at least `i`'s |
| `DisjointSets.RankBelowSize` | main.cpp:36 | ranks stay below the number of elements, so the recursion of `Find` is bounded and terminates |
| `DisjointSets.CompressWf` | main.cpp:37 | rewriting a non-root entry to point at its root keeps the invariant, the sizes and their total |
| `DisjointSets.PathCompressed` | main.cpp:36-38 | pointing the whole path at the root is a compression: each entry is unchanged or a former parent link now pointing at the element's root |
| `DisjointSets.CompressedKeepsRoots` | main.cpp:43-44 | the two `Find` calls of `Union` keep every root and every root's size |
| `DisjointSets.CompressedTwice` | main.cpp:43-44 | two successive compressions under one partition are one compression |
| `DisjointSets.UnionFind.Union` | main.cpp:42-61 | returns false iff `A` and `B` already share a representative, and then the partition, the roots and their sizes are unchanged; on true, the larger set's root (the one of `A` on a tie) absorbs the other: its entry becomes the sum of the two sizes, the other root points at it, the partition is the old one with the two blocks merged, and the roots lose exactly the absorbed one; in both cases `A` and `B` end in one set and the invariant holds |
| `DisjointSets.UnionFind.Absorb` | main.cpp:53-59 | the two in-place writes leave the array equal to the old one with `winner` holding both sizes and `loser` pointing at `winner`; the partition merges `loser`'s block into `winner`'s; the invariant holds |
| `DisjointSets.LinkWf` | main.cpp:53-59 | hanging one root under another keeps the invariant: the new root's size is the sum, the total is unchanged, ranks still climb |
| `DisjointSets.LinkNodeOk` | main.cpp:54-58 | the invariant at each single element after the merge |
| `DisjointSets.MergedBlocks` | main.cpp:54 | the merged block holds exactly the elements of the two old blocks, so its size is their sum; every other block is unchanged |
| `DisjointSets.LinkRoots` | main.cpp:55-58 | after the merge, the roots are the old roots less the absorbed one, and only the two roots' entries changed |
| `DisjointSets.EntriesInRange` | main.cpp:54-57 | every entry lies in [-size, size), so no entry overflows an `int` that can hold `size` |
| `DisjointSets.TotalSizeUpdate` | main.cpp:37-58 | changing one entry changes the size total by exactly the difference of the two entries' contributions |
| `SpanningForest.Greedy` | main.cpp:64-80 | the reference fold: its labels name each component by one of its own islands, and every kept bridge is one of the input bridges |
| `SpanningForest.JoinCanonical` | main.cpp:75-76 | joining two different components keeps the labels canonical and removes exactly one representative |
| `SpanningForest.ForestIsSubsequence` | main.cpp:72-77 | the output is a subsequence of the input: same order, each kept bridge unchanged |
| `SpanningForest.GreedyOfForest` | main.cpp:64-80 | folding the output again keeps every bridge and ends in the same components |
| `SpanningForest.ForestIdempotent` | main.cpp:64-80 | filtering the filter's output returns it unchanged |
| `SpanningForest.SingletonsCount` | main.cpp:21 | n fresh islands form n components |
| `SpanningForest.ForestCount` | main.cpp:75-76 | each kept bridge merges two components into one: kept bridges plus remaining components equal the number of islands |
| `SpanningForest.ForestBound` | main.cpp:75-76 | with at least one island, at most `numIslands - 1` bridges are kept |
| `SpanningForest.TriangleScenario` | main.cpp:64-80 | on 4 islands, `(0,1),(1,2),(2,0),(2,3)` yields `(0,1),(1,2),(2,3)`: the bridge closing the cycle 0-1-2 is dropped |
| `SpanningForest.DuplicateScenario` | main.cpp:64-80 | on 3 islands, `(0,1),(0,1)` yields `(0,1)`: a repeated bridge is dropped |
| `Connectivity.ConnectedVia` | main.cpp:75 | a walk, a bridge and a walk make a walk |
| `Connectivity.ConnectedExtend` | main.cpp:72-77 | bridges added later cut no walk |
| `Connectivity.WalkStaysInComponent` | main.cpp:75 | if every bridge lies inside one labelled component, no walk leaves its component |
| `Connectivity.BridgesWithinComponents` | main.cpp:75-76 | after the fold, both ends of every input bridge, kept or dropped, carry the same label |
| `Connectivity.SameLabelConnected` | main.cpp:75-76 | islands with the same label are joined by a walk over the bridges |
| `Connectivity.LabelsAreComponents` | main.cpp:64-80 | two islands carry the same label iff a walk over the bridges joins them |
| `Connectivity.KeepsExactlyUnconnected` | main.cpp:72-77 | a bridge is kept iff its ends are not connected by the bridges kept before it |
| `Connectivity.ForestSpans` | main.cpp:64-80 | the kept bridges connect exactly the pairs of islands the input bridges connect |
| `Connectivity.RepresentativesName` | main.cpp:64-80 | the fold's representatives hold exactly one island of each component |
| `Connectivity.ForestIsSpanning` | main.cpp:64-80 | the same representatives name the components of the input and of the output, and kept bridges plus components equal the island count, so the output is a forest spanning the input's components |
| `Bridges.MergeKeepsPartition` | main.cpp:53-60 | whichever of the two roots absorbs the other, the union-find's partition and the fold's labels keep the same blocks |
| `Bridges.MaintainBridges` | main.cpp:64-80 | the returned bridges are exactly `Forest(numIslands, bridges)`, the greedy spanning forest in input order and orientation |

## Left out

- `printVectorOfVectors` and `main` (console input and output, Python-literal
  printing, an `INFINITY` float comparison): I/O, not part of the filter.
- `generateRandomBridges`: random input generation; the model takes the bridges
  as a parameter.
- `measureExecutionTime`, `testTimeForKIslandsChunk`, `testTimeForKIslands` and
  `timeComplexityForAllCases`: wall-clock timing, threads with a mutex-guarded
  accumulator, and floating-point averages.
- The destructor and `new[]`/`delete[]`: the model uses a Dafny array.
- Amortized cost of path compression and union by size: a cost argument, not
  behaviour.
- Bridges are pairs. The C++ passes each bridge as a `vector<int>` and reads
  only elements 0 and 1, so any further elements it would carry along are not
  modelled.
- Integers are unbounded. `DisjointSets.EntriesInRange` shows that every entry
  stays in [-size, size), so 32-bit wrap-around cannot occur while `size` fits
  an `int`. The narrowing `int size = bridges.size()` (main.cpp:67) is not
  modelled: an input of more than `INT_MAX` bridges is outside the model.
- DisjointSets.UnionFind.Union: its frame over non-root entries says each
  entry is unchanged or now points at its element's old root. It does not name
  the exact entries that the two `Find` calls rewrite; `Find`'s own contract
  does.
- DisjointSets.UnionFind.constructor: a negative size makes `new int[size]`
  throw `std::bad_array_new_length`; the model requires the size to be
  non-negative instead.
- Bridges.MaintainBridges: a negative `numIslands` makes `new int[size]` in the
  constructor throw `std::bad_array_new_length`; the model requires
  `numIslands` to be non-negative instead.
