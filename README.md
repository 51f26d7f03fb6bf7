# Road network graph: builder and statistics

A model, in Dafny, of a small road-network analyser. The analyser reads an
edge list of directed roads between numbered intersections (nodes), builds
an adjacency list in which every node maps to the sequence of its
out-neighbours, and computes statistics over it:

- the shortest walk between two nodes, by breadth-first search with a predecessor table;
- the `k` nodes with the most out-neighbours, listed in ascending id order;
- a summary of the out-degrees: total, count, the ascending degree sequence the median is read from, mode, maximum and minimum;
- the pairs of nodes joined by roads in both directions;
- the total number of roads.

The model is split into four modules:

- `Graph` (`graph.dfy`) holds the shared vocabulary: node ids, the adjacency list, walks (`IsPath`, `Reachable`) and the sum of out-degrees (`SumLengths`).
- `Sequences` (`sequences.dfy`) holds value-level stand-ins for the vector operations the program calls: sort, sort by key, maximum, minimum, sum and reverse.
- `AdjacencyListConvert` (`adjacencylist_convert.dfy`) is the graph builder.
- `Algorithms` (`algorithms.dfy`) holds the statistics.

`Scenarios` (`scenarios.dfy`) proves what the model returns on the four-node graph of the program's own tests. The graph is 1 → 2, 3; 2 → 3; 3 → 1, 4; 4 → nothing. The proved results are:

- the shortest walk from 1 to 4 is `[1, 3, 4]`;
- the top two nodes are `[1, 3]`;
- the degrees sum to 5 over 4 nodes, with middle values 1 and 2, mode 2, maximum 2 and minimum 0;
- the only bidirectional pair is `(1, 3)`, one pair against five roads.

Iteration over a hash map or hash set, whose order the program does not fix, is modelled as an arbitrary choice (`:|`) of the next key from the keys not yet visited. Every contract holds whatever order is chosen.

Two behaviours of the program are modelled exactly as written:

- **Search from a node to itself.** `start` is marked visited before the search begins, and a path is returned only when `end` is newly discovered as a neighbour. So `start == end` gives no path, not the one-node path `[start]`.
- **Mode tie-break.** The mode is whichever most frequent degree the unordered maximum returns; among tied degrees no particular one (such as the smallest) is preferred. The contract only says that no degree is shared by more nodes.

The breadth-first search's predecessor table is an array sized by the largest key, as in the program. Taking the largest key panics on an empty map, and the program panics at `prev[adj]` only if the search reaches a neighbour above the largest key; the model requires a non-empty map in which no neighbour exceeds the largest key. `BuiltGraphClosed` shows that the builder, given a non-empty edge list and the ids it mentions, produces a non-empty map in which every neighbour is a key; `ClosedNeighboursWithinKeys` turns the latter into the sizing precondition.

## Model

| member | source | states |
|---|---|---|
| AdjacencyListConvert.CollectUniqueNodes | src/adjacencylist_convert.rs:17-23 | an id is collected exactly when some record has it as source or target (so no records give no ids) |
| AdjacencyListConvert.CollectedEndpoints | src/adjacencylist_convert.rs:18-22 | both endpoints of every record are collected |
| AdjacencyListConvert.CreateAdjacencyList | src/adjacencylist_convert.rs:26-38 | requires every record's source to be in `nodes` (the `unwrap`); the result has exactly the keys `nodes`, and each key maps to the targets of its outgoing records in input order |
| AdjacencyListConvert.TargetsFromConcat | src/adjacencylist_convert.rs:33-35 | appending records appends each node's targets: input order and duplicates are kept |
| AdjacencyListConvert.TargetsFromMembers | src/adjacencylist_convert.rs:33-35 | `t` is a neighbour of `n` exactly when some record goes from `n` to `t` |
| AdjacencyListConvert.NoOutgoingNoNeighbours | src/adjacencylist_convert.rs:29-31 | a node that is the source of no record maps to the empty sequence |
| AdjacencyListConvert.BuiltGraphClosed | src/adjacencylist_convert.rs:17-38 | with the collected node set, the builder's precondition holds, every neighbour is itself a key, and a non-empty edge list gives a non-empty map |
| AdjacencyListConvert.BuiltGraphEdgeCount | src/adjacencylist_convert.rs:29-35 | the out-degrees of the built graph sum to the number of records |
| Graph.ClosedNeighboursWithinKeys | src/algorithms.rs:8 | a graph whose neighbours are all keys meets the predecessor table's sizing precondition |
| Graph.SumLengths | src/algorithms.rs:127-131 | the sum of out-degrees bounds each out-degree and is zero exactly when every node has no neighbours |
| Graph.SumLengthsRemove | src/algorithms.rs:128-130 | the sum of out-degrees does not depend on the order in which the map's values are visited |
| Sequences.Reverse | src/algorithms.rs:28 | the result has the same length and holds the elements in reverse order |
| Sequences.Maximum | src/algorithms.rs:99 | the result is an element and no element exceeds it |
| Sequences.Minimum | src/algorithms.rs:100 | the result is an element and no element is below it |
| Sequences.SortBy | src/algorithms.rs:51 | the result is a permutation of the input with non-decreasing keys |
| Sequences.InsertSorted | src/algorithms.rs:51 | inserting into a key-sorted sequence keeps it key-sorted |
| Sequences.Sort | src/algorithms.rs:78 | the result is the ascending permutation of the input |
| Sequences.SortedUnique | src/algorithms.rs:58 | two ascending sequences with the same elements are equal, so the ascending order is unique |
| Algorithms.MaxKey | src/algorithms.rs:8 | on a non-empty map, returns a key that no key exceeds |
| Algorithms.WalkEndsDiscovered | src/algorithms.rs:13-34 | once every node below a level is finished, every walk from `start` of at most that many edges ends at a discovered node whose level is at most the walk's length |
| Algorithms.UndiscoveredIsFar | src/algorithms.rs:13-21 | a node still undiscovered while level `l` is scanned is at least `l + 1` edges from `start` |
| Algorithms.QueueOrderedTail | src/algorithms.rs:13 | removing the head of the queue leaves it ordered from the head's level |
| Algorithms.TakeHead | src/algorithms.rs:13 | popping the queue front makes it the current node and keeps the search invariant |
| Algorithms.DiscoveredNearby | src/algorithms.rs:16 | every already-visited node is at most one level beyond the current node |
| Algorithms.Discover | src/algorithms.rs:16-19 | marks the neighbour visited, sets its predecessor entry to the current node leaving every other entry unchanged, and queues it, keeping the search invariant and the predecessor chain |
| Algorithms.RecordPredecessor | src/algorithms.rs:18 | recording the current node as a new node's predecessor keeps every predecessor one level closer to `start` |
| Algorithms.DiscoverKeepsFrontier | src/algorithms.rs:17-19 | queueing a new node one level above the current node keeps the queue ordered and every discovered node finished, queued or current |
| Algorithms.ReconstructPath | src/algorithms.rs:22-29 | following the predecessor table from `end` and reversing gives a walk from `start` to `end` with exactly `level(end)` edges; the walk back terminates |
| Algorithms.ScanNeighbours | src/algorithms.rs:14-33 | scans the current node's neighbours; if `end` is discovered, returns a shortest walk to it; otherwise every neighbour is now visited and at most one level further, exactly the newly visited ones have the current node as predecessor and were appended to the queue, every other predecessor entry and the old queue are unchanged, and the invariant holds |
| Algorithms.ScanDiscover | src/algorithms.rs:16-19 | discovering one more neighbour extends the scan's record: it becomes visited, gets the current node as predecessor and is appended to the queue |
| Algorithms.FinishCurrent | src/algorithms.rs:14-33 | once all its neighbours are discovered, the current node is finished |
| Algorithms.FinishingShrinks | src/algorithms.rs:13 | each finished node reduces the number of unfinished candidates, so the search terminates |
| Algorithms.NeighboursAtMost | src/algorithms.rs:18 | under the sizing precondition, every neighbour id is at most the largest key, so `prev[adj]` is in range |
| Algorithms.ShortestPathBfs | src/algorithms.rs:4-37 | a returned path is a walk from `start` to `end` with no more edges than any other such walk; no path is returned exactly when `start == end` or `end` is unreachable |
| Algorithms.CountTotalConnections | src/algorithms.rs:127-131 | the total bounds each out-degree and is zero exactly when no node has a neighbour |
| Algorithms.FindNodesWithMostNeighbors | src/algorithms.rs:40-60 | returns `min(numNodes, number of keys)` distinct keys in strictly ascending order (none when `numNodes == 0` or the map is empty), and no unselected node has more neighbours than a selected one |
| Algorithms.NeighbourCounts | src/algorithms.rs:41-43 | one (node, out-degree) pair per key, with no repetition |
| Algorithms.ByDegreeFacts | src/algorithms.rs:51 | after the sort by descending degree every key still occurs once, with its own degree |
| Algorithms.TopSelection | src/algorithms.rs:54-58 | the first `count` nodes of the descending order, sorted by id, are distinct keys in ascending order, and no dropped node has more neighbours than a kept one |
| Algorithms.NodesOfDegreeAdd | src/algorithms.rs:65-67 | one more node adds one to the count of its own degree only |
| Algorithms.CollectDegrees | src/algorithms.rs:65-74 | one degree per node, each degree value occurring as often as there are nodes of that degree, summing to the total number of connections |
| Algorithms.CountOccurrences | src/algorithms.rs:87-91 | the count map has exactly the values of the sequence as keys, each mapped to its number of occurrences |
| Algorithms.MaxByCount | src/algorithms.rs:93-96 | nothing exactly for an empty map; otherwise a key whose count no other count exceeds |
| Algorithms.ModeIsMostFrequent | src/algorithms.rs:86-96 | the key picked from the count map is a value of the sequence occurring at least as often as any other |
| Algorithms.LowerMiddle | src/algorithms.rs:79-83 | the index of the lower middle element, which mirrors the upper one |
| Algorithms.UpperMiddle | src/algorithms.rs:79-83 | the index of the upper middle element, at most one above the lower one |
| Algorithms.MiddleValues | src/algorithms.rs:78-84 | the two middle elements of an even-length sequence, the middle one twice for an odd length |
| Algorithms.SummarizeDegrees | src/algorithms.rs:73-103 | on a non-empty degree vector: its sum and length, its ascending permutation with the middle values, a most frequent value, and attained maximum and minimum |
| Algorithms.DegreesOfNodes | src/algorithms.rs:99-100 | every node's degree is among the collected degrees, and every collected degree is some node's |
| Algorithms.NodesInfo | src/algorithms.rs:64-104 | all zeros on an empty map; otherwise the total and count of the degrees, the ascending degree sequence and its middle values, a mode no degree is shared by more nodes than, and attained maximum and minimum bounding every degree |
| Algorithms.PairsFrom | src/algorithms.rs:111-120 | pushes (road, connected) once per occurrence of each neighbour `connected` above `road` that has `road` as a neighbour, and nothing else |
| Algorithms.FindUndirectedEdges | src/algorithms.rs:107-124 | every reported pair (a, b) has a < b and edges both ways; every such pair is reported, once per occurrence of b among a's neighbours; there are no more pairs than connections |
| Algorithms.PairMultiplicityPositive | src/algorithms.rs:113-116 | a pair is reported at all exactly when a < b and both edges are present |
| Scenarios.BuildTestGraph | src/main.rs:70-78 | building the five roads 1→2, 1→3, 2→3, 3→1, 3→4 over the ids they mention gives the test graph |
| Scenarios.ShortestPathScenario | src/main.rs:80-85 | on the test graph, the shortest path from 1 to 4 is `[1, 3, 4]` |
| Scenarios.MostNeighboursScenario | src/main.rs:87-92 | on the test graph, the two nodes with most neighbours are `[1, 3]` |
| Scenarios.TestGraphConnections | src/main.rs:110 | the test graph has 5 connections |
| Scenarios.NodesInfoScenario | src/main.rs:94-103 | on the test graph: total 5 over 4 nodes (mean 1.25), middle values 1 and 2 (median 1.5), mode 2, maximum 2, minimum 0 |
| Scenarios.UndirectedEdgesScenario | src/main.rs:105-113 | on the test graph, the only bidirectional pair is (1, 3), and 2 × 1 / 5 = 0.4 |

## Left out

- Reading the edge list from a file and parsing it (`read_road_data`), and the printing done by `main`: src/main.rs is not part of this model beyond its tests.
- NodesInfo: returns the integer content of the five `f64` results, not the floats. The mean is `total / count`. The median is `medianLow` for an odd count and the average of `medianLow` and `medianHigh` for an even count. The float conversions and divisions are not modelled.
- UndirectedEdgesScenario: states the 40% bidirectional share as an integer equation, not as the `f64` percentage the program computes.
- Hash map and hash set iteration order is an arbitrary choice. Which of several equally connected nodes `FindNodesWithMostNeighbors` keeps, which tied degree `NodesInfo` reports as the mode, and the order of the pairs from `FindUndirectedEdges` are left open, as in the program.
- The in-place sorts (`sort_by`, `sort`, `sort_unstable`) and `reverse` are modelled as functions on sequence values. The sort algorithm is an insertion sort, so only the sorted permutation is modelled, not the library's algorithm or its cost.
- The queue (`VecDeque`) and the vectors are sequence values. Only the predecessor table is an array updated in place.
- `usize` arithmetic is unbounded here. Overflow of `max key + 1` or of the degree sum is not modelled.
- ShortestPathBfs: its precondition that no neighbour exceeds the largest key also excludes graphs where such a neighbour exists but is never reached by the search, on which the program returns normally.
- Panics are preconditions, not behaviour:
  - `unwrap` on a missing source in the builder;
  - `max().unwrap()` on an empty map;
  - an out-of-range `prev` index in the search.
- CountTotalConnections: a ghost function, because it sums over the map's values in an unspecified order. It states the same number the program computes, and `CollectDegrees` computes it in a loop.
