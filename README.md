# campus-paths, modelled in Dafny

This project models the in-memory core of the campus-paths program. It has three parts:

- `Graph` is a mutable, directed, labelled multigraph. It stores a map from each node to the set of its outgoing `Edge`s.
- `Edge` is a label with a start node and an end node. Edges are equal when all three parts are equal.
- `findWeightedPath` is a uniform-cost (Dijkstra-style) search over explicit candidate paths. It ranks candidates by total weight and then by edge count. A small `CampusGraph` façade sits on top of it, resolving building names.

Files:

- `outcomes.dfy`: `Option` and `Result`. Java's `null` results become `None`; Java's exceptions become `Err(IllegalArgument)` or `Err(NullPointer)`.
- `edges.dfy`: the `Edge` value, and the `MutableEdge` class whose label `setLabel` replaces in place. Covers `equals` and `hashCode`, with hashes in 32-bit wrap-around arithmetic.
- `graph.dfy`:
  - functions over the node map that say what each mutator does;
  - the `Graph` class, whose methods update its `nodeMap` field and are proved against those functions;
  - the loops of `removeNode`, `isAdjacent`, `getChildren` and `getDirectedEdgesBetween`.
- `paths.dfy`:
  - path weight, the comparator's order, and paths in a graph;
  - the search itself, over a queue modelled as a sequence with a minimum scan.

  The proofs establish:

  - the result is a least-weight path, and the fewest-edges one among those;
  - "no path" is returned exactly when `end` is unreachable;
  - no node's edges are explored twice.
- `campus.dfy`:
  - `getLocation`, `getBuildings`, `getLongName` and `findPath`;
  - Java's `String.compareTo` order, which the sorted copy returned by `getBuildings` follows.
- `scenarios.dfy`: the integer fixture of `GraphTest`, replayed as verified methods over the modelled operations.

The node type is generic throughout. Campus locations (`PointD`) are an abstract type parameter `P`. Weights are `nat`.

The code and its documentation disagree in three places. The model follows the code in each:

- The class comment of `Edge` (Edge.java:3-5) calls edges immutable, but `setLabel` (Edge.java:72-76) replaces the label. The model keeps this as `MutableEdge.SetLabel`.
- The class comment of `Graph` (Graph.java:8-13) calls graphs immutable, but `addNode`, `removeNode`, `addEdge` and `removeEdge` (Graph.java:51-176) change the node map. The model's `Graph` class updates its `nodeMap` field.
- The doc comment of `findPath` says it throws for an unknown building, but the code prints a message and returns `null` (`None` here).

In `findWeightedPath` (CampusGraph.java:227-236) the extensions of the node being settled are queued before that node joins the settled set. Only edges into nodes already settled are skipped. So a self-loop on the node being settled is queued too; it is discarded when it is popped. The model keeps this order.

## Model

| member | source | states |
|---|---|---|
| Edges.WrapInt32 | cse331/src/graphStructure/Edge.java:101-106 | the result is the 32-bit `int` congruent to its argument modulo 2^32 |
| Edges.MutableEdge.constructor | cse331/src/graphStructure/Edge.java:37-42 | the getters return exactly the label, start and end passed in |
| Edges.MutableEdge.GetLabel | cse331/src/graphStructure/Edge.java:44-50 | returns the current label, which is the one last passed to the constructor or `setLabel` |
| Edges.MutableEdge.GetStart | cse331/src/graphStructure/Edge.java:52-58 | returns the start node fixed at construction |
| Edges.MutableEdge.GetEnd | cse331/src/graphStructure/Edge.java:60-66 | returns the end node fixed at construction |
| Edges.MutableEdge.Value | cse331/src/graphStructure/Edge.java:47-66 | the edge's value triple agrees with `getLabel`, `getStart` and `getEnd` |
| Edges.MutableEdge.SetLabel | cse331/src/graphStructure/Edge.java:72-76 | the label becomes the new one; start and end are unchanged |
| Edges.MutableEdge.Equals | cse331/src/graphStructure/Edge.java:85-94 | true iff the argument is an edge with equal label, start and end; false for every non-edge |
| Edges.MutableEdge.HashCode | cse331/src/graphStructure/Edge.java:101-106 | the hash is `3*label + 7*start + 11*end` modulo 2^32, given the element hashes |
| Edges.EqualEdgesHashEqually | cse331/src/graphStructure/Edge.java:96-106 | edges that are `equals` have equal hash codes for any element hash functions |
| Edges.EqualsSymmetric | cse331/src/graphStructure/Edge.java:85-94 | `a.equals(b)` iff `b.equals(a)` |
| Edges.SeparatelyConstructedEdgesAreEqual | cse331/src/graphStructure/test/EdgeTest.java:40-44 | two edges built separately from the same fields are `equals` |
| Graphs.RepInv | cse331/src/graphStructure/Graph.java:26-29 | the representation invariant: every edge is stored under its start node and ends at a node of the graph; the empty graph satisfies it |
| Graphs.Graph.Valid | cse331/src/graphStructure/Graph.java:309-330 | what `checkRep` checks: every stored edge ends at a node of the graph |
| Graphs.WithNode | cse331/src/graphStructure/Graph.java:51-63 | adding a node: a new node gets no edges and the count grows by one; a present node changes nothing; existing edge sets are kept; the invariant is preserved |
| Graphs.WithoutNode | cse331/src/graphStructure/Graph.java:65-101 | removing a node drops it and exactly the edges that end at it; the invariant is preserved; an absent node changes nothing |
| Graphs.WithEdge | cse331/src/graphStructure/Graph.java:136-148 | adding an edge puts it in its start node's set and changes no other set; the invariant is preserved when both ends are nodes |
| Graphs.WithoutEdge | cse331/src/graphStructure/Graph.java:164-176 | removing an edge takes exactly that triple out of its start node's set and changes nothing else; the invariant is preserved |
| Graphs.AdjacencyQueriesAgree | cse331/src/graphStructure/Graph.java:188-254 | `t` is a child of `s` iff `s` is adjacent to `t` iff the edges from `s` to `t` are non-empty |
| Graphs.ParallelEdgesAreDistinct | cse331/src/graphStructure/test/GraphTest.java:172-176 | two parallel edges with different labels give at least two edges between their nodes |
| Graphs.AddedEdgeIsAdjacent | cse331/src/graphStructure/test/GraphTest.java:198-202 | after adding an edge its start is adjacent to its end, self-loops included |
| Graphs.AddEdgeIdempotent | cse331/src/graphStructure/Graph.java:136-148 | adding the same edge twice equals adding it once |
| Graphs.AddThenRemoveEdge | cse331/src/graphStructure/Graph.java:136-176 | removing an edge that was just added to a graph without it restores the graph |
| Graphs.RemovedEdgeIsGone | cse331/src/graphStructure/test/GraphTest.java:147-151 | after removal the triple is gone; the nodes stay adjacent iff another edge joins them |
| Graphs.AddAll | cse331/src/graphStructure/Graph.java:136-148 | adding a set of edges one `addEdge` at a time, in any order, keeps the nodes and puts each edge in its start node's set |
| Graphs.Rebuild | cse331/src/graphStructure/Graph.java:264-276 | a graph rebuilt from `getNodes()` and every node's `getEdges(n)` by `addNode` and `addEdge` equals the original |
| Graphs.DropEdgesTo | cse331/src/graphStructure/Graph.java:89-96 | the inner loop of `removeNode` keeps exactly the edges that do not end at the removed node |
| Graphs.Graph.constructor | cse331/src/graphStructure/Graph.java:36-39 | a new graph has no nodes and satisfies the invariant |
| Graphs.Graph.GetNodes | cse331/src/graphStructure/Graph.java:273-278 | the result holds exactly the graph's nodes |
| Graphs.Graph.ContainsNode | cse331/src/graphStructure/Graph.java:111-120 | true iff the node is among `getNodes()` |
| Graphs.Graph.Size | cse331/src/graphStructure/Graph.java:285-290 | the number of nodes |
| Graphs.Graph.IsEmpty | cse331/src/graphStructure/Graph.java:297-302 | true iff `size()` is 0 |
| Graphs.Graph.GetEdges | cse331/src/graphStructure/Graph.java:264-266 | a node's outgoing edges, all starting there and ending at nodes; NullPointerException for a missing node |
| Graphs.Graph.AddNode | cse331/src/graphStructure/Graph.java:51-63 | true iff the node was absent; afterwards it is contained; the size grows by one exactly when true; the map becomes `WithNode`; the invariant is kept |
| Graphs.Graph.RemoveNode | cse331/src/graphStructure/Graph.java:65-101 | true iff the node was present; an absent node leaves the graph unchanged; afterwards the node is gone and no edge ends at it; the map becomes `WithoutNode` |
| Graphs.Graph.AddEdge | cse331/src/graphStructure/Graph.java:136-148 | IllegalArgumentException with no change unless both ends are nodes; otherwise true iff the triple was new, and the map becomes `WithEdge` |
| Graphs.Graph.RemoveEdge | cse331/src/graphStructure/Graph.java:164-176 | IllegalArgumentException with no change unless both ends are nodes; otherwise true iff the triple was there, and the map becomes `WithoutEdge` |
| Graphs.Graph.IsAdjacent | cse331/src/graphStructure/Graph.java:188-205 | IllegalArgumentException unless both are nodes; otherwise true iff some edge of `start`, with any label, ends at `end` |
| Graphs.Graph.GetChildren | cse331/src/graphStructure/Graph.java:215-226 | IllegalArgumentException for a missing node; otherwise exactly the end nodes of its edges |
| Graphs.Graph.GetDirectedEdgesBetween | cse331/src/graphStructure/Graph.java:238-254 | IllegalArgumentException unless both are nodes; otherwise exactly the edges of `start` ending at `end` |
| WeightedPaths.Weight | cse331/src/model/CampusGraph.java:196-205 | a path's total length is 0 exactly when every edge on it has length 0 (`PathWeight` ties it to the comparator's summing loops) |
| WeightedPaths.NoWorse | cse331/src/model/CampusGraph.java:195-210 | the comparator's order, by weight and then by edge count: a path that is no worse is no heavier, and one that is not no-worse is strictly beaten by the other (the order is total) |
| WeightedPaths.NoWorseTransitive | cse331/src/model/CampusGraph.java:195-210 | the comparator's order is transitive |
| WeightedPaths.WeightAppend | cse331/src/model/CampusGraph.java:196-205 | the weight of a concatenation is the sum of the weights |
| WeightedPaths.SeedIsFree | cse331/src/model/CampusGraph.java:215 | the zero-weight seed edge adds no weight and one edge |
| WeightedPaths.NoWorseExtend | cse331/src/model/CampusGraph.java:195-210 | appending the same edge to two paths keeps the comparator's order between them |
| WeightedPaths.PrefixNoWorse | cse331/src/model/CampusGraph.java:195-210 | with non-negative weights a prefix ranks no later than the whole path |
| WeightedPaths.PathPrefix | cse331/src/model/CampusGraph.java:227-233 | a prefix of a path is a path to the start of the next edge |
| WeightedPaths.PathExtend | cse331/src/model/CampusGraph.java:227-233 | a path followed by a graph edge from its end is a path to that edge's end |
| WeightedPaths.PathEndsInGraph | cse331/src/graphStructure/Graph.java:26-29 | under the invariant a path from a node ends at a node |
| WeightedPaths.Crossing | cse331/src/model/CampusGraph.java:217-237 | a path leaving the settled set has a first edge from a settled node to an unsettled one |
| WeightedPaths.RemoveAtKeeps | cse331/src/model/CampusGraph.java:218 | removing the head of the queue keeps every other entry |
| WeightedPaths.RankThroughCrossing | cse331/src/model/CampusGraph.java:195-210 | a candidate ranked no later than the frontier extension of a path ranks no later than the whole path |
| WeightedPaths.PoppedIsShortest | cse331/src/model/CampusGraph.java:218-226 | a least-ranked candidate leading to an unsettled node carries a least-weight, fewest-edges path to it |
| WeightedPaths.ReachableKeepsQueue | cse331/src/model/CampusGraph.java:217-238 | while `end` is unsettled and reachable the queue is not empty, so emptying it means no path exists |
| WeightedPaths.FrontierAfterPop | cse331/src/model/CampusGraph.java:218-222 | dropping the head keeps every frontier extension queued, once its node counts as settled |
| WeightedPaths.SettleKeepsInvariants | cse331/src/model/CampusGraph.java:227-236 | queueing the extensions and settling the node keeps every entry a well-formed candidate and the frontier queued |
| WeightedPaths.DiscardStep | cse331/src/model/CampusGraph.java:220-222 | discarding a candidate whose node is settled keeps the search invariant |
| WeightedPaths.SettleStep | cse331/src/model/CampusGraph.java:227-236 | settling the head's node with its path keeps the search invariant |
| WeightedPaths.PathWeight | cse331/src/model/CampusGraph.java:196-205 | the comparator's summing loop computes the path's weight |
| WeightedPaths.Compare | cse331/src/model/CampusGraph.java:195-210 | returns -1, 0 or 1, and `<= 0` exactly when the first path ranks no later than the second, by weight then edge count |
| WeightedPaths.MinIndex | cse331/src/model/CampusGraph.java:218 | the queue's `remove` picks a candidate that ranks no later than every other one |
| WeightedPaths.Extend | cse331/src/model/CampusGraph.java:227-235 | exactly the paths `minPath + [e]` are appended, one for each edge whose end is not settled; earlier entries are kept |
| WeightedPaths.SettleMin | cse331/src/model/CampusGraph.java:227-236 | the node of a least-ranked candidate becomes settled with that candidate's path, and the search invariant is kept |
| WeightedPaths.Turn | cse331/src/model/CampusGraph.java:218-236 | one loop turn: either an answer that is a shortest path (empty when `start == end`), or the invariant kept with progress made |
| WeightedPaths.FindWeightedPath | cse331/src/model/CampusGraph.java:185-239 | IllegalArgumentException iff an end is not a node; a path is returned iff `end` is reachable, and it is a least-weight path with fewest edges among those; `start == end` gives the empty path; no node is expanded twice, and `end` never is |
| Campus.StrLess | cse331/src/model/CampusGraph.java:108 | `String.compareTo` order, which orders the `TreeMap` copy: a string never sorts before itself, and a proper prefix sorts before the longer string |
| Campus.StrLessIrreflexive | cse331/src/model/CampusGraph.java:106-109 | no string sorts before itself |
| Campus.StrLessTransitive | cse331/src/model/CampusGraph.java:106-109 | the string order is transitive |
| Campus.StrLessTotal | cse331/src/model/CampusGraph.java:106-109 | any two different strings are ordered |
| Campus.StrLessAsymmetric | cse331/src/model/CampusGraph.java:106-109 | no two strings sort before each other |
| Campus.HasLeast | cse331/src/model/CampusGraph.java:106-109 | every non-empty set of building names has a least one |
| Campus.LeastKey | cse331/src/model/CampusGraph.java:106-109 | the least name of a non-empty set |
| Campus.SortedEntries | cse331/src/model/CampusGraph.java:106-109 | a strictly key-ordered list holding exactly the map's entries |
| Campus.CampusGraph.constructor | cse331/src/model/CampusGraph.java:71-83 | a model over already-populated name maps and walkway graph |
| Campus.CampusGraph.GetLocation | cse331/src/model/CampusGraph.java:94-99 | the building's location, or null for an unknown name |
| Campus.CampusGraph.GetBuildings | cse331/src/model/CampusGraph.java:106-109 | the short-to-long name entries, each exactly once, in alphabetical order of short name |
| Campus.HasKey | cse331/src/model/CampusGraph.java:125 | `containsKey` on the sorted copy: true exactly when some entry has that key |
| Campus.CampusGraph.GetLongName | cse331/src/model/CampusGraph.java:120-130 | IllegalArgumentException iff the name is not a building; otherwise its long name |
| Campus.CampusGraph.FindPath | cse331/src/model/CampusGraph.java:144-167 | null when either name is unknown; otherwise the contract of `findWeightedPath` between the two locations |
| GraphScenarios.ThreeNodes | cse331/src/graphStructure/test/GraphTest.java:34-36 | adding nodes 1, 2 and 3 to a new graph gives exactly those nodes, with no edges |
| GraphScenarios.Fixture | cse331/src/graphStructure/test/GraphTest.java:42-44 | the fixture's three edges end up exactly in their start nodes' sets |
| GraphScenarios.AddExistingEdge | cse331/src/graphStructure/Graph.java:134-146 | adding an edge already present reports `false`, as `addEdge`'s `@return` promises; the fixture graph has size 3, as GraphTest.java:188-191 checks of its own graph |
| GraphScenarios.ParallelEdges | cse331/src/graphStructure/test/GraphTest.java:172-176 | a second 2→3 edge with another label gives two edges between 2 and 3 |
| GraphScenarios.NewEdgesAreAdjacent | cse331/src/graphStructure/test/GraphTest.java:133-140 | a new edge, and a self-loop, make their ends adjacent |
| GraphScenarios.RemoveOne | cse331/src/graphStructure/test/GraphTest.java:116-125 | removing node 1 leaves two nodes; removing it again reports false; 3 keeps its child 2 |

## Left out

- Null arguments are left out. Dafny values cannot be null, so every `== null` check that throws IllegalArgumentException is not modelled. This covers `addNode`, `removeNode`, `containsNode`, `addEdge`, `removeEdge`, `isAdjacent`, `getChildren`, `getDirectedEdgesBetween`, `getLocation`, `getLongName`, `findPath`, `findWeightedPath` and the `CampusGraph` constructor.
- The non-null checks of `Edge`'s and `CampusGraph`'s `checkRep` are left out for the same reason; those invariants hold by construction. The runtime switches that turn `checkRep` on and off are not modelled. `Graph`'s invariant is the `Valid()` predicate.
- Graphs.RepInv: it also requires that each edge is stored under its own start node. The source's `checkRep` checks only that the end node is in the graph, but every mutator keeps the stronger form.
- Edge `toString` is not modelled: it is string formatting for display.
- Graphs.Graph.RemoveNode: it models the documented intent, that every edge ending at the node is removed. The source removes from a `HashSet` while iterating over it, which can throw ConcurrentModificationException in Java; that failure is not modelled.
- Weights are left out as Java `double`; the model uses `nat` weights. NaN, negative zero, rounding in the comparator's sums, and negative weights are not modelled. The optimality proof relies on weights being non-negative.
- WeightedPaths.MinIndex: it takes the earliest least-ranked candidate in the queue, while Java's `PriorityQueue` heap may pick any of several equally ranked ones. No contract depends on which one: all of them state only that the choice is least-ranked. Which of several equally good paths is returned is therefore not pinned down, just as `HashSet` iteration order does not pin it down in the source.
- Queue storage is left out: candidate paths are immutable sequences rather than `ArrayList`s copied in place, and the priority queue's heap layout is not modelled.
- Campus.StrLess: it compares `char`s as Unicode scalar values. Java compares UTF-16 code units. The two orders can differ only for characters outside the Basic Multilingual Plane.
- Campus.CampusGraph.GetBuildings: it returns the sorted entries as a sequence of pairs rather than a `TreeMap` object.
- Edges.MutableEdge: the graph holds edges as values (`Edge`), while Java stores `Edge` objects. `getEdges`, `getDirectedEdgesBetween` and `findWeightedPath` return those same objects, so calling `setLabel` on one relabels the stored edge in place, and the `HashSet` it sits in may then fail to find it. `MutableEdge` objects never enter a `Graph` here, so relabelling an edge taken from the graph, and that aliasing, are not modelled.
- Edges.MutableEdge.HashCode: it takes the label's and nodes' `hashCode` as function parameters, because those element types are abstract here.
- The `CampusGraph` constructor's file reading is not part of this model. That covers `CampusParser.java`, the data files and `MalformedDataException`. A model is built from maps and a graph that are already populated.
- Console output in `findPath` is left out.
- `PointD` is not part of this model. Locations are an abstract type with equality, so its geometry and its `double` equality are left out.
- The Swing GUI (`mGui`), the text menu (`View.java`) and the test drivers are user interface and I/O. They are left out.
