# DGraph core in Dafny

This project models the core of DGraph, a small Java/Kotlin library of directed graphs and graph algorithms, and proves what the library promises about it.

What is modelled:

- **The graph stores.**
  - `AbstractDirectedGraph`, with `AbstractGraph` as the same store without a loop policy, is class `DirectedGraphs.DirectedGraph`. It holds a vertex set and a global edge set, plus per-vertex outgoing sets, incoming sets and (source, target) bundles, which its set views keep in step by hand.
  - `SimpleGraph`, the older store with its own view classes, is class `SimpleGraphs.SimpleGraph`.
  - An edge is a value `Edge(source, target, ident)`: simple edges are equal by their endpoints, multi-edges by identity. Algorithms take a graph value `Graph(vertices, edges)` and a weight function. For `AbstractDirectedGraph` that value is the store's own vertex and edge sets. `SimpleGraph` is not connected to the algorithms: its `getAllVertices` always answers an empty set.
- **The Fibonacci heap.** Both copies, `util` (checked, with node ownership) and `collections`, are one class `FibonacciHeaps.FibonacciHeap` with a `checked` flag.
  - The class is proved against a value model in `HeapForests`: a forest of heap-ordered trees whose root list starts at `min`.
  - Java's `double` priorities are the four-way `Doubles.Double` (NaN, -infinity, a real, +infinity), with Java's comparisons.
- **The searches.**
  - Breadth- and depth-first search: `Searches`.
  - Dijkstra: `Dijkstras`.
  - Bellman-Ford: `BellmanFords`.
  - Floyd-Warshall: `FloydWarshalls` and `FloydWarshallPaths`.
  - Johnson: `Johnsons` and `JohnsonTuples`.
  - A*: `AStarTuples`, `AStarSearches` and `AStarStale`.
  - Each search is modelled in both its newer (`src/main`) and its older (`src/org`) copy, plus the Kotlin A*.
  - The older Johnson and A* copies share the label-correcting engine of `LazySearches` and `Labels`.
- **The path records.** `SimplePath`/`SimpleWeightedPath`, in Java and Kotlin, are in `Paths`.
- **The properties proved.** Each search is proved against an independent definition: `Graphs.IsPath`, `Graphs.Reachable`, `Graphs.Weight`, `Walks.NoNegativeCycle`, `Walks.Exact` and `Walks.Answers`. The results are:
  - a returned path is a walk from the source to the target;
  - null comes back exactly when the target is unreachable (for the heap-based searches, over the corrected heap: see below);
  - the weight is the least over all walks (fewest edges for BFS; for the A\* copies, when the heuristic is admissible for the target, that is, never negative and never above the weight of a walk to the target);
  - the negative-cycle checks fire exactly when their documented condition holds;
  - every exception comes from its documented cause.

Where the library's documentation and its code disagree, the model follows the code:

- **Loop guard.** `AbstractDirectedGraph` rejects loop edges when `withLoops` is *true*: its guard at line 53 is inverted. `LoopGuard` keeps the inverted guard.
- **Dijkstra and A\* never stop early.** The code compares a heap node with a vertex (`cur.equals(target)`), which never holds, so the newer Dijkstra and A\* copies search to an empty heap.
- **No skip of settled vertices.** Nothing skips a vertex that has already been settled; a settled vertex that is improved again is re-enqueued.
- **Bellman-Ford rounds.** Bellman-Ford runs `|V| - 2` rounds, not `|V| - 1` (see Findings).
- **Vertex removal.** `removeVertex`, `removeAllVertices` and `clear` of `AbstractDirectedGraph` end in ConcurrentModificationException when a vertex has edges to two or more distinct targets (see Findings); the documented cascade is `Cascade`. In `SimpleGraph`, every walk over one of the store's own sets overflows the stack, because `SetExtension.iterator` asks an unmodifiable wrapper of the set, which asks the set again. So `removeVertex` of a known vertex drops its entry from the graph map and then ends in StackOverflowError; `removeAllVertices` ends the same way at its first known vertex; and `clear`, of the store or of any view, overflows before it removes anything (see Findings). The documented behaviour is `RemoveVertexIntended` and `ClearIntended`.
- **Stale bundles.** In `SimpleGraph`, a bundle object that `removeEdge` dropped from its EdgeMap still accepts edges, which are then stored outside every bundle (see Findings). `AddThroughBundle` keeps this; `AddThroughBundleIntended` adds through the pair's current bundle. In `AbstractDirectedGraph` a detached view answers false to an add, as its code says, and a detached bundle's clear throws NullPointerException.

Three defects are corrected rather than followed; each is a Findings row with both versions in the model, and the searches use the corrected one:

- **Heap minimum.** The Fibonacci heap's consolidation moves `min` on `<=` rather than `<`.
- **Heap merge.** `mergeLists` splices the two root rings with the other ring's last node saved first.
- **A\* distance.** The newer A\* replaces a vertex's stored distance whenever it improves it.

## Model

| member | source | states |
|---|---|---|
| DirectedGraphs.DirectedGraph.constructor | src/main/java/org/dgraph/graph/AbstractDirectedGraph.java:458-461 | a new store is empty, consistent, and keeps its edge factory and loop flag |
| DirectedGraphs.DirectedGraph.WithoutLoopPolicy | src/org/dgraph/graph/AbstractGraph.java:405-407 | the older store is the same store with a guard that lets every edge through |
| DirectedGraphs.DirectedGraph.AddVertex | src/main/java/org/dgraph/graph/AbstractDirectedGraph.java:390-399 | true exactly for a new vertex; the vertex is then known with in- and out-degree 0; edges unchanged |
| DirectedGraphs.DirectedGraph.AddEdge | src/main/java/org/dgraph/graph/AbstractDirectedGraph.java:50-74 | true exactly when the (as written, inverted) loop guard passes and the edge is new; then the edge is stored, its endpoints become vertices, the size grows by one and the edge is in its outgoing, incoming and bundle sets; otherwise nothing changes |
| DirectedGraphs.DirectedGraph.AddEdgeBetween | src/main/java/org/dgraph/graph/AbstractDirectedGraph.java:486-489 | a null edge factory gives NullPointerException and no change; otherwise the factory's edge is added as by addEdge |
| DirectedGraphs.DirectedGraph.AddThroughOutgoing | src/main/java/org/dgraph/graph/AbstractDirectedGraph.java:150-174 | the outgoing view of v accepts exactly new edges leaving v that pass the guard, and adds them to the whole store; a view detached by an earlier removal of its vertex accepts nothing and changes nothing |
| DirectedGraphs.DirectedGraph.AddThroughIncoming | src/main/java/org/dgraph/graph/AbstractDirectedGraph.java:100-124 | the incoming view of v accepts exactly new edges entering v that pass the guard, and adds them to the whole store; a detached view accepts nothing and changes nothing |
| DirectedGraphs.DirectedGraph.AddThroughBundle | src/main/java/org/dgraph/graph/AbstractDirectedGraph.java:195-222 | as written: a new matching edge on an attached bundle ends in ConcurrentModificationException with the edge in the global set and bundle only (indices inconsistent); a detached bundle, and any other edge, returns false and changes nothing |
| DirectedGraphs.DirectedGraph.RemoveEdge | src/main/java/org/dgraph/graph/AbstractDirectedGraph.java:580-582 | true exactly for a stored edge; it leaves every index, and its bundle stays attached exactly while it still holds an edge |
| DirectedGraphs.DirectedGraph.RemoveThroughOutgoing | src/main/java/org/dgraph/graph/AbstractDirectedGraph.java:177-184 | an attached view removes exactly stored edges leaving v, from the whole store; a detached view removes nothing |
| DirectedGraphs.DirectedGraph.RemoveThroughIncoming | src/main/java/org/dgraph/graph/AbstractDirectedGraph.java:127-132 | an attached view removes exactly stored edges entering v, from the whole store; a detached view removes nothing |
| DirectedGraphs.DirectedGraph.RemoveThroughBundle | src/main/java/org/dgraph/graph/AbstractDirectedGraph.java:231-254 | a detached bundle or a foreign edge gives false and no change; an edge of a larger bundle is removed everywhere; the bundle's last edge detaches it and then fails with NullPointerException, leaving the indices inconsistent |
| DirectedGraphs.DirectedGraph.RemoveVertex | src/main/java/org/dgraph/graph/AbstractDirectedGraph.java:309-319 | as written: ConcurrentModificationException exactly for a known vertex whose edges reach two or more distinct targets, after it has left the vertex set and lost one bundle while the indices still list it; otherwise true exactly for a known vertex, which is gone together with every edge touching it, and nothing else |
| DirectedGraphs.DirectedGraph.Unhook | src/main/java/org/dgraph/graph/AbstractDirectedGraph.java:402-433 | removeFromOthers fails exactly when the vertex has edges to two or more distinct targets, having removed one whole bundle and nothing else; otherwise the vertex leaves every index together with exactly the edges touching it |
| DirectedGraphs.DirectedGraph.Cascade | src/main/java/org/dgraph/graph/AbstractDirectedGraph.java:402-433 | the documented removal: the vertex goes together with exactly the edges touching it, and the indices stay consistent |
| DirectedGraphs.DirectedGraph.RemoveAllEdges | src/main/java/org/dgraph/graph/AbstractDirectedGraph.java:560-567 | true exactly when some listed edge was stored; exactly the listed edges are gone |
| DirectedGraphs.DirectedGraph.RemoveAllVertices | src/main/java/org/dgraph/graph/AbstractDirectedGraph.java:570-577 | ConcurrentModificationException exactly when some listed vertex, at its turn, is still known and has edges to two or more distinct targets; it stops at the first such vertex with the ones before it gone; otherwise true exactly when some listed vertex was known, and the listed vertices and exactly the edges touching them are gone |
| DirectedGraphs.DirectedGraph.ClearEdges | src/main/java/org/dgraph/graph/AbstractDirectedGraph.java:293-302 | clearing the global edge set removes every edge and keeps every vertex |
| DirectedGraphs.DirectedGraph.ClearOutgoing | src/main/java/org/dgraph/graph/AbstractDirectedGraph.java:293-302 | clearing an attached outgoing view of v removes exactly the edges leaving v; a detached view changes nothing |
| DirectedGraphs.DirectedGraph.ClearIncoming | src/main/java/org/dgraph/graph/AbstractDirectedGraph.java:293-302 | clearing an attached incoming view of v removes exactly the edges entering v; a detached view changes nothing |
| DirectedGraphs.DirectedGraph.ClearBundle | src/main/java/org/dgraph/graph/AbstractDirectedGraph.java:225-228 | as written: an attached bundle is detached first, one of its edges leaves the global set, and the call fails with NullPointerException; a detached bundle fails with NullPointerException and no change |
| DirectedGraphs.DirectedGraph.Clear | src/main/java/org/dgraph/graph/AbstractDirectedGraph.java:293-302 | ConcurrentModificationException exactly when, in the vertex set's iteration order, some vertex still has edges to two or more distinct targets at its turn; the vertex set is then unchanged and the vertices before it have left the indices with their edges; otherwise no vertex and no edge remain and both sizes are 0 |
| DirectedGraphs.DirectedGraph.ContainsEdge | src/main/java/org/dgraph/graph/AbstractDirectedGraph.java:502-507 | false for null, otherwise exactly membership in the edge set; a contained edge is in its outgoing and incoming sets |
| DirectedGraphs.DirectedGraph.ContainsEdgeBetween | src/main/java/org/dgraph/graph/AbstractDirectedGraph.java:510-513 | true exactly when some stored edge runs from v1 to v2 |
| DirectedGraphs.DirectedGraph.ContainsVertex | src/main/java/org/dgraph/graph/AbstractDirectedGraph.java:516-518 | true exactly for a known vertex |
| DirectedGraphs.DirectedGraph.ViewOf | src/main/java/org/dgraph/graph/AbstractDirectedGraph.java:537-545 | getEdgesFromSource and getEdgesToTarget hand out a view exactly for a known vertex, and it is attached to that vertex |
| DirectedGraphs.DirectedGraph.BundleOf | src/main/java/org/dgraph/graph/AbstractDirectedGraph.java:531-534 | getEdges hands out a bundle exactly when some edge joins the pair, and it is attached to the pair |
| DirectedGraphs.DirectedGraph.GetEdges | src/main/java/org/dgraph/graph/AbstractDirectedGraph.java:531-534 | null for an unknown source or when no edge joins the pair; otherwise exactly the stored edges from v1 to v2 |
| DirectedGraphs.DirectedGraph.GetEdgesFromSource | src/main/java/org/dgraph/graph/AbstractDirectedGraph.java:537-540 | null exactly for an unknown vertex, otherwise exactly its out-edges |
| DirectedGraphs.DirectedGraph.GetEdgesToTarget | src/main/java/org/dgraph/graph/AbstractDirectedGraph.java:543-545 | null exactly for an unknown vertex, otherwise exactly its in-edges |
| DirectedGraphs.DirectedGraph.GetInDegree | src/main/java/org/dgraph/graph/AbstractDirectedGraph.java:548-551 | -1 for an unknown vertex, otherwise the number of its in-edges |
| DirectedGraphs.DirectedGraph.GetOutDegree | src/main/java/org/dgraph/graph/AbstractDirectedGraph.java:554-557 | -1 for an unknown vertex, otherwise the number of its out-edges |
| DirectedGraphs.DirectedGraph.SizeOfEdges | src/main/java/org/dgraph/graph/AbstractDirectedGraph.java:590-592 | the number of stored edges |
| DirectedGraphs.DirectedGraph.SizeOfVertices | src/main/java/org/dgraph/graph/AbstractDirectedGraph.java:595-597 | the number of known vertices |
| EdgeIndices.TargetsBetween | src/main/java/org/dgraph/graph/AbstractDirectedGraph.java:238-254 | a target is a key of a vertex's bundle map exactly when some edge runs to it from that vertex |
| EdgeIndices.InsertKeepsIndexed | src/main/java/org/dgraph/graph/AbstractDirectedGraph.java:57-74 | adding a new edge to the bundle, outgoing and incoming sets keeps every index the exact filter of the edge set |
| EdgeIndices.DeleteKeepsIndexed | src/main/java/org/dgraph/graph/AbstractDirectedGraph.java:82-88 | removing a stored edge from every index keeps them exact filters of the smaller edge set |
| EdgeIndices.CascadeAvoids | src/main/java/org/dgraph/graph/AbstractDirectedGraph.java:402-433 | dropping a vertex's out-edges and then its in-edges leaves exactly the edges not touching it |
| SimpleGraphs.Iterate | src/org/dgraph/graph/SimpleGraph.java:22-24 | the set's iterator asks an unmodifiable wrapper, which asks the set again: whatever stack is left, every walk over one of the store's sets ends in StackOverflowError |
| SimpleGraphs.SimpleGraph.constructor | src/org/dgraph/graph/SimpleGraph.java:50-53 | a new store is empty and consistent |
| SimpleGraphs.SimpleGraph.AddVertex | src/org/dgraph/graph/SimpleGraph.java:58-65 | always true; the vertex becomes a key of the graph map, and a known vertex changes nothing |
| SimpleGraphs.SimpleGraph.AddEdge | src/org/dgraph/graph/SimpleGraph.java:82-96 | true exactly for a new edge, which is then stored with its endpoints; otherwise nothing changes |
| SimpleGraphs.SimpleGraph.AddThroughIncoming | src/org/dgraph/graph/SimpleGraph.java:120-134 | the incoming view of a known vertex v accepts exactly new edges entering v, adding them and their source to the whole store |
| SimpleGraphs.SimpleGraph.AddThroughOutgoing | src/org/dgraph/graph/SimpleGraph.java:157-171 | the outgoing view of a known vertex v accepts exactly new edges leaving v, adding them and their target to the whole store |
| SimpleGraphs.SimpleGraph.AddThroughBundle | src/org/dgraph/graph/SimpleGraph.java:196-205 | as written: an attached bundle accepts exactly new edges between its endpoints and the store stays consistent; a detached bundle puts a new matching edge in the global set and in itself, and also in the outgoing and incoming sets (answering true) only when it did not already hold it, so the bundle index misses a stored edge; any other edge changes nothing |
| SimpleGraphs.SimpleGraph.AddThroughBundleIntended | src/org/dgraph/graph/SimpleGraph.java:196-205 | corrected: every bundle handed out, attached or detached, accepts exactly new edges between its endpoints into the whole store, which stays consistent with the edge in the attached bundle of its pair |
| SimpleGraphs.SimpleGraph.RemoveEdge | src/org/dgraph/graph/SimpleGraph.java:99-108 | true exactly for a stored edge, which is gone from the store; a bundle it leaves empty is detached still holding the edge, and no detached bundle is lost |
| SimpleGraphs.SimpleGraph.RemoveThroughIncoming | src/org/dgraph/graph/SimpleGraph.java:137-145 | removes exactly stored edges entering v, from the whole store, detaching a bundle it empties as removeEdge does |
| SimpleGraphs.SimpleGraph.RemoveThroughOutgoing | src/org/dgraph/graph/SimpleGraph.java:174-182 | removes exactly stored edges leaving v, from the whole store, detaching a bundle it empties as removeEdge does |
| SimpleGraphs.SimpleGraph.RemoveThroughBundle | src/org/dgraph/graph/SimpleGraph.java:208-215 | the bundle object loses the edge; true exactly when it held a stored edge; an attached bundle keeps the store consistent and one left empty is detached empty; a detached bundle left empty removes the bundle attached for its pair now, and takes the edge out of the other sets only when it is stored |
| SimpleGraphs.SimpleGraph.RemoveVertex | src/org/dgraph/graph/SimpleGraph.java:68-73 | as written: an unknown vertex gives false and no change; a known vertex leaves the graph map, then the removal of its edges walks a set and ends in StackOverflowError with every edge index unchanged |
| SimpleGraphs.SimpleGraph.RemoveVertexIntended | src/org/dgraph/graph/Graph.java:206-211 | corrected: true exactly for a known vertex, which is gone together with exactly the edges touching it; the store stays consistent |
| SimpleGraphs.SimpleGraph.Isolate | src/org/dgraph/graph/SimpleGraph.java:68-73 | removing the vertex's out-edges and in-edges one by one leaves exactly the edges not touching it, with the store consistent |
| SimpleGraphs.SimpleGraph.RemoveAllEdges | src/org/dgraph/graph/SimpleGraph.java:306-312 | true exactly when some listed edge was stored; exactly those edges are gone |
| SimpleGraphs.SimpleGraph.RemoveAllVertices | src/org/dgraph/graph/SimpleGraph.java:315-321 | never true; false with no change exactly when no listed vertex is known; otherwise StackOverflowError at the first known vertex, which alone has left the graph map, with the edges unchanged |
| SimpleGraphs.SimpleGraph.Clear | src/org/dgraph/graph/SimpleGraph.java:324-327 | as written: the walk over the vertex set overflows the stack before anything changes |
| SimpleGraphs.SimpleGraph.ClearIntended | src/org/dgraph/graph/Graph.java:65-67 | corrected: no vertex and no edge remain, and the store stays consistent |
| SimpleGraphs.SimpleGraph.BundleOf | src/org/dgraph/graph/SimpleGraph.java:263-266 | getEdges hands out a bundle exactly when some edge joins the pair; it is the attached one and holds exactly those edges |
| SimpleGraphs.SimpleGraph.GetAllVertices | src/org/dgraph/graph/SimpleGraph.java:258-260 | as written: always empty, so it equals the vertex set only for an empty store |
| SimpleGraphs.SimpleGraph.ContainsVertex | src/org/dgraph/graph/SimpleGraph.java:241-243 | true exactly for a known vertex |
| SimpleGraphs.SimpleGraph.ContainsEdge | src/org/dgraph/graph/SimpleGraph.java:246-250 | false for null, otherwise membership; a contained edge joins known vertices |
| SimpleGraphs.SimpleGraph.ContainsEdgeBetween | src/org/dgraph/graph/SimpleGraph.java:295-298 | true exactly when some edge runs from v1 to v2 |
| SimpleGraphs.SimpleGraph.GetEdges | src/org/dgraph/graph/SimpleGraph.java:263-266 | exactly the edges from v1 to v2, null when there are none |
| SimpleGraphs.SimpleGraph.GetEdgesFromSource | src/org/dgraph/graph/SimpleGraph.java:269-272 | null exactly for an unknown vertex, otherwise its out-edges |
| SimpleGraphs.SimpleGraph.GetEdgesToTarget | src/org/dgraph/graph/SimpleGraph.java:301-303 | null exactly for an unknown vertex, otherwise its in-edges |
| SimpleGraphs.SimpleGraph.SizeOfEdges | src/org/dgraph/graph/SimpleGraph.java:285-287 | the number of stored edges |
| SimpleGraphs.SimpleGraph.SizeOfVertices | src/org/dgraph/graph/SimpleGraph.java:290-292 | the number of known vertices |
| FibonacciHeaps.Node.constructor | src/org/dgraph/util/FibonacciHeap.java:27-34 | a node carries its value and creator and is not dequeued |
| FibonacciHeaps.FibonacciHeap.constructor | src/org/dgraph/util/FibonacciHeap.java:55-56 | a new heap is empty |
| FibonacciHeaps.FibonacciHeap.GetMin | src/org/dgraph/util/FibonacciHeap.java:242-244 | null exactly for an empty heap, otherwise a member of least priority |
| FibonacciHeaps.FibonacciHeap.IsEmpty | src/org/dgraph/util/FibonacciHeap.java:249-251 | true exactly when getMin is null |
| FibonacciHeaps.FibonacciHeap.Insert | src/org/dgraph/util/FibonacciHeap.java:87-93 | the node joins the heap with its priority and becomes min exactly when its priority is not above the old min's |
| FibonacciHeaps.FibonacciHeap.Enqueue | src/org/dgraph/util/FibonacciHeap.java:111-123 | NaN gives IllegalArgumentException and no change; otherwise a fresh node with the value (owned by the heap in the checked copy) joins and the size grows by one |
| FibonacciHeaps.FibonacciHeap.MergeRing | src/org/dgraph/util/FibonacciHeap.java:95-102 | corrected splice: both rings' nodes with their priorities, the smaller min first |
| FibonacciHeaps.FibonacciHeap.Merge | src/org/dgraph/util/FibonacciHeap.java:129-137 | null or empty other heap: no change; otherwise the other heap ends empty (a heap merged with itself ends empty too) and the sizes add; into a non-empty heap the nodes join with their priorities; into an empty heap no node arrives (as written) |
| FibonacciHeaps.FibonacciHeap.DecreaseKeyUnchecked | src/org/dgraph/collections/FibonacciHeap.java:62-73 | the node takes the new priority and the heap order and min stay correct |
| FibonacciHeaps.FibonacciHeap.DecreaseKey | src/org/dgraph/util/FibonacciHeap.java:157-166 | checked copy: null NullPointerException, foreign node then NaN then larger priority IllegalArgumentException; older copy: NaN first, then null node; a rejected call changes nothing, an accepted one sets the priority |
| FibonacciHeaps.FibonacciHeap.DequeueMin | src/org/dgraph/util/FibonacciHeap.java:172-237 | null for an empty heap; otherwise a node of least priority leaves, marked dequeued, every other node stays, root ranks end pairwise distinct and the size drops by one |
| FibonacciHeaps.FibonacciHeap.DeleteMember | src/org/dgraph/util/FibonacciHeap.java:142-148 | the node goes to -infinity and the min is dequeued; that is the node itself unless another node already had -infinity |
| FibonacciHeaps.FibonacciHeap.Delete | src/org/dgraph/util/FibonacciHeap.java:142-148 | null or foreign nodes are rejected with no change; otherwise as DeleteMember |
| HeapForests.MinIsLeast | src/org/dgraph/util/FibonacciHeap.java:242-244 | in a heap-ordered forest whose first root is least, that root is least overall |
| HeapForests.InsertRootKeeps | src/org/dgraph/util/FibonacciHeap.java:87-93 | inserting a root keeps every node, the heap order and the least root first |
| HeapForests.ConsolidateKeeps | src/org/dgraph/util/FibonacciHeap.java:189-231 | consolidation with `<=` keeps every node and the heap order, leaves distinct root ranks and a least min |
| HeapForests.DequeueRootsKeeps | src/org/dgraph/util/FibonacciHeap.java:172-237 | dequeueMin's ring loses exactly the old min and keeps heap order, least-root-first and distinct ranks |
| HeapForests.StrictTieLosesMin | src/org/dgraph/util/FibonacciHeap.java:202-227 | with `<` two equal roots are linked and min is left on the non-root; with `<=` it moves to the new root |
| HeapForests.DecreaseRootsKeeps | src/org/dgraph/util/FibonacciHeap.java:58-85 | decreasing a key (cutting as needed) keeps every node, the heap order and the least root first |
| HeapForests.MergeRingsKeeps | src/org/dgraph/util/FibonacciHeap.java:95-102 | merged rings hold both rings' nodes, heap-ordered, least root first |
| HeapForests.MergeKeeps | src/org/dgraph/util/FibonacciHeap.java:129-137 | merging two heaps gives a heap of both node sets, each with its own priority |
| HeapForests.DecreaseKeeps | src/org/dgraph/util/FibonacciHeap.java:157-166 | decreaseKey to a priority not above the old one leaves a heap of the same nodes |
| HeapForests.DequeueKeeps | src/org/dgraph/util/FibonacciHeap.java:172-237 | the dequeued node is least and the rest is a heap with distinct root ranks |
| RingLinks.AsWrittenBreaksRing | src/org/dgraph/util/FibonacciHeap.java:95-102 | the splice as written, on two one-node rings, leaves left/right pointers inconsistent |
| RingLinks.CorrectedJoinsRing | src/org/dgraph/util/FibonacciHeap.java:95-102 | the corrected splice of the same rings gives the consistent ring a, b |
| RingLinks.CorrectedConsistent | src/org/dgraph/collections/FibonacciHeap.java:83-90 | the corrected splice keeps left the inverse of right whenever the two rings are distinct |
| Doubles.Add | src/main/java/org/dgraph/graph/algorithm/AStarSearch.java:54-66 | Java double addition: NaN exactly for NaN operands or opposite infinities, +infinity exactly when one side is +infinity and the other is not NaN or -infinity, -infinity likewise, the sum for two reals |
| Doubles.LtTotal | src/org/dgraph/util/FibonacciHeap.java:74-85 | apart from NaN, Java's `<` is a strict total order with `<=` its reflexive closure |
| Graphs.EnumeratesSize | src/main/java/org/dgraph/graph/algorithm/FloydWarshall.java:24-26 | a hash-set iteration lists as many entries as the set has elements |
| Graphs.WeightAppend | src/main/java/org/dgraph/graph/path/SimpleWeightedPath.java:14-18 | the weight of a concatenation is the sum of the weights |
| Graphs.PathAppend | src/main/java/org/dgraph/graph/algorithm/BellmanFord.java:96-112 | walks compose and their weights add |
| Graphs.FeasibleBound | src/main/java/org/dgraph/graph/algorithm/Johnson.java:35-42 | potentials no edge can relax bound every walk from their keys |
| Walks.Shortcut | src/main/java/org/dgraph/graph/algorithm/BellmanFord.java:49 | every walk has one between the same ends that is no longer and is empty or has fewer edges than the graph has vertices, and that is no heavier without negative cycles |
| Walks.Simplify | src/main/java/org/dgraph/graph/algorithm/FloydWarshall.java:46-56 | every walk has a simple one between the same ends, no heavier without negative cycles |
| Walks.NegativeCycleSimple | src/main/java/org/dgraph/graph/algorithm/FloydWarshall.java:60-63 | some cycle is negative exactly when some simple closed walk is negative |
| Paths.VerticesFollowPath | src/main/java/org/dgraph/graph/path/SimplePath.java:19-32 | on a walk, the vertex list has one more entry than the edges, runs from source to target and each edge joins consecutive vertices |
| Paths.AccumulatedIsWeight | src/main/java/org/dgraph/graph/path/SimpleWeightedPath.java:14-15 | adding weights one by one from 0 gives the walk's weight |
| Paths.Distance | src/org/dgraph/graph/path/SimpleWeightedPath.java:11-19 | +infinity exactly for a null edge list, otherwise the walk's weight |
| Paths.DistanceExtends | src/main/java/org/dgraph/graph/path/SimpleWeightedPath.java:11-19 | extending a path by an edge adds the edge's weight; the empty path has distance 0 |
| Paths.KotlinWalkOnDirectedPath | src/main/kotlin/org/dzhyrma/dgraph/path/WeightedPath.kt:29-43 | on a directed walk the Kotlin vertex walk lists each edge's source |
| Paths.KotlinAgreesWithJava | src/main/kotlin/org/dzhyrma/dgraph/path/WeightedPath.kt:29-49 | on a non-empty walk the Kotlin and Java records list the same vertices and distance |
| Searches.Walk | src/main/java/org/dgraph/graph/algorithm/BreadthFirstSearch.java:34-42 | the edges collected back from the target are exactly its recorded chain of predecessor edges, a walk from the source to the target |
| Searches.Search | src/main/java/org/dgraph/graph/algorithm/BreadthFirstSearch.java:14-30 | NullPointerException exactly for an unknown source other than the target; otherwise the predecessor tree records the target exactly when it is reachable, and with a queue every depth is the fewest hops |
| Searches.FindPath | src/main/java/org/dgraph/graph/algorithm/DepthFirstSearch.java:13-41 | NullPointerException exactly for an unknown source other than the target; null exactly when unreachable; otherwise a walk from source to target, empty when they coincide |
| Searches.BreadthFirstPath | src/main/java/org/dgraph/graph/algorithm/BreadthFirstSearch.java:13-43 | as FindPath, and no walk to the target has fewer edges |
| Searches.DepthFirstPath | src/main/java/org/dgraph/graph/algorithm/DepthFirstSearch.java:13-41 | as FindPath with a stack |
| Searches.Predecessors | src/org/dgraph/graph/algorithm/DepthFirstSearch.java:12-27 | the older copies' predecessor vertex is the source of the recorded edge |
| Searches.VertexWalk | src/org/dgraph/graph/algorithm/DepthFirstSearch.java:30-37 | the pushed list is exactly the vertex list of the traced path from the source to the target |
| Searches.VertexListShape | src/org/dgraph/graph/algorithm/BreadthFirstSearch.java:31-38 | the list read off the tree has the i-th vertex at depth i, so none repeats |
| Searches.FindVertices | src/org/dgraph/graph/algorithm/DepthFirstSearch.java:11-38 | NullPointerException exactly for an unknown source other than the target; null exactly when unreachable; otherwise a distinct vertex list from source to target joined by edges |
| Searches.BreadthFirstVertices | src/org/dgraph/graph/algorithm/BreadthFirstSearch.java:12-39 | as FindVertices, with the fewest hops |
| Searches.DepthFirstVertices | src/org/dgraph/graph/algorithm/DepthFirstSearch.java:11-38 | as FindVertices with a stack |
| Dijkstras.Scan | src/main/java/org/dgraph/graph/algorithm/Dijkstra.java:25-38 | the out-edge loop throws exactly when some out-edge is negative, otherwise relaxes them all |
| Dijkstras.Settle | src/main/java/org/dgraph/graph/algorithm/Dijkstra.java:16-39 | the settle loop: NullPointerException exactly for an unknown source, IllegalArgumentException exactly when a reachable edge is negative, otherwise least distances for exactly the reachable vertices |
| Dijkstras.ShortestPath | src/main/java/org/dgraph/graph/algorithm/Dijkstra.java:15-51 | NullPointerException exactly for an unknown source; IllegalArgumentException exactly for a reachable negative edge; null exactly when unreachable; otherwise a walk of least weight |
| Dijkstras.TupleWalk | src/org/dgraph/graph/algorithm/Dijkstra.java:42-48 | source equal to target ends in NullPointerException (the loop guard reads a null predecessor); otherwise the list is the traced vertices from source to target, each tagged with its settled distance |
| Dijkstras.ShortestTuples | src/org/dgraph/graph/algorithm/Dijkstra.java:15-49 | as ShortestPath, but source equal to target is NullPointerException; the tuple list starts at (source, 0), is joined by edges and carries least distances |
| BellmanFords.Relaxations | src/main/java/org/dgraph/graph/algorithm/BellmanFord.java:45-75 | the rounds loop computes exactly the `|V| - 2` rounds of relaxation in the edge set's order, stopping after a quiet round |
| BellmanFords.RoundsFromStart | src/org/dgraph/graph/algorithm/BellmanFord.java:36-60 | after k rounds every distance is a walk's weight and bounds every walk of at most k edges |
| BellmanFords.CheckedShortest | src/main/java/org/dgraph/graph/algorithm/BellmanFord.java:78-91 | when the check finds nothing on a closed reached set, every traced path has least weight |
| BellmanFords.IntendedRoundsReach | src/main/java/org/dgraph/graph/algorithm/BellmanFord.java:49 | with `|V| - 1` rounds the reached vertices are exactly the reachable ones and, without negative cycles, the check is silent and distances least |
| BellmanFords.AsWrittenMissesVertex | src/main/java/org/dgraph/graph/algorithm/BellmanFord.java:49 | with the rounds as written a reachable vertex two edges away is missed |
| BellmanFords.BuildPath | src/main/java/org/dgraph/graph/algorithm/BellmanFord.java:96-112 | builds the traced path of the target; StackOverflowError only when every trace is longer than the recursion depth |
| BellmanFords.ShortestPaths | src/main/java/org/dgraph/graph/algorithm/BellmanFord.java:40-94 | the relaxed labels are the `|V| - 2` rounds; IllegalArgumentException only with the check on and some reached vertex offending, StackOverflowError only when some trace outruns the recursion depth, and success exactly when every vertex passes; without negative cycles never StackOverflowError, and success whenever the check is off; then the source maps to the empty path, unreached vertices with null edges, reached ones with their traced paths |
| BellmanFords.PredecessorTable | src/org/dgraph/graph/algorithm/BellmanFord.java:31-73 | IllegalArgumentException only with the check on, and always when a reached vertex offends; otherwise every vertex with (predecessor, distance), (null, +infinity) when unreached |
| FloydWarshalls.Distances | src/main/java/org/dgraph/graph/algorithm/FloydWarshall.java:19-56 | every cell is justified by a walk and at most every simple walk's weight; without negative cycles the predecessor matrices form one tree per source |
| FloydWarshalls.Round | src/main/java/org/dgraph/graph/algorithm/FloydWarshall.java:45-55 | with entry (k, k) not negative, the in-place round leaves row and column k alone and updates every cell as if all read the matrices from before the round |
| FloydWarshalls.SeedTrees | src/main/java/org/dgraph/graph/algorithm/FloydWarshall.java:27-43 | after seeding every recorded edge leaves the source itself, so every predecessor chain is one edge long |
| FloydWarshalls.SettledRound | src/main/java/org/dgraph/graph/algorithm/FloydWarshall.java:45-55 | without negative cycles no diagonal entry is negative, so every round leaves row and column k alone |
| FloydWarshalls.RoundTrees | src/main/java/org/dgraph/graph/algorithm/FloydWarshall.java:45-55 | without negative cycles a round keeps every entry at least its predecessor's entry plus the recorded edge, and keeps every predecessor chain returning to its source |
| FloydWarshalls.StillTraces | src/main/java/org/dgraph/graph/algorithm/FloydWarshall.java:45-55 | after such a round the predecessors of any cell with a recorded edge lead back to the source |
| FloydWarshalls.Retrace | src/main/java/org/dgraph/graph/algorithm/FloydWarshall.java:45-55 | the new chain alternates between the old chains of row i and row k, and the vertices where it switches never repeat, since a repeat would close a negative cycle |
| FloydWarshalls.Bounds | src/main/java/org/dgraph/graph/algorithm/FloydWarshall.java:46-56 | without negative cycles a cell bounds every walk between its vertices |
| FloydWarshalls.Solved | src/main/java/org/dgraph/graph/algorithm/FloydWarshall.java:46-56 | without negative cycles every cell is the least walk weight, +infinity when none |
| FloydWarshalls.NegativeDiagonal | src/main/java/org/dgraph/graph/algorithm/FloydWarshall.java:60-63 | some diagonal cell is negative exactly when the graph has a negative cycle |
| FloydWarshalls.NegativeEntry | src/org/dgraph/graph/algorithm/FloydWarshall.java:47-50 | the diagonal check finds a negative entry exactly when there is one |
| FloydWarshalls.PredecessorTable | src/org/dgraph/graph/algorithm/FloydWarshall.java:12-63 | IllegalArgumentException exactly when a negative cycle exists; otherwise every pair has its exact distance and the last hop of a least walk |
| FloydWarshallPaths.BuildPath | src/main/java/org/dgraph/graph/algorithm/FloydWarshall.java:81-98 | builds the traced path for the pair, or a null-edge path without a recorded edge; StackOverflowError only when every trace is too long |
| FloydWarshallPaths.Starts | src/main/java/org/dgraph/graph/algorithm/FloydWarshall.java:60-68 | throws exactly for a negative diagonal entry, otherwise every source starts with its empty path |
| FloydWarshallPaths.FindAllShortestPaths | src/main/java/org/dgraph/graph/algorithm/FloydWarshall.java:18-79 | IllegalArgumentException exactly when a negative cycle exists, and success otherwise: every predecessor chain returns to its source, so the recursion never overflows; every pair maps to a path answering it: a least-weight walk, or null edges when unreachable |
| Johnsons.PotentialLoops | src/main/java/org/dgraph/graph/algorithm/Johnson.java:21-34 | the potentials are exactly `|V| - 2` rounds of edge relaxation from 0 |
| Johnsons.CheckPotentials | src/main/java/org/dgraph/graph/algorithm/Johnson.java:35-42 | throws exactly when the potentials are not feasible |
| Johnsons.FeasibleNoNegative | src/main/java/org/dgraph/graph/algorithm/Johnson.java:35-42 | feasible potentials rule out negative cycles |
| Johnsons.ReducedWeight | src/main/java/org/dgraph/graph/algorithm/Johnson.java:53 | the reduced weights telescope along any walk |
| Johnsons.ReducedNonNegative | src/main/java/org/dgraph/graph/algorithm/Johnson.java:53 | with feasible potentials no reduced weight is negative |
| Johnsons.IntendedFeasible | src/main/java/org/dgraph/graph/algorithm/Johnson.java:26 | with `|V| - 1` rounds a graph without negative cycles passes the check |
| Johnsons.AsWrittenRejects | src/main/java/org/dgraph/graph/algorithm/Johnson.java:26 | with the rounds as written an acyclic graph fails the check |
| Johnsons.BuildPath | src/main/java/org/dgraph/graph/algorithm/Johnson.java:80-90 | builds the path of the target's recorded chain, keeping the map's other entries |
| Johnsons.FromSource | src/main/java/org/dgraph/graph/algorithm/Johnson.java:44-75 | for feasible potentials, every vertex maps to a path answering it under the original weights |
| Johnsons.AllShortestPaths | src/main/java/org/dgraph/graph/algorithm/Johnson.java:20-78 | IllegalArgumentException exactly when the computed potentials are not feasible (always with a negative cycle); otherwise every pair maps to a path answering it |
| JohnsonTuples.RestoredExact | src/org/dgraph/graph/algorithm/Johnson.java:60-65 | the shifted-back tuple holds the least original weight and the last hop of such a walk |
| JohnsonTuples.TuplesFromSource | src/org/dgraph/graph/algorithm/Johnson.java:35-66 | every vertex maps to a tuple answering it |
| JohnsonTuples.AllShortestTuples | src/org/dgraph/graph/algorithm/Johnson.java:13-69 | IllegalArgumentException exactly when the computed potentials are not feasible; otherwise every pair has its least distance and last hop |
| Labels.Settled | src/org/dgraph/graph/algorithm/Johnson.java:40-59 | when nothing waits, labels are least walk weights and exist exactly for reachable vertices |
| LazySearches.Relax | src/org/dgraph/graph/algorithm/AStarSearch.java:26-45 | fails only on a negative edge under the check or on a NaN key; otherwise labels only go down, the target ends no worse than via the edge, and it is either left alone or improved and enqueued again |
| LazySearches.Search | src/org/dgraph/graph/algorithm/Johnson.java:36-59 | the label-correcting search: NullPointerException exactly for an unknown source other than the stop vertex, IllegalArgumentException only for a reachable negative edge or NaN key; run to an empty heap, every vertex's label is its least walk weight (none exactly when unreachable); stopped at the target, every labelled vertex is done or has a live heap entry, and the least priority taken bounds the target's distance plus heuristic from above and every live entry's from below |
| AStarTuples.Trace | src/org/dgraph/graph/algorithm/AStarSearch.java:50-55 | the tuple list runs from (null, 0) to the target's tuple, each naming the vertex before it |
| AStarTuples.FindShortestPath | src/org/dgraph/graph/algorithm/AStarSearch.java:15-56 | NullPointerException exactly for an unknown source other than the target; IllegalArgumentException only for a reachable negative edge or NaN key; null exactly when unreachable; otherwise a traced tuple list whose last distance, when the heuristic is admissible for the target, is at most the weight of every walk from the source to the target |
| AStarTuples.Optimal | src/org/dgraph/graph/algorithm/AStarSearch.java:21-24 | when the search stops because the target left the heap and the heuristic is admissible for the target, the target's distance is at most the weight of every walk from the source to it |
| AStarSearches.Search | src/main/java/org/dgraph/graph/algorithm/AStarSearch.java:27-73 | NullPointerException exactly for an unknown source other than the stop vertex; a NaN start priority gives IllegalArgumentException; other failures only for a reachable negative edge or NaN key; run to an empty heap, labels are least walk weights for exactly the reachable vertices; stopped, the stop vertex is labelled and was least in the heap |
| AStarSearches.Unwind | src/main/java/org/dgraph/graph/algorithm/AStarSearch.java:81-89 | the walk back is a walk from the source no heavier than the target's label |
| AStarSearches.FindShortestPath | src/main/java/org/dgraph/graph/algorithm/AStarSearch.java:21-90 | with the distance refreshed: NullPointerException exactly for an unknown source, IllegalArgumentException only for a reachable negative edge or NaN key, null exactly when unreachable, otherwise a least-weight walk |
| AStarSearches.UnwindKotlin | src/main/kotlin/org/dzhyrma/dgraph/algo/AStarSearch.kt:115-129 | the Kotlin walk back is a walk from the source no heavier than the target's label |
| AStarSearches.Optimal | src/main/kotlin/org/dzhyrma/dgraph/algo/AStarSearch.kt:46-61 | when the target leaves the heap under an admissible heuristic, its label is at most every walk's weight |
| AStarSearches.Perform | src/main/kotlin/org/dzhyrma/dgraph/algo/AStarSearch.kt:33-64 | IllegalStateException only for a reachable negative edge; IllegalArgumentException only for a NaN heuristic; null exactly when unreachable; otherwise a walk from source to target, least under an admissible heuristic, with distance +infinity when source equals target |
| AStarStale.Offer | src/main/java/org/dgraph/graph/algorithm/AStarSearch.java:54-67 | an offer not below the stored distance changes nothing; it is rejected exactly when below the distance but above the current priority |
| AStarStale.RefreshedNeverThrows | src/main/java/org/dgraph/graph/algorithm/AStarSearch.java:59-67 | with the distance refreshed no sequence of offers is rejected and the stored distance is the least offer |
| AStarStale.StaleThrows | src/main/java/org/dgraph/graph/algorithm/AStarSearch.java:59-67 | as written, offers 6 then 8 to a vertex at 10 end in IllegalArgumentException; refreshed, the vertex ends at 6 |

## Left out

- MinCostMaxFlow and PushRelabel: not part of this model, which covers the stores, the heap, the searches and the path records.
- Serialization (`readObject`/`writeObject`), `toString`, `hashCode`/`equals` of edges and paths: not modelled; edges are values.
- Fail-fast iterators (`modCount`, `SetIterator`, `removeIf`, iterator `remove`): modelled only where they decide an outcome, as ConcurrentModificationException results.
- The edge classes, `Tuple` and `NewClass`: the edge classes are folded into `Edge`/`Ident`, tuples into datatypes; the demo class and the unit tests are not modelled.
- Floating point: weights are real numbers without rounding; only the heap priorities carry NaN and the infinities. Infinite or NaN edge weights are not modelled.
- Hash iteration order: taken as a parameter (`order`, `vorder`) or left unspecified; every result holds for any order.
- FibonacciHeaps.FibonacciHeap.DequeueMin: the consolidation array `new Node[32 - numberOfLeadingZeros(size)]` (src/org/dgraph/util/FibonacciHeap.java:191, src/org/dgraph/collections/FibonacciHeap.java:136) is not modelled; root ranks go into an unbounded table. Cuts shrink a tree without lowering its root's rank, so a rank can reach the array's length. For instance: enqueue 9 keys, dequeueMin, decrease a grandchild and a great-grandchild of the surviving root below every key, then dequeueMin twice. That leaves 7 nodes, an array of length 3 and a root of rank 3. Java then throws ArrayIndexOutOfBoundsException at util line 194, while the model's DequeueMin succeeds.
- FibonacciHeaps.FibonacciHeap.DequeueMin: uses the corrected `<=` update of `min` (see Findings); the as-written `<` is kept in `HeapForests.Consolidate` with `strict = true`.
- FibonacciHeaps.FibonacciHeap.MergeRing: uses the corrected pointer splice (see Findings); the ring is a sequence, so the as-written splice is shown on raw pointers in `RingLinks`.
- FibonacciHeaps.FibonacciHeap.Size: the counter is exposed without a contract relating it to the node count, since the as-written merge into an empty heap breaks that relation.
- AStarSearches.FindShortestPath: refreshes the node's distance on decreaseKey (see Findings); the as-written stale distance is modelled for one vertex in `AStarStale`, not for the whole loop.
- Dijkstras.ShortestPath: the early exit at the target is never taken (a heap node is compared with a vertex), so it is modelled as a search to an empty heap.
- FibonacciHeaps.FibonacciHeap.DecreaseKey: requires a node still in this heap. A node already dequeued from the same heap passes Java's ownership check, and then the cut reads its stale parent; that case is not modelled. The library's searches check `isDequeued()` and never pass one.
- FibonacciHeaps.FibonacciHeap.Delete: requires a node still in this heap, as for DecreaseKey. Java's delete of a node already dequeued from the same heap ends in NullPointerException; that case is not modelled. The library never deletes a dequeued node.
- Dijkstras.Settle: runs on the corrected heap (`<=` in consolidation, the corrected merge), so its results are not promised for the as-written heap. With ties the as-written `min` can end on a non-root node: for instance s->a, s->b, s->c of weight 1, then a->a', b->b', c->c'.
- Dijkstras.ShortestPath: runs on the corrected heap (`<=` in consolidation, the corrected merge), so its results are not promised for the as-written heap. With ties the as-written `min` can end on a non-root node: for instance s->a, s->b, s->c of weight 1, then a->a', b->b', c->c'.
- Dijkstras.ShortestTuples: runs on the corrected heap (`<=` in consolidation, the corrected merge), so its results are not promised for the as-written heap. With ties the as-written `min` can end on a non-root node: for instance s->a, s->b, s->c of weight 1, then a->a', b->b', c->c'.
- Johnsons.FromSource: runs on the corrected heap (`<=` in consolidation, the corrected merge), so its results are not promised for the as-written heap. With ties the as-written `min` can end on a non-root node: for instance s->a, s->b, s->c of weight 1, then a->a', b->b', c->c'.
- Johnsons.AllShortestPaths: runs on the corrected heap (`<=` in consolidation, the corrected merge), so its results are not promised for the as-written heap. With ties the as-written `min` can end on a non-root node: for instance s->a, s->b, s->c of weight 1, then a->a', b->b', c->c'.
- JohnsonTuples.TuplesFromSource: runs on the corrected heap (`<=` in consolidation, the corrected merge), so its results are not promised for the as-written heap. With ties the as-written `min` can end on a non-root node: for instance s->a, s->b, s->c of weight 1, then a->a', b->b', c->c'.
- JohnsonTuples.AllShortestTuples: runs on the corrected heap (`<=` in consolidation, the corrected merge), so its results are not promised for the as-written heap. With ties the as-written `min` can end on a non-root node: for instance s->a, s->b, s->c of weight 1, then a->a', b->b', c->c'.
- LazySearches.Search: runs on the corrected heap (`<=` in consolidation, the corrected merge), so its results are not promised for the as-written heap. With ties the as-written `min` can end on a non-root node: for instance s->a, s->b, s->c of weight 1, then a->a', b->b', c->c'.
- AStarTuples.FindShortestPath: runs on the corrected heap (`<=` in consolidation, the corrected merge), so its results are not promised for the as-written heap. With ties the as-written `min` can end on a non-root node: for instance s->a, s->b, s->c of weight 1, then a->a', b->b', c->c'.
- AStarSearches.Search: runs on the corrected heap (`<=` in consolidation, the corrected merge), so its results are not promised for the as-written heap. With ties the as-written `min` can end on a non-root node: for instance s->a, s->b, s->c of weight 1, then a->a', b->b', c->c'.
- AStarSearches.FindShortestPath: runs on the corrected heap (`<=` in consolidation, the corrected merge), so its results are not promised for the as-written heap. With ties the as-written `min` can end on a non-root node: for instance s->a, s->b, s->c of weight 1, then a->a', b->b', c->c'.
- AStarSearches.Perform: runs on the corrected heap, as above. It also takes the Kotlin `org.dzhyrma.dgraph.util.FibonacciHeap` to behave like the Java `util` heap (NaN priority gives IllegalArgumentException, the same decreaseKey checks); that Kotlin class is not part of this model.
- BellmanFords.BuildPath, FloydWarshallPaths.BuildPath: Java recursion depth is a `fuel` bound; StackOverflowError is reported only when every trace is longer than the fuel.
- Kotlin `graph.forEachEdge` and the Kotlin `Graph` interface: taken as iteration over the out-edges of a vertex, which is how the Java stores answer `getEdgesFromSource`.
- Null arguments: `Objects.requireNonNull` in `VertexSet.add` (src/org/dgraph/graph/SimpleGraph.java:59), `removeAllEdges` (:307) and `removeAllVertices` (:316), the other null checks of the stores, and a heuristic that returns null are not modelled; vertices, edges, collections and heuristic values are never null in the model.
- SimpleGraphs.SimpleGraph.RemoveVertex: models the call up to the StackOverflowError; the store it leaves, with the vertex gone from the graph map but its edges still indexed, is not continued, since every later operation requires the consistent store.
- SimpleGraphs.SimpleGraph.AddThroughIncoming, SimpleGraphs.SimpleGraph.AddThroughOutgoing, SimpleGraphs.SimpleGraph.RemoveThroughIncoming, SimpleGraphs.SimpleGraph.RemoveThroughOutgoing: take the view of a known vertex. A view outlives its vertex only after a removeVertex that overflowed, and that state is not continued; after `RemoveVertexIntended` the views of the removed vertex are retired with it.
- SimpleGraphs.Iterate: stands for `clear` on the views (src/org/dgraph/graph/SimpleGraph.java:27-30) as well as on the store, and for `removeAll` handed one of the store's own sets (:33-39); these overflow before they change anything, so no separate member models each view's clear.
- View `removeAll` with a caller's collection (src/org/dgraph/graph/SimpleGraph.java:33-39): not modelled as its own member; it calls the view's `remove` for each element, which `RemoveThroughIncoming`, `RemoveThroughOutgoing` and `RemoveThroughBundle` model one call at a time.
- Searches with a source that is not a vertex, in the Kotlin A*: `Perform` requires the source to be a vertex or equal to the target, since the Kotlin graph lookup is outside this model.

## Findings

| source | as written | input that shows it | evidently intended | confidence | as-written member | corrected member |
|---|---|---|---|---|---|---|
| src/org/dgraph/util/FibonacciHeap.java:95-102 | `min.right.left = node.left` reads `node.left` after it was set to `min` | merging two one-node heaps a and b leaves `a.left == a` while `a.right == b` | the other ring's last node saved before `node.left` changes | high, not executed | RingLinks.AsWrittenBreaksRing | RingLinks.CorrectedJoinsRing |
| src/org/dgraph/util/FibonacciHeap.java:202-227 | `min` moves only to a root of strictly smaller priority during consolidation | two roots of equal priority 1: the old `min` is linked below the other root and `min` is left on a non-root | `<=`, so `min` follows the surviving root | high, not executed | HeapForests.StrictTieLosesMin | HeapForests.DequeueRootsKeeps |
| src/main/java/org/dgraph/graph/algorithm/BellmanFord.java:49 | `for (i = 2; i < vSize; i++)` runs `|V| - 2` rounds | vertices 0, 1, 2, edges 0->1, 1->2, iterated 1->2 first: vertex 2 is never reached | `|V| - 1` rounds, as the comment says | high, not executed | BellmanFords.AsWrittenMissesVertex | BellmanFords.IntendedRoundsReach |
| src/main/java/org/dgraph/graph/algorithm/Johnson.java:26 | `for (i = 1; i < |V| - 1; i++)` runs `|V| - 2` rounds | chain 0->1->2 with weights -1, edge 1->2 iterated first: the check throws on an acyclic graph | `|V| - 1` rounds | high, not executed | Johnsons.AsWrittenRejects | Johnsons.IntendedFeasible |
| src/main/java/org/dgraph/graph/algorithm/AStarSearch.java:59-67 | decreaseKey lowers the priority but the node's tuple keeps its old distance | s->x(10), s->y(1), s->z(2), y->x(5), z->x(6), zero heuristic: x is offered 6, then 8 < 10, and decreaseKey(8) above 6 throws | replace the stored distance on every improvement, as the Kotlin copy does | high, not executed | AStarStale.StaleThrows | AStarStale.RefreshedNeverThrows |
| src/main/java/org/dgraph/graph/AbstractDirectedGraph.java:410-412 | removeFromOthers iterates `map.keySet()` while each bundle's `detach` removes its key from that same map | edges a->b and a->c, then removeVertex(a): the second key throws ConcurrentModificationException after the bundle to b is gone, and clear() fails the same way | every bundle of the vertex removed, as the documented cascade does | high, not executed | DirectedGraphs.DirectedGraph.RemoveVertex | DirectedGraphs.DirectedGraph.Cascade |
| src/org/dgraph/graph/SimpleGraph.java:22-24 | `SetExtension.iterator` returns the iterator of `Collections.unmodifiableSet(this)`, whose own iterator asks `this.iterator()` again | `addVertex(a)` then `removeVertex(a)`: the graph map loses `a`, then `edges.removeAll(map.edges)` walks a SetExtension and throws StackOverflowError, leaving `a`'s incoming set and any edges indexed | the iterator of the HashSet itself, so that removeVertex removes the vertex and its edges and returns true | high, not executed | SimpleGraphs.SimpleGraph.RemoveVertex | SimpleGraphs.SimpleGraph.RemoveVertexIntended |
| src/org/dgraph/graph/SimpleGraph.java:324-327 | `clear` walks `vertices.iterator()`, the same recursive iterator | `clear()` on any store, even an empty one, throws StackOverflowError before removing anything | every vertex removed, leaving no vertex and no edge | high, not executed | SimpleGraphs.SimpleGraph.Clear | SimpleGraphs.SimpleGraph.ClearIntended |
| src/org/dgraph/graph/SimpleGraph.java:196-205 | an `EdgeSetSpecific` that `removeEdge` dropped from its EdgeMap (:99-108) still accepts edges | `addEdge(e1)` with e1 = a->b, `h = getEdges(a, b)`, `removeEdge(e1)`, then `h.add(e2)` with e2 = a->b: true, and e2 is stored and among a's out-edges, but `getEdges(a, b)` is null | the add goes through the EdgeMap's current bundle for the pair, so every stored edge stays in its bundle | high, not executed | SimpleGraphs.SimpleGraph.AddThroughBundle | SimpleGraphs.SimpleGraph.AddThroughBundleIntended |
