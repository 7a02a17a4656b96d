# Map-backed graphs, depth-first search and component listing

This project models in Dafny the core of a small Java graph library:

- `HashGraph` stores a graph with a fixed number of vertices. Each vertex has a lazily allocated map from neighbour to edge cost, and the class keeps a counter of the edges.
- Its `NeighborIterator` hands out the neighbours of one vertex.
- `toString` lists every edge as a tuple between braces.
- Two programs run a recursive depth-first search (`dfs`) and a component scan (`printComponents`):
  - `GraphAlgorithms` prints each component on its own line.
  - `RandomGraphGenerator` counts the size of each component and returns how many there are.

The model keeps the source's form:

- `HashGraph` and `NeighborIterator` are classes. Their fields are updated in place: an `array` of optional maps, the edge counter, and the iterator's position and key array.
- Every public operation is a method or a function with the same checks, in the same order. Java's `IllegalArgumentException` and `NoSuchElementException` become error values (`Outcome`, `Result`).
- The abstract value of a graph is its adjacency, a sequence with one map per vertex. `AdjacencyOf` computes it from the slot array, reading an unallocated slot as a vertex without edges. The class invariant `Valid()` keeps the adjacency well formed and the edge counter equal to the sum of the map sizes. Every mutator is specified by what it does to that value, and also says which slots it may allocate.
- `dfs` and `printComponents` are recursive and iterative methods over a `boolean` array, as in the source.
  - The action called on each vertex is modelled by what it produces. In `GraphAlgorithms` that is the sequence of printed vertices. In `RandomGraphGenerator` it is the running count.
  - `RandomGraphGenerator` keeps its count and list of sizes in two static fields. Here they are passed in and returned.
  - Each `dfs` is specified by one predicate of `ComponentScan`: `PrintedSearch` or `CountedSearch`. Each joins `Explored` (which vertices the search marks) with what its action produced.

What is proved:

- **Search.** A search from `v` marks exactly the vertices that `v` reaches along a path whose every vertex was unvisited when the search began. It does not pass through a vertex that was already visited. It acts on each vertex it marks exactly once, with `v` first, and in discovery order: every vertex after `v` is a neighbour of one acted on before it. It leaves every vertex it marks with all its neighbours visited.
- **Listing.** The scan starts one search at every vertex that no earlier start reaches. The printed lines are then exactly these "components": every vertex is printed exactly once, and each line begins with its start vertex.
- **Counting.** The counted sizes are the sizes of these components, and they sum to the number of vertices.
- **Undirected graphs.** When every edge has its reverse (an undirected graph, which `addBi` maintains), each component is exactly the set of vertices its start reaches.
- **Text.** The string is `"{"` followed by the tuples of all edges, vertex by vertex, separated by `", "`, and then `"}"`. The integers in it read back to the values written.

## Model

| member | source | states |
|---|---|---|
| HashGraphs.HashGraph.Create | HashGraph.java:47-55 | a negative size is refused with an error; otherwise a graph with n vertices, every slot unallocated, no edges and degree 0 everywhere |
| HashGraphs.HashGraph.constructor | HashGraph.java:47-55 | the new graph has n slots, all unallocated, and no edges, and satisfies the class invariant |
| HashGraphs.HashGraph.VertexRange | HashGraph.java:72-74 | the number of vertices is the number of adjacency maps, and the valid vertices are exactly 0 to that number minus one |
| HashGraphs.HashGraph.CheckVertexParameter | HashGraph.java:310-313 | fails with InvalidVertex exactly when v is outside [0, NumVertices()) |
| HashGraphs.HashGraph.CheckVertexParameters | HashGraph.java:323-326 | fails with InvalidVertex exactly when v or w is outside [0, NumVertices()), which is checking v and then w |
| HashGraphs.HashGraph.ArraySlotIsNotNull | HashGraph.java:335-340 | false means v's slot is unallocated and v has no edges; true means v's adjacency is the map in its slot |
| HashGraphs.HashGraph.CheckNonNegativeCost | HashGraph.java:349-352 | fails with InvalidCost exactly when c is negative; a cost that passes may be stored |
| HashGraphs.HashGraph.NumEdges | HashGraph.java:80-82 | the counter equals the number of edges in the adjacency (the sum of the map sizes) |
| HashGraphs.HashGraph.Degree | HashGraph.java:88-95 | error exactly for a vertex out of range; otherwise the size of v's map, i.e. the number of vertices w with an edge (v, w); 0 for an unallocated slot |
| HashGraphs.HashGraph.HasEdge | HashGraph.java:158-164 | error exactly when either vertex is out of range; otherwise true exactly when to is a key of from's map |
| HashGraphs.HashGraph.Cost | HashGraph.java:170-179 | error exactly when either vertex is out of range; otherwise the stored cost of the edge, or NO_COST when there is no edge; the result is always a storable cost |
| HashGraphs.HashGraph.AddEdge | HashGraph.java:61-66 | allocates the slot if needed and puts (from, to) with the cost; the edge count grows by one exactly when the edge was new; from's slot is allocated afterwards and every other slot is unchanged; the class invariant is kept |
| HashGraphs.HashGraph.RemoveEdge | HashGraph.java:359-365 | drops (from, to); the count falls by one exactly when the edge was present, and nothing changes when it was absent; no slot is allocated or freed, and every other slot is unchanged |
| HashGraphs.HashGraph.Add | HashGraph.java:185-189 | error (no change) exactly when a vertex is out of range; otherwise the edge is present with cost NO_COST, the count follows, and no slot other than from's changes |
| HashGraphs.HashGraph.AddCost | HashGraph.java:195-200 | vertices are checked before the cost: a bad vertex gives InvalidVertex, else a negative cost gives InvalidCost, with no change; otherwise the edge is present with cost c and no slot other than from's changes |
| HashGraphs.HashGraph.AddBi | HashGraph.java:206-213 | error exactly when a vertex is out of range; otherwise (v, w) and (w, v) are both present with NO_COST, a self-loop added once, and the count grows by the number of new edges; only the slots of v and w change, and both end allocated |
| HashGraphs.HashGraph.AddBiCost | HashGraph.java:219-227 | the cost is checked before the vertices; on success both directions carry cost c, the count grows by the number of new edges, and only the slots of v and w change |
| HashGraphs.HashGraph.Remove | HashGraph.java:233-237 | error exactly when a vertex is out of range; otherwise the edge is absent afterwards, removing an absent edge changes nothing, and no slot is allocated or freed |
| HashGraphs.HashGraph.RemoveBi | HashGraph.java:243-250 | error exactly when a vertex is out of range; otherwise both directions are absent and the count falls by the number of edges that were present; no slot is allocated or freed, and only those of v and w change |
| HashGraphs.HashGraph.ToString | HashGraph.java:274-297 | the text is "{", the tuples of all edges joined by ", ", then "}"; the recorded edge order lists every edge exactly once, with its cost, vertex by vertex; a vertex whose slot is unallocated adds nothing to the text; "{}" for no edges, otherwise it ends with ")}" |
| HashGraphs.HashGraph.AppendOutEdges | HashGraph.java:278-290 | for a vertex whose slot is allocated, following listed edges that all leave earlier vertices: the listing gains exactly from's out-edges with their costs, each once, after the earlier edges, and the text is "{" and that listing with each tuple followed by ", " |
| HashGraphs.HashGraph.Neighbors | HashGraph.java:104-107 | error exactly for a vertex out of range; otherwise a fresh iterator, with a fresh array of neighbours, at position 0 whose remaining items are exactly v's neighbours, each once |
| HashGraphs.KeysToArray | HashGraph.java:124 | the key set copied to a new array in some order: each key exactly once and nothing else |
| HashGraphs.NeighborIterator.constructor | HashGraph.java:115-127 | the items are v's neighbours, each once, in a newly allocated array, and size is the degree; n is the map size or -1 for an unallocated slot; findNext moves the position from -1 to 0 |
| HashGraphs.NeighborIterator.FindNext | HashGraph.java:129-135 | a position of -1 becomes 0; any other position advances by one |
| HashGraphs.NeighborIterator.HasNext | HashGraph.java:137-140 | true exactly when items remain |
| HashGraphs.NeighborIterator.Next | HashGraph.java:142-150 | while items remain it returns the item at the position and advances; when exhausted it returns NoSuchElement and does not move |
| HashGraphs.AdjacencyOfUpdate | HashGraph.java:62-64 | storing a map in one slot changes the adjacency of that vertex only |
| HashGraphs.PutEdgeValid | HashGraph.java:61-66 | putting an edge between vertices with a storable cost keeps the adjacency well formed and adds one edge to the total exactly when it was absent |
| HashGraphs.DropEdgeValid | HashGraph.java:359-365 | dropping an edge keeps the adjacency well formed and removes one edge from the total exactly when it was present |
| HashGraphs.PutEdgeOthers | HashGraph.java:64 | after a put, (from, to) is present with the new cost, and every other edge and cost is unchanged |
| HashGraphs.DropEdgeOthers | HashGraph.java:362 | after a drop, (from, to) is absent, and every other edge and cost is unchanged |
| HashGraphs.DropPutEdge | HashGraph.java:359-365 | removing an edge just added to a graph without it gives back the original adjacency; removing an absent edge changes nothing |
| HashGraphs.PutBothSymmetric | HashGraph.java:206-213 | adding an edge in both directions (or a self-loop once) to an undirected graph leaves it undirected |
| HashGraphs.DropBothSymmetric | HashGraph.java:243-250 | removing an edge in both directions (or a self-loop once) from an undirected graph leaves it undirected |
| EdgeText.NatToStringRoundTrip | HashGraph.java:284 | the decimal digits written for a natural number read back to that number |
| EdgeText.IntToStringRoundTrip | HashGraph.java:287 | the text of an int, with its minus sign, reads back to that int, so distinct costs and vertices print differently |
| EdgeText.Tuple | HashGraph.java:282-288 | the text of an edge starts with "(" and ends with ")" |
| EdgeText.TupleText | HashGraph.java:282-288 | an edge with NO_COST is written "(from,to), "; any other edge is written "(from,to,cost), " |
| EdgeText.ListingAppend | HashGraph.java:284-287 | appending one tuple and its separator extends the listing by exactly that edge |
| EdgeText.TerminatedIsJoined | HashGraph.java:293-294 | in a non-empty listing where every tuple is followed by ", ", cutting the final ", " gives the tuples joined by ", " |
| EdgeText.CloseListing | HashGraph.java:293-295 | for no edges the text so far is "{"; otherwise it is at least two characters long, and cutting the last two leaves "{" plus the joined tuples |
| EdgeText.ListingEnds | HashGraph.java:293-296 | the closed text of no edges is "{}"; of any edges it ends with ")}" |
| Reachability.ExploredVisited | GraphAlgorithms.java:108-109 | a search from a vertex that is already visited changes nothing, and no path through unvisited vertices starts there |
| Reachability.AvoidingStep | GraphAlgorithms.java:112-114 | an edge out of the unvisited v, followed by a path that the search from a neighbour may take, is a path through vertices that were unvisited when the search from v began |
| Reachability.AvoidingMarked | GraphAlgorithms.java:107-115 | once every neighbour of v is visited, the running search from v has marked every vertex v reaches through vertices that were unvisited |
| Reachability.SearchStopsAtVisited | GraphAlgorithms.java:108-109 | in the chain 0 -> 1 -> 2 with 1 already visited, a search from 0 marks 0 only: marking 2 as well does not satisfy the search's contract |
| ComponentScan.DiscoveryAppend | GraphAlgorithms.java:112-114 | the trace of the search from a neighbour of the first vertex, appended to the trace so far, keeps every vertex after the first a neighbour of an earlier one |
| ComponentScan.ChainDiscoveryOrder | GraphAlgorithms.java:96-97 | in the chain 0 -> 1 -> 2, the line 0 1 2 is in discovery order and 0 2 1 is not |
| Reachability.ExploringDone | GraphAlgorithms.java:112-114 | once every neighbour of v is visited, a running search from v is complete |
| Reachability.ClosedContainsReachable | GraphAlgorithms.java:107-115 | a set of visited flags that is closed under edges and contains v contains everything v reaches |
| Reachability.ExploredCompletes | GraphAlgorithms.java:107-115 | a search started on closed flags leaves them closed and visits every vertex its start reaches |
| Reachability.FalseCountDrops | GraphAlgorithms.java:108-110 | marking a vertex lowers the number of unvisited vertices, so the recursion terminates |
| Reachability.NewlyVisitedChain | RandomGraphGenerator.java:135-137 | what two searches in a row visit is the disjoint union of what each visits |
| Reachability.ReachedFromAppend | GraphAlgorithms.java:86-88 | a vertex is reached from the starts plus v exactly when the earlier starts or v reach it |
| Reachability.StartsCover | GraphAlgorithms.java:86-88 | the scan's starts are increasing vertices, and every vertex scanned so far is reached from one of them |
| Reachability.StartsUnreached | GraphAlgorithms.java:86-88 | no start is reached from an earlier start |
| Reachability.StartsSmallest | GraphAlgorithms.java:86-88 | every vertex below a start is reached from an earlier start, so each start is the smallest vertex not yet reached |
| Reachability.StartsWithoutEdges | GraphAlgorithms.java:86-90 | with no edges, every vertex starts a search |
| Reachability.ComponentsWithoutEdges | GraphAlgorithms.java:86-90 | with no edges, there is one component per vertex, each holding only that vertex |
| Reachability.ReachableSymmetric | GraphAlgorithms.java:100-101 | in an undirected graph, if a reaches b then b reaches a |
| Reachability.ComponentsOfSymmetric | GraphAlgorithms.java:96-101 | in an undirected graph, each component is exactly the set of vertices its start reaches |
| Reachability.ComponentOfPrefix | GraphAlgorithms.java:86-90 | a component depends only on the starts up to its own, so later searches do not change it |
| Reachability.ScanStep | GraphAlgorithms.java:86-90 | a search from a vertex no earlier start reaches visits exactly that vertex's component, and the flags afterwards are exactly what the starts reach |
| ComponentScan.PrintedLinesEnd | GraphAlgorithms.java:73-93 | at the end of the scan, the lines are one per start, each beginning with its start and holding exactly its component in discovery order, and every vertex is printed exactly once |
| ComponentScan.ScannedEnd | GraphAlgorithms.java:86-91 | once all vertices are scanned, the lines list the components, each in discovery order |
| ComponentScan.CountedEnd | RandomGraphGenerator.java:107-114 | once all vertices are scanned, there is one size per component, each the size of its component (the first including the count carried in), and together they sum to the number of vertices |
| ComponentScan.TalliesWithoutEdges | RandomGraphGenerator.java:107-113 | with no edges, there are as many sizes as vertices, each equal to 1 (the first adds the count carried in) |
| GraphAlgorithms.Dfs | GraphAlgorithms.java:107-115 | nothing happens when v is visited; otherwise the search marks exactly the vertices v reaches along a path whose every vertex was unvisited at the start, never passing through an already visited vertex; it acts on each once with v first, each later vertex a neighbour of one acted on before it, and leaves each newly visited vertex with all its neighbours visited |
| GraphAlgorithms.PrintComponents | GraphAlgorithms.java:73-93 | one line per component start, in ascending order; each line begins with its start and holds exactly its component in discovery order, and every vertex is printed exactly once |
| RandomGraphGenerator.Dfs | RandomGraphGenerator.java:130-138 | the same search as GraphAlgorithms.Dfs: it marks exactly the vertices v reaches along a path whose every vertex was unvisited at the start; the count grows by the number of vertices visited, and it is unchanged exactly when v was already visited |
| RandomGraphGenerator.PrintComponents | RandomGraphGenerator.java:95-116 | returns the number of component starts and appends one size per component to the list, the first including the count carried in; the count ends at 0 once any component was counted |

## Left out

- The `main` methods of both programs and the commented-out `main` of `HashGraph` are not modelled. This includes the random choice of edges, the timing loop and the parsing of command-line arguments, none of which are part of the core operations.
- Console output: `GraphAlgorithms` prints `v + " "` for each vertex and a newline after each search. The model records the vertices of each line in order, not the characters written.
- The `Graph` interface, `MatrixGraph` and `GraphTest` are not part of this model. `dfs` and `printComponents` take a `HashGraph`, the only implementation modelled.
- NO_COST's concrete value is declared in `Graph.java`, which is not part of this model. It is an abstract negative constant here, and nothing in the model depends on which negative value it is.
- Java's 32-bit `int` is not modelled. Vertex numbers, costs and the edge counter are unbounded, because nothing in the modelled code gets close to overflow.
- The iteration order of a `HashMap` key set is not modelled. `KeysToArray` and `ToString` accept any order, and `ToString` hands back the order it used as a ghost result.
- INITIAL_MAP_SIZE is only a capacity hint and has no effect that can be observed; it is not modelled.
- Exception messages are not modelled, only which error is raised.
- The recursion depth of `dfs` (a possible `StackOverflowError` on large graphs) is not modelled.
- GraphAlgorithms.Dfs: the order of a printed line is stated as discovery order (each vertex after the first is a neighbour of an earlier one), not as the exact depth-first preorder. The exact order depends on the unmodelled order of each hash map's keys, and the stack discipline that picks which earlier vertex is not stated.
- HashGraphs.NeighborIterator.constructor: the iterator copies the neighbour set when it is created, as the source does. Later changes to the graph are not seen by it; the searches never change the graph.
- `dfs` and `printComponents` work on directed graphs as well. There, a component is what its start reaches, minus what earlier starts reach. It equals the connected component only for undirected graphs, which is what ComponentsOfSymmetric proves.
