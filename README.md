# A* relaxation loop over a decrease-key queue

This project models the A* part of a small shortest-path benchmark. The benchmark builds a
weighted directed graph and runs Dijkstra, Bellman-Ford and A* one after the other into one
shared distance table. Only then does it print one line per algorithm. The Bellman-Ford line
prints "Negative cycle detected" instead of a distance when that run reports a negative
cycle; the other two print "No path found" when the entry is INT_MAX. Whenever a line prints
a distance, it is the same one: the target's entry of the shared table after all three runs.
That is the output under the pop policy the model gives the heap (see DecreaseKeyQueue
below); as written, `astar` throws at its second push, so `main` would print nothing.
The table's `int` entries start at INT_MAX, meaning "no path known".

The model covers these parts:

- `astar` (`Analysis.cpp:47-71`), in four steps:
  - it pushes every vertex into a Fibonacci heap and keeps one handle per vertex;
  - it sets the source's entry to 0 and sets the source's key to its heuristic value;
  - it pops until the heap is empty;
  - for each popped vertex it relaxes the out-edges, in insertion order. Whenever an entry is
    lowered, `pq.increase` sets the vertex's key to its heuristic value (which need not be
    larger than the old key).
- The heuristic `AStarHeuristic` (`Analysis.cpp:31-33`). Its weight map is the distance table
  itself, so it returns `d[target] - d[v]`.
- The INT_MAX sentinel table (`Analysis.cpp:80`).
- The "No path found" reachability report (`Analysis.cpp:110-113` and `124-127`).

How each piece is modelled:

- **Graphs**: vertices `0 .. n-1` and a sequence of weighted edges. `OutEdges` lists the edges
  leaving a vertex, in insertion order. A walk is a sequence of edges; its weight is the sum
  of the edge weights.
- **Relaxation**: the inner loop body as a pure function on the table (`RelaxEdge`), and a
  fold of it over a list of edges (`RelaxEdges`). These functions specify what the
  imperative loop does to the `array<int>` table.
- **DecreaseKeyQueue**: the heap, kept abstract. A class holds the live handles, the vertex
  behind each handle and each handle's key. The program's heap compares with a
  default-constructed `std::function`. That comparator throws at its first call, which comes
  no later than the second push, so the code defines no pop order at all. `PopTop` therefore
  takes a `PopPolicy`, which stands for a comparator the code does not define:
  - `AnyOrder` lets the pop take any live entry;
  - `LeastDistance` pops a vertex of least current distance: the Dijkstra order, which is A*
    with a zero heuristic. Under the program's own heuristic, `d[v] + h(v) = d[target]` for
    every v, so the A* priority fixes no order at all.
- **AStarSolver**: `astar` as imperative Dafny. It uses the caller's `array<int>` table, a
  `VertexQueue` and a handle array, with the three loops the source has: the push loop, the
  pop loop and the inner loop over out-edges.
- **Optimality**: the label-setting argument, which says that least-distance pops over
  non-negative weights leave shortest distances.
- **Overflow**: the relaxation sum as 32-bit signed arithmetic, and the input on which it goes
  wrong.
- **FreedHandles**: a pop order under which a popped vertex is lowered again, so that
  `pq.increase` reaches a freed heap node.
- **SampleGraph**: the five-vertex graph of `main`.

What is proved about `AStar`:

- **For every pop order:**
  - every vertex is popped exactly once;
  - the final table is the starting table (source set to 0) with each popped vertex's
    out-edges relaxed, vertex after vertex in pop order (`RelaxInOrder`);
  - no entry ends above its starting value;
  - vertices that no edge reaches keep their starting value;
  - every finite entry is a finite starting entry plus the weight of a walk from that vertex.
- **Over a sentinel table** (only the source's entry below INT_MAX): every finite entry is
  the weight of a walk from the source.
- **Over a sentinel table, with least-distance pops and non-negative weights:**
  - the table holds the shortest walk weights;
  - it holds INT_MAX exactly where no walk weighs less;
  - so the report says "No path found" exactly when no walk from the source to the target
    weighs less than INT_MAX.
- **Over a table that already holds shortest distances, over non-negative weights,** which
  is what `main` hands to `astar` after the Dijkstra and Bellman-Ford runs: `astar` changes
  nothing, in any pop order.

Choices the code makes, which the model keeps:

- The sentinel is INT_MAX itself, leaving no headroom for a sum.
- The heap's keys are the heuristic value alone, not `d[v] + h(v)`, and the comparator never
  reads them.
- `astar` starts from whatever table it is given and resets only the source's entry.

## Model

| member | source | states |
|---|---|---|
| Graphs.Vertices | Analysis.cpp:51 | the vertex range iterated by `vertices(g)`: exactly `0 .. n-1`, n of them |
| Graphs.OutEdges | Analysis.cpp:62 | `out_edges(u, g)`: an edge is listed iff it is an edge of the graph leaving u |
| Graphs.OutEdgesAppend | Analysis.cpp:62 | `out_edges(u, g)` keeps insertion order, parallel edges included: adding an edge at the end of the list adds it at the end of its tail's out-edges |
| Graphs.ExtendWalk | Analysis.cpp:65-66 | appending an edge that leaves the end of a walk gives a walk to its head, heavier by its weight |
| Graphs.WalkWeightNonNegative | Analysis.cpp:64 | a walk over non-negative edge weights weighs at least 0 |
| Distances.InitialTable | Analysis.cpp:80 | the table has one entry per vertex, every entry is INT_MAX, and it is a sentinel start for every source |
| Distances.ReportFor | Analysis.cpp:124-127 | "No path found" iff the target's entry is INT_MAX; otherwise the printed distance is the entry and is not INT_MAX |
| Heuristic.AStarHeuristic | Analysis.cpp:31-33 | h(v) added to d[v] gives d[target]; h(target) = 0; h(v) > 0 iff d[v] < d[target] |
| Relaxation.RelaxEdge | Analysis.cpp:63-68 | only the head's entry can change, and it never increases; a change means d[u] is finite and the new entry is d[u] + w; afterwards d[v] <= d[u] + w |
| Relaxation.RelaxEdgesPrefix | Analysis.cpp:62-69 | relaxing the first i+1 out-edges is relaxing the first i and then edge i |
| Relaxation.RelaxEdgesDecrease | Analysis.cpp:65-66 | relaxing any list of edges never increases an entry |
| Relaxation.RelaxEdgesFrame | Analysis.cpp:63-66 | a vertex that heads none of the relaxed edges keeps its entry |
| Relaxation.StartDerived | Analysis.cpp:55 | every finite entry of the starting table is derived from it through the empty walk |
| Relaxation.RelaxEdgesSound | Analysis.cpp:62-69 | after relaxing graph edges, every finite entry is still a finite starting entry plus the weight of a walk |
| Relaxation.RelaxEdgesBound | Analysis.cpp:62-69 | after relaxing all out-edges of u (no negative self-loop), d[u] is unchanged and each of those edges satisfies d[v] <= d[u] + w |
| Relaxation.RelaxFromMinimal | Analysis.cpp:62-69 | relaxing non-negative out-edges of u lowers an entry at most down to d[u] |
| Relaxation.RelaxInOrder | Analysis.cpp:58-70 | the whole main loop as a fold over the pop order: the out-edges of each popped vertex relaxed in turn; the table keeps its length |
| Relaxation.RelaxInOrderStep | Analysis.cpp:59-69 | one more pop extends the fold by relaxing the popped vertex's out-edges (whose heads are in range) on the table left by the pops so far |
| Optimality.DijkstraStep | Analysis.cpp:58-69 | popping a least queued vertex and relaxing its out-edges keeps the finished vertices' edges relaxed and the finished entries at most the queued ones |
| Optimality.ClosedLowerBound | Analysis.cpp:58-70 | in a table where every edge is relaxed (source entry <= 0), no walk from the source over non-negative weights weighs less than its end's entry |
| Optimality.FromSentinel | Analysis.cpp:55 | over a sentinel start, every derived finite entry is the weight of a walk from the source |
| Optimality.ClosedSolves | Analysis.cpp:47-71 | a table derived from a sentinel start, with every edge relaxed and non-negative weights, holds shortest walk weights, and INT_MAX where no walk weighs less |
| Optimality.ReportMeansWalk | Analysis.cpp:124-127 | on a solved table, a path is reported iff some walk to the target weighs less than INT_MAX, and the reported distance is the shortest |
| Optimality.TableStep | Analysis.cpp:58-69 | one pop-and-relax step keeps the table invariant for any pop; under least-distance pops over non-negative weights it keeps the vertices settled and ordered |
| Optimality.Conclusions | Analysis.cpp:47-71 | after the loop: over a sentinel start, entries are walk weights from the source; with least-distance pops and a table whose every edge is relaxed, they are shortest |
| Optimality.LoweredStillQueued | Analysis.cpp:65-67 | relaxing the non-negative out-edges of a queued vertex whose entry is at least every finished one lowers only vertices still queued, never u or a finished vertex |
| Optimality.ClosedAlongWalk | Analysis.cpp:62-69 | in a table whose every edge is relaxed, the entry at the end of a walk is at most the start's entry plus the walk's weight |
| Optimality.ClosedStartIsFixed | Analysis.cpp:94-104 | over non-negative weights, a loop run over a table that already has every edge relaxed (the shortest distances) leaves it unchanged, whatever the pop order |
| DecreaseKeyQueue.VertexQueue.constructor | Analysis.cpp:48 | the new heap is empty |
| DecreaseKeyQueue.VertexQueue.Empty | Analysis.cpp:58 | `pq.empty()` holds iff no entry is live |
| DecreaseKeyQueue.VertexQueue.Push | Analysis.cpp:52 | `pq.push(v)` adds one live entry holding v, keyed v; its handle is new |
| DecreaseKeyQueue.VertexQueue.Increase | Analysis.cpp:56 | `pq.increase(h, k)` replaces h's key by k and changes nothing else |
| DecreaseKeyQueue.VertexQueue.PopTop | Analysis.cpp:59-60 | exactly one live entry leaves the heap and its vertex is returned; under least-distance pops, that vertex has the least entry among those queued |
| DecreaseKeyQueue.LeastExists | Analysis.cpp:59 | a non-empty set of live handles has one whose vertex has least distance |
| AStarSolver.PushAllVertices | Analysis.cpp:49-53 | the heap holds one live entry per vertex, in push order: vertex v's entry holds v, its key is v (the value given to `push`), and its handle is v |
| AStarSolver.PopRecordStep | Analysis.cpp:59-60 | popping a live entry extends the record of popped vertices by that vertex, which was not popped before |
| AStarSolver.PopRecordDone | Analysis.cpp:58 | once the heap is empty, every vertex has been popped exactly once |
| AStarSolver.KeysFollowStep | Analysis.cpp:65-67 | when an entry is lowered, its key becomes the heuristic value, which lies between the target's current and starting entries once the distance is added back; other keys are kept |
| AStarSolver.RelaxKeysPrefix | Analysis.cpp:63-67 | the key fold over one edge more is the fold over the prefix, with the head's key set to its heuristic value over the new table exactly when that edge lowers the head |
| AStarSolver.RelaxKeysFollow | Analysis.cpp:62-69 | after the key fold over any edge list, unlowered entries keep their keys and each lowered entry's key plus its distance lies between the target's new and old entries |
| AStarSolver.RelaxKeysTarget | Analysis.cpp:67 | the target's key ends as 0 (its heuristic value) once its entry has been lowered, and otherwise keeps its old key |
| AStarSolver.RelaxOneEdge | Analysis.cpp:63-68 | one inner iteration turns the relaxation of the first i out-edges into that of the first i+1, and the keys into the key fold of the first i+1; when it lowers v, v's key becomes exactly the heuristic value of v over the new table, and otherwise no key changes |
| AStarSolver.RelaxOutEdges | Analysis.cpp:62-69 | the inner loop leaves exactly the relaxation, in insertion order, of the out-edges of u, and exactly the keys of the key fold over them; unlowered entries keep their keys, lowered ones hold a heuristic value |
| AStarSolver.PopAndRelax | Analysis.cpp:59-69 | one outer iteration removes exactly one live entry, holding vertex u, and appends u to the pop record; the table becomes the in-order relaxation of u's out-edges, the keys become the key fold over them, and the table invariant is kept; under least-distance pops over non-negative weights it keeps the label-setting invariants and every lowered vertex is still queued |
| AStarSolver.PopUntilEmpty | Analysis.cpp:58-70 | the outer loop, one pop per iteration, pops every vertex exactly once (num_vertices(g) iterations, recorded in pop order); the final table is the table it started from with each popped vertex's out-edges relaxed in that pop order; it keeps the table invariant; under least-distance pops over non-negative weights every edge ends relaxed |
| AStarSolver.StartSearch | Analysis.cpp:48-56 | after set-up, the table is the caller's with the source's entry set to 0, the heap holds every vertex, the source's key is its heuristic value and every other vertex keeps key v |
| AStarSolver.AStar | Analysis.cpp:47-71 | every vertex is popped once; the final table is the caller's table, source set to 0, with each popped vertex's out-edges relaxed in pop order; it is at most that start, non-heads keep it, entries derive from it along walks; over a sentinel start, entries are walk weights; with least-distance pops and non-negative weights, they are the shortest |
| FreedHandles.PoppedVertexLoweredCounterexample | Analysis.cpp:59-67 | with edges 0->1 (5), 0->2 (1), 2->1 (1) popped in order 0, 1, 2, the last pop lowers vertex 1, already popped, from 5 to 2 |
| Overflow.Wrap32 | Analysis.cpp:65 | the 32-bit result lies in the int range, agrees with the exact sum modulo 2^32, and is the exact sum when that fits |
| Overflow.RelaxEdgeAsWritten | Analysis.cpp:65-66 | the unguarded step changes only the head's entry, never raises it, writes the wrapped sum, and agrees with the guarded step away from the sentinel and overflow |
| Overflow.SentinelWrapCounterexample | Analysis.cpp:65-66 | on [0, INT_MAX] with edge 1 -> 0 of weight 1, the unguarded step writes INT_MIN, which no walk produces, and the report claims a path; the guarded step changes nothing |
| SampleGraph.Sample | Analysis.cpp:74-87 | the sample graph is valid and its weights are non-negative |
| SampleGraph.SampleShortestTable | Analysis.cpp:74-87 | [0, 2, 1, 2, 4] has every sample edge relaxed |
| SampleGraph.SampleShortest | Analysis.cpp:89-90 | the shortest walk from 0 to 4 weighs 4 |
| SampleGraph.SampleFromSentinel | Analysis.cpp:104-128 | over a fresh sentinel table with least-distance pops, the report for target 4 is a path of weight 4, and 4 is the shortest |
| SampleGraph.SampleAfterShortest | Analysis.cpp:93-128 | over the shortest-distance table the earlier runs leave, `astar` in any pop order reports a path of weight 4 |

## Left out

- `dijkstra` and `bellman_ford` (`Analysis.cpp:37-44`) only call into the Boost Graph Library, which is not part of this model. SampleGraph.SampleAfterShortest starts from the shortest-distance table those runs are expected to leave.
- The Fibonacci heap's internals, such as the amortised structure and handle representation, are not modelled. The heap is a set of live handles with a vertex and a key each. Handles are modelled as indices because every vertex is pushed once, in index order.
- The empty comparator (`Analysis.cpp:22`, a default-constructed `std::function`) throws at its first call, no later than the second push (`Analysis.cpp:52`), so the code as written yields no pop order. The model replaces it with a pop policy: any order, or least current distance. Keys are written as the source writes them, but no pop reads them.
- `pq.increase(handles[v], …)` is given an `int` where the heap holds vertices. In the source, that int replaces the node's stored value, and `pq.top()` (`Analysis.cpp:59`) would then return it as the next `u`. The model keeps each entry's vertex and key apart: `Increase` sets only the key, and a pop always returns the vertex that was pushed. So the model does not capture a heuristic value being popped as if it were a vertex.
- The source text does not compile: `target(e)` is shadowed by the `target` parameter, and `weights` is not in scope inside `astar`. The model reads these as the head of e and the weight of e.
- Relaxation tests `d[u] != INT_MAX` before adding, unlike the C++ condition. The model therefore never relaxes from an unreached vertex. This includes negative weights, where the C++ sum would not overflow. The C++ arithmetic itself is in the Overflow module.
- Optimality is proved only for least-distance pops over non-negative weights. For any other order, the model proves soundness: entries are walk-derived and never increase. It does not prove shortest distances.
- DecreaseKeyQueue.VertexQueue.Increase: it accepts any handle, including one already popped, and then only rewrites that entry's key. In the source, `pq.pop()` frees the node and a later `pq.increase` on it is undefined. This happens whenever a popped vertex is lowered again: under some orders the model's `AnyOrder` allows, which a comparator not ordering by distance could produce (FreedHandles.PoppedVertexLoweredCounterexample), or with negative weights under any order. The "for every pop order" results hold only for this harmless reading. Under least-distance pops over non-negative weights no popped handle is ever increased (AStarSolver.PopAndRelax, Optimality.LoweredStillQueued).
- Dafny's integers are unbounded, so walk weights and sums are not truncated to 32 bits outside the Overflow module.
- AStarSolver.RelaxOutEdges: the bound d[v] <= d[u] + w on the relaxed edges is stated as the Relaxation.RelaxEdgesBound lemma about the function it follows, not as an `ensures` of the method.
- `main`'s timing (`std::chrono`), graph construction via `add_edge`/`put`, and printing are not modelled. The printed outcome is the Report value.
- Bellman-Ford's "Negative cycle detected" report (`Analysis.cpp:116-121`) is not modelled, because it depends on the not-modelled Boost call.

## Findings

| source | as written | input that shows it | evidently intended | confidence | as-written member | corrected member |
|---|---|---|---|---|---|---|
| Analysis.cpp:65-66 | the test `distances[u] + weight < distances[v]` adds to an INT_MAX sentinel entry; the signed overflow wraps to a large negative value | two vertices, source 0, edge 1 -> 0 of weight 1, table [0, INT_MAX]: popping vertex 1 first sets d[0] to INT_MIN, and the A* report prints INT_MIN | an unreached vertex (entry INT_MAX) is not extended | not executed | Overflow.SentinelWrapCounterexample | Relaxation.RelaxEdgesSound |
| Analysis.cpp:59-67 | the code defines no pop order (its comparator is an empty `std::function`); under a comparator that does not order by distance, after `pq.pop()` frees a vertex's node, relaxation can still lower that vertex, and `pq.increase(handles[v], …)` is then called on a freed handle | edges 0->1 (5), 0->2 (1), 2->1 (1), source 0, popped in order 0, 1, 2 (an order the model's `AnyOrder` allows): the third pop lowers vertex 1 from 5 to 2 after vertex 1 was popped | pops by least distance (a heap ordered by distance), under which a lowered vertex is always still queued for non-negative weights | not executed | FreedHandles.PoppedVertexLoweredCounterexample | Optimality.LoweredStillQueued |
