# CC_Labs algorithm kernels in Dafny

This project models the algorithmic core of five JavaScript lab exercises and
proves what each one computes. Every lab builds a random graph and times
algorithms on it.

- **Lab4** (`Lab4/lab4.js`) covers graph traversal. A `Graph` holds an
  adjacency object and a vertex list. `dfs` marks every vertex reachable from
  the start vertex, and `bfs` does the same with a queue.
- **Lab5** (`Lab5/Leibniz.js`, `Lab5/ramanujan.js`) computes pi in fixed
  point on BigInts. Each program is one loop that adds series terms until a
  term truncates to zero.
- **Lab6** (`Lab6/index.js`) builds minimum spanning trees. A `Graph` holds
  an edge list and a node list. `kruskal` runs over the sorted edges with a
  union–find of `{parent, rank}` records, using path compression and union by
  rank. `prim` grows a visited set one crossing edge at a time.
- **lab7** (`lab7/index.js`) finds shortest paths. `floyd` fills a distance
  matrix from the edge list, and `_floyd` relaxes it in place. `dijkstra`
  builds a nested neighbour object with `getDijkstraEdges`, initialises a
  `dist` table, and settles the cheapest unvisited node until all are
  visited.

Each lab's `makeGraph` lays a path `0 -> 1 -> ... -> n`. It then adds `m`
extra edges between random vertex pairs that are not already joined. It runs
the algorithms on the result.

The Dafny modules follow that structure:

| module | models |
|---|---|
| `Common` | JavaScript `Infinity` as `Weight` (`Fin(n)` or `Inf`), the errors a run can throw (`Result`), BigInt division truncating toward zero (`TDiv`), `includes`/`push` on arrays without duplicates |
| `Reach` | paths and reachability over successor maps |
| `Builder` | the edge-list logic the three `makeGraph`s share: the path, `edgeExists`, the drawing loop |
| `Traversal` | Lab4's `Graph` class with `addEdge`, `dfs`, `BFSTime`'s initialisation and `bfs`, and Lab4's `makeGraph` |
| `Leibniz`, `Ramanujan` | the two Lab5 programs |
| `UnionFind` | the `subsets` map of Lab6 with `find` and `union` |
| `Mst` | Lab6's `Graph` class with `addEdge`, `sortByWeight`, `kruskal`, `getNextEdge`, `prim`, and Lab6's `makeGraph` |
| `Relaxation` | `_floyd`'s three nested loops as functions on a matrix, with their shortest-walk properties |
| `Network` | lab7's edge list, the matrix `floyd` sets up from it, and the object `getDijkstraEdges` returns |
| `Settling` | the `dist` table of `_dijkstra`, one relaxation round, and the invariant behind it |
| `ShortestPaths` | lab7's `Graph` class with `addNode`, `addEdge`, `floyd`, `getDijkstraEdges`, `smallestWeightNode`, `dijkstra`, and lab7's `makeGraph` |
| `FloydDiagonal` | the diagonal of the matrix `floyd` sets up (see Findings) |

Classes are used where the source updates objects in place:

- `Traversal.Graph`, `Mst.Graph`, `ShortestPaths.Graph` and
  `UnionFind.Subsets` are Dafny classes whose methods assign their fields.
- `_floyd`'s matrix is an `array2` that the relaxation methods update cell
  by cell.
- Loops become `while`/`for` loops proved against specification functions:
  - `Relaxation.FloydPass` for `_floyd`;
  - `Settling.Relaxed` for one `_dijkstra` round;
  - `Leibniz.Tail` and `Ramanujan.Tail` for the series.

Random numbers are inputs.

- `picks` is the sequence of vertex indices that `Math.random` would
  produce.
- `weights` is the sequence of values `randomNumber()` would produce, each in
  `10 <= w < 100000`.

Node ids are naturals. The source uses the strings `"0"`, ..., `"n"`, and
`for ... in` visits such keys in ascending numeric order. `ShortestPaths.Ascending`
models that order.

## Model

| member | source | states |
|---|---|---|
| `Common.Add` | lab7/index.js:112 | a sum is `Infinity` exactly when an operand is, and otherwise adds the finite values |
| `Common.TDivTruncates` | Lab5/Leibniz.js:12-15 | BigInt division gives the floor of the magnitudes' quotient, with a sign that is negative exactly when the operands' signs differ |
| `Common.AppendIfAbsent` | Lab6/index.js:19-24 | appending when `!includes` keeps the old prefix, adds the element, and keeps the array duplicate-free |
| `Builder.EdgeExists` | Lab4/lab4.js:82-87 | returns true exactly when the pair is in the edge list |
| `Builder.LayPath` | Lab4/lab4.js:76-79 | produces exactly the n edges `(i, i + 1)` for `i < n` |
| `Builder.PlanEdges` | lab7/index.js:152-168 | on success the plan has the path and m new edges, has no duplicate pair, stays inside `0..n`, and uses the picks in order. `ReferenceError` (the `nrOConnections` typo) happens exactly when the typo is present, n = 0, m > 0 and two picks exist. Otherwise the only failure is running out of picks |
| `Builder.PathReachesAll` | Lab4/lab4.js:76-79 | along the path every vertex `0..n` is reachable from 0 |
| `Traversal.Graph.constructor` | Lab4/lab4.js:5-8 | the graph starts with no adjacency entries and no vertices |
| `Traversal.Graph.AddEdge` | Lab4/lab4.js:10-15 | each endpoint is appended to `vertices` unless present, and v is appended to u's adjacency list, which is created if missing. The edge relation gains exactly (u, v) |
| `Traversal.Graph.SuccessorsAreEdges` | Lab4/lab4.js:27-28 | the successor map read by the traversals holds exactly the added edges |
| `Traversal.Graph.Dfs` | Lab4/lab4.js:25-34 | the result contains the old visited set and v, every newly visited vertex is reachable from v, and the new set is closed under successors |
| `Traversal.Graph.DfsFrom` | Lab4/lab4.js:17-24 | from an empty set, `dfs` visits exactly the vertices reachable from s |
| `Traversal.Graph.InitVisited` | Lab4/lab4.js:36-37 | every vertex is present in `visited` and false |
| `Traversal.Graph.VisitNeighbours` | Lab4/lab4.js:52-59 | the inner loop keeps the keys and old marks, and pushes exactly the neighbours it newly marks, each once. It marks every neighbour already in `visited` |
| `Traversal.Graph.Bfs` | Lab4/lab4.js:45-61 | `bfs` marks exactly the vertices reachable from s, and adds only s to the keys |
| `Traversal.Graph.BfsFrom` | Lab4/lab4.js:35-44 | `BFSTime`'s run marks exactly the vertices reachable from s |
| `Traversal.BfsStep` | Lab4/lab4.js:50-59 | one dequeue keeps the queue invariant, adds the head to the done set, and the done set stays bounded |
| `Traversal.BfsFinish` | Lab4/lab4.js:50 | once the queue is empty, the marked vertices are exactly the reachable ones |
| `Traversal.Build` | Lab4/lab4.js:76-105 | one `addEdge` per planned pair, in order: the graph holds exactly the planned pairs as edges, lists exactly their ends as vertices (each once), contains the path, and has no vertex outside `0..n` |
| `Traversal.AddPlanned` | Lab4/lab4.js:77 | one `addEdge` of the next planned pair adds exactly that pair to the edges and its two ends to the vertices |
| `Traversal.MakeGraph` | Lab4/lab4.js:63-111 | on success both `dfs` and `bfs` from `"0"` reach exactly the vertices `0..n`. The only failure is running out of picks |
| `Leibniz.LeibnizPi` | Lab5/Leibniz.js:1-21 | a negative exponent is exactly a `RangeError`. Otherwise the result is the series sum, truncated by `10 ** 5` |
| `Leibniz.SumSeries` | Lab5/Leibniz.js:9-17 | the loop returns the sum `Leibniz.Tail` of all terms, and terminates |
| `Leibniz.TailStep` | Lab5/Leibniz.js:10-16 | one iteration divides `arg1` by -4 and `arg2` by -9 with truncation, and adds `inc2 / inc1` with `inc1 = 2k + 1`. A non-final iteration shrinks `|arg1| + |arg2|` |
| `Leibniz.IterateClosedForm` | Lab5/Leibniz.js:14-15 | after k truncating divisions by d < 0, x has become `(-1)^k * floor(x / |d|^k)` |
| `Leibniz.ArgsVanishTogether` | Lab5/Leibniz.js:9-10 | both numerators have sign `(-1)^k` or are 0, so `inc2 == 0` exactly when both are 0 |
| `Leibniz.ArgsShrink` | Lab5/Leibniz.js:14-15 | each non-final iteration strictly decreases `|arg1| + |arg2|` |
| `Leibniz.FirstArgsPositive` | Lab5/Leibniz.js:3-4 | both initial numerators are positive |
| `Ramanujan.Start` | Lab5/ramanujan.js:4 | the initial `x = 3 * 10 ** n` is positive |
| `Ramanujan.Term` | Lab5/ramanujan.js:8 | every `x` of the loop is non-negative |
| `Ramanujan.RamanujanPi` | Lab5/ramanujan.js:1-15 | a negative n is exactly a `RangeError`. Otherwise the result is `(x0 + the series) / 1000`, which is at least `x0 / 1000` |
| `Ramanujan.SumSeries` | Lab5/ramanujan.js:5-12 | the loop returns `x0 + Ramanujan.Tail`, which is at least x0, and terminates |
| `Ramanujan.TailStep` | Lab5/ramanujan.js:8-10 | one iteration computes `x * i / ((i + 1) * 4)` with `i = 2k + 1`. The new x is smaller, and it adds `x / (i + 2)` to the sum |
| `Ramanujan.TermShrinks` | Lab5/ramanujan.js:6-8 | while `x > 0`, the next x is strictly smaller |
| `Ramanujan.TailNonNegative` | Lab5/ramanujan.js:9 | the remaining sum is never negative |
| `UnionFind.Subsets.constructor` | Lab6/index.js:66-68 | every node is its own parent with rank 0, and the roots are exactly the nodes |
| `UnionFind.Subsets.Find` | Lab6/index.js:40-46 | returns the root of n. Every node on n's path to the root now points at the root, and every other node keeps its parent. Ranks, keys, every node's root and the set of roots are unchanged |
| `UnionFind.Subsets.Union` | Lab6/index.js:47-59 | the lower-rank root is re-parented under the other, with ties going under x's root, whose rank grows by one. The new parent map is exact: the loser points at the winner, every other node on x's or y's path points at its root, and every other node keeps its parent. Every node of the losing tree gets the winner as its root, and one root disappears |
| `UnionFind.Subsets.Link` | Lab6/index.js:51-58 | the rank comparison of `union` on two roots: the parent map changes only at the loser, which now points at the winner, and the ranks change as in `union` |
| `UnionFind.RootIsRoot` | Lab6/index.js:42-45 | following parents ends at a node that is its own parent, of strictly higher rank unless it is the node itself |
| `UnionFind.CompressKeepsRoots` | Lab6/index.js:43 | path compression changes no node's root |
| `UnionFind.TwoFinds` | Lab6/index.js:48-49 | after `find(x)` and then `find(y)`, every node on either original path points at its root and every other node keeps its parent |
| `UnionFind.CompressedPathIn` | Lab6/index.js:42-45 | compressing x's path keeps on y's path every node that was on y's path and not on x's |
| `UnionFind.CompressedPathOut` | Lab6/index.js:42-45 | after x's path is compressed, y's path runs only over nodes that were on x's path or on y's path |
| `UnionFind.LinkByRank` | Lab6/index.js:51-54 | linking a lower-rank root under another keeps the forest well formed, and moves exactly the loser's tree |
| `UnionFind.LinkEqualRank` | Lab6/index.js:55-58 | on equal ranks, linking plus the rank increment keeps the forest well formed, and moves exactly the loser's tree |
| `Mst.Graph.constructor` | Lab6/index.js:12-15 | no edges and no nodes |
| `Mst.Graph.AddEdge` | Lab6/index.js:17-25 | the edge is appended, and each endpoint is appended to `nodes` unless present |
| `Mst.Graph.SortByWeight` | Lab6/index.js:26-35 | the result is sorted by non-decreasing weight and is a permutation of the edges |
| `Mst.InsertionSort` | Lab6/index.js:29-33 | sorted by weight and a permutation of its input |
| `Mst.UndNext` | Lab6/index.js:94-97 | two nodes are neighbours in the undirected view exactly when an edge joins them in either direction |
| `Mst.KruskalTake` | Lab6/index.js:78-81 | taking an edge between two different trees keeps the invariant. The invariant is that each tree of the union–find is connected by the result, the result is sorted, its cost is its total weight, and it has one edge fewer than the merged trees |
| `Mst.KruskalSkip` | Lab6/index.js:78 | skipping an edge whose endpoints share a root keeps the invariant |
| `Mst.ChosenTake` | Lab6/index.js:79-80 | appending the next sorted edge keeps the result a weight-sorted list of graph edges, no heavier than any edge still to come, whose cost is its total weight |
| `Mst.FindRoots` | Lab6/index.js:75-76 | the two `find` calls return the roots of the edge's two ends, and leave the partition, the ranks and Kruskal's invariant as they were |
| `Mst.Merge` | Lab6/index.js:78-81 | for two different roots, recording the edge, adding its weight and uniting the two trees keeps Kruskal's invariant one edge further on |
| `Mst.KruskalDone` | Lab6/index.js:73 | once `j` reaches `nodes.length - 1`, the result has that many edges and connects every node |
| `Mst.KruskalStuck` | Lab6/index.js:73-75 | running past the last edge with too few edges means the graph is disconnected |
| `Mst.KruskalRound` | Lab6/index.js:74-82 | one iteration takes or skips `edges[i]` and keeps the invariant |
| `Mst.Graph.Kruskal` | Lab6/index.js:60-84 | it succeeds exactly when the graph is connected. Otherwise it throws a `TypeError` by reading past the sorted edges. On success the result has `|nodes| - 1` edges (0 for no nodes), connects every node, is sorted, is drawn from the edges, and costs its total weight |
| `Mst.Graph.GetNextEdge` | Lab6/index.js:90-102 | returns nothing exactly when no unused edge crosses the visited set. Otherwise it returns the first crossing unused edge, its index and its unvisited end. On sorted edges that edge is the lightest crossing one |
| `Mst.FirstLightest` | Lab6/index.js:109-110 | the start edge of `prim` is a lightest edge |
| `Mst.PrimStep` | Lab6/index.js:117-121 | adding the next crossing edge keeps `prim`'s invariant: the visited list is connected by the result, edges are used once, and there are no more visited nodes than nodes |
| `Mst.PrimStepInv` | Lab6/index.js:119-121 | marking the crossing edge used, visiting its new end and recording the edge keeps `prim`'s invariant |
| `Mst.Graph.PrimRound` | Lab6/index.js:117-121 | one iteration of `prim`'s loop. The edge taken is the first unused sorted edge with exactly one end visited: it is marked used, nothing else in `used` changes, it is appended to the result, and its unvisited end is appended to `visited`. The invariant then holds with one more edge and one more node. When no such edge exists, `used` is unchanged, and with two or more nodes the graph is disconnected |
| `Mst.PrimDone` | Lab6/index.js:116 | when the loop ends, the result connects every node exactly when the lightest edge is not a self-loop |
| `Mst.PrimStuck` | Lab6/index.js:116-117 | if no crossing edge is left before the result is complete, the graph is disconnected |
| `Mst.Graph.Prim` | Lab6/index.js:104-123 | the only error is a `TypeError`. On a connected graph it succeeds exactly when there are two or more nodes. On success the result has `|nodes| - 1` edges from the graph and starts with a lightest edge, and it connects every node exactly when that edge is not a self-loop |
| `Mst.Build` | Lab6/index.js:152-176 | the graph holds the planned edges in order, with their drawn weights |
| `Mst.BuiltConnected` | Lab6/index.js:149-155 | a built graph with n >= 1 has nodes exactly `0..n` and is connected |
| `Mst.MakeGraph` | Lab6/index.js:145-180 | n = 0 always fails (`prim` on a single node). Otherwise both trees have n edges. Kruskal's connects all of `0..n` and its cost is its total weight. `prim`'s connects all of `0..n` exactly when its first edge is not a self-loop |
| `Relaxation.Update` | lab7/index.js:56-59 | one cell becomes `min(d[i][j], d[i][k] + d[k][j])`, and every other cell is unchanged |
| `Relaxation.FloydNeverIncreases` | lab7/index.js:52-63 | no entry grows during the relaxation |
| `Relaxation.RoundIsRelax` | lab7/index.js:54-61 | with `d[k][k] >= 0`, the in-place round for pivot k equals relaxing every cell against the round's start |
| `Relaxation.RelaxTriangle` | lab7/index.js:54-61 | a round for pivot k keeps entries non-negative, and adds k to the triangle inequalities that hold |
| `Relaxation.FloydRounds` | lab7/index.js:53 | after k rounds, entries are non-negative, every finite entry is the weight of a walk, and triangles through pivots below k hold |
| `Relaxation.NextRound` | lab7/index.js:53-62 | the round for pivot k keeps the entries non-negative and sound, and adds pivot k to the triangle inequalities |
| `Relaxation.BelowWalks` | lab7/index.js:52-63 | the relaxed entry is at most the weight of every walk |
| `Relaxation.FloydShortest` | lab7/index.js:52-63 | with non-negative weights, the final entry (i, j) is at most every walk's weight and, when finite, is some walk's weight: it is the least walk weight, and `Infinity` when no walk exists |
| `Network.SetupLast` | lab7/index.js:41-44 | entry (i, j) is the weight of the last edge from i to j when no later zeroing hits it |
| `Network.SetupZero` | lab7/index.js:43 | `dist[d][d]` is 0 when an edge with index d exists and no self-loop on d follows it |
| `Network.SetupNone` | lab7/index.js:36-44 | with no edge and no zeroing, the entry stays `undefined` |
| `Network.SetupSome` | lab7/index.js:42 | an entry that some edge joins is a number |
| `Network.StartNonNeg` | lab7/index.js:41-44 | non-negative weights give a non-negative starting matrix |
| `Network.AdjacencyHas` | lab7/index.js:65-74 | a source is a key exactly when some edge leaves it, and a pair is present exactly when some edge joins it |
| `Network.AdjacencyLastWins` | lab7/index.js:71 | the stored weight is the one of the last edge with that pair |
| `Network.AdjacencyNonNeg` | lab7/index.js:65-74 | non-negative edge weights give non-negative stored weights |
| `Settling.DijkstraInit` | lab7/index.js:94-98 | the initial table satisfies the invariant of `_dijkstra` |
| `Settling.DijkstraStep` | lab7/index.js:107-119 | settling the cheapest unvisited node and relaxing its neighbours keeps the invariant. Under non-negative weights the invariant says that settled weights are least walk weights, settled first, and relaxed along every edge leaving them, and that every finite weight is a walk's weight reached through its `prev` |
| `Settling.SettledStep` | lab7/index.js:110-119 | after relaxing from the cheapest node, no unvisited weight is below a visited one |
| `Settling.RelaxedNoLighter` | lab7/index.js:112-113 | with non-negative weights, relaxation gives no unvisited node a weight below the settled node's |
| `Settling.LowerBound` | lab7/index.js:107 | when every node is visited, no walk from the start is cheaper than the table |
| `Settling.DijkstraDone` | lab7/index.js:107 | when all nodes are visited with non-negative weights, every weight is finite and least, and each non-start node's `prev` is a neighbour whose weight plus the edge gives it |
| `Settling.DijkstraStuck` | lab7/index.js:88 | when only `Infinity` remains unvisited, some node is unreachable from the start |
| `ShortestPaths.Graph.constructor` | lab7/index.js:20-23 | no nodes and no edges |
| `ShortestPaths.Graph.AddNode` | lab7/index.js:25-30 | the node is appended unless present, and the edges are unchanged |
| `ShortestPaths.Graph.AddEdge` | lab7/index.js:31-33 | the edge is appended |
| `ShortestPaths.Graph.FloydTable` | lab7/index.js:36-45 | it fails (with a `TypeError`) exactly when an edge's source is not below the node count. Otherwise it yields the matrix `Network.Setup` describes |
| `ShortestPaths.FloydCell` | lab7/index.js:56-59 | the innermost step turns the cells it reads from `undefined` into numbers, and performs `Relaxation.Update` |
| `ShortestPaths.FloydRow` | lab7/index.js:55-60 | the j loop performs one row pass |
| `ShortestPaths.FloydRound` | lab7/index.js:54-61 | the i loop performs one pivot round and leaves no `undefined` cell |
| `ShortestPaths.Graph.RelaxAll` | lab7/index.js:52-63 | `_floyd` turns the matrix into `Relaxation.FloydPass` of it, with every cell a number |
| `ShortestPaths.Graph.Floyd` | lab7/index.js:35-50 | it fails exactly as the setup does. Otherwise the matrix is the relaxation of the setup, which `Relaxation.FloydShortest` shows to be least walk weights |
| `ShortestPaths.Graph.GetDijkstraEdges` | lab7/index.js:65-74 | the nested map is `Network.Adjacency` of the edges, whose properties `Network.AdjacencyHas` and `Network.AdjacencyLastWins` give |
| `ShortestPaths.Graph.InitialDistances` | lab7/index.js:94-98 | the first node has weight 0 and `prev` `Start`, and every other node has `Infinity` and `undefined` |
| `ShortestPaths.Ascending` | lab7/index.js:79 | the keys in ascending order: exactly the set, strictly increasing |
| `ShortestPaths.Graph.SmallestWeightNode` | lab7/index.js:76-90 | it throws exactly when every unvisited node is at `Infinity`. Otherwise it returns an unvisited node of least finite weight, the smallest id among ties |
| `ShortestPaths.RelaxNeighbours` | lab7/index.js:110-118 | it throws a `TypeError` exactly when an unvisited neighbour is missing from `dist`. Otherwise it keeps keys and visited entries, lowers weights only, and changes only unvisited neighbours, setting their `prev` to s. Without a negative self-loop on s the result is `Settling.Relaxed` |
| `ShortestPaths.Graph.Dijkstra` | lab7/index.js:92-121 | the only errors are the selector's throw and a `TypeError`, which needs an edge into a node outside `nodes`. On success every node keeps an entry. With non-negative weights every weight is the least walk weight from the first node, and each `prev` is a neighbour on such a walk. A throw then means some node is unreachable |
| `ShortestPaths.PathWalk` | lab7/index.js:141-145 | along finite path entries from i to j there is a walk of finite weight |
| `ShortestPaths.PathReaches` | lab7/index.js:141-145 | every vertex `0..n` is reachable from 0 in the neighbour object |
| `ShortestPaths.FloydAbovePath` | lab7/index.js:141-145 | in the built Floyd graph every entry (i, j) with i < j is finite |
| `ShortestPaths.TwoGraphs` | lab7/index.js:135-168 | both graphs have nodes `0..n` in order and the same edges in the same order. The Dijkstra graph takes the first weight drawn for each edge, the Floyd graph the second |
| `ShortestPaths.MakeGraph` | lab7/index.js:128-174 | the only errors are running out of picks and the `ReferenceError` of the `nrOConnections` typo, which happens exactly when n = 0, m > 0 and two picks exist. On success the matrix is (n+1) × (n+1) and finite above the diagonal, and Dijkstra gives every vertex `0..n` a finite weight |
| `FloydDiagonal.LastDiagonalInfinite` | lab7/index.js:41-44 | as written: for `makeGraph(1, 0)`, entry (1, 1) starts `undefined` and ends `Infinity` |
| `FloydDiagonal.SelfLoopOverwritesZero` | lab7/index.js:41-44 | as written: a self-loop on 0 after the path leaves its weight, not 0, at (0, 0) before and after relaxation |
| `FloydDiagonal.DiagonalStaysZero` | lab7/index.js:36-45 | from the intended start matrix with non-negative weights, every node ends at distance 0 from itself |
| `FloydDiagonal.AgreesWithoutSelfLoops` | lab7/index.js:41-44 | the setup as written equals the intended matrix when there are at least as many edges as nodes and no self-loops |

## Left out

- The timing wrappers are not modelled: `performance.now`, `DFSTime`/`BFSTime`'s clocks, `kruskalExecTime`, `primExecTime`. The same goes for the plotting, `console.log` and the `run` drivers, which are I/O. Each algorithm returns the state it computes instead of the elapsed time.
- `Math.random` and `randomNumber` become the input sequences `picks` and `weights`. The source's drawing loop never stops if it keeps drawing existing edges. The model fails with `OutOfPicks` when the picks run out instead.
- The order in which the lab7 `makeGraph` interleaves weight draws with vertex draws is not modelled. Each edge gets its own two weights, the first for the Dijkstra graph and the second for the Floyd graph.
- Vertex ids are naturals, not the strings `"0"`...`"n"`. `parseInt` on the Floyd graph's ids is the identity on them, and `toString` in `_dijkstra` maps back to the same key.
- `Mst.Graph.SortByWeight`: the order among equal weights is not stated. The comparator returns 1 for equal weights, which is not a consistent ordering, so the engine's order among ties is unspecified.
- `Mst.Graph.Kruskal`: the minimality of the total weight is not proved. The model proves spanning, size, sortedness and cost.
- `Mst.Graph.Prim`: the minimality of the total weight is not proved. The model proves the size, that the edges come from the graph, the lightest start edge, and the exact condition for spanning.
- `ShortestPaths.RelaxNeighbours`: the exact new table is stated only when s has no negative self-loop. With such a loop the JavaScript lowers `dist[s]` during the loop, and later sums read the lowered value.
- `ShortestPaths.Graph.Dijkstra`: least walk weights and the `prev` tree are claimed only for non-negative edge weights, the case the algorithm is meant for. Every run built by `makeGraph` has such weights.
- `ShortestPaths.Graph.FloydTable`: a write with a target id at or above the node count is not modelled. JavaScript grows that row of `dist`, but `_floyd` never reads it.
- `Mst.Graph.Prim` and `Mst.Graph.Kruskal` return the tree and cost they build. The source keeps them in locals.

## Findings

| source | as written | input that shows it | evidently intended | confidence | as-written member | corrected member |
|---|---|---|---|---|---|---|
| lab7/index.js:41-44 | `dist[i][i] = 0` runs inside the loop over edges with the edge index i, so only the first `min(edges, nodes)` diagonal entries are zeroed, and a later self-loop `(d, d)` overwrites the zero | `makeGraph(1, 0)`: edge `0 -> 1` only, `dist[1][1]` stays `Infinity`; `makeGraph(2, 1)` drawing `0 -> 0`: `dist[0][0]` ends at the loop's weight | `dist[i][i] = 0` for every node, so every node is at distance 0 from itself | high; not executed | `FloydDiagonal.LastDiagonalInfinite`, `FloydDiagonal.SelfLoopOverwritesZero` | `FloydDiagonal.ZeroDiagonal`, `FloydDiagonal.DiagonalStaysZero` |

`ShortestPaths.Graph.Floyd` keeps the setup as written, because it models what the program does. `FloydDiagonal.AgreesWithoutSelfLoops` marks the inputs on which the two setups coincide.
