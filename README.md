# Fire-station site selection: a verified model

This project models the core of `ProjektNaGrafy.py`. That program picks the
best site for a fire station in a small town. The town is an undirected graph:
buildings are nodes and roads are weighted edges. The best site is the graph
centre. For every building the program takes its eccentricity, the largest
shortest-road distance to any building it can reach. It then reports every
building whose eccentricity is within `1e-9` of the least one.

Modules:

- `WeightedGraph` is the part of the networkx `Graph` the program relies on:
  - nodes in insertion order, and one weight per unordered pair of nodes;
  - `add_node` and `add_edge`, which creates missing endpoints, first `u` then `v`;
  - `clear`.

  It holds a value type `GraphValue` and a class `Graph` whose methods update
  the two fields in place.
- `ShortestPaths` specifies shortest-path distance over walks in the graph.
  `Dijkstra` computes `single_source_dijkstra_path_length` and is proved to
  return exactly the reachable nodes, each with its shortest distance. It also
  returns the order in which nodes are settled, which is non-decreasing in
  distance.
- `GraphCenter` holds the pure parts of `find_optimal_location`:
  - `max` over a node's distances;
  - the argmin `min(..., key=...)`;
  - the tie filter;
  - `IsCenterResult`, which says what the returned triple means. It is proved
    to hold for the computed triple, and to determine that triple uniquely.
- `GraphLoader` gives the layout of the graph file and of the console answers,
  over lines already split into tokens. A line that fails number conversion
  ends the run, and the graph keeps whatever had already been added.
- `FireStation` is the `FireStationOptimizer` class. It holds the graph, and
  its methods `LoadGraphFromFile`, `ManualInput` and `FindOptimalLocation` are
  loops over that graph, each proved against the functions above.

Road lengths are exact `real`s. Number conversion (`int()`, `float()`) is a
function parameter; it returns `None` where Python raises `ValueError`.

The model follows the code, including where it differs from the usual meaning
of a graph centre:

- A node that cannot reach some other node still gets a number: the largest
  distance within its own component. A graph without roads therefore has every
  node as an optimal location, with eccentricity 0 (`GraphCenter.NoRoads`).
- `add_edge` accepts self-loops and weights of any sign, and creates unknown
  endpoints.
- A failed load or manual input leaves the nodes and roads already added. It
  does not restore the earlier graph.
- A negative node count in a file is not rejected. The edge loop then uses
  Python's negative indexing: it reads the last `-n-1` lines and then every
  line from the first. A count below `-len(lines) - 1` raises `IndexError`,
  and the load returns `False`.

## Model

| member | source | states |
|---|---|---|
| WeightedGraph.Graph.constructor | ProjektNaGrafy.py:6 | a new graph is well formed and has no nodes |
| WeightedGraph.Graph.AddNode | ProjektNaGrafy.py:69 | the graph becomes `InsertNode` of the old graph and stays well formed |
| WeightedGraph.InsertNodeSpec | ProjektNaGrafy.py:69 | `add_node` keeps the invariant, appends a new name to the node order, leaves an existing name where it is, and changes no road |
| WeightedGraph.InsertNodeIdempotent | ProjektNaGrafy.py:69 | adding a node twice is the same as adding it once |
| WeightedGraph.Graph.AddEdge | ProjektNaGrafy.py:79 | the graph becomes `InsertEdge` of the old graph and stays well formed |
| WeightedGraph.InsertEdgeWeights | ProjektNaGrafy.py:79 | after `add_edge(u, v, w)` the pair `u`-`v` has weight `w` in both directions; every other road keeps its weight; no other road appears |
| WeightedGraph.InsertEdgeSymmetric | ProjektNaGrafy.py:79 | every road stays stored in both directions with one weight |
| WeightedGraph.InsertEdgeNodes | ProjektNaGrafy.py:79 | `add_edge` creates both endpoints and no other node; the old node order is a prefix of the new one |
| WeightedGraph.Graph.Clear | ProjektNaGrafy.py:93 | the graph becomes empty and well formed |
| ShortestPaths.Dijkstra | ProjektNaGrafy.py:139 | the result's keys are exactly the nodes reachable from the source; each value is the least length of a walk to that node; the settling order lists each key once, by non-decreasing distance |
| ShortestPaths.ExtractMin | ProjektNaGrafy.py:139 | the popped node is on the frontier and no frontier node is nearer |
| ShortestPaths.SettledIsFinal | ProjektNaGrafy.py:139 | the nearest tentative node's distance is a lower bound on every walk to it |
| ShortestPaths.FrontierBelowWalk | ProjektNaGrafy.py:139 | a walk from the source to an unsettled node passes a tentative node whose distance is at most the walk's length |
| ShortestPaths.ShortestDistanceUnique | ProjektNaGrafy.py:139 | the shortest distance, when it exists, is unique |
| ShortestPaths.DistanceToSelf | ProjektNaGrafy.py:139 | with non-negative weights, every node is at distance 0 from itself |
| ShortestPaths.PathWeightNonNegative | ProjektNaGrafy.py:139 | with non-negative weights, no walk has negative length |
| ShortestPaths.ShortestDistanceSymmetric | ProjektNaGrafy.py:139 | roads are undirected, so the distance from `s` to `t` is the distance from `t` to `s` |
| GraphCenter.Largest | ProjektNaGrafy.py:142 | `max` returns an element of the list that no element exceeds |
| GraphCenter.EccentricityOfDistances | ProjektNaGrafy.py:139-142 | the largest of Dijkstra's distances from `v` is the eccentricity of `v`: it is attained, it bounds every shortest distance from `v`, and the list is never empty |
| FireStation.NodeEccentricity | ProjektNaGrafy.py:139-143 | the value stored for `node` is its eccentricity |
| GraphCenter.EccentricityUnique | ProjektNaGrafy.py:142 | a node has at most one eccentricity |
| GraphCenter.EccentricityNonNegative | ProjektNaGrafy.py:142 | with non-negative weights, no eccentricity is negative |
| GraphCenter.SingleNode | ProjektNaGrafy.py:137-143 | in a graph of one node, that node's eccentricity is 0 |
| GraphCenter.IsolatedNode | ProjektNaGrafy.py:139-142 | a node with no roads has eccentricity 0, whatever the rest of the graph holds: unreachable nodes do not count |
| GraphCenter.ArgMin | ProjektNaGrafy.py:148 | returns the position of a node whose eccentricity is no larger than any other, and the first such position |
| GraphCenter.NearMinimum | ProjektNaGrafy.py:152 | a node is in the result exactly when it is a graph node within `1e-9` of the minimum; the result follows node order |
| GraphCenter.SubsequenceUnique | ProjektNaGrafy.py:152 | over distinct nodes, an in-order filter is determined by which nodes it keeps |
| GraphCenter.CenterOfTable | ProjektNaGrafy.py:148-154 | for a correct eccentricity table of a non-empty graph, the argmin, the minimum and the tie filter together form the centre |
| GraphCenter.CenterResultUnique | ProjektNaGrafy.py:121-154 | two triples that both meet `IsCenterResult` for the same graph are equal |
| GraphCenter.LocationsNonEmpty | ProjektNaGrafy.py:148-152 | a non-empty graph has at least one optimal location |
| GraphCenter.NoRoads | ProjektNaGrafy.py:137-154 | in a graph without roads the least eccentricity is 0 and every node is an optimal location, in node order |
| FireStation.FireStationOptimizer.FindOptimalLocation | ProjektNaGrafy.py:121-154 | returns `None` exactly when the graph has no nodes; otherwise the triple has one eccentricity per node and no other key, the least of them, and the nodes within `1e-9` of it in node order |
| FireStation.FireStationOptimizer.constructor | ProjektNaGrafy.py:5-6 | the optimizer starts with a fresh, empty graph |
| FireStation.FireStationOptimizer.LoadGraphFromFile | ProjektNaGrafy.py:53-88 | the new graph and the returned flag are those of `LoadSpec` on the old graph |
| FireStation.FireStationOptimizer.ReadNodeLines | ProjektNaGrafy.py:63-69 | the node loop processes exactly lines `1..n` that exist |
| FireStation.FireStationOptimizer.ReadEdgeLines | ProjektNaGrafy.py:75-79 | the edge loop processes the lines from `n + 1` on, with Python's negative indexing and its `IndexError` |
| GraphLoader.LayoutPartition | ProjektNaGrafy.py:60-79 | for a count `n >= 0`, every line after the first is read exactly once: first the node lines `1..n`, then the edge lines |
| GraphLoader.ShortLinesSkipped | ProjektNaGrafy.py:63-79 | lines of fewer than three tokens are skipped: a run gives the same outcome on the long lines alone |
| GraphLoader.ReplayExtends | ProjektNaGrafy.py:63-79 | a run, failed or not, keeps the invariant; the old node order stays a prefix; every old road stays |
| GraphLoader.LoadKeepsGraph | ProjektNaGrafy.py:53-88 | loading a file only adds to the graph already held |
| GraphLoader.ReplayNames | ProjektNaGrafy.py:63-79 | every node a run adds is the first token of a line of at least three tokens, or, for a road, the second token |
| GraphLoader.ReplayAddsEveryLongLine | ProjektNaGrafy.py:63-79 | conversely, a run that reaches its end holds the node of every node line of at least three tokens, and the road of every such edge line |
| GraphLoader.LoadAddsEveryLongLine | ProjektNaGrafy.py:53-88 | a file that loads with a count `n >= 0` leaves the node of every long line `1..n` and the road of every long line after `n` in the graph |
| FireStation.FireStationOptimizer.ManualInput | ProjektNaGrafy.py:90-119 | the new graph and the returned flag are those of `ManualSpec` on the answers; they do not depend on the old graph |
| GraphLoader.ManualNodesFromAnswers | ProjektNaGrafy.py:93-113 | after manual input the graph is well formed, and every node in it is named by one of the answers |
| GraphLoader.ReplayCountAddsEveryLongLine | ProjektNaGrafy.py:97-113 | a counted loop that ends without error has read all `count` answers and added the node or road of each long one |
| GraphLoader.ManualAddsEveryLongLine | ProjektNaGrafy.py:97-113 | manual input that ends without error read all `m` road answers, and holds the node of every long node answer and the road of every long road answer |

## Left out

- FireStation.FireStationOptimizer.FindOptimalLocation: requires every road length to be at least zero. The loop at line 137 runs Dijkstra from every node, so a negative road is always reached from its endpoint; networkx then raises `ValueError` ("Contradictory paths found: negative weights?"), which nothing catches. That exception is not modelled.
- Order of the eccentricity table: `CenterResult.eccentricities` is a `map`, so the insertion order of the source's dictionary (node order) is not kept. Only the stable sort in the results file, which is not modelled, depends on it.
- ShortestPaths.Dijkstra: the binary heap is replaced by a linear search for the nearest frontier node. Distances and the set of keys are the same. Among nodes at equal distance, the settling order may differ from networkx's dictionary order. `max` does not depend on that order.
- Floating point: road lengths and distances are exact reals. IEEE rounding and the values `nan` and `inf` that `float()` accepts are not modelled. The `1e-9` tolerance is kept as a literal.
- `int()` and `float()` are parameters, as are `open`, `readlines` and `input`. A file is its lines, already split into tokens. Console input is the list of answers typed; running out of answers stands for `EOFError`.
- The node coordinates (`pos`), `self.positions` and `nx.get_node_attributes` are presentation data only. A node line must still have both coordinates convert, as in the source.
- `create_example_graph` is fixed sample data.
- `visualize_graph`, `save_results_to_file`, the `main` menu, and every `print` are output only.
- `except Exception` is modelled only as returning `False`. The message it prints is not modelled.
