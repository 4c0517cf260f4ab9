# Resistance paths and budget allocation, modelled in Dafny

This project models the two algorithmic components of the repository and proves their properties.

**DijkstraGI.py** is a graph of "resistances".
- `Vertice` holds an adjacency list of `[vecino, resistencia]` pairs and the per-run fields `visitado`, `padre` and `distancia`.
- `Grafica` holds the vertices in a dictionary by id.
- `agregarVertice` and `agregarArista` build the undirected graph.
- `dijkstra(a)` runs the quadratic Dijkstra algorithm with the linear scan `minimo`.
- `camino(a, b)` follows the `padre` links back from `b`.

**ArbolParcialMinimoDePrim.py** is a budget.
- A `Necesidad` has a name, priority and cost, the money `asignado` to it, and a list of sub-needs.
- A `Presupuesto` holds the money available and its needs by name.
- `asignar_dinero` does the following:
  - puts a `(prioridad, nombre, costo)` tuple for every need and sub-need on a heap;
  - pops the tuples in ascending order while money is left;
  - skips names it has already seen;
  - grants each new name its cost, or all the money that is left when that is less;
  - records the grant in the need's `asignado` field, or in every sub-need of that name when no need has it;
  - returns the `(nombre, cantidad)` pairs it granted.

Files and modules:

- `paths.dfy` (`ShortestPaths`) covers the value side of the graph algorithm:
  - distances with an explicit infinity and adjacency lists;
  - `agregarVecino` as a function on lists, and `agregarArista` on the whole adjacency;
  - walks and their cost, and one relaxation step;
  - the invariant of Dijkstra's loop, the acyclic ranking of parents, and optimality.
- `graph.dfy` (`Graphs`) covers the classes:
  - the `Vertex` record and the `Graph` class with its `vertices` dictionary and the dictionary's insertion order;
  - `minimo`, the relaxation loop and one iteration of `dijkstra`'s loop as methods;
  - `Graph.Dijkstra` and `Graph.Path`, with their loops.
- `circuit.dfy` (`Circuit`) replays the example script at the end of DijkstraGI.py:
  - it builds the six-vertex network with the `Graph` methods;
  - it runs `Dijkstra(1)` and `Path(1, 4)`, which yield the path 1, 3, 4 at 20 ohm;
  - it proves every shortest distance in the network.
- `allocation.dfy` (`Allocation`) covers the allocation order and rule:
  - the tuples and Python's lexicographic tuple and string order;
  - popping the least tuple of the heap;
  - the specification function `Distribute` of the allocation loop, and its properties.
- `budget.dfy` (`Budgets`) covers the classes:
  - the `Need` record and the `Budget` class with its `needs` dictionary and insertion order;
  - the list-building loop, the granting loops, and `AllocateMoney` with its loop, proved against `Distribute`.
- `lists.dfy` (`Lists`) and `wrappers.dfy` (`Wrappers`) are helpers: duplicate-free sequences and `Option`.

## Model

| member | source | states |
|---|---|---|
| Graphs.Vertex.AddNeighbour | DijkstraGI.py:42-44 | The vertex's list becomes the list with `[v, w]` appended unless `v` is already listed, and no other field of the vertex changes |
| ShortestPaths.WeightToSpec | DijkstraGI.py:43 | A weight is found for `v` exactly when some entry of the list has id `v`, and the pair of `v` and that weight is in the list |
| ShortestPaths.WithNeighbourSpec | DijkstraGI.py:42-44 | `agregarVecino` never creates a second entry for a listed id; a new id gets weight `w` and one more entry; every other id keeps its weight; the old list is a prefix of the new one |
| Graphs.Graph.constructor | DijkstraGI.py:48-50 | A new graph has no vertices and satisfies the graph invariant |
| Graphs.Graph.AddVertex | DijkstraGI.py:53-55 | An id already present leaves the dictionary and its order unchanged. Otherwise exactly one fresh vertex is added, unvisited, without parent, at infinite distance and with no neighbours, and its id goes last in the order. The invariant is kept |
| ShortestPaths.NewVertexShape | DijkstraGI.py:53-55 | Adding a vertex with an empty list keeps the symmetric, duplicate-free shape of the adjacency |
| Graphs.Graph.AddEdge | DijkstraGI.py:58-61 | The adjacency becomes `Link` of the old one, only adjacency lists change, and the invariant is kept |
| ShortestPaths.LinkSpec | DijkstraGI.py:58-61 | `agregarArista(a, b, w)` changes nothing unless both ends are vertices. Otherwise each end lists the other with one common weight, which is `w` when the edge is new, and an existing edge leaves the graph unchanged. Old lists stay prefixes, and symmetry and duplicate-freedom are preserved |
| ShortestPaths.LinkPair | DijkstraGI.py:58-61 | A new edge between distinct vertices appends exactly one pair to each of the two lists |
| Graphs.Minimum | DijkstraGI.py:64-72 | None exactly for the empty list. Otherwise the result is a listed id whose distance is at most every listed distance, and every entry before its first occurrence is strictly farther: the strict `>` keeps the first minimum |
| ShortestPaths.RelaxationSpec | DijkstraGI.py:96-101 | Relaxing one neighbour never raises a distance and leaves visited vertices and the current vertex untouched. A changed vertex gets the distance through the current vertex and that vertex as parent, and afterwards no unvisited neighbour is farther than the path through the current vertex |
| ShortestPaths.RelaxStepFacts | DijkstraGI.py:96-101 | The same facts for all vertices after the whole `for vecino` loop |
| Graphs.Relax | DijkstraGI.py:96-101 | The loop over the current vertex's neighbours changes only distances and parents, and its result is the relaxation step `RelaxStep` |
| Graphs.Step | DijkstraGI.py:95-105 | One iteration of `dijkstra`'s loop keeps the loop invariant. The current id is marked visited and is the one removed from the list, so the list shrinks by one and the loop runs once per vertex. No distance grows, and a vertex already visited does not change |
| Graphs.MonotoneStep | DijkstraGI.py:95-105 | An iteration keeps `a` at distance 0, never raises a distance, and leaves every vertex visited before the run, other than `a`, untouched |
| Graphs.FreshStep | DijkstraGI.py:95-105 | On a run over an unvisited graph, finalising the nearest listed vertex keeps Dijkstra's invariant, and the list holds exactly the unvisited vertices |
| ShortestPaths.StepKeepsInvariant | DijkstraGI.py:95-105 | Finalising an unfinalised vertex of least distance after relaxing its edges preserves the invariant: parents are finalised neighbours that give the exact distance, finalised vertices have relaxed edges, and no finalised vertex is farther than an unfinalised one |
| ShortestPaths.RankStep | DijkstraGI.py:101-102 | Ranking the current vertex before relaxing from it keeps every `padre` link pointing to a vertex finalised earlier, so the parent links have no cycle |
| Graphs.RankedStep | DijkstraGI.py:101-102 | The same ranking fact on the vertex dictionary, whatever state the run started from |
| Graphs.RunStep | DijkstraGI.py:95-105 | One iteration keeps the whole loop invariant: the graph is unchanged, parents stay ranked, no distance grows, and on a fresh run Dijkstra's invariant holds with the list equal to the unvisited vertices |
| Graphs.RunEnd | DijkstraGI.py:95-107 | When the list is empty, every vertex is visited and the graph invariant holds again with the same lists. No distance has grown, earlier-visited vertices other than `a` are untouched, and a fresh run leaves a shortest-path tree rooted at `a` |
| Graphs.Graph.Dijkstra | DijkstraGI.py:89-107 | False, with no change, exactly when `a` is not a vertex. Otherwise the graph itself is unchanged, every vertex is visited, the loop ran once per vertex, and `a` is at distance 0. No distance has grown, and vertices other than `a` that an earlier run visited keep their state; `a` itself is reset to distance 0. On a graph no earlier run visited, distances and parents form a shortest-path tree rooted at `a` |
| ShortestPaths.WalkBound | DijkstraGI.py:96-101 | If no edge can be relaxed and the source is at 0, no walk from the source costs less than the distance of its end |
| ShortestPaths.ChainExists | DijkstraGI.py:80-85 | Every vertex has a chain of `padre` links that ends at a vertex without a parent, so `camino`'s loop stops |
| ShortestPaths.ChainIsShortestWalk | DijkstraGI.py:80-86 | After a full run, the parent chain of a vertex at finite distance is a walk from the source whose weights sum to that distance, and a vertex at infinite distance gives the one-element chain |
| ShortestPaths.ShortestDistance | DijkstraGI.py:89-105 | After a full run with non-negative weights, a vertex is at finite distance exactly when a walk from the source reaches it. That distance is the cost of such a walk, and no walk costs less |
| Graphs.Graph.Path | DijkstraGI.py:80-86 | None exactly when `b` is not a vertex. Otherwise the path is `b`'s chain of parents and the resistance is `b`'s distance. After a fresh full run from `a`, the path is a walk from `a` of exactly that cost and no walk costs less; at infinite distance the path is `[b]` and no walk exists |
| Circuit.Build | DijkstraGI.py:131-137 | `Grafica()` and `agregarVertice(1)` to `agregarVertice(6)` give six fresh, unlinked vertices |
| Circuit.WireFirst | DijkstraGI.py:138-140 | The first three `agregarArista` calls give the expected lists |
| Circuit.WireMiddle | DijkstraGI.py:141-143 | The next three calls give the expected lists |
| Circuit.WireLast | DijkstraGI.py:144-146 | The last three calls give the example network `Net` |
| Circuit.NearestIsShortest | DijkstraGI.py:131-146 | In the example network, every vertex's least resistance from vertex 1 is `Nearest`: some walk achieves it and none costs less. Vertex 6 is 11 ohm away through 3, not 14 ohm over its direct edge, and vertex 4 is 20 ohm away |
| Circuit.TightEdges | DijkstraGI.py:131-146 | Each vertex other than 1 is reached at its least resistance through exactly one neighbour, so no tie can change the parents |
| Circuit.ExampleRun | DijkstraGI.py:149-150 | Any shortest-path tree from 1 over the example network has the distances `Nearest`, the parents `Tree`, and the single parent chain 1, 3, 4 ending at 4 |
| Circuit.Run | DijkstraGI.py:149 | `dijkstra(1)` on the built network leaves vertex 4 at 20 ohm, and 1, 3, 4 as the only parent chain ending at 4 |
| Circuit.Example | DijkstraGI.py:131-150 | The example script's `camino(1, 4)` returns the path 1, 3, 4 with resistance 20 |
| Budgets.NewNeed | ArbolParcialMinimoDePrim.py:17-22 | A new need has the given name, priority and cost, nothing allotted and no sub-needs |
| Budgets.Need.AddSubneed | ArbolParcialMinimoDePrim.py:25-26 | `sub` is appended to the sub-needs and nothing else in the need changes |
| Budgets.Budget.constructor | ArbolParcialMinimoDePrim.py:30-32 | A new budget holds the given money and no needs |
| Budgets.Budget.AddNeed | ArbolParcialMinimoDePrim.py:35-37 | An existing name leaves the dictionary unchanged. Otherwise the new need enters last, and exactly its tuple is appended to the list of tuples |
| Budgets.Budget.AddSubneed | ArbolParcialMinimoDePrim.py:40-43 | A missing parent changes nothing. Otherwise exactly one fresh sub-need is appended to that parent only, and the tuples gain exactly its tuple |
| Budgets.Budget.Gather | ArbolParcialMinimoDePrim.py:52-55 | The list built is `Listed`: each need's tuple followed by its sub-needs' tuples, in dictionary order |
| Budgets.AppendSubTuples | ArbolParcialMinimoDePrim.py:54-55 | The inner loop appends the sub-needs' tuples in order |
| Budgets.ListedHolds | ArbolParcialMinimoDePrim.py:52-55 | A tuple is on the list exactly when it is the tuple of some need or of one of its sub-needs |
| Allocation.ItemLeqTotalOrder | ArbolParcialMinimoDePrim.py:63 | Python's lexicographic order on `(prioridad, nombre, costo)` is total, antisymmetric and transitive |
| Allocation.StrLeqTransitive | ArbolParcialMinimoDePrim.py:63 | Python's lexicographic order on names is transitive; StrLeqTotal and StrLeqAntisymmetric give the rest of a total order |
| Allocation.LeastExists | ArbolParcialMinimoDePrim.py:58-63 | Every non-empty heap has a least tuple |
| Allocation.LeastUnique | ArbolParcialMinimoDePrim.py:58-63 | The least tuple of a heap is unique, so `heappop`'s result does not depend on the heap's layout |
| Allocation.PopLeast | ArbolParcialMinimoDePrim.py:63 | `heappop` returns the least tuple and removes exactly one copy of it, and the ascending order of the rest is the ascending order of the heap without its head |
| Allocation.AscendingPermutes | ArbolParcialMinimoDePrim.py:58-63 | The pop order of a heap is a permutation of its contents |
| Allocation.AscendingSorted | ArbolParcialMinimoDePrim.py:58-63 | The pop order of a heap is ascending |
| Budgets.MarkSubneeds | ArbolParcialMinimoDePrim.py:72-74 | Every sub-need of the name gets the amount, and nothing else changes |
| Budgets.MarkEverywhere | ArbolParcialMinimoDePrim.py:71-74 | Across all needs, every sub-need of the name gets the amount |
| Budgets.Budget.Allot | ArbolParcialMinimoDePrim.py:68-85 | The need of that name gets the amount if there is one, otherwise every sub-need of that name does. The invariant is kept |
| Budgets.ReceivedKeepsTuples | ArbolParcialMinimoDePrim.py:68-85 | A grant changes only `asignado` fields: names, priorities, costs and the sub-need structure stay the same |
| Budgets.GrantedKeepsTuples | ArbolParcialMinimoDePrim.py:61-87 | The same after any sequence of grants |
| Budgets.GrantedAllots | ArbolParcialMinimoDePrim.py:68-80 | After the grants, a need's `asignado` is the last amount granted under its name, or its old value if none was |
| Budgets.GrantedSubAllots | ArbolParcialMinimoDePrim.py:71-85 | After the grants, a sub-need whose name is not a need's name holds the last amount granted under its name, or its old value. A sub-need that shares a need's name keeps its old value |
| Budgets.Budget.Turn | ArbolParcialMinimoDePrim.py:63-87 | One iteration pops a tuple and keeps the loop in step with `Distribute`: the grants made so far, the receipts returned and the `asignado` fields all agree with it. The heap shrinks, so the loop ends |
| Budgets.Budget.AllocateMoney | ArbolParcialMinimoDePrim.py:46-89 | The pairs returned are the receipts of `Distribute` over all tuples in ascending order, and the money left is what `Distribute` leaves. Each need's and sub-need's `asignado` reflects those grants, nothing else about the needs changes, so the list of tuples is the same, and the invariant is kept |
| Allocation.DistributeConserves | ArbolParcialMinimoDePrim.py:67-87 | The amounts granted plus the money left equal the money at the start |
| Allocation.DistributeBounds | ArbolParcialMinimoDePrim.py:61-87 | With non-negative money and costs, the money left stays between 0 and the starting money, and each grant lies between 0 and its tuple's cost |
| Allocation.DistributeNames | ArbolParcialMinimoDePrim.py:64-65 | Every grant goes to a given tuple whose name was not yet seen, and no name is granted twice |
| Allocation.DistributeGrants | ArbolParcialMinimoDePrim.py:67-87 | Each amount is the lesser of the tuple's cost and the money left before it. A grant below cost is the last one and leaves no money |
| Allocation.DistributeOrdered | ArbolParcialMinimoDePrim.py:63 | On ascending tuples, the grants are made in ascending tuple order |
| Allocation.DistributeExhausts | ArbolParcialMinimoDePrim.py:61-65 | If money is left at the end, every tuple's name was either seen before or granted |
| Budgets.PlanConserves | ArbolParcialMinimoDePrim.py:67-87 | For the whole budget, the amounts returned plus the money left equal the starting money |
| Budgets.PlanBounds | ArbolParcialMinimoDePrim.py:61-87 | With non-negative money and costs, the money left at the end lies between 0 and the starting money, and each amount lies between 0 and the cost |
| Budgets.PlanGrants | ArbolParcialMinimoDePrim.py:52-65 | Every grant is for a need or a sub-need of the budget; grants come in ascending tuple order, and no name is granted twice |
| Budgets.PlanFundsAll | ArbolParcialMinimoDePrim.py:61-87 | Money is left at the end only if every need and sub-need had a grant under its name |
| Budgets.PlanFullGrants | ArbolParcialMinimoDePrim.py:77-87 | Money is left at the end only if every grant covered its whole cost |

## Left out

- Drawing and printing are not modelled: `dibujar_grafo` (networkx and matplotlib) and `imprimirGrafica` are output only.
- The budget example script at the end of ArbolParcialMinimoDePrim.py (lines 91-113) is not replayed. It is one fixed run of the operations modelled above, and the general lemmas about `Distribute` cover it; its output is only printed.
- The header comment of DijkstraGI.py speaks of a path from vertex 1 to vertex 6, but the script asks for `camino(1, 4)`. The model follows the code.
- `float('inf')` is modelled as the constructor `Inf` of `Dist`, and distances are natural numbers, so floating-point rounding is not modelled.
- Vertex ids are integers, and the budget's money, priorities and costs are unbounded integers. The source takes any Python numbers and any hashable ids. Float money or costs are not modelled, and conservation (Allocation.DistributeConserves) relies on exact arithmetic, which floats do not give.
- Graphs.Graph.AddEdge: resistances are natural numbers. The source accepts any number, including negative and fractional resistances, for which the optimality results would not hold.
- Graphs.Graph.Dijkstra: the shortest-path tree is promised only for a graph that no earlier run has visited. The source never resets `visitado`, `distancia` or `padre`, so a second run starts from stale state. For such runs the model proves only the structural facts: termination, no distance grows, earlier-visited vertices are frozen, and parent links stay acyclic.
- `dijkstra` keeps looping until every vertex has been picked, including vertices at infinite distance, as the source does. It does not stop early.
- `dijkstra` returns `False` for a missing start and `None` otherwise; this is modelled as the boolean `found`.
- `dijkstra`'s loop works on a copy of the vertex dictionary that is written back to the object at the end. Nothing can observe the difference.
- Graphs.Graph.Path: it returns `None` when `b` is not a vertex. In that case the source raises `KeyError`. Like the source, it ignores `a` except in what its contract states.
- Vertices and needs are records held by value in their dictionaries, not shared objects. No vertex or need object is reachable from two places in the source, so aliasing is not modelled.
  - The exception: the source would let the same `Necesidad` object be added twice as a sub-need, and the model does not capture that sharing.
- Python's dictionary iteration order is modelled by the `order` sequence of keys in insertion order.
- `heapq`'s internal array layout, `heapify` and sift operations are not modelled. The heap is a multiset, and `heappop` takes its least tuple under Python's tuple order.
  - Names are compared as Python compares strings, character by character by code point.
- Allocation.Distribute is the specification of the loop over the tuples in ascending order. The loop itself (Budgets.Budget.AllocateMoney) is proved to follow it step by step.
