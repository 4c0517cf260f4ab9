/**
 * The resistor network that DijkstraGI.py builds as its example (six
 * vertices, nine edges, resistances in ohm), the shortest resistances from
 * vertex 1 in it, and the path `camino(1, 4)` returns after `dijkstra(1)`.
 */
module Circuit {
  import opened Wrappers
  import opened ShortestPaths
  import opened Graphs

  /**
   * The adjacency lists after `agregarVertice(1)` to `agregarVertice(6)`, and
   * then after each of the example's nine `agregarArista` calls in turn:
   * (1, 6, 14), (1, 2, 7), (1, 3, 9), (2, 3, 10), (2, 4, 15), (3, 4, 11),
   * (3, 6, 2), (4, 5, 6), (5, 6, 9).
   */
  const Wiring: seq<Adjacency> := [
    map[1 := [], 2 := [], 3 := [], 4 := [], 5 := [], 6 := []],
    map[1 := [(6, 14)], 2 := [], 3 := [], 4 := [], 5 := [], 6 := [(1, 14)]],
    map[1 := [(6, 14), (2, 7)], 2 := [(1, 7)], 3 := [], 4 := [], 5 := [], 6 := [(1, 14)]],
    map[1 := [(6, 14), (2, 7), (3, 9)], 2 := [(1, 7)], 3 := [(1, 9)], 4 := [], 5 := [], 6 := [(1, 14)]],
    map[1 := [(6, 14), (2, 7), (3, 9)], 2 := [(1, 7), (3, 10)], 3 := [(1, 9), (2, 10)], 4 := [], 5 := [], 6 := [(1, 14)]],
    map[1 := [(6, 14), (2, 7), (3, 9)], 2 := [(1, 7), (3, 10), (4, 15)], 3 := [(1, 9), (2, 10)], 4 := [(2, 15)], 5 := [], 6 := [(1, 14)]],
    map[1 := [(6, 14), (2, 7), (3, 9)], 2 := [(1, 7), (3, 10), (4, 15)], 3 := [(1, 9), (2, 10), (4, 11)], 4 := [(2, 15), (3, 11)], 5 := [], 6 := [(1, 14)]],
    map[1 := [(6, 14), (2, 7), (3, 9)], 2 := [(1, 7), (3, 10), (4, 15)], 3 := [(1, 9), (2, 10), (4, 11), (6, 2)], 4 := [(2, 15), (3, 11)], 5 := [], 6 := [(1, 14), (3, 2)]],
    map[1 := [(6, 14), (2, 7), (3, 9)], 2 := [(1, 7), (3, 10), (4, 15)], 3 := [(1, 9), (2, 10), (4, 11), (6, 2)], 4 := [(2, 15), (3, 11), (5, 6)], 5 := [(4, 6)], 6 := [(1, 14), (3, 2)]],
    map[1 := [(6, 14), (2, 7), (3, 9)], 2 := [(1, 7), (3, 10), (4, 15)], 3 := [(1, 9), (2, 10), (4, 11), (6, 2)], 4 := [(2, 15), (3, 11), (5, 6)], 5 := [(4, 6), (6, 9)], 6 := [(1, 14), (3, 2), (5, 9)]]
  ]

  /** Each `agregarArista` call of the example adds its edge afresh at both ends. */
  lemma Wire0()
    ensures Link(Wiring[0], 1, 6, 14) == Wiring[1]
  {
    LinkNew(Wiring[0], 1, 6, 14);
    assert Wiring[0][1] + [(6, 14)] == [(6, 14)] && Wiring[0][6] + [(1, 14)] == [(1, 14)];
    assert Wiring[0][1 := [(6, 14)]][6 := [(1, 14)]] == Wiring[1];
  }

  lemma Wire1()
    ensures Link(Wiring[1], 1, 2, 7) == Wiring[2]
  {
    LinkNew(Wiring[1], 1, 2, 7);
    assert Wiring[1][1] + [(2, 7)] == [(6, 14), (2, 7)] && Wiring[1][2] + [(1, 7)] == [(1, 7)];
    assert Wiring[1][1 := [(6, 14), (2, 7)]][2 := [(1, 7)]] == Wiring[2];
  }

  lemma Wire2()
    ensures Link(Wiring[2], 1, 3, 9) == Wiring[3]
  {
    LinkNew(Wiring[2], 1, 3, 9);
    assert Wiring[2][1] + [(3, 9)] == [(6, 14), (2, 7), (3, 9)] && Wiring[2][3] + [(1, 9)] == [(1, 9)];
    assert Wiring[2][1 := [(6, 14), (2, 7), (3, 9)]][3 := [(1, 9)]] == Wiring[3];
  }

  lemma Wire3()
    ensures Link(Wiring[3], 2, 3, 10) == Wiring[4]
  {
    LinkNew(Wiring[3], 2, 3, 10);
    assert Wiring[3][2] + [(3, 10)] == [(1, 7), (3, 10)] && Wiring[3][3] + [(2, 10)] == [(1, 9), (2, 10)];
    assert Wiring[3][2 := [(1, 7), (3, 10)]][3 := [(1, 9), (2, 10)]] == Wiring[4];
  }

  lemma Wire4()
    ensures Link(Wiring[4], 2, 4, 15) == Wiring[5]
  {
    LinkNew(Wiring[4], 2, 4, 15);
    assert Wiring[4][2] + [(4, 15)] == [(1, 7), (3, 10), (4, 15)] && Wiring[4][4] + [(2, 15)] == [(2, 15)];
    assert Wiring[4][2 := [(1, 7), (3, 10), (4, 15)]][4 := [(2, 15)]] == Wiring[5];
  }

  lemma Wire5()
    ensures Link(Wiring[5], 3, 4, 11) == Wiring[6]
  {
    LinkNew(Wiring[5], 3, 4, 11);
    assert Wiring[5][3] + [(4, 11)] == [(1, 9), (2, 10), (4, 11)] && Wiring[5][4] + [(3, 11)] == [(2, 15), (3, 11)];
    assert Wiring[5][3 := [(1, 9), (2, 10), (4, 11)]][4 := [(2, 15), (3, 11)]] == Wiring[6];
  }

  lemma Wire6()
    ensures Link(Wiring[6], 3, 6, 2) == Wiring[7]
  {
    LinkNew(Wiring[6], 3, 6, 2);
    assert Wiring[6][3] + [(6, 2)] == [(1, 9), (2, 10), (4, 11), (6, 2)] && Wiring[6][6] + [(3, 2)] == [(1, 14), (3, 2)];
    assert Wiring[6][3 := [(1, 9), (2, 10), (4, 11), (6, 2)]][6 := [(1, 14), (3, 2)]] == Wiring[7];
  }

  lemma Wire7()
    ensures Link(Wiring[7], 4, 5, 6) == Wiring[8]
  {
    LinkNew(Wiring[7], 4, 5, 6);
    assert Wiring[7][4] + [(5, 6)] == [(2, 15), (3, 11), (5, 6)] && Wiring[7][5] + [(4, 6)] == [(4, 6)];
    assert Wiring[7][4 := [(2, 15), (3, 11), (5, 6)]][5 := [(4, 6)]] == Wiring[8];
  }

  lemma Wire8()
    ensures Link(Wiring[8], 5, 6, 9) == Wiring[9]
  {
    LinkNew(Wiring[8], 5, 6, 9);
    assert Wiring[8][5] + [(6, 9)] == [(4, 6), (6, 9)] && Wiring[8][6] + [(5, 9)] == [(1, 14), (3, 2), (5, 9)];
    assert Wiring[8][5 := [(4, 6), (6, 9)]][6 := [(1, 14), (3, 2), (5, 9)]] == Wiring[9];
  }

  /** `agregarArista(a, b, w)` between two distinct vertices that do not yet list each other. */
  lemma LinkNew(adj: Adjacency, a: int, b: int, w: nat)
    requires a in adj && b in adj && a != b
    requires forall i :: 0 <= i < |adj[a]| ==> adj[a][i].0 != b
    requires forall i :: 0 <= i < |adj[b]| ==> adj[b][i].0 != a
    ensures Link(adj, a, b, w) == adj[a := adj[a] + [(b, w)]][b := adj[b] + [(a, w)]]
  {
    WeightToSpec(adj[a], b);
    WeightToSpec(adj[b], a);
  }

  /** The finished example network. */
  const Net: Adjacency := map[1 := [(6, 14), (2, 7), (3, 9)], 2 := [(1, 7), (3, 10), (4, 15)], 3 := [(1, 9), (2, 10), (4, 11), (6, 2)], 4 := [(2, 15), (3, 11), (5, 6)], 5 := [(4, 6), (6, 9)], 6 := [(1, 14), (3, 2), (5, 9)]]

  /** The least accumulated resistance from vertex 1 to each vertex of `Net`. */
  const Nearest: map<int, Dist> := map[1 := Fin(0), 2 := Fin(7), 3 := Fin(9), 4 := Fin(20), 5 := Fin(20), 6 := Fin(11)]

  /** A walk from vertex 1 that achieves `Nearest`, for each vertex. */
  const Routes: map<int, seq<int>> := map[1 := [1], 2 := [1, 2], 3 := [1, 3], 4 := [1, 3, 4], 5 := [1, 3, 6, 5], 6 := [1, 3, 6]]

  /** No edge of `Net` can improve `Nearest`. */
  lemma NearestRelaxed()
    ensures RelaxedFrom(Net, Nearest, Net.Keys)
  {
    forall v, u | v in Net && v in Nearest && u in Nearest && WeightTo(Net[v], u).Some?
      ensures AtMost(Nearest[u], Add(Nearest[v], WeightTo(Net[v], u).value))
    {
      WeightToSpec(Net[v], u);
    }
  }

  /**
   * In the example, vertex 6 is 11 ohm from vertex 1 along 1, 3, 6 rather
   * than 14 ohm along the direct edge, vertex 4 is 20 ohm away along 1, 3, 4,
   * and every vertex is as far as `Nearest` says: some walk achieves it and
   * no walk costs less.
   */
  lemma NearestIsShortest()
    ensures forall v :: v in Net ==> IsWalkFrom(Net, Routes[v], 1, v) && Nearest[v] == Fin(Cost(Net, Routes[v]))
    ensures forall v, ps :: v in Net && IsWalkFrom(Net, ps, 1, v) ==> AtMost(Nearest[v], Fin(Cost(Net, ps)))
    ensures IsWalkFrom(Net, [1, 6], 1, 6) && Cost(Net, [1, 6]) == 14
  {
    forall v | v in Net ensures IsWalkFrom(Net, Routes[v], 1, v) && Nearest[v] == Fin(Cost(Net, Routes[v])) {
      Route(v);
    }
    DirectEdge();
    NearestBelowWalks();
  }

  /** No walk from vertex 1 costs less than `Nearest` of its end. */
  lemma NearestBelowWalks()
    ensures forall v, ps :: v in Net && IsWalkFrom(Net, ps, 1, v) ==> AtMost(Nearest[v], Fin(Cost(Net, ps)))
  {
    NearestRelaxed();
    forall v, ps | v in Net && IsWalkFrom(Net, ps, 1, v) ensures AtMost(Nearest[v], Fin(Cost(Net, ps))) {
      WalkBound(Net, Nearest, 1, ps);
    }
  }

  /** The walk `Routes[v]` reaches `v` from vertex 1 at resistance `Nearest[v]`. */
  lemma Route(v: int)
    requires v in Net
    ensures IsWalkFrom(Net, Routes[v], 1, v) && Nearest[v] == Fin(Cost(Net, Routes[v]))
  {
    if v <= 3 {
      RouteNear(v);
    } else {
      RouteFar(v);
    }
  }

  /** `Route` for vertices 1, 2 and 3, one hop or none from 1. */
  lemma RouteNear(v: int)
    requires v in Net && v <= 3
    ensures IsWalkFrom(Net, Routes[v], 1, v) && Nearest[v] == Fin(Cost(Net, Routes[v]))
  {
    assert IsWalk(Net, [1]) && Cost(Net, [1]) == 0;
    if v == 2 {
      Extend(Net, [1], 2, 0, [1, 2]);
    } else if v == 3 {
      Extend(Net, [1], 3, 0, [1, 3]);
    }
  }

  /** `Route` for vertices 4, 5 and 6, all reached through 3. */
  lemma RouteFar(v: int)
    requires v in Net && v > 3
    ensures IsWalkFrom(Net, Routes[v], 1, v) && Nearest[v] == Fin(Cost(Net, Routes[v]))
  {
    assert IsWalk(Net, [1]) && Cost(Net, [1]) == 0;
    Extend(Net, [1], 3, 0, [1, 3]);
    if v == 4 {
      Extend(Net, [1, 3], 4, 9, [1, 3, 4]);
    } else {
      Extend(Net, [1, 3], 6, 9, [1, 3, 6]);
      if v == 5 {
        Extend(Net, [1, 3, 6], 5, 11, [1, 3, 6, 5]);
      }
    }
  }

  /** The direct edge from 1 to 6 costs 14. */
  lemma DirectEdge()
    ensures IsWalkFrom(Net, [1, 6], 1, 6) && Cost(Net, [1, 6]) == 14
  {
    assert IsWalk(Net, [1]);
    Extend(Net, [1], 6, 0, [1, 6]);
  }

  /** A walk extended by one hop costs that hop's resistance more. */
  lemma Extend(adj: Adjacency, ps: seq<int>, x: int, c: nat, qs: seq<int>)
    requires IsWalk(adj, ps) && Cost(adj, ps) == c && x in adj && Hop(adj, ps[|ps| - 1], x)
    requires qs == ps + [x]
    ensures IsWalk(adj, qs) && Cost(adj, qs) == c + WeightTo(adj[ps[|ps| - 1]], x).value
  {
    assert qs[..|ps|] == ps;
    assert qs[|qs| - 2] == ps[|ps| - 1];
    forall i | 0 < i < |qs| ensures Hop(adj, qs[i - 1], qs[i]) {
      if i < |ps| {
        assert Hop(adj, ps[i - 1], ps[i]);
      }
    }
  }

  /** The parent of each vertex other than 1 in the shortest-path tree from 1. */
  const Tree: map<int, int> := map[2 := 1, 3 := 1, 4 := 3, 5 := 6, 6 := 3]

  /** `u` lists `v`, and `Nearest` of `v` is `Nearest` of `u` plus that edge. */
  predicate Tight(u: int, v: int) {
    && u in Net && u in Nearest && v in Nearest && WeightTo(Net[u], v).Some?
    && Nearest[v] == Add(Nearest[u], WeightTo(Net[u], v).value)
  }

  /**
   * Every vertex other than 1 is reached at its `Nearest` resistance through
   * exactly one neighbour, its `Tree` parent: no two shortest walks tie.
   */
  lemma TightEdges()
    ensures forall u, v :: v != 1 && Tight(u, v) ==> v in Tree && u == Tree[v]
  {
    forall u, v | v != 1 && Tight(u, v) ensures v in Tree && u == Tree[v] {
      WeightToSpec(Net[u], v);
    }
  }

  /**
   * What `dijkstra(1)` leaves in the example, whatever order it breaks ties
   * in: every distance is `Nearest`, every parent is the `Tree` parent, and
   * so `camino(1, 4)` is 1, 3, 4.
   */
  lemma ExampleRun(d: map<int, Dist>, p: ParentMap, rank: map<int, nat>, clock: nat)
    requires ShortestPathTree(Net, d, p, 1) && Ranked(p, rank, clock) && rank.Keys <= Net.Keys
    ensures d == Nearest
    ensures p[1] == None && forall v :: v in Tree ==> p[v] == Some(Tree[v])
    ensures forall path :: IsChain(p, path, 4) ==> path == [1, 3, 4]
  {
    ExampleDistances(d, p, rank, clock);
    ExampleParents(d, p);
    forall path | IsChain(p, path, 4) ensures path == [1, 3, 4] {
      ChainToFour(p, path);
    }
  }

  /** The parent links 4 to 3 to 1, with 1 a root, form the only chain ending at 4. */
  lemma ChainToFour(p: ParentMap, path: seq<int>)
    requires 1 in p && p[1] == None && 3 in p && p[3] == Some(1) && 4 in p && p[4] == Some(3)
    requires IsChain(p, path, 4)
    ensures path == [1, 3, 4]
  {
    var n := |path|;
    assert n > 1 && path[n - 2] == 3;
    assert n > 2 && path[n - 3] == 1;
    forall i | 0 < i < n ensures path[i] != 1 {
      assert p[path[i]] == Some(path[i - 1]);
    }
  }

  /** After a full run from 1 on the example, every distance is `Nearest`. */
  lemma ExampleDistances(d: map<int, Dist>, p: ParentMap, rank: map<int, nat>, clock: nat)
    requires ShortestPathTree(Net, d, p, 1) && Ranked(p, rank, clock) && rank.Keys <= Net.Keys
    ensures d == Nearest
  {
    NearestBelowWalks();
    forall v | v in Net ensures d[v] == Nearest[v] {
      Route(v);
      ShortestDistance(Net, d, p, 1, rank, clock, v);
    }
  }

  /** Sound parents at the `Nearest` distances are the `Tree` parents. */
  lemma ExampleParents(d: map<int, Dist>, p: ParentMap)
    requires d == Nearest && p.Keys == Net.Keys
    requires ParentsSound(Net, d, p, Net.Keys) && ReachedViaParents(d, p, 1) && p[1] == None
    ensures p[1] == None && forall v :: v in Tree ==> p[v] == Some(Tree[v])
  {
    TightEdges();
    forall v | v in Tree ensures p[v] == Some(Tree[v]) {
      assert v in d && d[v].Fin? && p[v].Some?;
      assert Tight(p[v].value, v);
    }
  }

  /** The six vertices the example adds, none visited or linked yet. */
  const Fresh: Vertices := map[1 := NewVertex(1), 2 := NewVertex(2), 3 := NewVertex(3),
                               4 := NewVertex(4), 5 := NewVertex(5), 6 := NewVertex(6)]

  /** The six fresh vertices list no neighbours. */
  lemma FreshAdj()
    ensures Adj(Fresh) == Wiring[0]
  {
  }

  /** The example's `Grafica()` and six `agregarVertice` calls. */
  method Build() returns (g: Graph)
    ensures fresh(g) && g.Valid() && g.vertices == Fresh && g.rank == map[]
  {
    g := new Graph();
    assert g.rank.Keys == Done(map[]);
    AddFirst(g);
    AddMiddle(g);
    AddRest(g);
  }

  /** `agregarVertice(1)` and `agregarVertice(2)`. */
  method AddFirst(g: Graph)
    requires g.Valid() && g.vertices == map[]
    modifies g`vertices, g`order
    ensures g.Valid() && g.vertices == map[1 := NewVertex(1), 2 := NewVertex(2)]
  {
    g.AddVertex(1);
    g.AddVertex(2);
  }

  /** `agregarVertice(3)` and `agregarVertice(4)`. */
  method AddMiddle(g: Graph)
    requires g.Valid() && g.vertices == map[1 := NewVertex(1), 2 := NewVertex(2)]
    modifies g`vertices, g`order
    ensures g.Valid() && g.vertices == map[1 := NewVertex(1), 2 := NewVertex(2), 3 := NewVertex(3), 4 := NewVertex(4)]
  {
    g.AddVertex(3);
    g.AddVertex(4);
  }

  /** `agregarVertice(5)` and `agregarVertice(6)`. */
  method AddRest(g: Graph)
    requires g.Valid() && g.vertices == map[1 := NewVertex(1), 2 := NewVertex(2), 3 := NewVertex(3), 4 := NewVertex(4)]
    modifies g`vertices, g`order
    ensures g.Valid() && g.vertices == Fresh
  {
    g.AddVertex(5);
    g.AddVertex(6);
  }

  /** The first three `agregarArista` calls. */
  method WireFirst(g: Graph)
    requires g.Valid() && Adj(g.vertices) == Wiring[0]
    modifies g`vertices
    ensures g.Valid() && Adj(g.vertices) == Wiring[3]
  {
    g.AddEdge(1, 6, 14);
    Wire0();
    g.AddEdge(1, 2, 7);
    Wire1();
    g.AddEdge(1, 3, 9);
    Wire2();
  }

  /** The middle three `agregarArista` calls. */
  method WireMiddle(g: Graph)
    requires g.Valid() && Adj(g.vertices) == Wiring[3]
    modifies g`vertices
    ensures g.Valid() && Adj(g.vertices) == Wiring[6]
  {
    g.AddEdge(2, 3, 10);
    Wire3();
    g.AddEdge(2, 4, 15);
    Wire4();
    g.AddEdge(3, 4, 11);
    Wire5();
  }

  /** The last three `agregarArista` calls. */
  method WireLast(g: Graph)
    requires g.Valid() && Adj(g.vertices) == Wiring[6]
    modifies g`vertices
    ensures g.Valid() && Adj(g.vertices) == Net
  {
    g.AddEdge(3, 6, 2);
    Wire6();
    g.AddEdge(4, 5, 6);
    Wire7();
    g.AddEdge(5, 6, 9);
    Wire8();
    assert Wiring[9] == Net;
  }

  /** `dijkstra(1)` on the example network, which nobody has visited yet. */
  method Run(g: Graph)
    requires g.Valid() && Adj(g.vertices) == Net && g.rank == map[]
    modifies g`vertices, g`rank, g`clock
    ensures g.Valid() && Dists(g.vertices) == Nearest
    ensures 4 in g.vertices && g.vertices[4].distance == Fin(20)
    ensures forall path :: IsChain(Parents(g.vertices), path, 4) ==> path == [1, 3, 4]
  {
    assert Done(g.vertices) == {};
    var found, steps := g.Dijkstra(1);
    assert Ranked(Parents(g.vertices), g.rank, g.clock) && g.rank.Keys <= g.vertices.Keys;
    RunFacts(g.vertices, g.rank, g.clock);
  }

  /** A shortest-path tree from 1 over the example network, read off the vertices. */
  lemma RunFacts(vs: Vertices, rank: map<int, nat>, clock: nat)
    requires Adj(vs) == Net && ShortestPathTree(Adj(vs), Dists(vs), Parents(vs), 1)
    requires Ranked(Parents(vs), rank, clock) && rank.Keys <= vs.Keys
    ensures Dists(vs) == Nearest
    ensures 4 in vs && vs[4].distance == Fin(20)
    ensures forall path :: IsChain(Parents(vs), path, 4) ==> path == [1, 3, 4]
  {
    ExampleRun(Dists(vs), Parents(vs), rank, clock);
    assert 4 in Dists(vs);
  }

  /**
   * The example script: build the network, run `dijkstra(1)`, then
   * `camino(1, 4)`, which yields the path 1, 3, 4 at 20 ohm.
   */
  method Example() returns (path: seq<int>, resistance: Dist)
    ensures path == [1, 3, 4] && resistance == Fin(20)
  {
    var g := Build();
    FreshAdj();
    WireFirst(g);
    WireMiddle(g);
    WireLast(g);
    Run(g);
    var r := g.Path(1, 4);
    path, resistance := r.value.0, r.value.1;
  }
}
