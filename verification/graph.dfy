/**
 * The classes `Vertice` and `Grafica` of DijkstraGI.py. A graph holds the
 * dictionary from ids to vertices, with its keys kept in insertion order; a
 * vertex holds its adjacency list and the fields `dijkstra` writes (visited
 * flag, parent, accumulated resistance). The graph updates its dictionary in
 * place; the vertices it stores are records that the graph replaces.
 */
module Graphs {
  import opened Wrappers
  import opened Lists
  import opened ShortestPaths

  /** `Vertice`: a vertex with its neighbours and its per-run state. */
  datatype Vertex = Vertex(id: int, neighbours: seq<Edge>, visited: bool, parent: Option<int>, distance: Dist)
  {
    /**
     * `agregarVecino(v, w)`: appends `[v, w]` unless some entry already
     * names `v`. The list left behind is the one WithNeighbour describes,
     * and nothing else about the vertex changes.
     */
    function AddNeighbour(v: int, w: nat): (r: Vertex)
      ensures r.neighbours == WithNeighbour(neighbours, v, w)
      ensures r.(neighbours := neighbours) == this
    {
      if HasNeighbour(neighbours, v) then this else this.(neighbours := neighbours + [(v, w)])
    }
  }

  /** `Vertice(i)`: no neighbours, unvisited, no parent, infinitely far. */
  function NewVertex(i: int): Vertex {
    Vertex(i, [], false, None, Inf)
  }

  /** The dictionary `vertices` of a graph. */
  type Vertices = map<int, Vertex>

  /** The adjacency list of every vertex, by id. */
  ghost function Adj(vs: Vertices): Adjacency {
    map k | k in vs :: vs[k].neighbours
  }

  /** `distancia` of every vertex, by id. */
  ghost function Dists(vs: Vertices): map<int, Dist> {
    map k | k in vs :: vs[k].distance
  }

  /** `padre` of every vertex, by id. */
  ghost function Parents(vs: Vertices): ParentMap {
    map k | k in vs :: vs[k].parent
  }

  /** The ids of the visited vertices. */
  ghost function Done(vs: Vertices): set<int> {
    set k | k in vs && vs[k].visited
  }

  /** The same ids, each with the same vertex id and adjacency list. */
  ghost predicate SameGraph(vs: Vertices, vs': Vertices) {
    && vs'.Keys == vs.Keys
    && forall k :: k in vs && k in vs' ==> vs'[k].id == vs[k].id && vs'[k].neighbours == vs[k].neighbours
  }

  /** Only distances and parents differ. */
  ghost predicate Relabelled(vs: Vertices, vs': Vertices) {
    && vs'.Keys == vs.Keys
    && forall k :: k in vs && k in vs' ==> vs'[k] == vs[k].(distance := vs'[k].distance, parent := vs'[k].parent)
  }

  /** Only adjacency lists differ. */
  ghost predicate Relinked(vs: Vertices, vs': Vertices) {
    && vs'.Keys == vs.Keys
    && forall k :: k in vs && k in vs' ==> vs'[k] == vs[k].(neighbours := vs'[k].neighbours)
  }

  /**
   * `order` lists every id once, each vertex is stored under its own id, and
   * the adjacency lists have the symmetric shape `agregarArista` builds.
   */
  ghost predicate Shape(order: seq<int>, vs: Vertices) {
    && NoDup(order) && (forall k :: k in order <==> k in vs)
    && (forall k :: k in vs ==> vs[k].id == k)
    && GraphOk(Adj(vs))
  }

  /**
   * The state of a graph between operations: its shape, an unvisited vertex
   * is still infinitely far and has no parent, and the parent links point
   * down the ranking of the visited vertices.
   */
  ghost predicate Consistent(order: seq<int>, vs: Vertices, rank: map<int, nat>, clock: nat) {
    && Shape(order, vs)
    && (forall k :: k in vs && !vs[k].visited ==> vs[k].distance == Inf && vs[k].parent == None)
    && rank.Keys == Done(vs)
    && Ranked(Parents(vs), rank, clock)
  }

  /** Graphs that agree on ids and lists have the same adjacency and shape. */
  lemma SameGraphShape(order: seq<int>, vs: Vertices, vs': Vertices)
    requires SameGraph(vs, vs')
    ensures Adj(vs') == Adj(vs)
    ensures Shape(order, vs) ==> Shape(order, vs')
  {
    assert forall k :: k in Adj(vs') <==> k in Adj(vs);
    assert forall k :: k in Adj(vs) ==> Adj(vs')[k] == Adj(vs)[k];
  }

  /** Relabelling keeps the graph, the visited set and the ranking's domain. */
  lemma RelabelledViews(vs: Vertices, vs': Vertices)
    requires Relabelled(vs, vs')
    ensures SameGraph(vs, vs') && Done(vs') == Done(vs) && Adj(vs') == Adj(vs)
  {
    assert forall k :: k in Done(vs') <==> k in Done(vs);
    SameGraphShape([], vs, vs');
  }

  /** Storing `nv` under `k` changes each view at `k` only. */
  lemma Store(vs: Vertices, k: int, nv: Vertex)
    ensures Adj(vs[k := nv]) == Adj(vs)[k := nv.neighbours]
    ensures Dists(vs[k := nv]) == Dists(vs)[k := nv.distance]
    ensures Parents(vs[k := nv]) == Parents(vs)[k := nv.parent]
    ensures Done(vs[k := nv]) == if nv.visited then Done(vs) + {k} else Done(vs) - {k}
  {
    var vs' := vs[k := nv];
    assert forall x :: x in Adj(vs') <==> x in Adj(vs)[k := nv.neighbours];
    assert forall x :: x in Done(vs') <==> x in (if nv.visited then Done(vs) + {k} else Done(vs) - {k});
  }

  /** Giving `u` a new distance and parent changes exactly those two views at `u`. */
  lemma Label(vs: Vertices, u: int, x: Dist, y: Option<int>)
    requires u in vs
    ensures var vs' := vs[u := vs[u].(distance := x, parent := y)];
      && Relabelled(vs, vs')
      && Dists(vs') == Dists(vs)[u := x] && Parents(vs') == Parents(vs)[u := y]
  {
    Store(vs, u, vs[u].(distance := x, parent := y));
  }

  /** Marking `u` visited adds it to the visited set and changes nothing else. */
  lemma Visit(vs: Vertices, u: int)
    requires u in vs
    ensures var vs' := vs[u := vs[u].(visited := true)];
      && SameGraph(vs, vs') && Done(vs') == Done(vs) + {u}
      && Dists(vs') == Dists(vs) && Parents(vs') == Parents(vs)
  {
    Store(vs, u, vs[u].(visited := true));
    assert Dists(vs)[u := vs[u].distance] == Dists(vs);
    assert Parents(vs)[u := vs[u].parent] == Parents(vs);
  }

  /** A vertex lists only vertices, each at most once. */
  lemma Listed(vs: Vertices, cur: int)
    requires GraphOk(Adj(vs)) && cur in vs
    ensures UniqueIds(vs[cur].neighbours)
    ensures forall i :: 0 <= i < |vs[cur].neighbours| ==> vs[cur].neighbours[i].0 in vs
  {
    var ns := vs[cur].neighbours;
    assert Adj(vs)[cur] == ns;
    forall i | 0 <= i < |ns| ensures ns[i].0 in vs {
      WeightAt(ns, i);
      assert Mirrored(Adj(vs), cur, ns[i].0);
    }
  }

  /** `agregarVertice` of a new id keeps the graph consistent and adds an empty list. */
  lemma NewVertexConsistent(order: seq<int>, vs: Vertices, rank: map<int, nat>, clock: nat, id: int)
    requires Consistent(order, vs, rank, clock) && id !in vs
    ensures Consistent(order + [id], vs[id := NewVertex(id)], rank, clock)
    ensures Adj(vs[id := NewVertex(id)]) == Adj(vs)[id := []]
  {
    Store(vs, id, NewVertex(id));
    assert Done(vs) - {id} == Done(vs);
    NewVertexShape(Adj(vs), id);
    NewVertexRanked(Parents(vs), rank, clock, id);
    AppendNoDup(order, id);
  }

  /** Changing only adjacency lists keeps everything but the shape of the lists. */
  lemma RelinkedConsistent(order: seq<int>, vs: Vertices, vs': Vertices, rank: map<int, nat>, clock: nat)
    requires Consistent(order, vs, rank, clock) && Relinked(vs, vs') && GraphOk(Adj(vs'))
    ensures Consistent(order, vs', rank, clock)
  {
    assert forall k :: k in Done(vs') <==> k in Done(vs);
    assert forall k :: k in Parents(vs) ==> Parents(vs')[k] == Parents(vs)[k];
    assert Parents(vs') == Parents(vs);
  }

  /** The two `agregarVecino` calls of `agregarArista(a, b, w)` leave Link's adjacency. */
  lemma LinkViews(vs: Vertices, a: int, b: int, w: nat)
    requires a in vs && b in vs
    ensures var first := vs[a := vs[a].AddNeighbour(b, w)];
      var vs' := first[b := first[b].AddNeighbour(a, w)];
      Adj(vs') == Link(Adj(vs), a, b, w) && Relinked(vs, vs')
  {
    var first := vs[a := vs[a].AddNeighbour(b, w)];
    LinkAdj(vs, a, b, w, first, first[b := first[b].AddNeighbour(a, w)]);
    Relinks(vs, a, vs[a].AddNeighbour(b, w));
    Relinks(first, b, first[b].AddNeighbour(a, w));
  }

  /** LinkViews for the adjacency. */
  lemma LinkAdj(vs: Vertices, a: int, b: int, w: nat, first: Vertices, vs': Vertices)
    requires a in vs && b in vs
    requires first == vs[a := vs[a].AddNeighbour(b, w)] && vs' == first[b := first[b].AddNeighbour(a, w)]
    ensures Adj(vs') == Link(Adj(vs), a, b, w)
  {
    Store(vs, a, vs[a].AddNeighbour(b, w));
    Store(first, b, first[b].AddNeighbour(a, w));
    assert Adj(first)[b] == first[b].neighbours;
  }

  /** Storing a vertex that differs from the old one in its list only is a relinking. */
  lemma Relinks(vs: Vertices, k: int, nv: Vertex)
    requires k in vs && nv.(neighbours := vs[k].neighbours) == vs[k]
    ensures Relinked(vs, vs[k := nv])
  {
  }

  /**
   * `agregarArista(a, b, w)` between two vertices: the adjacency becomes
   * Link's, only lists change, and the graph stays consistent.
   */
  lemma LinkConsistent(order: seq<int>, vs: Vertices, rank: map<int, nat>, clock: nat, a: int, b: int, w: nat)
    requires Consistent(order, vs, rank, clock) && a in vs && b in vs
    ensures var first := vs[a := vs[a].AddNeighbour(b, w)];
      var vs' := first[b := first[b].AddNeighbour(a, w)];
      && Adj(vs') == Link(Adj(vs), a, b, w)
      && Relinked(vs, vs')
      && Consistent(order, vs', rank, clock)
  {
    var first := vs[a := vs[a].AddNeighbour(b, w)];
    var vs' := first[b := first[b].AddNeighbour(a, w)];
    LinkViews(vs, a, b, w);
    LinkSpec(Adj(vs), a, b, w);
    RelinkedConsistent(order, vs, vs', rank, clock);
  }

  /**
   * The bookkeeping of the `while` loop of `dijkstra(a)` started on the
   * dictionary `vs0`, now at `vs` with the work list `unvisited`: the graph
   * is unchanged, `a` is a vertex, the list holds vertices without
   * repetition, and every vertex off the list is visited.
   */
  ghost predicate RunFrame(order: seq<int>, vs0: Vertices, vs: Vertices, a: int, unvisited: seq<int>) {
    && Shape(order, vs0) && a in vs0
    && SameGraph(vs0, vs)
    && NoDup(unvisited) && (forall k :: k in unvisited ==> k in vs)
    && (forall k :: k in vs && k !in unvisited ==> vs[k].visited)
  }

  /** The visited vertices are the ranked ones, and every parent is ranked below its child. */
  ghost predicate RunRanked(vs: Vertices, rank: map<int, nat>, clock: nat) {
    rank.Keys == Done(vs) && Ranked(Parents(vs), rank, clock)
  }

  /**
   * Against the state `vs0` the run started from: `a` is at distance 0 with
   * its old parent, no distance has grown, and a vertex visited before the
   * run (other than `a`) is untouched.
   */
  ghost predicate RunMonotone(vs0: Vertices, vs: Vertices, a: int) {
    && vs0.Keys == vs.Keys && a in vs
    && vs[a].distance == Fin(0) && vs[a].parent == vs0[a].parent
    && (forall k :: k in vs0 && vs0[k].visited ==> vs[k].visited)
    && (forall k :: k in vs0 ==> AtMost(vs[k].distance, vs0[k].distance))
    && (forall k :: k in vs0 && vs0[k].visited && k != a ==> vs[k] == vs0[k])
  }

  /** On a run from an unvisited graph: DijkstraInv, and the list holds exactly the unvisited vertices. */
  ghost predicate RunFresh(vs: Vertices, a: int, unvisited: seq<int>) {
    && DijkstraInv(Adj(vs), Dists(vs), Parents(vs), Done(vs), a)
    && forall k :: k in vs ==> (k in unvisited <==> !vs[k].visited)
  }

  /** What holds at the head of the `while` loop of `dijkstra(a)`. */
  ghost predicate RunInv(order: seq<int>, vs0: Vertices, vs: Vertices, rank: map<int, nat>, clock: nat,
                         a: int, unvisited: seq<int>) {
    && RunFrame(order, vs0, vs, a, unvisited)
    && RunRanked(vs, rank, clock)
    && RunMonotone(vs0, vs, a)
    && (Done(vs0) == {} ==> RunFresh(vs, a, unvisited))
  }

  /**
   * RunInv, with `current` the next vertex to finalise: it is listed while
   * the list is not empty, and on a fresh run it is the nearest listed one.
   */
  ghost predicate Loop(order: seq<int>, vs0: Vertices, vs: Vertices, rank: map<int, nat>, clock: nat,
                       a: int, unvisited: seq<int>, current: Option<int>) {
    && RunInv(order, vs0, vs, rank, clock, a, unvisited)
    && (unvisited != [] ==> current.Some? && current.value in unvisited)
    && (Done(vs0) == {} && current.Some? && current.value in vs ==>
          forall k :: k in unvisited && k in vs ==> AtMost(vs[current.value].distance, vs[k].distance))
  }

  /**
   * The loop of `dijkstra(a)` starts with `a` current and every id listed.
   * The primed arguments equal the unprimed ones; they let the caller state
   * the result on the terms of its own loop invariant, which the solver
   * matches far more cheaply than a copy of the same predicate.
   */
  lemma LoopStart(order: seq<int>, vs0: Vertices, rank: map<int, nat>, clock: nat, a: int,
                  vs: Vertices, rank': map<int, nat>, clock': nat, unvisited: seq<int>, current: Option<int>)
    requires Consistent(order, vs0, rank, clock) && a in vs0
    requires vs == vs0[a := vs0[a].(distance := Fin(0))] && rank' == rank && clock' == clock
    requires unvisited == order && current == Some(a)
    ensures Loop(order, vs0, vs, rank', clock', a, unvisited, current)
  {
    RunStart(order, vs0, rank, clock, a);
  }

  /** A list of vertices, by index. */
  lemma IndexedIn(s: seq<int>, vs: Vertices)
    requires forall k :: k in s ==> k in vs
    ensures forall i :: 0 <= i < |s| ==> s[i] in vs
  {
    forall i | 0 <= i < |s| ensures s[i] in vs {
      var x := s[i];
      assert x in s;
      assert x in vs;
    }
  }

  /** The current vertex is a vertex whose list names vertices, each once. */
  lemma StepReady(order: seq<int>, vs0: Vertices, vs: Vertices, rank: map<int, nat>, clock: nat,
                  a: int, unvisited: seq<int>, current: Option<int>, cur: int)
    requires Loop(order, vs0, vs, rank, clock, a, unvisited, current) && unvisited != []
    requires current == Some(cur)
    ensures cur in vs && UniqueIds(vs[cur].neighbours)
    ensures forall i :: 0 <= i < |vs[cur].neighbours| ==> vs[cur].neighbours[i].0 in vs
  {
    SameGraphShape(order, vs0, vs);
    Listed(vs, cur);
  }

  /**
   * A pass of the loop keeps RunInv and shortens the list by one; the
   * primed arguments are the state after it.
   */
  lemma LoopStep(order: seq<int>, vs0: Vertices, vs: Vertices, rank: map<int, nat>, clock: nat,
                 a: int, unvisited: seq<int>, current: Option<int>, cur: int, relaxed: Vertices,
                 vs': Vertices, rank': map<int, nat>, clock': nat, unvisited': seq<int>)
    requires Loop(order, vs0, vs, rank, clock, a, unvisited, current) && unvisited != []
    requires current == Some(cur)
    requires Relabelled(vs, relaxed)
    requires RelaxStep(Adj(vs), Dists(vs), Parents(vs), Done(vs), cur, Dists(relaxed), Parents(relaxed))
    requires vs' == relaxed[cur := relaxed[cur].(visited := true)]
    requires rank' == (if cur in rank then rank else rank[cur := clock])
    requires clock' == (if cur in rank then clock else clock + 1)
    requires unvisited' == Remove(unvisited, cur)
    ensures RunInv(order, vs0, vs', rank', clock', a, unvisited')
    ensures forall i :: 0 <= i < |unvisited'| ==> unvisited'[i] in vs'
    ensures |unvisited'| == |unvisited| - 1
  {
    RunStep(order, vs0, vs, rank, clock, a, unvisited, cur, relaxed, vs', rank', clock');
    IndexedIn(unvisited', vs');
  }

  /** Setting `a`'s distance to 0 with every id on the work list starts the loop. */
  lemma RunStart(order: seq<int>, vs0: Vertices, rank: map<int, nat>, clock: nat, a: int)
    requires Consistent(order, vs0, rank, clock) && a in vs0
    ensures RunInv(order, vs0, vs0[a := vs0[a].(distance := Fin(0))], rank, clock, a, order)
  {
    var vs := vs0[a := vs0[a].(distance := Fin(0))];
    Label(vs0, a, Fin(0), vs0[a].parent);
    RelabelledViews(vs0, vs);
    assert Parents(vs) == Parents(vs0);
    if Done(vs0) == {} {
      FreshStart(order, vs0, rank, clock, a);
    }
  }

  /** On an unvisited graph, DijkstraInv holds once `a` is at distance 0. */
  lemma FreshStart(order: seq<int>, vs0: Vertices, rank: map<int, nat>, clock: nat, a: int)
    requires Consistent(order, vs0, rank, clock) && a in vs0 && Done(vs0) == {}
    ensures RunFresh(vs0[a := vs0[a].(distance := Fin(0))], a, order)
  {
    var vs := vs0[a := vs0[a].(distance := Fin(0))];
    Label(vs0, a, Fin(0), vs0[a].parent);
    RelabelledViews(vs0, vs);
    forall k | k in vs0 ensures !vs0[k].visited {
      assert k !in Done(vs0);
    }
    var adj, d, p := Adj(vs), Dists(vs), Parents(vs);
    assert d.Keys == adj.Keys && p.Keys == adj.Keys by {
      assert forall k :: k in d <==> k in vs;
      assert forall k :: k in p <==> k in vs;
      assert forall k :: k in adj <==> k in vs;
    }
    forall k | k in p ensures p[k] == None {
      assert !vs[k].visited;
    }
    forall k | k in d && k != a ensures d[k] == Inf {
      assert !vs[k].visited;
    }
    StartInv(adj, d, p, Done(vs), a);
  }

  /** The bookkeeping survives one pass of the loop. */
  lemma FrameStep(order: seq<int>, vs0: Vertices, vs: Vertices, a: int, unvisited: seq<int>, cur: int, vs': Vertices)
    requires RunFrame(order, vs0, vs, a, unvisited) && cur in unvisited
    requires SameGraph(vs, vs') && cur in vs' && vs'[cur].visited
    requires forall k :: k in vs && vs[k].visited ==> vs'[k].visited
    ensures RunFrame(order, vs0, vs', a, Remove(unvisited, cur))
  {
    RemoveNoDup(unvisited, cur);
  }

  /** Ranking `cur` when it is first visited keeps the parent links ranked. */
  lemma RankedStep(vs: Vertices, rank: map<int, nat>, clock: nat, cur: int, relaxed: Vertices,
                    vs': Vertices, rank': map<int, nat>, clock': nat)
    requires RunRanked(vs, rank, clock) && cur in vs
    requires Relabelled(vs, relaxed)
    requires RelaxStep(Adj(vs), Dists(vs), Parents(vs), Done(vs), cur, Dists(relaxed), Parents(relaxed))
    requires vs' == relaxed[cur := relaxed[cur].(visited := true)]
    requires rank' == (if cur in rank then rank else rank[cur := clock])
    requires clock' == (if cur in rank then clock else clock + 1)
    ensures RunRanked(vs', rank', clock')
  {
    RelabelledViews(vs, relaxed);
    Visit(relaxed, cur);
    RankStep(Adj(vs), Dists(vs), Parents(vs), Done(vs), rank, clock, cur, Dists(relaxed), Parents(relaxed), rank', clock');
  }

  /** Relaxation lowers distances only, and never touches visited vertices or `a`. */
  lemma MonotoneStep(vs0: Vertices, vs: Vertices, a: int, cur: int, relaxed: Vertices, vs': Vertices)
    requires RunMonotone(vs0, vs, a) && cur in vs
    requires Relabelled(vs, relaxed)
    requires RelaxStep(Adj(vs), Dists(vs), Parents(vs), Done(vs), cur, Dists(relaxed), Parents(relaxed))
    requires vs' == relaxed[cur := relaxed[cur].(visited := true)]
    ensures RunMonotone(vs0, vs', a)
  {
    var d, p, s := Dists(vs), Parents(vs), Done(vs);
    var d', p' := Dists(relaxed), Parents(relaxed);
    RelaxStepFacts(Adj(vs), d, p, s, cur, d', p');
    assert d[a] == Fin(0);
    forall k | k in vs0 ensures AtMost(vs'[k].distance, vs0[k].distance) {
      assert AtMost(d'[k], d[k]);
    }
    forall k | k in vs0 && vs0[k].visited && k != a ensures vs'[k] == vs0[k] {
      assert k in s;
    }
  }

  /**
   * Over one pass, the current vertex ends visited, no distance grows, and a
   * vertex that was already visited does not change at all.
   */
  lemma StepFrame(vs: Vertices, cur: int, relaxed: Vertices, vs': Vertices)
    requires cur in vs && Relabelled(vs, relaxed)
    requires RelaxStep(Adj(vs), Dists(vs), Parents(vs), Done(vs), cur, Dists(relaxed), Parents(relaxed))
    requires vs' == relaxed[cur := relaxed[cur].(visited := true)]
    ensures cur in vs' && vs'[cur].visited
    ensures forall k :: k in vs ==> k in vs' && AtMost(vs'[k].distance, vs[k].distance)
    ensures forall k :: k in vs && vs[k].visited ==> k in vs' && vs'[k] == vs[k]
  {
    var d, p, s := Dists(vs), Parents(vs), Done(vs);
    var d', p' := Dists(relaxed), Parents(relaxed);
    RelaxStepFacts(Adj(vs), d, p, s, cur, d', p');
    forall k | k in vs ensures k in vs' && AtMost(vs'[k].distance, vs[k].distance) {
      assert AtMost(d'[k], d[k]);
    }
    forall k | k in vs && vs[k].visited ensures k in vs' && vs'[k] == vs[k] {
      assert k in s && d'[k] == d[k] && p'[k] == p[k];
    }
  }

  /**
   * DijkstraInv of equal views. It exists so that callers can state the
   * invariant on the exact terms of their goal, which keeps the solver from
   * matching two copies of the same predicate.
   */
  lemma InvOfEqual(adj: Adjacency, d: map<int, Dist>, p: ParentMap, s: set<int>, src: int,
                   adj': Adjacency, d': map<int, Dist>, p': ParentMap, s': set<int>)
    requires DijkstraInv(adj, d, p, s, src)
    requires adj' == adj && d' == d && p' == p && s' == s
    ensures DijkstraInv(adj', d', p', s', src)
  {
  }

  /** On a fresh run, finalising the nearest unvisited vertex keeps DijkstraInv. */
  lemma FreshStep(vs: Vertices, a: int, unvisited: seq<int>, cur: int, relaxed: Vertices, vs': Vertices)
    requires RunFresh(vs, a, unvisited) && cur in unvisited && cur in vs && NoDup(unvisited)
    requires forall k :: k in unvisited ==> k in vs && AtMost(vs[cur].distance, vs[k].distance)
    requires Relabelled(vs, relaxed)
    requires RelaxStep(Adj(vs), Dists(vs), Parents(vs), Done(vs), cur, Dists(relaxed), Parents(relaxed))
    requires vs' == relaxed[cur := relaxed[cur].(visited := true)]
    ensures RunFresh(vs', a, Remove(unvisited, cur))
  {
    var d, p, s := Dists(vs), Parents(vs), Done(vs);
    RelabelledViews(vs, relaxed);
    Visit(relaxed, cur);
    SameGraphShape([], relaxed, vs');
    RemoveNoDup(unvisited, cur);
    forall y | y in d && y !in s ensures AtMost(d[cur], d[y]) {
      assert y in unvisited;
    }
    StepKeepsInvariant(Adj(vs), d, p, s, a, cur, Dists(relaxed), Parents(relaxed));
    InvOfEqual(Adj(vs), Dists(relaxed), Parents(relaxed), s + {cur}, a, Adj(vs'), Dists(vs'), Parents(vs'), Done(vs'));
  }

  /**
   * One pass of the loop: relax the neighbours of `cur`, mark `cur` visited,
   * rank it if it was not, and take it off the work list. When no vertex had
   * been visited before the run, `cur` must be the nearest listed vertex.
   */
  lemma RunStep(order: seq<int>, vs0: Vertices, vs: Vertices, rank: map<int, nat>, clock: nat, a: int,
                unvisited: seq<int>, cur: int, relaxed: Vertices, vs': Vertices, rank': map<int, nat>, clock': nat)
    requires RunInv(order, vs0, vs, rank, clock, a, unvisited) && cur in unvisited
    requires Done(vs0) == {} ==> forall k :: k in unvisited ==> AtMost(vs[cur].distance, vs[k].distance)
    requires Relabelled(vs, relaxed)
    requires RelaxStep(Adj(vs), Dists(vs), Parents(vs), Done(vs), cur, Dists(relaxed), Parents(relaxed))
    requires vs' == relaxed[cur := relaxed[cur].(visited := true)]
    requires rank' == (if cur in rank then rank else rank[cur := clock])
    requires clock' == (if cur in rank then clock else clock + 1)
    ensures RunInv(order, vs0, vs', rank', clock', a, Remove(unvisited, cur))
  {
    RelabelledViews(vs, relaxed);
    Visit(relaxed, cur);
    FrameStep(order, vs0, vs, a, unvisited, cur, vs');
    RankedStep(vs, rank, clock, cur, relaxed, vs', rank', clock');
    MonotoneStep(vs0, vs, a, cur, relaxed, vs');
    if Done(vs0) == {} {
      FreshStep(vs, a, unvisited, cur, relaxed, vs');
    }
  }

  /**
   * When the work list is empty every vertex is visited and the graph is
   * consistent again, with its lists unchanged; no distance has grown,
   * vertices visited before the run (other than `a`) are untouched, and
   * after a run on a graph nobody had visited, the distances and parents
   * form a shortest-path tree rooted at `a`. The primed arguments are the
   * same values under the names the caller states its result with, so that
   * the solver matches the result against the goal term for term.
   */
  lemma RunEnd(order: seq<int>, vs0: Vertices, vs: Vertices, rank: map<int, nat>, clock: nat, a: int,
               unvisited: seq<int>, order': seq<int>, vs': Vertices, rank': map<int, nat>, clock': nat)
    requires RunInv(order, vs0, vs, rank, clock, a, unvisited) && unvisited == []
    requires order' == order && vs' == vs && rank' == rank && clock' == clock
    ensures Consistent(order', vs', rank', clock')
    ensures SameGraph(vs0, vs') && Adj(vs') == Adj(vs0)
    ensures Done(vs') == vs'.Keys && |order'| == |vs'|
    ensures forall v :: v in vs0 ==> AtMost(vs'[v].distance, vs0[v].distance)
    ensures forall v :: v in vs0 && vs0[v].visited && v != a ==> vs'[v] == vs0[v]
    ensures vs'[a].distance == Fin(0) && vs'[a].parent == vs0[a].parent
    ensures Done(vs0) == {} ==> ShortestPathTree(Adj(vs'), Dists(vs'), Parents(vs'), a)
  {
    SameGraphShape(order, vs0, vs);
    OrderCount(order, vs);
    assert forall k :: k in Done(vs) <==> k in vs;
    assert forall k :: k in Adj(vs) <==> k in vs;
  }

  /** The key list has one entry per vertex. */
  lemma OrderCount(order: seq<int>, vs: Vertices)
    requires Shape(order, vs)
    ensures |order| == |vs|
  {
    NoDupCard(order);
    assert forall x :: x in (set x | x in order) <==> x in vs.Keys;
    assert (set x | x in order) == vs.Keys;
  }

  /**
   * `minimo(lista)`: the first listed vertex of least distance, or nothing
   * for an empty list.
   */
  method Minimum(vs: Vertices, list: seq<int>) returns (r: Option<int>)
    requires forall i :: 0 <= i < |list| ==> list[i] in vs
    ensures r.None? <==> list == []
    ensures r.Some? ==> r.value in list && forall k :: k in list ==> AtMost(vs[r.value].distance, vs[k].distance)
    ensures r.Some? ==> exists i :: 0 <= i < |list| && list[i] == r.value &&
                                    forall j :: 0 <= j < i ==> Less(vs[r.value].distance, vs[list[j]].distance)
  {
    if |list| == 0 {
      return None;
    }
    var m := vs[list[0]].distance;
    var v := list[0];
    ghost var at := 0;
    for i := 0 to |list|
      invariant 0 <= at < |list| && list[at] == v && m == vs[v].distance
      invariant at == 0 || at < i
      invariant forall j :: 0 <= j < i ==> AtMost(m, vs[list[j]].distance)
      invariant forall j :: 0 <= j < at ==> Less(m, vs[list[j]].distance)
    {
      var e := list[i];
      if Less(vs[e].distance, m) {
        m := vs[e].distance;
        v := e;
        at := i;
      }
    }
    r := Some(v);
  }

  /**
   * The `for vecino in ...` loop of `dijkstra`: every unvisited neighbour
   * of `cur` that the path through `cur` brings closer gets that distance
   * and `cur` as its parent, which is the step RelaxStep describes.
   */
  method Relax(vs: Vertices, cur: int) returns (r: Vertices)
    requires cur in vs && UniqueIds(vs[cur].neighbours)
    requires forall i :: 0 <= i < |vs[cur].neighbours| ==> vs[cur].neighbours[i].0 in vs
    ensures Relabelled(vs, r)
    ensures RelaxStep(Adj(vs), Dists(vs), Parents(vs), Done(vs), cur, Dists(r), Parents(r))
  {
    ghost var adj, s, d0, p0 := Adj(vs), Done(vs), Dists(vs), Parents(vs);
    var ns := vs[cur].neighbours;
    var dcur := vs[cur].distance;
    assert adj[cur] == ns && d0[cur] == dcur;
    r := vs;
    var j := 0;
    while j < |ns|
      invariant Relabelled(vs, r)
      invariant RelaxedPrefix(adj, ns, j, cur, dcur, s, d0, p0, Dists(r), Parents(r))
    {
      RelaxNext(adj, ns, j, cur, dcur, s, d0, p0, Dists(r), Parents(r));
      var (u, w) := ns[j];
      var vu := r[u];
      assert vu.visited <==> u in s;
      assert vu.distance == Dists(r)[u];
      if !vu.visited {
        var candidate := Add(dcur, w);
        if Less(candidate, vu.distance) {
          Label(r, u, candidate, Some(cur));
          r := r[u := vu.(distance := candidate, parent := Some(cur))];
        }
      }
      j := j + 1;
    }
    RelaxedAll(adj, cur, s, d0, p0, Dists(r), Parents(r));
  }

  /**
   * One pass of the `while` loop of `dijkstra`: the current vertex has its
   * neighbours relaxed, is marked visited (and ranked, the first time),
   * leaves the list, and the nearest listed vertex becomes current.
   */
  method Step(ghost order: seq<int>, ghost vs0: Vertices, vs: Vertices, ghost rank: map<int, nat>, ghost clock: nat,
              ghost a: int, unvisited: seq<int>, current: Option<int>)
    returns (vs': Vertices, ghost rank': map<int, nat>, ghost clock': nat, unvisited': seq<int>, current': Option<int>)
    requires Loop(order, vs0, vs, rank, clock, a, unvisited, current) && unvisited != []
    ensures Loop(order, vs0, vs', rank', clock', a, unvisited', current')
    ensures |unvisited'| == |unvisited| - 1
    ensures current.Some? && unvisited' == Remove(unvisited, current.value)
    ensures current.value in vs' && vs'[current.value].visited
    ensures forall k :: k in vs ==> k in vs' && AtMost(vs'[k].distance, vs[k].distance)
    ensures forall k :: k in vs && vs[k].visited ==> k in vs' && vs'[k] == vs[k]
  {
    StepReady(order, vs0, vs, rank, clock, a, unvisited, current, current.value);
    var cur := current.value;
    var relaxed := Relax(vs, cur);
    vs' := relaxed[cur := relaxed[cur].(visited := true)];
    rank', clock' := rank, clock;
    if cur !in rank {
      rank', clock' := rank[cur := clock], clock + 1;
    }
    unvisited' := Remove(unvisited, cur);
    LoopStep(order, vs0, vs, rank, clock, a, unvisited, current, cur, relaxed, vs', rank', clock', unvisited');
    StepFrame(vs, cur, relaxed, vs');
    current' := Minimum(vs', unvisited');
  }

  /** `Grafica`: the dictionary `vertices` from ids to vertices. */
  class Graph {
    var vertices: Vertices
    /** The keys of `vertices` in insertion order, as `list(vertices.keys())` yields them. */
    var order: seq<int>
    /**
     * The step of `dijkstra` at which each visited vertex was finalised, and
     * the number of steps so far; they witness that the parent links never
     * form a cycle, so `camino` always stops.
     */
    ghost var rank: map<int, nat>
    ghost var clock: nat

    ghost predicate Valid()
      reads this
    {
      Consistent(order, vertices, rank, clock)
    }

    /** `Grafica()`: no vertices. */
    constructor ()
      ensures Valid() && vertices == map[] && order == []
    {
      vertices := map[];
      order := [];
      rank, clock := map[], 0;
      new;
      assert Adj(vertices) == map[];
    }

    /** `agregarVertice(id)`: a new unvisited vertex without neighbours, unless the id is taken. */
    method AddVertex(id: int)
      requires Valid()
      modifies this`vertices, this`order
      ensures Valid()
      ensures vertices == if id in old(vertices) then old(vertices) else old(vertices)[id := NewVertex(id)]
      ensures order == if id in old(vertices) then old(order) else old(order) + [id]
      ensures Adj(vertices) == Adj(old(vertices))[id := if id in old(vertices) then old(vertices)[id].neighbours else []]
    {
      if id !in vertices {
        NewVertexConsistent(order, vertices, rank, clock, id);
        vertices := vertices[id := NewVertex(id)];
        order := order + [id];
      }
    }

    /** `agregarArista(a, b, w)`: when both are vertices, each lists the other with weight `w`. */
    method AddEdge(a: int, b: int, w: nat)
      requires Valid()
      modifies this`vertices
      ensures Valid()
      ensures Adj(vertices) == Link(Adj(old(vertices)), a, b, w)
      ensures Relinked(old(vertices), vertices)
    {
      if a in vertices && b in vertices {
        LinkConsistent(order, vertices, rank, clock, a, b, w);
        vertices := vertices[a := vertices[a].AddNeighbour(b, w)];
        vertices := vertices[b := vertices[b].AddNeighbour(a, w)];
      }
    }

    /**
     * `dijkstra(a)`: false when `a` is not a vertex. Otherwise `a` gets
     * distance 0 and, once per vertex, the nearest listed vertex has its
     * unvisited neighbours relaxed, is marked visited and leaves the list.
     * Afterwards the graph itself is unchanged, every vertex is visited, no
     * distance has grown, vertices visited by an earlier run keep their
     * state, and on a graph no earlier run had visited, the distances and
     * parents form a shortest-path tree rooted at `a`.
     */
    method Dijkstra(a: int) returns (found: bool, ghost steps: nat)
      requires Valid()
      modifies this`vertices, this`rank, this`clock
      ensures Valid()
      ensures found <==> a in old(vertices)
      ensures !found ==> vertices == old(vertices)
      ensures found ==> SameGraph(old(vertices), vertices) && Adj(vertices) == Adj(old(vertices))
      ensures found ==> Done(vertices) == vertices.Keys && steps == |vertices|
      ensures found ==> forall v :: v in old(vertices) ==> AtMost(vertices[v].distance, old(vertices)[v].distance)
      ensures found ==> forall v :: v in old(vertices) && old(vertices)[v].visited && v != a ==> vertices[v] == old(vertices)[v]
      ensures found ==> vertices[a].distance == Fin(0) && vertices[a].parent == old(vertices)[a].parent
      ensures found && Done(old(vertices)) == {} ==> ShortestPathTree(Adj(vertices), Dists(vertices), Parents(vertices), a)
    {
      if a !in vertices {
        return false, 0;
      }
      var vs := vertices[a := vertices[a].(distance := Fin(0))];
      ghost var rk, ck := rank, clock;
      var unvisited := order;
      var current: Option<int> := Some(a);
      LoopStart(order, vertices, rank, clock, a, vs, rk, ck, unvisited, current);
      steps := 0;
      while |unvisited| > 0
        invariant Loop(old(order), old(vertices), vs, rk, ck, a, unvisited, current)
        invariant steps + |unvisited| == |old(order)|
        decreases |unvisited|
      {
        vs, rk, ck, unvisited, current := Step(old(order), old(vertices), vs, rk, ck, a, unvisited, current);
        steps := steps + 1;
      }
      vertices, rank, clock := vs, rk, ck;
      RunEnd(old(order), old(vertices), vs, rk, ck, a, unvisited, order, vertices, rank, clock);
      found := true;
    }

    /**
     * `camino(a, b)`: the ids met following parents back from `b`, first
     * one first, and the distance of `b`; the start `a` is not consulted.
     * Nothing (Python's KeyError) when `b` is not a vertex. After a run from
     * `a` on an unvisited graph, a path to a vertex at finite distance is a
     * walk from `a` whose cost is that distance, and no walk from `a` to `b`
     * is cheaper.
     */
    method Path(a: int, b: int) returns (r: Option<(seq<int>, Dist)>)
      requires Valid()
      ensures r.None? <==> b !in vertices
      ensures r.Some? ==> IsChain(Parents(vertices), r.value.0, b) && r.value.1 == vertices[b].distance
      ensures r.Some? && ShortestPathTree(Adj(vertices), Dists(vertices), Parents(vertices), a) ==>
        && (r.value.1.Fin? ==> IsWalkFrom(Adj(vertices), r.value.0, a, b) && Cost(Adj(vertices), r.value.0) == r.value.1.n)
        && (r.value.1.Inf? ==> r.value.0 == [b] && forall ps :: !IsWalkFrom(Adj(vertices), ps, a, b))
        && (forall ps :: IsWalkFrom(Adj(vertices), ps, a, b) ==> AtMost(r.value.1, Fin(Cost(Adj(vertices), ps))))
    {
      if b !in vertices {
        return None;
      }
      ghost var p := Parents(vertices);
      var path: seq<int> := [];
      var current: Option<int> := Some(b);
      while current.Some?
        invariant current.Some? ==> current.value in vertices
        invariant forall i :: 0 <= i < |path| ==> path[i] in p
        invariant path == [] ==> current == Some(b)
        invariant path != [] ==> path[|path| - 1] == b && current == p[path[0]]
        invariant forall i :: 0 < i < |path| ==> p[path[i]] == Some(path[i - 1])
        decreases if current.Some? then Height(rank, clock, current.value) + 1 else 0
      {
        var v := current.value;
        assert p[v] == vertices[v].parent;
        path := [v] + path;
        current := vertices[v].parent;
      }
      r := Some((path, vertices[b].distance));
      if ShortestPathTree(Adj(vertices), Dists(vertices), p, a) {
        ChainIsShortestWalk(Adj(vertices), Dists(vertices), p, a, path, b);
        ShortestDistance(Adj(vertices), Dists(vertices), p, a, rank, clock, b);
      }
    }
  }
}
