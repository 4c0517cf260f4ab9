/**
 * The value side of the shortest-path engine in DijkstraGI.py: accumulated
 * resistances with an explicit infinity, adjacency lists of
 * `[neighbour, resistance]` pairs, walks and their cost, the relaxation that
 * `dijkstra` applies to the neighbours of the current vertex, and the
 * invariants that relaxation keeps. The classes that hold this state are in
 * module Graphs.
 */
module ShortestPaths {
  import opened Wrappers

  /** `distancia`: a natural number or Python's `float('inf')`. */
  datatype Dist = Fin(n: nat) | Inf

  /** `distancia + resistencia`; infinity absorbs every weight. */
  function Add(d: Dist, w: nat): Dist {
    match d
    case Fin(n) => Fin(n + w)
    case Inf => Inf
  }

  /** Python's `<` between two distances. */
  predicate Less(x: Dist, y: Dist) {
    match x
    case Inf => false
    case Fin(a) => y.Inf? || a < y.n
  }

  /** `x <= y`, i.e. not `y < x`. */
  predicate AtMost(x: Dist, y: Dist) {
    !Less(y, x)
  }

  /** An entry `[vecino, resistencia]` of an adjacency list. */
  type Edge = (int, nat)

  /** The `vecinos` list of every vertex, by vertex id. */
  type Adjacency = map<int, seq<Edge>>

  /** `any(vecino[0] == v for vecino in ns)`. */
  predicate HasNeighbour(ns: seq<Edge>, v: int) {
    exists i :: 0 <= i < |ns| && ns[i].0 == v
  }

  /** No neighbour id occurs twice in the list. */
  predicate UniqueIds(ns: seq<Edge>) {
    forall i, j :: 0 <= i < j < |ns| ==> ns[i].0 != ns[j].0
  }

  /** The resistance of the first entry for `v` in an adjacency list, if any. */
  function WeightTo(ns: seq<Edge>, v: int): Option<nat> {
    if ns == [] then None
    else if ns[0].0 == v then Some(ns[0].1)
    else WeightTo(ns[1..], v)
  }

  /** `v` has a weight exactly when it is listed, and that weight is listed with it. */
  lemma {:induction false} WeightToSpec(ns: seq<Edge>, v: int)
    ensures WeightTo(ns, v).Some? <==> HasNeighbour(ns, v)
    ensures WeightTo(ns, v).Some? ==> (v, WeightTo(ns, v).value) in ns
  {
    if ns != [] && ns[0].0 != v {
      WeightToSpec(ns[1..], v);
      if HasNeighbour(ns, v) {
        var i :| 0 <= i < |ns| && ns[i].0 == v;
        assert ns[1..][i - 1] == ns[i];
      }
    }
  }

  /** Appending an entry does not change the weight of an id already listed. */
  lemma {:induction false} WeightToAppend(ns: seq<Edge>, e: Edge, v: int)
    ensures WeightTo(ns + [e], v)
         == if WeightTo(ns, v).Some? then WeightTo(ns, v) else if e.0 == v then Some(e.1) else None
  {
    if ns == [] {
      assert [e][1..] == [];
    } else {
      assert (ns + [e])[1..] == ns[1..] + [e];
      WeightToAppend(ns[1..], e, v);
    }
  }

  /** In a list without repeated ids, every entry gives the weight of its id. */
  lemma {:induction false} WeightAt(ns: seq<Edge>, i: nat)
    requires UniqueIds(ns) && i < |ns|
    ensures WeightTo(ns, ns[i].0) == Some(ns[i].1)
  {
    if i > 0 {
      assert UniqueIds(ns[1..]) by {
        forall k, l | 0 <= k < l < |ns[1..]| ensures ns[1..][k].0 != ns[1..][l].0 {
          assert ns[1..][k] == ns[k + 1] && ns[1..][l] == ns[l + 1];
        }
      }
      assert ns[1..][i - 1] == ns[i];
      WeightAt(ns[1..], i - 1);
    }
  }

  /** The list of a prefix of a list without repeated ids. */
  lemma WeightToPrefix(ns: seq<Edge>, j: nat, v: int)
    requires UniqueIds(ns) && j < |ns|
    ensures WeightTo(ns[..j + 1], v) == if v == ns[j].0 then Some(ns[j].1) else WeightTo(ns[..j], v)
    ensures WeightTo(ns[..j], ns[j].0).None?
  {
    assert ns[..j + 1] == ns[..j] + [ns[j]];
    WeightToAppend(ns[..j], ns[j], v);
    forall k | 0 <= k < |ns[..j]| ensures ns[..j][k].0 != ns[j].0 {
      assert ns[..j][k] == ns[k];
    }
    WeightToSpec(ns[..j], ns[j].0);
  }

  /** The list `agregarVecino(v, w)` leaves behind: unchanged if `v` is listed, else one more entry. */
  function WithNeighbour(ns: seq<Edge>, v: int, w: nat): seq<Edge> {
    if HasNeighbour(ns, v) then ns else ns + [(v, w)]
  }

  /**
   * `agregarVecino` never creates a second entry for a listed id; otherwise
   * the new id gets weight `w`, and the weight of every other id and every
   * existing entry stay as they were.
   */
  lemma WithNeighbourSpec(ns: seq<Edge>, v: int, w: nat)
    ensures UniqueIds(ns) ==> UniqueIds(WithNeighbour(ns, v, w))
    ensures WeightTo(WithNeighbour(ns, v, w), v) == if WeightTo(ns, v).Some? then WeightTo(ns, v) else Some(w)
    ensures forall u :: u != v ==> WeightTo(WithNeighbour(ns, v, w), u) == WeightTo(ns, u)
    ensures |WithNeighbour(ns, v, w)| == if WeightTo(ns, v).Some? then |ns| else |ns| + 1
    ensures WithNeighbour(ns, v, w)[..|ns|] == ns
  {
    var r := WithNeighbour(ns, v, w);
    WeightToSpec(ns, v);
    WeightToAppend(ns, (v, w), v);
    forall u | u != v ensures WeightTo(r, u) == WeightTo(ns, u) {
      WeightToAppend(ns, (v, w), u);
    }
    if UniqueIds(ns) && WeightTo(ns, v).None? {
      forall i, j | 0 <= i < j < |r| ensures r[i].0 != r[j].0 {
        if j == |ns| {
          assert r[j].0 == v && r[i] == ns[i];
        }
      }
    }
  }

  /** The adjacency lists after `agregarArista(a, b, w)`. */
  function Link(adj: Adjacency, a: int, b: int, w: nat): Adjacency {
    if a in adj && b in adj then
      var first := adj[a := WithNeighbour(adj[a], b, w)];
      first[b := WithNeighbour(first[b], a, w)]
    else adj
  }

  /**
   * When `v` lists `u`, then `u` is a vertex and lists `v` with the same
   * weight.
   */
  ghost predicate Mirrored(adj: Adjacency, v: int, u: int) {
    v in adj && WeightTo(adj[v], u).Some? ==> u in adj && WeightTo(adj[u], v) == WeightTo(adj[v], u)
  }

  /**
   * The shape `agregarVecino` and `agregarArista` maintain: no list repeats an
   * id, and every edge is listed at both ends with the same weight (so every
   * listed id is a vertex).
   */
  ghost predicate GraphOk(adj: Adjacency) {
    && (forall v :: v in adj ==> UniqueIds(adj[v]))
    && (forall v, u {:trigger Mirrored(adj, v, u)} :: Mirrored(adj, v, u))
  }

  /**
   * `agregarArista(a, b, w)` does nothing unless both ends are vertices.
   * Otherwise `b` is listed by `a` and `a` by `b` with one common weight, which
   * is `w` when the edge was new; existing entries are kept as a prefix of
   * every list, and the symmetric shape of the graph is preserved.
   */
  lemma LinkSpec(adj: Adjacency, a: int, b: int, w: nat)
    requires GraphOk(adj)
    ensures GraphOk(Link(adj, a, b, w)) && Link(adj, a, b, w).Keys == adj.Keys
    ensures !(a in adj && b in adj) ==> Link(adj, a, b, w) == adj
    ensures a in adj && b in adj ==>
      var l := Link(adj, a, b, w);
      && WeightTo(l[a], b).Some?
      && WeightTo(l[b], a) == WeightTo(l[a], b)
      && (WeightTo(adj[a], b).None? ==> WeightTo(l[a], b) == Some(w))
      && (WeightTo(adj[a], b).Some? ==> l == adj)
    ensures forall v :: v in adj ==> |adj[v]| <= |Link(adj, a, b, w)[v]| && Link(adj, a, b, w)[v][..|adj[v]|] == adj[v]
  {
    if a in adj && b in adj {
      WithNeighbourSpec(adj[a], b, w);
      assert Mirrored(adj, a, b) && Mirrored(adj, b, a);
      if WeightTo(adj[a], b).None? {
        if a == b {
          LinkLoop(adj, a, w);
        } else {
          LinkPair(adj, a, b, w);
        }
      } else {
        WithNeighbourSpec(adj[b], a, w);
        assert adj[a := adj[a]] == adj && adj[b := adj[b]] == adj;
      }
    }
  }

  /** A new self-loop at `a` keeps the graph's shape. */
  lemma LinkLoop(adj: Adjacency, a: int, w: nat)
    requires GraphOk(adj) && a in adj && WeightTo(adj[a], a).None?
    ensures Link(adj, a, a, w) == adj[a := adj[a] + [(a, w)]]
    ensures GraphOk(Link(adj, a, a, w))
  {
    var la := adj[a] + [(a, w)];
    WithNeighbourSpec(adj[a], a, w);
    assert WithNeighbour(la, a, w) == la by {
      assert la[|adj[a]|].0 == a;
    }
    var l := adj[a := la];
    forall v, u ensures Mirrored(l, v, u) {
      assert Mirrored(adj, v, u) && Mirrored(adj, u, v);
    }
  }

  /** A new edge between two distinct vertices keeps the graph's shape. */
  lemma LinkPair(adj: Adjacency, a: int, b: int, w: nat)
    requires GraphOk(adj) && a in adj && b in adj && a != b
    requires WeightTo(adj[a], b).None? && WeightTo(adj[b], a).None?
    ensures Link(adj, a, b, w) == adj[a := adj[a] + [(b, w)]][b := adj[b] + [(a, w)]]
    ensures GraphOk(Link(adj, a, b, w))
  {
    WithNeighbourSpec(adj[a], b, w);
    WithNeighbourSpec(adj[b], a, w);
    var l := adj[a := adj[a] + [(b, w)]][b := adj[b] + [(a, w)]];
    forall v, u ensures Mirrored(l, v, u) {
      assert Mirrored(adj, v, u);
      if v in adj {
        PairWeight(adj, a, b, w, v, u);
      }
      if u in adj {
        PairWeight(adj, a, b, w, u, v);
      }
    }
  }

  /** The weights after a new edge between two distinct vertices. */
  lemma PairWeight(adj: Adjacency, a: int, b: int, w: nat, v: int, u: int)
    requires a in adj && b in adj && a != b && v in adj
    requires WeightTo(adj[a], b).None? && WeightTo(adj[b], a).None?
    ensures WeightTo(adj[a := adj[a] + [(b, w)]][b := adj[b] + [(a, w)]][v], u)
         == if (v == a && u == b) || (v == b && u == a) then Some(w) else WeightTo(adj[v], u)
  {
    if v == a {
      WeightToAppend(adj[a], (b, w), u);
    } else if v == b {
      WeightToAppend(adj[b], (a, w), u);
    }
  }

  /** `agregarVertice` adds an empty list, which keeps the graph's shape. */
  lemma NewVertexShape(adj: Adjacency, v: int)
    requires GraphOk(adj) && v !in adj
    ensures GraphOk(adj[v := []])
  {
    var l := adj[v := []];
    forall x, u ensures Mirrored(l, x, u) {
      assert Mirrored(adj, x, u);
    }
  }

  /** `y` is listed as a neighbour of vertex `x`. */
  ghost predicate Hop(adj: Adjacency, x: int, y: int) {
    x in adj && WeightTo(adj[x], y).Some?
  }

  /** A sequence of vertices in which each one lists the next as a neighbour. */
  ghost predicate IsWalk(adj: Adjacency, ps: seq<int>) {
    && |ps| > 0
    && (forall i :: 0 <= i < |ps| ==> ps[i] in adj)
    && (forall i :: 0 < i < |ps| ==> Hop(adj, ps[i - 1], ps[i]))
  }

  /** A walk that starts at `s` and ends at `v`. */
  ghost predicate IsWalkFrom(adj: Adjacency, ps: seq<int>, s: int, v: int) {
    IsWalk(adj, ps) && ps[0] == s && ps[|ps| - 1] == v
  }

  /** The accumulated resistance of a walk. */
  ghost function Cost(adj: Adjacency, ps: seq<int>): nat
    requires IsWalk(adj, ps)
    decreases |ps|
  {
    if |ps| == 1 then 0
    else
      assert Hop(adj, ps[|ps| - 2], ps[|ps| - 1]);
      Cost(adj, ps[..|ps| - 1]) + WeightTo(adj[ps[|ps| - 2]], ps[|ps| - 1]).value
  }

  /** Every edge leaving a vertex of `s` is relaxed: `d[u] <= d[v] + w`. */
  ghost predicate RelaxedFrom(adj: Adjacency, d: map<int, Dist>, s: set<int>) {
    forall v, u :: v in s && v in adj && v in d && u in d && WeightTo(adj[v], u).Some? ==>
      AtMost(d[u], Add(d[v], WeightTo(adj[v], u).value))
  }

  /**
   * A bound on walk costs: if `d` gives `s` distance 0 and no edge can be
   * relaxed, then `d` of the end of every walk from `s` is at most the walk's
   * cost.
   */
  lemma {:induction false} WalkBound(adj: Adjacency, d: map<int, Dist>, s: int, ps: seq<int>)
    requires d.Keys == adj.Keys && RelaxedFrom(adj, d, adj.Keys)
    requires s in d && d[s] == Fin(0)
    requires IsWalk(adj, ps) && ps[0] == s
    ensures AtMost(d[ps[|ps| - 1]], Fin(Cost(adj, ps)))
    decreases |ps|
  {
    if |ps| > 1 {
      var qs := ps[..|ps| - 1];
      assert IsWalk(adj, qs) by {
        forall i | 0 < i < |qs| ensures Hop(adj, qs[i - 1], qs[i]) {
          assert Hop(adj, ps[i - 1], ps[i]);
        }
      }
      WalkBound(adj, d, s, qs);
      var x, y := ps[|ps| - 2], ps[|ps| - 1];
      assert Hop(adj, x, y);
      assert AtMost(d[y], Add(d[x], WeightTo(adj[x], y).value));
    }
  }

  /** `padre` of every vertex, by id. */
  type ParentMap = map<int, Option<int>>

  /**
   * Every parent is finalised, lists its child with some weight `w`, and
   * `d[child] = d[parent] + w` is finite.
   */
  ghost predicate ParentsSound(adj: Adjacency, d: map<int, Dist>, p: ParentMap, s: set<int>) {
    forall v :: v in p && v in d && p[v].Some? ==>
      var q := p[v].value;
      && q in s && q in adj && q in d && WeightTo(adj[q], v).Some?
      && d[v] == Add(d[q], WeightTo(adj[q], v).value) && d[v].Fin?
  }

  /** Only the source and vertices with a parent have a finite distance. */
  ghost predicate ReachedViaParents(d: map<int, Dist>, p: ParentMap, src: int) {
    forall v :: v in d && v in p && d[v].Fin? ==> v == src || p[v].Some?
  }

  /** No finalised vertex is farther than an unfinalised one. */
  ghost predicate FinalisedFirst(d: map<int, Dist>, s: set<int>) {
    forall x, y :: x in s && x in d && y in d && y !in s ==> AtMost(d[x], d[y])
  }

  /**
   * What holds of the distances `d`, parents `p` and finalised set `s` at the
   * head of the loop of `dijkstra` run from `src` on a graph nobody had
   * visited before.
   */
  ghost predicate DijkstraInv(adj: Adjacency, d: map<int, Dist>, p: ParentMap, s: set<int>, src: int) {
    && d.Keys == adj.Keys && p.Keys == adj.Keys && s <= adj.Keys && src in adj
    && d[src] == Fin(0) && p[src] == None
    && ParentsSound(adj, d, p, s)
    && ReachedViaParents(d, p, src)
    && RelaxedFrom(adj, d, s)
    && FinalisedFirst(d, s)
  }

  /** The state `dijkstra` leaves behind once every vertex is finalised. */
  ghost predicate ShortestPathTree(adj: Adjacency, d: map<int, Dist>, p: ParentMap, src: int) {
    DijkstraInv(adj, d, p, adj.Keys, src)
  }

  /**
   * Before the first step nothing is finalised, the source is at distance 0
   * and every other vertex at infinity, and no vertex has a parent.
   */
  lemma StartInv(adj: Adjacency, d: map<int, Dist>, p: ParentMap, s: set<int>, src: int)
    requires d.Keys == adj.Keys && p.Keys == adj.Keys && src in adj && s == {}
    requires d[src] == Fin(0) && forall v :: v in d && v != src ==> d[v] == Inf
    requires forall v :: v in p ==> p[v] == None
    ensures DijkstraInv(adj, d, p, s, src)
  {
  }

  /**
   * What the `for vecino in ...` loop of `dijkstra` does to vertex `v` when
   * the current vertex `cur` at distance `dcur` has adjacency list `ns`: an
   * unvisited listed neighbour whose distance the path through `cur` beats
   * gets that distance and `cur` as parent; anything else is untouched.
   */
  function Relaxation(ns: seq<Edge>, cur: int, dcur: Dist, v: int, visited: bool, d: Dist, p: Option<int>): (Dist, Option<int>) {
    if visited then (d, p)
    else
      match WeightTo(ns, v)
      case None => (d, p)
      case Some(w) => if Less(Add(dcur, w), d) then (Add(dcur, w), Some(cur)) else (d, p)
  }

  /**
   * Relaxation never raises a distance, leaves visited vertices untouched,
   * never changes the current vertex itself (weights are non-negative), and
   * a vertex it does change gets the distance through `cur` and `cur` as
   * parent; afterwards a listed unvisited neighbour is no farther than the
   * path through `cur`.
   */
  lemma RelaxationSpec(ns: seq<Edge>, cur: int, dcur: Dist, v: int, visited: bool, d: Dist, p: Option<int>)
    ensures var (d', p') := Relaxation(ns, cur, dcur, v, visited, d, p);
      && AtMost(d', d)
      && (visited ==> d' == d && p' == p)
      && (d == dcur ==> d' == d && p' == p)
      && ((d', p') == (d, p) || (p' == Some(cur) && Less(d', d) && WeightTo(ns, v).Some? && d' == Add(dcur, WeightTo(ns, v).value)))
      && (!visited && WeightTo(ns, v).Some? ==> AtMost(d', Add(dcur, WeightTo(ns, v).value)))
  {
  }

  /** `d'`, `p'` are what relaxing the neighbours of `cur` makes of `d`, `p`. */
  ghost predicate RelaxStep(adj: Adjacency, d: map<int, Dist>, p: ParentMap, s: set<int>, cur: int, d': map<int, Dist>, p': ParentMap) {
    && cur in adj && d.Keys == adj.Keys && p.Keys == adj.Keys && d'.Keys == adj.Keys && p'.Keys == adj.Keys
    && forall v :: v in adj ==> (d'[v], p'[v]) == Relaxation(adj[cur], cur, d[cur], v, v in s, d[v], p[v])
  }

  /** The first `j` entries of `ns`, the neighbours of `cur`, have been relaxed. */
  ghost predicate RelaxedPrefix(adj: Adjacency, ns: seq<Edge>, j: nat, cur: int, dcur: Dist, s: set<int>,
                                d0: map<int, Dist>, p0: ParentMap, d: map<int, Dist>, p: ParentMap) {
    && j <= |ns| && d0.Keys == adj.Keys && p0.Keys == adj.Keys && d.Keys == adj.Keys && p.Keys == adj.Keys
    && forall v :: v in adj ==> (d[v], p[v]) == Relaxation(ns[..j], cur, dcur, v, v in s, d0[v], p0[v])
  }

  /**
   * One pass of the body of the `for vecino` loop: the entry `ns[j]` is
   * relaxed when its vertex is unvisited and the path through `cur` is
   * shorter, which extends the relaxed prefix by one. The current vertex
   * itself keeps its distance throughout.
   */
  lemma RelaxNext(adj: Adjacency, ns: seq<Edge>, j: nat, cur: int, dcur: Dist, s: set<int>,
                  d0: map<int, Dist>, p0: ParentMap, d: map<int, Dist>, p: ParentMap)
    requires UniqueIds(ns) && j < |ns| && ns[j].0 in adj && cur in adj && d0.Keys == adj.Keys && d0[cur] == dcur
    requires RelaxedPrefix(adj, ns, j, cur, dcur, s, d0, p0, d, p)
    ensures d[cur] == dcur
    ensures var (u, w) := ns[j];
      if u !in s && Less(Add(dcur, w), d[u]) then
        RelaxedPrefix(adj, ns, j + 1, cur, dcur, s, d0, p0, d[u := Add(dcur, w)], p[u := Some(cur)])
      else
        RelaxedPrefix(adj, ns, j + 1, cur, dcur, s, d0, p0, d, p)
  {
    RelaxationSpec(ns[..j], cur, dcur, cur, cur in s, d0[cur], p0[cur]);
    var (u, w) := ns[j];
    var change := u !in s && Less(Add(dcur, w), d[u]);
    var d' := if change then d[u := Add(dcur, w)] else d;
    var p' := if change then p[u := Some(cur)] else p;
    forall v | v in adj
      ensures (d'[v], p'[v]) == Relaxation(ns[..j + 1], cur, dcur, v, v in s, d0[v], p0[v])
    {
      WeightToPrefix(ns, j, v);
    }
    assert RelaxedPrefix(adj, ns, j + 1, cur, dcur, s, d0, p0, d', p');
  }

  /** Once every neighbour of `cur` is relaxed, the step is complete. */
  lemma RelaxedAll(adj: Adjacency, cur: int, s: set<int>, d0: map<int, Dist>, p0: ParentMap, d: map<int, Dist>, p: ParentMap)
    requires cur in adj && cur in d0
    requires RelaxedPrefix(adj, adj[cur], |adj[cur]|, cur, d0[cur], s, d0, p0, d, p)
    ensures RelaxStep(adj, d0, p0, s, cur, d, p)
  {
    assert adj[cur][..|adj[cur]|] == adj[cur];
  }

  /** The facts of RelaxationSpec for every vertex at once. */
  lemma RelaxStepFacts(adj: Adjacency, d: map<int, Dist>, p: ParentMap, s: set<int>, cur: int, d': map<int, Dist>, p': ParentMap)
    requires RelaxStep(adj, d, p, s, cur, d', p')
    ensures d'[cur] == d[cur]
    ensures forall v :: v in adj ==> AtMost(d'[v], d[v])
    ensures forall v :: v in s && v in adj ==> d'[v] == d[v] && p'[v] == p[v]
    ensures forall v :: v in adj ==>
      (d'[v] == d[v] && p'[v] == p[v]) ||
      (p'[v] == Some(cur) && v !in s && Less(d'[v], d[v]) && WeightTo(adj[cur], v).Some? && d'[v] == Add(d[cur], WeightTo(adj[cur], v).value))
    ensures forall v :: v in adj && v !in s && WeightTo(adj[cur], v).Some? ==> AtMost(d'[v], Add(d[cur], WeightTo(adj[cur], v).value))
  {
    forall v | v in adj
      ensures AtMost(d'[v], d[v])
      ensures v in s ==> d'[v] == d[v] && p'[v] == p[v]
      ensures v == cur ==> d'[v] == d[v]
      ensures (d'[v] == d[v] && p'[v] == p[v]) ||
        (p'[v] == Some(cur) && v !in s && Less(d'[v], d[v]) && WeightTo(adj[cur], v).Some? && d'[v] == Add(d[cur], WeightTo(adj[cur], v).value))
      ensures v !in s && WeightTo(adj[cur], v).Some? ==> AtMost(d'[v], Add(d[cur], WeightTo(adj[cur], v).value))
    {
      RelaxationSpec(adj[cur], cur, d[cur], v, v in s, d[v], p[v]);
    }
  }

  /**
   * One iteration of the loop of `dijkstra`: relaxing the neighbours of the
   * unfinalised vertex `cur` of least distance and then finalising `cur`
   * preserves DijkstraInv.
   */
  lemma StepKeepsInvariant(adj: Adjacency, d: map<int, Dist>, p: ParentMap, s: set<int>, src: int,
                           cur: int, d': map<int, Dist>, p': ParentMap)
    requires DijkstraInv(adj, d, p, s, src)
    requires cur in adj && cur !in s
    requires forall y :: y in d && y !in s ==> AtMost(d[cur], d[y])
    requires RelaxStep(adj, d, p, s, cur, d', p')
    ensures DijkstraInv(adj, d', p', s + {cur}, src)
  {
    RelaxStepFacts(adj, d, p, s, cur, d', p');
    StepParents(adj, d, p, s, cur, d', p');
    StepRelaxed(adj, d, p, s, cur, d', p');
    StepFinalisedFirst(adj, d, p, s, cur, d', p');
  }

  lemma StepParents(adj: Adjacency, d: map<int, Dist>, p: ParentMap, s: set<int>, cur: int, d': map<int, Dist>, p': ParentMap)
    requires ParentsSound(adj, d, p, s) && cur in adj && cur !in s
    requires RelaxStep(adj, d, p, s, cur, d', p')
    ensures ParentsSound(adj, d', p', s + {cur})
  {
    RelaxStepFacts(adj, d, p, s, cur, d', p');
  }

  lemma StepRelaxed(adj: Adjacency, d: map<int, Dist>, p: ParentMap, s: set<int>, cur: int, d': map<int, Dist>, p': ParentMap)
    requires RelaxedFrom(adj, d, s) && FinalisedFirst(d, s) && cur in adj && cur !in s
    requires RelaxStep(adj, d, p, s, cur, d', p')
    ensures RelaxedFrom(adj, d', s + {cur})
  {
    RelaxStepFacts(adj, d, p, s, cur, d', p');
    forall v, u | v in s + {cur} && v in adj && v in d' && u in d' && WeightTo(adj[v], u).Some?
      ensures AtMost(d'[u], Add(d'[v], WeightTo(adj[v], u).value))
    {
      if v == cur && u in s {
        assert AtMost(d[u], d[cur]);
      }
    }
  }

  lemma StepFinalisedFirst(adj: Adjacency, d: map<int, Dist>, p: ParentMap, s: set<int>, cur: int, d': map<int, Dist>, p': ParentMap)
    requires RelaxStep(adj, d, p, s, cur, d', p')
    requires FinalisedFirst(d, s) && cur !in s
    requires forall y :: y in d && y !in s ==> AtMost(d[cur], d[y])
    ensures FinalisedFirst(d', s + {cur})
  {
    RelaxStepFacts(adj, d, p, s, cur, d', p');
    forall x, y | x in s + {cur} && x in d' && y in d' && y !in s + {cur}
      ensures AtMost(d'[x], d'[y])
    {
      if x != cur {
        assert AtMost(d[x], d[cur]);
      }
    }
  }

  /** A rank for every finalised vertex, counted by `clock`; others rank as `clock`. */
  ghost function Height(rank: map<int, nat>, clock: nat, v: int): nat {
    if v in rank then rank[v] else clock
  }

  /** Every parent is ranked strictly below its child: the parent links have no cycle. */
  ghost predicate Ranked(p: ParentMap, rank: map<int, nat>, clock: nat) {
    && (forall v :: v in rank ==> rank[v] < clock)
    && (forall v :: v in p && p[v].Some? ==>
          p[v].value in rank && rank[p[v].value] < Height(rank, clock, v))
  }

  /**
   * Ranking the current vertex (if it was not yet) before relaxing its
   * neighbours keeps every parent link pointing down the ranking, so the
   * parent links stay acyclic whatever state the run started from.
   */
  lemma RankStep(adj: Adjacency, d: map<int, Dist>, p: ParentMap, s: set<int>, rank: map<int, nat>, clock: nat,
                 cur: int, d': map<int, Dist>, p': ParentMap, rank': map<int, nat>, clock': nat)
    requires Ranked(p, rank, clock) && rank.Keys == s
    requires RelaxStep(adj, d, p, s, cur, d', p')
    requires (rank', clock') == if cur in rank then (rank, clock) else (rank[cur := clock], clock + 1)
    ensures Ranked(p', rank', clock') && rank'.Keys == s + {cur}
  {
    RelaxStepFacts(adj, d, p, s, cur, d', p');
  }

  /** A new vertex without a parent keeps the ranking. */
  lemma NewVertexRanked(p: ParentMap, rank: map<int, nat>, clock: nat, v: int)
    requires Ranked(p, rank, clock) && v !in rank
    ensures Ranked(p[v := None], rank, clock)
  {
  }

  /** `path` is the chain of parent links that ends at `b`, starting at a vertex with no parent. */
  ghost predicate IsChain(p: ParentMap, path: seq<int>, b: int) {
    && |path| > 0 && path[|path| - 1] == b
    && (forall i :: 0 <= i < |path| ==> path[i] in p)
    && p[path[0]] == None
    && (forall i :: 0 < i < |path| ==> p[path[i]] == Some(path[i - 1]))
  }

  /**
   * `camino` after a full run: following the parents back from a vertex at
   * finite distance reaches the source, along a walk whose cost is that
   * distance; from a vertex at infinite distance it stops at once.
   */
  lemma {:induction false} ChainIsShortestWalk(adj: Adjacency, d: map<int, Dist>, p: ParentMap, src: int, path: seq<int>, b: int)
    requires d.Keys == adj.Keys && p.Keys == adj.Keys && src in adj && d[src] == Fin(0)
    requires ParentsSound(adj, d, p, adj.Keys) && ReachedViaParents(d, p, src)
    requires IsChain(p, path, b)
    ensures d[b].Fin? ==> IsWalkFrom(adj, path, src, b) && Cost(adj, path) == d[b].n
    ensures d[b].Inf? ==> path == [b]
    decreases |path|
  {
    if |path| > 1 {
      var q := path[|path| - 2];
      var qs := path[..|path| - 1];
      assert p[b] == Some(q);
      assert IsChain(p, qs, q) by {
        forall i | 0 < i < |qs| ensures p[qs[i]] == Some(qs[i - 1]) {
          assert qs[i] == path[i] && qs[i - 1] == path[i - 1];
        }
      }
      ChainIsShortestWalk(adj, d, p, src, qs, q);
      assert IsWalk(adj, path) by {
        forall i | 0 < i < |path| ensures Hop(adj, path[i - 1], path[i]) {
          if i < |path| - 1 {
            assert Hop(adj, qs[i - 1], qs[i]);
          }
        }
      }
      assert path[..|path| - 1] == qs;
    }
  }

  /** Following parents from `v` ends at a vertex without a parent. */
  lemma {:induction false} ChainExists(p: ParentMap, rank: map<int, nat>, clock: nat, v: int)
    requires Ranked(p, rank, clock) && v in p && rank.Keys <= p.Keys
    ensures exists path :: IsChain(p, path, v)
    decreases Height(rank, clock, v)
  {
    if p[v].Some? {
      var q := p[v].value;
      ChainExists(p, rank, clock, q);
      var path :| IsChain(p, path, q);
      assert IsChain(p, path + [v], v) by {
        forall i | 0 < i < |path + [v]| ensures p[(path + [v])[i]] == Some((path + [v])[i - 1]) {
          if i < |path| {
            assert (path + [v])[i] == path[i] && (path + [v])[i - 1] == path[i - 1];
          }
        }
      }
    } else {
      assert IsChain(p, [v], v);
    }
  }

  /**
   * Optimality. After a full run from `src` with non-negative weights, a
   * vertex has a finite distance exactly when some walk reaches it from
   * `src`; that distance is the cost of some such walk, and no walk from
   * `src` costs less.
   */
  lemma ShortestDistance(adj: Adjacency, d: map<int, Dist>, p: ParentMap, src: int, rank: map<int, nat>, clock: nat, v: int)
    requires ShortestPathTree(adj, d, p, src) && Ranked(p, rank, clock) && rank.Keys <= adj.Keys && v in adj
    ensures d[v].Fin? <==> exists ps :: IsWalkFrom(adj, ps, src, v)
    ensures d[v].Fin? ==> exists ps :: IsWalkFrom(adj, ps, src, v) && Cost(adj, ps) == d[v].n
    ensures forall ps :: IsWalkFrom(adj, ps, src, v) ==> AtMost(d[v], Fin(Cost(adj, ps)))
  {
    forall ps | IsWalkFrom(adj, ps, src, v) ensures AtMost(d[v], Fin(Cost(adj, ps))) {
      WalkBound(adj, d, src, ps);
    }
    ChainExists(p, rank, clock, v);
    var path :| IsChain(p, path, v);
    ChainIsShortestWalk(adj, d, p, src, path, v);
  }
}
