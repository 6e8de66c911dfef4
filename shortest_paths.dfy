/** Single-source shortest-path distances, the quantity the optimizer asks
    networkx for (`single_source_dijkstra_path_length`). The distance is
    specified abstractly over walks in the graph, and `Dijkstra` is proved to
    compute exactly it. */
module ShortestPaths {
  import opened WeightedGraph

  /** Every element of `p` is a node and consecutive elements are joined by a
      road (stated from the last road backwards, as `PathWeight` sums). */
  ghost predicate IsWalk(g: GraphValue, p: seq<Node>) {
    if |p| <= 1 then forall i :: 0 <= i < |p| ==> p[i] in g.adj
    else IsWalk(g, p[..|p| - 1]) && p[|p| - 2] in g.adj && p[|p| - 1] in g.adj && p[|p| - 1] in g.adj[p[|p| - 2]]
  }

  /** A walk from `s` to `t`; the one-element walk `[s]` joins a node to itself. */
  ghost predicate IsPath(g: GraphValue, p: seq<Node>, s: Node, t: Node) {
    IsWalk(g, p) && |p| > 0 && p[0] == s && p[|p| - 1] == t
  }

  /** The length of a walk: the sum of the weights of its roads. */
  ghost function PathWeight(g: GraphValue, p: seq<Node>): real
    requires IsWalk(g, p)
  {
    if |p| <= 1 then 0.0 else PathWeight(g, p[..|p| - 1]) + g.adj[p[|p| - 2]][p[|p| - 1]]
  }

  ghost predicate Reachable(g: GraphValue, s: Node, t: Node) {
    exists p :: IsPath(g, p, s, t)
  }

  /** No walk from `s` to `t` is shorter than `d`. */
  ghost predicate LowerBound(g: GraphValue, s: Node, t: Node, d: real) {
    forall p :: IsPath(g, p, s, t) ==> d <= PathWeight(g, p)
  }

  /** `d` is the shortest-path distance from `s` to `t`: some walk has length
      `d` and none is shorter. */
  ghost predicate IsShortestDistance(g: GraphValue, s: Node, t: Node, d: real) {
    && (exists p :: IsPath(g, p, s, t) && PathWeight(g, p) == d)
    && LowerBound(g, s, t, d)
  }

  lemma {:induction false} PathWeightNonNegative(g: GraphValue, p: seq<Node>)
    requires NonNegativeWeights(g) && IsWalk(g, p)
    ensures 0.0 <= PathWeight(g, p)
    decreases |p|
  {
    if |p| > 1 {
      PathWeightNonNegative(g, p[..|p| - 1]);
    }
  }

  /** The distance, when it exists, is unique. */
  lemma ShortestDistanceUnique(g: GraphValue, s: Node, t: Node, d1: real, d2: real)
    requires IsShortestDistance(g, s, t, d1) && IsShortestDistance(g, s, t, d2)
    ensures d1 == d2
  {
    var p1 :| IsPath(g, p1, s, t) && PathWeight(g, p1) == d1;
    var p2 :| IsPath(g, p2, s, t) && PathWeight(g, p2) == d2;
  }

  /** With non-negative weights every node is at distance 0 from itself. */
  lemma DistanceToSelf(g: GraphValue, s: Node)
    requires NonNegativeWeights(g) && s in g.adj
    ensures IsShortestDistance(g, s, s, 0.0)
  {
    assert IsPath(g, [s], s, s) && PathWeight(g, [s]) == 0.0;
    forall p | IsPath(g, p, s, s) ensures 0.0 <= PathWeight(g, p) {
      PathWeightNonNegative(g, p);
    }
  }

  // ---------------------------------------------------------------------
  // Symmetry: the graph is undirected, so distances are symmetric.

  function Reverse(p: seq<Node>): (r: seq<Node>)
    ensures |r| == |p|
  {
    if p == [] then [] else Reverse(p[1..]) + [p[0]]
  }

  /** A walk seen from its first road: the first road exists and the rest is a walk. */
  lemma {:induction false} WalkFront(g: GraphValue, p: seq<Node>)
    requires IsWalk(g, p) && |p| >= 2
    ensures p[0] in g.adj && p[1] in g.adj[p[0]] && IsWalk(g, p[1..])
    decreases |p|
  {
    if |p| > 2 {
      var q := p[..|p| - 1];
      WalkFront(g, q);
      assert q[1..] == p[1..][..|p| - 2];
    }
  }

  /** The length of a walk, taken from its first road onwards. */
  lemma {:induction false} PathWeightFront(g: GraphValue, p: seq<Node>)
    requires IsWalk(g, p) && |p| >= 2
    ensures p[0] in g.adj && p[1] in g.adj[p[0]] && IsWalk(g, p[1..])
    ensures PathWeight(g, p) == g.adj[p[0]][p[1]] + PathWeight(g, p[1..])
    decreases |p|
  {
    WalkFront(g, p);
    if |p| > 2 {
      var q := p[..|p| - 1];
      WalkFront(g, q);
      PathWeightFront(g, q);
      assert q[1..] == p[1..][..|p| - 2];
    }
  }

  /** A walk read backwards is a walk of the same length between the same
      ends, swapped. */
  lemma {:induction false} ReverseWalk(g: GraphValue, p: seq<Node>)
    requires WellFormed(g) && IsWalk(g, p) && |p| > 0
    ensures IsWalk(g, Reverse(p))
    ensures Reverse(p)[0] == p[|p| - 1] && Reverse(p)[|p| - 1] == p[0]
    ensures PathWeight(g, Reverse(p)) == PathWeight(g, p)
    decreases |p|
  {
    if |p| > 1 {
      var q := p[1..];
      WalkFront(g, p);
      ReverseWalk(g, q);
      var r := Reverse(p);
      assert r == Reverse(q) + [p[0]];
      assert r[..|r| - 1] == Reverse(q);
      assert p[0] in g.adj[p[1]];
      PathWeightFront(g, p);
    }
  }

  /** Shortest-path distance is symmetric: the distance from `a` to `b` is
      the distance from `b` to `a`. */
  lemma ShortestDistanceSymmetric(g: GraphValue, a: Node, b: Node, d: real)
    requires WellFormed(g)
    requires IsShortestDistance(g, a, b, d)
    ensures IsShortestDistance(g, b, a, d)
  {
    var p :| IsPath(g, p, a, b) && PathWeight(g, p) == d;
    ReverseWalk(g, p);
    assert IsPath(g, Reverse(p), b, a);
    forall q | IsPath(g, q, b, a) ensures d <= PathWeight(g, q) {
      ReverseWalk(g, q);
      assert IsPath(g, Reverse(q), a, b);
    }
  }

  // ---------------------------------------------------------------------
  // Dijkstra's algorithm.

  /** Every node settled so far had all its roads to unsettled nodes relaxed. */
  ghost predicate Relaxed(g: GraphValue, dist: map<Node, real>, done: set<Node>) {
    forall x, y :: x in done && x in dist && x in g.adj && y in g.adj[x] && y !in done ==>
      y in dist && dist[y] <= dist[x] + g.adj[x][y]
  }

  /** If a walk from the source ends outside the settled set, some tentative
      (unsettled) node is no farther than the walk is long. */
  lemma {:induction false} FrontierBelowWalk(g: GraphValue, s: Node, dist: map<Node, real>, done: set<Node>, p: seq<Node>, t: Node)
    returns (y: Node)
    requires NonNegativeWeights(g)
    requires s in dist && dist[s] == 0.0 && done <= dist.Keys
    requires forall x :: x in done ==> LowerBound(g, s, x, dist[x])
    requires Relaxed(g, dist, done)
    requires IsPath(g, p, s, t) && t !in done
    ensures y in dist && y !in done && dist[y] <= PathWeight(g, p)
    decreases |p|
  {
    if |p| == 1 {
      y := s;
    } else {
      var q := p[..|p| - 1];
      var z := q[|q| - 1];
      assert IsPath(g, q, s, z);
      assert t in g.adj[z];
      if z !in done {
        y := FrontierBelowWalk(g, s, dist, done, q, z);
      } else {
        y := t;
      }
    }
  }

  /** The node taken from the frontier with the least tentative distance has
      its final distance: no walk to it is shorter. */
  lemma SettledIsFinal(g: GraphValue, s: Node, dist: map<Node, real>, done: set<Node>, u: Node)
    requires NonNegativeWeights(g)
    requires s in dist && dist[s] == 0.0 && done <= dist.Keys
    requires forall x :: x in done ==> LowerBound(g, s, x, dist[x])
    requires Relaxed(g, dist, done)
    requires u in dist && u !in done
    requires forall v :: v in dist && v !in done ==> dist[u] <= dist[v]
    ensures LowerBound(g, s, u, dist[u])
  {
    forall p | IsPath(g, p, s, u) ensures dist[u] <= PathWeight(g, p) {
      var y := FrontierBelowWalk(g, s, dist, done, p, u);
    }
  }

  /** The tentative node of least distance (the top of Dijkstra's priority
      queue). */
  method ExtractMin(dist: map<Node, real>, frontier: set<Node>) returns (u: Node)
    requires frontier != {} && frontier <= dist.Keys
    ensures u in frontier
    ensures forall v :: v in frontier ==> dist[u] <= dist[v]
  {
    var rest := frontier;
    u :| u in rest;
    rest := rest - {u};
    while rest != {}
      invariant rest <= frontier && u in frontier
      invariant forall v :: v in frontier && v !in rest ==> dist[u] <= dist[v]
      decreases rest
    {
      var v :| v in rest;
      rest := rest - {v};
      if dist[v] < dist[u] {
        u := v;
      }
    }
  }

  /** The walk recorded for `v` runs from the source to `v` and is as long as
      the tentative distance of `v`. */
  ghost predicate WitnessAt(g: GraphValue, s: Node, dist: map<Node, real>, paths: map<Node, seq<Node>>, v: Node) {
    v in dist && v in paths && IsPath(g, paths[v], s, v) && PathWeight(g, paths[v]) == dist[v]
  }

  /** Each tentative distance is the length of the walk recorded for it. */
  ghost predicate Witnessed(g: GraphValue, s: Node, dist: map<Node, real>, paths: map<Node, seq<Node>>) {
    && paths.Keys == dist.Keys
    && (forall v {:trigger WitnessAt(g, s, dist, paths, v)} :: v in dist ==> WitnessAt(g, s, dist, paths, v))
  }

  /** Recording the walk through `u` for its neighbour `y` keeps every
      tentative distance witnessed. */
  lemma ExtendWitness(g: GraphValue, s: Node, dist: map<Node, real>, paths: map<Node, seq<Node>>, u: Node, y: Node)
    requires WellFormed(g)
    requires Witnessed(g, s, dist, paths) && u in dist && u in g.adj && y in g.adj[u]
    ensures Witnessed(g, s, dist[y := dist[u] + g.adj[u][y]], paths[y := paths[u] + [y]])
  {
    var p := paths[u];
    assert WitnessAt(g, s, dist, paths, u);
    assert (p + [y])[..|p|] == p;
    assert IsPath(g, p + [y], s, y);
    var dist', paths' := dist[y := dist[u] + g.adj[u][y]], paths[y := p + [y]];
    forall v | v in dist' ensures WitnessAt(g, s, dist', paths', v) {
      if v != y {
        assert WitnessAt(g, s, dist, paths, v);
      }
    }
  }

  /** `order` lists the settled nodes once each, by non-decreasing distance. */
  ghost predicate SettleOrder(order: seq<Node>, dist: map<Node, real>, done: set<Node>) {
    && (forall i :: 0 <= i < |order| ==> order[i] in done)
    && (forall x :: x in done ==> x in order)
    && Distinct(order)
    && done <= dist.Keys
    && (forall i, j :: 0 <= i < j < |order| ==> dist[order[i]] <= dist[order[j]])
  }

  /** The invariant of Dijkstra's main loop. `paths[v]` is a walk that
      witnesses the tentative distance of `v`. */
  ghost predicate DijkstraInv(g: GraphValue, s: Node, dist: map<Node, real>, done: set<Node>,
                              paths: map<Node, seq<Node>>, order: seq<Node>)
  {
    && s in dist && dist[s] == 0.0
    && done <= dist.Keys && dist.Keys <= g.adj.Keys
    && Witnessed(g, s, dist, paths)
    && (forall v :: v in dist ==> 0.0 <= dist[v])
    && (forall x :: x in done ==> LowerBound(g, s, x, dist[x]))
    && Relaxed(g, dist, done)
    && SettledFirst(dist, done)
    && SettleOrder(order, dist, done)
  }

  /** `single_source_dijkstra_path_length(graph, s)`: the distance to every
      node reachable from `s` and to no other node, with the nodes listed in
      the order Dijkstra's algorithm settles them (networkx returns its
      dictionary in that order). */
  method Dijkstra(g: GraphValue, s: Node) returns (dist: map<Node, real>, order: seq<Node>)
    requires WellFormed(g) && NonNegativeWeights(g) && s in g.adj
    ensures forall t :: t in dist <==> Reachable(g, s, t)
    ensures forall t :: t in dist ==> IsShortestDistance(g, s, t, dist[t])
    ensures SettleOrder(order, dist, dist.Keys)
  {
    dist := map[s := 0.0];
    order := [];
    var done: set<Node> := {};
    ghost var paths: map<Node, seq<Node>> := map[s := [s]];
    assert WitnessAt(g, s, dist, paths, s);
    while done != dist.Keys
      invariant DijkstraInv(g, s, dist, done, paths, order)
      decreases g.adj.Keys - done
    {
      var frontier := dist.Keys - done;
      assert exists v :: v in dist.Keys && v !in done;
      ghost var w :| w in dist.Keys && w !in done;
      assert w in frontier;
      var u := ExtractMin(dist, frontier);
      dist, paths := Settle(g, s, dist, done, paths, order, u);
      done := done + {u};
      order := order + [u];
    }
    DijkstraDone(g, s, dist, paths);
  }

  /** When nothing is left on the frontier, the settled distances are exactly
      the shortest-path distances of the reachable nodes. */
  lemma DijkstraDone(g: GraphValue, s: Node, dist: map<Node, real>, paths: map<Node, seq<Node>>)
    requires NonNegativeWeights(g)
    requires s in dist && dist[s] == 0.0 && Witnessed(g, s, dist, paths)
    requires forall x :: x in dist ==> LowerBound(g, s, x, dist[x])
    requires Relaxed(g, dist, dist.Keys)
    ensures forall t :: t in dist <==> Reachable(g, s, t)
    ensures forall t :: t in dist ==> IsShortestDistance(g, s, t, dist[t])
  {
    forall t | Reachable(g, s, t) ensures t in dist {
      var p :| IsPath(g, p, s, t);
      if t !in dist {
        var y := FrontierBelowWalk(g, s, dist, dist.Keys, p, t);
      }
    }
    forall t | t in dist ensures Reachable(g, s, t) && IsShortestDistance(g, s, t, dist[t]) {
      assert WitnessAt(g, s, dist, paths, t);
    }
  }

  /** Like `Relaxed`, except that the roads from `u` to the nodes still in
      `todo` may not have been relaxed yet. */
  ghost predicate RelaxedBut(g: GraphValue, dist: map<Node, real>, done: set<Node>, u: Node, todo: set<Node>) {
    forall x, y :: x in done && x in dist && x in g.adj && y in g.adj[x] && y !in done && (x == u ==> y !in todo) ==>
      y in dist && dist[y] <= dist[x] + g.adj[x][y]
  }

  /** The tentative distances after the road from `u` to `y` is relaxed:
      an unsettled `y` takes the distance through `u` when it had none or a
      longer one. */
  function Offer(g: GraphValue, dist: map<Node, real>, settled: set<Node>, u: Node, y: Node): map<Node, real>
    requires u in dist && u in g.adj && y in g.adj[u]
  {
    if y !in settled && (y !in dist || dist[u] + g.adj[u][y] < dist[y]) then dist[y := dist[u] + g.adj[u][y]] else dist
  }

  /** The recorded walks after the same relaxation. */
  ghost function OfferPaths(g: GraphValue, dist: map<Node, real>, paths: map<Node, seq<Node>>, settled: set<Node>, u: Node, y: Node): map<Node, seq<Node>>
    requires u in dist && u in paths && u in g.adj && y in g.adj[u]
  {
    if y !in settled && (y !in dist || dist[u] + g.adj[u][y] < dist[y]) then paths[y := paths[u] + [y]] else paths
  }

  /** No settled node is farther than a tentative one. */
  ghost predicate SettledFirst(dist: map<Node, real>, settled: set<Node>) {
    forall x, v :: x in settled && x in dist && v in dist && v !in settled ==> dist[x] <= dist[v]
  }

  /** The invariant of the relaxation loop, less the recorded walks. */
  ghost predicate RelaxDist(g: GraphValue, s: Node, dist0: map<Node, real>, dist: map<Node, real>,
                            settled: set<Node>, u: Node, todo: set<Node>)
  {
    && u in g.adj && todo <= g.adj[u].Keys
    && u in settled && settled <= dist.Keys && dist0.Keys <= dist.Keys && dist.Keys <= g.adj.Keys
    && s in dist && dist[s] == 0.0
    && (forall v :: v in dist ==> 0.0 <= dist[v])
    && (forall x :: x in settled ==> x in dist0 && dist[x] == dist0[x])
    && RelaxedBut(g, dist, settled, u, todo)
    && SettledFirst(dist, settled)
    && (forall x :: x in settled ==> dist[x] <= dist[u])
  }

  /** Relaxing one road keeps the distance part of the invariant. */
  lemma OfferDist(g: GraphValue, s: Node, dist0: map<Node, real>, dist: map<Node, real>,
                  settled: set<Node>, u: Node, todo: set<Node>, y: Node)
    requires WellFormed(g) && NonNegativeWeights(g)
    requires RelaxDist(g, s, dist0, dist, settled, u, todo) && y in todo
    ensures RelaxDist(g, s, dist0, Offer(g, dist, settled, u, y), settled, u, todo - {y})
  {
  }

  /** Relaxing one road keeps every tentative distance witnessed by a walk. */
  lemma OfferWitness(g: GraphValue, s: Node, dist: map<Node, real>, paths: map<Node, seq<Node>>,
                     settled: set<Node>, u: Node, y: Node)
    requires WellFormed(g)
    requires Witnessed(g, s, dist, paths) && u in dist && u in g.adj && y in g.adj[u]
    ensures u in paths
    ensures Witnessed(g, s, Offer(g, dist, settled, u, y), OfferPaths(g, dist, paths, settled, u, y))
  {
    assert WitnessAt(g, s, dist, paths, u);
    if y !in settled && (y !in dist || dist[u] + g.adj[u][y] < dist[y]) {
      ExtendWitness(g, s, dist, paths, u, y);
    }
  }

  /** One round of Dijkstra's main loop: settles `u`, the tentative node of
      least distance, and relaxes every road out of it. */
  method Settle(g: GraphValue, s: Node, dist0: map<Node, real>, done: set<Node>,
                ghost paths0: map<Node, seq<Node>>, order: seq<Node>, u: Node)
    returns (dist: map<Node, real>, ghost paths: map<Node, seq<Node>>)
    requires WellFormed(g) && NonNegativeWeights(g)
    requires DijkstraInv(g, s, dist0, done, paths0, order)
    requires u in dist0 && u !in done
    requires forall v :: v in dist0 && v !in done ==> dist0[u] <= dist0[v]
    ensures DijkstraInv(g, s, dist, done + {u}, paths, order + [u])
  {
    SettleStart(g, s, dist0, done, paths0, order, u);
    dist, paths := RelaxEdges(g, s, dist0, paths0, done + {u}, u);
    SettleEnd(g, s, dist0, dist, done, paths, order, u);
  }

  /** Settling `u` fixes its distance and sets up the relaxation loop. */
  lemma SettleStart(g: GraphValue, s: Node, dist0: map<Node, real>, done: set<Node>,
                    paths0: map<Node, seq<Node>>, order: seq<Node>, u: Node)
    requires WellFormed(g) && NonNegativeWeights(g)
    requires DijkstraInv(g, s, dist0, done, paths0, order)
    requires u in dist0 && u !in done
    requires forall v :: v in dist0 && v !in done ==> dist0[u] <= dist0[v]
    ensures LowerBound(g, s, u, dist0[u])
    ensures u in g.adj && RelaxDist(g, s, dist0, dist0, done + {u}, u, g.adj[u].Keys)
  {
    SettledIsFinal(g, s, dist0, done, u);
  }

  /** After the relaxation loop the main loop's invariant holds again, with
      `u` settled and appended to the settling order. */
  lemma SettleEnd(g: GraphValue, s: Node, dist0: map<Node, real>, dist: map<Node, real>, done: set<Node>,
                  paths: map<Node, seq<Node>>, order: seq<Node>, u: Node)
    requires u in dist0 && u !in done && done <= dist0.Keys
    requires forall x :: x in done ==> LowerBound(g, s, x, dist0[x])
    requires SettledFirst(dist0, done) && SettleOrder(order, dist0, done)
    requires LowerBound(g, s, u, dist0[u])
    requires RelaxDist(g, s, dist0, dist, done + {u}, u, {})
    requires Witnessed(g, s, dist, paths)
    ensures DijkstraInv(g, s, dist, done + {u}, paths, order + [u])
  {
    assert forall x :: x in done ==> dist0[x] <= dist0[u];
    assert Relaxed(g, dist, done + {u});
    SettledKeepBounds(g, s, dist0, dist, done, u);
    SettledKeepOrder(dist0, dist, done, order, u);
  }

  /** Relaxation leaves the settled distances, and so their lower bounds, alone. */
  lemma SettledKeepBounds(g: GraphValue, s: Node, dist0: map<Node, real>, dist: map<Node, real>, done: set<Node>, u: Node)
    requires u in dist0 && done <= dist0.Keys
    requires forall x :: x in done ==> LowerBound(g, s, x, dist0[x])
    requires LowerBound(g, s, u, dist0[u])
    requires forall x :: x in done + {u} ==> x in dist && dist[x] == dist0[x]
    ensures forall x :: x in done + {u} ==> LowerBound(g, s, x, dist[x])
  {
  }

  /** Appending `u` keeps the settling order sorted by distance. */
  lemma SettledKeepOrder(dist0: map<Node, real>, dist: map<Node, real>, done: set<Node>, order: seq<Node>, u: Node)
    requires SettleOrder(order, dist0, done)
    requires u in dist0 && u !in done
    requires forall x :: x in done ==> dist0[x] <= dist0[u]
    requires forall x :: x in done + {u} ==> x in dist && dist[x] == dist0[x]
    ensures SettleOrder(order + [u], dist, done + {u})
  {
  }

  /** The inner loop of a round: for every road `u`-`y` to an unsettled node,
      lowers the tentative distance of `y` when the road through `u` is
      shorter. */
  method RelaxEdges(g: GraphValue, s: Node, dist0: map<Node, real>, ghost paths0: map<Node, seq<Node>>,
                    settled: set<Node>, u: Node)
    returns (dist: map<Node, real>, ghost paths: map<Node, seq<Node>>)
    requires WellFormed(g) && NonNegativeWeights(g)
    requires u in g.adj && RelaxDist(g, s, dist0, dist0, settled, u, g.adj[u].Keys)
    requires Witnessed(g, s, dist0, paths0)
    ensures RelaxDist(g, s, dist0, dist, settled, u, {})
    ensures Witnessed(g, s, dist, paths)
  {
    dist, paths := dist0, paths0;
    var todo := g.adj[u].Keys;
    while todo != {}
      invariant RelaxDist(g, s, dist0, dist, settled, u, todo)
      invariant Witnessed(g, s, dist, paths)
      decreases todo
    {
      var y :| y in todo;
      OfferDist(g, s, dist0, dist, settled, u, todo, y);
      OfferWitness(g, s, dist, paths, settled, u, y);
      dist, paths := Offer(g, dist, settled, u, y), OfferPaths(g, dist, paths, settled, u, y);
      todo := todo - {y};
    }
  }
}
