/** The graph centre that `find_optimal_location` returns: every node's
    eccentricity (its largest shortest-path distance to a node it can reach),
    the least eccentricity, and the nodes within `1e-9` of it, listed in node
    order. */
module GraphCenter {
  import opened WeightedGraph
  import opened ShortestPaths

  /** Two eccentricities closer than `1e-9` count as equal. */
  const Tolerance: real := 0.000000001

  function Abs(x: real): real {
    if x < 0.0 then -x else x
  }

  /** `e` is the eccentricity of `v`: the distance from `v` to some node it
      reaches, and no node it reaches is farther. Nodes it cannot reach play
      no part. */
  ghost predicate IsEccentricity(g: GraphValue, v: Node, e: real) {
    && (exists t :: IsShortestDistance(g, v, t, e))
    && (forall t, d :: IsShortestDistance(g, v, t, d) ==> d <= e)
  }

  lemma EccentricityUnique(g: GraphValue, v: Node, e1: real, e2: real)
    requires IsEccentricity(g, v, e1) && IsEccentricity(g, v, e2)
    ensures e1 == e2
  {
    var t1 :| IsShortestDistance(g, v, t1, e1);
    var t2 :| IsShortestDistance(g, v, t2, e2);
  }

  /** `max` of a non-empty list: the running maximum is replaced only by a
      strictly larger element. */
  function Largest(xs: seq<real>): (m: real)
    requires |xs| > 0
    ensures exists i :: 0 <= i < |xs| && xs[i] == m
    ensures forall i :: 0 <= i < |xs| ==> xs[i] <= m
    decreases |xs|
  {
    if |xs| == 1 then xs[0]
    else
      var m0 := Largest(xs[..|xs| - 1]);
      if xs[|xs| - 1] > m0 then xs[|xs| - 1] else m0
  }

  /** `shortest_paths.values()`: the distances, in the order of the nodes. */
  function Values(dist: map<Node, real>, order: seq<Node>): (xs: seq<real>)
    requires forall i :: 0 <= i < |order| ==> order[i] in dist
    ensures |xs| == |order|
  {
    seq(|order|, i requires 0 <= i < |order| => dist[order[i]])
  }

  /** `max(shortest_paths.values())`. */
  function Eccentricity(dist: map<Node, real>, order: seq<Node>): real
    requires |order| > 0 && forall i :: 0 <= i < |order| ==> order[i] in dist
  {
    Largest(Values(dist, order))
  }

  /** The largest of the distances `Dijkstra` reports from `v` is the
      eccentricity of `v`; the list is never empty, as `v` reaches itself. */
  lemma EccentricityOfDistances(g: GraphValue, v: Node, dist: map<Node, real>, order: seq<Node>)
    requires NonNegativeWeights(g) && v in g.adj
    requires forall t :: t in dist <==> Reachable(g, v, t)
    requires forall t :: t in dist ==> IsShortestDistance(g, v, t, dist[t])
    requires SettleOrder(order, dist, dist.Keys)
    ensures |order| > 0 && forall i :: 0 <= i < |order| ==> order[i] in dist
    ensures IsEccentricity(g, v, Eccentricity(dist, order))
  {
    DistanceToSelf(g, v);
    assert Reachable(g, v, v);
    assert v in order;
    var xs := Values(dist, order);
    var m := Eccentricity(dist, order);
    var i :| 0 <= i < |xs| && xs[i] == m;
    assert IsShortestDistance(g, v, order[i], m);
    forall t, d | IsShortestDistance(g, v, t, d) ensures d <= m {
      assert Reachable(g, v, t);
      ShortestDistanceUnique(g, v, t, d, dist[t]);
      var j :| 0 <= j < |order| && order[j] == t;
      assert xs[j] == d;
    }
  }

  /** With non-negative weights no eccentricity is negative: a node is at
      distance 0 from itself. */
  lemma EccentricityNonNegative(g: GraphValue, v: Node, e: real)
    requires NonNegativeWeights(g) && v in g.adj && IsEccentricity(g, v, e)
    ensures 0.0 <= e
  {
    DistanceToSelf(g, v);
  }

  /** The last node of a walk is a node of the graph. */
  lemma WalkEndsInGraph(g: GraphValue, p: seq<Node>)
    requires IsWalk(g, p) && |p| > 0
    ensures p[|p| - 1] in g.adj
  {
  }

  /** A node without roads reaches only itself, so its eccentricity is 0
      whatever the rest of the graph holds: in a disconnected graph the
      other components do not count. */
  lemma IsolatedNode(g: GraphValue, v: Node)
    requires NonNegativeWeights(g) && v in g.adj && g.adj[v] == map[]
    ensures IsEccentricity(g, v, 0.0)
  {
    DistanceToSelf(g, v);
    forall t, d | IsShortestDistance(g, v, t, d) ensures d <= 0.0 {
      var p :| IsPath(g, p, v, t) && PathWeight(g, p) == d;
      if |p| >= 2 {
        WalkFront(g, p);
        assert false;
      }
      ShortestDistanceUnique(g, v, v, d, 0.0);
    }
  }

  /** A graph of one node has eccentricity 0 at that node. */
  lemma SingleNode(g: GraphValue, v: Node)
    requires WellFormed(g) && NonNegativeWeights(g) && g.nodes == [v]
    ensures IsEccentricity(g, v, 0.0)
  {
    DistanceToSelf(g, v);
    forall t, d | IsShortestDistance(g, v, t, d) ensures d <= 0.0 {
      var p :| IsPath(g, p, v, t) && PathWeight(g, p) == d;
      WalkEndsInGraph(g, p);
      assert t == v;
      ShortestDistanceUnique(g, v, v, d, 0.0);
    }
  }

  /** `min(eccentricities, key=eccentricities.get)`, as a position in the
      node order: the first node of least eccentricity (a later node replaces
      the best so far only when strictly smaller). */
  function ArgMin(nodes: seq<Node>, ecc: map<Node, real>): (k: nat)
    requires |nodes| > 0 && forall v :: v in nodes ==> v in ecc
    ensures k < |nodes|
    ensures forall j :: 0 <= j < |nodes| ==> ecc[nodes[k]] <= ecc[nodes[j]]
    ensures forall j :: 0 <= j < k ==> ecc[nodes[k]] < ecc[nodes[j]]
    decreases |nodes|
  {
    if |nodes| == 1 then 0
    else
      var k0 := ArgMin(nodes[..|nodes| - 1], ecc);
      if ecc[nodes[|nodes| - 1]] < ecc[nodes[k0]] then |nodes| - 1 else k0
  }

  /** `r` lists some of the elements of `s`, in the order of `s`. */
  ghost predicate IsSubsequence(r: seq<Node>, s: seq<Node>)
    decreases |s|
  {
    if |r| == 0 then true
    else if |s| == 0 then false
    else if r[|r| - 1] == s[|s| - 1] then IsSubsequence(r[..|r| - 1], s[..|s| - 1])
    else IsSubsequence(r, s[..|s| - 1])
  }

  /** The tie filter `[node for node, ecc in eccentricities.items() if
      abs(ecc - min_eccentricity) < 1e-9]`. */
  function NearMinimum(nodes: seq<Node>, ecc: map<Node, real>, m: real): (r: seq<Node>)
    requires forall v :: v in nodes ==> v in ecc
    ensures forall v :: v in r <==> v in nodes && Abs(ecc[v] - m) < Tolerance
    ensures IsSubsequence(r, nodes)
    decreases |nodes|
  {
    if |nodes| == 0 then []
    else
      var r0 := NearMinimum(nodes[..|nodes| - 1], ecc, m);
      var last := nodes[|nodes| - 1];
      assert forall v :: v in nodes <==> v in nodes[..|nodes| - 1] || v == last;
      if Abs(ecc[last] - m) < Tolerance then
        assert (r0 + [last])[..|r0|] == r0;
        r0 + [last]
      else r0
  }

  lemma {:induction false} SubsequenceMembers(r: seq<Node>, s: seq<Node>)
    requires IsSubsequence(r, s)
    ensures forall v :: v in r ==> v in s
    decreases |s|
  {
    if |r| > 0 {
      var s' := s[..|s| - 1];
      if r[|r| - 1] == s[|s| - 1] {
        SubsequenceMembers(r[..|r| - 1], s');
        assert forall v :: v in r ==> v in r[..|r| - 1] || v == r[|r| - 1];
      } else {
        SubsequenceMembers(r, s');
      }
    }
  }

  lemma {:induction false} SubsequenceOfSelf(s: seq<Node>)
    ensures IsSubsequence(s, s)
    decreases |s|
  {
    if |s| > 0 {
      SubsequenceOfSelf(s[..|s| - 1]);
    }
  }

  /** Over a list without repeats, a subsequence is determined by its
      elements: the filter has only one possible result. */
  lemma {:induction false} SubsequenceUnique(r1: seq<Node>, r2: seq<Node>, s: seq<Node>)
    requires Distinct(s) && IsSubsequence(r1, s) && IsSubsequence(r2, s)
    requires forall v :: v in r1 <==> v in r2
    ensures r1 == r2
    decreases |s|
  {
    if |s| == 0 {
      assert |r1| == 0 && |r2| == 0;
    } else {
      var x, s' := s[|s| - 1], s[..|s| - 1];
      assert Distinct(s');
      assert x !in s';
      if x in r1 {
        var r1' := Peel(r1, s);
        var r2' := Peel(r2, s);
        forall v ensures v in r1' <==> v in r2' {
          if v in r1' {
            SubsequenceMembers(r1', s');
            assert v in r2' by { assert v in r2 && v != x; }
          }
          if v in r2' {
            SubsequenceMembers(r2', s');
            assert v in r1' by { assert v in r1 && v != x; }
          }
        }
        SubsequenceUnique(r1', r2', s');
      } else {
        StepBack(r1, s);
        StepBack(r2, s);
        SubsequenceUnique(r1, r2, s');
      }
    }
  }

  /** A subsequence of a list without repeats that holds the list's last
      element ends with it; dropping both leaves a subsequence. */
  lemma Peel(r: seq<Node>, s: seq<Node>) returns (r': seq<Node>)
    requires Distinct(s) && |s| > 0 && IsSubsequence(r, s) && s[|s| - 1] in r
    ensures |r| > 0 && r == r' + [s[|s| - 1]]
    ensures IsSubsequence(r', s[..|s| - 1])
    ensures forall v :: v in r <==> v in r' || v == s[|s| - 1]
  {
    var s' := s[..|s| - 1];
    if r[|r| - 1] != s[|s| - 1] {
      SubsequenceMembers(r, s');
      assert false;
    }
    r' := r[..|r| - 1];
    assert r == r' + [s[|s| - 1]];
  }

  /** A subsequence that misses the last element of the list is a
      subsequence of the rest. */
  lemma StepBack(r: seq<Node>, s: seq<Node>)
    requires |s| > 0 && IsSubsequence(r, s) && s[|s| - 1] !in r
    ensures IsSubsequence(r, s[..|s| - 1])
  {
  }

  /** The triple `find_optimal_location` returns on a non-empty graph. */
  datatype CenterResult = CenterResult(locations: seq<Node>, minEccentricity: real, eccentricities: map<Node, real>)

  /** One eccentricity per node of the graph, and no other key. */
  ghost predicate IsEccentricityTable(g: GraphValue, ecc: map<Node, real>) {
    && ecc.Keys == (set v | v in g.nodes)
    && (forall v :: v in g.nodes ==> IsEccentricity(g, v, ecc[v]))
  }

  /** `m` is the least entry of the table, attained at some node. */
  ghost predicate IsMinimum(nodes: seq<Node>, ecc: map<Node, real>, m: real) {
    && (forall v :: v in nodes ==> v in ecc)
    && (exists v :: v in nodes && ecc[v] == m)
    && (forall v :: v in nodes ==> m <= ecc[v])
  }

  /** `locations` holds exactly the nodes within the tolerance of `m`, in
      node order. */
  ghost predicate IsTieList(nodes: seq<Node>, ecc: map<Node, real>, m: real, locations: seq<Node>) {
    && (forall v :: v in nodes ==> v in ecc)
    && (forall v :: v in locations <==> v in nodes && Abs(ecc[v] - m) < Tolerance)
    && IsSubsequence(locations, nodes)
  }

  /** What the returned triple means: the eccentricity table, its least
      entry, and the nodes that tie with it. */
  ghost predicate IsCenterResult(g: GraphValue, res: CenterResult) {
    && IsEccentricityTable(g, res.eccentricities)
    && IsMinimum(g.nodes, res.eccentricities, res.minEccentricity)
    && IsTieList(g.nodes, res.eccentricities, res.minEccentricity, res.locations)
  }

  /** Lines 148-154 of `find_optimal_location` on a finished table: the
      first node of least eccentricity gives the minimum, and the tie filter
      the locations. */
  function CenterOf(nodes: seq<Node>, ecc: map<Node, real>): CenterResult
    requires |nodes| > 0 && forall v :: v in nodes ==> v in ecc
  {
    var m := ecc[nodes[ArgMin(nodes, ecc)]];
    CenterResult(NearMinimum(nodes, ecc, m), m, ecc)
  }

  /** On a correct eccentricity table of a non-empty graph, `CenterOf`
      returns the centre. */
  lemma CenterOfTable(g: GraphValue, ecc: map<Node, real>)
    requires IsEccentricityTable(g, ecc) && |g.nodes| > 0
    ensures forall v :: v in g.nodes ==> v in ecc
    ensures IsCenterResult(g, CenterOf(g.nodes, ecc))
  {
    var k := ArgMin(g.nodes, ecc);
    forall v | v in g.nodes ensures ecc[g.nodes[k]] <= ecc[v] {
      var j :| 0 <= j < |g.nodes| && g.nodes[j] == v;
    }
  }

  /** The answer is determined by the graph alone. */
  lemma CenterResultUnique(g: GraphValue, a: CenterResult, b: CenterResult)
    requires WellFormed(g) && IsCenterResult(g, a) && IsCenterResult(g, b)
    ensures a == b
  {
    SameEccentricities(g, a.eccentricities, b.eccentricities);
    SameMinimum(g.nodes, a.eccentricities, a.minEccentricity, b.minEccentricity);
    SubsequenceUnique(a.locations, b.locations, g.nodes);
  }

  /** Two eccentricity tables of the same graph agree. */
  lemma SameEccentricities(g: GraphValue, a: map<Node, real>, b: map<Node, real>)
    requires IsEccentricityTable(g, a) && IsEccentricityTable(g, b)
    ensures a == b
  {
    forall v | v in a.Keys ensures a[v] == b[v] {
      EccentricityUnique(g, v, a[v], b[v]);
    }
  }

  /** Two attained lower bounds of the same table are equal. */
  lemma SameMinimum(nodes: seq<Node>, ecc: map<Node, real>, m1: real, m2: real)
    requires IsMinimum(nodes, ecc, m1) && IsMinimum(nodes, ecc, m2)
    ensures m1 == m2
  {
    var v1 :| v1 in nodes && ecc[v1] == m1;
    var v2 :| v2 in nodes && ecc[v2] == m2;
  }

  /** A non-empty graph has at least one optimal location: a node of least
      eccentricity. */
  lemma LocationsNonEmpty(g: GraphValue, res: CenterResult)
    requires IsCenterResult(g, res) && |g.nodes| > 0
    ensures |res.locations| > 0
  {
    var v :| v in g.nodes && res.eccentricities[v] == res.minEccentricity;
    assert v in res.locations;
  }

  /** In a graph without roads every node is isolated: all eccentricities
      are 0 and every node is an optimal location, in node order. */
  lemma NoRoads(g: GraphValue, res: CenterResult)
    requires WellFormed(g) && NonNegativeWeights(g) && |g.nodes| > 0
    requires forall v :: v in g.adj ==> g.adj[v] == map[]
    requires IsCenterResult(g, res)
    ensures res.minEccentricity == 0.0 && res.locations == g.nodes
  {
    forall v | v in g.nodes ensures res.eccentricities[v] == 0.0 {
      IsolatedNode(g, v);
      EccentricityUnique(g, v, res.eccentricities[v], 0.0);
    }
    var v :| v in g.nodes && res.eccentricities[v] == res.minEccentricity;
    SubsequenceOfSelf(g.nodes);
    SubsequenceUnique(res.locations, g.nodes, g.nodes);
  }
}
