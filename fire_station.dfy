/** The optimizer object: the graph it holds and the three operations that
    change or read that graph (loading a file, manual input, and the search
    for the best fire-station site). */
module FireStation {
  import opened Wrappers
  import opened WeightedGraph
  import opened ShortestPaths
  import opened GraphCenter
  import opened GraphLoader

  class FireStationOptimizer {
    const graph: Graph

    ghost predicate Valid()
      reads this, graph
    {
      graph.Valid()
    }

    /** `__init__`: starts with an empty graph. */
    constructor ()
      ensures Valid() && fresh(graph) && graph.Value() == EmptyGraph
    {
      graph := new Graph();
    }

    /** `load_graph_from_file`, on the file's lines split into tokens. The
        graph held before is kept and added to. */
    method LoadGraphFromFile(lines: seq<Line>, parseInt: IntParser, parseReal: RealParser) returns (ok: bool)
      requires Valid()
      modifies graph
      ensures Valid()
      ensures Outcome(graph.Value(), ok) == LoadSpec(old(graph.Value()), lines, parseInt, parseReal)
    {
      if |lines| == 0 {
        return false;
      }
      var count := ParseCount(lines[0], parseInt);
      if count.None? {
        return false;
      }
      var n := count.value;
      ok := ReadNodeLines(lines, n, parseReal);
      if ok {
        ok := ReadEdgeLines(lines, n + 1, parseReal);
      }
    }

    /** The node loop of `load_graph_from_file`: `for i in range(1, n + 1)`,
        reading line `i` when the file has one. */
    method ReadNodeLines(lines: seq<Line>, n: int, parseReal: RealParser) returns (ok: bool)
      requires Valid() && |lines| > 0
      modifies graph
      ensures Valid()
      ensures Outcome(graph.Value(), ok) == Replay(old(graph.Value()), NodeSection, NodeLines(lines, n), parseReal)
    {
      ghost var hi := NodeEnd(|lines|, n);
      var i := 1;
      while i < n + 1
        invariant 1 <= i && (i <= n + 1 || i == 1)
        invariant graph.Valid()
        invariant Replay(graph.Value(), NodeSection, lines[if i < hi then i else hi..hi], parseReal)
          == Replay(old(graph.Value()), NodeSection, NodeLines(lines, n), parseReal)
        decreases n + 1 - i
      {
        if i < |lines| {
          var parts := lines[i];
          assert lines[i..hi] == [parts] + lines[i + 1..hi];
          if |parts| >= 3 {
            var x, y := parseReal(parts[1]), parseReal(parts[2]);
            if x.None? || y.None? {
              return false;
            }
            graph.AddNode(parts[0]);
          }
        }
        i := i + 1;
      }
      assert lines[hi..hi] == [];
      ok := true;
    }

    /** The edge loop of `load_graph_from_file`: `for i in range(start,
        len(lines))`. */
    method ReadEdgeLines(lines: seq<Line>, start: int, parseReal: RealParser) returns (ok: bool)
      requires Valid()
      modifies graph
      ensures Valid()
      ensures Outcome(graph.Value(), ok) == EdgeRun(old(graph.Value()), lines, start, parseReal)
    {
      var i := start;
      while i < |lines|
        invariant graph.Valid()
        invariant EdgeRun(graph.Value(), lines, i, parseReal) == EdgeRun(old(graph.Value()), lines, start, parseReal)
        decreases |lines| - i
      {
        EdgeRunStep(graph.Value(), lines, i, parseReal);
        var line := Fetch(lines, i);
        if line.None? {
          return false;
        }
        var parts := line.value;
        if |parts| >= 3 {
          var weight := parseReal(parts[2]);
          if weight.None? {
            return false;
          }
          graph.AddEdge(parts[0], parts[1], weight.value);
        }
        i := i + 1;
      }
      ok := true;
    }

    /** `manual_input`, on the answers typed at the console, split into
        tokens. The graph is cleared first. */
    method ManualInput(answers: seq<Line>, parseInt: IntParser, parseReal: RealParser) returns (ok: bool)
      requires Valid()
      modifies graph
      ensures Valid()
      ensures Outcome(graph.Value(), ok) == ManualSpec(answers, parseInt, parseReal)
    {
      graph.Clear();
      if |answers| == 0 {
        return false;
      }
      var count := ParseCount(answers[0], parseInt);
      if count.None? {
        return false;
      }
      var n := count.value;
      var next := 1;
      ghost var afterNodes := ReplayCount(EmptyGraph, NodeSection, answers[1..], n, parseReal);
      var i := 0;
      while i < n
        invariant 0 <= i && (i <= n || i == 0)
        invariant next == 1 + i && next <= |answers|
        invariant graph.Valid()
        invariant ReplayCount(graph.Value(), NodeSection, answers[next..], n - i, parseReal) == afterNodes
        decreases n - i
      {
        ReplayCountStep(graph.Value(), NodeSection, answers[next..], n - i, parseReal);
        if next == |answers| {
          return false;
        }
        var parts := answers[next];
        assert answers[next..][1..] == answers[next + 1..];
        next := next + 1;
        if |parts| >= 3 {
          var x, y := parseReal(parts[1]), parseReal(parts[2]);
          if x.None? || y.None? {
            return false;
          }
          graph.AddNode(parts[0]);
        }
        i := i + 1;
      }
      if next == |answers| {
        return false;
      }
      var roads := ParseCount(answers[next], parseInt);
      if roads.None? {
        return false;
      }
      var m := roads.value;
      next := next + 1;
      ghost var result := ReplayCount(graph.Value(), EdgeSection, answers[next..], m, parseReal);
      assert result == ManualSpec(answers, parseInt, parseReal);
      i := 0;
      while i < m
        invariant 0 <= i && (i <= m || i == 0)
        invariant next <= |answers|
        invariant graph.Valid()
        invariant ReplayCount(graph.Value(), EdgeSection, answers[next..], m - i, parseReal) == result
        decreases m - i
      {
        ReplayCountStep(graph.Value(), EdgeSection, answers[next..], m - i, parseReal);
        if next == |answers| {
          return false;
        }
        var parts := answers[next];
        assert answers[next..][1..] == answers[next + 1..];
        next := next + 1;
        if |parts| >= 3 {
          var weight := parseReal(parts[2]);
          if weight.None? {
            return false;
          }
          graph.AddEdge(parts[0], parts[1], weight.value);
        }
        i := i + 1;
      }
      ok := true;
    }

    /** `find_optimal_location`: `None` on an empty graph; otherwise the
        optimal locations, the least eccentricity and the eccentricity of
        every node. */
    method FindOptimalLocation() returns (r: Option<CenterResult>)
      requires Valid() && NonNegativeWeights(graph.Value())
      ensures r.None? <==> graph.nodes == []
      ensures r.Some? ==> IsCenterResult(graph.Value(), r.value)
    {
      var g := graph.Value();
      if |g.nodes| == 0 {
        return None;
      }
      var eccentricities: map<Node, real> := map[];
      for i := 0 to |g.nodes|
        invariant eccentricities.Keys == set j | 0 <= j < i :: g.nodes[j]
        invariant forall v :: v in eccentricities ==> IsEccentricity(g, v, eccentricities[v])
      {
        var node := g.nodes[i];
        var eccentricity := NodeEccentricity(g, node);
        eccentricities := eccentricities[node := eccentricity];
      }
      assert eccentricities.Keys == set v | v in g.nodes;
      CenterOfTable(g, eccentricities);
      r := Some(CenterOf(g.nodes, eccentricities));
    }
  }

  /** The body of the loop of `find_optimal_location`: Dijkstra from `node`,
      then the largest distance. */
  method NodeEccentricity(g: GraphValue, node: Node) returns (eccentricity: real)
    requires WellFormed(g) && NonNegativeWeights(g) && node in g.adj
    ensures IsEccentricity(g, node, eccentricity)
  {
    var shortestPaths, order := Dijkstra(g, node);
    EccentricityOfDistances(g, node, shortestPaths, order);
    eccentricity := Eccentricity(shortestPaths, order);
  }
}
