/** The undirected, weighted graph store that the optimizer mutates: the part
    of a networkx `Graph` the program relies on (nodes in insertion order, an
    adjacency dictionary with one weight per unordered pair, `add_node`,
    `add_edge` and `clear`). */
module WeightedGraph {

  /** Node names are the tokens read from the file or the keyboard. */
  type Node = string

  /** A snapshot of the store: `nodes` is the node iteration order, `adj[u][v]`
      the weight of the road between `u` and `v`. */
  datatype GraphValue = GraphValue(nodes: seq<Node>, adj: map<Node, map<Node, real>>)

  const EmptyGraph := GraphValue([], map[])

  /** No node name occurs twice in the iteration order. */
  ghost predicate Distinct(s: seq<Node>) {
    forall i, j :: 0 <= i < j < |s| ==> s[i] != s[j]
  }

  /** The store's invariant: the iteration order lists exactly the keys of the
      adjacency dictionary, once each, every neighbour is a node, and every
      road is stored in both directions with the same weight. */
  ghost predicate WellFormed(g: GraphValue) {
    && Distinct(g.nodes)
    && (forall v :: v in g.adj <==> v in g.nodes)
    && (forall u, v :: u in g.adj && v in g.adj[u] ==> v in g.adj && u in g.adj[v] && g.adj[v][u] == g.adj[u][v])
  }

  /** Every road has a length of at least zero (what Dijkstra's algorithm needs). */
  ghost predicate NonNegativeWeights(g: GraphValue) {
    forall u, v :: u in g.adj && v in g.adj[u] ==> 0.0 <= g.adj[u][v]
  }

  /** `add_node`: a new name goes to the end of the iteration order with no
      roads; a name already present leaves the graph as it is. */
  function InsertNode(g: GraphValue, v: Node): GraphValue {
    if v in g.adj then g else GraphValue(g.nodes + [v], g.adj[v := map[]])
  }

  /** Sets the weight of the road from `u` to `v` in one direction. */
  function Link(adj: map<Node, map<Node, real>>, u: Node, v: Node, w: real): (r: map<Node, map<Node, real>>)
    requires u in adj
    ensures r.Keys == adj.Keys
  {
    adj[u := adj[u][v := w]]
  }

  /** `add_edge`: both endpoints are created if missing (first `u`, then `v`),
      and the weight of the pair is set in both directions, overwriting an
      earlier one. */
  function InsertEdge(g: GraphValue, u: Node, v: Node, w: real): GraphValue {
    var g1 := InsertNode(InsertNode(g, u), v);
    GraphValue(g1.nodes, Link(Link(g1.adj, u, v, w), v, u, w))
  }

  /** `add_node` keeps the invariant, makes `v` a node, appends it to the
      iteration order only when it is new, and changes no road. */
  lemma InsertNodeSpec(g: GraphValue, v: Node)
    requires WellFormed(g)
    ensures WellFormed(InsertNode(g, v))
    ensures v in InsertNode(g, v).adj
    ensures InsertNode(g, v).nodes == if v in g.nodes then g.nodes else g.nodes + [v]
    ensures forall x, y :: x in g.adj && y in g.adj[x] ==> y in InsertNode(g, v).adj[x] && InsertNode(g, v).adj[x][y] == g.adj[x][y]
    ensures forall x, y :: x in InsertNode(g, v).adj && y in InsertNode(g, v).adj[x] ==> x in g.adj && y in g.adj[x]
  {
  }

  /** Adding a node twice is the same as adding it once (the upsert of `add_node`). */
  lemma InsertNodeIdempotent(g: GraphValue, v: Node)
    ensures InsertNode(InsertNode(g, v), v) == InsertNode(g, v)
  {
  }

  lemma LinkSpec(adj: map<Node, map<Node, real>>, u: Node, v: Node, w: real)
    requires u in adj
    ensures forall x, y :: x in adj && y in Link(adj, u, v, w)[x] <==> x in adj && ((x == u && y == v) || y in adj[x])
    ensures forall x, y :: x in adj && y in Link(adj, u, v, w)[x] ==> Link(adj, u, v, w)[x][y] == if x == u && y == v then w else adj[x][y]
  {
  }

  /** The pair that `add_edge(u, v, w)` sets, in either direction. */
  ghost predicate SamePair(x: Node, y: Node, u: Node, v: Node) {
    (x == u && y == v) || (x == v && y == u)
  }

  /** After `add_edge(u, v, w)` the road is there in both directions with
      weight `w`, every other road keeps its weight, and no road appears from
      nowhere. */
  lemma InsertEdgeWeights(g: GraphValue, u: Node, v: Node, w: real)
    requires WellFormed(g)
    ensures var h := InsertEdge(g, u, v, w);
      && (forall x, y :: x in h.adj && y in h.adj[x] <==> SamePair(x, y, u, v) || (x in g.adj && y in g.adj[x]))
      && (forall x, y :: x in h.adj && y in h.adj[x] ==> h.adj[x][y] == if SamePair(x, y, u, v) then w else g.adj[x][y])
  {
    var g1 := InsertNode(InsertNode(g, u), v);
    InsertNodeSpec(g, u);
    InsertNodeSpec(InsertNode(g, u), v);
    LinkSpec(g1.adj, u, v, w);
    LinkSpec(Link(g1.adj, u, v, w), v, u, w);
  }

  /** Every road `add_edge` leaves behind is stored in both directions with one weight. */
  lemma InsertEdgeSymmetric(g: GraphValue, u: Node, v: Node, w: real)
    requires WellFormed(g)
    ensures var h := InsertEdge(g, u, v, w);
      forall x, y :: x in h.adj && y in h.adj[x] ==> y in h.adj && x in h.adj[y] && h.adj[y][x] == h.adj[x][y]
  {
    var h := InsertEdge(g, u, v, w);
    InsertEdgeWeights(g, u, v, w);
    forall x, y | x in h.adj && y in h.adj[x]
      ensures y in h.adj && x in h.adj[y] && h.adj[y][x] == h.adj[x][y]
    {
      if !SamePair(x, y, u, v) {
        assert x in g.adj && y in g.adj[x];
      }
    }
  }

  /** `add_edge(u, v, w)` keeps the invariant, both endpoints are nodes
      afterwards, no other node appears, and the old iteration order is a
      prefix of the new one. */
  lemma InsertEdgeNodes(g: GraphValue, u: Node, v: Node, w: real)
    requires WellFormed(g)
    ensures WellFormed(InsertEdge(g, u, v, w))
    ensures InsertEdge(g, u, v, w).nodes[..|g.nodes|] == g.nodes
    ensures forall x :: x in InsertEdge(g, u, v, w).nodes <==> x in g.nodes || x == u || x == v
  {
    var g1 := InsertNode(InsertNode(g, u), v);
    InsertNodeSpec(g, u);
    InsertNodeSpec(InsertNode(g, u), v);
    assert WellFormed(g1);
    InsertEdgeSymmetric(g, u, v, w);
  }

  /** The mutable store: the fields of the networkx graph object that the
      optimizer updates in place. */
  class Graph {
    var nodes: seq<Node>
    var adj: map<Node, map<Node, real>>

    function Value(): GraphValue
      reads this
    {
      GraphValue(nodes, adj)
    }

    ghost predicate Valid()
      reads this
    {
      WellFormed(Value())
    }

    constructor ()
      ensures Valid() && Value() == EmptyGraph
    {
      nodes := [];
      adj := map[];
    }

    method AddNode(v: Node)
      requires Valid()
      modifies this
      ensures Valid()
      ensures Value() == InsertNode(old(Value()), v)
    {
      if v !in adj {
        nodes := nodes + [v];
        adj := adj[v := map[]];
      }
      InsertNodeSpec(old(Value()), v);
    }

    method AddEdge(u: Node, v: Node, w: real)
      requires Valid()
      modifies this
      ensures Valid()
      ensures Value() == InsertEdge(old(Value()), u, v, w)
    {
      InsertEdgeNodes(Value(), u, v, w);
      AddNode(u);
      AddNode(v);
      adj := adj[u := adj[u][v := w]];
      adj := adj[v := adj[v][u := w]];
    }

    method Clear()
      modifies this
      ensures Valid()
      ensures Value() == EmptyGraph
    {
      nodes := [];
      adj := map[];
    }
  }
}
