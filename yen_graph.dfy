/** The hand-over from the composed networkx graph to the graph type of the
    YenKSP library: every node is copied, and every edge except those whose
    weight is the no-edge sentinel. */
module YenGraph {
  import opened Globals

  /** Nodes are named by their labels, as after `nx.relabel_nodes`. */
  type Label = string

  /** A weighted directed edge as `nx_digraph.edges(data=True)` lists it. */
  datatype Edge = Edge(from: Label, to: Label, weight: real)

  /** The networkx `DiGraph` as the conversion reads it: its node list and
      its edge list. */
  datatype NxDigraph = NxDigraph(nodes: seq<Label>, edges: seq<Edge>)
  {
    /** What a networkx `DiGraph` guarantees: at most one edge per ordered
        pair, and both ends of every edge are nodes. */
    predicate Valid()
    {
      (forall p, q | 0 <= p < q < |edges| :: (edges[p].from, edges[p].to) != (edges[q].from, edges[q].to)) &&
      (forall e | e in edges :: e.from in nodes && e.to in nodes)
    }
  }

  /** The YenKSP `DiGraph`, seen through the two calls the conversion makes:
      a set of nodes and one weight per ordered pair of nodes. */
  class YenDigraph {
    var nodes: set<Label>
    var weights: map<(Label, Label), real>

    /** `DiGraph()`: no nodes, no edges. */
    constructor ()
      ensures nodes == {} && weights == map[]
    {
      nodes := {};
      weights := map[];
    }

    /** `add_node(n)`: `n` becomes a node; adding it again changes nothing. */
    method AddNode(n: Label)
      modifies this
      ensures nodes == old(nodes) + {n}
      ensures weights == old(weights)
    {
      nodes := nodes + {n};
    }

    /** `add_edge(u, v, w)`: the pair (u, v) gets weight `w`, replacing any
        earlier weight of that pair. */
    method AddEdge(u: Label, v: Label, w: real)
      modifies this
      ensures weights == old(weights)[(u, v) := w]
      ensures nodes == old(nodes)
    {
      weights := weights[(u, v) := w];
    }
  }

  /** `convert_nx_digraph_into_yenksp_digraph`: the new graph has exactly the
      input's nodes, and it has edge (u, v) with weight w exactly when the
      input has that edge with that weight and w is not 999999. */
  method ConvertToYenDigraph(g: NxDigraph) returns (y: YenDigraph)
    requires g.Valid()
    ensures fresh(y)
    ensures y.nodes == set n | n in g.nodes
    ensures forall e | e in g.edges && e.weight != Infinite ::
              (e.from, e.to) in y.weights && y.weights[(e.from, e.to)] == e.weight
    ensures forall p | p in y.weights :: Edge(p.0, p.1, y.weights[p]) in g.edges && y.weights[p] != Infinite
    ensures forall p | p in y.weights :: p.0 in y.nodes && p.1 in y.nodes
  {
    y := new YenDigraph();
    var i := 0;
    while i < |g.nodes|
      invariant 0 <= i <= |g.nodes|
      invariant y.nodes == set n | n in g.nodes[..i]
      invariant y.weights == map[]
    {
      y.AddNode(g.nodes[i]);
      i := i + 1;
    }
    assert g.nodes[..i] == g.nodes;
    var k := 0;
    while k < |g.edges|
      invariant 0 <= k <= |g.edges|
      invariant y.nodes == set n | n in g.nodes
      invariant forall m | 0 <= m < k && g.edges[m].weight != Infinite ::
                  (g.edges[m].from, g.edges[m].to) in y.weights && y.weights[(g.edges[m].from, g.edges[m].to)] == g.edges[m].weight
      invariant forall p | p in y.weights :: Edge(p.0, p.1, y.weights[p]) in g.edges[..k] && y.weights[p] != Infinite
    {
      var e := g.edges[k];
      if e.weight != Infinite {
        y.AddEdge(e.from, e.to, e.weight);
      }
      k := k + 1;
    }
    assert g.edges[..k] == g.edges;
  }
}
