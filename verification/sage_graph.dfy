/** The part of a Sage `Graph` the generators and exporters use: the
    vertices `1..order` added up front, and a set of undirected edges kept
    as sorted pairs, so that adding an edge twice or in either direction
    has the same effect. */
module SageGraph {
  import opened Edges

  datatype Graph = Graph(order: nat, edges: set<Pair>)

  /** The number of cells of a honeycomb of `layer` rings around one centre
      cell, `1 + 3 * layer * (layer - 1)`: the vertex count of both the
      candidate graph and the ring-indexed grid. There is always at least
      the centre cell, whatever `layer` is. */
  function LayerCells(layer: int): (n: nat)
    ensures n >= 1
  {
    ConsecutiveProduct(layer);
    3 * layer * (layer - 1) + 1
  }

  lemma ConsecutiveProduct(x: int)
    ensures x * (x - 1) >= 0
  {
    if x >= 1 {
      assert x * (x - 1) >= 0 * (x - 1);
    } else {
      assert x * (x - 1) == (-x) * (1 - x);
    }
  }

  /** Every edge joins two distinct vertices of `1..order`, smaller first. */
  predicate Valid(g: Graph) {
    Simple(g.edges, 1, g.order + 1)
  }

  /** `G.add_edge(a, b)` between two existing, distinct vertices: the edge
      `{a, b}` is present afterwards, nothing else changes, and adding an
      edge already present leaves the graph as it was. */
  function AddEdge(g: Graph, a: int, b: int): (h: Graph)
    requires 1 <= a <= g.order && 1 <= b <= g.order && a != b
    ensures h.order == g.order
    ensures Valid(g) ==> Valid(h)
    ensures forall e :: e in h.edges <==> e in g.edges || e == Sorted(a, b)
    ensures Sorted(a, b) in g.edges ==> h == g
  {
    Graph(g.order, g.edges + {Sorted(a, b)})
  }

  /** `G.vertices()`: the vertices in ascending order. */
  function Vertices(g: Graph): (vs: seq<int>)
    ensures |vs| == g.order
    ensures forall k :: 0 <= k < |vs| ==> vs[k] == k + 1
  {
    seq(g.order, k requires 0 <= k < g.order => k + 1)
  }
}
