/** `hex_grid_to_gfu`: the cube-coordinate grid written as GFU text, with
    every lattice edge once as a sorted pair of list indices. */
module HexGfu {
  import opened Collections
  import opened Edges
  import opened HexCube
  import opened Text
  import opened Results
  import opened Lad
  import opened HexLad
  import opened Gfu

  /** The `edges` set of `hex_grid_to_gfu`: for every cell and every grid
      neighbour of it, the sorted pair of their indices in `order`. */
  function HexGfuEdges(grid: set<Cube>, order: seq<Cube>): set<Pair>
    requires Enumerates(order, grid)
  {
    set c, nb | c in grid && nb in NeighborsIn(c, grid) :: Sorted(IndexOf(order, c), IndexOf(order, nb))
  }

  /** The graph name `hex_grid_to_gfu` writes after the `#`. */
  const HexGridName := "hexagon_grid"

  /** `hex_grid_to_gfu(grid)`, with `order` the order of `list(grid)` and
      `edgeOrder` the order in which the edge set is iterated. */
  function HexGridToGfu(grid: set<Cube>, order: seq<Cube>, edgeOrder: seq<Pair>): (lines: seq<string>)
    requires Enumerates(order, grid)
    requires Enumerates(edgeOrder, HexGfuEdges(grid, order))
    ensures |lines| == 3 + |order| + |edgeOrder|
  {
    GfuText(HexGridName, |order|, edgeOrder)
  }

  /** `(a, b)` is a GFU edge exactly when `a < b` index two adjacent
      cells. */
  lemma HexGfuEdgesIff(grid: set<Cube>, order: seq<Cube>, a: int, b: int)
    requires Enumerates(order, grid)
    ensures (a, b) in HexGfuEdges(grid, order) <==> 0 <= a < b < |order| && Adjacent(order[a], order[b])
  {
    if (a, b) in HexGfuEdges(grid, order) {
      var c, nb :| c in grid && nb in NeighborsIn(c, grid) && (a, b) == Sorted(IndexOf(order, c), IndexOf(order, nb));
      AdjacentSymmetric(c, nb);
    }
    if 0 <= a < b < |order| && Adjacent(order[a], order[b]) {
      var c, nb := order[a], order[b];
      IndexOfAt(order, a);
      IndexOfAt(order, b);
      assert nb in NeighborsIn(c, grid);
      assert (a, b) == Sorted(IndexOf(order, c), IndexOf(order, nb));
    }
  }

  /** For the same list order, the GFU edge set is the set of sorted pairs
      of `hex_grid_to_lad`'s neighbour lists. */
  lemma HexGfuMatchesLad(grid: set<Cube>, order: seq<Cube>)
    requires Enumerates(order, grid)
    ensures Complete(HexGridToLad(grid, order))
    ensures HexGfuEdges(grid, order) == ListEdges(Lists(HexGridToLad(grid, order)))
  {
    var lists := Lists(HexGridToLad(grid, order));
    HexLadUndirected(grid, order);
    forall e | e in HexGfuEdges(grid, order)
      ensures e in ListEdges(lists)
    {
      HexGfuEdgesIff(grid, order, e.0, e.1);
      HexLadAdjacency(grid, order, e.0, e.1);
      ListEdgesMember(lists, e.0, e.1);
    }
    forall e | e in ListEdges(lists)
      ensures e in HexGfuEdges(grid, order)
    {
      ListEdgesMember(lists, e.0, e.1);
      HexLadAdjacency(grid, order, e.0, e.1);
      HexGfuEdgesIff(grid, order, e.0, e.1);
    }
  }

  /** Every GFU edge joins two distinct cells of `0..n-1`, smaller first. */
  lemma HexGfuSimple(grid: set<Cube>, order: seq<Cube>)
    requires Enumerates(order, grid)
    ensures Simple(HexGfuEdges(grid, order), 0, |order|)
  {
    forall e | e in HexGfuEdges(grid, order)
      ensures 0 <= e.0 < e.1 < |order|
    {
      HexGfuEdgesIff(grid, order, e.0, e.1);
    }
  }

  /** The text: `#hexagon_grid`, the cell count, the edge count equal to
      the number of edges, then every edge once; `3 + n + |edges|` lines in
      all. */
  lemma HexGfuText(grid: set<Cube>, order: seq<Cube>, edgeOrder: seq<Pair>)
    requires Enumerates(order, grid)
    requires Enumerates(edgeOrder, HexGfuEdges(grid, order))
    ensures |HexGridToGfu(grid, order, edgeOrder)| == 3 + |order| + |HexGfuEdges(grid, order)|
    ensures HexGridToGfu(grid, order, edgeOrder)[0] == "#" + HexGridName
    ensures ParseInt(HexGridToGfu(grid, order, edgeOrder)[1]) == Some(|order|)
    ensures ParseInt(HexGridToGfu(grid, order, edgeOrder)[2 + |order|]) == Some(|HexGfuEdges(grid, order)|)
    ensures NoDup(HexGridToGfu(grid, order, edgeOrder)[3 + |order|..])
  {
    var es := HexGfuEdges(grid, order);
    var lines := HexGridToGfu(grid, order, edgeOrder);
    assert lines == GfuText(HexGridName, |order|, edgeOrder);
    GfuHeader(HexGridName, |order|, edgeOrder);
    GfuEdgesOnce(HexGridName, |order|, edgeOrder, es);
    EnumerationSize(edgeOrder, es);
  }
}
