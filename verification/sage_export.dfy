/** The three exporters of a Sage graph with vertices `1..n`:
    `export_graph_to_lad`, `export_graph_to_gfu` and `export_graph_to_vf`.
    Every id they write is a vertex lowered by one, so the files number the
    vertices `0..n-1`. The order in which Sage reports neighbours, incident
    edges and edges is not specified; it is a parameter here. */
module SageExport {
  import opened Collections
  import opened Edges
  import opened Text
  import opened Results
  import opened Lad
  import opened Gfu
  import opened SageGraph
  import opened LadConverter

  /** The neighbour orders Sage reports: `adj[v - 1]` lists each neighbour
      of vertex `v` once, in the order `G.neighbors(v)` yields them (or the
      far ends of `G.edges_incident(v)`, in their order). */
  predicate Adjacency(g: Graph, adj: seq<seq<int>>) {
    && |adj| == g.order
    && forall k :: 0 <= k < |adj| ==> Enumerates(adj[k], Neighbors(g.edges, k + 1))
  }

  /** `[w - 1 for w in ws]`. */
  function Shift(ws: seq<int>): (r: seq<int>)
    ensures |r| == |ws|
  {
    seq(|ws|, j requires 0 <= j < |ws| => ws[j] - 1)
  }

  /** The neighbour lists in vertex order, every id lowered by one. */
  function ShiftLists(adj: seq<seq<int>>): (lists: seq<seq<int>>)
    ensures |lists| == |adj|
  {
    seq(|adj|, k requires 0 <= k < |adj| => Shift(adj[k]))
  }

  /** The edge set with both ends lowered by one. */
  function ShiftEdges(edges: set<Pair>): set<Pair> {
    set e | e in edges :: (e.0 - 1, e.1 - 1)
  }

  /** The edges in iteration order, both ends lowered by one. */
  function ShiftPairs(es: seq<Pair>): (r: seq<Pair>)
    ensures |r| == |es|
  {
    seq(|es|, k requires 0 <= k < |es| => (es[k].0 - 1, es[k].1 - 1))
  }

  lemma ShiftMember(ws: seq<int>, w: int)
    ensures w in Shift(ws) <==> w + 1 in ws
  {
    if w in Shift(ws) {
      var j :| 0 <= j < |ws| && Shift(ws)[j] == w;
      assert ws[j] == w + 1;
    }
    if w + 1 in ws {
      var j :| 0 <= j < |ws| && ws[j] == w + 1;
      assert Shift(ws)[j] == w;
    }
  }

  lemma ShiftEdgesMember(edges: set<Pair>, a: int, b: int)
    ensures (a, b) in ShiftEdges(edges) <==> (a + 1, b + 1) in edges
  {
    if (a + 1, b + 1) in edges {
      var e := (a + 1, b + 1);
      assert (e.0 - 1, e.1 - 1) == (a, b);
    }
  }

  /** Lowering ids loses no edge: the shifted set is as large. */
  lemma ShiftEdgesSize(edges: set<Pair>)
    ensures |ShiftEdges(edges)| == |edges|
  {
    var f := (e: Pair) => (e.0 - 1, e.1 - 1);
    forall y | y in ShiftEdges(edges)
      ensures exists x :: x in edges && f(x) == y
    {
      var x :| x in edges && (x.0 - 1, x.1 - 1) == y;
      assert f(x) == y;
    }
    InjectiveImageSize(edges, ShiftEdges(edges), f);
  }

  /** With vertices `1..n`, the shifted edges join distinct ids of
      `0..n-1`, smaller first. */
  lemma ShiftedSimple(g: Graph)
    requires Valid(g)
    ensures Simple(ShiftEdges(g.edges), 0, g.order)
  {
    forall e | e in ShiftEdges(g.edges)
      ensures 0 <= e.0 < e.1 < g.order
    {
      ShiftEdgesMember(g.edges, e.0, e.1);
    }
  }

  /** `w` is in the exported list of vertex `k + 1` exactly when `w + 1`
      is a neighbour of it. */
  lemma ExportedNeighbor(g: Graph, adj: seq<seq<int>>, k: int, w: int)
    requires Valid(g) && Adjacency(g, adj) && 0 <= k < |adj|
    ensures w in ShiftLists(adj)[k] <==> 0 <= w < g.order && Sorted(k, w) in ShiftEdges(g.edges)
  {
    ShiftMember(adj[k], w);
    ShiftEdgesMember(g.edges, k, w);
    ShiftEdgesMember(g.edges, w, k);
  }

  /** The exported lists hold no repeats, and each is as long as its
      vertex's degree. */
  lemma ExportedListSizes(g: Graph, adj: seq<seq<int>>, i: int)
    requires Adjacency(g, adj) && 0 <= i < |adj|
    ensures NoDup(ShiftLists(adj)[i])
    ensures |ShiftLists(adj)[i]| == |Neighbors(g.edges, i + 1)|
  {
    var ids := ShiftLists(adj)[i];
    assert Enumerates(adj[i], Neighbors(g.edges, i + 1));
    forall a, b | 0 <= a < b < |ids|
      ensures ids[a] != ids[b]
    {
      assert adj[i][a] != adj[i][b];
    }
    EnumerationSize(adj[i], Neighbors(g.edges, i + 1));
  }

  /** The exported neighbour lists describe the graph: they are undirected
      lists whose edge set is the graph's edge set lowered by one, and each
      list is as long as its vertex's degree. */
  lemma ExportedLists(g: Graph, adj: seq<seq<int>>)
    requires Valid(g) && Adjacency(g, adj)
    ensures Undirected(ShiftLists(adj))
    ensures ListEdges(ShiftLists(adj)) == ShiftEdges(g.edges)
    ensures forall k :: 0 <= k < |adj| ==> |ShiftLists(adj)[k]| == |Neighbors(g.edges, k + 1)|
  {
    ExportedUndirected(g, adj);
    var lists := ShiftLists(adj);
    forall k | 0 <= k < |adj|
      ensures |lists[k]| == |Neighbors(g.edges, k + 1)|
    {
      ExportedListSizes(g, adj, k);
    }
    ExportedEdges(g, adj);
  }

  lemma ExportedUndirected(g: Graph, adj: seq<seq<int>>)
    requires Valid(g) && Adjacency(g, adj)
    ensures Undirected(ShiftLists(adj))
  {
    var lists := ShiftLists(adj);
    forall i | 0 <= i < |lists|
      ensures NoDup(lists[i])
    {
      ExportedListSizes(g, adj, i);
    }
    forall i, j | 0 <= i < |lists| && j in lists[i]
      ensures 0 <= j < |lists| && j != i && i in lists[j]
    {
      ExportedNeighbor(g, adj, i, j);
      ExportedNeighbor(g, adj, j, i);
    }
  }

  lemma ExportedEdges(g: Graph, adj: seq<seq<int>>)
    requires Valid(g) && Adjacency(g, adj) && Undirected(ShiftLists(adj))
    ensures ListEdges(ShiftLists(adj)) == ShiftEdges(g.edges)
  {
    var lists := ShiftLists(adj);
    forall e | e in ListEdges(lists)
      ensures e in ShiftEdges(g.edges)
    {
      ListEdgesMember(lists, e.0, e.1);
      ExportedNeighbor(g, adj, e.0, e.1);
    }
    ShiftedSimple(g);
    forall e | e in ShiftEdges(g.edges)
      ensures e in ListEdges(lists)
    {
      ExportedNeighbor(g, adj, e.0, e.1);
      ListEdgesMember(lists, e.0, e.1);
    }
  }

  /** The exported lists together are twice as long as the edge set: every
      edge is written on the lines of both its ends. */
  lemma ExportedLengths(g: Graph, adj: seq<seq<int>>)
    requires Valid(g) && Adjacency(g, adj)
    ensures LengthSum(ShiftLists(adj), |adj|) == 2 * |g.edges|
  {
    ExportedLists(g, adj);
    LengthSumIsTwiceEdges(ShiftLists(adj));
    ShiftEdgesSize(g.edges);
  }

  // ------------------------------------------------------------------ LAD

  /** `export_graph_to_lad(graph, filename)` without the file: the vertex
      count, then for each vertex in ascending order its number of
      neighbours and their ids lowered by one. */
  function ExportLad(g: Graph, adj: seq<seq<int>>): (lines: seq<string>)
    requires |adj| == g.order
    ensures |lines| == g.order + 1
  {
    LadText(ShiftLists(adj))
  }

  /** The first line is the vertex count; line `k + 1` is the degree of
      vertex `k + 1` followed by the ids of its neighbours lowered by one,
      and no others. */
  lemma ExportLadLines(g: Graph, adj: seq<seq<int>>, k: int)
    requires Valid(g) && Adjacency(g, adj) && 0 <= k < g.order
    ensures ParseInt(ExportLad(g, adj)[0]) == Some(g.order)
    ensures Split(ExportLad(g, adj)[k + 1])
         == [IntToString(|Neighbors(g.edges, k + 1)|)] + ShowInts(ShiftLists(adj)[k])
    ensures forall w :: w in ShiftLists(adj)[k] <==> w + 1 in Neighbors(g.edges, k + 1)
  {
    var lists := ShiftLists(adj);
    assert ExportLad(g, adj)[k + 1] == LadLine(lists[k]);
    LadLineTokens(lists[k]);
    ParseIntNatural(g.order);
    ExportedLists(g, adj);
    ExportedRow(g, adj, k);
  }

  /** Id `w` is in the lowered list of row `k` exactly when `w + 1` is a
      neighbour of vertex `k + 1`. */
  lemma ExportedRow(g: Graph, adj: seq<seq<int>>, k: int)
    requires Adjacency(g, adj) && 0 <= k < g.order
    ensures forall w :: w in ShiftLists(adj)[k] <==> w + 1 in Neighbors(g.edges, k + 1)
  {
    forall w
      ensures w in ShiftLists(adj)[k] <==> w + 1 in Neighbors(g.edges, k + 1)
    {
      ShiftMember(adj[k], w);
    }
  }

  /** Reading the exported file back gives the lowered neighbour lists,
      and converting it to GFU gives the graph's edge set lowered by one. */
  lemma ExportLadReadsBack(g: Graph, adj: seq<seq<int>>)
    requires Valid(g) && Adjacency(g, adj)
    ensures ReadLad(ExportLad(g, adj)) == Ok(AsMap(ShiftLists(adj)))
    ensures MapEdges(AsMap(ShiftLists(adj))) == ShiftEdges(g.edges)
  {
    ReadLadText(ShiftLists(adj));
    MapEdgesOfLists(ShiftLists(adj));
    ExportedLists(g, adj);
  }

  // ------------------------------------------------------------------ GFU

  /** The default of `graph_name`. */
  const DefaultGraphName := "graph"

  /** `export_graph_to_gfu(graph, filename, graph_name)` without the file,
      with `edgeOrder` the order of `graph.edges(labels=False)`. */
  function ExportGfu(g: Graph, name: string, edgeOrder: seq<Pair>): (lines: seq<string>)
    requires Enumerates(edgeOrder, g.edges)
    ensures |lines| == 3 + g.order + |g.edges|
  {
    EnumerationSize(edgeOrder, g.edges);
    GfuText(name, g.order, ShiftPairs(edgeOrder))
  }

  /** The lowered edge order lists the lowered edge set once each. */
  lemma ShiftPairsEnumerate(g: Graph, edgeOrder: seq<Pair>)
    requires Enumerates(edgeOrder, g.edges)
    ensures Enumerates(ShiftPairs(edgeOrder), ShiftEdges(g.edges))
  {
    var es := ShiftPairs(edgeOrder);
    forall a, b | 0 <= a < b < |es|
      ensures es[a] != es[b]
    {
      assert edgeOrder[a] != edgeOrder[b];
    }
    forall k | 0 <= k < |es|
      ensures es[k] in ShiftEdges(g.edges)
    {
      ShiftEdgesMember(g.edges, es[k].0, es[k].1);
    }
    forall e | e in ShiftEdges(g.edges)
      ensures e in es
    {
      ShiftEdgesMember(g.edges, e.0, e.1);
      var k :| 0 <= k < |edgeOrder| && edgeOrder[k] == (e.0 + 1, e.1 + 1);
      assert es[k] == e;
    }
  }

  /** The GFU header: `#name`, the vertex count, `n` lines `a`, then the
      edge count. */
  lemma ExportGfuHeader(g: Graph, name: string, edgeOrder: seq<Pair>)
    requires Enumerates(edgeOrder, g.edges)
    ensures ExportGfu(g, name, edgeOrder)[0] == "#" + name
    ensures ParseInt(ExportGfu(g, name, edgeOrder)[1]) == Some(g.order)
    ensures forall k :: 2 <= k < 2 + g.order ==> ExportGfu(g, name, edgeOrder)[k] == "a"
    ensures ParseInt(ExportGfu(g, name, edgeOrder)[2 + g.order]) == Some(|g.edges|)
  {
    EnumerationSize(edgeOrder, g.edges);
    GfuHeader(name, g.order, ShiftPairs(edgeOrder));
  }

  /** The GFU edge lines: line `k` reads back as the `k`-th edge of the
      iteration order with both ids lowered by one; those pairs list the
      lowered edge set once each, lie in `0..n-1` smaller first, and no
      line is written twice. */
  lemma ExportGfuEdges(g: Graph, name: string, edgeOrder: seq<Pair>)
    requires Valid(g) && Enumerates(edgeOrder, g.edges)
    ensures |ExportGfu(g, name, edgeOrder)[3 + g.order..]| == |g.edges|
    ensures forall k :: 0 <= k < |g.edges| ==>
              ReadEdgeLine(ExportGfu(g, name, edgeOrder)[3 + g.order..][k]) == Some(ShiftPairs(edgeOrder)[k])
    ensures Enumerates(ShiftPairs(edgeOrder), ShiftEdges(g.edges))
    ensures Simple(ShiftEdges(g.edges), 0, g.order)
    ensures |ShiftEdges(g.edges)| == |g.edges|
    ensures NoDup(ExportGfu(g, name, edgeOrder)[3 + g.order..])
  {
    var es := ShiftPairs(edgeOrder);
    var body := ExportGfu(g, name, edgeOrder)[3 + g.order..];
    ExportGfuBody(g, name, edgeOrder);
    forall k | 0 <= k < |body|
      ensures ReadEdgeLine(body[k]) == Some(es[k])
    {
      EdgeLineRoundTrip(es[k]);
    }
    ShiftPairsEnumerate(g, edgeOrder);
    ShiftedSimple(g);
    ShiftEdgesSize(g.edges);
  }

  /** The edge lines of the GFU export, one per lowered pair, without
      repeats. */
  lemma ExportGfuBody(g: Graph, name: string, edgeOrder: seq<Pair>)
    requires Enumerates(edgeOrder, g.edges)
    ensures |ShiftPairs(edgeOrder)| == |g.edges|
    ensures ExportGfu(g, name, edgeOrder)[3 + g.order..]
         == seq(|edgeOrder|, k requires 0 <= k < |edgeOrder| => EdgeLine(ShiftPairs(edgeOrder)[k]))
    ensures NoDup(ExportGfu(g, name, edgeOrder)[3 + g.order..])
  {
    var es := ShiftPairs(edgeOrder);
    assert ExportGfu(g, name, edgeOrder) == GfuText(name, g.order, es);
    EnumerationSize(edgeOrder, g.edges);
    GfuLines(name, g.order, es);
    ShiftPairsEnumerate(g, edgeOrder);
    GfuBodyNoDup(name, g.order, es);
  }

  // ------------------------------------------------------------------- VF

  /** The block of one vertex, numbered `k` in the file: the number of
      incident edges, one line `k w` per incident edge with `w` the far
      end, then a blank line. */
  function VfBlock(k: int, ids: seq<int>): (block: seq<string>)
    ensures |block| == |ids| + 2
  {
    [NatToString(|ids|)] + seq(|ids|, j requires 0 <= j < |ids| => EdgeLine((k, ids[j]))) + [""]
  }

  /** `export_graph_to_vf(graph, filename)` without the file, with
      `adj[k]` the far ends of `graph.edges_incident(k + 1)` in their
      order: the vertex count, a blank line, one attribute line `v-1 1` per
      vertex, a blank line, then the block of every vertex. */
  function ExportVf(g: Graph, adj: seq<seq<int>>): (lines: seq<string>)
    requires |adj| == g.order
    ensures |lines| >= 3 + g.order
    ensures lines[0] == NatToString(g.order) && lines[1] == "" && lines[2 + g.order] == ""
    ensures forall k :: 0 <= k < g.order ==> lines[2 + k] == IntToString(k) + " 1"
  {
    var vs := Vertices(g);
    var lists := ShiftLists(adj);
    [NatToString(g.order), ""]
      + seq(g.order, k requires 0 <= k < g.order => IntToString(vs[k] - 1) + " 1")
      + [""]
      + Concat(seq(g.order, k requires 0 <= k < g.order => VfBlock(vs[k] - 1, lists[k])))
  }

  /** The VF blocks, vertex by vertex. */
  function VfBlocks(g: Graph, adj: seq<seq<int>>): (blocks: seq<seq<string>>)
    requires |adj| == g.order
    ensures |blocks| == g.order
  {
    seq(g.order, k requires 0 <= k < g.order => VfBlock(Vertices(g)[k] - 1, ShiftLists(adj)[k]))
  }

  /** Where each part of the VF text sits: the count, a blank line, the
      attribute line `k 1` of vertex `k`, a blank line, and the blocks from
      line `3 + n` on. */
  lemma VfLayout(g: Graph, adj: seq<seq<int>>)
    requires |adj| == g.order
    ensures |ExportVf(g, adj)| >= 3 + g.order
    ensures ParseInt(ExportVf(g, adj)[0]) == Some(g.order)
    ensures ExportVf(g, adj)[1] == ""
    ensures forall k :: 0 <= k < g.order ==> ExportVf(g, adj)[2 + k] == IntToString(k) + " 1"
    ensures ExportVf(g, adj)[2 + g.order] == ""
    ensures ExportVf(g, adj)[3 + g.order..] == Concat(VfBlocks(g, adj))
  {
    var n := g.order;
    var head := [NatToString(n), ""] + seq(n, k requires 0 <= k < n => IntToString(Vertices(g)[k] - 1) + " 1");
    assert ExportVf(g, adj) == head + [""] + Concat(VfBlocks(g, adj));
    assert |head| == 2 + n;
    ParseIntNatural(n);
  }

  /** A block reads back as the degree and then the edges `(k, w)`, one
      for each far end `w` in order, and ends with a blank line. */
  lemma VfBlockLines(k: int, ids: seq<int>)
    ensures ParseInt(VfBlock(k, ids)[0]) == Some(|ids|)
    ensures forall j :: 0 <= j < |ids| ==> ReadEdgeLine(VfBlock(k, ids)[j + 1]) == Some((k, ids[j]))
    ensures VfBlock(k, ids)[|ids| + 1] == ""
  {
    ParseIntNatural(|ids|);
    forall j | 0 <= j < |ids|
      ensures ReadEdgeLine(VfBlock(k, ids)[j + 1]) == Some((k, ids[j]))
    {
      VfBlockEdge(k, ids, j);
    }
  }

  /** Line `j + 1` of a block reads back as the edge to `ids[j]`. */
  lemma VfBlockEdge(k: int, ids: seq<int>, j: int)
    requires 0 <= j < |ids|
    ensures ReadEdgeLine(VfBlock(k, ids)[j + 1]) == Some((k, ids[j]))
  {
    assert VfBlock(k, ids)[j + 1] == EdgeLine((k, ids[j]));
    EdgeLineRoundTrip((k, ids[j]));
  }

  /** The block of vertex `k + 1` is numbered `k`, counts its degree, and
      names every edge at `k` once, `k` first: so every edge is written
      twice in all, once in the block of each end. */
  lemma VfBlockOfVertex(g: Graph, adj: seq<seq<int>>, k: int)
    requires Valid(g) && Adjacency(g, adj) && 0 <= k < g.order
    ensures VfBlocks(g, adj)[k] == VfBlock(k, ShiftLists(adj)[k])
    ensures |ShiftLists(adj)[k]| == |Neighbors(g.edges, k + 1)|
    ensures NoDup(ShiftLists(adj)[k])
    ensures forall w :: w in ShiftLists(adj)[k] <==> 0 <= w < g.order && Sorted(k, w) in ShiftEdges(g.edges)
  {
    ExportedLists(g, adj);
    forall w
      ensures w in ShiftLists(adj)[k] <==> 0 <= w < g.order && Sorted(k, w) in ShiftEdges(g.edges)
    {
      ExportedNeighbor(g, adj, k, w);
    }
  }

  lemma {:induction false} BlockSum(lists: seq<seq<int>>, k: nat)
    requires k <= |lists|
    ensures Sum(seq(k, i requires 0 <= i < k => |lists[i]| + 2)) == LengthSum(lists, k) + 2 * k
  {
    if k > 0 {
      var s := seq(k, i requires 0 <= i < k => |lists[i]| + 2);
      assert s == seq(k - 1, i requires 0 <= i < k - 1 => |lists[i]| + 2) + [|lists[k - 1]| + 2];
      SumAppend(seq(k - 1, i requires 0 <= i < k - 1 => |lists[i]| + 2), [|lists[k - 1]| + 2]);
      BlockSum(lists, k - 1);
    }
  }

  /** The VF text has `3 + 3n + 2|E|` lines: three fixed lines, an
      attribute line, a count line and a blank line per vertex, and two
      lines per edge. */
  lemma VfLineCount(g: Graph, adj: seq<seq<int>>)
    requires Valid(g) && Adjacency(g, adj)
    ensures |ExportVf(g, adj)| == 3 + 3 * g.order + 2 * |g.edges|
  {
    var n := g.order;
    var blocks := VfBlocks(g, adj);
    var lists := ShiftLists(adj);
    var lines := ExportVf(g, adj);
    VfLayout(g, adj);
    assert |lines| == 3 + n + |Concat(blocks)| by {
      assert |lines[3 + n..]| == |lines| - (3 + n);
    }
    ConcatLength(blocks);
    var lens := seq(|blocks|, k requires 0 <= k < |blocks| => |blocks[k]|);
    forall k | 0 <= k < n
      ensures lens[k] == |lists[k]| + 2
    {
      assert blocks[k] == VfBlock(Vertices(g)[k] - 1, lists[k]);
    }
    assert lens == seq(n, i requires 0 <= i < n => |lists[i]| + 2);
    BlockSum(lists, n);
    ExportedLengths(g, adj);
  }
}
