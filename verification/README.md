# Layered honeycomb graphs and their solver files

These utilities build two kinds of small graph and write them as text for
subgraph-isomorphism solvers. The pattern is a honeycomb of hexagonal cells.
The target is a "candidate" graph whose vertices are joined when their
numbers are far enough apart. The model covers three parts:

- **The cube-coordinate honeycomb** (`hex_grid_to_lad*.py`, `hex_grid_to_gfu.py`):
  - the cells `(x, y, z)` with `x + y + z = 0` within a radius;
  - their six neighbours;
  - the indexing of the cell set by `list(grid)`;
  - three writers: the full LAD neighbour lists, the labelled variant, and
    the "directed" LAD lists that print every edge once;
  - the GFU writer over sorted index pairs.
- **The ring-numbered honeycomb and the candidate graph, as Sage graphs**
  (`vf_generate.py`, `gfu_generate.py`, `lad_generate.py`), and the VF, GFU
  and LAD exporters of a Sage graph.
- **The LAD reader and the LAD-to-GFU converter** (`lad_to_gfu_converter.py`,
  `lad_to_png.py`).

Modelling conventions:

- Texts are sequences of lines without their line terminators.
- Python's `str.strip`, `str.split`, `str.join`, `str(int)`, `int(str)` and
  slicing `xs[a:b]` are modelled in module `Text` and in
  `LadConverter.Slice`.
- A Sage `Graph` is its vertex count plus a set of sorted pairs, in module
  `SageGraph`.
- Some orders the programs leave unspecified:
  - the order of `list(grid)`;
  - the iteration order of a Python set;
  - the order of Sage's `neighbors`, `edges_incident` and `edges`.

  Each of these is a parameter, tied to the set it lists by
  `Collections.Enumerates` (no repeats, same elements).
- Reading returns `Result`: either the map `read_lad_file` builds, or the
  `ReadError` naming the exception and the line that raised it.

The three copies of `generate_candidate_graph` and of
`generate_hexagonal_grid_graph` in `vf_generate.py`, `gfu_generate.py` and
`lad_generate.py` are textually the same, except for the bound `<= 33` in
`lad_generate.py`. That bound is the `bounded` flag of
`CandidateGraph.GenerateCandidateGraph`. The ring generator is modelled
once and cited from `vf_generate.py`.

The ring generator picks the inner-ring neighbour of position `i` in ring
`k` as `last_inner_ring_begin_hex + i // k`. For one to three rings the
vertex and edge counts agree with the lattice: 1/0, 7/12 and 19/42. With
four rings the choice leaves the lattice: `RingCount.NinthVertexDegree`
proves that vertex 9 gets nine neighbours, three more than any honeycomb
cell has. So the model describes what the code builds (`RingGrid.RingEdges`)
and does not call it the cube lattice.

## Model

| member | source | states |
|---|---|---|
| HexCube.HexDistance | util/hex_grid_to_lad.py:4-8 | the distance bounds each of the three coordinate differences, equals one of them, and is zero exactly when the cells are equal |
| HexCube.HexNeighbors | util/hex_grid_to_lad.py:10-20 | `hex_neighbors(c)` is six distinct cells, each at distance one from `c`, each with the same coordinate sum as `c` |
| HexCube.NeighborsAreAdjacent | util/hex_grid_to_lad.py:10-20 | a cell is among `hex_neighbors(c)` exactly when it lies on the plane of `c` at distance one |
| HexCube.Row | util/hex_grid_to_lad.py:30-32 | the inner loop adds exactly the cells with the given `x`, `lo <= y <= hi` and `z = -x - y`, `hi - lo + 1` of them |
| HexCube.RowsFrom | util/hex_grid_to_lad.py:29-32 | the loops from `x0` on add exactly the cells with `x0 <= x <= rings`, `y` within the row's bounds and `z = -x - y` |
| HexCube.RowsFromNoDup | util/hex_grid_to_lad.py:29-32 | the loops never produce the same cell twice |
| HexCube.GenerateHexGrid | util/hex_grid_to_lad.py:22-33 | a triple is in the grid exactly when `x + y + z = 0` and `max(|x|, |y|, |z|) <= rings` |
| HexCube.GridSize | util/hex_grid_to_lad.py:29-33 | the grid has `1 + 3r(r + 1)` cells for radius `r >= 0` and none for `r < 0` |
| HexCube.GridEnumeratedByRows | util/hex_grid_to_lad.py:29-33 | the loop order lists every grid cell exactly once |
| Collections.Keep | util/hex_grid_to_lad.py:42 | the filtered list holds exactly the listed items that are in the set, without adding repeats |
| Collections.IndexOf | util/hex_grid_to_lad.py:43 | `list.index` returns the first position holding the item |
| Collections.IndexOfAt | util/hex_grid_to_lad.py:43 | in a list without repeats `index` inverts indexing |
| Collections.EnumerationSize | util/hex_grid_to_lad.py:39 | a duplicate-free listing of a set has the set's size |
| HexLad.NeighborsIn | util/hex_grid_to_lad.py:42 | the in-grid neighbours are exactly the grid cells adjacent to the cell, without repeats, at most six |
| HexLad.Indices | util/hex_grid_to_lad.py:43 | each index is in range and names the neighbour at the same position |
| HexLad.IndicesMember | util/hex_grid_to_lad.py:43 | `j` is among the indices exactly when `lad_data[j]` is among the neighbours |
| HexLad.HexGridToLad | util/hex_grid_to_lad.py:35-44 | `lad_data` is the listing order, and exactly the grid cells get a neighbour list |
| HexLad.HexGridToLadComplete | util/hex_grid_to_lad.py:41-44 | every cell of `lad_data` has an entry in `neighbors_data` |
| HexLad.Lists | util/hex_grid_to_lad.py:52-53 | list `i` is `neighbors_data[lad_data[i]]`, for every position |
| HexLad.HexLadList | util/hex_grid_to_lad.py:42-43 | list `i` is the indices of the in-grid neighbours of cell `i` |
| HexLad.HexLadAdjacency | util/hex_grid_to_lad.py:42-43 | `j` is in list `i` exactly when `0 <= j < n` and cells `i` and `j` are adjacent |
| HexLad.AdjacentSymmetric | util/hex_grid_to_lad.py:10-20 | lattice adjacency is symmetric |
| HexLad.HexLadUndirected | util/hex_grid_to_lad.py:35-44 | ids are in range and never the cell's own; no list repeats an id; `j` lists `i` exactly when `i` lists `j`; no list has more than six ids |
| HexLad.PrintLadData | util/hex_grid_to_lad.py:46-55 | `print_lad_data` prints one line more than there are cells |
| HexLad.PrintLadDataLine | util/hex_grid_to_lad.py:50-55 | the first line is the cell count; line `i + 1` splits into the length of cell `i`'s list followed by exactly its ids |
| HexLad.PrintLadDataWithLabels | util/hex_grid_to_lad.py:57-66 | the labelled writer prints one line more than there are cells |
| HexLad.LabelledLine | util/hex_grid_to_lad.py:61-66 | the labelled text has the same first line, and line `i + 1` is the token `i:` followed by the tokens of the unlabelled line |
| HexLad.SplitLabel | util/hex_grid_to_lad.py:66 | the prefix `f"{idx}: "` adds exactly one token `idx:` in front of the line's tokens |
| HexLad.HexLadMain | util/hex_grid_to_lad.py:76-80 | `main(rings)` prints one line per cell plus the count line, which holds the cell count |
| HexLad.HexLadMainCount | util/hex_grid_to_lad.py:76-80 | after the shift to radius `rings - 1`, `main(rings)` lists `1 + 3 rings (rings - 1)` cells for `rings >= 1` and none otherwise |
| HexLadDirected.Later | util/hex_grid_to_lad_new.py:60-65 | the kept ids are exactly the listed ids above the vertex's own index, without repeats |
| HexLadDirected.LaterKeepsOrder | util/hex_grid_to_lad_new.py:60-65 | successors keep the relative order of the neighbour list |
| HexLadDirected.Successors | util/hex_grid_to_lad_new.py:58-65 | a neighbour is kept only if its sorted pair was not printed before; afterwards every neighbour's pair is printed; the printed set grows by exactly the kept pairs |
| HexLadDirected.SuccessorsAreLater | util/hex_grid_to_lad_new.py:56-65 | when exactly the pairs towards earlier ids are printed, the inner loop keeps exactly the later neighbours and prints their pairs |
| HexLadDirected.PrintedBefore | util/hex_grid_to_lad_new.py:62-63 | before vertex `k`'s turn, the pair of `k` and a neighbour `j` is already printed exactly when `j < k` |
| HexLadDirected.DirectedRows | util/hex_grid_to_lad_new.py:57-68 | the outer loop from position `k` on yields one row per remaining cell |
| HexLadDirected.DirectedLists | util/hex_grid_to_lad_new.py:53-68 | one successor row per cell, with `printed_edges` starting empty |
| HexLadDirected.PrintLadDataDirected | util/hex_grid_to_lad_new.py:53-68 | the first line is `len(lad_data)`, followed by exactly that many lines |
| HexLadDirected.DirectedLineTokens | util/hex_grid_to_lad_new.py:68 | each line's leading count is the number of successor ids printed after it |
| HexLadDirected.RowsAreLater | util/hex_grid_to_lad_new.py:56-68 | from any position on, the rows printed are each remaining vertex's later neighbours |
| HexLadDirected.DirectedListsAreLater | util/hex_grid_to_lad_new.py:56-65 | row `i` is the neighbours of cell `i` with a larger index, in list order |
| HexLadDirected.DirectedEdgeOnce | util/hex_grid_to_lad_new.py:56-65 | for `i < j`, `j` is printed on line `i` exactly when `{i, j}` is an edge, never twice, and `i` is never printed on line `j`: each edge appears once, on its earlier endpoint's line |
| HexLadDirected.LaterIsSide | util/hex_grid_to_lad_new.py:60-65 | the successors of `v` are the other ends of the edges whose smaller end is `v` |
| HexLadDirected.DirectedSumIsSideSum | util/hex_grid_to_lad_new.py:56-68 | the successor counts of the first `k` vertices add up to the number of edges whose smaller end is below `k` |
| HexLadDirected.DirectedCountsHalve | util/hex_grid_to_lad_new.py:56-68 | the successor counts add up to the number of undirected edges, half the sum of the full list lengths |
| HexLadDirected.HexDirectedEdges | util/hex_grid_to_lad_new.py:47-68 | on the honeycomb, for `i < j`, line `i` lists `j` exactly when the cells are adjacent, and line `j` never lists `i` |
| Edges.Sorted | util/hex_grid_to_gfu.py:45 | `tuple(sorted((a, b)))` has the smaller end first and the same two ends |
| Edges.Neighbors | util/lad_generate.py:103 | `w` is a neighbour of `v` exactly when an edge joins them in either direction |
| Edges.SideSumIsEdgeCount | util/hex_grid_to_lad_new.py:56-65 | charging every edge to one chosen end and summing over the vertices counts each edge exactly once |
| Edges.Handshake | util/vf_generate.py:97-111 | the degrees of a simple graph add up to twice its edge count |
| HexGfu.HexGridToGfu | util/hex_grid_to_gfu.py:36-55 | the text has `3 + n + |edges|` lines |
| HexGfu.HexGfuEdgesIff | util/hex_grid_to_gfu.py:42-46 | `(a, b)` is an edge exactly when `0 <= a < b < n` and cells `a` and `b` are adjacent |
| HexGfu.HexGfuSimple | util/hex_grid_to_gfu.py:41-46 | every pair is `(a, b)` with `a < b` and both in `[0, n)` |
| HexGfu.HexGfuMatchesLad | util/hex_grid_to_gfu.py:40-46 | for the same `lad_data` order, the edge set is the set of sorted pairs of `hex_grid_to_lad`'s lists |
| HexGfu.HexGfuText | util/hex_grid_to_gfu.py:48-53 | the text starts with `#hexagon_grid` and the cell count; the count line equals the number of edges; no edge line repeats; `3 + n + |edges|` lines in all |
| Gfu.GfuText | util/hex_grid_to_gfu.py:48-53 | a GFU text has `3 + n + |edges|` lines |
| Gfu.GfuLines | util/hex_grid_to_gfu.py:48-53 | the name line, the count, `n` lines `a`, the edge count, and the edge lines in iteration order |
| Gfu.GfuHeader | util/lad_to_gfu_converter.py:20-31 | the count lines read back as the vertex count and the number of edge lines |
| Gfu.ReadEdgeLine | util/lad_to_gfu_converter.py:33 | an edge line is read only when it has exactly two tokens |
| Gfu.EdgeLineRoundTrip | util/lad_to_gfu_converter.py:33 | `f"{u} {v}"` reads back as `(u, v)` |
| Gfu.EdgeLineInjective | util/lad_to_gfu_converter.py:33 | different pairs are written as different lines |
| Gfu.GfuEdgeLines | util/lad_to_gfu_converter.py:32-33 | edge line `k` reads back as the `k`-th pair iterated |
| Gfu.GfuEdgesOnce | util/lad_to_gfu_converter.py:31-33 | when the pairs enumerate a set, the count line is the set's size and no edge line is written twice |
| Gfu.GfuBodyNoDup | util/hex_grid_to_gfu.py:52-53 | pairs without repeats give edge lines without repeats |
| Lad.LadText | util/hex_grid_to_lad.py:50-55 | a LAD text has one line more than there are lists |
| Lad.LadLineTokens | util/hex_grid_to_lad.py:54-55 | a vertex line splits into its count followed by exactly that many ids |
| Lad.AsMap | util/lad_to_gfu_converter.py:13 | the keys are exactly `0..n-1`, and key `i` holds list `i` |
| Lad.MapEdgesOfLists | util/lad_to_gfu_converter.py:25-29 | the sorted pairs of the keyed map are those of the lists |
| Lad.ListEdgesMember | util/lad_to_gfu_converter.py:25-29 | for undirected lists, `(a, b)` is an edge exactly when `0 <= a < b < n` and `a` lists `b` |
| Lad.ListEdgesSimple | util/lad_to_gfu_converter.py:25-29 | the edges of undirected lists join distinct vertices of `0..n-1`, smaller first |
| Lad.ListNeighbors | util/hex_grid_to_lad.py:46-55 | in undirected lists, a vertex's neighbours in the edge set are exactly the ids of its list |
| Lad.ListDegree | util/hex_grid_to_lad.py:54-55 | the count a full writer prints for a vertex is its degree |
| Lad.LengthSumIsDegreeSum | util/hex_grid_to_lad.py:52-55 | the counts of the first `k` lines add up to the degrees of the first `k` vertices |
| Lad.LengthSumIsTwiceEdges | util/hex_grid_to_lad.py:46-55 | in a full LAD text every edge is counted on both endpoints' lines: the counts add up to twice the edge count |
| Text.StripFacts | util/lad_to_gfu_converter.py:7 | `strip()` removes exactly the leading and trailing whitespace |
| Text.Strip | util/lad_to_gfu_converter.py:7 | `strip()` never lengthens a string, and a nonempty result neither starts nor ends with whitespace |
| Text.Split | util/lad_to_gfu_converter.py:10 | `split()` yields only nonempty tokens without whitespace |
| Text.SplitEmpty | util/lad_to_gfu_converter.py:10-11 | `split()` yields no token exactly when the line is all whitespace |
| Text.SplitStrip | util/lad_to_gfu_converter.py:10 | `strip()` before `split()` changes nothing |
| Text.SplitJoin | util/hex_grid_to_lad.py:54 | splitting the `" ".join` of tokens gives the tokens back |
| Text.NatToString | util/hex_grid_to_lad.py:51 | `str(n)` is nonempty ASCII digits without a leading zero |
| Text.IntToString | util/hex_grid_to_lad.py:54 | `str(i)` is one token |
| Text.ParseToken | util/lad_to_gfu_converter.py:11 | `int` accepts a token only if everything after its first character is digits or underscores |
| Text.ParseInt | util/lad_to_gfu_converter.py:7 | `int(s)` succeeds only when the stripped string is a single word with no whitespace in it |
| Text.ParseIntOneToken | util/lad_to_gfu_converter.py:7 | a string that `int()` accepts splits into exactly one token, the stripped string itself |
| Text.ParseIntNatural | util/lad_to_gfu_converter.py:7 | `int(str(n))` is `n` |
| Text.ParseIntNegative | util/lad_to_gfu_converter.py:12 | `int("-" + str(n))` is `-n` for `n > 0` |
| Text.ParseIntToString | util/lad_to_gfu_converter.py:11-12 | `int(str(i))` is `i` for every integer |
| Text.ShowInts | util/hex_grid_to_lad.py:54 | `map(str, xs)` writes each integer at its position |
| Text.ParseInts | util/lad_to_gfu_converter.py:12 | `list(map(int, ts))` succeeds exactly when every token is an integer, and parses each at its position |
| Text.ParseShowInts | util/lad_to_gfu_converter.py:12 | parsing what `map(str, xs)` wrote gives `xs` back |
| SageGraph.LayerCells | util/vf_generate.py:12 | the vertex range `1..3L(L-1)+1` is never empty |
| SageGraph.AddEdge | util/vf_generate.py:24 | `add_edge` adds the edge in either direction, changes nothing else, and is idempotent |
| SageGraph.Vertices | util/vf_generate.py:90 | `vertices()` lists `1..n` in ascending order |
| CandidateGraph.GenerateCandidateGraph | util/vf_generate.py:10-30 | the vertices are `1..3L(L-1)+1`, the graph is simple, and `{i, j}` with `i < j` is an edge exactly when `j - i >= d`, and also `j - i <= 33` in the bounded variant of `lad_generate.py` |
| CandidateGraph.CandidateEdgesIff | util/gfu_generate.py:24-28 | a candidate edge `(i, j)` has `1 <= i < j <= n` and a difference that qualifies, and every such pair is one |
| CandidateGraph.CandidateSimple | util/vf_generate.py:21-24 | no self-loops, and every end is a vertex |
| CandidateGraph.CandidateExample | util/vf_generate.py:12-24 | for `L = 2` and `d = 3` the vertices are `1..7` and the edges are exactly the ten pairs `{1,4}, {1,5}, {1,6}, {1,7}, {2,5}, {2,6}, {2,7}, {3,6}, {3,7}, {4,7}` |
| CandidateGraph.BoundedEdgeless | util/lad_generate.py:25-28 | the bounded variant is edgeless once `d > 33` |
| RingGrid.RingStartClosed | util/vf_generate.py:61-62 | ring `k` starts at id `3k(k - 1) + 2` |
| RingGrid.LayerEnd | util/vf_generate.py:46 | the last ring ends at the last vertex, `1 + 3n(n - 1)` |
| RingGrid.NoRings | util/vf_generate.py:59-60 | with `n <= 1` no edge is added |
| RingGrid.EdgesStep | util/vf_generate.py:60-74 | each pass of the outer loop adds the edges of one ring |
| RingGrid.TargetsBelow | util/vf_generate.py:68-72 | from ring two on, every inner-ring target is a vertex of an inner ring |
| RingGrid.ProposalShape | util/vf_generate.py:63-72 | a position makes two calls when `i % k == 0` and three otherwise; the first joins it to its ring successor, wrapping at the end; the others join it to distinct inner ids |
| RingGrid.PositionCalls | util/vf_generate.py:64-72 | one pass of the position loop makes two or three `add_edge_if_valid` calls, all from `hex_id`; the first joins it to the next id around the ring, wrapping to `start_hex` at the last position; in the first ring there are exactly two, the second to the centre 1 (the `% ring` rule and the inner targets are stated by RingGrid.ProposalShape) |
| RingGrid.ProposalsValid | util/vf_generate.py:52-54 | every proposed pair has both ends in `[1, total]` and distinct, so `add_edge_if_valid` never drops one |
| RingGrid.AddEdgeIfValid | util/vf_generate.py:52-54 | the edge is added when both ends are vertices, and the graph is unchanged otherwise |
| RingGrid.AddEach | util/vf_generate.py:66-72 | calls whose ends are vertices add exactly their sorted pairs |
| RingGrid.NewEdgesSimple | util/vf_generate.py:63-72 | one position's edges join distinct vertices |
| RingGrid.RingPrefixSimple | util/vf_generate.py:63-72 | the edges of the first positions of a ring join distinct vertices |
| RingGrid.RingEdgesSimple | util/vf_generate.py:33-77 | the generated graph is simple on `1..total` |
| RingGrid.PositionStep | util/vf_generate.py:64-72 | the calls of one position are valid and add exactly that position's edges |
| RingGrid.AddRing | util/vf_generate.py:61-74 | the inner loop adds exactly the edges of ring `k` |
| RingGrid.GenerateHexagonalGridGraph | util/vf_generate.py:33-77 | the graph has `1 + 3n(n - 1)` vertices, is simple, and its edges are those of rings `1..n-1` |
| RingCount.SixCorners | util/vf_generate.py:68 | a ring has exactly six positions with `i % k == 0` |
| RingCount.NewEdgesShape | util/vf_generate.py:66-72 | a position's edges are the edge to its ring successor plus edges from itself to inner ids |
| RingCount.NewEdgesSize | util/vf_generate.py:66-72 | a position adds two edges when `i % k == 0` and three otherwise |
| RingCount.PositionsDisjoint | util/vf_generate.py:63-72 | two positions of one ring never propose the same edge |
| RingCount.RingPrefixSize | util/vf_generate.py:63-72 | the first `i` positions add `3i` edges less one per corner among them |
| RingCount.RingOfSize | util/vf_generate.py:60-74 | ring `k` adds `18k - 6` edges |
| RingCount.RingOfEnds | util/vf_generate.py:61-73 | every edge of ring `k` has its larger end among ring `k`'s ids |
| RingCount.RingEdgesBelow | util/vf_generate.py:60-74 | the edges of the first `m - 1` rings stay below ring `m`'s first id |
| RingCount.NewRingDisjoint | util/vf_generate.py:60-74 | a ring adds only edges not added before |
| RingCount.RingEdgesSize | util/vf_generate.py:33-77 | the graph has `3(n - 1)(3n - 2)` edges for `n >= 1` and none otherwise |
| RingCount.SmallRingGraphs | util/lad_generate.py:50-78 | one, two and three rings give 1/0, 7/12 and 19/42 vertices/edges |
| RingCount.NinthProposal | util/vf_generate.py:64-72 | in the rings below the fourth, every call that touches vertex 9 joins it to one of 2, 3, 8, 10 or 21 to 25 |
| RingCount.NinthNeighboursOnly | util/vf_generate.py:59-74 | with four rings every neighbour of vertex 9 is one of 2, 3, 8, 10 or 21 to 25 |
| RingCount.AroundInGraph | util/vf_generate.py:60-66 | in a graph with more rings than `k`, every position of ring `k` but the last is joined to the next id around the ring |
| RingCount.FirstInnerInGraph | util/vf_generate.py:60-71 | outside the first ring, position `i` of ring `k` is joined to `last_inner_ring_begin_hex + i // k` by whichever branch runs |
| RingCount.SecondInnerInGraph | util/vf_generate.py:60-72 | a position with `i % k != 0`, short of the last, is also joined to `last_inner_ring_begin_hex + i // k + 1` |
| RingCount.NinthJoinedInSecondRing | util/vf_generate.py:59-74 | with four or more rings vertex 9 is joined to 8 and 10 around its ring and to 2 and 3 inside it |
| RingCount.NinthJoinedInThirdRing | util/vf_generate.py:59-74 | with four or more rings vertex 9 is joined to each of 21 to 25 in the ring outside it |
| RingCount.NinthNeighboursAll | util/vf_generate.py:59-74 | with four or more rings each of 2, 3, 8, 10 and 21 to 25 is joined to vertex 9 |
| RingCount.NinthVertexDegree | util/vf_generate.py:33-77 | `generate_hexagonal_grid_graph(4)` gives vertex 9 exactly the nine neighbours 2, 3, 8, 10 and 21 to 25, where a honeycomb cell has at most six |
| SageExport.ShiftMember | util/lad_generate.py:105 | `w` is in the lowered list exactly when `w + 1` is in the original |
| SageExport.ShiftEdgesMember | util/gfu_generate.py:104-105 | `(a, b)` is a written edge exactly when `(a + 1, b + 1)` is a graph edge |
| SageExport.ShiftEdgesSize | util/gfu_generate.py:104-105 | lowering the ids loses no edge |
| SageExport.ShiftedSimple | util/gfu_generate.py:104-105 | with vertices `1..n` every written id lies in `[0, n)`, smaller end first |
| SageExport.ExportedNeighbor | util/lad_generate.py:103-105 | `w` is on vertex `k + 1`'s line exactly when `{k, w}` is a lowered edge |
| SageExport.ExportedListSizes | util/lad_generate.py:103-107 | each line's list has no repeats and as many ids as the vertex has neighbours |
| SageExport.ExportedLists | util/lad_generate.py:101-107 | the written lists are undirected, their edges are the graph's edges lowered by one, and each count is the degree |
| SageExport.ExportedRow | util/lad_generate.py:103-105 | `w` is written for vertex `k + 1` exactly when `w + 1` is its neighbour |
| SageExport.ExportedLengths | util/lad_generate.py:103-107 | every edge appears on both endpoints' lines: the counts add up to twice the edge count |
| SageExport.ExportLad | util/lad_generate.py:91-107 | one line per vertex after the count line |
| SageExport.ExportLadLines | util/lad_generate.py:98-107 | the first line is `n`; vertex `k + 1`'s line is its degree followed by exactly its neighbours lowered by one |
| SageExport.ExportLadReadsBack | util/lad_generate.py:91-107 | `read_lad_file` reads the export back as the lowered lists, whose GFU edge set is the graph's edges lowered by one |
| SageExport.ExportGfu | util/gfu_generate.py:83-105 | the text has `3 + n + num_edges` lines |
| SageExport.ShiftPairsEnumerate | util/gfu_generate.py:104-105 | the written pairs list each lowered edge exactly once |
| SageExport.ExportGfuHeader | util/gfu_generate.py:90-101 | `#` and the name, the vertex count, `n` lines `a`, then the edge count |
| SageExport.ExportGfuEdges | util/gfu_generate.py:100-105 | the edge-count line is followed by exactly that many lines; each reads back as a lowered edge with ids in `[0, n)`, and none repeats |
| SageExport.ExportGfuBody | util/gfu_generate.py:104-105 | the edge lines are the lowered pairs in iteration order, without repeats |
| SageExport.VfBlock | util/vf_generate.py:102-111 | a vertex block has two lines more than the vertex has incident edges |
| SageExport.VfBlocks | util/vf_generate.py:97-111 | one block per vertex |
| SageExport.ExportVf | util/vf_generate.py:79-111 | the file starts with `n` and a blank line, then for every vertex `v` the line `v-1 1` at position `v + 1` in ascending vertex order, then a blank line, so it has at least `3 + n` lines |
| SageExport.VfLayout | util/vf_generate.py:81-94 | `n`, a blank line, the lines `v-1 1` in ascending vertex order, a blank line, then the blocks |
| SageExport.VfBlockLines | util/vf_generate.py:102-111 | a block's count is its number of edge lines; each edge line starts with the vertex's own id; the block ends with a blank line |
| SageExport.VfBlockEdge | util/vf_generate.py:105-110 | edge line `j` of a block reads back as the vertex and its `j`-th far end |
| SageExport.VfBlockOfVertex | util/vf_generate.py:97-111 | vertex `k + 1`'s block lists each of its neighbours once, lowered by one, and its count is the degree |
| SageExport.VfLineCount | util/vf_generate.py:79-111 | the file has `3 + 3n + 2 num_edges` lines: every undirected edge is written twice |
| LadConverter.SliceBound | util/lad_to_gfu_converter.py:12 | a slice bound counts from the end when negative and is clipped to `0..len` |
| LadConverter.Slice | util/lad_to_gfu_converter.py:12 | `xs[a:b]` is the elements between the two clipped bounds, or empty |
| LadConverter.RowOf | util/lad_to_gfu_converter.py:10-12 | a vertex line fails with its own line index, never as a missing line, and succeeds only with an integer first token |
| LadConverter.ReadRow | util/lad_to_gfu_converter.py:10-12 | line `idx` is reported missing exactly when the file has no such line |
| LadConverter.ReadRows | util/lad_to_gfu_converter.py:9-13 | the loop succeeds exactly when every line `1..k` reads; then the keys are `0..k-1` and key `i` holds line `i + 1`'s list; otherwise it fails with the error of the first line that does not read |
| LadConverter.ReadLines | util/lad_to_gfu_converter.py:9-13 | the loop over a file's lines succeeds exactly when lines `1..n` all read, and then holds their lists under keys `0..n-1` |
| LadConverter.ReadCounted | util/lad_to_gfu_converter.py:7-13 | given the parsed first line, reading succeeds exactly when the count is an integer and lines `1..count` read; the keys are `0..count-1`, key `i` holding line `i + 1`'s list |
| LadConverter.ReadLad | util/lad_to_gfu_converter.py:1-14 | `read_lad_file` succeeds exactly when the first line holds an integer `n` and lines `1..n` read; its keys are exactly `0..n-1`, and key `i` holds the list read from line `i + 1` |
| LadConverter.ReadLadFirstError | util/lad_to_gfu_converter.py:9-13 | a failing file fails with the error of the first of lines `1..n` that does not read |
| LadConverter.FirstRowFails | util/lad_to_gfu_converter.py:9-12 | with a positive count, a first vertex line that does not read rejects the file with that line's error |
| LadConverter.ReadRowTokens | util/lad_to_gfu_converter.py:10 | an existing line is read from the tokens of `split()` |
| LadConverter.RowIds | util/lad_to_gfu_converter.py:11-12 | with count `c >= 0` the list is the first `min(c, tokens - 1)` tokens after the count, parsed: extra tokens are ignored, a short line gives a short list, and only kept tokens must be integers |
| LadConverter.NegativeCount | util/lad_to_gfu_converter.py:12 | a count of `-1` reads an empty list, and `c <= -2` reads the tokens after the count except the last `-c - 1` |
| LadConverter.RowOfLadLine | util/lad_to_gfu_converter.py:10-12 | a written vertex line reads back as its list |
| LadConverter.ReadLadFails | util/lad_to_gfu_converter.py:6-11 | an empty file, a first line that is not an integer, fewer than `n + 1` lines, or a blank vertex line makes reading fail |
| LadConverter.ReadRowsAgree | util/lad_to_gfu_converter.py:9-13 | the loop only looks at lines `1..n` |
| LadConverter.ExtraLinesIgnored | util/lad_to_gfu_converter.py:9 | lines after line `n` do not change the result |
| LadConverter.ReadLadText | util/lad_to_gfu_converter.py:1-14 | a LAD text reads back as its lists keyed by position |
| LadConverter.LadToGfu | util/lad_to_gfu_converter.py:16-35 | the GFU text has `3 + keys + |edges|` lines |
| LadConverter.LadToGfuText | util/lad_to_gfu_converter.py:20-33 | `#graph_from_lad`, the number of keys, then the edge count equal to the set's size; each edge line reads back as a distinct sorted pair of the set, smaller id first |
| LadConverter.LadFileToGfu | util/lad_to_gfu_converter.py:44-47 | conversion fails exactly when reading fails, and otherwise starts with `#graph_from_lad` |
| LadConverter.LaterListsSameEdges | util/lad_to_gfu_converter.py:25-29 | lists naming each edge once, at its smaller end, and lists naming it at both ends give the same GFU edge set |
| RoundTrips.PrintLadDataIsLadText | util/hex_grid_to_lad.py:46-55 | `print_lad_data` prints the LAD text of the neighbour lists in cell order |
| RoundTrips.DirectedIsLadText | util/hex_grid_to_lad_new.py:53-68 | the directed writer prints the LAD text of the successor lists |
| RoundTrips.HexLadReadsBack | util/lad_to_gfu_converter.py:1-14 | reading back `print_lad_data`'s output gives, at key `i`, the neighbour list of `lad_data[i]`, and converting it gives `hex_grid_to_gfu`'s edge set |
| RoundTrips.HexLadMainReadsBack | util/hex_grid_to_lad.py:76-80 | `main(rings)`'s output reads back as the neighbour lists of the radius `rings - 1` grid |
| RoundTrips.DirectedReadsBack | util/hex_grid_to_lad_new.py:47-68 | the directed output reads back as the successor lists, whose GFU edge set is the same as the full output's |
| RoundTrips.LabelIsNotAnInteger | util/lad_to_gfu_converter.py:11 | a label token `i:` is not an integer |
| RoundTrips.LabelledFirstRow | util/hex_grid_to_lad.py:57-66 | the labelled text's count line reads, but its first vertex line fails as not an integer |
| RoundTrips.LabelledNotReadable | util/hex_grid_to_lad.py:57-66 | `read_lad_file` rejects the labelled text of a nonempty grid at line 1 |

## Left out

- Rendering is left out, because it is floating-point drawing with no
  effect on the files. This covers:
  - `visualize_lad_to_png` and `visualize_lad_file`;
  - the `graph.plot()` and `p.save` calls inside `generate_candidate_graph`;
  - spring layouts and `sqrt(3)` positions.
- Argument parsing, `sys.argv` checks, script bodies and hard-coded output
  paths are left out. Writers return their lines; the reader takes the
  lines of a file.
- File I/O is left out: `open`, `readlines`, `write` and `save_gfu_file`.
  Line terminators are not part of the lines. `strip()` and `split()` treat
  them as whitespace, so this changes no result.
- `generate_gfu_file` (util/lad_generate.py:84-89) is left out. It calls
  `.degree()` on an integer vertex, so it would raise at its first vertex,
  and nothing calls it.
- Sage's internals are left out. A graph is its vertex count and a set of
  sorted pairs. Some orders Sage and Python do not specify are parameters
  constrained by `Enumerates`:
  - the order of `neighbors`, `edges_incident` and `edges(labels=False)`;
  - the iteration order of a Python set;
  - the hash order of `list(grid)`.
- `int()` accepts only ASCII digits here. Python also accepts other Unicode
  decimal digits, which no writer in these programs produces.
- RingCount.RingEdgesSize: degrees are stated only for vertex 9 of the
  four-ring graph (RingCount.NinthVertexDegree). No general degree bound is
  stated, and neither is any isomorphism with the cube lattice.
- `simulate_hex_grid_with_labels` is left out. It only chains
  `generate_hex_grid`, `hex_grid_to_lad` and `print_lad_data_with_labels`,
  which are modelled one by one.
- `read_lad_file` in `lad_to_png.py` (lines 4-17) is the same code as in
  `lad_to_gfu_converter.py`, so LadConverter.ReadLad models both.
- The copies of `hex_distance`, `hex_neighbors`, `generate_hex_grid` and
  `hex_grid_to_lad` in `hex_grid_to_lad_new.py` and `hex_grid_to_gfu.py`
  are textually the same as in `hex_grid_to_lad.py`. They are modelled once
  and cited there.
- The `main` functions of `hex_grid_to_lad_new.py` and `hex_grid_to_gfu.py`
  have no members of their own. They apply the same `rings - 1` shift as
  HexLad.HexLadMain. Then one prints the directed text and the other
  writes `hex_grid_to_gfu`'s text to a file; both texts are modelled.
- Lad.LadText: the contract gives only the line count; the lines themselves are stated by LadLineTokens and ReadLadText.
- HexLad.PrintLadData: the contract gives only the line count; the lines themselves are stated by PrintLadDataLine.
- HexLad.PrintLadDataWithLabels: the contract gives only the line count; the lines themselves are stated by LabelledLine.
- Gfu.GfuText: the contract gives only the line count; the lines themselves are stated by GfuLines and GfuEdgeLines.
- HexGfu.HexGridToGfu: the contract gives only the line count; the lines themselves are stated by HexGfuText.
- SageExport.ExportLad: the contract gives only the line count; the lines themselves are stated by ExportLadLines and ExportLadReadsBack.
- SageExport.ExportGfu: the contract gives only the line count; the lines themselves are stated by ExportGfuHeader and ExportGfuEdges.
- LadConverter.LadToGfu: the contract gives only the line count; the lines themselves are stated by LadToGfuText.
- SageExport.VfBlock: the contract gives only the line count; the lines themselves are stated by VfBlockLines.
- Text.Split: the contract gives only the shape of the tokens.
  Splitting is pinned down only as far as the writers need it (SplitJoin,
  SplitEmpty, SplitStrip), not character by character against Python.
- Text.Strip: the contract gives the length bound and the non-whitespace
  ends; StripFacts states that exactly the surrounding whitespace is
  removed.
- Gfu.ReadEdgeLine: this reader exists to state that GFU edge lines read
  back. It is weaker than a full GFU parser, which no program here has.
