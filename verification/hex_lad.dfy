/** `hex_grid_to_lad` and the two full LAD writers of the cube-coordinate
    grid: the grid set is listed in some order, every cell gets the indices
    of its grid neighbours, and the writers print one line per cell. */
module HexLad {
  import opened Collections
  import opened HexCube
  import opened Text
  import opened Lad

  /** The pair `hex_grid_to_lad` returns: `lad_data`, the cells in list
      order, and `neighbors_data`, each cell's neighbour indices. */
  datatype LadData = LadData(cells: seq<Cube>, neighbors: map<Cube, seq<int>>)

  /** `[n for n in hex_neighbors(c) if n in grid]`: the neighbours of `c`
      inside the grid, in direction order. */
  function NeighborsIn(c: Cube, grid: set<Cube>): (ns: seq<Cube>)
    ensures forall d :: d in ns <==> d in grid && Adjacent(c, d)
    ensures NoDup(ns) && |ns| <= 6
  {
    forall d ensures d in HexNeighbors(c) <==> Adjacent(c, d) {
      NeighborsAreAdjacent(c, d);
    }
    Keep(HexNeighbors(c), grid)
  }

  /** `[order.index(n) for n in ns]`. */
  function Indices(order: seq<Cube>, ns: seq<Cube>): (ids: seq<int>)
    requires forall k :: 0 <= k < |ns| ==> ns[k] in order
    ensures |ids| == |ns|
    ensures forall k :: 0 <= k < |ns| ==> 0 <= ids[k] < |order| && order[ids[k]] == ns[k]
  {
    seq(|ns|, k requires 0 <= k < |ns| => IndexOf(order, ns[k]))
  }

  /** `hex_grid_to_lad(grid)`, where `order` is the order in which
      `list(grid)` happens to list the set. */
  function HexGridToLad(grid: set<Cube>, order: seq<Cube>): (d: LadData)
    requires Enumerates(order, grid)
    ensures d.cells == order
    ensures forall c :: c in d.neighbors <==> c in grid
  {
    LadData(order, map c | c in grid :: Indices(order, NeighborsIn(c, grid)))
  }

  /** Every cell listed has a neighbour list. */
  predicate Complete(d: LadData) {
    forall i :: 0 <= i < |d.cells| ==> d.cells[i] in d.neighbors
  }

  /** The neighbour lists in cell order: the list of cell `i` at index `i`. */
  function Lists(d: LadData): (lists: seq<seq<int>>)
    requires Complete(d)
    ensures |lists| == |d.cells|
    ensures forall i :: 0 <= i < |d.cells| ==> lists[i] == d.neighbors[d.cells[i]]
  {
    seq(|d.cells|, i requires 0 <= i < |d.cells| => d.neighbors[d.cells[i]])
  }

  lemma HexGridToLadComplete(grid: set<Cube>, order: seq<Cube>)
    requires Enumerates(order, grid)
    ensures Complete(HexGridToLad(grid, order))
  {
  }

  /** Index `j` is in the list of cell `i` exactly when `j` indexes a cell
      adjacent to cell `i` in the lattice. */
  lemma HexLadAdjacency(grid: set<Cube>, order: seq<Cube>, i: int, j: int)
    requires Enumerates(order, grid) && 0 <= i < |order|
    ensures Complete(HexGridToLad(grid, order))
    ensures j in Lists(HexGridToLad(grid, order))[i] <==> 0 <= j < |order| && Adjacent(order[i], order[j])
  {
    HexLadList(grid, order, i);
    var ns := NeighborsIn(order[i], grid);
    IndicesMember(order, ns, j);
  }

  /** The list of cell `i` is the indices of its grid neighbours. */
  lemma HexLadList(grid: set<Cube>, order: seq<Cube>, i: int)
    requires Enumerates(order, grid) && 0 <= i < |order|
    ensures Complete(HexGridToLad(grid, order))
    ensures forall k :: 0 <= k < |NeighborsIn(order[i], grid)| ==> NeighborsIn(order[i], grid)[k] in order
    ensures Lists(HexGridToLad(grid, order))[i] == Indices(order, NeighborsIn(order[i], grid))
  {
  }

  /** `j` is among the indices of `ns` exactly when it indexes a member of
      `ns`. */
  lemma IndicesMember(order: seq<Cube>, ns: seq<Cube>, j: int)
    requires NoDup(order)
    requires forall k :: 0 <= k < |ns| ==> ns[k] in order
    ensures j in Indices(order, ns) <==> 0 <= j < |order| && order[j] in ns
  {
    var ids := Indices(order, ns);
    if j in ids {
      var k :| 0 <= k < |ids| && ids[k] == j;
      assert ns[k] in ns;
    }
    if 0 <= j < |order| && order[j] in ns {
      var k :| 0 <= k < |ns| && ns[k] == order[j];
      IndexOfAt(order, j);
      assert ids[k] == j;
    }
  }

  /** Adjacency in the lattice is symmetric. */
  lemma AdjacentSymmetric(a: Cube, b: Cube)
    ensures Adjacent(a, b) <==> Adjacent(b, a)
  {
  }

  /** The lists of `hex_grid_to_lad` describe an undirected simple graph:
      ids in range, never the cell's own index, no repeats, and `j` lists
      `i` exactly when `i` lists `j`; no cell has more than six. */
  lemma HexLadUndirected(grid: set<Cube>, order: seq<Cube>)
    requires Enumerates(order, grid)
    ensures Complete(HexGridToLad(grid, order))
    ensures Undirected(Lists(HexGridToLad(grid, order)))
    ensures forall i :: 0 <= i < |order| ==> |Lists(HexGridToLad(grid, order))[i]| <= 6
  {
    var lists := Lists(HexGridToLad(grid, order));
    forall i | 0 <= i < |lists|
      ensures NoDup(lists[i]) && |lists[i]| <= 6
    {
      var ns := NeighborsIn(order[i], grid);
      var ids := Indices(order, ns);
      assert lists[i] == ids;
      forall a, b | 0 <= a < b < |ids|
        ensures ids[a] != ids[b]
      {
        assert ns[a] != ns[b];
      }
    }
    forall i, j | 0 <= i < |lists| && j in lists[i]
      ensures 0 <= j < |lists| && j != i && i in lists[j]
    {
      HexLadAdjacency(grid, order, i, j);
      HexLadAdjacency(grid, order, j, i);
      AdjacentSymmetric(order[i], order[j]);
    }
  }

  /** `print_lad_data`: the cell count, then for each cell in list order
      its neighbour count and neighbour ids. */
  function PrintLadData(cells: seq<Cube>, neighbors: map<Cube, seq<int>>): (lines: seq<string>)
    requires forall i :: 0 <= i < |cells| ==> cells[i] in neighbors
    ensures |lines| == |cells| + 1
  {
    [NatToString(|cells|)] + seq(|cells|, i requires 0 <= i < |cells| => LadLine(neighbors[cells[i]]))
  }

  /** `print_lad_data_with_labels`: the same lines, each prefixed with the
      cell's index and a colon. */
  function PrintLadDataWithLabels(cells: seq<Cube>, neighbors: map<Cube, seq<int>>): (lines: seq<string>)
    requires forall i :: 0 <= i < |cells| ==> cells[i] in neighbors
    ensures |lines| == |cells| + 1
  {
    [NatToString(|cells|)]
      + seq(|cells|, i requires 0 <= i < |cells| => NatToString(i) + ": " + LadLine(neighbors[cells[i]]))
  }

  /** The full writer's line for cell `i` is the list's length followed by
      exactly the ids of the list of `cells[i]`. */
  lemma PrintLadDataLine(cells: seq<Cube>, neighbors: map<Cube, seq<int>>, i: int)
    requires forall i :: 0 <= i < |cells| ==> cells[i] in neighbors
    requires 0 <= i < |cells|
    ensures PrintLadData(cells, neighbors)[0] == NatToString(|cells|)
    ensures Split(PrintLadData(cells, neighbors)[i + 1])
         == [IntToString(|neighbors[cells[i]]|)] + ShowInts(neighbors[cells[i]])
  {
    LadLineTokens(neighbors[cells[i]]);
  }

  /** The labelled line of cell `i` is the label `i:` followed by the
      tokens of the unlabelled line. */
  lemma LabelledLine(cells: seq<Cube>, neighbors: map<Cube, seq<int>>, i: int)
    requires forall i :: 0 <= i < |cells| ==> cells[i] in neighbors
    requires 0 <= i < |cells|
    ensures PrintLadDataWithLabels(cells, neighbors)[0] == PrintLadData(cells, neighbors)[0]
    ensures Split(PrintLadDataWithLabels(cells, neighbors)[i + 1])
         == [NatToString(i) + ":"] + Split(PrintLadData(cells, neighbors)[i + 1])
  {
    var line := LadLine(neighbors[cells[i]]);
    assert PrintLadDataWithLabels(cells, neighbors)[i + 1] == NatToString(i) + ": " + line;
    assert PrintLadData(cells, neighbors)[i + 1] == line;
    assert IsToken(NatToString(i)) by {
      assert NatToString(i) == IntToString(i);
    }
    SplitLabel(NatToString(i), line);
  }

  /** A token, a colon and a space in front of a line add the token
      `mark:` in front of the line's tokens. */
  lemma SplitLabel(mark: string, line: string)
    requires IsToken(mark)
    ensures Split(mark + ": " + line) == [mark + ":"] + Split(line)
  {
    var tag := mark + ":";
    assert IsToken(tag) by {
      assert forall k :: 0 <= k < |mark| ==> tag[k] == mark[k];
    }
    assert mark + ": " + line == tag + (" " + line);
    SplitTokenThen(tag, " " + line);
    SplitSpacesBefore(" ", line);
  }

  /** `main(rings)` of the full writer: the grid of radius `rings - 1`,
      listed in `order`, printed with `print_lad_data`. */
  function HexLadMain(rings: int, order: seq<Cube>): (lines: seq<string>)
    requires Enumerates(order, GenerateHexGrid(rings - 1))
    ensures |lines| == |order| + 1 && lines[0] == NatToString(|order|)
  {
    var d := HexGridToLad(GenerateHexGrid(rings - 1), order);
    PrintLadData(d.cells, d.neighbors)
  }

  /** `main(rings)` lists `1 + 3 * rings * (rings - 1)` cells for
      `rings >= 1` and none otherwise. */
  lemma HexLadMainCount(rings: int, order: seq<Cube>)
    requires Enumerates(order, GenerateHexGrid(rings - 1))
    ensures |order| == if rings >= 1 then 1 + 3 * rings * (rings - 1) else 0
  {
    EnumerationSize(order, GenerateHexGrid(rings - 1));
    GridSize(rings - 1);
    if rings >= 1 {
      ShiftedCount(rings);
    }
  }

  lemma ShiftedCount(n: int)
    ensures GridCount(n - 1) == 1 + 3 * n * (n - 1)
  {
    assert 3 * (n - 1) * n == 3 * n * (n - 1);
  }
}
