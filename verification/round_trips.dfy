/** What the LAD reader makes of the writers' output: the full writer's
    text reads back as its neighbour lists, the directed writer's text
    converts to the same GFU edge set, and the labelled text is rejected. */
module RoundTrips {
  import opened Collections
  import opened Edges
  import opened HexCube
  import opened Text
  import opened Results
  import opened Lad
  import opened HexLad
  import opened HexLadDirected
  import opened HexGfu
  import opened LadConverter

  /** `print_lad_data` writes the LAD text of the neighbour lists in cell
      order. */
  lemma PrintLadDataIsLadText(cells: seq<Cube>, neighbors: map<Cube, seq<int>>)
    requires forall i :: 0 <= i < |cells| ==> cells[i] in neighbors
    ensures Complete(LadData(cells, neighbors))
    ensures PrintLadData(cells, neighbors) == LadText(Lists(LadData(cells, neighbors)))
  {
    var lists := Lists(LadData(cells, neighbors));
    assert seq(|cells|, i requires 0 <= i < |cells| => LadLine(neighbors[cells[i]]))
        == seq(|lists|, i requires 0 <= i < |lists| => LadLine(lists[i]));
  }

  /** `print_lad_data_directed` writes the LAD text of the successor
      lists. */
  lemma DirectedIsLadText(cells: seq<Cube>, neighbors: map<Cube, seq<int>>)
    requires forall i :: 0 <= i < |cells| ==> cells[i] in neighbors
    ensures PrintLadDataDirected(cells, neighbors) == LadText(DirectedLists(cells, neighbors))
  {
  }

  /** Reading back what `print_lad_data` writes for the grid gives, at key
      `i`, the neighbour list of the `i`-th cell, and converting it to GFU
      gives the edge set `hex_grid_to_gfu` builds for the same order. */
  lemma HexLadReadsBack(grid: set<Cube>, order: seq<Cube>)
    requires Enumerates(order, grid)
    ensures var d := HexGridToLad(grid, order);
      && Complete(d)
      && ReadLad(PrintLadData(d.cells, d.neighbors)) == Ok(AsMap(Lists(d)))
      && (forall i :: 0 <= i < |order| ==> AsMap(Lists(d))[i] == d.neighbors[order[i]])
      && MapEdges(AsMap(Lists(d))) == HexGfuEdges(grid, order)
  {
    var d := HexGridToLad(grid, order);
    PrintLadDataIsLadText(d.cells, d.neighbors);
    assert LadData(d.cells, d.neighbors) == d;
    ReadLadText(Lists(d));
    MapEdgesOfLists(Lists(d));
    HexGfuMatchesLad(grid, order);
  }

  /** `main(rings)` of the full writer reads back as the neighbour lists of
      the grid of radius `rings - 1`. */
  lemma HexLadMainReadsBack(rings: int, order: seq<Cube>)
    requires Enumerates(order, GenerateHexGrid(rings - 1))
    ensures Complete(HexGridToLad(GenerateHexGrid(rings - 1), order))
    ensures ReadLad(HexLadMain(rings, order)) == Ok(AsMap(Lists(HexGridToLad(GenerateHexGrid(rings - 1), order))))
  {
    HexLadReadsBack(GenerateHexGrid(rings - 1), order);
  }

  /** Reading back the directed writer's text gives the successor lists,
      and converting it to GFU gives the same edge set as the full text:
      the edge set `hex_grid_to_gfu` builds. */
  lemma DirectedReadsBack(grid: set<Cube>, order: seq<Cube>)
    requires Enumerates(order, grid)
    ensures var d := HexGridToLad(grid, order);
      && ReadLad(PrintLadDataDirected(d.cells, d.neighbors)) == Ok(AsMap(DirectedLists(d.cells, d.neighbors)))
      && MapEdges(AsMap(DirectedLists(d.cells, d.neighbors))) == HexGfuEdges(grid, order)
  {
    var d := HexGridToLad(grid, order);
    var rows := DirectedLists(d.cells, d.neighbors);
    var lists := Lists(d);
    DirectedIsLadText(d.cells, d.neighbors);
    ReadLadText(rows);
    HexLadUndirected(grid, order);
    assert LadData(d.cells, d.neighbors) == d;
    forall i | 0 <= i < |lists|
      ensures forall j :: j in rows[i] <==> j in lists[i] && j > i
    {
      DirectedListsAreLater(d.cells, d.neighbors, i);
    }
    LaterListsSameEdges(lists, rows);
    MapEdgesOfLists(lists);
    HexGfuMatchesLad(grid, order);
  }

  /** `0:` and the like are not integers. */
  lemma LabelIsNotAnInteger(i: nat)
    ensures ParseInt(NatToString(i) + ":") == None
  {
    var t := NatToString(i) + ":";
    assert IsToken(t) by {
      assert forall k :: 0 <= k < |NatToString(i)| ==> t[k] == NatToString(i)[k];
    }
    StripToken(t);
    assert !IsDigit(t[|t| - 1]);
    assert |t[1..]| > 0 ==> t[1..][|t[1..]| - 1] == t[|t| - 1];
  }

  /** The first vertex line of the labelled text does not read: its
      first token is `0:`. */
  lemma LabelledFirstRow(cells: seq<Cube>, neighbors: map<Cube, seq<int>>)
    requires forall i :: 0 <= i < |cells| ==> cells[i] in neighbors
    requires |cells| > 0
    ensures ParseInt(PrintLadDataWithLabels(cells, neighbors)[0]) == Some(|cells|)
    ensures ReadRow(PrintLadDataWithLabels(cells, neighbors), 1) == Err(NotAnInteger(1))
  {
    var lines := PrintLadDataWithLabels(cells, neighbors);
    assert lines[0] == NatToString(|cells|);
    ParseIntNatural(|cells|);
    LabelledLine(cells, neighbors, 0);
    ReadRowTokens(lines, 1);
    LabelIsNotAnInteger(0);
  }

  /** The labelled text of a nonempty grid cannot be read back: its first
      vertex line starts with the token `0:`, which is not an integer. */
  lemma LabelledNotReadable(cells: seq<Cube>, neighbors: map<Cube, seq<int>>)
    requires forall i :: 0 <= i < |cells| ==> cells[i] in neighbors
    requires |cells| > 0
    ensures ReadLad(PrintLadDataWithLabels(cells, neighbors)) == Err(NotAnInteger(1))
  {
    LabelledFirstRow(cells, neighbors);
    FirstRowFails(PrintLadDataWithLabels(cells, neighbors), |cells|);
  }
}
