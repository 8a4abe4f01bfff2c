/** `print_lad_data_directed`: every vertex prints only the neighbours whose
    sorted index pair has not been printed yet, so each undirected edge is
    printed once, on the line of the endpoint listed first. */
module HexLadDirected {
  import opened Collections
  import opened Edges
  import opened HexCube
  import opened Text
  import opened Lad
  import opened HexLad

  /** The ids of `nbs` above `h`, in their order in `nbs`. */
  function Later(nbs: seq<int>, h: int): (r: seq<int>)
    ensures forall j :: j in r <==> j in nbs && j > h
    ensures NoDup(nbs) ==> NoDup(r)
  {
    if |nbs| == 0 then []
    else
      var rest := Later(nbs[1..], h);
      assert NoDup(nbs) ==> NoDup(nbs[1..]) && nbs[0] !in nbs[1..];
      if nbs[0] > h then [nbs[0]] + rest else rest
  }

  /** `Later` keeps the relative order of the ids it keeps: of two kept ids,
      the one listed first in `nbs` comes first. */
  lemma {:induction false} LaterKeepsOrder(nbs: seq<int>, h: int, p: int, q: int)
    requires NoDup(nbs) && 0 <= p < q < |Later(nbs, h)|
    ensures IndexOf(nbs, Later(nbs, h)[p]) < IndexOf(nbs, Later(nbs, h)[q])
    decreases |nbs|
  {
    var r, rest := Later(nbs, h), Later(nbs[1..], h);
    assert NoDup(nbs[1..]) && nbs[0] !in nbs[1..];
    if nbs[0] > h && p == 0 {
      IndexOfAt(nbs, 0);
      assert r[q] == rest[q - 1] && r[q] != nbs[0];
    } else {
      var shift := if nbs[0] > h then 1 else 0;
      var p', q' := p - shift, q - shift;
      assert r[p] == rest[p'] && r[q] == rest[q'];
      LaterKeepsOrder(nbs[1..], h, p', q');
      IndexOfTail(nbs, rest[p']);
      IndexOfTail(nbs, rest[q']);
    }
  }

  /** In a list without repeats, an id after the head sits one place
      further in the list than in its tail. */
  lemma IndexOfTail(s: seq<int>, x: int)
    requires NoDup(s) && |s| > 0 && x in s[1..]
    ensures IndexOf(s, x) == IndexOf(s[1..], x) + 1
  {
    var i := IndexOf(s[1..], x);
    assert s[i + 1] == x;
    IndexOfAt(s, i + 1);
  }

  /** The successor lists the directed writer should produce from position
      `k` on: for each vertex, its later neighbours. */
  function LaterRows(lists: seq<seq<int>>, k: nat): (rows: seq<seq<int>>)
    ensures |rows| == if k <= |lists| then |lists| - k else 0
    decreases |lists| - k
  {
    if k >= |lists| then [] else [Later(lists[k], k)] + LaterRows(lists, k + 1)
  }

  lemma {:induction false} LaterRowsAt(lists: seq<seq<int>>, k: nat, i: int)
    requires k <= i < |lists|
    ensures LaterRows(lists, k)[i - k] == Later(lists[i], i)
    decreases i - k
  {
    if k < i {
      LaterRowsAt(lists, k + 1, i);
    }
  }

  /** The pairs `(h, j)` for the ids `j` of `nbs` above `h`. */
  function PairsAbove(h: int, nbs: seq<int>): set<Pair> {
    set j | j in nbs && j > h :: (h, j)
  }

  /** The inner loop of `print_lad_data_directed` for the vertex whose index
      is `h` and whose neighbour list is `nbs`: the successors collected and
      the `printed_edges` set afterwards. A neighbour is kept exactly when its
      sorted pair with `h` was not printed before, and the set grows by the
      pairs of the kept neighbours. */
  function Successors(h: int, nbs: seq<int>, printed: set<Pair>): (r: (seq<int>, set<Pair>))
    ensures forall j :: j in r.0 ==> j in nbs && Sorted(h, j) !in printed
    ensures forall j :: j in nbs ==> Sorted(h, j) in r.1
    ensures r.1 == printed + set j | j in r.0 :: Sorted(h, j)
  {
    if |nbs| == 0 then ([], printed)
    else
      var e := Sorted(h, nbs[0]);
      if e in printed then Successors(h, nbs[1..], printed)
      else
        var rest := Successors(h, nbs[1..], printed + {e});
        ([nbs[0]] + rest.0, rest.1)
  }

  /** The rows printed for the cells from position `k` on, given the
      `printed_edges` set reached before position `k`. */
  function DirectedRows(cells: seq<Cube>, neighbors: map<Cube, seq<int>>, k: nat, printed: set<Pair>): (rows: seq<seq<int>>)
    requires k <= |cells|
    requires forall i :: 0 <= i < |cells| ==> cells[i] in neighbors
    ensures |rows| == |cells| - k
    decreases |cells| - k
  {
    if k == |cells| then []
    else
      var r := Successors(IndexOf(cells, cells[k]), neighbors[cells[k]], printed);
      [r.0] + DirectedRows(cells, neighbors, k + 1, r.1)
  }

  /** The successor lists of every cell; `printed_edges` starts empty on
      every call, so they depend on the arguments alone. */
  function DirectedLists(cells: seq<Cube>, neighbors: map<Cube, seq<int>>): (rows: seq<seq<int>>)
    requires forall i :: 0 <= i < |cells| ==> cells[i] in neighbors
    ensures |rows| == |cells|
  {
    DirectedRows(cells, neighbors, 0, {})
  }

  /** `print_lad_data_directed`: the cell count, then one line per cell with
      its successor count and successors. */
  function PrintLadDataDirected(cells: seq<Cube>, neighbors: map<Cube, seq<int>>): (lines: seq<string>)
    requires forall i :: 0 <= i < |cells| ==> cells[i] in neighbors
    ensures |lines| == |cells| + 1 && lines[0] == NatToString(|cells|)
  {
    var rows := DirectedLists(cells, neighbors);
    [NatToString(|cells|)] + seq(|cells|, i requires 0 <= i < |cells| => LadLine(rows[i]))
  }

  /** Each directed line is its successor count followed by exactly that
      many successor ids. */
  lemma DirectedLineTokens(cells: seq<Cube>, neighbors: map<Cube, seq<int>>, i: int)
    requires forall i :: 0 <= i < |cells| ==> cells[i] in neighbors
    requires 0 <= i < |cells|
    ensures Split(PrintLadDataDirected(cells, neighbors)[i + 1])
         == [IntToString(|DirectedLists(cells, neighbors)[i]|)] + ShowInts(DirectedLists(cells, neighbors)[i])
  {
    LadLineTokens(DirectedLists(cells, neighbors)[i]);
  }

  // ---------------------------------------------------------------- proofs

  /** With the pairs toward earlier ids already printed and none toward
      later ids, the inner loop keeps exactly the later neighbours, in
      order, and prints their pairs. */
  lemma {:induction false} SuccessorsAreLater(h: int, nbs: seq<int>, printed: set<Pair>)
    requires NoDup(nbs) && h !in nbs
    requires forall j :: j in nbs ==> (Sorted(h, j) in printed <==> j < h)
    ensures Successors(h, nbs, printed).0 == Later(nbs, h)
    ensures Successors(h, nbs, printed).1 == printed + PairsAbove(h, nbs)
    decreases |nbs|
  {
    if |nbs| == 0 {
      assert PairsAbove(h, nbs) == {};
    } else {
      var j0, rest := nbs[0], nbs[1..];
      assert forall j :: j in rest ==> j in nbs && j != j0;
      assert nbs == [j0] + rest;
      if j0 < h {
        SuccessorsAreLater(h, rest, printed);
        assert PairsAbove(h, nbs) == PairsAbove(h, rest);
      } else {
        var e := (h, j0);
        assert Sorted(h, j0) == e;
        forall j | j in rest
          ensures Sorted(h, j) in printed + {e} <==> j < h
        {
          assert Sorted(h, j) != e;
        }
        SuccessorsAreLater(h, rest, printed + {e});
        assert PairsAbove(h, nbs) == {e} + PairsAbove(h, rest);
      }
    }
  }

  /** The edges whose smaller end is below `k`. */
  function EdgesBelow(edges: set<Pair>, k: int): set<Pair> {
    set e | e in edges && e.0 < k
  }

  /** Adding the pairs of vertex `k` toward its later neighbours to the
      edges below `k` gives the edges below `k + 1`. */
  lemma EdgesBelowStep(lists: seq<seq<int>>, k: int)
    requires Undirected(lists) && 0 <= k < |lists|
    ensures EdgesBelow(ListEdges(lists), k) + PairsAbove(k, lists[k]) == EdgesBelow(ListEdges(lists), k + 1)
  {
    var es := ListEdges(lists);
    forall e | e in PairsAbove(k, lists[k])
      ensures e in EdgesBelow(es, k + 1)
    {
      ListEdgesMember(lists, e.0, e.1);
    }
    forall e | e in EdgesBelow(es, k + 1)
      ensures e in EdgesBelow(es, k) + PairsAbove(k, lists[k])
    {
      ListEdgesMember(lists, e.0, e.1);
    }
  }

  /** The pairs of vertex `k` are printed already exactly toward earlier
      neighbours. */
  lemma PrintedBefore(lists: seq<seq<int>>, k: int, j: int)
    requires Undirected(lists) && 0 <= k < |lists| && j in lists[k]
    ensures Sorted(k, j) in EdgesBelow(ListEdges(lists), k) <==> j < k
  {
    assert Sorted(k, j) in ListEdges(lists);
  }

  lemma {:induction false} RowsAreLater(cells: seq<Cube>, neighbors: map<Cube, seq<int>>, lists: seq<seq<int>>, k: nat)
    requires NoDup(cells) && Complete(LadData(cells, neighbors))
    requires lists == Lists(LadData(cells, neighbors)) && Undirected(lists)
    requires k <= |cells|
    ensures DirectedRows(cells, neighbors, k, EdgesBelow(ListEdges(lists), k)) == LaterRows(lists, k)
    decreases |cells| - k
  {
    if k < |cells| {
      var printed := EdgesBelow(ListEdges(lists), k);
      IndexOfAt(cells, k);
      assert lists[k] == neighbors[cells[k]];
      forall j | j in lists[k]
        ensures Sorted(k, j) in printed <==> j < k
      {
        PrintedBefore(lists, k, j);
      }
      SuccessorsAreLater(k, lists[k], printed);
      EdgesBelowStep(lists, k);
      RowsAreLater(cells, neighbors, lists, k + 1);
    }
  }

  /** The successors of cell `i` are the neighbours with a larger index, in
      the order of its neighbour list. */
  lemma DirectedListsAreLater(cells: seq<Cube>, neighbors: map<Cube, seq<int>>, i: int)
    requires NoDup(cells) && Complete(LadData(cells, neighbors))
    requires Undirected(Lists(LadData(cells, neighbors)))
    requires 0 <= i < |cells|
    ensures DirectedLists(cells, neighbors)[i] == Later(neighbors[cells[i]], i)
  {
    var lists := Lists(LadData(cells, neighbors));
    ListEdgesSimple(lists);
    assert EdgesBelow(ListEdges(lists), 0) == {};
    RowsAreLater(cells, neighbors, lists, 0);
    LaterRowsAt(lists, 0, i);
  }

  /** An edge `{i, j}` with `i < j` is printed on the line of `i`, once, and
      never on the line of `j`. */
  lemma DirectedEdgeOnce(cells: seq<Cube>, neighbors: map<Cube, seq<int>>, i: int, j: int)
    requires NoDup(cells) && Complete(LadData(cells, neighbors))
    requires Undirected(Lists(LadData(cells, neighbors)))
    requires 0 <= i < j < |cells|
    ensures j in DirectedLists(cells, neighbors)[i] <==> (i, j) in ListEdges(Lists(LadData(cells, neighbors)))
    ensures NoDup(DirectedLists(cells, neighbors)[i])
    ensures i !in DirectedLists(cells, neighbors)[j]
  {
    var lists := Lists(LadData(cells, neighbors));
    DirectedListsAreLater(cells, neighbors, i);
    DirectedListsAreLater(cells, neighbors, j);
    ListEdgesMember(lists, i, j);
  }

  /** The successors of `v` are the larger ends of the edges whose smaller
      end is `v`. */
  lemma LaterIsSide(lists: seq<seq<int>>, v: int)
    requires Undirected(lists) && 0 <= v < |lists|
    ensures Elems(Later(lists[v], v)) == Side(ListEdges(lists), v, true)
  {
    var es := ListEdges(lists);
    forall w | w in Side(es, v, true)
      ensures w in Later(lists[v], v)
    {
      var e :| e in es && End(e, true) == v && Other(e, true) == w;
      ListEdgesMember(lists, e.0, e.1);
    }
    forall w | w in Later(lists[v], v)
      ensures w in Side(es, v, true)
    {
      ListEdgesMember(lists, v, w);
      var e := (v, w);
      assert e in es && End(e, true) == v && Other(e, true) == w;
    }
  }

  lemma {:induction false} DirectedSumIsSideSum(cells: seq<Cube>, neighbors: map<Cube, seq<int>>, k: int)
    requires NoDup(cells) && Complete(LadData(cells, neighbors))
    requires Undirected(Lists(LadData(cells, neighbors)))
    requires 0 <= k <= |cells|
    ensures LengthSum(DirectedLists(cells, neighbors), k)
         == SideSum(ListEdges(Lists(LadData(cells, neighbors))), 0, k, true)
    decreases k
  {
    if k > 0 {
      var lists := Lists(LadData(cells, neighbors));
      var rows := DirectedLists(cells, neighbors);
      DirectedSumIsSideSum(cells, neighbors, k - 1);
      DirectedListsAreLater(cells, neighbors, k - 1);
      LaterIsSide(lists, k - 1);
      EnumerationSize(rows[k - 1], Elems(rows[k - 1]));
      assert LengthSum(rows, k) == LengthSum(rows, k - 1) + |rows[k - 1]|;
    }
  }

  /** The successor counts add up to the number of undirected edges, which
      is half the total length of the full neighbour lists. */
  lemma DirectedCountsHalve(cells: seq<Cube>, neighbors: map<Cube, seq<int>>)
    requires NoDup(cells) && Complete(LadData(cells, neighbors))
    requires Undirected(Lists(LadData(cells, neighbors)))
    ensures LengthSum(DirectedLists(cells, neighbors), |cells|) == |ListEdges(Lists(LadData(cells, neighbors)))|
    ensures 2 * LengthSum(DirectedLists(cells, neighbors), |cells|)
         == LengthSum(Lists(LadData(cells, neighbors)), |cells|)
  {
    var lists := Lists(LadData(cells, neighbors));
    DirectedSumIsSideSum(cells, neighbors, |cells|);
    ListEdgesSimple(lists);
    SideSumIsEdgeCount(ListEdges(lists), 0, |cells|, true);
    LengthSumIsTwiceEdges(lists);
  }

  /** On the hexagon grid: index `j > i` is a successor of cell `i` exactly
      when the two cells are adjacent, and `i` is never a successor of `j`. */
  lemma HexDirectedEdges(grid: set<Cube>, order: seq<Cube>, i: int, j: int)
    requires Enumerates(order, grid) && 0 <= i < j < |order|
    ensures Complete(HexGridToLad(grid, order))
    ensures j in DirectedLists(order, HexGridToLad(grid, order).neighbors)[i] <==> Adjacent(order[i], order[j])
    ensures i !in DirectedLists(order, HexGridToLad(grid, order).neighbors)[j]
  {
    var d := HexGridToLad(grid, order);
    HexLadUndirected(grid, order);
    assert LadData(order, d.neighbors) == d;
    DirectedEdgeOnce(order, d.neighbors, i, j);
    ListEdgesMember(Lists(d), i, j);
    HexLadAdjacency(grid, order, i, j);
  }
}
