/** Neighbour lists in the LAD layout shared by every writer and the reader:
    vertex `i` of `0..n-1` has a list of neighbour ids, written on one line
    as the list's length followed by the ids. */
module Lad {
  import opened Collections
  import opened Edges
  import opened Text

  /** One LAD vertex line, `f"{len(ids)} {' '.join(map(str, ids))}"`. */
  function LadLine(ids: seq<int>): string {
    IntToString(|ids|) + " " + Join(" ", ShowInts(ids))
  }

  /** A whole LAD text: the vertex count, then the line of list `i` for
      every `i` in order. */
  function LadText(lists: seq<seq<int>>): (lines: seq<string>)
    ensures |lines| == |lists| + 1
  {
    [NatToString(|lists|)] + seq(|lists|, i requires 0 <= i < |lists| => LadLine(lists[i]))
  }

  /** A LAD line splits into the count followed by exactly that many ids. */
  lemma LadLineTokens(ids: seq<int>)
    ensures Split(LadLine(ids)) == [IntToString(|ids|)] + ShowInts(ids)
  {
    SplitHeadJoin(IntToString(|ids|), ShowInts(ids));
  }

  /** Lists that describe an undirected simple graph on `0..|lists|-1`: no
      list repeats an id, every id is a vertex other than the list's owner,
      and `j` is listed by `i` exactly when `i` is listed by `j`. */
  predicate Undirected(lists: seq<seq<int>>) {
    && (forall i :: 0 <= i < |lists| ==> NoDup(lists[i]))
    && (forall i, j :: 0 <= i < |lists| && j in lists[i] ==> 0 <= j < |lists| && j != i && i in lists[j])
  }

  /** The sorted pairs `(min(i, j), max(i, j))` over every listed neighbour. */
  function ListEdges(lists: seq<seq<int>>): set<Pair> {
    set i, j | 0 <= i < |lists| && j in lists[i] :: Sorted(i, j)
  }

  /** The lists keyed by their position, the shape `read_lad_file` returns. */
  function AsMap(lists: seq<seq<int>>): (m: map<int, seq<int>>)
    ensures forall i :: i in m <==> 0 <= i < |lists|
    ensures forall i :: 0 <= i < |lists| ==> m[i] == lists[i]
  {
    map i | 0 <= i < |lists| :: lists[i]
  }

  /** The sorted pairs over every listed neighbour of a keyed neighbour map:
      the edge set `lad_to_gfu` builds. */
  function MapEdges(m: map<int, seq<int>>): set<Pair> {
    set u, v | u in m && v in m[u] :: Sorted(u, v)
  }

  lemma MapEdgesOfLists(lists: seq<seq<int>>)
    ensures MapEdges(AsMap(lists)) == ListEdges(lists)
  {
    var m := AsMap(lists);
    forall e | e in ListEdges(lists)
      ensures e in MapEdges(m)
    {
      var i, j :| 0 <= i < |lists| && j in lists[i] && e == Sorted(i, j);
      assert i in m && j in m[i];
    }
  }

  /** An edge of undirected lists joins two distinct vertices, smaller id
      first, and each end lists the other. */
  lemma ListEdgesMember(lists: seq<seq<int>>, a: int, b: int)
    requires Undirected(lists)
    ensures (a, b) in ListEdges(lists) <==> 0 <= a < b < |lists| && b in lists[a]
  {
    if (a, b) in ListEdges(lists) {
      var i, j :| 0 <= i < |lists| && j in lists[i] && (a, b) == Sorted(i, j);
      assert 0 <= j < |lists| && i in lists[j];
    }
    if 0 <= a < b < |lists| && b in lists[a] {
      assert Sorted(a, b) == (a, b);
    }
  }

  lemma ListEdgesSimple(lists: seq<seq<int>>)
    requires Undirected(lists)
    ensures Simple(ListEdges(lists), 0, |lists|)
  {
    forall e | e in ListEdges(lists)
      ensures 0 <= e.0 < e.1 < |lists|
    {
      ListEdgesMember(lists, e.0, e.1);
    }
  }

  /** In the edge set of undirected lists, the neighbours of `v` are exactly
      the ids `v` lists. */
  lemma ListNeighbors(lists: seq<seq<int>>, v: int)
    requires Undirected(lists) && 0 <= v < |lists|
    ensures Neighbors(ListEdges(lists), v) == Elems(lists[v])
  {
    var es := ListEdges(lists);
    forall w | w in Neighbors(es, v)
      ensures w in lists[v]
    {
      if (v, w) in es {
        ListEdgesMember(lists, v, w);
      } else {
        ListEdgesMember(lists, w, v);
      }
    }
    forall w | w in lists[v]
      ensures w in Neighbors(es, v)
    {
      assert Sorted(v, w) in es;
    }
  }

  /** The total length of the first `k` lists. */
  function LengthSum(lists: seq<seq<int>>, k: int): int
    requires k <= |lists|
    decreases k
  {
    if k <= 0 then 0 else LengthSum(lists, k - 1) + |lists[k - 1]|
  }

  /** Lists whose lengths are the degrees in `edges` have, up to any `k`,
      the same total length as the degree sum. */
  lemma {:induction false} LengthSumMatches(lists: seq<seq<int>>, edges: set<Pair>, k: int)
    requires 0 <= k <= |lists|
    requires forall v :: 0 <= v < |lists| ==> |Neighbors(edges, v)| == |lists[v]|
    ensures LengthSum(lists, k) == DegreeSum(edges, 0, k)
    decreases k
  {
    if k > 0 {
      LengthSumMatches(lists, edges, k - 1);
      assert |Neighbors(edges, k - 1)| == |lists[k - 1]|;
    }
  }

  lemma LengthSumIsDegreeSum(lists: seq<seq<int>>, k: int)
    requires Undirected(lists) && 0 <= k <= |lists|
    ensures LengthSum(lists, k) == DegreeSum(ListEdges(lists), 0, k)
  {
    forall v | 0 <= v < |lists|
      ensures |Neighbors(ListEdges(lists), v)| == |lists[v]|
    {
      ListDegree(lists, v);
    }
    LengthSumMatches(lists, ListEdges(lists), k);
  }

  /** The degree of `v` is the length of its list. */
  lemma ListDegree(lists: seq<seq<int>>, v: int)
    requires Undirected(lists) && 0 <= v < |lists|
    ensures |Neighbors(ListEdges(lists), v)| == |lists[v]|
  {
    ListNeighbors(lists, v);
    EnumerationSize(lists[v], Elems(lists[v]));
  }

  /** Writing every list in full writes every undirected edge twice: the
      list lengths add up to twice the number of edges. */
  lemma LengthSumIsTwiceEdges(lists: seq<seq<int>>)
    requires Undirected(lists)
    ensures LengthSum(lists, |lists|) == 2 * |ListEdges(lists)|
  {
    LengthSumIsDegreeSum(lists, |lists|);
    ListEdgesSimple(lists);
    Handshake(ListEdges(lists), 0, |lists|);
  }
}
