/** `generate_candidate_graph`: the vertices `1..3L(L-1)+1`, and an edge
    between two of them whenever their difference is at least `d` (and, in
    the variant the LAD generator uses, at most 33). */
module CandidateGraph {
  import opened Edges
  import opened SageGraph

  /** The largest difference the bounded variant still joins. */
  const MaxGap := 33

  /** Whether two vertices `gap` apart are joined. */
  predicate Joined(gap: int, d: int, bounded: bool) {
    gap >= d && (!bounded || gap <= MaxGap)
  }

  /** The candidate edges over the vertices `1..n`. */
  function CandidateEdges(n: int, d: int, bounded: bool): set<Pair> {
    set i, j | 1 <= i < j <= n && Joined(j - i, d, bounded) :: (i, j)
  }

  function Abs(x: int): int {
    if x < 0 then -x else x
  }

  /** `generate_candidate_graph(layer, d)`, with `bounded` selecting the
      variant that also requires a difference of at most 33. The nested
      loops add `{i, j}` for every `i < j` whose difference qualifies. */
  method GenerateCandidateGraph(layer: int, d: int, bounded: bool) returns (g: Graph)
    ensures g.order == LayerCells(layer)
    ensures Valid(g)
    ensures forall i, j :: (i, j) in g.edges <==> 1 <= i < j <= g.order && Joined(j - i, d, bounded)
    ensures g.edges == CandidateEdges(g.order, d, bounded)
  {
    var n: int := LayerCells(layer);
    g := Graph(n, {});
    var i: int := 1;
    while i <= n
      invariant 1 <= i <= n + 1
      invariant g.order == n && Valid(g)
      invariant forall a, b :: (a, b) in g.edges <==> 1 <= a < b <= n && a < i && Joined(b - a, d, bounded)
    {
      var j: int := i + 1;
      while j <= n
        invariant i + 1 <= j <= n + 1
        invariant g.order == n && Valid(g)
        invariant forall a, b :: (a, b) in g.edges <==>
                    1 <= a < b <= n && (a < i || (a == i && b < j)) && Joined(b - a, d, bounded)
      {
        var gap := Abs(i - j);
        if gap >= d && (!bounded || gap <= MaxGap) {
          g := AddEdge(g, i, j);
        }
        j := j + 1;
      }
      i := i + 1;
    }
    forall e | e in CandidateEdges(n, d, bounded)
      ensures e in g.edges
    {
      CandidateEdgesIff(n, d, bounded, e.0, e.1);
    }
  }

  /** The method's edge set is the candidate edge set. */
  lemma CandidateEdgesIff(n: int, d: int, bounded: bool, i: int, j: int)
    ensures (i, j) in CandidateEdges(n, d, bounded) <==> 1 <= i < j <= n && Joined(j - i, d, bounded)
  {
  }

  /** Candidate graphs have no loops and stay within `1..n`. */
  lemma CandidateSimple(n: int, d: int, bounded: bool)
    ensures Simple(CandidateEdges(n, d, bounded), 1, n + 1)
  {
  }

  /** For two layers and distance 3 the graph has the vertices `1..7` and
      exactly ten edges. */
  lemma CandidateExample()
    ensures LayerCells(2) == 7
    ensures CandidateEdges(7, 3, false)
         == {(1, 4), (1, 5), (1, 6), (1, 7), (2, 5), (2, 6), (2, 7), (3, 6), (3, 7), (4, 7)}
  {
    var expected := {(1, 4), (1, 5), (1, 6), (1, 7), (2, 5), (2, 6), (2, 7), (3, 6), (3, 7), (4, 7)};
    forall e | e in CandidateEdges(7, 3, false)
      ensures e in expected
    {
      var i, j := e.0, e.1;
      assert 1 <= i < j <= 7 && j - i >= 3;
    }
  }

  /** The bounded variant has no edge once `d` exceeds 33. */
  lemma BoundedEdgeless(n: int, d: int)
    requires d > MaxGap
    ensures CandidateEdges(n, d, true) == {}
  {
  }
}
