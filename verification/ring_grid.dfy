/** `generate_hexagonal_grid_graph(n)`: the honeycomb numbered ring by
    ring. The centre is vertex 1; ring `k` (for `k` from 1 to `n - 1`) holds
    the `6k` consecutive ids from `3k(k-1) + 2`. Each ring vertex is joined
    to the next one around the ring, and to one or two vertices of the ring
    inside it, chosen from its position by `i % k` and `i // k`. */
module RingGrid {
  import opened Collections
  import opened Edges
  import opened SageGraph

  /** `start_hex` of ring `k`: its first id, one past the last id of the
      ring inside, which holds `6(k - 1)` ids. */
  function RingStart(k: int): int
    requires k >= 1
  {
    if k == 1 then 2 else RingStart(k - 1) + 6 * (k - 1)
  }

  /** `last_inner_ring_begin_hex` while ring `k` is built: the centre for
      the first ring, else the first id of the ring inside. */
  function InnerStart(k: int): int
    requires k >= 1
  {
    if k == 1 then 1 else RingStart(k - 1)
  }

  /** The pairs one pass of the inner loop hands to `add_edge_if_valid`, in
      call order, for position `i` of a ring `ring` whose first id is
      `start` while the ring inside begins at `lastInner`: the next vertex
      around the ring, then one inner vertex when `i % ring == 0` (the
      centre for the first ring) and two otherwise, the second wrapping to
      the inner ring's first id at the last position. */
  function PositionCalls(ring: int, i: int, start: int, lastInner: int): (calls: seq<Pair>)
    requires ring >= 1
    ensures 2 <= |calls| <= 3
    ensures calls[0] == (start + i, if i != 6 * ring - 1 then start + i + 1 else start)
    ensures calls[1].0 == start + i && (|calls| == 3 ==> calls[2].0 == start + i)
    ensures ring == 1 ==> |calls| == 2 && calls[1].1 == 1
  {
    var size := 6 * ring;
    var hex := start + i;
    var around := (hex, if i != size - 1 then hex + 1 else start);
    if (hex - start) % ring == 0 then
      [around, (hex, if ring != 1 then lastInner + i / ring else 1)]
    else
      [around, (hex, lastInner + i / ring), (hex, if i != size - 1 then lastInner + i / ring + 1 else lastInner)]
  }

  /** The calls made at position `i` of ring `k`. */
  function Proposals(k: int, i: int): seq<Pair>
    requires k >= 1
  {
    PositionCalls(k, i, RingStart(k), InnerStart(k))
  }

  /** The edges added at position `i` of ring `k`. */
  function NewEdges(k: int, i: int): set<Pair>
    requires k >= 1 && i >= 0
  {
    set p | p in Proposals(k, i) :: Sorted(p.0, p.1)
  }

  /** The edges added for the first `i` positions of ring `k`. */
  function RingPrefix(k: int, i: int): set<Pair>
    requires k >= 1
  {
    set j, e | 0 <= j < i && e in NewEdges(k, j) :: e
  }

  /** The edges added by all `6k` positions of ring `k`. */
  function RingOf(k: int): set<Pair>
    requires k >= 1
  {
    RingPrefix(k, 6 * k)
  }

  /** The edges of all rings below `m`: the edge set of the graph with `m`
      rings. */
  function RingEdges(m: int): set<Pair> {
    set k, e | 1 <= k < m && e in RingOf(k) :: e
  }

  /** One more position adds its new edges to the ring's prefix. */
  lemma PrefixStep(k: int, i: int)
    requires k >= 1 && i >= 0
    ensures RingPrefix(k, i + 1) == RingPrefix(k, i) + NewEdges(k, i)
  {
    forall e | e in RingPrefix(k, i + 1)
      ensures e in RingPrefix(k, i) + NewEdges(k, i)
    {
      var j :| 0 <= j < i + 1 && e in NewEdges(k, j);
    }
  }

  /** An edge of `m + 1` rings comes from the rings below `m` or from ring `m`. */
  lemma EdgesStepSplit(m: int)
    requires m >= 1
    ensures forall e :: e in RingEdges(m + 1) ==> e in RingEdges(m) || e in RingOf(m)
  {
    forall e | e in RingEdges(m + 1)
      ensures e in RingEdges(m) || e in RingOf(m)
    {
      var k :| 1 <= k < m + 1 && e in RingOf(k);
      if k < m {
        assert e in RingEdges(m);
      }
    }
  }

  /** The graph of `m + 1` rings keeps the edges of `m` rings. */
  lemma EdgesStepKeeps(m: int)
    requires m >= 1
    ensures RingEdges(m) <= RingEdges(m + 1) && RingOf(m) <= RingEdges(m + 1)
  {
    forall e | e in RingEdges(m)
      ensures e in RingEdges(m + 1)
    {
      var k :| 1 <= k < m && e in RingOf(k);
    }
  }

  /** One more ring adds its edges to the graph. */
  lemma EdgesStep(m: int)
    requires m >= 1
    ensures RingEdges(m + 1) == RingEdges(m) + RingOf(m)
  {
    EdgesStepSplit(m);
    EdgesStepKeeps(m);
  }

  /** The centre alone has no edges. */
  lemma NoRings(m: int)
    requires m <= 1
    ensures RingEdges(m) == {}
  {
  }

  // ------------------------------------------------------------ arithmetic

  /** Ring `k` begins at `3k(k - 1) + 2`. */
  lemma {:induction false} RingStartClosed(k: int)
    requires k >= 1
    ensures RingStart(k) == 3 * k * (k - 1) + 2
  {
    if k > 1 {
      RingStartClosed(k - 1);
      assert 3 * k * (k - 1) == 3 * (k - 1) * (k - 2) + 6 * (k - 1);
    }
  }

  /** The rings below `n` fill the ids `2..LayerCells(n)`. */
  lemma LayerEnd(n: int)
    requires n >= 1
    ensures LayerCells(n) == RingStart(n) - 1
  {
    RingStartClosed(n);
  }

  lemma {:induction false} RingStartMono(j: int, k: int)
    requires 1 <= j <= k
    ensures RingStart(j) <= RingStart(k)
    decreases k - j
  {
    if j < k {
      RingStartMono(j, k - 1);
    }
  }

  /** A position of ring `k` has `i / k` between 0 and 5. */
  lemma SideIndex(k: int, i: int)
    requires k >= 1 && 0 <= i < 6 * k
    ensures 0 <= i / k <= 5
  {
  }

  lemma RingStartAtLeastTwo(k: int)
    requires k >= 1
    ensures RingStart(k) >= 2
  {
    RingStartMono(1, k);
  }

  /** Beyond the first ring, the inner targets of position `i` lie in the
      ring inside, below the first id of ring `k`. */
  lemma TargetsBelow(k: int, i: int)
    requires k >= 2 && 0 <= i < 6 * k
    ensures InnerStart(k) >= 2
    ensures InnerStart(k) + i / k + (if i % k == 0 || i == 6 * k - 1 then 0 else 1) < RingStart(k)
  {
    SideIndex(k, i);
    RingStartAtLeastTwo(k - 1);
    if k == 2 && i % k != 0 && i != 6 * k - 1 {
      assert i / k <= 4;
    }
  }

  /** The shape of the proposals at position `i` of ring `k`: first the
      pair toward the next vertex around the ring, then one or two pairs
      toward distinct vertices below the ring. */
  lemma ProposalShape(k: int, i: int)
    requires k >= 1 && 0 <= i < 6 * k
    ensures var ps := Proposals(k, i);
            && |ps| == (if i % k == 0 then 2 else 3)
            && ps[0] == (RingStart(k) + i, if i != 6 * k - 1 then RingStart(k) + i + 1 else RingStart(k))
            && (forall j :: 1 <= j < |ps| ==> ps[j].0 == RingStart(k) + i && 1 <= ps[j].1 < RingStart(k))
            && (|ps| == 3 ==> ps[1].1 != ps[2].1)
  {
    var ps := Proposals(k, i);
    var hex := RingStart(k) + i;
    assert (hex - RingStart(k)) % k == i % k;
    if k == 1 {
      assert RingStart(k) == 2;
      assert ps[1] == (hex, 1);
    } else {
      TargetsBelow(k, i);
      SideIndex(k, i);
      assert ps[1] == (hex, InnerStart(k) + i / k);
      assert 1 <= ps[1].1 < RingStart(k);
      if i % k != 0 {
        assert ps[2] == (hex, if i != 6 * k - 1 then InnerStart(k) + i / k + 1 else InnerStart(k));
        assert 1 <= ps[2].1 < RingStart(k);
      }
    }
  }

  /** Every proposed pair joins two distinct vertices of the graph with `n`
      rings, so `add_edge_if_valid` never drops one, and never a loop. */
  lemma ProposalsValid(n: int, k: int, i: int)
    requires 1 <= k < n && 0 <= i < 6 * k
    ensures var ps := Proposals(k, i);
            forall j :: 0 <= j < |ps| ==> 1 <= ps[j].0 <= LayerCells(n) && 1 <= ps[j].1 <= LayerCells(n) && ps[j].0 != ps[j].1
  {
    ProposalShape(k, i);
    RingStartMono(k + 1, n);
    RingStartAtLeastTwo(k);
    LayerEnd(n);
  }

  // ------------------------------------------------------------ the method

  /** `add_edge_if_valid(a, b)`: the edge is added only when both ends are
      vertices of the graph. */
  function AddEdgeIfValid(g: Graph, a: int, b: int): (h: Graph)
    requires 1 <= a <= g.order && 1 <= b <= g.order ==> a != b
    ensures h.order == g.order
    ensures Valid(g) ==> Valid(h)
    ensures 1 <= a <= g.order && 1 <= b <= g.order ==> h.edges == g.edges + {Sorted(a, b)}
    ensures !(1 <= a <= g.order && 1 <= b <= g.order) ==> h == g
  {
    if 1 <= a <= g.order && 1 <= b <= g.order then AddEdge(g, a, b) else g
  }

  /** Both ends of every pair are vertices `1..order`. */
  predicate InRange(calls: seq<Pair>, order: int) {
    forall j :: 0 <= j < |calls| ==> 1 <= calls[j].0 <= order && 1 <= calls[j].1 <= order
  }

  /** `add_edge_if_valid` applied to each pair of `calls` in turn. When
      every pair joins two distinct vertices of `g`, the edges added are
      exactly the sorted pairs. */
  function AddEach(g: Graph, calls: seq<Pair>): (h: Graph)
    requires forall j :: 0 <= j < |calls| ==> (1 <= calls[j].0 <= g.order && 1 <= calls[j].1 <= g.order ==> calls[j].0 != calls[j].1)
    ensures h.order == g.order
    ensures InRange(calls, g.order) ==> h.edges == g.edges + set p | p in calls :: Sorted(p.0, p.1)
    decreases |calls|
  {
    if |calls| == 0 then g
    else
      var g1 := AddEdgeIfValid(g, calls[0].0, calls[0].1);
      var h := AddEach(g1, calls[1..]);
      ghost var rest := set p | p in calls[1..] :: Sorted(p.0, p.1);
      assert (set p | p in calls :: Sorted(p.0, p.1)) == {Sorted(calls[0].0, calls[0].1)} + rest by {
        assert forall p :: p in calls <==> p == calls[0] || p in calls[1..];
      }
      assert InRange(calls, g.order) ==> InRange(calls[1..], g1.order) && g1.edges == g.edges + {Sorted(calls[0].0, calls[0].1)};
      h
  }

  /** The edges of one position join two distinct vertices of the graph
      with `n` rings, smaller first. */
  lemma NewEdgesSimple(n: int, k: int, i: int)
    requires 1 <= k < n && 0 <= i < 6 * k
    ensures Simple(NewEdges(k, i), 1, LayerCells(n) + 1)
  {
    ProposalsValid(n, k, i);
    var ps := Proposals(k, i);
    forall e | e in NewEdges(k, i)
      ensures 1 <= e.0 < e.1 < LayerCells(n) + 1
    {
      var j :| 0 <= j < |ps| && e == Sorted(ps[j].0, ps[j].1);
    }
  }

  lemma RingPrefixSimple(n: int, k: int, i: int)
    requires 1 <= k < n && 0 <= i <= 6 * k
    ensures Simple(RingPrefix(k, i), 1, LayerCells(n) + 1)
  {
    forall e | e in RingPrefix(k, i)
      ensures 1 <= e.0 < e.1 < LayerCells(n) + 1
    {
      var j :| 0 <= j < i && e in NewEdges(k, j);
      NewEdgesSimple(n, k, j);
    }
  }

  /** The ring-indexed grid is a simple graph on `1..LayerCells(n)`. */
  lemma RingEdgesSimple(n: int)
    ensures Simple(RingEdges(n), 1, LayerCells(n) + 1)
  {
    forall e | e in RingEdges(n)
      ensures 1 <= e.0 < e.1 < LayerCells(n) + 1
    {
      var k :| 1 <= k < n && e in RingOf(k);
      RingPrefixSimple(n, k, 6 * k);
    }
  }

  /** The calls of position `i` of ring `ring` are all valid and add
      exactly the position's new edges. */
  lemma PositionStep(g: Graph, n: int, ring: int, i: int, calls: seq<Pair>)
    requires 1 <= ring < n && 0 <= i < 6 * ring
    requires calls == PositionCalls(ring, i, RingStart(ring), InnerStart(ring))
    requires g.order == LayerCells(n)
    ensures forall j :: 0 <= j < |calls| ==> 1 <= calls[j].0 <= g.order && 1 <= calls[j].1 <= g.order && calls[j].0 != calls[j].1
    ensures AddEach(g, calls).order == g.order
    ensures AddEach(g, calls).edges == g.edges + NewEdges(ring, i)
  {
    ProposalsValid(n, ring, i);
    assert calls == Proposals(ring, i);
  }

  /** The inner loop of `generate_hexagonal_grid_graph`: every position of
      ring `ring`, whose first id is `start` while the ring inside begins at
      `lastInner`, makes its calls in turn; the ring's edges are added and
      nothing else. */
  method AddRing(g: Graph, n: int, ring: int, start: int, lastInner: int) returns (h: Graph)
    requires 1 <= ring < n
    requires start == RingStart(ring) && lastInner == InnerStart(ring)
    requires g.order == LayerCells(n)
    ensures h.order == g.order
    ensures h.edges == g.edges + RingOf(ring)
  {
    h := g;
    var size := 6 * ring;
    var i := 0;
    assert RingPrefix(ring, 0) == {};
    while i < size
      invariant 0 <= i <= size
      invariant h.order == g.order && h.edges == g.edges + RingPrefix(ring, i)
    {
      var calls := PositionCalls(ring, i, start, lastInner);
      PositionStep(h, n, ring, i, calls);
      h := AddEach(h, calls);
      PrefixStep(ring, i);
      i := i + 1;
    }
  }

  /** `generate_hexagonal_grid_graph(n)`: the vertices `1..1+3n(n-1)` and
      the edges every ring position proposes. */
  method GenerateHexagonalGridGraph(n: int) returns (g: Graph)
    ensures g.order == LayerCells(n)
    ensures Valid(g)
    ensures g.edges == RingEdges(n)
  {
    var total := LayerCells(n);
    g := Graph(total, {});
    var current := 1;
    var lastInner := 1;
    NoRings(1);
    if n >= 1 {
      var ring := 1;
      while ring < n
        invariant 1 <= ring <= n
        invariant current == RingStart(ring) - 1 && lastInner == InnerStart(ring)
        invariant g.order == total && g.edges == RingEdges(ring)
      {
        var start := current + 1;
        var size := 6 * ring;
        g := AddRing(g, n, ring, start, lastInner);
        EdgesStep(ring);
        current := start + size - 1;
        lastInner := start;
        ring := ring + 1;
      }
    } else {
      NoRings(n);
    }
    RingEdgesSimple(n);
  }
}
