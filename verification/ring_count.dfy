/** How many edges `generate_hexagonal_grid_graph(n)` adds: every call of
    `add_edge_if_valid` adds an edge no earlier call added, so ring `k`
    contributes `18k - 6` edges and the whole graph `3(n - 1)(3n - 2)`. */
module RingCount {
  import opened Edges
  import opened SageGraph
  import opened RingGrid

  /** `a / k` is `q` whenever `a = q * k + r` with `0 <= r < k`. */
  lemma DivUnique(a: int, k: int, q: int, r: int)
    requires k >= 1 && 0 <= r < k && a == q * k + r
    ensures a / k == q && a % k == r
  {
    var d := a / k - q;
    assert k * d == r - a % k;
    assert d >= 1 ==> k * d >= k;
    assert d <= -1 ==> k * d <= -k;
  }

  /** Whether position `i` is a multiple of `k`, counted down by `k`. */
  predicate IsCorner(k: int, i: nat)
    requires k >= 1
    decreases i
  {
    if i < k then i == 0 else IsCorner(k, i - k)
  }

  /** `IsCorner` is `i % k == 0`. */
  lemma {:induction false} CornerIsMod(k: int, i: nat)
    requires k >= 1
    ensures IsCorner(k, i) <==> i % k == 0
    decreases i
  {
    if i < k {
      DivUnique(i, k, 0, i);
    } else {
      CornerIsMod(k, i - k);
      DivUnique(i, k, (i - k) / k + 1, (i - k) % k);
    }
  }

  /** How many of `0, 1, ..., i - 1` are multiples of `k`. */
  function MultiplesBelow(k: int, i: nat): nat
    requires k >= 1
  {
    if i == 0 then 0 else MultiplesBelow(k, i - 1) + (if IsCorner(k, i - 1) then 1 else 0)
  }

  /** Position `i` is one more multiple of `k` exactly when it is a
      corner. */
  lemma MultiplesStep(k: int, i: nat)
    requires k >= 1
    ensures MultiplesBelow(k, i + 1) == MultiplesBelow(k, i) + (if IsCorner(k, i) then 1 else 0)
  {
  }

  /** There are `(i + k - 1) / k` multiples of `k` below `i`. */
  lemma {:induction false} MultiplesBelowValue(k: int, i: nat)
    requires k >= 1
    ensures MultiplesBelow(k, i) == (i + k - 1) / k
  {
    if i == 0 {
      DivUnique(k - 1, k, 0, k - 1);
    } else {
      var j := i - 1;
      MultiplesBelowValue(k, j);
      CornerIsMod(k, j);
      var q, r := j / k, j % k;
      if r == 0 {
        DivUnique(j + k - 1, k, q, k - 1);
        DivUnique(j + k, k, q + 1, 0);
      } else {
        DivUnique(j + k - 1, k, q + 1, r - 1);
        DivUnique(j + k, k, q + 1, r);
      }
    }
  }

  /** Six multiples of `k` lie below `6k`: one per side of the ring. */
  lemma SixCorners(k: int)
    requires k >= 1
    ensures MultiplesBelow(k, 6 * k) == 6
  {
    MultiplesBelowValue(k, 6 * k);
    DivUnique(7 * k - 1, k, 6, k - 1);
  }

  /** The pair toward the next vertex around ring `k` from position `i`. */
  function AroundEdge(k: int, i: int): Pair
    requires k >= 1
  {
    var hex := RingStart(k) + i;
    Sorted(hex, if i != 6 * k - 1 then hex + 1 else RingStart(k))
  }

  /** The pairs of one position, as edges: a first pair `a` with both ends
      at least `s`, then one or two pairs from `hex` down to vertices below
      `s`, give only `a` and edges whose larger end is `hex`. */
  lemma PositionEdges(ps: seq<Pair>, s: int, hex: int, a: Pair)
    requires |ps| == 2 || |ps| == 3
    requires Sorted(ps[0].0, ps[0].1) == a && s <= a.0 && s <= hex
    requires forall j :: 1 <= j < |ps| ==> ps[j].0 == hex && 1 <= ps[j].1 < s
    ensures forall e :: e in (set p | p in ps :: Sorted(p.0, p.1)) ==> e == a || (e.1 == hex && 1 <= e.0 < s)
  {
    forall e | e in (set p | p in ps :: Sorted(p.0, p.1))
      ensures e == a || (e.1 == hex && 1 <= e.0 < s)
    {
      var j :| 0 <= j < |ps| && e == Sorted(ps[j].0, ps[j].1);
    }
  }

  /** The same pairs give as many distinct edges as there are pairs when
      the two downward pairs reach different vertices. */
  lemma PositionEdgeCount(ps: seq<Pair>, s: int, hex: int, a: Pair)
    requires |ps| == 2 || |ps| == 3
    requires Sorted(ps[0].0, ps[0].1) == a && s <= a.0 && s <= hex
    requires forall j :: 1 <= j < |ps| ==> ps[j].0 == hex && 1 <= ps[j].1 < s
    requires |ps| == 3 ==> ps[1].1 != ps[2].1
    ensures |set p | p in ps :: Sorted(p.0, p.1)| == |ps|
  {
    var b := Sorted(ps[1].0, ps[1].1);
    assert b == (ps[1].1, hex);
    if |ps| == 2 {
      assert (set p | p in ps :: Sorted(p.0, p.1)) == {a, b};
    } else {
      var c := Sorted(ps[2].0, ps[2].1);
      assert c == (ps[2].1, hex);
      assert (set p | p in ps :: Sorted(p.0, p.1)) == {a, b} + {c};
    }
  }

  /** The edges of position `i`: the edge around the ring, and edges from
      the position's vertex down to vertices below the ring. */
  lemma NewEdgesShape(k: int, i: int)
    requires k >= 1 && 0 <= i < 6 * k
    ensures AroundEdge(k, i) in NewEdges(k, i)
    ensures RingStart(k) <= AroundEdge(k, i).0 < AroundEdge(k, i).1 < RingStart(k) + 6 * k
    ensures forall e :: e in NewEdges(k, i) ==>
              e == AroundEdge(k, i) || (e.1 == RingStart(k) + i && 1 <= e.0 < RingStart(k))
  {
    var ps := Proposals(k, i);
    ProposalShape(k, i);
    assert Sorted(ps[0].0, ps[0].1) == AroundEdge(k, i);
    PositionEdges(ps, RingStart(k), RingStart(k) + i, AroundEdge(k, i));
  }

  /** Position `i` adds three edges, or two when it is a multiple of `k`. */
  lemma NewEdgesSize(k: int, i: int)
    requires k >= 1 && 0 <= i < 6 * k
    ensures |NewEdges(k, i)| == if IsCorner(k, i) then 2 else 3
  {
    var ps := Proposals(k, i);
    ProposalShape(k, i);
    CornerIsMod(k, i);
    assert Sorted(ps[0].0, ps[0].1) == AroundEdge(k, i);
    PositionEdgeCount(ps, RingStart(k), RingStart(k) + i, AroundEdge(k, i));
  }

  /** Two positions of a ring have different edges around the ring. */
  lemma AroundDistinct(k: int, j: int, i: int)
    requires k >= 1 && 0 <= j < i < 6 * k
    ensures AroundEdge(k, j) != AroundEdge(k, i)
  {
    var s := RingStart(k);
    assert AroundEdge(k, j) == (s + j, s + j + 1);
  }

  /** A later position of the same ring adds none of the edges an earlier
      one added. */
  lemma PositionsDisjoint(k: int, j: int, i: int)
    requires k >= 1 && 0 <= j < i < 6 * k
    ensures NewEdges(k, j) !! NewEdges(k, i)
  {
    NewEdgesShape(k, j);
    NewEdgesShape(k, i);
    AroundDistinct(k, j, i);
  }

  /** Two disjoint sets have as many elements together as apart. */
  lemma DisjointUnionSize(a: set<Pair>, b: set<Pair>)
    requires a !! b
    ensures |a + b| == |a| + |b|
  {
    assert a * b == {};
  }

  /** A set split into two disjoint parts has the sum of their sizes. */
  lemma UnionSize(c: set<Pair>, a: set<Pair>, b: set<Pair>)
    requires c == a + b && a !! b
    ensures |c| == |a| + |b|
  {
    DisjointUnionSize(a, b);
  }

  /** One more position adds three edges, or two at a multiple of `k`. */
  lemma PrefixSizeStep(k: int, j: nat)
    requires k >= 1 && j < 6 * k
    requires |RingPrefix(k, j)| == 3 * j - MultiplesBelow(k, j)
    ensures |RingPrefix(k, j + 1)| == 3 * (j + 1) - MultiplesBelow(k, j + 1)
  {
    var before, added := RingPrefix(k, j), NewEdges(k, j);
    PrefixStep(k, j);
    forall e | e in before
      ensures e !in added
    {
      var m :| 0 <= m < j && e in NewEdges(k, m);
      PositionsDisjoint(k, m, j);
    }
    DisjointUnionSize(before, added);
    NewEdgesSize(k, j);
    MultiplesStep(k, j);
  }

  /** Ring `k`'s first `i` positions have added three edges each, less one
      for every position that is a multiple of `k`. */
  lemma {:induction false} RingPrefixSize(k: int, i: nat)
    requires k >= 1 && i <= 6 * k
    ensures |RingPrefix(k, i)| == 3 * i - MultiplesBelow(k, i)
  {
    if i == 0 {
      assert RingPrefix(k, 0) == {};
    } else {
      RingPrefixSize(k, i - 1);
      PrefixSizeStep(k, i - 1);
    }
  }

  /** Ring `k` adds `18k - 6` edges. */
  lemma RingOfSize(k: int)
    requires k >= 1
    ensures |RingOf(k)| == 18 * k - 6
  {
    RingPrefixSize(k, 6 * k);
    SixCorners(k);
  }

  /** Every edge of ring `k` has its larger end in ring `k`. */
  lemma RingOfEnds(k: int, e: Pair)
    requires k >= 1 && e in RingOf(k)
    ensures RingStart(k) <= e.1 < RingStart(k + 1)
  {
    var i :| 0 <= i < 6 * k && e in NewEdges(k, i);
    NewEdgesShape(k, i);
  }

  /** An edge of a ring below `m` has its larger end below ring `m`. */
  lemma RingOfBelow(m: int, k: int, e: Pair)
    requires 1 <= k < m && e in RingOf(k)
    ensures e.1 < RingStart(m)
  {
    RingOfEnds(k, e);
    RingStartMono(k + 1, m);
  }

  /** Every edge of the rings below `m` has its larger end below ring
      `m`. */
  lemma RingEdgesBelow(m: int, e: Pair)
    requires m >= 1
    ensures e in RingEdges(m) ==> e.1 < RingStart(m)
  {
    if e in RingEdges(m) {
      var k :| 1 <= k < m && e in RingOf(k);
      RingOfBelow(m, k, e);
    }
  }

  /** Ring `m` adds no edge the rings below it added. */
  lemma NewRingDisjoint(m: int)
    requires m >= 1
    ensures RingEdges(m) !! RingOf(m)
  {
    forall e | e in RingOf(m)
      ensures e !in RingEdges(m)
    {
      RingOfEnds(m, e);
      RingEdgesBelow(m, e);
    }
  }

  /** The edges of rings `1..n-1`, `18k - 6` for ring `k`, added up. */
  function RingTotal(n: int): int {
    if n <= 1 then 0 else RingTotal(n - 1) + 18 * (n - 1) - 6
  }

  /** The graph with `n` rings has `RingTotal(n)` edges. */
  lemma {:induction false} RingEdgesTotal(n: int)
    ensures |RingEdges(n)| == RingTotal(n)
  {
    if n <= 1 {
      NoRings(n);
    } else {
      var m := n - 1;
      RingEdgesTotal(m);
      EdgesStep(m);
      NewRingDisjoint(m);
      RingOfSize(m);
      UnionSize(RingEdges(n), RingEdges(m), RingOf(m));
    }
  }

  /** `RingTotal(n)` is `3(n - 1)(3n - 2)` from one ring up. */
  lemma {:induction false} RingTotalClosed(n: int)
    requires n >= 1
    ensures RingTotal(n) == 3 * (n - 1) * (3 * n - 2)
  {
    if n > 1 {
      RingTotalClosed(n - 1);
      assert 3 * (n - 1) * (3 * n - 2) == 3 * (n - 2) * (3 * n - 5) + 18 * (n - 1) - 6;
    }
  }

  /** The graph with `n >= 1` rings has `3(n - 1)(3n - 2)` edges, and the
      centre alone none. */
  lemma RingEdgesSize(n: int)
    ensures |RingEdges(n)| == if n >= 1 then 3 * (n - 1) * (3 * n - 2) else 0
  {
    RingEdgesTotal(n);
    if n >= 1 {
      RingTotalClosed(n);
    }
  }

  /** One ring: 1 vertex, no edge; two rings: 7 and 12; three: 19 and 42. */
  lemma SmallRingGraphs()
    ensures LayerCells(1) == 1 && |RingEdges(1)| == 0
    ensures LayerCells(2) == 7 && |RingEdges(2)| == 12
    ensures LayerCells(3) == 19 && |RingEdges(3)| == 42
  {
    RingEdgesSize(1);
    RingEdgesSize(2);
    RingEdgesSize(3);
  }

  // ------------------------------------------------------ the fourth ring

  /** The neighbours vertex 9 gets in the graph with four rings: its ring
      neighbours 8 and 10, the inner ids 2 and 3, and five ids of the
      outer ring. */
  function NinthNeighbours(): set<int> {
    {2, 3, 8, 10, 21, 22, 23, 24, 25}
  }

  /** A proposal of a ring below four that touches vertex 9 joins it to
      one of `NinthNeighbours()`. */
  lemma NinthProposal(k: int, i: int, p: Pair)
    requires 1 <= k <= 3 && 0 <= i < 6 * k && p in Proposals(k, i)
    requires p.0 == 9 || p.1 == 9
    ensures (if p.0 == 9 then p.1 else p.0) in NinthNeighbours()
  {
    assert RingStart(2) == 8 && RingStart(3) == 20;
    assert InnerStart(2) == 2 && InnerStart(3) == 8;
  }

  /** A proposal made at a position of a ring below `m` is an edge of the
      graph with `m` rings. */
  lemma ProposalInGraph(m: int, k: int, i: int, p: Pair)
    requires 1 <= k < m && 0 <= i < 6 * k && p in Proposals(k, i)
    ensures Sorted(p.0, p.1) in RingEdges(m)
  {
    assert Sorted(p.0, p.1) in NewEdges(k, i);
    assert Sorted(p.0, p.1) in RingOf(k);
  }

  /** Every neighbour of vertex 9 with four rings is one of
      `NinthNeighbours()`. */
  lemma NinthNeighboursOnly(w: int)
    requires w in Neighbors(RingEdges(4), 9)
    ensures w in NinthNeighbours()
  {
    var e := if (9, w) in RingEdges(4) then (9, w) else (w, 9);
    var k :| 1 <= k < 4 && e in RingOf(k);
    var i :| 0 <= i < 6 * k && e in NewEdges(k, i);
    var p :| p in Proposals(k, i) && Sorted(p.0, p.1) == e;
    NinthProposal(k, i, p);
  }

  /** Position `i` of ring `k`, short of the last, is joined to the next
      vertex around the ring in every graph with more than `k` rings. */
  lemma AroundInGraph(m: int, k: int, i: int)
    requires 1 <= k < m && 0 <= i < 6 * k - 1
    ensures (RingStart(k) + i, RingStart(k) + i + 1) in RingEdges(m)
  {
    ProposalShape(k, i);
    ProposalInGraph(m, k, i, Proposals(k, i)[0]);
  }

  /** Outside the first ring, position `i` of ring `k` is joined to inner
      vertex `i / k` in every graph with more than `k` rings. */
  lemma FirstInnerInGraph(m: int, k: int, i: int)
    requires 2 <= k < m && 0 <= i < 6 * k
    ensures Sorted(RingStart(k) + i, InnerStart(k) + i / k) in RingEdges(m)
  {
    var ps := Proposals(k, i);
    assert ps[1] == (RingStart(k) + i, InnerStart(k) + i / k);
    ProposalInGraph(m, k, i, ps[1]);
  }

  /** A position of ring `k` off the corners, short of the last, is also
      joined to inner vertex `i / k + 1`. */
  lemma SecondInnerInGraph(m: int, k: int, i: int)
    requires 2 <= k < m && 0 <= i < 6 * k - 1 && i % k != 0
    ensures Sorted(RingStart(k) + i, InnerStart(k) + i / k + 1) in RingEdges(m)
  {
    var ps := Proposals(k, i);
    assert (RingStart(k) + i - RingStart(k)) % k == i % k;
    assert ps[2] == (RingStart(k) + i, InnerStart(k) + i / k + 1);
    ProposalInGraph(m, k, i, ps[2]);
  }

  /** The second-ring neighbours of vertex 9 are joined to it in a graph of
      four or more rings: 8 and 10 around the ring, 2 and 3 inside it. */
  lemma NinthJoinedInSecondRing(m: int, w: int)
    requires m >= 4
    requires w in {8, 10, 2, 3}
    ensures w in Neighbors(RingEdges(m), 9)
  {
    assert RingStart(2) == 8 && InnerStart(2) == 2;
    if w == 8 {
      AroundInGraph(m, 2, 0);
    } else if w == 10 {
      AroundInGraph(m, 2, 1);
    } else if w == 2 {
      FirstInnerInGraph(m, 2, 1);
    } else {
      SecondInnerInGraph(m, 2, 1);
    }
  }

  /** The third-ring neighbours of vertex 9 are joined to it in a graph of
      four or more rings. */
  lemma NinthJoinedInThirdRing(m: int, w: int)
    requires m >= 4
    requires w in {21, 22, 23, 24, 25}
    ensures w in Neighbors(RingEdges(m), 9)
  {
    assert RingStart(3) == 20 && InnerStart(3) == 8;
    if w == 21 {
      SecondInnerInGraph(m, 3, 1);
    } else if w == 22 {
      SecondInnerInGraph(m, 3, 2);
    } else if w == 23 {
      FirstInnerInGraph(m, 3, 3);
    } else if w == 24 {
      FirstInnerInGraph(m, 3, 4);
    } else {
      FirstInnerInGraph(m, 3, 5);
    }
  }

  /** Each of `NinthNeighbours()` is joined to vertex 9 in a graph of four or more rings. */
  lemma NinthNeighboursAll(m: int, w: int)
    requires m >= 4
    requires w in NinthNeighbours()
    ensures w in Neighbors(RingEdges(m), 9)
  {
    if w in {8, 10, 2, 3} {
      NinthJoinedInSecondRing(m, w);
    } else {
      NinthJoinedInThirdRing(m, w);
    }
  }

  /** The nine ids are distinct. */
  lemma NinthNeighboursSize()
    ensures |NinthNeighbours()| == 9
  {
    var s := {2, 3, 8, 10, 21, 22, 23, 24};
    assert |s| == 8;
    assert NinthNeighbours() == s + {25};
  }

  /** With four rings the generator gives vertex 9 nine neighbours,
      although a cell of a honeycomb has six: the inner-ring targets
      `last_inner_ring_begin_hex + i // k` of the third ring pile up on
      vertex 9. */
  lemma NinthVertexDegree()
    ensures Neighbors(RingEdges(4), 9) == NinthNeighbours()
    ensures |Neighbors(RingEdges(4), 9)| == 9
  {
    forall w | w in Neighbors(RingEdges(4), 9)
      ensures w in NinthNeighbours()
    {
      NinthNeighboursOnly(w);
    }
    forall w | w in NinthNeighbours()
      ensures w in Neighbors(RingEdges(4), 9)
    {
      NinthNeighboursAll(4, w);
    }
    assert Neighbors(RingEdges(4), 9) == NinthNeighbours();
    NinthNeighboursSize();
  }
}
