/** Undirected edges as sorted integer pairs, the way every writer and the
    converter deduplicate them (`tuple(sorted((a, b)))`), with neighbour
    sets and the degree sums that count how often an edge is written. */
module Edges {
  import opened Collections

  type Pair = (int, int)

  /** `tuple(sorted((a, b)))`: the pair with its smaller end first. */
  function Sorted(a: int, b: int): (p: Pair)
    ensures p.0 <= p.1
    ensures (p.0 == a && p.1 == b) || (p.0 == b && p.1 == a)
  {
    if a <= b then (a, b) else (b, a)
  }

  /** Every pair joins two distinct vertices of `[lo, hi)`, smaller end first:
      an undirected graph without loops or repeated edges. */
  predicate Simple(edges: set<Pair>, lo: int, hi: int) {
    forall e :: e in edges ==> lo <= e.0 < e.1 < hi
  }

  /** One end of an edge: the smaller one when `first`, else the larger. */
  function End(e: Pair, first: bool): int {
    if first then e.0 else e.1
  }

  function Other(e: Pair, first: bool): int {
    if first then e.1 else e.0
  }

  /** The neighbours of `v` reached through edges whose chosen end is `v`:
      the later neighbours when `first`, the earlier ones otherwise. */
  function Side(edges: set<Pair>, v: int, first: bool): set<int> {
    set e | e in edges && End(e, first) == v :: Other(e, first)
  }

  /** All neighbours of `v`. */
  function Neighbors(edges: set<Pair>, v: int): (ns: set<int>)
    ensures forall w :: w in ns <==> (v, w) in edges || (w, v) in edges
  {
    assert forall w :: (v, w) in edges ==> w in Side(edges, v, true) by {
      forall w | (v, w) in edges
        ensures w in Side(edges, v, true)
      {
        var e := (v, w);
        assert End(e, true) == v && Other(e, true) == w;
      }
    }
    assert forall w :: (w, v) in edges ==> w in Side(edges, v, false) by {
      forall w | (w, v) in edges
        ensures w in Side(edges, v, false)
      {
        var e := (w, v);
        assert End(e, false) == v && Other(e, false) == w;
      }
    }
    Side(edges, v, true) + Side(edges, v, false)
  }

  /** Sum of |Side(edges, v, first)| over `v` in `[lo, hi)`. */
  function SideSum(edges: set<Pair>, lo: int, hi: int, first: bool): int
    decreases hi - lo
  {
    if hi <= lo then 0 else SideSum(edges, lo, hi - 1, first) + |Side(edges, hi - 1, first)|
  }

  /** Sum of the degrees of the vertices of `[lo, hi)`. */
  function DegreeSum(edges: set<Pair>, lo: int, hi: int): int
    decreases hi - lo
  {
    if hi <= lo then 0 else DegreeSum(edges, lo, hi - 1) + |Neighbors(edges, hi - 1)|
  }

  /** Edges whose chosen end lies below `k`. */
  function EndBelow(edges: set<Pair>, k: int, first: bool): set<Pair> {
    set e | e in edges && End(e, first) < k
  }

  lemma SideSize(edges: set<Pair>, v: int, first: bool)
    ensures |Side(edges, v, first)| == |set e | e in edges && End(e, first) == v|
  {
    var at := set e | e in edges && End(e, first) == v;
    var f := (e: Pair) => Other(e, first);
    forall x, y | x in at && y in at && f(x) == f(y)
      ensures x == y
    {
      assert x.0 == y.0 && x.1 == y.1;
    }
    forall w | w in Side(edges, v, first)
      ensures exists e :: e in at && f(e) == w
    {
      var e :| e in edges && End(e, first) == v && Other(e, first) == w;
      assert e in at && f(e) == w;
    }
    InjectiveImageSize(at, Side(edges, v, first), f);
  }

  lemma {:induction false} SideSumBelow(edges: set<Pair>, lo: int, k: int, first: bool)
    requires forall e :: e in edges ==> lo <= e.0 < e.1
    requires lo <= k
    ensures SideSum(edges, lo, k, first) == |EndBelow(edges, k, first)|
    decreases k - lo
  {
    if k == lo {
      assert EndBelow(edges, k, first) == {};
    } else {
      SideSumBelow(edges, lo, k - 1, first);
      SideSize(edges, k - 1, first);
      var at := set e | e in edges && End(e, first) == k - 1;
      assert EndBelow(edges, k, first) == EndBelow(edges, k - 1, first) + at;
      assert EndBelow(edges, k - 1, first) !! at;
    }
  }

  /** Attaching every edge to one chosen end and summing over the vertices
      counts every edge exactly once. */
  lemma SideSumIsEdgeCount(edges: set<Pair>, lo: int, hi: int, first: bool)
    requires Simple(edges, lo, hi)
    ensures SideSum(edges, lo, hi, first) == |edges|
  {
    if lo <= hi {
      SideSumBelow(edges, lo, hi, first);
      assert EndBelow(edges, hi, first) == edges;
    } else {
      assert edges == {};
    }
  }

  lemma {:induction false} DegreeSumSplits(edges: set<Pair>, lo: int, hi: int)
    requires forall e :: e in edges ==> e.0 < e.1
    ensures DegreeSum(edges, lo, hi) == SideSum(edges, lo, hi, true) + SideSum(edges, lo, hi, false)
    decreases hi - lo
  {
    if lo < hi {
      DegreeSumSplits(edges, lo, hi - 1);
      var v := hi - 1;
      assert Side(edges, v, true) !! Side(edges, v, false);
    }
  }

  /** The handshake lemma: the degrees add up to twice the number of edges,
      so a format that lists every neighbour of every vertex writes each
      edge twice. */
  lemma Handshake(edges: set<Pair>, lo: int, hi: int)
    requires Simple(edges, lo, hi)
    ensures DegreeSum(edges, lo, hi) == 2 * |edges|
  {
    DegreeSumSplits(edges, lo, hi);
    SideSumIsEdgeCount(edges, lo, hi, true);
    SideSumIsEdgeCount(edges, lo, hi, false);
  }
}
