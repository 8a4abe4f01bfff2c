/** The GFU text layout shared by `hex_grid_to_gfu`, `lad_to_gfu` and
    `export_graph_to_gfu`: a `#name` line, the vertex count, one label line
    `a` per vertex, the edge count, then one `u v` line per edge. */
module Gfu {
  import opened Collections
  import opened Edges
  import opened Text
  import opened Results

  /** `f"{u} {v}"` for one edge. */
  function EdgeLine(e: Pair): string {
    IntToString(e.0) + " " + IntToString(e.1)
  }

  /** The GFU lines of a graph named `name` with `n` vertices, all labelled
      `a`, and the edges in the order `edges` lists them. */
  function GfuText(name: string, n: nat, edges: seq<Pair>): (lines: seq<string>)
    ensures |lines| == 3 + n + |edges|
  {
    ["#" + name, NatToString(n)]
      + seq(n, _ => "a")
      + [NatToString(|edges|)]
      + seq(|edges|, k requires 0 <= k < |edges| => EdgeLine(edges[k]))
  }

  /** Reads one edge line back: exactly two integer tokens. */
  function ReadEdgeLine(line: string): (r: Option<Pair>)
    ensures r.Some? ==> |Split(line)| == 2
  {
    var ts := Split(line);
    if |ts| != 2 then None
    else
      var a :- ParseInt(ts[0]);
      var b :- ParseInt(ts[1]);
      Some((a, b))
  }

  /** An edge line reads back as the pair it was written from. */
  lemma EdgeLineRoundTrip(e: Pair)
    ensures ReadEdgeLine(EdgeLine(e)) == Some(e)
  {
    SplitHeadJoin(IntToString(e.0), [IntToString(e.1)]);
    ParseIntToString(e.0);
    ParseIntToString(e.1);
  }

  /** Distinct pairs are written as distinct lines. */
  lemma EdgeLineInjective(e: Pair, f: Pair)
    requires EdgeLine(e) == EdgeLine(f)
    ensures e == f
  {
    EdgeLineRoundTrip(e);
    EdgeLineRoundTrip(f);
  }

  /** Where each part of the GFU text sits. */
  lemma GfuLines(name: string, n: nat, edges: seq<Pair>)
    ensures GfuText(name, n, edges)[0] == "#" + name
    ensures GfuText(name, n, edges)[1] == NatToString(n)
    ensures forall k :: 2 <= k < 2 + n ==> GfuText(name, n, edges)[k] == "a"
    ensures GfuText(name, n, edges)[2 + n] == NatToString(|edges|)
    ensures GfuText(name, n, edges)[3 + n..] == seq(|edges|, k requires 0 <= k < |edges| => EdgeLine(edges[k]))
  {
    var head := ["#" + name, NatToString(n)] + seq(n, _ => "a");
    var body := seq(|edges|, k requires 0 <= k < |edges| => EdgeLine(edges[k]));
    assert GfuText(name, n, edges) == head + [NatToString(|edges|)] + body;
    assert |head| == 2 + n;
  }

  /** The GFU header: the `#name` line, the vertex count, `n` lines `a`,
      then the edge count. */
  lemma GfuHeader(name: string, n: nat, edges: seq<Pair>)
    ensures GfuText(name, n, edges)[0] == "#" + name
    ensures ParseInt(GfuText(name, n, edges)[1]) == Some(n)
    ensures forall k :: 2 <= k < 2 + n ==> GfuText(name, n, edges)[k] == "a"
    ensures ParseInt(GfuText(name, n, edges)[2 + n]) == Some(|edges|)
  {
    GfuLines(name, n, edges);
    var lines := GfuText(name, n, edges);
    assert ParseInt(lines[1]) == Some(n) by {
      ParseIntNatural(n);
    }
    assert ParseInt(lines[2 + n]) == Some(|edges|) by {
      ParseIntNatural(|edges|);
    }
  }

  /** Line `3 + n + k` reads back as the `k`-th edge. */
  lemma GfuEdgeLines(name: string, n: nat, edges: seq<Pair>)
    ensures forall k :: 0 <= k < |edges| ==> ReadEdgeLine(GfuText(name, n, edges)[3 + n + k]) == Some(edges[k])
  {
    GfuLines(name, n, edges);
    var lines := GfuText(name, n, edges);
    forall k | 0 <= k < |edges|
      ensures ReadEdgeLine(lines[3 + n + k]) == Some(edges[k])
    {
      assert lines[3 + n + k] == lines[3 + n..][k];
      EdgeLineRoundTrip(edges[k]);
    }
  }

  /** When `edges` lists a set of pairs once each, the count line is the
      size of the set, and no edge line is written twice. */
  lemma GfuEdgesOnce(name: string, n: nat, edges: seq<Pair>, s: set<Pair>)
    requires Enumerates(edges, s)
    ensures ParseInt(GfuText(name, n, edges)[2 + n]) == Some(|s|)
    ensures NoDup(GfuText(name, n, edges)[3 + n..])
  {
    GfuHeader(name, n, edges);
    EnumerationSize(edges, s);
    GfuBodyNoDup(name, n, edges);
  }

  lemma GfuBodyNoDup(name: string, n: nat, edges: seq<Pair>)
    requires NoDup(edges)
    ensures NoDup(GfuText(name, n, edges)[3 + n..])
  {
    GfuLines(name, n, edges);
    var body := GfuText(name, n, edges)[3 + n..];
    forall a, b | 0 <= a < b < |body|
      ensures body[a] != body[b]
    {
      if body[a] == body[b] {
        EdgeLineInjective(edges[a], edges[b]);
      }
    }
  }
}
