/** `lad_to_gfu_converter.py`: `read_lad_file` reads LAD text back into a
    map from vertex id to neighbour list, and `lad_to_gfu` writes that map
    as GFU text with every listed pair once. The file is given as its lines;
    opening and reading it is left to the caller. */
module LadConverter {
  import opened Collections
  import opened Edges
  import opened Text
  import opened Results
  import opened Lad
  import opened Gfu

  /** Why `read_lad_file` stops, with the index of the line it was reading:
      the line is missing (`IndexError` on `lines[idx]`), the line is blank
      (`IndexError` on `parts[0]`), or a token is not an integer
      (`ValueError` from `int`). */
  datatype ReadError = MissingLine(line: nat) | BlankLine(line: nat) | NotAnInteger(line: nat)

  /** A slice bound `i` of Python's `xs[a:b]` on a list of length `len`:
      negative bounds count from the end, and the result is clipped to
      `0..len`. */
  function SliceBound(len: nat, i: int): (b: nat)
    ensures b <= len
    ensures 0 <= i ==> b == if i <= len then i else len
    ensures i < 0 ==> b == if -i <= len then len + i else 0
  {
    if i < 0 then (if i + len < 0 then 0 else i + len)
    else if i > len then len
    else i
  }

  /** Python's `xs[start:stop]`. */
  function Slice<T>(xs: seq<T>, start: int, stop: int): (r: seq<T>)
    ensures SliceBound(|xs|, start) < SliceBound(|xs|, stop) ==>
              r == xs[SliceBound(|xs|, start)..SliceBound(|xs|, stop)]
    ensures SliceBound(|xs|, stop) <= SliceBound(|xs|, start) ==> r == []
  {
    var lo := SliceBound(|xs|, start);
    var hi := SliceBound(|xs|, stop);
    if lo < hi then xs[lo..hi] else []
  }

  /** The tokens `parts` of vertex line `idx`: the count from the first
      token, then `list(map(int, parts[1:count + 1]))`. A line without
      tokens has no first token to read. */
  function RowOf(parts: seq<string>, idx: nat): (r: Result<seq<int>, ReadError>)
    ensures r.Err? ==> r.error.line == idx && !r.error.MissingLine?
    ensures r.Ok? ==> |parts| > 0 && ParseInt(parts[0]).Some?
  {
    if |parts| == 0 then Err(BlankLine(idx))
    else
      match ParseInt(parts[0])
      case None => Err(NotAnInteger(idx))
      case Some(count) =>
        match ParseInts(Slice(parts, 1, count + 1))
        case None => Err(NotAnInteger(idx))
        case Some(ids) => Ok(ids)
  }

  /** One pass of the loop of `read_lad_file` for line `idx`: the tokens of
      the stripped line, when the line exists. */
  function ReadRow(lines: seq<string>, idx: nat): (r: Result<seq<int>, ReadError>)
    ensures r.Err? ==> r.error.line == idx
    ensures r.Err? && r.error.MissingLine? <==> idx >= |lines|
  {
    if idx >= |lines| then Err(MissingLine(idx))
    else RowOf(Split(Strip(lines[idx])), idx)
  }

  /** The loop of `read_lad_file` over `idx` in `1..k`, with `read(idx)`
      the outcome of reading line `idx`: the map from `idx - 1` to the list
      read from line `idx`, or the error of the first line that cannot be
      read. */
  function ReadRows(read: nat -> Result<seq<int>, ReadError>, k: nat): (r: Result<map<int, seq<int>>, ReadError>)
    ensures r.Ok? <==> forall idx: nat :: 1 <= idx <= k ==> read(idx).Ok?
    ensures r.Ok? ==> forall i :: i in r.value <==> 0 <= i < k
    ensures r.Ok? ==> forall i: nat :: i < k ==> read(i + 1) == Ok(r.value[i])
    ensures r.Err? ==> exists idx: nat :: 1 <= idx <= k && read(idx) == Err(r.error)
                         && forall j: nat :: 1 <= j < idx ==> read(j).Ok?
    decreases k
  {
    if k == 0 then Ok(map[])
    else
      var m :- ReadRows(read, k - 1);
      var row :- read(k);
      Ok(m[k - 1 := row])
  }

  /** Reading line `idx` of `lines`, as a function of `idx`. */
  function Reader(lines: seq<string>): nat -> Result<seq<int>, ReadError> {
    (idx: nat) => ReadRow(lines, idx)
  }

  /** The loop run on the lines of a file: lines `1..n` read in turn. */
  function ReadLines(lines: seq<string>, n: nat): (r: Result<map<int, seq<int>>, ReadError>)
    ensures r.Ok? <==> forall idx: nat :: 1 <= idx <= n ==> ReadRow(lines, idx).Ok?
    ensures r.Ok? ==> forall i :: i in r.value <==> 0 <= i < n
    ensures r.Ok? ==> RowsRead(lines, r.value)
  {
    ReadLinesOk(lines, n);
    var r := ReadRows(Reader(lines), n);
    if r.Ok? then ReadLinesRows(lines, n); r else r
  }

  /** The loop succeeds exactly when every one of lines `1..n` reads. */
  lemma ReadLinesOk(lines: seq<string>, n: nat)
    ensures ReadRows(Reader(lines), n).Ok? <==> forall idx: nat :: 1 <= idx <= n ==> ReadRow(lines, idx).Ok?
  {
    var read := Reader(lines);
    if ReadRows(read, n).Ok? {
      forall idx: nat | 1 <= idx <= n
        ensures ReadRow(lines, idx).Ok?
      {
        assert read(idx).Ok?;
      }
    } else {
      var idx: nat :| 1 <= idx <= n && read(idx) == Err(ReadRows(read, n).error);
      assert !ReadRow(lines, idx).Ok?;
    }
  }

  /** When the loop succeeds, entry `i` is what line `i + 1` reads as. */
  lemma ReadLinesRows(lines: seq<string>, n: nat)
    requires ReadRows(Reader(lines), n).Ok?
    ensures RowsRead(lines, ReadRows(Reader(lines), n).value)
  {
    ReadRowsEntries(Reader(lines), n);
  }

  /** The keys of a successful loop are below `k`, so every entry `i` is
      what reading `i + 1` gave. */
  lemma ReadRowsEntries(read: nat -> Result<seq<int>, ReadError>, k: nat)
    requires ReadRows(read, k).Ok?
    ensures forall i: nat :: i in ReadRows(read, k).value ==> read(i + 1) == Ok(ReadRows(read, k).value[i])
  {
    var m := ReadRows(read, k).value;
    forall i: nat | i in m
      ensures read(i + 1) == Ok(m[i])
    {
      assert i < k;
    }
  }

  /** `read_lad_file`: the vertex count from the first line, then the
      lists of lines `1..n`. A count of zero or less reads nothing more. */
  function ReadLad(lines: seq<string>): (r: Result<map<int, seq<int>>, ReadError>)
    ensures r.Ok? <==>
              HeaderCount(lines).Some?
              && forall idx: nat :: 1 <= idx <= HeaderCount(lines).value ==> ReadRow(lines, idx).Ok?
    ensures r.Ok? ==> forall i :: i in r.value <==> 0 <= i < HeaderCount(lines).value
    ensures r.Ok? ==> RowsRead(lines, r.value)
  {
    if |lines| == 0 then Err(MissingLine(0))
    else ReadCounted(lines, HeaderCount(lines))
  }

  /** The vertex count on the first line, if there is a first line and it
      holds an integer. `int` strips surrounding whitespace itself, so the
      explicit `strip()` of the first line changes nothing. */
  function HeaderCount(lines: seq<string>): Option<int> {
    if |lines| == 0 then None else ParseInt(lines[0])
  }

  /** Every entry `i` of `m` is the list read from line `i + 1`. */
  predicate RowsRead(lines: seq<string>, m: map<int, seq<int>>) {
    forall i: nat :: i in m ==> ReadRow(lines, i + 1) == Ok(m[i])
  }

  /** The rest of `read_lad_file` once the first line has been parsed to
      `count`, or failed to parse. */
  function ReadCounted(lines: seq<string>, count: Option<int>): (r: Result<map<int, seq<int>>, ReadError>)
    ensures r.Ok? <==>
              count.Some? && forall idx: nat :: 1 <= idx <= count.value ==> ReadRow(lines, idx).Ok?
    ensures r.Ok? ==> forall i :: i in r.value <==> 0 <= i < count.value
    ensures r.Ok? ==> RowsRead(lines, r.value)
  {
    match count
    case None => Err(NotAnInteger(0))
    case Some(n) => if n <= 0 then Ok(map[]) else ReadLines(lines, n)
  }

  /** The error a file with a positive count `n` is rejected with is the
      error of the first of lines `1..n` that cannot be read. */
  lemma ReadLadFirstError(lines: seq<string>, n: int)
    requires |lines| > 0 && ParseInt(lines[0]) == Some(n)
    ensures ReadLad(lines).Err? ==>
              exists idx: nat :: 1 <= idx <= n && ReadRow(lines, idx) == Err(ReadLad(lines).error)
                                 && forall j: nat :: 1 <= j < idx ==> ReadRow(lines, j).Ok?
  {
    if ReadLad(lines).Err? {
      var read := Reader(lines);
      var r := ReadRows(read, n as nat);
      assert ReadLad(lines) == r;
      var idx: nat :| 1 <= idx <= n && read(idx) == Err(r.error) && forall j: nat :: 1 <= j < idx ==> read(j).Ok?;
      assert ReadRow(lines, idx) == Err(r.error);
      forall j: nat | 1 <= j < idx
        ensures ReadRow(lines, j).Ok?
      {
        assert read(j).Ok?;
      }
    }
  }

  /** With a positive count, a first vertex line that cannot be read
      rejects the file with that line's error. */
  lemma FirstRowFails(lines: seq<string>, n: int)
    requires |lines| > 0 && ParseInt(lines[0]) == Some(n) && n >= 1
    requires ReadRow(lines, 1).Err?
    ensures ReadLad(lines) == Err(ReadRow(lines, 1).error)
  {
    assert HeaderCount(lines) == Some(n);
    assert ReadLad(lines).Err?;
    ReadLadFirstError(lines, n);
    var idx: nat :| 1 <= idx <= n && ReadRow(lines, idx) == Err(ReadLad(lines).error)
                    && forall j: nat :: 1 <= j < idx ==> ReadRow(lines, j).Ok?;
    assert idx == 1;
  }

  // ----------------------------------------------------------- row contents

  /** Stripping a line before splitting it changes nothing: an existing
      line reads as the tokens of `split()`. */
  lemma ReadRowTokens(lines: seq<string>, idx: nat)
    requires idx < |lines|
    ensures ReadRow(lines, idx) == RowOf(Split(lines[idx]), idx)
  {
    SplitStrip(lines[idx]);
  }

  /** With a count `c >= 0` the row is the first `min(c, |parts| - 1)`
      tokens after the count, parsed: tokens past the count are ignored, a
      short line gives a short list, and only the kept tokens must be
      integers. */
  lemma RowIds(parts: seq<string>, idx: nat, c: int)
    requires |parts| > 0 && ParseInt(parts[0]) == Some(c) && c >= 0
    ensures var m := if c < |parts| - 1 then c else |parts| - 1;
            && (RowOf(parts, idx).Ok? <==> forall k :: 1 <= k <= m ==> ParseInt(parts[k]).Some?)
            && (RowOf(parts, idx).Ok? ==> |RowOf(parts, idx).value| == m)
            && (RowOf(parts, idx).Ok? ==> forall k :: 0 <= k < m ==> Some(RowOf(parts, idx).value[k]) == ParseInt(parts[k + 1]))
  {
    var m := if c < |parts| - 1 then c else |parts| - 1;
    var kept := Slice(parts, 1, c + 1);
    assert kept == parts[1..1 + m];
    assert RowOf(parts, idx) == match ParseInts(kept) case None => Err(NotAnInteger(idx)) case Some(ids) => Ok(ids);
    if forall k :: 1 <= k <= m ==> ParseInt(parts[k]).Some? {
      forall k | 0 <= k < |kept|
        ensures ParseInt(kept[k]).Some?
      {
        assert kept[k] == parts[k + 1];
      }
    }
    if RowOf(parts, idx).Ok? {
      forall k | 1 <= k <= m
        ensures ParseInt(parts[k]).Some?
      {
        assert parts[k] == kept[k - 1];
      }
    }
  }

  /** A negative count is a Python slice bound from the end: `-1` reads an
      empty list, and `c <= -2` reads the tokens after the count except
      the last `-c - 1` of them. */
  lemma NegativeCount(parts: seq<string>, idx: nat, c: int)
    requires |parts| > 0 && ParseInt(parts[0]) == Some(c) && c < 0
    ensures c == -1 ==> RowOf(parts, idx) == Ok([])
    ensures var hi := if |parts| + c + 1 > 1 then |parts| + c + 1 else 1;
            c <= -2 ==>
            && (RowOf(parts, idx).Ok? <==> ParseInts(parts[1..hi]).Some?)
            && (RowOf(parts, idx).Ok? ==> RowOf(parts, idx).value == ParseInts(parts[1..hi]).value)
  {
    if c <= -2 {
      var hi := if |parts| + c + 1 > 1 then |parts| + c + 1 else 1;
      assert Slice(parts, 1, c + 1) == parts[1..hi];
    }
  }

  /** A line written by the LAD writers reads back as the list it was
      written from. */
  lemma RowOfLadLine(ids: seq<int>, idx: nat)
    ensures RowOf(Split(LadLine(ids)), idx) == Ok(ids)
  {
    var parts := Split(LadLine(ids));
    LadLineTokens(ids);
    ParseIntToString(|ids|);
    assert ParseInt(parts[0]) == Some(|ids|);
    assert Slice(parts, 1, |ids| + 1) == ShowInts(ids) by {
      assert parts[1..] == ShowInts(ids);
    }
    ParseShowInts(ids);
  }

  // ------------------------------------------------------------ whole files

  /** The ways reading fails: an empty file or a first line that is not an
      integer, fewer than `n + 1` lines for a positive count `n`, and a
      blank line among lines `1..n`. */
  lemma ReadLadFails(lines: seq<string>, n: int, idx: nat)
    ensures |lines| == 0 ==> ReadLad(lines) == Err(MissingLine(0))
    ensures |lines| > 0 && ParseInt(lines[0]).None? ==> ReadLad(lines) == Err(NotAnInteger(0))
    ensures |lines| > 0 && ParseInt(lines[0]) == Some(n) && 1 <= n && |lines| <= n ==> ReadLad(lines).Err?
    ensures (|lines| > 0 && ParseInt(lines[0]) == Some(n) && 1 <= idx <= n && idx < |lines|
             && AllSpace(lines[idx])) ==> ReadLad(lines).Err?
  {
    if |lines| > 0 && ParseInt(lines[0]) == Some(n) && 1 <= n && |lines| <= n {
      assert !ReadRow(lines, |lines|).Ok?;
    }
    if |lines| > 0 && ParseInt(lines[0]) == Some(n) && 1 <= idx <= n && idx < |lines| && AllSpace(lines[idx]) {
      ReadRowTokens(lines, idx);
      SplitEmpty(lines[idx]);
      assert !ReadRow(lines, idx).Ok?;
    }
  }

  /** Two readers that agree on lines `1..k` read the same. */
  lemma {:induction false} ReadRowsAgree(read1: nat -> Result<seq<int>, ReadError>,
                                         read2: nat -> Result<seq<int>, ReadError>, k: nat)
    requires forall idx: nat :: 1 <= idx <= k ==> read1(idx) == read2(idx)
    ensures ReadRows(read1, k) == ReadRows(read2, k)
    decreases k
  {
    if k > 0 {
      ReadRowsAgree(read1, read2, k - 1);
      assert read1(k) == read2(k);
    }
  }

  /** Only the first `n + 1` lines are looked at: lines after the last
      vertex line are ignored, whatever they hold. */
  lemma ExtraLinesIgnored(lines: seq<string>, extra: seq<string>, n: int)
    requires |lines| > 0 && ParseInt(lines[0]) == Some(n) && n + 1 <= |lines|
    ensures ReadLad(lines + extra) == ReadLad(lines)
  {
    var all := lines + extra;
    assert all[0] == lines[0];
    if n > 0 {
      var read1 := Reader(all);
      var read2 := Reader(lines);
      forall idx: nat | 1 <= idx <= n
        ensures read1(idx) == read2(idx)
      {
        assert all[idx] == lines[idx];
      }
      ReadRowsAgree(read1, read2, n);
      assert ReadLad(all) == ReadRows(read1, n);
      assert ReadLad(lines) == ReadRows(read2, n);
    }
  }

  /** Reading back a LAD text gives the lists it was written from, keyed by
      position. */
  lemma ReadLadText(lists: seq<seq<int>>)
    ensures ReadLad(LadText(lists)) == Ok(AsMap(lists))
  {
    var lines := LadText(lists);
    var n := |lists|;
    ParseIntNatural(n);
    assert ParseInt(lines[0]) == Some(n);
    forall idx: nat | 1 <= idx <= n
      ensures ReadRow(lines, idx) == Ok(lists[idx - 1])
    {
      assert lines[idx] == LadLine(lists[idx - 1]);
      ReadRowTokens(lines, idx);
      RowOfLadLine(lists[idx - 1], idx);
    }
    var r := ReadLad(lines);
    assert r.Ok?;
    forall i | i in r.value
      ensures r.value[i] == lists[i]
    {
      assert ReadRow(lines, i + 1) == Ok(r.value[i]);
    }
    assert r.value == AsMap(lists);
  }

  // ---------------------------------------------------------------- to GFU

  /** The graph name `lad_to_gfu` writes after the `#`. */
  const LadGraphName := "graph_from_lad"

  /** `lad_to_gfu(neighbors_data)`, with `edgeOrder` the order in which the
      edge set is iterated: the vertex count is the number of keys, and
      every pair `sorted((node, neighbor))` is written once. */
  function LadToGfu(m: map<int, seq<int>>, edgeOrder: seq<Pair>): (lines: seq<string>)
    requires Enumerates(edgeOrder, MapEdges(m))
    ensures |lines| == 3 + |m| + |MapEdges(m)|
  {
    EnumerationSize(edgeOrder, MapEdges(m));
    GfuText(LadGraphName, |m|, edgeOrder)
  }

  /** The GFU text of `lad_to_gfu`: `#graph_from_lad`, the number of keys,
      the number of distinct sorted pairs, then each of them once, smaller
      id first. */
  lemma LadToGfuText(m: map<int, seq<int>>, edgeOrder: seq<Pair>)
    requires Enumerates(edgeOrder, MapEdges(m))
    ensures LadToGfu(m, edgeOrder)[0] == "#" + LadGraphName
    ensures ParseInt(LadToGfu(m, edgeOrder)[1]) == Some(|m|)
    ensures ParseInt(LadToGfu(m, edgeOrder)[2 + |m|]) == Some(|MapEdges(m)|)
    ensures forall k :: 0 <= k < |edgeOrder| ==>
              && ReadEdgeLine(LadToGfu(m, edgeOrder)[3 + |m| + k]) == Some(edgeOrder[k])
              && edgeOrder[k] in MapEdges(m) && edgeOrder[k].0 <= edgeOrder[k].1
    ensures NoDup(LadToGfu(m, edgeOrder)[3 + |m|..])
  {
    GfuHeader(LadGraphName, |m|, edgeOrder);
    GfuEdgesOnce(LadGraphName, |m|, edgeOrder, MapEdges(m));
    GfuEdgeLines(LadGraphName, |m|, edgeOrder);
    forall k | 0 <= k < |edgeOrder|
      ensures edgeOrder[k] in MapEdges(m) && edgeOrder[k].0 <= edgeOrder[k].1
    {
      var e := edgeOrder[k];
      assert e in MapEdges(m);
      var u, v :| u in m && v in m[u] && e == Sorted(u, v);
    }
  }

  /** `main(input_file, output_file)` without the files: read the LAD lines,
      then convert. A file that cannot be read yields its read error. */
  function LadFileToGfu(lines: seq<string>, edgeOrder: seq<Pair>): (r: Result<seq<string>, ReadError>)
    requires ReadLad(lines).Ok? ==> Enumerates(edgeOrder, MapEdges(ReadLad(lines).value))
    ensures r.Err? <==> ReadLad(lines).Err?
    ensures r.Ok? ==> |r.value| > 0 && r.value[0] == "#" + LadGraphName
  {
    var m :- ReadLad(lines);
    var text := LadToGfu(m, edgeOrder);
    LadToGfuText(m, edgeOrder);
    assert |text| > 0 && text[0] == "#" + LadGraphName;
    Ok(text)
  }

  /** Lists that name every edge at both ends and lists that name it only at
      its smaller end give the same GFU edge set: `lad_to_gfu` reads the
      output of both LAD writers alike. */
  lemma LaterListsSameEdges(lists: seq<seq<int>>, rows: seq<seq<int>>)
    requires Undirected(lists) && |rows| == |lists|
    requires forall i :: 0 <= i < |lists| ==> forall j :: j in rows[i] <==> j in lists[i] && j > i
    ensures MapEdges(AsMap(rows)) == MapEdges(AsMap(lists))
  {
    MapEdgesOfLists(rows);
    MapEdgesOfLists(lists);
    forall e | e in ListEdges(rows)
      ensures e in ListEdges(lists)
    {
      var i, j :| 0 <= i < |rows| && j in rows[i] && e == Sorted(i, j);
      assert j in lists[i];
    }
    forall e | e in ListEdges(lists)
      ensures e in ListEdges(rows)
    {
      var i, j :| 0 <= i < |lists| && j in lists[i] && e == Sorted(i, j);
      if j > i {
        assert j in rows[i];
      } else {
        assert j in lists[i];
        assert 0 <= j < |lists| && i in lists[j] && i != j;
        assert i in rows[j];
        assert e == Sorted(j, i);
      }
    }
  }
}
