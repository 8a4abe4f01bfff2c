/** The cube-coordinate hexagonal lattice: hexagons are integer triples,
    neighbours differ by one of six unit directions, and the grid of radius
    `rings` is every triple with coordinate sum zero within that distance of
    the centre hexagon. */
module HexCube {
  import opened Collections

  /** A hexagon in cube coordinates; cells of the lattice have
      `x + y + z == 0`. */
  datatype Cube = Cube(x: int, y: int, z: int)

  const Origin := Cube(0, 0, 0)

  function CoordSum(c: Cube): int {
    c.x + c.y + c.z
  }

  function Abs(a: int): nat {
    if a < 0 then -a else a
  }

  function Max(a: int, b: int): int {
    if a < b then b else a
  }

  function Min(a: int, b: int): int {
    if a < b then a else b
  }

  /** `hex_distance`: the largest of the three coordinate differences. */
  function HexDistance(a: Cube, b: Cube): (d: nat)
    ensures Abs(a.x - b.x) <= d && Abs(a.y - b.y) <= d && Abs(a.z - b.z) <= d
    ensures d == Abs(a.x - b.x) || d == Abs(a.y - b.y) || d == Abs(a.z - b.z)
    ensures d == 0 <==> a == b
  {
    Max(Max(Abs(a.x - b.x), Abs(a.y - b.y)), Abs(a.z - b.z))
  }

  /** The distance of a hexagon from the centre. */
  function Norm(c: Cube): nat {
    HexDistance(c, Origin)
  }

  /** The six unit directions, in the order `hex_neighbors` lists them. */
  const Directions: seq<Cube> := [
    Cube(1, -1, 0), Cube(-1, 1, 0),
    Cube(1, 0, -1), Cube(-1, 0, 1),
    Cube(0, 1, -1), Cube(0, -1, 1)
  ]

  function Add(a: Cube, b: Cube): Cube {
    Cube(a.x + b.x, a.y + b.y, a.z + b.z)
  }

  /** `hex_neighbors`: the six hexagons around `c`, one per direction, each
      at distance one and on the same coordinate-sum plane. */
  function HexNeighbors(c: Cube): (ns: seq<Cube>)
    ensures |ns| == 6 && NoDup(ns)
    ensures forall k :: 0 <= k < |ns| ==> HexDistance(c, ns[k]) == 1
    ensures forall k :: 0 <= k < |ns| ==> CoordSum(ns[k]) == CoordSum(c)
  {
    seq(6, k requires 0 <= k < 6 => Add(c, Directions[k]))
  }

  /** Lattice adjacency: same plane, distance exactly one. */
  predicate Adjacent(a: Cube, b: Cube) {
    CoordSum(a) == CoordSum(b) && HexDistance(a, b) == 1
  }

  /** `hex_neighbors(c)` lists exactly the hexagons adjacent to `c`. */
  lemma NeighborsAreAdjacent(c: Cube, d: Cube)
    ensures d in HexNeighbors(c) <==> Adjacent(c, d)
  {
    var ns := HexNeighbors(c);
    if Adjacent(c, d) {
      var dx, dy, dz := d.x - c.x, d.y - c.y, d.z - c.z;
      assert dx + dy + dz == 0;
      assert -1 <= dx <= 1 && -1 <= dy <= 1 && -1 <= dz <= 1;
      var k :=
        if dx == 1 && dy == -1 then 0
        else if dx == -1 && dy == 1 then 1
        else if dx == 1 then 2
        else if dx == -1 then 3
        else if dy == 1 then 4
        else 5;
      assert d == ns[k];
    }
  }

  // ------------------------------------------------------------ the grid

  /** The cells `(x, y, -x - y)` for `y` from `lo` to `hi`: one pass of the
      inner loop of `generate_hex_grid`. */
  function Row(x: int, lo: int, hi: int): (row: seq<Cube>)
    ensures |row| == if lo <= hi then hi - lo + 1 else 0
    ensures forall c :: c in row <==> c.x == x && lo <= c.y <= hi && c.z == -x - c.y
    decreases hi - lo
  {
    if lo > hi then [] else [Cube(x, lo, -x - lo)] + Row(x, lo + 1, hi)
  }

  /** Lower and upper bound of `y` in the row of `x`. */
  function RowLow(rings: int, x: int): int {
    Max(-rings, -x - rings)
  }

  function RowHigh(rings: int, x: int): int {
    Min(rings, -x + rings)
  }

  /** The cells added by `generate_hex_grid` for `x` from `x0` to `rings`,
      in insertion order. */
  function RowsFrom(rings: int, x0: int): (cells: seq<Cube>)
    ensures forall c :: c in cells <==>
              x0 <= c.x <= rings && RowLow(rings, c.x) <= c.y <= RowHigh(rings, c.x) && c.z == -c.x - c.y
    decreases rings - x0
  {
    if x0 > rings then [] else Row(x0, RowLow(rings, x0), RowHigh(rings, x0)) + RowsFrom(rings, x0 + 1)
  }

  /** `generate_hex_grid(rings)`: the set of every cell the nested loops
      add, which is every hexagon of the plane `x + y + z == 0` within
      distance `rings` of the centre. */
  function GenerateHexGrid(rings: int): (grid: set<Cube>)
    ensures forall c :: c in grid <==> CoordSum(c) == 0 && Norm(c) <= rings
  {
    var cells := RowsFrom(rings, -rings);
    set c | c in cells
  }

  lemma {:induction false} RowNoDup(x: int, lo: int, hi: int)
    ensures NoDup(Row(x, lo, hi))
    decreases hi - lo
  {
    if lo <= hi {
      RowNoDup(x, lo + 1, hi);
      NoDupAppend([Cube(x, lo, -x - lo)], Row(x, lo + 1, hi));
    }
  }

  lemma {:induction false} RowsFromNoDup(rings: int, x0: int)
    ensures NoDup(RowsFrom(rings, x0))
    decreases rings - x0
  {
    if x0 <= rings {
      RowNoDup(x0, RowLow(rings, x0), RowHigh(rings, x0));
      RowsFromNoDup(rings, x0 + 1);
      NoDupAppend(Row(x0, RowLow(rings, x0), RowHigh(rings, x0)), RowsFrom(rings, x0 + 1));
    }
  }

  /** Twice the cell count of the rows `x0..r`, in closed form, for
      `x0 >= 0` and for `x0 <= 0`. */
  function RightTwice(r: int, x0: int): int {
    (r - x0 + 1) * (3 * r + 2 - x0)
  }

  function LeftTwice(r: int, x0: int): int {
    (r + 1) * (3 * r + 2) - 2 * x0 * (2 * r + 1) + x0 - x0 * x0
  }

  lemma RightStep(r: int, x0: int)
    ensures 2 * (2 * r + 1 - x0) + RightTwice(r, x0 + 1) == RightTwice(r, x0)
  {
    var a := r - x0;
    assert RightTwice(r, x0 + 1) == a * (2 * r + 1 + a);
    assert RightTwice(r, x0) == (a + 1) * (2 * r + 2 + a);
    assert (a + 1) * (2 * r + 2 + a) == a * (2 * r + 2 + a) + 2 * r + 2 + a;
    assert a * (2 * r + 2 + a) == a * (2 * r + 1 + a) + a;
  }

  lemma LeftStep(r: int, x0: int)
    ensures 2 * (2 * r + 1 + x0) + LeftTwice(r, x0 + 1) == LeftTwice(r, x0)
  {
    assert (x0 + 1) * (2 * r + 1) == x0 * (2 * r + 1) + 2 * r + 1;
    assert (x0 + 1) * (x0 + 1) == x0 * x0 + 2 * x0 + 1;
  }

  lemma LeftMeetsRight(r: int)
    ensures LeftTwice(r, 0) == RightTwice(r, 0)
  {
  }

  lemma WholeGridTwice(r: int)
    ensures LeftTwice(r, -r) == 2 * GridCount(r)
  {
    assert (r + 1) * (3 * r + 2) == 3 * r * r + 5 * r + 2;
    assert 2 * (-r) * (2 * r + 1) == -4 * r * r - 2 * r;
    assert (-r) * (-r) == r * r;
    assert 3 * r * (r + 1) == 3 * r * r + 3 * r;
  }

  /** Twice the number of cells in the rows `x0..rings` with `x0 >= 0`. */
  lemma {:induction false} RowsFromLengthRight(rings: int, x0: int)
    requires 0 <= x0 <= rings + 1
    ensures 2 * |RowsFrom(rings, x0)| == RightTwice(rings, x0)
    decreases rings - x0
  {
    if x0 <= rings {
      RowsFromLengthRight(rings, x0 + 1);
      assert |Row(x0, RowLow(rings, x0), RowHigh(rings, x0))| == 2 * rings + 1 - x0;
      RightStep(rings, x0);
    }
  }

  /** Twice the number of cells in the rows `x0..rings` with `x0 <= 0`. */
  lemma {:induction false} RowsFromLengthLeft(rings: int, x0: int)
    requires -rings <= x0 <= 0
    ensures 2 * |RowsFrom(rings, x0)| == LeftTwice(rings, x0)
    decreases -x0
  {
    if x0 == 0 {
      RowsFromLengthRight(rings, 0);
      LeftMeetsRight(rings);
    } else {
      RowsFromLengthLeft(rings, x0 + 1);
      assert |Row(x0, RowLow(rings, x0), RowHigh(rings, x0))| == 2 * rings + 1 + x0;
      LeftStep(rings, x0);
    }
  }

  /** The number of hexagons within distance `r >= 0` of a centre. */
  function GridCount(r: int): int {
    1 + 3 * r * (r + 1)
  }

  lemma RowsCount(rings: int)
    requires rings >= 0
    ensures |RowsFrom(rings, -rings)| == GridCount(rings)
  {
    RowsFromLengthLeft(rings, -rings);
    WholeGridTwice(rings);
  }

  lemma GridSizeIsRowsLength(rings: int)
    ensures |GenerateHexGrid(rings)| == |RowsFrom(rings, -rings)|
  {
    GridEnumeratedByRows(rings);
    EnumerationSize(RowsFrom(rings, -rings), GenerateHexGrid(rings));
  }

  /** A grid of radius `rings >= 0` has `1 + 3 * rings * (rings + 1)` cells;
      a negative radius gives the empty grid. */
  lemma GridSize(rings: int)
    ensures |GenerateHexGrid(rings)| == if rings < 0 then 0 else GridCount(rings)
  {
    GridSizeIsRowsLength(rings);
    if rings >= 0 {
      RowsCount(rings);
    }
  }

  /** The insertion sequence of `generate_hex_grid` lists every grid cell once. */
  lemma GridEnumeratedByRows(rings: int)
    ensures Enumerates(RowsFrom(rings, -rings), GenerateHexGrid(rings))
  {
    var cells := RowsFrom(rings, -rings);
    RowsFromNoDup(rings, -rings);
    assert GenerateHexGrid(rings) == set c | c in cells;
  }
}
