/** The raster grid (`Map` in CaveSpy/Map.cs) and its row-major indexing.

    A cell at column `x` and row `y` lives at index `y * width + x`; row 0 is
    the top of the map. Classification 0 marks a hole (no data). */
module Maps {
  import opened Common

  /** An RGB triple with 16-bit channels. */
  datatype Color = Color(red: int, green: int, blue: int)

  /** The physical bounding box and z extent of a map, in source units. */
  datatype Extent = Extent(
    left: real, top: real, right: real, bottom: real,
    width: real, height: real,
    high: real, low: real)

  /** The grid. `colors` is `None` when no colour array was allocated. */
  datatype Map = Map(
    elevations: seq<real>,
    classifications: seq<Byte>,
    colors: Option<seq<Option<Color>>>,
    zone: string,
    width: int,
    height: int,
    extent: Extent)

  /** Every per-cell array holds exactly one entry per cell. */
  predicate Valid(m: Map) {
    && m.width >= 1
    && m.height >= 1
    && |m.elevations| == m.width * m.height
    && |m.classifications| == m.width * m.height
    && (m.colors.Some? ==> |m.colors.value| == m.width * m.height)
  }

  /** The row-major index of the cell at column `x`, row `y`. */
  function Idx(w: int, x: int, y: int): int {
    y * w + x
  }

  /** The column of index `i`. */
  function Col(w: int, i: int): int
    requires w > 0
  {
    i % w
  }

  /** The row of index `i`. */
  function Row(w: int, i: int): int
    requires w > 0
  {
    i / w
  }

  predicate InGrid(w: int, h: int, x: int, y: int) {
    0 <= x < w && 0 <= y < h
  }

  /** The cells of classification 0. */
  function Holes(c: seq<Byte>): set<int> {
    set k | 0 <= k < |c| && c[k] == 0
  }

  lemma MulLeft(a: int, b: int, c: int)
    requires 0 <= c && a <= b
    ensures a * c <= b * c
  {
    assert (b - a) * c >= 0;
  }

  /** Cells of the grid have indices inside the arrays. */
  lemma IdxInRange(w: int, h: int, x: int, y: int)
    requires InGrid(w, h, x, y)
    ensures 0 <= Idx(w, x, y) < w * h
  {
    MulLeft(y, h - 1, w);
    MulLeft(0, y, w);
  }

  /** Division by `w` recovers the row and column of a cell. */
  lemma IdxCoords(w: int, x: int, y: int)
    requires 0 <= x < w
    ensures Col(w, Idx(w, x, y)) == x && Row(w, Idx(w, x, y)) == y
  {
    var n := Idx(w, x, y);
    var q, r := n / w, n % w;
    assert q * w + r == y * w + x;
    if q > y {
      MulSign(q - y - 1, w);
    } else if q < y {
      MulSign(y - q - 1, w);
    }
  }

  lemma MulSign(a: int, b: int)
    ensures 0 <= a && 0 <= b ==> 0 <= a * b
  {
  }

  /** Every index inside the arrays is the index of a cell. */
  lemma CellCoords(w: int, h: int, i: int)
    requires w > 0 && 0 <= i < w * h
    ensures InGrid(w, h, Col(w, i), Row(w, i))
    ensures Idx(w, Col(w, i), Row(w, i)) == i
  {
    if Row(w, i) >= h {
      MulLeft(h, Row(w, i), w);
    }
  }

  /** Distinct cells have distinct indices. */
  lemma IdxInjective(w: int, x1: int, y1: int, x2: int, y2: int)
    requires 0 <= x1 < w && 0 <= x2 < w
    requires Idx(w, x1, y1) == Idx(w, x2, y2)
    ensures x1 == x2 && y1 == y2
  {
    IdxCoords(w, x1, y1);
    IdxCoords(w, x2, y2);
  }
}
