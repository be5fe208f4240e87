/** The window structure of the smoothing filter (`MapAlgorithms.GeometricMeanFilter`).

    For every cell the filter multiplies `1 + elevation` over the in-bounds
    cells of the square window of half-size `N/2` around it, counts those
    cells, and writes `Pow(product, 1/count) - 1` into a fresh array; only
    when all cells are done does the fresh array replace the old one. The
    power itself is floating-point numerics and is a parameter here: `root`
    stands for `(z, n) => Math.Pow(z, 1.0 / n)`. */
module GeometricMean {
  import opened Common
  import opened Maps

  /** The first in-bounds coordinate of a window of half-size `n2` at `c`. */
  function Lo(c: int, n2: int): int {
    if c - n2 < 0 then 0 else c - n2
  }

  /** The last in-bounds coordinate of a window of half-size `n2` at `c` on an
      axis of `size` cells. */
  function Hi(c: int, n2: int, size: int): int {
    if c + n2 > size - 1 then size - 1 else c + n2
  }

  /** The number of integers in `lo .. hi`. */
  function Span(lo: int, hi: int): nat {
    if hi < lo then 0 else hi - lo + 1
  }

  /** The number of in-bounds cells of the clipped window at `(x, y)`. */
  function WindowCount(w: int, h: int, x: int, y: int, n2: int): nat {
    Span(Lo(x, n2), Hi(x, n2, w)) * Span(Lo(y, n2), Hi(y, n2, h))
  }

  /** The factor cell `(x, y)` contributes: one plus its elevation. */
  function Factor(e: seq<real>, w: int, x: int, y: int): real {
    var i := Idx(w, x, y);
    (if 0 <= i < |e| then e[i] else 0.0) + 1.0
  }

  /** The factors of column `x`, rows `y0 .. y1`, top to bottom. */
  function ColumnFactors(e: seq<real>, w: int, x: int, y0: int, y1: int): (fs: seq<real>)
    ensures |fs| == Span(y0, y1)
    decreases y1 - y0
  {
    if y1 < y0 then [] else ColumnFactors(e, w, x, y0, y1 - 1) + [Factor(e, w, x, y1)]
  }

  /** The factors of columns `x0 .. x1`, rows `y0 .. y1`, in the order the
      filter visits them: column by column, each column top to bottom. */
  function BlockFactors(e: seq<real>, w: int, x0: int, x1: int, y0: int, y1: int): seq<real>
    decreases x1 - x0
  {
    if x1 < x0 then [] else BlockFactors(e, w, x0, x1 - 1, y0, y1) + ColumnFactors(e, w, x1, y0, y1)
  }

  /** The factors of the clipped window at `(x, y)`. */
  function WindowFactors(e: seq<real>, w: int, h: int, x: int, y: int, n2: int): seq<real> {
    BlockFactors(e, w, Lo(x, n2), Hi(x, n2, w), Lo(y, n2), Hi(y, n2, h))
  }

  /** The product of a sequence of factors, multiplied left to right. */
  function Product(fs: seq<real>): real {
    if |fs| == 0 then 1.0 else Product(fs[..|fs| - 1]) * fs[|fs| - 1]
  }

  lemma ProductAppend(fs: seq<real>, f: real)
    ensures Product(fs + [f]) == Product(fs) * f
  {
    assert (fs + [f])[..|fs|] == fs;
  }

  /** The block holds one factor per cell: the count is the product of the
      two clipped spans. */
  lemma {:induction false} BlockSize(e: seq<real>, w: int, x0: int, x1: int, y0: int, y1: int)
    ensures |BlockFactors(e, w, x0, x1, y0, y1)| == Span(x0, x1) * Span(y0, y1)
    decreases x1 - x0
  {
    if x1 >= x0 {
      BlockSize(e, w, x0, x1 - 1, y0, y1);
      var a, s := Span(x0, x1 - 1), Span(y0, y1);
      assert Span(x0, x1) == a + 1;
      assert (a + 1) * s == a * s + s;
    }
  }

  /** The value the filter writes into cell `(x, y)`. */
  function Smoothed(e: seq<real>, w: int, h: int, x: int, y: int, n2: int, root: (real, int) -> real): real {
    root(Product(WindowFactors(e, w, h, x, y, n2)), WindowCount(w, h, x, y, n2)) - 1.0
  }

  function Min(a: int, b: int): int {
    if a < b then a else b
  }

  /** Visits the unclipped window column by column, skipping positions off the
      grid, and returns the product of the factors and the number of cells
      visited. */
  method Window(e: seq<real>, w: int, h: int, x: int, y: int, n2: int) returns (z: real, cnt: int)
    requires |e| == w * h && InGrid(w, h, x, y)
    ensures cnt == WindowCount(w, h, x, y, n2) == |WindowFactors(e, w, h, x, y, n2)|
    ensures z == Product(WindowFactors(e, w, h, x, y, n2))
  {
    var x0, x1, y0, y1 := Lo(x, n2), Hi(x, n2, w), Lo(y, n2), Hi(y, n2, h);
    z, cnt := 1.0, 0;
    ghost var visited: seq<real> := [];
    WindowEnds(x, n2, w);
    WindowEnds(y, n2, h);
    var i := -n2;
    while i <= n2
      invariant -n2 <= i && (n2 >= 0 ==> i <= n2 + 1)
      invariant visited == BlockFactors(e, w, x0, Min(x + i - 1, x1), y0, y1)
      invariant z == Product(visited) && cnt == |visited|
    {
      var xx := i + x;
      ghost var before := visited;
      z, cnt := ColumnPass(e, w, h, xx, y, n2, z, cnt, visited);
      visited := if 0 <= xx < w then visited + ColumnFactors(e, w, xx, y0, y1) else visited;
      BlockStep(e, w, h, x, y, n2, i);
      i := i + 1;
    }
    BlockSize(e, w, x0, x1, y0, y1);
  }

  /** The inner loop of the filter for column `xx`: multiplies in the factors
      of the column's on-grid cells, top to bottom, and counts them. */
  method ColumnPass(e: seq<real>, w: int, h: int, xx: int, y: int, n2: int, z0: real, cnt0: int, ghost visited: seq<real>)
    returns (z: real, cnt: int)
    requires |e| == w * h && 0 <= y < h
    requires z0 == Product(visited) && cnt0 == |visited|
    ensures 0 <= xx < w ==>
      var column := ColumnFactors(e, w, xx, Lo(y, n2), Hi(y, n2, h));
      z == Product(visited + column) && cnt == |visited + column|
    ensures !(0 <= xx < w) ==> z == z0 && cnt == cnt0
  {
    z, cnt := z0, cnt0;
    ghost var seen := visited;
    WindowEnds(y, n2, h);
    var j := -n2;
    while j <= n2
      invariant -n2 <= j && (n2 >= 0 ==> j <= n2 + 1)
      invariant ColumnSeen(e, w, h, xx, y, n2, visited, seen, j)
      invariant z == Product(seen) && cnt == |seen|
    {
      var yy := j + y;
      ColumnStep(e, w, h, xx, y, n2, j, visited, seen);
      if !(xx < 0 || xx >= w || yy < 0 || yy >= h) {
        z, cnt, seen := MultiplyIn(e, w, h, xx, yy, z, cnt, seen);
      }
      j := j + 1;
    }
  }

  /** The body of the inner loop for an on-grid cell: multiplies its factor
      into the running product and counts it. */
  method MultiplyIn(e: seq<real>, w: int, h: int, xx: int, yy: int, z0: real, cnt0: int, ghost seen0: seq<real>)
    returns (z: real, cnt: int, ghost seen: seq<real>)
    requires |e| == w * h && InGrid(w, h, xx, yy)
    requires z0 == Product(seen0) && cnt0 == |seen0|
    ensures seen == seen0 + [Factor(e, w, xx, yy)]
    ensures z == Product(seen) && cnt == |seen|
  {
    FactorAt(e, w, h, xx, yy);
    var f := e[xx + yy * w] + 1.0;
    ProductAppend(seen0, f);
    seen := seen0 + [f];
    cnt := cnt0 + 1;
    z := z0 * f;
  }

  /** `seen` is `visited` followed by the factors of column `xx` up to row
      offset `j - 1`, or just `visited` when the column is off the grid. */
  predicate ColumnSeen(e: seq<real>, w: int, h: int, xx: int, y: int, n2: int, visited: seq<real>, seen: seq<real>, j: int) {
    if 0 <= xx < w then seen == visited + ColumnFactors(e, w, xx, Lo(y, n2), Min(y + j - 1, Hi(y, n2, h)))
    else seen == visited
  }

  /** One step of the inner loop: an on-grid cell appends its factor, an
      off-grid position leaves `seen` alone. */
  lemma ColumnStep(e: seq<real>, w: int, h: int, xx: int, y: int, n2: int, j: int, visited: seq<real>, seen: seq<real>)
    requires 0 <= y < h && -n2 <= j <= n2
    requires ColumnSeen(e, w, h, xx, y, n2, visited, seen, j)
    ensures 0 <= xx < w && 0 <= y + j < h ==>
      ColumnSeen(e, w, h, xx, y, n2, visited, seen + [Factor(e, w, xx, y + j)], j + 1)
    ensures !(0 <= xx < w && 0 <= y + j < h) ==> ColumnSeen(e, w, h, xx, y, n2, visited, seen, j + 1)
  {
    if 0 <= xx < w {
      if 0 <= y + j < h {
        HitStep(e, w, h, xx, y, n2, j, visited, seen);
      } else {
        ColumnMiss(e, w, h, xx, y, n2, j);
      }
    }
  }

  /** Visiting an on-grid cell appends its factor to what has been seen. */
  lemma HitStep(e: seq<real>, w: int, h: int, xx: int, y: int, n2: int, j: int, visited: seq<real>, seen: seq<real>)
    requires 0 <= y < h && -n2 <= j <= n2 && 0 <= y + j < h
    requires seen == visited + ColumnFactors(e, w, xx, Lo(y, n2), Min(y + j - 1, Hi(y, n2, h)))
    ensures seen + [Factor(e, w, xx, y + j)] == visited + ColumnFactors(e, w, xx, Lo(y, n2), Min(y + j, Hi(y, n2, h)))
  {
    ColumnHit(e, w, h, xx, y, n2, j);
    AppendAssoc(visited, ColumnFactors(e, w, xx, Lo(y, n2), Min(y + j - 1, Hi(y, n2, h))), Factor(e, w, xx, y + j));
  }

  lemma AppendAssoc(a: seq<real>, b: seq<real>, f: real)
    ensures (a + b) + [f] == a + (b + [f])
  {
  }

  /** An on-grid cell's factor is read straight from the elevations. */
  lemma FactorAt(e: seq<real>, w: int, h: int, xx: int, yy: int)
    requires |e| == w * h && InGrid(w, h, xx, yy)
    ensures 0 <= xx + yy * w < |e|
    ensures Factor(e, w, xx, yy) == e[xx + yy * w] + 1.0
  {
    IdxInRange(w, h, xx, yy);
  }

  /** The first position of a window lies before its clipped range and the
      position after the last lies beyond it. */
  lemma WindowEnds(c: int, n2: int, size: int)
    requires 0 <= c < size
    ensures Min(c - n2 - 1, Hi(c, n2, size)) < Lo(c, n2)
    ensures n2 >= 0 ==> Min(c + n2, Hi(c, n2, size)) == Hi(c, n2, size)
    ensures n2 < 0 ==> Min(c - n2 - 1, Hi(c, n2, size)) == Hi(c, n2, size)
  {
  }

  /** A row offset `j` whose cell is on the grid extends the visited part of
      the column by that cell's factor. */
  lemma ColumnHit(e: seq<real>, w: int, h: int, xx: int, y: int, n2: int, j: int)
    requires 0 <= y < h && -n2 <= j <= n2 && 0 <= y + j < h
    ensures ColumnFactors(e, w, xx, Lo(y, n2), Min(y + j, Hi(y, n2, h))) ==
      ColumnFactors(e, w, xx, Lo(y, n2), Min(y + j - 1, Hi(y, n2, h))) + [Factor(e, w, xx, y + j)]
  {
    assert Lo(y, n2) <= y + j <= Hi(y, n2, h);
  }

  /** A row offset `j` whose cell is off the grid leaves the visited part of the
      column as it is. */
  lemma ColumnMiss(e: seq<real>, w: int, h: int, xx: int, y: int, n2: int, j: int)
    requires 0 <= y < h && -n2 <= j <= n2 && !(0 <= y + j < h)
    ensures ColumnFactors(e, w, xx, Lo(y, n2), Min(y + j, Hi(y, n2, h))) ==
      ColumnFactors(e, w, xx, Lo(y, n2), Min(y + j - 1, Hi(y, n2, h)))
  {
    var y0, y1, yy := Lo(y, n2), Hi(y, n2, h), y + j;
    if yy < 0 {
      assert Min(yy, y1) < y0 && Min(yy - 1, y1) < y0;
    } else {
      assert Min(yy, y1) == y1 == Min(yy - 1, y1);
    }
  }

  /** Visiting column offset `i` appends that column's factors exactly when the
      column is on the grid. */
  lemma BlockStep(e: seq<real>, w: int, h: int, x: int, y: int, n2: int, i: int)
    requires 0 <= x < w && -n2 <= i <= n2
    ensures 0 <= x + i < w ==>
      BlockFactors(e, w, Lo(x, n2), Min(x + i, Hi(x, n2, w)), Lo(y, n2), Hi(y, n2, h)) ==
        BlockFactors(e, w, Lo(x, n2), Min(x + i - 1, Hi(x, n2, w)), Lo(y, n2), Hi(y, n2, h)) +
        ColumnFactors(e, w, x + i, Lo(y, n2), Hi(y, n2, h))
    ensures !(0 <= x + i < w) ==>
      BlockFactors(e, w, Lo(x, n2), Min(x + i, Hi(x, n2, w)), Lo(y, n2), Hi(y, n2, h)) ==
        BlockFactors(e, w, Lo(x, n2), Min(x + i - 1, Hi(x, n2, w)), Lo(y, n2), Hi(y, n2, h))
  {
    var x0, x1, xx := Lo(x, n2), Hi(x, n2, w), x + i;
    if xx < 0 {
      assert Min(xx, x1) < x0 && Min(xx - 1, x1) < x0;
    } else if xx < w {
      assert x0 <= xx <= x1;
    } else {
      assert Min(xx, x1) == x1 == Min(xx - 1, x1);
    }
  }

  /** The first `i` cells of `ne` hold their smoothed values. */
  predicate SmoothedUpTo(ne: seq<real>, e: seq<real>, w: int, h: int, n2: int, root: (real, int) -> real, i: int)
    requires w > 0
  {
    forall k :: 0 <= k < i && k < |ne| ==> ne[k] == Smoothed(e, w, h, Col(w, k), Row(w, k), n2, root)
  }

  /** Writing the smoothed value of cell `(x, y)` extends the done prefix by one. */
  lemma SmoothStep(ne: seq<real>, e: seq<real>, w: int, h: int, n2: int, root: (real, int) -> real, x: int, y: int)
    requires |ne| == w * h && InGrid(w, h, x, y)
    requires SmoothedUpTo(ne, e, w, h, n2, root, Idx(w, x, y))
    ensures 0 <= Idx(w, x, y) < |ne|
    ensures SmoothedUpTo(ne[Idx(w, x, y) := Smoothed(e, w, h, x, y, n2, root)], e, w, h, n2, root, Idx(w, x, y) + 1)
  {
    IdxInRange(w, h, x, y);
    IdxCoords(w, x, y);
  }

  /** The filter. Every output cell is computed from the input elevations only,
      over the window clipped to the grid; classifications and all other
      fields are untouched. */
  method GeometricMeanFilter(m: Map, n: int, root: (real, int) -> real) returns (r: Map)
    requires Valid(m)
    ensures Valid(r)
    ensures r == m.(elevations := r.elevations)
    ensures forall k :: 0 <= k < |r.elevations| ==>
      r.elevations[k] == Smoothed(m.elevations, m.width, m.height, Col(m.width, k), Row(m.width, k), Half(n), root)
  {
    var w, h := m.width, m.height;
    var newElevations := seq(w * h, _ => 0.0);
    var n2 := Half(n);
    var y := 0;
    while y < h
      invariant 0 <= y <= h
      invariant |newElevations| == w * h
      invariant SmoothedUpTo(newElevations, m.elevations, w, h, n2, root, y * w)
    {
      newElevations := SmoothRow(m.elevations, w, h, y, n2, root, newElevations);
      y := y + 1;
    }
    assert h * w == |newElevations|;
    r := m.(elevations := newElevations);
  }

  /** One pass of the inner loop: smooths every cell of row `y`. */
  method SmoothRow(e: seq<real>, w: int, h: int, y: int, n2: int, root: (real, int) -> real, ne: seq<real>)
    returns (ne': seq<real>)
    requires |e| == w * h && |ne| == w * h && w > 0 && 0 <= y < h
    requires SmoothedUpTo(ne, e, w, h, n2, root, y * w)
    ensures |ne'| == w * h
    ensures SmoothedUpTo(ne', e, w, h, n2, root, (y + 1) * w)
  {
    ne' := ne;
    var x := 0;
    while x < w
      invariant 0 <= x <= w
      invariant |ne'| == w * h
      invariant SmoothedUpTo(ne', e, w, h, n2, root, y * w + x)
    {
      var z, cnt := Window(e, w, h, x, y, n2);
      SmoothStep(ne', e, w, h, n2, root, x, y);
      ne' := ne'[x + y * w := root(z, cnt) - 1.0];
      x := x + 1;
    }
    assert y * w + w == (y + 1) * w;
  }

  /** Along one axis a window of half-size `n2 >= 0` keeps between 1 and
      `2 * n2 + 1` positions; a negative half-size keeps none. */
  lemma SpanBounds(c: int, n2: int, size: int)
    requires 0 <= c < size
    ensures n2 >= 0 ==> 1 <= Span(Lo(c, n2), Hi(c, n2, size)) <= 2 * n2 + 1
    ensures n2 < 0 ==> Span(Lo(c, n2), Hi(c, n2, size)) == 0
  {
  }

  lemma MulMono(a: int, b: int, c: int, d: int)
    requires 0 <= a <= c && 0 <= b <= d
    ensures a * b <= c * d
  {
    MulLeft(a, c, b);
    MulLeft(b, d, c);
  }

  /** Every cell's window contains at least the cell itself when `N >= -1`;
      for smaller `N` the loops are empty and the count is 0. */
  lemma WindowCountBounds(w: int, h: int, x: int, y: int, n: int)
    requires InGrid(w, h, x, y)
    ensures n >= -1 ==> 1 <= WindowCount(w, h, x, y, Half(n)) <= (2 * Half(n) + 1) * (2 * Half(n) + 1)
    ensures n <= -2 ==> WindowCount(w, h, x, y, Half(n)) == 0
  {
    var n2 := Half(n);
    SpanBounds(x, n2, w);
    SpanBounds(y, n2, h);
    var sx, sy := Span(Lo(x, n2), Hi(x, n2, w)), Span(Lo(y, n2), Hi(y, n2, h));
    if n >= -1 {
      MulMono(1, 1, sx, sy);
      MulMono(sx, sy, 2 * n2 + 1, 2 * n2 + 1);
    } else {
      assert sx == 0;
    }
  }

  /** `b` to the power `k`. */
  function Power(b: real, k: nat): real {
    if k == 0 then 1.0 else Power(b, k - 1) * b
  }

  /** A product of equal factors is a power. */
  lemma {:induction false} ProductOfEqual(fs: seq<real>, b: real)
    requires forall i :: 0 <= i < |fs| ==> fs[i] == b
    ensures Product(fs) == Power(b, |fs|)
  {
    if |fs| > 0 {
      ProductOfEqual(fs[..|fs| - 1], b);
    }
  }

  /** On a flat surface of elevation `k` every factor of a column is `1 + k`. */
  lemma {:induction false} FlatColumn(e: seq<real>, w: int, h: int, x: int, y0: int, y1: int, k: real)
    requires |e| == w * h && 0 <= x < w && 0 <= y0 && y1 < h
    requires forall i :: 0 <= i < |e| ==> e[i] == k
    ensures forall i :: 0 <= i < |ColumnFactors(e, w, x, y0, y1)| ==> ColumnFactors(e, w, x, y0, y1)[i] == 1.0 + k
    decreases y1 - y0
  {
    if y1 >= y0 {
      FlatColumn(e, w, h, x, y0, y1 - 1, k);
      IdxInRange(w, h, x, y1);
      var front := ColumnFactors(e, w, x, y0, y1 - 1);
      assert ColumnFactors(e, w, x, y0, y1) == front + [Factor(e, w, x, y1)];
    }
  }

  /** On a flat surface of elevation `k` every factor of a block is `1 + k`. */
  lemma {:induction false} FlatBlock(e: seq<real>, w: int, h: int, x0: int, x1: int, y0: int, y1: int, k: real)
    requires |e| == w * h && 0 <= x0 && x1 < w && 0 <= y0 && y1 < h
    requires forall i :: 0 <= i < |e| ==> e[i] == k
    ensures forall i :: 0 <= i < |BlockFactors(e, w, x0, x1, y0, y1)| ==> BlockFactors(e, w, x0, x1, y0, y1)[i] == 1.0 + k
    decreases x1 - x0
  {
    if x1 >= x0 {
      FlatBlock(e, w, h, x0, x1 - 1, y0, y1, k);
      FlatColumn(e, w, h, x1, y0, y1, k);
      var front, back := BlockFactors(e, w, x0, x1 - 1, y0, y1), ColumnFactors(e, w, x1, y0, y1);
      assert BlockFactors(e, w, x0, x1, y0, y1) == front + back;
      forall i | 0 <= i < |front + back|
        ensures (front + back)[i] == 1.0 + k
      {
        if i >= |front| {
          assert (front + back)[i] == back[i - |front|];
        }
      }
    }
  }

  /** On a flat surface of elevation `k` the window product is `1 + k` to the
      power of the window count. */
  lemma FlatWindow(m: Map, x: int, y: int, n2: int, k: real)
    requires Valid(m) && InGrid(m.width, m.height, x, y)
    requires forall i :: 0 <= i < |m.elevations| ==> m.elevations[i] == k
    ensures Product(WindowFactors(m.elevations, m.width, m.height, x, y, n2)) ==
      Power(1.0 + k, WindowCount(m.width, m.height, x, y, n2))
  {
    var e, w, h := m.elevations, m.width, m.height;
    FlatBlock(e, w, h, Lo(x, n2), Hi(x, n2, w), Lo(y, n2), Hi(y, n2, h), k);
    BlockSize(e, w, Lo(x, n2), Hi(x, n2, w), Lo(y, n2), Hi(y, n2, h));
    ProductOfEqual(WindowFactors(e, w, h, x, y, n2), 1.0 + k);
  }

  /** With a root that inverts `Power` on non-negative bases, the filter
      leaves a flat surface of elevation `k >= -1` as it is, for every window
      size that keeps the cell itself in its window. */
  lemma FlatSmoothed(m: Map, x: int, y: int, n: int, k: real, root: (real, int) -> real)
    requires Valid(m) && InGrid(m.width, m.height, x, y)
    requires forall i :: 0 <= i < |m.elevations| ==> m.elevations[i] == k
    requires forall b: real, c: nat :: b >= 0.0 && c >= 1 ==> root(Power(b, c), c) == b
    requires k >= -1.0 && n >= -1
    ensures Smoothed(m.elevations, m.width, m.height, x, y, Half(n), root) == k
  {
    FlatWindow(m, x, y, Half(n), k);
    WindowCountBounds(m.width, m.height, x, y, n);
  }
}
