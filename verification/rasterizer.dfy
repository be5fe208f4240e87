/** Point-to-cell rasterisation (`MapAlgorithms.ReadCloudIntoMap`).

    Points arrive already in physical units. A point outside the header's
    bounding box is skipped. Every other point lands in one cell: its column
    comes from its x offset from the left edge, and its row from its y offset
    from `top` (the minimum y), counted upwards from the bottom row. The cell
    sums the z values of its points and afterwards divides by their number;
    classification and colour are those of the last point in the cell. */
module Rasterizer {
  import opened Common
  import opened Maps

  /** The part of the point-cloud header the rasteriser reads. */
  datatype Header = Header(
    minX: real, maxX: real, minY: real, maxY: real, minZ: real, maxZ: real,
    pointDataFormat: int)

  /** A point record after scale and offset have been applied. */
  datatype Point = Point(x: real, y: real, z: real, classification: Byte, color: Color)

  datatype Cloud = Cloud(header: Header, zone: string, points: seq<Point>)

  datatype RasterError =
    | NonPositiveWidth   // the requested width is below 1
    | DegenerateBounds   // the box has no width, or the derived height is below 1

  /** The bounding box of the map: the header's x and y ranges. */
  function ExtentOf(h: Header): Extent {
    Extent(h.minX, h.minY, h.maxX, h.maxY, h.maxX - h.minX, h.maxY - h.minY, h.maxZ, h.minZ)
  }

  /** Point formats 2 and 3 carry RGB. */
  predicate HasColor(h: Header) {
    h.pointDataFormat == 2 || h.pointDataFormat == 3
  }

  /** The height that keeps the box's aspect ratio at the requested width. */
  function DerivedHeight(h: Header, mapWidth: int): int
    requires h.maxX - h.minX > 0.0
  {
    Trunc(mapWidth as real / (h.maxX - h.minX) * (h.maxY - h.minY))
  }

  /** The inputs for which the grid can be built. */
  predicate Admissible(h: Header, mapWidth: int) {
    && mapWidth >= 1
    && h.maxX - h.minX > 0.0
    && DerivedHeight(h, mapWidth) >= 1
  }

  /** A box with positive extent and a grid of at least one cell. */
  datatype Layout = Layout(box: Extent, width: int, height: int)

  predicate WellFormed(l: Layout) {
    && l.width >= 1 && l.height >= 1
    && l.box.width == l.box.right - l.box.left && l.box.width > 0.0
    && l.box.height == l.box.bottom - l.box.top && l.box.height > 0.0
  }

  /** The point is inside the bounding box, edges included. */
  predicate InArea(l: Layout, p: Point) {
    !(p.x < l.box.left || p.x > l.box.right || p.y < l.box.top || p.y > l.box.bottom)
  }

  function XScale(l: Layout): real
    requires WellFormed(l)
  {
    (l.width - 1) as real / l.box.width
  }

  function YScale(l: Layout): real
    requires WellFormed(l)
  {
    (l.height - 1) as real / l.box.height
  }

  /** The column of a point. */
  function ColumnOf(l: Layout, p: Point): int
    requires WellFormed(l)
  {
    Trunc((p.x - l.box.left) * XScale(l))
  }

  /** The row of a point: the y axis is inverted. */
  function RowOf(l: Layout, p: Point): int
    requires WellFormed(l)
  {
    l.height - Trunc((p.y - l.box.top) * YScale(l)) - 1
  }

  function CellOf(l: Layout, p: Point): int
    requires WellFormed(l)
  {
    Idx(l.width, ColumnOf(l, p), RowOf(l, p))
  }

  /** A point inside the box lands on a cell of the grid. */
  lemma CellInRange(l: Layout, p: Point)
    requires WellFormed(l) && InArea(l, p)
    ensures 0 <= ColumnOf(l, p) < l.width
    ensures 0 <= RowOf(l, p) < l.height
    ensures 0 <= CellOf(l, p) < l.width * l.height
  {
    ColumnInRange(l, p);
    RowInRange(l, p);
    IdxInRange(l.width, l.height, ColumnOf(l, p), RowOf(l, p));
  }

  lemma ColumnInRange(l: Layout, p: Point)
    requires WellFormed(l) && InArea(l, p)
    ensures 0 <= ColumnOf(l, p) < l.width
  {
    ScaledOffsetInRange(p.x - l.box.left, l.box.width, l.width);
  }

  lemma RowInRange(l: Layout, p: Point)
    requires WellFormed(l) && InArea(l, p)
    ensures 0 <= RowOf(l, p) < l.height
  {
    ScaledOffsetInRange(p.y - l.box.top, l.box.height, l.height);
  }

  /** An offset `d` within `[0, extent]`, scaled by `(n-1)/extent` and
      truncated, is one of `0 .. n-1`. */
  lemma ScaledOffsetInRange(d: real, extent: real, n: int)
    requires 0.0 <= d <= extent && extent > 0.0 && n >= 1
    ensures 0 <= Trunc(d * ((n - 1) as real / extent)) <= n - 1
  {
    var s := (n - 1) as real / extent;
    assert s >= 0.0;
    assert d * s <= extent * s;
    assert extent * s == (n - 1) as real;
  }

  /** The bottom edge of the box (maximum y) is row 0, the top edge (minimum y)
      is the last row. */
  lemma RowsAreInverted(l: Layout, p: Point)
    requires WellFormed(l)
    ensures p.y == l.box.top ==> RowOf(l, p) == l.height - 1
    ensures p.y == l.box.bottom ==> RowOf(l, p) == 0
  {
    if p.y == l.box.top {
      assert (p.y - l.box.top) * YScale(l) == 0.0;
    } else if p.y == l.box.bottom {
      assert (p.y - l.box.top) * YScale(l) == (l.height - 1) as real;
    }
  }

  /** The in-area points of `pts` that land on cell `k`, in input order. */
  function Hits(l: Layout, pts: seq<Point>, k: int): (hs: seq<Point>)
    requires WellFormed(l)
    ensures |hs| <= |pts|
    ensures forall q :: q in hs ==> q in pts && InArea(l, q) && CellOf(l, q) == k
  {
    if |pts| == 0 then []
    else
      var p := pts[|pts| - 1];
      Hits(l, pts[..|pts| - 1], k) + (if InArea(l, p) && CellOf(l, p) == k then [p] else [])
  }

  function SumZ(ps: seq<Point>): real {
    if |ps| == 0 then 0.0 else SumZ(ps[..|ps| - 1]) + ps[|ps| - 1].z
  }

  lemma HitsExtend(l: Layout, pts: seq<Point>, n: int, k: int)
    requires WellFormed(l) && 0 <= n < |pts|
    ensures Hits(l, pts[..n + 1], k) ==
      Hits(l, pts[..n], k) + (if InArea(l, pts[n]) && CellOf(l, pts[n]) == k then [pts[n]] else [])
  {
    assert pts[..n + 1][..n] == pts[..n];
  }

  lemma {:induction false} HitsAppend(l: Layout, a: seq<Point>, b: seq<Point>, k: int)
    requires WellFormed(l)
    ensures Hits(l, a + b, k) == Hits(l, a, k) + Hits(l, b, k)
  {
    if |b| > 0 {
      assert (a + b)[..|a + b| - 1] == a + b[..|b| - 1];
      HitsAppend(l, a, b[..|b| - 1], k);
    } else {
      assert a + b == a;
    }
  }

  /** A point outside the box never affects any cell, wherever it occurs. */
  lemma OutsidePointIgnored(l: Layout, a: seq<Point>, p: Point, b: seq<Point>, k: int)
    requires WellFormed(l) && !InArea(l, p)
    ensures Hits(l, a + [p] + b, k) == Hits(l, a + b, k)
  {
    assert (a + [p])[..|a|] == a;
    assert Hits(l, a + [p], k) == Hits(l, a, k);
    HitsAppend(l, a + [p], b, k);
    HitsAppend(l, a, b, k);
  }

  /** The layout the rasteriser uses for a header and a width. */
  function LayoutOf(h: Header, mapWidth: int): Layout
    requires h.maxX - h.minX > 0.0
  {
    Layout(ExtentOf(h), mapWidth, DerivedHeight(h, mapWidth))
  }

  lemma AdmissibleLayout(h: Header, mapWidth: int)
    requires Admissible(h, mapWidth)
    ensures WellFormed(LayoutOf(h, mapWidth))
  {
    var q := mapWidth as real / (h.maxX - h.minX);
    PositiveQuotient(mapWidth as real, h.maxX - h.minX);
    assert q * (h.maxY - h.minY) >= 1.0;
    PositiveFactor(q, h.maxY - h.minY);
  }

  lemma PositiveQuotient(a: real, d: real)
    requires a > 0.0 && d > 0.0
    ensures a / d > 0.0
  {
  }

  lemma PositiveFactor(q: real, y: real)
    requires q > 0.0 && q * y > 0.0
    ensures y > 0.0
  {
  }

  /** The cell values a rasterised map must hold, given the points per cell:
      no point leaves a hole, otherwise the mean z and the last point's
      classification and colour. */
  predicate CellHolds(m: Map, k: int, hs: seq<Point>, withColor: bool)
    requires 0 <= k < |m.elevations| && 0 <= k < |m.classifications|
    requires m.colors.Some? && k < |m.colors.value|
  {
    if |hs| == 0 then
      m.elevations[k] == 0.0 && m.classifications[k] == 0 && m.colors.value[k] == None
    else
      && m.elevations[k] == SumZ(hs) / |hs| as real
      && m.classifications[k] == hs[|hs| - 1].classification
      && m.colors.value[k] == (if withColor then Some(hs[|hs| - 1].color) else None)
  }

  /** Builds the map from the point cloud. */
  method ReadCloudIntoMap(cloud: Cloud, mapWidth: int) returns (r: Result<Map, RasterError>)
    ensures r.Err? <==> !Admissible(cloud.header, mapWidth)
    ensures r.Err? ==> r.error == (if mapWidth < 1 then NonPositiveWidth else DegenerateBounds)
    ensures r.Ok? ==> Valid(r.value) && r.value.colors.Some?
    ensures r.Ok? ==> r.value.width == mapWidth && r.value.height == DerivedHeight(cloud.header, mapWidth)
    ensures r.Ok? ==> r.value.extent == ExtentOf(cloud.header) && r.value.zone == cloud.zone
    ensures r.Ok? ==> forall k :: 0 <= k < mapWidth * r.value.height ==>
      CellHolds(r.value, k, Hits(LayoutOf(cloud.header, mapWidth), cloud.points, k), HasColor(cloud.header))
  {
    var h := cloud.header;
    if mapWidth < 1 {
      return Err(NonPositiveWidth);
    }
    if !(h.maxX - h.minX > 0.0) || DerivedHeight(h, mapWidth) < 1 {
      return Err(DegenerateBounds);
    }
    var l := LayoutOf(h, mapWidth);
    AdmissibleLayout(h, mapWidth);
    var size := l.width * l.height;
    var pts := cloud.points;
    var tallies := AccumulatePoints(l, pts, HasColor(h));
    var elevations := AverageCells(tallies);
    var classes := seq(size, k requires 0 <= k < size => tallies[k].classification);
    var colors := seq(size, k requires 0 <= k < size => tallies[k].color);
    var m := Map(elevations, classes, Some(colors), cloud.zone, l.width, l.height, l.box);
    forall k | 0 <= k < size
      ensures CellHolds(m, k, Hits(l, pts, k), HasColor(h))
    {
      var hs := Hits(l, pts, k);
      TallyOfSummarises(hs, HasColor(h));
      if |hs| == 1 {
        assert hs[..0] == [];
      }
    }
    r := Ok(m);
  }

  /** What the first pass keeps per cell: the sum of z, the number of
      contributing points, and the classification and colour last written. */
  datatype Tally = Tally(sum: real, count: nat, classification: Byte, color: Option<Color>)

  const EmptyTally := Tally(0.0, 0, 0, None)

  /** The effect of one more point on a cell's tally. */
  function AddPoint(t: Tally, p: Point, withColor: bool): Tally {
    Tally(t.sum + p.z, t.count + 1, p.classification, if withColor then Some(p.color) else t.color)
  }

  /** The tally after the points `hs`, in order. */
  function TallyOf(hs: seq<Point>, withColor: bool): Tally {
    if |hs| == 0 then EmptyTally
    else AddPoint(TallyOf(hs[..|hs| - 1], withColor), hs[|hs| - 1], withColor)
  }

  lemma TallyAppend(hs: seq<Point>, p: Point, withColor: bool)
    ensures TallyOf(hs + [p], withColor) == AddPoint(TallyOf(hs, withColor), p, withColor)
  {
    assert (hs + [p])[..|hs|] == hs;
  }

  /** The tally sums z, counts the points, and keeps the last classification
      and (when colour is recorded) the last colour. */
  lemma {:induction false} TallyOfSummarises(hs: seq<Point>, withColor: bool)
    ensures TallyOf(hs, withColor).sum == SumZ(hs)
    ensures TallyOf(hs, withColor).count == |hs|
    ensures TallyOf(hs, withColor).classification == (if |hs| == 0 then 0 else hs[|hs| - 1].classification)
    ensures TallyOf(hs, withColor).color == (if |hs| == 0 || !withColor then None else Some(hs[|hs| - 1].color))
  {
    if |hs| > 0 {
      TallyOfSummarises(hs[..|hs| - 1], withColor);
    }
  }

  /** One point's effect on the per-cell tallies of the first pass. */
  lemma TallyStep(l: Layout, pts: seq<Point>, n: int, withColor: bool, before: seq<Tally>, after: seq<Tally>)
    requires WellFormed(l) && 0 <= n < |pts|
    requires |before| == |after| == l.width * l.height
    requires forall k :: 0 <= k < |before| ==> before[k] == TallyOf(Hits(l, pts[..n], k), withColor)
    requires InArea(l, pts[n]) ==>
      0 <= CellOf(l, pts[n]) < |before| &&
      after == before[CellOf(l, pts[n]) := AddPoint(before[CellOf(l, pts[n])], pts[n], withColor)]
    requires !InArea(l, pts[n]) ==> after == before
    ensures forall k :: 0 <= k < |after| ==> after[k] == TallyOf(Hits(l, pts[..n + 1], k), withColor)
  {
    var p := pts[n];
    forall k | 0 <= k < |after|
      ensures after[k] == TallyOf(Hits(l, pts[..n + 1], k), withColor)
    {
      HitsExtend(l, pts, n, k);
      var hs := Hits(l, pts[..n], k);
      if InArea(l, p) && CellOf(l, p) == k {
        assert Hits(l, pts[..n + 1], k) == hs + [p];
        TallyAppend(hs, p, withColor);
      } else {
        assert after[k] == before[k];
        assert Hits(l, pts[..n + 1], k) == hs + [];
        assert hs + [] == hs;
      }
    }
  }

  /** The first pass over the points. */
  method AccumulatePoints(l: Layout, pts: seq<Point>, withColor: bool) returns (tallies: seq<Tally>)
    requires WellFormed(l)
    ensures |tallies| == l.width * l.height
    ensures forall k :: 0 <= k < l.width * l.height ==> tallies[k] == TallyOf(Hits(l, pts, k), withColor)
  {
    var size := l.width * l.height;
    tallies := seq(size, _ => EmptyTally);
    var n := 0;
    while n < |pts|
      invariant 0 <= n <= |pts|
      invariant |tallies| == size
      invariant forall k :: 0 <= k < size ==> tallies[k] == TallyOf(Hits(l, pts[..n], k), withColor)
    {
      var p := pts[n];
      ghost var before := tallies;
      if InArea(l, p) {
        CellInRange(l, p);
        var ii := CellOf(l, p);
        tallies := tallies[ii := AddPoint(tallies[ii], p, withColor)];
      }
      TallyStep(l, pts, n, withColor, before, tallies);
      n := n + 1;
    }
    assert pts[..n] == pts;
  }

  /** The second pass: a cell with more than one contributor is divided by
      their number, so that every reached cell holds its mean. */
  method AverageCells(tallies: seq<Tally>) returns (elevations: seq<real>)
    ensures |elevations| == |tallies|
    ensures forall k :: 0 <= k < |tallies| && tallies[k].count >= 1 ==>
      elevations[k] == tallies[k].sum / tallies[k].count as real
    ensures forall k :: 0 <= k < |tallies| && tallies[k].count == 0 ==> elevations[k] == tallies[k].sum
  {
    var size := |tallies|;
    elevations := seq(size, k requires 0 <= k < size => tallies[k].sum);
    var i := 0;
    while i < size
      invariant 0 <= i <= size
      invariant |elevations| == size
      invariant forall k :: 0 <= k < i && tallies[k].count >= 1 ==>
        elevations[k] == tallies[k].sum / tallies[k].count as real
      invariant forall k :: 0 <= k < i && tallies[k].count == 0 ==> elevations[k] == tallies[k].sum
      invariant forall k :: i <= k < size ==> elevations[k] == tallies[k].sum
    {
      if tallies[i].count > 1 {
        elevations := elevations[i := elevations[i] / tallies[i].count as real];
      } else if tallies[i].count == 1 {
        assert tallies[i].sum / 1.0 == tallies[i].sum;
      }
      assert tallies[i].count >= 1 ==> elevations[i] == tallies[i].sum / tallies[i].count as real;
      i := i + 1;
    }
  }

  /** A cell reached by exactly one point holds that point's z. */
  lemma SingleHitKeepsZ(m: Map, k: int, p: Point, withColor: bool)
    requires 0 <= k < |m.elevations| && 0 <= k < |m.classifications|
    requires m.colors.Some? && k < |m.colors.value|
    requires CellHolds(m, k, [p], withColor)
    ensures m.elevations[k] == p.z && m.classifications[k] == p.classification
  {
    assert [p][..0] == [];
    assert SumZ([p]) == p.z;
  }
}
