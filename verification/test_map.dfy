/** The synthetic map used to exercise the hole fillers
    (`MapAlgorithms.FillTestMap` and `MapAlgorithms.CutCircle`).

    A flat grid at elevation 100, classification 1, receives 100 distinct
    single-cell holes at random positions and then 10 round holes. A hole is
    elevation 0 and classification 0. The random number generator is not
    modelled: the caller supplies the sequence of `NextDouble` values the hole
    loop draws (including the draws it rejects because the cell is already a
    hole) and the 10 circles the generator would produce. */
module TestMap {
  import opened Common
  import opened Maps

  /** The number of single-cell holes. */
  const SingleHoles := 100

  /** The number of round holes. */
  const LargeHoles := 10

  /** The elevation and classification of every cell before holes are cut. */
  const Ground: real := 100.0
  const GroundClass: Byte := 1

  /** The fixed physical frame of the test map; `high` and `low` keep their
      default of 0. */
  const TestExtent := Extent(0.0, 0.0, 100.0, 100.0, 100.0, 100.0, 0.0, 0.0)

  /** A value of `Random.NextDouble`. */
  type UnitInterval = r: real | 0.0 <= r < 1.0

  /** A round hole: the top-left corner of its bounding square and its radius. */
  datatype Circle = Circle(x: int, y: int, rad: int)

  /** Why no map was produced. `NonPositiveSize` and `TooFewCells` stand for
      inputs on which the original throws or never terminates; `DrawsExhausted`
      means the supplied draws ran out before 100 distinct cells were hit. */
  datatype GenerateError = NonPositiveSize | TooFewCells | DrawsExhausted

  /** The test `CutCircle` applies to cell `(xx, yy)`: inside the bounding
      square, and strictly closer to its centre than the radius. */
  predicate InCircle(c: Circle, xx: int, yy: int) {
    var x2, y2 := c.x + c.rad * 2, c.y + c.rad * 2;
    var xc, yc := Half(c.x + x2), Half(c.y + y2);
    && c.x <= xx <= x2 && c.y <= yy <= y2
    && (xx - xc) * (xx - xc) + (yy - yc) * (yy - yc) < c.rad * c.rad
  }

  lemma HalfEven(a: int)
    ensures Half(a + a) == a
  {
  }

  lemma SquareNonNeg(d: int)
    ensures d * d >= 0
  {
  }

  /** A product of two factors is positive only when they have the same sign. */
  lemma MulSigns(a: int, b: int)
    ensures a >= 0 && b <= 0 ==> a * b <= 0
    ensures a <= 0 && b >= 0 ==> a * b <= 0
  {
  }

  /** `d * d < rad * rad` bounds `d` on both sides. */
  lemma SquareBound(d: int, rad: int)
    requires 0 <= rad && d * d < rad * rad
    ensures -rad < d < rad
  {
    assert (rad - d) * (rad + d) == rad * rad - d * d;
    MulSigns(rad - d, rad + d);
    MulSigns(rad + d, rad - d);
  }

  /** The cells a circle cuts are exactly the cells of the open disc of radius
      `rad` centred at `(x + rad, y + rad)`; the bounding square never clips
      it, and a radius of 0 or less cuts nothing. */
  lemma CircleIsDisc(c: Circle, xx: int, yy: int)
    ensures InCircle(c, xx, yy) <==>
      c.rad > 0 &&
      (xx - (c.x + c.rad)) * (xx - (c.x + c.rad)) + (yy - (c.y + c.rad)) * (yy - (c.y + c.rad)) < c.rad * c.rad
  {
    var cx, cy := c.x + c.rad, c.y + c.rad;
    assert c.x + (c.x + c.rad * 2) == cx + cx;
    assert c.y + (c.y + c.rad * 2) == cy + cy;
    HalfEven(cx);
    HalfEven(cy);
    var dx, dy := xx - cx, yy - cy;
    SquareNonNeg(dx);
    SquareNonNeg(dy);
    if c.rad >= 0 && dx * dx + dy * dy < c.rad * c.rad {
      SquareBound(dx, c.rad);
      SquareBound(dy, c.rad);
    }
  }

  /** A circle of positive radius always removes its own centre. */
  lemma CentreIsCut(c: Circle)
    requires c.rad > 0
    ensures InCircle(c, c.x + c.rad, c.y + c.rad)
  {
    CircleIsDisc(c, c.x + c.rad, c.y + c.rad);
  }

  /** Every grid cell in row-major order before `(xx, yy)` that lies in the
      circle is a hole; every other cell is as in `m`. */
  predicate CutUpTo(m: Map, e: seq<real>, c: seq<Byte>, circle: Circle, xx: int, yy: int)
    requires Valid(m) && |e| == |c| == |m.elevations|
  {
    forall k :: 0 <= k < |e| ==>
      var cx, cy := Col(m.width, k), Row(m.width, k);
      if (cy < yy || (cy == yy && cx < xx)) && InCircle(circle, cx, cy)
      then e[k] == 0.0 && c[k] == 0
      else e[k] == m.elevations[k] && c[k] == m.classifications[k]
  }

  /** Cutting the cell `(xx, yy)` advances the scan by one position. */
  lemma CutHit(m: Map, e: seq<real>, c: seq<Byte>, circle: Circle, xx: int, yy: int)
    requires Valid(m) && |e| == |c| == |m.elevations|
    requires CutUpTo(m, e, c, circle, xx, yy)
    requires InGrid(m.width, m.height, xx, yy) && InCircle(circle, xx, yy)
    ensures 0 <= Idx(m.width, xx, yy) < |e|
    ensures CutUpTo(m, e[Idx(m.width, xx, yy) := 0.0], c[Idx(m.width, xx, yy) := 0], circle, xx + 1, yy)
  {
    var w := m.width;
    IdxInRange(w, m.height, xx, yy);
    IdxCoords(w, xx, yy);
    forall k | 0 <= k < |e| && k != Idx(w, xx, yy)
      ensures Col(w, k) != xx || Row(w, k) != yy
    {
      CellCoords(w, m.height, k);
    }
  }

  /** Passing over a position that is off the grid or outside the circle
      advances the scan without changing anything. */
  lemma CutSkip(m: Map, e: seq<real>, c: seq<Byte>, circle: Circle, xx: int, yy: int)
    requires Valid(m) && |e| == |c| == |m.elevations|
    requires CutUpTo(m, e, c, circle, xx, yy)
    requires !(InGrid(m.width, m.height, xx, yy) && InCircle(circle, xx, yy))
    ensures CutUpTo(m, e, c, circle, xx + 1, yy)
  {
    forall k | 0 <= k < |e|
      ensures InGrid(m.width, m.height, Col(m.width, k), Row(m.width, k))
    {
      CellCoords(m.width, m.height, k);
    }
  }

  /** Moving from past the end of the square's row `yy` to the start of row
      `yy + 1` changes nothing, since no cell in between lies in the circle. */
  lemma CutNextRow(m: Map, e: seq<real>, c: seq<Byte>, circle: Circle, yy: int)
    requires Valid(m) && |e| == |c| == |m.elevations|
    requires CutUpTo(m, e, c, circle, circle.x + circle.rad * 2 + 1, yy)
    ensures CutUpTo(m, e, c, circle, circle.x, yy + 1)
  {
  }

  /** Reference definition of cutting a circle: every cell of the circle
      becomes a hole, every other cell and every other field is kept. */
  function Cut(m: Map, circle: Circle): (r: Map)
    requires Valid(m)
  {
    var w, n := m.width, |m.elevations|;
    m.(elevations := seq(n, k requires 0 <= k < n =>
                           if InCircle(circle, Col(w, k), Row(w, k)) then 0.0 else m.elevations[k]),
       classifications := seq(n, k requires 0 <= k < n =>
                           if InCircle(circle, Col(w, k), Row(w, k)) then 0 else m.classifications[k]))
  }

  /** Cuts one round hole into `m`, visiting the bounding square row by row. */
  method CutCircle(m: Map, x1: int, y1: int, rad: int) returns (r: Map)
    requires Valid(m)
    ensures Valid(r)
    ensures r == Cut(m, Circle(x1, y1, rad))
  {
    var circle := Circle(x1, y1, rad);
    var y2 := y1 + rad * 2;
    var e, c := m.elevations, m.classifications;
    var yy := y1;
    while yy <= y2
      invariant |e| == |c| == |m.elevations|
      invariant y1 <= yy && (y1 <= y2 ==> yy <= y2 + 1)
      invariant CutUpTo(m, e, c, circle, x1, yy)
    {
      e, c := CutRow(m, e, c, circle, yy);
      CutNextRow(m, e, c, circle, yy);
      yy := yy + 1;
    }
    CutDone(m, e, c, circle, yy);
    r := m.(elevations := e, classifications := c);
  }

  /** The inner loop of `CutCircle`: one row of the bounding square. */
  method CutRow(m: Map, e0: seq<real>, c0: seq<Byte>, circle: Circle, yy: int) returns (e: seq<real>, c: seq<Byte>)
    requires Valid(m) && |e0| == |c0| == |m.elevations|
    requires circle.rad >= 0 && circle.y <= yy <= circle.y + circle.rad * 2
    requires CutUpTo(m, e0, c0, circle, circle.x, yy)
    ensures |e| == |c| == |m.elevations|
    ensures CutUpTo(m, e, c, circle, circle.x + circle.rad * 2 + 1, yy)
  {
    var x1, y1, rad := circle.x, circle.y, circle.rad;
    var rad2 := rad * rad;
    var x2 := x1 + rad * 2;
    var y2 := y1 + rad * 2;
    var xc := Half(x1 + x2);
    var yc := Half(y1 + y2);
    e, c := e0, c0;
    var xx := x1;
    while xx <= x2
      invariant |e| == |c| == |m.elevations|
      invariant x1 <= xx <= x2 + 1
      invariant CutUpTo(m, e, c, circle, xx, yy)
    {
      if xx < 0 || xx >= m.width || yy < 0 || yy >= m.height {
        CutSkip(m, e, c, circle, xx, yy);
        xx := xx + 1;
        continue;
      }
      if (xx - xc) * (xx - xc) + (yy - yc) * (yy - yc) < rad2 {
        CutHit(m, e, c, circle, xx, yy);
        var ii := xx + yy * m.width;
        e := e[ii := 0.0];
        c := c[ii := 0];
      } else {
        CutSkip(m, e, c, circle, xx, yy);
      }
      xx := xx + 1;
    }
  }

  /** Once the scan has passed the last row of the square, the whole circle
      has been cut. */
  lemma CutDone(m: Map, e: seq<real>, c: seq<Byte>, circle: Circle, yy: int)
    requires Valid(m) && |e| == |c| == |m.elevations|
    requires CutUpTo(m, e, c, circle, circle.x, yy)
    requires yy > circle.y + circle.rad * 2 || circle.rad < 0
    ensures e == Cut(m, circle).elevations && c == Cut(m, circle).classifications
  {
  }

  /** Cutting the same circle twice is the same as cutting it once. */
  lemma CutIdempotent(m: Map, circle: Circle)
    requires Valid(m)
    ensures Cut(Cut(m, circle), circle) == Cut(m, circle)
  {
  }

  /** The order in which circles are cut does not matter. */
  lemma CutCommutes(m: Map, a: Circle, b: Circle)
    requires Valid(m)
    ensures Cut(Cut(m, a), b) == Cut(Cut(m, b), a)
  {
  }

  /** The cell a draw selects among `n` cells. */
  function DrawIndex(d: UnitInterval, n: nat): (k: int)
    ensures n > 0 ==> 0 <= k < n
  {
    ScaledBelow(d, n);
    Trunc(d * n as real)
  }

  lemma ScaledBelow(d: UnitInterval, n: nat)
    ensures 0.0 <= d * n as real
    ensures n > 0 ==> d * n as real < n as real
  {
    if n > 0 {
      assert (1.0 - d) * n as real > 0.0;
    }
  }

  /** The cells the draws select, in order. */
  function Indices(draws: seq<UnitInterval>, n: nat): (s: seq<int>)
    ensures |s| == |draws|
  {
    seq(|draws|, i requires 0 <= i < |draws| => DrawIndex(draws[i], n))
  }

  /** The first occurrence of every value of `s`, in order of appearance. */
  function Distinct(s: seq<int>): seq<int> {
    if |s| == 0 then []
    else if s[|s| - 1] in s[..|s| - 1] then Distinct(s[..|s| - 1])
    else Distinct(s[..|s| - 1]) + [s[|s| - 1]]
  }

  /** `Distinct` keeps every value and repeats none. */
  lemma {:induction false} DistinctProperties(s: seq<int>)
    ensures NoDuplicates(Distinct(s))
    ensures forall x :: x in Distinct(s) <==> x in s
  {
    if |s| > 0 {
      var init := s[..|s| - 1];
      DistinctProperties(init);
      assert s == init + [s[|s| - 1]];
    }
  }

  /** Taking one more value extends the distinct values by it when it is new. */
  lemma DistinctStep(s: seq<int>, j: int)
    requires 0 <= j < |s|
    ensures Distinct(s[..j + 1]) ==
      if s[j] in s[..j] then Distinct(s[..j]) else Distinct(s[..j]) + [s[j]]
  {
    assert s[..j + 1][..j] == s[..j];
  }

  /** The distinct values of a prefix are a prefix of the distinct values. */
  lemma {:induction false} DistinctPrefix(s: seq<int>, j: int)
    requires 0 <= j <= |s|
    ensures Distinct(s[..j]) <= Distinct(s)
    decreases |s| - j
  {
    if j < |s| {
      DistinctPrefix(s, j + 1);
      DistinctStep(s, j);
    } else {
      assert s[..j] == s;
    }
  }

  /** The grid before any hole is cut. */
  function FlatGround(n: nat): (g: (seq<real>, seq<Byte>))
    ensures |g.0| == |g.1| == n
  {
    (seq(n, _ => Ground), seq(n, _ => GroundClass))
  }

  /** Whether cell `k` of a test map is a hole: it is one of the single holes
      or lies in one of the circles. */
  predicate IsTestHole(w: int, k: int, singles: seq<int>, circles: seq<Circle>)
    requires w > 0
  {
    k in singles || exists j :: 0 <= j < |circles| && InCircle(circles[j], Col(w, k), Row(w, k))
  }

  /** The first loop of the generator: draws cells until 100 distinct ones
      have been hit and turns each into a hole, rejecting draws that hit an
      existing hole. Also returns how many draws were consumed. */
  method PlaceSingleHoles(n: int, draws: seq<UnitInterval>) returns (r: Result<(seq<real>, seq<Byte>), GenerateError>, pos: int)
    requires n >= SingleHoles
    ensures 0 <= pos <= |draws|
    ensures r.Err? <==> |Distinct(Indices(draws, n))| < SingleHoles
    ensures r.Err? ==> r.error == DrawsExhausted
    ensures r.Ok? ==>
      && |Distinct(Indices(draws, n)[..pos])| == SingleHoles
      && |Distinct(Indices(draws, n)[..pos - 1])| == SingleHoles - 1
    ensures r.Ok? ==> |r.value.0| == |r.value.1| == n && forall k :: 0 <= k < n ==>
      var hole := k in Distinct(Indices(draws, n))[..SingleHoles];
      r.value.0[k] == (if hole then 0.0 else Ground) && r.value.1[k] == (if hole then 0 else GroundClass)
  {
    var e, c := FlatGround(n).0, FlatGround(n).1;
    ghost var idx := Indices(draws, n);
    ghost var holes: seq<int> := [];
    var used: set<int> := {};
    pos := 0;
    var i := 0;
    while i < SingleHoles
      invariant 0 <= i <= SingleHoles && 0 <= pos <= |draws|
      invariant |e| == |c| == n
      invariant holes == Distinct(idx[..pos]) && |holes| == i
      invariant i > 0 ==> pos > 0 && |Distinct(idx[..pos - 1])| == i - 1
      invariant forall x :: x in used <==> x in holes
      invariant forall k :: 0 <= k < n ==>
        e[k] == (if k in used then 0.0 else Ground) && c[k] == (if k in used then 0 else GroundClass)
    {
      var cell, pos' := DrawNewCell(n, draws, pos, used, holes);
      if cell.None? {
        return Err(DrawsExhausted), pos';
      }
      var ii := cell.value;
      pos := pos';
      holes := holes + [ii];
      used := used + {ii};
      e := e[ii := 0.0];
      c := c[ii := 0];
      i := i + 1;
    }
    DistinctPrefix(idx, pos);
    assert Distinct(idx)[..SingleHoles] == holes;
    r := Ok((e, c));
  }

  /** The rejection loop of the generator: draws until a cell that is not yet
      a hole comes up, or answers `None` when the draws run out. */
  method DrawNewCell(n: int, draws: seq<UnitInterval>, start: int, used: set<int>, ghost holes: seq<int>)
    returns (cell: Option<int>, pos: int)
    requires n >= 1 && 0 <= start <= |draws|
    requires holes == Distinct(Indices(draws, n)[..start])
    requires forall x :: x in used <==> x in holes
    ensures start <= pos <= |draws|
    ensures cell.None? ==> pos == |draws| && holes == Distinct(Indices(draws, n))
    ensures cell.Some? ==>
      && 0 <= cell.value < n && cell.value !in used && pos > start
      && holes == Distinct(Indices(draws, n)[..pos - 1])
      && holes + [cell.value] == Distinct(Indices(draws, n)[..pos])
  {
    ghost var idx := Indices(draws, n);
    pos := start;
    while true
      invariant start <= pos <= |draws|
      invariant holes == Distinct(idx[..pos])
      decreases |draws| - pos
    {
      if pos == |draws| {
        assert idx[..pos] == idx;
        return None, pos;
      }
      var ii := DrawIndex(draws[pos], n);
      assert ii == idx[pos];
      DistinctProperties(idx[..pos]);
      DistinctStep(idx, pos);
      pos := pos + 1;
      if ii !in used {
        return Some(ii), pos;
      }
    }
  }

  /** The second loop of the generator: cuts the circles one after another. A
      cell ends up a hole when it was one or lies in any of the circles. */
  method CutAll(m: Map, circles: seq<Circle>) returns (r: Map)
    requires Valid(m)
    ensures Valid(r)
    ensures r == m.(elevations := r.elevations, classifications := r.classifications)
    ensures forall k :: 0 <= k < |m.elevations| ==>
      if exists j :: 0 <= j < |circles| && InCircle(circles[j], Col(m.width, k), Row(m.width, k))
      then r.elevations[k] == 0.0 && r.classifications[k] == 0
      else r.elevations[k] == m.elevations[k] && r.classifications[k] == m.classifications[k]
  {
    r := m;
    var j := 0;
    while j < |circles|
      invariant 0 <= j <= |circles|
      invariant Valid(r)
      invariant r == m.(elevations := r.elevations, classifications := r.classifications)
      invariant forall k :: 0 <= k < |m.elevations| ==>
        if exists t :: 0 <= t < j && InCircle(circles[t], Col(m.width, k), Row(m.width, k))
        then r.elevations[k] == 0.0 && r.classifications[k] == 0
        else r.elevations[k] == m.elevations[k] && r.classifications[k] == m.classifications[k]
    {
      r := CutCircle(r, circles[j].x, circles[j].y, circles[j].rad);
      j := j + 1;
    }
  }

  /** Builds the test map from the given draws and circles. */
  method FillTestMap(width: int, height: int, draws: seq<UnitInterval>, circles: seq<Circle>)
    returns (r: Result<Map, GenerateError>)
    requires |circles| == LargeHoles
    ensures width < 1 || height < 1 ==> r == Err(NonPositiveSize)
    ensures width >= 1 && height >= 1 && width * height < SingleHoles ==> r == Err(TooFewCells)
    ensures width >= 1 && height >= 1 && width * height >= SingleHoles ==>
      && (r.Err? <==> |Distinct(Indices(draws, width * height))| < SingleHoles)
      && (r.Err? ==> r.error == DrawsExhausted)
    ensures r.Ok? ==>
      && Valid(r.value)
      && r.value.width == width && r.value.height == height
      && r.value.zone == "12T" && r.value.colors == None && r.value.extent == TestExtent
    ensures r.Ok? ==> forall k :: 0 <= k < width * height ==>
      var hole := IsTestHole(width, k, Distinct(Indices(draws, width * height))[..SingleHoles], circles);
      && r.value.elevations[k] == (if hole then 0.0 else Ground)
      && r.value.classifications[k] == (if hole then 0 else GroundClass)
    ensures r.Ok? ==> |Holes(r.value.classifications)| >= SingleHoles
  {
    if width < 1 || height < 1 {
      return Err(NonPositiveSize);
    }
    var n := width * height;
    if n < SingleHoles {
      return Err(TooFewCells);
    }
    var singles, _ := PlaceSingleHoles(n, draws);
    if singles.Err? {
      return Err(singles.error);
    }
    ghost var holes := Distinct(Indices(draws, n))[..SingleHoles];
    var grid := Map(singles.value.0, singles.value.1, None, "12T", width, height, TestExtent);
    grid := CutAll(grid, circles);
    DistinctProperties(Indices(draws, n));
    forall x | x in holes
      ensures 0 <= x < n && grid.classifications[x] == 0
    {
      assert x in Distinct(Indices(draws, n));
      assert IsTestHole(width, x, holes, circles);
    }
    SingleHolesCounted(grid.classifications, holes);
    r := Ok(grid);
  }

  /** Distinct single holes alone account for `|singles|` holes. */
  lemma SingleHolesCounted(c: seq<Byte>, singles: seq<int>)
    requires forall i, j :: 0 <= i < j < |singles| ==> singles[i] != singles[j]
    requires forall x :: x in singles ==> 0 <= x < |c| && c[x] == 0
    ensures |Holes(c)| >= |singles|
  {
    assert NoDuplicates(singles);
    DistinctElements(singles);
    SubsetNoLarger(Elements(singles), Holes(c));
  }
}
