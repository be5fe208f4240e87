/** Edge-growth in-painting (`MapAlgorithms.EdgeFillMapAlgorithm`).

    The frontier starts as the interior data cells that have a hole among
    their 8 neighbours. Each round, every hole next to a frontier cell
    collects a `(sum, count)` pair from all the frontier cells around it; then
    every collected hole gets the mean as its elevation and classification
    `Filled`, and these cells become the next frontier. The rounds stop when a
    round collects nothing. */
module EdgeFill {
  import opened Common
  import opened Maps

  /** The classification written into cells filled by this algorithm. */
  const Filled: Byte := 13

  predicate HoleAt(c: seq<Byte>, j: int) {
    0 <= j < |c| && c[j] == 0
  }

  /** Cell `k` is off the outer ring, has data, and has a hole among its 8
      neighbours. */
  predicate IsEdge(w: int, h: int, c: seq<Byte>, k: int)
    requires w > 0
  {
    && 1 <= Col(w, k) < w - 1 && 1 <= Row(w, k) < h - 1
    && 0 <= k < |c| && c[k] != 0
    && exists j :: 0 <= j < |c| && Neighbours(w, k, j) && c[j] == 0
  }

  /** Cell `b` is one of the 8 neighbours of cell `a`. */
  predicate Neighbours(w: int, a: int, b: int)
    requires w > 0
  {
    a != b && -1 <= Col(w, b) - Col(w, a) <= 1 && -1 <= Row(w, b) - Row(w, a) <= 1
  }

  /** The frontier cells next to cell `k`, in frontier order. */
  function Contributors(w: int, frontier: seq<int>, k: int): (cs: seq<int>)
    requires w > 0
    ensures |cs| <= |frontier|
    ensures forall f :: f in cs ==> f in frontier && Neighbours(w, f, k)
  {
    if |frontier| == 0 then []
    else
      var f := frontier[|frontier| - 1];
      Contributors(w, frontier[..|frontier| - 1], k) + (if Neighbours(w, f, k) then [f] else [])
  }

  function ValueAt(e: seq<real>, f: int): real {
    if 0 <= f < |e| then e[f] else 0.0
  }

  /** The sum of the elevations of the cells `cs`. */
  function SumValues(e: seq<real>, cs: seq<int>): real {
    if |cs| == 0 then 0.0 else SumValues(e, cs[..|cs| - 1]) + ValueAt(e, cs[|cs| - 1])
  }

  /** The arithmetic mean of the elevations of the cells `cs`. */
  function Mean(e: seq<real>, cs: seq<int>): real
    requires |cs| > 0
  {
    SumValues(e, cs) / |cs| as real
  }

  /** Per hole cell: the sum of the values reaching it and their number. */
  type Accumulator = map<int, (real, int)>

  function Get(acc: Accumulator, k: int): (real, int) {
    if k in acc then acc[k] else (0.0, 0)
  }

  /** One more contribution `v`. */
  function Add(t: (real, int), v: real): (real, int) {
    (t.0 + v, t.1 + 1)
  }

  /** The keys of `acc` are cells of a `w` by `h` grid. */
  predicate KeysInGrid(acc: Accumulator, size: int) {
    forall k :: k in acc ==> 0 <= k < size
  }

  /** Hole `k` lies next to frontier cell `g` and has been visited by the
      scan of `g`'s neighbourhood before column `x` of row `y`. */
  predicate Reached(w: int, c: seq<Byte>, g: int, k: int, y: int, x: int)
    requires w > 0 && 0 <= k < |c|
  {
    c[k] == 0 && Neighbours(w, g, k) && (Row(w, k) < y || (Row(w, k) == y && Col(w, k) < x))
  }

  /** Adds the value `gv` of frontier cell `g` to every hole among its 8
      neighbours: a hole seen before has its pair extended, a new one starts
      at `(gv, 1)`. */
  method Spread(w: int, h: int, c: seq<Byte>, acc: Accumulator, g: int, gv: real) returns (acc': Accumulator)
    requires w > 0 && h > 0 && |c| == w * h && 0 <= g < w * h
    requires KeysInGrid(acc, w * h)
    ensures KeysInGrid(acc', w * h)
    ensures forall k :: 0 <= k < w * h ==> (k in acc' <==> k in acc || (c[k] == 0 && Neighbours(w, g, k)))
    ensures forall k :: k in acc' ==>
      acc'[k] == if c[k] == 0 && Neighbours(w, g, k) then Add(Get(acc, k), gv) else acc[k]
  {
    CellCoords(w, h, g);
    var gx, gy := Col(w, g), Row(w, g);
    acc' := acc;
    var y := gy - 1;
    while y <= gy + 1
      invariant gy - 1 <= y <= gy + 2
      invariant KeysInGrid(acc', w * h)
      invariant forall k :: 0 <= k < w * h ==> (k in acc' <==> k in acc || Reached(w, c, g, k, y, gx - 1))
      invariant forall k :: k in acc' ==>
        acc'[k] == if Reached(w, c, g, k, y, gx - 1) then Add(Get(acc, k), gv) else acc[k]
    {
      var x := gx - 1;
      while x <= gx + 1
        invariant gx - 1 <= x <= gx + 2
        invariant KeysInGrid(acc', w * h)
        invariant forall k :: 0 <= k < w * h ==> (k in acc' <==> k in acc || Reached(w, c, g, k, y, x))
        invariant forall k :: k in acc' ==>
          acc'[k] == if Reached(w, c, g, k, y, x) then Add(Get(acc, k), gv) else acc[k]
      {
        ghost var before := acc';
        var ii := y * w + x;
        if (x != gx || y != gy) && (x >= 0 && x < w && y >= 0 && y < h) {
          IdxInRange(w, h, x, y);
          if c[ii] == 0 {
            acc' := acc'[ii := Add(Get(acc', ii), gv)];
          }
        }
        SpreadStep(w, h, c, acc, g, gv, y, x, before, acc');
        x := x + 1;
      }
      y := y + 1;
    }
  }

  /** The bookkeeping of one visited neighbour position `(x, y)` in `Spread`. */
  lemma SpreadStep(w: int, h: int, c: seq<Byte>, acc: Accumulator, g: int, gv: real, y: int, x: int,
                   before: Accumulator, after: Accumulator)
    requires w > 0 && h > 0 && |c| == w * h && 0 <= g < w * h
    requires Row(w, g) - 1 <= y <= Row(w, g) + 1 && Col(w, g) - 1 <= x <= Col(w, g) + 1
    requires KeysInGrid(before, w * h)
    requires forall k :: 0 <= k < w * h ==> (k in before <==> k in acc || Reached(w, c, g, k, y, x))
    requires forall k :: k in before ==>
      before[k] == if Reached(w, c, g, k, y, x) then Add(Get(acc, k), gv) else acc[k]
    requires var ii := y * w + x;
      after == if (x != Col(w, g) || y != Row(w, g)) && InGrid(w, h, x, y) && HoleAt(c, ii)
               then before[ii := Add(Get(before, ii), gv)] else before
    ensures KeysInGrid(after, w * h)
    ensures forall k :: 0 <= k < w * h ==> (k in after <==> k in acc || Reached(w, c, g, k, y, x + 1))
    ensures forall k :: k in after ==>
      after[k] == if Reached(w, c, g, k, y, x + 1) then Add(Get(acc, k), gv) else acc[k]
  {
    var ii := y * w + x;
    CellCoords(w, h, g);
    if InGrid(w, h, x, y) {
      IdxInRange(w, h, x, y);
      IdxCoords(w, x, y);
    }
    forall k | 0 <= k < w * h
      ensures Reached(w, c, g, k, y, x + 1) <==>
        Reached(w, c, g, k, y, x) || (InGrid(w, h, x, y) && k == ii && c[k] == 0 && k != g)
    {
      CellCoords(w, h, k);
    }
  }

  lemma ContributorsExtend(w: int, frontier: seq<int>, n: int, k: int)
    requires w > 0 && 0 <= n < |frontier|
    ensures Contributors(w, frontier[..n + 1], k) ==
      Contributors(w, frontier[..n], k) + (if Neighbours(w, frontier[n], k) then [frontier[n]] else [])
  {
    assert frontier[..n + 1][..n] == frontier[..n];
  }

  /** Every frontier cell next to `k` is one of its contributors. */
  lemma {:induction false} ContributorsComplete(w: int, frontier: seq<int>, f: int, k: int)
    requires w > 0
    ensures f in frontier && Neighbours(w, f, k) ==> f in Contributors(w, frontier, k)
  {
    if |frontier| > 0 {
      var init := frontier[..|frontier| - 1];
      ContributorsComplete(w, init, f, k);
      assert frontier == init + [frontier[|frontier| - 1]];
    }
  }

  lemma SumValuesAppend(e: seq<real>, cs: seq<int>, f: int)
    ensures SumValues(e, cs + [f]) == SumValues(e, cs) + ValueAt(e, f)
  {
    assert (cs + [f])[..|cs|] == cs;
  }

  /** What the accumulator holds after the first `n` frontier cells. */
  predicate Accumulated(w: int, e: seq<real>, c: seq<Byte>, frontier: seq<int>, acc: Accumulator)
    requires w > 0 && |c| == |e|
  {
    && KeysInGrid(acc, |c|)
    && (forall k :: 0 <= k < |c| ==> (k in acc <==> c[k] == 0 && |Contributors(w, frontier, k)| > 0))
    && (forall k :: k in acc ==>
          acc[k] == (SumValues(e, Contributors(w, frontier, k)), |Contributors(w, frontier, k)|))
  }

  lemma AccumulateStep(w: int, h: int, e: seq<real>, c: seq<Byte>, frontier: seq<int>, n: int,
                       before: Accumulator, after: Accumulator)
    requires w > 0 && h > 0 && |e| == |c| == w * h && 0 <= n < |frontier| && 0 <= frontier[n] < w * h
    requires Accumulated(w, e, c, frontier[..n], before)
    requires KeysInGrid(after, w * h)
    requires forall k :: 0 <= k < w * h ==>
      (k in after <==> k in before || (c[k] == 0 && Neighbours(w, frontier[n], k)))
    requires forall k :: k in after ==>
      after[k] == if c[k] == 0 && Neighbours(w, frontier[n], k)
                  then Add(Get(before, k), e[frontier[n]]) else before[k]
    ensures Accumulated(w, e, c, frontier[..n + 1], after)
  {
    forall k | 0 <= k < w * h
      ensures (k in after <==> c[k] == 0 && |Contributors(w, frontier[..n + 1], k)| > 0)
      ensures k in after ==>
        after[k] == (SumValues(e, Contributors(w, frontier[..n + 1], k)), |Contributors(w, frontier[..n + 1], k)|)
    {
      AccumulateCell(w, e, c, frontier, n, before, after, k);
    }
  }

  /** `AccumulateStep` for one cell. */
  lemma AccumulateCell(w: int, e: seq<real>, c: seq<Byte>, frontier: seq<int>, n: int,
                       before: Accumulator, after: Accumulator, k: int)
    requires w > 0 && |e| == |c| && 0 <= n < |frontier| && 0 <= frontier[n] < |e| && 0 <= k < |c|
    requires k in before <==> c[k] == 0 && |Contributors(w, frontier[..n], k)| > 0
    requires k in before ==> before[k] == (SumValues(e, Contributors(w, frontier[..n], k)), |Contributors(w, frontier[..n], k)|)
    requires k in after <==> k in before || (c[k] == 0 && Neighbours(w, frontier[n], k))
    requires k in after ==>
      after[k] == if c[k] == 0 && Neighbours(w, frontier[n], k)
                  then Add(Get(before, k), e[frontier[n]]) else before[k]
    ensures k in after <==> c[k] == 0 && |Contributors(w, frontier[..n + 1], k)| > 0
    ensures k in after ==>
      after[k] == (SumValues(e, Contributors(w, frontier[..n + 1], k)), |Contributors(w, frontier[..n + 1], k)|)
  {
    var g := frontier[n];
    ContributorsExtend(w, frontier, n, k);
    OneContribution(e, Contributors(w, frontier[..n], k), Contributors(w, frontier[..n + 1], k), g,
      c[k] == 0, Neighbours(w, g, k), k in before, Get(before, k), k in after, Get(after, k));
  }

  /** `AccumulateCell` with the cell's facts as plain values: `hole` says the
      cell is a hole, `near` that the frontier cell `g` is next to it, and
      `cs`, `cs2` are its contributors before and after `g`. */
  lemma OneContribution(e: seq<real>, cs: seq<int>, cs2: seq<int>, g: int, hole: bool, near: bool,
                        inBefore: bool, before: (real, int), inAfter: bool, after: (real, int))
    requires 0 <= g < |e|
    requires cs2 == cs + (if near then [g] else [])
    requires inBefore <==> hole && |cs| > 0
    requires inBefore ==> before == (SumValues(e, cs), |cs|)
    requires !inBefore ==> before == (0.0, 0)
    requires inAfter <==> inBefore || (hole && near)
    requires inAfter ==> after == if hole && near then Add(before, e[g]) else before
    ensures inAfter <==> hole && |cs2| > 0
    ensures inAfter ==> after == (SumValues(e, cs2), |cs2|)
  {
    if hole && near {
      NewContribution(e, cs, g, before);
    } else if !near {
      assert cs + [] == cs;
    }
  }

  /** Adding the value of `g` to the tally of `cs` gives the tally of `cs`
      followed by `g`. */
  lemma NewContribution(e: seq<real>, cs: seq<int>, g: int, before: (real, int))
    requires 0 <= g < |e|
    requires before == (SumValues(e, cs), |cs|)
    ensures Add(before, e[g]) == (SumValues(e, cs + [g]), |cs + [g]|)
  {
    SumValuesAppend(e, cs, g);
  }

  /** The first half of a round: every hole next to the frontier collects the
      sum and the number of the frontier values around it. Values are read
      from `e` before anything is written. */
  method Accumulate(w: int, h: int, e: seq<real>, c: seq<Byte>, frontier: seq<int>) returns (acc: Accumulator)
    requires w > 0 && h > 0 && |e| == |c| == w * h
    requires forall f :: f in frontier ==> 0 <= f < w * h
    ensures Accumulated(w, e, c, frontier, acc)
  {
    acc := map[];
    var n := 0;
    while n < |frontier|
      invariant 0 <= n <= |frontier|
      invariant Accumulated(w, e, c, frontier[..n], acc)
    {
      var g := frontier[n];
      assert g in frontier;
      var gv := e[g];
      ghost var before := acc;
      acc := Spread(w, h, c, acc, g, gv);
      AccumulateStep(w, h, e, c, frontier, n, before, acc);
      n := n + 1;
    }
    assert frontier[..n] == frontier;
  }

  /** One round: holes next to the frontier get the mean of the frontier
      values around them and classification `Filled`; they are the next
      frontier. Nothing else changes. */
  method GrowRound(w: int, h: int, e: seq<real>, c: seq<Byte>, frontier: seq<int>)
    returns (e': seq<real>, c': seq<Byte>, next: seq<int>)
    requires w > 0 && h > 0 && |e| == |c| == w * h
    requires forall f :: f in frontier ==> 0 <= f < w * h
    ensures |e'| == |e| && |c'| == |c|
    ensures NoDuplicates(next)
    ensures forall k :: k in next ==> 0 <= k < w * h
    ensures forall k :: 0 <= k < w * h ==> (k in next <==> c[k] == 0 && |Contributors(w, frontier, k)| > 0)
    ensures forall k :: 0 <= k < w * h && k in next ==>
      e'[k] == Mean(e, Contributors(w, frontier, k)) && c'[k] == Filled
    ensures forall k :: 0 <= k < w * h && k !in next ==> e'[k] == e[k] && c'[k] == c[k]
  {
    var acc := Accumulate(w, h, e, c, frontier);
    e', c', next := Commit(e, c, acc);
    forall k | 0 <= k < w * h && k in next
      ensures e'[k] == Mean(e, Contributors(w, frontier, k))
    {
    }
  }

  /** The second half of a round: writes the mean of every collected pair and
      marks its cell `Filled`. The written cells, in index order, are the next
      frontier. */
  method Commit(e: seq<real>, c: seq<Byte>, acc: Accumulator) returns (e': seq<real>, c': seq<Byte>, next: seq<int>)
    requires |e| == |c|
    requires KeysInGrid(acc, |c|)
    requires forall k :: k in acc ==> acc[k].1 >= 1
    ensures |e'| == |e| && |c'| == |c|
    ensures NoDuplicates(next)
    ensures forall k :: k in next <==> k in acc
    ensures forall k :: k in acc ==> e'[k] == acc[k].0 / acc[k].1 as real && c'[k] == Filled
    ensures forall k :: 0 <= k < |c| && k !in acc ==> e'[k] == e[k] && c'[k] == c[k]
  {
    e', c', next := e, c, [];
    var k := 0;
    while k < |c|
      invariant 0 <= k <= |c|
      invariant |e'| == |e| && |c'| == |c|
      invariant NoDuplicates(next)
      invariant forall j :: j in next ==> 0 <= j < k
      invariant forall j :: 0 <= j < k ==> (j in next <==> j in acc)
      invariant forall j :: 0 <= j < k && j in acc ==> e'[j] == acc[j].0 / acc[j].1 as real && c'[j] == Filled
      invariant forall j :: 0 <= j < k && j !in acc ==> e'[j] == e[j] && c'[j] == c[j]
      invariant forall j :: k <= j < |c| ==> e'[j] == e[j] && c'[j] == c[j]
    {
      if k in acc {
        var (sum, count) := acc[k];
        e' := e'[k := sum / count as real];
        c' := c'[k := Filled];
        assert forall i :: 0 <= i < |next| ==> next[i] in next;
        next := next + [k];
      }
      k := k + 1;
    }
  }

  /** `k` comes before column `x` of row `y` in row-major order. */
  predicate Before(w: int, k: int, y: int, x: int)
    requires w > 0
  {
    Row(w, k) < y || (Row(w, k) == y && Col(w, k) < x)
  }

  /** The frontier holds exactly the edge cells before position `(x, y)`, each once. */
  predicate ScannedUpTo(w: int, h: int, c: seq<Byte>, frontier: seq<int>, y: int, x: int)
    requires w > 0
  {
    && NoDuplicates(frontier)
    && (forall k :: k in frontier ==> 0 <= k < w * h && IsEdge(w, h, c, k) && Before(w, k, y, x))
    && (forall k :: 0 <= k < w * h && IsEdge(w, h, c, k) && Before(w, k, y, x) ==> k in frontier)
  }

  lemma ScanStep(w: int, h: int, c: seq<Byte>, y: int, x: int, before: seq<int>, after: seq<int>)
    requires w > 0 && h > 0 && |c| == w * h && InGrid(w, h, x, y)
    requires ScannedUpTo(w, h, c, before, y, x)
    requires after == if IsEdge(w, h, c, Idx(w, x, y)) then before + [Idx(w, x, y)] else before
    ensures ScannedUpTo(w, h, c, after, y, x + 1)
  {
    var i := Idx(w, x, y);
    IdxInRange(w, h, x, y);
    IdxCoords(w, x, y);
    forall k | 0 <= k < w * h
      ensures Before(w, k, y, x + 1) <==> Before(w, k, y, x) || k == i
    {
      CellCoords(w, h, k);
    }
    assert forall j :: 0 <= j < |before| ==> before[j] in before;
  }

  /** Moving from the end of row `y` to column 1 of the next row skips only
      cells of the outer ring, which are never edges. */
  lemma ScanNextRow(w: int, h: int, c: seq<Byte>, y: int, x: int, frontier: seq<int>)
    requires w > 0 && (x >= w - 1 || w < 3)
    requires ScannedUpTo(w, h, c, frontier, y, x)
    ensures ScannedUpTo(w, h, c, frontier, y + 1, 1)
  {
  }

  /** The eight-way test of the scan, on the flat array at an interior
      position, asks exactly whether some neighbour is a hole. */
  lemma EdgeTest(w: int, h: int, c: seq<Byte>, x: int, y: int)
    requires |c| == w * h && 1 <= x < w - 1 && 1 <= y < h - 1
    ensures var i := x + y * w;
      && 0 <= i - w - 1 && i + w + 1 < |c|
      && (IsEdge(w, h, c, i) <==>
          c[i] != 0 && (
          c[i - w - 1] == 0 || c[i - w] == 0 || c[i - w + 1] == 0 ||
          c[i - 1] == 0 || c[i + 1] == 0 ||
          c[i + w - 1] == 0 || c[i + w] == 0 || c[i + w + 1] == 0))
  {
    var i := x + y * w;
    IdxCoords(w, x, y);
    OffsetNeighbour(w, h, x, y, -1, -1);
    OffsetNeighbour(w, h, x, y, 0, -1);
    OffsetNeighbour(w, h, x, y, 1, -1);
    OffsetNeighbour(w, h, x, y, -1, 0);
    OffsetNeighbour(w, h, x, y, 1, 0);
    OffsetNeighbour(w, h, x, y, -1, 1);
    OffsetNeighbour(w, h, x, y, 0, 1);
    OffsetNeighbour(w, h, x, y, 1, 1);
    forall j | 0 <= j < |c| && Neighbours(w, i, j)
      ensures j in {i - w - 1, i - w, i - w + 1, i - 1, i + 1, i + w - 1, i + w, i + w + 1}
    {
      NeighbourIsOffset(w, h, x, y, j);
    }
  }

  /** The cell at offset `(dx, dy)` from `(x, y)` is a neighbour, found `dy`
      rows and `dx` columns away in the flat array. */
  lemma OffsetNeighbour(w: int, h: int, x: int, y: int, dx: int, dy: int)
    requires InGrid(w, h, x, y) && InGrid(w, h, x + dx, y + dy)
    requires -1 <= dx <= 1 && -1 <= dy <= 1 && (dx != 0 || dy != 0)
    ensures Idx(w, x + dx, y + dy) == Idx(w, x, y) + dy * w + dx
    ensures 0 <= Idx(w, x + dx, y + dy) < w * h
    ensures Neighbours(w, Idx(w, x, y), Idx(w, x + dx, y + dy))
  {
    IdxCoords(w, x, y);
    IdxCoords(w, x + dx, y + dy);
    IdxInRange(w, h, x + dx, y + dy);
    assert (y + dy) * w == y * w + dy * w;
  }

  /** Every neighbour of cell `(x, y)` is at one of the eight flat offsets. */
  lemma NeighbourIsOffset(w: int, h: int, x: int, y: int, j: int)
    requires InGrid(w, h, x, y) && 0 <= j < w * h && Neighbours(w, Idx(w, x, y), j)
    ensures var i := Idx(w, x, y);
      j in {i - w - 1, i - w, i - w + 1, i - 1, i + 1, i + w - 1, i + w, i + w + 1}
  {
    IdxCoords(w, x, y);
    CellCoords(w, h, j);
    OffsetInSet(w, x, y, Col(w, j), Row(w, j), j);
  }

  /** Index arithmetic behind `NeighbourIsOffset`, apart from division: a cell
      at most one column and one row away from `(x, y)` is at one of the nine
      flat offsets around it. */
  lemma OffsetInSet(w: int, x: int, y: int, cx: int, cy: int, j: int)
    requires -1 <= cx - x <= 1 && -1 <= cy - y <= 1 && j == cy * w + cx
    ensures var i := y * w + x;
      j in {i - w - 1, i - w, i - w + 1, i - 1, i, i + 1, i + w - 1, i + w, i + w + 1}
  {
    var i, dx := y * w + x, cx - x;
    if cy == y - 1 {
      assert cy * w == y * w - w;
      assert j == i - w + dx;
    } else if cy == y {
      assert j == i + dx;
    } else {
      assert cy == y + 1;
      assert cy * w == y * w + w;
      assert j == i + w + dx;
    }
  }

  /** The eight-way test the scan applies to the interior cell `(x, y)`. */
  method EdgeAt(w: int, h: int, c: seq<Byte>, x: int, y: int) returns (isEdge: bool)
    requires |c| == w * h && 1 <= x < w - 1 && 1 <= y < h - 1
    ensures isEdge == IsEdge(w, h, c, Idx(w, x, y))
  {
    var i := x + y * w;
    EdgeTest(w, h, c, x, y);
    isEdge := c[i] != 0 && (
      c[i - w - 1] == 0 || c[i - w] == 0 || c[i - w + 1] == 0 ||
      c[i - 1] == 0 || c[i + 1] == 0 ||
      c[i + w - 1] == 0 || c[i + w] == 0 || c[i + w + 1] == 0);
  }

  /** The starting frontier: the edge cells, in row-major order. */
  method InitialFrontier(w: int, h: int, c: seq<Byte>) returns (frontier: seq<int>)
    requires w > 0 && h > 0 && |c| == w * h
    ensures NoDuplicates(frontier)
    ensures forall k :: k in frontier ==> 0 <= k < w * h
    ensures forall k :: 0 <= k < w * h ==> (k in frontier <==> IsEdge(w, h, c, k))
  {
    frontier := [];
    var y := 1;
    while y < h - 1
      invariant 1 <= y && (y <= h - 1 || y == 1)
      invariant ScannedUpTo(w, h, c, frontier, y, 1)
    {
      var x := 1;
      while x < w - 1
        invariant 1 <= x && (x <= w - 1 || x == 1)
        invariant ScannedUpTo(w, h, c, frontier, y, x)
      {
        var i := x + y * w;
        var isEdge := EdgeAt(w, h, c, x, y);
        ghost var before := frontier;
        if isEdge {
          frontier := frontier + [i];
        }
        ScanStep(w, h, c, y, x, before, frontier);
        x := x + 1;
      }
      ScanNextRow(w, h, c, y, x, frontier);
      y := y + 1;
    }
  }

  /** The holes left after a round are the old ones minus the cells filled. */
  lemma HolesAfterRound(c: seq<Byte>, c': seq<Byte>, next: seq<int>)
    requires |c'| == |c|
    requires forall k :: k in next ==> 0 <= k < |c| && c[k] == 0
    requires forall k :: 0 <= k < |c| && k in next ==> c'[k] == Filled
    requires forall k :: 0 <= k < |c| && k !in next ==> c'[k] == c[k]
    ensures Holes(c') == Holes(c) - Elements(next)
  {
  }

  /** A cell whose value can flow into a neighbouring hole: an edge cell of
      the input, or a hole of the input that has been filled. */
  predicate Source(m: Map, c: seq<Byte>, j: int)
    requires Valid(m) && |c| == |m.classifications| && 0 <= j < |c|
  {
    IsEdge(m.width, m.height, m.classifications, j) || (m.classifications[j] == 0 && c[j] == Filled)
  }

  /** Every source next to a remaining hole is on the frontier, so the next
      round reaches that hole. */
  predicate Fed(m: Map, c: seq<Byte>, frontier: seq<int>)
    requires Valid(m) && |c| == |m.classifications|
  {
    forall k, j :: 0 <= k < |c| && 0 <= j < |c| && c[k] == 0 && Neighbours(m.width, j, k) && Source(m, c, j) ==>
      j in frontier
  }

  /** A round keeps every source next to a remaining hole on the frontier: the
      old frontier would have filled the hole, so the source is a cell the
      round has just filled. */
  lemma FedStep(m: Map, c: seq<Byte>, frontier: seq<int>, c': seq<Byte>, next: seq<int>)
    requires Valid(m) && |c| == |c'| == |m.classifications|
    requires Fed(m, c, frontier)
    requires forall k :: 0 <= k < |c| ==> (k in next <==> c[k] == 0 && |Contributors(m.width, frontier, k)| > 0)
    requires forall k :: 0 <= k < |c| && k in next ==> c'[k] == Filled
    requires forall k :: 0 <= k < |c| && k !in next ==> c'[k] == c[k]
    ensures Fed(m, c', next)
  {
    forall k, j | 0 <= k < |c| && 0 <= j < |c| && c'[k] == 0 && Neighbours(m.width, j, k) && Source(m, c', j)
      ensures j in next
    {
      ContributorsComplete(m.width, frontier, j, k);
    }
  }

  /** Every cell is as on entry, or was a hole on entry and is now filled. */
  predicate Kept(m: Map, e: seq<real>, c: seq<Byte>)
    requires Valid(m) && |e| == |c| == |m.classifications|
  {
    forall k :: 0 <= k < |c| ==>
      || (c[k] == m.classifications[k] && e[k] == m.elevations[k])
      || (m.classifications[k] == 0 && c[k] == Filled)
  }

  /** Filling some holes keeps `Kept`. */
  lemma KeptStep(m: Map, e: seq<real>, c: seq<Byte>, e': seq<real>, c': seq<Byte>, next: seq<int>)
    requires Valid(m) && |e| == |c| == |e'| == |c'| == |m.classifications|
    requires Kept(m, e, c)
    requires forall k :: 0 <= k < |c| && k in next ==> c[k] == 0 && c'[k] == Filled
    requires forall k :: 0 <= k < |c| && k !in next ==> e'[k] == e[k] && c'[k] == c[k]
    ensures Kept(m, e', c')
  {
  }

  /** What holds between two rounds of the main loop: data cells are as on
      entry, holes are either untouched or filled, every source next to a
      remaining hole is on the frontier, every round so far has filled at
      least one hole, and before the first round the frontier is the set of
      edge cells. */
  predicate Progress(m: Map, e: seq<real>, c: seq<Byte>, frontier: seq<int>, rounds: nat)
    requires Valid(m)
  {
    var w, h := m.width, m.height;
    && |e| == |c| == w * h
    && NoDuplicates(frontier)
    && (forall f :: f in frontier ==> 0 <= f < w * h)
    && Kept(m, e, c)
    && Holes(c) <= Holes(m.classifications)
    && Fed(m, c, frontier)
    && (|frontier| > 0 ==> rounds + |Holes(c)| <= |Holes(m.classifications)|)
    && rounds <= |Holes(m.classifications)| + 1
    && (rounds == 0 ==> e == m.elevations && c == m.classifications)
    && (rounds == 0 ==> forall k :: 0 <= k < w * h ==> (k in frontier <==> IsEdge(w, h, m.classifications, k)))
    && ((forall k :: 0 <= k < w * h ==> !IsEdge(w, h, m.classifications, k)) ==> |frontier| == 0 && rounds == 0)
  }

  /** One round keeps `Progress` and either shrinks the set of holes or ends
      the loop. */
  lemma RoundStep(m: Map, e: seq<real>, c: seq<Byte>, frontier: seq<int>, rounds: nat,
                  e': seq<real>, c': seq<Byte>, next: seq<int>)
    requires Valid(m) && Progress(m, e, c, frontier, rounds) && |frontier| > 0
    requires |e'| == |e| && |c'| == |c|
    requires NoDuplicates(next)
    requires forall k :: 0 <= k < |c| ==> (k in next <==> c[k] == 0 && |Contributors(m.width, frontier, k)| > 0)
    requires forall k :: k in next ==> 0 <= k < |c|
    requires forall k :: 0 <= k < |c| && k in next ==> c'[k] == Filled
    requires forall k :: 0 <= k < |c| && k !in next ==> e'[k] == e[k] && c'[k] == c[k]
    ensures Progress(m, e', c', next, rounds + 1)
    ensures Holes(c') <= Holes(c)
    ensures |next| > 0 ==> Holes(c') < Holes(c)
  {
    HolesAfterRound(c, c', next);
    KeptStep(m, e, c, e', c', next);
    FedStep(m, c, frontier, c', next);
    if |next| > 0 {
      assert next[0] in next;
      assert next[0] in Holes(c) - Holes(c');
      ProperSubsetSmaller(Holes(c'), Holes(c));
    }
  }

  /** The whole algorithm. A cell with data on entry keeps its elevation and
      classification; a hole either stays as it was or is filled and marked
      `Filled`. The number of rounds is at most the number of holes plus one,
      and when no edge cell exists nothing runs at all, while an edge cell
      means at least one round. On exit no remaining hole is next to an edge
      cell of the input or to a filled cell: the growth has run until nothing
      more could be reached. */
  method EdgeFillMap(m: Map) returns (r: Map, rounds: nat)
    requires Valid(m)
    ensures Valid(r)
    ensures r == m.(elevations := r.elevations, classifications := r.classifications)
    ensures forall k :: 0 <= k < |m.classifications| && m.classifications[k] != 0 ==>
      r.classifications[k] == m.classifications[k] && r.elevations[k] == m.elevations[k]
    ensures forall k :: 0 <= k < |m.classifications| ==>
      || (r.classifications[k] == m.classifications[k] && r.elevations[k] == m.elevations[k])
      || (m.classifications[k] == 0 && r.classifications[k] == Filled)
    ensures (forall k :: 0 <= k < |m.classifications| ==> !IsEdge(m.width, m.height, m.classifications, k)) ==>
      r == m && rounds == 0
    ensures rounds <= |Holes(m.classifications)| + 1
    ensures (exists k :: 0 <= k < |m.classifications| && IsEdge(m.width, m.height, m.classifications, k)) ==>
      rounds >= 1
    ensures forall k, j ::
      && 0 <= k < |r.classifications| && 0 <= j < |r.classifications|
      && r.classifications[k] == 0 && Neighbours(m.width, j, k)
      ==> !IsEdge(m.width, m.height, m.classifications, j) && !(m.classifications[j] == 0 && r.classifications[j] == Filled)
    ensures forall v :: EdgesLevel(m, v) ==> FilledLevel(m, r.elevations, r.classifications, v)
  {
    ghost var v := 0.0;
    if i :| 0 <= i < |m.classifications| && IsEdge(m.width, m.height, m.classifications, i) {
      v := m.elevations[i];
    }
    ghost var level := EdgesLevel(m, v);
    var e, c;
    e, c, rounds := Grow(m, v, level);
    r := m.(elevations := e, classifications := c);
    Finished(m, e, c, [], rounds, r);
    LevelAtExit(m, r, v, level);
  }

  /** The main loop: rounds run until the frontier is empty. */
  method Grow(m: Map, ghost v: real, ghost level: bool) returns (e: seq<real>, c: seq<Byte>, rounds: nat)
    requires Valid(m) && (level ==> EdgesLevel(m, v))
    ensures Progress(m, e, c, [], rounds)
    ensures level ==> Level(m, e, c, [], v)
  {
    e, c := m.elevations, m.classifications;
    var frontier := InitialFrontier(m.width, m.height, c);
    StartProgress(m, frontier);
    if level {
      StartLevel(m, frontier, v);
    }
    rounds := 0;
    while |frontier| > 0
      invariant Progress(m, e, c, frontier, rounds)
      invariant level ==> Level(m, e, c, frontier, v)
      decreases Holes(c), |frontier|
    {
      var e', c', next := Round(m, e, c, frontier, rounds, v, level);
      e, c, frontier := e', c', next;
      rounds := rounds + 1;
    }
  }

  /** Every edge cell of the input has elevation `v`. */
  predicate EdgesLevel(m: Map, v: real)
    requires Valid(m)
  {
    forall i :: 0 <= i < |m.classifications| && IsEdge(m.width, m.height, m.classifications, i) ==>
      m.elevations[i] == v
  }

  /** Every cell filled so far has elevation `v`. */
  predicate FilledLevel(m: Map, e: seq<real>, c: seq<Byte>, v: real)
    requires Valid(m) && |e| == |c| == |m.classifications|
  {
    forall k :: 0 <= k < |c| && m.classifications[k] == 0 && c[k] == Filled ==> e[k] == v
  }

  /** The frontier and every filled cell are at elevation `v`. */
  predicate Level(m: Map, e: seq<real>, c: seq<Byte>, frontier: seq<int>, v: real)
    requires Valid(m) && |e| == |c| == |m.classifications|
  {
    && (forall f :: f in frontier && 0 <= f < |e| ==> e[f] == v)
    && FilledLevel(m, e, c, v)
  }

  /** A round whose frontier is level at `v` fills every hole it reaches with
      `v`, so the new frontier is level too. */
  lemma LevelStep(m: Map, e: seq<real>, c: seq<Byte>, frontier: seq<int>,
                  e': seq<real>, c': seq<Byte>, next: seq<int>, v: real)
    requires Valid(m) && |e| == |c| == |e'| == |c'| == |m.classifications|
    requires forall f :: f in frontier ==> 0 <= f < |e|
    requires Level(m, e, c, frontier, v)
    requires forall k :: 0 <= k < |c| ==> (k in next <==> c[k] == 0 && |Contributors(m.width, frontier, k)| > 0)
    requires forall k :: 0 <= k < |c| && k in next ==>
      e'[k] == Mean(e, Contributors(m.width, frontier, k)) && c'[k] == Filled
    requires forall k :: 0 <= k < |c| && k !in next ==> e'[k] == e[k] && c'[k] == c[k]
    ensures Level(m, e', c', next, v)
  {
    forall k | 0 <= k < |c| && k in next
      ensures e'[k] == v
    {
      MeanOfEqualValues(e, Contributors(m.width, frontier, k), v);
    }
  }

  /** The edge cells form the first frontier, so a level edge starts a level
      frontier. */
  lemma StartLevel(m: Map, frontier: seq<int>, v: real)
    requires Valid(m) && EdgesLevel(m, v)
    requires forall k :: k in frontier ==> 0 <= k < |m.classifications| && IsEdge(m.width, m.height, m.classifications, k)
    ensures Level(m, m.elevations, m.classifications, frontier, v)
  {
  }

  /** The level reached at the end holds for every `v` the edge cells share:
      with an edge cell there is only one such `v`, and without one nothing is
      filled. */
  lemma LevelAtExit(m: Map, r: Map, v: real, level: bool)
    requires Valid(m) && r == m.(elevations := r.elevations, classifications := r.classifications)
    requires |r.elevations| == |r.classifications| == |m.classifications|
    requires (forall k :: 0 <= k < |m.classifications| ==> !IsEdge(m.width, m.height, m.classifications, k)) ==> r == m
    requires (exists i :: 0 <= i < |m.classifications| && IsEdge(m.width, m.height, m.classifications, i)) ==>
      exists i :: 0 <= i < |m.classifications| && IsEdge(m.width, m.height, m.classifications, i) && m.elevations[i] == v
    requires level == EdgesLevel(m, v)
    requires level ==> FilledLevel(m, r.elevations, r.classifications, v)
    ensures forall v' :: EdgesLevel(m, v') ==> FilledLevel(m, r.elevations, r.classifications, v')
  {
    forall v' | EdgesLevel(m, v')
      ensures FilledLevel(m, r.elevations, r.classifications, v')
    {
      if exists i :: 0 <= i < |m.classifications| && IsEdge(m.width, m.height, m.classifications, i) {
        var i :| 0 <= i < |m.classifications| && IsEdge(m.width, m.height, m.classifications, i) && m.elevations[i] == v;
        assert v' == v;
      } else {
        assert r == m;
      }
    }
  }

  /** One round of the main loop, with what the loop needs to know of it. */
  method Round(m: Map, e: seq<real>, c: seq<Byte>, frontier: seq<int>, ghost rounds: nat,
               ghost v: real, ghost level: bool)
    returns (e': seq<real>, c': seq<Byte>, next: seq<int>)
    requires Valid(m) && Progress(m, e, c, frontier, rounds) && |frontier| > 0
    requires level ==> Level(m, e, c, frontier, v)
    ensures Progress(m, e', c', next, rounds + 1)
    ensures Holes(c') <= Holes(c)
    ensures |next| > 0 ==> Holes(c') < Holes(c)
    ensures level ==> Level(m, e', c', next, v)
  {
    e', c', next := GrowRound(m.width, m.height, e, c, frontier);
    RoundStep(m, e, c, frontier, rounds, e', c', next);
    if level {
      LevelStep(m, e, c, frontier, e', c', next, v);
    }
  }

  /** The edge cells of the input are where the loop starts. */
  lemma StartProgress(m: Map, frontier: seq<int>)
    requires Valid(m)
    requires NoDuplicates(frontier)
    requires forall k :: k in frontier ==> 0 <= k < m.width * m.height
    requires forall k :: 0 <= k < m.width * m.height ==>
      (k in frontier <==> IsEdge(m.width, m.height, m.classifications, k))
    ensures Progress(m, m.elevations, m.classifications, frontier, 0)
  {
    if |frontier| > 0 {
      assert frontier[0] in frontier;
    }
  }

  /** When the frontier runs dry, no remaining hole borders an input edge cell
      or a filled cell. */
  lemma Finished(m: Map, e: seq<real>, c: seq<Byte>, frontier: seq<int>, rounds: nat, r: Map)
    requires Valid(m) && Progress(m, e, c, frontier, rounds) && |frontier| == 0
    requires r == m.(elevations := e, classifications := c)
    ensures Valid(r)
    ensures r == m.(elevations := r.elevations, classifications := r.classifications)
    ensures forall k :: 0 <= k < |m.classifications| ==>
      || (r.classifications[k] == m.classifications[k] && r.elevations[k] == m.elevations[k])
      || (m.classifications[k] == 0 && r.classifications[k] == Filled)
    ensures rounds <= |Holes(m.classifications)| + 1
    ensures forall k :: 0 <= k < |m.classifications| && m.classifications[k] != 0 ==>
      r.classifications[k] == m.classifications[k] && r.elevations[k] == m.elevations[k]
    ensures (forall k :: 0 <= k < |m.classifications| ==> !IsEdge(m.width, m.height, m.classifications, k)) ==>
      r == m && rounds == 0
    ensures (exists k :: 0 <= k < |m.classifications| && IsEdge(m.width, m.height, m.classifications, k)) ==>
      rounds >= 1
    ensures forall k, j ::
      && 0 <= k < |c| && 0 <= j < |c|
      && c[k] == 0 && Neighbours(m.width, j, k)
      ==> !IsEdge(m.width, m.height, m.classifications, j) && !(m.classifications[j] == 0 && c[j] == Filled)
  {
  }

  /** Without holes there are no edge cells, so the map is left as it is. */
  lemma NoHolesNoEdges(w: int, h: int, c: seq<Byte>)
    requires w > 0
    requires forall k :: 0 <= k < |c| ==> c[k] != 0
    ensures forall k :: 0 <= k < |c| ==> !IsEdge(w, h, c, k)
  {
  }

  /** When every frontier value around a hole is `v`, the hole is filled with
      `v`: a flat surface stays flat. */
  lemma {:induction false} SumOfEqualValues(e: seq<real>, cs: seq<int>, v: real)
    requires forall f :: f in cs ==> ValueAt(e, f) == v
    ensures SumValues(e, cs) == |cs| as real * v
  {
    if |cs| > 0 {
      SumOfEqualValues(e, cs[..|cs| - 1], v);
    }
  }

  lemma MeanOfEqualValues(e: seq<real>, cs: seq<int>, v: real)
    requires |cs| > 0
    requires forall f :: f in cs ==> ValueAt(e, f) == v
    ensures Mean(e, cs) == v
  {
    SumOfEqualValues(e, cs, v);
    DivideProduct(|cs| as real, v);
  }

  lemma DivideProduct(n: real, v: real)
    requires n > 0.0
    ensures n * v / n == v
  {
  }
}
