/** The carry-forward hole fill (`MapAlgorithms.LinearFillMap`).

    One row-major scan replaces every elevation that is exactly 0 with the
    last non-zero elevation seen so far. The running value is initialised once
    for the whole scan, so it carries over from the end of one row into the
    start of the next. */
module LinearFill {
  import opened Common
  import opened Maps

  /** The most recent non-zero elevation strictly before index `i`, or 0 when
      every earlier elevation is 0. */
  function LastNonZero(e: seq<real>, i: int): real
    requires 0 <= i <= |e|
  {
    if i == 0 then 0.0
    else if e[i - 1] != 0.0 then e[i - 1]
    else LastNonZero(e, i - 1)
  }

  /** The whole fill as a reference definition over the elevation sequence. */
  function CarryForward(e: seq<real>): (f: seq<real>)
    ensures |f| == |e|
  {
    seq(|e|, i requires 0 <= i < |e| => if e[i] != 0.0 then e[i] else LastNonZero(e, i))
  }

  /** `LastNonZero` is either 0 over an all-zero prefix, or the value at the
      latest non-zero position before `i`. */
  lemma {:induction false} LastNonZeroIsLatest(e: seq<real>, i: int)
    requires 0 <= i <= |e|
    ensures LastNonZero(e, i) == 0.0 <==> forall j :: 0 <= j < i ==> e[j] == 0.0
    ensures LastNonZero(e, i) != 0.0 ==>
      exists j :: 0 <= j < i && e[j] == LastNonZero(e, i) && forall m :: j < m < i ==> e[m] == 0.0
  {
    if i > 0 {
      LastNonZeroIsLatest(e, i - 1);
      if e[i - 1] == 0.0 && LastNonZero(e, i) != 0.0 {
        var j :| 0 <= j < i - 1 && e[j] == LastNonZero(e, i - 1) && forall m :: j < m < i - 1 ==> e[m] == 0.0;
        assert forall m :: j < m < i ==> e[m] == 0.0;
      }
    }
  }

  /** Filling does not change which value is the latest non-zero one. */
  lemma {:induction false} LastNonZeroOfFilled(e: seq<real>, i: int)
    requires 0 <= i <= |e|
    ensures LastNonZero(CarryForward(e), i) == LastNonZero(e, i)
  {
    if i > 0 {
      LastNonZeroOfFilled(e, i - 1);
    }
  }

  /** Running the fill a second time changes nothing. */
  lemma CarryForwardIdempotent(e: seq<real>)
    ensures CarryForward(CarryForward(e)) == CarryForward(e)
  {
    var f := CarryForward(e);
    forall i | 0 <= i < |e|
      ensures CarryForward(f)[i] == f[i]
    {
      LastNonZeroOfFilled(e, i);
      if e[i] == 0.0 && LastNonZero(e, i) == 0.0 {
        assert f[i] == 0.0;
      }
    }
  }

  /** Once a non-zero elevation has been seen, no later cell is left at 0. */
  lemma NoZeroAfterData(e: seq<real>, j: int, i: int)
    requires 0 <= j <= i < |e| && e[j] != 0.0
    ensures CarryForward(e)[i] != 0.0
  {
    LastNonZeroIsLatest(e, i);
  }

  /** The first `i` elevations of `e` are filled, the rest are as in `orig`. */
  predicate FilledUpTo(orig: seq<real>, e: seq<real>, i: int) {
    && |e| == |orig| && 0 <= i <= |e|
    && (forall k :: 0 <= k < i ==> e[k] == CarryForward(orig)[k])
    && (forall k :: i <= k < |e| ==> e[k] == orig[k])
  }

  /** A hole takes the running value, which stays the latest non-zero one. */
  lemma FillHole(orig: seq<real>, e: seq<real>, i: int, lastValue: real)
    requires FilledUpTo(orig, e, i) && i < |e| && e[i] == 0.0
    requires lastValue == LastNonZero(orig, i)
    ensures FilledUpTo(orig, e[i := lastValue], i + 1)
    ensures lastValue == LastNonZero(orig, i + 1)
  {
  }

  /** A data cell is kept and becomes the running value. */
  lemma FillKeep(orig: seq<real>, e: seq<real>, i: int)
    requires FilledUpTo(orig, e, i) && i < |e| && e[i] != 0.0
    ensures FilledUpTo(orig, e, i + 1)
    ensures e[i] == LastNonZero(orig, i + 1)
  {
  }

  /** The scan, as the nested row/column loops of the original. Classifications
      are left alone so that callers can still see which cells were holes. */
  method LinearFillMap(m: Map) returns (r: Map)
    requires Valid(m)
    ensures Valid(r)
    ensures r.classifications == m.classifications
    ensures r == m.(elevations := r.elevations)
    ensures forall i :: 0 <= i < |m.elevations| && m.elevations[i] != 0.0 ==>
      r.elevations[i] == m.elevations[i]
    ensures forall i :: 0 <= i < |m.elevations| && m.elevations[i] == 0.0 ==>
      r.elevations[i] == LastNonZero(m.elevations, i)
  {
    var e := m.elevations;
    var i := 0;
    var lastValue := 0.0;
    var y := 0;
    while y < m.height
      invariant 0 <= y <= m.height
      invariant i == y * m.width
      invariant FilledUpTo(m.elevations, e, i)
      invariant lastValue == LastNonZero(m.elevations, i)
    {
      var x := 0;
      while x < m.width
        invariant 0 <= x <= m.width
        invariant i == y * m.width + x
        invariant FilledUpTo(m.elevations, e, i)
        invariant lastValue == LastNonZero(m.elevations, i)
      {
        IdxInRange(m.width, m.height, x, y);
        var v := e[i];
        if v == 0.0 {
          FillHole(m.elevations, e, i, lastValue);
          e := e[i := lastValue];
        } else {
          FillKeep(m.elevations, e, i);
          lastValue := v;
        }
        x := x + 1;
        i := i + 1;
      }
      assert i == (y + 1) * m.width;
      y := y + 1;
    }
    assert i == |e|;
    r := m.(elevations := e);
  }

  /** The fill carries a value across a row boundary: a hole at the start of a
      row takes the last non-zero elevation of the row above. */
  lemma CarriesAcrossRows(e: seq<real>, w: int, y: int)
    requires w >= 1 && 1 <= y && (y + 1) * w <= |e|
    requires e[y * w - 1] != 0.0 && e[y * w] == 0.0
    ensures CarryForward(e)[y * w] == e[y * w - 1]
  {
    MulLeft(1, y, w);
  }
}
