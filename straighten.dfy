/** straighten.py: restacking an image along a traced spine. Each traced
    point becomes one column of the output; the column is filled by
    walking from the spine point perpendicularly to its direction, one
    pixel per row, to either side. */
module Straighten {
  import opened Wrappers
  import opened Numeric
  import opened Geometry

  /** `pointInterpolate(uvframe, coord)`: the image value at `coord`, or
      None for the IndexError it raises outside the image. */
  type Interpolator = Vec2 -> Option<real>

  /** `int(math.ceil(max(edgedists) * 2))`: the height of the output. */
  function Height(edgedists: seq<real>): (h: int)
    requires 0 < |edgedists|
    ensures forall i :: 0 <= i < |edgedists| ==> edgedists[i] * 2.0 <= h as real
    ensures exists i :: 0 <= i < |edgedists| && (h as real) < edgedists[i] * 2.0 + 1.0
  {
    var m := Max(edgedists);
    assert forall i :: 0 <= i < |edgedists| ==> edgedists[i] * 2.0 <= m * 2.0;
    Ceil(m * 2.0)
  }

  /** The coordinate `y` pixels from the spine point on the first side:
      `[c[0] - y*d[1], c[1] + y*d[0]]`. */
  function Side1Coord(t: TracedPoint, y: int): Vec2
  {
    Vec2(t.c.e0 - (y as real) * t.d.e1, t.c.e1 + (y as real) * t.d.e0)
  }

  /** The coordinate `y` pixels from the spine point on the second side:
      `[c[0] + y*d[1], c[1] - y*d[0]]`. */
  function Side2Coord(t: TracedPoint, y: int): Vec2
  {
    Vec2(t.c.e0 + (y as real) * t.d.e1, t.c.e1 - (y as real) * t.d.e0)
  }

  /** The value a guarded write stores at `coord`: `int(...)` of the
      interpolated value when both components are non-negative and the
      interpolation succeeds; otherwise nothing is written and the pixel
      keeps its initial 0. */
  function Sample(interp: Interpolator, coord: Vec2): int
  {
    if coord.e0 >= 0.0 && coord.e1 >= 0.0 then
      match interp(coord)
      case Some(v) => Trunc(v)
      case None => 0
    else 0
  }

  /** The coordinate row `row` of a column samples: rows up to `basey` lie
      on the first side, `basey - row` pixels out; rows below it on the
      second side, `row - basey` pixels out. */
  function RowCoord(t: TracedPoint, basey: int, row: int): Vec2
  {
    if row <= basey then Side1Coord(t, basey - row) else Side2Coord(t, row - basey)
  }

  /** The first loop writes rows `basey - y` for y in [0, basey - 2], that
      is rows 2 .. basey; the second writes rows `basey + y` for y in
      [1, basey - 2], that is rows basey + 1 .. 2*basey - 2. */
  predicate Written(basey: int, row: int)
  {
    2 <= row <= 2 * basey - 2
  }

  /** The final value of output pixel (row, x). */
  function Pixel(spoints: seq<TracedPoint>, interp: Interpolator, basey: int, row: int, x: int): int
    requires 0 <= x < |spoints|
  {
    if Written(basey, row) then Sample(interp, RowCoord(spoints[x], basey, row)) else 0
  }

  /** restackBySpline. The output is `ceil(2*max(edgedists))` rows by
      `len(spoints)` columns, zero-initialised, with `basey = height / 2`
      (integer division); every pixel ends as `Pixel` says. An empty
      `edgedists` fails in `max`, a negative height in `numpy.zeros`. */
  method RestackBySpline(spoints: seq<TracedPoint>, interp: Interpolator, edgedists: seq<real>)
    returns (r: Result<array2<int>>)
    ensures edgedists == [] ==> r == Err(ValueError("max() arg is an empty sequence"))
    ensures edgedists != [] && Height(edgedists) < 0 ==> r == Err(ValueError("negative dimensions are not allowed"))
    ensures r.Ok? <==> edgedists != [] && 0 <= Height(edgedists)
    ensures r.Ok? ==>
      && fresh(r.value)
      && r.value.Length0 == Height(edgedists)
      && r.value.Length1 == |spoints|
      && forall i, j :: 0 <= i < r.value.Length0 && 0 <= j < r.value.Length1 ==>
           r.value[i, j] == Pixel(spoints, interp, Height(edgedists) / 2, i, j)
  {
    if edgedists == [] {
      return Err(ValueError("max() arg is an empty sequence"));
    }
    var height, width := Height(edgedists), |spoints|;
    if height < 0 {
      return Err(ValueError("negative dimensions are not allowed"));
    }
    var frame := new int[height, width]((i, j) => 0);
    var basey := height / 2;
    for x := 0 to width
      invariant forall i, j :: 0 <= i < height && 0 <= j < x ==> frame[i, j] == Pixel(spoints, interp, basey, i, j)
      invariant forall i, j :: 0 <= i < height && x <= j < width ==> frame[i, j] == 0
    {
      FillFirstSide(frame, spoints, interp, basey, x);
      FillSecondSide(frame, spoints, interp, basey, x);
    }
    return Ok(frame);
  }

  /** The first inner loop of restackBySpline for column x: rows
      `basey - y` for y in `range(basey - 1)`. */
  method FillFirstSide(frame: array2<int>, spoints: seq<TracedPoint>, interp: Interpolator, basey: int, x: int)
    requires 0 <= basey && 2 * basey <= frame.Length0
    requires 0 <= x < frame.Length1 && x < |spoints|
    requires forall i :: 0 <= i < frame.Length0 ==> frame[i, x] == 0
    modifies frame
    ensures forall i, j :: 0 <= i < frame.Length0 && 0 <= j < frame.Length1 && j != x ==> frame[i, j] == old(frame[i, j])
    ensures forall i :: 0 <= i < frame.Length0 ==>
      frame[i, x] == if 2 <= i <= basey then Pixel(spoints, interp, basey, i, x) else old(frame[i, x])
  {
    var t := spoints[x];
    var y := 0;
    while y < basey - 1
      invariant 0 <= y && (y == 0 || y <= basey - 1)
      invariant forall i, j :: 0 <= i < frame.Length0 && 0 <= j < frame.Length1 && j != x ==> frame[i, j] == old(frame[i, j])
      invariant forall i :: 0 <= i < frame.Length0 ==>
        frame[i, x] == if basey - y < i <= basey then Pixel(spoints, interp, basey, i, x) else old(frame[i, x])
    {
      var coord := Side1Coord(t, y);
      assert basey - (basey - y) == y;
      assert coord == RowCoord(t, basey, basey - y);
      if coord.e0 >= 0.0 && coord.e1 >= 0.0 {
        var v := interp(coord);
        if v.Some? {
          frame[basey - y, x] := Trunc(v.value);
        }
      }
      y := y + 1;
    }
  }

  /** The second inner loop for column x: rows `basey + y` for y in
      `range(1, basey - 1)`. */
  method FillSecondSide(frame: array2<int>, spoints: seq<TracedPoint>, interp: Interpolator, basey: int, x: int)
    requires 0 <= basey && 2 * basey <= frame.Length0
    requires 0 <= x < frame.Length1 && x < |spoints|
    requires forall i :: basey < i < frame.Length0 ==> frame[i, x] == 0
    modifies frame
    ensures forall i, j :: 0 <= i < frame.Length0 && 0 <= j < frame.Length1 && j != x ==> frame[i, j] == old(frame[i, j])
    ensures forall i :: 0 <= i < frame.Length0 ==>
      frame[i, x] == if basey < i <= 2 * basey - 2 then Pixel(spoints, interp, basey, i, x) else old(frame[i, x])
  {
    var t := spoints[x];
    var y := 1;
    while y < basey - 1
      invariant 1 <= y && (y == 1 || y <= basey - 1)
      invariant forall i, j :: 0 <= i < frame.Length0 && 0 <= j < frame.Length1 && j != x ==> frame[i, j] == old(frame[i, j])
      invariant forall i :: 0 <= i < frame.Length0 ==>
        frame[i, x] == if basey < i < basey + y then Pixel(spoints, interp, basey, i, x) else old(frame[i, x])
    {
      var coord := Side2Coord(t, y);
      assert (basey + y) - basey == y;
      assert coord == RowCoord(t, basey, basey + y);
      if coord.e0 >= 0.0 && coord.e1 >= 0.0 {
        var v := interp(coord);
        if v.Some? {
          frame[basey + y, x] := Trunc(v.value);
        }
      }
      y := y + 1;
    }
  }

  // ------------------------------------------------------------ properties

  /** Rows 0 and 1, and every row from `2*basey - 1` on, are never written
      and stay 0. */
  lemma UntouchedRowsStayZero(spoints: seq<TracedPoint>, interp: Interpolator, basey: int, row: int, x: int)
    requires 0 <= x < |spoints|
    requires row < 2 || 2 * basey - 1 <= row
    ensures Pixel(spoints, interp, basey, row, x) == 0
  {
  }

  /** The written rows lie inside the frame: with `basey = height / 2` and
      a non-negative height, rows 2 .. 2*basey - 2 are below `height`. */
  lemma WrittenRowsInFrame(height: int, row: int)
    requires 0 <= height && Written(height / 2, row)
    ensures 0 <= row < height
    ensures row <= height / 2 ==> 0 <= height / 2 - row <= height / 2 - 2
    ensures height / 2 < row ==> 1 <= row - height / 2 <= height / 2 - 2
  {
  }

  /** The midline row `basey` samples the traced position itself. */
  lemma MidlineSamplesSpine(spoints: seq<TracedPoint>, interp: Interpolator, basey: int, x: int)
    requires 0 <= x < |spoints| && 2 <= basey
    ensures Pixel(spoints, interp, basey, basey, x) == Sample(interp, spoints[x].c)
  {
    var t := spoints[x];
    assert Side1Coord(t, 0) == Vec2(t.c.e0 - 0.0 * t.d.e1, t.c.e1 + 0.0 * t.d.e0);
  }

  /** A pixel is non-zero only where a write happened: a written row whose
      sampled coordinate has both components non-negative and where the
      interpolation succeeded; there it is `int()` of the interpolated
      value. Conversely every such pixel holds that value. */
  lemma PixelWrittenOnlyWhen(spoints: seq<TracedPoint>, interp: Interpolator, basey: int, row: int, x: int)
    requires 0 <= x < |spoints|
    ensures var coord := RowCoord(spoints[x], basey, row);
      Pixel(spoints, interp, basey, row, x) != 0 ==>
        && Written(basey, row)
        && coord.e0 >= 0.0 && coord.e1 >= 0.0
        && interp(coord).Some?
        && Pixel(spoints, interp, basey, row, x) == Trunc(interp(coord).value)
    ensures var coord := RowCoord(spoints[x], basey, row);
      Written(basey, row) && coord.e0 >= 0.0 && coord.e1 >= 0.0 && interp(coord).Some? ==>
        Pixel(spoints, interp, basey, row, x) == Trunc(interp(coord).value)
  {
  }

  /** Column x depends only on the traced point `spoints[x]` (and the image). */
  lemma ColumnDependsOnItsPoint(spoints: seq<TracedPoint>, spoints': seq<TracedPoint>, interp: Interpolator,
                                basey: int, row: int, x: int, x': int)
    requires 0 <= x < |spoints| && 0 <= x' < |spoints'| && spoints[x] == spoints'[x']
    ensures Pixel(spoints, interp, basey, row, x) == Pixel(spoints', interp, basey, row, x')
  {
  }

  /** The two walks leave the spine point across its direction, in
      opposite senses: `y` steps of the quarter turn of `d` on the first
      side, `y` steps back on the second, mirror images about `c`. */
  lemma SidesPerpendicular(t: TracedPoint, y: int)
    ensures Minus(Side1Coord(t, y), t.c) == Scale(y as real, Perp(t.d))
    ensures Minus(Side2Coord(t, y), t.c) == Scale(-(y as real), Perp(t.d))
    ensures Dot(Minus(Side1Coord(t, y), t.c), t.d) == 0.0
    ensures Dot(Minus(Side2Coord(t, y), t.c), t.d) == 0.0
    ensures Plus(Side1Coord(t, y), Side2Coord(t, y)) == Scale(2.0, t.c)
  {
    ScaledPerp(y as real, t.d);
    ScaledPerp(-(y as real), t.d);
    assert -(y as real) * -t.d.e1 == (y as real) * t.d.e1;
  }
}
