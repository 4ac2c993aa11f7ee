/** poselib.py: loading and orienting a backbone, the arc-length input of
    its spline, and placing model points on the traced spine. */
module PoseLib {
  import opened Wrappers
  import opened Numeric
  import opened Geometry
  import opened Backbone

  // ------------------------------------------------------------ loading

  /** bbReadJSON: one pass over the "bbpoints" records, appending each
      record's axes reversed to `points` and its fourth entry to
      `edgedists`. */
  method BbReadJSON(data: JsonDoc) returns (r: Result<BackboneData>)
    ensures r == ReadJson(data)
  {
    if data.bbpoints.None? {
      return Err(KeyError);
    }
    var records := data.bbpoints.value;
    var points: seq<Point> := [];
    var edgedists: seq<real> := [];
    var i := 0;
    while i < |records|
      invariant 0 <= i <= |records|
      invariant DecodeRecords(records[..i]) == Ok(BackboneData(points, edgedists))
    {
      var point := records[i];
      if |point| < 4 {
        DecodeRecordsSpec(records);
        return Err(IndexError);
      }
      assert records[..i + 1][..i] == records[..i];
      points := points + [Point(point[2], point[1], point[0])];
      edgedists := edgedists + [point[3]];
      i := i + 1;
    }
    assert records[..i] == records;
    return Ok(BackboneData(points, edgedists));
  }

  /** The orientation step of bbLoad: reverse points and edge distances
      together when the first point's x lies beyond the last one's. */
  function Orient(bb: BackboneData): (r: BackboneData)
    requires 0 < |bb.points|
    ensures |r.points| == |bb.points| && |r.edgedists| == |bb.edgedists|
    ensures r.points[0].x <= r.points[|r.points| - 1].x
    ensures r == bb <==> bb.points[0].x <= bb.points[|bb.points| - 1].x
    ensures r != bb ==> r == BackboneData(Reverse(bb.points), Reverse(bb.edgedists))
  {
    if bb.points[0].x > bb.points[|bb.points| - 1].x then
      BackboneData(Reverse(bb.points), Reverse(bb.edgedists))
    else
      bb
  }

  /** Orienting twice changes nothing more. */
  lemma OrientIdempotent(bb: BackboneData)
    requires 0 < |bb.points|
    ensures Orient(Orient(bb)) == Orient(bb)
  {
  }

  /** Each (point, edge distance) pair stays together: position i of the
      result holds the pair from position i, or from n - 1 - i when the
      backbone was reversed. */
  lemma OrientKeepsPairs(bb: BackboneData)
    requires 0 < |bb.points| == |bb.edgedists|
    ensures forall i :: 0 <= i < |bb.points| ==>
      var k := if Orient(bb) == bb then i else |bb.points| - 1 - i;
      Orient(bb).points[i] == bb.points[k] && Orient(bb).edgedists[i] == bb.edgedists[k]
  {
  }

  /** bbLoad: pick the reader by extension, then orient the backbone; an
      empty backbone fails the orientation test's `points[0]`. */
  function BbLoad(bbfilename: string, file: FileContents): (r: Result<BackboneData>)
    ensures r.Ok? ==> 0 < |r.value.points| && r.value.points[0].x <= r.value.points[|r.value.points| - 1].x
  {
    var read := ReadByExtension(Extension(bbfilename), file);
    match read
    case Err(e) => Err(e)
    case Ok(bb) => if |bb.points| == 0 then Err(IndexError) else Ok(Orient(bb))
  }

  /** An extension other than ".tsv" and ".json" raises ValueError naming it. */
  lemma BbLoadUnknownExtension(bbfilename: string, file: FileContents)
    requires Extension(bbfilename) != ".tsv" && Extension(bbfilename) != ".json"
    ensures BbLoad(bbfilename, file) == Err(ValueError("Unknown backbone data extension " + Extension(bbfilename)))
  {
  }

  /** A ".tsv" file never loads: a non-empty file raises NameError in the
      reader, an empty one IndexError in the orientation test. */
  lemma BbLoadTsvFails(bbfilename: string, file: FileContents)
    requires Extension(bbfilename) == ".tsv"
    ensures BbLoad(bbfilename, file) == Err(if file.lines == [] then IndexError else NameError)
  {
  }

  /** A ".json" file whose records all have four entries loads as those
      records, one pair per record, oriented; with no records it raises
      IndexError. */
  lemma BbLoadJson(bbfilename: string, file: FileContents, records: seq<JsonRecord>)
    requires Extension(bbfilename) == ".json"
    requires file.json.bbpoints == Some(records)
    requires forall i :: 0 <= i < |records| ==> |records[i]| >= 4
    ensures DecodeRecords(records).Ok?
    ensures records == [] ==> BbLoad(bbfilename, file) == Err(IndexError)
    ensures records != [] ==>
      && BbLoad(bbfilename, file) == Ok(Orient(DecodeRecords(records).value))
      && |BbLoad(bbfilename, file).value.points| == |records|
      && |BbLoad(bbfilename, file).value.edgedists| == |records|
  {
    DecodeRecordsSpec(records);
  }

  // --------------------------------------------------- spline parameters

  /** bbToSpline up to splrep: builds `p2pdists` by appending, overwrites
      it in place with the normalised running sums, and truncates the total
      for the length estimate. */
  method BbToSpline(points: seq<Point>, dist: (Point, Point) -> real) returns (r: Result<SplineInput>)
    ensures r == SplineFit(dist, points)
  {
    var p2pdists := PointDistances(points, dist);
    var totdist := Sum(p2pdists);
    if totdist == 0.0 {
      // the first division, at index 0, raises
      return Err(ZeroDivisionError);
    }
    p2pdists := NormalizeRunning(p2pdists, totdist);
    r := Ok(SplineInput(p2pdists,
                        seq(|points|, k requires 0 <= k < |points| => points[k].x),
                        seq(|points|, k requires 0 <= k < |points| => points[k].y),
                        Trunc(totdist)));
  }

  // ---------------------------------------------------------- projection

  /** The poseinfo map: zoom, shift along the spine, rotation angle. */
  datatype PoseInfo = PoseInfo(zoom: real, shift: real, angle: real)

  /** projDiameter. */
  function ProjDiameter(diam: real, poseinfo: PoseInfo): (r: real)
    ensures poseinfo.zoom == 1.0 ==> r == diam
    ensures 0.0 <= diam && 0.0 <= poseinfo.zoom ==> 0.0 <= r
    ensures 0.0 <= diam && poseinfo.zoom < 0.0 ==> r <= 0.0
  {
    diam * poseinfo.zoom
  }

  /** The interpolated spine sample at spine coordinate `cx`: samples
      `int(cx)` and `int(cx + 1.)` blended by the fractional part. None when
      `cx` is negative or either index is past the end (the IndexError the
      source catches). */
  function SpineSample(cx: real, bbpoints: seq<TracedPoint>): (r: Option<TracedPoint>)
    ensures r.None? <==> cx < 0.0 || cx.Floor + 1 >= |bbpoints|
    ensures r.Some? && cx == cx.Floor as real ==> r.value == bbpoints[cx.Floor]
  {
    if cx < 0.0 then None
    else
      var i0, i1 := Trunc(cx), Trunc(cx + 1.0);
      if i0 >= |bbpoints| || i1 >= |bbpoints| then None
      else
        var beta := cx - i0 as real;
        var t0, t1 := bbpoints[i0], bbpoints[i1];
        Some(TracedPoint(Blend(t0.c, t1.c, beta), Blend(t0.d, t1.d, beta)))
  }

  /** For a non-negative spine coordinate, `int(cx)` and `int(cx + 1.)`
      are consecutive and the blend weight lies in [0, 1). */
  lemma SampleIndices(cx: real)
    requires 0.0 <= cx
    ensures Trunc(cx) == cx.Floor && Trunc(cx + 1.0) == cx.Floor + 1
    ensures 0.0 <= cx - Trunc(cx) as real < 1.0
  {
  }

  /** The interpolated position lies on the segment between the two
      neighbouring samples, component by component. */
  lemma SpineSampleBetween(cx: real, bbpoints: seq<TracedPoint>)
    requires SpineSample(cx, bbpoints).Some?
    ensures 0.0 <= cx && cx.Floor + 1 < |bbpoints|
    ensures var p, t0, t1 := SpineSample(cx, bbpoints).value.c, bbpoints[cx.Floor].c, bbpoints[cx.Floor + 1].c;
      Between(t0.e0, p.e0, t1.e0) && Between(t0.e1, p.e1, t1.e1)
  {
    SampleIndices(cx);
    var i0 := Trunc(cx);
    var beta := cx - i0 as real;
    var t0, t1 := bbpoints[i0].c, bbpoints[i0 + 1].c;
    var p := SpineSample(cx, bbpoints).value.c;
    assert p == Blend(t0, t1, beta);
    BlendBetween(t0, t1, beta);
  }

  /** projTranslateByBb: the point `coord.e1` along the interpolated
      direction from the interpolated position, axes swapped; None off the
      traced spine. */
  function ProjTranslateByBb(coord: Vec2, bbpoints: seq<TracedPoint>, poseinfo: PoseInfo): (r: Option<Vec2>)
    ensures r.None? <==> coord.e0 + poseinfo.shift < 0.0 || (coord.e0 + poseinfo.shift).Floor + 1 >= |bbpoints|
  {
    match SpineSample(coord.e0 + poseinfo.shift, bbpoints)
    case None => None
    case Some(base) => Some(Swap(Plus(base.c, Scale(coord.e1, base.d))))
  }

  /** Off the samples, the spine point is interpolated between samples
      `floor(cx)` and `floor(cx) + 1` by the fractional part of
      `cx = coord.e0 + shift`, in position and direction alike. */
  lemma ProjTranslateByBbBlend(coord: Vec2, bbpoints: seq<TracedPoint>, poseinfo: PoseInfo)
    requires ProjTranslateByBb(coord, bbpoints, poseinfo).Some?
    ensures var cx := coord.e0 + poseinfo.shift;
      var k, beta := cx.Floor, cx - cx.Floor as real;
      && 0 <= k && k + 1 < |bbpoints|
      && 0.0 <= beta < 1.0
      && ProjTranslateByBb(coord, bbpoints, poseinfo).value
         == Swap(Plus(Blend(bbpoints[k].c, bbpoints[k + 1].c, beta),
                      Scale(coord.e1, Blend(bbpoints[k].d, bbpoints[k + 1].d, beta))))
  {
    SampleIndices(coord.e0 + poseinfo.shift);
  }

  /** At a whole spine coordinate k no interpolation happens: the point is
      sample k's position moved `coord.e1` along sample k's direction. */
  lemma ProjTranslateByBbAtSample(coord: Vec2, bbpoints: seq<TracedPoint>, poseinfo: PoseInfo, k: nat)
    requires coord.e0 + poseinfo.shift == k as real && k + 1 < |bbpoints|
    ensures ProjTranslateByBb(coord, bbpoints, poseinfo)
         == Some(Swap(Plus(bbpoints[k].c, Scale(coord.e1, bbpoints[k].d))))
  {
    assert (k as real).Floor == k;
  }

  /** At a whole spine coordinate k, a point with no transverse offset is
      placed exactly on traced sample k. */
  lemma ProjTranslateAtSample(coord: Vec2, bbpoints: seq<TracedPoint>, poseinfo: PoseInfo, k: nat)
    requires coord.e0 + poseinfo.shift == k as real && k + 1 < |bbpoints|
    requires coord.e1 == 0.0
    ensures ProjTranslateByBb(coord, bbpoints, poseinfo) == Some(Swap(bbpoints[k].c))
  {
    ProjTranslateByBbAtSample(coord, bbpoints, poseinfo, k);
    assert Plus(bbpoints[k].c, Scale(0.0, bbpoints[k].d)) == bbpoints[k].c;
  }

  /** Only the sum of `coord.e0` and the shift matters. */
  lemma ProjTranslateShift(coord: Vec2, bbpoints: seq<TracedPoint>, poseinfo: PoseInfo)
    ensures ProjTranslateByBb(coord, bbpoints, poseinfo)
         == ProjTranslateByBb(Vec2(coord.e0 + poseinfo.shift, coord.e1), bbpoints, poseinfo.(shift := 0.0))
  {
  }

  /** As written, the transverse offset runs along the spine direction:
      at a whole spine coordinate the displacement from the sample is
      `coord.e1` times its direction, with no component across it. */
  lemma ProjTranslateOffsetAlongSpine(coord: Vec2, bbpoints: seq<TracedPoint>, poseinfo: PoseInfo, k: nat)
    requires coord.e0 + poseinfo.shift == k as real && k + 1 < |bbpoints|
    ensures ProjTranslateByBb(coord, bbpoints, poseinfo).Some?
    ensures var off := Minus(Swap(ProjTranslateByBb(coord, bbpoints, poseinfo).value), bbpoints[k].c);
      && off == Scale(coord.e1, bbpoints[k].d)
      && Dot(off, Perp(bbpoints[k].d)) == 0.0
  {
    ProjTranslateByBbAtSample(coord, bbpoints, poseinfo, k);
    var d := bbpoints[k].d;
    assert Minus(Swap(Swap(Plus(bbpoints[k].c, Scale(coord.e1, d)))), bbpoints[k].c) == Scale(coord.e1, d);
    ScaledPerp(-coord.e1, d);
    assert Dot(Scale(coord.e1, d), Perp(d)) == -Dot(Scale(-coord.e1, Perp(d)), d);
  }

  /** projTranslateByBb as its documentation describes it: the offset
      `coord.e1` taken perpendicular to the interpolated direction (the
      direction restackBySpline walks along). */
  function ProjTranslatePerpendicular(coord: Vec2, bbpoints: seq<TracedPoint>, poseinfo: PoseInfo): (r: Option<Vec2>)
    ensures r.None? <==> coord.e0 + poseinfo.shift < 0.0 || (coord.e0 + poseinfo.shift).Floor + 1 >= |bbpoints|
  {
    match SpineSample(coord.e0 + poseinfo.shift, bbpoints)
    case None => None
    case Some(base) => Some(Swap(Plus(base.c, Scale(coord.e1, Perp(base.d)))))
  }

  /** The corrected offset is perpendicular to the interpolated direction
      and as long as `coord.e1` times that direction. */
  lemma ProjTranslatePerpendicularOffset(coord: Vec2, bbpoints: seq<TracedPoint>, poseinfo: PoseInfo)
    requires ProjTranslatePerpendicular(coord, bbpoints, poseinfo).Some?
    ensures SpineSample(coord.e0 + poseinfo.shift, bbpoints).Some?
    ensures var base := SpineSample(coord.e0 + poseinfo.shift, bbpoints).value;
      var off := Minus(Swap(ProjTranslatePerpendicular(coord, bbpoints, poseinfo).value), base.c);
      Dot(off, base.d) == 0.0
    ensures var base := SpineSample(coord.e0 + poseinfo.shift, bbpoints).value;
      var off := Minus(Swap(ProjTranslatePerpendicular(coord, bbpoints, poseinfo).value), base.c);
      Dot(off, off) == Dot(Scale(coord.e1, base.d), Scale(coord.e1, base.d))
  {
    var base := SpineSample(coord.e0 + poseinfo.shift, bbpoints).value;
    var o := Scale(coord.e1, Perp(base.d));
    assert ProjTranslatePerpendicular(coord, bbpoints, poseinfo).value == Swap(Plus(base.c, o));
    var off := Minus(Swap(ProjTranslatePerpendicular(coord, bbpoints, poseinfo).value), base.c);
    assert off == o;
    ScaledPerp(coord.e1, base.d);
  }

  /** At a whole spine coordinate k, the corrected placement is sample k's
      position moved `coord.e1` along the quarter turn of its direction. */
  lemma ProjTranslatePerpendicularAtSample(coord: Vec2, bbpoints: seq<TracedPoint>, poseinfo: PoseInfo, k: nat)
    requires coord.e0 + poseinfo.shift == k as real && k + 1 < |bbpoints|
    ensures ProjTranslatePerpendicular(coord, bbpoints, poseinfo)
         == Some(Swap(Plus(bbpoints[k].c, Scale(coord.e1, Perp(bbpoints[k].d)))))
  {
    assert (k as real).Floor == k;
  }

  /** Both placements agree for points on the spine itself. */
  lemma ProjTranslateAgreeOnSpine(coord: Vec2, bbpoints: seq<TracedPoint>, poseinfo: PoseInfo)
    requires coord.e1 == 0.0
    ensures ProjTranslatePerpendicular(coord, bbpoints, poseinfo) == ProjTranslateByBb(coord, bbpoints, poseinfo)
  {
  }

  /** A straight spine along the first axis through (0,0), (1,0), (2,0),
      direction (1,0) throughout. */
  function StraightSpine(): seq<TracedPoint>
  {
    [TracedPoint(Vec2(0.0, 0.0), Vec2(1.0, 0.0)),
     TracedPoint(Vec2(1.0, 0.0), Vec2(1.0, 0.0)),
     TracedPoint(Vec2(2.0, 0.0), Vec2(1.0, 0.0))]
  }

  /** On the straight spine, the point half a pixel off sample 1 lands, as
      written, on the spine half a pixel further along. */
  lemma StraightSpineAlong()
    ensures ProjTranslateByBb(Vec2(1.0, 0.5), StraightSpine(), PoseInfo(1.0, 0.0, 0.0)) == Some(Vec2(0.0, 1.5))
  {
    ProjTranslateByBbAtSample(Vec2(1.0, 0.5), StraightSpine(), PoseInfo(1.0, 0.0, 0.0), 1);
    StraightSpineStep();
  }

  /** The corrected placement puts the same point half a pixel to the side
      of sample 1. */
  lemma StraightSpineAcross()
    ensures ProjTranslatePerpendicular(Vec2(1.0, 0.5), StraightSpine(), PoseInfo(1.0, 0.0, 0.0)) == Some(Vec2(0.5, 1.0))
  {
    ProjTranslatePerpendicularAtSample(Vec2(1.0, 0.5), StraightSpine(), PoseInfo(1.0, 0.0, 0.0), 1);
    StraightSpineQuarterTurn();
  }

  lemma StraightSpineStep()
    ensures Swap(Plus(StraightSpine()[1].c, Scale(0.5, StraightSpine()[1].d))) == Vec2(0.0, 1.5)
  {
  }

  lemma StraightSpineQuarterTurn()
    ensures Swap(Plus(StraightSpine()[1].c, Scale(0.5, Perp(StraightSpine()[1].d)))) == Vec2(0.5, 1.0)
  {
  }
}
