/** bblib.py: the older backbone library. Its JSON reader and spline
    input are the same computations as poselib's; its loader dispatches
    on the extension but neither checks for an empty backbone nor orients
    it. */
module BbLib {
  import opened Wrappers
  import opened Numeric
  import opened Geometry
  import opened Backbone
  import PoseLib

  /** readBbJSON: each record `[x, y, z, e]` becomes the point `[z, y, x]`
      and the edge distance `e`, in record order. */
  method ReadBbJSON(data: JsonDoc) returns (r: Result<BackboneData>)
    ensures data.bbpoints.None? ==> r == Err(KeyError)
    ensures data.bbpoints.Some? ==>
      var records := data.bbpoints.value;
      && (r.Ok? <==> forall i :: 0 <= i < |records| ==> |records[i]| >= 4)
      && (r.Err? ==> r.error == IndexError)
      && (r.Ok? ==>
            && |r.value.points| == |records|
            && |r.value.edgedists| == |records|
            && forall i :: 0 <= i < |records| ==>
                 && r.value.points[i] == Point(records[i][2], records[i][1], records[i][0])
                 && r.value.edgedists[i] == records[i][3])
  {
    if data.bbpoints.None? {
      return Err(KeyError);
    }
    var records := data.bbpoints.value;
    var points: seq<Point> := [];
    var edgedists: seq<real> := [];
    for i := 0 to |records|
      invariant |points| == i && |edgedists| == i
      invariant forall k :: 0 <= k < i ==> |records[k]| >= 4
      invariant forall k :: 0 <= k < i ==>
        points[k] == Point(records[k][2], records[k][1], records[k][0]) && edgedists[k] == records[k][3]
    {
      var point := records[i];
      if |point| < 4 {
        return Err(IndexError);
      }
      points := points + [Point(point[2], point[1], point[0])];
      edgedists := edgedists + [point[3]];
    }
    return Ok(BackboneData(points, edgedists));
  }

  /** Both JSON readers compute the same thing: readBbJSON is characterised
      by the same record decoding as bbReadJSON. */
  lemma ReadersAgree(data: JsonDoc)
    ensures data.bbpoints.None? ==> ReadJson(data) == Err(KeyError)
    ensures data.bbpoints.Some? ==>
      var records := data.bbpoints.value;
      && (ReadJson(data).Ok? <==> forall i :: 0 <= i < |records| ==> |records[i]| >= 4)
      && (ReadJson(data).Err? ==> ReadJson(data).error == IndexError)
      && (ReadJson(data).Ok? ==>
            && |ReadJson(data).value.points| == |records|
            && |ReadJson(data).value.edgedists| == |records|
            && forall i :: 0 <= i < |records| ==>
                 && ReadJson(data).value.points[i] == Point(records[i][2], records[i][1], records[i][0])
                 && ReadJson(data).value.edgedists[i] == records[i][3])
  {
    if data.bbpoints.Some? {
      DecodeRecordsSpec(data.bbpoints.value);
    }
  }

  /** loadBackbone: the shared reader dispatch on the file name's
      extension, with nothing after it. */
  function LoadBackbone(bbfilename: string, file: FileContents): (r: Result<BackboneData>)
    ensures Extension(bbfilename) == ".tsv" ==> r.Err? == (file.lines != [])
    ensures Extension(bbfilename) != ".tsv" && Extension(bbfilename) != ".json" ==>
      r == Err(ValueError("Unknown backbone data extension " + Extension(bbfilename)))
  {
    ReadByExtension(Extension(bbfilename), file)
  }

  /** loadBackbone never reorders: a JSON backbone comes back in file
      order, points and edge distances alike, even when its first x is beyond its last, and an empty one
      loads without error. */
  lemma LoadBackboneKeepsOrder(bbfilename: string, file: FileContents, records: seq<JsonRecord>)
    requires Extension(bbfilename) == ".json"
    requires file.json.bbpoints == Some(records)
    requires forall i :: 0 <= i < |records| ==> |records[i]| >= 4
    ensures LoadBackbone(bbfilename, file).Ok?
    ensures var bb := LoadBackbone(bbfilename, file).value;
      && |bb.points| == |records| && |bb.edgedists| == |records|
      && forall i :: 0 <= i < |records| ==>
           bb.points[i] == Point(records[i][2], records[i][1], records[i][0]) && bb.edgedists[i] == records[i][3]
  {
    DecodeRecordsSpec(records);
  }

  /** bbLoad is loadBackbone followed by the empty check and the
      orientation step. */
  lemma BbLoadExtendsLoadBackbone(bbfilename: string, file: FileContents)
    ensures LoadBackbone(bbfilename, file).Err? ==> PoseLib.BbLoad(bbfilename, file) == LoadBackbone(bbfilename, file)
    ensures LoadBackbone(bbfilename, file).Ok? ==>
      var bb := LoadBackbone(bbfilename, file).value;
      PoseLib.BbLoad(bbfilename, file) == (if |bb.points| == 0 then Err(IndexError) else Ok(PoseLib.Orient(bb)))
  {
  }

  /** backboneSpline up to splrep: the same two loops as bbToSpline,
      specified here directly by what they promise. The fit fails exactly
      when the total distance is zero (by SplineFitDegenerate, a backbone
      with no two distinct points); otherwise the parameters run from 0 to
      1, one per point, never decreasing, and the length is the total
      truncated. */
  method BackboneSpline(points: seq<Point>, dist: (Point, Point) -> real) returns (r: Result<SplineInput>)
    requires NonNegativeDist(dist)
    ensures r == SplineFit(dist, points)
    ensures r.Err? <==> Sum(P2PDists(dist, points)) == 0.0
    ensures r.Err? ==> r.error == ZeroDivisionError
    ensures r.Ok? ==>
      var f := r.value;
      && 2 <= |points|
      && |f.params| == |points|
      && f.params[0] == 0.0
      && f.params[|points| - 1] == 1.0
      && (forall i, j :: 0 <= i <= j < |points| ==> f.params[i] <= f.params[j])
      && f.bblength == Trunc(Sum(P2PDists(dist, points)))
      && 0 <= f.bblength
      && |f.ytckSamples| == |points| && |f.xtckSamples| == |points|
      && (forall i :: 0 <= i < |points| ==> f.ytckSamples[i] == points[i].x && f.xtckSamples[i] == points[i].y)
  {
    var p2pdists := PointDistances(points, dist);
    var totdist := Sum(p2pdists);
    if totdist == 0.0 {
      r := Err(ZeroDivisionError);
    } else {
      p2pdists := NormalizeRunning(p2pdists, totdist);
      r := Ok(SplineInput(p2pdists,
                          seq(|points|, k requires 0 <= k < |points| => points[k].x),
                          seq(|points|, k requires 0 <= k < |points| => points[k].y),
                          Trunc(totdist)));
    }
    SplineFitParams(dist, points);
  }
}
