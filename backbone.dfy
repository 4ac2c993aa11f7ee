/** What poselib.py and bblib.py share: the backbone value both loaders
    return, the meaning of the JSON and TSV readers, the file-name
    extension that selects a reader, and the arc-length parameterisation
    both spline builders compute. The two source files duplicate this code;
    the model states each meaning once and both modules' operations are
    proved against it. */
module Backbone {
  import opened Wrappers
  import opened Numeric
  import opened Geometry

  /** The `(points, edgedists)` pair the loaders return: samples in
      (z, y, x) order and the body half-width at each. */
  datatype BackboneData = BackboneData(points: seq<Point>, edgedists: seq<real>)

  /** One entry of the JSON "bbpoints" array as json.load gives it: the list
      [x, y, z, edgedist] (any length; the readers index 0 to 3). */
  type JsonRecord = seq<real>

  /** The parsed JSON document; `bbpoints` is None when the key is absent. */
  datatype JsonDoc = JsonDoc(bbpoints: Option<seq<JsonRecord>>)

  /** An opened backbone file as the two readers see it: its text lines
      (iterated by the TSV reader) and what json.load parses it to. */
  datatype FileContents = FileContents(lines: seq<string>, json: JsonDoc)

  // ---------------------------------------------------------------- JSON

  /** The backbone the JSON readers build from `records`, one record at a
      time: IndexError as soon as a record has fewer than four entries. */
  function DecodeRecords(records: seq<JsonRecord>): Result<BackboneData>
  {
    if |records| == 0 then Ok(BackboneData([], []))
    else
      var front := DecodeRecords(records[..|records| - 1]);
      var rec := records[|records| - 1];
      if front.Err? then front
      else if |rec| < 4 then Err(IndexError)
      else Ok(BackboneData(front.value.points + [Point(rec[2], rec[1], rec[0])],
                           front.value.edgedists + [rec[3]]))
  }

  /** The JSON readers' result: KeyError without "bbpoints". */
  function ReadJson(doc: JsonDoc): (r: Result<BackboneData>)
    ensures r.Err? ==> (r.error == KeyError <==> doc.bbpoints.None?)
    ensures r.Err? ==> (r.error == IndexError <==> doc.bbpoints.Some?)
  {
    match doc.bbpoints
    case None => Err(KeyError)
    case Some(records) =>
      DecodeRecordsSpec(records);
      DecodeRecords(records)
  }

  /** Reading succeeds exactly when every record has four entries; then the
      two outputs have one entry per record, record i's axes reversed into
      points[i] and its fourth entry in edgedists[i]. */
  lemma {:induction false} DecodeRecordsSpec(records: seq<JsonRecord>)
    ensures DecodeRecords(records).Ok? <==> forall i :: 0 <= i < |records| ==> |records[i]| >= 4
    ensures DecodeRecords(records).Err? ==> DecodeRecords(records).error == IndexError
    ensures DecodeRecords(records).Ok? ==>
      var bb := DecodeRecords(records).value;
      && |bb.points| == |records| && |bb.edgedists| == |records|
      && forall i :: 0 <= i < |records| ==>
           && bb.points[i] == Point(records[i][2], records[i][1], records[i][0])
           && bb.edgedists[i] == records[i][3]
  {
    if |records| > 0 {
      var init := records[..|records| - 1];
      DecodeRecordsSpec(init);
      assert forall i :: 0 <= i < |init| ==> init[i] == records[i];
    }
  }

  /** The JSON layout of a backbone: record i is [x, y, z, edgedist]. */
  function EncodeRecords(bb: BackboneData): seq<JsonRecord>
    requires |bb.points| == |bb.edgedists|
  {
    seq(|bb.points|, i requires 0 <= i < |bb.points| =>
      [bb.points[i].x, bb.points[i].y, bb.points[i].z, bb.edgedists[i]])
  }

  /** Reading back a backbone written in the JSON layout gives it back. */
  lemma DecodeEncode(bb: BackboneData)
    requires |bb.points| == |bb.edgedists|
    ensures DecodeRecords(EncodeRecords(bb)) == Ok(bb)
  {
    var records := EncodeRecords(bb);
    DecodeRecordsSpec(records);
    var r := DecodeRecords(records).value;
    assert r.points == bb.points;
    assert r.edgedists == bb.edgedists;
  }

  /** Four-entry records survive a read followed by a write unchanged. */
  lemma EncodeDecode(records: seq<JsonRecord>)
    requires forall i :: 0 <= i < |records| ==> |records[i]| == 4
    ensures DecodeRecords(records).Ok?
    ensures |DecodeRecords(records).value.points| == |DecodeRecords(records).value.edgedists|
    ensures EncodeRecords(DecodeRecords(records).value) == records
  {
    DecodeRecordsSpec(records);
    var out := EncodeRecords(DecodeRecords(records).value);
    assert |out| == |records|;
    forall i | 0 <= i < |records| ensures out[i] == records[i] {
      assert |out[i]| == 4;
    }
  }

  // ----------------------------------------------------------------- TSV

  /** What both TSV readers do: the first line already raises NameError
      (the loop body reads the undefined name `item`), so only an empty
      file reads, as an empty backbone. */
  function ReadTSV(lines: seq<string>): (r: Result<BackboneData>)
    ensures r.Ok? <==> lines == []
    ensures r.Ok? ==> r.value == BackboneData([], [])
    ensures r.Err? ==> r.error == NameError
  {
    if |lines| == 0 then Ok(BackboneData([], [])) else Err(NameError)
  }

  // ----------------------------------------------------------- extension

  /** `s.rfind(ch)`: the last index holding `ch`, or -1. */
  function RFind(s: string, ch: char): (r: int)
    ensures -1 <= r < |s|
    ensures 0 <= r ==> s[r] == ch
    ensures forall k :: r < k < |s| ==> s[k] != ch
  {
    if |s| == 0 then -1
    else if s[|s| - 1] == ch then |s| - 1
    else RFind(s[..|s| - 1], ch)
  }

  /** `os.path.splitext(path)[1]`: from the last '.' of the last path
      component on, unless everything before that dot in the component is
      dots (".json" has no extension). */
  function Extension(path: string): (ext: string)
    ensures |ext| <= |path| && ext == path[|path| - |ext|..]
    ensures ext == [] || (ext[0] == '.' && forall k :: 1 <= k < |ext| ==> ext[k] != '.' && ext[k] != '/')
  {
    var sep := RFind(path, '/');
    var dot := RFind(path, '.');
    if sep < dot && exists k :: sep < k < dot && path[k] != '.' then path[dot..] else []
  }

  /** A name ending in a suffix such as ".json", after a last component that
      does not end in '.' or '/', has exactly that suffix as its extension. */
  lemma ExtensionOfSuffix(stem: string, suffix: string)
    requires 0 < |suffix| && suffix[0] == '.'
    requires forall k :: 1 <= k < |suffix| ==> suffix[k] != '.' && suffix[k] != '/'
    requires 0 < |stem| && stem[|stem| - 1] != '.' && stem[|stem| - 1] != '/'
    ensures Extension(stem + suffix) == suffix
  {
    var path := stem + suffix;
    var sep := RFind(path, '/');
    var dot := RFind(path, '.');
    assert path[|stem|] == '.';
    assert dot == |stem|;
    assert sep < |stem| - 1 by {
      assert path[|stem| - 1] != '/';
      forall k | |stem| <= k < |path| ensures path[k] != '/' {
        assert path[k] == suffix[k - |stem|];
      }
    }
    assert path[|stem| - 1] != '.';
    assert path[dot..] == suffix;
  }

  /** The reader dispatch both loaders share: ".tsv" and ".json" select
      their readers, anything else raises ValueError naming the extension. */
  function ReadByExtension(bbext: string, file: FileContents): (r: Result<BackboneData>)
    ensures bbext == ".tsv" ==> r.Err? == (file.lines != [])
    ensures bbext != ".tsv" && bbext != ".json" ==> r == Err(ValueError("Unknown backbone data extension " + bbext))
  {
    if bbext == ".tsv" then ReadTSV(file.lines)
    else if bbext == ".json" then ReadJson(file.json)
    else Err(ValueError("Unknown backbone data extension " + bbext))
  }

  // ----------------------------------------------- arc-length parameters

  /** The list `p2pdists` before normalisation: 0 for the first point, then
      the distance from each point to the next. */
  function P2PDists(dist: (Point, Point) -> real, points: seq<Point>): seq<real>
  {
    [0.0] + seq(if |points| == 0 then 0 else |points| - 1,
                i requires 0 <= i < |points| - 1 => dist(points[i], points[i + 1]))
  }

  /** Each running sum of `d` divided by `total`. */
  function Normalized(d: seq<real>, total: real): seq<real>
    requires total != 0.0
  {
    seq(|d|, i requires 0 <= i < |d| => Sum(d[..i + 1]) / total)
  }

  /** What the spline builders hand to splrep, and the length estimate:
      the normalised arc-length parameters, the values fitted by the first
      spline (`p[2]` of each point) and by the second (`p[1]`), and
      `int(totdist)`. */
  datatype SplineInput = SplineInput(params: seq<real>, ytckSamples: seq<real>,
                                     xtckSamples: seq<real>, bblength: int)

  /** The result of bbToSpline / backboneSpline, up to splrep: the first
      division by a zero total raises ZeroDivisionError. */
  function SplineFit(dist: (Point, Point) -> real, points: seq<Point>): Result<SplineInput>
  {
    var p2p := P2PDists(dist, points);
    var total := Sum(p2p);
    if total == 0.0 then Err(ZeroDivisionError)
    else Ok(SplineInput(Normalized(p2p, total),
                        seq(|points|, i requires 0 <= i < |points| => points[i].x),
                        seq(|points|, i requires 0 <= i < |points| => points[i].y),
                        Trunc(total)))
  }

  /** The first loop of bbToSpline / backboneSpline: starting from `[0.]`,
      append the distance from each point to the one before it. */
  method PointDistances(points: seq<Point>, dist: (Point, Point) -> real) returns (p2pdists: seq<real>)
    ensures p2pdists == P2PDists(dist, points)
  {
    p2pdists := [0.0];
    var i := 1;
    while i < |points|
      invariant 1 <= i && (i == 1 || i <= |points|)
      invariant |p2pdists| == i && p2pdists[0] == 0.0
      invariant forall k :: 1 <= k < i ==> p2pdists[k] == dist(points[k - 1], points[k])
    {
      p2pdists := p2pdists + [dist(points[i - 1], points[i])];
      i := i + 1;
    }
  }

  /** The second loop: accumulate `rundist` and overwrite each entry with
      the running sum divided by the total. */
  method NormalizeRunning(p2pdists: seq<real>, totdist: real) returns (params: seq<real>)
    requires totdist != 0.0
    ensures params == Normalized(p2pdists, totdist)
  {
    params := p2pdists;
    var rundist := 0.0;
    var i := 0;
    while i < |params|
      invariant |params| == |p2pdists| && 0 <= i <= |p2pdists|
      invariant rundist == Sum(p2pdists[..i])
      invariant forall k :: 0 <= k < i ==> params[k] == Sum(p2pdists[..k + 1]) / totdist
      invariant forall k :: i <= k < |params| ==> params[k] == p2pdists[k]
    {
      SumPrefixStep(p2pdists, i);
      rundist := rundist + params[i];
      params := params[i := rundist / totdist];
      i := i + 1;
    }
  }

  lemma DivMonotone(a: real, b: real, t: real)
    requires a <= b && 0.0 < t
    ensures a / t <= b / t
  {
  }

  lemma DivUnit(a: real, t: real)
    requires 0.0 <= a <= t && 0.0 < t
    ensures 0.0 <= a / t <= 1.0
  {
  }

  lemma NormalizedFirst(d: seq<real>, total: real)
    requires 0 < |d| && d[0] == 0.0 && total != 0.0
    ensures Normalized(d, total)[0] == 0.0
  {
    SumPrefixStep(d, 0);
    assert Sum(d[..1]) == 0.0;
  }

  lemma NormalizedLast(d: seq<real>)
    requires 0 < |d| && Sum(d) != 0.0
    ensures Normalized(d, Sum(d))[|d| - 1] == 1.0
  {
    assert d[..|d|] == d;
    DivSelf(Sum(d));
  }

  lemma NormalizedMonotone(d: seq<real>, total: real, i: nat, j: nat)
    requires AllNonNegative(d) && 0.0 < total
    requires i <= j < |d|
    ensures Normalized(d, total)[i] <= Normalized(d, total)[j]
  {
    SumPrefixMonotone(d, i + 1, j + 1);
    DivMonotone(Sum(d[..i + 1]), Sum(d[..j + 1]), total);
  }

  lemma NormalizedBounded(d: seq<real>, i: nat)
    requires AllNonNegative(d) && 0.0 < Sum(d)
    requires i < |d|
    ensures 0.0 <= Normalized(d, Sum(d))[i] <= 1.0
  {
    SumPrefixMonotone(d, i + 1, |d|);
    assert d[..|d|] == d;
    DivUnit(Sum(d[..i + 1]), Sum(d));
  }

  /** Normalised running sums of non-negative terms whose first term is 0
      start at 0, never decrease, stay in [0, 1] and end at 1. */
  lemma NormalizedShape(d: seq<real>)
    requires 0 < |d| && AllNonNegative(d) && d[0] == 0.0 && Sum(d) != 0.0
    ensures 0.0 < Sum(d)
    ensures var n := Normalized(d, Sum(d));
      && |n| == |d|
      && n[0] == 0.0
      && n[|d| - 1] == 1.0
      && (forall i, j :: 0 <= i <= j < |d| ==> n[i] <= n[j])
      && (forall i :: 0 <= i < |d| ==> 0.0 <= n[i] <= 1.0)
  {
    assert d[..|d|] == d;
    SumPrefixMonotone(d, 0, |d|);
    NormalizedFirst(d, Sum(d));
    NormalizedLast(d);
    forall i, j | 0 <= i <= j < |d| ensures Normalized(d, Sum(d))[i] <= Normalized(d, Sum(d))[j] {
      NormalizedMonotone(d, Sum(d), i, j);
    }
    forall i | 0 <= i < |d| ensures 0.0 <= Normalized(d, Sum(d))[i] <= 1.0 {
      NormalizedBounded(d, i);
    }
  }

  lemma P2PDistsNonNegative(dist: (Point, Point) -> real, points: seq<Point>)
    requires NonNegativeDist(dist)
    ensures AllNonNegative(P2PDists(dist, points))
  {
  }

  /** The arc-length parameterisation: a zero total raises
      ZeroDivisionError; otherwise there is one parameter per point, the
      first 0 and the last 1, non-decreasing and within [0, 1], and the
      length estimate is the total truncated. */
  lemma SplineFitParams(dist: (Point, Point) -> real, points: seq<Point>)
    requires NonNegativeDist(dist)
    ensures var total := Sum(P2PDists(dist, points));
      && 0.0 <= total
      && (SplineFit(dist, points).Err? <==> total == 0.0)
      && (SplineFit(dist, points).Err? ==> SplineFit(dist, points).error == ZeroDivisionError)
    ensures SplineFit(dist, points).Ok? ==>
      var f := SplineFit(dist, points).value;
      && 2 <= |points|
      && |f.params| == |points|
      && f.params[0] == 0.0
      && f.params[|points| - 1] == 1.0
      && (forall i, j :: 0 <= i <= j < |points| ==> f.params[i] <= f.params[j])
      && (forall i :: 0 <= i < |points| ==> 0.0 <= f.params[i] <= 1.0)
      && 0 <= f.bblength
      && f.bblength as real <= Sum(P2PDists(dist, points)) < f.bblength as real + 1.0
      && |f.ytckSamples| == |points| && |f.xtckSamples| == |points|
      && (forall i :: 0 <= i < |points| ==> f.ytckSamples[i] == points[i].x && f.xtckSamples[i] == points[i].y)
  {
    var d := P2PDists(dist, points);
    P2PDistsNonNegative(dist, points);
    assert d[..|d|] == d;
    SumPrefixMonotone(d, 0, |d|);
    if Sum(d) != 0.0 {
      NormalizedShape(d);
    }
  }

  /** With a true distance, the total is zero (so the fit fails) exactly
      when every point coincides with the first: an empty or one-point
      backbone, or all points at one place. */
  lemma SplineFitDegenerate(dist: (Point, Point) -> real, points: seq<Point>)
    requires IsP2PDist(dist)
    ensures SplineFit(dist, points).Err? <==> forall i :: 0 <= i < |points| ==> points[i] == points[0]
  {
    P2PDistsNonNegative(dist, points);
    SumZeroIffAllZero(P2PDists(dist, points));
    ZeroDistsIffConstant(dist, points);
  }

  /** Every step distance is zero exactly when every point is the first. */
  lemma ZeroDistsIffConstant(dist: (Point, Point) -> real, points: seq<Point>)
    requires ZeroExactlyOnEqual(dist)
    ensures (forall k :: 0 <= k < |P2PDists(dist, points)| ==> P2PDists(dist, points)[k] == 0.0)
        <==> (forall i :: 0 <= i < |points| ==> points[i] == points[0])
  {
    var d := P2PDists(dist, points);
    if forall i :: 0 <= i < |points| ==> points[i] == points[0] {
      forall k | 1 <= k < |d| ensures d[k] == 0.0 {
        assert d[k] == dist(points[k - 1], points[k]);
        assert points[k - 1] == points[k];
      }
    }
    if forall k :: 0 <= k < |d| ==> d[k] == 0.0 {
      forall k | 0 <= k < |points| - 1 ensures points[k] == points[k + 1] {
        assert d[k + 1] == dist(points[k], points[k + 1]);
      }
      forall i | 0 <= i < |points| ensures points[i] == points[0] {
        ChainEqual(points, i);
      }
    }
  }

  lemma {:induction false} ChainEqual<T>(s: seq<T>, i: nat)
    requires forall k :: 0 <= k < |s| - 1 ==> s[k] == s[k + 1]
    requires i < |s|
    ensures s[i] == s[0]
  {
    if i > 0 {
      ChainEqual(s, i - 1);
    }
  }

  /** The distances of the reversed backbone are those of the original read
      backwards, so both have the same total. */
  lemma ReversedDists(dist: (Point, Point) -> real, points: seq<Point>)
    requires SymmetricDist(dist)
    requires 0 < |points|
    ensures P2PDists(dist, Reverse(points))[1..] == Reverse(P2PDists(dist, points)[1..])
    ensures Sum(P2PDists(dist, Reverse(points))) == Sum(P2PDists(dist, points))
  {
    var n := |points|;
    var rev := Reverse(points);
    var d, e := P2PDists(dist, points), P2PDists(dist, rev);
    forall k | 0 <= k < n - 1 ensures e[1..][k] == Reverse(d[1..])[k] {
      assert rev[k] == points[n - 1 - k] && rev[k + 1] == points[n - 2 - k];
    }
    assert e[1..] == Reverse(d[1..]);
    SumSplit(e, 1);
    SumSplit(d, 1);
    SumReverse(d[1..]);
    assert e[..1] == [0.0] == d[..1];
    assert Sum([0.0]) == 0.0 by { assert [0.0][..0] == []; }
  }

  /** A running sum of the reversed distances is the total minus a running
      sum of the original ones. */
  lemma ReversedPrefixSum(d: seq<real>, e: seq<real>, i: nat)
    requires 0 < |d| == |e| && d[0] == 0.0 && e[0] == 0.0
    requires e[1..] == Reverse(d[1..])
    requires i < |d|
    ensures Sum(e[..i + 1]) == Sum(d) - Sum(d[..|d| - i])
  {
    var n := |d|;
    var pre := e[..i + 1];
    SumSplit(pre, 1);
    forall k | 0 <= k < i ensures pre[1..][k] == Reverse(d[n - i..])[k] {
      assert pre[1..][k] == e[1..][k];
    }
    assert pre[1..] == Reverse(d[n - i..]);
    assert pre[..1] == [0.0];
    assert Sum([0.0]) == 0.0 by { assert [0.0][..0] == []; }
    SumReverse(d[n - i..]);
    SumSplit(d, n - i);
  }

  lemma DivDifference(t: real, a: real, b: real)
    requires t != 0.0
    ensures (b - a) / t == b / t - a / t
  {
  }

  lemma DivSelf(t: real)
    requires t != 0.0
    ensures t / t == 1.0
  {
  }

  lemma DivComplement(t: real, a: real)
    requires t != 0.0
    ensures (t - a) / t == 1.0 - a / t
  {
    DivDifference(t, a, t);
    DivSelf(t);
  }

  /** Parameter i of the reversed backbone is 1 minus parameter n - 1 - i
      of the original. */
  lemma NormalizedReversed(d: seq<real>, e: seq<real>)
    requires 0 < |d| == |e| && d[0] == 0.0 && e[0] == 0.0
    requires e[1..] == Reverse(d[1..]) && Sum(d) != 0.0
    ensures forall i :: 0 <= i < |d| ==> Normalized(e, Sum(d))[i] == 1.0 - Normalized(d, Sum(d))[|d| - 1 - i]
  {
    forall i | 0 <= i < |d| ensures Normalized(e, Sum(d))[i] == 1.0 - Normalized(d, Sum(d))[|d| - 1 - i] {
      ReversedPrefixSum(d, e, i);
      DivComplement(Sum(d), Sum(d[..|d| - i]));
    }
  }

  /** Fitting the reversed backbone (with a symmetric distance) succeeds
      exactly when fitting the original does, gives the same length
      estimate, and mirrors the parameters: t becomes 1 - t. */
  lemma SplineFitReversed(dist: (Point, Point) -> real, points: seq<Point>)
    requires SymmetricDist(dist)
    ensures SplineFit(dist, Reverse(points)).Ok? <==> SplineFit(dist, points).Ok?
    ensures SplineFit(dist, points).Ok? ==>
      var f, g := SplineFit(dist, points).value, SplineFit(dist, Reverse(points)).value;
      && g.bblength == f.bblength
      && |g.params| == |f.params| == |points|
      && forall i :: 0 <= i < |points| ==> g.params[i] == 1.0 - f.params[|points| - 1 - i]
  {
    if |points| == 0 {
      assert Reverse(points) == [];
      SplineFitEmpty(dist);
    } else {
      var d, e := P2PDists(dist, points), P2PDists(dist, Reverse(points));
      ReversedDists(dist, points);
      SplineFitShape(dist, points);
      SplineFitShape(dist, Reverse(points));
      if Sum(d) != 0.0 {
        NormalizedReversed(d, e);
      }
    }
  }

  /** The fit fails exactly on a zero total; otherwise its parameters are
      the normalised prefix sums and its length the truncated total. */
  lemma SplineFitShape(dist: (Point, Point) -> real, points: seq<Point>)
    ensures SplineFit(dist, points).Ok? <==> Sum(P2PDists(dist, points)) != 0.0
    ensures SplineFit(dist, points).Ok? ==>
      && SplineFit(dist, points).value.params == Normalized(P2PDists(dist, points), Sum(P2PDists(dist, points)))
      && SplineFit(dist, points).value.bblength == Trunc(Sum(P2PDists(dist, points)))
  {
  }

  /** An empty backbone has total distance 0: its fit raises ZeroDivisionError. */
  lemma SplineFitEmpty(dist: (Point, Point) -> real)
    ensures SplineFit(dist, []) == Err(ZeroDivisionError)
  {
    assert P2PDists(dist, []) == [0.0];
    assert Sum([0.0]) == 0.0 by { assert [0.0][..0] == []; }
  }
}
