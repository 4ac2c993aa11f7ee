# sigextract backbone pipeline, modelled in Dafny

This project models the deterministic core of the sigextract backbone tools.

- **Backbones.** A backbone is a list of 3-D backbone samples, each paired with the half-width of the worm body there (an "edge distance").
- **Loading.** The loaders read a backbone from a JSON or TSV file, choosing the reader by the file name's extension. `bbLoad` then orients the backbone so that its first x does not exceed its last.
- **Spline input.** The spline builders turn the samples into arc-length parameters: running sums of the point-to-point distances, divided by their total. They also estimate the length in pixels as `int(total)`.
- **Spine placement.** `projTranslateByBb` places a model point relative to a traced spine. It interpolates the spine sample at the point's spine coordinate and moves away from it by the point's transverse coordinate.
- **Restacking.** The restacker `restackBySpline` fills a zero-initialised 2-D frame, one column per traced spine point, by walking perpendicularly from the point to either side.
- **Projection.** The zoom projections scale NeuroML positions and diameters.

## Modules

- `Wrappers` defines `Option`, `Result` and the Python exceptions the modelled code raises.
- `Numeric` models Python's `int()` (truncation), `math.ceil`, `sum`, `max` and `[::-1]`.
- `Geometry` holds the backbone sample `Point(z, y, x)`, the two-element vectors of traced points, the numpy blend, and the properties of the point-to-point distance.
- `Backbone` holds what `poselib.py` and `bblib.py` duplicate, stated once:
  - the JSON record decoding and its inverse layout;
  - the TSV readers' actual behaviour;
  - `os.path.splitext`'s extension;
  - the extension dispatch;
  - the arc-length parameterisation `SplineFit`. The two loops that compute it are the methods `PointDistances` and `NormalizeRunning`.
- `PoseLib` models `poselib.py`, `BbLib` models `bblib.py`, `Straighten` models `straighten.py`, and `Interpose` models `interpose-neuroml.py`.
- `Pipeline` relates the modules:
  - the two diameter projections agree;
  - the corrected spine placement lands on the pixel the restacker samples;
  - the placement as written does not.

Python semantics kept explicit:

- `int()` of a float truncates toward zero (`Numeric.Trunc`).
- `height / 2` is Python 2 integer division of a non-negative int, which is Dafny's `/`.
- `max([])` raises `ValueError`.
- `numpy.zeros` with a negative height raises `ValueError`.
- Dividing by a zero total raises `ZeroDivisionError`.
- A record shorter than four entries raises `IndexError`.
- A missing `"bbpoints"` key raises `KeyError`.
- The TSV readers raise `NameError` on their first line. Their loop body reads the undefined name `item`.

The docstring of `projTranslateByBb` (poselib.py:156-159) and its code disagree; the model follows the code:

- The transverse offset of `projTranslateByBb` is taken along the tangent, not perpendicular to it. See Findings.

## Model

| member | source | states |
|---|---|---|
| Numeric.Trunc | poselib.py:91 | `int(v)` truncates toward zero: for v >= 0 the result r is non-negative with r <= v < r + 1, and for negative v it is the mirror bound |
| Numeric.Ceil | straighten.py:33 | `math.ceil(v)` is the least integer not below v: v <= r < v + 1 |
| Numeric.Sum | poselib.py:83 | `sum` of no terms is 0 and of one term is that term |
| Numeric.SumPrefixMonotone | poselib.py:83-86 | running sums of non-negative terms are non-negative and grow with the prefix |
| Numeric.SumZeroIffAllZero | poselib.py:83 | a sum of non-negative terms is 0 exactly when every term is 0 |
| Numeric.SumReverse | poselib.py:83 | summing in reverse order gives the same total |
| Numeric.Reverse | poselib.py:62-63 | `s[::-1]` has the same length, with the first and last entries swapped |
| Numeric.ReverseReverse | poselib.py:62-63 | reversing twice gives the list back |
| Geometry.Blend | poselib.py:173 | `v1 * beta + v0 * (1. - beta)` is the point `beta` of the way from v0 to v1: v0 at 0, v1 at 1 |
| Backbone.ReadJson | poselib.py:36-42 | the JSON reader raises KeyError exactly when "bbpoints" is missing, and its only other error is IndexError |
| Backbone.RFind | poselib.py:48 | `str.rfind` inside `splitext`: the last index holding the character, or -1, with no later occurrence |
| PoseLib.ProjDiameter | poselib.py:148-153 | `diam * zoom`: the diameter itself at zoom 1, non-negative for a non-negative diameter and zoom, non-positive under a negative zoom |
| Interpose.ProjectCoord | interpose-neuroml.py:36-41 | the projection is `(pos[1], pos[2])` scaled by the zoom |
| Interpose.ProjectDiameter | interpose-neuroml.py:43-48 | `diam * zoom`: the diameter itself at zoom 1, zero when either factor is zero, non-negative for non-negative factors |
| Numeric.Max | straighten.py:33 | `max` of a non-empty list is one of its elements and bounds every element |
| Backbone.DecodeRecordsSpec | poselib.py:39-42 | reading the records succeeds exactly when every record has at least four entries, and otherwise raises IndexError; on success both outputs have one entry per record, `points[i] == [p[2], p[1], p[0]]` and `edgedists[i] == p[3]` |
| Backbone.DecodeEncode | poselib.py:39-42 | a backbone written in the `[x, y, z, e]` record layout reads back as the same backbone |
| Backbone.EncodeDecode | poselib.py:39-42 | four-entry records read and then written back in the JSON layout are the same records |
| Backbone.ReadTSV | poselib.py:24-28 | the TSV reader succeeds only on an empty file, giving an empty backbone; any line raises NameError |
| Backbone.Extension | poselib.py:48 | `os.path.splitext(path)[1]` is a suffix of the path, empty or starting with its only '.', with no '/' in it |
| Backbone.ExtensionOfSuffix | poselib.py:48 | a file name ending in ".json" or ".tsv" after an ordinary last character has exactly that extension |
| Backbone.ReadByExtension | poselib.py:50-57 | ".tsv" fails exactly on a non-empty file; an extension other than ".tsv" and ".json" raises ValueError with the message "Unknown backbone data extension " followed by the extension |
| Backbone.PointDistances | poselib.py:79-81 | the append loop yields `[0.]` followed by the distance from each point to the one before it |
| Backbone.NormalizeRunning | poselib.py:83-87 | the in-place loop leaves entry i equal to the running sum up to i divided by the total |
| Backbone.NormalizedShape | poselib.py:83-87 | normalised running sums of non-negative terms that start with 0 and have a non-zero total begin at 0, never decrease, lie in [0, 1] and end at 1 |
| Backbone.SplineFitParams | poselib.py:79-91 | with a non-negative distance the total is non-negative, and a zero total is exactly the ZeroDivisionError case; otherwise there are at least two points and one parameter per point, the first 0 and the last 1, non-decreasing and in [0, 1]; the length is `int(total) >= 0`; the two fitted value lists are `p[2]` and `p[1]` of each point |
| Backbone.SplineFitDegenerate | poselib.py:75-87 | with a true distance, the fit raises exactly when every point equals the first (no points, one point, or all coincident) |
| Backbone.ZeroDistsIffConstant | poselib.py:79-81 | all step distances are zero exactly when all points coincide with the first |
| Backbone.ReversedDists | poselib.py:79-83 | with a symmetric distance, the reversed backbone's step distances are the original ones read backwards, with the same total |
| Backbone.NormalizedReversed | poselib.py:83-87 | parameter i of the reversed distances is 1 minus parameter n-1-i of the original |
| Backbone.SplineFitReversed | poselib.py:79-91 | the fit of the reversed backbone, as bbLoad's orientation produces it, succeeds exactly when the original fit does; it has the same length estimate, and it mirrors every parameter t to 1 - t |
| Backbone.SplineFitEmpty | poselib.py:79-87 | an empty backbone raises ZeroDivisionError |
| PoseLib.BbReadJSON | poselib.py:30-42 | the append loop computes the record decoding and raises KeyError when "bbpoints" is missing |
| PoseLib.Orient | poselib.py:59-65 | orientation keeps both lengths and leaves the first x no greater than the last; it returns the backbone unchanged exactly when it is already oriented, and otherwise both lists reversed together |
| PoseLib.OrientIdempotent | poselib.py:61-63 | orienting an oriented backbone changes nothing |
| PoseLib.OrientKeepsPairs | poselib.py:61-63 | every (point, edge distance) pair stays together at index i, or at n-1-i when reversed |
| PoseLib.BbLoad | poselib.py:44-65 | a loaded backbone is non-empty and oriented |
| PoseLib.BbLoadUnknownExtension | poselib.py:56-57 | an unknown extension raises ValueError naming it |
| PoseLib.BbLoadTsvFails | poselib.py:50-61 | a ".tsv" file never loads: NameError from a non-empty file, IndexError from `points[0]` on an empty one |
| PoseLib.BbLoadJson | poselib.py:53-65 | a ".json" file of four-entry records loads as the oriented decoding of those records, with one pair per record; no records is IndexError |
| PoseLib.BbToSpline | poselib.py:68-91 | the two loops and `int(totdist)` compute exactly the arc-length fit, including the ZeroDivisionError on a zero total |
| PoseLib.SpineSample | poselib.py:161-173 | there is no spine sample exactly when the spine coordinate is negative or `floor(cx) + 1` is past the end; at a whole coordinate the sample is the traced point itself |
| PoseLib.SampleIndices | poselib.py:167-172 | for cx >= 0, `int(cx)` is `floor(cx)`, `int(cx + 1.)` is the next index, and the blend weight lies in [0, 1) |
| PoseLib.SpineSampleBetween | poselib.py:172-173 | the interpolated position lies between its two neighbouring samples, component by component |
| PoseLib.ProjTranslateByBb | poselib.py:161-170 | returns None exactly when `coord[0] + shift < 0` or `floor(coord[0] + shift) + 1 >= len(bbpoints)` |
| PoseLib.ProjTranslateByBbBlend | poselib.py:172-176 | otherwise the result is the swap of the blend of positions `floor(cx)` and `floor(cx)+1` plus `coord[1]` times the blend of their directions, with a weight in [0, 1) |
| PoseLib.ProjTranslateByBbAtSample | poselib.py:172-176 | at a whole spine coordinate k the result is sample k's position plus `coord[1]` times sample k's direction, swapped |
| PoseLib.ProjTranslateAtSample | poselib.py:172-176 | at a whole spine coordinate with `coord[1] == 0` the result is that sample's position, swapped |
| PoseLib.ProjTranslateShift | poselib.py:161-162 | the shift only adds to `coord[0]` |
| PoseLib.ProjTranslateOffsetAlongSpine | poselib.py:175 | as written, the displacement from the sample is `coord[1]` times the tangent and has no component across it |
| PoseLib.ProjTranslatePerpendicular | poselib.py:155-170 | the corrected placement has the same None cases as the original |
| PoseLib.ProjTranslatePerpendicularOffset | poselib.py:156-159 | the corrected displacement is orthogonal to the interpolated tangent and as long as `coord[1]` times it |
| PoseLib.ProjTranslatePerpendicularAtSample | poselib.py:156-176 | at a whole spine coordinate k the corrected point is sample k's position plus `coord[1]` times the quarter turn of its direction, swapped |
| PoseLib.ProjTranslateAgreeOnSpine | poselib.py:175 | the placement as written and the corrected one agree for points on the spine (`coord[1] == 0`) |
| PoseLib.StraightSpineAlong | poselib.py:175-176 | on a straight spine, (1, 0.5) is placed, as written, at (0, 1.5): half a pixel along the spine |
| PoseLib.StraightSpineAcross | poselib.py:156-159 | on the same spine, the corrected placement of (1, 0.5) is (0.5, 1): half a pixel across the spine |
| BbLib.ReadBbJSON | bblib.py:23-35 | the append loop raises KeyError without "bbpoints" and IndexError on a short record; otherwise it succeeds exactly when all records have four entries and gives per-index `[p[2], p[1], p[0]]` and `p[3]`, with equal lengths |
| BbLib.ReadersAgree | bblib.py:32-35 | the shared JSON decoding that poselib's reader computes satisfies every fact readBbJSON's loop promises |
| BbLib.LoadBackbone | bblib.py:37-49 | ".tsv" fails exactly on a non-empty file; any other extension except ".json" raises ValueError naming it |
| BbLib.LoadBackboneKeepsOrder | bblib.py:45-47 | a JSON backbone comes back in file order, points `[p[2], p[1], p[0]]` and edge distances `p[3]` with one entry per record, even when its first x exceeds its last; an empty one loads without error |
| BbLib.BbLoadExtendsLoadBackbone | bblib.py:37-49 | bbLoad is loadBackbone followed by the empty-backbone IndexError and the orientation step |
| BbLib.BackboneSpline | bblib.py:55-75 | the loops compute exactly the arc-length fit (parameter i is the running distance sum up to i divided by the total); they fail, with ZeroDivisionError, exactly when the total distance is zero; otherwise there are at least two points and one parameter per point, the first 0 and the last 1, non-decreasing; the length is `int(total) >= 0`; the fitted values are `p[2]` and `p[1]` |
| Straighten.Height | straighten.py:33 | the height is at least twice every edge distance and less than twice some edge distance plus one |
| Straighten.RestackBySpline | straighten.py:25-56 | `max([])` and a negative height raise ValueError, and nothing else fails; the frame is fresh, with `ceil(2*max)` rows and `len(spoints)` columns, and every pixel holds exactly what the two guarded loops write there, or 0 |
| Straighten.FillFirstSide | straighten.py:40-47 | the first inner loop sets rows 2 .. basey of column x to their guarded samples and changes nothing else |
| Straighten.FillSecondSide | straighten.py:48-54 | the second inner loop sets rows basey+1 .. 2*basey-2 of column x to their guarded samples and changes nothing else |
| Straighten.UntouchedRowsStayZero | straighten.py:34-54 | rows 0 and 1, and every row from 2*basey-1 on, stay 0 |
| Straighten.WrittenRowsInFrame | straighten.py:35-52 | every written row is inside the frame, and its offset y is within the loop's range |
| Straighten.MidlineSamplesSpine | straighten.py:40-45 | row basey samples the traced position c itself |
| Straighten.PixelWrittenOnlyWhen | straighten.py:43-54 | a pixel is non-zero only in a written row whose sample coordinates are both >= 0 and where the interpolation succeeds, and it then holds `int(value)`; every such pixel holds that value |
| Straighten.ColumnDependsOnItsPoint | straighten.py:37-39 | column x depends only on `spoints[x]` and the image |
| Straighten.SidesPerpendicular | straighten.py:41-49 | both walks leave c along the quarter turn of d, in opposite senses, orthogonal to d and mirror images about c |
| Interpose.ProjectCoordUnitZoom | interpose-neuroml.py:40-41 | zoom 1 gives `(pos[1], pos[2])` |
| Interpose.ProjectCoordIgnoresDepth | interpose-neuroml.py:41 | `pos[0]` is discarded |
| Interpose.ProjectCoordNegativeZoom | interpose-neuroml.py:13 | a negative zoom negates both coordinates, reversing the worm |
| Interpose.ProjectCoordLinear | interpose-neuroml.py:36-41 | the projection is linear in the position |
| Interpose.ProjectCoordComposes | interpose-neuroml.py:40-41 | zooming twice equals zooming once by the product |
| Interpose.ProjectDiameterLinear | interpose-neuroml.py:43-48 | `diam * zoom` is linear in the diameter and in the zoom, is negated by a negative zoom, and is the identity at zoom 1 |
| Pipeline.DiameterProjectionsAgree | poselib.py:148-153 | poselib's projDiameter equals interpose-neuroml's project_diameter |
| Pipeline.CorrectedPlacementMatchesRestack | poselib.py:156-159 | a point at whole spine coordinate k and offset y is placed, by the corrected translation, on the coordinate the restacker samples for row basey - y of column k, and that row is written |
| Pipeline.AsWrittenPlacementMissesRestack | poselib.py:175-176 | as written, the point one pixel off sample 1 of a straight spine is placed at (0, 2), while the restacker samples (1, 1) for it |

## Left out

- `bbTraceSpline` and `traceBackbone` are not modelled. They call scipy's `splrep`/`splev` and normalise by `sqrt`, which are foreign calls and floating-point numerics. The spline functions are therefore modelled up to the arguments they pass to `splrep` (`Backbone.SplineInput`). The checks `splrep` makes on its own input are not modelled.
- `projCoord` is not modelled. Its rotation uses `asin`, `cos` and `sin`, and it divides by zero when the point lies on the rotation axis.
- File opening, `json.load`, HDF5 frame loading, drawing and image saving are not modelled.
  - A loader's file is a parameter, `FileContents`: its text lines and the parsed JSON document.
  - A JSON record is a list of reals.
- The TSV readers are modelled only by what they actually do. They raise `NameError` on the first line and return an empty backbone for an empty file. They are not a working parser.
- `p2pDist`'s square root is not expressible in Dafny's reals, so the distance is a parameter.
  - The properties relied on are stated as predicates: `Geometry.NonNegativeDist`, `Geometry.SymmetricDist`, `Geometry.ZeroExactlyOnEqual` and their conjunction `Geometry.IsP2PDist`.
  - The model does not prove that the Euclidean formula has these properties.
- BbLib.BackboneSpline: requires a non-negative distance, which `p2pDist` always is. On that basis it promises non-decreasing parameters.
- `hdf5lflib.pointInterpolate` is an oracle, `Straighten.Interpolator`. It returns a value, or None for the `IndexError` that is caught. Its internals are not modelled.
- The restack frame's `short` dtype is modelled as unbounded ints, so wrap-around of large values is not modelled. Float rounding in `int(coord_x + 1.)` is not modelled either, since all coordinates are exact reals.
- The unused parameters are dropped: `name` of `projTranslateByBb` and `cpoints` of `restackBySpline`.
- `project_coord` and `project_diameter` read only `poseinfo["zoom"]`, so they take the zoom itself. The other pose fields are used only by `projTranslateByBb` (`shift`) and by `projCoord`.
- The model's lists are Dafny sequences.
  - The in-place overwrite of `p2pdists` is modelled as a sequence updated entry by entry.
  - The two spline-input loops are shared methods, because `bbToSpline` and `backboneSpline` contain the same loops.
- `nmllib.py`, `neuroml-soma-to-json.py`, `bb-reverse.py` and the command-line parts of the scripts are outside this model. They are NeuroML loading, plotting and printing.

## Findings

| source | as written | input that shows it | evidently intended | confidence | as-written member | corrected member |
|---|---|---|---|---|---|---|
| poselib.py:175 | `c = base_c + coord[1] * base_d` moves the point along the interpolated tangent. The documentation (poselib.py:156-159) says it should move perpendicularly. The restacker walks perpendicularly (straighten.py:42). | A straight spine with samples (0,0), (1,0), (2,0) and tangent (1,0) at each; coord (1, 0.5); shift 0. The result is (0, 1.5), half a pixel further along the spine. | The offset should be `coord[1]` times the quarter turn of the tangent, giving (0.5, 1), half a pixel to the side of sample 1. This is also where the restacker samples. | not executed | PoseLib.StraightSpineAlong | PoseLib.StraightSpineAcross |
