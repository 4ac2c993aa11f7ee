/** How the pieces fit together: the two diameter projections agree, and
    the corrected spine placement lands exactly where the restacker
    samples, while the placement as written does not. */
module Pipeline {
  import opened Wrappers
  import opened Geometry
  import PoseLib
  import Straighten
  import Interpose

  /** poselib's projDiameter and interpose-neuroml's project_diameter
      compute the same thing from the pose's zoom. */
  lemma DiameterProjectionsAgree(diam: real, poseinfo: PoseLib.PoseInfo)
    ensures PoseLib.ProjDiameter(diam, poseinfo) == Interpose.ProjectDiameter(diam, poseinfo.zoom)
  {
  }

  /** A model point at whole spine coordinate k and whole transverse
      offset y >= 0 is placed, by the corrected translation, exactly on the
      image coordinate restackBySpline samples for row `basey - y` of
      column k (axes swapped back). */
  lemma CorrectedPlacementMatchesRestack(coord: Vec2, bbpoints: seq<TracedPoint>, poseinfo: PoseLib.PoseInfo,
                                         k: nat, y: int, basey: int)
    requires coord.e0 + poseinfo.shift == k as real && k + 1 < |bbpoints|
    requires coord.e1 == y as real && 0 <= y <= basey - 2
    ensures PoseLib.ProjTranslatePerpendicular(coord, bbpoints, poseinfo).Some?
    ensures Straighten.Written(basey, basey - y)
    ensures Swap(PoseLib.ProjTranslatePerpendicular(coord, bbpoints, poseinfo).value)
         == Straighten.RowCoord(bbpoints[k], basey, basey - y)
  {
    PoseLib.ProjTranslatePerpendicularAtSample(coord, bbpoints, poseinfo, k);
    var t := bbpoints[k];
    assert basey - (basey - y) == y;
    assert Straighten.RowCoord(t, basey, basey - y) == Straighten.Side1Coord(t, y);
    Straighten.SidesPerpendicular(t, y);
  }

  /** As written, the translation misses the restacked pixel: on the
      straight spine, the point one pixel off sample 1 is placed at (0, 2),
      while the restacker's row `basey - 1` of column 1 samples (1, 1),
      swapped to (1, 1). */
  lemma AsWrittenPlacementMissesRestack()
    ensures PoseLib.ProjTranslateByBb(Vec2(1.0, 1.0), PoseLib.StraightSpine(), PoseLib.PoseInfo(1.0, 0.0, 0.0))
         == Some(Vec2(0.0, 2.0))
    ensures Swap(Straighten.Side1Coord(PoseLib.StraightSpine()[1], 1)) == Vec2(1.0, 1.0)
  {
    PoseLib.ProjTranslateByBbAtSample(Vec2(1.0, 1.0), PoseLib.StraightSpine(), PoseLib.PoseInfo(1.0, 0.0, 0.0), 1);
    StraightSpineOneStep();
  }

  lemma StraightSpineOneStep()
    ensures Swap(Plus(PoseLib.StraightSpine()[1].c, Scale(1.0, PoseLib.StraightSpine()[1].d))) == Vec2(0.0, 2.0)
  {
  }
}
