/** interpose-neuroml.py: projecting NeuroML neuron positions and
    diameters onto the image plane by the pose's zoom. */
module Interpose {
  import opened Geometry

  /** A neuron position `pos` of the straightened worm model: index 0 is
      the depth axis, indices 1 and 2 the image-plane axes. */
  datatype NeuronPos = NeuronPos(depth: real, y: real, z: real)

  /** project_coord with `poseinfo["zoom"] == zoom`. */
  function ProjectCoord(pos: NeuronPos, zoom: real): (r: Vec2)
    ensures r == Scale(zoom, Vec2(pos.y, pos.z))
  {
    Vec2(pos.y * zoom, pos.z * zoom)
  }

  /** project_diameter with `poseinfo["zoom"] == zoom`. */
  function ProjectDiameter(diam: real, zoom: real): (r: real)
    ensures zoom == 1.0 ==> r == diam
    ensures zoom == 0.0 || diam == 0.0 ==> r == 0.0
    ensures 0.0 <= diam && 0.0 <= zoom ==> 0.0 <= r
  {
    diam * zoom
  }

  /** Zoom 1 keeps the image-plane coordinates as they are. */
  lemma ProjectCoordUnitZoom(pos: NeuronPos)
    ensures ProjectCoord(pos, 1.0) == Vec2(pos.y, pos.z)
  {
  }

  /** The depth coordinate is discarded. */
  lemma ProjectCoordIgnoresDepth(pos: NeuronPos, depth: real, zoom: real)
    ensures ProjectCoord(pos.(depth := depth), zoom) == ProjectCoord(pos, zoom)
  {
  }

  /** A negative zoom negates both coordinates, turning the worm around. */
  lemma ProjectCoordNegativeZoom(pos: NeuronPos, zoom: real)
    ensures ProjectCoord(pos, -zoom) == Scale(-1.0, ProjectCoord(pos, zoom))
  {
  }

  /** Projecting is linear in the position. */
  lemma ProjectCoordLinear(p: NeuronPos, q: NeuronPos, a: real, zoom: real)
    ensures ProjectCoord(NeuronPos(p.depth + q.depth, p.y + q.y, p.z + q.z), zoom)
         == Plus(ProjectCoord(p, zoom), ProjectCoord(q, zoom))
    ensures ProjectCoord(NeuronPos(a * p.depth, a * p.y, a * p.z), zoom) == Scale(a, ProjectCoord(p, zoom))
  {
    assert (a * p.y) * zoom == a * (p.y * zoom);
    assert (a * p.z) * zoom == a * (p.z * zoom);
  }

  /** Zooming twice is zooming once by the product of the zooms. */
  lemma ProjectCoordComposes(pos: NeuronPos, z1: real, z2: real)
    ensures var r := ProjectCoord(pos, z1);
      ProjectCoord(NeuronPos(pos.depth, r.e0, r.e1), z2) == ProjectCoord(pos, z1 * z2)
  {
    assert (pos.y * z1) * z2 == pos.y * (z1 * z2);
    assert (pos.z * z1) * z2 == pos.z * (z1 * z2);
  }

  /** The projected diameter is linear in the diameter and in the zoom;
      a negative zoom gives a negative diameter. */
  lemma ProjectDiameterLinear(d1: real, d2: real, a: real, z1: real, z2: real)
    ensures ProjectDiameter(d1 + d2, z1) == ProjectDiameter(d1, z1) + ProjectDiameter(d2, z1)
    ensures ProjectDiameter(a * d1, z1) == a * ProjectDiameter(d1, z1)
    ensures ProjectDiameter(d1, z1 + z2) == ProjectDiameter(d1, z1) + ProjectDiameter(d1, z2)
    ensures ProjectDiameter(d1, -z1) == -ProjectDiameter(d1, z1)
    ensures ProjectDiameter(d1, 1.0) == d1
  {
    assert (a * d1) * z1 == a * (d1 * z1);
  }
}
