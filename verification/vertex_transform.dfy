/**
  The second and third loops of UpdateVertices: the projective-to-world remap of
  the sampled points (X shifted by half the sensor width, Y replaced by
  YRes/2 - Y: flipped, with sensor row YRes/2 at 0) and their scaling into mesh
  vertices with Z negated.
 */
module VertexTransform {
  import opened Outcomes
  import opened Grid
  import opened GridSampler

  /** A mesh vertex. The per-axis grid scale is a Vec3 too. */
  datatype Vec3 = Vec3(x: real, y: real, z: real)

  /** One point after the remap: X -= XRes / 2 and Y = YRes / 2 - Y, integer halves. */
  function Recentered(c: Config, p: Point3D): Point3D
  {
    Point3D(p.x - c.xRes / 2, c.yRes / 2 - p.y, p.z)
  }

  /** The inverse remap, from world-centred back to pixel coordinates. */
  function Uncentered(c: Config, p: Point3D): Point3D
  {
    Point3D(p.x + c.xRes / 2, c.yRes / 2 - p.y, p.z)
  }

  /** The remap loses nothing: it is a bijection on points, with Uncentered as inverse. */
  lemma RecenterRoundTrip(c: Config, p: Point3D, q: Point3D)
    ensures Uncentered(c, Recentered(c, p)) == p
    ensures Recentered(c, Uncentered(c, q)) == q
    ensures Recentered(c, p) == Recentered(c, q) <==> p == q
  {
    if Recentered(c, p) == Recentered(c, q) {
      assert Uncentered(c, Recentered(c, p)) == Uncentered(c, Recentered(c, q));
    }
  }

  /** The vertex of a world-space point: each axis scaled, Z negated. */
  function ToVertex(p: Point3D, gridScale: Vec3): Vec3
  {
    Vec3(p.x as real * gridScale.x, p.y as real * gridScale.y, (-p.z) as real * gridScale.z)
  }

  /** With a non-degenerate grid scale nothing is lost: dividing a vertex by the
      scale gives back the point (with Z negated back), so distinct points give
      distinct vertices. */
  lemma VertexRecoversPoint(p: Point3D, q: Point3D, gridScale: Vec3)
    requires gridScale.x != 0.0 && gridScale.y != 0.0 && gridScale.z != 0.0
    ensures ToVertex(p, gridScale).x / gridScale.x == p.x as real
    ensures ToVertex(p, gridScale).y / gridScale.y == p.y as real
    ensures -(ToVertex(p, gridScale).z / gridScale.z) == p.z as real
    ensures ToVertex(p, gridScale) == ToVertex(q, gridScale) <==> p == q
  {
    if ToVertex(p, gridScale) == ToVertex(q, gridScale) {
      assert p.x as real * gridScale.x == q.x as real * gridScale.x;
      assert p.y as real * gridScale.y == q.y as real * gridScale.y;
      assert (-p.z) as real * gridScale.z == (-q.z) as real * gridScale.z;
    }
  }

  /** The "ProjectiveToRW" loop: every point of the buffer remapped in place. */
  method ProjectiveToWorld(c: Config, pts: seq<Point3D>) returns (out: seq<Point3D>)
    ensures |out| == |pts|
    ensures forall i :: 0 <= i < |pts| ==>
      out[i] == Point3D(pts[i].x - c.xRes / 2, c.yRes / 2 - pts[i].y, pts[i].z)
    ensures forall i :: 0 <= i < |pts| ==> Uncentered(c, out[i]) == pts[i]
  {
    var a := new Point3D[|pts|](i requires 0 <= i < |pts| => pts[i]);
    for i := 0 to a.Length
      invariant forall k :: 0 <= k < i ==> a[k] == Recentered(c, pts[k])
      invariant forall k :: i <= k < a.Length ==> a[k] == pts[k]
    {
      a[i] := a[i].(x := a[i].x - c.xRes / 2);
      a[i] := a[i].(y := c.yRes / 2 - a[i].y); // flip Y axis in projective
    }
    out := a[..];
    forall i | 0 <= i < |pts|
      ensures Uncentered(c, out[i]) == pts[i]
    {
      RecenterRoundTrip(c, pts[i], pts[i]);
    }
  }

  /** The inner loop of PointsToVertices for row y, whose first vertex is rowStart. */
  method VertexRow(a: array<Vec3>, pts: seq<Point3D>, gridScale: Vec3, rowStart: nat, width: nat)
    requires rowStart + width <= a.Length && a.Length == |pts|
    modifies a
    ensures forall k :: 0 <= k < rowStart ==> a[k] == old(a[k])
    ensures forall k :: rowStart <= k < rowStart + width ==> a[k] == ToVertex(pts[k], gridScale)
  {
    var x := 0;
    while x < width
      invariant 0 <= x <= width
      invariant forall k :: 0 <= k < rowStart ==> a[k] == old(a[k])
      invariant forall k :: rowStart <= k < rowStart + x ==> a[k] == ToVertex(pts[k], gridScale)
    {
      var pt := pts[rowStart + x];
      a[rowStart + x] := Vec3(pt.x as real * gridScale.x, pt.y as real * gridScale.y, (-pt.z) as real * gridScale.z);
      x := x + 1;
    }
  }

  /** The "PointsToVertices" loops: verts[y * XScaled + x] is built from pts[x + y * XScaled].
      Every slot of the buffer is overwritten, so nothing of the previous frame survives. */
  method PointsToVertices(c: Config, pts: seq<Point3D>, gridScale: Vec3) returns (verts: seq<Vec3>)
    requires Valid(c) && |pts| == VertexCount(c)
    ensures |verts| == |pts|
    ensures forall i :: 0 <= i < |pts| ==> verts[i] == ToVertex(pts[i], gridScale)
  {
    var a := new Vec3[|pts|](_ => Vec3(0.0, 0.0, 0.0));
    var y := 0;
    var rowStart := 0;
    while y < c.yScaled
      invariant 0 <= y <= c.yScaled
      invariant rowStart == VertexIndex(c.xScaled, 0, y)
      invariant rowStart <= a.Length
      invariant forall k :: 0 <= k < rowStart ==> a[k] == ToVertex(pts[k], gridScale)
    {
      VertexIndexBound(c.xScaled, 0, y, c.yScaled);
      VertexRow(a, pts, gridScale, rowStart, c.xScaled);
      rowStart := rowStart + c.xScaled;
      y := y + 1;
    }
    VertexIndexPastLastRow(c.xScaled, c.yScaled);
    verts := a[..];
  }
}
