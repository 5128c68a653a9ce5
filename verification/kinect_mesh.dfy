/**
  The mesh component's two entry points into the core: Start, which sizes the
  grid and builds the static UV and triangle buffers, and UpdateVertices, which
  turns one depth frame into the vertex buffer (sample, remap, scale), as
  written and with its missing-reading sentinel corrected.
 */
module KinectMesh {
  import opened Outcomes
  import opened Grid
  import opened Triangulator
  import opened UvGrid
  import opened GridSampler
  import opened VertexTransform

  /** The buffers fixed at start-up: grid configuration, UVs and triangle indices. */
  datatype MeshBuffers = MeshBuffers(config: Config, uvs: seq<Uv>, tris: seq<int>)

  /**
    Start: derive factors and scaled dimensions from the sensor and desired
    resolutions, then compute the triangle indices and the UVs. Fails where the
    C# code divides by a zero factor.
   */
  method Start(xRes: nat, yRes: nat, desiredX: nat, desiredY: nat) returns (r: Result<MeshBuffers, SetupError>)
    requires desiredX >= 1 && desiredY >= 1
    ensures r.Failure? <==> xRes < desiredX || yRes < desiredY
    ensures r.Success? ==>
      && Setup(xRes, yRes, desiredX, desiredY) == Success(r.value.config)
      && Valid(r.value.config)
      && r.value.uvs == UvBuffer(r.value.config.xScaled, r.value.config.yScaled)
      && r.value.tris == TriangleList(r.value.config.xScaled, r.value.config.yScaled)
      && |r.value.uvs| == VertexCount(r.value.config)
      && |r.value.tris| == IndexCount(r.value.config)
    ensures r.Success? ==> forall k :: 0 <= k < |r.value.tris| ==> 0 <= r.value.tris[k] < |r.value.uvs|
  {
    var setup := Setup(xRes, yRes, desiredX, desiredY);
    if setup.Failure? {
      return Failure(setup.error);
    }
    var c := setup.value;
    var tris := CalculateTriangleIndices(c.yScaled, c.xScaled);
    var uvs := CalculateUVs(c.yScaled, c.xScaled);
    return Success(MeshBuffers(c, uvs, tris));
  }

  /** The vertex that cell (x, y) receives when its sampled depth is z: the cell's
      pixel coordinates and z, recentred about the sensor centre, then scaled. */
  function CellVertex(c: Config, x: nat, y: nat, z: int, gridScale: Vec3): Vec3
  {
    ToVertex(Recentered(c, Point3D(x * c.factorX, y * c.factorY, z)), gridScale)
  }

  /**
    The first three loops of UpdateVertices (the blur and lerp passes that follow
    are not part of this model): sample the depth map with the given sentinel for
    missing readings, remap, then scale.
   */
  method FrameVertices(c: Config, raw: seq<int>, zThreshold: real, maxDepth: int, gridScale: Vec3)
    returns (r: Result<seq<Vec3>, SampleError>)
    requires Valid(c)
    ensures LastReadIndex(c) >= |raw| ==> r == Failure(IndexOutOfRange)
    ensures LastReadIndex(c) < |raw| ==>
      && r.Success?
      && |r.value| == VertexCount(c)
      && forall x, y :: 0 <= x < c.xScaled && 0 <= y < c.yScaled ==>
        && VertexIndex(c.xScaled, x, y) < |r.value|
        && VertexIndex(c.xScaled, x, y) < |Sampled(c, raw, zThreshold, maxDepth)|
        && r.value[VertexIndex(c.xScaled, x, y)] ==
          CellVertex(c, x, y, Sampled(c, raw, zThreshold, maxDepth)[VertexIndex(c.xScaled, x, y)].z, gridScale)
    ensures LastReadIndex(c) < |raw| && (forall k :: 0 <= k < |raw| ==> raw[k] == 0) && zThreshold <= maxDepth as real ==>
      r.Success? && forall i :: 0 <= i < |r.value| ==> r.value[i].z == (-maxDepth) as real * gridScale.z
  {
    var sampled := FillPoints(c, raw, zThreshold, maxDepth);
    if sampled.Failure? {
      return Failure(sampled.error);
    }
    var pts := ProjectiveToWorld(c, sampled.value);
    var verts := PointsToVertices(c, pts, gridScale);
    VerticesOfCells(c, raw, zThreshold, maxDepth, gridScale, sampled.value, pts, verts);
    if (forall k :: 0 <= k < |raw| ==> raw[k] == 0) && zThreshold <= maxDepth as real {
      AllMissingFrameIsFlat(c, raw, zThreshold, maxDepth);
    }
    return Success(verts);
  }

  /**
    UpdateVertices as written: the sentinel `(short) 2^11 - 1` evaluates to 8, so
    a missing reading becomes depth 8, just in front of the camera.
   */
  method UpdateVertices(c: Config, raw: seq<int>, zThreshold: real, gridScale: Vec3)
    returns (r: Result<seq<Vec3>, SampleError>)
    requires Valid(c)
    ensures LastReadIndex(c) >= |raw| ==> r == Failure(IndexOutOfRange)
    ensures LastReadIndex(c) < |raw| ==>
      && r.Success?
      && |r.value| == VertexCount(c)
      && forall x, y :: 0 <= x < c.xScaled && 0 <= y < c.yScaled ==>
        && VertexIndex(c.xScaled, x, y) < |r.value|
        && VertexIndex(c.xScaled, x, y) < |Sampled(c, raw, zThreshold, 8)|
        && r.value[VertexIndex(c.xScaled, x, y)] ==
          CellVertex(c, x, y, Sampled(c, raw, zThreshold, 8)[VertexIndex(c.xScaled, x, y)].z, gridScale)
    ensures LastReadIndex(c) < |raw| && (forall k :: 0 <= k < |raw| ==> raw[k] == 0) && zThreshold <= 8.0 ==>
      r.Success? && forall i :: 0 <= i < |r.value| ==> r.value[i].z == -8.0 * gridScale.z
  {
    MaxDepthAsWrittenIsEight();
    r := FrameVertices(c, raw, zThreshold, MaxDepthAsWritten(), gridScale);
  }

  /**
    UpdateVertices with the sentinel at its intended value 2047, the largest 11-bit
    reading, so that missing readings fall to the back of the mesh.
   */
  method UpdateVerticesCorrected(c: Config, raw: seq<int>, zThreshold: real, gridScale: Vec3)
    returns (r: Result<seq<Vec3>, SampleError>)
    requires Valid(c)
    ensures LastReadIndex(c) >= |raw| ==> r == Failure(IndexOutOfRange)
    ensures LastReadIndex(c) < |raw| ==>
      && r.Success?
      && |r.value| == VertexCount(c)
      && forall x, y :: 0 <= x < c.xScaled && 0 <= y < c.yScaled ==>
        && VertexIndex(c.xScaled, x, y) < |r.value|
        && VertexIndex(c.xScaled, x, y) < |Sampled(c, raw, zThreshold, MaxDepth)|
        && r.value[VertexIndex(c.xScaled, x, y)] ==
          CellVertex(c, x, y, Sampled(c, raw, zThreshold, MaxDepth)[VertexIndex(c.xScaled, x, y)].z, gridScale)
    ensures LastReadIndex(c) < |raw| && (forall k :: 0 <= k < |raw| ==> raw[k] == 0) && zThreshold <= MaxDepth as real ==>
      r.Success? && forall i :: 0 <= i < |r.value| ==> r.value[i].z == (-MaxDepth) as real * gridScale.z
  {
    r := FrameVertices(c, raw, zThreshold, MaxDepth, gridScale);
  }

  /** Composing the three stages cell by cell gives CellVertex. */
  lemma VerticesOfCells(c: Config, raw: seq<int>, zThreshold: real, maxDepth: int, gridScale: Vec3,
                        sampled: seq<Point3D>, pts: seq<Point3D>, verts: seq<Vec3>)
    requires Valid(c) && LastReadIndex(c) < |raw|
    requires sampled == Sampled(c, raw, zThreshold, maxDepth)
    requires |pts| == |sampled| && forall i :: 0 <= i < |sampled| ==>
      pts[i] == Point3D(sampled[i].x - c.xRes / 2, c.yRes / 2 - sampled[i].y, sampled[i].z)
    requires |verts| == |pts| && forall i :: 0 <= i < |pts| ==> verts[i] == ToVertex(pts[i], gridScale)
    ensures |verts| == VertexCount(c)
    ensures forall x, y :: 0 <= x < c.xScaled && 0 <= y < c.yScaled ==>
      && VertexIndex(c.xScaled, x, y) < |verts|
      && verts[VertexIndex(c.xScaled, x, y)] == CellVertex(c, x, y, sampled[VertexIndex(c.xScaled, x, y)].z, gridScale)
  {
    forall x, y | 0 <= x < c.xScaled && 0 <= y < c.yScaled
      ensures VertexIndex(c.xScaled, x, y) < |verts|
      ensures verts[VertexIndex(c.xScaled, x, y)] == CellVertex(c, x, y, sampled[VertexIndex(c.xScaled, x, y)].z, gridScale)
    {
      SampledPosition(c, raw, zThreshold, maxDepth, x, y);
      var i := VertexIndex(c.xScaled, x, y);
      assert sampled[i] == Point3D(x * c.factorX, y * c.factorY, sampled[i].z);
      assert pts[i] == Recentered(c, sampled[i]);
    }
    SampledPosition(c, raw, zThreshold, maxDepth, 0, 0);
  }
}
