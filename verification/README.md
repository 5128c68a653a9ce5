# KinectMesh depth-to-mesh core, modelled in Dafny

KinectMesh is a Unity component. It turns the depth map of a Kinect-style sensor
into a triangle mesh. This project models the component's deterministic core:

- **Start sizing** (`Grid`): decimation factors `factorX = XRes / desiredX` and
  `factorY = YRes / desiredY`, the scaled grid `XScaled = XRes / factorX` and
  `YScaled = YRes / factorY`, and the buffer sizes derived from them.
- **CalculateTriangleIndices** (`Triangulator`): two counter-clockwise triangles
  per grid cell. The running counters `triIndex` and `posIndex` are kept as written.
- **CalculateUVs** (`UvGrid`): one texture coordinate per vertex, with V flipped.
- **UpdateVertices**, first three loops:
  - the decimating depth sampler, with its shared point record (`GridSampler`);
  - the projective-to-world remap (`VertexTransform`);
  - the scaling into vertices (`VertexTransform`).
  The sentinel for missing readings is a parameter of the pipeline
  (`KinectMesh.FrameVertices`). `KinectMesh.UpdateVertices` runs it with the
  value as written, 8, and `KinectMesh.UpdateVerticesCorrected` with 2047.
- The component entry points `Start` and `UpdateVertices` (`KinectMesh`).

Each loop is a method over a locally allocated array. The method returns the
buffer as a sequence. Its contract ties the buffer to an independent
row-recursive reference definition: `TriangleList`, `UvBuffer` or `Sampled`.
Lemmas then state closed per-cell formulas, bounds and inverses about those
definitions. Reading past the end of the depth map raises an exception in the
C# code. Here it is the `Failure(IndexOutOfRange)` outcome.

The code checks neither that the target resolution divides the sensor's nor
that the grid is at least 2 wide. A non-dividing target truncates, and a
1-wide grid gets an empty triangle buffer. The only start-up failure is the
integer division by a zero factor, when the target exceeds the sensor
resolution. A non-dividing target width also shears the sampled image: the
columns left over at the end of each sensor line are not skipped, so every row
of cells starts a little further left (`GridSampler.ReadIndexDrift`). The
comment at KinectMesh.cs:23 asks for a divisor, so this is a documented
assumption of the code, not treated as a defect.

## Model

| member | source | states |
|---|---|---|
| Grid.Setup | KinectMesh.cs:53-56 | Sizing succeeds exactly when the sensor resolution is at least the desired one on both axes. Otherwise the factor is zero and the division by it fails. On success the factors are XRes / desiredX and YRes / desiredY (truncated), the config is valid, the scaled grid is at least the desired resolution and fits inside the sensor frame, and it equals the desired resolution whenever that divides the sensor's. |
| Grid.FactorZeroIff | KinectMesh.cs:55-56 | The decimation factor is zero exactly when the desired resolution exceeds the sensor's. |
| Grid.ScaledAtLeastDesired | KinectMesh.cs:67-68 | Dividing the resolution by its factor gives at least the desired resolution, never overshoots the sensor, and gives exactly the desired resolution when it divides the sensor's. |
| Grid.CellOfVertexIndex | KinectMesh.cs:154 | Every buffer slot i below XScaled*YScaled is the row-major index `x + y * XScaled` of the cell (i % XScaled, i / XScaled), which lies inside the grid. |
| Grid.VertexIndexRecoversCell | KinectMesh.cs:154 | The other direction: for x < XScaled, dividing the index `x + y * XScaled` by XScaled gives back y and the remainder gives back x, so cells and slots are in bijection. |
| Grid.DefaultKinectSizing | KinectMesh.cs:23 | A 640x480 sensor with the default 160x120 target gives factors 4 and 4, 19200 vertices and 113526 triangle indices. |
| Triangulator.CalculateTriangleIndices | KinectMesh.cs:203-221 | The buffer equals the reference triangle list. Its length is (XScaled-1)(YScaled-1)*2*3, the allocation at line 72. Every entry is a valid vertex index. The six entries of cell (x, y) are p+1, p, p+XScaled, p+1, p+XScaled, p+XScaled+1 with p = y*XScaled + x, so the extra posIndex++ per row is accounted for. |
| Triangulator.TriangleListFacts | KinectMesh.cs:207-219 | The reference triangle list has the allocated length, stays within the vertex buffer, and holds the six indices of each cell at slot 6*(y*(XScaled-1)+x). |
| Triangulator.TriangleListCells | KinectMesh.cs:211-217 | The per-cell content of the reference list: bottom-right, bottom-left, top-left, then bottom-right, top-left, top-right of the cell. |
| Triangulator.TriangleListBounds | KinectMesh.cs:211-217 | Every index in the triangle list names a vertex of the XScaled x YScaled grid, including the last row's p+XScaled+1. |
| Triangulator.TriangleListLength | KinectMesh.cs:72 | The triangle list fills exactly the allocated (XScaled-1)(YScaled-1)*2*3 slots. |
| UvGrid.CalculateUVs | KinectMesh.cs:120-130 | The buffer equals the reference UV buffer. It has one entry per vertex. Slot i holds the UV of vertex (i % XScaled, i / XScaled), and equally slot `x + y * XScaled` holds the UV of vertex (x, y). Both coordinates lie in [0, 1). |
| UvGrid.UvBufferFacts | KinectMesh.cs:122-128 | The reference UV buffer has XScaled*YScaled entries. Entry i is (x / XScaled, (YScaled-1-y) / YScaled) for its cell (x, y), inside the unit square. |
| UvGrid.UvAtRecoversVertex | KinectMesh.cs:126-127 | The UV map is invertible: u*XScaled gives back x, YScaled-1-v*YScaled gives back y, so distinct vertices get distinct texture coordinates. |
| UvGrid.UvAtInUnitSquare | KinectMesh.cs:126-127 | Both texture coordinates of every grid vertex lie in [0, 1). |
| UvGrid.UvCornersOfFourByThree | KinectMesh.cs:126-127 | On a 4x3 grid the bottom row's first vertex gets (0, 0) and the top row's last vertex gets (3/4, 2/3): V is flipped. |
| GridSampler.FillPoints | KinectMesh.cs:134-159 | The sampling loop succeeds exactly when the last index it reads lies inside the depth map, and then returns the reference sampled points. Cell (x, y) gets X = x*factorX and Y = y*factorY. Its Z is the pixel at its read index, with 0 replaced by maxDepth, when that pixel reaches the threshold. Otherwise Z is the previous cell's Z, or 0 for the first cell. |
| GridSampler.SampledCells | KinectMesh.cs:143-156 | The closed per-cell formula for the reference sampled points, including the carried Z of the shared record. |
| GridSampler.SampledPosition | KinectMesh.cs:149-150 | Sampled X and Y of each cell are its pixel coordinates x*factorX and y*factorY. |
| GridSampler.ReadIndexOnExactGrid | KinectMesh.cs:143-159 | When the scaled width divides the sensor width, the running depthIndex reads sensor pixel (x*factorX, y*factorY) of the row-major map. |
| GridSampler.ReadIndexDrift | KinectMesh.cs:143-159 | In general cell (x, y) reads y*(XRes - XScaled*factorX) samples before sensor pixel (x*factorX, y*factorY), because the walk skips (factorY-1)*XRes after each row but not the columns left over at the end of a line. |
| GridSampler.ShearedSecondRow | KinectMesh.cs:143-159 | Setup sizes 640x480 with a 100x120 target to factors 6 and 4 and 106 columns; with that config the second row of cells starts at sensor pixel (636, 3) instead of (0, 4). |
| GridSampler.ReadIndexOrdered | KinectMesh.cs:143-159 | depthIndex never decreases during the walk, so the last cell's index bounds every read. |
| GridSampler.ReadsStayInSensorFrame | KinectMesh.cs:143-159 | For a valid config the last read index, and with it every index the walk reads at any cell, lies inside an XRes*YRes depth map, the size allocated at line 58. |
| GridSampler.MissingReadingBecomesMaxDepth | KinectMesh.cs:145-153 | A zero reading at a sampled pixel gives that cell Z = maxDepth when the threshold does not exceed maxDepth. |
| GridSampler.AllMissingFrameIsFlat | KinectMesh.cs:145-153 | A frame with no valid readings samples to a flat plane at maxDepth. |
| GridSampler.StaleDepthCarriesAcrossRows | KinectMesh.cs:142-154 | A below-threshold cell at the start of a row keeps the depth of the last cell of the previous row. The point record is shared and Z is only written when the threshold is met. |
| GridSampler.MaxDepthAsWrittenIsEight | KinectMesh.cs:140 | `(short) 2^11 - 1` evaluates to 8 (2 XOR 10), not 2047. |
| GridSampler.MissingReadingAsWrittenIsEight | KinectMesh.cs:140-146 | With the sentinel as written, a missing reading yields depth 8 at any threshold up to 8. |
| GridSampler.MaxDepthIsLargestElevenBitReading | KinectMesh.cs:140 | The corrected sentinel 2047 is 2^11 - 1, the largest 11-bit depth reading. |
| VertexTransform.ProjectiveToWorld | KinectMesh.cs:163-166 | Each point's X becomes X - XRes/2 and its Y becomes YRes/2 - Y: flipped, with sensor row YRes/2 at 0. Z is unchanged. Uncentering the result gives back the input point. |
| VertexTransform.RecenterRoundTrip | KinectMesh.cs:164-165 | The remap is a bijection on points, with Uncentered as its inverse in both directions. |
| VertexTransform.PointsToVertices | KinectMesh.cs:169-177 | Vertex i is point i scaled per axis by gridScale, with Z negated. |
| VertexTransform.VertexRecoversPoint | KinectMesh.cs:172-174 | With every grid-scale component non-zero, the scaling loses nothing: dividing by the scale (and negating Z back) recovers the point, so distinct points give distinct vertices. |
| KinectMesh.Start | KinectMesh.cs:48-75 | Start succeeds exactly when the sensor resolution covers the desired one. It then holds the sizing of Setup, the reference UV buffer and triangle list, one UV per vertex and (XScaled-1)(YScaled-1)*6 indices, each naming a UV'd vertex. |
| KinectMesh.FrameVertices | KinectMesh.cs:132-178 | For any missing-reading sentinel, vertex generation succeeds exactly when the depth map covers the last read index, giving one vertex per cell. The vertex of cell (x, y) is ((x*factorX - XRes/2)*sx, (YRes/2 - y*factorY)*sy, -z*sz), where z is the sampled, carried depth. An all-missing frame with threshold at most the sentinel gives every vertex Z = -sentinel*sz. |
| KinectMesh.UpdateVertices | KinectMesh.cs:132-178 | The same, with the sentinel as written, 8: an all-missing frame with threshold at most 8 gives every vertex Z = -8*sz. |
| KinectMesh.UpdateVerticesCorrected | KinectMesh.cs:140-178 | The same, with the sentinel corrected to 2047: an all-missing frame with threshold at most 2047 gives every vertex Z = -2047*sz, the far plane. |
| KinectMesh.VerticesOfCells | KinectMesh.cs:143-177 | Composing sampler, remap and scaling cell by cell yields the recentred, scaled cell position with negated sampled depth, for any sentinel. |

## Left out

- Mesh blur and temporal lerp (KinectMesh.cs:180-188): separate classes (MeshBlur, MeshLerp) that are not part of this model.
- Unity plumbing: Mesh, MeshFilter, MeshCollider, normals recalculation, Profiler samples, and the UpdateUVs/UpdateTriangleIndices assignments. These are calls into the engine.
- Depth acquisition from ZigInput (KinectMesh.cs:53-54, 228): the resolution and the raw depth map are parameters.
- The FixedUpdate interval timer (KinectMesh.cs:223-231): clock-driven scheduling.
- Grid.Setup: the desired resolution is a float vector in the source. Here it is a pair of positive integers, and the float division truncated by `(int)` is modelled as integer division. A zero desired resolution is excluded.
- UvGrid.CalculateUVs: single-precision float division is modelled as exact real division.
- GridSampler.FillPoints: the OpenNI Point3D has float fields. Here they are integers, since every value stored in them is an integer of magnitude below 2^16 (pixel coordinates and 16-bit depth readings), exact in single precision. The threshold and grid scale are reals.
- KinectMesh.UpdateVertices: float rounding in the vertex products is not modelled.
- 32-bit overflow of the index arithmetic is not modelled. It is unreachable for sensor-sized grids.
- GridSampler.FillPoints: when the read runs off the depth map, KinectMesh.cs throws after writing some points. The model returns only the failure, not that partial buffer.
- GridSampler.FillPoints: the raw depth is an unbounded integer rather than a 16-bit short. Its comparison with the float threshold is exact in both.

## Findings

| source | as written | input that shows it | evidently intended | confidence | as-written member | corrected member |
|---|---|---|---|---|---|---|
| KinectMesh.cs:140 | `short maxDepth = (short) 2^11 - 1;` parses as `((short) 2) ^ (11 - 1)`, an exclusive or, which is 8 | any frame with a zero reading at a sampled pixel and the default threshold 0: that cell gets depth 8, just in front of the camera, instead of the far plane | maxDepth = 2^11 - 1 = 2047, the largest 11-bit reading, so missing pixels fall to the back | high (not executed) | GridSampler.MissingReadingAsWrittenIsEight | KinectMesh.UpdateVerticesCorrected |

`KinectMesh.UpdateVertices` keeps the sentinel as written, 8, and
`KinectMesh.UpdateVerticesCorrected` uses the corrected `MaxDepth = 2047`,
whose value `GridSampler.MaxDepthIsLargestElevenBitReading` justifies. Both run
through the same definitions, which take the sentinel as a parameter. The stale-depth carry is behaviour the code clearly has, but
its intent is open. It is modelled as written and stated by
`GridSampler.StaleDepthCarriesAcrossRows` rather than corrected.
