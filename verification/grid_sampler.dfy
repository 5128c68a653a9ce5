/**
  The decimating depth sampler: the first loop of UpdateVertices. It walks the
  raw row-major depth map with a running depthIndex, keeps one sample in every
  factorX columns and factorY rows, substitutes maxDepth for a missing (zero)
  reading, and stores Z in one shared point record only when the sample reaches
  the threshold, so a cell below the threshold keeps the Z of the cell before it.
 */
module GridSampler {
  import opened Outcomes
  import opened Grid

  /** The sensor library's point record. Its fields are floats there; every value
      the sampler stores in them is an integer. */
  datatype Point3D = Point3D(x: int, y: int, z: int)

  /** Reading past the end of the depth map raises an index-out-of-range exception. */
  datatype SampleError = IndexOutOfRange

  // ---------------------------------------------------------------------------
  // The sentinel for missing readings

  /** C#'s `^` on two non-negative 16-bit operands: bitwise exclusive or. */
  function Xor16(a: int, b: int): int
    requires 0 <= a < 0x1_0000 && 0 <= b < 0x1_0000
  {
    ((a as bv16) ^ (b as bv16)) as int
  }

  /** The sentinel as written, `(short) 2^11 - 1`: the cast binds to 2, subtraction binds
      tighter than `^`, so C# evaluates `((short) 2) ^ (11 - 1)`. */
  function MaxDepthAsWritten(): int
  {
    Xor16(2, 11 - 1)
  }

  /** The sentinel as evidently intended: two to the eleventh, minus one. */
  const MaxDepth: int := 2047

  /** As written, the sentinel is 8, not the intended 2047. */
  lemma MaxDepthAsWrittenIsEight()
    ensures MaxDepthAsWritten() == 8
    ensures MaxDepthAsWritten() != MaxDepth
  {
  }

  /** The intended sentinel is the largest 11-bit depth reading. */
  lemma MaxDepthIsLargestElevenBitReading(d: bv11)
    ensures MaxDepth + 1 == 2 * 2 * 2 * 2 * 2 * 2 * 2 * 2 * 2 * 2 * 2
    ensures d as int <= MaxDepth
    ensures (0x7FF as bv11) as int == MaxDepth
  {
  }

  // ---------------------------------------------------------------------------
  // Index arithmetic of the decimation walk

  /** How far depthIndex advances over one row of cells: factorX per column,
      then (factorY - 1) * XRes skipped lines. */
  function RowStride(c: Config): int
    requires Valid(c)
  {
    c.xScaled * c.factorX + (c.factorY - 1) * c.xRes
  }

  /** The depth-map index read for cell (x, y): y row strides, then x steps of
      factorX (the stride is written out here). */
  function ReadIndex(c: Config, x: nat, y: nat): int
    requires Valid(c)
  {
    y * (c.xScaled * c.factorX + (c.factorY - 1) * c.xRes) + x * c.factorX
  }

  /** No read index is negative. */
  lemma ReadIndexNonNegative(c: Config, x: nat, y: nat)
    requires Valid(c)
    ensures 0 <= ReadIndex(c, x, y)
  {
    var stride := c.xScaled * c.factorX + (c.factorY - 1) * c.xRes;
    assert 0 <= (c.factorY - 1) * c.xRes;
    assert 0 <= y * stride;
  }

  /** The index read for the last cell (XScaled - 1, YScaled - 1), written out;
      it is the largest index the walk reads. */
  function LastReadIndex(c: Config): int
    requires Valid(c)
  {
    (c.yScaled - 1) * (c.xScaled * c.factorX + (c.factorY - 1) * c.xRes) + (c.xScaled - 1) * c.factorX
  }

  /** The scaled grid never extends past the sensor row. */
  lemma ScaledRowFits(c: Config)
    requires Valid(c)
    ensures c.xScaled * c.factorX <= c.xRes
    ensures c.yScaled * c.factorY <= c.yRes
    ensures c.xScaled * c.factorX <= RowStride(c) <= c.factorY * c.xRes
  {
    assert c.xRes == c.factorX * (c.xRes / c.factorX) + c.xRes % c.factorX;
    assert c.yRes == c.factorY * (c.yRes / c.factorY) + c.yRes % c.factorY;
    assert c.factorY * c.xRes == (c.factorY - 1) * c.xRes + c.xRes;
  }

  /** Reads happen in increasing index order: a cell visited earlier in row-major
      order reads an index no larger than a cell visited later. */
  lemma ReadIndexOrdered(c: Config, x1: nat, y1: nat, x2: nat, y2: nat)
    requires Valid(c) && x1 < c.xScaled && x2 < c.xScaled
    requires y1 < y2 || (y1 == y2 && x1 <= x2)
    ensures 0 <= ReadIndex(c, x1, y1) <= ReadIndex(c, x2, y2)
  {
    ReadIndexNonNegative(c, x1, y1);
    ScaledRowFits(c);
    RowMajorOrder(RowStride(c), c.factorX, c.xScaled, x1, y1, x2, y2);
  }

  /** Row-major offsets y * rs + x * fx grow with (y, x) when a row of `width`
      columns fits in the stride rs. */
  lemma RowMajorOrder(rs: nat, fx: nat, width: nat, x1: nat, y1: nat, x2: nat, y2: nat)
    requires x1 < width && x2 < width && width * fx <= rs
    requires y1 < y2 || (y1 == y2 && x1 <= x2)
    ensures y1 * rs + x1 * fx <= y2 * rs + x2 * fx
  {
    if y1 < y2 {
      assert x1 * fx <= width * fx;
      assert (y1 + 1) * rs == y1 * rs + rs;
      assert (y1 + 1) * rs <= y2 * rs;
    } else {
      assert x1 * fx <= x2 * fx;
    }
  }

  /** When the scaled width exactly divides the sensor width, cell (x, y) reads
      sensor pixel (x * factorX, y * factorY). */
  lemma ReadIndexOnExactGrid(c: Config, x: nat, y: nat)
    requires Valid(c) && c.xScaled * c.factorX == c.xRes
    ensures ReadIndex(c, x, y) == (y * c.factorY) * c.xRes + x * c.factorX
  {
    assert RowStride(c) == c.factorY * c.xRes;
    assert y * (c.factorY * c.xRes) == (y * c.factorY) * c.xRes;
  }

  /** In general each row of cells starts XRes - XScaled * factorX samples earlier
      than sensor pixel (0, y * factorY): the columns left over at the end of a
      sensor line are never skipped, so a target width that does not divide the
      sensor width shears the sampled image. */
  lemma ReadIndexDrift(c: Config, x: nat, y: nat)
    requires Valid(c)
    ensures c.xScaled * c.factorX <= c.xRes
    ensures ReadIndex(c, x, y) + y * (c.xRes - c.xScaled * c.factorX) == (y * c.factorY) * c.xRes + x * c.factorX
  {
    var lost := c.xRes - c.xScaled * c.factorX;
    assert c.xScaled * c.factorX + c.xRes % c.factorX == c.xRes;
    assert RowStride(c) + lost == c.factorY * c.xRes;
    assert y * (RowStride(c) + lost) == y * RowStride(c) + y * lost;
    assert y * (c.factorY * c.xRes) == (y * c.factorY) * c.xRes;
  }

  /** 640 x 480 with a 100 x 120 target: factors 6 and 4 leave 4 columns per line,
      so the second row of cells starts at sensor pixel (636, 3), not (0, 4). */
  lemma ShearedSecondRow()
    ensures Setup(640, 480, 100, 120) == Success(Config(640, 480, 6, 4, 106, 120))
    ensures ReadIndex(Config(640, 480, 6, 4, 106, 120), 0, 1) == VertexIndex(640, 636, 3)
    ensures ReadIndex(Config(640, 480, 6, 4, 106, 120), 0, 1) != VertexIndex(640, 0, 4)
  {
  }

  /** Every index the walk reads lies inside an XRes x YRes depth map. */
  lemma ReadsStayInSensorFrame(c: Config)
    requires Valid(c)
    ensures LastReadIndex(c) < c.xRes * c.yRes
    ensures forall x, y :: 0 <= x < c.xScaled && 0 <= y < c.yScaled ==> 0 <= ReadIndex(c, x, y) < c.xRes * c.yRes
  {
    var rs := RowStride(c);
    var ys: nat := c.yScaled - 1;
    ScaledRowFits(c);
    assert (c.xScaled - 1) * c.factorX < c.xRes;
    assert ys * rs <= ys * (c.factorY * c.xRes);
    assert ys * (c.factorY * c.xRes) == (ys * c.factorY) * c.xRes;
    assert (ys * c.factorY + 1) * c.xRes == (ys * c.factorY) * c.xRes + c.xRes;
    assert ys * c.factorY + 1 <= c.yScaled * c.factorY;
    assert (ys * c.factorY + 1) * c.xRes <= c.yRes * c.xRes;
    forall x, y | 0 <= x < c.xScaled && 0 <= y < c.yScaled
      ensures 0 <= ReadIndex(c, x, y) < c.xRes * c.yRes
    {
      ReadIndexOrdered(c, x, y, c.xScaled - 1, c.yScaled - 1);
    }
  }

  // ---------------------------------------------------------------------------
  // Reference definition of the sampled points

  /** The depth a raw sample contributes: a zero (no reading) becomes maxDepth. */
  function Pixel(raw: seq<int>, i: int, maxDepth: int): int
    requires 0 <= i < |raw|
  {
    if raw[i] == 0 then maxDepth else raw[i]
  }

  /** Z of the shared record after a cell: the pixel if it reaches the threshold,
      otherwise whatever Z the record already carried. */
  function NextZ(pixel: int, zThreshold: real, carried: int): int
  {
    if pixel as real >= zThreshold then pixel else carried
  }

  /** Z carried out of a run of points that started with carried Z z0. */
  function LastZ(pts: seq<Point3D>, z0: int): int
  {
    if |pts| == 0 then z0 else pts[|pts| - 1].z
  }

  /** Cell x of row y has been read without running off the depth map. */
  predicate Readable(c: Config, len: nat, x: nat, y: nat)
    requires Valid(c)
  {
    0 <= ReadIndex(c, x, y) < len
  }

  /** Points of the first n cells of row y, entered with carried Z. */
  function SampleRow(c: Config, raw: seq<int>, zThreshold: real, maxDepth: int, y: nat, n: nat, carried: int): seq<Point3D>
    requires Valid(c) && n <= c.xScaled
    requires n == 0 || Readable(c, |raw|, n - 1, y)
  {
    if n == 0 then []
    else
      assert n == 1 || Readable(c, |raw|, n - 2, y) by {
        if n >= 2 {
          ReadIndexOrdered(c, n - 2, y, n - 1, y);
        }
      }
      var prev := SampleRow(c, raw, zThreshold, maxDepth, y, n - 1, carried);
      var pixel := Pixel(raw, ReadIndex(c, n - 1, y), maxDepth);
      prev + [Point3D((n - 1) * c.factorX, y * c.factorY, NextZ(pixel, zThreshold, LastZ(prev, carried)))]
  }

  /** Points of the first `rows` rows; Z carries from the end of one row into the next,
      and the record starts with Z = 0. */
  function SampleGrid(c: Config, raw: seq<int>, zThreshold: real, maxDepth: int, rows: nat): seq<Point3D>
    requires Valid(c) && rows <= c.yScaled
    requires rows == 0 || Readable(c, |raw|, c.xScaled - 1, rows - 1)
  {
    if rows == 0 then []
    else
      assert rows == 1 || Readable(c, |raw|, c.xScaled - 1, rows - 2) by {
        if rows >= 2 {
          ReadIndexOrdered(c, c.xScaled - 1, rows - 2, c.xScaled - 1, rows - 1);
        }
      }
      var prev := SampleGrid(c, raw, zThreshold, maxDepth, rows - 1);
      prev + SampleRow(c, raw, zThreshold, maxDepth, rows - 1, c.xScaled, LastZ(prev, 0))
  }

  /** The sampled point of every cell, row-major, for a depth map the walk can read. */
  function Sampled(c: Config, raw: seq<int>, zThreshold: real, maxDepth: int): seq<Point3D>
    requires Valid(c) && LastReadIndex(c) < |raw|
  {
    ReadIndexNonNegative(c, c.xScaled - 1, c.yScaled - 1);
    SampleGrid(c, raw, zThreshold, maxDepth, c.yScaled)
  }

  lemma {:induction false} SampleRowLength(c: Config, raw: seq<int>, zThreshold: real, maxDepth: int, y: nat, n: nat, carried: int)
    requires Valid(c) && n <= c.xScaled
    requires n == 0 || Readable(c, |raw|, n - 1, y)
    ensures |SampleRow(c, raw, zThreshold, maxDepth, y, n, carried)| == n
  {
    if n >= 2 {
      ReadIndexOrdered(c, n - 2, y, n - 1, y);
      SampleRowLength(c, raw, zThreshold, maxDepth, y, n - 1, carried);
    }
  }

  /** Cell x of a row: X and Y always come from the cell, Z from the threshold rule
      applied to the Z of the cell before it (or the carried Z for the first cell). */
  lemma {:induction false} SampleRowAt(c: Config, raw: seq<int>, zThreshold: real, maxDepth: int, y: nat, n: nat, carried: int, x: nat)
    requires Valid(c) && n <= c.xScaled && x < n
    requires Readable(c, |raw|, n - 1, y)
    ensures |SampleRow(c, raw, zThreshold, maxDepth, y, n, carried)| == n
    ensures Readable(c, |raw|, x, y)
    ensures SampleRow(c, raw, zThreshold, maxDepth, y, n, carried)[x] ==
      Point3D(x * c.factorX, y * c.factorY,
        NextZ(Pixel(raw, ReadIndex(c, x, y), maxDepth), zThreshold,
          if x == 0 then carried else SampleRow(c, raw, zThreshold, maxDepth, y, n, carried)[x - 1].z))
  {
    SampleRowLength(c, raw, zThreshold, maxDepth, y, n, carried);
    ReadIndexOrdered(c, x, y, n - 1, y);
    if n >= 2 {
      ReadIndexOrdered(c, n - 2, y, n - 1, y);
      SampleRowLength(c, raw, zThreshold, maxDepth, y, n - 1, carried);
      if x < n - 1 {
        SampleRowAt(c, raw, zThreshold, maxDepth, y, n - 1, carried, x);
      }
    }
  }

  lemma {:induction false} SampleGridLength(c: Config, raw: seq<int>, zThreshold: real, maxDepth: int, rows: nat)
    requires Valid(c) && rows <= c.yScaled
    requires rows == 0 || Readable(c, |raw|, c.xScaled - 1, rows - 1)
    ensures |SampleGrid(c, raw, zThreshold, maxDepth, rows)| == rows * c.xScaled
  {
    if rows > 0 {
      if rows >= 2 {
        ReadIndexOrdered(c, c.xScaled - 1, rows - 2, c.xScaled - 1, rows - 1);
        SampleGridLength(c, raw, zThreshold, maxDepth, rows - 1);
      }
      var prev := SampleGrid(c, raw, zThreshold, maxDepth, rows - 1);
      SampleRowLength(c, raw, zThreshold, maxDepth, rows - 1, c.xScaled, LastZ(prev, 0));
      assert rows * c.xScaled == (rows - 1) * c.xScaled + c.xScaled;
    }
  }

  /** Cell (x, y) of the grid: the Z rule looks back at the previous cell in
      row-major order, across row boundaries, and at Z = 0 before the first cell. */
  lemma {:induction false} SampleGridAt(c: Config, raw: seq<int>, zThreshold: real, maxDepth: int, rows: nat, x: nat, y: nat)
    requires Valid(c) && rows <= c.yScaled && x < c.xScaled && y < rows
    requires Readable(c, |raw|, c.xScaled - 1, rows - 1)
    ensures VertexIndex(c.xScaled, x, y) < |SampleGrid(c, raw, zThreshold, maxDepth, rows)|
    ensures Readable(c, |raw|, x, y)
    ensures SampleGrid(c, raw, zThreshold, maxDepth, rows)[VertexIndex(c.xScaled, x, y)] ==
      Point3D(x * c.factorX, y * c.factorY,
        NextZ(Pixel(raw, ReadIndex(c, x, y), maxDepth), zThreshold,
          if VertexIndex(c.xScaled, x, y) == 0 then 0
          else SampleGrid(c, raw, zThreshold, maxDepth, rows)[VertexIndex(c.xScaled, x, y) - 1].z))
  {
    var i := VertexIndex(c.xScaled, x, y);
    ReadIndexOrdered(c, x, y, c.xScaled - 1, rows - 1);
    SampleGridLength(c, raw, zThreshold, maxDepth, rows);
    VertexIndexBound(c.xScaled, x, y, rows);
    if rows >= 2 {
      ReadIndexOrdered(c, c.xScaled - 1, rows - 2, c.xScaled - 1, rows - 1);
    }
    var prev := SampleGrid(c, raw, zThreshold, maxDepth, rows - 1);
    var carried := LastZ(prev, 0);
    var row := SampleRow(c, raw, zThreshold, maxDepth, rows - 1, c.xScaled, carried);
    assert SampleGrid(c, raw, zThreshold, maxDepth, rows) == prev + row;
    SampleGridLength(c, raw, zThreshold, maxDepth, rows - 1);
    if y < rows - 1 {
      SampleGridAt(c, raw, zThreshold, maxDepth, rows - 1, x, y);
      VertexIndexBound(c.xScaled, x, y, rows - 1);
    } else {
      assert i == |prev| + x;
      SampleRowAt(c, raw, zThreshold, maxDepth, rows - 1, c.xScaled, carried, x);
      assert |prev| == 0 <==> rows == 1;
    }
  }

  /** The whole sampled grid: one point per vertex, each given by the threshold rule. */
  lemma SampledCells(c: Config, raw: seq<int>, zThreshold: real, maxDepth: int)
    requires Valid(c) && LastReadIndex(c) < |raw|
    ensures |Sampled(c, raw, zThreshold, maxDepth)| == VertexCount(c)
    ensures forall x, y :: 0 <= x < c.xScaled && 0 <= y < c.yScaled ==>
      && VertexIndex(c.xScaled, x, y) < |Sampled(c, raw, zThreshold, maxDepth)|
      && 0 <= ReadIndex(c, x, y) < |raw|
      && Sampled(c, raw, zThreshold, maxDepth)[VertexIndex(c.xScaled, x, y)] ==
        Point3D(x * c.factorX, y * c.factorY,
          NextZ(Pixel(raw, ReadIndex(c, x, y), maxDepth), zThreshold,
            if VertexIndex(c.xScaled, x, y) == 0 then 0
            else Sampled(c, raw, zThreshold, maxDepth)[VertexIndex(c.xScaled, x, y) - 1].z))
  {
    ReadIndexNonNegative(c, c.xScaled - 1, c.yScaled - 1);
    SampleGridLength(c, raw, zThreshold, maxDepth, c.yScaled);
    forall x, y | 0 <= x < c.xScaled && 0 <= y < c.yScaled
      ensures VertexIndex(c.xScaled, x, y) < |Sampled(c, raw, zThreshold, maxDepth)|
      ensures 0 <= ReadIndex(c, x, y) < |raw|
      ensures Sampled(c, raw, zThreshold, maxDepth)[VertexIndex(c.xScaled, x, y)] ==
        Point3D(x * c.factorX, y * c.factorY,
          NextZ(Pixel(raw, ReadIndex(c, x, y), maxDepth), zThreshold,
            if VertexIndex(c.xScaled, x, y) == 0 then 0
            else Sampled(c, raw, zThreshold, maxDepth)[VertexIndex(c.xScaled, x, y) - 1].z))
    {
      SampleGridAt(c, raw, zThreshold, maxDepth, c.yScaled, x, y);
    }
  }

  /** The position half of SampledCells for one cell: sampled X and Y are the cell's pixel coordinates. */
  lemma SampledPosition(c: Config, raw: seq<int>, zThreshold: real, maxDepth: int, x: nat, y: nat)
    requires Valid(c) && LastReadIndex(c) < |raw|
    requires x < c.xScaled && y < c.yScaled
    ensures |Sampled(c, raw, zThreshold, maxDepth)| == VertexCount(c)
    ensures VertexIndex(c.xScaled, x, y) < |Sampled(c, raw, zThreshold, maxDepth)|
    ensures Sampled(c, raw, zThreshold, maxDepth)[VertexIndex(c.xScaled, x, y)].x == x * c.factorX
    ensures Sampled(c, raw, zThreshold, maxDepth)[VertexIndex(c.xScaled, x, y)].y == y * c.factorY
  {
    SampledCells(c, raw, zThreshold, maxDepth);
  }

  /** Z carried out of a concatenation of runs. */
  lemma LastZConcat(prev: seq<Point3D>, row: seq<Point3D>, z0: int)
    ensures LastZ(prev + row, z0) == LastZ(row, LastZ(prev, z0))
  {
  }

  /** depthIndex advances by factorX per column. */
  lemma ReadIndexNextColumn(c: Config, x: nat, y: nat)
    requires Valid(c)
    ensures ReadIndex(c, x + 1, y) == ReadIndex(c, x, y) + c.factorX
  {
    assert (x + 1) * c.factorX == x * c.factorX + c.factorX;
  }

  /** How every quantity of the walk moves from row y to row y+1. */
  lemma NextRow(c: Config, raw: seq<int>, zThreshold: real, maxDepth: int, y: nat)
    requires Valid(c) && y < c.yScaled
    requires y == 0 || Readable(c, |raw|, c.xScaled - 1, y - 1)
    requires Readable(c, |raw|, c.xScaled - 1, y)
    ensures VertexIndex(c.xScaled, 0, y + 1) == VertexIndex(c.xScaled, 0, y) + c.xScaled
    ensures ReadIndex(c, 0, y + 1) == ReadIndex(c, c.xScaled, y) + (c.factorY - 1) * c.xRes
    ensures SampleGrid(c, raw, zThreshold, maxDepth, y + 1) ==
      SampleGrid(c, raw, zThreshold, maxDepth, y) +
      SampleRow(c, raw, zThreshold, maxDepth, y, c.xScaled, LastZ(SampleGrid(c, raw, zThreshold, maxDepth, y), 0))
    ensures LastZ(SampleGrid(c, raw, zThreshold, maxDepth, y + 1), 0) ==
      LastZ(SampleRow(c, raw, zThreshold, maxDepth, y, c.xScaled, LastZ(SampleGrid(c, raw, zThreshold, maxDepth, y), 0)),
            LastZ(SampleGrid(c, raw, zThreshold, maxDepth, y), 0))
  {
    assert (y + 1) * RowStride(c) == y * RowStride(c) + RowStride(c);
    assert (y + 1) * c.xScaled == y * c.xScaled + c.xScaled;
    var prev := SampleGrid(c, raw, zThreshold, maxDepth, y);
    LastZConcat(prev, SampleRow(c, raw, zThreshold, maxDepth, y, c.xScaled, LastZ(prev, 0)), 0);
  }

  /** A missing reading at a sampled pixel becomes maxDepth before the threshold
      test, so with a threshold no higher than maxDepth the cell's Z is maxDepth. */
  lemma MissingReadingBecomesMaxDepth(c: Config, raw: seq<int>, zThreshold: real, maxDepth: int, x: nat, y: nat)
    requires Valid(c) && LastReadIndex(c) < |raw| && x < c.xScaled && y < c.yScaled
    requires maxDepth as real >= zThreshold
    requires 0 <= ReadIndex(c, x, y) < |raw| && raw[ReadIndex(c, x, y)] == 0
    ensures VertexIndex(c.xScaled, x, y) < |Sampled(c, raw, zThreshold, maxDepth)|
    ensures Sampled(c, raw, zThreshold, maxDepth)[VertexIndex(c.xScaled, x, y)].z == maxDepth
  {
    SampledCells(c, raw, zThreshold, maxDepth);
  }

  /** With the sentinel as written, a missing reading yields depth 8 (at the default
      threshold 0 or any threshold up to 8). */
  lemma MissingReadingAsWrittenIsEight(c: Config, raw: seq<int>, zThreshold: real, x: nat, y: nat)
    requires Valid(c) && LastReadIndex(c) < |raw| && x < c.xScaled && y < c.yScaled
    requires zThreshold <= 8.0
    requires 0 <= ReadIndex(c, x, y) < |raw| && raw[ReadIndex(c, x, y)] == 0
    ensures VertexIndex(c.xScaled, x, y) < |Sampled(c, raw, zThreshold, MaxDepthAsWritten())|
    ensures Sampled(c, raw, zThreshold, MaxDepthAsWritten())[VertexIndex(c.xScaled, x, y)].z == 8
  {
    MaxDepthAsWrittenIsEight();
    MissingReadingBecomesMaxDepth(c, raw, zThreshold, MaxDepthAsWritten(), x, y);
  }

  /** A frame with no valid reading and a threshold no higher than maxDepth is flat:
      every sampled point has Z = maxDepth. */
  lemma AllMissingFrameIsFlat(c: Config, raw: seq<int>, zThreshold: real, maxDepth: int)
    requires Valid(c) && LastReadIndex(c) < |raw|
    requires forall k :: 0 <= k < |raw| ==> raw[k] == 0
    requires maxDepth as real >= zThreshold
    ensures forall i :: 0 <= i < |Sampled(c, raw, zThreshold, maxDepth)| ==>
      Sampled(c, raw, zThreshold, maxDepth)[i].z == maxDepth
  {
    SampledCells(c, raw, zThreshold, maxDepth);
    forall i | 0 <= i < |Sampled(c, raw, zThreshold, maxDepth)|
      ensures Sampled(c, raw, zThreshold, maxDepth)[i].z == maxDepth
    {
      CellOfVertexIndex(c.xScaled, c.yScaled, i);
      var x, y := i % c.xScaled, i / c.xScaled;
      assert Sampled(c, raw, zThreshold, maxDepth)[VertexIndex(c.xScaled, x, y)].z == maxDepth;
    }
  }

  /** The shared record carries a stale Z across a row boundary: when the last cell
      of the first row reaches the threshold and the first cell of the second row
      does not, the latter keeps the former's depth, although the two cells lie on
      opposite edges of the grid. */
  lemma StaleDepthCarriesAcrossRows(c: Config, raw: seq<int>, zThreshold: real, maxDepth: int)
    requires Valid(c) && LastReadIndex(c) < |raw| && c.yScaled >= 2
    requires 0 <= ReadIndex(c, c.xScaled - 1, 0) < |raw| && 0 <= ReadIndex(c, 0, 1) < |raw|
    requires Pixel(raw, ReadIndex(c, c.xScaled - 1, 0), maxDepth) as real >= zThreshold
    requires (Pixel(raw, ReadIndex(c, 0, 1), maxDepth) as real) < zThreshold
    ensures VertexIndex(c.xScaled, 0, 1) < |Sampled(c, raw, zThreshold, maxDepth)|
    ensures Sampled(c, raw, zThreshold, maxDepth)[VertexIndex(c.xScaled, 0, 1)].z ==
      Pixel(raw, ReadIndex(c, c.xScaled - 1, 0), maxDepth)
  {
    SampledCells(c, raw, zThreshold, maxDepth);
    assert VertexIndex(c.xScaled, 0, 1) - 1 == VertexIndex(c.xScaled, c.xScaled - 1, 0);
  }

  // ---------------------------------------------------------------------------
  // The loop itself

  /** The inner loop of the sampler for row y: reads one sample every factorX
      entries, stopping with ok == false where the C# code would index past the
      end of the depth map. */
  method FillRow(a: array<Point3D>, c: Config, raw: seq<int>, zThreshold: real, maxDepth: int,
                 y: nat, rowStart: nat, depthIndex: nat, pt: Point3D)
    returns (ok: bool, nextIndex: nat, nextPt: Point3D)
    requires Valid(c) && y < c.yScaled
    requires rowStart + c.xScaled <= a.Length
    requires depthIndex == ReadIndex(c, 0, y)
    modifies a
    ensures ok <==> Readable(c, |raw|, c.xScaled - 1, y)
    ensures ok ==> nextIndex == ReadIndex(c, c.xScaled, y)
    ensures ok ==>
      a[..rowStart + c.xScaled] == old(a[..rowStart]) + SampleRow(c, raw, zThreshold, maxDepth, y, c.xScaled, pt.z)
    ensures ok ==> nextPt.z == LastZ(SampleRow(c, raw, zThreshold, maxDepth, y, c.xScaled, pt.z), pt.z)
  {
    nextIndex := depthIndex;
    nextPt := pt;
    var x := 0;
    while x < c.xScaled
      invariant 0 <= x <= c.xScaled
      invariant nextIndex == ReadIndex(c, x, y)
      invariant x == 0 || Readable(c, |raw|, x - 1, y)
      invariant a[..rowStart + x] == old(a[..rowStart]) + SampleRow(c, raw, zThreshold, maxDepth, y, x, pt.z)
      invariant nextPt.z == LastZ(SampleRow(c, raw, zThreshold, maxDepth, y, x, pt.z), pt.z)
    {
      if nextIndex >= |raw| {
        ReadIndexOrdered(c, x, y, c.xScaled - 1, y);
        return false, nextIndex, nextPt;
      }
      var pixel := raw[nextIndex];
      if pixel == 0 {
        pixel := maxDepth; // no reading: default to the maximum depth
      }
      nextPt := nextPt.(x := x * c.factorX, y := y * c.factorY);
      if pixel as real >= zThreshold {
        nextPt := nextPt.(z := pixel);
      }
      a[rowStart + x] := nextPt;
      assert a[..rowStart + x + 1] == a[..rowStart + x] + [nextPt];
      ReadIndexNextColumn(c, x, y);
      x := x + 1;
      nextIndex := nextIndex + c.factorX;
    }
    ok := true;
  }

  /** One iteration of the outer loop: the row of cells, then the skipped lines.
      Its contract is the outer loop invariant carried from row y to row y+1. */
  method SampleGridRow(pts: array<Point3D>, c: Config, raw: seq<int>, zThreshold: real, maxDepth: int,
                       y: nat, rowStart: nat, depthIndex: nat, pt: Point3D)
    returns (ok: bool, nextIndex: nat, nextPt: Point3D)
    requires Valid(c) && y < c.yScaled
    requires rowStart == VertexIndex(c.xScaled, 0, y)
    requires rowStart + c.xScaled <= pts.Length
    requires depthIndex == ReadIndex(c, 0, y)
    requires y == 0 || Readable(c, |raw|, c.xScaled - 1, y - 1)
    requires pts[..rowStart] == SampleGrid(c, raw, zThreshold, maxDepth, y)
    requires pt.z == LastZ(SampleGrid(c, raw, zThreshold, maxDepth, y), 0)
    modifies pts
    ensures ok <==> Readable(c, |raw|, c.xScaled - 1, y)
    ensures ok ==> rowStart + c.xScaled == VertexIndex(c.xScaled, 0, y + 1)
    ensures ok ==> nextIndex == ReadIndex(c, 0, y + 1)
    ensures ok ==> pts[..rowStart + c.xScaled] == SampleGrid(c, raw, zThreshold, maxDepth, y + 1)
    ensures ok ==> nextPt.z == LastZ(SampleGrid(c, raw, zThreshold, maxDepth, y + 1), 0)
  {
    ok, nextIndex, nextPt := FillRow(pts, c, raw, zThreshold, maxDepth, y, rowStart, depthIndex, pt);
    if ok {
      NextRow(c, raw, zThreshold, maxDepth, y);
      ReadIndexNonNegative(c, 0, y + 1);
      // Skip lines
      nextIndex := nextIndex + (c.factorY - 1) * c.xRes;
    }
  }

  /**
    The first loop of UpdateVertices: one point per cell of the scaled grid, in
    row-major order, advancing depthIndex by factorX per column and skipping
    (factorY - 1) * XRes samples at the end of every row. KinectMesh.cs throws
    when the depth map is too short; here that is Failure(IndexOutOfRange).
   */
  method FillPoints(c: Config, raw: seq<int>, zThreshold: real, maxDepth: int)
    returns (r: Result<seq<Point3D>, SampleError>)
    requires Valid(c)
    ensures LastReadIndex(c) >= |raw| ==> r == Failure(IndexOutOfRange)
    ensures LastReadIndex(c) < |raw| ==>
      r.Success? && r.value == Sampled(c, raw, zThreshold, maxDepth) && |r.value| == VertexCount(c)
    ensures r.Success? ==> forall x, y :: 0 <= x < c.xScaled && 0 <= y < c.yScaled ==>
      && VertexIndex(c.xScaled, x, y) < |r.value|
      && 0 <= ReadIndex(c, x, y) < |raw|
      && r.value[VertexIndex(c.xScaled, x, y)] ==
        Point3D(x * c.factorX, y * c.factorY,
          NextZ(Pixel(raw, ReadIndex(c, x, y), maxDepth), zThreshold,
            if VertexIndex(c.xScaled, x, y) == 0 then 0 else r.value[VertexIndex(c.xScaled, x, y) - 1].z))
  {
    var pts := new Point3D[VertexCount(c)](_ => Point3D(0, 0, 0));
    var depthIndex := 0;
    var pt := Point3D(0, 0, 0);
    var y := 0;
    var rowStart := 0;
    while y < c.yScaled
      invariant 0 <= y <= c.yScaled
      invariant rowStart == VertexIndex(c.xScaled, 0, y)
      invariant rowStart <= pts.Length
      invariant depthIndex == ReadIndex(c, 0, y)
      invariant y == 0 || Readable(c, |raw|, c.xScaled - 1, y - 1)
      invariant pts[..rowStart] == SampleGrid(c, raw, zThreshold, maxDepth, y)
      invariant pt.z == LastZ(SampleGrid(c, raw, zThreshold, maxDepth, y), 0)
    {
      VertexIndexBound(c.xScaled, 0, y, c.yScaled);
      var ok;
      ok, depthIndex, pt := SampleGridRow(pts, c, raw, zThreshold, maxDepth, y, rowStart, depthIndex, pt);
      if !ok {
        ReadIndexOrdered(c, c.xScaled - 1, y, c.xScaled - 1, c.yScaled - 1);
        return Failure(IndexOutOfRange);
      }
      rowStart := rowStart + c.xScaled;
      y := y + 1;
    }
    VertexIndexPastLastRow(c.xScaled, c.yScaled);
    assert pts[..] == pts[..rowStart];
    SampledCells(c, raw, zThreshold, maxDepth);
    r := Success(pts[..]);
  }
}
