/**
  The sizing arithmetic done once when the mesh component starts: decimation
  factors from the sensor and desired resolutions, the scaled vertex grid, and
  the lengths of the vertex, UV and triangle-index buffers.
 */
module Grid {
  import opened Outcomes

  /** The only failure of the sizing code: an integer division by a zero factor. */
  datatype SetupError = DivideByZero

  /** Sensor resolution, decimation factors and scaled grid dimensions. */
  datatype Config = Config(xRes: nat, yRes: nat, factorX: nat, factorY: nat, xScaled: nat, yScaled: nat)

  /** A configuration produced by the sizing code: every scaled dimension is the
      sensor dimension divided by its factor, and the grid has at least one vertex. */
  predicate Valid(c: Config)
  {
    && c.factorX >= 1 && c.factorY >= 1
    && c.xScaled == c.xRes / c.factorX
    && c.yScaled == c.yRes / c.factorY
    && c.xScaled >= 1 && c.yScaled >= 1
  }

  /** Index of vertex (x, y) in every row-major grid buffer. */
  function VertexIndex(width: nat, x: nat, y: nat): nat
  {
    y * width + x
  }

  /** Vertex (x, y) lies inside the first `rows` rows, and row y ends where row y+1 starts. */
  lemma VertexIndexBound(width: nat, x: nat, y: nat, rows: nat)
    requires x < width && y < rows
    ensures VertexIndex(width, x, y) < rows * width
    ensures (y + 1) * width == VertexIndex(width, 0, y) + width <= rows * width
    ensures VertexIndex(width, 0, y) + width <= width * rows
  {
    assert (y + 1) * width == y * width + width;
    assert (y + 1) * width <= rows * width;
  }

  /** The row after the last one starts at the vertex count. */
  lemma VertexIndexPastLastRow(width: nat, height: nat)
    ensures VertexIndex(width, 0, height) == width * height
  {
  }

  /** Vertex i of a width x height grid is column i % width of row i / width. */
  lemma CellOfVertexIndex(width: nat, height: nat, i: nat)
    requires width >= 1 && i < width * height
    ensures i / width < height && i % width < width
    ensures VertexIndex(width, i % width, i / width) == i
  {
    assert (i / width) * width <= i;
    MulLessCancel(i / width, height, width);
  }

  /** Cell (x, y) of a width-wide grid is recovered from its index as column
      VertexIndex % width and row VertexIndex / width. */
  lemma VertexIndexRecoversCell(width: nat, x: nat, y: nat)
    requires x < width
    ensures VertexIndex(width, x, y) / width == y
    ensures VertexIndex(width, x, y) % width == x
  {
    var i := VertexIndex(width, x, y);
    DivAtLeast(i, width, y);
    assert (i / width) * width <= i < (y + 1) * width;
    MulLessCancel(i / width, y + 1, width);
  }

  /** One vertex (and one UV and one sampled point) per cell of the scaled grid. */
  function VertexCount(c: Config): nat
  {
    c.xScaled * c.yScaled
  }

  /** Two triangles of three indices for each of the (xScaled-1)*(yScaled-1) cells. */
  function IndexCount(c: Config): nat
    requires Valid(c)
  {
    var cellsX: nat := c.xScaled - 1;
    var cellsY: nat := c.yScaled - 1;
    cellsX * cellsY * 2 * 3
  }

  /** If q copies of b fit in a, the quotient a / b is at least q. */
  lemma DivAtLeast(a: nat, b: nat, q: nat)
    requires b > 0 && q * b <= a
    ensures q <= a / b
  {
    var d := a / b;
    assert a < (d + 1) * b;
    MulLessCancel(q, d + 1, b);
  }

  /** Dividing an exact product by one factor gives the other. */
  lemma DivExact(a: nat, b: nat, q: nat)
    requires b > 0 && a == q * b
    ensures a / b == q
  {
    DivAtLeast(a, b, q);
    var d := a / b;
    assert d * b <= a;
    MulLessCancel(d, q + 1, b);
  }

  /** Cancelling a positive factor on both sides of a strict inequality. */
  lemma MulLessCancel(x: int, y: int, b: int)
    requires b > 0 && x * b < y * b
    ensures x < y
  {
  }

  /**
    Start: factorX = XRes / desiredX and factorY = YRes / desiredY, then
    YScaled = YRes / factorY and XScaled = XRes / factorX, which divide by zero
    when the desired resolution exceeds the sensor resolution.
   */
  function Setup(xRes: nat, yRes: nat, desiredX: nat, desiredY: nat): (r: Result<Config, SetupError>)
    requires desiredX >= 1 && desiredY >= 1
    ensures r.Success? <==> xRes >= desiredX && yRes >= desiredY
    ensures r.Success? ==>
      && Valid(r.value)
      && r.value.xRes == xRes && r.value.yRes == yRes
      && r.value.factorX == xRes / desiredX && r.value.factorY == yRes / desiredY
      && r.value.xScaled >= desiredX && r.value.yScaled >= desiredY
      && r.value.xScaled * r.value.factorX <= xRes
      && r.value.yScaled * r.value.factorY <= yRes
    ensures r.Success? && xRes % desiredX == 0 ==> r.value.xScaled == desiredX
    ensures r.Success? && yRes % desiredY == 0 ==> r.value.yScaled == desiredY
  {
    var factorX := xRes / desiredX;
    var factorY := yRes / desiredY;
    FactorZeroIff(xRes, desiredX);
    FactorZeroIff(yRes, desiredY);
    if factorY == 0 || factorX == 0 then
      Failure(DivideByZero)
    else
      ScaledAtLeastDesired(xRes, desiredX);
      ScaledAtLeastDesired(yRes, desiredY);
      Success(Config(xRes, yRes, factorX, factorY, xRes / factorX, yRes / factorY))
  }

  /** The decimation factor is zero exactly when the desired resolution exceeds the sensor's. */
  lemma FactorZeroIff(res: nat, desired: nat)
    requires desired >= 1
    ensures res / desired == 0 <==> res < desired
  {
    if res >= desired {
      DivAtLeast(res, desired, 1);
    }
  }

  /** Dividing a resolution by its decimation factor gives back at least the desired
      resolution, and exactly it when the desired resolution divides the sensor's. */
  lemma ScaledAtLeastDesired(res: nat, desired: nat)
    requires desired >= 1 && res >= desired
    ensures res / (res / desired) >= desired
    ensures (res / (res / desired)) * (res / desired) <= res
    ensures res % desired == 0 ==> res / (res / desired) == desired
  {
    DivAtLeast(res, desired, 1);
    var f := res / desired;
    assert f * desired + res % desired == res;
    DivAtLeast(res, f, desired);
    if res % desired == 0 {
      DivExact(res, f, desired);
    }
  }

  /** A 640x480 sensor with the default 160x120 target resolution. */
  lemma DefaultKinectSizing()
    ensures Setup(640, 480, 160, 120) == Success(Config(640, 480, 4, 4, 160, 120))
    ensures VertexCount(Config(640, 480, 4, 4, 160, 120)) == 19200
    ensures IndexCount(Config(640, 480, 4, 4, 160, 120)) == 113526
  {
  }
}
