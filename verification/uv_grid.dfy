/**
  The static UV buffer: one texture coordinate per vertex of the scaled grid,
  with the vertical axis flipped, computed once from the grid dimensions.
  Coordinates are exact reals; the C# code divides single-precision floats.
 */
module UvGrid {
  import opened Grid

  datatype Uv = Uv(u: real, v: real)

  /** Texture coordinate of vertex (x, y) of a width x height grid. */
  function UvAt(width: nat, height: nat, x: int, y: int): Uv
    requires width >= 1 && height >= 1
  {
    Uv(x as real / width as real, (height - 1 - y) as real / height as real)
  }

  predicate InUnitInterval(t: real)
  {
    0.0 <= t < 1.0
  }

  /** The UV of a vertex determines the vertex: scaling u back by the width and
      unflipping v recovers (x, y), so no two vertices share a texture coordinate. */
  lemma UvAtRecoversVertex(width: nat, height: nat, x: int, y: int, x2: int, y2: int)
    requires width >= 1 && height >= 1
    ensures UvAt(width, height, x, y).u * width as real == x as real
    ensures height as real - 1.0 - UvAt(width, height, x, y).v * height as real == y as real
    ensures UvAt(width, height, x, y) == UvAt(width, height, x2, y2) <==> x == x2 && y == y2
  {
    var w, h := width as real, height as real;
    assert (x as real / w) * w == x as real;
    assert ((height - 1 - y) as real / h) * h == (height - 1 - y) as real;
    assert (x2 as real / w) * w == x2 as real;
    assert ((height - 1 - y2) as real / h) * h == (height - 1 - y2) as real;
  }

  /** UVs of the first n vertices of row y. */
  function UvRow(width: nat, height: nat, y: nat, n: nat): seq<Uv>
    requires width >= 1 && height >= 1
  {
    if n == 0 then [] else UvRow(width, height, y, n - 1) + [UvAt(width, height, n - 1, y)]
  }

  /** UVs of the first `rows` rows, in vertex-buffer order. */
  function UvRows(width: nat, height: nat, rows: nat): seq<Uv>
    requires width >= 1 && height >= 1
  {
    if rows == 0 then [] else UvRows(width, height, rows - 1) + UvRow(width, height, rows - 1, width)
  }

  /** Reference definition of the whole UV buffer. */
  function UvBuffer(width: nat, height: nat): seq<Uv>
    requires width >= 1 && height >= 1
  {
    UvRows(width, height, height)
  }

  /** A fraction with numerator in [0, d) lies in [0, 1). */
  lemma FractionInUnitInterval(n: int, d: nat)
    requires 0 <= n < d
    ensures InUnitInterval(n as real / d as real)
  {
    assert n as real < d as real;
  }

  /** Both coordinates of every vertex of the grid lie in [0, 1). */
  lemma UvAtInUnitSquare(width: nat, height: nat, x: int, y: int)
    requires width >= 1 && height >= 1
    requires 0 <= x < width && 0 <= y < height
    ensures InUnitInterval(UvAt(width, height, x, y).u)
    ensures InUnitInterval(UvAt(width, height, x, y).v)
  {
    FractionInUnitInterval(x, width);
    FractionInUnitInterval(height - 1 - y, height);
  }

  lemma {:induction false} UvRowAt(width: nat, height: nat, y: nat, n: nat, x: nat)
    requires width >= 1 && height >= 1 && x < n
    ensures |UvRow(width, height, y, n)| == n
    ensures UvRow(width, height, y, n)[x] == UvAt(width, height, x, y)
  {
    if x < n - 1 {
      UvRowAt(width, height, y, n - 1, x);
    } else if n > 1 {
      UvRowAt(width, height, y, n - 1, 0);
    }
  }

  lemma {:induction false} UvRowsLength(width: nat, height: nat, rows: nat)
    requires width >= 1 && height >= 1
    ensures |UvRows(width, height, rows)| == rows * width
  {
    if rows > 0 {
      UvRowsLength(width, height, rows - 1);
      UvRowAt(width, height, rows - 1, width, 0);
      assert rows * width == (rows - 1) * width + width;
    }
  }

  lemma {:induction false} UvRowsAt(width: nat, height: nat, rows: nat, x: nat, y: nat)
    requires width >= 1 && height >= 1 && x < width && y < rows
    ensures VertexIndex(width, x, y) < |UvRows(width, height, rows)|
    ensures UvRows(width, height, rows)[VertexIndex(width, x, y)] == UvAt(width, height, x, y)
  {
    var prev := UvRows(width, height, rows - 1);
    UvRowsLength(width, height, rows);
    UvRowsLength(width, height, rows - 1);
    UvRowAt(width, height, rows - 1, width, x);
    VertexIndexBound(width, x, y, rows);
    if y < rows - 1 {
      UvRowsAt(width, height, rows - 1, x, y);
      VertexIndexBound(width, x, y, rows - 1);
    } else {
      assert VertexIndex(width, x, y) == |prev| + x;
    }
  }

  /** Every slot of the buffer holds the UV of its own vertex, and every UV lies in [0, 1)^2. */
  lemma UvBufferFacts(width: nat, height: nat)
    requires width >= 1 && height >= 1
    ensures |UvBuffer(width, height)| == width * height
    ensures forall i :: 0 <= i < |UvBuffer(width, height)| ==>
      UvBuffer(width, height)[i] == UvAt(width, height, i % width, i / width)
    ensures forall i :: 0 <= i < |UvBuffer(width, height)| ==>
      InUnitInterval(UvBuffer(width, height)[i].u) && InUnitInterval(UvBuffer(width, height)[i].v)
  {
    UvRowsLength(width, height, height);
    forall i | 0 <= i < |UvBuffer(width, height)|
      ensures UvBuffer(width, height)[i] == UvAt(width, height, i % width, i / width)
      ensures InUnitInterval(UvBuffer(width, height)[i].u) && InUnitInterval(UvBuffer(width, height)[i].v)
    {
      CellOfVertexIndex(width, height, i);
      UvRowsAt(width, height, height, i % width, i / width);
      UvAtInUnitSquare(width, height, i % width, i / width);
    }
  }

  /** The inner loop of CalculateUVs: row y, whose first vertex is rowStart. */
  method EmitUvRow(a: array<Uv>, rowStart: nat, y: nat, width: nat, height: nat)
    requires width >= 1 && height >= 1
    requires rowStart + width <= a.Length
    modifies a
    ensures a[..rowStart + width] == old(a[..rowStart]) + UvRow(width, height, y, width)
  {
    var x := 0;
    while x < width
      invariant 0 <= x <= width
      invariant a[..rowStart + x] == old(a[..rowStart]) + UvRow(width, height, y, x)
    {
      a[rowStart + x] := UvAt(width, height, x, y);
      assert a[..rowStart + x + 1] == a[..rowStart + x] + [a[rowStart + x]];
      x := x + 1;
    }
  }

  /**
    CalculateUVs: fills uvs[y * XScaled + x] with (x / XScaled, (YScaled - 1 - y) / YScaled)
    for every vertex, row by row.
   */
  method CalculateUVs(yScaled: nat, xScaled: nat) returns (uvs: seq<Uv>)
    requires xScaled >= 1 && yScaled >= 1
    ensures uvs == UvBuffer(xScaled, yScaled)
    ensures |uvs| == xScaled * yScaled
    ensures forall x, y :: 0 <= x < xScaled && 0 <= y < yScaled ==>
      VertexIndex(xScaled, x, y) < |uvs| && uvs[VertexIndex(xScaled, x, y)] == UvAt(xScaled, yScaled, x, y)
    ensures forall i :: 0 <= i < |uvs| ==> uvs[i] == UvAt(xScaled, yScaled, i % xScaled, i / xScaled)
    ensures forall i :: 0 <= i < |uvs| ==> InUnitInterval(uvs[i].u) && InUnitInterval(uvs[i].v)
  {
    var a := new Uv[xScaled * yScaled](_ => Uv(0.0, 0.0));
    assert a.Length == yScaled * xScaled;
    var y := 0;
    var rowStart := 0;
    while y < yScaled
      invariant 0 <= y <= yScaled
      invariant rowStart == VertexIndex(xScaled, 0, y)
      invariant a[..rowStart] == UvRows(xScaled, yScaled, y)
    {
      VertexIndexBound(xScaled, 0, y, yScaled);
      EmitUvRow(a, rowStart, y, xScaled, yScaled);
      rowStart := rowStart + xScaled;
      y := y + 1;
    }
    assert a[..] == a[..rowStart];
    uvs := a[..];
    UvBufferFacts(xScaled, yScaled);
    forall x, y | 0 <= x < xScaled && 0 <= y < yScaled
      ensures VertexIndex(xScaled, x, y) < |uvs| && uvs[VertexIndex(xScaled, x, y)] == UvAt(xScaled, yScaled, x, y)
    {
      VertexIndexBound(xScaled, x, y, yScaled);
      VertexIndexRecoversCell(xScaled, x, y);
    }
  }

  /** A 4 x 3 grid: the bottom-left vertex maps to (0, 0) and the top-right one to (3/4, 2/3). */
  lemma UvCornersOfFourByThree()
    ensures UvBuffer(4, 3)[VertexIndex(4, 0, 2)] == Uv(0.0, 0.0)
    ensures UvBuffer(4, 3)[VertexIndex(4, 3, 0)] == Uv(0.75, 2.0 / 3.0)
  {
    UvRowsAt(4, 3, 3, 0, 2);
    UvRowsAt(4, 3, 3, 3, 0);
  }
}
