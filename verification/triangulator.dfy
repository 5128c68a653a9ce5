/**
  The static triangle-index buffer: two counter-clockwise triangles per cell of
  the scaled vertex grid, computed once from the grid dimensions.
 */
module Triangulator {
  import opened Grid

  /** The six indices emitted for the cell whose lower-left vertex is p:
      triangles (p+1, p, p+w) and (p+1, p+w, p+w+1). */
  function CellTriangles(p: int, width: int): seq<int>
  {
    [p + 1, p, p + width, p + 1, p + width, p + width + 1]
  }

  /** Position of entry j of cell (x, y) in the triangle buffer. */
  function CellIndex(width: nat, x: nat, y: nat, j: nat): nat
    requires width >= 1
  {
    6 * (y * (width - 1) + x) + j
  }

  /** Triangles of the first n cells of cell-row y, left to right. */
  function RowTriangles(width: nat, y: nat, n: nat): seq<int>
  {
    if n == 0 then [] else RowTriangles(width, y, n - 1) + CellTriangles(VertexIndex(width, n - 1, y), width)
  }

  /** Triangles of the first `rows` cell-rows, bottom to top. */
  function TriangleRows(width: nat, rows: nat): seq<int>
    requires width >= 1
  {
    if rows == 0 then [] else TriangleRows(width, rows - 1) + RowTriangles(width, rows - 1, width - 1)
  }

  /** Reference definition of the whole triangle buffer of a width x height grid. */
  function TriangleList(width: nat, height: nat): seq<int>
    requires width >= 1 && height >= 1
  {
    TriangleRows(width, height - 1)
  }

  lemma {:induction false} RowTrianglesLength(width: nat, y: nat, n: nat)
    ensures |RowTriangles(width, y, n)| == 6 * n
  {
    if n > 0 {
      RowTrianglesLength(width, y, n - 1);
    }
  }

  lemma {:induction false} TriangleRowsLength(width: nat, rows: nat)
    requires width >= 1
    ensures |TriangleRows(width, rows)| == 6 * (rows * (width - 1))
  {
    if rows > 0 {
      TriangleRowsLength(width, rows - 1);
      RowTrianglesLength(width, rows - 1, width - 1);
      assert rows * (width - 1) == (rows - 1) * (width - 1) + (width - 1);
    }
  }

  /** Entry j of the x-th cell of a row holds the cell's formula. */
  lemma {:induction false} RowTrianglesAt(width: nat, y: nat, n: nat, x: nat, j: nat)
    requires x < n && j < 6
    ensures 6 * x + j < |RowTriangles(width, y, n)|
    ensures RowTriangles(width, y, n)[6 * x + j] == CellTriangles(VertexIndex(width, x, y), width)[j]
  {
    RowTrianglesLength(width, y, n);
    RowTrianglesLength(width, y, n - 1);
    if x < n - 1 {
      RowTrianglesAt(width, y, n - 1, x, j);
    }
  }

  /** Slot arithmetic: cell (x, y) of a grid with w1 cells per row ends no later
      than the first `rows` rows do, and the next row starts right after row y. */
  lemma CellSlotBound(w1: nat, x: nat, y: nat, rows: nat)
    requires x < w1 && y < rows
    ensures y * w1 + x + 1 <= rows * w1
    ensures (y + 1) * w1 == y * w1 + w1
  {
    assert (y + 1) * w1 == y * w1 + w1;
    assert (y + 1) * w1 <= rows * w1;
  }

  /** Slot arithmetic for a whole row: row y of cells fits in the buffer of `rows`
      rows, and the counters of row y+1 continue those of row y. */
  lemma RowSlotBound(w1: nat, y: nat, rows: nat)
    requires y < rows
    ensures 6 * (y * w1) + 6 * w1 <= 6 * (rows * w1)
    ensures 6 * ((y + 1) * w1) == 6 * (y * w1) + 6 * w1
    ensures (y + 1) * (w1 + 1) == y * (w1 + 1) + w1 + 1
  {
    assert (y + 1) * w1 == y * w1 + w1;
    assert (y + 1) * w1 <= rows * w1;
  }

  /** Every cell of the first `rows` rows sits at CellIndex and holds its formula. */
  lemma {:induction false} TriangleRowsAt(width: nat, rows: nat, x: nat, y: nat, j: nat)
    requires width >= 1 && x < width - 1 && y < rows && j < 6
    ensures CellIndex(width, x, y, j) < |TriangleRows(width, rows)|
    ensures TriangleRows(width, rows)[CellIndex(width, x, y, j)] == CellTriangles(VertexIndex(width, x, y), width)[j]
  {
    var w1: nat := width - 1;
    var prev := TriangleRows(width, rows - 1);
    var row := RowTriangles(width, rows - 1, w1);
    assert TriangleRows(width, rows) == prev + row;
    TriangleRowsLength(width, rows - 1);
    RowTrianglesLength(width, rows - 1, w1);
    var base := y * w1;
    assert CellIndex(width, x, y, j) == 6 * base + 6 * x + j;
    if y < rows - 1 {
      TriangleRowsAt(width, rows - 1, x, y, j);
      CellSlotBound(w1, x, y, rows - 1);
      assert CellIndex(width, x, y, j) < |prev|;
    } else {
      RowTrianglesAt(width, y, w1, x, j);
      assert |prev| == 6 * base;
    }
  }

  /** Entries of the first n cells of row y lie in rows y and y+1 of the vertex grid. */
  lemma {:induction false} RowTrianglesBounds(width: nat, y: nat, n: nat)
    requires n <= width - 1
    ensures forall k :: 0 <= k < |RowTriangles(width, y, n)| ==>
      y * width <= RowTriangles(width, y, n)[k] < (y + 2) * width
  {
    if n > 0 {
      RowTrianglesBounds(width, y, n - 1);
      var p := VertexIndex(width, n - 1, y);
      assert p + width + 1 < (y + 2) * width;
    }
  }

  /** Entries of the first `rows` cell-rows lie in the first rows+1 vertex rows. */
  lemma {:induction false} TriangleRowsBounds(width: nat, rows: nat)
    requires width >= 1
    ensures forall k :: 0 <= k < |TriangleRows(width, rows)| ==>
      0 <= TriangleRows(width, rows)[k] < (rows + 1) * width
  {
    if rows > 0 {
      TriangleRowsBounds(width, rows - 1);
      RowTrianglesBounds(width, rows - 1, width - 1);
      var prev := TriangleRows(width, rows - 1);
      var row := RowTriangles(width, rows - 1, width - 1);
      assert rows * width <= (rows + 1) * width;
      forall k | 0 <= k < |prev + row|
        ensures 0 <= (prev + row)[k] < (rows + 1) * width
      {
        if k >= |prev| {
          assert (prev + row)[k] == row[k - |prev|];
        }
      }
    }
  }

  /** Every index stored in the triangle buffer names a vertex of the grid. */
  lemma TriangleListBounds(width: nat, height: nat)
    requires width >= 1 && height >= 1
    ensures forall k :: 0 <= k < |TriangleList(width, height)| ==>
      0 <= TriangleList(width, height)[k] < width * height
  {
    TriangleRowsBounds(width, height - 1);
  }

  lemma TriangleListLength(width: nat, height: nat)
    requires width >= 1 && height >= 1
    ensures |TriangleList(width, height)| == (width - 1) * (height - 1) * 2 * 3
  {
    TriangleRowsLength(width, height - 1);
  }

  /** Cell (x, y) of the buffer holds p+1, p, p+w, p+1, p+w, p+w+1 for p = y*w + x. */
  lemma TriangleListCells(width: nat, height: nat)
    requires width >= 1 && height >= 1
    ensures forall x, y, j :: 0 <= x < width - 1 && 0 <= y < height - 1 && 0 <= j < 6 ==>
      CellIndex(width, x, y, j) < |TriangleList(width, height)| &&
      TriangleList(width, height)[CellIndex(width, x, y, j)] == CellTriangles(VertexIndex(width, x, y), width)[j]
  {
    forall x, y, j | 0 <= x < width - 1 && 0 <= y < height - 1 && 0 <= j < 6
      ensures CellIndex(width, x, y, j) < |TriangleList(width, height)|
      ensures TriangleList(width, height)[CellIndex(width, x, y, j)] == CellTriangles(VertexIndex(width, x, y), width)[j]
    {
      TriangleRowsAt(width, height - 1, x, y, j);
    }
  }

  /** The buffer-level facts the setup code relies on, in one place. */
  lemma TriangleListFacts(width: nat, height: nat)
    requires width >= 1 && height >= 1
    ensures |TriangleList(width, height)| == (width - 1) * (height - 1) * 2 * 3
    ensures forall k :: 0 <= k < |TriangleList(width, height)| ==> 0 <= TriangleList(width, height)[k] < width * height
    ensures forall x, y, j :: 0 <= x < width - 1 && 0 <= y < height - 1 && 0 <= j < 6 ==>
      CellIndex(width, x, y, j) < |TriangleList(width, height)| &&
      TriangleList(width, height)[CellIndex(width, x, y, j)] == CellTriangles(VertexIndex(width, x, y), width)[j]
  {
    TriangleListLength(width, height);
    TriangleListBounds(width, height);
    TriangleListCells(width, height);
  }

  /** The six writes `tris[triIndex++] = ...` of one cell, in the loop's order. */
  method EmitCell(a: array<int>, triIndex: nat, posIndex: int, width: int) returns (next: nat)
    requires triIndex + 6 <= a.Length
    modifies a
    ensures next == triIndex + 6
    ensures a[..triIndex] == old(a[..triIndex])
    ensures a[triIndex..next] == CellTriangles(posIndex, width)
    ensures a[..next] == old(a[..triIndex]) + CellTriangles(posIndex, width)
  {
    next := triIndex;
    a[next] := posIndex + 1; next := next + 1; // bottom right
    a[next] := posIndex; next := next + 1; // bottom left
    a[next] := posIndex + width; next := next + 1; // top left
    a[next] := posIndex + 1; next := next + 1; // bottom right
    a[next] := posIndex + width; next := next + 1; // top left
    a[next] := posIndex + width + 1; next := next + 1; // top right
    assert a[..next] == a[..triIndex] + a[triIndex..next];
  }

  /** The inner loop of CalculateTriangleIndices: the cells of row y, left to right. */
  method EmitRow(a: array<int>, triIndex: nat, posIndex: int, y: nat, width: nat) returns (nextTri: nat, nextPos: int)
    requires width >= 1
    requires posIndex == VertexIndex(width, 0, y)
    requires triIndex + 6 * (width - 1) <= a.Length
    modifies a
    ensures nextTri == triIndex + 6 * (width - 1)
    ensures nextPos == posIndex + width - 1
    ensures a[..nextTri] == old(a[..triIndex]) + RowTriangles(width, y, width - 1)
  {
    nextTri := triIndex;
    nextPos := posIndex;
    var x := 0;
    while x < width - 1
      invariant 0 <= x <= width - 1
      invariant nextPos == posIndex + x
      invariant nextTri == triIndex + 6 * x
      invariant a[..nextTri] == old(a[..triIndex]) + RowTriangles(width, y, x)
    {
      // Counter-clockwise triangles
      nextTri := EmitCell(a, nextTri, nextPos, width);
      x := x + 1;
      nextPos := nextPos + 1;
    }
  }

  /**
    CalculateTriangleIndices: a nested loop over cells with the running counters
    triIndex (next buffer slot) and posIndex (lower-left vertex of the cell),
    where posIndex skips one extra vertex at the end of every row.
   */
  method CalculateTriangleIndices(yScaled: nat, xScaled: nat) returns (tris: seq<int>)
    requires xScaled >= 1 && yScaled >= 1
    ensures tris == TriangleList(xScaled, yScaled)
    ensures |tris| == (xScaled - 1) * (yScaled - 1) * 2 * 3
    ensures forall k :: 0 <= k < |tris| ==> 0 <= tris[k] < xScaled * yScaled
    ensures forall x, y, j :: 0 <= x < xScaled - 1 && 0 <= y < yScaled - 1 && 0 <= j < 6 ==>
      CellIndex(xScaled, x, y, j) < |tris| &&
      tris[CellIndex(xScaled, x, y, j)] == CellTriangles(VertexIndex(xScaled, x, y), xScaled)[j]
  {
    var cellsX: nat := xScaled - 1;
    var cellsY: nat := yScaled - 1;
    var length := cellsX * cellsY * 2 * 3;
    assert length == 6 * (cellsY * cellsX);
    var a := new int[length];
    var triIndex := 0;
    var posIndex := 0;
    var y := 0;
    while y < yScaled - 1
      invariant 0 <= y <= cellsY
      invariant posIndex == y * xScaled
      invariant triIndex == 6 * (y * cellsX) <= a.Length
      invariant a[..triIndex] == TriangleRows(xScaled, y)
    {
      RowSlotBound(cellsX, y, cellsY);
      triIndex, posIndex := EmitRow(a, triIndex, posIndex, y, xScaled);
      // finish row
      posIndex := posIndex + 1;
      y := y + 1;
    }
    assert a[..] == a[..triIndex];
    tris := a[..];
    TriangleListFacts(xScaled, yScaled);
  }
}
